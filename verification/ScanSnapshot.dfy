// What a snapshot prints and remembers, and which devices it calls lost.
module ScanSnapshot {
  import opened Wrappers
  import opened MachineInts
  import opened ScanModel
  import opened ScanHistory
  import opened ScanAggregates
  import Permutations

  datatype Row = Row(entry: Entry, average: i16, delta: Option<int>, age: u64)

  datatype ScanReport = ScanReport(
    count: nat,
    packets: u32,
    malformed: u32,
    evicted: u32,
    rows: seq<Row>,
    beaconCount: nat,
    beaconRows: seq<Row>,
    lostCount: nat,
    lostRows: seq<DisplayedDevice>)

  function RowOf(e: Entry, now: u64): Row {
    Row(e, e.Strength(), if e.previousAverage.Some? then Some(e.Strength() - e.previousAverage.value) else None,
        SaturatingSubU64(now, e.lastSeen))
  }

  function Rows(entries: seq<Entry>, now: u64): (rows: seq<Row>)
    ensures |rows| == |entries| && forall i :: 0 <= i < |rows| ==> rows[i] == RowOf(entries[i], now)
  {
    if entries == [] then [] else [RowOf(entries[0], now)] + Rows(entries[1..], now)
  }

  function Beacons(entries: seq<Entry>): seq<Entry> {
    if entries == [] then []
    else (if entries[0].beacon.IsBeacon() then [entries[0]] else []) + Beacons(entries[1..])
  }

  function ReportOf(s: Registry, now: u64, order: seq<Slot>): ScanReport {
    var active := Actives(order);
    var lost := Lost(s.remembered, RemoveStale(s.entries, now));
    ScanReport(|active|, s.windowReports, s.malformedReports, s.evictions,
               Rows(Take(active, SNAPSHOT_DISPLAY_LIMIT), now),
               |Beacons(active)|, Rows(Take(Beacons(active), BEACON_DISPLAY_LIMIT), now),
               |lost|, Take(lost, SNAPSHOT_DISPLAY_LIMIT))
  }

  /* ---------- the strongest devices ---------- */

  predicate StrongestFirst(entries: seq<Entry>) {
    forall i, j :: 0 <= i < j < |entries| ==> entries[j].Strength() <= entries[i].Strength()
  }

  /** The chosen entries are as many as fit, strongest first, and none left out is stronger than one chosen. */
  ghost predicate IsTop(chosen: seq<Entry>, all: seq<Entry>, limit: nat) {
    && |chosen| == Min(|all|, limit)
    && multiset(chosen) <= multiset(all)
    && StrongestFirst(chosen)
    && (forall e, o :: e in chosen && o in multiset(all) - multiset(chosen) ==> o.Strength() <= e.Strength())
  }

  lemma {:induction false} ActivesCount(slots: seq<Slot>, e: Entry)
    ensures multiset(Actives(slots))[e] == if e.Active() then multiset(slots)[Some(e)] else 0
  {
    if slots != [] {
      assert slots == [slots[0]] + slots[1..];
      ActivesCount(slots[1..], e);
    }
  }

  lemma {:induction false} BeaconsCount(entries: seq<Entry>, e: Entry)
    ensures multiset(Beacons(entries))[e] == if e.beacon.IsBeacon() then multiset(entries)[e] else 0
  {
    if entries != [] {
      assert entries == [entries[0]] + entries[1..];
      BeaconsCount(entries[1..], e);
    }
  }

  /** Sorting moves slots around; the active entries and the beacons among them stay the same. */
  lemma SortKeepsActives(slots: seq<Slot>, order: seq<Slot>)
    requires multiset(slots) == multiset(order)
    ensures multiset(Actives(order)) == multiset(Actives(slots))
    ensures |Actives(order)| == |Actives(slots)|
    ensures multiset(Beacons(Actives(order))) == multiset(Beacons(Actives(slots)))
    ensures |Beacons(Actives(order))| == |Beacons(Actives(slots))|
  {
    SameActives(slots, order);
    BeaconsOfSame(Actives(slots), Actives(order));
    Permutations.SameSize(Actives(slots), Actives(order));
    Permutations.SameSize(Beacons(Actives(slots)), Beacons(Actives(order)));
  }

  lemma SameActives(slots: seq<Slot>, order: seq<Slot>)
    requires multiset(slots) == multiset(order)
    ensures multiset(Actives(order)) == multiset(Actives(slots))
  {
    forall e
      ensures multiset(Actives(order))[e] == multiset(Actives(slots))[e]
    {
      ActivesCount(slots, e);
      ActivesCount(order, e);
    }
  }

  lemma BeaconsOfSame(a: seq<Entry>, b: seq<Entry>)
    requires multiset(a) == multiset(b)
    ensures multiset(Beacons(a)) == multiset(Beacons(b))
  {
    forall e
      ensures multiset(Beacons(a))[e] == multiset(Beacons(b))[e]
    {
      BeaconsCount(a, e);
      BeaconsCount(b, e);
    }
  }

  lemma {:induction false} ActivesMember(slots: seq<Slot>, e: Entry)
    ensures e in Actives(slots) <==> e.Active() && Some(e) in slots
  {
    ActivesCount(slots, e);
    assert e in Actives(slots) <==> multiset(Actives(slots))[e] > 0;
    assert Some(e) in slots <==> multiset(slots)[Some(e)] > 0;
  }

  lemma ActiveInSlot(slots: seq<Slot>, order: seq<Slot>, e: Entry) returns (i: nat)
    requires multiset(slots) == multiset(order) && e in Actives(order)
    ensures i < |slots| && slots[i] == Some(e) && e.Active()
  {
    ActivesMember(order, e);
    assert Some(e) in multiset(order);
    assert Some(e) in slots;
    i :| 0 <= i < |slots| && slots[i] == Some(e);
  }

  lemma {:induction false} ActivesDescend(order: seq<Slot>)
    requires Descending(order)
    ensures StrongestFirst(Actives(order))
  {
    if order != [] {
      ActivesDescend(order[1..]);
      var tail := Actives(order[1..]);
      forall j | 0 <= j < |tail| && order[0].Some? && order[0].value.Active()
        ensures tail[j].Strength() <= order[0].value.Strength()
      {
        ActivesMember(order[1..], tail[j]);
        var k :| 0 <= k < |order[1..]| && order[1..][k] == Some(tail[j]);
        assert AtLeast(SlotAverage(order[0]), SlotAverage(order[k + 1]));
      }
    }
  }

  lemma {:induction false} BeaconsDescend(entries: seq<Entry>)
    requires StrongestFirst(entries)
    ensures StrongestFirst(Beacons(entries))
    ensures forall b :: b in Beacons(entries) ==> b in entries
  {
    if entries != [] {
      BeaconsDescend(entries[1..]);
      assert forall b :: b in entries[1..] ==> b.Strength() <= entries[0].Strength();
      var tail := Beacons(entries[1..]);
      assert forall j :: 0 <= j < |tail| ==> tail[j] in entries[1..];
    }
  }

  lemma TakeIsTop(ordered: seq<Entry>, all: seq<Entry>, limit: nat)
    requires StrongestFirst(ordered) && multiset(ordered) == multiset(all)
    ensures IsTop(Take(ordered, limit), all, limit)
  {
    var chosen := Take(ordered, limit);
    var rest := ordered[|chosen|..];
    assert ordered == chosen + rest;
    Permutations.SameSize(ordered, all);
    assert multiset(all) - multiset(chosen) == multiset(rest);
    PrefixIsStronger(ordered, |chosen|);
  }

  lemma PrefixIsStronger(ordered: seq<Entry>, n: nat)
    requires StrongestFirst(ordered) && n <= |ordered|
    ensures forall e, o :: e in ordered[..n] && o in multiset(ordered[n..]) ==> o.Strength() <= e.Strength()
  {
    forall e, o | e in ordered[..n] && o in multiset(ordered[n..])
      ensures o.Strength() <= e.Strength()
    {
      var i :| 0 <= i < n && ordered[i] == e;
      var j :| n <= j < |ordered| && ordered[j] == o;
    }
  }

  /**
    * Whatever arrangement the unstable sort produced: the rows are the twelve strongest active entries,
    * the beacon rows the twenty-four strongest active beacons, and the forty-eight strongest are remembered.
    */
  lemma SnapshotPicksStrongest(slots: seq<Slot>, order: seq<Slot>)
    requires IsSnapshotOrder(slots, order)
    ensures IsTop(Take(Actives(order), SNAPSHOT_DISPLAY_LIMIT), Actives(slots), SNAPSHOT_DISPLAY_LIMIT)
    ensures IsTop(Take(Beacons(Actives(order)), BEACON_DISPLAY_LIMIT), Beacons(Actives(slots)), BEACON_DISPLAY_LIMIT)
    ensures IsTop(Take(Actives(order), REMEMBERED_DEVICE_CAPACITY), Actives(slots), REMEMBERED_DEVICE_CAPACITY)
    ensures |Actives(order)| == |Actives(slots)| && |Beacons(Actives(order))| == |Beacons(Actives(slots))|
    ensures forall i :: 0 <= i < REMEMBERED_DEVICE_CAPACITY ==>
      Remember(order)[i] == if i < Min(|Actives(slots)|, REMEMBERED_DEVICE_CAPACITY) then
        Some(FromEntry(Take(Actives(order), REMEMBERED_DEVICE_CAPACITY)[i])) else None
  {
    SortKeepsActives(slots, order);
    ActivesDescend(order);
    BeaconsDescend(Actives(order));
    TakeIsTop(Actives(order), Actives(slots), SNAPSHOT_DISPLAY_LIMIT);
    TakeIsTop(Beacons(Actives(order)), Beacons(Actives(slots)), BEACON_DISPLAY_LIMIT);
    TakeIsTop(Actives(order), Actives(slots), REMEMBERED_DEVICE_CAPACITY);
  }

  /* ---------- the rows against the reports ---------- */

  /** The row says of its device what the reports say. */
  ghost predicate RowTells(row: Row, h: History, now: u64) {
    var address := row.entry.address;
    var stay, window := SinceInsertion(h, address), Window(h, address);
    && Agrees(row.entry, stay, window)
    && window != []
    && row.average == WindowOf(window)
    && (row.delta.None? <==> PreviousAverage(h, address).None?)
    && (row.delta.Some? ==> PreviousAverage(h, address).value + row.delta.value == row.average)
    && LastReport(h, address).Some?
    && row.age == if LastReport(h, address).value <= now then now - LastReport(h, address).value else 0
  }

  lemma ActiveAverage(e: Entry, stay: seq<Report>, window: seq<Report>)
    requires Agrees(e, stay, window) && e.Active()
    ensures window != [] && e.Strength() == WindowOf(window)
  {
  }

  lemma AgreeingRowTells(h: History, now: u64, e: Entry)
    requires Agrees(e, SinceInsertion(h, e.address), Window(h, e.address)) && e.Active()
    requires e.previousAverage == PreviousAverage(h, e.address) && LastReport(h, e.address) == Some(e.lastSeen)
    ensures RowTells(RowOf(e, now), h, now)
  {
    ActiveAverage(e, SinceInsertion(h, e.address), Window(h, e.address));
  }

  lemma ActiveRowTells(h: History, now: u64, i: nat)
    requires i < DEVICE_CAPACITY && Run(h).entries[i].Some? && Run(h).entries[i].value.Active()
    ensures RowTells(RowOf(Run(h).entries[i].value, now), h, now)
  {
    EntryAgreesWithReports(h, i);
    PreviousAverageAgrees(h, i);
    LastSeenIsLastReport(h, i);
    AgreeingRowTells(h, now, Run(h).entries[i].value);
  }

  /** Every printed row is explained by the reports alone, whatever arrangement the sort produced. */
  lemma RowsTellTheReports(h: History, now: u64, order: seq<Slot>, e: Entry)
    requires IsSnapshotOrder(RemoveStale(Run(h).entries, now), order) && e in Actives(order)
    ensures RowTells(RowOf(e, now), h, now) && now - e.lastSeen <= 15_000
  {
    var i := ActiveInSlot(RemoveStale(Run(h).entries, now), order, e);
    ActiveRowTells(h, now, i);
  }

  /** What is remembered of a displayed device is what its reports said. */
  lemma RememberedTells(h: History, now: u64, order: seq<Slot>, d: DisplayedDevice)
    requires IsSnapshotOrder(RemoveStale(Run(h).entries, now), order) && Some(d) in Remember(order)
    ensures Window(h, d.address) != [] && d.average == WindowOf(Window(h, d.address))
    ensures LastReport(h, d.address) == Some(d.lastSeen)
    ensures var stay := SinceInsertion(h, d.address);
      IsLatest(Names(stay), d.name) && IsLatest(Manufacturers(stay), d.manufacturer) && IsUnion(stay, d.beacon)
  {
    var k :| 0 <= k < REMEMBERED_DEVICE_CAPACITY && Remember(order)[k] == Some(d);
    var i := ActiveInSlot(RemoveStale(Run(h).entries, now), order, Actives(order)[k]);
    ActiveRowTells(h, now, i);
    LastSeenIsLastReport(h, i);
  }

  /* ---------- lost devices ---------- */

  function LostAt(h: History, now: u64): seq<DisplayedDevice> {
    Lost(Run(h).remembered, RemoveStale(Run(h).entries, now))
  }

  lemma {:induction false} LostMembers(remembered: seq<Option<DisplayedDevice>>, slots: seq<Slot>, d: DisplayedDevice)
    ensures d in Lost(remembered, slots) <==> Some(d) in remembered && !HeardFrom(slots, d.address)
  {
    if remembered != [] {
      LostMembers(remembered[1..], slots, d);
      assert remembered == [remembered[0]] + remembered[1..];
    }
  }

  lemma LostNames(remembered: seq<Option<DisplayedDevice>>, slots: seq<Slot>, address: Address)
    ensures Announces(Lost(remembered, slots), address) <==> Remembers(remembered, address) && !HeardFrom(slots, address)
  {
    var lost := Lost(remembered, slots);
    if Announces(lost, address) {
      var i :| 0 <= i < |lost| && lost[i].address == address;
      LostMembers(remembered, slots, lost[i]);
      assert lost[i] in lost;
      var k :| 0 <= k < |remembered| && remembered[k] == Some(lost[i]);
    }
    if Remembers(remembered, address) && !HeardFrom(slots, address) {
      var k :| 0 <= k < |remembered| && remembered[k].Some? && remembered[k].value.address == address;
      LostMembers(remembered, slots, remembered[k].value);
      var i :| 0 <= i < |lost| && lost[i] == remembered[k].value;
    }
  }

  /** Two remembered devices have different addresses, and the earlier is at least as strong. */
  predicate DistinctAndSorted(remembered: seq<Option<DisplayedDevice>>) {
    forall i, j :: 0 <= i < j < |remembered| && remembered[i].Some? && remembered[j].Some? ==>
      remembered[i].value.address != remembered[j].value.address &&
      remembered[j].value.average <= remembered[i].value.average
  }

  predicate LostDistinctAndSorted(lost: seq<DisplayedDevice>) {
    forall i, j :: 0 <= i < j < |lost| ==>
      lost[i].address != lost[j].address && lost[j].average <= lost[i].average
  }

  lemma {:induction false} LostKeepsOrder(remembered: seq<Option<DisplayedDevice>>, slots: seq<Slot>)
    requires DistinctAndSorted(remembered)
    ensures LostDistinctAndSorted(Lost(remembered, slots))
  {
    if remembered != [] {
      LostKeepsOrder(remembered[1..], slots);
      var tail := Lost(remembered[1..], slots);
      forall j | 0 <= j < |tail| && remembered[0].Some?
        ensures tail[j].address != remembered[0].value.address && tail[j].average <= remembered[0].value.average
      {
        LostMembers(remembered[1..], slots, tail[j]);
        assert tail[j] in tail;
        var k :| 0 <= k < |remembered[1..]| && remembered[1..][k] == Some(tail[j]);
        assert remembered[k + 1] == Some(tail[j]);
      }
    }
  }

  lemma ActiveIsHeard(slots: seq<Slot>, order: seq<Slot>, e: Entry)
    requires multiset(slots) == multiset(order) && e in Actives(order)
    ensures HeardFrom(slots, e.address)
  {
    var i := ActiveInSlot(slots, order, e);
    assert Holds(slots[i], e.address);
  }

  /** Only devices heard from in a window are remembered at its end. */
  lemma RememberedIsHeard(slots: seq<Slot>, order: seq<Slot>, address: Address)
    requires IsSnapshotOrder(slots, order) && Remembers(Remember(order), address)
    ensures HeardFrom(slots, address)
  {
    var i :| 0 <= i < REMEMBERED_DEVICE_CAPACITY && Remember(order)[i].Some? && Remember(order)[i].value.address == address;
    ActiveIsHeard(slots, order, Actives(order)[i]);
  }

  lemma ActiveIsRemembered(order: seq<Slot>, e: Entry)
    requires e.Active() && Some(e) in order && |Actives(order)| <= REMEMBERED_DEVICE_CAPACITY
    ensures Remembers(Remember(order), e.address)
  {
    ActivesMember(order, e);
    var k :| 0 <= k < |Actives(order)| && Actives(order)[k] == e;
    assert RememberedAt(Actives(order), k) == Some(FromEntry(e));
  }

  /** Everybody heard from in a window of at most forty-eight active devices is remembered. */
  lemma HeardIsRemembered(slots: seq<Slot>, order: seq<Slot>, address: Address)
    requires multiset(slots) == multiset(order) && HeardFrom(slots, address)
    requires |Actives(slots)| <= REMEMBERED_DEVICE_CAPACITY
    ensures Remembers(Remember(order), address)
  {
    var i :| 0 <= i < |slots| && Holds(slots[i], address) && slots[i].value.Active();
    assert slots[i] in multiset(order);
    SortKeepsActives(slots, order);
    ActiveIsRemembered(order, slots[i].value);
  }

  lemma {:induction false} ActivesDistinct(slots: seq<Slot>, i: nat, j: nat)
    requires Distinct(slots) && i < j < |Actives(slots)|
    ensures Actives(slots)[i].address != Actives(slots)[j].address
  {
    assert forall k, m :: 0 <= k < m < |slots| - 1 && slots[1..][k].Some? && slots[1..][m].Some? ==>
      slots[k + 1].value.address != slots[m + 1].value.address;
    var first := slots[0];
    if first.Some? && first.value.Active() {
      if i == 0 {
        var e := Actives(slots)[j];
        assert e == Actives(slots[1..])[j - 1];
        ActivesMember(slots[1..], e);
        var k :| 0 <= k < |slots[1..]| && slots[1..][k] == Some(e);
        assert slots[k + 1] == Some(e);
      } else {
        ActivesDistinct(slots[1..], i - 1, j - 1);
      }
    } else {
      ActivesDistinct(slots[1..], i, j);
    }
  }

  lemma TwiceCounts(slots: seq<Slot>, i: nat, j: nat)
    requires i < j < |slots| && slots[i] == slots[j]
    ensures multiset(slots)[slots[i]] >= 2
  {
    assert slots == slots[..j] + slots[j..];
    assert slots[..j][i] == slots[i] && slots[j..][0] == slots[i];
    assert slots[i] in multiset(slots[..j]) && slots[i] in multiset(slots[j..]);
  }

  lemma {:induction false} DistinctCountsOnce(slots: seq<Slot>, e: Entry)
    requires Distinct(slots)
    ensures multiset(slots)[Some(e)] <= 1
  {
    if slots != [] {
      assert slots == [slots[0]] + slots[1..];
      DistinctCountsOnce(slots[1..], e);
      if slots[0] == Some(e) {
        assert Some(e) !in slots[1..];
        assert Some(e) !in multiset(slots[1..]);
      }
    }
  }

  lemma SortKeepsDistinct(slots: seq<Slot>, order: seq<Slot>)
    requires Distinct(slots) && multiset(slots) == multiset(order)
    ensures Distinct(order)
  {
    forall i, j | 0 <= i < j < |order| && order[i].Some? && order[j].Some?
      ensures order[i].value.address != order[j].value.address
    {
      if order[i] == order[j] {
        TwiceCounts(order, i, j);
        DistinctCountsOnce(slots, order[i].value);
      } else {
        assert order[i] in multiset(slots) && order[j] in multiset(slots);
        var k :| 0 <= k < |slots| && slots[k] == order[i];
        var m :| 0 <= m < |slots| && slots[m] == order[j];
      }
    }
  }

  lemma RememberedInOrder(slots: seq<Slot>, order: seq<Slot>)
    requires Distinct(slots) && IsSnapshotOrder(slots, order)
    ensures DistinctAndSorted(Remember(order))
  {
    SortKeepsDistinct(slots, order);
    ActivesDescend(order);
    var r := Remember(order);
    forall i, j | 0 <= i < j < |r| && r[i].Some? && r[j].Some?
      ensures r[i].value.address != r[j].value.address && r[j].value.average <= r[i].value.average
    {
      ActivesDistinct(order, i, j);
    }
  }

  /** h has had no snapshot since base. */
  ghost predicate SameWindow(h: History, base: History) {
    h == base || (h.Then? && !h.event.Snapshot? && SameWindow(h.past, base))
  }

  lemma {:induction false} RememberedUntilNext(h: History, base: History)
    requires SameWindow(h, base)
    ensures Run(h).remembered == Run(base).remembered
    ensures Legal(h) ==> Legal(base)
  {
    if h != base {
      RememberedUntilNext(h.past, base);
    }
  }

  lemma {:induction false} AlwaysDistinctAndSorted(h: History)
    requires Legal(h)
    ensures DistinctAndSorted(Run(h).remembered)
  {
    if h.Then? {
      AlwaysDistinctAndSorted(h.past);
      if h.event.Snapshot? {
        NoAddressTwice(h.past);
        RememberedInOrder(RemoveStale(Run(h.past).entries, h.event.now), h.event.order);
      }
    }
  }

  /** The lost devices are distinct, strongest first, so the twelve printed are the strongest of them. */
  lemma LostAreDistinctAndSorted(h: History, now: u64)
    requires Legal(h)
    ensures LostDistinctAndSorted(LostAt(h, now))
  {
    AlwaysDistinctAndSorted(h);
    LostKeepsOrder(Run(h).remembered, RemoveStale(Run(h).entries, now));
  }

  /** The printed lost devices are all of them if and only if there are at most twelve. */
  lemma AllLostArePrintedIff(h: History, now: u64, order: seq<Slot>)
    requires Legal(h)
    ensures (forall d :: d in LostAt(h, now) ==> d in ReportOf(Run(h), now, order).lostRows) <==>
            |LostAt(h, now)| <= SNAPSHOT_DISPLAY_LIMIT
  {
    var lost := LostAt(h, now);
    LostAreDistinctAndSorted(h, now);
    if |lost| > SNAPSHOT_DISPLAY_LIMIT {
      assert lost[SNAPSHOT_DISPLAY_LIMIT] in lost;
      assert lost[SNAPSHOT_DISPLAY_LIMIT] !in Take(lost, SNAPSHOT_DISPLAY_LIMIT);
    }
  }

  lemma {:induction false} SilentSince(h: History, base: History, address: Address)
    requires SameWindow(h, base) && base.Then? && base.event.Snapshot?
    ensures SinceSnapshot(h, address) == [] ==> LastReport(h, address) == LastReport(base, address)
    ensures SinceSnapshot(h, address) != [] && Strict(h) ==>
      LastReport(h, address).Some? && LatestReport(base) < LastReport(h, address).value
    ensures Strict(h) ==> Strict(base) && LatestReport(base) <= LatestReport(h)
  {
    if h != base {
      SilentSince(h.past, base, address);
    }
  }

  /**
    * What a lost notice prints: the average of the window before the one that lost the device, and the
    * time of the device's last report in it. That is the device's last report of all if it has been
    * silent since, and on a strict clock only then; otherwise the printed age is that of an older packet.
    */
  lemma LostNoticeTells(before: History, t: u64, order: seq<Slot>, h: History, later: u64, d: DisplayedDevice)
    requires Legal(h) && SameWindow(h, Then(before, Snapshot(t, order))) && d in LostAt(h, later)
    ensures Window(before, d.address) != [] && d.average == WindowOf(Window(before, d.address))
    ensures LastReport(before, d.address) == Some(d.lastSeen)
    ensures SinceSnapshot(h, d.address) == [] ==> LastReport(h, d.address) == Some(d.lastSeen)
    ensures Strict(h) ==> (LastReport(h, d.address) == Some(d.lastSeen) <==> SinceSnapshot(h, d.address) == [])
  {
    var base := Then(before, Snapshot(t, order));
    RememberedUntilNext(h, base);
    LostMembers(Run(h).remembered, RemoveStale(Run(h).entries, later), d);
    RememberedTells(before, t, order, d);
    SilentSince(h, base, d.address);
    if Strict(h) {
      LastReportIsPast(before, d.address);
    }
  }

  /** A notice is given once: a device lost at one snapshot is not lost at the next. */
  lemma LostOnce(before: History, now: u64, order: seq<Slot>, h: History, later: u64, address: Address)
    requires Legal(h) && SameWindow(h, Then(before, Snapshot(now, order)))
    requires Announces(LostAt(before, now), address)
    ensures !Announces(LostAt(h, later), address)
  {
    var base := Then(before, Snapshot(now, order));
    var kept := RemoveStale(Run(before).entries, now);
    RememberedUntilNext(h, base);
    LostNames(Run(before).remembered, kept, address);
    LostNames(Run(h).remembered, RemoveStale(Run(h).entries, later), address);
    if Remembers(Run(h).remembered, address) {
      RememberedIsHeard(kept, order, address);
    }
  }

  /** An active entry has had a report since the last snapshot. */
  lemma ActiveMeansHeard(h: History, i: nat)
    requires i < DEVICE_CAPACITY && Run(h).entries[i].Some? && Run(h).entries[i].value.Active()
    ensures SinceSnapshot(h, Run(h).entries[i].value.address) != []
  {
    EntryAgreesWithReports(h, i);
  }

  /** A remembered device that stayed silent for the whole window is always announced. */
  lemma SilentIsLost(h: History, now: u64, address: Address)
    requires Remembers(Run(h).remembered, address) && SinceSnapshot(h, address) == []
    ensures Announces(LostAt(h, now), address)
  {
    var kept := RemoveStale(Run(h).entries, now);
    LostNames(Run(h).remembered, kept, address);
    if HeardFrom(kept, address) {
      var i :| 0 <= i < |kept| && Holds(kept[i], address) && kept[i].value.Active();
      ActiveMeansHeard(h, i);
    }
  }

  lemma {:induction false} HeardStaysUnlessEvicted(h: History, address: Address)
    requires SinceSnapshot(h, address) != [] && Evictions(h) == 0
    ensures HeardFrom(Run(h).entries, address)
  {
    match h
    case Boot =>
    case Then(past, Malformed) => HeardStaysUnlessEvicted(past, address);
    case Then(past, Snapshot(_, _)) =>
    case Then(past, Reported(r)) =>
      var before := Run(past).entries;
      var after := Run(h).entries;
      var slot := RecordSlot(before, r);
      RecordSlotCases(before, r);
      if r.address == address {
        assert Holds(after[slot], address) && after[slot].value.Active();
      } else {
        HeardStaysUnlessEvicted(past, address);
        var i :| 0 <= i < DEVICE_CAPACITY && Holds(before[i], address) && before[i].value.Active();
        assert Holds(after[i], address) && after[i].value.Active();
      }
  }

  /** Some entry that was heard from in this window is more than 15 s old. */
  predicate ActiveExpired(h: History, now: u64) {
    exists i :: 0 <= i < DEVICE_CAPACITY && Run(h).entries[i].Some? && Run(h).entries[i].value.Active() &&
                now - Run(h).entries[i].value.lastSeen > 15_000
  }

  /** In a window that evicted nobody and expired no active entry, lost means silent. */
  lemma LostIffSilent(h: History, now: u64, address: Address)
    requires Remembers(Run(h).remembered, address)
    requires Evictions(h) == 0 && !ActiveExpired(h, now)
    ensures Announces(LostAt(h, now), address) <==> SinceSnapshot(h, address) == []
  {
    LostExactly(h, now, address);
    if SinceSnapshot(h, address) != [] {
      HeardStaysUnlessEvicted(h, address);
      var i :| 0 <= i < DEVICE_CAPACITY && Holds(Run(h).entries[i], address) && Run(h).entries[i].value.Active();
      FreshSlot(h, now, address, i);
    }
  }

  /** The device has an entry, and its last report is at most 15 s old. */
  predicate FreshAt(h: History, now: u64, address: Address) {
    && Present(Run(h).entries, address)
    && LastReport(h, address).Some? && now - LastReport(h, address).value <= 15_000
  }

  lemma FreshSlot(h: History, now: u64, address: Address, i: nat)
    requires i < DEVICE_CAPACITY && Holds(Run(h).entries[i], address)
    ensures FreshAt(h, now, address) <==> !Stale(now, Run(h).entries[i].value.lastSeen)
  {
    LastSeenIsLastReport(h, i);
  }

  /** Exactly when a remembered device is announced: it was silent, was evicted, or last reported over 15 s ago. */
  lemma LostExactly(h: History, now: u64, address: Address)
    requires Remembers(Run(h).remembered, address)
    ensures Announces(LostAt(h, now), address) <==> SinceSnapshot(h, address) == [] || !FreshAt(h, now, address)
  {
    var entries := Run(h).entries;
    var kept := RemoveStale(entries, now);
    LostNames(Run(h).remembered, kept, address);
    if SinceSnapshot(h, address) == [] {
      SilentIsLost(h, now, address);
    } else if FreshAt(h, now, address) {
      var i :| 0 <= i < |entries| && Holds(entries[i], address);
      FreshSlot(h, now, address, i);
      EntryAgreesWithReports(h, i);
      PresentWasReported(h, i);
      assert Holds(kept[i], address) && kept[i].value.Active();
    } else if HeardFrom(kept, address) {
      var i :| 0 <= i < |kept| && Holds(kept[i], address) && kept[i].value.Active();
      FreshSlot(h, now, address, i);
    }
  }
}
