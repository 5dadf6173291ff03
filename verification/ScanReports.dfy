// What a printed snapshot says, against the entries and the history it was taken from.
module ScanReports {
  import opened Wrappers
  import opened MachineInts
  import opened ScanModel
  import opened ScanHistory
  import opened ScanAggregates
  import opened ScanSnapshot
  import Permutations

  /** The entries that a snapshot counts: heard in its window, and at most 15 s ago. */
  ghost function Counted(entries: seq<Slot>, now: u64): set<Entry> {
    set slot |
      slot in entries && slot.Some? && slot.value.reports > 0 && now - slot.value.lastSeen <= 15_000 :: slot.value
  }

  ghost function CountedBeacons(entries: seq<Slot>, now: u64): set<Entry> {
    set e | e in Counted(entries, now) && (e.beacon.feasycom || e.beacon.formats != {})
  }

  /** The remembered devices that no counted entry is about. */
  ghost function LostDevices(remembered: seq<Option<DisplayedDevice>>, entries: seq<Slot>, now: u64)
    : set<DisplayedDevice>
  {
    set place | place in remembered && place.Some? &&
                (forall e :: e in Counted(entries, now) ==> e.address != place.value.address) :: place.value
  }

  /** As many of the entries as fit, each once, strongest first, and none left out is stronger than one shown. */
  ghost predicate ShowStrongest(rows: seq<Row>, all: set<Entry>, limit: nat) {
    && |rows| == Min(|all|, limit)
    && (forall i :: 0 <= i < |rows| ==> rows[i].entry in all && rows[i].average == rows[i].entry.Strength())
    && (forall i, j :: 0 <= i < j < |rows| ==> rows[i].entry != rows[j].entry && rows[j].average <= rows[i].average)
    && (forall e, i :: e in all && 0 <= i < |rows| ==> IsShown(rows, e) || e.Strength() <= rows[i].average)
  }

  predicate IsShown(rows: seq<Row>, e: Entry) {
    exists k :: 0 <= k < |rows| && rows[k].entry == e
  }

  /** The lost devices in the order they are remembered in, as far as they fit. */
  ghost predicate ShowFirst(rows: seq<DisplayedDevice>, remembered: seq<Option<DisplayedDevice>>,
                            lost: set<DisplayedDevice>, limit: nat)
  {
    && |rows| == Min(|lost|, limit)
    && (forall i :: 0 <= i < |rows| ==> rows[i] in lost)
    && (forall i, j :: 0 <= i < j < |rows| ==> rows[i] != rows[j])
    && InPlaceOrder(rows, remembered)
    && (forall p, q | 0 <= p < q < |remembered| && remembered[p].Some? && remembered[q].Some? ::
          remembered[p].value in lost && remembered[q].value in rows ==> remembered[p].value in rows)
  }

  predicate InPlaceOrder(rows: seq<DisplayedDevice>, remembered: seq<Option<DisplayedDevice>>) {
    forall i, j, p, q | 0 <= i < j < |rows| && 0 <= p < |remembered| && 0 <= q < |remembered| ::
      remembered[p] == Some(rows[i]) && remembered[q] == Some(rows[j]) ==> p < q
  }

  /** The places from the front hold the strongest of the entries, each once and strongest first. */
  ghost predicate RemembersStrongest(places: seq<Option<DisplayedDevice>>, all: set<Entry>) {
    && |places| == 48
    && (forall i :: 0 <= i < 48 ==> (places[i].Some? <==> i < |all|))
    && (forall i :: 0 <= i < 48 && places[i].Some? ==> IsOneOf(places[i].value, all))
    && DistinctAndSorted(places)
    && NoneStronger(places, all)
  }

  ghost predicate IsOneOf(d: DisplayedDevice, all: set<Entry>) {
    exists e :: e in all && SumsUp(d, e)
  }

  predicate SumsUp(d: DisplayedDevice, e: Entry) {
    d.address == e.address && d.average == e.Strength() && d.lastSeen == e.lastSeen &&
    d.name == e.name && d.manufacturer == e.manufacturer && d.beacon == e.beacon
  }

  ghost predicate NoneStronger(places: seq<Option<DisplayedDevice>>, all: set<Entry>) {
    forall e, i :: e in all && 0 <= i < |places| && places[i].Some? ==>
      Remembers(places, e.address) || e.Strength() <= places[i].value.average
  }

  /* ---------- the counted entries as a list ---------- */

  lemma CountedAreActive(entries: seq<Slot>, now: u64, e: Entry)
    ensures e in Actives(RemoveStale(entries, now)) <==> e in Counted(entries, now)
  {
    var kept := RemoveStale(entries, now);
    ActivesMember(kept, e);
    if Some(e) in kept {
      var i :| 0 <= i < |kept| && kept[i] == Some(e);
      assert entries[i] == Some(e);
    }
    if e in Counted(entries, now) {
      var i :| 0 <= i < |entries| && entries[i] == Some(e);
      assert kept[i] == Some(e);
    }
  }

  lemma ActivesOnce(slots: seq<Slot>)
    requires Distinct(slots)
    ensures Permutations.NoRepeats(Actives(slots))
  {
    var active := Actives(slots);
    forall i, j | 0 <= i < j < |active|
      ensures active[i] != active[j]
    {
      ActivesDistinct(slots, i, j);
    }
  }

  lemma BeaconsOnce(entries: seq<Entry>)
    requires Permutations.NoRepeats(entries)
    ensures Permutations.NoRepeats(Beacons(entries))
  {
    Permutations.NoRepeatsCount(entries);
    forall e
      ensures multiset(Beacons(entries))[e] <= 1
    {
      BeaconsCount(entries, e);
    }
    Permutations.NoRepeatsCount(Beacons(entries));
  }

  /** The active unexpired entries, listed in slot order, are the counted ones, each once. */
  lemma CountedListed(entries: seq<Slot>, now: u64)
    requires Distinct(entries)
    ensures var active := Actives(RemoveStale(entries, now));
      Permutations.NoRepeats(active) && |active| == |Counted(entries, now)| &&
      forall e :: e in active <==> e in Counted(entries, now)
  {
    var active := Actives(RemoveStale(entries, now));
    ActivesOnce(RemoveStale(entries, now));
    forall e
      ensures e in active <==> e in Counted(entries, now)
    {
      CountedAreActive(entries, now, e);
    }
    Permutations.SetSize(active, Counted(entries, now));
  }

  lemma BeaconsListed(entries: seq<Slot>, now: u64)
    requires Distinct(entries)
    ensures var beacons := Beacons(Actives(RemoveStale(entries, now)));
      Permutations.NoRepeats(beacons) && |beacons| == |CountedBeacons(entries, now)| &&
      forall e :: e in beacons <==> e in CountedBeacons(entries, now)
  {
    var active := Actives(RemoveStale(entries, now));
    CountedListed(entries, now);
    BeaconsOnce(active);
    forall e
      ensures e in Beacons(active) <==> e in CountedBeacons(entries, now)
    {
      BeaconsCount(active, e);
      assert e in Beacons(active) <==> multiset(Beacons(active))[e] > 0;
      assert e in active <==> multiset(active)[e] > 0;
    }
    Permutations.SetSize(Beacons(active), CountedBeacons(entries, now));
  }

  lemma OutsideIsWeaker(chosen: seq<Entry>, listed: seq<Entry>, limit: nat, e: Entry, i: nat)
    requires IsTop(chosen, listed, limit) && e in listed && i < |chosen|
    ensures e in chosen || e.Strength() <= chosen[i].Strength()
  {
    if e !in chosen {
      assert multiset(chosen)[e] == 0 && multiset(listed)[e] > 0;
      assert e in multiset(listed) - multiset(chosen);
      assert chosen[i] in chosen;
    }
  }

  ghost predicate AreStrongest(chosen: seq<Entry>, all: set<Entry>, limit: nat) {
    && |chosen| == Min(|all|, limit)
    && (forall e :: e in chosen ==> e in all)
    && Permutations.NoRepeats(chosen)
    && StrongestFirst(chosen)
    && (forall e, i :: e in all && 0 <= i < |chosen| ==> e in chosen || e.Strength() <= chosen[i].Strength())
  }

  lemma TopIsStrongest(chosen: seq<Entry>, listed: seq<Entry>, all: set<Entry>, limit: nat)
    requires IsTop(chosen, listed, limit) && Permutations.NoRepeats(listed)
    requires |listed| == |all| && forall e :: e in listed <==> e in all
    ensures AreStrongest(chosen, all, limit)
  {
    Permutations.PartNoRepeats(chosen, listed);
    forall e, i | e in all && 0 <= i < |chosen|
      ensures e in chosen || e.Strength() <= chosen[i].Strength()
    {
      OutsideIsWeaker(chosen, listed, limit, e, i);
    }
  }

  lemma RowsShow(chosen: seq<Entry>, all: set<Entry>, limit: nat, now: u64)
    requires AreStrongest(chosen, all, limit)
    ensures ShowStrongest(Rows(chosen, now), all, limit)
  {
    var rows := Rows(chosen, now);
    assert forall i :: 0 <= i < |rows| ==> rows[i].entry == chosen[i] && rows[i].average == chosen[i].Strength();
    forall e, i | e in all && 0 <= i < |rows|
      ensures IsShown(rows, e) || e.Strength() <= rows[i].average
    {
      if e in chosen {
        var k :| 0 <= k < |chosen| && chosen[k] == e;
        assert rows[k].entry == e;
      }
    }
  }

  /* ---------- one report ---------- */

  /** The device has slot k, last seen now, and the other slots are as they were. */
  predicate TakesSlot(before: seq<Slot>, after: seq<Slot>, k: nat, address: Address, now: u64)
    requires k < |before| == |after|
  {
    && Holds(after[k], address) && after[k].value.lastSeen == now && after[k].value.reports > 0
    && (forall i :: 0 <= i < |before| && i != k ==> after[i] == before[i])
    && (Present(before, address) ==> Holds(before[k], address))
    && (!Present(before, address) && !Full(before) ==> before[k].None?)
    && (AllOthers(before, address) ==>
          forall i :: 0 <= i < |before| ==> before[k].value.lastSeen <= before[i].value.lastSeen)
  }

  predicate TakesOneSlot(before: seq<Slot>, after: seq<Slot>, address: Address, now: u64) {
    |before| == |after| && exists k :: 0 <= k < |before| && TakesSlot(before, after, k, address, now)
  }

  /** What one report does to slots and counters. */
  lemma RecordTells(s: Registry, r: Report)
    requires s.entries != []
    ensures var s' := RecordStep(s, r);
      && s'.windowReports == (s.windowReports + 1) % 0x1_0000_0000
      && s'.evictions == (s.evictions + if AllOthers(s.entries, r.address) then 1 else 0) % 0x1_0000_0000
      && TakesOneSlot(s.entries, s'.entries, r.address, r.now)
  {
    RecordSlotCases(s.entries, r);
    assert TakesSlot(s.entries, RecordStep(s, r).entries, RecordSlot(s.entries, r), r.address, r.now);
  }

  /* ---------- the printed rows ---------- */

  lemma TopOfOrder(entries: seq<Slot>, now: u64, order: seq<Slot>)
    requires Distinct(entries) && IsSnapshotOrder(RemoveStale(entries, now), order)
    ensures AreStrongest(Take(Actives(order), 12), Counted(entries, now), 12)
    ensures AreStrongest(Take(Actives(order), 48), Counted(entries, now), 48)
    ensures AreStrongest(Take(Beacons(Actives(order)), 24), CountedBeacons(entries, now), 24)
    ensures |Actives(order)| == |Counted(entries, now)| && |Beacons(Actives(order))| == |CountedBeacons(entries, now)|
  {
    var active := Actives(RemoveStale(entries, now));
    SnapshotPicksStrongest(RemoveStale(entries, now), order);
    CountedListed(entries, now);
    BeaconsListed(entries, now);
    TopIsStrongest(Take(Actives(order), 12), active, Counted(entries, now), 12);
    TopIsStrongest(Take(Actives(order), 48), active, Counted(entries, now), 48);
    TopIsStrongest(Take(Beacons(Actives(order)), 24), Beacons(active), CountedBeacons(entries, now), 24);
  }

  /** Whatever arrangement the sort produced, the rows are the strongest counted entries and beacons. */
  lemma ReportShowsStrongest(h: History, now: u64, order: seq<Slot>)
    requires IsSnapshotOrder(RemoveStale(Run(h).entries, now), order)
    ensures var report, entries := ReportOf(Run(h), now, order), Run(h).entries;
      && report.count == |Counted(entries, now)|
      && report.beaconCount == |CountedBeacons(entries, now)|
      && ShowStrongest(report.rows, Counted(entries, now), 12)
      && ShowStrongest(report.beaconRows, CountedBeacons(entries, now), 24)
  {
    NoAddressTwice(h);
    TopOfOrder(Run(h).entries, now, order);
    RowsShow(Take(Actives(order), 12), Counted(Run(h).entries, now), 12, now);
    RowsShow(Take(Beacons(Actives(order)), 24), CountedBeacons(Run(h).entries, now), 24, now);
  }

  /** And each of them says what the reports of its device say. */
  lemma ReportTells(h: History, now: u64, order: seq<Slot>)
    requires IsSnapshotOrder(RemoveStale(Run(h).entries, now), order)
    ensures forall row :: row in ReportOf(Run(h), now, order).rows ==> RowTells(row, h, now)
    ensures forall row :: row in ReportOf(Run(h), now, order).beaconRows ==> RowTells(row, h, now)
  {
    var report := ReportOf(Run(h), now, order);
    forall row | row in report.rows
      ensures RowTells(row, h, now)
    {
      var i :| 0 <= i < |report.rows| && report.rows[i] == row;
      RowsTellTheReports(h, now, order, Actives(order)[i]);
    }
    forall row | row in report.beaconRows
      ensures RowTells(row, h, now)
    {
      var i :| 0 <= i < |report.beaconRows| && report.beaconRows[i] == row;
      BeaconsAmong(Actives(order), Beacons(Actives(order))[i]);
      RowsTellTheReports(h, now, order, Beacons(Actives(order))[i]);
    }
  }

  lemma BeaconsAmong(entries: seq<Entry>, e: Entry)
    requires e in Beacons(entries)
    ensures e in entries
  {
    BeaconsCount(entries, e);
    assert e in multiset(Beacons(entries));
    assert e in multiset(entries);
  }

  /* ---------- what is remembered ---------- */

  predicate Hold(places: seq<Option<DisplayedDevice>>, chosen: seq<Entry>) {
    forall i :: 0 <= i < |places| ==> places[i] == if i < |chosen| then Some(FromEntry(chosen[i])) else None
  }

  lemma HoldsOne(chosen: seq<Entry>, all: set<Entry>, i: nat)
    requires AreStrongest(chosen, all, 48) && i < |chosen|
    ensures IsOneOf(FromEntry(chosen[i]), all)
  {
    assert chosen[i] in chosen;
    assert SumsUp(FromEntry(chosen[i]), chosen[i]);
  }

  lemma HoldsStrongest(chosen: seq<Entry>, places: seq<Option<DisplayedDevice>>, all: set<Entry>)
    requires AreStrongest(chosen, all, 48) && Hold(places, chosen) && |places| == 48
    ensures NoneStronger(places, all)
  {
    forall e, i | e in all && 0 <= i < |places| && places[i].Some?
      ensures Remembers(places, e.address) || e.Strength() <= places[i].value.average
    {
      if e in chosen {
        var k :| 0 <= k < |chosen| && chosen[k] == e;
        assert places[k].value.address == e.address;
      }
    }
  }

  lemma RemembersChosen(chosen: seq<Entry>, places: seq<Option<DisplayedDevice>>, all: set<Entry>)
    requires AreStrongest(chosen, all, 48) && DistinctAndSorted(places) && Hold(places, chosen) && |places| == 48
    ensures RemembersStrongest(places, all)
  {
    HoldsStrongest(chosen, places, all);
    forall i | 0 <= i < 48 && places[i].Some?
      ensures IsOneOf(places[i].value, all)
    {
      HoldsOne(chosen, all, i);
    }
  }

  lemma RememberHolds(order: seq<Slot>)
    ensures Hold(Remember(order), Take(Actives(order), 48))
  {
  }

  lemma RemembersInOrder(entries: seq<Slot>, now: u64, order: seq<Slot>)
    requires Distinct(entries) && IsSnapshotOrder(RemoveStale(entries, now), order)
    ensures DistinctAndSorted(Remember(order))
  {
    RememberedInOrder(RemoveStale(entries, now), order);
  }

  /** Whatever arrangement the sort produced, the forty-eight strongest counted entries are remembered. */
  lemma RemembersTop(entries: seq<Slot>, now: u64, order: seq<Slot>)
    requires Distinct(entries) && IsSnapshotOrder(RemoveStale(entries, now), order)
    ensures RemembersStrongest(Remember(order), Counted(entries, now))
  {
    TopOfOrder(entries, now, order);
    RemembersInOrder(entries, now, order);
    RememberHolds(order);
    RemembersChosen(Take(Actives(order), 48), Remember(order), Counted(entries, now));
  }

  /* ---------- the lost devices ---------- */

  lemma HeardIsCounted(entries: seq<Slot>, now: u64, address: Address)
    ensures HeardFrom(RemoveStale(entries, now), address) <==>
            exists e :: e in Counted(entries, now) && e.address == address
  {
    var kept := RemoveStale(entries, now);
    if HeardFrom(kept, address) {
      var i :| 0 <= i < |kept| && Holds(kept[i], address) && kept[i].value.Active();
      assert entries[i] in entries;
      assert kept[i].value in Counted(entries, now);
    }
    if e :| e in Counted(entries, now) && e.address == address {
      var i :| 0 <= i < |entries| && entries[i] == Some(e);
      assert Holds(kept[i], address) && kept[i].value.Active();
    }
  }

  lemma LostAreListed(remembered: seq<Option<DisplayedDevice>>, entries: seq<Slot>, now: u64)
    requires DistinctAndSorted(remembered)
    ensures var lost := Lost(remembered, RemoveStale(entries, now));
      Permutations.NoRepeats(lost) && |lost| == |LostDevices(remembered, entries, now)| &&
      forall d :: d in lost <==> d in LostDevices(remembered, entries, now)
  {
    var kept := RemoveStale(entries, now);
    var lost := Lost(remembered, kept);
    LostKeepsOrder(remembered, kept);
    forall d
      ensures d in lost <==> d in LostDevices(remembered, entries, now)
    {
      LostMembers(remembered, kept, d);
      HeardIsCounted(entries, now, d.address);
    }
    Permutations.SetSize(lost, LostDevices(remembered, entries, now));
  }

  lemma PlacesKept(list: seq<DisplayedDevice>, tail: seq<Option<DisplayedDevice>>, first: Option<DisplayedDevice>)
    requires InPlaceOrder(list, tail) && forall j :: 0 <= j < |list| ==> first != Some(list[j])
    ensures InPlaceOrder(list, [first] + tail)
  {
    assert forall p :: 1 <= p <= |tail| ==> ([first] + tail)[p] == tail[p - 1];
  }

  lemma PlacesExtended(list: seq<DisplayedDevice>, tail: seq<Option<DisplayedDevice>>, d: DisplayedDevice)
    requires InPlaceOrder(list, tail) && d !in list && Some(d) !in tail
    ensures InPlaceOrder([d] + list, [Some(d)] + tail)
  {
    var places, more := [Some(d)] + tail, [d] + list;
    forall i, j, p, q | 0 <= i < j < |more| && 0 <= p < |places| && 0 <= q < |places| &&
                        places[p] == Some(more[i]) && places[q] == Some(more[j])
      ensures p < q
    {
      assert more[j] == list[j - 1] && more[j] in list;
      assert q > 0 && places[q] == tail[q - 1];
      if i > 0 {
        assert more[i] == list[i - 1] && more[i] in list;
        assert p > 0 && places[p] == tail[p - 1];
      }
    }
  }

  lemma {:induction false} LostInPlaceOrder(remembered: seq<Option<DisplayedDevice>>, slots: seq<Slot>)
    requires DistinctAndSorted(remembered)
    ensures InPlaceOrder(Lost(remembered, slots), remembered)
  {
    if remembered != [] {
      var tail, first := remembered[1..], remembered[0];
      assert remembered == [first] + tail;
      LostInPlaceOrder(tail, slots);
      if first.Some? {
        assert first !in tail;
        LostMembers(tail, slots, first.value);
      }
      if first.Some? && !HeardFrom(slots, first.value.address) {
        PlacesExtended(Lost(tail, slots), tail, first.value);
      } else {
        PlacesKept(Lost(tail, slots), tail, first);
      }
    }
  }

  /** The printed lost devices are the first twelve of those that are lost, in the order they are remembered in. */
  lemma ReportShowsLost(h: History, now: u64, order: seq<Slot>)
    requires Legal(h)
    ensures var report := ReportOf(Run(h), now, order);
      var lost := LostDevices(Run(h).remembered, Run(h).entries, now);
      report.lostCount == |lost| && ShowFirst(report.lostRows, Run(h).remembered, lost, 12)
  {
    AlwaysDistinctAndSorted(h);
    LostAreListed(Run(h).remembered, Run(h).entries, now);
    LostInPlaceOrder(Run(h).remembered, RemoveStale(Run(h).entries, now));
    FirstOfLost(Run(h).remembered, LostAt(h, now), LostDevices(Run(h).remembered, Run(h).entries, now), 12);
  }

  lemma FirstOfLost(remembered: seq<Option<DisplayedDevice>>, list: seq<DisplayedDevice>, lost: set<DisplayedDevice>, n: nat)
    requires InPlaceOrder(list, remembered) && Permutations.NoRepeats(list) && |list| == |lost|
    requires forall d :: d in list <==> d in lost
    ensures ShowFirst(Take(list, n), remembered, lost, n)
  {
    var rows := Take(list, n);
    forall p, q | 0 <= p < q < |remembered| && remembered[p].Some? && remembered[q].Some? &&
                  remembered[p].value in lost && remembered[q].value in rows
      ensures remembered[p].value in rows
    {
      var i :| 0 <= i < |list| && list[i] == remembered[p].value;
      var j :| 0 <= j < |rows| && rows[j] == remembered[q].value;
      assert list[j] == rows[j];
      assert i <= j ==> rows[i] == list[i];
    }
  }
}
