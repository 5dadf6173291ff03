// With distinct report times the registry is exactly a bounded, expiring move-to-front list.
module ScanRecency {
  import opened Wrappers
  import opened MachineInts
  import opened ScanModel
  import opened ScanHistory

  datatype Seen = Seen(address: Address, at: u64)

  function Without(l: seq<Seen>, address: Address): seq<Seen> {
    if l == [] then []
    else if l[0].address == address then Without(l[1..], address)
    else [l[0]] + Without(l[1..], address)
  }

  function Fresh(l: seq<Seen>, now: u64): seq<Seen> {
    if l == [] then []
    else if Stale(now, l[0].at) then Fresh(l[1..], now)
    else [l[0]] + Fresh(l[1..], now)
  }

  /** Every device ever reported, moved to the front by each report: unbounded and never expiring. */
  function Recency(h: History): seq<Seen> {
    match h
    case Boot => []
    case Then(past, Reported(r)) => [Seen(r.address, r.now)] + Without(Recency(past), r.address)
    case Then(past, _) => Recency(past)
  }

  /** The clock reading of the last snapshot. */
  function LastSnapshot(h: History): u64 {
    match h
    case Boot => 0
    case Then(_, Snapshot(now, _)) => now
    case Then(past, _) => LastSnapshot(past)
  }

  /** What a cache of the 128 most recent devices holds when it expires them at each snapshot. */
  function Expected(h: History): seq<Seen> {
    Take(Fresh(Recency(h), LastSnapshot(h)), DEVICE_CAPACITY)
  }

  ghost function Occupant(slot: Slot): multiset<Seen> {
    if slot.None? then multiset{} else multiset{Seen(slot.value.address, slot.value.lastSeen)}
  }

  ghost function Occupants(entries: seq<Slot>): multiset<Seen> {
    if entries == [] then multiset{} else Occupant(entries[0]) + Occupants(entries[1..])
  }

  /* ---------- lists ---------- */

  predicate Lists(l: seq<Seen>, address: Address) {
    exists k :: 0 <= k < |l| && l[k].address == address
  }

  predicate NewestFirst(l: seq<Seen>) {
    forall i, j :: 0 <= i < j < |l| ==> l[j].at < l[i].at
  }

  predicate DistinctDevices(l: seq<Seen>) {
    forall i, j :: 0 <= i < j < |l| ==> l[i].address != l[j].address
  }

  /** Dropping members from the tail of a list keeps the list sorted and free of repetitions. */
  lemma ConsKeeps(x: Seen, tail: seq<Seen>, kept: seq<Seen>)
    requires forall s :: s in kept ==> s in tail
    ensures NewestFirst([x] + tail) && NewestFirst(kept) ==> NewestFirst([x] + kept)
    ensures DistinctDevices([x] + tail) && DistinctDevices(kept) ==> DistinctDevices([x] + kept)
  {
    forall j | 0 <= j < |kept|
      ensures NewestFirst([x] + tail) ==> kept[j].at < x.at
      ensures DistinctDevices([x] + tail) ==> kept[j].address != x.address
    {
      assert kept[j] in tail;
      var m :| 0 <= m < |tail| && tail[m] == kept[j];
      assert ([x] + tail)[0] == x && ([x] + tail)[m + 1] == kept[j];
    }
  }

  lemma TailKeeps(l: seq<Seen>)
    requires l != []
    ensures [l[0]] + l[1..] == l
    ensures NewestFirst(l) ==> NewestFirst(l[1..])
    ensures DistinctDevices(l) ==> DistinctDevices(l[1..])
  {
  }

  lemma ListsTail(l: seq<Seen>, address: Address)
    requires l != []
    ensures Lists(l, address) <==> l[0].address == address || Lists(l[1..], address)
  {
    if Lists(l[1..], address) {
      var k :| 0 <= k < |l[1..]| && l[1..][k].address == address;
      assert l[k + 1].address == address;
    }
    if Lists(l, address) {
      var k :| 0 <= k < |l| && l[k].address == address;
      assert k == 0 || l[1..][k - 1].address == address;
    }
  }

  lemma {:induction false} WithoutMembers(l: seq<Seen>, address: Address)
    ensures forall s :: s in Without(l, address) <==> s in l && s.address != address
  {
    if l != [] {
      WithoutMembers(l[1..], address);
      assert [l[0]] + l[1..] == l;
    }
  }

  lemma {:induction false} WithoutKeeps(l: seq<Seen>, address: Address)
    ensures NewestFirst(l) ==> NewestFirst(Without(l, address))
    ensures DistinctDevices(l) ==> DistinctDevices(Without(l, address))
  {
    if l != [] {
      TailKeeps(l);
      WithoutKeeps(l[1..], address);
      WithoutMembers(l[1..], address);
      ConsKeeps(l[0], l[1..], Without(l[1..], address));
    }
  }

  lemma {:induction false} WithoutAbsent(l: seq<Seen>, address: Address)
    requires !Lists(l, address)
    ensures Without(l, address) == l
  {
    if l != [] {
      assert [l[0]] + l[1..] == l;
      ListsTail(l, address);
      WithoutAbsent(l[1..], address);
    }
  }

  lemma {:induction false} WithoutOne(l: seq<Seen>, k: nat)
    requires k < |l| && DistinctDevices(l)
    ensures multiset(Without(l, l[k].address)) == multiset(l) - multiset{l[k]}
  {
    assert l == [l[0]] + l[1..];
    if k == 0 {
      assert !Lists(l[1..], l[0].address);
      WithoutAbsent(l[1..], l[0].address);
    } else {
      WithoutOne(l[1..], k - 1);
      assert l[k] in l[1..];
    }
  }

  lemma WithoutHead(head: Seen, tail: seq<Seen>)
    requires !Lists(tail, head.address)
    ensures Without([head] + tail, head.address) == tail
  {
    WithoutAbsent(tail, head.address);
    assert ([head] + tail)[1..] == tail;
  }

  lemma WithoutOther(head: Seen, tail: seq<Seen>, address: Address)
    requires head.address != address
    ensures Without([head] + tail, address) == [head] + Without(tail, address)
  {
    assert ([head] + tail)[1..] == tail;
  }

  lemma ConsTake(head: Seen, tail: seq<Seen>, n: nat)
    requires n > 0
    ensures Take([head] + tail, n) == [head] + Take(tail, n - 1)
  {
  }

  lemma WithoutTakeHead(head: Seen, tail: seq<Seen>, n: nat)
    requires !Lists(tail, head.address) && n > 0
    ensures Take(Without([head] + tail, head.address), n - 1) == Without(Take([head] + tail, n), head.address)
  {
    ConsTake(head, tail, n);
    WithoutHead(head, tail);
    WithoutHead(head, Take(tail, n - 1));
  }

  lemma WithoutTakeOther(head: Seen, tail: seq<Seen>, n: nat, address: Address)
    requires head.address != address && n > 1
    requires Take(Without(tail, address), n - 2) == Without(Take(tail, n - 1), address)
    ensures Take(Without([head] + tail, address), n - 1) == Without(Take([head] + tail, n), address)
  {
    ConsTake(head, tail, n);
    WithoutOther(head, tail, address);
    WithoutOther(head, Take(tail, n - 1), address);
    ConsTake(head, Without(tail, address), n - 1);
  }

  /** Moving a listed device to the front keeps the others' order, so the cut at n takes the same devices. */
  lemma {:induction false} WithoutTake(l: seq<Seen>, n: nat, k: nat)
    requires DistinctDevices(l) && k < n && k < |l|
    ensures Take(Without(l, l[k].address), n - 1) == Without(Take(l, n), l[k].address)
  {
    assert l == [l[0]] + l[1..];
    if k == 0 {
      WithoutTakeHead(l[0], l[1..], n);
    } else {
      WithoutTake(l[1..], n - 1, k - 1);
      WithoutTakeOther(l[0], l[1..], n, l[k].address);
    }
  }

  lemma {:induction false} WithoutBeyond(l: seq<Seen>, n: nat, address: Address)
    requires !Lists(Take(l, n), address)
    ensures Take(Without(l, address), n) == Take(l, n)
  {
    if l != [] && n > 0 {
      ListsTail(Take(l, n), address);
      assert Take(l, n)[1..] == Take(l[1..], n - 1);
      WithoutBeyond(l[1..], n - 1, address);
    }
  }

  lemma {:induction false} FreshCounts(l: seq<Seen>, now: u64, s: Seen)
    ensures multiset(Fresh(l, now))[s] == if Stale(now, s.at) then 0 else multiset(l)[s]
  {
    if l != [] {
      assert [l[0]] + l[1..] == l;
      FreshCounts(l[1..], now, s);
    }
  }

  lemma {:induction false} FreshMembers(l: seq<Seen>, now: u64)
    ensures forall s :: s in Fresh(l, now) <==> s in l && !Stale(now, s.at)
  {
    if l != [] {
      FreshMembers(l[1..], now);
      assert [l[0]] + l[1..] == l;
    }
  }

  lemma {:induction false} FreshKeeps(l: seq<Seen>, now: u64)
    ensures NewestFirst(l) ==> NewestFirst(Fresh(l, now))
    ensures DistinctDevices(l) ==> DistinctDevices(Fresh(l, now))
  {
    if l != [] {
      TailKeeps(l);
      FreshKeeps(l[1..], now);
      FreshMembers(l[1..], now);
      ConsKeeps(l[0], l[1..], Fresh(l[1..], now));
    }
  }

  /** On a list sorted by age, what is fresh is a prefix. */
  lemma {:induction false} FreshIsPrefix(l: seq<Seen>, now: u64)
    requires NewestFirst(l)
    ensures Fresh(l, now) <= l
    ensures forall n: nat :: Fresh(Take(l, n), now) == Take(Fresh(l, now), n)
  {
    if l != [] {
      FreshIsPrefix(l[1..], now);
      assert l == [l[0]] + l[1..];
      if Stale(now, l[0].at) {
        AllStale(l[1..], now);
      }
      forall n: nat
        ensures Fresh(Take(l, n), now) == Take(Fresh(l, now), n)
      {
        if n > 0 {
          assert Take(l, n)[1..] == Take(l[1..], n - 1);
          assert Fresh(Take(l[1..], n - 1), now) == Take(Fresh(l[1..], now), n - 1);
        }
      }
    }
  }

  lemma {:induction false} AllStale(l: seq<Seen>, now: u64)
    requires forall i :: 0 <= i < |l| ==> Stale(now, l[i].at)
    ensures Fresh(l, now) == []
  {
    if l != [] {
      AllStale(l[1..], now);
    }
  }

  lemma {:induction false} FreshWithout(l: seq<Seen>, address: Address, now: u64)
    ensures Fresh(Without(l, address), now) == Without(Fresh(l, now), address)
  {
    if l != [] {
      FreshWithout(l[1..], address, now);
    }
  }

  lemma {:induction false} FreshLater(l: seq<Seen>, now: u64, later: u64)
    requires now <= later
    ensures Fresh(Fresh(l, now), later) == Fresh(l, later)
  {
    if l != [] {
      FreshLater(l[1..], now, later);
    }
  }

  /* ---------- the recency list against the reports ---------- */

  /** The list holds exactly the reported devices with their latest report times, newest first. */
  lemma {:induction false} RecencyIsLastReports(h: History)
    requires Strict(h)
    ensures forall a, t: u64 :: Seen(a, t) in Recency(h) <==> LastReport(h, a) == Some(t)
    ensures NewestFirst(Recency(h)) && DistinctDevices(Recency(h))
  {
    if h.Then? {
      RecencyIsLastReports(h.past);
      if h.event.Reported? {
        var r := h.event.report;
        WithoutMembers(Recency(h.past), r.address);
        WithoutKeeps(Recency(h.past), r.address);
        var w := Without(Recency(h.past), r.address);
        forall i | 0 <= i < |w|
          ensures w[i].at < r.now && w[i].address != r.address
        {
          assert w[i] in w;
          assert w[i] == Seen(w[i].address, w[i].at);
          LastReportIsPast(h.past, w[i].address);
        }
      }
    }
  }

  /* ---------- the slots as a bag ---------- */

  lemma {:induction false} OccupantsWith(entries: seq<Slot>, i: nat, slot: Slot)
    requires i < |entries|
    ensures Occupants(entries[i := slot]) == Occupants(entries[i := None]) + Occupant(slot)
  {
    var tail := entries[1..];
    if i == 0 {
      assert entries[i := slot][1..] == tail && entries[i := None][1..] == tail;
    } else {
      OccupantsWith(tail, i - 1, slot);
      assert entries[i := slot][1..] == tail[i - 1 := slot] && entries[i := None][1..] == tail[i - 1 := None];
    }
  }

  lemma OccupantsAt(entries: seq<Slot>, i: nat, slot: Slot)
    requires i < |entries|
    ensures Occupant(entries[i]) <= Occupants(entries)
    ensures Occupants(entries[i := slot]) == Occupants(entries) - Occupant(entries[i]) + Occupant(slot)
  {
    OccupantsWith(entries, i, slot);
    OccupantsWith(entries, i, entries[i]);
    assert entries[i := entries[i]] == entries;
  }

  lemma {:induction false} OccupantsMembers(entries: seq<Slot>, s: Seen)
    requires s in Occupants(entries)
    ensures exists i :: 0 <= i < |entries| && Holds(entries[i], s.address) && entries[i].value.lastSeen == s.at
  {
    if s in Occupant(entries[0]) {
      assert Holds(entries[0], s.address);
    } else {
      OccupantsMembers(entries[1..], s);
      var i :| 0 <= i < |entries| - 1 && Holds(entries[1..][i], s.address) && entries[1..][i].value.lastSeen == s.at;
      assert Holds(entries[i + 1], s.address);
    }
  }

  lemma {:induction false} OccupantsSize(entries: seq<Slot>)
    ensures |Occupants(entries)| <= |entries|
    ensures |Occupants(entries)| == |entries| <==> Full(entries)
  {
    if entries != [] {
      OccupantsSize(entries[1..]);
      assert Full(entries) <==> entries[0].Some? && Full(entries[1..]) by {
        if entries[0].Some? && Full(entries[1..]) {
          assert forall i :: 1 <= i < |entries| ==> entries[i] == entries[1..][i - 1];
        }
      }
    }
  }

  lemma {:induction false} OccupantsFresh(entries: seq<Slot>, now: u64)
    ensures forall s :: Occupants(RemoveStale(entries, now))[s] == if Stale(now, s.at) then 0 else Occupants(entries)[s]
  {
    if entries != [] {
      OccupantsFresh(entries[1..], now);
      assert RemoveStale(entries, now)[1..] == RemoveStale(entries[1..], now);
    }
  }

  lemma {:induction false} OccupantsClosed(entries: seq<Slot>)
    ensures Occupants(CloseWindow(entries)) == Occupants(entries)
  {
    if entries != [] {
      OccupantsClosed(entries[1..]);
      assert CloseWindow(entries)[1..] == CloseWindow(entries[1..]);
    }
  }

  lemma {:induction false} OccupantsEmpty(n: nat)
    ensures Occupants(Nones<Entry>(n)) == multiset{}
  {
    if n > 0 {
      OccupantsEmpty(n - 1);
      assert Nones<Entry>(n)[1..] == Nones<Entry>(n - 1);
    }
  }

  /* ---------- the theorem ---------- */

  /** A device known to the registry is updated in its slot, and moves to the front of the list. */
  lemma KnownFollows(entries: seq<Slot>, r: Report, f: seq<Seen>)
    requires |entries| == DEVICE_CAPACITY && Present(entries, r.address) && DistinctDevices(f)
    requires Occupants(entries) == multiset(Take(f, DEVICE_CAPACITY))
    ensures var i := RecordSlot(entries, r);
      Occupants(entries[i := Some(RecordEntry(entries[i], r))]) ==
      multiset([Seen(r.address, r.now)] + Take(Without(f, r.address), DEVICE_CAPACITY - 1))
  {
    var i := RecordSlot(entries, r);
    var l := Take(f, DEVICE_CAPACITY);
    RecordSlotCases(entries, r);
    OccupantsAt(entries, i, Some(RecordEntry(entries[i], r)));
    var s := Seen(r.address, entries[i].value.lastSeen);
    assert s in multiset(l);
    var k: nat :| k < |l| && l[k] == s;
    DroppedByKnown(f, k);
    var kept := Take(Without(f, r.address), DEVICE_CAPACITY - 1);
    assert multiset([Seen(r.address, r.now)] + kept) == multiset{Seen(r.address, r.now)} + multiset(kept);
  }

  lemma DroppedByKnown(f: seq<Seen>, k: nat)
    requires DistinctDevices(f) && k < |f| && k < DEVICE_CAPACITY
    ensures multiset(Take(f, DEVICE_CAPACITY)) - multiset{f[k]} == multiset(Take(Without(f, f[k].address), DEVICE_CAPACITY - 1))
  {
    WithoutTake(f, DEVICE_CAPACITY, k);
    WithoutOne(Take(f, DEVICE_CAPACITY), k);
  }

  lemma UnlistedIfAbsent(entries: seq<Slot>, address: Address, l: seq<Seen>)
    requires Occupants(entries) == multiset(l) && !Present(entries, address)
    ensures !Lists(l, address)
  {
    if k :| 0 <= k < |l| && l[k].address == address {
      assert l[k] in multiset(l);
      OccupantsMembers(entries, l[k]);
    }
  }

  /** An unknown device takes a free slot, or that of the last device on a full list. */
  lemma UnknownFollows(entries: seq<Slot>, r: Report, f: seq<Seen>)
    requires |entries| == DEVICE_CAPACITY && !Present(entries, r.address) && NewestFirst(f)
    requires Occupants(entries) == multiset(Take(f, DEVICE_CAPACITY))
    ensures var i := RecordSlot(entries, r);
      Occupants(entries[i := Some(RecordEntry(entries[i], r))]) ==
      multiset([Seen(r.address, r.now)] + Take(Without(f, r.address), DEVICE_CAPACITY - 1))
  {
    var i := RecordSlot(entries, r);
    RecordSlotCases(entries, r);
    OccupantsAt(entries, i, Some(RecordEntry(entries[i], r)));
    DroppedByUnknown(entries, i, r.address, f);
    var kept := Take(Without(f, r.address), DEVICE_CAPACITY - 1);
    assert multiset([Seen(r.address, r.now)] + kept) == multiset{Seen(r.address, r.now)} + multiset(kept);
  }

  lemma DroppedByUnknown(entries: seq<Slot>, i: nat, address: Address, f: seq<Seen>)
    requires i < |entries| == DEVICE_CAPACITY && !Present(entries, address) && NewestFirst(f)
    requires if Full(entries) then IsOldest(entries, i) else entries[i].None?
    requires Occupants(entries) == multiset(Take(f, DEVICE_CAPACITY))
    ensures Occupants(entries) - Occupant(entries[i]) == multiset(Take(Without(f, address), DEVICE_CAPACITY - 1))
  {
    var l := Take(f, DEVICE_CAPACITY);
    UnlistedIfAbsent(entries, address, l);
    FullIffListFull(entries, l);
    WithoutUnlisted(f, DEVICE_CAPACITY, address);
    if Full(entries) {
      EvictionDropsLast(entries, i, l);
    }
  }

  lemma WithoutUnlisted(f: seq<Seen>, n: nat, address: Address)
    requires 0 < n && !Lists(Take(f, n), address)
    ensures Take(Without(f, address), n - 1) == Take(f, n - 1)
    ensures |Take(f, n)| < n ==> Take(f, n - 1) == Take(f, n)
    ensures |Take(f, n)| == n ==> Take(f, n - 1) == Take(f, n)[..n - 1]
  {
    WithoutBeyond(f, n, address);
    var w := Without(f, address);
    assert Take(w, n - 1) == Take(Take(w, n), n - 1);
    assert Take(f, n - 1) == Take(Take(f, n), n - 1);
  }

  lemma FullIffListFull(entries: seq<Slot>, l: seq<Seen>)
    requires Occupants(entries) == multiset(l)
    ensures |l| <= |entries| && (|l| == |entries| <==> Full(entries))
  {
    OccupantsSize(entries);
    assert |multiset(l)| == |l|;
  }

  lemma OldestIsNoLater(entries: seq<Slot>, i: nat, s: Seen)
    requires Full(entries) && IsOldest(entries, i) && s in Occupants(entries)
    ensures entries[i].value.lastSeen <= s.at
  {
    OccupantsMembers(entries, s);
  }

  lemma EarliestIsLast(l: seq<Seen>, s: Seen)
    requires NewestFirst(l) && s in l && s.at <= l[|l| - 1].at
    ensures multiset(l) - multiset{s} == multiset(l[..|l| - 1])
  {
    var k :| 0 <= k < |l| && l[k] == s;
    assert l == l[..|l| - 1] + [l[|l| - 1]];
  }

  /** The oldest entry is the last one of a full list that is sorted by age. */
  lemma EvictionDropsLast(entries: seq<Slot>, i: nat, l: seq<Seen>)
    requires Full(entries) && IsOldest(entries, i)
    requires NewestFirst(l) && l != [] && Occupants(entries) == multiset(l)
    ensures Occupants(entries) - Occupant(entries[i]) == multiset(l[..|l| - 1])
  {
    var s := Seen(entries[i].value.address, entries[i].value.lastSeen);
    OccupantsAt(entries, i, entries[i]);
    assert s in multiset(l);
    assert l[|l| - 1] in multiset(l);
    OldestIsNoLater(entries, i, l[|l| - 1]);
    EarliestIsLast(l, s);
  }

  lemma {:induction false} SnapshotFollows(entries: seq<Slot>, now: u64, l: seq<Seen>)
    requires Occupants(entries) == multiset(l)
    ensures Occupants(CloseWindow(RemoveStale(entries, now))) == multiset(Fresh(l, now))
  {
    OccupantsFresh(entries, now);
    OccupantsClosed(RemoveStale(entries, now));
    forall s
      ensures Occupants(RemoveStale(entries, now))[s] == multiset(Fresh(l, now))[s]
    {
      FreshCounts(l, now, s);
    }
  }

  lemma ReportExpected(h: History)
    requires Strict(h) && h.Then? && h.event.Reported?
    ensures var r := h.event.report;
      Expected(h) == [Seen(r.address, r.now)] +
                     Take(Without(Fresh(Recency(h.past), LastSnapshot(h.past)), r.address), DEVICE_CAPACITY - 1)
  {
    var r := h.event.report;
    SnapshotIsPast(h.past);
    FreshWithout(Recency(h.past), r.address, LastSnapshot(h.past));
    assert Recency(h)[1..] == Without(Recency(h.past), r.address);
  }

  lemma SnapshotExpected(h: History)
    requires Strict(h) && h.Then? && h.event.Snapshot?
    ensures Expected(h) == Fresh(Expected(h.past), h.event.now)
  {
    var f := Fresh(Recency(h.past), LastSnapshot(h.past));
    SnapshotIsPast(h.past);
    RecencyIsLastReports(h.past);
    FreshKeeps(Recency(h.past), LastSnapshot(h.past));
    FreshIsPrefix(f, h.event.now);
    FreshLater(Recency(h.past), LastSnapshot(h.past), h.event.now);
  }

  /**
    * The occupied slots are the 128 most recently reported devices, less those that were more than
    * 15 s old at the last snapshot.
    */
  lemma {:induction false} RegistryIsRecencyList(h: History)
    requires Strict(h)
    ensures Occupants(Run(h).entries) == multiset(Expected(h))
  {
    match h
    case Boot => OccupantsEmpty(DEVICE_CAPACITY);
    case Then(past, Malformed) => RegistryIsRecencyList(past);
    case Then(past, Reported(r)) =>
      RegistryIsRecencyList(past);
      ReportExpected(h);
      RecencyIsLastReports(past);
      FreshKeeps(Recency(past), LastSnapshot(past));
      if Present(Run(past).entries, r.address) {
        KnownFollows(Run(past).entries, r, Fresh(Recency(past), LastSnapshot(past)));
      } else {
        UnknownFollows(Run(past).entries, r, Fresh(Recency(past), LastSnapshot(past)));
      }
    case Then(past, Snapshot(now, _)) =>
      RegistryIsRecencyList(past);
      SnapshotExpected(h);
      SnapshotFollows(Run(past).entries, now, Expected(past));
  }

  lemma {:induction false} SnapshotIsPast(h: History)
    requires Monotone(h)
    ensures LastSnapshot(h) <= Latest(h)
  {
    if h.Then? {
      SnapshotIsPast(h.past);
    }
  }

  predicate AmongRecent(h: History, address: Address, k: nat) {
    k < |Recency(h)| && k < 128 && Recency(h)[k].address == address &&
    LastSnapshot(h) - Recency(h)[k].at <= 15_000
  }

  lemma ExpectedMembers(h: History)
    requires Strict(h)
    ensures Expected(h) <= Recency(h)
    ensures forall k :: 0 <= k < |Expected(h)| ==> !Stale(LastSnapshot(h), Recency(h)[k].at)
    ensures forall k :: 0 <= k < |Recency(h)| && k < DEVICE_CAPACITY && !Stale(LastSnapshot(h), Recency(h)[k].at) ==>
              k < |Expected(h)|
  {
    var now := LastSnapshot(h);
    RecencyIsLastReports(h);
    FreshIsPrefix(Recency(h), now);
    FreshMembers(Recency(h), now);
    forall k | 0 <= k < |Expected(h)|
      ensures !Stale(now, Recency(h)[k].at)
    {
      assert Fresh(Recency(h), now)[k] in Fresh(Recency(h), now);
    }
    forall k | 0 <= k < |Recency(h)| && k < DEVICE_CAPACITY && !Stale(now, Recency(h)[k].at)
      ensures k < |Expected(h)|
    {
      FreshReaches(Recency(h), now, k);
    }
  }

  /**
    * Seen from one device: it is in the registry exactly when fewer than 128 devices were reported
    * after it and it was not stale at the last snapshot.
    */
  lemma PresentIffRecent(h: History, address: Address)
    requires Strict(h)
    ensures Present(Run(h).entries, address) <==> exists k :: AmongRecent(h, address, k)
  {
    if i :| 0 <= i < DEVICE_CAPACITY && Holds(Run(h).entries[i], address) {
      PresentIsRecent(h, address, i);
    }
    if exists k :: AmongRecent(h, address, k) {
      var k: nat :| AmongRecent(h, address, k);
      RecentIsPresent(h, address, k);
    }
  }

  lemma PresentIsRecent(h: History, address: Address, i: nat)
    requires Strict(h) && i < DEVICE_CAPACITY && Holds(Run(h).entries[i], address)
    ensures exists k :: AmongRecent(h, address, k)
  {
    var l := Expected(h);
    RegistryIsRecencyList(h);
    ExpectedMembers(h);
    OccupantsAt(Run(h).entries, i, None);
    var s := Seen(address, Run(h).entries[i].value.lastSeen);
    assert s in multiset(l);
    var k: nat :| k < |l| && l[k] == s;
    assert AmongRecent(h, address, k);
  }

  lemma RecentIsPresent(h: History, address: Address, k: nat)
    requires Strict(h) && AmongRecent(h, address, k)
    ensures Present(Run(h).entries, address)
  {
    var l := Expected(h);
    RegistryIsRecencyList(h);
    ExpectedMembers(h);
    assert k < |l| && l[k].address == address by {
      assert !Stale(LastSnapshot(h), Recency(h)[k].at);
    }
    assert l[k] in multiset(l);
    OccupantsMembers(Run(h).entries, l[k]);
  }

  lemma {:induction false} FreshReaches(l: seq<Seen>, now: u64, k: nat)
    requires NewestFirst(l) && k < |l| && !Stale(now, l[k].at)
    ensures k < |Fresh(l, now)| && Fresh(l, now)[k] == l[k]
  {
    if k > 0 {
      FreshReaches(l[1..], now, k - 1);
    }
  }
}
