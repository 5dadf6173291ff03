// The scanner's device registry, updated in place as the firmware updates it.
module DeviceRegistry {
  import opened Wrappers
  import opened MachineInts
  import opened ScanModel
  import opened ScanHistory
  import opened ScanAggregates
  import opened ScanSnapshot
  import opened ScanReports
  import Permutations

  class DeviceRegistry {
    const entries: array<Slot>
    var remembered: array<Option<DisplayedDevice>>
    var windowReports: u32
    var windowMalformedReports: u32
    var windowEvictions: u32
    ghost var history: History

    ghost function View(): Registry
      reads this, entries, remembered
    {
      Registry(entries[..], remembered[..], windowReports, windowMalformedReports, windowEvictions)
    }

    /** The fields are what the history of reports and snapshots leads to. */
    ghost predicate Valid()
      reads this, entries, remembered
    {
      && entries.Length == DEVICE_CAPACITY
      && View() == Run(history)
      && Legal(history)
    }

    constructor ()
      ensures Valid() && history == Boot && fresh(entries) && fresh(remembered)
    {
      entries := new Slot[DEVICE_CAPACITY](_ => None);
      remembered := new Option<DisplayedDevice>[REMEMBERED_DEVICE_CAPACITY](_ => None);
      windowReports, windowMalformedReports, windowEvictions := 0, 0, 0;
      history := Boot;
      new;
      assert entries[..] == Nones(DEVICE_CAPACITY);
      assert remembered[..] == Nones(REMEMBERED_DEVICE_CAPACITY);
    }

    method Position(address: Address) returns (i: nat)
      ensures i == FindAddress(entries[..], address)
    {
      i := 0;
      while i < entries.Length && !Holds(entries[i], address)
        invariant i <= entries.Length
        invariant FindAddress(entries[..], address) == FindAddress(entries[..], address, i)
      {
        i := i + 1;
      }
    }

    method FreePosition() returns (i: nat)
      ensures i == FindFree(entries[..])
    {
      i := 0;
      while i < entries.Length && entries[i].Some?
        invariant i <= entries.Length
        invariant FindFree(entries[..]) == FindFree(entries[..], i)
      {
        i := i + 1;
      }
    }

    method OldestPosition() returns (oldest: nat)
      requires entries.Length > 0 && Full(entries[..])
      ensures oldest == OldestOf(entries[..], entries.Length)
    {
      oldest := 0;
      for i := 1 to entries.Length
        invariant oldest == OldestOf(entries[..], i)
      {
        assert entries[i] == entries[..][i] && entries[oldest] == entries[..][oldest];
        if entries[i].value.lastSeen < entries[oldest].value.lastSeen {
          oldest := i;
        }
      }
    }

    /** Adds a report to the entry of its device. */
    method UpdateSlot(index: nat, rssi: i8, metadata: Metadata, now: u64)
      requires index < entries.Length && entries[index].Some?
      modifies entries
      ensures var e := old(entries[index]).value;
        entries[..] == old(entries[..])[index := Some(UpdateEntry(e, Report(e.address, rssi, metadata, now)))]
    {
      var e := entries[index].value;
      e := e.(rssiSum := SaturatingAddI32(e.rssiSum, rssi));
      e := e.(reports := SaturatingAddU32(e.reports, 1));
      e := e.(peak := Max(e.peak, rssi));
      e := e.(lastSeen := now);
      if metadata.name.Some? {
        e := e.(name := metadata.name);
      }
      if metadata.manufacturer.Some? {
        e := e.(manufacturer := metadata.manufacturer);
      }
      e := e.(beacon := e.beacon.Merge(metadata.beacon));
      entries[index] := Some(e);
    }

    /** The fields after a report. */
    method RecordFields(address: Address, rssi: i8, metadata: Metadata, now: u64)
      requires entries.Length > 0
      modifies this`windowReports, this`windowEvictions, entries
      ensures View() == RecordStep(old(View()), Report(address, rssi, metadata, now))
    {
      ghost var before := View();
      ghost var r := Report(address, rssi, metadata, now);
      RecordSlotCases(before.entries, r);
      windowReports := WrappingAddU32(windowReports, 1);
      var index := Position(address);
      if index < entries.Length {
        UpdateSlot(index, rssi, metadata, now);
      } else {
        index := FreePosition();
        if index == entries.Length {
          index := OldestPosition();
          windowEvictions := WrappingAddU32(windowEvictions, 1);
        }
        entries[index] := Some(Entry(address, None, rssi, 1, rssi, now, metadata.name, metadata.manufacturer, metadata.beacon));
      }
      assert index == RecordSlot(before.entries, r);
      assert entries[..] == before.entries[index := Some(RecordEntry(before.entries[index], r))];
    }

    method Record(address: Address, rssi: i8, metadata: Metadata, now: u64)
      requires Valid()
      modifies this, entries
      ensures Valid()
      ensures history == Then(old(history), Reported(Report(address, rssi, metadata, now)))
      ensures remembered == old(remembered) && windowMalformedReports == old(windowMalformedReports)
      ensures windowReports == (old(windowReports) + 1) % 0x1_0000_0000
      ensures windowEvictions == (old(windowEvictions) + if AllOthers(old(entries[..]), address) then 1 else 0) % 0x1_0000_0000
      ensures TakesOneSlot(old(entries[..]), entries[..], address, now)
    {
      RecordTells(View(), Report(address, rssi, metadata, now));
      RecordFields(address, rssi, metadata, now);
      history := Then(history, Reported(Report(address, rssi, metadata, now)));
    }

    method RecordMalformedReport()
      requires Valid()
      modifies this
      ensures Valid() && history == Then(old(history), Malformed)
      ensures windowMalformedReports == (old(windowMalformedReports) + 1) % 0x1_0000_0000
    {
      windowMalformedReports := WrappingAddU32(windowMalformedReports, 1);
      history := Then(history, Malformed);
    }

    method RemoveStaleEntries(now: u64)
      modifies entries
      ensures entries[..] == RemoveStale(old(entries[..]), now)
      ensures forall i :: 0 <= i < entries.Length ==>
        entries[i] == if old(entries[i]).Some? && now - old(entries[i]).value.lastSeen > 15_000 then None else old(entries[i])
    {
      for i := 0 to entries.Length
        invariant forall k :: 0 <= k < i ==> entries[k] == KeepFresh(old(entries[k]), now)
        invariant forall k :: i <= k < entries.Length ==> entries[k] == old(entries[k])
      {
        if entries[i].Some? && Stale(now, entries[i].value.lastSeen) {
          entries[i] := None;
        }
      }
    }

    method ResetWindow()
      modifies this`windowReports, this`windowMalformedReports, this`windowEvictions, entries
      ensures entries[..] == CloseWindow(old(entries[..]))
      ensures windowReports == windowMalformedReports == windowEvictions == 0
    {
      for i := 0 to entries.Length
        invariant forall k :: 0 <= k < i ==> entries[k] == CloseEntry(old(entries[k]))
        invariant forall k :: i <= k < entries.Length ==> entries[k] == old(entries[k])
      {
        if entries[i].Some? {
          var e := entries[i].value;
          var average := e.WindowAverage();
          if average.Some? {
            e := e.(previousAverage := average);
          }
          entries[i] := Some(e.(rssiSum := 0, reports := 0, peak := -128));
        }
      }
      windowReports, windowMalformedReports, windowEvictions := 0, 0, 0;
    }

    /** The part of the snapshot under the first lock: expire, copy the slots out, close the window. */
    method TakeWindow(now: u64) returns (snapshot: array<Slot>, packets: u32, malformed: u32, evicted: u32)
      modifies this`windowReports, this`windowMalformedReports, this`windowEvictions, entries
      ensures fresh(snapshot) && snapshot[..] == RemoveStale(old(entries[..]), now)
      ensures entries[..] == CloseWindow(RemoveStale(old(entries[..]), now))
      ensures forall i :: 0 <= i < entries.Length ==>
        && (snapshot[i].None? <==> old(entries[i]).None? || now - old(entries[i]).value.lastSeen > 15_000)
        && (snapshot[i].Some? ==> snapshot[i] == old(entries[i]))
        && (entries[i].Some? <==> snapshot[i].Some?)
      ensures windowReports == windowMalformedReports == windowEvictions == 0
      ensures packets == old(windowReports) && malformed == old(windowMalformedReports) && evicted == old(windowEvictions)
    {
      RemoveStaleEntries(now);
      snapshot := new Slot[entries.Length](i requires 0 <= i < entries.Length reads this, entries => entries[i]);
      assert snapshot[..] == entries[..];
      packets, malformed, evicted := windowReports, windowMalformedReports, windowEvictions;
      ResetWindow();
    }

    /** Reports and closes the window; `order` is the arrangement that the sort produced. */
    method PrintFields(now: u64) returns (report: ScanReport, ghost order: seq<Slot>)
      modifies this`remembered, this`windowReports, this`windowMalformedReports, this`windowEvictions, entries
      ensures fresh(remembered)
      ensures IsSnapshotOrder(RemoveStale(old(View()).entries, now), order)
      ensures report == ReportOf(old(View()), now, order)
      ensures View() == SnapshotStep(old(View()), now, order)
    {
      ghost var before := View();
      var snapshot, packets, malformed, evicted := TakeWindow(now);
      SortByAverage(snapshot);
      order := snapshot[..];
      var lost := Lost(remembered[..], snapshot[..]);
      SameLost(before.remembered, RemoveStale(before.entries, now), order);
      var active := Actives(snapshot[..]);
      remembered := RememberStrongest(active);
      var beacons := Beacons(active);
      report := ScanReport(|active|, packets, malformed, evicted,
                           Rows(Take(active, SNAPSHOT_DISPLAY_LIMIT), now),
                           |beacons|, Rows(Take(beacons, BEACON_DISPLAY_LIMIT), now),
                           |lost|, Take(lost, SNAPSHOT_DISPLAY_LIMIT));
      assert remembered[..] == Remember(order);
    }

    method PrintSnapshot(now: u64) returns (report: ScanReport, ghost order: seq<Slot>)
      requires Valid()
      modifies this, entries
      ensures Valid() && fresh(remembered)
      ensures IsSnapshotOrder(RemoveStale(old(View()).entries, now), order)
      ensures history == Then(old(history), Snapshot(now, order))
      ensures report == ReportOf(old(View()), now, order)
      ensures report.packets == TotalReports(old(history)) % 0x1_0000_0000
      ensures report.malformed == MalformedReports(old(history)) % 0x1_0000_0000
      ensures report.evicted == Evictions(old(history)) % 0x1_0000_0000
      ensures report.count == |Counted(old(entries[..]), now)|
      ensures ShowStrongest(report.rows, Counted(old(entries[..]), now), 12)
      ensures report.beaconCount == |CountedBeacons(old(entries[..]), now)|
      ensures ShowStrongest(report.beaconRows, CountedBeacons(old(entries[..]), now), 24)
      ensures forall row :: row in report.rows ==> RowTells(row, old(history), now)
      ensures forall row :: row in report.beaconRows ==> RowTells(row, old(history), now)
      ensures report.lostCount == |LostDevices(old(remembered[..]), old(entries[..]), now)|
      ensures ShowFirst(report.lostRows, old(remembered[..]), LostDevices(old(remembered[..]), old(entries[..]), now), 12)
      ensures RemembersStrongest(remembered[..], Counted(old(entries[..]), now))
    {
      ghost var past := history;
      report, order := PrintFields(now);
      history := Then(history, Snapshot(now, order));
      SnapshotTells(past, now, order);
    }
  }

  /** What the report of a snapshot says, on its own fields. */
  lemma SnapshotTells(h: History, now: u64, order: seq<Slot>)
    requires Legal(h) && IsSnapshotOrder(RemoveStale(Run(h).entries, now), order)
    ensures var report, entries := ReportOf(Run(h), now, order), Run(h).entries;
      var lost := LostDevices(Run(h).remembered, entries, now);
      && report.packets == TotalReports(h) % 0x1_0000_0000
      && report.malformed == MalformedReports(h) % 0x1_0000_0000
      && report.evicted == Evictions(h) % 0x1_0000_0000
      && report.count == |Counted(entries, now)| && ShowStrongest(report.rows, Counted(entries, now), 12)
      && report.beaconCount == |CountedBeacons(entries, now)|
      && ShowStrongest(report.beaconRows, CountedBeacons(entries, now), 24)
      && (forall row :: row in report.rows ==> RowTells(row, h, now))
      && (forall row :: row in report.beaconRows ==> RowTells(row, h, now))
      && report.lostCount == |lost| && ShowFirst(report.lostRows, Run(h).remembered, lost, 12)
      && RemembersStrongest(Remember(order), Counted(entries, now))
  {
    ReportCounterWraps(h);
    MalformedCounterWraps(h);
    EvictionCounterWraps(h);
    ReportShowsStrongest(h, now, order);
    ReportTells(h, now, order);
    ReportShowsLost(h, now, order);
    NoAddressTwice(h);
    RemembersTop(Run(h).entries, now, order);
  }

  method RememberStrongest(active: seq<Entry>) returns (remembered: array<Option<DisplayedDevice>>)
    ensures fresh(remembered) && remembered.Length == REMEMBERED_DEVICE_CAPACITY
    ensures forall i :: 0 <= i < remembered.Length ==> remembered[i] == RememberedAt(active, i)
  {
    remembered := new Option<DisplayedDevice>[REMEMBERED_DEVICE_CAPACITY](_ => None);
    var i := 0;
    while i < remembered.Length && i < |active|
      invariant i <= remembered.Length && i <= |active|
      invariant forall k :: 0 <= k < i ==> remembered[k] == Some(FromEntry(active[k]))
      invariant forall k :: i <= k < remembered.Length ==> remembered[k] == None
    {
      remembered[i] := Some(FromEntry(active[i]));
      i := i + 1;
    }
  }

  predicate NoWeaker(left: Slot, right: Slot) {
    AtLeast(SlotAverage(left), SlotAverage(right))
  }

  lemma SortedIsSnapshotOrder(slots: seq<Slot>)
    ensures var sorted := Permutations.Sorted(slots, NoWeaker);
      IsSnapshotOrder(slots, sorted) && |sorted| == |slots|
  {
    var sorted := Permutations.Sorted(slots, NoWeaker);
    Permutations.SortedIsInOrder(slots, NoWeaker);
    Permutations.SameSize(slots, sorted);
    assert forall i, j :: 0 <= i < j < |sorted| ==> NoWeaker(sorted[i], sorted[j]);
  }

  /** Stands for the unstable library sort: any arrangement in descending order of average. */
  method SortByAverage(slots: array<Slot>)
    modifies slots
    ensures IsSnapshotOrder(old(slots[..]), slots[..])
  {
    var sorted := Permutations.Sorted(slots[..], NoWeaker);
    SortedIsSnapshotOrder(slots[..]);
    for i := 0 to slots.Length
      invariant forall k :: 0 <= k < i ==> slots[k] == sorted[k]
    {
      slots[i] := sorted[i];
    }
    assert slots[..] == sorted;
  }

  lemma HeardInOther(slots: seq<Slot>, order: seq<Slot>, address: Address)
    requires multiset(slots) == multiset(order) && HeardFrom(slots, address)
    ensures HeardFrom(order, address)
  {
    var i :| 0 <= i < |slots| && Holds(slots[i], address) && slots[i].value.Active();
    assert slots[i] in multiset(order);
    var j :| 0 <= j < |order| && order[j] == slots[i];
  }

  /** Which devices are lost does not depend on the arrangement. */
  lemma {:induction false} SameLost(remembered: seq<Option<DisplayedDevice>>, slots: seq<Slot>, order: seq<Slot>)
    requires multiset(slots) == multiset(order)
    ensures Lost(remembered, slots) == Lost(remembered, order)
  {
    if remembered != [] {
      SameLost(remembered[1..], slots, order);
      if remembered[0].Some? {
        var address := remembered[0].value.address;
        if HeardFrom(slots, address) {
          HeardInOther(slots, order, address);
        }
        if HeardFrom(order, address) {
          HeardInOther(order, slots, address);
        }
      }
    }
  }
}
