// Runs of the scanner that show where it parts with its documentation.
module ScanWitnesses {
  import opened Wrappers
  import opened MachineInts
  import opened ScanModel
  import opened ScanHistory
  import opened ScanRecency
  import opened ScanAggregates
  import opened ScanSnapshot

  /** The device the runs are about. */
  const DEVICE := Address(0, [7])

  function Heard(address: Address, now: u64): Event {
    Reported(Report(address, -60, Metadata(None, None, NO_BEACON), now))
  }

  /** One of the devices that crowd it out. */
  function Guest(k: nat): Address
    requires k < DEVICE_CAPACITY
  {
    Address(1, [k])
  }

  /** h, and then n guests heard one after the other. */
  function Crowd(h: History, n: nat): History
    requires n <= DEVICE_CAPACITY && Latest(h) + n < 0x1_0000_0000_0000_0000
    ensures Latest(Crowd(h, n)) == Latest(h) + n
  {
    if n == 0 then h else Then(Crowd(h, n - 1), Heard(Guest(n - 1), Latest(h) + n))
  }

  /* ---------- a crowd evicts everybody else ---------- */

  lemma {:induction false} CrowdKeeps(h: History, n: nat)
    requires n <= DEVICE_CAPACITY && Latest(h) + n < 0x1_0000_0000_0000_0000
    ensures Legal(h) ==> Legal(Crowd(h, n))
    ensures SameWindow(Crowd(h, n), h)
    ensures Strict(h) ==> Strict(Crowd(h, n))
    ensures PrecedingWindow(Crowd(h, n), DEVICE) == PrecedingWindow(h, DEVICE)
    ensures SinceSnapshot(Crowd(h, n), DEVICE) == SinceSnapshot(h, DEVICE)
  {
    if n > 0 {
      CrowdKeeps(h, n - 1);
      if Strict(h) {
        LastReportIsPast(Crowd(h, n - 1), DEVICE);
      }
    }
  }

  lemma GuestInFront(l: seq<Seen>, n: nat, at: u64)
    requires n < DEVICE_CAPACITY && n <= |l|
    requires forall k :: 0 <= k < n ==> l[k].address == Guest(n - 1 - k)
    ensures var r := [Seen(Guest(n), at)] + Without(l, Guest(n));
      |r| > n && forall k :: 0 <= k <= n ==> r[k].address == Guest(n - k)
  {
    WithoutBeyond(l, n, Guest(n));
    var w := Without(l, Guest(n));
    assert Take(w, n) == Take(l, n);
    assert forall k :: 0 <= k < n ==> w[k] == Take(w, n)[k] && l[k] == Take(l, n)[k];
  }

  lemma {:induction false} CrowdIsRecent(h: History, n: nat)
    requires n <= DEVICE_CAPACITY && Latest(h) + n < 0x1_0000_0000_0000_0000
    ensures |Recency(Crowd(h, n))| >= n
    ensures forall k :: 0 <= k < n ==> Recency(Crowd(h, n))[k].address == Guest(n - 1 - k)
  {
    if n > 0 {
      CrowdIsRecent(h, n - 1);
      GuestInFront(Recency(Crowd(h, n - 1)), n - 1, Latest(h) + n);
    }
  }

  lemma CrowdOutranks(h: History, k: nat)
    requires Latest(h) + DEVICE_CAPACITY < 0x1_0000_0000_0000_0000
    ensures !AmongRecent(Crowd(h, DEVICE_CAPACITY), DEVICE, k)
  {
    CrowdIsRecent(h, DEVICE_CAPACITY);
  }

  lemma CrowdEvicts(h: History)
    requires Strict(h) && Latest(h) + DEVICE_CAPACITY < 0x1_0000_0000_0000_0000
    ensures !Present(Run(Crowd(h, DEVICE_CAPACITY)).entries, DEVICE)
  {
    var full := Crowd(h, DEVICE_CAPACITY);
    CrowdKeeps(h, DEVICE_CAPACITY);
    PresentIffRecent(full, DEVICE);
    if k: nat :| AmongRecent(full, DEVICE, k) {
      CrowdOutranks(h, k);
    }
  }

  /* ---------- short runs ---------- */

  lemma HeardIsPresent(past: History, address: Address, now: u64)
    ensures Present(Run(Then(past, Heard(address, now))).entries, address)
  {
    var entries := Run(past).entries;
    var r := Heard(address, now).report;
    RecordSlotCases(entries, r);
    assert Holds(Run(Then(past, Reported(r))).entries[RecordSlot(entries, r)], address);
  }

  /** A snapshot keeps the entry of a device that was reported in the last 15 s. */
  lemma SnapshotKeeps(past: History, now: u64, order: seq<Slot>, address: Address)
    requires FreshAt(past, now, address)
    ensures Present(Run(Then(past, Snapshot(now, order))).entries, address)
  {
    var i :| 0 <= i < DEVICE_CAPACITY && Holds(Run(past).entries[i], address);
    FreshSlot(past, now, address, i);
    assert Holds(Run(Then(past, Snapshot(now, order))).entries[i], address);
  }

  function HeardOnce(order: seq<Slot>): History {
    Then(Then(Boot, Heard(DEVICE, 1)), Snapshot(2, order))
  }

  lemma PresentAfterOnce(order: seq<Slot>)
    ensures Present(Run(HeardOnce(order)).entries, DEVICE)
    ensures Window(HeardOnce(order).past, DEVICE) == [Heard(DEVICE, 1).report]
    ensures Strict(HeardOnce(order))
  {
    HeardIsPresent(Boot, DEVICE, 1);
    SnapshotKeeps(Then(Boot, Heard(DEVICE, 1)), 2, order, DEVICE);
  }

  /* ---------- the printed change ---------- */

  lemma AverageOfOne(r: Report)
    ensures WindowOf([r]) == r.rssi
  {
    assert [r][..0] == [];
    assert SaturatedSum([r]) == r.rssi && Count([r]) == 1;
    AverageFits([r]);
  }

  lemma AverageAfterOnce(order: seq<Slot>)
    ensures PreviousAverage(HeardOnce(order), DEVICE) == Some(-60)
  {
    PresentAfterOnce(order);
    AverageOfOne(Heard(DEVICE, 1).report);
  }

  lemma SilentWindow(order: seq<Slot>)
    ensures Window(HeardOnce(order), DEVICE) == []
    ensures FreshAt(HeardOnce(order), 3, DEVICE)
  {
    PresentAfterOnce(order);
    assert SinceSnapshot(HeardOnce(order), DEVICE) == [];
  }

  lemma SilentScan(first: seq<Slot>, second: seq<Slot>)
    ensures var h := Then(HeardOnce(first), Snapshot(3, second));
      && Present(Run(h).entries, DEVICE)
      && Window(h.past, DEVICE) == []
      && PreviousAverage(h, DEVICE) == Some(-60)
  {
    AverageAfterOnce(first);
    SilentWindow(first);
    SnapshotKeeps(HeardOnce(first), 3, second, DEVICE);
  }

  /** Heard, silent for a whole scan, heard again: the change is against the older scan. */
  lemma DeltaSkipsSilentScan(first: seq<Slot>, second: seq<Slot>)
    ensures var h := Then(Then(HeardOnce(first), Snapshot(3, second)), Heard(DEVICE, 4));
      && Present(Run(h).entries, DEVICE)
      && PrecedingWindow(h, DEVICE) == []
      && PreviousAverage(h, DEVICE) == Some(-60)
  {
    var silent := Then(HeardOnce(first), Snapshot(3, second));
    HeardIsPresent(silent, DEVICE, 4);
    SilentScan(first, second);
  }

  /** Heard in the preceding scan, evicted, inserted again: no change is printed. */
  lemma DeltaForgetsEvicted(order: seq<Slot>)
    ensures var h := Then(Crowd(HeardOnce(order), DEVICE_CAPACITY), Heard(DEVICE, 200));
      && Strict(h)
      && Present(Run(h).entries, DEVICE)
      && PrecedingWindow(h, DEVICE) != []
      && PreviousAverage(h, DEVICE) == None
  {
    var full := Crowd(HeardOnce(order), DEVICE_CAPACITY);
    PresentAfterOnce(order);
    CrowdEvicts(HeardOnce(order));
    CrowdKeeps(HeardOnce(order), DEVICE_CAPACITY);
    LastReportIsPast(full, DEVICE);
    HeardIsPresent(full, DEVICE, 200);
  }

  /* ---------- lost though heard ---------- */

  lemma HeardOnceIsActive(order: seq<Slot>)
    ensures HeardFrom(RemoveStale(Run(HeardOnce(order).past).entries, 2), DEVICE)
  {
    var past := HeardOnce(order).past;
    var kept := RemoveStale(Run(past).entries, 2);
    HeardIsPresent(Boot, DEVICE, 1);
    var i :| 0 <= i < DEVICE_CAPACITY && Holds(Run(past).entries[i], DEVICE);
    FreshSlot(past, 2, DEVICE, i);
    EntryAgreesWithReports(past, i);
    PresentAfterOnce(order);
    assert Holds(kept[i], DEVICE) && kept[i].value.Active();
  }

  lemma OnlyDevice(order: seq<Slot>, e: Entry)
    requires e in Actives(RemoveStale(Run(HeardOnce(order).past).entries, 2))
    ensures e.address == DEVICE
  {
    var past := HeardOnce(order).past;
    var kept := RemoveStale(Run(past).entries, 2);
    var i := ActiveInSlot(kept, kept, e);
    LastSeenIsLastReport(past, i);
  }

  lemma AtMostOneActive(order: seq<Slot>)
    ensures |Actives(RemoveStale(Run(HeardOnce(order).past).entries, 2))| <= 1
  {
    var past := HeardOnce(order).past;
    var kept := RemoveStale(Run(past).entries, 2);
    NoAddressTwice(past);
    if |Actives(kept)| > 1 {
      ActivesDistinct(kept, 0, 1);
      OnlyDevice(order, Actives(kept)[0]);
      OnlyDevice(order, Actives(kept)[1]);
    }
  }

  lemma RememberedAfterOnce(order: seq<Slot>)
    requires Legal(HeardOnce(order))
    ensures Remembers(Run(HeardOnce(order)).remembered, DEVICE)
  {
    var kept := RemoveStale(Run(HeardOnce(order).past).entries, 2);
    HeardOnceIsActive(order);
    AtMostOneActive(order);
    HeardIsRemembered(kept, order, DEVICE);
  }

  /** A device that was heard is announced as lost when the snapshot comes more than 15 s after its last report. */
  lemma LateSnapshotLosesHeard(order: seq<Slot>, now: u64)
    requires Legal(HeardOnce(order)) && now > 3 + DEVICE_STALE_AFTER_MS
    ensures var h := Then(HeardOnce(order), Heard(DEVICE, 3));
      && Strict(h)
      && SinceSnapshot(h, DEVICE) != [] && Evictions(h) == 0
      && Announces(LostAt(h, now), DEVICE)
  {
    var h := Then(HeardOnce(order), Heard(DEVICE, 3));
    PresentAfterOnce(order);
    RememberedAfterOnce(order);
    LostExactly(h, now, DEVICE);
  }

  /** And when its entry was evicted after its report, at whatever time the snapshot comes. */
  lemma EvictionLosesHeard(order: seq<Slot>, now: u64)
    requires Legal(HeardOnce(order))
    ensures var h := Crowd(Then(HeardOnce(order), Heard(DEVICE, 3)), DEVICE_CAPACITY);
      && Legal(h) && Strict(h)
      && SinceSnapshot(h, DEVICE) != []
      && Announces(LostAt(h, now), DEVICE)
  {
    var base := Then(HeardOnce(order), Heard(DEVICE, 3));
    PresentAfterOnce(order);
    RememberedAfterOnce(order);
    CrowdKeeps(base, DEVICE_CAPACITY);
    RememberedUntilNext(Crowd(base, DEVICE_CAPACITY), base);
    CrowdEvicts(base);
    LostExactly(Crowd(base, DEVICE_CAPACITY), now, DEVICE);
  }
}
