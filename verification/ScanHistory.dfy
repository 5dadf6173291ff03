// Runs of the scanner: everything that ever reached the registry, in order, and the state it leads to.
module ScanHistory {
  import opened Wrappers
  import opened MachineInts
  import opened ScanModel

  /** A snapshot carries the arrangement that its unstable sort happened to produce. */
  datatype Event =
    | Reported(report: Report)
    | Malformed
    | Snapshot(now: u64, order: seq<Slot>)

  datatype History = Boot | Then(past: History, event: Event)

  function Step(s: Registry, e: Event): (s': Registry)
    requires s.entries != []
    ensures |s'.entries| == |s.entries|
  {
    match e
    case Reported(r) => RecordStep(s, r)
    case Malformed => MalformedStep(s)
    case Snapshot(now, order) => SnapshotStep(s, now, order)
  }

  function Run(h: History): (s: Registry)
    ensures |s.entries| == DEVICE_CAPACITY
  {
    match h
    case Boot => Empty()
    case Then(past, e) => Step(Run(past), e)
  }

  /** Every snapshot in the history sorted the entries it found. */
  ghost predicate Legal(h: History) {
    match h
    case Boot => true
    case Then(past, e) =>
      Legal(past) && (e.Snapshot? ==> IsSnapshotOrder(RemoveStale(Run(past).entries, e.now), e.order))
  }

  /* ---------- time ---------- */

  /** The clock reading of the last event that had one. */
  function Latest(h: History): u64 {
    match h
    case Boot => 0
    case Then(_, Reported(r)) => r.now
    case Then(past, Malformed) => Latest(past)
    case Then(_, Snapshot(now, _)) => now
  }

  /** The clock reading of the last report, or -1. */
  function LatestReport(h: History): int {
    match h
    case Boot => -1
    case Then(_, Reported(r)) => r.now
    case Then(past, _) => LatestReport(past)
  }

  /** The clock never runs backwards. */
  predicate Monotone(h: History) {
    h.Then? ==> Monotone(h.past) && Latest(h.past) <= Latest(h)
  }

  /** Moreover no two reports carry the same time. */
  predicate Strict(h: History) {
    Monotone(h) && (h.Then? ==> Strict(h.past) && (h.event.Reported? ==> LatestReport(h.past) < h.event.report.now))
  }

  /** When the address was last reported, if ever. */
  function LastReport(h: History, address: Address): Option<u64> {
    match h
    case Boot => None
    case Then(past, Reported(r)) => if r.address == address then Some(r.now) else LastReport(past, address)
    case Then(past, _) => LastReport(past, address)
  }

  lemma {:induction false} LastReportIsPast(h: History, address: Address)
    requires Monotone(h)
    ensures LastReport(h, address).Some? ==> LastReport(h, address).value <= Latest(h)
    ensures LastReport(h, address).Some? ==> LastReport(h, address).value <= LatestReport(h)
    ensures LatestReport(h) <= Latest(h)
  {
    if h.Then? {
      LastReportIsPast(h.past, address);
    }
  }

  /* ---------- the slots ---------- */

  /** No address is held by two slots. */
  predicate Distinct(entries: seq<Slot>) {
    forall i, j :: 0 <= i < j < |entries| && entries[i].Some? && entries[j].Some? ==>
      entries[i].value.address != entries[j].value.address
  }

  /** Every slot holds another device. */
  predicate AllOthers(entries: seq<Slot>, address: Address) {
    forall i :: 0 <= i < |entries| ==> entries[i].Some? && entries[i].value.address != address
  }

  /**
    * Where a report goes: its own slot if it has one, else the first free one, else that of the first of the
    * entries seen longest ago, whose device it evicts.
    */
  lemma RecordSlotCases(entries: seq<Slot>, r: Report)
    requires entries != []
    ensures var i := RecordSlot(entries, r);
            && (Present(entries, r.address) <==> Holds(entries[i], r.address))
            && (entries[i].None? <==> !Present(entries, r.address) && !Full(entries))
            && (entries[i].None? ==> forall j :: 0 <= j < i ==> entries[j].Some?)
            && (Evicts(entries, r) <==> entries[i].Some? && entries[i].value.address != r.address)
            && (Evicts(entries, r) <==> AllOthers(entries, r.address))
            && (Evicts(entries, r) ==>
                  (forall j :: 0 <= j < |entries| ==> entries[i].value.lastSeen <= entries[j].value.lastSeen) &&
                  (forall j :: 0 <= j < i ==> entries[i].value.lastSeen < entries[j].value.lastSeen))
  {
  }

  lemma {:induction false} NoAddressTwice(h: History)
    ensures Distinct(Run(h).entries)
  {
    match h
    case Boot =>
    case Then(past, e) =>
      NoAddressTwice(past);
      if e.Reported? {
        RecordSlotCases(Run(past).entries, e.report);
      }
  }

  /** A present entry was last seen exactly when its address was last reported. */
  lemma {:induction false} LastSeenIsLastReport(h: History, i: nat)
    requires i < DEVICE_CAPACITY && Run(h).entries[i].Some?
    ensures var e := Run(h).entries[i].value; LastReport(h, e.address) == Some(e.lastSeen)
  {
    match h
    case Boot =>
    case Then(past, Reported(r)) =>
      var before := Run(past).entries;
      var slot := RecordSlot(before, r);
      if i != slot {
        RecordSlotCases(before, r);
        NoAddressTwice(past);
        LastSeenIsLastReport(past, i);
      }
    case Then(past, _) =>
      LastSeenIsLastReport(past, i);
  }

  /**
    * Least recently seen goes first: on a clock that never runs backwards, a device that was reported
    * but is gone was last reported no later than any device still present.
    */
  lemma {:induction false} AbsentIsOlder(h: History, address: Address, i: nat)
    requires Monotone(h)
    requires LastReport(h, address).Some? && !Present(Run(h).entries, address)
    requires i < DEVICE_CAPACITY && Run(h).entries[i].Some?
    ensures LastReport(h, address).value <= Run(h).entries[i].value.lastSeen
  {
    match h
    case Boot =>
    case Then(past, e) =>
      var before := Run(past).entries;
      var after := Run(h).entries;
      if e.Reported? {
        RecordSlotCases(before, e.report);
        assert Holds(after[RecordSlot(before, e.report)], e.report.address);
      }
      LastReportIsPast(past, address);
      if Present(before, address) {
        var j :| 0 <= j < |before| && Holds(before[j], address);
        LastSeenIsLastReport(past, j);
        assert !Holds(after[j], address);
      } else if before[i].Some? {
        AbsentIsOlder(past, address, i);
      }
  }
}
