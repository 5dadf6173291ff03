// What an entry holds, against the reports that produced it.
module ScanAggregates {
  import opened Wrappers
  import opened MachineInts
  import opened ScanModel
  import opened ScanHistory

  /** Reports of one device per window up to which its signal sum is exact. */
  const EXACT_SUM_LIMIT := 0x100_0000

  /* ---------- the reports behind an entry ---------- */

  function AllReports(h: History, address: Address): seq<Report> {
    match h
    case Boot => []
    case Then(past, Reported(r)) => AllReports(past, address) + if r.address == address then [r] else []
    case Then(past, _) => AllReports(past, address)
  }

  /** Its reports since the last snapshot. */
  function SinceSnapshot(h: History, address: Address): seq<Report> {
    match h
    case Boot => []
    case Then(past, Reported(r)) => SinceSnapshot(past, address) + if r.address == address then [r] else []
    case Then(past, Malformed) => SinceSnapshot(past, address)
    case Then(_, Snapshot(_, _)) => []
  }

  /** Its reports from the last one that found it absent. */
  function SinceInsertion(h: History, address: Address): seq<Report> {
    match h
    case Boot => []
    case Then(past, Reported(r)) =>
      if r.address != address then SinceInsertion(past, address)
      else if Present(Run(past).entries, address) then SinceInsertion(past, address) + [r]
      else [r]
    case Then(past, _) => SinceInsertion(past, address)
  }

  /** Its reports since the later of its insertion and the last snapshot. */
  function Window(h: History, address: Address): seq<Report> {
    if |SinceInsertion(h, address)| <= |SinceSnapshot(h, address)| then SinceInsertion(h, address)
    else SinceSnapshot(h, address)
  }

  predicate Suffix<T(==)>(s: seq<T>, t: seq<T>) {
    |s| <= |t| && t[|t| - |s|..] == s
  }

  lemma {:induction false} SinceSnapshotIsSuffix(h: History, address: Address)
    ensures Suffix(SinceSnapshot(h, address), AllReports(h, address))
  {
    if h.Then? {
      SinceSnapshotIsSuffix(h.past, address);
      if h.event.Reported? {
        SuffixSnoc(SinceSnapshot(h.past, address), AllReports(h.past, address), h.event.report);
      }
    }
  }

  lemma {:induction false} SinceInsertionIsSuffix(h: History, address: Address)
    ensures Suffix(SinceInsertion(h, address), AllReports(h, address))
  {
    if h.Then? {
      SinceInsertionIsSuffix(h.past, address);
      if h.event.Reported? {
        SuffixSnoc(SinceInsertion(h.past, address), AllReports(h.past, address), h.event.report);
      }
    }
  }

  lemma {:induction false} AllReportsAreItsOwn(h: History, address: Address)
    ensures forall k :: 0 <= k < |AllReports(h, address)| ==> AllReports(h, address)[k].address == address
  {
    if h.Then? {
      AllReportsAreItsOwn(h.past, address);
    }
  }

  /** All three are what the reports of the device end with, so the shorter one starts later. */
  lemma SuffixesOfAllReports(h: History, address: Address)
    ensures Suffix(SinceSnapshot(h, address), AllReports(h, address))
    ensures Suffix(SinceInsertion(h, address), AllReports(h, address))
    ensures forall k :: 0 <= k < |AllReports(h, address)| ==> AllReports(h, address)[k].address == address
  {
    SinceSnapshotIsSuffix(h, address);
    SinceInsertionIsSuffix(h, address);
    AllReportsAreItsOwn(h, address);
  }

  lemma SuffixSnoc(s: seq<Report>, t: seq<Report>, r: Report)
    ensures Suffix(s, t) ==> Suffix(s + [r], t + [r])
    ensures Suffix([r], t + [r])
  {
    if Suffix(s, t) {
      assert (t + [r])[|t| - |s|..] == t[|t| - |s|..] + [r];
    }
  }

  /* ---------- the reference values ---------- */

  function Names(reports: seq<Report>): seq<Option<LocalName>> {
    if reports == [] then []
    else Names(reports[..|reports| - 1]) + [reports[|reports| - 1].metadata.name]
  }

  function Manufacturers(reports: seq<Report>): seq<Option<u16>> {
    if reports == [] then []
    else Manufacturers(reports[..|reports| - 1]) + [reports[|reports| - 1].metadata.manufacturer]
  }

  /** v is the last of the values that is there, if any is. */
  predicate IsLatest<T(==)>(values: seq<Option<T>>, v: Option<T>) {
    if v.None? then forall k :: 0 <= k < |values| ==> values[k].None?
    else exists k :: 0 <= k < |values| && values[k] == v && forall j :: k < j < |values| ==> values[j].None?
  }

  ghost predicate SeenFormat(reports: seq<Report>, format: BeaconFormat) {
    exists k :: 0 <= k < |reports| && format in reports[k].metadata.beacon.formats
  }

  ghost predicate IsUnion(reports: seq<Report>, beacon: BeaconMetadata) {
    && (beacon.feasycom <==> exists k :: 0 <= k < |reports| && reports[k].metadata.beacon.feasycom)
    && (forall format :: format in beacon.formats <==> SeenFormat(reports, format))
  }

  predicate IsPeak(reports: seq<Report>, peak: i8) {
    && (forall k :: 0 <= k < |reports| ==> reports[k].rssi <= peak)
    && (peak == -128 || exists k :: 0 <= k < |reports| && reports[k].rssi == peak)
  }

  function Sum(reports: seq<Report>): int {
    if reports == [] then 0 else Sum(reports[..|reports| - 1]) + reports[|reports| - 1].rssi
  }

  /** The sum as the firmware keeps it. */
  function SaturatedSum(reports: seq<Report>): i32 {
    if reports == [] then 0
    else SaturatingAddI32(SaturatedSum(reports[..|reports| - 1]), reports[|reports| - 1].rssi)
  }

  function Count(reports: seq<Report>): u32 {
    Min(|reports|, U32_MAX)
  }

  ghost predicate Agrees(e: Entry, stay: seq<Report>, window: seq<Report>) {
    && IsLatest(Names(stay), e.name)
    && IsLatest(Manufacturers(stay), e.manufacturer)
    && IsUnion(stay, e.beacon)
    && e.reports == Count(window)
    && e.rssiSum == SaturatedSum(window)
    && IsPeak(window, e.peak)
  }

  /* ---------- one step of the reference ---------- */

  lemma Snoc<T>(s: seq<T>, x: T)
    ensures (s + [x])[..|s + [x]| - 1] == s && (s + [x])[|s + [x]| - 1] == x
  {
  }

  lemma LatestSnoc<T>(values: seq<Option<T>>, v: Option<T>, x: Option<T>)
    requires IsLatest(values, v)
    ensures IsLatest(values + [x], if x.Some? then x else v)
  {
    if x.Some? {
      assert (values + [x])[|values|] == x;
    } else if v.Some? {
      var k :| 0 <= k < |values| && values[k] == v && forall j :: k < j < |values| ==> values[j].None?;
      assert (values + [x])[k] == v;
    }
  }

  lemma UnionSnoc(reports: seq<Report>, beacon: BeaconMetadata, r: Report)
    requires IsUnion(reports, beacon)
    ensures IsUnion(reports + [r], beacon.Merge(r.metadata.beacon))
  {
    var more := reports + [r];
    assert more[|reports|] == r;
    assert forall k :: 0 <= k < |reports| ==> more[k] == reports[k];
    forall format
      ensures format in beacon.Merge(r.metadata.beacon).formats <==> SeenFormat(more, format)
    {
      if SeenFormat(reports, format) {
        var k :| 0 <= k < |reports| && format in reports[k].metadata.beacon.formats;
        assert format in more[k].metadata.beacon.formats;
      }
    }
  }

  lemma UnionOfOne(r: Report)
    ensures IsUnion([r], r.metadata.beacon)
  {
    UnionSnoc([], NO_BEACON, r);
    assert [] + [r] == [r];
    assert NO_BEACON.Merge(r.metadata.beacon) == r.metadata.beacon;
  }

  lemma LatestOfOne(r: Report)
    ensures IsLatest(Names([r]), r.metadata.name) && IsLatest(Manufacturers([r]), r.metadata.manufacturer)
  {
    assert [] + [r] == [r];
    Snoc([], r);
    LatestSnoc(Names([]), None, r.metadata.name);
    LatestSnoc(Manufacturers([]), None, r.metadata.manufacturer);
  }

  lemma AgreesWithFirst(r: Report)
    ensures Agrees(NewEntry(r), [r], [r])
  {
    LatestOfOne(r);
    UnionOfOne(r);
    assert [r][..0] == [] && [r][0].rssi == r.rssi;
    assert SaturatedSum([r][..0]) == 0;
  }

  lemma AgreesWithNext(e: Entry, stay: seq<Report>, window: seq<Report>, r: Report)
    requires Agrees(e, stay, window)
    ensures Agrees(UpdateEntry(e, r), stay + [r], window + [r])
  {
    Snoc(stay, r);
    Snoc(window, r);
    LatestSnoc(Names(stay), e.name, r.metadata.name);
    LatestSnoc(Manufacturers(stay), e.manufacturer, r.metadata.manufacturer);
    UnionSnoc(stay, e.beacon, r);
    PeakSnoc(window, e.peak, r);
  }

  lemma PeakSnoc(reports: seq<Report>, peak: i8, r: Report)
    requires IsPeak(reports, peak)
    ensures IsPeak(reports + [r], Max(peak, r.rssi))
  {
    assert (reports + [r])[|reports|] == r;
    if peak != -128 {
      var k :| 0 <= k < |reports| && reports[k].rssi == peak;
      assert (reports + [r])[k].rssi == peak;
    }
  }

  /* ---------- every run ---------- */

  lemma SlotKeepsAddress(entries: seq<Slot>, r: Report, i: nat)
    requires i < |entries| && Distinct(entries)
    ensures var slot := RecordSlot(entries, r);
      && (i == slot ==> (Holds(entries[i], r.address) <==> Present(entries, r.address)))
      && (i != slot && entries[i].Some? ==> entries[i].value.address != r.address)
  {
    RecordSlotCases(entries, r);
  }

  /** Whatever has happened, an entry holds what the reports since its insertion and since the last snapshot say. */
  lemma {:induction false} EntryAgreesWithReports(h: History, i: nat)
    requires i < DEVICE_CAPACITY && Run(h).entries[i].Some?
    ensures var e := Run(h).entries[i].value; Agrees(e, SinceInsertion(h, e.address), Window(h, e.address))
  {
    match h
    case Boot =>
    case Then(past, Malformed) => EntryAgreesWithReports(past, i);
    case Then(past, Snapshot(now, _)) => EntryAgreesWithReports(past, i);
    case Then(past, Reported(r)) =>
      if Run(past).entries[i].Some? {
        EntryAgreesWithReports(past, i);
      }
      ReportAgrees(past, r, i);
  }

  lemma ReportAgrees(past: History, r: Report, i: nat)
    requires i < DEVICE_CAPACITY && Run(Then(past, Reported(r))).entries[i].Some?
    requires Run(past).entries[i].Some? ==>
      var e := Run(past).entries[i].value; Agrees(e, SinceInsertion(past, e.address), Window(past, e.address))
    ensures var h := Then(past, Reported(r));
      var e := Run(h).entries[i].value; Agrees(e, SinceInsertion(h, e.address), Window(h, e.address))
  {
    var before := Run(past).entries;
    NoAddressTwice(past);
    SlotKeepsAddress(before, r, i);
    if i != RecordSlot(before, r) {
      assert SinceSnapshot(Then(past, Reported(r)), before[i].value.address) == SinceSnapshot(past, before[i].value.address);
    } else if Holds(before[i], r.address) {
      AgreesWithNext(before[i].value, SinceInsertion(past, r.address), Window(past, r.address), r);
    } else {
      AgreesWithFirst(r);
      var h := Then(past, Reported(r));
      assert |SinceSnapshot(h, r.address)| >= 1 && SinceInsertion(h, r.address) == [r];
    }
  }

  /* ---------- the average ---------- */

  /** Saturation never takes the sum outside the range that the count allows. */
  lemma {:induction false} SumWithinCount(reports: seq<Report>)
    ensures -128 * Count(reports) <= SaturatedSum(reports) <= 127 * Count(reports)
  {
    if reports != [] {
      SumWithinCount(reports[..|reports| - 1]);
    }
  }

  lemma {:induction false} SumWithinLength(reports: seq<Report>, peak: i8)
    requires forall k :: 0 <= k < |reports| ==> reports[k].rssi <= peak
    ensures -128 * |reports| <= Sum(reports) <= peak * |reports|
  {
    if reports != [] {
      var init := reports[..|reports| - 1];
      SumWithinLength(init, peak);
      assert peak * |reports| == peak * |init| + peak;
    }
  }

  lemma {:induction false} SumIsExact(reports: seq<Report>)
    requires |reports| <= EXACT_SUM_LIMIT
    ensures SaturatedSum(reports) == Sum(reports)
  {
    if reports != [] {
      var init := reports[..|reports| - 1];
      SumIsExact(init);
      SumWithinLength(reports, 127);
    }
  }

  function WindowOf(reports: seq<Report>): (average: i16)
    requires reports != []
  {
    AsI16(TruncatingDiv(SaturatedSum(reports), Count(reports)))
  }

  /**
    * The average always fits a signed byte, so the cast to sixteen bits loses nothing, and it is the quotient
    * of sum and count rounded toward zero.
    */
  lemma AverageFits(reports: seq<Report>)
    requires reports != []
    ensures WindowOf(reports) == TruncatingDiv(SaturatedSum(reports), Count(reports))
    ensures -128 <= WindowOf(reports) <= 127
    ensures var sum, count, average := SaturatedSum(reports), Count(reports), WindowOf(reports);
      && Abs(average) * count <= Abs(sum) < Abs(average) * count + count
      && (0 <= sum ==> 0 <= average) && (sum <= 0 ==> average <= 0)
  {
    TruncatesTowardZero(SaturatedSum(reports), Count(reports));
    SumWithinCount(reports);
    TruncatingDivBounds(SaturatedSum(reports), Count(reports), -128, 127);
    AsI16Keeps(TruncatingDiv(SaturatedSum(reports), Count(reports)));
  }

  lemma AverageWithinPeak(reports: seq<Report>, peak: i8)
    requires 0 < |reports| <= EXACT_SUM_LIMIT && IsPeak(reports, peak)
    ensures WindowOf(reports) <= peak
  {
    AverageFits(reports);
    SumIsExact(reports);
    SumWithinLength(reports, peak);
    TruncatingDivBounds(Sum(reports), |reports|, -128, peak);
  }

  /** n reports of the weakest signal. */
  function Weakest(n: nat): (reports: seq<Report>)
    ensures |reports| == n && forall k :: 0 <= k < n ==> reports[k].rssi == -128
  {
    if n == 0 then []
    else Weakest(n - 1) + [Report(Address(0, []), -128, Metadata(None, None, NO_BEACON), 0)]
  }

  lemma {:induction false} WeakestSums(n: nat)
    ensures Sum(Weakest(n)) == -128 * n && SaturatedSum(Weakest(n)) == Max(I32_MIN, -128 * n)
  {
    if n > 0 {
      WeakestSums(n - 1);
      assert Weakest(n)[..n - 1] == Weakest(n - 1);
    }
  }

  /** The sum is exact for every window of n reports, and bounded by its peak, exactly up to 2^24 reports. */
  lemma ExactUpToLimit(n: nat)
    ensures (forall w: seq<Report> | |w| == n :: SaturatedSum(w) == Sum(w)) <==> n <= EXACT_SUM_LIMIT
    ensures n > 0 ==>
      ((forall w: seq<Report>, peak: i8 | |w| == n && IsPeak(w, peak) :: WindowOf(w) <= peak) <==> n <= EXACT_SUM_LIMIT)
  {
    if n <= EXACT_SUM_LIMIT {
      forall w: seq<Report> | |w| == n
        ensures SaturatedSum(w) == Sum(w)
      {
        SumIsExact(w);
      }
      forall w: seq<Report>, peak: i8 | n > 0 && |w| == n && IsPeak(w, peak)
        ensures WindowOf(w) <= peak
      {
        AverageWithinPeak(w, peak);
      }
    } else {
      var w := Weakest(n);
      WeakestSums(n);
      assert SaturatedSum(w) != Sum(w);
      assert IsPeak(w, -128);
      WeakestAverage(n);
    }
  }

  lemma WeakestQuotient(count: u32)
    requires count > EXACT_SUM_LIMIT
    ensures TruncatingDiv(I32_MIN, count) > -128
  {
    var q := 0x8000_0000 / count;
    assert q * count <= 0x8000_0000;
    if 127 < q {
      ScaledGap(127, q, count);
    }
  }

  lemma WeakestAverage(n: nat)
    requires n > EXACT_SUM_LIMIT
    ensures WindowOf(Weakest(n)) > -128
  {
    WeakestSums(n);
    AverageFits(Weakest(n));
    WeakestQuotient(Count(Weakest(n)));
  }

  /* ---------- the previous average ---------- */

  /** The average of the last closed window in which the device was heard since its insertion. */
  function PreviousAverage(h: History, address: Address): Option<i16> {
    match h
    case Boot => None
    case Then(past, Reported(r)) =>
      if r.address == address && !Present(Run(past).entries, address) then None
      else PreviousAverage(past, address)
    case Then(past, Malformed) => PreviousAverage(past, address)
    case Then(past, Snapshot(_, _)) =>
      if Window(past, address) == [] then PreviousAverage(past, address)
      else Some(WindowOf(Window(past, address)))
  }

  lemma {:induction false} PreviousAverageAgrees(h: History, i: nat)
    requires i < DEVICE_CAPACITY && Run(h).entries[i].Some?
    ensures var e := Run(h).entries[i].value;
      && e.previousAverage == PreviousAverage(h, e.address)
      && (e.previousAverage.Some? ==> -128 <= e.previousAverage.value <= 127)
  {
    match h
    case Boot =>
    case Then(past, Malformed) => PreviousAverageAgrees(past, i);
    case Then(past, Snapshot(now, _)) =>
      PreviousAverageAgrees(past, i);
      EntryAgreesWithReports(past, i);
      var w := Window(past, Run(past).entries[i].value.address);
      if w != [] {
        AverageFits(w);
      }
    case Then(past, Reported(r)) =>
      NoAddressTwice(past);
      SlotKeepsAddress(Run(past).entries, r, i);
      if Run(past).entries[i].Some? {
        PreviousAverageAgrees(past, i);
      }
  }

  /** Its reports in the window that the last snapshot closed. */
  function PrecedingWindow(h: History, address: Address): seq<Report> {
    match h
    case Boot => []
    case Then(past, Snapshot(_, _)) => Window(past, address)
    case Then(past, _) => PrecedingWindow(past, address)
  }

  /** The entry was there at the last snapshot already. */
  predicate InsertedBefore(h: History, address: Address) {
    |SinceInsertion(h, address)| > |SinceSnapshot(h, address)|
  }

  lemma {:induction false} PresentWasReported(h: History, i: nat)
    requires i < DEVICE_CAPACITY && Run(h).entries[i].Some?
    ensures SinceInsertion(h, Run(h).entries[i].value.address) != []
  {
    match h
    case Boot =>
    case Then(past, Reported(r)) =>
      if i != RecordSlot(Run(past).entries, r) {
        PresentWasReported(past, i);
      }
    case Then(past, _) => PresentWasReported(past, i);
  }

  /** The previous average stems from the preceding window if that has any, and else from an older one. */
  lemma {:induction false} PreviousAverageCases(h: History, i: nat)
    requires i < DEVICE_CAPACITY && Run(h).entries[i].Some?
    ensures var a := Run(h).entries[i].value.address;
      && (PreviousAverage(h, a).Some? <==> InsertedBefore(h, a))
      && (InsertedBefore(h, a) && PrecedingWindow(h, a) != [] ==>
            PreviousAverage(h, a) == Some(WindowOf(PrecedingWindow(h, a))))
  {
    match h
    case Boot =>
    case Then(past, Malformed) => PreviousAverageCases(past, i);
    case Then(past, Snapshot(_, _)) =>
      PreviousAverageCases(past, i);
      PresentWasReported(past, i);
    case Then(past, Reported(r)) =>
      NoAddressTwice(past);
      SlotKeepsAddress(Run(past).entries, r, i);
      if Run(past).entries[i].Some? {
        PreviousAverageCases(past, i);
      }
  }

  /**
    * The printed change is documented as the one since the preceding scan, and none for a device that
    * scan did not hear. That is what it is exactly when the entry dates from before that scan if and
    * only if the device was heard in it.
    */
  lemma DeltaIsSincePrecedingScanIff(h: History, i: nat)
    requires i < DEVICE_CAPACITY && Run(h).entries[i].Some?
    ensures var a := Run(h).entries[i].value.address;
      var w := PrecedingWindow(h, a);
      Run(h).entries[i].value.previousAverage == (if w == [] then None else Some(WindowOf(w))) <==>
      (w != [] <==> InsertedBefore(h, a))
  {
    PreviousAverageAgrees(h, i);
    PreviousAverageCases(h, i);
  }

  /** The printed change of average never overflows sixteen bits. */
  lemma DeltaFits(h: History, i: nat)
    requires i < DEVICE_CAPACITY && Run(h).entries[i].Some?
    requires Run(h).entries[i].value.Active() && Run(h).entries[i].value.previousAverage.Some?
    ensures var e := Run(h).entries[i].value;
      e.WindowAverage().Some? && -255 <= e.WindowAverage().value - e.previousAverage.value <= 255
  {
    PreviousAverageAgrees(h, i);
    EntryAgreesWithReports(h, i);
    AverageFits(Window(h, Run(h).entries[i].value.address));
  }

  /* ---------- packet conservation ---------- */

  function SlotReports(slot: Slot): nat {
    if slot.Some? then slot.value.reports else 0
  }

  function SumReports(entries: seq<Slot>): nat {
    if entries == [] then 0 else SlotReports(entries[0]) + SumReports(entries[1..])
  }

  /** How many reports of any device have arrived since the last snapshot. */
  function TotalReports(h: History): nat {
    match h
    case Boot => 0
    case Then(past, Reported(_)) => TotalReports(past) + 1
    case Then(past, Malformed) => TotalReports(past)
    case Then(_, Snapshot(_, _)) => 0
  }

  /** How many of them were counted in entries that were evicted since. */
  function CarriedAway(h: History): nat {
    match h
    case Boot => 0
    case Then(past, Reported(r)) =>
      var before := Run(past).entries;
      CarriedAway(past) + if Evicts(before, r) then EvictedReports(before, r) else 0
    case Then(past, Malformed) => CarriedAway(past)
    case Then(_, Snapshot(_, _)) => 0
  }

  function EvictedReports(entries: seq<Slot>, r: Report): nat
    requires entries != []
  {
    SlotReports(entries[RecordSlot(entries, r)])
  }

  function Evictions(h: History): nat {
    match h
    case Boot => 0
    case Then(past, Reported(r)) => Evictions(past) + if Evicts(Run(past).entries, r) then 1 else 0
    case Then(past, Malformed) => Evictions(past)
    case Then(_, Snapshot(_, _)) => 0
  }

  function MalformedReports(h: History): nat {
    match h
    case Boot => 0
    case Then(past, Malformed) => MalformedReports(past) + 1
    case Then(past, Reported(_)) => MalformedReports(past)
    case Then(_, Snapshot(_, _)) => 0
  }

  lemma {:induction false} SumReportsWith(entries: seq<Slot>, i: nat, slot: Slot)
    requires i < |entries|
    ensures SumReports(entries[i := slot]) + SlotReports(entries[i]) == SumReports(entries) + SlotReports(slot)
    ensures SlotReports(entries[i]) <= SumReports(entries)
  {
    if i == 0 {
      assert entries[i := slot][1..] == entries[1..];
    } else {
      SumReportsWith(entries[1..], i - 1, slot);
      assert entries[i := slot][1..] == entries[1..][i - 1 := slot];
    }
  }

  lemma {:induction false} SumReportsZero(entries: seq<Slot>)
    requires forall i :: 0 <= i < |entries| ==> SlotReports(entries[i]) == 0
    ensures SumReports(entries) == 0
  {
    if entries != [] {
      SumReportsZero(entries[1..]);
    }
  }

  /** The counters count modulo 2^32. */
  lemma {:induction false} ReportCounterWraps(h: History)
    ensures Run(h).windowReports == TotalReports(h) % U32_LIMIT
  {
    if h.Then? {
      ReportCounterWraps(h.past);
      StepCountsReports(Run(h.past), h.event, TotalReports(h.past));
    }
  }

  lemma StepCountsReports(s: Registry, e: Event, reports: nat)
    requires s.entries != [] && s.windowReports == reports % U32_LIMIT
    ensures Step(s, e).windowReports ==
            (if e.Snapshot? then 0 else if e.Reported? then reports + 1 else reports) % U32_LIMIT
  {
    WrappingCounts(reports);
  }

  lemma {:induction false} EvictionCounterWraps(h: History)
    ensures Run(h).evictions == Evictions(h) % U32_LIMIT
  {
    if h.Then? {
      EvictionCounterWraps(h.past);
      StepCountsEvictions(Run(h.past), h.event, Evictions(h.past));
    }
  }

  lemma StepCountsEvictions(s: Registry, e: Event, evictions: nat)
    requires s.entries != [] && s.evictions == evictions % U32_LIMIT
    ensures Step(s, e).evictions ==
            (if e.Snapshot? then 0
             else if e.Reported? && Evicts(s.entries, e.report) then evictions + 1 else evictions) % U32_LIMIT
  {
    WrappingCounts(evictions);
  }

  lemma {:induction false} MalformedCounterWraps(h: History)
    ensures Run(h).malformedReports == MalformedReports(h) % U32_LIMIT
  {
    match h
    case Boot =>
    case Then(past, Malformed) =>
      MalformedCounterWraps(past);
      WrappingCounts(MalformedReports(past));
    case Then(past, Reported(_)) => MalformedCounterWraps(past);
    case Then(_, Snapshot(_, _)) =>
  }

  /** Every report is still counted in an entry or went with an evicted one. */
  lemma {:induction false} ReportsAreConserved(h: History)
    requires TotalReports(h) <= U32_MAX
    ensures Run(h).windowReports == TotalReports(h) == SumReports(Run(h).entries) + CarriedAway(h)
  {
    ReportCounterWraps(h);
    WrappingCounts(TotalReports(h));
    match h
    case Boot => SumReportsZero(Run(h).entries);
    case Then(past, Malformed) => ReportsAreConserved(past);
    case Then(past, Snapshot(_, _)) => SumReportsZero(Run(h).entries);
    case Then(past, Reported(r)) =>
      ReportsAreConserved(past);
      ReportConserves(Run(past).entries, r, TotalReports(past), CarriedAway(past));
  }

  lemma ReportConserves(entries: seq<Slot>, r: Report, total: nat, carried: nat)
    requires entries != [] && total < U32_MAX
    ensures var i := RecordSlot(entries, r);
      total == SumReports(entries) + carried ==>
      total + 1 == SumReports(entries[i := Some(RecordEntry(entries[i], r))]) + carried
                   + if Evicts(entries, r) then EvictedReports(entries, r) else 0
  {
    var i := RecordSlot(entries, r);
    RecordSlotCases(entries, r);
    SumReportsWith(entries, i, Some(RecordEntry(entries[i], r)));
  }

  /** At a snapshot the printed packet count is what the kept entries, the expired ones and the evicted ones hold. */
  lemma SnapshotConservesReports(h: History, now: u64)
    requires TotalReports(h) <= U32_MAX
    ensures Run(h).windowReports ==
            SumReports(RemoveStale(Run(h).entries, now)) + ExpiredReports(Run(h).entries, now) + CarriedAway(h)
  {
    ReportsAreConserved(h);
    ExpirySplits(Run(h).entries, now);
  }

  /** The reports held by the entries that are stale at a given time. */
  function ExpiredReports(entries: seq<Slot>, now: u64): nat {
    if entries == [] then 0
    else (if entries[0].Some? && now - entries[0].value.lastSeen > 15_000 then SlotReports(entries[0]) else 0)
         + ExpiredReports(entries[1..], now)
  }

  lemma {:induction false} ExpirySplits(entries: seq<Slot>, now: u64)
    ensures SumReports(entries) == SumReports(RemoveStale(entries, now)) + ExpiredReports(entries, now)
  {
    if entries != [] {
      ExpirySplits(entries[1..], now);
      assert RemoveStale(entries, now)[1..] == RemoveStale(entries[1..], now);
    }
  }

  /** Entries leave only by eviction or at a snapshot, so a window that has evicted anything has every slot taken. */
  lemma {:induction false} EvictionMeansFull(h: History)
    ensures Evictions(h) > 0 ==> Full(Run(h).entries)
    ensures Run(h).evictions > 0 ==> Full(Run(h).entries)
  {
    EvictionCounterWraps(h);
    match h
    case Boot =>
    case Then(past, Malformed) => EvictionMeansFull(past);
    case Then(past, Reported(r)) =>
      EvictionMeansFull(past);
      RecordSlotCases(Run(past).entries, r);
    case Then(_, Snapshot(_, _)) =>
  }
}
