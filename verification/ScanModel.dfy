// The scanner's device registry as a value: what one report, one malformed report and one snapshot do to it.
module ScanModel {
  import opened Wrappers
  import opened MachineInts

  const DEVICE_STALE_AFTER_MS := 15_000
  const DEVICE_CAPACITY := 128
  const REMEMBERED_DEVICE_CAPACITY := 48
  const SNAPSHOT_DISPLAY_LIMIT := 12
  const BEACON_DISPLAY_LIMIT := 24
  const LOCAL_NAME_CAPACITY := 29

  type LocalName = s: seq<byte> | 1 <= |s| <= LOCAL_NAME_CAPACITY witness [0]

  datatype Address = Address(kind: u8, addr: seq<byte>)

  datatype BeaconFormat = IBeacon | EddystoneUid | EddystoneUrl | EddystoneTlm | EddystoneEid | AltBeacon

  /** The format bits of the firmware's flag byte, as a set. */
  datatype BeaconMetadata = BeaconMetadata(feasycom: bool, formats: set<BeaconFormat>) {
    function Merge(other: BeaconMetadata): BeaconMetadata {
      BeaconMetadata(feasycom || other.feasycom, formats + other.formats)
    }

    predicate IsBeacon() {
      feasycom || formats != {}
    }
  }

  const NO_BEACON := BeaconMetadata(false, {})

  datatype Metadata = Metadata(name: Option<LocalName>, manufacturer: Option<u16>, beacon: BeaconMetadata)

  datatype Report = Report(address: Address, rssi: i8, metadata: Metadata, now: u64)

  datatype Entry = Entry(
    address: Address,
    previousAverage: Option<i16>,
    rssiSum: i32,
    reports: u32,
    peak: i8,
    lastSeen: u64,
    name: Option<LocalName>,
    manufacturer: Option<u16>,
    beacon: BeaconMetadata)
  {
    function WindowAverage(): Option<i16> {
      if reports == 0 then None else Some(AsI16(TruncatingDiv(rssiSum, reports)))
    }

    /** What an entry is displayed with: its average, or the least value there is. */
    function Strength(): i16 {
      if WindowAverage().Some? then WindowAverage().value else I16_MIN
    }

    predicate Active() {
      reports > 0
    }
  }

  type Slot = Option<Entry>

  /** What the registry remembers of a device between two snapshots. */
  datatype DisplayedDevice = DisplayedDevice(
    address: Address,
    average: i16,
    lastSeen: u64,
    name: Option<LocalName>,
    manufacturer: Option<u16>,
    beacon: BeaconMetadata)

  datatype Registry = Registry(
    entries: seq<Slot>,
    remembered: seq<Option<DisplayedDevice>>,
    windowReports: u32,
    malformedReports: u32,
    evictions: u32)

  function Empty(): Registry {
    Registry(Nones(DEVICE_CAPACITY), Nones(REMEMBERED_DEVICE_CAPACITY), 0, 0, 0)
  }

  /* ---------- one report ---------- */

  predicate Holds(slot: Slot, address: Address) {
    slot.Some? && slot.value.address == address
  }

  predicate Present(entries: seq<Slot>, address: Address) {
    exists i :: 0 <= i < |entries| && Holds(entries[i], address)
  }

  predicate Full(entries: seq<Slot>) {
    forall i :: 0 <= i < |entries| ==> entries[i].Some?
  }

  /** The first slot from `from` on that holds the address, or the number of slots. */
  function FindAddress(entries: seq<Slot>, address: Address, from: nat := 0): (i: nat)
    requires from <= |entries|
    ensures from <= i <= |entries|
    ensures forall j :: from <= j < i ==> !Holds(entries[j], address)
    ensures i < |entries| ==> Holds(entries[i], address)
    decreases |entries| - from
  {
    if from == |entries| || Holds(entries[from], address) then from
    else FindAddress(entries, address, from + 1)
  }

  /** The first empty slot from `from` on, or the number of slots. */
  function FindFree(entries: seq<Slot>, from: nat := 0): (i: nat)
    requires from <= |entries|
    ensures from <= i <= |entries|
    ensures forall j :: from <= j < i ==> entries[j].Some?
    ensures i < |entries| ==> entries[i].None?
    decreases |entries| - from
  {
    if from == |entries| || entries[from].None? then from else FindFree(entries, from + 1)
  }

  predicate IsOldest(entries: seq<Slot>, i: nat)
    requires Full(entries)
  {
    IsOldestOf(entries, i, |entries|)
  }

  /** Slot i is the first of the entries seen longest ago among the first n. */
  predicate IsOldestOf(entries: seq<Slot>, i: nat, n: nat)
    requires Full(entries) && n <= |entries|
  {
    && i < n
    && (forall j :: 0 <= j < n ==> entries[i].value.lastSeen <= entries[j].value.lastSeen)
    && (forall j :: 0 <= j < i ==> entries[i].value.lastSeen < entries[j].value.lastSeen)
  }

  function OldestOf(entries: seq<Slot>, n: nat): (i: nat)
    requires Full(entries) && 0 < n <= |entries|
    ensures IsOldestOf(entries, i, n)
  {
    if n == 1 then 0 else
    var i := OldestOf(entries, n - 1);
    if entries[n - 1].value.lastSeen < entries[i].value.lastSeen then n - 1 else i
  }

  function NewEntry(r: Report): Entry {
    Entry(r.address, None, r.rssi, 1, r.rssi, r.now, r.metadata.name, r.metadata.manufacturer, r.metadata.beacon)
  }

  function UpdateEntry(e: Entry, r: Report): Entry {
    e.(rssiSum := SaturatingAddI32(e.rssiSum, r.rssi),
       reports := SaturatingAddU32(e.reports, 1),
       peak := Max(e.peak, r.rssi),
       lastSeen := r.now,
       name := if r.metadata.name.Some? then r.metadata.name else e.name,
       manufacturer := if r.metadata.manufacturer.Some? then r.metadata.manufacturer else e.manufacturer,
       beacon := e.beacon.Merge(r.metadata.beacon))
  }

  /** Whether the report pushes another device out: it is unknown and every slot is taken. */
  predicate Evicts(entries: seq<Slot>, r: Report) {
    !Present(entries, r.address) && Full(entries)
  }

  function RecordSlot(entries: seq<Slot>, r: Report): (i: nat)
    requires entries != []
    ensures i < |entries|
  {
    var known := FindAddress(entries, r.address);
    if known < |entries| then known else
    var free := FindFree(entries);
    if free < |entries| then free else OldestOf(entries, |entries|)
  }

  function RecordEntry(slot: Slot, r: Report): Entry {
    if Holds(slot, r.address) then UpdateEntry(slot.value, r) else NewEntry(r)
  }

  function RecordStep(s: Registry, r: Report): Registry
    requires s.entries != []
  {
    var i := RecordSlot(s.entries, r);
    s.(entries := s.entries[i := Some(RecordEntry(s.entries[i], r))],
       windowReports := WrappingAddU32(s.windowReports, 1),
       evictions := if Evicts(s.entries, r) then WrappingAddU32(s.evictions, 1) else s.evictions)
  }

  /* ---------- one snapshot ---------- */

  predicate Stale(now: u64, lastSeen: u64) {
    SaturatingSubU64(now, lastSeen) > DEVICE_STALE_AFTER_MS
  }

  function KeepFresh(slot: Slot, now: u64): Slot {
    if slot.Some? && Stale(now, slot.value.lastSeen) then None else slot
  }

  function RemoveStale(entries: seq<Slot>, now: u64): (kept: seq<Slot>)
    ensures |kept| == |entries|
    ensures forall i :: 0 <= i < |entries| ==> kept[i] == KeepFresh(entries[i], now)
  {
    seq(|entries|, i requires 0 <= i < |entries| => KeepFresh(entries[i], now))
  }

  function CloseEntry(slot: Slot): Slot {
    match slot
    case None => None
    case Some(e) =>
      var average := e.WindowAverage();
      Some(e.(previousAverage := if average.Some? then average else e.previousAverage,
              rssiSum := 0, reports := 0, peak := -128))
  }

  function CloseWindow(entries: seq<Slot>): (closed: seq<Slot>)
    ensures |closed| == |entries|
    ensures forall i :: 0 <= i < |entries| ==> closed[i] == CloseEntry(entries[i])
  {
    seq(|entries|, i requires 0 <= i < |entries| => CloseEntry(entries[i]))
  }

  /** The active entries, in slot order. */
  function Actives(slots: seq<Slot>): (r: seq<Entry>)
    ensures forall i :: 0 <= i < |r| ==> r[i].Active()
  {
    if slots == [] then [] else
    var first := slots[0];
    (if first.Some? && first.value.Active() then [first.value] else []) + Actives(slots[1..])
  }

  function SlotAverage(slot: Slot): Option<i16> {
    if slot.None? then None else slot.value.WindowAverage()
  }

  /** `None` sorts below every average. */
  predicate AtLeast(left: Option<i16>, right: Option<i16>) {
    right.None? || (left.Some? && right.value <= left.value)
  }

  predicate Descending(slots: seq<Slot>) {
    forall i, j :: 0 <= i < j < |slots| ==> AtLeast(SlotAverage(slots[i]), SlotAverage(slots[j]))
  }

  /** The snapshot sort is unstable: any descending arrangement of the slots may come out. */
  ghost predicate IsSnapshotOrder(slots: seq<Slot>, order: seq<Slot>) {
    multiset(slots) == multiset(order) && Descending(order)
  }

  function FromEntry(e: Entry): DisplayedDevice {
    DisplayedDevice(e.address, e.Strength(), e.lastSeen, e.name, e.manufacturer, e.beacon)
  }

  /** The first forty-eight active entries, and empty places after them. */
  function Remember(order: seq<Slot>): (r: seq<Option<DisplayedDevice>>)
    ensures |r| == REMEMBERED_DEVICE_CAPACITY
    ensures forall i :: 0 <= i < |r| ==> r[i] == RememberedAt(Actives(order), i)
  {
    seq(REMEMBERED_DEVICE_CAPACITY, i requires 0 <= i => RememberedAt(Actives(order), i))
  }

  function RememberedAt(active: seq<Entry>, i: nat): Option<DisplayedDevice> {
    if i < |active| then Some(FromEntry(active[i])) else None
  }

  function SnapshotStep(s: Registry, now: u64, order: seq<Slot>): Registry {
    Registry(CloseWindow(RemoveStale(s.entries, now)), Remember(order), 0, 0, 0)
  }

  function MalformedStep(s: Registry): Registry {
    s.(malformedReports := WrappingAddU32(s.malformedReports, 1))
  }

  /* ---------- lost devices ---------- */

  predicate HeardFrom(slots: seq<Slot>, address: Address) {
    exists i :: 0 <= i < |slots| && Holds(slots[i], address) && slots[i].value.Active()
  }

  /** The remembered devices without an active entry, strongest first. */
  function Lost(remembered: seq<Option<DisplayedDevice>>, slots: seq<Slot>): seq<DisplayedDevice> {
    if remembered == [] then [] else
    var first := remembered[0];
    (if first.Some? && !HeardFrom(slots, first.value.address) then [first.value] else []) + Lost(remembered[1..], slots)
  }

  predicate Remembers(remembered: seq<Option<DisplayedDevice>>, address: Address) {
    exists i :: 0 <= i < |remembered| && remembered[i].Some? && remembered[i].value.address == address
  }

  predicate Announces(devices: seq<DisplayedDevice>, address: Address) {
    exists i :: 0 <= i < |devices| && devices[i].address == address
  }
}
