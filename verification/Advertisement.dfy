// What the scanner reads out of the decoded structures of one advertisement.
module Advertisement {
  import opened Wrappers
  import opened MachineInts
  import opened ScanModel
  import opened Utf8
  import Bluetooth

  /** A complete or shortened local name, sixteen-bit service data, manufacturer data, or anything else. */
  datatype AdStructure =
    | LocalNameData(name: seq<byte>)
    | ServiceData16(uuid: seq<byte>, data: seq<byte>)
    | ManufacturerSpecificData(company: u16, payload: seq<byte>)
    | Other

  function NameOf(value: seq<byte>): Option<LocalName> {
    if value == [] || |value| > LOCAL_NAME_CAPACITY || !IsUtf8(value) then None else Some(value)
  }

  /* ---------- the beacon frames ---------- */

  predicate StartsWith(s: seq<byte>, prefix: seq<byte>) {
    |prefix| <= |s| && s[..|prefix|] == prefix
  }

  function EddystoneFormat(data: seq<byte>): set<BeaconFormat> {
    if data == [] then {}
    else if data[0] == 0x00 then {EddystoneUid}
    else if data[0] == 0x10 then {EddystoneUrl}
    else if data[0] == 0x20 then {EddystoneTlm}
    else if data[0] == 0x30 then {EddystoneEid}
    else {}
  }

  predicate IsIBeacon(company: u16, payload: seq<byte>) {
    company == 0x004c && |payload| >= 23 && StartsWith(payload, [0x02, 0x15])
  }

  predicate IsAltBeacon(payload: seq<byte>) {
    |payload| >= 24 && StartsWith(payload, [0xbe, 0xac])
  }

  function FormatsOf(structure: AdStructure): set<BeaconFormat> {
    match structure
    case ServiceData16(uuid, data) => if uuid == [0xaa, 0xfe] then EddystoneFormat(data) else {}
    case ManufacturerSpecificData(company, payload) =>
      (if IsIBeacon(company, payload) then {IBeacon} else {}) + (if IsAltBeacon(payload) then {AltBeacon} else {})
    case _ => {}
  }

  predicate IsFeasycom(structure: AdStructure) {
    match structure
    case ServiceData16(uuid, data) => uuid == [0xf0, 0xff] && |data| >= 11
    case ManufacturerSpecificData(company, _) => company == 0xfff0
    case _ => false
  }

  /* ---------- what a whole advertisement says ---------- */

  /** The structure is a frame of that format. */
  predicate Shows(structure: AdStructure, format: BeaconFormat) {
    match format
    case IBeacon =>
      structure.ManufacturerSpecificData? && structure.company == 0x004c &&
      |structure.payload| >= 23 && structure.payload[0] == 0x02 && structure.payload[1] == 0x15
    case AltBeacon =>
      structure.ManufacturerSpecificData? &&
      |structure.payload| >= 24 && structure.payload[0] == 0xbe && structure.payload[1] == 0xac
    case EddystoneUid => IsEddystoneFrame(structure, 0x00)
    case EddystoneUrl => IsEddystoneFrame(structure, 0x10)
    case EddystoneTlm => IsEddystoneFrame(structure, 0x20)
    case EddystoneEid => IsEddystoneFrame(structure, 0x30)
  }

  /** The frame type is the first byte of the service data. */
  predicate IsEddystoneFrame(structure: AdStructure, frame: byte) {
    structure.ServiceData16? && structure.uuid == [0xaa, 0xfe] && [frame] <= structure.data
  }

  lemma FormatsAreShown(structure: AdStructure, format: BeaconFormat)
    ensures format in FormatsOf(structure) <==> Shows(structure, format)
  {
  }

  ghost predicate SomeHasFormat(structures: seq<AdStructure>, format: BeaconFormat) {
    exists k :: 0 <= k < |structures| && Shows(structures[k], format)
  }

  /** The bytes are a text of 1 to 29 bytes, or the name is not there. */
  ghost predicate IsNameOf(value: seq<byte>, name: Option<LocalName>) {
    name == if 1 <= |value| <= 29 && IsEncoding(value) then Some(value) else None
  }

  lemma NameIsText(value: seq<byte>)
    ensures IsNameOf(value, NameOf(value))
  {
    Utf8Iff(value);
  }

  /** The last structure with a local name decides the name, even by making it unreadable. */
  ghost predicate LastNameIs(structures: seq<AdStructure>, name: Option<LocalName>) {
    if exists k :: 0 <= k < |structures| && structures[k].LocalNameData? then
      exists k :: 0 <= k < |structures| && structures[k].LocalNameData? && IsNameOf(structures[k].name, name)
                  && forall j :: k < j < |structures| ==> !structures[j].LocalNameData?
    else name == None
  }

  ghost predicate LastManufacturerIs(structures: seq<AdStructure>, manufacturer: Option<u16>) {
    if exists k :: 0 <= k < |structures| && structures[k].ManufacturerSpecificData? then
      exists k :: 0 <= k < |structures| && structures[k].ManufacturerSpecificData?
                  && manufacturer == Some(structures[k].company)
                  && forall j :: k < j < |structures| ==> !structures[j].ManufacturerSpecificData?
    else manufacturer == None
  }

  ghost predicate Describes(structures: seq<AdStructure>, m: Metadata) {
    && LastNameIs(structures, m.name)
    && LastManufacturerIs(structures, m.manufacturer)
    && (m.beacon.feasycom <==> exists k :: 0 <= k < |structures| && IsFeasycom(structures[k]))
    && (forall format :: format in m.beacon.formats <==> SomeHasFormat(structures, format))
  }

  method Parse(structures: seq<AdStructure>) returns (m: Metadata)
    ensures Describes(structures, m)
  {
    m := Metadata(None, None, NO_BEACON);
    DescribesNothing(structures[..0]);
    for i := 0 to |structures|
      invariant Describes(structures[..i], m)
    {
      DescribesNext(structures[..i], m, structures[i]);
      m := ParseStructure(m, structures[i]);
      assert structures[..i + 1] == structures[..i] + [structures[i]];
    }
    assert structures[..|structures|] == structures;
  }

  lemma DescribesNothing(structures: seq<AdStructure>)
    requires structures == []
    ensures Describes(structures, Metadata(None, None, NO_BEACON))
  {
  }

  method ParseStructure(before: Metadata, structure: AdStructure) returns (m: Metadata)
    ensures m == Extend(before, structure)
  {
    m := before;
    match structure {
      case LocalNameData(name) =>
        m := m.(name := NameOf(name));
      case ServiceData16(uuid, data) =>
        if uuid == [0xf0, 0xff] {
          if |data| >= 11 {
            m := m.(beacon := m.beacon.(feasycom := true));
          }
        } else if uuid == [0xaa, 0xfe] {
          m := m.(beacon := m.beacon.(formats := m.beacon.formats + EddystoneFormat(data)));
        }
      case ManufacturerSpecificData(company, payload) =>
        m := m.(manufacturer := Some(company));
        if IsIBeacon(company, payload) {
          m := m.(beacon := m.beacon.(formats := m.beacon.formats + {IBeacon}));
        }
        if IsAltBeacon(payload) {
          m := m.(beacon := m.beacon.(formats := m.beacon.formats + {AltBeacon}));
        }
        if company == 0xfff0 {
          m := m.(beacon := m.beacon.(feasycom := true));
        }
      case Other =>
    }
    assert m.beacon.formats == before.beacon.formats + FormatsOf(structure);
  }

  function Extend(m: Metadata, structure: AdStructure): Metadata {
    Metadata(
      if structure.LocalNameData? then NameOf(structure.name) else m.name,
      if structure.ManufacturerSpecificData? then Some(structure.company) else m.manufacturer,
      BeaconMetadata(m.beacon.feasycom || IsFeasycom(structure), m.beacon.formats + FormatsOf(structure)))
  }

  lemma DescribesNext(structures: seq<AdStructure>, m: Metadata, structure: AdStructure)
    requires Describes(structures, m)
    ensures Describes(structures + [structure], Extend(m, structure))
  {
    NextName(structures, m.name, structure);
    NextManufacturer(structures, m.manufacturer, structure);
    NextFormats(structures, m.beacon.formats, structure);
    var more := structures + [structure];
    assert more[|structures|] == structure;
    if m.beacon.feasycom {
      var k :| 0 <= k < |structures| && IsFeasycom(structures[k]);
      assert IsFeasycom(more[k]);
    }
  }

  lemma NextName(structures: seq<AdStructure>, name: Option<LocalName>, structure: AdStructure)
    requires LastNameIs(structures, name)
    ensures LastNameIs(structures + [structure], if structure.LocalNameData? then NameOf(structure.name) else name)
  {
    var more := structures + [structure];
    assert more[|structures|] == structure;
    if structure.LocalNameData? {
      NameIsText(structure.name);
    }
    if !structure.LocalNameData? && exists k :: 0 <= k < |structures| && structures[k].LocalNameData? {
      var k :| 0 <= k < |structures| && structures[k].LocalNameData? && IsNameOf(structures[k].name, name)
               && forall j :: k < j < |structures| ==> !structures[j].LocalNameData?;
      assert more[k].LocalNameData?;
    }
  }

  lemma NextManufacturer(structures: seq<AdStructure>, manufacturer: Option<u16>, structure: AdStructure)
    requires LastManufacturerIs(structures, manufacturer)
    ensures LastManufacturerIs(structures + [structure],
              if structure.ManufacturerSpecificData? then Some(structure.company) else manufacturer)
  {
    var more := structures + [structure];
    assert more[|structures|] == structure;
    if !structure.ManufacturerSpecificData? && exists k :: 0 <= k < |structures| && structures[k].ManufacturerSpecificData? {
      var k :| 0 <= k < |structures| && structures[k].ManufacturerSpecificData? && manufacturer == Some(structures[k].company)
               && forall j :: k < j < |structures| ==> !structures[j].ManufacturerSpecificData?;
      assert more[k].ManufacturerSpecificData?;
    }
  }

  lemma NextFormats(structures: seq<AdStructure>, formats: set<BeaconFormat>, structure: AdStructure)
    requires forall format :: format in formats <==> SomeHasFormat(structures, format)
    ensures forall format :: format in formats + FormatsOf(structure) <==> SomeHasFormat(structures + [structure], format)
  {
    var more := structures + [structure];
    assert more[|structures|] == structure;
    forall format
      ensures format in formats + FormatsOf(structure) <==> SomeHasFormat(more, format)
    {
      FormatsAreShown(structure, format);
      if SomeHasFormat(structures, format) {
        var k :| 0 <= k < |structures| && Shows(structures[k], format);
        assert Shows(more[k], format);
      }
    }
  }

  /** The description leaves nothing open: it determines the metadata. */
  lemma DescriptionIsUnique(structures: seq<AdStructure>, m: Metadata, n: Metadata)
    requires Describes(structures, m) && Describes(structures, n)
    ensures m == n
  {
    forall format
      ensures format in m.beacon.formats <==> format in n.beacon.formats
    {
      assert format in m.beacon.formats <==> SomeHasFormat(structures, format);
    }
    assert m.beacon.formats == n.beacon.formats;
  }

  /** The scanner recognises every frame that the beacon firmware sends, as an iBeacon and as nothing else. */
  lemma IBeaconIsRecognised(b: Bluetooth.IBeacon)
    ensures FormatsOf(ManufacturerSpecificData(0x004c, Bluetooth.ManufacturerPayload(b))) == {IBeacon}
    ensures forall format :: Shows(ManufacturerSpecificData(0x004c, Bluetooth.ManufacturerPayload(b)), format) <==> format == IBeacon
    ensures !IsFeasycom(ManufacturerSpecificData(0x004c, Bluetooth.ManufacturerPayload(b)))
  {
    var p := Bluetooth.ManufacturerPayload(b);
    assert p[..2] == [0x02, 0x15];
    assert |p| == 23;
  }
}
