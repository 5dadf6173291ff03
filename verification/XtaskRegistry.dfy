// The firmware registry that repository automation builds from package metadata.
module XtaskRegistry {
  import opened Wrappers
  import opened Permutations

  datatype BoardMetadata = BoardMetadata(id: string, target: string, runner: seq<string>)

  datatype FirmwareMetadata = FirmwareMetadata(board: string, variant: string)

  /** A metadata table of a package: not there, not of the expected shape, or read. */
  datatype Table<+T> = Absent | Malformed | Read(value: T)

  datatype Namespace = Namespace(
    hostCheck: Option<bool>, board: Table<BoardMetadata>, firmware: Table<FirmwareMetadata>)

  datatype Package = Package(name: string, namespace: Option<Namespace>)

  datatype Board = Board(package: string, metadata: BoardMetadata)

  datatype Firmware = Firmware(package: string, board: string, variant: string, selector: string)

  datatype Declared = Declared(package: string, metadata: FirmwareMetadata)

  datatype Registry = Registry(boards: map<string, Board>, firmware: seq<Firmware>, hostExclusions: set<string>)

  datatype Error =
    | InvalidMetadata(package: string)
    | InvalidBoard(package: string)
    | DuplicateBoard(id: string, existing: string, package: string)
    | UnknownBoard(package: string, board: string)
    | InvalidVariant(package: string, variant: string)
    | DuplicateSelector(selector: string, existing: string, package: string)

  /* ---------- one package ---------- */

  predicate IsWhitespace(c: char) {
    c == ' ' || '\t' <= c <= '\r' || c == '\U{85}' || c == '\U{A0}' || c == '\U{1680}' || '\U{2000}' <= c <= '\U{200A}'
    || c == '\U{2028}' || c == '\U{2029}' || c == '\U{202F}' || c == '\U{205F}' || c == '\U{3000}'
  }

  /** The code points with the Unicode property White_Space. */
  const WHITE_SPACE := "\t\n\U{B}\U{C}\r \U{85}\U{A0}\U{1680}\U{2000}\U{2001}\U{2002}\U{2003}\U{2004}\U{2005}"
    + "\U{2006}\U{2007}\U{2008}\U{2009}\U{200A}\U{2028}\U{2029}\U{202F}\U{205F}\U{3000}"

  lemma WhitespaceIsListed(c: char)
    ensures IsWhitespace(c) <==> c in WHITE_SPACE
  {
  }

  predicate PartAccepted(part: string) {
    part != "" && '/' !in part
  }

  predicate BoardAccepted(m: BoardMetadata) {
    && PartAccepted(m.id)
    && m.target != ""
    && m.runner != []
    && (forall i :: 0 <= i < |m.runner| ==> m.runner[i] != "" && forall c :: c in m.runner[i] ==> c !in WHITE_SPACE)
  }

  function Selector(board: string, variant: string): string {
    if variant == "default" then board else board + "/" + variant
  }

  predicate TablesRead(p: Package) {
    p.namespace.Some? ==> !p.namespace.value.board.Malformed? && !p.namespace.value.firmware.Malformed?
  }

  predicate TablesAccepted(p: Package) {
    && TablesRead(p)
    && (p.namespace.Some? && p.namespace.value.board.Read? ==> BoardAccepted(p.namespace.value.board.value))
  }

  function BoardsOf(p: Package): seq<Board> {
    if p.namespace.Some? && p.namespace.value.board.Read? then [Board(p.name, p.namespace.value.board.value)] else []
  }

  function IdsOf(p: Package): seq<string> {
    if p.namespace.Some? && p.namespace.value.board.Read? then [p.namespace.value.board.value.id] else []
  }

  function DeclaredOf(p: Package): seq<Declared> {
    if p.namespace.Some? && p.namespace.value.firmware.Read? then [Declared(p.name, p.namespace.value.firmware.value)]
    else []
  }

  /** A declared firmware with its selector. */
  function Resolved(d: Declared): Firmware {
    Firmware(d.package, d.metadata.board, d.metadata.variant, Selector(d.metadata.board, d.metadata.variant))
  }

  function FirmwareOf(p: Package): seq<Firmware> {
    if p.namespace.Some? && p.namespace.value.firmware.Read? then
      [Resolved(Declared(p.name, p.namespace.value.firmware.value))]
    else []
  }

  function SelectorsOf(p: Package): seq<string> {
    if p.namespace.Some? && p.namespace.value.firmware.Read? then
      [Resolved(Declared(p.name, p.namespace.value.firmware.value)).selector]
    else []
  }

  function ExclusionsOf(p: Package): seq<string> {
    if p.namespace.Some? && (p.namespace.value.hostCheck == Some(false) || p.namespace.value.firmware.Read?) then [p.name]
    else []
  }

  /* ---------- all packages ---------- */

  /** The packages make a registry: whatever their order. */
  ghost predicate Acceptable(packages: seq<Package>) {
    && (forall i :: 0 <= i < |packages| ==> TablesAccepted(packages[i]))
    && NoRepeats(FlatMap(packages, IdsOf))
    && (forall f :: f in FlatMap(packages, FirmwareOf) ==> f.board in FlatMap(packages, IdsOf) && PartAccepted(f.variant))
    && NoRepeats(FlatMap(packages, SelectorsOf))
  }

  predicate SortedBySelector(firmware: seq<Firmware>) {
    forall i, j :: 0 <= i < j < |firmware| ==> Less(firmware[i].selector, firmware[j].selector)
  }

  ghost predicate MapsIds(boards: map<string, Board>, packages: seq<Package>) {
    && (forall id :: id in boards <==> id in FlatMap(packages, IdsOf))
    && (forall b :: b in FlatMap(packages, BoardsOf) ==> b.metadata.id in boards && boards[b.metadata.id] == b)
  }

  /** What the registry of the packages holds. */
  ghost predicate IsRegistryOf(r: Registry, packages: seq<Package>) {
    && MapsIds(r.boards, packages)
    && multiset(r.firmware) == multiset(FlatMap(packages, FirmwareOf))
    && SortedBySelector(r.firmware)
    && (forall name :: name in r.hostExclusions <==> name in FlatMap(packages, ExclusionsOf))
  }

  /** The package declares that firmware. */
  predicate Provides(p: Package, f: Firmware) {
    && p.namespace.Some? && p.namespace.value.firmware == Read(FirmwareMetadata(f.board, f.variant))
    && f.package == p.name
    && f.selector == if f.variant == "default" then f.board else f.board + "/" + f.variant
  }

  predicate ProvidesBoard(p: Package, b: Board) {
    p.namespace.Some? && p.namespace.value.board == Read(b.metadata) && b.package == p.name
  }

  predicate Excluded(p: Package) {
    p.namespace.Some? && (p.namespace.value.hostCheck == Some(false) || p.namespace.value.firmware.Read?)
  }

  /** Everything in the registry comes from a package, and everything a package declares is in it. */
  ghost predicate ListsAll(r: Registry, packages: seq<Package>) {
    && (forall f :: f in r.firmware <==> exists p :: p in packages && Provides(p, f))
    && (forall id :: id in r.boards ==> r.boards[id].metadata.id == id && exists p :: p in packages && ProvidesBoard(p, r.boards[id]))
    && (forall p, b :: p in packages && ProvidesBoard(p, b) ==> b.metadata.id in r.boards && r.boards[b.metadata.id] == b)
    && (forall name :: name in r.hostExclusions <==> exists p :: p in packages && Excluded(p) && p.name == name)
  }

  /** The error names packages that really are at fault. */
  ghost predicate Explains(packages: seq<Package>, e: Error) {
    match e
    case InvalidMetadata(package) => exists p :: p in packages && p.name == package && !TablesRead(p)
    case InvalidBoard(package) =>
      exists p :: p in packages && p.name == package && p.namespace.Some? && p.namespace.value.board.Read? &&
        !BoardAccepted(p.namespace.value.board.value)
    case DuplicateBoard(id, existing, package) =>
      exists i, j :: 0 <= i < j < |packages| && packages[i].name == existing && packages[j].name == package &&
        id in IdsOf(packages[i]) && id in IdsOf(packages[j])
    case UnknownBoard(package, board) =>
      board !in FlatMap(packages, IdsOf) &&
      exists f :: f in FlatMap(packages, FirmwareOf) && f.package == package && f.board == board
    case InvalidVariant(package, variant) =>
      exists f :: f in FlatMap(packages, FirmwareOf) && f.package == package && f.variant == variant && !PartAccepted(variant)
    case DuplicateSelector(selector, existing, package) =>
      exists i, j :: 0 <= i < j < |FlatMap(packages, FirmwareOf)| &&
        FlatMap(packages, FirmwareOf)[i].package == existing && FlatMap(packages, FirmwareOf)[j].package == package &&
        FlatMap(packages, FirmwareOf)[i].selector == selector && FlatMap(packages, FirmwareOf)[j].selector == selector
  }

  /** The same packages' boards and ids, and their declared firmware, firmware and selectors, line up. */
  lemma {:induction false} ContributionsAlign(packages: seq<Package>)
    ensures var ids, boards := FlatMap(packages, IdsOf), FlatMap(packages, BoardsOf);
      |ids| == |boards| && forall i :: 0 <= i < |ids| ==> ids[i] == boards[i].metadata.id
    ensures var declared, firmware, selectors :=
        FlatMap(packages, DeclaredOf), FlatMap(packages, FirmwareOf), FlatMap(packages, SelectorsOf);
      |declared| == |firmware| == |selectors| &&
      forall i :: 0 <= i < |declared| ==> firmware[i] == Resolved(declared[i]) && selectors[i] == firmware[i].selector
  {
    if packages != [] {
      ContributionsAlign(packages[..|packages| - 1]);
    }
  }

  /* ---------- building the registry ---------- */

  datatype Collected = Collected(boards: map<string, Board>, declared: seq<Declared>, hostExclusions: set<string>)

  ghost predicate IsCollected(c: Collected, packages: seq<Package>) {
    && (forall i :: 0 <= i < |packages| ==> TablesAccepted(packages[i]))
    && NoRepeats(FlatMap(packages, IdsOf))
    && MapsIds(c.boards, packages)
    && c.declared == FlatMap(packages, DeclaredOf)
    && (forall name :: name in c.hostExclusions <==> name in FlatMap(packages, ExclusionsOf))
  }

  /** A board's id, target and runner are checked one after the other. */
  method ValidateBoardMetadata(m: BoardMetadata) returns (valid: bool)
    ensures valid <==> BoardAccepted(m)
  {
    if m.id == "" || '/' in m.id || m.target == "" || m.runner == [] {
      return false;
    }
    for i := 0 to |m.runner|
      invariant forall k :: 0 <= k < i ==> m.runner[k] != "" && forall c :: c in m.runner[k] ==> c !in WHITE_SPACE
    {
      if m.runner[i] == "" {
        return false;
      }
      for j := 0 to |m.runner[i]|
        invariant forall k :: 0 <= k < j ==> m.runner[i][k] !in WHITE_SPACE
      {
        WhitespaceIsListed(m.runner[i][j]);
        if IsWhitespace(m.runner[i][j]) {
          return false;
        }
      }
    }
    valid := true;
  }

  /** The first phase: every package contributes its board, its declared firmware and its exclusion. */
  method Collect(packages: seq<Package>) returns (r: Result<Collected, Error>)
    ensures r.Ok? ==> IsCollected(r.value, packages)
    ensures r.Err? ==> !Acceptable(packages) && Explains(packages, r.error)
  {
    var c := Collected(map[], [], {});
    for i := 0 to |packages|
      invariant IsCollected(c, packages[..i])
    {
      var package := packages[i];
      CollectOne(c, packages, i);
      ghost var before := c;
      if package.namespace.None? {
        continue;
      }
      var namespace := package.namespace.value;
      var exclusions := c.hostExclusions;
      if namespace.hostCheck == Some(false) {
        exclusions := exclusions + {package.name};
      }
      var boards := c.boards;
      if namespace.board.Malformed? {
        return Err(InvalidMetadata(package.name));
      }
      if namespace.board.Read? {
        var metadata := namespace.board.value;
        var valid := ValidateBoardMetadata(metadata);
        if !valid {
          return Err(InvalidBoard(package.name));
        }
        if metadata.id in boards {
          RepeatedBoard(c, packages, i);
          return Err(DuplicateBoard(metadata.id, boards[metadata.id].package, package.name));
        }
        boards := boards[metadata.id := Board(package.name, metadata)];
      }
      var declared := c.declared;
      if namespace.firmware.Malformed? {
        return Err(InvalidMetadata(package.name));
      }
      if namespace.firmware.Read? {
        declared := declared + [Declared(package.name, namespace.firmware.value)];
        exclusions := exclusions + {package.name};
      }
      c := Collected(boards, declared, exclusions);
      assert c == Collected(AddBoard(before.boards, package), before.declared + DeclaredOf(package),
                            AddExclusion(before.hostExclusions, package));
    }
    assert packages[..|packages|] == packages;
    r := Ok(c);
  }

  function AddBoard(boards: map<string, Board>, p: Package): map<string, Board> {
    if BoardsOf(p) == [] then boards else boards[BoardsOf(p)[0].metadata.id := BoardsOf(p)[0]]
  }

  function AddExclusion(exclusions: set<string>, p: Package): set<string> {
    if ExclusionsOf(p) == [] then exclusions else exclusions + {p.name}
  }

  predicate NewIds(boards: map<string, Board>, p: Package) {
    forall id :: id in IdsOf(p) ==> id !in boards
  }

  /** What one more package adds to what was collected. */
  lemma CollectOne(c: Collected, packages: seq<Package>, i: nat)
    requires i < |packages| && IsCollected(c, packages[..i])
    ensures var p := packages[i];
      TablesAccepted(p) && NewIds(c.boards, p) ==>
      IsCollected(Collected(AddBoard(c.boards, p), c.declared + DeclaredOf(p), AddExclusion(c.hostExclusions, p)),
                  packages[..i + 1])
  {
    if TablesAccepted(packages[i]) && NewIds(c.boards, packages[i]) {
      FlatMapSnoc(packages, i, DeclaredOf);
      AddExclusionIsUnion(c.hostExclusions, packages, i);
      AddBoardMaps(c.boards, packages, i);
      var more := packages[..i + 1];
      forall k | 0 <= k < |more|
        ensures TablesAccepted(more[k])
      {
        assert k < i ==> more[k] == packages[..i][k];
      }
    }
  }

  lemma AddExclusionIsUnion(exclusions: set<string>, packages: seq<Package>, i: nat)
    requires i < |packages|
    requires forall name :: name in exclusions <==> name in FlatMap(packages[..i], ExclusionsOf)
    ensures forall name :: name in AddExclusion(exclusions, packages[i]) <==> name in FlatMap(packages[..i + 1], ExclusionsOf)
  {
    FlatMapSnoc(packages, i, ExclusionsOf);
  }

  lemma AddBoardMaps(boards: map<string, Board>, packages: seq<Package>, i: nat)
    requires i < |packages| && MapsIds(boards, packages[..i]) && NewIds(boards, packages[i])
    requires NoRepeats(FlatMap(packages[..i], IdsOf))
    ensures MapsIds(AddBoard(boards, packages[i]), packages[..i + 1])
    ensures NoRepeats(FlatMap(packages[..i + 1], IdsOf))
  {
    FlatMapSnoc(packages, i, IdsOf);
    FlatMapSnoc(packages, i, BoardsOf);
    if BoardsOf(packages[i]) != [] {
      assert IdsOf(packages[i])[0] in IdsOf(packages[i]);
    }
  }

  /** An id that was collected already belongs to an earlier package, so the packages repeat it. */
  lemma RepeatedBoard(c: Collected, packages: seq<Package>, i: nat)
    requires i < |packages| && IsCollected(c, packages[..i])
    requires IdsOf(packages[i]) != [] && IdsOf(packages[i])[0] in c.boards
    ensures !Acceptable(packages)
    ensures var id := IdsOf(packages[i])[0]; Explains(packages, DuplicateBoard(id, c.boards[id].package, packages[i].name))
  {
    var id := IdsOf(packages[i])[0];
    FlatMapMembers(packages[..i], IdsOf, id);
    var j :| 0 <= j < i && id in IdsOf(packages[..i][j]);
    assert packages[j] == packages[..i][j];
    FlatMapMembers(packages[..i], BoardsOf, BoardsOf(packages[j])[0]);
    assert BoardsOf(packages[..i][j])[0] in FlatMap(packages[..i], BoardsOf);
    FlatMapSnoc(packages, i, IdsOf);
    FlatMapPrefix(packages, i + 1, IdsOf);
    var ids := FlatMap(packages[..i], IdsOf);
    var k :| 0 <= k < |ids| && ids[k] == id;
    assert FlatMap(packages, IdsOf)[k] == id && FlatMap(packages, IdsOf)[|ids|] == id;
  }

  predicate CanResolve(boards: map<string, Board>, d: Declared) {
    d.metadata.board in boards && PartAccepted(d.metadata.variant)
  }

  predicate DistinctSelectors(firmware: seq<Firmware>) {
    forall i, j :: 0 <= i < j < |firmware| ==> firmware[i].selector != firmware[j].selector
  }

  /** The complaints of the second phase about the i-th declaration. */
  predicate FaultAt(boards: map<string, Board>, declared: seq<Declared>, i: nat, e: Error)
    requires i < |declared|
  {
    match e
    case UnknownBoard(package, board) =>
      board !in boards && declared[i].package == package && declared[i].metadata.board == board
    case InvalidVariant(package, variant) =>
      !PartAccepted(variant) && declared[i].package == package && declared[i].metadata.variant == variant
    case DuplicateSelector(selector, existing, package) =>
      declared[i].package == package && Resolved(declared[i]).selector == selector &&
      exists k :: 0 <= k < i && declared[k].package == existing && Resolved(declared[k]).selector == selector
    case _ => false
  }

  predicate ResolvedUpTo(boards: map<string, Board>, declared: seq<Declared>, firmware: seq<Firmware>, n: nat)
    requires n <= |declared|
  {
    |firmware| == n && forall k :: 0 <= k < n ==> firmware[k] == Resolved(declared[k]) && CanResolve(boards, declared[k])
  }

  /** The selectors map names, for each selector so far, the package that declared it. */
  predicate NamesPackages(selectors: map<string, string>, firmware: seq<Firmware>) {
    && (forall k :: 0 <= k < |firmware| ==> firmware[k].selector in selectors)
    && (forall s :: s in selectors ==> exists k :: 0 <= k < |firmware| && firmware[k].selector == s && firmware[k].package == selectors[s])
  }

  lemma NamesNext(selectors: map<string, string>, firmware: seq<Firmware>, f: Firmware)
    requires NamesPackages(selectors, firmware) && DistinctSelectors(firmware) && f.selector !in selectors
    ensures NamesPackages(selectors[f.selector := f.package], firmware + [f]) && DistinctSelectors(firmware + [f])
  {
    var more := firmware + [f];
    assert more[|firmware|] == f;
    forall s | s in selectors
      ensures exists k :: 0 <= k < |more| && more[k].selector == s && more[k].package == selectors[s]
    {
      var k :| 0 <= k < |firmware| && firmware[k].selector == s && firmware[k].package == selectors[s];
      assert more[k] == firmware[k];
    }
  }

  /** The second phase: every declared firmware is resolved against all boards. */
  method ResolveFirmware(boards: map<string, Board>, declared: seq<Declared>) returns (r: Result<seq<Firmware>, Error>)
    ensures r.Ok? ==> ResolvedUpTo(boards, declared, r.value, |declared|) && DistinctSelectors(r.value)
    ensures r.Err? ==> exists i :: 0 <= i < |declared| && FaultAt(boards, declared, i, r.error)
  {
    var firmware: seq<Firmware> := [];
    var selectors: map<string, string> := map[];
    for i := 0 to |declared|
      invariant ResolvedUpTo(boards, declared, firmware, i)
      invariant DistinctSelectors(firmware) && NamesPackages(selectors, firmware)
    {
      var d := declared[i];
      if d.metadata.board !in boards {
        r := Err(UnknownBoard(d.package, d.metadata.board));
        assert FaultAt(boards, declared, i, r.error);
        return;
      }
      if d.metadata.variant == "" || '/' in d.metadata.variant {
        r := Err(InvalidVariant(d.package, d.metadata.variant));
        assert FaultAt(boards, declared, i, r.error);
        return;
      }
      var selector := Selector(d.metadata.board, d.metadata.variant);
      if selector in selectors {
        r := Err(DuplicateSelector(selector, selectors[selector], d.package));
        assert FaultAt(boards, declared, i, r.error);
        return;
      }
      var f := Firmware(d.package, d.metadata.board, d.metadata.variant, selector);
      NamesNext(selectors, firmware, f);
      selectors := selectors[selector := d.package];
      firmware := firmware + [f];
    }
    r := Ok(firmware);
  }

  /** A fault in a declaration is a fault of the packages, and the error names them. */
  lemma FaultsOfPackages(c: Collected, packages: seq<Package>, i: nat, e: Error)
    requires IsCollected(c, packages) && i < |c.declared| && FaultAt(c.boards, c.declared, i, e)
    ensures !Acceptable(packages) && Explains(packages, e)
  {
    ContributionsAlign(packages);
    var firmware, selectors := FlatMap(packages, FirmwareOf), FlatMap(packages, SelectorsOf);
    assert firmware[i] == Resolved(c.declared[i]) && firmware[i] in firmware;
    if e.DuplicateSelector? {
      var k :| 0 <= k < i && c.declared[k].package == e.existing && Resolved(c.declared[k]).selector == e.selector;
      assert firmware[k] == Resolved(c.declared[k]);
      assert selectors[k] == selectors[i];
    }
  }

  lemma ResolutionAccepts(c: Collected, packages: seq<Package>, firmware: seq<Firmware>)
    requires IsCollected(c, packages) && ResolvedUpTo(c.boards, c.declared, firmware, |c.declared|) && DistinctSelectors(firmware)
    ensures Acceptable(packages) && firmware == FlatMap(packages, FirmwareOf)
  {
    ContributionsAlign(packages);
    assert firmware == FlatMap(packages, FirmwareOf);
    assert forall f :: f in firmware ==> f.board in c.boards && PartAccepted(f.variant);
    assert NoRepeats(FlatMap(packages, SelectorsOf));
  }

  method FromPackages(packages: seq<Package>) returns (r: Result<Registry, Error>)
    ensures r.Ok? <==> Acceptable(packages)
    ensures r.Ok? ==> IsRegistryOf(r.value, packages) && ListsAll(r.value, packages)
    ensures r.Ok? ==> forall f :: f in r.value.firmware ==>
      f.selector == if f.variant == "default" then f.board else f.board + "/" + f.variant
    ensures r.Err? ==> Explains(packages, r.error)
  {
    var collected := Collect(packages);
    if collected.Err? {
      return Err(collected.error);
    }
    var resolved := ResolveFirmware(collected.value.boards, collected.value.declared);
    if resolved.Err? {
      ghost var i :| 0 <= i < |collected.value.declared| &&
        FaultAt(collected.value.boards, collected.value.declared, i, resolved.error);
      FaultsOfPackages(collected.value, packages, i, resolved.error);
      return Err(resolved.error);
    }
    ResolutionAccepts(collected.value, packages, resolved.value);
    SortedOrders(resolved.value);
    RegistryListsAll(Registry(collected.value.boards, Sorted(resolved.value, SelectorUpTo), collected.value.hostExclusions),
                     packages);
    r := Ok(Registry(collected.value.boards, Sorted(resolved.value, SelectorUpTo), collected.value.hostExclusions));
  }

  /* ---------- the registry against the packages one by one ---------- */

  lemma ListsFirmware(packages: seq<Package>, f: Firmware)
    ensures f in FlatMap(packages, FirmwareOf) <==> exists p :: p in packages && Provides(p, f)
  {
    FlatMapMembers(packages, FirmwareOf, f);
    if i :| 0 <= i < |packages| && f in FirmwareOf(packages[i]) {
      assert packages[i] in packages && Provides(packages[i], f);
    }
    if p :| p in packages && Provides(p, f) {
      var i :| 0 <= i < |packages| && packages[i] == p;
      assert f in FirmwareOf(packages[i]);
    }
  }

  lemma ListsBoard(packages: seq<Package>, b: Board)
    ensures b in FlatMap(packages, BoardsOf) <==> exists p :: p in packages && ProvidesBoard(p, b)
  {
    FlatMapMembers(packages, BoardsOf, b);
    if i :| 0 <= i < |packages| && b in BoardsOf(packages[i]) {
      assert packages[i] in packages && ProvidesBoard(packages[i], b);
    }
    if p :| p in packages && ProvidesBoard(p, b) {
      var i :| 0 <= i < |packages| && packages[i] == p;
      assert b in BoardsOf(packages[i]);
    }
  }

  lemma ListsExclusion(packages: seq<Package>, name: string)
    ensures name in FlatMap(packages, ExclusionsOf) <==> exists p :: p in packages && Excluded(p) && p.name == name
  {
    FlatMapMembers(packages, ExclusionsOf, name);
    if i :| 0 <= i < |packages| && name in ExclusionsOf(packages[i]) {
      assert packages[i] in packages && Excluded(packages[i]);
    }
    if p :| p in packages && Excluded(p) && p.name == name {
      var i :| 0 <= i < |packages| && packages[i] == p;
      assert name in ExclusionsOf(packages[i]);
    }
  }

  lemma RegistryListsAll(r: Registry, packages: seq<Package>)
    requires IsRegistryOf(r, packages)
    ensures ListsAll(r, packages)
  {
    SameMembers(r.firmware, FlatMap(packages, FirmwareOf));
    forall f
      ensures f in r.firmware <==> exists p :: p in packages && Provides(p, f)
    {
      ListsFirmware(packages, f);
    }
    forall p, b | p in packages && ProvidesBoard(p, b)
      ensures b.metadata.id in r.boards && r.boards[b.metadata.id] == b
    {
      ListsBoard(packages, b);
    }
    forall id | id in r.boards
      ensures r.boards[id].metadata.id == id && exists p :: p in packages && ProvidesBoard(p, r.boards[id])
    {
      DeclaredBoard(packages, id);
      ListsBoard(packages, r.boards[id]);
    }
    forall name
      ensures name in r.hostExclusions <==> exists p :: p in packages && Excluded(p) && p.name == name
    {
      ListsExclusion(packages, name);
    }
  }

  /* ---------- the final sort ---------- */

  predicate SelectorUpTo(a: Firmware, b: Firmware) {
    !Less(b.selector, a.selector)
  }

  lemma SelectorsCompare()
    ensures IsOrder(SelectorUpTo)
  {
    forall x: Firmware, y: Firmware, z: Firmware
      ensures SelectorUpTo(x, y) || SelectorUpTo(y, x)
      ensures SelectorUpTo(x, y) && SelectorUpTo(y, z) ==> SelectorUpTo(x, z)
    {
      UpToCompares(x.selector, y.selector, z.selector);
    }
  }

  lemma UpToCompares(a: string, b: string, c: string)
    ensures !Less(a, b) || !Less(b, a)
    ensures !Less(b, a) && !Less(c, b) ==> !Less(c, a)
  {
    LessIsStrict(a);
    if Less(a, b) && Less(b, a) {
      LessIsTransitive(a, b, a);
    }
    LessIsTotal(b, c);
    if Less(c, a) && Less(b, c) {
      LessIsTransitive(b, c, a);
    }
  }

  lemma SortedOrders(firmware: seq<Firmware>)
    requires DistinctSelectors(firmware)
    ensures var sorted := Sorted(firmware, SelectorUpTo);
      SortedBySelector(sorted) && multiset(sorted) == multiset(firmware)
  {
    var sorted := Sorted(firmware, SelectorUpTo);
    SelectorsCompare();
    SortedIsInOrder(firmware, SelectorUpTo);
    NoRepeatsPermutes(firmware, sorted);
    forall i, j | 0 <= i < j < |sorted|
      ensures Less(sorted[i].selector, sorted[j].selector)
    {
      assert sorted[i] in multiset(firmware) && sorted[j] in multiset(firmware);
      assert SelectorUpTo(sorted[i], sorted[j]);
      LessIsTotal(sorted[i].selector, sorted[j].selector);
    }
  }

  predicate AllAfter(firmware: seq<Firmware>, selector: string) {
    forall f :: f in firmware ==> Less(selector, f.selector)
  }

  lemma SortedCons(f: Firmware, sorted: seq<Firmware>)
    ensures SortedBySelector([f] + sorted) <==> AllAfter(sorted, f.selector) && SortedBySelector(sorted)
  {
    var all := [f] + sorted;
    assert forall i :: 0 <= i < |sorted| ==> all[i + 1] == sorted[i];
    if SortedBySelector(all) {
      forall g | g in sorted
        ensures Less(f.selector, g.selector)
      {
        var i :| 0 <= i < |sorted| && sorted[i] == g;
        assert all[0] == f && all[i + 1] == g;
      }
    }
  }

  /** Sorted lists of the same firmware are the same list. */
  lemma {:induction false} SortedIsUnique(a: seq<Firmware>, b: seq<Firmware>)
    requires multiset(a) == multiset(b) && SortedBySelector(a) && SortedBySelector(b)
    ensures a == b
  {
    SameSize(a, b);
    if a != [] {
      assert a == [a[0]] + a[1..] && b == [b[0]] + b[1..];
      assert a[0] in multiset(b) && b[0] in multiset(a);
      if a[0] != b[0] {
        SortedCons(a[0], a[1..]);
        SortedCons(b[0], b[1..]);
        LessIsTransitive(a[0].selector, b[0].selector, a[0].selector);
        LessIsStrict(a[0].selector);
      }
      assert multiset(a[1..]) == multiset(a) - multiset{a[0]};
      assert multiset(b[1..]) == multiset(b) - multiset{b[0]};
      SortedCons(a[0], a[1..]);
      SortedCons(b[0], b[1..]);
      SortedIsUnique(a[1..], b[1..]);
    }
  }

  /* ---------- the order of the packages does not matter ---------- */

  lemma SameMembers<T>(s: seq<T>, t: seq<T>)
    requires multiset(s) == multiset(t)
    ensures forall x :: x in s <==> x in t
  {
    assert forall x :: x in s <==> x in multiset(s);
    assert forall x :: x in t <==> x in multiset(t);
  }

  lemma ContributionsPermute(packages: seq<Package>, others: seq<Package>)
    requires multiset(packages) == multiset(others)
    ensures forall x :: x in packages <==> x in others
    ensures forall x :: x in FlatMap(packages, IdsOf) <==> x in FlatMap(others, IdsOf)
    ensures forall x :: x in FlatMap(packages, BoardsOf) <==> x in FlatMap(others, BoardsOf)
    ensures forall x :: x in FlatMap(packages, ExclusionsOf) <==> x in FlatMap(others, ExclusionsOf)
    ensures forall x :: x in FlatMap(packages, FirmwareOf) <==> x in FlatMap(others, FirmwareOf)
    ensures multiset(FlatMap(packages, FirmwareOf)) == multiset(FlatMap(others, FirmwareOf))
    ensures NoRepeats(FlatMap(packages, IdsOf)) <==> NoRepeats(FlatMap(others, IdsOf))
    ensures NoRepeats(FlatMap(packages, SelectorsOf)) <==> NoRepeats(FlatMap(others, SelectorsOf))
  {
    SameMembers(packages, others);
    FlatMapPermutes(packages, others, IdsOf);
    FlatMapPermutes(packages, others, BoardsOf);
    FlatMapPermutes(packages, others, ExclusionsOf);
    FlatMapPermutes(packages, others, FirmwareOf);
    FlatMapPermutes(packages, others, SelectorsOf);
    SameMembers(FlatMap(packages, IdsOf), FlatMap(others, IdsOf));
    SameMembers(FlatMap(packages, BoardsOf), FlatMap(others, BoardsOf));
    SameMembers(FlatMap(packages, ExclusionsOf), FlatMap(others, ExclusionsOf));
    SameMembers(FlatMap(packages, FirmwareOf), FlatMap(others, FirmwareOf));
    NoRepeatsPermutes(FlatMap(packages, IdsOf), FlatMap(others, IdsOf));
    NoRepeatsPermutes(FlatMap(packages, SelectorsOf), FlatMap(others, SelectorsOf));
  }

  /** Rearranged packages are accepted alike. */
  lemma AcceptanceIsOrderIndependent(packages: seq<Package>, others: seq<Package>)
    requires multiset(packages) == multiset(others)
    ensures Acceptable(packages) <==> Acceptable(others)
  {
    if Acceptable(packages) {
      AcceptanceCarriesOver(packages, others);
    }
    if Acceptable(others) {
      AcceptanceCarriesOver(others, packages);
    }
  }

  lemma AcceptanceCarriesOver(packages: seq<Package>, others: seq<Package>)
    requires multiset(packages) == multiset(others) && Acceptable(packages)
    ensures Acceptable(others)
  {
    ContributionsPermute(packages, others);
    forall i | 0 <= i < |others|
      ensures TablesAccepted(others[i])
    {
      assert others[i] in packages;
    }
  }

  /** And they make the same registry: the same board map, the same exclusions and the identical firmware list. */
  lemma RegistryIsOrderIndependent(packages: seq<Package>, others: seq<Package>, r: Registry, s: Registry)
    requires multiset(packages) == multiset(others)
    requires IsRegistryOf(r, packages) && IsRegistryOf(s, others)
    ensures r == s
  {
    ContributionsPermute(packages, others);
    SortedIsUnique(r.firmware, s.firmware);
    SameBoards(r.boards, s.boards, packages, others);
    assert r.hostExclusions == s.hostExclusions;
  }

  lemma SameBoards(a: map<string, Board>, b: map<string, Board>, packages: seq<Package>, others: seq<Package>)
    requires MapsIds(a, packages) && MapsIds(b, others)
    requires forall x :: x in FlatMap(packages, IdsOf) <==> x in FlatMap(others, IdsOf)
    requires forall x :: x in FlatMap(packages, BoardsOf) <==> x in FlatMap(others, BoardsOf)
    ensures a == b
  {
    forall id | id in a
      ensures id in b && a[id] == b[id]
    {
      DeclaredBoard(packages, id);
    }
    assert a.Keys == b.Keys;
  }

  /** A declared id comes with the board that declares it. */
  lemma DeclaredBoard(packages: seq<Package>, id: string)
    requires id in FlatMap(packages, IdsOf)
    ensures exists b :: b in FlatMap(packages, BoardsOf) && b.metadata.id == id
  {
    ContributionsAlign(packages);
    var i :| 0 <= i < |FlatMap(packages, IdsOf)| && FlatMap(packages, IdsOf)[i] == id;
    assert FlatMap(packages, BoardsOf)[i] in FlatMap(packages, BoardsOf);
  }

  /* ---------- selectors ---------- */

  /** On accepted parts the selector determines board and variant. */
  lemma SelectorIsInjective(board: string, variant: string, board': string, variant': string)
    requires PartAccepted(board) && PartAccepted(variant) && PartAccepted(board') && PartAccepted(variant')
    requires Selector(board, variant) == Selector(board', variant')
    ensures board == board' && variant == variant'
  {
    SlashEndsBoard(board, variant);
    SlashEndsBoard(board', variant');
  }

  lemma SlashEndsBoard(board: string, variant: string)
    requires PartAccepted(board)
    ensures var s := board + "/" + variant;
      && s[|board|] == '/' && (forall i :: 0 <= i < |board| ==> s[i] != '/')
      && s[..|board|] == board && s[|board| + 1..] == variant
  {
  }

  /** So the selector check turns down exactly repeated pairs of board and variant. */
  lemma SelectorsRepeatIffPairsDo(a: Firmware, b: Firmware)
    requires PartAccepted(a.board) && PartAccepted(a.variant) && a.selector == Selector(a.board, a.variant)
    requires PartAccepted(b.board) && PartAccepted(b.variant) && b.selector == Selector(b.board, b.variant)
    ensures a.selector == b.selector <==> a.board == b.board && a.variant == b.variant
  {
    if a.selector == b.selector {
      SelectorIsInjective(a.board, a.variant, b.board, b.variant);
    }
  }

  /* ---------- looking things up ---------- */

  /** The first firmware with that selector or package. */
  function FindFirmware(firmware: seq<Firmware>, name: string): Option<Firmware> {
    if firmware == [] then None
    else if firmware[0].selector == name || firmware[0].package == name then Some(firmware[0])
    else FindFirmware(firmware[1..], name)
  }

  /** Each firmware of a built registry has its board there, under its own id. */
  lemma FirmwareHasBoard(r: Registry, packages: seq<Package>, f: Firmware)
    requires Acceptable(packages) && IsRegistryOf(r, packages) && f in r.firmware
    ensures f.board in r.boards && r.boards[f.board].metadata.id == f.board
    ensures PartAccepted(f.board) && PartAccepted(f.variant) && f.selector == Selector(f.board, f.variant)
  {
    assert f in multiset(FlatMap(packages, FirmwareOf));
    DeclaredBoard(packages, f.board);
    FlatMapMembers(packages, IdsOf, f.board);
    FlatMapMembers(packages, FirmwareOf, f);
  }

  /** In a built registry no two firmware share board and variant. */
  lemma PairsAreUnique(r: Registry, packages: seq<Package>, i: nat, j: nat)
    requires Acceptable(packages) && IsRegistryOf(r, packages) && i < j < |r.firmware|
    ensures r.firmware[i].board != r.firmware[j].board || r.firmware[i].variant != r.firmware[j].variant
  {
    FirmwareHasBoard(r, packages, r.firmware[i]);
    FirmwareHasBoard(r, packages, r.firmware[j]);
    LessIsStrict(r.firmware[i].selector);
  }

  /** A selector finds its firmware exactly when no package of that name provides an earlier one. */
  lemma {:induction false} SelectorFindsIff(firmware: seq<Firmware>, i: nat)
    requires SortedBySelector(firmware) && i < |firmware|
    ensures FindFirmware(firmware, firmware[i].selector) == Some(firmware[i]) <==>
            forall j :: 0 <= j < i ==> firmware[j].package != firmware[i].selector
  {
    LessIsStrict(firmware[i].selector);
    if i > 0 {
      var tail := firmware[1..];
      assert forall k :: 0 <= k < |tail| ==> tail[k] == firmware[k + 1];
      SelectorFindsIff(tail, i - 1);
      assert forall j :: 1 <= j < i ==> tail[j - 1] == firmware[j];
    }
  }

  /** A board's id finds its default firmware, exactly when no package of that name provides an earlier one. */
  lemma BoardIdFindsDefaultIff(r: Registry, packages: seq<Package>, i: nat)
    requires Acceptable(packages) && IsRegistryOf(r, packages)
    requires i < |r.firmware| && r.firmware[i].variant == "default"
    ensures FindFirmware(r.firmware, r.firmware[i].board) == Some(r.firmware[i]) <==>
            forall j :: 0 <= j < i ==> r.firmware[j].package != r.firmware[i].board
  {
    RegistryListsAll(r, packages);
    assert r.firmware[i] in r.firmware;
    SelectorFindsIff(r.firmware, i);
  }

  /** The firmware that a build of everything, or of one board, takes. */
  function Selected(firmware: seq<Firmware>, board: Option<string>): seq<Firmware> {
    if firmware == [] then []
    else (if board.None? || firmware[0].board == board.value then [firmware[0]] else []) + Selected(firmware[1..], board)
  }

  /** It takes exactly the registered firmware of that board, in selector order. */
  lemma {:induction false} SelectedIsExact(firmware: seq<Firmware>, board: Option<string>)
    requires SortedBySelector(firmware)
    ensures SortedBySelector(Selected(firmware, board))
    ensures forall f :: f in Selected(firmware, board) <==> f in firmware && (board.Some? ==> f.board == board.value)
  {
    if firmware != [] {
      assert firmware == [firmware[0]] + firmware[1..];
      SortedCons(firmware[0], firmware[1..]);
      SelectedIsExact(firmware[1..], board);
      SortedCons(firmware[0], Selected(firmware[1..], board));
    }
  }
}
