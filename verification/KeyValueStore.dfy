// The key-value layer over a log of records: keys, the record codec, tombstones and interrupted operations.
// Assumed of the storage engine below: a fetch sees the last record of its key, a store appends one record or
// none, erasing everything leaves no record, or some when it is interrupted, and reclaiming space keeps the last
// record of every key and invents none.
module KeyValueStore {
  import opened Wrappers
  import opened MachineInts

  /* ---------- keys ---------- */

  datatype Key = Key(namespace: u16, record: u16)

  /** The namespace fills the high half of the persistent form, the record the low half. */
  function ToRaw(k: Key): u32 {
    k.namespace * 0x1_0000 + k.record
  }

  function FromRaw(raw: u32): Key {
    Key(raw / 0x1_0000, raw % 0x1_0000)
  }

  /** The persistent form of keys loses and invents nothing. */
  lemma RawKeysRoundTrip(k: Key, raw: u32)
    ensures FromRaw(ToRaw(k)) == k && ToRaw(FromRaw(raw)) == raw
  {
  }

  /** Keys are ordered by namespace, then by record. */
  lemma RawKeysAreOrdered(a: Key, b: Key)
    ensures ToRaw(a) < ToRaw(b) <==> a.namespace < b.namespace || (a.namespace == b.namespace && a.record < b.record)
  {
    if a.namespace < b.namespace {
      ScaledGap(a.namespace, b.namespace, 0x1_0000);
    } else if b.namespace < a.namespace {
      ScaledGap(b.namespace, a.namespace, 0x1_0000);
    }
  }

  /* ---------- the record codec ---------- */

  type Bytes = seq<byte>

  datatype StoredValue = Live(value: Bytes) | Tombstone

  datatype SerializationError = BufferTooShort | InvalidFormat

  function Encode(v: StoredValue): Bytes {
    match v
    case Live(value) => [1] + value
    case Tombstone => [0]
  }

  function Deserialize(buffer: Bytes): Result<StoredValue, SerializationError> {
    if buffer == [0] then Ok(Tombstone)
    else if buffer != [] && buffer[0] == 1 then Ok(Live(buffer[1..]))
    else Err(InvalidFormat)
  }

  /** Values and accepted byte strings correspond one to one. */
  lemma CodecIsBijective(v: StoredValue, buffer: Bytes)
    ensures Deserialize(Encode(v)) == Ok(v)
    ensures Deserialize(buffer).Ok? ==> Encode(Deserialize(buffer).value) == buffer
    ensures Deserialize(buffer).Ok? <==> exists w :: Encode(w) == buffer
    ensures Deserialize(buffer).Ok? <==> buffer == [0] || [1] <= buffer
    ensures |Encode(v)| == if v.Live? then |v.value| + 1 else 1
    ensures v.Live? ==> Encode(v)[0] == 1 && Encode(v)[1..] == v.value
  {
    if v.Live? {
      assert Encode(v)[1..] == v.value;
    }
    if w :| Encode(w) == buffer {
      assert w.Live? ==> buffer[1..] == w.value;
    }
  }

  method SerializeInto(v: StoredValue, buffer: array<byte>) returns (r: Result<nat, SerializationError>)
    modifies buffer
    ensures r.Ok? <==> |Encode(v)| <= buffer.Length
    ensures r.Ok? ==> r.value == |Encode(v)| && buffer[..] == Encode(v) + old(buffer[|Encode(v)|..])
    ensures r.Ok? && v.Live? ==> buffer[0] == 1 && buffer[1..r.value] == v.value
    ensures r.Ok? && v.Tombstone? ==> buffer[0] == 0 && r.value == 1
    ensures r.Err? ==> r.error == BufferTooShort && buffer[..] == old(buffer[..])
  {
    var tag: byte, value: Bytes := 0, [];
    if v.Live? {
      tag, value := 1, v.value;
    }
    if |value| + 1 > buffer.Length {
      return Err(BufferTooShort);
    }
    buffer[0] := tag;
    for i := 0 to |value|
      invariant buffer[0] == tag
      invariant forall k :: 0 <= k < i ==> buffer[1 + k] == value[k]
      invariant forall k :: 1 + i <= k < buffer.Length ==> buffer[k] == old(buffer[k])
    {
      buffer[1 + i] := value[i];
    }
    assert Encode(v) == [tag] + value;
    assert buffer[..1 + |value|] == [tag] + value;
    r := Ok(|value| + 1);
  }

  /* ---------- the log ---------- */

  datatype Record = Record(key: Key, bytes: Bytes)

  function LastRecord(log: seq<Record>, key: Key): Option<Bytes> {
    if log == [] then None
    else if log[|log| - 1].key == key then Some(log[|log| - 1].bytes)
    else LastRecord(log[..|log| - 1], key)
  }

  /** The finite map that the log stands for: each record replaces or removes its key. */
  function Contents(log: seq<Record>): map<Key, Bytes> {
    if log == [] then map[] else
    var before, last := Contents(log[..|log| - 1]), log[|log| - 1];
    var decoded := Deserialize(last.bytes);
    if decoded.Ok? && decoded.value.Live? then before[last.key := decoded.value.value] else before - {last.key}
  }

  predicate WellFormed(log: seq<Record>) {
    forall i :: 0 <= i < |log| ==> Deserialize(log[i].bytes).Ok?
  }

  /** What the layer finds under a key is what the map has there. */
  lemma {:induction false} LastRecordDecides(log: seq<Record>, key: Key)
    ensures LastRecord(log, key).None? ==> key !in Contents(log)
    ensures LastRecord(log, key).Some? ==>
      var decoded := Deserialize(LastRecord(log, key).value);
      if decoded.Ok? && decoded.value.Live? then key in Contents(log) && Contents(log)[key] == decoded.value.value
      else key !in Contents(log)
    ensures WellFormed(log) && LastRecord(log, key).Some? ==> Deserialize(LastRecord(log, key).value).Ok?
  {
    if log != [] && log[|log| - 1].key != key {
      LastRecordDecides(log[..|log| - 1], key);
    }
  }

  /** The map depends on the last records only, so reclaiming the others' space does not show. */
  lemma LastRecordsDetermineContents(log: seq<Record>, other: seq<Record>)
    requires forall key :: LastRecord(log, key) == LastRecord(other, key)
    ensures Contents(log) == Contents(other)
  {
    forall key
      ensures key in Contents(log) <==> key in Contents(other)
      ensures key in Contents(log) ==> Contents(log)[key] == Contents(other)[key]
    {
      LastRecordDecides(log, key);
      LastRecordDecides(other, key);
    }
  }

  lemma Append(log: seq<Record>, key: Key, v: StoredValue)
    ensures Contents(log + [Record(key, Encode(v))]) ==
      if v.Live? then Contents(log)[key := v.value] else Contents(log) - {key}
    ensures WellFormed(log) ==> WellFormed(log + [Record(key, Encode(v))])
  {
    CodecIsBijective(v, []);
    var more := log + [Record(key, Encode(v))];
    assert more[..|more| - 1] == log;
  }

  /* ---------- errors ---------- */

  datatype EngineError =
    | Storage | FullStorage | EngineCorrupted | EngineBufferTooSmall | ItemTooBig | BufferTooBig
    | Serialization(error: SerializationError) | LogicBug

  datatype Error =
    | Backend | Full | Corrupted | BufferTooSmall(required: nat) | ValueTooLarge | InvalidData | Internal

  /** Each public error comes from exactly these errors of the engine. */
  function FromEngine(e: EngineError): (r: Error)
    ensures r == Backend <==> e == Storage
    ensures r == Full <==> e == FullStorage
    ensures r == Corrupted <==> e == EngineCorrupted
    ensures r == ValueTooLarge <==> e in {EngineBufferTooSmall, ItemTooBig, BufferTooBig, Serialization(BufferTooShort)}
    ensures r == InvalidData <==> e == Serialization(InvalidFormat)
    ensures r == Internal <==> e == LogicBug
  {
    match e
    case Storage => Backend
    case FullStorage => Full
    case EngineCorrupted => Corrupted
    case EngineBufferTooSmall => ValueTooLarge
    case ItemTooBig => ValueTooLarge
    case BufferTooBig => ValueTooLarge
    case Serialization(BufferTooShort) => ValueTooLarge
    case Serialization(InvalidFormat) => InvalidData
    case LogicBug => Internal
  }

  /* ---------- what the engine does ---------- */

  datatype Fetch = NotFound | Found(length: nat)

  /** What the engine does with one record: append it, or fail having appended it or not. */
  datatype Outcome = Stored | Failed(error: EngineError, appended: bool)

  predicate Takes(outcome: Outcome) {
    outcome.Stored? || outcome.appended
  }

  const ENCODING_OVERHEAD := 5

  method CopyTo(output: array<byte>, value: Bytes)
    requires |value| <= output.Length
    modifies output
    ensures output[..] == value + old(output[|value|..])
  {
    for i := 0 to |value|
      invariant forall k :: 0 <= k < i ==> output[k] == value[k]
      invariant forall k :: i <= k < output.Length ==> output[k] == old(output[k])
    {
      output[i] := value[i];
    }
  }

  /** The last record of the key is neither a tombstone nor a tagged value, so this layer did not write it. */
  predicate Foreign(log: seq<Record>, key: Key) {
    var last := LastRecord(log, key);
    last.Some? && last.value != [0] && !([1] <= last.value)
  }

  /** The records of the first log are among those of the second. */
  predicate IsPart(left: seq<Record>, log: seq<Record>) {
    forall i :: 0 <= i < |left| ==> left[i] in log
  }

  /** What reclaiming the space of superseded records may make of a log. */
  ghost predicate IsReclaimed(less: seq<Record>, log: seq<Record>) {
    IsPart(less, log) && forall key :: LastRecord(less, key) == LastRecord(log, key)
  }

  /* ---------- whole runs ---------- */

  /** Everything that may happen to the records; `limit` is the longest value that the store at hand takes. */
  datatype Operation =
    | PutOp(key: Key, value: Bytes, limit: nat, outcome: Outcome)
    | DeleteOp(key: Key, outcome: Outcome)
    | ClearOp
    | InterruptedClearOp(left: seq<Record>)
    | ReclaimOp(log: seq<Record>)
    | ReopenOp

  /** A run starts from the records found on the medium. */
  datatype Run = Medium(log: seq<Record>) | Then(past: Run, op: Operation)

  predicate Puts(op: Operation) {
    op.PutOp? && |op.value| <= op.limit && Takes(op.outcome)
  }

  predicate Deletes(op: Operation) {
    op.DeleteOp? && Takes(op.outcome)
  }

  function LogAfter(run: Run): seq<Record> {
    match run
    case Medium(log) => log
    case Then(past, op) =>
      if Puts(op) then LogAfter(past) + [Record(op.key, Encode(Live(op.value)))]
      else if Deletes(op) then LogAfter(past) + [Record(op.key, Encode(Tombstone))]
      else if op.ClearOp? then []
      else if op.InterruptedClearOp? then op.left
      else if op.ReclaimOp? then op.log
      else LogAfter(past)
  }

  ghost predicate LegalRun(run: Run) {
    run.Then? ==>
      && LegalRun(run.past)
      && (run.op.InterruptedClearOp? ==> IsPart(run.op.left, LogAfter(run.past)))
      && (run.op.ReclaimOp? ==> IsReclaimed(run.op.log, LogAfter(run.past)))
  }

  /** The same run on a plain map, on which an interrupted clear has not happened. */
  function MapAfter(run: Run): map<Key, Bytes> {
    match run
    case Medium(log) => Contents(log)
    case Then(past, op) =>
      if Puts(op) then MapAfter(past)[op.key := op.value]
      else if Deletes(op) then MapAfter(past) - {op.key}
      else if op.ClearOp? then map[]
      else MapAfter(past)
  }

  function MediumOf(run: Run): seq<Record> {
    if run.Medium? then run.log else MediumOf(run.past)
  }

  /** The last clear was interrupted. */
  predicate Interrupted(run: Run) {
    run.Then? && (run.op.InterruptedClearOp? || (!run.op.ClearOp? && Interrupted(run.past)))
  }

  /** And the key has been neither put nor deleted since. */
  predicate Dirty(run: Run, key: Key) {
    run.Then? &&
    (run.op.InterruptedClearOp? ||
     (!run.op.ClearOp? && !((Puts(run.op) || Deletes(run.op)) && run.op.key == key) && Dirty(run.past, key)))
  }

  /** The value was put under the key after the last complete clear, or was on the medium and never cleared. */
  predicate WasPut(run: Run, key: Key, value: Bytes) {
    match run
    case Medium(log) => Record(key, Encode(Live(value))) in log
    case Then(past, op) =>
      (Puts(op) && op.key == key && op.value == value) || (!op.ClearOp? && WasPut(past, key, value))
  }

  function Lookup(m: map<Key, Bytes>, key: Key): Option<Bytes> {
    if key in m then Some(m[key]) else None
  }

  /**
    * Over every run of puts and deletes that succeed or fail, of clears that finish or do not, of
    * reclaiming and of reopening, a key that is not dirty reads as on the map.
    */
  lemma {:induction false} LogRefinesMap(run: Run, key: Key)
    requires LegalRun(run) && !Dirty(run, key)
    ensures Lookup(Contents(LogAfter(run)), key) == Lookup(MapAfter(run), key)
  {
    if run.Then? {
      var before, op := LogAfter(run.past), run.op;
      if !Dirty(run.past, key) {
        LogRefinesMap(run.past, key);
      }
      if Puts(op) || Deletes(op) {
        Append(before, op.key, if Puts(op) then Live(op.value) else Tombstone);
      } else if op.ReclaimOp? {
        LastRecordsDetermineContents(op.log, before);
      }
    }
  }

  lemma {:induction false} DirtyMeansInterrupted(run: Run, key: Key)
    ensures Dirty(run, key) ==> Interrupted(run)
  {
    if run.Then? {
      DirtyMeansInterrupted(run.past, key);
    }
  }

  /** Unless the last clear was interrupted, the log stands for the map; so another, complete clear repairs it. */
  lemma UninterruptedRefinesMap(run: Run)
    requires LegalRun(run) && !Interrupted(run)
    ensures Contents(LogAfter(run)) == MapAfter(run)
  {
    forall key
      ensures Lookup(Contents(LogAfter(run)), key) == Lookup(MapAfter(run), key)
    {
      DirtyMeansInterrupted(run, key);
      LogRefinesMap(run, key);
    }
    assert forall key :: key in Contents(LogAfter(run)) <==> Lookup(Contents(LogAfter(run)), key).Some?;
    assert forall key :: key in MapAfter(run) <==> Lookup(MapAfter(run), key).Some?;
  }

  lemma {:induction false} LastRecordIsThere(log: seq<Record>, key: Key)
    requires LastRecord(log, key).Some?
    ensures Record(key, LastRecord(log, key).value) in log
  {
    if log[|log| - 1].key != key {
      LastRecordIsThere(log[..|log| - 1], key);
    }
  }

  /** What the map of a log has under a key is recorded there. */
  lemma ValuesAreRecorded(log: seq<Record>, key: Key)
    requires key in Contents(log)
    ensures Record(key, Encode(Live(Contents(log)[key]))) in log
  {
    LastRecordDecides(log, key);
    LastRecordIsThere(log, key);
    CodecIsBijective(Live(Contents(log)[key]), LastRecord(log, key).value);
  }

  lemma {:induction false} RecordsWerePut(run: Run, key: Key, value: Bytes)
    requires LegalRun(run) && Record(key, Encode(Live(value))) in LogAfter(run)
    ensures WasPut(run, key, value)
  {
    if run.Then? {
      var record := Record(key, Encode(Live(value)));
      if record in LogAfter(run.past) {
        RecordsWerePut(run.past, key, value);
      } else {
        assert Puts(run.op) || Deletes(run.op);
        assert record == LogAfter(run)[|LogAfter(run)| - 1];
        CodecIsBijective(Live(value), record.bytes);
        CodecIsBijective(if Puts(run.op) then Live(run.op.value) else Tombstone, record.bytes);
      }
    }
  }

  /** Interrupted clears or not: a readable value was put under its key since the last complete clear. */
  lemma ReadableValuesWerePut(run: Run, key: Key)
    requires LegalRun(run) && key in Contents(LogAfter(run))
    ensures WasPut(run, key, Contents(LogAfter(run))[key])
  {
    ValuesAreRecorded(LogAfter(run), key);
    RecordsWerePut(run, key, Contents(LogAfter(run))[key]);
  }

  /** The layer never meets a record that is not its own unless it found one on the medium. */
  lemma {:induction false} RunsStayWellFormed(run: Run)
    requires LegalRun(run) && WellFormed(MediumOf(run))
    ensures WellFormed(LogAfter(run))
  {
    if run.Then? {
      RunsStayWellFormed(run.past);
      if Puts(run.op) || Deletes(run.op) {
        Append(LogAfter(run.past), run.op.key, if Puts(run.op) then Live(run.op.value) else Tombstone);
      }
    }
  }

  /** Why a key stays dirty: after any run, an interrupted clear may bring back a value that had been replaced. */
  lemma InterruptedClearReverts(past: Run, key: Key, older: Bytes, newer: Bytes, limit: nat)
    requires LegalRun(past) && |older| <= limit && |newer| <= limit
    ensures var twice := Then(Then(past, PutOp(key, older, limit, Stored)), PutOp(key, newer, limit, Stored));
      var run := Then(twice, InterruptedClearOp([Record(key, Encode(Live(older)))]));
      LegalRun(run) && Lookup(Contents(LogAfter(run)), key) == Some(older) && Lookup(MapAfter(run), key) == Some(newer)
  {
    var once := Then(past, PutOp(key, older, limit, Stored));
    var twice := Then(once, PutOp(key, newer, limit, Stored));
    var record := Record(key, Encode(Live(older)));
    assert LegalRun(once) && LogAfter(once) == LogAfter(past) + [record];
    assert LegalRun(twice) && LogAfter(twice) == LogAfter(once) + [Record(key, Encode(Live(newer)))];
    assert LogAfter(twice)[|LogAfter(past)|] == record;
    assert [] + [record] == [record];
    Append([], key, Live(older));
  }

  /* ---------- the store ---------- */

  class SequentialStore {
    const scratch: nat
    var log: seq<Record>
    ghost var run: Run

    /** The records are what the run leads to. */
    ghost predicate Valid()
      reads this
    {
      LegalRun(run) && log == LogAfter(run) && ENCODING_OVERHEAD <= scratch
    }

    /** Opening a store over a medium on which `past` has happened. */
    constructor (scratch: nat, log: seq<Record>, ghost past: Run)
      requires ENCODING_OVERHEAD <= scratch
      requires LegalRun(past) && log == LogAfter(past)
      ensures Valid() && run == Then(past, ReopenOp) && this.scratch == scratch
    {
      this.scratch := scratch;
      this.log := log;
      run := Then(past, ReopenOp);
    }

    function MaxValueSize(): nat {
      if scratch < ENCODING_OVERHEAD then 0 else scratch - ENCODING_OVERHEAD
    }

    /** `failure` is the engine's error while fetching, if it has one. */
    method Get(key: Key, output: array<byte>, failure: Option<EngineError>) returns (r: Result<Fetch, Error>)
      requires Valid()
      modifies output
      ensures failure.Some? ==> r == Err(FromEngine(failure.value))
      ensures failure.None? && Foreign(log, key) ==> r == Err(InvalidData)
      ensures failure.None? && !Foreign(log, key) ==>
        match Lookup(Contents(log), key)
        case None => r == Ok(NotFound)
        case Some(value) => r == if |value| <= output.Length then Ok(Found(|value|)) else Err(BufferTooSmall(|value|))
      ensures failure.None? && !Foreign(log, key) && !Dirty(run, key) ==>
        match Lookup(MapAfter(run), key)
        case None => r == Ok(NotFound)
        case Some(value) => r == if |value| <= output.Length then Ok(Found(|value|)) else Err(BufferTooSmall(|value|))
      ensures r.Ok? && r.value.Found? ==>
        && key in Contents(log) && WasPut(run, key, Contents(log)[key])
        && (!Dirty(run, key) ==> key in MapAfter(run) && Contents(log)[key] == MapAfter(run)[key])
        && output[..] == Contents(log)[key] + old(output[r.value.length..])
      ensures !(r.Ok? && r.value.Found?) ==> output[..] == old(output[..])
      ensures WellFormed(MediumOf(run)) ==> !Foreign(log, key)
    {
      LastRecordDecides(log, key);
      if LastRecord(log, key).Some? {
        CodecIsBijective(Tombstone, LastRecord(log, key).value);
      }
      if WellFormed(MediumOf(run)) {
        RunsStayWellFormed(run);
      }
      if !Dirty(run, key) {
        LogRefinesMap(run, key);
      }
      if failure.Some? {
        return Err(FromEngine(failure.value));
      }
      var stored := LastRecord(log, key);
      if stored.None? {
        return Ok(NotFound);
      }
      var decoded := Deserialize(stored.value);
      if decoded.Err? {
        return Err(FromEngine(Serialization(decoded.error)));
      }
      if decoded.value.Tombstone? {
        return Ok(NotFound);
      }
      var value := decoded.value.value;
      if output.Length < |value| {
        return Err(BufferTooSmall(|value|));
      }
      CopyTo(output, value);
      ReadableValuesWerePut(run, key);
      r := Ok(Found(|value|));
    }

    method StoreItem(key: Key, v: StoredValue, outcome: Outcome) returns (r: Result<(), Error>)
      modifies this`log
      ensures r == if outcome.Stored? then Ok(()) else Err(FromEngine(outcome.error))
      ensures log == if Takes(outcome) then old(log) + [Record(key, Encode(v))] else old(log)
    {
      if outcome.Stored? || outcome.appended {
        log := log + [Record(key, Encode(v))];
      }
      r := if outcome.Stored? then Ok(()) else Err(FromEngine(outcome.error));
    }

    /** The whole new value or, when it fails, the whole old or the whole new one. */
    method Put(key: Key, value: Bytes, outcome: Outcome) returns (r: Result<(), Error>)
      requires Valid()
      modifies this
      ensures Valid() && run == Then(old(run), PutOp(key, value, MaxValueSize(), outcome))
      ensures |value| + 5 > scratch ==> r == Err(ValueTooLarge) && log == old(log)
      ensures |value| + 5 <= scratch ==>
        r == (if outcome.Stored? then Ok(()) else Err(FromEngine(outcome.error))) &&
        Contents(log) == if Takes(outcome) then Contents(old(log))[key := value] else Contents(old(log))
      ensures r.Ok? ==> !Dirty(run, key)
    {
      run := Then(run, PutOp(key, value, MaxValueSize(), outcome));
      if |value| > MaxValueSize() {
        return Err(ValueTooLarge);
      }
      Append(log, key, Live(value));
      r := StoreItem(key, Live(value), outcome);
    }

    method Delete(key: Key, outcome: Outcome) returns (r: Result<(), Error>)
      requires Valid()
      modifies this
      ensures Valid() && run == Then(old(run), DeleteOp(key, outcome))
      ensures r == if outcome.Stored? then Ok(()) else Err(FromEngine(outcome.error))
      ensures Contents(log) == if Takes(outcome) then Contents(old(log)) - {key} else Contents(old(log))
      ensures r.Ok? ==> !Dirty(run, key)
    {
      run := Then(run, DeleteOp(key, outcome));
      Append(log, key, Tombstone);
      r := StoreItem(key, Tombstone, outcome);
    }

    /** An interrupted clear leaves some of the records, told by `left`. */
    method Clear(failure: Option<EngineError>, left: seq<Record>) returns (r: Result<(), Error>)
      requires Valid() && (failure.Some? ==> IsPart(left, log))
      modifies this
      ensures Valid() && run == Then(old(run), if failure.None? then ClearOp else InterruptedClearOp(left))
      ensures failure.None? ==> r == Ok(()) && Contents(log) == map[] && !Interrupted(run)
      ensures failure.Some? ==> r == Err(FromEngine(failure.value)) && log == left
    {
      if failure.None? {
        log := [];
        run := Then(run, ClearOp);
        r := Ok(());
      } else {
        log := left;
        run := Then(run, InterruptedClearOp(left));
        r := Err(FromEngine(failure.value));
      }
    }

    /** What the engine does to make room: `kept` is what it leaves of the records. */
    method Reclaim(kept: seq<Record>)
      requires Valid() && IsReclaimed(kept, log)
      modifies this
      ensures Valid() && run == Then(old(run), ReclaimOp(kept)) && Contents(log) == Contents(old(log))
    {
      LastRecordsDetermineContents(kept, log);
      log := kept;
      run := Then(run, ReclaimOp(kept));
    }
  }

  /** Deleting again changes nothing. */
  lemma DeleteIsIdempotent(log: seq<Record>, key: Key)
    ensures var once := log + [Record(key, Encode(Tombstone))];
      Contents(once + [Record(key, Encode(Tombstone))]) == Contents(once)
  {
    Append(log, key, Tombstone);
    Append(log + [Record(key, Encode(Tombstone))], key, Tombstone);
  }
}
