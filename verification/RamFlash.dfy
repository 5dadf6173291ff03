// The fault-injecting NOR flash that the storage tests run on: writes only clear bits, erasing sets whole pages,
// and an armed failure stops either after a given number of bytes.
module RamFlash {
  import opened Wrappers

  const CAPACITY := 1_024
  const PAGE_SIZE := 256

  datatype FlashError = OutOfBounds | NotAligned | NotErased | Interrupted

  /** Writing needs every set bit of the value to be set already. */
  predicate Writable(stored: bv8, value: bv8) {
    stored & value == value
  }

  /** The first byte of the data that cannot be written where it would go, or its length. */
  function FirstUnwritable(bytes: seq<bv8>, start: nat, data: seq<bv8>, from: nat := 0): (i: nat)
    requires start + |data| <= |bytes| && from <= |data|
    ensures from <= i <= |data|
    ensures forall k :: from <= k < i ==> Writable(bytes[start + k], data[k])
    ensures i < |data| ==> !Writable(bytes[start + i], data[i])
    decreases |data| - from
  {
    if from == |data| || !Writable(bytes[start + from], data[from]) then from
    else FirstUnwritable(bytes, start, data, from + 1)
  }

  /** How many bytes an operation gets through before an armed failure, out of n. */
  function Budget(armed: Option<nat>, n: nat): nat {
    if armed.Some? && armed.value < n then armed.value else n
  }

  function Spend(armed: Option<nat>, n: nat): Option<nat> {
    if armed.None? then None else if armed.value < n then None else Some(armed.value - n)
  }

  /** The first n bytes of the data in place. */
  function Placed(bytes: seq<bv8>, start: nat, data: seq<bv8>, n: nat): seq<bv8>
    requires start + |data| <= |bytes| && n <= |data|
  {
    bytes[..start] + data[..n] + bytes[start + n..]
  }

  lemma PlacedNext(bytes: seq<bv8>, start: nat, data: seq<bv8>, n: nat)
    requires start + |data| <= |bytes| && n < |data|
    ensures Placed(bytes, start, data, n)[start + n := data[n]] == Placed(bytes, start, data, n + 1)
  {
  }

  /** A write stops at the first byte that cannot be written, unless the armed failure comes no later. */
  lemma StoppedAt(bytes: seq<bv8>, start: nat, data: seq<bv8>, i: nat, armed: Option<nat>, e: FlashError)
    requires start + |data| <= |bytes| && i < |data|
    requires i <= FirstUnwritable(bytes, start, data) && i <= Budget(armed, |data|)
    requires Spend(armed, i) == Some(0) ==> e == Interrupted
    requires Spend(armed, i) != Some(0) ==> !Writable(bytes[start + i], data[i]) && e == NotErased
    ensures var unwritable := FirstUnwritable(bytes, start, data);
      && i == Min(unwritable, Budget(armed, |data|))
      && e == if unwritable < Budget(armed, |data|) then NotErased else Interrupted
  {
  }

  lemma WentOn(bytes: seq<bv8>, start: nat, data: seq<bv8>, i: nat, armed: Option<nat>)
    requires start + |data| <= |bytes| && i < |data|
    requires i <= FirstUnwritable(bytes, start, data) && i <= Budget(armed, |data|)
    requires Spend(armed, i) != Some(0) && Writable(bytes[start + i], data[i])
    ensures i + 1 <= FirstUnwritable(bytes, start, data) && i + 1 <= Budget(armed, |data|)
    ensures Spend(Spend(armed, i), 1) == Spend(armed, i + 1)
  {
  }

  class RamFlash {
    const bytes: array<bv8>
    var bytesUntilFailure: Option<nat>

    ghost predicate Valid()
      reads this
    {
      bytes.Length == 1_024
    }

    constructor ()
      ensures Valid() && bytesUntilFailure == None && fresh(bytes)
      ensures bytes[..] == seq(1_024, i => 0xff)
    {
      bytes := new bv8[CAPACITY](_ => 0xff);
      bytesUntilFailure := None;
    }

    method WriteByte(address: nat, value: bv8) returns (r: Result<(), FlashError>)
      requires Valid() && address < 1_024
      modifies this, bytes
      ensures old(bytesUntilFailure) == Some(0) ==>
        r == Err(Interrupted) && bytesUntilFailure == None && bytes[..] == old(bytes[..])
      ensures old(bytesUntilFailure) != Some(0) ==>
        bytesUntilFailure == Spend(old(bytesUntilFailure), 1) &&
        r == (if Writable(old(bytes[address]), value) then Ok(()) else Err(NotErased)) &&
        bytes[..] == if r.Ok? then old(bytes[..])[address := value] else old(bytes[..])
    {
      if bytesUntilFailure.Some? {
        if bytesUntilFailure.value == 0 {
          bytesUntilFailure := None;
          return Err(Interrupted);
        }
        bytesUntilFailure := Some(bytesUntilFailure.value - 1);
      }
      if bytes[address] & value != value {
        return Err(NotErased);
      }
      bytes[address] := bytes[address] & value;
      r := Ok(());
    }

    /** Exactly the bytes before the first fault arrive, and the fault that comes first is reported. */
    method Write(offset: nat, data: seq<bv8>) returns (r: Result<(), FlashError>)
      requires Valid()
      modifies this, bytes
      ensures offset + |data| > 1_024 ==>
        r == Err(OutOfBounds) && bytes[..] == old(bytes[..]) && bytesUntilFailure == old(bytesUntilFailure)
      ensures offset + |data| <= 1_024 ==>
        var unwritable := FirstUnwritable(old(bytes[..]), offset, data);
        var written := Min(unwritable, Budget(old(bytesUntilFailure), |data|));
        && bytes[..] == Placed(old(bytes[..]), offset, data, written)
        && r == (if written == |data| then Ok(())
                 else if unwritable < Budget(old(bytesUntilFailure), |data|) then Err(NotErased) else Err(Interrupted))
        && bytesUntilFailure == Spend(old(bytesUntilFailure), if r.Ok? then written else written + 1)
    {
      if offset + |data| > bytes.Length {
        return Err(OutOfBounds);
      }
      ghost var before := bytes[..];
      ghost var unwritable := FirstUnwritable(before, offset, data);
      for i := 0 to |data|
        invariant i <= unwritable && i <= Budget(old(bytesUntilFailure), |data|)
        invariant bytesUntilFailure == Spend(old(bytesUntilFailure), i)
        invariant bytes[..] == Placed(before, offset, data, i)
      {
        assert bytes[offset + i] == before[offset + i];
        var step := WriteByte(offset + i, data[i]);
        if step.Err? {
          StoppedAt(before, offset, data, i, old(bytesUntilFailure), step.error);
          return step;
        }
        PlacedNext(before, offset, data, i);
        WentOn(before, offset, data, i, old(bytesUntilFailure));
      }
      r := Ok(());
    }

    /** Whole pages become erased, up to where an armed failure stops it. */
    method Erase(from: nat, to: nat) returns (r: Result<(), FlashError>)
      requires Valid()
      modifies this, bytes
      ensures from > to || to > 1_024 ==>
        r == Err(OutOfBounds) && bytes[..] == old(bytes[..]) && bytesUntilFailure == old(bytesUntilFailure)
      ensures from <= to <= 1_024 && (from % 256 != 0 || to % 256 != 0) ==>
        r == Err(NotAligned) && bytes[..] == old(bytes[..]) && bytesUntilFailure == old(bytesUntilFailure)
      ensures from <= to <= 1_024 && from % 256 == 0 && to % 256 == 0 ==>
        var erased := Budget(old(bytesUntilFailure), to - from);
        && (forall a :: 0 <= a < 1_024 ==> bytes[a] == if from <= a < from + erased then 0xff else old(bytes[a]))
        && r == (if erased == to - from then Ok(()) else Err(Interrupted))
        && bytesUntilFailure == Spend(old(bytesUntilFailure), to - from)
    {
      if from > to || to > bytes.Length {
        return Err(OutOfBounds);
      }
      if from % PAGE_SIZE != 0 || to % PAGE_SIZE != 0 {
        return Err(NotAligned);
      }
      for address := from to to
        invariant address - from <= Budget(old(bytesUntilFailure), to - from)
        invariant bytesUntilFailure == Spend(old(bytesUntilFailure), address - from)
        invariant forall a :: 0 <= a < CAPACITY ==> bytes[a] == if from <= a < address then 0xff else old(bytes[a])
      {
        if bytesUntilFailure.Some? {
          if bytesUntilFailure.value == 0 {
            bytesUntilFailure := None;
            return Err(Interrupted);
          }
          bytesUntilFailure := Some(bytesUntilFailure.value - 1);
        }
        bytes[address] := 0xff;
      }
      r := Ok(());
    }
  }

  /** Erased flash takes any data. */
  lemma {:induction false} ErasedTakesAnything(bytes: seq<bv8>, start: nat, data: seq<bv8>)
    requires start + |data| <= |bytes|
    requires forall a :: start <= a < start + |data| ==> bytes[a] == 0xff
    ensures FirstUnwritable(bytes, start, data) == |data|
  {
    var i := FirstUnwritable(bytes, start, data);
    if i < |data| {
      AllOnesWritable(data[i]);
    }
  }

  lemma AllOnesWritable(value: bv8)
    ensures Writable(0xff, value)
  {
  }
}
