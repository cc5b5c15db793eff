/** The NV memory of the WASM platform layer: a flat byte array changed in place. */
module NvMemory {
  import opened Bytes

  /** A call is carried out, is refused, or passes the range check and would touch memory outside the array,
      which the model leaves without effect. */
  datatype Outcome = Ok | Refused | OutOfBounds

  /** The range check of the code, on a sum that wraps at 2^32. */
  predicate Passes(offset: Uint32, size: Uint32) { (offset + size) % TWO_32 <= NV_MEMORY_SIZE }

  predicate InRange(offset: Uint32, size: Uint32) { offset + size <= NV_MEMORY_SIZE }

  /** Which spans pass the check: those in range, and those whose end wraps into range. */
  lemma PassesIff(offset: Uint32, size: Uint32)
    ensures Passes(offset, size) <==> InRange(offset, size) || TWO_32 <= offset + size <= TWO_32 + NV_MEMORY_SIZE
    ensures offset + size < TWO_32 ==> (Passes(offset, size) <==> InRange(offset, size))
  {
    if offset + size >= TWO_32 {
      assert (offset + size) % TWO_32 == offset + size - TWO_32;
    }
  }

  function OutcomeOf(passes: bool, inRange: bool): Outcome {
    if !passes then Refused else if inRange then Ok else OutOfBounds
  }

  /** Byte `k` after a move: the destination holds the source, the span between the two positions is zero. */
  function MovedByte(nv: Bytes, src: nat, dst: nat, size: nat, k: nat): byte
    requires k < |nv| && src + size <= |nv| && dst + size <= |nv|
  {
    if dst <= k < dst + size then nv[src + (k - dst)]
    else if (src > dst && dst + size <= k < src + size) || (dst > src && src <= k < dst) then 0
    else nv[k]
  }

  function Moved(nv: Bytes, src: nat, dst: nat, size: nat): (r: Bytes)
    requires src + size <= |nv| && dst + size <= |nv|
    ensures |r| == |nv| && forall k :: 0 <= k < |nv| ==> r[k] == MovedByte(nv, src, dst, size, k)
  {
    seq(|nv|, k requires 0 <= k < |nv| => MovedByte(nv, src, dst, size, k))
  }

  /** A move carries the block intact, overlapping or not, and moving it back restores it in place. What is
      lost is exactly what lay between the two positions. */
  lemma MoveBack(nv: Bytes, src: nat, dst: nat, size: nat)
    requires src + size <= |nv| && dst + size <= |nv|
    ensures Moved(nv, src, dst, size)[dst..dst + size] == nv[src..src + size]
    ensures var back := Moved(Moved(nv, src, dst, size), dst, src, size);
            && back[src..src + size] == nv[src..src + size]
            && forall k :: 0 <= k < |nv| && !(src <= k < src + size) ==>
                 back[k] == if (if src < dst then src + size <= k < dst + size else dst <= k < src) then 0 else nv[k]
  {
    var there := Moved(nv, src, dst, size);
    var back := Moved(there, dst, src, size);
    forall k | src <= k < src + size ensures back[k] == nv[k] {
      assert back[k] == there[dst + (k - src)];
    }
  }

  // ---------------------------------------------------------------- sequences of calls

  /** Data whose length is a 32-bit size. */
  type Span = b: Bytes | |b| < TWO_32 witness []

  datatype Op =
    | Put(offset: Uint32, data: Span)
    | Wipe(offset: Uint32, size: Uint32)
    | Shift(src: Uint32, dst: Uint32, size: Uint32)

  function OutcomeOfOp(op: Op): Outcome {
    match op
    case Put(offset, data) => OutcomeOf(Passes(offset, |data|), InRange(offset, |data|))
    case Wipe(offset, size) => OutcomeOf(Passes(offset, size), InRange(offset, size))
    case Shift(src, dst, size) =>
      OutcomeOf(Passes(src, size) && Passes(dst, size), InRange(src, size) && InRange(dst, size))
  }

  /** No sum of offset and size wraps. */
  predicate NoWrap(op: Op) {
    match op
    case Put(offset, data) => offset + |data| < TWO_32
    case Wipe(offset, size) => offset + size < TWO_32
    case Shift(src, dst, size) => src + size < TWO_32 && dst + size < TWO_32
  }

  /** The spans of the call lie in the array. */
  predicate Inside(op: Op) {
    match op
    case Put(offset, data) => offset + |data| <= NV_MEMORY_SIZE
    case Wipe(offset, size) => offset + size <= NV_MEMORY_SIZE
    case Shift(src, dst, size) => src + size <= NV_MEMORY_SIZE && dst + size <= NV_MEMORY_SIZE
  }

  /** A call is carried out exactly when its spans lie in the array; without a wrap it is else refused. */
  lemma NoWrapIsDefined(op: Op)
    ensures OutcomeOfOp(op) == Ok <==> Inside(op)
    ensures NoWrap(op) && !Inside(op) ==> OutcomeOfOp(op) == Refused
  {
    match op
    case Put(offset, data) => PassesIff(offset, |data|);
    case Wipe(offset, size) => PassesIff(offset, size);
    case Shift(src, dst, size) => PassesIff(src, size); PassesIff(dst, size);
  }

  function Replace(nv: Bytes, offset: nat, data: Bytes): (r: Bytes)
    requires offset + |data| <= |nv|
    ensures |r| == |nv|
  {
    nv[..offset] + data + nv[offset + |data|..]
  }

  /** The byte-sequence model; only a call in range changes anything. */
  function Apply(nv: Bytes, op: Op): (r: Bytes)
    requires |nv| == NV_MEMORY_SIZE
    ensures |r| == |nv|
  {
    if OutcomeOfOp(op) != Ok then nv
    else match op
      case Put(offset, data) => Replace(nv, offset, data)
      case Wipe(offset, size) => Replace(nv, offset, seq(size, _ => 0xff))
      case Shift(src, dst, size) => Moved(nv, src, dst, size)
  }

  function ApplyAll(nv: Bytes, ops: seq<Op>): (r: Bytes)
    requires |nv| == NV_MEMORY_SIZE
    ensures |r| == |nv|
  {
    if ops == [] then nv else Apply(ApplyAll(nv, ops[..|ops| - 1]), ops[|ops| - 1])
  }

  /** What was written can be read there, and a cleared span reads as 0xff. */
  lemma ReadsBack(nv: Bytes, op: Op)
    requires |nv| == NV_MEMORY_SIZE && OutcomeOfOp(op) == Ok
    ensures op.Put? ==> Apply(nv, op)[op.offset..op.offset + |op.data|] == op.data
    ensures op.Wipe? ==> forall k :: op.offset <= k < op.offset + op.size ==> Apply(nv, op)[k] == 0xff
    ensures op.Shift? ==> Apply(nv, op)[op.dst..op.dst + op.size] == nv[op.src..op.src + op.size]
  {
    if op.Shift? {
      MoveBack(nv, op.src, op.dst, op.size);
    }
  }

  /** Where a call may change anything at all. */
  predicate InFootprint(op: Op, k: nat) {
    match op
    case Put(offset, data) => offset <= k < offset + |data|
    case Wipe(offset, size) => offset <= k < offset + size
    case Shift(src, dst, size) => src != dst && (if src < dst then src <= k < dst + size else dst <= k < src + size)
  }

  /** Over every sequence of calls, a byte outside all their footprints is what it was. */
  lemma {:induction false} OutsideUntouched(nv: Bytes, ops: seq<Op>, k: nat)
    requires |nv| == NV_MEMORY_SIZE && k < |nv|
    requires forall i :: 0 <= i < |ops| ==> !InFootprint(ops[i], k)
    ensures ApplyAll(nv, ops)[k] == nv[k]
    decreases |ops|
  {
    if ops != [] {
      OutsideUntouched(nv, ops[..|ops| - 1], k);
    }
  }

  class Nv {
    const mem: array<byte>

    ghost predicate Valid() { mem.Length == NV_MEMORY_SIZE }

    constructor ()
      ensures Valid() && forall k :: 0 <= k < mem.Length ==> mem[k] == 0
    {
      mem := new byte[NV_MEMORY_SIZE](_ => 0);
    }

    method Read(offset: Uint32, size: Uint32) returns (outcome: Outcome, data: Bytes)
      requires Valid()
      ensures outcome == OutcomeOf(Passes(offset, size), InRange(offset, size))
      ensures outcome == Ok ==> data == mem[offset..offset + size]
    {
      if (offset + size) % TWO_32 > NV_MEMORY_SIZE {
        return Refused, [];
      }
      if !InRange(offset, size) {
        return OutOfBounds, [];
      }
      return Ok, mem[offset..offset + size];
    }

    method Write(offset: Uint32, data: Span) returns (outcome: Outcome)
      requires Valid()
      modifies mem
      ensures outcome == OutcomeOf(Passes(offset, |data|), InRange(offset, |data|))
      ensures mem[..] == if outcome == Ok then Replace(old(mem[..]), offset, data) else old(mem[..])
    {
      if (offset + |data|) % TWO_32 > NV_MEMORY_SIZE {
        return Refused;
      }
      if !InRange(offset, |data|) {
        return OutOfBounds;
      }
      Copy(offset, data);
      return Ok;
    }

    method Clear(offset: Uint32, size: Uint32) returns (outcome: Outcome)
      requires Valid()
      modifies mem
      ensures outcome == OutcomeOf(Passes(offset, size), InRange(offset, size))
      ensures mem[..] == if outcome == Ok then Replace(old(mem[..]), offset, seq(size, _ => 0xff)) else old(mem[..])
    {
      if (offset + size) % TWO_32 > NV_MEMORY_SIZE {
        return Refused;
      }
      if !InRange(offset, size) {
        return OutOfBounds;
      }
      Fill(offset, size, 0xff);
      return Ok;
    }

    /** memmove, then memset of the vacated span. */
    method Move(src: Uint32, dst: Uint32, size: Uint32) returns (outcome: Outcome)
      requires Valid()
      modifies mem
      ensures outcome == OutcomeOf(Passes(src, size) && Passes(dst, size), InRange(src, size) && InRange(dst, size))
      ensures mem[..] == if outcome == Ok then Moved(old(mem[..]), src, dst, size) else old(mem[..])
    {
      if (src + size) % TWO_32 > NV_MEMORY_SIZE {
        return Refused;
      }
      if (dst + size) % TWO_32 > NV_MEMORY_SIZE {
        return Refused;
      }
      if !InRange(src, size) || !InRange(dst, size) {
        return OutOfBounds;
      }
      var block := mem[src..src + size];
      Copy(dst, block);
      if src > dst {
        Fill(dst + size, src - dst, 0);
      } else if dst > src {
        Fill(src, dst - src, 0);
      }
      return Ok;
    }

    /** Any sequence of calls is the byte-sequence model. */
    method Perform(ops: seq<Op>)
      requires Valid()
      modifies mem
      ensures mem[..] == ApplyAll(old(mem[..]), ops)
    {
      for i := 0 to |ops|
        invariant mem[..] == ApplyAll(old(mem[..]), ops[..i])
      {
        assert ops[..i + 1][..i] == ops[..i];
        var outcome := Call(ops[i]);
      }
      assert ops[..|ops|] == ops;
    }

    method Call(op: Op) returns (outcome: Outcome)
      requires Valid()
      modifies mem
      ensures outcome == OutcomeOfOp(op) && mem[..] == Apply(old(mem[..]), op)
    {
      match op
      case Put(offset, data) => outcome := Write(offset, data);
      case Wipe(offset, size) => outcome := Clear(offset, size);
      case Shift(src, dst, size) => outcome := Move(src, dst, size);
    }

    method Copy(offset: nat, data: Bytes)
      requires offset + |data| <= mem.Length
      modifies mem
      ensures forall k :: 0 <= k < mem.Length ==>
                mem[k] == if offset <= k < offset + |data| then data[k - offset] else old(mem[k])
    {
      for i := 0 to |data|
        invariant forall k :: 0 <= k < mem.Length ==>
                    mem[k] == if offset <= k < offset + i then data[k - offset] else old(mem[k])
      {
        mem[offset + i] := data[i];
      }
    }

    method Fill(offset: nat, size: nat, value: byte)
      requires offset + size <= mem.Length
      modifies mem
      ensures forall k :: 0 <= k < mem.Length ==>
                mem[k] == if offset <= k < offset + size then value else old(mem[k])
    {
      for i := 0 to size
        invariant forall k :: 0 <= k < mem.Length ==>
                    mem[k] == if offset <= k < offset + i then value else old(mem[k])
      {
        mem[offset + i] := value;
      }
    }
  }
}
