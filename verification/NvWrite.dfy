/** wasm_tpm2_nv_write: filling an NV index by a sequence of TPM2_NV_Write requests of at most 1024 bytes. */
module NvWrite {
  import opened Bytes
  import opened Codes
  import opened Wire

  const CC_NV_WRITE: Uint32 := 0x137
  const RH_PLATFORM: Uint32 := 0x4000_000c
  const CHUNK := 1024
  const RC_HANDLE := 0x18b
  const RC_NV_RANGE := 0x146

  datatype Request = Request(index: Uint32, offset: Uint16, chunk: Bytes)

  // ---------------------------------------------------------------- the format

  function Body(index: Uint32, offset: Uint16, chunk: Bytes): (b: Bytes)
    requires |chunk| <= CHUNK
    ensures |b| == 25 + |chunk|
  {
    Store32(RH_PLATFORM) + (Store32(index) + (AuthArea() + (Store16(|chunk|) + (chunk + Store16(offset)))))
  }

  function Encode(r: Request): (b: Bytes)
    requires |r.chunk| <= CHUNK
    ensures |b| == 35 + |r.chunk|
  {
    Header(35 + |r.chunk|, CC_NV_WRITE) + Body(r.index, r.offset, r.chunk)
  }

  function DecodeBody(b: Bytes): (r: Option<Request>) {
    match Read32(b)
    case None => None
    case Some((auth, b1)) =>
      if auth != RH_PLATFORM then None
      else match Read32(b1)
        case None => None
        case Some((index, b2)) =>
          match ReadAuth(b2)
          case None => None
          case Some(b3) => DecodeData(index, b3)
  }

  function DecodeData(index: Uint32, b: Bytes): (r: Option<Request>) {
    match Read16(b)
    case None => None
    case Some((n, b1)) =>
      match ReadN(b1, n)
      case None => None
      case Some((chunk, b2)) =>
        match Read16(b2)
        case None => None
        case Some((offset, b3)) => if b3 != [] then None else Some(Request(index, offset, chunk))
  }

  /** How a TPM reads the request; the size in the header must be the length of the whole. */
  function Decode(req: Bytes): (r: Option<Request>) {
    match ReadHeader(req)
    case None => None
    case Some((cc, b)) => if cc != CC_NV_WRITE then None else DecodeBody(b)
  }

  /** Every request reads back as what it was built from. */
  lemma DecodeEncode(r: Request)
    requires |r.chunk| <= CHUNK
    ensures Decode(Encode(r)) == Some(r)
  {
    ReadHeaderOf(35 + |r.chunk|, CC_NV_WRITE, Body(r.index, r.offset, r.chunk));
    var data := Store16(|r.chunk|) + (r.chunk + Store16(r.offset));
    Read32Of(RH_PLATFORM, Store32(r.index) + (AuthArea() + data));
    Read32Of(r.index, AuthArea() + data);
    ReadAuthOf(data);
    Read16Of(|r.chunk|, r.chunk + Store16(r.offset));
    ReadNOf(r.chunk, Store16(r.offset));
    Read16Of(r.offset, []);
    assert Store16(r.offset) + [] == Store16(r.offset);
  }

  /** The request byte by byte: tag, its own length, command code, platform handle, index, a password session
      without nonce, attributes and password, the chunk's size, the chunk, and its offset. */
  lemma RequestBytes(r: Request)
    requires |r.chunk| <= CHUNK
    ensures var b := Encode(r); var n := |r.chunk|;
            && FromBin(b[..2]) == 0x8002 && FromBin(b[2..6]) == |b| && FromBin(b[6..10]) == 0x137
            && FromBin(b[10..14]) == 0x4000_000c && FromBin(b[14..18]) == r.index
            && b[18..31] == [0, 0, 0, 9, 0x40, 0, 0, 9, 0, 0, 0, 0, 0]
            && FromBin(b[31..33]) == n && b[33..33 + n] == r.chunk && FromBin(b[33 + n..]) == r.offset
  {
    var b := Encode(r);
    var n := |r.chunk|;
    var header, body := Header(35 + n, CC_NV_WRITE), Body(r.index, r.offset, r.chunk);
    HeaderBytes(35 + n, CC_NV_WRITE);
    AuthBytes();
    assert b[..2] == header[..2] && b[2..6] == header[2..6] && b[6..10] == header[6..10];
    BodyBytes(r.index, r.offset, r.chunk);
    assert b[10..14] == body[..4] && b[14..18] == body[4..8] && b[18..31] == body[8..21];
    assert b[31..33] == body[21..23] && b[33..33 + n] == body[23..23 + n] && b[33 + n..] == body[23 + n..];
  }

  lemma BodyBytes(index: Uint32, offset: Uint16, chunk: Bytes)
    requires |chunk| <= CHUNK
    ensures var b := Body(index, offset, chunk); var n := |chunk|;
            && FromBin(b[..4]) == RH_PLATFORM && FromBin(b[4..8]) == index && b[8..21] == AuthArea()
            && FromBin(b[21..23]) == n && b[23..23 + n] == chunk && FromBin(b[23 + n..]) == offset
  {
    var b := Body(index, offset, chunk);
    var n := |chunk|;
    assert b[..4] == Store32(RH_PLATFORM) && b[4..8] == Store32(index) && b[8..21] == AuthArea();
    assert b[21..23] == Store16(n) && b[23..23 + n] == chunk && b[23 + n..] == Store16(offset);
    LoadIsFromBin(b[..4]);
    LoadIsFromBin(b[4..8]);
    LoadIsFromBin(b[21..23]);
    LoadIsFromBin(b[23 + n..]);
  }

  // ---------------------------------------------------------------- what the loop leaves behind

  /** The chunks the data are cut into. */
  function Chunks(size: nat): (n: nat)
    ensures CHUNK * n >= size && (n > 0 ==> CHUNK * (n - 1) < size)
  {
    (size + CHUNK - 1) / CHUNK
  }

  function Chunk(data: Bytes, k: nat): (c: Bytes)
    requires CHUNK * k < |data|
    ensures 1 <= |c| <= CHUNK && CHUNK * k + |c| == Done(|data|, k + 1)
  {
    data[CHUNK * k..Done(|data|, k + 1)]
  }

  /** Bytes sent after `k` chunks. */
  function Done(size: nat, k: nat): nat { if CHUNK * k < size then CHUNK * k else size }

  /** Where chunk `k` goes: its position, as far as the 16-bit field carries it. */
  function Position(k: nat): Uint16 { (CHUNK * k) % 0x1_0000 }

  /** An NV index after a write; one that is not inside it changes nothing. */
  function Overlaid(area: Bytes, off: nat, chunk: Bytes): (r: Bytes)
    ensures |r| == |area|
  {
    if off + |chunk| <= |area| then area[..off] + chunk + area[off + |chunk|..] else area
  }

  /** The index after the first `k` chunks, each laid at its position. */
  function Laid(data: Bytes, before: Bytes, k: nat): (r: Bytes)
    requires k <= Chunks(|data|)
    ensures |r| == |before|
  {
    if k == 0 then before else Overlaid(Laid(data, before, k - 1), Position(k - 1), Chunk(data, k - 1))
  }

  lemma PositionIs(k: nat)
    ensures Position(k) <= CHUNK * k && (Position(k) == CHUNK * k <==> CHUNK * k < 0x1_0000)
  {}

  /** Up to 2^16 bytes, the first `k` chunks are in place and the rest is as before. */
  lemma {:induction false} LaidIsPrefix(data: Bytes, before: Bytes, k: nat)
    requires |data| <= 0x1_0000 && |data| <= |before| && k <= Chunks(|data|)
    ensures Laid(data, before, k) == data[..Done(|data|, k)] + before[Done(|data|, k)..]
    decreases k
  {
    if k > 0 {
      LaidIsPrefix(data, before, k - 1);
      PositionIs(k - 1);
      PrefixGrows(data, before, CHUNK * (k - 1), Done(|data|, k));
    }
  }

  lemma PrefixGrows(data: Bytes, before: Bytes, off: nat, end: nat)
    requires off <= end <= |data| <= |before|
    ensures Overlaid(data[..off] + before[off..], off, data[off..end]) == data[..end] + before[end..]
  {
    var now := data[..off] + before[off..];
    assert now[..off] == data[..off] && now[end..] == before[end..];
    assert data[..end] == data[..off] + data[off..end];
  }

  lemma OverlaidAt(area: Bytes, off: nat, chunk: Bytes)
    requires off + |chunk| <= |area| && chunk != []
    ensures Overlaid(area, off, chunk)[off] == chunk[0]
  {}

  lemma ChunkLands(data: Bytes, before: Bytes, k: nat)
    requires k < Chunks(|data|) && Position(k) + |Chunk(data, k)| <= |before|
    ensures Laid(data, before, k + 1)[Position(k)] == data[CHUNK * k]
  {
    OverlaidAt(Laid(data, before, k), Position(k), Chunk(data, k));
  }

  /** Above 2^16 bytes the last chunk lands on an earlier one's place. */
  lemma LastPosition(size: nat)
    requires size > 0x1_0000
    ensures Chunks(size) >= 65 && Position(Chunks(size) - 1) < CHUNK * (Chunks(size) - 1) < size
  {
    assert CHUNK * Chunks(size) > CHUNK * 64;
    PositionIs(Chunks(size) - 1);
  }

  /** Writing all chunks reproduces data of `size` bytes, whatever they are and whatever was there, if and
      only if the size is at most 2^16. */
  lemma LaidIsDataIff(size: nat)
    ensures (forall data: Bytes, before: Bytes :: |data| == |before| == size ==>
               Laid(data, before, Chunks(size)) == data)
            <==> size <= 0x1_0000
  {
    if size <= 0x1_0000 {
      forall data: Bytes, before: Bytes | |data| == |before| == size
        ensures Laid(data, before, Chunks(size)) == data
      {
        LaidIsPrefix(data, before, Chunks(size));
        assert data[..size] + before[size..] == data;
      }
    } else {
      LastPosition(size);
      var k := Chunks(size) - 1;
      var data: Bytes := seq(size, i => if i == CHUNK * k then 1 else 0);
      ChunkLands(data, data, k);
      assert Laid(data, data, Chunks(size)) != data;
    }
  }

  // ---------------------------------------------------------------- the code

  /** The TPM: `rc` is its verdict on the request, which reads as `w`. If that is good, it carries `w` out,
      provided that is a write to the index inside its area. */
  method Transfer(req: Bytes, index: Uint32, area: array<byte>, rc: int, ghost w: Request) returns (r: int)
    requires Decode(req) == Some(w)
    modifies area
    ensures r == if rc != 0 then rc
                 else if w.index != index then RC_HANDLE
                 else if w.offset + |w.chunk| > area.Length then RC_NV_RANGE
                 else 0
    ensures area[..] == if r == 0 then Overlaid(old(area[..]), w.offset, w.chunk) else old(area[..])
  {
    if rc != 0 {
      return rc;
    }
    var write := Decode(req).value;
    if write.index != index {
      return RC_HANDLE;
    }
    if write.offset + |write.chunk| > area.Length {
      return RC_NV_RANGE;
    }
    Overlay(area, write.offset, write.chunk);
    return 0;
  }

  method Overlay(area: array<byte>, off: nat, chunk: Bytes)
    requires off + |chunk| <= area.Length
    modifies area
    ensures area[..] == Overlaid(old(area[..]), off, chunk)
  {
    for k := 0 to |chunk|
      invariant forall i :: 0 <= i < area.Length ==>
                  area[i] == if off <= i < off + k then chunk[i - off] else old(area[i])
    {
      area[off + k] := chunk[k];
    }
  }

  /** Concatenate header, prefix, authorization, length, data and offset, then patch the header size. */
  method Build(index: Uint32, offset: Uint16, chunk: Bytes, malloc: nat -> bool) returns (req: Option<Bytes>)
    requires |chunk| <= CHUNK
    ensures req.Some? ==> req.value == Encode(Request(index, offset, chunk))
    ensures req.Some? ==> Decode(req.value) == Some(Request(index, offset, chunk))
    ensures req.None? ==> exists n: nat :: !malloc(n)
  {
    var prefix := Store32(RH_PLATFORM) + Store32(index) + Store32(AUTHBLOCK_SIZE);
    var length, position := Store16(|chunk|), Store16(offset);
    var buffer, len := MemConcat([Some(Header(0, CC_NV_WRITE)), Some(prefix), Some(Authblock()), Some(length),
                                  Some(chunk), Some(position), None], malloc);
    if buffer.None? {
      return None;
    }
    FlattenSix(Header(0, CC_NV_WRITE), prefix, Authblock(), length, chunk, position);
    ghost var body := Body(index, offset, chunk);
    assert body == prefix + (Authblock() + (length + (chunk + position)));
    PatchSize(buffer.value, len, len, CC_NV_WRITE, body);
    DecodeEncode(Request(index, offset, chunk));
    return Some(buffer.value[..len]);
  }

  /** Why a chunk was not written: the TPM's verdict, no room in the index, or no memory for the request. */
  ghost predicate Excuse(rc: int, verdict: int, fits: bool, malloc: nat -> bool) {
    || (rc == verdict && rc != 0)
    || (rc == RC_NV_RANGE && !fits)
    || (rc == -1 && exists n: nat :: !malloc(n))
  }

  /** One round of the loop: build the request and have the TPM carry it out. */
  method SendChunk(index: Uint32, offset: Uint16, chunk: Bytes, area: array<byte>, malloc: nat -> bool, verdict: int)
      returns (rc: int)
    requires |chunk| <= CHUNK
    modifies area
    ensures rc == 0 ==> verdict == 0 && offset + |chunk| <= area.Length
    ensures area[..] == if rc == 0 then Overlaid(old(area[..]), offset, chunk) else old(area[..])
    ensures rc != 0 ==> Excuse(rc, verdict, offset + |chunk| <= area.Length, malloc)
  {
    var req := Build(index, offset, chunk, malloc);
    if req.Some? {
      rc := Transfer(req.value, index, area, verdict, Request(index, offset, chunk));
    } else {
      rc := -1;
    }
  }

  /** Chunk `k` lies inside an index of `size` bytes. */
  predicate ChunkFits(data: Bytes, k: nat, size: nat)
    requires CHUNK * k < |data|
  {
    Position(k) + |Chunk(data, k)| <= size
  }

  /** The write loop, for data and an index of any size. `malloc(k)` and `verdict(k)` are the allocator and the
      TPM's answer for chunk `k`. It stops at the first chunk that fails and returns its error, with exactly
      the `k` chunks before it laid down. */
  method NvWriteAll(index: Uint32, data: Bytes, area: array<byte>, malloc: (nat, nat) -> bool, verdict: nat -> int)
      returns (rc: int, k: nat)
    modifies area
    ensures k <= Chunks(|data|) && area[..] == Laid(data, old(area[..]), k)
    ensures |data| == area.Length <= 0x1_0000 ==>
              area[..] == data[..Done(|data|, k)] + old(area[..])[Done(|data|, k)..]
    ensures |data| == area.Length <= 0x1_0000 && rc == 0 ==> area[..] == data
    ensures rc == 0 <==> k == Chunks(|data|)
    ensures forall i :: 0 <= i < k ==> verdict(i) == 0 && ChunkFits(data, i, area.Length)
    ensures rc != 0 ==> Excuse(rc, verdict(k), ChunkFits(data, k, area.Length), (n: nat) => malloc(k, n))
  {
    var offset := 0;
    k, rc := 0, 0;
    while offset < |data|
      invariant k <= Chunks(|data|) && offset == Done(|data|, k) && rc == 0
      invariant area[..] == Laid(data, old(area[..]), k)
      invariant forall i :: 0 <= i < k ==> verdict(i) == 0 && ChunkFits(data, i, area.Length)
      decreases |data| - offset
    {
      var txlen := |data| - offset;
      if txlen > CHUNK {
        txlen := CHUNK;
      }
      var position: Uint16 := offset % 0x1_0000;
      ghost var chunk := Chunk(data, k);
      assert position == Position(k) && data[offset..offset + txlen] == chunk;
      var j := k;
      rc := SendChunk(index, position, data[offset..offset + txlen], area, (n: nat) => malloc(j, n), verdict(k));
      if rc != 0 {
        break;
      }
      offset := offset + txlen;
      k := k + 1;
    }
    if |data| == area.Length <= 0x1_0000 {
      WriteOutcome(data, old(area[..]), k);
    }
  }

  /** What the loop is for: data of at most 2^16 bytes sent to an index of their size. After a good return the
      index holds the data; after an error, exactly the chunks before it. */
  lemma WriteOutcome(data: Bytes, before: Bytes, k: nat)
    requires |data| == |before| <= 0x1_0000 && k <= Chunks(|data|)
    ensures Laid(data, before, k) == data[..Done(|data|, k)] + before[Done(|data|, k)..]
    ensures k == Chunks(|data|) ==> Laid(data, before, k) == data
    ensures forall i :: 0 <= i < Chunks(|data|) ==> ChunkFits(data, i, |data|)
  {
    LaidIsPrefix(data, before, k);
    assert data[..|data|] + before[|data|..] == data;
    forall i | 0 <= i < Chunks(|data|) ensures ChunkFits(data, i, |data|) {
      PositionIs(i);
    }
  }
}
