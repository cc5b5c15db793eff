/** TPM 2.0 requests as the WASM layer builds them: the growing concatenation buffer, the request header
    and the password authorization, and a reader that undoes them. */
module Wire {
  import opened Bytes
  import opened Codes

  const ST_SESSIONS: Uint16 := 0x8002
  const RS_PW: Uint32 := 0x4000_0009
  const AUTHBLOCK_SIZE: Uint32 := 9

  // ---------------------------------------------------------------- concatenation

  /** The parts up to the terminating NULL, joined. */
  function Flatten(parts: seq<Option<Bytes>>): (r: Bytes) {
    if parts == [] || parts[0].None? then [] else parts[0].value + Flatten(parts[1..])
  }

  /** realloc: a larger buffer with the old contents in front. */
  method Realloc(p: array<byte>, len: nat, size: nat) returns (larger: array<byte>)
    requires len <= p.Length <= size
    ensures fresh(larger) && larger.Length == size && larger[..len] == p[..len]
  {
    larger := new byte[size](k requires 0 <= k < size reads p => if k < p.Length then p[k] else 0);
  }

  /** memcpy of a part to the end of the bytes written so far. */
  method Append(p: array<byte>, offset: nat, part: Bytes)
    requires offset + |part| <= p.Length
    modifies p
    ensures p[..offset + |part|] == old(p[..offset]) + part
  {
    for k := 0 to |part|
      invariant p[..offset] == old(p[..offset]) && p[offset..offset + k] == part[..k]
    {
      p[offset + k] := part[k];
    }
    assert p[..offset + |part|] == p[..offset] + p[offset..offset + |part|];
  }

  /** wasm_memconcat. The buffer starts at 128 bytes and is enlarged before a part that would not fit, so
      every copy stays inside it. `malloc` tells which allocations succeed. */
  method MemConcat(parts: seq<Option<Bytes>>, malloc: nat -> bool) returns (buffer: Option<array<byte>>, len: nat)
    ensures buffer.Some? ==> fresh(buffer.value) && len <= buffer.value.Length && buffer.value[..len] == Flatten(parts)
    ensures buffer.None? ==> exists n: nat :: !malloc(n)
  {
    var capacity := 128;
    len := 0;
    if !malloc(capacity) {
      return None, 0;
    }
    var p := new byte[capacity](_ => 0);
    var i := 0;
    ghost var done: Bytes := [];
    assert done + Flatten(parts[0..]) == Flatten(parts) by { assert parts[0..] == parts; }
    while i < |parts| && parts[i].Some?
      invariant i <= |parts| && len <= capacity == p.Length && fresh(p)
      invariant p[..len] == done
      invariant done + Flatten(parts[i..]) == Flatten(parts)
    {
      var part := parts[i].value;
      if len + |part| > capacity {
        capacity := capacity + len + |part|;
        if !malloc(capacity) {
          return None, 0;
        }
        p := Realloc(p, len, capacity);
      }
      Append(p, len, part);
      FlattenStep(parts, i, done);
      done := done + part;
      len := len + |part|;
      i := i + 1;
    }
    assert Flatten(parts[i..]) == [];
    return Some(p), len;
  }

  lemma FlattenStep(parts: seq<Option<Bytes>>, i: nat, done: Bytes)
    requires i < |parts| && parts[i].Some?
    ensures done + Flatten(parts[i..]) == (done + parts[i].value) + Flatten(parts[i + 1..])
  {
    assert parts[i..][1..] == parts[i + 1..];
  }

  /** The layouts built here: six or four parts and the terminator. */
  lemma FlattenSix(a: Bytes, b: Bytes, c: Bytes, d: Bytes, e: Bytes, f: Bytes)
    ensures Flatten([Some(a), Some(b), Some(c), Some(d), Some(e), Some(f), None]) == a + (b + (c + (d + (e + f))))
  {
    FlattenCons(f, [None]);
    FlattenCons(e, [Some(f), None]);
    FlattenCons(d, [Some(e), Some(f), None]);
    FlattenCons(c, [Some(d), Some(e), Some(f), None]);
    FlattenCons(b, [Some(c), Some(d), Some(e), Some(f), None]);
    FlattenCons(a, [Some(b), Some(c), Some(d), Some(e), Some(f), None]);
    assert f + [] == f;
  }

  lemma FlattenFour(a: Bytes, b: Bytes, c: Bytes, d: Bytes)
    ensures Flatten([Some(a), Some(b), Some(c), Some(d), None]) == a + (b + (c + d))
  {
    FlattenCons(d, [None]);
    FlattenCons(c, [Some(d), None]);
    FlattenCons(b, [Some(c), Some(d), None]);
    FlattenCons(a, [Some(b), Some(c), Some(d), None]);
    assert d + [] == d;
  }

  lemma FlattenCons(x: Bytes, rest: seq<Option<Bytes>>)
    ensures Flatten([Some(x)] + rest) == x + Flatten(rest)
  {
    assert ([Some(x)] + rest)[1..] == rest;
  }

  // ---------------------------------------------------------------- reading

  function Read16(b: Bytes): Option<(Uint16, Bytes)> {
    if |b| < 2 then None else Some((Load16(b), b[2..]))
  }

  function Read32(b: Bytes): Option<(Uint32, Bytes)> {
    if |b| < 4 then None else Some((Load32(b), b[4..]))
  }

  function ReadN(b: Bytes, n: nat): Option<(Bytes, Bytes)> {
    if |b| < n then None else Some((b[..n], b[n..]))
  }

  lemma Read16Of(n: Uint16, rest: Bytes)
    ensures Read16(Store16(n) + rest) == Some((n, rest))
  {
    assert (Store16(n) + rest)[2..] == rest;
  }

  lemma Read32Of(n: Uint32, rest: Bytes)
    ensures Read32(Store32(n) + rest) == Some((n, rest))
  {
    var b := Store32(n) + rest;
    assert b[4..] == rest && b[2..4] == Store32(n)[2..4];
  }

  lemma ReadNOf(x: Bytes, rest: Bytes)
    ensures ReadN(x + rest, |x|) == Some((x, rest))
  {
    assert (x + rest)[..|x|] == x && (x + rest)[|x|..] == rest;
  }

  // ---------------------------------------------------------------- header and authorization

  function Header(size: Uint32, cc: Uint32): (b: Bytes)
    ensures |b| == 10
  {
    Store16(ST_SESSIONS) + (Store32(size) + Store32(cc))
  }

  /** The password session with an empty password, after its size. */
  function AuthArea(): (b: Bytes)
    ensures |b| == 13
  {
    Store32(AUTHBLOCK_SIZE) + Authblock()
  }

  function Authblock(): (b: Bytes)
    ensures |b| == 9
  {
    Store32(RS_PW) + Store16(0) + [0] + Store16(0)
  }

  /** A header whose size field is the length of the whole request. */
  function ReadHeader(req: Bytes): (r: Option<(Uint32, Bytes)>) {
    match Read16(req)
    case None => None
    case Some((tag, rest)) =>
      if tag != ST_SESSIONS then None
      else match Read32(rest)
        case None => None
        case Some((size, rest2)) => if size != |req| then None else Read32(rest2)
  }

  lemma ReadHeaderOf(size: Uint32, cc: Uint32, rest: Bytes)
    requires size == 10 + |rest|
    ensures ReadHeader(Header(size, cc) + rest) == Some((cc, rest))
  {
    assert Header(size, cc) + rest == Store16(ST_SESSIONS) + (Store32(size) + (Store32(cc) + rest));
    Read16Of(ST_SESSIONS, Store32(size) + (Store32(cc) + rest));
    Read32Of(size, Store32(cc) + rest);
    Read32Of(cc, rest);
  }

  /** An authorization area of one password session, field by field: the size of the block, the session handle,
      no nonce, no attributes, no password. */
  function ReadAuth(b: Bytes): (r: Option<Bytes>) {
    match Read32(b)
    case None => None
    case Some((size, b1)) =>
      if size != 9 then None
      else match Read32(b1)
        case None => None
        case Some((handle, b2)) => if handle != 0x4000_0009 then None else ReadEmptyAuth(b2)
  }

  function ReadEmptyAuth(b: Bytes): (r: Option<Bytes>) {
    match Read16(b)
    case None => None
    case Some((nonceSize, b1)) =>
      match ReadN(b1, 1)
      case None => None
      case Some((attributes, b2)) =>
        match Read16(b2)
        case None => None
        case Some((passwordSize, rest)) =>
          if nonceSize != 0 || attributes != [0] || passwordSize != 0 then None else Some(rest)
  }

  lemma ReadEmptyAuthOf(rest: Bytes)
    ensures ReadEmptyAuth(Store16(0) + ([0] + (Store16(0) + rest))) == Some(rest)
  {
    Read16Of(0, [0] + (Store16(0) + rest));
    ReadNOf([0], Store16(0) + rest);
    Read16Of(0, rest);
  }

  lemma ReadAuthOf(rest: Bytes)
    ensures ReadAuth(AuthArea() + rest) == Some(rest)
  {
    var b2 := Store16(0) + ([0] + (Store16(0) + rest));
    assert AuthArea() + rest == Store32(AUTHBLOCK_SIZE) + (Store32(RS_PW) + b2);
    Read32Of(AUTHBLOCK_SIZE, Store32(RS_PW) + b2);
    Read32Of(RS_PW, b2);
    ReadEmptyAuthOf(rest);
  }

  /** The bytes of the header and of the authorization area. */
  lemma HeaderBytes(size: Uint32, cc: Uint32)
    ensures var b := Header(size, cc);
            FromBin(b[..2]) == 0x8002 && FromBin(b[2..6]) == size && FromBin(b[6..10]) == cc
  {
    var b := Header(size, cc);
    assert b[..2] == Store16(ST_SESSIONS) && b[2..6] == Store32(size) && b[6..10] == Store32(cc);
    LoadIsFromBin(b[..2]);
    LoadIsFromBin(b[2..6]);
    LoadIsFromBin(b[6..10]);
  }

  lemma AuthBytes()
    ensures AuthArea() == [0, 0, 0, 9, 0x40, 0, 0, 9, 0, 0, 0, 0, 0]
  {
    assert Store32(9) == [0, 0, 0, 9];
    assert Store32(0x4000_0009) == [0x40, 0, 0, 9];
  }

  lemma HeaderParts(size: Uint32, cc: Uint32, rest: Bytes)
    ensures var b := Header(size, cc) + rest;
            && b == Store16(ST_SESSIONS) + Store32(size) + (Store32(cc) + rest)
            && b[..2] == Store16(ST_SESSIONS) && b[6..] == Store32(cc) + rest
  {}

  /** A request whose size field is not its length is not read at all. */
  lemma ReadHeaderSize(size: Uint32, cc: Uint32, rest: Bytes)
    requires size != 10 + |rest|
    ensures ReadHeader(Header(size, cc) + rest) == None
  {
    assert Header(size, cc) + rest == Store16(ST_SESSIONS) + (Store32(size) + (Store32(cc) + rest));
    Read16Of(ST_SESSIONS, Store32(size) + (Store32(cc) + rest));
    Read32Of(size, Store32(cc) + rest);
  }

  /** The size is written into the header once the request is complete. */
  method PatchSize(req: array<byte>, len: nat, size: Uint32, ghost cc: Uint32, ghost rest: Bytes)
    requires 10 <= len <= req.Length && req[..len] == Header(0, cc) + rest
    modifies req
    ensures req[..len] == Header(size, cc) + rest
  {
    var b := Store32(size);
    ghost var before: Bytes := req[..len];
    HeaderParts(0, cc, rest);
    HeaderParts(size, cc, rest);
    req[2], req[3], req[4], req[5] := b[0], b[1], b[2], b[3];
    assert req[..len] == before[..2] + b + before[6..];
  }
}
