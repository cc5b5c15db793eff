/** wasm_tpm2_createprimary_pqc: the request for a post-quantum primary key, and the extraction of the
    public key from the response at a fixed offset. */
module CreatePrimary {
  import opened Bytes
  import opened Codes
  import opened Wire

  const CC_CREATEPRIMARY: Uint32 := 0x131
  const RESPONSE_MAX := 4096

  /** What determines the public area: algorithm, name hash, attributes, policy digest, parameters. */
  datatype Template = Template(algId: Uint16, hashAlg: Uint16, keyFlags: Uint32, policy: Bytes, parms: Bytes)

  /** The size of the public area, which covers that of the policy, fits the 16-bit field it is written in. */
  predicate Fits(t: Template) { 12 + |t.policy| + |t.parms| < 0x1_0000 }

  // ---------------------------------------------------------------- the request

  /** A length as the code writes it into a 16-bit field: without a check. */
  function Low16(n: nat): Uint16 { n % 0x1_0000 }

  function Low32(n: nat): Uint32 { n % 0x1_0000_0000 }

  /** TPMT_PUBLIC up to its parameters. */
  function PublicFront(t: Template): (b: Bytes)
    ensures |b| == 10 + |t.policy| + |t.parms|
  {
    Store16(t.algId)
    + (Store16(t.hashAlg) + (Store32(t.keyFlags) + (Store16(Low16(|t.policy|)) + (t.policy + t.parms))))
  }

  /** TPMT_PUBLIC with an empty unique field. */
  function Public(t: Template): (b: Bytes)
    ensures |b| == 12 + |t.policy| + |t.parms|
  {
    PublicFront(t) + Store16(0)
  }

  /** inSensitive with empty secret and data. */
  function InSensitive(): (b: Bytes)
    ensures |b| == 6
  {
    Store16(4) + Store32(0)
  }

  /** No outside info, no creation PCRs. */
  function Tail(): (b: Bytes)
    ensures |b| == 6
  {
    Store32(0) + Store16(0)
  }

  function BodyOf(handle: Uint32, public: Bytes): (b: Bytes)
    ensures |b| == 31 + |public|
  {
    Store32(handle) + (AuthArea() + Parameters(public))
  }

  function Parameters(public: Bytes): (b: Bytes)
    ensures |b| == 14 + |public|
  {
    InSensitive() + (Store16(Low16(|public|)) + (public + Tail()))
  }

  function Encode(handle: Uint32, t: Template): (b: Bytes)
    ensures |b| == 53 + |t.policy| + |t.parms|
  {
    Header(Low32(41 + |Public(t)|), CC_CREATEPRIMARY) + BodyOf(handle, Public(t))
  }

  /** Policy, parameters, and the empty unique field that ends the area. */
  function DecodePolicy(algId: Uint16, hashAlg: Uint16, keyFlags: Uint32, b: Bytes): (r: Option<Template>) {
    match Read16(b)
    case None => None
    case Some((n, b1)) =>
      match ReadN(b1, n)
      case None => None
      case Some((policy, b2)) =>
        if |b2| < 2 || b2[|b2| - 2..] != Store16(0) then None
        else Some(Template(algId, hashAlg, keyFlags, policy, b2[..|b2| - 2]))
  }

  function DecodePublic(b: Bytes): (r: Option<Template>) {
    match Read16(b)
    case None => None
    case Some((algId, b1)) =>
      match Read16(b1)
      case None => None
      case Some((hashAlg, b2)) =>
        match Read32(b2)
        case None => None
        case Some((keyFlags, b3)) => DecodePolicy(algId, hashAlg, keyFlags, b3)
  }

  /** inSensitive: four bytes, which are an empty secret and empty data. */
  function ReadSensitive(b: Bytes): (r: Option<Bytes>) {
    match Read16(b)
    case None => None
    case Some((size, b1)) =>
      match Read16(b1)
      case None => None
      case Some((secretSize, b2)) =>
        match Read16(b2)
        case None => None
        case Some((dataSize, rest)) => if size != 4 || secretSize != 0 || dataSize != 0 then None else Some(rest)
  }

  /** The end of the request: no outside info, no creation PCRs, and nothing after them. */
  predicate IsTail(b: Bytes) {
    match Read16(b)
    case None => false
    case Some((outsideSize, b1)) =>
      match Read32(b1)
      case None => false
      case Some((pcrCount, rest)) => outsideSize == 0 && pcrCount == 0 && rest == []
  }

  /** inSensitive, the sized public area, and the tail. */
  function DecodeParameters(b: Bytes): (r: Option<Bytes>) {
    match ReadSensitive(b)
    case None => None
    case Some(b1) =>
      match Read16(b1)
      case None => None
      case Some((n, b2)) =>
        match ReadN(b2, n)
        case None => None
        case Some((public, tail)) => if IsTail(tail) then Some(public) else None
  }

  function DecodeBody(b: Bytes): (r: Option<(Uint32, Bytes)>) {
    match Read32(b)
    case None => None
    case Some((handle, b1)) =>
      match ReadAuth(b1)
      case None => None
      case Some(b2) =>
        match DecodeParameters(b2)
        case None => None
        case Some(public) => Some((handle, public))
  }

  function Decode(req: Bytes): (r: Option<(Uint32, Template)>) {
    match ReadHeader(req)
    case None => None
    case Some((cc, b)) =>
      if cc != CC_CREATEPRIMARY then None
      else match DecodeBody(b)
        case None => None
        case Some((handle, public)) =>
          match DecodePublic(public)
          case None => None
          case Some(t) => Some((handle, t))
  }

  lemma Low16Is(n: nat)
    ensures Low16(n) <= n && (Low16(n) == n <==> n < 0x1_0000)
  {}

  lemma Low32Is(n: nat)
    requires n < 0x2_0000
    ensures Low32(n) == n
  {}

  lemma DecodePolicySized(t: Template, n: Uint16)
    requires n == |t.policy|
    ensures DecodePolicy(t.algId, t.hashAlg, t.keyFlags, Store16(n) + (t.policy + (t.parms + Store16(0)))) == Some(t)
  {
    var zero := Store16(0);
    var b2 := t.parms + zero;
    Read16Of(n, t.policy + b2);
    ReadNOf(t.policy, b2);
    assert b2[|b2| - 2..] == zero && b2[..|b2| - 2] == t.parms;
  }

  lemma DecodePolicyOf(t: Template)
    requires Fits(t)
    ensures DecodePolicy(t.algId, t.hashAlg, t.keyFlags, PolicyOn(t)) == Some(t)
  {
    Low16Is(|t.policy|);
    DecodePolicySized(t, Low16(|t.policy|));
  }

  lemma PublicParts(t: Template)
    ensures Public(t) == Store16(t.algId) + (Store16(t.hashAlg) + (Store32(t.keyFlags) + PolicyOn(t)))
  {}

  function PolicyOn(t: Template): Bytes {
    Store16(Low16(|t.policy|)) + (t.policy + (t.parms + Store16(0)))
  }

  lemma DecodeFront(algId: Uint16, hashAlg: Uint16, keyFlags: Uint32, b: Bytes)
    ensures DecodePublic(Store16(algId) + (Store16(hashAlg) + (Store32(keyFlags) + b)))
            == DecodePolicy(algId, hashAlg, keyFlags, b)
  {
    Read16Of(algId, Store16(hashAlg) + (Store32(keyFlags) + b));
    Read16Of(hashAlg, Store32(keyFlags) + b);
    Read32Of(keyFlags, b);
  }

  lemma DecodePublicOf(t: Template)
    requires Fits(t)
    ensures DecodePublic(Public(t)) == Some(t)
  {
    PublicParts(t);
    DecodeFront(t.algId, t.hashAlg, t.keyFlags, PolicyOn(t));
    DecodePolicyOf(t);
  }

  lemma ReadSensitiveOf(rest: Bytes)
    ensures ReadSensitive(InSensitive() + rest) == Some(rest)
  {
    assert Store32(0) == [0, 0] + [0, 0] && Store16(0) == [0, 0];
    assert InSensitive() + rest == Store16(4) + (Store16(0) + (Store16(0) + rest));
    Read16Of(4, Store16(0) + (Store16(0) + rest));
    Read16Of(0, Store16(0) + rest);
    Read16Of(0, rest);
  }

  lemma TailIsTail()
    ensures IsTail(Tail())
  {
    assert Store32(0) == [0, 0, 0, 0] && Store16(0) == [0, 0];
    assert Tail() == Store16(0) + (Store32(0) + []);
    Read16Of(0, Store32(0) + []);
    Read32Of(0, []);
  }

  lemma TailHasSix(b: Bytes)
    requires IsTail(b)
    ensures |b| == 6
  {}

  /** With a size below the true one, what is left over is no tail. */
  lemma DecodeParametersSized(n: Uint16, public: Bytes)
    requires n <= |public|
    ensures DecodeParameters(InSensitive() + (Store16(n) + (public + Tail())))
            == if n == |public| then Some(public) else None
  {
    var b2 := public + Tail();
    ReadSensitiveOf(Store16(n) + b2);
    Read16Of(n, b2);
    TailIsTail();
    if n == |public| {
      ReadNOf(public, Tail());
    } else if IsTail(b2[n..]) {
      TailHasSix(b2[n..]);
    }
  }

  /** The sized public area is read back, or nothing is. */
  lemma DecodeParametersOf(public: Bytes)
    ensures DecodeParameters(Parameters(public)) == if |public| < 0x1_0000 then Some(public) else None
  {
    Low16Is(|public|);
    DecodeParametersSized(Low16(|public|), public);
  }

  lemma DecodeBodyOf(handle: Uint32, public: Bytes)
    ensures DecodeBody(BodyOf(handle, public)) == if |public| < 0x1_0000 then Some((handle, public)) else None
  {
    Read32Of(handle, AuthArea() + Parameters(public));
    ReadAuthOf(Parameters(public));
    DecodeParametersOf(public);
  }

  lemma DecodeSized(size: Uint32, handle: Uint32, public: Bytes, t: Template)
    requires size == 41 + |public| && |public| < 0x1_0000 && DecodePublic(public) == Some(t)
    ensures Decode(Header(size, CC_CREATEPRIMARY) + BodyOf(handle, public)) == Some((handle, t))
  {
    ReadHeaderOf(size, CC_CREATEPRIMARY, BodyOf(handle, public));
    DecodeBodyOf(handle, public);
  }

  lemma DecodeOversized(size: Uint32, handle: Uint32, public: Bytes)
    requires |public| >= 0x1_0000
    ensures Decode(Header(size, CC_CREATEPRIMARY) + BodyOf(handle, public)) == None
  {
    if size == 41 + |public| {
      ReadHeaderOf(size, CC_CREATEPRIMARY, BodyOf(handle, public));
      DecodeBodyOf(handle, public);
    } else {
      ReadHeaderSize(size, CC_CREATEPRIMARY, BodyOf(handle, public));
    }
  }

  /** A request reads back as its handle and template exactly when the public area fits its size field;
      otherwise it does not read at all. */
  lemma DecodeEncode(handle: Uint32, t: Template)
    ensures Decode(Encode(handle, t)) == if Fits(t) then Some((handle, t)) else None
  {
    var public := Public(t);
    if Fits(t) {
      DecodePublicOf(t);
      Low32Is(41 + |public|);
      DecodeSized(Low32(41 + |public|), handle, public, t);
    } else {
      DecodeOversized(Low32(41 + |public|), handle, public);
    }
  }

  /** The request byte by byte, around its public area. */
  lemma RequestBytes(handle: Uint32, t: Template)
    requires Fits(t)
    ensures var b := Encode(handle, t); var n := |Public(t)|;
            && FromBin(b[..2]) == 0x8002 && FromBin(b[2..6]) == |b| && FromBin(b[6..10]) == 0x131
            && FromBin(b[10..14]) == handle && b[14..27] == [0, 0, 0, 9, 0x40, 0, 0, 9, 0, 0, 0, 0, 0]
            && b[27..33] == [0, 4, 0, 0, 0, 0] && FromBin(b[33..35]) == n && b[35..35 + n] == Public(t)
            && b[35 + n..] == [0, 0, 0, 0, 0, 0]
  {
    var b := Encode(handle, t);
    var n := |Public(t)|;
    Low32Is(41 + n);
    var header, body := Header(Low32(41 + n), CC_CREATEPRIMARY), BodyOf(handle, Public(t));
    HeaderBytes(Low32(41 + n), CC_CREATEPRIMARY);
    assert b[..2] == header[..2] && b[2..6] == header[2..6] && b[6..10] == header[6..10];
    BodyBytes(handle, Public(t));
    assert b[10..14] == body[..4] && b[14..27] == body[4..17] && b[27..33] == body[17..23];
    assert b[33..35] == body[23..25] && b[35..35 + n] == body[25..25 + n] && b[35 + n..] == body[25 + n..];
  }

  lemma BodyBytes(handle: Uint32, public: Bytes)
    requires |public| < 0x1_0000
    ensures var b := BodyOf(handle, public); var n := |public|;
            && FromBin(b[..4]) == handle && b[4..17] == [0, 0, 0, 9, 0x40, 0, 0, 9, 0, 0, 0, 0, 0]
            && b[17..23] == [0, 4, 0, 0, 0, 0] && FromBin(b[23..25]) == n && b[25..25 + n] == public
            && b[25 + n..] == [0, 0, 0, 0, 0, 0]
  {
    var b := BodyOf(handle, public);
    var n := |public|;
    AuthBytes();
    Low16Is(n);
    assert Store32(0) == [0, 0, 0, 0] && Store16(0) == [0, 0] && Store16(4) == [0, 4];
    assert b[..4] == Store32(handle) && b[4..17] == AuthArea() && b[17..23] == InSensitive();
    assert b[23..25] == Store16(n) && b[25..25 + n] == public && b[25 + n..] == Tail();
    LoadIsFromBin(b[..4]);
    LoadIsFromBin(b[23..25]);
  }

  method BuildPublic(t: Template, malloc: nat -> bool) returns (public: Option<Bytes>)
    ensures public.Some? ==> public.value == Public(t)
    ensures public.None? ==> exists n: nat :: !malloc(n)
  {
    var prefix := Store16(t.algId) + Store16(t.hashAlg) + Store32(t.keyFlags) + Store16(Low16(|t.policy|));
    var buffer, len := MemConcat([Some(prefix), Some(t.policy), Some(t.parms), Some(Store16(0)), None], malloc);
    if buffer.None? {
      return None;
    }
    FlattenFour(prefix, t.policy, t.parms, Store16(0));
    return Some(buffer.value[..len]);
  }

  method Build(handle: Uint32, t: Template, malloc: nat -> bool) returns (req: Option<Bytes>)
    ensures req.Some? ==> req.value == Encode(handle, t)
    ensures req.None? ==> exists n: nat :: !malloc(n)
  {
    var public := BuildPublic(t, malloc);
    if public.None? {
      return None;
    }
    var area := public.value;
    var authPrefix := Store32(handle) + Store32(AUTHBLOCK_SIZE);
    var sizes := InSensitive() + Store16(Low16(|area|));
    var buffer, len := MemConcat([Some(Header(0, CC_CREATEPRIMARY)), Some(authPrefix), Some(Authblock()), Some(sizes),
                                  Some(area), Some(Tail()), None], malloc);
    if buffer.None? {
      return None;
    }
    FlattenSix(Header(0, CC_CREATEPRIMARY), authPrefix, Authblock(), sizes, area, Tail());
    BodyParts(handle, area);
    PatchSize(buffer.value, len, Low32(len), CC_CREATEPRIMARY, BodyOf(handle, area));
    return Some(buffer.value[..len]);
  }

  /** The body, cut where the code cuts it. */
  lemma BodyParts(handle: Uint32, public: Bytes)
    ensures BodyOf(handle, public) == (Store32(handle) + Store32(AUTHBLOCK_SIZE))
                                      + (Authblock() + ((InSensitive() + Store16(Low16(|public|))) + (public + Tail())))
  {}

  // ---------------------------------------------------------------- the response

  /** `OutOfBounds` stands for a read beyond the 4096-byte buffer. */
  datatype Extracted = Key(handle: Uint32, key: Bytes) | Failed | OutOfBounds

  /** A TPM2_CreatePrimary response that echoes the template: header, object handle, parameter size, the
      sized public area with the key in its unique field, and whatever else follows. */
  function Response(handle: Uint32, t: Template, key: Bytes, paramSize: Uint32, size: Uint32, rest: Bytes): (b: Bytes)
    requires Fits(t) && 12 + |t.policy| + |t.parms| + |key| < 0x1_0000
    ensures |b| == KeyOffset(t) + 2 + |key| + |rest|
  {
    ResponseFront(handle, t, |key|, paramSize, size) + (Store16(|key|) + (key + rest))
  }

  function ResponseFront(handle: Uint32, t: Template, keyLen: nat, paramSize: Uint32, size: Uint32): (b: Bytes)
    requires Fits(t) && 12 + |t.policy| + |t.parms| + keyLen < 0x1_0000
    ensures |b| == KeyOffset(t)
  {
    Store16(ST_SESSIONS) + Store32(size) + Store32(0) + Store32(handle) + Store32(paramSize)
    + Store16(12 + |t.policy| + |t.parms| + keyLen) + PublicFront(t)
  }

  /** The constant the key creators pass: 30 + policy length + parameter length. */
  function KeyOffset(t: Template): nat { 30 + |t.policy| + |t.parms| }

  /** The caller's 4096-byte buffer after the transfer: a longer response is not copied at all. */
  function Received(stale: Bytes, resp: Bytes): (b: Bytes)
    requires |stale| == RESPONSE_MAX
    ensures |b| == RESPONSE_MAX
  {
    if |resp| <= RESPONSE_MAX then resp + stale[|resp|..] else stale
  }

  /** Handle at byte 10, key size at `off`, key bytes after it; `len` is the reported response length, which
      is all the code compares the offsets with. */
  function Extract(buf: Bytes, len: nat, off: nat, expected: Uint16, keyMax: nat): (r: Extracted)
    requires |buf| == RESPONSE_MAX
  {
    if len < 14 || len < off + 2 then Failed
    else if off + 2 > RESPONSE_MAX then OutOfBounds
    else if Load16(buf[off..off + 2]) != expected then Failed
    else if len < off + 2 + expected || expected > keyMax then Failed
    else if off + 2 + expected > RESPONSE_MAX then OutOfBounds
    else Key(Load32(buf[10..14]), buf[off + 2..off + 2 + expected])
  }

  /** What counts as an answer: a length that covers handle, key size and key, and a key of the expected size that
      fits the caller's space and the buffer. */
  lemma ExtractsIff(buf: Bytes, len: nat, off: nat, expected: Uint16, keyMax: nat, handle: Uint32, key: Bytes)
    requires |buf| == RESPONSE_MAX
    ensures Extract(buf, len, off, expected, keyMax) == Key(handle, key) <==>
              && 14 <= len && off + 2 + expected <= len && expected <= keyMax && off + 2 + expected <= 4096
              && FromBin(buf[off..off + 2]) == expected
              && handle == FromBin(buf[10..14]) && key == buf[off + 2..off + 2 + expected]
  {
    LoadIsFromBin(buf[10..14]);
    if off + 2 <= RESPONSE_MAX { LoadIsFromBin(buf[off..off + 2]); }
  }

  /** The key size, and then the key, end within the buffer or are not looked at. */
  predicate StaysInside(len: nat, off: nat, expected: Uint16, keyMax: nat) {
    || len < 14 || len < off + 2
    || (off + 2 <= RESPONSE_MAX
        && (len < off + 2 + expected || expected > keyMax || off + 2 + expected <= RESPONSE_MAX))
  }

  /** Exactly when every read stays inside the buffer, whatever it holds. */
  lemma InsideIff(len: nat, off: nat, expected: Uint16, keyMax: nat)
    ensures (forall buf: Bytes :: |buf| == RESPONSE_MAX ==> Extract(buf, len, off, expected, keyMax) != OutOfBounds)
            <==> StaysInside(len, off, expected, keyMax)
    ensures len <= RESPONSE_MAX ==> StaysInside(len, off, expected, keyMax)
  {
    if !StaysInside(len, off, expected, keyMax) {
      var buf := Holding(off, expected);
      assert Extract(buf, len, off, expected, keyMax) == OutOfBounds;
    }
  }

  /** A buffer with the expected key size at the offset, if it is one. */
  function Holding(off: nat, expected: Uint16): (buf: Bytes)
    ensures |buf| == RESPONSE_MAX && (off + 2 <= RESPONSE_MAX ==> Load16(buf[off..off + 2]) == expected)
  {
    if off + 2 <= RESPONSE_MAX then
      var buf := seq(off, _ => 0) + Store16(expected) + seq(RESPONSE_MAX - off - 2, _ => 0);
      assert buf[off..off + 2] == Store16(expected);
      buf
    else seq(RESPONSE_MAX, _ => 0)
  }

  // ---------------------------------------------------------------- the nine key creators

  /** Endorsement keys for key encapsulation and for signing, and attestation keys, each at three strengths. */
  datatype Use = EkKem | EkSign | Ak
  datatype Strength = Low | Middle | High

  function PolicyLength(u: Use, s: Strength): nat {
    if u.Ak? then 0 else match s case Low => 32 case Middle => 48 case High => 64
  }

  function ParmsLength(u: Use): nat { if u.EkKem? then 8 else 3 }

  function KeySize(u: Use, s: Strength): Uint16 {
    match s
    case Low => if u.EkKem? then 800 else 1312
    case Middle => if u.EkKem? then 1184 else 1952
    case High => if u.EkKem? then 1568 else 2592
  }

  /** No creator ever reads outside the buffer, however long the response and whatever the buffer holds. */
  lemma CreatorsStayInside(u: Use, s: Strength, buf: Bytes, len: nat, keyMax: nat)
    requires |buf| == RESPONSE_MAX
    ensures Extract(buf, len, 30 + PolicyLength(u, s) + ParmsLength(u), KeySize(u, s), keyMax) != OutOfBounds
  {
    InsideIff(len, 30 + PolicyLength(u, s) + ParmsLength(u), KeySize(u, s), keyMax);
  }

  // ---------------------------------------------------------------- what is extracted

  lemma ResponseFields(handle: Uint32, t: Template, key: Bytes, paramSize: Uint32, size: Uint32, rest: Bytes)
    requires Fits(t) && 12 + |t.policy| + |t.parms| + |key| < 0x1_0000
    ensures var b := Response(handle, t, key, paramSize, size, rest); var off := KeyOffset(t);
            Load32(b[10..14]) == handle && Load16(b[off..off + 2]) == |key| && b[off + 2..off + 2 + |key|] == key
  {
    var b := Response(handle, t, key, paramSize, size, rest);
    var front := ResponseFront(handle, t, |key|, paramSize, size);
    var off := KeyOffset(t);
    assert b[..off] == front;
    assert b[10..14] == front[10..14] == Store32(handle);
    assert b[off..off + 2] == Store16(|key|);
    assert b[off + 2..off + 2 + |key|] == key;
  }

  /** The fixed offset is right: from any response of at most 4096 bytes that echoes the template, and
      whatever the buffer held before, the extraction yields exactly the handle and the key bytes. */
  lemma ExtractFindsKey(handle: Uint32, t: Template, key: Bytes, paramSize: Uint32, size: Uint32, rest: Bytes,
                        stale: Bytes, keyMax: nat)
    requires Fits(t) && |stale| == RESPONSE_MAX && |key| <= keyMax && 12 + |t.policy| + |t.parms| + |key| < 0x1_0000
    requires |Response(handle, t, key, paramSize, size, rest)| <= RESPONSE_MAX
    ensures var resp := Response(handle, t, key, paramSize, size, rest);
            Extract(Received(stale, resp), |resp|, KeyOffset(t), |key|, keyMax) == Key(handle, key)
  {
    var resp := Response(handle, t, key, paramSize, size, rest);
    var buf := Received(stale, resp);
    var off := KeyOffset(t);
    ResponseFields(handle, t, key, paramSize, size, rest);
    assert buf[..|resp|] == resp;
    assert buf[10..14] == resp[10..14] && buf[off..off + 2] == resp[off..off + 2];
    assert buf[off + 2..off + 2 + |key|] == resp[off + 2..off + 2 + |key|];
  }

  /** The length limit is needed: a longer response leaves the buffer as it was while its length passes all
      checks, and then a stale buffer with another handle is taken for the answer, or the key would end
      outside the buffer. */
  lemma ExtractNeedsLimit(handle: Uint32, t: Template, key: Bytes, paramSize: Uint32, size: Uint32, rest: Bytes,
                          keyMax: nat)
    requires Fits(t) && |key| <= keyMax && 12 + |t.policy| + |t.parms| + |key| < 0x1_0000
    ensures var resp := Response(handle, t, key, paramSize, size, rest);
            (forall stale: Bytes :: |stale| == RESPONSE_MAX ==>
               Extract(Received(stale, resp), |resp|, KeyOffset(t), |key|, keyMax) == Key(handle, key))
            <==> |resp| <= RESPONSE_MAX
  {
    var resp := Response(handle, t, key, paramSize, size, rest);
    if |resp| <= RESPONSE_MAX {
      forall stale: Bytes | |stale| == RESPONSE_MAX
        ensures Extract(Received(stale, resp), |resp|, KeyOffset(t), |key|, keyMax) == Key(handle, key)
      {
        ExtractFindsKey(handle, t, key, paramSize, size, rest, stale, keyMax);
      }
    } else {
      var stale := OtherAnswer(handle, t, key);
      assert Received(stale, resp) == stale;
      OtherAnswerExtracts(handle, t, key, |resp|, keyMax);
    }
  }

  /** A buffer that does not hold the answer: the same key under another handle, as far as it has room. */
  function OtherAnswer(handle: Uint32, t: Template, key: Bytes): (b: Bytes)
    requires Fits(t) && 12 + |t.policy| + |t.parms| + |key| < 0x1_0000
    ensures |b| == RESPONSE_MAX
  {
    var room := RESPONSE_MAX - (KeyOffset(t) + 2 + |key|);
    if room < 0 then seq(RESPONSE_MAX, _ => 0)
    else Response(if handle == 0 then 1 else 0, t, key, 0, 0, seq(room, _ => 0))
  }

  lemma OtherAnswerExtracts(handle: Uint32, t: Template, key: Bytes, len: nat, keyMax: nat)
    requires Fits(t) && 12 + |t.policy| + |t.parms| + |key| < 0x1_0000
    ensures Extract(OtherAnswer(handle, t, key), len, KeyOffset(t), |key|, keyMax) != Key(handle, key)
  {
    var room := RESPONSE_MAX - (KeyOffset(t) + 2 + |key|);
    if room >= 0 {
      ResponseFields(if handle == 0 then 1 else 0, t, key, 0, 0, seq(room, _ => 0));
    }
  }
}
