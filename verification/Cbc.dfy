/** TPM_SymmetricKeyData_Encrypt and _Decrypt: AES in cipher block chaining mode with a zero
    initialization vector (section 6.2 of NIST SP 800-38A) and the padding of section 6.3 of RFC 2630.
    The block cipher is any family of permutations. */
module Cbc {
  import opened Bytes

  /** A block cipher under some key, and its inverse. */
  datatype Cipher = Cipher(enc: Block -> Block, dec: Block -> Block)

  ghost predicate IsPermutation(c: Cipher) {
    forall b: Block :: c.dec(c.enc(b)) == b && c.enc(c.dec(b)) == b
  }

  datatype Result = Ok(data: Bytes) | DecryptError | Size | Fail

  function XorBlock(a: Block, b: Block): (r: Block)
    ensures forall i :: 0 <= i < BLOCK ==> r[i] == Xor(a[i], b[i])
  {
    seq(BLOCK, i requires 0 <= i < BLOCK => Xor(a[i], b[i]))
  }

  lemma XorBlockTwice(a: Block, b: Block)
    ensures XorBlock(XorBlock(a, b), b) == a
  {
    forall i | 0 <= i < BLOCK ensures XorBlock(XorBlock(a, b), b)[i] == a[i] {
      XorTwice(a[i], b[i]);
    }
  }

  function ZeroBlock(): Block { seq(BLOCK, _ => 0) }

  // ---------------------------------------------------------------- chaining

  function ChainEncrypt(c: Cipher, iv: Block, data: Bytes): (r: Bytes)
    requires |data| % BLOCK == 0
    ensures |r| == |data|
    decreases |data|
  {
    if data == [] then []
    else c.enc(XorBlock(data[..BLOCK], iv)) + ChainEncrypt(c, c.enc(XorBlock(data[..BLOCK], iv)), data[BLOCK..])
  }

  function ChainDecrypt(c: Cipher, iv: Block, data: Bytes): (r: Bytes)
    requires |data| % BLOCK == 0
    ensures |r| == |data|
    decreases |data|
  {
    if data == [] then []
    else XorBlock(c.dec(data[..BLOCK]), iv) + ChainDecrypt(c, data[..BLOCK], data[BLOCK..])
  }

  lemma {:induction false} DecryptUndoesEncrypt(c: Cipher, iv: Block, data: Bytes)
    requires IsPermutation(c) && |data| % BLOCK == 0
    ensures ChainDecrypt(c, iv, ChainEncrypt(c, iv, data)) == data
    decreases |data|
  {
    if data != [] {
      var head: Block := data[..BLOCK];
      var first: Block := c.enc(XorBlock(head, iv));
      var rest: Bytes := ChainEncrypt(c, first, data[BLOCK..]);
      SplitBlock(first, rest);
      XorBlockTwice(head, iv);
      DecryptUndoesEncrypt(c, first, data[BLOCK..]);
      assert data == head + data[BLOCK..];
    }
  }

  lemma {:induction false} EncryptUndoesDecrypt(c: Cipher, iv: Block, data: Bytes)
    requires IsPermutation(c) && |data| % BLOCK == 0
    ensures ChainEncrypt(c, iv, ChainDecrypt(c, iv, data)) == data
    decreases |data|
  {
    if data != [] {
      var head: Block := data[..BLOCK];
      var first: Block := XorBlock(c.dec(head), iv);
      var rest: Bytes := ChainDecrypt(c, head, data[BLOCK..]);
      SplitBlock(first, rest);
      XorBlockTwice(c.dec(head), iv);
      EncryptUndoesDecrypt(c, head, data[BLOCK..]);
      assert data == head + data[BLOCK..];
    }
  }

  lemma SplitBlock(first: Bytes, rest: Bytes)
    requires |first| == BLOCK
    ensures (first + rest)[..BLOCK] == first && (first + rest)[BLOCK..] == rest
  {}

  // ---------------------------------------------------------------- the chain block by block

  function BlockAt(data: Bytes, i: nat): (b: Block)
    requires BLOCK * i + BLOCK <= |data|
  {
    data[BLOCK * i..BLOCK * i + BLOCK]
  }

  /** `r` is the exclusive or of `a` and `b`, bit by bit. */
  ghost predicate BlocksDiffer(a: Block, b: Block, r: Block) {
    forall j :: 0 <= j < BLOCK ==> Differs(a[j], b[j], r[j])
  }

  lemma XorBlockIff(a: Block, b: Block, r: Block)
    ensures r == XorBlock(a, b) <==> BlocksDiffer(a, b, r)
  {
    forall j | 0 <= j < BLOCK ensures r[j] == Xor(a[j], b[j]) <==> Differs(a[j], b[j], r[j]) {
      XorIff(a[j], b[j], r[j]);
    }
  }

  /** What block `i` is combined with: the block before it in `chain`, or the initialization vector. */
  function Previous(iv: Block, chain: Bytes, i: nat): Block
    requires BLOCK * i <= |chain|
  {
    if i == 0 then iv else BlockAt(chain, i - 1)
  }

  lemma TailBlock(first: Bytes, rest: Bytes, i: nat)
    requires |first| == BLOCK && i > 0 && BLOCK * i + BLOCK <= BLOCK + |rest|
    ensures BlockAt(first + rest, i) == BlockAt(rest, i - 1)
  {}

  lemma {:induction false} EncryptedBlock(c: Cipher, iv: Block, data: Bytes, i: nat)
    requires |data| % BLOCK == 0 && BLOCK * i + BLOCK <= |data|
    ensures var out := ChainEncrypt(c, iv, data);
            BlockAt(out, i) == c.enc(XorBlock(BlockAt(data, i), Previous(iv, out, i)))
    decreases i
  {
    var head: Block, tail := data[..BLOCK], data[BLOCK..];
    var first := c.enc(XorBlock(head, iv));
    var rest := ChainEncrypt(c, first, tail);
    SplitBlock(first, rest);
    if i > 0 {
      EncryptedBlock(c, first, tail, i - 1);
      assert data == head + tail;
      TailBlock(head, tail, i);
      TailBlock(first, rest, i);
      if i > 1 { TailBlock(first, rest, i - 1); }
    }
  }

  lemma {:induction false} DecryptedBlock(c: Cipher, iv: Block, data: Bytes, i: nat)
    requires |data| % BLOCK == 0 && BLOCK * i + BLOCK <= |data|
    ensures BlockAt(ChainDecrypt(c, iv, data), i) == XorBlock(c.dec(BlockAt(data, i)), Previous(iv, data, i))
    decreases i
  {
    var head: Block, tail := data[..BLOCK], data[BLOCK..];
    var first := XorBlock(c.dec(head), iv);
    var rest := ChainDecrypt(c, head, tail);
    SplitBlock(first, rest);
    if i > 0 {
      DecryptedBlock(c, head, tail, i - 1);
      assert data == head + tail;
      TailBlock(head, tail, i);
      TailBlock(first, rest, i);
      if i > 1 { TailBlock(head, tail, i - 1); }
    }
  }

  /** And back: block `i` of the plaintext is the bitwise exclusive or of the deciphered block with the
      ciphertext block before it. */
  lemma PlaintextBlock(c: Cipher, data: Bytes, i: nat)
    requires |data| % BLOCK == 0 && BLOCK * i + BLOCK <= |data|
    ensures BlocksDiffer(c.dec(BlockAt(data, i)), Previous(seq(16, _ => 0), data, i),
                         BlockAt(ChainDecrypt(c, ZeroBlock(), data), i))
  {
    assert ZeroBlock() == seq(16, _ => 0);
    DecryptedBlock(c, ZeroBlock(), data, i);
    XorBlockIff(c.dec(BlockAt(data, i)), Previous(ZeroBlock(), data, i),
                BlockAt(ChainDecrypt(c, ZeroBlock(), data), i));
  }

  // ---------------------------------------------------------------- padding

  function PadLength(n: nat): (k: nat)
    ensures 1 <= k <= BLOCK && (n + k) % BLOCK == 0
  {
    BLOCK - n % BLOCK
  }

  function Pad(m: Bytes): (r: Bytes)
    ensures |r| == |m| + PadLength(|m|)
  {
    m + seq(PadLength(|m|), _ => PadLength(|m|))
  }

  /** Section 6.3 of RFC 2630: the message, then at least one and at most sixteen bytes that each hold their own
      number, up to the next multiple of sixteen bytes. No other byte string is that. */
  lemma PadIff(m: Bytes, r: Bytes)
    ensures r == Pad(m) <==> && |m| < |r| <= |m| + 16 && |r| % 16 == 0 && r[..|m|] == m
                             && forall i :: |m| <= i < |r| ==> r[i] == |r| - |m|
  {
    if |m| < |r| <= |m| + 16 && |r| % 16 == 0 {
      PadLengthIs(|m|, |r| - |m|);
    }
    assert Pad(m)[..|m|] == m;
  }

  /** What the checks on the last byte and on the padding accept, and what they strip. */
  predicate WellPadded(x: Bytes) {
    && x != [] && 1 <= x[|x| - 1] <= BLOCK && x[|x| - 1] <= |x|
    && forall i :: |x| - x[|x| - 1] <= i < |x| ==> x[i] == x[|x| - 1]
  }

  function Strip(x: Bytes): Bytes
    requires WellPadded(x)
  {
    x[..|x| - x[|x| - 1]]
  }

  /** The checks accept exactly the paddings. */
  lemma StripIffPad(x: Bytes, m: Bytes)
    requires |x| % BLOCK == 0
    ensures WellPadded(x) && Strip(x) == m <==> x == Pad(m)
  {
    if x == Pad(m) {
      assert x[|x| - 1] == PadLength(|m|);
      assert x[..|m|] == m;
    }
    if WellPadded(x) && Strip(x) == m {
      PadLengthIs(|m|, x[|x| - 1]);
      assert forall i :: 0 <= i < |m| ==> x[i] == m[i];
    }
  }

  lemma PadLengthIs(n: nat, k: nat)
    requires 1 <= k <= BLOCK && (n + k) % BLOCK == 0
    ensures PadLength(n) == k
  {}

  // ---------------------------------------------------------------- the two operations

  /** TPM_Malloc of a 32-bit size. */
  function Malloc(size: Uint32): Result {
    if size > ALLOC_MAX then Size else if size == 0 then Fail else Ok([])
  }

  function EncryptSpec(c: Cipher, m: Bytes): (r: Result)
    requires |m| < 0x1_0000_0000
  {
    match Malloc((|m| + PadLength(|m|)) % 0x1_0000_0000)
    case Ok(_) => Ok(ChainEncrypt(c, ZeroBlock(), Pad(m)))
    case e => e
  }

  /** The cipher works on whole blocks: of a last block that is not whole it reads the missing bytes from
      beyond the ciphertext. */
  function Missing(n: nat): (k: nat)
    ensures k < BLOCK && (n + k) % BLOCK == 0 && (k == 0 <==> n % BLOCK == 0)
  {
    (BLOCK - n % BLOCK) % BLOCK
  }

  function Decrypted(c: Cipher, x: Bytes, beyond: Bytes): (r: Bytes)
    requires |beyond| == Missing(|x|)
    ensures |r| == |x|
  {
    ChainDecrypt(c, ZeroBlock(), x + beyond)[..|x|]
  }

  function DecryptSpec(c: Cipher, x: Bytes, beyond: Bytes): (r: Result)
    requires |beyond| == Missing(|x|)
  {
    if |x| < BLOCK then DecryptError
    else if |x| > ALLOC_MAX then Size
    else if WellPadded(Decrypted(c, x, beyond)) then Ok(Strip(Decrypted(c, x, beyond)))
    else DecryptError
  }

  /** Cipher block chaining: block `i` of the ciphertext is the cipher of the bitwise exclusive or of block `i` of
      the padded message with ciphertext block `i - 1`, or with sixteen zero bytes. */
  lemma CiphertextBlock(c: Cipher, m: Bytes, out: Bytes, i: nat, x: Block)
    requires |m| < 0x1_0000_0000 && EncryptSpec(c, m) == Ok(out) && BLOCK * i + BLOCK <= |Pad(m)| == |out|
    requires BlocksDiffer(BlockAt(Pad(m), i), Previous(seq(16, _ => 0), out, i), x)
    ensures BlockAt(out, i) == c.enc(x)
  {
    assert ZeroBlock() == seq(16, _ => 0);
    EncryptedBlock(c, ZeroBlock(), Pad(m), i);
    XorBlockIff(BlockAt(Pad(m), i), Previous(ZeroBlock(), out, i), x);
  }

  /** Encryption succeeds exactly within the allocation limit, also at the top of the 32-bit range. */
  lemma EncryptSucceedsIff(c: Cipher, m: Bytes)
    requires |m| < 0x1_0000_0000
    ensures EncryptSpec(c, m).Ok? <==> |Pad(m)| <= ALLOC_MAX
    ensures EncryptSpec(c, m).Ok? ==> |EncryptSpec(c, m).data| == |Pad(m)|
  {}

  lemma WholeBlocks(c: Cipher, x: Bytes)
    requires |x| % BLOCK == 0
    ensures Missing(|x|) == 0 && Decrypted(c, x, []) == ChainDecrypt(c, ZeroBlock(), x)
  {
    assert x + [] == x;
  }

  /** A chain of whole blocks is well padded with `m` inside exactly when it encrypts the padded `m`. */
  lemma PadsIffChains(c: Cipher, m: Bytes, x: Bytes)
    requires IsPermutation(c) && |x| % BLOCK == 0
    ensures var p := ChainDecrypt(c, ZeroBlock(), x);
            WellPadded(p) && Strip(p) == m <==> x == ChainEncrypt(c, ZeroBlock(), Pad(m))
  {
    EncryptUndoesDecrypt(c, ZeroBlock(), x);
    DecryptUndoesEncrypt(c, ZeroBlock(), Pad(m));
    StripIffPad(ChainDecrypt(c, ZeroBlock(), x), m);
  }

  /** Accepted ciphertexts are precisely the image of encryption, each with its own plaintext. */
  lemma DecryptsIffEncrypts(c: Cipher, m: Bytes, x: Bytes)
    requires IsPermutation(c) && |x| % BLOCK == 0 && |m| < 0x1_0000_0000
    ensures DecryptSpec(c, x, []) == Ok(m) <==> EncryptSpec(c, m) == Ok(x)
  {
    WholeBlocks(c, x);
    EncryptSucceedsIff(c, m);
    PadsIffChains(c, m, x);
  }

  /** Round trip for every message that can be encrypted at all. */
  lemma RoundTrip(c: Cipher, m: Bytes)
    requires IsPermutation(c) && |Pad(m)| <= ALLOC_MAX
    ensures EncryptSpec(c, m).Ok? && |EncryptSpec(c, m).data| % BLOCK == 0
    ensures DecryptSpec(c, EncryptSpec(c, m).data, []) == Ok(m)
  {
    EncryptSucceedsIff(c, m);
    DecryptsIffEncrypts(c, m, EncryptSpec(c, m).data);
  }

  /** `k` bytes of value `k`: a padding of any length the checks accept. */
  function Padding(k: nat): (r: Bytes)
    requires k <= BLOCK
    ensures |r| == k
  {
    seq(k, _ => k)
  }

  /** `x` and the bytes beyond it are the encryption of `m`, a padding of length `k` and a `tail`. */
  ghost predicate ComesFrom(c: Cipher, x: Bytes, beyond: Bytes, m: Bytes, k: nat, tail: Bytes)
    requires |beyond| == Missing(|x|)
  {
    && 1 <= k <= BLOCK && |m| + k == |x| && |tail| == |beyond|
    && ChainEncrypt(c, ZeroBlock(), m + Padding(k) + tail) == x + beyond
  }

  /** Acceptance for every length: exactly what comes from a padded message, with any tail. */
  lemma DecryptsIff(c: Cipher, x: Bytes, beyond: Bytes, m: Bytes)
    requires IsPermutation(c) && |beyond| == Missing(|x|) && BLOCK <= |x| <= ALLOC_MAX
    ensures DecryptSpec(c, x, beyond) == Ok(m) <==> exists k, tail :: ComesFrom(c, x, beyond, m, k, tail)
  {
    var all := ChainDecrypt(c, ZeroBlock(), x + beyond);
    if DecryptSpec(c, x, beyond) == Ok(m) {
      var k: nat, tail := all[|x| - 1], all[|x|..];
      EncryptUndoesDecrypt(c, ZeroBlock(), x + beyond);
      StripsPadding(all[..|x|], m, k);
      assert all == all[..|x|] + tail;
      assert ComesFrom(c, x, beyond, m, k, tail);
    }
    if k, tail :| ComesFrom(c, x, beyond, m, k, tail) {
      Accepts(c, x, beyond, m, k, tail);
    }
  }

  lemma StripsPadding(x: Bytes, m: Bytes, k: nat)
    requires 1 <= k <= BLOCK && k <= |x| && x[|x| - 1] == k
    ensures WellPadded(x) && Strip(x) == m <==> x == m + Padding(k)
  {
    if x == m + Padding(k) {
      assert x[..|x| - k] == m;
    }
    if WellPadded(x) && Strip(x) == m {
      assert x[|x| - k..] == Padding(k);
      assert x == x[..|x| - k] + x[|x| - k..];
    }
  }

  lemma Accepts(c: Cipher, x: Bytes, beyond: Bytes, m: Bytes, k: nat, tail: Bytes)
    requires IsPermutation(c) && |beyond| == Missing(|x|) && BLOCK <= |x| <= ALLOC_MAX
    requires ComesFrom(c, x, beyond, m, k, tail)
    ensures DecryptSpec(c, x, beyond) == Ok(m)
  {
    var padded := m + Padding(k);
    DecryptUndoesEncrypt(c, ZeroBlock(), padded + tail);
    assert (padded + tail)[..|x|] == padded;
    assert padded[|x| - 1] == k;
    StripsPadding(padded, m, k);
  }

  /** The code does not check that the length is a multiple of the block size. At a length where it is, all
      that is accepted is an encryption; at any other, something is accepted that is none. */
  lemma AcceptsOnlyEncryptionsIff(c: Cipher, n: nat)
    requires IsPermutation(c) && BLOCK <= n <= ALLOC_MAX
    ensures (forall x: Bytes, beyond: Bytes, m: Bytes | |x| == n && |beyond| == Missing(n) && |m| <= n ::
               DecryptSpec(c, x, beyond) == Ok(m) ==> EncryptSpec(c, m) == Ok(x))
            <==> n % BLOCK == 0
  {
    if n % BLOCK == 0 {
      forall x: Bytes, beyond: Bytes, m: Bytes | |x| == n && |beyond| == Missing(n) && |m| <= n
          && DecryptSpec(c, x, beyond) == Ok(m)
        ensures EncryptSpec(c, m) == Ok(x)
      {
        assert beyond == [];
        DecryptsIffEncrypts(c, m, x);
      }
    } else {
      var m: Bytes, tail: Bytes := seq(n - 1, _ => 0), seq(Missing(n), _ => 0);
      var all := ChainEncrypt(c, ZeroBlock(), m + Padding(1) + tail);
      var x, beyond := all[..n], all[n..];
      assert all == x + beyond;
      Accepts(c, x, beyond, m, 1, tail);
      assert EncryptSpec(c, m) != Ok(x);
    }
  }

  /** One round of decryption: the block at `off` and the rest. */
  lemma ChainDecryptStep(c: Cipher, iv: Block, data: Bytes, off: nat)
    requires |data| % BLOCK == 0 && off % BLOCK == 0 && off + BLOCK <= |data|
    ensures ChainDecrypt(c, iv, data[off..])
            == XorBlock(c.dec(data[off..off + BLOCK]), iv)
               + ChainDecrypt(c, data[off..off + BLOCK], data[off + BLOCK..])
  {
    assert data[off..][..BLOCK] == data[off..off + BLOCK];
    assert data[off..][BLOCK..] == data[off + BLOCK..];
  }

  /** AES_cbc_encrypt in its encrypting direction, block by block through the chaining vector. */
  method CbcEncrypt(c: Cipher, data: Bytes) returns (out: Bytes)
    requires |data| % BLOCK == 0
    ensures out == ChainEncrypt(c, ZeroBlock(), data)
  {
    out := [];
    var ivec: Block := ZeroBlock();
    var off := 0;
    while off < |data|
      invariant off <= |data| && off % BLOCK == 0
      invariant ChainEncrypt(c, ZeroBlock(), data) == out + ChainEncrypt(c, ivec, data[off..])
    {
      var rest := data[off..];
      ivec := c.enc(XorBlock(rest[..BLOCK], ivec));
      assert rest[BLOCK..] == data[off + BLOCK..];
      out := out + ivec;
      off := off + BLOCK;
    }
  }

  method DecryptBlocks(c: Cipher, data: Bytes) returns (out: Bytes)
    requires |data| % BLOCK == 0
    ensures out == ChainDecrypt(c, ZeroBlock(), data)
  {
    out := [];
    var ivec: Block := ZeroBlock();
    var off := 0;
    while off < |data|
      invariant off <= |data| && off % BLOCK == 0
      invariant ChainDecrypt(c, ZeroBlock(), data) == out + ChainDecrypt(c, ivec, data[off..])
    {
      var block: Block := data[off..off + BLOCK];
      ChainDecryptStep(c, ivec, data, off);
      out := out + XorBlock(c.dec(block), ivec);
      ivec := block;
      off := off + BLOCK;
    }
  }

  /** In the decrypting direction, the last block completed with what lies beyond it and cut off again. */
  method CbcDecrypt(c: Cipher, x: Bytes, beyond: Bytes) returns (out: Bytes)
    requires |beyond| == Missing(|x|)
    ensures out == Decrypted(c, x, beyond)
  {
    out := DecryptBlocks(c, x + beyond);
    out := out[..|x|];
  }

  method Encrypt(c: Cipher, m: Bytes) returns (r: Result)
    requires |m| < 0x1_0000_0000
    ensures r == EncryptSpec(c, m)
  {
    var padLength := BLOCK - |m| % BLOCK;
    var encryptLength := (|m| + padLength) % 0x1_0000_0000;
    r := Malloc(encryptLength);
    if r.Ok? {
      var padded := m + seq(padLength, _ => padLength);
      assert padded == Pad(m);
      var out := CbcEncrypt(c, padded);
      r := Ok(out);
    }
  }

  /** For a ciphertext of any length; `beyond` is what the memory after it holds. */
  method Decrypt(c: Cipher, x: Bytes, beyond: Bytes) returns (r: Result)
    requires |beyond| == Missing(|x|)
    ensures r == DecryptSpec(c, x, beyond)
  {
    if |x| < BLOCK {
      return DecryptError;
    }
    if |x| > ALLOC_MAX {
      return Size;
    }
    var plain := CbcDecrypt(c, x, beyond);
    var padLength := plain[|x| - 1];
    if padLength == 0 || padLength > BLOCK {
      return DecryptError;
    }
    var good := true;
    var start := |x| - padLength;
    for i := 0 to padLength
      invariant good <==> forall k :: start <= k < start + i ==> plain[k] == padLength
    {
      if plain[start + i] != padLength {
        good := false;
      }
    }
    return if good then Ok(plain[..start]) else DecryptError;
  }
}
