/** TPM_SymmetricKeyData_CtrCrypt: counter mode (section 6.5 of NIST SP 800-38A) in the TPM variant
    that steps only the low four bytes of the counter block. */
module Ctr {
  import opened Bytes


  datatype Status = Ok | Fail

  /** The i-th counter block: twelve fixed bytes and a 32-bit big-endian counter that wraps. */
  function CounterBlock(ctr: Block, i: nat): (b: Block) {
    ctr[..12] + Store32((Load32(ctr[12..]) + i) % TWO_32)
  }

  /** Byte `i` of the key stream. */
  function Keystream(enc: Block -> Block, ctr: Block, i: nat): byte {
    enc(CounterBlock(ctr, i / BLOCK))[i % BLOCK]
  }

  /** The closed form of the whole operation. */
  function Crypt(enc: Block -> Block, ctr: Block, data: Bytes): (r: Bytes)
    ensures |r| == |data|
    ensures forall i :: 0 <= i < |data| ==> r[i] == Xor(data[i], Keystream(enc, ctr, i))
  {
    seq(|data|, i requires 0 <= i < |data| => Xor(data[i], Keystream(enc, ctr, i)))
  }

  /** Encryption and decryption are the same operation. */
  lemma CryptTwice(enc: Block -> Block, ctr: Block, data: Bytes)
    ensures Crypt(enc, ctr, Crypt(enc, ctr, data)) == data
  {
    forall i | 0 <= i < |data| ensures Crypt(enc, ctr, Crypt(enc, ctr, data))[i] == data[i] {
      XorTwice(data[i], Keystream(enc, ctr, i));
    }
  }

  lemma CounterBlockIs(ctr: Block, i: nat, b: Block)
    requires b[..12] == ctr[..12] && FromBin(b[12..]) == (FromBin(ctr[12..]) + i) % TWO_32
    ensures b == CounterBlock(ctr, i)
  {
    LoadIsFromBin(ctr[12..]);
    LoadIsFromBin(b[12..]);
    Store32OfLoad32(b[12..]);
    assert b == b[..12] + b[12..];
  }

  /** The operation byte by byte: let `b` have the first twelve bytes of the counter, and in its last four the
      counter's big-endian number plus `i / 16`, mod 2^32. Then byte `i` of the result is the bitwise
      exclusive or of byte `i` of the data with byte `i % 16` of the cipher of `b`. */
  lemma CryptByte(enc: Block -> Block, ctr: Block, data: Bytes, i: nat, b: Block)
    requires i < |data| && b[..12] == ctr[..12]
    requires FromBin(b[12..]) == (FromBin(ctr[12..]) + i / 16) % 0x1_0000_0000
    ensures Differs(data[i], enc(b)[i % 16], Crypt(enc, ctr, data)[i])
  {
    CounterBlockIs(ctr, i / BLOCK, b);
    XorIff(data[i], enc(b)[i % 16], Crypt(enc, ctr, data)[i]);
  }

  /** Two counter blocks are equal exactly when their numbers agree mod 2^32. */
  lemma CounterBlockRepeatsIff(ctr: Block, i: nat, j: nat)
    ensures CounterBlock(ctr, i) == CounterBlock(ctr, j) <==> i % TWO_32 == j % TWO_32
  {
    var c := Load32(ctr[12..]);
    assert CounterBlock(ctr, i)[12..] == Store32((c + i) % TWO_32);
    assert CounterBlock(ctr, j)[12..] == Store32((c + j) % TWO_32);
    ShiftMod(c, i, j);
  }

  lemma ShiftMod(c: Uint32, i: nat, j: nat)
    ensures (c + i) % TWO_32 == (c + j) % TWO_32 <==> i % TWO_32 == j % TWO_32
  {
    var ri, rj := i % TWO_32, j % TWO_32;
    assert (c + i) % TWO_32 == (c + ri) % TWO_32;
    assert (c + j) % TWO_32 == (c + rj) % TWO_32;
    assert (c + ri) % TWO_32 == if c + ri < TWO_32 then c + ri else c + ri - TWO_32;
    assert (c + rj) % TWO_32 == if c + rj < TWO_32 then c + rj else c + rj - TWO_32;
  }

  /** No counter block, and with an injective cipher no key-stream block, is used twice in one call: a
      32-bit data size allows at most 2^28 blocks. */
  lemma NoBlockReuse(enc: Block -> Block, ctr: Block, size: Uint32, i: nat, j: nat)
    requires forall x: Block, y: Block :: enc(x) == enc(y) ==> x == y
    requires i < size && j < size && i / BLOCK != j / BLOCK
    ensures i / BLOCK < 0x1000_0000
    ensures enc(CounterBlock(ctr, i / BLOCK)) != enc(CounterBlock(ctr, j / BLOCK))
  {
    FewBlocks(i);
    FewBlocks(j);
    CounterBlockRepeatsIff(ctr, i / BLOCK, j / BLOCK);
  }

  lemma FewBlocks(i: Uint32)
    ensures 0 <= i / BLOCK < 0x1000_0000 && (i / BLOCK) % TWO_32 == i / BLOCK
  {}

  lemma KeystreamAt(enc: Block -> Block, ctr: Block, block: nat, k: nat)
    requires BLOCK * block <= k < BLOCK * block + BLOCK
    ensures Keystream(enc, ctr, k) == enc(CounterBlock(ctr, block))[k - BLOCK * block]
  {
    assert k / BLOCK == block && k % BLOCK == k - BLOCK * block;
  }

  /** The counter block one step on. */
  lemma CounterBlockNext(ctr: Block, i: nat)
    ensures var b := CounterBlock(ctr, i);
            CounterBlock(ctr, i + 1) == b[..12] + Store32((Load32(b[12..]) + 1) % TWO_32)
  {
    var b := CounterBlock(ctr, i);
    var c := Load32(ctr[12..]);
    assert b[..12] == ctr[..12] && b[12..] == Store32((c + i) % TWO_32);
    NextMod(c + i);
  }

  lemma NextMod(x: nat)
    ensures (x % TWO_32 + 1) % TWO_32 == (x + 1) % TWO_32
  {}

  lemma CounterBlockFirst(ctr: Block)
    ensures CounterBlock(ctr, 0) == ctr
  {
    Store32OfLoad32(ctr[12..]);
  }

  // ---------------------------------------------------------------- the code

  /** TPM_XOR of `n` bytes at `off`; the two arrays may be the same one. */
  method XorInto(dataOut: array<byte>, dataIn: array<byte>, off: nat, pad: Block, n: nat)
    requires n <= BLOCK && off + n <= dataIn.Length && off + n <= dataOut.Length
    modifies dataOut
    ensures forall k :: off <= k < off + n ==> dataOut[k] == Xor(old(dataIn[k]), pad[k - off])
    ensures forall k :: 0 <= k < dataOut.Length && !(off <= k < off + n) ==> dataOut[k] == old(dataOut[k])
  {
    for i := 0 to n
      invariant forall k :: off <= k < off + i ==> dataOut[k] == Xor(old(dataIn[k]), pad[k - off])
      invariant forall k :: 0 <= k < dataOut.Length && !(off <= k < off + i) ==> dataOut[k] == old(dataOut[k])
    {
      dataOut[off + i] := Xor(dataIn[off + i], pad[i]);
    }
  }

  /** Increment the low four bytes of the counter in place. */
  method Increment(ctr: array<byte>, ghost ctr0: Block, ghost block: nat)
    requires ctr.Length == BLOCK && ctr[..] == CounterBlock(ctr0, block)
    modifies ctr
    ensures ctr[..] == CounterBlock(ctr0, block + 1)
  {
    CounterBlockNext(ctr0, block);
    ghost var before := ctr[..];
    var cint := Load32(ctr[12..16]);
    cint := (cint + 1) % TWO_32;
    var b := Store32(cint);
    assert ctr[12..16] == before[12..];
    ctr[12], ctr[13], ctr[14], ctr[15] := b[0], b[1], b[2], b[3];
    assert ctr[..] == before[..12] + b;
  }

  /** One round of the loop: the pad of the current counter over `n` bytes at `off`. */
  method XorBlockAt(enc: Block -> Block, dataOut: array<byte>, dataIn: array<byte>, off: nat, n: nat, ctr: array<byte>,
                    ghost ctr0: Block, ghost block: nat)
    requires ctr.Length == BLOCK && ctr != dataOut && ctr[..] == CounterBlock(ctr0, block) && off == BLOCK * block
    requires n <= BLOCK && off + n <= dataIn.Length && off + n <= dataOut.Length
    modifies dataOut
    ensures forall k :: off <= k < off + n ==> dataOut[k] == Xor(old(dataIn[k]), Keystream(enc, ctr0, k))
    ensures forall k :: 0 <= k < dataOut.Length && !(off <= k < off + n) ==> dataOut[k] == old(dataOut[k])
  {
    var pad := enc(ctr[..]);
    XorInto(dataOut, dataIn, off, pad, n);
    forall k | off <= k < off + n ensures dataOut[k] == Xor(old(dataIn[k]), Keystream(enc, ctr0, k)) {
      KeystreamAt(enc, ctr0, block, k);
    }
  }

  /** TPM_AES_ctr128_encrypt. */
  method CtrEncrypt(enc: Block -> Block, dataOut: array<byte>, dataIn: array<byte>, dataSize: nat, ctr: array<byte>)
    requires ctr.Length == BLOCK && ctr != dataOut && ctr != dataIn
    requires dataSize <= dataIn.Length && dataSize <= dataOut.Length
    modifies dataOut, ctr
    ensures dataOut[..dataSize] == Crypt(enc, old(ctr[..]), old(dataIn[..dataSize]))
    ensures dataOut[dataSize..] == old(dataOut[dataSize..])
  {
    ghost var ctr0: Block := ctr[..];
    ghost var data: Bytes := dataIn[..dataSize];
    ghost var spec := Crypt(enc, ctr0, data);
    var off: nat, size: nat := 0, dataSize;
    ghost var block: nat := 0;
    CounterBlockFirst(ctr0);
    while size != 0
      invariant off + size == dataSize
      invariant size != 0 ==> off == BLOCK * block && ctr[..] == CounterBlock(ctr0, block)
      invariant forall k :: 0 <= k < off ==> dataOut[k] == spec[k]
      invariant forall k :: off <= k < dataOut.Length ==> dataOut[k] == old(dataOut[k])
      invariant forall k :: off <= k < dataSize ==> dataIn[k] == data[k]
    {
      var n: nat := if size <= BLOCK then size else BLOCK;
      XorBlockAt(enc, dataOut, dataIn, off, n, ctr, ctr0, block);
      off, size := off + n, size - n;
      if size != 0 {
        Increment(ctr, ctr0, block);
        block := block + 1;
      }
    }
  }

  /** Truncate key and counter to the block size, and refuse shorter ones. */
  method CtrCrypt(aes: (Block, Block) -> Block, dataOut: array<byte>, dataIn: array<byte>, dataSize: nat,
                  key: Bytes, ctrIn: Bytes)
      returns (status: Status)
    requires dataSize <= dataIn.Length && dataSize <= dataOut.Length
    modifies dataOut
    ensures status == Ok <==> |key| >= BLOCK && |ctrIn| >= BLOCK
    ensures status == Ok ==>
              var enc: Block -> Block := x => aes(key[..BLOCK], x);
              && dataOut[..dataSize] == Crypt(enc, ctrIn[..BLOCK], old(dataIn[..dataSize]))
              && dataOut[dataSize..] == old(dataOut[dataSize..])
    ensures status == Fail ==> dataOut[..] == old(dataOut[..])
  {
    if BLOCK > |key| {
      return Fail;
    }
    if |ctrIn| < BLOCK {
      return Fail;
    }
    var ctr := new byte[BLOCK](i requires 0 <= i < BLOCK => ctrIn[i]);
    assert ctr[..] == ctrIn[..BLOCK];
    var k: Block := key[..BLOCK];
    CtrEncrypt(x => aes(k, x), dataOut, dataIn, dataSize, ctr);
    return Ok;
  }
}
