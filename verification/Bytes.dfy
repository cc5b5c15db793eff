/** Bytes, fixed-size digests and the big-endian integer codecs used by every wire format. */
module Bytes {

  type byte = x: int | 0 <= x < 256
  type Bytes = seq<byte>

  /** TPM_DIGEST, TPM_NONCE, TPM_SECRET and TPM_AUTHDATA are all 20 bytes. */
  type Digest20 = b: Bytes | |b| == 20 witness seq(20, _ => 0)

  /** The AES block size, and a block. */
  const BLOCK := 16
  type Block = b: Bytes | |b| == 16 witness seq(16, _ => 0)

  type Uint16 = x: int | 0 <= x < 0x1_0000
  type Uint32 = x: int | 0 <= x < 0x1_0000_0000

  /** Arithmetic on 32-bit integers is modulo this. */
  const TWO_32 := 0x1_0000_0000

  /** TPM_ALLOC_MAX: the largest allocation of the TPM 1.2 code. */
  const ALLOC_MAX := 0x2_0000

  /** The size of the NV memory of the TPM 2 code. */
  const NV_MEMORY_SIZE := 128 * 1024 + 65 * 704

  function Store16(n: Uint16): (b: Bytes)
    ensures |b| == 2 && Load16(b) == n
  {
    [n / 0x100, n % 0x100]
  }

  function Load16(b: Bytes): (n: Uint16)
    requires |b| >= 2
  {
    0x100 * (b[0] as int) + b[1]
  }

  function Store32(n: Uint32): (b: Bytes)
    ensures |b| == 4 && Load32(b) == n
  {
    assert (Store16(n / 0x1_0000) + Store16(n % 0x1_0000))[2..4] == Store16(n % 0x1_0000);
    Store16(n / 0x1_0000) + Store16(n % 0x1_0000)
  }

  function Load32(b: Bytes): (n: Uint32)
    requires |b| >= 4
  {
    0x1_0000 * (Load16(b) as int) + Load16(b[2..4])
  }

  /** Reading back is also exact the other way round: the codec is a bijection. */
  lemma Store32OfLoad32(b: Bytes)
    requires |b| == 4
    ensures Store32(Load32(b)) == b
  {
    Store16OfLoad16(b[..2]);
    Store16OfLoad16(b[2..4]);
    assert Load32(b) / 0x1_0000 == Load16(b) && Load32(b) % 0x1_0000 == Load16(b[2..4]);
    assert b == b[..2] + b[2..4];
  }

  lemma Store16OfLoad16(b: Bytes)
    requires |b| == 2
    ensures Store16(Load16(b)) == b
  {
    assert Load16(b) / 0x100 == b[0] && Load16(b) % 0x100 == b[1];
  }

  /** The number a byte string stands for, most significant byte first. */
  function FromBin(b: Bytes): (n: nat) {
    if b == [] then 0 else 256 * FromBin(b[..|b| - 1]) + b[|b| - 1]
  }

  /** The fixed-width codecs agree with it, so they are big-endian. */
  lemma LoadIsFromBin(b: Bytes)
    ensures |b| == 2 ==> Load16(b) == FromBin(b)
    ensures |b| == 4 ==> Load32(b) == FromBin(b)
  {
    if |b| == 2 {
      FromBinTwo(b);
    } else if |b| == 4 {
      FromBinTwo(b[..2]);
      assert b[..3][..2] == b[..2] && FromBin(b[..3]) == 256 * FromBin(b[..2]) + b[2];
      assert b[..2][0] == b[0] && b[2..4][0] == b[2] && b[2..4][1] == b[3];
    }
  }

  lemma FromBinTwo(b: Bytes)
    requires |b| == 2
    ensures FromBin(b) == 256 * (b[0] as int) + b[1]
  {
    assert b[..1] == [b[0]] && FromBin([b[0]]) == b[0];
  }

  // ---------------------------------------------------------------- powers of two and bits

  function Pow2(n: nat): nat {
    if n == 0 then 1 else 2 * Pow2(n - 1)
  }

  lemma {:induction false} Pow2Mono(a: nat, b: nat)
    requires a <= b
    ensures 1 <= Pow2(a) <= Pow2(b)
    decreases b
  {
    if a < b {
      Pow2Mono(a, b - 1);
    } else if 0 < b {
      Pow2Mono(b - 1, b - 1);
    }
  }

  /** `b & (1 << i)`: bit `i` of `b`. */
  predicate Bit(b: nat, i: nat) {
    if i == 0 then b % 2 == 1 else Bit(b / 2, i - 1)
  }

  /** The bits by their weights. */
  lemma {:induction false} BitIs(b: nat, i: nat)
    ensures Pow2(i) > 0 && (Bit(b, i) <==> (b / Pow2(i)) % 2 == 1)
    decreases i
  {
    if i > 0 {
      BitIs(b / 2, i - 1);
      HalveFirst(b, Pow2(i - 1));
    }
  }

  lemma HalveFirst(x: nat, p: nat)
    requires p > 0
    ensures (x / 2) / p == x / (2 * p)
  {
    var s, t := (x / 2) / p, (x / 2) % p;
    assert x / 2 == p * s + t;
    assert x == (2 * p) * s + (2 * t + x % 2);
    Quotient(x, 2 * p, s, 2 * t + x % 2);
  }

  lemma Quotient(x: nat, d: nat, q: nat, r: nat)
    requires 0 <= r < d && x == d * q + r
    ensures x / d == q
  {
    var q', r' := x / d, x % d;
    assert x == d * q' + r';
    assert d * (q' - q) == d * q' - d * q;
    SmallMultiple(d, q' - q);
  }

  lemma SmallMultiple(d: int, z: int)
    requires -d < d * z < d
    ensures z == 0
  {
    assert z >= 1 ==> d * z >= d;
    assert z <= -1 ==> d * z <= -d;
  }

  /** A number below 2^n is determined by its low `n` bits. */
  lemma {:induction false} BitsDetermine(x: nat, y: nat, n: nat)
    requires x < Pow2(n) && y < Pow2(n) && forall k: nat :: k < n ==> Bit(x, k) == Bit(y, k)
    ensures x == y
    decreases n
  {
    if n > 0 {
      forall k: nat | k < n - 1 ensures Bit(x / 2, k) == Bit(y / 2, k) {
        assert Bit(x, k + 1) == Bit(x / 2, k) && Bit(y, k + 1) == Bit(y / 2, k);
      }
      BitsDetermine(x / 2, y / 2, n - 1);
      assert Bit(x, 0) == Bit(y, 0);
    }
  }

  lemma {:induction false} ZeroHasNoBit(i: nat)
    ensures !Bit(0, i)
  {
    if i > 0 { ZeroHasNoBit(i - 1); }
  }

  // ---------------------------------------------------------------- exclusive or

  /** Exclusive or of the low `n` bits. */
  function XorBits(a: nat, b: nat, n: nat): (r: nat)
    ensures r < Pow2(n)
  {
    if n == 0 then 0 else (a % 2 + b % 2) % 2 + 2 * XorBits(a / 2, b / 2, n - 1)
  }

  lemma {:induction false} XorBitsAt(a: nat, b: nat, n: nat, k: nat)
    requires k < n
    ensures Bit(XorBits(a, b, n), k) <==> Bit(a, k) != Bit(b, k)
    decreases n
  {
    Halves((a % 2 + b % 2) % 2, XorBits(a / 2, b / 2, n - 1));
    if k > 0 {
      XorBitsAt(a / 2, b / 2, n - 1, k - 1);
    }
  }

  lemma Halves(bit: nat, rest: nat)
    requires bit < 2
    ensures (bit + 2 * rest) / 2 == rest && (bit + 2 * rest) % 2 == bit
  {}

  function Xor(a: byte, b: byte): (r: byte) {
    assert Pow2(8) == 256;
    XorBits(a, b, 8)
  }

  /** Each bit of `r` is set exactly when those of `a` and `b` differ. */
  ghost predicate Differs(a: byte, b: byte, r: byte) {
    forall k: nat :: k < 8 ==> (Bit(r, k) <==> Bit(a, k) != Bit(b, k))
  }

  /** Exclusive or is this, bit by bit, and no other byte is. */
  lemma XorIff(a: byte, b: byte, r: byte)
    ensures r == Xor(a, b) <==> Differs(a, b, r)
  {
    assert Pow2(8) == 256;
    assert Differs(a, b, Xor(a, b)) by {
      forall k: nat | k < 8 ensures Bit(Xor(a, b), k) <==> Bit(a, k) != Bit(b, k) {
        XorBitsAt(a, b, 8, k);
      }
    }
    if Differs(a, b, r) {
      BitsDetermine(r, Xor(a, b), 8);
    }
  }

  /** The same by the weights of the bits. */
  lemma XorWeights(a: byte, b: byte, k: nat)
    requires k < 8
    ensures Pow2(k) > 0 && (Xor(a, b) / Pow2(k)) % 2 == (a / Pow2(k) + b / Pow2(k)) % 2
  {
    XorIff(a, b, Xor(a, b));
    BitIs(a, k);
    BitIs(b, k);
    BitIs(Xor(a, b), k);
    Parity(a / Pow2(k), b / Pow2(k));
  }

  lemma Parity(x: int, y: int)
    ensures (x + y) % 2 == if (x % 2 == 1) != (y % 2 == 1) then 1 else 0
  {}

  lemma XorTwice(a: byte, b: byte)
    ensures Xor(Xor(a, b), b) == a
  {
    XorIff(a, b, Xor(a, b));
    XorIff(Xor(a, b), b, a);
  }

  lemma XorLaws(a: byte, b: byte)
    ensures Xor(a, 0) == a && Xor(a, a) == 0 && Xor(a, b) == Xor(b, a)
  {
    forall k: nat ensures !Bit(0, k) { ZeroHasNoBit(k); }
    XorIff(a, 0, a);
    XorIff(a, a, 0);
    XorIff(b, a, Xor(b, a));
    XorIff(a, b, Xor(b, a));
  }
}
