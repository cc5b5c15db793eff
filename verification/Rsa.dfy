/** TPM_RSAGetPrivateKey: the second prime and the private exponent from n, e and p. */
module Rsa {
  import opened Bytes
  import opened Codes
  import opened NumberTheory

  datatype Failure = BadParameter | Size
  datatype Key = Ok(qarr: Bytes, darr: Bytes) | Err(failure: Failure)

  // ---------------------------------------------------------------- big numbers

  /** BN_num_bytes. */
  function NumBytes(n: nat): nat {
    if n == 0 then 0 else 1 + NumBytes(n / 256)
  }

  /** BN_bn2binpad into `len` bytes. */
  function ToBin(n: nat, len: nat): (b: Bytes)
    ensures |b| == len
    decreases len
  {
    if len == 0 then [] else ToBin(n / 256, len - 1) + [n % 256]
  }

  lemma {:induction false} BinRoundTrip(n: nat, len: nat)
    requires NumBytes(n) <= len
    ensures FromBin(ToBin(n, len)) == n
    decreases len
  {
    if len > 0 {
      BinRoundTrip(n / 256, len - 1);
      assert ToBin(n, len)[..len - 1] == ToBin(n / 256, len - 1);
    }
  }

  /** Big-endian: appending a byte string shifts what is before it by its length. */
  lemma {:induction false} FromBinAppend(a: Bytes, b: Bytes)
    ensures FromBin(a + b) == FromBin(a) * Pow(256, |b|) + FromBin(b)
    decreases |b|
  {
    if b == [] {
      assert a + b == a;
    } else {
      var init := b[..|b| - 1];
      assert (a + b)[..|a + b| - 1] == a + init;
      FromBinAppend(a, init);
      ShiftByte(FromBin(a), Pow(256, |init|), FromBin(init));
    }
  }

  lemma ShiftByte(x: int, p: int, y: int)
    ensures 256 * (x * p + y) == x * (256 * p) + 256 * y
  {}

  /** The byte count is the least number of base-256 digits. */
  lemma {:induction false} NumBytesIff(n: nat, k: nat)
    ensures NumBytes(n) <= k <==> n < Pow(256, k)
    decreases k
  {
    if k > 0 {
      NumBytesIff(n / 256, k - 1);
      assert Pow(256, k) == 256 * Pow(256, k - 1);
    }
  }

  function Abs(n: int): nat { if n < 0 then -n else n }

  /** BN_mod_inverse: the inverse of e modulo |m|, by search; the library refuses the moduli 0 and 1. */
  function ModInverse(e: nat, m: nat): (d: Option<nat>)
    ensures d.Some? ==> d.value < m && (e * d.value) % m == 1
    ensures d.None? && m > 1 ==> forall x :: 0 <= x < m ==> (e * x) % m != 1
  {
    if m <= 1 then None else SearchInverse(e, m, 0)
  }

  function SearchInverse(e: nat, m: nat, from: nat): (d: Option<nat>)
    requires 1 < m && from <= m
    ensures d.Some? ==> d.value < m && (e * d.value) % m == 1
    ensures d.None? ==> forall x :: from <= x < m ==> (e * x) % m != 1
    decreases m - from
  {
    if from == m then None
    else if (e * from) % m == 1 then Some(from)
    else SearchInverse(e, m, from + 1)
  }

  // ---------------------------------------------------------------- the code

  /** What makes q and d belong to the public key (n, e) and the factor p. */
  ghost predicate PrivateKey(n: nat, e: nat, p: nat, q: nat, d: nat) {
    p > 0 && p * q == n && InverseMod(e, d, Abs((p - 1) * (q - 1)))
  }

  /** d is the inverse of e modulo m, as a residue. */
  ghost predicate InverseMod(e: nat, d: nat, m: nat) {
    d < m && Congruent(e * d, 1, m) && m > 1
  }

  lemma InverseIs(e: nat, d: nat, m: nat)
    ensures InverseMod(e, d, m) <==> d < m && m > 1 && (e * d) % m == 1
  {
    if m > 1 {
      if Congruent(e * d, 1, m) { ResidueUnique(e * d, 1, m); }
      ModDivides(e * d, m);
    }
  }

  lemma InverseUnique(e: nat, d: nat, d': nat, m: nat)
    requires InverseMod(e, d, m) && InverseMod(e, d', m)
    ensures d == d'
  {
    CongruentRefl(d, m);
    CongruentRefl(d', m);
    CongruentMul(d, d, e * d', 1, m);
    CongruentMul(e * d, 1, d', d', m);
    assert d * (e * d') == (e * d) * d';
    CongruentSym(d * (e * d'), d, m);
    CongruentTrans(d, d * (e * d'), d', m);
    ResidueUnique(d, d', m);
    ResidueUnique(d', d', m) by { CongruentRefl(d', m); }
    ResidueUnique(d, d, m) by { CongruentRefl(d, m); }
  }

  /** The computation on numbers: q by exact division, d by inversion. */
  function Recover(n: nat, e: nat, p: nat): (r: Option<(nat, nat)>) {
    if p == 0 || n % p != 0 then None
    else match ModInverse(e, Abs((p - 1) * (n / p - 1)))
      case None => None
      case Some(d) => Some((n / p, d))
  }

  /** It finds the private key whenever there is one, and nothing else. */
  lemma RecoverIsPrivateKey(n: nat, e: nat, p: nat, q: nat, d: nat)
    ensures Recover(n, e, p) == Some((q, d)) <==> PrivateKey(n, e, p, q, d)
  {
    if p > 0 {
      ExactDivision(n, p, q);
      if n == p * q {
        var m := Abs((p - 1) * (q - 1));
        InverseIs(e, d, m);
        var found := ModInverse(e, m);
        if found.Some? {
          InverseIs(e, found.value, m);
          if InverseMod(e, d, m) { InverseUnique(e, d, found.value, m); }
        }
      }
    }
  }

  lemma ExactDivision(n: nat, p: nat, q: nat)
    requires p > 0
    ensures n == p * q <==> n % p == 0 && n / p == q
  {
    if n == p * q {
      DividesBy(p, q, n);
      ModDivides(n, p);
      Cancel(p, n / p, q);
    }
  }

  lemma Cancel(p: int, a: int, b: int)
    requires p > 0 && p * a == p * b
    ensures a == b
  {
    assert p * (a - b) == 0;
    assert a > b ==> p * (a - b) >= p;
    assert a < b ==> p * (b - a) >= p;
  }

  /** TPM_bn2binMalloc. A pad length of 0 asks for no padding; the number 0 then has no bytes, and an allocation of
      none is refused. */
  method ToBinMalloc(n: nat, padBytes: nat) returns (r: Option<Bytes>)
    ensures r.Some? <==> if padBytes == 0 then 0 < NumBytes(n) <= ALLOC_MAX else NumBytes(n) <= padBytes <= ALLOC_MAX
    ensures r.Some? ==> FromBin(r.value) == n && |r.value| == if padBytes == 0 then NumBytes(n) else padBytes
  {
    var bytes := NumBytes(n);
    var pad := padBytes;
    if pad == 0 {
      pad := bytes;
    }
    if pad < bytes || pad > ALLOC_MAX || pad == 0 {
      return None;
    }
    BinRoundTrip(n, pad);
    return Some(ToBin(n, pad));
  }

  /** The BIGNUM part: q = n/p without remainder, then d = e^-1 mod (p-1)(q-1). */
  method RecoverNumbers(n: nat, e: nat, p: nat) returns (r: Option<(nat, nat)>)
    ensures r == Recover(n, e, p)
    ensures r.Some? ==> PrivateKey(n, e, p, r.value.0, r.value.1)
  {
    if p == 0 {
      return None;         // BN_div refuses
    }
    var q, r0 := n / p, n % p;
    if r0 != 0 {
      return None;
    }
    r0 := p - 1;
    var r1 := q as int - 1;
    var r2 := r0 * r1;
    var d := ModInverse(e, Abs(r2));
    if d.None? {
      return None;
    }
    RecoverIsPrivateKey(n, e, p, q, d.value);
    return Some((q, d.value));
  }

  /** Succeeds exactly when p divides n, e has an inverse modulo (p-1)(q-1), and both results fit the
      fields they are stored in: q as many bytes as p, d as many as n. */
  method GetPrivateKey(narr: Bytes, earr: Bytes, parr: Bytes) returns (key: Key)
    ensures var r := Recover(FromBin(narr), FromBin(earr), FromBin(parr));
            && (key.Ok? <==> narr != [] && earr != [] && parr != [] && r.Some?
                             && NumBytes(r.value.0) <= |parr| <= ALLOC_MAX
                             && NumBytes(r.value.1) <= |narr| <= ALLOC_MAX)
            && (key.Ok? ==> |key.qarr| == |parr| && |key.darr| == |narr|)
    ensures key.Ok? ==> PrivateKey(FromBin(narr), FromBin(earr), FromBin(parr), FromBin(key.qarr), FromBin(key.darr))
  {
    if narr == [] || earr == [] || parr == [] {
      return Err(BadParameter);
    }
    var r := RecoverNumbers(FromBin(narr), FromBin(earr), FromBin(parr));
    if r.None? {
      return Err(BadParameter);
    }
    var qarr := ToBinMalloc(r.value.0, |parr|);
    if qarr.None? {
      return Err(Size);
    }
    var darr := ToBinMalloc(r.value.1, |narr|);
    if darr.None? {
      return Err(Size);
    }
    return Ok(qarr.value, darr.value);
  }

  // ---------------------------------------------------------------- RSA

  /** Encryption followed by decryption. */
  function RoundTrip(m: nat, e: nat, d: nat, n: nat): int
    requires n > 0
  {
    Pow(Pow(m, e) % n, d) % n
  }

  /** e*d = 1 + k*(p-1)*j makes m^(ed) congruent to m modulo the prime p. */
  lemma PowerBack(p: nat, m: nat, x: nat, j: nat)
    requires Prime(p) && x == 1 + (p - 1) * j
    ensures Congruent(Pow(m, x), m, p)
  {
    if Divides(p, m) {
      DividesMul(p, m, Pow(m, x - 1));
      DividesSum(p, Pow(m, x), m);
    } else {
      Fermat(p, m);
      CongruentPow(Pow(m, p - 1), 1, j, p);
      PowOne(j);
      PowMul(m, p - 1, j);
      CongruentRefl(m, p);
      CongruentMul(m, m, Pow(m, (p - 1) * j), 1, p);
    }
  }

  /** Distinct primes that divide a number: so does their product. */
  lemma ProductDivides(p: nat, q: nat, x: int)
    requires Prime(p) && Prime(q) && p != q && Divides(p, x) && Divides(q, x)
    ensures Divides(p * q, x)
  {
    var y :| Times(p, y) == x;
    if Divides(q, p) {
      if q < p { assert false; } else { NoSmallMultiple(q, p); }
    }
    Euclid(q, p, y);
    var z :| Times(q, z) == y;
    assert p * (q * z) == (p * q) * z;
    DividesBy(p * q, z, x);
  }

  /** m^(ed) and the two-step form agree mod n. */
  lemma RoundTripIsPower(m: nat, e: nat, d: nat, n: nat)
    requires n > 0
    ensures e * d >= 0 && Congruent(RoundTrip(m, e, d, n), Pow(m, e * d), n)
  {
    var c := Pow(m, e) % n;
    ModDivides(Pow(m, e), n);
    CongruentSym(Pow(m, e), c, n);
    CongruentPow(c, Pow(m, e), d, n);
    PowMul(m, e, d);
    ModDivides(Pow(c, d), n);
    CongruentSym(Pow(c, d), Pow(c, d) % n, n);
    CongruentTrans(Pow(c, d) % n, Pow(c, d), Pow(m, e * d), n);
  }

  lemma PhiMultiple(e: nat, phi: nat, d: nat) returns (k: nat)
    requires InverseMod(e, d, phi)
    ensures e * d == 1 + phi * k
  {
    var k' :| Times(phi, k') == e * d - 1;
    NonNegativeFactor(phi, k', e * d);
    k := k';
  }

  lemma NonNegativeFactor(phi: int, k: int, x: nat)
    requires phi > 1 && phi * k == x - 1
    ensures k >= 0
  {
    assert k <= -1 ==> phi * k <= -phi;
  }

  lemma ProductsCommute(a: nat, b: nat, k: nat)
    ensures a * b * k == a * (b * k) == b * (a * k)
  {}

  lemma TwoPrimePower(p: nat, q: nat, x: nat, a: nat, b: nat, m: nat)
    requires Prime(p) && Prime(q) && p != q && x == 1 + (p - 1) * a && x == 1 + (q - 1) * b
    ensures Congruent(Pow(m, x), m, p * q)
  {
    PowerBack(p, m, x, a);
    PowerBack(q, m, x, b);
    ProductDivides(p, q, Pow(m, x) - m);
  }

  lemma PowerComesBack(n: nat, e: nat, p: nat, q: nat, d: nat, m: nat)
    requires PrivateKey(n, e, p, q, d) && Prime(p) && Prime(q) && p != q
    ensures e * d >= 0 && Congruent(Pow(m, e * d), m, n)
  {
    var k := PhiMultiple(e, Abs((p - 1) * (q - 1)), d);
    ProductsCommute(p - 1, q - 1, k);
    TwoPrimePower(p, q, e * d, (q - 1) * k, (p - 1) * k, m);
  }

  /** A recovered key decrypts: for distinct primes, every message below n comes back. */
  lemma RecoveredKeyDecrypts(n: nat, e: nat, p: nat, q: nat, d: nat, m: nat)
    requires PrivateKey(n, e, p, q, d) && Prime(p) && Prime(q) && p != q && m < n
    ensures RoundTrip(m, e, d, n) == m
  {
    PowerComesBack(n, e, p, q, d, m);
    RoundTripIsPower(m, e, d, n);
    CongruentTrans(RoundTrip(m, e, d, n), Pow(m, e * d), m, n);
    RoundTripIs(m, e, d, n, m);
  }

  lemma RoundTripIs(m: nat, e: nat, d: nat, n: nat, r: nat)
    requires r < n && Congruent(RoundTrip(m, e, d, n), r, n)
    ensures RoundTrip(m, e, d, n) == r
  {
    var x := RoundTrip(m, e, d, n);
    ResidueUnique(x, r, n);
    CongruentRefl(x, n);
    ResidueUnique(x, x, n);
  }

  lemma SquareVanishes(p: nat, x: nat)
    requires x >= 2
    ensures Congruent(Pow(p, x), 0, p * p)
  {
    var y := Pow(p, x - 2);
    assert Pow(p, x) == p * (p * y) == (p * p) * y;
    DividesBy(p * p, y, Pow(p, x));
  }

  /** The code does not compare p and q. With n = p*p its (p-1)(q-1) is not the order of the group, and
      the message p itself is lost. */
  lemma SquareModulusLosesP(n: nat, e: nat, p: nat, d: nat)
    requires PrivateKey(n, e, p, p, d) && Prime(p) && e != 1
    ensures p < n && RoundTrip(p, e, d, n) == 0
  {
    var phi := Abs((p - 1) * (p - 1));
    var k := PhiMultiple(e, phi, d);
    AtLeastTwo(e, d, phi, k);
    SquareVanishes(p, e * d);
    Larger(p);
    RoundTripIsPower(p, e, d, n);
    CongruentTrans(RoundTrip(p, e, d, n), Pow(p, e * d), 0, n);
    RoundTripIs(p, e, d, n, 0);
  }

  /** Such keys exist: 3 is recovered as the private exponent of (9, 3) with p = 3, and the message 3 is lost. */
  lemma SquareModulusExample()
    ensures Prime(3) && PrivateKey(9, 3, 3, 3, 3) && RoundTrip(3, 3, 3, 9) == 0
  {
    assert Prime(3) by {
      ModDivides(3, 2);
    }
    InverseIs(3, 3, 4);
    SquareModulusLosesP(9, 3, 3, 3);
  }

  lemma Larger(p: nat)
    requires p >= 2
    ensures p < p * p
  {}

  lemma AtLeastTwo(e: nat, d: nat, phi: nat, k: nat)
    requires e * d == 1 + phi * k && e != 1
    ensures e * d >= 2
  {
    assert e >= 2 && d >= 1 ==> e * d >= 2;
  }

  /** With exponent 1 both directions are the identity. */
  lemma ExponentOne(n: nat, d: nat, phi: nat, m: nat)
    requires InverseMod(1, d, phi) && m < n
    ensures RoundTrip(m, 1, d, n) == m
  {
    CongruentRefl(1, phi);
    InverseUnique(1, d, 1, phi);
    assert Pow(m, 1) == m && m % n == m;
  }

  /** Exactly when a recovered key is usable, for a modulus of two prime factors. */
  lemma DecryptsIffDistinct(n: nat, e: nat, p: nat, q: nat, d: nat)
    requires PrivateKey(n, e, p, q, d) && Prime(p) && Prime(q)
    ensures (forall m: nat :: m < n ==> RoundTrip(m, e, d, n) == m) <==> p != q || e == 1
  {
    if p == q && e != 1 {
      SquareModulusLosesP(n, e, p, d);
    } else {
      forall m: nat | m < n ensures RoundTrip(m, e, d, n) == m {
        if p != q {
          RecoveredKeyDecrypts(n, e, p, q, d, m);
        } else {
          ExponentOne(n, d, Abs((p - 1) * (q - 1)), m);
        }
      }
    }
  }
}
