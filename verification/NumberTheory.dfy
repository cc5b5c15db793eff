/** The arithmetic behind RSA: congruence, Euclid's lemma, Fermat's little theorem. */
module NumberTheory {

  function Pow(b: int, e: nat): int {
    if e == 0 then 1 else b * Pow(b, e - 1)
  }

  function Times(a: int, b: int): int { a * b }

  ghost predicate Divides(d: int, n: int) {
    exists k :: Times(d, k) == n
  }

  ghost predicate Congruent(a: int, b: int, n: int) {
    Divides(n, a - b)
  }

  ghost predicate Prime(p: int) {
    2 <= p && forall k :: 2 <= k < p ==> !Divides(k, p)
  }

  // ---------------------------------------------------------------- divisibility

  lemma DividesBy(d: int, k: int, n: int)
    requires d * k == n
    ensures Divides(d, n)
  {
    assert Times(d, k) == n;
  }

  lemma DividesSum(d: int, a: int, b: int)
    requires Divides(d, a) && Divides(d, b)
    ensures Divides(d, a + b) && Divides(d, a - b)
  {
    var i :| Times(d, i) == a;
    var j :| Times(d, j) == b;
    DividesBy(d, i + j, a + b);
    DividesBy(d, i - j, a - b);
  }

  lemma DividesMul(d: int, a: int, c: int)
    requires Divides(d, a)
    ensures Divides(d, a * c) && Divides(d, c * a)
  {
    var i :| Times(d, i) == a;
    DividesBy(d, i * c, a * c);
  }

  lemma NoSmallMultiple(p: int, x: int)
    requires 0 < x < p
    ensures !Divides(p, x)
  {
    forall k ensures Times(p, k) != x {
      assert if k >= 1 then p * k >= p else p * k <= 0;
    }
  }

  lemma ModDivides(x: int, n: int)
    requires n > 0
    ensures Congruent(x, x % n, n)
    ensures Divides(n, x) <==> x % n == 0
  {
    DividesBy(n, x / n, x - x % n);
    if Divides(n, x) && x % n != 0 {
      DividesSum(n, x, x - x % n);
      NoSmallMultiple(n, x % n);
    }
  }

  // ---------------------------------------------------------------- congruence

  lemma CongruentMul(a: int, b: int, c: int, d: int, n: int)
    requires Congruent(a, b, n) && Congruent(c, d, n)
    ensures Congruent(a * c, b * d, n)
  {
    DividesMul(n, a - b, c);
    DividesMul(n, c - d, b);
    DividesSum(n, (a - b) * c, b * (c - d));
    assert (a - b) * c + b * (c - d) == a * c - b * d;
  }

  lemma CongruentTrans(a: int, b: int, c: int, n: int)
    requires Congruent(a, b, n) && Congruent(b, c, n)
    ensures Congruent(a, c, n)
  {
    DividesSum(n, a - b, b - c);
  }

  lemma CongruentRefl(a: int, n: int)
    ensures Congruent(a, a, n)
  {
    DividesBy(n, 0, 0);
  }

  lemma CongruentSym(a: int, b: int, n: int)
    requires Congruent(a, b, n)
    ensures Congruent(b, a, n)
  {
    CongruentRefl(0, n);
    DividesSum(n, 0, a - b);
  }

  lemma {:induction false} CongruentPow(a: int, b: int, e: nat, n: int)
    requires Congruent(a, b, n)
    ensures Congruent(Pow(a, e), Pow(b, e), n)
  {
    if e == 0 {
      CongruentRefl(1, n);
    } else {
      CongruentPow(a, b, e - 1, n);
      CongruentMul(a, b, Pow(a, e - 1), Pow(b, e - 1), n);
    }
  }

  /** Two residues that are congruent are equal. */
  lemma ResidueUnique(x: int, r: int, n: int)
    requires 0 <= r < n && Congruent(x, r, n)
    ensures x % n == r
  {
    ModDivides(x, n);
    CongruentSym(x, x % n, n);
    CongruentTrans(x % n, x, r, n);
    CongruentSym(x % n, r, n);
    if x % n > r {
      NoSmallMultiple(n, x % n - r);
    } else if x % n < r {
      NoSmallMultiple(n, r - x % n);
    }
  }

  // ---------------------------------------------------------------- powers

  lemma {:induction false} PowAdd(b: int, m: nat, n: nat)
    ensures Pow(b, m + n) == Pow(b, m) * Pow(b, n)
  {
    if m > 0 {
      PowAdd(b, m - 1, n);
      assert Pow(b, m + n) == b * (Pow(b, m - 1) * Pow(b, n));
    }
  }

  lemma {:induction false} PowMul(b: int, m: nat, n: nat)
    ensures m * n >= 0 && Pow(b, m * n) == Pow(Pow(b, m), n)
    decreases n
  {
    if n > 0 {
      PowMul(b, m, n - 1);
      assert m * n == m + m * (n - 1);
      PowAdd(b, m, m * (n - 1));
    }
  }

  lemma {:induction false} PowOne(n: nat)
    ensures Pow(1, n) == 1
  {
    if n > 0 { PowOne(n - 1); }
  }

  // ---------------------------------------------------------------- Euclid's lemma

  /** The remainder sequence p % a, p % (p % a), ... carries the factor down to 1. */
  lemma {:induction false} EuclidSmall(p: int, a: int, b: int)
    requires Prime(p) && 0 < a < p && Divides(p, a * b)
    ensures Divides(p, b)
    decreases a
  {
    if a > 1 {
      var t, r := p / a, p % a;
      assert a * t + r == p;
      if r == 0 {
        DividesBy(a, t, p);
        assert false;
      }
      DividesBy(p, b, p * b);
      DividesMul(p, a * b, t);
      DividesSum(p, p * b, (a * b) * t);
      assert p * b - (a * b) * t == r * b by {
        assert p * b == (a * t + r) * b == a * t * b + r * b;
      }
      EuclidSmall(p, r, b);
    }
  }

  lemma Euclid(p: int, a: int, b: int)
    requires Prime(p) && Divides(p, a * b) && !Divides(p, a)
    ensures Divides(p, b)
  {
    var r := a % p;
    ModDivides(a, p);
    DividesMul(p, a - r, b);
    DividesSum(p, a * b, (a - r) * b);
    assert a * b - (a - r) * b == r * b;
    EuclidSmall(p, r, b);
  }

  // ---------------------------------------------------------------- Fermat's little theorem

  function Factorial(n: nat): int {
    if n == 0 then 1 else n * Factorial(n - 1)
  }

  lemma {:induction false} FactorialCoprime(p: int, n: nat)
    requires Prime(p) && n < p
    ensures !Divides(p, Factorial(n))
  {
    if Divides(p, Factorial(n)) {
      if n == 0 {
        NoSmallMultiple(p, 1);
      } else {
        if Divides(p, n) { NoSmallMultiple(p, n); }
        Euclid(p, n, Factorial(n - 1));
        FactorialCoprime(p, n - 1);
      }
    }
  }

  /** Product of the members of `s` in 1..n. */
  ghost function Product(s: set<int>, n: nat): int {
    if n == 0 then 1 else (if n in s then n else 1) * Product(s, n - 1)
  }

  lemma {:induction false} ProductInsert(s: set<int>, n: nat, x: int)
    requires x !in s && 1 <= x <= n
    ensures Product(s + {x}, n) == x * Product(s, n)
  {
    if n == x {
      ProductSame(s + {x}, s, n - 1);
    } else {
      ProductInsert(s, n - 1, x);
    }
  }

  lemma {:induction false} ProductSame(s: set<int>, t: set<int>, n: nat)
    requires forall x :: 1 <= x <= n ==> (x in s <==> x in t)
    ensures Product(s, n) == Product(t, n)
  {
    if n > 0 { ProductSame(s, t, n - 1); }
  }

  lemma {:induction false} ProductAll(s: set<int>, n: nat)
    requires forall x :: 1 <= x <= n ==> x in s
    ensures Product(s, n) == Factorial(n)
  {
    if n > 0 { ProductAll(s, n - 1); }
  }

  /** The residues a*1, ..., a*n mod p. */
  ghost function Image(a: int, p: int, n: nat): set<int>
    requires p > 0
  {
    if n == 0 then {} else Image(a, p, n - 1) + {(a * n) % p}
  }

  lemma {:induction false} ImageMember(a: int, p: int, n: nat, x: int) returns (k: nat)
    requires p > 0 && x in Image(a, p, n)
    ensures 1 <= k <= n && (a * k) % p == x
  {
    if x == (a * n) % p { k := n; } else { k := ImageMember(a, p, n - 1, x); }
  }

  /** Multiplication by `a` is injective on 1..p-1. */
  lemma ImageNew(a: int, p: int, n: nat)
    requires Prime(p) && !Divides(p, a) && 1 <= n < p
    ensures (a * n) % p !in Image(a, p, n - 1) && 1 <= (a * n) % p < p
  {
    ModDivides(a * n, p);
    if (a * n) % p == 0 {
      Euclid(p, a, n);
      NoSmallMultiple(p, n);
    }
    if (a * n) % p in Image(a, p, n - 1) {
      var k := ImageMember(a, p, n - 1, (a * n) % p);
      ModDivides(a * k, p);
      CongruentSym(a * k, (a * k) % p, p);
      CongruentTrans(a * n, (a * n) % p, a * k, p);
      assert a * n - a * k == a * (n - k);
      Euclid(p, a, n - k);
      NoSmallMultiple(p, n - k);
    }
  }

  lemma {:induction false} ImageProduct(a: int, p: int, n: nat)
    requires Prime(p) && !Divides(p, a) && n < p
    ensures |Image(a, p, n)| == n && (forall x :: x in Image(a, p, n) ==> 1 <= x < p)
    ensures Congruent(Product(Image(a, p, n), p - 1), Pow(a, n) * Factorial(n), p)
  {
    if n == 0 {
      ProductEmpty(p - 1);
      CongruentRefl(1, p);
    } else {
      ImageProduct(a, p, n - 1);
      ImageNew(a, p, n);
      var x := (a * n) % p;
      var s := Image(a, p, n - 1);
      ProductInsert(s, p - 1, x);
      ModDivides(a * n, p);
      CongruentSym(a * n, x, p);
      CongruentMul(x, a * n, Product(s, p - 1), Pow(a, n - 1) * Factorial(n - 1), p);
      assert (a * n) * (Pow(a, n - 1) * Factorial(n - 1)) == Pow(a, n) * Factorial(n) by {
        Rearrange(a, n, Pow(a, n - 1), Factorial(n - 1));
      }
    }
  }

  lemma Rearrange(a: int, n: int, x: int, y: int)
    ensures (a * n) * (x * y) == (a * x) * (n * y)
  {}

  lemma {:induction false} ProductEmpty(n: nat)
    ensures Product({}, n) == 1
  {
    if n > 0 { ProductEmpty(n - 1); }
  }

  lemma {:induction false} Interval(n: nat) returns (s: set<int>)
    ensures |s| == n && forall x :: x in s <==> 1 <= x <= n
  {
    if n == 0 {
      s := {};
    } else {
      s := Interval(n - 1);
      s := s + {n};
    }
  }

  lemma FullSet(s: set<int>, n: nat)
    requires |s| == n && forall x :: x in s ==> 1 <= x <= n
    ensures forall x :: 1 <= x <= n ==> x in s
  {
    var all := Interval(n);
    forall x | 1 <= x <= n ensures x in s {
      if x !in s {
        assert s <= all - {x} by {
          forall y | y in s ensures y in all - {x} {}
        }
        SubsetSize(s, all - {x});
      }
    }
  }

  lemma SubsetSize(s: set<int>, t: set<int>)
    requires s <= t
    ensures |s| <= |t|
  {
    assert t == s + (t - s);
  }

  /** The residues a*1, ..., a*(p-1) are 1, ..., p-1 in some order. */
  lemma FermatProduct(p: int, a: int)
    requires Prime(p) && !Divides(p, a)
    ensures Congruent(Factorial(p - 1), Pow(a, p - 1) * Factorial(p - 1), p)
  {
    var s := Image(a, p, p - 1);
    ImageProduct(a, p, p - 1);
    FullSet(s, p - 1);
    ProductAll(s, p - 1);
  }

  lemma CancelFactor(p: int, f: int, g: int)
    requires Prime(p) && !Divides(p, f) && Congruent(f, g * f, p)
    ensures Congruent(g, 1, p)
  {
    CongruentSym(f, g * f, p);
    assert g * f - f == f * (g - 1);
    Euclid(p, f, g - 1);
  }

  /** Fermat's little theorem. */
  lemma Fermat(p: int, a: int)
    requires Prime(p) && !Divides(p, a)
    ensures Congruent(Pow(a, p - 1), 1, p)
  {
    FermatProduct(p, a);
    FactorialCoprime(p, p - 1);
    CancelFactor(p, Factorial(p - 1), Pow(a, p - 1));
  }
}
