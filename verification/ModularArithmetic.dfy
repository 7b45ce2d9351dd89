/** Powers and congruences, as far as the SRP-6a exchange needs them. */
module ModularArithmetic {

  function Pow(b: int, e: nat): int {
    if e == 0 then 1 else b * Pow(b, e - 1)
  }

  /** The remainder operator of JavaScript BigInt: it truncates toward zero. */
  function JsRem(a: int, m: int): int
    requires m > 0
  {
    if a >= 0 then a % m else -((-a) % m)
  }

  ghost predicate Cong(a: int, b: int, m: int)
    requires m > 0
  {
    a % m == b % m
  }

  lemma DivisionIsUnique(x: int, q: int, r: int, m: int)
    requires 0 <= r < m && x == q * m + r
    ensures x % m == r && x / m == q
  {
    var d := x / m - q;
    assert x == (x / m) * m + x % m;
    assert d * m == r - x % m;
    assert d <= 0 || d * m >= m;
    assert d >= 0 || d * m <= -m;
  }

  lemma AddMultiple(a: int, k: int, m: int)
    requires m > 0
    ensures (a + k * m) % m == a % m
  {
    assert a + k * m == (a / m + k) * m + a % m;
    DivisionIsUnique(a + k * m, a / m + k, a % m, m);
  }

  lemma CongOffset(a: int, b: int, m: int) returns (k: int)
    requires m > 0 && Cong(a, b, m)
    ensures a == b + k * m
  {
    k := a / m - b / m;
    assert a == (a / m) * m + a % m;
    assert b == (b / m) * m + b % m;
  }

  lemma CongShift(a: int, a': int, c: int, m: int)
    requires m > 0 && Cong(a, a', m)
    ensures Cong(a + c, a' + c, m) && Cong(c - a, c - a', m)
  {
    var k := CongOffset(a, a', m);
    AddMultiple(a' + c, k, m);
    AddMultiple(c - a, k, m);
  }

  lemma CongAdd(a: int, a': int, b: int, b': int, m: int)
    requires m > 0 && Cong(a, a', m) && Cong(b, b', m)
    ensures Cong(a + b, a' + b', m) && Cong(a - b, a' - b', m)
  {
    CongShift(a, a', b, m);
    CongShift(a, a', -b, m);
    CongShift(b, b', a', m);
  }

  lemma Distribute(a: int, k: int, l: int)
    ensures a * (k + l) == a * k + a * l
  {
  }

  lemma ScaleMultiple(a: int, k: int, m: int)
    ensures a * (k * m) == (a * k) * m
  {
  }

  /** A factor may be replaced by a congruent one. */
  lemma CongFactor(a: int, b: int, b': int, m: int)
    requires m > 0 && Cong(b, b', m)
    ensures Cong(a * b, a * b', m)
  {
    var l := CongOffset(b, b', m);
    calc {
      a * b;
      a * (b' + l * m);
      { Distribute(a, b', l * m); }
      a * b' + a * (l * m);
      { ScaleMultiple(a, l, m); }
      a * b' + (a * l) * m;
    }
    AddMultiple(a * b', a * l, m);
  }

  lemma CongMul(a: int, a': int, b: int, b': int, m: int)
    requires m > 0 && Cong(a, a', m) && Cong(b, b', m)
    ensures Cong(a * b, a' * b', m)
  {
    CongFactor(a, b, b', m);
    CongFactor(b', a, a', m);
  }

  lemma ModIsCong(a: int, m: int)
    requires m > 0
    ensures Cong(a % m, a, m)
  {
    DivisionIsUnique(a % m, 0, a % m, m);
  }

  lemma {:induction false} CongPow(a: int, b: int, e: nat, m: int)
    requires m > 0 && Cong(a, b, m)
    ensures Cong(Pow(a, e), Pow(b, e), m)
  {
    if e == 0 {
    } else {
      CongPow(a, b, e - 1, m);
      CongMul(a, b, Pow(a, e - 1), Pow(b, e - 1), m);
    }
  }

  lemma {:induction false} PowAdd(b: int, e: nat, f: nat)
    ensures Pow(b, e + f) == Pow(b, e) * Pow(b, f)
  {
    if e == 0 {
    } else {
      PowAdd(b, e - 1, f);
      assert b * (Pow(b, e - 1) * Pow(b, f)) == (b * Pow(b, e - 1)) * Pow(b, f);
    }
  }

  lemma {:induction false} PowPow(b: int, e: nat, f: nat)
    ensures e * f >= 0
    ensures Pow(Pow(b, e), f) == Pow(b, e * f)
  {
    if f == 0 {
    } else {
      PowPow(b, e, f - 1);
      PowAdd(b, e, e * (f - 1));
      assert e + e * (f - 1) == e * f;
    }
  }

  lemma {:induction false} PowMul(a: int, b: int, e: nat)
    ensures Pow(a * b, e) == Pow(a, e) * Pow(b, e)
  {
    if e == 0 {
    } else {
      PowMul(a, b, e - 1);
      Regroup(a, b, Pow(a, e - 1), Pow(b, e - 1));
    }
  }

  lemma Regroup(a: int, b: int, p: int, q: int)
    ensures (a * b) * (p * q) == (a * p) * (b * q)
  {
    assert (a * b) * (p * q) == a * (b * (p * q));
    assert b * (p * q) == p * (b * q);
    assert (a * p) * (b * q) == a * (p * (b * q));
  }

  lemma PowSquare(b: int, h: nat)
    ensures Pow(b * b, h) == Pow(b, 2 * h)
  {
    PowMul(b, b, h);
    PowAdd(b, h, h);
  }

  /** An odd modulus divides no power of two. */
  lemma {:induction false} PowTwoNonZero(e: nat, n: int)
    requires n > 1 && n % 2 == 1
    ensures Pow(2, e) % n != 0
  {
    if e == 0 {
      DivisionIsUnique(1, 0, 1, n);
    } else {
      PowTwoNonZero(e - 1, n);
      var p := Pow(2, e - 1);
      if (2 * p) % n == 0 {
        var q := (2 * p) / n;
        assert 2 * p == q * n;
        if q % 2 == 1 {
          ProductOfOdds(q, n);
          assert false;
        }
        var h := q / 2;
        assert 2 * p == 2 * (h * n) by { assert q == 2 * h; }
        DivisionIsUnique(p, h, 0, n);
      }
    }
  }

  lemma ProductOfOdds(a: int, b: int)
    requires a % 2 == 1 && b % 2 == 1
    ensures (a * b) % 2 == 1
  {
    CongMul(a, 1, b, 1, 2);
  }
}
