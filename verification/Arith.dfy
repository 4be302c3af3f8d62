/** Powers, congruences, modular inverses and bit masks over unbounded integers. */
module Arith {

  // ------------------------------------------------------------------ powers

  function Pow(b: int, e: nat): int {
    if e == 0 then 1 else b * Pow(b, e - 1)
  }

  lemma {:induction false} PowPositive(b: int, e: nat)
    requires 1 <= b
    ensures 1 <= Pow(b, e)
  {
    if e == 0 {
    } else {
      PowPositive(b, e - 1);
      MulMonotone(b, 1, Pow(b, e - 1));
    }
  }

  lemma {:induction false} PowAdd(b: int, d: nat, e: nat)
    ensures Pow(b, d + e) == Pow(b, d) * Pow(b, e)
  {
    if d == 0 {
    } else {
      PowAdd(b, d - 1, e);
      MulAssoc(b, Pow(b, d - 1), Pow(b, e));
    }
  }

  lemma {:induction false} PowMul(b: int, d: nat, e: nat)
    ensures 0 <= d * e && Pow(b, d * e) == Pow(Pow(b, d), e)
  {
    if e == 0 {
    } else {
      PowMul(b, d, e - 1);
      assert d * e == d + d * (e - 1);
      PowAdd(b, d, d * (e - 1));
    }
  }

  lemma PowMonotone(b: int, d: nat, e: nat)
    requires 1 <= b && d <= e
    ensures Pow(b, d) <= Pow(b, e)
  {
    PowAdd(b, d, e - d);
    PowPositive(b, d);
    PowPositive(b, e - d);
    MulMonotone(Pow(b, d), 1, Pow(b, e - d));
  }

  // ------------------------------------------------- multiplication, division

  lemma MulAssoc(a: int, b: int, c: int)
    ensures a * (b * c) == (a * b) * c
  {
  }

  lemma MulDistr(a: int, b: int, c: int)
    ensures (a + b) * c == a * c + b * c
  {
  }

  lemma MulMonotone(a: int, x: int, y: int)
    requires 0 <= a && x <= y
    ensures a * x <= a * y
  {
  }

  lemma MulStrict(a: int, x: int, y: int)
    requires 0 < a
    ensures a * x < a * y <==> x < y
  {
    if x < y {
      assert a * y == a * x + a * (y - x);
      MulMonotone(a, 1, y - x);
    } else {
      MulMonotone(a, y, x);
    }
  }

  // A quotient and a remainder in range determine each other.
  lemma DivModUnique(a: int, m: int, q: int, r: int)
    requires 0 <= r < m
    requires a == q * m + r
    ensures a / m == q && a % m == r
  {
    var q', r' := a / m, a % m;
    assert a == m * q' + r';
    assert m * (q - q') == r' - r;
    if q > q' {
      MulMonotone(m, 1, q - q');
    } else if q < q' {
      MulMonotone(m, q - q', -1);
    }
  }

  lemma ExactDiv(a: int, m: int, q: int)
    requires 0 < m && a == q * m
    ensures a / m == q && a % m == 0
  {
    DivModUnique(a, m, q, 0);
  }

  // ------------------------------------------------------------- congruences

  function Times(k: int, m: int): int {
    k * m
  }

  /** a and b differ by a multiple of m. */
  ghost predicate Cong(a: int, b: int, m: int) {
    exists k :: a == b + Times(k, m)
  }

  lemma CongIntro(a: int, b: int, m: int, k: int)
    requires a == b + k * m
    ensures Cong(a, b, m)
  {
    assert a == b + Times(k, m);
  }

  lemma CongElim(a: int, b: int, m: int) returns (k: int)
    requires Cong(a, b, m)
    ensures a == b + k * m
  {
    k :| a == b + Times(k, m);
  }

  lemma CongRefl(a: int, m: int)
    ensures Cong(a, a, m)
  {
    CongIntro(a, a, m, 0);
  }

  lemma CongMod(a: int, m: int)
    requires m > 0
    ensures Cong(a, a % m, m)
  {
    CongIntro(a, a % m, m, a / m);
  }

  lemma CongSym(a: int, b: int, m: int)
    requires Cong(a, b, m)
    ensures Cong(b, a, m)
  {
    var k := CongElim(a, b, m);
    CongIntro(b, a, m, -k);
  }

  lemma CongTrans(a: int, b: int, c: int, m: int)
    requires Cong(a, b, m) && Cong(b, c, m)
    ensures Cong(a, c, m)
  {
    var j := CongElim(a, b, m);
    var k := CongElim(b, c, m);
    assert a == c + (j + k) * m;
    CongIntro(a, c, m, j + k);
  }

  lemma CongAdd(a: int, b: int, c: int, d: int, m: int)
    requires Cong(a, b, m) && Cong(c, d, m)
    ensures Cong(a + c, b + d, m)
  {
    var j := CongElim(a, b, m);
    var k := CongElim(c, d, m);
    assert a + c == b + d + (j + k) * m;
    CongIntro(a + c, b + d, m, j + k);
  }

  lemma CongScale(a: int, b: int, c: int, m: int)
    requires Cong(a, b, m)
    ensures Cong(a * c, b * c, m) && Cong(c * a, c * b, m)
  {
    var k := CongElim(a, b, m);
    assert a * c == b * c + (k * c) * m;
    CongIntro(a * c, b * c, m, k * c);
  }

  lemma CongMul(a: int, b: int, c: int, d: int, m: int)
    requires Cong(a, b, m) && Cong(c, d, m)
    ensures Cong(a * c, b * d, m)
  {
    CongScale(a, b, c, m);
    CongScale(c, d, b, m);
    CongTrans(a * c, b * c, b * d, m);
  }

  // Congruence is equality of remainders.
  lemma CongIffMod(a: int, b: int, m: int)
    requires m > 0
    ensures Cong(a, b, m) <==> a % m == b % m
  {
    if Cong(a, b, m) {
      var k := CongElim(a, b, m);
      assert a == (b / m + k) * m + b % m;
      DivModUnique(a, m, b / m + k, b % m);
    }
    if a % m == b % m {
      assert a == b + (a / m - b / m) * m;
      CongIntro(a, b, m, a / m - b / m);
    }
  }

  // ------------------------------------------------------- modular inverses

  /** x is the value Python's pow(a, -1, m) returns. */
  ghost predicate IsInverse(x: int, a: int, m: int) {
    0 <= x < m && Cong(x * a, 1, m)
  }

  /** Two inverses of the same number agree; more generally a factor with an inverse cancels. */
  lemma Cancel(x: int, y: int, a: int, inv: int, m: int)
    requires Cong(inv * a, 1, m) && Cong(x * a, y * a, m)
    ensures Cong(x, y, m)
  {
    CongScale(x * a, y * a, inv, m);
    assert inv * (x * a) == x * (inv * a) && inv * (y * a) == y * (inv * a);
    CongScale(inv * a, 1, x, m);
    CongScale(inv * a, 1, y, m);
    CongSym(x * (inv * a), x * 1, m);
    CongTrans(x, x * (inv * a), y * (inv * a), m);
    CongTrans(x, y * (inv * a), y, m);
  }

  lemma CongInRange(x: int, y: int, m: int)
    requires m > 0 && 0 <= x < m && 0 <= y < m && Cong(x, y, m)
    ensures x == y
  {
    var k := CongElim(x, y, m);
    if k >= 1 {
      MulMonotone(m, 1, k);
    } else if k <= -1 {
      MulMonotone(m, k, -1);
    }
  }

  lemma InverseUnique(x: int, y: int, a: int, m: int)
    requires IsInverse(x, a, m) && IsInverse(y, a, m)
    ensures x == y
  {
    CongSym(y * a, 1, m);
    CongTrans(x * a, 1, y * a, m);
    Cancel(x, y, a, x, m);
    CongInRange(x, y, m);
  }

  // Every power of two is invertible modulo an odd number.
  lemma {:induction false} PowTwoInvertible(e: nat, m: int) returns (x: int)
    requires m > 0 && m % 2 == 1
    ensures IsInverse(x, Pow(2, e), m)
  {
    if e == 0 {
      x := 1 % m;
      CongMod(1, m);
      CongSym(1, 1 % m, m);
    } else {
      x := PowTwoInvertible(e - 1, m);
      x := HalveInverse(x, Pow(2, e - 1), m);
    }
  }

  lemma HalveInverse(y: int, p: int, m: int) returns (x: int)
    requires m > 0 && m % 2 == 1 && Cong(y * p, 1, m)
    ensures IsInverse(x, 2 * p, m)
  {
    var half := (m + 1) / 2;
    x := (y * half) % m;
    CongMod(y * half, m);
    CongSym(y * half, x, m);
    CongScale(x, y * half, 2 * p, m);
    CongIntro(half * 2, 1, m, 1);
    CongMul(y * p, 1, half * 2, 1, m);
    Regroup(y, half, p);
    CongTrans(x * (2 * p), y * half * (2 * p), 1, m);
  }

  lemma Regroup(y: int, h: int, p: int)
    ensures y * h * (2 * p) == (y * p) * (h * 2)
  {
    MulAssoc(y, h, 2 * p);
    MulAssoc(y, p, h * 2);
    assert h * (2 * p) == p * (h * 2);
  }

  // An odd number is invertible modulo every power of two (lifting one bit at a time).
  lemma {:induction false} OddInvertible(a: int, e: nat) returns (x: int)
    requires a % 2 == 1
    ensures Pow(2, e) > 0 && IsInverse(x, a, Pow(2, e))
  {
    PowPositive(2, e);
    if e == 0 {
      x := 0;
      CongIntro(0, 1, 1, -1);
    } else {
      x := OddInvertible(a, e - 1);
      PowPositive(2, e - 1);
      x := LiftInverse(x, a, Pow(2, e - 1));
    }
  }

  lemma LiftInverse(y: int, a: int, p: int) returns (x: int)
    requires a % 2 == 1 && p > 0 && IsInverse(y, a, p)
    ensures IsInverse(x, a, 2 * p)
  {
    var k := CongElim(y * a, 1, p);
    var t := k % 2;
    var h := (k + t * a) / 2;
    x := y + t * p;
    LiftEquation(y, a, p, k, t, h);
    CongIntro(x * a, 1, 2 * p, h);
  }

  lemma LiftEquation(y: int, a: int, p: int, k: int, t: int, h: int)
    requires y * a == 1 + k * p && (t == 0 || t == 1) && k + t * a == 2 * h
    ensures (y + t * p) * a == 1 + h * (2 * p)
  {
    if t == 1 {
      MulDistr(y, p, a);
      MulDistr(k, a, p);
      assert h * (2 * p) == (2 * h) * p;
    } else {
      assert h * (2 * p) == (2 * h) * p;
    }
  }

  // An even number has no inverse modulo a positive power of two.
  lemma EvenNotInvertible(x: int, a: int, e: nat)
    requires a % 2 == 0 && e >= 1
    ensures Pow(2, e) > 0 && !IsInverse(x, a, Pow(2, e))
  {
    PowPositive(2, e);
    var h, u := a / 2, x * (a / 2);
    assert x * a == 2 * u by { assert a == 2 * h; MulAssoc(x, 2, h); }
    EvenNotOne(u, Pow(2, e - 1));
  }

  lemma EvenNotOne(u: int, p: int)
    ensures !Cong(2 * u, 1, 2 * p)
  {
    forall k | 2 * u == 1 + Times(k, 2 * p) ensures false {
      DoubleFactor(k, p);
      assert false;
    }
  }

  lemma DoubleFactor(k: int, p: int)
    ensures k * (2 * p) == 2 * (k * p)
  {
  }

  // --------------------------------------------------------------- bit masks

  /** Bitwise and of two numbers. */
  function And(a: nat, b: nat): (c: nat)
    ensures c <= b
  {
    if a == 0 then 0 else 2 * And(a / 2, b / 2) + if a % 2 == 1 && b % 2 == 1 then 1 else 0
  }

  /** Masking with one less than a power of two is the remainder modulo that power. */
  lemma {:induction false} MaskIsModulo(x: nat, e: nat)
    ensures Pow(2, e) >= 1 && And(x, Pow(2, e) - 1) == x % Pow(2, e)
    decreases e
  {
    PowPositive(2, e);
    if e == 0 {
      AndZero(x);
      DivModUnique(x, 1, x, 0);
    } else if x == 0 {
      DivModUnique(0, Pow(2, e), 0, 0);
    } else {
      var P := Pow(2, e - 1);
      MaskIsModulo(x / 2, e - 1);
      DoubleModulo(x, P);
      assert (2 * P - 1) / 2 == P - 1 && (2 * P - 1) % 2 == 1;
    }
  }

  lemma DoubleModulo(x: nat, P: nat)
    requires P >= 1
    ensures x % (2 * P) == 2 * (x / 2 % P) + x % 2
  {
    var h, q, r := x / 2, x / 2 / P, x / 2 % P;
    assert h == q * P + r;
    DoubleFactor(q, P);
    DivModUnique(x, 2 * P, q, 2 * r + x % 2);
  }

  lemma AndZero(x: nat)
    ensures And(x, 0) == 0
  {
    if x == 0 {
    } else {
      AndZero(x / 2);
    }
  }
}
