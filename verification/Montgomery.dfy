/** One Montgomery step, bounded conditional subtraction, and what a reduction has to return. */
module Montgomery {
  import opened Arith

  // ------------------------------------------------------- what is promised

  /** r is C * R^-1 mod N, said without the inverse. */
  ghost predicate IsReduced(r: int, C: int, N: int, R: int) {
    0 <= r < N && Cong(r * R, C, N)
  }

  /** For odd N and a power of two R there is at most one such r. */
  lemma ReducedUnique(r: int, r': int, C: int, N: int, e: nat)
    requires N % 2 == 1 && IsReduced(r, C, N, Pow(2, e)) && IsReduced(r', C, N, Pow(2, e))
    ensures r == r'
  {
    var R := Pow(2, e);
    var inv := PowTwoInvertible(e, N);
    CongSym(r' * R, C, N);
    CongTrans(r * R, C, r' * R, N);
    Cancel(r, r', R, inv, N);
    CongInRange(r, r', N);
  }

  // Dividing out a first factor, then a second one, divides out their product.
  lemma ReduceTwice(r: int, T: int, C: int, N: int, A: int, B: int)
    requires Cong(T * A, C, N) && Cong(r * B, T, N)
    ensures Cong(r * (A * B), C, N)
  {
    CongScale(r * B, T, A, N);
    assert r * (A * B) == (r * B) * A by { MulAssoc(r, B, A); }
    CongTrans(r * (A * B), T * A, C, N);
  }

  // ------------------------------------------------------ montgomery_reduce

  /** The Montgomery quotient m. */
  function Quotient(T: int, mu: int, radix: int): (m: int)
    requires radix > 0
    ensures 0 <= m < radix
  {
    (T % radix * mu) % radix
  }

  function MontgomeryReduce(T: int, N: int, mu: int, shift: nat): int {
    PowPositive(2, shift);
    var radix := Pow(2, shift);
    (T + Quotient(T, mu, radix) * N) / radix
  }

  /** mu is -N^-1 modulo the radix. */
  ghost predicate IsMu(mu: int, N: int, radix: int) {
    Cong(mu * N, -1, radix)
  }

  // The low bits of T + m * N are zero, so the shift loses nothing.
  lemma QuotientCancels(T: int, N: int, mu: int, radix: int)
    requires radix > 0 && IsMu(mu, N, radix)
    ensures Cong(T + Quotient(T, mu, radix) * N, 0, radix)
  {
    var lo, m := T % radix, Quotient(T, mu, radix);
    CongMod(lo * mu, radix);
    CongSym(lo * mu, m, radix);
    CongScale(m, lo * mu, N, radix);
    CongScale(mu * N, -1, lo, radix);
    assert lo * mu * N == lo * (mu * N) by { MulAssoc(lo, mu, N); }
    CongTrans(m * N, lo * mu * N, lo * -1, radix);
    CongMod(T, radix);
    CongAdd(T, lo, m * N, -lo, radix);
  }

  /** One step divides T by the radix modulo N, and adds less than N to T / radix. */
  lemma MontgomeryStep(T: int, N: int, mu: int, shift: nat)
    requires Pow(2, shift) > 0 && N > 0 && IsMu(mu, N, Pow(2, shift))
    ensures var V := MontgomeryReduce(T, N, mu, shift);
      && V * Pow(2, shift) == T + Quotient(T, mu, Pow(2, shift)) * N
      && Cong(V * Pow(2, shift), T, N)
      && (T >= 0 ==> V >= 0)
  {
    var radix := Pow(2, shift);
    var m := Quotient(T, mu, radix);
    QuotientCancels(T, N, mu, radix);
    var k := CongElim(T + m * N, 0, radix);
    ExactDiv(T + m * N, radix, k);
    CongIntro(T + m * N, T, N, m);
    if T >= 0 {
      MulMonotone(N, 0, m);
      if k < 0 { MulMonotone(radix, k, -1); }
    }
  }

  // A bound b * radix * N on T gives the bound (b + 1) * N after the step.
  lemma StepBound(T: int, N: int, mu: int, shift: nat, b: int)
    requires Pow(2, shift) > 0 && N > 0 && IsMu(mu, N, Pow(2, shift))
    requires T < b * (Pow(2, shift) * N)
    ensures MontgomeryReduce(T, N, mu, shift) < (b + 1) * N
  {
    var radix := Pow(2, shift);
    var m, V := Quotient(T, mu, radix), MontgomeryReduce(T, N, mu, shift);
    MontgomeryStep(T, N, mu, shift);
    MulMonotone(N, m, radix - 1);
    assert V * radix < (b + 1) * (radix * N) by { MulDistr(b, 1, radix * N); }
    assert (b + 1) * (radix * N) == ((b + 1) * N) * radix by { MulAssoc(b + 1, N, radix); }
    MulStrict(radix, V, (b + 1) * N);
  }

  // --------------------------------------------------- conditional_subtract

  /** The value after the given number of conditional subtractions. */
  function CondSub(value: int, N: int, iterations: nat): int
    decreases iterations
  {
    if iterations == 0 then value
    else CondSub(if value >= N then value - N else value, N, iterations - 1)
  }

  method ConditionalSubtract(value: int, N: int, iterations: nat) returns (r: int)
    ensures r == CondSub(value, N, iterations)
  {
    r := value;
    for i := 0 to iterations
      invariant CondSub(r, N, iterations - i) == CondSub(value, N, iterations)
    {
      if r >= N {
        r := r - N;
      }
    }
  }

  // Whatever N is, only a multiple of it is taken away.
  lemma {:induction false} CondSubCong(value: int, N: int, iterations: nat) returns (j: nat)
    ensures CondSub(value, N, iterations) == value - j * N
    decreases iterations
  {
    if iterations == 0 {
      j := 0;
    } else if value >= N {
      j := CondSubCong(value - N, N, iterations - 1);
      MulDistr(j, 1, N);
      j := j + 1;
    } else {
      j := CondSubCong(value, N, iterations - 1);
    }
  }

  /** The loop ends at value mod N exactly when value < (iterations + 1) * N; otherwise N or more is left. */
  lemma {:induction false} CondSubValue(value: int, N: int, iterations: nat)
    requires N > 0 && value >= 0
    ensures CondSub(value, N, iterations) ==
      if value < (iterations + 1) * N then value % N else value - iterations * N
    decreases iterations
  {
    if iterations == 0 {
      if value < N { DivModUnique(value, N, 0, value); }
    } else if value >= N {
      CondSubValue(value - N, N, iterations - 1);
      MulDistr(iterations, 1, N);
      MulDistr(iterations - 1, 1, N);
      assert value - N == value / N * N - N + value % N;
      MulDistr(value / N, -1, N);
      DivModUnique(value - N, N, value / N - 1, value % N);
    } else {
      CondSubValue(value, N, iterations - 1);
      MulMonotone(N, 1, iterations);
      DivModUnique(value, N, 0, value);
      MulDistr(iterations, 1, N);
    }
  }

  /** Exactly how far V may exceed N for k last subtractions to give the reduced value. */
  lemma FinalSubtraction(V: int, C: int, N: int, R: int, k: nat)
    requires N > 0 && V >= 0 && Cong(V * R, C, N)
    ensures IsReduced(CondSub(V, N, k), C, N, R) <==> V < (k + 1) * N
  {
    CondSubValue(V, N, k);
    MulDistr(k, 1, N);
    if V < (k + 1) * N {
      CongMod(V, N);
      CongSym(V, V % N, N);
      CongScale(V % N, V, R, N);
      CongTrans(V % N * R, V * R, C, N);
    }
  }
}
