/** The sequential reduction: n - 1 jumps, one Montgomery step, three conditional subtractions. */
module Sequential {
  import opened Arith
  import opened Limbs
  import opened Montgomery
  import opened Params

  /** T // W + (T mod W) * rho[1]. */
  function Jump(T: int, W: int, rho1: int): int
    requires W >= 1
  {
    T / W + T % W * rho1
  }

  function Jumps(C: int, W: int, rho1: int, count: nat): int
    requires W >= 1
  {
    if count == 0 then C else Jump(Jumps(C, W, rho1, count - 1), W, rho1)
  }

  /** The value the jumps leave for the last Montgomery step; one limb needs no jump and no rho[1]. */
  function Jumped(p: Config, C: int): int
    requires p.n >= 1 && (p.n >= 2 ==> |p.rho| >= 2)
  {
    if p.n == 1 then C else Jumps(C, Word(p.w), p.rho[1], p.n - 1)
  }

  method SequentialReduce(p: Config, C: int) returns (r: int)
    requires p.n >= 1 && (p.n >= 2 ==> |p.rho| >= 2)
    ensures r == CondSub(p.LastStep(Jumped(p, C)), p.N, 3)
    ensures p.Valid() && p.InRange(C) ==>
      (IsReduced(r, C, p.N, p.R()) <==> p.LastStep(Jumped(p, C)) < 4 * p.N)
    ensures p.Valid() && p.InRange(C) && (p.rem == 0 || p.rem == p.w - 1) ==> IsReduced(r, C, p.N, p.R())
  {
    var T := C;
    for k := 1 to p.n
      invariant p.n >= 2 ==> T == Jumps(C, Word(p.w), p.rho[1], k - 1)
      invariant p.n == 1 ==> T == C
    {
      T := T / Word(p.w) + T % Word(p.w) * p.rho[1];
    }
    if p.rem != 0 {
      T := MontgomeryReduce(T, p.N, p.remMuR, p.rem);
    } else {
      T := MontgomeryReduce(T, p.N, p.muR, p.w);
    }
    r := ConditionalSubtract(T, p.N, 3);
    if p.Valid() && p.InRange(C) {
      SequentialExact(p, C);
    }
  }

  // One jump divides T by W modulo N.
  lemma JumpCong(T: int, W: int, rho1: int, N: int)
    requires W >= 1 && N >= 1 && Cong(rho1 * W, 1, N)
    ensures Cong(Jump(T, W, rho1) * W, T, N)
  {
    var q, d := T / W, T % W;
    assert T == q * W + d;
    MulDistr(q, d * rho1, W);
    MulAssoc(d, rho1, W);
    CongScale(rho1 * W, 1, d, N);
    CongRefl(q * W, N);
    CongAdd(q * W, q * W, d * (rho1 * W), d, N);
  }

  lemma JumpBound(T: int, W: int, rho1: int, N: int)
    requires W >= 1 && T >= 0 && 0 <= rho1 < N
    ensures 0 <= Jump(T, W, rho1)
    ensures Jump(T, W, rho1) * W <= T + (N - 1) * ((W - 1) * W)
  {
    JumpParts(T / W, T % W, T, W, rho1, N);
  }

  lemma JumpParts(q: int, d: int, T: int, W: int, rho1: int, N: int)
    requires T == W * q + d && 0 <= d < W && T >= 0 && 0 <= rho1 < N
    ensures 0 <= q + d * rho1
    ensures (q + d * rho1) * W <= T + (N - 1) * ((W - 1) * W)
  {
    var x, y := d * rho1, (N - 1) * (W - 1);
    assert 0 <= x <= y by {
      MulMonotone(d, 0, rho1);
      MulMonotone(d, rho1, N - 1);
      MulMonotone(N - 1, d, W - 1);
    }
    assert 0 <= q by {
      if q < 0 { MulMonotone(W, q, -1); }
    }
    MulMonotone(W, x, y);
    MulDistr(q, x, W);
    MulAssoc(N - 1, W - 1, W);
  }

  /** Through all jumps: T_k * W^k is congruent to C and at most C + (N-1)(W^(k+1) - W). */
  lemma {:induction false} JumpInvariant(C: int, w: nat, rho1: int, N: int, k: nat)
    requires C >= 0 && 0 <= rho1 < N && Cong(rho1 * Word(w), 1, N)
    ensures var T := Jumps(C, Word(w), rho1, k);
      && T >= 0
      && Cong(T * Weight(w, k), C, N)
      && T * Weight(w, k) <= C + (N - 1) * (Weight(w, k + 1) - Word(w))
  {
    var W := Word(w);
    if k == 0 {
      CongRefl(C, N);
      assert Weight(w, 1) == W * Weight(w, 0);
    } else {
      JumpInvariant(C, w, rho1, N, k - 1);
      var S, T, P := Jumps(C, W, rho1, k - 1), Jumps(C, W, rho1, k), Weight(w, k - 1);
      JumpCong(S, W, rho1, N);
      JumpBound(S, W, rho1, N);
      MulAssoc(T, W, P);
      CongScale(T * W, S, P, N);
      CongTrans(T * W * P, S * P, C, N);
      assert Weight(w, k) == W * P && Weight(w, k + 1) == W * (W * P);
      Telescope(T, S, C, N, W, P);
    }
  }

  lemma Telescope(T: int, S: int, C: int, N: int, W: int, P: int)
    requires P >= 1 && W >= 1
    requires T * W <= S + (N - 1) * ((W - 1) * W)
    requires S * P <= C + (N - 1) * (W * P - W)
    ensures T * W * P <= C + (N - 1) * (W * (W * P) - W)
  {
    MulMonotone(P, T * W, S + (N - 1) * ((W - 1) * W));
    MulDistr(S, (N - 1) * ((W - 1) * W), P);
    MulAssoc(N - 1, (W - 1) * W, P);
    MulAssoc(W - 1, W, P);
    assert (W - 1) * (W * P) == W * (W * P) - W * P;
    MulDistr2(N - 1, W * P - W, W * (W * P) - W * P);
  }

  lemma MulDistr2(a: int, b: int, c: int)
    ensures a * (b + c) == a * b + a * c
  {
  }

  // After n - 1 jumps T is at most (N-1)(2^shift + W), whatever n is.
  lemma JumpedBound(p: Config, C: int)
    requires p.Valid() && p.InRange(C)
    ensures var T := Jumped(p, C);
      && 0 <= T <= (p.N - 1) * (p.Last() + Word(p.w))
      && Cong(T * Weight(p.w, p.n - 1), C, p.N)
  {
    var W, L, P, N := Word(p.w), p.Last(), Weight(p.w, p.n - 1), p.N;
    if p.n == 1 {
      CongRefl(C, N);
      MulMonotone(N - 1, p.R() - 1, L + W);
    } else {
      assert p.IsRho(1) && Weight(p.w, 1) == W * Weight(p.w, 0);
      JumpInvariant(C, p.w, p.rho[1], N, p.n - 1);
      var T := Jumps(C, W, p.rho[1], p.n - 1);
      assert Weight(p.w, p.n) == W * P;
      DivideOut(Jumps(C, W, p.rho[1], p.n - 1), C, N, W, P, L);
    }
  }

  lemma DivideOut(T: int, C: int, N: int, W: int, P: int, L: int)
    requires N >= 1 && W >= 1 && P >= 1
    requires C <= (N - 1) * (P * L - 1)
    requires T * P <= C + (N - 1) * (W * P - W)
    ensures T <= (N - 1) * (L + W)
  {
    MulDistr2(N - 1, P * L - 1, W * P - W);
    MulDistr2(P, L, W);
    MulMonotone(N - 1, P * L - 1 + W * P - W, P * (L + W));
    MulSwap(N - 1, P, L + W);
    MulStrict(P, (N - 1) * (L + W), T);
  }

  lemma MulSwap(a: int, b: int, c: int)
    ensures a * (b * c) == b * (a * c)
  {
    MulAssoc(a, b, c);
    MulAssoc(b, a, c);
  }

  /** Before the last subtractions the value is below (2 + W / 2^shift) * N. */
  lemma SequentialBound(p: Config, C: int)
    requires p.Valid() && p.InRange(C)
    ensures p.LastStep(Jumped(p, C)) < (2 + Pow(2, p.w - p.Shift())) * p.N
  {
    var T, W, L, N := Jumped(p, C), Word(p.w), p.Last(), p.N;
    var g := Pow(2, p.w - p.Shift());
    JumpedBound(p, C);
    p.ShiftBound();
    p.LastStepFacts(T);
    ScaleBound(T, N, L, W, g);
    StepBound(T, N, p.Mu(), p.Shift(), 1 + g);
  }

  lemma ScaleBound(T: int, N: int, L: int, W: int, g: int)
    requires L >= 1 && g >= 1 && W == g * L && T <= (N - 1) * (L + W)
    ensures T < (1 + g) * (L * N)
  {
    MulDistr(N, -1, L + W);
    MulDistr(1, g, L);
    MulSwap(N, 1 + g, L);
    MulMonotone(L, 1, g);
  }

  /** The result is C * R^-1 mod N exactly when the last step lands below 4N, which rem = 0 (with a
      subtraction to spare) and rem = w - 1 guarantee. */
  lemma SequentialExact(p: Config, C: int)
    requires p.Valid() && p.InRange(C)
    ensures var V := p.LastStep(Jumped(p, C));
      && (IsReduced(CondSub(V, p.N, 3), C, p.N, p.R()) <==> V < 4 * p.N)
      && (p.rem == 0 || p.rem == p.w - 1 ==> V < 4 * p.N)
      && (p.rem == 0 ==> IsReduced(CondSub(V, p.N, 2), C, p.N, p.R()))
  {
    JumpedBound(p, C);
    SequentialBound(p, C);
    p.ShiftBound();
    p.Finish(Jumped(p, C), C, 3);
    p.Finish(Jumped(p, C), C, 2);
    if p.rem == p.w - 1 {
      assert Pow(2, 1) == 2;
    }
  }
}
