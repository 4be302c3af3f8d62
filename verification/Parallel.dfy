/** The four parallel reductions: a dot product of limbs with reversed rho, then one of four endings. */
module Parallel {
  import opened Arith
  import opened Limbs
  import opened Montgomery
  import opened Params

  /** The dot product is defined for vectors of one length only. */
  datatype Result = Value(value: int) | ShapeMismatch

  function Dot(a: seq<int>, b: seq<int>): int
    requires |a| == |b|
  {
    if a == [] then 0
    else
      var last := |a| - 1;
      Dot(a[..last], b[..last]) + a[last] * b[last]
  }

  /** rho[n-1], ..., rho[1]. */
  function RhoReversed(p: Config): seq<int>
    requires |p.rho| >= 1
  {
    seq(|p.rho| - 1, i requires 0 <= i < |p.rho| - 1 => p.rho[|p.rho| - 1 - i])
  }

  /** What the callers pass: n values of rho, and 2^rem as the word of the last limb. */
  predicate Callable(p: Config) {
    p.n >= 1 && |p.rho| == p.n && p.rem <= p.w && (p.rem != 0 ==> p.remWord == p.Last())
  }

  /** There are as many low limbs as values of rho to multiply them by. */
  predicate Aligned(p: Config, limbs: seq<int>) {
    Callable(p) && |limbs| >= p.n - 1
  }

  function Low(p: Config, limbs: seq<int>): seq<int>
    requires Aligned(p, limbs)
  {
    limbs[..p.n - 1]
  }

  function High(p: Config, limbs: seq<int>): int
    requires Aligned(p, limbs)
  {
    LimbsToInt(limbs[p.n - 1..], p.w)
  }

  function RawSum(p: Config, limbs: seq<int>): int
    requires Aligned(p, limbs)
  {
    Dot(Low(p, limbs), RhoReversed(p)) + High(p, limbs)
  }

  function Tree(p: Config, raw: int): int {
    CondSub(raw, p.N * Word(p.w), p.n + p.rem)
  }

  // --------------------------------------------------------- the four endings

  function ParallelLimbs(p: Config, limbs: seq<int>): int
    requires Aligned(p, limbs)
  {
    CondSub(p.LastStep(RawSum(p, limbs)), p.N, p.n + p.rem)
  }

  function TreeLimbs(p: Config, limbs: seq<int>): int
    requires Aligned(p, limbs)
  {
    CondSub(p.LastStep(Tree(p, RawSum(p, limbs))), p.N, 1)
  }

  /** The Montgomery quotient read off the raw sum. */
  function FusedQuotient(p: Config, raw: int): int
    requires Callable(p)
  {
    if p.rem != 0 then (raw % p.remWord * p.remMuR) % p.remWord
    else (raw % Word(p.w) * p.muR) % Word(p.w)
  }

  function FusedLimbs(p: Config, limbs: seq<int>): int
    requires Aligned(p, limbs)
  {
    var raw := RawSum(p, limbs);
    var m := FusedQuotient(p, raw);
    CondSub((Tree(p, raw) + m * p.N) / p.Last(), p.N, 1)
  }

  /** The precomputed rho * mu, reduced to the width of the last limb. */
  function RhoMu(rhoReversed: seq<int>, mu: int, mask: int): seq<int>
    requires mask >= 1
  {
    seq(|rhoReversed|, i requires 0 <= i < |rhoReversed| => (rhoReversed[i] * mu) % mask)
  }

  /** The Montgomery quotient from the input limbs alone. */
  function RhoFusedQuotient(p: Config, limbs: seq<int>): int
    requires Aligned(p, limbs)
  {
    var mask := if p.rem != 0 then p.remWord else Word(p.w);
    var narrow := Dot(Low(p, limbs), RhoMu(RhoReversed(p), p.Mu(), mask));
    (narrow + High(p, limbs) % mask * p.Mu()) % mask
  }

  function RhoFusedLimbs(p: Config, limbs: seq<int>): int
    requires Aligned(p, limbs)
  {
    var m := RhoFusedQuotient(p, limbs);
    CondSub((Tree(p, RawSum(p, limbs)) + m * p.N) / p.Last(), p.N, 1)
  }

  // ---------------------------------------------------- the functions on ints

  function ParallelReduce(p: Config, C: nat): Result
    requires Callable(p) && p.w >= 1
  {
    var limbs := IntToLimbs(C, p.w);
    if Aligned(p, limbs) then Value(ParallelLimbs(p, limbs)) else ShapeMismatch
  }

  function ParallelTreeReduce(p: Config, C: nat): Result
    requires Callable(p) && p.w >= 1
  {
    var limbs := IntToLimbs(C, p.w);
    if Aligned(p, limbs) then Value(TreeLimbs(p, limbs)) else ShapeMismatch
  }

  function ParallelTreeMReduce(p: Config, C: nat): Result
    requires Callable(p) && p.w >= 1
  {
    var limbs := IntToLimbs(C, p.w);
    if Aligned(p, limbs) then Value(FusedLimbs(p, limbs)) else ShapeMismatch
  }

  function ParallelTreeRoReduce(p: Config, C: nat): Result
    requires Callable(p) && p.w >= 1
  {
    var limbs := IntToLimbs(C, p.w);
    if Aligned(p, limbs) then Value(RhoFusedLimbs(p, limbs)) else ShapeMismatch
  }

  /** int_to_limbs drops high zero limbs: the dot product is defined exactly from W^(n-2) on. */
  lemma AlignedIff(p: Config, C: nat)
    requires Callable(p) && p.w >= 1
    ensures Aligned(p, IntToLimbs(C, p.w)) <==> p.n <= 2 || C >= Weight(p.w, p.n - 2)
  {
    LimbCount(C, p.w);
    var k := |IntToLimbs(C, p.w)|;
    if p.n > 2 {
      if k >= p.n - 1 {
        PowMonotone(Word(p.w), p.n - 2, k - 1);
      } else {
        PowMonotone(Word(p.w), k, p.n - 2);
      }
    }
  }

  // ------------------------------------------------------ refinement, any input

  /** The fused quotient is the one the tree would give: taking multiples of N * W away keeps the low bits. */
  lemma FusedRefinesTree(p: Config, limbs: seq<int>)
    requires Aligned(p, limbs)
    ensures FusedQuotient(p, RawSum(p, limbs)) == Quotient(Tree(p, RawSum(p, limbs)), p.Mu(), p.Last())
    ensures FusedLimbs(p, limbs) == TreeLimbs(p, limbs)
  {
    var raw := RawSum(p, limbs);
    TreeKeepsLowBits(p, raw);
  }

  lemma TreeKeepsLowBits(p: Config, raw: int)
    requires p.rem <= p.w
    ensures Tree(p, raw) % p.Last() == raw % p.Last()
  {
    var L, W := p.Last(), Word(p.w);
    var g := Pow(2, p.w - p.Shift());
    PowAdd(2, p.w - p.Shift(), p.Shift());
    var j := CondSubCong(raw, p.N * W, p.n + p.rem);
    assert j * (p.N * (g * L)) == (j * p.N * g) * L by { MulAssoc(p.N, g, L); MulAssoc(j, p.N * g, L); MulAssoc(j, p.N, g); }
    CongIntro(raw, Tree(p, raw), L, j * p.N * g);
    CongIffMod(raw, Tree(p, raw), L);
  }

  /** Pushing the modulus into the sum gives the same quotient, hence the same result. */
  lemma RhoFusedRefinesFused(p: Config, limbs: seq<int>)
    requires Aligned(p, limbs)
    ensures RhoFusedQuotient(p, limbs) == FusedQuotient(p, RawSum(p, limbs))
    ensures RhoFusedLimbs(p, limbs) == FusedLimbs(p, limbs)
  {
    var L, mu := p.Last(), p.Mu();
    var lo, rr, hi := Low(p, limbs), RhoReversed(p), High(p, limbs);
    var raw := RawSum(p, limbs);
    NarrowDot(lo, rr, mu, L);
    CongMod(hi, L);
    CongSym(hi, hi % L, L);
    CongScale(hi % L, hi, mu, L);
    CongAdd(Dot(lo, RhoMu(rr, mu, L)), Dot(lo, rr) * mu, hi % L * mu, hi * mu, L);
    MulDistr(Dot(lo, rr), hi, mu);
    CongMod(raw, L);
    CongScale(raw, raw % L, mu, L);
    CongTrans(Dot(lo, RhoMu(rr, mu, L)) + hi % L * mu, raw * mu, raw % L * mu, L);
    CongIffMod(Dot(lo, RhoMu(rr, mu, L)) + hi % L * mu, raw % L * mu, L);
  }

  lemma {:induction false} NarrowDot(a: seq<int>, r: seq<int>, mu: int, mask: int)
    requires |a| == |r| && mask >= 1
    ensures Cong(Dot(a, RhoMu(r, mu, mask)), Dot(a, r) * mu, mask)
  {
    if a == [] {
      CongRefl(0, mask);
    } else {
      var last := |a| - 1;
      NarrowDot(a[..last], r[..last], mu, mask);
      assert RhoMu(r, mu, mask)[..last] == RhoMu(r[..last], mu, mask);
      CongMod(r[last] * mu, mask);
      CongSym(r[last] * mu, (r[last] * mu) % mask, mask);
      CongScale((r[last] * mu) % mask, r[last] * mu, a[last], mask);
      MulAssoc(a[last], r[last], mu);
      MulDistr(Dot(a[..last], r[..last]), a[last] * r[last], mu);
      CongAdd(Dot(a[..last], RhoMu(r[..last], mu, mask)), Dot(a[..last], r[..last]) * mu,
              a[last] * ((r[last] * mu) % mask), a[last] * r[last] * mu, mask);
    }
  }

  // ------------------------------------------------------- the raw sum's meaning

  // Scaled by W^(n-1), value i of the reversed rho weighs what limb i weighs.
  lemma RhoReversedCong(p: Config, i: nat)
    requires p.Valid() && i < p.n - 1
    ensures Cong(RhoReversed(p)[i] * Weight(p.w, p.n - 1), Weight(p.w, i), p.N)
  {
    var j := p.n - 1 - i;
    assert p.IsRho(j);
    PowAdd(Word(p.w), j, i);
    MulAssoc(p.rho[j], Weight(p.w, j), Weight(p.w, i));
    CongScale(p.rho[j] * Weight(p.w, j), 1, Weight(p.w, i), p.N);
  }

  lemma {:induction false} DotCong(a: seq<int>, r: seq<int>, w: nat, P: int, N: int)
    requires |a| == |r| && N >= 1
    requires forall i :: 0 <= i < |r| ==> Cong(r[i] * P, Weight(w, i), N)
    ensures Cong(Dot(a, r) * P, LimbsToInt(a, w), N)
  {
    if a == [] {
      CongRefl(0, N);
    } else {
      var last := |a| - 1;
      var D := Dot(a[..last], r[..last]);
      DotCong(a[..last], r[..last], w, P, N);
      CongScale(r[last] * P, Weight(w, last), a[last], N);
      MulAssoc(a[last], r[last], P);
      MulDistr(D, a[last] * r[last], P);
      CongAdd(D * P, LimbsToInt(a[..last], w), a[last] * r[last] * P, a[last] * Weight(w, last), N);
    }
  }

  /** The raw sum is C * W^-(n-1) modulo N. */
  lemma RawSumCong(p: Config, limbs: seq<int>)
    requires p.Valid() && Aligned(p, limbs)
    ensures Cong(RawSum(p, limbs) * Weight(p.w, p.n - 1), LimbsToInt(limbs, p.w), p.N)
  {
    var N, P, rr := p.N, Weight(p.w, p.n - 1), RhoReversed(p);
    forall i | 0 <= i < |rr| ensures Cong(rr[i] * P, Weight(p.w, i), N) {
      RhoReversedCong(p, i);
    }
    DotCong(Low(p, limbs), rr, p.w, P, N);
    SplitValue(limbs, p.w, p.n - 1);
    hide Dot, LimbsToInt, Pow;
    AddHigh(Dot(Low(p, limbs), rr), LimbsToInt(Low(p, limbs), p.w), High(p, limbs), P, N);
  }

  lemma AddHigh(D: int, lo: int, hi: int, P: int, N: int)
    requires Cong(D * P, lo, N)
    ensures Cong((D + hi) * P, lo + hi * P, N)
  {
    MulDistr(D, hi, P);
    CongRefl(hi * P, N);
    CongAdd(D * P, lo, hi * P, hi * P, N);
  }

  predicate AllWithin(s: seq<int>, bound: int) {
    forall i :: 0 <= i < |s| ==> 0 <= s[i] <= bound
  }

  lemma {:induction false} DotBound(a: seq<int>, b: seq<int>, A: int, B: int)
    requires |a| == |b| && A >= 0 && B >= 0 && AllWithin(a, A) && AllWithin(b, B)
    ensures 0 <= Dot(a, b) <= |a| * (A * B)
  {
    if a == [] {
    } else {
      var last := |a| - 1;
      DotBound(a[..last], b[..last], A, B);
      ProductBound(a[last], b[last], A, B);
      MulDistr(last, 1, A * B);
    }
  }

  lemma ProductBound(x: int, y: int, A: int, B: int)
    requires 0 <= x <= A && 0 <= y <= B
    ensures 0 <= x * y <= A * B
  {
    MulMonotone(x, 0, y);
    MulMonotone(x, y, B);
    MulMonotone(B, x, A);
  }

  /** The raw sum is at most (N-1)((n-1)(W-1) + 2^shift). */
  lemma RawSumBound(p: Config, limbs: seq<int>)
    requires p.Valid() && Aligned(p, limbs) && Bounded(limbs, p.w) && p.InRange(LimbsToInt(limbs, p.w))
    ensures 0 <= RawSum(p, limbs) <= (p.N - 1) * ((p.n - 1) * (Word(p.w) - 1) + p.Last())
  {
    DotInRange(p, limbs);
    HighInRange(p, limbs);
    AddBounds(Dot(Low(p, limbs), RhoReversed(p)), High(p, limbs), p.n - 1, Word(p.w) - 1, p.N - 1, p.Last());
  }

  lemma DotInRange(p: Config, limbs: seq<int>)
    requires p.Valid() && Aligned(p, limbs) && Bounded(limbs, p.w)
    ensures 0 <= Dot(Low(p, limbs), RhoReversed(p)) <= (p.n - 1) * ((Word(p.w) - 1) * (p.N - 1))
  {
    var rr := RhoReversed(p);
    forall i | 0 <= i < |rr| ensures 0 <= rr[i] <= p.N - 1 {
      assert p.IsRho(p.n - 1 - i);
    }
    DotBound(Low(p, limbs), rr, Word(p.w) - 1, p.N - 1);
  }

  lemma HighInRange(p: Config, limbs: seq<int>)
    requires p.Valid() && Aligned(p, limbs) && Bounded(limbs, p.w) && p.InRange(LimbsToInt(limbs, p.w))
    ensures 0 <= High(p, limbs) <= (p.N - 1) * p.Last()
  {
    SplitValue(limbs, p.w, p.n - 1);
    ValueBounds(Low(p, limbs), p.w);
    ValueBounds(limbs[p.n - 1..], p.w);
    hide Pow, LimbsToInt;
    HighBound(High(p, limbs), Weight(p.w, p.n - 1), p.N, p.Last());
  }

  lemma AddBounds(D: int, hi: int, k: int, A: int, M: int, L: int)
    requires D <= k * (A * M) && hi <= M * L
    ensures D + hi <= M * (k * A + L)
  {
    MulAssoc(k, A, M);
    MulDistr(k * A, L, M);
  }

  lemma HighBound(hi: int, P: int, N: int, L: int)
    requires N >= 1 && P >= 1 && hi * P <= (N - 1) * (P * L - 1)
    ensures hi <= (N - 1) * L
  {
    MulMonotone(N - 1, P * L - 1, P * L);
    assert (N - 1) * (P * L) == P * ((N - 1) * L) by { MulAssoc(N - 1, P, L); MulAssoc(P, N - 1, L); }
    MulStrict(P, (N - 1) * L, hi);
  }

  // ----------------------------------------------------------- exact correctness

  // A sum of at most (N-1) * X with X <= b * L stays below b * (L * N).
  lemma ScaleBound(T: int, N: int, X: int, b: int, L: int)
    requires N >= 1 && b >= 1 && L >= 1 && T <= (N - 1) * X && X <= b * L
    ensures T < b * (L * N)
  {
    MulMonotone(N - 1, X, b * L);
    MulMonotone(L, 1, b);
    assert (N - 1) * (b * L) == N * (b * L) - b * L by { MulDistr(N, -1, b * L); }
    assert N * (b * L) == b * (L * N) by { MulAssoc(b, L, N); }
  }

  /** Result of the plain path: right exactly when the last step lands below (n + rem + 1) * N. */
  lemma ParallelExact(p: Config, limbs: seq<int>)
    requires p.Valid() && Aligned(p, limbs) && Bounded(limbs, p.w) && p.InRange(LimbsToInt(limbs, p.w))
    ensures IsReduced(ParallelLimbs(p, limbs), LimbsToInt(limbs, p.w), p.N, p.R()) <==>
      p.LastStep(RawSum(p, limbs)) < (p.n + p.rem + 1) * p.N
    ensures p.rem == 0 || (p.n - 1) * (Word(p.w) - 1) <= (p.n + p.rem - 1) * p.Last() ==>
      IsReduced(ParallelLimbs(p, limbs), LimbsToInt(limbs, p.w), p.N, p.R())
  {
    var raw, W, L, b := RawSum(p, limbs), Word(p.w), p.Last(), p.n + p.rem;
    RawSumCong(p, limbs);
    RawSumBound(p, limbs);
    p.Finish(raw, LimbsToInt(limbs, p.w), b);
    if p.rem == 0 {
      MulMonotone(p.n - 1, W - 1, W);
    }
    if (p.n - 1) * (W - 1) <= (b - 1) * L {
      MulDistr(b - 1, 1, L);
      ScaleBound(raw, p.N, (p.n - 1) * (W - 1) + L, b, L);
      p.LastStepFacts(raw);
      StepBound(raw, p.N, p.Mu(), p.Shift(), b);
    }
  }

  /** The tree stage always ends below N * W, so it computes the raw sum modulo N * W. */
  lemma TreeIsModulo(p: Config, limbs: seq<int>)
    requires p.Valid() && Aligned(p, limbs) && Bounded(limbs, p.w) && p.InRange(LimbsToInt(limbs, p.w))
    ensures p.N * Word(p.w) >= 1
    ensures 0 <= RawSum(p, limbs) < p.n * (p.N * Word(p.w))
    ensures Tree(p, RawSum(p, limbs)) == RawSum(p, limbs) % (p.N * Word(p.w))
  {
    RawSumBound(p, limbs);
    p.ShiftBound();
    SumModulo(RawSum(p, limbs), p.N, Word(p.w), p.Last(), p.n, p.rem);
  }

  lemma SumModulo(raw: int, N: int, W: int, L: int, n: nat, rem: nat)
    requires N >= 1 && W >= 1 && n >= 1 && L <= W && 0 <= raw <= (N - 1) * ((n - 1) * (W - 1) + L)
    ensures N * W >= 1 && raw < n * (N * W)
    ensures CondSub(raw, N * W, n + rem) == raw % (N * W)
  {
    SumBelow(raw, N, W, L, n);
    MulMonotone(N * W, n, n + rem + 1);
    CondSubValue(raw, N * W, n + rem);
  }

  lemma SumBelow(raw: int, N: int, W: int, L: int, n: int)
    requires N >= 1 && W >= 1 && n >= 1 && L <= W && raw <= (N - 1) * ((n - 1) * (W - 1) + L)
    ensures N * W >= 1 && raw < n * (N * W)
  {
    MulMonotone(n - 1, W - 1, W);
    MulDistr(n - 1, 1, W);
    MulMonotone(W, 1, N);
    ScaleBound(raw, N, (n - 1) * (W - 1) + L, n, W);
  }

  /** Result of the tree path: right exactly when the reduced sum's last step lands below 2N, which
      rem = 0 guarantees; in general it lands below (1 + 2^(w - shift)) * N. */
  lemma TreeExact(p: Config, limbs: seq<int>)
    requires p.Valid() && Aligned(p, limbs) && Bounded(limbs, p.w) && p.InRange(LimbsToInt(limbs, p.w))
    ensures p.N * Word(p.w) >= 1
    ensures var V := p.LastStep(RawSum(p, limbs) % (p.N * Word(p.w)));
      && (IsReduced(TreeLimbs(p, limbs), LimbsToInt(limbs, p.w), p.N, p.R()) <==> V < 2 * p.N)
      && V < (1 + Pow(2, p.w - p.Shift())) * p.N
    ensures p.rem == 0 ==> IsReduced(TreeLimbs(p, limbs), LimbsToInt(limbs, p.w), p.N, p.R())
  {
    var raw, W, L, N, C := RawSum(p, limbs), Word(p.w), p.Last(), p.N, LimbsToInt(limbs, p.w);
    var P, T, g := Weight(p.w, p.n - 1), Tree(p, raw), Pow(2, p.w - p.Shift());
    TreeIsModulo(p, limbs);
    RawSumCong(p, limbs);
    ReducedSumCong(raw, N, W, P, C);
    p.Finish(T, C, 1);
    p.ShiftBound();
    p.LastStepFacts(T);
    assert N * W == g * (L * N) by { MulAssoc(g, L, N); }
    StepBound(T, N, p.Mu(), p.Shift(), g);
  }

  lemma ReducedSumCong(raw: int, N: int, W: int, P: int, C: int)
    requires N >= 1 && N * W >= 1 && Cong(raw * P, C, N)
    ensures Cong(raw % (N * W) * P, C, N)
  {
    var q, T := raw / (N * W), raw % (N * W);
    assert q * (N * W) == (q * W) * N;
    CongIntro(T, raw, N, -(q * W));
    CongScale(T, raw, P, N);
    CongTrans(T * P, raw * P, C, N);
  }
}
