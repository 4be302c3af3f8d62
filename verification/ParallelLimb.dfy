/** For how many limbs, and which length of the last one, n + rem subtractions are enough on the plain parallel path. */
module ParallelLimb {
  import opened Arith
  import opened Limbs
  import opened Montgomery
  import opened Params
  import opened Parallel
  import opened LogJumps
  import opened ShortLimb

  // ------------------------------------------------------ how large the raw sum can be

  // rho[k] * W^k is one more than a multiple of N, and below N * W^k: at most one more than (W^k - 1) * N.
  lemma RhoAtMost(rho: int, A: int, N: int)
    requires N >= 1 && A >= 1 && 0 <= rho < N && Cong(rho * A, 1, N)
    ensures rho * A <= 1 + (A - 1) * N
  {
    var e := CongElim(rho * A, 1, N);
    MulMonotone(A, rho, N - 1);
    MulDistr(N, -1, A);
    MulStrict(N, e, A);
    MulMonotone(N, e, A - 1);
  }

  /** Value i of the reversed rho weighs at most P = W^(n-1) times what it can, in units of W^i. */
  ghost predicate WeighsAtMost(r: int, B: int, P: int, N: int) {
    B <= P && r * P <= B + N * (P - B)
  }

  lemma ReversedAtMost(p: Config, i: nat)
    requires p.Valid() && i < p.n - 1
    ensures WeighsAtMost(RhoReversed(p)[i], Weight(p.w, i), Weight(p.w, p.n - 1), p.N)
  {
    var k := p.n - 1 - i;
    var rho, A, B := p.rho[k], Weight(p.w, k), Weight(p.w, i);
    assert p.IsRho(k);
    PowAdd(Word(p.w), k, i);
    RhoAtMost(rho, A, p.N);
    ScaleUp(rho, A, B, p.N);
  }

  lemma ScaleUp(rho: int, A: int, B: int, N: int)
    requires A >= 1 && B >= 1 && rho * A <= 1 + (A - 1) * N
    ensures WeighsAtMost(rho, B, A * B, N)
  {
    MulMonotone(B, 1, A);
    MulMonotone(B, rho * A, 1 + (A - 1) * N);
    MulAssoc(rho, A, B);
    MulDistr(1, (A - 1) * N, B);
    assert (A - 1) * N * B == N * (A * B - B) by { MulAssoc(A - 1, N, B); MulAssoc(N, A - 1, B); MulDistr(A, -1, B); }
  }

  /** What m limbs can add at most, in units of W^-(n-1): the weights of the limbs telescope. */
  function Excess(m: nat, W: int, P: int, top: int): int {
    m * ((W - 1) * P) - (top - 1)
  }

  lemma {:induction false} DotAtMost(a: seq<int>, r: seq<int>, w: nat, P: int, N: int)
    requires |a| == |r| && N >= 1 && Bounded(a, w)
    requires forall i :: 0 <= i < |r| ==> WeighsAtMost(r[i], Weight(w, i), P, N)
    ensures Dot(a, r) * P <= LimbsToInt(a, w) + N * Excess(|a|, Word(w), P, Weight(w, |a|))
  {
    if a == [] {
    } else {
      var last := |a| - 1;
      DotAtMost(a[..last], r[..last], w, P, N);
      assert Weight(w, |a|) == Word(w) * Weight(w, last);
      OneMoreLimb(Dot(a[..last], r[..last]), LimbsToInt(a[..last], w), a[last], r[last], last, Word(w), P,
                  Weight(w, last), N);
    }
  }

  lemma OneMoreLimb(D: int, v: int, x: int, r: int, m: nat, W: int, P: int, B: int, N: int)
    requires N >= 1 && 0 <= x < W && WeighsAtMost(r, B, P, N)
    requires D * P <= v + N * Excess(m, W, P, B)
    ensures (D + x * r) * P <= v + x * B + N * Excess(m + 1, W, P, W * B)
  {
    hide Excess;
    MulDistr(D, x * r, P);
    MulAssoc(x, r, P);
    OneLimb(x, r * P, B, N * (P - B), W);
    MulMonotone(N, 0, P - B);
    ExcessStep(m, W, P, B, N);
  }

  lemma OneLimb(x: int, rP: int, B: int, Ne: int, W: int)
    requires 0 <= x < W && rP <= B + Ne
    ensures Ne >= 0 ==> x * rP <= x * B + (W - 1) * Ne
  {
    MulMonotone(x, rP, B + Ne);
    assert x * (B + Ne) == x * B + x * Ne;
    if Ne >= 0 { MulMonotone(Ne, x, W - 1); }
  }

  lemma ExcessStep(m: nat, W: int, P: int, B: int, N: int)
    ensures N * Excess(m, W, P, B) + (W - 1) * (N * (P - B)) == N * Excess(m + 1, W, P, W * B)
  {
    MulDistr(m, 1, (W - 1) * P);
    assert (W - 1) * (P - B) == (W - 1) * P - W * B + B;
    assert (W - 1) * (N * (P - B)) == N * ((W - 1) * (P - B)) by { MulAssoc(W - 1, N, P - B); MulAssoc(N, W - 1, P - B); }
    assert N * (Excess(m, W, P, B) + (W - 1) * (P - B)) == N * Excess(m, W, P, B) + N * ((W - 1) * (P - B));
  }

  /** The raw sum is at most ((n-1)(W-1) - 1 + L) * N - L, for every odd N and every input in range. */
  lemma RawSumTight(p: Config, limbs: seq<int>)
    requires p.Valid() && p.n >= 2 && Aligned(p, limbs) && Bounded(limbs, p.w) && p.InRange(LimbsToInt(limbs, p.w))
    ensures RawSum(p, limbs) <= ((p.n - 1) * (Word(p.w) - 1) - 1 + p.Last()) * p.N - p.Last()
  {
    var low, rr, P, W := Low(p, limbs), RhoReversed(p), Weight(p.w, p.n - 1), Word(p.w);
    forall i | 0 <= i < |rr| ensures WeighsAtMost(rr[i], Weight(p.w, i), P, p.N) {
      ReversedAtMost(p, i);
    }
    DotAtMost(low, rr, p.w, P, p.N);
    SplitValue(limbs, p.w, p.n - 1);
    assert P >= 2 by { PowMonotone(W, 1, p.n - 1); assert Pow(W, 1) == W * Pow(W, 0); }
    var D, hi, C, R, L := Dot(low, rr), High(p, limbs), LimbsToInt(limbs, p.w), p.R(), p.Last();
    hide *;
    TightSum(D, hi, LimbsToInt(low, p.w), C, p.n - 1, W, P, L, p.N);
  }

  lemma TightSum(D: int, hi: int, v: int, C: int, m: nat, W: int, P: int, L: int, N: int)
    requires N >= 1 && P >= 2 && C == v + hi * P && C <= (N - 1) * (P * L - 1)
    requires D * P <= v + N * Excess(m, W, P, P)
    ensures D + hi <= (m * (W - 1) - 1 + L) * N - L
  {
    var K := m * (W - 1);
    var B := (K - 1 + L) * N - L;
    MulDistr(D, hi, P);
    ExcessTotal(m, W, P, N);
    RangeTotal(P, L, N);
    Expand(P, K, L, N);
    hide Excess;
    if D + hi > B {
      MulMonotone(P, B + 1, D + hi);
    }
  }

  lemma ExcessTotal(m: nat, W: int, P: int, N: int)
    ensures N * Excess(m, W, P, P) == P * (N * (m * (W - 1))) - N * P + N
  {
    var K := m * (W - 1);
    MulAssoc(m, W - 1, P);
    assert N * (K * P) == P * (N * K) by { MulAssoc(N, K, P); }
    assert N * (K * P - (P - 1)) == N * (K * P) - N * P + N;
  }

  lemma RangeTotal(P: int, L: int, N: int)
    ensures (N - 1) * (P * L - 1) == P * (N * L) - P * L - N + 1
  {
    assert N * (P * L) == P * (N * L) by { MulAssoc(N, P, L); MulAssoc(P, N, L); }
  }

  lemma Expand(P: int, K: int, L: int, N: int)
    ensures P * ((K - 1 + L) * N - L) == P * (N * K) - N * P + P * (N * L) - P * L
  {
    assert (K - 1 + L) * N == N * K - N + N * L;
    assert P * (N * K - N + N * L - L) == P * (N * K) - P * N + P * (N * L) - P * L;
  }

  // --------------------------------------------------------------- where it is enough

  /** The condition, for n limbs of w bits of which the last has rem. */
  predicate FewEnough(w: nat, n: nat, rem: nat)
    requires n >= 1
  {
    rem == 0 || (n - 1) * (Word(w) - 1) <= (n + rem - 1) * Pow(2, rem) + 2
  }

  lemma ParallelEnough(N: nat, w: nat, n: nat, rem: nat, C: nat)
    requires w >= 1 && n >= 1 && Drawn(N, w, rem, C) && CeilDiv(BitLength(N), w) == n && FewEnough(w, n, rem)
    ensures ParallelRight(N, w, C)
  {
    var p := DrawnConfig(N, w, rem, C);
    LimbsOf(N, w);
    var limbs := IntToLimbs(C, w);
    assert rem != 0 ==> p.Last() == Pow(2, rem);
    hide Pow, Word, Weight, Config.R, Config.InRange, Config.LastStep, Config.Last, RawSum, CondSub, IntToLimbs, Drawn,
         Setup, BitLength;
    RoundTrip(C, w);
    AlignedIff(p, C);
    if LongEnough(p, C) {
      LimbsEnough(p, limbs, C);
    }
  }

  lemma LimbsEnough(p: Config, limbs: seq<int>, C: nat)
    requires p.Valid() && Aligned(p, limbs) && Bounded(limbs, p.w) && LimbsToInt(limbs, p.w) == C && p.InRange(C)
    requires p.rem == 0 || (p.n - 1) * (Word(p.w) - 1) <= (p.n + p.rem - 1) * p.Last() + 2
    ensures Invertible(p.R(), p.N) && ParallelLimbs(p, limbs) == Expected(p, C)
  {
    assert p.n >= 1;
    hide *;
    ParallelExact(p, limbs);
    ExpectedIff(p, C, ParallelLimbs(p, limbs));
    if p.rem != 0 {
      if p.n >= 2 {
        BelowLimit(p, limbs);
      } else {
        OneLimbEnough(p);
      }
    }
  }

  lemma OneLimbEnough(p: Config)
    requires p.n == 1
    ensures (p.n - 1) * (Word(p.w) - 1) <= (p.n + p.rem - 1) * p.Last()
  {
    MulMonotone(p.Last(), 0, p.rem);
  }

  lemma BelowLimit(p: Config, limbs: seq<int>)
    requires p.Valid() && p.n >= 2 && Aligned(p, limbs) && Bounded(limbs, p.w) && p.InRange(LimbsToInt(limbs, p.w))
    requires (p.n - 1) * (Word(p.w) - 1) <= (p.n + p.rem - 1) * p.Last() + 2
    ensures p.LastStep(RawSum(p, limbs)) < (p.n + p.rem + 1) * p.N
  {
    RawSumTight(p, limbs);
    var T, L, N, K, k := RawSum(p, limbs), p.Last(), p.N, (p.n - 1) * (Word(p.w) - 1), p.n + p.rem - 1;
    p.LastStepFacts(T);
    var m, V := Quotient(T, p.Mu(), L), p.LastStep(T);
    hide *;
    LimitMet(V, T, m, K, k, L, N);
  }

  lemma LimitMet(V: int, T: int, m: int, K: int, k: nat, L: int, N: int)
    requires N >= 1 && L >= 1 && 0 <= m < L && V * L == T + m * N
    requires T <= (K - 1 + L) * N - L && K <= k * L + 2
    ensures V < (k + 2) * N
  {
    MulMonotone(N, m, L - 1);
    MulMonotone(N, K + 2 * L - 2, k * L + 2 * L);
    MulDistr(K - 1 + L, L - 1, N);
    TwoMore(k, L, N);
    MulStrict(L, V, (k + 2) * N);
  }

  lemma TwoMore(k: int, L: int, N: int)
    ensures (k * L + 2 * L) * N == (k + 2) * N * L
  {
    MulDistr(k, 2, L);
    MulAssoc(k + 2, L, N);
    MulAssoc(k + 2, N, L);
  }

  // ------------------------------------------------------------- where it is not enough

  /** Limbs that are all W - 1. */
  function Full(m: nat, W: int): (s: seq<int>)
    ensures |s| == m
  {
    seq(m, i => W - 1)
  }

  lemma {:induction false} FullValue(m: nat, w: nat)
    ensures LimbsToInt(Full(m, Word(w)), w) == Weight(w, m) - 1
  {
    var a := Full(m, Word(w));
    if m == 0 {
    } else {
      FullValue(m - 1, w);
      assert a[..m - 1] == Full(m - 1, Word(w));
      assert Weight(w, m) == Word(w) * Weight(w, m - 1);
      MulDistr(Word(w), -1, Weight(w, m - 1));
    }
  }

  /** Full limbs against values N - h * W^i: the weights telescope. */
  lemma {:induction false} FullDot(r: seq<int>, m: nat, w: nat, h: int, N: int)
    requires |r| == m && forall i :: 0 <= i < m ==> r[i] == N - h * Weight(w, i)
    ensures Dot(Full(m, Word(w)), r) == m * ((Word(w) - 1) * N) - h * (Weight(w, m) - 1)
  {
    var W, a := Word(w), Full(m, Word(w));
    if m == 0 {
    } else {
      var last := m - 1;
      var B := Weight(w, last);
      FullDot(r[..last], last, w, h, N);
      assert a[..last] == Full(last, W) && Weight(w, m) == W * B;
      hide Word, Weight, Pow;
      FullStep(last, W, N, h, B);
    }
  }

  lemma FullStep(m: nat, W: int, N: int, h: int, B: int)
    ensures m * ((W - 1) * N) - h * (B - 1) + (W - 1) * (N - h * B) == (m + 1) * ((W - 1) * N) - h * (W * B - 1)
  {
    MulDistr(m, 1, (W - 1) * N);
    assert (W - 1) * (N - h * B) == (W - 1) * N - (W - 1) * (h * B);
    assert (W - 1) * (h * B) == h * (W * B) - h * B by { MulDistr(W, -1, h * B); MulAssoc(W, h, B); MulAssoc(h, W, B); }
  }

  // An input P * q + (P - 1) has full low limbs, and q above them.
  lemma LimbsOfFull(p: Config, C: nat, P: int, q: nat)
    requires Callable(p) && p.w >= 1 && P == Weight(p.w, p.n - 1) && C == P * q + (P - 1)
    requires Aligned(p, IntToLimbs(C, p.w))
    ensures Low(p, IntToLimbs(C, p.w)) == Full(p.n - 1, Word(p.w)) && High(p, IntToLimbs(C, p.w)) == q
  {
    var limbs := IntToLimbs(C, p.w);
    hide IntToLimbs;
    RoundTrip(C, p.w);
    SplitValue(limbs, p.w, p.n - 1);
    var low := Low(p, limbs);
    ValueBounds(low, p.w);
    FullValue(p.n - 1, p.w);
    DivModUnique(C, P, q, P - 1);
    DivModUnique(C, P, High(p, limbs), LimbsToInt(low, p.w));
    ValueInjective(low, Full(p.n - 1, Word(p.w)), p.w);
  }

  lemma ReversedRho(p: Config, w: nat, n: nat, rem: nat, h: int, L: int, P: int, i: nat)
    requires Witness(p, w, n, rem, h, L, P) && i < n - 1
    ensures RhoReversed(p)[i] == p.N - h * Weight(w, i)
  {
    assert n - 1 - (n - 1 - i) == i;
  }

  /** With all low limbs full and the rest q the sum is q + (n-1)(W-1)N - (N - 1 - h). */
  lemma FullSum(p: Config, w: nat, n: nat, rem: nat, h: int, L: int, P: int, q: nat) returns (C: nat)
    requires Witness(p, w, n, rem, h, L, P)
    ensures C == P * q + (P - 1) && Aligned(p, IntToLimbs(C, w))
    ensures RawSum(p, IntToLimbs(C, w)) == q + (n - 1) * ((Word(w) - 1) * p.N) - (p.N - 1 - h)
  {
    MulMonotone(P, 0, q);
    C := P * q + (P - 1);
    LongInput(p, w, n, P, C);
    AlignedIff(p, C);
    LimbsOfFull(p, C, P, q);
    WitnessDot(p, w, n, rem, h, L, P);
    assert Callable(p) && p.n == n;
    hide Pow, Word, Weight, IntToLimbs, Witness, Dot, High, Low;
  }

  lemma WitnessDot(p: Config, w: nat, n: nat, rem: nat, h: int, L: int, P: int)
    requires Witness(p, w, n, rem, h, L, P)
    ensures |RhoReversed(p)| == n - 1
    ensures Dot(Full(n - 1, Word(w)), RhoReversed(p)) == (n - 1) * ((Word(w) - 1) * p.N) - (p.N - 1 - h)
  {
    var rr, m := RhoReversed(p), n - 1;
    assert |rr| == m && P == Weight(w, m) && p.N == P * h + 1;
    hide Pow, Word, Weight, Dot, Full, Setup, BitLength, CeilDiv, Config.R, Config.Last, Config.Valid;
    forall i | 0 <= i < m ensures rr[i] == p.N - h * Weight(w, i) {
      ReversedRho(p, w, n, rem, h, L, P, i);
    }
    FullDotValue(rr, m, w, h, p.N, P);
  }

  lemma FullDotValue(r: seq<int>, m: nat, w: nat, h: int, N: int, P: int)
    requires |r| == m && P == Weight(w, m) && N == P * h + 1
    requires forall i :: 0 <= i < m ==> r[i] == N - h * Weight(w, i)
    ensures Dot(Full(m, Word(w)), r) == m * ((Word(w) - 1) * N) - (N - 1 - h)
  {
    hide *;
    FullDot(r, m, w, h, N);
    assert h * (P - 1) == N - 1 - h;
  }

  lemma LongInput(p: Config, w: nat, n: nat, P: int, C: nat)
    requires w >= 1 && n >= 2 && p.n == n && p.w == w && P == Weight(w, n - 1) && C >= P - 1
    ensures C >= Weight(w, n - 2)
  {
    assert P == Word(w) * Weight(w, n - 2);
    MulMonotone(Weight(w, n - 2), 2, Word(w));
  }

  lemma ParallelFails(w: nat, n: nat, rem: nat) returns (N: nat, C: nat)
    requires 1 <= rem < w && n >= 2 && !FewEnough(w, n, rem)
    ensures Drawn(N, w, rem, C) && CeilDiv(BitLength(N), w) == n && !ParallelRight(N, w, C)
  {
    var h, L, W, g := PowersOf(w, rem);
    var P, Q := Weight(w, n - 1), Weight(w, n - 2);
    assert P == W * Q;
    var p := WitnessConfig(w, n, rem, h, L, W, g, P);
    N := p.N;
    var K, k: nat := (n - 1) * (W - 1), n + rem - 1;
    assert K >= k * L + 3;
    var q, T, j, l := FailingNumbers(N, n, h, L, W, g, P, Q, K, k);
    hide Pow, Word, Weight, BitLength, CeilDiv, Config.R, Config.Last, Config.LastStep, Config.Valid, Setup, RawSum,
         IntToLimbs, FewEnough;
    C := FullSum(p, w, n, rem, h, L, P, q);
    MulAssoc(n - 1, W - 1, N);
    assert RawSum(p, IntToLimbs(C, w)) == T;
    LargestQuotient(p, T, L, j, l);
    AtLeast(p.LastStep(T), L, k + 2, N, T + (L - 1) * N);
    ExactlyWhenExpected(p, C);
  }

  /** The largest sum that is one more than a multiple of L, and what it comes to. */
  lemma FailingNumbers(N: int, n: nat, h: int, L: int, W: int, g: int, P: int, Q: int, K: int, k: nat)
    returns (q: nat, T: int, j: int, l: int)
    requires n >= 2 && N == P * h + 1 && P == W * Q && Q >= 1 && W == g * L && g >= 2 && L == 2 * h && h >= 1
    requires K == (n - 1) * (W - 1) >= k * L + 3
    ensures T == q + K * N - (N - 1 - h) == j * L + 1 && N == l * L + 1
    ensures P * q + (P - 1) <= (N - 1) * (P * L - 1) && (k + 2) * (N * L) <= T + (L - 1) * N
  {
    var t, d := -(n + 1) / L, -(n + 1) % L;
    assert -(n + 1) == t * L + d && 0 <= d < L;
    ModulusSize(N, h, L, W, g, P, Q);
    q := L * (N - 1) - h - 1 - d;
    T := q + K * N - (N - 1 - h);
    l := g * Q * h;
    ModulusRest(N, h, L, W, g, P, Q);
    InRangeBound(P, h, L, N, q);
    j := SumRest(n, L, W, g, K, N, l, t, d);
    SumLarge(N, L, K, k, d);
  }

  lemma ModulusSize(N: int, h: int, L: int, W: int, g: int, P: int, Q: int)
    requires N == P * h + 1 && P == W * Q && Q >= 1 && W == g * L && g >= 2 && L == 2 * h && h >= 1
    ensures P >= 1 && N >= 2 * L && L * (N - 1) >= h + L
  {
    MulMonotone(L, 2, g);
    MulMonotone(W, 1, Q);
    MulMonotone(P, 1, h);
    MulMonotone(L, 2, N - 1);
  }

  lemma ModulusRest(N: int, h: int, L: int, W: int, g: int, P: int, Q: int)
    requires N == P * h + 1 && P == W * Q && W == g * L
    ensures N == (g * Q * h) * L + 1
  {
    assert g * L * Q == (g * Q) * L by { Exchange(g, L, Q); }
    Exchange(g * Q, L, h);
  }

  lemma SumRest(n: nat, L: int, W: int, g: int, K: int, N: int, l: int, t: int, d: int) returns (j: int)
    requires W == g * L && K == (n - 1) * (W - 1) && N == l * L + 1 && -(n + 1) == t * L + d
    ensures L * (N - 1) - 1 - d + K * N - (N - 1) == j * L + 1
  {
    j := (K + L - 1) * l + (n - 1) * g + t;
    MulAssoc(n - 1, g, L);
    JoinMultiples((K + L - 1) * l, (n - 1) * g, t, L);
    MulAssoc(K + L - 1, l, L);
    SpreadOut(K, L, N);
  }

  lemma JoinMultiples(a: int, b: int, c: int, L: int)
    ensures (a + b + c) * L == a * L + b * L + c * L
  {
  }

  lemma SpreadOut(K: int, L: int, N: int)
    ensures (K + L - 1) * (N - 1) == K * N - K + L * (N - 1) - (N - 1)
  {
  }

  lemma SumLarge(N: int, L: int, K: int, k: nat, d: int)
    requires L >= 1 && N >= 2 * L && 0 <= d < L && K >= k * L + 3
    ensures (k + 2) * (N * L) <= L * (N - 1) - 1 - d + K * N - (N - 1) + (L - 1) * N
  {
    MulMonotone(N, k * L + 3, K);
    assert (k * L + 3) * N == k * (N * L) + 3 * N by { MulDistr(k * L, 3, N); MulAssoc(k, L, N); }
    assert (k + 2) * (N * L) == k * (N * L) + 2 * (N * L) by { MulDistr(k, 2, N * L); }
    assert L * (N - 1) == N * L - L && (L - 1) * N == N * L - N;
  }

  // ------------------------------------------------------------------- the conditions

  /** For every number of limbs: n + rem last subtractions suffice for all odd moduli of that size and every input if
      and only if (n-1)(2^w - 1) <= (n + rem - 1) * 2^rem + 2, or the last limb is full. */
  lemma ParallelEnoughIff(w: nat, n: nat, rem: nat)
    requires w >= 1 && rem < w && n >= 1
    ensures (forall N: nat, C: nat :: Drawn(N, w, rem, C) && CeilDiv(BitLength(N), w) == n ==> ParallelRight(N, w, C))
      <==> FewEnough(w, n, rem)
  {
    if FewEnough(w, n, rem) {
      forall N: nat, C: nat | Drawn(N, w, rem, C) && CeilDiv(BitLength(N), w) == n ensures ParallelRight(N, w, C) {
        ParallelEnough(N, w, n, rem, C);
      }
    } else {
      if n == 1 { PowPositive(2, rem); MulMonotone(Pow(2, rem), 0, n + rem - 1); }
      var N, C := ParallelFails(w, n, rem);
    }
  }

  /** Over all lengths only a full last limb will do. */
  lemma ParallelAlwaysIff(w: nat, rem: nat)
    requires w >= 1 && rem < w
    ensures (forall N: nat, C: nat :: Drawn(N, w, rem, C) ==> ParallelRight(N, w, C)) <==> rem == 0
  {
    if rem == 0 {
      forall N: nat, C: nat | Drawn(N, w, rem, C) ensures ParallelRight(N, w, C) {
        var p := DrawnConfig(N, w, rem, C);
        FullLimbsAgree(p, C);
      }
    } else {
      var n := TooMany(w, rem);
      var N, C := ParallelFails(w, n, rem);
    }
  }

  // Each further limb adds more than a subtraction covers.
  lemma TooMany(w: nat, rem: nat) returns (n: nat)
    requires 1 <= rem < w
    ensures n >= 2 && !FewEnough(w, n, rem)
  {
    var h, L, W, g := PowersOf(w, rem);
    MulMonotone(L, 2, g);
    MulMonotone(rem, 0, L);
    n := rem * L + 4;
    hide Pow, Word;
    MoreThan(rem * L + 3, rem, L, W);
  }

  lemma MoreThan(m: int, rem: int, L: int, W: int)
    requires m == rem * L + 3 >= 0 && W - 1 >= L + 1
    ensures m * (W - 1) > (m + rem) * L + 2
  {
    MulMonotone(m, L + 1, W - 1);
    MulDistr(m, rem, L);
    assert m * (L + 1) == m * L + m;
  }
}
