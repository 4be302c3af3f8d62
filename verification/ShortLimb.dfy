/** For which lengths of the last limb the stated numbers of last subtractions are enough on every input. */
module ShortLimb {
  import opened Arith
  import opened Limbs
  import opened Montgomery
  import opened Params
  import opened Sequential
  import opened Parallel
  import opened LogJumps

  // ------------------------------------------------------------- what is asked for

  /** A modulus and an input the test loop may draw when rem bits are left over for the last limb. */
  ghost predicate Drawn(N: nat, w: nat, rem: nat, C: nat)
    requires w >= 1
  {
    N % 2 == 1 && BitLength(N) % w == rem && C <= (N - 1) * (Pow(2, BitLength(N)) - 1)
  }

  /** The sequential path returns the expected value. */
  ghost predicate SequentialRight(N: nat, w: nat, C: nat)
    requires w >= 1
  {
    Setup(N, w).Some? && var p := Setup(N, w).value;
    p.Valid() && Invertible(p.R(), p.N) && SequentialValue(p, C) == Expected(p, C)
  }

  /** The three tree paths return it, unless the input is too short for them. */
  ghost predicate TreeRight(N: nat, w: nat, C: nat)
    requires w >= 1
  {
    Setup(N, w).Some? && var p := Setup(N, w).value;
    && p.Valid() && Callable(p) && p.w == w && Invertible(p.R(), p.N)
    && (LongEnough(p, C) ==>
          ParallelTreeReduce(p, C) == ParallelTreeMReduce(p, C) == ParallelTreeRoReduce(p, C) == Value(Expected(p, C)))
  }

  /** The plain parallel path returns it, unless the input is too short. */
  ghost predicate ParallelRight(N: nat, w: nat, C: nat)
    requires w >= 1
  {
    Setup(N, w).Some? && var p := Setup(N, w).value;
    && p.Valid() && Callable(p) && p.w == w && Invertible(p.R(), p.N)
    && (LongEnough(p, C) ==> ParallelReduce(p, C) == Value(Expected(p, C)))
  }

  lemma DrawnConfig(N: nat, w: nat, rem: nat, C: nat) returns (p: Config)
    requires w >= 1 && Drawn(N, w, rem, C)
    ensures Setup(N, w) == Some(p) && p.Valid() && p.w == w && p.N == N && p.rem == rem && p.InRange(C)
    ensures Callable(p) && Invertible(p.R(), p.N)
  {
    SetupValid(N, w);
    p := Setup(N, w).value;
    ExactlyWhenExpected(p, C);
  }

  // ------------------------------------------------------------- a modulus to fail on

  lemma BitLengthIs(value: nat, b: nat)
    requires b >= 1 && Pow(2, b - 1) <= value < Pow(2, b)
    ensures BitLength(value) == b
  {
    PowPositive(2, b - 1);
    BitLengthBounds(value);
    var c := BitLength(value);
    if c < b {
      PowMonotone(2, c, b - 1);
    } else if c > b {
      PowMonotone(2, b, c - 1);
    }
  }

  /** The powers the modulus is made of: h = 2^(rem-1), L = 2^rem, W = 2^w = g * L. */
  ghost predicate Powers(w: nat, rem: nat, h: int, L: int, W: int, g: int)
    requires 1 <= rem < w
  {
    h == Pow(2, rem - 1) >= 1 && L == 2 * h == Pow(2, rem) && W == Word(w) == g * L && g == Pow(2, w - rem) >= 2
  }

  lemma PowersOf(w: nat, rem: nat) returns (h: int, L: int, W: int, g: int)
    requires 1 <= rem < w
    ensures Powers(w, rem, h, L, W, g) && (rem + 1 < w ==> g >= 4)
  {
    h, L, W, g := Pow(2, rem - 1), Pow(2, rem), Pow(2, w), Pow(2, w - rem);
    PowPositive(2, rem - 1);
    PowAdd(2, w - rem, rem);
    PowPositive(2, w - rem - 1);
    if rem + 1 < w {
      PowPositive(2, w - rem - 2);
    }
  }

  /** p has n limbs and the modulus P * h + 1, P being W^(n-1); then every rho[k] is as large as can be. */
  ghost predicate Witness(p: Config, w: nat, n: nat, rem: nat, h: int, L: int, P: int) {
    && w >= 1 && p.N >= 1 && Setup(p.N, w) == Some(p) && p.Valid() && p.w == w && p.rem == rem && p.n == n >= 2
    && P == Weight(w, n - 1) && p.N == P * h + 1 && p.Last() == L && p.R() == P * L
    && CeilDiv(BitLength(p.N), w) == n && BitLength(p.N) % w == rem && Pow(2, BitLength(p.N)) == P * L
    && forall k :: 1 <= k < n ==> p.rho[k] == p.N - h * Weight(w, n - 1 - k)
  }

  lemma WitnessConfig(w: nat, n: nat, rem: nat, h: int, L: int, W: int, g: int, P: int) returns (p: Config)
    requires 1 <= rem < w && n >= 2 && Powers(w, rem, h, L, W, g) && P == Weight(w, n - 1)
    ensures Witness(p, w, n, rem, h, L, P)
  {
    var N := Modulus(w, n, rem, h, L, P);
    SetupValid(N, w);
    p := Setup(N, w).value;
    LimbsOf(N, w);
    assert p.Last() == Pow(2, rem);
    hide Pow, Word, Weight, BitLength, CeilDiv, Setup, Config.R, Config.Last;
    forall k | 1 <= k < n ensures p.rho[k] == N - h * Weight(w, n - 1 - k) {
      RhoOf(p, w, h, P, k);
    }
  }

  lemma Modulus(w: nat, n: nat, rem: nat, h: int, L: int, P: int) returns (N: nat)
    requires 1 <= rem < w && n >= 2 && h == Pow(2, rem - 1) >= 1 && L == 2 * h == Pow(2, rem) && P == Weight(w, n - 1)
    ensures N == P * h + 1 && N % 2 == 1
    ensures CeilDiv(BitLength(N), w) == n && BitLength(N) % w == rem && Pow(2, BitLength(N)) == P * L
  {
    hide *;
    var bits := w * (n - 1) + rem;
    ModulusBits(w, n, rem, h, L, P);
    EvenWeight(w, n - 1);
    EvenTimes(P, h);
    BitsOver(w, n, rem, bits);
    N := OneMoreThan(P * h, P * L, bits);
  }

  lemma OneMoreThan(low: int, high: int, bits: nat) returns (N: nat)
    requires bits >= 1 && low == Pow(2, bits - 1) && high == Pow(2, bits) && low + 1 < high
    ensures N == low + 1 && BitLength(N) == bits
  {
    PowPositive(2, bits - 1);
    N := low + 1;
    BitLengthIs(N, bits);
  }

  lemma BitsOver(w: nat, n: nat, rem: nat, bits: nat)
    requires 1 <= rem < w && n >= 1 && bits == w * (n - 1) + rem
    ensures CeilDiv(bits, w) == n && bits % w == rem
  {
    MulDistr(n, -1, w);
    DivModUnique(bits, w, n - 1, rem);
    CeilDivValue(bits, w, n);
  }

  lemma EvenTimes(P: int, h: int)
    requires P % 2 == 0
    ensures (P * h) % 2 == 0
  {
    MulAssoc(2, P / 2, h);
  }

  lemma FirstWeights(w: nat)
    ensures Weight(w, 0) == 1 && Weight(w, 1) == Word(w)
  {
    assert Weight(w, 1) == Word(w) * Weight(w, 0);
  }

  lemma ModulusBits(w: nat, n: nat, rem: nat, h: int, L: int, P: int)
    requires w >= 1 && n >= 2 && rem >= 1 && h == Pow(2, rem - 1) >= 1 && L == 2 * h == Pow(2, rem) && P == Weight(w, n - 1)
    ensures w * (n - 1) >= w
    ensures P >= 2 && Pow(2, w * (n - 1) + rem - 1) == P * h && Pow(2, w * (n - 1) + rem) == P * L
    ensures P * h + 1 < P * L
  {
    MulMonotone(w, 1, n - 1);
    WeightIsShift(w, n - 1);
    PowAdd(2, w * (n - 1), rem - 1);
    PowAdd(2, w * (n - 1), rem);
    PowMonotone(2, 1, w * (n - 1));
    assert P * (2 * h) == 2 * (P * h) by { MulAssoc(P, 2, h); }
    MulMonotone(P, 1, h);
  }

  lemma EvenWeight(w: nat, i: nat)
    requires w >= 1 && i >= 1
    ensures Weight(w, i) % 2 == 0
  {
    assert Word(w) == 2 * Pow(2, w - 1);
    assert Weight(w, i) == 2 * (Pow(2, w - 1) * Pow(Word(w), i - 1)) by {
      MulAssoc(2, Pow(2, w - 1), Pow(Word(w), i - 1));
    }
  }

  lemma LimbsOf(N: nat, w: nat)
    requires w >= 1 && N % 2 == 1
    ensures Setup(N, w).Some? && Setup(N, w).value.n == CeilDiv(BitLength(N), w)
  {
    BitLengthBounds(N);
    RemIsMod(BitLength(N), w);
    MakeConfigValid(N, w, CeilDiv(BitLength(N), w), BitLength(N) % w);
  }

  // (N - h * W^(n-1-k)) * W^k is one more than (W^k - 1) * N.
  lemma RhoOf(p: Config, w: nat, h: int, P: int, k: nat)
    requires p.Valid() && p.w == w && 1 <= k < p.n && P == Weight(w, p.n - 1) && p.N == P * h + 1 && h >= 1
    ensures p.rho[k] == p.N - h * Weight(w, p.n - 1 - k)
  {
    var A, B := Weight(w, k), Weight(w, p.n - 1 - k);
    assert p.IsRho(k);
    PowAdd(Word(w), k, p.n - 1 - k);
    InverseInRange(p.N, h, A, B);
    InverseUnique(p.rho[k], p.N - h * B, A, p.N);
  }

  lemma InverseInRange(N: int, h: int, A: int, B: int)
    requires N == A * B * h + 1 && h >= 1 && A >= 1 && B >= 1
    ensures IsInverse(N - h * B, A, N)
  {
    var x := h * B;
    assert A * B * h == A * x by { MulAssoc(A, B, h); }
    MulMonotone(h, 1, B);
    MulMonotone(x, 1, A);
    MulDistr(N, -x, A);
    MulDistr(A, -1, N);
    CongIntro((N - x) * A, 1, N, A - 1);
  }

  // ---------------------------------------------------------------- the inputs to fail on

  /** On two limbs, with low limb W - 1 and the rest q, the jump and the dot product both give q + (W - 1)(N - h). */
  lemma WitnessSum(p: Config, w: nat, rem: nat, h: int, L: int, W: int, q: nat)
    requires Witness(p, w, 2, rem, h, L, W)
    ensures var C := W * q + (W - 1);
      && C >= 0 && Jumped(p, C) == q + (W - 1) * (p.N - h)
      && Aligned(p, IntToLimbs(C, w)) && RawSum(p, IntToLimbs(C, w)) == q + (W - 1) * (p.N - h)
  {
    FirstWeights(w);
    assert p.rho[1] == p.N - h * Weight(w, 0);
    assert h * 1 == h;
    hide *;
    MulMonotone(W, 0, q);
    var C: nat := W * q + (W - 1);
    DivModUnique(C, W, q, W - 1);
    OneJump(p, C, W);
    TwoLimbSum(p, C, W);
  }

  lemma OneJump(p: Config, C: nat, W: int)
    requires p.Valid() && p.n == 2 && Word(p.w) == W
    ensures Jumped(p, C) == C / W + C % W * p.rho[1]
  {
    assert Jumps(C, W, p.rho[1], 0) == C;
  }

  lemma TwoLimbSum(p: Config, C: nat, W: int)
    requires p.Valid() && p.n == 2 && Word(p.w) == W
    ensures Aligned(p, IntToLimbs(C, p.w)) && RawSum(p, IntToLimbs(C, p.w)) == C / W + C % W * p.rho[1]
  {
    var limbs := IntToLimbs(C, p.w);
    AlignedIff(p, C);
    RoundTrip(C, p.w);
    SplitValue(limbs, p.w, 1);
    assert limbs[..1] == [limbs[0]] && limbs[..1][..0] == [];
    assert Weight(p.w, 0) == 1 && Weight(p.w, 1) == W;
    hide IntToLimbs, Word;
    DivModUnique(C, W, High(p, limbs), limbs[0]);
    assert RhoReversed(p) == [p.rho[1]] && Low(p, limbs) == [limbs[0]];
    assert Dot([limbs[0]], [p.rho[1]]) == limbs[0] * p.rho[1] by { assert [limbs[0]][..0] == []; }
  }

  /** A sum that is one more than a multiple of L needs the largest quotient, L - 1. */
  lemma LargestQuotient(p: Config, T: int, L: int, j: int, k: int)
    requires p.Valid() && p.Last() == L && T == j * L + 1 && p.N == k * L + 1
    ensures p.LastStep(T) * L == T + (L - 1) * p.N
  {
    p.LastStepFacts(T);
    var m, V := Quotient(T, p.Mu(), L), p.LastStep(T);
    hide *;
    QuotientIsLast(V, T, m, p.N, L, j, k);
  }

  lemma QuotientIsLast(V: int, T: int, m: int, N: int, L: int, j: int, k: int)
    requires 0 <= m < L && V * L == T + m * N && T == j * L + 1 && N == k * L + 1
    ensures m == L - 1
  {
    MulDistr(k * L, 1, m);
    assert m * (k * L) == (m * k) * L by { MulAssoc(m, k, L); }
    MulDistr(V - j, -(m * k), L);
    var t := V - j - m * k;
    assert t * L == 1 + m;
    if t <= 0 {
      MulMonotone(L, t, 0);
    } else if t >= 2 {
      MulMonotone(L, 2, t);
    }
  }

  lemma ProductOut(a: int, x: int, y: int)
    ensures (a - 1) * (x - y) == a * x - a * y - x + y
  {
  }

  lemma Exchange(g: int, L: int, x: int)
    ensures g * L * x == (g * x) * L
  {
  }

  // The low limb W - 1 counts N - h each time.
  lemma LowLimb(N: int, h: int, W: int)
    requires N == W * h + 1
    ensures (W - 1) * (N - h) == W * N - 2 * N + 1 + h
  {
    ProductOut(W, N, h);
  }

  /** The sum (L + W - 2) * N - 3 * L + 3 is in reach, one more than a multiple of L, and too large. */
  lemma SequentialNumbers(N: int, h: int, L: int, W: int, g: int) returns (q: nat, T: int, j: int)
    requires N == W * h + 1 && W == g * L && L == 2 * h && h >= 1 && g >= 4
    ensures T == q + (W - 1) * (N - h) >= 0 && T == j * L + 1 && 4 * (N * L) <= T + (L - 1) * N && N >= 9
    ensures T == L * N + W * N - 2 * N - 3 * L + 3
    ensures W * q + (W - 1) <= (N - 1) * (W * L - 1)
  {
    Sizes(N, h, L, W, g);
    LowLimb(N, h, W);
    SequentialLarge(N, L, W);
    j := SequentialRest(N, h, L, W, g);
    q, T := SequentialSum(N, h, L, W * N, L * N, (W - 1) * (N - h));
    assert T >= 0 by { MulMonotone(N, 0, L); MulDistr(L, -1, N); }
    InRangeBound(W, h, L, N, q);
  }

  lemma Sizes(N: int, h: int, L: int, W: int, g: int)
    requires N == W * h + 1 && W == g * L && L == 2 * h && h >= 1 && g >= 2
    ensures W >= 2 * L && N >= 5 && (g >= 4 ==> W >= 4 * L && N >= 9)
    ensures L * N >= 5 * L && (g >= 4 ==> L * N >= 9 * L) && 2 * N >= 5 * h && W * N >= 2 * L
  {
    MulMonotone(L, if g >= 4 then 4 else 2, g);
    MulMonotone(h, if g >= 4 then 8 else 4, W);
    assert W * h >= W by { MulMonotone(W, 1, h); }
    MulMonotone(L, if g >= 4 then 9 else 5, N);
    MulMonotone(W, 1, N);
  }

  lemma SequentialSum(N: int, h: int, L: int, WN: int, LN: int, low: int) returns (q: nat, T: int)
    requires L == 2 * h && h >= 1 && LN >= 9 * L && low == WN - 2 * N + 1 + h
    ensures T == q + low == LN + WN - 2 * N - 3 * L + 3 && q + 1 <= LN - L - h
  {
    q, T := LN - 7 * h + 2, LN + WN - 2 * N - 3 * L + 3;
  }

  lemma SequentialRest(N: int, h: int, L: int, W: int, g: int) returns (j: int)
    requires N == W * h + 1 && W == g * L && L == 2 * h
    ensures L * N + W * N - 2 * N - 3 * L + 3 == j * L + 1
  {
    var k := g * h;
    Exchange(g, L, h);
    j := N + g * N - 2 * k - 3;
    MulDistr(N + g * N, -2 * k - 3, L);
    MulDistr(N, g * N, L);
    Exchange(g, L, N);
    MulDistr(-2 * k, -3, L);
    assert -2 * k * L == -2 * (k * L) by { MulAssoc(-2, k, L); }
  }

  lemma SequentialLarge(N: int, L: int, W: int)
    requires N >= 9 && L >= 2 && W >= 4 * L
    ensures 4 * (N * L) <= L * N + W * N - 2 * N - 3 * L + 3 + (L - 1) * N
  {
    assert W * N >= 4 * L * N by { MulMonotone(N, 4 * L, W); }
    assert (L - 1) * N == L * N - N;
    assert 2 * L * N - 3 * N >= 3 * L - 3 by {
      MulMonotone(2 * L - 3, 9, N);
      MulDistr(2 * L, -3, N);
    }
  }

  // With N - 1 = W * h the largest input is W * (L * (N - 1) - h).
  lemma InRangeBound(W: int, h: int, L: int, N: int, q: int)
    requires N == W * h + 1 && W >= 1 && q + 1 <= L * N - L - h
    ensures W * q + (W - 1) <= (N - 1) * (W * L - 1)
  {
    MulMonotone(W, q + 1, L * N - L - h);
    assert (N - 1) * (W * L - 1) == (N - 1) * (W * L) - (N - 1);
    assert (N - 1) * (W * L) == W * (L * (N - 1)) by { MulAssoc(N - 1, W, L); MulAssoc(W, N - 1, L); }
    assert W * (L * N - L - h) == W * (L * N - L) - W * h;
  }

  /** The sum W * N - 2 * L + 1 is in reach, kept by the tree, one more than a multiple of L, and too large. */
  lemma TreeNumbers(N: int, h: int, L: int, W: int, g: int) returns (q: nat, T: int, j: int)
    requires N == W * h + 1 && W == g * L && L == 2 * h && h >= 1 && g >= 2
    ensures T == q + (W - 1) * (N - h) && 0 <= T < N * W && T == j * L + 1 && 2 * (N * L) <= T + (L - 1) * N
    ensures W * q + (W - 1) <= (N - 1) * (W * L - 1)
  {
    Sizes(N, h, L, W, g);
    LowLimb(N, h, W);
    q, T := 2 * N - 5 * h, W * N - 2 * L + 1;
    TreeReach(N, h, L);
    InRangeBound(W, h, L, N, q);
    j := TreeRest(N, L, W, g);
    TreeLarge(N, L, W);
  }

  lemma TreeReach(N: int, h: int, L: int)
    requires L == 2 * h && h >= 1 && N >= 1
    ensures 2 * N - 5 * h + 1 <= L * N - L - h
  {
    MulMonotone(N, 2, L);
  }

  lemma TreeRest(N: int, L: int, W: int, g: int) returns (j: int)
    requires W == g * L
    ensures W * N - 2 * L + 1 == j * L + 1
  {
    j := g * N - 2;
    MulDistr(g * N, -2, L);
    Exchange(g, L, N);
  }

  lemma TreeLarge(N: int, L: int, W: int)
    requires N >= 5 && L >= 2 && W >= 2 * L
    ensures 2 * (N * L) <= W * N - 2 * L + 1 + (L - 1) * N
  {
    assert W * N >= 2 * L * N by { MulMonotone(N, 2 * L, W); }
    MulDistr(L, -1, N);
    MulMonotone(L - 1, 5, N);
  }

  // ------------------------------------------------------------------- the conditions

  // From a sum to what the paths return for the input that gives it.
  lemma WitnessValue(p: Config, w: nat, rem: nat, h: int, L: int, W: int, g: int, q: nat, T: int, j: int) returns (C: nat)
    requires 1 <= rem < w && Powers(w, rem, h, L, W, g) && Witness(p, w, 2, rem, h, L, W)
    requires T == q + (W - 1) * (p.N - h) == j * L + 1 && W * q + (W - 1) <= (p.N - 1) * (W * L - 1)
    ensures C == W * q + (W - 1) && p.InRange(C) && Drawn(p.N, w, rem, C)
    ensures Jumped(p, C) == T && Aligned(p, IntToLimbs(C, w)) && RawSum(p, IntToLimbs(C, w)) == T
    ensures p.LastStep(T) * L == T + (L - 1) * p.N
  {
    MulMonotone(W, 0, q);
    C := W * q + (W - 1);
    WitnessSum(p, w, rem, h, L, W, q);
    Exchange(g, L, h);
    LargestQuotient(p, T, L, j, g * h);
  }

  lemma AtLeast(V: int, L: int, k: int, N: int, S: int)
    requires L >= 1 && V * L == S && k * (N * L) <= S
    ensures V >= k * N
  {
    MulAssoc(k, N, L);
    MulStrict(L, V, k * N);
  }

  lemma SequentialFails(w: nat, rem: nat) returns (N: nat, C: nat)
    requires 1 <= rem && rem + 1 < w
    ensures Drawn(N, w, rem, C) && !SequentialRight(N, w, C)
  {
    var h, L, W, g := PowersOf(w, rem);
    FirstWeights(w);
    var p := WitnessConfig(w, 2, rem, h, L, W, g, W);
    var q, T, j := SequentialNumbers(p.N, h, L, W, g);
    C := WitnessValue(p, w, rem, h, L, W, g, q, T, j);
    N := p.N;
    AtLeast(p.LastStep(T), L, 4, N, T + (L - 1) * N);
    ExactlyWhenExpected(p, C);
  }

  /** Three last subtractions suffice for every odd modulus whose last limb has rem bits and every input in range if and
      only if that limb is full or one bit short. */
  lemma SequentialEnoughIff(w: nat, rem: nat)
    requires w >= 1 && rem < w
    ensures (forall N: nat, C: nat :: Drawn(N, w, rem, C) ==> SequentialRight(N, w, C)) <==> rem == 0 || rem == w - 1
  {
    if rem == 0 || rem == w - 1 {
      forall N: nat, C: nat | Drawn(N, w, rem, C) ensures SequentialRight(N, w, C) {
        var p := DrawnConfig(N, w, rem, C);
        SequentialExact(p, C);
        ExpectedIff(p, C, SequentialValue(p, C));
      }
    } else {
      var N, C := SequentialFails(w, rem);
    }
  }

  lemma TreeFails(w: nat, rem: nat) returns (N: nat, C: nat)
    requires 1 <= rem < w
    ensures Drawn(N, w, rem, C) && !TreeRight(N, w, C)
  {
    var h, L, W, g := PowersOf(w, rem);
    FirstWeights(w);
    var p := WitnessConfig(w, 2, rem, h, L, W, g, W);
    var q, T, j := TreeNumbers(p.N, h, L, W, g);
    hide Pow, Word, Weight, BitLength, CeilDiv, Config.R, Config.Last, Config.LastStep, Config.Valid, Setup;
    C := WitnessValue(p, w, rem, h, L, W, g, q, T, j);
    N := p.N;
    AtLeast(p.LastStep(T), L, 2, N, T + (L - 1) * N);
    DivModUnique(T, N * W, 0, T);
    ExactlyWhenExpected(p, C);
  }

  /** One last subtraction after the tree suffices for every such modulus and input if and only if the last limb is
      full; so it is for the two fused forms. */
  lemma TreeEnoughIff(w: nat, rem: nat)
    requires w >= 1 && rem < w
    ensures (forall N: nat, C: nat :: Drawn(N, w, rem, C) ==> TreeRight(N, w, C)) <==> rem == 0
  {
    if rem == 0 {
      forall N: nat, C: nat | Drawn(N, w, rem, C) ensures TreeRight(N, w, C) {
        var p := DrawnConfig(N, w, rem, C);
        FullLimbsAgree(p, C);
      }
    } else {
      var N, C := TreeFails(w, rem);
    }
  }
}
