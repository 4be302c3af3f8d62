/** The parameter setup and the comparison of all five reductions with C * R^-1 mod N. */
module LogJumps {
  import opened Arith
  import opened Limbs
  import opened Montgomery
  import opened Params
  import opened Sequential
  import opened Parallel

  datatype Option<+T> = None | Some(value: T)

  // ----------------------------------------------------------- parameter setup

  ghost predicate Invertible(a: int, m: int) {
    exists x :: IsInverse(x, a, m)
  }

  /** Python's pow(a, -1, m), which raises when there is no inverse. */
  ghost function Inverse(a: int, m: int): (x: int)
    requires Invertible(a, m)
    ensures IsInverse(x, a, m)
  {
    var x :| IsInverse(x, a, m);
    x
  }

  /** Parameters for n limbs of w bits whose last Montgomery step covers rem bits (a full limb when 0). */
  ghost function MakeConfig(N: int, w: nat, n: nat, rem: nat): (p: Option<Config>) {
    if && N >= 1
       && (forall i :: 0 <= i < n ==> Invertible(Weight(w, i), N))
       && Invertible(-N, Word(w))
       && (rem != 0 ==> Invertible(-N, Pow(2, rem))) then
      Some(Config(w, N, n, seq(n, i requires 0 <= i < n => Inverse(Weight(w, i), N)), Inverse(-N, Word(w)),
                  rem, Pow(2, rem), if rem != 0 then Inverse(-N, Pow(2, rem)) else 0))
    else None
  }

  /** The setup of the test loop: n and rem follow from the bit length of N. */
  ghost function Setup(N: nat, w: nat): Option<Config>
    requires w >= 1
  {
    var bits := BitLength(N);
    MakeConfig(N, w, CeilDiv(bits, w), bits - bits / w * w)
  }

  /** Every inverse the parameters need exists exactly when N is odd, and then they are consistent. */
  lemma MakeConfigValid(N: int, w: nat, n: nat, rem: nat)
    requires w >= 1 && rem < w
    ensures MakeConfig(N, w, n, rem).Some? <==> N >= 1 && N % 2 == 1
    ensures N >= 1 && N % 2 == 1 && n >= 1 ==>
      var p := MakeConfig(N, w, n, rem).value; p.Valid() && p.N == N && p.w == w && p.n == n && p.rem == rem
  {
    if N >= 1 && N % 2 == 1 {
      forall i | 0 <= i < n ensures Invertible(Weight(w, i), N) {
        WeightIsShift(w, i);
        var x := PowTwoInvertible(w * i, N);
      }
      var y := OddInvertible(-N, w);
      var z := OddInvertible(-N, rem);
      if n >= 1 {
        ConfigConsistent(MakeConfig(N, w, n, rem).value, N, w, n, rem);
      }
    } else if MakeConfig(N, w, n, rem).Some? {
      EvenNotInvertible(Inverse(-N, Word(w)), -N, w);
    }
  }

  lemma ConfigConsistent(p: Config, N: int, w: nat, n: nat, rem: nat)
    requires w >= 1 && rem < w && n >= 1 && N >= 1 && N % 2 == 1 && MakeConfig(N, w, n, rem) == Some(p)
    ensures p.Valid()
  {
    MuFromInverse(p.muR, N, Word(w));
    if rem != 0 {
      MuFromInverse(p.remMuR, N, Pow(2, rem));
    }
    forall k | 0 <= k < n ensures p.IsRho(k) {
      assert p.rho[k] == Inverse(Weight(w, k), N);
    }
  }

  lemma MuFromInverse(mu: int, N: int, radix: int)
    requires IsInverse(mu, -N, radix)
    ensures IsMu(mu, N, radix)
  {
    CongScale(mu * -N, 1, -1, radix);
    assert mu * -N * -1 == mu * N;
  }

  /** Setup succeeds exactly for odd N, with consistent parameters and R = 2^bit_length(N). */
  lemma SetupValid(N: nat, w: nat)
    requires w >= 1
    ensures Setup(N, w).Some? <==> N % 2 == 1
    ensures N % 2 == 1 ==> var p := Setup(N, w).value;
      p.Valid() && p.N == N && p.w == w && p.R() == Pow(2, BitLength(N)) && p.rem == BitLength(N) % w
  {
    var bits := BitLength(N);
    RemIsMod(bits, w);
    hide CeilDiv, Config.Valid, Weight, Word;
    MakeConfigValid(N, w, CeilDiv(bits, w), bits % w);
    if N % 2 == 1 {
      BitLengthBounds(N);
      SetupRadix(Setup(N, w).value, bits);
    }
  }

  lemma RemIsMod(bits: nat, w: nat)
    requires w >= 1
    ensures 0 <= bits % w < w && bits - bits / w * w == bits % w
  {
  }

  lemma SetupRadix(p: Config, bits: nat)
    requires p.w >= 1 && bits >= 1 && p.n == CeilDiv(bits, p.w) && p.rem == bits % p.w
    ensures p.n >= 1 && p.RBits() == bits
  {
    LimbCountSplit(bits, p.w, p.n);
  }

  lemma LimbCountSplit(bits: nat, w: nat, n: nat)
    requires w >= 1 && n >= 1 && bits >= 1 && bits <= w * n && w * (n - 1) <= bits - 1
    ensures bits == w * (n - 1) + if bits % w != 0 then bits % w else w
  {
    if bits == w * n {
      DivModUnique(bits, w, n, 0);
      MulDistr(n, -1, w);
    } else {
      MulDistr(n, -1, w);
      DivModUnique(bits, w, n - 1, bits - w * (n - 1));
    }
  }

  // ------------------------------------------------------------ expected result

  /** (C * pow(R, -1, N)) % N. */
  ghost function Expected(p: Config, C: int): int
    requires p.n >= 1 && p.N >= 1 && Invertible(p.R(), p.N)
  {
    (C * Inverse(p.R(), p.N)) % p.N
  }

  /** The expected value is the one reduced value: being reduced and being expected are the same. */
  lemma ExpectedIff(p: Config, C: int, r: int)
    requires p.Valid()
    ensures Invertible(p.R(), p.N)
    ensures IsReduced(r, C, p.N, p.R()) <==> r == Expected(p, C)
  {
    var x := PowTwoInvertible(p.RBits(), p.N);
    var inv, e := Inverse(p.R(), p.N), Expected(p, C);
    CongMod(C * inv, p.N);
    CongSym(C * inv, e, p.N);
    CongScale(e, C * inv, p.R(), p.N);
    CongScale(inv * p.R(), 1, C, p.N);
    MulAssoc(C, inv, p.R());
    CongTrans(e * p.R(), C * inv * p.R(), C, p.N);
    if IsReduced(r, C, p.N, p.R()) {
      ReducedUnique(r, e, C, p.N, p.RBits());
    }
  }

  // ------------------------------------------------------------- the five paths

  function SequentialValue(p: Config, C: int): int
    requires p.n >= 1 && (p.n >= 2 ==> |p.rho| >= 2)
  {
    CondSub(p.LastStep(Jumped(p, C)), p.N, 3)
  }

  /** C has as many limbs as there are values of rho to multiply. */
  predicate LongEnough(p: Config, C: int)
    requires p.n >= 1
  {
    p.n <= 2 || C >= Weight(p.w, p.n - 2)
  }

  /** For every rem: when exactly each path returns the expected value. The three tree paths never differ. */
  lemma ExactlyWhenExpected(p: Config, C: nat)
    requires p.Valid() && p.InRange(C)
    ensures Callable(p) && Invertible(p.R(), p.N) && p.N * Word(p.w) >= 1
    ensures SequentialValue(p, C) == Expected(p, C) <==> p.LastStep(Jumped(p, C)) < 4 * p.N
    ensures ParallelTreeMReduce(p, C) == ParallelTreeReduce(p, C) == ParallelTreeRoReduce(p, C)
    ensures if LongEnough(p, C) then
        Aligned(p, IntToLimbs(C, p.w)) && var raw := RawSum(p, IntToLimbs(C, p.w));
        && (ParallelReduce(p, C) == Value(Expected(p, C)) <==> p.LastStep(raw) < (p.n + p.rem + 1) * p.N)
        && (ParallelTreeReduce(p, C) == Value(Expected(p, C)) <==> p.LastStep(raw % (p.N * Word(p.w))) < 2 * p.N)
      else ParallelReduce(p, C) == ShapeMismatch && ParallelTreeReduce(p, C) == ShapeMismatch
  {
    hide Config.R, Config.InRange, Config.LastStep, Weight, RawSum, Jumped, CondSub, IntToLimbs;
    var limbs := IntToLimbs(C, p.w);
    RoundTrip(C, p.w);
    AlignedIff(p, C);
    ExpectedIff(p, C, SequentialValue(p, C));
    SequentialExact(p, C);
    MulMonotone(p.N, 1, Word(p.w));
    if LongEnough(p, C) {
      FusedRefinesTree(p, limbs);
      RhoFusedRefinesFused(p, limbs);
      ParallelExact(p, limbs);
      ExpectedIff(p, C, ParallelLimbs(p, limbs));
      TreeExact(p, limbs);
      ExpectedIff(p, C, TreeLimbs(p, limbs));
    }
  }

  /** With full limbs (rem = 0) all five return the expected value on every input long enough for the dot
      product; on shorter ones the sequential path still does. */
  lemma FullLimbsAgree(p: Config, C: nat)
    requires p.Valid() && p.InRange(C) && p.rem == 0
    ensures Callable(p) && Invertible(p.R(), p.N)
    ensures SequentialValue(p, C) == Expected(p, C)
    ensures LongEnough(p, C) ==>
      ParallelReduce(p, C) == ParallelTreeReduce(p, C) == ParallelTreeMReduce(p, C)
        == ParallelTreeRoReduce(p, C) == Value(Expected(p, C))
  {
    hide Config.R, Config.InRange, Config.LastStep, Weight, RawSum, Jumped, CondSub, IntToLimbs, Quotient;
    var limbs := IntToLimbs(C, p.w);
    ExactlyWhenExpected(p, C);
    SequentialExact(p, C);
    RoundTrip(C, p.w);
    AlignedIff(p, C);
    if LongEnough(p, C) {
      ParallelExact(p, limbs);
      ExpectedIff(p, C, ParallelLimbs(p, limbs));
      TreeExact(p, limbs);
      ExpectedIff(p, C, TreeLimbs(p, limbs));
    }
  }

  /** The test loop end to end: if w divides the bit length of N, no reduction of any C it draws disagrees. */
  lemma AllFiveAgree(N: nat, w: nat, C: nat)
    requires w >= 1 && N % 2 == 1 && BitLength(N) % w == 0
    requires C <= (N - 1) * (Pow(2, BitLength(N)) - 1)
    ensures Setup(N, w).Some? && var p := Setup(N, w).value;
      && p.Valid() && Callable(p) && p.w == w && Invertible(p.R(), p.N)
      && SequentialValue(p, C) == Expected(p, C)
      && (LongEnough(p, C) ==>
            ParallelReduce(p, C) == ParallelTreeReduce(p, C) == ParallelTreeMReduce(p, C)
              == ParallelTreeRoReduce(p, C) == Value(Expected(p, C)))
  {
    SetupValid(N, w);
    FullLimbsAgree(Setup(N, w).value, C);
  }

  // ---------------------------------------------------------- where they do fail

  /** With a short last limb the stated subtraction counts are not enough: N = 17, w = 4, C = 495. */
  lemma ShortLastLimbFails()
    ensures Setup(17, 4).Some? && var p := Setup(17, 4).value;
      && p.Valid() && p.InRange(495) && Callable(p) && Invertible(p.R(), 17) && p.rem == 1
      && Expected(p, 495) == 16
      && SequentialValue(p, 495) == 84
      && ParallelReduce(p, 495) == Value(84)
      && ParallelTreeReduce(p, 495) == ParallelTreeMReduce(p, 495) == ParallelTreeRoReduce(p, 495) == Value(118)
  {
    hide Pow, Word, Weight, Config.R, Config.Valid, Config.InRange, MakeConfig;
    var p := ConfigFor17();
    CongIntro(16 * 32, 495, 17, 1);
    ExpectedIff(p, 495, 16);
    ResultsFor17(p);
  }

  lemma ConfigFor17() returns (p: Config)
    ensures Setup(17, 4) == Some(p) && p.Valid() && p.InRange(495) && p.R() == 32
    ensures p.w == 4 && p.N == 17 && p.n == 2 && p.rem == 1 && p.rho[1] == 16 && Word(4) == 16
  {
    SetupValid(17, 4);
    p := Setup(17, 4).value;
    assert BitLength(17) == 5 by { assert BitLength(4) == 3; }
    CeilDivValue(5, 4, 2);
    assert Pow(2, 5) == 32 by { assert Pow(2, 3) == 8; }
    assert Word(4) == 16 by { assert Pow(2, 2) == 4; }
    assert p.IsRho(1) && Weight(4, 1) == 16 by { assert Weight(4, 0) == 1; }
    CongIntro(16 * 16, 1, 17, 15);
    InverseUnique(p.rho[1], 16, 16, 17);
  }

  lemma ResultsFor17(p: Config)
    requires p.Valid() && p.w == 4 && p.N == 17 && p.n == 2 && p.rem == 1 && p.rho[1] == 16 && Word(4) == 16
    ensures Callable(p) && SequentialValue(p, 495) == 84 && ParallelReduce(p, 495) == Value(84)
    ensures ParallelTreeReduce(p, 495) == ParallelTreeMReduce(p, 495) == ParallelTreeRoReduce(p, 495) == Value(118)
  {
    SumOf495(p);
    LastStepOf270(p);
    hide Pow, Word, Weight, Config.R, Config.LastStep, RawSum, Tree, Jumped, IntToLimbs;
    FusedRefinesTree(p, [15, 14, 1]);
    RhoFusedRefinesFused(p, [15, 14, 1]);
  }

  /** A short input leaves the dot product undefined: N = 4095, w = 4, C = 5 has one limb where two are needed. */
  lemma ShortInputFails()
    ensures Setup(4095, 4).Some? && var p := Setup(4095, 4).value;
      && p.Valid() && p.InRange(5) && p.rem == 0 && Callable(p) && Invertible(p.R(), 4095)
      && SequentialValue(p, 5) == Expected(p, 5)
      && ParallelReduce(p, 5) == ParallelTreeReduce(p, 5) == ShapeMismatch
  {
    hide Pow, Word, Weight, Config.R, Config.Valid, Config.InRange, MakeConfig;
    var p := ConfigFor4095();
    FullLimbsAgree(p, 5);
    AlignedIff(p, 5);
  }

  lemma ConfigFor4095() returns (p: Config)
    ensures Setup(4095, 4) == Some(p) && p.Valid() && p.InRange(5)
    ensures p.w == 4 && p.N == 4095 && p.n == 3 && p.rem == 0 && Weight(4, 1) == 16
  {
    SetupValid(4095, 4);
    p := Setup(4095, 4).value;
    BitLengthOf4095();
    CeilDivValue(12, 4, 3);
    FiveInRange(p);
    hide Config.R, Config.Valid, Setup, BitLength;
    assert Word(4) == 16 by { assert Pow(2, 2) == 4; }
    assert Weight(4, 1) == 16 by { assert Weight(4, 0) == 1; }
  }

  lemma BitLengthOf4095()
    ensures BitLength(4095) == 12
  {
    assert BitLength(63) == 6 by { assert BitLength(7) == 3; }
  }

  lemma FiveInRange(p: Config)
    requires p.n >= 1 && p.N == 4095 && p.R() == Pow(2, 12)
    ensures p.InRange(5)
  {
    PowMonotone(2, 1, 12);
    MulMonotone(4094, 1, p.R() - 1);
  }

  lemma CeilDivValue(b: nat, w: nat, k: nat)
    requires w >= 1 && k >= 1 && b >= 1 && w * (k - 1) < b <= w * k
    ensures CeilDiv(b, w) == k
  {
    var c := CeilDiv(b, w);
    if c < k { MulMonotone(w, c, k - 1); }
    if c > k { MulMonotone(w, k, c - 1); }
  }

  lemma SumOf495(p: Config)
    requires Callable(p) && p.w == 4 && p.n == 2 && p.N == 17 && p.rem == 1 && p.rho[1] == 16 && Word(4) == 16
    ensures IntToLimbs(495, 4) == [15, 14, 1] && Aligned(p, [15, 14, 1])
    ensures RawSum(p, [15, 14, 1]) == 270 && Tree(p, 270) == 270 && Jumped(p, 495) == 270
  {
    var l := [15, 14, 1];
    assert Weight(4, 0) == 1 && Weight(4, 1) == 16 && Weight(4, 2) == 256;
    assert l[..2] == [15, 14] && l[..2][..1] == [15] && l[..1][..0] == [];
    assert LimbsToInt([15], 4) == 15 by { assert [15][..0] == []; }
    assert LimbsToInt(l, 4) == 495;
    RoundTripLimbs(l, 4);
    assert l[1..] == [14, 1] && l[1..][..1] == [14];
    assert LimbsToInt([14], 4) == 14 by { assert [14][..0] == []; }
    assert High(p, l) == 30;
    assert RhoReversed(p) == [16] && Low(p, l) == [15];
    assert Dot([15], [16]) == 240 by { assert [15][..0] == [] && [16][..0] == []; }
    assert Jumps(495, 16, 16, 0) == 495 && Jump(495, 16, 16) == 270;
    assert CondSub(270, 272, 3) == CondSub(270, 272, 1) == 270;
  }

  lemma LastStepOf270(p: Config)
    requires p.N == 17 && p.rem == 1
    ensures p.LastStep(270) == 135
    ensures CondSub(135, 17, 3) == 84 && CondSub(135, 17, 1) == 118
  {
    assert Pow(2, 1) == 2;
    assert Quotient(270, p.remMuR, 2) == 0;
    assert CondSub(118, 17, 2) == CondSub(101, 17, 1) == CondSub(84, 17, 0) == 84;
  }
}
