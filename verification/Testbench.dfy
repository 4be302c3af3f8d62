/** The golden model the multiplier's test vectors come from: D = A * B * R^-1 mod Q with R = W^n. */
module Testbench {
  import opened Arith
  import opened Limbs
  import opened Montgomery
  import opened Params
  import opened Sequential
  import opened Parallel
  import opened LogJumps

  /** A * B % Q * RINV % Q. */
  ghost function Golden(A: int, B: int, Q: int, R: int): int
    requires Q >= 1 && Invertible(R, Q)
  {
    (A * B) % Q * Inverse(R, Q) % Q
  }

  /** LOGR = LOGW * ceil(LOGQ / LOGW): every limb is full, whatever the bit length of Q. */
  ghost function HardwareConfig(Q: nat, w: nat): Option<Config>
    requires w >= 1
  {
    MakeConfig(Q, w, CeilDiv(BitLength(Q), w), 0)
  }

  lemma HardwareConfigValid(Q: nat, w: nat)
    requires w >= 1 && Q % 2 == 1
    ensures HardwareConfig(Q, w).Some? && var p := HardwareConfig(Q, w).value;
      && p.Valid() && p.rem == 0 && p.N == Q && p.w == w
      && p.R() == Pow(2, w * CeilDiv(BitLength(Q), w))
      && Q < p.R()
  {
    var n := CeilDiv(BitLength(Q), w);
    BitLengthBounds(Q);
    MakeConfigValid(Q, w, n, 0);
    FullWidth(MakeConfig(Q, w, n, 0).value, BitLength(Q));
  }

  lemma FullWidth(p: Config, bits: nat)
    requires p.n >= 1 && p.rem == 0 && bits <= p.w * p.n
    ensures p.R() == Pow(2, p.w * p.n) && Pow(2, bits) <= p.R()
  {
    RBitsFull(p);
    PowMonotone(2, bits, p.RBits());
  }

  lemma RBitsFull(p: Config)
    requires p.n >= 1 && p.rem == 0
    ensures p.RBits() == p.w * p.n
  {
    MulDistr(p.n, -1, p.w);
  }

  /** The golden value is the one number below Q that R multiplies to A * B modulo Q. */
  lemma GoldenReduced(A: int, B: int, Q: int, R: int)
    requires Q >= 1 && Invertible(R, Q)
    ensures IsReduced(Golden(A, B, Q, R), A * B, Q, R)
  {
    var inv, g, c := Inverse(R, Q), Golden(A, B, Q, R), (A * B) % Q;
    CongMod(c * inv, Q);
    CongSym(c * inv, g, Q);
    CongScale(g, c * inv, R, Q);
    CongScale(inv * R, 1, c, Q);
    MulAssoc(c, inv, R);
    CongTrans(g * R, c * inv * R, c, Q);
    CongMod(A * B, Q);
    CongSym(A * B, c, Q);
    CongTrans(g * R, c, A * B, Q);
  }

  lemma ProductInRange(A: int, B: int, N: int, R: int)
    requires 0 <= A < N && 0 <= B < N && N <= R
    ensures 0 <= A * B <= (N - 1) * (R - 1)
  {
    MulMonotone(A, 0, B);
    MulMonotone(A, B, R - 1);
    MulMonotone(R - 1, A, N - 1);
  }

  /** On every pair the vectors may hold, a product of full limbs padded to n - 1 of them, every reduction
      returns the golden value. */
  lemma ReductionsMatchGolden(p: Config, A: int, B: int)
    requires p.Valid() && p.rem == 0 && 0 <= A < p.N && 0 <= B < p.N && p.N <= p.R()
    ensures Callable(p) && Invertible(p.R(), p.N) && A * B >= 0
    ensures var limbs := Pad(IntToLimbs(A * B, p.w), p.n - 1);
      && Aligned(p, limbs)
      && TreeLimbs(p, limbs) == FusedLimbs(p, limbs) == RhoFusedLimbs(p, limbs) == ParallelLimbs(p, limbs)
           == SequentialValue(p, A * B) == Golden(A, B, p.N, p.R())
  {
    hide Config.R, Config.LastStep, RawSum, Jumped, CondSub, IntToLimbs, Golden;
    var C := A * B;
    ProductInRange(A, B, p.N, p.R());
    var limbs := Pad(IntToLimbs(C, p.w), p.n - 1);
    RoundTrip(C, p.w);
    PadKeepsValue(IntToLimbs(C, p.w), p.n - 1, p.w);
    FusedRefinesTree(p, limbs);
    RhoFusedRefinesFused(p, limbs);
    TreeExact(p, limbs);
    ParallelExact(p, limbs);
    FullLimbsAgree(p, C);
    GoldenReduced(A, B, p.N, p.R());
    ExpectedIff(p, C, TreeLimbs(p, limbs));
    ExpectedIff(p, C, ParallelLimbs(p, limbs));
    ExpectedIff(p, C, Golden(A, B, p.N, p.R()));
  }

  /** The whole chain for one modulus: odd Q of any bit length, any word size, any A and B below Q. */
  lemma HardwareMatchesGolden(Q: nat, w: nat, A: int, B: int)
    requires w >= 1 && Q % 2 == 1 && 0 <= A < Q && 0 <= B < Q
    ensures HardwareConfig(Q, w).Some? && var p := HardwareConfig(Q, w).value;
      && Callable(p) && p.w == w && Invertible(p.R(), Q) && A * B >= 0
      && var limbs := Pad(IntToLimbs(A * B, w), p.n - 1);
      && Aligned(p, limbs)
      && TreeLimbs(p, limbs) == FusedLimbs(p, limbs) == RhoFusedLimbs(p, limbs) == ParallelLimbs(p, limbs)
           == SequentialValue(p, A * B) == Golden(A, B, Q, p.R())
  {
    hide *;
    HardwareConfigValid(Q, w);
    ReductionsMatchGolden(HardwareConfig(Q, w).value, A, B);
  }

  /** R mod Q is the identity of the golden product, which the corner vectors rely on. */
  lemma GoldenIdentity(A: int, Q: int, e: nat)
    requires Q >= 1 && Q % 2 == 1 && 0 <= A < Q
    ensures Invertible(Pow(2, e), Q)
    ensures Golden(A, Pow(2, e) % Q, Q, Pow(2, e)) == A
  {
    var R := Pow(2, e);
    var x := PowTwoInvertible(e, Q);
    GoldenReduced(A, R % Q, Q, R);
    CongMod(R, Q);
    CongScale(R, R % Q, A, Q);
    ReducedUnique(A, Golden(A, R % Q, Q, R), A * (R % Q), Q, e);
  }
}
