/** The parameters every reduction is called with, and what makes them consistent. */
module Params {
  import opened Arith
  import opened Limbs
  import opened Montgomery

  /** WORD_BITS and the arguments N, n, rho, mu_r, rem, rem_word, rem_mu_r of the reduction functions. */
  datatype Config = Config(w: nat, N: int, n: nat, rho: seq<int>, muR: int,
                           rem: nat, remWord: int, remMuR: int) {

    /** The bits divided out by the last Montgomery step. */
    function Shift(): nat {
      if rem != 0 then rem else w
    }

    function Mu(): int {
      if rem != 0 then remMuR else muR
    }

    /** The radix of the last Montgomery step. */
    function Last(): (r: int)
      ensures r >= 1
    {
      PowPositive(2, Shift());
      Pow(2, Shift())
    }

    /** R = 2^(w * (n-1) + shift), the product of all the factors divided out. */
    function RBits(): nat
      requires n >= 1
    {
      MulMonotone(w, 0, n - 1);
      w * (n - 1) + Shift()
    }

    function R(): (r: int)
      requires n >= 1
      ensures r >= 1
      ensures r == Weight(w, n - 1) * Last()
    {
      PowPositive(2, RBits());
      WeightIsShift(w, n - 1);
      PowAdd(2, w * (n - 1), Shift());
      Pow(2, RBits())
    }

    /** What the code that sets the parameters up guarantees; N need not fill its n limbs. */
    ghost predicate Valid() {
      && w >= 1 && N >= 1 && N % 2 == 1 && n >= 1 && |rho| == n && rem < w
      && (forall k :: 0 <= k < n ==> IsRho(k))
      && IsMu(muR, N, Word(w))
      && (rem != 0 ==> remWord == Last() && IsMu(remMuR, N, remWord))
    }

    /** rho[k] is W^-k mod N. */
    ghost predicate IsRho(k: nat)
      requires k < |rho| && N >= 1
    {
      0 <= rho[k] < N && Cong(rho[k] * Weight(w, k), 1, N)
    }

    /** The inputs the reductions are called with: 0 <= C <= (N-1)(R-1). */
    predicate InRange(C: int)
      requires n >= 1
    {
      0 <= C <= (N - 1) * (R() - 1)
    }

    /** The last Montgomery step, which divides out a shorter limb when rem != 0. */
    function LastStep(T: int): int {
      if rem != 0 then MontgomeryReduce(T, N, remMuR, rem)
      else MontgomeryReduce(T, N, muR, w)
    }

    lemma ShiftBound()
      requires rem < w
      ensures Shift() <= w && Last() <= Word(w)
      ensures Word(w) == Pow(2, w - Shift()) * Last() && Pow(2, w - Shift()) >= 1
      ensures rem != 0 && rem + 1 == w ==> Word(w) == 2 * Last()
    {
      PowMonotone(2, Shift(), w);
      PowAdd(2, w - Shift(), Shift());
      PowPositive(2, w - Shift());
    }

    lemma LastStepFacts(T: int)
      requires Valid()
      ensures IsMu(Mu(), N, Last())
      ensures LastStep(T) * Last() == T + Quotient(T, Mu(), Last()) * N
      ensures Cong(LastStep(T) * Last(), T, N)
      ensures T >= 0 ==> LastStep(T) >= 0
    {
      MontgomeryStep(T, N, Mu(), Shift());
    }

    /** T is C * W^-(n-1) mod N; then the last step and k subtractions reduce C exactly when V < (k+1) * N. */
    lemma Finish(T: int, C: int, k: nat)
      requires Valid() && T >= 0 && Cong(T * Weight(w, n - 1), C, N)
      ensures IsReduced(CondSub(LastStep(T), N, k), C, N, R()) <==> LastStep(T) < (k + 1) * N
    {
      LastStepFacts(T);
      ReduceTwice(LastStep(T), T, C, N, Weight(w, n - 1), Last());
      FinalSubtraction(LastStep(T), C, N, R(), k);
    }
  }
}
