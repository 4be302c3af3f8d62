/** Splitting an integer into w-bit limbs, least significant first, and putting it together again. */
module Limbs {
  import opened Arith

  /** Python's int.bit_length for a non-negative value. */
  function BitLength(value: nat): nat {
    if value == 0 then 0 else 1 + BitLength(value / 2)
  }

  lemma {:induction false} BitLengthBounds(value: nat)
    requires value > 0
    ensures BitLength(value) >= 1
    ensures Pow(2, BitLength(value) - 1) <= value < Pow(2, BitLength(value))
  {
    if value == 1 {
    } else {
      BitLengthBounds(value / 2);
    }
  }

  /** The limb modulus 2^w. */
  function Word(w: nat): (W: int)
    ensures W >= 1
    ensures w >= 1 ==> W >= 2
  {
    PowPositive(2, w);
    if w >= 1 then PowPositive(2, w - 1); Pow(2, w) else Pow(2, w)
  }

  /** The weight W^i of limb i, that is 1 << (w * i) (see WeightIsShift). */
  function Weight(w: nat, i: nat): (p: int)
    ensures p >= 1
  {
    PowPositive(Word(w), i);
    Pow(Word(w), i)
  }

  lemma WeightIsShift(w: nat, i: nat)
    ensures 0 <= w * i && Weight(w, i) == Pow(2, w * i)
  {
    PowMul(2, w, i);
  }

  /** value >> (w * index), masked to w bits. */
  function GetWord(value: int, w: nat, index: nat): int {
    (value / Weight(w, index)) % Word(w)
  }

  function IntToLimbs(value: nat, w: nat): seq<int>
    requires w >= 1
  {
    if value == 0 then [0]
    else Words(value, w, CeilDiv(BitLength(value), w))
  }

  /** Ceiling division: the least k with b <= w * k. */
  function CeilDiv(b: nat, w: nat): (k: nat)
    requires w >= 1
    ensures b <= w * k
    ensures b >= 1 ==> k >= 1 && w * (k - 1) <= b - 1
  {
    assert b + w - 1 == w * ((b + w - 1) / w) + (b + w - 1) % w;
    (b + w - 1) / w
  }

  function Words(value: int, w: nat, count: nat): seq<int> {
    seq(count, i requires 0 <= i => GetWord(value, w, i))
  }

  /** The sum of limbs[i] << (i * w). */
  function LimbsToInt(limbs: seq<int>, w: nat): int {
    if limbs == [] then 0
    else
      var last := |limbs| - 1;
      LimbsToInt(limbs[..last], w) + limbs[last] * Weight(w, last)
  }

  predicate Bounded(limbs: seq<int>, w: nat) {
    forall i :: 0 <= i < |limbs| ==> 0 <= limbs[i] < Word(w)
  }

  // The low count words of a value hold the value modulo W^count.
  lemma {:induction false} WordsValue(value: int, w: nat, count: nat)
    ensures LimbsToInt(Words(value, w, count), w) == value % Weight(w, count)
  {
    var words := Words(value, w, count);
    if count == 0 {
    } else {
      var k := count - 1;
      WordsValue(value, w, k);
      assert words[..k] == Words(value, w, k);
      AppendDigit(value, Weight(w, k), Word(w));
    }
  }

  // One more base-W digit above a remainder modulo P.
  lemma AppendDigit(value: int, P: int, W: int)
    requires P > 0 && W > 0
    ensures W * P > 0
    ensures value % P + (value / P) % W * P == value % (W * P)
  {
    var q, r := value / P, value % P;
    var q', d := q / W, q % W;
    DigitRange(W, P, d, r);
    DigitSum(q', W, d, P);
    DivModUnique(value, W * P, q', r + d * P);
  }

  lemma DigitRange(W: int, P: int, d: int, r: int)
    requires 0 <= r < P && 0 <= d < W
    ensures 0 <= r + d * P < W * P
  {
    MulMonotone(P, 0, d);
    MulMonotone(P, d + 1, W);
    MulDistr(d, 1, P);
  }

  lemma DigitSum(q: int, W: int, d: int, P: int)
    ensures (W * q + d) * P == q * (W * P) + d * P
  {
    MulDistr(W * q, d, P);
    MulAssoc(q, W, P);
  }

  // The limb count is exact: one limb fewer is too few.
  lemma LimbCount(value: nat, w: nat)
    requires w >= 1
    ensures var k := |IntToLimbs(value, w)|;
      k >= 1 && (value > 0 ==> Weight(w, k - 1) <= value) && value < Weight(w, k)
  {
    if value == 0 {
      assert Weight(w, 1) == Word(w) * Weight(w, 0);
    } else {
      BitLengthBounds(value);
      CountBounds(value, w, BitLength(value), CeilDiv(BitLength(value), w));
    }
  }

  lemma CountBounds(value: nat, w: nat, b: nat, k: nat)
    requires b >= 1 && Pow(2, b - 1) <= value < Pow(2, b)
    requires k >= 1 && w * (k - 1) <= b - 1 && b <= w * k
    ensures Weight(w, k - 1) <= value < Weight(w, k)
  {
    WeightIsShift(w, k - 1);
    WeightIsShift(w, k);
    PowMonotone(2, w * (k - 1), b - 1);
    PowMonotone(2, b, w * k);
  }

  // Cutting a limb list at k: the high part counts in units of W^k.
  lemma {:induction false} SplitValue(limbs: seq<int>, w: nat, k: nat)
    requires k <= |limbs|
    ensures LimbsToInt(limbs, w) == LimbsToInt(limbs[..k], w) + LimbsToInt(limbs[k..], w) * Weight(w, k)
  {
    if k == |limbs| {
      assert limbs[..k] == limbs && limbs[k..] == [];
    } else {
      var last := |limbs| - 1;
      var front, high := limbs[..last], limbs[k..];
      SplitValue(front, w, k);
      assert front[..k] == limbs[..k] && high[..last - k] == front[k..];
      PowAdd(Word(w), last - k, k);
      MulDistr(LimbsToInt(front[k..], w), limbs[last] * Weight(w, last - k), Weight(w, k));
      MulAssoc(limbs[last], Weight(w, last - k), Weight(w, k));
    }
  }

  lemma {:induction false} ValueBounds(limbs: seq<int>, w: nat)
    requires Bounded(limbs, w)
    ensures 0 <= LimbsToInt(limbs, w) < Weight(w, |limbs|)
  {
    if limbs == [] {
    } else {
      var last := |limbs| - 1;
      ValueBounds(limbs[..last], w);
      DigitRange(Word(w), Weight(w, last), limbs[last], LimbsToInt(limbs[..last], w));
    }
  }

  // Two bounded limb lists of the same length and value are the same list.
  lemma {:induction false} ValueInjective(a: seq<int>, b: seq<int>, w: nat)
    requires |a| == |b| && Bounded(a, w) && Bounded(b, w)
    requires LimbsToInt(a, w) == LimbsToInt(b, w)
    ensures a == b
  {
    if a == [] {
    } else {
      var last := |a| - 1;
      var P := Weight(w, last);
      ValueBounds(a[..last], w);
      ValueBounds(b[..last], w);
      DivModUnique(LimbsToInt(a, w), P, a[last], LimbsToInt(a[..last], w));
      DivModUnique(LimbsToInt(b, w), P, b[last], LimbsToInt(b[..last], w));
      ValueInjective(a[..last], b[..last], w);
      assert a == a[..last] + [a[last]] && b == b[..last] + [b[last]];
    }
  }

  /** Bounded, non-empty, and no wasted high limb. */
  predicate Normal(limbs: seq<int>, w: nat) {
    limbs != [] && Bounded(limbs, w) && (limbs == [0] || limbs[|limbs| - 1] != 0)
  }

  /** limbs_to_int undoes int_to_limbs, every limb fits in w bits, and no high limb is wasted. */
  lemma RoundTrip(value: nat, w: nat)
    requires w >= 1
    ensures LimbsToInt(IntToLimbs(value, w), w) == value
    ensures Normal(IntToLimbs(value, w), w)
  {
    var l := IntToLimbs(value, w);
    LimbCount(value, w);
    var last := |l| - 1;
    if value == 0 {
      assert LimbsToInt(l[..0], w) == 0;
    } else {
      assert l[..last] == Words(value, w, last);
      WordsValue(value, w, |l|);
      WordsValue(value, w, last);
      DivModUnique(value, Weight(w, |l|), 0, value);
    }
  }

  // A normal list of k limbs holds a value in [W^(k-1), W^k), or zero in one limb.
  lemma NormalRange(limbs: seq<int>, w: nat)
    requires Normal(limbs, w)
    ensures 0 <= LimbsToInt(limbs, w) < Weight(w, |limbs|)
    ensures if limbs == [0] then LimbsToInt(limbs, w) == 0 else Weight(w, |limbs| - 1) <= LimbsToInt(limbs, w)
  {
    var last := |limbs| - 1;
    ValueBounds(limbs, w);
    ValueBounds(limbs[..last], w);
    MulMonotone(Weight(w, last), if limbs == [0] then 0 else 1, limbs[last]);
  }

  lemma NormalUnique(a: seq<int>, b: seq<int>, w: nat)
    requires Normal(a, w) && Normal(b, w) && LimbsToInt(a, w) == LimbsToInt(b, w)
    ensures a == b
  {
    NormalRange(a, w);
    NormalRange(b, w);
    if |a| < |b| {
      PowMonotone(Word(w), |a|, |b| - 1);
    } else if |b| < |a| {
      PowMonotone(Word(w), |b|, |a| - 1);
    } else {
      ValueInjective(a, b, w);
    }
  }

  /** The other direction: int_to_limbs recovers every normal limb list from its value. */
  lemma RoundTripLimbs(limbs: seq<int>, w: nat)
    requires w >= 1 && Normal(limbs, w)
    ensures LimbsToInt(limbs, w) >= 0 && IntToLimbs(LimbsToInt(limbs, w), w) == limbs
  {
    NormalRange(limbs, w);
    RoundTrip(LimbsToInt(limbs, w), w);
    NormalUnique(IntToLimbs(LimbsToInt(limbs, w), w), limbs, w);
  }

  /** Zero limbs on top up to a fixed width. */
  function Pad(limbs: seq<int>, count: nat): seq<int>
    decreases count - |limbs|
  {
    if |limbs| < count then Pad(limbs + [0], count) else limbs
  }

  lemma {:induction false} PadKeepsValue(limbs: seq<int>, count: nat, w: nat)
    requires Bounded(limbs, w)
    ensures var p := Pad(limbs, count);
      LimbsToInt(p, w) == LimbsToInt(limbs, w) && Bounded(p, w) && |p| == if |limbs| < count then count else |limbs|
    decreases count - |limbs|
  {
    if |limbs| >= count {
    } else {
      var more := limbs + [0];
      assert more[..|limbs|] == limbs;
      PadKeepsValue(more, count, w);
    }
  }
}
