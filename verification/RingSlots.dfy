/** Which ring slots the live transfers occupy, and when no two of them share one. */
module RingSlots {
  import opened Arith

  /** The slots start .. start + count of one transfer. */
  datatype Slots = Slots(start: nat, count: nat)

  function Used(live: seq<Slots>): nat {
    if live == [] then 0 else Used(live[..|live| - 1]) + live[|live| - 1].count
  }

  /** The transfers are laid out one after the other around the ring, the newest ending at idx, none wrapping inside. */
  ghost predicate Consecutive(live: seq<Slots>, idx: nat, max: nat) {
    && idx < max
    && (live == [] ||
        var last := live[|live| - 1];
        && last.count >= 1 && last.start + last.count <= max
        && idx == (last.start + last.count) % max
        && Consecutive(live[..|live| - 1], last.start, max))
  }

  /** Every slot of every live transfer, oldest first. */
  function AllSlots(live: seq<Slots>): (all: seq<nat>)
    ensures |all| == Used(live)
  {
    if live == [] then []
    else
      var last := live[|live| - 1];
      AllSlots(live[..|live| - 1]) + seq(last.count, i requires 0 <= i => last.start + i)
  }

  ghost predicate Distinct(s: seq<nat>) {
    forall i, j :: 0 <= i < j < |s| ==> s[i] != s[j]
  }

  lemma {:induction false} SlotCong(live: seq<Slots>, idx: nat, max: nat, k: nat)
    requires Consecutive(live, idx, max) && k < Used(live)
    ensures AllSlots(live)[k] < max && Cong(AllSlots(live)[k], idx - Used(live) + k, max)
  {
    var front, last := live[..|live| - 1], live[|live| - 1];
    var d: int := k - Used(live);
    var end := last.start + last.count;
    CongMod(end, max);
    CongRefl(d, max);
    CongAdd(end, idx, d, d, max);
    if k < Used(front) {
      SlotCong(front, last.start, max, k);
    } else {
      CongRefl(AllSlots(live)[k], max);
    }
    CongTrans(AllSlots(live)[k], end + d, idx + d, max);
  }

  /** The live slots are the desc_used consecutive ring slots that end at desc_idx. */
  lemma LiveSlotsEndAtIdx(live: seq<Slots>, idx: nat, max: nat, k: nat)
    requires Consecutive(live, idx, max) && k < Used(live)
    ensures AllSlots(live)[k] < max && AllSlots(live)[k] == (idx - Used(live) + k) % max
  {
    SlotCong(live, idx, max, k);
    CongIffMod(AllSlots(live)[k], idx - Used(live) + k, max);
    DivModUnique(AllSlots(live)[k], max, 0, AllSlots(live)[k]);
  }

  /** No two live descriptors share a slot exactly as long as desc_used does not exceed desc_max. */
  lemma LiveSlotsDistinctIff(live: seq<Slots>, idx: nat, max: nat)
    requires Consecutive(live, idx, max)
    ensures Distinct(AllSlots(live)) <==> Used(live) <= max
  {
    var s, u := AllSlots(live), Used(live);
    if u <= max {
      forall i, j | 0 <= i < j < |s| ensures s[i] != s[j] {
        SlotCong(live, idx, max, i);
        SlotCong(live, idx, max, j);
        if s[i] == s[j] {
          CongSym(s[i], idx - u + i, max);
          CongTrans(idx - u + i, s[i], idx - u + j, max);
          var k := CongElim(idx - u + i, idx - u + j, max);
          SmallMultiple(k, max, i - j);
        }
      }
    } else {
      SlotCong(live, idx, max, 0);
      SlotCong(live, idx, max, max);
      CongIntro(idx - u + max, idx - u, max, 1);
      CongTrans(s[max], idx - u + max, idx - u, max);
      CongSym(s[0], idx - u, max);
      CongTrans(s[max], idx - u, s[0], max);
      CongInRange(s[max], s[0], max);
    }
  }

  lemma SmallMultiple(k: int, m: int, d: int)
    requires d == k * m && -m < d < m
    ensures d == 0
  {
    if k >= 1 { MulMonotone(m, 1, k); }
    if k <= -1 { MulMonotone(m, k, -1); }
  }

  // -------------------------------------------------- allocating and releasing

  lemma AppendKeeps(live: seq<Slots>, idx: nat, max: nat, count: nat)
    requires Consecutive(live, idx, max) && count >= 1 && idx + count <= max
    ensures Consecutive(live + [Slots(idx, count)], (idx + count) % max, max)
    ensures Used(live + [Slots(idx, count)]) == Used(live) + count
  {
    var all := live + [Slots(idx, count)];
    assert all[..|all| - 1] == live;
  }

  /** Releasing the oldest transfer leaves the rest laid out as before. */
  lemma {:induction false} ReleaseKeeps(live: seq<Slots>, idx: nat, max: nat)
    requires Consecutive(live, idx, max) && live != []
    ensures Consecutive(live[1..], idx, max)
    ensures Used(live[1..]) == Used(live) - live[0].count
  {
    hide AllSlots;
    if |live| == 1 {
      assert live[..0] == [] && live[1..] == [];
    } else {
      var last := live[|live| - 1];
      var front, rest := live[..|live| - 1], live[1..];
      ReleaseKeeps(front, last.start, max);
      assert rest[..|rest| - 1] == front[1..] && rest[|rest| - 1] == last;
    }
  }

  lemma {:induction false} SlotPosition(live: seq<Slots>, t: nat, i: nat) returns (k: nat)
    requires t < |live| && i < live[t].count
    ensures k == Used(live[..t]) + i < Used(live) && AllSlots(live)[k] == live[t].start + i
  {
    k := Used(live[..t]) + i;
    if t == |live| - 1 {
    } else {
      var front := live[..|live| - 1];
      assert front[..t] == live[..t];
      var k' := SlotPosition(front, t, i);
    }
  }

  lemma {:induction false} UsedMonotone(live: seq<Slots>, t: nat, u: nat)
    requires t < u <= |live|
    ensures Used(live[..t]) + live[t].count <= Used(live[..u])
    decreases u
  {
    assert live[..u][..u - 1] == live[..u - 1];
    if t == u - 1 {
    } else {
      UsedMonotone(live, t, u - 1);
    }
  }

  /** Two different live transfers share no slot while desc_used <= desc_max. */
  lemma LiveTransfersDisjoint(live: seq<Slots>, idx: nat, max: nat, t: nat, u: nat, i: nat, j: nat)
    requires Consecutive(live, idx, max) && Used(live) <= max
    requires t < u < |live| && i < live[t].count && j < live[u].count
    ensures live[t].start + i != live[u].start + j
  {
    LiveSlotsDistinctIff(live, idx, max);
    var k := SlotPosition(live, t, i);
    var l := SlotPosition(live, u, j);
    UsedMonotone(live, t, u);
  }

  lemma IntervalsDisjoint(live: seq<Slots>, idx: nat, max: nat, t: nat, u: nat)
    requires Consecutive(live, idx, max) && Used(live) <= max && t < u < |live|
    ensures live[t].start + live[t].count <= live[u].start || live[u].start + live[u].count <= live[t].start
  {
    InRing(live, idx, max, t);
    InRing(live, idx, max, u);
    hide *;
    if live[t].start < live[u].start + live[u].count && live[u].start < live[t].start + live[t].count {
      if live[t].start <= live[u].start {
        LiveTransfersDisjoint(live, idx, max, t, u, live[u].start - live[t].start, 0);
      } else {
        LiveTransfersDisjoint(live, idx, max, t, u, 0, live[t].start - live[u].start);
      }
    }
  }

  /** Every live transfer lies inside the ring. */
  lemma {:induction false} InRing(live: seq<Slots>, idx: nat, max: nat, t: nat)
    requires Consecutive(live, idx, max) && t < |live|
    ensures live[t].count >= 1 && live[t].start + live[t].count <= max
  {
    if t == |live| - 1 {
    } else {
      InRing(live[..|live| - 1], live[|live| - 1].start, max, t);
    }
  }

  // --------------------------------------------------------------- whole runs

  /** The descriptors transfer_init takes when remaining of them are left to issue. */
  function ChunkSize(remaining: nat, idx: nat, max: nat): (count: nat)
    requires idx < max
    ensures idx + count <= max
    ensures remaining >= 1 ==> 1 <= count <= remaining
    ensures count < remaining ==> idx + count == max
  {
    var most := if remaining < max then remaining else max;
    if idx + most >= max then max - idx else most
  }

  /** Allocate up to remaining descriptors, or release the oldest transfer. */
  datatype Op = Init(remaining: nat) | Release

  datatype State = State(live: seq<Slots>, idx: nat)

  function Step(s: State, op: Op, max: nat): State
    requires s.idx < max
  {
    match op
    case Init(remaining) =>
      var count := ChunkSize(remaining, s.idx, max);
      if remaining == 0 then s else State(s.live + [Slots(s.idx, count)], (s.idx + count) % max)
    case Release =>
      if s.live == [] then s else State(s.live[1..], s.idx)
  }

  function Run(ops: seq<Op>, idx: nat, max: nat): (s: State)
    requires idx < max
    ensures s.idx < max
  {
    if ops == [] then State([], idx) else Step(Run(ops[..|ops| - 1], idx, max), ops[|ops| - 1], max)
  }

  /** After every interleaving of allocations and oldest-first releases the live transfers are consecutive and do
      not wrap inside; they are disjoint exactly while no more than desc_max descriptors are in use. */
  lemma {:induction false} RunKeepsLayout(ops: seq<Op>, idx: nat, max: nat)
    requires idx < max
    ensures var s := Run(ops, idx, max);
      && Consecutive(s.live, s.idx, max)
      && (Distinct(AllSlots(s.live)) <==> Used(s.live) <= max)
  {
    hide AllSlots, Distinct;
    if ops == [] {
    } else {
      var before := Run(ops[..|ops| - 1], idx, max);
      RunKeepsLayout(ops[..|ops| - 1], idx, max);
      match ops[|ops| - 1]
      case Init(remaining) =>
        if remaining != 0 {
          AppendKeeps(before.live, before.idx, max, ChunkSize(remaining, before.idx, max));
        }
      case Release =>
        if before.live != [] {
          ReleaseKeeps(before.live, before.idx, max);
        }
    }
    LiveSlotsDistinctIff(Run(ops, idx, max).live, Run(ops, idx, max).idx, max);
  }

  // ----------------------------------------------- transfers needed per request

  /** How many transfers the submit loop makes for cnt descriptors from slot idx on. */
  function Transfers(cnt: nat, idx: nat, max: nat): (t: nat)
    requires idx < max
    decreases cnt
  {
    if cnt == 0 then 0
    else
      var count := ChunkSize(cnt, idx, max);
      1 + Transfers(cnt - count, (idx + count) % max, max)
  }

  /** Two transfers, the capacity of tfer[2], are enough exactly when the descriptors fit in what is left of the
      ring and one more turn of it; so always when there are at most desc_max. */
  lemma TwoTransfersIff(cnt: nat, idx: nat, max: nat)
    requires idx < max
    ensures Transfers(cnt, idx, max) <= 1 <==> cnt <= max - idx
    ensures Transfers(cnt, idx, max) <= 2 <==> cnt <= (max - idx) + max
    ensures cnt <= max ==> Transfers(cnt, idx, max) <= 2
  {
    var first := ChunkSize(cnt, idx, max);
    DivModUnique(max, max, 1, 0);
    if cnt > max - idx {
      assert first == max - idx;
      var rest := cnt - first;
      var second := ChunkSize(rest, 0, max);
      assert Transfers(rest, 0, max) == 1 + Transfers(rest - second, second % max, max);
    }
  }
}
