/** What one service pass of an engine does to its queue, and what any run of queue and service steps keeps. */
module Service {
  import opened Descriptor

  // ------------------------------------------------------ completion accounting

  function Sum(nums: seq<nat>): nat {
    if nums == [] then 0 else nums[0] + Sum(nums[1..])
  }

  /** How many transfers the loop over all but the last completed transfer takes off the queue: count is strictly
      more than the head has. */
  function LoopCount(nums: seq<nat>, count: nat): (k: nat)
    ensures k <= |nums| && Sum(nums[..k]) <= count
  {
    if nums == [] || count <= nums[0] then 0
    else
      assert nums[..1 + LoopCount(nums[1..], count - nums[0])][1..] == nums[1..][..LoopCount(nums[1..], count - nums[0])];
      1 + LoopCount(nums[1..], count - nums[0])
  }

  /** Transfers completed by a pass, and whether one more, the head then, is failed. */
  datatype Verdict = Verdict(completed: nat, failed: bool)

  function Pass(nums: seq<nat>, count: nat, error: bool): (v: Verdict)
    ensures v.completed + (if v.failed then 1 else 0) <= |nums|
  {
    var k := LoopCount(nums, count);
    if k == |nums| then Verdict(k, false)
    else if error || count - Sum(nums[..k]) < nums[k] then Verdict(k, true)
    else Verdict(k + 1, false)
  }

  ghost predicate AllPositive(nums: seq<nat>) {
    forall i :: 0 <= i < |nums| ==> nums[i] >= 1
  }

  lemma {:induction false} SumStep(nums: seq<nat>, k: nat)
    requires k < |nums|
    ensures Sum(nums[..k + 1]) == Sum(nums[..k]) + nums[k]
  {
    if k == 0 {
      assert nums[..1][1..] == [] && nums[..0] == [];
    } else {
      SumStep(nums[1..], k - 1);
      assert nums[..k + 1][1..] == nums[1..][..k] && nums[..k][1..] == nums[1..][..k - 1];
    }
  }

  lemma {:induction false} SumMonotone(nums: seq<nat>, j: nat, k: nat)
    requires j <= k <= |nums|
    ensures Sum(nums[..j]) <= Sum(nums[..k])
    ensures AllPositive(nums) && j < k ==> Sum(nums[..j]) < Sum(nums[..k])
    decreases k
  {
    if j == k {
    } else {
      SumMonotone(nums, j, k - 1);
      SumStep(nums, k - 1);
    }
  }

  // The loop leaves the head with at least the count that is left for it, unless it emptied the queue.
  lemma {:induction false} LoopStops(nums: seq<nat>, count: nat)
    ensures var k := LoopCount(nums, count);
      && (k < |nums| ==> count - Sum(nums[..k]) <= nums[k])
      && (k > 0 ==> count > Sum(nums[..k]))
  {
    if nums == [] || count <= nums[0] {
      assert nums[..0] == [];
    } else {
      var j := LoopCount(nums[1..], count - nums[0]);
      LoopStops(nums[1..], count - nums[0]);
      assert nums[..1 + j][1..] == nums[1..][..j];
    }
  }

  /** Without an error a pass completes exactly j transfers and fails none if and only if the count is that of
      the first j (j >= 1), or is more than the whole queue has. */
  lemma CompletesIff(nums: seq<nat>, count: nat, j: nat)
    requires AllPositive(nums) && nums != [] && j <= |nums|
    ensures Pass(nums, count, false) == Verdict(j, false) <==>
      (j >= 1 && count == Sum(nums[..j])) || (j == |nums| && count > Sum(nums[..j]))
  {
    Located(nums, count, j);
  }

  /** It completes the j transfers before transfer j and fails that one if and only if the count falls inside it;
      its very start counts as inside only for the head. */
  lemma FailsIff(nums: seq<nat>, count: nat, j: nat)
    requires AllPositive(nums) && j < |nums|
    ensures Pass(nums, count, false) == Verdict(j, true) <==>
      Sum(nums[..j]) <= count < Sum(nums[..j + 1]) && (count == Sum(nums[..j]) ==> j == 0)
  {
    Located(nums, count, j);
    SumStep(nums, j);
  }

  /** With an error it completes the transfers the count exceeds, and fails the one after them however far the
      hardware got. */
  lemma ErrorFailsIff(nums: seq<nat>, count: nat, j: nat)
    requires AllPositive(nums) && j < |nums|
    ensures Pass(nums, count, true) == Verdict(j, true) <==>
      Sum(nums[..j]) <= count <= Sum(nums[..j + 1]) && (count == Sum(nums[..j]) ==> j == 0)
    ensures Pass(nums, count, true) == Verdict(|nums|, false) <==> count > Sum(nums)
  {
    Located(nums, count, j);
    Located(nums, count, |nums|);
    SumStep(nums, j);
    assert nums[..|nums|] == nums;
  }

  // Where the loop stops, compared with a given position j.
  lemma Located(nums: seq<nat>, count: nat, j: nat)
    requires AllPositive(nums) && j <= |nums|
    ensures var k := LoopCount(nums, count);
      && (k < |nums| ==> Sum(nums[..k + 1]) == Sum(nums[..k]) + nums[k] >= count)
      && (k > 0 ==> count > Sum(nums[..k]))
      && (j < k ==> Sum(nums[..j]) < Sum(nums[..k]))
      && (k < j ==> Sum(nums[..k + 1]) <= Sum(nums[..j]))
      && (k + 1 < j ==> Sum(nums[..k + 1]) < Sum(nums[..j]))
      && (j + 1 <= k ==> Sum(nums[..j + 1]) <= Sum(nums[..k]))
      && nums[..0] == []
  {
    var k := LoopCount(nums, count);
    LoopStops(nums, count);
    if k < |nums| { SumStep(nums, k); }
    if j < k { SumMonotone(nums, j, k); SumMonotone(nums, j + 1, k); }
    if k < j { SumMonotone(nums, k + 1, j); }
  }

  // --------------------------------------------------------------- status word

  const STAT_BUSY: bv32 := 0x1
  const COMMON_ERR_MASK: bv32 := 0x38
  const DESC_ERR_MASK: bv32 := 0xF8_0000
  const H2C_ERR_MASK: bv32 := COMMON_ERR_MASK | DESC_ERR_MASK | 0x3E00 | 0xC000
  const C2H_ERR_MASK: bv32 := COMMON_ERR_MASK | DESC_ERR_MASK | 0x600

  predicate Busy(status: bv32) {
    status & STAT_BUSY != 0
  }

  predicate HasError(status: bv32, toDevice: bool) {
    status & (if toDevice then H2C_ERR_MASK else C2H_ERR_MASK) != 0
  }

  /** Which bits of the status fail a transfer: alignment, magic and length errors, descriptor errors, and read errors,
      of which there are more towards the device, where write errors count too. */
  lemma ErrorBit(i: bv5, toDevice: bool)
    ensures HasError(1 << i, toDevice) <==>
      3 <= i <= 5 || 19 <= i <= 23 || (if toDevice then 9 <= i <= 15 else 9 <= i <= 10)
  {
  }

  /** A status shows an error exactly when one of its bits does. */
  lemma ErrorJoin(a: bv32, b: bv32, toDevice: bool)
    ensures HasError(a | b, toDevice) <==> HasError(a, toDevice) || HasError(b, toDevice)
  {
    if toDevice {
      OrMasked(a, b, H2C_ERR_MASK);
    } else {
      OrMasked(a, b, C2H_ERR_MASK);
    }
  }

  lemma BusyJoin(a: bv32, b: bv32)
    ensures Busy(a | b) <==> Busy(a) || Busy(b)
  {
    OrMasked(a, b, STAT_BUSY);
  }

  lemma OrMasked(a: bv32, b: bv32, mask: bv32)
    ensures (a | b) & mask == 0 <==> a & mask == 0 && b & mask == 0
  {
    OrAnd(a, b, mask);
    OrZero(a & mask, b & mask);
  }

  lemma OrAnd(a: bv32, b: bv32, mask: bv32)
    ensures (a | b) & mask == (a & mask) | (b & mask)
  {
  }

  lemma OrZero(x: bv32, y: bv32)
    ensures x | y == 0 <==> x == 0 && y == 0
  {
  }

  lemma BusyBit(i: bv5)
    ensures Busy(1 << i) <==> i == 0
  {
  }

  // ------------------------------------------------------------- state machine

  /** A 32-bit count. */
  type u32 = n: nat | n < TWO32

  /** What the hardware may answer during one service call: the two fields of the write-back word, the status and
      the completed count if they are read, and the status read when the engine is started again. */
  datatype Hardware = Hardware(wbCount: u32, wbError: bool, status: bv32, count: u32, startStatus: bv32)

  datatype TransferState = New | Submitted | Completed | Failed | Aborted

  /** A transfer taken off the queue, and the state it was left in. */
  datatype Retired = Retired(num: nat, state: TransferState)

  /** The queue part of an engine: descriptor counts of the transfers queued, and those taken off so far. */
  datatype Core = Core(running: bool, dequeued: nat, status: bv32, list: seq<nat>, done: seq<Retired>)

  /** The status after one answer, which is read only when the count is zero or an error is flagged. */
  function StatusAfter(status: bv32, hw: Hardware): bv32 {
    if hw.wbCount == 0 || hw.wbError then hw.status else status
  }

  function StatusSeen(s: Core, hw: Hardware): bv32 {
    StatusAfter(s.status, hw)
  }

  function CountSeen(hw: Hardware): u32 {
    if hw.wbCount != 0 then hw.wbCount else hw.count
  }

  /** The first completed transfers succeed, the one after them is failed if the verdict says so. */
  function Retire(nums: seq<nat>, v: Verdict): (r: seq<Retired>)
    requires v.completed + (if v.failed then 1 else 0) <= |nums|
    ensures |r| == v.completed + if v.failed then 1 else 0
  {
    seq(v.completed, i requires 0 <= i < v.completed => Retired(nums[i], Completed))
      + if v.failed then [Retired(nums[v.completed], Failed)] else []
  }

  function Left(nums: seq<nat>, v: Verdict): (l: seq<nat>)
    requires v.completed + (if v.failed then 1 else 0) <= |nums|
    ensures |l| == |nums| - v.completed - if v.failed then 1 else 0
  {
    nums[v.completed + if v.failed then 1 else 0..]
  }

  // One turn of the loop.
  lemma LoopStep(nums: seq<nat>, k: nat, left: nat)
    requires k < |nums| && left > nums[k]
    ensures LoopCount(nums[k..], left) == 1 + LoopCount(nums[k + 1..], left - nums[k])
    ensures Retire(nums, Verdict(k + 1, false)) == Retire(nums, Verdict(k, false)) + [Retired(nums[k], Completed)]
    ensures Sum(nums[..k + 1]) == Sum(nums[..k]) + nums[k]
  {
    assert nums[k..][1..] == nums[k + 1..];
    SumStep(nums, k);
  }

  lemma LoopEnds(nums: seq<nat>, k: nat, left: nat)
    requires k <= |nums| && (k < |nums| ==> left <= nums[k])
    ensures LoopCount(nums[k..], left) == 0
  {
  }

  // The verdict of a pass from where its loop stopped.
  lemma PassParts(nums: seq<nat>, count: nat, error: bool)
    ensures var v, k := Pass(nums, count, error), LoopCount(nums, count);
      if k == |nums| then v == Verdict(k, false) && Left(nums, v) == []
      else
        && v.failed == (error || count - Sum(nums[..k]) < nums[k])
        && v.completed == (if v.failed then k else k + 1)
        && Retire(nums, v) == Retire(nums, Verdict(k, false)) + [Retired(nums[k], if v.failed then Failed else Completed)]
        && Left(nums, v) == nums[k + 1..]
        && Sum(nums[..k + 1]) == Sum(nums[..k]) + nums[k]
  {
    if LoopCount(nums, count) < |nums| {
      SumStep(nums, LoopCount(nums, count));
    }
  }

  /** transfer_queue of a transfer of num descriptors, an idle engine being started. */
  function Queue(s: Core, num: nat, startStatus: bv32): Core {
    if num == 0 then s
    else if s.running then s.(list := s.list + [num])
    else Core(true, 0, startStatus, s.list + [num], s.done)
  }

  /** The queue part of a service pass: retire what the count says, then start again, go on, or stop. */
  function ServiceQueue(s: Core, count: nat, startStatus: bv32, toDevice: bool): Core {
    var error := HasError(s.status, toDevice);
    var v := Pass(s.list, count, error);
    var dropped := if v.failed && !error then v.completed + 1 else v.completed;
    var rest, done := Left(s.list, v), s.done + Retire(s.list, v);
    var dequeued := s.dequeued + Sum(s.list[..dropped]);
    if rest == [] then Core(false, dequeued, s.status, [], done)
    else if !s.running || (error && v.failed) then Core(true, 0, startStatus, rest, done)
    else Core(true, dequeued, s.status, rest, done)
  }

  // The three calls a pass is made of, on the same state.

  function AfterLoop(s: Core, count: nat): Core {
    var k := LoopCount(s.list, count);
    s.(list := s.list[k..], done := s.done + Retire(s.list, Verdict(k, false)), dequeued := s.dequeued + Sum(s.list[..k]))
  }

  function AfterFinal(s: Core, left: nat, toDevice: bool): Core {
    if s.list == [] then s
    else
      var num, error := s.list[0], HasError(s.status, toDevice);
      s.(list := s.list[1..], done := s.done + [Retired(num, if !error && left >= num then Completed else Failed)],
         running := s.running && !error, dequeued := s.dequeued + if error then 0 else num)
  }

  function AfterResume(s: Core, startStatus: bv32): Core {
    if s.list == [] then s.(running := false)
    else if s.running then s
    else Core(true, 0, startStatus, s.list, s.done)
  }

  /** A pass starts the engine again: it is stopped when the first two calls are done, and transfers are left. */
  predicate RestartsAfter(s: Core, count: nat, toDevice: bool) {
    var left: nat := count - Sum(s.list[..LoopCount(s.list, count)]);
    var final := AfterFinal(AfterLoop(s, count), left, toDevice);
    !final.running && final.list != []
  }

  lemma PassIsThreeCalls(s: Core, count: nat, startStatus: bv32, toDevice: bool)
    ensures var left: nat := count - Sum(s.list[..LoopCount(s.list, count)]);
      AfterResume(AfterFinal(AfterLoop(s, count), left, toDevice), startStatus)
        == ServiceQueue(s, count, startStatus, toDevice)
  {
    var error := HasError(s.status, toDevice);
    PassParts(s.list, count, error);
    hide Sum, LoopCount, Retire, Pass, HasError, Left;
    var k := LoopCount(s.list, count);
    var one := AfterLoop(s, count);
    if k < |s.list| {
      var head := Retired(s.list[k], if Pass(s.list, count, error).failed then Failed else Completed);
      assert one.list[1..] == s.list[k + 1..];
      assert one.done + [head] == s.done + (Retire(s.list, Verdict(k, false)) + [head]);
    }
  }

  /** What the service call makes of the status before it serves the queue. */
  function Noted(s: Core, hw: Hardware): Core {
    s.(status := StatusSeen(s, hw), running := Busy(StatusSeen(s, hw)) && hw.wbCount == 0)
  }

  predicate Restarts(s: Core, hw: Hardware, toDevice: bool) {
    s.running && CountSeen(hw) != 0 && RestartsAfter(Noted(s, hw), (CountSeen(hw) - s.dequeued) % TWO32, toDevice)
  }

  /** engine_service: note the status, stop an engine that is idle or has written back, then serve the queue. */
  function ServiceStep(s: Core, hw: Hardware, toDevice: bool): Core {
    if !s.running then s.(status := hw.status)
    else
      var seen := Noted(s, hw);
      if CountSeen(hw) == 0 then seen
      else ServiceQueue(seen, (CountSeen(hw) - s.dequeued) % TWO32, hw.startStatus, toDevice)
  }

  /** A waiter gives up on the head of the queue: its transfer is aborted and the engine stopped. */
  function AbortHead(s: Core, status: bv32): Core {
    if s.list == [] then s.(running := false, status := status)
    else Core(false, s.dequeued, status, s.list[1..], s.done + [Retired(s.list[0], Aborted)])
  }

  datatype Event = Submit(num: nat, startStatus: bv32) | Serve(hw: Hardware) | Abort(status: bv32)

  function Next(s: Core, e: Event, toDevice: bool): Core {
    match e
    case Submit(num, st) => Queue(s, num, st)
    case Serve(hw) => ServiceStep(s, hw, toDevice)
    case Abort(status) => AbortHead(s, status)
  }

  function Run(events: seq<Event>, toDevice: bool): Core {
    if events == [] then Core(false, 0, 0, [], [])
    else Next(Run(events[..|events| - 1], toDevice), events[|events| - 1], toDevice)
  }

  /** The transfers ever accepted, in order. */
  function Accepted(events: seq<Event>): seq<nat> {
    if events == [] then []
    else
      var e := events[|events| - 1];
      Accepted(events[..|events| - 1]) + if e.Submit? && e.num != 0 then [e.num] else []
  }

  function Nums(done: seq<Retired>): seq<nat> {
    seq(|done|, i requires 0 <= i < |done| => done[i].num)
  }

  /** A running engine that is no longer busy reports what it completed. */
  ghost predicate Reports(s: Core, hw: Hardware) {
    s.running && !Busy(StatusSeen(s, hw)) ==> CountSeen(hw) != 0
  }

  /** The steps that leave no queued transfer behind on a stopped engine. */
  ghost predicate Steady(s: Core, e: Event) {
    match e
    case Submit(_, _) => true
    case Serve(hw) => Reports(s, hw)
    case Abort(_) => |s.list| <= 1
  }

  ghost predicate Consistent(s: Core) {
    s.running <==> s.list != []
  }

  /** A service step keeps "running exactly when transfers are queued" if and only if the hardware reports, an abort
      if and only if no other transfer is queued behind the aborted one. */
  lemma StepKeepsConsistentIff(s: Core, e: Event, toDevice: bool)
    requires Consistent(s)
    ensures Consistent(Next(s, e, toDevice)) <==> Steady(s, e)
  {
    hide HasError, Pass, Sum, Retire;
  }

  /** FIFO and conservation, whatever the hardware answers: the transfers taken off, in the order they were, and
      then those still queued are the transfers ever accepted, each once. */
  lemma {:induction false} FifoConserved(events: seq<Event>, toDevice: bool)
    ensures var s := Run(events, toDevice);
      && Nums(s.done) + s.list == Accepted(events)
      && |s.done| + |s.list| == |Accepted(events)|
      && AllPositive(s.list)
  {
    hide Next;
    if events == [] {
    } else {
      var front := events[..|events| - 1];
      FifoConserved(front, toDevice);
      StepConserves(Run(front, toDevice), events[|events| - 1], toDevice);
    }
  }

  // A step takes transfers from the front of the queue, and adds the one accepted at its end.
  lemma StepConserves(s: Core, e: Event, toDevice: bool)
    ensures var n := Next(s, e, toDevice);
      && Nums(n.done) + n.list == Nums(s.done) + s.list + (if e.Submit? && e.num != 0 then [e.num] else [])
      && (AllPositive(s.list) ==> AllPositive(n.list))
  {
    hide Sum, Busy, HasError, Retire, Pass;
    match e
    case Submit(_, _) =>
    case Serve(hw) =>
      if s.running && CountSeen(hw) != 0 {
        RetireKeepsOrder(s, hw, toDevice);
      }
    case Abort(_) =>
      if s.list != [] {
        assert Nums(s.done + [Retired(s.list[0], Aborted)]) == Nums(s.done) + [s.list[0]];
      }
  }

  lemma RetireKeepsOrder(s: Core, hw: Hardware, toDevice: bool)
    requires s.running && CountSeen(hw) != 0
    ensures var n := ServiceStep(s, hw, toDevice);
      Nums(n.done) + n.list == Nums(s.done) + s.list && (AllPositive(s.list) ==> AllPositive(n.list))
  {
    hide Sum, Busy, HasError, Pass, Retire, Nums;
    var error := HasError(StatusSeen(s, hw), toDevice);
    RetirePartition(s.done, s.list, Pass(s.list, (CountSeen(hw) - s.dequeued) % TWO32, error));
  }

  lemma RetirePartition(done: seq<Retired>, nums: seq<nat>, v: Verdict)
    requires v.completed + (if v.failed then 1 else 0) <= |nums|
    ensures Nums(done + Retire(nums, v)) + Left(nums, v) == Nums(done) + nums
  {
    assert Nums(done + Retire(nums, v)) == Nums(done) + Nums(Retire(nums, v));
    assert Nums(Retire(nums, v)) == nums[..v.completed + if v.failed then 1 else 0];
  }

  ghost predicate AllSteady(events: seq<Event>, toDevice: bool) {
    forall k :: 0 <= k < |events| ==> Steady(Run(events[..k], toDevice), events[k])
  }

  /** Over every run in which the hardware reports and only a lone transfer is aborted, the engine runs exactly while
      transfers are queued. */
  lemma {:induction false} RunsWhileQueued(events: seq<Event>, toDevice: bool)
    requires AllSteady(events, toDevice)
    ensures Consistent(Run(events, toDevice))
  {
    hide Pass, ServiceStep, Steady;
    if events == [] {
    } else {
      var front, e := events[..|events| - 1], events[|events| - 1];
      forall k | 0 <= k < |front| ensures Steady(Run(front[..k], toDevice), front[k]) {
        assert events[k] == front[k] && front[..k] == events[..k];
      }
      RunsWhileQueued(front, toDevice);
      StepKeepsConsistentIff(Run(front, toDevice), e, toDevice);
    }
  }

  // ------------------------------------------------------ what a service call depends on

  /** The status register is read if and only if the write-back has no count or flags an error: then what was known
      before does not matter, and otherwise the register does not. */
  lemma StatusSource(s: Core, hw: Hardware, a: bv32, b: bv32, toDevice: bool)
    requires s.running
    ensures if hw.wbCount == 0 || hw.wbError then
        ServiceStep(s.(status := a), hw, toDevice) == ServiceStep(s.(status := b), hw, toDevice)
      else ServiceStep(s, hw.(status := a), toDevice) == ServiceStep(s, hw.(status := b), toDevice)
  {
    hide ServiceQueue;
  }

  /** The count register is read only if the write-back has no count; a count in either place does the same. */
  lemma CountSource(s: Core, hw: Hardware, a: u32, b: u32, toDevice: bool)
    ensures hw.wbCount != 0 ==> ServiceStep(s, hw.(count := a), toDevice) == ServiceStep(s, hw.(count := b), toDevice)
    ensures s.running && a != 0 && !Busy(hw.status) && hw.wbError ==>
      ServiceStep(s, hw.(wbCount := a, count := b), toDevice) == ServiceStep(s, hw.(wbCount := 0, count := a), toDevice)
  {
    hide ServiceQueue;
  }

  /** A running engine after a call, from what the hardware said: with a count of zero it only notes the status and
      stops if it is idle. With a count the transfers are taken off that the verdict on what is not dequeued yet says.
      The engine stops when nothing is left; otherwise it is started again if it was idle, had written back or shows
      an error, and else goes on, counting every transfer taken off as dequeued, a failed one too. */
  lemma StepOutcome(s: Core, hw: Hardware, toDevice: bool)
    requires s.running
    ensures var n := ServiceStep(s, hw, toDevice);
      var status := if hw.wbCount == 0 || hw.wbError then hw.status else s.status;
      var stopped := hw.wbCount != 0 || !Busy(status);
      var count := if hw.wbCount != 0 then hw.wbCount else hw.count;
      var v := Pass(s.list, (count - s.dequeued) % TWO32, HasError(status, toDevice));
      var taken := Retire(s.list, v);
      && (count != 0 ==> n.done == s.done + taken && n.list == Left(s.list, v))
      && if count == 0 then n == s.(status := status, running := !stopped)
         else if n.list == [] then !n.running && n.status == status
         else if stopped || HasError(status, toDevice) then
           n.running && n.dequeued == 0 && n.status == hw.startStatus && Restarts(s, hw, toDevice)
         else
           n.running && n.dequeued == s.dequeued + Sum(Nums(taken)) && n.status == status && !Restarts(s, hw, toDevice)
  {
    hide HasError, Busy, Pass, Sum, Retire, Left, LoopCount, RestartsAfter, Nums, AfterLoop, AfterFinal;
    var seen := Noted(s, hw);
    if CountSeen(hw) != 0 {
      var count := (CountSeen(hw) - s.dequeued) % TWO32;
      PassOutcome(seen, count, hw.startStatus, toDevice);
    }
  }

  lemma PassOutcome(s: Core, count: nat, startStatus: bv32, toDevice: bool)
    ensures var n, error := ServiceQueue(s, count, startStatus, toDevice), HasError(s.status, toDevice);
      var v := Pass(s.list, count, error);
      && n.done == s.done + Retire(s.list, v) && n.list == Left(s.list, v)
      && (RestartsAfter(s, count, toDevice) <==> n.list != [] && (!s.running || error))
      && if n.list == [] then !n.running && n.status == s.status
         else if !s.running || error then n == Core(true, 0, startStatus, n.list, n.done)
         else n.running && n.status == s.status && n.dequeued == s.dequeued + Sum(Nums(Retire(s.list, v)))
  {
    var error := HasError(s.status, toDevice);
    PassParts(s.list, count, error);
    hide Sum, LoopCount, Pass, HasError, Nums;
    var k, v := LoopCount(s.list, count), Pass(s.list, count, error);
    if k < |s.list| {
      TakenOff(s.list, v);
      assert s.list[k..][1..] == s.list[k + 1..];
    }
  }

  lemma TakenOff(nums: seq<nat>, v: Verdict)
    requires v.completed + (if v.failed then 1 else 0) <= |nums|
    ensures Nums(Retire(nums, v)) == nums[..v.completed + if v.failed then 1 else 0]
  {
  }

  // --------------------------------------------------- counts that end a transfer

  /** The count the hardware reports is where the k-th queued transfer ends, and the status shows no error. */
  ghost predicate EndsAt(s: Core, hw: Hardware, toDevice: bool, k: nat) {
    && s.running && 1 <= k <= |s.list| && !HasError(StatusSeen(s, hw), toDevice)
    && CountSeen(hw) == s.dequeued + Sum(s.list[..k])
  }

  lemma CountPositive(nums: seq<nat>, k: nat)
    requires AllPositive(nums) && 1 <= k <= |nums|
    ensures Sum(nums[..k]) >= 1
  {
    SumMonotone(nums, 0, k);
    assert nums[..0] == [];
  }

  /** Then one pass completes exactly those k transfers and adds their descriptors to the dequeued count, so that it
      equals what was reported, before a restart sets it back to zero. */
  lemma PassAccounts(s: Core, hw: Hardware, toDevice: bool, k: nat)
    requires AllPositive(s.list) && EndsAt(s, hw, toDevice, k)
    ensures var n := ServiceStep(s, hw, toDevice);
      && n.done == s.done + seq(k, i requires 0 <= i < k => Retired(s.list[i], Completed))
      && n.list == s.list[k..]
      && n.dequeued == if n.running && (!Busy(StatusSeen(s, hw)) || hw.wbCount != 0) then 0 else CountSeen(hw)
  {
    hide HasError, Busy, Pass, Sum;
    CompletesIff(s.list, Sum(s.list[..k]), k);
    assert (CountSeen(hw) - s.dequeued) % TWO32 == Sum(s.list[..k]);
    CountPositive(s.list, k);
  }

  /** A nonzero count is where a queued transfer ends; a count of zero says nothing yet. Nothing is aborted. */
  ghost predicate HonestAt(s: Core, e: Event, toDevice: bool) {
    && !e.Abort?
    && (e.Serve? && s.running && CountSeen(e.hw) != 0 ==> exists k :: EndsAt(s, e.hw, toDevice, k))
  }

  ghost predicate AllHonest(events: seq<Event>, toDevice: bool) {
    forall k :: 0 <= k < |events| ==> HonestAt(Run(events[..k], toDevice), events[k], toDevice)
  }

  /** Over every run in which all counts reported end a transfer, every transfer taken off is completed. */
  lemma {:induction false} HonestRunsNeverFail(events: seq<Event>, toDevice: bool)
    requires AllHonest(events, toDevice)
    ensures forall r <- Run(events, toDevice).done :: r.state == Completed
  {
    hide ServiceStep, HasError, Busy, Sum;
    if events == [] {
    } else {
      var front, e := events[..|events| - 1], events[|events| - 1];
      forall k | 0 <= k < |front| ensures HonestAt(Run(front[..k], toDevice), front[k], toDevice) {
        assert HonestAt(Run(events[..k], toDevice), events[k], toDevice);
        assert front[..k] == events[..k];
      }
      HonestRunsNeverFail(front, toDevice);
      var s := Run(front, toDevice);
      FifoConserved(front, toDevice);
      assert HonestAt(s, e, toDevice);
      if e.Serve? {
        if s.running && CountSeen(e.hw) != 0 {
          var k :| EndsAt(s, e.hw, toDevice, k);
          PassAccounts(s, e.hw, toDevice, k);
        } else {
          NothingRetired(s, e.hw, toDevice);
        }
      }
    }
  }

  lemma NothingRetired(s: Core, hw: Hardware, toDevice: bool)
    requires !s.running || CountSeen(hw) == 0
    ensures ServiceStep(s, hw, toDevice).done == s.done
  {
  }

  // ------------------------------------------------------- one transfer at a time

  /** A synchronous request has one transfer on the queue of an idle engine. One pass with a nonzero count, from the
      write-back or else from the register, settles it: it completes if and only if the count is its own and no error
      shows, or more than its own; and the engine is idle again. The status looked at is the register's if the
      write-back has no count or flags an error, and otherwise the one from the start. */
  lemma AloneOutcomeIff(s: Core, num: nat, startStatus: bv32, hw: Hardware, toDevice: bool)
    requires !s.running && s.list == [] && num >= 1 && (hw.wbCount != 0 || hw.count != 0)
    ensures var n := ServiceStep(Queue(s, num, startStatus), hw, toDevice);
      var count := if hw.wbCount != 0 then hw.wbCount else hw.count;
      var status := if hw.wbCount == 0 || hw.wbError then hw.status else startStatus;
      var ok := count > num || (count == num && !HasError(status, toDevice));
      !n.running && n.list == [] && n.done == s.done + [Retired(num, if ok then Completed else Failed)]
  {
    hide HasError, Busy, Pass, Sum, Retire, Left;
    var q := Queue(s, num, startStatus);
    assert q == Core(true, 0, startStatus, [num], s.done) by { assert s.list + [num] == [num]; }
    assert (CountSeen(hw) - q.dequeued) % TWO32 == CountSeen(hw);
    PassAlone(num, CountSeen(hw), HasError(StatusSeen(q, hw), toDevice));
  }

  lemma PassAlone(num: nat, count: nat, error: bool)
    requires num >= 1 && count >= 1
    ensures var v, ok := Pass([num], count, error), count > num || (count == num && !error);
      && v == (if ok then Verdict(1, false) else Verdict(0, true))
      && Retire([num], v) == [Retired(num, if ok then Completed else Failed)] && Left([num], v) == []
  {
    var nums := [num];
    assert nums[1..] == [] && nums[..0] == [];
    assert LoopCount(nums[1..], if count > num then count - num else 0) == 0;
  }

  // ------------------------------------------------------------ waiting for a transfer

  /** How waiting for a transfer that is alone on the queue ends: the first nonzero count decides it; it is given up
      when no more service calls come, or after one that finds the engine stopped with a count of zero. */
  datatype Fate = Finishes | Fails | TimesOut

  function FateOf(num: nat, status: bv32, services: seq<Hardware>, toDevice: bool): Fate
    decreases |services|
  {
    if services == [] then TimesOut
    else
      var hw := services[0];
      var seen := StatusAfter(status, hw);
      if CountSeen(hw) == 0 then
        if Busy(seen) then FateOf(num, seen, services[1..], toDevice) else TimesOut
      else if CountSeen(hw) > num || (CountSeen(hw) == num && !HasError(seen, toDevice)) then Finishes
      else Fails
  }

  function EndOf(f: Fate): TransferState {
    match f
    case Finishes => Completed
    case Fails => Failed
    case TimesOut => Aborted
  }

  /** Service calls while the transfer is on the queue, then the abort if it still is. */
  function WaitRun(s: Core, services: seq<Hardware>, abortStatus: bv32, toDevice: bool): Core
    decreases |services|
  {
    if s.list == [] then s
    else if services == [] then AbortHead(s, abortStatus)
    else WaitRun(ServiceStep(s, services[0], toDevice), services[1..], abortStatus, toDevice)
  }

  // One call of the wait, and its end.
  lemma WaitStep(s: Core, services: seq<Hardware>, i: nat, abortStatus: bv32, toDevice: bool)
    requires i <= |services|
    ensures s.list == [] ==> WaitRun(s, services[i..], abortStatus, toDevice) == s
    ensures s.list != [] && i == |services| ==> WaitRun(s, services[i..], abortStatus, toDevice) == AbortHead(s, abortStatus)
    ensures s.list != [] && i < |services| ==>
      WaitRun(s, services[i..], abortStatus, toDevice)
        == WaitRun(ServiceStep(s, services[i], toDevice), services[i + 1..], abortStatus, toDevice)
  {
    hide ServiceStep;
    assert i < |services| ==> services[i..][1..] == services[i + 1..];
  }

  /** Whatever the hardware answers, the transfer leaves the queue in the state of its fate, and the engine is idle. */
  lemma {:induction false} WaitDecides(num: nat, status: bv32, done: seq<Retired>, services: seq<Hardware>,
                                       abortStatus: bv32, toDevice: bool)
    requires num >= 1
    ensures var n := WaitRun(Core(true, 0, status, [num], done), services, abortStatus, toDevice);
      && !n.running && n.list == []
      && n.done == done + [Retired(num, EndOf(FateOf(num, status, services, toDevice)))]
    decreases |services|
  {
    hide ServiceQueue, HasError;
    var s := Core(true, 0, status, [num], done);
    if services == [] {
      assert s.list[1..] == [];
    } else {
      var hw := services[0];
      if CountSeen(hw) != 0 {
        AloneOutcomeIff(Core(false, 0, 0, [], done), num, status, hw, toDevice);
        assert Queue(Core(false, 0, 0, [], done), num, status) == s by { assert [] + [num] == [num]; }
      } else if Busy(StatusAfter(status, hw)) {
        WaitDecides(num, StatusAfter(status, hw), done, services[1..], abortStatus, toDevice);
      } else {
        StoppedStays(ServiceStep(s, hw, toDevice), services[1..], abortStatus, toDevice);
      }
    }
  }

  // A service call leaves a transfer that is alone on the queue there, or takes it off.
  lemma AloneStep(s: Core, hw: Hardware, toDevice: bool)
    requires |s.list| == 1
    ensures var n := ServiceStep(s, hw, toDevice);
      |n.list| <= 1 && |n.done| == |s.done| + 1 - |n.list| && !Restarts(s, hw, toDevice)
  {
    hide Pass, HasError, Busy, Sum, Retire, Left;
  }

  // A stopped engine with a transfer on its queue keeps it until the waiter gives up.
  lemma {:induction false} StoppedStays(s: Core, services: seq<Hardware>, abortStatus: bv32, toDevice: bool)
    requires !s.running && |s.list| == 1
    ensures var n := WaitRun(s, services, abortStatus, toDevice);
      !n.running && n.list == [] && n.done == s.done + [Retired(s.list[0], Aborted)]
    decreases |services|
  {
    if services == [] {
      assert s.list[1..] == [];
    } else {
      StoppedStays(ServiceStep(s, services[0], toDevice), services[1..], abortStatus, toDevice);
    }
  }
}
