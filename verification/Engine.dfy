/** The engine's transfer queue, updated in place: starting, queueing, and servicing completed descriptors. */
module Engine {
  import opened Descriptor
  import opened RingSlots
  import opened Ring
  import opened Service

  class XdmaTransfer {
    const slots: Slots
    const descNum := slots.count
    var state: TransferState

    constructor (slots: Slots)
      ensures this.slots == slots && state == New
    {
      this.slots := slots;
      state := New;
    }
  }

  const EINVAL: int := 22
  const EBUSY: int := 16

  function NumsOf(ts: seq<XdmaTransfer>): seq<nat> {
    seq(|ts|, i requires 0 <= i < |ts| => ts[i].descNum)
  }

  ghost function DoneOf(ts: seq<XdmaTransfer>): seq<Retired>
    reads ts
  {
    seq(|ts|, i requires 0 <= i < |ts| reads ts => Retired(ts[i].descNum, ts[i].state))
  }

  ghost predicate NoDup(ts: seq<XdmaTransfer>) {
    forall i, j :: 0 <= i < j < |ts| ==> ts[i] != ts[j]
  }

  /** Finished transfers are completed, failed or aborted, queued ones submitted; none is empty. */
  ghost predicate InStage(x: XdmaTransfer, finished: bool)
    reads x
  {
    && x.descNum >= 1
    && if finished then x.state == Completed || x.state == Failed || x.state == Aborted else x.state == Submitted
  }

  class Engine {
    const ring: DescriptorRing
    const toDevice := ring.mode.toDevice
    var running: bool
    var shutdownRequested: bool
    var shutdownIdle: bool
    var status: bv32
    var descDequeued: nat
    var transferList: seq<XdmaTransfer>
    ghost var retired: seq<XdmaTransfer>  // taken off the list, oldest first
    ghost var queued: seq<XdmaTransfer>   // every transfer ever accepted, oldest first

    ghost predicate Valid()
      reads this, queued
    {
      && queued == retired + transferList && NoDup(queued)
      && forall i :: 0 <= i < |queued| ==> InStage(queued[i], i < |retired|)
    }

    /** The state the step functions describe. */
    ghost function State(): Core
      reads this, retired
    {
      Core(running, descDequeued, status, NumsOf(transferList), DoneOf(retired))
    }

    /** The descriptors of the queued transfers are in the ring. */
    ghost predicate Backed()
      reads this, ring, ring.desc
    {
      ring.Valid() && ring.intact && forall x <- transferList :: x.slots in ring.live
    }

    /** What the hardware is given if the engine is started on the first transfer. */
    ghost function HeadIf(started: bool): seq<Desc>
      reads this`transferList, ring.desc
    {
      if started && transferList != [] then ring.Content(transferList[0].slots) else []
    }

    constructor (ring: DescriptorRing)
      ensures Valid() && State() == Core(false, 0, 0, [], []) && this.ring == ring
    {
      this.ring := ring;
      running, shutdownRequested, shutdownIdle := false, false, false;
      status, descDequeued := 0, 0;
      transferList, retired, queued := [], [], [];
    }

    /** engine_start: refused while running or with an empty queue; else the hardware is started on the first transfer. */
    method EngineStart(startStatus: bv32) returns (started: bool)
      requires Backed()
      modifies this`running, this`descDequeued, this`status, this`shutdownRequested, this`shutdownIdle, ring`log
      ensures Backed() && ring.log == old(ring.log) + HeadIf(started)
      ensures started == (!old(running) && transferList != [])
      ensures if started then running && descDequeued == 0 && status == startStatus && !shutdownRequested && !shutdownIdle
        else running == old(running) && descDequeued == old(descDequeued) && status == old(status)
             && shutdownRequested == old(shutdownRequested) && shutdownIdle == old(shutdownIdle)
    {
      if running || transferList == [] {
        return false;
      }
      shutdownRequested, shutdownIdle := false, false;
      descDequeued := 0;
      ring.HardwareStart(transferList[0].slots);
      status := startStatus;
      running := true;
      return true;
    }

    /** A shutdown is asked for, as when the device goes offline. */
    method RequestShutdown()
      requires Valid()
      modifies this`shutdownRequested
      ensures Valid() && shutdownRequested && State() == old(State())
    {
      shutdownRequested := true;
    }

    /** transfer_queue: append a transfer that is not queued yet, and start an idle engine. */
    method TransferQueue(x: XdmaTransfer, startStatus: bv32) returns (rv: int)
      requires Valid() && x !in queued && Backed() && x.slots in ring.live
      modifies this, x, ring`log
      ensures Valid() && Backed()
      ensures ring.log == old(ring.log) + HeadIf(rv == 0 && !old(running))
      ensures rv == if x.descNum == 0 then -EINVAL else if old(shutdownRequested) then -EBUSY else 0
      ensures queued == if rv == 0 then old(queued) + [x] else old(queued)
      ensures transferList == if rv == 0 then old(transferList) + [x] else old(transferList)
      ensures retired == old(retired) && shutdownRequested == (old(shutdownRequested) && rv != 0)
      ensures State() == if rv == 0 then Queue(old(State()), x.descNum, startStatus) else old(State())
    {
      if x.descNum == 0 {
        return -EINVAL;
      }
      if shutdownRequested {
        return -EBUSY;
      }
      x.state := Submitted;
      transferList := transferList + [x];
      queued := queued + [x];
      assert DoneOf(retired) == old(DoneOf(retired)) by {
        assert forall i :: 0 <= i < |retired| ==> retired[i] == queued[i];
      }
      assert NumsOf(transferList) == NumsOf(old(transferList)) + [x.descNum];
      rv := 0;
      if !running {
        var started := EngineStart(startStatus);
      }
    }

    /** The head leaves the list in the given state. */
    method RemoveHead(state: TransferState)
      requires Valid() && transferList != [] && (state == Completed || state == Failed || state == Aborted)
      modifies this`transferList, this`retired, transferList[0]
      ensures Valid()
      ensures transferList == old(transferList)[1..] && retired == old(retired) + [old(transferList)[0]]
      ensures NumsOf(transferList) == NumsOf(old(transferList))[1..]
      ensures DoneOf(retired) == old(DoneOf(retired)) + [Retired(old(transferList)[0].descNum, state)]
    {
      var head := transferList[0];
      assert head == queued[|retired|];
      assert forall i :: 0 <= i < |retired| ==> retired[i] == queued[i];
      head.state := state;
      transferList := transferList[1..];
      retired := retired + [head];
      forall i | 0 <= i < |queued| ensures InStage(queued[i], i < |retired|) {
        assert old(InStage(queued[i], i < |retired|));
      }
    }

    /** engine_service_transfer_list: complete every transfer the count strictly exceeds. */
    method ServiceTransferList(descCompleted: nat) returns (left: nat)
      requires Valid() && Backed()
      modifies this`transferList, this`retired, this`descDequeued, transferList
      ensures Valid() && Backed()
      ensures State() == AfterLoop(old(State()), descCompleted)
      ensures var nums := old(State()).list; left == descCompleted - Sum(nums[..LoopCount(nums, descCompleted)])
      ensures transferList != [] ==> left <= transferList[0].descNum
      ensures exists k :: 0 <= k <= |old(transferList)| && transferList == old(transferList)[k..]
    {
      hide Sum, LoopCount, Retire;
      left := descCompleted;
      ghost var nums, k := NumsOf(transferList), 0;
      NothingYet(nums, DoneOf(retired));
      while transferList != [] && left > transferList[0].descNum
        invariant Valid()
        invariant k <= |nums| && transferList == old(transferList)[k..] && NumsOf(transferList) == nums[k..]
        invariant Sum(nums[..k]) <= descCompleted && left == descCompleted - Sum(nums[..k])
        invariant descDequeued == old(descDequeued) + Sum(nums[..k])
        invariant LoopCount(nums, descCompleted) == k + LoopCount(nums[k..], left)
        invariant DoneOf(retired) == old(DoneOf(retired)) + Retire(nums, Verdict(k, false))
        decreases |transferList|
      {
        LoopStep(nums, k, left);
        left := left - transferList[0].descNum;
        descDequeued := descDequeued + transferList[0].descNum;
        RemoveHead(Completed);
        k := k + 1;
      }
      LoopEnds(nums, k, left);
    }

    lemma NothingYet(nums: seq<nat>, done: seq<Retired>)
      ensures Sum(nums[..0]) == 0 && nums[0..] == nums
      ensures done + Retire(nums, Verdict(0, false)) == done
    {
    }

    /** engine_service_final_transfer, outside eop mode: what the engine stopped on. */
    method ServiceFinalTransfer(descCompleted: nat)
      requires Valid() && Backed()
      requires transferList != [] ==> descCompleted <= transferList[0].descNum
      modifies this`transferList, this`retired, this`descDequeued, this`running, transferList
      ensures Valid()
      ensures State() == AfterFinal(old(State()), descCompleted, toDevice)
      ensures Backed()
    {
      if transferList == [] {
        return;
      }
      if HasError(status, toDevice) {
        running := false;
        RemoveHead(Failed);
        return;
      }
      descDequeued := descDequeued + transferList[0].descNum;
      if descCompleted < transferList[0].descNum {
        RemoveHead(Failed);
      } else {
        RemoveHead(Completed);
      }
    }

    /** engine_service_resume. */
    method ServiceResume(startStatus: bv32)
      requires Valid() && Backed()
      modifies this`running, this`descDequeued, this`status, this`shutdownRequested, this`shutdownIdle, ring`log
      ensures Backed()
      ensures ring.log == old(ring.log) + HeadIf(!old(State()).running && old(State()).list != [])
      ensures Valid() && State() == AfterResume(old(State()), startStatus)
      ensures shutdownRequested == (old(shutdownRequested) && (old(running) || transferList == []))
      ensures shutdownIdle == if !old(running) && transferList != [] then false
        else old(shutdownIdle) || (!old(running) && old(shutdownRequested))
    {
      if !running {
        if transferList != [] {
          var started := EngineStart(startStatus);
        } else if shutdownRequested {
          shutdownIdle := true;
        }
      } else if transferList == [] {
        running := false;
      }
    }

    /** The three calls that serve the queue. */
    method ServiceTransfers(descCount: nat, startStatus: bv32)
      requires Valid() && Backed()
      modifies this, transferList, ring`log
      ensures Backed()
      ensures ring.log == old(ring.log) + HeadIf(RestartsAfter(old(State()), descCount, toDevice))
      ensures Valid() && queued == old(queued) && (shutdownRequested ==> old(shutdownRequested))
      ensures State() == ServiceQueue(old(State()), descCount, startStatus, toDevice)
    {
      hide Valid, Backed, State, HeadIf, DescriptorRing.Valid, AfterLoop, AfterFinal, AfterResume,
           ServiceQueue, Sum, LoopCount;
      PassIsThreeCalls(State(), descCount, startStatus, toDevice);
      var left := ServiceTransferList(descCount);
      ServiceFinalTransfer(left);
      ServiceResume(startStatus);
    }

    method ReadStatus(status: bv32)
      requires Valid() && Backed()
      modifies this`status
      ensures Valid() && Backed() && State() == old(State()).(status := status)
      ensures HeadIf(false) == []
    {
      this.status := status;
    }

    /** The first half of engine_service: read the status if asked to, and stop an engine that is idle or has written
        back. */
    method NoteStatus(hw: Hardware)
      requires Valid() && Backed() && running
      modifies this`status, this`running
      ensures Valid() && Backed() && State() == Noted(old(State()), hw)
      ensures HeadIf(false) == []
    {
      if hw.wbCount == 0 || hw.wbError {
        status := hw.status;
      }
      if !Busy(status) || hw.wbCount != 0 {
        running := false;
      }
    }

    /** engine_service: the step function on what the hardware answers; no transfer is lost, doubled or reordered. */
    method EngineService(hw: Hardware) returns (rv: int)
      requires Valid() && Backed()
      modifies this, transferList, ring`log
      ensures Backed()
      ensures ring.log == old(ring.log) + HeadIf(Restarts(old(State()), hw, toDevice))
      ensures Valid() && queued == old(queued) && (shutdownRequested ==> old(shutdownRequested))
      ensures State() == ServiceStep(old(State()), hw, toDevice)
      ensures rv == if old(running) && hw.wbError then -1 else 0
    {
      hide Valid, Backed, HeadIf, NumsOf, DoneOf, Noted, ServiceQueue, RestartsAfter, DescriptorRing.Valid;
      if !running {
        ReadStatus(hw.status);
        return 0;
      }
      var descCount := hw.wbCount;
      NoteStatus(hw);
      if descCount == 0 {
        descCount := hw.count;
      }
      rv := if hw.wbError then -1 else 0;
      if descCount == 0 {
        return;
      }
      ServiceTransfers((descCount - descDequeued) % TWO32, hw.startStatus);
    }

    /** transfer_abort of the head of the queue after reading the status, and the stop of the engine. */
    method AbortTransfer(status: bv32)
      requires Valid() && transferList != []
      modifies this, transferList[0]
      ensures Valid() && queued == old(queued) && shutdownRequested == old(shutdownRequested)
      ensures State() == AbortHead(old(State()), status)
    {
      this.status := status;
      RemoveHead(Aborted);
      running := false;
    }

    /** Nothing queued and not running: what a synchronous request finds and leaves. */
    ghost predicate Idle()
      reads this, queued
    {
      Valid() && !running && transferList == []
    }

    /** The wait of a synchronous request for the one transfer queued: service calls until it is no longer submitted;
        if they run out, the transfer is aborted. */
    method Await(x: XdmaTransfer, services: seq<Hardware>, abortStatus: bv32) returns (state: TransferState)
      requires Valid() && Backed() && running && descDequeued == 0 && transferList == [x]
      modifies this, x, ring`log
      ensures ring.Valid() && ring.log == old(ring.log)
      ensures Idle() && queued == old(queued) && (shutdownRequested ==> old(shutdownRequested))
      ensures state == x.state == EndOf(FateOf(x.descNum, old(status), services, toDevice))
      ensures State().done == old(State()).done + [Retired(x.descNum, state)]
    {
      hide Service.ServiceStep, FateOf, WaitRun, Restarts, DescriptorRing.Valid;
      ghost var start := State();
      assert x == queued[|retired|] && start.list == [x.descNum];
      WaitDecides(x.descNum, status, start.done, services, abortStatus, toDevice);
      var i := 0;
      while i < |services| && x.state == Submitted
        invariant i <= |services| && Valid() && Backed() && queued == old(queued)
        invariant ring.log == old(ring.log) && (shutdownRequested ==> old(shutdownRequested))
        invariant |queued| >= 1 && x == queued[|queued| - 1] && transferList == (if x.state == Submitted then [x] else [])
        invariant WaitRun(State(), services[i..], abortStatus, toDevice) == WaitRun(start, services, abortStatus, toDevice)
      {
        ghost var before := State();
        assert before.list == [x.descNum];
        var rv := EngineService(services[i]);
        WaitStep(before, services, i, abortStatus, toDevice);
        AloneStep(before, services[i], toDevice);
        i := i + 1;
      }
      WaitStep(State(), services, i, abortStatus, toDevice);
      if x.state == Submitted {
        AbortTransfer(abortStatus);
      }
      assert retired == queued && State().done[|retired| - 1] == Retired(x.descNum, x.state);
      state := x.state;
    }
  }
}
