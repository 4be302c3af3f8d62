/** Submitting a whole request: transfer after transfer through the ring and the engine's queue. */
module Submit {
  import opened Arith
  import opened Control
  import opened Descriptor
  import opened RingSlots
  import opened Ring
  import opened Service
  import opened Engine
  import opened Split

  // -------------------------------------------------------- which byte goes where

  /** A host byte address and the device byte address it is copied to or from. */
  datatype Pair = Pair(host: nat, dev: nat)

  /** The copies one descriptor asks for; device addresses are 64-bit. */
  function PairsOf(d: Desc, toDevice: bool): seq<Pair> {
    var host, dev := if toDevice then d.src else d.dst, if toDevice then d.dst else d.src;
    seq(d.bytes, j requires 0 <= j => Pair(host + j, (dev + j) % TWO64))
  }

  function ByteMap(ds: seq<Desc>, toDevice: bool): seq<Pair> {
    if ds == [] then [] else ByteMap(ds[..|ds| - 1], toDevice) + PairsOf(ds[|ds| - 1], toDevice)
  }

  /** Host byte k next to device address ep + k, for every k. */
  function Straight(host: seq<nat>, ep: nat): seq<Pair> {
    seq(|host|, k requires 0 <= k < |host| => Pair(host[k], (ep + k) % TWO64))
  }

  lemma WrapStep(x: nat, j: nat)
    ensures (x % TWO64 + j) % TWO64 == (x + j) % TWO64
  {
  }

  lemma StraightAppend(a: seq<nat>, b: seq<nat>, ep: nat)
    ensures Straight(a + b, ep) == Straight(a, ep) + Straight(b, (ep + |a|) % TWO64)
  {
    var joined, right := Straight(a + b, ep), Straight(b, (ep + |a|) % TWO64);
    forall k | 0 <= k < |b| ensures joined[|a| + k] == right[k] {
      WrapStep(ep + |a|, k);
    }
  }

  // ------------------------------------------------ descriptors that carry out pieces

  /** The descriptor moves len bytes between the host address and the device address. */
  predicate Moves(d: Desc, host: nat, dev: nat, len: nat, toDevice: bool) {
    d.bytes == len && if toDevice then d.src == host && d.dst == dev else d.dst == host && d.src == dev
  }

  /** One descriptor for each piece, in order; the device address runs on from ep, or stays there if it is fixed. */
  ghost predicate CarriesOut(ds: seq<Desc>, sds: seq<SwDesc>, ep: nat, m: Mode) {
    && |ds| == |sds|
    && forall i :: 0 <= i < |ds| ==> Moves(ds[i], sds[i].addr, EpAfter(ep, sds[..i], m), sds[i].len, m.toDevice)
  }

  lemma BuiltCarriesOut(sds: seq<SwDesc>, ep: nat, bus: nat, start: nat, m: Mode)
    ensures CarriesOut(BuiltAll(sds, ep, bus, start, m), sds, ep, m)
  {
    hide AdjacentOf, NextOf, ControlWord, EpAfter;
  }

  lemma ExtendEp(sds: seq<SwDesc>, i: nat, j: nat, ep: nat, m: Mode)
    requires i <= j <= |sds|
    ensures Bytes(sds[..j]) == Bytes(sds[..i]) + Bytes(sds[i..j])
    ensures EpAfter(EpAfter(ep, sds[..i], m), sds[i..j], m) == EpAfter(ep, sds[..j], m)
  {
    hide HostBytes;
    assert sds[..j] == sds[..i] + sds[i..j];
    HostBytesAppend(sds[..i], sds[i..j]);
    WrapStep(ep + Bytes(sds[..i]), Bytes(sds[i..j]));
  }

  // One more transfer: what was carried out so far and what its descriptors carry out join up.
  lemma CarriesOn(made: seq<Desc>, chunk: seq<Desc>, sds: seq<SwDesc>, i: nat, j: nat, ep: nat, m: Mode)
    requires i <= j <= |sds|
    requires CarriesOut(made, sds[..i], ep, m) && CarriesOut(chunk, sds[i..j], EpAfter(ep, sds[..i], m), m)
    ensures CarriesOut(made + chunk, sds[..j], ep, m)
  {
    hide EpAfter, Moves;
    var ds, upto := made + chunk, sds[..j];
    forall k | 0 <= k < |ds| ensures Moves(ds[k], upto[k].addr, EpAfter(ep, upto[..k], m), upto[k].len, m.toDevice) {
      assert upto[..k] == sds[..k];
      if k < i {
        assert sds[..i][..k] == sds[..k];
        assert Moves(made[k], sds[..i][k].addr, EpAfter(ep, sds[..i][..k], m), sds[k].len, m.toDevice);
      } else {
        ExtendEp(sds, i, k, ep, m);
        assert sds[i..j][..k - i] == sds[i..k];
        assert Moves(chunk[k - i], sds[i..j][k - i].addr, EpAfter(EpAfter(ep, sds[..i], m), sds[i..j][..k - i], m),
                     sds[k].len, m.toDevice);
      }
    }
  }

  lemma MoveMap(d: Desc, addr: nat, dev: nat, len: nat, toDevice: bool)
    requires Moves(d, addr, dev, len, toDevice)
    ensures PairsOf(d, toDevice) == Straight(Addresses(addr, len), dev)
  {
  }

  /** Such descriptors pair byte k of the pieces with device address ep + k, unless that address is fixed. */
  lemma {:induction false} CarriedMap(ds: seq<Desc>, sds: seq<SwDesc>, ep: nat, m: Mode)
    requires !m.nonIncr && CarriesOut(ds, sds, ep, m)
    ensures ByteMap(ds, m.toDevice) == Straight(HostBytes(sds), ep)
  {
    hide PairsOf, Addresses, Moves;
    if ds == [] {
    } else {
      var i := |ds| - 1;
      assert forall k :: 0 <= k < i ==> sds[..i][..k] == sds[..k];
      CarriedMap(ds[..i], sds[..i], ep, m);
      StraightAppend(HostBytes(sds[..i]), Addresses(sds[i].addr, sds[i].len), ep);
      MoveMap(ds[i], sds[i].addr, EpAfter(ep, sds[..i], m), sds[i].len, m.toDevice);
    }
  }

  /** With a fixed device address every one of them is at ep. */
  lemma CarriedFixed(ds: seq<Desc>, sds: seq<SwDesc>, ep: nat, m: Mode)
    requires m.nonIncr && CarriesOut(ds, sds, ep, m)
    ensures forall d <- ds :: (if m.toDevice then d.dst else d.src) == ep
  {
    forall d | d in ds ensures (if m.toDevice then d.dst else d.src) == ep {
      var i :| 0 <= i < |ds| && ds[i] == d;
      assert Moves(ds[i], sds[i].addr, EpAfter(ep, sds[..i], m), sds[i].len, m.toDevice);
    }
  }

  // -------------------------------------------------------- what a request comes to

  const EIO: int := 5
  const ENOMEM: int := 12
  const ERESTARTSYS: int := 512

  function ErrorOf(f: Fate): int {
    match f
    case Finishes => 0
    case Fails => -EIO
    case TimesOut => -ERESTARTSYS
  }

  /** What the surroundings do to one transfer: whether a shutdown is asked for before it is queued, the status read
      when the engine is started, the answers to the service calls while it is waited for, the status on an abort. */
  datatype Answer = Answer(shutdown: bool, startStatus: bv32, services: seq<Hardware>, abortStatus: bv32)

  /** Descriptors of completed transfers, of those given to the hardware, of those built into the ring; the
      transfers taken off the queue; and the error the request stopped with. */
  datatype Account = Account(completed: nat, handed: nat, built: nat, retired: seq<Retired>, error: int)

  function After(count: nat, retired: seq<Retired>, rest: Account): Account {
    Account(count + rest.completed, count + rest.handed, count + rest.built, retired + rest.retired, rest.error)
  }

  /** The ring index n slots after idx. */
  function SlotAfter(idx: nat, n: nat, max: nat): nat
    requires max >= 1
    ensures SlotAfter(idx, n, max) < max
  {
    (idx + n) % max
  }

  /** The account of cnt descriptors from slot idx on, the next transfer being number t. */
  function AccountOf(answers: nat -> Answer, asked: bool, cnt: nat, idx: nat, max: nat, t: nat, toDevice: bool): Account
    requires idx < max
    decreases cnt
  {
    if cnt == 0 then Account(0, 0, 0, [], 0)
    else
      var count, a := ChunkSize(cnt, idx, max), answers(t);
      var fate := FateOf(count, a.startStatus, a.services, toDevice);
      if asked || a.shutdown then Account(0, 0, count, [], -EBUSY)
      else if fate != Finishes then Account(0, count, count, [Retired(count, EndOf(fate))], ErrorOf(fate))
      else
        var rest := AccountOf(answers, false, cnt - count, SlotAfter(idx, count, max), max, t + 1, toDevice);
        After(count, [Retired(count, Completed)], rest)
  }

  /** Nothing is given to the hardware that was not built, and nothing completes that was not given to it; a refused
      transfer was not given to it, a failed or aborted one was; only success leaves nothing undone. */
  ghost predicate Balanced(r: Account, cnt: nat) {
    && r.completed <= r.handed <= r.built <= cnt && Sum(Nums(r.retired)) == r.handed
    && (r.error == 0 || r.error == -EBUSY || r.error == -EIO || r.error == -ERESTARTSYS)
    && (r.error == 0 <==> r.completed == cnt)
    && (r.error == -EBUSY <==> r.handed < r.built)
    && (r.error == -EIO || r.error == -ERESTARTSYS <==> r.completed < r.handed)
    && (r.error == -EIO <==> LastIs(r.retired, Failed)) && (r.error == -ERESTARTSYS <==> LastIs(r.retired, Aborted))
  }

  ghost predicate LastIs(retired: seq<Retired>, state: TransferState) {
    retired != [] && retired[|retired| - 1].state == state
  }

  lemma {:induction false} AccountBalances(answers: nat -> Answer, asked: bool, cnt: nat, idx: nat, max: nat, t: nat,
                                           toDevice: bool)
    requires idx < max
    ensures Balanced(AccountOf(answers, asked, cnt, idx, max, t, toDevice), cnt)
    decreases cnt
  {
    hide FateOf, ChunkSize, After, Sum, Nums, EndOf;
    NoneRetired();
    if cnt == 0 {
    } else {
      var count, a := ChunkSize(cnt, idx, max), answers(t);
      var rest := AccountOf(answers, false, cnt - count, SlotAfter(idx, count, max), max, t + 1, toDevice);
      AccountBalances(answers, false, cnt - count, SlotAfter(idx, count, max), max, t + 1, toDevice);
      AfterBalances(count, rest, cnt - count);
      LastBalances(count, FateOf(count, a.startStatus, a.services, toDevice), cnt);
    }
  }

  lemma AfterBalances(count: nat, rest: Account, left: nat)
    requires Balanced(rest, left)
    ensures Balanced(After(count, [Retired(count, Completed)], rest), count + left)
  {
    hide Sum, Nums;
    OneRetired(Retired(count, Completed), rest.retired);
  }

  lemma LastBalances(count: nat, fate: Fate, cnt: nat)
    requires 1 <= count <= cnt
    ensures fate != Finishes ==> Balanced(Account(0, count, count, [Retired(count, EndOf(fate))], ErrorOf(fate)), cnt)
  {
    hide Sum, Nums;
    NoneRetired();
    OneRetired(Retired(count, EndOf(fate)), []);
    assert [Retired(count, EndOf(fate))] + [] == [Retired(count, EndOf(fate))];
  }

  lemma NoneRetired()
    ensures Sum(Nums([])) == 0
  {
  }

  lemma OneRetired(first: Retired, rest: seq<Retired>)
    ensures Sum(Nums([first] + rest)) == first.num + Sum(Nums(rest))
  {
    assert Nums([first] + rest)[1..] == Nums(rest);
  }

  /** The number of descriptors of the k-th transfer from slot idx on. */
  function NthSize(cnt: nat, idx: nat, max: nat, k: nat): nat
    requires idx < max
    decreases cnt
  {
    if cnt == 0 then 0
    else
      var count := ChunkSize(cnt, idx, max);
      if k == 0 then count else NthSize(cnt - count, SlotAfter(idx, count, max), max, k - 1)
  }

  /** The k-th transfer is accepted and completes. */
  predicate Succeeds(answers: nat -> Answer, cnt: nat, idx: nat, max: nat, t: nat, k: nat, toDevice: bool)
    requires idx < max
  {
    var a := answers(t + k);
    !a.shutdown && FateOf(NthSize(cnt, idx, max, k), a.startStatus, a.services, toDevice) == Finishes
  }

  ghost predicate AllSucceed(answers: nat -> Answer, cnt: nat, idx: nat, max: nat, t: nat, toDevice: bool)
    requires idx < max
  {
    forall k :: 0 <= k < Transfers(cnt, idx, max) ==> Succeeds(answers, cnt, idx, max, t, k, toDevice)
  }

  /** The whole request completes exactly when no shutdown was asked for before it and every one of the transfers it
      needs is accepted and completes. */
  lemma {:induction false} CompletesAllIff(answers: nat -> Answer, asked: bool, cnt: nat, idx: nat, max: nat, t: nat,
                                           toDevice: bool)
    requires idx < max
    ensures AccountOf(answers, asked, cnt, idx, max, t, toDevice).error == 0 <==>
      (asked ==> cnt == 0) && AllSucceed(answers, cnt, idx, max, t, toDevice)
    decreases cnt
  {
    hide FateOf, ChunkSize, EndOf, Succeeds;
    if cnt == 0 {
    } else {
      var count := ChunkSize(cnt, idx, max);
      CompletesAllIff(answers, false, cnt - count, SlotAfter(idx, count, max), max, t + 1, toDevice);
      FirstAndRest(answers, cnt, idx, max, t, toDevice);
    }
  }

  lemma FirstAndRest(answers: nat -> Answer, cnt: nat, idx: nat, max: nat, t: nat, toDevice: bool)
    requires idx < max && cnt >= 1
    ensures var count, a := ChunkSize(cnt, idx, max), answers(t);
      AllSucceed(answers, cnt, idx, max, t, toDevice) <==>
        && !a.shutdown && FateOf(count, a.startStatus, a.services, toDevice) == Finishes
        && AllSucceed(answers, cnt - count, SlotAfter(idx, count, max), max, t + 1, toDevice)
  {
    hide FateOf, ChunkSize;
    var left, next, u := cnt - ChunkSize(cnt, idx, max), SlotAfter(idx, ChunkSize(cnt, idx, max), max), t + 1;
    assert Transfers(cnt, idx, max) == 1 + Transfers(left, next, max);
    assert t + 0 == t;
    if AllSucceed(answers, left, next, max, u, toDevice) && Succeeds(answers, cnt, idx, max, t, 0, toDevice) {
      forall k | 0 <= k < Transfers(cnt, idx, max) ensures Succeeds(answers, cnt, idx, max, t, k, toDevice) {
        if k > 0 {
          assert Succeeds(answers, left, next, max, u, k - 1, toDevice) && u + (k - 1) == t + k;
        }
      }
    }
    if AllSucceed(answers, cnt, idx, max, t, toDevice) {
      assert Succeeds(answers, cnt, idx, max, t, 0, toDevice);
      forall k | 0 <= k < Transfers(left, next, max) ensures Succeeds(answers, left, next, max, u, k, toDevice) {
        assert Succeeds(answers, cnt, idx, max, t, k + 1, toDevice) && u + k == t + (k + 1);
      }
    }
  }

  // One turn of the loop in the specification.
  lemma OneTurn(answers: nat -> Answer, asked: bool, cnt: nat, idx: nat, max: nat, t: nat, toDevice: bool,
                made: nat, soFar: seq<Retired>)
    requires idx < max && cnt >= 1
    ensures var count, a := ChunkSize(cnt, idx, max), answers(t);
      var fate := FateOf(count, a.startStatus, a.services, toDevice);
      After(made, soFar, AccountOf(answers, asked, cnt, idx, max, t, toDevice)) ==
        if asked || a.shutdown then Account(made, made, made + count, soFar, -EBUSY)
        else if fate != Finishes then
          Account(made, made + count, made + count, soFar + [Retired(count, EndOf(fate))], ErrorOf(fate))
        else
          After(made + count, soFar + [Retired(count, EndOf(fate))],
                AccountOf(answers, false, cnt - count, SlotAfter(idx, count, max), max, t + 1, toDevice))
  {
    hide FateOf;
    var count := ChunkSize(cnt, idx, max);
    var rest := AccountOf(answers, false, cnt - count, SlotAfter(idx, count, max), max, t + 1, toDevice);
    assert soFar + ([Retired(count, Completed)] + rest.retired) == soFar + [Retired(count, Completed)] + rest.retired;
    assert soFar + [] == soFar;
  }

  // -------------------------------------------------------------- the submit loop

  /** The ring and the engine between synchronous requests: nothing live, nothing queued, the same direction. */
  ghost predicate Ready(ring: DescriptorRing, engine: Engine)
    reads ring, ring.desc, engine, engine.queued
  {
    && ring.Valid() && ring.intact && ring.live == []
    && engine.Idle() && engine.ring == ring
  }

  /** The first half of the loop body: build the next transfer and queue it. The hardware gets its descriptors if and
      only if it is accepted. */
  method Begin(ring: DescriptorRing, engine: Engine, req: Request, a: Answer)
    returns (x: Transfer, xfer: XdmaTransfer, rv: int)
    requires Ready(ring, engine) && req.swIdx < |req.sdesc| && req.ep < TWO64
    modifies ring, ring.desc, engine, req
    ensures ring.Valid() && ring.intact && ring.live == if rv == 0 then [Slots(x.index, x.num)] else []
    ensures ring.used == old(ring.used) + x.num && ring.leaked == old(ring.leaked) + if rv == 0 then 0 else x.num
    ensures x.num == ChunkSize(|req.sdesc| - old(req.swIdx), old(ring.idx), ring.max)
    ensures ring.idx == (old(ring.idx) + x.num) % ring.max && req.swIdx == old(req.swIdx) + x.num <= |req.sdesc|
    ensures rv == if old(engine.shutdownRequested) || a.shutdown then -EBUSY else 0
    ensures var sds := req.sdesc[old(req.swIdx)..req.swIdx];
      && x.len == Bytes(sds) % TWO32 && req.ep == EpAfter(old(req.ep), sds, ring.mode)
      && old(ring.log) <= ring.log
      && (rv == 0 ==> CarriesOut(ring.log[|old(ring.log)|..], sds, old(req.ep), ring.mode))
      && (rv != 0 ==> ring.log == old(ring.log))
    ensures fresh(xfer) && xfer.slots == Slots(x.index, x.num) && engine.Valid()
    ensures if rv == 0 then
        && engine.State() == Core(true, 0, a.startStatus, [x.num], old(engine.State()).done)
        && engine.transferList == [xfer] && !engine.shutdownRequested
      else engine.Idle() && engine.State() == old(engine.State())
  {
    hide EpAfter, Bytes, BuiltAll, CarriesOut, DescriptorRing.Valid, Engine.Valid, DoneOf, ChunkSize;
    ghost var i, ep := req.swIdx, req.ep;
    x := ring.TransferInit(req);
    assert ring.live == [Slots(x.index, x.num)];
    BuiltCarriesOut(req.sdesc[i..req.swIdx], ep, ring.bus, x.index, ring.mode);
    xfer := new XdmaTransfer(Slots(x.index, x.num));
    if a.shutdown {
      engine.RequestShutdown();
    }
    rv := engine.TransferQueue(xfer, a.startStatus);
    if rv == 0 {
      assert ring.log[|old(ring.log)|..] == BuiltAll(req.sdesc[i..req.swIdx], ep, ring.bus, x.index, ring.mode);
    } else {
      ring.Abandon(x);
    }
  }

  /** The second half: wait for the transfer, take its end, and give its descriptors back. */
  method Complete(ring: DescriptorRing, engine: Engine, x: Transfer, xfer: XdmaTransfer, a: Answer) returns (rv: int)
    requires ring.Valid() && ring.intact && ring.live == [Slots(x.index, x.num)]
    requires engine.Valid() && engine.State() == Core(true, 0, a.startStatus, [x.num], engine.State().done)
    requires engine.transferList == [xfer] && xfer.descNum == x.num && !engine.shutdownRequested
    requires engine.ring == ring && xfer.slots in ring.live
    modifies ring, ring.desc, engine, xfer
    ensures Ready(ring, engine) && ring.log == old(ring.log) && ring.idx == old(ring.idx) && !engine.shutdownRequested
    ensures ring.used == old(ring.used) - x.num
    ensures var fate := FateOf(x.num, a.startStatus, a.services, engine.toDevice);
      rv == ErrorOf(fate) && engine.State().done == old(engine.State()).done + [Retired(x.num, EndOf(fate))]
  {
    hide FateOf, Consecutive, Used, IsChain, DescriptorRing.Valid;
    var state := engine.Await(xfer, a.services, a.abortStatus);
    match state {
      case Completed => rv := 0;
      case Failed => rv := -EIO;
      case _ => rv := -ERESTARTSYS;
    }
    ring.Release(x);
  }

  /** One turn of the loop: a refused transfer is built but reaches neither the hardware nor the queue; any other one is
      given to the hardware, and taken off the queue in the state of its fate. */
  method Turn(ring: DescriptorRing, engine: Engine, req: Request, a: Answer) returns (x: Transfer, rv: int)
    requires Ready(ring, engine) && req.swIdx < |req.sdesc| && req.ep < TWO64
    modifies ring, ring.desc, engine, req
    ensures Ready(ring, engine)
    ensures x.num == ChunkSize(|req.sdesc| - old(req.swIdx), old(ring.idx), ring.max)
    ensures ring.idx == (old(ring.idx) + x.num) % ring.max && req.swIdx == old(req.swIdx) + x.num <= |req.sdesc|
    ensures ring.used == old(ring.used) + if rv == -EBUSY then x.num else 0
    ensures var sds := req.sdesc[old(req.swIdx)..req.swIdx];
      && x.len == Bytes(sds) % TWO32 && req.ep == EpAfter(old(req.ep), sds, ring.mode)
      && old(ring.log) <= ring.log
      && if old(engine.shutdownRequested) || a.shutdown then
          rv == -EBUSY && ring.log == old(ring.log) && engine.State() == old(engine.State())
        else
          var fate := FateOf(x.num, a.startStatus, a.services, engine.toDevice);
          && rv == ErrorOf(fate) && !engine.shutdownRequested
          && CarriesOut(ring.log[|old(ring.log)|..], sds, old(req.ep), ring.mode)
          && engine.State().done == old(engine.State()).done + [Retired(x.num, EndOf(fate))]
  {
    hide EpAfter, Bytes, CarriesOut, DescriptorRing.Valid, Engine.Valid, Engine.State, ChunkSize, FateOf;
    var xfer;
    x, xfer, rv := Begin(ring, engine, req, a);
    if rv == 0 {
      rv := Complete(ring, engine, x, xfer, a);
    }
  }

  /** What is on record of a request split into pieces, when its account is r and made is what the hardware got:
      exactly the first pieces, one descriptor each, in order; the result is the bytes of the completed transfers, or
      the error if there are none. */
  ghost predicate Reported(ret: int, made: seq<Desc>, split: seq<SwDesc>, ep: nat, m: Mode, r: Account) {
    && r.completed <= r.handed <= |split|
    && CarriesOut(made, split[..r.handed], ep, m)
    && (Bytes(split) < TWO32 ==> ret == if Bytes(split[..r.completed]) != 0 then Bytes(split[..r.completed]) else r.error)
  }

  /** Pieces up to upto are with the hardware, and done counts their bytes. */
  ghost predicate Underway(all: seq<SwDesc>, ep: nat, m: Mode, made: seq<Desc>, upto: nat, done: nat) {
    && upto <= |all|
    && CarriesOut(made, all[..upto], ep, m)
    && (Bytes(all) < TWO32 ==> done == Bytes(all[..upto]))
  }

  lemma Continue(all: seq<SwDesc>, ep: nat, m: Mode, made: seq<Desc>, chunk: seq<Desc>, i: nat, j: nat, done: nat, len: nat)
    requires Underway(all, ep, m, made, i, done) && i <= j <= |all|
    requires CarriesOut(chunk, all[i..j], EpAfter(ep, all[..i], m), m) && len == Bytes(all[i..j]) % TWO32
    ensures Underway(all, ep, m, made + chunk, j, done + len)
    ensures EpAfter(EpAfter(ep, all[..i], m), all[i..j], m) == EpAfter(ep, all[..j], m)
  {
    hide CarriesOut, EpAfter, Bytes;
    CarriesOn(made, chunk, all, i, j, ep, m);
    ExtendEp(all, i, j, ep, m);
    Part(all, i, j);
  }

  lemma Conclude(all: seq<SwDesc>, ep: nat, m: Mode, before: seq<Desc>, c: nat, done: nat, made: seq<Desc>, more: nat,
                 r: Account, ret: int)
    requires Underway(all, ep, m, before, c, done) && r.completed == c <= r.handed
    requires Underway(all, ep, m, made, r.handed, more) && ret == if done != 0 then done else r.error
    ensures Reported(ret, made, all, ep, m, r)
  {
    hide CarriesOut;
  }

  // The bytes of a part, and of what comes before it, are no more than all of them.
  lemma Part(all: seq<SwDesc>, i: nat, j: nat)
    requires i <= j <= |all|
    ensures Bytes(all[..i]) + Bytes(all[i..j]) == Bytes(all[..j]) <= Bytes(all)
  {
    assert all == all[..j] + all[j..] && all[..j] == all[..i] + all[i..j];
    HostBytesAppend(all[..j], all[j..]);
    HostBytesAppend(all[..i], all[i..j]);
  }

  lemma SlotStep(idx: nat, from: nat, count: nat, max: nat)
    requires max >= 1
    ensures SlotAfter(SlotAfter(idx, from, max), count, max) == SlotAfter(idx, from + count, max)
  {
    var s, q := idx + from, (idx + from) / max;
    var y := s % max + count;
    MulDistr(q, y / max, max);
    DivModUnique(s + count, max, q + y / max, y % max);
  }

  lemma NothingLeft(answers: nat -> Answer, asked: bool, all: seq<SwDesc>, idx: nat, max: nat, t: nat, toDevice: bool,
                    soFar: seq<Retired>)
    requires idx < max
    ensures all[..|all|] == all
    ensures After(|all|, soFar, AccountOf(answers, asked, 0, idx, max, t, toDevice))
         == Account(|all|, |all|, |all|, soFar, 0)
  {
  }

  /** What the loop is about: the pieces and where they go, what happens meanwhile, and the account to come. */
  datatype Task = Task(all: seq<SwDesc>, ep: nat, m: Mode, idx0: nat, max: nat, answers: nat -> Answer, total: Account)

  /** Where the loop stands before transfer t, with pieces from upto on to go. */
  ghost predicate Progress(k: Task, made: seq<Desc>, soFar: seq<Retired>, upto: nat, done: nat, t: nat, asked: bool,
                           idx: nat, at: nat)
  {
    && idx < k.max && Underway(k.all, k.ep, k.m, made, upto, done)
    && at == EpAfter(k.ep, k.all[..upto], k.m) && at < TWO64 && idx == SlotAfter(k.idx0, upto, k.max)
    && k.total == After(upto, soFar, AccountOf(k.answers, asked, |k.all| - upto, idx, k.max, t, k.m.toDevice))
  }

  lemma NothingYet(k: Task, asked: bool)
    requires k.ep < TWO64 && k.idx0 < k.max
    requires k.total == AccountOf(k.answers, asked, |k.all|, k.idx0, k.max, 0, k.m.toDevice)
    ensures Progress(k, [], [], 0, 0, 0, asked, k.idx0, k.ep)
  {
    hide AccountOf;
    assert k.all[..0] == [] && [] + k.total.retired == k.total.retired;
  }

  lemma ProgressEp(k: Task, made: seq<Desc>, soFar: seq<Retired>, upto: nat, done: nat, t: nat, asked: bool, idx: nat, at: nat)
    requires Progress(k, made, soFar, upto, done, t, asked, idx, at)
    ensures at < TWO64 && idx == SlotAfter(k.idx0, upto, k.max)
  {
  }

  lemma TurnRefused(k: Task, made: seq<Desc>, soFar: seq<Retired>, upto: nat, done: nat, t: nat, asked: bool, idx: nat, at: nat)
    requires Progress(k, made, soFar, upto, done, t, asked, idx, at) && upto < |k.all|
    requires asked || k.answers(t).shutdown
    ensures var count := ChunkSize(|k.all| - upto, idx, k.max);
      && k.total == Account(upto, upto, upto + count, soFar, -EBUSY)
      && SlotAfter(idx, count, k.max) == SlotAfter(k.idx0, k.total.built, k.max)
      && Reported(if done != 0 then done else -EBUSY, made, k.all, k.ep, k.m, k.total)
  {
    hide AccountOf, Underway, Reported, After, EpAfter, ChunkSize, FateOf, SlotAfter;
    OneTurn(k.answers, asked, |k.all| - upto, idx, k.max, t, k.m.toDevice, upto, soFar);
    SlotStep(k.idx0, upto, ChunkSize(|k.all| - upto, idx, k.max), k.max);
    Conclude(k.all, k.ep, k.m, made, upto, done, made, done, k.total, if done != 0 then done else -EBUSY);
  }

  lemma TurnTaken(k: Task, made: seq<Desc>, soFar: seq<Retired>, upto: nat, done: nat, t: nat, asked: bool, idx: nat,
                  at: nat, count: nat, chunk: seq<Desc>, len: nat)
    requires Progress(k, made, soFar, upto, done, t, asked, idx, at) && upto < |k.all|
    requires !asked && !k.answers(t).shutdown && count == ChunkSize(|k.all| - upto, idx, k.max)
    requires CarriesOut(chunk, k.all[upto..upto + count], at, k.m) && len == Bytes(k.all[upto..upto + count]) % TWO32
    ensures var fate := FateOf(count, k.answers(t).startStatus, k.answers(t).services, k.m.toDevice);
      var taken := soFar + [Retired(count, EndOf(fate))];
      if fate == Finishes then
        Progress(k, made + chunk, taken, upto + count, done + len, t + 1, false, SlotAfter(idx, count, k.max),
                 EpAfter(at, k.all[upto..upto + count], k.m))
      else
        && k.total == Account(upto, upto + count, upto + count, taken, ErrorOf(fate))
        && SlotAfter(idx, count, k.max) == SlotAfter(k.idx0, k.total.built, k.max)
        && Reported(if done != 0 then done else ErrorOf(fate), made + chunk, k.all, k.ep, k.m, k.total)
  {
    hide AccountOf, Underway, Reported, After, EpAfter, ChunkSize, FateOf, EndOf, CarriesOut, Bytes, SlotAfter;
    OneTurn(k.answers, asked, |k.all| - upto, idx, k.max, t, k.m.toDevice, upto, soFar);
    SlotStep(k.idx0, upto, count, k.max);
    Continue(k.all, k.ep, k.m, made, chunk, upto, upto + count, done, len);
    var fate := FateOf(count, k.answers(t).startStatus, k.answers(t).services, k.m.toDevice);
    if fate != Finishes {
      Conclude(k.all, k.ep, k.m, made, upto, done, made + chunk, done + len, k.total, if done != 0 then done else ErrorOf(fate));
    }
  }

  lemma AllDone(k: Task, made: seq<Desc>, soFar: seq<Retired>, done: nat, t: nat, asked: bool, idx: nat, at: nat)
    requires Progress(k, made, soFar, |k.all|, done, t, asked, idx, at)
    ensures k.total == Account(|k.all|, |k.all|, |k.all|, soFar, 0) && Reported(done, made, k.all, k.ep, k.m, k.total)
  {
    hide AccountOf, Underway, Reported, After, EpAfter;
    NothingLeft(k.answers, asked, k.all, idx, k.max, t, k.m.toDevice, soFar);
    Conclude(k.all, k.ep, k.m, made, |k.all|, done, made, done, k.total, done);
  }

  /** The loop of xdma_xfer_submit, over every answer of the hardware: it ends with the account of the request. */
  method SubmitLoop(ring: DescriptorRing, engine: Engine, req: Request, answers: nat -> Answer) returns (ret: int)
    requires Ready(ring, engine) && req.swIdx == 0 && req.ep < TWO64
    modifies ring, ring.desc, engine, req
    ensures Ready(ring, engine) && old(ring.log) <= ring.log
    ensures var split, made := req.sdesc, ring.log[|old(ring.log)|..];
      var r := AccountOf(answers, old(engine.shutdownRequested), |split|, old(ring.idx), ring.max, 0, engine.toDevice);
      && Reported(ret, made, split, old(req.ep), ring.mode, r)
      && ring.idx == (old(ring.idx) + r.built) % ring.max && ring.used == old(ring.used) + (r.built - r.handed)
      && engine.State().done == old(engine.State()).done + r.retired
  {
    hide EpAfter, Bytes, AccountOf, FateOf, CarriesOut, DescriptorRing.Valid, ChunkSize, EndOf, Engine.Valid,
         Engine.State, Engine.Idle, Reported, Progress;
    var nents: nat, t: nat, done: nat := |req.sdesc|, 0, 0;
    ghost var log0, done0 := ring.log, engine.State().done;
    ghost var total := AccountOf(answers, engine.shutdownRequested, nents, ring.idx, ring.max, 0, ring.mode.toDevice);
    ghost var k := Task(req.sdesc, req.ep, ring.mode, ring.idx, ring.max, answers, total);
    ghost var made, soFar := [], [];
    NothingYet(k, engine.shutdownRequested);
    while nents > 0
      invariant Ready(ring, engine) && req.swIdx + nents == |k.all| && ring.used == old(ring.used)
      invariant ring.log == log0 + made && engine.State().done == done0 + soFar
      invariant Progress(k, made, soFar, req.swIdx, done, t, engine.shutdownRequested, ring.idx, req.ep)
    {
      ghost var from, was, at, idx, asked := req.swIdx, ring.log, req.ep, ring.idx, engine.shutdownRequested;
      ProgressEp(k, made, soFar, from, done, t, asked, idx, at);
      var x, rv := Turn(ring, engine, req, answers(t));
      nents := nents - x.num;
      if asked || answers(t).shutdown {
        TurnRefused(k, made, soFar, from, done, t, asked, idx, at);
      } else {
        TurnTaken(k, made, soFar, from, done, t, asked, idx, at, x.num, ring.log[|was|..], x.len);
        made := made + ring.log[|was|..];
        soFar := soFar + [Retired(x.num, EndOf(FateOf(x.num, answers(t).startStatus, answers(t).services, engine.toDevice)))];
      }
      if rv < 0 {
        assert ring.log[|log0|..] == made;
        return if done != 0 then done else rv;
      }
      done := done + x.len;
      t := t + 1;
    }
    assert ring.log[|log0|..] == made;
    AllDone(k, made, soFar, done, t, engine.shutdownRequested, ring.idx, req.ep);
    ProgressEp(k, made, soFar, req.swIdx, done, t, engine.shutdownRequested, ring.idx, req.ep);
    ret := done;
  }

  /** xdma_xfer_submit in memory-mapped mode. The hardware is given exactly the descriptors of the accepted transfers,
      which move the first pieces of the scatter list, each once and in order, to or from consecutive device
      addresses. */
  method XferSubmit(ring: DescriptorRing, engine: Engine, sgl: seq<SwDesc>, ep: nat, blenMax: nat, answers: nat -> Answer)
    returns (ret: int)
    requires Ready(ring, engine) && ep < TWO64 && 1 <= blenMax < TWO32 && FieldLengths(sgl)
    modifies ring, ring.desc, engine
    ensures Ready(ring, engine) && old(ring.log) <= ring.log
    ensures sgl == [] || SpareSum(sgl, blenMax) < 0 ==>
      && ret == (if sgl == [] then -EIO else -ENOMEM)
      && unchanged(ring) && unchanged(ring.desc) && engine.State() == old(engine.State())
    ensures sgl != [] && SpareSum(sgl, blenMax) >= 0 ==>
      var split, made := SplitAll(sgl, blenMax), ring.log[|old(ring.log)|..];
      var r := AccountOf(answers, old(engine.shutdownRequested), |split|, old(ring.idx), ring.max, 0, engine.toDevice);
      && Reported(ret, made, split, ep, ring.mode, r)
      && ring.idx == (old(ring.idx) + r.built) % ring.max && ring.used == old(ring.used) + (r.built - r.handed)
      && engine.State().done == old(engine.State()).done + r.retired
  {
    hide SplitAll, Bytes, AccountOf, SpareSum, DescriptorRing.Valid, Engine.Valid, Reported;
    if sgl == [] {
      return -EIO;
    }
    var req, totalLen := InitRequest(sgl, ep, blenMax);
    if req == null {
      return -ENOMEM;
    }
    ret := SubmitLoop(ring, engine, req, answers);
  }

  /** With running device addresses: the bytes the hardware moves are a prefix of the request's, each once and in
      order, next to ep, ep + 1, ...; all of them if everything was accepted. */
  lemma ReportedBytes(ret: int, made: seq<Desc>, sgl: seq<SwDesc>, blenMax: nat, ep: nat, m: Mode, r: Account)
    requires blenMax >= 1 && !m.nonIncr && Reported(ret, made, SplitAll(sgl, blenMax), ep, m, r)
    ensures var split, bytes := SplitAll(sgl, blenMax), ByteMap(made, m.toDevice);
      && bytes <= Straight(HostBytes(sgl), ep)
      && |bytes| == Bytes(split[..r.handed]) >= Bytes(split[..r.completed])
      && (r.handed == |split| ==> bytes == Straight(HostBytes(sgl), ep))
  {
    hide SplitAll, ByteMap, HostBytes, Bytes;
    var split := SplitAll(sgl, blenMax);
    SplitKeepsBytes(sgl, blenMax);
    CarriedMap(made, split[..r.handed], ep, m);
    Part(split, r.completed, r.handed);
    assert split == split[..r.handed] + split[r.handed..];
    HostBytesAppend(split[..r.handed], split[r.handed..]);
    StraightAppend(HostBytes(split[..r.handed]), HostBytes(split[r.handed..]), ep);
    assert split[..|split|] == split;
  }
}
