/** The descriptor ring of an engine: building a transfer in place and releasing it. */
module Ring {
  import opened Control
  import opened Descriptor
  import opened RingSlots

  // ------------------------------------------------- what a transfer looks like

  /** The direction and addressing mode of an engine. */
  datatype Mode = Mode(toDevice: bool, nonIncr: bool)

  function Bytes(sds: seq<SwDesc>): nat {
    if sds == [] then 0 else Bytes(sds[..|sds| - 1]) + sds[|sds| - 1].len
  }

  /** The device address reached after the given descriptors, a 64-bit counter. */
  function EpAfter(ep: nat, sds: seq<SwDesc>, m: Mode): (e: nat)
    ensures ep < TWO64 ==> e < TWO64
  {
    if m.nonIncr then ep else (ep + Bytes(sds)) % TWO64
  }

  /** xdma_desc_set: the host address is the source towards the device, and the destination from it. */
  function DescSet(d: Desc, host: nat, dev: nat, len: nat, toDevice: bool): Desc {
    if toDevice then d.(bytes := len, src := host, dst := dev)
    else d.(bytes := len, src := dev, dst := host)
  }

  /** A linked descriptor d with the addresses and length of piece i of sds filled in. */
  function Filled(d: Desc, sds: seq<SwDesc>, i: nat, ep: nat, m: Mode): Desc
    requires i < |sds|
  {
    DescSet(d, sds[i].addr, EpAfter(ep, sds[..i], m), sds[i].len, m.toDevice)
  }

  /** Descriptor i of the transfer for sds, built from slot start with the device address at ep. */
  function Built(sds: seq<SwDesc>, i: nat, ep: nat, bus: nat, start: nat, m: Mode): Desc
    requires i < |sds|
  {
    var linked := Desc(ControlWord(i + 1 == |sds|, AdjacentOf(bus, start, |sds|, i)), 0, 0, 0, NextOf(bus, start, |sds|, i));
    Filled(linked, sds, i, ep, m)
  }

  function BuiltAll(sds: seq<SwDesc>, ep: nat, bus: nat, start: nat, m: Mode): seq<Desc> {
    seq(|sds|, i requires 0 <= i < |sds| => Built(sds, i, ep, bus, start, m))
  }

  lemma StartOf(ep: nat, sds: seq<SwDesc>, m: Mode)
    requires ep < TWO64
    ensures EpAfter(ep, sds[..0], m) == ep && Bytes(sds[..0]) % TWO32 == 0
  {
    assert sds[..0] == [];
  }

  // One more descriptor: the 64-bit address and the 32-bit length both count modulo their width.
  lemma OneMore(ep: nat, sds: seq<SwDesc>, j: nat, m: Mode)
    requires j < |sds|
    ensures Bytes(sds[..j + 1]) == Bytes(sds[..j]) + sds[j].len
    ensures EpAfter(ep, sds[..j + 1], m) ==
      if m.nonIncr then EpAfter(ep, sds[..j], m) else (EpAfter(ep, sds[..j], m) + sds[j].len) % TWO64
    ensures Bytes(sds[..j + 1]) % TWO32 == (Bytes(sds[..j]) % TWO32 + sds[j].len) % TWO32
  {
    assert sds[..j + 1][..j] == sds[..j];
  }

  lemma BuiltIsChain(mem: seq<Desc>, sds: seq<SwDesc>, ep: nat, bus: nat, start: nat, m: Mode)
    requires |sds| >= 1 && start + |sds| <= |mem|
    requires mem[start..start + |sds|] == BuiltAll(sds, ep, bus, start, m)
    ensures IsChain(mem, bus, start, |sds|)
  {
    hide ControlWord, AdjacentOf, NextOf;
    forall i | 0 <= i < |sds| ensures IsLink(mem, bus, start, |sds|, i) {
      assert mem[start + i] == mem[start..start + |sds|][i];
    }
  }

  // -------------------------------------------------------------- the request

  /** A submitted request: its software descriptors, how many were issued, and the device address reached. */
  class Request {
    const sdesc: seq<SwDesc>
    var swIdx: nat
    var ep: nat

    constructor (sdesc: seq<SwDesc>, ep: nat)
      ensures this.sdesc == sdesc && swIdx == 0 && this.ep == ep
    {
      this.sdesc := sdesc;
      swIdx := 0;
      this.ep := ep;
    }
  }

  /** A transfer handed to the engine; len is a 32-bit byte count. */
  datatype Transfer = Transfer(index: nat, num: nat, len: nat)

  // ----------------------------------------------------------------- the ring

  class DescriptorRing {
    const max: nat
    const bus: nat
    const mode: Mode
    const desc: array<Desc>
    var idx: nat
    var used: nat
    ghost var live: seq<Slots>
    ghost var leaked: nat  // what desc_used still counts of transfers that were refused
    ghost var intact: bool  // the live transfers have never taken more than desc_max descriptors
    ghost var log: seq<Desc>  // every descriptor the hardware was started on, in order

    ghost predicate Valid()
      reads this, desc
      ensures Valid() ==> idx < max && (live == [] ==> used == leaked)
    {
      && desc.Length == max && bus % PAGE_SIZE == 0
      && Consecutive(live, idx, max) && used == Used(live) + leaked
      && (intact ==> Used(live) <= max && Linked(live, desc[..]))
    }

    /** Every live transfer is still the chain it was built as. */
    ghost predicate Linked(live: seq<Slots>, mem: seq<Desc>) {
      forall t :: 0 <= t < |live| ==> LinkedOne(live[t], mem)
    }

    ghost predicate LinkedOne(s: Slots, mem: seq<Desc>) {
      IsChain(mem, bus, s.start, s.count)
    }

    /** What the ring holds in some slots. */
    ghost function Content(s: Slots): seq<Desc>
      reads desc
    {
      if s.start + s.count <= desc.Length then desc[..][s.start..s.start + s.count] else []
    }

    constructor (max: nat, bus: nat, mode: Mode)
      requires max >= 1 && bus % PAGE_SIZE == 0
      ensures Valid() && intact && idx == 0 && used == 0 && live == [] && leaked == 0 && log == [] && fresh(desc)
      ensures this.max == max && this.bus == bus && this.mode == mode
    {
      this.max, this.bus, this.mode := max, bus, mode;
      desc := new Desc[max](_ => Desc(0, 0, 0, 0, 0));
      idx, used, live, leaked, intact, log := 0, 0, [], 0, true, [];
    }

    /** transfer_desc_init: link count descriptors from slot start and end the list. */
    method TransferDescInit(start: nat, count: nat)
      requires count >= 1 && start + count <= desc.Length
      modifies desc
      ensures forall i :: 0 <= i < desc.Length && !(start <= i < start + count) ==> desc[i] == old(desc[i])
      ensures forall i :: start <= i < start + count ==>
        && desc[i].control == DESC_MAGIC && desc[i].bytes == 0
        && desc[i].next == NextOf(bus, start, count, i - start)
    {
      var descBus := SlotBus(bus, start);
      for i := 0 to count - 1
        invariant descBus == SlotBus(bus, start + i)
        invariant forall k :: 0 <= k < desc.Length && !(start <= k < start + i) ==> desc[k] == old(desc[k])
        invariant forall k :: start <= k < start + i ==>
          && desc[k].control == DESC_MAGIC && desc[k].bytes == 0
          && desc[k].next == NextOf(bus, start, count, k - start)
      {
        descBus := descBus + DESC_SIZE;
        desc[start + i] := desc[start + i].(next := descBus, bytes := 0, control := DESC_MAGIC);
      }
      desc[start + count - 1] := desc[start + count - 1].(next := 0, bytes := 0, control := DESC_MAGIC);
    }

    /** transfer_build: fill in addresses and lengths, and move the request on. */
    method TransferBuild(req: Request, start: nat, count: nat) returns (len: nat)
      requires req.swIdx + count <= |req.sdesc| && start + count <= desc.Length
      requires req.ep < TWO64
      modifies desc, req
      ensures req.swIdx == old(req.swIdx) + count
      ensures var sds := req.sdesc[old(req.swIdx)..req.swIdx];
        && req.ep == EpAfter(old(req.ep), sds, mode) && len == Bytes(sds) % TWO32
        && (forall i :: 0 <= i < desc.Length && !(start <= i < start + count) ==> desc[i] == old(desc[i]))
        && (forall i :: start <= i < start + count ==>
              desc[i] == Filled(old(desc[i]), sds, i - start, old(req.ep), mode))
    {
      hide EpAfter, Bytes, DescSet;
      ghost var sds := req.sdesc[req.swIdx..req.swIdx + count];
      StartOf(req.ep, sds, mode);
      len := 0;
      for j := 0 to count
        invariant req.swIdx == old(req.swIdx)
        invariant req.ep == EpAfter(old(req.ep), sds[..j], mode)
        invariant len == Bytes(sds[..j]) % TWO32
        invariant forall i :: 0 <= i < desc.Length && !(start <= i < start + j) ==> desc[i] == old(desc[i])
        invariant forall i :: start <= i < start + j ==>
          desc[i] == Filled(old(desc[i]), sds, i - start, old(req.ep), mode)
      {
        var sd := req.sdesc[req.swIdx + j];
        desc[start + j] := DescSet(desc[start + j], sd.addr, req.ep, sd.len, mode.toDevice);
        OneMore(old(req.ep), sds, j, mode);
        len := (len + sd.len) % TWO32;
        if !mode.nonIncr {
          req.ep := (req.ep + sd.len) % TWO64;
        }
      }
      assert sds[..count] == sds;
      req.swIdx := req.swIdx + count;
    }

    // Merging the count of descriptor i into its flagged word gives its control word.
    static lemma Merged(bus: nat, start: nat, count: nat, i: nat)
      requires i < count
      ensures AdjacentOf(bus, start, count, i) == GetNextAdj(count - i - 1, NextOf(bus, start, count, i) % TWO32)
      ensures SetAdjacent(FlaggedWord(i + 1 == count), AdjacentOf(bus, start, count, i) as bv6 as bv32)
           == ControlWord(i + 1 == count, AdjacentOf(bus, start, count, i))
    {
      hide SetAdjacent, FlaggedWord, NextOf, GetNextAdj;
    }

    /** The loop that merges the adjacent counts into the control words. */
    method FillAdjacent(start: nat, count: nat)
      requires start + count <= desc.Length
      requires forall i :: start <= i < start + count ==>
        && desc[i].next == NextOf(bus, start, count, i - start)
        && desc[i].control == FlaggedWord(i - start + 1 == count)
      modifies desc
      ensures forall i :: 0 <= i < desc.Length && !(start <= i < start + count) ==> desc[i] == old(desc[i])
      ensures forall i :: start <= i < start + count ==>
        desc[i] == old(desc[i]).(control := ControlWord(i - start + 1 == count, AdjacentOf(bus, start, count, i - start)))
    {
      hide NextOf, FlaggedWord, GetNextAdj, BlockIndex, AdjacentOf, SetAdjacent, ControlWord;
      for i := 0 to count
        invariant forall k :: 0 <= k < desc.Length && !(start <= k < start + i) ==> desc[k] == old(desc[k])
        invariant forall k :: start <= k < start + i ==>
          desc[k] == old(desc[k]).(control := ControlWord(k - start + 1 == count, AdjacentOf(bus, start, count, k - start)))
      {
        var d := desc[start + i];
        assert d == old(desc[start + i]);
        var nextAdj := GetNextAdj(count - i - 1, d.next % TWO32);
        Merged(bus, start, count, i);
        desc[start + i] := d.(control := SetAdjacent(d.control, nextAdj as bv6 as bv32));
      }
    }

    /** The descriptor part of transfer_init: link, fill in, flag the last one, merge the adjacent counts. */
    method BuildChunk(req: Request, start: nat, count: nat) returns (len: nat)
      requires count >= 1 && req.swIdx + count <= |req.sdesc| && start + count <= desc.Length
      requires req.ep < TWO64
      modifies desc, req
      ensures req.swIdx == old(req.swIdx) + count
      ensures var sds := req.sdesc[old(req.swIdx)..req.swIdx];
        && len == Bytes(sds) % TWO32
        && req.ep == EpAfter(old(req.ep), sds, mode)
        && (forall i :: 0 <= i < desc.Length && !(start <= i < start + count) ==> desc[i] == old(desc[i]))
        && (forall i :: start <= i < start + count ==> desc[i] == Built(sds, i - start, old(req.ep), bus, start, mode))
    {
      hide NextOf, GetNextAdj, AdjacentOf, EpAfter, Bytes, ControlWord;
      TransferDescInit(start, count);
      len := TransferBuild(req, start, count);
      var last := start + count - 1;
      desc[last] := desc[last].(control := ControlSet(desc[last].control, LAST_FLAGS).control);
      FillAdjacent(start, count);
    }

    /** transfer_init: take the next chunk of the request into the slots from idx on. */
    method TransferInit(req: Request) returns (x: Transfer)
      requires Valid() && req.swIdx < |req.sdesc| && req.ep < TWO64
      modifies this, desc, req
      ensures Valid()
      ensures x.index == old(idx) && x.num == ChunkSize(|req.sdesc| - old(req.swIdx), old(idx), max)
      ensures req.swIdx == old(req.swIdx) + x.num <= |req.sdesc|
      ensures idx == (old(idx) + x.num) % max && used == old(used) + x.num
      ensures live == old(live) + [Slots(x.index, x.num)] && intact == (old(intact) && Used(live) <= max)
      ensures log == old(log) && leaked == old(leaked)
      ensures var sds := req.sdesc[old(req.swIdx)..req.swIdx];
        && x.len == Bytes(sds) % TWO32
        && req.ep == EpAfter(old(req.ep), sds, mode)
        && Content(Slots(x.index, x.num)) == BuiltAll(sds, old(req.ep), bus, x.index, mode)
      ensures forall i :: 0 <= i < max && !(x.index <= i < x.index + x.num) ==> desc[i] == old(desc[i])
    {
      hide EpAfter, Built, Bytes, AllSlots, Used, IsChain;
      var count := ChunkSize(|req.sdesc| - req.swIdx, idx, max);
      ghost var sds, ep := req.sdesc[req.swIdx..req.swIdx + count], req.ep;
      var len := BuildChunk(req, idx, count);
      x := Transfer(idx, count, len);
      assert desc[idx..idx + count] == BuiltAll(sds, ep, bus, idx, mode);
      AppendKeeps(live, idx, max, count);
      if intact {
        LinkedAfterAppend(old(desc[..]), desc[..], sds, ep);
      }
      idx := (idx + count) % max;
      used := used + count;
      live := live + [Slots(x.index, x.num)];
      intact := intact && Used(live) <= max;
    }

    /** A new transfer leaves the chains of the live ones alone while the ring is not overcommitted. */
    lemma LinkedAfterAppend(before: seq<Desc>, after: seq<Desc>, sds: seq<SwDesc>, ep: nat)
      requires Consecutive(live, idx, max) && |before| == |after| == max
      requires |sds| >= 1 && idx + |sds| <= max
      requires Linked(live, before)
      requires forall i :: 0 <= i < max && !(idx <= i < idx + |sds|) ==> after[i] == before[i]
      requires after[idx..idx + |sds|] == BuiltAll(sds, ep, bus, idx, mode)
      ensures Used(live) + |sds| <= max ==> Linked(live + [Slots(idx, |sds|)], after)
    {
      hide BuiltAll, AllSlots, Consecutive, Used, IsChain;
      var all := live + [Slots(idx, |sds|)];
      AppendKeeps(live, idx, max, |sds|);
      BuiltIsChain(after, sds, ep, bus, idx, mode);
      if Used(all) <= max {
        forall t | 0 <= t < |live| ensures LinkedOne(all[t], after) {
          assert LinkedOne(live[t], before);
          InRing(live, idx, max, t);
          IntervalsDisjoint(all, (idx + |sds|) % max, max, t, |live|);
          SameChain(before, after, live[t].start, live[t].count);
        }
      }
    }

    // A chain depends on its own slots only.
    lemma SameChain(before: seq<Desc>, after: seq<Desc>, start: nat, count: nat)
      requires |before| == |after| && IsChain(before, bus, start, count)
      requires after[start..start + count] == before[start..start + count]
      ensures IsChain(after, bus, start, count)
    {
      hide NextOf, ControlWord, AdjacentOf;
      forall i | 0 <= i < count ensures IsLink(after, bus, start, count, i) {
        assert IsLink(before, bus, start, count, i);
        assert after[start + i] == after[start..start + count][i];
        assert before[start + i] == before[start..start + count][i];
      }
    }

    /** Give the oldest transfer back: its descriptors are cleared, the others stay as they are. */
    method Release(x: Transfer)
      requires Valid() && live != [] && live[0] == Slots(x.index, x.num)
      modifies this, desc
      ensures Valid() && idx == old(idx) && intact == old(intact) && log == old(log) && leaked == old(leaked)
      ensures live == old(live)[1..] && used == old(used) - x.num
      ensures forall i :: 0 <= i < max ==>
        desc[i] == if x.index <= i < x.index + x.num then Desc(0, 0, 0, 0, 0) else old(desc[i])
    {
      hide AllSlots, Used, IsChain;
      InRing(live, idx, max, 0);
      forall i | x.index <= i < x.index + x.num {
        desc[i] := Desc(0, 0, 0, 0, 0);
      }
      ReleaseKeeps(live, idx, max);
      if intact {
        LinkedAfterRelease(old(desc[..]), desc[..]);
      }
      used := used - x.num;
      live := live[1..];
    }

    /** The queue refused the only live transfer: the submit loop gives up without giving its descriptors back, so
        desc_used goes on counting them. */
    ghost method Abandon(x: Transfer)
      requires Valid() && live == [Slots(x.index, x.num)]
      modifies this`live, this`leaked
      ensures Valid() && live == [] && leaked == old(leaked) + x.num
    {
      assert live[..0] == [];
      leaked := leaked + x.num;
      live := [];
    }

    lemma LinkedAfterRelease(before: seq<Desc>, after: seq<Desc>)
      requires Consecutive(live, idx, max) && live != [] && Used(live) <= max && Linked(live, before)
      requires |before| == |after| == max
      requires forall i :: 0 <= i < max && !(live[0].start <= i < live[0].start + live[0].count) ==> after[i] == before[i]
      ensures Linked(live[1..], after)
    {
      hide AllSlots, Consecutive, Used, IsChain;
      forall t | 0 <= t < |live| - 1 ensures LinkedOne(live[1..][t], after) {
        assert LinkedOne(live[t + 1], before);
        InRing(live, idx, max, t + 1);
        IntervalsDisjoint(live, idx, max, 0, t + 1);
        SameChain(before, after, live[t + 1].start, live[t + 1].count);
      }
    }

    /** The descriptors the hardware fetches when engine_start points it at a transfer. */
    ghost function HardwareFetch(s: Slots): (ds: seq<Desc>)
      requires Valid() && intact && s in live
      reads this, desc
      ensures s.start + s.count <= max && ds == Content(s)
    {
      hide Consecutive, Used, Walk, FetchAll, Following;
      var t :| 0 <= t < |live| && live[t] == s;
      assert LinkedOne(live[t], desc[..]);
      WalkFetches(desc[..], bus, s.start, s.count);
      FetchAll(desc[..], Walk(desc[..], bus, SlotBus(bus, s.start), Following(bus, s.start, s.count, 0), s.count).blocks)
    }

    /** engine_start on a transfer that is live: the hardware takes what it fetches, the descriptors in its slots. */
    ghost method HardwareStart(s: Slots)
      requires Valid() && intact && s in live
      modifies this`log
      ensures Valid() && log == old(log) + Content(s)
    {
      log := log + HardwareFetch(s);
    }

    /** Walking any live transfer visits exactly its descriptors, in order, in blocks that stay inside a page. */
    lemma LiveTransfersWalkable(t: nat)
      requires Valid() && intact && t < |live|
      ensures var s := live[t];
        s.count >= 1 && var w := Walk(desc[..], bus, SlotBus(bus, s.start), Following(bus, s.start, s.count, 0), s.count);
        w.Blocks? && Covers(w.blocks, s.start, s.start + s.count) && InBounds(w.blocks, bus)
    {
      hide Consecutive, Used, Following, InBounds, Covers, Walk;
      assert LinkedOne(live[t], desc[..]);
      WalkVisitsAll(desc[..], bus, live[t].start, live[t].count);
    }
  }
}
