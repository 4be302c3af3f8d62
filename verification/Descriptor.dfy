/** Hardware descriptors in ring memory, and the walk the hardware takes along them. */
module Descriptor {
  import opened Arith
  import opened Control

  /** A contiguous piece of host memory still to be transferred. */
  datatype SwDesc = SwDesc(addr: nat, len: nat)

  /** A hardware descriptor; the low and high halves of each 64-bit address are one field. */
  datatype Desc = Desc(control: bv32, bytes: nat, src: nat, dst: nat, next: nat)

  const DESC_SIZE: nat := 32
  const PAGE_SIZE: nat := 0x1000
  const TWO32: nat := 0x1_0000_0000
  const TWO64: nat := 0x1_0000_0000_0000_0000

  /** The position of a descriptor inside its aligned block, from the low bits of its address. */
  function BlockIndex(nextLo: nat): (i: nat)
    ensures i < MAX_ADJ_BLOCK_SIZE
  {
    nextLo % PAGE_SIZE / DESC_SIZE % MAX_ADJ_BLOCK_SIZE
  }

  /** xdma_get_next_adj: how many descriptors follow the next one without leaving its aligned block of 64: as
      many as there are, or up to the end of the block. */
  function GetNextAdj(remaining: nat, nextLo: nat): (adjacent: nat)
    ensures adjacent < MAX_ADJ_BLOCK_SIZE
    ensures adjacent + 1 <= remaining || adjacent == 0
    ensures BlockIndex(nextLo) + adjacent < MAX_ADJ_BLOCK_SIZE
    ensures remaining >= 1 ==> adjacent + 1 == remaining || BlockIndex(nextLo) + adjacent + 1 == MAX_ADJ_BLOCK_SIZE
  {
    if remaining <= 1 then 0
    else
      var nextIndex := BlockIndex(nextLo);
      if MAX_ADJ_BLOCK_SIZE - nextIndex - 1 < remaining - 1 then MAX_ADJ_BLOCK_SIZE - nextIndex - 1
      else remaining - 1
  }

  /** The bus address of a ring slot. */
  function SlotBus(bus: nat, slot: nat): nat {
    bus + DESC_SIZE * slot
  }

  /** The next pointer of descriptor i of a transfer of count descriptors from slot start. */
  function NextOf(bus: nat, start: nat, count: nat, i: nat): nat {
    if i + 1 < count then SlotBus(bus, start + i + 1) else 0
  }

  function AdjacentOf(bus: nat, start: nat, count: nat, i: nat): (a: nat)
    requires i < count
    ensures a < MAX_ADJ_BLOCK_SIZE
  {
    GetNextAdj(count - i - 1, NextOf(bus, start, count, i) % TWO32)
  }

  /** The count descriptors from slot start are linked as one transfer. */
  ghost predicate IsChain(mem: seq<Desc>, bus: nat, start: nat, count: nat) {
    && count >= 1 && start + count <= |mem|
    && forall i :: 0 <= i < count ==> IsLink(mem, bus, start, count, i)
  }

  ghost predicate IsLink(mem: seq<Desc>, bus: nat, start: nat, count: nat, i: nat)
    requires i < count && start + count <= |mem|
  {
    && mem[start + i].next == NextOf(bus, start, count, i)
    && mem[start + i].control == ControlWord(i + 1 == count, AdjacentOf(bus, start, count, i))
  }

  // ---------------------------------------------------------------- the walk

  /** A block of adjacent descriptors fetched in one go. */
  datatype Block = Block(first: nat, count: nat)

  datatype Fetched = Stuck | Blocks(blocks: seq<Block>)

  /** Fetch 1 + adjacent descriptors at addr, then go on where the last of them points, until it points nowhere. */
  function Walk(mem: seq<Desc>, bus: nat, addr: nat, adjacent: nat, fuel: nat): Fetched
    decreases fuel
  {
    if fuel == 0 || addr < bus || (addr - bus) % DESC_SIZE != 0 then Stuck
    else
      var first := (addr - bus) / DESC_SIZE;
      var last := first + adjacent;
      if last >= |mem| then Stuck
      else if mem[last].next == 0 then Blocks([Block(first, adjacent + 1)])
      else
        match Walk(mem, bus, mem[last].next, AdjacentCount(mem[last].control), fuel - 1)
        case Stuck => Stuck
        case Blocks(rest) => Blocks([Block(first, adjacent + 1)] + rest)
  }

  /** The blocks cover the slots from lo up to hi, each once and in order. */
  ghost predicate Covers(blocks: seq<Block>, lo: nat, hi: nat) {
    if blocks == [] then lo == hi
    else blocks[0].first == lo && blocks[0].count >= 1 && Covers(blocks[1..], lo + blocks[0].count, hi)
  }

  /** No block crosses a boundary of 64 slots, nor does its memory cross a page. */
  ghost predicate InBounds(blocks: seq<Block>, bus: nat) {
    forall b <- blocks ::
      && b.first % MAX_ADJ_BLOCK_SIZE + b.count <= MAX_ADJ_BLOCK_SIZE
      && SlotBus(bus, b.first) % PAGE_SIZE + DESC_SIZE * b.count <= PAGE_SIZE
  }

  /** How many descriptors follow descriptor i of a transfer in its block: what leads the hardware to it says so. */
  function Following(bus: nat, start: nat, count: nat, i: nat): (a: nat)
    requires i < count
    ensures i + a < count
  {
    GetNextAdj(count - i, SlotBus(bus, start + i) % TWO32)
  }

  lemma BlockFits(bus: nat, start: nat, count: nat, i: nat)
    requires bus % PAGE_SIZE == 0 && i < count
    ensures InBounds([Block(start + i, Following(bus, start, count, i) + 1)], bus)
  {
    SlotInPage(bus, start + i);
    hide BlockIndex, SlotBus;
    FirstBlock(bus, start + i, Following(bus, start, count, i) + 1);
  }

  lemma LinkLeadsOn(mem: seq<Desc>, bus: nat, start: nat, count: nat, i: nat)
    requires IsChain(mem, bus, start, count) && i < count
    ensures i + 1 == count ==> mem[start + i].next == 0
    ensures i + 1 < count ==>
      && mem[start + i].next == SlotBus(bus, start + i + 1) > 0
      && AdjacentCount(mem[start + i].control) == Following(bus, start, count, i + 1)
  {
    hide ControlWord, GetNextAdj, AdjacentCount;
    assert IsLink(mem, bus, start, count, i);
  }

  /** From descriptor i on, the walk visits the rest of the transfer in order. */
  lemma {:induction false} WalkFrom(mem: seq<Desc>, bus: nat, start: nat, count: nat, i: nat, fuel: nat)
    requires bus % PAGE_SIZE == 0 && IsChain(mem, bus, start, count) && i < count <= i + fuel
    ensures var w := Walk(mem, bus, SlotBus(bus, start + i), Following(bus, start, count, i), fuel);
      w.Blocks? && Covers(w.blocks, start + i, start + count) && InBounds(w.blocks, bus)
    decreases count - i
  {
    hide Following, InBounds, AdjacentCount, Walk, SlotBus, IsLink;
    var a := Following(bus, start, count, i);
    var head, j := Block(start + i, a + 1), i + a;
    BlockFits(bus, start, count, i);
    WalkStep(mem, bus, start + i, a, fuel);
    LinkLeadsOn(mem, bus, start, count, j);
    if j + 1 < count {
      WalkFrom(mem, bus, start, count, j + 1, fuel - 1);
      var rest := Walk(mem, bus, mem[start + j].next, AdjacentCount(mem[start + j].control), fuel - 1).blocks;
      assert ([head] + rest)[1..] == rest;
      InBoundsCons(head, rest, bus);
    } else {
      assert [head][1..] == [];
    }
  }

  lemma WalkStep(mem: seq<Desc>, bus: nat, slot: nat, adjacent: nat, fuel: nat)
    requires fuel >= 1 && slot + adjacent < |mem|
    ensures var next, head := mem[slot + adjacent].next, Block(slot, adjacent + 1);
      Walk(mem, bus, SlotBus(bus, slot), adjacent, fuel) ==
        if next == 0 then Blocks([head])
        else match Walk(mem, bus, next, AdjacentCount(mem[slot + adjacent].control), fuel - 1)
          case Stuck => Stuck
          case Blocks(rest) => Blocks([head] + rest)
  {
    hide AdjacentCount;
    DivModUnique(DESC_SIZE * slot, DESC_SIZE, slot, 0);
  }

  lemma InBoundsCons(head: Block, rest: seq<Block>, bus: nat)
    requires InBounds([head], bus) && InBounds(rest, bus)
    ensures InBounds([head] + rest, bus)
  {
    assert head in [head];
  }

  lemma FirstBlock(bus: nat, slot: nat, n: nat)
    requires bus % PAGE_SIZE == 0 && slot % MAX_ADJ_BLOCK_SIZE + n <= MAX_ADJ_BLOCK_SIZE
    ensures InBounds([Block(slot, n)], bus)
  {
    SlotInPage(bus, slot);
    var r := slot % 128;
    DivModUnique(slot, MAX_ADJ_BLOCK_SIZE, 2 * (slot / 128) + r / 64, r % 64);
  }

  lemma SlotInPage(bus: nat, slot: nat)
    requires bus % PAGE_SIZE == 0
    ensures BlockIndex(SlotBus(bus, slot) % TWO32) == slot % MAX_ADJ_BLOCK_SIZE
    ensures SlotBus(bus, slot) % PAGE_SIZE == DESC_SIZE * (slot % (PAGE_SIZE / DESC_SIZE))
  {
    var addr, page, r := SlotBus(bus, slot), bus / PAGE_SIZE + slot / 128, slot % 128;
    DivModUnique(addr, PAGE_SIZE, page, DESC_SIZE * r);
    var lo := addr % TWO32;
    DivModUnique(lo, PAGE_SIZE, page - 0x10_0000 * (addr / TWO32), DESC_SIZE * r);
    DivModUnique(DESC_SIZE * r, DESC_SIZE, r, 0);
    DivModUnique(slot, MAX_ADJ_BLOCK_SIZE, 2 * (slot / 128) + r / 64, r % 64);
  }

  /** engine_start's first fetch and the links after it visit every descriptor of the transfer exactly once. */
  lemma WalkVisitsAll(mem: seq<Desc>, bus: nat, start: nat, count: nat)
    requires bus % PAGE_SIZE == 0 && IsChain(mem, bus, start, count)
    ensures var w := Walk(mem, bus, SlotBus(bus, start), Following(bus, start, count, 0), count);
      w.Blocks? && Covers(w.blocks, start, start + count) && InBounds(w.blocks, bus)
  {
    hide IsLink, Following, InBounds, Walk;
    WalkFrom(mem, bus, start, count, 0, count);
  }

  /** The descriptors fetched along some blocks, in order. */
  function FetchAll(mem: seq<Desc>, blocks: seq<Block>): seq<Desc>
    requires forall b <- blocks :: b.first + b.count <= |mem|
  {
    if blocks == [] then []
    else mem[blocks[0].first..blocks[0].first + blocks[0].count] + FetchAll(mem, blocks[1..])
  }

  lemma {:induction false} CoversFetches(mem: seq<Desc>, blocks: seq<Block>, lo: nat, hi: nat)
    requires Covers(blocks, lo, hi) && hi <= |mem|
    ensures lo <= hi
    ensures forall b <- blocks :: b.first + b.count <= |mem|
    ensures FetchAll(mem, blocks) == mem[lo..hi]
  {
    if blocks == [] {
    } else {
      CoversFetches(mem, blocks[1..], lo + blocks[0].count, hi);
      forall b | b in blocks ensures b.first + b.count <= |mem| {
        assert b == blocks[0] || b in blocks[1..];
      }
      assert mem[lo..hi] == mem[lo..lo + blocks[0].count] + mem[lo + blocks[0].count..hi];
    }
  }

  /** What the hardware fetches when it is started on a transfer is the transfer's descriptors, in order. */
  lemma WalkFetches(mem: seq<Desc>, bus: nat, start: nat, count: nat)
    requires bus % PAGE_SIZE == 0 && IsChain(mem, bus, start, count)
    ensures var w := Walk(mem, bus, SlotBus(bus, start), Following(bus, start, count, 0), count);
      && w.Blocks?
      && (forall b <- w.blocks :: b.first + b.count <= |mem|)
      && FetchAll(mem, w.blocks) == mem[start..start + count]
  {
    hide IsLink, Following, InBounds, FetchAll, Walk;
    WalkVisitsAll(mem, bus, start, count);
    var w := Walk(mem, bus, SlotBus(bus, start), Following(bus, start, count, 0), count);
    CoversFetches(mem, w.blocks, start, start + count);
  }

  /** Only the last descriptor of a transfer stops the engine, ends the packet and asks for an interrupt: bits 0, 4
      and 1 of its control word, which no other descriptor has. */
  lemma StopsAtLast(mem: seq<Desc>, bus: nat, start: nat, count: nat, i: nat)
    requires IsChain(mem, bus, start, count) && i < count
    ensures mem[start + i].control & 0x01 != 0 <==> i + 1 == count
    ensures mem[start + i].control & 0x10 != 0 <==> i + 1 == count
    ensures mem[start + i].control & 0x02 != 0 <==> i + 1 == count
    ensures Flags(mem[start + i].control) == if i + 1 == count then 0x13 else 0
    ensures Magic(mem[start + i].control) == 0xAD4B_0000
  {
    hide ControlWord, Flags;
    assert IsLink(mem, bus, start, count, i);
    ThreeFlags(mem[start + i].control);
  }
}
