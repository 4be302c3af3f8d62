/** A read or write of a user buffer, from the buffer address down to the copies the hardware makes. */
module UserTransfer {
  import opened Arith
  import opened Descriptor
  import opened Ring
  import opened Engine
  import opened Split
  import opened Submit
  import opened PageMap

  /** The bus address of a byte of the buffer, counted from the start of its first page. */
  function BusAddress(pageAddr: nat -> nat, position: nat): nat {
    pageAddr(position / PAGE_SIZE) + position % PAGE_SIZE
  }

  /** The scatter list after DMA mapping, which keeps entries and their order. */
  function ToScatter(entries: seq<Entry>, pageAddr: nat -> nat): seq<SwDesc> {
    seq(|entries|, i requires 0 <= i < |entries| =>
      SwDesc(pageAddr(entries[i].page) + entries[i].offset, entries[i].nbytes))
  }

  ghost predicate WithinPages(entries: seq<Entry>) {
    forall e <- entries :: e.offset + e.nbytes <= PAGE_SIZE
  }

  lemma PieceBytes(e: Entry, pageAddr: nat -> nat, k: nat)
    requires k < e.nbytes && e.offset + e.nbytes <= PAGE_SIZE
    ensures pageAddr(e.page) + e.offset + k == BusAddress(pageAddr, PAGE_SIZE * e.page + e.offset + k)
  {
    DivModUnique(PAGE_SIZE * e.page + e.offset + k, PAGE_SIZE, e.page, e.offset + k);
  }

  /** The bus addresses of the bytes at the given positions. */
  ghost predicate AtBusAddresses(host: seq<nat>, at: seq<nat>, pageAddr: nat -> nat) {
    |host| == |at| && forall k :: 0 <= k < |at| ==> host[k] == BusAddress(pageAddr, at[k])
  }

  lemma AtAppend(h: seq<nat>, h': seq<nat>, at: seq<nat>, at': seq<nat>, pageAddr: nat -> nat)
    requires AtBusAddresses(h, at, pageAddr) && AtBusAddresses(h', at', pageAddr)
    ensures AtBusAddresses(h + h', at + at', pageAddr)
  {
    hide BusAddress;
  }

  lemma EntryAddresses(e: Entry, pageAddr: nat -> nat)
    requires e.offset + e.nbytes <= PAGE_SIZE
    ensures AtBusAddresses(Addresses(pageAddr(e.page) + e.offset, e.nbytes),
                           Range(PAGE_SIZE * e.page + e.offset, e.nbytes), pageAddr)
  {
    hide BusAddress;
    var piece, at := Addresses(pageAddr(e.page) + e.offset, e.nbytes), Range(PAGE_SIZE * e.page + e.offset, e.nbytes);
    forall k | 0 <= k < e.nbytes ensures piece[k] == BusAddress(pageAddr, at[k]) {
      PieceBytes(e, pageAddr, k);
    }
  }

  /** The scatter list holds the bytes of the buffer at their bus addresses, in order. */
  lemma {:induction false} ScatterBytes(entries: seq<Entry>, pageAddr: nat -> nat)
    requires WithinPages(entries)
    ensures AtBusAddresses(HostBytes(ToScatter(entries, pageAddr)), Positions(entries), pageAddr)
  {
    hide BusAddress, AtBusAddresses, Range, Addresses;
    if entries == [] {
      NoAddresses(pageAddr);
    } else {
      var front, e := entries[..|entries| - 1], entries[|entries| - 1];
      ScatterBytes(front, pageAddr);
      var sgl := ToScatter(entries, pageAddr);
      assert sgl[..|sgl| - 1] == ToScatter(front, pageAddr);
      EntryAddresses(e, pageAddr);
      AtAppend(HostBytes(ToScatter(front, pageAddr)), Addresses(pageAddr(e.page) + e.offset, e.nbytes),
               Positions(front), Range(PAGE_SIZE * e.page + e.offset, e.nbytes), pageAddr);
    }
  }

  lemma NoAddresses(pageAddr: nat -> nat)
    ensures AtBusAddresses([], [], pageAddr)
  {
  }

  /** The copies a transfer of len bytes at page offset off is there for: byte off + k to or from ep + k. */
  function Copies(pageAddr: nat -> nat, off: nat, len: nat, ep: nat): seq<Pair> {
    seq(len, k requires 0 <= k < len => Pair(BusAddress(pageAddr, off + k), (ep + k) % TWO64))
  }

  /** The scatter list of a buffer of len bytes that starts at offset off of its first page. */
  function BufferScatter(off: nat, len: nat, pageAddr: nat -> nat): seq<SwDesc>
    requires off < PAGE_SIZE
  {
    ToScatter(PagePieces(off, len), pageAddr)
  }

  // A mapped buffer is a request the submit loop takes, for the copies wanted.
  lemma MappedBuffer(pageAddr: nat -> nat, off: nat, len: nat, ep: nat, blenMax: nat)
    requires off < PAGE_SIZE && off + len > 0 && 1 <= blenMax < TWO32
    requires Positions(PagePieces(off, len)) == Range(off, len)
    ensures var sgl := BufferScatter(off, len, pageAddr);
      && sgl != [] && FieldLengths(sgl) && SpareSum(sgl, blenMax) >= 0
      && Bytes(sgl) == len && Straight(HostBytes(sgl), ep) == Copies(pageAddr, off, len, ep)
  {
    var entries, sgl := PagePieces(off, len), BufferScatter(off, len, pageAddr);
    assert WithinPages(entries) by {
      forall e | e in entries ensures e.offset + e.nbytes <= PAGE_SIZE {
        var i :| 0 <= i < |entries| && entries[i] == e;
        assert e == PagePiece(off, len, i);
      }
    }
    ScatterBytes(entries, pageAddr);
    hide HostBytes, Bytes, Positions, BusAddress, PagePiece, SpareSum;
    NoWrapIsEnough(sgl, blenMax);
    assert Straight(HostBytes(sgl), ep) == Copies(pageAddr, off, len, ep);
  }

  /** check_transfer_align of a synchronous transfer: the low bits of buffer and device address have to agree, or with a
      fixed device address be zero, those of the length too. */
  predicate Misaligned(nonIncr: bool, addrAlign: nat, lenGranularity: nat, buf: nat, len: nat, ep: nat) {
    var mask, lenMask := (addrAlign - 1) % TWO32, (lenGranularity - 1) % TWO64;
    var bufLow, epLow := And(buf % TWO32, mask), And(ep % TWO32, mask);
    if nonIncr then bufLow != 0 || epLow != 0 || And(len, lenMask) != 0 else bufLow != epLow
  }

  /** For powers of two, as the hardware reports them, that is alignment in the usual sense. */
  lemma MisalignedIff(nonIncr: bool, d: nat, e: nat, buf: nat, len: nat, ep: nat)
    requires d <= 32 && e <= 64
    ensures var A, G := Pow(2, d), Pow(2, e);
      && A >= 1 && G >= 1
      && (Misaligned(nonIncr, A, G, buf, len, ep) <==>
            if nonIncr then buf % A != 0 || ep % A != 0 || len % G != 0 else buf % A != ep % A)
  {
    var A, G := Pow(2, d), Pow(2, e);
    WordPowers(d, e);
    LowBits(buf, d);
    LowBits(ep, d);
    MaskIsModulo(len, e);
    DivModUnique(A - 1, TWO32, 0, A - 1);
    DivModUnique(G - 1, TWO64, 0, G - 1);
  }

  lemma WordPowers(d: nat, e: nat)
    requires d <= 32 && e <= 64
    ensures 1 <= Pow(2, d) <= TWO32 == Pow(2, 32 - d) * Pow(2, d) && 1 <= Pow(2, e) <= TWO64
  {
    assert Pow(2, 16) == 0x1_0000 by { assert Pow(2, 8) == 0x100 by { assert Pow(2, 4) == 16; } PowAdd(2, 8, 8); }
    PowAdd(2, 16, 16);
    PowAdd(2, 32, 32);
    PowAdd(2, 32 - d, d);
    PowPositive(2, d);
    PowPositive(2, e);
    PowMonotone(2, d, 32);
    PowMonotone(2, e, 64);
  }

  // Cutting to 32 bits first does not change the low bits.
  lemma LowBits(x: nat, d: nat)
    requires d <= 32
    ensures Pow(2, d) >= 1 && And(x % TWO32, Pow(2, d) - 1) == x % Pow(2, d)
  {
    var A, B := Pow(2, d), Pow(2, 32 - d);
    WordPowers(d, 0);
    MaskIsModulo(x % TWO32, d);
    hide *;
    CutFirst(x, A, B, TWO32);
  }

  lemma CutFirst(x: nat, A: int, B: int, M: int)
    requires A >= 1 && M >= 1 && M == B * A
    ensures x % M % A == x % A
  {
    var q, r := x / M, x % M;
    assert x == q * M + r && r == r / A * A + r % A;
    MulAssoc(q, B, A);
    MulDistr(q * B, r / A, A);
    DivModUnique(x, A, q * B + r / A, r % A);
  }

  /** Misaligned, 2^32 bytes or more, or empty at a page start. */
  predicate Refused(nonIncr: bool, addrAlign: nat, lenGranularity: nat, buf: nat, len: nat, ep: nat) {
    Misaligned(nonIncr, addrAlign, lenGranularity, buf, len, ep) || len >= TWO32 || (len == 0 && buf % PAGE_SIZE == 0)
  }

  /** char_sgdma_read_write, over every answer of the hardware: the transfer is refused exactly when it is misaligned or
      its buffer cannot be mapped; otherwise the hardware is given the first of the pieces the buffer is cut into, in
      order, and makes that many of the copies the caller wants, all of them with len returned if the account shows
      no error. */
  method ReadWrite(ring: DescriptorRing, engine: Engine, addrAlign: nat, lenGranularity: nat, buf: nat, len: nat,
                   pageAddr: nat -> nat, ep: nat, blenMax: nat, answers: nat -> Answer)
    returns (ret: int)
    requires Ready(ring, engine) && ep < TWO64 && buf < TWO64 && len < TWO64
    requires 1 <= blenMax < TWO32
    modifies ring, ring.desc, engine
    ensures Ready(ring, engine) && old(ring.log) <= ring.log
    ensures Refused(ring.mode.nonIncr, addrAlign, lenGranularity, buf, len, ep) ==>
      && ret == -EINVAL
      && unchanged(ring) && unchanged(ring.desc) && engine.State() == old(engine.State())
    ensures !Refused(ring.mode.nonIncr, addrAlign, lenGranularity, buf, len, ep) ==>
      var off, made, m := buf % PAGE_SIZE, ring.log[|old(ring.log)|..], ring.mode;
      var split := SplitAll(BufferScatter(off, len, pageAddr), blenMax);
      var r := AccountOf(answers, old(engine.shutdownRequested), |split|, old(ring.idx), ring.max, 0, engine.toDevice);
      && Reported(ret, made, split, ep, m, r)
      && engine.State().done == old(engine.State()).done + r.retired
      && (r.error == 0 ==> ret == len)
      && (m.nonIncr ==> forall d <- made :: (if m.toDevice then d.dst else d.src) == ep)
      && (!m.nonIncr ==>
            && ByteMap(made, m.toDevice) <= Copies(pageAddr, off, len, ep)
            && |ByteMap(made, m.toDevice)| == Bytes(split[..r.handed])
            && (r.error == 0 ==> ByteMap(made, m.toDevice) == Copies(pageAddr, off, len, ep)))
  {
    hide DescriptorRing.Valid, Engine.Valid, Engine.State, ByteMap, Straight, HostBytes, Bytes, Copies, Positions,
         ToScatter, SpareSum, AccountOf, SplitAll, Range, Reported, PagePieces, Misaligned;
    if Misaligned(ring.mode.nonIncr, addrAlign, lenGranularity, buf, len, ep) {
      return -EINVAL;
    }
    var mapping := MapUserBuf(buf, len);
    if mapping == InvalidLength {
      return -EINVAL;
    }
    var sgl := ToScatter(mapping.entries, pageAddr);
    MappedBuffer(pageAddr, buf % PAGE_SIZE, len, ep, blenMax);
    ghost var split, asked, idx0, log0 := SplitAll(sgl, blenMax), engine.shutdownRequested, ring.idx, ring.log;
    ret := XferSubmit(ring, engine, sgl, ep, blenMax, answers);
    ghost var r := AccountOf(answers, asked, |split|, idx0, ring.max, 0, engine.toDevice);
    AccountBalances(answers, asked, |split|, idx0, ring.max, 0, engine.toDevice);
    AllReturned(ret, ring.log[|log0|..], sgl, blenMax, ep, ring.mode, r);
    if ring.mode.nonIncr {
      ReportedFixed(ret, ring.log[|log0|..], split, ep, ring.mode, r);
    } else {
      ReportedBytes(ret, ring.log[|log0|..], sgl, blenMax, ep, ring.mode, r);
    }
  }

  lemma ReportedFixed(ret: int, made: seq<Desc>, split: seq<SwDesc>, ep: nat, m: Mode, r: Account)
    requires m.nonIncr && Reported(ret, made, split, ep, m, r)
    ensures forall d <- made :: (if m.toDevice then d.dst else d.src) == ep
  {
    hide CarriesOut;
    CarriedFixed(made, split[..r.handed], ep, m);
  }

  lemma AllReturned(ret: int, made: seq<Desc>, sgl: seq<SwDesc>, blenMax: nat, ep: nat, m: Mode, r: Account)
    requires blenMax >= 1 && Bytes(sgl) < TWO32
    requires Reported(ret, made, SplitAll(sgl, blenMax), ep, m, r) && Balanced(r, |SplitAll(sgl, blenMax)|)
    ensures r.error == 0 ==> ret == Bytes(sgl) && r.handed == |SplitAll(sgl, blenMax)|
  {
    hide SplitAll, Bytes, CarriesOut;
    var split := SplitAll(sgl, blenMax);
    SplitKeepsBytes(sgl, blenMax);
    assert split[..|split|] == split;
  }
}
