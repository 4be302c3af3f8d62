/** Cutting a mapped scatter list into software descriptors of bounded length. */
module Split {
  import opened Arith
  import opened Descriptor
  import opened Ring

  function Addresses(addr: nat, len: nat): seq<nat> {
    seq(len, k requires 0 <= k => addr + k)
  }

  lemma AddressesSplit(addr: nat, m: nat, n: nat)
    ensures Addresses(addr, m + n) == Addresses(addr, m) + Addresses(addr + m, n)
  {
  }

  /** The host addresses of every byte of a list of pieces, in order. */
  function HostBytes(sds: seq<SwDesc>): (b: seq<nat>)
    ensures |b| == Bytes(sds)
  {
    if sds == [] then []
    else
      var last := sds[|sds| - 1];
      HostBytes(sds[..|sds| - 1]) + Addresses(last.addr, last.len)
  }

  /** One scatter list entry in pieces of at most blenMax bytes. */
  function SplitOne(addr: nat, len: nat, blenMax: nat): seq<SwDesc>
    requires blenMax >= 1
    decreases len
  {
    if len == 0 then []
    else if len > blenMax then [SwDesc(addr, blenMax)] + SplitOne(addr + blenMax, len - blenMax, blenMax)
    else [SwDesc(addr, len)]
  }

  function SplitAll(sgl: seq<SwDesc>, blenMax: nat): seq<SwDesc>
    requires blenMax >= 1
  {
    if sgl == [] then []
    else
      var last := sgl[|sgl| - 1];
      SplitAll(sgl[..|sgl| - 1], blenMax) + SplitOne(last.addr, last.len, blenMax)
  }

  ghost predicate PieceLengths(sds: seq<SwDesc>, blenMax: nat) {
    forall i :: 0 <= i < |sds| ==> 1 <= sds[i].len <= blenMax
  }

  lemma {:induction false} HostBytesAppend(a: seq<SwDesc>, b: seq<SwDesc>)
    ensures HostBytes(a + b) == HostBytes(a) + HostBytes(b)
  {
    hide Addresses, Bytes;
    if b == [] {
      assert a + b == a;
    } else {
      HostBytesAppend(a, b[..|b| - 1]);
      assert (a + b)[..|a + b| - 1] == a + b[..|b| - 1];
    }
  }

  lemma HostBytesOne(addr: nat, len: nat)
    ensures HostBytes([SwDesc(addr, len)]) == Addresses(addr, len)
  {
    assert [SwDesc(addr, len)][..0] == [];
  }

  lemma OnePieceMore(addr: nat, m: nat, n: nat, rest: seq<SwDesc>)
    requires HostBytes(rest) == Addresses(addr + m, n)
    ensures HostBytes([SwDesc(addr, m)] + rest) == Addresses(addr, m + n)
  {
    hide HostBytes, Addresses, Bytes;
    HostBytesAppend([SwDesc(addr, m)], rest);
    HostBytesOne(addr, m);
    AddressesSplit(addr, m, n);
  }

  lemma {:induction false} SplitOneBytes(addr: nat, len: nat, blenMax: nat)
    requires blenMax >= 1
    ensures var s := SplitOne(addr, len, blenMax);
      HostBytes(s) == Addresses(addr, len) && PieceLengths(s, blenMax)
    decreases len
  {
    if len == 0 {
    } else if len > blenMax {
      SplitOneBytes(addr + blenMax, len - blenMax, blenMax);
      OnePieceMore(addr, blenMax, len - blenMax, SplitOne(addr + blenMax, len - blenMax, blenMax));
    } else {
      HostBytesOne(addr, len);
    }
  }

  /** Splitting keeps every byte at its host address, in order, and every piece within 1 .. blenMax bytes. */
  lemma {:induction false} SplitKeepsBytes(sgl: seq<SwDesc>, blenMax: nat)
    requires blenMax >= 1
    ensures HostBytes(SplitAll(sgl, blenMax)) == HostBytes(sgl)
    ensures Bytes(SplitAll(sgl, blenMax)) == Bytes(sgl)
    ensures PieceLengths(SplitAll(sgl, blenMax), blenMax)
  {
    if sgl == [] {
    } else {
      var last := sgl[|sgl| - 1];
      SplitKeepsBytes(sgl[..|sgl| - 1], blenMax);
      SplitOneBytes(last.addr, last.len, blenMax);
      HostBytesAppend(SplitAll(sgl[..|sgl| - 1], blenMax), SplitOne(last.addr, last.len, blenMax));
    }
  }

  // ------------------------------------------------------------- the allocation

  /** The extra descriptors counted for one entry, in 32-bit arithmetic. */
  function Extra(len: nat, blenMax: nat): nat
    requires blenMax >= 1
  {
    if len > blenMax then WrappedCeil(len, blenMax) else 0
  }

  function WrappedCeil(len: nat, blenMax: nat): nat
    requires blenMax >= 1
  {
    (len + blenMax - 1) % TWO32 / blenMax
  }

  /** The descriptors allocated: one for each entry and the extra ones. */
  function Allocated(sgl: seq<SwDesc>, blenMax: nat): nat
    requires blenMax >= 1
  {
    if sgl == [] then 0
    else Allocated(sgl[..|sgl| - 1], blenMax) + 1 + Extra(sgl[|sgl| - 1].len, blenMax)
  }

  ghost predicate NoWrap(len: nat, blenMax: nat) {
    len > blenMax ==> len + blenMax - 1 < TWO32
  }

  lemma {:induction false} SplitOneCount(addr: nat, len: nat, blenMax: nat)
    requires blenMax >= 1
    ensures |SplitOne(addr, len, blenMax)| == (len + blenMax - 1) / blenMax
    decreases len
  {
    if len == 0 {
      DivModUnique(blenMax - 1, blenMax, 0, blenMax - 1);
    } else if len > blenMax {
      SplitOneCount(addr + blenMax, len - blenMax, blenMax);
      var q, r := (len - 1) / blenMax, (len - 1) % blenMax;
      assert len - 1 == q * blenMax + r;
      MulDistr(q, 1, blenMax);
      DivModUnique(len - 1, blenMax, q, r);
      DivModUnique(len + blenMax - 1, blenMax, q + 1, r);
    } else {
      DivModUnique(len + blenMax - 1, blenMax, 1, len - 1);
    }
  }

  /** What one entry leaves over of the descriptors counted for it; a negative number where the 32-bit sum wraps. */
  ghost function Spare(len: nat, blenMax: nat): int
    requires blenMax >= 1
  {
    var x := len + blenMax - 1;
    if 0 < len <= blenMax then 0
    else if NoWrap(len, blenMax) then 1
    else 1 - (x / blenMax - (x - TWO32) / blenMax)
  }

  lemma EntryBalance(addr: nat, len: nat, blenMax: nat)
    requires 1 <= blenMax < TWO32 && len < TWO32
    ensures 1 + Extra(len, blenMax) - |SplitOne(addr, len, blenMax)| == Spare(len, blenMax)
    ensures Spare(len, blenMax) < 0 <==> !NoWrap(len, blenMax)
  {
    SplitOneCount(addr, len, blenMax);
    var x := len + blenMax - 1;
    if len > blenMax {
      if x < TWO32 {
        DivModUnique(x, TWO32, 0, x);
      } else {
        // The wrapped sum is below blenMax or at least two pieces short.
        DivModUnique(x, TWO32, 1, x - TWO32);
        QuotientGap(x, x - TWO32, blenMax);
      }
    } else if len == 0 {
      DivModUnique(x, blenMax, 0, x);
    } else {
      DivModUnique(x, blenMax, 1, len - 1);
    }
  }

  /** For one entry what is allocated is enough exactly when the 32-bit sum does not wrap around. */
  lemma EntryFitsIff(addr: nat, len: nat, blenMax: nat)
    requires 1 <= blenMax < TWO32 && len < TWO32
    ensures |SplitOne(addr, len, blenMax)| <= 1 + Extra(len, blenMax) <==> NoWrap(len, blenMax)
  {
    EntryBalance(addr, len, blenMax);
  }

  // The smaller number has no quotient, or the two are two divisors apart: then so are the quotients.
  lemma QuotientGap(x: nat, y: nat, m: nat)
    requires m >= 1 && x >= 2 * m && (y < m || x - y >= 2 * m)
    ensures y / m + 2 <= x / m
  {
    var q := if y < m then 0 else y / m;
    if y < m {
      DivModUnique(y, m, 0, y);
    }
    MulDistr(q, 2, m);
    MulDistr(q, 1, m);
    if x / m < q + 2 {
      MulMonotone(m, x / m, q + 1);
    }
  }

  /** The lengths are 32-bit fields of the scatter list. */
  ghost predicate FieldLengths(sgl: seq<SwDesc>) {
    forall i :: 0 <= i < |sgl| ==> sgl[i].len < TWO32
  }

  ghost function SpareSum(sgl: seq<SwDesc>, blenMax: nat): int
    requires blenMax >= 1
  {
    if sgl == [] then 0 else SpareSum(sgl[..|sgl| - 1], blenMax) + Spare(sgl[|sgl| - 1].len, blenMax)
  }

  /** For a list: the allocation exceeds the pieces by the sum of what its entries leave over, so long entries
      that do not wrap can make up for one that does. */
  lemma {:induction false} AllocationBalance(sgl: seq<SwDesc>, blenMax: nat)
    requires 1 <= blenMax < TWO32 && FieldLengths(sgl)
    ensures Allocated(sgl, blenMax) - |SplitAll(sgl, blenMax)| == SpareSum(sgl, blenMax)
  {
    if sgl == [] {
    } else {
      AllocationBalance(sgl[..|sgl| - 1], blenMax);
      EntryBalance(sgl[|sgl| - 1].addr, sgl[|sgl| - 1].len, blenMax);
    }
  }

  const DEFAULT_BLEN_MAX: nat := 0xFFF_FFFF

  /** With the default piece length one entry of 2^32 - 1 bytes lacks 16 descriptors. */
  lemma LongEntryIsShort(addr: nat)
    ensures var sgl := [SwDesc(addr, TWO32 - 1)];
      && SpareSum(sgl, DEFAULT_BLEN_MAX) == -16
      && |SplitAll(sgl, DEFAULT_BLEN_MAX)| == Allocated(sgl, DEFAULT_BLEN_MAX) + 16
  {
    var sgl := [SwDesc(addr, TWO32 - 1)];
    assert sgl[..0] == [];
    AllocationBalance(sgl, DEFAULT_BLEN_MAX);
  }

  /** Without wrap-around nothing is ever short. */
  lemma {:induction false} NoWrapIsEnough(sgl: seq<SwDesc>, blenMax: nat)
    requires 1 <= blenMax < TWO32 && FieldLengths(sgl)
    requires forall i :: 0 <= i < |sgl| ==> NoWrap(sgl[i].len, blenMax)
    ensures SpareSum(sgl, blenMax) >= 0
  {
    if sgl == [] {
    } else {
      NoWrapIsEnough(sgl[..|sgl| - 1], blenMax);
      EntryBalance(sgl[|sgl| - 1].addr, sgl[|sgl| - 1].len, blenMax);
    }
  }

  /** The counting loop: one descriptor for each entry, and the extra ones of long entries. */
  method CountDescriptors(sgl: seq<SwDesc>, blenMax: nat) returns (max: nat)
    requires blenMax >= 1
    ensures max == Allocated(sgl, blenMax)
  {
    hide WrappedCeil;
    max := |sgl|;
    var extra: nat := 0;
    for i := 0 to |sgl|
      invariant extra + i == Allocated(sgl[..i], blenMax)
    {
      assert sgl[..i + 1][..i] == sgl[..i];
      if sgl[i].len > blenMax {
        extra := extra + WrappedCeil(sgl[i].len, blenMax);
      }
    }
    assert sgl[..|sgl|] == sgl;
    max := max + extra;
  }

  lemma MoveFirst(front: seq<SwDesc>, rest: seq<SwDesc>)
    requires rest != []
    ensures front + rest == front + [rest[0]] + rest[1..]
  {
  }

  /** The inner loop: append the pieces of one entry. What has no room is counted but not kept. */
  method SplitEntry(sdesc: array<SwDesc>, from: nat, entry: SwDesc, blenMax: nat) returns (j: nat)
    requires blenMax >= 1
    modifies sdesc
    ensures j == from + |SplitOne(entry.addr, entry.len, blenMax)|
    ensures j <= sdesc.Length ==> sdesc[..j] == old(sdesc[..from]) + SplitOne(entry.addr, entry.len, blenMax)
  {
    j := from;
    var addr: nat, tlen: nat := entry.addr, entry.len;
    ghost var pieces := SplitOne(addr, tlen, blenMax);
    while tlen > 0
      invariant j + |SplitOne(addr, tlen, blenMax)| == from + |pieces| && from <= j
      invariant j <= sdesc.Length ==> sdesc[..j] + SplitOne(addr, tlen, blenMax) == old(sdesc[..from]) + pieces
      decreases tlen
    {
      ghost var rest := SplitOne(addr, tlen, blenMax);
      ghost var front := if j <= sdesc.Length then sdesc[..j] else [];
      if j < sdesc.Length {
        sdesc[j] := SwDesc(addr, if tlen > blenMax then blenMax else tlen);
        assert sdesc[..j + 1] == front + [rest[0]];
        MoveFirst(front, rest);
      }
      if tlen > blenMax {
        addr := addr + blenMax;
        tlen := tlen - blenMax;
      } else {
        tlen := 0;
      }
      assert rest[1..] == SplitOne(addr, tlen, blenMax);
      j := j + 1;
    }
  }

  lemma SplitNone(blenMax: nat)
    requires blenMax >= 1
    ensures SplitAll([], blenMax) == [] && Bytes([]) == 0
  {
  }

  lemma SplitNext(sgl: seq<SwDesc>, i: nat, blenMax: nat)
    requires blenMax >= 1 && i < |sgl|
    ensures SplitAll(sgl[..i + 1], blenMax) == SplitAll(sgl[..i], blenMax) + SplitOne(sgl[i].addr, sgl[i].len, blenMax)
    ensures Bytes(sgl[..i + 1]) == Bytes(sgl[..i]) + sgl[i].len
  {
    assert sgl[..i + 1][..i] == sgl[..i];
  }

  /** xdma_init_request: count, allocate, split. It returns the whole split or, exactly when the allocation was too
      small, nothing. */
  method InitRequest(sgl: seq<SwDesc>, ep: nat, blenMax: nat) returns (req: Request?, totalLen: nat)
    requires 1 <= blenMax < TWO32 && FieldLengths(sgl)
    ensures totalLen == Bytes(sgl) % TWO32
    ensures req == null <==> SpareSum(sgl, blenMax) < 0
    ensures req != null ==> fresh(req) && req.sdesc == SplitAll(sgl, blenMax) && req.swIdx == 0 && req.ep == ep
  {
    hide SplitOne, SplitAll, Bytes, Allocated, SpareSum;
    SplitNone(blenMax);
    var max := CountDescriptors(sgl, blenMax);
    AllocationBalance(sgl, blenMax);
    assert sgl[..|sgl|] == sgl;
    var sdesc := new SwDesc[max](_ => SwDesc(0, 0));
    var j: nat := 0;
    totalLen := 0;
    for i := 0 to |sgl|
      invariant j == |SplitAll(sgl[..i], blenMax)|
      invariant j <= sdesc.Length ==> sdesc[..j] == SplitAll(sgl[..i], blenMax)
      invariant totalLen == Bytes(sgl[..i]) % TWO32
    {
      SplitNext(sgl, i, blenMax);
      totalLen := (totalLen + sgl[i].len) % TWO32;
      j := SplitEntry(sdesc, j, sgl[i], blenMax);
    }
    if j > max {
      return null, totalLen;
    }
    req := new Request(sdesc[..j], ep);
  }
}
