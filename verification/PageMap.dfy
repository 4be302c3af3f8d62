/** Cutting a user buffer into page pieces, with the word sizes of the original counters. */
module PageMap {
  import opened Arith
  import opened Descriptor

  /** Scatter list entry: which page of the buffer, from which offset, how many bytes. */
  datatype Entry = Entry(page: nat, offset: nat, nbytes: nat)

  datatype Mapping = Mapped(entries: seq<Entry>) | InvalidLength

  /** The page count: 64-bit arithmetic, cut to 32 bits. */
  function PagesNr(buf: nat, len: nat): nat {
    (buf + len + PAGE_SIZE - 1 - (buf - buf % PAGE_SIZE)) % TWO64 / PAGE_SIZE % TWO32
  }

  /** The buffer bytes the entries cover, counted from the start of the first page. */
  function Positions(entries: seq<Entry>): seq<nat> {
    if entries == [] then []
    else
      var last := entries[|entries| - 1];
      Positions(entries[..|entries| - 1]) + Range(PAGE_SIZE * last.page + last.offset, last.nbytes)
  }

  function Range(from: nat, count: nat): seq<nat> {
    seq(count, k requires 0 <= k => from + k)
  }

  function Min(a: int, b: int): int {
    if a < b then a else b
  }

  /** How many pages hold a buffer of len bytes that starts at offset off of its first page. */
  function PagesOf(off: nat, len: nat): nat {
    (off + len + PAGE_SIZE - 1) / PAGE_SIZE
  }

  /** The part of page i that holds bytes of the buffer. */
  function PagePiece(off: nat, len: nat, i: nat): (e: Entry)
    requires off < PAGE_SIZE && i < PagesOf(off, len)
    ensures e.page == i && e.offset + e.nbytes <= PAGE_SIZE && (len > 0 ==> e.nbytes > 0)
  {
    if i == 0 then Entry(0, off, Min(PAGE_SIZE - off, len))
    else Entry(i, 0, Min(PAGE_SIZE, off + len - PAGE_SIZE * i))
  }

  function PagePieces(off: nat, len: nat): seq<Entry>
    requires off < PAGE_SIZE
  {
    seq(PagesOf(off, len), i requires 0 <= i < PagesOf(off, len) => PagePiece(off, len, i))
  }

  /** The bytes left when the pieces of the first i pages are taken. */
  function LeftAt(off: nat, len: nat, i: nat): nat
    requires off < PAGE_SIZE
  {
    len - if i == 0 then 0 else Min(len, PAGE_SIZE * i - off)
  }

  lemma {:induction false} PiecesCover(off: nat, len: nat, i: nat)
    requires off < PAGE_SIZE && i <= PagesOf(off, len)
    ensures Positions(PagePieces(off, len)[..i]) == Range(off, len - LeftAt(off, len, i))
  {
    if i == 0 {
    } else {
      var pieces := PagePieces(off, len);
      PiecesCover(off, len, i - 1);
      assert pieces[..i][..i - 1] == pieces[..i - 1] && pieces[..i][i - 1] == PagePiece(off, len, i - 1);
    }
  }

  lemma AllTaken(off: nat, len: nat)
    requires off < PAGE_SIZE && PagesOf(off, len) > 0
    ensures LeftAt(off, len, PagesOf(off, len)) == 0
  {
  }

  /** char_sgdma_map_user_buf_to_sgl: succeeds exactly for lengths below 2^32 (and not for an empty buffer at a page
      start); then it covers the buffer byte by byte in one piece for each page. */
  method MapUserBuf(buf: nat, len: nat) returns (m: Mapping)
    requires buf < TWO64 && len < TWO64
    ensures m.Mapped? <==> len < TWO32 && !(len == 0 && buf % PAGE_SIZE == 0)
    ensures m.Mapped? ==>
      && m.entries == PagePieces(buf % PAGE_SIZE, len)
      && Positions(m.entries) == Range(buf % PAGE_SIZE, len)
  {
    hide PagePiece, PagesNr, PagesOf, LeftAt, Positions, Range;
    var pagesNr := PagesNr(buf, len);
    ghost var off := buf % PAGE_SIZE;
    PageCount(buf, len);
    if pagesNr == 0 {
      return InvalidLength;
    }
    var entries := [];
    var at, left := buf, len;
    Start(buf, len);
    for i := 0 to pagesNr
      invariant |entries| == i && at < TWO64
      invariant len >= TWO32 ==> left >= TWO32
      invariant len < TWO32 ==>
        && left == LeftAt(off, len, i) <= len && at == (buf + len - left) % TWO64
        && forall k :: 0 <= k < i ==> entries[k] == PagePiece(off, len, k)
    {
      var offset := at % PAGE_SIZE;
      var nbytes: nat := Min(PAGE_SIZE - offset, left % TWO32);
      if len < TWO32 {
        PagePosition(buf, len, left, i);
        NextPiece(at, left, nbytes, buf + len - left);
      } else {
        StaysHigh(left, PAGE_SIZE - offset);
      }
      entries := entries + [Entry(i, offset, nbytes)];
      at := (at + nbytes) % TWO64;
      left := left - nbytes;
    }
    if len < TWO32 {
      AllTaken(off, len);
      assert entries == PagePieces(off, len) == PagePieces(off, len)[..pagesNr];
      PiecesCover(off, len, pagesNr);
    }
    if left != 0 {
      return InvalidLength;
    }
    m := Mapped(entries);
  }

  lemma Start(buf: nat, len: nat)
    requires buf < TWO64
    ensures LeftAt(buf % PAGE_SIZE, len, 0) == len && buf % TWO64 == buf
  {
  }

  // The page count is not cut off for lengths below 2^32.
  lemma PageCount(buf: nat, len: nat)
    requires len < TWO64
    ensures len < TWO32 ==>
      && PagesNr(buf, len) == PagesOf(buf % PAGE_SIZE, len)
      && (PagesNr(buf, len) == 0 <==> len == 0 && buf % PAGE_SIZE == 0)
  {
    var n := buf % PAGE_SIZE + len + PAGE_SIZE - 1;
    assert buf + len + PAGE_SIZE - 1 - (buf - buf % PAGE_SIZE) == n;
    if len < TWO32 {
      DivModUnique(n, TWO64, 0, n);
      DivModUnique(n / PAGE_SIZE, TWO32, 0, n / PAGE_SIZE);
    }
  }

  // Both counters move together by what fits in the page.
  lemma NextPiece(at: nat, left: nat, nbytes: nat, sum: nat)
    requires at == sum % TWO64 && left < TWO32 && nbytes == Min(PAGE_SIZE - at % PAGE_SIZE, left % TWO32)
    ensures nbytes == Min(PAGE_SIZE - at % PAGE_SIZE, left)
    ensures (at + nbytes) % TWO64 == (sum + nbytes) % TWO64
  {
    DivModUnique(left, TWO32, 0, left);
  }

  // Cut to 32 bits, the step can never take the length below the next multiple of 2^32.
  lemma StaysHigh(left: nat, room: nat)
    requires left >= TWO32
    ensures left - Min(room, left % TWO32) >= TWO32
  {
  }

  // Where the loop stands before page i: at the buffer start, or at the start of a later page with bytes left.
  lemma PagePosition(buf: nat, len: nat, left: nat, i: nat)
    requires i < PagesOf(buf % PAGE_SIZE, len)
    requires left == LeftAt(buf % PAGE_SIZE, len, i)
    ensures var offset := (buf + len - left) % TWO64 % PAGE_SIZE;
      && Entry(i, offset, Min(PAGE_SIZE - offset, left)) == PagePiece(buf % PAGE_SIZE, len, i)
      && left - Min(PAGE_SIZE - offset, left) == LeftAt(buf % PAGE_SIZE, len, i + 1)
  {
    var off, c := buf % PAGE_SIZE, len - left;
    assert PAGE_SIZE * i < off + len + PAGE_SIZE - 1;
    var q := (buf + c) / TWO64;
    if i == 0 {
      DivModUnique((buf + c) % TWO64, PAGE_SIZE, buf / PAGE_SIZE - q * 0x10_0000_0000_0000, off);
    } else {
      DivModUnique((buf + c) % TWO64, PAGE_SIZE, buf / PAGE_SIZE + i - q * 0x10_0000_0000_0000, 0);
    }
  }
}
