/** The aperture loop, pass by pass: device addresses wrap inside a window, host addresses follow the scatter list. */
module Aperture {
  import opened Arith
  import opened Descriptor
  import opened Ring
  import opened Split
  import opened RingSlots
  import opened Submit

  // ---------------------------------------------------------------- what is mapped

  /** A descriptor of the pass: a piece of host memory and the device address it goes to. */
  datatype WindowDesc = WindowDesc(piece: SwDesc, dev: nat)

  function PiecePairs(d: WindowDesc): seq<Pair> {
    seq(d.piece.len, j requires 0 <= j => Pair(d.piece.addr + j, d.dev + j))
  }

  function WindowMap(ds: seq<WindowDesc>): seq<Pair> {
    if ds == [] then [] else PiecePairs(ds[0]) + WindowMap(ds[1..])
  }

  /** The device addresses of a descriptor stay inside the window. */
  ghost predicate Inside(d: WindowDesc, base: nat, aperture: nat) {
    d.piece.len >= 1 && base <= d.dev && d.dev + d.piece.len <= base + aperture
  }

  ghost predicate AllInside(ds: seq<WindowDesc>, base: nat, aperture: nat) {
    forall i :: 0 <= i < |ds| ==> Inside(ds[i], base, aperture)
  }

  /** A position of the window, counted around it. */
  function Around(x: nat, aperture: nat): (pos: nat)
    requires aperture >= 1
    ensures pos < aperture
  {
    x % aperture
  }

  /** n host bytes from position from on, the first of them at position pos of the window, around and around. */
  function Window(host: seq<nat>, from: nat, pos: nat, n: nat, base: nat, aperture: nat): seq<Pair>
    requires from + n <= |host| && aperture >= 1
  {
    seq(n, j requires 0 <= j < n => Pair(host[from + j], base + Around(pos + j, aperture)))
  }

  lemma MapFirst(d: WindowDesc, rest: seq<WindowDesc>)
    ensures WindowMap([d] + rest) == PiecePairs(d) + WindowMap(rest)
  {
    assert ([d] + rest)[1..] == rest;
  }

  lemma {:induction false} MapAppend(a: seq<WindowDesc>, b: seq<WindowDesc>)
    ensures WindowMap(a + b) == WindowMap(a) + WindowMap(b)
  {
    hide PiecePairs;
    if a == [] {
      assert a + b == b;
    } else {
      MapAppend(a[1..], b);
      MapFirst(a[0], a[1..] + b);
      assert a + b == [a[0]] + (a[1..] + b);
    }
  }

  lemma {:induction false} HostByteAt(sgl: seq<SwDesc>, s: nat, j: nat)
    requires s < |sgl| && j < sgl[s].len
    ensures Bytes(sgl[..s]) + j < |HostBytes(sgl)|
    ensures HostBytes(sgl)[Bytes(sgl[..s]) + j] == sgl[s].addr + j
  {
    var last := |sgl| - 1;
    if s == last {
    } else {
      HostByteAt(sgl[..last], s, j);
      assert sgl[..last][..s] == sgl[..s];
    }
  }

  lemma AroundSmall(x: nat, aperture: nat)
    requires x < aperture
    ensures Around(x, aperture) == x
  {
  }

  lemma AroundStep(x: nat, j: nat, aperture: nat)
    requires aperture >= 1
    ensures Around(Around(x, aperture) + j, aperture) == Around(x + j, aperture)
  {
    var y, q := x % aperture + j, x / aperture;
    MulDistr(q, y / aperture, aperture);
    DivModUnique(x + j, aperture, q + y / aperture, y % aperture);
  }

  // Going on with the window where m bytes of it end.
  lemma WindowAppend(host: seq<nat>, from: nat, pos: nat, m: nat, n: nat, base: nat, aperture: nat)
    requires from + m + n <= |host| && aperture >= 1
    ensures Window(host, from, pos, m + n, base, aperture)
         == Window(host, from, pos, m, base, aperture)
              + Window(host, from + m, Around(pos + m, aperture), n, base, aperture)
  {
    hide Around;
    var whole := Window(host, from, pos, m + n, base, aperture);
    var rest := Window(host, from + m, Around(pos + m, aperture), n, base, aperture);
    forall j | 0 <= j < n ensures whole[m + j] == rest[j] {
      AroundStep(pos + m, j, aperture);
      assert from + (m + j) == from + m + j && pos + (m + j) == pos + m + j;
    }
  }

  // A piece of entry s that stays inside the window.
  lemma PieceWindow(sgl: seq<SwDesc>, s: nat, at: nat, len: nat, pos: nat, base: nat, aperture: nat)
    requires pos < aperture && s < |sgl| && at + len <= sgl[s].len && len >= 1 && pos + len <= aperture
    ensures Bytes(sgl[..s]) + at + len <= |HostBytes(sgl)|
    ensures PiecePairs(WindowDesc(SwDesc(sgl[s].addr + at, len), base + pos))
         == Window(HostBytes(sgl), Bytes(sgl[..s]) + at, pos, len, base, aperture)
  {
    hide HostBytes, Bytes, Around;
    HostByteAt(sgl, s, at + len - 1);
    var pairs := PiecePairs(WindowDesc(SwDesc(sgl[s].addr + at, len), base + pos));
    var window := Window(HostBytes(sgl), Bytes(sgl[..s]) + at, pos, len, base, aperture);
    forall j | 0 <= j < len ensures pairs[j] == window[j] {
      HostByteAt(sgl, s, at + j);
      AroundSmall(pos + j, aperture);
    }
  }

  // -------------------------------------------------------------- a pass as a function

  /** What every pass of a request works with: its scatter list, the window, and the longest piece. */
  datatype Job = Job(sgl: seq<SwDesc>, base: nat, aperture: nat, maxlen: nat) {
    predicate Valid() {
      aperture >= 1 && maxlen >= 1
    }
  }

  /** Where a request stands between passes: offset, sg_idx and sg_offset. */
  datatype Cursor = Cursor(offset: nat, sgIdx: nat, sgOffset: nat)

  function PieceLen(job: Job, tlen: nat, pos: nat): (len: nat)
    requires job.Valid() && pos < job.aperture
    ensures len <= tlen && len <= job.maxlen && pos + len <= job.aperture && (tlen >= 1 ==> len >= 1)
    ensures len == tlen || len == job.maxlen || pos + len == job.aperture
  {
    var len := if tlen < job.maxlen then tlen else job.maxlen;
    if pos + len > job.aperture then job.aperture - pos else len
  }

  /** Pieces of tlen bytes of one entry, from position pos of the window on, as long as there is room. */
  function Pieces(job: Job, addr: nat, tlen: nat, pos: nat, room: nat): (ps: seq<WindowDesc>)
    requires job.Valid() && pos < job.aperture
    ensures |ps| <= room
    decreases room
  {
    if tlen == 0 || room == 0 then []
    else
      var len := PieceLen(job, tlen, pos);
      [WindowDesc(SwDesc(addr, len), job.base + pos)]
        + Pieces(job, addr + len, tlen - len, Around(pos + len, job.aperture), room - 1)
  }

  function Total(ds: seq<WindowDesc>): nat {
    if ds == [] then 0 else ds[0].piece.len + Total(ds[1..])
  }

  /** What is left of entry s, an unsigned 32-bit difference. */
  function Remaining(sgl: seq<SwDesc>, s: nat, sgOffset: nat): nat
    requires s < |sgl|
  {
    if sgOffset == 0 then sgl[s].len else (sgl[s].len - sgOffset) % TWO32
  }

  /** The outer loop from entry s on. The count of entries goes on from sg_idx, but s counts from the first entry. */
  function Fill(job: Job, c: Cursor, s: nat, pos: nat, room: nat): (seq<WindowDesc>, Cursor)
    requires job.Valid() && pos < job.aperture && s <= c.sgIdx
    decreases |job.sgl| - c.sgIdx
  {
    if c.sgIdx >= |job.sgl| || room == 0 then ([], c)
    else
      var tlen := Remaining(job.sgl, s, c.sgOffset);
      var ps := Pieces(job, job.sgl[s].addr + c.sgOffset, tlen, pos, room);
      var n := Total(ps);
      if n < tlen then (ps, Cursor(c.offset + n, c.sgIdx, c.sgOffset + n))
      else
        var rest := Fill(job, Cursor(c.offset + n, c.sgIdx + 1, 0), s + 1, Around(pos + n, job.aperture), room - |ps|);
        (ps + rest.0, rest.1)
  }

  /** One pass: it starts at the first entry, whatever sg_idx is, and in the window where the masked offset says. */
  function Pass(job: Job, c: Cursor, room: nat): (seq<WindowDesc>, Cursor)
    requires job.Valid()
  {
    Fill(job, c, 0, And(c.offset, job.aperture - 1), room)
  }

  // --------------------------------------------------------------- what a pass maps

  lemma {:induction false} PiecesTotal(job: Job, addr: nat, tlen: nat, pos: nat, room: nat)
    requires job.Valid() && pos < job.aperture
    ensures var ps := Pieces(job, addr, tlen, pos, room);
      && Total(ps) <= tlen && (Total(ps) < tlen ==> |ps| == room) && (Total(ps) == 0 <==> ps == [])
    decreases room
  {
    if tlen == 0 || room == 0 {
    } else {
      var len := PieceLen(job, tlen, pos);
      PiecesTotal(job, addr + len, tlen - len, Around(pos + len, job.aperture), room - 1);
      assert Pieces(job, addr, tlen, pos, room)[1..]
          == Pieces(job, addr + len, tlen - len, Around(pos + len, job.aperture), room - 1);
    }
  }

  /** The pieces of one entry map its bytes to the window, in order. */
  lemma {:induction false} PiecesMap(job: Job, s: nat, at: nat, tlen: nat, pos: nat, room: nat)
    requires job.Valid() && pos < job.aperture && s < |job.sgl| && at + tlen <= job.sgl[s].len
    ensures var ps := Pieces(job, job.sgl[s].addr + at, tlen, pos, room);
      && Bytes(job.sgl[..s]) + at + Total(ps) <= |HostBytes(job.sgl)|
      && WindowMap(ps) == Window(HostBytes(job.sgl), Bytes(job.sgl[..s]) + at, pos, Total(ps), job.base, job.aperture)
      && AllInside(ps, job.base, job.aperture)
    decreases room
  {
    hide HostBytes, Bytes, Window, WindowMap, PiecePairs, Around;
    var host, from, ps := HostBytes(job.sgl), Bytes(job.sgl[..s]) + at, Pieces(job, job.sgl[s].addr + at, tlen, pos, room);
    if tlen == 0 || room == 0 {
      EntryEnds(job.sgl, s, at);
      WindowNone(host, from, pos, job.base, job.aperture);
      MapNone(job);
    } else {
      var len := PieceLen(job, tlen, pos);
      var next := Around(pos + len, job.aperture);
      var first, rest := WindowDesc(SwDesc(job.sgl[s].addr + at, len), job.base + pos),
                         Pieces(job, job.sgl[s].addr + at + len, tlen - len, next, room - 1);
      PiecesMap(job, s, at + len, tlen - len, next, room - 1);
      assert ps[1..] == rest;
      PieceWindow(job.sgl, s, at, len, pos, job.base, job.aperture);
      WindowAppend(host, from, pos, len, Total(rest), job.base, job.aperture);
      MapFirst(first, rest);
    }
  }

  lemma MapNone(job: Job)
    ensures WindowMap([]) == [] && AllInside([], job.base, job.aperture)
  {
  }

  lemma WindowNone(host: seq<nat>, from: nat, pos: nat, base: nat, aperture: nat)
    requires from <= |host| && aperture >= 1
    ensures Window(host, from, pos, 0, base, aperture) == []
  {
  }

  // Up to any byte of an entry, or its end, the list has that many bytes.
  lemma EntryEnds(sgl: seq<SwDesc>, s: nat, at: nat)
    requires s < |sgl| && at <= sgl[s].len
    ensures Bytes(sgl[..s]) + at <= |HostBytes(sgl)|
    ensures Bytes(sgl[..s + 1]) == Bytes(sgl[..s]) + sgl[s].len
  {
    assert sgl[..s + 1][..s] == sgl[..s];
    assert sgl == sgl[..s + 1] + sgl[s + 1..];
    HostBytesAppend(sgl[..s + 1], sgl[s + 1..]);
  }

  /** From cursor c at entry s the descriptors ds map the host bytes from there on, in order, to the window from
      position pos on; e is where they end, inside an entry only if the room is used up. */
  ghost predicate Covered(job: Job, c: Cursor, s: nat, pos: nat, room: nat, ds: seq<WindowDesc>, e: Cursor)
    requires job.Valid()
  {
    && c.offset <= e.offset && s <= c.sgIdx <= e.sgIdx <= |job.sgl|
    && var n, k, from := e.offset - c.offset, s + (e.sgIdx - c.sgIdx), Bytes(job.sgl[..s]) + c.sgOffset;
    && from + n == Bytes(job.sgl[..k]) + e.sgOffset <= |HostBytes(job.sgl)|
    && WindowMap(ds) == Window(HostBytes(job.sgl), from, pos, n, job.base, job.aperture)
    && AllInside(ds, job.base, job.aperture)
    && |ds| <= room && (n == 0 ==> ds == [])
    && (|ds| < room && c.sgIdx < |job.sgl| ==> e.sgIdx == |job.sgl| && e.sgOffset == 0)
    && (e == c || e.sgOffset == 0 || (e.sgIdx < |job.sgl| && e.sgOffset < job.sgl[k].len))
  }

  lemma {:induction false} FillMaps(job: Job, c: Cursor, s: nat, pos: nat, room: nat)
    requires job.Valid() && FieldLengths(job.sgl) && pos < job.aperture && s <= c.sgIdx <= |job.sgl|
    requires c.sgOffset <= if s < |job.sgl| then job.sgl[s].len else 0
    ensures var f := Fill(job, c, s, pos, room); Covered(job, c, s, pos, room, f.0, f.1)
    decreases |job.sgl| - c.sgIdx
  {
    hide Covered, HostBytes, Bytes, Window, WindowMap, Pieces, Total, AllInside, Around;
    if c.sgIdx == |job.sgl| || room == 0 {
      NothingFilled(job, c, s, pos, room);
    } else {
      var tlen := Remaining(job.sgl, s, c.sgOffset);
      var ps := Pieces(job, job.sgl[s].addr + c.sgOffset, tlen, pos, room);
      var n := Total(ps);
      PiecesTotal(job, job.sgl[s].addr + c.sgOffset, tlen, pos, room);
      PiecesMap(job, s, c.sgOffset, tlen, pos, room);
      if n < tlen {
        PartFilled(job, c, s, pos, room, ps);
      } else {
        EntryEnds(job.sgl, s, c.sgOffset);
        var next, at := Cursor(c.offset + n, c.sgIdx + 1, 0), Around(pos + n, job.aperture);
        FillMaps(job, next, s + 1, at, room - |ps|);
        var rest := Fill(job, next, s + 1, at, room - |ps|);
        JoinPasses(job, c, s, pos, room, ps, next, rest.0, rest.1);
      }
    }
  }

  lemma NothingFilled(job: Job, c: Cursor, s: nat, pos: nat, room: nat)
    requires job.Valid() && s <= c.sgIdx <= |job.sgl| && (c.sgIdx == |job.sgl| || room == 0)
    requires c.sgOffset <= if s < |job.sgl| then job.sgl[s].len else 0
    ensures Covered(job, c, s, pos, room, [], c)
  {
    if s < |job.sgl| { EntryEnds(job.sgl, s, c.sgOffset); } else { assert job.sgl[..s] == job.sgl; }
    hide HostBytes, Bytes, Window, WindowMap, AllInside;
    WindowNone(HostBytes(job.sgl), Bytes(job.sgl[..s]) + c.sgOffset, pos, job.base, job.aperture);
    MapNone(job);
  }

  // The room is used up inside entry s.
  lemma PartFilled(job: Job, c: Cursor, s: nat, pos: nat, room: nat, ps: seq<WindowDesc>)
    requires job.Valid() && s <= c.sgIdx < |job.sgl| && |ps| == room && c.sgOffset + Total(ps) < job.sgl[s].len
    requires Bytes(job.sgl[..s]) + c.sgOffset + Total(ps) <= |HostBytes(job.sgl)| && AllInside(ps, job.base, job.aperture)
    requires WindowMap(ps)
      == Window(HostBytes(job.sgl), Bytes(job.sgl[..s]) + c.sgOffset, pos, Total(ps), job.base, job.aperture)
    requires Total(ps) == 0 ==> ps == []
    ensures Covered(job, c, s, pos, room, ps, Cursor(c.offset + Total(ps), c.sgIdx, c.sgOffset + Total(ps)))
  {
    hide HostBytes, Bytes, Window, WindowMap, AllInside, Total;
  }

  // A whole entry, and what follows it.
  lemma JoinPasses(job: Job, c: Cursor, s: nat, pos: nat, room: nat, ps: seq<WindowDesc>, next: Cursor,
                   rest: seq<WindowDesc>, e: Cursor)
    requires job.Valid() && s <= c.sgIdx < |job.sgl| && |ps| <= room && c.sgOffset <= job.sgl[s].len
    requires var n := job.sgl[s].len - c.sgOffset;
      && next == Cursor(c.offset + n, c.sgIdx + 1, 0)
      && Bytes(job.sgl[..s]) + c.sgOffset + n == Bytes(job.sgl[..s + 1]) <= |HostBytes(job.sgl)|
      && WindowMap(ps) == Window(HostBytes(job.sgl), Bytes(job.sgl[..s]) + c.sgOffset, pos, n, job.base, job.aperture)
      && (n == 0 ==> ps == [])
      && Covered(job, next, s + 1, Around(pos + n, job.aperture), room - |ps|, rest, e)
    requires AllInside(ps, job.base, job.aperture)
    ensures Covered(job, c, s, pos, room, ps + rest, e)
  {
    hide HostBytes, Bytes, Window, WindowMap, Inside, Around;
    var n := job.sgl[s].len - c.sgOffset;
    var from := Bytes(job.sgl[..s]) + c.sgOffset;
    WindowAppend(HostBytes(job.sgl), from, pos, n, e.offset - next.offset, job.base, job.aperture);
    MapAppend(ps, rest);
  }

  /** From whatever cursor: every descriptor is nonempty, inside the window and no longer than the longest piece. */
  ghost predicate AllFit(job: Job, ds: seq<WindowDesc>) {
    forall i :: 0 <= i < |ds| ==> Inside(ds[i], job.base, job.aperture) && ds[i].piece.len <= job.maxlen
  }

  lemma {:induction false} PiecesFit(job: Job, addr: nat, tlen: nat, pos: nat, room: nat)
    requires job.Valid() && pos < job.aperture
    ensures AllFit(job, Pieces(job, addr, tlen, pos, room))
    decreases room
  {
    hide Around;
    if tlen == 0 || room == 0 {
    } else {
      var len := PieceLen(job, tlen, pos);
      PiecesFit(job, addr + len, tlen - len, Around(pos + len, job.aperture), room - 1);
    }
  }

  lemma {:induction false} FillFits(job: Job, c: Cursor, s: nat, pos: nat, room: nat)
    requires job.Valid() && pos < job.aperture && s <= c.sgIdx
    ensures AllFit(job, Fill(job, c, s, pos, room).0)
    decreases |job.sgl| - c.sgIdx
  {
    hide Pieces, Total, Remaining, Around, Inside;
    if c.sgIdx >= |job.sgl| || room == 0 {
    } else {
      var tlen := Remaining(job.sgl, s, c.sgOffset);
      var ps := Pieces(job, job.sgl[s].addr + c.sgOffset, tlen, pos, room);
      var n := Total(ps);
      PiecesFit(job, job.sgl[s].addr + c.sgOffset, tlen, pos, room);
      FillFits(job, Cursor(c.offset + n, c.sgIdx + 1, 0), s + 1, Around(pos + n, job.aperture), room - |ps|);
    }
  }

  // ------------------------------------------------------------- when a pass is right

  ghost predicate NonEmptyEntries(sgl: seq<SwDesc>) {
    forall i :: 0 <= i < |sgl| ==> sgl[i].len >= 1
  }

  /** The pass maps the bytes that come next in the request: number offset, offset + 1, ... */
  ghost predicate RightBytes(job: Job, offset: nat, ds: seq<WindowDesc>)
    requires job.Valid()
  {
    var host, pairs := HostBytes(job.sgl), WindowMap(ds);
    offset + |pairs| <= |host| && pairs == Window(host, offset, offset, |pairs|, job.base, job.aperture)
  }

  /** The offset is where the cursor stands in the scatter list. */
  ghost predicate Aligned(job: Job, c: Cursor) {
    && c.sgIdx <= |job.sgl| && c.offset == Bytes(job.sgl[..c.sgIdx]) + c.sgOffset
    && (c.sgOffset == 0 || (c.sgIdx < |job.sgl| && c.sgOffset < job.sgl[c.sgIdx].len))
  }

  predicate MaskWorks(job: Job, c: Cursor)
    requires job.Valid()
  {
    And(c.offset, job.aperture - 1) == Around(c.offset, job.aperture)
  }

  lemma PowersMask(job: Job, c: Cursor, e: nat)
    requires job.Valid() && job.aperture == Pow(2, e)
    ensures MaskWorks(job, c)
  {
    MaskIsModulo(c.offset, e);
  }

  /** Passes keep the cursor aligned as long as no entry was used up before them, as for the first pass. */
  lemma PassKeepsAligned(job: Job, c: Cursor, room: nat)
    requires job.Valid() && FieldLengths(job.sgl) && job.sgl != [] && Aligned(job, c) && c.sgIdx == 0
    ensures Aligned(job, Pass(job, c, room).1)
  {
    FillMaps(job, c, 0, And(c.offset, job.aperture - 1), room);
    assert job.sgl[..0] == [];
  }

  /** The next pass maps the right bytes to the right addresses if and only if no entry was used up before it and the
      mask works, which it does for a power of two: the cursor goes back to the first entry, the offset does not. */
  lemma NextPassRightIff(job: Job, c: Cursor, room: nat)
    requires job.Valid() && FieldLengths(job.sgl) && NonEmptyEntries(job.sgl) && Aligned(job, c)
    requires Distinct(HostBytes(job.sgl)) && Pass(job, c, room).0 != []
    ensures RightBytes(job, c.offset, Pass(job, c, room).0) <==> c.sgIdx == 0 && MaskWorks(job, c)
  {
    hide HostBytes, Bytes, Window, WindowMap, And;
    assert job.sgl[..0] == [];
    BytesNone();
    if c.sgOffset <= job.sgl[0].len {
      NearFirst(job, c, room);
    } else {
      BeyondFirst(job, c, room);
    }
  }

  lemma BytesNone()
    ensures Bytes([]) == 0
  {
  }

  // The cursor is inside the first entry: a window of the host bytes, but from sgOffset on.
  lemma NearFirst(job: Job, c: Cursor, room: nat)
    requires job.Valid() && FieldLengths(job.sgl) && NonEmptyEntries(job.sgl) && Aligned(job, c) && job.sgl != []
    requires Distinct(HostBytes(job.sgl)) && Pass(job, c, room).0 != [] && c.sgOffset <= job.sgl[0].len
    ensures RightBytes(job, c.offset, Pass(job, c, room).0) <==> c.sgIdx == 0 && MaskWorks(job, c)
  {
    hide HostBytes, Bytes, WindowMap, Window, And, Fill;
    var pos, f := And(c.offset, job.aperture - 1), Pass(job, c, room);
    FillMaps(job, c, 0, pos, room);
    assert job.sgl[..0] == [];
    BytesNone();
    if c.sgIdx > 0 {
      PositiveBytes(job.sgl, c.sgIdx);
    }
    var pairs, n := WindowMap(f.0), f.1.offset - c.offset;
    FirstPair(HostBytes(job.sgl), c.sgOffset, pos, n, job.base, job.aperture);
    if RightBytes(job, c.offset, f.0) {
      FirstPair(HostBytes(job.sgl), c.offset, c.offset, n, job.base, job.aperture);
    }
    if c.sgIdx == 0 && MaskWorks(job, c) {
      SamePosition(HostBytes(job.sgl), c.offset, c.offset, n, job.base, job.aperture);
    }
  }

  lemma FirstPair(host: seq<nat>, from: nat, pos: nat, n: nat, base: nat, aperture: nat)
    requires from + n <= |host| && aperture >= 1
    ensures |Window(host, from, pos, n, base, aperture)| == n
    ensures n >= 1 ==> Window(host, from, pos, n, base, aperture)[0] == Pair(host[from], base + Around(pos, aperture))
    ensures pos < aperture ==> Around(pos, aperture) == pos
  {
  }

  lemma SamePosition(host: seq<nat>, from: nat, pos: nat, n: nat, base: nat, aperture: nat)
    requires from + n <= |host| && aperture >= 1
    ensures Window(host, from, Around(pos, aperture), n, base, aperture) == Window(host, from, pos, n, base, aperture)
  {
    hide Around;
    var a, b := Window(host, from, Around(pos, aperture), n, base, aperture), Window(host, from, pos, n, base, aperture);
    forall j | 0 <= j < n ensures a[j] == b[j] {
      AroundStep(pos, j, aperture);
    }
  }

  // The cursor is beyond the end of the first entry: the length left of it wraps, and its address is wrong too.
  lemma BeyondFirst(job: Job, c: Cursor, room: nat)
    requires job.Valid() && FieldLengths(job.sgl) && NonEmptyEntries(job.sgl) && Aligned(job, c) && job.sgl != []
    requires Distinct(HostBytes(job.sgl)) && Pass(job, c, room).0 != [] && c.sgOffset > job.sgl[0].len
    ensures c.sgIdx != 0 && !RightBytes(job, c.offset, Pass(job, c, room).0)
  {
    hide HostBytes, Bytes, And;
    var ds, host := Pass(job, c, room).0, HostBytes(job.sgl);
    PositiveBytes(job.sgl, c.sgIdx);
    assert job.sgl[..0] == [];
    BytesNone();
    HostByteAt(job.sgl, 0, 0);
    HostByteAt(job.sgl, c.sgIdx, 0);
    HostByteAt(job.sgl, c.sgIdx, c.sgOffset);
    assert Remaining(job.sgl, 0, c.sgOffset) == job.sgl[0].len - c.sgOffset + TWO32;
    assert ds[0].piece.addr == job.sgl[0].addr + c.sgOffset && ds[0].piece.len >= 1;
    assert WindowMap(ds)[0] == PiecePairs(ds[0])[0];
    assert host[0] != host[Bytes(job.sgl[..c.sgIdx])];
  }

  lemma PositiveBytes(sgl: seq<SwDesc>, i: nat)
    requires NonEmptyEntries(sgl) && 1 <= i <= |sgl|
    ensures Bytes(sgl[..i]) >= 1
  {
    assert sgl[..i][..i - 1] == sgl[..i - 1];
  }

  /** One pass of a request that has used up no entry yet, for a power of two: every descriptor is inside the window,
      and request byte k goes to base + k mod aperture. */
  lemma PassIsRight(job: Job, c: Cursor, room: nat, e: nat)
    requires job.Valid() && FieldLengths(job.sgl) && job.sgl != [] && job.aperture == Pow(2, e)
    requires c.sgIdx == 0 && c.offset == c.sgOffset <= job.sgl[0].len
    ensures AllInside(Pass(job, c, room).0, job.base, job.aperture) && RightBytes(job, c.offset, Pass(job, c, room).0)
  {
    hide HostBytes, Bytes, WindowMap, Window, And, Fill, AllInside;
    var pos, f := And(c.offset, job.aperture - 1), Pass(job, c, room);
    FillMaps(job, c, 0, pos, room);
    PowersMask(job, c, e);
    assert job.sgl[..0] == [];
    BytesNone();
    FirstPair(HostBytes(job.sgl), c.offset, pos, f.1.offset - c.offset, job.base, job.aperture);
    SamePosition(HostBytes(job.sgl), c.offset, c.offset, f.1.offset - c.offset, job.base, job.aperture);
  }

  // ----------------------------------------------------------------- runs of passes

  /** A pass that builds something, of the bytes that come next. */
  ghost predicate Sound(job: Job, c: Cursor, room: nat)
    requires job.Valid()
  {
    Pass(job, c, room).0 != [] && RightBytes(job, c.offset, Pass(job, c, room).0)
  }

  /** A request over several passes, one for each amount of room. */
  ghost predicate AllSound(job: Job, c: Cursor, rooms: seq<nat>)
    requires job.Valid()
    decreases |rooms|
  {
    rooms == [] || (Sound(job, c, rooms[0]) && AllSound(job, Pass(job, c, rooms[0]).1, rooms[1..]))
  }

  /** No pass finds an entry used up by an earlier one. */
  ghost predicate FirstEntryOnly(job: Job, c: Cursor, rooms: seq<nat>)
    requires job.Valid()
    decreases |rooms|
  {
    rooms == [] ||
    (c.sgIdx == 0 && MaskWorks(job, c) && FirstEntryOnly(job, Pass(job, c, rooms[0]).1, rooms[1..]))
  }

  ghost predicate SomeRoom(rooms: seq<nat>) {
    forall i :: 0 <= i < |rooms| ==> rooms[i] >= 1
  }

  /** Over any number of passes, each with some room, whatever they build: all of them are sound if and only if every
      pass finds the first entry unfinished (and the mask works). */
  lemma {:induction false} RunRightIff(job: Job, c: Cursor, rooms: seq<nat>)
    requires job.Valid() && FieldLengths(job.sgl) && NonEmptyEntries(job.sgl) && job.sgl != []
    requires Distinct(HostBytes(job.sgl)) && Aligned(job, c) && SomeRoom(rooms)
    ensures AllSound(job, c, rooms) <==> FirstEntryOnly(job, c, rooms)
    decreases |rooms|
  {
    hide Pass, MaskWorks, RightBytes, HostBytes, Distinct, Aligned;
    if rooms == [] {
    } else {
      var room := rooms[0];
      if c.sgIdx == 0 {
        UnfinishedGives(job, c, room);
        PassKeepsAligned(job, c, room);
        RunRightIff(job, Pass(job, c, room).1, rooms[1..]);
      }
      if Pass(job, c, room).0 != [] {
        NextPassRightIff(job, c, room);
      }
    }
  }

  lemma UnfinishedGives(job: Job, c: Cursor, room: nat)
    requires job.Valid() && FieldLengths(job.sgl) && NonEmptyEntries(job.sgl) && job.sgl != []
    requires Aligned(job, c) && c.sgIdx == 0 && room >= 1
    ensures Pass(job, c, room).0 != []
  {
    hide And;
    EntryGives(job, c, 0, And(c.offset, job.aperture - 1), room);
  }

  /** The pieces it takes to use up tlen bytes of an entry from position pos of the window on. */
  function PieceCount(job: Job, tlen: nat, pos: nat): nat
    requires job.Valid() && pos < job.aperture
    decreases tlen
  {
    if tlen == 0 then 0
    else
      var len := PieceLen(job, tlen, pos);
      1 + PieceCount(job, tlen - len, Around(pos + len, job.aperture))
  }

  // With less room than that the entry is left unfinished, and so many fewer pieces are missing; else it is used up.
  lemma {:induction false} PiecesTaken(job: Job, addr: nat, tlen: nat, pos: nat, room: nat)
    requires job.Valid() && pos < job.aperture
    ensures var n := Total(Pieces(job, addr, tlen, pos, room));
      if room < PieceCount(job, tlen, pos) then
        n < tlen && PieceCount(job, tlen - n, Around(pos + n, job.aperture)) == PieceCount(job, tlen, pos) - room
      else n == tlen
    decreases room
  {
    hide Around;
    if tlen == 0 || room == 0 {
      AroundSmall(pos, job.aperture);
    } else {
      var len := PieceLen(job, tlen, pos);
      var next := Around(pos + len, job.aperture);
      var rest := Pieces(job, addr + len, tlen - len, next, room - 1);
      PiecesTaken(job, addr + len, tlen - len, next, room - 1);
      assert Pieces(job, addr, tlen, pos, room)[1..] == rest;
      AroundStep(pos + len, Total(rest), job.aperture);
    }
  }

  /** The room of all passes but the last. */
  function AllButLast(rooms: seq<nat>): nat {
    if |rooms| <= 1 then 0 else rooms[0] + AllButLast(rooms[1..])
  }

  lemma {:induction false} FirstEntryRooms(job: Job, c: Cursor, rooms: seq<nat>, e: nat)
    requires job.Valid() && FieldLengths(job.sgl) && job.sgl != [] && job.aperture == Pow(2, e) && rooms != []
    requires c.sgIdx == 0 && c.offset == c.sgOffset < job.sgl[0].len && SomeRoom(rooms)
    ensures FirstEntryOnly(job, c, rooms) <==>
      AllButLast(rooms) < PieceCount(job, job.sgl[0].len - c.sgOffset, Around(c.offset, job.aperture))
    decreases |rooms|
  {
    hide And, Pieces, Total, Around, Fill, Pass;
    PowersMask(job, c, e);
    var tlen, pos := job.sgl[0].len - c.sgOffset, Around(c.offset, job.aperture);
    if |rooms| == 1 {
    } else {
      var n := Total(Pieces(job, job.sgl[0].addr + c.sgOffset, tlen, pos, rooms[0]));
      PiecesTaken(job, job.sgl[0].addr + c.sgOffset, tlen, pos, rooms[0]);
      FirstPass(job, c, rooms[0]);
      if n < tlen {
        AroundStep(c.offset, n, job.aperture);
        FirstEntryRooms(job, Pass(job, c, rooms[0]).1, rooms[1..], e);
      }
    }
  }

  // Where a pass leaves a cursor that was inside the first entry.
  lemma FirstPass(job: Job, c: Cursor, room: nat)
    requires job.Valid() && FieldLengths(job.sgl) && job.sgl != [] && room >= 1 && MaskWorks(job, c)
    requires c.sgIdx == 0 && c.sgOffset < job.sgl[0].len
    ensures var tlen, pos, e := job.sgl[0].len - c.sgOffset, Around(c.offset, job.aperture), Pass(job, c, room).1;
      var n := Total(Pieces(job, job.sgl[0].addr + c.sgOffset, tlen, pos, room));
      if n < tlen then e == Cursor(c.offset + n, 0, c.sgOffset + n) else e.sgIdx >= 1
  {
    hide Pieces, Total, And, Around;
    var pos := Around(c.offset, job.aperture);
    assert Remaining(job.sgl, 0, c.sgOffset) == job.sgl[0].len - c.sgOffset;
    var ps := Pieces(job, job.sgl[0].addr + c.sgOffset, job.sgl[0].len - c.sgOffset, pos, room);
    FillForward(job, Cursor(c.offset + Total(ps), 1, 0), 1, Around(pos + Total(ps), job.aperture), room - |ps|);
  }

  lemma {:induction false} FillForward(job: Job, c: Cursor, s: nat, pos: nat, room: nat)
    requires job.Valid() && pos < job.aperture && s <= c.sgIdx
    ensures Fill(job, c, s, pos, room).1.sgIdx >= c.sgIdx
    decreases |job.sgl| - c.sgIdx
  {
    hide Pieces, Total, Remaining, Around;
    if c.sgIdx >= |job.sgl| || room == 0 {
    } else {
      var ps := Pieces(job, job.sgl[s].addr + c.sgOffset, Remaining(job.sgl, s, c.sgOffset), pos, room);
      var n := Total(ps);
      FillForward(job, Cursor(c.offset + n, c.sgIdx + 1, 0), s + 1, Around(pos + n, job.aperture), room - |ps|);
    }
  }

  /** The same of the rooms alone, for a fresh request and a power of two: all passes are sound if and only if the rooms
      of all but the last add up to fewer than the pieces of the first entry. */
  lemma RunRoomsIff(job: Job, rooms: seq<nat>, e: nat)
    requires job.Valid() && FieldLengths(job.sgl) && NonEmptyEntries(job.sgl) && job.sgl != []
    requires Distinct(HostBytes(job.sgl)) && job.aperture == Pow(2, e) && rooms != [] && SomeRoom(rooms)
    ensures AllSound(job, Cursor(0, 0, 0), rooms) <==> AllButLast(rooms) < PieceCount(job, job.sgl[0].len, 0)
  {
    hide HostBytes, Distinct, AllSound, FirstEntryOnly;
    var start := Cursor(0, 0, 0);
    assert job.sgl[..0] == [];
    BytesNone();
    RunRightIff(job, start, rooms);
    FirstEntryRooms(job, start, rooms, e);
    AroundSmall(0, job.aperture);
  }

  /** The link loop runs desc_cnt - 1 times, in unsigned arithmetic. */
  function LinkTurns(count: nat): nat {
    (count - 1) % TWO32
  }

  // An entry with something left of it gives a descriptor, one with nothing left is passed over.
  lemma EntryGives(job: Job, c: Cursor, s: nat, pos: nat, room: nat)
    requires job.Valid() && pos < job.aperture && s <= c.sgIdx < |job.sgl| && room >= 1
    ensures if Remaining(job.sgl, s, c.sgOffset) > 0 then Fill(job, c, s, pos, room).0 != []
      else Fill(job, c, s, pos, room).0 == Fill(job, Cursor(c.offset, c.sgIdx + 1, 0), s + 1, pos, room).0
  {
    hide Remaining;
    var tlen := Remaining(job.sgl, s, c.sgOffset);
    PiecesTotal(job, job.sgl[s].addr + c.sgOffset, tlen, pos, room);
    AroundSmall(pos, job.aperture);
  }

  /** A pass without descriptors links past the room it has; this happens if and only if the entries are used up by
      count, or the cursor stands at the end of the only entry left by count. */
  lemma EmptyPassIff(job: Job, c: Cursor, room: nat)
    requires job.Valid() && FieldLengths(job.sgl) && NonEmptyEntries(job.sgl)
    requires c.sgIdx <= |job.sgl| && c.sgOffset < TWO32 && 1 <= room < TWO32 - 1
    ensures var ds := Pass(job, c, room).0;
      && (ds == [] <==> c.sgIdx == |job.sgl| || (c.sgIdx + 1 == |job.sgl| && c.sgOffset == job.sgl[0].len))
      && (ds == [] <==> LinkTurns(|ds|) > room)
  {
    hide And, Pieces, Total;
    var pos := And(c.offset, job.aperture - 1);
    var ds := Pass(job, c, room).0;
    FillRoom(job, c, 0, pos, room);
    assert LinkTurns(|ds|) == if ds == [] then TWO32 - 1 else |ds| - 1;
    if c.sgIdx < |job.sgl| {
      EntryGives(job, c, 0, pos, room);
      assert Remaining(job.sgl, 0, c.sgOffset) == 0 <==> c.sgOffset == job.sgl[0].len;
      if c.sgIdx + 1 < |job.sgl| {
        EntryGives(job, Cursor(c.offset, c.sgIdx + 1, 0), 1, pos, room);
      }
    }
  }

  lemma {:induction false} FillRoom(job: Job, c: Cursor, s: nat, pos: nat, room: nat)
    requires job.Valid() && pos < job.aperture && s <= c.sgIdx
    ensures |Fill(job, c, s, pos, room).0| <= room
    decreases |job.sgl| - c.sgIdx
  {
    hide Pieces, Total, Remaining;
    if c.sgIdx >= |job.sgl| || room == 0 {
    } else {
      var tlen := Remaining(job.sgl, s, c.sgOffset);
      var ps := Pieces(job, job.sgl[s].addr + c.sgOffset, tlen, pos, room);
      if Total(ps) >= tlen {
        var n := Total(ps);
        FillRoom(job, Cursor(c.offset + n, c.sgIdx + 1, 0), s + 1, Around(pos + n, job.aperture), room - |ps|);
      }
    }
  }

  // ------------------------------------------------------------ the passes as written

  /** An aperture request between passes. */
  class ApertureRequest {
    const sgl: seq<SwDesc>
    const base: nat
    const aperture: nat
    var offset: nat
    var sgIdx: nat
    var sgOffset: nat

    constructor (sgl: seq<SwDesc>, base: nat, aperture: nat)
      ensures this.sgl == sgl && this.base == base && this.aperture == aperture
      ensures offset == 0 && sgIdx == 0 && sgOffset == 0
    {
      this.sgl, this.base, this.aperture := sgl, base, aperture;
      offset, sgIdx, sgOffset := 0, 0, 0;
    }

    function JobOf(blenMax: nat): (job: Job)
      ensures job.maxlen <= aperture && job.maxlen <= blenMax && (job.maxlen == aperture || job.maxlen == blenMax)
    {
      Job(sgl, base, aperture, if aperture < blenMax then aperture else blenMax)
    }

    function At(): Cursor
      reads this
    {
      Cursor(offset, sgIdx, sgOffset)
    }

    /** The running device address is position pos of the window, or one past the window where it is about to wrap. */
    predicate Follows(ep: nat, pos: nat) {
      ep == base + pos || (ep == base + aperture && pos == 0)
    }

    /** The inner loop: pieces of one entry until it is used up or the ring is. */
    method EntryPieces(job: Job, before: seq<WindowDesc>, limit: nat, addr0: nat, tlen0: nat, ep0: nat, ghost pos: nat)
      returns (ds: seq<WindowDesc>, used: nat, ep: nat)
      requires job.Valid() && job.base == base && job.aperture == aperture
      requires |before| < limit && pos < aperture && Follows(ep0, pos)
      modifies this`offset
      ensures ds == before + Pieces(job, addr0, tlen0, pos, limit - |before|)
      ensures used == Total(Pieces(job, addr0, tlen0, pos, limit - |before|)) && offset == old(offset) + used
      ensures Follows(ep, Around(pos + used, aperture))
    {
      hide Pieces, Total, Around;
      ghost var all, at: nat := Pieces(job, addr0, tlen0, pos, limit - |before|), pos;
      ds, used, ep := before, 0, ep0;
      var addr: nat, tlen: nat := addr0, tlen0;
      var epMax := base + aperture - 1;
      AroundSmall(pos, aperture);
      while tlen > 0
        invariant |ds| < limit && at < aperture
        invariant ds + Pieces(job, addr, tlen, at, limit - |ds|) == before + all
        invariant used + Total(Pieces(job, addr, tlen, at, limit - |ds|)) == Total(all)
        invariant offset == old(offset) + used && at == Around(pos + used, aperture) && Follows(ep, at)
        decreases tlen
      {
        var len := if tlen < job.maxlen then tlen else job.maxlen;
        if ep > epMax {
          ep := base;
        }
        if ep + len > epMax {
          len := epMax - ep + 1;
        }
        OnePiece(job, ds, addr, tlen, at, limit - |ds|);
        AroundStep(pos + used, len, aperture);
        NextAt(at, len, aperture);
        ds := ds + [WindowDesc(SwDesc(addr, len), ep)];
        at := Around(at + len, aperture);
        used := used + len;
        offset := offset + len;
        ep := ep + len;
        addr := addr + len;
        tlen := tlen - len;
        if |ds| == limit {
          break;
        }
      }
      NoPieces(job, addr, tlen, at, limit - |ds|);
    }

    static lemma OnePiece(job: Job, ds: seq<WindowDesc>, addr: nat, tlen: nat, pos: nat, room: nat)
      requires job.Valid() && pos < job.aperture && tlen > 0 && room > 0
      ensures var len := PieceLen(job, tlen, pos);
        var first := WindowDesc(SwDesc(addr, len), job.base + pos);
        var rest := Pieces(job, addr + len, tlen - len, Around(pos + len, job.aperture), room - 1);
        && ds + Pieces(job, addr, tlen, pos, room) == ds + [first] + rest
        && Total(Pieces(job, addr, tlen, pos, room)) == len + Total(rest)
    {
      hide Around;
      var len := PieceLen(job, tlen, pos);
      assert Pieces(job, addr, tlen, pos, room)[1..]
          == Pieces(job, addr + len, tlen - len, Around(pos + len, job.aperture), room - 1);
    }

    static lemma NoPieces(job: Job, addr: nat, tlen: nat, pos: nat, room: nat)
      requires job.Valid() && pos < job.aperture
      ensures tlen == 0 || room == 0 ==> Pieces(job, addr, tlen, pos, room) == [] && Total([]) == 0
    {
    }

    static lemma NextAt(pos: nat, len: nat, aperture: nat)
      requires pos < aperture && pos + len <= aperture
      ensures Around(pos + len, aperture) == if pos + len == aperture then 0 else pos + len
    {
      var full := pos + len == aperture;
      DivModUnique(pos + len, aperture, if full then 1 else 0, if full then 0 else pos + len);
    }

    /** One pass of the descriptor-building loop is the pass described above, from wherever the request stands; no
        descriptor is longer than blenMax or leaves the window. */
    method BuildPass(descIdx: nat, descMax: nat, blenMax: nat) returns (ds: seq<WindowDesc>)
      requires aperture >= 1 && blenMax >= 1 && descIdx <= descMax
      modifies this
      ensures (ds, At()) == Pass(JobOf(blenMax), old(At()), descMax - descIdx)
      ensures forall i :: 0 <= i < |ds| ==> 1 <= ds[i].piece.len <= blenMax && Inside(ds[i], base, aperture)
    {
      hide Pieces, Total, And, Remaining, Fill, Around;
      var job := JobOf(blenMax);
      ghost var pos: nat := And(offset, aperture - 1);
      var ep: nat := base + And(offset, aperture - 1);
      var limit := descMax - descIdx;
      ghost var whole := Pass(job, At(), limit);
      FillFits(job, At(), 0, pos, limit);
      ds := [];
      assert [] + whole.0 == whole.0;
      var i: nat, s: nat, at: nat := sgIdx, 0, sgOffset;
      while i < |sgl| && |ds| < limit
        invariant i == old(sgIdx) + s && |ds| <= limit && pos < aperture && Follows(ep, pos)
        invariant whole == Onto(ds, Fill(job, Cursor(offset, i, at), s, pos, limit - |ds|))
        decreases |sgl| - i
      {
        var tlen := Remaining(sgl, s, at);
        EntryStep(job, ds, Cursor(offset, i, at), s, pos, limit - |ds|);
        var used;
        ds, used, ep := EntryPieces(job, ds, limit, sgl[s].addr + at, tlen, ep, pos);
        if used < tlen {
          at := at + used;
          break;
        }
        at := 0;
        pos := Around(pos + used, aperture);
        i, s := i + 1, s + 1;
      }
      PassEnds(job, ds, Cursor(offset, i, at), s, pos, limit - |ds|);
      sgOffset := at;
      sgIdx := i;
    }

    /** What is built already, and what a fill adds to it. */
    static function Onto(ds: seq<WindowDesc>, f: (seq<WindowDesc>, Cursor)): (seq<WindowDesc>, Cursor) {
      (ds + f.0, f.1)
    }

    static lemma EntryStep(job: Job, ds: seq<WindowDesc>, c: Cursor, s: nat, pos: nat, room: nat)
      requires job.Valid() && pos < job.aperture && s <= c.sgIdx < |job.sgl| && room > 0
      ensures var tlen := Remaining(job.sgl, s, c.sgOffset);
        var ps := Pieces(job, job.sgl[s].addr + c.sgOffset, tlen, pos, room);
        var n := Total(ps);
        Onto(ds, Fill(job, c, s, pos, room)) ==
          if n < tlen then (ds + ps, Cursor(c.offset + n, c.sgIdx, c.sgOffset + n))
          else
            var next := Cursor(c.offset + n, c.sgIdx + 1, 0);
            Onto(ds + ps, Fill(job, next, s + 1, Around(pos + n, job.aperture), room - |ps|))
    {
      hide Pieces, Total, Remaining;
      var ps := Pieces(job, job.sgl[s].addr + c.sgOffset, Remaining(job.sgl, s, c.sgOffset), pos, room);
      var n := Total(ps);
      var rest := Fill(job, Cursor(c.offset + n, c.sgIdx + 1, 0), s + 1, Around(pos + n, job.aperture), room - |ps|).0;
      assert ds + (ps + rest) == (ds + ps) + rest;
    }

    static lemma PassEnds(job: Job, ds: seq<WindowDesc>, c: Cursor, s: nat, pos: nat, room: nat)
      requires job.Valid() && pos < job.aperture && s <= c.sgIdx
      ensures c.sgIdx >= |job.sgl| || room == 0 ==> Onto(ds, Fill(job, c, s, pos, room)) == (ds, c)
    {
      assert ds + [] == ds;
    }
  }

  // The three passes of the request below.
  lemma PassValues(job: Job, room: nat)
    requires job == Job([SwDesc(1000, 4), SwDesc(5000, 8)], 0, 16, job.maxlen) && job.maxlen >= 4
    ensures Pass(job, Cursor(0, 0, 0), 1) == ([WindowDesc(SwDesc(1000, 4), 0)], Cursor(4, 1, 0))
    ensures room >= 2 ==> Pass(job, Cursor(4, 1, 0), room) == ([WindowDesc(SwDesc(1000, 4), 4)], Cursor(8, 2, 0))
    ensures Pass(job, Cursor(8, 2, 0), room) == ([], Cursor(8, 2, 0))
  {
    assert Pow(2, 4) == 16 by { assert Pow(2, 2) == 4; }
    MaskIsModulo(0, 4);
    MaskIsModulo(4, 4);
    FourBytes(job, 0, 1);
    assert Fill(job, Cursor(4, 1, 0), 1, 4, 0) == ([], Cursor(4, 1, 0));
    if room >= 2 {
      FourBytes(job, 4, room);
      hide Pieces, Total, And;
      assert Fill(job, Cursor(8, 2, 0), 1, 8, room - 1) == ([], Cursor(8, 2, 0));
      assert [WindowDesc(SwDesc(1000, 4), 4)] + [] == [WindowDesc(SwDesc(1000, 4), 4)];
    }
    assert [WindowDesc(SwDesc(1000, 4), 0)] + [] == [WindowDesc(SwDesc(1000, 4), 0)];
  }

  lemma FourBytes(job: Job, pos: nat, room: nat)
    requires job.Valid() && job.base == 0 && job.maxlen >= 4 && room >= 1 && pos + 4 < job.aperture
    ensures Pieces(job, 1000, 4, pos, room) == [WindowDesc(SwDesc(1000, 4), pos)]
    ensures Total([WindowDesc(SwDesc(1000, 4), pos)]) == 4 && Around(pos + 4, job.aperture) == pos + 4
  {
    assert Pieces(job, 1004, 0, Around(pos + 4, job.aperture), room - 1) == [];
  }

  /** A ring of any size with one slot left, entries of 4 and 8 bytes: the first pass takes the first entry, the second
      reads that entry again, and the third finds nothing to build although only 8 of the 12 bytes are accounted for. */
  method ThreePasses(max: nat, blenMax: nat)
    returns (first: seq<WindowDesc>, second: seq<WindowDesc>, third: seq<WindowDesc>, offset: nat)
    requires max >= 2 && blenMax >= 4
    ensures first == [WindowDesc(SwDesc(1000, 4), 0)] && second == [WindowDesc(SwDesc(1000, 4), 4)] && third == []
    ensures offset == 8 < Bytes([SwDesc(1000, 4), SwDesc(5000, 8)])
  {
    hide Pass;
    var req := new ApertureRequest([SwDesc(1000, 4), SwDesc(5000, 8)], 0, 16);
    PassValues(req.JobOf(blenMax), max);
    first := req.BuildPass(max - 1, max, blenMax);
    second := req.BuildPass(0, max, blenMax);
    PassValues(req.JobOf(blenMax), max - 1);
    third := req.BuildPass(1, max, blenMax);
    offset := req.offset;
    assert [SwDesc(1000, 4), SwDesc(5000, 8)][..1][..0] == [];
  }
}
