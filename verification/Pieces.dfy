/** What `xdma_xfer_aperture` does with its scatter list, on values.  A list is copied to or from a small
    window of device memory that is used over and over, byte o of the request going to window position
    o modulo the window size.  Cutting the list into pieces, filling one transfer with them from any
    cursor, which bytes that takes, and exactly when those are the bytes due. */
module Pieces {
  import opened Bits
  import opened Descriptor
  import opened Request
  import opened Hardware
  import opened Chain
  import opened Transfer

  // ---- the simple meaning ----

  /** The k-th of the given bytes has request offset off + k. */
  function ApMoves(addrs: seq<nat>, base: nat, ap: nat, dir: Direction, off: nat): seq<Move>
    requires ap >= 1
  {
    seq(|addrs|, k requires 0 <= k < |addrs| =>
      var e := base + (off + k) % ap;
      if dir.ToDevice? then Move(addrs[k], e) else Move(e, addrs[k]))
  }

  lemma ApAppend(a: seq<nat>, b: seq<nat>, base: nat, ap: nat, dir: Direction, off: nat)
    requires ap >= 1
    ensures ApMoves(a + b, base, ap, dir, off)
         == ApMoves(a, base, ap, dir, off) + ApMoves(b, base, ap, dir, off + |a|)
  {
    var l := ApMoves(a + b, base, ap, dir, off);
    var r := ApMoves(a, base, ap, dir, off) + ApMoves(b, base, ap, dir, off + |a|);
    assert |l| == |r|;
    forall k | 0 <= k < |l| ensures l[k] == r[k] {
      if k >= |a| {
        assert (a + b)[k] == b[k - |a|] && off + k == off + |a| + (k - |a|);
      }
    }
  }

  /** A plain copy that does not reach past the end of the window is an aperture copy. */
  lemma CopyInWindow(piece: Entry, base: nat, ap: nat, dir: Direction, off: nat)
    requires ap >= 1 && off % ap + piece.len <= ap
    ensures CopyMoves(Range(piece), base + off % ap, dir, true) == ApMoves(Range(piece), base, ap, dir, off)
  {
    var q, r := DivModSum(off, ap);
    var l, m := CopyMoves(Range(piece), base + r, dir, true), ApMoves(Range(piece), base, ap, dir, off);
    assert |l| == |m|;
    forall k | 0 <= k < |l| ensures l[k] == m[k] {
      DivModUnique(off + k, ap, q, r + k);
    }
  }

  // ---- cutting ----

  /** What one request works with: the scatter list, the window, and the longest piece. */
  datatype Work = Work(sgl: seq<Entry>, base: nat, ap: nat, maxlen: nat, dir: Direction)

  /** What one descriptor moves: len bytes between bus address addr and endpoint address ep. */
  datatype Piece = Piece(addr: nat, ep: nat, len: nat)

  predicate Sane(w: Work) { 1 <= w.maxlen <= w.ap }

  /** No entry and no sum of lengths wraps, and neither does the window. */
  ghost predicate GoodWork(w: Work) {
    && Sane(w) && w.base + w.ap < U64 && w.ap < U32 && Total(w.sgl) < U32
    && forall i :: 0 <= i < |w.sgl| ==> w.sgl[i].addr + w.sgl[i].len < U64 && w.sgl[i].len < U32
  }

  /** The length of the next piece: what is left, at most maxlen, and not past the end of the window. */
  function PieceLen(w: Work, tlen: nat, off: nat): nat
    requires Sane(w)
  {
    Min(Min(tlen, w.maxlen), w.ap - off % w.ap)
  }

  /** The pieces of tlen bytes at addr, the first of them at request offset off. */
  function Cut(w: Work, addr: nat, tlen: nat, off: nat): seq<Piece>
    requires Sane(w)
    decreases tlen
  {
    if tlen == 0 then []
    else
      var n := PieceLen(w, tlen, off);
      [Piece(addr, w.base + off % w.ap, n)] + Cut(w, (addr + n) % U64, tlen - n, off + n)
  }

  function Bytes(ps: seq<Piece>): nat { if ps == [] then 0 else ps[0].len + Bytes(ps[1..]) }

  /** The bus addresses of the bytes of the pieces. */
  function PieceAddrs(ps: seq<Piece>): seq<nat> {
    if ps == [] then [] else Range(Entry(ps[0].addr, ps[0].len)) + PieceAddrs(ps[1..])
  }

  /** What the hardware moves for the pieces. */
  function PieceMoves(ps: seq<Piece>, dir: Direction, incr: bool): seq<Move> {
    if ps == [] then []
    else CopyMoves(Range(Entry(ps[0].addr, ps[0].len)), ps[0].ep, dir, incr) + PieceMoves(ps[1..], dir, incr)
  }

  /** The pieces follow each other from request offset off on, each where it belongs in the window, of 1
      to maxlen bytes and not past the window's end. */
  ghost predicate InOrder(w: Work, ps: seq<Piece>, off: nat)
    requires Sane(w)
    decreases |ps|
  {
    ps == [] ||
    (&& ps[0].ep == w.base + off % w.ap && 1 <= ps[0].len <= w.maxlen && off % w.ap + ps[0].len <= w.ap
     && ps[0].addr < U64
     && InOrder(w, ps[1..], off + ps[0].len))
  }

  lemma PieceLenBounds(w: Work, tlen: nat, off: nat)
    requires Sane(w) && tlen >= 1
    ensures var n := PieceLen(w, tlen, off);
            && 1 <= n <= tlen && n <= w.maxlen && off % w.ap + n <= w.ap && off % w.ap < w.ap
            && (n == tlen || n == w.maxlen || off % w.ap + n == w.ap)
  {
  }

  /** Cutting: the pieces are in order, hold all the bytes, and each but the last is as long as can be. */
  lemma {:induction false} CutLaw(w: Work, addr: nat, tlen: nat, off: nat)
    requires Sane(w) && addr < U64
    ensures var ps := Cut(w, addr, tlen, off);
            && InOrder(w, ps, off) && Bytes(ps) == tlen && (ps == [] <==> tlen == 0)
            && forall i :: 0 <= i < |ps| - 1 ==> ps[i].len == w.maxlen || ps[i].ep + ps[i].len == w.base + w.ap
    decreases tlen
  {
    hide PieceLen;
    if tlen == 0 {
    } else {
      PieceLenBounds(w, tlen, off);
      var n := PieceLen(w, tlen, off);
      CutLaw(w, (addr + n) % U64, tlen - n, off + n);
      var ps, rest := Cut(w, addr, tlen, off), Cut(w, (addr + n) % U64, tlen - n, off + n);
      assert ps[1..] == rest;
    }
  }

  /** Without wrap-around the pieces hold exactly the bytes at addr. */
  lemma {:induction false} CutAddrs(w: Work, addr: nat, tlen: nat, off: nat)
    requires Sane(w) && addr + tlen < U64
    ensures PieceAddrs(Cut(w, addr, tlen, off)) == Range(Entry(addr, tlen))
    decreases tlen
  {
    hide PieceLen, Range;
    if tlen == 0 {
      NoRange(addr);
    } else {
      PieceLenBounds(w, tlen, off);
      var n := PieceLen(w, tlen, off);
      assert (addr + n) % U64 == addr + n;
      CutAddrs(w, addr + n, tlen - n, off + n);
      assert Cut(w, addr, tlen, off)[1..] == Cut(w, addr + n, tlen - n, off + n);
      RangeSplit(addr, n, tlen - n);
    }
  }

  lemma NoRange(a: nat)
    ensures Range(Entry(a, 0)) == []
  {
  }

  lemma RangeSplit(a: nat, n: nat, m: nat)
    ensures Range(Entry(a, n)) + Range(Entry(a + n, m)) == Range(Entry(a, n + m))
  {
  }

  // ---- facts about lists of pieces ----

  lemma {:induction false} InOrderAppend(w: Work, a: seq<Piece>, b: seq<Piece>, off: nat)
    requires Sane(w) && InOrder(w, a, off) && InOrder(w, b, off + Bytes(a))
    ensures InOrder(w, a + b, off)
  {
    if a == [] {
      assert a + b == b;
    } else {
      assert (a + b)[1..] == a[1..] + b && (a + b)[0] == a[0];
      InOrderAppend(w, a[1..], b, off + a[0].len);
    }
  }

  lemma {:induction false} InOrderPrefix(w: Work, ps: seq<Piece>, n: nat, off: nat)
    requires Sane(w) && n <= |ps| && InOrder(w, ps, off)
    ensures InOrder(w, ps[..n], off)
  {
    if n == 0 {
    } else {
      assert ps[..n][1..] == ps[1..][..n - 1] && ps[..n][0] == ps[0];
      InOrderPrefix(w, ps[1..], n - 1, off + ps[0].len);
    }
  }

  lemma {:induction false} BytesAppend(a: seq<Piece>, b: seq<Piece>)
    ensures Bytes(a + b) == Bytes(a) + Bytes(b)
  {
    if a == [] {
      assert a + b == b;
    } else {
      assert (a + b)[1..] == a[1..] + b;
      BytesAppend(a[1..], b);
    }
  }

  lemma {:induction false} AddrsAppend(a: seq<Piece>, b: seq<Piece>)
    ensures PieceAddrs(a + b) == PieceAddrs(a) + PieceAddrs(b)
  {
    hide Range;
    if a == [] {
      assert a + b == b;
    } else {
      assert (a + b)[1..] == a[1..] + b;
      AddrsAppend(a[1..], b);
      var r := Range(Entry(a[0].addr, a[0].len));
      assert r + (PieceAddrs(a[1..]) + PieceAddrs(b)) == r + PieceAddrs(a[1..]) + PieceAddrs(b);
    }
  }

  lemma {:induction false} AddrsLength(ps: seq<Piece>)
    ensures |PieceAddrs(ps)| == Bytes(ps)
  {
    if ps == [] {
    } else {
      AddrsLength(ps[1..]);
    }
  }

  /** Pieces in order move their bytes as the window wants it. */
  lemma {:induction false} InOrderMoves(w: Work, ps: seq<Piece>, off: nat)
    requires Sane(w) && InOrder(w, ps, off)
    ensures PieceMoves(ps, w.dir, true) == ApMoves(PieceAddrs(ps), w.base, w.ap, w.dir, off)
  {
    hide Range, CopyMoves, ApMoves;
    if ps == [] {
      NoApMoves(w, off);
    } else {
      var e := Entry(ps[0].addr, ps[0].len);
      InOrderMoves(w, ps[1..], off + e.len);
      CopyInWindow(e, w.base, w.ap, w.dir, off);
      RangeLength(e);
      ApAppend(Range(e), PieceAddrs(ps[1..]), w.base, w.ap, w.dir, off);
    }
  }

  lemma NoApMoves(w: Work, off: nat)
    requires Sane(w)
    ensures ApMoves([], w.base, w.ap, w.dir, off) == []
  {
  }

  lemma RangeLength(e: Entry)
    ensures |Range(e)| == e.len
  {
  }

  // ---- one transfer ----

  /** 32-bit unsigned addition. */
  function Plus32(a: nat, b: nat): nat { (a + b) % U32 }

  /** Address and length of the rest of an entry, in 64-bit and 32-bit unsigned arithmetic. */
  function RestAddr(e: Entry, within: nat): nat { (e.addr + within) % U64 }
  function RestLen(e: Entry, within: nat): nat { (e.len - within) % U32 }

  /** The cursor of a request: `sg_idx`, `sg_offset` and `offset`. */
  datatype Cur = Cur(idx: nat, within: nat, offset: nat)

  /** The loop over scatter entries.  The entry position sg and the entry count idx move together, but sg
      starts at the first entry whatever the count; lengths are 32-bit unsigned.  Yields the pieces
      and the entry count and offset at the end. */
  function FillFrom(w: Work, room: nat, sg: nat, idx: nat, within: nat, off: nat): (seq<Piece>, nat, nat)
    requires Sane(w) && sg <= idx
    decreases |w.sgl| - idx
  {
    if idx >= |w.sgl| || room == 0 then ([], idx, within)
    else
      var all := EntryPieces(w, sg, within, off);
      if |all| <= room then
        var (ps, i, o) := FillFrom(w, room - |all|, sg + 1, idx + 1, 0, off + Bytes(all));
        (all + ps, i, o)
      else
        (all[..room], idx, Plus32(within, Bytes(all[..room])))
  }

  /** The pieces of entry sg from byte `within` on. */
  function EntryPieces(w: Work, sg: nat, within: nat, off: nat): seq<Piece>
    requires Sane(w) && sg < |w.sgl|
  {
    Cut(w, RestAddr(w.sgl[sg], within), RestLen(w.sgl[sg], within), off)
  }

  /** The pieces of the next transfer, with room for so many descriptors, and the cursor after it. */
  function Fill(w: Work, room: nat, cur: Cur): (seq<Piece>, Cur)
    requires Sane(w)
  {
    var (ps, i, o) := FillFrom(w, room, 0, cur.idx, cur.within, cur.offset);
    (ps, Cur(i, o, Plus32(cur.offset, Bytes(ps))))
  }

  lemma EntryLaw(w: Work, sg: nat, within: nat, off: nat)
    requires Sane(w) && sg < |w.sgl|
    ensures var ps := EntryPieces(w, sg, within, off);
            && InOrder(w, ps, off) && Bytes(ps) == (w.sgl[sg].len - within) % U32
            && (ps == [] <==> (w.sgl[sg].len - within) % U32 == 0)
  {
    CutLaw(w, (w.sgl[sg].addr + within) % U64, (w.sgl[sg].len - within) % U32, off);
  }

  /** Whatever the cursor, the pieces of a transfer are in order and no more than there is room for. */
  lemma {:induction false} FillInOrder(w: Work, room: nat, sg: nat, idx: nat, within: nat, off: nat)
    requires Sane(w) && sg <= idx
    ensures var ps := FillFrom(w, room, sg, idx, within, off).0;
            InOrder(w, ps, off) && |ps| <= room
    decreases |w.sgl| - idx
  {
    hide EntryPieces;
    if idx >= |w.sgl| || room == 0 {
    } else {
      EntryLaw(w, sg, within, off);
      var all := EntryPieces(w, sg, within, off);
      if |all| <= room {
        FillInOrder(w, room - |all|, sg + 1, idx + 1, 0, off + Bytes(all));
        InOrderAppend(w, all, FillFrom(w, room - |all|, sg + 1, idx + 1, 0, off + Bytes(all)).0, off);
      } else {
        InOrderPrefix(w, all, room, off);
      }
    }
  }

  /** The bytes from position o of entry p of a list. */
  lemma BytesOfEntry(sgl: seq<Entry>, p: nat, o: nat, m: nat)
    requires p < |sgl| && o + m <= sgl[p].len
    ensures var at := Total(sgl[..p]) + o;
            && at + m <= |Addresses(sgl)| && Addresses(sgl)[at..at + m] == Range(Entry(sgl[p].addr + o, m))
    ensures Total(sgl[..p + 1]) == Total(sgl[..p]) + sgl[p].len <= Total(sgl)
  {
    hide Addresses, Total, Range;
    var a, e, b := sgl[..p], sgl[p], sgl[p + 1..];
    assert sgl[..p + 1] == a + [e];
    assert sgl == a + [e] + b;
    AddressesAppend(a + [e], b);
    AddressesAppend(a, [e]);
    TotalAppend(a, [e]);
    TotalAppend(a + [e], b);
    OneEntry(e);
    TotalIsLength(a);
    TotalIsLength(a + [e]);
    TotalIsLength([e]);
    PartOfRange(e, o, m);
  }

  lemma PartOfRange(e: Entry, o: nat, m: nat)
    requires o + m <= e.len
    ensures |Range(e)| == e.len && Range(e)[o..o + m] == Range(Entry(e.addr + o, m))
  {
  }

  /** Inside an entry, its pieces are its remaining bytes; n of them are a prefix of those. */
  lemma EntryBytes(w: Work, sg: nat, within: nat, off: nat, n: nat)
    requires GoodWork(w) && sg < |w.sgl| && within <= w.sgl[sg].len && n <= |EntryPieces(w, sg, within, off)|
    ensures var ps, at := EntryPieces(w, sg, within, off), Total(w.sgl[..sg]) + within;
            var m := Bytes(ps[..n]);
            && Bytes(ps) == w.sgl[sg].len - within && within + m <= w.sgl[sg].len
            && (n < |ps| ==> within + m < w.sgl[sg].len)
            && at + m <= |Addresses(w.sgl)| && PieceAddrs(ps[..n]) == Addresses(w.sgl)[at..at + m]
  {
    hide Cut, Addresses, Total, Range, PieceAddrs, Bytes, InOrder;
    var e := w.sgl[sg];
    DivModUnique(e.len - within, U32, 0, e.len - within);
    DivModUnique(e.addr + within, U64, 0, e.addr + within);
    var ps := EntryPieces(w, sg, within, off);
    CutLaw(w, e.addr + within, e.len - within, off);
    CutAddrs(w, e.addr + within, e.len - within, off);
    assert ps == ps[..n] + ps[n..];
    BytesAppend(ps[..n], ps[n..]);
    AddrsAppend(ps[..n], ps[n..]);
    AddrsLength(ps[..n]);
    BytesOfEntry(w.sgl, sg, within, e.len - within);
    var at, m := Total(w.sgl[..sg]) + within, Bytes(ps[..n]);
    var all := Addresses(w.sgl);
    assert all[at..at + (e.len - within)][..m] == all[at..at + m];
    if n < |ps| {
      SuffixBytes(w, ps, n, off);
    }
  }

  lemma {:induction false} SuffixBytes(w: Work, ps: seq<Piece>, n: nat, off: nat)
    requires Sane(w) && InOrder(w, ps, off) && n < |ps|
    ensures Bytes(ps[n..]) >= 1
  {
    if n == 0 {
      assert ps[0..] == ps;
    } else {
      assert ps[n..] == ps[1..][n - 1..];
      SuffixBytes(w, ps[1..], n - 1, off + ps[0].len);
    }
  }

  // ---- which bytes a transfer takes ----

  /** Entry p, o bytes in, is a place in the list: not at the end of an entry. */
  predicate PlaceIn(sgl: seq<Entry>, p: nat, o: nat) { p <= |sgl| && (o == 0 || (p < |sgl| && o < sgl[p].len)) }

  /** From entry position sg, byte `within`, and entry count idx: the pieces ps are the bytes of the list
      from there on, and count and offset have moved as far as they reach. */
  ghost predicate Took(w: Work, room: nat, sg: nat, idx: nat, within: nat, ps: seq<Piece>, i: nat, o: nat) {
    && sg <= idx <= i <= |w.sgl|
    && var at, m := Total(w.sgl[..sg]) + within, Bytes(ps);
       && at + m <= |Addresses(w.sgl)| && PieceAddrs(ps) == Addresses(w.sgl)[at..at + m]
       && Total(w.sgl[..sg + (i - idx)]) + o == at + m
       && ((i == idx && o == within && ps == []) || PlaceIn(w.sgl, sg + (i - idx), o))
       && (|ps| < room ==> i == |w.sgl|) && (i == |w.sgl| ==> o == if i == idx then within else 0)
  }

  /** As long as `within` is inside the entry pointed to, the loop takes the bytes of the list from there
      on. */
  lemma {:induction false} FillBytes(w: Work, room: nat, sg: nat, idx: nat, within: nat, off: nat)
    requires GoodWork(w) && sg <= idx <= |w.sgl|
    requires if sg < |w.sgl| then within <= w.sgl[sg].len else within == 0
    ensures var (ps, i, o) := FillFrom(w, room, sg, idx, within, off);
            Took(w, room, sg, idx, within, ps, i, o)
    decreases |w.sgl| - idx
  {
    hide FillFrom, EntryPieces, Took, Bytes, GoodWork;
    Sanity(w);
    if idx >= |w.sgl| || room == 0 {
      FillEnd(w, room, sg, idx, within, off);
      TookNothing(w, room, sg, idx, within);
    } else {
      FillStep(w, room, sg, idx, within, off);
      var all := EntryPieces(w, sg, within, off);
      if |all| <= room {
        FillBytes(w, room - |all|, sg + 1, idx + 1, 0, off + Bytes(all));
        var (ps, i, o) := FillFrom(w, room - |all|, sg + 1, idx + 1, 0, off + Bytes(all));
        TookEntry(w, room, sg, idx, within, off, ps, i, o);
      } else {
        TookPart(w, room, sg, idx, within, off);
      }
    }
  }

  lemma Sanity(w: Work)
    requires GoodWork(w)
    ensures Sane(w)
  {
  }

  lemma FillStep(w: Work, room: nat, sg: nat, idx: nat, within: nat, off: nat)
    requires Sane(w) && sg <= idx < |w.sgl| && room > 0
    ensures var all := EntryPieces(w, sg, within, off);
            var r := FillFrom(w, room, sg, idx, within, off);
            if |all| <= room then
              var (ps, i, o) := FillFrom(w, room - |all|, sg + 1, idx + 1, 0, off + Bytes(all));
              r == (all + ps, i, o)
            else
              r == (all[..room], idx, Plus32(within, Bytes(all[..room])))
  {
    hide EntryPieces, Bytes;
  }

  lemma FillEnd(w: Work, room: nat, sg: nat, idx: nat, within: nat, off: nat)
    requires Sane(w) && sg <= idx && (idx >= |w.sgl| || room == 0)
    ensures FillFrom(w, room, sg, idx, within, off) == ([], idx, within)
  {
  }

  lemma TookNothing(w: Work, room: nat, sg: nat, idx: nat, within: nat)
    requires sg <= idx <= |w.sgl| && (if sg < |w.sgl| then within <= w.sgl[sg].len else within == 0)
    requires idx == |w.sgl| || room == 0
    ensures Took(w, room, sg, idx, within, [], idx, within)
  {
    hide Addresses, Total;
    TotalIsLength(w.sgl);
    PrefixInside(w.sgl, sg, within);
    NothingCut(w);
  }

  lemma TookEntry(w: Work, room: nat, sg: nat, idx: nat, within: nat, off: nat, ps: seq<Piece>, i: nat, o: nat)
    requires GoodWork(w) && sg <= idx < |w.sgl| && within <= w.sgl[sg].len
    requires |EntryPieces(w, sg, within, off)| <= room
    requires Took(w, room - |EntryPieces(w, sg, within, off)|, sg + 1, idx + 1, 0, ps, i, o)
    ensures Took(w, room, sg, idx, within, EntryPieces(w, sg, within, off) + ps, i, o)
  {
    hide EntryPieces, Addresses, Total, PieceAddrs, Bytes, InOrder;
    var all := EntryPieces(w, sg, within, off);
    EntryBytes(w, sg, within, off, |all|);
    BytesOfEntry(w.sgl, sg, 0, 0);
    assert all[..|all|] == all;
    BytesAppend(all, ps);
    AddrsAppend(all, ps);
    JoinSlices(Addresses(w.sgl), Total(w.sgl[..sg]) + within, Bytes(all), Bytes(ps));
  }

  lemma TookPart(w: Work, room: nat, sg: nat, idx: nat, within: nat, off: nat)
    requires GoodWork(w) && sg <= idx < |w.sgl| && within <= w.sgl[sg].len
    requires |EntryPieces(w, sg, within, off)| > room
    ensures var ps := EntryPieces(w, sg, within, off)[..room];
            Took(w, room, sg, idx, within, ps, idx, (within + Bytes(ps)) % U32)
  {
    hide EntryPieces, Addresses, Total, PieceAddrs, Bytes, InOrder;
    EntryBytes(w, sg, within, off, room);
    var m := Bytes(EntryPieces(w, sg, within, off)[..room]);
    DivModUnique(within + m, U32, 0, within + m);
  }

  lemma JoinSlices(a: seq<nat>, at: nat, m: nat, n: nat)
    requires at + m + n <= |a|
    ensures a[at..at + m] + a[at + m..at + m + n] == a[at..at + (m + n)]
  {
  }

  lemma PrefixInside(sgl: seq<Entry>, sg: nat, within: nat)
    requires sg <= |sgl| && (if sg < |sgl| then within <= sgl[sg].len else within == 0)
    ensures Total(sgl[..sg]) + within <= Total(sgl)
  {
    hide Total;
    if sg < |sgl| {
      BytesOfEntry(sgl, sg, within, 0);
    } else {
      assert sgl[..sg] == sgl;
    }
  }

  lemma NothingCut(w: Work)
    ensures Bytes([]) == 0 && PieceAddrs([]) == []
  {
  }

  // ---- all pieces of a request ----

  /** The pieces of the list from byte `within` of entry sg on. */
  function Rest(w: Work, sg: nat, within: nat, off: nat): seq<Piece>
    requires Sane(w)
    decreases |w.sgl| - sg
  {
    if sg >= |w.sgl| then []
    else var all := EntryPieces(w, sg, within, off); all + Rest(w, sg + 1, 0, off + Bytes(all))
  }

  /** With position and count together, the loop takes as many of them as there is room for. */
  lemma {:induction false} FillIsPrefix(w: Work, room: nat, sg: nat, within: nat, off: nat)
    requires Sane(w)
    ensures var ps, all := FillFrom(w, room, sg, sg, within, off).0, Rest(w, sg, within, off);
            ps == if |all| <= room then all else all[..room]
    decreases |w.sgl| - sg
  {
    hide EntryPieces, Bytes;
    if sg >= |w.sgl| || room == 0 {
      assert Rest(w, sg, within, off)[..0] == [];
    } else {
      var all := EntryPieces(w, sg, within, off);
      if |all| <= room {
        FillIsPrefix(w, room - |all|, sg + 1, 0, off + Bytes(all));
        var rest := Rest(w, sg + 1, 0, off + Bytes(all));
        if |rest| > room - |all| {
          assert (all + rest)[..room] == all + rest[..room - |all|];
        }
      } else {
        assert (all + Rest(w, sg + 1, 0, off + Bytes(all)))[..room] == all[..room];
      }
    }
  }

  /** Cutting may be interrupted anywhere. */
  lemma {:induction false} CutResume(w: Work, addr: nat, tlen: nat, off: nat, n: nat)
    requires Sane(w) && addr < U64 && n <= |Cut(w, addr, tlen, off)|
    ensures var ps := Cut(w, addr, tlen, off);
            var m := Bytes(ps[..n]);
            m <= tlen && ps[n..] == Cut(w, (addr + m) % U64, tlen - m, off + m)
    decreases tlen
  {
    hide PieceLen, Cut;
    var ps := Cut(w, addr, tlen, off);
    if n == 0 {
      assert ps[0..] == ps;
    } else {
      CutStep(w, addr, tlen, off);
      var k := PieceLen(w, tlen, off);
      var rest := Cut(w, (addr + k) % U64, tlen - k, off + k);
      CutResume(w, (addr + k) % U64, tlen - k, off + k, n - 1);
      assert ps[..n] == [ps[0]] + rest[..n - 1] && ps[n..] == rest[n - 1..];
      assert ps[..n][1..] == rest[..n - 1];
      WrapTwice(addr, k, Bytes(rest[..n - 1]));
    }
  }

  lemma CutStep(w: Work, addr: nat, tlen: nat, off: nat)
    requires Sane(w) && Cut(w, addr, tlen, off) != []
    ensures tlen >= 1
    ensures var n := PieceLen(w, tlen, off);
            && 1 <= n <= tlen
            && Cut(w, addr, tlen, off) ==
                 [Piece(addr, w.base + off % w.ap, n)] + Cut(w, (addr + n) % U64, tlen - n, off + n)
  {
    if tlen == 0 {
    } else {
      PieceLenBounds(w, tlen, off);
    }
  }

  lemma WrapTwice(a: nat, k: nat, m: nat)
    ensures ((a + k) % U64 + m) % U64 == (a + (k + m)) % U64
  {
  }

  // ---- when those are the bytes due ----

  /** A cursor that correct transfers leave when something is still to do: at byte `within` of entry
      idx, with the offset to match. */
  ghost predicate Reachable(w: Work, cur: Cur) {
    && cur.idx < |w.sgl| && PlaceIn(w.sgl, cur.idx, cur.within)
    && cur.offset == Total(w.sgl[..cur.idx]) + cur.within < Total(w.sgl)
    && (cur.idx > 0 ==> cur.offset > 0)
  }

  /** The pieces are not none, and are the bytes of the list from the cursor's offset on. */
  ghost predicate Due(w: Work, ps: seq<Piece>, cur: Cur) {
    && ps != [] && cur.offset + Bytes(ps) <= |Addresses(w.sgl)|
    && PieceAddrs(ps) == Addresses(w.sgl)[cur.offset..cur.offset + Bytes(ps)]
  }

  /** The list names no byte twice, and no two of its entries start at the same address. */
  ghost predicate Separate(sgl: seq<Entry>) {
    && (forall i, j :: 0 <= i < j < |Addresses(sgl)| ==> Addresses(sgl)[i] != Addresses(sgl)[j])
    && (forall i, j :: 0 <= i < j < |sgl| ==> sgl[i].addr != sgl[j].addr)
  }

  lemma StartReachable(w: Work)
    requires Total(w.sgl) > 0
    ensures Reachable(w, Cur(0, 0, 0))
  {
  }

  lemma SomeBytes(w: Work, room: nat, cur: Cur)
    requires Sane(w)
    ensures var ps := Fill(w, room, cur).0;
            InOrder(w, ps, cur.offset) && |ps| <= room && (ps != [] <==> Bytes(ps) >= 1)
  {
    hide FillFrom, InOrder;
    FillInOrder(w, room, 0, cur.idx, cur.within, cur.offset);
    var ps := Fill(w, room, cur).0;
    if ps != [] {
      SuffixBytes(w, ps, 0, cur.offset);
      assert ps[0..] == ps;
    }
  }

  /** A transfer that starts in the first entry takes the bytes due and leaves a cursor to match; short of
      the end it has filled its room. */
  lemma FirstEntryIsRight(w: Work, room: nat, cur: Cur)
    requires GoodWork(w) && Reachable(w, cur) && cur.idx == 0 && room >= 1
    ensures var (ps, cur') := Fill(w, room, cur);
            && Due(w, ps, cur) && cur'.offset == cur.offset + Bytes(ps) <= Total(w.sgl)
            && (cur'.offset < Total(w.sgl) ==> Reachable(w, cur') && |ps| == room)
  {
    hide FillFrom, Addresses, PieceAddrs, Total, InOrder, Bytes;
    var (ps, i, o) := FillFrom(w, room, 0, 0, cur.within, cur.offset);
    FillBytes(w, room, 0, 0, cur.within, cur.offset);
    EmptyTotal(w.sgl[..0]);
    TotalIsLength(w.sgl);
    SomeBytes(w, room, cur);
    assert w.sgl[..|w.sgl|] == w.sgl;
    var m := Bytes(ps);
    NothingCut(w);
    DivModUnique(cur.offset + m, U32, 0, cur.offset + m);
  }

  /** The first byte taken when the offset is past the end of the first entry: the unsigned subtraction
      wraps, and the transfer starts beyond the entry. */
  lemma WrappedStart(w: Work, room: nat, cur: Cur)
    requires GoodWork(w) && Reachable(w, cur) && room >= 1 && cur.within > w.sgl[0].len
    ensures var ps := Fill(w, room, cur).0;
            ps != [] && PieceAddrs(ps) != [] && PieceAddrs(ps)[0] == (w.sgl[0].addr + cur.within) % U64
  {
    hide FillFrom, Addresses, Total, InOrder, Bytes;
    FillStep(w, room, 0, cur.idx, cur.within, cur.offset);
    BytesOfEntry(w.sgl, cur.idx, cur.within, 0);
    var tlen := (w.sgl[0].len - cur.within) % U32;
    DivModUnique(w.sgl[0].len - cur.within, U32, -1, U32 + w.sgl[0].len - cur.within);
    PieceLenBounds(w, tlen, cur.offset);
    var all, ps := EntryPieces(w, 0, cur.within, cur.offset), Fill(w, room, cur).0;
    assert all[0].addr == (w.sgl[0].addr + cur.within) % U64;
    assert ps[0] == all[0] && ps[0].len >= 1;
  }

  /** Of the cursors that correct transfers leave, exactly those still in the first entry let the next
      transfer take the bytes due: the entry position is never moved on, so every other transfer starts
      over at the first entry, beyond it, or takes nothing at all. */
  lemma RightExactlyWhen(w: Work, room: nat, cur: Cur)
    requires GoodWork(w) && Reachable(w, cur) && room >= 1 && Separate(w.sgl)
    ensures Due(w, Fill(w, room, cur).0, cur) <==> cur.idx == 0
  {
    hide FillFrom, Addresses, PieceAddrs, Total, InOrder, Bytes;
    if cur.idx == 0 {
      FirstEntryIsRight(w, room, cur);
    } else {
      var ps := Fill(w, room, cur).0;
      TotalIsLength(w.sgl);
      SomeBytes(w, room, cur);
      AddrsLength(ps);
      if cur.within <= w.sgl[0].len {
        FillBytes(w, room, 0, cur.idx, cur.within, cur.offset);
        EmptyTotal(w.sgl[..0]);
        NotAtStart(w, cur);
        if ps != [] {
          NotDue(w, ps, cur, Addresses(w.sgl)[cur.within]);
        }
      } else {
        WrappedStart(w, room, cur);
        BytesOfEntry(w.sgl, cur.idx, cur.within, 1);
        FirstOf(Addresses(w.sgl), cur.offset, w.sgl[cur.idx].addr + cur.within);
        NotDue(w, ps, cur, (w.sgl[0].addr + cur.within) % U64);
      }
    }
  }

  lemma NotDue(w: Work, ps: seq<Piece>, cur: Cur, x: nat)
    requires PieceAddrs(ps) != [] && PieceAddrs(ps)[0] == x
    requires cur.offset < |Addresses(w.sgl)| && Addresses(w.sgl)[cur.offset] != x
    ensures !Due(w, ps, cur)
  {
    hide Addresses, PieceAddrs, Bytes;
  }

  lemma FirstOf(a: seq<nat>, at: nat, x: nat)
    requires at + 1 <= |a| && a[at..at + 1] == Range(Entry(x, 1))
    ensures a[at] == x
  {
    assert a[at] == a[at..at + 1][0];
  }

  lemma NotAtStart(w: Work, cur: Cur)
    requires GoodWork(w) && Reachable(w, cur) && cur.idx > 0 && cur.within <= w.sgl[0].len
    ensures cur.within < cur.offset
  {
    hide Total;
    EmptyTotal(w.sgl[..0]);
    BytesOfEntry(w.sgl, 0, 0, 0);
    PrefixMore(w.sgl, 1, cur.idx);
  }

  lemma {:induction false} PrefixMore(sgl: seq<Entry>, i: nat, j: nat)
    requires i <= j <= |sgl|
    ensures Total(sgl[..i]) <= Total(sgl[..j])
    decreases j
  {
    hide Total;
    if i == j {
    } else {
      PrefixMore(sgl, i, j - 1);
      BytesOfEntry(sgl, j - 1, 0, 0);
    }
  }

  // ---- when a whole call is right ----

  /** What a caller can work out beforehand: d pieces in all, the first d1 of them of the first entry, the
      first transfer having room for `room`, every later one for N.  Every transfer but the last ends
      inside the first entry. */
  predicate InFirst(d: nat, d1: nat, room: nat, N: nat)
    requires room >= 1 && N >= 1
    decreases d
  {
    d <= room || (room < d1 && InFirst(d - room, d1 - room, N, N))
  }

  function PiecesLeft(w: Work, cur: Cur): nat
    requires Sane(w)
  {
    |Rest(w, 0, cur.within, cur.offset)|
  }

  function PiecesOfFirst(w: Work, cur: Cur): nat
    requires Sane(w)
  {
    if w.sgl == [] then 0 else |EntryPieces(w, 0, cur.within, cur.offset)|
  }

  /** Every transfer from the cursor on takes the bytes due. */
  ghost predicate CallRight(w: Work, N: nat, s: nat, cur: Cur)
    requires Sane(w) && s < N
    decreases Total(w.sgl) - cur.offset
  {
    cur.offset >= Total(w.sgl) ||
    (var (ps, cur') := Fill(w, N - s, cur);
     Due(w, ps, cur) && cur'.offset > cur.offset && CallRight(w, N, (s + |ps|) % N, cur'))
  }

  lemma RestLaw(w: Work, cur: Cur)
    requires GoodWork(w) && Reachable(w, cur) && cur.idx == 0
    ensures var all := Rest(w, 0, cur.within, cur.offset);
            InOrder(w, all, cur.offset) && cur.offset + Bytes(all) == Total(w.sgl)
  {
    hide FillFrom, Addresses, PieceAddrs, Total, InOrder, Bytes, Rest, EntryPieces;
    var all := Rest(w, 0, cur.within, cur.offset);
    var room := |all| + 1;
    FillIsPrefix(w, room, 0, cur.within, cur.offset);
    FillInOrder(w, room, 0, 0, cur.within, cur.offset);
    FillBytes(w, room, 0, 0, cur.within, cur.offset);
    EmptyTotal(w.sgl[..0]);
    assert w.sgl[..|w.sgl|] == w.sgl;
  }

  /** A transfer with room for all pieces left ends the request. */
  lemma LastTransfer(w: Work, room: nat, cur: Cur)
    requires GoodWork(w) && Reachable(w, cur) && cur.idx == 0 && room >= 1
    ensures var (ps, cur') := Fill(w, room, cur);
            && |ps| == Min(room, PiecesLeft(w, cur))
            && (PiecesLeft(w, cur) <= room <==> cur'.offset == Total(w.sgl))
  {
    hide FillFrom, Total, InOrder, Bytes, Rest, EntryPieces;
    FillIsPrefix(w, room, 0, cur.within, cur.offset);
    RestLaw(w, cur);
    FirstEntryIsRight(w, room, cur);
    var all := Rest(w, 0, cur.within, cur.offset);
    if |all| > room {
      assert all == all[..room] + all[room..];
      BytesAppend(all[..room], all[room..]);
      SuffixBytes(w, all, room, cur.offset);
    }
  }

  /** A transfer that ends inside the first entry leaves the pieces not yet taken. */
  lemma StillInFirst(w: Work, room: nat, cur: Cur)
    requires GoodWork(w) && Reachable(w, cur) && cur.idx == 0 && 1 <= room < PiecesOfFirst(w, cur)
    ensures var cur' := Fill(w, room, cur).1;
            && cur'.idx == 0 && Reachable(w, cur')
            && PiecesOfFirst(w, cur') == PiecesOfFirst(w, cur) - room
            && PiecesLeft(w, cur') == PiecesLeft(w, cur) - room
  {
    hide FillFrom, Total, InOrder, Bytes, Addresses, PieceAddrs, Cut;
    FillStep(w, room, 0, 0, cur.within, cur.offset);
    EmptyTotal(w.sgl[..0]);
    var e, all := w.sgl[0], EntryPieces(w, 0, cur.within, cur.offset);
    EntryBytes(w, 0, cur.within, cur.offset, room);
    var m := Bytes(all[..room]);
    BytesOfEntry(w.sgl, 0, cur.within, 0);
    DivModUnique(cur.within + m, U32, 0, cur.within + m);
    DivModUnique(cur.offset + m, U32, 0, cur.offset + m);
    DivModUnique(e.len - cur.within, U32, 0, e.len - cur.within);
    DivModUnique(e.len - (cur.within + m), U32, 0, e.len - (cur.within + m));
    DivModUnique(e.addr + cur.within, U64, 0, e.addr + cur.within);
    CutResume(w, e.addr + cur.within, e.len - cur.within, cur.offset, room);
    assert EntryPieces(w, 0, cur.within + m, cur.offset + m) == all[room..];
    assert all == all[..room] + all[room..];
    BytesAppend(all[..room], all[room..]);
  }

  /** A transfer that gets past the first entry without ending the request leaves a cursor past it. */
  lemma PastFirst(w: Work, room: nat, cur: Cur)
    requires GoodWork(w) && Reachable(w, cur) && cur.idx == 0
    requires 1 <= room && PiecesOfFirst(w, cur) <= room < PiecesLeft(w, cur)
    ensures var cur' := Fill(w, room, cur).1;
            cur'.idx >= 1 && Reachable(w, cur')
  {
    hide FillFrom, Total, InOrder, Bytes, Addresses, PieceAddrs, Rest, EntryPieces, Took;
    FirstEntryIsRight(w, room, cur);
    LastTransfer(w, room, cur);
    FillStep(w, room, 0, 0, cur.within, cur.offset);
    var all := EntryPieces(w, 0, cur.within, cur.offset);
    FillBytes(w, room - |all|, 1, 1, 0, cur.offset + Bytes(all));
    var (ps, i, o) := FillFrom(w, room - |all|, 1, 1, 0, cur.offset + Bytes(all));
    CountMoves(w, room - |all|, ps, i, o);
  }

  lemma CountMoves(w: Work, room: nat, ps: seq<Piece>, i: nat, o: nat)
    requires Took(w, room, 1, 1, 0, ps, i, o)
    ensures i >= 1
  {
  }

  /** Every transfer of a call takes the bytes due exactly if every transfer but the last ends inside the
      first entry. */
  lemma {:induction false} CallRightExactlyWhen(w: Work, N: nat, s: nat, cur: Cur)
    requires GoodWork(w) && Reachable(w, cur) && cur.idx == 0 && s < N && Separate(w.sgl)
    ensures CallRight(w, N, s, cur) <==> InFirst(PiecesLeft(w, cur), PiecesOfFirst(w, cur), N - s, N)
    decreases PiecesLeft(w, cur)
  {
    hide Fill, Total, PiecesLeft, PiecesOfFirst, Reachable, Due, GoodWork, Separate, Bytes;
    Sanity(w);
    var room, d, d1 := N - s, PiecesLeft(w, cur), PiecesOfFirst(w, cur);
    var (ps, cur') := Fill(w, room, cur);
    FirstEntryIsRight(w, room, cur);
    LastTransfer(w, room, cur);
    SomeBytes(w, room, cur);
    OffsetBelow(w, cur);
    DueMeans(w, ps, cur);
    if d <= room {
    } else {
      DivModUnique(s + room, N, 1, 0);
      if room < d1 {
        StillInFirst(w, room, cur);
        CallRightExactlyWhen(w, N, 0, cur');
      } else {
        PastFirst(w, room, cur);
        RightExactlyWhen(w, N, cur');
        OffsetBelow(w, cur');
      }
    }
  }

  lemma OffsetBelow(w: Work, cur: Cur)
    requires Reachable(w, cur)
    ensures cur.offset < Total(w.sgl)
  {
    hide Total;
  }

  lemma DueMeans(w: Work, ps: seq<Piece>, cur: Cur)
    requires Due(w, ps, cur)
    ensures ps != []
  {
    hide Addresses, PieceAddrs, Bytes;
  }

  lemma CutNotEmpty(w: Work, addr: nat, tlen: nat, off: nat)
    requires Sane(w)
    ensures Cut(w, addr, tlen, off) == [] <==> tlen == 0
  {
  }

  lemma BytesOne(x: Piece)
    ensures Bytes([x]) == x.len
  {
    assert Bytes([x][1..]) == 0;
  }

  // ---- how it goes wrong ----

  /** Two scatter entries of the given lengths, a window of eight. */
  function TwoEntries(a: nat, b: nat): Work { Work([Entry(0x1000, a), Entry(0x2000, b)], 0, 8, 8, ToDevice) }

  /** One full piece at the start of the window. */
  lemma CutEight(w: Work, addr: nat, tlen: nat, off: nat)
    requires w.base == 0 && w.ap == w.maxlen == 8 && off % 8 == 0 && tlen >= 8
    ensures Cut(w, addr, tlen, off) == [Piece(addr, 0, 8)] + Cut(w, (addr + 8) % U64, tlen - 8, off + 8)
  {
    hide Cut;
    CutNotEmpty(w, addr, tlen, off);
    CutStep(w, addr, tlen, off);
  }

  lemma CutNone(w: Work, addr: nat, off: nat)
    requires Sane(w)
    ensures Cut(w, addr, 0, off) == []
  {
  }

  /** Lengths 8 and 8, a ring of one descriptor: the second transfer, due to carry the second entry,
      carries the first one again. */
  lemma RestartsAtFirst()
    ensures Fill(TwoEntries(8, 8), 1, Cur(0, 0, 0)) == ([Piece(0x1000, 0, 8)], Cur(1, 0, 8))
    ensures Fill(TwoEntries(8, 8), 1, Cur(1, 0, 8)) == ([Piece(0x1000, 0, 8)], Cur(2, 0, 16))
  {
    hide Cut, FillFrom, Bytes;
    var w, p := TwoEntries(8, 8), [Piece(0x1000, 0, 8)];
    CutEight(w, 0x1000, 8, 0);
    CutEight(w, 0x1000, 8, 8);
    CutNone(w, 0x1008, 8);
    CutNone(w, 0x1008, 16);
    BytesOne(p[0]);
    FillStep(w, 1, 0, 0, 0, 0);
    FillEnd(w, 0, 1, 1, 0, 8);
    FillStep(w, 1, 0, 1, 0, 8);
    FillEnd(w, 0, 1, 2, 0, 16);
    assert p + [] == p;
  }

  /** Lengths 8 and 24, a ring of two: the second transfer takes nothing at all, with sixteen bytes left. */
  lemma TakesNothing()
    ensures Fill(TwoEntries(8, 24), 2, Cur(0, 0, 0)).1 == Cur(1, 8, 16)
    ensures Fill(TwoEntries(8, 24), 2, Cur(1, 8, 16)).0 == []
  {
    hide Cut, FillFrom, Bytes;
    var w, p, q := TwoEntries(8, 24), [Piece(0x1000, 0, 8)], [Piece(0x2000, 0, 8)];
    CutEight(w, 0x1000, 8, 0);
    CutNone(w, 0x1008, 8);
    BytesOne(p[0]);
    BytesOne(q[0]);
    assert EntryPieces(w, 0, 0, 0) == p;
    FillStep(w, 2, 0, 0, 0, 0);
    CutEight(w, 0x2000, 24, 8);
    CutEight(w, 0x2008, 16, 16);
    var all := EntryPieces(w, 1, 0, 8);
    assert all[..1] == q && |all| > 1;
    FillStep(w, 1, 1, 1, 0, 8);
    assert FillFrom(w, 1, 1, 1, 0, 8) == (q, 1, 8);
    assert FillFrom(w, 2, 0, 0, 0, 0) == (p + q, 1, 8);
    BytesAppend(p, q);
    CutNone(w, 0x1008, 16);
    FillStep(w, 2, 0, 1, 8, 16);
    NothingCut(w);
    FillEnd(w, 2, 1, 2, 0, 16);
  }

  /** Lengths 0 and 16, a ring of one: the second transfer, due at 0x2008, starts past the end of the empty
      first entry. */
  lemma StartsPastFirst()
    ensures Fill(TwoEntries(0, 16), 1, Cur(0, 0, 0)).1 == Cur(1, 8, 8)
    ensures Fill(TwoEntries(0, 16), 1, Cur(1, 8, 8)).0 == [Piece(0x1008, 0, 8)]
  {
    hide Cut, FillFrom, Bytes;
    var w, q := TwoEntries(0, 16), [Piece(0x2000, 0, 8)];
    CutNone(w, 0x1000, 0);
    NothingCut(w);
    FillStep(w, 1, 0, 0, 0, 0);
    CutEight(w, 0x2000, 16, 0);
    CutEight(w, 0x2008, 8, 8);
    var all := EntryPieces(w, 1, 0, 0);
    assert all[..1] == q && |all| > 1;
    BytesOne(q[0]);
    FillStep(w, 1, 1, 1, 0, 0);
    assert [] + q == q;
    var tlen := (0 - 8) % U32;
    CutEight(w, 0x1008, tlen, 8);
    CutEight(w, 0x1010, tlen - 8, 16);
    assert EntryPieces(w, 0, 8, 8)[..1] == [Piece(0x1008, 0, 8)];
    FillStep(w, 1, 0, 1, 8, 8);
  }
}
