/** The chains `xdma_xfer_aperture` lays out for its pieces, what the hardware does with them, and a whole
    call on values. */
module ApertureCall {
  import opened Bits
  import opened Descriptor
  import opened Request
  import opened Hardware
  import opened Chain
  import opened Carve
  import opened Transfer
  import opened Wait
  import opened Submit
  import opened Pieces
  import E = EngineModel

  // ---- the descriptors of a transfer ----

  /** Descriptor i of the chain for the pieces ps, laid out from bus address chainBus. */
  function PieceDesc(ps: seq<Piece>, dir: Direction, chainBus: nat, i: nat): Desc
    requires i < |ps|
  {
    var (src, dst) := if dir.ToDevice? then (ps[i].addr, ps[i].ep) else (ps[i].ep, ps[i].addr);
    var next := NextAddr(chainBus, |ps|, i);
    Desc(ChainControl(chainBus, |ps|, i), ps[i].len % U32,
         DmaLo(src), DmaHi(src), DmaLo(dst), DmaHi(dst), DmaLo(next), DmaHi(next))
  }

  /** The ring after that chain has been laid out from index s. */
  function LayPieces(ring: seq<Desc>, base: nat, s: nat, ps: seq<Piece>, dir: Direction): (r: seq<Desc>)
    ensures |r| == |ring|
  {
    seq(|ring|, j requires 0 <= j < |ring| =>
      if s <= j < s + |ps| then PieceDesc(ps, dir, base + DESC_SIZE * s, j - s) else ring[j])
  }

  /** Addresses and lengths that the descriptor words can hold. */
  ghost predicate Storable(ps: seq<Piece>) {
    forall i :: 0 <= i < |ps| ==> ps[i].addr < U64 && ps[i].ep < U64 && ps[i].len < U32
  }

  lemma {:induction false} InOrderStorable(w: Work, ps: seq<Piece>, off: nat)
    requires GoodWork(w) && InOrder(w, ps, off)
    ensures Storable(ps)
  {
    hide Total;
    if ps == [] {
    } else {
      InOrderStorable(w, ps[1..], off + ps[0].len);
      assert forall i :: 0 < i < |ps| ==> ps[i] == ps[1..][i - 1];
    }
  }

  lemma PieceDescMoves(ps: seq<Piece>, dir: Direction, incr: bool, chainBus: nat, i: nat)
    requires i < |ps| && Storable(ps)
    ensures DescMoves(PieceDesc(ps, dir, chainBus, i), dir, incr)
         == CopyMoves(Range(Entry(ps[i].addr, ps[i].len)), ps[i].ep, dir, incr)
  {
    hide DmaLo, DmaHi, ChainControl, NextAddr, DescMoves, CopyMoves, Range;
    JoinSplit(ps[i].addr);
    JoinSplit(ps[i].ep);
    MovesAre(PieceDesc(ps, dir, chainBus, i), Entry(ps[i].addr, ps[i].len), ps[i].ep, dir, incr);
  }

  lemma {:induction false} PieceMovesSnoc(ps: seq<Piece>, x: Piece, dir: Direction, incr: bool)
    ensures PieceMoves(ps + [x], dir, incr)
         == PieceMoves(ps, dir, incr) + CopyMoves(Range(Entry(x.addr, x.len)), x.ep, dir, incr)
  {
    hide CopyMoves, Range;
    var m := CopyMoves(Range(Entry(x.addr, x.len)), x.ep, dir, incr);
    if ps == [] {
      assert ps + [x] == [x] && [x][1..] == [];
      assert PieceMoves([x], dir, incr) == m + PieceMoves([x][1..], dir, incr);
    } else {
      assert (ps + [x])[1..] == ps[1..] + [x];
      PieceMovesSnoc(ps[1..], x, dir, incr);
      var h := CopyMoves(Range(Entry(ps[0].addr, ps[0].len)), ps[0].ep, dir, incr);
      assert h + (PieceMoves(ps[1..], dir, incr) + m) == h + PieceMoves(ps[1..], dir, incr) + m;
    }
  }

  lemma {:induction false} WindowMoves(ring: seq<Desc>, s: nat, ps: seq<Piece>, dir: Direction, incr: bool,
                                       base: nat, n: nat)
    requires n <= |ps| && s + |ps| <= |ring| && Storable(ps)
    requires forall j :: s <= j < s + |ps| ==> ring[j] == PieceDesc(ps, dir, base + DESC_SIZE * s, j - s)
    ensures MovesSeq(ring[s..s + n], dir, incr) == PieceMoves(ps[..n], dir, incr)
    decreases n
  {
    hide DescMoves, CopyMoves, PieceDesc, MovesSeq, PieceMoves, Range;
    if n == 0 {
      NoPieceMoves(ring[s..s], ps[..0], dir, incr);
    } else {
      WindowMoves(ring, s, ps, dir, incr, base, n - 1);
      assert ring[s..s + n] == ring[s..s + (n - 1)] + [ring[s + n - 1]];
      MovesSnoc(ring[s..s + (n - 1)], ring[s + n - 1], dir, incr);
      PieceDescMoves(ps, dir, incr, base + DESC_SIZE * s, n - 1);
      assert ring[s + n - 1] == PieceDesc(ps, dir, base + DESC_SIZE * s, n - 1);
      assert ps[..n] == ps[..n - 1] + [ps[n - 1]];
      PieceMovesSnoc(ps[..n - 1], ps[n - 1], dir, incr);
    }
  }

  lemma NoPieceMoves(ds: seq<Desc>, ps: seq<Piece>, dir: Direction, incr: bool)
    requires ds == [] && ps == []
    ensures MovesSeq(ds, dir, incr) == [] == PieceMoves(ps, dir, incr)
  {
  }

  /** Starting the hardware on that chain moves the bytes of the pieces. */
  lemma LaidPieceMoves(ring: seq<Desc>, base: nat, s: nat, ps: seq<Piece>, dir: Direction, incr: bool)
    requires GoodBase(base, |ring|) && s + |ps| <= |ring| && ps != [] && Storable(ps)
    ensures ChainMoves(LayPieces(ring, base, s, ps, dir), base, s, |ps|, dir, incr) == Some(PieceMoves(ps, dir, incr))
  {
    hide RegisterMoves, MovesSeq, PieceMoves, NextAdj, DmaLo, DmaHi, PieceDesc, Chained, Storable, NextAddr;
    var laid := LayPieces(ring, base, s, ps, dir);
    LaidIsChained(ring, base, s, ps, dir);
    RegistersRunChain(laid, base, s, |ps|, dir, incr);
    WindowMoves(laid, s, ps, dir, incr, base, |ps|);
    assert ps[..|ps|] == ps;
  }

  lemma LaidIsChained(ring: seq<Desc>, base: nat, s: nat, ps: seq<Piece>, dir: Direction)
    requires s + |ps| <= |ring|
    ensures Chained(LayPieces(ring, base, s, ps, dir), base, s, |ps|)
  {
    hide ChainControl, NextAddr, DmaLo, DmaHi;
    var laid, chainBus := LayPieces(ring, base, s, ps, dir), base + DESC_SIZE * s;
    forall j | s <= j < s + |ps|
      ensures laid[j].control == ChainControl(chainBus, |ps|, j - s)
      ensures laid[j].nextLo == DmaLo(NextAddr(chainBus, |ps|, j - s))
      ensures laid[j].nextHi == DmaHi(NextAddr(chainBus, |ps|, j - s))
    {
      assert laid[j] == PieceDesc(ps, dir, chainBus, j - s);
    }
  }

  // ---- the call on values ----

  /** The outer loop: fill and lay out a transfer, take a turn, let the hardware walk what lies in the
      ring, clear it, and go on while turns end COMPLETED.  A transfer without descriptors ends it
      with moves None: there the code writes link words past its ring. */
  function Apertured(c: Setting, w: Work, ring: seq<Desc>, s: nat, cur: Cur, e: E.Eng, j: nat): Ended
    requires Sane(w) && s < |ring|
    decreases Total(w.sgl) - cur.offset
  {
    if cur.offset >= Total(w.sgl) then Ended(ring, s, Some([]), 0, 0, None, e)
    else
      var (ps, cur') := Fill(w, |ring| - s, cur);
      var n := |ps|;
      if n == 0 || cur'.offset <= cur.offset then Ended(ring, s, None, 0, 0, None, e)
      else
        var laid := LayPieces(ring, c.base, s, ps, w.dir);
        var (o, e') := Take(e, E.Job(0, n, NEW, 0), c.turns(j));
        if o == Seen(COMPLETED) then
          var rest := Apertured(c, w, Clear(laid, s, n), (s + n) % |ring|, cur', e', j + 1);
          Before(ChainMoves(laid, c.base, s, n, w.dir, c.incr), Bytes(ps), rest)
        else
          Ended(if o.Rejected? then laid else Clear(laid, s, n), (s + n) % |ring|, Some([]), 0, 0, Some((o, n)), e')
  }

  /** The request is done, or the cursor is in the first entry and stays there until the last transfer. */
  ghost predicate OnCourse(w: Work, N: nat, s: nat, cur: Cur) {
    && GoodWork(w) && s < N && cur.offset <= Total(w.sgl)
    && (cur.offset < Total(w.sgl) ==>
          Reachable(w, cur) && cur.idx == 0 && InFirst(PiecesLeft(w, cur), PiecesOfFirst(w, cur), N - s, N))
  }

  lemma OnCourseStep(w: Work, N: nat, s: nat, cur: Cur)
    requires OnCourse(w, N, s, cur) && cur.offset < Total(w.sgl)
    ensures var (ps, cur') := Fill(w, N - s, cur);
            && Due(w, ps, cur) && InOrder(w, ps, cur.offset) && 1 <= |ps| <= N - s
            && cur.offset < cur'.offset == cur.offset + Bytes(ps)
            && OnCourse(w, N, (s + |ps|) % N, cur')
  {
    hide Fill, Total, PiecesLeft, PiecesOfFirst, Reachable, Due, GoodWork, Bytes, InOrder;
    Sanity(w);
    var room := N - s;
    var (ps, cur') := Fill(w, room, cur);
    FirstEntryIsRight(w, room, cur);
    LastTransfer(w, room, cur);
    SomeBytes(w, room, cur);
    DueMeans(w, ps, cur);
    if cur'.offset < Total(w.sgl) {
      DivModUnique(s + room, N, 1, 0);
      StillInFirst(w, room, cur);
    }
  }

  /** The first turn of a call, on its own. */
  lemma AperturedStep(c: Setting, w: Work, ring: seq<Desc>, s: nat, cur: Cur, e: E.Eng, j: nat)
    requires Sane(w) && s < |ring| && cur.offset < Total(w.sgl)
    requires var (ps, cur') := Fill(w, |ring| - s, cur); ps != [] && cur'.offset > cur.offset
    ensures var (ps, cur') := Fill(w, |ring| - s, cur);
            var n := |ps|;
            var laid := LayPieces(ring, c.base, s, ps, w.dir);
            var (o, e') := Take(e, E.Job(0, n, NEW, 0), c.turns(j));
            var idx, cleared := (s + n) % |ring|, Clear(laid, s, n);
            && idx < |ring| && |cleared| == |ring|
            && var r := Apertured(c, w, ring, s, cur, e, j);
               if o == Seen(COMPLETED) then
                 r == Before(ChainMoves(laid, c.base, s, n, w.dir, c.incr), Bytes(ps),
                             Apertured(c, w, cleared, idx, cur', e', j + 1))
               else
                 r == Ended(if o.Rejected? then laid else cleared, idx, Some([]), 0, 0, Some((o, n)), e')
  {
    hide Fill, Total, ChainMoves, Take, Bytes, LayPieces;
    ClearLength(LayPieces(ring, c.base, s, Fill(w, |ring| - s, cur).0, w.dir), s, |Fill(w, |ring| - s, cur).0|);
  }

  lemma AperturedEnd(c: Setting, w: Work, ring: seq<Desc>, s: nat, cur: Cur, e: E.Eng, j: nat)
    requires Sane(w) && s < |ring| && cur.offset >= Total(w.sgl)
    ensures Apertured(c, w, ring, s, cur, e, j) == Ended(ring, s, Some([]), 0, 0, None, e)
  {
  }

  /** The moves are those of the bytes at request offsets off to off + done. */
  ghost predicate ApMoved(moves: Option<seq<Move>>, w: Work, off: nat, done: nat) {
    && w.ap >= 1 && off + done <= |Addresses(w.sgl)|
    && moves == Some(ApMoves(Addresses(w.sgl)[off..off + done], w.base, w.ap, w.dir, off))
  }

  /** For every list and ring such that all transfers but the last end inside the first entry, and whatever
      the other threads do: the bytes moved are the list's from the cursor on, in order, each at its
      offset modulo the window, as many as are done; all of them if nothing ends the call early. */
  lemma {:induction false} AperturedMoves(c: Setting, w: Work, ring: seq<Desc>, s: nat, cur: Cur, e: E.Eng, j: nat)
    requires OnCourse(w, |ring|, s, cur) && GoodBase(c.base, |ring|) && c.incr
    ensures Sane(w)
    ensures var r := Apertured(c, w, ring, s, cur, e, j);
            && |r.ring| == |ring| && r.idx < |ring|
            && ApMoved(r.moves, w, cur.offset, r.done)
            && (r.stop.None? ==> cur.offset + r.done == Total(w.sgl))
    decreases Total(w.sgl) - cur.offset
  {
    hide Apertured, OnCourse, Fill, Total, ChainMoves, Take, Bytes, LayPieces, GoodBase, ApMoved, InOrder, Due, Then,
         Clear;
    CourseMeans(w, |ring|, s, cur);
    NothingApMoved(w, |ring|, s, cur);
    if cur.offset == Total(w.sgl) {
      AperturedEnd(c, w, ring, s, cur, e, j);
    } else {
      OnCourseStep(w, |ring|, s, cur);
      AperturedStep(c, w, ring, s, cur, e, j);
      var (ps, cur') := Fill(w, |ring| - s, cur);
      var n := |ps|;
      var laid := LayPieces(ring, c.base, s, ps, w.dir);
      LayPiecesLength(ring, c.base, s, ps, w.dir);
      var (o, e') := Take(e, E.Job(0, n, NEW, 0), c.turns(j));
      if o == Seen(COMPLETED) {
        StepMoves(c, w, ring, s, cur);
        AperturedMoves(c, w, Clear(laid, s, n), (s + n) % |ring|, cur', e', j + 1);
        var rest := Apertured(c, w, Clear(laid, s, n), (s + n) % |ring|, cur', e', j + 1);
        ApMovedMore(w, cur.offset, Bytes(ps), rest.done, ChainMoves(laid, c.base, s, n, w.dir, c.incr), rest.moves);
      }
    }
  }

  lemma CourseMeans(w: Work, N: nat, s: nat, cur: Cur)
    requires OnCourse(w, N, s, cur)
    ensures GoodWork(w) && Sane(w) && s < N && cur.offset <= Total(w.sgl)
  {
  }

  lemma LayPiecesLength(ring: seq<Desc>, base: nat, s: nat, ps: seq<Piece>, dir: Direction)
    ensures |LayPieces(ring, base, s, ps, dir)| == |ring|
  {
  }

  lemma NothingApMoved(w: Work, N: nat, s: nat, cur: Cur)
    requires OnCourse(w, N, s, cur)
    ensures ApMoved(Some([]), w, cur.offset, 0)
  {
    hide Addresses, ApMoves, Total;
    TotalIsLength(w.sgl);
    NoApMoves(w, cur.offset);
    assert Addresses(w.sgl)[cur.offset..cur.offset + 0] == [];
  }

  /** What the hardware moves for the next transfer. */
  lemma StepMoves(c: Setting, w: Work, ring: seq<Desc>, s: nat, cur: Cur)
    requires OnCourse(w, |ring|, s, cur) && cur.offset < Total(w.sgl) && GoodBase(c.base, |ring|)
    ensures Sane(w)
    ensures var ps := Fill(w, |ring| - s, cur).0;
            var moves := ChainMoves(LayPieces(ring, c.base, s, ps, w.dir), c.base, s, |ps|, w.dir, c.incr);
            moves.Some? && (c.incr ==> ApMoved(moves, w, cur.offset, Bytes(ps)))
  {
    hide OnCourse, Fill, Total, ChainMoves, Bytes, LayPieces, GoodBase, InOrder, PieceMoves, ApMoves, Addresses,
         PieceAddrs;
    CourseMeans(w, |ring|, s, cur);
    OnCourseStep(w, |ring|, s, cur);
    var ps := Fill(w, |ring| - s, cur).0;
    InOrderStorable(w, ps, cur.offset);
    LaidPieceMoves(ring, c.base, s, ps, w.dir, c.incr);
    InOrderMoves(w, ps, cur.offset);
  }

  lemma ApMovedMore(w: Work, off: nat, m: nat, done: nat, first: Option<seq<Move>>, rest: Option<seq<Move>>)
    requires ApMoved(first, w, off, m) && ApMoved(rest, w, off + m, done)
    ensures ApMoved(Then(first, rest), w, off, m + done)
  {
    hide Addresses, ApMoves;
    var all := Addresses(w.sgl);
    JoinSlices(all, off, m, done);
    ApAppend(all[off..off + m], all[off + m..off + m + done], w.base, w.ap, w.dir, off);
  }

  /** The queue is empty again unless the last turn was left early with the identifier not reading back. */
  lemma {:induction false} AperturedQueue(c: Setting, w: Work, ring: seq<Desc>, s: nat, cur: Cur, e: E.Eng, j: nat)
    requires OnCourse(w, |ring|, s, cur) && E.Inv(e) && e.queue == []
    ensures Sane(w)
    ensures var r := Apertured(c, w, ring, s, cur, e, j);
            && E.Inv(r.eng) && (r.stop.Some? ==> r.stop.value.0 != Seen(COMPLETED))
            && (r.eng.queue == [] <==>
                  (r.stop.Some? && r.stop.value.0 == Seen(SUBMITTED) ==> c.turns(j + r.turns).idValid))
    decreases Total(w.sgl) - cur.offset
  {
    hide Apertured, OnCourse, Fill, Total, ChainMoves, Take, Bytes, LayPieces, InOrder, Due, Then, E.Inv, Clear;
    CourseMeans(w, |ring|, s, cur);
    if cur.offset == Total(w.sgl) {
      AperturedEnd(c, w, ring, s, cur, e, j);
    } else {
      OnCourseStep(w, |ring|, s, cur);
      AperturedStep(c, w, ring, s, cur, e, j);
      var (ps, cur') := Fill(w, |ring| - s, cur);
      var n := |ps|;
      var laid := LayPieces(ring, c.base, s, ps, w.dir);
      TakeLaw(e, E.Job(0, n, NEW, 0), c.turns(j));
      var (o, e') := Take(e, E.Job(0, n, NEW, 0), c.turns(j));
      if o == Seen(COMPLETED) {
        AperturedQueue(c, w, Clear(laid, s, n), (s + n) % |ring|, cur', e', j + 1);
      }
    }
  }

  // ---- how a call ends ----

  /** The descriptors a request still needs. */
  function PiecesAt(w: Work, cur: Cur): nat
    requires Sane(w)
  {
    if cur.offset >= Total(w.sgl) then 0 else PiecesLeft(w, cur)
  }

  /** A transfer takes as many of them as a window of the ring has. */
  lemma OnCourseCount(w: Work, N: nat, s: nat, cur: Cur)
    requires OnCourse(w, N, s, cur) && cur.offset < Total(w.sgl)
    ensures Sane(w)
    ensures var (ps, cur') := Fill(w, N - s, cur);
            && PiecesAt(w, cur) > 0 && |ps| == Window(PiecesAt(w, cur), s, N)
            && PiecesAt(w, cur') == PiecesAt(w, cur) - |ps|
  {
    hide Fill, Total, PiecesLeft, PiecesOfFirst, Reachable, Due, GoodWork, Bytes, InOrder, Window;
    CourseMeans(w, N, s, cur);
    var room := N - s;
    var (ps, cur') := Fill(w, room, cur);
    OnCourseStep(w, N, s, cur);
    FirstEntryIsRight(w, room, cur);
    LastTransfer(w, room, cur);
    WindowIs(PiecesLeft(w, cur), s, N);
    if cur'.offset < Total(w.sgl) {
      StillInFirst(w, room, cur);
    }
  }

  /** Nothing ends the call early exactly if every part of it succeeds. */
  lemma {:induction false} AperturedAll(c: Setting, w: Work, ring: seq<Desc>, s: nat, cur: Cur, e: E.Eng, j: nat)
    requires OnCourse(w, |ring|, s, cur) && E.Inv(e) && e.queue == []
    ensures Sane(w)
    ensures var r := Apertured(c, w, ring, s, cur, e, j);
            r.stop.None? <==> AllSucceed(c.turns, e.dir, e.request, Parts(PiecesAt(w, cur), s, |ring|), j)
    decreases Total(w.sgl) - cur.offset
  {
    hide Apertured, OnCourse, Fill, Total, ChainMoves, Take, Bytes, LayPieces, InOrder, Due, Then, E.Inv, Clear, Parts,
         Succeeds, Fails, Decides, Pending, Window, PiecesLeft;
    CourseMeans(w, |ring|, s, cur);
    PartsStep(PiecesAt(w, cur), s, |ring|);
    if cur.offset == Total(w.sgl) {
      AperturedEnd(c, w, ring, s, cur, e, j);
    } else {
      OnCourseStep(w, |ring|, s, cur);
      OnCourseCount(w, |ring|, s, cur);
      AperturedStep(c, w, ring, s, cur, e, j);
      var (ps, cur') := Fill(w, |ring| - s, cur);
      var n := |ps|;
      var laid := LayPieces(ring, c.base, s, ps, w.dir);
      TakeLaw(e, E.Job(0, n, NEW, 0), c.turns(j));
      var (o, e') := Take(e, E.Job(0, n, NEW, 0), c.turns(j));
      if o == Seen(COMPLETED) {
        AperturedAll(c, w, Clear(laid, s, n), (s + n) % |ring|, cur', e', j + 1);
      }
    }
  }

  /** A call that is ended early has not moved all bytes. */
  lemma {:induction false} AperturedShort(c: Setting, w: Work, ring: seq<Desc>, s: nat, cur: Cur, e: E.Eng, j: nat)
    requires OnCourse(w, |ring|, s, cur)
    ensures Sane(w) && cur.offset <= Total(w.sgl)
    ensures var r := Apertured(c, w, ring, s, cur, e, j);
            && (r.stop.Some? ==> cur.offset + r.done < Total(w.sgl))
            && (r.stop.None? ==> cur.offset + r.done == Total(w.sgl))
    decreases Total(w.sgl) - cur.offset
  {
    hide Apertured, OnCourse, Fill, Total, ChainMoves, Take, Bytes, LayPieces, InOrder, Due, Then, Clear;
    CourseMeans(w, |ring|, s, cur);
    if cur.offset == Total(w.sgl) {
      AperturedEnd(c, w, ring, s, cur, e, j);
    } else {
      OnCourseStep(w, |ring|, s, cur);
      AperturedStep(c, w, ring, s, cur, e, j);
      var (ps, cur') := Fill(w, |ring| - s, cur);
      var n := |ps|;
      var laid := LayPieces(ring, c.base, s, ps, w.dir);
      var (o, e') := Take(e, E.Job(0, n, NEW, 0), c.turns(j));
      if o == Seen(COMPLETED) {
        AperturedShort(c, w, Clear(laid, s, n), (s + n) % |ring|, cur', e', j + 1);
      }
    }
  }

  /** What the call answers. */
  lemma AperturedAnswers(c: Setting, w: Work, ring: seq<Desc>, s: nat, e: E.Eng)
    requires OnCourse(w, |ring|, s, Cur(0, 0, 0)) && E.Inv(e) && e.queue == []
    ensures Sane(w)
    ensures var r := Apertured(c, w, ring, s, Cur(0, 0, 0), e, 0);
            var n := FirstPartSize(PiecesAt(w, Cur(0, 0, 0)), s, |ring|);
            Answers(ResultOf(r), r.done, n, e.dir, e.request, c.turns(0))
  {
    hide Apertured, OnCourse, Fill, Total, ChainMoves, Take, Bytes, LayPieces, InOrder, Due, Then, E.Inv, Clear,
         Succeeds, Fails, Decides, Pending, Window, PiecesLeft;
    var cur := Cur(0, 0, 0);
    CourseMeans(w, |ring|, s, cur);
    AperturedShort(c, w, ring, s, cur, e, 0);
    if Total(w.sgl) == 0 {
      AperturedEnd(c, w, ring, s, cur, e, 0);
    } else {
      OnCourseStep(w, |ring|, s, cur);
      OnCourseCount(w, |ring|, s, cur);
      AperturedStep(c, w, ring, s, cur, e, 0);
      TakeLaw(e, E.Job(0, |Fill(w, |ring| - s, cur).0|, NEW, 0), c.turns(0));
    }
  }
}
