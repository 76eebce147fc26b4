/** `xdma_xfer_submit` for a memory-mapped engine, run to its exit.  The caller has `desc_lock` and, all
    submitters being synchronous, the queue is empty when it takes it (SyncDriver.QueueIsSafe).  What other
    threads and the hardware do in each turn of the loop is a parameter. */
module Submit {
  import opened Bits
  import opened Descriptor
  import opened Request
  import opened Hardware
  import opened Chain
  import opened Carve
  import opened Transfer
  import opened Engine
  import opened Wait
  import E = EngineModel

  /** `struct sg_table`, with the number of times it has been unmapped. */
  class SgTable {
    var nents: nat
    var unmaps: nat

    constructor (n: nat)
      ensures nents == n && unmaps == 0
    {
      nents, unmaps := n, 0;
    }

    method Unmap()
      modifies this
      ensures nents == 0 && unmaps == old(unmaps) + 1
    {
      nents, unmaps := 0, unmaps + 1;
    }
  }

  // ---- the call on values ----

  /** How a call ends: ring, ring index, the bytes the hardware moved for the transfers seen COMPLETED
      (None if one of its walks failed), how many bytes and transfers those are, the outcome and size
      of the transfer that ended it early, and the engine. */
  datatype Ended = Ended(ring: seq<Desc>, idx: nat, moves: Option<seq<Move>>, done: nat, turns: nat,
                         stop: Option<(Outcome, nat)>, eng: E.Eng)

  function Then(a: Option<seq<Move>>, b: Option<seq<Move>>): Option<seq<Move>> {
    if a.Some? && b.Some? then Some(a.value + b.value) else None
  }

  /** What the hardware moves when it is started on the chain of n descriptors at ring index s. */
  function ChainMoves(ring: seq<Desc>, base: nat, s: nat, n: nat, dir: Direction, incr: bool): Option<seq<Move>> {
    var (lo, hi, adj) := StartRegisters(base, s, n);
    RegisterMoves(ring, base, lo, hi, adj, dir, incr)
  }

  /** The engine a call runs on, and what happens around it: where the ring lies, the direction, whether
      the endpoint address advances, and the turns. */
  datatype Setting = Setting(base: nat, dir: Direction, incr: bool, turns: nat -> Turn)

  /** The submit loop for the pieces p: lay out a chain, take a turn, let the hardware walk what lies in
      the ring, clear it, and go on while turns end COMPLETED. */
  function Submitted(c: Setting, ring: seq<Desc>, s: nat, p: seq<Entry>, ep: nat, e: E.Eng, j: nat): Ended
    requires s < |ring|
    decreases |p|
  {
    if p == [] then Ended(ring, s, Some([]), 0, 0, None, e)
    else
      var n := Window(|p|, s, |ring|);
      var laid := Lay(ring, c.base, s, p[..n], ep, c.dir, c.incr);
      var (o, e') := Take(e, E.Job(0, n, NEW, 0), c.turns(j));
      if o == Seen(COMPLETED) then
        var ep' := Advance(ep, c.incr, Total(p[..n]));
        var rest := Submitted(c, Clear(laid, s, n), (s + n) % |ring|, p[n..], ep', e', j + 1);
        Before(ChainMoves(laid, c.base, s, n, c.dir, c.incr), Total(p[..n]), rest)
      else
        Ended(if o.Rejected? then laid else Clear(laid, s, n), (s + n) % |ring|, Some([]), 0, 0, Some((o, n)), e')
  }

  /** A COMPLETED transfer of m bytes before the rest of a call. */
  function Before(moves: Option<seq<Move>>, m: nat, rest: Ended): Ended {
    rest.(moves := Then(moves, rest.moves), done := m + rest.done, turns := rest.turns + 1)
  }

  /** The ring index, ring and engine after the first turn. */
  function NextIdx(p: seq<Entry>, s: nat, N: nat): nat
    requires s < N
  {
    (s + Window(|p|, s, N)) % N
  }

  function FirstLaid(c: Setting, ring: seq<Desc>, s: nat, p: seq<Entry>, ep: nat): seq<Desc>
    requires s < |ring| && p != []
  {
    Lay(ring, c.base, s, p[..Window(|p|, s, |ring|)], ep, c.dir, c.incr)
  }

  /** The first turn of a call, on its own. */
  lemma SubmittedStep(c: Setting, ring: seq<Desc>, s: nat, p: seq<Entry>, ep: nat, e: E.Eng, j: nat)
    requires s < |ring| && p != []
    ensures var n := Window(|p|, s, |ring|);
            var laid := FirstLaid(c, ring, s, p, ep);
            var cleared := Clear(laid, s, n);
            var (o, e') := Take(e, E.Job(0, n, NEW, 0), c.turns(j));
            && 1 <= n <= |p| && s + n <= |ring| && |laid| == |cleared| == |ring| && NextIdx(p, s, |ring|) < |ring|
            && var ep' := Advance(ep, c.incr, Total(p[..n]));
               var r := Submitted(c, ring, s, p, ep, e, j);
               if o == Seen(COMPLETED) then
                 r == Before(ChainMoves(laid, c.base, s, n, c.dir, c.incr), Total(p[..n]),
                             Submitted(c, cleared, NextIdx(p, s, |ring|), p[n..], ep', e', j + 1))
               else
                 r == Ended(if o.Rejected? then laid else cleared, NextIdx(p, s, |ring|), Some([]), 0, 0,
                            Some((o, n)), e')
  {
    hide ChainMoves, Total, Take, Window, ChainDesc;
    WindowIs(|p|, s, |ring|);
  }

  lemma SubmittedEnd(c: Setting, ring: seq<Desc>, s: nat, p: seq<Entry>, ep: nat, e: E.Eng, j: nat)
    requires s < |ring| && p == []
    ensures Submitted(c, ring, s, p, ep, e, j) == Ended(ring, s, Some([]), 0, 0, None, e)
  {
  }

  /** Starting the hardware on a chain just laid out copies its pieces. */
  lemma LaidMoves(ring: seq<Desc>, base: nat, s: nat, p: seq<Entry>, ep: nat, dir: Direction, incr: bool)
    requires GoodBase(base, |ring|) && GoodPieces(p, ep) && s + |p| <= |ring| && |p| > 0
    ensures var laid := Lay(ring, base, s, p, ep, dir, incr);
            ChainMoves(laid, base, s, |p|, dir, incr) == Some(CopyMoves(Addresses(p), ep, dir, incr))
  {
    hide GoodPieces, RegisterMoves, CopyMoves, Addresses, Holds, MovesSeq, Chained, NextAdj, DmaLo, DmaHi, Lay;
    var laid := Lay(ring, base, s, p, ep, dir, incr);
    LayLength(ring, base, s, p, ep, dir, incr);
    LaidHolds(ring, base, s, p, ep, dir, incr);
    HoldsChained(laid, base, s, p, ep, dir, incr);
    RegistersRunChain(laid, base, s, |p|, dir, incr);
    ChainCopies(laid, base, s, p, ep, dir, incr, |p|);
    assert p[..|p|] == p;
  }

  lemma LayLength(ring: seq<Desc>, base: nat, s: nat, p: seq<Entry>, ep: nat, dir: Direction, incr: bool)
    ensures |Lay(ring, base, s, p, ep, dir, incr)| == |ring|
  {
  }

  lemma ClearLength(ring: seq<Desc>, s: nat, n: nat)
    ensures |Clear(ring, s, n)| == |ring|
  {
  }

  /** For every ring, list of pieces and behaviour of the other threads: the bytes moved are a prefix of
      one copy of the whole list, as long as the count of bytes done, and all of it if nothing ended
      the call early. */
  lemma {:induction false} SubmittedMoves(c: Setting, ring: seq<Desc>, s: nat, p: seq<Entry>, ep: nat, e: E.Eng, j: nat)
    requires s < |ring| && GoodBase(c.base, |ring|) && GoodPieces(p, ep)
    ensures var r := Submitted(c, ring, s, p, ep, e, j);
            && |r.ring| == |ring| && r.idx < |ring|
            && (r.stop.None? ==> r.done == Total(p))
            && PrefixMoved(r.moves, r.done, p, ep, c.dir, c.incr)
    decreases |p|
  {
    hide Submitted, GoodPieces, ChainMoves, Total, Lay, Clear, Window, Take, GoodBase, PrefixMoved, Then, NextIdx;
    NothingMoved(p, ep, c.dir, c.incr);
    if p == [] {
      SubmittedEnd(c, ring, s, p, ep, e, j);
    } else {
      var n := Window(|p|, s, |ring|);
      var laid := FirstLaid(c, ring, s, p, ep);
      SubmittedStep(c, ring, s, p, ep, e, j);
      SplitPieces(p, n, ep, c.incr);
      var (o, e') := Take(e, E.Job(0, n, NEW, 0), c.turns(j));
      if o == Seen(COMPLETED) {
        var ep', idx := Advance(ep, c.incr, Total(p[..n])), NextIdx(p, s, |ring|);
        LaidMoves(ring, c.base, s, p[..n], ep, c.dir, c.incr);
        SubmittedMoves(c, Clear(laid, s, n), idx, p[n..], ep', e', j + 1);
        var rest := Submitted(c, Clear(laid, s, n), idx, p[n..], ep', e', j + 1);
        PrefixGrows(p, n, ep, c.dir, c.incr, rest.moves, rest.done);
      }
    }
  }

  /** The moves are the first `done` bytes of one copy of the pieces. */
  ghost predicate PrefixMoved(moves: Option<seq<Move>>, done: nat, p: seq<Entry>, ep: nat, dir: Direction, incr: bool) {
    var whole := CopyMoves(Addresses(p), ep, dir, incr);
    |whole| == Total(p) && done <= |whole| && moves == Some(whole[..done])
  }

  lemma NothingMoved(p: seq<Entry>, ep: nat, dir: Direction, incr: bool)
    ensures PrefixMoved(Some([]), 0, p, ep, dir, incr)
    ensures p == [] ==> Total(p) == 0
  {
    hide CopyMoves, Addresses;
    TotalIsLength(p);
    CopyLength(Addresses(p), ep, dir, incr);
    var whole := CopyMoves(Addresses(p), ep, dir, incr);
    assert whole[..0] == [];
  }

  lemma PrefixGrows(p: seq<Entry>, n: nat, ep: nat, dir: Direction, incr: bool, moves: Option<seq<Move>>, done: nat)
    requires n <= |p| && PrefixMoved(moves, done, p[n..], Advance(ep, incr, Total(p[..n])), dir, incr)
    ensures var first := Some(CopyMoves(Addresses(p[..n]), ep, dir, incr));
            PrefixMoved(Then(first, moves), Total(p[..n]) + done, p, ep, dir, incr)
  {
    hide CopyMoves, Addresses, Total;
    var a, b := p[..n], p[n..];
    assert p == a + b;
    TotalIsLength(a);
    TotalIsLength(p);
    AddressesAppend(a, b);
    CopyMovesAppend(Addresses(a), Addresses(b), ep, dir, incr);
    CopyLength(Addresses(a), ep, dir, incr);
    CopyLength(Addresses(p), ep, dir, incr);
    var x, y := CopyMoves(Addresses(a), ep, dir, incr), CopyMoves(Addresses(b), Advance(ep, incr, Total(a)), dir, incr);
    assert (x + y)[..|x| + done] == x + y[..done];
  }

  /** The queue is empty again unless the last turn was left early with the identifier not reading back. */
  lemma {:induction false} SubmittedQueue(c: Setting, ring: seq<Desc>, s: nat, p: seq<Entry>, ep: nat, e: E.Eng, j: nat)
    requires s < |ring| && E.Inv(e) && e.queue == []
    ensures var r := Submitted(c, ring, s, p, ep, e, j);
            && E.Inv(r.eng) && (r.stop.Some? ==> r.stop.value.0 != Seen(COMPLETED))
            && (r.eng.queue == [] <==>
                  (r.stop.Some? && r.stop.value.0 == Seen(SUBMITTED) ==> c.turns(j + r.turns).idValid))
    decreases |p|
  {
    hide Submitted, ChainMoves, Total, Lay, Clear, Window, Take, E.Inv, NextIdx, Then;
    if p == [] {
      SubmittedEnd(c, ring, s, p, ep, e, j);
    } else {
      var n := Window(|p|, s, |ring|);
      SubmittedStep(c, ring, s, p, ep, e, j);
      TakeLaw(e, E.Job(0, n, NEW, 0), c.turns(j));
      var (o, e') := Take(e, E.Job(0, n, NEW, 0), c.turns(j));
      if o == Seen(COMPLETED) {
        var ep', cleared := Advance(ep, c.incr, Total(p[..n])), Clear(FirstLaid(c, ring, s, p, ep), s, n);
        SubmittedQueue(c, cleared, NextIdx(p, s, |ring|), p[n..], ep', e', j + 1);
      }
    }
  }

  /** Nothing ends the call early exactly if every part of it succeeds. */
  lemma {:induction false} SubmittedAll(c: Setting, ring: seq<Desc>, s: nat, p: seq<Entry>, ep: nat, e: E.Eng, j: nat)
    requires s < |ring| && E.Inv(e) && e.queue == []
    ensures var r := Submitted(c, ring, s, p, ep, e, j);
            r.stop.None? <==> AllSucceed(c.turns, e.dir, e.request, Parts(|p|, s, |ring|), j)
    decreases |p|
  {
    hide Submitted, ChainMoves, Total, Lay, Clear, Window, Take, E.Inv, NextIdx, Then, Parts, Succeeds, Fails, Decides,
         Pending;
    PartsStep(|p|, s, |ring|);
    if p == [] {
      SubmittedEnd(c, ring, s, p, ep, e, j);
    } else {
      var n := Window(|p|, s, |ring|);
      SubmittedStep(c, ring, s, p, ep, e, j);
      TakeLaw(e, E.Job(0, n, NEW, 0), c.turns(j));
      var (o, e') := Take(e, E.Job(0, n, NEW, 0), c.turns(j));
      if o == Seen(COMPLETED) {
        var ep', cleared := Advance(ep, c.incr, Total(p[..n])), Clear(FirstLaid(c, ring, s, p, ep), s, n);
        NextIdxIs(p, s, |ring|);
        SubmittedAll(c, cleared, NextIdx(p, s, |ring|), p[n..], ep', e', j + 1);
      }
    }
  }

  lemma NextIdxIs(p: seq<Entry>, s: nat, N: nat)
    requires s < N
    ensures NextIdx(p, s, N) == (s + Window(|p|, s, N)) % N
  {
  }

  lemma PartsStep(k: nat, s: nat, N: nat)
    requires s < N
    ensures k == 0 ==> Parts(k, s, N) == []
    ensures k > 0 ==>
              var n := Window(k, s, N);
              && 1 <= n <= k && Parts(k, s, N) != [] && Parts(k, s, N)[0] == n
              && Parts(k, s, N)[1..] == Parts(k - n, (s + n) % N, N)
  {
    if k > 0 {
      WindowIs(k, s, N);
    }
  }

  /** A call that is ended early has not moved all bytes, and its answer is that of the first turn if it
      has moved none. */
  lemma {:induction false} SubmittedShort(c: Setting, ring: seq<Desc>, s: nat, p: seq<Entry>, ep: nat, e: E.Eng, j: nat)
    requires s < |ring| && forall x :: x in p ==> x.len >= 1
    ensures var r := Submitted(c, ring, s, p, ep, e, j);
            && (r.stop.Some? ==> r.done < Total(p)) && (r.stop.None? ==> r.done == Total(p))
            && (p != [] ==> Total(p) > 0)
    decreases |p|
  {
    hide Submitted, ChainMoves, Total, Lay, Clear, Window, Take, NextIdx, Then;
    SomeTotal(p);
    if p == [] {
      SubmittedEnd(c, ring, s, p, ep, e, j);
    } else {
      var n := Window(|p|, s, |ring|);
      SubmittedStep(c, ring, s, p, ep, e, j);
      SomeTotal(p[..n]);
      TotalAppend(p[..n], p[n..]);
      assert p == p[..n] + p[n..];
      var (o, e') := Take(e, E.Job(0, n, NEW, 0), c.turns(j));
      if o == Seen(COMPLETED) {
        var ep', cleared := Advance(ep, c.incr, Total(p[..n])), Clear(FirstLaid(c, ring, s, p, ep), s, n);
        SubmittedShort(c, cleared, NextIdx(p, s, |ring|), p[n..], ep', e', j + 1);
      }
    }
  }

  lemma SomeTotal(p: seq<Entry>)
    requires forall x :: x in p ==> x.len >= 1
    ensures (p == [] <==> Total(p) == 0)
  {
    if p != [] {
      assert p[0] in p;
    }
  }

  /** What the call answers. */
  lemma SubmittedAnswers(c: Setting, ring: seq<Desc>, s: nat, p: seq<Entry>, ep: nat, e: E.Eng)
    requires s < |ring| && E.Inv(e) && e.queue == [] && forall x :: x in p ==> x.len >= 1
    ensures var r := Submitted(c, ring, s, p, ep, e, 0);
            var n := if p == [] then 0 else Window(|p|, s, |ring|);
            Answers(ResultOf(r), r.done, n, e.dir, e.request, c.turns(0))
  {
    hide Submitted, ChainMoves, Total, Lay, Clear, Window, Take, NextIdx, Then, Succeeds, Fails, Decides, E.Inv;
    SubmittedShort(c, ring, s, p, ep, e, 0);
    if p == [] {
      SubmittedEnd(c, ring, s, p, ep, e, 0);
    } else {
      var n := Window(|p|, s, |ring|);
      SubmittedStep(c, ring, s, p, ep, e, 0);
      TakeLaw(e, E.Job(0, n, NEW, 0), c.turns(0));
      SomeTotal(p[..n]);
    }
  }

  lemma CopyLength(addrs: seq<nat>, ep: nat, dir: Direction, incr: bool)
    ensures |CopyMoves(addrs, ep, dir, incr)| == |addrs|
  {
  }

  // ---- the code ----

  /** `transfer_destroy`: clear the descriptors; unmap after the last transfer of the request. */
  method TransferDestroy(eng: XdmaEngine, xfer: Xfer, sgt: SgTable)
    requires eng.RingValid() && xfer.descIndex + xfer.descNum <= eng.descMax
    modifies eng.desc, sgt
    ensures eng.desc[..] == Clear(old(eng.desc[..]), xfer.descIndex, xfer.descNum)
    ensures forall j :: 0 <= j < eng.descMax ==>
              eng.desc[j] == if xfer.descIndex <= j < xfer.descIndex + xfer.descNum
                             then Desc(0, 0, 0, 0, 0, 0, 0, 0) else old(eng.desc[j])
    ensures var unmap := xfer.lastInRequest && xfer.needUnmap && old(sgt.nents) != 0;
            && sgt.unmaps == old(sgt.unmaps) + (if unmap then 1 else 0)
            && sgt.nents == if unmap then 0 else old(sgt.nents)
  {
    forall j | xfer.descIndex <= j < xfer.descIndex + xfer.descNum {
      eng.desc[j] := Desc(0, 0, 0, 0, 0, 0, 0, 0);
    }
    if xfer.lastInRequest && xfer.needUnmap {
      if sgt.nents != 0 {
        sgt.Unmap();
      }
    }
  }

  /** The state a turn starts from: `desc_lock` held, nothing queued. */
  ghost predicate Ready(eng: XdmaEngine)
    reads eng, eng.transferList
  {
    eng.RingValid() && eng.ListValid() && eng.transferList == [] && E.Inv(eng.View())
  }

  /** `transfer_init`, then the marks a submitter puts on the transfer. */
  method NextTransfer(eng: XdmaEngine, req: RequestCb, xfer: Xfer, dmaMapped: bool, nents: nat) returns (n: nat)
    requires eng.RingValid()
    requires req.swDescIdx < req.swDescCnt <= req.sdesc.Length && nents == req.swDescCnt - req.swDescIdx
    requires GoodPieces(req.sdesc[req.swDescIdx..req.swDescCnt], req.epAddr)
    requires Total(req.sdesc[req.swDescIdx..req.swDescCnt]) < U32
    modifies eng`descIdx, eng`descUsed, eng.desc, req`epAddr, req`swDescIdx, xfer
    ensures eng.RingValid() && n == Window(nents, old(eng.descIdx), eng.descMax)
    ensures req.swDescIdx == old(req.swDescIdx) + n
    ensures var p := old(req.sdesc[req.swDescIdx..req.swDescCnt])[..n];
            var s, incr := old(eng.descIdx), !eng.nonIncrAddr;
            && eng.desc[..] == Lay(old(eng.desc[..]), eng.descBus, s, p, old(req.epAddr), eng.dir, incr)
            && eng.descIdx == (s + n) % eng.descMax && eng.descUsed == old(eng.descUsed) + n
            && req.epAddr == Advance(old(req.epAddr), incr, Total(p))
            && NewTransfer(xfer, s, n, Total(p)) && s + n <= eng.descMax
    ensures (xfer.lastInRequest <==> n == nents) && (xfer.needUnmap <==> !dmaMapped)
  {
    hide Total, Lay, GoodPieces;
    eng.TransferInit(req, xfer);
    n := xfer.descNum;
    if !dmaMapped {
      xfer.needUnmap := true;
    }
    if nents - n == 0 {
      xfer.lastInRequest := true;
    }
  }

  /** A transfer just built: n descriptors from ring index s, m bytes. */
  ghost predicate NewTransfer(xfer: Xfer, s: nat, n: nat, m: nat)
    reads xfer
  {
    && xfer.descIndex == s && xfer.descNum == xfer.descAdjacent == n && xfer.len == m
    && xfer.state == NEW && xfer.descCmpl == 0
  }

  /** The rest of a turn: queue the transfer, wait, look at it, destroy it.  `moves` is what the hardware
      moves when it is started on what the ring holds. */
  method FinishTurn(eng: XdmaEngine, xfer: Xfer, sgt: SgTable, turn: Turn, ghost n: nat, ghost m: nat)
    returns (rv: int, got: nat, o: Outcome, ghost moves: Option<seq<Move>>)
    requires Ready(eng) && xfer.tag == 0 && NewTransfer(xfer, xfer.descIndex, n, m) && xfer.descIndex + n <= eng.descMax
    modifies eng, eng.desc, xfer`state, xfer`descCmpl, sgt
    ensures eng.RingValid() && eng.ListValid() && Mine(eng.transferList, xfer)
    ensures eng.nonIncrAddr == old(eng.nonIncrAddr) && eng.descIdx == old(eng.descIdx)
    ensures (o, eng.View()) == Take(old(eng.View()), E.Job(0, n, NEW, 0), turn)
    ensures var ring := old(eng.desc[..]);
            && eng.desc[..] == (if o.Rejected? then ring else Clear(ring, xfer.descIndex, n))
            && (o.Seen? ==> moves == ChainMoves(ring, eng.descBus, xfer.descIndex, n, eng.dir, !eng.nonIncrAddr))
    ensures got == (if o == Seen(COMPLETED) then m else 0) && rv == ErrorOf(o)
    ensures eng.descUsed == old(eng.descUsed) - (if o.Rejected? then 0 else n)
    ensures var unmap := !o.Rejected? && xfer.lastInRequest && xfer.needUnmap && old(sgt.nents) != 0;
            && sgt.unmaps == old(sgt.unmaps) + (if unmap then 1 else 0)
            && sgt.nents == if unmap then 0 else old(sgt.nents)
  {
    hide Clear, Take, RegisterMoves, E.Inv, Distinct, GoodBase, NextAdj;
    got := 0;
    o, moves := TakeTurn(eng, xfer, turn);
    rv := ErrorOf(o);
    if o.Rejected? {
      return;
    }
    if o == Seen(COMPLETED) {
      got := xfer.len;
    }
    eng.descUsed := eng.descUsed - xfer.descNum;
    TransferDestroy(eng, xfer, sgt);
  }

  /** One turn of the submit loop. */
  method SubmitOne(eng: XdmaEngine, req: RequestCb, xfer: Xfer, sgt: SgTable, dmaMapped: bool, nents: nat, turn: Turn)
    returns (rv: int, got: nat, n: nat, o: Outcome, ghost moves: Option<seq<Move>>)
    requires Ready(eng) && xfer.tag == 0
    requires req.swDescIdx < req.swDescCnt <= req.sdesc.Length && nents == req.swDescCnt - req.swDescIdx
    requires GoodPieces(req.sdesc[req.swDescIdx..req.swDescCnt], req.epAddr)
    requires Total(req.sdesc[req.swDescIdx..req.swDescCnt]) < U32
    modifies eng, eng.desc, req`epAddr, req`swDescIdx, xfer, sgt
    ensures eng.RingValid() && eng.ListValid() && eng.nonIncrAddr == old(eng.nonIncrAddr)
    ensures n == Window(nents, old(eng.descIdx), eng.descMax) && req.swDescIdx == old(req.swDescIdx) + n
    ensures var p := old(req.sdesc[req.swDescIdx..req.swDescCnt])[..n];
            var s, incr := old(eng.descIdx), !eng.nonIncrAddr;
            var laid := Lay(old(eng.desc[..]), eng.descBus, s, p, old(req.epAddr), eng.dir, incr);
            && (o, eng.View()) == Take(old(eng.View()), E.Job(0, n, NEW, 0), turn)
            && eng.desc[..] == (if o.Rejected? then laid else Clear(laid, s, n))
            && eng.descIdx == (s + n) % eng.descMax
            && req.epAddr == Advance(old(req.epAddr), incr, Total(p))
            && got == (if o == Seen(COMPLETED) then Total(p) else 0)
            && (o.Seen? ==> moves == ChainMoves(laid, eng.descBus, s, n, eng.dir, incr))
    ensures eng.descUsed == old(eng.descUsed) + (if o.Rejected? then n else 0)
    ensures rv == ErrorOf(o) && Mine(eng.transferList, xfer)
    ensures var unmap := !o.Rejected? && n == nents && !dmaMapped && old(sgt.nents) != 0;
            && sgt.unmaps == old(sgt.unmaps) + (if unmap then 1 else 0)
            && sgt.nents == if unmap then 0 else old(sgt.nents)
  {
    hide Total, Lay, GoodPieces, Clear, Take, ChainMoves, E.Inv, Distinct, GoodBase, Window, ErrorOf;
    n := NextTransfer(eng, req, xfer, dmaMapped, nents);
    rv, got, o, moves := FinishTurn(eng, xfer, sgt, turn, n, xfer.len);
  }

  /** The value the call returns: the bytes done, or else the error that ended it, or else 0. */
  function ResultOf(r: Ended): int {
    if r.done > 0 then r.done else if r.stop.None? then 0 else ErrorOf(r.stop.value.0)
  }

  /** The engine object is as the call on values leaves it; `used` is `desc_used` on entry, to which it
      returns unless the queue refused a transfer, whose descriptors then stay counted. */
  ghost predicate EndsAs(eng: XdmaEngine, r: Ended, used: int)
    reads eng, eng.desc, eng.transferList
  {
    && eng.desc[..] == r.ring && eng.descIdx == r.idx && eng.View() == r.eng
    && eng.descUsed == used + (if r.stop.Some? && r.stop.value.0.Rejected? then r.stop.value.1 else 0)
  }

  // ---- the loop ----

  /** The pieces from number idx on do not wrap. */
  ghost predicate RestOk(sdesc: seq<Entry>, idx: nat, cnt: nat, ep: nat) {
    idx <= cnt <= |sdesc| && GoodPieces(sdesc[idx..cnt], ep) && Total(sdesc[idx..cnt]) < U32
  }

  lemma RestStart(sdesc: seq<Entry>, cnt: nat, ep: nat)
    requires cnt <= |sdesc| && GoodPieces(sdesc[..cnt], ep) && Total(sdesc[..cnt]) < U32
    ensures RestOk(sdesc, 0, cnt, ep)
  {
    hide Total, GoodPieces;
    assert sdesc[0..cnt] == sdesc[..cnt];
  }

  lemma RestMeans(sdesc: seq<Entry>, idx: nat, cnt: nat, ep: nat)
    requires RestOk(sdesc, idx, cnt, ep)
    ensures idx <= cnt <= |sdesc| && GoodPieces(sdesc[idx..cnt], ep) && Total(sdesc[idx..cnt]) < U32
  {
    hide Total, GoodPieces;
  }

  lemma RestGood(sdesc: seq<Entry>, idx: nat, cnt: nat, n: nat, ep: nat, incr: bool)
    requires idx + n <= cnt && RestOk(sdesc, idx, cnt, ep)
    ensures cnt <= |sdesc| && GoodPieces(sdesc[idx..cnt], ep) && Total(sdesc[idx..cnt]) < U32
    ensures sdesc[idx..cnt] == sdesc[..cnt][idx..] && sdesc[idx..cnt][n..] == sdesc[idx + n..cnt]
    ensures RestOk(sdesc, idx + n, cnt, Advance(ep, incr, Total(sdesc[idx..cnt][..n])))
  {
    hide Total, GoodPieces;
    SplitPieces(sdesc[idx..cnt], n, ep, incr);
    assert sdesc[idx..cnt][n..] == sdesc[idx + n..cnt];
  }

  /** After j COMPLETED turns that moved `moved`, the call is as far as its rest says. */
  ghost predicate Reached(whole: Ended, moved: seq<Move>, done: nat, j: nat, rest: Ended) {
    whole == rest.(moves := Then(Some(moved), rest.moves), done := done + rest.done, turns := j + rest.turns)
  }

  lemma ReachedStart(whole: Ended)
    ensures Reached(whole, [], 0, 0, whole)
  {
    if whole.moves.Some? {
      assert [] + whole.moves.value == whole.moves.value;
    }
  }

  lemma ReachedMore(whole: Ended, moved: seq<Move>, done: nat, j: nat, more: seq<Move>, m: nat, rest: Ended)
    requires Reached(whole, moved, done, j, Before(Some(more), m, rest))
    ensures Reached(whole, moved + more, done + m, j + 1, rest)
  {
    if rest.moves.Some? {
      assert moved + (more + rest.moves.value) == moved + more + rest.moves.value;
    }
  }

  lemma ReachedEnd(whole: Ended, moved: seq<Move>, done: nat, j: nat, rest: Ended)
    requires Reached(whole, moved, done, j, rest) && rest.moves == Some([]) && rest.done == 0 && rest.turns == 0
    ensures whole == rest.(moves := Some(moved), done := done, turns := j)
  {
    assert moved + [] == moved;
  }

  /** One turn of the loop, on values. */
  lemma LoopTurn(whole: Ended, moved: seq<Move>, done: nat, c: Setting, ring: seq<Desc>, s: nat, p: seq<Entry>, ep: nat,
                 e: E.Eng, j: nat)
    requires s < |ring| && p != [] && GoodBase(c.base, |ring|) && GoodPieces(p, ep)
    requires Reached(whole, moved, done, j, Submitted(c, ring, s, p, ep, e, j))
    ensures var n := Window(|p|, s, |ring|);
            var laid := Lay(ring, c.base, s, p[..n], ep, c.dir, c.incr);
            var cleared := Clear(laid, s, n);
            var moves := ChainMoves(laid, c.base, s, n, c.dir, c.incr);
            var (o, e') := Take(e, E.Job(0, n, NEW, 0), c.turns(j));
            && 1 <= n <= |p| && s + n <= |ring| && |cleared| == |ring| && (s + n) % |ring| < |ring| && moves.Some?
            && var ep' := Advance(ep, c.incr, Total(p[..n]));
               if o == Seen(COMPLETED) then
                 Reached(whole, moved + moves.value, done + Total(p[..n]), j + 1,
                         Submitted(c, cleared, (s + n) % |ring|, p[n..], ep', e', j + 1))
               else
                 whole == Ended(if o.Rejected? then laid else cleared, (s + n) % |ring|, Some(moved), done, j,
                                Some((o, n)), e')
  {
    hide Submitted, Reached, ChainMoves, GoodPieces, Total, Lay, Clear, Window, Take, GoodBase, Before;
    var n := Window(|p|, s, |ring|);
    SubmittedStep(c, ring, s, p, ep, e, j);
    SplitPieces(p, n, ep, c.incr);
    LaidMoves(ring, c.base, s, p[..n], ep, c.dir, c.incr);
    var laid := Lay(ring, c.base, s, p[..n], ep, c.dir, c.incr);
    var moves := ChainMoves(laid, c.base, s, n, c.dir, c.incr);
    var (o, e') := Take(e, E.Job(0, n, NEW, 0), c.turns(j));
    if o == Seen(COMPLETED) {
      var ep' := Advance(ep, c.incr, Total(p[..n]));
      var rest := Submitted(c, Clear(laid, s, n), (s + n) % |ring|, p[n..], ep', e', j + 1);
      ReachedMore(whole, moved, done, j, moves.value, Total(p[..n]), rest);
    } else {
      ReachedEnd(whole, moved, done, j, Submitted(c, ring, s, p, ep, e, j));
    }
  }

  /** The submit loop. */
  method SubmitLoop(eng: XdmaEngine, req: RequestCb, sgt: SgTable, dmaMapped: bool, turns: nat -> Turn)
    returns (rv: int, done: nat, ghost moved: seq<Move>)
    requires Ready(eng) && req.swDescIdx == 0 && req.swDescCnt <= req.sdesc.Length && sgt.nents > 0
    requires GoodPieces(req.sdesc[..req.swDescCnt], req.epAddr) && Total(req.sdesc[..req.swDescCnt]) < U32
    modifies eng, eng.desc, req`epAddr, req`swDescIdx, sgt
    ensures eng.RingValid() && eng.ListValid() && eng.nonIncrAddr == old(eng.nonIncrAddr)
    ensures var c := Setting(eng.descBus, eng.dir, !eng.nonIncrAddr, turns);
            var r := Submitted(c, old(eng.desc[..]), old(eng.descIdx), old(req.sdesc[..req.swDescCnt]),
                               old(req.epAddr), old(eng.View()), 0);
            && EndsAs(eng, r, old(eng.descUsed)) && r.moves == Some(moved) && done == r.done
            && rv == (if r.stop.None? then 0 else ErrorOf(r.stop.value.0))
    ensures (sgt.nents == old(sgt.nents) && sgt.unmaps == old(sgt.unmaps))
         || (!dmaMapped && sgt.nents == 0 && sgt.unmaps == old(sgt.unmaps) + 1)
  {
    hide Submitted, Reached, RestOk, Take, ChainMoves, Total, GoodPieces, Window, Lay, Clear, E.Inv, GoodBase,
         Distinct, ErrorOf;
    var xfer := new Xfer(0);
    ghost var c := Setting(eng.descBus, eng.dir, !eng.nonIncrAddr, turns);
    ghost var k, sd := req.swDescCnt, req.sdesc[..];
    assert sd[..k] == req.sdesc[..k];
    ghost var r := Submitted(c, eng.desc[..], eng.descIdx, sd[..k], req.epAddr, eng.View(), 0);
    var nents, j := req.swDescCnt, 0;
    rv, done, moved := 0, 0, [];
    ReachedStart(r);
    RestStart(sd, k, req.epAddr);
    assert sd[0..k] == sd[..k];
    while nents > 0
      invariant Ready(eng) && eng.descUsed == old(eng.descUsed) && rv == 0 && fresh(xfer)
      invariant req.swDescIdx + nents == k && req.sdesc[..] == sd && eng.nonIncrAddr == !c.incr
      invariant RestOk(sd, req.swDescIdx, k, req.epAddr)
      invariant var rest := Submitted(c, eng.desc[..], eng.descIdx, sd[req.swDescIdx..k], req.epAddr, eng.View(), j);
                Reached(r, moved, done, j, rest)
      invariant (sgt.nents == old(sgt.nents) && sgt.unmaps == old(sgt.unmaps))
             || (nents == 0 && !dmaMapped && sgt.nents == 0 && sgt.unmaps == old(sgt.unmaps) + 1)
    {
      ghost var o0, at, idx := req.swDescIdx, req.epAddr, eng.descIdx;
      ghost var n0 := Window(nents, idx, eng.descMax);
      RestMeans(sd, o0, k, at);
      LoopTurn(r, moved, done, c, eng.desc[..], idx, sd[o0..k], at, eng.View(), j);
      TakeAgain(eng.View(), E.Job(0, n0, NEW, 0), turns(j));
      RestGood(sd, o0, k, n0, at, c.incr);
      var got, n, o;
      ghost var moves;
      rv, got, n, o, moves := SubmitOne(eng, req, xfer, sgt, dmaMapped, nents, turns(j));
      if rv < 0 {
        return;
      }
      nents := nents - n;
      done := done + got;
      moved := moved + moves.value;
      j := j + 1;
    }
    SubmittedEnd(c, eng.desc[..], eng.descIdx, sd[k..k], req.epAddr, eng.View(), j);
    ReachedEnd(r, moved, done, j, Submitted(c, eng.desc[..], eng.descIdx, sd[k..k], req.epAddr, eng.View(), j));
  }

  // ---- the call ----

  /** The call for a mapped list. */
  function Call(c: Setting, ring: seq<Desc>, s: nat, sgl: seq<Entry>, blen: nat, ep: nat, e: E.Eng): Ended
    requires s < |ring| && blen >= 1
  {
    Submitted(c, ring, s, SplitAll(sgl, blen), ep, e, 0)
  }

  /** The size of the first part of k descriptors; 0 if there is none. */
  function FirstPartSize(k: nat, s: nat, N: nat): nat
    requires s < N
  {
    if k == 0 then 0 else Window(k, s, N)
  }

  /** What a call means, whatever the ring holds and the other threads do: the hardware has moved, for the
      leading transfers seen COMPLETED, exactly the first `done` bytes of one copy of the list; all of it
      exactly if every part succeeds; the answer is that count or, if it is 0, the error of the first
      part; and nothing stays queued unless the submitter left early with the identifier not reading
      back. */
  lemma CallLaw(c: Setting, ring: seq<Desc>, s: nat, sgl: seq<Entry>, blen: nat, ep: nat, e: E.Eng)
    requires s < |ring| && GoodBase(c.base, |ring|) && 1 <= blen < U32 && Fits(sgl, blen) && ep + Total(sgl) < U64
    requires E.Inv(e) && e.queue == []
    ensures var r := Call(c, ring, s, sgl, blen, ep, e);
            var whole := CopyMoves(Addresses(sgl), ep, c.dir, c.incr);
            var k := |SplitAll(sgl, blen)|;
            && |whole| == Total(sgl) && r.done <= Total(sgl) && r.moves == Some(whole[..r.done])
            && (r.done == Total(sgl) <==> AllSucceed(c.turns, e.dir, e.request, Parts(k, s, |ring|), 0))
            && Answers(ResultOf(r), r.done, FirstPartSize(k, s, |ring|), e.dir, e.request, c.turns(0))
            && (r.stop.None? <==> r.done == Total(sgl))
            && (r.stop.Some? ==> r.stop.value.0 != Seen(COMPLETED))
            && (r.eng.queue == [] <==>
                  (r.stop.Some? && r.stop.value.0 == Seen(SUBMITTED) ==> c.turns(r.turns).idValid))
  {
    hide Submitted, GoodPieces, CopyMoves, Addresses, SplitAll, Total, E.Inv, Fits, AllSucceed, Answers, Parts, Window,
         ResultOf;
    GoodSplit(sgl, blen, ep);
    SplitMeaning(sgl, blen);
    var p := SplitAll(sgl, blen);
    SubmittedAll(c, ring, s, p, ep, e, 0);
    SubmittedShort(c, ring, s, p, ep, e, 0);
    SubmittedAnswers(c, ring, s, p, ep, e);
    SubmittedMoves(c, ring, s, p, ep, e, 0);
    SubmittedQueue(c, ring, s, p, ep, e, 0);
    TotalIsLength(sgl);
  }

  lemma GoodSplit(sgl: seq<Entry>, blen: nat, ep: nat)
    requires 1 <= blen < U32 && Fits(sgl, blen) && ep + Total(sgl) < U64
    ensures GoodPieces(SplitAll(sgl, blen), ep) && Total(SplitAll(sgl, blen)) == Total(sgl) < U32
  {
    hide Addresses, SplitAll, Total;
    SplitMeaning(sgl, blen);
    SplitStaysInside(sgl, blen);
    TotalIsLength(sgl);
    TotalIsLength(SplitAll(sgl, blen));
  }

  /** What a call reports that had k descriptors to carve from ring index s of N: the bytes moved, all of
      the total exactly if every part succeeds; with none moved, the error of the first part. */
  ghost predicate Reports(result: int, moved: nat, total: nat, k: nat, s: nat, N: nat, dir: Direction, request: bool,
                          turns: nat -> Turn) {
    && s < N && Answers(result, moved, FirstPartSize(k, s, N), dir, request, turns(0))
    && (moved == total <==> AllSucceed(turns, dir, request, Parts(k, s, N), 0))
  }

  /** `xdma_xfer_submit` once the list is mapped: make the request, run the loop, unmap. */
  method SubmitMapped(eng: XdmaEngine, ep: nat, sgl: seq<Entry>, blen: nat,
                      sgt: SgTable, dmaMapped: bool, oom: bool, turns: nat -> Turn)
    returns (result: int, ghost moved: seq<Move>)
    requires Ready(eng) && 1 <= blen < U32 && Fits(sgl, blen) && ep + Total(sgl) < U64 && sgt.nents > 0
    modifies eng, eng.desc, sgt
    ensures eng.RingValid() && eng.ListValid() && eng.nonIncrAddr == old(eng.nonIncrAddr)
    ensures !dmaMapped ==> sgt.nents == 0 && sgt.unmaps == old(sgt.unmaps) + 1
    ensures dmaMapped ==> sgt.nents == old(sgt.nents) && sgt.unmaps == old(sgt.unmaps)
    ensures oom ==> result == -ENOMEM && moved == []
                    && Untouched(eng, old(eng.desc[..]), old(eng.descIdx), old(eng.View()), old(eng.descUsed))
    ensures !oom ==>
              var c := Setting(eng.descBus, eng.dir, !eng.nonIncrAddr, turns);
              var r := Call(c, old(eng.desc[..]), old(eng.descIdx), sgl, blen, ep, old(eng.View()));
              EndsAs(eng, r, old(eng.descUsed)) && result == ResultOf(r) && r.moves == Some(moved)
  {
    hide Total, GoodPieces, Submitted, SplitAll, E.Inv, Fits, Distinct, GoodBase, EndsAs;
    moved := [];
    var req := InitRequest(sgl, ep, blen, oom);
    var rv, done := -ENOMEM, 0;
    if req != null {
      GoodSplit(sgl, blen, ep);
      rv, done, moved := SubmitLoop(eng, req, sgt, dmaMapped, turns);
    }
    if !dmaMapped && sgt.nents != 0 {
      sgt.Unmap();
    }
    result := if done != 0 then done else rv;
  }

  /** `xdma_xfer_submit`, from the offline test on; sgl is the list as mapped (empty if mapping failed).
      Ring, engine, result and the bytes the hardware moved are those of the call on values, whose
      meaning CallLaw gives; every exit after a successful map has unmapped the table once. */
  method XferSubmit(eng: XdmaEngine, offline: bool, dir: Direction, ep: nat, sgl: seq<Entry>, blen: nat,
                    sgt: SgTable, dmaMapped: bool, oom: bool, turns: nat -> Turn)
    returns (result: int, ghost moved: seq<Move>)
    requires Ready(eng) && 1 <= blen < U32 && Fits(sgl, blen) && ep + Total(sgl) < U64
    requires dmaMapped ==> sgt.nents == |sgl|
    modifies eng, eng.desc, sgt
    ensures eng.RingValid() && eng.ListValid() && eng.nonIncrAddr == old(eng.nonIncrAddr)
    ensures var rejected := offline || eng.dir != dir || sgl == [];
            && (rejected || oom ==>
                  && Untouched(eng, old(eng.desc[..]), old(eng.descIdx), old(eng.View()), old(eng.descUsed))
                  && moved == []
                  && result == (if offline then -EBUSY else if eng.dir != dir then -EINVAL
                                else if sgl == [] then -EIO else -ENOMEM))
            && (rejected || dmaMapped ==> sgt.nents == old(sgt.nents) && sgt.unmaps == old(sgt.unmaps))
            && (!rejected && !dmaMapped ==> sgt.nents == 0 && sgt.unmaps == old(sgt.unmaps) + 1)
            && (!rejected && !oom ==>
                  var c := Setting(eng.descBus, dir, !eng.nonIncrAddr, turns);
                  var r := Call(c, old(eng.desc[..]), old(eng.descIdx), sgl, blen, ep, old(eng.View()));
                  && EndsAs(eng, r, old(eng.descUsed)) && result == ResultOf(r)
                  && r.moves == Some(moved) && |moved| == r.done <= Total(sgl)
                  && moved <= CopyMoves(Addresses(sgl), ep, dir, !eng.nonIncrAddr)
                  && Reports(result, |moved|, Total(sgl), |SplitAll(sgl, blen)|, old(eng.descIdx), eng.descMax,
                             dir, old(eng.shutdownRequest), turns)
                  && (eng.transferList == [] <==>
                        (r.stop.Some? && r.stop.value.0 == Seen(SUBMITTED) ==> turns(r.turns).idValid)))
  {
    hide Total, CopyMoves, Addresses, Call, E.Inv, Fits, Distinct, GoodBase, ResultOf, SplitAll, AllSucceed, Answers,
         Parts, Window;
    moved := [];
    if offline {
      return -EBUSY, moved;
    }
    if eng.dir != dir {
      return -EINVAL, moved;
    }
    if sgl == [] {
      return -EIO, moved;
    }
    if !dmaMapped {
      sgt.nents := |sgl|;
    }
    ghost var c := Setting(eng.descBus, eng.dir, !eng.nonIncrAddr, turns);
    CallLaw(c, eng.desc[..], eng.descIdx, sgl, blen, ep, eng.View());
    result, moved := SubmitMapped(eng, ep, sgl, blen, sgt, dmaMapped, oom, turns);
  }

  /** Ring, index, engine and use count are the given ones. */
  ghost predicate Untouched(eng: XdmaEngine, ring: seq<Desc>, idx: nat, e: E.Eng, used: int)
    reads eng, eng.desc, eng.transferList
  {
    eng.desc[..] == ring && eng.descIdx == idx && eng.View() == e && eng.descUsed == used
  }
}
