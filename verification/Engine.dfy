/** The engine object: descriptor ring and transfer queue, updated in place. Its methods are the
    driver's functions; each is proved against the value-level functions of Carve and EngineModel. */
module Engine {
  import opened Bits
  import opened Descriptor
  import opened Request
  import opened Hardware
  import opened Chain
  import opened Carve
  import opened Transfer
  import E = EngineModel

  function JobOf(x: Xfer): E.Job
    reads x
  {
    E.Job(x.tag, x.descNum, x.state, x.descCmpl)
  }

  function Jobs(xs: seq<Xfer>): (js: seq<E.Job>)
    reads xs
    ensures |js| == |xs| && forall i :: 0 <= i < |xs| ==> js[i] == JobOf(xs[i])
  {
    if xs == [] then [] else [JobOf(xs[0])] + Jobs(xs[1..])
  }

  ghost predicate Distinct(xs: seq<Xfer>) {
    forall i, j :: 0 <= i < j < |xs| ==> xs[i] != xs[j]
  }

  lemma DistinctSplit(xs: seq<Xfer>, k: nat)
    requires Distinct(xs) && k <= |xs|
    ensures Distinct(xs[k..])
    ensures forall i :: 0 <= i < k ==> xs[i] !in xs[k..]
  {
  }

  lemma NotElsewhere(xs: seq<Xfer>, k: nat)
    requires Distinct(xs) && k < |xs|
    ensures forall i :: 0 <= i < |xs| && i != k ==> xs[i] != xs[k]
  {
  }

  class XdmaEngine {
    const dir: Direction
    const descMax: nat
    const descBus: nat
    const desc: array<Desc>
    var descIdx: nat
    var descUsed: int
    var nonIncrAddr: bool

    var running: bool
    var shutdownRequest: bool
    var shutdownIdle: bool
    var status: nat
    var descDequeued: nat
    var transferList: seq<Xfer>
    var starts: nat
    var firstDescLo: nat        // the three registers that tell the hardware where a chain starts
    var firstDescHi: nat
    var firstDescAdjacent: nat

    constructor (dir: Direction, n: nat, bus: nat)
      requires n >= 1 && GoodBase(bus, n)
      ensures RingValid() && ListValid() && fresh(desc) && View() == E.Init(dir)
      ensures descMax == n && descBus == bus && descIdx == 0 && descUsed == 0
    {
      this.dir, descMax, descBus := dir, n, bus;
      desc := new Desc[n](_ => Desc(0, 0, 0, 0, 0, 0, 0, 0));
      descIdx, descUsed, nonIncrAddr := 0, 0, false;
      running, shutdownRequest, shutdownIdle := false, false, false;
      status, descDequeued, transferList, starts := 0, 0, [], 0;
      firstDescLo, firstDescHi, firstDescAdjacent := 0, 0, 0;
    }

    ghost predicate RingValid()
      reads this
    {
      desc.Length == descMax && descIdx < descMax && GoodBase(descBus, descMax)
    }

    ghost predicate ListValid()
      reads this
    {
      Distinct(transferList)
    }

    ghost function View(): E.Eng
      reads this, transferList
    {
      E.Eng(dir, running, shutdownRequest, shutdownIdle, status, descDequeued, Jobs(transferList), starts)
    }

    /** first_desc_lo, first_desc_hi and first_desc_adjacent. */
    ghost function Registers(): (nat, nat, nat)
      reads this
    {
      (firstDescLo, firstDescHi, firstDescAdjacent)
    }

    /** The registers send the hardware to the first descriptor of x, with the block count for it. */
    ghost predicate RegistersFor(x: Xfer)
      reads this, x
    {
      var bus := descBus + DESC_SIZE * x.descIndex;
      && firstDescLo == DmaLo(bus) && firstDescHi == DmaHi(bus)
      && firstDescAdjacent == NextAdj(x.descAdjacent, DmaLo(bus))
    }

    // ---- building a transfer ----

    /** `transfer_init`: carve a window from the ring and lay out the chain for the next pieces. */
    method TransferInit(req: RequestCb, xfer: Xfer)
      requires RingValid() && req.swDescIdx < req.swDescCnt <= req.sdesc.Length
      requires GoodPieces(req.sdesc[req.swDescIdx..req.swDescCnt], req.epAddr)
      requires Total(req.sdesc[req.swDescIdx..req.swDescCnt]) < U32
      modifies this`descIdx, this`descUsed, desc, req`epAddr, req`swDescIdx, xfer
      ensures RingValid()
      ensures var n := Window(old(req.swDescCnt - req.swDescIdx), old(descIdx), descMax);
              var p := old(req.sdesc[req.swDescIdx..req.swDescCnt])[..n];
              && desc[..] == Lay(old(desc[..]), descBus, old(descIdx), p, old(req.epAddr), dir, !nonIncrAddr)
              && descIdx == (old(descIdx) + n) % descMax && descUsed == old(descUsed) + n
              && req.swDescIdx == old(req.swDescIdx) + n
              && req.epAddr == Advance(old(req.epAddr), !nonIncrAddr, Total(p))
              && xfer.descIndex == old(descIdx) && xfer.descNum == xfer.descAdjacent == n && xfer.len == Total(p)
      ensures xfer.state == NEW && xfer.descCmpl == 0 && !xfer.needUnmap && !xfer.lastInRequest
    {
      hide Total, Lay, GoodPieces;
      var n := Min(req.swDescCnt - req.swDescIdx, descMax);
      xfer.descCmpl, xfer.len, xfer.state, xfer.needUnmap, xfer.lastInRequest := 0, 0, NEW, false, false;
      xfer.descIndex := descIdx;
      if descIdx + n >= descMax {
        n := descMax - descIdx;
      }
      ghost var all := req.sdesc[req.swDescIdx..req.swDescCnt];
      assert all[..n] == req.sdesc[req.swDescIdx..req.swDescIdx + n];
      SplitPieces(all, n, req.epAddr, !nonIncrAddr);
      BuildChain(desc, descIdx, descBus, req, xfer, n, dir, nonIncrAddr);
      descIdx := (descIdx + n) % descMax;
      descUsed := descUsed + n;
    }

    // ---- running it ----

    /** `engine_start`. The register values are those a prefetching walk of the first transfer starts from. */
    method EngineStart(newStatus: nat) returns (started: Xfer?)
      requires ListValid()
      modifies this`running, this`shutdownRequest, this`shutdownIdle, this`status, this`descDequeued, this`starts,
               this`firstDescLo, this`firstDescHi, this`firstDescAdjacent
      ensures old(running) || transferList == [] ==>
                started == null && View() == old(View()) && Registers() == old(Registers())
      ensures !old(running) && transferList != [] ==>
                && started == transferList[0] && View() == E.Start(old(View()), newStatus)
                && running && starts == old(starts) + 1 && RegistersFor(started)
    {
      hide Jobs, NextAdj, DmaLo, DmaHi;
      if running || transferList == [] {
        return null;
      }
      var transfer := transferList[0];
      shutdownRequest, shutdownIdle := false, false;
      descDequeued := 0;
      var bus := descBus + DESC_SIZE * transfer.descIndex;
      firstDescLo, firstDescHi := DmaLo(bus), DmaHi(bus);
      firstDescAdjacent := NextAdj(transfer.descAdjacent, DmaLo(bus));
      status := newStatus;
      running := true;
      starts := starts + 1;
      return transfer;
    }

    /** `xdma_engine_stop`. */
    method EngineStop()
      modifies this`running
      ensures View() == E.Stop(old(View()))
    {
      running := false;
    }

    /** `transfer_queue` (its critical section). */
    method TransferQueue(xfer: Xfer, newStatus: nat) returns (accepted: bool)
      requires ListValid() && xfer !in transferList
      modifies this, xfer`state
      ensures ListValid() && transferList == if accepted then old(transferList) + [xfer] else old(transferList)
      ensures (View(), accepted) == E.Enqueue(old(View()), old(JobOf(xfer)), newStatus)
      ensures if accepted && !old(running)
              then running && starts == old(starts) + 1 && RegistersFor(transferList[0])
              else Registers() == old(Registers()) && running == old(running) && starts == old(starts)
      ensures descIdx == old(descIdx) && descUsed == old(descUsed) && nonIncrAddr == old(nonIncrAddr)
    {
      hide Jobs, NextAdj, DmaLo, DmaHi;
      if xfer.descNum == 0 || shutdownRequest {
        return false;
      }
      xfer.state := SUBMITTED;
      transferList := transferList + [xfer];
      assert Jobs(transferList) == old(Jobs(transferList)) + [JobOf(xfer)];
      if !running {
        var started := EngineStart(newStatus);
      }
      return true;
    }

    /** The critical section a submitter runs when its transfer is still in flight. */
    method AbortInFlight(xfer: Xfer, idValid: bool, newStatus: nat)
      requires ListValid()
      requires forall i :: 0 <= i < |transferList| && transferList[i].tag == xfer.tag ==> transferList[i] == xfer
      modifies this`status, this`transferList, this`running, xfer`state
      ensures ListValid() && View() == E.Abort(old(View()), xfer.tag, idValid, newStatus)
      ensures xfer.state == if idValid && old(xfer.state) == SUBMITTED then ABORTED else old(xfer.state)
      ensures var front := old(transferList) != [] && old(transferList)[0] == xfer;
              transferList == if idValid && front then old(transferList)[1..] else old(transferList)
    {
      hide Jobs;
      ghost var was, q := transferList, Jobs(transferList);
      if idValid {
        status := newStatus;
        if transferList != [] && transferList[0] == xfer {
          transferList := transferList[1..];
        }
        if xfer.state == SUBMITTED {
          xfer.state := ABORTED;
        }
        EngineStop();
        if was != [] && was[0] == xfer {
          assert forall i :: 0 <= i < |transferList| ==> transferList[i] == was[i + 1] && transferList[i] != was[0];
          assert Jobs(transferList) == q[1..];
        } else {
          assert Jobs(transferList) == E.MarkAborted(q, xfer.tag);
        }
      }
    }

    /** The per-engine part of `xdma_device_offline`. */
    method Offline()
      modifies this`shutdownRequest, this`running
      ensures View() == E.Do(old(View()), E.OfflineEv)
    {
      shutdownRequest := true;
      EngineStop();
    }

    /** The per-engine part of `xdma_device_online`. */
    method Online()
      modifies this`shutdownRequest
      ensures View() == E.Do(old(View()), E.OnlineEv)
    {
      shutdownRequest := false;
    }

    // ---- servicing it ----

    ghost function Head(): set<Xfer>
      reads this
    {
      if transferList == [] then {} else {transferList[0]}
    }

    /** `engine_service_transfer_list`: retire from the front all transfers but the last one reached. */
    method ServiceTransferList(count: nat) returns (left: nat)
      requires ListValid()
      modifies this`transferList, this`descDequeued, transferList`state
      ensures ListValid()
      ensures var (k, rest) := E.RetireList(old(Jobs(transferList)), count);
              && transferList == old(transferList)[k..] && left == rest
              && descDequeued == old(descDequeued) + E.SumDesc(old(Jobs(transferList))[..k])
              && forall i :: 0 <= i < |old(transferList)| ==>
                   old(transferList)[i].state == if i < k then COMPLETED else old(Jobs(transferList))[i].state
    {
      hide Jobs, E.SumDesc, E.RetireList, Distinct;
      ghost var was, q := transferList, Jobs(transferList);
      ghost var k := 0;
      left := count;
      assert q[0..] == q && was[0..] == was;
      E.SumEmpty(q[..0]);
      while transferList != [] && left > transferList[0].descNum
        invariant k <= |was| && transferList == was[k..]
        invariant E.RetireList(q, count) == (k + E.RetireList(q[k..], left).0, E.RetireList(q[k..], left).1)
        invariant descDequeued == old(descDequeued) + E.SumDesc(q[..k])
        invariant forall i :: 0 <= i < |was| ==> was[i].state == if i < k then COMPLETED else q[i].state
        decreases |was| - k
      {
        var transfer := transferList[0];
        assert transfer == was[k] && transfer.descNum == q[k].descNum;
        RetireStep(q, k, left);
        NotElsewhere(was, k);
        left := left - transfer.descNum;
        transferList := transferList[1..];
        descDequeued := descDequeued + transfer.descNum;
        transfer.state := COMPLETED;
        k := k + 1;
      }
      if k < |was| {
        assert transferList[0] == was[k] && was[k].descNum == q[k].descNum;
      }
      RetireStops(q, k, left);
      DistinctSplit(was, k);
    }

    /** `engine_service_final_transfer`. */
    method ServiceFinalTransfer(count: nat)
      requires ListValid() && (transferList != [] ==> count <= transferList[0].descNum)
      modifies this`transferList, this`descDequeued, this`running, Head()`state, Head()`descCmpl
      ensures ListValid()
      ensures old(transferList) == [] ==> View() == old(View())
      ensures old(transferList) != [] ==>
                && (View(), JobOf(old(transferList)[0])) == E.Final(old(View()), count)
                && transferList == old(transferList)[1..]
    {
      hide Jobs, E.HasError;
      if transferList == [] {
        return;
      }
      ghost var was, q := transferList, Jobs(transferList);
      var transfer := transferList[0];
      if E.HasError(dir, status) {
        transfer.state := FAILED;
        EngineStop();
      } else if count < transfer.descNum {
        transfer.state := FAILED;
        descDequeued := descDequeued + transfer.descNum;
        transfer.descCmpl := count;
      } else {
        assert count <= transfer.descNum;    // the WARN_ON
        transfer.state := COMPLETED;
        transfer.descCmpl := transfer.descNum;
        descDequeued := descDequeued + transfer.descNum;
      }
      transferList := transferList[1..];
      assert forall i :: 0 <= i < |transferList| ==> transferList[i] == was[i + 1] && transferList[i] != was[0];
      assert Jobs(transferList) == q[1..];
    }

    /** `engine_service_resume`. */
    method ServiceResume(newStatus: nat)
      requires ListValid()
      modifies this
      ensures ListValid() && transferList == old(transferList) && View() == E.Resume(old(View()), newStatus)
      ensures if !old(running) && transferList != []
              then running && starts == old(starts) + 1 && RegistersFor(transferList[0])
              else Registers() == old(Registers()) && starts == old(starts)
      ensures descIdx == old(descIdx) && descUsed == old(descUsed) && nonIncrAddr == old(nonIncrAddr)
    {
      hide Jobs;
      if !running {
        if transferList != [] {
          var started := EngineStart(newStatus);
        } else if shutdownRequest {
          shutdownIdle := true;
        }
      } else if transferList == [] {
        EngineStop();
      }
    }

    /** `engine_service`, with the registers it reads handed in. */
    method EngineService(r: E.Reading) returns (rv: int)
      requires ListValid()
      modifies this, transferList`state, transferList`descCmpl
      ensures ListValid() && View() == E.Service(old(View()), r).0
      ensures var done := E.Service(old(View()), r).1;
              && |done| <= |old(transferList)| && transferList == old(transferList)[|done|..]
              && forall i :: 0 <= i < |done| ==> JobOf(old(transferList)[i]) == done[i]
      ensures rv == if old(running) && Bit(r.writeback, 31) then -1 else 0
      ensures starts == old(starts) || starts == old(starts) + 1
      ensures if starts > old(starts)
              then running && transferList != [] && RegistersFor(transferList[0])
              else Registers() == old(Registers())
      ensures descIdx == old(descIdx) && descUsed == old(descUsed) && nonIncrAddr == old(nonIncrAddr)
    {
      hide Jobs, E.Retire, E.Resume, Bit, Distinct, E.Polled, E.CountOf;
      if !running {
        status := r.statusRc;
        return 0;
      }
      var count;
      rv, count := Poll(r);
      if count == 0 {
        return;
      }
      RetireCompleted(count);
      ServiceResume(r.startStatus);
    }

    /** The first half of `engine_service` on a running engine: read the status and stop if need be; the
        return value and the completed count. */
    method Poll(r: E.Reading) returns (rv: int, count: nat)
      requires running
      modifies this`status, this`running
      ensures View() == E.Polled(old(View()), r) && count == E.CountOf(r)
      ensures rv == if Bit(r.writeback, 31) then -1 else 0
    {
      hide Jobs, And, Bit;
      var err;
      count, err := And(r.writeback, E.WB_COUNT_MASK), And(r.writeback, E.WB_ERR_MASK);
      E.WritebackMeans(r);
      if count == 0 || err != 0 {
        status := r.statusRc;
      }
      if !E.Busy(status) || count != 0 {
        EngineStop();
      }
      if count == 0 {
        count := r.hwCount;
      }
      rv := if err != 0 then -1 else 0;
    }

    /** The two calls of `engine_service` that retire transfers. */
    method RetireCompleted(count: nat)
      requires ListValid()
      modifies this`transferList, this`descDequeued, this`running, transferList`state, transferList`descCmpl
      ensures ListValid() && View() == E.Retire(old(View()), count).0
      ensures var done := E.Retire(old(View()), count).1;
              && |done| <= |old(transferList)| && transferList == old(transferList)[|done|..]
              && forall i :: 0 <= i < |done| ==> JobOf(old(transferList)[i]) == done[i]
    {
      hide Jobs, E.RetireList, E.SumDesc, E.Final, E.Completed, E.Retire, Distinct;
      ghost var was, q, e := transferList, Jobs(transferList), View();
      E.NoWarning(e, count);
      ghost var k, e1 := RetireParts(e, count);
      var left := ServiceTransferList((count - descDequeued) % U32);
      assert forall i :: 0 <= i < k ==> JobOf(was[i]) == q[i].(state := COMPLETED);
      assert Jobs(transferList) == q[k..];
      assert View() == e1;
      ServiceFinalTransfer(left);
      if k < |was| {
        NotElsewhere(was, k);
      }
    }
  }

  /** The two halves of a retirement, on values. */
  lemma RetireParts(e: E.Eng, count: nat) returns (k: nat, e1: E.Eng)
    ensures var (n, left) := E.RetireList(e.queue, (count - e.dequeued) % U32);
            var (e', done) := E.Retire(e, count);
            && k == n <= |e.queue|
            && e1 == e.(queue := e.queue[k..], dequeued := e.dequeued + E.SumDesc(e.queue[..k]))
            && |done| == (if k < |e.queue| then k + 1 else k)
            && (forall i :: 0 <= i < k ==> done[i] == e.queue[i].(state := COMPLETED))
            && (if k < |e.queue| then (e', done[k]) == E.Final(e1, left) else e' == e1)
  {
    hide E.RetireList, E.SumDesc, E.Final;
    k := E.RetireList(e.queue, (count - e.dequeued) % U32).0;
    e1 := e.(queue := e.queue[k..], dequeued := e.dequeued + E.SumDesc(e.queue[..k]));
  }

  /** One turn of the retiring loop, on values. */
  lemma RetireStep(q: seq<E.Job>, k: nat, left: nat)
    requires k < |q| && left > q[k].descNum
    ensures E.SumDesc(q[..k + 1]) == E.SumDesc(q[..k]) + q[k].descNum
    ensures var (n, rest) := E.RetireList(q[k + 1..], left - q[k].descNum);
            E.RetireList(q[k..], left) == (n + 1, rest)
  {
    hide E.SumDesc;
    assert q[k..][1..] == q[k + 1..];
    assert q[..k + 1] == q[..k] + [q[k]];
    E.SumSnoc(q[..k], q[k]);
  }

  lemma RetireStops(q: seq<E.Job>, k: nat, left: nat)
    requires k <= |q| && (k < |q| ==> left <= q[k].descNum)
    ensures E.RetireList(q[k..], left) == (0, left)
  {
  }

  /** What a start means: with a chain for the transfer in the ring, the hardware started with these
      registers moves the bytes of exactly its descriptors. */
  lemma StartRunsChain(eng: XdmaEngine, x: Xfer)
    requires eng.RingValid() && eng.RegistersFor(x) && x.descAdjacent >= 1
    requires Chained(eng.desc[..], eng.descBus, x.descIndex, x.descAdjacent)
    ensures x.descIndex + x.descAdjacent <= eng.descMax
    ensures var moves := RegisterMoves(eng.desc[..], eng.descBus, eng.firstDescLo, eng.firstDescHi,
                                       eng.firstDescAdjacent, eng.dir, !eng.nonIncrAddr);
            var window := eng.desc[..][x.descIndex..x.descIndex + x.descAdjacent];
            moves == Some(MovesSeq(window, eng.dir, !eng.nonIncrAddr))
  {
    hide RegisterMoves, MovesSeq, Chained, NextAdj, DmaLo, DmaHi;
    RegistersRunChain(eng.desc[..], eng.descBus, x.descIndex, x.descAdjacent, eng.dir, !eng.nonIncrAddr);
  }
}
