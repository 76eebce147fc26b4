/** `transfer_init` and the loops it calls, writing descriptors into the engine's ring in place. */
module Transfer {
  import opened Bits
  import opened Descriptor
  import opened Request
  import opened Hardware
  import opened Chain
  import opened Carve

  datatype TransferState = NEW | SUBMITTED | COMPLETED | FAILED | ABORTED

  /** `struct xdma_transfer`, the fields that memory-mapped submission uses. */
  class Xfer {
    const tag: nat
    var descIndex: nat
    var descNum: nat
    var descAdjacent: nat
    var descCmpl: nat
    var len: nat
    var state: TransferState
    var needUnmap: bool
    var lastInRequest: bool

    constructor (tag: nat)
      ensures this.tag == tag
      ensures state == NEW && len == 0 && !needUnmap && !lastInRequest
    {
      this.tag := tag;
      descIndex, descNum, descAdjacent, descCmpl, len := 0, 0, 0, 0, 0;
      state, needUnmap, lastInRequest := NEW, false, false;
    }
  }

  // ---- what each pass does to one descriptor ----

  /** `transfer_desc_init`. */
  function Linked(d: Desc, chainBus: nat, n: nat, i: nat): Desc {
    var next := NextAddr(chainBus, n, i);
    d.(nextLo := DmaLo(next), nextHi := DmaHi(next), bytes := 0, control := DESC_MAGIC)
  }

  /** ... then `transfer_build`. */
  function Filled(d: Desc, p: seq<Entry>, ep: nat, dir: Direction, incr: bool, chainBus: nat, i: nat): Desc
    requires i < |p|
  {
    SetTransfer(Linked(d, chainBus, |p|, i), p[i].addr, Advance(ep, incr, Total(p[..i])), p[i].len, dir)
  }

  /** ... then the control byte of the last one. */
  function Marked(d: Desc, p: seq<Entry>, ep: nat, dir: Direction, incr: bool, chainBus: nat, i: nat): Desc
    requires i < |p|
  {
    var f := Filled(d, p, ep, dir, incr, chainBus, i);
    if i + 1 == |p| then SetControl(f, LastControl()).1 else f
  }

  /** ... then the adjacent counts: the chain's descriptor, whatever was in the slot before. */
  lemma PassesMakeChain(d: Desc, p: seq<Entry>, ep: nat, dir: Direction, incr: bool, chainBus: nat, i: nat)
    requires i < |p| && chainBus % DESC_SIZE == 0 && chainBus + DESC_SIZE * |p| < U64
    ensures var m := Marked(d, p, ep, dir, incr, chainBus, i);
            SetAdjacent(m, NextAdj(|p| - i - 1, m.nextLo)) == ChainDesc(p, ep, dir, incr, chainBus, i)
  {
    hide And, Or, NextAdj, DmaLo, DmaHi, Total, SetAdjacent, SetControl, NextAddr, LastControl;
    var f := Filled(d, p, ep, dir, incr, chainBus, i);
    FreshControl(f);
    LastControlValue();
    AdjRange(chainBus, |p|, i);
    var m := Marked(d, p, ep, dir, incr, chainBus, i);
    var adj := NextAdj(|p| - i - 1, DmaLo(NextAddr(chainBus, |p|, i)));
    FreshWord(m, if i + 1 == |p| then LastControl() else 0, adj);
    OnlyControl(m, adj);
  }

  /** The ring when the window is linked, filled and marked. */
  ghost predicate AllMarked(ring: seq<Desc>, before: seq<Desc>, base: nat, start: nat,
                            p: seq<Entry>, ep: nat, dir: Direction, incr: bool) {
    && |ring| == |before| && start + |p| <= |ring|
    && forall j :: 0 <= j < |ring| ==>
         ring[j] == if start <= j < start + |p|
                    then Marked(before[j], p, ep, dir, incr, base + DESC_SIZE * start, j - start) else before[j]
  }

  /** Filling the adjacent counts of a marked window gives the laid-out ring. */
  lemma FinishedRing(ring: seq<Desc>, marked: seq<Desc>, before: seq<Desc>, base: nat, start: nat,
                     p: seq<Entry>, ep: nat, dir: Direction, incr: bool)
    requires AllMarked(marked, before, base, start, p, ep, dir, incr) && GoodBase(base, |before|)
    requires |ring| == |marked|
    requires forall j :: 0 <= j < |ring| ==>
               ring[j] == if start <= j < start + |p|
                          then SetAdjacent(marked[j], NextAdj(|p| - (j - start) - 1, marked[j].nextLo)) else marked[j]
    ensures ring == Lay(before, base, start, p, ep, dir, incr)
  {
    hide Marked, SetAdjacent, NextAdj, ChainDesc;
    forall j | 0 <= j < |ring| ensures ring[j] == Lay(before, base, start, p, ep, dir, incr)[j] {
      if start <= j < start + |p| {
        PassesMakeChain(before[j], p, ep, dir, incr, base + DESC_SIZE * start, j - start);
      }
    }
  }

  lemma OnlyControl(d: Desc, adj: nat)
    ensures SetAdjacent(d, adj) == d.(control := SetAdjacent(d, adj).control)
  {
    hide And, Or;
  }

  // ---- the passes ----

  /** `transfer_desc_init`: link the window, clear the counts, write the magic. */
  method TransferDescInit(ring: array<Desc>, start: nat, chainBus: nat, count: nat)
    requires count >= 1 && start + count <= ring.Length
    modifies ring
    ensures forall j :: 0 <= j < ring.Length ==>
              ring[j] == if start <= j < start + count
                         then Linked(old(ring[j]), chainBus, count, j - start) else old(ring[j])
  {
    hide And, DmaHi;
    var bus, i := chainBus, 0;
    while i < count - 1
      invariant 0 <= i <= count - 1 && bus == chainBus + DESC_SIZE * i
      invariant forall j :: 0 <= j < ring.Length ==>
                  ring[j] == if start <= j < start + i
                             then Linked(old(ring[j]), chainBus, count, j - start) else old(ring[j])
    {
      bus := bus + DESC_SIZE;
      ring[start + i] :=
        ring[start + i].(nextLo := DmaLo(bus), nextHi := DmaHi(bus), bytes := 0, control := DESC_MAGIC);
      i := i + 1;
    }
    ring[start + i] := ring[start + i].(nextLo := DmaLo(0), nextHi := DmaHi(0), bytes := 0, control := DESC_MAGIC);
  }

  /** `transfer_build`: one software descriptor per slot, the endpoint address advancing unless the
      engine uses a fixed one. */
  method TransferBuild(ring: array<Desc>, start: nat, chainBus: nat, ghost before: seq<Desc>,
                       req: RequestCb, xfer: Xfer, n: nat, dir: Direction, nonIncrAddr: bool)
    requires start + n <= ring.Length == |before|
    requires req.swDescIdx + n <= req.swDescCnt <= req.sdesc.Length
    requires forall j :: start <= j < start + n ==> ring[j] == Linked(before[j], chainBus, n, j - start)
    requires GoodPieces(req.sdesc[req.swDescIdx..req.swDescIdx + n], req.epAddr)
    requires xfer.len + Total(req.sdesc[req.swDescIdx..req.swDescIdx + n]) < U32
    modifies ring, req`epAddr, req`swDescIdx, xfer`len
    ensures var p := old(req.sdesc[req.swDescIdx..req.swDescIdx + n]);
            && (forall j :: 0 <= j < ring.Length ==>
                  ring[j] == if start <= j < start + n
                             then Filled(before[j], p, old(req.epAddr), dir, !nonIncrAddr, chainBus, j - start)
                             else old(ring[j]))
            && req.epAddr == Advance(old(req.epAddr), !nonIncrAddr, Total(p))
            && xfer.len == old(xfer.len) + Total(p)
    ensures req.swDescIdx == old(req.swDescIdx) + n
  {
    hide Linked, SetTransfer, Total;
    ghost var p := req.sdesc[req.swDescIdx..req.swDescIdx + n];
    ghost var ep := req.epAddr;
    EmptyTotal(p[..0]);
    for i := 0 to n
      invariant req.epAddr == Advance(ep, !nonIncrAddr, Total(p[..i]))
      invariant xfer.len == old(xfer.len) + Total(p[..i])
      invariant req.swDescIdx == old(req.swDescIdx)
      invariant forall j :: 0 <= j < ring.Length ==>
                  ring[j] == if start <= j < start + i
                             then Filled(before[j], p, ep, dir, !nonIncrAddr, chainBus, j - start) else old(ring[j])
    {
      var s := req.sdesc[req.swDescIdx + i];
      assert s == p[i];
      PrefixTotal(p, i);
      assert p[i] in p;
      ring[start + i] := SetTransfer(ring[start + i], s.addr, req.epAddr, s.len, dir);
      xfer.len := (xfer.len + s.len) % U32;
      if !nonIncrAddr {
        req.epAddr := (req.epAddr + s.len) % U64;
      }
    }
    assert p[..n] == p;
    req.swDescIdx := req.swDescIdx + n;
  }

  lemma EmptyTotal(p: seq<Entry>)
    requires p == []
    ensures Total(p) == 0
  {
  }

  lemma PrefixTotal(p: seq<Entry>, i: nat)
    requires i < |p|
    ensures Total(p[..i + 1]) == Total(p[..i]) + p[i].len <= Total(p)
  {
    assert p[..i + 1] == p[..i] + [p[i]];
    TotalAppend(p[..i], [p[i]]);
    assert Total([p[i]]) == p[i].len by { assert Total([p[i]][1..]) == 0; }
    TotalAppend(p[..i + 1], p[i + 1..]);
    assert p == p[..i + 1] + p[i + 1..];
  }

  /** The loop of `transfer_init` that fills in the adjacent counts. */
  method FillAdjacent(ring: array<Desc>, start: nat, n: nat)
    requires start + n <= ring.Length
    modifies ring
    ensures forall j :: 0 <= j < ring.Length ==>
              ring[j] == if start <= j < start + n
                         then SetAdjacent(old(ring[j]), NextAdj(n - (j - start) - 1, old(ring[j]).nextLo))
                         else old(ring[j])
  {
    hide SetAdjacent, NextAdj;
    for i := 0 to n
      invariant forall j :: 0 <= j < ring.Length ==>
                  ring[j] == if start <= j < start + i
                             then SetAdjacent(old(ring[j]), NextAdj(n - (j - start) - 1, old(ring[j]).nextLo))
                             else old(ring[j])
    {
      var adj := NextAdj(n - i - 1, ring[start + i].nextLo);
      ring[start + i] := SetAdjacent(ring[start + i], adj);
    }
  }

  /** The body of `transfer_init` once the window [start, start+n) has been chosen: link it, fill it,
      mark its last descriptor, and fill in the adjacent counts. */
  method BuildChain(ring: array<Desc>, start: nat, base: nat, req: RequestCb, xfer: Xfer, n: nat, dir: Direction,
                    nonIncrAddr: bool)
    requires 1 <= n && start + n <= ring.Length && GoodBase(base, ring.Length)
    requires req.swDescIdx + n <= req.swDescCnt <= req.sdesc.Length
    requires GoodPieces(req.sdesc[req.swDescIdx..req.swDescIdx + n], req.epAddr)
    requires xfer.len + Total(req.sdesc[req.swDescIdx..req.swDescIdx + n]) < U32
    modifies ring, req`epAddr, req`swDescIdx, xfer`len, xfer`descAdjacent, xfer`descNum
    ensures var p := old(req.sdesc[req.swDescIdx..req.swDescIdx + n]);
            && ring[..] == Lay(old(ring[..]), base, start, p, old(req.epAddr), dir, !nonIncrAddr)
            && req.epAddr == Advance(old(req.epAddr), !nonIncrAddr, Total(p))
            && xfer.len == old(xfer.len) + Total(p)
    ensures req.swDescIdx == old(req.swDescIdx) + n && xfer.descNum == xfer.descAdjacent == n
  {
    hide Filled, Linked, SetControl, SetAdjacent, NextAdj, Total, Lay, GoodPieces;
    ghost var before := ring[..];
    ghost var p, ep := req.sdesc[req.swDescIdx..req.swDescIdx + n], req.epAddr;
    var chainBus := base + DESC_SIZE * start;
    TransferDescInit(ring, start, chainBus, n);
    TransferBuild(ring, start, chainBus, before, req, xfer, n, dir, nonIncrAddr);
    xfer.descAdjacent := n;
    var (ok, last) := SetControl(ring[start + n - 1], LastControl());
    ring[start + n - 1] := last;
    xfer.descNum := n;
    ghost var marked := ring[..];
    assert AllMarked(marked, before, base, start, p, ep, dir, !nonIncrAddr);
    FillAdjacent(ring, start, n);
    FinishedRing(ring[..], marked, before, base, start, p, ep, dir, !nonIncrAddr);
  }
}
