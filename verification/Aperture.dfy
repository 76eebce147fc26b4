/** The code of `xdma_xfer_aperture`. */
module Aperture {
  import opened Bits
  import opened Descriptor
  import opened Request
  import opened Hardware
  import opened Chain
  import opened Carve
  import opened Transfer
  import opened Engine
  import opened Wait
  import opened Submit
  import opened Pieces
  import opened ApertureCall
  import E = EngineModel

  // ---- the code: filling ----

  /** `struct xdma_request_cb`, the fields of an aperture request. */
  class ApertureCb {
    const epAddr: nat
    const aperture: nat
    const totalLen: nat
    var offset: nat
    var sgIdx: nat
    var sgOffset: nat

    constructor (ep: nat, ap: nat, total: nat)
      ensures epAddr == ep && aperture == ap && totalLen == total
      ensures offset == 0 && sgIdx == 0 && sgOffset == 0
    {
      epAddr, aperture, totalLen, offset, sgIdx, sgOffset := ep, ap, total, 0, 0, 0;
    }

    ghost function Cursor(): Cur
      reads this
    {
      Cur(sgIdx, sgOffset, offset)
    }
  }

  /** Where the endpoint address may be at request offset o: in place, or at the end about to wrap. */
  predicate EpAt(ep: nat, w: Work, o: nat)
    requires Sane(w)
  {
    ep == w.base + o % w.ap || (o % w.ap == 0 && ep == w.base + w.ap)
  }

  lemma EpStep(w: Work, o: nat, len: nat)
    requires Sane(w) && o % w.ap + len <= w.ap
    ensures EpAt(w.base + o % w.ap + len, w, o + len)
  {
    var q, r := DivModSum(o, w.ap);
    if r + len < w.ap {
      DivModUnique(o + len, w.ap, q, r + len);
    } else {
      DivModUnique(o + len, w.ap, q + 1, 0);
    }
  }

  /** The endpoint address after the wrap test. */
  lemma Wrapped(ep: nat, w: Work, o: nat)
    requires Sane(w) && EpAt(ep, w, o)
    ensures (if ep > w.base + w.ap - 1 then w.base else ep) == w.base + o % w.ap <= w.base + w.ap - 1
  {
  }

  lemma Plus32Twice(a: nat, m: nat, k: nat)
    ensures Plus32(Plus32(a, m), k) == Plus32(a, m + k) < U32
  {
  }

  lemma Plus32Less(a: nat, b: nat)
    ensures Plus32(a, b) < U32
  {
  }

  lemma Plus32Zero(a: nat)
    requires a < U32
    ensures Plus32(a, 0) == a
  {
  }

  /** The length the code works out for the next piece. */
  lemma LenIs(w: Work, tlen: nat, o: nat, ep: nat, epMax: nat)
    requires Sane(w) && tlen >= 1 && ep == w.base + o % w.ap && epMax == w.base + w.ap - 1
    ensures var len := Min(tlen, w.maxlen);
            && PieceLen(w, tlen, o) == (if ep + len > epMax then epMax - ep + 1 else len)
            && o % w.ap + PieceLen(w, tlen, o) <= w.ap
  {
  }

  /** The ring with the pieces written from index `at` on, links and control words left alone. */
  function Write(ring: seq<Desc>, at: nat, ps: seq<Piece>, dir: Direction): seq<Desc> {
    seq(|ring|, j requires 0 <= j < |ring| =>
      if at <= j < at + |ps|
      then SetTransfer(ring[j], ps[j - at].addr, ps[j - at].ep, ps[j - at].len, dir) else ring[j])
  }

  lemma WriteMore(ring: seq<Desc>, at: nat, a: seq<Piece>, b: seq<Piece>, dir: Direction)
    ensures Write(Write(ring, at, a, dir), at + |a|, b, dir) == Write(ring, at, a + b, dir)
  {
    hide SetTransfer;
    var l, r := Write(Write(ring, at, a, dir), at + |a|, b, dir), Write(ring, at, a + b, dir);
    forall j | 0 <= j < |ring| ensures l[j] == r[j] {
      if at + |a| <= j < at + |a| + |b| {
        assert (a + b)[j - at] == b[j - (at + |a|)];
      }
    }
  }

  lemma WriteNothing(ring: seq<Desc>, at: nat, dir: Direction)
    ensures Write(ring, at, [], dir) == ring
  {
  }

  /** n of the pieces `all` are done, m bytes; tlen bytes at addr are left. */
  ghost predicate Cutting(w: Work, all: seq<Piece>, off: nat, n: nat, m: nat, addr: nat, tlen: nat) {
    && Sane(w) && n <= |all| && m == Bytes(all[..n]) && addr < U64 && all[n..] == Cut(w, addr, tlen, off + m)
  }

  lemma CuttingStart(w: Work, addr: nat, tlen: nat, off: nat)
    requires Sane(w) && addr < U64
    ensures Cutting(w, Cut(w, addr, tlen, off), off, 0, 0, addr, tlen)
  {
    hide Cut;
    assert Cut(w, addr, tlen, off)[0..] == Cut(w, addr, tlen, off);
  }

  lemma CuttingTurn(w: Work, all: seq<Piece>, off: nat, n: nat, m: nat, addr: nat, tlen: nat)
    requires Cutting(w, all, off, n, m, addr, tlen) && tlen > 0
    ensures var k := PieceLen(w, tlen, off + m);
            && n < |all| && all[n] == Piece(addr, w.base + (off + m) % w.ap, k) && 1 <= k <= tlen
            && Cutting(w, all, off, n + 1, m + k, (addr + k) % U64, tlen - k)
            && all[..n + 1] == all[..n] + [all[n]]
  {
    hide Cut, PieceLen, Bytes;
    CutNotEmpty(w, addr, tlen, off + m);
    CutStep(w, addr, tlen, off + m);
    assert all[..n + 1] == all[..n] + [all[n]];
    BytesAppend(all[..n], [all[n]]);
    BytesOne(all[n]);
    assert all[n + 1..] == all[n..][1..];
  }

  /** At the end of the entry or of the ring. */
  lemma CuttingEnd(w: Work, all: seq<Piece>, off: nat, n: nat, m: nat, addr: nat, tlen: nat)
    requires Cutting(w, all, off, n, m, addr, tlen)
    ensures n <= |all| && m == Bytes(all[..n]) && (tlen == 0 <==> n == |all|)
  {
    hide Cut;
    CutNotEmpty(w, addr, tlen, off + m);
  }

  /** The inner loop: descriptors for the rest of one scatter entry, as far as the ring reaches. */
  method FillFromEntry(ring: array<Desc>, idx0: nat, w: Work, addr0: nat, tlen0: nat, ep0: nat, sgOffset0: nat,
                       cb: ApertureCb, xfer: Xfer, ghost off: nat)
    returns (descIdx: nat, tlen: nat, ep: nat, sgOffset: nat)
    requires Sane(w) && idx0 < ring.Length && addr0 < U64 && EpAt(ep0, w, off)
    requires sgOffset0 < U32 && cb.offset < U32 && xfer.len < U32
    modifies ring, cb`offset, xfer`len
    ensures var all := Cut(w, addr0, tlen0, off);
            var n := Min(|all|, ring.Length - idx0);
            var m := Bytes(all[..n]);
            && descIdx == idx0 + n && (tlen == 0 <==> |all| <= ring.Length - idx0)
            && ring[..] == Write(old(ring[..]), idx0, all[..n], w.dir) && EpAt(ep, w, off + m)
            && sgOffset == Plus32(sgOffset0, m) && cb.offset == Plus32(old(cb.offset), m)
            && xfer.len == Plus32(old(xfer.len), m)
  {
    hide Cut, SetTransfer, Bytes, Write, EpAt, Cutting, PieceLen, Plus32;
    var addr: nat := addr0;
    descIdx, tlen, ep, sgOffset := idx0, tlen0, ep0, sgOffset0;
    var epMax := w.base + w.ap - 1;
    ghost var all, before := Cut(w, addr0, tlen0, off), ring[..];
    ghost var n: nat, m: nat := 0, 0;
    CuttingStart(w, addr0, tlen0, off);
    WriteNothing(before, idx0, w.dir);
    assert all[..0] == [];
    Plus32Zero(sgOffset0);
    Plus32Zero(cb.offset);
    Plus32Zero(xfer.len);
    while tlen > 0
      invariant n <= |all| && descIdx == idx0 + n < ring.Length && Cutting(w, all, off, n, m, addr, tlen)
      invariant ring[..] == Write(before, idx0, all[..n], w.dir) && EpAt(ep, w, off + m)
      invariant sgOffset == Plus32(sgOffset0, m) && cb.offset == Plus32(old(cb.offset), m)
      invariant xfer.len == Plus32(old(xfer.len), m)
      decreases tlen
    {
      CuttingTurn(w, all, off, n, m, addr, tlen);
      Wrapped(ep, w, off + m);
      ghost var k := PieceLen(w, tlen, off + m);
      Plus32Twice(sgOffset0, m, k);
      Plus32Twice(old(cb.offset), m, k);
      Plus32Twice(old(xfer.len), m, k);
      var len := Min(tlen, w.maxlen);
      if ep > epMax {
        ep := w.base;
      }
      LenIs(w, tlen, off + m, ep, epMax);
      if ep + len > epMax {
        len := epMax - ep + 1;
      }
      EpStep(w, off + m, len);
      WriteOne(ring[..], before, idx0, all[..n], all[n], w.dir);
      ring[descIdx] := SetTransfer(ring[descIdx], addr, ep, len, w.dir);
      sgOffset := Plus32(sgOffset, len);
      cb.offset := Plus32(cb.offset, len);
      xfer.len := Plus32(xfer.len, len);
      ep := ep + len;
      addr := (addr + len) % U64;
      tlen := tlen - len;
      n, m := n + 1, m + len;
      descIdx := descIdx + 1;
      if descIdx == ring.Length {
        break;
      }
    }
    CuttingEnd(w, all, off, n, m, addr, tlen);
  }

  lemma WriteOne(ring: seq<Desc>, before: seq<Desc>, at: nat, ps: seq<Piece>, x: Piece, dir: Direction)
    requires ring == Write(before, at, ps, dir) && at + |ps| < |before|
    ensures |ring| == |before|
    ensures var j := at + |ps|;
            ring[j := SetTransfer(ring[j], x.addr, x.ep, x.len, dir)] == Write(before, at, ps + [x], dir)
  {
    hide SetTransfer;
  }

  /** The pieces ps have been taken; the rest of the loop takes what FillFrom says from here on. */
  ghost predicate Filling(w: Work, whole: (seq<Piece>, nat, nat), off: nat, ps: seq<Piece>,
                          room: nat, sg: nat, i: nat, within: nat) {
    && Sane(w) && sg <= i
    && var rest := FillFrom(w, room, sg, i, within, off + Bytes(ps));
       whole == (ps + rest.0, rest.1, rest.2)
  }

  lemma FillingStart(w: Work, room: nat, i: nat, within: nat, off: nat)
    requires Sane(w)
    ensures Filling(w, FillFrom(w, room, 0, i, within, off), off, [], room, 0, i, within)
  {
    hide FillFrom;
    NothingCut(w);
    var r := FillFrom(w, room, 0, i, within, off);
    assert [] + r.0 == r.0;
  }

  lemma FillingEnd(w: Work, whole: (seq<Piece>, nat, nat), off: nat, ps: seq<Piece>,
                   room: nat, sg: nat, i: nat, within: nat)
    requires Filling(w, whole, off, ps, room, sg, i, within) && (i >= |w.sgl| || room == 0)
    ensures whole == (ps, i, within)
  {
    hide FillFrom, Bytes;
    FillEnd(w, room, sg, i, within, off + Bytes(ps));
    assert ps + [] == ps;
  }

  /** One entry: it is used up, or the ring is. */
  lemma FillingEntry(w: Work, whole: (seq<Piece>, nat, nat), off: nat, ps: seq<Piece>,
                     room: nat, sg: nat, i: nat, within: nat)
    requires Filling(w, whole, off, ps, room, sg, i, within) && i < |w.sgl| && room > 0
    ensures sg < |w.sgl|
    ensures var all := EntryPieces(w, sg, within, off + Bytes(ps));
            var n := Min(|all|, room);
            && Bytes(ps + all[..n]) == Bytes(ps) + Bytes(all[..n])
            && (|all| <= room ==> Filling(w, whole, off, ps + all[..n], room - n, sg + 1, i + 1, 0))
            && (|all| > room ==> whole == (ps + all[..n], i, Plus32(within, Bytes(all[..n]))))
  {
    hide FillFrom, Bytes, EntryPieces;
    var all := EntryPieces(w, sg, within, off + Bytes(ps));
    FillStep(w, room, sg, i, within, off + Bytes(ps));
    BytesAppend(ps, all[..Min(|all|, room)]);
    if |all| <= room {
      assert all[..|all|] == all;
      var rest := FillFrom(w, room - |all|, sg + 1, i + 1, 0, off + Bytes(ps) + Bytes(all)).0;
      assert ps + (all + rest) == ps + all + rest;
    }
  }

  lemma MaskIsRemainder(x: nat, ap: nat)
    requires ap >= 1 && exists k: nat :: ap == Pow2(k)
    ensures And(x, ap - 1) == x % ap
  {
    hide And, Pow2;
    var k: nat :| ap == Pow2(k);
    AndMask(x, k);
  }

  /** Where the rest of an entry lies, as the code works it out. */
  method EntryRest(e: Entry, sgOffset: nat) returns (addr: nat, tlen: nat)
    requires e.len < U32 && e.addr < U64
    ensures addr == RestAddr(e, sgOffset) < U64 && tlen == RestLen(e, sgOffset)
  {
    addr, tlen := e.addr, e.len;
    if sgOffset != 0 {
      tlen := (tlen - sgOffset) % U32;
      addr := (addr + sgOffset) % U64;
    }
  }

  /** The loop over scatter entries that fills the descriptors of one transfer, from any cursor. */
  method FillDescriptors(ring: array<Desc>, start: nat, w: Work, cb: ApertureCb, xfer: Xfer) returns (descIdx: nat)
    requires GoodWork(w) && (exists k: nat :: w.ap == Pow2(k)) && cb.epAddr == w.base && cb.aperture == w.ap
    requires start < ring.Length && cb.offset < U32 && cb.sgOffset < U32 && xfer.len == 0
    modifies ring, cb, xfer`len
    ensures var (ps, cur) := Fill(w, ring.Length - start, old(cb.Cursor()));
            && descIdx == start + |ps| <= ring.Length && ring[..] == Write(old(ring[..]), start, ps, w.dir)
            && cb.Cursor() == cur && xfer.len == Plus32(0, Bytes(ps))
  {
    hide FillFrom, Filling, Bytes, And, Pow2, GoodWork, Write, EntryPieces, EpAt, Plus32, RestAddr, RestLen, Cut;
    Sanity(w);
    EntriesStorable(w);
    MaskIsRemainder(cb.offset, w.ap);
    ghost var off, before := cb.offset, ring[..];
    ghost var whole := FillFrom(w, ring.Length - start, 0, cb.sgIdx, cb.sgOffset, off);
    var ep: nat := cb.epAddr + And(cb.offset, cb.aperture - 1);
    var sgOffset: nat, i, sg := cb.sgOffset, cb.sgIdx, 0;
    descIdx := start;
    ghost var ps: seq<Piece> := [];
    NothingCut(w);
    WriteNothing(before, start, w.dir);
    FillingStart(w, ring.Length - start, i, sgOffset, off);
    EpStarts(w, off);
    Plus32Zero(off);
    Plus32Zero(0);
    while i < |w.sgl| && descIdx < ring.Length
      invariant sg <= i && descIdx == start + |ps| <= ring.Length && sgOffset < U32
      invariant cb.sgIdx == old(cb.sgIdx) && cb.sgOffset == old(cb.sgOffset)
      invariant Filling(w, whole, off, ps, ring.Length - descIdx, sg, i, sgOffset)
      invariant ring[..] == Write(before, start, ps, w.dir) && EpAt(ep, w, off + Bytes(ps))
      invariant cb.offset == Plus32(off, Bytes(ps)) < U32 && xfer.len == Plus32(0, Bytes(ps)) < U32
      decreases |w.sgl| - i
    {
      FillingEntry(w, whole, off, ps, ring.Length - descIdx, sg, i, sgOffset);
      var addr, tlen := EntryRest(w.sgl[sg], sgOffset);
      ghost var all, o0 := EntryPieces(w, sg, sgOffset, off + Bytes(ps)), off + Bytes(ps);
      ghost var n := Min(|all|, ring.Length - descIdx);
      EntryIsCut(w, sg, sgOffset, o0);
      WriteMore(before, start, ps, all[..n], w.dir);
      Plus32Twice(off, Bytes(ps), Bytes(all[..n]));
      Plus32Twice(0, Bytes(ps), Bytes(all[..n]));
      Plus32Less(sgOffset, Bytes(all[..n]));
      descIdx, tlen, ep, sgOffset := FillFromEntry(ring, descIdx, w, addr, tlen, ep, sgOffset, cb, xfer, o0);
      ps := ps + all[..n];
      if tlen == 0 {
        sgOffset := 0;
      } else {
        break;
      }
      i, sg := i + 1, sg + 1;
    }
    if i >= |w.sgl| || descIdx == ring.Length {
      FillingStop(w, whole, off, ps, ring.Length - descIdx, sg, i, sgOffset);
    }
    cb.sgOffset := sgOffset;
    cb.sgIdx := i;
  }

  lemma FillingStop(w: Work, whole: (seq<Piece>, nat, nat), off: nat, ps: seq<Piece>,
                    room: nat, sg: nat, i: nat, within: nat)
    requires i >= |w.sgl| || room == 0
    ensures Filling(w, whole, off, ps, room, sg, i, within) ==> whole == (ps, i, within)
  {
    hide FillFrom, Bytes;
    if Filling(w, whole, off, ps, room, sg, i, within) {
      FillingEnd(w, whole, off, ps, room, sg, i, within);
    }
  }

  lemma EntryIsCut(w: Work, sg: nat, within: nat, off: nat)
    requires Sane(w) && sg < |w.sgl|
    ensures EntryPieces(w, sg, within, off) == Cut(w, RestAddr(w.sgl[sg], within), RestLen(w.sgl[sg], within), off)
  {
    hide Cut;
  }

  lemma EpStarts(w: Work, o: nat)
    requires Sane(w)
    ensures EpAt(w.base + o % w.ap, w, o)
  {
  }

  lemma EntriesStorable(w: Work)
    requires GoodWork(w)
    ensures forall i :: 0 <= i < |w.sgl| ==> w.sgl[i].addr < U64 && w.sgl[i].len < U32
  {
    hide Total;
  }

  // ---- the code: linking ----

  /** The control word of the last descriptor, as the aperture code writes it. */
  function LastWord(): nat { Or(Or(Or(DESC_MAGIC, DESC_STOPPED), DESC_EOP), DESC_COMPLETED) }

  lemma LastWordValue()
    ensures LastWord() == DESC_MAGIC + LastControl()
  {
    hide Or;
    WithZero(0xAD4B);
    OrSplitAt(0xAD4B, 0, 0, 1, 16, 0x1_0000);
    WithZero(1);
    OrSplitAt(0xAD4B, 1, 0, 0x10, 16, 0x1_0000);
    OrSplitAt(0xAD4B, Or(1, 0x10), 0, 2, 16, 0x1_0000);
    LastControlValue();
  }

  /** Descriptor i of n once linked; what it moves is left alone. */
  function Joined(d: Desc, chainBus: nat, n: nat, i: nat): Desc {
    var next := NextAddr(chainBus, n, i);
    d.(nextLo := DmaLo(next), nextHi := DmaHi(next), control := if i + 1 == n then LastWord() else DESC_MAGIC)
  }

  /** The loop that creates the linked list, and the termination of its last descriptor. */
  method LinkDescriptors(ring: array<Desc>, start: nat, chainBus: nat, count: nat)
    requires count >= 1 && start + count <= ring.Length
    modifies ring
    ensures forall j :: 0 <= j < ring.Length ==>
              ring[j] == if start <= j < start + count
                         then Joined(old(ring[j]), chainBus, count, j - start) else old(ring[j])
  {
    hide And, Or, DmaHi, LastWord;
    var bus, i := chainBus, 0;
    while i < count - 1
      invariant 0 <= i <= count - 1 && bus == chainBus + DESC_SIZE * i
      invariant forall j :: 0 <= j < ring.Length ==>
                  ring[j] == if start <= j < start + i
                             then Joined(old(ring[j]), chainBus, count, j - start) else old(ring[j])
    {
      bus := bus + DESC_SIZE;
      ring[start + i] := ring[start + i].(nextLo := DmaLo(bus), nextHi := DmaHi(bus), control := DESC_MAGIC);
      i := i + 1;
    }
    ring[start + i] := ring[start + i].(nextLo := DmaLo(0), nextHi := DmaHi(0), control := LastWord());
  }

  /** A piece written, linked and given its count is the chain's descriptor, whatever was there. */
  lemma PassesMakePiece(d: Desc, ps: seq<Piece>, dir: Direction, chainBus: nat, i: nat)
    requires i < |ps| && chainBus % DESC_SIZE == 0 && chainBus + DESC_SIZE * |ps| < U64
    ensures var f := Joined(SetTransfer(d, ps[i].addr, ps[i].ep, ps[i].len, dir), chainBus, |ps|, i);
            SetAdjacent(f, NextAdj(|ps| - i - 1, f.nextLo)) == PieceDesc(ps, dir, chainBus, i)
  {
    hide And, Or, NextAdj, DmaLo, DmaHi, SetAdjacent, NextAddr, LastControl, LastWord;
    LastWordValue();
    LastControlValue();
    AdjRange(chainBus, |ps|, i);
    var f := Joined(SetTransfer(d, ps[i].addr, ps[i].ep, ps[i].len, dir), chainBus, |ps|, i);
    var adj := NextAdj(|ps| - i - 1, f.nextLo);
    FreshWord(f, if i + 1 == |ps| then LastControl() else 0, adj);
    OnlyControl(f, adj);
  }

  /** The ring once the written window has been linked and given its counts. */
  lemma FinishedPieces(before: seq<Desc>, ring: seq<Desc>, base: nat, s: nat, ps: seq<Piece>, dir: Direction)
    requires |before| == |ring| && s + |ps| <= |ring| && GoodBase(base, |ring|)
    requires forall j :: s <= j < s + |ps| ==>
               var f := Joined(Write(before, s, ps, dir)[j], base + DESC_SIZE * s, |ps|, j - s);
               ring[j] == SetAdjacent(f, NextAdj(|ps| - (j - s) - 1, f.nextLo))
    requires forall j :: 0 <= j < |ring| && !(s <= j < s + |ps|) ==> ring[j] == Write(before, s, ps, dir)[j]
    ensures ring == LayPieces(before, base, s, ps, dir)
  {
    hide Joined, SetAdjacent, NextAdj, Write, LayPieces, GoodBase;
    LayPiecesLength(before, base, s, ps, dir);
    forall j | 0 <= j < |ring| ensures ring[j] == LayPieces(before, base, s, ps, dir)[j] {
      FinishedPiece(before, base, s, ps, dir, j);
    }
  }

  /** One descriptor of it. */
  lemma FinishedPiece(before: seq<Desc>, base: nat, s: nat, ps: seq<Piece>, dir: Direction, j: nat)
    requires j < |before| && s + |ps| <= |before| && GoodBase(base, |before|)
    ensures |Write(before, s, ps, dir)| == |LayPieces(before, base, s, ps, dir)| == |before|
    ensures var laid, d := LayPieces(before, base, s, ps, dir)[j], Write(before, s, ps, dir)[j];
            if s <= j < s + |ps| then
              var f := Joined(d, base + DESC_SIZE * s, |ps|, j - s);
              laid == SetAdjacent(f, NextAdj(|ps| - (j - s) - 1, f.nextLo))
            else
              laid == d
  {
    hide Joined, SetAdjacent, NextAdj, SetTransfer, PieceDesc;
    if s <= j < s + |ps| {
      PassesMakePiece(before[j], ps, dir, base + DESC_SIZE * s, j - s);
    }
  }

  /** Linking and counting turn the window just written into a chain. */
  method LinkAndCount(ring: array<Desc>, base: nat, start: nat, c: nat,
                      ghost before: seq<Desc>, ghost ps: seq<Piece>, ghost dir: Direction)
    requires |before| == ring.Length && c == |ps| >= 1 && start + c <= ring.Length && GoodBase(base, ring.Length)
    requires ring[..] == Write(before, start, ps, dir)
    modifies ring
    ensures ring[..] == LayPieces(before, base, start, ps, dir)
  {
    hide Write, Joined, SetAdjacent, NextAdj, LayPieces;
    ghost var written := ring[..];
    LinkDescriptors(ring, start, base + DESC_SIZE * start, c);
    FillAdjacent(ring, start, c);
    FinishedPieces(before, ring[..], base, start, ps, dir);
  }

  // ---- the code: one transfer ----

  /** One turn of the outer loop up to the release of the engine lock, from any cursor: fill, link and
      count the descriptors of the next transfer.  It comes to nothing (ok false) exactly if no piece
      is left for it, where the code's link loop, with an unsigned bound of -1, leaves the ring. */
  method BuildTransfer(eng: XdmaEngine, w: Work, cb: ApertureCb, xfer: Xfer) returns (ok: bool)
    requires eng.RingValid() && GoodWork(w) && (exists k: nat :: w.ap == Pow2(k)) && w.dir == eng.dir
    requires cb.epAddr == w.base && cb.aperture == w.ap && cb.offset < U32 && cb.sgOffset < U32
    modifies eng`descIdx, eng`descUsed, eng.desc, cb, xfer
    ensures eng.RingValid()
    ensures var s := old(eng.descIdx);
            var (ps, cur) := Fill(w, eng.descMax - s, old(cb.Cursor()));
            && (ok <==> ps != []) && |ps| <= eng.descMax - s && cb.Cursor() == cur
            && (ok ==> eng.desc[..] == LayPieces(old(eng.desc[..]), eng.descBus, s, ps, w.dir)
                       && NewTransfer(xfer, s, |ps|, Plus32(0, Bytes(ps))))
            && (!ok ==> eng.desc[..] == old(eng.desc[..]))
            && eng.descIdx == (s + |ps|) % eng.descMax && eng.descUsed == old(eng.descUsed) + |ps|
    ensures !xfer.needUnmap && !xfer.lastInRequest
  {
    hide Fill, Bytes, Write, GoodWork, Pow2, LayPieces, Plus32, GoodBase;
    Sanity(w);
    xfer.descCmpl, xfer.len, xfer.state, xfer.needUnmap, xfer.lastInRequest := 0, 0, NEW, false, false;
    xfer.descIndex := eng.descIdx;
    ghost var s, before := eng.descIdx, eng.desc[..];
    ghost var ps := Fill(w, eng.descMax - s, cb.Cursor()).0;
    var end := FillDescriptors(eng.desc, eng.descIdx, w, cb, xfer);
    var c := end - eng.descIdx;
    xfer.descAdjacent, xfer.descNum := c, c;
    eng.descUsed := eng.descUsed + c;
    WriteLength(before, s, ps, w.dir);
    if c == 0 {
      WriteNothing(before, s, w.dir);
      DivModUnique(s, eng.descMax, 0, s);
      return false;
    }
    LinkAndCount(eng.desc, eng.descBus, eng.descIdx, c, before, ps, w.dir);
    eng.descIdx := (eng.descIdx + c) % eng.descMax;
    return true;
  }

  lemma WriteLength(ring: seq<Desc>, at: nat, ps: seq<Piece>, dir: Direction)
    ensures |Write(ring, at, ps, dir)| == |ring|
  {
  }

  /** The next transfer on course: built, then marked. */
  method NextAperture(eng: XdmaEngine, w: Work, cb: ApertureCb, xfer: Xfer, dmaMapped: bool)
    requires eng.RingValid() && w.dir == eng.dir && (exists k: nat :: w.ap == Pow2(k))
    requires cb.epAddr == w.base && cb.aperture == w.ap && cb.sgOffset < U32 && cb.totalLen == Total(w.sgl)
    requires OnCourse(w, eng.descMax, eng.descIdx, cb.Cursor()) && cb.offset < Total(w.sgl)
    modifies eng`descIdx, eng`descUsed, eng.desc, cb, xfer
    ensures eng.RingValid() && Sane(w)
    ensures var s := old(eng.descIdx);
            var (ps, cur) := Fill(w, eng.descMax - s, old(cb.Cursor()));
            && ps != [] && s + |ps| <= eng.descMax && cb.Cursor() == cur
            && eng.desc[..] == LayPieces(old(eng.desc[..]), eng.descBus, s, ps, w.dir)
            && NewTransfer(xfer, s, |ps|, Bytes(ps))
            && eng.descIdx == (s + |ps|) % eng.descMax && eng.descUsed == old(eng.descUsed) + |ps|
    ensures (xfer.lastInRequest <==> cb.offset == cb.totalLen) && (xfer.needUnmap <==> !dmaMapped)
  {
    hide Fill, Total, LayPieces, GoodBase, OnCourse, Bytes, GoodWork, Pow2, Plus32;
    CourseMeans(w, eng.descMax, eng.descIdx, cb.Cursor());
    OnCourseStep(w, eng.descMax, eng.descIdx, cb.Cursor());
    NoWrap(w, eng.descMax, eng.descIdx, cb.Cursor());
    var ok := BuildTransfer(eng, w, cb, xfer);
    if !dmaMapped {
      xfer.needUnmap := true;
    }
    if cb.offset == cb.totalLen {
      xfer.lastInRequest := true;
    }
  }

  /** One turn of the outer loop: build, queue, wait, look, destroy. */
  method SubmitOneAperture(eng: XdmaEngine, w: Work, cb: ApertureCb, xfer: Xfer, sgt: SgTable, dmaMapped: bool,
                           turn: Turn)
    returns (rv: int, got: nat, o: Outcome, ghost moves: Option<seq<Move>>)
    requires Ready(eng) && xfer.tag == 0 && w.dir == eng.dir && (exists k: nat :: w.ap == Pow2(k))
    requires cb.epAddr == w.base && cb.aperture == w.ap && cb.sgOffset < U32 && cb.totalLen == Total(w.sgl)
    requires OnCourse(w, eng.descMax, eng.descIdx, cb.Cursor()) && cb.offset < Total(w.sgl)
    modifies eng, eng.desc, cb, xfer, sgt
    ensures eng.RingValid() && eng.ListValid() && eng.nonIncrAddr == old(eng.nonIncrAddr) && Sane(w)
    ensures var s := old(eng.descIdx);
            var (ps, cur) := Fill(w, eng.descMax - s, old(cb.Cursor()));
            var n := |ps|;
            var laid := LayPieces(old(eng.desc[..]), eng.descBus, s, ps, w.dir);
            && cb.Cursor() == cur
            && (o, eng.View()) == Take(old(eng.View()), E.Job(0, n, NEW, 0), turn)
            && eng.desc[..] == (if o.Rejected? then laid else Clear(laid, s, n)) && eng.descIdx == (s + n) % eng.descMax
            && got == (if o == Seen(COMPLETED) then Bytes(ps) else 0)
            && (o.Seen? ==> moves == ChainMoves(laid, eng.descBus, s, n, w.dir, !eng.nonIncrAddr))
            && eng.descUsed == old(eng.descUsed) + (if o.Rejected? then n else 0)
    ensures rv == ErrorOf(o) && Mine(eng.transferList, xfer)
    ensures var unmap := !o.Rejected? && cb.offset == cb.totalLen && !dmaMapped && old(sgt.nents) != 0;
            && sgt.unmaps == old(sgt.unmaps) + (if unmap then 1 else 0)
            && sgt.nents == if unmap then 0 else old(sgt.nents)
  {
    hide Fill, Total, LayPieces, Clear, Take, ChainMoves, E.Inv, Distinct, GoodBase, ErrorOf, OnCourse, Bytes, Pow2;
    CourseMeans(w, eng.descMax, eng.descIdx, cb.Cursor());
    ghost var ps := Fill(w, eng.descMax - eng.descIdx, cb.Cursor()).0;
    NextAperture(eng, w, cb, xfer, dmaMapped);
    rv, got, o, moves := FinishTurn(eng, xfer, sgt, turn, |ps|, Bytes(ps));
  }

  lemma NoWrap(w: Work, N: nat, s: nat, cur: Cur)
    requires OnCourse(w, N, s, cur) && cur.offset < Total(w.sgl)
    ensures Sane(w) && cur.offset < U32
    ensures var (ps, cur') := Fill(w, N - s, cur);
            Plus32(0, Bytes(ps)) == Bytes(ps) && cur'.offset <= Total(w.sgl) < U32
  {
    hide Fill, Total, Bytes, Due, InOrder;
    OnCourseStep(w, N, s, cur);
    var (ps, cur') := Fill(w, N - s, cur);
    DivModUnique(Bytes(ps), U32, 0, Bytes(ps));
  }

  /** One turn of the loop, on values. */
  lemma ApertureTurn(whole: Ended, moved: seq<Move>, done: nat, c: Setting, w: Work, ring: seq<Desc>, s: nat, cur: Cur,
                     e: E.Eng, j: nat)
    requires OnCourse(w, |ring|, s, cur) && Sane(w) && cur.offset < Total(w.sgl) && GoodBase(c.base, |ring|)
    requires Reached(whole, moved, done, j, Apertured(c, w, ring, s, cur, e, j))
    ensures var (ps, cur') := Fill(w, |ring| - s, cur);
            var n := |ps|;
            var laid := LayPieces(ring, c.base, s, ps, w.dir);
            var idx, cleared := (s + n) % |ring|, Clear(laid, s, n);
            var moves := ChainMoves(laid, c.base, s, n, w.dir, c.incr);
            var (o, e') := Take(e, E.Job(0, n, NEW, 0), c.turns(j));
            && n >= 1 && |cleared| == |ring| && idx < |ring| && moves.Some? && cur'.offset > cur.offset
            && OnCourse(w, |ring|, idx, cur')
            && if o == Seen(COMPLETED) then
                 Reached(whole, moved + moves.value, done + Bytes(ps), j + 1,
                         Apertured(c, w, cleared, idx, cur', e', j + 1))
               else
                 whole == Ended(if o.Rejected? then laid else cleared, idx, Some(moved), done, j, Some((o, n)), e')
  {
    hide Apertured, Reached, ChainMoves, OnCourse, Fill, Total, LayPieces, Clear, Take, GoodBase, Before, Bytes, Due,
         InOrder;
    OnCourseStep(w, |ring|, s, cur);
    AperturedStep(c, w, ring, s, cur, e, j);
    StepMoves(c, w, ring, s, cur);
    var (ps, cur') := Fill(w, |ring| - s, cur);
    var n := |ps|;
    var laid := LayPieces(ring, c.base, s, ps, w.dir);
    var moves := ChainMoves(laid, c.base, s, n, w.dir, c.incr);
    var (o, e') := Take(e, E.Job(0, n, NEW, 0), c.turns(j));
    if o == Seen(COMPLETED) {
      var rest := Apertured(c, w, Clear(laid, s, n), (s + n) % |ring|, cur', e', j + 1);
      ReachedMore(whole, moved, done, j, moves.value, Bytes(ps), rest);
    } else {
      ReachedEnd(whole, moved, done, j, Apertured(c, w, ring, s, cur, e, j));
    }
  }

  /** The outer loop; it ends because the offset grows with every transfer. */
  method ApertureLoop(eng: XdmaEngine, w: Work, cb: ApertureCb, sgt: SgTable, dmaMapped: bool, turns: nat -> Turn)
    returns (rv: int, done: nat, ghost moved: seq<Move>)
    requires Ready(eng) && w.dir == eng.dir && (exists k: nat :: w.ap == Pow2(k)) && sgt.nents > 0
    requires cb.epAddr == w.base && cb.aperture == w.ap && cb.totalLen == Total(w.sgl) && cb.Cursor() == Cur(0, 0, 0)
    requires OnCourse(w, eng.descMax, eng.descIdx, Cur(0, 0, 0))
    modifies eng, eng.desc, cb, sgt
    ensures eng.RingValid() && eng.ListValid() && eng.nonIncrAddr == old(eng.nonIncrAddr) && Sane(w)
    ensures var c := Setting(eng.descBus, eng.dir, !eng.nonIncrAddr, turns);
            var r := Apertured(c, w, old(eng.desc[..]), old(eng.descIdx), Cur(0, 0, 0), old(eng.View()), 0);
            && EndsAs(eng, r, old(eng.descUsed)) && r.moves == Some(moved) && done == r.done
            && rv == (if r.stop.None? then 0 else ErrorOf(r.stop.value.0))
    ensures (sgt.nents == old(sgt.nents) && sgt.unmaps == old(sgt.unmaps))
         || (!dmaMapped && sgt.nents == 0 && sgt.unmaps == old(sgt.unmaps) + 1)
  {
    hide Apertured, Reached, Take, ChainMoves, Total, Fill, LayPieces, Clear, E.Inv, GoodBase, Distinct, OnCourse,
         GoodWork, Pow2, Bytes, ErrorOf;
    var xfer := new Xfer(0);
    CourseMeans(w, eng.descMax, eng.descIdx, Cur(0, 0, 0));
    ghost var c := Setting(eng.descBus, eng.dir, !eng.nonIncrAddr, turns);
    ghost var r := Apertured(c, w, eng.desc[..], eng.descIdx, Cur(0, 0, 0), eng.View(), 0);
    var j := 0;
    rv, done, moved := 0, 0, [];
    ReachedStart(r);
    while cb.offset < cb.totalLen
      invariant Ready(eng) && eng.descUsed == old(eng.descUsed) && rv == 0 && fresh(xfer)
      invariant eng.nonIncrAddr == !c.incr && cb.sgOffset < U32
      invariant OnCourse(w, eng.descMax, eng.descIdx, cb.Cursor())
      invariant Reached(r, moved, done, j, Apertured(c, w, eng.desc[..], eng.descIdx, cb.Cursor(), eng.View(), j))
      invariant (sgt.nents == old(sgt.nents) && sgt.unmaps == old(sgt.unmaps))
             || (cb.offset == cb.totalLen && !dmaMapped && sgt.nents == 0 && sgt.unmaps == old(sgt.unmaps) + 1)
      decreases cb.totalLen - cb.offset
    {
      ghost var cur, ring, s := cb.Cursor(), eng.desc[..], eng.descIdx;
      ghost var ps := Fill(w, eng.descMax - s, cur).0;
      CourseMeans(w, eng.descMax, s, cur);
      ApertureTurn(r, moved, done, c, w, ring, s, cur, eng.View(), j);
      TakeAgain(eng.View(), E.Job(0, |ps|, NEW, 0), turns(j));
      CursorSmall(w, eng.descMax, s, cur);
      var got, o;
      ghost var moves;
      rv, got, o, moves := SubmitOneAperture(eng, w, cb, xfer, sgt, dmaMapped, turns(j));
      if rv < 0 {
        return;
      }
      CourseMeans(w, eng.descMax, eng.descIdx, cb.Cursor());
      done := done + got;
      moved := moved + moves.value;
      j := j + 1;
    }
    CourseMeans(w, eng.descMax, eng.descIdx, cb.Cursor());
    AperturedEnd(c, w, eng.desc[..], eng.descIdx, cb.Cursor(), eng.View(), j);
    ReachedEnd(r, moved, done, j, Apertured(c, w, eng.desc[..], eng.descIdx, cb.Cursor(), eng.View(), j));
  }

  lemma CursorSmall(w: Work, N: nat, s: nat, cur: Cur)
    requires OnCourse(w, N, s, cur) && cur.offset < Total(w.sgl)
    ensures Sane(w) && Fill(w, N - s, cur).1.within < U32
  {
    hide FillFrom, Addresses, PieceAddrs, Total, Bytes;
    var (ps, i, o) := FillFrom(w, N - s, 0, 0, cur.within, cur.offset);
    FillBytes(w, N - s, 0, 0, cur.within, cur.offset);
  }

  // ---- the whole call ----

  /** The loop that adds up the lengths, in 32-bit arithmetic. */
  method TotalLength(sgl: seq<Entry>) returns (tlen: nat)
    ensures tlen == Total(sgl) % U32
  {
    hide Total;
    tlen := 0;
    EmptyTotal(sgl[..0]);
    for i := 0 to |sgl|
      invariant tlen == Total(sgl[..i]) % U32
    {
      PrefixTotal(sgl, i);
      tlen := (tlen + sgl[i].len) % U32;
    }
    assert sgl[..|sgl|] == sgl;
  }

  /** What a caller has to see to: the list is done in transfers of which all but the last end inside its
      first entry. */
  ghost predicate EndsInFirst(w: Work, N: nat, s: nat)
    requires Sane(w) && s < N
  {
    Total(w.sgl) > 0 ==> InFirst(PiecesLeft(w, Cur(0, 0, 0)), PiecesOfFirst(w, Cur(0, 0, 0)), N - s, N)
  }

  /** And it has to see to no more: for lists that name no byte twice, every transfer of the call takes the
      bytes due exactly under that condition. */
  lemma CallIsRightExactlyWhen(w: Work, N: nat, s: nat)
    requires GoodWork(w) && s < N && Separate(w.sgl)
    ensures CallRight(w, N, s, Cur(0, 0, 0)) <==> EndsInFirst(w, N, s)
  {
    hide Total, PiecesLeft, PiecesOfFirst, Separate;
    if Total(w.sgl) > 0 {
      StartReachable(w);
      CallRightExactlyWhen(w, N, s, Cur(0, 0, 0));
    }
  }

  lemma StartOnCourse(w: Work, N: nat, s: nat)
    requires GoodWork(w) && s < N && EndsInFirst(w, N, s)
    ensures OnCourse(w, N, s, Cur(0, 0, 0))
  {
    hide Total, PiecesLeft, PiecesOfFirst, InFirst;
    if Total(w.sgl) > 0 {
      StartReachable(w);
    }
  }

  /** A list of one entry always qualifies, and so does one that fits the rest of the ring. */
  lemma AlwaysEndsInFirst(w: Work, N: nat, s: nat)
    requires Sane(w) && s < N && (|w.sgl| <= 1 || PiecesLeft(w, Cur(0, 0, 0)) <= N - s)
    ensures EndsInFirst(w, N, s)
  {
    hide EntryPieces, Bytes;
    if |w.sgl| == 1 {
      assert Rest(w, 1, 0, 0 + Bytes(EntryPieces(w, 0, 0, 0))) == [];
      InFirstAlone(PiecesLeft(w, Cur(0, 0, 0)), N - s, N);
    }
  }

  lemma {:induction false} InFirstAlone(d: nat, room: nat, N: nat)
    requires room >= 1 && N >= 1
    ensures InFirst(d, d, room, N)
    decreases d
  {
    if d <= room {
    } else {
      InFirstAlone(d - room, N, N);
    }
  }

  /** What a call means, whatever the ring holds and the other threads do: for the leading transfers seen
      COMPLETED the hardware has moved exactly the first `done` bytes of the list, byte o to or from
      window position o modulo the window; all of them exactly if every part succeeds; and the answer is
      that count or, if it is 0, the error of the first part. */
  lemma ApertureLaw(c: Setting, w: Work, ring: seq<Desc>, s: nat, e: E.Eng)
    requires GoodWork(w) && s < |ring| && EndsInFirst(w, |ring|, s) && GoodBase(c.base, |ring|) && c.incr
    requires E.Inv(e) && e.queue == []
    ensures var r := Apertured(c, w, ring, s, Cur(0, 0, 0), e, 0);
            var whole := ApMoves(Addresses(w.sgl), w.base, w.ap, w.dir, 0);
            var k := PiecesAt(w, Cur(0, 0, 0));
            && |whole| == Total(w.sgl) && r.done <= |whole| && r.moves == Some(whole[..r.done])
            && Reports(ResultOf(r), r.done, |whole|, k, s, |ring|, e.dir, e.request, c.turns)
            && (r.stop.None? <==> r.done == |whole|)
            && (r.stop.Some? ==> r.stop.value.0 != Seen(COMPLETED))
            && (r.eng.queue == [] <==>
                  (r.stop.Some? && r.stop.value.0 == Seen(SUBMITTED) ==> c.turns(r.turns).idValid))
  {
    hide Apertured, Total, E.Inv, GoodBase, OnCourse, EndsInFirst, ApMoves, Addresses, PiecesAt, Parts, AllSucceed,
         Answers, ResultOf, FirstPartSize;
    StartOnCourse(w, |ring|, s);
    AperturedAll(c, w, ring, s, Cur(0, 0, 0), e, 0);
    AperturedShort(c, w, ring, s, Cur(0, 0, 0), e, 0);
    AperturedAnswers(c, w, ring, s, e);
    AperturedMoves(c, w, ring, s, Cur(0, 0, 0), e, 0);
    AperturedQueue(c, w, ring, s, Cur(0, 0, 0), e, 0);
    var r, all := Apertured(c, w, ring, s, Cur(0, 0, 0), e, 0), Addresses(w.sgl);
    TotalIsLength(w.sgl);
    assert all == all[..r.done] + all[r.done..] && all[0..0 + r.done] == all[..r.done];
    ApAppend(all[..r.done], all[r.done..], w.base, w.ap, w.dir, 0);
    ApLength(all[..r.done], w.base, w.ap, w.dir, 0);
    ApLength(all, w.base, w.ap, w.dir, 0);
  }

  lemma ApLength(addrs: seq<nat>, base: nat, ap: nat, dir: Direction, off: nat)
    requires ap >= 1
    ensures |ApMoves(addrs, base, ap, dir, off)| == |addrs|
  {
  }

  /** `xdma_xfer_aperture` once the list is mapped: make the request, run the loop, unmap. */
  method ApertureMapped(eng: XdmaEngine, w: Work, sgt: SgTable, dmaMapped: bool, oom: bool, turns: nat -> Turn)
    returns (result: int, ghost moved: seq<Move>)
    requires Ready(eng) && w.dir == eng.dir && (exists k: nat :: w.ap == Pow2(k)) && sgt.nents > 0
    requires GoodWork(w) && EndsInFirst(w, eng.descMax, eng.descIdx)
    modifies eng, eng.desc, sgt
    ensures eng.RingValid() && eng.ListValid() && eng.nonIncrAddr == old(eng.nonIncrAddr)
    ensures !dmaMapped ==> sgt.nents == 0 && sgt.unmaps == old(sgt.unmaps) + 1
    ensures dmaMapped ==> sgt.nents == old(sgt.nents) && sgt.unmaps == old(sgt.unmaps)
    ensures oom ==> result == -ENOMEM && moved == []
                    && Untouched(eng, old(eng.desc[..]), old(eng.descIdx), old(eng.View()), old(eng.descUsed))
    ensures !oom ==>
              var c := Setting(eng.descBus, eng.dir, !eng.nonIncrAddr, turns);
              var r := Apertured(c, w, old(eng.desc[..]), old(eng.descIdx), Cur(0, 0, 0), old(eng.View()), 0);
              EndsAs(eng, r, old(eng.descUsed)) && result == ResultOf(r) && r.moves == Some(moved)
  {
    hide Total, Apertured, E.Inv, Distinct, GoodBase, GoodWork, EndsInFirst, OnCourse, Pow2, EndsAs;
    moved := [];
    var rv, done := -ENOMEM, 0;
    if !oom {
      SmallTotal(w);
      StartOnCourse(w, eng.descMax, eng.descIdx);
      var tlen := TotalLength(w.sgl);
      var cb := new ApertureCb(w.base, w.ap, tlen);
      rv, done, moved := ApertureLoop(eng, w, cb, sgt, dmaMapped, turns);
    }
    if !dmaMapped && sgt.nents != 0 {
      sgt.Unmap();
    }
    result := if done != 0 then done else rv;
  }

  /** `xdma_xfer_aperture` from the offline test on; sgl is the list as mapped (empty if mapping failed).
      Ring, engine, result and the bytes the hardware moved are those of the call on values, whose
      meaning ApertureLaw gives; every exit after a successful map has unmapped the table once. */
  method XferAperture(eng: XdmaEngine, offline: bool, dir: Direction, ep: nat, aperture: nat, sgl: seq<Entry>,
                      blen: nat,
                      sgt: SgTable, dmaMapped: bool, oom: bool, turns: nat -> Turn)
    returns (result: int, ghost moved: seq<Move>)
    requires Ready(eng) && 1 <= blen && aperture >= 1 && (exists k: nat :: aperture == Pow2(k))
    requires var w := Work(sgl, ep, aperture, Min(aperture, blen), dir);
             GoodWork(w) && EndsInFirst(w, eng.descMax, eng.descIdx)
    requires dmaMapped ==> sgt.nents == |sgl|
    modifies eng, eng.desc, sgt
    ensures eng.RingValid() && eng.ListValid() && eng.nonIncrAddr == old(eng.nonIncrAddr)
    ensures var rejected := offline || eng.dir != dir || sgl == [];
            && (rejected || oom ==>
                  && Untouched(eng, old(eng.desc[..]), old(eng.descIdx), old(eng.View()), old(eng.descUsed))
                  && moved == []
                  && result == (if offline then -EBUSY else if eng.dir != dir then -EINVAL
                                else if sgl == [] then -EIO else -ENOMEM))
            && (rejected || dmaMapped ==> sgt.nents == old(sgt.nents) && sgt.unmaps == old(sgt.unmaps))
            && (!rejected && !dmaMapped ==> sgt.nents == 0 && sgt.unmaps == old(sgt.unmaps) + 1)
            && (!rejected && !oom ==>
                  var w := Work(sgl, ep, aperture, Min(aperture, blen), dir);
                  var c := Setting(eng.descBus, dir, !eng.nonIncrAddr, turns);
                  var r := Apertured(c, w, old(eng.desc[..]), old(eng.descIdx), Cur(0, 0, 0), old(eng.View()), 0);
                  && EndsAs(eng, r, old(eng.descUsed)) && result == ResultOf(r) && r.moves == Some(moved)
                  && (!eng.nonIncrAddr ==>
                        && moved <= ApMoves(Addresses(sgl), ep, aperture, dir, 0) && |moved| == r.done <= Total(sgl)
                        && Reports(result, |moved|, Total(sgl), PiecesAt(w, Cur(0, 0, 0)), old(eng.descIdx),
                                   eng.descMax, dir, old(eng.shutdownRequest), turns)))
  {
    hide Total, Addresses, Apertured, E.Inv, Distinct, GoodBase, GoodWork, EndsInFirst, Pow2, ApMoves, EndsAs, ResultOf,
         Reports, PiecesAt;
    moved := [];
    if offline {
      return -EBUSY, moved;
    }
    if eng.dir != dir {
      return -EINVAL, moved;
    }
    if sgl == [] {
      return -EIO, moved;
    }
    if !dmaMapped {
      sgt.nents := |sgl|;
    }
    var w := Work(sgl, ep, aperture, Min(aperture, blen), dir);
    ghost var c := Setting(eng.descBus, dir, !eng.nonIncrAddr, turns);
    if c.incr {
      ApertureLaw(c, w, eng.desc[..], eng.descIdx, eng.View());
    }
    result, moved := ApertureMapped(eng, w, sgt, dmaMapped, oom, turns);
  }

  lemma SmallTotal(w: Work)
    requires GoodWork(w)
    ensures Total(w.sgl) % U32 == Total(w.sgl)
  {
    hide Total;
  }
}
