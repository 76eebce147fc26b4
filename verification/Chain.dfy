/** The chain of descriptors the driver lays out for one transfer, in closed form, and what the
    hardware does with it. */
module Chain {
  import opened Bits
  import opened Descriptor
  import opened Request
  import opened Hardware

  /** The link word of descriptor i: the next descriptor in the array, or zero for the last. */
  function NextAddr(chainBus: nat, n: nat, i: nat): nat {
    if i + 1 < n then chainBus + DESC_SIZE * (i + 1) else 0
  }

  function ChainControl(chainBus: nat, n: nat, i: nat): nat
    requires i < n
  {
    DESC_MAGIC + NextAdj(n - i - 1, DmaLo(NextAddr(chainBus, n, i))) * 0x100
      + (if i + 1 == n then LastControl() else 0)
  }

  /** Descriptor i of the chain for the pieces p, laid out from bus address chainBus. */
  function ChainDesc(p: seq<Entry>, ep: nat, dir: Direction, incr: bool, chainBus: nat, i: nat): Desc
    requires i < |p|
  {
    var e := Advance(ep, incr, Total(p[..i]));
    var (src, dst) := if dir.ToDevice? then (p[i].addr, e) else (e, p[i].addr);
    var next := NextAddr(chainBus, |p|, i);
    Desc(ChainControl(chainBus, |p|, i), p[i].len % U32,
         DmaLo(src), DmaHi(src), DmaLo(dst), DmaHi(dst), DmaLo(next), DmaHi(next))
  }

  /** The ring holds, from index start on, the chain for the pieces p. */
  ghost predicate Holds(ring: seq<Desc>, base: nat, start: nat, p: seq<Entry>, ep: nat, dir: Direction, incr: bool) {
    && start + |p| <= |ring|
    && forall j :: start <= j < start + |p| ==>
         ring[j] == ChainDesc(p, ep, dir, incr, base + DESC_SIZE * start, j - start)
  }

  /** The link and control words of a chain of n descriptors, whatever they move. */
  ghost predicate Chained(ring: seq<Desc>, base: nat, start: nat, n: nat) {
    && start + n <= |ring|
    && forall j :: start <= j < start + n ==>
         && ring[j].control == ChainControl(base + DESC_SIZE * start, n, j - start)
         && ring[j].nextLo == DmaLo(NextAddr(base + DESC_SIZE * start, n, j - start))
         && ring[j].nextHi == DmaHi(NextAddr(base + DESC_SIZE * start, n, j - start))
  }

  lemma HoldsChained(ring: seq<Desc>, base: nat, start: nat, p: seq<Entry>, ep: nat, dir: Direction, incr: bool)
    requires Holds(ring, base, start, p, ep, dir, incr)
    ensures Chained(ring, base, start, |p|)
  {
    hide ChainControl, NextAddr, DmaLo, DmaHi;
  }

  /** A ring in bus memory: page aligned and below 2^64. */
  predicate GoodBase(base: nat, n: nat) {
    base % XDMA_PAGE_SIZE == 0 && base + DESC_SIZE * n < U64
  }

  /** Addresses that do not wrap, lengths that fit the byte-count word. */
  ghost predicate GoodPieces(p: seq<Entry>, ep: nat) {
    && ep + Total(p) < U64
    && forall e :: e in p ==> e.len < U32 && e.addr + e.len <= U64 && e.addr < U64
  }

  /** Every control word of the chain decodes to the magic, its own count (at most 63) and its own
      control byte; only the last descriptor carries STOPPED. */
  lemma ControlDecodes(chainBus: nat, n: nat, i: nat)
    requires i < n && chainBus % DESC_SIZE == 0 && chainBus + DESC_SIZE * n < U64
    ensures var c := ChainControl(chainBus, n, i);
            && MagicOf(c) == 0xAD4B
            && AdjacentOf(c) == NextAdj(n - i - 1, DmaLo(NextAddr(chainBus, n, i))) <= 63
            && ControlOf(c) == (if i + 1 == n then DESC_STOPPED + DESC_EOP + DESC_COMPLETED else 0)
  {
    hide NextAdj, And, Or;
    LastControlValue();
    var adj := NextAdj(n - i - 1, DmaLo(NextAddr(chainBus, n, i)));
    AdjRange(chainBus, n, i);
    DecodeWord(if i + 1 == n then LastControl() else 0, adj);
  }

  lemma AdjRange(chainBus: nat, n: nat, i: nat)
    requires i < n && chainBus % DESC_SIZE == 0 && chainBus + DESC_SIZE * n < U64
    ensures 0 <= NextAdj(n - i - 1, DmaLo(NextAddr(chainBus, n, i))) < 0x40
  {
    if i + 1 < n {
      NextAdjMeaning(n - i - 1, NextAddr(chainBus, n, i));
    }
  }

  // ---- the plain walk ----

  lemma RingIndex(ring: seq<Desc>, base: nat, i: nat)
    requires i < |ring|
    ensures IndexAt(ring, base, base + DESC_SIZE * i) == Some(i)
  {
  }

  lemma RunCons(i: nat, n: nat)
    requires n > 0
    ensures Run(i, n) == [i] + Run(i + 1, n - 1)
  {
  }

  /** What the hardware reads from descriptor i of a chain to decide where to go. */
  lemma Links(ring: seq<Desc>, base: nat, start: nat, n: nat, i: nat)
    requires Chained(ring, base, start, n) && GoodBase(base, |ring|) && i < n
    ensures var d := ring[start + i];
            && MagicOf(d.control) == 0xAD4B
            && (Stops(d) <==> i + 1 == n)
            && (i + 1 < n ==>
                  && Join(d.nextLo, d.nextHi) == base + DESC_SIZE * (start + (i + 1))
                  && AdjacentOf(d.control) == BlockCount(base, start, n, i + 1))
  {
    hide NextAdj, And, Or, ChainControl, DmaLo, DmaHi;
    var chainBus := base + DESC_SIZE * start;
    assert ring[start + i].control == ChainControl(chainBus, n, i);
    ControlDecodes(chainBus, n, i);
    if i + 1 < n {
      JoinSplit(NextAddr(chainBus, n, i));
    }
  }

  /** From descriptor i of a chain, the walk visits i, i+1, ... to the chain's end and stops there. */
  lemma {:induction false} VisitChain(ring: seq<Desc>, base: nat, start: nat, n: nat, i: nat, fuel: nat)
    requires Chained(ring, base, start, n) && GoodBase(base, |ring|)
    requires i < n && fuel >= n - i
    ensures Visit(ring, base, base + DESC_SIZE * (start + i), fuel) == Some(Run(start + i, n - i))
    decreases n - i
  {
    hide Stops, MagicOf, BlockCount, Run, IndexAt, ChainControl;
    RingIndex(ring, base, start + i);
    Links(ring, base, start, n, i);
    RunCons(start + i, n - i);
    if i + 1 < n {
      VisitChain(ring, base, start, n, i + 1, fuel - 1);
    } else {
      RunEmpty(start + i + 1);
      assert Run(start + i, 1) == [start + i];
    }
  }

  lemma RunEmpty(i: nat)
    ensures Run(i, 0) == []
  {
  }

  // ---- the moves ----

  lemma DescCopies(p: seq<Entry>, ep: nat, dir: Direction, incr: bool, chainBus: nat, i: nat)
    requires i < |p| && GoodPieces(p, ep)
    ensures DescMoves(ChainDesc(p, ep, dir, incr, chainBus, i), dir, incr)
         == CopyMoves(Range(p[i]), Advance(ep, incr, Total(p[..i])), dir, incr)
  {
    hide DmaLo, DmaHi, ChainControl, NextAddr, DescMoves, CopyMoves, Range;
    var e := Advance(ep, incr, Total(p[..i]));
    assert p[i] in p;
    TotalAppend(p[..i], p[i..]);
    assert p == p[..i] + p[i..];
    JoinSplit(p[i].addr);
    JoinSplit(e);
    MovesAre(ChainDesc(p, ep, dir, incr, chainBus, i), p[i], e, dir, incr);
  }

  lemma MovesAre(d: Desc, piece: Entry, e: nat, dir: Direction, incr: bool)
    requires d.bytes == piece.len
    requires var src, dst := Join(d.srcLo, d.srcHi), Join(d.dstLo, d.dstHi);
             if dir.ToDevice? then src == piece.addr && dst == e else src == e && dst == piece.addr
    ensures DescMoves(d, dir, incr) == CopyMoves(Range(piece), e, dir, incr)
  {
    hide Join;
    var l, r := DescMoves(d, dir, incr), CopyMoves(Range(piece), e, dir, incr);
    assert |l| == |r|;
    forall k | 0 <= k < |l| ensures l[k] == r[k] {
    }
  }

  /** Processing the first n descriptors of a chain copies the bytes of the first n pieces. */
  lemma {:induction false} ChainCopies(ring: seq<Desc>, base: nat, start: nat, p: seq<Entry>, ep: nat,
                                       dir: Direction, incr: bool, n: nat)
    requires Holds(ring, base, start, p, ep, dir, incr) && GoodPieces(p, ep) && n <= |p|
    ensures MovesSeq(ring[start..start + n], dir, incr) == CopyMoves(Addresses(p[..n]), ep, dir, incr)
    decreases n
  {
    hide DescMoves, CopyMoves, ChainDesc, MovesSeq, Addresses;
    if n == 0 {
      NoMoves(ring[start..start], p[..0], ep, dir, incr);
    } else {
      var chainBus := base + DESC_SIZE * start;
      var l := n - 1;
      ChainCopies(ring, base, start, p, ep, dir, incr, l);
      assert ring[start..start + n] == ring[start..start + l] + [ring[start + l]];
      MovesSnoc(ring[start..start + l], ring[start + l], dir, incr);
      assert ring[start + l] == ChainDesc(p, ep, dir, incr, chainBus, l);
      DescCopies(p, ep, dir, incr, chainBus, l);
      assert p[..n] == p[..l] + [p[l]];
      AddressesAppend(p[..l], [p[l]]);
      OneEntry(p[l]);
      TotalIsLength(p[..l]);
      CopyMovesAppend(Addresses(p[..l]), Range(p[l]), ep, dir, incr);
    }
  }

  lemma NoMoves(ds: seq<Desc>, p: seq<Entry>, ep: nat, dir: Direction, incr: bool)
    requires ds == [] && p == []
    ensures MovesSeq(ds, dir, incr) == [] == CopyMoves(Addresses(p), ep, dir, incr)
  {
  }

  lemma OneEntry(e: Entry)
    ensures Addresses([e]) == Range(e)
  {
    hide Range;
    assert Addresses([e][1..]) == [];
  }

  /** A hardware walk of a whole chain is one copy between the pieces' bytes and the endpoint. */
  lemma WalkIsCopy(ring: seq<Desc>, base: nat, start: nat, p: seq<Entry>, ep: nat, dir: Direction, incr: bool,
                   fuel: nat)
    requires Holds(ring, base, start, p, ep, dir, incr) && GoodBase(base, |ring|) && GoodPieces(p, ep)
    requires 0 < |p| <= fuel
    ensures var walk := Visit(ring, base, base + DESC_SIZE * start, fuel);
            && walk == Some(Run(start, |p|))
            && MovesOf(ring, walk.value, dir, incr) == CopyMoves(Addresses(p), ep, dir, incr)
  {
    hide Visit, MovesOf, MovesSeq, CopyMoves, Addresses, ChainDesc, GoodPieces, Chained;
    HoldsChained(ring, base, start, p, ep, dir, incr);
    VisitChain(ring, base, start, |p|, 0, fuel);
    ChainCopies(ring, base, start, p, ep, dir, incr, |p|);
    MovesOfRun(ring, start, |p|, dir, incr);
    assert p[..|p|] == p;
  }

  // ---- the prefetching walk ----

  /** The count that belongs to the block starting at descriptor i: the one written to
      first_desc_adjacent for i = 0, and to the descriptor before i otherwise. */
  function BlockCount(base: nat, start: nat, n: nat, i: nat): nat
    requires i < n
  {
    NextAdj(n - i, DmaLo(base + DESC_SIZE * (start + i)))
  }

  /** A block stays inside the chain and inside one 2 KB block of bus memory. */
  ghost predicate GoodBlock(base: nat, start: nat, n: nat, b: Block) {
    && start <= b.first && 1 <= b.count && b.first + b.count <= start + n
    && (base + DESC_SIZE * b.first) / 0x800 == (base + DESC_SIZE * (b.first + b.count) - 1) / 0x800
  }

  lemma BlockFits(base: nat, start: nat, n: nat, i: nat, ringLen: nat)
    requires i < n && start + n <= ringLen && GoodBase(base, ringLen)
    ensures 0 <= BlockCount(base, start, n, i) < n - i
    ensures GoodBlock(base, start, n, Block(start + i, BlockCount(base, start, n, i) + 1))
  {
    hide NextAdj, DmaLo;
    NextAdjMeaning(n - i, base + DESC_SIZE * (start + i));
  }

  lemma FlattenCons(b: Block, rest: seq<Block>)
    ensures Flatten([b] + rest) == Run(b.first, b.count) + Flatten(rest)
  {
    hide Run;
    assert ([b] + rest)[1..] == rest;
  }

  /** Fetching 1 + count contiguous descriptors per block visits exactly the descriptors of the plain
      walk, never runs past the chain, and never crosses a 2 KB boundary (so never a 4 KB page). */
  lemma {:induction false} PrefetchChain(ring: seq<Desc>, base: nat, start: nat, n: nat, i: nat, fuel: nat)
    requires Chained(ring, base, start, n) && GoodBase(base, |ring|)
    requires i < n && fuel >= n - i
    ensures BlockCount(base, start, n, i) >= 0
    ensures var walk := Prefetch(ring, base, base + DESC_SIZE * (start + i), BlockCount(base, start, n, i), fuel);
            && walk.Some?
            && Some(Flatten(walk.value)) == Visit(ring, base, base + DESC_SIZE * (start + i), fuel)
            && Flatten(walk.value) == Run(start + i, n - i)
            && forall b :: b in walk.value ==> GoodBlock(base, start, n, b)
    decreases n - i
  {
    hide Stops, MagicOf, BlockCount, Run, IndexAt, GoodBlock, AdjacentOf, Flatten, ChainControl, Visit, AllMagic;
    VisitChain(ring, base, start, n, i, fuel);
    BlockFits(base, start, n, i, |ring|);
    var adj := BlockCount(base, start, n, i);
    var l := i + adj;
    RingIndex(ring, base, start + i);
    Links(ring, base, start, n, l);
    ChainMagic(ring, base, start, n, i, adj + 1);
    var block := Block(start + i, adj + 1);
    if l + 1 == n {
      FlattenOne(block);
    } else {
      PrefetchChain(ring, base, start, n, l + 1, fuel - 1);
      var next, count := base + DESC_SIZE * (start + (l + 1)), BlockCount(base, start, n, l + 1);
      var rest := Prefetch(ring, base, next, count, fuel - 1).value;
      FlattenCons(block, rest);
      RunSplit(start + i, adj + 1, n - i);
    }
  }

  lemma FlattenOne(b: Block)
    ensures Flatten([b]) == Run(b.first, b.count)
  {
    hide Run;
    assert Flatten([b][1..]) == [];
  }

  lemma RunSplit(i: nat, a: nat, n: nat)
    requires a <= n
    ensures Run(i, n) == Run(i, a) + Run(i + a, n - a)
  {
  }

  lemma ChainMagic(ring: seq<Desc>, base: nat, start: nat, n: nat, i: nat, m: nat)
    requires Chained(ring, base, start, n) && GoodBase(base, |ring|) && i + m <= n
    ensures AllMagic(ring, start + i, m)
  {
    hide ChainControl, NextAddr, MagicOf, Stops, AdjacentOf, BlockCount, Join;
    forall k | start + i <= k < start + i + m ensures MagicOf(ring[k].control) == 0xAD4B {
      Links(ring, base, start, n, k - start);
    }
  }

  /** Started with the register values the driver writes for a chain, the engine moves the bytes of
      exactly the chain's descriptors. */
  lemma RegistersRunChain(ring: seq<Desc>, base: nat, start: nat, n: nat, dir: Direction, incr: bool)
    requires Chained(ring, base, start, n) && GoodBase(base, |ring|) && n >= 1
    ensures start + n <= |ring|
    ensures var bus := base + DESC_SIZE * start;
            var moves := RegisterMoves(ring, base, DmaLo(bus), DmaHi(bus), NextAdj(n, DmaLo(bus)), dir, incr);
            moves == Some(MovesSeq(ring[start..start + n], dir, incr))
  {
    hide Prefetch, MovesOf, MovesSeq, NextAdj, DmaLo, DmaHi, Visit, Flatten, GoodBlock;
    var bus := base + DESC_SIZE * start;
    JoinSplit(bus);
    PrefetchChain(ring, base, start, n, 0, |ring|);
    assert start + 0 == start && n - 0 == n;
    MovesOfRun(ring, start, n, dir, incr);
  }
}
