/** What the scatter-gather engine does with a chain of descriptors: follow the link words from a
    first address until a descriptor carries STOPPED, and move each descriptor's bytes.  This is the
    meaning that the descriptor-building code is proved against. */
module Hardware {
  import opened Descriptor

  datatype Option<T> = None | Some(value: T)

  /** One byte moved. The order of a list of moves is the order in time. */
  datatype Move = Move(src: nat, dst: nat)

  /** The ring index of the descriptor at bus address a, if there is one. */
  function IndexAt(ring: seq<Desc>, base: nat, a: nat): Option<nat> {
    if a >= base && (a - base) % DESC_SIZE == 0 && (a - base) / DESC_SIZE < |ring|
    then Some((a - base) / DESC_SIZE) else None
  }

  predicate Stops(d: Desc) { ControlOf(d.control) % 2 == 1 }

  /** The plain walk: the ring indices processed, or None if a fetch misses, a magic is wrong, or
      `fuel` descriptors did not reach a STOPPED one. */
  function Visit(ring: seq<Desc>, base: nat, a: nat, fuel: nat): Option<seq<nat>>
    decreases fuel
  {
    if fuel == 0 then None
    else match IndexAt(ring, base, a)
      case None => None
      case Some(i) =>
        var d := ring[i];
        if MagicOf(d.control) != 0xAD4B then None
        else if Stops(d) then Some([i])
        else match Visit(ring, base, Join(d.nextLo, d.nextHi), fuel - 1)
          case None => None
          case Some(rest) => Some([i] + rest)
  }

  /** The n descriptors from index i on carry the magic. */
  predicate AllMagic(ring: seq<Desc>, i: nat, n: nat)
    requires i + n <= |ring|
  {
    forall k :: i <= k < i + n ==> MagicOf(ring[k].control) == 0xAD4B
  }

  /** A block of `count` contiguous descriptors fetched in one burst. */
  datatype Block = Block(first: nat, count: nat)

  /** The prefetching walk: fetch 1 + adj contiguous descriptors at a, all with the right magic; the
      last one of the block gives the next address and the next count. */
  function Prefetch(ring: seq<Desc>, base: nat, a: nat, adj: nat, fuel: nat): Option<seq<Block>>
    decreases fuel
  {
    if fuel == 0 then None
    else match IndexAt(ring, base, a)
      case None => None
      case Some(i) =>
        if i + adj >= |ring| || !AllMagic(ring, i, adj + 1) then None
        else
          var d := ring[i + adj];
          if Stops(d) then Some([Block(i, adj + 1)])
          else match Prefetch(ring, base, Join(d.nextLo, d.nextHi), AdjacentOf(d.control), fuel - 1)
            case None => None
            case Some(rest) => Some([Block(i, adj + 1)] + rest)
  }

  /** The indices i, i+1, ..., i+n-1. */
  function Run(i: nat, n: nat): seq<nat> { seq(n, k => i + k) }

  function Flatten(bs: seq<Block>): seq<nat> {
    if bs == [] then [] else Run(bs[0].first, bs[0].count) + Flatten(bs[1..])
  }

  /** The bytes one descriptor moves. With `incr` false the endpoint address stays fixed. */
  function DescMoves(d: Desc, dir: Direction, incr: bool): seq<Move> {
    var src, dst := Join(d.srcLo, d.srcHi), Join(d.dstLo, d.dstHi);
    seq(d.bytes, (k: nat) => Move(src + (if incr || dir.ToDevice? then k else 0),
                           dst + (if incr || dir.FromDevice? then k else 0)))
  }

  function MovesSeq(ds: seq<Desc>, dir: Direction, incr: bool): seq<Move> {
    if ds == [] then [] else DescMoves(ds[0], dir, incr) + MovesSeq(ds[1..], dir, incr)
  }

  /** The bytes moved by processing the descriptors at the given ring indices. */
  function MovesOf(ring: seq<Desc>, visited: seq<nat>, dir: Direction, incr: bool): seq<Move>
    requires forall i :: 0 <= i < |visited| ==> visited[i] < |ring|
  {
    MovesSeq(seq(|visited|, i requires 0 <= i < |visited| => ring[visited[i]]), dir, incr)
  }

  /** What the engine moves when it is started with the three register values: a prefetching walk from
      the address in lo and hi; None if the walk fails. */
  function RegisterMoves(ring: seq<Desc>, base: nat, lo: nat, hi: nat, adj: nat,
                         dir: Direction, incr: bool): Option<seq<Move>> {
    match Prefetch(ring, base, Join(lo, hi), adj, |ring|)
    case None => None
    case Some(blocks) =>
      var visited := Flatten(blocks);
      if forall i :: 0 <= i < |visited| ==> visited[i] < |ring|
      then Some(MovesOf(ring, visited, dir, incr)) else None
  }

  lemma {:induction false} MovesSnoc(ds: seq<Desc>, d: Desc, dir: Direction, incr: bool)
    ensures MovesSeq(ds + [d], dir, incr) == MovesSeq(ds, dir, incr) + DescMoves(d, dir, incr)
  {
    hide DescMoves;
    var m := DescMoves(d, dir, incr);
    if ds == [] {
      assert ds + [d] == [d] && [d][1..] == [];
      assert MovesSeq([d], dir, incr) == m + [];
    } else {
      MovesSnoc(ds[1..], d, dir, incr);
      assert (ds + [d])[1..] == ds[1..] + [d];
      var h := DescMoves(ds[0], dir, incr);
      assert h + (MovesSeq(ds[1..], dir, incr) + m) == (h + MovesSeq(ds[1..], dir, incr)) + m;
    }
  }

  lemma MovesOfRun(ring: seq<Desc>, start: nat, n: nat, dir: Direction, incr: bool)
    requires start + n <= |ring|
    ensures MovesOf(ring, Run(start, n), dir, incr) == MovesSeq(ring[start..start + n], dir, incr)
  {
    hide MovesSeq;
    var v := Run(start, n);
    assert seq(|v|, i requires 0 <= i < |v| => ring[v[i]]) == ring[start..start + n];
  }

  /** The simple copy: byte k goes between address addrs[k] and the k-th endpoint byte. */
  function CopyMoves(addrs: seq<nat>, ep: nat, dir: Direction, incr: bool): seq<Move> {
    seq(|addrs|, k requires 0 <= k < |addrs| =>
      var e := ep + (if incr then k else 0);
      if dir.ToDevice? then Move(addrs[k], e) else Move(e, addrs[k]))
  }

  /** The endpoint address after n bytes. */
  function Advance(ep: nat, incr: bool, n: nat): nat { if incr then ep + n else ep }

  lemma CopyMovesAppend(a: seq<nat>, b: seq<nat>, ep: nat, dir: Direction, incr: bool)
    ensures CopyMoves(a + b, ep, dir, incr)
         == CopyMoves(a, ep, dir, incr) + CopyMoves(b, Advance(ep, incr, |a|), dir, incr)
  {
    var l := CopyMoves(a + b, ep, dir, incr);
    var r := CopyMoves(a, ep, dir, incr) + CopyMoves(b, Advance(ep, incr, |a|), dir, incr);
    assert |l| == |r|;
    forall k | 0 <= k < |l| ensures l[k] == r[k] {
      if k >= |a| {
        assert (a + b)[k] == b[k - |a|];
      }
    }
  }

  // ---- effect on memory ----

  newtype Byte = x: int | 0 <= x < 256
  type Memory = map<int, Byte>

  function Read(m: Memory, a: int): Byte { if a in m then m[a] else 0 }

  /** The destination memory after the moves, reading from a separate source memory. */
  function Effect(moves: seq<Move>, from: Memory, to: Memory): Memory {
    if moves == [] then to
    else Effect(moves[1..], from, to[moves[0].dst := Read(from, moves[0].src)])
  }

  lemma {:induction false} EffectSnoc(moves: seq<Move>, m: Move, from: Memory, to: Memory)
    ensures Effect(moves + [m], from, to) == Effect(moves, from, to)[m.dst := Read(from, m.src)]
  {
    if moves == [] {
      assert moves + [m] == [m];
      var to' := to[m.dst := Read(from, m.src)];
      assert Effect([m], from, to) == Effect([], from, to');
    } else {
      assert (moves + [m])[1..] == moves[1..] + [m];
      EffectSnoc(moves[1..], m, from, to[moves[0].dst := Read(from, moves[0].src)]);
    }
  }

  lemma CopyMovesSnoc(addrs: seq<nat>, ep: nat, dir: Direction)
    requires addrs != []
    ensures var n := |addrs| - 1;
            var m := if dir.ToDevice? then Move(addrs[n], ep + n) else Move(ep + n, addrs[n]);
            CopyMoves(addrs, ep, dir, true) == CopyMoves(addrs[..n], ep, dir, true) + [m]
  {
  }

  /** Host to device: the endpoint range becomes the concatenated scatter bytes, nothing else moves. */
  lemma {:induction false} ToDeviceEffect(addrs: seq<nat>, ep: nat, host: Memory, dev: Memory)
    ensures var after := Effect(CopyMoves(addrs, ep, ToDevice, true), host, dev);
            && (forall a :: ep <= a < ep + |addrs| ==> a in after && after[a] == Read(host, addrs[a - ep]))
            && (forall a :: !(ep <= a < ep + |addrs|) ==>
                  (a in after <==> a in dev) && (a in dev ==> after[a] == dev[a]))
    decreases |addrs|
  {
    hide CopyMoves, Read;
    var n := |addrs|;
    if n == 0 {
      CopyMovesEmpty(ep, ToDevice);
    } else {
      var init := addrs[..n - 1];
      ToDeviceEffect(init, ep, host, dev);
      CopyMovesSnoc(addrs, ep, ToDevice);
      EffectSnoc(CopyMoves(init, ep, ToDevice, true), Move(addrs[n - 1], ep + (n - 1)), host, dev);
    }
  }

  lemma CopyMovesEmpty(ep: nat, dir: Direction)
    ensures CopyMoves([], ep, dir, true) == []
  {
  }

  /** Device to host, for scatter addresses that do not repeat: each scatter byte receives its
      endpoint byte, nothing else moves. */
  lemma {:induction false} FromDeviceEffect(addrs: seq<nat>, ep: nat, dev: Memory, host: Memory)
    requires forall i, j :: 0 <= i < j < |addrs| ==> addrs[i] != addrs[j]
    ensures var after := Effect(CopyMoves(addrs, ep, FromDevice, true), dev, host);
            && (forall k :: 0 <= k < |addrs| ==> addrs[k] in after && after[addrs[k]] == Read(dev, ep + k))
            && (forall a :: a !in addrs ==> (a in after <==> a in host) && (a in host ==> after[a] == host[a]))
    decreases |addrs|
  {
    hide CopyMoves, Read;
    var n := |addrs|;
    if n == 0 {
      CopyMovesEmpty(ep, FromDevice);
    } else {
      var init := addrs[..n - 1];
      FromDeviceEffect(init, ep, dev, host);
      CopyMovesSnoc(addrs, ep, FromDevice);
      EffectSnoc(CopyMoves(init, ep, FromDevice, true), Move(ep + (n - 1), addrs[n - 1]), dev, host);
      assert addrs == init + [addrs[n - 1]];
    }
  }
}
