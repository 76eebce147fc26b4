/** How transfers are carved from the descriptor ring, and what a whole request does. */
module Carve {
  import opened Bits
  import opened Descriptor
  import opened Request
  import opened Hardware
  import opened Chain

  /** The number of descriptors `transfer_init` takes when k are wanted and the ring index is s of N. */
  function Window(k: nat, s: nat, N: nat): (n: nat)
    requires s < N
    ensures k > 0 ==> 1 <= n <= k && s + n <= N
  {
    var d := Min(k, N);
    if s + d >= N then N - s else d
  }

  /** The sizes of the transfers of a request of k software descriptors, with no other submitter. */
  function Parts(k: nat, s: nat, N: nat): seq<nat>
    requires s < N
    decreases k
  {
    if k == 0 then []
    else var n := Window(k, s, N);
      [n] + Parts(k - n, (s + n) % N, N)
  }

  function Sum(ns: seq<nat>): nat {
    if ns == [] then 0 else ns[0] + Sum(ns[1..])
  }

  lemma WindowIs(k: nat, s: nat, N: nat)
    requires s < N && k > 0
    ensures Window(k, s, N) == Min(k, N - s)
    ensures 1 <= Window(k, s, N) <= k && s + Window(k, s, N) <= N
    ensures (s + Window(k, s, N)) % N == if k >= N - s then 0 else s + k
  {
    if k >= N - s {
      DivModUnique(N, N, 1, 0);
    } else {
      DivModUnique(s + k, N, 0, s + k);
    }
  }

  /** How many transfers a request becomes. */
  function PartCount(k: nat, s: nat, N: nat): nat
    requires s < N
  {
    if k == 0 then 0 else if k <= N - s then 1 else 1 + CeilDiv(k - (N - s), N)
  }

  lemma {:induction false} PartsLaw(k: nat, s: nat, N: nat)
    requires s < N
    ensures Sum(Parts(k, s, N)) == k
    ensures |Parts(k, s, N)| == PartCount(k, s, N)
    ensures forall i :: 0 <= i < |Parts(k, s, N)| ==> 1 <= Parts(k, s, N)[i] <= N
    decreases k
  {
    hide Window, CeilDiv;
    if k == 0 {
    } else {
      WindowIs(k, s, N);
      var n := Window(k, s, N);
      var rest := Parts(k - n, (s + n) % N, N);
      PartsLaw(k - n, (s + n) % N, N);
      assert Parts(k, s, N)[1..] == rest;
      if k > N - s {
        assert (s + n) % N == 0;
        if k - n > N {
          CeilStep(k - n, N);
        } else {
          CeilSmall(k - n, N);
        }
      }
    }
  }

  lemma CeilSmall(n: nat, b: nat)
    requires 1 <= n <= b
    ensures CeilDiv(n, b) == 1
  {
    DivModUnique(n + b - 1, b, 1, n - 1);
  }

  /** `last_in_request` is set on the final transfer and on no other. */
  lemma {:induction false} LastInRequest(k: nat, s: nat, N: nat, j: nat)
    requires s < N && j < |Parts(k, s, N)|
    ensures Sum(Parts(k, s, N)[..j + 1]) == k <==> j + 1 == |Parts(k, s, N)|
  {
    var ps := Parts(k, s, N);
    PartsLaw(k, s, N);
    SumSplit(ps, j + 1);
    if j + 1 < |ps| {
      assert ps[j + 1..][0] == ps[j + 1] >= 1;
    } else {
      assert ps[j + 1..] == [];
    }
  }

  lemma {:induction false} SumSplit(ns: seq<nat>, i: nat)
    requires i <= |ns|
    ensures Sum(ns) == Sum(ns[..i]) + Sum(ns[i..])
  {
    if i > 0 {
      SumSplit(ns[1..], i - 1);
      assert ns[..i][1..] == ns[1..][..i - 1] && ns[1..][i - 1..] == ns[i..];
    } else {
      assert ns[0..] == ns;
    }
  }

  /** The two-slot transfer array of the no-wait path is enough exactly when k <= 2N - s. */
  lemma TwoSlotsSuffice(k: nat, s: nat, N: nat)
    requires s < N
    ensures |Parts(k, s, N)| <= 2 <==> k <= 2 * N - s
  {
    hide Parts;
    PartsLaw(k, s, N);
    if k > N - s {
      var m := k - (N - s);
      if m <= N {
        CeilSmall(m, N);
      } else {
        CeilStep(m, N);
        CeilPositive(m - N, N);
      }
    }
  }

  lemma CeilPositive(n: nat, b: nat)
    requires n >= 1 && b >= 1
    ensures CeilDiv(n, b) >= 1
  {
    var q, r := DivModSum(n - 1, b);
    DivModUnique(n + b - 1, b, q + 1, r);
  }

  // ---- windows over any sequence of calls ----

  datatype Win = Win(start: nat, count: nat)

  /** The windows of a sequence of `transfer_init` calls wanting ks[0], ks[1], ... descriptors. */
  function Windows(ks: seq<nat>, s: nat, N: nat): (ws: seq<Win>)
    requires s < N
    ensures |ws| == |ks|
  {
    if ks == [] then []
    else var n := Window(ks[0], s, N);
      [Win(s, n)] + Windows(ks[1..], (s + n) % N, N)
  }

  function Counts(ws: seq<Win>): nat {
    if ws == [] then 0 else ws[0].count + Counts(ws[1..])
  }

  lemma {:induction false} WindowsFit(ks: seq<nat>, s: nat, N: nat, j: nat)
    requires s < N && j < |ks| && forall i :: 0 <= i < |ks| ==> ks[i] > 0
    ensures var w := Windows(ks, s, N)[j];
            w.start < N && 1 <= w.count <= ks[j] && w.start + w.count <= N
    decreases |ks|
  {
    hide Window;
    WindowIs(ks[0], s, N);
    var n := Window(ks[0], s, N);
    if j > 0 {
      WindowsFit(ks[1..], (s + n) % N, N, j - 1);
    } else if |ks| > 1 {
      WindowsFit(ks[1..], (s + n) % N, N, 0);
    }
  }

  /** Window b starts where the descriptors carved before it end, modulo the ring. */
  lemma {:induction false} WindowStart(ks: seq<nat>, s: nat, N: nat, b: nat)
    requires s < N && b < |ks| && forall i :: 0 <= i < |ks| ==> ks[i] > 0
    ensures Counts(Windows(ks, s, N)[..b]) <= N ==>
              Windows(ks, s, N)[b].start == Wrap(s + Counts(Windows(ks, s, N)[..b]), N)
    decreases b
  {
    hide Window;
    WindowsFit(ks, s, N, b);
    var ws := Windows(ks, s, N);
    var n := Window(ks[0], s, N);
    WindowIs(ks[0], s, N);
    if b == 0 {
    } else {
      var s' := (s + n) % N;
      WindowStart(ks[1..], s', N, b - 1);
      assert ws[..b][1..] == Windows(ks[1..], s', N)[..b - 1];
      assert ws[b] == Windows(ks[1..], s', N)[b - 1];
    }
  }

  /** x reduced once by N, for x at most 2N. */
  function Wrap(x: nat, N: nat): nat { if x < N then x else if x < 2 * N then x - N else x - 2 * N }

  /** Any suffix of a sequence of calls is a sequence of calls. */
  lemma {:induction false} WindowsSuffix(ks: seq<nat>, s: nat, N: nat, a: nat)
    requires s < N && a < |ks| && forall i :: 0 <= i < |ks| ==> ks[i] > 0
    ensures Windows(ks, s, N)[a].start < N
    ensures Windows(ks, s, N)[a..] == Windows(ks[a..], Windows(ks, s, N)[a].start, N)
    decreases a
  {
    hide Window;
    WindowsFit(ks, s, N, a);
    var ws := Windows(ks, s, N);
    if a == 0 {
      assert ks[0..] == ks && ws[0..] == ws;
    } else {
      WindowIs(ks[0], s, N);
      var s' := (s + Window(ks[0], s, N)) % N;
      WindowsSuffix(ks[1..], s', N, a - 1);
      assert ks[1..][a - 1..] == ks[a..];
      assert ws[a..] == Windows(ks[1..], s', N)[a - 1..];
    }
  }

  ghost predicate Disjoint(v: Win, w: Win) { v.start + v.count <= w.start || w.start + w.count <= v.start }

  /** Two windows are disjoint whenever the descriptors carved from the start of the earlier to the
      end of the later total at most N. */
  lemma WindowsDisjoint(ks: seq<nat>, s: nat, N: nat, a: nat, b: nat)
    requires s < N && a < b < |ks| && forall i :: 0 <= i < |ks| ==> ks[i] > 0
    requires Counts(Windows(ks, s, N)[a..b + 1]) <= N
    ensures Disjoint(Windows(ks, s, N)[a], Windows(ks, s, N)[b])
  {
    hide Window, Windows;
    var ws := Windows(ks, s, N);
    WindowsSuffix(ks, s, N, a);
    var t, ks' := ws[a].start, ks[a..];
    var ws' := Windows(ks', t, N);
    assert ws' == ws[a..] && ws'[0] == ws[a] && ws'[b - a] == ws[b];
    WindowStart(ks', t, N, b - a);
    WindowsFit(ks, s, N, a);
    WindowsFit(ks, s, N, b);
    assert ws[a..b + 1] == ws'[..b - a] + [ws[b]];
    CountsSnoc(ws'[..b - a], ws[b]);
    assert ws'[..b - a] == [ws[a]] + ws'[1..b - a];
    assert Counts(ws'[..b - a]) >= ws[a].count;
  }

  lemma {:induction false} CountsSnoc(ws: seq<Win>, w: Win)
    ensures Counts(ws + [w]) == Counts(ws) + w.count
  {
    if ws == [] {
      assert ws + [w] == [w] && Counts([w][1..]) == 0;
    } else {
      assert (ws + [w])[1..] == ws[1..] + [w];
      CountsSnoc(ws[1..], w);
    }
  }

  // ---- a whole request ----

  /** The ring after a chain for the pieces p has been laid out from index start. */
  function Lay(ring: seq<Desc>, base: nat, start: nat, p: seq<Entry>, ep: nat, dir: Direction, incr: bool): seq<Desc> {
    seq(|ring|, j requires 0 <= j < |ring| =>
      if start <= j < start + |p| then ChainDesc(p, ep, dir, incr, base + DESC_SIZE * start, j - start) else ring[j])
  }

  /** The ring after `xdma_desc_done` has cleared a window. */
  function Clear(ring: seq<Desc>, start: nat, n: nat): seq<Desc> {
    seq(|ring|, j requires 0 <= j < |ring| =>
      if start <= j < start + n then Desc(0, 0, 0, 0, 0, 0, 0, 0) else ring[j])
  }

  /** What the hardware moves when it walks, one after the other, the chains carved for the pieces p
      from ring index s on (each chain is cleared before the next is built); None if a walk fails. */
  function RequestMoves(ring: seq<Desc>, base: nat, s: nat, p: seq<Entry>, ep: nat, dir: Direction,
                        incr: bool): Option<seq<Move>>
    requires s < |ring|
    decreases |p|
  {
    if p == [] then Some([])
    else
      var n := Window(|p|, s, |ring|);
      var laid := Lay(ring, base, s, p[..n], ep, dir, incr);
      match Visit(laid, base, base + DESC_SIZE * s, |laid|)
      case None => None
      case Some(walk) =>
        if !(forall i :: 0 <= i < |walk| ==> walk[i] < |laid|) then None
        else match RequestMoves(Clear(laid, s, n), base, (s + n) % |ring|, p[n..],
                                Advance(ep, incr, Total(p[..n])), dir, incr)
          case None => None
          case Some(rest) => Some(MovesOf(laid, walk, dir, incr) + rest)
  }

  lemma SplitPieces(p: seq<Entry>, n: nat, ep: nat, incr: bool)
    requires n <= |p| && GoodPieces(p, ep)
    ensures p == p[..n] + p[n..] && Total(p) == Total(p[..n]) + Total(p[n..])
    ensures GoodPieces(p[..n], ep) && GoodPieces(p[n..], Advance(ep, incr, Total(p[..n])))
  {
    hide Total;
    assert p == p[..n] + p[n..];
    TotalAppend(p[..n], p[n..]);
  }

  /** For every ring, start index and list of pieces, walking all the chains of a request is one
      copy between the concatenated scatter bytes and the endpoint range. */
  lemma {:induction false} RequestIsCopy(ring: seq<Desc>, base: nat, s: nat, p: seq<Entry>, ep: nat, dir: Direction,
                                         incr: bool)
    requires s < |ring| && GoodBase(base, |ring|) && GoodPieces(p, ep)
    ensures RequestMoves(ring, base, s, p, ep, dir, incr) == Some(CopyMoves(Addresses(p), ep, dir, incr))
    decreases |p|
  {
    hide Visit, Window, CopyMoves, Addresses, Total, MovesOf, GoodPieces, GoodBase, Holds;
    if p == [] {
      NoPieces(ep, dir, incr);
    } else {
      WindowIs(|p|, s, |ring|);
      var n := Window(|p|, s, |ring|);
      var a, b := p[..n], p[n..];
      var ep' := Advance(ep, incr, Total(a));
      SplitPieces(p, n, ep, incr);
      var laid := Lay(ring, base, s, a, ep, dir, incr);
      LaidHolds(ring, base, s, a, ep, dir, incr);
      WalkIsCopy(laid, base, s, a, ep, dir, incr, |laid|);
      RequestIsCopy(Clear(laid, s, n), base, (s + n) % |ring|, b, ep', dir, incr);
      TotalIsLength(a);
      AddressesAppend(a, b);
      CopyMovesAppend(Addresses(a), Addresses(b), ep, dir, incr);
    }
  }

  lemma LaidHolds(ring: seq<Desc>, base: nat, s: nat, p: seq<Entry>, ep: nat, dir: Direction, incr: bool)
    requires s + |p| <= |ring|
    ensures Holds(Lay(ring, base, s, p, ep, dir, incr), base, s, p, ep, dir, incr)
  {
    hide ChainDesc;
  }

  lemma NoPieces(ep: nat, dir: Direction, incr: bool)
    ensures CopyMoves(Addresses([]), ep, dir, incr) == []
  {
  }

  /** The same for the scatter list itself: splitting, carving, linking and walking is one copy. */
  lemma ScatterListIsCopied(ring: seq<Desc>, base: nat, s: nat, sgl: seq<Entry>, blen: nat, ep: nat, dir: Direction,
                            incr: bool)
    requires s < |ring| && GoodBase(base, |ring|) && 1 <= blen < U32
    requires ep + Total(sgl) < U64 && forall e :: e in sgl ==> e.addr + e.len <= U64
    ensures RequestMoves(ring, base, s, SplitAll(sgl, blen), ep, dir, incr)
         == Some(CopyMoves(Addresses(sgl), ep, dir, incr))
  {
    var p := SplitAll(sgl, blen);
    SplitMeaning(sgl, blen);
    TotalIsLength(sgl);
    TotalIsLength(p);
    SplitStaysInside(sgl, blen);
    RequestIsCopy(ring, base, s, p, ep, dir, incr);
  }

  lemma {:induction false} SplitStaysInside(sgl: seq<Entry>, blen: nat)
    requires blen >= 1 && forall e :: e in sgl ==> e.addr + e.len <= U64
    ensures forall p :: p in SplitAll(sgl, blen) ==> p.addr + p.len <= U64
  {
    hide SplitEntry;
    if sgl == [] {
    } else {
      SplitEntryInside(sgl[0], blen);
      SplitStaysInside(sgl[1..], blen);
    }
  }

  lemma {:induction false} SplitEntryInside(e: Entry, blen: nat)
    requires blen >= 1 && e.addr + e.len <= U64
    ensures forall p :: p in SplitEntry(e, blen) ==> p.addr + p.len <= U64
    decreases e.len
  {
    if e.len <= blen {
    } else {
      SplitEntryInside(Entry(e.addr + blen, e.len - blen), blen);
    }
  }
}
