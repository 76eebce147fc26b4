/** The loop of `xdma_xfer_submit_nowait` that splits a request over the two transfer objects of the
    request and queues them without waiting, so that both chains are in the ring at once. */
module NoWait {
  import opened Bits
  import opened Descriptor
  import opened Request
  import opened Hardware
  import opened Chain
  import opened Carve
  import opened Transfer
  import opened Engine
  import opened Wait
  import opened Submit
  import E = EngineModel

  // ---- what is queued, on values ----

  /** How the loop ends: everything queued; a part refused, and the request freed; or the loop goes on to
      a third transfer object, which the request does not have. */
  datatype Ending = AllQueued | Refused | PastTheArray

  /** What other threads do before each turn, and what the turn then sees. */
  datatype Others = Others(around: nat -> seq<Around>, sawOffline: nat -> bool, startStatus: nat -> nat)

  /** The engine after the critical sections of other threads. */
  function Meanwhile(e: E.Eng, evs: seq<Around>): E.Eng
    decreases |evs|
  {
    if evs == [] then e else Meanwhile(E.Do(e, evs[0]), evs[1..])
  }

  /** The loop for parts of the given sizes, the i-th transfer object having tag tags[i]: how it ends, how
      many parts are queued, and the engine. */
  function Queueing(others: Others, tags: seq<nat>, e: E.Eng, ps: seq<nat>, i: nat): (Ending, nat, E.Eng)
    decreases |ps|
  {
    if ps == [] then (AllQueued, i, e)
    else if i >= |tags| then (PastTheArray, i, e)
    else
      var e0 := Meanwhile(e, others.around(i));
      var (e1, accepted) := E.Enqueue(e0, E.Job(tags[i], ps[0], NEW, 0), others.startStatus(i));
      if others.sawOffline(i) || !accepted then (Refused, i, e0)
      else Queueing(others, tags, e1, ps[1..], i + 1)
  }

  /** The loop comes to the missing third object exactly when both parts before it are queued and the
      request has more than 2N - s descriptors. */
  lemma PastTheArrayExactlyWhen(others: Others, tags: seq<nat>, e: E.Eng, k: nat, s: nat, N: nat)
    requires s < N && |tags| == 2
    ensures var (ending, used, _) := Queueing(others, tags, e, Parts(k, s, N), 0);
            ending == PastTheArray <==> used == 2 && k > 2 * N - s
  {
    hide Parts, Meanwhile, E.Enqueue;
    TwoSlotsSuffice(k, s, N);
    var ps := Parts(k, s, N);
    QueueingCounts(others, tags, e, ps, 0);
  }

  lemma {:induction false} QueueingCounts(others: Others, tags: seq<nat>, e: E.Eng, ps: seq<nat>, i: nat)
    requires i <= |tags|
    ensures var (ending, used, _) := Queueing(others, tags, e, ps, i);
            && i <= used <= i + |ps| && used <= |tags|
            && (ending == AllQueued <==> used == i + |ps|)
            && (ending == PastTheArray ==> used == |tags|)
            && (ending == Refused ==> used < |tags|)
    decreases |ps|
  {
    hide Meanwhile, E.Enqueue;
    if ps == [] {
    } else if i < |tags| {
      var e0 := Meanwhile(e, others.around(i));
      var (e1, accepted) := E.Enqueue(e0, E.Job(tags[i], ps[0], NEW, 0), others.startStatus(i));
      if !others.sawOffline(i) && accepted {
        QueueingCounts(others, tags, e1, ps[1..], i + 1);
      }
    }
  }

  // ---- a part refused after another was queued ----

  /** How many transfers the service steps among the events retire. */
  function Retired(e: E.Eng, evs: seq<Around>): nat
    decreases |evs|
  {
    if evs == [] then 0
    else (if evs[0].ServiceEv? then |E.Service(e, evs[0].reading).1| else 0) + Retired(E.Do(e, evs[0]), evs[1..])
  }

  /** The events take a prefix of that many transfers off the queue. */
  lemma {:induction false} RetiredPrefix(e: E.Eng, evs: seq<Around>)
    ensures Retired(e, evs) <= |e.queue|
    ensures Meanwhile(e, evs).queue == e.queue[Retired(e, evs)..]
    decreases |evs|
  {
    hide E.Service;
    if evs == [] {
    } else {
      if evs[0].ServiceEv? {
        ServicePrefix(e, evs[0].reading);
      }
      RetiredPrefix(E.Do(e, evs[0]), evs[1..]);
    }
  }

  /** A request of two parts is freed while its first transfer is still queued exactly when, between the
      two turns, the device goes offline or a shutdown is requested, and the service steps retire no
      more than what was queued before it. */
  lemma FreedWhileQueued(others: Others, tags: seq<nat>, e: E.Eng, ps: seq<nat>)
    requires |tags| == |ps| == 2 && (forall i :: 0 <= i < 2 ==> ps[i] >= 1)
    requires !others.sawOffline(0) && !Meanwhile(e, others.around(0)).request
    requires forall i :: 0 <= i < |e.queue| ==> e.queue[i].tag != tags[0]
    ensures var (ending, used, e') := Queueing(others, tags, e, ps, 0);
            var e0 := Meanwhile(e, others.around(0));
            var e1 := E.Enqueue(e0, E.Job(tags[0], ps[0], NEW, 0), others.startStatus(0)).0;
            (ending == Refused && InQueue(e'.queue, tags[0])) <==>
              && (others.sawOffline(1) || Meanwhile(e1, others.around(1)).request)
              && Retired(e1, others.around(1)) <= |e0.queue|
  {
    hide Meanwhile, Retired;
    var e0 := Meanwhile(e, others.around(0));
    var e1 := E.Enqueue(e0, E.Job(tags[0], ps[0], NEW, 0), others.startStatus(0)).0;
    RetiredPrefix(e, others.around(0));
    RetiredPrefix(e1, others.around(1));
    var e2, r := Meanwhile(e1, others.around(1)), Retired(e1, others.around(1));
    assert Queueing(others, tags, e, ps, 0) == Queueing(others, tags, e1, ps[1..], 1);
    assert e1.queue[|e0.queue|].tag == tags[0];
    assert InQueue(e2.queue, tags[0]) <==> r <= |e0.queue| by {
      if r <= |e0.queue| {
        assert e2.queue[|e0.queue| - r] == e1.queue[|e0.queue|];
      }
    }
    SecondTurn(others, tags, e1, ps);
  }

  lemma SecondTurn(others: Others, tags: seq<nat>, e1: E.Eng, ps: seq<nat>)
    requires |tags| == |ps| == 2 && ps[1] >= 1
    ensures var (ending, used, e') := Queueing(others, tags, e1, ps[1..], 1);
            var e2 := Meanwhile(e1, others.around(1));
            && (ending == Refused <==> others.sawOffline(1) || e2.request)
            && (ending == Refused ==> e' == e2)
  {
    hide Meanwhile;
    assert ps[1..][1..] == [];
  }

  ghost predicate InQueue(q: seq<E.Job>, tag: nat) { exists i :: 0 <= i < |q| && q[i].tag == tag }

  /** It happens: on a fresh engine, if the device goes offline between the two turns. */
  lemma OfflineBetweenTurns(dir: Direction, ps: seq<nat>)
    requires |ps| == 2 && ps[0] >= 1 && ps[1] >= 1
    ensures var offline: seq<Around> := [E.OfflineEv];
            var others := Others(i => if i == 1 then offline else [], _ => false, _ => 0);
            var (ending, used, e') := Queueing(others, [0, 1], E.Init(dir), ps, 0);
            ending == Refused && used == 1 && InQueue(e'.queue, 0)
  {
    var offline: seq<Around> := [E.OfflineEv];
    var others := Others(i => if i == 1 then offline else [], _ => false, _ => 0);
    var e := E.Init(dir);
    var e1 := E.Enqueue(e, E.Job(0, ps[0], NEW, 0), 0).0;
    assert Meanwhile(e, []) == e && offline[1..] == [];
    assert Meanwhile(e1, offline) == Meanwhile(E.Do(e1, E.OfflineEv), []);
    assert Retired(e1, offline) == Retired(E.Do(e1, E.OfflineEv), []) == 0;
    FreedWhileQueued(others, [0, 1], e, ps);
    QueueingCounts(others, [0, 1], e, ps, 0);
    QueueingCounts(others, [0, 1], e1, ps[1..], 1);
  }

  // ---- what lies in the ring ----

  /** The windows of a request of two parts are disjoint exactly when it has no more descriptors than the
      ring. */
  lemma WindowsCoexist(k: nat, s: nat, N: nat)
    requires s < N && |Parts(k, s, N)| == 2
    ensures var ps := Parts(k, s, N);
            && s + ps[0] == N && ps[0] + ps[1] == k && ps[1] <= N
            && (Disjoint(Win(s, ps[0]), Win(0, ps[1])) <==> k <= N)
  {
    hide Parts, CeilDiv;
    PartsLaw(k, s, N);
    var ps := Parts(k, s, N);
    assert ps == [ps[0], ps[1]];
    FirstPart(k, s, N);
    SumTwo(ps);
  }

  lemma FirstPart(k: nat, s: nat, N: nat)
    requires s < N && k > 0
    ensures var n := Window(k, s, N);
            && Parts(k, s, N) == [n] + Parts(k - n, (s + n) % N, N) && 1 <= n <= k && s + n <= N
            && (n < k ==> s + n == N && (s + n) % N == 0)
  {
    WindowIs(k, s, N);
  }

  lemma SumTwo(ns: seq<nat>)
    requires |ns| == 2
    ensures Sum(ns) == ns[0] + ns[1]
  {
    assert Sum(ns[1..]) == ns[1] + Sum(ns[1..][1..]);
    assert ns[1..][1..] == [];
  }

  /** Where the driver is in laying out a request: the ring, the next ring index, how many pieces are
      done, and the endpoint address. */
  datatype Stage = Stage(ring: seq<Desc>, idx: nat, o: nat, ep: nat)

  /** The engine's ring address, direction and address mode. */
  datatype Where = Where(base: nat, dir: Direction, incr: bool)

  /** The next part of the pieces p laid out. */
  function NextPart(w: Where, p: seq<Entry>, st: Stage): Stage {
    if st.o >= |p| || st.idx >= |st.ring| then st
    else
      var n := Window(|p| - st.o, st.idx, |st.ring|);
      var part := p[st.o..][..n];
      Stage(Lay(st.ring, w.base, st.idx, part, st.ep, w.dir, w.incr), (st.idx + n) % |st.ring|, st.o + n,
            Advance(st.ep, w.incr, Total(part)))
  }

  /** m parts laid out. */
  function LaidParts(w: Where, p: seq<Entry>, st: Stage, m: nat): Stage {
    if m == 0 then st else NextPart(w, p, LaidParts(w, p, st, m - 1))
  }

  lemma LaidMore(w: Where, p: seq<Entry>, st: Stage, m: nat)
    ensures LaidParts(w, p, st, 0) == st && LaidParts(w, p, st, m + 1) == NextPart(w, p, LaidParts(w, p, st, m))
  {
    hide NextPart;
  }

  /** Laying out a chain leaves chains in other windows as they are. */
  lemma LayKeeps(ring: seq<Desc>, base: nat, s: nat, p: seq<Entry>, ep: nat,
                 s': nat, p': seq<Entry>, ep': nat, dir: Direction, incr: bool)
    requires Holds(ring, base, s, p, ep, dir, incr) && Disjoint(Win(s, |p|), Win(s', |p'|))
    ensures Holds(Lay(ring, base, s', p', ep', dir, incr), base, s, p, ep, dir, incr)
  {
    hide ChainDesc;
  }

  /** Both chains of a request stand in the ring: the first for the pieces before o, the second for
      the rest. */
  ghost predicate BothStand(ring: seq<Desc>, base: nat, s: nat, p: seq<Entry>, o: nat, ep: nat, dir: Direction,
                            incr: bool) {
    && o <= |p| && Holds(ring, base, s, p[..o], ep, dir, incr)
    && (o < |p| ==> Holds(ring, base, 0, p[o..], Advance(ep, incr, Total(p[..o])), dir, incr))
  }

  /** When all parts of a request with no more descriptors than the ring have been laid out, all its
      chains stand complete. */
  lemma LaidPartsStand(w: Where, ring: seq<Desc>, s: nat, p: seq<Entry>, ep: nat)
    requires s < |ring| && 0 < |p| <= |ring|
    ensures var ps := Parts(|p|, s, |ring|);
            && 1 <= |ps| <= 2
            && BothStand(LaidParts(w, p, Stage(ring, s, 0, ep), |ps|).ring, w.base, s, p, ps[0], ep, w.dir, w.incr)
  {
    hide Parts, Lay, Holds, Total, Window, LaidParts, NextPart, BothStand;
    FirstPart(|p|, s, |ring|);
    TwoSlotsSuffice(|p|, s, |ring|);
    var n, st0 := Window(|p|, s, |ring|), Stage(ring, s, 0, ep);
    LaidMore(w, p, st0, 0);
    LaidMore(w, p, st0, 1);
    NextPartIs(w, p, st0);
    var st1 := LaidParts(w, p, st0, 1);
    FirstStands(w, ring, s, p, ep);
    if n == |p| {
      NoParts((s + n) % |ring|, |ring|);
    } else {
      FirstPart(|p| - n, 0, |ring|);
      WindowIs(|p| - n, 0, |ring|);
      NoParts((0 + |p| - n) % |ring|, |ring|);
      SecondStands(w, p, n, st1, ep, s);
    }
  }

  lemma FirstStands(w: Where, ring: seq<Desc>, s: nat, p: seq<Entry>, ep: nat)
    requires s < |ring| && p != []
    ensures var n := Window(|p|, s, |ring|);
            var st1 := NextPart(w, p, Stage(ring, s, 0, ep));
            && n <= |p| && |st1.ring| == |ring| && st1.o == n && st1.ep == Advance(ep, w.incr, Total(p[..n]))
            && st1.idx == (s + n) % |ring| && Holds(st1.ring, w.base, s, p[..n], ep, w.dir, w.incr)
            && (n == |p| ==> BothStand(st1.ring, w.base, s, p, n, ep, w.dir, w.incr))
  {
    hide Lay, Holds, Total, Window, NextPart;
    WindowIs(|p|, s, |ring|);
    var n := Window(|p|, s, |ring|);
    NextPartIs(w, p, Stage(ring, s, 0, ep));
    assert p[0..][..n] == p[..n];
    LayLength(ring, w.base, s, p[..n], ep, w.dir, w.incr);
    LaidHolds(ring, w.base, s, p[..n], ep, w.dir, w.incr);
  }

  lemma SecondStands(w: Where, p: seq<Entry>, n: nat, st: Stage, ep: nat, s: nat)
    requires n < |p| <= |st.ring| && st.o == n && st.idx == 0 && st.ep == Advance(ep, w.incr, Total(p[..n]))
    requires s + n == |st.ring| && Holds(st.ring, w.base, s, p[..n], ep, w.dir, w.incr)
    ensures BothStand(NextPart(w, p, st).ring, w.base, s, p, n, ep, w.dir, w.incr)
  {
    hide Lay, Holds, Total, Window, NextPart;
    var rest := p[n..];
    WindowIs(|rest|, 0, |st.ring|);
    NextPartIs(w, p, st);
    assert rest[..|rest|] == rest;
    LaidHolds(st.ring, w.base, 0, rest, st.ep, w.dir, w.incr);
    LayKeeps(st.ring, w.base, s, p[..n], ep, 0, rest, st.ep, w.dir, w.incr);
  }

  lemma NoParts(s: nat, N: nat)
    requires s < N
    ensures Parts(0, s, N) == []
  {
  }

  // ---- the code ----

  /** The critical section of another thread, on a queue of any length. */
  method RunOther(eng: XdmaEngine, ev: Around) returns (ghost k: nat)
    requires eng.ListValid()
    modifies eng, eng.transferList`state, eng.transferList`descCmpl
    ensures eng.ListValid() && k <= |old(eng.transferList)| && eng.transferList == old(eng.transferList)[k..]
    ensures eng.View() == E.Do(old(eng.View()), ev)
    ensures eng.descIdx == old(eng.descIdx) && eng.descUsed == old(eng.descUsed)
    ensures eng.nonIncrAddr == old(eng.nonIncrAddr)
  {
    hide E.Service, Distinct, Jobs;
    k := 0;
    assert eng.transferList[0..] == eng.transferList;
    match ev {
      case ServiceEv(r) =>
        k := |E.Service(eng.View(), r).1|;
        var rv := eng.EngineService(r);
      case OfflineEv => eng.Offline();
      case OnlineEv => eng.Online();
    }
  }

  method RunOthers(eng: XdmaEngine, evs: seq<Around>) returns (ghost k: nat)
    requires eng.ListValid()
    modifies eng, eng.transferList`state, eng.transferList`descCmpl
    ensures eng.ListValid() && k <= |old(eng.transferList)| && eng.transferList == old(eng.transferList)[k..]
    ensures eng.View() == Meanwhile(old(eng.View()), evs)
    ensures eng.descIdx == old(eng.descIdx) && eng.descUsed == old(eng.descUsed)
    ensures eng.nonIncrAddr == old(eng.nonIncrAddr)
  {
    hide E.Do, Distinct;
    k := 0;
    ghost var list := eng.transferList;
    assert evs[0..] == evs && list[0..] == list;
    for i := 0 to |evs|
      invariant eng.ListValid() && k <= |list| && eng.transferList == list[k..]
      invariant Meanwhile(eng.View(), evs[i..]) == Meanwhile(old(eng.View()), evs)
      invariant eng.descIdx == old(eng.descIdx) && eng.descUsed == old(eng.descUsed)
      invariant eng.nonIncrAddr == old(eng.nonIncrAddr)
    {
      assert evs[i..][1..] == evs[i + 1..];
      ghost var more := RunOther(eng, evs[i]);
      assert list[k..][more..] == list[k + more..];
      k := k + more;
    }
    assert evs[|evs|..] == [];
  }

  /** One turn: build the next transfer, mark it, queue it. */
  method QueueOne(eng: XdmaEngine, req: RequestCb, xfer: Xfer, dmaMapped: bool, nents: nat, sawOffline: bool,
                  status: nat)
    returns (ok: bool, n: nat)
    requires eng.RingValid() && eng.ListValid() && xfer !in eng.transferList
    requires req.swDescIdx < req.swDescCnt <= req.sdesc.Length && nents == req.swDescCnt - req.swDescIdx
    requires GoodPieces(req.sdesc[req.swDescIdx..req.swDescCnt], req.epAddr)
    requires Total(req.sdesc[req.swDescIdx..req.swDescCnt]) < U32
    modifies eng, eng.desc, req`epAddr, req`swDescIdx, xfer
    ensures eng.RingValid() && eng.ListValid() && eng.nonIncrAddr == old(eng.nonIncrAddr)
    ensures n == Window(nents, old(eng.descIdx), eng.descMax) && req.swDescIdx == old(req.swDescIdx) + n
    ensures var p := old(req.sdesc[req.swDescIdx..req.swDescCnt])[..n];
            var s, incr := old(eng.descIdx), !eng.nonIncrAddr;
            && eng.desc[..] == Lay(old(eng.desc[..]), eng.descBus, s, p, old(req.epAddr), eng.dir, incr)
            && req.epAddr == Advance(old(req.epAddr), incr, Total(p))
            && eng.descIdx == (s + n) % eng.descMax && eng.descUsed == old(eng.descUsed) + n
    ensures xfer.descNum == n && xfer.descIndex == old(eng.descIdx)
    ensures (xfer.lastInRequest <==> n == nents) && (xfer.needUnmap <==> !dmaMapped)
    ensures var (e, accepted) := E.Enqueue(old(eng.View()), E.Job(xfer.tag, n, NEW, 0), status);
            && (ok <==> !sawOffline && accepted) && eng.View() == (if ok then e else old(eng.View()))
            && eng.transferList == if ok then old(eng.transferList) + [xfer] else old(eng.transferList)
  {
    hide Total, GoodPieces, Lay, Jobs, Window, GoodBase, Distinct;
    n := NextTransfer(eng, req, xfer, dmaMapped, nents);
    assert eng.View() == old(eng.View());
    if sawOffline {
      return false, n;
    }
    ok := eng.TransferQueue(xfer, status);
  }

  /** The parts still to come are those of a request of the descriptors left. */
  ghost predicate Left(k: nat, s: nat, N: nat, used: nat, nents: nat, idx: nat) {
    && s < N && idx < N && used <= |Parts(k, s, N)| && Parts(k, s, N)[used..] == Parts(nents, idx, N)
    && (used == 0 ==> idx == s) && (used > 0 && nents > 0 ==> idx == 0)
  }

  lemma AllLeft(k: nat, s: nat, N: nat)
    requires s < N
    ensures Left(k, s, N, 0, k, s) && Sum(Parts(k, s, N)[..0]) == 0
  {
    hide Parts;
    assert Parts(k, s, N)[0..] == Parts(k, s, N);
  }

  lemma NoneLeft(k: nat, s: nat, N: nat, used: nat, idx: nat)
    requires Left(k, s, N, used, 0, idx)
    ensures used == |Parts(k, s, N)| && Parts(k, s, N)[used..] == []
  {
    hide Window;
    assert Parts(0, idx, N) == [];
  }

  /** The part that belongs to the transfer about to be built. */
  lemma PartHere(k: nat, s: nat, N: nat, used: nat, nents: nat, idx: nat)
    requires nents > 0 && Left(k, s, N, used, nents, idx)
    ensures var ps, n := Parts(k, s, N), Window(nents, idx, N);
            && used < |ps| && ps[used] == n <= nents && 1 <= n && idx + n <= N
            && idx == (if used == 0 then s else 0)
            && Left(k, s, N, used + 1, nents - n, (idx + n) % N)
            && (used + 1 == |ps| <==> n == nents)
            && Sum(ps[..used + 1]) == Sum(ps[..used]) + n
  {
    hide Window, Parts, Sum;
    var ps, n := Parts(k, s, N), Window(nents, idx, N);
    FirstPart(nents, idx, N);
    assert ps[used..] == [n] + Parts(nents - n, (idx + n) % N, N);
    assert ps[used + 1..] == ps[used..][1..];
    PartsLaw(nents - n, (idx + n) % N, N);
    SumSplit(ps[..used + 1], used);
    assert ps[..used + 1][..used] == ps[..used] && ps[..used + 1][used..] == [n];
    SumOne(n);
  }

  lemma SumOne(n: nat)
    ensures Sum([n]) == n
  {
    assert Sum([n][1..]) == 0;
  }

  /** A queue with the first `used` of the two transfers added at its end. */
  ghost function Behind(list: seq<Xfer>, first: Xfer, second: Xfer, used: nat): seq<Xfer> {
    if used == 0 then list else if used == 1 then list + [first] else list + [first] + [second]
  }

  /** The queue is that, less `retired` transfers at its front. */
  ghost predicate Tail(list0: seq<Xfer>, first: Xfer, second: Xfer, used: nat, retired: nat, list: seq<Xfer>) {
    var all := Behind(list0, first, second, used);
    retired <= |all| && list == all[retired..]
  }

  lemma TailStart(list: seq<Xfer>, first: Xfer, second: Xfer)
    ensures Tail(list, first, second, 0, 0, list)
  {
  }

  lemma TailMembers(list0: seq<Xfer>, first: Xfer, second: Xfer, used: nat, retired: nat, list: seq<Xfer>)
    requires Tail(list0, first, second, used, retired, list)
    ensures forall i :: 0 <= i < |list| ==>
              (retired + i < |list0| && list[i] == list0[retired + i]) || list[i] == first || list[i] == second
    ensures used < 2 && first != second && first !in list0 && second !in list0 ==> [first, second][used] !in list
  {
  }

  lemma TailStep(list0: seq<Xfer>, first: Xfer, second: Xfer, used: nat, retired: nat, list: seq<Xfer>, more: nat,
                 ok: bool)
    requires Tail(list0, first, second, used, retired, list) && more <= |list| && used < 2
    ensures var x := [first, second][used];
            var used', list' := if ok then used + 1 else used, list[more..] + (if ok then [x] else []);
            Tail(list0, first, second, used', retired + more, list')
  {
  }

  /** One turn of the loop on values. */
  lemma QueueingStep(others: Others, tags: seq<nat>, e: E.Eng, ps: seq<nat>, i: nat)
    requires i < |ps|
    ensures i >= |tags| ==> Queueing(others, tags, e, ps[i..], i) == (PastTheArray, i, e)
    ensures i < |tags| ==>
              var e0 := Meanwhile(e, others.around(i));
              var (e1, accepted) := E.Enqueue(e0, E.Job(tags[i], ps[i], NEW, 0), others.startStatus(i));
              && (others.sawOffline(i) || !accepted ==> Queueing(others, tags, e, ps[i..], i) == (Refused, i, e0))
              && (!others.sawOffline(i) && accepted ==>
                    Queueing(others, tags, e, ps[i..], i) == Queueing(others, tags, e1, ps[i + 1..], i + 1))
  {
    hide Meanwhile, E.Enqueue;
    assert ps[i..][1..] == ps[i + 1..];
  }

  /** Where engine and request are in laying out. */
  ghost function StageOf(eng: XdmaEngine, req: RequestCb): Stage
    reads eng, eng.desc, req
  {
    Stage(eng.desc[..], eng.descIdx, req.swDescIdx, req.epAddr)
  }

  /** What other threads do before a turn, then the turn. */
  method QueueTurn(eng: XdmaEngine, req: RequestCb, xfer: Xfer, dmaMapped: bool, nents: nat, others: Others, i: nat,
                   ghost p: seq<Entry>)
    returns (ok: bool, n: nat, ghost more: nat)
    requires eng.RingValid() && eng.ListValid() && xfer !in eng.transferList
    requires req.swDescIdx < req.swDescCnt <= req.sdesc.Length && nents == req.swDescCnt - req.swDescIdx
    requires RestOk(req.sdesc[..], req.swDescIdx, req.swDescCnt, req.epAddr) && p == req.sdesc[..req.swDescCnt]
    modifies eng, eng.desc, eng.transferList`state, eng.transferList`descCmpl, req`epAddr, req`swDescIdx, xfer
    ensures eng.RingValid() && eng.ListValid() && eng.nonIncrAddr == old(eng.nonIncrAddr)
    ensures n == Window(nents, old(eng.descIdx), eng.descMax)
    ensures req.swDescIdx == old(req.swDescIdx) + n <= req.swDescCnt
    ensures RestOk(req.sdesc[..], req.swDescIdx, req.swDescCnt, req.epAddr)
    ensures StageOf(eng, req) == NextPart(Where(eng.descBus, eng.dir, !eng.nonIncrAddr), p, old(StageOf(eng, req)))
    ensures eng.descUsed == old(eng.descUsed) + n
    ensures xfer.descNum == n && xfer.descIndex == old(eng.descIdx) && (xfer.lastInRequest <==> n == nents)
    ensures var e0 := Meanwhile(old(eng.View()), others.around(i));
            var (e1, accepted) := E.Enqueue(e0, E.Job(xfer.tag, n, NEW, 0), others.startStatus(i));
            && (ok <==> !others.sawOffline(i) && accepted) && eng.View() == (if ok then e1 else e0)
    ensures more <= |old(eng.transferList)|
    ensures eng.transferList == old(eng.transferList)[more..] + (if ok then [xfer] else [])
  {
    hide Total, GoodPieces, Jobs, GoodBase, Distinct, RestOk, Meanwhile, E.Enqueue, Lay, NextPart, Window;
    ghost var o, cnt, at, st, sd := req.swDescIdx, req.swDescCnt, req.epAddr, StageOf(eng, req), req.sdesc[..];
    ghost var w, n0 := Where(eng.descBus, eng.dir, !eng.nonIncrAddr), Window(nents, eng.descIdx, eng.descMax);
    NextPartIs(w, p, st);
    RestMeans(sd, o, cnt, at);
    RestGood(sd, o, cnt, n0, at, w.incr);
    assert sd[..cnt] == p;
    more := RunOthers(eng, others.around(i));
    ok, n := QueueOne(eng, req, xfer, dmaMapped, nents, others.sawOffline(i), others.startStatus(i));
  }

  /** A request about to be queued: the world around it, its transfer objects' tags, the engine, where
      and what to lay out. */
  datatype Plan = Plan(others: Others, tags: seq<nat>, eng: E.Eng, w: Where, p: seq<Entry>, start: Stage)

  ghost predicate GoodPlan(pl: Plan) { pl.start.idx < |pl.start.ring| && pl.start.o == 0 }

  /** The sizes of its parts. */
  ghost function PartsOf(pl: Plan): seq<nat>
    requires GoodPlan(pl)
  {
    Parts(|pl.p|, pl.start.idx, |pl.start.ring|)
  }

  /** The loop has queued `used` parts of d descriptors; nents are left. */
  ghost predicate OnTrack(pl: Plan, used: nat, nents: nat, e: E.Eng, st: Stage, d: nat) {
    && GoodPlan(pl) && st.o + nents == |pl.p| && |st.ring| == |pl.start.ring|
    && Left(|pl.p|, pl.start.idx, |st.ring|, used, nents, st.idx)
    && LaidParts(pl.w, pl.p, pl.start, used) == st
    && used <= |PartsOf(pl)| && d == Sum(PartsOf(pl)[..used])
    && Queueing(pl.others, pl.tags, pl.eng, PartsOf(pl), 0)
       == Queueing(pl.others, pl.tags, e, PartsOf(pl)[used..], used)
  }

  /** How the loop ends: what is queued and the engine as on values; the parts built, which include one
      refused, lie in the ring, d descriptors in all. */
  ghost predicate EndedAs(pl: Plan, ending: Ending, used: nat, e: E.Eng, st: Stage, d: nat) {
    && GoodPlan(pl)
    && var ps, built := PartsOf(pl), used + (if ending == Refused then 1 else 0);
       && (ending, used, e) == Queueing(pl.others, pl.tags, pl.eng, ps, 0)
       && built <= |ps| && d == Sum(ps[..built]) && st == LaidParts(pl.w, pl.p, pl.start, built)
  }

  lemma OnTrackStart(pl: Plan)
    requires GoodPlan(pl)
    ensures OnTrack(pl, 0, |pl.p|, pl.eng, pl.start, 0)
  {
    hide Parts, Queueing, Sum, LaidParts, Left;
    AllLeft(|pl.p|, pl.start.idx, |pl.start.ring|);
    LaidMore(pl.w, pl.p, pl.start, 0);
    assert PartsOf(pl)[0..] == PartsOf(pl);
  }

  lemma OnTrackEnd(pl: Plan, used: nat, e: E.Eng, st: Stage, d: nat)
    requires OnTrack(pl, used, 0, e, st, d)
    ensures EndedAs(pl, AllQueued, used, e, st, d)
  {
    hide Parts, Queueing, Sum, LaidParts, Left;
    NoneLeft(|pl.p|, pl.start.idx, |st.ring|, used, st.idx);
    QueueingEnd(pl.others, pl.tags, e, used);
  }

  /** Part i of the request has n descriptors; it is the final one exactly if `last`. */
  ghost predicate IsPart(pl: Plan, i: nat, n: nat, last: bool) {
    GoodPlan(pl) && i < |PartsOf(pl)| && PartsOf(pl)[i] == n && (last <==> i + 1 == |PartsOf(pl)|)
  }

  /** The next turn: which part it is, and how it ends. */
  lemma OnTrackTurn(pl: Plan, used: nat, nents: nat, e: E.Eng, st: Stage, d: nat)
    requires OnTrack(pl, used, nents, e, st, d) && nents > 0
    ensures st.idx < |st.ring|
    ensures var n, st' := Window(nents, st.idx, |st.ring|), NextPart(pl.w, pl.p, st);
            && IsPart(pl, used, n, n == nents) && 1 <= n <= nents
            && st.idx == (if used == 0 then pl.start.idx else 0)
            && if used >= |pl.tags| then EndedAs(pl, PastTheArray, used, e, st, d)
               else
                 var e0 := Meanwhile(e, pl.others.around(used));
                 var (e1, ok) := E.Enqueue(e0, E.Job(pl.tags[used], n, NEW, 0), pl.others.startStatus(used));
                 if pl.others.sawOffline(used) || !ok then EndedAs(pl, Refused, used, e0, st', d + n)
                 else OnTrack(pl, used + 1, nents - n, e1, st', d + n)
  {
    hide Parts, Queueing, Sum, LaidParts, Left, NextPart, Meanwhile, E.Enqueue, Window, Lay, Total;
    PartHere(|pl.p|, pl.start.idx, |st.ring|, used, nents, st.idx);
    QueueingStep(pl.others, pl.tags, e, PartsOf(pl), used);
    LaidMore(pl.w, pl.p, pl.start, used);
    LeftIndex(|pl.p|, pl.start.idx, |st.ring|, used, nents, st.idx);
    NextPartIs(pl.w, pl.p, st);
    LayLength(st.ring, pl.w.base, st.idx, pl.p[st.o..][..PartsOf(pl)[used]], st.ep, pl.w.dir, pl.w.incr);
  }

  lemma LeftIndex(k: nat, s: nat, N: nat, used: nat, nents: nat, idx: nat)
    requires Left(k, s, N, used, nents, idx)
    ensures idx < N
  {
  }

  /** The transfer is part i of the request, from ring index `start`, and marked last if it is the final. */
  ghost predicate Placed(x: Xfer, pl: Plan, i: nat, start: nat)
    reads x
  {
    IsPart(pl, i, x.descNum, x.lastInRequest) && x.descIndex == start
  }

  /** The splitting loop.  What is queued and how the loop ends is as on values; every part built lies in
      the ring as on values, so that with no more descriptors than the ring both chains then stand
      complete (LaidPartsStand); only the final part is marked last in its request. */
  method QueueRequest(eng: XdmaEngine, req: RequestCb, first: Xfer, second: Xfer, dmaMapped: bool, others: Others)
    returns (ending: Ending, used: nat, ghost retired: nat)
    requires eng.RingValid() && eng.ListValid() && first != second
    requires first !in eng.transferList && second !in eng.transferList
    requires req.swDescIdx == 0 && req.swDescCnt <= req.sdesc.Length
    requires GoodPieces(req.sdesc[..req.swDescCnt], req.epAddr) && Total(req.sdesc[..req.swDescCnt]) < U32
    modifies eng, eng.desc, eng.transferList`state, eng.transferList`descCmpl, req`epAddr, req`swDescIdx, first, second
    ensures eng.RingValid() && eng.ListValid() && eng.nonIncrAddr == old(eng.nonIncrAddr)
    ensures var pl := Plan(others, [first.tag, second.tag], old(eng.View()),
                           Where(eng.descBus, eng.dir, !eng.nonIncrAddr), old(req.sdesc[..req.swDescCnt]),
                           Stage(old(eng.desc[..]), old(eng.descIdx), 0, old(req.epAddr)));
            && eng.descUsed >= old(eng.descUsed)
            && EndedAs(pl, ending, used, eng.View(), StageOf(eng, req), eng.descUsed - old(eng.descUsed))
            && (used >= 1 ==> Placed(first, pl, 0, pl.start.idx)) && (used >= 2 ==> Placed(second, pl, 1, 0))
    ensures Tail(old(eng.transferList), first, second, used, retired, eng.transferList)
  {
    hide Total, GoodPieces, Parts, Window, Jobs, GoodBase, Distinct, RestOk, Behind, Queueing, Meanwhile,
         LaidParts, Sum, E.Enqueue, Lay, OnTrack, NextPart, EndedAs, IsPart, Tail;
    ghost var k, sd, used0 := req.swDescCnt, req.sdesc[..], eng.descUsed;
    ghost var pl := Plan(others, [first.tag, second.tag], eng.View(), Where(eng.descBus, eng.dir, !eng.nonIncrAddr),
                         sd[..k], Stage(eng.desc[..], eng.descIdx, 0, req.epAddr));
    var tfer := [first, second];
    var nents: nat := req.swDescCnt;
    used, retired := 0, 0;
    assert req.sdesc[..k] == sd[..k];
    OnTrackStart(pl);
    RestStart(sd, k, req.epAddr);
    TailStart(eng.transferList, first, second);
    while nents > 0
      invariant eng.RingValid() && eng.ListValid() && eng.nonIncrAddr == !pl.w.incr && req.sdesc[..] == sd
      invariant used <= 2 && nents + req.swDescIdx == k && RestOk(sd, req.swDescIdx, k, req.epAddr)
      invariant Tail(old(eng.transferList), first, second, used, retired, eng.transferList)
      invariant eng.descUsed >= used0
      invariant OnTrack(pl, used, nents, eng.View(), StageOf(eng, req), eng.descUsed - used0)
      invariant (used >= 1 ==> Placed(first, pl, 0, pl.start.idx)) && (used >= 2 ==> Placed(second, pl, 1, 0))
    {
      OnTrackTurn(pl, used, nents, eng.View(), StageOf(eng, req), eng.descUsed - used0);
      if used == 2 {
        return PastTheArray, used, retired;
      }
      ghost var list := eng.transferList;
      TailMembers(old(eng.transferList), first, second, used, retired, list);
      var ok, n;
      ghost var more;
      ok, n, more := QueueTurn(eng, req, tfer[used], dmaMapped, nents, others, used, sd[..k]);
      TailStep(old(eng.transferList), first, second, used, retired, list, more, ok);
      retired := retired + more;
      if !ok {
        return Refused, used, retired;
      }
      nents := nents - n;
      used := used + 1;
    }
    OnTrackEnd(pl, used, eng.View(), StageOf(eng, req), eng.descUsed - used0);
    ending := AllQueued;
  }

  lemma QueueingEnd(others: Others, tags: seq<nat>, e: E.Eng, i: nat)
    ensures Queueing(others, tags, e, [], i) == (AllQueued, i, e)
  {
  }

  lemma NextPartIs(w: Where, p: seq<Entry>, st: Stage)
    requires st.o < |p| && st.idx < |st.ring|
    ensures var n := Window(|p| - st.o, st.idx, |st.ring|);
            && n <= |p| - st.o
            && var part := p[st.o..][..n];
               NextPart(w, p, st) ==
                 Stage(Lay(st.ring, w.base, st.idx, part, st.ep, w.dir, w.incr), (st.idx + n) % |st.ring|, st.o + n,
                       Advance(st.ep, w.incr, Total(part)))
  {
    WindowIs(|p| - st.o, st.idx, |st.ring|);
  }
}
