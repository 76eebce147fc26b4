/** A submitter's turn, as the submit calls take it, is a run of the shared driver: queueing, the critical
    sections of the others one by one, and the look. */
module TurnRuns {
  import opened Request
  import opened Carve
  import opened Descriptor
  import opened Transfer
  import opened Wait
  import opened Submit
  import opened SyncDriver
  import E = EngineModel
  import opened Hardware

  /** The critical sections of the others as events of the driver. */
  function Others(evs: seq<Around>): seq<Event>
    decreases |evs|
  {
    if evs == [] then []
    else
      var ev := match evs[0]
        case ServiceEv(r) => Service(r)
        case OfflineEv => Offline
        case _ => Online;
      [ev] + Others(evs[1..])
  }

  /** Thread t waits for its transfer, which is in state st. */
  ghost predicate WaitsFor(s: Sys, t: nat, req: nat, left: nat, st: TransferState) {
    t in s.phases && s.phases[t] == Waiting(req, left) && StateOf(s, req) == st
  }

  /** One critical section of another thread. */
  lemma OneOther(s: Sys, t: nat, req: nat, left: nat, st: TransferState, n: nat, ev: Around)
    requires WaitsFor(s, t, req, left, st) && Alone(s.eng, st, req, n) && n >= 1
    ensures Others([ev]) != []
    ensures var s' := Step(s, Others([ev])[0]);
            var (e', st') := After(s.eng, st, [ev]);
            && s'.eng == e' && WaitsFor(s', t, req, left, st') && s'.phases == s.phases
            && s'.lock == s.lock && s'.freed == s.freed && Alone(e', st', req, n)
  {
    hide E.Service, E.Inv, E.Reported, E.Clean;
    assert [ev][1..] == [];
    if s.eng.queue == [] {
      RetiredStep(s.eng, st, req, n, ev);
      if ev.ServiceEv? {
        hide Alone;
        NothingDone(s.eng, st, req, n, ev.reading);
      }
    } else {
      EventStep(s.eng, req, n, ev);
      if ev.ServiceEv? {
        hide Alone;
        OwnDone(s.eng, req, n, ev.reading);
        var done := E.Service(s.eng, ev.reading).1;
        assert done != [] ==> done[1..] == [] && Record(s.states, done) == s.states[req := done[0].state];
      }
    }
  }

  lemma NothingDone(e: E.Eng, st: TransferState, req: nat, n: nat, r: E.Reading)
    requires Alone(e, st, req, n) && e.queue == []
    ensures E.Service(e, r).1 == []
  {
    IdleService(e, r);
  }

  lemma OwnDone(e: E.Eng, req: nat, n: nat, r: E.Reading)
    requires Alone(e, SUBMITTED, req, n) && n >= 1
    ensures var done := E.Service(e, r).1;
            done == [] || (|done| == 1 && done[0].tag == req)
  {
    hide E.CountOf, E.Retire, E.Polled, E.Inv, E.Clean;
    E.PolledMeans(e, r);
    if e.running && E.CountOf(r) != 0 {
      E.RetireOne(E.Polled(e, r), E.CountOf(r));
    }
  }

  lemma {:induction false} AllOthers(s: Sys, t: nat, req: nat, left: nat, st: TransferState, n: nat, evs: seq<Around>)
    requires WaitsFor(s, t, req, left, st) && Alone(s.eng, st, req, n) && n >= 1
    ensures var s' := RunAll(s, Others(evs));
            var (e', st') := After(s.eng, st, evs);
            && s'.eng == e' && WaitsFor(s', t, req, left, st') && s'.phases == s.phases
            && s'.lock == s.lock && s'.freed == s.freed
    decreases |evs|
  {
    hide Step, After, Alone, WaitsFor;
    if evs == [] {
      AfterNothing(s.eng, st, evs);
    } else {
      assert [evs[0]][1..] == [];
      assert Others(evs) == [Others([evs[0]])[0]] + Others(evs[1..]);
      AfterStep(s.eng, st, evs);
      OneOther(s, t, req, left, st, n, evs[0]);
      var (e1, st1) := After(s.eng, st, [evs[0]]);
      var s1 := Step(s, Others([evs[0]])[0]);
      AllOthers(s1, t, req, left, st1, n, evs[1..]);
      assert Others(evs)[1..] == Others(evs[1..]);
    }
  }

  /** The events of a turn of thread t. */
  function TurnEvents(t: nat, turn: Turn): seq<Event> {
    [Queue(t, turn.sawOffline, turn.startStatus)] + Others(turn.events) + [Judge(t, turn.idValid, turn.newStatus)]
  }

  /** A turn that is not refused is a run of the driver with the same engine at the end, after which the
      submitter has judged its transfer; a refused one is the queueing step alone, after which it leaves. */
  lemma TurnIsRun(s: Sys, t: nat, turn: Turn)
    requires t in s.phases && s.phases[t].Built? && s.phases[t].n >= 1 && E.Inv(s.eng) && s.eng.queue == []
    ensures var ph := s.phases[t];
            var (o, e') := Take(s.eng, E.Job(ph.req, ph.n, NEW, 0), turn);
            if o.Rejected? then
              var s' := Step(s, Queue(t, turn.sawOffline, turn.startStatus));
              s'.eng == e' && s'.phases == s.phases[t := Leaving(ph.req)]
            else
              var s' := RunAll(s, TurnEvents(t, turn));
              s'.eng == e' && s'.phases == s.phases[t := Judged(ph.req, ph.left, o == Seen(COMPLETED))]
  {
    hide After, E.Inv, E.Service, RequestsDistinct, Others;
    var ph := s.phases[t];
    var job := E.Job(ph.req, ph.n, NEW, 0);
    var (e1, accepted) := E.Enqueue(s.eng, job, turn.startStatus);
    if !turn.sawOffline && accepted {
      E.InvStep(s.eng, E.QueueEv(job, turn.startStatus));
      NotRunning(s.eng);
      var q := Queue(t, turn.sawOffline, turn.startStatus);
      var s1 := Step(s, q);
      AllOthers(s1, t, ph.req, ph.left, SUBMITTED, ph.n, turn.events);
      RunParts(s, q, Others(turn.events), Judge(t, turn.idValid, turn.newStatus));
      AfterLaw(e1, turn.events, ph.req, ph.n);
      var (e2, st) := After(e1, SUBMITTED, turn.events);
      StaysRetired(e2, st, ph.req, ph.n);
    }
  }

  lemma NotRunning(e: E.Eng)
    requires E.Inv(e) && e.queue == []
    ensures !e.running
  {
  }

  lemma RunParts(s: Sys, first: Event, mid: seq<Event>, last: Event)
    ensures RunAll(s, [first] + mid + [last]) == Step(RunAll(Step(s, first), mid), last)
  {
    hide Step;
    var evs := [first] + mid;
    RunSnoc(s, evs, last);
    assert evs[0] == first && evs[1..] == mid;
  }

  // ---- a whole call ----

  /** The engine after the turns of a call with parts of the given sizes; the call ends with the first
      turn that is not seen COMPLETED. */
  function AllTurns(e: E.Eng, tag: nat, ps: seq<nat>, turns: nat -> Turn, j: nat): E.Eng
    decreases |ps|
  {
    if ps == [] then e
    else
      var (o, e') := Take(e, E.Job(tag, ps[0], NEW, 0), turns(j));
      if o == Seen(COMPLETED) then AllTurns(e', tag, ps[1..], turns, j + 1) else e'
  }

  /** The steps of thread t in such a call: carve, take a turn, go on. */
  function CallEvents(t: nat, e: E.Eng, tag: nat, ps: seq<nat>, turns: nat -> Turn, j: nat): seq<Event>
    decreases |ps|
  {
    if ps == [] then []
    else
      var (o, e') := Take(e, E.Job(tag, ps[0], NEW, 0), turns(j));
      if o.Rejected? then [Carve(t, ps[0]), Queue(t, turns(j).sawOffline, turns(j).startStatus)]
      else
        [Carve(t, ps[0])] + TurnEvents(t, turns(j)) + [Next(t)]
          + (if o == Seen(COMPLETED) then CallEvents(t, e', tag, ps[1..], turns, j + 1) else [])
  }

  lemma {:induction false} RunAppend(s: Sys, a: seq<Event>, b: seq<Event>)
    ensures RunAll(s, a + b) == RunAll(RunAll(s, a), b)
    decreases |a|
  {
    hide Step;
    if a == [] {
      assert a + b == b;
    } else {
      assert (a + b)[1..] == a[1..] + b;
      RunAppend(Step(s, a[0]), a[1..], b);
    }
  }

  lemma RunOne(s: Sys, ev: Event)
    ensures RunAll(s, [ev]) == Step(s, ev)
  {
    hide Step;
    assert [ev][1..] == [];
  }

  /** Carving, and going on after the verdict. */
  lemma CarveStep(s: Sys, t: nat, n: nat)
    requires t in s.phases && s.phases[t].Building? && 1 <= n <= s.phases[t].left
    ensures var ph := s.phases[t];
            var s' := Step(s, Carve(t, n));
            s'.eng == s.eng && s'.phases == s.phases[t := Built(ph.req, ph.left - n, n)] && s'.lock == s.lock
            && s'.freed == s.freed && s'.nextReq == s.nextReq
  {
  }

  lemma NextStep(s: Sys, t: nat)
    requires t in s.phases && s.phases[t].Judged?
    ensures var ph := s.phases[t];
            var s' := Step(s, Next(t));
            s'.eng == s.eng
            && s'.phases == s.phases[t := if ph.ok && ph.left > 0 then Building(ph.req, ph.left) else Leaving(ph.req)]
  {
  }

  /** One part of a call. */
  lemma PartIsRun(s: Sys, t: nat, n: nat, turn: Turn)
    requires t in s.phases && s.phases[t].Building? && 1 <= n <= s.phases[t].left
    requires E.Inv(s.eng) && s.eng.queue == []
    ensures var ph := s.phases[t];
            var (o, e') := Take(s.eng, E.Job(ph.req, n, NEW, 0), turn);
            if o.Rejected? then
              var s' := RunAll(s, [Carve(t, n), Queue(t, turn.sawOffline, turn.startStatus)]);
              s'.eng == e' && s'.phases == s.phases[t := Leaving(ph.req)]
            else
              var s' := RunAll(s, [Carve(t, n)] + TurnEvents(t, turn) + [Next(t)]);
              && s'.eng == e'
              && s'.phases == s.phases[t := if o == Seen(COMPLETED) && ph.left > n
                                            then Building(ph.req, ph.left - n) else Leaving(ph.req)]
  {
    hide Step, RunAll, Take, TurnEvents, E.Inv;
    var s1 := Step(s, Carve(t, n));
    CarveStep(s, t, n);
    TurnIsRun(s1, t, turn);
    RunOne(s, Carve(t, n));
    var (o, e') := Take(s.eng, E.Job(s.phases[t].req, n, NEW, 0), turn);
    if o.Rejected? {
      var q := Queue(t, turn.sawOffline, turn.startStatus);
      RunOne(s1, q);
      RunAppend(s, [Carve(t, n)], [q]);
      assert [Carve(t, n)] + [q] == [Carve(t, n), q];
    } else {
      var s2 := RunAll(s1, TurnEvents(t, turn));
      NextStep(s2, t);
      RunOne(s2, Next(t));
      RunAppend(s, [Carve(t, n)], TurnEvents(t, turn));
      RunAppend(s, [Carve(t, n)] + TurnEvents(t, turn), [Next(t)]);
    }
  }

  /** A call is a run of the driver with the same engine at the end, after which the submitter leaves. */
  lemma {:induction false} CallIsRun(s: Sys, t: nat, ps: seq<nat>, turns: nat -> Turn, j: nat)
    requires ps != [] && t in s.phases && s.phases[t].Building? && s.phases[t].left == Sum(ps)
    requires (forall i :: 0 <= i < |ps| ==> ps[i] >= 1) && E.Inv(s.eng) && s.eng.queue == []
    ensures var ph := s.phases[t];
            var s' := RunAll(s, CallEvents(t, s.eng, ph.req, ps, turns, j));
            s'.eng == AllTurns(s.eng, ph.req, ps, turns, j) && s'.phases == s.phases[t := Leaving(ph.req)]
    decreases |ps|
  {
    hide Step, RunAll, Take, TurnEvents, E.Inv;
    var ph, n := s.phases[t], ps[0];
    PartsLeft(ps);
    PartIsRun(s, t, n, turns(j));
    TakeAgain(s.eng, E.Job(ph.req, n, NEW, 0), turns(j));
    var (o, e') := Take(s.eng, E.Job(ph.req, n, NEW, 0), turns(j));
    var now := [Carve(t, n)] + TurnEvents(t, turns(j)) + [Next(t)];
    if o == Seen(COMPLETED) {
      var s1 := RunAll(s, now);
      if ps[1..] == [] {
        assert CallEvents(t, e', ph.req, [], turns, j + 1) == [];
        assert now + [] == now;
      } else {
        CallIsRun(s1, t, ps[1..], turns, j + 1);
        RunAppend(s, now, CallEvents(t, e', ph.req, ps[1..], turns, j + 1));
      }
    } else if !o.Rejected? {
      assert now + [] == now;
    }
  }

  lemma PartsLeft(ps: seq<nat>)
    requires ps != [] && forall i :: 0 <= i < |ps| ==> ps[i] >= 1
    ensures Sum(ps) == ps[0] + Sum(ps[1..]) && (Sum(ps) > ps[0] <==> ps[1..] != [])
  {
    if ps[1..] != [] {
      assert ps[1..][0] == ps[1];
    }
  }

  /** So is the call as the submit code makes it: from taking desc_lock to freeing the request, thread t
      leaves the engine as the call on values does, and its request is freed. */
  lemma SubmitIsRun(s: Sys, t: nat, k: nat, idx: nat, N: nat, turns: nat -> Turn)
    requires Inv(s) && s.lock == None && t !in s.phases && k >= 1 && idx < N
    ensures var ps := Parts(k, idx, N);
            var evs := [Enter(t, k)] + CallEvents(t, s.eng, s.nextReq, ps, turns, 0) + [Unlock(t), Free(t)];
            var s' := RunAll(s, evs);
            && s'.eng == AllTurns(s.eng, s.nextReq, ps, turns, 0)
            && s'.lock == None && s'.phases == s.phases && s.nextReq in s'.freed
  {
    hide Step, RunAll, CallEvents, AllTurns, Parts, E.Inv, RequestsDistinct, LockHeld;
    var ps, req := Parts(k, idx, N), s.nextReq;
    PartsLaw(k, idx, N);
    var s1 := Step(s, Enter(t, k));
    EnterStep(s, t, k);
    RunOne(s, Enter(t, k));
    CallIsRun(s1, t, ps, turns, 0);
    var mid := CallEvents(t, s.eng, req, ps, turns, 0);
    var s2 := RunAll(s1, mid);
    RunAppend(s, [Enter(t, k)], mid);
    LeaveSteps(s2, t);
    assert s2.phases - {t} == s.phases;
    RunAppend(s, [Enter(t, k)] + mid, [Unlock(t), Free(t)]);
  }

  lemma EnterStep(s: Sys, t: nat, k: nat)
    requires s.lock == None && t !in s.phases && k >= 1
    ensures var s' := Step(s, Enter(t, k));
            s'.eng == s.eng && s'.phases == s.phases[t := Building(s.nextReq, k)]
  {
  }

  lemma LeaveSteps(s: Sys, t: nat)
    requires t in s.phases && s.phases[t].Leaving?
    ensures var s' := RunAll(s, [Unlock(t), Free(t)]);
            s'.eng == s.eng && s'.lock == None && s'.phases == s.phases - {t} && s.phases[t].req in s'.freed
  {
    hide RunAll;
    RunOne(s, Unlock(t));
    var s1 := Step(s, Unlock(t));
    RunOne(s1, Free(t));
    RunAppend(s, [Unlock(t)], [Free(t)]);
    assert [Unlock(t)] + [Free(t)] == [Unlock(t), Free(t)];
    assert s1.phases - {t} == s.phases - {t};
  }

  /** The engine of the call on values is that of its turns. */
  lemma {:induction false} SubmittedTurns(c: Setting, ring: seq<Desc>, s: nat, p: seq<Entry>, ep: nat, e: E.Eng, j: nat)
    requires s < |ring|
    ensures Submitted(c, ring, s, p, ep, e, j).eng == AllTurns(e, 0, Parts(|p|, s, |ring|), c.turns, j)
    decreases |p|
  {
    hide Submitted, ChainMoves, Total, Lay, Clear, Window, Take, NextIdx, Then, Parts;
    PartsStep(|p|, s, |ring|);
    if p == [] {
      SubmittedEnd(c, ring, s, p, ep, e, j);
    } else {
      var n := Window(|p|, s, |ring|);
      SubmittedStep(c, ring, s, p, ep, e, j);
      var (o, e') := Take(e, E.Job(0, n, NEW, 0), c.turns(j));
      if o == Seen(COMPLETED) {
        var ep', cleared := Advance(ep, c.incr, Total(p[..n])), Clear(FirstLaid(c, ring, s, p, ep), s, n);
        NextIdxIs(p, s, |ring|);
        SubmittedTurns(c, cleared, NextIdx(p, s, |ring|), p[n..], ep', e', j + 1);
      }
    }
  }
}
