/** An engine shared by any number of threads that submit synchronously (`xdma_xfer_submit` or
    `xdma_xfer_aperture`), interleaved with service, offline and online steps.
    A submitter reuses one transfer object for all transfers of its request, so a transfer is
    identified by its request. */
module SyncDriver {
  import opened Descriptor
  import opened Transfer
  import E = EngineModel
  import opened Hardware

  /** Where a submitting thread is.  `left` counts the software descriptors not yet carved. */
  datatype Phase =
    | Building(req: nat, left: nat)           // holds desc_lock, about to carve the next transfer
    | Built(req: nat, left: nat, n: nat)      // transfer_init done, not yet queued
    | Waiting(req: nat, left: nat)            // transfer_queue accepted it
    | Judged(req: nat, left: nat, ok: bool)   // has looked at the transfer's state
    | Leaving(req: nat)                       // about to release desc_lock
    | Unlocked(req: nat)                      // released, request not yet freed

  /** `lock` is the holder of desc_lock; a thread not in `phases` is outside. */
  datatype Sys = Sys(eng: E.Eng, lock: Option<nat>, phases: map<nat, Phase>,
                     states: map<nat, TransferState>, nextReq: nat, freed: set<nat>)

  datatype Event =
    | Enter(t: nat, k: nat)                                // mutex_lock, with k software descriptors
    | Carve(t: nat, n: nat)                                // transfer_init
    | Queue(t: nat, sawOffline: bool, startStatus: nat)    // transfer_queue
    | Judge(t: nat, idValid: bool, newStatus: nat)         // leave the wait, now or later: the switch
    | Next(t: nat)                                         // transfer_destroy and the loop test
    | Unlock(t: nat)                                       // mutex_unlock
    | Free(t: nat)                                         // xdma_request_free
    | Service(r: E.Reading)
    | Offline
    | Online

  function Init(eng: E.Eng): Sys { Sys(eng, None, map[], map[], 0, {}) }

  function Record(states: map<nat, TransferState>, done: seq<E.Job>): map<nat, TransferState>
    decreases |done|
  {
    if done == [] then states else Record(states[done[0].tag := done[0].state], done[1..])
  }

  function StateOf(s: Sys, req: nat): TransferState { if req in s.states then s.states[req] else NEW }

  /** One step; an event whose thread is not at that point of its code does nothing. */
  function Step(s: Sys, ev: Event): Sys {
    match ev
    case Enter(t, k) =>
      if s.lock != None || t in s.phases then s
      else s.(lock := Some(t), phases := s.phases[t := if k == 0 then Leaving(s.nextReq) else Building(s.nextReq, k)],
              nextReq := s.nextReq + 1)
    case Carve(t, n) =>
      if t in s.phases && s.phases[t].Building? && 1 <= n <= s.phases[t].left
      then var ph := s.phases[t];
        s.(phases := s.phases[t := Built(ph.req, ph.left - n, n)], states := s.states[ph.req := NEW])
      else s
    case Queue(t, sawOffline, st) =>
      if t in s.phases && s.phases[t].Built?
      then var ph := s.phases[t];
        var (eng, accepted) := if sawOffline then (s.eng, false) else E.Enqueue(s.eng, E.Job(ph.req, ph.n, NEW, 0), st);
        if accepted then
          s.(eng := eng, phases := s.phases[t := Waiting(ph.req, ph.left)], states := s.states[ph.req := SUBMITTED])
        else s.(eng := eng, phases := s.phases[t := Leaving(ph.req)])
      else s
    case Judge(t, idValid, st) =>
      if t in s.phases && s.phases[t].Waiting?
      then var ph := s.phases[t];
        match StateOf(s, ph.req)
        case COMPLETED => s.(phases := s.phases[t := Judged(ph.req, ph.left, true)])
        case FAILED => s.(phases := s.phases[t := Judged(ph.req, ph.left, false)])
        case other =>
          s.(eng := E.Abort(s.eng, ph.req, idValid, st),
             phases := s.phases[t := Judged(ph.req, ph.left, false)],
             states := if idValid && other == SUBMITTED then s.states[ph.req := ABORTED] else s.states)
      else s
    case Next(t) =>
      if t in s.phases && s.phases[t].Judged?
      then var ph := s.phases[t];
        s.(phases := s.phases[t := if ph.ok && ph.left > 0 then Building(ph.req, ph.left) else Leaving(ph.req)])
      else s
    case Unlock(t) =>
      if t in s.phases && s.phases[t].Leaving?
      then s.(lock := None, phases := s.phases[t := Unlocked(s.phases[t].req)])
      else s
    case Free(t) =>
      if t in s.phases && s.phases[t].Unlocked?
      then s.(phases := s.phases - {t}, freed := s.freed + {s.phases[t].req})
      else s
    case Service(r) =>
      var (eng, done) := E.Service(s.eng, r);
      s.(eng := eng, states := Record(s.states, done))
    case Offline => s.(eng := E.Do(s.eng, E.OfflineEv))
    case Online => s.(eng := E.Do(s.eng, E.OnlineEv))
  }

  function RunAll(s: Sys, evs: seq<Event>): Sys
    decreases |evs|
  {
    if evs == [] then s else RunAll(Step(s, evs[0]), evs[1..])
  }

  /** The queue holds at most one transfer, and it is the one the lock holder is waiting for. */
  ghost predicate QueueOwned(s: Sys) {
    s.eng.queue != [] ==>
      && |s.eng.queue| == 1
      && s.lock.Some? && s.lock.value in s.phases
      && var ph := s.phases[s.lock.value];
         ph.Waiting? && s.eng.queue[0].tag == ph.req && StateOf(s, ph.req) == SUBMITTED
  }

  /** Requests of live threads are distinct, not freed, and were handed out. */
  ghost predicate RequestsDistinct(s: Sys) {
    && (forall t :: t in s.phases ==> s.phases[t].req < s.nextReq && s.phases[t].req !in s.freed)
    && (forall t, u :: t in s.phases && u in s.phases && t != u ==> s.phases[t].req != s.phases[u].req)
    && (forall q :: q in s.freed ==> q < s.nextReq)
  }

  ghost predicate LockHeld(s: Sys) {
    forall t :: t in s.phases && !s.phases[t].Unlocked? ==> s.lock == Some(t)
  }

  ghost predicate Inv(s: Sys) {
    && E.Inv(s.eng) && (s.eng.running ==> s.eng.dequeued == 0)
    && QueueOwned(s) && RequestsDistinct(s) && LockHeld(s)
    && (s.lock.Some? ==> s.lock.value in s.phases && !s.phases[s.lock.value].Unlocked?)
  }

  /** The identifier register reads back in every wait that is left early. */
  predicate IdReads(ev: Event) { ev.Judge? ==> ev.idValid }

  lemma EngineSteps(s: Sys, ev: Event)
    requires Inv(s) && (ev.Service? || ev.Offline? || ev.Online?)
    ensures Inv(Step(s, ev))
  {
    hide E.Inv, E.Service;
    match ev
    case Service(r) => E.ServiceOne(s.eng, r);
    case Offline => E.InvStep(s.eng, E.OfflineEv);
    case Online => E.InvStep(s.eng, E.OnlineEv);
  }

  lemma QueueStep(s: Sys, ev: Event)
    requires Inv(s) && ev.Queue?
    ensures Inv(Step(s, ev))
  {
    hide E.Inv, RequestsDistinct;
    if ev.t in s.phases && s.phases[ev.t].Built? {
      E.InvStep(s.eng, E.QueueEv(E.Job(s.phases[ev.t].req, s.phases[ev.t].n, NEW, 0), ev.startStatus));
      SamePhaseRequest(s, Step(s, ev), ev.t);
    }
  }

  /** When the submitter looks at its transfer, now or early, the queue is empty afterwards exactly
      when the identifier register reads back or the transfer had already been retired. */
  lemma JudgeEmptiesQueue(s: Sys, ev: Event)
    requires Inv(s) && ev.Judge? && ev.t in s.phases && s.phases[ev.t].Waiting?
    ensures Step(s, ev).eng.queue == [] <==> ev.idValid || s.eng.queue == []
  {
    hide E.Inv, RequestsDistinct;
  }

  lemma JudgeStep(s: Sys, ev: Event)
    requires Inv(s) && ev.Judge? && ev.idValid
    ensures Inv(Step(s, ev))
  {
    hide E.Inv, RequestsDistinct;
    if ev.t in s.phases && s.phases[ev.t].Waiting? {
      JudgeEmptiesQueue(s, ev);
      E.InvStep(s.eng, E.AbortEv(s.phases[ev.t].req, true, ev.newStatus));
      SamePhaseRequest(s, Step(s, ev), ev.t);
    }
  }

  /** A thread that moves on within its request disturbs no other request. */
  lemma SamePhaseRequest(s: Sys, s': Sys, t: nat)
    requires RequestsDistinct(s) && t in s.phases
    requires s'.phases.Keys == s.phases.Keys && s'.nextReq == s.nextReq && s'.freed == s.freed
    requires s'.phases[t].req == s.phases[t].req
    requires forall u :: u in s.phases && u != t ==> s'.phases[u] == s.phases[u]
    ensures RequestsDistinct(s')
  {
    assert forall u :: u in s.phases ==> s'.phases[u].req == s.phases[u].req;
  }

  lemma CarveNextUnlock(s: Sys, ev: Event)
    requires Inv(s) && (ev.Carve? || ev.Next? || ev.Unlock?)
    ensures Inv(Step(s, ev))
  {
    hide E.Inv, RequestsDistinct;
    if ev.t in s.phases {
      SamePhaseRequest(s, Step(s, ev), ev.t);
    }
  }

  lemma EnterFree(s: Sys, ev: Event)
    requires Inv(s) && (ev.Enter? || ev.Free?)
    ensures Inv(Step(s, ev))
  {
    hide E.Inv;
  }

  lemma StepKeepsInv(s: Sys, ev: Event)
    requires Inv(s) && IdReads(ev)
    ensures Inv(Step(s, ev))
  {
    hide Inv, Step;
    match ev
    case Service(_) | Offline | Online => EngineSteps(s, ev);
    case Queue(_, _, _) => QueueStep(s, ev);
    case Judge(_, _, _) => JudgeStep(s, ev);
    case Carve(_, _) | Next(_) | Unlock(_) => CarveNextUnlock(s, ev);
    case Enter(_, _) | Free(_) => EnterFree(s, ev);
  }

  lemma {:induction false} InvAlways(s: Sys, evs: seq<Event>)
    requires Inv(s) && forall i :: 0 <= i < |evs| ==> IdReads(evs[i])
    ensures Inv(RunAll(s, evs))
    decreases |evs|
  {
    hide Inv, Step, IdReads;
    if evs == [] {
    } else {
      StepKeepsInv(s, evs[0]);
      InvAlways(Step(s, evs[0]), evs[1..]);
    }
  }

  /** In every interleaving: at most one transfer is queued, none is queued while desc_lock is free,
      and no queued transfer belongs to a freed request - even if every submitter leaves its wait early. */
  lemma QueueIsSafe(dir: Direction, evs: seq<Event>)
    requires forall i :: 0 <= i < |evs| ==> IdReads(evs[i])
    ensures var s := RunAll(Init(E.Init(dir)), evs);
            && |s.eng.queue| <= 1
            && (s.lock == None ==> s.eng.queue == [])
            && forall i :: 0 <= i < |s.eng.queue| ==> s.eng.queue[i].tag !in s.freed
  {
    InvAlways(Init(E.Init(dir)), evs);
  }

  /** One submitter that leaves its wait early while the identifier does not read back. */
  function EarlyLeave(): seq<Event> {
    [Enter(0, 1), Carve(0, 1), Queue(0, false, 0), Judge(0, false, 0), Next(0), Unlock(0), Free(0)]
  }

  /** Without the identifier reading back the claim fails: that run frees a request whose transfer is
      still queued. */
  lemma BadIdentifierLeavesFreedTransfer(dir: Direction)
    ensures var s := RunAll(Init(E.Init(dir)), EarlyLeave());
            s.eng.queue != [] && s.eng.queue[0].tag in s.freed && s.lock == None
  {
    hide Step;
    var s0 := Init(E.Init(dir));
    var s4 := EarlyLeaveFirstHalf(dir);
    var s7 := EarlyLeaveSecondHalf(dir, s4);
    var evs := EarlyLeave();
    assert evs[..0] == [] && evs[..7] == evs;
    forall i | 0 <= i < 7 ensures RunAll(s0, evs[..i + 1]) == Step(RunAll(s0, evs[..i]), evs[i]) {
      RunPrefix(s0, evs, i);
    }
  }

  lemma RunPrefix(s: Sys, evs: seq<Event>, i: nat)
    requires i < |evs|
    ensures RunAll(s, evs[..i + 1]) == Step(RunAll(s, evs[..i]), evs[i])
  {
    hide Step, RunAll;
    assert evs[..i + 1] == evs[..i] + [evs[i]];
    RunSnoc(s, evs[..i], evs[i]);
  }

  lemma EarlyLeaveFirstHalf(dir: Direction) returns (s4: Sys)
    ensures var s0 := Init(E.Init(dir));
            s4 == Step(Step(Step(Step(s0, Enter(0, 1)), Carve(0, 1)), Queue(0, false, 0)), Judge(0, false, 0))
    ensures s4.phases == map[0 := Judged(0, 0, false)] && s4.freed == {}
    ensures |s4.eng.queue| == 1 && s4.eng.queue[0].tag == 0
  {
    var s3 := Step(Step(Step(Init(E.Init(dir)), Enter(0, 1)), Carve(0, 1)), Queue(0, false, 0));
    assert s3.phases == map[0 := Waiting(0, 0)] && StateOf(s3, 0) == SUBMITTED;
    s4 := Step(s3, Judge(0, false, 0));
  }

  lemma EarlyLeaveSecondHalf(dir: Direction, s4: Sys) returns (s7: Sys)
    requires s4.phases == map[0 := Judged(0, 0, false)] && |s4.eng.queue| == 1 && s4.eng.queue[0].tag == 0
    ensures s7 == Step(Step(Step(s4, Next(0)), Unlock(0)), Free(0))
    ensures s7.eng == s4.eng && 0 in s7.freed && s7.lock == None
  {
    s7 := Step(Step(Step(s4, Next(0)), Unlock(0)), Free(0));
  }

  lemma {:induction false} RunSnoc(s: Sys, evs: seq<Event>, ev: Event)
    ensures RunAll(s, evs + [ev]) == Step(RunAll(s, evs), ev)
    decreases |evs|
  {
    hide Step;
    if evs == [] {
      assert evs + [ev] == [ev];
      assert RunAll(s, [ev]) == RunAll(Step(s, ev), [ev][1..]);
    } else {
      assert (evs + [ev])[1..] == evs[1..] + [ev];
      RunSnoc(Step(s, evs[0]), evs[1..], ev);
    }
  }
}
