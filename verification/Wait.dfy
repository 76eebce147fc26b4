/** One turn of a synchronous submitter after its transfer has been built: queue it, let the interrupt
    handler and other threads run, look at the transfer's state, and abort it if it is in flight. */
module Wait {
  import opened Bits
  import opened Descriptor
  import opened Hardware
  import opened Transfer
  import opened Engine
  import E = EngineModel

  const EIO := 5
  const ENOMEM := 12
  const EBUSY := 16
  const EINVAL := 22
  const ERESTARTSYS := 512

  /** A critical section that some other thread runs. */
  type Around = ev: E.Event | ev.ServiceEv? || ev.OfflineEv? || ev.OnlineEv? witness E.OfflineEv

  /** What the rest of the world does in one turn: whether the device is seen offline, the status read
      on starting, the critical sections that run until the submitter looks, and what it reads from
      the identifier and status registers should it have to abort. */
  datatype Turn = Turn(sawOffline: bool, startStatus: nat, events: seq<Around>, idValid: bool, newStatus: nat)

  /** How a turn ends: the queue refuses the transfer, or the submitter sees it in some state. */
  datatype Outcome = Rejected | Seen(state: TransferState)

  /** The error a transfer ends the request with; 0 if it does not. */
  function ErrorOf(o: Outcome): int {
    match o
    case Rejected => -EBUSY
    case Seen(COMPLETED) => 0
    case Seen(FAILED) => -EIO
    case Seen(_) => -ERESTARTSYS
  }

  /** The engine, and the state of the submitter's transfer, after the others' critical sections. */
  function After(e: E.Eng, st: TransferState, evs: seq<Around>): (E.Eng, TransferState)
    decreases |evs|
  {
    if evs == [] then (e, st)
    else match evs[0]
      case ServiceEv(r) =>
        var (e', done) := E.Service(e, r);
        After(e', if done == [] then st else done[0].state, evs[1..])
      case _ => After(E.Do(e, evs[0]), st, evs[1..])
  }

  /** The submitter's look: a transfer neither COMPLETED nor FAILED is aborted. */
  function Look(e: E.Eng, tag: nat, st: TransferState, turn: Turn): (Outcome, E.Eng) {
    (Seen(st), if st == COMPLETED || st == FAILED then e else E.Abort(e, tag, turn.idValid, turn.newStatus))
  }

  /** A whole turn. */
  function Take(e: E.Eng, job: E.Job, turn: Turn): (Outcome, E.Eng) {
    if turn.sawOffline then (Rejected, e)
    else
      var (e1, accepted) := E.Enqueue(e, job, turn.startStatus);
      if !accepted then (Rejected, e)
      else var (e2, st) := After(e1, SUBMITTED, turn.events); Look(e2, job.tag, st, turn)
  }

  // ---- what a turn means ----

  /** Between queueing and looking: the transfer is alone on the queue and SUBMITTED, or it has been
      retired and the queue is empty. */
  ghost predicate Alone(e: E.Eng, st: TransferState, tag: nat, n: nat) {
    && E.Inv(e) && (e.running ==> e.dequeued == 0)
    && (if e.queue == [] then st == COMPLETED || st == FAILED
        else |e.queue| == 1 && e.queue[0].tag == tag && e.queue[0].descNum == n && st == SUBMITTED)
  }

  /** The event leaves a started engine running and its transfer queued: the device comes online, or a
      service step finds no descriptor done and the engine BUSY. */
  predicate KeepsWaiting(ev: E.Event) {
    ev.OnlineEv? || (ev.ServiceEv? && E.Reported(ev.reading) == 0 && Bit(ev.reading.statusRc, 0))
  }

  /** Event i decides the transfer: the first service step that finds some descriptors done, the engine
      having been kept running until then. */
  ghost predicate Decides(evs: seq<Around>, i: nat) {
    && i < |evs| && evs[i].ServiceEv? && E.Reported(evs[i].reading) != 0
    && forall k :: 0 <= k < i ==> KeepsWaiting(evs[k])
  }

  /** The status last read before event i: by the last service step before it, or on starting. */
  function LastRead(start: nat, evs: seq<Around>, i: nat): nat
    requires i <= |evs|
  {
    if i == 0 then start
    else if evs[i - 1].ServiceEv? then evs[i - 1].reading.statusRc
    else LastRead(start, evs, i - 1)
  }

  /** That event finds the transfer done: more than its n descriptors are reported, or just as many and no
      error bit is set in the status it goes by. */
  ghost predicate FindsDone(dir: Direction, n: nat, start: nat, evs: seq<Around>, i: nat)
    requires i < |evs| && evs[i].ServiceEv?
  {
    var r := evs[i].reading;
    var c := E.Reported(r) % U32;
    c > n || (c == n && E.Clean(dir, if E.Rereads(r) then r.statusRc else LastRead(start, evs, i)))
  }

  ghost predicate Succeeds(dir: Direction, n: nat, start: nat, evs: seq<Around>) {
    exists i: nat :: Decides(evs, i) && FindsDone(dir, n, start, evs, i)
  }

  ghost predicate Fails(dir: Direction, n: nat, start: nat, evs: seq<Around>) {
    exists i: nat :: Decides(evs, i) && !FindsDone(dir, n, start, evs, i)
  }

  /** Whether a shutdown is pending after the events: the last of them to go off or on line decides. */
  predicate Pending(before: bool, evs: seq<Around>)
    decreases |evs|
  {
    if evs == [] then before
    else Pending(if evs[0].OfflineEv? then true else if evs[0].OnlineEv? then false else before, evs[1..])
  }

  // ---- the same, one event at a time ----

  /** What the transfer has come to after the events, the engine running at first. */
  ghost function Verdict(dir: Direction, n: nat, start: nat, evs: seq<Around>): TransferState {
    if Succeeds(dir, n, start, evs) then COMPLETED else if Fails(dir, n, start, evs) then FAILED else SUBMITTED
  }

  lemma OneDecides(evs: seq<Around>, i: nat, j: nat)
    requires Decides(evs, i) && Decides(evs, j)
    ensures i == j
  {
    hide E.Reported, Bit;
    if i < j {
      NotLater(evs, i, j);
    } else if j < i {
      NotLater(evs, j, i);
    }
  }

  lemma NotLater(evs: seq<Around>, i: nat, j: nat)
    requires Decides(evs, i) && i < j
    ensures !Decides(evs, j)
  {
    hide E.Reported, Bit;
    assert !KeepsWaiting(evs[i]);
  }

  lemma {:induction false} LastReadShift(start: nat, evs: seq<Around>, i: nat)
    requires evs != [] && i < |evs|
    ensures var start' := if evs[0].ServiceEv? then evs[0].reading.statusRc else start;
            LastRead(start, evs, i + 1) == LastRead(start', evs[1..], i)
    decreases i
  {
    if i == 0 {
    } else {
      LastReadShift(start, evs, i - 1);
    }
  }

  /** An event that keeps the engine running passes the decision on. */
  lemma VerdictWaits(dir: Direction, n: nat, start: nat, evs: seq<Around>)
    requires evs != [] && KeepsWaiting(evs[0])
    ensures var start' := if evs[0].ServiceEv? then evs[0].reading.statusRc else start;
            Verdict(dir, n, start, evs) == Verdict(dir, n, start', evs[1..])
  {
    hide E.Reported, E.Clean, E.Rereads, Bit, LastRead;
    var start', rest := if evs[0].ServiceEv? then evs[0].reading.statusRc else start, evs[1..];
    forall i: nat ensures Decides(evs, i) <==> i > 0 && Decides(rest, i - 1) {
      DecidesShift(evs, i);
    }
    forall i: nat | i < |rest| && rest[i].ServiceEv?
      ensures FindsDone(dir, n, start, evs, i + 1) <==> FindsDone(dir, n, start', rest, i)
    {
      LastReadShift(start, evs, i);
    }
    if i: nat :| Decides(rest, i) {
      assert Decides(evs, i + 1);
      assert FindsDone(dir, n, start, evs, i + 1) <==> FindsDone(dir, n, start', rest, i);
      forall j: nat | Decides(rest, j) ensures j == i {
        OneDecides(rest, i, j);
      }
      forall j: nat | Decides(evs, j) ensures j == i + 1 {
        OneDecides(evs, i + 1, j);
      }
    }
  }

  lemma DecidesShift(evs: seq<Around>, i: nat)
    requires evs != [] && KeepsWaiting(evs[0])
    ensures Decides(evs, i) <==> i > 0 && Decides(evs[1..], i - 1)
  {
    hide E.Reported, Bit;
    if i > 0 && Decides(evs[1..], i - 1) {
      forall k | 0 <= k < i ensures KeepsWaiting(evs[k]) {
        if k > 0 {
          assert KeepsWaiting(evs[1..][k - 1]);
        }
      }
    }
  }

  /** A deciding first event decides. */
  lemma VerdictNow(dir: Direction, n: nat, start: nat, evs: seq<Around>)
    requires evs != [] && evs[0].ServiceEv? && E.Reported(evs[0].reading) != 0
    ensures var r := evs[0].reading;
            var c := E.Reported(r) % U32;
            var done := c > n || (c == n && E.Clean(dir, E.ActsOn(start, r)));
            Verdict(dir, n, start, evs) == if done then COMPLETED else FAILED
  {
    hide E.Reported, E.Clean, E.Rereads, Bit;
    assert Decides(evs, 0);
    forall i: nat | Decides(evs, i) ensures i == 0 {
      OneDecides(evs, 0, i);
    }
  }

  /** An event that does neither stops the engine for good. */
  lemma VerdictNever(dir: Direction, n: nat, start: nat, evs: seq<Around>)
    requires evs == [] || (!KeepsWaiting(evs[0]) && !(evs[0].ServiceEv? && E.Reported(evs[0].reading) != 0))
    ensures Verdict(dir, n, start, evs) == SUBMITTED
  {
    hide E.Reported, E.Clean, E.Rereads, Bit;
    forall i: nat ensures !Decides(evs, i) {
      if i > 0 && i < |evs| {
        assert !KeepsWaiting(evs[0]);
      }
    }
  }

  // ---- what the code makes of the events ----

  /** One event while the transfer is queued. */
  lemma EventStep(e: E.Eng, tag: nat, n: nat, ev: Around)
    requires Alone(e, SUBMITTED, tag, n) && n >= 1
    ensures var (e1, st1) := After(e, SUBMITTED, [ev]);
            && Alone(e1, st1, tag, n) && e1.dir == e.dir
            && e1.request == (if ev.OfflineEv? then true else if ev.OnlineEv? then false else e.request)
            && (!e.running ==> st1 == SUBMITTED && !e1.running)
            && (e.running && KeepsWaiting(ev) ==>
                  && st1 == SUBMITTED && e1.running
                  && e1.status == (if ev.ServiceEv? then ev.reading.statusRc else e.status))
            && (e.running && ev.ServiceEv? && E.Reported(ev.reading) != 0 ==>
                  var c := E.Reported(ev.reading) % U32;
                  var done := c > n || (c == n && E.Clean(e.dir, E.ActsOn(e.status, ev.reading)));
                  st1 == if done then COMPLETED else FAILED)
            && (e.running && !KeepsWaiting(ev) && !(ev.ServiceEv? && E.Reported(ev.reading) != 0) ==>
                  st1 == SUBMITTED && !e1.running)
  {
    hide E.Service, E.Reported, E.Clean, E.Rereads, Bit, E.Inv;
    assert [ev][1..] == [];
    if ev.ServiceEv? {
      ServiceEventStep(e, tag, n, ev.reading);
    } else {
      E.InvStep(e, ev);
    }
  }

  lemma ServiceEventStep(e: E.Eng, tag: nat, n: nat, r: E.Reading)
    requires Alone(e, SUBMITTED, tag, n) && n >= 1
    ensures var (e1, done) := E.Service(e, r);
            var status := E.ActsOn(e.status, r);
            && Alone(e1, if done == [] then SUBMITTED else done[0].state, tag, n)
            && e1.dir == e.dir && e1.request == e.request
            && (!e.running ==> done == [] && !e1.running)
            && (e.running && E.Reported(r) == 0 ==>
                  done == [] && (e1.running <==> Bit(r.statusRc, 0)) && e1.status == r.statusRc)
            && (e.running && E.Reported(r) != 0 ==>
                  && |done| == 1 && e1.queue == []
                  && var c := E.Reported(r) % U32;
                     done[0].state == if c > n || (c == n && E.Clean(e.dir, status)) then COMPLETED else FAILED)
  {
    hide E.CountOf, E.Retire, E.Polled, E.StatusSeen, E.Inv, E.Clean, Bit;
    E.ReadingsMean(e, r);
    E.PolledMeans(e, r);
    E.ServiceOne(e, r);
    if e.running && E.CountOf(r) != 0 {
      E.RetireOne(E.Polled(e, r), E.CountOf(r));
      E.RetireTakesPrefix(E.Polled(e, r), E.CountOf(r));
      assert E.Inv(e);
    }
  }

  /** One event once the transfer has been retired. */
  lemma RetiredStep(e: E.Eng, st: TransferState, tag: nat, n: nat, ev: Around)
    requires Alone(e, st, tag, n) && e.queue == []
    ensures var (e1, st1) := After(e, st, [ev]);
            && Alone(e1, st1, tag, n) && e1.queue == [] && st1 == st && e1.dir == e.dir
            && e1.request == (if ev.OfflineEv? then true else if ev.OnlineEv? then false else e.request)
  {
    hide E.Service, E.Inv;
    assert [ev][1..] == [];
    if ev.ServiceEv? {
      IdleService(e, ev.reading);
      E.ServiceOne(e, ev.reading);
    } else {
      E.InvStep(e, ev);
    }
  }

  lemma IdleService(e: E.Eng, r: E.Reading)
    requires E.Inv(e) && e.queue == []
    ensures !e.running && E.Service(e, r) == (e.(status := r.statusRc), [])
  {
  }

  lemma AfterStep(e: E.Eng, st: TransferState, evs: seq<Around>)
    requires evs != []
    ensures var (e1, st1) := After(e, st, [evs[0]]);
            After(e, st, evs) == After(e1, st1, evs[1..])
  {
    hide E.Service;
    assert [evs[0]][1..] == [];
  }

  /** A retired transfer keeps its state. */
  lemma {:induction false} RetiredStays(e: E.Eng, st: TransferState, evs: seq<Around>, tag: nat, n: nat)
    requires Alone(e, st, tag, n) && e.queue == []
    ensures var (e', st') := After(e, st, evs);
            Alone(e', st', tag, n) && e'.queue == [] && st' == st && e'.request == Pending(e.request, evs)
    decreases |evs|
  {
    hide Alone, After;
    if evs == [] {
      AfterNothing(e, st, evs);
    } else {
      AfterStep(e, st, evs);
      RetiredStep(e, st, tag, n, evs[0]);
      var (e1, st1) := After(e, st, [evs[0]]);
      RetiredStays(e1, st1, evs[1..], tag, n);
    }
  }

  /** What the events come to: the verdict if the engine is running at first, nothing if it is not. */
  lemma {:induction false} AfterLaw(e: E.Eng, evs: seq<Around>, tag: nat, n: nat)
    requires Alone(e, SUBMITTED, tag, n) && n >= 1
    ensures var (e', st') := After(e, SUBMITTED, evs);
            && Alone(e', st', tag, n) && e'.request == Pending(e.request, evs)
            && st' == if e.running then Verdict(e.dir, n, e.status, evs) else SUBMITTED
    decreases |evs|
  {
    hide Alone, After, Verdict, KeepsWaiting, E.Reported, E.Clean, E.ActsOn;
    if evs == [] {
      AfterNothing(e, SUBMITTED, evs);
      VerdictNever(e.dir, n, e.status, evs);
    } else {
      AfterStep(e, SUBMITTED, evs);
      EventStep(e, tag, n, evs[0]);
      var (e1, st1) := After(e, SUBMITTED, [evs[0]]);
      if st1 == SUBMITTED {
        AfterLaw(e1, evs[1..], tag, n);
      } else {
        StaysRetired(e1, st1, tag, n);
        RetiredStays(e1, st1, evs[1..], tag, n);
      }
      if e.running {
        if evs[0].ServiceEv? && E.Reported(evs[0].reading) != 0 {
          VerdictNow(e.dir, n, e.status, evs);
        } else if KeepsWaiting(evs[0]) {
          VerdictWaits(e.dir, n, e.status, evs);
        } else {
          VerdictNever(e.dir, n, e.status, evs);
        }
      }
    }
  }

  lemma AfterNothing(e: E.Eng, st: TransferState, evs: seq<Around>)
    requires evs == []
    ensures After(e, st, evs) == (e, st)
  {
  }

  lemma StaysRetired(e: E.Eng, st: TransferState, tag: nat, n: nat)
    requires Alone(e, st, tag, n)
    ensures st == SUBMITTED || st == COMPLETED || st == FAILED
    ensures st != SUBMITTED <==> e.queue == []
  {
  }

  /** The three verdicts, told apart by the events. */
  lemma VerdictLaw(dir: Direction, n: nat, start: nat, evs: seq<Around>)
    ensures var v := Verdict(dir, n, start, evs);
            && (v == COMPLETED <==> Succeeds(dir, n, start, evs))
            && (v == FAILED <==> Fails(dir, n, start, evs))
            && (v == SUBMITTED <==> !(exists i: nat :: Decides(evs, i)))
  {
    hide E.Reported, E.Clean, E.Rereads, Bit, LastRead;
    if i: nat :| Decides(evs, i) {
      forall j: nat | Decides(evs, j) ensures j == i {
        OneDecides(evs, i, j);
      }
      var done := FindsDone(dir, n, start, evs, i);
    }
  }

  /** A turn on an engine with an empty queue.  The transfer is refused exactly when the device is seen
      offline or a shutdown is pending, and then nothing has changed; otherwise the hardware has been
      started.  It is seen COMPLETED exactly if the first service step that finds descriptors done, the
      engine having run until then, finds all of them done and no error; FAILED exactly if that step
      finds otherwise; SUBMITTED exactly if there is no such step.  The queue is empty again, unless the
      submitter left early and the identifier did not read back. */
  lemma TakeLaw(e: E.Eng, job: E.Job, turn: Turn)
    requires E.Inv(e) && e.queue == [] && job.descNum >= 1
    ensures var (o, e') := Take(e, job, turn);
            && E.Inv(e') && e'.dir == e.dir
            && (o.Rejected? <==> turn.sawOffline || e.request) && (o.Rejected? ==> e' == e)
            && (o.Seen? ==> o.state == COMPLETED || o.state == FAILED || o.state == SUBMITTED)
            && (o == Seen(COMPLETED) <==>
                  !turn.sawOffline && !e.request && Succeeds(e.dir, job.descNum, turn.startStatus, turn.events))
            && (o == Seen(FAILED) <==>
                  !turn.sawOffline && !e.request && Fails(e.dir, job.descNum, turn.startStatus, turn.events))
            && (o == Seen(SUBMITTED) <==>
                  !turn.sawOffline && !e.request && !(exists i: nat :: Decides(turn.events, i)))
            && (o.Seen? ==> e'.request == Pending(false, turn.events))
            && (e'.queue == [] <==> (o == Seen(SUBMITTED) ==> turn.idValid))
  {
    hide After, Succeeds, Fails, Decides, Verdict;
    var (e1, accepted) := E.Enqueue(e, job, turn.startStatus);
    if !turn.sawOffline && accepted {
      E.InvStep(e, E.QueueEv(job, turn.startStatus));
      AfterLaw(e1, turn.events, job.tag, job.descNum);
      VerdictLaw(e.dir, job.descNum, turn.startStatus, turn.events);
      var (e2, st) := After(e1, SUBMITTED, turn.events);
      AfterDir(e1, SUBMITTED, turn.events);
      StaysRetired(e2, st, job.tag, job.descNum);
      E.InvStep(e2, E.AbortEv(job.tag, turn.idValid, turn.newStatus));
    }
  }

  /** After a turn seen COMPLETED the next one may start. */
  lemma TakeAgain(e: E.Eng, job: E.Job, turn: Turn)
    requires E.Inv(e) && e.queue == [] && job.descNum >= 1
    ensures var (o, e') := Take(e, job, turn);
            E.Inv(e') && (o == Seen(COMPLETED) ==> e'.queue == []) && (ErrorOf(o) >= 0 <==> o == Seen(COMPLETED))
            && (ErrorOf(o) >= 0 ==> ErrorOf(o) == 0)
  {
    hide Take, Succeeds, Fails, Decides, Pending, E.Inv;
    TakeLaw(e, job, turn);
  }

  lemma {:induction false} AfterDir(e: E.Eng, st: TransferState, evs: seq<Around>)
    ensures After(e, st, evs).0.dir == e.dir
    decreases |evs|
  {
    hide E.Service;
    if evs == [] {
    } else if evs[0].ServiceEv? {
      var (e1, done) := E.Service(e, evs[0].reading);
      ServiceDir(e, evs[0].reading);
      AfterDir(e1, if done == [] then st else done[0].state, evs[1..]);
    } else {
      AfterDir(E.Do(e, evs[0]), st, evs[1..]);
    }
  }

  lemma ServiceDir(e: E.Eng, r: E.Reading)
    ensures E.Service(e, r).0.dir == e.dir
  {
    hide E.CountOf, E.Retire, E.Polled;
    E.PolledMeans(e, r);
    E.RetireTakesPrefix(E.Polled(e, r), E.CountOf(r));
  }

  // ---- what a call of several turns answers ----

  /** Every part of a call succeeds: from turn j on, the parts having the given sizes. */
  ghost predicate AllSucceed(turns: nat -> Turn, dir: Direction, request: bool, ps: seq<nat>, j: nat)
    decreases |ps|
  {
    ps == [] ||
    (var t := turns(j);
     && !t.sawOffline && !request && Succeeds(dir, ps[0], t.startStatus, t.events)
     && AllSucceed(turns, dir, Pending(false, t.events), ps[1..], j + 1))
  }

  /** What a call returns that has moved so many bytes, its first part having n descriptors (none if there
      is nothing to do): the bytes if there are any; otherwise 0 if there was nothing to do, -EBUSY if the
      first part was refused, -EIO if it failed, -ERESTARTSYS if nothing decided it. */
  ghost predicate Answers(result: int, moved: nat, n: nat, dir: Direction, request: bool, turn: Turn) {
    var refused := turn.sawOffline || request;
    && (moved > 0 ==> result == moved)
    && (moved == 0 ==>
          && (result == 0 <==> n == 0)
          && (result == -16 <==> n > 0 && refused)
          && (result == -5 <==> n > 0 && !refused && Fails(dir, n, turn.startStatus, turn.events))
          && (result == -512 <==> n > 0 && !refused && !(exists i: nat :: Decides(turn.events, i))))
  }

  // ---- the code ----

  /** The values of first_desc_lo, first_desc_hi and first_desc_adjacent for a chain of n descriptors
      at ring index i. */
  function StartRegisters(bus: nat, i: nat, n: nat): (nat, nat, nat) {
    var a := bus + DESC_SIZE * i;
    (DmaLo(a), DmaHi(a), NextAdj(n, DmaLo(a)))
  }

  /** The queue holds the submitter's transfer or nothing. */
  ghost predicate Mine(list: seq<Xfer>, xfer: Xfer) { list == [xfer] || list == [] }

  lemma ServicePrefix(e: E.Eng, r: E.Reading)
    ensures var (e', done) := E.Service(e, r);
            |done| <= |e.queue| && e'.queue == e.queue[|done|..]
  {
    hide E.CountOf, E.Retire, E.Busy, E.StatusSeen;
    if e.running && E.CountOf(r) != 0 {
      E.RetireTakesPrefix(E.Polled(e, r), E.CountOf(r));
    }
  }

  /** The interrupt handler's service step. */
  method RunService(eng: XdmaEngine, xfer: Xfer, r: E.Reading)
    requires eng.ListValid() && Mine(eng.transferList, xfer)
    modifies eng, xfer`state, xfer`descCmpl
    ensures eng.ListValid() && Mine(eng.transferList, xfer)
    ensures var (e, done) := E.Service(old(eng.View()), r);
            eng.View() == e && xfer.state == if done == [] then old(xfer.state) else done[0].state
    ensures eng.descIdx == old(eng.descIdx) && eng.descUsed == old(eng.descUsed)
    ensures eng.nonIncrAddr == old(eng.nonIncrAddr)
  {
    hide E.Service, Distinct, NextAdj, DmaLo, DmaHi, Bit;
    ghost var e, list := eng.View(), eng.transferList;
    ServicePrefix(e, r);
    var rv := eng.EngineService(r);
    if list == [xfer] {
      assert eng.View().queue == e.queue[|E.Service(e, r).1|..];
    }
  }

  /** The critical section of one other thread. */
  method RunAround(eng: XdmaEngine, xfer: Xfer, ev: Around)
    requires eng.ListValid() && Mine(eng.transferList, xfer)
    modifies eng, xfer`state, xfer`descCmpl
    ensures eng.ListValid() && Mine(eng.transferList, xfer)
    ensures (eng.View(), xfer.state) == After(old(eng.View()), old(xfer.state), [ev])
    ensures eng.descIdx == old(eng.descIdx) && eng.descUsed == old(eng.descUsed)
    ensures eng.nonIncrAddr == old(eng.nonIncrAddr)
  {
    hide E.Service, Distinct, Jobs;
    assert [ev][1..] == [];
    match ev {
      case ServiceEv(r) => RunService(eng, xfer, r);
      case OfflineEv => eng.Offline();
      case OnlineEv => eng.Online();
    }
  }

  /** From the accepted transfer to the submitter's verdict: the others run, then the state is looked
      at under the engine lock. */
  method Await(eng: XdmaEngine, xfer: Xfer, turn: Turn) returns (o: Outcome)
    requires eng.ListValid() && Mine(eng.transferList, xfer)
    modifies eng, xfer`state, xfer`descCmpl
    ensures eng.ListValid() && Mine(eng.transferList, xfer)
    ensures var (e, st) := After(old(eng.View()), old(xfer.state), turn.events);
            (o, eng.View()) == Look(e, xfer.tag, st, turn)
    ensures eng.descIdx == old(eng.descIdx) && eng.descUsed == old(eng.descUsed)
    ensures eng.nonIncrAddr == old(eng.nonIncrAddr)
  {
    hide After, E.Abort, Distinct;
    var i := 0;
    ghost var evs := turn.events;
    assert evs[0..] == evs;
    while i < |turn.events|
      invariant 0 <= i <= |evs| && eng.ListValid() && Mine(eng.transferList, xfer)
      invariant After(eng.View(), xfer.state, evs[i..]) == After(old(eng.View()), old(xfer.state), evs)
      invariant eng.descIdx == old(eng.descIdx) && eng.descUsed == old(eng.descUsed)
      invariant eng.nonIncrAddr == old(eng.nonIncrAddr)
    {
      AfterStep(eng.View(), xfer.state, evs[i..]);
      assert evs[i..][1..] == evs[i + 1..] && evs[i..][0] == evs[i];
      RunAround(eng, xfer, turn.events[i]);
      i := i + 1;
    }
    AfterNothing(eng.View(), xfer.state, evs[i..]);
    o := Seen(xfer.state);
    if xfer.state != COMPLETED && xfer.state != FAILED {
      eng.AbortInFlight(xfer, turn.idValid, turn.newStatus);
    }
  }

  /** A whole turn on an engine with an empty queue.  If the transfer is accepted, the registers start
      the hardware at its first descriptor, and `moves` is what it moves from there. */
  method TakeTurn(eng: XdmaEngine, xfer: Xfer, turn: Turn) returns (o: Outcome, ghost moves: Option<seq<Move>>)
    requires eng.ListValid() && eng.transferList == [] && E.Inv(eng.View())
    modifies eng, xfer`state, xfer`descCmpl
    ensures eng.ListValid() && Mine(eng.transferList, xfer)
    ensures (o, eng.View()) == Take(old(eng.View()), old(JobOf(xfer)), turn)
    ensures o.Seen? ==>
              var (lo, hi, adj) := StartRegisters(eng.descBus, xfer.descIndex, xfer.descAdjacent);
              moves == RegisterMoves(eng.desc[..], eng.descBus, lo, hi, adj, eng.dir, !eng.nonIncrAddr)
    ensures eng.descIdx == old(eng.descIdx) && eng.descUsed == old(eng.descUsed)
    ensures eng.nonIncrAddr == old(eng.nonIncrAddr)
  {
    hide After, RegisterMoves, E.Abort, Distinct;
    moves := None;
    if turn.sawOffline {
      return Rejected, None;
    }
    var accepted := eng.TransferQueue(xfer, turn.startStatus);
    if !accepted {
      return Rejected, None;
    }
    moves := RegisterMoves(eng.desc[..], eng.descBus, eng.firstDescLo, eng.firstDescHi, eng.firstDescAdjacent,
                           eng.dir, !eng.nonIncrAddr);
    o := Await(eng, xfer, turn);
  }
}
