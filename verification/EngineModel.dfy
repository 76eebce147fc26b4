/** The engine as a state machine: every critical section under the engine lock is one atomic step.
    Memory-mapped engines; cyclic transfers, performance runs and end-of-packet flush are never
    enabled by the driver and do not appear. */
module EngineModel {
  import opened Bits
  import opened Descriptor
  import opened Transfer

  /** A queued transfer. */
  datatype Job = Job(tag: nat, descNum: nat, state: TransferState, descCmpl: nat)

  /** `struct xdma_engine`, the fields the lock protects. `request` and `idle` are the two bits of
      `shutdown`; `starts` counts the times the hardware was started. */
  datatype Eng = Eng(dir: Direction, running: bool, request: bool, idle: bool,
                     status: nat, dequeued: nat, queue: seq<Job>, starts: nat)

  const STAT_BUSY: nat := 0x1
  const H2C_ERR_MASK: nat := 0xF8_FE38
  const C2H_ERR_MASK: nat := 0xF8_0638
  const WB_COUNT_MASK: nat := 0x00ff_ffff
  const WB_ERR_MASK: nat := 0x8000_0000

  predicate Busy(status: nat) { And(status, STAT_BUSY) != 0 }

  predicate HasError(dir: Direction, status: nat) {
    And(status, if dir.ToDevice? then H2C_ERR_MASK else C2H_ERR_MASK) != 0
  }

  /** What one service step reads from outside: the write-back word, the status register, the
      completed-descriptor register, and the status read when the engine is restarted. */
  datatype Reading = Reading(writeback: nat, statusRc: nat, hwCount: nat, startStatus: nat)

  // ---- the pieces of the code, on values ----

  /** `engine_start`, once it has found the engine idle and the queue non-empty. */
  function Start(e: Eng, status: nat): Eng {
    e.(running := true, request := false, idle := false, dequeued := 0, status := status, starts := e.starts + 1)
  }

  /** `xdma_engine_stop`. */
  function Stop(e: Eng): Eng { e.(running := false) }

  /** `engine_service_transfer_list`: retire from the front while more descriptors are done than the
      front transfer has.  Returns how many were retired and the count left over. */
  function RetireList(queue: seq<Job>, c: nat): (r: (nat, nat))
    ensures r.0 <= |queue|
  {
    if queue == [] || c <= queue[0].descNum then (0, c)
    else var (k, rest) := RetireList(queue[1..], c - queue[0].descNum); (k + 1, rest)
  }

  function SumDesc(q: seq<Job>): nat {
    if q == [] then 0 else q[0].descNum + SumDesc(q[1..])
  }

  function Completed(q: seq<Job>): seq<Job> {
    seq(|q|, i requires 0 <= i < |q| => q[i].(state := COMPLETED))
  }

  /** `engine_service_final_transfer`: the engine after it, and the transfer as retired. */
  function Final(e: Eng, c: nat): (Eng, Job)
    requires e.queue != []
  {
    var job, rest := e.queue[0], e.queue[1..];
    if HasError(e.dir, e.status) then
      (Stop(e.(queue := rest)), job.(state := FAILED))
    else if c < job.descNum then
      (e.(queue := rest, dequeued := e.dequeued + job.descNum), job.(state := FAILED, descCmpl := c))
    else
      (e.(queue := rest, dequeued := e.dequeued + job.descNum), job.(state := COMPLETED, descCmpl := job.descNum))
  }

  /** `engine_service_resume`. */
  function Resume(e: Eng, startStatus: nat): Eng {
    if !e.running then
      if e.queue != [] then Start(e, startStatus)
      else if e.request then e.(idle := true)
      else e
    else if e.queue == [] then Stop(e)
    else e
  }

  /** The count a service step works with, before what was already dequeued is taken off. */
  function CountOf(r: Reading): nat {
    var wb := And(r.writeback, WB_COUNT_MASK);
    if wb != 0 then wb else r.hwCount
  }

  /** The retiring half of `engine_service`, for a non-zero count. */
  function Retire(e: Eng, count: nat): (Eng, seq<Job>) {
    var c := (count - e.dequeued) % U32;
    var (k, left) := RetireList(e.queue, c);
    var done := Completed(e.queue[..k]);
    var e1 := e.(queue := e.queue[k..], dequeued := e.dequeued + SumDesc(e.queue[..k]));
    if e1.queue == [] then (e1, done)
    else var (e2, last) := Final(e1, left); (e2, done + [last])
  }

  /** The status a service step acts on: it is read again unless a write-back count without an error
      bit was handed in. */
  function StatusSeen(e: Eng, r: Reading): nat {
    if And(r.writeback, WB_COUNT_MASK) == 0 || And(r.writeback, WB_ERR_MASK) != 0 then r.statusRc else e.status
  }

  /** The engine after the first half of `engine_service`: status read, and stopped if it is no
      longer busy or a write-back count was handed in. */
  function Polled(e: Eng, r: Reading): Eng {
    var e0 := e.(status := StatusSeen(e, r));
    if !Busy(e0.status) || And(r.writeback, WB_COUNT_MASK) != 0 then Stop(e0) else e0
  }

  /** `engine_service`: the new engine and the transfers it retired, in order. */
  function Service(e: Eng, r: Reading): (Eng, seq<Job>) {
    if !e.running then (e.(status := r.statusRc), [])
    else if CountOf(r) == 0 then (Polled(e, r), [])
    else var (e2, done) := Retire(Polled(e, r), CountOf(r)); (Resume(e2, r.startStatus), done)
  }

  /** The critical section of `transfer_queue`: the engine and whether the transfer was accepted. */
  function Enqueue(e: Eng, job: Job, startStatus: nat): (Eng, bool) {
    if job.descNum == 0 || e.request then (e, false)
    else
      var e1 := e.(queue := e.queue + [job.(state := SUBMITTED)]);
      (if e1.running then e1 else Start(e1, startStatus), true)
  }

  /** The submitter's critical section when its transfer is still in flight: `engine_status_read`
      with a register dump, then `transfer_abort` and `xdma_engine_stop`.  When the identifier
      register does not read back, nothing happens. */
  function Abort(e: Eng, tag: nat, idValid: bool, status: nat): Eng {
    if !idValid then e
    else
      var q := if e.queue != [] && e.queue[0].tag == tag then e.queue[1..] else MarkAborted(e.queue, tag);
      Stop(e.(status := status, queue := q))
  }

  /** `transfer_abort` unlinks only the front transfer; one further back is just marked. */
  function MarkAborted(q: seq<Job>, tag: nat): seq<Job> {
    seq(|q|, i requires 0 <= i < |q| =>
      if q[i].tag == tag && q[i].state == SUBMITTED then q[i].(state := ABORTED) else q[i])
  }

  // ---- the machine ----

  datatype Event =
    | QueueEv(job: Job, startStatus: nat)
    | ServiceEv(reading: Reading)
    | AbortEv(tag: nat, idValid: bool, newStatus: nat)
    | OfflineEv
    | OnlineEv

  function Do(e: Eng, ev: Event): Eng {
    match ev
    case QueueEv(job, st) => Enqueue(e, job, st).0
    case ServiceEv(r) => Service(e, r).0
    case AbortEv(tag, idValid, st) => Abort(e, tag, idValid, st)
    case OfflineEv => Stop(e.(request := true))
    case OnlineEv => e.(request := false)
  }

  function Init(dir: Direction): Eng { Eng(dir, false, false, false, 0, 0, [], 0) }

  function RunAll(e: Eng, evs: seq<Event>): Eng
    decreases |evs|
  {
    if evs == [] then e else RunAll(Do(e, evs[0]), evs[1..])
  }

  // ---- what the readings say ----

  /** The error bits of the status register: alignment, magic and length errors and descriptor errors in
      both directions; read and write errors by direction. */
  function ErrorBits(dir: Direction): set<nat> {
    if dir.ToDevice? then {3, 4, 5, 9, 10, 11, 12, 13, 14, 15, 19, 20, 21, 22, 23}
    else {3, 4, 5, 9, 10, 19, 20, 21, 22, 23}
  }

  /** The status shows no error. */
  predicate Clean(dir: Direction, status: nat) { forall k :: k in ErrorBits(dir) ==> !Bit(status, k) }

  /** The completed count reported: the low 24 bits of the write-back word or, if they are zero, the count
      register. */
  function Reported(r: Reading): nat {
    if r.writeback % 0x100_0000 != 0 then r.writeback % 0x100_0000 else r.hwCount
  }

  /** The status register is read again: there is no write-back count, or its error bit is set. */
  predicate Rereads(r: Reading) { r.writeback % 0x100_0000 == 0 || Bit(r.writeback, 31) }

  /** The status an engine with the given last one acts on. */
  function ActsOn(last: nat, r: Reading): nat { if Rereads(r) then r.statusRc else last }

  /** The bytes of the two masks. */
  lemma MaskBytes(k: nat)
    requires k < 8
    ensures Bit(0x38, k) <==> k in {3, 4, 5}
    ensures Bit(0xFE, k) <==> k in {1, 2, 3, 4, 5, 6, 7}
    ensures Bit(0x06, k) <==> k in {1, 2}
    ensures Bit(0xF8, k) <==> k in {3, 4, 5, 6, 7}
  {
    assert !Bit(0x38, 0) && !Bit(0x38, 1) && !Bit(0x38, 2) && Bit(0x38, 3);
    assert Bit(0x38, 4) && Bit(0x38, 5) && !Bit(0x38, 6) && !Bit(0x38, 7);
    assert !Bit(0xFE, 0) && Bit(0xFE, 1) && Bit(0xFE, 2) && Bit(0xFE, 3);
    assert Bit(0xFE, 4) && Bit(0xFE, 5) && Bit(0xFE, 6) && Bit(0xFE, 7);
    assert !Bit(0x06, 0) && Bit(0x06, 1) && Bit(0x06, 2) && !Bit(0x06, 3);
    assert !Bit(0x06, 4) && !Bit(0x06, 5) && !Bit(0x06, 6) && !Bit(0x06, 7);
    assert !Bit(0xF8, 0) && !Bit(0xF8, 1) && !Bit(0xF8, 2) && Bit(0xF8, 3);
    assert Bit(0xF8, 4) && Bit(0xF8, 5) && Bit(0xF8, 6) && Bit(0xF8, 7);
  }

  /** Bit k of a word of three bytes. */
  lemma ThreeBytes(hi: nat, mid: nat, lo: nat, k: nat)
    requires hi < 0x100 && mid < 0x100 && lo < 0x100
    ensures var x := (hi * 0x100 + mid) * 0x100 + lo;
            && (k < 8 ==> (Bit(x, k) <==> Bit(lo, k)))
            && (8 <= k < 16 ==> (Bit(x, k) <==> Bit(mid, k - 8)))
            && (16 <= k < 24 ==> (Bit(x, k) <==> Bit(hi, k - 16)))
            && (k >= 24 ==> !Bit(x, k))
  {
    hide Bit;
    var y := hi * 0x100 + mid;
    var x := y * 0x100 + lo;
    assert x / 0x100 == y && y / 0x100 == hi;
    if k < 8 {
      BitOfLowByte(y, lo, k);
    } else {
      BitOfByte(x, k);
      if k < 16 {
        BitOfLowByte(hi, mid, k - 8);
      } else {
        BitOfByte(y, k - 8);
        if k >= 24 {
          MaskAbove(x, k);
        }
      }
    }
  }

  /** The low byte alone decides the low bits. */
  lemma BitOfLowByte(h: nat, l: nat, k: nat)
    requires l < 0x100 && k < 8
    ensures Bit(h * 0x100 + l, k) <==> Bit(l, k)
  {
    LowBits(h, l, 8, k);
  }

  lemma {:induction false} LowBits(h: nat, l: nat, n: nat, k: nat)
    requires k < n && l < Pow2(n)
    ensures Pow2(8) == 0x100
    ensures Bit(h * Pow2(n) + l, k) <==> Bit(l, k)
    decreases n
  {
    Pow2At(8);
    var p := Pow2(n - 1);
    assert Pow2(n) == 2 * p && h * (2 * p) == 2 * (h * p);
    assert (h * Pow2(n) + l) / 2 == h * p + l / 2 && (h * Pow2(n) + l) % 2 == l % 2;
    if k == 0 {
    } else {
      LowBits(h, l / 2, n - 1, k - 1);
    }
  }

  lemma MaskBits(dir: Direction, k: nat)
    ensures Bit(if dir.ToDevice? then H2C_ERR_MASK else C2H_ERR_MASK, k) <==> k in ErrorBits(dir)
  {
    hide Bit;
    ThreeBytes(0xF8, 0xFE, 0x38, k);
    ThreeBytes(0xF8, 0x06, 0x38, k);
    if k < 24 {
      MaskBytes(k % 8);
    }
  }

  lemma MaskAbove(m: nat, k: nat)
    requires m < 0x100_0000 && k >= 24
    ensures !Bit(m, k)
  {
    Pow2At(24);
    Pow2Grows(24, k);
    BitAbove(m, k);
  }

  lemma {:induction false} Pow2Grows(a: nat, b: nat)
    requires a <= b
    ensures Pow2(a) <= Pow2(b)
  {
    if a == b {
    } else {
      Pow2Grows(a, b - 1);
    }
  }

  /** The error test of the code, bit by bit. */
  lemma ErrorMeans(dir: Direction, status: nat)
    ensures HasError(dir, status) <==> !Clean(dir, status)
  {
    hide And, Bit;
    var m := if dir.ToDevice? then H2C_ERR_MASK else C2H_ERR_MASK;
    AndNotZero(status, m);
    if HasError(dir, status) {
      var k: nat :| Common(status, m, k);
      MaskBits(dir, k);
    } else {
      forall k | k in ErrorBits(dir) ensures !Bit(status, k) {
        MaskBits(dir, k);
        assert !Common(status, m, k);
      }
    }
  }

  lemma BusyMeans(status: nat)
    ensures Busy(status) <==> Bit(status, 0)
  {
    hide And;
    assert Pow2(0) == 1;
    AndOneBit(status, 0);
  }

  /** The masks of the code applied to a write-back word. */
  lemma WritebackMeans(r: Reading)
    ensures And(r.writeback, WB_COUNT_MASK) == r.writeback % 0x100_0000
    ensures And(r.writeback, WB_ERR_MASK) != 0 <==> Bit(r.writeback, 31)
  {
    hide And, Bit;
    AndMaskAt(r.writeback, 24, 0x100_0000);
    Pow2At(31);
    AndOneBit(r.writeback, 31);
  }

  /** What the code takes from the readings. */
  lemma ReadingsMean(e: Eng, r: Reading)
    ensures CountOf(r) == Reported(r) && StatusSeen(e, r) == ActsOn(e.status, r)
    ensures And(r.writeback, WB_COUNT_MASK) == r.writeback % 0x100_0000
  {
    hide And, Bit;
    WritebackMeans(r);
  }

  /** The first half of a service step: the status it acts on, and when the engine keeps running. */
  lemma PolledMeans(e: Eng, r: Reading)
    ensures var status := ActsOn(e.status, r);
            Polled(e, r) == e.(status := status,
                               running := e.running && r.writeback % 0x100_0000 == 0 && Bit(status, 0))
  {
    hide And, Bit, Busy, StatusSeen, Rereads;
    ReadingsMean(e, r);
    BusyMeans(StatusSeen(e, r));
  }

  // ---- one service step ----

  lemma {:induction false} RetireListMeaning(q: seq<Job>, c: nat)
    ensures var (k, left) := RetireList(q, c);
            && k <= |q| && SumDesc(q[..k]) + left == c
            && (k < |q| ==> c <= SumDesc(q[..k + 1]))
            && (c >= 1 ==> left >= 1)
            && forall m :: 0 <= m <= k && c >= 1 ==> SumDesc(q[..m]) < c
  {
    if q != [] && c > q[0].descNum {
      var c' := c - q[0].descNum;
      RetireListMeaning(q[1..], c');
      var (k, left) := RetireList(q[1..], c');
      assert q[..k + 1][1..] == q[1..][..k];
      if k + 1 < |q| {
        assert q[..k + 2][1..] == q[1..][..k + 1];
      }
      forall m | 0 <= m <= k + 1 ensures SumDesc(q[..m]) < c {
        if m > 0 {
          assert q[..m][1..] == q[1..][..m - 1];
        }
      }
    } else if q != [] {
      assert q[..1][1..] == [];
      assert SumDesc(q[..1]) == q[0].descNum;
    }
  }

  lemma SumEmpty(q: seq<Job>)
    requires q == []
    ensures SumDesc(q) == 0
  {
  }

  lemma {:induction false} SumSnoc(q: seq<Job>, j: Job)
    ensures SumDesc(q + [j]) == SumDesc(q) + j.descNum
  {
    if q == [] {
      assert q + [j] == [j] && SumDesc([j][1..]) == 0;
    } else {
      assert (q + [j])[1..] == q[1..] + [j];
      SumSnoc(q[1..], j);
    }
  }

  /** The number of transfers a completed count c retires: the shortest prefix whose descriptors
      reach c, or the whole queue. */
  ghost predicate ShortestPrefix(q: seq<Job>, c: nat, p: nat) {
    && p <= |q|
    && (c <= SumDesc(q[..p]) || p == |q|)
    && forall m :: 0 <= m < p ==> SumDesc(q[..m]) < c
  }

  /** Which transfers a step retires, and in which state, for whatever count is left once the
      descriptors counted as dequeued have been taken off (modulo 2^32). */
  lemma RetireMeaning(e: Eng, count: nat)
    requires (count - e.dequeued) % U32 >= 1
    ensures var c := (count - e.dequeued) % U32;
            var (e', done) := Retire(e, count);
            var p := |done|;
            && ShortestPrefix(e.queue, c, p)
            && e'.queue == e.queue[p..]
            && (forall i :: 0 <= i < p ==> done[i].tag == e.queue[i].tag && done[i].descNum == e.queue[i].descNum)
            && (forall i :: 0 <= i < p - 1 ==> done[i].state == COMPLETED)
            && (p > 0 ==>
                  (done[p - 1].state == COMPLETED <==>
                     || SumDesc(e.queue[..p]) < c
                     || (SumDesc(e.queue[..p]) == c && !HasError(e.dir, e.status))))
            && (p > 0 && done[p - 1].state != COMPLETED ==> done[p - 1].state == FAILED)
  {
    hide HasError, RetireList, SumDesc;
    var c := (count - e.dequeued) % U32;
    RetireListMeaning(e.queue, c);
    var (k, left) := RetireList(e.queue, c);
    if k < |e.queue| {
      assert e.queue[..k + 1] == e.queue[..k] + [e.queue[k]];
      SumSnoc(e.queue[..k], e.queue[k]);
    }
  }

  /** How the descriptors of a retirement are counted: what the retired transfers record as completed
      adds up to the count, and all their descriptors are counted as dequeued. */
  lemma RetireConserves(e: Eng, c: nat)
    requires e.dequeued == 0 && 1 <= c < U32 && !HasError(e.dir, e.status)
    ensures var (e', done) := Retire(e, c);
            var p := |done|;
            && p <= |e.queue| && e'.dequeued == SumDesc(e.queue[..p])
            && (p > 0 && c <= SumDesc(e.queue[..p]) ==> SumDesc(e.queue[..p - 1]) + done[p - 1].descCmpl == c)
  {
    hide HasError, RetireList, SumDesc;
    DivModUnique(c, U32, 0, c);
    RetireListMeaning(e.queue, c);
    var (k, left) := RetireList(e.queue, c);
    if k < |e.queue| {
      assert e.queue[..k + 1] == e.queue[..k] + [e.queue[k]];
      SumSnoc(e.queue[..k], e.queue[k]);
    }
  }

  /** WARN_ON(desc_completed > desc_num) in `engine_service_final_transfer` is never hit. */
  lemma NoWarning(e: Eng, count: nat)
    ensures var c := (count - e.dequeued) % U32;
            var (k, left) := RetireList(e.queue, c);
            k < |e.queue| ==> left <= e.queue[k].descNum
  {
    hide RetireList, SumDesc;
    var c := (count - e.dequeued) % U32;
    RetireListMeaning(e.queue, c);
    var (k, left) := RetireList(e.queue, c);
    if k < |e.queue| {
      assert e.queue[..k + 1] == e.queue[..k] + [e.queue[k]];
      SumSnoc(e.queue[..k], e.queue[k]);
    }
  }

  /** Whatever the count, retiring takes a prefix off the queue, and at least one transfer if there is one. */
  lemma RetireTakesPrefix(e: Eng, count: nat)
    ensures var (e', done) := Retire(e, count);
            && |done| <= |e.queue| && e'.queue == e.queue[|done|..]
            && (e.queue != [] ==> |done| >= 1)
            && e' == e.(running := e'.running, dequeued := e'.dequeued, queue := e'.queue)
            && (e'.running ==> e.running)
  {
    hide HasError, RetireList, SumDesc;
  }

  /** A service step entered while running with a non-zero count retires a non-empty prefix of a
      non-empty queue, and leaves the engine running exactly when the queue is non-empty. */
  lemma ServiceRunning(e: Eng, r: Reading)
    requires e.running && CountOf(r) != 0
    ensures var (e', done) := Service(e, r);
            && (e'.running <==> e'.queue != [])
            && |done| <= |e.queue| && e'.queue == e.queue[|done|..]
            && (e.queue != [] ==> |done| >= 1)
  {
    hide HasError, Busy, CountOf, Retire;
    RetireTakesPrefix(Polled(e, r), CountOf(r));
  }

  /** One service step with nothing counted as dequeued: it retires exactly the shortest prefix of the
      queue whose descriptors reach the reported count (or the whole queue).  All but the last are
      COMPLETED; the last is COMPLETED exactly when its descriptors end at the count and no error bit is
      set, or the whole queue fell short of the count; otherwise it is FAILED.  The error bits are those
      of the status register if there was no write-back count or it came with its error bit, and of the
      last status read otherwise.  Without an error the descriptors recorded as completed add up to the
      count. */
  lemma ServiceRetires(e: Eng, r: Reading)
    requires e.running && e.dequeued == 0 && 1 <= Reported(r) < U32
    ensures var (e', done) := Service(e, r);
            var p, c := |done|, Reported(r);
            var clean := Clean(e.dir, if Rereads(r) then r.statusRc else e.status);
            && ShortestPrefix(e.queue, c, p)
            && e'.queue == e.queue[p..]
            && (forall i :: 0 <= i < p ==> done[i].tag == e.queue[i].tag && done[i].descNum == e.queue[i].descNum)
            && (forall i :: 0 <= i < p - 1 ==> done[i].state == COMPLETED)
            && (p > 0 ==>
                  && (done[p - 1].state == COMPLETED <==>
                        SumDesc(e.queue[..p]) < c || (SumDesc(e.queue[..p]) == c && clean))
                  && (done[p - 1].state != COMPLETED ==> done[p - 1].state == FAILED)
                  && (c <= SumDesc(e.queue[..p]) && clean ==> SumDesc(e.queue[..p - 1]) + done[p - 1].descCmpl == c))
  {
    hide HasError, Busy, CountOf, Retire, StatusSeen, SumDesc, Reported, Clean, Rereads;
    ReadingsMean(e, r);
    ErrorMeans(e.dir, StatusSeen(e, r));
    DivModUnique(CountOf(r), U32, 0, CountOf(r));
    RetireMeaning(Polled(e, r), CountOf(r));
    if !HasError(e.dir, StatusSeen(e, r)) {
      RetireConserves(Polled(e, r), CountOf(r));
    }
  }

  /** A service step on a stopped engine retires nothing and starts nothing. */
  lemma ServiceStopped(e: Eng, r: Reading)
    requires !e.running
    ensures var (e', done) := Service(e, r);
            done == [] && e'.queue == e.queue && !e'.running && e'.starts == e.starts && e'.status == r.statusRc
  {
  }

  /** Exactly when a service step starts the hardware again: it found the engine running, some descriptors
      done and transfers left over, and had stopped it because it was not BUSY, because a write-back
      count was handed in, or because of an error. */
  lemma RestartExactlyWhen(e: Eng, r: Reading)
    ensures var e' := Service(e, r).0;
            var status := if Rereads(r) then r.statusRc else e.status;
            && (e'.starts == e.starts || e'.starts == e.starts + 1)
            && (e'.starts > e.starts <==>
                  && e.running && Reported(r) != 0 && e'.queue != []
                  && (r.writeback % 0x100_0000 != 0 || !Bit(status, 0) || !Clean(e.dir, status)))
            && (e'.starts > e.starts ==> e'.running && e'.status == r.startStatus && e'.dequeued == 0)
  {
    hide HasError, CountOf, Retire, StatusSeen, Clean, Rereads, And, Bit, Reported, Polled, Resume;
    ReadingsMean(e, r);
    PolledMeans(e, r);
    if e.running && CountOf(r) != 0 {
      var e1 := Polled(e, r);
      ErrorMeans(e.dir, e1.status);
      RetireTakesPrefix(e1, CountOf(r));
      RetireStopsOnError(e1, CountOf(r));
      ResumeStarts(Retire(e1, CountOf(r)).0, r.startStatus);
    }
  }

  lemma ResumeStarts(e: Eng, status: nat)
    ensures var e' := Resume(e, status);
            && e'.queue == e.queue
            && if !e.running && e.queue != [] then
                 e'.running && e'.starts == e.starts + 1 && e'.status == status && e'.dequeued == 0
               else
                 e'.starts == e.starts
  {
  }

  lemma RetireStopsOnError(e: Eng, count: nat)
    ensures var e' := Retire(e, count).0;
            e'.queue != [] ==> (e'.running <==> e.running && !HasError(e.dir, e.status))
  {
    hide HasError, SumDesc;
    var (k, left) := RetireList(e.queue, (count - e.dequeued) % U32);
    if k < |e.queue| {
      assert e.queue[k..] != [];
    }
  }

  /** A service step finds the engine not busy, or was handed a non-zero write-back count. */
  predicate Quiet(r: Reading) { r.writeback % 0x100_0000 != 0 || !Bit(r.statusRc, 0) }

  /** After a quiet service step a running engine has nothing counted as dequeued. */
  lemma QuietService(e: Eng, r: Reading)
    requires e.running ==> e.dequeued == 0
    requires Quiet(r)
    ensures var e' := Service(e, r).0; e'.running ==> e'.dequeued == 0
  {
    hide HasError, Retire, Polled, Bit, CountOf;
    PolledMeans(e, r);
    if e.running {
      RetireTakesPrefix(Polled(e, r), CountOf(r));
    }
  }

  /** Exactly when a service step leaves the engine running with a stale dequeued count: the status
      read BUSY with no write-back count and no error, some descriptors were done, and they did not
      reach into the last queued transfer. */
  lemma StaleDequeued(e: Eng, r: Reading)
    requires e.running && e.dequeued == 0 && r.hwCount < U32
    requires forall i :: 0 <= i < |e.queue| ==> e.queue[i].descNum >= 1
    ensures var e' := Service(e, r).0;
            (e'.running && e'.dequeued != 0 <==>
               && !Quiet(r) && r.hwCount != 0 && Clean(e.dir, r.statusRc)
               && |e.queue| >= 2 && r.hwCount <= SumDesc(e.queue[..|e.queue| - 1]))
  {
    hide HasError, Retire, SumDesc, Polled, Bit, CountOf, StatusSeen, Clean;
    ReadingsMean(e, r);
    PolledMeans(e, r);
    ErrorMeans(e.dir, r.statusRc);
    if Quiet(r) {
      QuietService(e, r);
    } else if r.hwCount != 0 {
      var e1 := e.(status := r.statusRc);
      RetireTakesPrefix(e1, r.hwCount);
      DivModUnique(r.hwCount, U32, 0, r.hwCount);
      RetireMeaning(e1, r.hwCount);
      RetireCounts(e1, r.hwCount);
      var p := |Retire(e1, r.hwCount).1|;
      var n := |e.queue|;
      if n >= 1 && p < n {
        SumMonotone(e.queue, p, n - 1);
      }
    }
  }

  lemma {:induction false} SumMonotone(q: seq<Job>, i: nat, j: nat)
    requires i <= j <= |q|
    ensures SumDesc(q[..i]) <= SumDesc(q[..j])
    decreases j
  {
    if i == j {
    } else {
      SumMonotone(q, i, j - 1);
      assert q[..j] == q[..j - 1] + [q[j - 1]];
      SumSnoc(q[..j - 1], q[j - 1]);
    }
  }

  /** Retiring stops the engine exactly on an error, and otherwise counts what it retired. */
  lemma RetireCounts(e: Eng, count: nat)
    requires e.running && e.dequeued == 0 && 1 <= count < U32
    requires forall i :: 0 <= i < |e.queue| ==> e.queue[i].descNum >= 1
    ensures var (e', done) := Retire(e, count);
            e'.queue != [] ==>
              && (e'.running <==> !HasError(e.dir, e.status))
              && (e'.running ==> e'.dequeued >= 1)
  {
    hide HasError, SumDesc, RetireList;
    DivModUnique(count, U32, 0, count);
  }

  // ---- every run ----

  /** What every step keeps. */
  ghost predicate Inv(e: Eng) {
    && (e.request ==> !e.running)
    && (e.running ==> e.queue != [])
    && !e.idle
    && forall i :: 0 <= i < |e.queue| ==> e.queue[i].descNum >= 1
  }

  lemma InvStep(e: Eng, ev: Event)
    requires Inv(e)
    ensures Inv(Do(e, ev))
  {
    hide Busy, Quiet, HasError, Retire, CountOf;
    match ev
    case ServiceEv(r) =>
      if e.running && CountOf(r) != 0 {
        RetireTakesPrefix(Polled(e, r), CountOf(r));
      }
    case _ =>
  }

  /** In every reachable state a requested shutdown means not running, running means a non-empty
      queue, and the step that would set ENGINE_SHUTDOWN_IDLE has never been taken. */
  lemma {:induction false} InvAlways(e: Eng, evs: seq<Event>)
    requires Inv(e)
    ensures Inv(RunAll(e, evs))
    decreases |evs|
  {
    hide Do, Inv;
    if evs == [] {
    } else {
      InvStep(e, evs[0]);
      InvAlways(Do(e, evs[0]), evs[1..]);
    }
  }

  lemma ReachableIsSafe(dir: Direction, evs: seq<Event>)
    ensures var e := RunAll(Init(dir), evs);
            (e.request ==> !e.running) && (e.running ==> e.queue != []) && !e.idle
  {
    InvAlways(Init(dir), evs);
  }

  /** From going offline until the next going online nothing is started, although starting would
      clear the shutdown request. */
  lemma {:induction false} OfflineStaysQuiet(e: Eng, evs: seq<Event>)
    requires Inv(e) && e.request && !e.running
    requires forall i :: 0 <= i < |evs| ==> evs[i] != OnlineEv
    ensures var e' := RunAll(e, evs); !e'.running && e'.request && e'.starts == e.starts
    decreases |evs|
  {
    if evs == [] {
    } else {
      assert evs[0] != OnlineEv;
      InvStep(e, evs[0]);
      OfflineStaysQuiet(Do(e, evs[0]), evs[1..]);
    }
  }

  lemma NoStartWhileOffline(dir: Direction, before: seq<Event>, after: seq<Event>)
    requires forall i :: 0 <= i < |after| ==> after[i] != OnlineEv
    ensures var e := Do(RunAll(Init(dir), before), OfflineEv);
            var e' := RunAll(e, after);
            !e'.running && e'.starts == e.starts
  {
    var e0 := RunAll(Init(dir), before);
    InvAlways(Init(dir), before);
    InvStep(e0, OfflineEv);
    OfflineStaysQuiet(Do(e0, OfflineEv), after);
  }

  /** Whatever the engine did before: while offline every transfer is refused and nothing changes; after
      going online again a transfer is accepted at the end of the queue, and the engine started. */
  lemma OnlineAccepts(e: Eng, job: Job, status: nat)
    requires job.descNum >= 1
    ensures var off := Do(e, OfflineEv);
            && Do(off, QueueEv(job, status)) == off && !Enqueue(off, job, status).1
            && var on := Do(off, OnlineEv);
               var e' := Do(on, QueueEv(job, status));
               && Enqueue(on, job, status).1 && !on.running && on.queue == e.queue
               && e'.running && e'.starts == e.starts + 1 && e'.dequeued == 0 && e'.status == status
               && |e'.queue| == |e.queue| + 1 && e'.queue[..|e.queue|] == e.queue
               && e'.queue[|e.queue|] == job.(state := SUBMITTED)
  {
  }

  /** If every service step of a run is quiet, a running engine always enters service with nothing
      counted as dequeued. */
  lemma {:induction false} DequeuedAlwaysZero(e: Eng, evs: seq<Event>)
    requires e.running ==> e.dequeued == 0
    requires forall i :: 0 <= i < |evs| && evs[i].ServiceEv? ==> Quiet(evs[i].reading)
    ensures var e' := RunAll(e, evs); e'.running ==> e'.dequeued == 0
    decreases |evs|
  {
    hide Quiet, Service, Inv;
    if evs == [] {
    } else {
      if evs[0].ServiceEv? {
        assert Quiet(evs[0].reading);
        QuietService(e, evs[0].reading);
      }
      DequeuedAlwaysZero(Do(e, evs[0]), evs[1..]);
    }
  }

  // ---- at most one transfer queued ----

  /** With at most one transfer queued, a service step either leaves the queue alone or empties it. */
  lemma ServiceOne(e: Eng, r: Reading)
    requires Inv(e) && |e.queue| <= 1 && (e.running ==> e.dequeued == 0)
    ensures var (e', done) := Service(e, r);
            && Inv(e') && (e'.running ==> e'.dequeued == 0)
            && ((e'.queue == e.queue && done == []) || (e'.queue == [] && |done| == |e.queue|))
  {
    hide CountOf, Retire, Busy, StatusSeen, Inv;
    InvStep(e, ServiceEv(r));
    if e.running && CountOf(r) != 0 {
      ServiceRunning(e, r);
    }
  }

  /** A lone transfer is retired COMPLETED exactly when more descriptors than it has are reported, or
      just as many and no error bit is set. */
  lemma RetireOne(e: Eng, count: nat)
    requires |e.queue| == 1 && e.queue[0].descNum >= 1 && e.dequeued == 0
    ensures var done := Retire(e, count).1;
            var n, c := e.queue[0].descNum, count % U32;
            && |done| == 1 && done[0].tag == e.queue[0].tag
            && (done[0].state == COMPLETED || done[0].state == FAILED)
            && (done[0].state == COMPLETED <==> c > n || (c == n && Clean(e.dir, e.status)))
  {
    hide HasError, SumDesc, Clean;
    ErrorMeans(e.dir, e.status);
    var n, c := e.queue[0].descNum, count % U32;
    if c > n {
      assert RetireList(e.queue[1..], c - n) == (0, c - n);
    }
  }

  // ---- a stale dequeued count ----

  function Queueing(tag: nat, n: nat): Event { QueueEv(Job(tag, n, NEW, 0), STAT_BUSY) }

  /** A service step of the interrupt handler that finds the engine BUSY and n descriptors done. */
  function BusyService(n: nat): Event { ServiceEv(Reading(0, STAT_BUSY, n, STAT_BUSY)) }

  /** Two transfers of two descriptors and one; the first is done and the engine still BUSY. */
  function StaleRun(): seq<Event> { [Queueing(0, 2), Queueing(1, 1), BusyService(2)] }

  /** The stale count happens: from the initial state that run leaves the engine running, the second
      transfer queued and two descriptors counted as dequeued. */
  lemma StaleHappens(dir: Direction)
    ensures RunAll(Init(dir), StaleRun()) == Eng(dir, true, false, false, STAT_BUSY, 2, [Job(1, 1, SUBMITTED, 0)], 1)
  {
    hide Service;
    var e0, evs := Init(dir), StaleRun();
    var e1 := Do(e0, evs[0]);
    var e2 := Do(e1, evs[1]);
    assert e2 == Eng(dir, true, false, false, STAT_BUSY, 0, [Job(0, 2, SUBMITTED, 0), Job(1, 1, SUBMITTED, 0)], 1);
    FirstDone(e2);
    assert evs[1..] == [evs[1], evs[2]] && evs[1..][1..] == [evs[2]] && [evs[2]][1..] == [];
    assert RunAll(e2, [evs[2]]) == RunAll(Do(e2, evs[2]), []);
  }

  lemma FirstDone(e: Eng)
    requires e == Eng(e.dir, true, false, false, STAT_BUSY, 0, [Job(0, 2, SUBMITTED, 0), Job(1, 1, SUBMITTED, 0)], 1)
    ensures var e' := Do(e, BusyService(2));
            e' == Eng(e.dir, true, false, false, STAT_BUSY, 2, [Job(1, 1, SUBMITTED, 0)], 1)
  {
    BusyBits();
    hide And;
    var r := BusyService(2).reading;
    assert CountOf(r) == 2 && Polled(e, r) == e;
    assert RetireList(e.queue, 2) == (0, 2);
    assert e.queue[1..] == [Job(1, 1, SUBMITTED, 0)] && e.queue[0..] == e.queue && SumDesc(e.queue[..0]) == 0;
  }

  lemma BusyBits()
    ensures And(0, WB_COUNT_MASK) == And(0, WB_ERR_MASK) == 0 && And(STAT_BUSY, STAT_BUSY) == 1
    ensures And(STAT_BUSY, H2C_ERR_MASK) == And(STAT_BUSY, C2H_ERR_MASK) == 0
  {
    assert And(0, 0) == 0 && And(0, H2C_ERR_MASK / 2) == 0 && And(0, C2H_ERR_MASK / 2) == 0;
  }

  /** What it leads to: for a count below the stale one the 32-bit subtraction wraps, and the step
      marks every queued transfer COMPLETED exactly when the queue is shorter than the wrapped
      count, or just as long and no error bit is set. */
  lemma WrapCompletesAll(e: Eng, count: nat)
    requires 1 <= count < e.dequeued < U32 && e.queue != []
    requires forall i :: 0 <= i < |e.queue| ==> e.queue[i].descNum >= 1
    ensures var c := U32 - (e.dequeued - count);
            var (e', done) := Retire(e, count);
            (|done| == |e.queue| && forall i :: 0 <= i < |done| ==> done[i].state == COMPLETED)
              <==> (SumDesc(e.queue) < c || (SumDesc(e.queue) == c && !HasError(e.dir, e.status)))
  {
    hide HasError, Retire, SumDesc;
    var c, n := U32 - (e.dequeued - count), |e.queue|;
    DivModUnique(count - e.dequeued, U32, -1, c);
    RetireMeaning(e, count);
    RetireTakesPrefix(e, count);
    var p := |Retire(e, count).1|;
    assert e.queue[..n] == e.queue == e.queue[..n - 1] + [e.queue[n - 1]];
    SumSnoc(e.queue[..n - 1], e.queue[n - 1]);
    if p < n {
      SumMonotone(e.queue, p, n - 1);
    }
  }

  /** It happens: after that run, a service step that reads one descriptor done marks the second transfer
      COMPLETED. */
  lemma WrapHappens(dir: Direction)
    ensures var e := RunAll(Init(dir), StaleRun());
            var done := Service(e, BusyService(1).reading).1;
            |done| == 1 && done[0].tag == 1 && done[0].state == COMPLETED
  {
    hide RunAll;
    StaleHappens(dir);
    BusyBits();
    var e := RunAll(Init(dir), StaleRun());
    hide And, Retire, SumDesc;
    var r := BusyService(1).reading;
    assert CountOf(r) == 1 && Polled(e, r) == e;
    OneJob(e.queue);
    WrapCompletesAll(e, 1);
    DivModUnique(1 - 2, U32, -1, U32 - 1);
    RetireMeaning(e, 1);
  }

  lemma OneJob(q: seq<Job>)
    requires |q| == 1
    ensures SumDesc(q) == q[0].descNum
  {
    assert SumDesc(q[1..]) == 0;
  }
}
