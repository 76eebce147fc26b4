/** The cross-host packet ring: one producer and one consumer on two machines, sharing a ring of 64
    descriptors without a lock.  Every read and write of shared memory is a step of its own, so what
    either side holds in a local variable may be stale.  Memory is sequentially consistent, and the
    ring has been initialised before the producer's first step. */
module PacketRing {
  import opened Hardware

  const MAX_AGENT_NUM: nat := 2
  const MAX_DESC_NUM: nat := 64
  const AGENT_TOTAL_DMA_SIZE: nat := 0x2_0000
  const DESC_MAX_DMA_SIZE: nat := 0x800

  datatype Status = INIT | FREEZING | SETTLED | RELEASED
  datatype Slot = Slot(pos: int, offset: int, length: int, status: Status)

  type Frame = seq<Byte>

  /** The program counter and local variables of the sending side (`nupanet_xmit_frame`,
      `fetch_packet_desc`, `xdma_send_data`).  `seen` records how many descriptors had been taken
      when `tail` was read; the code does not look at it. */
  datatype Producer =
    | PIdle
    | PTail(frame: Frame, head: nat)                             // read head; reads tail next
    | PReady(frame: Frame, head: nat, tail: nat, seen: nat)      // reads ready next
    | PTest(frame: Frame, head: nat, tail: nat, seen: nat)       // tests for room next
    | PFreeze(frame: Frame, slot: nat)                           // writes status FREEZING next
    | PLength(frame: Frame, slot: nat)                           // writes length next
    | PPublish(frame: Frame, slot: nat)                          // writes head next
    | POffset(frame: Frame, slot: nat)                           // writes offset next
    | PReadOffset(frame: Frame, slot: nat)                       // reads offset back next
    | PReadLength(frame: Frame, slot: nat, off: int)             // reads length back next
    | PDma(frame: Frame, slot: nat, off: int, len: int, sent: nat)
    | PSettle(frame: Frame, slot: nat, sent: nat)                // writes status SETTLED next

  /** The same for the receiving side (`nupa_data_available`, `xdma_receive_data`, `nupanet_poll`). */
  datatype Consumer =
    | CIdle
    | CTail(head: nat, seen: nat)                                // read head; reads tail next
    | CSpin(slot: nat)                                           // spins while FREEZING
    | CSettled(slot: nat)                                        // tests for SETTLED next
    | CInit(slot: nat)                                           // tests for INIT next
    | CReleased(slot: nat)                                       // tests for RELEASED next
    | CAdvance(slot: nat)                                        // writes tail next
    | CReadOffset(slot: nat)                                     // reads offset next
    | CReadLength(slot: nat, off: int)                           // reads length next
    | CDma(slot: nat, off: int, len: int, buf: Frame)
    | CRelease(slot: nat, len: int, buf: Frame)                  // writes status RELEASED next

  /** A frame the producer settled, and how many of its bytes its DMA had moved by then. */
  datatype Sent = Sent(payload: Frame, moved: nat)

  /** What became of a descriptor the consumer took: the length it read and the bytes its DMA read,
      or dropped because the buffer could not be allocated. */
  datatype Taken = Pending | Dropped | Got(length: int, bytes: Frame)

  /** Shared memory, both sides, and the history. */
  datatype Ring = Ring(dst: nat, head: nat, tail: nat, ready: bool, slots: seq<Slot>, mem: Memory,
                       prod: Producer, cons: Consumer,
                       frames: seq<Frame>, settled: seq<Sent>, taken: seq<Taken>)

  datatype Event =
    | Send(frame: Frame)                        // the stack hands over a frame; reads head
    | Produce(refuse: bool, chunk: nat)         // the producer's next step; a chunk of 0 ends its DMA
    | Consume(haveBuf: bool, chunk: nat)      // the consumer's next step; a chunk of 0 ends its DMA
    | Elsewhere(addr: int, value: Byte)         // a write to another agent's part of DMA memory

  function SlotAt(s: Ring, i: nat): Slot { if i < |s.slots| then s.slots[i] else Slot(0, 0, 0, INIT) }

  function Put(s: Ring, i: nat, v: Slot): Ring { if i < |s.slots| then s.(slots := s.slots[i := v]) else s }

  function ByteAt(f: Frame, i: int): Byte { if 0 <= i < |f| then f[i] else 0 }

  function Offset(dst: nat, pos: int): int { AGENT_TOTAL_DMA_SIZE * dst + pos * DESC_MAX_DMA_SIZE }

  /** Memory after the bytes [from, from+n) of a frame have been written at off + from. */
  function Written(mem: Memory, off: int, f: Frame, from: nat, n: nat): Memory
    decreases n
  {
    if n == 0 then mem else Written(mem, off, f, from, n - 1)[off + from + n - 1 := ByteAt(f, from + n - 1)]
  }

  function StepProducer(s: Ring, refuse: bool, chunk: nat): Ring {
    match s.prod
    case PIdle => s
    case PTail(f, head) => s.(prod := PReady(f, head, s.tail, |s.taken|))
    case PReady(f, head, tail, seen) => s.(prod := if s.ready then PTest(f, head, tail, seen) else PIdle)
    case PTest(f, head, tail, seen) =>
      if refuse || (head + 1) % MAX_DESC_NUM == tail then s.(prod := PIdle)
      else s.(prod := PFreeze(f, head))
    case PFreeze(f, i) => Put(s, i, SlotAt(s, i).(status := FREEZING)).(prod := PLength(f, i))
    case PLength(f, i) => Put(s, i, SlotAt(s, i).(length := |f|)).(prod := PPublish(f, i))
    case PPublish(f, i) => s.(head := (i + 1) % MAX_DESC_NUM, frames := s.frames + [f], prod := POffset(f, i))
    case POffset(f, i) =>
      Put(s, i, SlotAt(s, i).(offset := Offset(s.dst, SlotAt(s, i).pos))).(prod := PReadOffset(f, i))
    case PReadOffset(f, i) => s.(prod := PReadLength(f, i, SlotAt(s, i).offset))
    case PReadLength(f, i, off) => s.(prod := PDma(f, i, off, SlotAt(s, i).length, 0))
    case PDma(f, i, off, len, sent) =>
      if chunk == 0 then s.(prod := PSettle(f, i, sent))
      else if sent + chunk <= len then
        s.(mem := Written(s.mem, off, f, sent, chunk), prod := PDma(f, i, off, len, sent + chunk))
      else s
    case PSettle(f, i, sent) =>
      Put(s, i, SlotAt(s, i).(status := SETTLED)).(settled := s.settled + [Sent(f, sent)], prod := PIdle)
  }

  function StepConsumer(s: Ring, haveBuf: bool, chunk: nat): Ring {
    match s.cons
    case CIdle => s.(cons := CTail(s.head, |s.frames|))
    case CTail(head, seen) => s.(cons := if head == s.tail then CIdle else CSpin(s.tail))
    case CSpin(i) => if SlotAt(s, i).status == FREEZING then s else s.(cons := CSettled(i))
    case CSettled(i) => s.(cons := if SlotAt(s, i).status == SETTLED then CAdvance(i) else CInit(i))
    case CInit(i) => s.(cons := if SlotAt(s, i).status == INIT then CIdle else CReleased(i))
    case CReleased(i) => s.(cons := if SlotAt(s, i).status == RELEASED then CIdle else CReadOffset(i))
    case CAdvance(i) => s.(tail := (i + 1) % MAX_DESC_NUM, taken := s.taken + [Pending], cons := CReadOffset(i))
    case CReadOffset(i) => s.(cons := CReadLength(i, SlotAt(s, i).offset))
    case CReadLength(i, off) =>
      if haveBuf then s.(cons := CDma(i, off, SlotAt(s, i).length, []))
      else s.(taken := Settle(s.taken, Dropped), cons := CIdle)
    case CDma(i, off, len, buf) =>
      if chunk == 0 then s.(cons := CRelease(i, len, buf))
      else if |buf| + chunk <= len then s.(cons := CDma(i, off, len, buf + Fetched(s.mem, off + |buf|, chunk)))
      else s
    case CRelease(i, len, buf) =>
      Put(s, i, SlotAt(s, i).(status := RELEASED)).(taken := Settle(s.taken, Got(len, buf)), cons := CIdle)
  }

  function Fetched(mem: Memory, from: int, n: nat): Frame { seq(n, i => Read(mem, from + i)) }

  /** Settle the fate of the last descriptor taken. */
  function Settle(ts: seq<Taken>, t: Taken): seq<Taken> { if ts == [] then ts else ts[..|ts| - 1] + [t] }

  function Step(s: Ring, ev: Event): Ring {
    match ev
    case Send(f) => if s.prod.PIdle? && |f| <= DESC_MAX_DMA_SIZE then s.(prod := PTail(f, s.head)) else s
    case Produce(refuse, chunk) => StepProducer(s, refuse, chunk)
    case Consume(haveBuf, chunk) => StepConsumer(s, haveBuf, chunk)
    case Elsewhere(a, v) =>
      if Offset(s.dst, 0) <= a < Offset(s.dst + 1, 0) then s else s.(mem := s.mem[a := v])
  }

  /** The ring as `adapter_info_init` leaves it. */
  function Init(dst: nat, mem: Memory): Ring {
    Ring(dst, 0, 0, true, seq(MAX_DESC_NUM, i => Slot(i, 0, 0, INIT)), mem, PIdle, CIdle, [], [], [])
  }

  function RunAll(s: Ring, evs: seq<Event>): Ring
    decreases |evs|
  {
    if evs == [] then s else RunAll(Step(s, evs[0]), evs[1..])
  }

  // ---- who is where ----

  /** The slot the producer has been handed, until it has settled it. */
  function ProducerSlot(s: Ring): Option<nat> {
    match s.prod
    case PFreeze(_, i) => Some(i)
    case PLength(_, i) => Some(i)
    case PPublish(_, i) => Some(i)
    case POffset(_, i) => Some(i)
    case PReadOffset(_, i) => Some(i)
    case PReadLength(_, i, _) => Some(i)
    case PDma(_, i, _, _, _) => Some(i)
    case PSettle(_, i, _) => Some(i)
    case _ => None
  }

  /** The slot the consumer has taken and is still reading or about to mark RELEASED. */
  function ConsumerSlot(s: Ring): Option<nat> {
    match s.cons
    case CReadOffset(i) => Some(i)
    case CReadLength(i, _) => Some(i)
    case CDma(i, _, _, _) => Some(i)
    case CRelease(i, _, _) => Some(i)
    case _ => None
  }

  /** The producer has published head but not yet settled. */
  predicate Unsettled(p: Producer) {
    p.POffset? || p.PReadOffset? || p.PReadLength? || p.PDma? || p.PSettle?
  }

  // ---- the invariant ----

  ghost predicate Shape(s: Ring) {
    var H, T, S := |s.frames|, |s.taken|, |s.settled|;
    && |s.slots| == 64 && s.dst < MAX_AGENT_NUM
    && (forall i :: 0 <= i < 64 ==> s.slots[i].pos == i)
    && s.head == H % 64 && s.tail == T % 64
    && T <= S <= H <= T + 63
    && H == (if Unsettled(s.prod) then S + 1 else S)
    && (forall k :: 0 <= k < H ==> |s.frames[k]| <= DESC_MAX_DMA_SIZE)
    && (forall k :: 0 <= k < S ==> s.settled[k].payload == s.frames[k] && s.settled[k].moved <= |s.frames[k]|)
  }

  /** Memory holds the first n bytes of a frame at the place of slot i. */
  ghost predicate HoldsBytes(mem: Memory, off: int, f: Frame, n: nat) {
    n <= |f| && forall a :: off <= a < off + n ==> Read(mem, a) == f[a - off]
  }

  /** Slot i describes the frame f, and its DMA area holds the first `moved` bytes of it. */
  ghost predicate Describes(slots: seq<Slot>, mem: Memory, dst: nat, i: nat, f: Frame, moved: nat) {
    && i < |slots|
    && slots[i].length == |f| && slots[i].offset == Offset(dst, i)
    && HoldsBytes(mem, Offset(dst, i), f, moved)
  }

  /** The part of the ring that settled frames live in. */
  datatype Area = Area(slots: seq<Slot>, mem: Memory, dst: nat, settled: seq<Sent>)

  function AreaOf(s: Ring): Area { Area(s.slots, s.mem, s.dst, s.settled) }

  /** The slot of settled frame k is still as the producer left it. */
  ghost predicate Intact(v: Area, k: nat) {
    k < |v.settled| && Describes(v.slots, v.mem, v.dst, k % 64, v.settled[k].payload, v.settled[k].moved)
  }

  /** Every settled frame from number `from` on is intact and marked SETTLED. */
  ghost predicate Waiting(v: Area, from: nat) {
    |v.slots| == 64 && forall k :: from <= k < |v.settled| ==> Intact(v, k) && v.slots[k % 64].status == SETTLED
  }

  ghost predicate ProducerOk(s: Ring) {
    var H, T := |s.frames|, |s.taken|;
    && |s.slots| == 64
    && (!s.prod.PIdle? ==> |s.prod.frame| <= DESC_MAX_DMA_SIZE)
    && match s.prod
       case PIdle => true
       case PTail(f, head) => head == H % 64
       case PReady(f, head, tail, seen) => head == H % 64 && tail == seen % 64 && seen <= T && H <= seen + 63
       case PTest(f, head, tail, seen) => head == H % 64 && tail == seen % 64 && seen <= T && H <= seen + 63
       case PFreeze(f, i) => i == H % 64 && H <= T + 62
       case PLength(f, i) => i == H % 64 && H <= T + 62 && s.slots[i].status == FREEZING
       case PPublish(f, i) => i == H % 64 && H <= T + 62 && s.slots[i].status == FREEZING && s.slots[i].length == |f|
       case POffset(f, i) => Holding(s, f, i)
       case PReadOffset(f, i) => Holding(s, f, i) && s.slots[i].offset == Offset(s.dst, i)
       case PReadLength(f, i, off) => Holding(s, f, i) && s.slots[i].offset == off == Offset(s.dst, i)
       case PDma(f, i, off, len, sent) =>
         && Holding(s, f, i) && s.slots[i].offset == off == Offset(s.dst, i) && len == |f|
         && sent <= |f| && HoldsBytes(s.mem, Offset(s.dst, i), f, sent)
       case PSettle(f, i, sent) =>
         && Holding(s, f, i) && s.slots[i].offset == Offset(s.dst, i)
         && sent <= |f| && HoldsBytes(s.mem, Offset(s.dst, i), f, sent)
  }

  /** The producer holds the last published slot, FREEZING and with its length written. */
  ghost predicate Holding(s: Ring, f: Frame, i: nat) {
    var H := |s.frames|;
    && |s.slots| == 64 && H >= 1 && i == (H - 1) % 64 && s.frames[H - 1] == f && |s.taken| <= H - 1
    && s.slots[i].status == FREEZING && s.slots[i].length == |f|
  }

  /** The bytes read so far are the frame's, as far as the producer's DMA had moved them. */
  ghost predicate Matches(buf: Frame, f: Frame, moved: nat) {
    |buf| <= |f| && forall j :: 0 <= j < |buf| && j < moved ==> buf[j] == f[j]
  }

  ghost predicate Reading(s: Ring, i: nat) {
    var T := |s.taken|;
    T >= 1 && i == (T - 1) % 64 && s.taken[T - 1] == Pending && Intact(AreaOf(s), T - 1)
  }

  ghost predicate ConsumerOk(s: Ring) {
    var H, T, S := |s.frames|, |s.taken|, |s.settled|;
    && |s.slots| == 64 && S <= H
    && match s.cons
       case CIdle => true
       case CTail(head, seen) => head == seen % 64 && T <= seen <= H
       case CSpin(i) => i == T % 64 && T < H
       case CSettled(i) => i == T % 64 && T < S
       case CInit(i) => false
       case CReleased(i) => false
       case CAdvance(i) => i == T % 64 && T < S
       case CReadOffset(i) => Reading(s, i)
       case CReadLength(i, off) => Reading(s, i) && off == Offset(s.dst, i)
       case CDma(i, off, len, buf) =>
         && Reading(s, i) && off == Offset(s.dst, i) && len == |s.settled[T - 1].payload|
         && Matches(buf, s.settled[T - 1].payload, s.settled[T - 1].moved)
       case CRelease(i, len, buf) =>
         && Reading(s, i) && len == |s.settled[T - 1].payload|
         && Matches(buf, s.settled[T - 1].payload, s.settled[T - 1].moved)
  }

  /** Everything delivered so far is what was sent, in order. */
  ghost predicate Delivered(taken: seq<Taken>, settled: seq<Sent>) {
    && |taken| <= |settled|
    && forall k :: 0 <= k < |taken| && taken[k].Got? ==>
         taken[k].length == |settled[k].payload| && Matches(taken[k].bytes, settled[k].payload, settled[k].moved)
  }

  ghost predicate Inv(s: Ring) {
    && Shape(s) && Waiting(AreaOf(s), |s.taken|) && ProducerOk(s) && ConsumerOk(s)
    && Delivered(s.taken, s.settled)
  }

  // ---- what a step leaves alone ----

  lemma ModDistinct(a: nat, b: nat)
    requires a < b < a + 64
    ensures a % 64 != b % 64
  {
  }

  lemma NextIndex(n: nat)
    ensures (n % 64 + 1) % 64 == (n + 1) % 64
  {
  }

  /** The settled frames whose slots matter: those waiting, and the one the consumer is reading. */
  function Oldest(s: Ring): nat { if |s.taken| == 0 then 0 else |s.taken| - 1 }

  /** Changing the slot of frame n, later than every settled frame, leaves their slots alone. */
  lemma PutKeeps(s: Ring, s': Ring, n: nat)
    requires |s.slots| == |s'.slots| == 64 && |s.settled| <= n < Oldest(s) + 64
    requires forall j :: 0 <= j < 64 && j != n % 64 ==> s'.slots[j] == s.slots[j]
    requires s'.mem == s.mem && s'.dst == s.dst && s.settled <= s'.settled
    ensures Kept(AreaOf(s), AreaOf(s'), Oldest(s))
  {
    hide HoldsBytes, Offset;
    forall k | Oldest(s) <= k < |s.settled|
      ensures s'.slots[k % 64].status == s.slots[k % 64].status && (Intact(AreaOf(s), k) ==> Intact(AreaOf(s'), k))
    {
      ModDistinct(k, n);
    }
  }

  /** Settled frames from number `from` on keep their slot's status and stay intact. */
  ghost predicate Kept(v: Area, v': Area, from: nat) {
    && |v.slots| == |v'.slots| == 64 && v.settled <= v'.settled
    && forall k :: from <= k < |v.settled| ==>
         v'.slots[k % 64].status == v.slots[k % 64].status && (Intact(v, k) ==> Intact(v', k))
  }

  lemma {:induction false} WrittenMeans(mem: Memory, off: int, f: Frame, from: nat, n: nat)
    ensures var m := Written(mem, off, f, from, n);
            forall a :: Read(m, a) == if off + from <= a < off + from + n then ByteAt(f, a - off) else Read(mem, a)
    decreases n
  {
    if n == 0 {
    } else {
      WrittenMeans(mem, off, f, from, n - 1);
    }
  }

  /** The DMA areas of different slots do not overlap. */
  lemma AreaKept(mem: Memory, mem': Memory, dst: nat, i: nat, j: nat, f: Frame, n: nat)
    requires i != j && |f| <= DESC_MAX_DMA_SIZE && HoldsBytes(mem, Offset(dst, j), f, n)
    requires forall a :: !(Offset(dst, i) <= a < Offset(dst, i) + DESC_MAX_DMA_SIZE) ==> Read(mem', a) == Read(mem, a)
    ensures HoldsBytes(mem', Offset(dst, j), f, n)
  {
    hide Read;
  }

  /** Writing in the DMA area of frame n, later than every settled frame, leaves their areas alone. */
  lemma MemKeeps(s: Ring, s': Ring, n: nat)
    requires |s.slots| == 64 && |s.settled| <= n < Oldest(s) + 64
    requires s'.slots == s.slots && s'.dst == s.dst && s'.settled == s.settled
    requires forall k :: 0 <= k < |s.settled| ==> |s.settled[k].payload| <= DESC_MAX_DMA_SIZE
    requires forall a :: !(Offset(s.dst, n % 64) <= a < Offset(s.dst, n % 64) + DESC_MAX_DMA_SIZE) ==>
               Read(s'.mem, a) == Read(s.mem, a)
    ensures Kept(AreaOf(s), AreaOf(s'), Oldest(s))
  {
    hide Read, Offset, HoldsBytes;
    forall k | Oldest(s) <= k < |s.settled| && Intact(AreaOf(s), k) ensures Intact(AreaOf(s'), k) {
      ModDistinct(k, n);
      AreaKept(s.mem, s'.mem, s.dst, n % 64, k % 64, s.settled[k].payload, s.settled[k].moved);
    }
  }

  /** A producer's step that keeps the settled frames keeps the rest of the invariant. */
  lemma OthersKept(s: Ring, s': Ring)
    requires Inv(s) && Shape(s') && ProducerOk(s') && s'.taken == s.taken && s'.cons == s.cons && s'.dst == s.dst
    requires s.frames <= s'.frames && s'.settled == s.settled
    requires Kept(AreaOf(s), AreaOf(s'), Oldest(s))
    ensures Inv(s')
  {
    hide Offset, Intact, ProducerOk, Delivered;
  }

  /** A step that changes only program counters and the history keeps the settled frames. */
  lemma NothingTouched(s: Ring, from: nat)
    requires |s.slots| == 64
    ensures Kept(AreaOf(s), AreaOf(s), from)
  {
  }

  // ---- the producer's steps ----

  /** The full test leaves one slot free: if it passes against the tail read, however old, there is
      room for one more frame and the one the consumer may be reading. */
  lemma OneSlotGap(h: nat, seen: nat)
    requires seen <= h <= seen + 63 && (h % 64 + 1) % 64 != seen % 64
    ensures h <= seen + 62
  {
  }

  lemma ProducerTests(s: Ring, refuse: bool, chunk: nat)
    requires Inv(s) && (s.prod.PIdle? || s.prod.PTail? || s.prod.PReady? || s.prod.PTest?)
    ensures Inv(StepProducer(s, refuse, chunk))
  {
    hide Offset, Intact, HoldsBytes, Waiting, ConsumerOk, Delivered, Kept;
    var s' := StepProducer(s, refuse, chunk);
    if s.prod.PTest? && s'.prod.PFreeze? {
      OneSlotGap(|s.frames|, s.prod.seen);
    }
    NothingTouched(s, Oldest(s));
    OthersKept(s, s');
  }

  lemma ProducerReadsBack(s: Ring, refuse: bool, chunk: nat)
    requires Inv(s) && (s.prod.PReadOffset? || s.prod.PReadLength? || (s.prod.PDma? && chunk == 0))
    ensures Inv(StepProducer(s, refuse, chunk))
  {
    hide Offset, Intact, HoldsBytes, Waiting, ConsumerOk, Delivered, Kept;
    var s' := StepProducer(s, refuse, chunk);
    if s.prod.PReadLength? {
      NothingHeld(s.mem, Offset(s.dst, s.prod.slot), s.prod.frame);
    }
    NothingTouched(s, Oldest(s));
    OthersKept(s, s');
  }

  lemma NothingHeld(mem: Memory, off: int, f: Frame)
    ensures HoldsBytes(mem, off, f, 0)
  {
  }

  /** The one-slot gap: a slot being filled before it is published is none of the slots in use. */
  lemma ProducerFills(s: Ring, refuse: bool, chunk: nat)
    requires Inv(s) && (s.prod.PFreeze? || s.prod.PLength?)
    ensures Inv(StepProducer(s, refuse, chunk))
  {
    hide Offset, HoldsBytes, Intact, ConsumerOk, Delivered, Waiting, Kept;
    var s' := StepProducer(s, refuse, chunk);
    PutKeeps(s, s', |s.frames|);
    OthersKept(s, s');
  }

  lemma ProducerPublishes(s: Ring, refuse: bool, chunk: nat)
    requires Inv(s) && s.prod.PPublish?
    ensures Inv(StepProducer(s, refuse, chunk))
  {
    hide Offset, Intact, ConsumerOk, Delivered, Waiting, Kept;
    var s' := StepProducer(s, refuse, chunk);
    NextIndex(|s.frames|);
    NothingTouched(s, Oldest(s));
    OthersKept(s, s');
  }

  lemma ProducerPlaces(s: Ring, refuse: bool, chunk: nat)
    requires Inv(s) && s.prod.POffset?
    ensures Inv(StepProducer(s, refuse, chunk))
  {
    hide Offset, HoldsBytes, Intact, ConsumerOk, Delivered, Waiting, Kept;
    var s' := StepProducer(s, refuse, chunk);
    PutKeeps(s, s', |s.frames| - 1);
    OthersKept(s, s');
  }

  lemma ProducerSettles(s: Ring, refuse: bool, chunk: nat)
    requires Inv(s) && s.prod.PSettle?
    ensures Inv(StepProducer(s, refuse, chunk))
  {
    hide Offset, HoldsBytes;
    var s' := StepProducer(s, refuse, chunk);
    var H := |s.frames|;
    PutKeeps(s, s', H - 1);
    assert Intact(AreaOf(s'), H - 1) && s'.slots[(H - 1) % 64].status == SETTLED;
    assert Shape(s') by { hide Intact, ConsumerOk, Waiting, Delivered, Kept; }
    assert Waiting(AreaOf(s'), |s.taken|) by { hide Intact, ConsumerOk, Delivered, ProducerOk; }
    assert ConsumerOk(s') by { hide Intact, Waiting, Delivered, ProducerOk; }
    assert Delivered(s'.taken, s'.settled) by { hide Intact, Waiting, ConsumerOk, ProducerOk, Kept; }
  }

  lemma ProducerMoves(s: Ring, refuse: bool, chunk: nat)
    requires Inv(s) && s.prod.PDma? && chunk > 0
    ensures Inv(StepProducer(s, refuse, chunk))
  {
    hide Intact, ConsumerOk, Delivered, Waiting, Offset, HoldsBytes, Written, Read, Kept;
    var s' := StepProducer(s, refuse, chunk);
    var PDma(f, i, off, len, sent) := s.prod;
    if sent + chunk <= len {
      BytesGrow(s.mem, s'.mem, off, f, sent, chunk);
      MemKeeps(s, s', |s.frames| - 1);
      OthersKept(s, s');
    }
  }

  lemma BytesGrow(mem: Memory, mem': Memory, off: int, f: Frame, sent: nat, chunk: nat)
    requires HoldsBytes(mem, off, f, sent) && sent + chunk <= |f| <= DESC_MAX_DMA_SIZE
    requires mem' == Written(mem, off, f, sent, chunk)
    ensures HoldsBytes(mem', off, f, sent + chunk)
    ensures forall a :: !(off <= a < off + DESC_MAX_DMA_SIZE) ==> Read(mem', a) == Read(mem, a)
  {
    hide Written;
    WrittenMeans(mem, off, f, sent, chunk);
  }

  // ---- the consumer's steps ----

  lemma ConsumerLooks(s: Ring, haveBuf: bool, chunk: nat)
    requires Inv(s)
    requires s.cons.CIdle? || s.cons.CTail? || s.cons.CSpin? || s.cons.CSettled? || s.cons.CInit? || s.cons.CReleased?
    ensures Inv(StepConsumer(s, haveBuf, chunk))
  {
    hide Offset, Intact, HoldsBytes, Delivered;
    var s' := StepConsumer(s, haveBuf, chunk);
    assert ProducerOk(s') by { hide Waiting, ConsumerOk; }
    assert ConsumerOk(s') by {
      if s.cons.CSpin? && |s.taken| == |s.settled| {
        StillFreezing(s);
      }
      hide ProducerOk;
    }
  }

  /** The slot at tail is FREEZING when the frame there has been published but not settled. */
  lemma StillFreezing(s: Ring)
    requires Shape(s) && ProducerOk(s) && |s.taken| == |s.settled| < |s.frames|
    ensures s.slots[|s.taken| % 64].status == FREEZING
  {
    hide Offset, HoldsBytes;
  }

  lemma ConsumerAdvances(s: Ring, haveBuf: bool, chunk: nat)
    requires Inv(s) && s.cons.CAdvance?
    ensures Inv(StepConsumer(s, haveBuf, chunk))
  {
    hide Offset, Intact, HoldsBytes;
    var s' := StepConsumer(s, haveBuf, chunk);
    NextIndex(|s.taken|);
    assert Intact(AreaOf(s), |s.taken|);
    assert ProducerOk(s') by { hide Waiting, ConsumerOk, Delivered; }
  }

  /** A step that changes only the consumer's position. */
  lemma LocalConsumer(s: Ring, s': Ring)
    requires Inv(s) && s' == s.(cons := s'.cons) && ConsumerOk(s')
    ensures Inv(s')
  {
    hide Offset, HoldsBytes, ConsumerOk, Waiting, Delivered;
  }

  lemma ConsumerReads(s: Ring, haveBuf: bool, chunk: nat)
    requires Inv(s) && (s.cons.CReadOffset? || (s.cons.CReadLength? && haveBuf) || s.cons.CDma?)
    ensures Inv(StepConsumer(s, haveBuf, chunk))
  {
    hide Offset, HoldsBytes, Fetched, Matches, Waiting, Delivered, ProducerOk;
    var s' := StepConsumer(s, haveBuf, chunk);
    if s.cons.CReadLength? {
      NothingRead(s.settled[|s.taken| - 1].payload, s.settled[|s.taken| - 1].moved);
    } else if s.cons.CDma? && chunk > 0 && |s.cons.buf| + chunk <= s.cons.len {
      ReadMatches(s, s.cons.slot, s.cons.buf, chunk);
    }
    LocalConsumer(s, s');
  }

  lemma ConsumerDrops(s: Ring, haveBuf: bool, chunk: nat)
    requires Inv(s) && s.cons.CReadLength? && !haveBuf
    ensures Inv(StepConsumer(s, haveBuf, chunk))
  {
    hide Offset, HoldsBytes, Intact, Matches, Waiting;
  }

  lemma NothingRead(f: Frame, moved: nat)
    ensures Matches([], f, moved)
  {
  }

  lemma ReadMatches(s: Ring, i: nat, buf: Frame, chunk: nat)
    requires Reading(s, i) && |buf| + chunk <= |s.settled[|s.taken| - 1].payload|
    requires Matches(buf, s.settled[|s.taken| - 1].payload, s.settled[|s.taken| - 1].moved)
    ensures var sent := s.settled[|s.taken| - 1];
            Matches(buf + Fetched(s.mem, Offset(s.dst, i) + |buf|, chunk), sent.payload, sent.moved)
  {
    hide Offset, Read;
  }

  /** Marking the slot of the taken frame RELEASED touches no slot in use: the producer cannot have
      been handed it, and no waiting frame lives there. */
  lemma ConsumerReleases(s: Ring, haveBuf: bool, chunk: nat)
    requires Inv(s) && s.cons.CRelease?
    ensures Inv(StepConsumer(s, haveBuf, chunk))
  {
    hide Offset, HoldsBytes, Matches;
    var s' := StepConsumer(s, haveBuf, chunk);
    var T := |s.taken|;
    assert Shape(s') by { hide ConsumerOk, ProducerOk, Waiting, Delivered; }
    assert Waiting(AreaOf(s'), T) by {
      hide ProducerOk, Delivered;
      ReleaseKeeps(s, s');
    }
    assert ProducerOk(s') by {
      hide Waiting, Delivered, Intact;
      Apart(s);
    }
    assert Delivered(s'.taken, s'.settled) by { hide ProducerOk, Waiting, Intact, Shape; }
  }

  lemma ReleaseKeeps(s: Ring, s': Ring)
    requires |s.slots| == |s'.slots| == 64 && |s.settled| <= |s.taken| + 63 && |s.taken| >= 1
    requires Waiting(AreaOf(s), |s.taken|)
    requires forall j :: 0 <= j < 64 && j != (|s.taken| - 1) % 64 ==> s'.slots[j] == s.slots[j]
    requires s'.mem == s.mem && s'.dst == s.dst && s'.settled == s.settled
    ensures Waiting(AreaOf(s'), |s.taken|)
  {
    hide HoldsBytes, Offset;
    forall k | |s.taken| <= k < |s.settled| ensures Intact(AreaOf(s'), k) && s'.slots[k % 64].status == SETTLED {
      ModDistinct(|s.taken| - 1, k);
      assert Intact(AreaOf(s), k);
    }
  }

  /** The producer's slot is not the consumer's. */
  lemma Apart(s: Ring)
    requires Shape(s) && ProducerOk(s) && ConsumerOk(s)
    ensures ProducerSlot(s).Some? && ConsumerSlot(s).Some? ==> ProducerSlot(s) != ConsumerSlot(s)
  {
    hide Offset, HoldsBytes, Matches, Intact;
    var H, T := |s.frames|, |s.taken|;
    if ProducerSlot(s).Some? && ConsumerSlot(s).Some? {
      var n := if Unsettled(s.prod) then H - 1 else H;
      assert ProducerSlot(s) == Some(n % 64);
      assert ConsumerSlot(s) == Some((T - 1) % 64);
      ModDistinct(T - 1, n);
    }
  }

  // ---- every run ----

  lemma SendKeeps(s: Ring, f: Frame)
    requires Inv(s)
    ensures Inv(Step(s, Send(f)))
  {
    hide Offset, Intact, HoldsBytes, Waiting, ConsumerOk, Delivered, Kept;
    NothingTouched(s, Oldest(s));
    OthersKept(s, Step(s, Send(f)));
  }

  lemma ElsewhereKeeps(s: Ring, a: int, v: Byte)
    requires Inv(s)
    ensures Inv(Step(s, Elsewhere(a, v)))
  {
    var s' := Step(s, Elsewhere(a, v));
    assert forall b :: Offset(s.dst, 0) <= b < Offset(s.dst + 1, 0) ==> Read(s'.mem, b) == Read(s.mem, b);
    assert ProducerOk(s') by {
      hide Intact, Waiting, ConsumerOk, Delivered;
      if ProducerSlot(s).Some? {
        OwnArea(s.mem, s'.mem, s.dst, ProducerSlot(s).value);
      }
      hide Read, Offset;
    }
    assert Kept(AreaOf(s), AreaOf(s'), 0) by {
      forall k | 0 <= k < |s.settled| && Intact(AreaOf(s), k) ensures Intact(AreaOf(s'), k) {
        OwnArea(s.mem, s'.mem, s.dst, k % 64);
      }
    }
    assert Shape(s') by { hide Intact, Waiting, ConsumerOk, ProducerOk; }
    KeptFrom(AreaOf(s), AreaOf(s'), Oldest(s));
    hide Intact, Waiting, ConsumerOk, ProducerOk, Kept, Delivered, Shape;
    OthersKept(s, s');
  }

  lemma KeptFrom(v: Area, v': Area, from: nat)
    requires Kept(v, v', 0)
    ensures Kept(v, v', from)
  {
    hide Intact;
  }

  /** The DMA area of every slot lies in its agent's part of memory. */
  lemma OwnArea(mem: Memory, mem': Memory, dst: nat, i: nat)
    requires i < 64
    requires forall b :: Offset(dst, 0) <= b < Offset(dst + 1, 0) ==> Read(mem', b) == Read(mem, b)
    ensures forall f: Frame, n: nat :: |f| <= DESC_MAX_DMA_SIZE && HoldsBytes(mem, Offset(dst, i), f, n) ==>
              HoldsBytes(mem', Offset(dst, i), f, n)
  {
    hide Read;
  }

  lemma StepKeepsInv(s: Ring, ev: Event)
    requires Inv(s)
    ensures Inv(Step(s, ev))
  {
    hide Inv, StepProducer, StepConsumer;
    match ev
    case Send(f) => SendKeeps(s, f);
    case Elsewhere(a, v) => ElsewhereKeeps(s, a, v);
    case Produce(refuse, chunk) =>
      match s.prod {
        case PFreeze(_, _) | PLength(_, _) => ProducerFills(s, refuse, chunk);
        case PPublish(_, _) => ProducerPublishes(s, refuse, chunk);
        case POffset(_, _) => ProducerPlaces(s, refuse, chunk);
        case PSettle(_, _, _) => ProducerSettles(s, refuse, chunk);
        case PDma(_, _, _, _, _) =>
          if chunk == 0 {
            ProducerReadsBack(s, refuse, chunk);
          } else {
            ProducerMoves(s, refuse, chunk);
          }
        case PReadOffset(_, _) | PReadLength(_, _, _) => ProducerReadsBack(s, refuse, chunk);
        case _ => ProducerTests(s, refuse, chunk);
      }
    case Consume(haveBuf, chunk) =>
      match s.cons {
        case CAdvance(_) => ConsumerAdvances(s, haveBuf, chunk);
        case CReadLength(_, _) =>
          if haveBuf {
            ConsumerReads(s, haveBuf, chunk);
          } else {
            ConsumerDrops(s, haveBuf, chunk);
          }
        case CReadOffset(_) | CDma(_, _, _, _) => ConsumerReads(s, haveBuf, chunk);
        case CRelease(_, _, _) => ConsumerReleases(s, haveBuf, chunk);
        case _ => ConsumerLooks(s, haveBuf, chunk);
      }
  }

  lemma {:induction false} InvAlways(s: Ring, evs: seq<Event>)
    requires Inv(s)
    ensures Inv(RunAll(s, evs))
    decreases |evs|
  {
    hide Inv, Step;
    if evs == [] {
    } else {
      StepKeepsInv(s, evs[0]);
      InvAlways(Step(s, evs[0]), evs[1..]);
    }
  }

  lemma InitInv(dst: nat, mem: Memory)
    requires dst < MAX_AGENT_NUM
    ensures Inv(Init(dst, mem))
  {
  }

  /** In every run, the slot the consumer is still reading, or about to mark RELEASED, is never the
      one handed to the producer, although tail has already moved past it. */
  lemma NeverHandedOver(dst: nat, mem: Memory, evs: seq<Event>)
    requires dst < MAX_AGENT_NUM
    ensures var s := RunAll(Init(dst, mem), evs);
            ProducerSlot(s).Some? && ConsumerSlot(s).Some? ==> ProducerSlot(s) != ConsumerSlot(s)
  {
    hide RunAll, Init;
    InitInv(dst, mem);
    InvAlways(Init(dst, mem), evs);
    Apart(RunAll(Init(dst, mem), evs));
  }

  /** In every run, what the consumer has taken is a prefix of what the producer has settled, in
      order; each length read is the length sent; and where both DMA transfers moved the whole
      length, the bytes read are the frame sent. */
  lemma DeliveredInOrder(dst: nat, mem: Memory, evs: seq<Event>)
    requires dst < MAX_AGENT_NUM
    ensures var s := RunAll(Init(dst, mem), evs);
            && |s.taken| <= |s.settled| <= |s.frames|
            && (forall k :: 0 <= k < |s.settled| ==> s.settled[k].payload == s.frames[k])
            && forall k :: 0 <= k < |s.taken| && s.taken[k].Got? ==>
                 var sent := s.settled[k];
                 && s.taken[k].length == |sent.payload|
                 && (sent.moved == |sent.payload| == |s.taken[k].bytes| ==> s.taken[k].bytes == sent.payload)
  {
    hide RunAll, Init;
    InitInv(dst, mem);
    InvAlways(Init(dst, mem), evs);
  }

  /** In every run, the slots from tail up to head are FREEZING or SETTLED, so the consumer never
      comes to the tests for INIT and RELEASED. */
  lemma BetweenTailAndHead(dst: nat, mem: Memory, evs: seq<Event>, d: nat)
    requires dst < MAX_AGENT_NUM
    ensures var s := RunAll(Init(dst, mem), evs);
            && s.head < |s.slots| == MAX_DESC_NUM && s.tail < MAX_DESC_NUM
            && !s.cons.CInit? && !s.cons.CReleased?
            && (d < (s.head + MAX_DESC_NUM - s.tail) % MAX_DESC_NUM ==>
                  var status := s.slots[(s.tail + d) % MAX_DESC_NUM].status; status == FREEZING || status == SETTLED)
  {
    hide RunAll, Init;
    InitInv(dst, mem);
    InvAlways(Init(dst, mem), evs);
    InUse(RunAll(Init(dst, mem), evs), d);
  }

  lemma InUse(s: Ring, d: nat)
    requires Inv(s)
    ensures d < (s.head + 64 - s.tail) % 64 ==>
              var status := s.slots[(s.tail + d) % 64].status; status == FREEZING || status == SETTLED
  {
    hide Offset, HoldsBytes, ConsumerOk, Delivered, Describes;
    var H, T, S := |s.frames|, |s.taken|, |s.settled|;
    RingDistance(H, T, d);
    if d < H - T {
      if T + d < S {
        assert Intact(AreaOf(s), T + d);
      } else {
        assert Unsettled(s.prod) && T + d == H - 1;
      }
    }
  }

  lemma RingDistance(h: nat, t: nat, d: nat)
    requires t <= h <= t + 63
    ensures (h % 64 + 64 - t % 64) % 64 == h - t && (t % 64 + d) % 64 == (t + d) % 64
  {
  }

  // ---- progress ----

  function ConsumeTimes(n: nat): seq<Event> { seq(n, _ => Consume(true, 0)) }

  lemma {:induction false} RunSnoc(s: Ring, evs: seq<Event>, ev: Event)
    ensures RunAll(s, evs + [ev]) == Step(RunAll(s, evs), ev)
    decreases |evs|
  {
    hide Step;
    if evs == [] {
      assert evs + [ev] == [ev] && [ev][1..] == [];
      assert RunAll(s, [ev]) == RunAll(Step(s, ev), [ev][1..]);
    } else {
      assert (evs + [ev])[1..] == evs[1..] + [ev];
      RunSnoc(Step(s, evs[0]), evs[1..], ev);
    }
  }

  lemma ConsumeMore(s: Ring, n: nat)
    ensures RunAll(s, ConsumeTimes(0)) == s
    ensures RunAll(s, ConsumeTimes(n + 1)) == StepConsumer(RunAll(s, ConsumeTimes(n)), true, 0)
  {
    hide StepConsumer;
    assert ConsumeTimes(0) == [] && ConsumeTimes(n + 1) == ConsumeTimes(n) + [Consume(true, 0)];
    RunSnoc(s, ConsumeTimes(n), Consume(true, 0));
  }

  /** The consumer's steps on a settled slot. */
  lemma FiveSteps(s: Ring)
    requires s.cons.CIdle? && s.head != s.tail && s.tail < |s.slots| && s.slots[s.tail].status == SETTLED
    ensures var s1 := StepConsumer(s, true, 0);
            var s2 := StepConsumer(s1, true, 0);
            var s3 := StepConsumer(s2, true, 0);
            var s4 := StepConsumer(s3, true, 0);
            StepConsumer(s4, true, 0)
              == s.(tail := (s.tail + 1) % MAX_DESC_NUM, taken := s.taken + [Pending], cons := CReadOffset(s.tail))
  {
    hide Fetched, Settle;
    var i := s.tail;
    assert StepConsumer(s, true, 0) == s.(cons := CTail(s.head, |s.frames|));
    assert StepConsumer(s.(cons := CTail(s.head, |s.frames|)), true, 0) == s.(cons := CSpin(i));
    assert StepConsumer(s.(cons := CSpin(i)), true, 0) == s.(cons := CSettled(i));
    assert StepConsumer(s.(cons := CSettled(i)), true, 0) == s.(cons := CAdvance(i));
  }

  /** In every reachable state with the consumer idle and a settled frame waiting, five of its steps take the
      next frame, and nothing else changes. */
  lemma ConsumerTakes(s: Ring)
    requires Inv(s) && s.cons.CIdle? && |s.settled| > |s.taken|
    ensures var s' := RunAll(s, ConsumeTimes(5));
            s' == s.(tail := (s.tail + 1) % MAX_DESC_NUM, taken := s.taken + [Pending], cons := CReadOffset(s.tail))
  {
    hide StepConsumer, RunAll;
    ConsumeMore(s, 0);
    ConsumeMore(s, 1);
    ConsumeMore(s, 2);
    ConsumeMore(s, 3);
    ConsumeMore(s, 4);
    SettledAtTail(s);
    FiveSteps(s);
  }

  lemma SettledAtTail(s: Ring)
    requires Inv(s) && |s.settled| > |s.taken|
    ensures s.head != s.tail && s.tail < |s.slots| && s.slots[s.tail].status == SETTLED
  {
    hide HoldsBytes, ProducerOk, ConsumerOk, Delivered, Describes;
    Ahead(|s.frames|, |s.taken|);
    assert Intact(AreaOf(s), |s.taken|);
  }

  lemma Ahead(h: nat, t: nat)
    requires t < h <= t + 63
    ensures h % 64 != t % 64
  {
  }

  /** The steps from a descriptor taken to its release, with a DMA that moves the whole length. */
  function Deliver(s: Ring, n: nat): Ring {
    var s1 := StepConsumer(s, true, 0);
    var s2 := StepConsumer(s1, true, 0);
    var s3 := if n == 0 then s2 else StepConsumer(s2, true, n);
    var s4 := StepConsumer(s3, true, 0);
    StepConsumer(s4, true, 0)
  }

  lemma DeliverIs(s: Ring, n: nat)
    requires s.cons.CReadOffset? && s.cons.slot < |s.slots| && s.slots[s.cons.slot].length == n
    ensures var i := s.cons.slot;
            var buf := Fetched(s.mem, s.slots[i].offset, n);
            Deliver(s, n) == s.(slots := s.slots[i := s.slots[i].(status := RELEASED)],
                                taken := Settle(s.taken, Got(n, buf)), cons := CIdle)
  {
    hide Fetched, Settle;
    var i := s.cons.slot;
    var off := s.slots[i].offset;
    var buf := Fetched(s.mem, off, n);
    FetchedLength(s.mem, off, n);
    assert StepConsumer(s, true, 0) == s.(cons := CReadLength(i, off));
    assert StepConsumer(s.(cons := CReadLength(i, off)), true, 0) == s.(cons := CDma(i, off, n, []));
    if n > 0 {
      assert [] + buf == buf;
      assert StepConsumer(s.(cons := CDma(i, off, n, [])), true, n) == s.(cons := CDma(i, off, n, buf));
    }
    assert StepConsumer(s.(cons := CDma(i, off, n, buf)), true, 0) == s.(cons := CRelease(i, n, buf));
  }

  /** So a waiting frame is delivered: its length and, as far as the producer's DMA had moved them, its
      bytes. */
  lemma ConsumerDelivers(s: Ring)
    requires Inv(s) && s.cons.CIdle? && |s.settled| > |s.taken|
    ensures var sent := s.settled[|s.taken|];
            var s' := Deliver(RunAll(s, ConsumeTimes(5)), |sent.payload|);
            && s'.cons == CIdle && |s'.taken| == |s.taken| + 1 && s'.taken[..|s.taken|] == s.taken
            && var got := s'.taken[|s.taken|];
               && got.Got? && got.length == |sent.payload| == |got.bytes|
               && (sent.moved == |sent.payload| ==> got.bytes == sent.payload)
  {
    hide RunAll, Inv, Deliver, Fetched, Reading, Offset;
    var T := |s.taken|;
    ConsumerTakes(s);
    InvAlways(s, ConsumeTimes(5));
    var s5 := RunAll(s, ConsumeTimes(5));
    var sent := s.settled[T];
    TakenIs(s5);
    DeliverIs(s5, |sent.payload|);
    NothingRead(sent.payload, sent.moved);
    ReadMatches(s5, s5.cons.slot, [], |sent.payload|);
    var off := Offset(s5.dst, s5.cons.slot);
    FetchedLength(s.mem, off, |sent.payload|);
    assert [] + Fetched(s.mem, off, |sent.payload|) == Fetched(s.mem, off, |sent.payload|);
  }

  lemma FetchedLength(mem: Memory, from: int, n: nat)
    ensures |Fetched(mem, from, n)| == n
    ensures n == 0 ==> Fetched(mem, from, n) == []
  {
  }

  /** What the slot of a frame just taken says. */
  lemma TakenIs(s: Ring)
    requires Inv(s) && s.cons.CReadOffset?
    ensures var i, T := s.cons.slot, |s.taken|;
            && T >= 1 && T <= |s.settled| && i < |s.slots| && Reading(s, i)
            && s.slots[i].offset == Offset(s.dst, i) && s.slots[i].length == |s.settled[T - 1].payload|
  {
    hide Offset, HoldsBytes, ProducerOk, Delivered, Waiting;
  }

  /** The producer's first four steps: take a frame, read head, tail and ready, test for room. */
  function Ask(s: Ring, f: Frame, refuse: bool): Ring {
    var s1 := Step(s, Send(f));
    var s2 := StepProducer(s1, refuse, 0);
    var s3 := StepProducer(s2, refuse, 0);
    StepProducer(s3, refuse, 0)
  }

  /** Its next four: status, length, head, offset. */
  function Claim(s: Ring, refuse: bool): Ring {
    var s1 := StepProducer(s, refuse, 0);
    var s2 := StepProducer(s1, refuse, 0);
    var s3 := StepProducer(s2, refuse, 0);
    StepProducer(s3, refuse, 0)
  }

  function Fetch(s: Ring, f: Frame, refuse: bool): Ring { Claim(Ask(s, f, refuse), refuse) }

  /** Slot i claimed for frame f. */
  function Claimed(s: Ring, f: Frame, i: nat): Slot
    requires i < |s.slots|
  {
    s.slots[i].(status := FREEZING, length := |f|, offset := Offset(s.dst, s.slots[i].pos))
  }

  predicate Room(s: Ring, refuse: bool) { s.ready && !refuse && (s.head + 1) % MAX_DESC_NUM != s.tail }

  lemma AskIs(s: Ring, f: Frame, refuse: bool)
    requires s.prod.PIdle? && |f| <= DESC_MAX_DMA_SIZE
    ensures Ask(s, f, refuse) == if Room(s, refuse) then s.(prod := PFreeze(f, s.head)) else s
  {
    hide Offset;
  }

  lemma ClaimIs(s: Ring, f: Frame, refuse: bool)
    requires s.head < |s.slots| && s.prod == PFreeze(f, s.head)
    ensures var i := s.head;
            Claim(s, refuse) ==
              s.(slots := s.slots[i := Claimed(s, f, i)],
                 head := (i + 1) % MAX_DESC_NUM, frames := s.frames + [f], prod := PReadOffset(f, i))
  {
    hide Offset;
  }

  lemma FetchIs(s: Ring, f: Frame, refuse: bool)
    requires s.prod.PIdle? && |f| <= DESC_MAX_DMA_SIZE && s.head < |s.slots|
    ensures var i := s.head;
            Fetch(s, f, refuse) ==
              if !Room(s, refuse) then s
              else s.(slots := s.slots[i := Claimed(s, f, i)],
                      head := (i + 1) % MAX_DESC_NUM, frames := s.frames + [f], prod := PReadOffset(f, i))
  {
    hide Offset, Ask;
    AskIs(s, f, refuse);
    if Room(s, refuse) {
      hide Claim;
      ClaimIs(s.(prod := PFreeze(f, s.head)), f, refuse);
    }
  }

  /** The steps of the producer from a frame handed over to its settling, with a DMA that moves it all. */
  function Deposit(s: Ring, f: Frame): Ring { SettleAll(Fetch(s, f, false), f) }

  /** Its last steps: read offset and length back, move the frame, settle it. */
  function SettleAll(s: Ring, f: Frame): Ring {
    var s2 := StepProducer(StepProducer(s, false, 0), false, 0);
    var s3 := if f == [] then s2 else StepProducer(s2, false, |f|);
    StepProducer(StepProducer(s3, false, 0), false, 0)
  }

  /** In every reachable state with the producer idle and fewer than 63 frames in use, a frame that is not
      refused is deposited: published, settled, and wholly moved. */
  lemma ProducerDeposits(s: Ring, f: Frame)
    requires Inv(s) && s.prod.PIdle? && s.ready && |f| <= DESC_MAX_DMA_SIZE && |s.frames| < |s.taken| + 63
    ensures var s' := Deposit(s, f);
            && s'.prod == PIdle && s'.frames == s.frames + [f] && s'.settled == s.settled + [Sent(f, |f|)]
            && s'.head == (s.head + 1) % MAX_DESC_NUM && s'.tail == s.tail && s'.taken == s.taken && s'.cons == s.cons
  {
    hide Inv, Deposit;
    RoomAtHead(s);
    DepositIs(s, f);
  }

  lemma RoomAtHead(s: Ring)
    requires Inv(s) && |s.frames| < |s.taken| + 63
    ensures (s.head + 1) % MAX_DESC_NUM != s.tail && s.head < |s.slots|
  {
    hide HoldsBytes, ProducerOk, ConsumerOk, Delivered, Describes, Waiting;
    var H, T := |s.frames|, |s.taken|;
    NextIndex(H);
    Ahead(T + 64, H + 1);
  }

  lemma DepositIs(s: Ring, f: Frame)
    requires s.prod.PIdle? && s.ready && |f| <= DESC_MAX_DMA_SIZE
    requires (s.head + 1) % MAX_DESC_NUM != s.tail && s.head < |s.slots|
    ensures var i := s.head;
            var off := Offset(s.dst, s.slots[i].pos);
            Deposit(s, f) == s.(slots := s.slots[i := Claimed(s, f, i).(status := SETTLED)],
                                head := (i + 1) % MAX_DESC_NUM, mem := Written(s.mem, off, f, 0, |f|),
                                frames := s.frames + [f], settled := s.settled + [Sent(f, |f|)])
  {
    hide Written, Offset, Fetch, SettleAll;
    FetchIs(s, f, false);
    SettleAllIs(Fetch(s, f, false), f, s.head, Offset(s.dst, s.slots[s.head].pos));
  }

  lemma SettleAllIs(s: Ring, f: Frame, i: nat, off: int)
    requires s.prod == PReadOffset(f, i) && i < |s.slots| && s.slots[i].offset == off && s.slots[i].length == |f|
    ensures SettleAll(s, f) ==
              s.(slots := s.slots[i := s.slots[i].(status := SETTLED)], mem := Written(s.mem, off, f, 0, |f|),
                 settled := s.settled + [Sent(f, |f|)], prod := PIdle)
  {
    hide Offset;
    if f == [] {
      assert Written(s.mem, off, f, 0, 0) == s.mem;
    }
    hide Written;
  }

  lemma FourKeep(s: Ring)
    requires Inv(s)
    ensures var s2 := StepProducer(StepProducer(s, false, 0), false, 0);
            Inv(s2) && Inv(StepProducer(StepProducer(s2, false, 0), false, 0))
  {
    hide Inv, StepProducer;
    var s1 := StepProducer(s, false, 0);
    var s2 := StepProducer(s1, false, 0);
    var s3 := StepProducer(s2, false, 0);
    StepKeepsInv(s, Produce(false, 0));
    StepKeepsInv(s1, Produce(false, 0));
    StepKeepsInv(s2, Produce(false, 0));
    StepKeepsInv(s3, Produce(false, 0));
  }

  lemma DepositKeeps(s: Ring, f: Frame)
    requires Inv(s)
    ensures Inv(Deposit(s, f))
  {
    hide Inv, StepProducer;
    var s1 := Step(s, Send(f));
    StepKeepsInv(s, Send(f));
    StepKeepsInv(s1, Produce(false, 0));
    StepKeepsInv(StepProducer(s1, false, 0), Produce(false, 0));
    StepKeepsInv(StepProducer(StepProducer(s1, false, 0), false, 0), Produce(false, 0));
    var s2 := Ask(s, f, false);
    FourKeep(s2);
    var s3 := Claim(s2, false);
    FourKeep(s3);
    var s4 := StepProducer(StepProducer(s3, false, 0), false, 0);
    StepKeepsInv(s4, Produce(false, |f|));
    var s5 := if f == [] then s4 else StepProducer(s4, false, |f|);
    FourKeep(s5);
  }

  /** From every reachable state with both sides idle, nothing waiting and room in the ring, a frame
      deposited and then taken arrives as it was sent. */
  lemma FrameArrives(s: Ring, f: Frame)
    requires Inv(s) && s.prod.PIdle? && s.cons.CIdle? && s.ready && |f| <= DESC_MAX_DMA_SIZE
    requires |s.settled| == |s.taken|
    ensures var s1 := Deposit(s, f);
            var s2 := Deliver(RunAll(s1, ConsumeTimes(5)), |f|);
            s2.cons == CIdle && |s2.taken| == |s.taken| + 1 && s2.taken[|s.taken|] == Got(|f|, f)
  {
    hide Inv, Deposit, Deliver, RunAll;
    NothingInUse(s);
    ProducerDeposits(s, f);
    DepositKeeps(s, f);
    ConsumerDelivers(Deposit(s, f));
  }

  lemma NothingInUse(s: Ring)
    requires Inv(s) && s.prod.PIdle? && |s.settled| == |s.taken|
    ensures |s.frames| == |s.taken|
  {
    hide HoldsBytes, ProducerOk, ConsumerOk, Delivered, Waiting;
  }
}
