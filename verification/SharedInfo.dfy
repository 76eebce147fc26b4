/** One host's shared-memory area as the driver's functions see it: each function run without
    interference, updating the area in place, is a run of the step machine of PacketRing. */
module SharedInfo {
  import opened Bits
  import opened Hardware
  import opened PacketRing

  /** What a look at the ring comes to: nothing there, a descriptor taken, or a spin on one. */
  datatype Answer = Nothing | Taken(desc: nat) | Spinning(desc: nat)

  class PacketsInfo {
    const hostId: nat
    var head: nat
    var tail: nat
    var ready: bool
    var slots: array<Slot>
    ghost var model: Ring     // the same area in the step machine, with both sides and the history

    ghost predicate Valid()
      reads this, slots
    {
      && slots.Length == MAX_DESC_NUM && head < MAX_DESC_NUM && tail < MAX_DESC_NUM
      && model.dst == hostId && model.head == head && model.tail == tail
      && model.ready == ready && model.slots == slots[..]
    }

    /** `adapter_info_init`: clear the area, mark it ready, number the descriptors. */
    constructor AdapterInfoInit(dst: nat, ghost mem: Memory)
      ensures Valid() && model == Init(dst, mem) && fresh(slots)
      ensures hostId == dst && head == tail == 0 && ready
      ensures forall i :: 0 <= i < MAX_DESC_NUM ==> slots[i] == Slot(i, 0, 0, INIT)
    {
      hostId, head, tail, ready := dst, 0, 0, true;
      slots := new Slot[MAX_DESC_NUM](_ => Slot(0, 0, 0, INIT));
      new;
      for pos := 0 to MAX_DESC_NUM
        invariant fresh(slots) && hostId == dst && slots.Length == MAX_DESC_NUM && head == tail == 0 && ready
        invariant forall i :: 0 <= i < MAX_DESC_NUM ==> slots[i] == Slot(if i < pos then i else 0, 0, 0, INIT)
      {
        slots[pos] := slots[pos].(pos := pos);
      }
      model := Init(dst, mem);
    }

    /** `fetch_packet_desc`; `refuse` is the outcome of the byte-budget test, whose operand the code
        never initialises. */
    method FetchPacketDesc(frame: Frame, refuse: bool) returns (desc: Option<nat>)
      requires Valid() && model.prod.PIdle? && |frame| <= DESC_MAX_DMA_SIZE
      modifies this`head, this`model, slots
      ensures Valid() && model == Fetch(old(model), frame, refuse)
      ensures desc == if model.prod.PReadOffset? then Some(model.prod.slot) else None
      ensures desc == if ready && !refuse && (old(head) + 1) % 64 != tail then Some(old(head)) else None
      ensures desc.None? ==> head == old(head) && slots[..] == old(slots[..])
      ensures desc.Some? ==>
                var i := old(head);
                var pos := old(slots[i].pos);
                && head == (i + 1) % 64
                && slots[..] == old(slots[..])[i := Slot(pos, 0x2_0000 * hostId + 0x800 * pos, |frame|, FREEZING)]
    {
      hide And, Fetch;
      FetchIs(model, frame, refuse);
      model := Fetch(model, frame, refuse);
      var h, t := head, tail;
      AndMaskAt(h + 1, 6, 0x40);
      if !ready || refuse || And(h + 1, MAX_DESC_NUM - 1) == t {
        return None;
      }
      slots[h] := slots[h].(status := FREEZING);
      slots[h] := slots[h].(length := |frame|);
      head := (h + 1) % MAX_DESC_NUM;
      slots[h] := slots[h].(offset := Offset(hostId, slots[h].pos));
      return Some(h);
    }

    /** The end of `nupanet_xmit_frame`: the DMA is over, the descriptor is settled. */
    method SettleDesc(desc: nat)
      requires Valid() && model.prod.PSettle? && model.prod.slot == desc < MAX_DESC_NUM
      modifies this`model, slots
      ensures Valid() && model == StepProducer(old(model), false, 0)
      ensures slots[..] == old(slots[..])[desc := old(slots[desc]).(status := SETTLED)]
    {
      slots[desc] := slots[desc].(status := SETTLED);
      model := StepProducer(model, false, 0);
    }

    /** `nupa_data_available`, up to its answer or to a turn of the spin on a FREEZING descriptor, from
        which it goes on when called again with the place it spins at. */
    method DataAvailable(at: Option<nat>) returns (answer: Answer)
      requires Valid()
      requires if at.Some? then model.cons == CSpin(at.value) && at.value < MAX_DESC_NUM else model.cons.CIdle?
      modifies this`tail, this`model
      ensures Valid() && model == Look(old(model))
      ensures answer == (match model.cons
                         case CSpin(i) => Spinning(i)
                         case CReadOffset(i) => Taken(i)
                         case _ => Nothing)
      ensures var t := if at.Some? then at.value else old(tail);
              if at.None? && old(head) == old(tail) then answer == Nothing && tail == old(tail)
              else match slots[t].status
                   case FREEZING => answer == Spinning(t) && tail == old(tail)
                   case SETTLED => answer == Taken(t) && tail == (t + 1) % 64
                   case _ => answer == Nothing && tail == old(tail)
    {
      hide Look;
      var t := tail;
      LookIs(model);
      model := Look(model);
      if at.Some? {
        t := at.value;
      } else if head == t {
        return Nothing;
      }
      if slots[t].status == FREEZING {
        return Spinning(t);
      }
      if slots[t].status == SETTLED {
        tail := (t + 1) % MAX_DESC_NUM;
      } else if slots[t].status == INIT || slots[t].status == RELEASED {
        return Nothing;
      }
      return Taken(t);
    }

    /** The end of a turn of `nupanet_poll`. */
    method ReleaseDesc(desc: nat)
      requires Valid() && model.cons.CRelease? && model.cons.slot == desc < MAX_DESC_NUM
      modifies this`model, slots
      ensures Valid() && model == StepConsumer(old(model), true, 0)
      ensures slots[..] == old(slots[..])[desc := old(slots[desc]).(status := RELEASED)]
    {
      slots[desc] := slots[desc].(status := RELEASED);
      model := StepConsumer(model, true, 0);
    }
  }

  /** The steps of the consumer up to its answer, or to a turn of its spin. */
  function Look(s: Ring): Ring {
    var s1 := if s.cons.CIdle? then StepConsumer(StepConsumer(s, true, 0), true, 0) else s;
    var s2 := if s1.cons.CSpin? then StepConsumer(s1, true, 0) else s1;
    if !s2.cons.CSettled? then s2
    else
      var s3 := StepConsumer(s2, true, 0);
      var s4 := StepConsumer(s3, true, 0);
      if s4.cons.CReleased? then StepConsumer(s4, true, 0) else s4
  }

  lemma LookIs(s: Ring)
    requires s.cons.CIdle? || s.cons.CSpin?
    ensures var t := if s.cons.CSpin? then s.cons.slot else s.tail;
            Look(s) ==
              if s.cons.CIdle? && s.head == s.tail then s
              else match SlotAt(s, t).status
                   case FREEZING => s.(cons := CSpin(t))
                   case SETTLED =>
                     s.(tail := (t + 1) % MAX_DESC_NUM, taken := s.taken + [Pending], cons := CReadOffset(t))
                   case _ => s.(cons := CIdle)
  {
    hide Settle, Fetched;
    if s.cons.CIdle? {
      var s2 := StepConsumer(StepConsumer(s, true, 0), true, 0);
      assert s2 == s.(cons := if s.head == s.tail then CIdle else CSpin(s.tail));
      if s.head != s.tail {
        LookOn(s2);
      }
    } else {
      LookOn(s);
    }
  }

  /** From the spin on. */
  lemma LookOn(s: Ring)
    requires s.cons.CSpin?
    ensures var t := s.cons.slot;
            Look(s) == match SlotAt(s, t).status
                       case FREEZING => s
                       case SETTLED =>
                         s.(tail := (t + 1) % MAX_DESC_NUM, taken := s.taken + [Pending], cons := CReadOffset(t))
                       case _ => s.(cons := CIdle)
  {
    hide Settle, Fetched;
    var t := s.cons.slot;
    assert StepConsumer(s, true, 0) == if SlotAt(s, t).status == FREEZING then s else s.(cons := CSettled(t));
    if SlotAt(s, t).status != FREEZING {
      var next := if SlotAt(s, t).status == SETTLED then CAdvance(t) else CInit(t);
      assert StepConsumer(s.(cons := CSettled(t)), true, 0) == s.(cons := next);
    }
  }
}
