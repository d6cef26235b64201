/** The event ring of xhci_poll_events_and_mouse (cosmos_usb.cpp) against a controller that
    may produce an event between any two looks, as long as it respects the dequeue pointer
    last published to it (section 4.9.4 of the xHCI specification). */
module EventRing {
  import opened RingIndex
  import opened XhciRings

  const SIZE := 256

  /** enq, pcs and erdp are the controller's; idx is the loop's curr_idx, dequeue and cycle
      the driver's globals.  `produced`, `consumed` and `published` are histories: payloads
      written, payloads read, and how many had been read when ERDP was last written. */
  datatype State = State(slots: seq<Trb>, enq: int, pcs: int, erdp: int,
                         idx: int, dequeue: int, cycle: int, polling: bool,
                         produced: seq<Trb>, consumed: seq<Trb>, published: nat)

  /** Advancing the enqueue pointer must not make it equal to the published dequeue pointer. */
  predicate Full(s: State) { (s.enq + 1) % SIZE == s.erdp }

  /** The controller writes one event, if it may. */
  function Produce(s: State, event: Trb): State
    requires |s.slots| == SIZE && 0 <= s.enq < SIZE
  {
    if Full(s) then s else
    s.(slots := s.slots[s.enq := WithCycle(event, s.pcs)],
       enq := if s.enq + 1 == SIZE then 0 else s.enq + 1,
       pcs := if s.enq + 1 == SIZE then 1 - s.pcs else s.pcs,
       produced := s.produced + [Payload(event)])
  }

  /** A call of the poll routine starts from the published index. */
  function Begin(s: State): State {
    if s.polling then s else s.(polling := true, idx := s.dequeue)
  }

  /** The loop's test: does the slot at curr_idx carry the expected cycle bit? */
  predicate Ready(s: State)
    requires |s.slots| == SIZE && 0 <= s.idx < SIZE
  {
    CycleBit(s.slots[s.idx]) == s.cycle
  }

  /** One look: take the event, or leave the loop and publish if the index moved. */
  function Look(s: State): State
    requires |s.slots| == SIZE && 0 <= s.idx < SIZE
  {
    if !s.polling then s
    else if Ready(s) then
      s.(consumed := s.consumed + [Payload(s.slots[s.idx])],
         idx := if s.idx + 1 >= SIZE then 0 else s.idx + 1,
         cycle := if s.idx + 1 >= SIZE then 1 - s.cycle else s.cycle)
    else if s.idx != s.dequeue then
      s.(polling := false, dequeue := s.idx, erdp := s.idx, published := |s.consumed|)
    else s.(polling := false)
  }

  // ----- the invariant

  /** The slots hold the last lap of events, each stamped with its lap's cycle bit, and the
      slots never written still carry cycle bit 0. */
  ghost predicate SlotsHold(slots: seq<Trb>, produced: seq<Trb>) {
    && |slots| == SIZE
    && (forall n {:trigger produced[n]} :: 0 <= n < |produced| && |produced| - SIZE <= n
          ==> slots[Slot(n, SIZE)] == WithCycle(produced[n], Cycle(n, SIZE)))
    && (forall n :: |produced| <= n < SIZE ==> CycleBit(slots[n]) == 0)
    && (forall n :: 0 <= n < |produced| ==> produced[n].w3 % 2 == 0)
  }

  ghost predicate Inv(s: State) {
    var p, c, d := |s.produced|, |s.consumed|, s.published;
    && d <= c <= p && p - d < SIZE
    && s.consumed == s.produced[..c]
    && SlotsHold(s.slots, s.produced)
    && s.enq == Slot(p, SIZE) && s.pcs == Cycle(p, SIZE)
    && s.idx == Slot(c, SIZE) && s.cycle == Cycle(c, SIZE)
    && s.erdp == Slot(d, SIZE) && s.dequeue == Slot(d, SIZE)
    && (!s.polling ==> c == d)
  }

  /** A fresh ring: zeroed slots, both sides at slot 0, expected cycle bit 1. */
  predicate Fresh(s: State) {
    && |s.slots| == SIZE && (forall n :: 0 <= n < SIZE ==> CycleBit(s.slots[n]) == 0)
    && s.enq == 0 && s.pcs == 1 && s.erdp == 0
    && s.idx == 0 && s.dequeue == 0 && s.cycle == 1 && !s.polling
    && s.produced == [] && s.consumed == [] && s.published == 0
  }

  lemma FreshIsInv(s: State)
    requires Fresh(s)
    ensures Inv(s)
  {
  }

  /** The controller sees a full ring exactly when 255 events wait for publication. */
  lemma FullMeans(s: State)
    requires Inv(s)
    ensures Full(s) <==> |s.produced| - s.published == SIZE - 1
  {
    hide SlotsHold, Cycle, Slot;
    var p, d := |s.produced|, s.published;
    NextItem(p, SIZE);
    SlotInRange(p, SIZE);
    assert (s.enq + 1) % SIZE == Slot(p + 1, SIZE);
    if p + 1 - d == SIZE {
      LapBack(p + 1, SIZE);
    } else {
      SlotsDiffer(d, p + 1, SIZE);
    }
  }

  /** Writing the next event overwrites only the slot one lap back. */
  lemma SlotsHoldAfter(slots: seq<Trb>, produced: seq<Trb>, event: Trb)
    requires SlotsHold(slots, produced)
    ensures var p := |produced|;
            && 0 <= Slot(p, SIZE) < SIZE
            && SlotsHold(slots[Slot(p, SIZE) := WithCycle(event, Cycle(p, SIZE))], produced + [Payload(event)])
  {
    hide Slot, Cycle;
    var p := |produced|;
    SlotInRange(p, SIZE);
    var slots' := slots[Slot(p, SIZE) := WithCycle(event, Cycle(p, SIZE))];
    var produced' := produced + [Payload(event)];
    forall n {:trigger produced'[n]} | 0 <= n < |produced'| && |produced'| - SIZE <= n
      ensures 0 <= Slot(n, SIZE) < SIZE
      ensures slots'[Slot(n, SIZE)] == WithCycle(produced'[n], Cycle(n, SIZE))
    {
      SlotInRange(n, SIZE);
      if n < p {
        SlotsDiffer(n, p, SIZE);
        assert produced'[n] == produced[n];
      }
    }
    if p < SIZE {
      FirstLap(p, SIZE);
    }
  }

  lemma ProduceKeeps(s: State, event: Trb)
    requires Inv(s)
    ensures SlotInRangeFor(s)
    ensures Inv(Produce(s, event))
    ensures !Full(s) ==> Produce(s, event).produced == s.produced + [Payload(event)]
  {
    hide Slot, Cycle, SlotsHold, Full;
    var p := |s.produced|;
    SlotInRange(p, SIZE);
    SlotInRange(|s.consumed|, SIZE);
    assert |s.slots| == SIZE by { SlotsCount(s); }
    FullMeans(s);
    if !Full(s) {
      NextItem(p, SIZE);
      SlotsHoldAfter(s.slots, s.produced, event);
    }
  }

  lemma SlotsCount(s: State)
    requires SlotsHold(s.slots, s.produced)
    ensures |s.slots| == SIZE
  {
  }

  predicate SlotInRangeFor(s: State) {
    |s.slots| == SIZE && 0 <= s.enq < SIZE && 0 <= s.idx < SIZE
  }

  /** The cycle bit tells the truth: the slot at the index is ready exactly when an event is
      waiting, and then it holds the oldest one. */
  lemma ReadyMeansWaiting(s: State)
    requires Inv(s)
    ensures SlotInRangeFor(s)
    ensures Ready(s) <==> |s.consumed| < |s.produced|
    ensures Ready(s) ==> Payload(s.slots[s.idx]) == s.produced[|s.consumed|]
  {
    hide Slot, Cycle;
    var p, c := |s.produced|, |s.consumed|;
    SlotInRange(c, SIZE);
    SlotInRange(p, SIZE);
    if c < p {
      assert s.slots[Slot(c, SIZE)] == WithCycle(s.produced[c], Cycle(c, SIZE));
    } else if p >= SIZE {
      LapBack(p, SIZE);
      var n := p - SIZE;
      SlotInRange(n, SIZE);
      assert s.slots[Slot(n, SIZE)] == WithCycle(s.produced[n], Cycle(n, SIZE));
    } else {
      FirstLap(p, SIZE);
    }
  }

  /** A look takes the oldest waiting event, or finds that none waits and ends the poll with
      everything published: an index that moved by 1 to 255 slots is a different index. */
  lemma LookKeeps(s: State)
    requires Inv(s)
    ensures SlotInRangeFor(s)
    ensures Inv(Look(s)) && Look(s).produced == s.produced
    ensures s.polling && |s.consumed| < |s.produced| ==>
              Look(s).polling && Look(s).consumed == s.consumed + [s.produced[|s.consumed|]]
    ensures s.polling && |s.consumed| == |s.produced| ==>
              !Look(s).polling && Look(s).consumed == s.produced && Look(s).published == |s.produced|
  {
    hide Slot, Cycle, SlotsHold, Ready;
    ReadyMeansWaiting(s);
    var c, d := |s.consumed|, s.published;
    SlotInRange(c, SIZE);
    NextItem(c, SIZE);
    if s.polling && !Ready(s) && d < c {
      SlotsDiffer(d, c, SIZE);
    }
    if s.polling && Ready(s) {
      assert s.produced[..c + 1] == s.produced[..c] + [s.produced[c]];
    }
  }

  /** While an event waits the controller does not write where the driver looks, so it makes no
      difference whether it writes before or after the driver takes it. */
  lemma ProduceCommutes(s: State, event: Trb)
    requires Inv(s) && s.polling && SlotInRangeFor(s) && Ready(s)
    ensures SlotInRangeFor(Look(s)) && SlotInRangeFor(Produce(s, event)) && Ready(Produce(s, event))
    ensures Full(Look(s)) == Full(s) && Look(Produce(s, event)) == Produce(Look(s), event)
  {
    hide Slot, Cycle, SlotsHold, WithCycle, CycleBit;
    ReadyMeansWaiting(s);
    SlotsDiffer(|s.consumed|, |s.produced|, SIZE);
  }

  lemma BeginKeeps(s: State)
    requires Inv(s)
    ensures Inv(Begin(s)) && Begin(s).polling
  {
  }

  // ----- whole runs

  datatype Action = Produces(event: Trb) | Begins | Looks

  ghost function Step(s: State, a: Action): (r: State)
    requires Inv(s)
    ensures Inv(r)
  {
    ProduceKeeps(s, if a.Produces? then a.event else Trb(0, 0, 0, 0));
    LookKeeps(s);
    BeginKeeps(s);
    match a
    case Produces(event) => Produce(s, event)
    case Begins => Begin(s)
    case Looks => Look(s)
  }

  ghost function Run(s: State, actions: seq<Action>): (r: State)
    requires Inv(s)
    ensures Inv(r)
  {
    if actions == [] then s else Step(Run(s, actions[..|actions| - 1]), actions[|actions| - 1])
  }

  /** For every interleaving and any number of laps: what was consumed is exactly the oldest
      part of what was produced, once each and in order; at most 255 events are ever between
      two publications; and whenever no poll is under way, everything consumed is published. */
  lemma EventsArriveOnceInOrder(s: State, actions: seq<Action>)
    requires Fresh(s)
    ensures Inv(s)
    ensures var r := Run(s, actions);
            && r.consumed <= r.produced
            && |r.produced| - r.published <= SIZE - 1
            && (!r.polling ==> r.published == |r.consumed|)
  {
  }

  /** A poll left alone ends: after a look that many events later at most 255 were taken since
      the last publication, everything produced is consumed and published, and the loop is left. */
  lemma {:induction false} PollEnds(s: State, looks: nat)
    requires Inv(s) && s.polling && looks == |s.produced| - |s.consumed|
    ensures looks <= SIZE - 1
    ensures var r := Run(s, seq(looks + 1, _ => Looks));
            !r.polling && r.consumed == s.produced == r.produced && r.published == |r.consumed|
  {
    LooksTake(s, looks);
    var all := seq(looks + 1, _ => Looks);
    assert all[..looks] == seq(looks, _ => Looks);
    LookKeeps(Run(s, all[..looks]));
  }

  lemma {:induction false} LooksTake(s: State, k: nat)
    requires Inv(s) && s.polling && k <= |s.produced| - |s.consumed|
    ensures var r := Run(s, seq(k, _ => Looks));
            r.polling && r.produced == s.produced && r.consumed == s.produced[..|s.consumed| + k]
  {
    hide Inv, Look, Begin, Produce;
    Outstanding(s);
    if k > 0 {
      var all := seq(k, _ => Looks);
      assert all[..k - 1] == seq(k - 1, _ => Looks);
      LooksTake(s, k - 1);
      LookKeeps(Run(s, all[..k - 1]));
    }
  }

  // ----- the code

  class EventPoller {
    var slots: array<Trb>           // the ring in memory
    var enq: int                    // the controller's registers
    var pcs: int
    var erdp: int
    var dequeueIdx: int             // global_xhci_event_dequeue_idx
    var eventCycle: int             // global_xhci_event_cycle
    ghost var produced: seq<Trb>
    ghost var consumed: seq<Trb>
    ghost var published: nat

    /** The state while a poll's local index is `curr`. */
    ghost function At(curr: int, polling: bool): State
      reads this, slots
    {
      State(slots[..], enq, pcs, erdp, curr, dequeueIdx, eventCycle, polling, produced, consumed, published)
    }

    ghost predicate Valid()
      reads this, slots
    {
      Inv(At(dequeueIdx, false))
    }

    constructor ()
      ensures Valid() && fresh(slots) && produced == consumed == []
      ensures slots.Length == 256 && dequeueIdx == 0 && eventCycle == 1
    {
      slots := new Trb[SIZE](_ => Trb(0, 0, 0, 0));
      enq, pcs, erdp := 0, 1, 0;
      dequeueIdx, eventCycle := 0, 1;
      produced, consumed, published := [], [], 0;
      new;
      FreshIsInv(At(0, false));
    }

    /** The controller writes events until the batch or the room it may use is exhausted. */
    method ControllerWrites(batch: seq<Trb>, ghost curr: int, ghost polling: bool)
      requires Inv(At(curr, polling))
      modifies this`enq, this`pcs, this`produced, slots
      ensures Inv(At(curr, polling))
      ensures old(produced) <= produced
    {
      hide Inv, Produce, Full;
      for i := 0 to |batch|
        invariant Inv(At(curr, polling)) && old(produced) <= produced
      {
        ProduceKeeps(At(curr, polling), batch[i]);
        ControllerWrites1(batch[i], curr, polling);
      }
    }

    /** The controller writes one event, if it may. */
    method ControllerWrites1(event: Trb, ghost curr: int, ghost polling: bool)
      requires SlotInRangeFor(At(curr, polling))
      modifies this`enq, this`pcs, this`produced, slots
      ensures SlotInRangeFor(old(At(curr, polling))) && At(curr, polling) == Produce(old(At(curr, polling)), event)
      ensures produced == old(produced) || produced == old(produced) + [Payload(event)]
    {
      hide WithCycle;
      ghost var before := At(curr, polling);
      if (enq + 1) % SIZE != erdp {
        slots[enq] := WithCycle(event, pcs);
        produced := produced + [Payload(event)];
        enq := enq + 1;
        if enq == SIZE {
          enq := 0;
          pcs := 1 - pcs;
        }
      }
      assert slots[..] == Produce(before, event).slots;
    }

    /** The loop's body: the event at curr_idx is taken. */
    method Take(currIdx: int) returns (next: int)
      requires SlotInRangeFor(At(currIdx, true)) && Ready(At(currIdx, true))
      modifies this`eventCycle, this`consumed
      ensures SlotInRangeFor(old(At(currIdx, true))) && At(next, true) == Look(old(At(currIdx, true)))
      ensures consumed == old(consumed) + [old(Payload(slots[currIdx]))]
    {
      hide WithCycle, CycleBit;
      consumed := consumed + [Payload(slots[currIdx])];
      next := currIdx + 1;
      if next >= SIZE {
        next := 0;
        eventCycle := 1 - eventCycle;
      }
    }

    /** The end of the routine: ERDP is written if the index moved. */
    method Publish(currIdx: int)
      requires SlotInRangeFor(At(currIdx, true)) && !Ready(At(currIdx, true))
      modifies this`dequeueIdx, this`erdp, this`published
      ensures SlotInRangeFor(old(At(currIdx, true))) && At(dequeueIdx, false) == Look(old(At(currIdx, true)))
    {
      if currIdx != dequeueIdx {
        dequeueIdx := currIdx;
        erdp := currIdx;
        published := |consumed|;
      }
    }

    /** xhci_poll_events_and_mouse's loop over the ring at `base` (null when not set up).
        env[i] is what the controller tries to write just before look i.  Every event of
        every batch so far that the controller managed to write has been taken when the
        routine returns, once and in order, within 255 turns. */
    method Poll(base: int, env: seq<seq<Trb>>) returns (turns: nat)
      requires Valid()
      modifies this, slots
      ensures Valid() && slots == old(slots)
      ensures old(produced) <= produced && old(consumed) <= consumed
      ensures base == 0 ==> turns == 0 && consumed == old(consumed) && erdp == old(erdp)
      ensures base != 0 ==> consumed == produced && published == |consumed|
      ensures turns == |consumed| - |old(consumed)| <= 255
      ensures base != 0 ==> erdp == dequeueIdx == |consumed| % 256
    {
      hide Inv, Look, Ready, Begin, SlotInRangeFor;
      turns := 0;
      if base == 0 {
        return;
      }
      var currIdx := dequeueIdx;
      PollBegins(At(currIdx, false));
      while true
        modifies this`enq, this`pcs, this`produced, this`eventCycle, this`consumed, slots
        invariant Inv(At(currIdx, true))
        invariant old(produced) <= produced && old(consumed) <= consumed
        invariant turns == |consumed| - |old(consumed)| && published == |old(consumed)|
        decreases SIZE - turns
      {
        if turns < |env| {
          ControllerWrites(env[turns], currIdx, true);
        }
        ghost var before := At(currIdx, true);
        LookKeeps(before);
        ReadyMeansWaiting(before);
        Outstanding(before);
        InRange(before);
        if slots[currIdx].w3 % 2 != eventCycle {
          break;
        }
        currIdx := Take(currIdx);
        turns := turns + 1;
      }
      Publish(currIdx);
      PublishedIs(At(dequeueIdx, false));
    }
  }

  /** Outside a poll the controller knows where the driver is. */
  lemma PublishedIs(s: State)
    requires Inv(s) && !s.polling
    ensures s.erdp == s.dequeue == |s.consumed| % 256
  {
  }

  /** How a poll begins. */
  lemma PollBegins(s: State)
    requires Inv(s) && !s.polling
    ensures Inv(s.(polling := true)) && s.idx == s.dequeue && s.published == |s.consumed|
  {
    BeginKeeps(s);
  }

  lemma Outstanding(s: State)
    requires Inv(s)
    ensures |s.consumed| <= |s.produced| && |s.produced| - s.published < SIZE && s.published <= |s.consumed|
    ensures s.consumed == s.produced[..|s.consumed|]
  {
  }

  /** What the code reads in range. */
  lemma InRange(s: State)
    requires Inv(s)
    ensures |s.slots| == SIZE && 0 <= s.idx < SIZE && SlotInRangeFor(s)
    ensures Ready(s) <==> s.slots[s.idx].w3 % 2 == s.cycle
  {
    SlotInRange(|s.consumed|, SIZE);
    SlotInRange(|s.produced|, SIZE);
  }
}
