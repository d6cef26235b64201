/** xhci_poll_events_and_mouse whole: the loop over the event ring with the mouse handler in it, which
    submits the next read, while the controller acts between any two of its steps. */
module UsbMouse {
  import E = EventRing
  import opened MouseChannel
  import opened RingIndex
  import T = TransferRing
  import opened XhciRings

  /** The event at the index is still there to be taken. */
  predicate Waits(er: E.State) { er.polling && E.SlotInRangeFor(er) && E.Ready(er) }

  /** The event ring as the machine has it while the handler runs: the event is taken. */
  function Handled(er: E.State, handling: bool): E.State { if handling && Waits(er) then E.Look(er) else er }

  class MouseDriver {
    const events: E.EventPoller
    const mouse: T.MouseRing
    var completed: nat              // transfers the controller has reported
    ghost var failed: nat
    ghost var trace: seq<Action>    // everything both sides did, oldest first

    constructor (events: E.EventPoller, mouse: T.MouseRing)
      ensures this.events == events && this.mouse == mouse && completed == failed == 0 && trace == []
    {
      this.events, this.mouse := events, mouse;
      completed, failed, trace := 0, 0, [];
    }

    /** The machine's state while the loop is at index curr, in the handler if `handling`, with `next`
        the next word of a request to store. */
    ghost function Abs(curr: int, polling: bool, handling: bool, next: T.Step): State
      reads this, events, events.slots, mouse, mouse.ring
    {
      State(Handled(events.At(curr, polling), handling), mouse.Abs().(next := next), mouse.mouseSlot, completed, failed)
    }

    /** What was done so far, from `start` on, leads to the present state. */
    ghost predicate On(start: State, curr: int, handling: bool, next: T.Step)
      reads this, events, events.slots, mouse, mouse.ring
    {
      && Inv(start) && events.slots != mouse.ring
      && Abs(curr, true, handling, next) == Run(start, trace)
      && E.Inv(events.At(curr, true)) && (handling ==> Waits(events.At(curr, true)))
    }

    /** The controller does what it can of a batch. */
    method ControllerActs(batch: seq<Action>, ghost start: State, ghost curr: int, ghost handling: bool,
                          ghost next: T.Step)
      requires On(start, curr, handling, next)
      modifies this`completed, this`failed, this`trace, events`enq, events`pcs, events`produced, events.slots
      modifies mouse`at, mouse`ccs, mouse`fetched
      ensures On(start, curr, handling, next) && old(events.produced) <= events.produced
    {
      hide On;
      for i := 0 to |batch|
        invariant On(start, curr, handling, next) && old(events.produced) <= events.produced
      {
        match batch[i] {
          case Other(event) => WriteOther(event, start, curr, handling, next);
          case Fetches => FetchTrb(start, curr, handling, next);
          case Completes(event) => WriteCompletion(event, start, curr, handling, next);
          case _ =>
        }
      }
    }

    method WriteOther(event: Trb, ghost start: State, ghost curr: int, ghost handling: bool, ghost next: T.Step)
      requires On(start, curr, handling, next)
      modifies this`trace, events`enq, events`pcs, events`produced, events.slots
      ensures On(start, curr, handling, next) && old(events.produced) <= events.produced
    {
      hide Inv, Run, E.Inv, E.Produce, E.Look, OfMouse;
      if OfMouse(event, mouse.mouseSlot) {
        return;
      }
      EventWritten(events.At(curr, true), event, handling);
      RunNext(start, trace, Other(event));
      events.ControllerWrites1(event, curr, true);
      trace := trace + [Other(event)];
    }

    method FetchTrb(ghost start: State, ghost curr: int, ghost handling: bool, ghost next: T.Step)
      requires On(start, curr, handling, next)
      modifies this`trace, mouse`at, mouse`ccs, mouse`fetched
      ensures On(start, curr, handling, next)
    {
      hide Inv, Run, E.Inv, E.Look, T.Fetch;
      RunNext(start, trace, Fetches);
      FetchIgnoresNext(mouse.Abs(), next);
      mouse.ControllerFetches();
      trace := trace + [Fetches];
    }

    method WriteCompletion(event: Trb, ghost start: State, ghost curr: int, ghost handling: bool, ghost next: T.Step)
      requires On(start, curr, handling, next)
      modifies this`completed, this`failed, this`trace, events`enq, events`pcs, events`produced, events.slots
      ensures On(start, curr, handling, next) && old(events.produced) <= events.produced
    {
      hide Inv, Run, E.Inv, E.Produce, E.Look, OfMouse, Resubmits, TrbAddress, E.Full;
      if completed >= |mouse.fetched| || !OfMouse(event, mouse.mouseSlot) || event.w0 != TrbAddress(completed)
         || event.w1 != 0 {
        return;
      }
      ghost var er := events.At(curr, true);
      EventWritten(er, event, handling);
      RunNext(start, trace, Completes(event));
      FullMeansStuck(er, event);
      var full := (events.enq + 1) % E.SIZE == events.erdp;
      events.ControllerWrites1(event, curr, true);
      if full {
        NothingProduced(er, event);
      } else {
        completed := completed + 1;
        failed := if Resubmits(event, mouse.mouseSlot) then failed else failed + 1;
      }
      trace := trace + [Completes(event)];
    }

    /** One of the first three words of the request. */
    method StoreWord(word: T.Step, ghost start: State, ghost curr: int)
      requires word in {T.Word0, T.Word1, T.Word2} && On(start, curr, true, word)
      modifies this`trace, mouse.ring
      ensures On(start, curr, true, NextWord(word))
    {
      hide Inv, Run, E.Inv, T.Inv, T.Store, Handled, Waits;
      StoreRuns(start, trace);
      StoreStep(mouse.Abs().(next := word));
      SizedIgnoresNext(mouse.Abs(), word);
      match word {
        case Word0 => mouse.StoreAddressLow();
        case Word1 => mouse.StoreAddressHigh();
        case Word2 => mouse.StoreLength();
      }
      trace := trace + [Stores];
    }

    method StoreRequest(ghost start: State, ghost curr: int)
      requires On(start, curr, true, T.Word3)
      modifies this`trace, mouse`trbIdx, mouse`submitted, mouse.ring
      ensures On(start, curr, true, if mouse.trbIdx == T.DATA then T.LinkWord else T.Idle)
      ensures |mouse.submitted| == |old(mouse.submitted)| + 1
    {
      hide Inv, Run, E.Inv, T.Inv, T.Store, Handled, Waits;
      StoreRuns(start, trace);
      StoreStep(mouse.Abs().(next := T.Word3));
      SizedIgnoresNext(mouse.Abs(), T.Word3);
      mouse.StoreRequest();
      trace := trace + [Stores];
    }

    method StoreLink(ghost start: State, ghost curr: int)
      requires On(start, curr, true, T.LinkWord)
      modifies this`trace, mouse`trbIdx, mouse`trbCycle, mouse.ring
      ensures On(start, curr, true, T.Idle)
    {
      hide Inv, Run, E.Inv, T.Inv, T.Store, Handled, Waits;
      StoreRuns(start, trace);
      StoreStep(mouse.Abs().(next := T.LinkWord));
      SizedIgnoresNext(mouse.Abs(), T.LinkWord);
      mouse.StoreLink();
      trace := trace + [Stores];
    }

    /** xhci_submit_mouse_read in the handler, where there is a mouse; env(n) and on is what the controller
        does just after each store. */
    method SubmitMouseRead(env: nat -> seq<Action>, n: nat, ghost start: State, ghost curr: int)
      requires On(start, curr, true, T.Word0) && mouse.mouseSlot != 0
      modifies this`completed, this`failed, this`trace, events`enq, events`pcs, events`produced, events.slots
      modifies mouse`at, mouse`ccs, mouse`fetched, mouse`trbIdx, mouse`trbCycle, mouse`submitted, mouse.ring
      ensures On(start, curr, true, T.Idle) && |mouse.submitted| == |old(mouse.submitted)| + 1
      ensures old(events.produced) <= events.produced
    {
      hide On;
      StoreWord(T.Word0, start, curr);
      ControllerActs(env(n), start, curr, true, T.Word1);
      StoreWord(T.Word1, start, curr);
      ControllerActs(env(n + 1), start, curr, true, T.Word2);
      StoreWord(T.Word2, start, curr);
      ControllerActs(env(n + 2), start, curr, true, T.Word3);
      StoreRequest(start, curr);
      if mouse.trbIdx == T.DATA {
        ControllerActs(env(n + 3), start, curr, true, T.LinkWord);
        StoreLink(start, curr);
      }
      ControllerActs(env(n + 4), start, curr, true, T.Idle);
    }

    /** The handler reads the address of the completed transfer's buffer from the TRB the event points at,
        and turns to the next read. */
    method FindBuffer(ghost start: State, curr: int) returns (buffer: int)
      requires On(start, curr, false, T.Idle) && Waits(events.At(curr, true))
      requires Resubmits(events.slots[curr], mouse.mouseSlot)
      modifies this`trace
      ensures On(start, curr, true, T.Word0)
      ensures buffer == T.Buffer(Slot(|mouse.submitted| - 1, T.DATA))
    {
      hide Inv, Run, E.Inv, T.Inv, Resubmits, E.Look, E.Ready, T.Buffer;
      ghost var s := Abs(curr, true, false, T.Idle);
      var event := events.slots[curr];
      CycleBitIsNoField(event, 0, mouse.mouseSlot);
      HandlerStarts(s);
      RunNext(start, trace, Looks);
      BufferFound(s);
      var trb := (event.w1 * 0x1_0000_0000 + event.w0 - T.RING) / 16;
      buffer := mouse.ring[trb].w1 * 0x1_0000_0000 + mouse.ring[trb].w0;
      trace := trace + [Looks];
    }

    /** The end of a turn: the index goes on. */
    method TakeEvent(ghost start: State, curr: int, ghost handled: bool) returns (next: int)
      requires On(start, curr, handled, T.Idle)
      requires !handled ==> Waits(events.At(curr, true)) && !Resubmits(events.slots[curr], mouse.mouseSlot)
      modifies this`trace, events`eventCycle, events`consumed
      ensures On(start, next, false, T.Idle)
      ensures |old(events.consumed)| < |events.produced|
      ensures events.consumed == old(events.consumed) + [events.produced[|old(events.consumed)|]]
    {
      hide Inv, Run, E.Inv, T.Inv, Resubmits, E.Look, E.Ready;
      ghost var s := Abs(curr, true, handled, T.Idle);
      CycleBitIsNoField(events.slots[curr], 0, mouse.mouseSlot);
      E.LookKeeps(events.At(curr, true));
      E.ReadyMeansWaiting(events.At(curr, true));
      if !handled {
        RunNext(start, trace, Looks);
        trace := trace + [Looks];
      }
      next := events.Take(curr);
    }

    /** The start of the routine. */
    method BeginPoll(ghost start: State)
      requires events.slots != mouse.ring && start == Abs(events.dequeueIdx, false, false, T.Idle) && Inv(start)
      modifies this`trace
      ensures On(start, events.dequeueIdx, false, T.Idle)
    {
      hide Inv, Run, E.Inv, T.Inv, E.Look, E.Ready;
      RunNothing(start);
      RunNext(start, [], Begins);
      assert [] + [Begins] == [Begins];
      TransfersHold(start);
      E.BeginKeeps(start.er);
      trace := [Begins];
    }

    /** What the loop's test reads. */
    lemma TestMeans(start: State, curr: int)
      requires On(start, curr, false, T.Idle)
      ensures 0 <= curr < E.SIZE == events.slots.Length
      ensures Waits(events.At(curr, true)) <==> events.slots[curr].w3 % 2 == events.eventCycle
      ensures |events.consumed| < events.published + E.SIZE
      ensures Waits(events.At(curr, true)) ==>
                && |events.consumed| < |events.produced|
                && Payload(events.slots[curr]) == events.produced[|events.consumed|]
    {
      hide E.Inv, Inv, Run;
      E.ReadyMeansWaiting(events.At(curr, true));
      E.InRange(events.At(curr, true));
      E.Outstanding(events.At(curr, true));
    }

    /** The end of the routine. */
    method EndPoll(ghost start: State, curr: int)
      requires On(start, curr, false, T.Idle) && !Waits(events.At(curr, true))
      modifies this`trace, events`dequeueIdx, events`erdp, events`published
      ensures Abs(events.dequeueIdx, false, false, T.Idle) == Run(start, trace)
      ensures events.consumed == events.produced
    {
      hide Inv, Run, E.Inv, T.Inv, Resubmits, E.Look, E.Ready;
      ghost var er := events.At(curr, true);
      E.InRange(er);
      E.LookKeeps(er);
      E.Outstanding(er);
      E.ReadyMeansWaiting(er);
      RunNext(start, trace, Looks);
      events.Publish(curr);
      trace := trace + [Looks];
    }

    /** One turn of the loop: the event at the index, and the address of the buffer read if it was a report. */
    method Turn(env: nat -> seq<Action>, n: nat, ghost start: State, curr: int) returns (next: int, read: seq<int>)
      requires On(start, curr, false, T.Idle) && Waits(events.At(curr, true)) && mouse.mouseSlot != 0
      requires 0 <= curr < events.slots.Length
      modifies this`completed, this`failed, this`trace
      modifies events`enq, events`pcs, events`produced, events`eventCycle, events`consumed, events.slots
      modifies mouse`at, mouse`ccs, mouse`fetched, mouse`trbIdx, mouse`trbCycle, mouse`submitted, mouse.ring
      ensures On(start, next, false, T.Idle)
      ensures events.consumed == old(events.consumed) + [old(Payload(events.slots[curr]))]
      ensures |mouse.submitted| == |old(mouse.submitted)| + |read|
      ensures read == if Resubmits(old(events.slots[curr]), mouse.mouseSlot)
                      then [0x0650_0000 + 8 * ((|old(mouse.submitted)| - 1) % 63)] else []
    {
      hide On, Waits, Resubmits, T.Buffer, Slot, Payload;
      TestMeans(start, curr);
      if Resubmits(events.slots[curr], mouse.mouseSlot) {
        var buffer := FindBuffer(start, curr);
        BufferIs(|mouse.submitted| - 1);
        read := [buffer];
        SubmitMouseRead(env, n, start, curr);
        next := TakeEvent(start, curr, true);
      } else {
        read := [];
        next := TakeEvent(start, curr, false);
      }
    }

    /** xhci_poll_events_and_mouse with a mouse set up; env is what the controller does between the
        driver's steps.  What both did is a run of the machine, everything produced was taken, and the
        buffers read are those of the reads that completed, in order. */
    method Poll(base: int, env: nat -> seq<Action>) returns (buffers: seq<int>)
      requires mouse.mouseSlot != 0 && events.slots != mouse.ring
      requires Inv(Abs(events.dequeueIdx, false, false, T.Idle))
      modifies this`completed, this`failed, this`trace, events, events.slots
      modifies mouse`at, mouse`ccs, mouse`fetched, mouse`trbIdx, mouse`trbCycle, mouse`submitted, mouse.ring
      ensures base == 0 ==> buffers == [] &&
                            Abs(events.dequeueIdx, false, false, T.Idle)
                            == old(Abs(events.dequeueIdx, false, false, T.Idle))
      ensures base != 0 ==> Abs(events.dequeueIdx, false, false, T.Idle)
                            == Run(old(Abs(events.dequeueIdx, false, false, T.Idle)), trace)
      ensures base != 0 ==> events.consumed == events.produced
      ensures |mouse.submitted| == |old(mouse.submitted)| + |buffers|
      ensures forall k :: 0 <= k < |buffers| ==>
                buffers[k] == 0x0650_0000 + 8 * ((|old(mouse.submitted)| - 1 + k) % 63)
      ensures Took(old(events.consumed), events.consumed, |buffers|, mouse.mouseSlot)
    {
      hide On, Inv, Run, E.Inv, Waits, Resubmits, Payload, Took;
      buffers := [];
      NothingTook(events.consumed, mouse.mouseSlot);
      if base == 0 {
        return;
      }
      ghost var start := Abs(events.dequeueIdx, false, false, T.Idle);
      var currIdx, n := events.dequeueIdx, 0;
      ghost var published := events.published;
      BeginPoll(start);
      while true
        modifies this`completed, this`failed, this`trace
        modifies events`enq, events`pcs, events`produced, events`eventCycle, events`consumed, events.slots
        modifies mouse`at, mouse`ccs, mouse`fetched, mouse`trbIdx, mouse`trbCycle, mouse`submitted, mouse.ring
        invariant On(start, currIdx, false, T.Idle)
        invariant |mouse.submitted| == |old(mouse.submitted)| + |buffers|
        invariant forall k :: 0 <= k < |buffers| ==>
                    buffers[k] == 0x0650_0000 + 8 * ((|old(mouse.submitted)| - 1 + k) % 63)
        invariant Took(old(events.consumed), events.consumed, |buffers|, mouse.mouseSlot)
        decreases E.SIZE + published - |events.consumed|
      {
        ControllerActs(env(n), start, currIdx, false, T.Idle);
        TestMeans(start, currIdx);
        if events.slots[currIdx].w3 % 2 != events.eventCycle {
          break;
        }
        OneMoreTook(old(events.consumed), events.consumed, |buffers|, events.slots[currIdx], mouse.mouseSlot);
        var read;
        currIdx, read := Turn(env, n + 1, start, currIdx);
        buffers := buffers + read;
        n := n + 6;
      }
      EndPoll(start, currIdx);
    }
  }

  /** Of the events taken since `before`, `count` are reports of finished reads, by their bytes. */
  ghost predicate Took(before: seq<Trb>, after: seq<Trb>, count: nat, slot: int) {
    && before <= after
    && Resubmitting(after[|before|..], slot) == count
    && ((forall t :: t in after[|before|..] ==> IsStored(t)) ==> Reports(after[|before|..], slot) == count)
  }

  lemma NothingTook(events: seq<Trb>, slot: int)
    ensures Took(events, events, 0, slot)
  {
    assert events[|events|..] == [];
  }

  lemma OneMoreTook(before: seq<Trb>, after: seq<Trb>, count: nat, event: Trb, slot: int)
    requires Took(before, after, count, slot)
    ensures Took(before, after + [Payload(event)], if Resubmits(event, slot) then count + 1 else count, slot)
  {
    hide Resubmits, IsStored, Reported;
    var taken := after[|before|..];
    CycleBitIsNoField(event, 0, slot);
    OneMore(taken, Payload(event), slot);
    var all := after + [Payload(event)];
    assert all[|before|..] == taken + [Payload(event)];
    if forall t :: t in all[|before|..] ==> IsStored(t) {
      ReportsAreCounted(all[|before|..], slot);
    }
  }

  lemma BufferIs(n: int)
    ensures T.Buffer(Slot(n, T.DATA)) == 0x0650_0000 + 8 * (n % 63)
  {
  }

  function NextWord(word: T.Step): T.Step {
    match word case Word0 => T.Word1 case Word1 => T.Word2 case Word2 => T.Word3 case _ => T.Idle
  }

  /** A store is a step of the machine, within the ring. */
  lemma StoreRuns(start: State, trace: seq<Action>)
    requires Inv(start)
    ensures var r := Run(start, trace);
            && T.Sized(r.tr) && (r.tr.next != T.LinkWord ==> r.tr.idx < T.DATA)
            && Run(start, trace + [Stores]) == r.(tr := T.Store(r.tr))
  {
    hide Inv, Run, T.Store, T.Inv;
    RunNext(start, trace, Stores);
    TransfersHold(Run(start, trace));
    T.DriverInRange(Run(start, trace).tr);
  }

  lemma StoreStep(t: T.State)
    requires T.Sized(t) && (t.next != T.LinkWord ==> t.idx < T.DATA)
    ensures t.next in {T.Word0, T.Word1, T.Word2} ==> T.Store(t).next == NextWord(t.next)
    ensures t.next == T.LinkWord ==> T.Store(t).next == T.Idle
    ensures t.next == T.Word3 ==>
              && T.Store(t).next == (if T.Store(t).idx == T.DATA then T.LinkWord else T.Idle)
              && |T.Store(t).submitted| == |t.submitted| + 1
  {
  }

  lemma SizedIgnoresNext(t: T.State, next: T.Step)
    ensures T.Sized(t) == T.Sized(t.(next := next))
  {
  }

  /** An event written while the handler runs. */
  lemma EventWritten(er: E.State, event: Trb, handling: bool)
    requires E.Inv(er) && (handling ==> Waits(er))
    ensures E.SlotInRangeFor(er) && E.SlotInRangeFor(Handled(er, handling))
    ensures var r := E.Produce(er, event);
            && E.Inv(r) && (handling ==> Waits(r)) && Handled(r, handling) == E.Produce(Handled(er, handling), event)
    ensures E.Full(Handled(er, handling)) == E.Full(er)
  {
    hide E.Inv, E.Full, E.Ready;
    E.ProduceKeeps(er, event);
    if handling {
      E.ProduceCommutes(er, event);
      PollingStays(er, event);
    }
  }

  lemma PollingStays(er: E.State, event: Trb)
    requires E.SlotInRangeFor(er)
    ensures E.Produce(er, event).polling == er.polling
  {
  }

  lemma FullMeansStuck(er: E.State, event: Trb)
    ensures E.Full(er) <==> (er.enq + 1) % E.SIZE == er.erdp
  {
  }

  /** The buffer of the last read, by the addresses the handler follows. */
  lemma BufferFound(s: State)
    requires Inv(s) && s.tr.next == T.Idle && Waits(s.er) && Resubmits(Payload(s.er.slots[s.er.idx]), s.slot)
    ensures var event := s.er.slots[s.er.idx];
            var trb := (event.w1 * 0x1_0000_0000 + event.w0 - T.RING) / 16;
            && 0 <= trb < |s.tr.ring|
            && s.tr.ring[trb].w1 * 0x1_0000_0000 + s.tr.ring[trb].w0 == T.Buffer(Slot(|s.tr.submitted| - 1, T.DATA))
  {
    hide E.Inv, T.Inv, Resubmits, Pointed, Slot, T.Buffer;
    E.ReadyMeansWaiting(s.er);
    SomethingWaits(s);
    MouseSized(s.tr);
    CompletionPointsAtItsRequest(s);
  }

  /** What the handler starts from: the code's call of xhci_submit_mouse_read has room. */
  lemma HandlerStarts(s: State)
    requires Inv(s) && s.tr.next == T.Idle && Waits(s.er) && Resubmits(Payload(s.er.slots[s.er.idx]), s.slot)
    ensures Legal(s, Looks) && T.Sized(s.tr) && T.Pending(s.tr) + 1 < T.DATA
    ensures Step(s, Looks) == s.(er := E.Look(s.er), tr := T.Start(s.tr)) && T.Start(s.tr) == s.tr.(next := T.Word0)
  {
    hide E.Inv, T.Inv, Resubmits, Pointed;
    E.ReadyMeansWaiting(s.er);
    SomethingWaits(s);
    MouseSized(s.tr);
  }

  lemma FetchIgnoresNext(t: T.State, next: T.Step)
    ensures T.Sized(t) == T.Sized(t.(next := next))
    ensures T.Sized(t) ==> T.Fetch(t.(next := next)) == T.Fetch(t).(next := next)
  {
  }
}
