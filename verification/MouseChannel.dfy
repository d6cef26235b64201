/** The two rings together: the poll loop resubmits one mouse read for every successful
    completion it takes, and that alone keeps the unchecked producer from overrunning. */
module MouseChannel {
  import opened Arith
  import E = EventRing
  import opened Octets
  import opened RingIndex
  import T = TransferRing
  import opened XhciRings

  // ----- transfer events

  function EventType(t: Trb): int { t.w3 / 0x400 % 0x40 }
  function EventSlot(t: Trb): int { t.w3 / 0x100_0000 % 0x100 }
  function EventEndpoint(t: Trb): int { t.w3 / 0x1_0000 % 0x20 }
  function Code(t: Trb): int { t.w2 / 0x100_0000 % 0x100 }

  predicate OfMouse(t: Trb, slot: int) { EventType(t) == 32 && EventSlot(t) == slot && EventEndpoint(t) == 3 }

  /** Success or short packet on the mouse endpoint: the events that resubmit. */
  predicate Resubmits(t: Trb, slot: int) { OfMouse(t, slot) && (Code(t) == 1 || Code(t) == 13) }

  lemma CycleBitIsNoField(t: Trb, c: int, slot: int)
    requires 0 <= c <= 1
    ensures OfMouse(WithCycle(t, c), slot) == OfMouse(t, slot)
    ensures Resubmits(WithCycle(t, c), slot) == Resubmits(t, slot)
  {
    var x, y := t.w3, WithCycle(t, c).w3;
    assert x / 2 == y / 2;
    DivTwice(x, 2, 0x200, 0x400);
    DivTwice(y, 2, 0x200, 0x400);
    DivTwice(x, 2, 0x80_0000, 0x100_0000);
    DivTwice(y, 2, 0x80_0000, 0x100_0000);
    DivTwice(x, 2, 0x8000, 0x1_0000);
    DivTwice(y, 2, 0x8000, 0x1_0000);
  }

  // ----- an event as the controller stores it

  /** A little-endian word. */
  function Word32(b: seq<Octet>, at: nat): int
    requires at + 4 <= |b|
  {
    b[at] + 0x100 * (b[at + 1] as int) + 0x1_0000 * (b[at + 2] as int) + 0x100_0000 * (b[at + 3] as int)
  }

  /** A TRB from its sixteen bytes. */
  function FromBytes(b: seq<Octet>): Trb
    requires |b| == 16
  {
    Trb(Word32(b, 0), Word32(b, 4), Word32(b, 8), Word32(b, 12))
  }

  /** Bytes 8 to 10 are what was not transferred, 11 the completion code, 13 the type above two flags and the
      cycle bit's byte 12, 14 the endpoint in its low five bits, 15 the slot: a transfer event of the mouse's
      interrupt endpoint, done or short. */
  predicate IsReport(b: seq<Octet>, slot: int)
    requires |b| == 16
  {
    b[13] / 4 == 32 && b[14] % 32 == 3 && b[15] == slot && (b[11] == 1 || b[11] == 13)
  }

  /** The fields the code shifts out are those bytes. */
  lemma FieldsAreBytes(b: seq<Octet>)
    requires |b| == 16
    ensures var t := FromBytes(b);
            EventType(t) == b[13] / 4 && EventEndpoint(t) == b[14] % 32 && EventSlot(t) == b[15] && Code(t) == b[11]
  {
    var t := FromBytes(b);
    var b12: int, b13: int, b14: int, b15: int := b[12], b[13], b[14], b[15];
    DivModIs(t.w3, 0x400, b15 * 0x4000 + b14 * 0x40 + b13 / 4, b13 % 4 * 0x100 + b12);
    DivModIs(b15 * 0x4000 + b14 * 0x40 + b13 / 4, 0x40, b15 * 0x100 + b14, b13 / 4);
    DivModIs(t.w3, 0x100_0000, b15, b14 * 0x1_0000 + b13 * 0x100 + b12);
    DivModIs(t.w3, 0x1_0000, b15 * 0x100 + b14, b13 * 0x100 + b12);
    DivModIs(b15 * 0x100 + b14, 0x20, b15 * 8 + b14 / 32, b14 % 32);
    DivModIs(t.w2, 0x100_0000, b[11], b[8] + 0x100 * (b[9] as int) + 0x1_0000 * (b[10] as int));
  }

  lemma ReportsResubmit(b: seq<Octet>, slot: int)
    requires |b| == 16
    ensures Resubmits(FromBytes(b), slot) == IsReport(b, slot)
  {
    hide EventType, EventEndpoint, EventSlot, Code, FromBytes;
    FieldsAreBytes(b);
  }

  /** What four words of 32 bits can be. */
  predicate IsStored(t: Trb) {
    0 <= t.w0 < 0x1_0000_0000 && 0 <= t.w1 < 0x1_0000_0000 && 0 <= t.w2 < 0x1_0000_0000 && 0 <= t.w3 < 0x1_0000_0000
  }

  /** The event's bytes are those of a report. */
  ghost predicate Reported(t: Trb, slot: int) {
    exists b: seq<Octet> :: |b| == 16 && FromBytes(b) == t && IsReport(b, slot)
  }

  function WordBytes(w: int): seq<Octet> { [w % 256, w / 0x100 % 256, w / 0x1_0000 % 256, w / 0x100_0000 % 256] }

  lemma WordBytesReadBack(w: int)
    requires 0 <= w < 0x1_0000_0000
    ensures |WordBytes(w)| == 4 && Word32(WordBytes(w), 0) == w
  {
    DivTwice(w, 0x100, 0x100, 0x1_0000);
    DivTwice(w, 0x1_0000, 0x100, 0x100_0000);
  }

  lemma StoredHasBytes(t: Trb) returns (b: seq<Octet>)
    requires IsStored(t)
    ensures |b| == 16 && FromBytes(b) == t
  {
    hide WordBytes;
    WordBytesReadBack(t.w0);
    WordBytesReadBack(t.w1);
    WordBytesReadBack(t.w2);
    WordBytesReadBack(t.w3);
    b := WordBytes(t.w0) + WordBytes(t.w1) + WordBytes(t.w2) + WordBytes(t.w3);
    assert b[0..4] == WordBytes(t.w0) && b[4..8] == WordBytes(t.w1);
    assert b[8..12] == WordBytes(t.w2) && b[12..16] == WordBytes(t.w3);
  }

  lemma ReportedIff(t: Trb, slot: int)
    requires IsStored(t)
    ensures Reported(t, slot) <==> Resubmits(t, slot)
  {
    hide FromBytes, Resubmits, IsReport, IsStored;
    var b := StoredHasBytes(t);
    ReportsResubmit(b, slot);
    if Reported(t, slot) {
      var c: seq<Octet> :| |c| == 16 && FromBytes(c) == t && IsReport(c, slot);
      ReportsResubmit(c, slot);
    }
  }

  /** How many of the events are reports. */
  ghost function Reports(events: seq<Trb>, slot: int): nat {
    if events == [] then 0
    else Reports(events[..|events| - 1], slot) + if Reported(events[|events| - 1], slot) then 1 else 0
  }

  lemma {:induction false} ReportsAreCounted(events: seq<Trb>, slot: int)
    requires forall t :: t in events ==> IsStored(t)
    ensures Reports(events, slot) == Resubmitting(events, slot)
  {
    hide Resubmits, IsStored, Reported;
    if events != [] {
      ReportsAreCounted(events[..|events| - 1], slot);
      ReportedIff(events[|events| - 1], slot);
    }
  }

  lemma {:induction false} ResubmittingJoins(a: seq<Trb>, b: seq<Trb>, slot: int)
    ensures Resubmitting(a + b, slot) == Resubmitting(a, slot) + Resubmitting(b, slot)
  {
    hide Resubmits;
    if b == [] {
      assert a + b == a;
    } else {
      assert (a + b)[..|a + b| - 1] == a + b[..|b| - 1];
      ResubmittingJoins(a, b[..|b| - 1], slot);
    }
  }

  function Mice(events: seq<Trb>, slot: int): nat {
    if events == [] then 0
    else Mice(events[..|events| - 1], slot) + if OfMouse(events[|events| - 1], slot) then 1 else 0
  }

  function Resubmitting(events: seq<Trb>, slot: int): nat {
    if events == [] then 0
    else Resubmitting(events[..|events| - 1], slot) + if Resubmits(events[|events| - 1], slot) then 1 else 0
  }

  /** The address of the TRB of transfer n. */
  function TrbAddress(n: int): int { T.RING + 16 * Slot(n, T.DATA) }

  // ----- the machine

  /** `completed` counts the transfers the controller has reported, `failed` those of them it
      reported with another code. */
  datatype State = State(er: E.State, tr: T.State, slot: int, completed: nat, failed: nat)

  /** Controller: report something else, fetch a TRB, complete the oldest fetched transfer with
      any code.  Driver: begin a poll, look at the event ring, store the next request word. */
  datatype Action = Other(event: Trb) | Fetches | Completes(event: Trb) | Begins | Looks | Stores

  predicate Legal(s: State, a: Action) {
    match a
    case Other(event) => !OfMouse(event, s.slot)
    case Completes(event) =>
      && s.completed < |s.tr.fetched| && OfMouse(event, s.slot)
      && event.w0 == TrbAddress(s.completed) && event.w1 == 0
    case Looks => s.tr.next == T.Idle
    case _ => true
  }

  /** Reads under way, plus successful completions not yet taken, plus the one being stored. */
  ghost function Credits(s: State): int
    requires |s.er.consumed| <= |s.er.produced|
  {
    |s.tr.submitted| - s.completed
    + Resubmitting(s.er.produced, s.slot) - Resubmitting(s.er.consumed, s.slot)
    + if s.tr.next.Idle? || s.tr.next.LinkWord? then 0 else 1
  }

  /** The k-th mouse event reports the k-th transfer. */
  ghost predicate Pointed(events: seq<Trb>, slot: int) {
    forall k :: 0 <= k < |events| && OfMouse(events[k], slot) ==>
      events[k].w0 == TrbAddress(Mice(events[..k], slot)) && events[k].w1 == 0
  }

  ghost predicate Inv(s: State) {
    && E.Inv(s.er) && T.Inv(s.tr)
    && s.completed <= |s.tr.fetched|
    && Mice(s.er.produced, s.slot) == s.completed
    && Resubmitting(s.er.produced, s.slot) == s.completed - s.failed
    && Pointed(s.er.produced, s.slot)
    && Credits(s) == 1 - s.failed
  }

  function Step(s: State, a: Action): State
    requires E.SlotInRangeFor(s.er) && T.Sized(s.tr)
  {
    match a
    case Other(event) => s.(er := E.Produce(s.er, event))
    case Completes(event) =>
      if E.Full(s.er) then s else
      s.(er := E.Produce(s.er, event),
         completed := s.completed + 1,
         failed := if Resubmits(event, s.slot) then s.failed else s.failed + 1)
    case Fetches => s.(tr := T.Fetch(s.tr))
    case Stores => s.(tr := T.Store(s.tr))
    case Begins => s.(er := E.Begin(s.er))
    case Looks =>
      var er := E.Look(s.er);
      if s.er.polling && E.Ready(s.er) && Resubmits(Payload(s.er.slots[s.er.idx]), s.slot)
      then s.(er := er, tr := T.Start(s.tr))
      else s.(er := er)
  }

  /** After xhci_configure_endpoints: both rings fresh and the first read being stored. */
  predicate Begun(s: State) {
    E.Fresh(s.er) && s.tr == T.Start(T.Configured(0, 1)) && s.completed == 0 && s.failed == 0
  }

  // ----- what every step keeps

  lemma {:induction false} CountsOfPrefix(events: seq<Trb>, k: nat, slot: int)
    requires k <= |events|
    ensures Mice(events[..k], slot) <= Mice(events, slot)
    ensures 0 <= Resubmitting(events, slot) - Resubmitting(events[..k], slot)
            <= Mice(events, slot) - Mice(events[..k], slot)
    decreases |events|
  {
    if k == |events| {
      assert events[..k] == events;
    } else {
      CountsOfPrefix(events[..|events| - 1], k, slot);
      assert events[..|events| - 1][..k] == events[..k];
    }
  }

  lemma OneMore(events: seq<Trb>, t: Trb, slot: int)
    ensures Mice(events + [t], slot) == Mice(events, slot) + if OfMouse(t, slot) then 1 else 0
    ensures Resubmitting(events + [t], slot) == Resubmitting(events, slot) + if Resubmits(t, slot) then 1 else 0
  {
  }

  /** Whatever the controller stored, when the driver looks at it the handler starts the next read exactly
      when the sixteen bytes are a report, the cycle bit aside. */
  lemma HandlerStartsIff(s: State, b: seq<Octet>)
    requires Inv(s) && s.er.polling && s.tr.next == T.Idle && E.SlotInRangeFor(s.er) && E.Ready(s.er)
    requires |b| == 16 && s.er.slots[s.er.idx] == FromBytes(b)
    ensures T.Sized(s.tr)
    ensures Step(s, Looks).tr == if IsReport(b, s.slot) then s.tr.(next := T.Word0) else s.tr
  {
    hide E.Inv, T.Inv, Resubmits, FromBytes, IsReport, E.Look, Pointed;
    MouseSized(s.tr);
    CycleBitIsNoField(FromBytes(b), 0, s.slot);
    ReportsResubmit(b, s.slot);
  }

  /** There is always exactly one credit, or none once a completion carried another code. */
  lemma CreditBounds(s: State)
    requires Inv(s)
    ensures 0 <= |s.tr.submitted| - s.completed <= Credits(s) <= 1 && s.failed <= 1
    ensures 0 <= Resubmitting(s.er.produced, s.slot) - Resubmitting(s.er.consumed, s.slot) <= Credits(s)
    ensures T.Pending(s.tr) <= 1
  {
    CountsOfPrefix(s.er.produced, |s.er.consumed|, s.slot);
  }

  lemma BegunIsInv(s: State)
    requires Begun(s)
    ensures Inv(s)
  {
  }

  lemma PointedAfter(events: seq<Trb>, t: Trb, slot: int)
    requires Pointed(events, slot)
    requires OfMouse(t, slot) ==> t.w0 == TrbAddress(Mice(events, slot)) && t.w1 == 0
    ensures Pointed(events + [t], slot)
  {
    var all := events + [t];
    forall k | 0 <= k < |all| && OfMouse(all[k], slot)
      ensures all[k].w0 == TrbAddress(Mice(all[..k], slot)) && all[k].w1 == 0
    {
      if k < |events| {
        assert all[..k] == events[..k];
      } else {
        assert all[..k] == events;
      }
    }
  }

  lemma ProduceKeeps(s: State, a: Action)
    requires Inv(s) && (a.Other? || a.Completes?) && Legal(s, a)
    ensures E.SlotInRangeFor(s.er) && T.Sized(s.tr)
    ensures Inv(Step(s, a))
  {
    hide E.Inv, T.Inv, E.Full, OfMouse, Resubmits, T.Sized;
    E.ProduceKeeps(s.er, a.event);
    assert T.Sized(s.tr) by { MouseSized(s.tr); }
    if !E.Full(s.er) {
      var t := Payload(a.event);
      CycleBitIsNoField(a.event, 0, s.slot);
      OneMore(s.er.produced, t, s.slot);
      PointedAfter(s.er.produced, t, s.slot);
      assert Resubmits(t, s.slot) ==> OfMouse(t, s.slot) by { MouseOnly(t, s.slot); }
      ConsumedKept(s.er, a.event);
    } else {
      NothingProduced(s.er, a.event);
    }
  }

  lemma MouseOnly(t: Trb, slot: int)
    ensures Resubmits(t, slot) ==> OfMouse(t, slot)
  {
  }

  lemma MouseSized(t: T.State)
    requires T.Inv(t)
    ensures T.Sized(t) && |t.fetched| <= |t.submitted|
  {
  }

  lemma ConsumedKept(er: E.State, event: Trb)
    requires E.Inv(er)
    ensures E.SlotInRangeFor(er) && E.Produce(er, event).consumed == er.consumed && |er.consumed| <= |er.produced|
  {
  }

  lemma NothingProduced(er: E.State, event: Trb)
    requires E.SlotInRangeFor(er) && E.Full(er)
    ensures E.Produce(er, event) == er
  {
  }

  lemma FetchOrStoreKeeps(s: State, a: Action)
    requires Inv(s) && (a.Fetches? || a.Stores?)
    ensures E.SlotInRangeFor(s.er) && T.Sized(s.tr)
    ensures Inv(Step(s, a))
  {
    hide E.Inv, T.Inv, T.Sized, Pointed;
    EventsSized(s.er);
    MouseSized(s.tr);
    T.FetchKeeps(s.tr);
    T.StoreKeeps(s.tr);
    NextStep(s.tr);
  }

  lemma EventsSized(er: E.State)
    requires E.Inv(er)
    ensures E.SlotInRangeFor(er) && |er.consumed| <= |er.produced|
  {
  }

  /** What a store does to the driver's step counter. */
  lemma NextStep(t: T.State)
    requires T.Inv(t)
    ensures T.Sized(t) && T.Fetch(t).next == t.next
    ensures var n := T.Store(t).next;
            && (t.next == T.Idle ==> n == T.Idle)
            && (t.next == T.LinkWord ==> n == T.Idle)
            && (t.next == T.Word3 ==> n == T.Idle || n == T.LinkWord)
            && (t.next in {T.Word0, T.Word1, T.Word2} ==> n in {T.Word1, T.Word2, T.Word3})
  {
    T.StoreKeeps(t);
    SlotInRange(|t.submitted|, T.DATA);
  }

  /** Taking a successful completion spends its credit, and the resubmission restores it. */
  lemma LookKeeps(s: State)
    requires Inv(s) && s.tr.next == T.Idle
    ensures E.SlotInRangeFor(s.er) && T.Sized(s.tr)
    ensures Inv(Step(s, Looks))
  {
    hide E.Inv, T.Inv, T.Sized, Resubmits, OfMouse, Pointed, E.Ready, E.Look, Mice, Resubmitting, Payload, T.Pending;
    EventsSized(s.er);
    MouseSized(s.tr);
    E.LookKeeps(s.er);
    E.ReadyMeansWaiting(s.er);
    CreditBounds(s);
    var er := E.Look(s.er);
    LookProducesNothing(s.er);
    if s.er.polling && E.Ready(s.er) {
      var t := s.er.produced[|s.er.consumed|];
      OneMore(s.er.consumed, t, s.slot);
      if Resubmits(t, s.slot) {
        SomethingWaits(s);
        T.StartKeeps(s.tr);
      }
    } else {
      NothingTaken(s.er);
    }
  }

  lemma LookProducesNothing(er: E.State)
    requires E.SlotInRangeFor(er)
    ensures E.Look(er).produced == er.produced
  {
  }

  lemma NothingTaken(er: E.State)
    requires E.SlotInRangeFor(er) && !(er.polling && E.Ready(er))
    ensures E.Look(er).consumed == er.consumed
  {
  }

  /** When a successful completion is the next event, no read is under way. */
  lemma SomethingWaits(s: State)
    requires Inv(s) && s.tr.next == T.Idle && |s.er.consumed| < |s.er.produced|
    requires Resubmits(s.er.produced[|s.er.consumed|], s.slot)
    ensures |s.tr.submitted| == s.completed == |s.tr.fetched| && s.failed == 0
    ensures T.Pending(s.tr) + 1 < T.DATA
    ensures Mice(s.er.consumed, s.slot) == s.completed - 1
  {
    hide E.Inv, Resubmits, OfMouse, Pointed, T.Inv, T.Sized, Mice, Resubmitting;
    var c := |s.er.consumed|;
    var p := s.er.produced;
    assert s.er.consumed == p[..c] by { ConsumedIsPrefix(s.er); }
    TakingCounts(p, c, s.slot);
    CreditBounds(s);
    TakingTheLast(p, c, s.slot);
    MouseSized(s.tr);
  }

  lemma TakingCounts(p: seq<Trb>, c: nat, slot: int)
    requires c < |p| && Resubmits(p[c], slot)
    ensures Resubmitting(p, slot) - Resubmitting(p[..c], slot) >= 1
  {
    CountsOfPrefix(p, c + 1, slot);
    assert p[..c + 1] == p[..c] + [p[c]];
    OneMore(p[..c], p[c], slot);
  }

  /** If every mouse event was a success, one success taken is one mouse event taken. */
  lemma TakingTheLast(p: seq<Trb>, c: nat, slot: int)
    requires c < |p| && Resubmits(p[c], slot)
    ensures Resubmitting(p, slot) == Mice(p, slot) == Resubmitting(p[..c], slot) + 1
            ==> Mice(p[..c], slot) == Mice(p, slot) - 1
  {
    hide Resubmits, OfMouse, Mice, Resubmitting;
    CountsOfPrefix(p, c + 1, slot);
    CountsOfPrefix(p[..c + 1], 0, slot);
    assert p[..c + 1][..0] == [];
    NoneInNothing(slot);
    assert p[..c + 1] == p[..c] + [p[c]];
    OneMore(p[..c], p[c], slot);
    MouseOnly(p[c], slot);
  }

  lemma NoneInNothing(slot: int)
    ensures Mice([], slot) == Resubmitting([], slot) == 0
  {
  }

  lemma ConsumedIsPrefix(er: E.State)
    requires E.Inv(er)
    ensures |er.consumed| <= |er.produced| && er.consumed == er.produced[..|er.consumed|]
  {
  }

  lemma BeginKeeps(s: State)
    requires Inv(s)
    ensures E.SlotInRangeFor(s.er) && T.Sized(s.tr)
    ensures Inv(Step(s, Begins))
  {
  }

  lemma StepKeeps(s: State, a: Action)
    requires Inv(s) && Legal(s, a)
    ensures E.SlotInRangeFor(s.er) && T.Sized(s.tr)
    ensures Inv(Step(s, a))
  {
    hide Inv, Step;
    match a
    case Other(_) => ProduceKeeps(s, a);
    case Completes(_) => ProduceKeeps(s, a);
    case Fetches => FetchOrStoreKeeps(s, a);
    case Stores => FetchOrStoreKeeps(s, a);
    case Begins => BeginKeeps(s);
    case Looks => LookKeeps(s);
  }

  // ----- whole runs

  /** The state after the actions, oldest first; an action the driver or the controller would
      not take where it stands has no effect. */
  ghost function Run(s: State, actions: seq<Action>): (r: State)
    requires Inv(s)
    ensures Inv(r)
  {
    if actions == [] then s else
    var p := Run(s, actions[..|actions| - 1]);
    var a := actions[|actions| - 1];
    if Legal(p, a) then StepKeeps(p, a); Step(p, a) else p
  }

  /** For every interleaving of both sides: reads under way, successful completions waiting to
      be taken and a read being stored total exactly one, or none once some completion carried
      another code; so the unchecked producer never has more than one read outstanding, and the
      controller fetched exactly the first of the submitted requests, in order. */
  lemma OneReadAtATime(s: State, actions: seq<Action>)
    requires Begun(s)
    ensures Inv(s)
    ensures var r := Run(s, actions);
            && Credits(r) == 1 - r.failed && r.failed <= 1
            && T.Pending(r.tr) <= 1
            && r.tr.fetched <= r.tr.submitted
            && r.er.consumed <= r.er.produced
  {
    BegunIsInv(s);
    var r := Run(s, actions);
    CreditBounds(r);
    ConsumedIsPrefix(r.er);
    FetchedIsPrefix(r.tr);
  }

  lemma FetchedIsPrefix(t: T.State)
    requires T.Inv(t)
    ensures t.fetched <= t.submitted
  {
  }

  /** The handler reads the right buffer: the TRB a successful completion points at still is the
      request of that very transfer, and its address words are that slot's buffer. */
  lemma CompletionPointsAtItsRequest(s: State)
    requires Inv(s) && s.tr.next == T.Idle && |s.er.consumed| < |s.er.produced|
    requires Resubmits(s.er.produced[|s.er.consumed|], s.slot)
    ensures T.Sized(s.tr) && s.completed > 0 && 0 <= Slot(s.completed - 1, T.DATA) < T.DATA
    ensures var event := s.er.produced[|s.er.consumed|];
            var n := s.completed - 1;
            var trb := s.tr.ring[Slot(n, T.DATA)];
            && event.w1 * 0x1_0000_0000 + event.w0 == T.RING + 16 * Slot(n, T.DATA)
            && Payload(trb) == s.tr.submitted[n]
            && trb.w1 * 0x1_0000_0000 + trb.w0 == T.Buffer(Slot(n, T.DATA))
  {
    hide Slot, Cycle, E.Inv, Resubmits, WithCycle, OfMouse;
    SomethingWaits(s);
    ConsumedIsPrefix(s.er);
    MouseOnly(s.er.produced[|s.er.consumed|], s.slot);
    var n := s.completed - 1;
    SlotInRange(n, T.DATA);
    T.RequestFields(Slot(n, T.DATA), Cycle(n, T.DATA));
    assert s.tr.ring[Slot(n, T.DATA)] == WithCycle(T.Request(Slot(n, T.DATA)), Cycle(n, T.DATA));
    AddressWords(Slot(n, T.DATA), Cycle(n, T.DATA));
  }

  lemma AddressWords(i: int, c: int)
    ensures var t := WithCycle(T.Request(i), c); t.w1 * 0x1_0000_0000 + t.w0 == T.Buffer(i)
  {
  }

  /** One failed completion ends the stream: afterwards nothing is submitted, ever. */
  lemma {:induction false} FailureStopsTheMouse(s: State, actions: seq<Action>)
    requires Inv(s) && s.failed > 0
    ensures var r := Run(s, actions);
            r.failed > 0 && r.tr.submitted == s.tr.submitted && T.Pending(r.tr) == 0
  {
    hide Inv;
    if actions == [] {
      CreditBounds(s);
      PendingIsNone(s);
    } else {
      var p := Run(s, actions[..|actions| - 1]);
      var a := actions[|actions| - 1];
      FailureStopsTheMouse(s, actions[..|actions| - 1]);
      if Legal(p, a) {
        StepKeeps(p, a);
        PendingIsNone(Step(p, a));
        NothingSubmitted(p, a);
      }
    }
  }

  lemma PendingIsNone(s: State)
    requires Inv(s) && s.failed > 0
    ensures T.Pending(s.tr) == 0 && (s.tr.next.Idle? || s.tr.next.LinkWord?)
  {
    CreditBounds(s);
  }

  lemma NothingSubmitted(s: State, a: Action)
    requires Inv(s) && Legal(s, a) && s.failed > 0
    ensures E.SlotInRangeFor(s.er) && T.Sized(s.tr)
    ensures Step(s, a).tr.submitted == s.tr.submitted && Step(s, a).failed > 0
  {
    hide E.Inv, T.Inv, T.Sized, Pointed;
    EventsSized(s.er);
    MouseSized(s.tr);
    PendingIsNone(s);
    T.FetchKeeps(s.tr);
    T.StoreKeeps(s.tr);
  }

  // ----- a run that fails

  lemma RunNext(s: State, actions: seq<Action>, a: Action)
    requires Inv(s) && Legal(Run(s, actions), a)
    ensures E.SlotInRangeFor(Run(s, actions).er) && T.Sized(Run(s, actions).tr)
    ensures Run(s, actions + [a]) == Step(Run(s, actions), a)
  {
    hide Inv, Step, Legal;
    assert (actions + [a])[..|actions|] == actions;
    StepKeeps(Run(s, actions), a);
  }

  /** A completion of the first read with code 6, a stall. */
  function Stalled(slot: int): Trb {
    Trb(TrbAddress(0), 0, 6 * 0x100_0000, slot * 0x100_0000 + 3 * 0x1_0000 + 32 * 0x400)
  }

  lemma StalledFields(slot: int)
    requires 0 < slot < 0x100
    ensures OfMouse(Stalled(slot), slot) && !Resubmits(Stalled(slot), slot)
  {
    DivModIs(Stalled(slot).w3, 0x400, slot * 0x4000 + 3 * 0x40 + 32, 0);
    DivModIs(slot * 0x4000 + 3 * 0x40 + 32, 0x40, slot * 0x100 + 3, 32);
    DivModIs(Stalled(slot).w3, 0x100_0000, slot, 3 * 0x1_0000 + 32 * 0x400);
    DivModIs(Stalled(slot).w3, 0x1_0000, slot * 0x100 + 3, 32 * 0x400);
    DivModIs(slot * 0x100 + 3, 0x20, slot * 8, 3);
  }

  /** The first read stored, and fetched. */
  lemma FirstReadIsFetched()
    ensures var t := T.FirstRead(0, 1);
            && T.Sized(t) && t.next == T.Idle && |T.Fetch(t).fetched| == 1
            && T.Fetch(t).next == T.Idle && |T.Fetch(t).submitted| == 1
  {
    T.FirstReadIsSeenIff(0, 1);
  }

  lemma OneStore(s: State, actions: seq<Action>)
    requires Inv(s)
    ensures T.Sized(Run(s, actions).tr)
    ensures Run(s, actions + [Stores]) == Run(s, actions).(tr := T.Store(Run(s, actions).tr))
  {
    hide Inv, Run, T.Store;
    RunNext(s, actions, Stores);
  }

  lemma StoresRun(s: State) returns (actions: seq<Action>)
    requires Begun(s) && Inv(s)
    ensures Run(s, actions) == s.(tr := T.FirstRead(0, 1))
  {
    hide Inv, Run, T.Store;
    actions := [];
    assert Run(s, actions) == s by { RunNothing(s); }
    OneStore(s, actions);
    actions := actions + [Stores];
    OneStore(s, actions);
    actions := actions + [Stores];
    OneStore(s, actions);
    actions := actions + [Stores];
    OneStore(s, actions);
    actions := actions + [Stores];
  }

  lemma RunNothing(s: State)
    requires Inv(s)
    ensures Run(s, []) == s
  {
  }

  /** The first read completed short: 4 of its 8 bytes are left. */
  function ShortReport(slot: Octet): (b: seq<Octet>)
    ensures |b| == 16
  {
    [0x00, 0x00, 0x0A, 0x04, 0, 0, 0, 0, 4, 0, 0, 13, 0x00, 0x80, 0x03, slot]
  }

  lemma ShortReportIs(slot: Octet)
    ensures var t := FromBytes(ShortReport(slot));
            && IsReport(ShortReport(slot), slot) && t.w0 == TrbAddress(0) && t.w1 == 0 && t.w3 % 2 == 0
  {
    FirstItem(T.DATA);
    DivModIs(FromBytes(ShortReport(slot)).w3, 2, (slot as int) * 0x80_0000 + 0x1_C000, 0);
  }

  /** The stream goes on after a short packet: in some run the first read is completed with code 13, the
      handler submits a second one, and nothing has failed. */
  lemma SomeRunGoesOn(s: State, slot: Octet)
    requires Begun(s) && s.slot == slot
    ensures Inv(s) && exists actions ::
              && Completes(FromBytes(ShortReport(slot))) in actions
              && Run(s, actions).failed == 0 && |Run(s, actions).tr.submitted| == 2
  {
    hide *;
    BegunIsInv(s);
    var actions := StoresRun(s);
    FirstReadIsFetched();
    OneFetch(s, actions);
    actions := ShortCompletes(s, actions + [Fetches], slot);
    actions := LooksRun(s, actions, slot);
    actions := SecondRead(s, actions);
  }

  lemma ShortCompletes(s: State, before: seq<Action>, slot: Octet) returns (actions: seq<Action>)
    requires Begun(s) && Inv(s) && s.slot == slot
    requires var r := Run(s, before); r == s.(tr := r.tr) && |r.tr.fetched| == 1 && r.tr.next == T.Idle
    requires |Run(s, before).tr.submitted| == 1
    ensures Completes(FromBytes(ShortReport(slot))) in actions
    ensures var r := Run(s, actions);
            && r == Run(s, before).(er := r.er, completed := 1, failed := 0)
            && r.er == E.Produce(s.er, FromBytes(ShortReport(slot))) && !E.Full(s.er)
  {
    hide Inv, Run, E.Produce, Resubmits, OfMouse, FromBytes, IsReport, ShortReport;
    var event := FromBytes(ShortReport(slot));
    ShortReportIs(slot);
    ReportsResubmit(ShortReport(slot), slot);
    MouseOnly(event, slot);
    RunNext(s, before, Completes(event));
    actions := before + [Completes(event)];
  }

  lemma LooksRun(s: State, before: seq<Action>, slot: Octet) returns (actions: seq<Action>)
    requires Begun(s) && Inv(s) && s.slot == slot && Completes(FromBytes(ShortReport(slot))) in before
    requires var r := Run(s, before);
             && r.er == E.Produce(s.er, FromBytes(ShortReport(slot))) && !E.Full(s.er)
             && r.slot == slot && r.failed == 0 && r.tr.next == T.Idle && |r.tr.submitted| == 1
    ensures Completes(FromBytes(ShortReport(slot))) in actions
    ensures var r := Run(s, actions);
            && r.failed == 0 && |r.tr.submitted| == 1 && r.tr.next == T.Word0
  {
    hide Inv, Run, FromBytes, IsReport, ShortReport, Step, E.Produce, E.Full;
    var r := Run(s, before);
    RunNext(s, before, Begins);
    StepBegins(r);
    RunNext(s, before + [Begins], Looks);
    FirstLook(s.er, Step(r, Begins), slot);
    actions := before + [Begins] + [Looks];
  }

  lemma StepBegins(s: State)
    requires E.SlotInRangeFor(s.er) && T.Sized(s.tr)
    ensures Step(s, Begins) == s.(er := E.Begin(s.er))
  {
  }

  /** The first look of a driver at the report. */
  lemma FirstLook(empty: E.State, s: State, slot: Octet)
    requires E.Fresh(empty) && E.SlotInRangeFor(empty) && !E.Full(empty)
    requires Inv(s) && s.slot == slot && s.tr.next == T.Idle
    requires s.er == E.Begin(E.Produce(empty, FromBytes(ShortReport(slot))))
    ensures E.SlotInRangeFor(s.er) && T.Sized(s.tr)
    ensures Step(s, Looks).tr == s.tr.(next := T.Word0) && Step(s, Looks).failed == s.failed
  {
    hide Inv, FromBytes, IsReport, ShortReport, WithCycle, Resubmits;
    hide E.Fresh, E.Full, E.Produce, E.Begin, E.Ready, E.Look;
    var b := ShortReport(slot)[12 := 1];
    CycleByte(slot);
    FirstEvent(empty, FromBytes(ShortReport(slot)));
    HandlerStartsIff(s, b);
  }

  /** Where the first event of a fresh ring is found. */
  lemma FirstEvent(empty: E.State, event: Trb)
    requires E.Fresh(empty) && E.SlotInRangeFor(empty) && !E.Full(empty)
    requires CycleBit(WithCycle(event, 1)) == 1
    ensures var er := E.Begin(E.Produce(empty, event));
            && er.polling && E.SlotInRangeFor(er) && E.Ready(er)
            && er.slots[er.idx] == WithCycle(event, 1)
  {
    hide WithCycle, CycleBit, E.Full;
  }

  /** The report as it lies in the ring, with the cycle bit set. */
  lemma CycleByte(slot: Octet)
    ensures var b := ShortReport(slot)[12 := 1];
            && FromBytes(b) == WithCycle(FromBytes(ShortReport(slot)), 1)
            && CycleBit(FromBytes(b)) == 1 && IsReport(b, slot)
  {
    ShortReportIs(slot);
  }

  lemma TransfersHold(s: State)
    requires Inv(s)
    ensures T.Inv(s.tr) && E.Inv(s.er)
  {
  }

  lemma SecondRead(s: State, before: seq<Action>) returns (actions: seq<Action>)
    requires Inv(s) && Run(s, before).tr.next == T.Word0
    ensures before <= actions
    ensures var r, t := Run(s, actions), Run(s, before);
            r == t.(tr := r.tr) && |r.tr.submitted| == |t.tr.submitted| + 1
  {
    hide Inv, Run, T.Store;
    OneStore(s, before);
    OneStore(s, before + [Stores]);
    OneStore(s, before + [Stores] + [Stores]);
    OneStore(s, before + [Stores] + [Stores] + [Stores]);
    actions := before + [Stores] + [Stores] + [Stores] + [Stores];
    TransfersHold(Run(s, before));
    StoresSubmit(Run(s, before).tr);
  }

  lemma StoresSubmit(t: T.State)
    requires T.Inv(t) && t.next == T.Word0
    ensures T.Sized(t) && T.Sized(T.Store(t)) && T.Sized(T.Store(T.Store(t)))
    ensures T.Sized(T.Store(T.Store(T.Store(t))))
    ensures |T.Store(T.Store(T.Store(T.Store(t)))).submitted| == |t.submitted| + 1
  {
    hide T.Inv, T.Store;
    T.DriverInRange(t);
    T.StepsInOrder(t);
    T.StoreKeeps(t);
    T.StoreKeeps(T.Store(t));
    T.StoreKeeps(T.Store(T.Store(t)));
    T.StoreKeeps(T.Store(T.Store(T.Store(t))));
  }

  /** Failure is reachable: the first read stored, fetched and stalled. */
  lemma SomeRunFails(s: State)
    requires Begun(s) && 0 < s.slot < 0x100
    ensures Inv(s) && exists actions :: Run(s, actions).failed == 1
  {
    hide *;
    BegunIsInv(s);
    var a4 := StoresRun(s);
    FirstReadIsFetched();
    OneFetch(s, a4);
    StallCompletes(s, a4 + [Fetches]);
  }

  lemma OneFetch(s: State, actions: seq<Action>)
    requires Inv(s)
    ensures T.Sized(Run(s, actions).tr)
    ensures Run(s, actions + [Fetches]) == Run(s, actions).(tr := T.Fetch(Run(s, actions).tr))
  {
    hide Inv, Run, T.Fetch;
    RunNext(s, actions, Fetches);
  }

  lemma StallCompletes(s: State, actions: seq<Action>)
    requires Begun(s) && Inv(s) && 0 < s.slot < 0x100
    requires var r := Run(s, actions);
             r == s.(tr := r.tr) && |r.tr.fetched| == 1
    ensures Run(s, actions + [Completes(Stalled(s.slot))]).failed == 1
  {
    hide Inv, Run, E.Produce, Resubmits, OfMouse, EventType, EventSlot, EventEndpoint, Code;
    StalledFields(s.slot);
    RunNext(s, actions, Completes(Stalled(s.slot)));
  }
}
