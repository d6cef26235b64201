/** The mouse transfer ring: xhci_submit_mouse_read (cosmos_usb.cpp) fills 63 TRBs and keeps
    a Link TRB in slot 63; the controller fetches at any moment, also between two of the
    driver's stores (section 4.9.2 of the xHCI specification). */
module TransferRing {
  import opened Arith
  import opened RingIndex
  import opened XhciRings

  const RING := 0x040A_0000
  const BUFFERS := 0x0650_0000
  const DATA := 63                  // data slots; slot 63 is the link
  const LINK := 63

  /** What the driver's step counter means: idle, the four words of a TRB in order, and the
      link's cycle bit after the last data slot. */
  datatype Step = Idle | Word0 | Word1 | Word2 | Word3 | LinkWord

  /** idx, cyc and next are the driver's; at and ccs the controller's dequeue slot and cycle
      state; `submitted` and `fetched` are the histories of payloads. */
  datatype State = State(ring: seq<Trb>, idx: int, cyc: int, next: Step, at: int, ccs: int,
                         submitted: seq<Trb>, fetched: seq<Trb>)

  function Buffer(idx: int): int { BUFFERS + idx * 8 }

  /** The read request for slot idx, without a cycle bit: address, 8 bytes, Normal TRB with
      interrupt on completion. */
  function Request(idx: int): Trb {
    Trb(Buffer(idx) % 0x1_0000_0000, Buffer(idx) / 0x1_0000_0000, 8, 0x400 + 0x20)
  }

  /** xhci_configure_endpoints: a zeroed ring whose last TRB links back with Toggle Cycle set;
      the endpoint context points at slot 0 with its cycle state 1.  It does not touch the driver's
      index and cycle. */
  function Configured(idx: int, cyc: int): State {
    State(seq(LINK, _ => Trb(0, 0, 0, 0)) + [Trb(RING, 0, 0, 6 * 0x400 + 2)], idx, cyc, Idle, 0, 1, [], [])
  }

  predicate Sized(s: State) {
    |s.ring| == LINK + 1 && 0 <= s.idx <= DATA && 0 <= s.at <= LINK && 0 <= s.cyc <= 1
  }

  /** A call of xhci_submit_mouse_read begins. */
  function Start(s: State): State { if s.next == Idle then s.(next := Word0) else s }

  /** The driver's next store. */
  function Store(s: State): State
    requires Sized(s)
  {
    var i := s.idx;
    match s.next
    case Idle => s
    case Word0 => s.(ring := s.ring[i := s.ring[i].(w0 := Request(i).w0)], next := Word1)
    case Word1 => s.(ring := s.ring[i := s.ring[i].(w1 := Request(i).w1)], next := Word2)
    case Word2 => s.(ring := s.ring[i := s.ring[i].(w2 := 8)], next := Word3)
    case Word3 =>
      if i == DATA then s else
      s.(ring := s.ring[i := s.ring[i].(w3 := 0x400 + 0x20 + s.cyc)],
         submitted := s.submitted + [Request(i)],
         idx := i + 1,
         next := if i + 1 == DATA then LinkWord else Idle)
    case LinkWord =>
      s.(ring := s.ring[LINK := WithCycle(s.ring[LINK], s.cyc)], idx := 0, cyc := 1 - s.cyc, next := Idle)
  }

  /** The controller owns the TRB it looks at. */
  predicate Owned(s: State)
    requires Sized(s)
  {
    CycleBit(s.ring[s.at]) == s.ccs
  }

  predicate IsLink(t: Trb) { t.w3 / 0x400 % 0x40 == 6 }

  predicate TogglesCycle(t: Trb) { t.w3 / 2 % 2 == 1 }

  /** The controller takes the TRB it is at, or follows it when it is a link. */
  function Fetch(s: State): State
    requires Sized(s)
  {
    var t := s.ring[s.at];
    if !Owned(s) then s
    else if IsLink(t) then
      s.(at := (t.w1 * 0x1_0000_0000 + t.w0 - RING) / 16 % (LINK + 1),
         ccs := if TogglesCycle(t) then 1 - s.ccs else s.ccs)
    else s.(at := s.at + 1, fetched := s.fetched + [Payload(t)])
  }

  // ----- the invariant

  /** How many times the link's cycle bit has been written. */
  function Wraps(s: State): int {
    if s.next == LinkWord then |s.submitted| / DATA - 1 else |s.submitted| / DATA
  }

  /** The last lap of requests is in its slots with its lap's cycle bit (rewriting a slot's
      first three words changes nothing: they depend on the slot alone), and a slot never
      submitted is not a link and has cycle bit 0. */
  ghost predicate RingHolds(ring: seq<Trb>, m: nat, wraps: int) {
    && |ring| == LINK + 1
    && (forall n {:trigger Slot(n, DATA)} :: 0 <= n < m && m - DATA <= n
          ==> ring[Slot(n, DATA)] == WithCycle(Request(Slot(n, DATA)), Cycle(n, DATA)))
    && (forall n :: m <= n < DATA ==> ring[n].w3 == 0)
    && ring[LINK] == Trb(RING, 0, 0, 6 * 0x400 + 2 + wraps % 2)
  }

  ghost predicate Held(s: State) { RingHolds(s.ring, |s.submitted|, Wraps(s)) }

  ghost predicate DriverAt(s: State) {
    var n := |s.submitted|;
    if s.next == LinkWord then
      n > 0 && Slot(n, DATA) == 0 && s.idx == DATA && s.cyc == Cycle(n - 1, DATA)
    else s.idx == Slot(n, DATA) && s.cyc == Cycle(n, DATA)
  }

  ghost predicate ControllerAt(s: State) {
    var f := |s.fetched|;
    || (s.at == Slot(f, DATA) && s.ccs == Cycle(f, DATA))
    || (f > 0 && Slot(f, DATA) == 0 && s.at == LINK && s.ccs == Cycle(f - 1, DATA))
  }

  ghost predicate HistoryIs(s: State) {
    && |s.fetched| <= |s.submitted|
    && (forall n :: 0 <= n < |s.submitted| ==> s.submitted[n] == Request(Slot(n, DATA)))
    && s.fetched == s.submitted[..|s.fetched|]
  }

  /** Submissions not yet fetched; one more than that must still fit in the lap. */
  function Pending(s: State): int {
    |s.submitted| - |s.fetched| + if s.next.Idle? || s.next.LinkWord? then 0 else 1
  }

  ghost predicate Inv(s: State) {
    Sized(s) && Held(s) && DriverAt(s) && ControllerAt(s) && HistoryIs(s) && Drafts(s) && Pending(s) < DATA
  }

  /** What the driver has stored of the request it is writing. */
  ghost predicate Drafts(s: State)
    requires Sized(s)
  {
    s.next in {Word1, Word2, Word3} && s.idx < LINK ==>
      && |s.ring| > s.idx
      && s.ring[s.idx].w0 == Request(s.idx).w0
      && (s.next in {Word2, Word3} ==> s.ring[s.idx].w1 == Request(s.idx).w1)
      && (s.next == Word3 ==> s.ring[s.idx].w2 == 8)
  }

  /** The set-up leaves driver and controller in step exactly when the driver was at its start. */
  lemma ConfiguredIsInvIff(idx: int, cyc: int)
    ensures Inv(Configured(idx, cyc)) <==> idx == 0 && cyc == 1
  {
    FirstItem(DATA);
  }

  /** The same fact as a caller meets it: the first read after a set-up reaches the controller exactly
      when the driver was at its start. */
  lemma FirstReadIsSeenIff(idx: int, cyc: int)
    requires 0 <= idx < DATA && 0 <= cyc <= 1
    ensures Sized(FirstRead(idx, cyc)) && (Owned(FirstRead(idx, cyc)) <==> idx == 0 && cyc == 1)
  {
  }

  /** The four stores of the first read after a set-up. */
  function FirstRead(idx: int, cyc: int): State
    requires 0 <= idx < DATA && 0 <= cyc <= 1
  {
    Store(Store(Store(Store(Start(Configured(idx, cyc))))))
  }

  lemma StartKeeps(s: State)
    requires Inv(s) && Pending(s) + 1 < DATA
    ensures Inv(Start(s))
  {
  }

  /** The first three stores touch only words that the slot already determines. */
  lemma DraftKeepsRing(s: State)
    requires Inv(s) && s.next in {Word0, Word1, Word2}
    ensures Held(Store(s))
  {
    hide Slot, Cycle;
    var m := |s.submitted|;
    SlotInRange(m, DATA);
    var s' := Store(s);
    forall n {:trigger Slot(n, DATA)} | 0 <= n < m && m - DATA <= n
      ensures 0 <= Slot(n, DATA) < DATA
      ensures s'.ring[Slot(n, DATA)] == WithCycle(Request(Slot(n, DATA)), Cycle(n, DATA))
    {
      SlotInRange(n, DATA);
    }
  }

  /** The fourth word completes the request. */
  lemma DraftIsWhole(s: State)
    requires Sized(s) && Drafts(s) && s.next == Word3 && s.idx < LINK
    ensures s.ring[s.idx].(w3 := 0x400 + 0x20 + s.cyc) == WithCycle(Request(s.idx), s.cyc)
  {
  }

  /** The fourth store makes exactly one more request visible. */
  lemma SubmitKeepsRing(s: State)
    requires Inv(s) && s.next == Word3
    ensures 0 <= s.idx < DATA && Held(Store(s))
  {
    hide Slot, Cycle, WithCycle, Request, HistoryIs, ControllerAt;
    var m := |s.submitted|;
    SlotInRange(m, DATA);
    NextItem(m, DATA);
    DraftIsWhole(s);
    var s' := Store(s);
    forall n {:trigger Slot(n, DATA)} | 0 <= n < m + 1 && m + 1 - DATA <= n
      ensures 0 <= Slot(n, DATA) < DATA
      ensures s'.ring[Slot(n, DATA)] == WithCycle(Request(Slot(n, DATA)), Cycle(n, DATA))
    {
      SlotInRange(n, DATA);
      if n < m {
        SlotsDiffer(n, m, DATA);
      }
    }
    if m < DATA {
      FirstLap(m, DATA);
    }
    LapsAfter(m, DATA);
  }

  lemma LapsAfter(n: int, size: int)
    requires size > 0
    ensures (n + 1) / size == if Slot(n, size) + 1 == size then n / size + 1 else n / size
  {
    var q, r := n / size, n % size;
    if r + 1 == size {
      DivModIs(n + 1, size, q + 1, 0);
    } else {
      DivModIs(n + 1, size, q, r + 1);
    }
  }

  lemma LinkKeepsRing(s: State)
    requires Inv(s) && s.next == LinkWord
    ensures Held(Store(s))
  {
    hide Slot, Cycle;
    var m := |s.submitted|;
    LinkStored(m, s.cyc, Wraps(s));
    forall n | 0 <= n < m ensures 0 <= Slot(n, DATA) < DATA {
      SlotInRange(n, DATA);
    }
  }

  /** The bit stored into the link is the parity of the lap now complete. */
  lemma LinkStored(m: nat, cyc: int, wraps: int)
    requires m > 0 && Slot(m, DATA) == 0 && cyc == Cycle(m - 1, DATA)
    ensures cyc == m / DATA % 2
    ensures WithCycle(Trb(RING, 0, 0, 0x1802 + wraps % 2), cyc) == Trb(RING, 0, 0, 0x1802 + cyc)
  {
    DivModIs(m - 1, DATA, m / DATA - 1, DATA - 1);
  }

  lemma StoreKeeps(s: State)
    requires Inv(s)
    ensures Inv(Store(s))
    ensures Store(s).fetched == s.fetched
    ensures Store(s).submitted
         == if s.next == Word3 then s.submitted + [Request(Slot(|s.submitted|, DATA))] else s.submitted
  {
    hide Slot, Cycle, RingHolds;
    var m := |s.submitted|;
    SlotInRange(m, DATA);
    SlotInRange(m - 1, DATA);
    NextItem(m, DATA);
    NextItem(m - 1, DATA);
    match s.next
    case Idle => assert Store(s) == s;
    case Word3 =>
      SubmitKeepsRing(s);
      var s' := Store(s);
      forall n | 0 <= n < |s'.submitted| ensures s'.submitted[n] == Request(Slot(n, DATA)) {
        assert n < m ==> s'.submitted[n] == s.submitted[n];
      }
    case LinkWord => LinkKeepsRing(s);
    case _ => DraftKeepsRing(s);
  }

  /** The cycle bits tell the controller the truth: at a data slot it owns the TRB exactly when
      a request it has not fetched is there, complete, and then that request is the next one. */
  lemma OwnedMeansSubmitted(s: State)
    requires Inv(s) && s.at != LINK
    ensures Owned(s) <==> |s.fetched| < |s.submitted|
    ensures Owned(s) ==> !IsLink(s.ring[s.at]) && Payload(s.ring[s.at]) == s.submitted[|s.fetched|]
  {
    hide Slot, Cycle, WithCycle, CycleBit, IsLink, Request;
    var m, f := |s.submitted|, |s.fetched|;
    SlotInRange(f, DATA);
    RequestFields(Slot(f, DATA), Cycle(f, DATA));
    if f < m {
      assert s.ring[Slot(f, DATA)] == WithCycle(Request(Slot(f, DATA)), Cycle(f, DATA));
    } else if m >= DATA {
      LapBack(m, DATA);
      SlotInRange(m - DATA, DATA);
      assert s.ring[Slot(m - DATA, DATA)] == WithCycle(Request(Slot(m - DATA, DATA)), Cycle(m - DATA, DATA));
      RequestFields(Slot(m, DATA), Cycle(m - DATA, DATA));
    } else {
      FirstLap(m, DATA);
      ZeroIsNotOwned(s.ring[m]);
    }
  }

  lemma RequestFields(i: int, c: int)
    requires 0 <= c <= 1
    ensures var t := WithCycle(Request(i), c); CycleBit(t) == c && !IsLink(t) && Payload(t) == Request(i)
  {
  }

  lemma ZeroIsNotOwned(t: Trb)
    requires t.w3 == 0
    ensures CycleBit(t) == 0
  {
  }

  lemma FetchAtLinkKeeps(s: State)
    requires Inv(s) && s.at == LINK
    ensures Inv(Fetch(s)) && Fetch(s).submitted == s.submitted && Fetch(s).fetched == s.fetched
  {
    hide Slot, Cycle, Held, IsLink, TogglesCycle, Drafts;
    var f := |s.fetched|;
    SlotInRange(f, DATA);
    SlotInRange(f - 1, DATA);
    NextItem(f - 1, DATA);
    LinkLeadsBack(s);
    if Owned(s) {
      SameRing(s, Fetch(s));
    }
  }

  lemma FetchAtDataKeeps(s: State)
    requires Inv(s) && s.at != LINK
    ensures Inv(Fetch(s)) && Fetch(s).submitted == s.submitted
    ensures Fetch(s).fetched ==
            if |s.fetched| < |s.submitted| then s.fetched + [s.submitted[|s.fetched|]] else s.fetched
  {
    hide Slot, Cycle, Held, IsLink, Drafts, Owned, Payload, TogglesCycle, Request, DriverAt;
    var f := |s.fetched|;
    SlotInRange(f, DATA);
    SlotInRange(f + 1, DATA);
    NextItem(f, DATA);
    OwnedMeansSubmitted(s);
    if Owned(s) {
      assert s.submitted[..f + 1] == s.submitted[..f] + [s.submitted[f]];
      SameRing(s, Fetch(s));
      SameDriver(s, Fetch(s));
    }
  }

  lemma SameDriver(s: State, s': State)
    requires DriverAt(s) && s'.submitted == s.submitted && s'.next == s.next && s'.idx == s.idx && s'.cyc == s.cyc
    ensures DriverAt(s')
  {
  }

  /** The controller's own position is not part of what the driver sees. */
  lemma SameRing(s: State, s': State)
    requires Sized(s) && Sized(s') && s'.ring == s.ring && s'.submitted == s.submitted
    requires s'.next == s.next && s'.idx == s.idx
    ensures Held(s') == Held(s) && Drafts(s') == Drafts(s)
  {
  }

  lemma FetchKeeps(s: State)
    requires Inv(s)
    ensures Inv(Fetch(s))
    ensures Fetch(s).submitted == s.submitted
    ensures Fetch(s).fetched == s.fetched ||
            (|s.fetched| < |s.submitted| && Fetch(s).fetched == s.fetched + [s.submitted[|s.fetched|]])
  {
    hide Inv;
    if s.at == LINK {
      FetchAtLinkKeeps(s);
    } else {
      FetchAtDataKeeps(s);
    }
  }

  lemma LinkLeadsBack(s: State)
    requires Inv(s) && s.at == LINK
    ensures IsLink(s.ring[LINK]) && TogglesCycle(s.ring[LINK])
    ensures Owned(s) ==> Fetch(s) == s.(at := 0, ccs := 1 - s.ccs)
  {
    hide Slot, Cycle, HistoryIs, Drafts, DriverAt, Wraps, WithCycle;
    LinkBits(Wraps(s) % 2);
  }

  lemma LinkBits(b: int)
    requires 0 <= b <= 1
    ensures var t := Trb(RING, 0, 0, 0x1802 + b); IsLink(t) && TogglesCycle(t) && CycleBit(t) == b
  {
    DivModIs(0x1802 + b, 2, 0xC01, b);
    DivModIs(0x1802 + b, 0x400, 6, 2 + b);
  }

  /** No request is lost: while one waits, the TRB the controller looks at is its own, link
      included, so it fetches the request at once or after following the link. */
  lemma FetchMakesProgress(s: State)
    requires Inv(s) && |s.fetched| < |s.submitted|
    ensures Inv(Fetch(s))
    ensures |Fetch(s).fetched| == |s.fetched| + 1 || |Fetch(Fetch(s)).fetched| == |s.fetched| + 1
  {
    FetchKeeps(s);
    if s.at == LINK {
      LinkIsOwned(s);
      LinkLeadsBack(s);
      OwnedMeansSubmitted(Fetch(s));
    } else {
      OwnedMeansSubmitted(s);
    }
  }

  lemma LinkIsOwned(s: State)
    requires Inv(s) && |s.fetched| < |s.submitted| && s.at == LINK
    ensures Owned(s)
  {
    hide Slot, Cycle, WithCycle, IsLink, CycleBit, HistoryIs, Drafts;
    var m, f := |s.submitted|, |s.fetched|;
    SlotInRange(f, DATA);
    LapParity(f, m);
    assert Wraps(s) == f / DATA;
    LinkBits(Wraps(s) % 2);
  }

  /** Between two wraps the driver's lap count is the controller's. */
  lemma LapParity(f: int, m: int)
    requires 0 < f < m < f + DATA && Slot(f, DATA) == 0
    ensures m / DATA == f / DATA && Slot(m, DATA) != 0
    ensures Cycle(f - 1, DATA) == f / DATA % 2
  {
    var k := f / DATA;
    DivModIs(m, DATA, k, m - f);
    DivModIs(f - 1, DATA, k - 1, DATA - 1);
  }

  // ----- the code

  /** The driver's stores of one submission, with nothing in between. */
  ghost function Submit(s: State): State
    requires Inv(s) && s.next == Idle && Pending(s) + 1 < DATA
  {
    StartKeeps(s);
    StoreKeeps(Start(s));
    StoreKeeps(Store(Start(s)));
    StoreKeeps(Store(Store(Start(s))));
    StoreKeeps(Store(Store(Store(Start(s)))));
    var t := Store(Store(Store(Store(Start(s)))));
    if t.next == LinkWord then Store(t) else t
  }

  /** What one submission leaves, word by word: the read of 8 bytes into the slot's buffer with the driver's
      cycle bit, the next slot, and after the last one the link's cycle bit and the other cycle. */
  predicate Requested(s: State, r: State) {
    var i, c := s.idx, s.cyc;
    && |s.ring| == |r.ring| == 64 && 0 <= i < 63
    && r.ring[i] == Trb(0x0650_0000 + 8 * i, 0, 8, 0x420 + c)
    && (forall k :: 0 <= k < 63 && k != i ==> r.ring[k] == s.ring[k])
    && (if i < 62 then r.idx == i + 1 && r.cyc == c && r.ring[63] == s.ring[63]
        else r.idx == 0 && r.cyc == 1 - c && r.ring[63] == Trb(0x040A_0000, 0, 0, 0x1802 + c))
  }

  lemma SubmitRequests(s: State)
    requires Inv(s) && s.next == Idle && Pending(s) + 1 < DATA
    ensures Requested(s, Submit(s))
  {
    hide RingHolds, DriverAt, ControllerAt, HistoryIs, Drafts, WithCycle;
    DriverInRange(s);
    LinkIs(s);
  }

  lemma LinkIs(s: State)
    requires Inv(s)
    ensures 0 <= s.cyc <= 1 && WithCycle(s.ring[LINK], s.cyc) == Trb(0x040A_0000, 0, 0, 0x1802 + s.cyc)
  {
    hide DriverAt, ControllerAt, HistoryIs, Drafts, Wraps;
    var b := Wraps(s) % 2;
    DivModIs(0x1802 + b, 2, 0xC01, b);
  }

  /** The buffers lie behind the ring and do not overlap. */
  lemma BuffersMissRing(i: int, j: int)
    requires 0 <= i < j < 63
    ensures 0x040A_0000 + 64 * 16 <= Buffer(i) && Buffer(i) + 8 <= Buffer(j) && Buffer(j) + 8 <= 0x0650_0200
  {
  }

  class MouseRing {
    var ring: array<Trb>
    var trbIdx: int                 // mouse_trb_idx
    var trbCycle: int               // mouse_trb_cycle
    var mouseSlot: int              // global_mouse_slot
    var at: int                     // the controller's side, and what it fetched
    var ccs: int
    var fetched: seq<Trb>
    ghost var submitted: seq<Trb>

    ghost function Abs(): State
      reads this, ring
    {
      State(ring[..], trbIdx, trbCycle, Idle, at, ccs, submitted, fetched)
    }

    /** The globals as they are initialized, without a mouse. */
    constructor ()
      ensures fresh(ring) && ring.Length == LINK + 1 && trbIdx == 0 && trbCycle == 1 && mouseSlot == 0
    {
      ring := new Trb[LINK + 1](_ => Trb(0, 0, 0, 0));
      trbIdx, trbCycle, mouseSlot := 0, 1, 0;
      at, ccs, submitted, fetched := 0, 1, [], [];
    }

    /** The IN ring's part of xhci_configure_endpoints for a mouse. */
    method ConfigureEndpoints(slot: int)
      requires ring.Length == LINK + 1
      modifies this`mouseSlot, this`at, this`ccs, this`submitted, this`fetched, ring
      ensures mouseSlot == slot && Abs() == Configured(trbIdx, trbCycle)
      ensures ring[63] == Trb(0x040A_0000, 0, 0, 0x1802) && forall k :: 0 <= k < 63 ==> ring[k] == Trb(0, 0, 0, 0)
      ensures Inv(Abs()) <==> trbIdx == 0 && trbCycle == 1
    {
      for i := 0 to LINK + 1
        modifies ring
        invariant forall k :: 0 <= k < i ==> ring[k] == Trb(0, 0, 0, 0)
      {
        ring[i] := Trb(0, 0, 0, 0);
      }
      mouseSlot := slot;
      ring[LINK] := Trb(RING, 0, 0, 6 * 0x400 + 2);
      at, ccs, submitted, fetched := 0, 1, [], [];
      assert ring[..] == Configured(trbIdx, trbCycle).ring;
      ConfiguredIsInvIff(trbIdx, trbCycle);
    }

    method SubmitMouseRead()
      requires Inv(Abs()) && Pending(Abs()) + 1 < DATA
      modifies this`trbIdx, this`trbCycle, this`submitted, ring
      ensures mouseSlot == 0 ==> Abs() == old(Abs())
      ensures mouseSlot != 0 ==> Abs() == Submit(old(Abs()))
      ensures mouseSlot != 0 ==> Requested(old(Abs()), Abs())
    {
      hide Inv, Store, Pending, Requested;
      if mouseSlot == 0 {
        return;
      }
      SubmitRequests(Abs());
      ghost var s := Start(Abs());
      StartKeeps(Abs());
      DriverInRange(s);
      StepsInOrder(s);
      StoreKeeps(s);
      StoreKeeps(Store(s));
      StoreKeeps(Store(Store(s)));
      StoreAddressLow();
      StoreAddressHigh();
      StoreLength();
      StoreRequest();
      if trbIdx == DATA {
        StoreLink();
      }
    }

    /** The first word of the request, the low half of its buffer's address. */
    method StoreAddressLow()
      requires Sized(Abs()) && trbIdx < DATA
      modifies ring
      ensures Abs().(next := Word1) == Store(old(Abs()).(next := Word0))
    {
      var bufferAddr := BUFFERS + trbIdx * 8;
      ring[trbIdx] := ring[trbIdx].(w0 := bufferAddr % 0x1_0000_0000);
    }

    method StoreAddressHigh()
      requires Sized(Abs()) && trbIdx < DATA
      modifies ring
      ensures Abs().(next := Word2) == Store(old(Abs()).(next := Word1))
    {
      var bufferAddr := BUFFERS + trbIdx * 8;
      ring[trbIdx] := ring[trbIdx].(w1 := bufferAddr / 0x1_0000_0000);
    }

    method StoreLength()
      requires Sized(Abs()) && trbIdx < DATA
      modifies ring
      ensures Abs().(next := Word3) == Store(old(Abs()).(next := Word2))
    {
      ring[trbIdx] := ring[trbIdx].(w2 := 8);
    }

    /** The last word, which makes the request visible. */
    method StoreRequest()
      requires Sized(Abs()) && trbIdx < DATA
      modifies this`trbIdx, this`submitted, ring
      ensures var s := Store(old(Abs()).(next := Word3));
              Abs().(next := s.next) == s && (s.next == LinkWord <==> trbIdx == DATA)
              && (trbIdx != DATA ==> s.next == Idle)
    {
      hide WithCycle;
      ring[trbIdx] := ring[trbIdx].(w3 := 0x400 + 0x20 + trbCycle);
      submitted := submitted + [Request(trbIdx)];
      trbIdx := trbIdx + 1;
    }

    /** The controller looks at its TRB. */
    method ControllerFetches()
      requires Sized(Abs())
      modifies this`at, this`ccs, this`fetched
      ensures Abs() == Fetch(old(Abs()))
    {
      hide Payload, IsLink, TogglesCycle, CycleBit;
      var t := ring[at];
      if CycleBit(t) != ccs {
        return;
      }
      if IsLink(t) {
        at := (t.w1 * 0x1_0000_0000 + t.w0 - RING) / 16 % (LINK + 1);
        ccs := if TogglesCycle(t) then 1 - ccs else ccs;
      } else {
        at := at + 1;
        fetched := fetched + [Payload(t)];
      }
    }

    /** The link's cycle bit, at the end of a lap. */
    method StoreLink()
      requires Sized(Abs())
      modifies this`trbIdx, this`trbCycle, ring
      ensures Abs() == Store(old(Abs()).(next := LinkWord))
    {
      hide WithCycle;
      ring[LINK] := WithCycle(ring[LINK], trbCycle);
      trbIdx := 0;
      trbCycle := 1 - trbCycle;
    }
  }

  lemma DriverInRange(s: State)
    requires Inv(s)
    ensures Sized(s) && (s.next != LinkWord ==> s.idx < DATA)
  {
    SlotInRange(|s.submitted|, DATA);
  }

  /** The words are stored in order. */
  lemma StepsInOrder(s: State)
    requires Sized(s) && s.next == Word0
    ensures Sized(Store(s)) && Store(s).next == Word1
    ensures Sized(Store(Store(s))) && Store(Store(s)).next == Word2
    ensures Sized(Store(Store(Store(s)))) && Store(Store(Store(s))).next == Word3
  {
  }
}
