/** The receive ring of net.cpp: e1000_enable_rx and the ring part of e1000_check_rx against a
    network card that receives at any moment (Intel 8254x Software Developer's Manual,
    section 3.2.6). */
module E1000 {
  import opened Arith
  import opened RingIndex

  const SIZE := 32

  type Packet = seq<int>

  /** Word 3 of a descriptor (bit 0 is DD) and the packet in its buffer. */
  datatype Desc = Desc(status: int, packet: Packet)

  predicate Done(d: Desc) { d.status % 2 == 1 }

  /** rdh and rdt are the card's registers; cur is rx_cur_intel; i, last and any are the
      locals of a call under way.  `received` and `processed` are the histories, `published`
      how many packets had been processed when RDT was last written. */
  datatype State = State(ring: seq<Desc>, rdh: int, rdt: int, cur: int,
                         busy: bool, i: int, last: int, any: bool,
                         received: seq<Packet>, processed: seq<Packet>, published: nat)

  /** e1000_enable_rx: clear every status, RDH 0, RDT 31; rx_cur_intel is not touched. */
  function Enable(ring: seq<Desc>, cur: int): State
    requires |ring| == SIZE
  {
    State(seq(SIZE, k requires 0 <= k < SIZE => Desc(0, ring[k].packet)), 0, SIZE - 1,
          cur, false, 0, cur, false, [], [], 0)
  }

  predicate Sized(s: State) { |s.ring| == SIZE && 0 <= s.rdh < SIZE && 0 <= s.cur < SIZE }

  /** The card stores a packet in the descriptor at RDH, unless RDH has reached RDT. */
  function Receive(s: State, status: int, packet: Packet): State
    requires Sized(s)
  {
    if s.rdh == s.rdt then s else
    s.(ring := s.ring[s.rdh := Desc(status, packet)], rdh := (s.rdh + 1) % SIZE, received := s.received + [packet])
  }

  function Enter(s: State): State {
    if s.busy then s else s.(busy := true, i := 0, last := s.cur, any := false)
  }

  /** One turn of the loop, with the write to RDT when it ends. */
  function Turn(s: State): State
    requires Sized(s)
  {
    if !s.busy then s
    else if s.i < SIZE && Done(s.ring[s.cur]) then
      s.(processed := s.processed + [s.ring[s.cur].packet],
         ring := s.ring[s.cur := s.ring[s.cur].(status := 0)],
         last := s.cur, cur := (s.cur + 1) % SIZE, any := true, i := s.i + 1)
    else if s.any then s.(busy := false, rdt := s.last, published := |s.processed|)
    else s.(busy := false)
  }

  // ----- the invariant

  ghost predicate RingHolds(ring: seq<Desc>, received: seq<Packet>, c: nat) {
    && |ring| == SIZE && c <= |received|
    && (forall n {:trigger Slot(n, SIZE)} :: c <= n < |received|
          ==> Done(ring[Slot(n, SIZE)]) && ring[Slot(n, SIZE)].packet == received[n])
    && (forall n {:trigger Slot(n, SIZE)} :: |received| <= n < c + SIZE ==> !Done(ring[Slot(n, SIZE)]))
  }

  ghost predicate Inv(s: State) {
    var p, c, t := |s.received|, |s.processed|, s.published;
    && t <= c <= p < t + SIZE
    && s.processed == s.received[..c]
    && RingHolds(s.ring, s.received, c)
    && s.rdh == Slot(p, SIZE) && s.cur == Slot(c, SIZE) && s.rdt == Slot(t - 1, SIZE)
    && (s.busy ==> s.i == c - t && (s.any <==> c > t) && (s.any ==> s.last == Slot(c - 1, SIZE)))
    && (!s.busy ==> c == t)
  }

  /** Setting the ring up leaves driver and card in step exactly when rx_cur_intel is 0: the
      set-up resets the card's indices but not the driver's. */
  lemma EnableIsInvIff(ring: seq<Desc>, cur: int)
    requires |ring| == SIZE
    ensures Inv(Enable(ring, cur)) <==> cur == 0
  {
    FirstItem(SIZE);
    DivModIs(-1, SIZE, -1, SIZE - 1);
    forall n | 0 <= n < SIZE ensures Slot(n, SIZE) == n {
      FirstLap(n, SIZE);
    }
  }

  /** The same fact as a caller meets it: the first packet after the set-up is processed by the
      next check exactly when rx_cur_intel is 0. */
  lemma FirstPacketIsSeenIff(ring: seq<Desc>, cur: int, status: int, packet: Packet)
    requires |ring| == SIZE && 0 <= cur < SIZE && status % 2 == 1
    ensures var s := Enter(Receive(Enable(ring, cur), status, packet));
            && Turn(s).processed == (if cur == 0 then [packet] else [])
            && (cur != 0 ==> !Turn(s).busy && Turn(s).rdt == SIZE - 1)
  {
  }

  lemma IndicesInRange(s: State)
    requires Inv(s)
    ensures Sized(s)
  {
    SlotInRange(|s.received|, SIZE);
    SlotInRange(|s.processed|, SIZE);
  }

  /** The card sees no free descriptor exactly when 31 packets are unpublished. */
  lemma NoFreeMeans(s: State)
    requires Inv(s)
    ensures s.rdh == s.rdt <==> |s.received| == s.published + SIZE - 1
  {
    hide Slot, RingHolds;
    var p, t := |s.received|, s.published;
    if p == t + SIZE - 1 {
      LapBack(p, SIZE);
    } else {
      SlotsDiffer(t - 1, p, SIZE);
    }
  }

  lemma NextIsModulo(n: int)
    ensures (Slot(n, SIZE) + 1) % SIZE == Slot(n + 1, SIZE)
  {
    NextItem(n, SIZE);
    SlotInRange(n, SIZE);
  }

  lemma ReceiveKeepsRing(ring: seq<Desc>, received: seq<Packet>, c: nat, status: int, packet: Packet)
    requires RingHolds(ring, received, c) && |received| < c + SIZE - 1 && status % 2 == 1
    ensures var p := |received|;
            0 <= Slot(p, SIZE) < SIZE &&
            RingHolds(ring[Slot(p, SIZE) := Desc(status, packet)], received + [packet], c)
  {
    hide Slot;
    var p := |received|;
    SlotInRange(p, SIZE);
    var ring', received' := ring[Slot(p, SIZE) := Desc(status, packet)], received + [packet];
    forall n {:trigger Slot(n, SIZE)} | c <= n < p + 1
      ensures 0 <= Slot(n, SIZE) < SIZE
      ensures Done(ring'[Slot(n, SIZE)]) && ring'[Slot(n, SIZE)].packet == received'[n]
    {
      SlotInRange(n, SIZE);
      if n < p {
        SlotsDiffer(n, p, SIZE);
      }
    }
    forall n {:trigger Slot(n, SIZE)} | p + 1 <= n < c + SIZE
      ensures 0 <= Slot(n, SIZE) < SIZE
      ensures !Done(ring'[Slot(n, SIZE)])
    {
      SlotInRange(n, SIZE);
      SlotsDiffer(p, n, SIZE);
    }
  }

  lemma ReceiveKeeps(s: State, status: int, packet: Packet)
    requires Inv(s) && status % 2 == 1
    ensures Sized(s) && Inv(Receive(s, status, packet))
    ensures Receive(s, status, packet).received ==
            if |s.received| < s.published + SIZE - 1 then s.received + [packet] else s.received
  {
    hide Slot, RingHolds;
    IndicesInRange(s);
    NoFreeMeans(s);
    if s.rdh != s.rdt {
      ReceiveKeepsRing(s.ring, s.received, |s.processed|, status, packet);
      NextIsModulo(|s.received|);
    }
  }

  lemma EnterKeeps(s: State)
    requires Inv(s)
    ensures Inv(Enter(s)) && Enter(s).busy
  {
  }

  /** DD tells the truth: the current descriptor is done exactly when a packet waits, and then
      its buffer holds the oldest one. */
  lemma DoneMeansWaiting(s: State)
    requires Inv(s)
    ensures Sized(s)
    ensures Done(s.ring[s.cur]) <==> |s.processed| < |s.received|
    ensures Done(s.ring[s.cur]) ==> s.ring[s.cur].packet == s.received[|s.processed|]
  {
  }

  lemma TakeKeepsRing(ring: seq<Desc>, received: seq<Packet>, c: nat)
    requires RingHolds(ring, received, c) && c < |received| < c + SIZE
    ensures 0 <= Slot(c, SIZE) < SIZE
    ensures RingHolds(ring[Slot(c, SIZE) := ring[Slot(c, SIZE)].(status := 0)], received, c + 1)
  {
    hide Slot;
    SlotInRange(c, SIZE);
    var ring' := ring[Slot(c, SIZE) := ring[Slot(c, SIZE)].(status := 0)];
    forall n {:trigger Slot(n, SIZE)} | c + 1 <= n < |received|
      ensures 0 <= Slot(n, SIZE) < SIZE
      ensures Done(ring'[Slot(n, SIZE)]) && ring'[Slot(n, SIZE)].packet == received[n]
    {
      SlotInRange(n, SIZE);
      SlotsDiffer(c, n, SIZE);
    }
    forall n {:trigger Slot(n, SIZE)} | |received| <= n < c + 1 + SIZE
      ensures 0 <= Slot(n, SIZE) < SIZE
      ensures !Done(ring'[Slot(n, SIZE)])
    {
      SlotInRange(n, SIZE);
      if n < c + SIZE {
        SlotsDiffer(c, n, SIZE);
      } else {
        LapBack(n, SIZE);
      }
    }
  }

  /** A turn takes the oldest waiting packet, or ends the call with RDT just behind the current
      descriptor; the bound of 32 turns is never what ends it. */
  lemma TurnKeeps(s: State)
    requires Inv(s)
    ensures Sized(s) && Inv(Turn(s))
    ensures s.busy ==> s.i < SIZE
    ensures s.busy && |s.processed| < |s.received| ==>
              Turn(s).busy && Turn(s).processed == s.processed + [s.received[|s.processed|]]
    ensures s.busy && |s.processed| == |s.received| ==>
              !Turn(s).busy && Turn(s).processed == s.received && Turn(s).published == |s.received|
  {
    hide Slot, RingHolds, Done;
    DoneMeansWaiting(s);
    var c := |s.processed|;
    if s.busy && Done(s.ring[s.cur]) {
      TakeKeepsRing(s.ring, s.received, c);
      NextIsModulo(c);
      assert s.received[..c + 1] == s.received[..c] + [s.received[c]];
    }
  }

  // ----- whole runs

  datatype Action = Receives(status: int, packet: Packet) | Enters | Turns

  /** A card marks what it stored as done. */
  predicate Legal(a: Action) { a.Receives? ==> a.status % 2 == 1 }

  ghost function Step(s: State, a: Action): (r: State)
    requires Inv(s) && Legal(a)
    ensures Inv(r)
  {
    match a
    case Receives(status, packet) => ReceiveKeeps(s, status, packet); Receive(s, status, packet)
    case Enters => EnterKeeps(s); Enter(s)
    case Turns => TurnKeeps(s); Turn(s)
  }

  ghost function Run(s: State, actions: seq<Action>): (r: State)
    requires Inv(s) && forall a :: a in actions ==> Legal(a)
    ensures Inv(r)
  {
    if actions == [] then s else Step(Run(s, actions[..|actions| - 1]), actions[|actions| - 1])
  }

  /** Slot k lies in the cyclic interval of the 32 slots that starts at `from` and ends before `to`. */
  predicate Between(from: int, k: int, to: int) { (k - from) % 32 < (to - from) % 32 }

  /** At every moment of every interleaving: the done descriptors are exactly the cyclic interval
      from rx_cur_intel up to RDH; what was processed is exactly the oldest part of what was
      received, once each and in order; between calls RDT is rx_cur_intel - 1 modulo 32. */
  lemma PacketsArriveOnceInOrder(ring: seq<Desc>, actions: seq<Action>)
    requires |ring| == SIZE && forall a :: a in actions ==> Legal(a)
    ensures Inv(Enable(ring, 0))
    ensures var r := Run(Enable(ring, 0), actions);
            && Sized(r) && |r.ring| == 32
            && (forall k :: 0 <= k < 32 ==> (r.ring[k].status % 2 == 1 <==> Between(r.cur, k, r.rdh)))
            && r.processed <= r.received
            && (!r.busy ==> r.rdt == (r.cur - 1) % 32)
  {
    EnableIsInvIff(ring, 0);
    var r := Run(Enable(ring, 0), actions);
    IndicesInRange(r);
    forall k | 0 <= k < SIZE ensures Done(r.ring[k]) <==> Between(r.cur, k, r.rdh) {
      DoneIsInterval(r, k);
    }
    if !r.busy {
      TailFollows(r);
    }
  }

  /** Between calls RDT is just behind the driver. */
  lemma TailFollows(s: State)
    requires Inv(s) && !s.busy
    ensures s.rdt == (s.cur - 1) % 32
  {
    hide RingHolds, Slot;
    SlotMinus(|s.processed|, 1);
  }

  /** Subtracting slots modulo the size subtracts the item numbers. */
  lemma SlotMinus(n: int, k: int)
    ensures (Slot(n, SIZE) - k) % SIZE == Slot(n - k, SIZE)
  {
    DivModIs(Slot(n, SIZE) - k, SIZE, (n - k) / SIZE - n / SIZE, (n - k) % SIZE);
  }

  lemma DoneIsInterval(s: State, k: int)
    requires Inv(s) && 0 <= k < SIZE
    ensures Sized(s)
    ensures Done(s.ring[k]) <==> Between(s.cur, k, s.rdh)
  {
    IndicesInRange(s);
    var p, c := |s.received|, |s.processed|;
    var d := (k - s.cur) % SIZE;
    DivModIs(c + d, SIZE, c / SIZE + (s.cur + d) / SIZE, (s.cur + d) % SIZE);
    assert (s.cur + d) % SIZE == k by { DivModIs(s.cur + d, SIZE, -((k - s.cur) / SIZE), k); }
    assert Slot(c + d, SIZE) == k;
    assert (s.rdh - s.cur) % SIZE == p - c by {
      DivModIs(s.rdh - s.cur, SIZE, c / SIZE - p / SIZE, p - c);
    }
    if d < p - c {
      assert Done(s.ring[Slot(c + d, SIZE)]);
    } else {
      assert !Done(s.ring[Slot(c + d, SIZE)]);
    }
  }

  // ----- the code

  class RxRing {
    var memBase: int                // intel_mem_base; 0 when there is no card
    var ring: array<Desc>
    var rdh: int                    // the card's registers
    var rdt: int
    var rxCur: int                  // rx_cur_intel
    ghost var received: seq<Packet>
    ghost var processed: seq<Packet>
    ghost var published: nat

    ghost function During(i: int, last: int, any: bool, busy: bool): State
      reads this, ring
    {
      State(ring[..], rdh, rdt, rxCur, busy, i, last, any, received, processed, published)
    }

    ghost predicate Valid()
      reads this, ring
    {
      Inv(During(0, 0, false, false))
    }

    constructor (memBase: int)
      ensures fresh(ring) && ring.Length == SIZE && rxCur == 0 && this.memBase == memBase
    {
      this.memBase := memBase;
      ring := new Desc[SIZE](_ => Desc(0, []));
      rdh, rdt, rxCur := 0, 0, 0;
      received, processed, published := [], [], 0;
    }

    /** After it the ring is in step exactly when rx_cur_intel was 0. */
    method EnableRx()
      requires ring.Length == SIZE
      modifies this`rdh, this`rdt, this`received, this`processed, this`published, ring
      ensures memBase == 0 ==> ring[..] == old(ring[..]) && rdh == old(rdh) && rdt == old(rdt)
      ensures memBase != 0 ==> During(0, rxCur, false, false) == Enable(old(ring[..]), rxCur)
      ensures memBase != 0 ==> rdh == 0 && rdt == 31 && ring.Length == 32
      ensures memBase != 0 ==> forall k :: 0 <= k < 32 ==> ring[k] == Desc(0, old(ring[k].packet))
      ensures memBase != 0 ==> (Valid() <==> rxCur == 0)
    {
      if memBase == 0 {
        return;
      }
      for i := 0 to SIZE
        invariant forall k :: 0 <= k < i ==> ring[k] == Desc(0, old(ring[k].packet))
        invariant forall k :: i <= k < SIZE ==> ring[k] == old(ring[k])
      {
        ring[i] := ring[i].(status := 0);
      }
      rdh, rdt := 0, SIZE - 1;
      received, processed, published := [], [], 0;
      assert ring[..] == Enable(old(ring[..]), rxCur).ring;
      EnableIsInvIff(old(ring[..]), rxCur);
    }

    /** The card stores packets until the batch or its free descriptors run out. */
    method CardReceives(batch: seq<Packet>, ghost i: int, ghost last: int, ghost any: bool)
      requires Inv(During(i, last, any, true))
      modifies this`rdh, this`received, ring
      ensures Inv(During(i, last, any, true)) && old(received) <= received
    {
      hide Inv, Receive;
      for k := 0 to |batch|
        invariant Inv(During(i, last, any, true)) && old(received) <= received
      {
        ReceiveKeeps(During(i, last, any, true), 1, batch[k]);
        CardReceives1(batch[k], i, last, any);
      }
    }

    /** The card stores one packet, if a descriptor is free. */
    method CardReceives1(packet: Packet, ghost i: int, ghost last: int, ghost any: bool)
      requires Sized(During(i, last, any, true))
      modifies this`rdh, this`received, ring
      ensures During(i, last, any, true) == Receive(old(During(i, last, any, true)), 1, packet)
      ensures received == old(received) || received == old(received) + [packet]
    {
      ghost var before := During(i, last, any, true);
      if rdh != rdt {
        ring[rdh] := Desc(1, packet);
        rdh := (rdh + 1) % SIZE;
        received := received + [packet];
      }
      assert ring[..] == Receive(before, 1, packet).ring;
    }

    /** A packet is handed up and its descriptor's status cleared. */
    method ProcessCurrent(ghost i: int, ghost last: int, ghost any: bool)
      requires Inv(During(i, last, any, true))
      requires Sized(During(i, last, any, true)) && Done(ring[rxCur])
      modifies this`rxCur, this`processed, ring
      ensures rxCur == (old(rxCur) + 1) % SIZE && processed == old(processed) + [old(ring[rxCur].packet)]
      ensures During(i + 1, old(rxCur), true, true) == Turn(old(During(i, last, any, true)))
    {
      hide Slot, RingHolds;
      ghost var before := During(i, last, any, true);
      TurnKeeps(before);
      processed := processed + [ring[rxCur].packet];
      ring[rxCur] := ring[rxCur].(status := 0);
      rxCur := (rxCur + 1) % SIZE;
      assert ring[..] == Turn(before).ring;
    }

    /** The ring loop of e1000_check_rx; env[k] is what reaches the card just before turn k.
        When it returns everything received has been processed, in order, and given back. */
    method CheckRx(env: seq<seq<Packet>>)
      requires Valid()
      modifies this`rdh, this`rdt, this`rxCur, this`received, this`processed, this`published, ring
      ensures Valid()
      ensures old(received) <= received && old(processed) <= processed
      ensures memBase == 0 ==> processed == old(processed) && rdt == old(rdt)
      ensures memBase != 0 ==> processed == received && |processed| - |old(processed)| < 32
      ensures memBase != 0 ==> rdt == (rxCur - 1) % 32
    {
      hide Inv, Turn, Enter;
      if memBase == 0 {
        return;
      }
      var processedAny, lastProcessed := false, rxCur;
      EnterKeeps(During(0, 0, false, false));
      EnteringIs(During(0, 0, false, false));
      ghost var t := published;
      var i := 0;
      while i < SIZE
        modifies this`rdh, this`rxCur, this`received, this`processed, ring
        invariant 0 <= i <= SIZE && published == t
        invariant Inv(During(i, lastProcessed, processedAny, true))
        invariant old(received) <= received && old(processed) <= processed
        invariant i == |processed| - t
      {
        if i < |env| {
          CardReceives(env[i], i, lastProcessed, processedAny);
        }
        ghost var before := During(i, lastProcessed, processedAny, true);
        CallCounts(before);
        TurnKeeps(before);
        if ring[rxCur].status % 2 != 1 {
          break;
        }
        var current := rxCur;
        ProcessCurrent(i, lastProcessed, processedAny);
        lastProcessed := current;
        processedAny := true;
        i := i + 1;
      }
      ghost var before := During(i, lastProcessed, processedAny, true);
      CallCounts(before);
      DoneMeansWaiting(before);
      GiveBack(i, lastProcessed, processedAny);
      TailFollows(During(0, 0, false, false));
    }

    /** The end of a call: RDT is written once, if a packet was processed. */
    method GiveBack(ghost i: int, last: int, any: bool)
      requires Inv(During(i, last, any, true))
      requires Sized(During(i, last, any, true)) && !Done(ring[rxCur])
      modifies this`rdt, this`published
      ensures Valid()
      ensures !any ==> rdt == old(rdt)
      ensures During(i, last, any, false) == Turn(old(During(i, last, any, true)))
    {
      hide Inv, Turn;
      ghost var before := During(i, last, any, true);
      TurnKeeps(before);
      LeavingIs(before);
      if any {
        rdt := last;
        published := |processed|;
      }
      IdleForgets(Turn(before));
    }
  }

  /** How a call begins. */
  lemma EnteringIs(s: State)
    requires Inv(s) && !s.busy
    ensures Enter(s) == s.(busy := true, i := 0, last := s.cur, any := false)
    ensures s.published == |s.processed|
  {
  }

  /** Between calls the locals do not matter. */
  lemma IdleForgets(s: State)
    requires Inv(s) && !s.busy
    ensures Inv(s.(i := 0, last := 0, any := false))
  {
  }

  lemma CallCounts(s: State)
    requires Inv(s) && s.busy
    ensures Sized(s) && s.i == |s.processed| - s.published < SIZE
    ensures |s.processed| <= |s.received|
  {
  }

  /** How a call ends. */
  lemma LeavingIs(s: State)
    requires Sized(s) && s.busy && !Done(s.ring[s.cur])
    ensures Turn(s) == if s.any then s.(busy := false, rdt := s.last, published := |s.processed|) else s.(busy := false)
  {
  }
}
