/** The transfer request blocks both xHCI rings are made of. */
module XhciRings {
  /** Four 32-bit words; bit 0 of the last one is the cycle bit. */
  datatype Trb = Trb(w0: int, w1: int, w2: int, w3: int)

  function CycleBit(t: Trb): int { t.w3 % 2 }

  function WithCycle(t: Trb, c: int): Trb { t.(w3 := t.w3 - t.w3 % 2 + c) }

  /** A TRB without its cycle bit: what the producer means to say. */
  function Payload(t: Trb): Trb { WithCycle(t, 0) }

  /** The cycle bit is bit 0 of the last word, and the other 127 bits are the payload. */
  lemma CycleIsBitZero(w0: int, w1: int, w2: int, rest: int, c: int, c': int)
    requires 0 <= c <= 1 && 0 <= c' <= 1
    ensures var t := Trb(w0, w1, w2, 2 * rest + c);
            && CycleBit(t) == c
            && WithCycle(t, c') == Trb(w0, w1, w2, 2 * rest + c')
            && Payload(t) == Trb(w0, w1, w2, 2 * rest)
  {
  }
}
