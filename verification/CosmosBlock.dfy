/** The 256-byte Cosmos block of cosmos_bytes.cpp: anchor, payload, XOR checksum, footer. */
module CosmosBlock {
  type Byte = bv8

  const SIZE := 256
  const ANCHOR: Byte := 0x2A
  const FOOTER: Byte := 0xFF

  predicate IsBlock(b: seq<Byte>) { |b| == SIZE }

  function Xor(s: seq<Byte>): Byte {
    if s == [] then 0 else Xor(s[..|s| - 1]) ^ s[|s| - 1]
  }

  /** cb_validate. */
  predicate Validates(b: seq<Byte>)
    requires IsBlock(b)
  {
    b[0] == ANCHOR && b[255] == FOOTER && b[254] == Xor(b[..254])
  }

  /** Bit k of a byte, by its mask. */
  function Mask(k: int): Byte
    requires 0 <= k < 8
  {
    match k case 0 => 1 case 1 => 2 case 2 => 4 case 3 => 8 case 4 => 16 case 5 => 32 case 6 => 64 case _ => 128
  }

  predicate HasBit(b: Byte, k: int)
    requires 0 <= k < 8
  {
    b & Mask(k) != 0
  }

  /** How many of the bytes have bit k. */
  function Having(s: seq<Byte>, k: int): nat
    requires 0 <= k < 8
  {
    if s == [] then 0 else Having(s[1..], k) + if HasBit(s[0], k) then 1 else 0
  }

  lemma BitOfXor(a: Byte, b: Byte, k: int)
    requires 0 <= k < 8
    ensures HasBit(a ^ b, k) == (HasBit(a, k) != HasBit(b, k)) && !HasBit(0, k)
  {
    hide Mask;
    MaskIsOneBit(k);
    MaskedXor(a, b, Mask(k));
  }

  lemma MaskIsOneBit(k: int)
    requires 0 <= k < 8
    ensures Mask(k) in {1, 2, 4, 8, 16, 32, 64, 128}
  {
  }

  lemma MaskedXor(a: Byte, b: Byte, m: Byte)
    requires m in {1, 2, 4, 8, 16, 32, 64, 128}
    ensures (a ^ b) & m != 0 <==> ((a & m != 0) != (b & m != 0))
    ensures 0 & m == 0
  {
  }

  lemma SameBits(a: Byte, b: Byte)
    requires forall k :: 0 <= k < 8 ==> HasBit(a, k) == HasBit(b, k)
    ensures a == b
  {
    assert HasBit(a, 0) == HasBit(b, 0) && HasBit(a, 1) == HasBit(b, 1) && HasBit(a, 2) == HasBit(b, 2);
    assert HasBit(a, 3) == HasBit(b, 3) && HasBit(a, 4) == HasBit(b, 4) && HasBit(a, 5) == HasBit(b, 5);
    assert HasBit(a, 6) == HasBit(b, 6) && HasBit(a, 7) == HasBit(b, 7);
  }

  lemma {:induction false} HavingSnoc(s: seq<Byte>, k: int)
    requires 0 <= k < 8 && s != []
    ensures Having(s, k) == Having(s[..|s| - 1], k) + if HasBit(s[|s| - 1], k) then 1 else 0
    decreases |s|
  {
    if |s| == 1 {
      assert s[1..] == s[..0] == [];
    } else {
      HavingSnoc(s[1..], k);
      assert s[1..][..|s| - 2] == s[..|s| - 1][1..];
    }
  }

  /** Each bit of the sum tells whether an odd number of bytes have it. */
  lemma {:induction false} XorIsParity(s: seq<Byte>, k: int)
    requires 0 <= k < 8
    ensures HasBit(Xor(s), k) <==> Having(s, k) % 2 == 1
    decreases |s|
  {
    if s == [] {
      BitOfXor(0, 0, k);
    } else {
      XorIsParity(s[..|s| - 1], k);
      HavingSnoc(s, k);
      BitOfXor(Xor(s[..|s| - 1]), s[|s| - 1], k);
    }
  }

  /** A block is accepted exactly when its first byte is 0x2A, its last is 0xFF, and the byte before makes
      the number of bytes with each bit even up to there. */
  lemma AcceptedIff(b: seq<Byte>)
    requires |b| == 256
    ensures Validates(b) <==> b[0] == 0x2A && b[255] == 0xFF && AllEven(b[..255])
  {
    hide HasBit, Having, Xor;
    var sum := Xor(b[..254]);
    forall k | 0 <= k < 8 ensures EvenBit(b[..255], k) <==> HasBit(b[254], k) == HasBit(sum, k) {
      assert b[..255][..254] == b[..254];
      HavingSnoc(b[..255], k);
      XorIsParity(b[..254], k);
    }
    if forall k :: 0 <= k < 8 ==> EvenBit(b[..255], k) {
      SameBits(b[254], sum);
    }
  }

  /** Every bit is in an even number of the bytes. */
  predicate AllEven(s: seq<Byte>) { forall k :: 0 <= k < 8 ==> EvenBit(s, k) }

  /** An even number of the bytes have bit k. */
  predicate EvenBit(s: seq<Byte>, k: int)
    requires 0 <= k < 8
  {
    Having(s, k) % 2 == 0
  }

  /** Replacing one byte changes the sum by the difference of the two. */
  lemma {:induction false} XorOfUpdate(s: seq<Byte>, i: int, v: Byte)
    requires 0 <= i < |s|
    ensures Xor(s[i := v]) == Xor(s) ^ s[i] ^ v
  {
    var n := |s| - 1;
    if i == n {
      assert s[i := v][..n] == s[..n];
    } else {
      assert s[i := v][..n] == s[..n][i := v];
      XorOfUpdate(s[..n], i, v);
      XorSwaps(Xor(s[..n]), s[i], v, s[n]);
    }
  }

  lemma XorSwaps(a: Byte, b: Byte, c: Byte, d: Byte)
    ensures a ^ b ^ c ^ d == a ^ d ^ b ^ c
  {
  }

  lemma XorCancels(a: Byte, b: Byte, c: Byte)
    ensures a ^ b ^ c == a <==> b == c
  {
  }

  /** No block survives a one-byte error: two validating blocks that differ in at most one
      position are equal. */
  lemma OneByteErrorIsDetected(b: seq<Byte>, i: int, v: Byte)
    requires IsBlock(b) && 0 <= i < SIZE && Validates(b)
    ensures Validates(b[i := v]) <==> v == b[i]
  {
    var c := b[i := v];
    if i < 254 {
      assert c[..254] == b[..254][i := v];
      XorOfUpdate(b[..254], i, v);
      XorCancels(Xor(b[..254]), b[i], v);
      assert v == b[i] ==> c == b;
    } else {
      assert c[..254] == b[..254];
    }
  }

  // ----- cb_build

  datatype Frame = Frame(sensor: bv16, r: Byte, g: Byte, b: Byte, a: Byte)

  function High(x: bv16): Byte { (x >> 8) as Byte }

  function Low(x: bv16): Byte { (x & 0xFF) as Byte }

  /** The bytes before the checksum. */
  function Field(f: Frame, i: int): Byte {
    if i == 0 then ANCHOR else if i == 1 then 0xC0
    else if i == 2 then High(f.sensor) else if i == 3 then Low(f.sensor)
    else if i == 10 then f.r else if i == 11 then f.g else if i == 12 then f.b else if i == 13 then f.a
    else if i == 15 then 0x4D else if i == 16 then 0x54 else if i == 17 then 0x58
    else 0
  }

  function Head(f: Frame): seq<Byte> { seq(254, i => Field(f, i)) }

  function Built(f: Frame): seq<Byte> { Head(f) + [Xor(Head(f)), FOOTER] }

  lemma BuiltValidates(f: Frame)
    ensures IsBlock(Built(f)) && Validates(Built(f))
  {
  }

  /** A 16-bit value read from two bytes. */
  function Read16(high: Byte, low: Byte): bv16 { (high as bv16) * 256 + (low as bv16) }

  /** What a receiver reads in a block, place by place. */
  predicate Shows(b: seq<Byte>, f: Frame) {
    && |b| == 256
    && b[0] == 0x2A && b[1] == 0xC0
    && Read16(b[2], b[3]) == f.sensor
    && b[10] == f.r && b[11] == f.g && b[12] == f.b && b[13] == f.a
    && b[15..18] == [0x4D, 0x54, 0x58]       // MTX
    && (forall i :: 4 <= i < 254 && !(10 <= i < 14) && !(15 <= i < 18) ==> b[i] == 0)
    && b[255] == 0xFF
  }

  lemma SensorBytes(x: bv16)
    ensures Read16(High(x), Low(x)) == x
  {
  }

  lemma BytesOfSensor(h: Byte, l: Byte)
    ensures High(Read16(h, l)) == h && Low(Read16(h, l)) == l
  {
  }

  lemma BuiltShows(f: Frame)
    ensures Shows(Built(f), f)
  {
    hide High, Low, Xor, Read16;
    SensorBytes(f.sensor);
    var c := Built(f);
    assert forall i :: 0 <= i < 254 ==> c[i] == Field(f, i);
    assert c[15..18] == [Field(f, 15), Field(f, 16), Field(f, 17)];
  }

  lemma ShownField(b: seq<Byte>, f: Frame, i: int)
    requires Shows(b, f) && 0 <= i < 254
    ensures b[i] == Field(f, i)
  {
    hide High, Low, Read16;
    BytesOfSensor(b[2], b[3]);
    assert b[15] == b[15..18][0] && b[16] == b[15..18][1] && b[17] == b[15..18][2];
  }

  /** Every built block shows its frame, and is the only acceptable block that does. */
  lemma BuiltShowsIff(b: seq<Byte>, f: Frame)
    ensures |b| == 256 && Validates(b) && Shows(b, f) <==> b == Built(f)
  {
    hide Xor, Field, Shows;
    BuiltValidates(f);
    BuiltShows(f);
    if |b| == 256 && Validates(b) && Shows(b, f) {
      forall i | 0 <= i < 254 ensures b[i] == Head(f)[i] {
        ShownField(b, f, i);
      }
      assert b[..254] == Head(f);
      assert b == b[..254] + [b[254], b[255]];
    }
  }

  lemma SensorFromBytes(x: bv16, y: bv16)
    ensures High(x) == High(y) && Low(x) == Low(y) ==> x == y
  {
  }

  /** A block determines the sensor value and the colour it was built from. */
  lemma BuiltIsInjective(f: Frame, g: Frame)
    requires Built(f) == Built(g)
    ensures f == g
  {
    assert forall i :: 0 <= i < 254 ==> Built(f)[i] == Field(f, i) && Built(g)[i] == Field(g, i);
    assert Field(f, 2) == Field(g, 2) && Field(f, 3) == Field(g, 3);
    SensorFromBytes(f.sensor, g.sensor);
    assert Field(f, 10) == Field(g, 10) && Field(f, 11) == Field(g, 11);
    assert Field(f, 12) == Field(g, 12) && Field(f, 13) == Field(g, 13);
  }

  /** The desktop's heartbeat stores into byte 7 of a built block: a receiver then rejects it,
      unless what was stored is the 0 that was there. */
  lemma EditedByte7Iff(f: Frame, v: Byte)
    ensures IsBlock(Built(f)) && (Validates(Built(f)[7 := v]) <==> v == 0)
  {
    BuiltValidates(f);
    OneByteErrorIsDetected(Built(f), 7, v);
    assert Built(f)[7] == Field(f, 7);
  }

  // ----- the code

  method Checksum(block: array<Byte>, at: nat) returns (cs: Byte)
    requires at + SIZE <= block.Length
    ensures cs == Xor(block[at..at + 254])
  {
    cs := 0;
    for i := 0 to 254
      invariant cs == Xor(block[at..at + i])
    {
      assert block[at..at + i + 1][..i] == block[at..at + i];
      cs := cs ^ block[at + i];
    }
  }

  method Validate(block: array<Byte>, at: nat) returns (ok: bool)
    requires at + SIZE <= block.Length
    ensures ok == Validates(block[at..at + SIZE])
  {
    if block[at] != ANCHOR {
      return false;
    }
    if block[at + 255] != FOOTER {
      return false;
    }
    var cs := Checksum(block, at);
    assert block[at..at + SIZE][..254] == block[at..at + 254];
    return block[at + 254] == cs;
  }

  /** No byte outside [at, at + 256) changed. */
  twostate predicate OnlyBlock(out: array<Byte>, at: int)
    reads out
  {
    forall k :: 0 <= k < out.Length && !(at <= k < at + SIZE) ==> out[k] == old(out[k])
  }

  method Clear(out: array<Byte>, at: nat)
    requires at + SIZE <= out.Length
    modifies out
    ensures forall k :: at <= k < at + SIZE ==> out[k] == 0
    ensures OnlyBlock(out, at)
  {
    for i := 0 to SIZE
      invariant forall k :: at <= k < at + i ==> out[k] == 0
      invariant OnlyBlock(out, at)
    {
      out[at + i] := 0;
    }
  }

  /** The fields up to the handshake slot. */
  method FillCore(out: array<Byte>, at: nat, f: Frame)
    requires at + SIZE <= out.Length
    requires forall k :: at <= k < at + SIZE ==> out[k] == 0
    modifies out
    ensures forall k :: at <= k < at + 8 ==> out[k] == Field(f, k - at)
    ensures forall k :: at + 8 <= k < at + SIZE ==> out[k] == 0
    ensures OnlyBlock(out, at)
  {
    hide High, Low;
    out[at] := ANCHOR;
    out[at + 1] := 0xC0;
    out[at + 2] := High(f.sensor);
    out[at + 3] := Low(f.sensor);
    out[at + 7] := 0x00;
  }

  /** The colour slots. */
  method FillColour(out: array<Byte>, at: nat, f: Frame)
    requires at + SIZE <= out.Length
    requires forall k :: at <= k < at + 8 ==> out[k] == Field(f, k - at)
    requires forall k :: at + 8 <= k < at + SIZE ==> out[k] == 0
    modifies out
    ensures forall k :: at <= k < at + 14 ==> out[k] == Field(f, k - at)
    ensures forall k :: at + 14 <= k < at + SIZE ==> out[k] == 0
    ensures OnlyBlock(out, at)
  {
    hide High, Low;
    out[at + 10] := f.r;
    out[at + 11] := f.g;
    out[at + 12] := f.b;
    out[at + 13] := f.a;
  }

  /** The magic string. */
  method FillMagic(out: array<Byte>, at: nat, f: Frame)
    requires at + SIZE <= out.Length
    requires forall k :: at <= k < at + 14 ==> out[k] == Field(f, k - at)
    requires forall k :: at + 14 <= k < at + SIZE ==> out[k] == 0
    modifies out
    ensures out[at..at + 254] == Head(f)
    ensures OnlyBlock(out, at)
  {
    hide High, Low;
    out[at + 15] := 0x4D;
    out[at + 16] := 0x54;
    out[at + 17] := 0x58;
    forall k | at <= k < at + 254 ensures out[k] == Field(f, k - at) {
      assert k < at + 14 ==> out[k] == old(out[k]);
    }
  }

  /** cb_build. */
  method Build(out: array<Byte>, at: nat, f: Frame)
    requires at + SIZE <= out.Length
    modifies out
    ensures out[at..at + SIZE] == Built(f)
    ensures out[at] == 0x2A && out[at + 1] == 0xC0
    ensures Read16(out[at + 2], out[at + 3]) == f.sensor
    ensures out[at + 10] == f.r && out[at + 11] == f.g && out[at + 12] == f.b && out[at + 13] == f.a
    ensures OnlyBlock(out, at)
  {
    hide Read16, Xor, High, Low;
    Clear(out, at);
    FillCore(out, at, f);
    FillColour(out, at, f);
    FillMagic(out, at, f);
    var cs := Checksum(out, at);
    out[at + 254] := cs;
    out[at + 255] := FOOTER;
    assert out[at..at + 254] == Head(f);
    assert out[at..at + SIZE] == out[at..at + 254] + [cs, FOOTER];
    BuiltShows(f);
    assert forall k :: 0 <= k < SIZE ==> out[at + k] == Built(f)[k];
  }
}
