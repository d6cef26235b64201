/** The IPv4 header checksum: the big-endian sum of net_ip in net.cpp and the little-endian `chk` of
    kernel.cpp that it replaced (RFC 1071). */
module Checksum {
  import Arith
  import opened Octets

  const ONES := 0xFFFF
  const WORD16 := 0x1_0000
  const WORD32 := 0x1_0000_0000

  /** The sum of the 16-bit words of s, first byte high; a last odd byte is left out. */
  function BigSum(s: seq<Octet>): nat {
    if |s| < 2 then 0 else 256 * s[0] + s[1] + BigSum(s[2..])
  }

  /** The sum of the 16-bit words of s, first byte low; a last odd byte counts for itself. */
  function LittleSum(s: seq<Octet>): nat {
    if s == [] then 0 else if |s| == 1 then s[0] else s[0] + 256 * s[1] + LittleSum(s[2..])
  }

  /** The carries added back until the sum fits in 16 bits. */
  function Fold(sum: nat): (f: nat)
    ensures f <= ONES && (f == 0 <==> sum == 0)
    decreases sum
  {
    if sum < WORD16 then sum else Fold(sum % WORD16 + sum / WORD16)
  }

  function Complement(x: nat): nat
    requires x <= ONES
  {
    ONES - x
  }

  /** The two bytes net_ip stores. */
  function BigBytes(s: seq<Octet>): seq<Octet> {
    var v := Complement(Fold(BigSum(s)));
    [v / 256, v % 256]
  }

  /** The two bytes of the value `chk` returns, as the processor stores it. */
  function LittleBytes(s: seq<Octet>): seq<Octet> {
    var v := Complement(Fold(LittleSum(s)));
    [v % 256, v / 256]
  }

  /** What folding takes away is a multiple of 0xFFFF. */
  lemma {:induction false} FoldRemoves(sum: nat) returns (k: nat)
    ensures sum == Fold(sum) + ONES * k
    decreases sum
  {
    if sum < WORD16 {
      k := 0;
    } else {
      var k' := FoldRemoves(sum % WORD16 + sum / WORD16);
      k := sum / WORD16 + k';
    }
  }

  /** 256 times one sum is the other, up to multiples of 0xFFFF. */
  lemma {:induction false} SumsAreRotated(s: seq<Octet>) returns (e: nat)
    requires |s| % 2 == 0
    ensures 256 * BigSum(s) == LittleSum(s) + ONES * e
    ensures BigSum(s) == 0 <==> LittleSum(s) == 0
  {
    if s == [] {
      e := 0;
    } else {
      var e' := SumsAreRotated(s[2..]);
      e := s[0] + e';
    }
  }

  /** The two bytes of a 16-bit value the other way round. */
  function Swapped(f: nat): nat { f % 256 * 256 + f / 256 }

  lemma SwapIsRotation(f: nat)
    requires f <= ONES
    ensures 256 * f == Swapped(f) + ONES * (f / 256)
    ensures Swapped(f) <= ONES && (f == 0 <==> Swapped(f) == 0)
    ensures Swapped(f) % 256 == f / 256 && Swapped(f) / 256 == f % 256
  {
    Arith.DivModIs(Swapped(f), 256, f % 256, f / 256);
  }

  lemma ComplementBytes(f: nat)
    requires f <= ONES
    ensures Complement(f) / 256 == 255 - f / 256 && Complement(f) % 256 == 255 - f % 256
  {
    Arith.DivModIs(Complement(f), 256, 255 - f / 256, 255 - f % 256);
  }

  /** Two folded sums that agree up to multiples of 0xFFFF, and are zero together, are equal. */
  lemma RotatedAgree(b: nat, l: nat, f: nat, g: nat, k1: nat, k2: nat, e: nat, q: nat, swapped: nat)
    requires b == f + ONES * k1 && l == g + ONES * k2 && 256 * b == l + ONES * e
    requires 256 * f == swapped + ONES * q
    requires f <= ONES && g <= ONES && swapped <= ONES
    requires (f == 0 <==> b == 0) && (g == 0 <==> l == 0) && (b == 0 <==> l == 0) && (f == 0 <==> swapped == 0)
    ensures g == swapped
  {
    assert swapped - g == ONES * (e - 256 * k1 + k2 - q);
  }

  /** Byte-order independence: for every even length the two checksums leave the same two bytes. */
  lemma {:induction false} ByteOrderDoesNotMatter(s: seq<Octet>)
    requires |s| % 2 == 0
    ensures BigBytes(s) == LittleBytes(s)
  {
    hide Fold, BigSum, LittleSum, Complement, Swapped;
    var f, g := Fold(BigSum(s)), Fold(LittleSum(s));
    var k1 := FoldRemoves(BigSum(s));
    var k2 := FoldRemoves(LittleSum(s));
    var e := SumsAreRotated(s);
    SwapIsRotation(f);
    RotatedAgree(BigSum(s), LittleSum(s), f, g, k1, k2, e, f / 256, Swapped(f));
    ComplementBytes(f);
    ComplementBytes(g);
  }

  // ----- a finished header

  predicate ZeroField(s: seq<Octet>, at: int) { 0 <= at && at + 2 <= |s| && at % 2 == 0 && s[at] == s[at + 1] == 0 }

  function WithField(s: seq<Octet>, at: int, v: nat): seq<Octet>
    requires ZeroField(s, at) && v <= ONES
  {
    s[at := v / 256][at + 1 := v % 256]
  }

  lemma {:induction false} SumWithField(s: seq<Octet>, at: int, v: nat)
    requires ZeroField(s, at) && v <= ONES
    ensures BigSum(WithField(s, at, v)) == BigSum(s) + v
  {
    var t := WithField(s, at, v);
    if at == 0 {
      assert t[2..] == s[2..];
    } else {
      assert t[2..] == WithField(s[2..], at - 2, v);
      SumWithField(s[2..], at - 2, v);
    }
  }

  /** The words of a finished header add up to 0xFFFF, wherever its checksum field is and whatever
      else it holds; among the values with that property, the stored one is the one net_ip computes,
      up to the two ways to write zero. */
  lemma {:induction false} FinishedHeaderSums(s: seq<Octet>, at: int, v: nat)
    requires ZeroField(s, at) && v <= ONES
    ensures Fold(BigSum(WithField(s, at, Complement(Fold(BigSum(s)))))) == ONES
    ensures Fold(BigSum(WithField(s, at, v))) == ONES ==>
              v == Complement(Fold(BigSum(s))) || {v, Complement(Fold(BigSum(s)))} == {0, ONES}
  {
    hide Fold, BigSum, WithField;
    var b := BigSum(s);
    var f := Fold(b);
    var c := ONES - f;
    var k := FoldRemoves(b);
    var j := FoldRemoves(b + c);
    var i := FoldRemoves(b + v);
    SumWithField(s, at, c);
    SumWithField(s, at, v);
    FoldsToOnes(b, f, c, k, Fold(b + c), j);
    if Fold(b + v) == ONES {
      OnlyComplement(b, f, v, k, i);
    }
  }

  lemma FoldsToOnes(b: nat, f: nat, c: nat, k: nat, g: nat, j: nat)
    requires f <= ONES && c == ONES - f && b == f + ONES * k && b + c == g + ONES * j && g <= ONES
    requires g == 0 <==> b + c == 0
    ensures g == ONES
  {
    assert ONES - g == ONES * (j - k);
  }

  lemma OnlyComplement(b: nat, f: nat, v: nat, k: nat, i: nat)
    requires f <= ONES && v <= ONES && b == f + ONES * k && b + v == ONES + ONES * i
    ensures v == ONES - f || {v, ONES - f} == {0, ONES}
  {
    assert v - (ONES - f) == ONES * (i - k);
  }

  /** The word at byte i, high byte first. */
  function WordAt(b: seq<Octet>, i: nat): int
    requires i + 2 <= |b|
  {
    256 * (b[i] as int) + b[i + 1]
  }

  /** The ten words of an IPv4 header without options, added up. */
  function HeaderTotal(b: seq<Octet>): int
    requires |b| == 20
  {
    WordAt(b, 0) + WordAt(b, 2) + WordAt(b, 4) + WordAt(b, 6) + WordAt(b, 8)
    + WordAt(b, 10) + WordAt(b, 12) + WordAt(b, 14) + WordAt(b, 16) + WordAt(b, 18)
  }

  lemma BigSumFrom(s: seq<Octet>, k: nat)
    requires k + 2 <= |s|
    ensures BigSum(s[k..]) == WordAt(s, k) + BigSum(s[k + 2..])
  {
    assert s[k..][2..] == s[k + 2..];
  }

  lemma HeaderTotalIs(s: seq<Octet>)
    requires |s| == 20
    ensures BigSum(s) == HeaderTotal(s)
  {
    hide BigSum, WordAt;
    assert s[0..] == s && s[20..] == [];
    NoWords();
    BigSumFrom(s, 0);
    BigSumFrom(s, 2);
    BigSumFrom(s, 4);
    BigSumFrom(s, 6);
    BigSumFrom(s, 8);
    BigSumFrom(s, 10);
    BigSumFrom(s, 12);
    BigSumFrom(s, 14);
    BigSumFrom(s, 16);
    BigSumFrom(s, 18);
  }

  lemma NoWords()
    ensures BigSum([]) == 0
  {
  }

  /** What a receiver tests (RFC 1071): the words of the header are a positive multiple of 0xFFFF. */
  lemma OnesMeans(s: seq<Octet>)
    requires |s| == 20
    ensures Fold(BigSum(s)) == ONES <==> HeaderTotal(s) > 0 && HeaderTotal(s) % 0xFFFF == 0
  {
    hide BigSum, Fold, HeaderTotal;
    HeaderTotalIs(s);
    var k := FoldRemoves(BigSum(s));
    var f := Fold(BigSum(s));
    if f == ONES {
      Arith.DivModIs(HeaderTotal(s), 0xFFFF, k + 1, 0);
    } else {
      Arith.DivModIs(HeaderTotal(s), 0xFFFF, k, f);
    }
  }

  // ----- the code

  /** The 32-bit accumulator holds the sum of up to 65537 words. */
  lemma {:induction false} SumsFit(s: seq<Octet>)
    requires |s| <= 2 * 65537
    ensures BigSum(s) <= ONES * (|s| / 2) && LittleSum(s) <= ONES * ((|s| + 1) / 2)
    ensures BigSum(s) < WORD32 && LittleSum(s) < WORD32
    decreases |s|
  {
    if |s| >= 2 {
      SumsFit(s[2..]);
      assert |s[2..]| / 2 == |s| / 2 - 1 && (|s[2..]| + 1) / 2 == (|s| + 1) / 2 - 1;
    }
  }

  lemma {:induction false} BigSumSnoc(s: seq<Octet>, a: Octet, b: Octet)
    requires |s| % 2 == 0
    ensures BigSum(s + [a, b]) == BigSum(s) + 256 * a + b
  {
    if s == [] {
      assert [a, b][2..] == [];
    } else {
      assert (s + [a, b])[2..] == s[2..] + [a, b];
      BigSumSnoc(s[2..], a, b);
    }
  }

  lemma {:induction false} LittleSumSnoc(s: seq<Octet>, t: seq<Octet>)
    requires |s| % 2 == 0
    ensures LittleSum(s + t) == LittleSum(s) + LittleSum(t)
  {
    if s == [] {
      assert s + t == t;
    } else {
      assert (s + t)[2..] == s[2..] + t;
      LittleSumSnoc(s[2..], t);
    }
  }

  /** One more word of the bytes d[at..p]. */
  lemma LittleSumWord(d: seq<Octet>, at: nat, p: nat)
    requires at <= p && p + 2 <= |d| && (p - at) % 2 == 0
    ensures LittleSum(d[at..p + 2]) == LittleSum(d[at..p]) + d[p] + 256 * (d[p + 1] as int)
  {
    assert d[at..p + 2] == d[at..p] + [d[p], d[p + 1]];
    LittleSumSnoc(d[at..p], [d[p], d[p + 1]]);
    assert [d[p], d[p + 1]][2..] == [];
  }

  /** The last byte, when the length is odd. */
  lemma LittleSumByte(d: seq<Octet>, at: nat, p: nat)
    requires at <= p < |d| && (p - at) % 2 == 0
    ensures LittleSum(d[at..p + 1]) == LittleSum(d[at..p]) + d[p]
  {
    assert d[at..p + 1] == d[at..p] + [d[p]];
    LittleSumSnoc(d[at..p], [d[p]]);
  }

  /** A last odd byte counts as if a zero came after it (RFC 1071, section 1). */
  lemma OddByteIsPadded(s: seq<Octet>, b: Octet)
    requires |s| % 2 == 0
    ensures LittleSum(s + [b]) == LittleSum(s + [b, 0])
  {
    LittleSumSnoc(s, [b]);
    LittleSumSnoc(s, [b, 0]);
    assert [b, 0][2..] == [];
  }

  method FoldCarries(start: nat) returns (sum: nat)
    ensures sum == Fold(start)
  {
    sum := start;
    while sum / WORD16 != 0
      invariant Fold(sum) == Fold(start)
      decreases sum
    {
      sum := sum % WORD16 + sum / WORD16;
    }
  }

  /** `chk`, odd lengths included. */
  method Chk(d: array<Octet>, at: nat, len: nat) returns (v: nat)
    requires at + len <= d.Length && len <= 2 * 65537
    ensures v == Complement(Fold(LittleSum(d[at..at + len])))
  {
    hide Fold, LittleSum;
    var s: nat, p: nat, l: nat := 0, at, len;
    EmptySum();
    assert d[at..at] == [];
    while l > 1
      invariant 0 <= l && at <= p && p + l == at + len && (p - at) % 2 == 0
      invariant s == LittleSum(d[at..p])
    {
      LittleSumWord(d[..], at, p);
      assert d[..][at..p + 2] == d[at..p + 2] && d[..][at..p] == d[at..p];
      var low: int, high: int := d[p], d[p + 1];
      s := s + (low + 256 * high);
      p := p + 2;
      l := l - 2;
    }
    if l != 0 {
      LittleSumByte(d[..], at, p);
      assert d[..][at..p + 1] == d[at..p + 1] && d[..][at..p] == d[at..p];
      s := s + d[p];
    }
    s := FoldCarries(s);
    v := ONES - s;
  }

  lemma EmptySum()
    ensures LittleSum([]) == 0
  {
  }

  /** The checksum section of net_ip over the 20 bytes at `at`: afterwards their words sum to 0xFFFF,
      the field holds what storing the old checksum would have left, and nothing else changed. */
  method StoreChecksum(b: array<Octet>, at: nat)
    requires at + 20 <= b.Length
    modifies b
    ensures Fold(BigSum(b[at..at + 20])) == ONES
    ensures HeaderTotal(b[at..at + 20]) > 0 && HeaderTotal(b[at..at + 20]) % 0xFFFF == 0
    ensures [b[at + 10], b[at + 11]] == LittleBytes(old(b[at..at + 20])[10 := 0][11 := 0])
    ensures forall k :: 0 <= k < b.Length && k != at + 10 && k != at + 11 ==> b[k] == old(b[k])
  {
    hide Fold, BigSum, LittleSum, HeaderTotal;
    ghost var cleared := b[at..at + 20][10 := 0][11 := 0];
    b[at + 10], b[at + 11] := 0, 0;
    assert b[at..at + 20] == cleared;
    var sum := AddWords(b, at);
    SumsFit(cleared);
    sum := FoldCarries(sum);
    var final := ONES - sum;
    ByteOrderDoesNotMatter(cleared);
    FinishedHeaderSums(cleared, 10, 0);
    b[at + 10] := final / 256;
    b[at + 11] := final % 256;
    assert b[at..at + 20] == WithField(cleared, 10, final);
    OnesMeans(b[at..at + 20]);
  }

  method AddWords(b: array<Octet>, at: nat) returns (sum: nat)
    requires at + 20 <= b.Length
    ensures sum == BigSum(b[at..at + 20])
  {
    sum := 0;
    var j := 0;
    while j < 20
      invariant 0 <= j <= 20 && j % 2 == 0
      invariant sum == BigSum(b[at..at + j])
    {
      assert b[at..at + j + 2] == b[at..at + j] + [b[at + j], b[at + j + 1]];
      BigSumSnoc(b[at..at + j], b[at + j], b[at + j + 1]);
      var high: int, low: int := b[at + j], b[at + j + 1];
      sum := sum + (256 * high + low);
      j := j + 2;
    }
  }
}
