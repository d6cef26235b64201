/** Decimal text: int_to_str of kernel.cpp, and the dotted addresses net.cpp writes with it. */
module Decimal {
  import opened Ints
  import opened Octets

  function DigitChar(d: int): (c: char)
    requires 0 <= d < 10
  {
    '0' + d as char
  }

  /** The decimal digits of n. */
  function Digits(n: nat): (s: string)
    ensures |s| > 0
    decreases n
  {
    if n < 10 then [DigitChar(n)] else Digits(n / 10) + [DigitChar(n % 10)]
  }

  /** The decimal text of n. */
  function Text(n: int): string { if n < 0 then "-" + Digits(-n) else Digits(n) }

  predicate IsDigit(c: char) { '0' <= c <= '9' }

  /** The number at the front of a text, read digit by digit, and what follows it. */
  function ReadNumber(s: string, acc: nat): (r: (nat, string))
    ensures |r.1| <= |s|
    decreases |s|
  {
    if s != [] && IsDigit(s[0]) then ReadNumber(s[1..], acc * 10 + (s[0] as int - '0' as int)) else (acc, s)
  }

  lemma {:induction false} DigitsReadBack(n: nat, rest: string)
    ensures ReadNumber(Digits(n) + rest, 0) == ReadNumber(rest, n)
    decreases n
  {
    var d := DigitChar(n % 10);
    assert ([d] + rest)[1..] == rest;
    if n < 10 {
      assert Digits(n) == [d];
    } else {
      DigitsReadBack(n / 10, [d] + rest);
      assert Digits(n) + rest == Digits(n / 10) + ([d] + rest);
      assert ReadNumber([d] + rest, n / 10) == ReadNumber(rest, n / 10 * 10 + n % 10);
    }
  }

  function Parse(s: string): int {
    if s != [] && s[0] == '-' then 0 - ReadNumber(s[1..], 0).0 else ReadNumber(s, 0).0
  }

  lemma {:induction false} DigitsStartWithDigit(n: nat)
    ensures IsDigit(Digits(n)[0])
    decreases n
  {
    if n >= 10 {
      DigitsStartWithDigit(n / 10);
    }
  }

  lemma TextReadsBack(n: int)
    ensures Parse(Text(n)) == n
  {
    var m := if n < 0 then -n else n;
    DigitsReadBack(m, "");
    DigitsStartWithDigit(m);
    assert Digits(m) + "" == Digits(m);
    if n < 0 {
      assert Text(n)[1..] == Digits(m);
    }
  }

  // ----- dotted addresses

  datatype Address = Address(a: Octet, b: Octet, c: Octet, d: Octet)

  function Dotted(x: Address): string {
    Digits(x.a) + "." + Digits(x.b) + "." + Digits(x.c) + "." + Digits(x.d)
  }

  /** The numbers of a dotted text. */
  function ParseDotted(s: string): seq<nat>
    decreases |s|
  {
    var (n, rest) := ReadNumber(s, 0);
    if rest != [] && rest[0] == '.' then [n] + ParseDotted(rest[1..]) else [n]
  }

  lemma {:induction false} ParseFirst(n: nat, rest: string)
    ensures ParseDotted(Digits(n) + "." + rest) == [n] + ParseDotted(rest)
    ensures ParseDotted(Digits(n)) == [n]
  {
    DigitsReadBack(n, "." + rest);
    assert Digits(n) + "." + rest == Digits(n) + ("." + rest);
    assert ("." + rest)[1..] == rest;
    DigitsReadBack(n, "");
    assert Digits(n) + "" == Digits(n);
  }

  /** A dotted address reads back as its four octets. */
  lemma {:induction false} DottedReadsBack(x: Address)
    ensures ParseDotted(Dotted(x)) == [x.a, x.b, x.c, x.d]
  {
    hide Digits, ParseDotted, ReadNumber;
    var t3 := Digits(x.d);
    var t2 := Digits(x.c) + "." + t3;
    var t1 := Digits(x.b) + "." + t2;
    assert Dotted(x) == Digits(x.a) + "." + t1;
    ParseFirst(x.a, t1);
    ParseFirst(x.b, t2);
    ParseFirst(x.c, t3);
    ParseFirst(x.d, "");
  }

  // ----- the code

  /** What int_to_str writes: the smallest int has no positive counterpart, so negating it leaves it
      negative and only the sign is written. */
  function Written(n: int): string
    requires MIN_INT <= n <= MAX_INT
  {
    if n == MIN_INT then "-" else Text(n)
  }

  /** The text is right for every int but the smallest. */
  lemma WrittenIsRightIff(n: int)
    requires MIN_INT <= n <= MAX_INT
    ensures Written(n) == Text(n) <==> n != MIN_INT
    ensures Parse(Written(n)) == n <==> n != MIN_INT
  {
    TextReadsBack(n);
    if n == MIN_INT {
      assert |Text(n)| == 1 + |Digits(-n)|;
      assert Parse("-") == 0;
    }
  }

  /** out holds a zero-terminated text at `at`. */
  predicate Holds(out: seq<char>, at: int, text: string) {
    0 <= at && at + |text| < |out| && out[at..at + |text|] == text && out[at + |text|] == '\0'
  }

  lemma {:induction false} DigitsAreNotZero(n: nat)
    ensures forall i :: 0 <= i < |Digits(n)| ==> Digits(n)[i] != '\0'
    decreases n
  {
    if n >= 10 {
      DigitsAreNotZero(n / 10);
    }
  }

  /** An octet takes at most three digits. */
  lemma OctetIsShort(n: Octet)
    ensures |Digits(n)| <= 3
  {
    if n >= 10 {
      assert n / 10 < 100 && n / 10 / 10 < 10;
      assert |Digits(n / 10)| <= 2;
    }
  }

  /** The counting loop of int_to_str. */
  method CountDigits(n: nat) returns (size: nat)
    requires n > 0
    ensures size == |Digits(n)|
  {
    var t := n;
    size := 0;
    while t > 0
      invariant t >= 0
      invariant t > 0 ==> |Digits(t)| + size == |Digits(n)|
      invariant t == 0 ==> size == |Digits(n)|
    {
      t := t / 10;
      size := size + 1;
    }
  }

  /** int_to_str. */
  method IntToStr(n: int, out: array<char>, at: nat)
    requires MIN_INT <= n <= MAX_INT && at + |Written(n)| < out.Length
    modifies out
    ensures out[at..at + |Written(n)|] == Written(n) && out[at + |Written(n)|] == '\0'
    ensures forall k :: 0 <= k < out.Length && !(at <= k <= at + |Written(n)|) ==> out[k] == old(out[k])
  {
    WrittenIs(n);
    hide Digits, Written;
    if n == 0 {
      OneChar('0', out, at);
      return;
    }
    if n < 0 {
      NegativeToStr(n, out, at);
    } else {
      PutDigits(n, out, at);
    }
  }

  lemma WrittenIs(n: int)
    requires MIN_INT <= n <= MAX_INT
    ensures n == 0 ==> Written(n) == ['0']
    ensures n > 0 ==> Written(n) == Digits(n)
    ensures MIN_INT < n < 0 ==> Written(n) == ['-'] + Digits(-n)
    ensures n == MIN_INT ==> Written(n) == ['-']
  {
  }

  /** The sign, and the digits of what negating n gives. */
  method NegativeToStr(n: int, out: array<char>, at: nat)
    requires MIN_INT <= n < 0 && at + |Written(n)| < out.Length
    modifies out
    ensures out[at..at + |Written(n)|] == Written(n) && out[at + |Written(n)|] == '\0'
    ensures forall k :: 0 <= k < out.Length && !(at <= k <= at + |Written(n)|) ==> out[k] == old(out[k])
  {
    WrittenIs(n);
    hide Digits, Written;
    var m := if n == MIN_INT then n else -n;
    if m > 0 {
      SignAndDigits(m, out, at);
    } else {
      OneChar('-', out, at);
    }
  }

  method OneChar(c: char, out: array<char>, at: nat)
    requires at + 1 < out.Length
    modifies out
    ensures out[at..at + 1] == [c] && out[at + 1] == '\0'
    ensures forall k :: 0 <= k < out.Length && !(at <= k <= at + 1) ==> out[k] == old(out[k])
  {
    out[at], out[at + 1] := c, '\0';
  }

  method SignAndDigits(m: nat, out: array<char>, at: nat)
    requires m > 0 && at + 1 + |Digits(m)| < out.Length
    modifies out
    ensures out[at..at + 1 + |Digits(m)|] == ['-'] + Digits(m) && out[at + 1 + |Digits(m)|] == '\0'
    ensures forall k :: 0 <= k < out.Length && !(at <= k <= at + 1 + |Digits(m)|) ==> out[k] == old(out[k])
  {
    hide Digits;
    out[at] := '-';
    PutDigits(m, out, at + 1);
    Prepended(out[..], at, Digits(m));
  }

  lemma Prepended(s: string, at: nat, rest: string)
    requires at + 1 + |rest| <= |s| && s[at] == '-' && s[at + 1..at + 1 + |rest|] == rest
    ensures s[at..at + 1 + |rest|] == ['-'] + rest
  {
    assert s[at..at + 1 + |rest|] == [s[at]] + s[at + 1..at + 1 + |rest|];
  }

  /** Count the digits, terminate the text, and fill it in from the end. */
  method PutDigits(n: nat, out: array<char>, at: nat)
    requires n > 0 && at + |Digits(n)| < out.Length
    modifies out
    ensures out[at..at + |Digits(n)|] == Digits(n) && out[at + |Digits(n)|] == '\0'
    ensures forall k :: 0 <= k < out.Length && !(at <= k <= at + |Digits(n)|) ==> out[k] == old(out[k])
  {
    hide Digits;
    var size := CountDigits(n);
    out[at + size] := '\0';
    WriteDigits(n, out, at, at + size);
  }

  /** The writing loop, from the last digit back. */
  method WriteDigits(n: nat, out: array<char>, ghost start: nat, end: nat)
    requires n > 0 && start + |Digits(n)| == end < out.Length
    modifies out
    ensures out[start..end] == Digits(n)
    ensures forall k :: 0 <= k < out.Length && !(start <= k < end) ==> out[k] == old(out[k])
  {
    var i, m := end, n;
    while m > 0
      invariant start <= i <= end && m >= 0
      invariant m > 0 ==> i == start + |Digits(m)| && Digits(m) + out[i..end] == Digits(n)
      invariant m == 0 ==> i == start && out[i..end] == Digits(n)
      invariant forall k :: 0 <= k < out.Length && !(start <= k < end) ==> out[k] == old(out[k])
    {
      ghost var done := out[i..end];
      i := i - 1;
      out[i] := DigitChar(m % 10);
      assert out[i..end] == [DigitChar(m % 10)] + done;
      m := m / 10;
    }
  }
}
