/** The walk over DHCP options in net.cpp's e1000_check_rx (RFC 2132, section 2). */
module Dhcp {
  import opened Decimal
  import opened Octets

  const END_OPTION := 255
  const MASK := 1
  const ROUTER := 3
  const TYPE := 53

  /** What the walk has gathered: message type and the two addresses as text. */
  datatype Lease = Lease(kind: Octet, mask: string, router: string)

  function AddressAt(raw: seq<Octet>, j: nat): Address
    requires j + 4 <= |raw|
  {
    Address(raw[j], raw[j + 1], raw[j + 2], raw[j + 3])
  }

  /** One option at j; the receive buffer goes on beyond the packet's length. */
  function Take(raw: seq<Octet>, j: nat, lease: Lease): Lease
    requires j + 6 <= |raw|
  {
    lease.(kind := if raw[j] == TYPE then raw[j + 2] else lease.kind,
           mask := if raw[j] == MASK && raw[j + 1] == 4 then Dotted(AddressAt(raw, j + 2)) else lease.mask,
           router := if raw[j] == ROUTER && raw[j + 1] >= 4 then Dotted(AddressAt(raw, j + 2)) else lease.router)
  }

  /** The walk; each turn goes forward, so it ends on any bytes. */
  function Walk(raw: seq<Octet>, len: int, j: nat, lease: Lease): Lease
    requires len + 5 <= |raw|
    decreases len - j
  {
    if j >= len || raw[j] == END_OPTION then lease
    else if raw[j] == 0 then Walk(raw, len, j + 1, lease)
    else Walk(raw, len, j + 2 + raw[j + 1], Take(raw, j, lease))
  }

  // ----- option lists

  datatype Opt = Pad | Opt(code: Octet, data: seq<Octet>)

  /** A message type has a byte of data, a mask four, a router option at least one address. */
  predicate IsOption(o: Opt) {
    o.Opt? ==>
      && o.code != 0 && o.code != END_OPTION && |o.data| < 256
      && (o.code == TYPE ==> |o.data| == 1)
      && (o.code == MASK ==> |o.data| == 4)
      && (o.code == ROUTER ==> |o.data| >= 4)
  }

  predicate AreOptions(opts: seq<Opt>) { forall i :: 0 <= i < |opts| ==> IsOption(opts[i]) }

  function Encoded(o: Opt): (bytes: seq<Octet>)
    requires IsOption(o)
    ensures |bytes| > 0
  {
    match o
    case Pad => [0]
    case Opt(code, data) => [code, |data|] + data
  }

  function Encode(opts: seq<Opt>): seq<Octet>
    requires AreOptions(opts)
  {
    if opts == [] then [] else Encoded(opts[0]) + Encode(opts[1..])
  }

  /** raw holds the list at j; after it comes the end mark, or the packet ended within the last option or after it. */
  predicate Carries(raw: seq<Octet>, len: int, j: nat, opts: seq<Opt>)
    requires AreOptions(opts)
    decreases |opts|
  {
    if opts == [] then j >= len || (j < |raw| && raw[j] == END_OPTION)
    else
      var next := j + |Encoded(opts[0])|;
      j < len && next <= |raw| && raw[j..next] == Encoded(opts[0]) && Carries(raw, len, next, opts[1..])
  }

  lemma SliceSplits(raw: seq<Octet>, j: nat, a: seq<Octet>, b: seq<Octet>)
    requires j + |a + b| <= |raw| && raw[j..j + |a + b|] == a + b
    ensures raw[j..j + |a|] == a && raw[j + |a|..j + |a| + |b|] == b
  {
    assert raw[j..j + |a|] == (a + b)[..|a|];
    assert raw[j + |a|..j + |a| + |b|] == (a + b)[|a|..];
  }

  lemma CarriesMore(raw: seq<Octet>, len: int, j: nat, opts: seq<Opt>)
    requires AreOptions(opts) && opts != [] && j < len && j + |Encoded(opts[0])| <= |raw|
    requires raw[j..j + |Encoded(opts[0])|] == Encoded(opts[0])
    requires Carries(raw, len, j + |Encoded(opts[0])|, opts[1..])
    ensures Carries(raw, len, j, opts)
  {
  }

  /** The list followed by an end mark is carried, whatever comes after. */
  lemma {:induction false} EndMarkEnds(raw: seq<Octet>, len: int, j: nat, opts: seq<Opt>)
    requires AreOptions(opts) && j + |Encode(opts)| < len <= |raw|
    requires raw[j..j + |Encode(opts)|] == Encode(opts) && raw[j + |Encode(opts)|] == END_OPTION
    ensures Carries(raw, len, j, opts)
    decreases |opts|
  {
    hide Encoded, Encode, Carries;
    EncodeIs(opts);
    if opts == [] {
      CarriesNone(raw, len, j);
    } else {
      var a, b := Encoded(opts[0]), Encode(opts[1..]);
      SliceSplits(raw, j, a, b);
      EndMarkEnds(raw, len, j + |a|, opts[1..]);
      CarriesMore(raw, len, j, opts);
    }
  }

  lemma EncodeIs(opts: seq<Opt>)
    requires AreOptions(opts)
    ensures opts == [] ==> Encode(opts) == []
    ensures opts != [] ==> Encode(opts) == Encoded(opts[0]) + Encode(opts[1..])
  {
  }

  lemma CarriesNone(raw: seq<Octet>, len: int, j: nat)
    requires j < |raw| && raw[j] == END_OPTION
    ensures Carries(raw, len, j, [])
  {
  }

  predicate Has(opts: seq<Opt>, code: Octet) { exists i :: 0 <= i < |opts| && opts[i].Opt? && opts[i].code == code }

  /** Option i is the last with its code. */
  predicate IsLast(opts: seq<Opt>, i: int) {
    0 <= i < |opts| && opts[i].Opt? && forall k :: i < k < |opts| ==> !(opts[k].Opt? && opts[k].code == opts[i].code)
  }

  function First4(data: seq<Octet>): Address
    requires |data| >= 4
  {
    Address(data[0], data[1], data[2], data[3])
  }

  /** The lease says what the list says: the last message type, mask and router, or what was known before. */
  ghost predicate Says(lease: Lease, before: Lease, opts: seq<Opt>)
    requires AreOptions(opts)
  {
    && (forall i :: IsLast(opts, i) && opts[i].code == TYPE ==> lease.kind == opts[i].data[0])
    && (forall i :: IsLast(opts, i) && opts[i].code == MASK ==> lease.mask == Dotted(First4(opts[i].data)))
    && (forall i :: IsLast(opts, i) && opts[i].code == ROUTER ==> lease.router == Dotted(First4(opts[i].data)))
    && (!Has(opts, TYPE) ==> lease.kind == before.kind)
    && (!Has(opts, MASK) ==> lease.mask == before.mask)
    && (!Has(opts, ROUTER) ==> lease.router == before.router)
  }

  /** One option's effect, by its meaning. */
  function Apply(o: Opt, lease: Lease): Lease
    requires IsOption(o)
  {
    match o
    case Pad => lease
    case Opt(code, data) =>
      if code == TYPE then lease.(kind := data[0])
      else if code == MASK then lease.(mask := Dotted(First4(data)))
      else if code == ROUTER then lease.(router := Dotted(First4(data)))
      else lease
  }

  lemma TakeIsApply(raw: seq<Octet>, j: nat, o: Opt, lease: Lease)
    requires IsOption(o) && o.Opt? && j + 6 <= |raw| && j + |Encoded(o)| <= |raw|
    requires raw[j..j + |Encoded(o)|] == Encoded(o)
    ensures raw[j] == o.code && raw[j + 1] == |o.data| && Take(raw, j, lease) == Apply(o, lease)
  {
    hide Dotted;
    var e := Encoded(o);
    forall k | 0 <= k < |e| ensures raw[j + k] == e[k] {
      assert raw[j..j + |e|][k] == raw[j + k];
    }
    assert forall k :: 0 <= k < |o.data| ==> e[2 + k] == o.data[k];
    assert raw[j] == e[0] && raw[j + 1] == e[1];
    if o.code == TYPE {
      assert raw[j + 2] == e[2 + 0];
    } else if o.code == MASK || o.code == ROUTER {
      assert raw[j + 2] == e[2 + 0] && raw[j + 3] == e[2 + 1] && raw[j + 4] == e[2 + 2] && raw[j + 5] == e[2 + 3];
    }
  }

  /** The last option with its code stays the last when the first option is set aside. */
  lemma LastOfRest(opts: seq<Opt>, i: int)
    requires IsLast(opts, i) && i > 0
    ensures IsLast(opts[1..], i - 1) && opts[1..][i - 1] == opts[i]
  {
  }

  lemma HasSplits(opts: seq<Opt>, code: Octet)
    requires opts != []
    ensures Has(opts, code) <==> Has(opts[1..], code) || (opts[0].Opt? && opts[0].code == code)
    ensures IsLast(opts, 0) && opts[0].code == code ==> !Has(opts[1..], code)
  {
  }

  /** What the rest of the list says, after its first option. */
  lemma SaysAfter(lease: Lease, before: Lease, opts: seq<Opt>)
    requires opts != [] && AreOptions(opts) && Says(lease, Apply(opts[0], before), opts[1..])
    ensures Says(lease, before, opts)
  {
    hide Dotted, Has;
    HasSplits(opts, TYPE);
    HasSplits(opts, MASK);
    HasSplits(opts, ROUTER);
    forall i | IsLast(opts, i) && i > 0 ensures IsLast(opts[1..], i - 1) && opts[1..][i - 1] == opts[i] {
      LastOfRest(opts, i);
    }
  }

  /** The walk passes the first option of a list, with its effect. */
  lemma WalkStep(raw: seq<Octet>, len: int, j: nat, opts: seq<Opt>, lease: Lease)
    requires len + 5 <= |raw| && AreOptions(opts) && opts != [] && Carries(raw, len, j, opts)
    ensures Carries(raw, len, j + |Encoded(opts[0])|, opts[1..])
    ensures Walk(raw, len, j, lease) == Walk(raw, len, j + |Encoded(opts[0])|, Apply(opts[0], lease))
  {
    hide Take, Apply;
    var o, next := opts[0], j + |Encoded(opts[0])|;
    if o.Opt? {
      TakeIsApply(raw, j, o, lease);
    } else {
      assert raw[j] == raw[j..next][0] == 0;
      PadSaysNothing(lease);
    }
  }

  /** On any well-formed list, pads anywhere and options in any order, ended by its mark or by the
      packet's length, the walk gathers what the list says. */
  lemma {:induction false} WalkGathers(raw: seq<Octet>, len: int, j: nat, opts: seq<Opt>, lease: Lease)
    requires len + 5 <= |raw| && AreOptions(opts) && Carries(raw, len, j, opts)
    ensures Says(Walk(raw, len, j, lease), lease, opts)
    decreases |opts|
  {
    hide Says, Apply, Encoded;
    if opts == [] {
      SaysNothing(lease);
    } else {
      hide Walk, Carries;
      WalkStep(raw, len, j, opts, lease);
      WalkGathers(raw, len, j + |Encoded(opts[0])|, opts[1..], Apply(opts[0], lease));
      SaysAfter(Walk(raw, len, j, lease), lease, opts);
    }
  }

  lemma SaysNothing(lease: Lease)
    ensures Says(lease, lease, [])
  {
  }

  lemma PadSaysNothing(lease: Lease)
    ensures Apply(Pad, lease) == lease
  {
  }

  // ----- the code

  /** An offer's options byte by byte: 53 is the message type, 1 the mask, 3 the router, 255 the end. */
  lemma OfferReads(raw: seq<Octet>, len: int, j: nat, lease: Lease, kind: Octet, mask: seq<Octet>, router: seq<Octet>)
    requires |mask| == |router| == 4 && j + 16 <= len && len + 5 <= |raw|
    requires raw[j..j + 16] == [53, 1, kind] + [1, 4] + mask + [3, 4] + router + [255]
    ensures Walk(raw, len, j, lease)
         == Lease(kind, Dotted(Address(mask[0], mask[1], mask[2], mask[3])),
                  Dotted(Address(router[0], router[1], router[2], router[3])))
  {
    hide Dotted, Walk, Take;
    OfferBytes(raw[j..j + 16], kind, mask, router);
    var b := raw[j..j + 16];
    assert raw[j] == b[0] && raw[j + 1] == b[1] && raw[j + 2] == b[2] && raw[j + 3] == b[3] && raw[j + 4] == b[4];
    assert raw[j + 5] == b[5] && raw[j + 6] == b[6] && raw[j + 7] == b[7] && raw[j + 8] == b[8];
    assert raw[j + 9] == b[9] && raw[j + 10] == b[10] && raw[j + 11] == b[11] && raw[j + 12] == b[12];
    assert raw[j + 13] == b[13] && raw[j + 14] == b[14] && raw[j + 15] == b[15];
    OptionTaken(raw, len, j, lease);
    var l1 := Take(raw, j, lease);
    OptionTaken(raw, len, j + 3, l1);
    var l2 := Take(raw, j + 3, l1);
    OptionTaken(raw, len, j + 9, l2);
    EndReached(raw, len, j + 15, Take(raw, j + 9, l2));
  }

  /** What one option of the three kinds adds. */
  lemma OptionTaken(raw: seq<Octet>, len: int, j: nat, lease: Lease)
    requires j < len && len + 5 <= |raw| && raw[j] in {1, 3, 53}
    ensures Walk(raw, len, j, lease) == Walk(raw, len, j + 2 + raw[j + 1], Take(raw, j, lease))
    ensures raw[j] == 53 ==> Take(raw, j, lease) == lease.(kind := raw[j + 2])
    ensures raw[j] == 1 && raw[j + 1] == 4 ==>
              Take(raw, j, lease)
              == lease.(mask := Dotted(Address(raw[j + 2], raw[j + 3], raw[j + 4], raw[j + 5])))
    ensures raw[j] == 3 && raw[j + 1] == 4 ==>
              Take(raw, j, lease)
              == lease.(router := Dotted(Address(raw[j + 2], raw[j + 3], raw[j + 4], raw[j + 5])))
  {
    hide Dotted;
  }

  lemma EndReached(raw: seq<Octet>, len: int, j: nat, lease: Lease)
    requires j < |raw| && len + 5 <= |raw| && raw[j] == 255
    ensures Walk(raw, len, j, lease) == lease
  {
  }

  lemma OfferBytes(b: seq<Octet>, kind: Octet, mask: seq<Octet>, router: seq<Octet>)
    requires |mask| == |router| == 4 && b == [53, 1, kind] + [1, 4] + mask + [3, 4] + router + [255]
    ensures |b| == 16 && b[0] == 53 && b[1] == 1 && b[2] == kind && b[3] == 1 && b[4] == 4
    ensures b[5] == mask[0] && b[6] == mask[1] && b[7] == mask[2] && b[8] == mask[3] && b[9] == 3 && b[10] == 4
    ensures b[11] == router[0] && b[12] == router[1] && b[13] == router[2] && b[14] == router[3] && b[15] == 255
  {
  }

  class Client {
    const netMask: array<char>
    const gatewayIp: array<char>

    predicate Valid()
      reads this
    {
      netMask != gatewayIp && netMask.Length == 32 && gatewayIp.Length == 32
    }

    constructor ()
      ensures Valid() && fresh(netMask) && fresh(gatewayIp)
    {
      netMask := new char[32];
      gatewayIp := new char[32];
    }

    /** Four octets as dotted text, each written over the terminator of the one before. */
    static method WriteDotted(out: array<char>, x: Address)
      requires out.Length == 32
      modifies out
      ensures Holds(out[..], 0, Dotted(x))
    {
      hide Digits;
      OctetIsShort(x.a);
      OctetIsShort(x.b);
      OctetIsShort(x.c);
      OctetIsShort(x.d);
      var at := AppendOctet(out, 0, "", x.a);
      at := AppendPoint(out, at, Digits(x.a));
      at := AppendOctet(out, at, Digits(x.a) + ".", x.b);
      at := AppendPoint(out, at, Digits(x.a) + "." + Digits(x.b));
      at := AppendOctet(out, at, Digits(x.a) + "." + Digits(x.b) + ".", x.c);
      at := AppendPoint(out, at, Digits(x.a) + "." + Digits(x.b) + "." + Digits(x.c));
      at := AppendOctet(out, at, Digits(x.a) + "." + Digits(x.b) + "." + Digits(x.c) + ".", x.d);
    }

    static method AppendOctet(out: array<char>, at: nat, ghost sofar: string, n: Octet) returns (end: nat)
      requires at == |sofar| && at + |Digits(n)| < out.Length && out[..at] == sofar
      modifies out
      ensures end == at + |Digits(n)| < out.Length && Holds(out[..], 0, sofar + Digits(n))
    {
      hide Digits;
      IntToStr(n, out, at);
      assert out[..at] == sofar;
      DigitsAreNotZero(n);
      assert forall k :: 0 <= k < |Digits(n)| ==> out[at + k] == Digits(n)[k];
      assert forall k :: at <= k < at + |Digits(n)| ==> out[k] == Digits(n)[k - at];
      end := at;
      while out[end] != '\0'
        invariant at <= end <= at + |Digits(n)|
        decreases at + |Digits(n)| - end
      {
        end := end + 1;
      }
      assert out[..end] == out[..at] + out[at..end];
    }

    static method AppendPoint(out: array<char>, at: nat, ghost sofar: string) returns (next: nat)
      requires at < out.Length && Holds(out[..], 0, sofar) && at == |sofar|
      modifies out
      ensures next == at + 1 && out[..next] == sofar + "."
    {
      out[at] := '.';
      next := at + 1;
      assert out[..at] == sofar;
    }

    /** The option loop of e1000_check_rx. */
    method WalkOptions(raw: array<Octet>, len: int, start: nat, ghost before: Lease) returns (kind: Octet)
      requires Valid() && len + 5 <= raw.Length && before.kind == 0
      requires Holds(netMask[..], 0, before.mask) && Holds(gatewayIp[..], 0, before.router)
      modifies netMask, gatewayIp
      ensures kind == Walk(raw[..], len, start, before).kind
      ensures Holds(netMask[..], 0, Walk(raw[..], len, start, before).mask)
      ensures Holds(gatewayIp[..], 0, Walk(raw[..], len, start, before).router)
    {
      hide Holds, Dotted;
      var j := start;
      kind := 0;
      ghost var bytes, lease := raw[..], before;
      while j < len && raw[j] != END_OPTION
        modifies netMask, gatewayIp
        invariant lease.kind == kind
        invariant Holds(netMask[..], 0, lease.mask) && Holds(gatewayIp[..], 0, lease.router)
        invariant Walk(bytes, len, start, before) == Walk(bytes, len, j, lease)
        decreases len - j
      {
        var opt := raw[j];
        if opt == 0 {
          j := j + 1;
          continue;
        }
        var optLen := raw[j + 1];
        lease := Take(bytes, j, lease);
        if opt == TYPE {
          kind := raw[j + 2];
        }
        if opt == MASK && optLen == 4 {
          WriteDotted(netMask, Address(raw[j + 2], raw[j + 3], raw[j + 4], raw[j + 5]));
        }
        if opt == ROUTER && optLen >= 4 {
          WriteDotted(gatewayIp, Address(raw[j + 2], raw[j + 3], raw[j + 4], raw[j + 5]));
        }
        j := j + 2 + optLen;
      }
    }
  }
}
