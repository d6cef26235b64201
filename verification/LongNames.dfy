/** The directory search of cosmos_ahci.cpp's fat32_load_file: long names assembled from their
    13-character parts, and the comparison with the file asked for. */
module LongNames {
  import opened Arith
  import opened Octets

  const BUFFER := 256
  const PART := 13

  predicate IsEntry(e: seq<Octet>) { |e| == 32 }

  /** A 32-byte directory entry. */
  type DirEntry = e: seq<Octet> | IsEntry(e) witness seq(32, _ => 0)

  predicate IsBuffer(b: seq<Octet>) { |b| == BUFFER }

  function Zeros(): (z: seq<Octet>) ensures IsBuffer(z) { seq(BUFFER, _ => 0) }

  /** What the code compares with 0xE5: a char, which is signed. */
  predicate LooksDeleted(e: DirEntry) { Char(e[0]) == 0xE5 }

  predicate IsLong(e: DirEntry) { e[11] == 0x0F }

  predicate IsLabel(e: DirEntry) { e[11] / 8 % 2 == 1 }

  function Sequence(e: DirEntry): (s: int) ensures 0 <= s < 32 { e[0] % 32 }

  /** Where the low byte of character j of a long-name entry is. */
  function At(j: int): (at: int)
    requires 0 <= j < PART
    ensures 1 <= at < 32
  {
    if j < 5 then 1 + 2 * j else if j < 11 then 14 + 2 * (j - 5) else 28 + 2 * (j - 11)
  }

  /** The 13 characters of e copied to their place; number 20 would end beyond the buffer. */
  function Gather(buf: seq<Octet>, e: DirEntry): (after: seq<Octet>)
    requires IsBuffer(buf) && Sequence(e) != 20
    ensures IsBuffer(after)
  {
    var s := Sequence(e);
    if s == 0 || s > 20 then buf else Patched(buf, e, PART * (s - 1), 0, PART)
  }

  /** Characters lo to hi of e copied to the part of the buffer that starts at `from`. */
  function Patched(buf: seq<Octet>, e: DirEntry, from: int, lo: int, hi: int): (after: seq<Octet>)
    requires IsBuffer(buf) && 0 <= lo <= hi <= PART
    ensures IsBuffer(after)
  {
    seq(BUFFER, c requires 0 <= c < BUFFER => if from + lo <= c < from + hi then e[At(c - from)] else buf[c])
  }

  function Cluster(e: DirEntry): int { Le16(e, 20) * 0x1_0000 + Le16(e, 26) }

  /** Character c of a zero-terminated string. */
  function CharAt(s: seq<Octet>, c: int): Octet
    requires 0 <= c
  {
    if c < |s| then s[c] else 0
  }

  /** The comparison with the assembled name, from character c on. */
  predicate SameFrom(buf: seq<Octet>, target: seq<Octet>, c: int)
    requires IsBuffer(buf) && 0 <= c <= 255
    decreases 255 - c
  {
    || c == 255
    || (buf[c] == 0 && CharAt(target, c) == 0)
    || (buf[c] == CharAt(target, c) && SameFrom(buf, target, c + 1))
  }

  /** The comparison with the 11 characters of a short name. */
  predicate SameShort(e: DirEntry, target: seq<Octet>) {
    forall c :: 0 <= c < 11 ==> e[c] == CharAt(target, c)
  }

  predicate IsMatch(e: DirEntry, buf: seq<Octet>, hasLfn: bool, target: seq<Octet>)
    requires IsBuffer(buf)
  {
    if hasLfn then SameFrom(buf, target, 0) else SameShort(e, target)
  }

  predicate NoPart20(es: seq<DirEntry>) { forall i :: 0 <= i < |es| ==> IsLong(es[i]) ==> Sequence(es[i]) != 20 }

  /** The search through the entries that are left; 0 is "not found". */
  function Look(es: seq<DirEntry>, buf: seq<Octet>, hasLfn: bool, target: seq<Octet>): int
    requires IsBuffer(buf) && NoPart20(es)
    decreases |es|
  {
    if es == [] then 0
    else
      var e, rest := es[0], es[1..];
      if e[0] == 0 then 0
      else if LooksDeleted(e) then Look(rest, buf, false, target)
      else if IsLong(e) then Look(rest, Gather(buf, e), true, target)
      else if IsLabel(e) then Look(rest, buf, false, target)
      else if IsMatch(e, buf, hasLfn, target) then Cluster(e)
      else Look(rest, Zeros(), false, target)
  }

  // ----- what a name is, and how it is stored

  /** A zero-terminated string: the bytes before the first zero. */
  function UpToZero(s: seq<Octet>): (r: seq<Octet>)
    ensures |r| <= |s| && r == s[..|r|]
    ensures forall i :: 0 <= i < |r| ==> r[i] != 0
    ensures |r| < |s| ==> s[|r|] == 0
  {
    if s == [] || s[0] == 0 then [] else [s[0]] + UpToZero(s[1..])
  }

  /** The loop accepts exactly the equal string. */
  lemma {:induction false} SameFromIsEquality(buf: seq<Octet>, target: seq<Octet>, c: int)
    requires IsBuffer(buf) && |UpToZero(buf)| < 255 && 0 <= c <= |UpToZero(buf)| && c <= |target|
    requires forall i :: 0 <= i < |target| ==> target[i] != 0
    requires buf[..c] == target[..c]
    ensures SameFrom(buf, target, c) <==> UpToZero(buf) == target
    decreases 255 - c
  {
    var name := UpToZero(buf);
    assert name[..c] == target[..c];
    if c == |name| {
      assert buf[c] == 0;
      if c == |target| {
        assert name == name[..c] == target;
      }
    } else {
      assert buf[c] == name[c] != 0;
      if c < |target| && buf[c] == target[c] {
        assert buf[..c + 1] == target[..c + 1];
        SameFromIsEquality(buf, target, c + 1);
      }
    }
  }

  /** A long name as the disk stores it: 16-bit characters. */
  type Wide = x: int | 0 <= x < 0x1_0000 witness 0

  function LowBytes(name: seq<Wide>): seq<Octet> { seq(|name|, i requires 0 <= i < |name| => name[i] % 256) }

  /** How many entries a name takes. */
  function Parts(name: seq<Wide>): int { (|name| + PART - 1) / PART }

  /** The padded name: a terminator if there is room for it, then 0xFFFF. */
  function Padded(name: seq<Wide>, c: int): Wide
    requires 0 <= c
  {
    if c < |name| then name[c] else if c == |name| then 0 else 0xFFFF
  }

  /** e stores part s of the name. */
  predicate StoresPart(e: DirEntry, name: seq<Wide>, s: int)
    requires 1 <= s
  {
    && IsLong(e) && e[0] != 0 && Sequence(e) == s
    && forall j :: 0 <= j < PART ==>
         e[At(j)] == Padded(name, PART * (s - 1) + j) % 256 && e[At(j) + 1] == Padded(name, PART * (s - 1) + j) / 256
  }

  predicate IsName(name: seq<Wide>) { 1 <= |name| <= PART * 19 }

  /** The entries of a name: every part is there, in any order. */
  predicate StoresName(es: seq<DirEntry>, name: seq<Wide>)
    requires IsName(name)
  {
    && (forall i :: 0 <= i < |es| ==> 1 <= Sequence(es[i]) <= Parts(name) && StoresPart(es[i], name, Sequence(es[i])))
    && (forall s :: 1 <= s <= Parts(name) ==> s in Seen(es))
  }

  /** The parts among the entries. */
  function Seen(es: seq<DirEntry>): set<int> { set i | 0 <= i < |es| :: Sequence(es[i]) }

  /** Part 5 of the buffer, where a deleted long-name entry's characters go. */
  const MARK := 52

  type Mark = m: seq<Octet> | |m| == PART witness seq(PART, _ => 0)

  function NoMark(): Mark { seq(PART, _ => 0) }

  /** A buffer with nothing but a mark in it. */
  function Marked(mark: Mark): (buf: seq<Octet>)
    ensures IsBuffer(buf)
  {
    seq(BUFFER, c requires 0 <= c < BUFFER => if MARK <= c < MARK + PART then mark[c - MARK] else 0)
  }

  /** The parts in `done` are in place, the rest of the buffer is as it was. */
  predicate Assembled(buf: seq<Octet>, name: seq<Wide>, done: set<int>, mark: Mark)
    requires IsBuffer(buf)
  {
    forall c :: 0 <= c < BUFFER ==>
      buf[c] == if c / PART + 1 in done then Padded(name, c) % 256 else Marked(mark)[c]
  }

  lemma {:induction false} GatherStep(buf: seq<Octet>, e: DirEntry, name: seq<Wide>, done: set<int>, mark: Mark)
    requires IsBuffer(buf) && IsName(name) && Assembled(buf, name, done, mark)
    requires 1 <= Sequence(e) <= 19 && StoresPart(e, name, Sequence(e))
    ensures Assembled(Gather(buf, e), name, done + {Sequence(e)}, mark)
  {
    hide Padded, Sequence, At, Marked;
    var s, after := Sequence(e), Gather(buf, e);
    forall c | 0 <= c < BUFFER
      ensures after[c] == if c / PART + 1 in done + {s} then Padded(name, c) % 256 else Marked(mark)[c]
    {
      if PART * (s - 1) <= c < PART * s {
        DivModIs(c, PART, s - 1, c - PART * (s - 1));
      }
    }
  }

  predicate AllLong(es: seq<DirEntry>) { forall i :: 0 <= i < |es| ==> IsLong(es[i]) && es[i][0] != 0 }

  function GatherAll(es: seq<DirEntry>, buf: seq<Octet>): (after: seq<Octet>)
    requires IsBuffer(buf) && AllLong(es) && NoPart20(es)
    ensures IsBuffer(after)
  {
    if es == [] then buf else GatherAll(es[1..], Gather(buf, es[0]))
  }

  /** The search walks through the parts of a name gathering them. */
  lemma {:induction false} LookGathers(es: seq<DirEntry>, rest: seq<DirEntry>, buf: seq<Octet>, has: bool,
                                       target: seq<Octet>)
    requires IsBuffer(buf) && AllLong(es) && NoPart20(es) && NoPart20(rest)
    ensures NoPart20(es + rest)
    ensures Look(es + rest, buf, has, target) == Look(rest, GatherAll(es, buf), has || es != [], target)
  {
    hide Gather, Sequence, IsMatch;
    if es == [] {
      assert es + rest == rest;
    } else {
      assert (es + rest)[1..] == es[1..] + rest;
      LookGathers(es[1..], rest, Gather(buf, es[0]), true, target);
    }
  }

  lemma {:induction false} GatherAllAssembles(es: seq<DirEntry>, buf: seq<Octet>, name: seq<Wide>, done: set<int>,
                                              mark: Mark)
    requires IsBuffer(buf) && IsName(name) && AllLong(es) && NoPart20(es) && Assembled(buf, name, done, mark)
    requires forall i :: 0 <= i < |es| ==> 1 <= Sequence(es[i]) <= 19 && StoresPart(es[i], name, Sequence(es[i]))
    ensures Assembled(GatherAll(es, buf), name, done + Seen(es), mark)
  {
    hide Gather, Sequence, Assembled, StoresPart;
    if es == [] {
      assert done + Seen(es) == done;
    } else {
      GatherStep(buf, es[0], name, done, mark);
      GatherAllAssembles(es[1..], Gather(buf, es[0]), name, done + {Sequence(es[0])}, mark);
      SeenSplits(es);
      assert done + {Sequence(es[0])} + Seen(es[1..]) == done + Seen(es);
    }
  }

  lemma SeenSplits(es: seq<DirEntry>)
    requires es != []
    ensures Seen(es) == {Sequence(es[0])} + Seen(es[1..])
  {
  }

  lemma {:induction false} SameUpToZero(s: seq<Octet>, t: seq<Octet>)
    requires |t| < |s| && s[..|t|] == t && s[|t|] == 0
    ensures UpToZero(s) == UpToZero(t)
  {
  }

  /** What the buffer then reads: a name of exactly four parts has no terminator, and ends where the
      mark ends. */
  function Read(name: seq<Wide>, mark: Mark): seq<Octet> {
    UpToZero(LowBytes(name) + if |name| == MARK then mark else [])
  }

  /** Whatever the order of its parts, the assembled name is the name, with or without room for a
      terminator in its last part; only a mark behind exactly four parts can be read as more of it. */
  lemma {:induction false} NameIsAssembled(es: seq<DirEntry>, name: seq<Wide>, mark: Mark)
    requires IsName(name) && StoresName(es, name)
    ensures AllLong(es) && NoPart20(es) && UpToZero(GatherAll(es, Marked(mark))) == Read(name, mark)
    ensures |Read(name, mark)| <= PART * 19
  {
    hide Read, LowBytes;
    var buf := GatherAll(es, Marked(mark));
    GatherAllAssembles(es, Marked(mark), name, {}, mark);
    assert {} + Seen(es) == Seen(es);
    forall s ensures s in Seen(es) <==> 1 <= s <= Parts(name) {
    }
    AssembledReads(buf, name, Seen(es), mark);
  }

  lemma AssembledReads(buf: seq<Octet>, name: seq<Wide>, done: set<int>, mark: Mark)
    requires IsBuffer(buf) && IsName(name) && Assembled(buf, name, done, mark)
    requires forall s :: s in done <==> 1 <= s <= Parts(name)
    ensures UpToZero(buf) == Read(name, mark) && |Read(name, mark)| <= PART * 19
  {
    hide UpToZero, Marked, Parts;
    var n := |name|;
    forall c | 0 <= c < n ensures buf[c] == LowBytes(name)[c] {
      PartOf(name, c);
    }
    PartOf(name, n);
    if n == MARK {
      FourParts(name);
      MarkedAt(mark);
      forall j | 0 <= j < PART ensures buf[MARK + j] == mark[j] {
        assert (MARK + j) / PART + 1 == 5;
      }
      assert buf[..MARK + PART] == LowBytes(name) + mark;
      ReadsUpTo(buf, LowBytes(name) + mark);
    } else {
      MarkedAt(mark);
      EndsInZero(name);
      assert buf[n] == 0;
      assert buf[..n] == LowBytes(name) == LowBytes(name) + [];
      ReadsUpTo(buf, LowBytes(name));
    }
  }

  lemma MarkedAt(mark: Mark)
    ensures forall c :: 0 <= c < BUFFER ==>
              Marked(mark)[c] == if MARK <= c < MARK + PART then mark[c - MARK] else 0
  {
  }

  lemma ReadsUpTo(s: seq<Octet>, t: seq<Octet>)
    requires |t| < |s| && s[..|t|] == t && s[|t|] == 0
    ensures UpToZero(s) == UpToZero(t) && |UpToZero(t)| <= |t|
  {
    SameUpToZero(s, t);
  }

  lemma FourParts(name: seq<Wide>)
    requires |name| == MARK
    ensures Parts(name) == 4
    ensures forall j {:trigger MARK + j} :: 0 <= j < PART ==> (MARK + j) / PART + 1 == 5
    ensures (MARK + PART) / PART + 1 == 6
  {
  }

  /** Behind a name there is its terminator, or a part that is not one of its own. */
  lemma EndsInZero(name: seq<Wide>)
    requires IsName(name) && |name| != MARK
    ensures |name| / PART + 1 > Parts(name) ==> !(MARK <= |name| < MARK + PART)
  {
  }

  /** The parts reach every character, and end at most 12 characters after the last. */
  lemma PartOf(name: seq<Wide>, c: int)
    requires IsName(name) && 0 <= c <= |name|
    ensures 1 <= Parts(name) <= 19
    ensures c < |name| ==> 1 <= c / PART + 1 <= Parts(name)
    ensures c == |name| && c / PART + 1 <= Parts(name) ==> Padded(name, c) == 0
  {
  }

  // ----- a whole directory

  /** What a directory is made of.  A deleted file is its long-name entries, each a Stray, and a File
      without a long name whose first character is 0xE5. */
  datatype Item =
    | File(long: seq<DirEntry>, name: seq<Wide>, short: DirEntry)
    | Label(entry: DirEntry)
    | Stray(entry: DirEntry)

  /** A file's long-name entries, if it has any, come right before its short entry and store its name;
      deleted long-name entries may be anywhere between items. */
  predicate WellFormed(item: Item) {
    match item
    case File(long, name, short) =>
      && short[0] != 0 && !IsLong(short) && !IsLabel(short)
      && (long != [] ==> IsName(name) && StoresName(long, name))
    case Label(e) => e[0] != 0 && !IsLong(e) && IsLabel(e)
    case Stray(e) => e[0] == 0xE5 && IsLong(e)
  }

  predicate AreItems(items: seq<Item>) { forall i :: 0 <= i < |items| ==> WellFormed(items[i]) }

  predicate IsText(target: seq<Octet>) { forall i :: 0 <= i < |target| ==> target[i] != 0 }

  function EntriesOfItem(item: Item): seq<DirEntry> {
    match item
    case File(long, _, short) => long + [short]
    case Label(e) => [e]
    case Stray(e) => [e]
  }

  function Entries(items: seq<Item>): seq<DirEntry> {
    if items == [] then [] else EntriesOfItem(items[0]) + Entries(items[1..])
  }

  predicate Ended(rest: seq<DirEntry>) { rest == [] || rest[0][0] == 0 }

  /** The characters of an entry, low bytes only. */
  function Chars(e: DirEntry): Mark { seq(PART, j requires 0 <= j < PART => e[At(j)]) }

  /** What deleted long-name entries since the last file left in the buffer, before item i. */
  function MarkAt(items: seq<Item>, i: int): Mark
    requires 0 <= i <= |items|
  {
    if i == 0 || items[i - 1].File? then NoMark()
    else if items[i - 1].Stray? then Chars(items[i - 1].entry)
    else MarkAt(items, i - 1)
  }

  /** A deleted long-name entry comes right before item i. */
  predicate AfterStray(items: seq<Item>, i: int)
    requires 0 <= i <= |items|
  {
    i > 0 && items[i - 1].Stray?
  }

  /** Item i answers when it is asked for as `target`. */
  predicate Answers(items: seq<Item>, i: int, target: seq<Octet>)
    requires 0 <= i < |items|
  {
    items[i].File? &&
    if items[i].long != [] then Read(items[i].name, MarkAt(items, i)) == target
    else if AfterStray(items, i) then target == []
    else SameShort(items[i].short, target)
  }

  /** The first cluster of the first item from i on that answers. */
  function FirstAnswer(items: seq<Item>, i: int, target: seq<Octet>): int
    requires 0 <= i <= |items|
    decreases |items| - i
  {
    if i == |items| then 0
    else if Answers(items, i, target) then Cluster(items[i].short)
    else FirstAnswer(items, i + 1, target)
  }

  lemma NeverLooksDeleted(e: DirEntry)
    ensures !LooksDeleted(e)
  {
  }

  /** A deleted long-name entry goes to part 5, whatever part it was. */
  lemma StrayLeavesMark(e: DirEntry, mark: Mark)
    requires e[0] == 0xE5
    ensures Sequence(e) == 5 && Gather(Marked(mark), e) == Marked(Chars(e))
  {
    assert Sequence(e) == 5;
    assert forall c :: 0 <= c < BUFFER ==> Gather(Marked(mark), e)[c] == Marked(Chars(e))[c];
  }

  lemma MarkReadsEmpty(mark: Mark)
    ensures UpToZero(Marked(mark)) == []
  {
    assert Marked(mark)[0] == 0;
  }

  /** One file of a directory: the comparison accepts exactly what the buffer reads, or the short name,
      and both are forgotten afterwards. */
  lemma {:induction false} LookAtFile(item: Item, rest: seq<DirEntry>, mark: Mark, has: bool, target: seq<Octet>)
    requires item.File? && WellFormed(item) && NoPart20(rest) && IsText(target)
    ensures NoPart20(item.long + [item.short] + rest)
    ensures Look(item.long + [item.short] + rest, Marked(mark), has, target)
         == if (if item.long != [] then Read(item.name, mark) == target
                else if has then target == [] else SameShort(item.short, target))
            then Cluster(item.short) else Look(rest, Zeros(), false, target)
  {
    hide Sequence, StoresName, Seen, Gather, SameShort, Read, LooksDeleted, Cluster, Marked, SameFrom, UpToZero;
    var es, tail := item.long, [item.short] + rest;
    assert item.long + [item.short] + rest == es + tail;
    assert tail[1..] == rest;
    NeverLooksDeleted(item.short);
    if es != [] {
      NameIsAssembled(es, item.name, mark);
      SameFromIsEquality(GatherAll(es, Marked(mark)), target, 0);
    } else {
      MarkReadsEmpty(mark);
      SameFromIsEquality(Marked(mark), target, 0);
    }
    LookGathers(es, tail, Marked(mark), has, target);
  }

  lemma ItemsGoOn(items: seq<Item>, i: int, rest: seq<DirEntry>)
    requires 0 <= i < |items|
    ensures Entries(items[i..]) + rest == EntriesOfItem(items[i]) + (Entries(items[i + 1..]) + rest)
  {
    assert items[i..][1..] == items[i + 1..];
  }

  /** The search from item i on. */
  lemma {:induction false} LookFromItem(items: seq<Item>, i: int, rest: seq<DirEntry>, target: seq<Octet>)
    requires AreItems(items) && 0 <= i <= |items| && Ended(rest) && NoPart20(rest) && IsText(target)
    ensures NoPart20(Entries(items[i..]) + rest)
    ensures Look(Entries(items[i..]) + rest, Marked(MarkAt(items, i)), AfterStray(items, i), target)
         == FirstAnswer(items, i, target)
    decreases |items| - i
  {
    hide StoresName, LooksDeleted, SameShort, Read, Gather, Marked, Cluster, Sequence, Zeros, NoMark, Chars;
    if i == |items| {
      assert Entries(items[i..]) + rest == rest;
    } else {
      var item, more := items[i], Entries(items[i + 1..]) + rest;
      LookFromItem(items, i + 1, rest, target);
      ItemsGoOn(items, i, rest);
      NoMarkIsZeros();
      match item
      case File(long, name, short) =>
        LookAtFile(item, more, MarkAt(items, i), AfterStray(items, i), target);
      case Label(e) =>
        assert ([e] + more)[1..] == more;
        NeverLooksDeleted(e);
      case Stray(e) =>
        assert ([e] + more)[1..] == more;
        NeverLooksDeleted(e);
        StrayLeavesMark(e, MarkAt(items, i));
    }
  }

  lemma NoMarkIsZeros()
    ensures Marked(NoMark()) == Zeros()
  {
  }

  /** In any directory of files, labels and deleted entries the search finds the first item that answers. */
  lemma FindsTheFirst(items: seq<Item>, rest: seq<DirEntry>, target: seq<Octet>)
    requires AreItems(items) && Ended(rest) && NoPart20(rest) && IsText(target)
    ensures NoPart20(Entries(items) + rest)
    ensures Look(Entries(items) + rest, Zeros(), false, target) == FirstAnswer(items, 0, target)
  {
    hide Look, Marked, Zeros, NoMark;
    NoMarkIsZeros();
    assert items[0..] == items;
    LookFromItem(items, 0, rest, target);
  }

  // ----- what deleted entries change

  /** The name a file should answer to: its long one if it has one, its 11 characters if not. */
  predicate IsNamed(item: Item, target: seq<Octet>)
    requires item.File?
  {
    if item.long == [] then SameShort(item.short, target) else UpToZero(LowBytes(item.name)) == target
  }

  /** A short-named file right behind a deleted long-name entry, and a file with a name of exactly four
      parts when a deleted long-name entry left a character behind them. */
  predicate Misled(items: seq<Item>, i: int)
    requires 0 <= i < |items| && items[i].File?
  {
    if items[i].long == [] then AfterStray(items, i)
    else |items[i].name| == MARK && IsText(LowBytes(items[i].name)) && MarkAt(items, i)[0] != 0
  }

  lemma {:induction false} TextReadsOn(s: seq<Octet>, t: seq<Octet>)
    ensures UpToZero(s + t) == if IsText(s) then s + UpToZero(t) else UpToZero(s)
    ensures IsText(s) ==> UpToZero(s) == s
  {
    hide IsText;
    TextIs(s);
    if s == [] {
      assert s + t == t;
    } else {
      assert (s + t)[1..] == s[1..] + t;
      TextReadsOn(s[1..], t);
      assert s == [s[0]] + s[1..];
      assert [s[0]] + (s[1..] + UpToZero(t)) == s + UpToZero(t);
    }
  }

  lemma TextIs(s: seq<Octet>)
    ensures IsText(s) <==> s == [] || (s[0] != 0 && IsText(s[1..]))
  {
    if s != [] {
      assert forall k :: 0 <= k < |s[1..]| ==> s[1..][k] == s[k + 1];
      assert forall k :: 0 < k < |s| ==> s[k] == s[1..][k - 1];
    }
  }

  /** Exactly which files a deleted entry makes answer to something else than their name. */
  lemma {:induction false} AnswersToItsNameIff(items: seq<Item>, i: int)
    requires AreItems(items) && 0 <= i < |items| && items[i].File?
    ensures !Misled(items, i) <==> forall target :: IsText(target) ==>
              (Answers(items, i, target) <==> IsNamed(items[i], target))
    ensures Misled(items, i) ==> forall target :: target != [] && IsText(target) ==>
              !(Answers(items, i, target) && IsNamed(items[i], target))
  {
    hide LowBytes, StoresName;
    var item, mark := items[i], MarkAt(items, i);
    if item.long == [] {
      assert IsText([]) && !SameShort(item.short, []);
    } else {
      var low := LowBytes(item.name);
      TextReadsOn(low, mark);
      TextReadsOn(low, []);
      assert low + [] == low;
      assert IsText(UpToZero(low));
    }
  }

  /** So without misled files deleted long-name entries change no answer. */
  function First(items: seq<Item>, i: int, target: seq<Octet>): int
    requires 0 <= i <= |items|
    decreases |items| - i
  {
    if i == |items| then 0
    else if items[i].File? && IsNamed(items[i], target) then Cluster(items[i].short)
    else First(items, i + 1, target)
  }

  lemma {:induction false} FirstIsFirstAnswer(items: seq<Item>, i: int, target: seq<Octet>)
    requires AreItems(items) && 0 <= i <= |items| && IsText(target)
    requires forall k :: 0 <= k < |items| && items[k].File? ==> !Misled(items, k)
    ensures FirstAnswer(items, i, target) == First(items, i, target)
    decreases |items| - i
  {
    hide Misled, Answers, IsNamed;
    if i < |items| {
      FirstIsFirstAnswer(items, i + 1, target);
      if items[i].File? {
        AnswersToItsNameIff(items, i);
      } else {
        OnlyFilesAnswer(items, i, target);
      }
    }
  }

  lemma OnlyFilesAnswer(items: seq<Item>, i: int, target: seq<Octet>)
    requires 0 <= i < |items|
    ensures Answers(items, i, target) ==> items[i].File?
  {
  }

  /** The search finds the first file of that name when no file is misled. */
  lemma FindsTheFirstNamed(items: seq<Item>, rest: seq<DirEntry>, target: seq<Octet>)
    requires AreItems(items) && Ended(rest) && NoPart20(rest) && IsText(target)
    requires forall k :: 0 <= k < |items| && items[k].File? ==> !Misled(items, k)
    ensures NoPart20(Entries(items) + rest)
    ensures Look(Entries(items) + rest, Zeros(), false, target) == First(items, 0, target)
  {
    hide *;
    FindsTheFirst(items, rest, target);
    FirstIsFirstAnswer(items, 0, target);
  }

  /** And a file that is the only one to ask for is found exactly when it is not misled, wherever in the
      directory it is and whatever was deleted before it. */
  lemma FoundIffNotMisled(items: seq<Item>, i: int, rest: seq<DirEntry>, target: seq<Octet>)
    requires AreItems(items) && Ended(rest) && NoPart20(rest) && IsText(target) && target != []
    requires 0 <= i < |items| && items[i].File? && IsNamed(items[i], target) && Cluster(items[i].short) != 0
    requires forall k :: 0 <= k < |items| && k != i ==> !Answers(items, k, target)
    ensures NoPart20(Entries(items) + rest)
    ensures Look(Entries(items) + rest, Zeros(), false, target) == Cluster(items[i].short) <==> !Misled(items, i)
  {
    hide Misled, Answers, IsNamed, Look, Cluster, WellFormed;
    FindsTheFirst(items, rest, target);
    AnswersToItsNameIff(items, i);
    OnlyAnswer(items, 0, i, target);
  }

  lemma {:induction false} OnlyAnswer(items: seq<Item>, j: int, i: int, target: seq<Octet>)
    requires 0 <= j <= |items| && 0 <= i < |items|
    requires forall k :: 0 <= k < |items| && k != i ==> !Answers(items, k, target)
    ensures FirstAnswer(items, j, target)
         == if j <= i && Answers(items, i, target) then Cluster(items[i].short) else 0
    decreases |items| - j
  {
    hide Answers, Cluster;
    if j < |items| {
      OnlyAnswer(items, j + 1, i, target);
    }
  }

  /** A deleted file answers to its short name, 0xE5 in front, exactly when none of its long-name entries
      is left before it. */
  lemma DeletedFileAnswersIff(items: seq<Item>, i: int, target: seq<Octet>)
    requires AreItems(items) && 0 <= i < |items| && items[i].File? && items[i].long == []
    requires items[i].short[0] == 0xE5 && IsText(target) && SameShort(items[i].short, target)
    ensures Answers(items, i, target) <==> !AfterStray(items, i)
  {
    assert CharAt(target, 0) == 0xE5;
  }

  // ----- the code

  /** The sixteen entries of a directory sector. */
  function EntriesOf(sector: seq<Octet>): (es: seq<DirEntry>)
    requires |sector| == 512
    ensures |es| == 16
  {
    seq(16, i requires 0 <= i < 16 => sector[32 * i..32 * i + 32])
  }

  method ClearName(lfn: array<Octet>)
    requires lfn.Length == BUFFER
    modifies lfn
    ensures lfn[..] == Zeros()
  {
    for l := 0 to BUFFER
      invariant forall k :: 0 <= k < l ==> lfn[k] == 0
    {
      lfn[l] := 0;
    }
  }

  /** name_part_1. */
  method GatherFirst(lfn: array<Octet>, e: DirEntry, offset: nat)
    requires lfn.Length == BUFFER && offset + PART <= BUFFER
    modifies lfn
    ensures lfn[..] == Patched(old(lfn[..]), e, offset, 0, 5)
  {
    lfn[offset + 0], lfn[offset + 1], lfn[offset + 2] := e[1], e[3], e[5];
    lfn[offset + 3], lfn[offset + 4] := e[7], e[9];
    forall c | 0 <= c < BUFFER ensures lfn[c] == Patched(old(lfn[..]), e, offset, 0, 5)[c] {
      if offset + 0 <= c < offset + 5 {
        var j := c - offset;
        assert lfn[offset + j] == e[At(j)];
      }
    }
  }

  /** name_part_2. */
  method GatherSecond(lfn: array<Octet>, e: DirEntry, offset: nat)
    requires lfn.Length == BUFFER && offset + PART <= BUFFER
    modifies lfn
    ensures lfn[..] == Patched(old(lfn[..]), e, offset, 5, 11)
  {
    lfn[offset + 5], lfn[offset + 6], lfn[offset + 7] := e[14], e[16], e[18];
    lfn[offset + 8], lfn[offset + 9], lfn[offset + 10] := e[20], e[22], e[24];
    forall c | 0 <= c < BUFFER ensures lfn[c] == Patched(old(lfn[..]), e, offset, 5, 11)[c] {
      if offset + 5 <= c < offset + 11 {
        var j := c - offset;
        assert lfn[offset + j] == e[At(j)];
      }
    }
  }

  /** name_part_3. */
  method GatherThird(lfn: array<Octet>, e: DirEntry, offset: nat)
    requires lfn.Length == BUFFER && offset + PART <= BUFFER
    modifies lfn
    ensures lfn[..] == Patched(old(lfn[..]), e, offset, 11, 13)
  {
    lfn[offset + 11], lfn[offset + 12] := e[28], e[30];
    forall c | 0 <= c < BUFFER ensures lfn[c] == Patched(old(lfn[..]), e, offset, 11, 13)[c] {
      if offset + 11 <= c < offset + 13 {
        var j := c - offset;
        assert lfn[offset + j] == e[At(j)];
      }
    }
  }

  lemma PatchesJoin(buf: seq<Octet>, e: DirEntry, from: nat)
    requires IsBuffer(buf) && from + PART <= BUFFER
    ensures Patched(Patched(Patched(buf, e, from, 0, 5), e, from, 5, 11), e, from, 11, PART)
         == Patched(buf, e, from, 0, PART)
  {
  }

  /** A long-name entry's 13 characters, low bytes only, to the place its number says. */
  method GatherPart(lfn: array<Octet>, e: DirEntry)
    requires lfn.Length == BUFFER && Sequence(e) != 20
    modifies lfn
    ensures lfn[..] == Gather(old(lfn[..]), e)
  {
    hide Patched;
    var s := e[0] % 32;
    if s == 0 || s > 20 {
      return;
    }
    var offset := (s - 1) * 13;
    PatchesJoin(lfn[..], e, offset);
    GatherFirst(lfn, e, offset);
    GatherSecond(lfn, e, offset);
    GatherThird(lfn, e, offset);
  }

  method SameLongName(lfn: array<Octet>, target: seq<Octet>) returns (same: bool)
    requires lfn.Length == BUFFER
    ensures same == SameFrom(lfn[..], target, 0)
  {
    same := true;
    var c := 0;
    while c < 255
      invariant 0 <= c <= 255
      invariant SameFrom(lfn[..], target, 0) == SameFrom(lfn[..], target, c)
    {
      if lfn[c] == 0 && CharAt(target, c) == 0 {
        return true;
      }
      if lfn[c] != CharAt(target, c) {
        return false;
      }
      c := c + 1;
    }
  }

  method SameShortName(e: DirEntry, target: seq<Octet>) returns (same: bool)
    ensures same == SameShort(e, target)
  {
    for c := 0 to 11
      invariant forall k :: 0 <= k < c ==> e[k] == CharAt(target, k)
    {
      if e[c] != CharAt(target, c) {
        return false;
      }
    }
    return true;
  }

  /** The search of fat32_load_file. */
  method Search(dir: seq<DirEntry>, target: seq<Octet>) returns (cluster: int)
    requires |dir| == 16 && NoPart20(dir)
    ensures cluster == Look(dir, Zeros(), false, target)
  {
    hide Gather, SameFrom, SameShort, Zeros, Cluster, Sequence, IsLong, IsLabel, LooksDeleted, Char;
    var lfn := new Octet[BUFFER];
    ClearName(lfn);
    var hasLfn := false;
    var i := 0;
    while i < 16
      modifies lfn
      invariant 0 <= i <= 16
      invariant Look(dir, Zeros(), false, target) == Look(dir[i..], lfn[..], hasLfn, target)
    {
      var e := dir[i];
      i := i + 1;
      assert dir[i - 1..][0] == e && dir[i - 1..][1..] == dir[i..];
      if e[0] == 0 {
        return 0;
      }
      if Char(e[0]) == 0xE5 {
        assert LooksDeleted(e) by { DeletedMeans(e); }
        hasLfn := false;
        continue;
      }
      assert !LooksDeleted(e) by { DeletedMeans(e); }
      if IsLong(e) {
        hasLfn := true;
        GatherPart(lfn, e);
        continue;
      }
      if IsLabel(e) {
        hasLfn := false;
        continue;
      }
      var same: bool;
      if hasLfn {
        same := SameLongName(lfn, target);
      } else {
        same := SameShortName(e, target);
      }
      if same {
        return Cluster(e);
      }
      hasLfn := false;
      ClearName(lfn);
    }
    return 0;
  }

  lemma DeletedMeans(e: DirEntry)
    ensures LooksDeleted(e) <==> Char(e[0]) == 0xE5
  {
  }
}
