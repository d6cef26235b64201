/** A FAT32 volume as its bytes (Microsoft's FAT32 File System Specification, version 1.03): what the search
    and the loader make of it, told without the functions they compute with. */
module FatOnDisk {
  import opened Arith
  import opened DiskLayout
  import opened Fat32
  import opened LongNames
  import opened Octets

  // ----- numbers and characters

  /** A 16-bit number, low byte first. */
  function Two(x: Wide): (b: seq<Octet>)
    ensures |b| == 2
  {
    [x % 256, x / 256]
  }

  /** A 32-bit number, low byte first. */
  function Four(x: nat): (b: seq<Octet>)
    requires x < 0x1_0000_0000
    ensures |b| == 4
  {
    [x % 256, x / 0x100 % 256, x / 0x1_0000 % 256, x / 0x100_0000]
  }

  function Sixteens(chars: seq<Wide>): (b: seq<Octet>)
    ensures |b| == 2 * |chars|
  {
    if chars == [] then [] else Two(chars[0]) + Sixteens(chars[1..])
  }

  lemma {:induction false} SixteensAt(chars: seq<Wide>, k: nat)
    requires k < |chars|
    ensures Sixteens(chars)[2 * k] == chars[k] % 256 && Sixteens(chars)[2 * k + 1] == chars[k] / 256
  {
    if k > 0 {
      SixteensAt(chars[1..], k - 1);
    }
  }

  // ----- directory records

  /** A long-name entry: its number, five characters, what marks it, a checksum, six characters and two. */
  function PartBytes(number: Octet, chars: seq<Wide>, sum: Octet): (b: seq<Octet>)
    requires |chars| == 13
    ensures |b| == 32
  {
    [number] + Sixteens(chars[..5]) + [0x0F, 0, sum] + Sixteens(chars[5..11]) + [0, 0] + Sixteens(chars[11..])
  }

  /** A short entry: name, attributes, the two halves of its first cluster among dates and size. */
  datatype Short = Short(name: seq<Octet>, attr: Octet, dates: seq<Octet>, high: Wide, time: seq<Octet>, low: Wide,
                         size: seq<Octet>)

  predicate IsShort(s: Short) {
    && |s.name| == 11 && |s.dates| == 8 && |s.time| == 4 && |s.size| == 4
    && forall c :: 0 <= c < 11 ==> s.name[c] != 0
  }

  function ShortBytes(s: Short): (b: seq<Octet>)
    requires IsShort(s)
    ensures |b| == 32
  {
    s.name + [s.attr] + s.dates + Two(s.high) + s.time + Two(s.low) + s.size
  }

  function FirstCluster(s: Short): (c: int)
    ensures 0 <= c
  {
    s.high * 0x1_0000 + s.low
  }

  /** A file with a long name, a file without, a volume label, and one entry of a deleted long name. */
  datatype Record =
    | Named(long: seq<DirEntry>, name: seq<Wide>, sum: Octet, short: Short)
    | Plain(short: Short)
    | VolumeLabel(short: Short)
    | Deleted(chars: seq<Wide>, sum: Octet)

  /** The name, its terminator, and padding. */
  function Terminated(name: seq<Wide>): seq<Wide> { name + [0] + seq(12, _ => 0xFFFF) }

  /** The entries of a long name: each is the part its number says, and all parts are there. */
  predicate HoldsName(long: seq<DirEntry>, name: seq<Wide>, sum: Octet) {
    && 1 <= |name| <= 247
    && (forall i :: 0 <= i < |long| ==> IsPart(long[i], name, sum))
    && (forall s :: 1 <= s <= (|name| + 12) / 13 ==> HasPart(long, s))
  }

  predicate HasPart(long: seq<DirEntry>, s: int) { exists i :: 0 <= i < |long| && long[i][0] % 32 == s }

  predicate IsPart(e: DirEntry, name: seq<Wide>, sum: Octet) {
    var s := e[0] % 32;
    1 <= s <= (|name| + 12) / 13 && e == PartBytes(e[0], Terminated(name)[13 * s - 13..13 * s], sum)
  }

  predicate IsFile(s: Short) { IsShort(s) && s.attr / 8 % 2 == 0 }

  predicate OnDisk(r: Record) {
    match r
    case Named(long, name, sum, short) =>
      IsFile(short) && HoldsName(long, name, sum) && forall i :: 0 <= i < |name| ==> 0 < name[i] < 256
    case Plain(short) => IsFile(short)
    case VolumeLabel(short) => IsShort(short) && short.attr / 8 % 2 == 1 && short.attr != 0x0F
    case Deleted(chars, sum) => |chars| == 13
  }

  function Stored(r: Record): seq<DirEntry>
    requires OnDisk(r)
  {
    match r
    case Named(long, name, sum, short) => long + [ShortBytes(short)]
    case Plain(short) => [ShortBytes(short)]
    case VolumeLabel(short) => [ShortBytes(short)]
    case Deleted(chars, sum) => [PartBytes(0xE5, chars, sum)]
  }

  predicate AllOnDisk(rs: seq<Record>) { forall i :: 0 <= i < |rs| ==> OnDisk(rs[i]) }

  function StoredAll(rs: seq<Record>): seq<DirEntry>
    requires AllOnDisk(rs)
  {
    if rs == [] then [] else Stored(rs[0]) + StoredAll(rs[1..])
  }

  /** The file is called that. */
  predicate IsCalled(r: Record, target: seq<Octet>)
    requires OnDisk(r)
  {
    match r
    case Named(long, name, sum, short) =>
      |target| == |name| && forall i :: 0 <= i < |name| ==> target[i] == name[i]
    case Plain(short) => |target| >= 11 && target[..11] == short.name
    case _ => false
  }

  /** The first cluster of the first file of that name. */
  function FirstCalled(rs: seq<Record>, target: seq<Octet>): (c: int)
    requires AllOnDisk(rs)
    ensures 0 <= c
  {
    if rs == [] then 0
    else if IsCalled(rs[0], target) then FirstCluster(rs[0].short)
    else FirstCalled(rs[1..], target)
  }

  /** No file's search runs into what a deleted name left: no plain file right behind one, no 52-character
      name behind any. */
  predicate Undisturbed(rs: seq<Record>) {
    && (forall i :: 0 < i < |rs| && rs[i].Plain? ==> !rs[i - 1].Deleted?)
    && (forall k, i :: 0 <= k < i < |rs| && rs[k].Deleted? && rs[i].Named? ==> |rs[i].name| != 52)
  }

  // ----- the search on such a directory

  lemma PartCharacter(number: Octet, chars: seq<Wide>, sum: Octet, j: int)
    requires |chars| == 13 && 0 <= j < 13
    ensures At(j) + 1 < 32
    ensures var b := PartBytes(number, chars, sum); b[At(j)] == chars[j] % 256 && b[At(j) + 1] == chars[j] / 256
    ensures PartBytes(number, chars, sum)[0] == number && PartBytes(number, chars, sum)[11] == 0x0F
  {
    hide Sixteens;
    if j < 5 {
      SixteensAt(chars[..5], j);
    } else if j < 11 {
      SixteensAt(chars[5..11], j - 5);
    } else {
      SixteensAt(chars[11..], j - 11);
    }
  }

  lemma PartIsStored(e: DirEntry, name: seq<Wide>, sum: Octet)
    requires 1 <= |name| <= 247 && IsPart(e, name, sum)
    ensures StoresPart(e, name, e[0] % 32)
  {
    hide PartBytes, Padded, Terminated, StoresPart;
    var s := e[0] % 32;
    TerminatedIs(name);
    var chars := Terminated(name)[13 * s - 13..13 * s];
    forall j | 0 <= j < 13 ensures chars[j] == Padded(name, 13 * (s - 1) + j) {
      assert chars[j] == Terminated(name)[13 * (s - 1) + j];
    }
    CharactersAreStored(e, name, s, chars, sum);
  }

  lemma CharactersAreStored(e: DirEntry, name: seq<Wide>, s: int, chars: seq<Wide>, sum: Octet)
    requires 1 <= s && e[0] % 32 == s && |chars| == 13 && e == PartBytes(e[0], chars, sum)
    requires forall j :: 0 <= j < 13 ==> chars[j] == Padded(name, 13 * (s - 1) + j)
    ensures StoresPart(e, name, s)
  {
    hide PartBytes, At, Padded, Sixteens;
    PartCharacter(e[0], chars, sum, 0);
    forall j | 0 <= j < 13
      ensures At(j) + 1 < 32
      ensures e[At(j)] == Padded(name, 13 * (s - 1) + j) % 256
      ensures e[At(j) + 1] == Padded(name, 13 * (s - 1) + j) / 256
    {
      PartCharacter(e[0], chars, sum, j);
    }
  }

  lemma TerminatedIs(name: seq<Wide>)
    ensures |Terminated(name)| == |name| + 13
    ensures forall c :: 0 <= c < |name| + 13 ==> Terminated(name)[c] == Padded(name, c)
  {
  }

  lemma NameIsStored(long: seq<DirEntry>, name: seq<Wide>, sum: Octet)
    requires HoldsName(long, name, sum)
    ensures IsName(name) && StoresName(long, name) && long != []
  {
    hide StoresPart, PartBytes, Terminated;
    forall i | 0 <= i < |long|
      ensures 1 <= long[i][0] % 32 <= Parts(name) && StoresPart(long[i], name, long[i][0] % 32)
    {
      assert IsPart(long[i], name, sum);
      PartIsStored(long[i], name, sum);
    }
    forall s | 1 <= s <= Parts(name) ensures s in Seen(long) {
      assert HasPart(long, s);
      var i :| 0 <= i < |long| && long[i][0] % 32 == s;
      assert Sequence(long[i]) == s;
    }
    assert HasPart(long, 1);
  }

  lemma ShortIs(s: Short)
    requires IsShort(s)
    ensures var e := ShortBytes(s);
            && e[0] != 0 && e[11] == s.attr && Cluster(e) == FirstCluster(s) && e[21] == s.high / 256
            && forall c :: 0 <= c < 11 ==> e[c] == s.name[c]
  {
  }

  function ToItem(r: Record): Item
    requires OnDisk(r)
  {
    match r
    case Named(long, name, sum, short) => File(long, name, ShortBytes(short))
    case Plain(short) => File([], [], ShortBytes(short))
    case VolumeLabel(short) => Label(ShortBytes(short))
    case Deleted(chars, sum) => Stray(PartBytes(0xE5, chars, sum))
  }

  lemma RecordIsItem(r: Record)
    requires OnDisk(r)
    ensures WellFormed(ToItem(r)) && EntriesOfItem(ToItem(r)) == Stored(r)
  {
    hide ShortBytes, PartBytes, StoresName, HoldsName;
    match r
    case Named(long, name, sum, short) =>
      ShortIs(short);
      NameIsStored(long, name, sum);
    case Plain(short) => ShortIs(short);
    case VolumeLabel(short) => ShortIs(short);
    case Deleted(chars, sum) => PartCharacter(0xE5, chars, sum, 0);
  }

  function ToItems(rs: seq<Record>): (items: seq<Item>)
    requires AllOnDisk(rs)
    ensures |items| == |rs| && forall i :: 0 <= i < |rs| ==> items[i] == ToItem(rs[i])
  {
    seq(|rs|, i requires 0 <= i < |rs| => ToItem(rs[i]))
  }

  lemma {:induction false} RecordsAreItems(rs: seq<Record>)
    requires AllOnDisk(rs)
    ensures AreItems(ToItems(rs)) && Entries(ToItems(rs)) == StoredAll(rs)
  {
    hide OnDisk, ToItem, WellFormed, Stored, EntriesOfItem;
    if rs != [] {
      assert forall i :: 0 <= i < |rs[1..]| ==> rs[1..][i] == rs[i + 1];
      RecordsAreItems(rs[1..]);
      RecordIsItem(rs[0]);
      assert ToItems(rs)[1..] == ToItems(rs[1..]);
      forall i | 0 <= i < |rs| ensures WellFormed(ToItems(rs)[i]) {
        RecordIsItem(rs[i]);
      }
    }
  }

  lemma IsCalledIff(r: Record, target: seq<Octet>)
    requires OnDisk(r) && IsText(target)
    ensures ToItem(r).File? && IsNamed(ToItem(r), target) <==> IsCalled(r, target)
    ensures ToItem(r).File? <==> r.Named? || r.Plain?
    ensures r.Named? || r.Plain? ==> Cluster(ToItem(r).short) == FirstCluster(r.short)
  {
    hide ShortBytes, PartBytes, HoldsName, Cluster, IsNamed, IsText;
    match r
    case Named(long, name, sum, short) =>
      ShortIs(short);
      NamedIsCalled(r, target);
    case Plain(short) =>
      ShortIs(short);
      PlainIsCalled(r, target);
    case _ =>
  }

  lemma NamedIsCalled(r: Record, target: seq<Octet>)
    requires OnDisk(r) && r.Named?
    ensures IsNamed(ToItem(r), target) <==> IsCalled(r, target)
  {
    hide ShortBytes, HoldsName, StoresName, IsFile, LowBytes, UpToZero, IsText;
    NameIsStored(r.long, r.name, r.sum);
    CalledIsLow(r.name, target);
    TextReadsOn(LowBytes(r.name), []);
  }

  lemma CalledIsLow(name: seq<Wide>, target: seq<Octet>)
    requires forall i :: 0 <= i < |name| ==> 0 < name[i] < 256
    ensures IsText(LowBytes(name))
    ensures target == LowBytes(name) <==> |target| == |name| && forall i :: 0 <= i < |name| ==> target[i] == name[i]
  {
  }

  lemma PlainIsCalled(r: Record, target: seq<Octet>)
    requires OnDisk(r) && r.Plain?
    ensures IsNamed(ToItem(r), target) <==> IsCalled(r, target)
  {
    hide ShortBytes;
    ShortIs(r.short);
    if |target| >= 11 {
      assert forall c :: 0 <= c < 11 ==> CharAt(target, c) == target[..11][c];
    } else {
      assert CharAt(target, 10) == 0;
    }
  }

  lemma {:induction false} NoStrayNoMark(items: seq<Item>, i: nat)
    requires i <= |items| && forall k :: 0 <= k < i ==> !items[k].Stray?
    ensures MarkAt(items, i) == NoMark()
  {
    if i > 0 {
      NoStrayNoMark(items, i - 1);
    }
  }

  lemma NoneIsMisled(rs: seq<Record>, i: int)
    requires AllOnDisk(rs) && Undisturbed(rs) && 0 <= i < |rs| && ToItems(rs)[i].File?
    ensures !Misled(ToItems(rs), i)
  {
    hide ShortBytes, PartBytes, HoldsName, LowBytes, IsFile, IsText, MarkAt;
    var items := ToItems(rs);
    forall k | 0 <= k < |rs| ensures items[k].Stray? <==> rs[k].Deleted? {
      assert OnDisk(rs[k]);
    }
    assert OnDisk(rs[i]);
    if rs[i].Named? {
      NameIsStored(rs[i].long, rs[i].name, rs[i].sum);
      if |rs[i].name| == 52 {
        NoStrayNoMark(items, i);
      }
    }
  }

  /** The search on a directory given as bytes: it finds the first file of the name, long or plain. */
  lemma DirectoryIsSearched(rs: seq<Record>, rest: seq<DirEntry>, target: seq<Octet>)
    requires AllOnDisk(rs) && Undisturbed(rs) && IsText(target) && Ended(rest) && NoPart20(rest)
    ensures NoPart20(StoredAll(rs) + rest)
    ensures Look(StoredAll(rs) + rest, Zeros(), false, target) == FirstCalled(rs, target)
  {
    hide *;
    RecordsAreItems(rs);
    forall i | 0 <= i < |rs| && ToItems(rs)[i].File? ensures !Misled(ToItems(rs), i) {
      NoneIsMisled(rs, i);
    }
    FindsTheFirstNamed(ToItems(rs), rest, target);
    FirstIsCalled(rs, 0, target);
    assert rs[0..] == rs;
  }

  lemma {:induction false} FirstIsCalled(rs: seq<Record>, i: nat, target: seq<Octet>)
    requires AllOnDisk(rs) && i <= |rs| && IsText(target)
    ensures AllOnDisk(rs[i..]) && First(ToItems(rs), i, target) == FirstCalled(rs[i..], target)
    decreases |rs| - i
  {
    hide OnDisk, ToItem, IsNamed, IsCalled, Cluster, FirstCluster;
    if i < |rs| {
      FirstIsCalled(rs, i + 1, target);
      assert rs[i..][1..] == rs[i + 1..] && rs[i..][0] == rs[i];
      IsCalledIff(rs[i], target);
    }
  }

  // ----- the volume

  /** The numbers of a boot sector. */
  datatype Boot = Boot(hidden: nat, reserved: nat, fats: nat, fatSize: nat, perCluster: nat, root: nat)

  /** They fit their fields, and the sectors of the volume fit 31 bits. */
  predicate IsBoot(v: Boot) {
    && v.reserved < 0x1_0000 && v.fats < 0x100 && 0 < v.perCluster < 0x100 && 2 <= v.root < 0x1000_0000
    && v.hidden < 0x8000_0000 && v.fatSize < 0x8000_0000 && FirstData(v) < 0x8000_0000
  }

  /** The clusters come behind the hidden and the reserved sectors and all the tables. */
  function FirstData(v: Boot): nat { v.hidden + v.reserved + v.fats * v.fatSize }

  /** Sector b is the boot sector of such a volume. */
  predicate BootsAs(b: Sector, v: Boot)
    requires IsBoot(v)
  {
    && b[11..13] != [0, 0] && b[13] == v.perCluster && b[14..16] == Two(v.reserved) && b[16] == v.fats
    && b[28..32] == Four(v.hidden) && b[36..40] == Four(v.fatSize) && b[44..48] == Four(v.root)
  }

  /** The sectors of cluster c hold the data. */
  predicate ClusterHolds(drive: Drive, v: Boot, c: int, data: seq<Octet>) {
    && 2 <= c && FirstData(v) + (c - 2) * v.perCluster + v.perCluster <= 0x1_0000_0000
    && |data| == 512 * v.perCluster
    && forall i {:trigger SectorOf(v, c, i)} :: 0 <= i < v.perCluster ==>
         SectorOf(v, c, i) in drive && drive[SectorOf(v, c, i)] == data[512 * i..512 * i + 512]
  }

  function SectorOf(v: Boot, c: int, i: int): int { FirstData(v) + (c - 2) * v.perCluster + i }

  /** The four bytes of cluster c in the first table say `next` in their lower 28 bits. */
  predicate TableSays(drive: Drive, v: Boot, c: int, next: int) {
    && 0 <= c && v.hidden + v.reserved + c / 128 in drive
    && var b := drive[v.hidden + v.reserved + c / 128][c % 128 * 4..c % 128 * 4 + 4];
    b[0] + 0x100 * (b[1] as int) + 0x1_0000 * (b[2] as int) + 0x100_0000 * (b[3] as int % 16) == next
  }

  /** From cs[0] the table leads through the clusters cs, with these contents, to cluster c. */
  predicate Path(drive: Drive, v: Boot, cs: seq<int>, data: seq<seq<Octet>>, c: int)
    decreases |cs|
  {
    && |cs| == |data|
    && (cs != [] ==>
          && 2 <= cs[0] < 0x0FFF_FFF8 && ClusterHolds(drive, v, cs[0], data[0])
          && Start(cs[1..], c) > 0 && TableSays(drive, v, cs[0], Start(cs[1..], c))
          && Path(drive, v, cs[1..], data[1..], c))
  }

  function Start(cs: seq<int>, c: int): int { if cs == [] then c else cs[0] }

  function Joined(data: seq<seq<Octet>>): seq<Octet> {
    if data == [] then [] else data[0] + Joined(data[1..])
  }

  /** The sector is the sixteen entries. */
  predicate IsDirectory(sector: Sector, es: seq<DirEntry>) {
    |es| == 16 && forall i :: 0 <= i < 16 ==> sector[32 * i..32 * i + 32] == es[i]
  }

  // ----- the loader on such a volume

  lemma FourReads(b: seq<Octet>, at: nat, x: nat)
    requires at + 4 <= |b| && x < 0x1_0000_0000 && b[at..at + 4] == Four(x)
    ensures Le32(b, at) == x
  {
    var four := b[at..at + 4];
    assert b[at] == four[0] && b[at + 1] == four[1] && b[at + 2] == four[2] && b[at + 3] == four[3];
    DivTwice(x, 0x100, 0x100, 0x1_0000);
    DivTwice(x, 0x1_0000, 0x100, 0x100_0000);
  }

  lemma TwoReads(b: seq<Octet>, at: nat, x: Wide)
    requires at + 2 <= |b| && b[at..at + 2] == Two(x)
    ensures Le16(b, at) == x
  {
    assert b[at] == b[at..at + 2][0] && b[at + 1] == b[at..at + 2][1];
  }

  lemma BootMounts(b: Sector, v: Boot)
    requires IsBoot(v) && BootsAs(b, v) && FirstData(v) + (v.root - 2) * v.perCluster < 0x1_0000_0000
    ensures Mount(b) == Volume(v.hidden + v.reserved, FirstData(v), v.perCluster, SectorOf(v, v.root, 0))
    ensures Le16(b, 11) != 0
  {
    hide Four, Two, Le16, Le32;
    BytesPerSector(b);
    TwoReads(b, 14, v.reserved);
    FourReads(b, 28, v.hidden);
    FourReads(b, 36, v.fatSize);
    FourReads(b, 44, v.root);
    Products(0, 0, v.root - 2, v.perCluster);
    var root := FirstData(v) + (v.root - 2) * v.perCluster;
    DivModIs(root, 0x1_0000_0000, 0, root);
  }

  lemma BytesPerSector(b: Sector)
    ensures b[11..13] != [0, 0] ==> Le16(b, 11) != 0
  {
    assert b[11..13] == [b[11], b[12]];
  }

  lemma {:induction false} BytesAre(drive: Drive, v: Boot, c: int, data: seq<Octet>, n: nat)
    requires ClusterHolds(drive, v, c, data) && n <= v.perCluster
    ensures CanRead(drive, SectorOf(v, c, 0), n) && Bytes(drive, SectorOf(v, c, 0), n) == data[..512 * n]
  {
    forall s | SectorOf(v, c, 0) <= s < SectorOf(v, c, 0) + n ensures s in drive {
      assert s == SectorOf(v, c, s - SectorOf(v, c, 0));
    }
    if n > 0 {
      BytesAre(drive, v, c, data, n - 1);
      assert SectorOf(v, c, 0) + n - 1 == SectorOf(v, c, n - 1);
      assert data[..512 * n] == data[..512 * (n - 1)] + data[512 * (n - 1)..512 * (n - 1) + 512];
    }
  }

  lemma ClusterReads(drive: Drive, v: Boot, w: Volume, c: int, data: seq<Octet>)
    requires IsBoot(v) && w.dataStart == FirstData(v) && w.perCluster == v.perCluster
    requires ClusterHolds(drive, v, c, data)
    ensures ClusterLba(w, c) == SectorOf(v, c, 0)
    ensures CanRead(drive, ClusterLba(w, c), w.perCluster) && Data(drive, w, c) == data
  {
    hide Bytes;
    Products(0, 0, c - 2, v.perCluster);
    BytesAre(drive, v, c, data, v.perCluster);
    assert data[..512 * v.perCluster] == data;
  }

  lemma TableReads(drive: Drive, v: Boot, w: Volume, c: int, next: int)
    requires IsBoot(v) && w.fatStart == v.hidden + v.reserved && TableSays(drive, v, c, next) && c < 0x1000_0000
    ensures FatLba(w, c) == v.hidden + v.reserved + c / 128 && FatLba(w, c) in drive && Link(drive, w, c) == next
  {
    hide Le32;
    DivModIs(c * 4, 512, c / 128, c % 128 * 4);
    assert 0 <= c / 128 < 0x20_0000;
    CellReads(drive[v.hidden + v.reserved + c / 128], c % 128 * 4, next);
  }

  lemma CellReads(sector: Sector, at: nat, next: int)
    requires at + 4 <= 512 && at % 4 == 0
    requires var b := sector[at..at + 4];
             b[0] + 0x100 * (b[1] as int) + 0x1_0000 * (b[2] as int) + 0x100_0000 * (b[3] as int % 16) == next
    ensures at / 4 * 4 == at && Le32(sector, at) % 0x1000_0000 == next
  {
    var b := sector[at..at + 4];
    assert b[0] == sector[at] && b[1] == sector[at + 1] && b[2] == sector[at + 2] && b[3] == sector[at + 3];
    var top: int := b[3];
    DivModIs(Le32(sector, at), 0x1000_0000, top / 16, next);
  }

  /** The chain loop on a path of the volume. */
  lemma {:induction false} PathLoads(drive: Drive, v: Boot, w: Volume, cs: seq<int>, data: seq<seq<Octet>>, c: int,
                                     count: nat)
    requires IsBoot(v) && w.fatStart == v.hidden + v.reserved && w.dataStart == FirstData(v)
    requires w.perCluster == v.perCluster && 0 <= c && Path(drive, v, cs, data, c) && count + |cs| <= LIMIT
    ensures Start(cs, c) >= 0
    ensures Follow(drive, w, Start(cs, c), count) == Before(Joined(data), Follow(drive, w, c, count + |cs|))
    decreases |cs|
  {
    hide ClusterHolds, TableSays, ClusterLba, FatLba, Link, Data, CanRead, FirstData;
    if cs != [] {
      ClusterReads(drive, v, w, cs[0], data[0]);
      TableReads(drive, v, w, cs[0], Start(cs[1..], c));
      PathLoads(drive, v, w, cs[1..], data[1..], c, count + 1);
      var rest := Follow(drive, w, c, count + |cs|);
      assert data[0] + (Joined(data[1..]) + rest.bytes) == Joined(data) + rest.bytes;
    }
  }

  /** How the path can end. */
  lemma PathEnds(drive: Drive, v: Boot, w: Volume, c: int, count: nat, data: seq<Octet>)
    requires IsBoot(v) && w.fatStart == v.hidden + v.reserved && w.dataStart == FirstData(v)
    requires w.perCluster == v.perCluster && 0 <= c && count <= LIMIT
    ensures c >= 0x0FFF_FFF8 ==> Follow(drive, w, c, count) == Outcome(Loaded, [])
    ensures Unreadable(drive, v, c) ==> Follow(drive, w, c, count) == Outcome(DataReadFailed, [])
    ensures 2 <= c < 0x0FFF_FFF8 && ClusterHolds(drive, v, c, data) && v.hidden + v.reserved + c / 128 !in drive ==>
              Follow(drive, w, c, count) == Outcome(FatReadFailed, data)
    ensures c < 0x0FFF_FFF8 && ClusterHolds(drive, v, c, data) && TableSays(drive, v, c, 0) ==>
              Follow(drive, w, c, count) == Outcome(ChainBroken, data)
    ensures (c < 0x0FFF_FFF8 && ClusterHolds(drive, v, c, data) && count == 10000
             && v.hidden + v.reserved + c / 128 in drive) ==> Follow(drive, w, c, count) == Outcome(ChainBroken, data)
  {
    hide ClusterHolds, TableSays, CanRead, FirstData, ClusterLba, FatLba, Link, Data, Unreadable;
    if Unreadable(drive, v, c) {
      CannotRead(drive, v, w, c);
    }
    if 2 <= c < 0x0FFF_FFF8 && ClusterHolds(drive, v, c, data) {
      ClusterReads(drive, v, w, c, data);
      TableSector(v, w, c);
      if TableSays(drive, v, c, 0) {
        TableReads(drive, v, w, c, 0);
      }
    }
    ClusterIsReal(drive, v, c, data);
  }

  lemma ClusterIsReal(drive: Drive, v: Boot, c: int, data: seq<Octet>)
    ensures ClusterHolds(drive, v, c, data) ==> 2 <= c
  {
  }

  lemma TableSector(v: Boot, w: Volume, c: int)
    requires IsBoot(v) && w.fatStart == v.hidden + v.reserved && 0 <= c < 0x1000_0000
    ensures FatLba(w, c) == v.hidden + v.reserved + c / 128
  {
    DivModIs(c * 4, 512, c / 128, c % 128 * 4);
    assert 0 <= c / 128 < 0x20_0000;
    Products(0, 0, v.fats, v.fatSize);
  }

  /** Some sector of cluster c cannot be read. */
  predicate Unreadable(drive: Drive, v: Boot, c: int) {
    && 2 <= c < 0x0FFF_FFF8 && FirstData(v) + (c - 2) * v.perCluster + v.perCluster <= 0x1_0000_0000
    && exists i {:trigger SectorOf(v, c, i)} :: 0 <= i < v.perCluster && SectorOf(v, c, i) !in drive
  }

  lemma CannotRead(drive: Drive, v: Boot, w: Volume, c: int)
    requires IsBoot(v) && w.dataStart == FirstData(v) && w.perCluster == v.perCluster && Unreadable(drive, v, c)
    ensures 2 <= c < 0x0FFF_FFF8 && !CanRead(drive, ClusterLba(w, c), w.perCluster)
  {
    Products(0, 0, c - 2, v.perCluster);
    var i :| 0 <= i < v.perCluster && SectorOf(v, c, i) !in drive;
    var lba := SectorOf(v, c, 0);
    DivModIs(lba, 0x1_0000_0000, 0, lba);
    assert lba <= lba + i < lba + v.perCluster;
  }

  lemma DirectoryReads(sector: Sector, es: seq<DirEntry>)
    requires IsDirectory(sector, es)
    ensures EntriesOf(sector) == es
  {
  }

  /** A drive that holds the volume, with a directory of these records. */
  predicate IsVolume(drive: Drive, v: Boot, rs: seq<Record>, rest: seq<DirEntry>) {
    && IsBoot(v) && 0 in drive && BootsAs(drive[0], v)
    && FirstData(v) + (v.root - 2) * v.perCluster < 0x1_0000_0000 && SectorOf(v, v.root, 0) in drive
    && AllOnDisk(rs) && Undisturbed(rs) && Ended(rest) && NoPart20(rest)
    && IsDirectory(drive[SectorOf(v, v.root, 0)], StoredAll(rs) + rest)
    && SmallClusters(StoredAll(rs) + rest)
  }

  /** Where the loader starts: at the first cluster of the first file of the name. */
  lemma VolumeStarts(drive: Drive, v: Boot, rs: seq<Record>, rest: seq<DirEntry>, target: seq<Octet>)
    requires IsVolume(drive, v, rs, rest) && IsText(target)
    ensures Mountable(drive) && FirstCalled(rs, target) >= 0
    ensures var w := Mount(drive[0]);
            && w.fatStart == v.hidden + v.reserved && w.dataStart == FirstData(v) && w.perCluster == v.perCluster
            && Load(drive, target) ==
               if FirstCalled(rs, target) == 0 then Outcome(NotFound, [])
               else Follow(drive, w, FirstCalled(rs, target), 0)
  {
    hide BootsAs, IsDirectory, SmallClusters, StoredAll, Undisturbed, FirstCalled, Follow, Look, Mount, FirstData;
    BootMounts(drive[0], v);
    DirectoryReads(drive[SectorOf(v, v.root, 0)], StoredAll(rs) + rest);
    DirectoryIsSearched(rs, rest, target);
  }

  /** The loader on a volume given as bytes, whatever else is on the drive.  A file whose clusters end in an end
      mark loads as exactly its clusters in order; where the path ends otherwise the loader stops with the
      clusters so far and says why. */
  lemma VolumeLoads(drive: Drive, v: Boot, rs: seq<Record>, rest: seq<DirEntry>, target: seq<Octet>,
                    cs: seq<int>, data: seq<seq<Octet>>, c: int, last: seq<Octet>)
    requires IsVolume(drive, v, rs, rest) && IsText(target) && 0 <= c && |cs| <= 10000
    requires Path(drive, v, cs, data, c) && FirstCalled(rs, target) == Start(cs, c) != 0
    ensures Mountable(drive)
    ensures c >= 0x0FFF_FFF8 ==> Load(drive, target) == Outcome(Loaded, Joined(data))
    ensures Unreadable(drive, v, c) ==> Load(drive, target) == Outcome(DataReadFailed, Joined(data))
    ensures 2 <= c < 0x0FFF_FFF8 && ClusterHolds(drive, v, c, last) && v.hidden + v.reserved + c / 128 !in drive ==>
              Load(drive, target) == Outcome(FatReadFailed, Joined(data) + last)
    ensures c < 0x0FFF_FFF8 && ClusterHolds(drive, v, c, last) && TableSays(drive, v, c, 0) ==>
              Load(drive, target) == Outcome(ChainBroken, Joined(data) + last)
    ensures (c < 0x0FFF_FFF8 && ClusterHolds(drive, v, c, last) && |cs| == 10000
             && v.hidden + v.reserved + c / 128 in drive) ==>
              Load(drive, target) == Outcome(ChainBroken, Joined(data) + last)
  {
    hide IsVolume, Path, FirstCalled, Follow, Load, Mount, FirstData, ClusterHolds, TableSays, Unreadable;
    hide IsText, Joined;
    VolumeStarts(drive, v, rs, rest, target);
    IsVolumeBoots(drive, v, rs, rest);
    var w := Mount(drive[0]);
    PathLoads(drive, v, w, cs, data, c, 0);
    PathEnds(drive, v, w, c, |cs|, last);
    assert Joined(data) + [] == Joined(data);
  }

  lemma IsVolumeBoots(drive: Drive, v: Boot, rs: seq<Record>, rest: seq<DirEntry>)
    requires IsVolume(drive, v, rs, rest)
    ensures IsBoot(v) && 0 in drive
  {
  }

  /** What stops the loader before it looks for the file, and a name that is not there. */
  lemma VolumeRefused(drive: Drive, v: Boot, rs: seq<Record>, rest: seq<DirEntry>, target: seq<Octet>)
    ensures 0 !in drive ==> Mountable(drive) && Load(drive, target) == Outcome(BpbReadFailed, [])
    ensures 0 in drive && drive[0][11] == drive[0][12] == 0 ==>
              Mountable(drive) && Load(drive, target) == Outcome(InvalidBpb, [])
    ensures (IsBoot(v) && 0 in drive && BootsAs(drive[0], v) && SectorOf(v, v.root, 0) !in drive
             && FirstData(v) + (v.root - 2) * v.perCluster < 0x1_0000_0000) ==>
              Mountable(drive) && Load(drive, target) == Outcome(DirReadFailed, [])
    ensures IsVolume(drive, v, rs, rest) && IsText(target) && FirstCalled(rs, target) == 0 ==>
              Mountable(drive) && Load(drive, target) == Outcome(NotFound, [])
  {
    hide IsVolume, BootsAs, FirstCalled, Follow, Look, FirstData, IsText, Mount;
    if IsVolume(drive, v, rs, rest) && IsText(target) {
      VolumeStarts(drive, v, rs, rest, target);
    }
    if IsBoot(v) && 0 in drive && BootsAs(drive[0], v) && FirstData(v) + (v.root - 2) * v.perCluster < 0x1_0000_0000 {
      BootMounts(drive[0], v);
    }
  }
}
