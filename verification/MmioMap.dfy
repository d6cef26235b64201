/** map_mmio_64 and disable_nx_for_app over whole runs, from the boot map on. */
module MmioMap {
  import opened Arith
  import opened PageTree
  import opened Paging

  const LOW_4GB := 0x1_0000_0000
  const REGIONS := 0x800_0000       // 2 MB regions in a 48-bit address space

  // ----- addresses and 2 MB regions

  function Region(va: int): int { va / TWO21 % REGIONS }

  function I4(va: int): int { va / TWO39 % 512 }
  function I3(va: int): int { va / TWO30 % 512 }
  function I2(va: int): int { va / TWO21 % 512 }

  lemma IndicesAreTheRegion(a: int, b: int)
    requires 0 <= a && 0 <= b
    ensures Region(a) == Region(b) <==> I4(a) == I4(b) && I3(a) == I3(b) && I2(a) == I2(b)
  {
    hide Region, I4, I3, I2;
    RegionSplits(a);
    RegionSplits(b);
    ThreeDigits(I4(a), I3(a), I2(a), I4(b), I3(b), I2(b));
  }

  lemma RegionSplits(a: int)
    requires 0 <= a
    ensures Region(a) == I4(a) * 0x4_0000 + I3(a) * 512 + I2(a)
    ensures InTable(I4(a)) && InTable(I3(a)) && InTable(I2(a))
  {
    var n := a / TWO21;
    DivTwice(a, TWO21, 512, TWO30);
    DivTwice(a, TWO21, 0x4_0000, TWO39);
    DivTwice(n, 512, 512, 0x4_0000);
    DivTwice(n, 0x4_0000, 512, REGIONS);
  }

  lemma ThreeDigits(a: int, b: int, c: int, x: int, y: int, z: int)
    requires InTable(a) && InTable(b) && InTable(c) && InTable(x) && InTable(y) && InTable(z)
    ensures a * 0x4_0000 + b * 512 + c == x * 0x4_0000 + y * 512 + z <==> a == x && b == y && c == z
  {
  }

  // ----- what the tree means to the hardware

  function LeafAt(ram: Ram, va: int): Word { Leaf(ram, I4(va), I3(va), I2(va)) }

  /** In a sound tree a walk is clean, and it ends at the region's leaf entry. */
  lemma WalkOfTree(ram: Ram, next: int, owner: map<int, Node>, va: int)
    requires Tree(ram, next, owner)
    ensures CleanWalk(ram, ROOT, va)
    ensures var e := LeafAt(ram, va);
            var w := HwWalk(ram, ROOT, va);
            if Present(e) then w.Page? && w.size == TWO21 && w.base == HwBase(e, TWO21) && w.nx == NoExecute(e)
            else w.Fault? && w.level >= 2
  {
    hide Present, Large, SwBase, HwBase, NoExecute, Tree, CleanLink;
    LinksOf(ram, next, owner, I4(va), I3(va));
    TreeMeans(ram, next, owner, va);
    var e4 := Pml4e(ram, I4(va));
    AbsentZero();
    RootIsPage();
    if Present(e4) {
      LinkIsTable(e4);
      var e3 := Pdpte(ram, I4(va), I3(va));
      if Present(e3) {
        LinkIsTable(e3);
      }
    }
  }

  lemma RootIsPage()
    ensures ROOT >= PAGE
  {
  }

  /** What the tree says of the entries of one walk. */
  lemma TreeMeans(ram: Ram, next: int, owner: map<int, Node>, va: int)
    requires Tree(ram, next, owner)
    ensures forall p :: p in owner ==> PAGE <= p
    ensures Present(LeafAt(ram, va)) ==> Large(LeafAt(ram, va))
  {
    hide SwBase, Large;
    IndicesInRange(va);
  }

  lemma IndicesInRange(va: int)
    ensures InTable(I4(va)) && InTable(I3(va)) && InTable(I2(va))
  {
  }

  lemma LinkIsTable(e: Word)
    requires PAGE <= SwBase(e) && e < TWO52 && e % PAGE == 3
    ensures CleanLink(e) && !Large(e) && !NoExecute(e) && HwBase(e, PAGE) == SwBase(e)
  {
    var q := e / PAGE;
    assert e == PAGE * q + 3;
    assert e / 0x80 == 32 * q;
  }

  // ----- map_mmio_64 as a function of the memory and the bump pointer

  datatype Space = Space(ram: Ram, next: Word)

  ghost predicate Sound(s: Space) {
    exists owner :: Tree(s.ram, s.next, owner)
  }

  ghost function AddTable(s: Space, ep: int, ex: int): Space {
    Space(ZeroPage(s.ram, s.next)[ep + 8 * ex := (s.next + 3) % TWO64], (s.next + PAGE) % TWO64)
  }

  ghost function EnsurePdpt(s: Space, i: int): Space {
    if Present(Pml4e(s.ram, i)) then s else AddTable(s, ROOT, i)
  }

  ghost function EnsurePd(s: Space, i: int, j: int): Space {
    if Present(Pdpte(s.ram, i, j)) then s else AddTable(s, SwBase(Pml4e(s.ram, i)), j)
  }

  /** Present, writable, write-through, cache disabled, accessed off, 2 MB page. */
  function MmioEntry(p: Word): Word { AlignDown(p, TWO21) + 0x9B }

  /** Make both tables for (i, j) if they are missing, then store the leaf. */
  ghost function StoreThrough(s: Space, i: int, j: int, k: int, e: Word): Space {
    var t := EnsurePd(EnsurePdpt(s, i), i, j);
    Space(t.ram[SwBase(Pdpte(t.ram, i, j)) + 8 * k := e], t.next)
  }

  ghost function MapMmio(s: Space, p: Word): Space {
    StoreThrough(s, I4(p), I3(p), I2(p), MmioEntry(p))
  }

  ghost predicate SameLeaves(ram: Ram, ram': Ram) {
    forall a, b, c :: InTable(a) && InTable(b) && InTable(c) ==> Leaf(ram', a, b, c) == Leaf(ram, a, b, c)
  }

  lemma AddedTableKeepsLeaves(ram: Ram, ram': Ram, n: Node, page: int)
    requires TableAdded(ram, ram', n, page)
    ensures SameLeaves(ram, ram')
  {
    forall a, b, c | InTable(a) && InTable(b) && InTable(c) ensures Leaf(ram', a, b, c) == Leaf(ram, a, b, c) {
      assert EntriesAfter(ram, ram', n, page, a, b);
    }
  }

  /** Below 4 GB the machine's additions do not wrap. */
  lemma AddTableIs(s: Space, ep: int, ex: int)
    requires s.next < LOW_4GB
    ensures AddTable(s, ep, ex) == Space(WithTable(s.ram, s.next, ep, ex), s.next + PAGE)
  {
  }

  lemma PdptIsThere(s: Space, owner: map<int, Node>, i: int) returns (owner': map<int, Node>)
    requires Tree(s.ram, s.next, owner) && InTable(i)
    ensures var t := EnsurePdpt(s, i);
            Tree(t.ram, t.next, owner') && Present(Pml4e(t.ram, i)) && SameLeaves(s.ram, t.ram)
    ensures owner' == if Present(Pml4e(s.ram, i)) then owner else owner[s.next := Pdpt(i)]
    ensures forall j :: InTable(j) ==> HasPd(EnsurePdpt(s, i).ram, i, j) == HasPd(s.ram, i, j)
  {
    hide AddTable, WithTable, AlignDown, Present;
    owner' := owner;
    if !Present(Pml4e(s.ram, i)) {
      BumpIsBounded(s.ram, s.next, owner);
      var t := EnsurePdpt(s, i);
      AddTableIs(s, ROOT, i);
      LinkFlags(s.next);
      PdptIsAdded(s.ram, s.next, owner, i);
      AddedTableKeepsTree(s.ram, t.ram, s.next, owner, Pdpt(i));
      AddedTableKeepsLeaves(s.ram, t.ram, Pdpt(i), s.next);
      owner' := owner[s.next := Pdpt(i)];
      forall j | InTable(j) ensures HasPd(t.ram, i, j) == HasPd(s.ram, i, j) && Present(Pml4e(t.ram, i)) {
        assert EntriesAfter(s.ram, t.ram, Pdpt(i), s.next, i, j);
      }
      assert InTable(0);
    }
  }

  lemma PdIsThere(s: Space, owner: map<int, Node>, i: int, j: int) returns (owner': map<int, Node>)
    requires Tree(s.ram, s.next, owner) && InTable(i) && InTable(j) && Present(Pml4e(s.ram, i))
    ensures var t := EnsurePd(s, i, j);
            Tree(t.ram, t.next, owner') && HasPd(t.ram, i, j) && SameLeaves(s.ram, t.ram)
    ensures owner' == if Present(Pdpte(s.ram, i, j)) then owner else owner[s.next := Pd(i, j)]
  {
    hide AddTable, WithTable, AlignDown, Present;
    owner' := owner;
    if !Present(Pdpte(s.ram, i, j)) {
      BumpIsBounded(s.ram, s.next, owner);
      var t := EnsurePd(s, i, j);
      AddTableIs(s, SwBase(Pml4e(s.ram, i)), j);
      LinkFlags(s.next);
      PdIsAdded(s.ram, s.next, owner, i, j);
      AddedTableKeepsTree(s.ram, t.ram, s.next, owner, Pd(i, j));
      AddedTableKeepsLeaves(s.ram, t.ram, Pd(i, j), s.next);
      owner' := owner[s.next := Pd(i, j)];
      assert EntriesAfter(s.ram, t.ram, Pd(i, j), s.next, i, j);
    }
  }

  // ----- the leaf store

  /** One leaf entry changed and nothing else did. */
  ghost predicate LeafStored(ram: Ram, ram': Ram, i: int, j: int, k: int, e: Word) {
    forall a, b, c :: InTable(a) && InTable(b) && InTable(c) ==>
      Leaf(ram', a, b, c) == if a == i && b == j && c == k then e else Leaf(ram, a, b, c)
  }

  /** The links of the upper two levels did not change. */
  ghost predicate SameTables(ram: Ram, ram': Ram) {
    forall a, b :: InTable(a) && InTable(b) ==> EntriesSame(ram, ram', a, b)
  }

  ghost predicate EntriesSame(ram: Ram, ram': Ram, a: int, b: int) {
    && SameIfPresent(Pml4e(ram, a), Pml4e(ram', a))
    && (Present(Pml4e(ram, a)) ==> SameIfPresent(Pdpte(ram, a, b), Pdpte(ram', a, b)))
  }

  predicate SameIfPresent(e: Word, e': Word) {
    Present(e') == Present(e) && (Present(e) ==> e' == e)
  }

  lemma StoreLeaf(ram: Ram, next: int, owner: map<int, Node>, i: int, j: int, k: int, e: Word)
    requires Tree(ram, next, owner) && InTable(i) && InTable(j) && InTable(k) && HasPd(ram, i, j)
    ensures var ram' := ram[SwBase(Pdpte(ram, i, j)) + 8 * k := e];
            SameTables(ram, ram') && LeafStored(ram, ram', i, j, k, e)
  {
    hide SwBase, Present, Tree, Leaf, EntriesSame, CellsKept;
    var pd := SwBase(Pdpte(ram, i, j));
    var ram' := ram[pd + 8 * k := e];
    LinksOf(ram, next, owner, i, j);
    OwnersOf(ram, next, owner);
    StoreKeepsCells(ram, owner, pd, k, e);
    forall a, b | InTable(a) && InTable(b)
      ensures EntriesSame(ram, ram', a, b)
      ensures forall c :: InTable(c) ==>
                Leaf(ram', a, b, c) == if a == i && b == j && c == k then e else Leaf(ram, a, b, c)
    {
      LinksOf(ram, next, owner, a, b);
      StoredAt(ram, ram', owner, i, j, k, e, a, b);
    }
  }

  lemma StoreKeepsCells(ram: Ram, owner: map<int, Node>, pd: int, k: int, e: Word)
    requires pd % PAGE == 0 && InTable(k) && forall p :: p in owner ==> p % PAGE == 0
    ensures CellsKept(ram, ram[pd + 8 * k := e], owner, pd, k) && Cell(ram[pd + 8 * k := e], pd, k) == e
  {
    forall p, x | p in owner && InTable(x) && !(p == pd && x == k)
      ensures Cell(ram[pd + 8 * k := e], p, x) == Cell(ram, p, x)
    {
      WordsApart(p, x, pd, k);
    }
  }

  /** A store to one entry of a page directory, seen from the walk by (a, b). */
  lemma StoredAt(ram: Ram, ram': Ram, owner: map<int, Node>, i: int, j: int, k: int, e: Word, a: int, b: int)
    requires InTable(i) && InTable(j) && InTable(k) && InTable(a) && InTable(b)
    requires ROOT in owner && owner[ROOT] == Root
    requires HasPd(ram, i, j) && Linked(owner, Pdpte(ram, i, j), Pd(i, j))
    requires Present(Pml4e(ram, a)) ==> Linked(owner, Pml4e(ram, a), Pdpt(a))
    requires HasPd(ram, a, b) ==> Linked(owner, Pdpte(ram, a, b), Pd(a, b))
    requires CellsKept(ram, ram', owner, SwBase(Pdpte(ram, i, j)), k)
    requires Cell(ram', SwBase(Pdpte(ram, i, j)), k) == e
    ensures EntriesSame(ram, ram', a, b)
    ensures forall c :: InTable(c) ==>
              Leaf(ram', a, b, c) == if a == i && b == j && c == k then e else Leaf(ram, a, b, c)
  {
    hide SwBase, Present, Cell;
    assert Pml4e(ram', a) == Pml4e(ram, a);
    if Present(Pml4e(ram, a)) {
      assert Pdpte(ram', a, b) == Pdpte(ram, a, b);
    }
  }

  lemma OwnersOf(ram: Ram, next: int, owner: map<int, Node>)
    requires Tree(ram, next, owner)
    ensures ROOT in owner && owner[ROOT] == Root && forall p :: p in owner ==> p % PAGE == 0
  {
  }

  lemma SameTablesKeepTree(ram: Ram, ram': Ram, next: int, owner: map<int, Node>)
    requires Tree(ram, next, owner) && SameTables(ram, ram') && LeavesAreLarge(ram')
    ensures Tree(ram', next, owner)
  {
    hide LeavesAreLarge, SameTables, Placed;
    SameTablesKeepLinks(ram, ram', owner);
    forall p | p in owner ensures Placed(ram', p, owner[p]) {
      assert Placed(ram, p, owner[p]);
      PlaceKept(ram, ram', p, owner[p]);
    }
  }

  lemma SameTablesKeepLinks(ram: Ram, ram': Ram, owner: map<int, Node>)
    requires AllLinked(ram, owner) && SameTables(ram, ram')
    ensures AllLinked(ram', owner)
  {
    hide SwBase, Present, Linked;
    assert InTable(0);
    forall a, b | InTable(a) && InTable(b)
      ensures Present(Pml4e(ram', a)) ==> Linked(owner, Pml4e(ram', a), Pdpt(a))
      ensures HasPd(ram', a, b) ==> Linked(owner, Pdpte(ram', a, b), Pd(a, b))
    {
      assert EntriesSame(ram, ram', a, b);
    }
  }

  lemma PlaceKept(ram: Ram, ram': Ram, p: int, n: Node)
    requires SameTables(ram, ram') && Placed(ram, p, n)
    ensures Placed(ram', p, n)
  {
    match n
    case Root =>
    case Pdpt(a) => assert InTable(0) && EntriesSame(ram, ram', a, 0);
    case Pd(a, b) => assert EntriesSame(ram, ram', a, b);
  }

  /** Storing a large leaf keeps the tree. */
  lemma StoreKeepsTree(ram: Ram, next: int, owner: map<int, Node>, i: int, j: int, k: int, e: Word)
    requires Tree(ram, next, owner) && InTable(i) && InTable(j) && InTable(k) && HasPd(ram, i, j)
    requires Large(e)
    ensures var ram' := ram[SwBase(Pdpte(ram, i, j)) + 8 * k := e];
            Tree(ram', next, owner) && LeafStored(ram, ram', i, j, k, e)
  {
    var ram' := ram[SwBase(Pdpte(ram, i, j)) + 8 * k := e];
    StoreLeaf(ram, next, owner, i, j, k, e);
    assert LeavesAreLarge(ram);
    assert LeavesAreLarge(ram');
    SameTablesKeepTree(ram, ram', next, owner);
  }

  lemma BothTablesAreThere(s: Space, i: int, j: int)
    requires Sound(s) && InTable(i) && InTable(j)
    ensures var t := EnsurePd(EnsurePdpt(s, i), i, j);
            Sound(t) && HasPd(t.ram, i, j) && SameLeaves(s.ram, t.ram)
  {
    var t1 := EnsurePdpt(s, i);
    assert Sound(t1) && Present(Pml4e(t1.ram, i)) && SameLeaves(s.ram, t1.ram) by {
      var o :| Tree(s.ram, s.next, o);
      var o1 := PdptIsThere(s, o, i);
    }
    var t := EnsurePd(t1, i, j);
    assert Sound(t) && HasPd(t.ram, i, j) && SameLeaves(t1.ram, t.ram) by {
      var o :| Tree(t1.ram, t1.next, o);
      var o1 := PdIsThere(t1, o, i, j);
    }
    SameLeavesTwice(s.ram, t1.ram, t.ram);
  }

  lemma SameLeavesTwice(r0: Ram, r1: Ram, r2: Ram)
    requires SameLeaves(r0, r1) && SameLeaves(r1, r2)
    ensures SameLeaves(r0, r2)
  {
  }

  lemma StoreThroughStoresOneLeaf(s: Space, i: int, j: int, k: int, e: Word)
    requires Sound(s) && InTable(i) && InTable(j) && InTable(k) && Large(e)
    ensures Sound(StoreThrough(s, i, j, k, e))
    ensures LeafStored(s.ram, StoreThrough(s, i, j, k, e).ram, i, j, k, e)
  {
    hide Sound, Leaf, EnsurePd, EnsurePdpt;
    var t := EnsurePd(EnsurePdpt(s, i), i, j);
    BothTablesAreThere(s, i, j);
    StoreInSound(t, i, j, k, e);
    LeafStoredAfterSame(s.ram, t.ram, StoreThrough(s, i, j, k, e).ram, i, j, k, e);
  }

  lemma StoreInSound(t: Space, i: int, j: int, k: int, e: Word)
    requires Sound(t) && InTable(i) && InTable(j) && InTable(k) && HasPd(t.ram, i, j) && Large(e)
    ensures var r := Space(t.ram[SwBase(Pdpte(t.ram, i, j)) + 8 * k := e], t.next);
            Sound(r) && LeafStored(t.ram, r.ram, i, j, k, e)
  {
    hide Tree, LeafStored, HasPd, Pdpte, SwBase, Large;
    var o :| Tree(t.ram, t.next, o);
    StoreKeepsTree(t.ram, t.next, o, i, j, k, e);
  }

  /** map_mmio_64 keeps the tree sound and changes one leaf: that of the region asked for. */
  lemma MapMmioStoresOneLeaf(s: Space, p: Word)
    requires Sound(s)
    ensures Sound(MapMmio(s, p))
    ensures LeafStored(s.ram, MapMmio(s, p).ram, I4(p), I3(p), I2(p), MmioEntry(p))
  {
    MmioEntryBits(p);
    StoreThroughStoresOneLeaf(s, I4(p), I3(p), I2(p), MmioEntry(p));
  }

  /** The three words on the way to p's region: two links to table pages with present and writable set, and
      the leaf with write-through and caching off on top of the address's multiple of 2 MB. */
  predicate MappedBy(ram: Ram, p: Word) {
    var a := ram[0x400_0000 + 8 * (p / 0x80_0000_0000 % 512)];
    var b := ram[a - 3 + 8 * (p / 0x4000_0000 % 512)];
    && a % 0x1000 == 3 && b % 0x1000 == 3
    && ram[b - 3 + 8 * (p / 0x20_0000 % 512)] == p - p % 0x20_0000 + 0x9B
  }

  lemma CallMaps(s: Space, p: Word)
    requires Sound(s)
    ensures MappedBy(MapMmio(s, p).ram, p)
  {
    hide Sound, MapMmio, Tree, Present, Leaf, MmioEntry;
    var r := MapMmio(s, p);
    MapMmioStoresOneLeaf(s, p);
    MmioEntryBits(p);
    IndicesInRange(p);
    assert LeafAt(r.ram, p) == MmioEntry(p);
    WordsOnTheWay(r, p);
    MmioEntryWord(p);
  }

  lemma MmioEntryWord(p: Word)
    ensures MmioEntry(p) == p - p % 0x20_0000 + 0x9B
  {
  }

  /** A region's present leaf hangs on two links with the flags of a table. */
  lemma WordsOnTheWay(s: Space, p: Word)
    requires Sound(s) && Present(LeafAt(s.ram, p))
    ensures var a := s.ram[0x400_0000 + 8 * (p / 0x80_0000_0000 % 512)];
            var b := s.ram[a - 3 + 8 * (p / 0x4000_0000 % 512)];
            && a % 0x1000 == 3 && b % 0x1000 == 3
            && s.ram[b - 3 + 8 * (p / 0x20_0000 % 512)] == LeafAt(s.ram, p)
  {
    hide Tree, Present;
    var o :| Tree(s.ram, s.next, o);
    IndicesInRange(p);
    AbsentZero();
    LinksOf(s.ram, s.next, o, I4(p), I3(p));
  }

  lemma LeafStoredAfterSame(r0: Ram, r1: Ram, r2: Ram, i: int, j: int, k: int, e: Word)
    requires SameLeaves(r0, r1) && LeafStored(r1, r2, i, j, k, e)
    ensures LeafStored(r0, r2, i, j, k, e)
  {
  }

  lemma MmioEntryBits(p: Word)
    ensures Present(MmioEntry(p)) && Large(MmioEntry(p))
    ensures HwBase(MmioEntry(p), TWO21) == AlignDown(p % TWO52, TWO21)
    ensures NoExecute(MmioEntry(p)) == NoExecute(p)
  {
    hide AlignDown;
    MmioEntryIs(p);
    EntryOfRegion(p / TWO21, 0x9B);
    AlignedField(p);
  }

  lemma MmioEntryIs(p: Word)
    ensures MmioEntry(p) == p / TWO21 * TWO21 + 0x9B
    ensures NoExecute(MmioEntry(p)) == NoExecute(p)
    ensures p / TWO21 < 0x800_0000_0000
  {
  }

  /** The page address in bits 51:21 of a word, and in bits 47:21. */
  lemma AlignedField(p: Word)
    ensures AlignDown(p % TWO52, TWO21) == p / TWO21 % 0x8000_0000 * TWO21
    ensures RegionBase(p) == p / TWO21 % REGIONS * TWO21
    ensures p % TWO52 < TWO48 <==> p / TWO21 % 0x8000_0000 < REGIONS
  {
    var n, t := p / TWO21, p % TWO21;
    DivTwice(p, TWO21, 0x8000_0000, TWO52);
    DivModIs(p % TWO52, TWO21, n % 0x8000_0000, t);
    DivTwice(p, TWO21, REGIONS, TWO48);
    DivModIs(p % TWO48, TWO21, n % REGIONS, t);
  }

  /** The fields of an entry `2 MB * n | flags`. */
  lemma EntryOfRegion(n: int, flags: int)
    requires 0 <= n < 0x800_0000_0000 && 0x80 <= flags < 0x100 && flags % 2 == 1
    ensures var e := n * TWO21 + flags;
            && 0 <= e < TWO64 && e % 2 == 1 && e / 0x80 % 2 == 1
            && AlignDown(e % TWO52, TWO21) == n % 0x8000_0000 * TWO21
  {
    var e := n * TWO21 + flags;
    var low := n % 0x8000_0000;
    DivModIs(e, 2, n * 0x10_0000 + flags / 2, 1);
    DivModIs(e, 0x80, n * 0x4000 + 1, flags - 0x80);
    DivModIs(n * 0x4000 + 1, 2, n * 0x2000, 1);
    DivModIs(e, TWO52, n / 0x8000_0000, low * TWO21 + flags);
    DivModIs(low * TWO21 + flags, TWO21, low, flags);
  }

  // ----- what one call does to translation

  function RegionBase(va: int): int { AlignDown(va % TWO48, TWO21) }

  lemma RegionBaseIsRegion(va: int)
    requires 0 <= va
    ensures RegionBase(va) == Region(va) * TWO21
    ensures va < TWO48 ==> va == RegionBase(va) + va % TWO21
  {
    assert va % TWO48 / TWO21 == va / TWO21 % REGIONS;
  }

  /** The requested region translates to the address stored, with XD only if bit 63 of the
      argument says so; every address outside the region translates exactly as before. */
  lemma MapMmioEffect(s: Space, p: Word, va: int)
    requires Sound(s) && 0 <= va
    ensures Region(va) == Region(p) ==>
              && Translate(MapMmio(s, p).ram, ROOT, va) == Mapped(AlignDown(p % TWO52, TWO21) + va % TWO21)
              && (HwWalk(MapMmio(s, p).ram, ROOT, va).nx <==> NoExecute(p))
    ensures Region(va) != Region(p) ==>
              && Translate(MapMmio(s, p).ram, ROOT, va) == Translate(s.ram, ROOT, va)
              && (HwWalk(s.ram, ROOT, va).Page? ==>
                    HwWalk(MapMmio(s, p).ram, ROOT, va).nx == HwWalk(s.ram, ROOT, va).nx)
  {
    hide Sound, HwWalk, HwBase, MapMmio, MmioEntry, Region, I4, I3, I2, Leaf, NoExecute, Present, CleanWalk, AlignDown;
    var r := MapMmio(s, p);
    MapMmioStoresOneLeaf(s, p);
    WalkOfSound(s, va);
    WalkOfSound(r, va);
    IndicesAreTheRegion(va, p);
    IndicesInRange(va);
    MmioEntryBits(p);
    assert LeafAt(r.ram, va) == if Region(va) == Region(p) then MmioEntry(p) else LeafAt(s.ram, va);
  }

  lemma WalkOfSound(s: Space, va: int)
    requires Sound(s)
    ensures CleanWalk(s.ram, ROOT, va)
    ensures var e := LeafAt(s.ram, va);
            var w := HwWalk(s.ram, ROOT, va);
            if Present(e) then w.Page? && w.size == TWO21 && w.base == HwBase(e, TWO21) && w.nx == NoExecute(e)
            else w.Fault? && w.level >= 2
  {
    var o :| Tree(s.ram, s.next, o);
    WalkOfTree(s.ram, s.next, o, va);
  }

  /** The new region maps to itself exactly when the argument has no bit in 51:48: the walk
      ignores those bits of a virtual address but the entry stores them. */
  lemma MapMmioIsIdentityIff(s: Space, p: Word)
    requires Sound(s)
    ensures (forall va :: 0 <= va < TWO48 && Region(va) == Region(p)
                          ==> Translate(MapMmio(s, p).ram, ROOT, va) == Mapped(va))
            <==> p % TWO52 < TWO48
  {
    forall va | 0 <= va < TWO48 && Region(va) == Region(p)
      ensures Translate(MapMmio(s, p).ram, ROOT, va) == Mapped(va)
              <==> AlignDown(p % TWO52, TWO21) == RegionBase(p)
    {
      MapMmioEffect(s, p, va);
      RegionBaseIsRegion(va);
      RegionBaseIsRegion(p);
    }
    var w := RegionBase(p);
    RegionBaseIsRegion(p);
    assert 0 <= w < TWO48 && w % TWO21 == 0;
    RegionBaseIsRegion(w);
    assert Region(w) == Region(p);
    HighBitsShow(p);
  }

  lemma HighBitsShow(p: Word)
    ensures AlignDown(p % TWO52, TWO21) == RegionBase(p) <==> p % TWO52 < TWO48
  {
    AlignedField(p);
    var n := p / TWO21;
    DivTwice(n, REGIONS, 16, 0x8000_0000);
  }

  // ----- disable_nx_for_app on a sound tree

  ghost function Unlock(s: Space, v: Word, n: Word): Space {
    s.(ram := Unlocked(s.ram, ROOT, StartPage(v), EndPage(v, n)))
  }

  lemma NxKeepsTree(ram: Ram, ram': Ram, next: int, owner: map<int, Node>)
    requires Tree(ram, next, owner) && SameButNx(ram, ram')
    ensures Tree(ram', next, owner)
  {
    forall a, b | InTable(a) && InTable(b) ensures EntriesSame(ram, ram', a, b) {
      LinksOf(ram, next, owner, a, b);
      ClearNxKeepsTheRest(Pml4e(ram, a));
      ClearNxKeepsTheRest(Pdpte(ram, a, b));
    }
    forall a, b, c | InTable(a) && InTable(b) && InTable(c) && Present(Leaf(ram', a, b, c))
      ensures Large(Leaf(ram', a, b, c))
    {
      assert EntriesSame(ram, ram', a, b);
      assert Present(Leaf(ram, a, b, c)) ==> Large(Leaf(ram, a, b, c));
      ClearNxKeepsTheRest(Leaf(ram, a, b, c));
    }
    SameTablesKeepTree(ram, ram', next, owner);
  }

  /** Unlocking keeps the tree and every translation; mapped pages of the range become executable. */
  lemma UnlockEffect(s: Space, v: Word, n: Word)
    requires Sound(s)
    ensures Sound(Unlock(s, v, n))
    ensures forall va: int :: Translate(Unlock(s, v, n).ram, ROOT, va) == Translate(s.ram, ROOT, va)
    ensures forall page: int ::
              StartPage(v) <= page < EndPage(v, n) && page % PAGE == 0 && HwWalk(s.ram, ROOT, page).Page?
              ==> HwWalk(Unlock(s, v, n).ram, ROOT, page) == HwWalk(s.ram, ROOT, page).(nx := false)
  {
    var lo, hi := StartPage(v), EndPage(v, n);
    assert SwBase(ROOT) == ROOT;
    var o :| Tree(s.ram, s.next, o);
    forall page: int | lo <= page < hi && page % PAGE == 0 ensures CleanWalk(s.ram, SwBase(ROOT), page) {
      WalkOfTree(s.ram, s.next, o, page);
    }
    UnlockedMeans(s.ram, ROOT, lo, hi);
    NxKeepsTree(s.ram, Unlock(s, v, n).ram, s.next, o);
  }

  /** What unlocking the bytes [v, v+n) is for: the mapped pages they meet become executable, and a word
      changes only if it is the leaf of such a page, by its bit 63. */
  ghost predicate BytesUnlocked(ram: Ram, ram': Ram, v: Word, n: Word) {
    && (forall page: int :: Meeting(ram, page, v, n)
          ==> HwWalk(ram', ROOT, page) == HwWalk(ram, ROOT, page).(nx := false))
    && (forall a: int :: ram'[a] != ram[a]
          ==> ram'[a] == ClearNx(ram[a]) && exists page: int :: Meeting(ram, page, v, n) && LeafIs(ram, page, a))
  }

  /** A mapped page that the bytes meet. */
  ghost predicate Meeting(ram: Ram, page: int, v: Word, n: Word) {
    0 <= page < TWO64 && page % PAGE == 0 && Meets(page, v, n) && HwWalk(ram, ROOT, page).Page?
  }

  ghost predicate LeafIs(ram: Ram, page: int, a: int)
    requires HwWalk(ram, ROOT, page).Page?
  {
    HwWalk(ram, ROOT, page).slot == a
  }

  /** A call that rounds exactly does that. */
  lemma UnlockBytes(s: Space, v: Word, n: Word)
    requires Sound(s) && RoundsExactly(v, n)
    ensures BytesUnlocked(s.ram, Unlock(s, v, n).ram, v, n)
  {
    hide HwWalk, Translate, Sound, Visited, Meets, RoundsExactly, ClearNx, FindPte, StartPage, EndPage;
    var ram' := Unlock(s, v, n).ram;
    RangeIsExactIff(v, n);
    UnlockEffect(s, v, n);
    RangeOfWords(v, n);
    forall a: int | ram'[a] != s.ram[a]
      ensures exists page: int :: Meeting(s.ram, page, v, n) && LeafIs(s.ram, page, a)
    {
      var page := VisitedLeaf(s, v, n, a);
      assert Meeting(s.ram, page, v, n) && LeafIs(s.ram, page, a);
    }
  }

  /** An empty call inside a page unlocks that page, which none of its bytes is in. */
  lemma EmptyCallUnlocks(s: Space, v: Word)
    requires Sound(s) && !RoundsExactly(v, 0)
    requires HwWalk(s.ram, ROOT, StartPage(v)).Page? && HwWalk(s.ram, ROOT, StartPage(v)).nx
    ensures HwWalk(Unlock(s, v, 0).ram, ROOT, StartPage(v)) == HwWalk(s.ram, ROOT, StartPage(v)).(nx := false)
    ensures !BytesUnlocked(s.ram, Unlock(s, v, 0).ram, v, 0)
  {
    hide HwWalk, Translate, Sound, EndPage, Unlock;
    var page := StartPage(v);
    AlignDownIs(v);
    VisitsMeans(page, v, 0);
    UnlockEffect(s, v, 0);
    SameWords(s.ram, Unlock(s, v, 0).ram);
  }

  lemma SameWords(ram: Ram, ram': Ram)
    ensures (forall a: int :: ram'[a] == ram[a]) ==> ram' == ram
  {
    if forall a: int :: ram'[a] == ram[a] {
      assert forall a: int :: a in ram && a in ram';
      assert ram' == ram;
    }
  }

  lemma RangeOfWords(v: Word, n: Word)
    ensures 0 <= StartPage(v) && EndPage(v, n) <= TWO64
  {
    AlignDownIs(v);
    AlignDownIs((v + n + 0xFFF) % TWO64);
  }

  /** A word the loop changes is the leaf of a page it visits. */
  lemma VisitedLeaf(s: Space, v: Word, n: Word, a: int) returns (page: int)
    requires Sound(s) && Visited(s.ram, ROOT, StartPage(v), EndPage(v, n), a)
    ensures page % PAGE == 0 && Visits(page, v, n) && HwWalk(s.ram, ROOT, page).Page? && LeafIs(s.ram, page, a)
  {
    hide HwWalk, FindPte, StartPage, EndPage, Tree, LeafAt, Present;
    page :| StartPage(v) <= page < EndPage(v, n) && page % PAGE == 0 && FindPte(s.ram, ROOT, page) == a;
    var o :| Tree(s.ram, s.next, o);
    assert SwBase(ROOT) == ROOT;
    WalkOfTree(s.ram, s.next, o, page);
    FindPteIsTheHardwareLeaf(s.ram, ROOT, page);
  }

  // ----- the boot map

  function BootEntry(a: int): Word
    requires ROOT <= a < ROOT + BOOT_TABLES * PAGE
  {
    if a == ROOT then 0x400_1003
    else if 0x400_1000 <= a < 0x400_1020 && a % 8 == 0 then 0x400_2003 + (a - 0x400_1000) / 8 * PAGE
    else if 0x400_2000 <= a && a % 8 == 0 then 0x83 + (a - 0x400_2000) / 8 * TWO21
    else 0
  }

  /** Whatever memory held before, the six boot tables are fully written. */
  ghost function BootRam(initial: Ram): Ram {
    imap a: int ::
      if ROOT <= a < ROOT + BOOT_TABLES * PAGE && a % 8 == 0 then BootEntry(a) else initial[a]
  }

  ghost function Boot(initial: Ram): Space { Space(BootRam(initial), BUMP) }

  const BOOT_OWNER: map<int, Node> :=
    map[ROOT := Root, 0x400_1000 := Pdpt(0), 0x400_2000 := Pd(0, 0), 0x400_3000 := Pd(0, 1),
        0x400_4000 := Pd(0, 2), 0x400_5000 := Pd(0, 3)]

  lemma BootEntries(initial: Ram, i: int, j: int, k: int)
    requires InTable(i) && InTable(j) && InTable(k)
    ensures var ram := BootRam(initial);
            && Pml4e(ram, i) == (if i == 0 then 0x400_1003 else 0)
            && (i == 0 ==> Pdpte(ram, i, j) == if j < 4 then 0x400_2003 + j * PAGE else 0)
            && Leaf(ram, i, j, k) == if i == 0 && j < 4 then 0x83 + (512 * j + k) * TWO21 else 0
  {
    hide SwBase, Present;
    BootRamAt(initial, 0, i);
    LinkFlags(0x400_1000);
    AbsentZero();
    if i == 0 {
      BootRamAt(initial, 1, j);
      if j < 4 {
        PdOfBoot(j);
        BootRamAt(initial, 2 + j, k);
      }
    }
  }

  lemma PdOfBoot(j: int)
    requires 0 <= j < 4
    ensures Present(0x400_2003 + j * PAGE) && SwBase(0x400_2003 + j * PAGE) == 0x400_2000 + j * PAGE
  {
    DivModIs(0x400_2000 + j * PAGE, PAGE, 0x4002 + j, 0);
    LinkFlags(0x400_2000 + j * PAGE);
  }

  /** Entry x of the n-th boot table. */
  lemma BootRamAt(initial: Ram, n: int, x: int)
    requires 0 <= n < BOOT_TABLES && InTable(x)
    ensures Cell(BootRam(initial), ROOT + n * PAGE, x) ==
            if n == 0 then (if x == 0 then 0x400_1003 else 0)
            else if n == 1 then (if x < 4 then 0x400_2003 + x * PAGE else 0)
            else 0x83 + (512 * (n - 2) + x) * TWO21
  {
    var a := ROOT + n * PAGE + 8 * x;
    DivModIs(a, 8, ROOT / 8 + n * 512 + x, 0);
    if n == 1 {
      DivModIs(a - 0x400_1000, 8, x, 0);
    } else if n > 1 {
      DivModIs(a - 0x400_2000, 8, 512 * (n - 2) + x, 0);
    }
  }

  lemma BootLink(initial: Ram, i: int, j: int)
    requires InTable(i) && InTable(j)
    ensures var ram := BootRam(initial);
            && (Present(Pml4e(ram, i)) ==> Linked(BOOT_OWNER, Pml4e(ram, i), Pdpt(i)))
            && (HasPd(ram, i, j) ==> Linked(BOOT_OWNER, Pdpte(ram, i, j), Pd(i, j)))
  {
    hide SwBase, Present, BootRam;
    BootEntries(initial, i, j, 0);
    AbsentZero();
    LinkFlags(0x400_1000);
    if i == 0 && j < 4 {
      PdOfBoot(j);
      DivModIs(0x400_2003 + j * PAGE, PAGE, 0x4002 + j, 3);
      assert BOOT_OWNER[0x400_2000 + j * PAGE] == Pd(0, j);
    }
  }

  lemma BootLeafIsLarge(initial: Ram, i: int, j: int, k: int)
    requires InTable(i) && InTable(j) && InTable(k) && Present(Leaf(BootRam(initial), i, j, k))
    ensures Large(Leaf(BootRam(initial), i, j, k))
  {
    hide BootRam;
    BootEntries(initial, i, j, k);
    if i == 0 && j < 4 {
      EntryOfRegion(512 * j + k, 0x83);
    }
  }

  lemma BootLinks(initial: Ram)
    ensures AllLinked(BootRam(initial), BOOT_OWNER) && LeavesAreLarge(BootRam(initial))
  {
    var ram := BootRam(initial);
    forall i, j | InTable(i) && InTable(j)
      ensures Present(Pml4e(ram, i)) ==> Linked(BOOT_OWNER, Pml4e(ram, i), Pdpt(i))
      ensures HasPd(ram, i, j) ==> Linked(BOOT_OWNER, Pdpte(ram, i, j), Pd(i, j))
    {
      BootLink(initial, i, j);
    }
    forall i, j, k | InTable(i) && InTable(j) && InTable(k) && Present(Leaf(ram, i, j, k))
      ensures Large(Leaf(ram, i, j, k))
    {
      BootLeafIsLarge(initial, i, j, k);
    }
    assert InTable(0);
  }

  lemma BootPlaces(initial: Ram)
    ensures AllPlaced(BootRam(initial), BOOT_OWNER)
  {
    BootEntries(initial, 0, 0, 0);
    BootEntries(initial, 0, 1, 0);
    BootEntries(initial, 0, 2, 0);
    BootEntries(initial, 0, 3, 0);
    assert SwBase(0x400_1003) == 0x400_1000;
    assert SwBase(0x400_2003) == 0x400_2000 && SwBase(0x400_3003) == 0x400_3000;
    assert SwBase(0x400_4003) == 0x400_4000 && SwBase(0x400_5003) == 0x400_5000;
  }

  lemma BootCount()
    ensures |BOOT_OWNER| == BOOT_TABLES
  {
    var keys := {ROOT, 0x400_1000, 0x400_2000, 0x400_3000, 0x400_4000, 0x400_5000};
    assert BOOT_OWNER.Keys == keys;
    assert |keys| == 6;
  }

  lemma BootIsSound(initial: Ram)
    ensures Sound(Boot(initial))
  {
    hide AllLinked, AllPlaced, LeavesAreLarge, BootRam;
    assert PagesBelow(BUMP, BOOT_OWNER) && ROOT in BOOT_OWNER && BOOT_OWNER[ROOT] == Root;
    BootLinks(initial);
    BootPlaces(initial);
    BootCount();
    TreeIsSound(BootRam(initial), BUMP, BOOT_OWNER);
  }

  lemma TreeIsSound(ram: Ram, next: Word, owner: map<int, Node>)
    requires next % PAGE == 0 && next == BUMP + PAGE * (|owner| - BOOT_TABLES) && |owner| >= BOOT_TABLES
    requires ROOT in owner && owner[ROOT] == Root && PagesBelow(next, owner)
    requires AllPlaced(ram, owner) && AllLinked(ram, owner) && LeavesAreLarge(ram)
    ensures Sound(Space(ram, next))
  {
    assert Tree(ram, next, owner);
  }

  lemma BootLeafAt(initial: Ram, va: int)
    requires 0 <= va < TWO48
    ensures LeafAt(BootRam(initial), va) == if va < LOW_4GB then 0x83 + Region(va) * TWO21 else 0
  {
    hide BootRam, AlignDown;
    BootEntries(initial, I4(va), I3(va), I2(va));
    LowIndices(va);
  }

  /** The boot map is the identity on the first 4 GB, and maps nothing else. */
  lemma BootTranslates(initial: Ram, va: int)
    requires 0 <= va < TWO48
    ensures Translate(BootRam(initial), ROOT, va) == if va < LOW_4GB then Mapped(va) else Unmapped
  {
    hide BootRam, HwWalk, AlignDown, LeafAt, Sound, Present;
    BootIsSound(initial);
    WalkOfSound(Boot(initial), va);
    BootLeafAt(initial, va);
    RegionBaseIsRegion(va);
    assert !Present(0) by { AbsentZero(); }
    if va < LOW_4GB {
      LowIndices(va);
      BootLeafBase(Region(va));
    }
  }

  lemma LowIndices(va: int)
    requires 0 <= va < TWO48
    ensures va < LOW_4GB <==> I4(va) == 0 && I3(va) < 4
    ensures va < LOW_4GB ==> Region(va) == 512 * I3(va) + I2(va) < 2048
  {
    RegionSplits(va);
    assert va / TWO21 == Region(va);
  }

  lemma BootLeafBase(n: int)
    requires 0 <= n < 2048
    ensures var e := 0x83 + n * TWO21; e < TWO52 && Present(e) && HwBase(e, TWO21) == n * TWO21
  {
    hide AlignDown;
    EntryOfRegion(n, 0x83);
  }
}
