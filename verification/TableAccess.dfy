/** The paging code finds its tables by virtual addresses: it reads and writes them through the very
    translation it is changing.  When that hits the words the tables are made of, and when a call
    ends it. */
module TableAccess {
  import opened Arith
  import opened MmioMap
  import opened PageTree
  import opened Paging

  /** A page that is found at its own address. */
  predicate SelfMapped(ram: Ram, page: int) { Translate(ram, ROOT, page) == Mapped(page) }

  /** Every table of the tree is found at its own address. */
  ghost predicate TablesReached(ram: Ram) {
    forall p, n :: Placed(ram, p, n) ==> SelfMapped(ram, p)
  }

  /** How many pages a call for region (i, j) takes from the bump pointer. */
  function Missing(ram: Ram, i: int, j: int): int {
    if !Present(Pml4e(ram, i)) then 2 else if !Present(Pdpte(ram, i, j)) then 1 else 0
  }

  /** The tables there are, and those the call makes, are found at their own addresses. */
  ghost predicate Reached(s: Space, i: int, j: int) {
    && Sound(s) && TablesReached(s.ram)
    && forall k :: 0 <= k < Missing(s.ram, i, j) ==> SelfMapped(s.ram, s.next + k * PAGE)
  }

  // ----- what keeps an address where it was

  /** What a leaf says about an address of its region. */
  function LeafTarget(e: Word, va: int): Target {
    if Present(e) then Mapped(HwBase(e, TWO21) + va % TWO21) else Unmapped
  }

  /** Translation is a matter of the leaves. */
  lemma TranslateIsLeaf(s: Space, va: int)
    requires Sound(s)
    ensures Translate(s.ram, ROOT, va) == LeafTarget(LeafAt(s.ram, va), va)
  {
    hide HwWalk, HwBase, LeafAt, Sound, Present;
    WalkOfSound(s, va);
  }

  lemma SameLeavesTranslate(s: Space, t: Space, va: int)
    requires Sound(s) && Sound(t) && SameLeaves(s.ram, t.ram) && 0 <= va
    ensures Translate(t.ram, ROOT, va) == Translate(s.ram, ROOT, va)
  {
    hide Translate, LeafTarget, Sound, Leaf;
    TranslateIsLeaf(s, va);
    TranslateIsLeaf(t, va);
    assert InTable(I4(va)) && InTable(I3(va)) && InTable(I2(va));
  }

  /** All words of a self-mapped page are found at their own addresses. */
  lemma WordIsReached(s: Space, page: int, x: int)
    requires Sound(s) && SelfMapped(s.ram, page) && 0 <= page && page % PAGE == 0 && InTable(x)
    ensures Translate(s.ram, ROOT, page + 8 * x) == Mapped(page + 8 * x)
  {
    hide Translate, Sound, I4, I3, I2, Leaf, HwBase, Present;
    TranslateIsLeaf(s, page);
    TranslateIsLeaf(s, page + 8 * x);
    SamePage(page, x);
  }

  lemma SamePage(page: int, x: int)
    requires 0 <= page && page % PAGE == 0 && InTable(x)
    ensures I4(page + 8 * x) == I4(page) && I3(page + 8 * x) == I3(page) && I2(page + 8 * x) == I2(page)
    ensures (page + 8 * x) % TWO21 == page % TWO21 + 8 * x
  {
    var n, r := page / TWO21, page % TWO21;
    DivTwice(page, PAGE, 512, TWO21);
    assert r == page / PAGE % 512 * PAGE;
    DivModIs(page + 8 * x, TWO21, n, r + 8 * x);
    DivTwice(page, TWO21, 512, TWO30);
    DivTwice(page + 8 * x, TWO21, 512, TWO30);
    DivTwice(page, TWO30, 512, TWO39);
    DivTwice(page + 8 * x, TWO30, 512, TWO39);
  }

  /** In a sound tree the tables are the pages of its owner map. */
  lemma TablesAreOwned(ram: Ram, next: int, owner: map<int, Node>, p: int)
    requires Tree(ram, next, owner)
    ensures (exists n :: Placed(ram, p, n)) <==> p in owner
  {
    if n :| Placed(ram, p, n) {
      match n
      case Root =>
      case Pdpt(i) => LinksOf(ram, next, owner, i, 0);
      case Pd(i, j) => LinksOf(ram, next, owner, i, j);
    }
    if p in owner {
      assert Placed(ram, p, owner[p]);
    }
  }

  lemma TablesReachedMeans(ram: Ram, next: int, owner: map<int, Node>)
    requires Tree(ram, next, owner)
    ensures TablesReached(ram) <==> forall p :: p in owner ==> SelfMapped(ram, p)
  {
    hide SelfMapped, Tree, Placed;
    forall p ensures (exists n :: Placed(ram, p, n)) <==> p in owner {
      TablesAreOwned(ram, next, owner, p);
    }
  }

  // ----- one call, step by step

  /** Memory that keeps every entry of every table keeps the tree and its leaves. */
  lemma CellsKeepTree(ram: Ram, ram': Ram, next: int, owner: map<int, Node>)
    requires Tree(ram, next, owner)
    requires forall p, x :: p in owner && InTable(x) ==> Cell(ram', p, x) == Cell(ram, p, x)
    ensures Tree(ram', next, owner) && SameLeaves(ram, ram')
  {
    hide SwBase, Present, Large;
    forall a, b | InTable(a) && InTable(b)
      ensures EntriesSame(ram, ram', a, b)
      ensures forall c :: InTable(c) ==> Leaf(ram', a, b, c) == Leaf(ram, a, b, c)
    {
      LinksOf(ram, next, owner, a, b);
    }
    assert LeavesAreLarge(ram');
    SameTablesKeepTree(ram, ram', next, owner);
  }

  /** Clearing the page at the bump pointer, even half way through, is invisible to every walk. */
  lemma ClearingIsUnseen(s: Space, k: int)
    requires Sound(s) && 0 <= k <= 512
    ensures var t := Space(ZeroedTo(s.ram, s.next, k), s.next); Sound(t) && SameLeaves(s.ram, t.ram)
  {
    var owner :| Tree(s.ram, s.next, owner);
    CellsKeepTree(s.ram, ZeroedTo(s.ram, s.next, k), s.next, owner);
  }

  /** While the page at the bump pointer is being cleared the words of both it and the tables stay
      where they were. */
  lemma ClearingReaches(s: Space, k: int, page: int, x: int)
    requires Sound(s) && 0 <= k <= 512 && SelfMapped(s.ram, page) && 0 <= page && page % PAGE == 0 && InTable(x)
    ensures Translate(ZeroedTo(s.ram, s.next, k), ROOT, page + 8 * x) == Mapped(page + 8 * x)
  {
    hide Sound, SameLeaves, Translate;
    var t := Space(ZeroedTo(s.ram, s.next, k), s.next);
    ClearingIsUnseen(s, k);
    SameLeavesTranslate(s, t, page);
    WordIsReached(t, page, x);
  }

  lemma StaysSelfMapped(s: Space, t: Space, p: int)
    requires Sound(s) && Sound(t) && SameLeaves(s.ram, t.ram) && 0 <= p && SelfMapped(s.ram, p)
    ensures SelfMapped(t.ram, p)
  {
    hide Translate, Sound, SameLeaves;
    SameLeavesTranslate(s, t, p);
  }

  /** Tables are added at a self-mapped page and the others stay where they were. */
  lemma AddedIsReached(s: Space, owner: map<int, Node>, t: Space, owner': map<int, Node>, n: Node)
    requires Tree(s.ram, s.next, owner) && Tree(t.ram, t.next, owner') && SameLeaves(s.ram, t.ram)
    requires owner' == owner[s.next := n] && TablesReached(s.ram) && SelfMapped(s.ram, s.next)
    ensures TablesReached(t.ram)
  {
    hide SelfMapped, SameLeaves, AllLinked, AllPlaced, LeavesAreLarge;
    TablesReachedMeans(s.ram, s.next, owner);
    TablesReachedMeans(t.ram, t.next, owner');
    forall p | p in owner' ensures SelfMapped(t.ram, p) {
      StaysSelfMapped(s, t, p);
    }
  }

  /** The call's first table, if it makes it, is found where it is. */
  lemma PdptIsReached(s: Space, i: int, j: int)
    requires Reached(s, i, j) && InTable(i) && InTable(j)
    ensures var t := EnsurePdpt(s, i);
            Sound(t) && TablesReached(t.ram) && Reached(t, i, j) && Present(Pml4e(t.ram, i))
  {
    hide SelfMapped, Present, Pml4e, Pdpte, Tree, TablesReached, SameLeaves;
    var owner :| Tree(s.ram, s.next, owner);
    BumpIsBounded(s.ram, s.next, owner);
    var t := EnsurePdpt(s, i);
    var owner' := PdptIsThere(s, owner, i);
    if !Present(Pml4e(s.ram, i)) {
      AddTableIs(s, ROOT, i);
      assert SelfMapped(s.ram, s.next + 0 * PAGE) && SelfMapped(s.ram, s.next + 1 * PAGE);
      AddedIsReached(s, owner, t, owner', Pdpt(i));
      StaysSelfMapped(s, t, t.next);
    }
  }

  /** And so is the second. */
  lemma PdIsReached(s: Space, i: int, j: int)
    requires Reached(s, i, j) && InTable(i) && InTable(j) && Present(Pml4e(s.ram, i))
    ensures var t := EnsurePd(s, i, j); Sound(t) && TablesReached(t.ram) && HasPd(t.ram, i, j)
  {
    hide SelfMapped, Present, Pml4e, Pdpte, Tree, TablesReached, SameLeaves;
    var owner :| Tree(s.ram, s.next, owner);
    var t := EnsurePd(s, i, j);
    var owner' := PdIsThere(s, owner, i, j);
    if !Present(Pdpte(s.ram, i, j)) {
      assert SelfMapped(s.ram, s.next + 0 * PAGE);
      AddedIsReached(s, owner, t, owner', Pd(i, j));
    }
  }

  // ----- the words the code touches

  /** Entry x of a table is found at its own address. */
  lemma EntryIsReached(s: Space, p: int, n: Node, x: int)
    requires Sound(s) && TablesReached(s.ram) && Placed(s.ram, p, n) && InTable(x)
    ensures Translate(s.ram, ROOT, p + 8 * x) == Mapped(p + 8 * x)
    ensures 0 <= p && p % PAGE == 0 && SelfMapped(s.ram, p)
  {
    hide Translate, Placed;
    var owner :| Tree(s.ram, s.next, owner);
    TablesAreOwned(s.ram, s.next, owner, p);
    WordIsReached(s, p, x);
  }

  /** The entries a call reads and writes, level by level. */
  lemma LevelsAreReached(s: Space, i: int, j: int, k: int)
    requires Sound(s) && TablesReached(s.ram) && InTable(i) && InTable(j) && InTable(k)
    ensures Translate(s.ram, ROOT, ROOT + 8 * i) == Mapped(ROOT + 8 * i)
    ensures Present(Pml4e(s.ram, i)) ==>
              var a := SwBase(Pml4e(s.ram, i)) + 8 * j; Translate(s.ram, ROOT, a) == Mapped(a)
    ensures HasPd(s.ram, i, j) ==>
              var a := SwBase(Pdpte(s.ram, i, j)) + 8 * k; Translate(s.ram, ROOT, a) == Mapped(a)
  {
    hide Translate, Sound, TablesReached, SwBase, Present;
    EntryIsReached(s, ROOT, Root, i);
    if Present(Pml4e(s.ram, i)) {
      EntryIsReached(s, SwBase(Pml4e(s.ram, i)), Pdpt(i), j);
    }
    if HasPd(s.ram, i, j) {
      EntryIsReached(s, SwBase(Pdpte(s.ram, i, j)), Pd(i, j), k);
    }
  }

  /** The entry find_pte_for_address points at is found at its own address. */
  lemma PteIsReached(s: Space, va: int)
    requires Sound(s) && TablesReached(s.ram) && 0 <= va
    ensures CleanWalk(s.ram, SwBase(ROOT), va)
    ensures var pte := FindPte(s.ram, ROOT, va); pte != 0 ==> Translate(s.ram, ROOT, pte) == Mapped(pte)
  {
    hide Sound, TablesReached, Translate, HwWalk, FindPte, CleanWalk, LeafAt, Present;
    assert SwBase(ROOT) == ROOT;
    WalkOfSound(s, va);
    FindPteIsTheHardwareLeaf(s.ram, ROOT, va);
    if Present(LeafAt(s.ram, va)) {
      LeafSlot(s, va);
      RegionSplits(va);
      EntryIsReached(s, SwBase(Pdpte(s.ram, I4(va), I3(va))), Pd(I4(va), I3(va)), I2(va));
    }
  }

  /** A mapped region's leaf is the entry of its page directory. */
  lemma LeafSlot(s: Space, va: int)
    requires Sound(s) && 0 <= va && Present(LeafAt(s.ram, va))
    ensures HasPd(s.ram, I4(va), I3(va))
    ensures HwWalk(s.ram, ROOT, va).Page?
    ensures HwWalk(s.ram, ROOT, va).slot == SwBase(Pdpte(s.ram, I4(va), I3(va))) + 8 * I2(va)
  {
    hide Tree, HwBase, SwBase, Present, Large, NoExecute;
    var owner :| Tree(s.ram, s.next, owner);
    IndicesInRange(va);
    TreeMeans(s.ram, s.next, owner, va);
    AbsentZero();
    LinksOf(s.ram, s.next, owner, I4(va), I3(va));
    LinkIsTable(Pml4e(s.ram, I4(va)));
    LinkIsTable(Pdpte(s.ram, I4(va), I3(va)));
  }

  /** Unlocking moves no table. */
  lemma UnlockedStaysReached(s: Space, lo: int, hi: int)
    requires Sound(s) && TablesReached(s.ram)
    ensures var t := s.(ram := Unlocked(s.ram, ROOT, lo, hi)); Sound(t) && TablesReached(t.ram)
  {
    hide Translate, Tree;
    var owner :| Tree(s.ram, s.next, owner);
    var ram' := Unlocked(s.ram, ROOT, lo, hi);
    assert SameButNx(s.ram, ram');
    NxKeepsTree(s.ram, ram', s.next, owner);
    TablesReachedMeans(s.ram, s.next, owner);
    TablesReachedMeans(ram', s.next, owner);
    forall p | p in owner ensures SelfMapped(ram', p) {
      NxDoesNotTranslate(s.ram, ram', ROOT, p);
    }
  }

  // ----- what a whole call leaves behind

  /** p has no bit in 51:48, or there is no table in its region. */
  ghost predicate MissesTables(ram: Ram, p: Word) {
    p % TWO52 < TWO48 || forall q, n :: Placed(ram, q, n) ==> Region(q) != Region(p)
  }

  /** A self-mapped page stays self-mapped exactly when the call is for another region or has no high bits. */
  lemma PageStaysIff(s: Space, p: Word, q: int)
    requires Sound(s) && SelfMapped(s.ram, q) && 0 <= q < TWO48
    ensures SelfMapped(MapMmio(s, p).ram, q) <==> Region(q) != Region(p) || p % TWO52 < TWO48
  {
    hide Sound, Translate, HwWalk, MapMmio, Region, RegionBase;
    MapMmioEffect(s, p, q);
    RegionBaseIsRegion(q);
    RegionBaseIsRegion(p);
    HighBitsShow(p);
  }

  /** A call's last store adds no table and takes none away. */
  lemma LeafStoreKeepsTables(t: Space, owner: map<int, Node>, p: Word)
    requires Tree(t.ram, t.next, owner) && HasPd(t.ram, I4(p), I3(p))
    ensures Tree(t.ram[SwBase(Pdpte(t.ram, I4(p), I3(p))) + 8 * I2(p) := MmioEntry(p)], t.next, owner)
  {
    hide Tree, HasPd, Pdpte, SwBase, MmioEntry, Present, Large;
    MmioEntryBits(p);
    StoreKeepsTree(t.ram, t.next, owner, I4(p), I3(p), I2(p), MmioEntry(p));
  }

  /** The tables after a call: all were at their own addresses before its last store. */
  lemma TablesAfter(s: Space, p: Word) returns (owner: map<int, Node>)
    requires Reached(s, I4(p), I3(p)) && Sound(s)
    ensures var r := MapMmio(s, p);
            && Tree(r.ram, r.next, owner)
            && forall q :: q in owner ==> 0 <= q < TWO48 && SelfMapped(s.ram, q)
  {
    hide *;
    IndicesInTable(p);
    var i, j := I4(p), I3(p);
    var t1 := EnsurePdpt(s, i);
    var t := EnsurePd(t1, i, j);
    PdptIsReached(s, i, j);
    PdIsReached(t1, i, j);
    owner := TablesBeforeStore(s, t, i, j);
    MapMmioIs(s, p);
    LeafStoreKeepsTables(t, owner, p);
  }

  lemma IndicesInTable(p: Word)
    ensures InTable(I4(p)) && InTable(I3(p)) && InTable(I2(p))
  {
  }

  lemma MapMmioIs(s: Space, p: Word)
    ensures var t := EnsurePd(EnsurePdpt(s, I4(p)), I4(p), I3(p));
            MapMmio(s, p) == Space(t.ram[SwBase(Pdpte(t.ram, I4(p), I3(p))) + 8 * I2(p) := MmioEntry(p)], t.next)
  {
  }

  lemma TablesBeforeStore(s: Space, t: Space, i: int, j: int) returns (owner: map<int, Node>)
    requires Sound(s) && Sound(t) && InTable(i) && InTable(j) && TablesReached(t.ram)
    requires t == EnsurePd(EnsurePdpt(s, i), i, j)
    ensures Tree(t.ram, t.next, owner) && forall q :: q in owner ==> 0 <= q < TWO48 && SelfMapped(s.ram, q)
  {
    hide SelfMapped, HasPd, EnsurePd, EnsurePdpt, SameLeaves, AllLinked, AllPlaced, LeavesAreLarge;
    BothTablesAreThere(s, i, j);
    owner :| Tree(t.ram, t.next, owner);
    BumpIsBounded(t.ram, t.next, owner);
    TablesReachedMeans(t.ram, t.next, owner);
    forall q | q in owner ensures 0 <= q < TWO48 && SelfMapped(s.ram, q) {
      StayedSelfMapped(s, t, q);
    }
  }

  lemma StayedSelfMapped(s: Space, t: Space, p: int)
    requires Sound(s) && Sound(t) && SameLeaves(s.ram, t.ram) && 0 <= p && SelfMapped(t.ram, p)
    ensures SelfMapped(s.ram, p)
  {
    hide Translate, Sound, SameLeaves;
    SameLeavesTranslate(s, t, p);
  }

  /** A call keeps all tables, those it made included, at their own addresses exactly when its
      argument has no bit in 51:48 or no table is in its region. */
  lemma CallKeepsReachIff(s: Space, p: Word)
    requires Reached(s, I4(p), I3(p))
    ensures var r := MapMmio(s, p); TablesReached(r.ram) <==> MissesTables(r.ram, p)
  {
    hide SelfMapped, Tree, Placed, Region, MapMmio;
    var r := MapMmio(s, p);
    var owner := TablesAfter(s, p);
    TablesReachedMeans(r.ram, r.next, owner);
    forall q ensures (exists n :: Placed(r.ram, q, n)) <==> q in owner {
      TablesAreOwned(r.ram, r.next, owner, q);
    }
    forall q | q in owner ensures SelfMapped(r.ram, q) <==> Region(q) != Region(p) || p % TWO52 < TWO48 {
      PageStaysIff(s, p, q);
    }
  }

  // ----- whole runs

  /** Every address where a table can ever be is found there. */
  ghost predicate PoolReached(ram: Ram) {
    forall a :: InPool(a) ==> SelfMapped(ram, a)
  }

  /** The regions of the pool. */
  predicate PoolRegion(n: int) { n == ROOT / TWO21 || BUMP / TWO21 <= n <= (POOL_END - 1) / TWO21 }

  /** What a caller can check: no bit in 51:48, or a region no table is ever in. */
  predicate Harmless(p: Word) { p % TWO52 < TWO48 || !PoolRegion(Region(p)) }

  lemma PoolRegionsMeetPool(n: int)
    ensures PoolRegion(n) <==> exists a :: InPool(a) && Region(a) == n
  {
    if PoolRegion(n) {
      var a := if n == ROOT / TWO21 then ROOT else if n == BUMP / TWO21 then BUMP else n * TWO21;
      assert InPool(a) && Region(a) == n;
    }
  }

  /** A call keeps the whole pool at its own addresses exactly when it is harmless. */
  lemma CallKeepsPoolIff(s: Space, p: Word)
    requires Sound(s) && PoolReached(s.ram)
    ensures PoolReached(MapMmio(s, p).ram) <==> Harmless(p)
  {
    hide SelfMapped, Sound, MapMmio, Region, PoolRegion;
    PoolRegionsMeetPool(Region(p));
    forall a | InPool(a)
      ensures SelfMapped(MapMmio(s, p).ram, a) <==> Region(a) != Region(p) || p % TWO52 < TWO48
    {
      PageStaysIff(s, p, a);
    }
  }

  /** With the pool in place a call for any region finds its tables and the pages it takes. */
  lemma PoolIsReached(s: Space, p: Word)
    requires Sound(s) && PoolReached(s.ram)
    ensures Reached(s, I4(p), I3(p))
  {
    hide SelfMapped, MapMmio;
    var owner :| Tree(s.ram, s.next, owner);
    TablesReachedMeans(s.ram, s.next, owner);
    BumpIsBounded(s.ram, s.next, owner);
    forall q | q in owner ensures SelfMapped(s.ram, q) {
      assert InPool(q);
    }
    RoomForTables(s, p);
    assert forall k :: 0 <= k < Missing(s.ram, I4(p), I3(p)) ==> InPool(s.next + k * PAGE);
  }

  /** The pages a call takes are pages of the pool. */
  lemma RoomForTables(s: Space, p: Word)
    requires Sound(s)
    ensures BUMP <= s.next && s.next + PAGE * Missing(s.ram, I4(p), I3(p)) <= POOL_END
  {
    IndicesInTable(p);
    hide Tree, Present, Pml4e, Pdpte, SwBase, MmioEntry, I4, I3;
    var i, j := I4(p), I3(p);
    var owner :| Tree(s.ram, s.next, owner);
    var t := EnsurePdpt(s, i);
    var o1 := PdptIsThere(s, owner, i);
    var o2 := PdIsThere(t, o1, i, j);
    BumpIsBounded(s.ram, s.next, owner);
    BumpIsBounded(t.ram, t.next, o1);
    BumpIsBounded(EnsurePd(t, i, j).ram, EnsurePd(t, i, j).next, o2);
    AddTableIs(s, ROOT, i);
    AddTableIs(t, SwBase(Pml4e(t.ram, i)), j);
    assert HasPd(t.ram, i, j) == HasPd(s.ram, i, j);
  }
}
