/** The page-table tree that os2_entry.s builds and map_mmio_64 extends (pci.cpp).
    `owner` records which node of the tree each allocated page is, so one page never
    plays two parts: that is what keeps a store to one table out of every other walk. */
module PageTree {
  import opened Arith
  import opened Paging

  const ROOT := 0x400_0000          // cr3 after boot: 64 MB
  const BUMP := 0x780_0000          // next_free_page_table at start
  const BOOT_TABLES := 6            // one PML4, one PDPT, four page directories
  const ALL_NODES := 1 + 512 + 512 * 512
  const POOL_END := BUMP + PAGE * (ALL_NODES - BOOT_TABLES)

  datatype Node = Root | Pdpt(i: int) | Pd(i: int, j: int)

  /** Entry x of the table in page p. */
  function Cell(ram: Ram, p: int, x: int): Word { ram[p + 8 * x] }

  function Pml4e(ram: Ram, i: int): Word { Cell(ram, ROOT, i) }

  function Pdpte(ram: Ram, i: int, j: int): Word { Cell(ram, SwBase(Pml4e(ram, i)), j) }

  function Pde(ram: Ram, i: int, j: int, k: int): Word { Cell(ram, SwBase(Pdpte(ram, i, j)), k) }

  predicate InTable(i: int) { 0 <= i < 512 }

  predicate HasPd(ram: Ram, i: int, j: int) { Present(Pml4e(ram, i)) && Present(Pdpte(ram, i, j)) }

  /** The leaf entry a walk by indices (i, j, k) meets, or an absent one. */
  function Leaf(ram: Ram, i: int, j: int, k: int): Word {
    if HasPd(ram, i, j) then Pde(ram, i, j, k) else 0
  }

  /** Entry e is `page | 3` for the page that is node n. */
  ghost predicate Linked(owner: map<int, Node>, e: Word, n: Node) {
    e < TWO52 && e % PAGE == 3 && SwBase(e) in owner && owner[SwBase(e)] == n
  }

  /** Page p is where the tree says its node is: nodes and pages correspond one to one. */
  ghost predicate Placed(ram: Ram, p: int, n: Node) {
    match n
    case Root => p == ROOT
    case Pdpt(i) => InTable(i) && Present(Pml4e(ram, i)) && SwBase(Pml4e(ram, i)) == p
    case Pd(i, j) => InTable(i) && InTable(j) && HasPd(ram, i, j) && SwBase(Pdpte(ram, i, j)) == p
  }

  /** Tables are in the boot loader's six pages or at the bump pointer's first page and beyond. */
  predicate AtHome(p: int) { ROOT <= p < ROOT + BOOT_TABLES * PAGE || BUMP <= p }

  /** The addresses of all pages that can ever be tables. */
  predicate InPool(a: int) { AtHome(a) && a < POOL_END }

  ghost predicate PagesBelow(next: int, owner: map<int, Node>) {
    forall p :: p in owner ==> AtHome(p) && p + PAGE <= next && p % PAGE == 0
  }

  ghost predicate AllPlaced(ram: Ram, owner: map<int, Node>) {
    forall p {:trigger Placed(ram, p, owner[p])} :: p in owner ==> Placed(ram, p, owner[p])
  }

  ghost predicate AllLinked(ram: Ram, owner: map<int, Node>) {
    && (forall i :: InTable(i) && Present(Pml4e(ram, i)) ==> Linked(owner, Pml4e(ram, i), Pdpt(i)))
    && (forall i, j :: InTable(i) && InTable(j) && HasPd(ram, i, j)
                       ==> Linked(owner, Pdpte(ram, i, j), Pd(i, j)))
  }

  ghost predicate LeavesAreLarge(ram: Ram) {
    forall i, j, k :: InTable(i) && InTable(j) && InTable(k) && Present(Leaf(ram, i, j, k))
                      ==> Large(Leaf(ram, i, j, k))
  }

  ghost predicate Tree(ram: Ram, next: int, owner: map<int, Node>) {
    && next % PAGE == 0 && next == BUMP + PAGE * (|owner| - BOOT_TABLES) && |owner| >= BOOT_TABLES
    && ROOT in owner && owner[ROOT] == Root
    && PagesBelow(next, owner)
    && AllPlaced(ram, owner)
    && AllLinked(ram, owner)
    && LeavesAreLarge(ram)
  }

  /** The link to a page. */
  lemma LinkFlags(page: int)
    requires 0 <= page < TWO52 && page % PAGE == 0
    ensures page + 3 < TWO52 && Present(page + 3) && SwBase(page + 3) == page && (page + 3) % PAGE == 3
  {
    DivModIs(page + 3, PAGE, page / PAGE, 3);
    DivModIs(page + 3, 2, page / PAGE * 0x800 + 1, 1);
  }

  // ----- how far the bump pointer can go

  function Code(n: Node): int {
    match n
    case Root => 0
    case Pdpt(i) => 1 + i
    case Pd(i, j) => 513 + 512 * i + j
  }

  lemma {:induction false} InjectionIsSmall(m: map<int, int>, n: int)
    requires n >= 0
    requires forall p :: p in m ==> 0 <= m[p] < n
    requires forall p, q :: p in m && q in m && m[p] == m[q] ==> p == q
    ensures |m| <= n
  {
    if n == 0 {
      assert forall p :: p !in m;
      assert m == map[];
    } else if p :| p in m && m[p] == n - 1 {
      var m' := m - {p};
      assert m.Keys == m'.Keys + {p};
      InjectionIsSmall(m', n - 1);
    } else {
      InjectionIsSmall(m, n - 1);
    }
  }

  /** However many regions are mapped, the tables never pass 0x479F_B000, far below 4 GB. */
  lemma BumpIsBounded(ram: Ram, next: int, owner: map<int, Node>)
    requires Tree(ram, next, owner)
    ensures |owner| <= ALL_NODES
    ensures BUMP <= next <= POOL_END < 0x1_0000_0000
  {
    var m := map p | p in owner :: Code(owner[p]);
    forall p, q | p in m && q in m && m[p] == m[q] ensures p == q {
      assert Placed(ram, p, owner[p]) && Placed(ram, q, owner[q]);
      CodeIsInjective(owner[p], owner[q]);
    }
    forall p | p in m ensures 0 <= m[p] < ALL_NODES {
      assert Placed(ram, p, owner[p]);
    }
    InjectionIsSmall(m, ALL_NODES);
    assert m.Keys == owner.Keys;
    assert |m| == |m.Keys|;
  }

  predicate InRange(n: Node) {
    match n
    case Root => true
    case Pdpt(i) => InTable(i)
    case Pd(i, j) => InTable(i) && InTable(j)
  }

  lemma CodeIsInjective(a: Node, b: Node)
    requires InRange(a) && InRange(b) && Code(a) == Code(b)
    ensures a == b
  {
  }

  // ----- the three stores of map_mmio_64

  ghost function ZeroPage(ram: Ram, p: int): Ram {
    ZeroedTo(ram, p, 512)
  }

  /** Two words of different pages, or different words of one page, are different words. */
  lemma WordsApart(p: int, x: int, q: int, y: int)
    requires p % PAGE == 0 && q % PAGE == 0 && InTable(x) && InTable(y)
    ensures p + 8 * x == q + 8 * y <==> p == q && x == y
  {
    DivModIs(p + 8 * x, PAGE, p / PAGE, 8 * x);
    DivModIs(q + 8 * y, PAGE, q / PAGE, 8 * y);
  }

  /** Every entry of every owned page is the same, but for entry `ex` of page `ep`. */
  ghost predicate CellsKept(ram: Ram, ram': Ram, owner: map<int, Node>, ep: int, ex: int) {
    forall p, x :: p in owner && InTable(x) && !(p == ep && x == ex) ==> Cell(ram', p, x) == Cell(ram, p, x)
  }

  /** A store of `next | 3` into entry ex of page ep after the page at `next` was zeroed. */
  ghost function WithTable(ram: Ram, next: int, ep: int, ex: int): Ram
    requires 0 <= next < TWO52
  {
    ZeroPage(ram, next)[ep + 8 * ex := next + 3]
  }

  lemma FreshPage(ram: Ram, next: int, owner: map<int, Node>, ep: int, ex: int)
    requires Tree(ram, next, owner) && next < TWO52
    requires ep in owner && InTable(ex)
    ensures var ram' := WithTable(ram, next, ep, ex);
            && CellsKept(ram, ram', owner, ep, ex)
            && Cell(ram', ep, ex) == next + 3
            && (forall x :: InTable(x) ==> Cell(ram', next, x) == 0)
            && next !in owner && SwBase(next + 3) == next
  {
    hide AllLinked, AllPlaced, LeavesAreLarge, SwBase;
    LinkFlags(next);
    var ram' := WithTable(ram, next, ep, ex);
    forall p, x | p in owner && InTable(x) && !(p == ep && x == ex)
      ensures Cell(ram', p, x) == Cell(ram, p, x)
    {
      WordsApart(p, x, ep, ex);
    }
    forall x | InTable(x) ensures Cell(ram', next, x) == 0 {
      WordsApart(next, x, ep, ex);
      DivModIs(next + 8 * x, 8, next / PAGE * 512 + x, 0);
    }
  }

  /** What hooking the empty table n into the tree does to the entries under (a, b):
      its own link appears, and every walk still meets the same leaf. */
  ghost predicate EntriesAfter(ram: Ram, ram': Ram, n: Node, page: int, a: int, b: int) {
    && (n != Pdpt(a) ==> Pml4e(ram', a) == Pml4e(ram, a))
    && (n == Pdpt(a) ==> !Present(Pml4e(ram, a)) && Pml4e(ram', a) == page + 3)
    && (Present(Pml4e(ram, a)) && n != Pd(a, b) ==> Pdpte(ram', a, b) == Pdpte(ram, a, b))
    && (n == Pd(a, b) ==> Present(Pml4e(ram, a)) && !Present(Pdpte(ram, a, b)) && Pdpte(ram', a, b) == page + 3)
    && (n != Pd(a, b) ==> HasPd(ram', a, b) == HasPd(ram, a, b))
    && (forall c :: InTable(c) ==> Leaf(ram', a, b, c) == Leaf(ram, a, b, c))
  }

  ghost predicate TableAdded(ram: Ram, ram': Ram, n: Node, page: int) {
    forall a, b :: InTable(a) && InTable(b) ==> EntriesAfter(ram, ram', n, page, a, b)
  }

  /** The present links of (a, b) lead to owned pages that play exactly those parts. */
  lemma LinksOf(ram: Ram, next: int, owner: map<int, Node>, a: int, b: int)
    requires Tree(ram, next, owner) && InTable(a) && InTable(b)
    ensures Present(Pml4e(ram, a)) ==> Linked(owner, Pml4e(ram, a), Pdpt(a))
    ensures HasPd(ram, a, b) ==> Linked(owner, Pdpte(ram, a, b), Pd(a, b))
  {
  }

  lemma AbsentZero()
    ensures !Present(0)
  {
  }

  lemma PdptIsAdded(ram: Ram, next: int, owner: map<int, Node>, i: int)
    requires Tree(ram, next, owner) && next < TWO52 && InTable(i) && !Present(Pml4e(ram, i))
    ensures TableAdded(ram, WithTable(ram, next, ROOT, i), Pdpt(i), next)
  {
    hide WithTable, SwBase, Present, Large, LeavesAreLarge;
    var ram' := WithTable(ram, next, ROOT, i);
    FreshPage(ram, next, owner, ROOT, i);
    LinkFlags(next);
    AbsentZero();
    forall a, b | InTable(a) && InTable(b) ensures EntriesAfter(ram, ram', Pdpt(i), next, a, b) {
      LinksOf(ram, next, owner, a, b);
    }
  }

  lemma PdIsAdded(ram: Ram, next: int, owner: map<int, Node>, i: int, j: int)
    requires Tree(ram, next, owner) && next < TWO52 && InTable(i) && InTable(j)
    requires Present(Pml4e(ram, i)) && !Present(Pdpte(ram, i, j))
    ensures TableAdded(ram, WithTable(ram, next, SwBase(Pml4e(ram, i)), j), Pd(i, j), next)
  {
    hide WithTable, SwBase, Present, Large, LeavesAreLarge;
    var pdpt := SwBase(Pml4e(ram, i));
    var ram' := WithTable(ram, next, pdpt, j);
    LinkFlags(next);
    AbsentZero();
    LinksOf(ram, next, owner, i, j);
    FreshPage(ram, next, owner, pdpt, j);
    forall a, b | InTable(a) && InTable(b) ensures EntriesAfter(ram, ram', Pd(i, j), next, a, b) {
      LinksOf(ram, next, owner, a, b);
    }
  }

  lemma AddedTableKeepsLinks(ram: Ram, ram': Ram, next: int, owner: map<int, Node>, n: Node)
    requires Tree(ram, next, owner) && 0 <= next < TWO52 && n != Root && InRange(n)
    requires TableAdded(ram, ram', n, next)
    ensures AllLinked(ram', owner[next := n]) && LeavesAreLarge(ram')
  {
    hide SwBase, Present, Large, AllPlaced;
    LinkFlags(next);
    var owner' := owner[next := n];
    forall a, b | InTable(a) && InTable(b)
      ensures Present(Pml4e(ram', a)) ==> Linked(owner', Pml4e(ram', a), Pdpt(a))
      ensures HasPd(ram', a, b) ==> Linked(owner', Pdpte(ram', a, b), Pd(a, b))
    {
      LinksOf(ram, next, owner, a, b);
      assert EntriesAfter(ram, ram', n, next, a, b);
    }
    forall a, b, c | InTable(a) && InTable(b) && InTable(c) && Present(Leaf(ram', a, b, c))
      ensures Large(Leaf(ram', a, b, c))
    {
      assert EntriesAfter(ram, ram', n, next, a, b);
    }
    assert InTable(0);
  }

  /** Every node stays where it was, and the new one is at its page. */
  lemma AddedTableKeepsPlace(ram: Ram, ram': Ram, page: int, n: Node, p: int, m: Node)
    requires 0 <= page < TWO52 && page % PAGE == 0 && n != Root && InRange(n)
    requires TableAdded(ram, ram', n, page)
    requires Placed(ram, p, m) || (p == page && m == n)
    ensures Placed(ram', p, m)
  {
    LinkFlags(page);
    hide SwBase, Present, Leaf, Pml4e, Pdpte;
    match m
    case Root =>
    case Pdpt(a) =>
      assert InTable(0) && EntriesAfter(ram, ram', n, page, a, 0);
    case Pd(a, b) =>
      assert EntriesAfter(ram, ram', n, page, a, b);
  }

  lemma AddedTableKeepsTree(ram: Ram, ram': Ram, next: int, owner: map<int, Node>, n: Node)
    requires Tree(ram, next, owner) && 0 <= next < TWO52 && n != Root && InRange(n)
    requires TableAdded(ram, ram', n, next)
    ensures Tree(ram', next + PAGE, owner[next := n])
  {
    hide AllLinked, LeavesAreLarge, SwBase, Placed, TableAdded, Present;
    AddedTableKeepsLinks(ram, ram', next, owner, n);
    DivModIs(next + PAGE, PAGE, next / PAGE + 1, 0);
    assert next !in owner;
    var owner' := owner[next := n];
    assert |owner'| == |owner| + 1;
    forall p | p in owner'
      ensures Placed(ram', p, owner'[p])
    {
      assert p != next ==> Placed(ram, p, owner[p]);
      AddedTableKeepsPlace(ram, ram', next, n, p, owner'[p]);
    }
  }
}
