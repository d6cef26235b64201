/** Physical memory, the hardware's four-level page walk (Intel SDM, Volume 3A,
    section 4.5) and the two routines of memory.cpp that walk the same tables in
    software.  An entry is a 64-bit word; single bits are read with / and %, which
    on natural numbers with constant powers of two are the source's shifts and masks. */
module Paging {
  import opened Arith

  const PAGE := 0x1000
  const TWO21 := 0x20_0000
  const TWO30 := 0x4000_0000
  const TWO39 := 0x80_0000_0000
  const TWO48 := 0x1_0000_0000_0000
  const TWO52 := 0x10_0000_0000_0000
  const TWO63 := 0x8000_0000_0000_0000
  const TWO64 := 0x1_0000_0000_0000_0000

  type Word = w: int | 0 <= w < 0x1_0000_0000_0000_0000

  ghost predicate EveryAddress(m: imap<int, Word>) {
    forall a: int :: a in m
  }

  /** Physical memory by the address of each 64-bit word; what it holds at the start is arbitrary. */
  type Ram = m: imap<int, Word> | EveryAddress(m) ghost witness (imap a: int :: 0)

  /** The first n words of the memory at p cleared. */
  ghost function ZeroedTo(ram: Ram, p: int, n: int): Ram {
    imap a: int :: if p <= a < p + 8 * n && a % 8 == 0 then 0 else ram[a]
  }

  /** There is one aligned address in every eight. */
  lemma AlignedAlone(a: int, b: int)
    requires a % 8 == 0 && b % 8 == 0 && b <= a < b + 8
    ensures a == b
  {
    assert a == 8 * (a / 8) && b == 8 * (b / 8);
  }

  lemma ZeroedStep(ram: Ram, p: int, n: int)
    requires p % 8 == 0 && n >= 0
    ensures ZeroedTo(ram, p, 0) == ram
    ensures ZeroedTo(ram, p, n + 1) == ZeroedTo(ram, p, n)[p + 8 * n := 0]
  {
    assert forall a: int :: ZeroedTo(ram, p, 0)[a] == ram[a];
    var next := ZeroedTo(ram, p, n)[p + 8 * n := 0];
    DivModIs(p + 8 * n, 8, p / 8 + n, 0);
    forall a: int ensures ZeroedTo(ram, p, n + 1)[a] == next[a] {
      if p + 8 * n <= a < p + 8 * n + 8 && a % 8 == 0 {
        AlignedAlone(a, p + 8 * n);
      }
    }
  }

  // ----- entry fields

  predicate Present(e: Word) { e % 2 == 1 }

  predicate Large(e: Word) { e / 0x80 % 2 == 1 }

  predicate NoExecute(e: Word) { e >= TWO63 }

  function ClearNx(e: Word): Word { e % TWO63 }

  function AlignDown(x: int, size: int): int
    requires size > 0
  {
    x - x % size
  }

  /** The physical address in bits 51:12 (or 51:21, 51:30), as the hardware reads it. */
  function HwBase(e: Word, size: int): int
    requires size > 0
  {
    AlignDown(e % TWO52, size)
  }

  /** The address the software takes: only the low 12 bits are masked away. */
  function SwBase(e: Word): int { AlignDown(e, PAGE) }

  // ----- the hardware walk

  /** A walk stops at an absent entry of some level (4 = PML4E .. 1 = PTE), or at a leaf:
      the entry's own address, the page it maps, and whether any entry used had XD set. */
  datatype Walk = Fault(level: int) | Page(slot: int, size: int, base: int, nx: bool)

  function HwWalk(ram: Ram, root: int, va: int): Walk {
    var e4 := ram[root + 8 * (va / TWO39 % 512)];
    if !Present(e4) then Fault(4) else
    var s3 := HwBase(e4, PAGE) + 8 * (va / TWO30 % 512);
    var e3 := ram[s3];
    if !Present(e3) then Fault(3) else
    if Large(e3) then Page(s3, TWO30, HwBase(e3, TWO30), NoExecute(e4) || NoExecute(e3)) else
    var s2 := HwBase(e3, PAGE) + 8 * (va / TWO21 % 512);
    var e2 := ram[s2];
    if !Present(e2) then Fault(2) else
    if Large(e2) then
      Page(s2, TWO21, HwBase(e2, TWO21), NoExecute(e4) || NoExecute(e3) || NoExecute(e2)) else
    var s1 := HwBase(e2, PAGE) + 8 * (va / PAGE % 512);
    var e1 := ram[s1];
    if !Present(e1) then Fault(1) else
    Page(s1, PAGE, HwBase(e1, PAGE), NoExecute(e4) || NoExecute(e3) || NoExecute(e2) || NoExecute(e1))
  }

  /** Where a virtual address lands, or nothing when the walk faults. */
  datatype Target = Unmapped | Mapped(pa: int)

  function Translate(ram: Ram, root: int, va: int): Target {
    match HwWalk(ram, root, va)
    case Fault(_) => Unmapped
    case Page(_, size, base, _) => if size > 0 then Mapped(base + va % size) else Unmapped
  }

  // ----- find_pte_for_address

  /** The software walk; 0 is the null pointer. */
  function FindPte(ram: Ram, pml4Phys: Word, va: int): int {
    var pml4 := SwBase(pml4Phys);
    var e4 := ram[pml4 + 8 * (va / TWO39 % 512)];
    if !Present(e4) then 0 else
    var pdpt := SwBase(e4);
    var e3 := ram[pdpt + 8 * (va / TWO30 % 512)];
    if !Present(e3) then 0 else
    if Large(e3) then pdpt + 8 * (va / TWO30 % 512) else
    var pd := SwBase(e3);
    var e2 := ram[pd + 8 * (va / TWO21 % 512)];
    if !Present(e2) then 0 else
    if Large(e2) then pd + 8 * (va / TWO21 % 512) else
    SwBase(e2) + 8 * (va / PAGE % 512)
  }

  /** The software and the hardware find the next table at the same place exactly when
      the entry's bits 63:52 are clear. */
  lemma TableAddressAgreesIff(e: Word)
    ensures SwBase(e) == HwBase(e, PAGE) <==> e < TWO52
  {
    DivTwice(e, PAGE, TWO52 / PAGE, TWO52);
    DivModIs(e % TWO52, PAGE, e / PAGE % (TWO52 / PAGE), e % PAGE);
  }

  /** An entry that points at a table: no bit above 51 (so no XD), and not the page at address 0. */
  predicate CleanLink(e: Word) { PAGE <= e < TWO52 }

  /** Every non-leaf entry that the walk of va uses is a clean link. */
  predicate CleanWalk(ram: Ram, root: int, va: int) {
    && root >= PAGE
    && var e4 := ram[root + 8 * (va / TWO39 % 512)];
    Present(e4) ==>
      && CleanLink(e4)
      && var e3 := ram[SwBase(e4) + 8 * (va / TWO30 % 512)];
      (Present(e3) && !Large(e3) ==>
        && CleanLink(e3)
        && var e2 := ram[SwBase(e3) + 8 * (va / TWO21 % 512)];
        (Present(e2) && !Large(e2) ==> CleanLink(e2)))
  }

  /** The pointer returned is the address of the very entry the hardware uses as its leaf;
      it is null exactly when the hardware faults on an entry above the last level, and
      when the hardware faults on the last level it is that absent entry's address. */
  lemma FindPteIsTheHardwareLeaf(ram: Ram, pml4Phys: Word, va: int)
    requires CleanWalk(ram, SwBase(pml4Phys), va)
    ensures var w := HwWalk(ram, SwBase(pml4Phys), va);
            var p := FindPte(ram, pml4Phys, va);
            && (w.Page? ==> p == w.slot && Present(ram[p]))
            && (p == 0 <==> w.Fault? && w.level >= 2)
            && (w == Fault(1) ==> !Present(ram[p]))
  {
    var e4 := ram[SwBase(pml4Phys) + 8 * (va / TWO39 % 512)];
    if Present(e4) {
      TableAddressAgreesIff(e4);
      var e3 := ram[SwBase(e4) + 8 * (va / TWO30 % 512)];
      if Present(e3) && !Large(e3) {
        TableAddressAgreesIff(e3);
        var e2 := ram[SwBase(e3) + 8 * (va / TWO21 % 512)];
        if Present(e2) && !Large(e2) {
          TableAddressAgreesIff(e2);
        }
      }
    }
  }

  /** A paging-structure entry as its fields, from bit 0 up: present, six flags, page size, four more flags,
      the page frame, eleven ignored bits and execute-disable. */
  datatype Fields = Fields(present: bool, flags: int, large: bool, more: int, frame: int, ignored: int, xd: bool)

  predicate AreFields(f: Fields) {
    0 <= f.flags < 0x40 && 0 <= f.more < 0x10 && 0 <= f.frame < 0x100_0000_0000 && 0 <= f.ignored < 0x800
  }

  function Bit(b: bool): int { if b then 1 else 0 }

  function FromFields(f: Fields): Word
    requires AreFields(f)
  {
    Bit(f.present) + 2 * f.flags + 0x80 * Bit(f.large) + 0x100 * f.more + 0x1000 * f.frame
    + 0x10_0000_0000_0000 * f.ignored + 0x8000_0000_0000_0000 * Bit(f.xd)
  }

  /** What software and hardware read in an entry, and what clearing execute-disable leaves. */
  lemma EntryReads(f: Fields)
    requires AreFields(f)
    ensures var e := FromFields(f);
            && Present(e) == f.present && Large(e) == f.large && NoExecute(e) == f.xd
            && HwBase(e, PAGE) == 0x1000 * f.frame && HwBase(e, TWO21) == 0x20_0000 * (f.frame / 512)
            && SwBase(e) == 0x1000 * (f.frame + 0x100_0000_0000 * (f.ignored + 0x800 * Bit(f.xd)))
            && ClearNx(e) == FromFields(f.(xd := false))
  {
    hide FromFields;
    FieldsAdd(f);
    var e := FromFields(f);
    var low := Bit(f.present) + 2 * f.flags + 0x80 * Bit(f.large) + 0x100 * f.more;
    var high := f.ignored + 0x800 * Bit(f.xd);
    var up := f.frame + 0x100_0000_0000 * high;
    DivModIs(e, 2, f.flags + 0x40 * Bit(f.large) + 0x80 * f.more + 0x800 * up, Bit(f.present));
    DivModIs(e, 0x80, Bit(f.large) + 2 * f.more + 0x20 * up, Bit(f.present) + 2 * f.flags);
    DivModIs(e / 0x80, 2, f.more + 0x10 * up, Bit(f.large));
    DivModIs(e, PAGE, up, low);
    DivModIs(e, TWO52, high, low + 0x1000 * f.frame);
    DivModIs(e % TWO52, PAGE, f.frame, low);
    DivModIs(e % TWO52, TWO21, f.frame / 512, f.frame % 512 * 0x1000 + low);
    DivModIs(e, TWO63, Bit(f.xd), low + 0x1000 * f.frame + TWO52 * f.ignored);
    FieldsAdd(f.(xd := false));
  }

  lemma FieldsAdd(f: Fields)
    requires AreFields(f)
    ensures FromFields(f) == Bit(f.present) + 2 * f.flags + 0x80 * Bit(f.large) + 0x100 * f.more + 0x1000 * f.frame
                             + TWO52 * f.ignored + TWO63 * Bit(f.xd)
  {
  }

  // ----- disable_nx_for_app

  /** Two memories that differ at most in bit 63 of some words. */
  ghost predicate SameButNx(ram: Ram, ram': Ram) {
    forall a: int :: ram'[a] == ram[a] || ram'[a] == ClearNx(ram[a])
  }

  lemma ClearNxKeepsTheRest(e: Word)
    ensures Present(ClearNx(e)) == Present(e) && Large(ClearNx(e)) == Large(e)
    ensures ClearNx(e) % TWO52 == e % TWO52
    ensures !NoExecute(ClearNx(e)) && (e < TWO63 ==> ClearNx(e) == e)
  {
    var q := if e < TWO63 then 0 else 1;
    var r := e - q * TWO63;
    DivModIs(e, TWO63, q, r);
    DivModIs(e, 2, r / 2 + q * 0x4000_0000_0000_0000, r % 2);
    DivModIs(e, 0x80, r / 0x80 + q * 0x100_0000_0000_0000, r % 0x80);
    DivModIs(e / 0x80, 2, r / 0x80 / 2 + q * 0x80_0000_0000_0000, r / 0x80 % 2);
    DivModIs(e, TWO52, r / TWO52 + q * 0x800, r % TWO52);
  }

  lemma ClearNxKeepsBase(e: Word, size: int)
    requires size > 0
    ensures HwBase(ClearNx(e), size) == HwBase(e, size)
  {
    ClearNxKeepsTheRest(e);
  }

  /** Bit 63 takes no part in an address: whatever the tables look like, clearing it
      anywhere changes no translation, and a walk only ever loses its XD. */
  lemma NxDoesNotTranslate(ram: Ram, ram': Ram, root: int, va: int)
    requires SameButNx(ram, ram')
    ensures Translate(ram', root, va) == Translate(ram, root, va)
    ensures var w, w' := HwWalk(ram, root, va), HwWalk(ram', root, va);
            w'.Fault? == w.Fault? &&
            (w.Page? ==> w' == w.(nx := w'.nx) && (w'.nx ==> w.nx))
  {
    hide Present, Large, NoExecute, HwBase, ClearNx;
    var s4 := root + 8 * (va / TWO39 % 512);
    ClearedEntry(ram[s4]);
    var s3 := HwBase(ram[s4], PAGE) + 8 * (va / TWO30 % 512);
    ClearedEntry(ram[s3]);
    var s2 := HwBase(ram[s3], PAGE) + 8 * (va / TWO21 % 512);
    ClearedEntry(ram[s2]);
    ClearedEntry(ram[HwBase(ram[s2], PAGE) + 8 * (va / PAGE % 512)]);
  }

  /** All a walk reads of an entry but XD. */
  lemma ClearedEntry(e: Word)
    ensures Present(ClearNx(e)) == Present(e) && Large(ClearNx(e)) == Large(e) && !NoExecute(ClearNx(e))
    ensures HwBase(ClearNx(e), PAGE) == HwBase(e, PAGE)
    ensures HwBase(ClearNx(e), TWO21) == HwBase(e, TWO21) && HwBase(ClearNx(e), TWO30) == HwBase(e, TWO30)
  {
    hide Present, Large, NoExecute, HwBase, ClearNx;
    ClearNxKeepsTheRest(e);
    ClearNxKeepsBase(e, PAGE);
    ClearNxKeepsBase(e, TWO21);
    ClearNxKeepsBase(e, TWO30);
  }

  /** Where the walk is clean the software walk is blind to bit 63 too. */
  lemma NxDoesNotMoveFindPte(ram: Ram, ram': Ram, pml4Phys: Word, va: int)
    requires SameButNx(ram, ram') && CleanWalk(ram, SwBase(pml4Phys), va)
    ensures FindPte(ram', pml4Phys, va) == FindPte(ram, pml4Phys, va)
    ensures CleanWalk(ram', SwBase(pml4Phys), va)
  {
    var s4 := SwBase(pml4Phys) + 8 * (va / TWO39 % 512);
    ClearNxKeepsTheRest(ram[s4]);
    var s3 := SwBase(ram[s4]) + 8 * (va / TWO30 % 512);
    ClearNxKeepsTheRest(ram[s3]);
    var s2 := SwBase(ram[s3]) + 8 * (va / TWO21 % 512);
    ClearNxKeepsTheRest(ram[s2]);
  }

  function StartPage(v: Word): int { AlignDown(v, PAGE) }

  /** The sum is a 64-bit one: it wraps. */
  function EndPage(v: Word, n: Word): int { AlignDown((v + n + 0xFFF) % TWO64, PAGE) }

  /** Page `page` holds a byte of [v, v+n). */
  predicate Meets(page: int, v: Word, n: Word) {
    n > 0 && page < v + n && v < page + PAGE
  }

  /** The loop comes to page `page`. */
  predicate Visits(page: int, v: Word, n: Word) { StartPage(v) <= page < EndPage(v, n) }

  /** The loop visits every page that the range meets exactly when the range is empty or its
      rounded-up end stays below 2^64; otherwise the sum wraps and the last page of the address
      space, which the range then meets, is never visited. */
  lemma RangeIsCoveredIff(v: Word, n: Word)
    ensures (forall page: int :: 0 <= page < TWO64 && page % PAGE == 0 && Meets(page, v, n) ==> Visits(page, v, n))
            <==> n == 0 || v + n + 0xFFF < TWO64
  {
    if v + n + 0xFFF < TWO64 {
      forall page: int | page % PAGE == 0 && Meets(page, v, n) ensures Visits(page, v, n) {
        VisitsMeans(page, v, n);
      }
    } else if n > 0 {
      LastPageIsMissed(v, n);
    }
  }

  /** What a caller can check: an empty range starts at a page or in the last one, any other ends
      below the last page's end. */
  predicate RoundsExactly(v: Word, n: Word) {
    if n == 0 then v % PAGE == 0 || v + 0xFFF >= TWO64 else v + n + 0xFFF < TWO64
  }

  /** The loop visits the pages that the range meets and no other exactly then. */
  lemma RangeIsExactIff(v: Word, n: Word)
    ensures (forall page: int :: 0 <= page < TWO64 && page % PAGE == 0 ==> (Visits(page, v, n) <==> Meets(page, v, n)))
            <==> RoundsExactly(v, n)
  {
    hide Visits;
    if v + n + 0xFFF < TWO64 {
      forall page: int | page % PAGE == 0
        ensures Visits(page, v, n) <==> v < page + PAGE && page < v + n
      {
        VisitsMeans(page, v, n);
      }
      if n == 0 {
        AlignDownIs(v);
        assert v % PAGE != 0 ==> Visits(StartPage(v), v, n) && !Meets(StartPage(v), v, n);
      }
    } else if n > 0 {
      LastPageIsMissed(v, n);
    } else {
      forall page: int ensures !Visits(page, v, n) {
        WrappedIsEmpty(page, v);
      }
    }
  }

  /** The empty range at address 1 meets no page, and page 0 is visited. */
  lemma EmptyRangeVisitsPage()
    ensures Visits(0, 1, 0) && forall page: int :: !Meets(page, 1, 0)
  {
    VisitsMeans(0, 1, 0);
  }

  lemma VisitsMeans(page: int, v: Word, n: Word)
    requires page % PAGE == 0 && v + n + 0xFFF < TWO64
    ensures Visits(page, v, n) <==> v < page + PAGE && page < v + n
  {
    DivModIs(v + n + 0xFFF, TWO64, 0, v + n + 0xFFF);
    PageInRange(page, v, n);
  }

  lemma WrappedIsEmpty(page: int, v: Word)
    requires v + 0xFFF >= TWO64
    ensures !Visits(page, v, 0)
  {
    AlignDownIs(v);
    DivModIs(v + 0xFFF, TWO64, 1, v + 0xFFF - TWO64);
    AlignDownIs(v + 0xFFF - TWO64);
  }

  lemma LastPageIsMissed(v: Word, n: Word)
    requires n > 0 && v + n + 0xFFF >= TWO64
    ensures var last := TWO64 - PAGE; last % PAGE == 0 && Meets(last, v, n) && !Visits(last, v, n)
  {
    var last := TWO64 - PAGE;
    DivModIs(last, PAGE, TWO64 / PAGE - 1, 0);
    AlignDownIs((v + n + 0xFFF) % TWO64);
    assert EndPage(v, n) <= last;
  }

  lemma AlignDownIs(x: int)
    ensures AlignDown(x, PAGE) == x / PAGE * PAGE && AlignDown(x, PAGE) % PAGE == 0
    ensures AlignDown(x, PAGE) <= x < AlignDown(x, PAGE) + PAGE
  {
    DivModIs(AlignDown(x, PAGE), PAGE, x / PAGE, 0);
  }

  /** Rounding an end up and a start down meets exactly the pages in between. */
  lemma PageInRange(page: int, v: int, n: int)
    requires page % PAGE == 0
    ensures AlignDown(v, PAGE) <= page <==> v < page + PAGE
    ensures page < AlignDown(v + n + 0xFFF, PAGE) <==> page < v + n
  {
    AlignDownIs(v);
    AlignDownIs(v + n + 0xFFF);
    var p, a, b := page / PAGE, v / PAGE, (v + n + 0xFFF) / PAGE;
    assert page == p * PAGE;
  }

  /** Address a is the pointer found for some page of [lo, hi). */
  ghost predicate Visited(ram: Ram, pml4Phys: Word, lo: int, hi: int, a: int) {
    a != 0 && exists page: int ::
                lo <= page < hi && page % PAGE == 0 && FindPte(ram, pml4Phys, page) == a
  }

  ghost function Unlocked(ram: Ram, pml4Phys: Word, lo: int, hi: int): (r: Ram) {
    imap a: int :: if Visited(ram, pml4Phys, lo, hi, a) then ClearNx(ram[a]) else ram[a]
  }

  ghost predicate CleanRange(ram: Ram, pml4Phys: Word, lo: int, hi: int) {
    forall page: int :: lo <= page < hi && page % PAGE == 0 ==> CleanWalk(ram, SwBase(pml4Phys), page)
  }

  /** What unlocking [lo, hi) does: no translation of any address changes, every mapped page
      of the range becomes executable, and the only words touched are the leaf entries of
      pages of the range (present ones, or the absent last-level entry the walk ends in). */
  lemma UnlockedMeans(ram: Ram, pml4Phys: Word, lo: int, hi: int)
    requires CleanRange(ram, pml4Phys, lo, hi)
    ensures var ram' := Unlocked(ram, pml4Phys, lo, hi);
            var root := SwBase(pml4Phys);
            && SameButNx(ram, ram')
            && (forall va: int :: Translate(ram', root, va) == Translate(ram, root, va))
            && (forall page: int :: lo <= page < hi && page % PAGE == 0 && HwWalk(ram, root, page).Page?
                                    ==> HwWalk(ram', root, page) == HwWalk(ram, root, page).(nx := false))
            && (forall a: int :: ram'[a] != ram[a] ==>
                  exists page: int :: lo <= page < hi && page % PAGE == 0 &&
                    (HwWalk(ram, root, page) == Fault(1) || HwWalk(ram, root, page).Page?) &&
                    FindPte(ram, pml4Phys, page) == a)
  {
    var ram' := Unlocked(ram, pml4Phys, lo, hi);
    var root := SwBase(pml4Phys);
    forall va: int ensures Translate(ram', root, va) == Translate(ram, root, va) {
      NxDoesNotTranslate(ram, ram', root, va);
    }
    forall page: int | lo <= page < hi && page % PAGE == 0 && HwWalk(ram, root, page).Page?
      ensures HwWalk(ram', root, page) == HwWalk(ram, root, page).(nx := false)
    {
      UnlockedPage(ram, pml4Phys, lo, hi, page);
    }
    forall a: int | ram'[a] != ram[a]
      ensures exists page: int :: lo <= page < hi && page % PAGE == 0 &&
                (HwWalk(ram, root, page) == Fault(1) || HwWalk(ram, root, page).Page?) &&
                FindPte(ram, pml4Phys, page) == a
    {
      var page: int :| lo <= page < hi && page % PAGE == 0 && FindPte(ram, pml4Phys, page) == a;
      FindPteIsTheHardwareLeaf(ram, pml4Phys, page);
    }
  }

  lemma UnlockedPage(ram: Ram, pml4Phys: Word, lo: int, hi: int, page: int)
    requires lo <= page < hi && page % PAGE == 0
    requires CleanWalk(ram, SwBase(pml4Phys), page) && HwWalk(ram, SwBase(pml4Phys), page).Page?
    ensures HwWalk(Unlocked(ram, pml4Phys, lo, hi), SwBase(pml4Phys), page)
            == HwWalk(ram, SwBase(pml4Phys), page).(nx := false)
  {
    var root := SwBase(pml4Phys);
    var ram' := Unlocked(ram, pml4Phys, lo, hi);
    FindPteIsTheHardwareLeaf(ram, pml4Phys, page);
    NxDoesNotTranslate(ram, ram', root, page);
    NxDoesNotMoveFindPte(ram, ram', pml4Phys, page);
    var leaf := FindPte(ram, pml4Phys, page);
    assert Visited(ram, pml4Phys, lo, hi, leaf);
    ClearNxKeepsTheRest(ram[leaf]);
    FindPteIsTheHardwareLeaf(ram', pml4Phys, page);
    CleanWalkNx(ram', root, page);
  }

  /** On a clean walk only the leaf can forbid execution. */
  lemma CleanWalkNx(ram: Ram, root: int, va: int)
    requires CleanWalk(ram, root, va) && HwWalk(ram, root, va).Page?
    ensures HwWalk(ram, root, va).nx <==> NoExecute(ram[HwWalk(ram, root, va).slot])
  {
    var e4 := ram[root + 8 * (va / TWO39 % 512)];
    TableAddressAgreesIff(e4);
    var e3 := ram[SwBase(e4) + 8 * (va / TWO30 % 512)];
    if !Large(e3) {
      TableAddressAgreesIff(e3);
      var e2 := ram[SwBase(e3) + 8 * (va / TWO21 % 512)];
      if !Large(e2) {
        TableAddressAgreesIff(e2);
      }
    }
  }
}
