/** The paging code as it runs: cr3, physical memory and the bump pointer, updated in place
    by the boot loop, map_mmio_64 and disable_nx_for_app; and what any run of calls means. */
module AddressSpaces {
  import opened Arith
  import opened MmioMap
  import opened PageTree
  import opened Paging
  import opened TableAccess

  // ----- runs

  datatype Call = Map(p: Word) | Enable(v: Word, n: Word)

  ghost function Apply(s: Space, c: Call): Space {
    match c
    case Map(p) => MapMmio(s, p)
    case Enable(v, n) => Unlock(s, v, n)
  }

  ghost function Run(s: Space, calls: seq<Call>): Space {
    if calls == [] then s else Apply(Run(s, calls[..|calls| - 1]), calls[|calls| - 1])
  }

  /** Where an address must land after the calls: the last mapping of its region decides,
      and where there is none the boot map does. */
  function Expected(calls: seq<Call>, va: int): Target {
    if calls == [] then if va < LOW_4GB then Mapped(va) else Unmapped
    else match calls[|calls| - 1]
      case Map(p) =>
        if Region(va) == Region(p) then Mapped(AlignDown(p % TWO52, TWO21) + va % TWO21)
        else Expected(calls[..|calls| - 1], va)
      case Enable(_, _) => Expected(calls[..|calls| - 1], va)
  }

  /** Every mapping is for an address without bits 51:48, or for a region no table is ever in. */
  predicate HarmlessCalls(calls: seq<Call>) {
    forall c :: c in calls && c.Map? ==> Harmless(c.p)
  }

  /** The condition under which the code of a call finds its tables. */
  ghost predicate Runs(s: Space, c: Call) {
    && Sound(s) && TablesReached(s.ram)
    && (c.Map? ==> Reached(s, I4(c.p), I3(c.p)))
  }

  lemma {:induction false} RunIsSound(initial: Ram, calls: seq<Call>)
    ensures Sound(Run(Boot(initial), calls))
  {
    hide Sound, Boot, MapMmio, Unlock;
    if calls == [] {
      BootIsSound(initial);
    } else {
      var s := Run(Boot(initial), calls[..|calls| - 1]);
      RunIsSound(initial, calls[..|calls| - 1]);
      match calls[|calls| - 1]
      case Map(p) => MapMmioStoresOneLeaf(s, p);
      case Enable(v, n) => UnlockEffect(s, v, n);
    }
  }

  /** One call keeps the pool in place exactly when it is an unlocking or a harmless mapping. */
  lemma ApplyKeepsPoolIff(s: Space, c: Call)
    requires Sound(s) && PoolReached(s.ram)
    ensures PoolReached(Apply(s, c).ram) <==> (c.Map? ==> Harmless(c.p))
  {
    hide Sound, Translate, MapMmio, Unlock, InPool, Harmless;
    match c
    case Map(p) => CallKeepsPoolIff(s, p);
    case Enable(v, n) => UnlockEffect(s, v, n);
  }

  lemma BootReachesPool(initial: Ram)
    ensures PoolReached(Boot(initial).ram)
  {
    hide Translate, BootRam;
    forall a | InPool(a) ensures SelfMapped(BootRam(initial), a) {
      BootTranslates(initial, a);
    }
  }

  /** The tables stay where the code looks for them through a whole run exactly when all its mappings
      are harmless. */
  lemma {:induction false} PoolStaysIff(initial: Ram, calls: seq<Call>)
    ensures (forall k :: 0 <= k <= |calls| ==> PoolReached(Run(Boot(initial), calls[..k]).ram))
            <==> HarmlessCalls(calls)
  {
    hide PoolReached, Harmless, Boot, Apply;
    if calls == [] {
      BootReachesPool(initial);
      assert calls[..0] == [];
    } else {
      var n := |calls| - 1;
      var front := calls[..n];
      assert calls == front + [calls[n]];
      assert calls[..|calls|] == calls;
      assert forall k :: 0 <= k <= n ==> front[..k] == calls[..k];
      PoolStaysIff(initial, front);
      if HarmlessCalls(front) {
        assert front[..n] == front && PoolReached(Run(Boot(initial), front[..n]).ram);
        RunIsSound(initial, front);
        ApplyKeepsPoolIff(Run(Boot(initial), front), calls[n]);
      }
    }
  }

  /** So in a run of harmless calls every call of the code reads and writes the words of the model. */
  lemma EveryCallRuns(initial: Ram, calls: seq<Call>, k: int)
    requires HarmlessCalls(calls) && 0 <= k < |calls|
    ensures Runs(Run(Boot(initial), calls[..k]), calls[k])
  {
    hide PoolReached, Boot, Sound, TablesReached, Reached, Harmless;
    var s := Run(Boot(initial), calls[..k]);
    PoolStaysIff(initial, calls);
    RunIsSound(initial, calls[..k]);
    PoolIsReached(s, 0);
    ReachedMeans(s, 0);
    if calls[k].Map? {
      PoolIsReached(s, calls[k].p);
    }
  }

  lemma ReachedMeans(s: Space, p: Word)
    requires Reached(s, I4(p), I3(p))
    ensures Sound(s) && TablesReached(s.ram)
  {
  }

  /** After any harmless calls, in any order and from any initial memory, the code has found its tables
      at every call, and every 48-bit address translates exactly as the history of calls says. */
  lemma RunTranslates(initial: Ram, calls: seq<Call>, va: int)
    requires 0 <= va < TWO48 && HarmlessCalls(calls)
    ensures forall k :: 0 <= k < |calls| ==> Runs(Run(Boot(initial), calls[..k]), calls[k])
    ensures Translate(Run(Boot(initial), calls).ram, ROOT, va) == Expected(calls, va)
  {
    forall k | 0 <= k < |calls| ensures Runs(Run(Boot(initial), calls[..k]), calls[k]) {
      EveryCallRuns(initial, calls, k);
    }
    StoresTranslate(initial, calls, va);
  }

  /** What the words the calls store mean to the hardware, whoever stores them. */
  lemma {:induction false} StoresTranslate(initial: Ram, calls: seq<Call>, va: int)
    requires 0 <= va < TWO48
    ensures Translate(Run(Boot(initial), calls).ram, ROOT, va) == Expected(calls, va)
  {
    hide Sound, Translate, MapMmio, Unlock, BootRam, AlignDown, Region;
    if calls == [] {
      BootTranslates(initial, va);
    } else {
      var s := Run(Boot(initial), calls[..|calls| - 1]);
      RunIsSound(initial, calls[..|calls| - 1]);
      StoresTranslate(initial, calls[..|calls| - 1], va);
      match calls[|calls| - 1]
      case Map(p) => MapMmioEffect(s, p, va);
      case Enable(v, n) => UnlockEffect(s, v, n);
    }
  }

  /** The shortest run that goes astray: after a single mapping with bit 48 set for the region of the
      page tables the code finds another page where it looks for the PML4. */
  lemma OneCallLosesTheRoot(initial: Ram)
    ensures !Harmless(0x1_0000_0400_0000)
    ensures var s := Run(Boot(initial), [Map(0x1_0000_0400_0000)]);
            Translate(s.ram, ROOT, ROOT) == Mapped(0x1_0000_0400_0000) && !TablesReached(s.ram)
  {
    var calls := [Map(0x1_0000_0400_0000)];
    assert calls[..0] == [];
    assert Region(0x1_0000_0400_0000) == Region(ROOT) == ROOT / TWO21;
    assert AlignDown(0x1_0000_0400_0000 % TWO52, TWO21) + ROOT % TWO21 == 0x1_0000_0400_0000;
    StoresTranslate(initial, calls, ROOT);
    hide Translate, Run;
    assert Placed(Run(Boot(initial), calls).ram, ROOT, Root);
  }

  /** A run whose empty call unlocks a page: region 0 mapped again without execution, then no bytes at
      address 1. */
  lemma OneEmptyCallUnlocks(initial: Ram)
    ensures Harmless(0x8000_0000_0000_0000)
    ensures var s := Run(Boot(initial), [Map(0x8000_0000_0000_0000)]);
            var t := Run(Boot(initial), [Map(0x8000_0000_0000_0000), Enable(1, 0)]);
            && HwWalk(s.ram, ROOT, 0).Page? && HwWalk(s.ram, ROOT, 0).nx
            && HwWalk(t.ram, ROOT, 0) == HwWalk(s.ram, ROOT, 0).(nx := false)
            && !BytesUnlocked(s.ram, t.ram, 1, 0)
  {
    hide HwWalk, Sound, MapMmio, Unlock, Boot, BytesUnlocked;
    var p: Word := 0x8000_0000_0000_0000;
    var one, two := [Map(p)], [Map(p), Enable(1, 0)];
    assert one[..0] == [] && two[..1] == one;
    assert Run(Boot(initial), one) == MapMmio(Boot(initial), p);
    BootIsSound(initial);
    MapMmioEffect(Boot(initial), p, 0);
    MapMmioStoresOneLeaf(Boot(initial), p);
    assert Region(0) == Region(p) == 0;
    assert StartPage(1) == 0;
    EmptyCallUnlocks(MapMmio(Boot(initial), p), 1);
  }

  /** The device addresses a caller may pass: no bit in 51:48. */
  predicate Addressable(calls: seq<Call>) {
    forall c :: c in calls && c.Map? ==> c.p % TWO52 < TWO48
  }

  predicate Requested(calls: seq<Call>, va: int) {
    va < LOW_4GB || exists c :: c in calls && c.Map? && Region(c.p) == Region(va)
  }

  lemma {:induction false} ExpectedIsIdentity(calls: seq<Call>, va: int)
    requires 0 <= va < TWO48 && Addressable(calls)
    ensures Expected(calls, va) == if Requested(calls, va) then Mapped(va) else Unmapped
  {
    if calls != [] {
      var front, c := calls[..|calls| - 1], calls[|calls| - 1];
      assert calls == front + [c];
      ExpectedIsIdentity(front, va);
      if c.Map? && Region(va) == Region(c.p) {
        assert c in calls;
        RegionBaseIsRegion(va);
        RegionBaseIsRegion(c.p);
        HighBitsShow(c.p);
      }
    }
  }

  lemma AddressableIsHarmless(calls: seq<Call>)
    requires Addressable(calls)
    ensures HarmlessCalls(calls)
  {
  }

  /** Safety of whole runs: memory stays one-to-one.  Every present address translates to
      itself; exactly the boot map's 4 GB and the requested regions are present; and all
      tables stay below 4 GB, where the code found each of them at every call. */
  lemma RunIsIdentity(initial: Ram, calls: seq<Call>, va: int)
    requires 0 <= va < TWO48 && Addressable(calls)
    ensures forall k :: 0 <= k < |calls| ==> Runs(Run(Boot(initial), calls[..k]), calls[k])
    ensures var s := Run(Boot(initial), calls);
            && Translate(s.ram, ROOT, va) == (if Requested(calls, va) then Mapped(va) else Unmapped)
            && BUMP <= s.next < LOW_4GB
            && Sound(s) && TablesReached(s.ram)
  {
    hide Translate, Runs, Expected, Requested, PoolReached, Sound, TablesReached, Addressable;
    var s := Run(Boot(initial), calls);
    AddressableIsHarmless(calls);
    RunTranslates(initial, calls, va);
    ExpectedIsIdentity(calls, va);
    RunIsSound(initial, calls);
    SoundIsBounded(s);
    PoolStaysIff(initial, calls);
    assert calls[..|calls|] == calls;
    PoolIsReached(s, 0);
    ReachedMeans(s, 0);
  }

  lemma SoundIsBounded(s: Space)
    requires Sound(s)
    ensures BUMP <= s.next < LOW_4GB && s.next % PAGE == 0
    ensures s.next % 8 == 0 && (s.next + PAGE) % TWO64 % 8 == 0
  {
    var owner :| Tree(s.ram, s.next, owner);
    BumpIsBounded(s.ram, s.next, owner);
    WholePages(s.next);
  }

  lemma WholePages(next: int)
    requires 0 <= next < LOW_4GB && next % PAGE == 0
    ensures next % 8 == 0 && (next + PAGE) % TWO64 == next + PAGE && (next + PAGE) % 8 == 0
  {
    DivModIs(next, 8, next / PAGE * 512, 0);
  }

  /** Hooking in a page directory leaves the PML4 alone, so the pointer read before stays good. */
  lemma PdptPointerStays(s: Space, i: int, j: int)
    requires Sound(s) && InTable(i) && InTable(j)
    ensures var t := EnsurePdpt(s, i); Pml4e(EnsurePd(t, i, j).ram, i) == Pml4e(t.ram, i)
  {
    hide Present, AlignDown;
    var o0 :| Tree(s.ram, s.next, o0);
    var t := EnsurePdpt(s, i);
    var o := PdptIsThere(s, o0, i);
    if !Present(Pdpte(t.ram, i, j)) {
      BumpIsBounded(t.ram, t.next, o);
      AddTableIs(t, SwBase(Pml4e(t.ram, i)), j);
      PdIsAdded(t.ram, t.next, o, i, j);
      assert EntriesAfter(t.ram, EnsurePd(t, i, j).ram, Pd(i, j), t.next, i, j);
    }
  }

  // ----- memory under the store loops

  /** The entries that link the boot tables, stored over the cleared pages. */
  ghost function LinkedBoot(initial: Ram): Ram {
    ZeroedTo(initial, ROOT, 0xC00)[ROOT := 0x400_1003][0x400_1000 := 0x400_2003][0x400_1008 := 0x400_3003]
      [0x400_1010 := 0x400_4003][0x400_1018 := 0x400_5003]
  }

  /** The first n page-directory entries stored. */
  ghost function PdsTo(ram: Ram, n: int): Ram
    requires 0 <= n <= 2048
  {
    imap a: int ::
      if 0x400_2000 <= a < 0x400_2000 + 8 * n && a % 8 == 0 then 0x83 + (a - 0x400_2000) / 8 * TWO21 else ram[a]
  }

  lemma PdsStep(ram: Ram, n: int)
    requires 0 <= n < 2048
    ensures PdsTo(ram, 0) == ram
    ensures PdsTo(ram, n)[0x400_2000 + 8 * n] == ram[0x400_2000 + 8 * n]
    ensures PdsTo(ram, n + 1) == PdsTo(ram, n)[0x400_2000 + 8 * n := 0x83 + n * TWO21]
  {
    assert forall a: int :: PdsTo(ram, 0)[a] == ram[a];
    var next := PdsTo(ram, n)[0x400_2000 + 8 * n := 0x83 + n * TWO21];
    forall a: int ensures PdsTo(ram, n + 1)[a] == next[a] {
      if 0x400_2000 + 8 * n <= a < 0x400_2000 + 8 * n + 8 && a % 8 == 0 {
        assert a == 0x400_2000 + 8 * n;
      }
    }
  }

  lemma BootIsBuilt(initial: Ram)
    ensures PdsTo(LinkedBoot(initial), 2048) == BootRam(initial)
  {
    hide LinkedBoot, BootEntry;
    forall a: int ensures PdsTo(LinkedBoot(initial), 2048)[a] == BootRam(initial)[a] {
      BootWordIsBuilt(initial, a);
    }
  }

  lemma ZeroedAt(ram: Ram, a: int)
    ensures ZeroedTo(ram, ROOT, 0xC00)[a] == if ROOT <= a < ROOT + 0x6000 && a % 8 == 0 then 0 else ram[a]
  {
  }

  lemma BootWordIsBuilt(initial: Ram, a: int)
    ensures PdsTo(LinkedBoot(initial), 2048)[a] == BootRam(initial)[a]
  {
    hide ZeroedTo;
    ZeroedAt(initial, a);
    if 0x400_1000 <= a < 0x400_1020 && a % 8 == 0 {
      var n := (a - 0x400_1000) / 8;
      assert a == 0x400_1000 + 8 * n && 0 <= n < 4;
      assert n == 0 || n == 1 || n == 2 || n == 3;
    }
  }

  /** One turn of disable_nx_for_app's loop. */
  lemma UnlockedStep(ram: Ram, pml4Phys: Word, lo: int, page: int)
    requires lo <= page && page % PAGE == 0 && CleanWalk(ram, SwBase(pml4Phys), page)
    ensures Unlocked(ram, pml4Phys, lo, lo) == ram
    ensures var now := Unlocked(ram, pml4Phys, lo, page);
            var pte := FindPte(now, pml4Phys, page);
            Unlocked(ram, pml4Phys, lo, page + PAGE) == if pte != 0 then now[pte := ClearNx(now[pte])] else now
  {
    hide FindPte, CleanWalk, SwBase, Visited, ClearNx;
    var now, then' := Unlocked(ram, pml4Phys, lo, page), Unlocked(ram, pml4Phys, lo, page + PAGE);
    var pte := FindPte(ram, pml4Phys, page);
    forall a: int ensures Unlocked(ram, pml4Phys, lo, lo)[a] == ram[a] {
      NothingVisited(ram, pml4Phys, lo, a);
    }
    UnlockedIsSameButNx(ram, pml4Phys, lo, page);
    NxDoesNotMoveFindPte(ram, now, pml4Phys, page);
    var after := if pte != 0 then now[pte := ClearNx(now[pte])] else now;
    forall a: int ensures then'[a] == after[a] {
      OneMorePage(ram, pml4Phys, lo, page, a);
      ClearNxTwice(ram[a]);
    }
  }

  lemma NothingVisited(ram: Ram, pml4Phys: Word, lo: int, a: int)
    ensures !Visited(ram, pml4Phys, lo, lo, a)
  {
  }

  lemma UnlockedIsSameButNx(ram: Ram, pml4Phys: Word, lo: int, page: int)
    ensures SameButNx(ram, Unlocked(ram, pml4Phys, lo, page))
  {
    hide Visited, ClearNx;
  }

  lemma ClearNxTwice(e: Word)
    ensures ClearNx(ClearNx(e)) == ClearNx(e)
  {
    ClearNxKeepsTheRest(e);
  }

  lemma OneMorePage(ram: Ram, pml4Phys: Word, lo: int, page: int, a: int)
    requires lo <= page && page % PAGE == 0
    ensures Visited(ram, pml4Phys, lo, page + PAGE, a) <==>
            Visited(ram, pml4Phys, lo, page, a) || (a == FindPte(ram, pml4Phys, page) && a != 0)
  {
    hide FindPte;
    if q :| a != 0 && lo <= q < page + PAGE && q % PAGE == 0 && FindPte(ram, pml4Phys, q) == a {
      assert q < page || q == page;
    }
  }

  // ----- the code

  /** A 32-bit store into the low half of a 64-bit word. */
  function StoreLow(w: Word, v: int): Word
    requires 0 <= v < 0x1_0000_0000
  {
    w - w % 0x1_0000_0000 + v
  }

  /** The six boot tables, word by word: one link, four links, 2048 present and writable 2 MB pages of
      the first 4 GB, and zeros. */
  predicate BootWords(ram: Ram) {
    && ram[0x400_0000] == 0x400_1003
    && (forall n :: 1 <= n < 512 ==> ram[0x400_0000 + 8 * n] == 0)
    && (forall n :: 0 <= n < 4 ==> ram[0x400_1000 + 8 * n] == 0x400_2003 + 0x1000 * n)
    && (forall n :: 4 <= n < 512 ==> ram[0x400_1000 + 8 * n] == 0)
    && (forall n :: 0 <= n < 2048 ==> ram[0x400_2000 + 8 * n] == 0x20_0000 * n + 0x83)
  }

  lemma BootHoldsWords(initial: Ram)
    ensures BootWords(BootRam(initial))
  {
  }

  class AddressSpace {
    var ram: Ram
    var next: Word

    ghost function Abs(): Space reads this { Space(ram, next) }

    /** os2_entry.s: clear six tables, link them, and fill the four page directories. */
    constructor (initial: Ram)
      ensures Abs() == Boot(initial) && next == 0x780_0000 && BootWords(ram)
    {
      ram, next := initial, BUMP;
      new;
      ClearTables();
      LinkTables(initial);
      FillPds();
      BootIsBuilt(initial);
      BootHoldsWords(initial);
    }

    method ClearTables()
      modifies `ram
      ensures ram == ZeroedTo(old(ram), ROOT, 0xC00)
    {
      var edi := ROOT;
      ZeroedStep(ram, ROOT, 0);
      for i := 0 to 0xC00
        invariant edi == ROOT + 8 * i
        invariant ram == ZeroedTo(old(ram), ROOT, i)
      {
        ZeroedStep(old(ram), ROOT, i);
        ram := ram[edi := 0];
        edi := edi + 8;
      }
    }

    method LinkTables(ghost initial: Ram)
      requires ram == ZeroedTo(initial, ROOT, 0xC00)
      modifies `ram
      ensures ram == LinkedBoot(initial)
    {
      ram := ram[ROOT := StoreLow(ram[ROOT], 0x400_1003)];
      ram := ram[0x400_1000 := StoreLow(ram[0x400_1000], 0x400_2003)];
      ram := ram[0x400_1008 := StoreLow(ram[0x400_1008], 0x400_3003)];
      ram := ram[0x400_1010 := StoreLow(ram[0x400_1010], 0x400_4003)];
      ram := ram[0x400_1018 := StoreLow(ram[0x400_1018], 0x400_5003)];
    }

    method FillPds()
      requires forall n :: 0 <= n < 2048 ==> ram[0x400_2000 + 8 * n] == 0
      modifies `ram
      ensures ram == PdsTo(old(ram), 2048)
    {
      hide PdsTo;
      var edi, eax := 0x400_2000, 0x83;
      PdsStep(ram, 0);
      for n := 0 to 2048
        invariant edi == 0x400_2000 + 8 * n
        invariant 0 <= eax < 0x1_0000_0000 && (n < 2048 ==> eax == 0x83 + n * TWO21)
        invariant ram == PdsTo(old(ram), n)
      {
        PdsStep(old(ram), n);
        assert ram[edi] == old(ram)[0x400_2000 + 8 * n] == 0;
        ram := ram[edi := StoreLow(ram[edi], eax)];
        edi := edi + 8;
        eax := (eax + TWO21) % 0x1_0000_0000;
      }
    }

    /** A load of the running code goes through the tables. */
    method Load(va: int) returns (w: Word)
      requires Translate(ram, ROOT, va).Mapped?
      ensures w == ram[Translate(ram, ROOT, va).pa]
    {
      w := ram[Translate(ram, ROOT, va).pa];
    }

    /** So does a store. */
    method Store(va: int, w: Word)
      requires Translate(ram, ROOT, va).Mapped?
      modifies `ram
      ensures ram == old(ram)[Translate(old(ram), ROOT, va).pa := w]
    {
      ram := ram[Translate(ram, ROOT, va).pa := w];
    }

    /** map_mmio_64, called while its tables and the pages it takes are where it looks for them. */
    method MapMmio64(p: Word)
      requires Reached(Abs(), I4(p), I3(p))
      modifies this
      ensures Abs() == MapMmio(old(Abs()), p) && Sound(Abs()) && MappedBy(ram, p)
      ensures TablesReached(ram) <==> MissesTables(ram, p)
    {
      hide MappedBy, Reached, Sound, TablesReached, MissesTables, MapMmio, EnsurePd, EnsurePdpt, MmioEntry;
      hide I4, I3, I2, Present, SwBase, Pml4e, Pdpte, HasPd;
      CallFacts(Abs(), p);
      IndicesAre(p);
      var i, j, k := p / TWO39 % 512, p / TWO30 % 512, p / TWO21 % 512;
      NeedPdpt(i, j);
      var pdpt := PdptOf(i);
      NeedPd(i, j, pdpt);
      StoreEntry(i, j, k, pdpt, MmioEntry(p));
    }

    method PdptOf(i: int) returns (pdpt: int)
      requires Sound(Abs()) && TablesReached(ram) && InTable(i)
      ensures pdpt == SwBase(Pml4e(ram, i))
    {
      hide Sound, TablesReached, Translate, SwBase;
      LevelsAreReached(Abs(), i, 0, 0);
      var e4 := Load(ROOT + 8 * i);
      pdpt := SwBase(e4);
    }

    method StoreEntry(i: int, j: int, k: int, pdpt: int, entry: Word)
      requires Sound(Abs()) && TablesReached(ram) && InTable(i) && InTable(j) && InTable(k)
      requires HasPd(ram, i, j) && pdpt == SwBase(Pml4e(ram, i))
      modifies `ram
      ensures ram == old(ram)[SwBase(Pdpte(old(ram), i, j)) + 8 * k := entry]
    {
      hide Sound, TablesReached, Translate, SwBase, Present;
      LevelsAreReached(Abs(), i, j, k);
      assert Present(Pml4e(ram, i));
      var e3 := Load(pdpt + 8 * j);
      var pd := SwBase(e3);
      Store(pd + 8 * k, entry);
    }

    /** A page for the PDPT if its entry is empty. */
    method NeedPdpt(i: int, ghost j: int)
      requires Reached(Abs(), i, j) && InTable(i) && InTable(j)
      modifies this
      ensures Abs() == EnsurePdpt(old(Abs()), i) && Reached(Abs(), i, j) && Present(Pml4e(ram, i))
      ensures Sound(Abs()) && TablesReached(ram)
    {
      hide Reached, Sound, TablesReached, Translate, AddTable, Present, SelfMapped;
      PdptIsReached(Abs(), i, j);
      FirstPageIsReached(Abs(), i, j);
      EntryIsReached(Abs(), ROOT, Root, i);
      var e4 := Load(ROOT + 8 * i);
      if !Present(e4) {
        NewTable(ROOT, i);
      }
    }

    /** A page for the PD if its entry is empty. */
    method NeedPd(i: int, j: int, pdpt: int)
      requires Reached(Abs(), i, j) && InTable(i) && InTable(j)
      requires Present(Pml4e(ram, i)) && pdpt == SwBase(Pml4e(ram, i))
      modifies this
      ensures Abs() == EnsurePd(old(Abs()), i, j)
      ensures Sound(Abs()) && TablesReached(ram) && HasPd(ram, i, j)
    {
      hide Reached, Sound, TablesReached, Translate, AddTable, Present, SwBase, SelfMapped, Pml4e, HasPd;
      PdIsReached(Abs(), i, j);
      FirstPageIsReached(Abs(), i, j);
      PdptPageIsReached(Abs(), i, j);
      var e3 := Load(pdpt + 8 * j);
      if !Present(e3) {
        NewTable(pdpt, j);
      }
    }

    /** Take the page at the bump pointer, clear it and link it from entry x of the table at ep. */
    method NewTable(ep: int, x: int)
      requires Sound(Abs()) && SelfMapped(ram, next)
      requires SelfMapped(ram, ep) && 0 <= ep && ep % PAGE == 0 && InTable(x)
      modifies this
      ensures Abs() == AddTable(old(Abs()), ep, x)
    {
      hide Sound, Translate, SelfMapped, ZeroedTo;
      ghost var s := Abs();
      SoundIsBounded(s);
      var table := next;
      next := (next + PAGE) % TWO64;
      ZeroedStep(ram, table, 0);
      for i := 0 to 512
        modifies `ram
        invariant ram == ZeroedTo(s.ram, table, i)
      {
        ClearingReaches(s, i, table, i);
        ZeroedStep(s.ram, table, i);
        Store(table + 8 * i, 0);
      }
      ClearingReaches(s, 512, ep, x);
      Store(ep + 8 * x, (table + 3) % TWO64);
    }

    /** find_pte_for_address, each table read where it is found. */
    method FindPteForAddress(va: int) returns (pte: int)
      requires Sound(Abs()) && TablesReached(ram) && 0 <= va < TWO64
      ensures pte == FindPte(ram, ROOT, va)
    {
      hide Sound, TablesReached, Translate, SwBase, Large, Present;
      var i, j := va / TWO39 % 512, va / TWO30 % 512;
      LevelsAreReached(Abs(), i, j, 0);
      RootIsAligned();
      var e4 := Load(SwBase(ROOT) + 8 * i);
      if !Present(e4) {
        return 0;
      }
      var pdpt := SwBase(e4);
      var e3 := Load(pdpt + 8 * j);
      if !Present(e3) {
        return 0;
      }
      if Large(e3) {
        return pdpt + 8 * j;
      }
      pte := FindInDirectory(va, i, j, SwBase(e3));
    }

    /** The walk from the page directory on. */
    method FindInDirectory(va: int, ghost i: int, ghost j: int, pd: int) returns (pte: int)
      requires Sound(Abs()) && TablesReached(ram) && 0 <= va < TWO64 && InTable(i) && InTable(j)
      requires HasPd(ram, i, j) && pd == SwBase(Pdpte(ram, i, j))
      ensures var s2 := pd + 8 * (va / TWO21 % 512);
              pte == if !Present(ram[s2]) then 0 else if Large(ram[s2]) then s2
                     else SwBase(ram[s2]) + 8 * (va / PAGE % 512)
    {
      hide Sound, TablesReached, Translate, SwBase, Large, Present, Pml4e, Pdpte;
      var k := va / TWO21 % 512;
      LevelsAreReached(Abs(), i, j, k);
      var e2 := Load(pd + 8 * k);
      if !Present(e2) {
        return 0;
      }
      if Large(e2) {
        return pd + 8 * k;
      }
      return SwBase(e2) + 8 * (va / PAGE % 512);
    }

    /** Clear NX in the entry of one page, if it has one. */
    method UnlockPage(page: int)
      requires Sound(Abs()) && TablesReached(ram) && 0 <= page < TWO64
      modifies `ram
      ensures ram == (var pte := FindPte(old(ram), ROOT, page);
                      if pte != 0 then old(ram)[pte := ClearNx(old(ram)[pte])] else old(ram))
    {
      hide Sound, TablesReached, Translate, FindPte, ClearNx;
      PteIsReached(Abs(), page);
      var pte := FindPteForAddress(page);
      if pte != 0 {
        var e := Load(pte);
        Store(pte, ClearNx(e));
      }
    }

    method DisableNx(v: Word, n: Word)
      requires Sound(Abs()) && TablesReached(ram)
      modifies `ram
      ensures Abs() == Unlock(old(Abs()), v, n)
      ensures RoundsExactly(v, n) ==> BytesUnlocked(old(ram), ram, v, n)
      ensures Sound(Abs()) && TablesReached(ram)
    {
      hide BytesUnlocked, RoundsExactly;
      if RoundsExactly(v, n) {
        UnlockBytes(Abs(), v, n);
      }
      PagesAreAligned(v, n);
      hide Sound, TablesReached, Unlocked, AlignDown, StartPage, EndPage;
      var startPage := AlignDown(v, PAGE);
      var endPage := AlignDown((v + n + 0xFFF) % TWO64, PAGE);
      UnlockPages(startPage, endPage);
    }

    /** The page loop. */
    method UnlockPages(startPage: int, endPage: int)
      requires Sound(Abs()) && TablesReached(ram)
      requires 0 <= startPage && startPage % PAGE == 0 && endPage % PAGE == 0 && endPage <= TWO64
      modifies `ram
      ensures ram == Unlocked(old(ram), ROOT, startPage, endPage)
      ensures Sound(Abs()) && TablesReached(ram)
    {
      hide FindPte, CleanWalk, SwBase, Unlocked, ClearNx, Sound, TablesReached;
      ghost var s := Abs();
      if endPage <= startPage {
        NoneUnlocked(ram, startPage, endPage);
        return;
      }
      NothingUnlocked(ram, startPage);
      var page := startPage;
      while page < endPage
        invariant page % PAGE == 0 && startPage <= page <= endPage
        invariant ram == Unlocked(s.ram, ROOT, startPage, page)
      {
        PteIsReached(s, page);
        UnlockedStaysReached(s, startPage, page);
        UnlockedStep(s.ram, ROOT, startPage, page);
        UnlockPage(page);
        page := page + PAGE;
      }
      UnlockedStaysReached(s, startPage, endPage);
    }
  }

  lemma RootIsAligned()
    ensures SwBase(ROOT) == ROOT
  {
  }

  lemma IndicesAre(p: Word)
    ensures I4(p) == p / TWO39 % 512 && I3(p) == p / TWO30 % 512 && I2(p) == p / TWO21 % 512
  {
  }

  /** What a call relies on and what it comes to. */
  lemma CallFacts(s: Space, p: Word)
    requires Reached(s, I4(p), I3(p))
    ensures Sound(MapMmio(s, p)) && MappedBy(MapMmio(s, p).ram, p)
    ensures InTable(I4(p)) && InTable(I3(p)) && InTable(I2(p))
    ensures var r := MapMmio(s, p); TablesReached(r.ram) <==> MissesTables(r.ram, p)
    ensures var t := EnsurePdpt(s, I4(p));
            var u := EnsurePd(t, I4(p), I3(p));
            && Pml4e(u.ram, I4(p)) == Pml4e(t.ram, I4(p))
            && MapMmio(s, p) == Space(u.ram[SwBase(Pdpte(u.ram, I4(p), I3(p))) + 8 * I2(p) := MmioEntry(p)], u.next)
  {
    hide *;
    ReachedMeans(s, p);
    CallKeepsReachIff(s, p);
    MapMmioStoresOneLeaf(s, p);
    CallMaps(s, p);
    IndicesInTable(p);
    MapMmioIs(s, p);
    PdptPointerStays(s, I4(p), I3(p));
  }

  lemma PdptPageIsReached(s: Space, i: int, j: int)
    requires Sound(s) && TablesReached(s.ram) && InTable(i) && InTable(j) && Present(Pml4e(s.ram, i))
    ensures var p := SwBase(Pml4e(s.ram, i));
            0 <= p && p % PAGE == 0 && SelfMapped(s.ram, p) && Translate(s.ram, ROOT, p + 8 * j) == Mapped(p + 8 * j)
  {
    hide Sound, TablesReached, Translate, SwBase;
    EntryIsReached(s, SwBase(Pml4e(s.ram, i)), Pdpt(i), j);
  }

  /** The page a call takes first. */
  lemma FirstPageIsReached(s: Space, i: int, j: int)
    requires Reached(s, i, j)
    ensures Sound(s) && TablesReached(s.ram)
    ensures !Present(Pml4e(s.ram, i)) || !Present(Pdpte(s.ram, i, j)) ==> SelfMapped(s.ram, s.next)
  {
    assert Missing(s.ram, i, j) > 0 ==> SelfMapped(s.ram, s.next + 0 * PAGE);
  }

  lemma PagesAreAligned(v: Word, n: Word)
    ensures StartPage(v) == AlignDown(v, PAGE) && EndPage(v, n) == AlignDown((v + n + 0xFFF) % TWO64, PAGE)
    ensures 0 <= StartPage(v) && StartPage(v) % PAGE == 0 && EndPage(v, n) % PAGE == 0 && EndPage(v, n) <= TWO64
  {
    var x := (v + n + 0xFFF) % TWO64;
    DivModIs(AlignDown(v, PAGE), PAGE, v / PAGE, 0);
    DivModIs(AlignDown(x, PAGE), PAGE, x / PAGE, 0);
  }

  lemma NothingUnlocked(ram: Ram, lo: int)
    ensures Unlocked(ram, ROOT, lo, lo) == ram
  {
    assert forall a: int :: Unlocked(ram, ROOT, lo, lo)[a] == ram[a];
  }

  lemma NoneUnlocked(ram: Ram, lo: int, hi: int)
    requires hi <= lo
    ensures Unlocked(ram, ROOT, lo, hi) == ram
  {
    assert forall a: int :: Unlocked(ram, ROOT, lo, hi)[a] == ram[a];
  }
}
