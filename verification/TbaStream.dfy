/** The endless recording of cosmos_tba.cpp: blocks collect in a 4096-byte buffer, full buffers go to
    a ring of 1250 eight-sector slots on the drive. */
module TbaStream {
  import opened Arith
  import opened CosmosBlock
  import opened CosmosFs
  import opened DiskLayout
  import opened RingIndex

  const CLUSTER := 4096
  const START := 3000
  const END := 13000
  const SLOTS := 1250

  type Block256 = b: seq<Byte> | IsBlock(b) witness seq(SIZE, _ => 0)

  /** The buffer and the two cursors, and the drive behind them. */
  datatype State = State(ram: seq<Byte>, idx: int, lba: int, disk: Disk)

  predicate Sized(st: State) {
    |st.ram| == CLUSTER && 0 <= st.idx < 16 && START <= st.lba < END
  }

  /** One block offered to the recorder; `present` says whether a drive answers if it fills the buffer. */
  datatype Entry = Entry(block: Block256, present: bool)

  function SectorOf(cluster: seq<Byte>, s: int): Sector
    requires |cluster| == CLUSTER && 0 <= s < 8
  {
    cluster[SECTOR * s..SECTOR * s + SECTOR]
  }

  /** The first n sectors of a cluster written from lba on. */
  ghost function WrittenTo(disk: Disk, lba: int, cluster: seq<Byte>, n: int): Disk
    requires |cluster| == CLUSTER && 0 <= n <= 8
    decreases n
  {
    if n <= 0 then disk else WrittenTo(disk, lba, cluster, n - 1)[lba + n - 1 := SectorOf(cluster, n - 1)]
  }

  lemma {:induction false} WrittenAt(disk: Disk, lba: int, cluster: seq<Byte>, n: int, p: int)
    requires |cluster| == CLUSTER && 0 <= n <= 8
    ensures WrittenTo(disk, lba, cluster, n)[p] == if lba <= p < lba + n then SectorOf(cluster, p - lba) else disk[p]
    decreases n
  {
    hide SectorOf;
    if n > 0 {
      WrittenAt(disk, lba, cluster, n - 1, p);
    }
  }

  lemma WrittenStep(disk: Disk, lba: int, cluster: seq<Byte>, n: int)
    requires |cluster| == CLUSTER && 0 <= n < 8
    ensures WrittenTo(disk, lba, cluster, 0) == disk
    ensures WrittenTo(disk, lba, cluster, n + 1) == WrittenTo(disk, lba, cluster, n)[lba + n := SectorOf(cluster, n)]
  {
  }

  function NextLba(lba: int): int { if lba + 8 >= END then START else lba + 8 }

  /** tba_flush_to_disk. */
  ghost function Flush(st: State, present: bool): State
    requires |st.ram| == CLUSTER
  {
    if !present then st.(idx := 0)
    else st.(disk := WrittenTo(st.disk, st.lba, st.ram, 8), idx := 0, lba := NextLba(st.lba))
  }

  function Stored(ram: seq<Byte>, idx: int, block: Block256): (r: seq<Byte>)
    requires |ram| == CLUSTER && 0 <= idx < 16
    ensures |r| == CLUSTER
  {
    ram[..SIZE * idx] + block + ram[SIZE * idx + SIZE..]
  }

  /** A block into the buffer, and the buffer to the drive when that fills it. */
  ghost function Put(st: State, e: Entry): State
    requires Sized(st)
  {
    var next := st.(ram := Stored(st.ram, st.idx, e.block), idx := st.idx + 1);
    if next.idx == 16 then Flush(next, e.present) else next
  }

  // ----- what the history says should be where

  function Flat(es: seq<Entry>): (bytes: seq<Byte>)
    ensures |bytes| == SIZE * |es|
  {
    if es == [] then [] else Flat(es[..|es| - 1]) + es[|es| - 1].block
  }

  /** The g-th sixteen entries. */
  function Group(es: seq<Entry>, g: int): (group: seq<Entry>)
    requires 0 <= g && 16 * g + 16 <= |es|
    ensures |group| == 16
  {
    es[16 * g..16 * g + 16]
  }

  /** The full clusters among the first g that found a drive, oldest first. */
  function Kept(es: seq<Entry>, g: int): (clusters: seq<seq<Byte>>)
    requires 0 <= 16 * g <= |es|
    ensures forall k :: 0 <= k < |clusters| ==> |clusters[k]| == CLUSTER
    decreases g
  {
    if g <= 0 then []
    else if Group(es, g - 1)[15].present then Kept(es, g - 1) + [Flat(Group(es, g - 1))]
    else Kept(es, g - 1)
  }

  function Flushed(es: seq<Entry>): (clusters: seq<seq<Byte>>)
    ensures forall k :: 0 <= k < |clusters| ==> |clusters[k]| == CLUSTER
  {
    Kept(es, |es| / 16)
  }

  /** The entries since the last full cluster. */
  function Tail(es: seq<Entry>): seq<Entry> { es[16 * (|es| / 16)..] }

  lemma {:induction false} KeptOfLonger(es: seq<Entry>, e: Entry, g: int)
    requires 0 <= 16 * g <= |es|
    ensures Kept(es + [e], g) == Kept(es, g)
    decreases g
  {
    if g > 0 {
      KeptOfLonger(es, e, g - 1);
      assert Group(es + [e], g - 1) == Group(es, g - 1);
    }
  }

  /** With a drive always there the clusters are all the full groups of sixteen. */
  lemma {:induction false} AllKept(es: seq<Entry>, g: int)
    requires 0 <= 16 * g <= |es| && forall i :: 0 <= i < |es| ==> es[i].present
    ensures |Kept(es, g)| == g && forall k :: 0 <= k < g ==> Kept(es, g)[k] == Flat(Group(es, k))
    decreases g
  {
    if g > 0 {
      AllKept(es, g - 1);
    }
  }

  // ----- the invariant of the recording

  ghost predicate Holds(disk: Disk, slot: int, cluster: seq<Byte>)
    requires |cluster| == CLUSTER
  {
    forall s :: 0 <= s < 8 ==> disk[START + 8 * slot + s] == SectorOf(cluster, s)
  }

  /** The sectors that n flushes can have reached. */
  predicate Reached(p: int, n: int) {
    START <= p < START + 8 * if n < SLOTS then n else SLOTS
  }

  /** The last 1250 clusters are on the drive, cluster k in slot k mod 1250. */
  ghost predicate SlotsHold(disk: Disk, kept: seq<seq<Byte>>)
    requires forall k :: 0 <= k < |kept| ==> |kept[k]| == CLUSTER
  {
    forall k :: 0 <= k < |kept| && |kept| - SLOTS <= k ==> Holds(disk, Slot(k, SLOTS), kept[k])
  }

  /** No sector outside the slots that n flushes use was ever written. */
  ghost predicate Untouched(disk: Disk, d0: Disk, n: int) {
    forall p :: !Reached(p, n) ==> disk[p] == d0[p]
  }

  ghost predicate DiskHolds(disk: Disk, d0: Disk, kept: seq<seq<Byte>>)
    requires forall k :: 0 <= k < |kept| ==> |kept[k]| == CLUSTER
  {
    SlotsHold(disk, kept) && Untouched(disk, d0, |kept|)
  }

  ghost predicate Inv(st: State, d0: Disk, es: seq<Entry>) {
    && |st.ram| == CLUSTER
    && st.idx == |es| % 16
    && st.ram[..SIZE * st.idx] == Flat(Tail(es))
    && st.lba == START + 8 * Slot(|Flushed(es)|, SLOTS)
    && DiskHolds(st.disk, d0, Flushed(es))
  }

  ghost function Initial(ram: seq<Byte>, disk: Disk): State { State(ram, 0, START, disk) }

  lemma InitialIsInv(ram: seq<Byte>, disk: Disk)
    requires |ram| == CLUSTER
    ensures Inv(Initial(ram, disk), disk, [])
  {
  }

  /** Writing one slot fills it. */
  lemma SlotIsFilled(disk: Disk, slot: int, cluster: seq<Byte>)
    requires |cluster| == CLUSTER
    ensures Holds(WrittenTo(disk, START + 8 * slot, cluster, 8), slot, cluster)
  {
    hide WrittenTo, SectorOf;
    var lba := START + 8 * slot;
    forall s | 0 <= s < 8 ensures WrittenTo(disk, lba, cluster, 8)[lba + s] == SectorOf(cluster, s) {
      WrittenAt(disk, lba, cluster, 8, lba + s);
    }
  }

  /** Writing one slot leaves the other slots alone. */
  lemma OtherSlotKeeps(disk: Disk, slot: int, cluster: seq<Byte>, other: int, kept: seq<Byte>)
    requires |cluster| == |kept| == CLUSTER && other != slot && Holds(disk, other, kept)
    ensures Holds(WrittenTo(disk, START + 8 * slot, cluster, 8), other, kept)
  {
    hide WrittenTo, SectorOf;
    var lba, to := START + 8 * slot, START + 8 * other;
    forall s | 0 <= s < 8 ensures WrittenTo(disk, lba, cluster, 8)[to + s] == SectorOf(kept, s) {
      WrittenAt(disk, lba, cluster, 8, to + s);
    }
  }

  lemma ReachedGrows(p: int, n: int)
    requires n >= 0 && !Reached(p, n + 1)
    ensures !Reached(p, n) && !(START + 8 * Slot(n, SLOTS) <= p < START + 8 * Slot(n, SLOTS) + 8)
  {
    SlotInRange(n, SLOTS);
    if n < SLOTS {
      FirstLap(n, SLOTS);
    }
  }

  /** One more cluster goes where the oldest one was. */
  lemma {:induction false} DiskStep(disk: Disk, d0: Disk, kept: seq<seq<Byte>>, cluster: seq<Byte>)
    requires forall k :: 0 <= k < |kept| ==> |kept[k]| == CLUSTER
    requires |cluster| == CLUSTER && DiskHolds(disk, d0, kept)
    ensures DiskHolds(WrittenTo(disk, START + 8 * Slot(|kept|, SLOTS), cluster, 8), d0, kept + [cluster])
  {
    hide SlotsHold, Untouched, Slot, WrittenTo;
    assert |kept + [cluster]| == |kept| + 1;
    SlotsStep(disk, kept, cluster);
    UntouchedStep(disk, d0, |kept|, cluster);
  }

  lemma {:induction false} SlotsStep(disk: Disk, kept: seq<seq<Byte>>, cluster: seq<Byte>)
    requires forall k :: 0 <= k < |kept| ==> |kept[k]| == CLUSTER
    requires |cluster| == CLUSTER && SlotsHold(disk, kept)
    ensures SlotsHold(WrittenTo(disk, START + 8 * Slot(|kept|, SLOTS), cluster, 8), kept + [cluster])
  {
    hide Slot, Holds, WrittenTo;
    var n, longer := |kept|, kept + [cluster];
    var after := WrittenTo(disk, START + 8 * Slot(n, SLOTS), cluster, 8);
    forall k | 0 <= k < n + 1 && n + 1 - SLOTS <= k ensures Holds(after, Slot(k, SLOTS), longer[k]) {
      if k < n {
        SlotsDiffer(k, n, SLOTS);
        assert Holds(disk, Slot(k, SLOTS), kept[k]);
        OtherSlotKeeps(disk, Slot(n, SLOTS), cluster, Slot(k, SLOTS), kept[k]);
      } else {
        SlotIsFilled(disk, Slot(n, SLOTS), cluster);
      }
    }
  }

  lemma UntouchedStep(disk: Disk, d0: Disk, n: nat, cluster: seq<Byte>)
    requires |cluster| == CLUSTER && Untouched(disk, d0, n)
    ensures Untouched(WrittenTo(disk, START + 8 * Slot(n, SLOTS), cluster, 8), d0, n + 1)
  {
    hide Slot, SectorOf, Reached, WrittenTo;
    var after := WrittenTo(disk, START + 8 * Slot(n, SLOTS), cluster, 8);
    forall p | !Reached(p, n + 1) ensures after[p] == d0[p] {
      ReachedGrows(p, n);
      WrittenAt(disk, START + 8 * Slot(n, SLOTS), cluster, 8, p);
    }
  }

  /** The cursor follows the slots. */
  lemma NextLbaIsNextSlot(n: int)
    ensures NextLba(START + 8 * Slot(n, SLOTS)) == START + 8 * Slot(n + 1, SLOTS)
  {
    NextItem(n, SLOTS);
    SlotInRange(n, SLOTS);
  }

  /** An entry that does not fill the buffer joins the tail. */
  lemma {:induction false} HistoryGrows(es: seq<Entry>, e: Entry)
    requires |es| % 16 < 15
    ensures (|es| + 1) % 16 == |es| % 16 + 1
    ensures Tail(es + [e]) == Tail(es) + [e] && Flushed(es + [e]) == Flushed(es)
  {
    var q := |es| / 16;
    DivModIs(|es| + 1, 16, q, |es| % 16 + 1);
    KeptOfLonger(es, e, q);
  }

  /** The sixteenth entry empties the tail, into the kept clusters if a drive answered. */
  lemma {:induction false} HistoryTurns(es: seq<Entry>, e: Entry)
    requires |es| % 16 == 15
    ensures (|es| + 1) % 16 == 0 && Tail(es + [e]) == []
    ensures Flushed(es + [e]) == if e.present then Flushed(es) + [Flat(Tail(es) + [e])] else Flushed(es)
  {
    hide Flat;
    var q := |es| / 16;
    DivModIs(|es| + 1, 16, q + 1, 0);
    KeptOfLonger(es, e, q);
    assert Group(es + [e], q) == Tail(es) + [e];
  }

  lemma StoredPrefix(ram: seq<Byte>, idx: int, block: Block256)
    requires |ram| == CLUSTER && 0 <= idx < 16
    ensures Stored(ram, idx, block)[..SIZE * (idx + 1)] == ram[..SIZE * idx] + block
  {
  }

  lemma FlatSnoc(es: seq<Entry>, e: Entry)
    ensures Flat(es + [e]) == Flat(es) + e.block
  {
  }

  lemma InvIsSized(st: State, d0: Disk, es: seq<Entry>)
    requires Inv(st, d0, es)
    ensures Sized(st)
  {
    hide DiskHolds, Flushed, Flat;
    SlotInRange(|Flushed(es)|, SLOTS);
  }

  /** Recording one more block keeps the invariant. */
  lemma {:induction false} PutKeeps(st: State, d0: Disk, es: seq<Entry>, e: Entry)
    requires Inv(st, d0, es)
    ensures Sized(st) && Inv(Put(st, e), d0, es + [e])
  {
    hide DiskHolds, Flushed, Flat, Tail, Slot, WrittenTo, NextLba, Stored;
    InvIsSized(st, d0, es);
    if |es| % 16 < 15 {
      HistoryGrows(es, e);
    } else {
      HistoryTurns(es, e);
    }
    FlatSnoc(Tail(es), e);
    StoredPrefix(st.ram, st.idx, e.block);
    var ram := Stored(st.ram, st.idx, e.block);
    assert ram[..SIZE * (st.idx + 1)] == Flat(Tail(es) + [e]);
    if st.idx + 1 == 16 {
      assert ram == ram[..SIZE * 16];
      assert Flat([]) == [];
      if e.present {
        DiskStep(st.disk, d0, Flushed(es), ram);
        NextLbaIsNextSlot(|Flushed(es)|);
      }
    }
  }

  ghost function Run(st: State, es: seq<Entry>): (r: State)
    requires Sized(st)
    ensures Sized(r)
  {
    if es == [] then st else Put(Run(st, es[..|es| - 1]), es[|es| - 1])
  }

  /** After any history, with the drive there or not at each flush, the last 1250 clusters that
      reached it are all on the drive, the unflushed tail is in the buffer, and nothing else changed. */
  lemma {:induction false} RunKeeps(ram: seq<Byte>, disk: Disk, es: seq<Entry>)
    requires |ram| == CLUSTER
    ensures Inv(Run(Initial(ram, disk), es), disk, es)
  {
    if es == [] {
      InitialIsInv(ram, disk);
    } else {
      var n := |es| - 1;
      RunKeeps(ram, disk, es[..n]);
      PutKeeps(Run(Initial(ram, disk), es[..n]), disk, es[..n], es[n]);
      assert es[..n] + [es[n]] == es;
    }
  }

  // ----- reading the recording back

  predicate AllValid(cluster: seq<Byte>)
    requires |cluster| == CLUSTER
  {
    forall j :: 0 <= j < 16 ==> Validates(Block(cluster, j))
  }

  lemma {:induction false} BlockOfFlat(es: seq<Entry>, j: int)
    requires 0 <= j < |es|
    ensures Block(Flat(es), j) == es[j].block
  {
    var n := |es| - 1;
    if j < n {
      BlockOfFlat(es[..n], j);
      assert Block(Flat(es), j) == Block(Flat(es[..n]), j);
    }
  }

  /** Clusters made of valid blocks are all valid. */
  lemma {:induction false} KeptAreValid(es: seq<Entry>, g: int, k: int)
    requires 0 <= 16 * g <= |es| && 0 <= k < |Kept(es, g)|
    requires forall i :: 0 <= i < |es| ==> Validates(es[i].block)
    ensures AllValid(Kept(es, g)[k])
    decreases g
  {
    hide Validates, Flat;
    if k < |Kept(es, g - 1)| {
      KeptAreValid(es, g - 1, k);
    } else {
      var cluster := Flat(Group(es, g - 1));
      forall j | 0 <= j < 16 ensures Validates(Block(cluster, j)) {
        BlockOfFlat(Group(es, g - 1), j);
        assert es[16 * (g - 1) + j] == Group(es, g - 1)[j];
      }
    }
  }

  lemma BlockOfSector(cluster: seq<Byte>, s: int, b: int)
    requires |cluster| == CLUSTER && 0 <= s < 8 && 0 <= b < 2
    ensures Block(SectorOf(cluster, s), b) == Block(cluster, 2 * s + b)
  {
    var x, y := Block(SectorOf(cluster, s), b), Block(cluster, 2 * s + b);
    forall i | 0 <= i < SIZE ensures x[i] == y[i] {
      assert x[i] == SectorOf(cluster, s)[SIZE * b + i] == cluster[SECTOR * s + SIZE * b + i];
    }
  }

  /** Block j of a recorded slot, as the block reader finds it. */
  lemma SlotBlock(disk: Disk, slot: int, cluster: seq<Byte>, j: int)
    requires |cluster| == CLUSTER && 0 <= j < 16 && 0 <= slot < SLOTS && Holds(disk, slot, cluster)
    ensures BlockAt(disk, START + 8 * slot, j) == Block(cluster, j)
  {
    var lba, s := START + 8 * slot, j / 2;
    assert Place(lba, s) == lba + s by {
      PlaceIsRemainder(lba, s);
      DivModIs(lba + s, 0x1000_0000, 0, lba + s);
    }
    hide Place;
    assert disk[lba + s] == SectorOf(cluster, s);
    BlockOfSector(cluster, s, j % 2);
    assert j == 2 * s + j % 2;
  }

  /** If only valid blocks were recorded, the block reader finds sixteen valid blocks in every retained
      cluster and hands back exactly its bytes. */
  lemma {:induction false} RetainedReadsBack(st: State, d0: Disk, es: seq<Entry>, k: nat,
                                             before: seq<Byte>, after: seq<Byte>)
    requires Inv(st, d0, es) && forall i :: 0 <= i < |es| ==> Validates(es[i].block)
    requires |Flushed(es)| - SLOTS <= k < |Flushed(es)| && |before| == |after| == CLUSTER
    requires ReadTo(st.disk, START + 8 * Slot(k, SLOTS), before, after, 16)
    ensures ValidBefore(st.disk, START + 8 * Slot(k, SLOTS), 16) == 16
    ensures after == Flushed(es)[k]
  {
    hide Validates, BlockAt, Holds, Slot, ValidBefore, ValidBlocks, Flat, Tail, Kept, Untouched;
    var cluster, lba := Flushed(es)[k], START + 8 * Slot(k, SLOTS);
    KeptAreValid(es, |es| / 16, k);
    assert Holds(st.disk, Slot(k, SLOTS), cluster);
    SlotInRange(k, SLOTS);
    hide Flushed, ReadTo;
    ReadIsBlocks(st.disk, lba, before, after);
    forall j | 0 <= j < 16 ensures BlockAt(st.disk, lba, j) == Block(cluster, j) {
      SlotBlock(st.disk, Slot(k, SLOTS), cluster, j);
    }
    CountsAgree(st.disk, lba, cluster, 16);
    AllCount(cluster, 16);
    SameBlocks(after, cluster);
  }

  lemma {:induction false} FlatAt(es: seq<Entry>, j: nat, q: nat)
    requires j < |es| && q < 256
    ensures 256 * j + q < |Flat(es)| && Flat(es)[256 * j + q] == es[j].block[q]
    decreases |es|
  {
    if j < |es| - 1 {
      FlatAt(es[..|es| - 1], j, q);
    }
  }

  /** Where each byte of each block of the recording is, counted from the start of the drive: while a drive
      is there block j of the g-th sixteen is in half j mod 2 of sector 3000 + 8 * (g mod 1250) + j / 2, unless
      1250 later clusters are there. */
  lemma RecordedBytes(ram: seq<Byte>, disk: Disk, es: seq<Entry>, g: nat, j: nat, q: nat)
    requires |ram| == 4096 && (forall i :: 0 <= i < |es| ==> es[i].present) && j < 16 && q < 256
    requires 16 * g + 16 <= |es| && |es| / 16 - 1250 <= g
    ensures Run(Initial(ram, disk), es).disk[3000 + 8 * (g % 1250) + j / 2][j % 2 * 256 + q]
         == es[16 * g + j].block[q]
  {
    hide Run, Inv, Put, Flush, Kept, Flushed, Group, Holds, Tail, IsBlock, IsSector;
    RunKeeps(ram, disk, es);
    HeldByte(Run(Initial(ram, disk), es), disk, es, g, j, q);
  }

  lemma HeldByte(st: State, d0: Disk, es: seq<Entry>, g: nat, j: nat, q: nat)
    requires Inv(st, d0, es) && (forall i :: 0 <= i < |es| ==> es[i].present) && j < 16 && q < 256
    requires 16 * g + 16 <= |es| && |es| / 16 - 1250 <= g
    ensures st.disk[3000 + 8 * (g % 1250) + j / 2][j % 2 * 256 + q] == es[16 * g + j].block[q]
  {
    hide Inv, Holds, Group, Flat, Kept, Flushed;
    FullGroup(es, g);
    KeptIsHeld(st, d0, es, g);
    ClusterByte(st.disk, g % 1250, Flat(Group(es, g)), j, q);
    GroupEntry(es, g, j);
    FlatAt(Group(es, g), j, q);
  }

  lemma GroupEntry(es: seq<Entry>, g: nat, j: nat)
    requires 16 * g + 16 <= |es| && j < 16
    ensures Group(es, g)[j] == es[16 * g + j]
  {
  }

  lemma FullGroup(es: seq<Entry>, g: nat)
    requires (forall i :: 0 <= i < |es| ==> es[i].present) && g < |es| / 16
    ensures |Flushed(es)| == |es| / 16 && 16 * g + 16 <= |es| && Flushed(es)[g] == Flat(Group(es, g))
  {
    AllKept(es, |es| / 16);
  }

  lemma KeptIsHeld(st: State, d0: Disk, es: seq<Entry>, g: nat)
    requires Inv(st, d0, es) && g < |Flushed(es)| && |Flushed(es)| - 1250 <= g
    ensures Holds(st.disk, g % 1250, Flushed(es)[g])
  {
    hide Holds, Untouched;
    assert Holds(st.disk, Slot(g, SLOTS), Flushed(es)[g]);
  }

  lemma ClusterByte(disk: Disk, slot: int, cluster: seq<Byte>, j: nat, q: nat)
    requires |cluster| == CLUSTER && Holds(disk, slot, cluster) && j < 16 && q < 256
    ensures disk[3000 + 8 * slot + j / 2][j % 2 * 256 + q] == cluster[256 * j + q]
  {
    assert disk[START + 8 * slot + j / 2] == SectorOf(cluster, j / 2);
    assert 512 * (j / 2) + (j % 2 * 256 + q) == 256 * j + q;
  }

  /** What a read of one cluster leaves, block by block. */
  lemma ReadIsBlocks(disk: Disk, lba: int, before: seq<Byte>, after: seq<Byte>)
    requires |before| == |after| == CLUSTER && ReadTo(disk, lba, before, after, 16)
    ensures forall j :: 0 <= j < 16 && Validates(BlockAt(disk, lba, j)) ==> Block(after, j) == BlockAt(disk, lba, j)
  {
    hide Validates, BlockAt, Block;
  }

  lemma SameBlocks(a: seq<Byte>, b: seq<Byte>)
    requires |a| == |b| == CLUSTER && forall j :: 0 <= j < 16 ==> Block(a, j) == Block(b, j)
    ensures a == b
  {
    forall i | 0 <= i < CLUSTER ensures a[i] == b[i] {
      assert Block(a, i / SIZE)[i % SIZE] == Block(b, i / SIZE)[i % SIZE];
    }
  }

  // ----- the packet scanner

  /** A valid block in the first len bytes of a packet. */
  predicate Window(data: seq<Byte>, len: int, k: int)
    requires len <= |data|
  {
    0 <= k && k + SIZE <= len && Validates(data[k..k + SIZE])
  }

  /** at is the first valid window, or negative when there is none. */
  ghost predicate Leftmost(data: seq<Byte>, len: int, at: int)
    requires len <= |data|
  {
    && (at < 0 ==> forall k :: !Window(data, len, k))
    && (at >= 0 ==> Window(data, len, at) && forall k :: 0 <= k < at ==> !Window(data, len, k))
  }

  /** A packet is recorded from place k, by its bytes, exactly when 256 bytes from there on are a block. */
  lemma WindowIff(data: seq<Byte>, len: nat, k: nat)
    requires len <= |data|
    ensures Window(data, len, k) <==>
              k + 256 <= len && data[k] == 0x2A && data[k + 255] == 0xFF && AllEven(data[k..k + 255])
  {
    hide AllEven, Validates;
    if k + 256 <= len {
      AcceptedIff(data[k..k + 256]);
      assert data[k..k + 256][..255] == data[k..k + 255];
    }
  }

  // ----- where recorded blocks come from

  /** What reaches the recorder: a frame to build a block of, or a packet of which `len` bytes arrived. */
  datatype Arrival = Recorded(frame: Frame, present: bool) | Packet(data: seq<Byte>, len: nat, present: bool)

  predicate IsArrival(a: Arrival) { a.Packet? ==> a.len <= |a.data| }

  /** The first valid window from k on, or -1. */
  function FirstWindow(data: seq<Byte>, len: nat, k: nat): (at: int)
    requires len <= |data|
    ensures at < 0 ==> forall j :: k <= j ==> !Window(data, len, j)
    ensures at >= 0 ==> at + SIZE <= len && |data[at..at + SIZE]| == SIZE
    ensures at >= 0 ==> k <= at && Window(data, len, at) && forall j :: k <= j < at ==> !Window(data, len, j)
    decreases len - k
  {
    if k + SIZE > len then -1 else if Window(data, len, k) then k else FirstWindow(data, len, k + 1)
  }

  /** The entry an arrival adds to the history, if it adds one. */
  function EntryOf(a: Arrival): seq<Entry>
    requires IsArrival(a)
  {
    match a
    case Recorded(f, present) => BuiltValidates(f); [Entry(Built(f), present)]
    case Packet(data, len, present) =>
      var at := FirstWindow(data, len, 0);
      if at < 0 then [] else [Entry(data[at..at + SIZE], present)]
  }

  function History(arrivals: seq<Arrival>): seq<Entry>
    requires forall a :: a in arrivals ==> IsArrival(a)
  {
    if arrivals == [] then [] else History(arrivals[..|arrivals| - 1]) + EntryOf(arrivals[|arrivals| - 1])
  }

  /** Whatever frames and packets arrive, only valid blocks are recorded. */
  lemma {:induction false} OnlyValidBlocks(arrivals: seq<Arrival>)
    requires forall a :: a in arrivals ==> IsArrival(a)
    ensures forall i :: 0 <= i < |History(arrivals)| ==> Validates(History(arrivals)[i].block)
  {
    hide Validates, Built;
    if arrivals != [] {
      var a := arrivals[|arrivals| - 1];
      OnlyValidBlocks(arrivals[..|arrivals| - 1]);
      if a.Recorded? {
        BuiltValidates(a.frame);
      }
    }
  }

  /** So after any frames and packets every retained cluster reads back as sixteen valid blocks, byte for byte. */
  lemma ArrivalsReadBack(ram: seq<Byte>, disk: Disk, arrivals: seq<Arrival>, k: nat,
                         before: seq<Byte>, after: seq<Byte>)
    requires |ram| == CLUSTER && forall a :: a in arrivals ==> IsArrival(a)
    requires |Flushed(History(arrivals))| - SLOTS <= k < |Flushed(History(arrivals))|
    requires |before| == |after| == CLUSTER
    requires ReadTo(Run(Initial(ram, disk), History(arrivals)).disk, START + 8 * Slot(k, SLOTS), before, after, 16)
    ensures ValidBefore(Run(Initial(ram, disk), History(arrivals)).disk, START + 8 * Slot(k, SLOTS), 16) == 16
    ensures after == Flushed(History(arrivals))[k]
  {
    hide Validates, Inv, Flushed, ReadTo, ValidBefore, Run, History, Slot;
    RunKeeps(ram, disk, History(arrivals));
    OnlyValidBlocks(arrivals);
    RetainedReadsBack(Run(Initial(ram, disk), History(arrivals)), disk, History(arrivals), k, before, after);
  }

  /** The scanner finds exactly the window that counts. */
  lemma LeftmostIsFirst(data: seq<Byte>, len: nat, at: int)
    requires len <= |data| && Leftmost(data, len, at)
    ensures at < 0 ==> FirstWindow(data, len, 0) < 0
    ensures at >= 0 ==> FirstWindow(data, len, 0) == at && at + SIZE <= len
  {
    hide Validates;
    var first := FirstWindow(data, len, 0);
  }

  // ----- the code

  class Recorder {
    const ramBuffer: array<Byte>
    var blockIdx: int
    var lba: int
    var disk: Disk

    ghost function Abs(): State
      reads this, ramBuffer
    {
      State(ramBuffer[..], blockIdx, lba, disk)
    }

    constructor (d: Disk)
      ensures Inv(Abs(), d, []) && disk == d && fresh(ramBuffer)
    {
      ramBuffer := new Byte[CLUSTER];
      blockIdx := 0;
      lba := START;
      disk := d;
      new;
      InitialIsInv(ramBuffer[..], d);
    }

    /** ahci_write of one sector of the buffer. */
    method AhciWrite(s: int)
      requires ramBuffer.Length == CLUSTER && 0 <= s < 8
      modifies this`disk
      ensures disk == old(disk)[lba + s := SectorOf(ramBuffer[..], s)]
    {
      disk := disk[lba + s := ramBuffer[SECTOR * s..SECTOR * s + SECTOR]];
    }

    /** The eight sector writes of a flush. */
    method WriteSectors()
      requires ramBuffer.Length == CLUSTER
      modifies this`disk
      ensures disk == WrittenTo(old(disk), lba, ramBuffer[..], 8)
    {
      hide WrittenTo, SectorOf;
      ghost var d, ram := disk, ramBuffer[..];
      WrittenStep(d, lba, ram, 0);
      for s := 0 to 8
        modifies this`disk
        invariant disk == WrittenTo(d, lba, ram, s)
      {
        WrittenStep(d, lba, ram, s);
        AhciWrite(s);
      }
    }

    /** tba_flush_to_disk. */
    method FlushToDisk(present: bool)
      requires ramBuffer.Length == CLUSTER
      modifies this`blockIdx, this`lba, this`disk
      ensures Abs() == Flush(old(Abs()), present)
    {
      hide WrittenTo;
      if !present {
        blockIdx := 0;
        return;
      }
      WriteSectors();
      lba := lba + 8;
      blockIdx := 0;
      if lba >= END {
        lba := START;
      }
    }

    /** tba_record_frame. */
    method RecordFrame(f: Frame, present: bool, ghost d0: Disk, ghost es: seq<Entry>)
      requires Inv(Abs(), d0, es)
      modifies this`blockIdx, this`lba, this`disk, ramBuffer
      ensures Inv(Abs(), d0, es + EntryOf(Recorded(f, present)))
    {
      hide Inv, Put, Flush, Built, Stored;
      BuiltValidates(f);
      InvIsSized(Abs(), d0, es);
      ghost var before := Abs();
      PutKeeps(before, d0, es, Entry(Built(f), present));
      CosmosBlock.Build(ramBuffer, blockIdx * SIZE, f);
      BufferIsStored(before.ram, blockIdx, Built(f), ramBuffer[..]);
      Advance(present, before, Built(f));
    }

    /** The cursor moves on, and a full buffer is flushed. */
    method Advance(present: bool, ghost before: State, ghost block: Block256)
      requires Sized(before) && Abs() == before.(ram := Stored(before.ram, before.idx, block))
      modifies this`blockIdx, this`lba, this`disk
      ensures Abs() == Put(before, Entry(block, present))
    {
      blockIdx := blockIdx + 1;
      if blockIdx == 16 {
        FlushToDisk(present);
      }
    }

    /** tba_master_stream. */
    method MasterStream(payload: array<Byte>, at: nat, present: bool, ghost d0: Disk, ghost es: seq<Entry>)
      requires payload != ramBuffer && at + SIZE <= payload.Length && Inv(Abs(), d0, es)
      modifies this`blockIdx, this`lba, this`disk, ramBuffer
      ensures Inv(Abs(), d0, es + [Entry(payload[at..at + SIZE], present)])
    {
      hide Inv, Put, Flush, Stored;
      InvIsSized(Abs(), d0, es);
      ghost var before, block := Abs(), payload[at..at + SIZE];
      PutKeeps(before, d0, es, Entry(block, present));
      for i := 0 to SIZE
        modifies ramBuffer
        invariant ramBuffer[blockIdx * SIZE..blockIdx * SIZE + i] == payload[at..at + i]
        invariant OnlyBlock(ramBuffer, blockIdx * SIZE)
      {
        ramBuffer[blockIdx * SIZE + i] := payload[at + i];
      }
      BufferIsStored(before.ram, blockIdx, block, ramBuffer[..]);
      Advance(present, before, block);
    }

    /** net_handle_cosmos_packet: the leftmost valid window, if there is one, joins the recording. */
    method HandlePacket(data: array<Byte>, len: nat, present: bool, ghost d0: Disk, ghost es: seq<Entry>)
      returns (at: int)
      requires data != ramBuffer && len <= data.Length && Inv(Abs(), d0, es)
      modifies this`blockIdx, this`lba, this`disk, ramBuffer
      ensures Leftmost(data[..], len, at)
      ensures Inv(Abs(), d0, es + EntryOf(Packet(data[..], len, present)))
    {
      hide Inv, Window, FirstWindow;
      at := Scan(data, len);
      LeftmostIsFirst(data[..], len, at);
      assert es + [] == es;
      if at >= 0 {
        assert data[..][at..at + SIZE] == data[at..at + SIZE];
        MasterStream(data, at, present, d0, es);
      }
    }
  }

  /** The scanner's loop up to its break. */
  method Scan(data: array<Byte>, len: nat) returns (at: int)
    requires len <= data.Length
    ensures Leftmost(data[..], len, at)
  {
    var k := 0;
    while k < len - 255
      invariant 0 <= k
      invariant forall j :: 0 <= j < k ==> !Window(data[..], len, j)
    {
      assert data[..][k..k + SIZE] == data[k..k + SIZE];
      if data[k] == ANCHOR && data[k + 255] == FOOTER {
        var ok := CosmosBlock.Validate(data, k);
        if ok {
          return k;
        }
      }
      k := k + 1;
    }
    return -1;
  }

  lemma BufferIsStored(ram: seq<Byte>, idx: int, block: Block256, after: seq<Byte>)
    requires |ram| == |after| == CLUSTER && 0 <= idx < 16
    requires after[idx * SIZE..idx * SIZE + SIZE] == block
    requires forall i :: 0 <= i < CLUSTER && !(idx * SIZE <= i < idx * SIZE + SIZE) ==> after[i] == ram[i]
    ensures after == Stored(ram, idx, block)
  {
  }
}
