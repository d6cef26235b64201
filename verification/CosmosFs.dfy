/** The block reader and writer of cosmos_fs.cpp: two 256-byte blocks to a 512-byte sector. */
module CosmosFs {
  import Arith
  import opened CosmosBlock
  import opened DiskLayout

  type Sector = s: seq<Byte> | IsSector(s) witness seq(SECTOR, _ => 0)

  function Blank(): Sector { seq(SECTOR, _ => 0) }

  ghost predicate EverySector(m: imap<int, Sector>) { forall lba :: lba in m }

  /** A drive that completes every command; what it holds at the start is arbitrary. */
  type Disk = m: imap<int, Sector> | EverySector(m) ghost witness (imap lba: int :: Blank())

  /** The sector i places after lba: the cursor is 32 bits wide, the drive takes 28 of them. */
  function Place(lba: int, i: int): int { Cursor(lba, i) % 0x1000_0000 }

  /** The 32-bit cursor i sectors on. */
  function Cursor(lba: int, i: int): int { (lba + i) % 0x1_0000_0000 }

  function Next(lba: int): int { (lba + 1) % 0x1_0000_0000 }

  /** Where the cursor wraps does not matter to the drive. */
  lemma PlaceIsRemainder(lba: int, i: int)
    ensures Place(lba, i) == (lba + i) % 0x1000_0000
  {
    var x := lba + i;
    Arith.DivTwice(x, 0x1000_0000, 16, 0x1_0000_0000);
    Arith.DivModIs(x % 0x1_0000_0000, 0x1000_0000, x / 0x1000_0000 % 16, x % 0x1000_0000);
  }

  /** Up to 2^28 consecutive sectors are pairwise different. */
  lemma PlacesDiffer(lba: int, i: int, j: int)
    requires 0 <= i < 0x1000_0000 && 0 <= j < 0x1000_0000 && Place(lba, i) == Place(lba, j)
    ensures i == j
  {
    PlaceIsRemainder(lba, i);
    PlaceIsRemainder(lba, j);
    hide Place;
    var a, b := (lba + i) / 0x1000_0000, (lba + j) / 0x1000_0000;
    if a < b {
      Arith.MulStep(a, b, 0x1000_0000);
    } else if b < a {
      Arith.MulStep(b, a, 0x1000_0000);
    }
  }

  /** How many sectors n blocks take. */
  function Sectors(n: int): int { if n <= 0 then 0 else (n + 1) / 2 }

  function Block(bytes: seq<Byte>, k: int): seq<Byte>
    requires 0 <= k && SIZE * k + SIZE <= |bytes|
  {
    bytes[SIZE * k..SIZE * k + SIZE]
  }

  /** Block k of the drive, counted from the start of sector lba. */
  ghost function BlockAt(disk: Disk, lba: int, k: int): (b: seq<Byte>)
    requires 0 <= k
    ensures IsBlock(b)
  {
    Block(disk[Place(lba, k / 2)], k % 2)
  }

  // ----- what a write leaves behind

  /** The sector holding blocks 2i and 2i + 1 of n blocks; an odd last block is padded with zeros. */
  predicate HoldsBlocks(s: Sector, bytes: seq<Byte>, n: int, i: int)
    requires 0 <= i < Sectors(n) && SIZE * n <= |bytes|
  {
    && Block(s, 0) == Block(bytes, 2 * i)
    && (2 * i + 1 < n ==> Block(s, 1) == Block(bytes, 2 * i + 1))
    && (2 * i + 1 >= n ==> forall k :: SIZE <= k < SECTOR ==> s[k] == 0)
  }

  predicate Within(place: int, lba: int, m: int) { exists i :: 0 <= i < m && place == Place(lba, i) }

  /** The first m sectors of a write of n blocks done, and no other sector touched. */
  ghost predicate WroteTo(before: Disk, after: Disk, lba: int, bytes: seq<Byte>, n: int, m: int)
    requires 0 <= m <= Sectors(n) && SIZE * n <= |bytes|
  {
    && (forall i :: 0 <= i < m ==> HoldsBlocks(after[Place(lba, i)], bytes, n, i))
    && (forall place :: !Within(place, lba, m) ==> after[place] == before[place])
  }

  lemma {:induction false} WroteStep(before: Disk, disk: Disk, lba: int, bytes: seq<Byte>, n: int, m: int, s: Sector)
    requires 0 <= m < Sectors(n) && SIZE * n <= |bytes| && n < 0x80_0000
    requires WroteTo(before, disk, lba, bytes, n, m) && HoldsBlocks(s, bytes, n, m)
    ensures WroteTo(before, disk[Place(lba, m) := s], lba, bytes, n, m + 1)
  {
    hide Place, HoldsBlocks;
    var after := disk[Place(lba, m) := s];
    forall i | 0 <= i < m + 1 ensures HoldsBlocks(after[Place(lba, i)], bytes, n, i) {
      if i != m && Place(lba, i) == Place(lba, m) {
        PlacesDiffer(lba, i, m);
      }
    }
    WithinGrows(Place(lba, m), lba, m);
    forall place | !Within(place, lba, m + 1) ensures after[place] == before[place] {
      WithinGrows(place, lba, m);
    }
  }

  lemma WithinGrows(place: int, lba: int, m: int)
    ensures Within(place, lba, m) ==> Within(place, lba, m + 1)
    ensures 0 <= m ==> Within(Place(lba, m), lba, m + 1)
  {
  }

  // ----- what a read leaves behind

  ghost function ValidBefore(disk: Disk, lba: int, n: int): (count: int)
    ensures n <= 0 ==> count == 0
    ensures 0 <= n ==> 0 <= count <= n
  {
    if n <= 0 then 0
    else ValidBefore(disk, lba, n - 1) + if Validates(BlockAt(disk, lba, n - 1)) then 1 else 0
  }

  /** Every valid block in its own slot, the caller's bytes where a block is not valid. */
  ghost predicate ReadTo(disk: Disk, lba: int, before: seq<Byte>, after: seq<Byte>, n: int) {
    && SIZE * n <= |before| == |after|
    && (forall k :: 0 <= k < n ==>
          Block(after, k) == if Validates(BlockAt(disk, lba, k)) then BlockAt(disk, lba, k) else Block(before, k))
    && (forall j :: 0 <= j < |after| && j >= SIZE * n ==> after[j] == before[j])
  }

  lemma {:induction false} ReadStep(disk: Disk, lba: int, before: seq<Byte>, now: seq<Byte>, after: seq<Byte>, n: nat)
    requires SIZE * (n + 1) <= |before| == |now| == |after|
    requires ReadTo(disk, lba, before, now, n)
    requires Block(after, n) == if Validates(BlockAt(disk, lba, n)) then BlockAt(disk, lba, n) else Block(now, n)
    requires forall j :: 0 <= j < |after| && !(SIZE * n <= j < SIZE * n + SIZE) ==> after[j] == now[j]
    ensures ReadTo(disk, lba, before, after, n + 1)
  {
    hide BlockAt, Validates;
    assert Block(now, n) == Block(before, n);
    forall k | 0 <= k < n ensures Block(after, k) == Block(now, k) {
    }
  }

  /** After a write of n blocks block k is found at its place, for even and odd n. */
  lemma {:induction false} ReadAfterWrite(d0: Disk, d1: Disk, lba: int, bytes: seq<Byte>, n: nat, k: nat)
    requires SIZE * n <= |bytes| && n < 0x80_0000 && k < n
    requires WroteTo(d0, d1, lba, bytes, n, Sectors(n))
    ensures BlockAt(d1, lba, k) == Block(bytes, k)
  {
  }

  /** Where each byte of a write goes: block k is half k mod 2 of the sector k / 2 places on, modulo 2^28. */
  lemma WrittenBytes(d0: Disk, d1: Disk, lba: int, bytes: seq<Byte>, n: nat, k: nat, q: nat)
    requires 256 * n <= |bytes| && n < 0x80_0000 && k < n && q < 256
    requires WroteTo(d0, d1, lba, bytes, n, Sectors(n))
    ensures d1[(lba + k / 2) % 0x1000_0000][k % 2 * 256 + q] == bytes[256 * k + q]
  {
    hide WroteTo, Place;
    ReadAfterWrite(d0, d1, lba, bytes, n, k);
    PlaceIsRemainder(lba, k / 2);
    HalfByte(d1[Place(lba, k / 2)], k % 2, q);
    assert Block(bytes, k)[q] == bytes[256 * k + q];
  }

  lemma HalfByte(s: Sector, half: int, q: nat)
    requires 0 <= half < 2 && q < 256
    ensures Block(s, half)[q] == s[half * 256 + q]
  {
  }

  /** The number of blocks among the first n that validate. */
  function ValidBlocks(bytes: seq<Byte>, n: int): (count: int)
    requires SIZE * n <= |bytes|
    ensures 0 <= n ==> 0 <= count <= n
  {
    if n <= 0 then 0 else ValidBlocks(bytes, n - 1) + if Validates(Block(bytes, n - 1)) then 1 else 0
  }

  lemma {:induction false} CountsAgree(disk: Disk, lba: int, bytes: seq<Byte>, n: nat)
    requires SIZE * n <= |bytes|
    requires forall k :: 0 <= k < n ==> BlockAt(disk, lba, k) == Block(bytes, k)
    ensures ValidBefore(disk, lba, n) == ValidBlocks(bytes, n)
  {
    hide BlockAt, Validates;
    if n > 0 {
      CountsAgree(disk, lba, bytes, n - 1);
      assert BlockAt(disk, lba, n - 1) == Block(bytes, n - 1);
    }
  }

  lemma {:induction false} AllCount(bytes: seq<Byte>, n: nat)
    requires SIZE * n <= |bytes|
    ensures ValidBlocks(bytes, n) == n <==> forall k :: 0 <= k < n ==> Validates(Block(bytes, k))
  {
    hide Validates;
    if n > 0 {
      AllCount(bytes, n - 1);
    }
  }

  /** The round trip. */
  lemma RoundTrip(d0: Disk, d1: Disk, lba: int, bytes: seq<Byte>, n: nat, before: seq<Byte>, after: seq<Byte>)
    requires SIZE * n <= |bytes| && SIZE * n <= |before| == |after| && n < 0x80_0000
    requires WroteTo(d0, d1, lba, bytes, n, Sectors(n))
    requires ReadTo(d1, lba, before, after, n)
    ensures forall k :: 0 <= k < n ==>
              Block(after, k) == if Validates(Block(bytes, k)) then Block(bytes, k) else Block(before, k)
    ensures ValidBefore(d1, lba, n) == ValidBlocks(bytes, n)
    ensures ValidBefore(d1, lba, n) == n <==> forall k :: 0 <= k < n ==> Validates(Block(bytes, k))
  {
    hide Validates, BlockAt, WroteTo, Block;
    forall k | 0 <= k < n ensures BlockAt(d1, lba, k) == Block(bytes, k) {
      ReadAfterWrite(d0, d1, lba, bytes, n, k);
    }
    CountsAgree(d1, lba, bytes, n);
    AllCount(bytes, n);
  }

  // ----- the code

  class FileSystem {
    const hddBuf: array<Byte>
    var drives: seq<Disk>

    ghost predicate Valid()
      reads this
    {
      hddBuf.Length == SECTOR
    }

    constructor (ds: seq<Disk>)
      ensures Valid() && drives == ds && fresh(hddBuf)
    {
      hddBuf := new Byte[SECTOR];
      drives := ds;
    }

    /** Zero hdd_buf and copy `count` blocks of the array into it. */
    method FillSector(blocks: array<Byte>, pos: nat, count: int)
      requires Valid() && blocks != hddBuf && 0 < count <= 2 && pos + SIZE * count <= blocks.Length
      modifies hddBuf
      ensures hddBuf[..SIZE * count] == blocks[pos..pos + SIZE * count]
      ensures forall k :: SIZE * count <= k < SECTOR ==> hddBuf[k] == 0
    {
      for i := 0 to SECTOR
        invariant forall k :: 0 <= k < i ==> hddBuf[k] == 0
      {
        hddBuf[i] := 0;
      }
      var arrayPos := pos;
      for b := 0 to count
        invariant arrayPos == pos + SIZE * b
        invariant forall k :: 0 <= k < SIZE * b ==> hddBuf[k] == blocks[pos + k]
        invariant forall k :: SIZE * b <= k < SECTOR ==> hddBuf[k] == 0
      {
        for i := 0 to SIZE
          invariant arrayPos == pos + SIZE * b + i
          invariant forall k :: 0 <= k < SIZE * b + i ==> hddBuf[k] == blocks[pos + k]
          invariant forall k :: SIZE * b + i <= k < SECTOR ==> hddBuf[k] == 0
        {
          hddBuf[b * SIZE + i] := blocks[arrayPos];
          arrayPos := arrayPos + 1;
        }
      }
    }

    /** ata_write_sector: the drive takes the low 28 bits of the address. */
    method AtaWrite(drive: int, lba: int)
      requires Valid() && 0 <= drive < |drives|
      modifies this`drives
      ensures drives == old(drives)[drive := old(drives)[drive][lba % 0x1000_0000 := hddBuf[..]]]
    {
      drives := drives[drive := drives[drive][lba % 0x1000_0000 := hddBuf[..]]];
    }

    /** Fill sector m of a write and store it. */
    method WriteSector(drive: int, lba: int, blocks: array<Byte>, pos: nat, count: int,
                       ghost startLba: int, ghost n: int, ghost all: seq<Disk>, ghost disk: Disk, ghost m: nat)
      returns (ghost after: Disk)
      requires Valid() && blocks != hddBuf && 0 <= drive < |all| && drives == all[drive := disk]
      requires n < 0x80_0000 && SIZE * n <= blocks.Length && m < Sectors(n)
      requires count == (if n - 2 * m > 2 then 2 else n - 2 * m) && count > 0
      requires pos == 2 * SIZE * m && pos + SIZE * count <= blocks.Length && lba == Cursor(startLba, m)
      requires WroteTo(all[drive], disk, startLba, blocks[..], n, m)
      modifies this`drives, hddBuf
      ensures drives == all[drive := after] && WroteTo(all[drive], after, startLba, blocks[..], n, m + 1)
    {
      hide WroteTo, HoldsBlocks, Place, Cursor, Block, Sectors;
      ghost var bytes := blocks[..];
      FillSector(blocks, pos, count);
      assert blocks[..] == bytes;
      SectorIsFilled(hddBuf[..], bytes, n, m, count);
      WroteStep(all[drive], disk, startLba, bytes, n, m, hddBuf[..]);
      PlaceIs(startLba, m);
      AtaWrite(drive, lba);
      after := disk[Place(startLba, m) := hddBuf[..]];
    }

    /** fs_write_cosmos_blocks. */
    method WriteBlocks(drive: int, startLba: nat, blocks: array<Byte>, numBlocks: int)
      requires Valid() && blocks != hddBuf && startLba < 0x1_0000_0000
      requires numBlocks < 0x80_0000 && SIZE * numBlocks <= blocks.Length
      modifies this`drives, hddBuf
      ensures !(0 <= drive < |old(drives)|) ==> drives == old(drives)
      ensures 0 <= drive < |old(drives)| ==>
                && |drives| == |old(drives)| && drives == old(drives)[drive := drives[drive]]
                && WroteTo(old(drives)[drive], drives[drive], startLba, blocks[..], numBlocks, Sectors(numBlocks))
    {
      if drive < 0 || drive >= |drives| {
        return;
      }
      hide WroteTo, HoldsBlocks, Place, Cursor, Next, Sectors, Block;
      PlaceIs(startLba, 0);
      ghost var bytes, all, disk := blocks[..], drives, drives[drive];
      WroteNothing(disk, startLba, bytes, numBlocks);
      SectorCount(numBlocks, 0);
      var arrayPos, lba, left := 0, startLba, numBlocks;
      ghost var m := 0;
      while left > 0
        modifies this`drives, hddBuf
        invariant 0 <= m <= Sectors(numBlocks)
        invariant left > 0 ==> left == numBlocks - 2 * m && arrayPos == 2 * SIZE * m
        invariant left <= 0 ==> m == Sectors(numBlocks)
        invariant lba == Cursor(startLba, m)
        invariant blocks[..] == bytes
        invariant drives == all[drive := disk]
        invariant WroteTo(all[drive], disk, startLba, bytes, numBlocks, m)
      {
        SectorCount(numBlocks, m);
        var count := if left > 2 then 2 else left;
        disk := WriteSector(drive, lba, blocks, arrayPos, count, startLba, numBlocks, all, disk, m);
        PlaceIs(startLba, m);
        arrayPos := arrayPos + SIZE * count;
        left := left - count;
        lba := Next(lba);
        m := m + 1;
      }
    }

    /** ata_read_sector. */
    method AtaRead(drive: int, lba: int)
      requires Valid() && 0 <= drive < |drives|
      modifies hddBuf
      ensures hddBuf[..] == drives[drive][lba % 0x1000_0000]
    {
      ghost var sector := drives[drive][lba % 0x1000_0000];
      forall i | 0 <= i < SECTOR {
        hddBuf[i] := drives[drive][lba % 0x1000_0000][i];
      }
      assert hddBuf[..] == sector;
    }

    /** Copy block b of hdd_buf into the array at pos when it validates. */
    method TakeBlock(b: int, blocks: array<Byte>, pos: nat) returns (ok: bool)
      requires Valid() && blocks != hddBuf && 0 <= b < 2 && pos + SIZE <= blocks.Length
      modifies blocks
      ensures ok == Validates(Block(hddBuf[..], b))
      ensures blocks[pos..pos + SIZE] == if ok then Block(hddBuf[..], b) else old(blocks[pos..pos + SIZE])
      ensures OnlyBlock(blocks, pos)
    {
      var temp := new Byte[SIZE];
      CopyBlock(hddBuf, b * SIZE, temp, 0);
      assert temp[..] == temp[0..0 + SIZE] == Block(hddBuf[..], b);
      ok := CosmosBlock.Validate(temp, 0);
      if ok {
        CopyBlock(temp, 0, blocks, pos);
      }
    }

    static method CopyBlock(src: array<Byte>, from: nat, dst: array<Byte>, to: nat)
      requires src != dst && from + SIZE <= src.Length && to + SIZE <= dst.Length
      modifies dst
      ensures dst[to..to + SIZE] == src[from..from + SIZE] && OnlyBlock(dst, to)
    {
      for i := 0 to SIZE
        invariant dst[to..to + i] == src[from..from + i] && OnlyBlock(dst, to)
      {
        dst[to + i] := src[from + i];
      }
    }

    /** Block q of a read, which is block b of the sector in hdd_buf. */
    method TakeNext(b: int, blocks: array<Byte>, pos: nat,
                    ghost disk: Disk, ghost lba: int, ghost before: seq<Byte>, ghost q: nat)
      returns (ok: bool)
      requires Valid() && blocks != hddBuf && 0 <= b < 2 && pos == SIZE * q && pos + SIZE <= blocks.Length
      requires Block(hddBuf[..], b) == BlockAt(disk, lba, q)
      requires ReadTo(disk, lba, before, blocks[..], q)
      modifies blocks
      ensures ReadTo(disk, lba, before, blocks[..], q + 1)
      ensures ok == Validates(BlockAt(disk, lba, q))
    {
      hide BlockAt, Validates, Block;
      ghost var now := blocks[..];
      assert |before| == |now| by { ReadIs(disk, lba, before, now, q); }
      ok := TakeBlock(b, blocks, pos);
      BlockIs(blocks[..], q);
      BlockIs(now, q);
      assert blocks[..][SIZE * q..SIZE * q + SIZE] == blocks[pos..pos + SIZE];
      ReadStep(disk, lba, before, now, blocks[..], q);
    }

    /** The blocks of sector m of a read, one or two. */
    method TakeSector(blocks: array<Byte>, pos: nat, count: int,
                      ghost disk: Disk, ghost lba: int, ghost before: seq<Byte>, ghost m: nat)
      returns (found: int)
      requires Valid() && blocks != hddBuf && 0 < count <= 2
      requires pos == SIZE * (2 * m) && pos + SIZE * count <= blocks.Length
      requires hddBuf[..] == disk[Place(lba, m)]
      requires ReadTo(disk, lba, before, blocks[..], 2 * m)
      modifies blocks
      ensures ReadTo(disk, lba, before, blocks[..], 2 * m + count)
      ensures found == ValidBefore(disk, lba, 2 * m + count) - ValidBefore(disk, lba, 2 * m)
    {
      hide ReadTo, Place, Validates, Block, BlockAt;
      found := 0;
      ghost var n := 2 * m;
      for b := 0 to count
        modifies blocks
        invariant ReadTo(disk, lba, before, blocks[..], n + b)
        invariant found == ValidBefore(disk, lba, n + b) - ValidBefore(disk, lba, n)
      {
        BlockAtIs(disk, lba, n, b);
        var ok := TakeNext(b, blocks, pos + SIZE * b, disk, lba, before, n + b);
        if ok {
          found := found + 1;
        }
      }
    }

    /** Read sector m and take its blocks. */
    method ReadSector(drive: int, lba: int, blocks: array<Byte>, pos: nat, count: int,
                      ghost startLba: int, ghost before: seq<Byte>, ghost m: nat)
      returns (found: int)
      requires Valid() && blocks != hddBuf && 0 < count <= 2 && 0 <= drive < |drives|
      requires lba == Cursor(startLba, m)
      requires pos == SIZE * (2 * m) && pos + SIZE * count <= blocks.Length
      requires ReadTo(drives[drive], startLba, before, blocks[..], 2 * m)
      modifies hddBuf, blocks
      ensures ReadTo(drives[drive], startLba, before, blocks[..], 2 * m + count)
      ensures found == ValidBefore(drives[drive], startLba, 2 * m + count) - ValidBefore(drives[drive], startLba, 2 * m)
    {
      hide ReadTo, Place, Cursor, BlockAt, Block, Validates, ValidBefore;
      ghost var now := blocks[..];
      AtaRead(drive, lba);
      assert blocks[..] == now;
      PlaceIs(startLba, m);
      found := TakeSector(blocks, pos, count, drives[drive], startLba, before, m);
    }

    /** fs_read_cosmos_blocks. */
    method ReadBlocks(drive: int, startLba: nat, blocks: array<Byte>, numBlocks: int) returns (found: int)
      requires Valid() && blocks != hddBuf && startLba < 0x1_0000_0000
      requires numBlocks < 0x80_0000 && SIZE * numBlocks <= blocks.Length
      modifies hddBuf, blocks
      ensures !(0 <= drive < |drives|) ==> found == 0 && blocks[..] == old(blocks[..])
      ensures 0 <= drive < |drives| ==>
                && found == ValidBefore(drives[drive], startLba, numBlocks)
                && ReadTo(drives[drive], startLba, old(blocks[..]), blocks[..], Max0(numBlocks))
    {
      if drive < 0 || drive >= |drives| {
        return 0;
      }
      hide Reading, ReadTo, Cursor, Next, ValidBefore, Max0, Place, BlockAt, Block, Validates;
      ghost var before, disk := blocks[..], drives[drive];
      ReadingStarts(disk, startLba, numBlocks, before);
      ghost var m := 0;
      var arrayPos, lba, left := 0, startLba, numBlocks;
      found := 0;
      while left > 0
        modifies hddBuf, blocks
        invariant drives[drive] == disk
        invariant Reading(disk, startLba, numBlocks, before, blocks[..], m, lba, arrayPos, left, found)
      {
        var count := if left > 2 then 2 else left;
        found := ReadTurn(drive, blocks, lba, arrayPos, left, count, found, startLba, numBlocks, before, m);
        arrayPos := arrayPos + SIZE * count;
        left := left - count;
        lba := Next(lba);
        m := m + 1;
      }
      ReadingEnds(disk, startLba, numBlocks, before, blocks[..], m, lba, arrayPos, left, found);
    }

    /** One turn of the reading loop. */
    method ReadTurn(drive: int, blocks: array<Byte>, lba: int, pos: int, left: int, count: int, found: int,
                    ghost startLba: int, ghost n: int, ghost before: seq<Byte>, ghost m: int)
      returns (total: int)
      requires Valid() && blocks != hddBuf && 0 <= drive < |drives| && SIZE * n <= blocks.Length
      requires left > 0 && count == if left > 2 then 2 else left
      requires Reading(drives[drive], startLba, n, before, blocks[..], m, lba, pos, left, found)
      modifies hddBuf, blocks
      ensures 0 <= m && Reading(drives[drive], startLba, n, before, blocks[..],
                                m + 1, Next(lba), pos + SIZE * count, left - count, total)
    {
      hide Reading, ReadTo, Cursor, Next, ValidBefore;
      ghost var disk := drives[drive];
      ReadingGoesOn(disk, startLba, n, before, blocks[..], m, lba, pos, left, found);
      var some := ReadSector(drive, lba, blocks, pos, count, startLba, before, m);
      total := found + some;
      ReadingStep(disk, startLba, n, before, blocks[..], m, lba, pos, left, found, count, some);
    }
  }

  /** What the reading loop has done when it is about to read sector m. */
  ghost predicate Reading(disk: Disk, startLba: int, n: int, before: seq<Byte>, now: seq<Byte>,
                          m: int, lba: int, pos: int, left: int, found: int) {
    && 0 <= m && lba == Cursor(startLba, m)
    && (left > 0 ==> left == n - 2 * m && pos == SIZE * (2 * m))
    && (left <= 0 ==> n - left == Max0(n))
    && found == ValidBefore(disk, startLba, n - left)
    && ReadTo(disk, startLba, before, now, n - left)
  }

  lemma ReadingStarts(disk: Disk, lba: nat, n: int, before: seq<Byte>)
    requires lba < 0x1_0000_0000
    ensures Reading(disk, lba, n, before, before, 0, lba, 0, n, 0)
  {
    PlaceIs(lba, 0);
    ReadNothing(disk, lba, before);
  }

  lemma ReadingGoesOn(disk: Disk, startLba: int, n: int, before: seq<Byte>, now: seq<Byte>,
                      m: int, lba: int, pos: int, left: int, found: int)
    requires Reading(disk, startLba, n, before, now, m, lba, pos, left, found)
    requires left > 0 && SIZE * n <= |now|
    ensures 0 <= m && 0 <= pos == SIZE * (2 * m) && lba == Cursor(startLba, m)
    ensures var count := if left > 2 then 2 else left; 0 < count <= 2 && pos + SIZE * count <= |now|
    ensures ReadTo(disk, startLba, before, now, 2 * m) && found == ValidBefore(disk, startLba, 2 * m)
    ensures left == n - 2 * m
  {
    hide ReadTo, Cursor, ValidBefore, Max0;
  }

  lemma ReadingStep(disk: Disk, startLba: int, n: int, before: seq<Byte>, now: seq<Byte>,
                    m: nat, lba: int, pos: int, left: int, found: int, count: int, some: int)
    requires left > 0 && left == n - 2 * m && pos == SIZE * (2 * m) && lba == Cursor(startLba, m)
    requires found == ValidBefore(disk, startLba, 2 * m)
    requires count == if left > 2 then 2 else left
    requires ReadTo(disk, startLba, before, now, 2 * m + count)
    requires some == ValidBefore(disk, startLba, 2 * m + count) - ValidBefore(disk, startLba, 2 * m)
    ensures Reading(disk, startLba, n, before, now, m + 1, Next(lba), pos + SIZE * count, left - count, found + some)
  {
    hide ReadTo, Cursor, Next, Place, ValidBefore;
    PlaceIs(startLba, m);
    assert n - (left - count) == 2 * m + count;
  }

  lemma ReadingEnds(disk: Disk, startLba: int, n: int, before: seq<Byte>, now: seq<Byte>,
                    m: int, lba: int, pos: int, left: int, found: int)
    requires Reading(disk, startLba, n, before, now, m, lba, pos, left, found) && left <= 0
    ensures found == ValidBefore(disk, startLba, n) && ReadTo(disk, startLba, before, now, Max0(n))
  {
    hide ReadTo, Cursor, ValidBefore;
    assert ValidBefore(disk, startLba, Max0(n)) == ValidBefore(disk, startLba, n);
  }

  lemma BlockIs(bytes: seq<Byte>, k: nat)
    requires SIZE * k + SIZE <= |bytes|
    ensures Block(bytes, k) == bytes[SIZE * k..SIZE * k + SIZE]
  {
  }

  lemma BlockAtIs(disk: Disk, lba: int, n: nat, b: nat)
    requires n % 2 == 0 && b < 2
    ensures BlockAt(disk, lba, n + b) == Block(disk[Place(lba, n / 2)], b)
  {
  }

  lemma PlaceIs(lba: int, m: int)
    ensures Place(lba, m) == Cursor(lba, m) % 0x1000_0000
    ensures Next(Cursor(lba, m)) == Cursor(lba, m + 1)
    ensures 0 <= lba < 0x1_0000_0000 ==> Cursor(lba, 0) == lba
  {
  }

  lemma SectorCount(n: int, m: int)
    ensures n <= 0 ==> Sectors(n) == 0
    ensures 0 <= m && 2 * m < n ==> m < Sectors(n)
    ensures 0 <= m && 2 * m < n <= 2 * m + 2 ==> Sectors(n) == m + 1
    ensures 0 <= Sectors(n)
  {
  }

  function Max0(n: int): int { if n < 0 then 0 else n }

  lemma ReadIs(disk: Disk, lba: int, before: seq<Byte>, after: seq<Byte>, n: int)
    requires ReadTo(disk, lba, before, after, n)
    ensures |before| == |after|
  {
  }

  lemma ReadNothing(disk: Disk, lba: int, before: seq<Byte>)
    ensures ReadTo(disk, lba, before, before, 0)
  {
  }

  lemma WroteNothing(disk: Disk, lba: int, bytes: seq<Byte>, n: int)
    requires SIZE * n <= |bytes|
    ensures WroteTo(disk, disk, lba, bytes, n, 0)
  {
  }

  lemma SectorIsFilled(s: Sector, bytes: seq<Byte>, n: int, m: int, count: int)
    requires 0 <= m < Sectors(n) && SIZE * n <= |bytes|
    requires count == if n - 2 * m > 2 then 2 else n - 2 * m
    requires s[..SIZE * count] == bytes[SIZE * 2 * m..SIZE * 2 * m + SIZE * count]
    requires forall k :: SIZE * count <= k < SECTOR ==> s[k] == 0
    ensures HoldsBlocks(s, bytes, n, m)
  {
    var part := s[..SIZE * count];
    assert Block(s, 0) == part[..SIZE];
    assert Block(bytes, 2 * m) == bytes[SIZE * 2 * m..SIZE * 2 * m + SIZE * count][..SIZE];
    if count == 2 {
      assert Block(s, 1) == part[SIZE..];
      assert Block(bytes, 2 * m + 1) == bytes[SIZE * 2 * m..SIZE * 2 * m + SIZE * count][SIZE..];
    }
  }
}
