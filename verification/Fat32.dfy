/** Loading a file in cosmos_ahci.cpp's fat32_load_file: the boot sector, the directory search, and
    the cluster chain. */
module Fat32 {
  import opened DiskLayout
  import opened LongNames
  import opened Octets

  const END_MARK := 0x0FFF_FFF8
  const LIMIT := 10000
  const WORD32 := 0x1_0000_0000

  type Sector = s: seq<Octet> | IsSector(s) witness seq(SECTOR, _ => 0)

  /** The sectors that can be read. */
  type Drive = map<int, Sector>

  predicate CanRead(drive: Drive, lba: int, count: int) { forall s :: lba <= s < lba + count ==> s in drive }

  function Bytes(drive: Drive, lba: int, count: int): (bytes: seq<Octet>)
    requires 0 <= count && CanRead(drive, lba, count)
    ensures |bytes| == SECTOR * count
    decreases count
  {
    if count == 0 then [] else Bytes(drive, lba, count - 1) + drive[lba + count - 1]
  }

  /** The volume: where the table and the clusters are, and how many sectors a cluster has. */
  datatype Volume = Volume(fatStart: int, dataStart: int, perCluster: int, root: int)

  predicate Sane(v: Volume) { 0 < v.perCluster < 256 }

  function ClusterLba(v: Volume, c: int): int { (v.dataStart + (c - 2) * v.perCluster) % WORD32 }

  function FatLba(v: Volume, c: int): int
    requires 0 <= c
  {
    (v.fatStart + c * 4 / 512) % WORD32
  }

  predicate Readable(drive: Drive, v: Volume, c: int)
    requires 0 <= c && Sane(v)
  {
    CanRead(drive, ClusterLba(v, c), v.perCluster) && FatLba(v, c) in drive
  }

  function Data(drive: Drive, v: Volume, c: int): (bytes: seq<Octet>)
    requires 0 <= c && Sane(v) && CanRead(drive, ClusterLba(v, c), v.perCluster)
    ensures |bytes| == SECTOR * v.perCluster
  {
    Bytes(drive, ClusterLba(v, c), v.perCluster)
  }

  /** The low 28 bits of the entry for cluster c in its sector of the table. */
  function Entry(sector: Sector, c: int): (next: int)
    requires 0 <= c
    ensures 0 <= next < 0x1000_0000
  {
    Le32(sector, c * 4 % 512 / 4 * 4) % 0x1000_0000
  }

  /** The link of cluster c. */
  function Link(drive: Drive, v: Volume, c: int): (next: int)
    requires 0 <= c && FatLba(v, c) in drive
    ensures 0 <= next < 0x1000_0000
  {
    Entry(drive[FatLba(v, c)], c)
  }

  datatype Status = Loaded | BpbReadFailed | InvalidBpb | DirReadFailed | NotFound
                  | DataReadFailed | FatReadFailed | ChainBroken

  datatype Outcome = Outcome(status: Status, bytes: seq<Octet>)

  /** The chain loop after `count` clusters: what it still loads and how it ends. */
  function Follow(drive: Drive, v: Volume, c: int, count: int): Outcome
    requires 0 <= c && Sane(v) && 0 <= count <= LIMIT
    decreases LIMIT - count
  {
    if c >= END_MARK then Outcome(Loaded, [])
    else if !CanRead(drive, ClusterLba(v, c), v.perCluster) then Outcome(DataReadFailed, [])
    else
      var data := Data(drive, v, c);
      if FatLba(v, c) !in drive then Outcome(FatReadFailed, data)
      else
        var next := Link(drive, v, c);
        if next == 0 || count + 1 > LIMIT then Outcome(ChainBroken, data)
        else
          var rest := Follow(drive, v, next, count + 1);
          Outcome(rest.status, data + rest.bytes)
  }

  // ----- chains

  /** cs are the clusters of a chain that starts at c and reaches an end mark. */
  predicate IsChain(drive: Drive, v: Volume, c: int, cs: seq<int>)
    requires 0 <= c && Sane(v)
    decreases |cs|
  {
    if cs == [] then c >= END_MARK
    else
      && cs[0] == c < END_MARK && Readable(drive, v, c) && Link(drive, v, c) != 0
      && IsChain(drive, v, Link(drive, v, c), cs[1..])
  }

  /** The clusters of a chain one after the other. */
  function Concat(drive: Drive, v: Volume, c: int, cs: seq<int>): seq<Octet>
    requires 0 <= c && Sane(v) && IsChain(drive, v, c, cs)
    decreases |cs|
  {
    if cs == [] then [] else Data(drive, v, c) + Concat(drive, v, Link(drive, v, c), cs[1..])
  }

  /** A chain of at most the clusters that are left loads, as exactly its clusters in order. */
  lemma {:induction false} ChainLoads(drive: Drive, v: Volume, c: int, cs: seq<int>, count: int)
    requires 0 <= c && Sane(v) && 0 <= count && count + |cs| <= LIMIT
    requires IsChain(drive, v, c, cs)
    ensures Follow(drive, v, c, count) == Outcome(Loaded, Concat(drive, v, c, cs))
    decreases |cs|
  {
    if cs != [] {
      ChainLoads(drive, v, Link(drive, v, c), cs[1..], count + 1);
    }
  }

  /** What loads is a chain of at most the clusters that are left. */
  lemma {:induction false} LoadedIsChain(drive: Drive, v: Volume, c: int, count: int) returns (cs: seq<int>)
    requires 0 <= c && Sane(v) && 0 <= count <= LIMIT && Follow(drive, v, c, count).status == Loaded
    ensures IsChain(drive, v, c, cs) && count + |cs| <= LIMIT
    decreases LIMIT - count
  {
    if c >= END_MARK {
      cs := [];
    } else {
      var rest := LoadedIsChain(drive, v, Link(drive, v, c), count + 1);
      cs := [c] + rest;
      assert cs[1..] == rest;
    }
  }

  /** The loader succeeds exactly when the chain reaches an end mark within 10000 clusters without a
      zero link; it then has loaded the chain. */
  lemma LoadsIff(drive: Drive, v: Volume, c: int)
    requires 0 <= c && Sane(v)
    ensures Follow(drive, v, c, 0).status == Loaded <==> exists cs :: IsChain(drive, v, c, cs) && |cs| <= 10000
    ensures forall cs :: IsChain(drive, v, c, cs) && |cs| <= 10000 ==>
              Follow(drive, v, c, 0) == Outcome(Loaded, Concat(drive, v, c, cs))
  {
    if Follow(drive, v, c, 0).status == Loaded {
      var cs := LoadedIsChain(drive, v, c, 0);
    }
    forall cs | IsChain(drive, v, c, cs) && |cs| <= LIMIT
      ensures Follow(drive, v, c, 0) == Outcome(Loaded, Concat(drive, v, c, cs))
    {
      ChainLoads(drive, v, c, cs, 0);
    }
  }

  /** Every read the loop makes from cluster c on succeeds. */
  predicate ReadsSucceed(drive: Drive, v: Volume, c: int, count: int)
    requires 0 <= c && Sane(v) && 0 <= count <= LIMIT
    decreases LIMIT - count
  {
    c < END_MARK ==>
      && Readable(drive, v, c)
      && (Link(drive, v, c) == 0 || count == LIMIT || ReadsSucceed(drive, v, Link(drive, v, c), count + 1))
  }

  /** A broken chain is the way to fail exactly when every read of a cluster it visits succeeds. */
  lemma {:induction false} OnlyBrokenChainsFail(drive: Drive, v: Volume, c: int, count: int)
    requires 0 <= c && Sane(v) && 0 <= count <= LIMIT
    ensures ReadsSucceed(drive, v, c, count)
       <==> Follow(drive, v, c, count).status == Loaded || Follow(drive, v, c, count).status == ChainBroken
    decreases LIMIT - count
  {
    if c < END_MARK && Readable(drive, v, c) && Link(drive, v, c) != 0 && count < LIMIT {
      OnlyBrokenChainsFail(drive, v, Link(drive, v, c), count + 1);
    }
  }

  /** Every suffix of a chain is a chain. */
  lemma {:induction false} ChainSuffix(drive: Drive, v: Volume, c: int, cs: seq<int>, i: int)
    requires 0 <= c && Sane(v) && IsChain(drive, v, c, cs) && 0 <= i < |cs|
    ensures 0 <= cs[i] && IsChain(drive, v, cs[i], cs[i..])
    decreases |cs|
  {
    if i > 0 {
      ChainSuffix(drive, v, Link(drive, v, c), cs[1..], i - 1);
      assert cs[1..][i - 1..] == cs[i..];
    } else {
      assert cs[0..] == cs;
    }
  }

  /** Chains from one cluster have one length. */
  lemma {:induction false} ChainIsUnique(drive: Drive, v: Volume, c: int, cs: seq<int>, ds: seq<int>)
    requires 0 <= c && Sane(v) && IsChain(drive, v, c, cs) && IsChain(drive, v, c, ds)
    ensures cs == ds
    decreases |cs|
  {
    if cs != [] && ds != [] {
      ChainIsUnique(drive, v, Link(drive, v, c), cs[1..], ds[1..]);
      assert cs == [c] + cs[1..] && ds == [c] + ds[1..];
    }
  }

  /** A chain that loads never comes back to a cluster, so a cyclic one ends in ChainBroken or a failed read. */
  lemma CycleNeverLoads(drive: Drive, v: Volume, c: int, cs: seq<int>, i: int, j: int)
    requires 0 <= c && Sane(v) && IsChain(drive, v, c, cs) && 0 <= i < j < |cs|
    ensures cs[i] != cs[j]
  {
    ChainSuffix(drive, v, c, cs, i);
    ChainSuffix(drive, v, c, cs, j);
    if cs[i] == cs[j] {
      ChainIsUnique(drive, v, cs[i], cs[i..], cs[j..]);
      assert false;
    }
  }

  // ----- the whole loader

  /** The fields of the boot sector. */
  function Mount(b: Sector): Volume {
    var fat := Le32(b, 28) + Le16(b, 14);
    var data := fat + b[16] * Le32(b, 36);
    Volume(fat, data, b[13], (data + (Le32(b, 44) - 2) * b[13]) % WORD32)
  }

  /** The directory sector holds no part 20, and cluster numbers are below 2^31. */
  predicate Regular(dir: Sector) { NoPart20(EntriesOf(dir)) && SmallClusters(EntriesOf(dir)) }

  predicate SmallClusters(es: seq<DirEntry>) { forall i :: 0 <= i < |es| && !IsLong(es[i]) ==> es[i][21] < 128 }

  /** What fat32_load_file is called on: 512-byte sectors, a boot sector that says how large a cluster is. */
  predicate Mountable(drive: Drive) {
    0 in drive && Le16(drive[0], 11) != 0 ==>
      && Sane(Mount(drive[0]))
      && (Mount(drive[0]).root in drive ==> Regular(drive[Mount(drive[0]).root]))
  }

  lemma {:induction false} LookIsCluster(es: seq<DirEntry>, buf: seq<Octet>, has: bool, target: seq<Octet>)
    requires IsBuffer(buf) && NoPart20(es) && SmallClusters(es)
    ensures 0 <= Look(es, buf, has, target) < 0x8000_0000
    decreases |es|
  {
    hide Gather, IsMatch, LooksDeleted;
    if es != [] {
      LookIsCluster(es[1..], buf, false, target);
      if IsLong(es[0]) {
        LookIsCluster(es[1..], Gather(buf, es[0]), true, target);
      }
      LookIsCluster(es[1..], Zeros(), false, target);
    }
  }

  function Found(dir: Sector, target: seq<Octet>): (c: int)
    requires Regular(dir)
    ensures 0 <= c
  {
    LookIsCluster(EntriesOf(dir), Zeros(), false, target);
    Look(EntriesOf(dir), Zeros(), false, target)
  }

  /** fat32_load_file. */
  function Load(drive: Drive, target: seq<Octet>): Outcome
    requires Mountable(drive)
  {
    if 0 !in drive then Outcome(BpbReadFailed, [])
    else if Le16(drive[0], 11) == 0 then Outcome(InvalidBpb, [])
    else
      var v := Mount(drive[0]);
      if v.root !in drive then Outcome(DirReadFailed, [])
      else
        var c := Found(drive[v.root], target);
        if c == 0 then Outcome(NotFound, []) else Follow(drive, v, c, 0)
  }

  /** The first file of the directory that answers is loaded whole if its chain ends in time, whatever
      files, labels and deleted entries are around it. */
  lemma LoadsTheFile(drive: Drive, target: seq<Octet>, items: seq<Item>, rest: seq<DirEntry>, cs: seq<int>)
    requires Mountable(drive) && 0 in drive && Le16(drive[0], 11) != 0 && Mount(drive[0]).root in drive
    requires EntriesOf(drive[Mount(drive[0]).root]) == Entries(items) + rest && Ended(rest) && NoPart20(rest)
    requires AreItems(items) && IsText(target) && 0 < FirstAnswer(items, 0, target)
    requires IsChain(drive, Mount(drive[0]), FirstAnswer(items, 0, target), cs) && |cs| <= LIMIT
    ensures var c := FirstAnswer(items, 0, target);
            Load(drive, target) == Outcome(Loaded, Concat(drive, Mount(drive[0]), c, cs))
  {
    hide Mount, IsChain, Concat, AreItems, Look, EntriesOf, FirstAnswer, Entries, Follow, IsText;
    FindsTheFirst(items, rest, target);
    ChainLoads(drive, Mount(drive[0]), FirstAnswer(items, 0, target), cs, 0);
  }

  // ----- the code

  /** ahci_read_sectors: all of the sectors to memory at ptr, or false; a command that fails or times out
      may have stored anything where they should have gone, but nowhere else. */
  method ReadSectors(drive: Drive, lba: int, count: int, ram: array<Octet>, ptr: nat) returns (ok: bool)
    requires 0 <= count && ptr + SECTOR * count <= ram.Length
    modifies ram
    ensures ok == CanRead(drive, lba, count)
    ensures ram[..ptr] == old(ram[..ptr]) && ram[ptr + SECTOR * count..] == old(ram[ptr + SECTOR * count..])
    ensures ok ==> ram[ptr..ptr + SECTOR * count] == Bytes(drive, lba, count)
  {
    ok := true;
    for i := 0 to count
      invariant ok == CanRead(drive, lba, i)
    {
      ok := ok && lba + i in drive;
    }
    if ok {
      var all := Bytes(drive, lba, count);
      forall k | 0 <= k < SECTOR * count {
        ram[ptr + k] := all[k];
      }
    } else {
      Garble(ram, ptr, ptr + SECTOR * count);
    }
  }

  /** What a failed command leaves. */
  method Garble(ram: array<Octet>, lo: nat, hi: nat)
    requires lo <= hi <= ram.Length
    modifies ram
    ensures ram[..lo] == old(ram[..lo]) && ram[hi..] == old(ram[hi..])
  {
    for k := lo to hi
      invariant ram[..lo] == old(ram[..lo]) && ram[hi..] == old(ram[hi..])
    {
      ram[k] := *;
    }
  }

  /** An outcome with more bytes loaded before it. */
  function Before(bytes: seq<Octet>, o: Outcome): Outcome { Outcome(o.status, bytes + o.bytes) }

  /** 10001 clusters fit. */
  lemma PointerFits(perCluster: int, count: int)
    requires 0 < perCluster < 256 && 0 <= count <= LIMIT
    ensures 0 <= SECTOR * perCluster * count
    ensures SECTOR * perCluster * count + SECTOR * perCluster == SECTOR * perCluster * (count + 1)
    ensures SECTOR * perCluster * (count + 1) <= SECTOR * 255 * (LIMIT + 1)
  {
    assert SECTOR * perCluster <= SECTOR * 255;
    Products(SECTOR * perCluster, count + 1, SECTOR * 255, LIMIT + 1);
    Products(0, 0, SECTOR * perCluster, count);
  }

  lemma Products(a: int, b: int, c: int, d: int)
    requires 0 <= a <= c && 0 <= b <= d
    ensures a * b <= c * d
  {
  }

  /** What the loop is about to do, given what it has loaded so far. */
  ghost predicate Pending(goal: Outcome, drive: Drive, v: Volume, c: int, count: int, sofar: seq<Octet>) {
    0 <= c && Sane(v) && 0 <= count <= LIMIT && goal == Before(sofar, Follow(drive, v, c, count))
  }

  lemma PendingStep(goal: Outcome, drive: Drive, v: Volume, c: int, count: int, sofar: seq<Octet>)
    requires Pending(goal, drive, v, c, count, sofar)
    ensures c >= END_MARK ==> goal == Outcome(Loaded, sofar)
    ensures c < END_MARK && !CanRead(drive, ClusterLba(v, c), v.perCluster) ==> goal == Outcome(DataReadFailed, sofar)
    ensures c < END_MARK && CanRead(drive, ClusterLba(v, c), v.perCluster) && FatLba(v, c) !in drive ==>
              goal == Outcome(FatReadFailed, sofar + Data(drive, v, c))
    ensures c < END_MARK && Readable(drive, v, c) && (Link(drive, v, c) == 0 || count == LIMIT) ==>
              goal == Outcome(ChainBroken, sofar + Data(drive, v, c))
    ensures c < END_MARK && Readable(drive, v, c) && Link(drive, v, c) != 0 && count < LIMIT ==>
              Pending(goal, drive, v, Link(drive, v, c), count + 1, sofar + Data(drive, v, c))
  {
  }

  lemma DropTwice(s: seq<Octet>, t: seq<Octet>, a: nat, n: nat)
    requires a + n <= |s| == |t| && s[a..] == t[a..]
    ensures s[a + n..] == t[a + n..]
  {
  }

  lemma PendingStart(drive: Drive, v: Volume, start: int)
    requires 0 <= start && Sane(v)
    ensures Pending(Follow(drive, v, start, 0), drive, v, start, 0, [])
  {
  }

  lemma DataIs(drive: Drive, v: Volume, c: int)
    requires 0 <= c && Sane(v) && CanRead(drive, ClusterLba(v, c), v.perCluster)
    ensures Data(drive, v, c) == Bytes(drive, ClusterLba(v, c), v.perCluster)
    ensures FatLba(v, c) in drive ==> Link(drive, v, c) == Entry(drive[FatLba(v, c)], c)
  {
  }

  /** The chain loop of fat32_load_file. `size` is how much of memory it filled; the cluster a failed
      read was for is the only other memory it may change. */
  method FollowChain(drive: Drive, v: Volume, start: int, ram: array<Octet>) returns (status: Status, size: nat)
    requires 0 <= start && Sane(v) && SECTOR * 255 * (LIMIT + 1) <= ram.Length
    modifies ram
    ensures size <= ram.Length && Follow(drive, v, start, 0) == Outcome(status, ram[..size])
    ensures status != DataReadFailed ==> ram[size..] == old(ram[size..])
    ensures status == DataReadFailed ==>
              var end := size + SECTOR * v.perCluster; end <= ram.Length && ram[end..] == old(ram[end..])
  {
    hide Follow, Before, Pending, CanRead, ClusterLba, FatLba, Link, Data, Bytes;
    ghost var goal := Follow(drive, v, start, 0);
    ghost var before := ram[..];
    var current, ptr, count := start, 0, 0;
    PendingStart(drive, v, start);
    PointerFits(v.perCluster, 0);
    while current < END_MARK
      modifies ram
      invariant 0 <= current && 0 <= count <= LIMIT && ptr == SECTOR * v.perCluster * count && 0 <= ptr <= ram.Length
      invariant Pending(goal, drive, v, current, count, ram[..ptr])
      invariant ram[ptr..] == before[ptr..]
      decreases LIMIT - count
    {
      PendingStep(goal, drive, v, current, count, ram[..ptr]);
      PointerFits(v.perCluster, count);
      DropTwice(ram[..], before, ptr, SECTOR * v.perCluster);
      var ok := ReadSectors(drive, ClusterLba(v, current), v.perCluster, ram, ptr);
      assert ram[..ptr + SECTOR * v.perCluster] == ram[..ptr] + ram[ptr..ptr + SECTOR * v.perCluster];
      if !ok {
        return DataReadFailed, ptr;
      }
      DataIs(drive, v, current);
      ptr := ptr + SECTOR * v.perCluster;
      count := count + 1;
      var fatSector := FatLba(v, current);
      if fatSector !in drive {
        return FatReadFailed, ptr;
      }
      current := Entry(drive[fatSector], current);
      if current == 0 || count > LIMIT {
        return ChainBroken, ptr;
      }
    }
    PendingStep(goal, drive, v, current, count, ram[..ptr]);
    return Loaded, ptr;
  }

  /** fat32_load_file, with the memory from the load address on. */
  method LoadFile(drive: Drive, target: seq<Octet>, ram: array<Octet>) returns (status: Status, size: nat)
    requires Mountable(drive) && SECTOR * 255 * (LIMIT + 1) <= ram.Length
    modifies ram
    ensures size <= ram.Length && Load(drive, target) == Outcome(status, ram[..size])
    ensures status != DataReadFailed ==> ram[size..] == old(ram[size..])
    ensures status == DataReadFailed ==>
              && 0 in drive
              && var end := size + SECTOR * Mount(drive[0]).perCluster;
              end <= ram.Length && ram[end..] == old(ram[end..])
  {
    hide Follow, Look, EntriesOf, Mount;
    if 0 !in drive {
      return BpbReadFailed, 0;
    }
    if Le16(drive[0], 11) == 0 {
      return InvalidBpb, 0;
    }
    var v := Mount(drive[0]);
    if v.root !in drive {
      return DirReadFailed, 0;
    }
    var cluster := LongNames.Search(EntriesOf(drive[v.root]), target);
    assert cluster == Found(drive[v.root], target);
    if cluster == 0 {
      return NotFound, 0;
    }
    status, size := FollowChain(drive, v, cluster, ram);
  }
}
