/** The FAT32 driver: the write-back cache of one FAT sector, cluster allocation and
    the freeing of chains (src/fs/fat32.c). Disk transfers are assumed to succeed. */
module FatDriver {
  import opened Words
  import opened FatTable
  import opened FatChains

  type Sector = s: seq<Byte> | |s| == 512 witness seq(512, _ => 0)

  type Disk = d: imap<nat, Sector> | forall l: nat :: l in d ghost witness imap l: nat :: ZeroSector()

  const CACHE_INVALID: nat := 0xFFFF_FFFF

  function ZeroSector(): Sector {
    seq(512, _ => 0)
  }

  /** Where entry i of the table is: its sector, and its offset there. */
  function EntrySector(start: nat, i: nat): nat {
    start + i * 4 / 512
  }

  function EntryOffset(i: nat): (o: nat)
    ensures o + 4 <= 512 && o % 4 == 0
  {
    i * 4 % 512
  }

  lemma EntryPlaces(start: nat, i: nat, j: nat)
    ensures EntrySector(start, i) == EntrySector(start, j) && i != j ==>
              EntryOffset(i) + 4 <= EntryOffset(j) || EntryOffset(j) + 4 <= EntryOffset(i)
    ensures EntrySector(start, i) == start + i / 128 && EntryOffset(i) == i % 128 * 4
  {
    assert i * 4 / 512 == i / 128 && j * 4 / 512 == j / 128;
  }

  /** cluster_to_lba */
  function ClusterLba(data: nat, spc: nat, c: nat): nat
    requires c >= 2
  {
    data + (c - 2) * spc
  }

  /** Sector l belongs to cluster c. */
  predicate InCluster(data: nat, spc: nat, c: nat, l: nat)
    requires c >= 2
  {
    ClusterLba(data, spc, c) <= l < ClusterLba(data, spc, c) + spc
  }

  lemma ClusterOrder(data: nat, spc: nat, c: nat, c': nat)
    requires 2 <= c < c'
    ensures ClusterLba(data, spc, c) + spc <= ClusterLba(data, spc, c')
  {
    var k := c' - c - 1;
    assert k * spc >= 0;
    assert (c - 1 + k) * spc == (c - 1) * spc + k * spc;
    assert (c - 2 + 1) * spc == (c - 2) * spc + spc;
  }

  /** Clusters do not share sectors. */
  lemma ClustersApart(data: nat, spc: nat, c: nat, c': nat, l: nat)
    requires c >= 2 && c' >= 2 && InCluster(data, spc, c, l) && InCluster(data, spc, c', l)
    ensures c == c'
  {
    if c < c' {
      ClusterOrder(data, spc, c, c');
    } else if c' < c {
      ClusterOrder(data, spc, c', c);
    }
  }

  /** The clusters of a table of n entries tile the data area from its first sector, `spc` sectors each. */
  lemma {:induction false} ClustersTile(data: nat, spc: nat, n: nat, l: nat)
    requires n >= 2
    ensures ClusterLba(data, spc, 2) == data && ClusterLba(data, spc, n + 1) == ClusterLba(data, spc, n) + spc
    ensures data <= l < data + (n - 2) * spc <==>
            exists c :: 2 <= c < n && ClusterLba(data, spc, c) <= l < ClusterLba(data, spc, c) + spc
  {
    assert (n - 1) * spc == (n - 2) * spc + spc;
    if n > 2 {
      assert (n - 2) * spc == (n - 3) * spc + spc;
      ClustersTile(data, spc, n - 1, l);
      assert data + (n - 3) * spc <= l < data + (n - 2) * spc <==>
             ClusterLba(data, spc, n - 1) <= l < ClusterLba(data, spc, n - 1) + spc;
    }
  }

  /** The sectors from lba on, count of them, are zeroed and the others stay. */
  ghost predicate ZeroedAt(d: Disk, d': Disk, lba: nat, count: nat) {
    forall l: nat :: d'[l] == if lba <= l < lba + count then ZeroSector() else d[l]
  }

  lemma NoneZeroed(d: Disk, lba: nat)
    ensures ZeroedAt(d, d, lba, 0)
  {
  }

  lemma ZeroedNext(d: Disk, d': Disk, lba: nat, k: nat)
    requires ZeroedAt(d, d', lba, k)
    ensures ZeroedAt(d, d'[lba + k := ZeroSector()], lba, k + 1)
  {
    hide ZeroSector;
  }

  lemma BelowZeroed(d: Disk, d': Disk, lba: nat, k: nat, top: nat)
    requires ZeroedAt(d, d', lba, k) && top <= lba
    ensures forall l: nat :: l < top ==> d'[l] == d[l]
  {
  }

  /** Outside lo to hi, cluster c was zeroed and nothing else changed. */
  ghost predicate OnlyZeroed(d: Disk, d': Disk, lo: nat, hi: nat, spc: nat, c: nat)
    requires c >= 2
  {
    forall l: nat :: !(lo <= l < hi) ==> d'[l] == if InCluster(hi, spc, c, l) then ZeroSector() else d[l]
  }

  lemma ThenZeroed(d: Disk, m: Disk, d': Disk, lo: nat, hi: nat, spc: nat, c: nat)
    requires c >= 2 && ZeroedAt(m, d', ClusterLba(hi, spc, c), spc)
    requires forall l: nat :: !(lo <= l < hi) ==> m[l] == d[l]
    ensures OnlyZeroed(d, d', lo, hi, spc, c)
  {
    hide ZeroSector, ClusterLba;
  }

  lemma AfterReads(d: Disk, m: Disk, d': Disk, lo: nat, hi: nat, spc: nat, c: nat)
    requires c >= 2 && OnlyZeroed(m, d', lo, hi, spc, c)
    requires forall l: nat :: !(lo <= l < hi) ==> m[l] == d[l]
    ensures OnlyZeroed(d, d', lo, hi, spc, c)
  {
    hide ZeroSector, ClusterLba;
  }

  /** Sector l as the driver sees it: the cached one first. */
  ghost function Seen(d: Disk, cached: nat, b: Sector, l: nat): Sector {
    if l == cached then b else d[l]
  }

  /** The table that the disk and the cache stand for together. */
  ghost function TableOf(d: Disk, cached: nat, b: Sector, start: nat, n: nat): (t: Fat)
    ensures |t| == n
  {
    seq(n, i requires 0 <= i < n => Load32(Seen(d, cached, b, EntrySector(start, i)), EntryOffset(i)))
  }

  lemma SameTable(d: Disk, cached: nat, b: Sector, d': Disk, cached': nat, b': Sector, start: nat, n: nat, top: nat)
    requires n > 0 ==> EntrySector(start, n - 1) < top
    requires forall l: nat :: l < top ==> Seen(d', cached', b', l) == Seen(d, cached, b, l)
    ensures TableOf(d', cached', b', start, n) == TableOf(d, cached, b, start, n)
  {
    hide Load32, EntrySector, EntryOffset;
    forall i: nat | i < n
      ensures TableOf(d', cached', b', start, n)[i] == TableOf(d, cached, b, start, n)[i]
    {
      EntryPlaces(start, i, n - 1);
      EntryPlaces(start, n - 1, i);
    }
  }

  /** A clean cache may be filled with another sector. */
  lemma Refilled(d: Disk, cached: nat, b: Sector, sector: nat, start: nat, n: nat, top: nat)
    requires n > 0 ==> EntrySector(start, n - 1) < top
    requires cached < top ==> b == d[cached]
    ensures TableOf(d, sector, d[sector], start, n) == TableOf(d, cached, b, start, n)
  {
    hide TableOf, EntrySector;
    SameTable(d, cached, b, d, sector, d[sector], start, n, top);
  }

  /** Storing one word in the cached sector changes the entry there and no other. */
  lemma StoredTable(d: Disk, start: nat, n: nat, c: nat, b: Sector, b': Sector, w: Word32)
    requires c < n
    requires var o := EntryOffset(c);
             b'[o] == Byte0(w) && b'[o + 1] == Byte1(w) && b'[o + 2] == Byte2(w) && b'[o + 3] == Byte3(w)
             && forall i :: 0 <= i < 512 && !(o <= i < o + 4) ==> b'[i] == b[i]
    ensures TableOf(d, EntrySector(start, c), b', start, n) == TableOf(d, EntrySector(start, c), b, start, n)[c := w]
  {
    hide EntrySector, EntryOffset, Byte0, Byte1, Byte2, Byte3;
    LoadStored(w);
    var cs := EntrySector(start, c);
    forall i: nat | i < n
      ensures TableOf(d, cs, b', start, n)[i] == if i == c then w else TableOf(d, cs, b, start, n)[i]
    {
      EntryPlaces(start, i, c);
    }
  }

  /** An entry of the cached sector is read from the cache. */
  lemma CachedEntry(d: Disk, b: Sector, start: nat, n: nat, c: nat)
    requires c < n
    ensures TableOf(d, EntrySector(start, c), b, start, n)[c] == Load32(b, EntryOffset(c))
  {
  }

  /** A 32-bit store, least significant byte first. */
  method StoreWord(a: array<Byte>, o: nat, w: Word32)
    requires a.Length == 512 && o + 4 <= 512
    modifies a
    ensures a[o] == Byte0(w) && a[o + 1] == Byte1(w) && a[o + 2] == Byte2(w) && a[o + 3] == Byte3(w)
    ensures forall i :: 0 <= i < 512 && !(o <= i < o + 4) ==> a[i] == old(a[i])
  {
    hide Byte0, Byte1, Byte2, Byte3;
    a[o], a[o + 1], a[o + 2], a[o + 3] := Byte0(w), Byte1(w), Byte2(w), Byte3(w);
  }

  class Driver {
    const fatStart: nat
    const dataStart: nat
    const spc: nat // sectors_per_cluster
    ghost const n: nat // entries of the table
    var disk: Disk
    const buf: array<Byte> // fat_cache_buf
    var cacheSector: nat
    var dirty: bool
    var hint: nat // next_free_cluster_hint

    /** fat32_init, with the fields it takes from the boot sector. */
    constructor (start: nat, data: nat, perCluster: nat, root: nat, d: Disk, ghost entries: nat)
      requires 2 <= entries <= EOC && 1 <= perCluster
      requires EntrySector(start, entries - 1) < data && data + entries * perCluster < CACHE_INVALID
      ensures Valid() && disk == d && hint == root + 1 && fatStart == start && dataStart == data && spc == perCluster
      ensures n == entries
      ensures cacheSector == CACHE_INVALID && fresh(buf)
    {
      fatStart, dataStart, spc, n := start, data, perCluster, entries;
      disk := d;
      buf := new Byte[512];
      cacheSector, dirty := CACHE_INVALID, false;
      hint := root + 1;
    }

    /** The table lies before the data area, and all of the volume in 32-bit addresses. */
    predicate InTable(l: nat) {
      fatStart <= l < dataStart
    }

    ghost predicate Geometry() {
      && 2 <= n <= EOC && 1 <= spc
      && EntrySector(fatStart, n - 1) < dataStart
      && dataStart + n * spc < CACHE_INVALID
    }

    ghost predicate Valid()
      reads this`disk, this`cacheSector, this`dirty, buf
    {
      && Geometry() && buf.Length == 512
      && (cacheSector != CACHE_INVALID ==> InTable(cacheSector))
      && (!dirty && cacheSector != CACHE_INVALID ==> buf[..] == disk[cacheSector])
    }

    ghost function Table(): (t: Fat)
      reads this`disk, this`cacheSector, buf
      requires buf.Length == 512
      ensures |t| == n
    {
      TableOf(disk, cacheSector, buf[..], fatStart, n)
    }

    /** The cache is clean: the disk alone holds the table. */
    ghost predicate OnDisk()
      reads this`disk, this`cacheSector, buf
      requires buf.Length == 512
    {
      Table() == TableOf(disk, CACHE_INVALID, ZeroSector(), fatStart, n)
    }

    /** Nothing outside the table changed. */
    twostate predicate DataKept()
      reads this`disk
    {
      forall l: nat :: !InTable(l) ==> disk[l] == old(disk[l])
    }

    /** fat32_fat_sync */
    method Sync()
      requires Valid()
      modifies this`disk, this`dirty
      ensures Valid() && OnDisk() && (cacheSector != CACHE_INVALID ==> !dirty)
      ensures Table() == old(Table()) && DataKept()
    {
      hide TableOf;
      if dirty && cacheSector != CACHE_INVALID {
        disk := disk[cacheSector := buf[..]];
        dirty := false;
      }
      SameTable(old(disk), cacheSector, buf[..], disk, cacheSector, buf[..], fatStart, n, dataStart);
      SameTable(disk, cacheSector, buf[..], disk, CACHE_INVALID, ZeroSector(), fatStart, n, dataStart);
    }

    /** ata_read_sector */
    method ReadSector(l: nat, into: array<Byte>)
      requires into.Length == 512
      modifies into
      ensures into[..] == disk[l]
    {
      var s := disk[l];
      forall i | 0 <= i < 512 {
        into[i] := s[i];
      }
    }

    /** fat_cache_get: afterwards the sector is the cached one. */
    method CacheGet(sector: nat)
      requires Valid() && InTable(sector)
      modifies this`disk, this`dirty, this`cacheSector, buf
      ensures Valid() && cacheSector == sector
      ensures Table() == old(Table()) && DataKept() && (old(OnDisk()) ==> OnDisk())
    {
      hide TableOf;
      if sector != cacheSector {
        Sync();
        Fill(sector);
      }
    }

    /** The sector takes the place of a written-back one. */
    method Fill(sector: nat)
      requires Valid() && InTable(sector) && (cacheSector != CACHE_INVALID ==> !dirty)
      modifies this`cacheSector, buf
      ensures Valid() && cacheSector == sector && Table() == old(Table())
    {
      hide TableOf;
      ghost var was: Sector, cached := buf[..], cacheSector;
      assert cached < dataStart ==> was == disk[cached];
      ReadSector(sector, buf);
      cacheSector := sector;
      Refilled(disk, cached, was, sector, fatStart, n, dataStart);
    }

    /** get_next_cluster reads the masked entry; the table stays as it is. */
    method GetNext(c: nat) returns (r: nat)
      requires Valid() && c < n
      modifies this`disk, this`dirty, this`cacheSector, buf
      ensures Valid() && r == Next(old(Table())[c])
      ensures Table() == old(Table()) && DataKept() && (old(OnDisk()) ==> OnDisk())
    {
      hide Load32, EntryOffset, EntrySector, TableOf;
      EntryPlaces(fatStart, c, n - 1);
      EntryPlaces(fatStart, n - 1, c);
      CacheGet(EntrySector(fatStart, c));
      CachedEntry(disk, buf[..], fatStart, n, c);
      r := Next(Load32(buf[..], EntryOffset(c)));
    }

    /** set_next_cluster changes one entry and keeps its top four bits. */
    method SetNext(c: nat, v: nat)
      requires Valid() && c < n
      modifies this`disk, this`dirty, this`cacheSector, buf
      ensures Valid() && Table() == old(Table())[c := WithNext(old(Table())[c], v)] && DataKept()
    {
      hide Load32, EntryOffset, EntrySector, Byte0, Byte1, Byte2, Byte3, WithNext, TableOf;
      EntryPlaces(fatStart, c, n - 1);
      EntryPlaces(fatStart, n - 1, c);
      CacheGet(EntrySector(fatStart, c));
      StoreEntry(c, v);
    }

    /** The store into the cached sector. */
    method StoreEntry(c: nat, v: nat)
      requires Valid() && c < n && cacheSector == EntrySector(fatStart, c) && InTable(cacheSector)
      modifies this`dirty, buf
      ensures Valid() && Table() == old(Table())[c := WithNext(old(Table())[c], v)]
    {
      hide Load32, EntryOffset, EntrySector, Byte0, Byte1, Byte2, Byte3, WithNext, TableOf;
      ghost var was: Sector := buf[..];
      CachedEntry(disk, was, fatStart, n, c);
      var o := EntryOffset(c);
      var w := WithNext(Load32(buf[..], o), v);
      StoreWord(buf, o, w);
      dirty := true;
      StoredTable(disk, fatStart, n, c, was, buf[..], w);
    }

    /** fat32_free_chain ends on every table whose links stay in range, cyclic ones too. It
        zeroes exactly what is reached from the start, and keeps every top nibble. */
    method FreeChain(start: nat)
      requires Valid() && InRange(Table()) && (start < n || start >= EOC)
      modifies this`disk, this`dirty, this`cacheSector, buf
      ensures Valid() && DataKept()
      ensures start < 2 || start >= EOC ==> Table() == old(Table())
      ensures 2 <= start < EOC ==> FreedFrom(old(Table()), Table(), start)
    {
      hide Freeing, FreedFrom, InRange, TableOf;
      if start < 2 || start >= EOC {
        return;
      }
      ghost var t := Table();
      ghost var done: set<nat> := {};
      var current: nat := start;
      FreeingStarts(t, start);
      while current < EOC && current != 0
        modifies this`disk, this`dirty, this`cacheSector, buf
        invariant Valid() && DataKept() && Freeing(t, Table(), start, done, current)
        decreases Entries(t) - done, current
      {
        ghost var was := Table();
        FreedStep(t, start, was, done, current);
        var next := GetNext(current);
        SetNext(current, 0);
        done := done + {current};
        current := next;
      }
      FreedAll(t, Table(), start, done, current);
    }

    function Lba(c: nat): nat
      requires c >= 2
    {
      ClusterLba(dataStart, spc, c)
    }

    /** The zeroing loop of fat32_allocate_cluster. */
    method ZeroCluster(c: nat)
      requires Valid() && 2 <= c < n
      modifies this`disk
      ensures Valid() && Table() == old(Table()) && ZeroedAt(old(disk), disk, Lba(c), spc)
      ensures old(OnDisk()) ==> OnDisk()
    {
      hide TableOf, ClusterLba, ZeroSector, ZeroedAt;
      ghost var d := disk;
      var lba: nat := ClusterLba(dataStart, spc, c);
      var i: nat := 0;
      NoneZeroed(d, lba);
      while i < spc
        invariant i <= spc && ZeroedAt(d, disk, lba, i)
      {
        ZeroedNext(d, disk, lba, i);
        disk := disk[lba + i := ZeroSector()];
        i := i + 1;
      }
      AboveTable(c);
      BelowZeroed(d, disk, lba, spc, dataStart);
      SameTable(old(disk), cacheSector, buf[..], disk, cacheSector, buf[..], fatStart, n, dataStart);
      SameTable(old(disk), CACHE_INVALID, ZeroSector(), disk, CACHE_INVALID, ZeroSector(), fatStart, n, dataStart);
    }

    lemma AboveTable(c: nat)
      requires c >= 2
      ensures Lba(c) >= dataStart
    {
    }

    /** The entry becomes an end of chain, on disk too, and the hint moves on. */
    method Mark(c: nat)
      requires Valid() && 2 <= c < n && c < LIMIT
      modifies this`disk, this`dirty, this`cacheSector, this`hint, buf
      ensures Valid() && hint == Hint(c + 1) && OnDisk() && DataKept()
      ensures Table() == old(Table())[c := WithNext(old(Table())[c], EOC)]
    {
      hide TableOf, OnDisk, WithNext;
      SetNext(c, EOC);
      Sync();
      hint := c + 1;
      if hint >= LIMIT {
        hint := 2;
      }
    }

    /** What fat32_allocate_cluster does with the free cluster it found. */
    method Take(c: nat)
      requires Valid() && 2 <= c < n && c < LIMIT
      modifies this`disk, this`dirty, this`cacheSector, this`hint, buf
      ensures Valid() && hint == Hint(c + 1) && OnDisk()
      ensures Table() == old(Table())[c := WithNext(old(Table())[c], EOC)]
      ensures OnlyZeroed(old(disk), disk, fatStart, dataStart, spc, c)
    {
      hide TableOf, OnDisk, ClusterLba, ZeroSector, WithNext, OnlyZeroed, ZeroedAt;
      Mark(c);
      ghost var m := disk;
      ZeroCluster(c);
      ThenZeroed(old(disk), m, disk, fatStart, dataStart, spc, c);
    }

    /** The scan of fat32_allocate_cluster, cyclic from the hint. */
    method ScanFree() returns (found: bool, cluster: nat)
      requires Valid() && 2 <= hint < LIMIT && Ready(Table(), hint, 1)
      modifies this`disk, this`dirty, this`cacheSector, buf
      ensures Valid() && Table() == old(Table()) && DataKept() && (old(OnDisk()) ==> OnDisk())
      ensures if found then FirstFree(old(Table()), hint, cluster) else NoneFree(old(Table()))
    {
      hide TableOf, Ready, NonePassed, FirstFree, NoneFree, OnDisk;
      ghost var t, h := Table(), hint;
      cluster := hint;
      var scanned: nat := 0;
      NonePassedYet(t, h);
      while scanned < LIMIT - 2
        modifies this`disk, this`dirty, this`cacheSector, buf
        invariant scanned <= LIMIT - 2 && cluster == Scan(h, scanned) && NonePassed(t, h, scanned)
        invariant Valid() && Table() == t && DataKept() && (old(OnDisk()) ==> OnDisk())
      {
        ScanInside(t, h, scanned);
        var next := GetNext(cluster);
        ScanStops(t, h, scanned);
        if next == 0 {
          return true, cluster;
        }
        ScanOn(t, h, scanned);
        cluster := cluster + 1;
        if cluster >= LIMIT {
          cluster := 2;
        }
        scanned := scanned + 1;
      }
      ScanStops(t, h, scanned);
      found := false;
    }

    /** fat32_allocate_cluster takes the first free entry of the cyclic scan from the hint, marks
        it as an end of chain and zeroes its cluster; 0 says that no entry is free. */
    method Allocate() returns (r: nat)
      requires Valid() && Ready(Table(), Hint(hint), 1)
      modifies this`disk, this`dirty, this`cacheSector, this`hint, buf
      ensures Valid() && (old(OnDisk()) ==> OnDisk())
      ensures r == 0 ==> NoneFree(old(Table())) && Table() == old(Table()) && DataKept() && hint == Hint(old(hint))
      ensures r != 0 ==> FirstFree(old(Table()), Hint(old(hint)), r) && hint == Hint(r + 1) && OnDisk()
      ensures r != 0 ==> Table() == old(Table())[r := WithNext(old(Table())[r], EOC)]
      ensures r != 0 ==> OnlyZeroed(old(disk), disk, fatStart, dataStart, spc, r)
    {
      hide TableOf, Ready, FirstFree, NoneFree, OnDisk, WithNext, OnlyZeroed;
      if hint < 2 || hint >= LIMIT {
        hint := 2;
      }
      var found, cluster := ScanFree();
      if !found {
        return 0;
      }
      FoundFree(Table(), hint, cluster);
      ghost var m := disk;
      Take(cluster);
      AfterReads(old(disk), m, disk, fatStart, dataStart, spc, cluster);
      r := cluster;
    }

    lemma FoundFree(t: Fat, h: nat, c: nat)
      requires FirstFree(t, h, c)
      ensures 2 <= c < |t| && c < LIMIT
    {
    }
  }
}
