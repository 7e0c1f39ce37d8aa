/** fat32_vfs_write as a whole, and what it means for the bytes of files (src/fs/fat32.c:989-1066). */
module FatFile {
  import opened Wrappers
  import opened Words
  import opened FatTable
  import opened FatChains
  import opened FatDriver
  import opened FatBytes
  import opened FatRead
  import opened FatGrow
  import opened FatWrite

  // ----- how many clusters -----

  function Word(x: nat): Word32 {
    x % TWO_32
  }

  lemma WordFits(x: nat)
    requires x < TWO_32
    ensures Word(x) == x
  {
  }

  /** The rounded-up division of the source, in 32-bit arithmetic. */
  function ClustersFor(spc: nat, size: nat): nat
    requires spc >= 1
  {
    Seat(spc * 512, Word(size + spc * 512 - 1))
  }

  /** Of the end of a write, cut to 32 bits first, it is the least count that holds it exactly as
      long as the sum does not wrap. */
  lemma ClustersForRight(spc: nat, size: nat)
    requires 1 <= spc <= 255
    ensures size <= ClustersFor(spc, Word(size)) * spc * 512 <==> size + spc * 512 - 1 < TWO_32
    ensures size + spc * 512 - 1 < TWO_32 ==> forall k: nat :: size <= k * spc * 512 ==>
        ClustersFor(spc, Word(size)) <= k
  {
    var z, sum := spc * 512, Word(size) + spc * 512 - 1;
    var q := Seat(z, Word(sum));
    assert q * z == q * spc * 512;
    if size >= TWO_32 {
      CountBelow(z, Word(sum), q);
      return;
    }
    WordFits(size);
    RoundsUp(z, size, q);
    if sum < TWO_32 {
      forall k: nat | size <= k * spc * 512 ensures q <= k {
        assert k * z == k * spc * 512;
        RoundsLeast(z, size, k);
      }
    }
  }

  lemma CountBelow(z: nat, x: Word32, q: nat)
    requires z >= 1 && q == Seat(z, x)
    ensures q * z < TWO_32
  {
    hide Seat, Rank;
    SeatAndRank(z, x, 1);
  }

  /** The count wraps for a size of 2^32 - 1. */
  lemma CountWraps()
    ensures ClustersFor(1, 0xFFFF_FFFF) == 0
  {
  }

  lemma RoundsUp(z: nat, size: nat, q: nat)
    requires 1 <= z <= 255 * 512 && size < TWO_32 && q == Seat(z, Word(size + z - 1))
    ensures size <= q * z <==> size + z - 1 < TWO_32
  {
    hide Seat, Rank;
    SeatAndRank(z, Word(size + z - 1), 1);
    if size + z - 1 >= TWO_32 {
      assert Word(size + z - 1) == size + z - 1 - TWO_32 < z;
    }
  }

  lemma RoundsLeast(z: nat, size: nat, k: nat)
    requires z >= 1 && size <= k * z && size + z - 1 < TWO_32
    ensures Seat(z, Word(size + z - 1)) <= k
  {
    hide Seat, Rank;
    SeatAndRank(z, size + z - 1, k + 1);
    assert (k + 1) * z == k * z + z;
    WordFits(size + z - 1);
  }

  /** The clusters to append; a file of size 0 owns one. */
  function Missing(spc: nat, size: nat, required: nat): (k: nat)
    requires spc >= 1
  {
    var owned := if size == 0 then 1 else ClustersFor(spc, size);
    var needed := ClustersFor(spc, required);
    if needed > owned then needed - owned else 0
  }

  /** After appending them, the chain holds what is required. */
  lemma Capacity(spc: nat, size: nat, required: nat, m: nat)
    requires 1 <= spc <= 255 && size + spc * 512 <= TWO_32 && required + spc * 512 <= TWO_32
    requires m >= 1 && size <= m * spc * 512
    ensures required <= (m + Missing(spc, size, required)) * spc * 512
    ensures Missing(spc, size, required) == 0 <==>
            ClustersFor(spc, required) <= if size == 0 then 1 else ClustersFor(spc, size)
  {
    hide ClustersFor, Word;
    ClustersForRight(spc, size);
    ClustersForRight(spc, required);
    WordFits(size);
    WordFits(required);
    var needed, have := ClustersFor(spc, required), m + Missing(spc, size, required);
    assert needed <= have;
    Multiples(spc * 512, have, needed);
    assert have * (spc * 512) == have * spc * 512 && needed * (spc * 512) == needed * spc * 512;
  }

  // ----- the directory entry -----

  /** The entry of a file lies in a cluster dc of a directory: in use, and not one of the file's own. */
  ghost predicate EntryApart(t: Fat, a: Area, s: seq<nat>, info: Info, dc: nat) {
    && 2 <= dc < |t| && dc !in s && Next(t[dc]) != 0
    && InCluster(a.data, a.spc, dc, info.lba) && info.off + 32 <= 512
  }

  /** The size field of the entry is set, and no other byte of the sector. */
  ghost predicate EntrySized(sec: Sector, sec': Sector, off: nat, size: Word32)
    requires off + 32 <= 512
  {
    && Load32(sec', off + 28) == size
    && forall i :: 0 <= i < 512 && !(off + 28 <= i < off + 32) ==> sec'[i] == sec[i]
  }

  method UpdateEntry(d: Driver, info: Info, size: Word32) returns (ghost sec: Sector)
    requires info.off + 32 <= 512
    modifies d`disk
    ensures d.disk == old(d.disk)[info.lba := sec] && EntrySized(old(d.disk[info.lba]), sec, info.off, size)
  {
    var sectorBuf := new Byte[512];
    d.ReadSector(info.lba, sectorBuf);
    StoreWord(sectorBuf, info.off + 28, size);
    LoadStored(size);
    sec := sectorBuf[..];
    d.disk := d.disk[info.lba := sectorBuf[..]];
  }

  // ----- writing -----

  /** Outside the table, the clusters of the file and its entry, nothing changed. */
  ghost predicate KeptButFile(d: Disk, d': Disk, a: Area, lo: nat, g: seq<nat>, info: Option<Info>)
    requires Clusters(g)
  {
    forall l: nat :: !(lo <= l < a.data) && !OfChain(a, g, l) && !(info.Some? && info.value.lba == l) ==> d'[l] == d[l]
  }

  /** The bytes and the entry after a write of x at position at. */
  ghost predicate Wrote(d: Disk, d': Disk, a: Area, lo: nat, s: seq<nat>, g: seq<nat>, at: nat, x: seq<Byte>,
      info: Option<Info>, size: nat, size': nat)
    requires a.spc >= 1 && Clusters(s) && Clusters(g) && |s| <= |g|
  {
    && Spliced(Bytes(d, a, s) + Zeros((|g| - |s|) * a.spc * 512), Bytes(d', a, g), at, x)
    && KeptButFile(d, d', a, lo, g, info)
    && (info.Some? ==> EntryIs(d, d', info.value, size, size'))
  }

  ghost predicate EntryIs(d: Disk, d': Disk, info: Info, size: nat, size': nat) {
    if size' == size then d'[info.lba] == d[info.lba]
    else info.off + 32 <= 512 && size' < TWO_32 && EntrySized(d[info.lba], d'[info.lba], info.off, size')
  }

  lemma EntryOutside(t: Fat, t': Fat, a: Area, s: seq<nat>, g: seq<nat>, info: Info, dc: nat)
    requires EntryApart(t, a, s, info, dc) && Grown(t, t', s, g) && Clusters(g)
    ensures !OfChain(a, g, info.lba) && info.lba >= a.data
  {
    DataAbove(a, dc);
    forall i | 0 <= i < |g| ensures !InCluster(a.data, a.spc, g[i], info.lba) {
      if i < |s| {
        assert g[i] == s[i];
      } else {
        assert g[|s|..][i - |s|] == g[i];
      }
      if InCluster(a.data, a.spc, g[i], info.lba) {
        ClustersApart(a.data, a.spc, g[i], dc, info.lba);
      }
    }
  }

  /** The bytes after the growth and the transfer, before the entry is updated. */
  ghost predicate Transferred(d: Disk, d': Disk, a: Area, lo: nat, s: seq<nat>, g: seq<nat>, at: nat, x: seq<Byte>) {
    && a.spc >= 1 && Clusters(s) && Clusters(g) && |s| <= |g| && lo <= a.data
    && Spliced(Bytes(d, a, s) + Zeros((|g| - |s|) * a.spc * 512), Bytes(d', a, g), at, x)
    && KeptBut(d, d', a, lo, g)
  }

  /** Growth, then transfer. */
  lemma GrownThenPut(t: Fat, t': Fat, d: Disk, m: Disk, d': Disk, a: Area, lo: nat, s: seq<nat>, g: seq<nat>, at: nat,
      x: seq<Byte>)
    requires Growth(t, t', d, m, a, lo, s, g)
    requires Put(Bytes(m, a, g), m, d', a, lo, g, at, x, |x|)
    ensures Transferred(d, d', a, lo, s, g, at, x)
  {
    hide Bytes, InCluster;
    assert x[..|x|] == x;
    forall l: nat | !(lo <= l < a.data) && !OfChain(a, g, l) ensures d'[l] == d[l] {
      forall i | 0 <= i < |g| - |s| ensures !InCluster(a.data, a.spc, g[|s|..][i], l) {
        assert g[|s|..][i] == g[|s| + i];
      }
    }
  }

  /** Outside the table only the entry may have changed, to hold the new size. */
  ghost predicate Resized(m: Disk, d': Disk, a: Area, lo: nat, info: Option<Info>, size: nat, size': nat) {
    && (forall l: nat :: !(lo <= l < a.data) && !(info.Some? && info.value.lba == l) ==> d'[l] == m[l])
    && (info.Some? ==> EntryIs(m, d', info.value, size, size'))
  }

  lemma ResizedBy(m: Disk, a: Area, lo: nat, info: Info, size: nat, size': Word32, sec: Sector)
    requires size < size' && info.off + 32 <= 512 && EntrySized(m[info.lba], sec, info.off, size')
    ensures Resized(m, m[info.lba := sec], a, lo, Some(info), size, size')
  {
    hide EntrySized;
  }

  lemma NotResized(m: Disk, a: Area, lo: nat, info: Option<Info>, size: nat, size': nat)
    requires info.Some? ==> size' == size
    ensures Resized(m, m, a, lo, info, size, size')
  {
  }

  lemma ThenSynced(m: Disk, n: Disk, d': Disk, a: Area, lo: nat, info: Option<Info>, size: nat, size': nat)
    requires Resized(m, n, a, lo, info, size, size') && (info.Some? ==> info.value.lba >= a.data)
    requires forall l: nat :: !(lo <= l < a.data) ==> d'[l] == n[l]
    ensures Resized(m, d', a, lo, info, size, size')
  {
    hide EntrySized;
  }

  /** What may change the entry's sector keeps the bytes of the file. */
  lemma ThenEntry(d: Disk, m: Disk, d': Disk, a: Area, lo: nat, s: seq<nat>, g: seq<nat>, at: nat, x: seq<Byte>,
      info: Option<Info>, size: nat, size': nat)
    requires Transferred(d, m, a, lo, s, g, at, x)
    requires info.Some? ==> !OfChain(a, g, info.value.lba) && info.value.lba >= a.data
    requires Resized(m, d', a, lo, info, size, size')
    ensures Wrote(d, d', a, lo, s, g, at, x, info, size, size')
  {
    hide Bytes, Spliced, InCluster, OfChain, EntrySized;
    forall l: nat | OfChain(a, g, l) ensures d'[l] == m[l] {
      OfChainAbove(a, g, l);
    }
    SameBytes(m, d', a, g);
  }

  lemma OfChainAbove(a: Area, s: seq<nat>, l: nat)
    requires Clusters(s) && OfChain(a, s, l)
    ensures l >= a.data
  {
    var i :| 0 <= i < |s| && InCluster(a.data, a.spc, s[i], l);
    DataAbove(a, s[i]);
  }

  /** What fat32_vfs_write relies on: a chain that holds the size, an entry elsewhere, and
      a scan that stays inside the table for each cluster to append. */
  ghost predicate Writable(t: Fat, a: Area, hint: nat, s: seq<nat>, ino: nat, size: nat, info: Option<Info>, dc: nat,
      end: nat) {
    && Holds(t, a, s, ino, size)
    && 1 <= a.spc <= 255 && size + a.spc * 512 <= TWO_32 && end + a.spc * 512 <= TWO_32
    && (info.Some? ==> EntryApart(t, a, s, info.value, dc))
    && Ready(t, Hint(hint), Missing(a.spc, size, end))
  }

  /** The growth of fat32_vfs_write, when the chain is too short. */
  method Extend(d: Driver, first: nat, size: nat, end: nat, ghost s: seq<nat>) returns (ok: bool, ghost g: seq<nat>)
    requires d.Valid() && Holds(d.Table(), AreaOf(d), s, first, size)
    requires 1 <= d.spc <= 255 && size + d.spc * 512 <= TWO_32 && end + d.spc * 512 <= TWO_32
    requires Ready(d.Table(), Hint(d.hint), Missing(d.spc, size, end))
    modifies d`disk, d`dirty, d`cacheSector, d`hint, d.buf
    ensures d.Valid() && Growth(old(d.Table()), d.Table(), old(d.disk), d.disk, AreaOf(d), d.fatStart, s, g)
    ensures ok ==> |g| == |s| + Missing(d.spc, size, end) && end <= |g| * d.spc * 512
    ensures !ok ==> NoneFree(d.Table()) && d.OnDisk()
  {
    hide TableOf, Ready, Growth, NoneFree, ClustersFor, IsChain, Clusters, Word;
    var owned: nat := if size == 0 then 1 else ClustersFor(d.spc, size);
    var needed: nat := ClustersFor(d.spc, Word(end));
    WordFits(end);
    ghost var t, a := d.Table(), AreaOf(d);
    LastOf(t, s);
    Capacity(d.spc, size, end, |s|);
    if needed > owned {
      var count: nat := needed - owned;
      assert count == Missing(d.spc, size, end);
      var tail := Tail(d, first, s);
      ghost var m := d.disk;
      ok, g := GrowBy(d, tail, count, s);
      GrowthFrom(t, d.Table(), old(d.disk), m, d.disk, a, d.fatStart, s, g);
    } else {
      NoGrowth(t, d.disk, d.disk, a, d.fatStart, s);
      ok, g := true, s;
    }
  }

  /** Walking the chain first makes no difference to the growth. */
  lemma GrowthFrom(t: Fat, t': Fat, d: Disk, m: Disk, d': Disk, a: Area, lo: nat, s: seq<nat>, g: seq<nat>)
    requires Growth(t, t', m, d', a, lo, s, g) && forall l: nat :: !(lo <= l < a.data) ==> m[l] == d[l]
    ensures Growth(t, t', d, d', a, lo, s, g)
  {
    hide Grown, Bytes;
    BytesAbove(d, m, a, s);
  }

  /** fat32_vfs_write returns -1 for an empty buffer or a full disk, and otherwise stores the
      whole buffer from the position where its loops start. The chain may have grown, by
      clusters that were free; the size goes up to the end of the write, in the directory
      entry too; the table is on disk; nothing else changed. */
  method WriteFile(d: Driver, f: Inode, src: array<Byte>, offset: nat, ghost s: seq<nat>,
      ghost dc: nat) returns (r: int, ghost g: seq<nat>)
    requires d.Valid() && src != d.buf
    requires Writable(d.Table(), AreaOf(d), d.hint, s, f.ino, f.size, f.info, dc, offset + src.Length)
    modifies d`disk, d`dirty, d`cacheSector, d`hint, d.buf, f`size
    ensures d.Valid() && (r == -1 || (r == src.Length && r > 0))
    ensures src.Length == 0 ==> r == -1 && d.disk == old(d.disk) && d.Table() == old(d.Table()) && f.size == old(f.size)
    ensures src.Length > 0 ==> d.OnDisk()
    ensures src.Length > 0 && r == -1 ==>
            Growth(old(d.Table()), d.Table(), old(d.disk), d.disk, AreaOf(d), d.fatStart, s, g)
    ensures src.Length > 0 && r == -1 ==> NoneFree(d.Table()) && f.size == old(f.size)
    ensures r > 0 ==> Grown(old(d.Table()), d.Table(), s, g) && Clusters(s) && Clusters(g)
    ensures r > 0 ==> |g| == |s| + Missing(d.spc, old(f.size), offset + src.Length)
    ensures r > 0 ==> Wrote(old(d.disk), d.disk, AreaOf(d), d.fatStart, s, g, Start(d.spc, offset), src[..], f.info,
        old(f.size), f.size)
    ensures r > 0 ==> f.size == if offset + src.Length > old(f.size) then offset + src.Length else old(f.size)
  {
    hide TableOf, Growth, Grown, NoneFree, Start, Wrote, Put, Ready, Missing, EntryApart;
    g := s;
    if src.Length == 0 {
      return -1, g;
    }
    ghost var a, t, was, at := AreaOf(d), d.Table(), d.disk, Start(d.spc, offset);
    var ok;
    ok, g := Extend(d, f.ino, f.size, offset + src.Length, s);
    if !ok {
      return -1, g;
    }
    ghost var m, t' := d.disk, d.Table();
    GrowthChain(t, t', was, m, a, d.fatStart, s, g);
    var w := WriteRange(d, f.ino, src, offset, g);
    GrownThenPut(t, t', was, m, d.disk, a, d.fatStart, s, g, at, src[..]);
    Finish(d, f, offset + w, was, s, g, at, src[..], t, dc);
    r := w;
  }

  /** The end of fat32_vfs_write: the size, the entry and the table. */
  method Finish(d: Driver, f: Inode, end: nat, ghost was: Disk, ghost s: seq<nat>, ghost g: seq<nat>,
      ghost at: nat, ghost x: seq<Byte>, ghost t: Fat, ghost dc: nat)
    requires d.Valid() && end < TWO_32 && Transferred(was, d.disk, AreaOf(d), d.fatStart, s, g, at, x)
    requires Grown(t, d.Table(), s, g) && (f.info.Some? ==> EntryApart(t, AreaOf(d), s, f.info.value, dc))
    modifies d`disk, d`dirty, f`size
    ensures d.Valid() && d.OnDisk() && d.Table() == old(d.Table())
    ensures f.size == if end > old(f.size) then end else old(f.size)
    ensures Wrote(was, d.disk, AreaOf(d), d.fatStart, s, g, at, x, f.info, old(f.size), f.size)
  {
    hide TableOf, Grown, Wrote, Transferred, EntryApart, EntrySized, OfChain, Clusters, Resized;
    ghost var a, m, size := AreaOf(d), d.disk, f.size;
    if f.info.Some? {
      EntryPlace(t, d.Table(), was, m, a, d.fatStart, s, g, at, x, f.info.value, dc);
    }
    Resize(d, f, end);
    ghost var n := d.disk;
    d.Sync();
    ThenSynced(m, n, d.disk, a, d.fatStart, f.info, size, f.size);
    ThenEntry(was, m, d.disk, a, d.fatStart, s, g, at, x, f.info, size, f.size);
  }

  /** The size and the entry go up to the end of the write. */
  method Resize(d: Driver, f: Inode, end: nat)
    requires d.Valid() && end < TWO_32
    requires (f.info.Some? ==> f.info.value.off + 32 <= 512 && f.info.value.lba >= d.dataStart)
    modifies d`disk, f`size
    ensures d.Valid() && d.Table() == old(d.Table())
    ensures f.size == if end > old(f.size) then end else old(f.size)
    ensures Resized(old(d.disk), d.disk, AreaOf(d), d.fatStart, f.info, old(f.size), f.size)
  {
    hide TableOf, Resized, EntrySized;
    ghost var m, size := d.disk, f.size;
    if end > f.size {
      f.size := end;
      if f.info.Some? {
        ghost var sec := UpdateEntry(d, f.info.value, f.size);
        EntryAbove(m, d.disk, f.info.value.lba, sec, d);
        ResizedBy(m, AreaOf(d), d.fatStart, f.info.value, size, end, sec);
        return;
      }
    }
    NotResized(m, AreaOf(d), d.fatStart, f.info, size, f.size);
  }

  lemma EntryPlace(t: Fat, t': Fat, d: Disk, m: Disk, a: Area, lo: nat, s: seq<nat>, g: seq<nat>, at: nat,
      x: seq<Byte>, info: Info, dc: nat)
    requires EntryApart(t, a, s, info, dc) && Grown(t, t', s, g) && Transferred(d, m, a, lo, s, g, at, x)
    ensures Clusters(g) && !OfChain(a, g, info.lba) && info.lba >= a.data && info.off + 32 <= 512
  {
    EntryOutside(t, t', a, s, g, info, dc);
  }

  /** The entry's sector is a data sector, so that neither the table nor the cache is touched. */
  lemma EntryAbove(m: Disk, now: Disk, lba: nat, sec: Sector, d: Driver)
    requires d.Geometry() && d.buf.Length == 512 && d.dataStart <= lba && now == m[lba := sec]
    ensures TableOf(now, d.cacheSector, d.buf[..], d.fatStart, d.n) ==
            TableOf(m, d.cacheSector, d.buf[..], d.fatStart, d.n)
    ensures d.cacheSector < d.dataStart ==> now[d.cacheSector] == m[d.cacheSector]
  {
    SameTable(m, d.cacheSector, d.buf[..], now, d.cacheSector, d.buf[..], d.fatStart, d.n, d.dataStart);
  }

  lemma GrowthChain(t: Fat, t': Fat, d: Disk, d': Disk, a: Area, lo: nat, s: seq<nat>, g: seq<nat>)
    requires Growth(t, t', d, d', a, lo, s, g) && |s| >= 1
    ensures IsChain(t', g) && g[0] == s[0] && Clusters(g) && Clusters(s) && |s| <= |g| && Grown(t, t', s, g)
  {
  }
}
