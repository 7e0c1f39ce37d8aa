/** Writing a file of the FAT32 volume (fat32_vfs_write, src/fs/fat32.c:989-1066). */
module FatWrite {
  import opened Words
  import opened FatTable
  import opened FatDriver
  import opened FatBytes
  import opened FatRead
  import opened FatGrow

  // ----- the transfer loops -----

  /** The bytes b with the first w bytes of x at position at; sectors outside the chain are as in d. */
  ghost predicate Put(b: seq<Byte>, d: Disk, d': Disk, a: Area, lo: nat, s: seq<nat>, at: nat, x: seq<Byte>, w: nat) {
    && a.spc >= 1 && Clusters(s) && w <= |x|
    && Spliced(b, Bytes(d', a, s), at, x[..w])
    && KeptBut(d, d', a, lo, s)
  }

  lemma PutNothing(d: Disk, d': Disk, a: Area, lo: nat, s: seq<nat>, at: nat, x: seq<Byte>)
    requires a.spc >= 1 && Clusters(s) && at <= |s| * a.spc * 512
    requires forall l: nat :: !(lo <= l < a.data) ==> d'[l] == d[l]
    ensures Put(Bytes(d, a, s), d, d', a, lo, s, at, x, 0)
  {
    hide Bytes;
    BytesAbove(d, d', a, s);
  }

  lemma PutKept(b: seq<Byte>, d: Disk, m: Disk, d': Disk, a: Area, lo: nat, s: seq<nat>, at: nat, x: seq<Byte>, w: nat)
    requires Put(b, d, m, a, lo, s, at, x, w) && forall l: nat :: !(lo <= l < a.data) ==> d'[l] == m[l]
    ensures Put(b, d, d', a, lo, s, at, x, w)
  {
    hide Bytes, Spliced;
    BytesAbove(m, d', a, s);
  }

  ghost predicate SameBelow(d: Disk, d': Disk, top: nat) {
    forall l: nat :: l < top ==> d'[l] == d[l]
  }

  lemma SameAsIs(d: Disk, top: nat)
    ensures SameBelow(d, d, top)
  {
  }

  lemma BelowStep(d: Disk, m: Disk, m': Disk, a: Area, c: nat, i: nat, sec: Sector)
    requires c >= 2 && SameBelow(d, m, a.data) && m' == m[ClusterLba(a.data, a.spc, c) + i := sec]
    ensures SameBelow(d, m', a.data)
  {
    hide ClusterLba;
    DataAbove(a, c);
  }

  lemma WriteStep(b: seq<Byte>, d: Disk, m: Disk, m': Disk, a: Area, lo: nat, s: seq<nat>, sec: Sector, at: nat,
      x: seq<Byte>,
      w: nat, k: nat, i: nat)
    requires a.spc >= 1 && Clusters(s) && k < |s| && i < a.spc && w < |x|
    requires Put(b, d, m, a, lo, s, at, x, w) && at + |x| <= |s| * a.spc * 512 && |b| == |s| * a.spc * 512
    requires Upcoming(a.spc, at, w, k, i)
    requires Filled(m[ClusterLba(a.data, a.spc, s[k]) + i], sec, if w == 0 then at % 512 else 0, x, w,
               Count(at, w, |x|))
    requires m' == m[ClusterLba(a.data, a.spc, s[k]) + i := sec]
    ensures Put(b, d, m', a, lo, s, at, x, w + Count(at, w, |x|))
    ensures w + Count(at, w, |x|) < |x| ==> Upcoming(a.spc, at, w + Count(at, w, |x|), k, i + 1)
  {
    hide Bytes, ClusterLba, Seat, Rank, Spliced, Filled, SectorOf, KeptBut, Upcoming;
    Inside(a.spc, at, w, k, i, |s|);
    NextAfter(a.spc, at, w, |x|, k, i);
    SectorPlace(a, s, k, i);
    StepOffset(a.spc, at, w, k, i);
    SplicedOn(m, a, s, b, at, x, w, k * a.spc + i, sec, if w == 0 then at % 512 else 0, Count(at, w, |x|));
    KeptStep(d, m, m', a, lo, s, k, i, sec);
  }

  lemma SectorPlace(a: Area, s: seq<nat>, k: nat, i: nat)
    requires a.spc >= 1 && Clusters(s) && k < |s| && i < a.spc && k * a.spc + i < |s| * a.spc
    requires Seat(a.spc, k * a.spc + i) == k && Rank(a.spc, k * a.spc + i) == i
    ensures SectorOf(a, s, k * a.spc + i) == ClusterLba(a.data, a.spc, s[k]) + i
  {
    hide ClusterLba, Seat, Rank;
  }

  lemma StepOffset(spc: nat, at: nat, w: nat, k: nat, i: nat)
    requires spc >= 1 && Upcoming(spc, at, w, k, i)
    ensures at + w == (k * spc + i) * 512 + if w == 0 then at % 512 else 0
  {
  }

  lemma KeptStep(d: Disk, m: Disk, m': Disk, a: Area, lo: nat, s: seq<nat>, k: nat, i: nat, sec: Sector)
    requires Clusters(s) && k < |s| && i < a.spc && KeptBut(d, m, a, lo, s)
    requires m' == m[ClusterLba(a.data, a.spc, s[k]) + i := sec]
    ensures KeptBut(d, m', a, lo, s)
  {
    hide ClusterLba;
    assert InCluster(a.data, a.spc, s[k], ClusterLba(a.data, a.spc, s[k]) + i);
  }

  /** memcpy into a sector */
  method CopyIn(sec: array<Byte>, o: nat, src: array<Byte>, from: nat, count: nat)
    requires sec != src && sec.Length == 512 && o + count <= 512 && from + count <= src.Length
    modifies sec
    ensures Filled(old(sec[..]), sec[..], o, src[..], from, count)
  {
    forall i | 0 <= i < count {
      sec[o + i] := src[from + i];
    }
  }

  /** A sector that is overwritten whole need not be read first. */
  lemma FilledWhole(sec: Sector, was: Sector, sec': Sector, x: seq<Byte>, w: nat)
    requires w + 512 <= |x| && Filled(sec, sec', 0, x, w, 512)
    ensures Filled(was, sec', 0, x, w, 512)
  {
  }

  /** The transfer of one sector. */
  method WriteSector(d: Driver, l: nat, sectorBuf: array<Byte>, src: array<Byte>, o: nat, w: nat,
      count: nat) returns (ghost sec: Sector)
    requires sectorBuf.Length == 512 && sectorBuf != src && o + count <= 512 && w + count <= src.Length
    modifies d`disk, sectorBuf
    ensures d.disk == old(d.disk)[l := sec]
    ensures Filled(old(d.disk[l]), sec, o, src[..], w, count)
  {
    hide Filled;
    if count < 512 {
      d.ReadSector(l, sectorBuf);
    }
    ghost var was := sectorBuf[..];
    CopyIn(sectorBuf, o, src, w, count);
    if count == 512 {
      FilledWhole(was, d.disk[l], sectorBuf[..], src[..], w);
    }
    sec := sectorBuf[..];
    d.disk := d.disk[l := sectorBuf[..]];
  }

  /** One turn of the inner loop, for sector i of the k-th cluster. */
  method WriteOne(d: Driver, lba: nat, i: nat, sectorBuf: array<Byte>, src: array<Byte>, start: nat, done: nat,
      ghost b: seq<Byte>, ghost disk: Disk, ghost at: nat, ghost k: nat, ghost s: seq<nat>) returns (w: nat)
    requires Clusters(s) && d.spc >= 1 && k < |s| && lba == ClusterLba(d.dataStart, d.spc, s[k]) && i < d.spc
    requires sectorBuf.Length == 512 && sectorBuf != src && |b| == |s| * d.spc * 512
    requires at + src.Length <= |s| * d.spc * 512 && start == at % 512
    requires done < src.Length && Upcoming(d.spc, at, done, k, i)
    requires Put(b, disk, d.disk, AreaOf(d), d.fatStart, s, at, src[..], done)
    modifies d`disk, sectorBuf
    ensures done < w <= src.Length && (w < src.Length ==> Upcoming(d.spc, at, w, k, i + 1))
    ensures Put(b, disk, d.disk, AreaOf(d), d.fatStart, s, at, src[..], w)
    ensures SameBelow(old(d.disk), d.disk, d.dataStart)
  {
    hide Upcoming, Put, Bytes, SectorOf, ClusterLba, Filled, SameBelow;
    var startByte: nat := if done == 0 then start else 0;
    var count: nat := 512 - startByte;
    if count > src.Length - done {
      count := src.Length - done;
    }
    ghost var m := d.disk;
    ghost var sec := WriteSector(d, lba + i, sectorBuf, src, startByte, done, count);
    SameAsIs(m, d.dataStart);
    BelowStep(m, m, d.disk, AreaOf(d), s[k], i, sec);
    WriteStep(b, disk, m, d.disk, AreaOf(d), d.fatStart, s, sec, at, src[..], done, k, i);
    w := done + count;
  }

  lemma BelowOn(d: Disk, m: Disk, d': Disk, top: nat)
    requires SameBelow(d, m, top) && SameBelow(m, d', top)
    ensures SameBelow(d, d', top)
  {
  }

  /** The inner loop: the sectors of the k-th cluster. */
  method WriteCluster(d: Driver, cluster: nat, sectorBuf: array<Byte>, src: array<Byte>, start: nat, done: nat,
      ghost b: seq<Byte>, ghost disk: Disk, ghost at: nat, ghost k: nat, ghost s: seq<nat>) returns (w: nat)
    requires Clusters(s) && d.spc >= 1 && k < |s| && s[k] == cluster
    requires sectorBuf.Length == 512 && sectorBuf != src && |b| == |s| * d.spc * 512
    requires at + src.Length <= |s| * d.spc * 512 && start == at % 512
    requires done < src.Length && Upcoming(d.spc, at, done, k, 0)
    requires Put(b, disk, d.disk, AreaOf(d), d.fatStart, s, at, src[..], done)
    modifies d`disk, sectorBuf
    ensures done < w <= src.Length && (w < src.Length ==> Upcoming(d.spc, at, w, k + 1, 0))
    ensures Put(b, disk, d.disk, AreaOf(d), d.fatStart, s, at, src[..], w)
    ensures SameBelow(old(d.disk), d.disk, d.dataStart)
  {
    hide Upcoming, Put, Bytes, SectorOf, ClusterLba, Filled, SameBelow;
    ghost var a := AreaOf(d);
    SameAsIs(d.disk, d.dataStart);
    var lba: nat := ClusterLba(d.dataStart, d.spc, cluster);
    var i: nat := 0;
    w := done;
    while i < d.spc && w < src.Length
      invariant i <= d.spc && done <= w <= src.Length && (i > 0 ==> done < w)
      invariant w < src.Length ==> Upcoming(d.spc, at, w, k, i)
      invariant Put(b, disk, d.disk, a, d.fatStart, s, at, src[..], w)
      invariant SameBelow(old(d.disk), d.disk, d.dataStart)
    {
      ghost var m := d.disk;
      w := WriteOne(d, lba, i, sectorBuf, src, start, w, b, disk, at, k, s);
      BelowOn(old(d.disk), m, d.disk, d.dataStart);
      i := i + 1;
    }
    RowDone(d.spc, at, w, k);
  }

  /** One turn of the outer loop: a cluster, and the step to the next one. */
  method WriteTurn(d: Driver, cluster: nat, sectorBuf: array<Byte>, src: array<Byte>, start: nat, done: nat,
      ghost b: seq<Byte>, ghost disk: Disk, ghost at: nat, ghost k: nat, ghost s: seq<nat>) returns (w: nat, next: nat)
    requires d.Valid() && IsChain(d.Table(), s) && Clusters(s) && k < |s| && s[k] == cluster
    requires sectorBuf.Length == 512 && sectorBuf != src && sectorBuf != d.buf && src != d.buf
    requires |b| == |s| * d.spc * 512
    requires at + src.Length <= |s| * d.spc * 512 && start == at % 512
    requires done < src.Length && Upcoming(d.spc, at, done, k, 0)
    requires Put(b, disk, d.disk, AreaOf(d), d.fatStart, s, at, src[..], done)
    modifies d`disk, d`dirty, d`cacheSector, d.buf, sectorBuf
    ensures d.Valid() && d.Table() == old(d.Table())
    ensures done < w <= src.Length
    ensures w < src.Length ==> Upcoming(d.spc, at, w, k + 1, 0) && k + 1 < |s| && next == s[k + 1] && next < EOC
    ensures Put(b, disk, d.disk, AreaOf(d), d.fatStart, s, at, src[..], w)
  {
    hide Upcoming, Put, Bytes, IsChain, TableOf, SameBelow;
    w := WriteCluster(d, cluster, sectorBuf, src, start, done, b, disk, at, k, s);
    StillValid(old(d.disk), d.disk, d);
    LinkOf(d.Table(), s, k);
    ghost var before := d.disk;
    next := d.GetNext(cluster);
    PutKept(b, disk, before, d.disk, AreaOf(d), d.fatStart, s, at, src[..], w);
    if w < src.Length {
      RowInside(d.spc, at, w, k + 1, |s|);
      LinkOf(d.Table(), s, k + 1);
    }
  }

  /** Writing data sectors leaves the table and the cache alone. */
  lemma StillValid(was: Disk, now: Disk, d: Driver)
    requires SameBelow(was, now, d.dataStart) && d.Geometry() && d.buf.Length == 512
    ensures TableOf(now, d.cacheSector, d.buf[..], d.fatStart, d.n) ==
            TableOf(was, d.cacheSector, d.buf[..], d.fatStart, d.n)
    ensures d.cacheSector < d.dataStart ==> now[d.cacheSector] == was[d.cacheSector]
  {
    SameTable(was, d.cacheSector, d.buf[..], now, d.cacheSector, d.buf[..], d.fatStart, d.n, d.dataStart);
  }

  /** The walk and the loops of fat32_vfs_write, on a chain that is long enough. */
  method WriteRange(d: Driver, first: nat, src: array<Byte>, offset: nat, ghost s: seq<nat>) returns (w: nat)
    requires d.Valid() && IsChain(d.Table(), s) && s[0] == first && Clusters(s)
    requires src != d.buf && offset < |s| * d.spc * 512 && offset + src.Length <= |s| * d.spc * 512
    modifies d`disk, d`dirty, d`cacheSector, d.buf
    ensures d.Valid() && d.Table() == old(d.Table()) && w == src.Length
    ensures Put(Bytes(old(d.disk), AreaOf(d), s), old(d.disk), d.disk, AreaOf(d), d.fatStart, s,
        Start(d.spc, offset), src[..], w)
  {
    hide Upcoming, Put, Bytes, IsChain, Start, TableOf, Seat, Rank;
    ghost var a, t, b, at := AreaOf(d), d.Table(), Bytes(d.disk, AreaOf(d), s), Start(d.spc, offset);
    ghost var disk := d.disk;
    var skip: nat, inCluster: nat := Seat(d.spc * 512, offset), Rank(d.spc * 512, offset);
    StartsAt(d.spc, offset);
    StartIsOffset(d.spc, offset);
    SkipInside(d.spc, offset, |s|);
    var target: nat := Skip(d, first, skip, s);
    PutNothing(disk, d.disk, a, d.fatStart, s, at, src[..]);
    LinkOf(t, s, skip);
    w := 0;
    ghost var k: nat := skip;
    var sectorBuf := new Byte[512];
    while w < src.Length && target < EOC
      modifies d`disk, d`dirty, d`cacheSector, d.buf, sectorBuf
      invariant d.Valid() && d.Table() == t
      invariant w <= src.Length && (w < src.Length ==> Upcoming(d.spc, at, w, k, 0))
      invariant w < src.Length ==> k < |s| && target == s[k] && target < EOC
      invariant Put(b, disk, d.disk, a, d.fatStart, s, at, src[..], w)
      decreases src.Length - w
    {
      w, target := WriteTurn(d, target, sectorBuf, src, inCluster % 512, w, b, disk, at, k, s);
      k := k + 1;
    }
  }
}
