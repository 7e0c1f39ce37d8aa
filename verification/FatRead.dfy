/** Reading a file of the FAT32 volume (fat32_vfs_read, src/fs/fat32.c:426-464). */
module FatRead {
  import opened Wrappers
  import opened Words
  import opened FatTable
  import opened FatDriver
  import opened FatBytes

  /** Where the directory entry of a file is: its sector, and its offset there. */
  datatype Info = Info(lba: nat, off: nat)

  class Inode {
    const ino: nat // the first cluster
    var size: nat
    const info: Option<Info>

    constructor (first: nat, bytes: nat, entry: Option<Info>)
      ensures ino == first && size == bytes && info == entry
    {
      ino, size, info := first, bytes, entry;
    }
  }

  ghost function AreaOf(d: Driver): Area {
    Area(d.dataStart, d.spc)
  }

  /** The chain s of a file holds its size. */
  ghost predicate Holds(t: Fat, a: Area, s: seq<nat>, ino: nat, size: nat) {
    && IsChain(t, s) && s[0] == ino
    && a.spc >= 1 && size <= |s| * a.spc * 512
    && Clusters(s)
  }

  // ----- positions -----

  /** Where both transfer loops start: at the first sector of the cluster that offset falls in. */
  function Start(spc: nat, offset: nat): (at: nat)
    requires spc >= 1
  {
    offset / (spc * 512) * (spc * 512) + offset % (spc * 512) % 512
  }

  /** The transfer is at the offset exactly when this falls in the first sector of its cluster. */
  lemma StartIsOffset(spc: nat, offset: nat)
    requires spc >= 1
    ensures Start(spc, offset) <= offset
    ensures Start(spc, offset) == offset <==> offset % (spc * 512) < 512
    ensures Start(spc, offset) % 512 == Rank(spc * 512, offset) % 512
    ensures spc == 1 ==> Start(spc, offset) == offset
  {
    var k, r := offset / (spc * 512), offset % (spc * 512);
    assert Start(spc, offset) == k * spc * 512 + r % 512 by {
      assert k * (spc * 512) == k * spc * 512;
    }
  }

  /** w bytes are done, sector i of the k-th cluster comes next. */
  ghost predicate Upcoming(spc: nat, at: nat, w: nat, k: nat, i: nat)
    requires spc >= 1
  {
    at + w == (k * spc + i) * 512 + (if w == 0 then at % 512 else 0)
  }

  lemma StartsAt(spc: nat, offset: nat)
    requires spc >= 1
    ensures Upcoming(spc, Start(spc, offset), 0, Seat(spc * 512, offset), 0)
  {
    StartIsOffset(spc, offset);
    var k := offset / (spc * 512);
    assert k * (spc * 512) == k * spc * 512;
  }

  lemma Inside(spc: nat, at: nat, w: nat, k: nat, i: nat, m: nat)
    requires spc >= 1 && Upcoming(spc, at, w, k, i) && at + w < m * spc * 512 && i < spc
    ensures k < m && k * spc + i < m * spc
    ensures Seat(spc, k * spc + i) == k && Rank(spc, k * spc + i) == i
  {
    Multiples(spc, k, m);
    SeatAndRank(spc, k * spc + i, k + 1);
    SeatAndRank(spc, k * spc + i, k);
  }

  /** What comes next in the k-th cluster of m is inside the chain. */
  lemma StillInside(spc: nat, at: nat, w: nat, k: nat, i: nat, m: nat)
    requires spc >= 1 && Upcoming(spc, at, w, k, i) && k < m && i < spc
    ensures at + w < m * spc * 512
  {
    Multiples(spc, k, m);
  }

  /** The count of bytes of a transfer step. */
  function Count(at: nat, w: nat, len: nat): (c: nat)
    requires w < len
    ensures 1 <= c <= 512 && w + c <= len
  {
    var o := if w == 0 then at % 512 else 0;
    if 512 - o > len - w then len - w else 512 - o
  }

  lemma NextAfter(spc: nat, at: nat, w: nat, len: nat, k: nat, i: nat)
    requires spc >= 1 && w < len && Upcoming(spc, at, w, k, i)
    ensures w + Count(at, w, len) < len ==> Upcoming(spc, at, w + Count(at, w, len), k, i + 1)
  {
  }

  // ----- reading -----

  /** What is left of a file from offset on, at most len bytes. */
  function Available(size: nat, offset: nat, len: nat): (r: nat)
    ensures r <= len
    ensures r > 0 ==> offset + r <= size
  {
    if offset >= size then 0 else if offset + len > size then size - offset else len
  }

  /** dest holds the first w bytes from position at, and is as it was behind them. */
  ghost predicate Got(b: seq<Byte>, at: nat, was: seq<Byte>, now: seq<Byte>, w: nat) {
    && at + w <= |b| && w <= |was| && |now| == |was|
    && now == b[at..at + w] + was[w..]
  }

  /** One memcpy further. */
  lemma GotOn(disk: Disk, a: Area, s: seq<nat>, q: nat, at: nat, was: seq<Byte>, now: seq<Byte>, now': seq<Byte>,
      w: nat, o: nat, count: nat)
    requires a.spc >= 1 && Clusters(s) && q < |s| * a.spc && o + count <= 512
    requires Got(Bytes(disk, a, s), at, was, now, w) && at + w == q * 512 + o && w + count <= |was|
    requires now' == now[..w] + disk[SectorOf(a, s, q)][o..o + count] + now[w + count..]
    ensures Got(Bytes(disk, a, s), at, was, now', w + count)
  {
    hide SectorOf, ByteAt;
    var b := Bytes(disk, a, s);
    var sec := disk[SectorOf(a, s, q)];
    assert at + w + count <= |b|;
    forall p | 0 <= p < |was|
      ensures now'[p] == (b[at..at + w + count] + was[w + count..])[p]
    {
      if w <= p < w + count {
        assert b[at + p] == ByteAt(disk, a, s, at + p);
        InSector(disk, a, s, at + p);
        assert (at + p) / 512 == q && (at + p) % 512 == o + (p - w);
      }
    }
  }

  /** memcpy out of a sector */
  method CopyOut(sec: array<Byte>, o: nat, dest: array<Byte>, to: nat, count: nat)
    requires sec != dest && o + count <= sec.Length && to + count <= dest.Length
    modifies dest
    ensures dest[..] == old(dest[..to]) + sec[o..o + count] + old(dest[to + count..])
  {
    forall i | 0 <= i < count {
      dest[to + i] := sec[o + i];
    }
  }

  /** The inner loop: the sectors of the k-th cluster. */
  method ReadCluster(d: Driver, cluster: nat, sectorBuf: array<Byte>, dest: array<Byte>, len: nat, start: nat,
      done: nat,
      ghost at: nat, ghost k: nat, ghost s: seq<nat>, ghost was: seq<Byte>) returns (w: nat)
    requires Clusters(s) && d.spc >= 1 && k < |s| && s[k] == cluster
    requires sectorBuf.Length == 512 && sectorBuf != dest && dest.Length >= len && |was| == dest.Length
    requires start == at % 512 && done < len && Upcoming(d.spc, at, done, k, 0)
    requires Got(Bytes(d.disk, AreaOf(d), s), at, was, dest[..], done)
    modifies sectorBuf, dest
    ensures done < w <= len && (w < len ==> Upcoming(d.spc, at, w, k + 1, 0))
    ensures Got(Bytes(d.disk, AreaOf(d), s), at, was, dest[..], w)
  {
    hide Upcoming, Got, Bytes, SectorOf;
    ghost var a := AreaOf(d);
    var lba: nat := ClusterLba(d.dataStart, d.spc, cluster);
    var i: nat := 0;
    w := done;
    while i < d.spc && w < len
      invariant i <= d.spc && done <= w <= len && (i > 0 ==> done < w)
      invariant w < len ==> Upcoming(d.spc, at, w, k, i)
      invariant Got(Bytes(d.disk, a, s), at, was, dest[..], w)
    {
      d.ReadSector(lba + i, sectorBuf);
      var startByte: nat := if w == 0 then start else 0;
      var count: nat := 512 - startByte;
      if count > len - w {
        count := len - w;
      }
      ghost var now := dest[..];
      CopyOut(sectorBuf, startByte, dest, w, count);
      ReadStep(d.disk, a, s, sectorBuf[..], at, was, now, dest[..], w, len, k, i);
      w := w + count;
      i := i + 1;
    }
    RowDone(d.spc, at, w, k);
  }

  lemma RowDone(spc: nat, at: nat, w: nat, k: nat)
    requires spc >= 1
    ensures Upcoming(spc, at, w, k, spc) ==> Upcoming(spc, at, w, k + 1, 0)
  {
    assert (k + 1) * spc == k * spc + spc;
  }

  lemma ReadStep(disk: Disk, a: Area, s: seq<nat>, sec: seq<Byte>, at: nat, was: seq<Byte>, now: seq<Byte>,
      now': seq<Byte>,
      w: nat, len: nat, k: nat, i: nat)
    requires a.spc >= 1 && Clusters(s) && k < |s| && i < a.spc && w < len && len <= |was|
    requires sec == disk[ClusterLba(a.data, a.spc, s[k]) + i]
    requires Got(Bytes(disk, a, s), at, was, now, w) && Upcoming(a.spc, at, w, k, i)
    requires var o := if w == 0 then at % 512 else 0;
             var c := Count(at, w, len);
             now' == now[..w] + sec[o..o + c] + now[w + c..]
    ensures Got(Bytes(disk, a, s), at, was, now', w + Count(at, w, len))
    ensures w + Count(at, w, len) < len ==> Upcoming(a.spc, at, w + Count(at, w, len), k, i + 1)
  {
    hide Got, Bytes, ClusterLba, Seat, Rank;
    StillInside(a.spc, at, w, k, i, |s|);
    Inside(a.spc, at, w, k, i, |s|);
    NextAfter(a.spc, at, w, len, k, i);
    assert SectorOf(a, s, k * a.spc + i) == ClusterLba(a.data, a.spc, s[k]) + i;
    GotOn(disk, a, s, k * a.spc + i, at, was, now, now', w, if w == 0 then at % 512 else 0, Count(at, w, len));
  }

  // ----- along a chain -----

  /** The loop that skips clusters; a chain that holds the offset has no end before it. */
  method Skip(d: Driver, first: nat, skip: nat, ghost s: seq<nat>) returns (current: nat)
    requires d.Valid() && IsChain(d.Table(), s) && s[0] == first && skip < |s|
    modifies d`disk, d`dirty, d`cacheSector, d.buf
    ensures d.Valid() && d.Table() == old(d.Table()) && d.DataKept()
    ensures current == s[skip]
  {
    hide IsChain;
    ghost var t := d.Table();
    current := first;
    var i: nat := 0;
    while i < skip
      modifies d`disk, d`dirty, d`cacheSector, d.buf
      invariant i <= skip && current == s[i]
      invariant d.Valid() && d.Table() == t && d.DataKept()
    {
      LinkOf(t, s, i);
      current := d.GetNext(current);
      i := i + 1;
    }
  }

  /** The loop of fat32_vfs_read that skips clusters, and gives up at the end of the chain. */
  method SkipOrEnd(d: Driver, first: nat, skip: nat, ghost s: seq<nat>) returns (ended: bool, current: nat)
    requires d.Valid() && IsChain(d.Table(), s) && s[0] == first
    modifies d`disk, d`dirty, d`cacheSector, d.buf
    ensures d.Valid() && d.Table() == old(d.Table()) && d.DataKept()
    ensures ended <==> skip >= |s|
    ensures !ended ==> current == s[skip]
  {
    hide IsChain, TableOf;
    ghost var t := d.Table();
    ChainNonEmpty(t, s);
    current := first;
    var i: nat := 0;
    while i < skip
      modifies d`disk, d`dirty, d`cacheSector, d.buf
      invariant i <= skip && i < |s| && current == s[i]
      invariant d.Valid() && d.Table() == t && d.DataKept()
    {
      LinkOf(t, s, i);
      current := d.GetNext(current);
      if i + 1 < |s| {
        LinkOf(t, s, i + 1);
      }
      if current >= EOC {
        return true, current;
      }
      i := i + 1;
    }
    ended := false;
  }

  lemma SkipInside(spc: nat, offset: nat, m: nat)
    requires spc >= 1 && offset < m * spc * 512
    ensures Seat(spc * 512, offset) < m
  {
    assert m * (spc * 512) == m * spc * 512;
    SeatAndRank(spc * 512, offset, m);
  }

  lemma RowInside(spc: nat, at: nat, w: nat, k: nat, m: nat)
    requires spc >= 1 && w > 0 && Upcoming(spc, at, w, k, 0) && at + w < m * spc * 512
    ensures k < m
  {
    Multiples(spc, k, m);
  }

  lemma GotNothing(b: seq<Byte>, at: nat, was: seq<Byte>)
    requires at <= |b|
    ensures Got(b, at, was, was, 0)
  {
    assert b[at..at] + was[0..] == was;
  }

  lemma BytesAbove(d: Disk, d': Disk, a: Area, s: seq<nat>)
    requires a.spc >= 1 && Clusters(s)
    requires forall l: nat :: l >= a.data ==> d'[l] == d[l]
    ensures Bytes(d', a, s) == Bytes(d, a, s)
  {
    hide Bytes;
    forall l: nat | OfChain(a, s, l) ensures l >= a.data {
      var i :| 0 <= i < |s| && InCluster(a.data, a.spc, s[i], l);
      DataAbove(a, s[i]);
    }
    SameBytes(d, d', a, s);
  }

  /** One turn of the outer loop: a cluster, and the step to the next one. */
  method ReadTurn(d: Driver, cluster: nat, sectorBuf: array<Byte>, dest: array<Byte>, len: nat, start: nat, done: nat,
      ghost at: nat, ghost k: nat, ghost s: seq<nat>, ghost was: seq<Byte>) returns (w: nat, next: nat)
    requires d.Valid() && IsChain(d.Table(), s) && Clusters(s) && k < |s| && s[k] == cluster
    requires sectorBuf.Length == 512 && sectorBuf != dest && sectorBuf != d.buf && dest != d.buf
    requires dest.Length >= len && |was| == dest.Length
    requires start == at % 512 && done < len && Upcoming(d.spc, at, done, k, 0)
    requires Got(Bytes(d.disk, AreaOf(d), s), at, was, dest[..], done)
    modifies d`disk, d`dirty, d`cacheSector, d.buf, sectorBuf, dest
    ensures d.Valid() && d.Table() == old(d.Table()) && d.DataKept()
    ensures Bytes(d.disk, AreaOf(d), s) == old(Bytes(d.disk, AreaOf(d), s))
    ensures done < w <= len
    ensures w < len ==> Upcoming(d.spc, at, w, k + 1, 0)
    ensures if k + 1 < |s| then next == s[k + 1] && next < EOC else next >= EOC
    ensures Got(Bytes(d.disk, AreaOf(d), s), at, was, dest[..], w)
  {
    hide Upcoming, Got, Bytes, IsChain, TableOf;
    w := ReadCluster(d, cluster, sectorBuf, dest, len, start, done, at, k, s, was);
    LinkOf(d.Table(), s, k);
    ghost var before := d.disk;
    next := d.GetNext(cluster);
    BytesAbove(before, d.disk, AreaOf(d), s);
    if k + 1 < |s| {
      LinkOf(d.Table(), s, k + 1);
    }
  }

  /** As many of len bytes from position at on as there are. */
  function Reach(cap: nat, at: nat, len: nat): (r: nat)
    ensures r <= len && (r > 0 ==> at + r <= cap)
  {
    if at >= cap then 0 else if at + len <= cap then len else cap - at
  }

  /** How many bytes m clusters hold. */
  function ChainBytes(spc: nat, m: nat): nat {
    m * spc * 512
  }

  lemma StartParts(spc: nat, offset: nat)
    requires spc >= 1
    ensures Start(spc, offset) == Seat(spc * 512, offset) * (spc * 512) + Rank(spc * 512, offset) % 512
  {
  }

  lemma SeatStart(spc: nat, offset: nat, m: nat)
    requires spc >= 1
    ensures Start(spc, offset) < ChainBytes(spc, m) <==> Seat(spc * 512, offset) < m
  {
    hide Seat, Rank, Start;
    StartParts(spc, offset);
    var q, z := Seat(spc * 512, offset), spc * 512;
    Multiples(z, q, m);
    assert m * z == m * spc * 512;
    assert Rank(z, offset) % 512 < 512 <= z;
  }

  lemma RowAtEnd(spc: nat, at: nat, w: nat, m: nat)
    requires spc >= 1 && w > 0 && Upcoming(spc, at, w, m, 0)
    ensures at + w == ChainBytes(spc, m)
  {
  }

  /** The walk and the loops of fat32_vfs_read: the range, as far as the chain goes. */
  method ReadRange(d: Driver, first: nat, dest: array<Byte>, len: nat, offset: nat, ghost s: seq<nat>) returns (w: nat)
    requires d.Valid() && IsChain(d.Table(), s) && s[0] == first && Clusters(s)
    requires dest != d.buf && 0 < len <= dest.Length
    modifies d`disk, d`dirty, d`cacheSector, d.buf, dest
    ensures d.Valid() && d.Table() == old(d.Table()) && d.DataKept()
    ensures w == Reach(ChainBytes(d.spc, |s|), Start(d.spc, offset), len)
    ensures w > 0 ==> Got(Bytes(old(d.disk), AreaOf(d), s), Start(d.spc, offset), old(dest[..]), dest[..], w)
    ensures w == 0 ==> dest[..] == old(dest[..])
  {
    hide Upcoming, Got, Bytes, IsChain, Start, TableOf, Seat, Rank, ChainBytes;
    ghost var a, t, b, at := AreaOf(d), d.Table(), Bytes(d.disk, AreaOf(d), s), Start(d.spc, offset);
    ghost var was := dest[..];
    var skip: nat, inCluster: nat := Seat(d.spc * 512, offset), Rank(d.spc * 512, offset);
    StartsAt(d.spc, offset);
    StartIsOffset(d.spc, offset);
    SeatStart(d.spc, offset, |s|);
    var ended, current := SkipOrEnd(d, first, skip, s);
    if ended {
      return 0;
    }
    BytesCount(d.disk, a, s);
    BytesCount(old(d.disk), a, s);
    GotNothing(b, at, was);
    BytesAbove(old(d.disk), d.disk, a, s);
    LinkOf(t, s, skip);
    w := 0;
    ghost var k: nat := skip;
    var sectorBuf := new Byte[512];
    while w < len && current < EOC
      modifies d`disk, d`dirty, d`cacheSector, d.buf, dest, sectorBuf
      invariant d.Valid() && d.Table() == t && d.DataKept() && Bytes(d.disk, a, s) == b
      invariant w <= len && (w < len ==> Upcoming(d.spc, at, w, k, 0)) && (w == 0 ==> k == skip)
      invariant k <= |s| && if k < |s| then current == s[k] && current < EOC else current >= EOC
      invariant Got(b, at, was, dest[..], w)
      decreases len - w
    {
      w, current := ReadTurn(d, current, sectorBuf, dest, len, inCluster % 512, w, at, k, s, was);
      k := k + 1;
    }
    GotWithin(b, at, was, dest[..], w);
    if w < len {
      RowAtEnd(d.spc, at, w, |s|);
    }
  }

  lemma BytesCount(d: Disk, a: Area, s: seq<nat>)
    requires a.spc >= 1 && Clusters(s)
    ensures |Bytes(d, a, s)| == ChainBytes(a.spc, |s|)
  {
  }

  lemma GotWithin(b: seq<Byte>, at: nat, was: seq<Byte>, now: seq<Byte>, w: nat)
    requires Got(b, at, was, now, w)
    ensures at + w <= |b|
  {
  }

  lemma HeldBytes(t: Fat, a: Area, s: seq<nat>, ino: nat, size: nat)
    ensures Holds(t, a, s, ino, size) ==> size <= ChainBytes(a.spc, |s|)
  {
  }

  /** fat32_vfs_read returns the slice of the chain that starts where both loops start, as long as
      what is left of the file and of the chain; nothing on the volume changes. */
  method ReadFile(d: Driver, f: Inode, dest: array<Byte>, len: nat, offset: nat, ghost s: seq<nat>) returns (r: nat)
    requires d.Valid() && IsChain(d.Table(), s) && s[0] == f.ino && Clusters(s) && f.size < TWO_32
    requires dest != d.buf && len <= dest.Length && offset + len < TWO_64
    modifies d`disk, d`dirty, d`cacheSector, d.buf, dest
    ensures d.Valid() && d.Table() == old(d.Table()) && d.DataKept()
    ensures r == Reach(ChainBytes(d.spc, |s|), Start(d.spc, offset), Available(f.size, offset, len))
    ensures Holds(d.Table(), AreaOf(d), s, f.ino, f.size) ==> r == Available(f.size, offset, len)
    ensures r > 0 ==> Got(Bytes(old(d.disk), AreaOf(d), s), Start(d.spc, offset), old(dest[..]), dest[..], r)
    ensures r == 0 ==> dest[..] == old(dest[..])
  {
    hide Start, Got, Bytes, TableOf, IsChain, ChainBytes;
    StartIsOffset(d.spc, offset);
    HeldBytes(d.Table(), AreaOf(d), s, f.ino, f.size);
    if offset >= f.size {
      return 0;
    }
    var count: nat := if offset + len > f.size then f.size - offset else len;
    if count == 0 {
      return 0;
    }
    r := ReadRange(d, f.ino, dest, count, offset, s);
  }
}
