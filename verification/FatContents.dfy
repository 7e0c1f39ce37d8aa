/** What reads and writes mean for the contents of files (src/fs/fat32.c:426-464, 989-1066). */
module FatContents {
  import opened Wrappers
  import opened Words
  import opened FatTable
  import opened FatChains
  import opened FatDriver
  import opened FatBytes
  import opened FatRead
  import opened FatGrow
  import opened FatFile

  /** A file is the bytes of its chain, cut at its size. */
  ghost function Contents(d: Disk, a: Area, s: seq<nat>, size: nat): seq<Byte>
    requires a.spc >= 1 && Clusters(s) && size <= |s| * a.spc * 512
  {
    Bytes(d, a, s)[..size]
  }

  /** Behind the size, the chain holds zeros. */
  ghost predicate ZeroTail(d: Disk, a: Area, s: seq<nat>, size: nat)
    requires a.spc >= 1 && Clusters(s)
  {
    forall p :: size <= p < |s| * a.spc * 512 ==> Bytes(d, a, s)[p] == 0
  }

  /** c with x stored from position at on, up to the given size; a gap reads as zeros. */
  ghost function Overwritten(c: seq<Byte>, at: nat, x: seq<Byte>, size: nat): (r: seq<Byte>)
    ensures |r| == size
  {
    seq(size, p requires 0 <= p < size => if at <= p < at + |x| then x[p - at] else if p < |c| then c[p] else 0)
  }

  /** A write replaces exactly the bytes from where its loops start, fills any gap behind the old
      end with zeros, and keeps what lies behind the size zero. */
  lemma WrittenContents(d: Disk, d': Disk, a: Area, lo: nat, s: seq<nat>, g: seq<nat>, at: nat, x: seq<Byte>,
      info: Option<Info>, size: nat, end: nat)
    requires a.spc >= 1 && Clusters(s) && Clusters(g) && |s| <= |g|
    requires size <= |s| * a.spc * 512 && ZeroTail(d, a, s, size) && at + |x| <= end <= |g| * a.spc * 512
    requires var size' := if end > size then end else size;
             Wrote(d, d', a, lo, s, g, at, x, info, size, size')
    ensures var size' := if end > size then end else size;
            size' <= |g| * a.spc * 512
            && Contents(d', a, g, size') == Overwritten(Contents(d, a, s, size), at, x, size')
            && ZeroTail(d', a, g, size')
  {
    hide Bytes, KeptButFile, EntryIs;
    var size' := if end > size then end else size;
    var padded := Bytes(d, a, s) + Zeros((|g| - |s|) * a.spc * 512);
    Multiples(a.spc, |g|, |s|);
    assert |padded| == |g| * a.spc * 512;
    forall p | 0 <= p < |padded|
      ensures Bytes(d', a, g)[p] == if at <= p < at + |x| then x[p - at] else if p < size then Bytes(d, a, s)[p] else 0
    {
    }
  }

  /** A failed write leaves the contents, too. */
  lemma FailedContents(d: Disk, d': Disk, a: Area, lo: nat, s: seq<nat>, g: seq<nat>, size: nat)
    requires a.spc >= 1 && Clusters(s) && Clusters(g) && |s| <= |g| && GrownData(d, d', a, lo, s, g)
    requires size <= |s| * a.spc * 512 && ZeroTail(d, a, s, size)
    ensures size <= |g| * a.spc * 512
    ensures Contents(d', a, g, size) == Contents(d, a, s, size) && ZeroTail(d', a, g, size)
  {
    hide Bytes;
    Multiples(a.spc, |g|, |s|);
  }

  /** A write is at its offset, whatever the file holds and the buffer is. */
  ghost predicate InPlace(spc: nat, offset: nat)
    requires spc >= 1
  {
    forall c: seq<Byte>, x: seq<Byte>, size: nat :: offset + |x| <= size ==>
      Overwritten(c, Start(spc, offset), x, size) == Overwritten(c, offset, x, size)
  }

  /** Both loops start at sector 0 of a cluster: a write is where it should be exactly when the
      offset falls in the first sector of its cluster, as it always does with one sector a cluster. */
  lemma InPlaceExactly(spc: nat, offset: nat)
    requires spc >= 1
    ensures InPlace(spc, offset) <==> offset % (spc * 512) < 512
    ensures spc == 1 ==> InPlace(spc, offset)
  {
    hide Start;
    StartIsOffset(spc, offset);
    var at := Start(spc, offset);
    if at != offset {
      var x: seq<Byte> := [1];
      assert Overwritten([], at, x, offset + 1)[offset] == 0;
      assert Overwritten([], offset, x, offset + 1)[offset] == 1;
    }
  }

  /** With two sectors per cluster, a write at offset 512 lands at offset 0. */
  lemma SecondSectorMissed()
    ensures Start(2, 512) == 0 && !InPlace(2, 512)
  {
    InPlaceExactly(2, 512);
  }

  /** What was written at an offset is read back there, at every offset. */
  lemma ReadBack(d: Disk, d': Disk, a: Area, lo: nat, s: seq<nat>, g: seq<nat>, at: nat, x: seq<Byte>,
      info: Option<Info>, size: nat, size': nat, was: seq<Byte>, now: seq<Byte>)
    requires a.spc >= 1 && Clusters(s) && Clusters(g) && |s| <= |g|
    requires Wrote(d, d', a, lo, s, g, at, x, info, size, size')
    requires Got(Bytes(d', a, g), at, was, now, |x|)
    ensures now[..|x|] == x
  {
    hide Bytes, KeptButFile, EntryIs;
    var b := Bytes(d', a, g);
    forall p | 0 <= p < |x| ensures now[p] == x[p] {
      assert b[at + p] == x[p];
    }
  }

  /** Reading takes the slice of the contents from where the loop starts; at any offset in the
      first sector of a cluster that is the slice at the offset. */
  lemma ReadContents(d: Disk, a: Area, s: seq<nat>, size: nat, offset: nat, len: nat, was: seq<Byte>, now: seq<Byte>)
    requires a.spc >= 1 && Clusters(s) && size <= |s| * a.spc * 512
    requires var r := Available(size, offset, len); r > 0 && Got(Bytes(d, a, s), Start(a.spc, offset), was, now, r)
    ensures var r, at := Available(size, offset, len), Start(a.spc, offset);
            at + r <= size && r <= |now| && now[..r] == Contents(d, a, s, size)[at..at + r]
    ensures offset % (a.spc * 512) < 512 ==>
              now[..Available(size, offset, len)] ==
                  Contents(d, a, s, size)[offset..offset + Available(size, offset, len)]
  {
    hide Bytes, Start;
    StartIsOffset(a.spc, offset);
    var r, at, b := Available(size, offset, len), Start(a.spc, offset), Bytes(d, a, s);
    assert now[..r] == b[at..at + r] == b[..size][at..at + r];
  }

  /** A chain disjoint from the file's is kept by a write, and so is every byte of it but the
      size field of the entry. */
  lemma OthersKept(t: Fat, t': Fat, d: Disk, d': Disk, a: Area, lo: nat, s: seq<nat>, g: seq<nat>, at: nat,
      x: seq<Byte>,
      info: Option<Info>, size: nat, size': nat, o: seq<nat>, p: nat)
    requires a.spc >= 1 && Clusters(s) && Clusters(g) && |s| <= |g| && lo <= a.data
    requires Grown(t, t', s, g) && Wrote(d, d', a, lo, s, g, at, x, info, size, size')
    requires IsChain(t, o) && Disjoint(s, o) && Clusters(o) && p < |o| * a.spc * 512
    ensures IsChain(t', o) && Disjoint(g, o)
    ensures var l := SectorOf(a, o, p / 512);
            !(info.Some? && info.value.lba == l && info.value.off + 28 <= p % 512 < info.value.off + 32)
            ==> ByteAt(d', a, o, p) == ByteAt(d, a, o, p)
  {
    hide Wrote;
    OtherChain(t, t', s, g, o);
    OtherByte(d, d', a, lo, s, g, at, x, info, size, size', o, p);
  }

  lemma OtherChain(t: Fat, t': Fat, s: seq<nat>, g: seq<nat>, o: seq<nat>)
    requires Grown(t, t', s, g) && IsChain(t, o) && Disjoint(s, o)
    ensures IsChain(t', o) && Disjoint(g, o)
  {
    forall c | c in g ensures c !in o {
      if c in g[|s|..] {
        FreeNotInChain(t, o, c);
      } else {
        assert g == s + g[|s|..];
        assert c in s;
      }
    }
    ChainKept(t, t', o);
  }

  lemma OtherByte(d: Disk, d': Disk, a: Area, lo: nat, s: seq<nat>, g: seq<nat>, at: nat, x: seq<Byte>,
      info: Option<Info>, size: nat, size': nat, o: seq<nat>, p: nat)
    requires a.spc >= 1 && Clusters(s) && Clusters(g) && |s| <= |g| && lo <= a.data
    requires Wrote(d, d', a, lo, s, g, at, x, info, size, size')
    requires Clusters(o) && Disjoint(g, o) && p < |o| * a.spc * 512
    ensures var l := SectorOf(a, o, p / 512);
            !(info.Some? && info.value.lba == l && info.value.off + 28 <= p % 512 < info.value.off + 32)
            ==> ByteAt(d', a, o, p) == ByteAt(d, a, o, p)
  {
    hide SectorOf, InCluster, Bytes, Spliced, Load32;
    var l := SectorOf(a, o, p / 512);
    SectorOfIn(a, o, p / 512);
    forall i | 0 <= i < |g| ensures !InCluster(a.data, a.spc, g[i], l) {
      assert g[i] in g;
      if InCluster(a.data, a.spc, g[i], l) {
        ClustersApart(a.data, a.spc, g[i], o[Seat(a.spc, p / 512)], l);
      }
    }
  }

  // ----- one write, as the next one finds it -----

  lemma WrittenHolds(t: Fat, t': Fat, a: Area, s: seq<nat>, g: seq<nat>, ino: nat, size: nat, size': nat,
      info: Option<Info>, dc: nat)
    requires Holds(t, a, s, ino, size) && Grown(t, t', s, g) && Clusters(g) && size' <= |g| * a.spc * 512
    requires info.Some? ==> EntryApart(t, a, s, info.value, dc)
    ensures Holds(t', a, g, ino, size') && (info.Some? ==> EntryApart(t', a, g, info.value, dc))
  {
    assert g[..|s|] == s;
    assert g[0] == s[0];
    if info.Some? {
      hide InCluster;
      assert g == s + g[|s|..];
      assert dc !in g;
    }
  }

  lemma EmptyGrowth(t: Fat, s: seq<nat>)
    requires IsChain(t, s)
    ensures Grown(t, t, s, s)
  {
  }

  /** fat32_vfs_write in terms of the contents. It leaves a file that holds its size, with zeros
      behind it and its entry apart, so that another write can follow: the contents are those of
      before with the buffer written over them from where the loops start, or on failure the same. */
  method WriteContents(d: Driver, f: Inode, src: array<Byte>, offset: nat, ghost s: seq<nat>, ghost dc: nat)
    returns (r: int, ghost g: seq<nat>)
    requires d.Valid() && src != d.buf
    requires Writable(d.Table(), AreaOf(d), d.hint, s, f.ino, f.size, f.info, dc, offset + src.Length)
    requires ZeroTail(d.disk, AreaOf(d), s, f.size)
    modifies d`disk, d`dirty, d`cacheSector, d`hint, d.buf, f`size
    ensures d.Valid() && (r == -1 || (r == src.Length && r > 0))
    ensures Holds(d.Table(), AreaOf(d), g, f.ino, f.size) && ZeroTail(d.disk, AreaOf(d), g, f.size)
    ensures f.info.Some? ==> EntryApart(d.Table(), AreaOf(d), g, f.info.value, dc)
    ensures f.size == if r > 0 && offset + src.Length > old(f.size) then offset + src.Length else old(f.size)
    ensures Contents(d.disk, AreaOf(d), g, f.size) ==
              if r > 0 then Overwritten(old(Contents(d.disk, AreaOf(d), s, f.size)), Start(d.spc, offset), src[..],
                  f.size)
              else old(Contents(d.disk, AreaOf(d), s, f.size))
  {
    hide TableOf, Growth, Grown, NoneFree, Start, Wrote, Ready, Missing, EntryApart, Contents, ZeroTail, Overwritten,
      IsChain, GrownData;
    ghost var t, disk, a, size, end: nat := d.Table(), d.disk, AreaOf(d), f.size, offset + src.Length;
    LastOf(t, s);
    r, g := WriteFile(d, f, src, offset, s, dc);
    if r > 0 {
      Capacity(d.spc, size, end, |s|);
      StartIsOffset(d.spc, offset);
      WrittenContents(disk, d.disk, a, d.fatStart, s, g, Start(d.spc, offset), src[..], f.info, size, end);
    } else if src.Length > 0 {
      GrowthParts(t, d.Table(), disk, d.disk, a, d.fatStart, s, g);
      FailedContents(disk, d.disk, a, d.fatStart, s, g, size);
    } else {
      g := s;
      EmptyGrowth(t, s);
    }
    WrittenHolds(t, d.Table(), a, s, g, f.ino, size, f.size, f.info, dc);
  }
}
