/** Files as the bytes of their cluster chains (src/fs/fat32.c:426-464, 989-1066). */
module FatBytes {
  import opened Words
  import opened FatDriver

  // ----- the sectors of a chain -----

  ghost predicate Clusters(s: seq<nat>) {
    && (forall i :: 0 <= i < |s| ==> s[i] >= 2)
    && (forall i, j :: 0 <= i < j < |s| ==> s[i] != s[j])
  }

  /** Where a volume keeps its data: the first data sector and the sectors per cluster. */
  datatype Area = Area(data: nat, spc: nat)

  /** The q-th sector of a chain is sector Rank of the cluster at place Seat. */
  function Seat(spc: nat, q: nat): nat
    requires spc >= 1
  {
    q / spc
  }

  function Rank(spc: nat, q: nat): (r: nat)
    requires spc >= 1
    ensures r < spc
  {
    q % spc
  }

  lemma Multiples(spc: nat, i: nat, k: nat)
    ensures i < k ==> i * spc + spc <= k * spc
    ensures i >= k ==> i * spc >= k * spc
  {
    if i < k {
      var m := k - i - 1;
      assert k * spc == (i + 1 + m) * spc == i * spc + spc + m * spc;
    } else {
      var m := i - k;
      assert i * spc == (k + m) * spc == k * spc + m * spc;
    }
  }

  lemma SeatAndRank(spc: nat, q: nat, k: nat)
    requires spc >= 1
    ensures q == Seat(spc, q) * spc + Rank(spc, q)
    ensures q < k * spc <==> Seat(spc, q) < k
  {
    Multiples(spc, q / spc, k);
  }

  /** The q-th sector of the chain. */
  ghost function SectorOf(a: Area, s: seq<nat>, q: nat): nat
    requires a.spc >= 1 && Clusters(s) && q < |s| * a.spc
  {
    SeatAndRank(a.spc, q, |s|);
    ClusterLba(a.data, a.spc, s[Seat(a.spc, q)]) + Rank(a.spc, q)
  }

  lemma SectorOfIn(a: Area, s: seq<nat>, q: nat)
    requires a.spc >= 1 && Clusters(s) && q < |s| * a.spc
    ensures Seat(a.spc, q) < |s| && InCluster(a.data, a.spc, s[Seat(a.spc, q)], SectorOf(a, s, q))
    ensures SectorOf(a, s, q) >= a.data
  {
    hide ClusterLba, Seat, Rank;
    SeatAndRank(a.spc, q, |s|);
    assert ClusterLba(a.data, a.spc, s[Seat(a.spc, q)]) >= a.data by {
      DataAbove(a, s[Seat(a.spc, q)]);
    }
  }

  lemma DataAbove(a: Area, c: nat)
    requires c >= 2
    ensures ClusterLba(a.data, a.spc, c) >= a.data
  {
  }

  lemma SectorsApart(a: Area, s: seq<nat>, q: nat, r: nat)
    requires a.spc >= 1 && Clusters(s) && q < |s| * a.spc && r < |s| * a.spc
    requires SectorOf(a, s, q) == SectorOf(a, s, r)
    ensures q == r
  {
    hide ClusterLba, Seat, Rank;
    SectorOfIn(a, s, q);
    SectorOfIn(a, s, r);
    ClustersApart(a.data, a.spc, s[Seat(a.spc, q)], s[Seat(a.spc, r)], SectorOf(a, s, q));
    SeatAndRank(a.spc, q, |s|);
    SeatAndRank(a.spc, r, |s|);
  }

  /** Sector l belongs to a cluster of the chain. */
  ghost predicate OfChain(a: Area, s: seq<nat>, l: nat)
    requires Clusters(s)
  {
    exists i :: 0 <= i < |s| && InCluster(a.data, a.spc, s[i], l)
  }

  // ----- bytes -----

  ghost function ByteAt(d: Disk, a: Area, s: seq<nat>, p: nat): Byte
    requires a.spc >= 1 && Clusters(s) && p / 512 < |s| * a.spc
  {
    d[SectorOf(a, s, p / 512)][p % 512]
  }

  /** All bytes of the chain, in order. */
  ghost function Bytes(d: Disk, a: Area, s: seq<nat>): (b: seq<Byte>)
    requires a.spc >= 1 && Clusters(s)
    ensures |b| == |s| * a.spc * 512
  {
    seq(|s| * a.spc * 512, p requires 0 <= p < |s| * a.spc * 512 => ByteAt(d, a, s, p))
  }

  /** Byte p of a chain, from the start of the data area: its sector is p / 512 sectors into the chain. */
  lemma ByteOfChain(d: Disk, a: Area, s: seq<nat>, p: nat)
    requires a.spc >= 1 && Clusters(s) && p < |s| * a.spc * 512
    ensures p / 512 / a.spc < |s| && s[p / 512 / a.spc] >= 2
    ensures Bytes(d, a, s)[p] == d[a.data + a.spc * (s[p / 512 / a.spc] - 2) + p / 512 % a.spc][p % 512]
  {
    SeatAndRank(a.spc, p / 512, |s|);
    var c := s[p / 512 / a.spc];
    assert (c - 2) * a.spc == a.spc * (c - 2);
  }

  /** Only the sectors of a chain matter to its bytes. */
  lemma SameBytes(d: Disk, d': Disk, a: Area, s: seq<nat>)
    requires a.spc >= 1 && Clusters(s)
    requires forall l: nat :: OfChain(a, s, l) ==> d'[l] == d[l]
    ensures Bytes(d', a, s) == Bytes(d, a, s)
  {
    hide SectorOf, InCluster;
    forall p: nat | p < |s| * a.spc * 512 ensures ByteAt(d', a, s, p) == ByteAt(d, a, s, p) {
      SectorOfIn(a, s, p / 512);
    }
  }

  /** The bytes b with x stored from position at on. */
  ghost predicate Spliced(b: seq<Byte>, b': seq<Byte>, at: nat, x: seq<Byte>) {
    && |b'| == |b| && at + |x| <= |b|
    && forall p :: 0 <= p < |b| ==> b'[p] == if at <= p < at + |x| then x[p - at] else b[p]
  }

  /** A sector with count bytes of x, from position w, stored at offset o. */
  ghost predicate Filled(sec: Sector, sec': Sector, o: nat, x: seq<Byte>, w: nat, count: nat)
    requires w + count <= |x|
  {
    o + count <= 512 && forall i :: 0 <= i < 512 ==> sec'[i] == if o <= i < o + count then x[w + i - o] else sec[i]
  }

  lemma ByteStored(d: Disk, a: Area, s: seq<nat>, q: nat, sec: Sector, p: nat)
    requires a.spc >= 1 && Clusters(s) && q < |s| * a.spc && p < |s| * a.spc * 512
    ensures ByteAt(d[SectorOf(a, s, q) := sec], a, s, p) == if p / 512 == q then sec[p % 512] else ByteAt(d, a, s, p)
  {
    hide SectorOf;
    if p / 512 != q && SectorOf(a, s, p / 512) == SectorOf(a, s, q) {
      SectorsApart(a, s, p / 512, q);
    }
  }

  /** Storing one sector more of x extends the splice. */
  lemma SplicedOn(d: Disk, a: Area, s: seq<nat>, b: seq<Byte>, at: nat, x: seq<Byte>, w: nat,
      q: nat, sec: Sector, o: nat, count: nat)
    requires a.spc >= 1 && Clusters(s) && q < |s| * a.spc && w + count <= |x| && at + |x| <= |b|
    requires Spliced(b, Bytes(d, a, s), at, x[..w]) && at + w == q * 512 + o
    requires Filled(d[SectorOf(a, s, q)], sec, o, x, w, count)
    ensures Spliced(b, Bytes(d[SectorOf(a, s, q) := sec], a, s), at, x[..w + count])
  {
    hide SectorOf, ByteAt;
    var d' := d[SectorOf(a, s, q) := sec];
    forall p | 0 <= p < |b|
      ensures Bytes(d', a, s)[p] == if at <= p < at + w + count then x[p - at] else b[p]
    {
      ByteStored(d, a, s, q, sec, p);
      assert Bytes(d, a, s)[p] == ByteAt(d, a, s, p) && Bytes(d', a, s)[p] == ByteAt(d', a, s, p);
      if p / 512 == q {
        InSector(d, a, s, p);
      }
    }
  }

  lemma InSector(d: Disk, a: Area, s: seq<nat>, p: nat)
    requires a.spc >= 1 && Clusters(s) && p < |s| * a.spc * 512
    ensures ByteAt(d, a, s, p) == d[SectorOf(a, s, p / 512)][p % 512]
  {
  }

  // ----- growing -----

  function Zeros(k: nat): (z: seq<Byte>)
    ensures |z| == k
  {
    seq(k, _ => 0)
  }

  lemma SectorOfPrefix(a: Area, s: seq<nat>, c: nat, q: nat)
    requires a.spc >= 1 && Clusters(s + [c]) && Clusters(s) && c >= 2
    requires q < (|s| + 1) * a.spc
    ensures q < |s| * a.spc ==> SectorOf(a, s + [c], q) == SectorOf(a, s, q)
    ensures q >= |s| * a.spc ==> InCluster(a.data, a.spc, c, SectorOf(a, s + [c], q))
  {
    hide ClusterLba, Seat, Rank;
    assert (|s| + 1) * a.spc == |s| * a.spc + a.spc;
    SeatAndRank(a.spc, q, |s| + 1);
    SeatAndRank(a.spc, q, |s|);
  }

  /** A chain grown by a zeroed cluster keeps its bytes, and zeros follow. */
  lemma GrownBytes(d: Disk, d': Disk, a: Area, s: seq<nat>, c: nat, lo: nat)
    requires a.spc >= 1 && Clusters(s + [c]) && Clusters(s) && c >= 2 && lo <= a.data
    requires OnlyZeroed(d, d', lo, a.data, a.spc, c)
    ensures Bytes(d', a, s + [c]) == Bytes(d, a, s) + Zeros(a.spc * 512)
  {
    hide SectorOf, InCluster, ZeroSector;
    var g := s + [c];
    assert |g| * a.spc == |s| * a.spc + a.spc;
    forall p: nat | p < |g| * a.spc * 512
      ensures ByteAt(d', a, g, p) == (Bytes(d, a, s) + Zeros(a.spc * 512))[p]
    {
      var q := p / 512;
      SectorOfPrefix(a, s, c, q);
      SectorOfIn(a, g, q);
      if q < |s| * a.spc {
        SectorOfIn(a, s, q);
        NotInNew(a, s, c, q);
      } else {
        ZeroByte(p % 512);
      }
    }
  }

  lemma ZeroByte(i: nat)
    requires i < 512
    ensures ZeroSector()[i] == 0
  {
  }

  lemma NotInNew(a: Area, s: seq<nat>, c: nat, q: nat)
    requires a.spc >= 1 && Clusters(s + [c]) && Clusters(s) && c >= 2 && q < |s| * a.spc
    ensures !InCluster(a.data, a.spc, c, SectorOf(a, s, q))
  {
    hide SectorOf, InCluster;
    SectorOfIn(a, s, q);
    var i := Seat(a.spc, q);
    assert (s + [c])[i] == s[i] && (s + [c])[|s|] == c;
    if InCluster(a.data, a.spc, c, SectorOf(a, s, q)) {
      ClustersApart(a.data, a.spc, c, s[i], SectorOf(a, s, q));
    }
  }
}
