/** Growing the chain of a file (src/fs/fat32.c:997-1016). */
module FatGrow {
  import opened FatTable
  import opened FatChains
  import opened FatDriver
  import opened FatBytes
  import opened FatRead

  // ----- the table -----

  ghost function Last(s: seq<nat>): nat
    requires |s| >= 1
  {
    s[|s| - 1]
  }

  /** The chain s of t was extended to g by clusters that were free; no other entry changed. */
  ghost predicate Grown(t: Fat, t': Fat, s: seq<nat>, g: seq<nat>) {
    && |t'| == |t| && IsChain(t', g) && s <= g
    && (forall c :: c in g[|s|..] ==> c < |t| && Next(t[c]) == 0)
    && (forall c: nat :: c < |t| && c !in g ==> t'[c] == t[c])
  }

  /** What fat32_allocate_cluster and set_next_cluster make of the table. */
  ghost function Linked(t: Fat, c: nat, tail: nat): Fat
    requires c < |t| && tail < |t|
  {
    var m := t[c := WithNext(t[c], EOC)];
    m[tail := WithNext(m[tail], c)]
  }

  lemma FreeNotInChain(t: Fat, s: seq<nat>, c: nat)
    requires IsChain(t, s) && c < |t| && Next(t[c]) == 0
    ensures c !in s
  {
    if c in s {
      var i: nat :| i < |s| && s[i] == c;
      LinkOf(t, s, i);
    }
  }

  lemma LinkedChain(t: Fat, s: seq<nat>, c: nat)
    requires IsChain(t, s) && 2 <= c < |t| <= EOC && Next(t[c]) == 0
    ensures IsChain(Linked(t, c, Last(s)), s + [c]) && c !in s
    ensures forall e: nat :: e < |t| && e != c && e != Last(s) ==> Linked(t, c, Last(s))[e] == t[e]
  {
    FreeNotInChain(t, s, c);
    var m := t[c := WithNext(t[c], EOC)];
    WithNextReads(t[c], EOC);
    WithNextReads(m[Last(s)], c);
  }

  lemma GrownOn(t: Fat, t': Fat, s: seq<nat>, g: seq<nat>, c: nat)
    requires Grown(t, t', s, g) && 2 <= c < |t| <= EOC && Next(t'[c]) == 0
    ensures Grown(t, Linked(t', c, Last(g)), s, g + [c]) && c !in g
  {
    LinkedChain(t', g, c);
    hide IsChain, Linked;
    FreeNotInChain(t', g, c);
    assert Last(g) == g[|g| - 1];
    assert (g + [c])[|s|..] == g[|s|..] + [c];
    LastOf(t', g);
  }

  lemma LastOf(t: Fat, s: seq<nat>)
    requires IsChain(t, s)
    ensures |s| >= 1 && 2 <= Last(s) < |t| && Last(s) in s && Next(t[Last(s)]) >= EOC
    ensures Clusters(s)
  {
  }

  /** Linking uses up one of the free entries that lie ahead. */
  lemma ReadyOn(t: Fat, h: nat, c: nat, tail: nat, k: nat)
    requires Ready(t, h, k + 1) && FirstFree(t, h, c) && 2 <= h < LIMIT
    requires tail < |t| <= EOC && Next(t[tail]) != 0
    ensures Ready(Linked(t, c, tail), Hint(c + 1), k)
  {
    ReadyAfter(t, h, c, k);
    var m := t[c := WithNext(t[c], EOC)];
    WithNextReads(m[tail], c);
    WithNextReads(t[c], EOC);
    assert FreeFrom(Linked(t, c, tail), Hint(c + 1)) == FreeFrom(m, Hint(c + 1));
  }

  // ----- the data -----

  /** The file has its bytes, then zeros; outside the new clusters nothing changed. */
  ghost predicate GrownData(d: Disk, d': Disk, a: Area, lo: nat, s: seq<nat>, g: seq<nat>)
    requires a.spc >= 1 && Clusters(s) && Clusters(g) && |s| <= |g|
  {
    && Bytes(d', a, g) == Bytes(d, a, s) + Zeros((|g| - |s|) * a.spc * 512)
    && KeptBut(d, d', a, lo, g[|s|..])
  }

  /** Outside the table and the clusters of x nothing changed. */
  ghost predicate KeptBut(d: Disk, d': Disk, a: Area, lo: nat, x: seq<nat>)
    requires Clusters(x)
  {
    forall l: nat :: !(lo <= l < a.data) && !OfChain(a, x, l) ==> d'[l] == d[l]
  }

  lemma NotGrown(d: Disk, d': Disk, a: Area, lo: nat, s: seq<nat>)
    requires a.spc >= 1 && Clusters(s) && forall l: nat :: !(lo <= l < a.data) ==> d'[l] == d[l]
    ensures GrownData(d, d', a, lo, s, s)
  {
    BytesAbove(d, d', a, s);
  }

  lemma KeptButMore(d: Disk, m: Disk, d': Disk, a: Area, lo: nat, x: seq<nat>, c: nat)
    requires Clusters(x) && Clusters(x + [c]) && c >= 2
    requires KeptBut(d, m, a, lo, x) && OnlyZeroed(m, d', lo, a.data, a.spc, c)
    ensures KeptBut(d, d', a, lo, x + [c])
  {
    hide InCluster, ZeroSector;
    forall l: nat | !(lo <= l < a.data) && !OfChain(a, x + [c], l) ensures d'[l] == d[l] {
      assert (x + [c])[|x|] == c;
      assert !InCluster(a.data, a.spc, c, l);
      forall i | 0 <= i < |x| ensures !InCluster(a.data, a.spc, x[i], l) {
        assert (x + [c])[i] == x[i];
      }
    }
  }

  lemma GrownDataOn(d: Disk, m: Disk, d': Disk, a: Area, lo: nat, s: seq<nat>, g: seq<nat>, c: nat)
    requires a.spc >= 1 && Clusters(s) && Clusters(g) && Clusters(g + [c]) && |s| <= |g| && c >= 2 && lo <= a.data
    requires GrownData(d, m, a, lo, s, g) && OnlyZeroed(m, d', lo, a.data, a.spc, c)
    ensures GrownData(d, d', a, lo, s, g + [c])
  {
    GrownBytes(m, d', a, g, c, lo);
    hide Bytes, KeptBut, OnlyZeroed;
    assert (g + [c])[|s|..] == g[|s|..] + [c];
    KeptButMore(d, m, d', a, lo, g[|s|..], c);
    ZerosAdd((|g| - |s|) * a.spc * 512, a.spc * 512);
    assert (|g| + 1 - |s|) * a.spc * 512 == (|g| - |s|) * a.spc * 512 + a.spc * 512;
  }

  lemma ZerosAdd(j: nat, k: nat)
    ensures Zeros(j) + Zeros(k) == Zeros(j + k)
  {
  }

  // ----- the loops -----

  /** The loop that looks for the end of the chain. */
  method Tail(d: Driver, first: nat, ghost s: seq<nat>) returns (tail: nat)
    requires d.Valid() && IsChain(d.Table(), s) && s[0] == first
    modifies d`disk, d`dirty, d`cacheSector, d.buf
    ensures d.Valid() && d.Table() == old(d.Table()) && d.DataKept()
    ensures tail == Last(s)
  {
    hide IsChain, TableOf;
    ghost var t := d.Table();
    ghost var k: nat := 0;
    tail := first;
    LastOf(t, s);
    LinkOf(t, s, 0);
    var next: nat := d.GetNext(tail);
    while next < EOC && next != 0
      modifies d`disk, d`dirty, d`cacheSector, d.buf
      invariant k < |s| && tail == s[k] && s[k] < |t| && next == Next(t[s[k]])
      invariant d.Valid() && d.Table() == t && d.DataKept()
      decreases |s| - k
    {
      LinkOf(t, s, k);
      tail := next;
      k := k + 1;
      LinkOf(t, s, k);
      next := d.GetNext(tail);
    }
    LinkOf(t, s, k);
    if k + 1 < |s| {
      LinkOf(t, s, k + 1);
    }
  }

  /** All the growth has changed so far. */
  ghost predicate Growth(t: Fat, t': Fat, d: Disk, d': Disk, a: Area, lo: nat, s: seq<nat>, g: seq<nat>) {
    && a.spc >= 1 && Clusters(s) && Clusters(g) && lo <= a.data
    && Grown(t, t', s, g) && GrownData(d, d', a, lo, s, g)
  }

  lemma NoGrowth(t: Fat, d: Disk, d': Disk, a: Area, lo: nat, s: seq<nat>)
    requires IsChain(t, s) && a.spc >= 1 && lo <= a.data && forall l: nat :: !(lo <= l < a.data) ==> d'[l] == d[l]
    ensures Growth(t, t, d, d', a, lo, s, s)
  {
    LastOf(t, s);
    NotGrown(d, d', a, lo, s);
  }

  lemma GrowthOn(t: Fat, t': Fat, d: Disk, m: Disk, m': Disk, d': Disk, a: Area, lo: nat, s: seq<nat>, g: seq<nat>,
      c: nat)
    requires Growth(t, t', d, m, a, lo, s, g) && 2 <= c < |t| <= EOC && Next(t'[c]) == 0
    requires OnlyZeroed(m, m', lo, a.data, a.spc, c) && forall l: nat :: !(lo <= l < a.data) ==> d'[l] == m'[l]
    ensures Last(g) < |t| && Growth(t, Linked(t', c, Last(g)), d, d', a, lo, s, g + [c])
    ensures Next(t'[Last(g)]) != 0 && c != Last(g)
  {
    LastOf(t', g);
    GrownOn(t, t', s, g, c);
    LastOf(Linked(t', c, Last(g)), g + [c]);
    hide Grown, GrownData, Linked;
    GrowthData(d, m, m', d', a, lo, s, g, c);
  }

  lemma GrowthData(d: Disk, m: Disk, m': Disk, d': Disk, a: Area, lo: nat, s: seq<nat>, g: seq<nat>, c: nat)
    requires a.spc >= 1 && Clusters(s) && Clusters(g) && Clusters(g + [c]) && |s| <= |g| && c >= 2 && lo <= a.data
    requires GrownData(d, m, a, lo, s, g) && OnlyZeroed(m, m', lo, a.data, a.spc, c)
    requires forall l: nat :: !(lo <= l < a.data) ==> d'[l] == m'[l]
    ensures GrownData(d, d', a, lo, s, g + [c])
  {
    assert OnlyZeroed(m, d', lo, a.data, a.spc, c) by {
      hide InCluster, ZeroSector;
    }
    hide GrownData, OnlyZeroed;
    GrownDataOn(d, m, d', a, lo, s, g, c);
  }

  /** The loop that appends count clusters, unless the disk fills up. */
  method GrowBy(d: Driver, last: nat, count: nat, ghost s: seq<nat>) returns (ok: bool, ghost g: seq<nat>)
    requires d.Valid() && IsChain(d.Table(), s) && Last(s) == last
    requires Ready(d.Table(), Hint(d.hint), count)
    modifies d`disk, d`dirty, d`cacheSector, d`hint, d.buf
    ensures d.Valid() && Growth(old(d.Table()), d.Table(), old(d.disk), d.disk, AreaOf(d), d.fatStart, s, g)
    ensures ok ==> |g| == |s| + count
    ensures !ok ==> |g| < |s| + count && NoneFree(d.Table()) && d.OnDisk()
  {
    hide IsChain, TableOf, Ready, Growth, Linked, NoneFree, FirstFree, OnlyZeroed;
    ghost var t, a, disk := d.Table(), AreaOf(d), d.disk;
    g := s;
    NoGrowth(t, disk, disk, a, d.fatStart, s);
    LastOf(t, s);
    var tail: nat := last;
    var i: nat := 0;
    while i < count
      modifies d`disk, d`dirty, d`cacheSector, d`hint, d.buf
      invariant i <= count && |g| == |s| + i && |g| >= 1 && tail == Last(g)
      invariant d.Valid() && Growth(t, d.Table(), disk, d.disk, a, d.fatStart, s, g)
      invariant Ready(d.Table(), Hint(d.hint), count - i)
    {
      ghost var more: seq<nat>;
      tail, more := GrowOnce(d, tail, t, disk, s, g, count - i - 1);
      if tail == 0 {
        ghost var m := d.disk;
        d.Sync();
        GrowthKept(t, d.Table(), disk, m, d.disk, a, d.fatStart, s, g);
        ok := false;
        return;
      }
      g := more;
      i := i + 1;
    }
    ok := true;
  }

  /** One turn of the loop; 0 says the disk is full. */
  method GrowOnce(d: Driver, tail: nat, ghost t: Fat, ghost disk: Disk, ghost s: seq<nat>, ghost g: seq<nat>,
      ghost ahead: nat)
    returns (c: nat, ghost more: seq<nat>)
    requires d.Valid() && Growth(t, d.Table(), disk, d.disk, AreaOf(d), d.fatStart, s, g) && |g| >= 1 && tail == Last(g)
    requires Ready(d.Table(), Hint(d.hint), ahead + 1) && |t| == d.n
    modifies d`disk, d`dirty, d`cacheSector, d`hint, d.buf
    ensures d.Valid()
    ensures c == 0 ==> Growth(t, d.Table(), disk, d.disk, AreaOf(d), d.fatStart, s, g) && more == g
    ensures c == 0 ==> NoneFree(d.Table()) && d.Table() == old(d.Table()) && (old(d.OnDisk()) ==> d.OnDisk())
    ensures c != 0 ==> Growth(t, d.Table(), disk, d.disk, AreaOf(d), d.fatStart, s, more) && more == g + [c]
    ensures c != 0 ==> Ready(d.Table(), Hint(d.hint), ahead) && FirstFree(old(d.Table()), Hint(old(d.hint)), c)
  {
    hide IsChain, TableOf, Growth, Linked, NoneFree, OnlyZeroed, WithNext;
    ghost var t', m, h := d.Table(), d.disk, Hint(d.hint);
    c := d.Allocate();
    more := g;
    if c == 0 {
      GrowthKept(t, t', disk, m, d.disk, AreaOf(d), d.fatStart, s, g);
    } else {
      ghost var m' := d.disk;
      GrowthOn(t, t', disk, m, m', m', AreaOf(d), d.fatStart, s, g, c);
      d.SetNext(tail, c);
      LinkedIs(t', c, tail);
      GrowthOn(t, t', disk, m, m', d.disk, AreaOf(d), d.fatStart, s, g, c);
      ReadyOn(t', h, c, tail, ahead);
      more := g + [c];
    }
  }

  lemma LinkedIs(t: Fat, c: nat, tail: nat)
    requires c < |t| && tail < |t|
    ensures var m := t[c := WithNext(t[c], EOC)];
            m[tail := WithNext(m[tail], c)] == Linked(t, c, tail)
  {
  }

  lemma GrowthParts(t: Fat, t': Fat, d: Disk, d': Disk, a: Area, lo: nat, s: seq<nat>, g: seq<nat>)
    requires Growth(t, t', d, d', a, lo, s, g)
    ensures Clusters(s) && Clusters(g) && |s| <= |g| && Grown(t, t', s, g) && GrownData(d, d', a, lo, s, g)
    ensures KeptBut(d, d', a, lo, g[|s|..])
  {
  }

  /** Writing back the cache keeps it. */
  lemma GrowthKept(t: Fat, t': Fat, d: Disk, m: Disk, d': Disk, a: Area, lo: nat, s: seq<nat>, g: seq<nat>)
    requires Growth(t, t', d, m, a, lo, s, g) && forall l: nat :: !(lo <= l < a.data) ==> d'[l] == m[l]
    ensures Growth(t, t', d, d', a, lo, s, g)
  {
    hide Grown;
    BytesAbove(m, d', a, g);
  }
}
