/** The loops over a directory: lookup, the test for a short name, the search for free slots
    (src/fs/fat32.c:470-527, 736-805, 846-852). */
module FatScan {
  import opened Wrappers
  import opened Words
  import opened FatTable
  import opened FatDriver
  import opened FatBytes
  import opened FatRead
  import opened FatGrow
  import opened Lfn
  import opened LfnNames
  import opened ShortNames
  import opened FatNames
  import opened FatDirectory
  import opened FatSlots
  import opened FatAdd

  /** A directory that the driver can walk: the chain s from its first cluster. */
  ghost predicate IsDir(d: Driver, first: nat, s: seq<nat>)
    reads d`disk, d`cacheSector, d`dirty, d.buf
  {
    d.Valid() && IsChain(d.Table(), s) && Clusters(s) && s[0] == first
  }

  ghost function DirSlots(d: Driver, s: seq<nat>): (r: seq<Slot>)
    requires d.spc >= 1 && Clusters(s)
    reads d`disk
    ensures |r| == |s| * d.spc * 16
  {
    Slots(d.disk, AreaOf(d), s)
  }

  /** The number of slots in a cluster. */
  function PerCluster(spc: nat): nat {
    spc * 16
  }

  /** A walk over the directory s left all as it was: the table, the data, and a clean cache clean. */
  ghost predicate Looked(d: Driver, s: seq<nat>, t: Fat, disk: Disk, clean: bool)
    reads d`disk, d`cacheSector, d`dirty, d.buf
  {
    && d.Valid() && d.Table() == t && IsChain(t, s) && Clusters(s)
    && (forall l: nat :: !d.InTable(l) ==> d.disk[l] == disk[l])
    && (clean ==> d.OnDisk()) && DirSlots(d, s) == Slots(disk, AreaOf(d), s)
  }

  lemma LookedNow(d: Driver, first: nat, s: seq<nat>)
    requires IsDir(d, first, s)
    ensures Looked(d, s, d.Table(), d.disk, d.OnDisk())
  {
  }

  // ----- a cluster at a time -----

  /** The slots of a directory from place base on. */
  ghost predicate PieceOf(piece: seq<Slot>, slots: seq<Slot>, base: nat) {
    base + |piece| <= |slots| && forall j :: 0 <= j < |piece| ==> piece[j] == slots[base + j]
  }

  /** The sixteen slots of a sector. */
  method SectorSlots(sectorBuf: array<Byte>) returns (r: seq<Slot>)
    requires sectorBuf.Length == 512
    ensures |r| == 16 && forall e: nat :: e < 16 ==> r[e] == SlotIn(sectorBuf[..], e * 32)
  {
    r := [];
    var e: nat := 0;
    while e < 16
      invariant e <= 16 && |r| == e && forall f: nat :: f < e ==> r[f] == SlotIn(sectorBuf[..], f * 32)
    {
      r := r + [SlotIn(sectorBuf[..], e * 32)];
      e := e + 1;
    }
  }

  lemma PieceOn(x: seq<Slot>, y: seq<Slot>, slots: seq<Slot>, base: nat)
    requires PieceOf(x, slots, base) && PieceOf(y, slots, base + |x|)
    ensures PieceOf(x + y, slots, base)
  {
    forall j | 0 <= j < |x| + |y| ensures (x + y)[j] == slots[base + j] {
      if j >= |x| {
        assert y[j - |x|] == slots[base + |x| + (j - |x|)];
      }
    }
  }

  lemma SlotOfSector(d: Disk, a: Area, s: seq<nat>, k: nat, i: nat, e: nat)
    requires a.spc >= 1 && Clusters(s) && k < |s| && i < a.spc && e < 16
    ensures k * a.spc * 16 + i * 16 + e < |Slots(d, a, s)|
    ensures Slots(d, a, s)[k * a.spc * 16 + i * 16 + e] == SlotIn(d[ClusterLba(a.data, a.spc, s[k]) + i], e * 32)
  {
    hide ClusterLba, SectorOf, Slots, SlotIn;
    SlotsCount(d, a, s);
    var r: nat := i * 16 + e;
    assert r / 16 == i && r % 16 == e;
    SlotOfCluster(a, s, k, r);
    SlotPlace(d, a, s, k * a.spc * 16 + r);
  }

  lemma SectorPiece(d: Disk, a: Area, s: seq<nat>, k: nat, i: nat, piece: seq<Slot>)
    requires a.spc >= 1 && Clusters(s) && k < |s| && i < a.spc && |piece| == 16
    requires forall e: nat :: e < 16 ==> piece[e] == SlotIn(d[ClusterLba(a.data, a.spc, s[k]) + i], e * 32)
    ensures PieceOf(piece, Slots(d, a, s), k * a.spc * 16 + i * 16)
  {
    hide ClusterLba, SectorOf, Slots, SlotIn;
    var base: nat, slots := k * a.spc * 16 + i * 16, Slots(d, a, s);
    SlotOfSector(d, a, s, k, i, 15);
    forall e: nat | e < 16 ensures piece[e] == slots[base + e] {
      SlotOfSector(d, a, s, k, i, e);
    }
  }

  /** Slot base is where the k-th cluster starts. */
  ghost predicate Starts(spc: nat, n: nat, k: nat, base: nat) {
    k <= n && base == k * spc * 16
  }

  lemma StartsOn(spc: nat, n: nat, k: nat, base: nat)
    requires Starts(spc, n, k, base)
    ensures k < n ==> base + spc * 16 <= n * spc * 16 && Starts(spc, n, k + 1, base + spc * 16)
    ensures k == n ==> base == n * spc * 16
  {
    Multiples(spc, k, n);
  }

  /** The sectors of the k-th cluster, slot by slot. */
  method ReadDirCluster(d: Driver, cluster: nat, ghost s: seq<nat>, ghost k: nat, ghost base: nat)
    returns (piece: seq<Slot>)
    requires d.spc >= 1 && Clusters(s) && k < |s| && s[k] == cluster && Starts(d.spc, |s|, k, base)
    ensures |piece| == PerCluster(d.spc) && PieceOf(piece, DirSlots(d, s), base)
  {
    hide ClusterLba, Slots, PieceOf, SlotIn;
    ghost var a, slots := AreaOf(d), DirSlots(d, s);
    var lba: nat := ClusterLba(d.dataStart, d.spc, cluster);
    var sectorBuf := new Byte[512];
    piece := [];
    var i: nat := 0;
    NoPiece(a, s, slots, k);
    while i < d.spc
      invariant i <= d.spc && |piece| == i * 16 && PieceOf(piece, slots, base)
    {
      d.ReadSector(lba + i, sectorBuf);
      var more := SectorSlots(sectorBuf);
      SectorPiece(d.disk, a, s, k, i, more);
      PieceOn(piece, more, slots, base);
      piece := piece + more;
      i := i + 1;
    }
  }

  lemma NoPiece(a: Area, s: seq<nat>, slots: seq<Slot>, k: nat)
    requires |slots| == |s| * a.spc * 16 && k < |s|
    ensures PieceOf([], slots, k * a.spc * 16)
  {
    Multiples(a.spc, k, |s|);
  }

  /** The step to the next cluster. */
  method NextCluster(d: Driver, cluster: nat, ghost s: seq<nat>, ghost k: nat, ghost t: Fat, ghost disk: Disk,
      ghost clean: bool) returns (next: nat)
    requires Looked(d, s, t, disk, clean) && k < |s| && s[k] == cluster
    modifies d`disk, d`dirty, d`cacheSector, d.buf
    ensures Looked(d, s, t, disk, clean)
    ensures if k + 1 < |s| then next == s[k + 1] && next < EOC else next >= EOC
  {
    hide IsChain, TableOf, Slots, Bytes;
    LinkOf(d.Table(), s, k);
    ghost var was := d.disk;
    next := d.GetNext(cluster);
    BytesAbove(was, d.disk, AreaOf(d), s);
    SameSlots(was, d.disk, AreaOf(d), s);
    if k + 1 < |s| {
      LinkOf(d.Table(), s, k + 1);
    }
  }

  // ----- lookup -----

  const ATTR_DIRECTORY: Byte := 0x10

  /** What lookup returns of an entry: the first cluster, the size, the kind, and where the entry is. */
  datatype Node = Node(ino: nat, size: nat, isDir: bool, info: Info)

  ghost predicate NodeAt(node: Node, a: Area, s: seq<nat>, slots: seq<Slot>, i: nat)
    requires a.spc >= 1 && Clusters(s) && |slots| == |s| * a.spc * 16 && i < |slots|
  {
    && node.ino == FirstCluster(slots[i]) && node.size == Load32(slots[i], 28)
    && (node.isDir <==> slots[i][11] / ATTR_DIRECTORY % 2 == 1)
    && node.info == Info(SectorOf(a, s, i / 16), i % 16 * 32)
  }

  function NodeOf(s: Slot, lba: nat, i: nat): Node {
    Node(FirstCluster(s), Load32(s, 28), s[11] / ATTR_DIRECTORY % 2 == 1, Info(lba + i / 16, i % 16 * 32))
  }

  lemma NodeThere(a: Area, s: seq<nat>, slots: seq<Slot>, piece: seq<Slot>, k: nat, base: nat,
      i: nat)
    requires a.spc >= 1 && Clusters(s) && k < |s| && |slots| == |s| * a.spc * 16
    requires |piece| == PerCluster(a.spc) && i < |piece| && Starts(a.spc, |s|, k, base) && PieceOf(piece, slots, base)
    ensures base + i < |slots| && NodeAt(NodeOf(piece[i], ClusterLba(a.data, a.spc, s[k]), i), a, s, slots, base + i)
  {
    hide ClusterLba, SectorOf;
    SlotOfCluster(a, s, k, i);
  }

  lemma ChainStarts(t: Fat, s: seq<nat>)
    requires IsChain(t, s) && |t| <= EOC
    ensures |s| >= 1 && forall k :: 0 <= k < |s| ==> s[k] < EOC
  {
  }

  datatype Outcome = Match(i: nat) | Over | GoOn

  /** The slots of one cluster: a match, a 0x00 slot, or neither. */
  method LookupPiece(piece: seq<Slot>, name: seq<Byte>, target: seq<Byte>, acc: Accum, ghost slots: seq<Slot>,
      ghost base: nat) returns (o: Outcome)
    requires PieceOf(piece, slots, base) && target == Format83(name) && acc.Valid()
    modifies acc, acc.chunks
    ensures acc.Valid()
    ensures o.Match? ==> o.i < |piece| && Find(slots, base, old(acc.Value()), name) == Some(base + o.i)
    ensures o.Over? ==> Find(slots, base, old(acc.Value()), name) == None
    ensures o.GoOn? ==> Find(slots, base, old(acc.Value()), name) == Find(slots, base + |piece|, acc.Value(), name)
  {
    hide Fed, Format83;
    ghost var st := acc.Value();
    var e: nat := 0;
    while e < |piece|
      invariant e <= |piece| && acc.Valid()
      invariant Find(slots, base, st, name) == Find(slots, base + e, acc.Value(), name)
    {
      assert piece[e] == slots[base + e];
      if piece[e][0] == 0 {
        return Over;
      }
      if piece[e][0] == DELETED {
        acc.Clear();
      } else {
        var long := acc.Feed(piece[e]);
        if piece[e][11] != ATTR_LFN && (Name83(piece[e]) == target || long == Some(name)) {
          return Match(e);
        }
      }
      e := e + 1;
    }
    o := GoOn;
  }

  datatype Turn = Found(node: Node) | Stop | Onward(cluster: nat)

  /** One cluster of the search, and the step to the next one. */
  method LookupTurn(d: Driver, current: nat, name: seq<Byte>, target: seq<Byte>, acc: Accum, ghost s: seq<nat>,
      ghost k: nat, ghost base: nat, ghost slots: seq<Slot>, ghost t: Fat, ghost disk: Disk, ghost clean: bool)
    returns (r: Turn)
    requires Looked(d, s, t, disk, clean) && k < |s| && s[k] == current && Starts(d.spc, |s|, k, base)
    requires slots == Slots(disk, AreaOf(d), s) && base <= |slots| && target == Format83(name) && acc.Valid()
    modifies d`disk, d`dirty, d`cacheSector, d.buf, acc, acc.chunks
    ensures Looked(d, s, t, disk, clean) && acc.Valid() && |slots| == |s| * d.spc * 16
    ensures r.Stop? ==> Find(slots, base, old(acc.Value()), name) == None
    ensures r.Found? ==> Find(slots, base, old(acc.Value()), name).Some?
                         && NodeAt(r.node, AreaOf(d), s, slots, Find(slots, base, old(acc.Value()), name).value)
    ensures r.Onward? ==> if k + 1 < |s| then r.cluster == s[k + 1] && r.cluster < EOC else r.cluster >= EOC
    ensures r.Onward? ==> base + PerCluster(d.spc) <= |slots|
    ensures r.Onward? ==>
              Find(slots, base, old(acc.Value()), name) == Find(slots, base + PerCluster(d.spc), acc.Value(), name)
  {
    hide IsChain, TableOf, Slots, Find, PieceOf, SectorOf, Format83, ClusterLba, NodeAt, NodeOf, Starts;
    SlotsCount(disk, AreaOf(d), s);
    StartsOn(d.spc, |s|, k, base);
    var piece := ReadDirCluster(d, current, s, k, base);
    var o := LookupPiece(piece, name, target, acc, slots, base);
    match o {
      case Over =>
        r := Stop;
      case Match(i) =>
        NodeThere(AreaOf(d), s, slots, piece, k, base, i);
        r := Found(NodeOf(piece[i], ClusterLba(d.dataStart, d.spc, current), i));
      case GoOn =>
        var next := NextCluster(d, current, s, k, t, disk, clean);
        r := Onward(next);
    }
  }

  /** The loop over the clusters. */
  method LookupLoop(d: Driver, first: nat, name: seq<Byte>, target: seq<Byte>, acc: Accum, ghost s: seq<nat>,
      ghost slots: seq<Slot>, ghost t: Fat, ghost disk: Disk, ghost clean: bool) returns (r: Option<Node>)
    requires Looked(d, s, t, disk, clean) && |s| >= 1 && s[0] == first && (forall k :: 0 <= k < |s| ==> s[k] < EOC)
    requires slots == Slots(disk, AreaOf(d), s) && target == Format83(name) && acc.Valid()
    modifies d`disk, d`dirty, d`cacheSector, d.buf, acc, acc.chunks
    ensures Looked(d, s, t, disk, clean) && |slots| == |s| * d.spc * 16
    ensures r.None? <==> Find(slots, 0, old(acc.Value()), name) == None
    ensures r.Some? ==> NodeAt(r.value, AreaOf(d), s, slots, Find(slots, 0, old(acc.Value()), name).value)
  {
    hide IsChain, TableOf, Slots, Find, Format83, ClusterLba, NodeAt, Starts, Looked;
    ghost var st := acc.Value();
    ghost var k: nat, base: nat := 0, 0;
    var current: nat := first;
    FirstStart(d.spc, |s|);
    SlotsStill(d, s, t, disk, clean);
    while current < EOC
      modifies d`disk, d`dirty, d`cacheSector, d.buf, acc, acc.chunks
      invariant Looked(d, s, t, disk, clean) && acc.Valid()
      invariant k <= |s| && if k < |s| then current == s[k] else current >= EOC
      invariant Starts(d.spc, |s|, k, base) && base <= |slots|
      invariant Find(slots, 0, st, name) == Find(slots, base, acc.Value(), name)
      decreases |s| - k
    {
      StartsOn(d.spc, |s|, k, base);
      var turn := LookupTurn(d, current, name, target, acc, s, k, base, slots, t, disk, clean);
      match turn {
        case Stop =>
          return None;
        case Found(node) =>
          return Some(node);
        case Onward(cluster) =>
          current, k, base := cluster, k + 1, base + PerCluster(d.spc);
      }
    }
    StartsOn(d.spc, |s|, k, base);
    FindEnds(slots, acc.Value(), name);
    r := None;
  }

  /** fat32_vfs_lookup: what the first match says, or nothing. */
  method Lookup(d: Driver, first: nat, name: seq<Byte>, ghost s: seq<nat>) returns (r: Option<Node>)
    requires IsDir(d, first, s)
    modifies d`disk, d`dirty, d`cacheSector, d.buf
    ensures Looked(d, s, old(d.Table()), old(d.disk), old(d.OnDisk()))
    ensures r.None? <==> Searched(old(DirSlots(d, s)), name) == None
    ensures r.Some? ==> NodeAt(r.value, AreaOf(d), s, old(DirSlots(d, s)), Searched(old(DirSlots(d, s)), name).value)
  {
    hide IsChain, TableOf, Slots, Find, Format83, NodeAt, Looked;
    var target := FormatName(name);
    var acc := new Accum();
    acc.Clear();
    ghost var t, disk, clean, slots := d.Table(), d.disk, d.OnDisk(), DirSlots(d, s);
    FindAlike(slots, 0, Blank(), acc.Value(), name);
    ChainStarts(t, s);
    LookedNow(d, first, s);
    r := LookupLoop(d, first, name, target, acc, s, slots, t, disk, clean);
  }

  lemma SlotsStill(d: Driver, s: seq<nat>, t: Fat, disk: Disk, clean: bool)
    requires Looked(d, s, t, disk, clean)
    ensures d.Valid() && Clusters(s) && DirSlots(d, s) == Slots(disk, AreaOf(d), s)
  {
    hide Slots;
  }

  lemma FirstStart(spc: nat, n: nat)
    ensures Starts(spc, n, 0, 0)
  {
  }

  lemma FindEnds(slots: seq<Slot>, st: State, name: seq<Byte>)
    requires Usable(st)
    ensures Find(slots, |slots|, st, name) == None
  {
  }

  // ----- short names -----

  /** The slots of one cluster: the short name, a 0x00 slot, or neither. */
  method ExistsPiece(piece: seq<Slot>, short: seq<Byte>, ghost slots: seq<Slot>, ghost base: nat) returns (o: Outcome)
    requires PieceOf(piece, slots, base)
    ensures o.Match? ==> short in Used(slots, base)
    ensures o.Over? ==> short !in Used(slots, base)
    ensures o.GoOn? ==> (short in Used(slots, base) <==> short in Used(slots, base + |piece|))
  {
    hide Name83, Used;
    var e: nat := 0;
    while e < |piece|
      invariant e <= |piece| && (short in Used(slots, base) <==> short in Used(slots, base + e))
    {
      assert piece[e] == slots[base + e];
      UsedFrom(slots, base + e, short);
      if piece[e][0] == 0 {
        return Over;
      }
      if piece[e][0] != DELETED && piece[e][11] != ATTR_LFN && Name83(piece[e]) == short {
        return Match(e);
      }
      e := e + 1;
    }
    o := GoOn;
  }

  method ExistsTurn(d: Driver, current: nat, short: seq<Byte>, ghost s: seq<nat>, ghost k: nat, ghost base: nat,
      ghost slots: seq<Slot>, ghost t: Fat, ghost disk: Disk, ghost clean: bool) returns (o: Outcome, next: nat)
    requires Looked(d, s, t, disk, clean) && k < |s| && s[k] == current && Starts(d.spc, |s|, k, base)
    requires slots == Slots(disk, AreaOf(d), s) && base <= |slots|
    modifies d`disk, d`dirty, d`cacheSector, d.buf
    ensures Looked(d, s, t, disk, clean)
    ensures o.Match? ==> short in Used(slots, base)
    ensures o.Over? ==> short !in Used(slots, base)
    ensures o.GoOn? ==> if k + 1 < |s| then next == s[k + 1] && next < EOC else next >= EOC
    ensures o.GoOn? ==> base + PerCluster(d.spc) <= |slots|
                        && (short in Used(slots, base) <==> short in Used(slots, base + PerCluster(d.spc)))
  {
    hide IsChain, TableOf, Slots, Used, PieceOf, Starts;
    StartsOn(d.spc, |s|, k, base);
    var piece := ReadDirCluster(d, current, s, k, base);
    o := ExistsPiece(piece, short, slots, base);
    next := current;
    if o.GoOn? {
      next := NextCluster(d, current, s, k, t, disk, clean);
    }
  }

  method ExistsLoop(d: Driver, first: nat, short: seq<Byte>, ghost s: seq<nat>, ghost slots: seq<Slot>, ghost t: Fat,
      ghost disk: Disk, ghost clean: bool) returns (b: bool)
    requires Looked(d, s, t, disk, clean) && |s| >= 1 && s[0] == first && (forall k :: 0 <= k < |s| ==> s[k] < EOC)
    requires slots == Slots(disk, AreaOf(d), s)
    modifies d`disk, d`dirty, d`cacheSector, d.buf
    ensures Looked(d, s, t, disk, clean) && b == (short in Used(slots, 0))
  {
    hide IsChain, TableOf, Slots, Used, Starts, Looked;
    ghost var k: nat, base: nat := 0, 0;
    var current: nat := first;
    FirstStart(d.spc, |s|);
    SlotsStill(d, s, t, disk, clean);
    while current < EOC
      modifies d`disk, d`dirty, d`cacheSector, d.buf
      invariant Looked(d, s, t, disk, clean)
      invariant k <= |s| && if k < |s| then current == s[k] else current >= EOC
      invariant Starts(d.spc, |s|, k, base) && base <= |slots|
      invariant short in Used(slots, 0) <==> short in Used(slots, base)
      decreases |s| - k
    {
      StartsOn(d.spc, |s|, k, base);
      var o, next := ExistsTurn(d, current, short, s, k, base, slots, t, disk, clean);
      match o {
        case Match(_) =>
          return true;
        case Over =>
          return false;
        case GoOn =>
          current, k, base := next, k + 1, base + PerCluster(d.spc);
      }
    }
    StartsOn(d.spc, |s|, k, base);
    NoneUsed(slots);
    b := false;
  }

  lemma NoneUsed(slots: seq<Slot>)
    ensures Used(slots, |slots|) == {}
  {
  }

  /** fat32_short_name_exists */
  method ShortNameExists(d: Driver, first: nat, short: seq<Byte>, ghost s: seq<nat>) returns (b: bool)
    requires IsDir(d, first, s)
    modifies d`disk, d`dirty, d`cacheSector, d.buf
    ensures Looked(d, s, old(d.Table()), old(d.disk), old(d.OnDisk())) && b == (short in Used(old(DirSlots(d, s)), 0))
  {
    hide IsChain, TableOf, Slots, Looked, Used;
    ghost var t, disk, clean, slots := d.Table(), d.disk, d.OnDisk(), DirSlots(d, s);
    ChainStarts(t, s);
    LookedNow(d, first, s);
    b := ExistsLoop(d, first, short, s, slots, t, disk, clean);
  }

  /** The loop that looks for an alias no entry of the directory has. It ends with one whenever
      the directory holds fewer than 999999 short names. */
  method FindAlias(d: Driver, first: nat, name: seq<Byte>, ghost s: seq<nat>) returns (alias: seq<Byte>, num: nat)
    requires IsDir(d, first, s)
    modifies d`disk, d`dirty, d`cacheSector, d.buf
    ensures Looked(d, s, old(d.Table()), old(d.disk), old(d.OnDisk()))
    ensures 1 <= num <= MAX_ALIAS && |Digits(num)| <= 6 && alias == AliasOf(name, num)
    ensures AllUsed(name, Used(old(DirSlots(d, s)), 0), num - 1)
    ensures alias in Used(old(DirSlots(d, s)), 0) ==> num == MAX_ALIAS
    ensures |Used(old(DirSlots(d, s)), 0)| < MAX_ALIAS ==> alias !in Used(old(DirSlots(d, s)), 0)
  {
    hide IsChain, TableOf, Slots, Looked, AliasOf, Used;
    ghost var t, disk, clean, slots := d.Table(), d.disk, d.OnDisk(), DirSlots(d, s);
    ChainStarts(t, s);
    LookedNow(d, first, s);
    num := 1;
    alias := GenerateAlias(name, num);
    var taken := ExistsLoop(d, first, alias, s, slots, t, disk, clean);
    while taken && num + 1 < 1_000_000
      modifies d`disk, d`dirty, d`cacheSector, d.buf
      invariant Looked(d, s, t, disk, clean)
      invariant 1 <= num <= MAX_ALIAS && |Digits(num)| <= 6 && alias == AliasOf(name, num)
      invariant taken == (alias in Used(slots, 0)) && AllUsed(name, Used(slots, 0), num - 1)
    {
      num := num + 1;
      alias := GenerateAlias(name, num);
      taken := ExistsLoop(d, first, alias, s, slots, t, disk, clean);
    }
    if taken {
      Pigeonhole(name, Used(slots, 0), MAX_ALIAS);
    }
  }

  // ----- free slots -----

  /** Where a slot is: its sector, and its place there. */
  datatype Loc = Loc(lba: nat, idx: nat)

  ghost function LocOf(a: Area, s: seq<nat>, i: nat): Loc
    requires a.spc >= 1 && Clusters(s) && i < |s| * a.spc * 16
  {
    Loc(SectorOf(a, s, i / 16), i % 16)
  }

  /** The locations of the slots from place p on. */
  ghost predicate Located(a: Area, s: seq<nat>, p: nat, locs: seq<Loc>) {
    && a.spc >= 1 && Clusters(s) && p + |locs| <= |s| * a.spc * 16
    && forall j :: 0 <= j < |locs| ==> locs[j] == LocOf(a, s, p + j)
  }

  lemma LocatedMore(a: Area, s: seq<nat>, p: nat, locs: seq<Loc>, k: nat, base: nat, e: nat)
    requires a.spc >= 1 && Clusters(s) && k < |s| && Starts(a.spc, |s|, k, base) && e < a.spc * 16
    requires Located(a, s, p, locs) && p + |locs| == base + e
    ensures Located(a, s, p, locs + [Loc(ClusterLba(a.data, a.spc, s[k]) + e / 16, e % 16)])
  {
    hide ClusterLba, SectorOf;
    SlotOfCluster(a, s, k, e);
    var more := locs + [Loc(ClusterLba(a.data, a.spc, s[k]) + e / 16, e % 16)];
    forall j | 0 <= j < |more| ensures more[j] == LocOf(a, s, p + j) {
    }
  }

  lemma LocatedNone(a: Area, s: seq<nat>, p: nat)
    requires a.spc >= 1 && Clusters(s) && p <= |s| * a.spc * 16
    ensures Located(a, s, p, [])
  {
  }

  /** The slots of one cluster: the run goes on, or is long enough. */
  method FreePiece(piece: seq<Slot>, lba: nat, needed: nat, run: seq<Loc>, ghost slots: seq<Slot>, ghost a: Area,
      ghost s: seq<nat>, ghost k: nat, ghost base: nat) returns (found: bool, locs: seq<Loc>)
    requires a.spc >= 1 && Clusters(s) && k < |s| && lba == ClusterLba(a.data, a.spc, s[k])
    requires |slots| == |s| * a.spc * 16
    requires |piece| == a.spc * 16 && Starts(a.spc, |s|, k, base) && PieceOf(piece, slots, base)
    requires Running(slots, base, |run|, needed) && |run| <= base && Located(a, s, base - |run|, run)
    ensures found ==> HasRun(slots, needed) && |locs| == needed && Located(a, s, PlaceFor(slots, needed), locs)
    ensures !found ==> Running(slots, base + |piece|, |locs|, needed) && |locs| <= base + |piece|
                       && Located(a, s, base + |piece| - |locs|, locs)
  {
    hide ClusterLba, Located, Running, PlaceFor, HasRun, Starts;
    locs := run;
    var e: nat := 0;
    while e < |piece|
      invariant e <= |piece| && |locs| <= base + e
      invariant Running(slots, base + e, |locs|, needed) && Located(a, s, base + e - |locs|, locs)
    {
      RunningOn(slots, base + e, |locs|, needed);
      assert piece[e] == slots[base + e];
      if Free(piece[e]) {
        LocatedMore(a, s, base + e - |locs|, locs, k, base, e);
        locs := locs + [Loc(lba + e / 16, e % 16)];
        if |locs| == needed {
          return true, locs;
        }
      } else {
        locs := [];
        LocatedNone(a, s, base + e + 1);
      }
      e := e + 1;
    }
    found := false;
  }

  method FreeTurn(d: Driver, current: nat, needed: nat, run: seq<Loc>, ghost s: seq<nat>, ghost k: nat,
      ghost base: nat, ghost slots: seq<Slot>, ghost t: Fat, ghost disk: Disk, ghost clean: bool)
    returns (found: bool, locs: seq<Loc>, next: nat)
    requires Looked(d, s, t, disk, clean) && k < |s| && s[k] == current && Starts(d.spc, |s|, k, base)
    requires slots == Slots(disk, AreaOf(d), s) && base <= |slots|
    requires Running(slots, base, |run|, needed) && |run| <= base && Located(AreaOf(d), s, base - |run|, run)
    modifies d`disk, d`dirty, d`cacheSector, d.buf
    ensures Looked(d, s, t, disk, clean)
    ensures found ==> HasRun(slots, needed) && |locs| == needed && Located(AreaOf(d), s, PlaceFor(slots, needed), locs)
    ensures !found ==> if k + 1 < |s| then next == s[k + 1] && next < EOC else next >= EOC
    ensures !found ==> var e := base + PerCluster(d.spc);
                       && e <= |slots| && Running(slots, e, |locs|, needed) && |locs| <= e
                       && Located(AreaOf(d), s, e - |locs|, locs)
  {
    hide IsChain, TableOf, Slots, PieceOf, Starts, ClusterLba, Located, Running, PlaceFor, HasRun;
    SlotsCount(disk, AreaOf(d), s);
    StartsOn(d.spc, |s|, k, base);
    var piece := ReadDirCluster(d, current, s, k, base);
    found, locs := FreePiece(piece, ClusterLba(d.dataStart, d.spc, current), needed, run, slots, AreaOf(d), s, k, base);
    next := current;
    if !found {
      next := NextCluster(d, current, s, k, t, disk, clean);
    }
  }

  /** The search of fat32_find_contiguous_free_slots; for one slot, that of fat32_add_entry. It
      finds the first run of free slots, across sectors and clusters, or else the last cluster. */
  method FindFree(d: Driver, first: nat, needed: nat, ghost s: seq<nat>, ghost slots: seq<Slot>, ghost t: Fat,
      ghost disk: Disk, ghost clean: bool) returns (found: bool, locs: seq<Loc>, last: nat)
    requires needed >= 1 && Looked(d, s, t, disk, clean) && |s| >= 1 && s[0] == first
    requires (forall k :: 0 <= k < |s| ==> s[k] < EOC) && slots == Slots(disk, AreaOf(d), s)
    modifies d`disk, d`dirty, d`cacheSector, d.buf
    ensures Looked(d, s, t, disk, clean) && found == HasRun(slots, needed)
    ensures found ==> |locs| == needed && Located(AreaOf(d), s, PlaceFor(slots, needed), locs)
    ensures !found ==> last == Last(s)
  {
    hide IsChain, TableOf, Slots, Starts, Looked, Located, Running, PlaceFor, HasRun;
    ghost var k: nat, base: nat := 0, 0;
    var current: nat := first;
    last := first;
    locs := [];
    FirstStart(d.spc, |s|);
    SlotsStill(d, s, t, disk, clean);
    RunningStarts(slots, needed);
    LocatedNone(AreaOf(d), s, 0);
    while current < EOC
      modifies d`disk, d`dirty, d`cacheSector, d.buf
      invariant Looked(d, s, t, disk, clean)
      invariant k <= |s| && if k < |s| then current == s[k] else current >= EOC && last == Last(s)
      invariant Starts(d.spc, |s|, k, base) && base <= |slots|
      invariant Running(slots, base, |locs|, needed) && |locs| <= base && Located(AreaOf(d), s, base - |locs|, locs)
      decreases |s| - k
    {
      last := current;
      StartsOn(d.spc, |s|, k, base);
      var next;
      found, locs, next := FreeTurn(d, current, needed, locs, s, k, base, slots, t, disk, clean);
      if found {
        return;
      }
      current, k, base := next, k + 1, base + PerCluster(d.spc);
    }
    StartsOn(d.spc, |s|, k, base);
    RunningEnds(slots, |locs|, needed);
    found := false;
  }
}
