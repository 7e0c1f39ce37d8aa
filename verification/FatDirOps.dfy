/** Creating and removing files and directories on the volume (src/fs/fat32.c:646-682, 939-987, 1068-1137). */
module FatDirOps {
  import opened Wrappers
  import opened Words
  import opened FatTable
  import opened FatChains
  import opened FatDriver
  import opened FatBytes
  import opened FatRead
  import opened FatGrow
  import opened Lfn
  import opened LfnNames
  import opened ShortNames
  import opened FatNames
  import opened FatDirectory
  import opened FatCreate
  import opened FatSlots
  import opened FatAdd
  import opened FatOthers
  import opened FatScan
  import opened FatEntries
  import opened FatVolume
  import C = FatContents

  const ATTR_ARCHIVE: Byte := 0x20

  // ----- a cluster for the new file -----

  /** The clusters that fat32_allocate_cluster can hand out. */
  ghost function Spare(t: Fat): set<nat> {
    set c: nat | 2 <= c < LIMIT && c < |t| && Next(t[c]) == 0
  }

  lemma SpareOrNone(t: Fat, h: nat)
    requires Ready(t, h, 1) && h >= 2 && |t| <= EOC
    ensures NoneFree(t) <==> Spare(t) == {}
  {
    if |t| < LIMIT {
      var w := ReadyFinds(t, h);
      assert w in Spare(t);
    } else if Spare(t) == {} {
      forall c: nat | 2 <= c < LIMIT ensures Next(t[c]) != 0 {
        assert c !in Spare(t);
      }
    }
  }

  lemma SpareAfter(t: Fat, c: nat)
    requires c in Spare(t)
    ensures Spare(t[c := WithNext(t[c], EOC)]) == Spare(t) - {c}
    ensures |Spare(t[c := WithNext(t[c], EOC)])| == |Spare(t)| - 1
  {
    WithNextReads(t[c], EOC);
  }

  /** How many clusters a new entry with its file takes. */
  ghost function ClustersNeeded(slots: seq<Slot>, k: nat): nat {
    if HasRun(slots, k) then 1 else 2
  }

  /** The new cluster is not one of the directory's: its slots stay, and outside the cluster all stays. */
  lemma ZeroedElsewhere(d: Disk, d': Disk, a: Area, lo: nat, s: seq<nat>, c: nat)
    requires a.spc >= 1 && Clusters(s) && c >= 2 && c !in s && lo <= a.data && OnlyZeroed(d, d', lo, a.data, a.spc, c)
    ensures Slots(d', a, s) == Slots(d, a, s) && KeptBut(d, d', a, lo, [c])
    ensures Bytes(d', a, [c]) == Zeros(a.spc * 512)
  {
    hide Slots, Bytes, InCluster, ZeroSector;
    forall l: nat | OfChain(a, s, l) ensures d'[l] == d[l] {
      ChainNotIn(a, s, c, l);
    }
    SameBytes(d, d', a, s);
    SameSlots(d, d', a, s);
    forall l: nat | !(lo <= l < a.data) && !OfChain(a, [c], l) ensures d'[l] == d[l] {
      assert [c][0] == c;
    }
    NewBytes(d, d', a, lo, c);
  }

  lemma ChainNotIn(a: Area, s: seq<nat>, c: nat, l: nat)
    requires Clusters(s) && c >= 2 && c !in s && OfChain(a, s, l)
    ensures !InCluster(a.data, a.spc, c, l) && l >= a.data
  {
    hide InCluster;
    var i :| 0 <= i < |s| && InCluster(a.data, a.spc, s[i], l);
    if InCluster(a.data, a.spc, c, l) {
      ClustersApart(a.data, a.spc, c, s[i], l);
    }
    ClusterAbove(a, s[i], l);
  }

  lemma ClusterAbove(a: Area, c: nat, l: nat)
    requires c >= 2 && InCluster(a.data, a.spc, c, l)
    ensures l >= a.data
  {
  }

  lemma NewBytes(d: Disk, d': Disk, a: Area, lo: nat, c: nat)
    requires a.spc >= 1 && c >= 2 && lo <= a.data && OnlyZeroed(d, d', lo, a.data, a.spc, c)
    ensures Bytes(d', a, [c]) == Zeros(a.spc * 512)
  {
    assert [] + [c] == [c];
    GrownBytes(d, d', a, [], c, lo);
    assert Bytes(d, a, []) == [];
  }

  /** Allocating a cluster and freeing it again leaves the table as it was. */
  lemma GivenBack(t: Fat, t': Fat, c: nat)
    requires InRange(t) && |t| <= EOC && 2 <= c < |t| && Next(t[c]) == 0
    requires var m := t[c := WithNext(t[c], EOC)]; InRange(m) && FreedFrom(m, t', c)
    ensures t' == t
  {
    hide FreedFrom;
    var m := t[c := WithNext(t[c], EOC)];
    NewEntry(t, c);
    FreedThere(m, t', c);
    forall e: nat | e < |t| ensures t'[e] == t[e] {
      FreedEntry(m, t', [c], e);
      WithBack(t[c]);
    }
  }

  lemma FreedThere(t: Fat, t': Fat, c: nat)
    requires InRange(t) && c < |t| <= EOC && FreedFrom(t, t', c)
    ensures |t'| == |t|
  {
  }

  lemma WithBack(raw: Word32)
    requires Next(raw) == 0
    ensures WithNext(WithNext(raw, EOC), 0) == raw
  {
    WithNextReads(raw, EOC);
  }

  // ----- what was made -----

  /** Nothing came of it; at most a free cluster was overwritten. */
  ghost predicate NotMade(t: Fat, t': Fat, d: Disk, d': Disk, a: Area, lo: nat, s: seq<nat>, x: seq<nat>) {
    && a.spc >= 1 && Clusters(s) && Clusters(x) && t' == t
    && (forall c :: c in x ==> c < |t| && Next(t[c]) == 0)
    && KeptBut(d, d', a, lo, x) && Slots(d', a, s) == Slots(d, a, s)
  }

  /** Cluster c, free before, is a chain of its own now, and the entry is in the directory. Outside
      the table, the directory and the cluster nothing changed. */
  ghost predicate Made(t: Fat, t': Fat, d: Disk, d': Disk, a: Area, lo: nat, s: seq<nat>, g: seq<nat>, c: nat,
      added: seq<Slot>) {
    && a.spc >= 1 && Clusters(s) && Clusters(g) && |s| <= |g| <= |s| + 1 && 2 <= c < |t| && Next(t[c]) == 0 && c !in g
    && Grown(t[c := WithNext(t[c], EOC)], t', s, g)
    && (HasRun(Slots(d, a, s), |added|) ==> g == s && t' == t[c := WithNext(t[c], EOC)])
    && Added(Slots(d, a, s), Slots(d', a, g), added, PerCluster(a.spc))
    && forall l: nat :: !(lo <= l < a.data) && !OfChain(a, g, l) && !OfChain(a, [c], l) ==> d'[l] == d[l]
  }

  /** The contents of the new cluster stay what they were while the entry is added. */
  lemma ThenEntered(t: Fat, t': Fat, d: Disk, m: Disk, d': Disk, a: Area, lo: nat, s: seq<nat>, g: seq<nat>, c: nat,
      added: seq<Slot>)
    requires 2 <= c < |t| <= EOC && Next(t[c]) == 0 && IsChain(t, s) && InRange(t) && lo <= a.data
    requires Entered(t[c := WithNext(t[c], EOC)], t', m, d', a, lo, s, g, added)
    requires KeptBut(d, m, a, lo, [c]) && Slots(m, a, s) == Slots(d, a, s)
    ensures Made(t, t', d, d', a, lo, s, g, c, added) && Bytes(d', a, [c]) == Bytes(m, a, [c])
    ensures IsChain(t', [c]) && IsChain(t', g)
  {
    hide Slots, Bytes, HasRun, Added, InCluster, WithNext, Next, IsChain;
    var t1 := t[c := WithNext(t[c], EOC)];
    NewEntry(t, c);
    NewChain(t, s, c);
    assert Disjoint(s, [c]);
    C.OtherChain(t1, t', s, g, [c]);
    assert [c][0] == c;
    assert c !in g;
    forall l: nat | OfChain(a, [c], l) ensures d'[l] == m[l] {
      ApartFrom(a, g, [c], l);
    }
    SameBytes(m, d', a, [c]);
    GrownIsChain(t1, t', s, g);
  }

  lemma ApartFrom(a: Area, s: seq<nat>, o: seq<nat>, l: nat)
    requires Clusters(s) && Clusters(o) && Disjoint(s, o) && OfChain(a, o, l)
    ensures !OfChain(a, s, l) && l >= a.data
  {
    hide InCluster;
    var i :| 0 <= i < |o| && InCluster(a.data, a.spc, o[i], l);
    forall j | 0 <= j < |s| ensures !InCluster(a.data, a.spc, s[j], l) {
      assert s[j] in s && o[i] in o;
      if InCluster(a.data, a.spc, s[j], l) {
        ClustersApart(a.data, a.spc, s[j], o[i], l);
      }
    }
    ClusterAbove(a, o[i], l);
  }

  // ----- create -----

  /** Cluster c was free and is a chain of one cluster now, full of zeros. */
  ghost predicate Taken(t: Fat, t': Fat, d: Disk, d': Disk, a: Area, lo: nat, s: seq<nat>, c: nat) {
    && a.spc >= 1 && Clusters(s) && 2 <= c < |t| && Next(t[c]) == 0 && t' == t[c := WithNext(t[c], EOC)]
    && Slots(d', a, s) == Slots(d, a, s) && KeptBut(d, d', a, lo, [c])
    && Bytes(d', a, [c]) == Zeros(a.spc * 512)
  }

  /** The first step of create and mkdir. */
  method NewCluster(d: Driver, first: nat, ghost s: seq<nat>, ghost ahead: nat) returns (c: nat)
    requires IsDir(d, first, s) && InRange(d.Table()) && Ready(d.Table(), Hint(d.hint), ahead + 1)
    modifies d`disk, d`dirty, d`cacheSector, d`hint, d.buf
    ensures d.Valid() && (old(d.OnDisk()) ==> d.OnDisk())
    ensures c == 0 ==> Spare(old(d.Table())) == {}
                       && Untouched(old(d.Table()), d.Table(), old(d.disk), d.disk, AreaOf(d), d.fatStart, s)
    ensures c != 0 ==> c in Spare(old(d.Table())) && d.OnDisk() && Ready(d.Table(), Hint(d.hint), ahead)
                       && Taken(old(d.Table()), d.Table(), old(d.disk), d.disk, AreaOf(d), d.fatStart, s, c)
  {
    hide IsChain, TableOf, Slots, Bytes, Ready, NoneFree, OnlyZeroed, InRange, Spare, WithNext, OfChain;
    ghost var t, disk, h, a := d.Table(), d.disk, Hint(d.hint), AreaOf(d);
    ReadyOne(t, h, ahead);
    SpareOrNone(t, h);
    c := d.Allocate();
    if c == 0 {
      BytesAbove(disk, d.disk, a, s);
      SameSlots(disk, d.disk, a, s);
    } else {
      SpareFirst(t, h, c);
      NewChain(t, s, c);
      ZeroedElsewhere(disk, d.disk, a, d.fatStart, s, c);
      ReadyAfter(t, h, c, ahead);
    }
  }

  lemma ReadyOne(t: Fat, h: nat, k: nat)
    requires Ready(t, h, k + 1)
    ensures Ready(t, h, 1)
  {
  }

  lemma SpareFirst(t: Fat, h: nat, c: nat)
    requires FirstFree(t, h, c)
    ensures c in Spare(t) && 2 <= c < |t| && Next(t[c]) == 0
  {
  }

  /** Taking a cluster leaves the directory a directory. */
  lemma TakenDir(t: Fat, t': Fat, d: Disk, d': Disk, a: Area, lo: nat, s: seq<nat>, c: nat)
    requires Taken(t, t', d, d', a, lo, s, c) && IsChain(t, s) && InRange(t) && |t| <= EOC
    ensures IsChain(t', s) && InRange(t') && IsChain(t', [c]) && |t'| == |t| && c !in s
  {
    hide Slots, Bytes;
    NewEntry(t, c);
    NewChain(t, s, c);
  }

  /** The name is new, the directory has room or may grow, and there are clusters enough. */
  ghost predicate CanMake(slots: seq<Slot>, t: Fat, name: seq<Byte>, perCluster: nat) {
    && Searched(slots, name) == None
    && (HasRun(slots, SlotsNeeded(name)) || SlotsNeeded(name) <= perCluster)
    && |Spare(t)| >= ClustersNeeded(slots, SlotsNeeded(name))
  }

  /** What it takes for the entry, once the cluster is taken. */
  lemma RoomMeans(slots: seq<Slot>, t: Fat, c: nat, name: seq<Byte>, perCluster: nat, h: nat)
    requires c in Spare(t) && c < |t| <= EOC && h >= 2 && Searched(slots, name) == None
    requires var t1 := t[c := WithNext(t[c], EOC)]; HasRun(slots, SlotsNeeded(name)) || Ready(t1, h, 1)
    ensures HasRoom(slots, t[c := WithNext(t[c], EOC)], SlotsNeeded(name), perCluster) <==>
            CanMake(slots, t, name, perCluster)
  {
    hide HasRun, Searched, SlotsNeeded, NoneFree, Spare, Ready;
    var t1 := t[c := WithNext(t[c], EOC)];
    SpareAfter(t, c);
    if Ready(t1, h, 1) {
      SpareOrNone(t1, h);
    }
    SpareSome(t, c);
    assert |Spare(t1)| == 0 <==> Spare(t1) == {};
  }

  lemma SpareSome(t: Fat, c: nat)
    requires c in Spare(t)
    ensures |Spare(t)| >= 1
  {
  }

  /** The cluster is given back when the entry cannot be added. */
  method GiveBack(d: Driver, c: nat, ghost s: seq<nat>, ghost t: Fat, ghost disk: Disk, ghost m: Disk)
    requires d.Valid() && InRange(t) && IsChain(t, s) && |t| <= EOC
    requires Taken(t, d.Table(), disk, m, AreaOf(d), d.fatStart, s, c)
    requires Untouched(d.Table(), d.Table(), m, d.disk, AreaOf(d), d.fatStart, s)
    modifies d`disk, d`dirty, d`cacheSector, d.buf
    ensures d.Valid() && d.OnDisk() && NotMade(t, d.Table(), disk, d.disk, AreaOf(d), d.fatStart, s, [c])
  {
    hide TableOf, IsChain, InRange, FreedFrom, Taken, Untouched, NotMade;
    ghost var t1, n, a := d.Table(), d.disk, AreaOf(d);
    TakenDir(t, t1, disk, m, a, d.fatStart, s, c);
    TakenPlace(t, t1, disk, m, a, d.fatStart, s, c);
    d.FreeChain(c);
    GivenBack(t, d.Table(), c);
    d.Sync();
    TakenBack(t, t1, disk, m, n, d.disk, a, d.fatStart, s, c);
  }

  lemma TakenPlace(t: Fat, t': Fat, d: Disk, d': Disk, a: Area, lo: nat, s: seq<nat>, c: nat)
    requires Taken(t, t', d, d', a, lo, s, c) && |t| <= EOC
    ensures 2 <= c < |t| && c < EOC && Next(t[c]) == 0 && t' == t[c := WithNext(t[c], EOC)]
  {
  }

  lemma TakenBack(t: Fat, t1: Fat, d: Disk, m: Disk, n: Disk, d': Disk, a: Area, lo: nat, s: seq<nat>, c: nat)
    requires Taken(t, t1, d, m, a, lo, s, c) && Untouched(t1, t1, m, n, a, lo, s)
    requires forall l: nat :: !(lo <= l < a.data) ==> d'[l] == n[l]
    requires lo <= a.data
    ensures NotMade(t, t, d, d', a, lo, s, [c])
  {
    hide Slots, Bytes, InCluster;
    BytesAbove(n, d', a, s);
    SameSlots(n, d', a, s);
  }

  lemma NothingMade(t: Fat, t': Fat, d: Disk, d': Disk, a: Area, lo: nat, s: seq<nat>)
    requires Untouched(t, t', d, d', a, lo, s)
    ensures NotMade(t, t', d, d', a, lo, s, [])
  {
  }

  /** The entry is one for the name, under an alias that no other entry has, and the new cluster is
      a chain of its own. */
  ghost predicate MadeEntry(t: Fat, t': Fat, d: Disk, d': Disk, a: Area, lo: nat, s: seq<nat>, g: seq<nat>, c: nat,
      added: seq<Slot>, name: seq<Byte>, alias: seq<Byte>, attr: Byte) {
    && Made(t, t', d, d', a, lo, s, g, c, added) && IsChain(t', g) && IsChain(t', [c])
    && EntryOf(added, name, alias, attr, c)
    && (!Fits83(name) && |Used(Slots(d, a, s), 0)| < MAX_ALIAS ==> alias !in Used(Slots(d, a, s), 0))
  }

  /** The same, with the new cluster a directory of "." and "..". */
  ghost predicate MadeDir(t: Fat, t': Fat, d: Disk, d': Disk, a: Area, lo: nat, s: seq<nat>, g: seq<nat>, c: nat,
      added: seq<Slot>, name: seq<Byte>, alias: seq<Byte>, parent: nat) {
    && MadeEntry(t, t', d, d', a, lo, s, g, c, added, name, alias, ATTR_DIRECTORY)
    && NewDir(Slots(d', a, [c]), c, parent)
  }

  /** The new cluster is full of zeros. */
  ghost predicate Empty(d: Disk, a: Area, c: nat) {
    a.spc >= 1 && c >= 2 && Bytes(d, a, [c]) == Zeros(a.spc * 512)
  }

  /** The second step: the entry, or the cluster is given back. */
  method Enter(d: Driver, first: nat, taken: nat, name: seq<Byte>, attr: Byte, ghost s: seq<nat>, ghost t: Fat,
      ghost disk: Disk, ghost slots: seq<Slot>)
    returns (ok: bool, ghost g: seq<nat>, ghost added: seq<Slot>, ghost alias: seq<Byte>)
    requires d.Valid() && d.OnDisk() && IsChain(t, s) && s[0] == first && InRange(t) && taken in Spare(t) && |t| == d.n
    requires Taken(t, d.Table(), disk, d.disk, AreaOf(d), d.fatStart, s, taken)
    requires slots == Slots(disk, AreaOf(d), s) && Searched(slots, name) == None
    requires HasRun(slots, SlotsNeeded(name)) || Ready(d.Table(), Hint(d.hint), 1)
    requires IsName(name) && attr != ATTR_LFN
    modifies d`disk, d`dirty, d`cacheSector, d`hint, d.buf
    ensures d.Valid() && d.OnDisk() && (ok <==> CanMake(slots, t, name, PerCluster(d.spc)))
    ensures !ok ==> NotMade(t, d.Table(), disk, d.disk, AreaOf(d), d.fatStart, s, [taken])
    ensures ok ==> Empty(d.disk, AreaOf(d), taken)
                   && MadeEntry(t, d.Table(), disk, d.disk, AreaOf(d), d.fatStart, s, g, taken, added, name, alias,
                       attr)
  {
    hide IsChain, TableOf, Slots, Ready, InRange, Spare, CanMake, HasRoom, Untouched, Taken, NotMade, MadeEntry,
      HasRun, SlotsNeeded, Entered, EntryOf, Fits83, Used, Searched, Clusters, WithNext, Empty;
    ghost var t1, m, a := d.Table(), d.disk, AreaOf(d);
    TakenPlace(t, t1, disk, m, a, d.fatStart, s, taken);
    TakenDir(t, t1, disk, m, a, d.fatStart, s, taken);
    TakenSlots(t, t1, disk, m, a, d.fatStart, s, taken);
    RoomMeans(slots, t, taken, name, PerCluster(d.spc), Hint(d.hint));
    ok, g, added, alias := AddNamed(d, first, name, attr, taken, s);
    if ok {
      TakenEntered(t, d.Table(), disk, m, d.disk, a, d.fatStart, s, g, taken, added, name, alias, attr);
    } else {
      UntouchedTable(t1, d.Table(), m, d.disk, a, d.fatStart, s);
      GiveBack(d, taken, s, t, disk, m);
    }
  }

  lemma TakenSlots(t: Fat, t': Fat, d: Disk, d': Disk, a: Area, lo: nat, s: seq<nat>, c: nat)
    requires Taken(t, t', d, d', a, lo, s, c)
    ensures Clusters(s) && Slots(d', a, s) == Slots(d, a, s)
  {
  }

  lemma UntouchedTable(t: Fat, t': Fat, d: Disk, d': Disk, a: Area, lo: nat, s: seq<nat>)
    requires Untouched(t, t', d, d', a, lo, s)
    ensures t' == t
  {
  }

  /** What create and mkdir have in common: the name must be taken, a cluster is taken, the entry is
      added, and if that fails the cluster is given back. */
  method Make(d: Driver, first: nat, name: seq<Byte>, attr: Byte, ghost s: seq<nat>)
    returns (c: nat, ghost g: seq<nat>, ghost added: seq<Slot>, ghost alias: seq<Byte>, ghost x: seq<nat>)
    requires IsDir(d, first, s) && InRange(d.Table()) && IsName(name) && attr != ATTR_LFN
    requires Ready(d.Table(), Hint(d.hint), ClustersNeeded(DirSlots(d, s), SlotsNeeded(name)))
    modifies d`disk, d`dirty, d`cacheSector, d`hint, d.buf
    ensures d.Valid() && (old(d.OnDisk()) ==> d.OnDisk())
    ensures c != 0 <==> CanMake(old(DirSlots(d, s)), old(d.Table()), name, PerCluster(d.spc))
    ensures c == 0 ==> NotMade(old(d.Table()), d.Table(), old(d.disk), d.disk, AreaOf(d), d.fatStart, s, x)
    ensures c != 0 ==> Empty(d.disk, AreaOf(d), c)
    ensures c != 0 ==>
              MadeEntry(old(d.Table()), d.Table(), old(d.disk), d.disk, AreaOf(d), d.fatStart, s, g, c, added, name,
                  alias, attr)
  {
    hide IsChain, TableOf, Slots, Ready, InRange, Spare, CanMake, Untouched, Taken, NotMade, MadeEntry, HasRun,
      SlotsNeeded, Looked, NodeAt, Searched, Empty;
    ghost var t, disk, slots, a, clean := d.Table(), d.disk, DirSlots(d, s), AreaOf(d), d.OnDisk();
    c, g, added, alias, x := 0, s, [], [], [];
    var found := Lookup(d, first, name, s);
    LookedUntouched(d, s, t, disk, clean);
    if found.Some? {
      NothingMade(t, t, disk, d.disk, a, d.fatStart, s);
      NotNew(slots, t, name, PerCluster(d.spc));
      return;
    }
    ghost var m0 := d.disk;
    var taken := NewCluster(d, first, s, ClustersNeeded(slots, SlotsNeeded(name)) - 1);
    if taken == 0 {
      UntouchedOn(t, t, d.Table(), disk, m0, d.disk, a, d.fatStart, s);
      NothingMade(t, d.Table(), disk, d.disk, a, d.fatStart, s);
      NoClusters(slots, t, name, PerCluster(d.spc));
      return;
    }
    TakenFrom(t, d.Table(), disk, m0, d.disk, a, d.fatStart, s, taken);
    var ok;
    ok, g, added, alias := Enter(d, first, taken, name, attr, s, t, disk, slots);
    if ok {
      c := taken;
    } else {
      x := [taken];
    }
  }

  lemma NotNew(slots: seq<Slot>, t: Fat, name: seq<Byte>, perCluster: nat)
    requires Searched(slots, name) != None
    ensures !CanMake(slots, t, name, perCluster)
  {
  }

  lemma NoClusters(slots: seq<Slot>, t: Fat, name: seq<Byte>, perCluster: nat)
    requires Spare(t) == {}
    ensures !CanMake(slots, t, name, perCluster)
  {
  }

  lemma TakenFrom(t: Fat, t': Fat, d: Disk, m: Disk, d': Disk, a: Area, lo: nat, s: seq<nat>, c: nat)
    requires Untouched(t, t, d, m, a, lo, s) && Taken(t, t', m, d', a, lo, s, c)
    ensures Taken(t, t', d, d', a, lo, s, c)
  {
    hide Slots, Bytes, InCluster;
  }

  lemma TakenEntered(t: Fat, t': Fat, d: Disk, m: Disk, d': Disk, a: Area, lo: nat, s: seq<nat>, g: seq<nat>, c: nat,
      added: seq<Slot>, name: seq<Byte>, alias: seq<Byte>, attr: Byte)
    requires c < |t| && Taken(t, t[c := WithNext(t[c], EOC)], d, m, a, lo, s, c)
    requires IsChain(t, s) && InRange(t) && |t| <= EOC && lo <= a.data
    requires Entered(t[c := WithNext(t[c], EOC)], t', m, d', a, lo, s, g, added)
    requires EntryOf(added, name, alias, attr, c)
    requires !Fits83(name) && |Used(Slots(m, a, s), 0)| < MAX_ALIAS ==> alias !in Used(Slots(m, a, s), 0)
    ensures MadeEntry(t, t', d, d', a, lo, s, g, c, added, name, alias, attr) && Empty(d', a, c)
  {
    hide Slots, Bytes, Entered, Made, IsChain, InRange, KeptBut, EntryOf, Fits83, Used;
    ThenEntered(t, t', d, m, d', a, lo, s, g, c, added);
  }

  /** Changes in the new cluster, and to the copy of the table on disk, keep the entry made. */
  lemma MadeStill(t: Fat, t': Fat, d: Disk, m: Disk, d': Disk, a: Area, lo: nat, s: seq<nat>, g: seq<nat>, c: nat,
      added: seq<Slot>, name: seq<Byte>, alias: seq<Byte>, attr: Byte)
    requires MadeEntry(t, t', d, m, a, lo, s, g, c, added, name, alias, attr) && KeptBut(m, d', a, lo, [c])
    ensures MadeEntry(t, t', d, d', a, lo, s, g, c, added, name, alias, attr)
  {
    hide Slots, Bytes, IsChain, Grown, Added, EntryOf, Fits83, Used, InCluster, HasRun;
    forall l: nat | OfChain(a, g, l) ensures d'[l] == m[l] {
      assert Disjoint([c], g);
      ApartFrom(a, [c], g, l);
    }
    SameBytes(m, d', a, g);
    SameSlots(m, d', a, g);
  }

  lemma EmptyStill(d: Disk, d': Disk, a: Area, lo: nat, c: nat)
    requires Empty(d, a, c) && forall l: nat :: !(lo <= l < a.data) ==> d'[l] == d[l]
    ensures Empty(d', a, c) && KeptBut(d, d', a, lo, [c])
  {
    hide Bytes;
    BytesAbove(d, d', a, [c]);
  }

  /** fat32_vfs_create returns 0 exactly when the name is new, there is room for its entry, and there
      are clusters for both; then an empty file is in the directory, and the table is on disk. Else
      it returns -1, and the table and the directory are as they were. */
  method Create(d: Driver, first: nat, name: seq<Byte>, ghost s: seq<nat>)
    returns (r: int, ghost g: seq<nat>, ghost c: nat, ghost added: seq<Slot>, ghost alias: seq<Byte>, ghost x: seq<nat>)
    requires IsDir(d, first, s) && InRange(d.Table()) && IsName(name)
    requires Ready(d.Table(), Hint(d.hint), ClustersNeeded(DirSlots(d, s), SlotsNeeded(name)))
    modifies d`disk, d`dirty, d`cacheSector, d`hint, d.buf
    ensures d.Valid() && (old(d.OnDisk()) ==> d.OnDisk())
    ensures r == if CanMake(old(DirSlots(d, s)), old(d.Table()), name, PerCluster(d.spc)) then 0 else -1
    ensures r != 0 ==> NotMade(old(d.Table()), d.Table(), old(d.disk), d.disk, AreaOf(d), d.fatStart, s, x)
    ensures r == 0 ==> d.OnDisk() && Empty(d.disk, AreaOf(d), c)
    ensures r == 0 ==>
              MadeEntry(old(d.Table()), d.Table(), old(d.disk), d.disk, AreaOf(d), d.fatStart, s, g, c, added, name,
                  alias,
                        ATTR_ARCHIVE)
  {
    hide IsChain, TableOf, Slots, Ready, InRange, CanMake, NotMade, MadeEntry, HasRun, SlotsNeeded, Empty, OfChain;
    ghost var t, disk, a := d.Table(), d.disk, AreaOf(d);
    var made;
    made, g, added, alias, x := Make(d, first, name, ATTR_ARCHIVE, s);
    c := made;
    if made == 0 {
      return -1, g, c, added, alias, x;
    }
    ghost var m := d.disk;
    d.Sync();
    EmptyStill(m, d.disk, a, d.fatStart, c);
    MadeStill(t, d.Table(), disk, m, d.disk, a, d.fatStart, s, g, c, added, name, alias, ATTR_ARCHIVE);
    r := 0;
  }

  // ----- mkdir -----

  const DOT_NAME: seq<Byte> := [0x2E] + Spaces(10)
  const DOTDOT_NAME: seq<Byte> := [0x2E, 0x2E] + Spaces(9)

  /** A new directory: the entries for itself and its parent, and nothing else. */
  ghost predicate NewDir(slots: seq<Slot>, c: nat, parent: nat) {
    && |slots| >= 2 && HoldsShort(slots[0], DOT_NAME, ATTR_DIRECTORY, c)
    && HoldsShort(slots[1], DOTDOT_NAME, ATTR_DIRECTORY, parent)
    && forall i :: 2 <= i < |slots| ==> slots[i] == ZeroSlot()
  }

  lemma EmptySlots(d: Disk, a: Area, c: nat)
    requires Empty(d, a, c)
    ensures Clusters([c]) && Slots(d, a, [c]) == ZeroSlots(PerCluster(a.spc))
  {
    hide Bytes;
    forall i: nat | i < a.spc * 16 ensures SlotIn(Bytes(d, a, [c]), i * 32) == ZeroSlot() {
    }
  }

  lemma DotAdded(t: Fat, t': Fat, d: Disk, d': Disk, a: Area, lo: nat, c: nat, g: seq<nat>, x: Slot, p: nat)
    requires Entered(t, t', d, d', a, lo, [c], g, [x]) && p < |Slots(d, a, [c])|
    requires HasRun(Slots(d, a, [c]), 1) && PlaceFor(Slots(d, a, [c]), 1) == p
    ensures g == [c] && t' == t && Slots(d', a, [c]) == Slots(d, a, [c])[p := x] && KeptBut(d, d', a, lo, [c])
  {
    hide Slots, HasRun, PlaceFor, Grown, OfChain;
  }

  /** One of the entries "." and "..". */
  method AddDot(d: Driver, c: nat, alias: seq<Byte>, cluster: Word32, ghost p: nat) returns (ghost x: Slot)
    requires IsDir(d, c, [c]) && |alias| == 11
    requires p < |DirSlots(d, [c])| && Free(DirSlots(d, [c])[p]) && forall i :: 0 <= i < p ==>
        !Free(DirSlots(d, [c])[i])
    modifies d`disk, d`dirty, d`cacheSector, d`hint, d.buf
    ensures d.Valid() && d.Table() == old(d.Table()) && (old(d.OnDisk()) ==> d.OnDisk())
    ensures HoldsShort(x, alias, ATTR_DIRECTORY, cluster) && DirSlots(d, [c]) == old(DirSlots(d, [c]))[p := x]
    ensures KeptBut(old(d.disk), d.disk, AreaOf(d), d.fatStart, [c])
  {
    hide IsChain, TableOf, Slots, HasRun, PlaceFor, HoldsShort, Entered, Untouched, KeptBut;
    ghost var t, disk, slots, a := d.Table(), d.disk, DirSlots(d, [c]), AreaOf(d);
    FirstSlot(slots, p);
    ghost var g;
    var ok;
    ok, g, x := AddShort(d, c, alias, ATTR_DIRECTORY, cluster, [c]);
    DotAdded(t, d.Table(), disk, d.disk, a, d.fatStart, c, g, x, p);
  }

  /** Both of them, in a new cluster. */
  method AddDots(d: Driver, c: nat, parent: Word32)
    requires d.Valid() && IsChain(d.Table(), [c]) && Empty(d.disk, AreaOf(d), c)
    modifies d`disk, d`dirty, d`cacheSector, d`hint, d.buf
    ensures d.Valid() && d.Table() == old(d.Table()) && (old(d.OnDisk()) ==> d.OnDisk())
    ensures NewDir(Slots(d.disk, AreaOf(d), [c]), c, parent) && KeptBut(old(d.disk), d.disk, AreaOf(d), d.fatStart, [c])
  {
    hide TableOf, Slots, Bytes, KeptBut, HoldsShort, FirstCluster;
    ghost var disk, a := d.disk, AreaOf(d);
    EmptySlots(disk, a, c);
    ClusterFits(d, c);
    ghost var x := AddDot(d, c, DOT_NAME, c, 0);
    ghost var m := d.disk;
    DotInUse(x, DOT_NAME, c);
    ghost var y := AddDot(d, c, DOTDOT_NAME, parent, 1);
    KeptOn(disk, m, d.disk, a, d.fatStart, [c]);
  }

  lemma ClusterFits(d: Driver, c: nat)
    requires d.Valid() && IsChain(d.Table(), [c])
    ensures c < TWO_32 && IsDir(d, c, [c])
  {
    assert [c][0] == c;
  }

  lemma DotInUse(x: Slot, alias: seq<Byte>, cluster: nat)
    requires HoldsShort(x, alias, ATTR_DIRECTORY, cluster) && |alias| == 11 && alias[0] == 0x2E
    ensures !Free(x)
  {
    assert x[..11][0] == x[0];
  }

  /** fat32_vfs_mkdir, like create, and the new directory holds the entries "." and "..". */
  method Mkdir(d: Driver, first: nat, name: seq<Byte>, ghost s: seq<nat>)
    returns (r: int, ghost g: seq<nat>, ghost c: nat, ghost added: seq<Slot>, ghost alias: seq<Byte>, ghost x: seq<nat>)
    requires IsDir(d, first, s) && InRange(d.Table()) && IsName(name)
    requires Ready(d.Table(), Hint(d.hint), ClustersNeeded(DirSlots(d, s), SlotsNeeded(name)))
    modifies d`disk, d`dirty, d`cacheSector, d`hint, d.buf
    ensures d.Valid() && (old(d.OnDisk()) ==> d.OnDisk())
    ensures r == if CanMake(old(DirSlots(d, s)), old(d.Table()), name, PerCluster(d.spc)) then 0 else -1
    ensures r != 0 ==> NotMade(old(d.Table()), d.Table(), old(d.disk), d.disk, AreaOf(d), d.fatStart, s, x)
    ensures r == 0 ==> d.OnDisk()
    ensures r == 0 ==>
              MadeDir(old(d.Table()), d.Table(), old(d.disk), d.disk, AreaOf(d), d.fatStart, s, g, c, added, name,
                  alias, first)
  {
    hide IsChain, TableOf, Slots, Ready, InRange, CanMake, NotMade, MadeEntry, HasRun, SlotsNeeded, Empty, OfChain,
      NewDir, KeptBut;
    ghost var t, disk, a := d.Table(), d.disk, AreaOf(d);
    FirstFits(d, first, s);
    var made;
    made, g, added, alias, x := Make(d, first, name, ATTR_DIRECTORY, s);
    c := made;
    if made == 0 {
      return -1, g, c, added, alias, x;
    }
    ghost var m0 := d.disk;
    MadeChain(t, d.Table(), disk, m0, a, d.fatStart, s, g, c, added, name, alias, ATTR_DIRECTORY);
    AddDots(d, made, first);
    ghost var m := d.disk;
    MadeStill(t, d.Table(), disk, m0, m, a, d.fatStart, s, g, c, added, name, alias, ATTR_DIRECTORY);
    d.Sync();
    SyncedSlots(m, d.disk, a, d.fatStart, c);
    MadeStill(t, d.Table(), disk, m, d.disk, a, d.fatStart, s, g, c, added, name, alias, ATTR_DIRECTORY);
    r := 0;
  }

  lemma FirstFits(d: Driver, first: nat, s: seq<nat>)
    requires IsDir(d, first, s)
    ensures first < TWO_32
  {
  }

  lemma MadeChain(t: Fat, t': Fat, d: Disk, d': Disk, a: Area, lo: nat, s: seq<nat>, g: seq<nat>, c: nat,
      added: seq<Slot>, name: seq<Byte>, alias: seq<Byte>, attr: Byte)
    requires MadeEntry(t, t', d, d', a, lo, s, g, c, added, name, alias, attr)
    ensures IsChain(t', [c]) && c >= 2
  {
  }

  lemma SyncedSlots(d: Disk, d': Disk, a: Area, lo: nat, c: nat)
    requires a.spc >= 1 && c >= 2 && forall l: nat :: !(lo <= l < a.data) ==> d'[l] == d[l]
    ensures Slots(d', a, [c]) == Slots(d, a, [c]) && KeptBut(d, d', a, lo, [c])
  {
    hide Bytes;
    BytesAbove(d, d', a, [c]);
    SameSlots(d, d', a, [c]);
  }

  // ----- unlink -----

  /** The entry that lookup finds names a cluster of the table, or none. */
  ghost predicate EntryInside(slots: seq<Slot>, name: seq<Byte>, n: nat) {
    var at := Searched(slots, name);
    at.Some? ==> FirstCluster(slots[at.value]) < n || FirstCluster(slots[at.value]) >= EOC
  }

  /** The slot as it is on disk. */
  method ReadSlot(d: Driver, info: Info, ghost s: seq<nat>, ghost i: nat) returns (x: Slot)
    requires d.spc >= 1 && Clusters(s) && i < |s| * d.spc * 16
    requires info == Info(SectorOf(AreaOf(d), s, i / 16), i % 16 * 32)
    ensures x == DirSlots(d, s)[i]
  {
    hide SectorOf, SlotIn;
    SlotPlace(d.disk, AreaOf(d), s, i);
    var sectorBuf := new Byte[512];
    d.ReadSector(info.lba, sectorBuf);
    x := SlotIn(sectorBuf[..], info.off);
  }

  lemma NodePlace(node: Node, a: Area, s: seq<nat>, slots: seq<Slot>, p: nat)
    requires a.spc >= 1 && Clusters(s) && |slots| == |s| * a.spc * 16 && p < |slots| && NodeAt(node, a, s, slots, p)
    ensures node.ino == FirstCluster(slots[p]) && node.info == Info(SectorOf(a, s, p / 16), p % 16 * 32)
    ensures Loc(node.info.lba, node.info.off / 32) == LocOf(a, s, p)
  {
    hide SectorOf;
  }

  /** What freeing the clusters of the entry makes of the table. */
  ghost predicate Freed(t: Fat, t': Fat, start: nat) {
    && InRange(t) && |t| <= EOC && |t'| == |t|
    && if 2 <= start < |t| then FreedFrom(t, t', start) else t' == t
  }

  /** The entry at slot p is marked as deleted, and its clusters are free. Outside the table and the
      directory nothing changed. */
  ghost predicate Unlinked(t: Fat, t': Fat, d: Disk, d': Disk, a: Area, lo: nat, s: seq<nat>, p: nat) {
    && a.spc >= 1 && Clusters(s) && p < |Slots(d, a, s)|
    && Freed(t, t', FirstCluster(Slots(d, a, s)[p])) && KeptBut(d, d', a, lo, s)
    && Slots(d', a, s) == Removed(Slots(d, a, s), p)
  }

  lemma UnlinkedSo(t: Fat, t': Fat, d: Disk, n: Disk, d': Disk, a: Area, lo: nat, s: seq<nat>, p: nat)
    requires a.spc >= 1 && Clusters(s) && p < |Slots(d, a, s)|
    requires KeptBut(d, n, a, lo, s) && Slots(n, a, s) == Slots(d, a, s)[p := Slots(d, a, s)[p][0 := DELETED]]
    requires Freed(t, t', FirstCluster(Slots(d, a, s)[p])) && forall l: nat :: !(lo <= l < a.data) ==> d'[l] == n[l]
    ensures Unlinked(t, t', d, d', a, lo, s, p)
  {
    hide Slots, Bytes, Freed, InCluster;
    BytesAbove(n, d', a, s);
    SameSlots(n, d', a, s);
  }

  /** The deletion of the entry found: its first byte, and its clusters. */
  method Delete(d: Driver, node: Node, ghost s: seq<nat>, ghost p: nat)
    requires d.Valid() && Clusters(s) && InRange(d.Table()) && p < |DirSlots(d, s)|
    requires NodeAt(node, AreaOf(d), s, DirSlots(d, s), p) && (node.ino < d.n || node.ino >= EOC)
    modifies d`disk, d`dirty, d`cacheSector, d.buf
    ensures d.Valid() && d.OnDisk()
    ensures Unlinked(old(d.Table()), d.Table(), old(d.disk), d.disk, AreaOf(d), d.fatStart, s, p)
  {
    hide IsChain, TableOf, Slots, NodeAt, KeptBut, FreedFrom, FirstCluster, InRange, SectorOf, Unlinked;
    ghost var t, disk, slots, a := d.Table(), d.disk, DirSlots(d, s), AreaOf(d);
    NodePlace(node, a, s, slots, p);
    var x := ReadSlot(d, node.info, s, p);
    PutSlot(d, Loc(node.info.lba, node.info.off / 32), x[0 := DELETED], s, p);
    ghost var n := d.disk;
    d.FreeChain(node.ino);
    FreedIs(t, d.Table(), node.ino);
    d.Sync();
    UnlinkedSo(t, d.Table(), disk, n, d.disk, a, d.fatStart, s, p);
  }

  lemma FreedIs(t: Fat, t': Fat, start: nat)
    requires InRange(t) && |t| <= EOC && (start < |t| || start >= EOC)
    requires start < 2 || start >= EOC ==> t' == t
    requires 2 <= start < EOC ==> FreedFrom(t, t', start)
    ensures Freed(t, t', start)
  {
  }

  lemma UnlinkedFrom(t: Fat, t': Fat, d: Disk, m: Disk, d': Disk, a: Area, lo: nat, s: seq<nat>, p: nat)
    requires Untouched(t, t, d, m, a, lo, s) && Unlinked(t, t', m, d', a, lo, s, p)
    ensures Unlinked(t, t', d, d', a, lo, s, p)
  {
    hide Slots, Freed, InCluster;
  }

  /** fat32_vfs_unlink removes the entry that lookup finds, and returns -1 when it finds none. */
  method Unlink(d: Driver, first: nat, name: seq<Byte>, ghost s: seq<nat>) returns (r: int)
    requires IsDir(d, first, s) && InRange(d.Table()) && EntryInside(DirSlots(d, s), name, d.n)
    modifies d`disk, d`dirty, d`cacheSector, d.buf
    ensures d.Valid() && (old(d.OnDisk()) ==> d.OnDisk())
    ensures r == if Searched(old(DirSlots(d, s)), name).Some? then 0 else -1
    ensures r != 0 ==> Untouched(old(d.Table()), d.Table(), old(d.disk), d.disk, AreaOf(d), d.fatStart, s)
    ensures r == 0 ==> d.OnDisk()
    ensures r == 0 ==>
              Unlinked(old(d.Table()), d.Table(), old(d.disk), d.disk, AreaOf(d), d.fatStart, s,
                       Searched(old(DirSlots(d, s)), name).value)
  {
    hide IsChain, TableOf, Slots, Looked, Searched, NodeAt, Untouched, FirstCluster, InRange, Unlinked;
    ghost var t, disk, slots, a, clean := d.Table(), d.disk, DirSlots(d, s), AreaOf(d), d.OnDisk();
    var found := Lookup(d, first, name, s);
    LookedUntouched(d, s, t, disk, clean);
    if found.None? {
      return -1;
    }
    ghost var p, m := Searched(slots, name).value, d.disk;
    UntouchedSlots(t, t, disk, m, a, d.fatStart, s);
    NodePlace(found.value, a, s, slots, p);
    Delete(d, found.value, s, p);
    UnlinkedFrom(t, d.Table(), disk, m, d.disk, a, d.fatStart, s, p);
    r := 0;
  }
}
