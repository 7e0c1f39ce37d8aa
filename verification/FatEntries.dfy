/** Writing entries to a directory on the volume, which grows by a cluster when it has no room
    (src/fs/fat32.c:687-734, 766-937). */
module FatEntries {
  import opened Wrappers
  import opened Words
  import opened FatTable
  import opened FatChains
  import opened FatDriver
  import opened FatBytes
  import opened FatRead
  import opened FatGrow
  import opened FatWrite
  import opened Lfn
  import opened LfnNames
  import opened ShortNames
  import opened FatNames
  import opened FatCreate
  import opened FatSlots
  import opened FatAdd
  import opened FatScan
  import F = FatFile

  // ----- slots on disk -----

  /** Stores in data sectors leave the table as it is, in the cache and on disk. */
  lemma DataStored(was: Disk, now: Disk, d: Driver)
    requires SameBelow(was, now, d.dataStart) && d.Geometry() && d.buf.Length == 512
    ensures TableOf(now, d.cacheSector, d.buf[..], d.fatStart, d.n) ==
            TableOf(was, d.cacheSector, d.buf[..], d.fatStart, d.n)
    ensures TableOf(now, CACHE_INVALID, ZeroSector(), d.fatStart, d.n) ==
            TableOf(was, CACHE_INVALID, ZeroSector(), d.fatStart, d.n)
    ensures d.cacheSector < d.dataStart ==> now[d.cacheSector] == was[d.cacheSector]
  {
    hide TableOf, ZeroSector;
    SameTable(was, d.cacheSector, d.buf[..], now, d.cacheSector, d.buf[..], d.fatStart, d.n, d.dataStart);
    SameTable(was, CACHE_INVALID, ZeroSector(), now, CACHE_INVALID, ZeroSector(), d.fatStart, d.n, d.dataStart);
  }

  lemma SlotSector(d: Disk, a: Area, lo: nat, s: seq<nat>, i: nat, sec: Sector)
    requires a.spc >= 1 && Clusters(s) && i < |s| * a.spc * 16
    ensures SameBelow(d, d[LocOf(a, s, i).lba := sec], a.data)
    ensures KeptBut(d, d[LocOf(a, s, i).lba := sec], a, lo, s)
  {
    hide SectorOf, Seat, InCluster;
    SectorOfIn(a, s, i / 16);
  }

  /** A sector with one slot of it changed. */
  method ChangedSector(d: Driver, l: nat, o: nat, x: Slot) returns (sec: Sector)
    requires o + 32 <= 512
    ensures sec == WithSlot(d.disk[l], o, x)
  {
    var sectorBuf := new Byte[512];
    d.ReadSector(l, sectorBuf);
    forall j | 0 <= j < 32 {
      sectorBuf[o + j] := x[j];
    }
    sec := sectorBuf[..];
  }

  /** The slot in its sector is read, changed and written. */
  method PutSlot(d: Driver, loc: Loc, x: Slot, ghost s: seq<nat>, ghost i: nat)
    requires d.Valid() && Clusters(s) && i < |s| * d.spc * 16 && loc == LocOf(AreaOf(d), s, i)
    modifies d`disk
    ensures d.Valid() && d.Table() == old(d.Table()) && (old(d.OnDisk()) ==> d.OnDisk())
    ensures DirSlots(d, s) == old(DirSlots(d, s))[i := x]
    ensures KeptBut(old(d.disk), d.disk, AreaOf(d), d.fatStart, s)
  {
    hide Slots, SectorOf, TableOf, KeptBut, SameBelow, WithSlot;
    ghost var was := d.disk;
    var sec := ChangedSector(d, loc.lba, loc.idx * 32, x);
    SlotStored(was, AreaOf(d), s, i, x);
    SlotSector(was, AreaOf(d), d.fatStart, s, i, sec);
    d.disk := d.disk[loc.lba := sec];
    DataStored(was, d.disk, d);
  }

  lemma KeptOn(d: Disk, m: Disk, d': Disk, a: Area, lo: nat, s: seq<nat>)
    requires Clusters(s) && KeptBut(d, m, a, lo, s) && KeptBut(m, d', a, lo, s)
    ensures KeptBut(d, d', a, lo, s)
  {
    hide OfChain;
  }

  lemma KeptNow(d: Disk, a: Area, lo: nat, s: seq<nat>)
    requires Clusters(s)
    ensures KeptBut(d, d, a, lo, s)
  {
  }

  /** The slots of an entry, one after the other. */
  method PlaceSlots(d: Driver, locs: seq<Loc>, entry: seq<Slot>, ghost s: seq<nat>, ghost p: nat)
    requires d.Valid() && Clusters(s) && Located(AreaOf(d), s, p, locs) && |entry| == |locs|
    modifies d`disk
    ensures d.Valid() && d.Table() == old(d.Table()) && (old(d.OnDisk()) ==> d.OnDisk())
    ensures p + |entry| <= |old(DirSlots(d, s))| && DirSlots(d, s) == Placed(old(DirSlots(d, s)), p, entry)
    ensures KeptBut(old(d.disk), d.disk, AreaOf(d), d.fatStart, s)
  {
    hide Slots, TableOf, KeptBut, SectorOf, Placed;
    ghost var slots, a, disk := DirSlots(d, s), AreaOf(d), d.disk;
    var c: nat := 0;
    KeptNow(disk, a, d.fatStart, s);
    PlacedNone(slots, p, entry);
    while c < |entry|
      modifies d`disk
      invariant c <= |entry| && d.Valid() && d.Table() == old(d.Table()) && (old(d.OnDisk()) ==> d.OnDisk())
      invariant DirSlots(d, s) == Placed(slots, p, entry[..c]) && KeptBut(disk, d.disk, a, d.fatStart, s)
    {
      ghost var m := d.disk;
      PutSlot(d, locs[c], entry[c], s, p + c);
      KeptOn(disk, m, d.disk, a, d.fatStart, s);
      PlacedMore(slots, p, entry, c);
      c := c + 1;
    }
    assert entry[..c] == entry;
  }

  lemma PlacedNone(slots: seq<Slot>, p: nat, entry: seq<Slot>)
    requires p + |entry| <= |slots|
    ensures Placed(slots, p, entry[..0]) == slots
  {
  }

  lemma PlacedMore(slots: seq<Slot>, p: nat, entry: seq<Slot>, c: nat)
    requires p + |entry| <= |slots| && c < |entry|
    ensures Placed(slots, p, entry[..c])[p + c := entry[c]] == Placed(slots, p, entry[..c + 1])
  {
  }

  // ----- room -----

  /** Growth by one cluster, or none: the table, and the slots with 0x00 slots behind. */
  ghost predicate Roomier(t: Fat, t': Fat, d: Disk, d': Disk, a: Area, lo: nat, s: seq<nat>, g: seq<nat>, k: nat) {
    && a.spc >= 1 && Clusters(s) && Clusters(g) && |s| <= |g| <= |s| + 1
    && Grown(t, t', s, g) && KeptBut(d, d', a, lo, g) && (HasRun(Slots(d, a, s), k) ==> g == s && t' == t)
    && Slots(d', a, g) == Room(Slots(d, a, s), k, PerCluster(a.spc))
  }

  lemma RoomAsIs(t: Fat, d: Disk, d': Disk, a: Area, lo: nat, s: seq<nat>, k: nat)
    requires IsChain(t, s) && a.spc >= 1 && Clusters(s) && HasRun(Slots(d, a, s), k)
    requires Untouched(t, t, d, d', a, lo, s)
    ensures Roomier(t, t, d, d', a, lo, s, s, k)
  {
    hide Slots, HasRun;
  }

  lemma RoomGrown(t: Fat, t': Fat, d: Disk, d': Disk, a: Area, lo: nat, s: seq<nat>, g: seq<nat>, k: nat)
    requires Growth(t, t', d, d', a, lo, s, g) && |g| == |s| + 1 && !HasRun(Slots(d, a, s), k)
    ensures Roomier(t, t', d, d', a, lo, s, g, k)
  {
    hide Slots, HasRun, Bytes, Grown, InCluster;
    SlotsGrown(d, d', a, s, g, 1);
    KeptWider(d, d', a, lo, s, g);
    GrowthParts(t, t', d, d', a, lo, s, g);
  }

  lemma KeptWider(d: Disk, d': Disk, a: Area, lo: nat, s: seq<nat>, g: seq<nat>)
    requires Clusters(s) && Clusters(g) && |s| <= |g| && KeptBut(d, d', a, lo, g[|s|..])
    ensures KeptBut(d, d', a, lo, g)
  {
    hide InCluster;
    forall l: nat | !(lo <= l < a.data) && !OfChain(a, g, l) ensures d'[l] == d[l] {
      forall i | 0 <= i < |g| - |s| ensures !InCluster(a.data, a.spc, g[|s|..][i], l) {
        assert g[|s|..][i] == g[|s| + i];
      }
    }
  }

  /** A cluster is appended to the directory, and the table written back. */
  method GrowDir(d: Driver, last: nat, ghost s: seq<nat>) returns (c: nat, ghost g: seq<nat>)
    requires d.Valid() && IsChain(d.Table(), s) && Last(s) == last && Ready(d.Table(), Hint(d.hint), 1)
    modifies d`disk, d`dirty, d`cacheSector, d`hint, d.buf
    ensures d.Valid() && (c == 0 <==> NoneFree(old(d.Table()))) && (old(d.OnDisk()) ==> d.OnDisk())
    ensures Growth(old(d.Table()), d.Table(), old(d.disk), d.disk, AreaOf(d), d.fatStart, s, g)
    ensures c == 0 ==> g == s && d.Table() == old(d.Table())
    ensures c != 0 ==> g == s + [c] && d.OnDisk()
  {
    hide IsChain, TableOf, Ready, Growth, NoneFree, FirstFree;
    ghost var t, disk, a := d.Table(), d.disk, AreaOf(d);
    NoGrowth(t, disk, disk, a, d.fatStart, s);
    LastOf(t, s);
    ghost var h := Hint(d.hint);
    c, g := GrowOnce(d, last, t, disk, s, s, 0);
    if c != 0 {
      FreeNotNone(t, h, c);
      ghost var m := d.disk;
      d.Sync();
      GrowthKept(t, d.Table(), disk, m, d.disk, a, d.fatStart, s, g);
    }
  }

  lemma FreeNotNone(t: Fat, h: nat, c: nat)
    requires FirstFree(t, h, c)
    ensures !NoneFree(t) && c >= 2
  {
  }

  /** What a directory can take: there is a run of free slots, or one cluster more is enough. */
  ghost predicate HasRoom(slots: seq<Slot>, t: Fat, k: nat, perCluster: nat) {
    HasRun(slots, k) || (k <= perCluster && !NoneFree(t))
  }

  /** The slots of the new cluster. */
  method NewLocs(d: Driver, c: nat, needed: nat, ghost s: seq<nat>) returns (locs: seq<Loc>)
    requires d.spc >= 1 && Clusters(s + [c]) && c >= 2 && needed <= PerCluster(d.spc)
    ensures |locs| == needed && Located(AreaOf(d), s + [c], |s| * d.spc * 16, locs)
  {
    hide ClusterLba, Located, Starts;
    ghost var g, a, base: nat := s + [c], AreaOf(d), |s| * d.spc * 16;
    LastStart(d.spc, |s|, base);
    var lba: nat := ClusterLba(d.dataStart, d.spc, c);
    locs := [];
    LocatedNone(a, g, base);
    var i: nat := 0;
    while i < needed
      invariant i <= needed && |locs| == i && Located(a, g, base, locs)
    {
      LocatedMore(a, g, base, locs, |s|, base, i);
      locs := locs + [Loc(lba + i / 16, i % 16)];
      i := i + 1;
    }
  }

  lemma LastStart(spc: nat, n: nat, base: nat)
    requires base == n * spc * 16
    ensures Starts(spc, n + 1, n, base) && base <= (n + 1) * spc * 16
  {
    Multiples(spc, n, n + 1);
  }

  /** What a failed search for room leaves. */
  ghost predicate Untouched(t: Fat, t': Fat, d: Disk, d': Disk, a: Area, lo: nat, s: seq<nat>) {
    && a.spc >= 1 && Clusters(s) && t' == t && KeptBut(d, d', a, lo, []) && Slots(d', a, s) == Slots(d, a, s)
  }

  lemma LookedUntouched(d: Driver, s: seq<nat>, t: Fat, disk: Disk, clean: bool)
    requires Looked(d, s, t, disk, clean)
    ensures Untouched(t, d.Table(), disk, d.disk, AreaOf(d), d.fatStart, s) && d.Valid() && (clean ==> d.OnDisk())
    ensures IsChain(t, s) && Clusters(s) && d.Table() == t
    ensures forall l: nat :: !d.InTable(l) ==> d.disk[l] == disk[l]
  {
    hide Slots, OfChain;
  }

  /** The growth, when no run is long enough. */
  method GrowRoom(d: Driver, last: nat, needed: nat, ghost s: seq<nat>, ghost slots: seq<Slot>, ghost t: Fat,
      ghost disk: Disk, ghost clean: bool) returns (locs: Option<seq<Loc>>, ghost g: seq<nat>)
    requires Looked(d, s, t, disk, clean) && |s| >= 1 && last == Last(s) && Ready(t, Hint(d.hint), 1)
    requires slots == Slots(disk, AreaOf(d), s) && !HasRun(slots, needed) && needed <= PerCluster(d.spc)
    modifies d`disk, d`dirty, d`cacheSector, d`hint, d.buf
    ensures d.Valid() && (clean ==> d.OnDisk()) && (locs.None? <==> NoneFree(t))
    ensures locs.None? ==> g == s && Untouched(t, d.Table(), disk, d.disk, AreaOf(d), d.fatStart, s)
    ensures locs.Some? ==> Roomier(t, d.Table(), disk, d.disk, AreaOf(d), d.fatStart, s, g, needed)
    ensures locs.Some? ==> |locs.value| == needed && Located(AreaOf(d), g, PlaceFor(slots, needed), locs.value)
  {
    hide IsChain, TableOf, Slots, HasRun, PlaceFor, Located, Roomier, NoneFree, Ready, Growth, Looked, Untouched,
      Clusters;
    LookedUntouched(d, s, t, disk, clean);
    ghost var m, a := d.disk, AreaOf(d);
    var c;
    c, g := GrowDir(d, last, s);
    F.GrowthFrom(t, d.Table(), disk, m, d.disk, a, d.fatStart, s, g);
    if c == 0 {
      GrownNot(t, disk, d.disk, a, d.fatStart, s);
      return None, g;
    }
    RoomGrown(t, d.Table(), disk, d.disk, a, d.fatStart, s, g, needed);
    GrowthNew(t, d.Table(), disk, d.disk, a, d.fatStart, s, c);
    NoRunPlace(slots, needed);
    SlotsCount(disk, a, s);
    var run := NewLocs(d, c, needed, s);
    locs := Some(run);
  }

  /** fat32_find_contiguous_free_slots, and the loop of fat32_add_entry: the locations of the first
      run that is long enough, or of the first slots of a cluster more. */
  method Reserve(d: Driver, first: nat, needed: nat, ghost s: seq<nat>)
    returns (locs: Option<seq<Loc>>, ghost g: seq<nat>)
    requires needed >= 1 && IsDir(d, first, s) && (HasRun(DirSlots(d, s), needed) || Ready(d.Table(), Hint(d.hint), 1))
    modifies d`disk, d`dirty, d`cacheSector, d`hint, d.buf
    ensures d.Valid() && (old(d.OnDisk()) ==> d.OnDisk())
    ensures locs.Some? <==> HasRoom(old(DirSlots(d, s)), old(d.Table()), needed, PerCluster(d.spc))
    ensures locs.None? ==> g == s && Untouched(old(d.Table()), d.Table(), old(d.disk), d.disk, AreaOf(d), d.fatStart, s)
    ensures locs.Some? ==> Roomier(old(d.Table()), d.Table(), old(d.disk), d.disk, AreaOf(d), d.fatStart, s, g, needed)
    ensures locs.Some? ==> |locs.value| == needed
    ensures locs.Some? ==> Located(AreaOf(d), g, PlaceFor(old(DirSlots(d, s)), needed), locs.value)
  {
    hide IsChain, TableOf, Slots, HasRun, PlaceFor, Located, Roomier, NoneFree, Ready, Looked, Untouched;
    ghost var t, disk, clean, slots, a := d.Table(), d.disk, d.OnDisk(), DirSlots(d, s), AreaOf(d);
    ChainStarts(t, s);
    LookedNow(d, first, s);
    var found, run, last := FindFree(d, first, needed, s, slots, t, disk, clean);
    if found || needed > PerCluster(d.spc) {
      LookedUntouched(d, s, t, disk, clean);
      g := s;
      if found {
        RoomAsIs(t, disk, d.disk, a, d.fatStart, s, needed);
        locs := Some(run);
      } else {
        locs := None;
      }
      return;
    }
    locs, g := GrowRoom(d, last, needed, s, slots, t, disk, clean);
  }

  lemma GrowthNew(t: Fat, t': Fat, d: Disk, d': Disk, a: Area, lo: nat, s: seq<nat>, c: nat)
    requires Growth(t, t', d, d', a, lo, s, s + [c])
    ensures a.spc >= 1 && Clusters(s) && Clusters(s + [c]) && c >= 2
  {
    assert (s + [c])[|s|] == c;
  }

  lemma GrownNot(t: Fat, d: Disk, d': Disk, a: Area, lo: nat, s: seq<nat>)
    requires Growth(t, t, d, d', a, lo, s, s)
    ensures Untouched(t, t, d, d', a, lo, s)
  {
    assert s[|s|..] == [];
    assert Zeros(0) == [];
    SameSlots(d, d', a, s);
  }

  // ----- an entry -----

  /** An entry was added: the chain may have grown by a cluster, the slots of the entry are in
      place, and outside the table and the directory nothing changed. */
  ghost predicate Entered(t: Fat, t': Fat, d: Disk, d': Disk, a: Area, lo: nat, s: seq<nat>, g: seq<nat>,
      added: seq<Slot>) {
    && a.spc >= 1 && Clusters(s) && Clusters(g) && |s| <= |g| <= |s| + 1
    && Grown(t, t', s, g) && KeptBut(d, d', a, lo, g) && (HasRun(Slots(d, a, s), |added|) ==> g == s && t' == t)
    && Added(Slots(d, a, s), Slots(d', a, g), added, PerCluster(a.spc))
  }

  lemma RoomThenPlaced(t: Fat, t': Fat, d: Disk, m: Disk, d': Disk, a: Area, lo: nat, s: seq<nat>, g: seq<nat>,
      added: seq<Slot>)
    requires Roomier(t, t', d, m, a, lo, s, g, |added|) && KeptBut(m, d', a, lo, g)
    requires HasRun(Slots(d, a, s), |added|) || |added| <= PerCluster(a.spc)
    requires PlaceFor(Slots(d, a, s), |added|) + |added| <= |Slots(m, a, g)|
    requires Slots(d', a, g) == Placed(Slots(m, a, g), PlaceFor(Slots(d, a, s), |added|), added)
    ensures Entered(t, t', d, d', a, lo, s, g, added)
  {
    hide Slots, HasRun, PlaceFor, Placed, Grown, KeptBut;
    KeptOn(d, m, d', a, lo, g);
  }

  lemma RoomTaken(t: Fat, t': Fat, d: Disk, m0: Disk, m: Disk, a: Area, lo: nat, s: seq<nat>, g: seq<nat>, k: nat)
    requires Roomier(t, t', m0, m, a, lo, s, g, k) && Slots(m0, a, s) == Slots(d, a, s)
    requires HasRoom(Slots(d, a, s), t, k, PerCluster(a.spc))
    requires forall l: nat :: !(lo <= l < a.data) ==> m0[l] == d[l]
    ensures Roomier(t, t', d, m, a, lo, s, g, k) && Clusters(g) && PlaceFor(Slots(d, a, s), k) + k <= |Slots(m, a, g)|
    ensures HasRun(Slots(d, a, s), k) || k <= PerCluster(a.spc)
  {
    hide Slots, HasRun, PlaceFor, Grown, OfChain, NoneFree;
    PlaceInRoom(Slots(d, a, s), k, PerCluster(a.spc));
  }

  /** The slots to write for a name. */
  method MakeEntry(d: Driver, first: nat, name: seq<Byte>, attr: Byte, cluster: Word32, ghost s: seq<nat>)
    returns (entry: seq<Slot>, ghost alias: seq<Byte>)
    requires IsDir(d, first, s)
    requires IsName(name) && attr != ATTR_LFN
    modifies d`disk, d`dirty, d`cacheSector, d.buf
    ensures Looked(d, s, old(d.Table()), old(d.disk), old(d.OnDisk()))
    ensures EntryOf(entry, name, alias, attr, cluster) && |entry| == SlotsNeeded(name) >= 1
    ensures Fits83(name) ==> alias == Format83(name)
    ensures !Fits83(name) && |Used(old(DirSlots(d, s)), 0)| < MAX_ALIAS ==> alias !in Used(old(DirSlots(d, s)), 0)
  {
    hide IsChain, TableOf, Slots, Looked, Fits83, Format83, AliasOf, Used, SlotsOf, HoldsShort;
    var fits := NameFits83(name);
    if fits {
      LookedNow(d, first, s);
      var short := FormatName(name);
      alias := short;
      var slot := WriteShort(short, attr, cluster);
      entry := [slot];
    } else {
      var short, num := FindAlias(d, first, name, s);
      alias := short;
      assert IsAlias(name, alias);
      entry := WriteSlots(name, short, attr, cluster);
      SlotsThere(entry, name, short, attr, cluster);
    }
    NeededIs(entry, name, alias, attr, cluster);
  }

  lemma SlotsThere(slots: seq<Slot>, name: seq<Byte>, alias: seq<Byte>, attr: Byte, cluster: nat)
    requires SlotsOf(slots, name, alias, attr, cluster)
    ensures |slots| >= 1
  {
  }

  /** fat32_add_entry_named: one short entry for an 8.3 name, otherwise the pieces and an alias. It
      succeeds exactly when there is room, and changes nothing if there is none. */
  method AddNamed(d: Driver, first: nat, name: seq<Byte>, attr: Byte, cluster: Word32, ghost s: seq<nat>)
    returns (ok: bool, ghost g: seq<nat>, ghost added: seq<Slot>, ghost alias: seq<Byte>)
    requires IsDir(d, first, s) && (HasRun(DirSlots(d, s), SlotsNeeded(name)) || Ready(d.Table(), Hint(d.hint), 1))
    requires IsName(name) && attr != ATTR_LFN
    modifies d`disk, d`dirty, d`cacheSector, d`hint, d.buf
    ensures d.Valid() && (old(d.OnDisk()) ==> d.OnDisk())
    ensures ok <==> HasRoom(old(DirSlots(d, s)), old(d.Table()), SlotsNeeded(name), PerCluster(d.spc))
    ensures !ok ==> g == s && Untouched(old(d.Table()), d.Table(), old(d.disk), d.disk, AreaOf(d), d.fatStart, s)
    ensures ok ==> EntryOf(added, name, alias, attr, cluster)
    ensures ok ==> Entered(old(d.Table()), d.Table(), old(d.disk), d.disk, AreaOf(d), d.fatStart, s, g, added)
    ensures Fits83(name) ==> alias == Format83(name)
    ensures !Fits83(name) && |Used(old(DirSlots(d, s)), 0)| < MAX_ALIAS ==> alias !in Used(old(DirSlots(d, s)), 0)
  {
    hide IsChain, TableOf, Slots, HasRoom, Roomier, Entered, EntryOf, Fits83, Format83, AliasOf, Used, Ready,
      Located, PlaceFor, Placed, SlotsNeeded, Looked, Untouched, HasRun;
    ghost var t, disk, slots, a, clean := d.Table(), d.disk, DirSlots(d, s), AreaOf(d), d.OnDisk();
    var entry;
    entry, alias := MakeEntry(d, first, name, attr, cluster, s);
    LookedUntouched(d, s, t, disk, clean);
    added := entry;
    ghost var m0 := d.disk;
    UntouchedSlots(t, t, disk, m0, a, d.fatStart, s);
    var locs;
    locs, g := Reserve(d, first, |entry|, s);
    ok := locs.Some?;
    if ok {
      ghost var m, t' := d.disk, d.Table();
      RoomTaken(t, t', disk, m0, m, a, d.fatStart, s, g, |entry|);
      PlaceSlots(d, locs.value, entry, g, PlaceFor(slots, |entry|));
      RoomThenPlaced(t, t', disk, m, d.disk, a, d.fatStart, s, g, added);
    } else {
      UntouchedOn(t, t, d.Table(), disk, m0, d.disk, a, d.fatStart, s);
    }
  }

  /** fat32_add_entry on its own, as for the entries "." and ".." of a new directory. */
  method AddShort(d: Driver, first: nat, alias: seq<Byte>, attr: Byte, cluster: Word32, ghost s: seq<nat>)
    returns (ok: bool, ghost g: seq<nat>, ghost x: Slot)
    requires IsDir(d, first, s) && (HasRun(DirSlots(d, s), 1) || Ready(d.Table(), Hint(d.hint), 1)) && |alias| == 11
    modifies d`disk, d`dirty, d`cacheSector, d`hint, d.buf
    ensures d.Valid() && (old(d.OnDisk()) ==> d.OnDisk()) && HoldsShort(x, alias, attr, cluster)
    ensures ok <==> HasRoom(old(DirSlots(d, s)), old(d.Table()), 1, PerCluster(d.spc))
    ensures !ok ==> g == s && Untouched(old(d.Table()), d.Table(), old(d.disk), d.disk, AreaOf(d), d.fatStart, s)
    ensures ok ==> Entered(old(d.Table()), d.Table(), old(d.disk), d.disk, AreaOf(d), d.fatStart, s, g, [x])
  {
    hide IsChain, TableOf, Slots, HasRoom, Roomier, Entered, Ready, Located, PlaceFor, Placed, Untouched, HoldsShort,
      HasRun;
    ghost var t, disk, slots, a := d.Table(), d.disk, DirSlots(d, s), AreaOf(d);
    var slot := WriteShort(alias, attr, cluster);
    x := slot;
    var locs;
    locs, g := Reserve(d, first, 1, s);
    ok := locs.Some?;
    if ok {
      ghost var m, t' := d.disk, d.Table();
      RoomTaken(t, t', disk, disk, m, a, d.fatStart, s, g, 1);
      PlaceSlots(d, locs.value, [slot], g, PlaceFor(slots, 1));
      RoomThenPlaced(t, t', disk, m, d.disk, a, d.fatStart, s, g, [x]);
    }
  }

  lemma UntouchedSlots(t: Fat, t': Fat, d: Disk, d': Disk, a: Area, lo: nat, s: seq<nat>)
    requires Untouched(t, t', d, d', a, lo, s)
    ensures Slots(d', a, s) == Slots(d, a, s)
  {
  }

  lemma UntouchedOn(t: Fat, m: Fat, t': Fat, d: Disk, n: Disk, d': Disk, a: Area, lo: nat, s: seq<nat>)
    requires Untouched(t, m, d, n, a, lo, s) && Untouched(m, t', n, d', a, lo, s)
    ensures Untouched(t, t', d, d', a, lo, s)
  {
    hide Slots, OfChain;
  }
}
