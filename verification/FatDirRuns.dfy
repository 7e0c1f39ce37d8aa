/** What creating and removing entries means for the volume: its chains, the other files, and what
    lookup finds afterwards (src/fs/fat32.c:470-527, 939-987, 1068-1137). */
module FatDirRuns {
  import opened Wrappers
  import opened Words
  import opened FatTable
  import opened FatChains
  import opened FatDriver
  import opened FatBytes
  import opened FatRead
  import opened FatGrow
  import opened Lfn
  import opened LfnNames
  import opened FatDirectory
  import opened FatCreate
  import opened FatSlots
  import opened FatAdd
  import opened FatOthers
  import opened FatScan
  import opened FatEntries
  import opened FatVolume
  import opened FatDirOps
  import opened FatFile
  import C = FatContents

  // ----- chains -----

  /** Create and mkdir are two steps of the volume: a new chain, and the growth of the directory. */
  lemma MadeVolume(t: Fat, t': Fat, d: Disk, d': Disk, a: Area, lo: nat, chains: seq<seq<nat>>, i: nat, g: seq<nat>,
      c: nat, added: seq<Slot>)
    requires Volume(t, chains) && i < |chains| && Made(t, t', d, d', a, lo, chains[i], g, c, added)
    ensures Does(t, t[c := WithNext(t[c], EOC)], chains, New(c))
    ensures Does(t[c := WithNext(t[c], EOC)], t', chains + [[c]], Grow(i, g))
    ensures Volume(t', (chains + [[c]])[i := g])
    ensures |FreeFrom(t', 2)| == |FreeFrom(t, 2)| - 1 - (|g| - |chains[i]|)
  {
    hide Volume, IsChain, InRange, Grown, FreeFrom, Slots, Added, HasRun, WithNext, Next;
    var m := t[c := WithNext(t[c], EOC)];
    StepKept(t, m, chains, New(c));
    StepKept(m, t', chains + [[c]], Grow(i, g));
  }

  /** Every other chain keeps its place and its bytes. */
  lemma MadeOthers(t: Fat, t': Fat, d: Disk, d': Disk, a: Area, lo: nat, s: seq<nat>, g: seq<nat>, c: nat,
      added: seq<Slot>, o: seq<nat>)
    requires InRange(t) && |t| <= EOC && lo <= a.data && Made(t, t', d, d', a, lo, s, g, c, added)
    requires IsChain(t, s) && IsChain(t, o) && Clusters(o) && Disjoint(s, o)
    ensures IsChain(t', o) && Disjoint(g, o) && Disjoint([c], o) && Bytes(d', a, o) == Bytes(d, a, o)
  {
    hide IsChain, InRange, Grown, Slots, Added, HasRun, WithNext, Next, OfChain, Bytes;
    NewChain(t, o, c);
    NewChain(t, s, c);
    C.OtherChain(t[c := WithNext(t[c], EOC)], t', s, g, o);
    forall l: nat | OfChain(a, o, l) ensures d'[l] == d[l] {
      ApartFrom(a, g, o, l);
      ApartFrom(a, [c], o, l);
    }
    SameBytes(d, d', a, o);
  }

  /** Unlink is one step: the chain of the file is removed. */
  lemma UnlinkedVolume(t: Fat, t': Fat, d: Disk, d': Disk, a: Area, lo: nat, s: seq<nat>, p: nat,
      chains: seq<seq<nat>>, i: nat)
    requires Volume(t, chains) && i < |chains| && Unlinked(t, t', d, d', a, lo, s, p)
    requires chains[i] != [] && FirstCluster(Slots(d, a, s)[p]) == chains[i][0]
    ensures Does(t, t', chains, Remove(i)) && Volume(t', chains[..i] + chains[i + 1..])
    ensures |FreeFrom(t', 2)| == |FreeFrom(t, 2)| + |chains[i]|
  {
    VolumeHas(t, chains, i);
    UnlinkedTable(t, t', d, d', a, lo, s, p, chains[i][0]);
    hide Volume, IsChain, InRange, FreedFrom, FreeFrom, Slots, FirstCluster, Unlinked;
    StepKept(t, t', chains, Remove(i));
  }

  lemma UnlinkedTable(t: Fat, t': Fat, d: Disk, d': Disk, a: Area, lo: nat, s: seq<nat>, p: nat, first: nat)
    requires Unlinked(t, t', d, d', a, lo, s, p) && FirstCluster(Slots(d, a, s)[p]) == first && 2 <= first < |t|
    ensures InRange(t) && |t| <= EOC && FreedFrom(t, t', first)
  {
    hide InRange, FreedFrom, Slots, FirstCluster;
  }

  lemma VolumeHas(t: Fat, chains: seq<seq<nat>>, i: nat)
    requires Volume(t, chains) && i < |chains|
    ensures InRange(t) && |t| <= EOC && IsChain(t, chains[i]) && |chains[i]| >= 1 && 2 <= chains[i][0] < |t|
  {
    hide InRange, Apart, Tight;
  }

  /** Every other file keeps its chain and its bytes. */
  lemma UnlinkedOthers(t: Fat, t': Fat, d: Disk, d': Disk, a: Area, lo: nat, s: seq<nat>, p: nat, f: seq<nat>,
      o: seq<nat>)
    requires InRange(t) && |t| <= EOC && Unlinked(t, t', d, d', a, lo, s, p)
    requires IsChain(t, f) && FirstCluster(Slots(d, a, s)[p]) == f[0]
    requires IsChain(t, o) && Clusters(o) && Disjoint(f, o)
    ensures IsChain(t', o) && (Disjoint(s, o) ==> Bytes(d', a, o) == Bytes(d, a, o))
  {
    LinkOf(t, f, 0);
    hide IsChain, InRange, FreedFrom, Slots, FirstCluster, OfChain, Bytes;
    OthersKeptByFreeing(t, t', f, o);
    if Disjoint(s, o) {
      forall l: nat | OfChain(a, o, l) ensures d'[l] == d[l] {
        ApartFrom(a, s, o, l);
      }
      SameBytes(d, d', a, o);
    }
  }

  // ----- names -----

  /** Where the entry is put in the directory. */
  lemma MadeFound(t: Fat, t': Fat, d: Disk, d': Disk, a: Area, lo: nat, s: seq<nat>, g: seq<nat>, c: nat,
      added: seq<Slot>, name: seq<Byte>, alias: seq<Byte>, attr: Byte)
    requires MadeEntry(t, t', d, d', a, lo, s, g, c, added, name, alias, attr) && SevenBit(name)
    requires Searched(Slots(d, a, s), name) == None
    ensures a.spc >= 1 && Clusters(s) && Clusters(g)
    ensures var slots, slots' := Slots(d, a, s), Slots(d', a, g);
            var last := PlaceFor(slots, SlotsNeeded(name)) + SlotsNeeded(name) - 1;
            && 0 <= last < |slots'| && FirstCluster(slots'[last]) == c && Load32(slots'[last], 28) == 0
            && slots'[last][11] == attr
            && Searched(slots', name) == if WillBeFound(slots, name) then Some(last) else None
  {
    hide Slots, EntryFor, EntryOf, Added, Grown, IsChain, HasRun, Find, Searched, PlaceFor, SlotsNeeded, WillBeFound,
      FirstCluster;
    SevenBitEntry(added, name, alias, attr, c);
    CreatedFound(Slots(d, a, s), Slots(d', a, g), added, PerCluster(a.spc), name, alias, attr, c);
  }

  /** Creating a file and looking it up: lookup returns the new, empty file exactly when the directory
      and the name were such that it would be found. */
  method CreateThenLookup(d: Driver, first: nat, name: seq<Byte>, ghost s: seq<nat>)
    returns (r: int, node: Option<Node>, ghost c: nat)
    requires IsDir(d, first, s) && InRange(d.Table()) && IsName(name)
    requires Ready(d.Table(), Hint(d.hint), ClustersNeeded(DirSlots(d, s), SlotsNeeded(name)))
    modifies d`disk, d`dirty, d`cacheSector, d`hint, d.buf
    ensures d.Valid() && r == if CanMake(old(DirSlots(d, s)), old(d.Table()), name, PerCluster(d.spc)) then 0 else -1
    ensures r == 0 ==> IsChain(d.Table(), [c]) && d.OnDisk()
    ensures r == 0 && SevenBit(name) ==> (node.Some? <==> WillBeFound(old(DirSlots(d, s)), name))
    ensures r == 0 && SevenBit(name) && node.Some? ==>
              node.value.ino == c && node.value.size == 0 && !node.value.isDir
  {
    hide IsChain, TableOf, Slots, Ready, InRange, CanMake, NotMade, MadeEntry, HasRun, SlotsNeeded, Empty, Looked,
      Searched, NodeAt, WillBeFound, PlaceFor, FirstCluster;
    ghost var t, disk, a, slots := d.Table(), d.disk, AreaOf(d), DirSlots(d, s);
    ghost var g, added, alias, x;
    ChainStarts(t, s);
    r, g, c, added, alias, x := Create(d, first, name, s);
    node := None;
    if r == 0 {
      ghost var m, t' := d.disk, d.Table();
      CanMakeNew(slots, t, name, PerCluster(d.spc));
      if SevenBit(name) {
        MadeFound(t, t', disk, m, a, d.fatStart, s, g, c, added, name, alias, ATTR_ARCHIVE);
      }
      MadeChains(t, t', disk, m, a, d.fatStart, s, g, c, added, name, alias, ATTR_ARCHIVE);
      node := Lookup(d, first, name, g);
      LookedUntouched(d, g, t', m, true);
      if node.Some? {
        NodeIs(node.value, a, g, Slots(m, a, g), Searched(Slots(m, a, g), name).value);
      }
    }
  }

  lemma CanMakeNew(slots: seq<Slot>, t: Fat, name: seq<Byte>, perCluster: nat)
    requires CanMake(slots, t, name, perCluster)
    ensures Searched(slots, name) == None
  {
  }

  lemma MadeChains(t: Fat, t': Fat, d: Disk, d': Disk, a: Area, lo: nat, s: seq<nat>, g: seq<nat>, c: nat,
      added: seq<Slot>, name: seq<Byte>, alias: seq<Byte>, attr: Byte)
    requires MadeEntry(t, t', d, d', a, lo, s, g, c, added, name, alias, attr) && |s| >= 1
    ensures IsChain(t', g) && IsChain(t', [c]) && Clusters(g) && |g| >= 1 && g[0] == s[0]
  {
    assert g[..|s|] == s;
  }

  lemma NodeIs(node: Node, a: Area, s: seq<nat>, slots: seq<Slot>, i: nat)
    requires a.spc >= 1 && Clusters(s) && |slots| == |s| * a.spc * 16 && i < |slots| && NodeAt(node, a, s, slots, i)
    ensures node.ino == FirstCluster(slots[i]) && node.size == Load32(slots[i], 28)
    ensures node.isDir <==> slots[i][11] / ATTR_DIRECTORY % 2 == 1
  {
  }

  /** A create without growth, then the unlink of that entry, leave the table as it was, and free all
      slots but those of the long name. */
  lemma MadeThenUnlinked(t: Fat, t': Fat, t'': Fat, d: Disk, d': Disk, d'': Disk, a: Area, lo: nat, s: seq<nat>,
      c: nat, added: seq<Slot>, name: seq<Byte>, alias: seq<Byte>, attr: Byte, p: nat)
    requires InRange(t) && |t| <= EOC && MadeEntry(t, t', d, d', a, lo, s, s, c, added, name, alias, attr)
    requires SevenBit(name)
    requires Searched(Slots(d, a, s), name) == None && HasRun(Slots(d, a, s), |added|)
    requires Searched(Slots(d', a, s), name) == Some(p) && Unlinked(t', t'', d', d'', a, lo, s, p)
    ensures t'' == t
    ensures var at := PlaceFor(Slots(d, a, s), |added|);
            p == at + |added| - 1
            && Slots(d'', a, s) == Removed(Placed(Slots(d, a, s), at, added), p)
  {
    hide Slots, EntryFor, EntryOf, Added, Grown, IsChain, HasRun, Find, Searched, PlaceFor, WillBeFound, FirstCluster,
      SlotsNeeded, InRange;
    MadeFound(t, t', d, d', a, lo, s, s, c, added, name, alias, attr);
    NeededIs(added, name, alias, attr, c);
    WithoutGrowth(Slots(d, a, s), Slots(d', a, s), added, PerCluster(a.spc));
    GivenBack(t, t'', c);
  }

  lemma WithoutGrowth(slots: seq<Slot>, slots': seq<Slot>, added: seq<Slot>, perCluster: nat)
    requires Added(slots, slots', added, perCluster) && HasRun(slots, |added|)
    ensures PlaceFor(slots, |added|) + |added| <= |slots| && slots' == Placed(slots, PlaceFor(slots, |added|), added)
  {
    hide HasRun, PlaceFor;
    PlaceInRoom(slots, |added|, perCluster);
  }

  /** The new file is one that can be written to: its chain holds its size 0 with zeros behind, and
      its entry, where lookup finds it, lies apart from it. */
  lemma CreatedWritable(t: Fat, t': Fat, d: Disk, d': Disk, a: Area, lo: nat, s: seq<nat>, g: seq<nat>, c: nat,
      added: seq<Slot>, name: seq<Byte>, alias: seq<Byte>, attr: Byte, node: Node, i: nat) returns (dc: nat)
    requires MadeEntry(t, t', d, d', a, lo, s, g, c, added, name, alias, attr) && Empty(d', a, c) && |t'| == |t| <= EOC
    requires i < |Slots(d', a, g)| && NodeAt(node, a, g, Slots(d', a, g), i)
    ensures Holds(t', a, [c], c, 0) && C.ZeroTail(d', a, [c], 0) && EntryApart(t', a, [c], node.info, dc)
  {
    hide Slots, Bytes, EntryOf, Added, Grown, HasRun, InCluster, FirstCluster;
    var q := i / 16;
    SectorOfIn(a, g, q);
    dc := g[Seat(a.spc, q)];
    InUse(t', g, Seat(a.spc, q));
    assert forall p :: 0 <= p < |[c]| * a.spc * 512 ==> Bytes(d', a, [c])[p] == 0;
  }

  lemma InUse(t: Fat, s: seq<nat>, k: nat)
    requires IsChain(t, s) && k < |s|
    ensures 2 <= s[k] < |t| && Next(t[s[k]]) != 0
  {
    if k + 1 < |s| {
      LinkOf(t, s, k + 1);
    }
    LinkOf(t, s, k);
  }
}
