/** What adding and removing an entry means for the other names of a directory
    (src/fs/fat32.c:470-527, 854-966, 1079-1137). */
module FatOthers {
  import opened Wrappers
  import opened Words
  import opened Lfn
  import opened LfnNames
  import opened FatNames
  import opened FatDirectory
  import opened FatCreate
  import opened FatAdd

  // ----- searches side by side -----

  /** In two directories that agree before place p, a search finds the same entry there, or goes on at p. */
  lemma {:induction false} FrontOrBack(slots: seq<Slot>, slots': seq<Slot>, i: nat, p: nat, name: seq<Byte>)
    requires i <= p <= |slots| && p <= |slots'| && slots'[..p] == slots[..p] && NoZeroBefore(slots, p)
    ensures var l, r := Find(slots, i, Ahead(slots, i, Blank()), name), Find(slots', i, Ahead(slots, i, Blank()), name);
            var l', r' := Find(slots, p, Ahead(slots, p, Blank()), name),
                Find(slots', p, Ahead(slots, p, Blank()), name);
            (l == r && l.Some? && l.value < p) || (l == l' && r == r')
    decreases p - i
  {
    hide Hit, Passed;
    if i < p {
      FrontOrBack(slots, slots', i + 1, p, name);
      assert slots'[i] == slots'[..p][i] == slots[..p][i] == slots[i];
    }
  }

  /** Directories that agree from place i on find the same from there. */
  lemma {:induction false} SameFromHere(slots: seq<Slot>, slots': seq<Slot>, i: nat, a: State, b: State,
      name: seq<Byte>)
    requires i <= |slots| && |slots'| == |slots| && (forall j :: i <= j < |slots| ==> slots'[j] == slots[j])
    requires Alike(a, b)
    ensures Find(slots', i, b, name) == Find(slots, i, a, name)
    decreases |slots| - i
  {
    hide Fed;
    if i < |slots| && slots[i][0] != 0 {
      FedAlike(a, b, slots[i]);
      SameFromHere(slots, slots', i + 1, Passed(a, slots[i]), Passed(b, slots[i]), name);
    }
  }

  /** Among free slots nothing is found. */
  lemma {:induction false} NoneAmongFree(slots: seq<Slot>, i: nat, st: State, name: seq<Byte>)
    requires i <= |slots| && Usable(st) && forall j :: i <= j < |slots| ==> Free(slots[j])
    ensures Find(slots, i, st, name) == None
    decreases |slots| - i
  {
    hide Fed;
    if i < |slots| && slots[i][0] != 0 {
      NoneAmongFree(slots, i + 1, Passed(st, slots[i]), name);
    }
  }

  /** A search passes deleted slots; behind one, no long name is in progress. */
  lemma {:induction false} PastDeleted(slots: seq<Slot>, p: nat, e: nat, st: State, name: seq<Byte>)
    requires p < e <= |slots| && Usable(st) && forall j :: p <= j < e ==> slots[j][0] == DELETED
    ensures Usable(Reset(st)) && Find(slots, p, st, name) == Find(slots, e, Reset(st), name)
    decreases e - p
  {
    hide Fed;
    if p + 1 < e {
      PastDeleted(slots, p + 1, e, Reset(st), name);
    }
  }

  // ----- an entry more -----

  /** The new entry is not taken for the one of another name. */
  ghost predicate NotTakenFor(added: seq<Slot>, st: State, name: seq<Byte>)
    requires |added| >= 1 && Usable(st)
  {
    !Hit(FedAll(st, added[..|added| - 1]), added[|added| - 1], name)
  }

  lemma {:induction false} PastPieces(slots: seq<Slot>, p: nat, added: seq<Slot>, k: nat, st: State, name: seq<Byte>)
    requires p + |added| <= |slots| && slots[p..p + |added|] == added && k < |added| && Usable(st)
    requires forall i: nat :: i < |added| - 1 ==> added[i][0] != DELETED && added[i][0] != 0 && added[i][11] == ATTR_LFN
    ensures Find(slots, p, st, name) == Find(slots, p + k, FedAll(st, added[..k]), name)
  {
    hide Fed, Matches;
    if k > 0 {
      PastPieces(slots, p, added, k - 1, st, name);
      assert added[..k][..k - 1] == added[..k - 1];
      assert slots[p + k - 1] == slots[p..p + |added|][k - 1] == added[k - 1];
    } else {
      assert added[..0] == [];
    }
  }

  /** A search for another name passes the new entry; behind it no long name is in progress. */
  lemma PastEntry(slots: seq<Slot>, p: nat, added: seq<Slot>, st: State, name: seq<Byte>) returns (after: State)
    requires 1 <= |added| && p + |added| <= |slots| && slots[p..p + |added|] == added && Usable(st)
    requires forall i: nat :: i < |added| - 1 ==> added[i][0] != DELETED && added[i][0] != 0 && added[i][11] == ATTR_LFN
    requires LiveShort(added[|added| - 1]) && NotTakenFor(added, st, name)
    ensures Usable(after) && !after.inProgress
    ensures Find(slots, p, st, name) == Find(slots, p + |added|, after, name)
  {
    hide Matches, FedAll;
    var k := |added| - 1;
    PastPieces(slots, p, added, k, st, name);
    assert slots[p + k] == slots[p..p + |added|][k] == added[k];
    after := Passed(FedAll(st, added[..k]), added[k]);
  }

  /** In a packed directory a create keeps what lookup finds under every name that the new entry is
      not taken for: no entry gets lost, none appears. */
  lemma CreatedOthers(slots: seq<Slot>, slots': seq<Slot>, added: seq<Slot>, perCluster: nat, name: seq<Byte>,
      alias: seq<Byte>, attr: Byte, cluster: nat, other: seq<Byte>)
    requires EntryFor(added, name, alias, attr, cluster) && Added(slots, slots', added, perCluster) && Packed(slots)
    requires |added| >= 1 && NotTakenFor(added, Ahead(slots, PlaceFor(slots, |added|), Blank()), other)
    ensures Searched(slots', other) == Searched(slots, other)
  {
    hide Find, EntryFor, Added, PlaceFor, NotTakenFor, Ahead, LiveShort;
    var p := PlaceFor(slots, |added|);
    AddedParts(slots, slots', added, perCluster);
    AddedBehind(slots, slots', added, perCluster);
    if NoZeroBefore(slots, p) {
      EntryThere(added, name, alias, attr, cluster);
      PieceShape(added, name, alias, attr, cluster, |added| - 1);
      OthersFromHere(slots, slots', p, added, Ahead(slots, p, Blank()), other);
      FrontOrBack(slots, slots', 0, p, other);
      AheadStarts(slots);
    } else {
      var z := FirstZero(slots, p);
      assert slots'[..z] == slots'[..p][..z] == slots[..p][..z] == slots[..z];
      assert slots'[z] == slots'[..p][z] == slots[..p][z] == slots[z];
      FindStops(slots, z, Ahead(slots, z, Blank()), other);
      FindStops(slots', z, Ahead(slots, z, Blank()), other);
      FrontOrBack(slots, slots', 0, z, other);
      AheadStarts(slots);
    }
  }

  /** A new long name is taken for a name that has the alias as its 8.3 form, and for itself. An 8.3
      name is taken for those of the same form, and for a long name that is spelled by pieces left
      in front of its slot. */
  lemma TakenExactly(added: seq<Slot>, name: seq<Byte>, alias: seq<Byte>, attr: Byte, cluster: nat, st: State,
      other: seq<Byte>)
    requires EntryFor(added, name, alias, attr, cluster) && Usable(st) && |added| >= 1
    ensures NotTakenFor(added, st, other) <==>
              && Format83(other) != alias
              && if Fits83(name) then Fed(st, added[0]).1 != Some(other) else other != name
    ensures Fits83(name) && !st.inProgress ==> (NotTakenFor(added, st, other) <==> Format83(other) != Format83(name))
  {
    hide EntryFor, Format83, Fits83, Fed, FedAll, NotTakenFor;
    if Fits83(name) {
      TakenShort(added, name, alias, attr, cluster, st, other);
    } else {
      TakenLong(added, name, alias, attr, cluster, st, other);
    }
  }

  lemma TakenLong(added: seq<Slot>, name: seq<Byte>, alias: seq<Byte>, attr: Byte, cluster: nat, st: State,
      other: seq<Byte>)
    requires EntryFor(added, name, alias, attr, cluster) && Usable(st) && |added| >= 1 && !Fits83(name)
    ensures NotTakenFor(added, st, other) <==> Format83(other) != alias && other != name
  {
    PieceShape(added, name, alias, attr, cluster, |added| - 1);
    hide Format83, Fits83, HoldsPiece, Fed, FedAll;
    NameReadBack(st, added, name, alias, attr, cluster);
  }

  lemma TakenShort(added: seq<Slot>, name: seq<Byte>, alias: seq<Byte>, attr: Byte, cluster: nat, st: State,
      other: seq<Byte>)
    requires EntryFor(added, name, alias, attr, cluster) && Usable(st) && |added| >= 1 && Fits83(name)
    ensures NotTakenFor(added, st, other) <==> Format83(other) != alias && Fed(st, added[0]).1 != Some(other)
    ensures alias == Format83(name) && (!st.inProgress ==> Fed(st, added[0]).1 == None)
  {
    PieceShape(added, name, alias, attr, cluster, |added| - 1);
    hide Format83, Fits83, HoldsShort, Fed, FedAll;
    assert added[..0] == [];
    OneSlot(added, st);
  }

  lemma OneSlot(added: seq<Slot>, st: State)
    requires |added| == 1 && Usable(st)
    ensures FedAll(st, added[..0]) == st
    ensures LiveShort(added[0]) && !st.inProgress ==> Fed(st, added[0]).1 == None
  {
  }

  lemma AheadStarts(slots: seq<Slot>)
    ensures Ahead(slots, 0, Blank()) == Blank()
  {
  }

  /** Behind the new entry nothing changed, or the directory grew and only 0x00 slots follow. */
  ghost predicate Behind(slots: seq<Slot>, slots': seq<Slot>, e: nat) {
    if |slots'| == |slots| then forall j :: e <= j < |slots| ==> slots'[j] == slots[j]
    else forall j :: e <= j < |slots'| ==> Free(slots'[j])
  }

  lemma AddedBehind(slots: seq<Slot>, slots': seq<Slot>, added: seq<Slot>, perCluster: nat)
    requires Added(slots, slots', added, perCluster)
    ensures var p := PlaceFor(slots, |added|);
            Behind(slots, slots', p + |added|)
            && if |slots'| == |slots| then p <= |slots| && forall j :: p <= j < p + |added| && j < |slots| ==>
                Free(slots[j])
               else p == |slots|
  {
    hide HasRun, PlaceFor;
    PlaceInRoom(slots, |added|, perCluster);
    var p, room := PlaceFor(slots, |added|), Room(slots, |added|, perCluster);
    if !HasRun(slots, |added|) {
      NoRunPlace(slots, |added|);
    }
  }

  lemma OthersFromHere(slots: seq<Slot>, slots': seq<Slot>, p: nat, added: seq<Slot>, st: State, name: seq<Byte>)
    requires 1 <= |added| && p <= |slots| && p + |added| <= |slots'| && slots'[p..p + |added|] == added && Usable(st)
    requires forall i: nat :: i < |added| - 1 ==> added[i][0] != DELETED && added[i][0] != 0 && added[i][11] == ATTR_LFN
    requires LiveShort(added[|added| - 1]) && NotTakenFor(added, st, name) && Packed(slots)
    requires Behind(slots, slots', p + |added|)
    requires if |slots'| == |slots| then forall j :: p <= j < p + |added| && j < |slots| ==> Free(slots[j])
        else p == |slots|
    ensures Find(slots', p, st, name) == Find(slots, p, st, name)
  {
    hide Find, NotTakenFor, LiveShort, Passed;
    var after := PastEntry(slots', p, added, st, name);
    var e := p + |added|;
    if |slots'| != |slots| {
      NoneAmongFree(slots', e, after, name);
      NoneAmongFree(slots, p, st, name);
    } else if exists z :: p <= z < e && slots[z][0] == 0 {
      NoneAmongFree(slots', e, after, name);
      NoneAmongFree(slots, p, st, name);
    } else {
      PastDeleted(slots, p, e, st, name);
      SameFromHere(slots, slots', e, Reset(st), after, name);
    }
  }

  // ----- an entry less -----

  /** What fat32_vfs_unlink does to a directory: the short entry is marked as deleted, and only that. */
  function Removed(slots: seq<Slot>, p: nat): (r: seq<Slot>)
    requires p < |slots|
    ensures |r| == |slots|
  {
    slots[p := slots[p][0 := DELETED]]
  }

  /** At a short entry the accumulator is empty again, so that the loop of fat32_vfs_unlink over the
      slots of the long name has no turn. */
  lemma NothingToMark(st: State, s: Slot)
    requires Usable(st) && s[11] != ATTR_LFN
    ensures Fed(st, s).0 == Reset(st) && Fed(st, s).0.total == 0
  {
  }

  /** A name whose entry was removed is looked for behind it; every other name is found as before. */
  lemma RemovedOthers(slots: seq<Slot>, p: nat, name: seq<Byte>)
    requires p < |slots| && LiveShort(slots[p]) && NoZeroBefore(slots, p)
    ensures Searched(Removed(slots, p), name) ==
              if Searched(slots, name) == Some(p) then Find(slots, p + 1, Blank(), name) else Searched(slots, name)
  {
    hide Find, Hit, LiveShort;
    var slots', a := Removed(slots, p), Ahead(slots, p, Blank());
    assert slots'[..p] == slots[..p];
    SameFromHere(slots, slots', p + 1, Reset(a), Reset(a), name);
    SameFromHere(slots, slots, p + 1, Blank(), Reset(a), name);
    AheadStarts(slots);
    FrontOrBack(slots, slots', 0, p, name);
    AtRemoved(slots, p, a, name);
    BehindStart(slots, p + 1, Reset(a), name);
  }

  lemma BehindStart(slots: seq<Slot>, i: nat, st: State, name: seq<Byte>)
    requires i <= |slots| && Usable(st)
    ensures Find(slots, i, st, name) != Some(i - 1)
  {
  }

  lemma AtRemoved(slots: seq<Slot>, p: nat, st: State, name: seq<Byte>)
    requires p < |slots| && LiveShort(slots[p]) && Usable(st)
    ensures Find(Removed(slots, p), p, st, name) == Find(Removed(slots, p), p + 1, Reset(st), name)
    ensures Find(slots, p, st, name) ==
              if Hit(st, slots[p], name) then Some(p) else Find(slots, p + 1, Reset(st), name)
  {
  }

  /** A removal keeps the directory packed and its names distinct, and frees one slot: those of the
      long name stay in use. */
  lemma RemovedKeeps(slots: seq<Slot>, p: nat)
    requires p < |slots| && LiveShort(slots[p])
    ensures Packed(slots) ==> Packed(Removed(slots, p))
    ensures DistinctNames(slots) ==> DistinctNames(Removed(slots, p))
    ensures forall i: nat :: i < |slots| ==> (Free(Removed(slots, p)[i]) <==> Free(slots[i]) || i == p)
    ensures Used(slots, 0) >= Used(Removed(slots, p), 0)
  {
    hide Name83;
    UsedLess(slots, p, 0);
  }

  lemma {:induction false} UsedLess(slots: seq<Slot>, p: nat, i: nat)
    requires p < |slots| && LiveShort(slots[p]) && i <= |slots|
    ensures Used(slots, i) >= Used(Removed(slots, p), i)
    decreases |slots| - i
  {
    hide Name83;
    if i < |slots| {
      UsedLess(slots, p, i + 1);
    }
  }

  // ----- a deleted name that comes back -----

  /** Of a short entry a search looks at the eleven bytes of the name only. */
  lemma SameForSearch(st: State, s: Slot, x: Slot, name: seq<Byte>)
    requires Usable(st) && LiveShort(s) && LiveShort(x) && Name83(x) == Name83(s)
    ensures Hit(st, x, name) == Hit(st, s, name) && Passed(st, x) == Passed(st, s)
  {
  }

  /** Removing an entry and creating one whose 8.3 name is the alias of the removed one, when no slot
      in front is free: every name that led to the removed entry, its long name too, leads to the new one. */
  lemma DeletedNameReturns(slots: seq<Slot>, p: nat, slots': seq<Slot>, added: seq<Slot>, perCluster: nat,
      name: seq<Byte>, attr: Byte, cluster: nat, other: seq<Byte>)
    requires p < |slots| && LiveShort(slots[p]) && forall j: nat :: j < p ==> !Free(slots[j])
    requires Fits83(name) && Format83(name) == Name83(slots[p])
    requires EntryFor(added, name, Format83(name), attr, cluster) && Added(Removed(slots, p), slots', added, perCluster)
    ensures slots' == slots[p := added[0]] && FirstCluster(slots'[p]) == cluster
    ensures Searched(slots', other) == Searched(slots, other)
  {
    hide Find, Hit, LiveShort, Format83, Fits83;
    PieceShape(added, name, Format83(name), attr, cluster, 0);
    var gone, a := Removed(slots, p), Ahead(slots, p, Blank());
    PlaceAtFirstFree(slots, p);
    AtReplaced(slots, p, added[0], a, other);
    SameFromHere(slots, slots', p + 1, Passed(a, slots[p]), Passed(a, slots[p]), other);
    assert slots'[..p] == slots[..p];
    FrontOrBack(slots, slots', 0, p, other);
    AheadStarts(slots);
  }

  lemma PlaceAtFirstFree(slots: seq<Slot>, p: nat)
    requires p < |slots| && forall j: nat :: j < p ==> !Free(slots[j])
    ensures HasRun(Removed(slots, p), 1) && PlaceFor(Removed(slots, p), 1) == p
  {
    FirstSlot(Removed(slots, p), p);
  }

  lemma AtReplaced(slots: seq<Slot>, p: nat, x: Slot, st: State, name: seq<Byte>)
    requires p < |slots| && LiveShort(slots[p]) && LiveShort(x) && Name83(x) == Name83(slots[p]) && Usable(st)
    ensures Passed(st, x) == Passed(st, slots[p])
    ensures Find(slots, p, st, name) ==
            if Hit(st, slots[p], name) then Some(p) else Find(slots, p + 1, Passed(st, x), name)
    ensures Find(slots[p := x], p, st, name) ==
              if Hit(st, slots[p], name) then Some(p) else Find(slots[p := x], p + 1, Passed(st, x), name)
  {
    SameForSearch(st, slots[p], x, name);
    hide Hit, Passed;
  }
}
