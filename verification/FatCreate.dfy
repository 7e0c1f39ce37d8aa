/** Adding an entry to a directory, and finding it again
    (src/fs/fat32.c:687-757, 766-937, 939-966). */
module FatCreate {
  import opened Wrappers
  import opened Words
  import opened Lfn
  import opened LfnNames
  import opened ShortNames
  import opened FatNames
  import opened FatDirectory

  // ----- the state of a directory -----

  function ZeroSlot(): Slot {
    seq(32, _ => 0)
  }

  function ZeroSlots(k: nat): (z: seq<Slot>)
    ensures |z| == k
  {
    seq(k, _ => ZeroSlot())
  }

  /** No used slot follows a slot that starts with 0x00. */
  ghost predicate Packed(slots: seq<Slot>) {
    forall i, j :: 0 <= i < j < |slots| && slots[i][0] == 0 ==> Free(slots[j])
  }

  predicate LiveShort(s: Slot) {
    !Free(s) && s[11] != ATTR_LFN
  }

  /** The short names of a directory differ. */
  ghost predicate DistinctNames(slots: seq<Slot>) {
    forall i, j :: 0 <= i < j < |slots| && LiveShort(slots[i]) && LiveShort(slots[j]) ==>
        Name83(slots[i]) != Name83(slots[j])
  }

  ghost predicate NoZeroBefore(slots: seq<Slot>, p: nat) {
    forall i: nat :: i < p && i < |slots| ==> slots[i][0] != 0
  }

  /** added in place of the slots from p on. */
  function Placed(slots: seq<Slot>, p: nat, added: seq<Slot>): (r: seq<Slot>)
    requires p + |added| <= |slots|
    ensures |r| == |slots|
  {
    slots[..p] + added + slots[p + |added|..]
  }

  ghost predicate FreeRun(slots: seq<Slot>, p: nat, k: nat) {
    p + k <= |slots| && forall i :: p <= i < p + k ==> Free(slots[i])
  }

  // ----- an entry made is an entry found -----

  ghost predicate IsAlias(name: seq<Byte>, alias: seq<Byte>) {
    exists num: nat :: |Digits(num)| <= 6 && alias == AliasOf(name, num)
  }

  /** The slots written for a name: a short entry alone, or the pieces in front of one. */
  ghost predicate EntryOf(added: seq<Slot>, name: seq<Byte>, alias: seq<Byte>, attr: Byte, cluster: nat) {
    && 0 < |added| && |alias| == 11 && attr != ATTR_LFN && IsName(name)
    && if Fits83(name) then |added| == 1 && alias == Format83(name) && HoldsShort(added[0], alias, attr, cluster)
       else SlotsOf(added, name, alias, attr, cluster) && IsAlias(name, alias)
  }

  ghost predicate SevenBit(name: seq<Byte>) {
    IsName(name) && forall i :: 0 <= i < |name| ==> name[i] < 0x80
  }

  /** Those of a name of bytes below 0x80 can be found again. */
  lemma SevenBitEntry(added: seq<Slot>, name: seq<Byte>, alias: seq<Byte>, attr: Byte, cluster: nat)
    requires EntryOf(added, name, alias, attr, cluster) && SevenBit(name)
    ensures EntryFor(added, name, alias, attr, cluster)
  {
    hide Fits83, AliasOf, Format83, Digits, SlotsOf, HoldsShort;
    if Fits83(name) {
      FitsNotFree(name);
    } else {
      var num: nat :| |Digits(num)| <= 6 && alias == AliasOf(name, num);
      AliasNotFree(name, num);
    }
  }

  /** The slots of such a name. */
  ghost predicate EntryFor(added: seq<Slot>, name: seq<Byte>, alias: seq<Byte>, attr: Byte, cluster: nat) {
    && 0 < |added| && |alias| == 11 && 0 < alias[0] < 0x80 && attr != ATTR_LFN
    && IsName(name) && (forall i :: 0 <= i < |name| ==> name[i] < 0x80)
    && if Fits83(name) then |added| == 1 && alias == Format83(name) && HoldsShort(added[0], alias, attr, cluster)
       else SlotsOf(added, name, alias, attr, cluster)
  }

  lemma PieceShape(added: seq<Slot>, name: seq<Byte>, alias: seq<Byte>, attr: Byte, cluster: nat, i: nat)
    requires EntryFor(added, name, alias, attr, cluster) && i < |added|
    ensures !Free(added[i]) && added[i][0] < 0x80
    ensures i < |added| - 1 ==> added[i][11] == ATTR_LFN
    ensures i == |added| - 1 ==> HoldsShort(added[i], alias, attr, cluster) && LiveShort(added[i])
    ensures i == |added| - 1 ==> Name83(added[i]) == alias
  {
    hide Char16, Unit16, Format83, Fits83;
    if i == |added| - 1 {
      assert added[i][0] == added[i][..11][0];
    } else {
      assert HoldsPiece(added[i], name, ChunkCount(name) - i, ChecksumOf(alias));
    }
  }

  lemma {:induction false} AheadFed(slots: seq<Slot>, p: nat, added: seq<Slot>, k: nat, st: State)
    requires p + |added| <= |slots| && k <= |added| && Usable(st) && slots[p..p + |added|] == added
    requires forall i: nat :: i < k ==> added[i][0] != DELETED
    ensures Ahead(slots, p + k, st) == FedAll(Ahead(slots, p, st), added[..k])
  {
    hide Fed;
    if k > 0 {
      AheadFed(slots, p, added, k - 1, st);
      assert added[..k][..k - 1] == added[..k - 1];
      assert slots[p + k - 1] == slots[p..p + |added|][k - 1] == added[k - 1];
    } else {
      assert added[..0] == [];
    }
  }

  lemma EntryThere(added: seq<Slot>, name: seq<Byte>, alias: seq<Byte>, attr: Byte, cluster: nat)
    requires EntryFor(added, name, alias, attr, cluster)
    ensures |added| >= 1 && added[|added| - 1][0] != 0
    ensures forall i: nat :: i < |added| - 1 ==> added[i][0] != DELETED && added[i][0] != 0 && added[i][11] == ATTR_LFN
  {
    hide EntryFor;
    EntryNonEmpty(added, name, alias, attr, cluster);
    PieceShape(added, name, alias, attr, cluster, |added| - 1);
    forall i: nat | i < |added| - 1 ensures added[i][0] != DELETED && added[i][0] != 0 && added[i][11] == ATTR_LFN {
      PieceShape(added, name, alias, attr, cluster, i);
    }
  }

  lemma EntryNonEmpty(added: seq<Slot>, name: seq<Byte>, alias: seq<Byte>, attr: Byte, cluster: nat)
    requires EntryFor(added, name, alias, attr, cluster)
    ensures |added| >= 1
  {
  }

  /** Slots that did not change and were no hits are none now. */
  lemma PrefixNoHit(slots: seq<Slot>, slots': seq<Slot>, p: nat, st: State, name: seq<Byte>)
    requires p <= |slots| && p <= |slots'| && slots'[..p] == slots[..p] && Usable(st) && NoHit(slots, p, st, name)
    ensures NoHit(slots', p, st, name) && Ahead(slots', p, st) == Ahead(slots, p, st)
  {
    hide Hit;
    forall i: nat | i < p ensures slots'[i][0] != 0 && !Hit(Ahead(slots', i, st), slots'[i], name) {
      assert slots'[i] == slots'[..p][i] == slots[..p][i] == slots[i];
      assert slots'[..i] == slots'[..p][..i] == slots[..p][..i] == slots[..i];
      SameAhead(slots, slots', i, st);
    }
    SameAhead(slots, slots', p, st);
  }

  lemma PiecesNoHit(slots: seq<Slot>, p: nat, added: seq<Slot>, st: State, name: seq<Byte>)
    requires 1 <= |added| && p + |added| <= |slots| && slots[p..p + |added|] == added && Usable(st)
    requires NoHit(slots, p, st, name)
    requires forall i: nat :: i < |added| - 1 ==> added[i][0] != DELETED && added[i][0] != 0 && added[i][11] == ATTR_LFN
    ensures NoHit(slots, p + |added| - 1, st, name)
  {
    hide Hit;
    forall i: nat | p <= i < p + |added| - 1 ensures slots[i][0] != 0 && !Hit(Ahead(slots, i, st), slots[i], name) {
      assert slots[i] == slots[p..p + |added|][i - p];
      NoHitOnPiece(Ahead(slots, i, st), slots[i], name);
    }
  }

  /** A new entry is the first hit, when no slot in front of it starts with 0x00. */
  lemma FoundAt(slots: seq<Slot>, slots': seq<Slot>, p: nat, added: seq<Slot>, st: State,
      name: seq<Byte>, alias: seq<Byte>, attr: Byte, cluster: nat)
    requires EntryFor(added, name, alias, attr, cluster) && Usable(st)
    requires p <= |slots| && p + |added| <= |slots'| && slots'[..p] == slots[..p] && slots'[p..p + |added|] == added
    requires Find(slots, 0, st, name) == None && NoZeroBefore(slots, p)
    ensures Find(slots', 0, st, name) == Some(p + |added| - 1)
  {
    hide Find, Hit, EntryFor, Fed, NoHit, Ahead, FedAll;
    EntryThere(added, name, alias, attr, cluster);
    NothingBefore(slots, p, st, name);
    PrefixNoHit(slots, slots', p, st, name);
    PiecesNoHit(slots', p, added, st, name);
    var last: nat := p + |added| - 1;
    FindAfter(slots', last, st, name);
    assert slots'[last] == slots'[p..p + |added|][|added| - 1];
    var short := added[|added| - 1];
    AheadFed(slots', p, added, |added| - 1, st);
    HitAtShort(Ahead(slots', p, st), added, name, alias, attr, cluster);
    assert Hit(Ahead(slots', last, st), short, name);
    FindHit(slots', last, Ahead(slots', last, st), name);
  }

  lemma NoHitOnPiece(st: State, s: Slot, name: seq<Byte>)
    requires Usable(st) && s[11] == ATTR_LFN
    ensures !Hit(st, s, name)
  {
  }

  lemma FindHit(slots: seq<Slot>, i: nat, st: State, name: seq<Byte>)
    requires i < |slots| && Usable(st) && slots[i][0] != 0 && Hit(st, slots[i], name)
    ensures Find(slots, i, st, name) == Some(i)
  {
  }

  lemma HitAtShort(st: State, added: seq<Slot>, name: seq<Byte>, alias: seq<Byte>, attr: Byte, cluster: nat)
    requires EntryFor(added, name, alias, attr, cluster) && Usable(st)
    ensures Hit(FedAll(st, added[..|added| - 1]), added[|added| - 1], name)
  {
    PieceShape(added, name, alias, attr, cluster, |added| - 1);
    hide Fed, FedAll, Fits83, Format83, HoldsPiece;
    if !Fits83(name) {
      NameReadBack(st, added, name, alias, attr, cluster);
    }
  }

  /** Lookup finds the new entry if and only if no slot in front of it starts with 0x00; if one
      does, as after a growth behind a tail that was too short, it finds nothing at all. */
  lemma FoundExactly(slots: seq<Slot>, slots': seq<Slot>, p: nat, added: seq<Slot>, st: State,
      name: seq<Byte>, alias: seq<Byte>, attr: Byte, cluster: nat)
    requires EntryFor(added, name, alias, attr, cluster) && Usable(st)
    requires p <= |slots| && p + |added| <= |slots'| && slots'[..p] == slots[..p] && slots'[p..p + |added|] == added
    requires Find(slots, 0, st, name) == None
    ensures Find(slots', 0, st, name) == if NoZeroBefore(slots, p) then Some(p + |added| - 1) else None
    ensures NoZeroBefore(slots, p) ==> var s := slots'[p + |added| - 1];
                                       FirstCluster(s) == cluster && Load32(s, 28) == 0 && s[11] == attr
  {
    hide Find, EntryFor, Hit, NoHit, Ahead;
    EntryThere(added, name, alias, attr, cluster);
    PieceShape(added, name, alias, attr, cluster, |added| - 1);
    assert slots'[p + |added| - 1] == slots'[p..p + |added|][|added| - 1];
    if NoZeroBefore(slots, p) {
      FoundAt(slots, slots', p, added, st, name, alias, attr, cluster);
    } else {
      var z := FirstZero(slots, p);
      NothingBefore(slots, z, st, name);
      assert slots'[..z] == slots'[..p][..z] == slots[..p][..z] == slots[..z];
      PrefixNoHit(slots, slots', z, st, name);
      FindAfter(slots', z, st, name);
      assert slots'[z] == slots'[..p][z] == slots[..p][z] == slots[z];
      FindStops(slots', z, Ahead(slots', z, st), name);
    }
  }

  lemma FindStops(slots: seq<Slot>, i: nat, st: State, name: seq<Byte>)
    requires i < |slots| && Usable(st) && slots[i][0] == 0
    ensures Find(slots, i, st, name) == None
  {
  }

  lemma {:induction false} FirstZero(slots: seq<Slot>, p: nat) returns (z: nat)
    requires p <= |slots| && !NoZeroBefore(slots, p)
    ensures z < p && slots[z][0] == 0 && NoZeroBefore(slots, z)
  {
    var i: nat :| i < p && slots[i][0] == 0;
    if NoZeroBefore(slots, i) {
      z := i;
    } else {
      z := FirstZero(slots, i);
    }
  }

  // ----- what an addition keeps -----

  /** Without a 0x00 slot in front, no used slot comes to follow one. */
  lemma PackedKept(slots: seq<Slot>, slots': seq<Slot>, p: nat, added: seq<Slot>)
    requires Packed(slots) && p + |added| <= |slots| && slots' == Placed(slots, p, added) && NoZeroBefore(slots, p)
    requires forall i :: 0 <= i < |added| ==> !Free(added[i])
    ensures Packed(slots')
  {
  }

  /** A new short name that no live entry has keeps the names distinct. */
  lemma DistinctKept(slots: seq<Slot>, slots': seq<Slot>, p: nat, added: seq<Slot>, alias: seq<Byte>)
    requires DistinctNames(slots) && 0 < |added| && p + |added| <= |slots| && slots' == Placed(slots, p, added)
    requires FreeRun(slots, p, |added|)
    requires forall i :: 0 <= i < |slots| && LiveShort(slots[i]) ==> Name83(slots[i]) != alias
    requires forall i :: 0 <= i < |added| - 1 ==> !LiveShort(added[i])
    requires LiveShort(added[|added| - 1]) && Name83(added[|added| - 1]) == alias
    ensures DistinctNames(slots')
  {
    hide Name83, LiveShort;
    forall i | 0 <= i < |slots| ensures slots'[i] == if p <= i < p + |added| then added[i - p] else slots[i] {
    }
  }
}
