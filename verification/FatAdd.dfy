/** Where an entry is added to a directory, and what lookup makes of it (src/fs/fat32.c:687-937). */
module FatAdd {
  import opened Wrappers
  import opened Words
  import opened Lfn
  import opened LfnNames
  import opened ShortNames
  import opened FatNames
  import opened FatDirectory
  import opened FatCreate

  // ----- stale chunks never show -----

  /** States that feeding cannot tell apart: the chunks in use are the same. */
  ghost predicate Alike(a: State, b: State) {
    && Usable(a) && Usable(b) && a.inProgress == b.inProgress
    && (a.inProgress ==>
          && a.next == b.next && a.total == b.total && a.checksum == b.checksum && 1 <= a.next <= a.total
          && forall r: nat :: a.next - 1 <= r < a.total ==> a.texts[r] == b.texts[r])
  }

  lemma FedAlike(a: State, b: State, s: Slot)
    requires Alike(a, b)
    ensures Fed(a, s).1 == Fed(b, s).1 && Alike(Fed(a, s).0, Fed(b, s).0)
  {
    hide TextFrom, ChecksumOf;
    if a.inProgress && a.next == 1 {
      JoinedAlike(a.texts, b.texts, a.total);
    }
  }

  lemma {:induction false} JoinedAlike(a: seq<seq<Byte>>, b: seq<seq<Byte>>, k: nat)
    requires k <= |a| && k <= |b| && forall r: nat :: r < k ==> a[r] == b[r]
    ensures Joined(a, k) == Joined(b, k)
  {
    if k > 0 {
      JoinedAlike(a, b, k - 1);
    }
  }

  lemma {:induction false} FindAlike(slots: seq<Slot>, i: nat, a: State, b: State, name: seq<Byte>)
    requires i <= |slots| && Alike(a, b)
    ensures Find(slots, i, a, name) == Find(slots, i, b, name)
    decreases |slots| - i
  {
    hide Fed;
    if i < |slots| && slots[i][0] != 0 {
      FedAlike(a, b, slots[i]);
      FindAlike(slots, i + 1, Passed(a, slots[i]), Passed(b, slots[i]), name);
    }
  }

  // ----- short names in use -----

  /** The short names from slot i on, up to the first slot that starts with 0x00. */
  function Used(slots: seq<Slot>, i: nat): (u: set<seq<Byte>>)
    requires i <= |slots|
    ensures |u| <= |slots| - i
    decreases |slots| - i
  {
    if i == |slots| || slots[i][0] == 0 then {}
    else (if LiveShort(slots[i]) then {Name83(slots[i])} else {}) + Used(slots, i + 1)
  }

  lemma UsedFrom(slots: seq<Slot>, i: nat, short: seq<Byte>)
    requires i < |slots|
    ensures short in Used(slots, i) <==>
              slots[i][0] != 0 && ((LiveShort(slots[i]) && Name83(slots[i]) == short) || short in Used(slots, i + 1))
  {
    hide Name83;
  }

  lemma {:induction false} UsedHas(slots: seq<Slot>, i: nat, j: nat)
    requires i <= j < |slots| && LiveShort(slots[j]) && NoZeroBefore(slots, j)
    ensures Name83(slots[j]) in Used(slots, i)
    decreases j - i
  {
    hide Name83;
    if i < j {
      UsedHas(slots, i + 1, j);
    }
  }

  lemma LiveBeforeZero(slots: seq<Slot>, j: nat)
    requires Packed(slots) && j < |slots| && LiveShort(slots[j])
    ensures NoZeroBefore(slots, j)
  {
  }

  // ----- places -----

  ghost predicate HasRun(slots: seq<Slot>, k: nat) {
    exists p: nat :: FreeRun(slots, p, k)
  }

  ghost function RunFrom(slots: seq<Slot>, i: nat, k: nat): (p: nat)
    requires exists q: nat :: i <= q && FreeRun(slots, q, k)
    ensures FreeRun(slots, p, k) && i <= p && forall q: nat :: i <= q < p ==> !FreeRun(slots, q, k)
    decreases |slots| - i
  {
    if FreeRun(slots, i, k) then i else RunFrom(slots, i + 1, k)
  }

  /** Where k slots are put: the first place with so many free slots in a row, or behind all slots. */
  ghost function PlaceFor(slots: seq<Slot>, k: nat): (p: nat)
    ensures p <= |slots|
  {
    if HasRun(slots, k) then RunFrom(slots, 0, k) else |slots|
  }

  /** The search after i slots: the last run of them are free, and no run of k ends there yet. */
  ghost predicate Running(slots: seq<Slot>, i: nat, run: nat, k: nat) {
    && run <= i <= |slots| && run < k
    && (forall j :: i - run <= j < i ==> Free(slots[j]))
    && (i > run ==> !Free(slots[i - run - 1]))
    && forall q: nat :: q + k <= i ==> !FreeRun(slots, q, k)
  }

  lemma RunningStarts(slots: seq<Slot>, k: nat)
    requires k >= 1
    ensures Running(slots, 0, 0, k)
  {
  }

  /** One slot more: the run grows, is long enough, or starts again. */
  lemma RunningOn(slots: seq<Slot>, i: nat, run: nat, k: nat)
    requires Running(slots, i, run, k) && i < |slots|
    ensures run < k && (!Free(slots[i]) ==> Running(slots, i + 1, 0, k))
    ensures Free(slots[i]) && run + 1 < k ==> Running(slots, i + 1, run + 1, k)
    ensures Free(slots[i]) && run + 1 == k ==> HasRun(slots, k) && PlaceFor(slots, k) == i + 1 - k
  {
    if Free(slots[i]) && run + 1 == k {
      assert FreeRun(slots, i + 1 - k, k);
    } else {
      forall q: nat | q + k == i + 1 ensures !FreeRun(slots, q, k) {
        assert Free(slots[i]) ==> !Free(slots[i - run - 1]);
      }
    }
  }

  lemma RunningEnds(slots: seq<Slot>, run: nat, k: nat)
    requires Running(slots, |slots|, run, k)
    ensures !HasRun(slots, k)
  {
  }

  lemma NoRunPlace(slots: seq<Slot>, k: nat)
    requires !HasRun(slots, k)
    ensures PlaceFor(slots, k) == |slots|
  {
  }

  /** A single slot goes to the first free one. */
  lemma FirstSlot(slots: seq<Slot>, p: nat)
    requires p < |slots| && Free(slots[p]) && forall i :: 0 <= i < p ==> !Free(slots[i])
    ensures HasRun(slots, 1) && PlaceFor(slots, 1) == p
  {
    assert FreeRun(slots, p, 1);
    forall q: nat | q < p ensures !FreeRun(slots, q, 1) {
      assert !Free(slots[q]);
    }
  }

  /** In a packed directory the first run lies in front of any 0x00 slot, or starts with it. */
  lemma RunBeforeZero(slots: seq<Slot>, k: nat)
    requires Packed(slots) && HasRun(slots, k)
    ensures NoZeroBefore(slots, PlaceFor(slots, k))
  {
    var p := PlaceFor(slots, k);
    forall z: nat | z < p && z < |slots| ensures slots[z][0] != 0 {
      if slots[z][0] == 0 {
        assert FreeRun(slots, z, k);
      }
    }
  }

  // ----- the directory -----

  ghost predicate NotInUse(slots: seq<Slot>, name: seq<Byte>) {
    forall i :: 0 <= i < |slots| && LiveShort(slots[i]) ==> Name83(slots[i]) != name
  }

  /** A name that lookup does not find is nobody's 8.3 form. */
  lemma NotFoundNotInUse(slots: seq<Slot>, st: State, name: seq<Byte>)
    requires Packed(slots) && Usable(st) && Find(slots, 0, st, name) == None
    ensures NotInUse(slots, Format83(name))
  {
    hide Name83, Format83, Fed;
    forall j: nat | j < |slots| && LiveShort(slots[j]) ensures Name83(slots[j]) != Format83(name) {
      LiveBeforeZero(slots, j);
      NothingBefore(slots, j + 1, st, name);
      assert !Hit(Ahead(slots, j, st), slots[j], name);
    }
  }

  lemma UnusedNotInUse(slots: seq<Slot>, name: seq<Byte>)
    requires Packed(slots) && name !in Used(slots, 0)
    ensures NotInUse(slots, name)
  {
    hide Name83, Used;
    forall j: nat | j < |slots| && LiveShort(slots[j]) ensures Name83(slots[j]) != name {
      LiveBeforeZero(slots, j);
      UsedHas(slots, 0, j);
    }
  }

  /** How many slots fat32_add_entry_named writes. */
  ghost function SlotsNeeded(name: seq<Byte>): nat {
    if Fits83(name) then 1 else ChunkCount(name) + 1
  }

  /** The slots to write to: those of the directory, or with a zeroed cluster behind them. */
  ghost function Room(slots: seq<Slot>, k: nat, perCluster: nat): seq<Slot> {
    if HasRun(slots, k) then slots else slots + ZeroSlots(perCluster)
  }

  /** What an addition did: the new slots lie at their place, and no other slot changed. */
  ghost predicate Added(slots: seq<Slot>, slots': seq<Slot>, added: seq<Slot>, perCluster: nat) {
    && (HasRun(slots, |added|) || |added| <= perCluster)
    && slots' == Placed(Room(slots, |added|, perCluster), PlaceFor(slots, |added|), added)
  }

  lemma PlaceInRoom(slots: seq<Slot>, k: nat, perCluster: nat)
    requires HasRun(slots, k) || k <= perCluster
    ensures FreeRun(Room(slots, k, perCluster), PlaceFor(slots, k), k)
    ensures slots <= Room(slots, k, perCluster)
  {
  }

  lemma AddedParts(slots: seq<Slot>, slots': seq<Slot>, added: seq<Slot>, perCluster: nat)
    requires Added(slots, slots', added, perCluster)
    ensures var p := PlaceFor(slots, |added|);
            p <= |slots| && p + |added| <= |slots'| && slots'[..p] == slots[..p] && slots'[p..p + |added|] == added
  {
    hide PlaceFor, HasRun;
    PlaceInRoom(slots, |added|, perCluster);
  }

  lemma NeededIs(added: seq<Slot>, name: seq<Byte>, alias: seq<Byte>, attr: Byte, cluster: nat)
    requires EntryFor(added, name, alias, attr, cluster) || EntryOf(added, name, alias, attr, cluster)
    ensures |added| == SlotsNeeded(name) >= 1
  {
  }

  /** Lookup will find the entry: no 0x00 slot lies in front of the place it is put at. */
  ghost predicate WillBeFound(slots: seq<Slot>, name: seq<Byte>) {
    NoZeroBefore(slots, PlaceFor(slots, SlotsNeeded(name)))
  }

  /** In a packed directory that says: there are slots enough, or not a single 0x00 slot. */
  lemma WillBeFoundPacked(slots: seq<Slot>, name: seq<Byte>)
    requires Packed(slots)
    ensures WillBeFound(slots, name) <==> HasRun(slots, SlotsNeeded(name)) || NoZeroBefore(slots, |slots|)
  {
    if HasRun(slots, SlotsNeeded(name)) {
      RunBeforeZero(slots, SlotsNeeded(name));
    }
  }

  /** After a create, lookup finds the new entry, with the first cluster given and size 0, exactly
      when the directory and the name were such that it would be found. */
  lemma CreatedFound(slots: seq<Slot>, slots': seq<Slot>, added: seq<Slot>, perCluster: nat, name: seq<Byte>,
      alias: seq<Byte>, attr: Byte, cluster: nat)
    requires EntryFor(added, name, alias, attr, cluster) && Added(slots, slots', added, perCluster)
    requires Searched(slots, name) == None
    ensures var last := PlaceFor(slots, SlotsNeeded(name)) + SlotsNeeded(name) - 1;
            && 0 <= last < |slots'| && FirstCluster(slots'[last]) == cluster && Load32(slots'[last], 28) == 0
            && slots'[last][11] == attr
            && Searched(slots', name) == if WillBeFound(slots, name) then Some(last) else None
  {
    hide Find, EntryFor, Added, PlaceFor, SlotsNeeded;
    NeededIs(added, name, alias, attr, cluster);
    AddedParts(slots, slots', added, perCluster);
    FoundExactly(slots, slots', PlaceFor(slots, |added|), added, Blank(), name, alias, attr, cluster);
    PieceShape(added, name, alias, attr, cluster, |added| - 1);
    var p := PlaceFor(slots, |added|);
    assert slots'[p + |added| - 1] == slots'[p..p + |added|][|added| - 1];
  }

  // ----- an entry lost -----

  /** Fifteen entries for the name "B", and one 0x00 slot. */
  function NearlyFull(): seq<Slot> {
    seq(15, _ => [0x42] + seq(10, _ => SPACE) + seq(21, _ => 0)) + ZeroSlots(1)
  }

  const NAME_A: seq<Byte> := [0x61]

  /** The name "a" needs two slots, so that the directory grows by a cluster, and lookup does not get
      past the 0x00 slot to the new entry. */
  lemma LostEntry(slots': seq<Slot>, added: seq<Slot>, alias: seq<Byte>, attr: Byte, cluster: nat)
    requires EntryFor(added, NAME_A, alias, attr, cluster) && Added(NearlyFull(), slots', added, 16)
    ensures Packed(NearlyFull()) && Searched(NearlyFull(), NAME_A) == None
    ensures |slots'| == 32 && slots'[16..18] == added
    ensures Searched(slots', NAME_A) == None
  {
    hide Find, EntryFor, NearlyFull, Format83;
    var slots := NearlyFull();
    NearlyFullIs();
    NoneThere(0, Blank());
    NeededIs(added, NAME_A, alias, attr, cluster);
    assert |added| == 2 by {
      assert Lower(NAME_A[0]);
    }
    assert !HasRun(slots, 2) by {
      forall p: nat ensures !FreeRun(slots, p, 2) {
        assert p < 15 ==> !Free(slots[p]);
      }
    }
    assert !WillBeFound(slots, NAME_A);
    AddedParts(slots, slots', added, 16);
    CreatedFound(slots, slots', added, 16, NAME_A, alias, attr, cluster);
  }

  lemma NearlyFullIs()
    ensures |NearlyFull()| == 16 && NearlyFull()[15][0] == 0
    ensures forall i :: 0 <= i < 15 ==> NearlyFull()[i][0] == 0x42 && NearlyFull()[i][11] == 0
  {
  }

  lemma FormatA()
    ensures Format83(NAME_A)[0] == 0x41
  {
  }

  lemma {:induction false} NoneThere(i: nat, st: State)
    requires i <= |NearlyFull()| && Usable(st) && !st.inProgress
    ensures Find(NearlyFull(), i, st, NAME_A) == None
    decreases |NearlyFull()| - i
  {
    hide NearlyFull, Format83;
    NearlyFullIs();
    if i < 15 {
      FormatA();
      NoneThere(i + 1, Passed(st, NearlyFull()[i]));
    }
  }

  /** It keeps the directory packed and its short names distinct. */
  lemma CreatedKeeps(slots: seq<Slot>, slots': seq<Slot>, added: seq<Slot>, perCluster: nat, name: seq<Byte>,
      alias: seq<Byte>, attr: Byte, cluster: nat)
    requires EntryFor(added, name, alias, attr, cluster) && Added(slots, slots', added, perCluster)
    requires Searched(slots, name) == None && Packed(slots) && DistinctNames(slots)
    requires !Fits83(name) ==> alias !in Used(slots, 0)
    ensures DistinctNames(slots')
    ensures WillBeFound(slots, name) ==> Packed(slots')
  {
    hide Find, Fits83, Format83, Used, Name83, HoldsShort, SlotsOf, PlaceFor, HasRun;
    if Fits83(name) {
      NotFoundNotInUse(slots, Blank(), name);
    } else {
      UnusedNotInUse(slots, alias);
    }
    NeededIs(added, name, alias, attr, cluster);
    PlaceInRoom(slots, |added|, perCluster);
    var room, p := Room(slots, |added|, perCluster), PlaceFor(slots, |added|);
    RoomStill(slots, |added|, perCluster, alias);
    AddedShape(added, name, alias, attr, cluster);
    hide EntryFor, LiveShort, Room;
    DistinctKept(room, slots', p, added, alias);
    if NoZeroBefore(slots, p) {
      PackedKept(room, slots', p, added);
    }
  }

  lemma AddedShape(added: seq<Slot>, name: seq<Byte>, alias: seq<Byte>, attr: Byte, cluster: nat)
    requires EntryFor(added, name, alias, attr, cluster)
    ensures |added| >= 1 && LiveShort(added[|added| - 1]) && Name83(added[|added| - 1]) == alias
    ensures forall i :: 0 <= i < |added| ==> !Free(added[i])
    ensures forall i :: 0 <= i < |added| - 1 ==> !LiveShort(added[i])
  {
    hide EntryFor, HoldsShort;
    EntryNonEmpty(added, name, alias, attr, cluster);
    forall i: nat | i < |added| ensures !Free(added[i]) && (i < |added| - 1 ==> !LiveShort(added[i])) {
      PieceShape(added, name, alias, attr, cluster, i);
    }
    PieceShape(added, name, alias, attr, cluster, |added| - 1);
  }

  lemma RoomStill(slots: seq<Slot>, k: nat, perCluster: nat, alias: seq<Byte>)
    requires Packed(slots) && DistinctNames(slots) && NotInUse(slots, alias)
    ensures var room := Room(slots, k, perCluster); Packed(room) && DistinctNames(room) && NotInUse(room, alias)
  {
    hide Name83, HasRun;
  }
}
