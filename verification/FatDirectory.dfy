/** Directories as sequences of 32-byte slots: what a lookup of a name finds
    (src/fs/fat32.c:470-527). */
module FatDirectory {
  import opened Wrappers
  import opened Words
  import opened Lfn
  import opened FatNames

  const DELETED: Byte := 0xE5

  predicate Free(s: Slot) {
    s[0] == 0 || s[0] == DELETED
  }

  function Name83(s: Slot): (n: seq<Byte>)
    ensures |n| == 11
  {
    s[..11]
  }

  // ----- lookup -----

  /** A short entry with the 8.3 form of the name, or with the name as its long name. */
  predicate Matches(s: Slot, long: Option<seq<Byte>>, name: seq<Byte>) {
    Name83(s) == Format83(name) || long == Some(name)
  }

  ghost predicate Usable(st: State) {
    |st.texts| == MAX_ENTRIES && st.total <= MAX_ENTRIES
  }

  /** The accumulator after slot s. */
  function Passed(st: State, s: Slot): (r: State)
    requires |st.texts| == MAX_ENTRIES && st.total <= MAX_ENTRIES
    ensures |r.texts| == MAX_ENTRIES && r.total <= MAX_ENTRIES
  {
    if s[0] == DELETED then Reset(st) else Fed(st, s).0
  }

  /** Slot s is the entry that is looked for. */
  predicate Hit(st: State, s: Slot, name: seq<Byte>)
    requires |st.texts| == MAX_ENTRIES && st.total <= MAX_ENTRIES
  {
    s[0] != DELETED && s[11] != ATTR_LFN && Matches(s, Fed(st, s).1, name)
  }

  /** The index of the entry that fat32_vfs_lookup finds from slot i on. */
  function Find(slots: seq<Slot>, i: nat, st: State, name: seq<Byte>): (r: Option<nat>)
    requires i <= |slots| && |st.texts| == MAX_ENTRIES && st.total <= MAX_ENTRIES
    ensures r.Some? ==> i <= r.value < |slots|
    decreases |slots| - i
  {
    if i == |slots| || slots[i][0] == 0 then None
    else if Hit(st, slots[i], name) then Some(i)
    else Find(slots, i + 1, Passed(st, slots[i]), name)
  }

  /** A reset accumulator. */
  function Blank(): (st: State)
    ensures |st.texts| == MAX_ENTRIES && st.total <= MAX_ENTRIES
  {
    State(false, 0, 0, 0, seq(MAX_ENTRIES, _ => []))
  }

  /** The slot that a search for the name finds. */
  function Searched(slots: seq<Slot>, name: seq<Byte>): (r: Option<nat>)
    ensures r.Some? ==> r.value < |slots|
  {
    Find(slots, 0, Blank(), name)
  }

  /** The accumulator after the first k slots. */
  ghost function Ahead(slots: seq<Slot>, k: nat, st: State): (r: State)
    requires k <= |slots| && Usable(st)
    ensures Usable(r)
  {
    if k == 0 then st else Passed(Ahead(slots, k - 1, st), slots[k - 1])
  }

  ghost predicate NoHit(slots: seq<Slot>, k: nat, st: State, name: seq<Byte>)
    requires k <= |slots| && Usable(st)
  {
    forall i: nat :: i < k ==> slots[i][0] != 0 && !Hit(Ahead(slots, i, st), slots[i], name)
  }

  /** The search goes on behind slots that are neither hits nor the end. */
  lemma {:induction false} FindAfter(slots: seq<Slot>, k: nat, st: State, name: seq<Byte>)
    requires k <= |slots| && Usable(st) && NoHit(slots, k, st, name)
    ensures Find(slots, 0, st, name) == Find(slots, k, Ahead(slots, k, st), name)
  {
    hide Hit, Passed;
    if k > 0 {
      FindAfter(slots, k - 1, st, name);
      assert slots[k - 1][0] != 0 && !Hit(Ahead(slots, k - 1, st), slots[k - 1], name);
    }
  }

  /** A search that finds nothing has passed every slot in front of the first 0x00. */
  lemma {:induction false} NothingBefore(slots: seq<Slot>, k: nat, st: State, name: seq<Byte>)
    requires k <= |slots| && Usable(st) && Find(slots, 0, st, name) == None
    requires forall i: nat :: i < k ==> slots[i][0] != 0
    ensures NoHit(slots, k, st, name)
  {
    hide Hit, Passed;
    if k > 0 {
      NothingBefore(slots, k - 1, st, name);
      FindAfter(slots, k - 1, st, name);
    }
  }

  lemma {:induction false} StopsAtZero(slots: seq<Slot>, i: nat, z: nat, st: State, name: seq<Byte>)
    requires i <= z < |slots| && Usable(st) && slots[z][0] == 0
    ensures var r := Find(slots, i, st, name); r.Some? ==> r.value < z
    decreases z - i
  {
    if i < z && slots[i][0] != 0 {
      StopsAtZero(slots, i + 1, z, Passed(st, slots[i]), name);
    }
  }

  lemma {:induction false} SameAhead(slots: seq<Slot>, slots': seq<Slot>, k: nat, st: State)
    requires k <= |slots| && k <= |slots'| && Usable(st) && slots[..k] == slots'[..k]
    ensures Ahead(slots, k, st) == Ahead(slots', k, st)
  {
    if k > 0 {
      assert slots[..k - 1] == slots[..k][..k - 1] == slots'[..k][..k - 1] == slots'[..k - 1];
      assert slots[k - 1] == slots[..k][k - 1] == slots'[..k][k - 1] == slots'[k - 1];
      SameAhead(slots, slots', k - 1, st);
    }
  }
}
