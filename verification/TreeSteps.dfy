/** What one store into a table does to a tree and to its translation. */
module TreeSteps {
  import opened Words
  import opened PageTables
  import opened Pmm

  /** Physical memory as the page-table code sees it: page contents, frames in use,
      and the free-memory counter. */
  datatype Phys = Phys(mem: Mem, used: set<nat>, free: nat)

  ghost predicate Owned(s: Phys, at: Places) {
    forall n :: n in at ==> at[n] in s.used
  }

  /** A tree whose places are all in use. */
  ghost predicate OwnedTree(s: Phys, root: nat, at: Places, d: nat) {
    Tree(s.mem, root, at, d) && Owned(s, at)
  }

  ghost predicate SameGetPte(m: Mem, m': Mem, root: nat) {
    forall v :: UserAddr(v) ==> GetPte(m', root, v) == GetPte(m, root, v)
  }

  lemma SetUserBit(m: Mem, root: nat, at: Places, d: nat, n: Node, i: nat) returns (m': Mem)
    requires Tree(m, root, at, d) && n in at && Depth(n) <= 2 && i < Width(n)
    requires Entry(m, at[n], i).flags.present
    ensures m' == SetEntry(m, at[n], i, Entry(m, at[n], i).(flags := Entry(m, at[n], i).flags.(user := true)))
    ensures Tree(m', root, at, d)
    ensures SameGetPte(m, m', root)
  {
    var e := Entry(m, at[n], i);
    m' := SetEntry(m, at[n], i, e.(flags := e.flags.(user := true)));
    forall v | UserAddr(v)
      ensures GetPte(m', root, v) == GetPte(m, root, v)
    {
      GetPteInTree(m, root, at, d, v);
      GetPteInTree(m', root, at, d, v);
    }
  }

  /** Flags of an entry that leads to a table. */
  predicate TableFlags(flags: Flags) {
    flags.present && flags.rw && flags.hi == 0
  }

  /** A fresh zeroed table linked under a place without a table. */
  lemma LinkTable(m: Mem, root: nat, at: Places, d: nat, n: Node, i: nat, f: nat, flags: Flags) returns (m': Mem,
      at': Places)
    requires Tree(m, root, at, d) && n in at && Depth(n) <= 2 && i < Width(n)
    requires !Entry(m, at[n], i).flags.present && TableFlags(flags)
    requires f < |m| && f !in at.Values
    ensures m' == SetEntry(ClearTable(m, f), at[n], i, Pte(flags, f))
    ensures at' == at[Sub(n, i) := f]
    ensures Tree(m', root, at', d)
    ensures SameGetPte(m, m', root)
  {
    m' := SetEntry(ClearTable(m, f), at[n], i, Pte(flags, f));
    at' := at[Sub(n, i) := f];
    LinkTableTree(m, root, at, d, n, i, f, flags);
    forall v | UserAddr(v)
      ensures GetPte(m', root, v) == GetPte(m, root, v)
    {
      GetPteInTree(m, root, at, d, v);
      GetPteInTree(m', root, at', d, v);
      assert Depth(Leaf(v).up) == 3;
    }
  }

  /** Entry i of place n becomes p, and nothing is below Sub(n, i). */
  lemma RelinkedTree(m: Mem, m': Mem, at: Places, at': Places, d: nat, n: Node, i: nat, p: Pte)
    requires Linked(m, at, d) && n in at && Depth(n) < d && i < Width(n)
    requires forall k :: k != Sub(n, i) ==> (k in at' <==> k in at) && (k in at ==> at'[k] == at[k])
    requires Sub(n, i) in at' <==> p.flags.present
    requires Sub(n, i) in at' ==> at'[Sub(n, i)] == p.frame
    requires Depth(n) <= 2 && p.flags.present ==> p.flags.rw && p.flags.hi == 0
    requires forall j: nat :: Sub(Sub(n, i), j) !in at
    requires Sub(n, i) in at' && Depth(n) + 1 < d ==> forall j: nat :: !Entry(m', p.frame, j).flags.present
    requires forall k, j: nat {:trigger Entry(m', at[k], j)} ::
               k in at && k != Sub(n, i) && Depth(k) < d && j < Width(k) ==>
               Entry(m', at[k], j) == if k == n && j == i then p else Entry(m, at[k], j)
    ensures Linked(m', at', d)
  {
    hide Entry;
    forall k, j: nat | k in at' && Depth(k) < d && j < Width(k)
      ensures Sub(k, j) in at' <==> Entry(m', at'[k], j).flags.present
      ensures Sub(k, j) in at' ==> at'[Sub(k, j)] == Entry(m', at'[k], j).frame
    {
      if k != Sub(n, i) {
        assert at'[k] == at[k];
        assert Entry(m', at[k], j) == if k == n && j == i then p else Entry(m, at[k], j);
      }
    }
  }

  lemma LinkTableTree(m: Mem, root: nat, at: Places, d: nat, n: Node, i: nat, f: nat, flags: Flags)
    requires Tree(m, root, at, d) && n in at && Depth(n) <= 2 && i < Width(n)
    requires !Entry(m, at[n], i).flags.present && TableFlags(flags)
    requires f < |m| && f !in at.Values
    ensures Tree(SetEntry(ClearTable(m, f), at[n], i, Pte(flags, f)), root, at[Sub(n, i) := f], d)
  {
    hide Shaped, Injective, HoldsTables, Linked, Entry, SetEntry, ClearTable;
    TableAt(m, root, at, d, n);
    AddPlace(root, at, d, n, i, f);
    LinkTableHolds(m, root, at, d, n, i, f, flags);
    LinkTableLinked(m, root, at, d, n, i, f, flags);
  }

  lemma LinkTableHolds(m: Mem, root: nat, at: Places, d: nat, n: Node, i: nat, f: nat, flags: Flags)
    requires Tree(m, root, at, d) && n in at && Depth(n) <= 2 && i < Width(n)
    requires f < |m| && f !in at.Values
    ensures HoldsTables(SetEntry(ClearTable(m, f), at[n], i, Pte(flags, f)), at[Sub(n, i) := f])
  {
    hide Shaped, Injective, Linked, Entry, SetEntry, ClearTable;
    forall k | k in at
      ensures at[k] != f && ClearTable(m, f)[at[k]] == m[at[k]]
    {
      assert at[k] in at.Values;
    }
  }

  lemma LinkTableLinked(m: Mem, root: nat, at: Places, d: nat, n: Node, i: nat, f: nat, flags: Flags)
    requires Tree(m, root, at, d) && n in at && Depth(n) <= 2 && i < Width(n)
    requires !Entry(m, at[n], i).flags.present && TableFlags(flags)
    requires f < |m| && f !in at.Values
    ensures Linked(SetEntry(ClearTable(m, f), at[n], i, Pte(flags, f)), at[Sub(n, i) := f], d)
  {
    var m1 := ClearTable(m, f);
    var m' := SetEntry(m1, at[n], i, Pte(flags, f));
    assert Sub(n, i) !in at;
    hide HoldsTables, Linked, Entry, SetEntry, ClearTable;
    forall k | k in at
      ensures at[k] != f
    {
      assert at[k] in at.Values;
    }
    forall j: nat
      ensures !Entry(m', f, j).flags.present && Sub(Sub(n, i), j) !in at
    {
      assert Entry(m', f, j) == Entry(m1, f, j);
    }
    RelinkedTree(m, m', at, at[Sub(n, i) := f], d, n, i, Pte(flags, f));
  }

  /** The places after entry `leaf.i` of the last table is set to p. */
  ghost function LeafPlaces(at: Places, d: nat, leaf: Node, p: Pte): Places {
    if d == 3 then at
    else if p.flags.present then at[leaf := p.frame]
    else at - {leaf}
  }

  /** The tables stay. */
  lemma LeafTables(at: Places, d: nat, leaf: Node, p: Pte)
    requires Depth(leaf) == 4
    ensures forall k :: k in at && Depth(k) <= 3 ==>
              k in LeafPlaces(at, d, leaf, p) && LeafPlaces(at, d, leaf, p)[k] == at[k]
  {
  }

  lemma StoreLeaf(m: Mem, root: nat, at: Places, d: nat, leaf: Node, p: Pte) returns (m': Mem, at': Places)
    requires Tree(m, root, at, d) && Depth(leaf) == 4 && leaf.up in at && leaf.i < 512
    requires d == 4 && p.flags.present ==> p.frame < |m| && p.frame !in at.Values
    ensures m' == SetEntry(m, at[leaf.up], leaf.i, p)
    ensures at' == LeafPlaces(at, d, leaf, p)
    ensures Tree(m', root, at', d)
    ensures Remapped(m, m', root, leaf, p)
  {
    m' := SetEntry(m, at[leaf.up], leaf.i, p);
    at' := LeafPlaces(at, d, leaf, p);
    StoreLeafTree(m, root, at, d, leaf, p);
    forall v: nat | UserAddr(v)
      ensures GetPte(m', root, v) == if Leaf(v) == leaf then p else GetPte(m, root, v)
    {
      GetPteInTree(m, root, at, d, v);
      GetPteInTree(m', root, at', d, v);
    }
  }

  lemma StoreLeafTree(m: Mem, root: nat, at: Places, d: nat, leaf: Node, p: Pte)
    requires Tree(m, root, at, d) && Depth(leaf) == 4 && leaf.up in at && leaf.i < 512
    requires d == 4 && p.flags.present ==> p.frame < |m| && p.frame !in at.Values
    ensures Tree(SetEntry(m, at[leaf.up], leaf.i, p), root, LeafPlaces(at, d, leaf, p), d)
  {
    if d == 4 && p.flags.present {
      LinkPageTree(m, root, at, leaf, p);
    } else if d == 4 {
      UnlinkPageTree(m, root, at, leaf, p);
    }
  }

  lemma LinkPageTree(m: Mem, root: nat, at: Places, leaf: Node, p: Pte)
    requires Tree(m, root, at, 4) && Depth(leaf) == 4 && leaf.up in at && leaf.i < 512
    requires p.flags.present && p.frame < |m| && p.frame !in at.Values
    ensures Tree(SetEntry(m, at[leaf.up], leaf.i, p), root, at[leaf := p.frame], 4)
  {
    var m' := SetEntry(m, at[leaf.up], leaf.i, p);
    PutPlace(root, at, leaf, p.frame);
    NothingBelow(root, at, leaf);
    hide Shaped, Injective, Entry, SetEntry;
    RelinkedTree(m, m', at, at[leaf := p.frame], 4, leaf.up, leaf.i, p);
  }

  lemma UnlinkPageTree(m: Mem, root: nat, at: Places, leaf: Node, p: Pte)
    requires Tree(m, root, at, 4) && Depth(leaf) == 4 && leaf.up in at && leaf.i < 512
    requires !p.flags.present
    ensures Tree(SetEntry(m, at[leaf.up], leaf.i, p), root, at - {leaf}, 4)
  {
    var m' := SetEntry(m, at[leaf.up], leaf.i, p);
    RemovePlace(root, at, leaf);
    NothingBelow(root, at, leaf);
    hide Shaped, Injective, Entry, SetEntry;
    RelinkedTree(m, m', at, at - {leaf}, 4, leaf.up, leaf.i, p);
  }

  lemma PutPlace(root: nat, at: Places, leaf: Node, f: nat)
    requires Shaped(root, at, 4) && Injective(at)
    requires Depth(leaf) == 4 && leaf.up in at && leaf.i < 512 && f !in at.Values
    ensures Shaped(root, at[leaf := f], 4) && Injective(at[leaf := f])
  {
    RemovePlace(root, at, leaf);
    assert f !in (at - {leaf}).Values;
    AddPlace(root, at - {leaf}, 4, leaf.up, leaf.i, f);
    assert at[leaf := f] == (at - {leaf})[leaf := f];
  }

  lemma NothingBelow(root: nat, at: Places, leaf: Node)
    requires Shaped(root, at, 4) && Depth(leaf) == 4
    ensures forall j: nat :: Sub(leaf, j) !in at
  {
    assert forall j: nat :: Depth(Sub(leaf, j)) == 5;
  }

  lemma RemovePlace(root: nat, at: Places, leaf: Node)
    requires Shaped(root, at, 4) && Injective(at) && Depth(leaf) == 4
    ensures Shaped(root, at - {leaf}, 4) && Injective(at - {leaf})
  {
    assert leaf != Root;
    forall k, j: nat | Sub(k, j) in at - {leaf}
      ensures k in at - {leaf}
    {
      assert Sub(k, j) in at && Depth(Sub(k, j)) <= 4;
    }
  }

  // ----- growth of a tree by tables -----

  /** at' adds places of tables whose frames were not in use. */
  ghost predicate MorePlaces(used: set<nat>, at: Places, at': Places) {
    && (forall n :: n in at ==> n in at' && at'[n] == at[n])
    && (forall n :: n in at' && n !in at ==> 1 <= Depth(n) <= 3 && at'[n] !in used)
  }

  /** The frame bitmap and the counter changed by k frames, those of at'. */
  ghost predicate Charged(s: Phys, s': Phys, at': Places, k: int) {
    s'.used == s.used + at'.Values && s'.free == Credit(s.free, -k)
  }

  /** Only pages of at' changed, and of these no mapped page. */
  ghost predicate OnlyTables(m: Mem, m': Mem, at': Places) {
    && |m'| == |m|
    && (forall f :: 0 <= f < |m| && f !in at'.Values ==> m'[f] == m[f])
    && (forall n :: n in at' && Depth(n) == 4 && at'[n] < |m| ==> m'[at'[n]] == m[at'[n]])
  }

  /** No entry that leads to a table lost its user bit. */
  ghost predicate UserKept(m: Mem, m': Mem, at: Places) {
    forall k, i: nat :: UserAt(m, at, k, i) && Depth(k) <= 2 ==> UserAt(m', at, k, i)
  }

  /** s' and at' come from s and at by adding tables taken from free frames; nothing
      else changed but entries of the tree's own tables, and these lost no user bit. */
  ghost predicate Grows(s: Phys, at: Places, s': Phys, at': Places) {
    && MorePlaces(s.used, at, at') && Charged(s, s', at', |at'| - |at|) && OnlyTables(s.mem, s'.mem, at')
    && UserKept(s.mem, s'.mem, at)
  }

  lemma GrowsByNothing(s: Phys, root: nat, at: Places, d: nat)
    requires OwnedTree(s, root, at, d) && 0 <= s.free < TWO_32
    ensures Grows(s, at, s, at) && SameGetPte(s.mem, s.mem, root)
  {
    hide Tree;
    assert at.Values <= s.used;
    assert s.used == s.used + at.Values;
    CreditNothing(s.free);
  }

  lemma GrowsTransitive(s: Phys, at: Places, s1: Phys, at1: Places, s2: Phys, at2: Places)
    requires Grows(s, at, s1, at1) && Grows(s1, at1, s2, at2)
    ensures Grows(s, at, s2, at2)
  {
    hide MorePlaces, Charged, OnlyTables, UserKept;
    PlacesTransitive(s, at, s1, at1, at2, |at1| - |at|);
    ChargedTransitive(s, s1, at1, s2, at2, |at1| - |at|, |at2| - |at1|);
    TablesTransitive(s.mem, s1.mem, at1, s2.mem, at2, s1.used);
    UserKeptTwice(s.used, s.mem, at, s1.mem, at1, s2.mem);
  }

  /** A store keeps the user bits of the tables unless it takes one itself. */
  lemma StoreKeepsUser(m: Mem, root: nat, at: Places, d: nat, n: Node, i: nat, p: Pte)
    requires Tree(m, root, at, d) && n in at && at[n] < |m| && m[at[n]].Table? && i < 512
    requires Depth(n) <= 2 ==> (p.flags.present && p.flags.user) || !UserAt(m, at, n, i)
    ensures UserKept(m, SetEntry(m, at[n], i, p), at)
  {
    hide Shaped, HoldsTables, Linked, Entry, SetEntry;
  }

  /** A new table takes no user bit: its entry was absent. */
  lemma NewTableKeepsUser(s: Phys, root: nat, at: Places, d: nat, n: Node, i: nat, t: nat, flags: Flags)
    requires OwnedTree(s, root, at, d) && n in at && at[n] < |s.mem| && s.mem[at[n]].Table? && i < 512
    requires t < |s.mem| && t !in s.used && !UserAt(s.mem, at, n, i)
    ensures UserKept(s.mem, NewTable(s, at, n, i, t, flags).mem, at)
  {
    hide Shaped, HoldsTables, Linked, Entry, SetEntry, ClearTable, Credit;
  }

  lemma UserKeptTwice(used: set<nat>, m: Mem, at: Places, m1: Mem, at1: Places, m2: Mem)
    requires MorePlaces(used, at, at1) && UserKept(m, m1, at) && UserKept(m1, m2, at1)
    ensures UserKept(m, m2, at)
  {
    hide Entry;
    forall k, i: nat | UserAt(m, at, k, i) && Depth(k) <= 2
      ensures UserAt(m2, at, k, i)
    {
      assert UserAt(m1, at, k, i) && at1[k] == at[k];
      assert UserAt(m1, at1, k, i);
      assert UserAt(m2, at1, k, i);
    }
  }

  /** A table's entry that was for user code still is after a growth. */
  lemma StillUser(s: Phys, at: Places, s': Phys, at': Places, k: Node, i: nat)
    requires Grows(s, at, s', at') && UserAt(s.mem, at, k, i) && Depth(k) <= 2
    ensures UserAt(s'.mem, at', k, i)
  {
    assert UserAt(s'.mem, at, k, i);
  }

  /** Growth keeps the ways open, also when a page is put in or taken out with it. */
  lemma PathsGrow(s: Phys, root: nat, at: Places, s': Phys, at': Places, kept: Places, d: nat)
    requires OwnedTree(s, root, at, d) && Grows(s, at, s', at') && OwnedTree(s', root, kept, d)
    requires forall k :: k in at' && Depth(k) <= 3 ==> k in kept && kept[k] == at'[k]
    ensures KeepsPaths(s.mem, s'.mem, root)
  {
    hide Tree, Charged, OnlyTables, Entry;
    forall k, i: nat | UserAt(s.mem, at, k, i) && Depth(k) <= 2
      ensures UserAt(s'.mem, kept, k, i)
    {
      StillUser(s, at, s', at', k, i);
    }
    PathsInTree(s.mem, at, s'.mem, kept, root, d);
  }

  lemma PlacesTransitive(s: Phys, at: Places, s1: Phys, at1: Places, at2: Places, k: int)
    requires MorePlaces(s.used, at, at1) && Charged(s, s1, at1, k) && MorePlaces(s1.used, at1, at2)
    ensures MorePlaces(s.used, at, at2)
  {
  }

  lemma ChargedTransitive(s: Phys, s1: Phys, at1: Places, s2: Phys, at2: Places, a: int, b: int)
    requires Charged(s, s1, at1, a) && Charged(s1, s2, at2, b) && MorePlaces(s1.used, at1, at2)
    ensures Charged(s, s2, at2, a + b)
  {
    assert at1.Values <= at2.Values;
    CreditTwice(s.free, -a, -b);
  }

  lemma TablesTransitive(m: Mem, m1: Mem, at1: Places, m2: Mem, at2: Places, used: set<nat>)
    requires OnlyTables(m, m1, at1) && OnlyTables(m1, m2, at2) && MorePlaces(used, at1, at2)
    ensures OnlyTables(m, m2, at2)
  {
    assert at1.Values <= at2.Values;
    forall n | n in at2 && Depth(n) == 4 && at2[n] < |m|
      ensures m2[at2[n]] == m[at2[n]]
    {
      assert n in at1 && at1[n] == at2[n];
    }
  }

  lemma UserBitGrows(s: Phys, root: nat, at: Places, d: nat, n: Node, i: nat) returns (s': Phys)
    requires OwnedTree(s, root, at, d) && 0 <= s.free < TWO_32 && n in at && Depth(n) <= 2 && i < Width(n)
    requires Entry(s.mem, at[n], i).flags.present
    ensures var e := Entry(s.mem, at[n], i);
            s' == s.(mem := SetEntry(s.mem, at[n], i, e.(flags := e.flags.(user := true))))
    ensures OwnedTree(s', root, at, d) && Grows(s, at, s', at) && SameGetPte(s.mem, s'.mem, root)
  {
    hide SetEntry, Entry, Shaped, Injective, HoldsTables, Linked, SameGetPte, MorePlaces;
    TableAt(s.mem, root, at, d, n);
    var m' := SetUserBit(s.mem, root, at, d, n, i);
    s' := s.(mem := m');
    GrowsByNothing(s, root, at, d);
    StoreOnlyTables(s.mem, root, at, d, n, i);
    assert at.Values <= s.used;
    assert s'.used == s.used + at.Values;
  }

  lemma StoreOnlyTables(m: Mem, root: nat, at: Places, d: nat, n: Node, i: nat)
    requires Tree(m, root, at, d) && n in at && Depth(n) <= 3 && i < 512
    ensures forall p :: OnlyTables(m, SetEntry(m, at[n], i, p), at)
  {
    hide Linked, Shaped;
  }

  lemma TableAt(m: Mem, root: nat, at: Places, d: nat, n: Node)
    requires Tree(m, root, at, d) && n in at && Depth(n) <= 3
    ensures 3 <= d <= 4 && at[n] < |m| && m[at[n]].Table? && at[n] in at.Values
    ensures forall i: nat :: i < 512 ==> Entry(m, at[n], i) == m[at[n]].e[i]
    ensures forall i: nat :: i < Width(n) && Depth(n) < d ==>
              (Sub(n, i) in at <==> Entry(m, at[n], i).flags.present)
              && (Sub(n, i) in at ==> at[Sub(n, i)] == Entry(m, at[n], i).frame)
  {
  }

  /** The state after a free frame t became the table at Sub(n, i). */
  ghost function NewTable(s: Phys, at: Places, n: Node, i: nat, t: nat, flags: Flags): Phys
    requires n in at && at[n] < |s.mem| && t < |s.mem| && at[n] != t && s.mem[at[n]].Table? && i < 512
  {
    Phys(SetEntry(ClearTable(s.mem, t), at[n], i, Pte(flags, t)), s.used + {t}, Credit(s.free, -1))
  }

  lemma NewTableGrows(s: Phys, root: nat, at: Places, d: nat, n: Node, i: nat, t: nat, flags: Flags)
    requires OwnedTree(s, root, at, d)
    requires n in at && Depth(n) <= 2 && i < Width(n)
    requires !Entry(s.mem, at[n], i).flags.present && TableFlags(flags)
    requires t < |s.mem| && t !in s.used
    ensures at[n] < |s.mem| && s.mem[at[n]].Table? && t != at[n]
    ensures var at', s' := at[Sub(n, i) := t], NewTable(s, at, n, i, t, flags);
            OwnedTree(s', root, at', d) && Grows(s, at, s', at') && SameGetPte(s.mem, s'.mem, root)
  {
    hide SetEntry, ClearTable, MorePlaces, Charged, OnlyTables, Shaped, Injective;
    NewTablePlaces(s, root, at, d, n, i, t);
    NewTableCharged(s, at, n, i, t, flags);
    NewTableOnly(s, root, at, d, n, i, t, flags);
    NewTableKeepsUser(s, root, at, d, n, i, t, flags);
    var _, _ := LinkTable(s.mem, root, at, d, n, i, t, flags);
  }

  lemma NewTablePlaces(s: Phys, root: nat, at: Places, d: nat, n: Node, i: nat, t: nat)
    requires OwnedTree(s, root, at, d) && n in at && Depth(n) <= 2 && i < Width(n) && t !in s.used
    requires !Entry(s.mem, at[n], i).flags.present
    ensures t !in at.Values && Sub(n, i) !in at && at[n] < |s.mem| && s.mem[at[n]].Table?
    ensures MorePlaces(s.used, at, at[Sub(n, i) := t])
  {
    hide Shaped, Injective, HoldsTables, Linked, Entry;
    TableAt(s.mem, root, at, d, n);
  }

  lemma NewTableCharged(s: Phys, at: Places, n: Node, i: nat, t: nat, flags: Flags)
    requires Owned(s, at) && n in at && at[n] < |s.mem| && s.mem[at[n]].Table? && i < 512
    requires t < |s.mem| && t !in s.used && Sub(n, i) !in at
    ensures var at', s' := at[Sub(n, i) := t], NewTable(s, at, n, i, t, flags);
            Owned(s', at') && Charged(s, s', at', |at'| - |at|)
  {
    hide SetEntry, ClearTable;
    var at' := at[Sub(n, i) := t];
    assert |at'| == |at| + 1;
    assert at'[Sub(n, i)] == t;
    assert s.used + {t} == s.used + at'.Values;
  }

  lemma NewTableOnly(s: Phys, root: nat, at: Places, d: nat, n: Node, i: nat, t: nat, flags: Flags)
    requires Tree(s.mem, root, at, d) && Owned(s, at) && n in at && Depth(n) <= 2 && i < Width(n)
    requires t < |s.mem| && t !in s.used
    ensures OnlyTables(s.mem, NewTable(s, at, n, i, t, flags).mem, at[Sub(n, i) := t])
  {
    hide Linked, Shaped;
    var at' := at[Sub(n, i) := t];
    assert at'[n] == at[n] && at'[Sub(n, i)] == t;
  }

  /** Storing p as the page-table entry of `leaf`: translation, places and frames. */
  lemma StorePage(s: Phys, root: nat, at: Places, d: nat, leaf: Node, p: Pte) returns (s': Phys, at': Places)
    requires OwnedTree(s, root, at, d) && 0 <= s.free < TWO_32
    requires Depth(leaf) == 4 && leaf.up in at && leaf.i < 512
    requires d == 4 && p.flags.present ==> p.frame < |s.mem| && p.frame in s.used && p.frame !in at.Values
    ensures at[leaf.up] < |s.mem| && s.mem[at[leaf.up]].Table?
    ensures s' == s.(mem := SetEntry(s.mem, at[leaf.up], leaf.i, p)) && at' == LeafPlaces(at, d, leaf, p)
    ensures OwnedTree(s', root, at', d) && Grows(s, at, s', at)
    ensures Remapped(s.mem, s'.mem, root, leaf, p)
  {
    hide Shaped, Injective, HoldsTables, Linked, SetEntry, MorePlaces, GetPte, SameGetPte;
    TableAt(s.mem, root, at, d, leaf.up);
    GrowsByNothing(s, root, at, d);
    StoreOnlyTables(s.mem, root, at, d, leaf.up, leaf.i);
    StoreKeepsUser(s.mem, root, at, d, leaf.up, leaf.i, p);
    var m';
    m', at' := StoreLeaf(s.mem, root, at, d, leaf, p);
    s' := s.(mem := m');
  }

  lemma NewFrameOutside(s: Phys, at: Places, s': Phys, at': Places, f: nat)
    requires Grows(s, at, s', at') && f in s.used && f !in at.Values
    ensures f in s'.used && f !in at'.Values
  {
  }

  lemma RemappedAfter(m: Mem, m1: Mem, m2: Mem, root: nat, leaf: Node, p: Pte)
    requires SameGetPte(m, m1, root) && Remapped(m1, m2, root, leaf, p)
    ensures Remapped(m, m2, root, leaf, p)
  {
    hide GetPte, Leaf;
  }

  lemma RootPlace(m: Mem, root: nat, at: Places, d: nat)
    requires Tree(m, root, at, d)
    ensures 3 <= d <= 4 && Root in at && at[Root] == root && root < |m|
  {
  }

  lemma SameGetPteTransitive(m: Mem, m1: Mem, m2: Mem, root: nat)
    requires SameGetPte(m, m1, root) && SameGetPte(m1, m2, root)
    ensures SameGetPte(m, m2, root)
  {
    hide GetPte;
  }

  /** A table of a fresh frame with no user entries is a tree without pages. */
  lemma EmptyTree(m: Mem, root: nat)
    requires root < |m| && m[root].Table?
    requires forall i :: 0 <= i < 256 ==> Entry(m, root, i) == ZERO_PTE
    ensures Tree(m, root, map[Root := root], 4)
    ensures forall v :: UserAddr(v) ==> GetPte(m, root, v) == ZERO_PTE
  {
    assert Depth(Root) == 0;
    forall v | UserAddr(v)
      ensures GetPte(m, root, v) == ZERO_PTE
    {
      IndicesOfPage(v);
    }
  }
}
