/** Walking a whole tree: the parts below one entry, and shrinking and copying
    steps (src/mm/vmm.c:189-236, 251-306). */
module Subtrees {
  import opened Wrappers
  import opened Words
  import opened PageTables
  import opened Pmm
  import opened TreeSteps

  /** The entry of n through which k is reached, if k is strictly below n. */
  function Via(k: Node, n: Node): Option<nat> {
    if k.Root? then None
    else if k.up == n then Some(k.i)
    else Via(k.up, n)
  }

  lemma {:induction false} ViaDeepens(k: Node, n: Node)
    ensures Via(k, n).Some? ==> Depth(n) < Depth(k)
  {
    if k.Sub? && k.up != n {
      ViaDeepens(k.up, n);
    }
  }

  /** The nodes reached through entry i of n are Sub(n, i) and those below it. */
  lemma {:induction false} ViaChild(k: Node, n: Node, i: nat)
    ensures Via(k, n) == Some(i) <==> k == Sub(n, i) || Via(k, Sub(n, i)).Some?
  {
    if k.Sub? {
      if k.up == n {
        ViaDeepens(n, k);
        ViaDeepens(n, Sub(n, i));
        assert Via(n, Sub(n, i)).None?;
      } else {
        ViaChild(k.up, n, i);
      }
    }
  }

  /** Everything but the root is below the root. */
  lemma {:induction false} ViaRoot(k: Node)
    ensures Via(k, Root).Some? <==> k != Root
  {
    if k.Sub? && k.up != Root {
      ViaRoot(k.up);
    }
  }

  /** A place below n is reached through an entry whose child is a place. */
  lemma {:induction false} ViaPlace(root: nat, at: Places, d: nat, k: Node, n: Node)
    requires Shaped(root, at, d) && k in at && Via(k, n).Some?
    ensures Sub(n, Via(k, n).value) in at && n in at && Via(k, n).value < Width(n)
  {
    assert k == Sub(k.up, k.i);
    if k.up != n {
      ViaPlace(root, at, d, k.up, n);
    }
  }

  // ----- removing a place with nothing below it -----

  ghost function FreedChild(s: Phys, at: Places, n: Node, i: nat): Phys
    requires n in at && Sub(n, i) in at && at[n] < |s.mem| && s.mem[at[n]].Table? && i < 512
  {
    Phys(SetEntry(s.mem, at[n], i, ZERO_PTE), s.used - {at[Sub(n, i)]}, Credit(s.free, 1))
  }

  lemma FreeChild(s: Phys, root: nat, at: Places, n: Node, i: nat)
    requires OwnedTree(s, root, at, 4) && n in at && Depth(n) <= 3 && i < Width(n) && Sub(n, i) in at
    requires forall j: nat :: Sub(Sub(n, i), j) !in at
    ensures at[n] < |s.mem| && s.mem[at[n]].Table?
    ensures OwnedTree(FreedChild(s, at, n, i), root, at - {Sub(n, i)}, 4)
  {
    hide Shaped, Injective, HoldsTables, Linked, SetEntry, Entry;
    TableAt(s.mem, root, at, 4, n);
    FreeChildPlaces(s.used, root, at, n, i);
    FreeChildHolds(s.mem, root, at, n, i);
    RelinkedTree(s.mem, SetEntry(s.mem, at[n], i, ZERO_PTE), at, at - {Sub(n, i)}, 4, n, i, ZERO_PTE) by {
      FreeChildEntries(s.mem, root, at, n, i);
    }
  }

  lemma FreeChildPlaces(used: set<nat>, root: nat, at: Places, n: Node, i: nat)
    requires Shaped(root, at, 4) && Injective(at) && Sub(n, i) in at
    requires forall j: nat :: Sub(Sub(n, i), j) !in at
    requires forall k :: k in at ==> at[k] in used
    ensures Shaped(root, at - {Sub(n, i)}, 4) && Injective(at - {Sub(n, i)})
    ensures forall k :: k in at - {Sub(n, i)} ==> at[k] in used - {at[Sub(n, i)]}
  {
    var c := Sub(n, i);
    forall k, j: nat | Sub(k, j) in at - {c}
      ensures k in at - {c} && j < Width(k)
    {
      assert Sub(k, j) in at;
    }
  }

  lemma FreeChildHolds(m: Mem, root: nat, at: Places, n: Node, i: nat)
    requires Tree(m, root, at, 4) && n in at && Depth(n) <= 3 && i < Width(n)
    ensures at[n] < |m| && m[at[n]].Table?
    ensures HoldsTables(SetEntry(m, at[n], i, ZERO_PTE), at - {Sub(n, i)})
  {
    hide Shaped, Injective, Linked;
  }

  lemma FreeChildEntries(m: Mem, root: nat, at: Places, n: Node, i: nat)
    requires Tree(m, root, at, 4) && n in at && Depth(n) <= 3 && i < Width(n)
    ensures at[n] < |m| && m[at[n]].Table?
    ensures forall k, j: nat {:trigger Entry(SetEntry(m, at[n], i, ZERO_PTE), at[k], j)} :: k in at ==>
              Entry(SetEntry(m, at[n], i, ZERO_PTE), at[k], j) == if k == n && j == i then ZERO_PTE
                  else Entry(m, at[k], j)
  {
    hide Shaped, Linked, Entry, SetEntry;
  }

  /** The frames in use when those of `before` that are not in `after` are freed. */
  ghost function Without(used: set<nat>, before: set<nat>, after: set<nat>): set<nat> {
    used - (before - after)
  }

  ghost predicate SubPlaces(at': Places, at: Places) {
    forall k :: k in at' ==> k in at && at'[k] == at[k]
  }

  /** Places of at were given up; the frames of these, and no others, are free now
      and were counted once each. */
  ghost predicate GaveBack(s: Phys, at: Places, s': Phys, at': Places) {
    && SubPlaces(at', at)
    && s'.used == Without(s.used, at.Values, at'.Values)
    && s'.free == Credit(s.free, |at| - |at'|)
  }

  /** Only tables of the tree changed. */
  ghost predicate Shrinks(s: Phys, at: Places, s': Phys, at': Places) {
    GaveBack(s, at, s', at') && OnlyTables(s.mem, s'.mem, at)
  }

  lemma ShrinksByNothing(s: Phys, root: nat, at: Places)
    requires OwnedTree(s, root, at, 4) && 0 <= s.free < TWO_32
    ensures Shrinks(s, at, s, at)
  {
    hide Tree;
    CreditNothing(s.free);
    assert s.used == Without(s.used, at.Values, at.Values);
  }

  lemma ShrinksTransitive(s: Phys, at: Places, s1: Phys, at1: Places, s2: Phys, at2: Places)
    requires Shrinks(s, at, s1, at1) && Shrinks(s1, at1, s2, at2) && Injective(at)
    ensures Shrinks(s, at, s2, at2)
  {
    hide GaveBack, OnlyTables;
    GaveBackTransitive(s, at, s1, at1, s2, at2);
    ShrunkTables(s, at, s1, at1, s2);
  }

  lemma ShrunkTables(s: Phys, at: Places, s1: Phys, at1: Places, s2: Phys)
    requires GaveBack(s, at, s1, at1) && Injective(at)
    requires OnlyTables(s.mem, s1.mem, at) && OnlyTables(s1.mem, s2.mem, at1)
    ensures OnlyTables(s.mem, s2.mem, at)
  {
    forall f | 0 <= f < |s.mem| && f !in at.Values
      ensures s2.mem[f] == s.mem[f]
    {
      assert f !in at1.Values;
    }
    forall n | n in at && Depth(n) == 4 && at[n] < |s.mem|
      ensures s2.mem[at[n]] == s.mem[at[n]]
    {
      if at[n] in at1.Values {
        var k :| k in at1 && at1[k] == at[n];
        assert k == n;
      }
    }
  }

  lemma GaveBackTransitive(s: Phys, at: Places, s1: Phys, at1: Places, s2: Phys, at2: Places)
    requires GaveBack(s, at, s1, at1) && GaveBack(s1, at1, s2, at2)
    ensures GaveBack(s, at, s2, at2)
  {
    hide Credit, Without, SubPlaces;
    SubValues(at, at1);
    SubValues(at1, at2);
    SubPlacesTransitive(at2, at1, at);
    FreedInTwo(s.used, at.Values, at1.Values, at2.Values);
    CreditTwice(s.free, |at| - |at1|, |at1| - |at2|);
  }

  lemma SubValues(at: Places, at': Places)
    requires SubPlaces(at', at)
    ensures at'.Values <= at.Values
  {
  }

  lemma SubPlacesTransitive(a: Places, b: Places, c: Places)
    requires SubPlaces(a, b) && SubPlaces(b, c)
    ensures SubPlaces(a, c)
  {
  }

  lemma FreedInTwo(used: set<nat>, a: set<nat>, b: set<nat>, c: set<nat>)
    requires c <= b <= a
    ensures Without(Without(used, a, b), b, c) == Without(used, a, c)
  {
  }

  lemma FreeChildShrinks(s: Phys, root: nat, at: Places, n: Node, i: nat)
    requires OwnedTree(s, root, at, 4) && n in at && Depth(n) <= 3 && i < Width(n) && Sub(n, i) in at
    ensures at[n] < |s.mem| && s.mem[at[n]].Table?
    ensures Shrinks(s, at, FreedChild(s, at, n, i), at - {Sub(n, i)})
  {
    hide Tree, SetEntry, OnlyTables, GaveBack, Injective;
    TableAt(s.mem, root, at, 4, n);
    StoreOnlyTables(s.mem, root, at, 4, n, i);
    TreeInjects(s, root, at);
    GivesOne(s, SetEntry(s.mem, at[n], i, ZERO_PTE), at, Sub(n, i));
  }

  lemma TreeInjects(s: Phys, root: nat, at: Places)
    requires OwnedTree(s, root, at, 4)
    ensures Injective(at)
  {
  }

  lemma GivesOne(s: Phys, m': Mem, at: Places, c: Node)
    requires Injective(at) && c in at
    ensures GaveBack(s, at, Phys(m', s.used - {at[c]}, Credit(s.free, 1)), at - {c})
  {
    hide Injective, Credit, Without;
    WithoutOne(s.used, at, c);
  }

  lemma WithoutOne(used: set<nat>, at: Places, c: Node)
    requires Injective(at) && c in at
    ensures Without(used, at.Values, (at - {c}).Values) == used - {at[c]}
    ensures |at - {c}| == |at| - 1
  {
    var at' := at - {c};
    assert at'.Keys == at.Keys - {c};
    forall f
      ensures f in at.Values && f !in at'.Values <==> f == at[c]
    {
      if f in at.Values && f != at[c] {
        var k :| k in at && at[k] == f;
        assert k in at' && at'[k] == f;
      }
      if f in at'.Values {
        var k :| k in at' && at'[k] == f;
        assert k in at && k != c;
      }
    }
  }
}
