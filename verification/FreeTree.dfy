/** vmm_free_user_page_table (src/mm/vmm.c:189-236). The four nested loops do the
    same at every level but the last, so they are one recursive method. */
module FreeTree {
  import opened Wrappers
  import opened Words
  import opened PageTables
  import opened TreeSteps
  import opened Subtrees
  import opened Pmm
  import opened Vmm

  /** The tree of a process: it owns its tables and its pages, none of them frame 0 or
      the kernel's root table. */
  ghost predicate ProcessTree(m: Machine, root: nat, at: Places)
    reads m, m.pmm, m.pmm.bitmap
  {
    OwnedTree(m.State(), root, at, 4) && 0 !in at.Values && m.kernelRoot !in at.Values
  }

  /** The places left when those below n through entries before i are gone. */
  ghost predicate PrunedTo(at: Places, at': Places, n: Node, i: nat) {
    forall k :: k in at' <==> k in at && !(Via(k, n).Some? && Via(k, n).value < i)
  }

  lemma NothingVia(root: nat, at: Places, n: Node, i: nat)
    requires Shaped(root, at, 4) && Sub(n, i) !in at
    ensures forall k :: k in at ==> Via(k, n) != Some(i)
  {
    forall k | k in at && Via(k, n) == Some(i)
      ensures false
    {
      ViaPlace(root, at, 4, k, n);
    }
  }

  /** Entry i is absent: nothing is left to prune there. */
  lemma PruneAbsent(m: Mem, root: nat, at: Places, at': Places, n: Node, i: nat)
    requires Tree(m, root, at', 4) && PrunedTo(at, at', n, i) && n in at' && Depth(n) <= 3 && i < Width(n)
    requires !Entry(m, at'[n], i).flags.present
    ensures PrunedTo(at, at', n, i + 1)
  {
    hide Injective, HoldsTables;
    NothingVia(root, at', n, i);
  }

  lemma PrunePresent(at: Places, at1: Places, at2: Places, n: Node, i: nat)
    requires PrunedTo(at, at1, n, i)
    requires forall k :: k in at2 <==> k in at1 && Via(k, n) != Some(i)
    ensures PrunedTo(at, at2, n, i + 1)
  {
  }

  lemma GoneVia(at: Places, at2: Places, n: Node, i: nat)
    requires forall k :: k in at2 <==> k in at && Via(k, Sub(n, i)).None?
    ensures forall k :: k in at2 - {Sub(n, i)} <==> k in at && Via(k, n) != Some(i)
  {
    forall k
      ensures k in at2 - {Sub(n, i)} <==> k in at && Via(k, n) != Some(i)
    {
      ViaChild(k, n, i);
    }
  }

  lemma NoChildren(at1: Places, at2: Places, n: Node)
    requires forall k :: k in at2 <==> k in at1 && Via(k, n).None?
    ensures forall j: nat :: Sub(n, j) !in at2
  {
  }

  lemma NothingBelowPage(root: nat, at: Places, n: Node)
    requires Shaped(root, at, 4) && Depth(n) == 4
    ensures forall k :: k in at ==> Via(k, n).None?
  {
    forall k | k in at
      ensures Via(k, n).None?
    {
      ViaDeepens(k, n);
    }
  }

  lemma RootDepth(n: Node)
    ensures Depth(n) == 0 <==> n == Root
  {
  }

  lemma StartPruning(s: Phys, root: nat, at: Places, n: Node)
    requires OwnedTree(s, root, at, 4) && 0 <= s.free < TWO_32
    ensures Shrinks(s, at, s, at) && PrunedTo(at, at, n, 0) && Injective(at) && SubPlaces(at, at) && Shaped(root, at, 4)
  {
    hide Shrinks;
    ShrinksByNothing(s, root, at);
  }

  lemma PrunedAll(root: nat, at: Places, at': Places, n: Node)
    requires Shaped(root, at, 4) && PrunedTo(at, at', n, Width(n))
    ensures forall k :: k in at' <==> k in at && Via(k, n).None?
  {
    forall k | k in at && Via(k, n).Some?
      ensures Via(k, n).value < Width(n)
    {
      ViaPlace(root, at, 4, k, n);
    }
  }

  lemma Survivors(s1: Phys, at1: Places, s2: Phys, at2: Places, n: Node, i: nat)
    requires Shrinks(s1, at1, s2, at2) && n in at1 && Sub(n, i) in at1
    requires forall k :: k in at2 <==> k in at1 && Via(k, Sub(n, i)).None?
    ensures n in at2 && at2[n] == at1[n] && Sub(n, i) in at2 && at2[Sub(n, i)] == at1[Sub(n, i)]
  {
    ViaDeepens(n, Sub(n, i));
    ViaDeepens(Sub(n, i), Sub(n, i));
  }

  lemma ValuesShrink(at: Places, c: Node)
    ensures (at - {c}).Values <= at.Values
  {
  }

  /** Freeing the child at entry i, when all below it is gone. */
  lemma FreeOne(s: Phys, root: nat, at1: Places, at2: Places, n: Node, i: nat)
    requires OwnedTree(s, root, at2, 4) && n in at2 && Depth(n) <= 3 && i < Width(n) && Sub(n, i) in at2
    requires forall k :: k in at2 <==> k in at1 && Via(k, Sub(n, i)).None?
    ensures at2[n] < |s.mem| && s.mem[at2[n]].Table?
    ensures OwnedTree(FreedChild(s, at2, n, i), root, at2 - {Sub(n, i)}, 4)
    ensures Shrinks(s, at2, FreedChild(s, at2, n, i), at2 - {Sub(n, i)})
    ensures at2[Sub(n, i)] < |s.mem| && at2[Sub(n, i)] in at2.Values
    ensures (at2 - {Sub(n, i)}).Values <= at2.Values
  {
    hide Tree, Shrinks, FreedChild;
    NoChildren(at1, at2, Sub(n, i));
    FreeChild(s, root, at2, n, i);
    FreeChildShrinks(s, root, at2, n, i);
    PlaceBound(s.mem, root, at2, Sub(n, i));
    ValuesShrink(at2, Sub(n, i));
  }

  lemma PlaceBound(m: Mem, root: nat, at: Places, n: Node)
    requires Tree(m, root, at, 4) && n in at
    ensures at[n] < |m| && at[n] in at.Values
  {
  }

  /** The loop over the entries of the table f at place n, and all that is below it.
      `level` is 4 for the root and 1 for a table of pages. */
  method FreeBelow(m: Machine, level: nat, f: nat, ghost root: nat, ghost at: Places, ghost n: Node)
    returns (ghost at': Places)
    requires m.Valid() && ProcessTree(m, root, at)
    requires n in at && at[n] == f && 1 <= level && level + Depth(n) == 4
    modifies m`mem, m.pmm`freeMem, m.pmm.bitmap
    ensures m.Valid() && ProcessTree(m, root, at')
    ensures Shrinks(old(m.State()), at, m.State(), at')
    ensures forall k :: k in at' <==> k in at && Via(k, n).None?
    decreases level, 1
  {
    hide Tree, Shaped, Injective, Owned, OnlyTables, SubPlaces, Via, PrunedTo;
    at' := at;
    StartPruning(m.State(), root, at, n);
    var width := if level == 4 then 256 else 512;
    RootDepth(n);
    for i := 0 to width
      invariant m.Valid() && ProcessTree(m, root, at')
      invariant Shrinks(old(m.State()), at, m.State(), at')
      invariant PrunedTo(at, at', n, i)
      invariant n in at' && at'[n] == f
    {
      TableAt(m.mem, root, at', 4, n);
      var e := m.mem[f].e[i];
      if e.flags.present {
        label Before:
        ghost var at1 := at';
        at' := FreeEntry(m, level, f, i, root, at', n);
        ShrinksTransitive(old(m.State()), at, old@Before(m.State()), at1, m.State(), at');
        PrunePresent(at, at1, at', n, i);
      } else {
        PruneAbsent(m.mem, root, at, at', n, i);
      }
    }
    PrunedAll(root, at, at', n);
  }

  /** One pass of the loop: everything below a present entry, its frame, the entry. */
  method FreeEntry(m: Machine, level: nat, f: nat, i: nat, ghost root: nat, ghost at: Places, ghost n: Node)
    returns (ghost at': Places)
    requires m.Valid() && ProcessTree(m, root, at)
    requires n in at && at[n] == f && 1 <= level && level + Depth(n) == 4
    requires i < Width(n) && Sub(n, i) in at
    modifies m`mem, m.pmm`freeMem, m.pmm.bitmap
    ensures m.Valid() && ProcessTree(m, root, at')
    ensures Shrinks(old(m.State()), at, m.State(), at')
    ensures n in at' && at'[n] == f
    ensures forall k :: k in at' <==> k in at && Via(k, n) != Some(i)
    decreases level, 0
  {
    hide Tree, Shaped, Injective, Owned, Shrinks, Entry, SetEntry, Credit, Via, Run;
    TableAt(m.mem, root, at, 4, n);
    StartPruning(m.State(), root, at, n);
    var e := m.mem[f].e[i];
    at' := at;
    if level > 1 {
      at' := FreeBelow(m, level - 1, e.frame, root, at, Sub(n, i));
    } else {
      NothingBelowPage(root, at, Sub(n, i));
    }
    label Emptied:
    ghost var at2 := at';
    Survivors(old(m.State()), at, m.State(), at2, n, i);
    FreeOne(m.State(), root, at, at2, n, i);
    m.pmm.FreePages(e.frame, 1);
    m.mem := SetEntry(m.mem, f, i, ZERO_PTE);
    assert Run(e.frame, 1) == {e.frame};
    assert m.State() == FreedChild(old@Emptied(m.State()), at2, n, i);
    at' := at2 - {Sub(n, i)};
    ShrinksTransitive(old(m.State()), at, old@Emptied(m.State()), at2, m.State(), at');
    GoneVia(at, at2, n, i);
  }

  lemma {:induction false} CountFrames(at: Places)
    requires Injective(at)
    ensures |at.Values| == |at|
    decreases |at|
  {
    if |at| > 0 {
      var c :| c in at;
      WithoutOne(at.Values, at, c);
      assert (at - {c}).Values == at.Values - {at[c]} by {
        ValuesShrink(at, c);
      }
      CountFrames(at - {c});
    }
  }

  lemma OnlyRoot(root: nat, at: Places, at1: Places)
    requires Shaped(root, at, 4) && Shaped(root, at1, 4)
    requires forall k :: k in at1 <==> k in at && Via(k, Root).None?
    ensures at1 == map[Root := root] && root in at.Values
  {
    forall k | k in at
      ensures Via(k, Root).None? <==> k == Root
    {
      ViaRoot(k);
    }
    assert at[Root] == root;
  }

  lemma OnlyRootLeft(s: Phys, root: nat, at: Places, s1: Phys, at1: Places)
    requires Shrinks(s, at, s1, at1) && OwnedTree(s, root, at, 4) && OwnedTree(s1, root, at1, 4)
    requires forall k :: k in at1 <==> k in at && Via(k, Root).None?
    ensures at1 == map[Root := root] && root in at.Values
    ensures s1.used - {root} == s.used - at.Values
    ensures Credit(s1.free, 1) == Credit(s.free, |at.Values|)
  {
    hide Shaped, Injective, HoldsTables, Linked, OnlyTables, Credit, Via, Owned;
    OnlyRoot(root, at, at1);
    assert at1.Values == {root};
    CountFrames(at);
    CreditTwice(s.free, |at| - 1, 1);
    assert |at1| == 1;
  }

  /** vmm_free_user_page_table gives back exactly the tree, each frame once. */
  method FreeUserPageTable(m: Machine, root: nat, ghost at: Places)
    requires m.Valid()
    requires root != 0 && root != m.kernelRoot ==> ProcessTree(m, root, at)
    modifies m`mem, m.pmm`freeMem, m.pmm.bitmap
    ensures m.Valid()
    ensures root == 0 || root == m.kernelRoot ==> m.State() == old(m.State())
    ensures root != 0 && root != m.kernelRoot ==>
              && m.pmm.Used() == old(m.pmm.Used()) - at.Values
              && m.pmm.freeMem == Credit(old(m.pmm.freeMem), |at.Values|)
              && |m.mem| == old(|m.mem|)
              && (forall f :: 0 <= f < |m.mem| && f !in at.Values ==> m.mem[f] == old(m.mem[f]))
  {
    hide Tree, Owned, GaveBack, Credit, Via, Run;
    if root == 0 || root == m.kernelRoot { return; }
    RootPlace(m.mem, root, at, 4);
    ghost var at1 := FreeBelow(m, 4, root, root, at, Root);
    OnlyRootLeft(old(m.State()), root, at, m.State(), at1);
    RootPlace(m.mem, root, at1, 4);
    m.pmm.FreePages(root, 1);
    assert Run(root, 1) == {root};
  }
}
