/** The program break (src/arch/x86_64/syscall/mem.c:92-185). */
module Brk {
  import opened Wrappers
  import opened Words
  import opened PageTables
  import opened TreeSteps
  import opened Subtrees
  import opened CloneSteps
  import opened FreeTree
  import opened HeapWindow
  import opened Needs
  import opened Pmm
  import opened Vmm

  const ENOMEM := 12
  const ESRCH := 3
  const USER_HEAP_FALLBACK: nat := 0x100_0000
  const USER_TOP: nat := 0x8000_0000_0000

  /** prot_to_flags(PROT_READ | PROT_WRITE): present, writable, user, and bit 63. */
  const HEAP_FLAGS := Flags(true, true, true, 0, 0x800)

  // ----- taking pages out -----

  /** Unmap the page of v, if mapped, and give its frame back. */
  method UnmapOne(m: Machine, root: nat, v: nat, ghost at: Places) returns (ghost at': Places)
    requires m.Valid() && ProcessTree(m, root, at) && UserAddr(v)
    modifies m`mem, m.pmm`freeMem, m.pmm.bitmap
    ensures m.Valid() && ProcessTree(m, root, at') && at' == at - {Leaf(v)}
    ensures Shrinks(old(m.State()), at, m.State(), at')
    ensures if Leaf(v) in at then Remapped(old(m.mem), m.mem, root, Leaf(v), ZERO_PTE) else m.mem == old(m.mem)
    ensures KeepsPaths(old(m.mem), m.mem, root)
  {
    hide Tree, Owned, Shrinks, Entry, Leaf, UserAddr, Credit, Run, Remapped, Grows, KeepsPaths;
    ghost var s := m.State();
    ShrinksByNothing(s, root, at);
    TranslateInTree(m.mem, root, at, v);
    var phys;
    phys, at' := m.UnmapPageIn(root, v, at, 4);
    if Leaf(v) in at {
      OwnedPage(s, root, at, Leaf(v));
      TakenPage(s, m.State(), root, at, Leaf(v));
    } else {
      assert at - {Leaf(v)} == at;
    }
    if phys != 0 {
      m.pmm.FreePages(phys, 1);
      assert Run(phys, 1) == {phys};
    }
  }

  lemma OwnedPage(s: Phys, root: nat, at: Places, leaf: Node)
    requires OwnedTree(s, root, at, 4) && leaf in at
    ensures at[leaf] < |s.mem| && at[leaf] in s.used && at[leaf] in at.Values
    ensures (at - {leaf}).Values <= at.Values
  {
  }

  /** After unmapping, freeing the frame leaves a tree that shrank by one place. */
  lemma TakenPage(s: Phys, s1: Phys, root: nat, at: Places, leaf: Node)
    requires OwnedTree(s, root, at, 4) && Grows(s, at, s1, at) && leaf in at && 0 <= s.free < TWO_32
    requires OwnedTree(s1, root, at - {leaf}, 4)
    ensures var s2 := Phys(s1.mem, s1.used - {at[leaf]}, Credit(s1.free, 1));
            OwnedTree(s2, root, at - {leaf}, 4) && Shrinks(s, at, s2, at - {leaf})
  {
    hide Shaped, HoldsTables, Linked, MorePlaces, OnlyTables, Credit, Injective, Without;
    WithoutOne(s.used, at, leaf);
    CreditNothing(s.free);
    UsedSame(s, s1, at);
    FrameGone(s, root, at, leaf);
  }

  lemma UsedSame(s: Phys, s1: Phys, at: Places)
    requires Owned(s, at) && Charged(s, s1, at, 0) && 0 <= s.free < TWO_32
    ensures s1.used == s.used && s1.free == s.free
  {
    CreditNothing(s.free);
  }

  lemma FrameGone(s: Phys, root: nat, at: Places, leaf: Node)
    requires Tree(s.mem, root, at, 4) && leaf in at
    ensures forall k :: k in at - {leaf} ==> at[k] != at[leaf]
  {
    hide Shaped, HoldsTables, Linked;
  }

  /** Pages [lo, hi) are not mapped; every other address has the entry it had, and the ways that were
      open are open. */
  ghost predicate Cleared(m0: Mem, m: Mem, root: nat, lo: nat, hi: nat) {
    && KeepsPaths(m0, m, root)
    && forall w: nat :: UserAddr(w) ==>
         if lo <= w / 4096 < hi then Translate(m, root, w) == None else GetPte(m, root, w) == GetPte(m0, root, w)
  }

  /** What the tree lost are pages of [lo, hi). */
  ghost predicate LostOnly(at: Places, at': Places, lo: nat, hi: nat) {
    forall k :: k in at && k !in at' ==> Depth(k) == 4 && lo <= PageOf(k) < hi
  }

  lemma ClearedNothing(m: Mem, root: nat, at: Places, lo: nat)
    ensures Cleared(m, m, root, lo, lo) && LostOnly(at, at, lo, lo)
  {
    hide GetPte, UserPath;
  }

  lemma ClearedMore(m0: Mem, m1: Mem, m2: Mem, root: nat, at1: Places, lo: nat, hi: nat, v: nat)
    requires Cleared(m0, m1, root, lo, hi) && Tree(m1, root, at1, 4)
    requires UserAddr(v) && v / 4096 == hi && lo <= hi
    requires if Leaf(v) in at1 then Remapped(m1, m2, root, Leaf(v), ZERO_PTE) else m2 == m1
    requires KeepsPaths(m1, m2, root)
    ensures Cleared(m0, m2, root, lo, hi + 1)
  {
    hide Tree, GetPte, Leaf, KeepsPaths;
    PathsTwice(m0, m1, m2, root);
    forall w: nat | UserAddr(w)
      ensures if lo <= w / 4096 < hi + 1 then Translate(m2, root, w) == None
              else GetPte(m2, root, w) == GetPte(m0, root, w)
    {
      LeafSamePage(w, v);
      TranslateInTree(m1, root, at1, w);
    }
  }

  lemma LostMore(at: Places, at1: Places, lo: nat, hi: nat, v: nat)
    requires LostOnly(at, at1, lo, hi) && UserAddr(v) && v / 4096 == hi && lo <= hi
    ensures LostOnly(at, at1 - {Leaf(v)}, lo, hi + 1)
  {
    PageOfLeaf(v);
    hide PageOf;
  }

  /** unmap_pages */
  method UnmapPages(m: Machine, root: nat, v: nat, n: nat, ghost at: Places) returns (ghost at': Places)
    requires m.Valid() && ProcessTree(m, root, at) && v + 4096 * n <= USER_TOP
    modifies m`mem, m.pmm`freeMem, m.pmm.bitmap
    ensures m.Valid() && ProcessTree(m, root, at')
    ensures Shrinks(old(m.State()), at, m.State(), at')
    ensures LostOnly(at, at', v / 4096, v / 4096 + n)
    ensures Cleared(old(m.mem), m.mem, root, v / 4096, v / 4096 + n)
  {
    hide Tree, Owned, Shrinks, Leaf, Remapped, LostOnly, Cleared, KeepsPaths;
    at' := at;
    StartPruning(m.State(), root, at, Root);
    ClearedNothing(m.mem, root, at, v / 4096);
    for i := 0 to n
      invariant m.Valid() && ProcessTree(m, root, at')
      invariant Shrinks(old(m.State()), at, m.State(), at')
      invariant LostOnly(at, at', v / 4096, v / 4096 + i)
      invariant Cleared(old(m.mem), m.mem, root, v / 4096, v / 4096 + i)
    {
      label Before:
      ghost var at1 := at';
      var w := v + i * 4096;
      at' := UnmapOne(m, root, w, at1);
      ShrinksTransitive(old(m.State()), at, old@Before(m.State()), at1, m.State(), at');
      LostMore(at, at1, v / 4096, v / 4096 + i, w);
      ClearedMore(old(m.mem), old@Before(m.mem), m.mem, root, at1, v / 4096, v / 4096 + i, w);
    }
  }

  // ----- putting pages in -----

  /** The rollback of map_pages: the first n pages from v, all new, are given back. */
  method RollBack(m: Machine, root: nat, v: nat, n: nat, flags: Flags, ghost s: Phys, ghost at: Places,
      ghost at1: Places)
    returns (ghost at': Places)
    requires m.Valid() && ProcessTree(m, root, at1) && v + 4096 * n <= USER_TOP && flags.present
    requires OwnedTree(s, root, at, 4) && Extends(s, at, m.State(), at1)
    requires NewOnly(at, at1, v / 4096, v / 4096 + n) && Mapped(s.mem, m.mem, root, v / 4096, v / 4096 + n, flags)
    requires Unmapped(s.mem, root, v / 4096, v / 4096 + n)
    modifies m`mem, m.pmm`freeMem, m.pmm.bitmap
    ensures m.Valid() && ProcessTree(m, root, at')
    ensures Extends(s, at, m.State(), at')
    ensures NewOnly(at, at', v / 4096 + n, v / 4096 + n)
    ensures Mapped(s.mem, m.mem, root, v / 4096 + n, v / 4096 + n, flags)
  {
    hide Tree, Owned, Shrinks, Leaf, Remapped, Extends, NewOnly, Mapped, Unmapped, KeepsPaths;
    at' := at1;
    ghost var lo := v / 4096;
    for i := 0 to n
      invariant m.Valid() && ProcessTree(m, root, at')
      invariant Extends(s, at, m.State(), at')
      invariant NewOnly(at, at', lo + i, lo + n) && Mapped(s.mem, m.mem, root, lo + i, lo + n, flags)
      invariant Unmapped(s.mem, root, lo + i, lo + n)
    {
      label Before:
      ghost var at2 := at';
      var w := v + i * 4096;
      at' := UnmapOne(m, root, w, at2);
      RolledBack(s, root, at, old@Before(m.State()), at2, m.State(), lo + i, lo + n, flags, w);
    }
  }

  /** One page of the window went back. */
  lemma RolledBack(s: Phys, root: nat, at: Places, s1: Phys, at1: Places, s2: Phys, lo: nat, hi: nat, flags: Flags,
      w: nat)
    requires OwnedTree(s, root, at, 4) && OwnedTree(s1, root, at1, 4) && Extends(s, at, s1, at1) && flags.present
    requires NewOnly(at, at1, lo, hi) && Mapped(s.mem, s1.mem, root, lo, hi, flags) && Unmapped(s.mem, root, lo, hi)
    requires UserAddr(w) && w / 4096 == lo < hi
    requires Shrinks(s1, at1, s2, at1 - {Leaf(w)})
    requires if Leaf(w) in at1 then Remapped(s1.mem, s2.mem, root, Leaf(w), ZERO_PTE) else s2.mem == s1.mem
    requires KeepsPaths(s1.mem, s2.mem, root)
    ensures var at2 := at1 - {Leaf(w)};
            Extends(s, at, s2, at2) && NewOnly(at, at2, lo + 1, hi)
            && Mapped(s.mem, s2.mem, root, lo + 1, hi, flags) && Unmapped(s.mem, root, lo + 1, hi)
  {
    hide Tree, Owned, Shrinks, Leaf, Remapped, Extends, NewOnly, Mapped, Unmapped, Injective, Shaped, KeepsPaths;
    MappedIsPlace(s, root, at, s1, at1, lo, hi, flags, w);
    TreeInjective(s1, root, at1);
    ExtendsLess(s, at, s1, at1, s2, Leaf(w));
    ShrinksTables(s1, at1, s2, at1 - {Leaf(w)});
    MappedLess(s.mem, s1, s2.mem, root, at1, lo, hi, flags, w);
    NewLess(s, root, at, at1, lo, hi, w);
  }

  lemma ShrinksTables(s: Phys, at: Places, s': Phys, at': Places)
    requires Shrinks(s, at, s', at')
    ensures OnlyTables(s.mem, s'.mem, at)
  {
  }

  lemma TreeInjective(s: Phys, root: nat, at: Places)
    requires OwnedTree(s, root, at, 4)
    ensures Injective(at) && Owned(s, at) && Shaped(root, at, 4)
  {
  }

  /** A page of the window is at a place that is new. */
  lemma MappedIsPlace(s: Phys, root: nat, at: Places, s1: Phys, at1: Places, lo: nat, hi: nat, flags: Flags, w: nat)
    requires OwnedTree(s, root, at, 4) && OwnedTree(s1, root, at1, 4) && flags.present
    requires Mapped(s.mem, s1.mem, root, lo, hi, flags) && Unmapped(s.mem, root, lo, hi)
    requires UserAddr(w) && lo <= w / 4096 < hi
    ensures Leaf(w) in at1 && Leaf(w) !in at && Owned(s, at)
  {
    hide Tree, GetPte, Leaf;
    assert MappedAt(s.mem, s1.mem, root, lo, hi, flags, w);
    TranslateInTree(s.mem, root, at, w);
    TranslateInTree(s1.mem, root, at1, w);
  }

  /** A place of depth 4 is that of every address on its page. */
  lemma PlaceOfPage(root: nat, at: Places, k: Node, w: nat)
    requires Shaped(root, at, 4) && k in at && Depth(k) == 4 && UserAddr(w) && PageOf(k) == w / 4096
    ensures k == Leaf(w)
  {
    var n1, n2, n3 := k.up, k.up.up, k.up.up.up;
    assert k == Sub(n1, k.i) && n1 == Sub(n2, n1.i) && n2 == Sub(n3, n2.i) && n3 == Sub(Root, n3.i);
    IndicesOfPage(w);
    SameIndices(n3.i, n2.i, n1.i, k.i, w / 4096);
  }

  lemma SameIndices(i4: nat, i3: nat, i2: nat, i1: nat, p: nat)
    requires i3 < 512 && i2 < 512 && i1 < 512 && p == ((i4 * 512 + i3) * 512 + i2) * 512 + i1
    ensures p % 512 == i1 && p / 512 % 512 == i2 && p / 512 / 512 % 512 == i3 && p / 512 / 512 / 512 == i4
  {
    assert p / 512 == (i4 * 512 + i3) * 512 + i2;
    assert p / 512 / 512 == i4 * 512 + i3;
  }

  lemma NewLess(s: Phys, root: nat, at: Places, at1: Places, lo: nat, hi: nat, w: nat)
    requires NewOnly(at, at1, lo, hi) && UserAddr(w) && w / 4096 == lo < hi && Shaped(root, at1, 4)
    requires Unmapped(s.mem, root, lo, hi)
    ensures NewOnly(at, at1 - {Leaf(w)}, lo + 1, hi) && Unmapped(s.mem, root, lo + 1, hi)
  {
    hide PageOf, Translate, Leaf;
    forall k | k in at1 - {Leaf(w)} && k !in at
      ensures Depth(k) <= 3 || lo + 1 <= PageOf(k) < hi
    {
      if Depth(k) == 4 && PageOf(k) == lo {
        PlaceOfPage(root, at1, k, w);
      }
    }
  }

  /** New places are tables, or the place of w. */
  ghost predicate NewTablesOr(at: Places, at': Places, leaf: Node) {
    forall k :: k in at' && k !in at ==> Depth(k) <= 3 || k == leaf
  }

  /** The second half of a pass: the frame t, fresh and zeroed, is mapped at w or given back. */
  method MapAt(m: Machine, root: nat, w: nat, t: nat, flags: Flags, ghost at: Places, ghost s: Phys)
    returns (ok: bool, ghost at': Places)
    requires m.Valid() && 0 < t < |s.mem| && t !in s.used && m.State() == ZeroedFrame(s, t)
    requires OwnedTree(s, root, at, 4) && 0 !in at.Values && m.kernelRoot !in at.Values && 0 <= s.free < TWO_32
    requires 0 in s.used && m.kernelRoot in s.used && m.pmm.maxPages in s.used
    requires UserAddr(w) && Leaf(w) !in at && flags.present
    modifies m`mem, m.pmm`freeMem, m.pmm.bitmap
    ensures m.Valid() && ProcessTree(m, root, at')
    ensures Extends(s, at, m.State(), at') && NewTablesOr(at, at', Leaf(w))
    ensures ok ==> w != 0 && Leaf(w) in at' && at'[Leaf(w)] == t && t < |m.mem| && m.mem[t] == ZeroData()
    ensures ok ==> Remapped(s.mem, m.mem, root, Leaf(w), Pte(flags, t)) && at'.Keys == at.Keys + PathTo(w)
    ensures !ok ==> Leaf(w) !in at' && SameGetPte(s.mem, m.mem, root) && at'.Keys <= at.Keys + PathTo(w)
    ensures !ok && w != 0 ==> |FreeFrames(m.pmm.Used(), m.pmm.maxPages)| < |PathTo(w) - at'.Keys|
    ensures KeepsPaths(s.mem, m.mem, root) && (ok && flags.user ==> UserPath(m.mem, root, w))
  {
    hide Tree, Owned, Grows, Leaf, UserAddr, Credit, Run, Remapped, SameGetPte, Extends, NewTablesOr, PathTo,
      FreeFrames, TablesTo, KeepsPaths, UserPath;
    ZeroedTree(s, root, at, t);
    ghost var m1 := m.mem;
    var rc; ghost var grown;
    rc, grown, at' := m.MapPageIn(root, w, t, flags, at, 4);
    ghost var s2 := m.State();
    PathsTwice(s.mem, m1, m.mem, root);
    FreshPlaces(s, at, t, s2, grown, Leaf(w));
    if rc == 0 {
      AddedPage(s, at, t, s2, grown, Leaf(w));
      RemappedAfter(s.mem, m1, m.mem, root, Leaf(w), Pte(flags, t));
      PathThere(ZeroedFrame(s, t), at, s2, grown, w, t);
      return true, at';
    }
    assert Run(t, 1) == {t};
    m.pmm.FreePages(t, 1);
    FailedPage(s, at, t, s2, grown, m.State());
    SameGetPteTransitive(s.mem, m1, m.mem, root);
    FailedOwned(s, at, s2, root, grown, t);
    TablesOnPath(at, grown, w);
    if w != 0 {
      LastFrame(m.pmm.Used(), m.pmm.maxPages, t, grown, w);
    }
    ok := false;
  }

  /** One pass of map_pages: a fresh zeroed frame mapped at w. */
  method MapFresh(m: Machine, root: nat, w: nat, flags: Flags, ghost at: Places) returns (ok: bool, t: nat,
      ghost at': Places)
    requires m.Valid() && ProcessTree(m, root, at) && UserAddr(w) && Leaf(w) !in at && flags.present
    modifies m`mem, m.pmm`freeMem, m.pmm.bitmap
    ensures m.Valid() && ProcessTree(m, root, at')
    ensures Extends(old(m.State()), at, m.State(), at') && NewTablesOr(at, at', Leaf(w))
    ensures ok ==> w != 0 && Leaf(w) in at' && at'[Leaf(w)] == t && t < |m.mem| && m.mem[at'[Leaf(w)]] == ZeroData()
    ensures ok ==> Remapped(old(m.mem), m.mem, root, Leaf(w), Pte(flags, at'[Leaf(w)]))
    ensures ok ==> at'.Keys == at.Keys + PathTo(w)
    ensures !ok ==> Leaf(w) !in at' && SameGetPte(old(m.mem), m.mem, root) && at'.Keys <= at.Keys + PathTo(w)
    ensures !ok && w != 0 ==> |FreeFrames(m.pmm.Used(), m.pmm.maxPages)| < |PathTo(w) - at'.Keys|
    ensures KeepsPaths(old(m.mem), m.mem, root) && (ok && flags.user ==> UserPath(m.mem, root, w))
  {
    hide Tree, Owned, Leaf, UserAddr, Credit, Run, Remapped, SameGetPte, Extends, NewTablesOr, PathTo, FreeFrames,
      TablesTo, KeepsPaths, UserPath;
    PathsSame(m.mem, root);
    ghost var s := m.State();
    FreshStart(s, root, at, Leaf(w));
    var page := m.pmm.Pmalloc(1);
    if page.None? {
      OneFrameFree(old(m.pmm.Used()), m.pmm.maxPages);
      NoFrame(m.pmm.Used(), m.pmm.maxPages, at, w);
      return false, 0, at;
    }
    t := page.value;
    assert Run(t, 1) == {t};
    m.mem := m.mem[t := ZeroData()];
    assert m.State() == ZeroedFrame(s, t);
    ok, at' := MapAt(m, root, w, t, flags, at, s);
  }

  /** Without a free frame, the page itself is one place too many. */
  lemma NoFrame(used: set<nat>, maxPages: nat, at: Places, w: nat)
    requires (forall f: nat :: f < maxPages ==> f in used) && Leaf(w) !in at
    ensures at.Keys <= at.Keys + PathTo(w) && |FreeFrames(used, maxPages)| < |PathTo(w) - at.Keys|
  {
    hide Leaf, TablesTo;
    assert FreeFrames(used, maxPages) == {};
    assert Leaf(w) in PathTo(w) - at.Keys;
  }

  /** With the one frame that was meant for the page, a table and the page are. */
  lemma LastFrame(used: set<nat>, maxPages: nat, t: nat, at: Places, w: nat)
    requires (forall f: nat :: f < maxPages && f != t ==> f in used) && Leaf(w) !in at && !(TablesTo(w) <= at.Keys)
    ensures |FreeFrames(used, maxPages)| < |PathTo(w) - at.Keys|
  {
    LeafNoTable(w);
    hide Leaf, TablesTo;
    var n :| n in TablesTo(w) && n !in at.Keys;
    SizeOfSubset(FreeFrames(used, maxPages), {t});
    var two := {n, Leaf(w)};
    assert two <= PathTo(w) - at.Keys;
    assert PathTo(w) - at.Keys == two + (PathTo(w) - at.Keys - two);
  }

  lemma LeafNoTable(w: nat)
    ensures Leaf(w) !in TablesTo(w)
  {
    forall n | n in TablesTo(w) ensures Depth(n) < 4 {
    }
  }

  lemma PathThere(s: Phys, at: Places, s': Phys, grown: Places, w: nat, t: nat)
    requires TablesTo(w) <= grown.Keys <= at.Keys + TablesTo(w) && Grows(s, at, s', grown)
    ensures grown[Leaf(w) := t].Keys == at.Keys + PathTo(w)
  {
    hide Leaf, TablesTo, Charged, OnlyTables;
  }

  lemma TablesOnPath(at: Places, grown: Places, w: nat)
    requires grown.Keys <= at.Keys + TablesTo(w)
    ensures grown.Keys <= at.Keys + PathTo(w)
  {
    hide Leaf, TablesTo;
  }

  lemma PathsSame(m: Mem, root: nat)
    ensures KeepsPaths(m, m, root)
  {
  }

  lemma FreshStart(s: Phys, root: nat, at: Places, leaf: Node)
    requires OwnedTree(s, root, at, 4) && 0 <= s.free < TWO_32
    ensures Extends(s, at, s, at) && NewTablesOr(at, at, leaf) && SameGetPte(s.mem, s.mem, root) && Owned(s, at)
  {
    hide Tree, GetPte, Extends;
    ExtendsNothing(s, root, at);
  }

  lemma FreshPlaces(s: Phys, at: Places, t: nat, s2: Phys, grown: Places, leaf: Node)
    requires t < |s.mem| && t !in s.used && Owned(s, at) && leaf !in at && Depth(leaf) == 4
    requires Grows(ZeroedFrame(s, t), at, s2, grown)
    ensures NewTablesOr(at, grown[leaf := t], leaf) && NewTablesOr(at, grown, leaf) && leaf !in grown
    ensures forall f :: f in grown[leaf := t].Values ==> f == t || f in at.Values || f !in s.used
    ensures forall f :: f in grown.Values ==> f in at.Values || f !in s.used
  {
    hide Charged, OnlyTables, Owned;
  }

  lemma FailedOwned(s: Phys, at: Places, s2: Phys, root: nat, grown: Places, t: nat)
    requires t < |s.mem| && t !in s.used && Owned(s, at)
    requires Grows(ZeroedFrame(s, t), at, s2, grown) && OwnedTree(s2, root, grown, 4)
    ensures OwnedTree(Phys(s2.mem, s2.used - {t}, Credit(s2.free, 1)), root, grown, 4)
  {
    hide Tree, Charged, Credit;
    NotInGrown(s, at, t, s2, grown);
  }

  // ----- map_pages -----

  /** map_pages: n zeroed pages from v, or -ENOMEM with the translation unchanged. It succeeds exactly
      when frames are free for the pages and the tables that are missing. */
  method MapPages(m: Machine, root: nat, v: nat, n: nat, flags: Flags, ghost at: Places) returns (rc: int,
      ghost at': Places)
    requires m.Valid() && ProcessTree(m, root, at) && v + 4096 * n <= USER_TOP && flags.present
    requires Unmapped(m.mem, root, v / 4096, v / 4096 + n)
    modifies m`mem, m.pmm`freeMem, m.pmm.bitmap
    ensures m.Valid() && ProcessTree(m, root, at')
    ensures Extends(old(m.State()), at, m.State(), at')
    ensures rc == 0 || rc == -ENOMEM
    ensures rc == 0 ==> NewOnly(at, at', v / 4096, v / 4096 + n)
    ensures rc == 0 ==> Mapped(old(m.mem), m.mem, root, v / 4096, v / 4096 + n, flags)
    ensures rc != 0 ==> NewOnly(at, at', 0, 0) && Mapped(old(m.mem), m.mem, root, 0, 0, flags)
    ensures rc == 0 <==>
              (n == 0 || v != 0)
              && |FreeFrames(old(m.pmm.Used()), m.pmm.maxPages)| >= Needed(PageRange(v / 4096, n), at)
  {
    hide Tree, Owned, Extends, NewOnly, Mapped, Unmapped, Reached, FreeFrames, Needed, PageRange;
    ghost var s := m.State();
    ghost var lo := v / 4096;
    at' := at;
    StartMapping(s, root, at, lo, flags);
    RangeStarts(lo, at);
    for i := 0 to n
      invariant m.Valid() && ProcessTree(m, root, at')
      invariant Extends(s, at, m.State(), at') && Reached(at, at', PageRange(lo, i)) && (i > 0 ==> v != 0)
      invariant NewOnly(at, at', lo, lo + i) && Mapped(s.mem, m.mem, root, lo, lo + i, flags)
    {
      var ok;
      ok, at' := MapNext(m, root, v, i, n, flags, s, at, at');
      if !ok {
        return -ENOMEM, at';
      }
    }
    FramesSufficed(s, root, at, m.State(), at', PageRange(lo, n), m.pmm.maxPages);
    rc := 0;
  }

  /** One turn of the loop of map_pages; if it fails, the pages mapped so far are taken back. */
  method MapNext(m: Machine, root: nat, v: nat, i: nat, n: nat, flags: Flags, ghost s: Phys, ghost at: Places,
      ghost at1: Places) returns (ok: bool, ghost at2: Places)
    requires m.Valid() && ProcessTree(m, root, at1) && OwnedTree(s, root, at, 4)
    requires v + 4096 * n <= USER_TOP && i < n && flags.present
    requires Unmapped(s.mem, root, v / 4096, v / 4096 + n)
    requires Extends(s, at, m.State(), at1) && Reached(at, at1, PageRange(v / 4096, i))
    requires NewOnly(at, at1, v / 4096, v / 4096 + i) && Mapped(s.mem, m.mem, root, v / 4096, v / 4096 + i, flags)
    modifies m`mem, m.pmm`freeMem, m.pmm.bitmap
    ensures m.Valid() && ProcessTree(m, root, at2) && Extends(s, at, m.State(), at2)
    ensures ok ==> v + i * 4096 != 0 && Reached(at, at2, PageRange(v / 4096, i + 1))
    ensures ok ==> NewOnly(at, at2, v / 4096, v / 4096 + i + 1)
    ensures ok ==> Mapped(s.mem, m.mem, root, v / 4096, v / 4096 + i + 1, flags)
    ensures !ok ==> NewOnly(at, at2, 0, 0) && Mapped(s.mem, m.mem, root, 0, 0, flags)
    ensures !ok ==>
              v + i * 4096 == 0 || |FreeFrames(s.used, m.pmm.maxPages)| < Needed(PageRange(v / 4096, n), at)
  {
    hide Tree, Owned, Leaf, Remapped, Extends, NewOnly, Mapped, Unmapped, NewTablesOr, SameGetPte, Reached,
      FreeFrames, Needed, PathTo, PageRange, KeepsPaths, UserPath;
    ghost var s1, lo := m.State(), v / 4096;
    var w := v + i * 4096;
    NotMappedYet(s, root, s1, at1, lo, lo + i, lo + n, flags, w);
    var t;
    ok, t, at2 := MapFresh(m, root, w, flags, at1);
    ghost var s2 := m.State();
    ExtendsTransitive(s, at, s1, at1, s2, at2);
    if ok {
      MappedOneMore(s, root, at, s1, at1, s2, at2, lo, lo + i, flags, w);
      RangeMore(at, at1, at2, lo, i, w);
    } else {
      if w != 0 {
        RangeFailed(m, s, root, at, at1, at2, lo, i, n, w);
      }
      at2 := UndoPages(m, root, v, i, n, flags, w, s, at, s1, at1, at2);
    }
  }

  /** The failing branch of map_pages. */
  method UndoPages(m: Machine, root: nat, v: nat, i: nat, n: nat, flags: Flags, ghost w: nat, ghost s: Phys,
      ghost at: Places, ghost s1: Phys, ghost at1: Places, ghost at2: Places) returns (ghost at': Places)
    requires m.Valid() && ProcessTree(m, root, at2) && v + 4096 * n <= USER_TOP && i < n && flags.present
    requires OwnedTree(s, root, at, 4) && OwnedTree(s1, root, at1, 4) && UserAddr(w)
    requires Extends(s, at, m.State(), at2) && Extends(s1, at1, m.State(), at2)
    requires NewOnly(at, at1, v / 4096, v / 4096 + i) && Mapped(s.mem, s1.mem, root, v / 4096, v / 4096 + i, flags)
    requires Unmapped(s.mem, root, v / 4096, v / 4096 + n)
    requires NewTablesOr(at1, at2, Leaf(w)) && Leaf(w) !in at2 && SameGetPte(s1.mem, m.mem, root)
    requires KeepsPaths(s1.mem, m.mem, root)
    modifies m`mem, m.pmm`freeMem, m.pmm.bitmap
    ensures m.Valid() && ProcessTree(m, root, at') && Extends(s, at, m.State(), at')
    ensures NewOnly(at, at', 0, 0) && Mapped(s.mem, m.mem, root, 0, 0, flags)
  {
    hide Tree, Owned, Leaf, Extends, NewOnly, Mapped, Unmapped, NewTablesOr, SameGetPte, KeepsPaths;
    ghost var lo := v / 4096;
    FailedSame(s, root, at, s1, at1, m.State(), at2, lo, lo + i, lo + n, flags, w);
    at' := RollBack(m, root, v, i, flags, s, at, at2);
    NothingNew(s.mem, m.mem, root, at, at', lo + i, flags);
  }

  lemma RangeFailed(m: Machine, s: Phys, root: nat, at: Places, at1: Places, at2: Places, lo: nat, i: nat, n: nat,
      w: nat)
    requires m.Valid() && OwnedTree(s, root, at, 4) && OwnedTree(m.State(), root, at2, 4)
    requires Extends(s, at, m.State(), at2) && Reached(at, at1, PageRange(lo, i)) && at2.Keys <= at1.Keys + PathTo(w)
    requires |FreeFrames(m.pmm.Used(), m.pmm.maxPages)| < |PathTo(w) - at2.Keys|
    requires UserAddr(w) && w / 4096 == lo + i && i < n
    ensures |FreeFrames(s.used, m.pmm.maxPages)| < Needed(PageRange(lo, n), at)
  {
    hide OwnedTree, Extends, Reached, PageRange, PathTo, FreeFrames, Needed, Stuck;
    RangeStuck(FreeFrames(m.pmm.Used(), m.pmm.maxPages), at, at1, at2, lo, i, n, w);
    FramesLacked(s, root, at, m.State(), at2, PageRange(lo, n), m.pmm.maxPages);
  }

  lemma RangeStarts(lo: nat, at: Places)
    ensures Reached(at, at, PageRange(lo, 0))
  {
    assert PageRange(lo, 0) == {};
    ReachedNothing(at);
  }

  lemma RangeMore(at: Places, at1: Places, at2: Places, lo: nat, i: nat, w: nat)
    requires Reached(at, at1, PageRange(lo, i)) && at2.Keys == at1.Keys + PathTo(w) && UserAddr(w) && w / 4096 == lo + i
    ensures Reached(at, at2, PageRange(lo, i + 1))
  {
    hide Reached, PathTo;
    SamePath(w, (lo + i) * 4096);
    ReachedMore(at, at1, at2, PageRange(lo, i), lo + i);
    assert PageRange(lo, i + 1) == PageRange(lo, i) + {lo + i};
  }

  lemma RangeStuck(free: set<nat>, at: Places, at1: Places, at2: Places, lo: nat, i: nat, n: nat, w: nat)
    requires Reached(at, at1, PageRange(lo, i)) && at2.Keys <= at1.Keys + PathTo(w) && UserAddr(w) && w / 4096 == lo + i
    requires |free| < |PathTo(w) - at2.Keys| && i < n
    ensures Stuck(free, at, at2, PageRange(lo, n))
  {
    hide Reached, Stuck, PathTo, PageRange;
    SamePath(w, (lo + i) * 4096);
    StuckAt(free, at, at1, at2, PageRange(lo, i), lo + i, PageRange(lo, n));
  }

  lemma StartMapping(s: Phys, root: nat, at: Places, lo: nat, flags: Flags)
    requires OwnedTree(s, root, at, 4) && 0 <= s.free < TWO_32
    ensures Extends(s, at, s, at) && Mapped(s.mem, s.mem, root, lo, lo, flags) && NewOnly(at, at, lo, lo)
  {
    hide Extends, Tree, GetPte;
    ExtendsNothing(s, root, at);
  }

  lemma NotMappedYet(s: Phys, root: nat, s1: Phys, at1: Places, lo: nat, mid: nat, hi: nat, flags: Flags, w: nat)
    requires OwnedTree(s1, root, at1, 4) && Mapped(s.mem, s1.mem, root, lo, mid, flags)
    requires Unmapped(s.mem, root, lo, hi) && UserAddr(w) && lo <= mid == w / 4096 < hi
    ensures Leaf(w) !in at1
  {
    hide Tree, GetPte, Leaf;
    assert MappedAt(s.mem, s1.mem, root, lo, mid, flags, w);
    TranslateInTree(s1.mem, root, at1, w);
  }

  lemma MappedOneMore(s: Phys, root: nat, at: Places, s1: Phys, at1: Places, s2: Phys, at2: Places,
                      lo: nat, hi: nat, flags: Flags, w: nat)
    requires OwnedTree(s1, root, at1, 4) && flags.present && UserAddr(w) && lo <= hi == w / 4096
    requires NewOnly(at, at1, lo, hi) && Mapped(s.mem, s1.mem, root, lo, hi, flags)
    requires Extends(s1, at1, s2, at2) && NewTablesOr(at1, at2, Leaf(w))
    requires Leaf(w) in at2 && at2[Leaf(w)] < |s2.mem| && s2.mem[at2[Leaf(w)]] == ZeroData()
    requires Remapped(s1.mem, s2.mem, root, Leaf(w), Pte(flags, at2[Leaf(w)]))
    requires KeepsPaths(s1.mem, s2.mem, root) && (flags.user ==> UserPath(s2.mem, root, w))
    ensures NewOnly(at, at2, lo, hi + 1) && Mapped(s.mem, s2.mem, root, lo, hi + 1, flags)
  {
    hide Tree, GetPte, Leaf, Remapped, Mapped, PageOf, NewFrames, Charged, KeepsUsed, KeepsPaths, UserPath;
    MappedMore(s.mem, s1, s2.mem, root, at1, lo, hi, flags, w, at2[Leaf(w)]);
    PageOfLeaf(w);
  }

  lemma FailedSame(s: Phys, root: nat, at: Places, s1: Phys, at1: Places, s2: Phys, at2: Places,
                   lo: nat, mid: nat, hi: nat, flags: Flags, w: nat)
    requires OwnedTree(s1, root, at1, 4) && flags.present && lo <= mid <= hi && UserAddr(w)
    requires NewOnly(at, at1, lo, mid) && Mapped(s.mem, s1.mem, root, lo, mid, flags) && Unmapped(s.mem, root, lo, hi)
    requires Extends(s1, at1, s2, at2) && NewTablesOr(at1, at2, Leaf(w)) && Leaf(w) !in at2
    requires SameGetPte(s1.mem, s2.mem, root) && KeepsPaths(s1.mem, s2.mem, root)
    ensures NewOnly(at, at2, lo, mid) && Mapped(s.mem, s2.mem, root, lo, mid, flags) && Unmapped(s.mem, root, lo, mid)
  {
    hide Tree, GetPte, Leaf, Mapped, PageOf, NewFrames, Charged, KeepsUsed, SameGetPte, Translate, KeepsPaths;
    MappedSame(s.mem, s1, s2.mem, root, at1, lo, mid, flags);
  }

  lemma NothingNew(m0: Mem, m: Mem, root: nat, at: Places, at': Places, p: nat, flags: Flags)
    requires NewOnly(at, at', p, p) && Mapped(m0, m, root, p, p, flags)
    ensures NewOnly(at, at', 0, 0) && Mapped(m0, m, root, 0, 0, flags)
  {
    hide GetPte, Translate, PageOf, UserPath;
    forall w: nat | UserAddr(w)
      ensures MappedAt(m0, m, root, 0, 0, flags, w)
    {
      assert MappedAt(m0, m, root, p, p, flags, w);
    }
  }

  // ----- sys_brk -----

  /** The first page at or above address x: PAGE_ALIGN_UP(x) / 4096. */
  function Up(x: nat): nat {
    (x + 4095) / 4096
  }

  /** User code can read and write at w, and not execute. */
  ghost predicate HeapPage(m: Mem, root: nat, w: nat) {
    && UserPath(m, root, w)
    && Translate(m, root, w).Some?
    && Translate(m, root, w).value.flags == Flags(true, true, true, 0, 0x800)
  }

  /** Of the pages [lo, hi), those below mid are pages of the heap and the others are not mapped. */
  ghost predicate HeapIs(m: Mem, root: nat, lo: nat, mid: nat, hi: nat) {
    forall w: nat :: UserAddr(w) && lo <= w / 4096 < hi ==>
      if w / 4096 < mid then HeapPage(m, root, w) else Translate(m, root, w) == None
  }

  class Task {
    const cr3: nat
    var brkStart: nat
    var brkCurrent: nat

    constructor (root: nat, start: nat)
      ensures cr3 == root && brkStart == start && brkCurrent == start
    {
      cr3, brkStart, brkCurrent := root, start, start;
    }

    /** The break as sys_brk sees it, with the default for tasks without one. */
    function Start(): nat
      reads this
    {
      if brkStart == 0 then USER_HEAP_FALLBACK else brkStart
    }

    function Current(): nat
      reads this
    {
      if brkStart == 0 then USER_HEAP_FALLBACK else brkCurrent
    }
  }

  /** The task's heap, up to a limit `top` below every other mapping above it. */
  ghost predicate BrkInv(m: Machine, t: Task, at: Places, top: nat)
    reads m, m.pmm, m.pmm.bitmap, t
  {
    && ProcessTree(m, t.cr3, at)
    && t.Start() <= t.Current() <= top && top + 4095 <= USER_TOP
    && HeapIs(m.mem, t.cr3, Up(t.Start()), Up(t.Current()), Up(top))
  }

  /** The pages of the heap are those that start below the break: from the first page behind the heap's
      start up to the limit, user code can read and write on these, and no other is mapped. */
  lemma HeapExactly(m: Machine, t: Task, at: Places, top: nat, w: nat)
    requires BrkInv(m, t, at, top) && t.Start() <= w / 4096 * 4096 && w < top
    ensures if w / 4096 * 4096 < t.Current() then HeapPage(m.mem, t.cr3, w) else Translate(m.mem, t.cr3, w) == None
  {
    hide ProcessTree, HeapPage, Translate;
  }

  /** What a call that moves the break from cur to addr does. */
  ghost predicate Moved(s: Phys, at: Places, s': Phys, at': Places, root: nat, cur: nat, addr: nat) {
    if cur <= addr then
      && |FreeFrames(s.used, |s.mem|)| >= Needed(PageRange(Up(cur), Up(addr) - Up(cur)), at)
      && Extends(s, at, s', at') && NewOnly(at, at', Up(cur), Up(addr))
      && Mapped(s.mem, s'.mem, root, Up(cur), Up(addr), HEAP_FLAGS)
    else
      && Shrinks(s, at, s', at') && LostOnly(at, at', Up(addr), Up(cur))
      && Cleared(s.mem, s'.mem, root, Up(addr), Up(cur))
  }

  /** What a refused call leaves behind: the translation as it was, at most new empty
      tables, and fewer frames were free than the pages and the missing tables take. */
  ghost predicate Refused(s: Phys, at: Places, s': Phys, at': Places, root: nat, cur: nat, addr: nat) {
    && cur < addr && Up(cur) <= Up(addr)
    && |FreeFrames(s.used, |s.mem|)| < Needed(PageRange(Up(cur), Up(addr) - Up(cur)), at)
    && Extends(s, at, s', at') && NewOnly(at, at', 0, 0)
    && Mapped(s.mem, s'.mem, root, 0, 0, HEAP_FLAGS)
  }

  /** sys_brk: the break moves and exactly the pages below it stay mapped, or nothing
      changes but tables of the process, for want of frames. */
  method SysBrk(m: Machine, t: Task, addr: nat, ghost at: Places, ghost top: nat) returns (r: int, ghost at': Places)
    requires m.Valid() && (t.cr3 != 0 ==> BrkInv(m, t, at, top)) && addr <= top
    modifies t, m`mem, m.pmm`freeMem, m.pmm.bitmap
    ensures m.Valid()
    ensures t.cr3 == 0 ==> r == -ESRCH && m.State() == old(m.State())
    ensures t.cr3 != 0 ==> BrkInv(m, t, at', top) && t.brkStart == old(t.Start()) && r == t.brkCurrent
    ensures t.cr3 != 0 && addr < old(t.Start()) ==>
              t.brkCurrent == old(t.Current()) && m.State() == old(m.State()) && at' == at
    ensures t.cr3 != 0 && addr >= old(t.Start()) ==>
              || (t.brkCurrent == addr && Moved(old(m.State()), at, m.State(), at', t.cr3, old(t.Current()), addr))
              || (t.brkCurrent == old(t.Current())
                  && Refused(old(m.State()), at, m.State(), at', t.cr3, old(t.Current()), addr))
  {
    hide Tree, Owned, Moved, Refused, HeapIs;
    at' := at;
    if t.cr3 == 0 {
      return -ESRCH, at;
    }
    if t.brkStart == 0 {
      t.brkStart := USER_HEAP_FALLBACK;
      t.brkCurrent := USER_HEAP_FALLBACK;
    }
    if addr == 0 {
      return t.brkCurrent, at;
    }
    if addr < t.brkStart {
      return t.brkCurrent, at;
    }
    var ok;
    if addr > t.brkCurrent {
      ok, at' := GrowHeap(m, t.cr3, t.brkStart, t.brkCurrent, addr, at, top);
      if !ok {
        return t.brkCurrent, at';
      }
    } else {
      at' := ShrinkHeap(m, t.cr3, t.brkStart, t.brkCurrent, addr, at, top);
    }
    t.brkCurrent := addr;
    r := addr;
  }

  /** The branch of sys_brk that moves the break up. */
  method GrowHeap(m: Machine, root: nat, start: nat, cur: nat, addr: nat, ghost at: Places, ghost top: nat)
    returns (ok: bool, ghost at': Places)
    requires m.Valid() && ProcessTree(m, root, at) && 0 < start <= cur < addr <= top && top + 4095 <= USER_TOP
    requires HeapIs(m.mem, root, Up(start), Up(cur), Up(top))
    modifies m`mem, m.pmm`freeMem, m.pmm.bitmap
    ensures m.Valid() && ProcessTree(m, root, at')
    ensures HeapIs(m.mem, root, Up(start), if ok then Up(addr) else Up(cur), Up(top))
    ensures ok ==> Moved(old(m.State()), at, m.State(), at', root, cur, addr)
    ensures !ok ==> Refused(old(m.State()), at, m.State(), at', root, cur, addr)
  {
    hide Tree, Owned, Extends, NewOnly, Mapped, HeapIs, Unmapped, Needed, PageRange, FreeFrames;
    ghost var s := m.State();
    at' := at;
    BreakStays(s, root, at, Up(cur));
    var mapStart, mapEnd := Up(cur), Up(addr);
    if mapEnd > mapStart {
      HeapUnmapped(s.mem, root, Up(start), mapStart, mapEnd, Up(top));
      var rc;
      rc, at' := MapPages(m, root, mapStart * 4096, mapEnd - mapStart, HEAP_FLAGS, at);
      if rc != 0 {
        HeapSame(s.mem, m.mem, root, Up(start), mapStart, Up(top));
        return false, at';
      }
      HeapGrew(s.mem, m.mem, root, Up(start), mapStart, mapEnd, Up(top));
    }
    NothingNeeded(mapStart, at);
    ok := true;
  }

  lemma NothingNeeded(lo: nat, at: Places)
    ensures Needed(PageRange(lo, 0), at) == 0
  {
    assert PageRange(lo, 0) == {};
    NothingWanted();
    assert Wanted({}) - at.Keys == {};
  }

  /** The branch that moves it down or leaves it. */
  method ShrinkHeap(m: Machine, root: nat, start: nat, cur: nat, addr: nat, ghost at: Places, ghost top: nat)
    returns (ghost at': Places)
    requires m.Valid() && ProcessTree(m, root, at) && 0 < start <= addr <= cur <= top && top + 4095 <= USER_TOP
    requires HeapIs(m.mem, root, Up(start), Up(cur), Up(top))
    modifies m`mem, m.pmm`freeMem, m.pmm.bitmap
    ensures m.Valid() && ProcessTree(m, root, at')
    ensures HeapIs(m.mem, root, Up(start), Up(addr), Up(top))
    ensures Moved(old(m.State()), at, m.State(), at', root, cur, addr)
  {
    hide Tree, Owned, Extends, Shrinks, NewOnly, LostOnly, Mapped, Cleared, HeapIs, Needed, PageRange, FreeFrames;
    ghost var s := m.State();
    at' := at;
    NothingNeeded(Up(cur), at);
    BreakStays(s, root, at, Up(cur));
    if addr < cur {
      var unmapStart, unmapEnd := Up(addr), Up(cur);
      if unmapEnd > unmapStart {
        at' := UnmapPages(m, root, unmapStart * 4096, unmapEnd - unmapStart, at);
        HeapShrank(s.mem, m.mem, root, Up(start), unmapStart, unmapEnd, Up(top));
      }
    }
  }

  lemma BreakStays(s: Phys, root: nat, at: Places, p: nat)
    requires OwnedTree(s, root, at, 4) && 0 <= s.free < TWO_32
    ensures Extends(s, at, s, at) && NewOnly(at, at, p, p) && Mapped(s.mem, s.mem, root, p, p, HEAP_FLAGS)
    ensures Shrinks(s, at, s, at) && LostOnly(at, at, p, p) && Cleared(s.mem, s.mem, root, p, p)
  {
    hide Extends, Tree, GetPte, Shrinks, NewOnly, LostOnly, Mapped, Cleared;
    StartMapping(s, root, at, p, HEAP_FLAGS);
    ShrinksByNothing(s, root, at);
    ClearedNothing(s.mem, root, at, p);
  }

  lemma HeapUnmapped(m: Mem, root: nat, lo: nat, mid: nat, to: nat, hi: nat)
    requires HeapIs(m, root, lo, mid, hi) && lo <= mid <= to <= hi
    ensures Unmapped(m, root, mid, to)
  {
    hide Translate;
  }

  lemma HeapSame(m: Mem, m': Mem, root: nat, lo: nat, mid: nat, hi: nat)
    requires HeapIs(m, root, lo, mid, hi) && Mapped(m, m', root, 0, 0, HEAP_FLAGS)
    ensures HeapIs(m', root, lo, mid, hi)
  {
    hide Translate, GetPte, UserPath;
    forall w: nat | UserAddr(w) && lo <= w / 4096 < hi
      ensures if w / 4096 < mid then HeapPage(m', root, w) else Translate(m', root, w) == None
    {
      assert MappedAt(m, m', root, 0, 0, HEAP_FLAGS, w);
    }
  }

  lemma HeapGrew(m: Mem, m': Mem, root: nat, lo: nat, mid: nat, to: nat, hi: nat)
    requires HeapIs(m, root, lo, mid, hi) && Mapped(m, m', root, mid, to, HEAP_FLAGS) && lo <= mid <= to <= hi
    ensures HeapIs(m', root, lo, to, hi)
  {
    hide GetPte, UserPath;
    forall w: nat | UserAddr(w) && lo <= w / 4096 < hi
      ensures if w / 4096 < to then HeapPage(m', root, w) else Translate(m', root, w) == None
    {
      assert MappedAt(m, m', root, mid, to, HEAP_FLAGS, w);
    }
  }

  lemma HeapShrank(m: Mem, m': Mem, root: nat, lo: nat, to: nat, mid: nat, hi: nat)
    requires HeapIs(m, root, lo, mid, hi) && Cleared(m, m', root, to, mid) && lo <= to <= mid <= hi
    ensures HeapIs(m', root, lo, to, hi)
  {
    hide GetPte, UserPath;
  }
}
