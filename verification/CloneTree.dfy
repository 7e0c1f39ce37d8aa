/** vmm_clone_user_page_table (src/mm/vmm.c:251-306). The four nested loops do the
    same at every level but the last, so they are one recursive method. */
module CloneTree {
  import opened Wrappers
  import opened Words
  import opened PageTables
  import opened TreeSteps
  import opened Subtrees
  import opened CloneSteps
  import opened FreeTree
  import opened Pmm
  import opened Vmm

  /** Every place of the parent below n through an entry before i is in the child. */
  ghost predicate Covered(pat: Places, cat: Places, n: Node, i: nat) {
    forall k :: k in pat && Via(k, n).Some? && Via(k, n).value < i ==> k in cat
  }

  /** What the child gained from cat0 to cat is below n through entries before i. */
  ghost predicate NewBelow(cat0: Places, cat: Places, n: Node, i: nat) {
    forall k :: k in cat && k !in cat0 ==> Via(k, n).Some? && Via(k, n).value < i
  }

  lemma CoveredNext(root: nat, pat: Places, cat: Places, n: Node, i: nat)
    requires Shaped(root, pat, 4) && Covered(pat, cat, n, i) && Sub(n, i) !in pat
    ensures Covered(pat, cat, n, i + 1)
  {
    NothingVia(root, pat, n, i);
  }

  lemma CoveredMore(pat: Places, cat: Places, cat': Places, n: Node, i: nat)
    requires Covered(pat, cat, n, i) && SubPlaces(cat, cat')
    requires forall k :: k in pat && Via(k, n) == Some(i) ==> k in cat'
    ensures Covered(pat, cat', n, i + 1)
  {
  }

  lemma NewBelowMore(cat0: Places, cat: Places, cat': Places, n: Node, i: nat)
    requires NewBelow(cat0, cat, n, i)
    requires forall k :: k in cat' && k !in cat ==> Via(k, n) == Some(i)
    ensures NewBelow(cat0, cat', n, i + 1)
  {
  }

  lemma CoveredAll(root: nat, pat: Places, cat: Places, n: Node)
    requires Shaped(root, pat, 4) && Covered(pat, cat, n, Width(n))
    ensures forall k :: k in pat && Via(k, n).Some? ==> k in cat
  {
    forall k | k in pat && Via(k, n).Some?
      ensures Via(k, n).value < Width(n)
    {
      ViaPlace(root, pat, 4, k, n);
    }
  }

  /** Nothing of the child is below n through entry i, when all that is below n is
      new and came through earlier entries. */
  lemma NotYet(cat0: Places, cat: Places, n: Node, i: nat)
    requires NewBelow(cat0, cat, n, i) && forall k :: k in cat0 ==> Via(k, n).None?
    ensures forall k :: k in cat ==> Via(k, n) != Some(i)
  {
  }

  lemma ViaThroughChild(n: Node, i: nat)
    ensures forall k {:trigger Via(k, Sub(n, i))} {:trigger Via(k, n)} :: Via(k, n) == Some(i) <==>
            k == Sub(n, i) || Via(k, Sub(n, i)).Some?
    ensures Via(Sub(n, i), n) == Some(i) && Via(Sub(n, i), Sub(n, i)).None?
  {
    forall k
      ensures Via(k, n) == Some(i) <==> k == Sub(n, i) || Via(k, Sub(n, i)).Some?
    {
      ViaChild(k, n, i);
    }
    ViaDeepens(Sub(n, i), Sub(n, i));
  }

  lemma ParentShape(s: Phys, proot: nat, pat: Places, croot: nat, cat: Places)
    requires Cloning(s, proot, pat, croot, cat)
    ensures Shaped(proot, pat, 4)
    ensures Tree(s.mem, proot, pat, 4) && OwnedTree(s, croot, cat, 4)
  {
  }

  /** The loop over the entries of the parent's table pf and the child's table cf at
      place n. `level` is 4 for the roots and 1 for tables of pages. */
  method CloneBelow(m: Machine, level: nat, pf: nat, cf: nat, ghost proot: nat, ghost pat: Places,
                    ghost croot: nat, ghost cat: Places, ghost n: Node)
    returns (ok: bool, ghost cat': Places)
    requires m.Valid() && Cloning(m.State(), proot, pat, croot, cat)
    requires n in pat && n in cat && pat[n] == pf && cat[n] == cf
    requires 1 <= level && level + Depth(n) == 4
    requires forall k :: k in cat ==> Via(k, n).None?
    modifies m`mem, m.pmm`freeMem, m.pmm.bitmap
    ensures m.Valid() && Cloning(m.State(), proot, pat, croot, cat')
    ensures Copies(old(m.State()), cat, m.State(), cat') && KeepsUpper(old(m.mem), m.mem, croot)
    ensures forall k :: k in cat' && k !in cat ==> Via(k, n).Some?
    ensures ok ==> forall k :: k in pat && Via(k, n).Some? ==> k in cat'
    ensures !ok ==> m.OutOfFrames() && exists k :: k in pat && k !in cat'
    decreases level, 1
  {
    hide KeepsUpper, Tree, Shaped, Owned, Cloning, Charged, NewFrames, KeepsOthers, Entry, Via, Covered, NewBelow;
    cat' := cat;
    StartCopying(m.State(), proot, pat, croot, cat, n);
    var width := if level == 4 then 256 else 512;
    RootDepth(n);
    for i := 0 to width
      invariant m.Valid() && Cloning(m.State(), proot, pat, croot, cat')
      invariant Copies(old(m.State()), cat, m.State(), cat') && KeepsUpper(old(m.mem), m.mem, croot)
      invariant Covered(pat, cat', n, i) && NewBelow(cat, cat', n, i)
      invariant n in cat' && cat'[n] == cf
    {
      ParentShape(m.State(), proot, pat, croot, cat');
      TableAt(m.mem, proot, pat, 4, n);
      var e := m.mem[pf].e[i];
      if e.flags.present {
        label Before:
        ghost var cat1 := cat';
        NotYet(cat, cat1, n, i);
        if level > 1 {
          ok, cat' := CloneSubtree(m, level, e, cf, i, proot, pat, croot, cat1, n);
        } else {
          ok, cat' := CloneLeaf(m, e, cf, i, proot, pat, croot, cat1, n);
        }
        CopiesTransitive(old(m.State()), cat, old@Before(m.State()), cat1, m.State(), cat');
        KeepsUpperTwice(old(m.mem), old@Before(m.mem), m.mem, croot);
        NewBelowMore(cat, cat1, cat', n, i);
        if !ok {
          NewBelowVia(cat, cat', n, i + 1);
          return false, cat';
        }
        CoveredMore(pat, cat1, cat', n, i);
      } else {
        CoveredNext(proot, pat, cat', n, i);
        NewBelowMore(cat, cat', cat', n, i);
      }
    }
    CoveredAll(proot, pat, cat', n);
    NewBelowVia(cat, cat', n, width);
    ok := true;
  }

  lemma NewBelowVia(cat0: Places, cat: Places, n: Node, i: nat)
    requires NewBelow(cat0, cat, n, i)
    ensures forall k :: k in cat && k !in cat0 ==> Via(k, n).Some?
  {
  }

  lemma StartCopying(s: Phys, proot: nat, pat: Places, croot: nat, cat: Places, n: Node)
    requires Cloning(s, proot, pat, croot, cat) && 0 <= s.free < TWO_32
    ensures Copies(s, cat, s, cat) && Covered(pat, cat, n, 0) && NewBelow(cat, cat, n, 0)
    ensures Shaped(proot, pat, 4) && KeepsUpper(s.mem, s.mem, croot)
  {
    hide Copies;
    CopiesNothing(s, croot, cat);
  }

  /** The pass at the last level: a fresh frame with the parent's page. */
  method CloneLeaf(m: Machine, e: Pte, cf: nat, i: nat, ghost proot: nat, ghost pat: Places,
                   ghost croot: nat, ghost cat: Places, ghost n: Node)
    returns (ok: bool, ghost cat': Places)
    requires m.Valid() && Cloning(m.State(), proot, pat, croot, cat)
    requires n in pat && n in cat && cat[n] == cf && e == Entry(m.mem, pat[n], i)
    requires Depth(n) == 3 && i < Width(n) && Sub(n, i) in pat && e.frame == pat[Sub(n, i)]
    requires forall k :: k in cat ==> Via(k, n) != Some(i)
    modifies m`mem, m.pmm`freeMem, m.pmm.bitmap
    ensures m.Valid() && Cloning(m.State(), proot, pat, croot, cat')
    ensures Copies(old(m.State()), cat, m.State(), cat') && KeepsUpper(old(m.mem), m.mem, croot)
    ensures forall k :: k in cat' && k !in cat ==> Via(k, n) == Some(i)
    ensures ok ==> forall k :: k in pat && Via(k, n) == Some(i) ==> k in cat'
    ensures !ok ==> m.OutOfFrames() && exists k :: k in pat && k !in cat'
  {
    hide KeepsUpper, Tree, Shaped, Owned, Cloning, Copies, Entry, SetEntry, Credit, Via, Run;
    StartCopying(m.State(), proot, pat, croot, cat, n);
    ViaThroughChild(n, i);
    var page := m.pmm.Pmalloc(1);
    if page.None? {
      assert Sub(n, i) !in cat;
      OneFrameFree(old(m.pmm.Used()), m.pmm.maxPages);
      return false, cat;
    }
    var t := page.value;
    assert Run(t, 1) == {t};
    ClonePage(old(m.State()), proot, pat, croot, cat, n, i, t);
    cat' := cat[Sub(n, i) := t];
    m.mem := m.mem[t := m.mem[e.frame]];
    m.mem := SetEntry(m.mem, cf, i, Pte(Low12(e), t));
    assert m.State() == ClonedPage(old(m.State()), pat, cat, n, i, t);
    PageOnly(m.State(), proot, pat, croot, cat', n, i);
    ok := true;
  }

  lemma PageOnly(s: Phys, proot: nat, pat: Places, croot: nat, cat: Places, n: Node, i: nat)
    requires Cloning(s, proot, pat, croot, cat) && Depth(n) == 3 && Sub(n, i) in cat
    ensures forall k :: k in pat && Via(k, n) == Some(i) ==> k in cat
  {
    NothingBelowPage(proot, pat, Sub(n, i));
    ViaThroughChild(n, i);
  }

  /** The pass above the last level: a table for the child, and all below it. */
  method CloneSubtree(m: Machine, level: nat, e: Pte, cf: nat, i: nat, ghost proot: nat, ghost pat: Places,
                      ghost croot: nat, ghost cat: Places, ghost n: Node)
    returns (ok: bool, ghost cat': Places)
    requires m.Valid() && Cloning(m.State(), proot, pat, croot, cat)
    requires n in pat && n in cat && cat[n] == cf && e == Entry(m.mem, pat[n], i)
    requires 2 <= level && level + Depth(n) == 4
    requires i < Width(n) && Sub(n, i) in pat && e.frame == pat[Sub(n, i)]
    requires forall k :: k in cat ==> Via(k, n) != Some(i)
    modifies m`mem, m.pmm`freeMem, m.pmm.bitmap
    ensures m.Valid() && Cloning(m.State(), proot, pat, croot, cat')
    ensures Copies(old(m.State()), cat, m.State(), cat') && KeepsUpper(old(m.mem), m.mem, croot)
    ensures forall k :: k in cat' && k !in cat ==> Via(k, n) == Some(i)
    ensures ok ==> forall k :: k in pat && Via(k, n) == Some(i) ==> k in cat'
    ensures !ok ==> m.OutOfFrames() && exists k :: k in pat && k !in cat'
    decreases level, 0
  {
    hide KeepsUpper, Tree, Shaped, Owned, Cloning, Copies, Entry, SetEntry, Credit, Via, Grows, SameGetPte, NewTable;
    ParentShape(m.State(), proot, pat, croot, cat);
    StartCopying(m.State(), proot, pat, croot, cat, n);
    ViaThroughChild(n, i);
    assert Sub(n, i) !in cat;
    cat' := cat;
    var t;
    t, cat' := m.EnsureTable(cf, i, Low12(e), croot, cat, 4, n);
    if t.None? {
      return false, cat';
    }
    CloneTable(old(m.State()), proot, pat, croot, cat, n, i, t.value, Flags(true, true, e.flags.user, 0, 0));
    label Linked:
    ghost var cat1 := cat';
    ok, cat' := CloneBelow(m, level - 1, e.frame, t.value, proot, pat, croot, cat1, Sub(n, i));
    CopiesTransitive(old(m.State()), cat, old@Linked(m.State()), cat1, m.State(), cat');
    KeepsUpperTwice(old(m.mem), old@Linked(m.mem), m.mem, croot);
    CopiesGrow(old@Linked(m.State()), cat1, m.State(), cat');
  }

  lemma CopiesGrow(s: Phys, cat: Places, s': Phys, cat': Places)
    requires Copies(s, cat, s', cat')
    ensures forall k :: k in cat ==> k in cat' && cat'[k] == cat[k]
  {
  }

  /** At address v the child has a page of its own exactly when the parent has one, with the
      parent's bytes, in a frame that was free before. It is writable and open to user code like the
      parent's page, and bits 52 to 63, so the execute-disable bit too, are clear. */
  ghost predicate ClonedAt(s: Phys, m': Mem, proot: nat, croot: nat, v: nat) {
    match Translate(s.mem, proot, v)
    case None => Translate(m', croot, v) == None
    case Some(p) =>
      && Translate(m', croot, v).Some?
      && var q := Translate(m', croot, v).value;
         && q.flags.present && (q.flags.rw <==> p.flags.rw) && (q.flags.user <==> p.flags.user)
         && q.flags.rest == p.flags.rest && q.flags.hi == 0
         && (UserPath(m', croot, v) <==> UserPath(s.mem, proot, v))
         && q.frame < |m'| && p.frame < |s.mem| && |m'| == |s.mem|
         && m'[q.frame] == s.mem[p.frame]
         && q.frame !in s.used
  }

  lemma CloneDone(s: Phys, proot: nat, pat: Places, s': Phys, croot: nat, cat: Places, v: nat)
    requires Cloning(s', proot, pat, croot, cat) && UserAddr(v)
    requires OwnedTree(s, proot, pat, 4) && |s'.mem| == |s.mem| && cat.Values !! s.used
    requires forall k :: k in pat ==> k in cat
    requires forall f :: f in s.used && f < |s.mem| ==> s'.mem[f] == s.mem[f]
    ensures ClonedAt(s, s'.mem, proot, croot, v)
  {
    hide Shaped, Injective, HoldsTables, Linked, Entry, UserAddr, UserPath, Index1, Index2, Index3, Index4;
    var leaf := Leaf(v);
    IndicesOfPage(v);
    PlacesBound(s, proot, pat);
    TreeFrame(s.mem, s'.mem, proot, pat, 4);
    TranslateInTree(s.mem, proot, pat, v);
    TranslateInTree(s'.mem, croot, cat, v);
    if leaf in cat { CloneKeys(s'.mem, pat, cat, croot, leaf); }
    if leaf in pat {
      GetPteInTree(s.mem, proot, pat, 4, v);
      GetPteInTree(s'.mem, croot, cat, 4, v);
      MirrorAt(s'.mem, pat, cat, leaf.up, leaf.i);
      SameEntryAt(s.mem, s'.mem, pat[leaf.up], leaf.i);
      ClonedPath(s, proot, pat, s', croot, cat, v);
    }
  }

  /** The tables on the way have the user bit in the child when they have it in the parent. */
  lemma ClonedPath(s: Phys, proot: nat, pat: Places, s': Phys, croot: nat, cat: Places, v: nat)
    requires Cloning(s', proot, pat, croot, cat) && UserAddr(v) && OwnedTree(s, proot, pat, 4)
    requires Leaf(v) in pat && forall k :: k in pat ==> k in cat
    requires |s'.mem| == |s.mem| && forall f :: f in s.used && f < |s.mem| ==> s'.mem[f] == s.mem[f]
    ensures UserPath(s'.mem, croot, v) <==> UserPath(s.mem, proot, v)
  {
    hide Shaped, Injective, HoldsTables, Linked, Entry, UserAddr, UserPath, Index1, Index2, Index3, Index4;
    PlacesBound(s, proot, pat);
    PathInTree(s.mem, proot, pat, 4, v);
    PathInTree(s'.mem, croot, cat, 4, v);
    forall n | n in TablesTo(v)
      ensures n in pat && (UserAt(s'.mem, cat, n.up, n.i) <==> UserAt(s.mem, pat, n.up, n.i))
    {
      TablesAbove(s, proot, pat, v, n);
      MirrorAt(s'.mem, pat, cat, n.up, n.i);
      SameEntryAt(s.mem, s'.mem, pat[n.up], n.i);
    }
  }

  /** The tables on the way to a page of the tree are there. */
  lemma TablesAbove(s: Phys, root: nat, at: Places, v: nat, n: Node)
    requires OwnedTree(s, root, at, 4) && Leaf(v) in at && n in TablesTo(v)
    ensures n.Sub? && n in at && n.up in at && Depth(n.up) <= 2 && n == Sub(n.up, n.i)
    ensures Entry(s.mem, at[n.up], n.i).flags.present
  {
    hide Injective, HoldsTables, Entry, Index1, Index2, Index3, Index4;
    var n3 := Sub(Root, Index4(v));
    var n2 := Sub(n3, Index3(v));
    var n1 := Sub(n2, Index2(v));
    assert Leaf(v) == Sub(n1, Index1(v));
    assert n1 in at;
    assert n2 in at;
    assert n3 in at;
    assert Sub(n.up, n.i) in at;
    assert Depth(n.up) <= 2 && n.i < Width(n.up);
  }

  lemma SameEntryAt(m: Mem, m': Mem, f: nat, i: nat)
    requires |m'| == |m| && f < |m| && m'[f] == m[f]
    ensures Entry(m', f, i) == Entry(m, f, i)
  {
  }

  lemma PlacesBound(s: Phys, root: nat, at: Places)
    requires OwnedTree(s, root, at, 4)
    ensures forall k :: k in at ==> at[k] < |s.mem| && at[k] in s.used
    ensures forall k, j: nat :: Sub(k, j) in at ==> k in at
  {
    hide Linked, Injective;
  }

  lemma CloneKeys(m: Mem, pat: Places, cat: Places, croot: nat, leaf: Node)
    requires Mirror(m, pat, cat) && Tree(m, croot, cat, 4) && leaf.Sub? && leaf in cat
    ensures leaf in pat
  {
    MirrorAt(m, pat, cat, leaf.up, leaf.i);
  }

  lemma MirrorAt(m: Mem, pat: Places, cat: Places, k: Node, j: nat)
    requires Mirror(m, pat, cat) && Sub(k, j) in cat
    ensures k in cat && Twin(m, pat, cat, k, j)
  {
  }

  /** The child's frames: new ones only, all of them, each charged once. */
  ghost predicate TookFrames(s: Phys, s2: Phys, cat: Places) {
    && cat.Values !! s.used
    && s2.used == s.used + cat.Values
    && s2.free == Credit(s.free, -|cat.Values|)
    && |s2.mem| == |s.mem|
    && (forall f :: f in s.used && f < |s.mem| ==> s2.mem[f] == s.mem[f])
  }

  lemma CloneFrames(s: Phys, s1: Phys, s2: Phys, c: nat, cat: Places)
    requires c !in s.used && s1.used == s.used + {c} && s1.free == Credit(s.free, -1) && |s1.mem| == |s.mem|
    requires forall f :: 0 <= f < |s.mem| && f != c ==> s1.mem[f] == s.mem[f]
    requires Copies(s1, map[Root := c], s2, cat) && Injective(cat)
    ensures TookFrames(s, s2, cat)
  {
    hide Injective, Charged, SubPlaces, KeepsOthers, NewFrames, Credit;
    OneValue(c);
    CloneFramesNew(s, s1, s2, c, cat);
    CountFrames(cat);
    CloneFramesCharged(s, s1, s2, c, cat);
    CloneFramesKept(s, s1, s2, c, cat);
  }

  lemma CloneFramesNew(s: Phys, s1: Phys, s2: Phys, c: nat, cat: Places)
    requires c !in s.used && s1.used == s.used + {c}
    requires SubPlaces(map[Root := c], cat) && NewFrames(s1.used, map[Root := c], cat)
    ensures cat.Values !! s.used && c in cat.Values
  {
    OneValue(c);
    assert map[Root := c][Root] == c;
    assert cat[Root] == c;
    forall f | f in cat.Values
      ensures f !in s.used
    {
      var k :| k in cat && cat[k] == f;
    }
  }

  lemma CloneFramesCharged(s: Phys, s1: Phys, s2: Phys, c: nat, cat: Places)
    requires s1.used == s.used + {c} && s1.free == Credit(s.free, -1)
    requires Charged(s1, s2, cat, |cat| - 1) && c in cat.Values && |cat| == |cat.Values|
    ensures s2.used == s.used + cat.Values && s2.free == Credit(s.free, -|cat.Values|)
  {
    hide Credit;
    CreditTwice(s.free, -1, 1 - |cat|);
  }

  lemma CloneFramesKept(s: Phys, s1: Phys, s2: Phys, c: nat, cat: Places)
    requires c !in s.used && |s1.mem| == |s.mem| && cat.Values !! s.used
    requires forall f :: 0 <= f < |s.mem| && f != c ==> s1.mem[f] == s.mem[f]
    requires KeepsOthers(s1.mem, s2.mem, cat)
    ensures |s2.mem| == |s.mem| && forall f :: f in s.used && f < |s.mem| ==> s2.mem[f] == s.mem[f]
  {
  }

  /** Freeing all that the child took restores what was there before. */
  lemma GivenBack(s: Phys, s2: Phys, s3: Phys, root: nat, at: Places, cat: Places)
    requires OwnedTree(s, root, at, 4) && 0 <= s.free < TWO_32 && TookFrames(s, s2, cat)
    requires s3.used == s2.used - cat.Values && s3.free == Credit(s2.free, |cat.Values|) && |s3.mem| == |s2.mem|
    requires forall f :: 0 <= f < |s3.mem| && f !in cat.Values ==> s3.mem[f] == s2.mem[f]
    ensures s3.used == s.used && s3.free == s.free && |s3.mem| == |s.mem|
    ensures forall f :: f in s.used && f < |s.mem| ==> s3.mem[f] == s.mem[f]
    ensures OwnedTree(s3, root, at, 4)
  {
    hide Tree, Owned, Credit;
    CreditTwice(s.free, -|cat.Values|, |cat.Values|);
    CreditNothing(s.free);
    assert s3.used == s.used;
    OwnedTreeKept(s, s3, root, at);
  }

  lemma StartClone(s: Phys, proot: nat, pat: Places, s1: Phys, c: nat)
    requires OwnedTree(s, proot, pat, 4) && OwnedTree(s1, c, map[Root := c], 4)
    requires c !in s.used && s1.used == s.used + {c} && |s1.mem| == |s.mem|
    requires forall f :: 0 <= f < |s.mem| && f != c ==> s1.mem[f] == s.mem[f]
    ensures Cloning(s1, proot, pat, c, map[Root := c]) && Root in pat && pat[Root] == proot
    ensures forall k :: k in map[Root := c] ==> Via(k, Root).None?
  {
    hide Shaped, Injective, HoldsTables, Linked;
    PlacesBound(s, proot, pat);
    TreeFrame(s.mem, s1.mem, proot, pat, 4);
    RootPlace(s.mem, proot, pat, 4);
    OneValue(c);
  }

  lemma OneValue(c: nat)
    ensures map[Root := c].Values == {c}
  {
    assert map[Root := c][Root] == c;
  }

  lemma SameKeys(s: Phys, proot: nat, pat: Places, croot: nat, cat: Places)
    requires Cloning(s, proot, pat, croot, cat)
    requires forall k :: k in pat && Via(k, Root).Some? ==> k in cat
    ensures cat.Keys == pat.Keys
  {
    hide Injective, HoldsTables, Linked, Twin;
    forall k
      ensures k in cat <==> k in pat
    {
      ViaRoot(k);
      if k in cat && k.Sub? {
        assert k == Sub(k.up, k.i);
        assert Twin(s.mem, pat, cat, k.up, k.i);
        TwinPlaces(s.mem, pat, cat, k.up, k.i);
      }
    }
  }

  lemma TwinPlaces(m: Mem, pat: Places, cat: Places, k: Node, j: nat)
    requires k in cat && Sub(k, j) in cat && Twin(m, pat, cat, k, j)
    ensures Sub(k, j) in pat
  {
  }

  /** vmm_clone_user_page_table: a deep copy of the parent in frames of its own. When
      frames run out the partial child is freed and nothing is lost. */
  method CloneUserPageTable(m: Machine, proot: nat, ghost pat: Places) returns (r: Option<nat>, ghost cat: Places)
    requires m.Valid() && ProcessTree(m, proot, pat)
    modifies m`mem, m.pmm`freeMem, m.pmm.bitmap
    ensures m.Valid() && ProcessTree(m, proot, pat)
    ensures r.Some? ==>
              && r.value != 0 && r.value != m.kernelRoot && ProcessTree(m, r.value, cat)
              && TookFrames(old(m.State()), m.State(), cat)
              && cat.Keys == pat.Keys && Mirror(m.mem, pat, cat)
              && (forall v :: UserAddr(v) ==> ClonedAt(old(m.State()), m.mem, proot, r.value, v))
              && KernelHalf(m.mem, m.kernelRoot, r.value)
    ensures r.None? ==>
              && m.pmm.Used() == old(m.pmm.Used()) && m.pmm.freeMem == old(m.pmm.freeMem)
              && |m.mem| == old(|m.mem|)
              && (forall f :: f in old(m.pmm.Used()) && f < |m.mem| ==> m.mem[f] == old(m.mem[f]))
    ensures r.Some? <==> |FreeFrames(old(m.pmm.Used()), m.pmm.maxPages)| >= |pat|
  {
    hide Tree, Owned, Cloning, Copies, Credit, Via, Mirror, ClonedAt, UserAddr, KernelHalf;
    ghost var s := m.State();
    var c := m.CreateUserPageTable();
    if c.None? {
      NoFrames(s, proot, pat, m.pmm.maxPages);
      return None, map[];
    }
    ghost var s1 := m.State();
    StartClone(s, proot, pat, s1, c.value);
    var ok;
    ok, cat := CloneBelow(m, 4, proot, c.value, proot, pat, c.value, map[Root := c.value], Root);
    ghost var s2 := m.State();
    CloningTrees(s2, proot, pat, c.value, cat);
    CloneFrames(s, s1, s2, c.value, cat);
    if !ok {
      FramesLacked(s, s2, proot, pat, c.value, cat, m.pmm.maxPages);
      FreeUserPageTable(m, c.value, cat);
      GivenBack(s, s2, m.State(), proot, pat, cat);
      return None, cat;
    }
    SameKeys(s2, proot, pat, c.value, cat);
    FramesSufficed(s, s2, c.value, pat, cat, m.pmm.maxPages);
    forall v | UserAddr(v)
      ensures ClonedAt(s, m.mem, proot, c.value, v)
    {
      CloneDone(s, proot, pat, s2, c.value, cat, v);
    }
    KernelHalfKept(s1.mem, s2.mem, m.kernelRoot, c.value);
    r := c;
  }

  // ----- frames enough -----

  lemma NoFrames(s: Phys, proot: nat, pat: Places, maxPages: nat)
    requires OwnedTree(s, proot, pat, 4) && forall f: nat :: f < maxPages ==> f in s.used
    ensures |FreeFrames(s.used, maxPages)| < |pat|
  {
    RootPlace(s.mem, proot, pat, 4);
    assert FreeFrames(s.used, maxPages) == {};
    assert |pat| == |pat.Keys| && Root in pat.Keys;
  }

  /** A whole copy used as many free frames as the parent has places. */
  lemma FramesSufficed(s: Phys, s2: Phys, croot: nat, pat: Places, cat: Places, maxPages: nat)
    requires OwnedTree(s2, croot, cat, 4) && Injective(cat) && TookFrames(s, s2, cat) && |s.mem| <= maxPages
    requires cat.Keys == pat.Keys
    ensures |FreeFrames(s.used, maxPages)| >= |pat|
  {
    hide Credit, Injective;
    PlacesBound(s2, croot, cat);
    CountFrames(cat);
    SizeOfSubset(cat.Values, FreeFrames(s.used, maxPages));
    assert |cat| == |cat.Keys| && |pat| == |pat.Keys|;
  }

  /** A copy that stopped for lack of frames had too few from the start. */
  lemma FramesLacked(s: Phys, s2: Phys, proot: nat, pat: Places, croot: nat, cat: Places, maxPages: nat)
    requires Cloning(s2, proot, pat, croot, cat) && TookFrames(s, s2, cat)
    requires (forall f: nat :: f < maxPages ==> f in s2.used) && exists k :: k in pat && k !in cat
    ensures |FreeFrames(s.used, maxPages)| < |pat|
  {
    CloningTrees(s2, proot, pat, croot, cat);
    CloneKeysWithin(s2, proot, pat, croot, cat);
    hide Credit, Injective, Cloning, Tree, Owned, Mirror;
    CountFrames(cat);
    SizeOfSubset(FreeFrames(s.used, maxPages), cat.Values);
    var k :| k in pat && k !in cat;
    KeysWithout(pat, cat, k);
  }

  lemma KeysWithout(pat: Places, cat: Places, k: Node)
    requires cat.Keys <= pat.Keys && k in pat && k !in cat
    ensures |cat| < |pat|
  {
    assert pat.Keys == cat.Keys + (pat.Keys - cat.Keys);
    assert k in pat.Keys - cat.Keys;
    assert |cat| == |cat.Keys| && |pat| == |pat.Keys|;
  }

  lemma CloneKeysWithin(s: Phys, proot: nat, pat: Places, croot: nat, cat: Places)
    requires Cloning(s, proot, pat, croot, cat)
    ensures cat.Keys <= pat.Keys
  {
    RootPlace(s.mem, proot, pat, 4);
    hide Injective, HoldsTables, Linked, Twin;
    forall k | k in cat ensures k in pat {
      if k.Sub? {
        CloneKeys(s.mem, pat, cat, croot, k);
      }
    }
  }

  lemma CloningTrees(s: Phys, proot: nat, pat: Places, croot: nat, cat: Places)
    requires Cloning(s, proot, pat, croot, cat)
    ensures OwnedTree(s, proot, pat, 4) && OwnedTree(s, croot, cat, 4) && Mirror(s.mem, pat, cat)
    ensures Injective(cat)
  {
  }

  lemma OwnedTreeKept(s: Phys, s': Phys, root: nat, at: Places)
    requires OwnedTree(s, root, at, 4) && s'.used == s.used && |s'.mem| == |s.mem|
    requires forall f :: f in s.used && f < |s.mem| ==> s'.mem[f] == s.mem[f]
    ensures OwnedTree(s', root, at, 4)
  {
    hide Shaped, Injective, HoldsTables, Linked;
    PlacesBound(s, root, at);
    TreeFrame(s.mem, s'.mem, root, at, 4);
  }

  lemma KernelHalfKept(m: Mem, m': Mem, kernel: nat, root: nat)
    requires KernelHalf(m, kernel, root) && KeepsUpper(m, m', root)
    requires kernel < |m| && |m'| == |m| && m'[kernel] == m[kernel]
    ensures KernelHalf(m', kernel, root)
  {
  }

  /** Cloning and then freeing the clone: in between there was a whole copy in frames of its own
      or, exactly when fewer frames were free than the parent has places, none; in the end the
      bitmap, the counter and the contents of every frame in use are what they were. */
  method CloneThenFree(m: Machine, proot: nat, ghost pat: Places)
    returns (r: Option<nat>, ghost cat: Places, ghost between: Phys)
    requires m.Valid() && ProcessTree(m, proot, pat)
    modifies m`mem, m.pmm`freeMem, m.pmm.bitmap
    ensures r.Some? <==> |FreeFrames(old(m.pmm.Used()), m.pmm.maxPages)| >= |pat|
    ensures r.Some? ==>
              && TookFrames(old(m.State()), between, cat) && OwnedTree(between, r.value, cat, 4) && cat.Keys == pat.Keys
              && (forall v :: UserAddr(v) ==> ClonedAt(old(m.State()), between.mem, proot, r.value, v))
    ensures m.Valid() && ProcessTree(m, proot, pat)
    ensures m.pmm.Used() == old(m.pmm.Used()) && m.pmm.freeMem == old(m.pmm.freeMem)
    ensures |m.mem| == old(|m.mem|)
    ensures forall f :: f in old(m.pmm.Used()) && f < |m.mem| ==> m.mem[f] == old(m.mem[f])
  {
    hide TookFrames, Tree, Owned, Credit, Mirror, ClonedAt, UserAddr, KernelHalf;
    ghost var s := m.State();
    r, cat := CloneUserPageTable(m, proot, pat);
    between := m.State();
    if r.Some? {
      FreeUserPageTable(m, r.value, cat);
      GivenBack(s, between, m.State(), proot, pat, cat);
    }
  }
}
