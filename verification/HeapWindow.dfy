/** A window of pages mapped into and taken out of a process's tree: the value-level
    facts behind map_pages and unmap_pages (src/arch/x86_64/syscall/mem.c:92-135). */
module HeapWindow {
  import opened Wrappers
  import opened Words
  import opened PageTables
  import opened TreeSteps
  import opened Subtrees
  import opened CloneSteps
  import opened Pmm

  /** The number of the page at a place of depth 4. */
  function PageOf(k: Node): nat {
    match k
    case Sub(Sub(Sub(Sub(Root, i4), i3), i2), i1) => ((i4 * 512 + i3) * 512 + i2) * 512 + i1
    case _ => 0
  }

  lemma PageOfLeaf(w: nat)
    requires UserAddr(w)
    ensures PageOf(Leaf(w)) == w / 4096 && Leaf(w).i < 512 && Depth(Leaf(w).up) == 3
  {
    IndicesOfPage(w);
  }

  /** Frames in use keep their contents, but for the tables of the tree itself. */
  ghost predicate KeepsUsed(s: Phys, m': Mem, at: Places) {
    && |m'| == |s.mem|
    && (forall f :: f in s.used && f !in at.Values && f < |s.mem| ==> m'[f] == s.mem[f])
    && (forall k :: k in at && Depth(k) == 4 && at[k] < |s.mem| ==> m'[at[k]] == s.mem[at[k]])
  }

  /** The tree grew from at to at' by frames that were free, tables or pages. */
  ghost predicate Extends(s: Phys, at: Places, s': Phys, at': Places) {
    && SubPlaces(at, at')
    && NewFrames(s.used, at, at')
    && Charged(s, s', at', |at'| - |at|)
    && KeepsUsed(s, s'.mem, at)
  }

  lemma ExtendsNothing(s: Phys, root: nat, at: Places)
    requires OwnedTree(s, root, at, 4) && 0 <= s.free < TWO_32
    ensures Extends(s, at, s, at)
  {
    hide Tree;
    CreditNothing(s.free);
    assert at.Values <= s.used;
    assert s.used == s.used + at.Values;
  }

  lemma ExtendsTransitive(s: Phys, at: Places, s1: Phys, at1: Places, s2: Phys, at2: Places)
    requires Extends(s, at, s1, at1) && Extends(s1, at1, s2, at2)
    ensures Extends(s, at, s2, at2)
  {
    hide SubPlaces, NewFrames, Charged, KeepsUsed;
    SubPlacesTransitive(at, at1, at2);
    NewTwice(s, at, s1, at1, at2);
    ChargedTwice(s, s1, at1, s2, at2, |at1| - |at|, |at2| - |at1|);
    UsedTwice(s, at, s1, at1, s2.mem);
  }

  lemma UsedTwice(s: Phys, at: Places, s1: Phys, at1: Places, m2: Mem)
    requires SubPlaces(at, at1) && NewFrames(s.used, at, at1) && Charged(s, s1, at1, |at1| - |at|)
    requires KeepsUsed(s, s1.mem, at) && KeepsUsed(s1, m2, at1)
    ensures KeepsUsed(s, m2, at)
  {
    hide Credit;
    forall f | f in s.used && f !in at.Values && f < |s.mem|
      ensures m2[f] == s.mem[f]
    {
      assert f !in at1.Values;
    }
  }

  /** The page at `leaf`, new since at, is given back. */
  lemma ExtendsLess(s: Phys, at: Places, s1: Phys, at1: Places, s2: Phys, leaf: Node)
    requires Extends(s, at, s1, at1) && Injective(at1)
    requires leaf in at1 && leaf !in at && Owned(s, at)
    requires Shrinks(s1, at1, s2, at1 - {leaf})
    ensures Extends(s, at, s2, at1 - {leaf})
  {
    hide SubPlaces, NewFrames, Charged, KeepsUsed, GaveBack, OnlyTables, Injective, Owned;
    LessPlaces(s, at, s1, at1, leaf);
    LessCharged(s, at, s1, at1, s2, leaf);
    LessUsed(s, at, s1, at1, s2.mem, leaf);
  }

  lemma LessPlaces(s: Phys, at: Places, s1: Phys, at1: Places, leaf: Node)
    requires SubPlaces(at, at1) && NewFrames(s.used, at, at1) && leaf !in at
    ensures SubPlaces(at, at1 - {leaf}) && NewFrames(s.used, at, at1 - {leaf})
  {
  }

  lemma LessCharged(s: Phys, at: Places, s1: Phys, at1: Places, s2: Phys, leaf: Node)
    requires Charged(s, s1, at1, |at1| - |at|) && NewFrames(s.used, at, at1)
    requires GaveBack(s1, at1, s2, at1 - {leaf}) && leaf in at1 && leaf !in at && Injective(at1)
    ensures Charged(s, s2, at1 - {leaf}, |at1 - {leaf}| - |at|)
  {
    hide Credit, Without, NewFrames, Injective, SubPlaces;
    WithoutOne(s1.used, at1, leaf);
    CreditTwice(s.free, -(|at1| - |at|), 1);
    LessValues(s.used, at, at1, leaf);
  }

  lemma LessValues(used: set<nat>, at: Places, at1: Places, leaf: Node)
    requires leaf in at1 && leaf !in at && NewFrames(used, at, at1) && Injective(at1)
    ensures used + at1.Values - {at1[leaf]} == used + (at1 - {leaf}).Values
  {
    var at2 := at1 - {leaf};
    forall f
      ensures f in at1.Values && f != at1[leaf] <==> f in at2.Values
    {
      if f in at1.Values && f != at1[leaf] {
        var k :| k in at1 && at1[k] == f;
        assert k in at2 && at2[k] == f;
      }
      if f in at2.Values {
        var k :| k in at2 && at2[k] == f;
        assert k in at1 && k != leaf;
      }
    }
  }

  lemma LessUsed(s: Phys, at: Places, s1: Phys, at1: Places, m2: Mem, leaf: Node)
    requires KeepsUsed(s, s1.mem, at) && OnlyTables(s1.mem, m2, at1) && Owned(s, at)
    requires SubPlaces(at, at1) && NewFrames(s.used, at, at1)
    ensures KeepsUsed(s, m2, at)
  {
    forall f | f in s.used && f !in at.Values && f < |s.mem|
      ensures m2[f] == s.mem[f]
    {
      assert f !in at1.Values;
    }
    forall k | k in at && Depth(k) == 4 && at[k] < |s.mem|
      ensures m2[at[k]] == s.mem[at[k]]
    {
      assert k in at1 && at1[k] == at[k];
    }
  }

  // ----- one page in -----

  /** Frame t taken from the allocator and zeroed. */
  ghost function ZeroedFrame(s: Phys, t: nat): Phys
    requires t < |s.mem|
  {
    Phys(s.mem[t := ZeroData()], s.used + {t}, Credit(s.free, -1))
  }

  lemma ZeroedTree(s: Phys, root: nat, at: Places, t: nat)
    requires OwnedTree(s, root, at, 4) && t < |s.mem| && t !in s.used
    ensures OwnedTree(ZeroedFrame(s, t), root, at, 4) && t !in at.Values
    ensures SameGetPte(s.mem, ZeroedFrame(s, t).mem, root) && KeepsPaths(s.mem, ZeroedFrame(s, t).mem, root)
  {
    hide Shaped, Injective, HoldsTables, Linked, Credit, GetPte, UserPath;
    PlacesBoundIn(s, root, at);
    TreeFrame(s.mem, ZeroedFrame(s, t).mem, root, at, 4);
    PathsFrame(s.mem, ZeroedFrame(s, t).mem, root, at, 4);
  }

  lemma PlacesBoundIn(s: Phys, root: nat, at: Places)
    requires OwnedTree(s, root, at, 4)
    ensures forall k :: k in at ==> at[k] < |s.mem| && at[k] in s.used
    ensures at.Values <= s.used
  {
    hide Linked, Injective;
  }

  lemma AddedPage(s: Phys, at: Places, t: nat, s2: Phys, grown: Places, leaf: Node)
    requires t < |s.mem| && t !in s.used && Owned(s, at)
    requires Grows(ZeroedFrame(s, t), at, s2, grown)
    requires leaf !in at && Depth(leaf) == 4
    ensures t !in grown.Values && leaf !in grown && |s2.mem| == |s.mem| && s2.mem[t] == ZeroData()
    ensures Extends(s, at, s2, grown[leaf := t])
  {
    hide Credit, SubPlaces, NewFrames, KeepsUsed, Charged;
    NotInGrown(s, at, t, s2, grown);
    AddedCharged(s, at, t, s2, grown, leaf);
    AddedPlaces(s, at, t, s2, grown, leaf);
    AddedUsed(s, at, t, s2, grown);
  }

  lemma NotInGrown(s: Phys, at: Places, t: nat, s2: Phys, grown: Places)
    requires t < |s.mem| && t !in s.used && Owned(s, at)
    requires MorePlaces(s.used + {t}, at, grown) && OnlyTables(s.mem[t := ZeroData()], s2.mem, grown)
    ensures t !in grown.Values && |s2.mem| == |s.mem| && s2.mem[t] == ZeroData()
    ensures forall k :: k in grown && Depth(k) == 4 ==> k in at
  {
  }

  lemma AddedCharged(s: Phys, at: Places, t: nat, s2: Phys, grown: Places, leaf: Node)
    requires t < |s.mem| && leaf !in grown
    requires Charged(ZeroedFrame(s, t), s2, grown, |grown| - |at|)
    ensures Charged(s, s2, grown[leaf := t], |grown[leaf := t]| - |at|)
  {
    hide Credit;
    var at' := grown[leaf := t];
    assert |at'| == |grown| + 1;
    assert at'.Values == grown.Values + {t} by { PutValues(grown, leaf, t); }
    CreditTwice(s.free, -1, -(|grown| - |at|));
  }

  lemma PutValues(at: Places, leaf: Node, t: nat)
    requires leaf !in at
    ensures at[leaf := t].Values == at.Values + {t}
  {
    var at' := at[leaf := t];
    assert at'[leaf] == t;
    forall k | k in at
      ensures at[k] in at'.Values
    {
      assert at'[k] == at[k];
    }
  }

  lemma AddedPlaces(s: Phys, at: Places, t: nat, s2: Phys, grown: Places, leaf: Node)
    requires t !in s.used && MorePlaces(s.used + {t}, at, grown) && leaf !in at
    ensures SubPlaces(at, grown[leaf := t]) && NewFrames(s.used, at, grown[leaf := t])
    ensures SubPlaces(at, grown) && NewFrames(s.used, at, grown)
  {
  }

  lemma AddedUsed(s: Phys, at: Places, t: nat, s2: Phys, grown: Places)
    requires t < |s.mem| && t !in s.used && Owned(s, at)
    requires MorePlaces(s.used + {t}, at, grown) && OnlyTables(s.mem[t := ZeroData()], s2.mem, grown)
    ensures KeepsUsed(s, s2.mem, at)
  {
    forall f | f in s.used && f !in at.Values && f < |s.mem|
      ensures s2.mem[f] == s.mem[f]
    {
      assert f !in grown.Values;
    }
    forall k | k in at && Depth(k) == 4 && at[k] < |s.mem|
      ensures s2.mem[at[k]] == s.mem[at[k]]
    {
      assert k in grown && grown[k] == at[k] != t;
    }
  }

  /** The mapping failed and the frame went back. */
  lemma FailedPage(s: Phys, at: Places, t: nat, s2: Phys, grown: Places, s3: Phys)
    requires t < |s.mem| && t !in s.used && Owned(s, at) && 0 <= s.free < TWO_32
    requires Grows(ZeroedFrame(s, t), at, s2, grown)
    requires s3 == Phys(s2.mem, s2.used - {t}, Credit(s2.free, 1))
    ensures t !in grown.Values && Extends(s, at, s3, grown)
    ensures forall k :: k in grown && Depth(k) == 4 ==> k in at
  {
    hide Credit, SubPlaces, NewFrames, KeepsUsed, Charged, MorePlaces, OnlyTables, Owned;
    NotInGrown(s, at, t, s2, grown);
    AddedUsed(s, at, t, s2, grown);
    GrownPlaces(s, at, t, grown);
    FailedCharged(s, at, t, s2, grown, s3);
  }

  lemma FailedCharged(s: Phys, at: Places, t: nat, s2: Phys, grown: Places, s3: Phys)
    requires t < |s.mem| && t !in s.used && t !in grown.Values
    requires Charged(ZeroedFrame(s, t), s2, grown, |grown| - |at|)
    requires s3 == Phys(s2.mem, s2.used - {t}, Credit(s2.free, 1))
    ensures Charged(s, s3, grown, |grown| - |at|)
  {
    hide Credit;
    assert s3.used == s.used + grown.Values;
    CreditTwice(s.free, -1, -(|grown| - |at|));
    CreditTwice(s.free, -1 - (|grown| - |at|), 1);
  }

  lemma GrownPlaces(s: Phys, at: Places, t: nat, grown: Places)
    requires t !in s.used && MorePlaces(s.used + {t}, at, grown)
    ensures SubPlaces(at, grown) && NewFrames(s.used, at, grown)
  {
  }

  // ----- the translation of a window -----

  /** Pages [lo, hi) are mapped with `flags` to zeroed pages, with the way open if the flags have the
      user bit; every other address translates as in m0, and every way that was open is open. */
  ghost predicate Mapped(m0: Mem, m: Mem, root: nat, lo: nat, hi: nat, flags: Flags) {
    forall w: nat :: UserAddr(w) ==> MappedAt(m0, m, root, lo, hi, flags, w)
  }

  ghost predicate MappedAt(m0: Mem, m: Mem, root: nat, lo: nat, hi: nat, flags: Flags, w: nat) {
    && (UserPath(m0, root, w) ==> UserPath(m, root, w))
    && if lo <= w / 4096 < hi then
         var p := GetPte(m, root, w);
         && p.flags == flags && p.frame < |m| && m[p.frame] == ZeroData()
         && (flags.user ==> UserPath(m, root, w))
       else
         Translate(m, root, w) == Translate(m0, root, w)
  }

  ghost predicate Unmapped(m: Mem, root: nat, lo: nat, hi: nat) {
    forall w: nat :: UserAddr(w) && lo <= w / 4096 < hi ==> Translate(m, root, w) == None
  }

  /** New places are tables, or pages of the window. */
  ghost predicate NewOnly(at: Places, at': Places, lo: nat, hi: nat) {
    forall k :: k in at' && k !in at ==> Depth(k) <= 3 || (lo <= PageOf(k) < hi)
  }

  lemma MappedMore(m0: Mem, s: Phys, m2: Mem, root: nat, at: Places, lo: nat, hi: nat, flags: Flags, v: nat, t: nat)
    requires Mapped(m0, s.mem, root, lo, hi, flags) && OwnedTree(s, root, at, 4)
    requires UserAddr(v) && v / 4096 == hi && flags.present && lo <= hi
    requires KeepsUsed(s, m2, at) && t < |m2| && m2[t] == ZeroData()
    requires Remapped(s.mem, m2, root, Leaf(v), Pte(flags, t))
    requires KeepsPaths(s.mem, m2, root) && (flags.user ==> UserPath(m2, root, v))
    ensures Mapped(m0, m2, root, lo, hi + 1, flags)
  {
    hide Shaped, Injective, HoldsTables, Linked, GetPte, Leaf, UserPath;
    forall w: nat | UserAddr(w)
      ensures MappedAt(m0, m2, root, lo, hi + 1, flags, w)
    {
      LeafSamePage(w, v);
      assert MappedAt(m0, s.mem, root, lo, hi, flags, w);
      if lo <= w / 4096 < hi {
        PageKept(s, m2, root, at, w);
      } else if w / 4096 == hi {
        PathOfPage(m2, root, v, w);
      }
    }
  }

  lemma PageKept(s: Phys, m2: Mem, root: nat, at: Places, w: nat)
    requires OwnedTree(s, root, at, 4) && UserAddr(w) && KeepsUsed(s, m2, at)
    requires GetPte(s.mem, root, w).flags.present && GetPte(s.mem, root, w).frame < |s.mem|
    ensures m2[GetPte(s.mem, root, w).frame] == s.mem[GetPte(s.mem, root, w).frame]
  {
    hide Tree;
    TranslateInTree(s.mem, root, at, w);
  }

  lemma MappedSame(m0: Mem, s: Phys, m2: Mem, root: nat, at: Places, lo: nat, hi: nat, flags: Flags)
    requires Mapped(m0, s.mem, root, lo, hi, flags) && OwnedTree(s, root, at, 4) && flags.present
    requires KeepsUsed(s, m2, at) && SameGetPte(s.mem, m2, root) && KeepsPaths(s.mem, m2, root)
    ensures Mapped(m0, m2, root, lo, hi, flags)
  {
    hide Tree, GetPte, UserPath;
    forall w: nat | UserAddr(w)
      ensures MappedAt(m0, m2, root, lo, hi, flags, w)
    {
      assert MappedAt(m0, s.mem, root, lo, hi, flags, w);
      if lo <= w / 4096 < hi {
        PageKept(s, m2, root, at, w);
      }
    }
  }

  /** The first page of the window is taken out again. */
  lemma MappedLess(m0: Mem, s: Phys, m2: Mem, root: nat, at: Places, lo: nat, hi: nat, flags: Flags, v: nat)
    requires Mapped(m0, s.mem, root, lo, hi, flags) && OwnedTree(s, root, at, 4) && flags.present
    requires UserAddr(v) && v / 4096 == lo < hi
    requires OnlyTables(s.mem, m2, at)
    requires Remapped(s.mem, m2, root, Leaf(v), ZERO_PTE) && KeepsPaths(s.mem, m2, root)
    requires Unmapped(m0, root, lo, hi)
    ensures Mapped(m0, m2, root, lo + 1, hi, flags)
  {
    hide Tree, GetPte, Leaf, UserPath;
    PlacesBoundIn(s, root, at);
    assert KeepsUsed(s, m2, at);
    forall w: nat | UserAddr(w)
      ensures MappedAt(m0, m2, root, lo + 1, hi, flags, w)
    {
      LeafSamePage(w, v);
      assert MappedAt(m0, s.mem, root, lo, hi, flags, w);
      if lo < w / 4096 < hi {
        PageKept(s, m2, root, at, w);
      }
    }
  }
}
