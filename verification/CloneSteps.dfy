/** What it takes for one tree to be a copy in progress of another, and what each
    step of the copying keeps (src/mm/vmm.c:251-300). */
module CloneSteps {
  import opened Words
  import opened PageTables
  import opened TreeSteps
  import opened Subtrees
  import opened Pmm

  /** Entry j of place k in the child matches the parent's: the page has the same
      contents and the same low 12 flag bits; a table is present, writable and as
      accessible to user code as the parent's. */
  ghost predicate Twin(m: Mem, pat: Places, cat: Places, k: Node, j: nat)
    requires k in cat && Sub(k, j) in cat
  {
    && k in pat && Sub(k, j) in pat
    && (if Depth(k) == 3 then
          && Entry(m, cat[k], j).flags == Low12(Entry(m, pat[k], j))
          && cat[Sub(k, j)] < |m| && pat[Sub(k, j)] < |m|
          && m[cat[Sub(k, j)]] == m[pat[Sub(k, j)]]
        else
          Entry(m, cat[k], j).flags == Flags(true, true, Entry(m, pat[k], j).flags.user, 0, 0))
  }

  ghost predicate Mirror(m: Mem, pat: Places, cat: Places) {
    forall k, j: nat {:trigger Sub(k, j) in cat} :: Sub(k, j) in cat ==> k in cat && Twin(m, pat, cat, k, j)
  }

  /** Parent and child are whole trees without a common frame, and every place of the
      child mirrors the parent's. */
  ghost predicate Cloning(s: Phys, proot: nat, pat: Places, croot: nat, cat: Places) {
    && OwnedTree(s, proot, pat, 4) && OwnedTree(s, croot, cat, 4)
    && pat.Values !! cat.Values
    && Mirror(s.mem, pat, cat)
  }

  ghost predicate KeepsOthers(m: Mem, m': Mem, cat': Places) {
    |m'| == |m| && forall f :: 0 <= f < |m| && f !in cat'.Values ==> m'[f] == m[f]
  }

  ghost predicate NewFrames(used: set<nat>, cat: Places, cat': Places) {
    forall k :: k in cat' && k !in cat ==> cat'[k] !in used
  }

  /** The child grew from cat to cat' by frames that were free. */
  ghost predicate Copies(s: Phys, cat: Places, s': Phys, cat': Places) {
    && SubPlaces(cat, cat')
    && NewFrames(s.used, cat, cat')
    && Charged(s, s', cat', |cat'| - |cat|)
    && KeepsOthers(s.mem, s'.mem, cat')
  }

  /** The upper half of the root, which the processes share with the kernel, is kept. */
  ghost predicate KeepsUpper(m: Mem, m': Mem, root: nat) {
    forall j: nat :: 256 <= j < 512 ==> Entry(m', root, j) == Entry(m, root, j)
  }

  lemma KeepsUpperTwice(m: Mem, m1: Mem, m2: Mem, root: nat)
    requires KeepsUpper(m, m1, root) && KeepsUpper(m1, m2, root)
    ensures KeepsUpper(m, m2, root)
  {
  }

  lemma CopiesNothing(s: Phys, root: nat, cat: Places)
    requires OwnedTree(s, root, cat, 4) && 0 <= s.free < TWO_32
    ensures Copies(s, cat, s, cat)
  {
    hide Tree;
    CreditNothing(s.free);
    assert cat.Values <= s.used;
    assert s.used == s.used + cat.Values;
  }

  lemma CopiesTransitive(s: Phys, cat: Places, s1: Phys, cat1: Places, s2: Phys, cat2: Places)
    requires Copies(s, cat, s1, cat1) && Copies(s1, cat1, s2, cat2)
    ensures Copies(s, cat, s2, cat2)
  {
    hide SubPlaces, Charged, KeepsOthers, NewFrames;
    SubPlacesTransitive(cat, cat1, cat2);
    ChargedTwice(s, s1, cat1, s2, cat2, |cat1| - |cat|, |cat2| - |cat1|);
    OthersTwice(s.mem, s1.mem, cat1, s2.mem, cat2);
    NewTwice(s, cat, s1, cat1, cat2);
  }

  lemma ChargedTwice(s: Phys, s1: Phys, at1: Places, s2: Phys, at2: Places, a: int, b: int)
    requires Charged(s, s1, at1, a) && Charged(s1, s2, at2, b) && SubPlaces(at1, at2)
    ensures Charged(s, s2, at2, a + b)
  {
    hide Credit;
    SubValues(at2, at1);
    assert s2.used == s.used + at2.Values;
    CreditTwice(s.free, -a, -b);
  }

  lemma OthersTwice(m: Mem, m1: Mem, at1: Places, m2: Mem, at2: Places)
    requires KeepsOthers(m, m1, at1) && KeepsOthers(m1, m2, at2) && SubPlaces(at1, at2)
    ensures KeepsOthers(m, m2, at2)
  {
    SubValues(at2, at1);
  }

  lemma NewTwice(s: Phys, cat: Places, s1: Phys, cat1: Places, cat2: Places)
    requires Charged(s, s1, cat1, |cat1| - |cat|) && SubPlaces(cat1, cat2)
    requires NewFrames(s.used, cat, cat1) && NewFrames(s1.used, cat1, cat2)
    ensures NewFrames(s.used, cat, cat2)
  {
    hide Credit;
  }

  // ----- one place more -----

  /** The parent is not touched by a step that changes only the child's pages. */
  lemma ParentKept(m: Mem, m': Mem, proot: nat, pat: Places, cat': Places)
    requires Tree(m, proot, pat, 4) && KeepsOthers(m, m', cat') && pat.Values !! cat'.Values
    ensures Tree(m', proot, pat, 4)
    ensures forall k :: k in pat ==> pat[k] < |m| && m'[pat[k]] == m[pat[k]]
    ensures forall k, j: nat :: k in pat ==> Entry(m', pat[k], j) == Entry(m, pat[k], j)
  {
    hide Shaped, Injective, Linked, Entry;
    forall k | k in pat
      ensures pat[k] < |m| && m'[pat[k]] == m[pat[k]]
    {
      assert pat[k] in pat.Values;
    }
    TreeFrame(m, m', proot, pat, 4);
    SameEntries(m, m', pat);
  }

  lemma SameEntries(m: Mem, m': Mem, at: Places)
    requires |m'| == |m| && forall k :: k in at ==> at[k] < |m| && m'[at[k]] == m[at[k]]
    ensures forall k, j: nat :: k in at ==> Entry(m', at[k], j) == Entry(m, at[k], j)
  {
  }

  /** Adding one place that mirrors the parent's keeps the mirror. */
  lemma MirrorOneMore(m: Mem, m': Mem, pat: Places, cat: Places, n: Node, i: nat, t: nat)
    requires Mirror(m, pat, cat) && n in cat && Sub(n, i) !in cat && |m'| == |m|
    requires forall k, j: nat :: k in pat ==> Entry(m', pat[k], j) == Entry(m, pat[k], j)
    requires forall k :: k in pat ==> pat[k] < |m| && m'[pat[k]] == m[pat[k]]
    requires forall k, j: nat {:trigger Entry(m', cat[k], j)} :: k in cat && Depth(k) <= 3 && !(k == n && j == i) ==>
               Entry(m', cat[k], j) == Entry(m, cat[k], j)
    requires forall k :: k in cat && Depth(k) == 4 && cat[k] < |m| ==> m'[cat[k]] == m[cat[k]]
    requires forall k :: k in cat ==> Depth(k) <= 4
    requires Twin(m', pat, cat[Sub(n, i) := t], n, i)
    ensures Mirror(m', pat, cat[Sub(n, i) := t])
  {
    hide Entry;
    var cat' := cat[Sub(n, i) := t];
    forall k, j: nat | Sub(k, j) in cat'
      ensures k in cat' && Twin(m', pat, cat', k, j)
    {
      if Sub(k, j) != Sub(n, i) {
        assert Sub(k, j) in cat && Depth(Sub(k, j)) == Depth(k) + 1;
        assert Twin(m, pat, cat, k, j);
        assert cat'[k] == cat[k] && cat'[Sub(k, j)] == cat[Sub(k, j)];
        assert Entry(m', cat[k], j) == Entry(m, cat[k], j);
      }
    }
  }

  /** Parent and child stay apart when the child takes a free frame. */
  lemma StillApart(s: Phys, pat: Places, cat: Places, c: Node, t: nat)
    requires Owned(s, pat) && pat.Values !! cat.Values && t !in s.used && c !in cat
    ensures pat.Values !! cat[c := t].Values
  {
    assert cat[c := t].Values <= cat.Values + {t};
  }

  /** A table of the child, made for a table of the parent. */
  lemma CloneTable(s: Phys, proot: nat, pat: Places, croot: nat, cat: Places, n: Node, i: nat, t: nat, flags: Flags)
    requires Cloning(s, proot, pat, croot, cat)
    requires n in pat && n in cat && Depth(n) <= 2 && i < Width(n) && Sub(n, i) in pat && Sub(n, i) !in cat
    requires t < |s.mem| && t !in s.used && cat[n] < |s.mem| && s.mem[cat[n]].Table? && t != cat[n]
    requires flags == Flags(true, true, Entry(s.mem, pat[n], i).flags.user, 0, 0)
    ensures var cat', s' := cat[Sub(n, i) := t], NewTable(s, cat, n, i, t, flags);
            Cloning(s', proot, pat, croot, cat') && Copies(s, cat, s', cat') && KeepsUpper(s.mem, s'.mem, croot)
  {
    hide Shaped, Injective, HoldsTables, Linked, Charged, Mirror, Entry, SetEntry, ClearTable, Twin;
    OtherPlaces(s, croot, cat, n, t);
    RootPlace(s.mem, croot, cat, 4);
    var cat', s' := cat[Sub(n, i) := t], NewTable(s, cat, n, i, t, flags);
    TableAt(s.mem, croot, cat, 4, n);
    NewTableGrows(s, croot, cat, 4, n, i, t, flags);
    StillApart(s, pat, cat, Sub(n, i), t);
    GrownCopies(s, cat, s', cat');
    ParentKept(s.mem, s'.mem, proot, pat, cat');
    CloneTableMirror(s, proot, pat, croot, cat, n, i, t, flags);
    OwnedGrows(s, pat, s', cat', |cat'| - |cat|);
  }

  lemma OwnedGrows(s: Phys, pat: Places, s': Phys, cat': Places, k: int)
    requires Owned(s, pat) && Charged(s, s', cat', k)
    ensures Owned(s', pat)
  {
  }

  lemma GrownCopies(s: Phys, cat: Places, s': Phys, cat': Places)
    requires Grows(s, cat, s', cat')
    ensures Copies(s, cat, s', cat')
  {
    hide Charged;
  }

  lemma CloneTableMirror(s: Phys, proot: nat, pat: Places, croot: nat, cat: Places, n: Node, i: nat, t: nat,
      flags: Flags)
    requires Cloning(s, proot, pat, croot, cat)
    requires n in pat && n in cat && Depth(n) <= 2 && i < Width(n) && Sub(n, i) in pat && Sub(n, i) !in cat
    requires t < |s.mem| && t !in s.used && cat[n] < |s.mem| && s.mem[cat[n]].Table? && t != cat[n]
    requires flags == Flags(true, true, Entry(s.mem, pat[n], i).flags.user, 0, 0)
    ensures Mirror(NewTable(s, cat, n, i, t, flags).mem, pat, cat[Sub(n, i) := t])
  {
    hide Shaped, HoldsTables, Linked, Entry, SetEntry, ClearTable, Mirror;
    var m' := NewTable(s, cat, n, i, t, flags).mem;
    OtherPlaces(s, croot, cat, n, t);
    OtherPlaces(s, proot, pat, n, t);
    forall k | k in pat
      ensures pat[k] < |s.mem| && m'[pat[k]] == s.mem[pat[k]]
    {
      assert pat[k] in pat.Values && cat[n] in cat.Values;
    }
    SameEntries(s.mem, m', pat);
    MirrorOneMore(s.mem, m', pat, cat, n, i, t);
  }

  /** A frame that is not in use is at no place, and the table at n only at n. */
  lemma OtherPlaces(s: Phys, root: nat, at: Places, n: Node, t: nat)
    requires OwnedTree(s, root, at, 4) && t !in s.used
    ensures forall k :: k in at ==> at[k] != t && at[k] < |s.mem| && Depth(k) <= 4
    ensures forall k :: k in at && n in at && k != n ==> at[k] != at[n]
  {
    hide Linked;
  }

  /** The state after frame t became the copy of the parent's page at Sub(n, i). */
  ghost function ClonedPage(s: Phys, pat: Places, cat: Places, n: Node, i: nat, t: nat): Phys
    requires n in pat && n in cat && Sub(n, i) in pat && pat[Sub(n, i)] < |s.mem| && t < |s.mem|
    requires cat[n] < |s.mem| && s.mem[cat[n]].Table? && t != cat[n] && i < 512
  {
    Phys(SetEntry(s.mem[t := s.mem[pat[Sub(n, i)]]], cat[n], i, Pte(Low12(Entry(s.mem, pat[n], i)), t)),
         s.used + {t}, Credit(s.free, -1))
  }

  lemma ClonePage(s: Phys, proot: nat, pat: Places, croot: nat, cat: Places, n: Node, i: nat, t: nat)
    requires Cloning(s, proot, pat, croot, cat) && 0 <= s.free < TWO_32
    requires n in pat && n in cat && Depth(n) == 3 && i < Width(n) && Sub(n, i) in pat && Sub(n, i) !in cat
    requires t < |s.mem| && t !in s.used
    ensures cat[n] < |s.mem| && s.mem[cat[n]].Table? && t != cat[n] && pat[Sub(n, i)] < |s.mem|
    ensures var cat', s' := cat[Sub(n, i) := t], ClonedPage(s, pat, cat, n, i, t);
            Cloning(s', proot, pat, croot, cat') && Copies(s, cat, s', cat') && KeepsUpper(s.mem, s'.mem, croot)
  {
    hide Shaped, Injective, HoldsTables, Linked, Charged, Mirror, Entry, SetEntry, Twin, KeepsOthers;
    RootPlace(s.mem, croot, cat, 4);
    OtherPlaces(s, croot, cat, n, t);
    OtherPlaces(s, proot, pat, n, t);
    SameRootEntries(s.mem, t, s.mem[pat[Sub(n, i)]], croot);
    TableAt(s.mem, croot, cat, 4, n);
    TableAt(s.mem, proot, pat, 4, n);
    var cat', s' := cat[Sub(n, i) := t], ClonedPage(s, pat, cat, n, i, t);
    StillApart(s, pat, cat, Sub(n, i), t);
    ClonePageTree(s, proot, pat, croot, cat, n, i, t);
    ClonePageCopies(s, pat, cat, n, i, t);
    ParentKept(s.mem, s'.mem, proot, pat, cat');
    ClonePageMirror(s, proot, pat, croot, cat, n, i, t);
    OwnedGrows(s, pat, s', cat', |cat'| - |cat|);
  }

  lemma SameRootEntries(m: Mem, t: nat, p: Page, root: nat)
    requires t < |m| && root != t
    ensures forall j: nat :: Entry(m[t := p], root, j) == Entry(m, root, j)
  {
  }

  lemma ClonePageCopies(s: Phys, pat: Places, cat: Places, n: Node, i: nat, t: nat)
    requires Owned(s, cat) && n in pat && n in cat && Sub(n, i) in pat && pat[Sub(n, i)] < |s.mem|
    requires t < |s.mem| && t !in s.used && Sub(n, i) !in cat
    requires cat[n] < |s.mem| && s.mem[cat[n]].Table? && t != cat[n] && i < 512
    ensures Copies(s, cat, ClonedPage(s, pat, cat, n, i, t), cat[Sub(n, i) := t])
  {
    hide Entry, Credit;
    var cat' := cat[Sub(n, i) := t];
    assert |cat'| == |cat| + 1;
    assert cat'[Sub(n, i)] == t && cat'[n] == cat[n];
    forall f | f in s.used + {t}
      ensures f in s.used + cat'.Values
    {
    }
    assert s.used + {t} == s.used + cat'.Values by {
      forall k | k in cat
        ensures cat[k] in s.used
      {
      }
    }
  }

  lemma ClonePageTree(s: Phys, proot: nat, pat: Places, croot: nat, cat: Places, n: Node, i: nat, t: nat)
    requires Cloning(s, proot, pat, croot, cat) && 0 <= s.free < TWO_32
    requires n in pat && n in cat && Depth(n) == 3 && i < Width(n) && Sub(n, i) in pat && Sub(n, i) !in cat
    requires t < |s.mem| && t !in s.used && pat[Sub(n, i)] < |s.mem|
    requires cat[n] < |s.mem| && s.mem[cat[n]].Table? && t != cat[n]
    ensures OwnedTree(ClonedPage(s, pat, cat, n, i, t), croot, cat[Sub(n, i) := t], 4)
  {
    hide Shaped, Injective, HoldsTables, Linked, Mirror, Entry, SetEntry, Credit;
    OtherPlaces(s, croot, cat, n, t);
    TableAt(s.mem, proot, pat, 4, n);
    var m1 := s.mem[t := s.mem[pat[Sub(n, i)]]];
    TreeFrame(s.mem, m1, croot, cat, 4);
    assert t !in cat.Values;
    var s1 := Phys(m1, s.used + {t}, Credit(s.free, -1));
    assert OwnedTree(s1, croot, cat, 4);
    var _, _ := StorePage(s1, croot, cat, 4, Sub(n, i), Pte(Low12(Entry(s.mem, pat[n], i)), t));
  }

  lemma ClonePageMirror(s: Phys, proot: nat, pat: Places, croot: nat, cat: Places, n: Node, i: nat, t: nat)
    requires Cloning(s, proot, pat, croot, cat)
    requires n in pat && n in cat && Depth(n) == 3 && i < Width(n) && Sub(n, i) in pat && Sub(n, i) !in cat
    requires t < |s.mem| && t !in s.used && pat[Sub(n, i)] < |s.mem|
    requires cat[n] < |s.mem| && s.mem[cat[n]].Table? && t != cat[n]
    ensures Mirror(ClonedPage(s, pat, cat, n, i, t).mem, pat, cat[Sub(n, i) := t])
  {
    hide Shaped, HoldsTables, Linked, Entry, SetEntry, Mirror;
    var m1 := s.mem[t := s.mem[pat[Sub(n, i)]]];
    var m' := ClonedPage(s, pat, cat, n, i, t).mem;
    OtherPlaces(s, croot, cat, n, t);
    OtherPlaces(s, proot, pat, n, t);
    forall k | k in pat
      ensures pat[k] < |s.mem| && m'[pat[k]] == s.mem[pat[k]]
    {
      assert pat[k] in pat.Values && cat[n] in cat.Values;
    }
    SameEntries(s.mem, m', pat);
    SameEntries(s.mem, m1, cat);
    MirrorOneMore(s.mem, m', pat, cat, n, i, t);
  }
}
