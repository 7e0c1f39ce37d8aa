/** The page-table operations on physical memory (src/mm/vmm.c). */
module Vmm {
  import opened Wrappers
  import opened PageTables
  import opened TreeSteps
  import opened Pmm

  /** A node with the higher half of the kernel's root table. */
  ghost predicate KernelHalf(m: Mem, kernel: nat, root: nat) {
    forall i :: 256 <= i < 512 ==> Entry(m, root, i) == Entry(m, kernel, i)
  }

  /** The entry vmm_map_page_in stores: the frame with the given flags, or with
      present and writable when the flags are zero. */
  function MappedPte(phys: nat, flags: Flags): Pte {
    Pte(if flags == NO_FLAGS then Flags(true, true, false, 0, 0) else flags, phys)
  }

  /** The page of v after a mapping: to the frame, with the flags, or present and writable for no flags. */
  lemma MappedThere(m: Mem, m': Mem, root: nat, v: nat, phys: nat, flags: Flags, w: nat)
    requires Remapped(m, m', root, Leaf(v), MappedPte(phys, flags)) && UserAddr(v) && UserAddr(w)
    ensures v / 4096 == w / 4096 && flags != NO_FLAGS ==> GetPte(m', root, w) == Pte(flags, phys)
    ensures v / 4096 == w / 4096 && flags == NO_FLAGS ==>
              GetPte(m', root, w) == Pte(Flags(true, true, false, 0, 0), phys)
    ensures v / 4096 != w / 4096 ==> GetPte(m', root, w) == GetPte(m, root, w)
  {
    LeafSamePage(v, w);
    hide GetPte, Leaf;
  }

  /** Entry i of table f gained the user bit if `user`; nothing else changed. */
  ghost predicate SameButUser(m: Mem, m': Mem, f: nat, i: nat, user: bool) {
    m' == if user && f < |m| && m[f].Table? && i < 512
          then SetEntry(m, f, i, Entry(m, f, i).(flags := Entry(m, f, i).flags.(user := true))) else m
  }

  class Machine {
    const pmm: FrameAllocator
    const kernelRoot: nat // kernel_cr3
    var mem: Mem

    ghost predicate Valid()
      reads this, pmm, pmm.bitmap
    {
      && pmm.Valid()
      && |mem| == pmm.maxPages
      && kernelRoot < |mem| && mem[kernelRoot].Table? && kernelRoot in pmm.Used()
    }

    ghost function State(): Phys
      reads this, pmm, pmm.bitmap
    {
      Phys(mem, pmm.Used(), pmm.freeMem)
    }

    constructor (p: FrameAllocator, kernel: nat, m: Mem)
      requires p.Valid() && |m| == p.maxPages
      requires kernel < |m| && m[kernel].Table? && kernel in p.Used()
      ensures Valid() && pmm == p && kernelRoot == kernel && mem == m
    {
      pmm := p;
      kernelRoot := kernel;
      mem := m;
    }

    /** ensure_table for entry i of the table at place n: the next table, created
        and zeroed when the entry is absent. None when no frame is free. */
    method EnsureTable(f: nat, i: nat, flags: Flags, ghost root: nat, ghost at: Places, ghost d: nat, ghost n: Node)
      returns (r: Option<nat>, ghost at': Places)
      requires Valid() && OwnedTree(State(), root, at, d)
      requires n in at && at[n] == f && Depth(n) <= 2 && i < Width(n)
      modifies this`mem, pmm`freeMem, pmm.bitmap
      ensures Valid() && OwnedTree(State(), root, at', d)
      ensures Grows(old(State()), at, State(), at') && SameGetPte(old(mem), mem, root)
      ensures r.Some? ==> Sub(n, i) in at' && at'[Sub(n, i)] == r.value
      ensures |at'| <= |at| + 1
      ensures r.Some? && Sub(n, i) in at ==> at' == at && SameButUser(old(mem), mem, f, i, flags.user)
      ensures r.Some? && Sub(n, i) !in at ==> at' == at[Sub(n, i) := r.value]
      ensures r.Some? && Sub(n, i) !in at ==>
                && at[n] < |old(mem)| && old(mem)[at[n]].Table?
                && r.value < |old(mem)| && r.value !in old(pmm.Used()) && r.value != at[n]
                && State() == NewTable(old(State()), at, n, i, r.value, Flags(true, true, flags.user, 0, 0))
      ensures r.None? ==> at' == at && State() == old(State()) && Sub(n, i) !in at && OutOfFrames()
      ensures r.Some? && flags.user ==> UserAt(mem, at', n, i)
    {
      hide Tree, Owned, Grows, SameGetPte, SetEntry, ClearTable, Entry, Run, Credit;
      TableAt(mem, root, at, d, n);
      var e := mem[f].e[i];
      at' := at;
      GrowsByNothing(State(), root, at, d);
      if e.flags.present {
        if flags.user {
          ghost var _ := UserBitGrows(State(), root, at, d, n, i);
          mem := SetEntry(mem, f, i, e.(flags := e.flags.(user := true)));
        }
        return Some(e.frame), at;
      }
      var page := pmm.Pmalloc(1);
      if page.None? {
        OneFrameFree(old(pmm.Used()), pmm.maxPages);
        return None, at;
      }
      var t := page.value;
      assert Run(t, 1) == {t};
      NewTableGrows(old(State()), root, at, d, n, i, t, Flags(true, true, flags.user, 0, 0));
      at' := at[Sub(n, i) := t];
      mem := ClearTable(mem, t);
      mem := SetEntry(mem, f, i, Pte(Flags(true, true, flags.user, 0, 0), t));
      r := Some(t);
    }

    /** The first two calls of ensure_table, for the tables at the places n3 and n2. */
    method UpperTables(root: nat, i4: nat, i3: nat, flags: Flags, ghost at: Places, ghost d: nat)
      returns (r: Option<nat>, ghost grown: Places)
      requires Valid() && OwnedTree(State(), root, at, d) && i4 < 256 && i3 < 512
      modifies this`mem, pmm`freeMem, pmm.bitmap
      ensures Valid() && OwnedTree(State(), root, grown, d)
      ensures Grows(old(State()), at, State(), grown) && SameGetPte(old(mem), mem, root)
      ensures forall k :: k in grown ==> k in at || k == Sub(Root, i4) || k == Sub(Sub(Root, i4), i3)
      ensures r.Some? ==> Sub(Root, i4) in grown
      ensures r.Some? ==> Sub(Sub(Root, i4), i3) in grown && grown[Sub(Sub(Root, i4), i3)] == r.value
      ensures r.None? ==> OutOfFrames() && !(Sub(Root, i4) in grown && Sub(Sub(Root, i4), i3) in grown)
      ensures r.Some? && flags.user ==> UserAt(mem, grown, Root, i4) && UserAt(mem, grown, Sub(Root, i4), i3)
    {
      hide Tree, Owned, Grows, SetEntry, Entry, GetPte, SameGetPte, UserAt;
      GrowsByNothing(State(), root, at, d);
      RootPlace(mem, root, at, d);
      var pdpt;
      pdpt, grown := EnsureTable(root, i4, flags, root, at, d, Root);
      if pdpt.None? { return None, grown; }
      label L3:
      ghost var g3 := grown;
      r, grown := EnsureTable(pdpt.value, i3, flags, root, grown, d, Sub(Root, i4));
      GrowsTransitive(old(State()), at, old@L3(State()), g3, State(), grown);
      SameGetPteTransitive(old(mem), old@L3(mem), mem, root);
      if r.Some? && flags.user {
        StillUser(old@L3(State()), g3, State(), grown, Root, i4);
      }
    }

    /** The three calls of ensure_table on the way to the page of v. They succeed exactly when all of
        its tables are there afterwards. */
    method EnsureTables(root: nat, v: nat, flags: Flags, ghost at: Places, ghost d: nat)
      returns (r: Option<nat>, ghost grown: Places)
      requires Valid() && OwnedTree(State(), root, at, d) && UserAddr(v)
      modifies this`mem, pmm`freeMem, pmm.bitmap
      ensures Valid() && OwnedTree(State(), root, grown, d)
      ensures Grows(old(State()), at, State(), grown) && SameGetPte(old(mem), mem, root)
      ensures grown.Keys <= at.Keys + TablesTo(v)
      ensures r.Some? <==> TablesTo(v) <= grown.Keys
      ensures r.Some? ==> Leaf(v).up in grown && grown[Leaf(v).up] == r.value
      ensures r.None? ==> OutOfFrames()
      ensures KeepsPaths(old(mem), mem, root) && (r.Some? && flags.user ==> UserPath(mem, root, v))
    {
      hide Tree, Owned, Grows, SetEntry, Entry, GetPte, SameGetPte, UserAddr, Index1, Index2, Index3, Index4, UserAt,
        UserPath, KeepsPaths;
      IndexBounds(v);
      var pd;
      pd, grown := UpperTables(root, Index4(v), Index3(v), flags, at, d);
      PathsGrow(old(State()), root, at, State(), grown, grown, d);
      if pd.None? { return None, grown; }
      label L2:
      ghost var g2, n3 := grown, Sub(Root, Index4(v));
      assert Depth(n3) == 1;
      r, grown := EnsureTable(pd.value, Index2(v), flags, root, grown, d, Sub(n3, Index3(v)));
      GrowsTransitive(old(State()), at, old@L2(State()), g2, State(), grown);
      SameGetPteTransitive(old(mem), old@L2(mem), mem, root);
      PathsGrow(old(State()), root, at, State(), grown, grown, d);
      if r.Some? && flags.user {
        StillUser(old@L2(State()), g2, State(), grown, Root, Index4(v));
        StillUser(old@L2(State()), g2, State(), grown, n3, Index3(v));
        PathInTree(mem, root, grown, d, v);
      }
    }

    /** vmm_map_page_in. With d == 4 the mapped frame is one the caller has taken
        from the allocator for this page. */
    method MapPageIn(root: nat, v: nat, phys: nat, flags: Flags, ghost at: Places, ghost d: nat)
      returns (rc: int, ghost grown: Places, ghost at': Places)
      requires Valid() && OwnedTree(State(), root, at, d) && UserAddr(v)
      requires d == 4 ==> phys < |mem| && phys in pmm.Used() && phys !in at.Values
      requires d == 4 ==> flags == NO_FLAGS || flags.present
      modifies this`mem, pmm`freeMem, pmm.bitmap
      ensures Valid() && OwnedTree(State(), root, at', d)
      ensures rc == 0 || rc == -1
      ensures rc == 0 ==> v != 0 && phys != 0
      ensures rc == -1 ==> v == 0 || phys == 0 || OutOfFrames()
      ensures Grows(old(State()), at, State(), grown) && |grown| <= |at| + 3
      ensures at' == if rc == 0 then LeafPlaces(grown, d, Leaf(v), MappedPte(phys, flags)) else grown
      ensures rc == 0 ==> Remapped(old(mem), mem, root, Leaf(v), MappedPte(phys, flags))
      ensures rc == -1 ==> SameGetPte(old(mem), mem, root)
      ensures grown.Keys <= at.Keys + TablesTo(v)
      ensures rc == 0 ==> TablesTo(v) <= grown.Keys
      ensures rc == -1 && v != 0 && phys != 0 ==> !(TablesTo(v) <= grown.Keys)
      ensures KeepsPaths(old(mem), mem, root) && (rc == 0 && flags.user ==> UserPath(mem, root, v))
    {
      hide Tree, Owned, Grows, SetEntry, Entry, GetPte, SameGetPte, UserAddr, Remapped, TablesTo, Leaf, UserPath;
      at', grown, rc := at, at, -1;
      GrowsByNothing(State(), root, at, d);
      if v == 0 || phys == 0 {
        return;
      }
      var pt;
      pt, grown := EnsureTables(root, v, flags, at, d);
      ThreeTables(at, grown, v);
      if pt.None? { return -1, grown, grown; }
      label L1:
      if d == 4 {
        NewFrameOutside(old(State()), at, State(), grown, phys);
      }
      ghost var leaf := Leaf(v);
      LeafIndex(v);
      ghost var _, after := StorePage(State(), root, grown, d, leaf, MappedPte(phys, flags));
      mem := SetEntry(mem, pt.value, Index1(v), MappedPte(phys, flags));
      GrowsTransitive(old(State()), at, old@L1(State()), grown, State(), grown);
      RemappedAfter(old(mem), old@L1(mem), mem, root, leaf, MappedPte(phys, flags));
      LeafTables(grown, d, leaf, MappedPte(phys, flags));
      PathsGrow(old@L1(State()), root, grown, State(), grown, after, d);
      return 0, grown, after;
    }

    /** vmm_get_pte. */
    method ReadPte(root: nat, v: nat, ghost at: Places, ghost d: nat) returns (p: Pte)
      requires Valid() && OwnedTree(State(), root, at, d) && UserAddr(v)
      ensures p == GetPte(mem, root, v)
    {
      hide Tree, Entry;
      var i4, i3, i2, i1 := Index4(v), Index3(v), Index2(v), Index1(v);
      IndicesOfPage(v);
      RootPlace(mem, root, at, d);
      TableAt(mem, root, at, d, Root);
      var e4 := mem[root].e[i4];
      if !e4.flags.present { return ZERO_PTE; }
      ghost var n3 := Sub(Root, i4);
      TableAt(mem, root, at, d, n3);
      var e3 := mem[e4.frame].e[i3];
      if !e3.flags.present { return ZERO_PTE; }
      ghost var n2 := Sub(n3, i3);
      TableAt(mem, root, at, d, n2);
      var e2 := mem[e3.frame].e[i2];
      if !e2.flags.present { return ZERO_PTE; }
      TableAt(mem, root, at, d, Sub(n2, i2));
      return mem[e2.frame].e[i1];
    }

    /** vmm_unmap_page_in: the frame that was mapped, 0 when none was. */
    method UnmapPageIn(root: nat, v: nat, ghost at: Places, ghost d: nat) returns (phys: nat, ghost at': Places)
      requires Valid() && OwnedTree(State(), root, at, d) && UserAddr(v)
      modifies this`mem
      ensures Valid() && OwnedTree(State(), root, at', d)
      ensures phys == old(if GetPte(mem, root, v).flags.present then GetPte(mem, root, v).frame else 0)
      ensures at' == if old(GetPte(mem, root, v).flags.present) then LeafPlaces(at, d, Leaf(v), ZERO_PTE) else at
      ensures Grows(old(State()), at, State(), at)
      ensures if old(GetPte(mem, root, v).flags.present) then Remapped(old(mem), mem, root, Leaf(v), ZERO_PTE)
              else mem == old(mem)
      ensures KeepsPaths(old(mem), mem, root)
    {
      hide Tree, Owned, Grows, Entry, SetEntry, UserAddr, Remapped, UserPath;
      at' := at;
      GrowsByNothing(State(), root, at, d);
      var i4, i3, i2, i1 := Index4(v), Index3(v), Index2(v), Index1(v);
      IndicesOfPage(v);
      RootPlace(mem, root, at, d);
      TableAt(mem, root, at, d, Root);
      var e4 := mem[root].e[i4];
      if !e4.flags.present { return 0, at; }
      ghost var n3 := Sub(Root, i4);
      TableAt(mem, root, at, d, n3);
      var e3 := mem[e4.frame].e[i3];
      if !e3.flags.present { return 0, at; }
      ghost var n2 := Sub(n3, i3);
      TableAt(mem, root, at, d, n2);
      var e2 := mem[e3.frame].e[i2];
      if !e2.flags.present { return 0, at; }
      TableAt(mem, root, at, d, Sub(n2, i2));
      var e1 := mem[e2.frame].e[i1];
      if !e1.flags.present { return 0, at; }
      ghost var _, after := StorePage(State(), root, at, d, Leaf(v), ZERO_PTE);
      mem := SetEntry(mem, e2.frame, i1, ZERO_PTE);
      LeafTables(at, d, Leaf(v), ZERO_PTE);
      PathsGrow(old(State()), root, at, State(), at, after, d);
      return e1.frame, after;
    }

    /** vmm_create_user_page_table: a root with the kernel's upper half and no pages. */
    method CreateUserPageTable() returns (r: Option<nat>)
      requires Valid()
      modifies this`mem, pmm`freeMem, pmm.bitmap
      ensures Valid()
      ensures r.None? ==> State() == old(State()) && OutOfFrames()
      ensures r.Some? ==>
                && r.value !in old(pmm.Used()) && r.value < |mem|
                && pmm.Used() == old(pmm.Used()) + {r.value}
                && pmm.freeMem == Credit(old(pmm.freeMem), -1)
                && OwnedTree(State(), r.value, map[Root := r.value], 4)
                && KernelHalf(mem, kernelRoot, r.value)
                && (forall v :: UserAddr(v) ==> GetPte(mem, r.value, v) == ZERO_PTE)
                && (forall f :: 0 <= f < |mem| && f != r.value ==> mem[f] == old(mem[f]))
    {
      hide Tree, GetPte, UserAddr, Run, Credit;
      var page := pmm.Pmalloc(1);
      if page.None? {
        OneFrameFree(old(pmm.Used()), pmm.maxPages);
        return None;
      }
      var t := page.value;
      assert Run(t, 1) == {t};
      mem := ClearTable(mem, t);
      for i := 256 to 512
        modifies this`mem
        invariant Valid() && t !in old(pmm.Used()) && State().used == old(pmm.Used()) + {t}
        invariant |mem| == old(|mem|) && t < |mem| && mem[t].Table? && t != kernelRoot
        invariant forall f :: 0 <= f < |mem| && f != t ==> mem[f] == old(mem[f])
        invariant forall j :: 0 <= j < 512 ==>
          Entry(mem, t, j) == if 256 <= j < i then Entry(mem, kernelRoot, j) else ZERO_PTE
      {
        mem := SetEntry(mem, t, i, mem[kernelRoot].e[i]);
      }
      EmptyTree(mem, t);
      r := Some(t);
    }

    ghost predicate OutOfFrames()
      reads this, pmm, pmm.bitmap
    {
      forall f: nat :: f < pmm.maxPages ==> f in pmm.Used()
    }
  }

  lemma ThreeTables(at: Places, grown: Places, v: nat)
    requires grown.Keys <= at.Keys + TablesTo(v)
    ensures |grown| <= |at| + 3
  {
    assert |TablesTo(v)| <= 3;
    var both := at.Keys + TablesTo(v);
    assert both == grown.Keys + (both - grown.Keys);
    assert |grown| == |grown.Keys| && |at| == |at.Keys|;
  }

  lemma OneFrameFree(used: set<nat>, maxPages: nat)
    requires !exists i: nat :: i < maxPages && FreeRun(used, i, 1)
    ensures forall f: nat :: f < maxPages ==> f in used
  {
    forall f: nat | f < maxPages
      ensures f in used
    {
      assert !FreeRun(used, f, 1);
    }
  }
}
