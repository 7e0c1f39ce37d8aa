/** The program loader: pages for the segments, their bytes, their zeros
    (src/kernel/elf.c:71-260). */
module Elf {
  import opened Wrappers
  import opened Words
  import opened PageTables
  import opened TreeSteps
  import opened Subtrees
  import opened CloneSteps
  import opened FreeTree
  import opened HeapWindow
  import opened Needs
  import opened Pmm
  import opened Vmm
  import opened Brk
  import opened ElfImage

  const MAX_TRACKED: nat := 256 // entries of the one-page tracking array

  /** The tracked pages so far, as all loops keep them: s and at are the state before. */
  ghost predicate Loading(m: Machine, root: nat, s: Phys, at: Places, at': Places, ts: seq<Tracked>, fl: seq<Flags>,
      f: nat -> Byte)
    reads m, m.pmm, m.pmm.bitmap
  {
    && m.Valid() && ProcessTree(m, root, at')
    && Tracks(s.mem, m.mem, root, ts, fl) && Shows(m.mem, ts, f) && ZeroOutside(ts, f)
    && Extends(s, at, m.State(), at') && NewPages(at, ts) && Reached(at, at', TrackedPages(ts))
  }

  /** The tracked pages were not mapped before. */
  ghost predicate NewPages(at: Places, ts: seq<Tracked>) {
    forall i :: 0 <= i < |ts| ==> Leaf(ts[i].page * 4096) !in at
  }

  // ----- searching the tracking array -----

  /** The search for a page that is tracked already. */
  method AlreadyMapped(pages: array<Tracked>, num: nat, page: nat) returns (b: bool)
    requires num <= pages.Length
    ensures b <==> IsTracked(pages[..num], page)
  {
    var j: nat := 0;
    while j < num
      invariant j <= num && forall i :: 0 <= i < j ==> pages[i].page != page
    {
      if pages[j].page == page {
        assert pages[..num][j].page == page;
        return true;
      }
      j := j + 1;
    }
    b := false;
  }

  /** find_kernel_vaddr: the entry of the page that holds a user address. */
  method FindKernel(pages: array<Tracked>, num: nat, u: nat) returns (r: Option<nat>)
    requires num <= pages.Length
    ensures r.Some? ==> r.value < num && pages[r.value].page == u / 4096
    ensures r.None? ==> !IsTracked(pages[..num], u / 4096)
  {
    var j: nat := 0;
    while j < num
      invariant j <= num && forall i :: 0 <= i < j ==> pages[i].page != u / 4096
    {
      if pages[j].page * 4096 <= u < pages[j].page * 4096 + 4096 {
        return Some(j);
      }
      j := j + 1;
    }
    r := None;
  }

  // ----- one store -----

  /** memcpy or memset of x at the user address u, which lies in tracked page j. */
  method StoreAt(m: Machine, root: nat, pages: array<Tracked>, num: nat, j: nat, u: nat, x: seq<Byte>,
      ghost s: Phys, ghost at: Places, ghost at': Places, ghost fl: seq<Flags>,
          ghost f: nat -> Byte) returns (ghost g: nat -> Byte)
    requires num <= pages.Length && j < num && pages[j].page == u / 4096 && u % 4096 + |x| <= 4096
    requires Loading(m, root, s, at, at', pages[..num], fl, f)
    modifies m`mem
    ensures g == Patched(f, u, x) && Loading(m, root, s, at, at', pages[..num], fl, g)
  {
    hide Tree, Owned, Tracks, Shows, ZeroOutside, GetPte, Stored, Extends, NewPages;
    ghost var ts, s1, o := pages[..num], m.State(), u % 4096;
    assert AddressOf(ts[j].page, o) == u;
    PatchTracks(s.mem, s1, root, at', ts, fl, j, o, x);
    PatchShows(s.mem, s1, root, at', ts, fl, f, j, o, x);
    PatchOutside(ts, f, j, o, x);
    PatchExtends(s, at, s1, root, at', ts, j, fl[j], o, x);
    var frame := pages[j].frame;
    g := Patched(f, u, x);
    m.mem := m.mem[frame := Data(Stored(m.mem[frame].b, u % 4096, x))];
  }

  /** A store into a new page leaves alone what was there before. */
  lemma PatchExtends(s: Phys, at: Places, s1: Phys, root: nat, at1: Places, ts: seq<Tracked>, j: nat, flags: Flags,
      o: nat, x: seq<Byte>)
    requires Extends(s, at, s1, at1) && OwnedTree(s1, root, at1, 4) && NewPages(at, ts) && j < |ts|
    requires TrackedAt(s1.mem, root, ts[j], flags) && o + |x| <= 4096
    ensures Extends(s, at, Phys(PatchedMem(s1.mem, ts[j].frame, o, x), s1.used, s1.free), at1)
  {
    NewPageFrame(s, at, s1, root, at1, ts[j], flags);
    hide OwnedTree, Stored, GetPte, NewPages, KeepsUsed, SubPlaces, NewFrames, Leaf;
    KeepsPatched(s, at, s1.mem, ts[j].frame, Data(Stored(s1.mem[ts[j].frame].b, o, x)));
  }

  lemma KeepsPatched(s: Phys, at: Places, m: Mem, frame: nat, page: Page)
    requires KeepsUsed(s, m, at) && frame < |m| && frame !in s.used && forall k :: k in at ==> at[k] != frame
    ensures KeepsUsed(s, m[frame := page], at)
  {
  }

  /** The frame of a new page was neither in use before nor in the tree. */
  lemma NewPageFrame(s: Phys, at: Places, s1: Phys, root: nat, at1: Places, t: Tracked, flags: Flags)
    requires Extends(s, at, s1, at1) && OwnedTree(s1, root, at1, 4) && Leaf(t.page * 4096) !in at
    requires TrackedAt(s1.mem, root, t, flags)
    ensures t.frame !in s.used && forall k :: k in at ==> at[k] != t.frame
  {
    hide GetPte, Leaf, Shaped, HoldsTables, Linked, Charged, KeepsUsed;
    TrackedPlace(s1, root, at1, t, flags);
    var leaf := Leaf(t.page * 4096);
    assert at1[leaf] !in s.used;
    forall k | k in at ensures at[k] != t.frame {
      assert k in at1 && at1[k] == at[k];
    }
  }

  // ----- the pages of a segment -----

  /** Pages lo to hi are tracked besides those of before, the new ones with the given flags. */
  ghost predicate TracksTo(ts: seq<Tracked>, fl: seq<Flags>, before: seq<Phdr>, flags: Flags, lo: nat, hi: nat) {
    && |fl| == |ts|
    && (forall p: nat :: IsTracked(ts, p) <==> PageFlags(before, p).Some? || lo <= p < hi)
    && (forall i: nat :: i < |ts| ==>
        fl[i] == if PageFlags(before, ts[i].page).Some? then PageFlags(before, ts[i].page).value else flags)
  }

  /** The tracking array is not the frame bitmap. */
  ghost predicate Apart(m: Machine, pages: array<Tracked>) {
    (pages as object) != m.pmm.bitmap
  }

  /** The targets of a segment are free of earlier mappings. */
  ghost predicate Fresh(ph: Phdr, at: Places) {
    && ph.vaddr + ph.memsz <= USER_TOP
    && forall p: nat :: Touches(ph, p) ==> Leaf(p * 4096) !in at
  }

  lemma PageIsUser(ph: Phdr, p: nat)
    requires ph.vaddr + ph.memsz <= USER_TOP && p < EndPage(ph)
    ensures UserAddr(p * 4096)
  {
  }

  lemma NotThereYet(m: Machine, root: nat, s: Phys, at: Places, at1: Places, ts: seq<Tracked>, fl: seq<Flags>,
      f: nat -> Byte, p: nat)
    requires Loading(m, root, s, at, at1, ts, fl, f) && !IsTracked(ts, p) && UserAddr(p * 4096)
    requires OwnedTree(s, root, at, 4) && Leaf(p * 4096) !in at
    ensures Leaf(p * 4096) !in at1
  {
    hide GetPte, Tree, Leaf, Shows, Extends, TrackedAt, UserPath;
    assert OtherSame(s.mem, m.mem, root, ts, p * 4096);
    TranslateInTree(s.mem, root, at, p * 4096);
    TranslateInTree(m.mem, root, at1, p * 4096);
  }

  /** A page is allocated, zeroed, mapped and tracked. */
  method MapOne(m: Machine, root: nat, pages: array<Tracked>, num: nat, page: nat, flags: Flags,
      ghost s: Phys, ghost at: Places, ghost at1: Places, ghost fl: seq<Flags>, ghost f: nat -> Byte)
    returns (ok: bool, ghost at2: Places)
    requires num < pages.Length && Apart(m, pages) && OwnedTree(s, root, at, 4) && UserAddr(page * 4096)
    requires flags.present
    requires Loading(m, root, s, at, at1, pages[..num], fl, f) && !IsTracked(pages[..num], page)
    requires Leaf(page * 4096) !in at && flags.user
    modifies m`mem, m.pmm`freeMem, m.pmm.bitmap, pages
    ensures forall i :: 0 <= i < num ==> pages[i] == old(pages[i])
    ensures ok ==> pages[num].page == page && Loading(m, root, s, at, at2, pages[..num + 1], fl + [flags], f)
    ensures !ok ==> m.Valid() && ProcessTree(m, root, at2) && Extends(s, at, m.State(), at2)
    ensures at2.Keys <= at1.Keys + PathTo(page * 4096) && (ok ==> page != 0)
    ensures !ok && page != 0 ==>
              |FreeFrames(m.pmm.Used(), m.pmm.maxPages)| < |PathTo(page * 4096) - at2.Keys|
  {
    hide Tree, Owned, Tracks, Shows, ZeroOutside, GetPte, Extends, Leaf, UserAddr, Remapped, IsTracked, NewTablesOr,
      SameGetPte, NewPages, Reached, PathTo, FreeFrames, UserPath, KeepsPaths;
    ghost var s1, ts := m.State(), pages[..num];
    NotThereYet(m, root, s, at, at1, ts, fl, f, page);
    var frame;
    ok, frame, at2 := MapFresh(m, root, page * 4096, flags, at1);
    ExtendsTransitive(s, at, s1, at1, m.State(), at2);
    if ok {
      FreshTracked(s, root, at, s1, at1, m.State(), at2, ts, fl, f, page, frame, flags);
      pages[num] := Tracked(page, frame);
      ReachedMore(at, at1, at2, TrackedPages(ts), page);
      TrackedPagesMore(ts, Tracked(page, frame));
      assert pages[..num + 1] == ts + [Tracked(page, frame)];
    }
  }

  lemma FreshTracked(s: Phys, root: nat, at: Places, s1: Phys, at1: Places, s2: Phys, at2: Places, ts: seq<Tracked>,
      fl: seq<Flags>,
      f: nat -> Byte, page: nat, frame: nat, flags: Flags)
    requires OwnedTree(s1, root, at1, 4) && Extends(s1, at1, s2, at2) && flags.present && UserAddr(page * 4096)
    requires Tracks(s.mem, s1.mem, root, ts, fl) && Shows(s1.mem, ts, f) && ZeroOutside(ts, f) && NewPages(at, ts)
    requires !IsTracked(ts, page) && Leaf(page * 4096) !in at
    requires frame < |s2.mem| && s2.mem[frame] == ZeroData()
    requires Remapped(s1.mem, s2.mem, root, Leaf(page * 4096), Pte(flags, frame))
    requires KeepsPaths(s1.mem, s2.mem, root) && UserPath(s2.mem, root, page * 4096)
    ensures var more := ts + [Tracked(page, frame)];
            Tracks(s.mem, s2.mem, root, more, fl + [flags]) && Shows(s2.mem, more, f) && ZeroOutside(more, f)
                && NewPages(at, more)
  {
    KeepsOf(s1, at1, s2, at2);
    hide Tree, Owned, Tracks, Shows, ZeroOutside, GetPte, Extends, Leaf, UserAddr, Remapped, IsTracked, UserPath,
      KeepsPaths;
    TracksMore(s.mem, s1, root, at1, ts, fl, s2, at2, page, frame, flags);
    ShowsMore(s1.mem, s2.mem, ts, f, page, frame);
  }

  lemma KeepsOf(s: Phys, at: Places, s2: Phys, at2: Places)
    requires Extends(s, at, s2, at2)
    ensures KeepsUsed(s, s2.mem, at)
  {
  }

  /** The loop that maps the pages of a segment which are not there yet. */
  method MapSegment(m: Machine, root: nat, pages: array<Tracked>, num: nat, ph: Phdr, ghost before: seq<Phdr>,
      ghost s: Phys, ghost at: Places, ghost at1: Places, ghost fl: seq<Flags>, ghost f: nat -> Byte,
      ghost all: set<nat>)
    returns (ok: bool, n: nat, ghost at2: Places, ghost fl2: seq<Flags>)
    requires num <= pages.Length && Apart(m, pages) && OwnedTree(s, root, at, 4) && Loads(ph) && Fresh(ph, at)
    requires num + (EndPage(ph) - FirstPage(ph)) <= pages.Length && FirstPage(ph) <= EndPage(ph)
    requires Loading(m, root, s, at, at1, pages[..num], fl, f)
    requires TracksTo(pages[..num], fl, before, SegmentFlags(ph), FirstPage(ph), FirstPage(ph))
    requires !IsTracked(pages[..num], 0)
    requires forall p: nat :: PageFlags(before, p).Some? || Touches(ph, p) ==> p in all
    modifies m`mem, m.pmm`freeMem, m.pmm.bitmap, pages
    ensures ok ==> n <= num + (EndPage(ph) - FirstPage(ph)) && Loading(m, root, s, at, at2, pages[..n], fl2, f)
    ensures ok ==> TracksTo(pages[..n], fl2, before, SegmentFlags(ph), FirstPage(ph), EndPage(ph))
    ensures ok ==> !Touches(ph, 0)
    ensures !ok ==> m.Valid() && ProcessTree(m, root, at2) && Extends(s, at, m.State(), at2)
    ensures !ok ==> Touches(ph, 0) || Stuck(FreeFrames(m.pmm.Used(), m.pmm.maxPages), at, at2, all)
  {
    hide Stuck, PathTo, FreeFrames, Reached, Loading, OwnedTree, Extends, TracksTo, IsTracked, SegmentFlags,
      FirstPage, EndPage, Leaf, UserAddr;
    n, at2, fl2 := num, at1, fl;
    var p: nat := FirstPage(ph);
    while p < EndPage(ph)
      invariant FirstPage(ph) <= p <= EndPage(ph) && n <= num + (p - FirstPage(ph))
      invariant Loading(m, root, s, at, at2, pages[..n], fl2, f)
      invariant TracksTo(pages[..n], fl2, before, SegmentFlags(ph), FirstPage(ph), p)
      invariant FirstPage(ph) == 0 ==> p == 0 && !IsTracked(pages[..n], 0)
    {
      var there := AlreadyMapped(pages, n, p);
      if there {
        TracksThere(pages[..n], fl2, before, SegmentFlags(ph), FirstPage(ph), p);
      } else {
        PageIsUser(ph, p);
        SegmentPresent(ph);
        ghost var ts, at3 := pages[..n], at2;
        LoadingReached(m, root, s, at, at3, ts, fl2, f);
        ok, at2 := MapOne(m, root, pages, n, p, SegmentFlags(ph), s, at, at2, fl2, f);
        if !ok {
          if p != 0 {
            TouchesPage(ph, p);
            TracksWithin(ts, fl2, before, ph, p, all);
            StuckAt(FreeFrames(m.pmm.Used(), m.pmm.maxPages), at, at3, at2, TrackedPages(ts), p, all);
          }
          return;
        }
        assert pages[..n + 1][..n] == pages[..n] == ts;
        TracksOne(ts, pages[..n + 1], fl2, before, SegmentFlags(ph), FirstPage(ph), p);
        n, fl2 := n + 1, fl2 + [SegmentFlags(ph)];
      }
      p := p + 1;
    }
    ok := true;
  }

  lemma LoadingReached(m: Machine, root: nat, s: Phys, at: Places, at1: Places, ts: seq<Tracked>, fl: seq<Flags>,
      f: nat -> Byte)
    requires Loading(m, root, s, at, at1, ts, fl, f)
    ensures Reached(at, at1, TrackedPages(ts))
  {
  }

  lemma TouchesPage(ph: Phdr, p: nat)
    requires Loads(ph) && FirstPage(ph) <= p < EndPage(ph)
    ensures Touches(ph, p)
  {
  }

  lemma TracksWithin(ts: seq<Tracked>, fl: seq<Flags>, before: seq<Phdr>, ph: Phdr, p: nat, all: set<nat>)
    requires TracksTo(ts, fl, before, SegmentFlags(ph), FirstPage(ph), p) && Loads(ph) && p < EndPage(ph)
    requires forall q: nat :: PageFlags(before, q).Some? || Touches(ph, q) ==> q in all
    requires FirstPage(ph) <= p
    ensures TrackedPages(ts) + {p} <= all
  {
    hide PageFlags, SegmentFlags, IsTracked;
    assert Touches(ph, p);
    forall q | q in TrackedPages(ts) ensures q in all {
      assert IsTracked(ts, q);
      assert PageFlags(before, q).Some? || Touches(ph, q);
    }
  }

  lemma SegmentPresent(ph: Phdr)
    ensures SegmentFlags(ph).present && SegmentFlags(ph).user
  {
  }

  lemma TracksThere(ts: seq<Tracked>, fl: seq<Flags>, before: seq<Phdr>, flags: Flags, lo: nat, p: nat)
    requires TracksTo(ts, fl, before, flags, lo, p) && IsTracked(ts, p) && lo <= p
    ensures TracksTo(ts, fl, before, flags, lo, p + 1)
  {
  }

  lemma TracksOne(ts: seq<Tracked>, ts2: seq<Tracked>, fl: seq<Flags>, before: seq<Phdr>, flags: Flags, lo: nat, p: nat)
    requires TracksTo(ts, fl, before, flags, lo, p) && !IsTracked(ts, p) && lo <= p
    requires |ts2| == |ts| + 1 && ts2[..|ts|] == ts && ts2[|ts|].page == p
    ensures TracksTo(ts2, fl + [flags], before, flags, lo, p + 1)
  {
    hide PageFlags;
    forall i: nat | i < |ts| ensures ts2[i] == ts[i] {
      assert ts2[i] == ts2[..|ts|][i];
    }
    forall q: nat ensures IsTracked(ts2, q) <==> IsTracked(ts, q) || q == p {
      assert ts2[|ts|].page == p;
      if i :| 0 <= i < |ts| && ts[i].page == q {
        assert ts2[i].page == q;
      }
    }
  }

  // ----- the bytes of a segment -----

  /** g is f with the first `done` bytes of the segment copied from the file. */
  ghost predicate Copied(file: seq<Byte>, ph: Phdr, f: nat -> Byte, g: nat -> Byte, done: nat) {
    forall w: nat :: g(w) == if ph.vaddr <= w < ph.vaddr + done then FileByte(file, ph, w) else f(w)
  }

  lemma CopiedOn(file: seq<Byte>, ph: Phdr, f: nat -> Byte, g: nat -> Byte, done: nat, size: nat)
    requires Copied(file, ph, f, g, done) && ph.offset + done + size <= |file|
    ensures Copied(file, ph, f, Patched(g, ph.vaddr + done, file[ph.offset + done..ph.offset + done + size]),
        done + size)
  {
  }

  /** The file has all bytes of the segment, and there are pages for them. */
  ghost predicate Readable(file: seq<Byte>, ph: Phdr, ts: seq<Tracked>) {
    ph.filesz > 0 ==>
      ph.offset + ph.filesz <= |file| && forall w: nat :: InFile(ph, w) ==> IsTracked(ts, w / 4096)
  }

  lemma TrackedThere(ts: seq<Tracked>, j: nat, page: nat)
    requires j < |ts| && ts[j].page == page
    ensures IsTracked(ts, page)
  {
  }

  /** The size of a transfer within one page. */
  function Chunk(u: nat, left: nat): (c: nat)
    requires left > 0
    ensures 1 <= c <= left && u % 4096 + c <= 4096
  {
    if 4096 - u % 4096 > left then left else 4096 - u % 4096
  }

  /** The copy loop; it fails when the file is too short, or when the file's part of the segment
      is longer than the pages that are there. */
  method CopySegment(m: Machine, root: nat, file: seq<Byte>, ph: Phdr, pages: array<Tracked>, num: nat,
      ghost s: Phys, ghost at: Places, ghost at1: Places, ghost fl: seq<Flags>, ghost f: nat -> Byte)
    returns (ok: bool, ghost g: nat -> Byte)
    requires num <= pages.Length && Loading(m, root, s, at, at1, pages[..num], fl, f) && SumFits(ph)
    modifies m`mem
    ensures Loading(m, root, s, at, at1, pages[..num], fl, g)
    ensures ok ==> Copied(file, ph, f, g, ph.filesz) && (ph.filesz > 0 ==> ph.offset + ph.filesz <= |file|)
    ensures ok <==> Readable(file, ph, pages[..num])
  {
    hide Loading, Copied, Patched, IsTracked;
    g := f;
    NothingCopied(file, ph, f);
    if ph.filesz > 0 {
      if (ph.offset + ph.filesz) % TWO_64 > |file| {
        return false, g;
      }
      var dest: nat, remaining: nat, srcOffset: nat := ph.vaddr, ph.filesz, 0;
      while remaining > 0
        invariant srcOffset + remaining == ph.filesz && dest == ph.vaddr + srcOffset
        invariant Loading(m, root, s, at, at1, pages[..num], fl, g) && Copied(file, ph, f, g, srcOffset)
        invariant forall w: nat :: ph.vaddr <= w < dest ==> IsTracked(pages[..num], w / 4096)
      {
        var j := FindKernel(pages, num, dest);
        if j.None? {
          return false, g;
        }
        TrackedThere(pages[..num], j.value, dest / 4096);
        var size := Chunk(dest, remaining);
        CopiedOn(file, ph, f, g, srcOffset, size);
        g := StoreAt(m, root, pages, num, j.value, dest, file[ph.offset + srcOffset..ph.offset + srcOffset + size], s,
            at, at1, fl, g);
        dest, srcOffset, remaining := dest + size, srcOffset + size, remaining - size;
      }
    }
    ok := true;
  }

  lemma NothingCopied(file: seq<Byte>, ph: Phdr, f: nat -> Byte)
    ensures Copied(file, ph, f, f, 0)
  {
  }

  /** g is f with `done` zeros behind the bytes from the file. */
  ghost predicate Zeroed(ph: Phdr, f: nat -> Byte, g: nat -> Byte, done: nat) {
    forall w: nat :: g(w) == if ph.vaddr + ph.filesz <= w < ph.vaddr + ph.filesz + done then 0 else f(w)
  }

  function ZeroBytes(k: nat): (z: seq<Byte>)
    ensures |z| == k
  {
    seq(k, _ => 0)
  }

  lemma ZeroedOn(ph: Phdr, f: nat -> Byte, g: nat -> Byte, done: nat, size: nat)
    requires Zeroed(ph, f, g, done)
    ensures Zeroed(ph, f, Patched(g, ph.vaddr + ph.filesz + done, ZeroBytes(size)), done + size)
  {
  }

  lemma NothingZeroed(ph: Phdr, f: nat -> Byte)
    ensures Zeroed(ph, f, f, 0)
  {
  }

  /** The loop that zeroes the rest of the segment; its pages are all there. */
  method ZeroSegment(m: Machine, root: nat, ph: Phdr, pages: array<Tracked>, num: nat, ghost before: seq<Phdr>,
      ghost s: Phys, ghost at: Places, ghost at1: Places, ghost fl: seq<Flags>,
          ghost f: nat -> Byte) returns (ghost g: nat -> Byte)
    requires num <= pages.Length && Loading(m, root, s, at, at1, pages[..num], fl, f)
    requires TracksTo(pages[..num], fl, before, SegmentFlags(ph), FirstPage(ph), EndPage(ph))
    modifies m`mem
    ensures Loading(m, root, s, at, at1, pages[..num], fl, g)
    ensures Zeroed(ph, f, g, if ph.memsz > ph.filesz then ph.memsz - ph.filesz else 0)
  {
    hide Loading, Zeroed, Patched, TracksTo, SegmentFlags, FirstPage, EndPage;
    g := f;
    NothingZeroed(ph, f);
    if ph.memsz > ph.filesz {
      var start: nat, size: nat := ph.vaddr + ph.filesz, ph.memsz - ph.filesz;
      ghost var done: nat := 0;
      while size > 0
        invariant done + size == ph.memsz - ph.filesz && start == ph.vaddr + ph.filesz + done
        invariant Loading(m, root, s, at, at1, pages[..num], fl, g) && Zeroed(ph, f, g, done)
      {
        BssTracked(pages[..num], fl, before, ph, start);
        var j := FindKernel(pages, num, start);
        var chunk := Chunk(start, size);
        ZeroedOn(ph, f, g, done, chunk);
        g := StoreAt(m, root, pages, num, j.value, start, ZeroBytes(chunk), s, at, at1, fl, g);
        start, size := start + chunk, size - chunk;
        done := done + chunk;
      }
    }
  }

  lemma BssTracked(ts: seq<Tracked>, fl: seq<Flags>, before: seq<Phdr>, ph: Phdr, w: nat)
    requires TracksTo(ts, fl, before, SegmentFlags(ph), FirstPage(ph), EndPage(ph))
    requires ph.vaddr <= w < ph.vaddr + ph.memsz
    ensures IsTracked(ts, w / 4096)
  {
  }
}
