/** Loading a whole program (elf_load_impl, src/kernel/elf.c:71-260). */
module ElfLoad {
  import opened Wrappers
  import opened Words
  import opened PageTables
  import opened TreeSteps
  import opened FreeTree
  import opened HeapWindow
  import opened Needs
  import opened Pmm
  import opened Vmm
  import opened Brk
  import opened ElfImage
  import opened Elf

  /** elf_info_t */
  datatype ElfInfo = ElfInfo(entry: nat, base: nat, end: nat, numPages: nat)

  // ----- the first pass -----

  function PageCount(ph: Phdr): nat {
    if Loads(ph) && FirstPage(ph) <= EndPage(ph) then EndPage(ph) - FirstPage(ph) else 0
  }

  /** total_pages: pages that segments share count for each. */
  function TotalPages(phs: seq<Phdr>): nat {
    if phs == [] then 0 else TotalPages(phs[..|phs| - 1]) + PageCount(phs[|phs| - 1])
  }

  /** All segments lie from base to end, which are the tightest page bounds. */
  ghost predicate Bounds(phs: seq<Phdr>, base: nat, end: nat) {
    && (forall i :: 0 <= i < |phs| && Loads(phs[i]) ==>
        base <= FirstPage(phs[i]) * 4096 && EndPage(phs[i]) * 4096 <= end)
    && (exists i :: 0 <= i < |phs| && Loads(phs[i]) && base == FirstPage(phs[i]) * 4096)
    && (exists i :: 0 <= i < |phs| && Loads(phs[i]) && end == EndPage(phs[i]) * 4096)
  }

  lemma PagesOfSegment(ph: Phdr)
    requires Loads(ph)
    ensures FirstPage(ph) < EndPage(ph) && PageCount(ph) > 0 && FirstPage(ph) * 4096 <= ph.vaddr
    ensures ph.vaddr + ph.memsz <= EndPage(ph) * 4096
  {
  }

  method Measure(phs: seq<Phdr>) returns (base: nat, end: nat, total: nat)
    requires forall i :: 0 <= i < |phs| && Loads(phs[i]) ==> phs[i].vaddr + phs[i].memsz <= USER_TOP
    ensures total == TotalPages(phs) && (total > 0 ==> Bounds(phs, base, end))
  {
    base, end, total := 0xFFFF_FFFF_FFFF_FFFF, 0, 0;
    var i: nat := 0;
    while i < |phs|
      invariant i <= |phs| && total == TotalPages(phs[..i])
      invariant total == 0 ==> base == 0xFFFF_FFFF_FFFF_FFFF && end == 0 && forall k :: 0 <= k < i ==> !Loads(phs[k])
      invariant total > 0 ==> Bounds(phs[..i], base, end)
    {
      assert phs[..i + 1][..i] == phs[..i];
      if Loads(phs[i]) {
        PagesOfSegment(phs[i]);
        var lo, hi := FirstPage(phs[i]) * 4096, EndPage(phs[i]) * 4096;
        ghost var base0, end0 := base, end;
        if lo < base {
          base := lo;
        }
        if hi > end {
          end := hi;
        }
        BoundsOn(phs, i, total > 0, base0, end0, base, end);
        total := total + (hi - lo) / 4096;
      } else if total > 0 {
        BoundsSkip(phs, i, base, end);
      }
      i := i + 1;
    }
    assert phs[..|phs|] == phs;
  }

  lemma BoundsOn(phs: seq<Phdr>, i: nat, some: bool, base: nat, end: nat, base': nat, end': nat)
    requires i < |phs| && Loads(phs[i]) && phs[i].vaddr + phs[i].memsz <= USER_TOP
    requires some ==> Bounds(phs[..i], base, end)
    requires !some ==> base == 0xFFFF_FFFF_FFFF_FFFF && end == 0 && forall k :: 0 <= k < i ==> !Loads(phs[k])
    requires var lo, hi := FirstPage(phs[i]) * 4096, EndPage(phs[i]) * 4096;
             base' == (if lo < base then lo else base) && end' == if hi > end then hi else end
    ensures Bounds(phs[..i + 1], base', end')
  {
    PagesOfSegment(phs[i]);
    hide FirstPage, EndPage;
    var t := phs[..i + 1];
    assert t[i] == phs[i] && forall k :: 0 <= k < i ==> t[k] == phs[..i][k];
    assert FirstPage(phs[i]) * 4096 <= USER_TOP;
    if some {
      var a :| 0 <= a < i && Loads(phs[..i][a]) && base == FirstPage(phs[..i][a]) * 4096;
      var b :| 0 <= b < i && Loads(phs[..i][b]) && end == EndPage(phs[..i][b]) * 4096;
      assert t[a] == phs[..i][a] && t[b] == phs[..i][b];
    }
  }

  lemma BoundsSkip(phs: seq<Phdr>, i: nat, base: nat, end: nat)
    requires i < |phs| && !Loads(phs[i]) && Bounds(phs[..i], base, end)
    ensures Bounds(phs[..i + 1], base, end)
  {
    hide FirstPage, EndPage;
    var t := phs[..i + 1];
    assert t[i] == phs[i] && forall k :: 0 <= k < i ==> t[k] == phs[..i][k];
    var a :| 0 <= a < i && Loads(phs[..i][a]) && base == FirstPage(phs[..i][a]) * 4096;
    var b :| 0 <= b < i && Loads(phs[..i][b]) && end == EndPage(phs[..i][b]) * 4096;
    assert t[a] == phs[..i][a] && t[b] == phs[..i][b];
  }

  // ----- a segment -----

  /** The bytes of the image so far. */
  ghost predicate IsImage(file: seq<Byte>, phs: seq<Phdr>, f: nat -> Byte) {
    forall w: nat :: f(w) == Image(file, phs, w)
  }

  /** The pages of the segments so far, and their flags. */
  ghost predicate TracksAll(ts: seq<Tracked>, fl: seq<Flags>, phs: seq<Phdr>) {
    && |fl| == |ts|
    && (forall p: nat :: IsTracked(ts, p) <==> PageFlags(phs, p).Some?)
    && (forall i: nat :: i < |ts| ==> PageFlags(phs, ts[i].page) == Some(fl[i]))
  }

  lemma TracksStart(ts: seq<Tracked>, fl: seq<Flags>, phs: seq<Phdr>, flags: Flags, lo: nat)
    requires TracksAll(ts, fl, phs)
    ensures TracksTo(ts, fl, phs, flags, lo, lo)
  {
    hide PageFlags;
  }

  lemma TracksEnd(ts: seq<Tracked>, fl: seq<Flags>, phs: seq<Phdr>, k: nat)
    requires k < |phs| && Loads(phs[k])
    requires TracksTo(ts, fl, phs[..k], SegmentFlags(phs[k]), FirstPage(phs[k]), EndPage(phs[k]))
    ensures TracksAll(ts, fl, phs[..k + 1])
  {
    assert phs[..k + 1][..k] == phs[..k];
    hide FirstPage, EndPage, SegmentFlags;
    forall i: nat | i < |ts| ensures PageFlags(phs[..k + 1], ts[i].page) == Some(fl[i]) {
      assert IsTracked(ts, ts[i].page);
    }
  }

  lemma ImageOn(file: seq<Byte>, phs: seq<Phdr>, k: nat, f: nat -> Byte, g: nat -> Byte, h: nat -> Byte)
    requires k < |phs| && Loads(phs[k]) && IsImage(file, phs[..k], f)
    requires Copied(file, phs[k], f, g, phs[k].filesz)
    requires Zeroed(phs[k], g, h, if phs[k].memsz > phs[k].filesz then phs[k].memsz - phs[k].filesz else 0)
    ensures IsImage(file, phs[..k + 1], h)
  {
    assert phs[..k + 1][..k] == phs[..k];
  }

  lemma SkipSegment(file: seq<Byte>, phs: seq<Phdr>, k: nat, f: nat -> Byte, ts: seq<Tracked>, fl: seq<Flags>)
    requires k < |phs| && !Loads(phs[k]) && IsImage(file, phs[..k], f) && TracksAll(ts, fl, phs[..k])
    ensures IsImage(file, phs[..k + 1], f) && TracksAll(ts, fl, phs[..k + 1])
  {
    assert phs[..k + 1][..k] == phs[..k];
  }

  // ----- the pages of a program -----

  /** All pages that a segment touches. */
  ghost function LoadPages(phs: seq<Phdr>): set<nat> {
    if phs == [] then {}
    else
      var ph := phs[|phs| - 1];
      LoadPages(phs[..|phs| - 1])
      + if Loads(ph) && FirstPage(ph) <= EndPage(ph) then PageRange(FirstPage(ph), EndPage(ph) - FirstPage(ph)) else {}
  }

  lemma {:induction false} LoadPagesAre(phs: seq<Phdr>, p: nat)
    ensures p in LoadPages(phs) <==> PageFlags(phs, p).Some?
  {
    hide FirstPage, EndPage, SegmentFlags;
    if phs != [] {
      LoadPagesAre(phs[..|phs| - 1], p);
    }
  }

  lemma {:induction false} LoadPagesBefore(phs: seq<Phdr>, k: nat)
    requires k <= |phs|
    ensures LoadPages(phs[..k]) <= LoadPages(phs)
    decreases |phs| - k
  {
    if k < |phs| {
      assert phs[..k + 1][..k] == phs[..k];
      LoadPagesBefore(phs, k + 1);
    } else {
      assert phs[..k] == phs;
    }
  }

  lemma AllPages(phs: seq<Phdr>, k: nat)
    requires k < |phs|
    ensures forall p: nat :: PageFlags(phs[..k], p).Some? || Touches(phs[k], p) ==> p in LoadPages(phs)
  {
    LoadPagesBefore(phs, k);
    LoadPagesBefore(phs, k + 1);
    assert phs[..k + 1][..k] == phs[..k];
    forall p: nat | PageFlags(phs[..k], p).Some? || Touches(phs[k], p) ensures p in LoadPages(phs) {
      LoadPagesAre(phs[..k], p);
      LoadPagesAre(phs[..k + 1], p);
    }
  }

  lemma TrackedAll(ts: seq<Tracked>, fl: seq<Flags>, phs: seq<Phdr>)
    requires TracksAll(ts, fl, phs)
    ensures TrackedPages(ts) == LoadPages(phs)
  {
    hide PageFlags, IsTracked;
    forall p: nat ensures p in TrackedPages(ts) <==> p in LoadPages(phs) {
      LoadPagesAre(phs, p);
    }
  }

  // ----- what can go wrong -----

  /** Segment k does not ask for page 0, the file has all its bytes, and there are pages for them. */
  ghost predicate Sound(file: seq<Byte>, phs: seq<Phdr>, k: nat)
    requires k < |phs|
  {
    && !Touches(phs[k], 0)
    && (phs[k].filesz > 0 ==>
          && phs[k].offset + phs[k].filesz <= |file|
          && forall w: nat :: InFile(phs[k], w) ==> PageFlags(phs[..k + 1], w / 4096).Some?)
  }

  ghost predicate SoundTo(file: seq<Byte>, phs: seq<Phdr>, n: nat)
    requires n <= |phs|
  {
    forall k: nat :: k < n && Loads(phs[k]) ==> Sound(file, phs, k)
  }

  /** The program can be loaded, given frames enough. */
  ghost predicate SoundProgram(file: seq<Byte>, phs: seq<Phdr>) {
    TotalPages(phs) > 0 && SoundTo(file, phs, |phs|)
  }

  lemma NoPageZero(file: seq<Byte>, phs: seq<Phdr>, k: nat, ts: seq<Tracked>, fl: seq<Flags>)
    requires k <= |phs| && SoundTo(file, phs, k) && TracksAll(ts, fl, phs[..k])
    ensures !IsTracked(ts, 0)
  {
    hide PageFlags;
    forall i | 0 <= i < k ensures !Touches(phs[..k][i], 0) {
      assert Loads(phs[i]) ==> Sound(file, phs, i);
    }
    if PageFlags(phs[..k], 0).Some? {
      FlagsPresent(phs[..k], 0);
    }
  }

  lemma ReadableIs(file: seq<Byte>, phs: seq<Phdr>, k: nat, ts: seq<Tracked>, fl: seq<Flags>)
    requires k < |phs| && TracksAll(ts, fl, phs[..k + 1]) && !Touches(phs[k], 0)
    ensures Readable(file, phs[k], ts) <==> Sound(file, phs, k)
  {
    hide PageFlags, IsTracked;
  }

  lemma SoundOn(file: seq<Byte>, phs: seq<Phdr>, k: nat)
    requires k < |phs| && SoundTo(file, phs, k)
    ensures SoundTo(file, phs, k + 1) <==> (Loads(phs[k]) ==> Sound(file, phs, k))
  {
  }

  lemma NotSound(file: seq<Byte>, phs: seq<Phdr>, k: nat)
    requires k < |phs| && Loads(phs[k]) && !Sound(file, phs, k)
    ensures !SoundTo(file, phs, |phs|)
  {
  }

  /** One turn of the second pass. */
  method LoadSegment(m: Machine, root: nat, file: seq<Byte>, phs: seq<Phdr>, k: nat, pages: array<Tracked>, num: nat,
      ghost s: Phys, ghost at: Places, ghost at1: Places, ghost fl: seq<Flags>, ghost f: nat -> Byte)
    returns (ok: bool, n: nat, ghost at2: Places, ghost fl2: seq<Flags>, ghost h: nat -> Byte)
    requires k < |phs| && Loads(phs[k]) && Fresh(phs[k], at) && num + PageCount(phs[k]) <= pages.Length
    requires num <= pages.Length && SumFits(phs[k])
    requires Apart(m, pages) && OwnedTree(s, root, at, 4)
    requires Loading(m, root, s, at, at1, pages[..num], fl, f) && TracksAll(pages[..num], fl, phs[..k])
    requires IsImage(file, phs[..k], f)
    requires SoundTo(file, phs, k)
    modifies m`mem, m.pmm`freeMem, m.pmm.bitmap, pages
    ensures ok ==> Sound(file, phs, k)
    ensures !ok ==>
              !Sound(file, phs, k) || Stuck(FreeFrames(m.pmm.Used(), m.pmm.maxPages), at, at2, LoadPages(phs))
    ensures ok ==> n <= num + PageCount(phs[k]) && Loading(m, root, s, at, at2, pages[..n], fl2, h)
    ensures ok ==> TracksAll(pages[..n], fl2, phs[..k + 1]) && IsImage(file, phs[..k + 1], h)
    ensures !ok ==> m.Valid() && ProcessTree(m, root, at2) && Extends(s, at, m.State(), at2)
  {
    hide Loading, OwnedTree, Extends, TracksTo, TracksAll, IsImage, SegmentFlags, FirstPage, EndPage, Copied, Zeroed,
      Fresh, ProcessTree, IsTracked, Readable, SoundTo, Stuck, FreeFrames, LoadPages;
    h := f;
    PagesOfSegment(phs[k]);
    NoPageZero(file, phs, k, pages[..num], fl);
    TracksStart(pages[..num], fl, phs[..k], SegmentFlags(phs[k]), FirstPage(phs[k]));
    AllPages(phs, k);
    ok, n, at2, fl2 := MapSegment(m, root, pages, num, phs[k], phs[..k], s, at, at1, fl, f, LoadPages(phs));
    if !ok {
      return;
    }
    TracksEnd(pages[..n], fl2, phs, k);
    ReadableIs(file, phs, k, pages[..n], fl2);
    ghost var g;
    ok, g := CopySegment(m, root, file, phs[k], pages, n, s, at, at2, fl2, f);
    if !ok {
      LoadingKeeps(m, root, s, at, at2, pages[..n], fl2, g);
      return;
    }
    h := ZeroSegment(m, root, phs[k], pages, n, phs[..k], s, at, at2, fl2, g);
    ImageOn(file, phs, k, f, g, h);
  }

  lemma LoadingKeeps(m: Machine, root: nat, s: Phys, at: Places, at1: Places, ts: seq<Tracked>, fl: seq<Flags>,
      f: nat -> Byte)
    requires Loading(m, root, s, at, at1, ts, fl, f)
    ensures m.Valid() && ProcessTree(m, root, at1) && Extends(s, at, m.State(), at1)
  {
  }

  // ----- the whole -----

  /** What a program finds at address w: on the pages of its segments the image, with the flags of
      the page and the way to it open; elsewhere what was there before. */
  ghost predicate Finds(m0: Mem, m: Mem, root: nat, file: seq<Byte>, phs: seq<Phdr>, w: nat) {
    match PageFlags(phs, w / 4096)
    case None =>
      && Translate(m, root, w) == Translate(m0, root, w)
      && (UserPath(m0, root, w) ==> UserPath(m, root, w))
    case Some(flags) =>
      var p := GetPte(m, root, w);
      && UserPath(m, root, w)
      && p.flags == flags && p.frame < |m| && m[p.frame].Data? && m[p.frame].b[w % 4096] == Image(file, phs, w)
  }

  ghost predicate Loaded(m0: Mem, m: Mem, root: nat, file: seq<Byte>, phs: seq<Phdr>) {
    forall w: nat :: UserAddr(w) ==> Finds(m0, m, root, file, phs, w)
  }

  lemma SamePage(m: Mem, root: nat, w: nat)
    requires UserAddr(w)
    ensures UserAddr(w / 4096 * 4096) && GetPte(m, root, w) == GetPte(m, root, w / 4096 * 4096)
    ensures AddressOf(w / 4096, w % 4096) == w
  {
    hide Entry;
    IndicesOfPage(w);
    IndicesOfPage(w / 4096 * 4096);
  }

  lemma AllLoaded(m: Machine, root: nat, s: Phys, at: Places, at1: Places, ts: seq<Tracked>, fl: seq<Flags>,
      f: nat -> Byte,
      file: seq<Byte>, phs: seq<Phdr>)
    requires Loading(m, root, s, at, at1, ts, fl, f) && TracksAll(ts, fl, phs) && IsImage(file, phs, f)
    ensures Loaded(s.mem, m.mem, root, file, phs)
  {
    hide GetPte, ProcessTree, Extends, PageFlags, Image, UserPath;
    forall w: nat | UserAddr(w) ensures Finds(s.mem, m.mem, root, file, phs, w) {
      SamePage(m.mem, root, w);
      PathOfPage(m.mem, root, w, w / 4096 * 4096);
      if PageFlags(phs, w / 4096).Some? {
        assert IsTracked(ts, w / 4096);
        var i: nat :| i < |ts| && ts[i].page == w / 4096;
        assert TrackedAt(m.mem, root, ts[i], fl[i]) && PageShows(m.mem, ts[i], f);
        var o: nat := w % 4096;
        assert m.mem[ts[i].frame].b[o] == f(AddressOf(ts[i].page, o));
      } else {
        assert OtherSame(s.mem, m.mem, root, ts, w);
      }
    }
  }

  /** The frame of the tracking array is given back; pages that were mapped stay in the tree. */
  lemma Untracked(s: Phys, root: nat, at: Places, t: nat, s1: Phys, at1: Places)
    requires OwnedTree(s, root, at, 4) && t < |s.mem| && t !in s.used && 0 <= s.free
    requires Extends(ZeroedFrame(s, t), at, s1, at1) && OwnedTree(s1, root, at1, 4)
    ensures Extends(s, at, Phys(s1.mem, s1.used - {t}, Credit(s1.free, 1)), at1)
    ensures OwnedTree(Phys(s1.mem, s1.used - {t}, Credit(s1.free, 1)), root, at1, 4) && t !in at1.Values && t in s1.used
  {
    hide Tree, Credit;
    CreditTwice(s.free, -1, -(|at1| - |at|));
    CreditTwice(s.free, -1 - (|at1| - |at|), 1);
    forall k | k in at1 ensures at1[k] != t {
      if k in at {
        assert at1[k] == at[k] && at[k] in s.used;
      } else {
        assert at1[k] !in ZeroedFrame(s, t).used;
      }
    }
    PlacesBoundIn(s, root, at);
  }

  /** What the loader asks of a program: unmapped targets in the user half, ends in the file that do
      not wrap, and at most as many pages as the tracking array has entries. */
  ghost predicate Loadable(phs: seq<Phdr>, at: Places) {
    && (forall i :: 0 <= i < |phs| && Loads(phs[i]) ==> Fresh(phs[i], at) && SumFits(phs[i]))
    && TotalPages(phs) <= MAX_TRACKED
  }

  lemma {:induction false} TotalMonotone(phs: seq<Phdr>, k: nat)
    requires k < |phs|
    ensures TotalPages(phs[..k]) + PageCount(phs[k]) == TotalPages(phs[..k + 1]) <= TotalPages(phs)
    decreases |phs| - k
  {
    assert phs[..k + 1][..k] == phs[..k];
    if k + 1 < |phs| {
      TotalMonotone(phs, k + 1);
    } else {
      assert phs[..k + 1] == phs;
    }
  }

  lemma LoadingStarts(m: Machine, root: nat, s: Phys, at: Places, file: seq<Byte>, phs: seq<Phdr>)
    requires m.Valid() && m.State() == s && ProcessTree(m, root, at)
    ensures Loading(m, root, s, at, at, [], [], w => 0) && TracksAll([], [], phs[..0])
    ensures IsImage(file, phs[..0], w => 0)
  {
    hide GetPte, UserPath, KeepsUsed, Charged;
    ExtendsNothing(s, root, at);
  }

  /** A turn that failed met an unsound segment, or there were too few frames. */
  lemma LoadFailed(m: Machine, s: Phys, root: nat, at: Places, at1: Places, file: seq<Byte>, phs: seq<Phdr>, k: nat)
    requires m.Valid() && ProcessTree(m, root, at1) && Extends(s, at, m.State(), at1) && OwnedTree(s, root, at, 4)
    requires k < |phs| && Loads(phs[k])
    requires !Sound(file, phs, k) || Stuck(FreeFrames(m.pmm.Used(), m.pmm.maxPages), at, at1, LoadPages(phs))
    ensures !SoundTo(file, phs, |phs|) || |FreeFrames(s.used, m.pmm.maxPages)| < Needed(LoadPages(phs), at)
  {
    hide Sound, SoundTo, OwnedTree, Extends, ProcessTree, Loads, Stuck, FreeFrames, Needed, LoadPages;
    if Sound(file, phs, k) {
      OwnedOf(m, root, at1);
      FramesLacked(s, root, at, m.State(), at1, LoadPages(phs), m.pmm.maxPages);
    } else {
      NotSound(file, phs, k);
    }
  }

  /** After the last turn, the pages of the program are there, once each. */
  lemma LoadSucceeded(m: Machine, s: Phys, root: nat, at: Places, at1: Places, ts: seq<Tracked>, fl: seq<Flags>,
      f: nat -> Byte, phs: seq<Phdr>)
    requires Loading(m, root, s, at, at1, ts, fl, f) && TracksAll(ts, fl, phs) && OwnedTree(s, root, at, 4)
    ensures |ts| == |LoadPages(phs)|
    ensures |FreeFrames(s.used, m.pmm.maxPages)| >= Needed(LoadPages(phs), at)
  {
    TrackedAll(ts, fl, phs);
    TracksApart(s.mem, m.mem, root, ts, fl);
    TrackedCount(ts);
    hide TracksAll, OwnedTree, Extends, Tracks, Shows, Needed, FreeFrames, Reached;
    FramesSufficed(s, root, at, m.State(), at1, LoadPages(phs), m.pmm.maxPages);
  }

  lemma TracksApart(m0: Mem, m: Mem, root: nat, ts: seq<Tracked>, fl: seq<Flags>)
    requires Tracks(m0, m, root, ts, fl)
    ensures forall i, j :: 0 <= i < j < |ts| ==> ts[i].page != ts[j].page
  {
    hide TrackedAt, OtherSame;
  }

  /** The second pass. */
  method LoadSegments(m: Machine, root: nat, file: seq<Byte>, phs: seq<Phdr>, ghost s: Phys, ghost at: Places)
    returns (ok: bool, num: nat, ghost at1: Places)
    requires m.Valid() && m.State() == s && ProcessTree(m, root, at) && Loadable(phs, at)
    modifies m`mem, m.pmm`freeMem, m.pmm.bitmap
    ensures m.Valid() && ProcessTree(m, root, at1) && Extends(s, at, m.State(), at1)
    ensures ok ==> Loaded(s.mem, m.mem, root, file, phs) && num == |LoadPages(phs)|
    ensures ok <==>
              && SoundTo(file, phs, |phs|)
              && |FreeFrames(s.used, m.pmm.maxPages)| >= Needed(LoadPages(phs), at)
  {
    hide Sound, SoundTo, Stuck, FreeFrames, Needed, LoadPages, Loading, OwnedTree, Extends, TracksAll, IsImage,
      Loaded, Fresh, TotalPages, Loads, PageCount, ProcessTree;
    OwnedOf(m, root, at);
    LoadingStarts(m, root, s, at, file, phs);
    var pages := new Tracked[MAX_TRACKED];
    num, at1 := 0, at;
    var k: nat := 0;
    ghost var fl: seq<Flags>, f: nat -> Byte := [], w => 0;
    assert pages[..0] == [];
    NoTotal(phs);
    NothingUnsound(file, phs);
    while k < |phs|
      modifies m`mem, m.pmm`freeMem, m.pmm.bitmap, pages
      invariant k <= |phs| && num <= TotalPages(phs[..k]) && num <= MAX_TRACKED
      invariant Loading(m, root, s, at, at1, pages[..num], fl, f)
      invariant TracksAll(pages[..num], fl, phs[..k]) && IsImage(file, phs[..k], f)
      invariant SoundTo(file, phs, k)
    {
      SoundOn(file, phs, k);
      TotalMonotone(phs, k);
      if Loads(phs[k]) {
        ghost var h;
        ok, num, at1, fl, h := LoadSegment(m, root, file, phs, k, pages, num, s, at, at1, fl, f);
        if !ok {
          LoadFailed(m, s, root, at, at1, file, phs, k);
          return;
        }
        f := h;
      } else {
        SkipSegment(file, phs, k, f, pages[..num], fl);
      }
      k := k + 1;
    }
    assert phs[..|phs|] == phs;
    AllLoaded(m, root, s, at, at1, pages[..num], fl, f, file, phs);
    LoadingKeeps(m, root, s, at, at1, pages[..num], fl, f);
    LoadSucceeded(m, s, root, at, at1, pages[..num], fl, f, phs);
    ok := true;
  }

  /** elf_load_impl, from the first pass on. */
  method Load(m: Machine, root: nat, file: seq<Byte>, entry: nat, phs: seq<Phdr>, ghost at: Places)
    returns (r: Option<ElfInfo>, ghost at1: Places, ghost t: nat)
    requires m.Valid() && ProcessTree(m, root, at) && Loadable(phs, at)
    modifies m`mem, m.pmm`freeMem, m.pmm.bitmap
    ensures m.Valid() && ProcessTree(m, root, at1)
    ensures r.Some? ==> Loaded(old(m.mem), m.mem, root, file, phs)
    ensures r.Some? ==> r.value.entry == entry && Bounds(phs, r.value.base, r.value.end)
    ensures r.Some? ==> t < |old(m.mem)| && t !in old(m.pmm.Used())
    ensures r.Some? ==> Extends(ZeroedFrame(old(m.State()), t), at, m.State(), at1)
    ensures r.None? ==> Extends(old(m.State()), at, m.State(), at1)
    ensures r.Some? ==> r.value.numPages == |LoadPages(phs)|
    ensures r.Some? <==>
              && SoundProgram(file, phs)
              && |FreeFrames(old(m.pmm.Used()), m.pmm.maxPages)| >= 1 + Needed(LoadPages(phs), at)
  {
    hide SoundTo, FreeFrames, Needed, LoadPages, OwnedTree, Extends, Loaded, Bounds, Loadable, TotalPages, Credit,
      Run, Loads;
    ghost var s0 := m.State();
    at1, t := at, 0;
    StartExtends(s0, root, at);
    UserSegments(phs, at);
    var base, end, total := Measure(phs);
    if total == 0 {
      return None, at, 0;
    }
    var track := m.pmm.Pmalloc(1);
    if track.None? {
      OneFrameFree(old(m.pmm.Used()), m.pmm.maxPages);
      NoneToHandOut(s0.used, m.pmm.maxPages);
      return None, at, 0;
    }
    var frame := track.value;
    t := frame;
    assert Run(t, 1) == {t};
    m.mem := m.mem[frame := ZeroData()];
    ghost var s := m.State();
    assert s == ZeroedFrame(s0, t);
    OneHandedOut(s0.used, t, m.pmm.maxPages);
    ZeroedTree(s0, root, at, t);
    var ok, num;
    ok, num, at1 := LoadSegments(m, root, file, phs, s, at);
    if !ok {
      OwnedOf(m, root, at1);
      Untracked(s0, root, at, t, m.State(), at1);
      m.pmm.FreePages(frame, 1);
      return None, at1, t;
    }
    LoadedFrom(s0, root, at, s.mem, m.mem, file, phs);
    r := Some(ElfInfo(entry, base, end, num));
  }

  lemma NoneToHandOut(used: set<nat>, maxPages: nat)
    requires forall f: nat :: f < maxPages ==> f in used
    ensures |FreeFrames(used, maxPages)| == 0
  {
    assert FreeFrames(used, maxPages) == {};
  }

  lemma OneHandedOut(used: set<nat>, t: nat, maxPages: nat)
    requires t < maxPages && t !in used
    ensures |FreeFrames(used, maxPages)| == 1 + |FreeFrames(used + {t}, maxPages)|
  {
    assert FreeFrames(used, maxPages) == FreeFrames(used + {t}, maxPages) + {t};
  }

  lemma StartExtends(s: Phys, root: nat, at: Places)
    requires OwnedTree(s, root, at, 4) && 0 <= s.free < TWO_32
    ensures Extends(s, at, s, at)
  {
    ExtendsNothing(s, root, at);
  }

  lemma UserSegments(phs: seq<Phdr>, at: Places)
    requires Loadable(phs, at)
    ensures forall i :: 0 <= i < |phs| && Loads(phs[i]) ==> phs[i].vaddr + phs[i].memsz <= USER_TOP
  {
    hide Loads, Leaf;
    forall i | 0 <= i < |phs| && Loads(phs[i]) ensures phs[i].vaddr + phs[i].memsz <= USER_TOP {
      assert Fresh(phs[i], at);
    }
  }

  lemma NothingUnsound(file: seq<Byte>, phs: seq<Phdr>)
    ensures SoundTo(file, phs, 0)
  {
  }

  lemma NoTotal(phs: seq<Phdr>)
    ensures TotalPages(phs[..0]) == 0
  {
  }

  lemma OwnedOf(m: Machine, root: nat, at: Places)
    requires ProcessTree(m, root, at)
    ensures OwnedTree(m.State(), root, at, 4)
  {
  }

  /** Translation before the tracking frame was taken was the same. */
  lemma LoadedFrom(s0: Phys, root: nat, at: Places, m1: Mem, m2: Mem, file: seq<Byte>, phs: seq<Phdr>)
    requires Loaded(m1, m2, root, file, phs) && SameGetPte(s0.mem, m1, root) && KeepsPaths(s0.mem, m1, root)
    ensures Loaded(s0.mem, m2, root, file, phs)
  {
    hide GetPte, Image, PageFlags, UserPath;
    forall w: nat | UserAddr(w) ensures Finds(s0.mem, m2, root, file, phs, w) {
      assert Finds(m1, m2, root, file, phs, w);
    }
  }

  /** Main result: a program whose segments are apart finds the bytes of the file where its headers
      put them, zeros for the rest of each segment, and zeros on the rest of its pages. */
  lemma LoadedRight(m0: Mem, m: Mem, root: nat, file: seq<Byte>, phs: seq<Phdr>, w: nat)
    requires Loaded(m0, m, root, file, phs) && Proper(phs) && UserAddr(w) && PageFlags(phs, w / 4096).Some?
    ensures var p := GetPte(m, root, w);
            && UserPath(m, root, w) && p.flags.present && p.flags.user && p.frame < |m| && m[p.frame].Data?
            && (forall i :: 0 <= i < |phs| && InSegment(phs[i], w) ==>
                  m[p.frame].b[w % 4096] == if w < phs[i].vaddr + phs[i].filesz then FileByte(file, phs[i], w) else 0)
            && ((forall i :: 0 <= i < |phs| ==> !InSegment(phs[i], w)) ==> m[p.frame].b[w % 4096] == 0)
  {
    hide GetPte, PageFlags, UserPath;
    assert Finds(m0, m, root, file, phs, w);
    ImageRight(file, phs, w);
    FlagsPresent(phs, w / 4096);
  }

  lemma {:induction false} FlagsPresent(phs: seq<Phdr>, p: nat)
    requires PageFlags(phs, p).Some?
    ensures PageFlags(phs, p).value.present && PageFlags(phs, p).value.user
    ensures exists i :: 0 <= i < |phs| && Touches(phs[i], p)
  {
    var n := |phs| - 1;
    if PageFlags(phs[..n], p).Some? {
      FlagsPresent(phs[..n], p);
      var i :| 0 <= i < n && Touches(phs[..n][i], p);
      assert Touches(phs[i], p);
    } else {
      assert Touches(phs[n], p);
    }
  }

  /** A page has the flags of the first segment on it. */
  lemma {:induction false} FirstFlags(phs: seq<Phdr>, i: nat, p: nat)
    requires i < |phs| && Touches(phs[i], p) && forall j :: 0 <= j < i ==> !Touches(phs[j], p)
    ensures PageFlags(phs, p) == Some(SegmentFlags(phs[i]))
  {
    hide Touches;
    var n := |phs| - 1;
    assert forall j :: 0 <= j < n ==> phs[..n][j] == phs[j];
    if i < n {
      FirstFlags(phs[..n], i, p);
    } else if PageFlags(phs[..n], p).Some? {
      FlagsPresent(phs[..n], p);
    }
  }

  /** The pages with flags are those of the segments. */
  lemma {:induction false} TouchedPage(phs: seq<Phdr>, i: nat, p: nat)
    requires i < |phs| && Touches(phs[i], p)
    ensures PageFlags(phs, p).Some?
  {
    hide Touches;
    var n := |phs| - 1;
    if i < n {
      TouchedPage(phs[..n], i, p);
    }
  }

  /** Every address of a segment is on a page that is there. */
  lemma {:induction false} SegmentPagesThere(phs: seq<Phdr>, i: nat, w: nat)
    requires i < |phs| && InSegment(phs[i], w)
    ensures PageFlags(phs, w / 4096).Some?
  {
    var n := |phs| - 1;
    if i < n {
      SegmentPagesThere(phs[..n], i, w);
    }
  }
}
