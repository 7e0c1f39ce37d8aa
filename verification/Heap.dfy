/** The kernel heap (src/mm/liballoc.c), on frames of the bitmap allocator. */
module Heap {
  import opened Words
  import opened HeapLayout
  import opened HeapHeaders
  import opened HeapBytes
  import opened Pmm

  const MIN_PAGES := 16 // l_pageCount
  const PAGE: nat := 4096 // l_pageSize

  /** Arithmetic of `unsigned int`. */
  function Wrap32(x: int): (r: nat)
    ensures 0 <= x < TWO_32 ==> r == x
  {
    x % TWO_32
  }

  /** The page count of allocate_new_page, in the source's 32-bit arithmetic. */
  function NewPageCount(size: nat): nat {
    var st := Wrap32(Wrap32(size) + MAJOR_SIZE + MINOR_SIZE);
    var n := if st % PAGE == 0 then st / PAGE else st / PAGE + 1;
    if n < MIN_PAGES then MIN_PAGES else n
  }

  /** Requests whose block sizes fit the 32-bit header fields. */
  predicate Representable(size: nat) {
    size + MAJOR_SIZE + MINOR_SIZE <= TWO_32 - PAGE
  }

  /** The recorded size of a new block takes the allocation exactly when the request
      is representable. */
  lemma NewBlockTakes(size: nat)
    ensures Wrap32(PAGE * NewPageCount(size)) >= size + MAJOR_SIZE + MINOR_SIZE <==> Representable(size)
    ensures Representable(size) ==> PAGE * NewPageCount(size) < TWO_32
  {
    var n := NewPageCount(size);
    var st := Wrap32(Wrap32(size) + MAJOR_SIZE + MINOR_SIZE);
    if Representable(size) {
      assert st == size + MAJOR_SIZE + MINOR_SIZE;
    } else if size < TWO_32 - MAJOR_SIZE - MINOR_SIZE {
      assert st == size + MAJOR_SIZE + MINOR_SIZE > TWO_32 - PAGE;
      assert n == TWO_32 / PAGE;
    } else {
      assert st <= TWO_32;
    }
  }

  /** A request of 4 GiB: the new block has 16 pages. */
  lemma HugeRequestTruncated()
    ensures NewPageCount(0x1_0000_0020) == 16
  {
  }

  // ----- blocks and frames -----

  /** Every block is on frames of its own that are in use. */
  ghost predicate OnFrames(L: Layout, hhdm: nat, used: set<nat>, maxPages: nat) {
    forall k :: 0 <= k < |L| ==>
      && L[k].addr == hhdm + PAGE * L[k].frame && 0 < L[k].frame
      && L[k].frame + L[k].pages <= maxPages
      && Run(L[k].frame, L[k].pages) <= used
  }

  ghost predicate Listed(L: Layout, a: nat) {
    exists k :: 0 <= k < |L| && L[k].addr == a
  }

  ghost predicate NonEmptyBlks(L: Layout) {
    forall k :: 0 <= k < |L| ==> L[k].live != []
  }

  /** A block on a run of free frames is apart from all blocks. */
  lemma FreshBlk(L: Layout, hhdm: nat, used: set<nat>, maxPages: nat, b: Blk)
    requires GoodLayout(L) && OnFrames(L, hhdm, used, maxPages)
    requires FreeRun(used, b.frame, b.pages) && b.addr == hhdm + PAGE * b.frame && b.live == []
    requires 0 < b.frame && 0 < b.pages && MAJOR_SIZE <= Size(b) < TWO_32 && b.frame + b.pages <= maxPages
    ensures GoodLayout(L + [b]) && OnFrames(L + [b], hhdm, used + Run(b.frame, b.pages), maxPages)
  {
    var L' := L + [b];
    assert Sorted(b);
    forall k, l | 0 <= k < l < |L'|
      ensures DisjointBlks(L'[k], L'[l])
    {
      if l == |L| {
        FramesApart(L, hhdm, used, maxPages, k, b);
      } else {
        assert DisjointBlks(L[k], L[l]);
      }
    }
  }

  lemma FramesApart(L: Layout, hhdm: nat, used: set<nat>, maxPages: nat, k: nat, b: Blk)
    requires GoodLayout(L) && OnFrames(L, hhdm, used, maxPages) && k < |L|
    requires FreeRun(used, b.frame, b.pages) && b.addr == hhdm + PAGE * b.frame && 0 < b.pages
    ensures DisjointBlks(L[k], b)
  {
    var a := L[k];
    assert GoodBlk(a);
    var f := if a.frame < b.frame then b.frame else a.frame;
    assert f in Run(a.frame, a.pages) ==> f in used;
    assert b.frame <= f < b.frame + b.pages ==> f !in used;
  }

  /** The list heads and the running totals. */
  datatype Roots = Roots(memRoot: nat, bestBet: nat, inUse: nat, total: nat)

  /** The allocator of frames: those in use and the free-memory counter. */
  datatype FrameUse = FrameUse(used: set<nat>, free: nat)

  /** The headers stand for a good layout on frames in use; the heads and totals agree
      with it. */
  ghost predicate Sound(h: Headers, L: Layout, hhdm: nat, used: set<nat>, maxPages: nat, r: Roots) {
    && Stands(h, L) && GoodLayout(L) && OnFrames(L, hhdm, used, maxPages) && MagicLive(h.minors, L) && Intact(h, L)
    && r.memRoot == BlkAddr(L, 0)
    && r.inUse == TotalInUse(L) && r.total == TotalSize(L)
    && (r.bestBet == 0 || Listed(L, r.bestBet))
  }

  class Heap {
    const pmm: FrameAllocator
    const hhdm: nat // where physical memory is mapped
    const memory: Memory // what the allocations hold
    var majors: map<nat, Major>
    var minors: map<nat, Minor>
    var pads: map<nat, nat>
    var memRoot: nat
    var bestBet: nat
    var lAllocated: nat
    var lInuse: nat
    var warningCount: nat
    var errorCount: nat
    var possibleOverruns: nat
    ghost var L: Layout

    ghost function H(): Headers
      reads this
    {
      Headers(majors, minors, pads)
    }

    /** All of the invariant but that no listed block is empty. */
    ghost predicate Core()
      reads this, pmm, pmm.bitmap
    {
      pmm.Valid() && Sound(H(), L, hhdm, pmm.Used(), pmm.maxPages, Roots(memRoot, bestBet, lInuse, lAllocated))
    }

    ghost predicate Valid()
      reads this, pmm, pmm.bitmap
    {
      Core() && NonEmptyBlks(L)
    }

    constructor (p: FrameAllocator, offset: nat, m: Memory)
      requires p.Valid()
      ensures Valid() && L == [] && pmm == p && hhdm == offset && memory == m
    {
      pmm, hhdm, memory := p, offset, m;
      majors, minors, pads := map[], map[], map[];
      memRoot, bestBet, lAllocated, lInuse := 0, 0, 0, 0;
      warningCount, errorCount, possibleOverruns := 0, 0, 0;
      L := [];
    }

    /** allocate_new_page, and the links to the last block (0 when there is none). */
    method AddMajor(last: nat, size: nat) returns (maj: nat)
      requires Core() && Representable(size) && last == BlkAddr(L, |L| - 1)
      modifies this, pmm`freeMem, pmm.bitmap
      ensures Core()
      ensures pads == old(pads) && minors == old(minors) && bestBet == old(bestBet)
      ensures errorCount == old(errorCount) && possibleOverruns == old(possibleOverruns)
      ensures maj == 0 ==> L == old(L) && majors == old(majors) && pmm.Used() == old(pmm.Used())
      ensures maj == 0 ==> pmm.freeMem == old(pmm.freeMem)
      ensures maj == 0 ==> forall i: nat :: i < pmm.maxPages ==> !FreeRun(pmm.Used(), i, NewPageCount(size))
      ensures maj != 0 ==>
                && |L| == |old(L)| + 1 && L[..|old(L)|] == old(L) && warningCount == old(warningCount)
                && var b := L[|old(L)|];
                   && b.addr == maj && b.pages == NewPageCount(size) && b.live == [] && Fits(b, 0, size)
                   && FreeRun(old(pmm.Used()), b.frame, b.pages)
                   && pmm.Used() == old(pmm.Used()) + Run(b.frame, b.pages)
                   && pmm.freeMem == Credit(old(pmm.freeMem), -(b.pages as int))
    {
      hide Sound, Run, FreeRun, Credit, BlkAddr, NewPageCount, Usage;
      var st := NewPageCount(size);
      NewBlockTakes(size);
      var page := pmm.Pmalloc(st);
      if page.None? {
        warningCount := warningCount + 1;
        NoRun(pmm.Used(), pmm.maxPages, st);
        return 0;
      }
      maj := hhdm + PAGE * page.value;
      ghost var b := Blk(maj, page.value, st, []);
      AppendedSound(H(), L, hhdm, old(pmm.Used()), pmm.maxPages, Roots(memRoot, bestBet, lInuse, lAllocated), b);
      var ms := majors[maj := Major(0, 0, st, Wrap32(st * PAGE), MAJOR_SIZE, 0)];
      lAllocated := lAllocated + ms[maj].size;
      if last == 0 {
        memRoot := maj;
      } else {
        ms := ms[last := ms[last].(next := maj)];
        ms := ms[maj := ms[maj].(prev := last)];
      }
      majors := ms;
      L := L + [b];
    }

    /** The bytes from lo to hi are somebody's from now on: the headers there are not known any more. */
    method Forget(lo: nat, hi: nat)
      requires Core() && NoCellIn(L, lo, hi)
      modifies this`minors, this`pads
      ensures Core() && H() == Forgotten(old(H()), lo, hi) && Vacant(H(), lo, hi)
    {
      hide Sound, ForgetMinors, ForgetPads, Vacant, NoCellIn;
      ForgottenSound(H(), L, lo, hi, hhdm, pmm.Used(), pmm.maxPages, Heads());
      minors, pads := ForgetMinors(minors, lo, hi), ForgetPads(pads, lo, hi);
    }

    /** The stores that the placing cases of kmalloc share: a header at addr between
        prev and next (0 for none), the counters, and ALIGN. */
    method LinkMinor(maj: nat, prev: nat, next: nat, addr: nat, size: nat, req: nat, ghost k: nat,
        ghost j: nat) returns (p: nat)
      requires Core() && k < |L| && j <= |L[k].live| && maj == L[k].addr
      requires prev == CellAddr(L[k].live, j - 1) && next == CellAddr(L[k].live, j)
      requires addr == GapStart(L[k], j) && Fits(L[k], j, size) && size == req + ALIGNMENT + ALIGN_INFO
      modifies this
      ensures Core() && L == PlacedLayout(old(L), k, j, Cell(addr, size, req))
      ensures p == Aligned(addr + MINOR_SIZE) && bestBet == old(bestBet) && SameCounts()
    {
      hide Sound, GapStart, GapEnd, Aligned, CellAddr, PlacedLayout, Forgotten, Vacant, NoCellIn;
      GapOf(H(), L, k, j, Cell(addr, size, req), hhdm, pmm.Used(), pmm.maxPages, Heads());
      Forget(addr, addr + MINOR_SIZE + size);
      p := StoreMinor(maj, prev, next, addr, size, req, k, j);
    }

    method StoreMinor(maj: nat, prev: nat, next: nat, addr: nat, size: nat, req: nat, ghost k: nat,
        ghost j: nat) returns (p: nat)
      requires Core() && k < |L| && j <= |L[k].live| && maj == L[k].addr
      requires prev == CellAddr(L[k].live, j - 1) && next == CellAddr(L[k].live, j)
      requires addr == GapStart(L[k], j) && Fits(L[k], j, size) && size == req + ALIGNMENT + ALIGN_INFO
      requires Vacant(H(), addr, addr + MINOR_SIZE + size)
      modifies this
      ensures Core() && L == PlacedLayout(old(L), k, j, Cell(addr, size, req))
      ensures p == Aligned(addr + MINOR_SIZE) && bestBet == old(bestBet) && SameCounts()
    {
      hide Sound, Placed, GapStart, GapEnd, Aligned, MinorsStand, CellAddr, PlacedLayout, Vacant;
      ghost var c := Cell(addr, size, req);
      PlacementFacts(H(), L, k, j, c, hhdm, pmm.Used(), pmm.maxPages, Roots(memRoot, bestBet, lInuse, lAllocated));
      var g, ms := majors[maj], minors;
      if prev == 0 {
        g := g.(first := addr);
      } else {
        ms := ms[prev := ms[prev].(next := addr)];
      }
      if next != 0 {
        ms := ms[next := ms[next].(prev := addr)];
      }
      ms := ms[addr := Minor(prev, next, maj, MAGIC, Wrap32(size), Wrap32(req))];
      g := g.(usage := Wrap32(g.usage + size + MINOR_SIZE));
      var raw := addr + MINOR_SIZE;
      p := Aligned(raw);
      majors, minors, pads := majors[maj := g], ms, pads[p - ALIGN_INFO := p - raw];
      lInuse := lInuse + size;
      assert H() == Placed(old(H()), L[k], j, c);
      L := PlacedLayout(L, k, j, c);
    }

    /** Cases 2 to 4 of kmalloc on one block: the first gap that takes the allocation.
        A block without allocations is taken without comparing sizes. */
    method PlaceIn(maj: nat, size: nat, req: nat, ghost k: nat) returns (p: nat, ghost j: nat)
      requires Core() && k < |L| && maj == L[k].addr && size == req + ALIGNMENT + ALIGN_INFO
      requires L[k].live == [] ==> Fits(L[k], 0, size)
      modifies this
      ensures Core() && bestBet == old(bestBet) && SameCounts()
      ensures p != 0 ==> PlacedAt(old(L), L, k, j, size, req, p)
      ensures p == 0 ==> L == old(L) && NoFit(L[k], size)
    {
      hide Sound, Placed, GapStart, GapEnd, Aligned, MinorsStand, PlacedLayout, Stands, GoodLayout, Sorted, MajorOf,
        MinorOf, CellAddr, Fits;
      ghost var b := L[k];
      BlkFacts(H(), L, k, hhdm, pmm.Used(), pmm.maxPages, Roots(memRoot, bestBet, lInuse, lAllocated), size);
      var g := majors[maj];
      j := 0;
      if g.first == 0 {
        // CASE 2: a brand new block
        p := LinkMinor(maj, 0, 0, maj + MAJOR_SIZE, size, req, k, 0);
        AlignedPositive(maj + MAJOR_SIZE + MINOR_SIZE);
        return p, 0;
      }
      // CASE 3: space in front of the first allocation
      if g.first - maj - MAJOR_SIZE >= size + MINOR_SIZE {
        p := LinkMinor(maj, 0, g.first, maj + MAJOR_SIZE, size, req, k, 0);
        AlignedPositive(maj + MAJOR_SIZE + MINOR_SIZE);
        return p, 0;
      }
      // CASE 4: space behind some allocation
      var min: nat := g.first;
      while min != 0
        invariant Core() && L == old(L) && bestBet == old(bestBet) && SameCounts() && H() == old(H())
        invariant j <= |b.live| && min == CellAddr(b.live, j) && (min == 0 <==> j == |b.live|)
        invariant forall i :: 0 <= i <= j && i <= |b.live| ==> !Fits(b, i, size)
        decreases |b.live| - j
      {
        CellFacts(H(), L, k, j, hhdm, pmm.Used(), pmm.maxPages, Roots(memRoot, bestBet, lInuse, lAllocated), size);
        var node := minors[min];
        var end := min + MINOR_SIZE + node.size;
        // 4.1: behind the last one; 4.2: between two
        var limit := if node.next == 0 then maj + g.size else node.next;
        if limit - min - MINOR_SIZE - node.size >= size + MINOR_SIZE {
          p := LinkMinor(maj, min, node.next, end, size, req, k, j + 1);
          AlignedPositive(end + MINOR_SIZE);
          return p, j + 1;
        }
        min := node.next;
        j := j + 1;
      }
      p := 0;
    }

    ghost function Heads(): Roots
      reads this
    {
      Roots(memRoot, bestBet, lInuse, lAllocated)
    }

    ghost function Frames(): FrameUse
      reads this, pmm, pmm.bitmap
    {
      FrameUse(pmm.Used(), pmm.freeMem)
    }

    /** kmalloc. The search starts at the best bet, wraps once to the first block, and
        takes new pages only when no gap of any block is large enough. */
    method Kmalloc(req: nat) returns (p: nat, ghost base: Layout, ghost k: nat, ghost j: nat)
      requires Valid() && Representable(req + ALIGNMENT + ALIGN_INFO)
      modifies this, pmm`freeMem, pmm.bitmap
      ensures Valid()
      ensures p != 0 ==> PlacedAt(base, L, k, j, req + ALIGNMENT + ALIGN_INFO, req, p)
      ensures p != 0 ==> Found(old(L), base, old(Frames()), Frames(), req + ALIGNMENT + ALIGN_INFO, k)
      ensures p == 0 ==> L == old(L) && Frames() == old(Frames())
      ensures p == 0 <==> Exhausted(old(L), old(Frames()), pmm.maxPages, req + ALIGNMENT + ALIGN_INFO)
    {
      hide Sound, PlacedAt, NonEmptyBlks, Progress, Found, Exhausted, Size, Usage;
      var size := req + ALIGNMENT + ALIGN_INFO;
      ghost var L0, f0 := L, Frames();
      ghost var grown := false;
      base, k, j := L, 0, 0;
      RootFacts(H(), L, hhdm, pmm.Used(), pmm.maxPages, Heads());
      if memRoot == 0 {
        var r := AddMajor(0, size);
        if r == 0 {
          NoneLeft(L0, f0, pmm.maxPages, size);
          return 0, L, 0, 0;
        }
        grown := true;
        RootFacts(H(), L, hhdm, pmm.Used(), pmm.maxPages, Heads());
      }
      var maj, startedBet, bestSize: nat := memRoot, false, 0;
      if bestBet != 0 {
        k := BestBetAt(H(), L, hhdm, pmm.Used(), pmm.maxPages, Heads());
        BlkRoom(H(), L, k, hhdm, pmm.Used(), pmm.maxPages, Heads(), size);
        bestSize := majors[bestBet].size - majors[bestBet].usage;
        if bestSize > size + MINOR_SIZE {
          maj, startedBet := bestBet, true;
        } else {
          k := 0;
        }
      }
      StartSearch(L0, L, f0, Frames(), size, grown, k);
      p, base, k, j := Search(maj, startedBet, bestSize, size, req, L0, f0, grown, k);
      if p != 0 {
        NotExhausted(L0, base, L, f0, Frames(), hhdm, pmm.maxPages, H(), Heads(), size, req, p, k, j);
      }
    }

    /** The loop of kmalloc over the blocks, from `maj` on. */
    method Search(start: nat, fromBet: bool, best: nat, size: nat, req: nat, ghost L0: Layout, ghost f0: FrameUse,
                  ghost grown0: bool, ghost k0: nat)
      returns (p: nat, ghost base: Layout, ghost k: nat, ghost j: nat)
      requires Core() && NonEmptyBlks(L0) && k0 < |L| && start == L[k0].addr
      requires Representable(size) && size == req + ALIGNMENT + ALIGN_INFO
      requires Progress(L0, L, f0, Frames(), size, grown0, fromBet, k0)
      modifies this, pmm`freeMem, pmm.bitmap
      ensures Core()
      ensures p != 0 ==> PlacedAt(base, L, k, j, size, req, p) && NonEmptyBlks(L)
      ensures p != 0 ==> Found(L0, base, f0, Frames(), size, k)
      ensures p == 0 ==> L == L0 && Frames() == f0 && Exhausted(L, Frames(), pmm.maxPages, size)
    {
      hide Sound, PlacedAt, NonEmptyBlks, Progress, Found, Exhausted, Size, Usage, Fits, NoFit;
      var maj, startedBet, bestSize := start, fromBet, best;
      ghost var grown := grown0;
      base, k, j := L, k0, 0;
      while maj != 0
        invariant Core() && k < |L| && maj == L[k].addr
        invariant Progress(L0, L, f0, Frames(), size, grown, startedBet, k)
        decreases if startedBet then 1 else 0, if grown then 0 else 1, |L| - k
      {
        BlkLinks(H(), L, k, hhdm, pmm.Used(), pmm.maxPages, Heads());
        BlkRoom(H(), L, k, hhdm, pmm.Used(), pmm.maxPages, Heads(), size);
        var diff := majors[maj].size - majors[maj].usage;
        if bestSize < diff {
          BetMoved(H(), L, k, hhdm, pmm.Used(), pmm.maxPages, Heads());
          bestBet, bestSize := maj, diff;
        }
        if diff < size + MINOR_SIZE {
          // CASE 1: not enough space in this block
          var added;
          maj, startedBet, added, k := Advance(maj, size, startedBet, L0, f0, grown, k);
          if maj == 0 {
            return 0, L, 0, 0;
          }
          grown := added;
          if !added {
            continue;
          }
        }
        base := L;
        EmptyTakes(L0, L, f0, Frames(), size, grown, startedBet, k);
        p, j := PlaceIn(maj, size, req, k);
        if p != 0 {
          FoundHere(L0, base, L, f0, Frames(), size, grown, startedBet, k, j, req, p);
          return p, base, k, j;
        }
        // CASE 5: no gap here
        maj, startedBet, grown, k := Advance(maj, size, startedBet, L0, f0, grown, k);
        if maj == 0 {
          return 0, L, 0, 0;
        }
      }
      BlkLinks(H(), L, k, hhdm, pmm.Used(), pmm.maxPages, Heads());
      assert false;
    }

    /** From a block without a gap: the next block; at the end, the first one again if the
        search started at the best bet, or else a new one. 0 when there are no pages. */
    method Advance(maj: nat, size: nat, startedBet: bool, ghost L0: Layout, ghost f0: FrameUse, ghost grown: bool,
        ghost k: nat)
      returns (next: nat, bet: bool, added: bool, ghost k': nat)
      requires Core() && k < |L| && maj == L[k].addr && Representable(size)
      requires Progress(L0, L, f0, Frames(), size, grown, startedBet, k) && NoFit(L[k], size)
      modifies this, pmm`freeMem, pmm.bitmap
      ensures Core() && !grown
      ensures next == 0 ==> L == L0 && Frames() == f0 && Exhausted(L, Frames(), pmm.maxPages, size)
      ensures next != 0 ==> k' < |L| && next == L[k'].addr && Progress(L0, L, f0, Frames(), size, added, bet, k')
      ensures next != 0 && added ==> !bet
      ensures next != 0 && !added ==> (startedBet && !bet) || (bet == startedBet && k' == k + 1 && L == old(L))
    {
      hide Sound, NonEmptyBlks, Progress, Exhausted, Size, Usage, NoFit, NoFitAll, Fits, FreeRun, Run, Credit,
        NewPageCount;
      BlkLinks(H(), L, k, hhdm, pmm.Used(), pmm.maxPages, Heads());
      FullHere(L0, L, f0, Frames(), size, grown, startedBet, k);
      next := majors[maj].next;
      if next != 0 {
        return next, startedBet, false, k + 1;
      }
      if startedBet {
        return memRoot, false, false, 0;
      }
      next := AddMajor(maj, size);
      if next == 0 {
        NoneLeft(L0, f0, pmm.maxPages, size);
        return 0, false, false, 0;
      }
      GrownNow(L0, L, f0, Frames(), size);
      return next, false, true, |L| - 1;
    }

    /** The stores of kfree that take a live header out of its block. */
    method UnlinkMinor(min: nat, ghost k: nat, ghost j: nat)
      requires Core() && k < |L| && j < |L[k].live| && min == L[k].live[j].addr
      modifies this
      ensures Core() && L == TakenLayout(old(L), k, j) && bestBet == old(bestBet) && SameCounts()
    {
      hide Sound, Taken, MinorsStand, CellAddr, TakenLayout;
      TakenFacts(H(), L, k, j, hhdm, pmm.Used(), pmm.maxPages, Heads());
      var node, ms := minors[min], minors;
      var maj := node.block;
      var g := majors[maj];
      lInuse := lInuse - node.size;
      g := g.(usage := Wrap32(g.usage - (node.size + MINOR_SIZE)));
      ms := ms[min := node.(magic := DEAD)];
      if node.next != 0 {
        ms := ms[node.next := ms[node.next].(prev := node.prev)];
      }
      if node.prev != 0 {
        ms := ms[node.prev := ms[node.prev].(next := node.next)];
      }
      if node.prev == 0 {
        g := g.(first := node.next);
      }
      majors, minors := majors[maj := g], ms;
      assert H() == Taken(old(H()), L[k], j);
      L := TakenLayout(L, k, j);
    }

    /** An empty block goes out of the list, its pages are free, and nothing is known of headers there. */
    method DropMajor(maj: nat, ghost k: nat)
      requires Core() && k < |L| && maj == L[k].addr && L[k].live == []
      modifies this, pmm`freeMem, pmm.bitmap
      ensures Core() && L == Dropped(old(L), k) && SameCounts()
      ensures Frames() == FrameUse(old(pmm.Used()) - Run(old(L)[k].frame, old(L)[k].pages),
          Credit(old(pmm.freeMem), old(L)[k].pages))
    {
      hide Sound, Run, Credit, Dropped, Forgotten, Vacant, NoCellIn, BlkAddr, DroppedMajors;
      BlockOf(H(), L, k, hhdm, pmm.Used(), pmm.maxPages, Heads());
      Forget(maj, maj + majors[maj].size);
      DroppedFacts(H(), L, k, hhdm, pmm.Used(), pmm.maxPages, Heads());
      var pages := majors[maj].pages;
      UnlinkMajor(maj, k);
      pmm.FreePages((maj - hhdm) / PAGE, pages);
    }

    /** The stores of kfree that take an empty block out of the list. */
    method UnlinkMajor(maj: nat, ghost k: nat)
      requires Core() && k < |L| && maj == L[k].addr && L[k].live == [] && Vacant(H(), maj, maj + Size(L[k]))
      modifies this
      ensures L == Dropped(old(L), k) && SameCounts()
      ensures Sound(H(), L, hhdm, pmm.Used() - Run(old(L)[k].frame, old(L)[k].pages), pmm.maxPages, Heads())
    {
      hide Sound, Run, Dropped, DroppedMajors, BlkAddr, Forgotten, Vacant, NoCellIn;
      DroppedFacts(H(), L, k, hhdm, pmm.Used(), pmm.maxPages, Heads());
      var g, ms := majors[maj], majors;
      if memRoot == maj {
        memRoot := g.next;
      }
      if bestBet == maj {
        bestBet := 0;
      }
      if g.prev != 0 {
        ms := ms[g.prev := ms[g.prev].(next := g.next)];
      }
      if g.next != 0 {
        ms := ms[g.next := ms[g.next].(prev := g.prev)];
      }
      majors := ms;
      lAllocated := lAllocated - g.size;
      assert majors == DroppedMajors(old(majors), L, k);
      L := Dropped(L, k);
    }

    /** kfree. A live allocation goes, and with the last one of a block its pages; a
        dead header that is still known is reported and nothing changes. */
    method Kfree(ptr: nat) returns (ghost k: nat, ghost j: nat)
      requires Valid()
      requires ptr != 0 ==> Known(ptr)
      modifies this, pmm`freeMem, pmm.bitmap
      ensures Valid()
      ensures ptr == 0 ==> warningCount == old(warningCount) + 1
      ensures ptr == 0 || old(!IsMagic(ptr)) ==> L == old(L) && H() == old(H()) && Heads() == old(Heads())
      ensures ptr == 0 || old(!IsMagic(ptr)) ==> Frames() == old(Frames())
      ensures ptr != 0 && old(!IsMagic(ptr)) ==> errorCount == old(errorCount) + 1
      ensures ptr != 0 && old(IsMagic(ptr)) ==>
                LiveAt(old(L), k, j, old(Unaligned(pads, ptr)) - MINOR_SIZE)
                    && FreedAt(old(L), L, old(Frames()), Frames(), k, j)
    {
      hide Sound, NonEmptyBlks, FreedAt, Unaligned, LiveAt;
      k, j := 0, 0;
      if ptr == 0 {
        warningCount := warningCount + 1;
        return;
      }
      var min := Unaligned(pads, ptr) - MINOR_SIZE;
      var magic := minors[min].magic;
      if magic != MAGIC {
        errorCount := errorCount + 1;
        if magic % 0x100_0000 == MAGIC % 0x100_0000 || magic % 0x1_0000 == MAGIC % 0x1_0000
           || magic % 0x100 == MAGIC % 0x100 {
          possibleOverruns := possibleOverruns + 1;
        }
        return;
      }
      k, j := LiveIndex(H(), L, min, hhdm, pmm.Used(), pmm.maxPages, Heads());
      ghost var L0, f0 := L, Frames();
      var maj := minors[min].block;
      UnlinkMinor(min, k, j);
      BlkFacts(H(), L, k, hhdm, pmm.Used(), pmm.maxPages, Heads(), 0);
      if majors[maj].first == 0 {
        DropMajor(maj, k);
      } else if bestBet != 0 {
        ghost var kb := BestBetAt(H(), L, hhdm, pmm.Used(), pmm.maxPages, Heads());
        BlkFacts(H(), L, kb, hhdm, pmm.Used(), pmm.maxPages, Heads(), 0);
        var bestSize := SignedInt(majors[bestBet].size - majors[bestBet].usage);
        var majSize := SignedInt(majors[maj].size - majors[maj].usage);
        if majSize > bestSize {
          BetMoved(H(), L, k, hhdm, pmm.Used(), pmm.maxPages, Heads());
          bestBet := maj;
        }
      }
      FreedHere(L0, L, f0, Frames(), k, j);
    }

    /** krealloc. A request that is not larger is noted in the header; a larger one moves: a new
        allocation is made, the bytes are copied, which changes no byte of any other
        allocation, then the old one is freed. Without room for the new one the bytes go to
        address 0 and the old one is freed as well: the caller gets 0 and has lost the allocation. */
    method Krealloc(ptr: nat, size: nat) returns (p: nat, ghost mv: Move, ghost k: nat, ghost j: nat)
      requires Valid() && Representable(size + ALIGNMENT + ALIGN_INFO)
      requires ptr != 0 ==> Known(ptr)
      requires ptr != 0 && IsMagic(ptr) ==> ptr == Aligned(Unaligned(pads, ptr))
      modifies this, pmm`freeMem, pmm.bitmap, memory
      ensures Valid()
      ensures if size != 0 && ptr != 0 && old(IsMagic(ptr)) && size > old(Header(ptr).reqSize)
              then CopiedTo(old(memory.bytes), memory.bytes, p, ptr, old(Header(ptr).reqSize))
              else memory.bytes == old(memory.bytes)
      ensures size == 0 ==> p == 0
      ensures size == 0 && ptr != 0 && old(IsMagic(ptr)) ==>
                LiveAt(old(L), k, j, old(Unaligned(pads, ptr)) - MINOR_SIZE)
                    && FreedAt(old(L), L, old(Frames()), Frames(), k, j)
      ensures size != 0 && ptr == 0 ==>
                if p == 0 then L == old(L) && Frames() == old(Frames())
                else PlacedAt(mv.base, L, k, j, size + ALIGNMENT + ALIGN_INFO, size, p)
                     && Found(old(L), mv.base, old(Frames()), Frames(), size + ALIGNMENT + ALIGN_INFO, k)
      ensures size != 0 && ptr != 0 && old(!IsMagic(ptr)) ==> p == 0 && L == old(L) && H() == old(H())
      ensures size != 0 && ptr != 0 && old(!IsMagic(ptr)) ==> Frames() == old(Frames())
      ensures size != 0 && ptr != 0 && old(IsMagic(ptr)) && size <= old(Header(ptr).reqSize) ==>
                && p == ptr && LiveAt(old(L), k, j, old(Unaligned(pads, ptr)) - MINOR_SIZE)
                && L == old(L)[k := ResizedBlk(old(L)[k], j, size)] && Frames() == old(Frames())
      ensures size != 0 && ptr != 0 && old(IsMagic(ptr)) && size > old(Header(ptr).reqSize) ==>
                if p == 0 then
                  && LiveAt(old(L), k, j, old(Unaligned(pads, ptr)) - MINOR_SIZE)
                      && FreedAt(old(L), L, old(Frames()), Frames(), k, j)
                else
                  && MovedBy(mv, old(L), L, old(Frames()), Frames(), size, p, k, j)
                  && LiveAt(mv.L1, k, j, old(Unaligned(pads, ptr)) - MINOR_SIZE)
                  && RangesApart(ptr, p, old(Header(ptr).reqSize), size)
      ensures size != 0 && (ptr == 0 || (old(IsMagic(ptr)) && size > old(Header(ptr).reqSize))) ==>
                (p == 0 <==> Exhausted(old(L), old(Frames()), pmm.maxPages, size + ALIGNMENT + ALIGN_INFO))
    {
      hide Sound, NonEmptyBlks, FreedAt, Unaligned, Aligned, PlacedAt, Found, Exhausted, CopiedTo, RangesApart, MovedBy;
      mv, k, j, p := Move(L, 0, 0, Frames(), L), 0, 0, 0;
      if size == 0 {
        k, j := Kfree(ptr);
        return;
      }
      if ptr == 0 {
        ghost var base;
        p, base, k, j := Kmalloc(size);
        mv := mv.(base := base);
        return;
      }
      var min := Unaligned(pads, ptr) - MINOR_SIZE;
      var magic := minors[min].magic;
      if magic != MAGIC {
        errorCount := errorCount + 1;
        if magic % 0x100_0000 == MAGIC % 0x100_0000 || magic % 0x1_0000 == MAGIC % 0x1_0000
           || magic % 0x100 == MAGIC % 0x100 {
          possibleOverruns := possibleOverruns + 1;
        }
        return;
      }
      k, j := LiveIndex(H(), L, min, hhdm, pmm.Used(), pmm.maxPages, Heads());
      var realSize := minors[min].reqSize;
      ReqOfLive(H(), L, k, j, min, hhdm, pmm.Used(), pmm.maxPages, Heads());
      if realSize >= size {
        ResizedFacts(H(), L, k, j, size, hhdm, pmm.Used(), pmm.maxPages, Heads());
        minors := minors[min := minors[min].(reqSize := size)];
        L := L[k := ResizedBlk(L[k], j, size)];
        return ptr, mv, k, j;
      }
      p, mv, k, j := MoveLarger(ptr, size, min, realSize, k, j);
    }

    /** The end of krealloc: a larger allocation is made, filled, and the old one freed. */
    method MoveLarger(ptr: nat, size: nat, min: nat, realSize: nat, ghost k0: nat, ghost j0: nat)
      returns (p: nat, ghost mv: Move, ghost k: nat, ghost j: nat)
      requires Valid() && Representable(size + ALIGNMENT + ALIGN_INFO)
      requires ptr != 0 && LiveAt(L, k0, j0, min) && min in minors && minors[min].reqSize == realSize < size
      requires ptr == Aligned(min + MINOR_SIZE) && L[k0].live[j0].req == realSize
      modifies this, pmm`freeMem, pmm.bitmap, memory
      ensures Valid()
      ensures CopiedTo(old(memory.bytes), memory.bytes, p, ptr, realSize)
      ensures p != 0 ==> MovedBy(mv, old(L), L, old(Frames()), Frames(), size, p, k, j) && LiveAt(mv.L1, k, j, min)
      ensures p != 0 ==> RangesApart(ptr, p, realSize, size)
      ensures p == 0 ==> LiveAt(old(L), k, j, min) && FreedAt(old(L), L, old(Frames()), Frames(), k, j)
      ensures p == 0 <==> Exhausted(old(L), old(Frames()), pmm.maxPages, size + ALIGNMENT + ALIGN_INFO)
    {
      hide Sound, NonEmptyBlks, FreedAt, Unaligned, Aligned, PlacedAt, Found, Exhausted, CopiedTo, RangesApart;
      mv, k, j := Move(L, 0, 0, Frames(), L), 0, 0;
      ghost var L0, f0 := L, Frames();
      ghost var base, k1, j1;
      p, base, k1, j1 := Kmalloc(size);
      if p == 0 {
        // the copy to NULL, and the old allocation is freed all the same
        SoundPointer(H(), L, k0, j0, hhdm, pmm.Used(), pmm.maxPages, Heads());
        memory.Copy(0, ptr, realSize);
        k, j := Kfree(ptr);
        return;
      }
      mv := Move(base, k1, j1, Frames(), L);
      k, j := StillLive(L0, base, L, f0, Frames(), size + ALIGNMENT + ALIGN_INFO, size, p, k1, j1, k0, j0, min);
      SoundPointer(H(), L, k, j, hhdm, pmm.Used(), pmm.maxPages, Heads());
      CopyApart(H(), base, L, k, j, k1, j1, size, p, min, ptr, realSize, hhdm, pmm.Used(), pmm.maxPages, Heads());
      RangeSame(ptr, p, realSize, size);
      memory.Copy(p, ptr, realSize);
      k, j := Kfree(ptr);
    }

    /** The alignment byte and the header of a pointer that kmalloc returned, with nothing else
        stored over them since: live ones always, freed ones until their bytes are given out again. */
    predicate Known(ptr: nat)
      reads this
    {
      && ptr >= ALIGN_INFO && ptr - ALIGN_INFO in pads
      && Unaligned(pads, ptr) >= MINOR_SIZE && Unaligned(pads, ptr) - MINOR_SIZE in minors
    }

    function Header(ptr: nat): Minor
      reads this
      requires Known(ptr)
    {
      minors[Unaligned(pads, ptr) - MINOR_SIZE]
    }

    /** The header under ptr has the magic number. */
    predicate IsMagic(ptr: nat)
      reads this
      requires Known(ptr)
    {
      minors[Unaligned(pads, ptr) - MINOR_SIZE].magic == MAGIC
    }

    twostate predicate SameCounts()
      reads this
    {
      errorCount == old(errorCount) && possibleOverruns == old(possibleOverruns) && warningCount == old(warningCount)
    }
  }

  // ----- resizing -----

  /** How a larger allocation was placed, and the heap before the old one was freed. */
  datatype Move = Move(base: Layout, k: nat, j: nat, f: FrameUse, L1: Layout)

  ghost predicate MovedBy(mv: Move, L0: Layout, L: Layout, f0: FrameUse, f: FrameUse, req: nat, p: nat, k: nat,
      j: nat) {
    && PlacedAt(mv.base, mv.L1, mv.k, mv.j, req + ALIGNMENT + ALIGN_INFO, req, p)
    && Found(L0, mv.base, f0, mv.f, req + ALIGNMENT + ALIGN_INFO, mv.k)
    && FreedAt(mv.L1, L, mv.f, f, k, j)
  }

  lemma ResizedFacts(h: Headers, L: Layout, k: nat, j: nat, req: nat, hhdm: nat, used: set<nat>, maxPages: nat,
      r: Roots)
    requires Sound(h, L, hhdm, used, maxPages, r) && k < |L| && j < |L[k].live|
    requires L[k].live[j].addr in h.minors && req <= h.minors[L[k].live[j].addr].reqSize
    ensures var a, L' := L[k].live[j].addr, L[k := ResizedBlk(L[k], j, req)];
            Sound(h.(minors := h.minors[a := h.minors[a].(reqSize := req)]), L', hhdm, used, maxPages, r)
            && (NonEmptyBlks(L) ==> NonEmptyBlks(L'))
  {
    hide MajorsStand, PadsStand, GoodLayout, MagicLive, TotalInUse, TotalSize, Usage, InUse, Run, Intact;
    var a0 := L[k].live[j].addr;
    ResizedIntact(h, h.(minors := h.minors[a0 := h.minors[a0].(reqSize := req)]), L, k, j, req);
    assert MinorsStand(h.minors, L[k]) && h.minors[L[k].live[j].addr] == MinorOf(L[k], j);
    ResizedGood(L, k, j, req);
    ResizedStands(h, L, k, j, req);
    ResizedMagic(h.minors, L, k, j, req);
    SumsOfResize(L[k].live, j, req);
    TotalsOfUpdate(L, k, ResizedBlk(L[k], j, req));
    ResizedListed(L, k, j, req, r.bestBet);
  }

  lemma ResizedListed(L: Layout, k: nat, j: nat, req: nat, best: nat)
    requires k < |L| && j < |L[k].live|
    ensures Listed(L, best) ==> Listed(L[k := ResizedBlk(L[k], j, req)], best)
  {
    if Listed(L, best) {
      var l :| 0 <= l < |L| && L[l].addr == best;
      assert L[k := ResizedBlk(L[k], j, req)][l].addr == best;
    }
  }

  /** A placement keeps every live allocation. */
  lemma StillLive(L0: Layout, base: Layout, L: Layout, f0: FrameUse, f: FrameUse, size: nat, req: nat, p: nat,
                  k1: nat, j1: nat, k0: nat, j0: nat, a: nat) returns (k: nat, j: nat)
    requires PlacedAt(base, L, k1, j1, size, req, p) && Found(L0, base, f0, f, size, k1) && LiveAt(L0, k0, j0, a)
    ensures LiveAt(L, k, j, a) && k < |L| && j < |L[k].live| && L[k].live[j].addr == a
    ensures (k != k1 || j != j1) && L[k].live[j] == L0[k0].live[j0]
  {
    hide NoFitAll, Aligned, FreeRun, NewPageCount, Credit;
    k, j := k0, if k0 == k1 && j0 >= j1 then j0 + 1 else j0;
    assert base[k0] == L0[k0] by {
      if base != L0 { assert base[k0] == base[..|L0|][k0]; }
    }
  }

  lemma SoundPointer(h: Headers, L: Layout, k: nat, j: nat, hhdm: nat, used: set<nat>, maxPages: nat, r: Roots)
    requires Sound(h, L, hhdm, used, maxPages, r) && k < |L| && j < |L[k].live|
    ensures var a := L[k].live[j].addr;
            Unaligned(h.pads, Aligned(a + MINOR_SIZE)) == a + MINOR_SIZE && a in h.minors && h.minors[a].magic == MAGIC
            && Aligned(a + MINOR_SIZE) >= ALIGN_INFO && Aligned(a + MINOR_SIZE) - ALIGN_INFO in h.pads
  {
    assert PadsStand(h.pads, L[k]);
    assert PadAddr(L[k].live[j]) in h.pads;
    UnalignAligned(h, L, k, j);
  }

  lemma ReqOfLive(h: Headers, L: Layout, k: nat, j: nat, a: nat, hhdm: nat, used: set<nat>, maxPages: nat, r: Roots)
    requires Sound(h, L, hhdm, used, maxPages, r) && k < |L| && j < |L[k].live| && L[k].live[j].addr == a
    ensures a in h.minors && h.minors[a].reqSize == L[k].live[j].req
  {
    CellFacts(h, L, k, j, hhdm, used, maxPages, r, 0);
  }

  /** The bytes of the old allocation and the room of the new one do not overlap. */
  ghost predicate RangesApart(ptr: nat, p: nat, n: nat, size: nat) {
    ptr + n <= p || p + size <= ptr
  }

  lemma RangeSame(ptr: nat, p: nat, n: nat, size: nat)
    requires RangesApart(ptr, p, n, size) && n < size
    ensures ptr + n <= p || p + n <= ptr
  {
  }

  lemma CopyApart(h: Headers, base: Layout, L: Layout, k: nat, j: nat, k1: nat, j1: nat, size: nat, p: nat, a: nat,
      ptr: nat, n: nat, hhdm: nat, used: set<nat>, maxPages: nat, r: Roots)
    requires Sound(h, L, hhdm, used, maxPages, r) && PlacedAt(base, L, k1, j1, size + ALIGNMENT + ALIGN_INFO, size, p)
    requires k < |L| && j < |L[k].live| && L[k].live[j].addr == a && L[k].live[j].req == n && (k != k1 || j != j1)
    requires ptr == Aligned(a + MINOR_SIZE) && n < size
    ensures RangesApart(ptr, p, n, size)
  {
    hide Stands, MagicLive, OnFrames, Aligned, Fits;
    assert L[k1].live[j1] == Cell(GapStart(base[k1], j1), size + ALIGNMENT + ALIGN_INFO, size);
    PointerSafe(L, k, j, k1, j1);
    PointerSafe(L, k1, j1, k, j);
  }

  // ----- freeing -----

  /** Conversion of an unsigned difference to `int`. */
  function SignedInt(x: int): int {
    var u := Wrap32(x);
    if u < TWO_32 / 2 then u else u - TWO_32
  }

  /** Allocation j of block k is gone; with the last one of a block the block is, and
      its frames are free again. */
  ghost predicate FreedAt(L0: Layout, L: Layout, f0: FrameUse, f: FrameUse, k: nat, j: nat) {
    && k < |L0| && j < |L0[k].live|
    && if |L0[k].live| == 1 then
         L == Dropped(L0, k) && f == FrameUse(f0.used - Run(L0[k].frame, L0[k].pages), Credit(f0.free, L0[k].pages))
       else
         L == TakenLayout(L0, k, j) && f == f0
  }

  lemma LiveIndex(h: Headers, L: Layout, a: nat, hhdm: nat, used: set<nat>, maxPages: nat, r: Roots) returns (k: nat,
      j: nat)
    requires Sound(h, L, hhdm, used, maxPages, r) && a in h.minors && h.minors[a].magic == MAGIC
    ensures LiveAt(L, k, j, a) && k < |L| && j < |L[k].live| && a == L[k].live[j].addr
    ensures h.minors[a].block == L[k].addr
  {
    hide MajorsStand, PadsStand, GoodLayout, OnFrames;
    var k0, j0 :| LiveAt(L, k0, j0, a);
    k, j := k0, j0;
    assert MinorsStand(h.minors, L[k]) && h.minors[a] == MinorOf(L[k], j);
  }

  lemma TakenFacts(h: Headers, L: Layout, k: nat, j: nat, hhdm: nat, used: set<nat>, maxPages: nat, r: Roots)
    requires Sound(h, L, hhdm, used, maxPages, r) && k < |L| && j < |L[k].live|
    ensures L[k].addr in h.majors && MinorsStand(h.minors, L[k]) && L[k].live[j].addr in h.minors
    ensures h.majors[L[k].addr].usage < TWO_32 && h.majors[L[k].addr].usage >= L[k].live[j].size + MINOR_SIZE
    ensures r.inUse >= L[k].live[j].size
    ensures Sound(Taken(h, L[k], j), TakenLayout(L, k, j), hhdm, used, maxPages,
        r.(inUse := r.inUse - L[k].live[j].size))
    ensures TakenAsStored(h, L, k, j)
  {
    hide PadAddr, Usage, InUse, TotalInUse, TotalSize, GoodLayout, MinorsStand, PadsStand, MajorsStand, MagicLive,
      TakenMajors, TakenMinors, Intact;
    TakenStands(h, L, k, j);
    BlkStands(h, L, k);
    TakenIntact(h, L, k, j);
    TakenRoom(h, L, k, j);
    SumsOfRemove(L[k].live, j);
    TotalsOfUpdate(L, k, TakenBlk(L[k], j));
    TakenListed(L, k, j, hhdm, used, maxPages, r.bestBet);
    TakenAs(h, L, k, j);
    TakenMagicIn(h, L, k, j);
  }

  lemma TakenMagicIn(h: Headers, L: Layout, k: nat, j: nat)
    requires Stands(h, L) && GoodLayout(L) && MagicLive(h.minors, L) && k < |L| && j < |L[k].live|
    ensures MinorsStand(h.minors, L[k]) && MagicLive(TakenMinors(h.minors, L[k], j), TakenLayout(L, k, j))
  {
    hide MagicLive, TakenMinors;
    assert GoodBlk(L[k]);
    BlkStands(h, L, k);
    TakenMagic(h.minors, L, k, j);
  }

  lemma TakenRoom(h: Headers, L: Layout, k: nat, j: nat)
    requires Stands(h, L) && GoodLayout(L) && k < |L| && j < |L[k].live|
    ensures L[k].addr in h.majors && h.majors[L[k].addr].usage < TWO_32
    ensures L[k].live[j].addr in h.minors
  {
    hide Usage;
    BlkStands(h, L, k);
    assert GoodBlk(L[k]);
    FreeBoundsGap(L[k], 0);
  }

  lemma TakenListed(L: Layout, k: nat, j: nat, hhdm: nat, used: set<nat>, maxPages: nat, best: nat)
    requires OnFrames(L, hhdm, used, maxPages) && k < |L| && j < |L[k].live|
    ensures var L' := TakenLayout(L, k, j);
            OnFrames(L', hhdm, used, maxPages) && BlkAddr(L', 0) == BlkAddr(L, 0)
                && (Listed(L, best) ==> Listed(L', best))
  {
    hide Remove, Run;
    var L' := TakenLayout(L, k, j);
    if Listed(L, best) {
      var l :| 0 <= l < |L| && L[l].addr == best;
      assert L'[l].addr == best;
    }
  }

  /** The stores of UnlinkMinor make the headers of the layout without the cell. */
  ghost predicate TakenAsStored(h: Headers, L: Layout, k: nat, j: nat)
    requires k < |L| && L[k].addr in h.majors && MinorsStand(h.minors, L[k]) && j < |L[k].live|
    requires h.majors[L[k].addr].usage >= L[k].live[j].size + MINOR_SIZE
  {
    var h', a := Taken(h, L[k], j), L[k].live[j].addr;
    var node, g := h.minors[a], h.majors[L[k].addr];
    && node.block == L[k].addr && node.size == L[k].live[j].size
    && (node.next != 0 ==> node.next in h.minors && node.next != a)
    && (node.prev != 0 ==> node.prev in h.minors && node.prev != a)
    && h'.majors == h.majors[L[k].addr := g.(usage := g.usage - (node.size + MINOR_SIZE),
                                             first := if node.prev == 0 then node.next else g.first)]
    && (var m1 := h.minors[a := node.(magic := DEAD)];
        var m2 := if node.next != 0 then m1[node.next := m1[node.next].(prev := node.prev)] else m1;
        h'.minors == if node.prev != 0 then m2[node.prev := m2[node.prev].(next := node.next)] else m2)
    && h'.pads == h.pads
  }

  lemma TakenAs(h: Headers, L: Layout, k: nat, j: nat)
    requires Stands(h, L) && GoodLayout(L) && k < |L| && j < |L[k].live|
    requires L[k].addr in h.majors && h.majors[L[k].addr].usage >= L[k].live[j].size + MINOR_SIZE
    ensures MinorsStand(h.minors, L[k]) && TakenAsStored(h, L, k, j)
  {
    BlkStands(h, L, k);
    GoodAt(L, k);
    CellNeighbours(L[k], j);
    hide Usage, Stands, GoodLayout, Sorted, RoomyCells, CellEnd;
    var b := L[k];
    assert h.minors[b.live[j].addr] == MinorOf(b, j);
  }

  /** The cells before and behind cell j are elsewhere, and not at address 0. */
  lemma CellNeighbours(b: Blk, j: nat)
    requires GoodBlk(b) && j < |b.live|
    ensures (CellAddr(b.live, j - 1) != 0 <==> j > 0) && (CellAddr(b.live, j + 1) != 0 <==> j + 1 < |b.live|)
    ensures j > 0 ==> b.live[j - 1].addr != b.live[j].addr
    ensures j + 1 < |b.live| ==> b.live[j + 1].addr != b.live[j].addr
  {
    hide Usage;
    InBlock(b, j);
    if j > 0 { Apart(b, j - 1, j); InBlock(b, j - 1); }
    if j + 1 < |b.live| { Apart(b, j, j + 1); InBlock(b, j + 1); }
  }

  lemma BlockOf(h: Headers, L: Layout, k: nat, hhdm: nat, used: set<nat>, maxPages: nat, r: Roots)
    requires Sound(h, L, hhdm, used, maxPages, r) && k < |L| && L[k].live == []
    ensures L[k].addr in h.majors && h.majors[L[k].addr].size == Size(L[k])
    ensures NoCellIn(L, L[k].addr, L[k].addr + Size(L[k]))
  {
    BlkStands(h, L, k);
    BlockFree(L, k);
  }

  lemma DroppedFacts(h: Headers, L: Layout, k: nat, hhdm: nat, used: set<nat>, maxPages: nat, r: Roots)
    requires Sound(h, L, hhdm, used, maxPages, r) && k < |L| && L[k].live == []
    requires Vacant(h, L[k].addr, L[k].addr + Size(L[k]))
    ensures MajorsStand(h.majors, L) && L[k].addr in h.majors && L[k].addr > 0
    ensures var g, root := h.majors[L[k].addr], BlkAddr(Dropped(L, k), 0);
            && g.prev == BlkAddr(L, k - 1) && g.next == BlkAddr(L, k + 1) && g.pages == L[k].pages
                && g.size == Size(L[k]) <= r.total
            && (g.prev != 0 <==> k > 0) && (g.next != 0 <==> k + 1 < |L|)
            && root == (if r.memRoot == L[k].addr then g.next else r.memRoot)
            && L[k].addr >= hhdm && (L[k].addr - hhdm) / PAGE == L[k].frame && L[k].frame + L[k].pages <= maxPages
            && 0 !in Run(L[k].frame, L[k].pages) && maxPages !in Run(L[k].frame, L[k].pages)
            && DroppedAsStored(h.majors, L, k)
            && Sound(h.(majors := DroppedMajors(h.majors, L, k)), Dropped(L, k), hhdm,
                used - Run(L[k].frame, L[k].pages), maxPages,
                  Roots(root, if r.bestBet == L[k].addr then 0 else r.bestBet, r.inUse, r.total - Size(L[k])))
  {
    hide Usage, MinorsStand, PadsStand, DroppedMajors, MagicLive, Run, TotalInUse, TotalSize, OnFrames, Intact, Vacant;
    DroppedIntact(h, h.(majors := DroppedMajors(h.majors, L, k)), L, k);
    BlkStands(h, L, k);
    DroppedStands(h, L, k);
    DroppedMagic(h.minors, L, k);
    TotalsOfDrop(L, k);
    DroppedLinks(h, L, k);
    DroppedFrames(L, k, hhdm, used, maxPages);
    if r.bestBet != 0 && r.bestBet != L[k].addr {
      DroppedListed(L, k, r.bestBet);
    }
    DroppedAs(h, L, k);
  }

  /** The stores of DropMajor make the headers of the shorter list. */
  ghost predicate DroppedAsStored(majors: map<nat, Major>, L: Layout, k: nat)
    requires MajorsStand(majors, L) && k < |L|
  {
    var g := majors[L[k].addr];
    && (g.prev != 0 ==> g.prev in majors) && (g.next != 0 ==> g.next in majors)
    && (var m1 := if g.prev != 0 then majors[g.prev := majors[g.prev].(next := g.next)] else majors;
        DroppedMajors(majors, L, k) == if g.next != 0 then m1[g.next := m1[g.next].(prev := g.prev)] else m1)
  }

  lemma DroppedAs(h: Headers, L: Layout, k: nat)
    requires Stands(h, L) && GoodLayout(L) && k < |L|
    ensures DroppedAsStored(h.majors, L, k)
  {
    hide Usage, Size, PadsStand, MinorsStand;
    BlkStands(h, L, k);
    DroppedLinks(h, L, k);
  }

  lemma DroppedLinks(h: Headers, L: Layout, k: nat)
    requires Stands(h, L) && GoodLayout(L) && k < |L|
    ensures BlkAddr(Dropped(L, k), 0) == if BlkAddr(L, 0) == L[k].addr then BlkAddr(L, k + 1) else BlkAddr(L, 0)
    ensures (BlkAddr(L, k - 1) != 0 <==> k > 0) && (BlkAddr(L, k + 1) != 0 <==> k + 1 < |L|) && L[k].addr > 0
  {
    hide Stands, DisjointBlks;
    assert GoodBlk(L[k]);
    if k > 0 {
      assert GoodBlk(L[k - 1]);
      if BlkAddr(L, 0) == L[k].addr { BlksApart(L, 0, k); }
    }
    if k + 1 < |L| { assert GoodBlk(L[k + 1]); }
  }

  lemma DroppedListed(L: Layout, k: nat, best: nat)
    requires k < |L| && Listed(L, best) && best != L[k].addr
    ensures Listed(Dropped(L, k), best)
  {
    var l :| 0 <= l < |L| && L[l].addr == best;
    assert Dropped(L, k)[if l < k then l else l - 1].addr == best;
  }

  lemma DroppedFrames(L: Layout, k: nat, hhdm: nat, used: set<nat>, maxPages: nat)
    requires GoodLayout(L) && OnFrames(L, hhdm, used, maxPages) && k < |L|
    ensures OnFrames(Dropped(L, k), hhdm, used - Run(L[k].frame, L[k].pages), maxPages)
    ensures L[k].addr >= hhdm && (L[k].addr - hhdm) / PAGE == L[k].frame && L[k].frame + L[k].pages <= maxPages
    ensures 0 !in Run(L[k].frame, L[k].pages) && maxPages !in Run(L[k].frame, L[k].pages)
  {
    hide Run;
    var L' := Dropped(L, k);
    forall l | 0 <= l < |L'|
      ensures L'[l].addr == hhdm + PAGE * L'[l].frame && 0 < L'[l].frame && L'[l].frame + L'[l].pages <= maxPages
      ensures Run(L'[l].frame, L'[l].pages) <= used - Run(L[k].frame, L[k].pages)
    {
      var m := if l < k then l else l + 1;
      assert L'[l] == L[m];
      RunsApart(L, hhdm, used, maxPages, m, k);
    }
  }

  lemma RunsApart(L: Layout, hhdm: nat, used: set<nat>, maxPages: nat, m: nat, k: nat)
    requires GoodLayout(L) && OnFrames(L, hhdm, used, maxPages) && m < |L| && k < |L| && m != k
    ensures Run(L[m].frame, L[m].pages) !! Run(L[k].frame, L[k].pages)
  {
    assert DisjointBlks(L[if m < k then m else k], L[if m < k then k else m]);
  }

  lemma FreedHere(L0: Layout, L: Layout, f0: FrameUse, f: FrameUse, k: nat, j: nat)
    requires k < |L0| && j < |L0[k].live| && NonEmptyBlks(L0)
    requires var L1 := TakenLayout(L0, k, j);
             if L1[k].live == [] then
               && L == Dropped(L1, k)
               && f == FrameUse(f0.used - Run(L1[k].frame, L1[k].pages), Credit(f0.free, L1[k].pages))
             else L == L1 && f == f0
    ensures FreedAt(L0, L, f0, f, k, j) && NonEmptyBlks(L)
  {
    hide Run, Credit;
    var L1 := TakenLayout(L0, k, j);
    if L1[k].live == [] {
      assert Dropped(L1, k) == Dropped(L0, k);
      assert forall l :: 0 <= l < |L| ==> L[l] == L0[if l < k then l else l + 1];
    }
  }

  // ----- the search -----

  ghost predicate NoFitAll(L: Layout, size: nat) {
    forall i :: 0 <= i < |L| ==> NoFit(L[i], size)
  }

  /** One more block, empty, on the first run of free frames that is long enough. */
  ghost predicate GrewByOne(L0: Layout, L: Layout, f0: FrameUse, f: FrameUse, size: nat) {
    && |L| == |L0| + 1 && L[..|L0|] == L0
    && var b := L[|L0|];
       && b.live == [] && Fits(b, 0, size) && b.pages == NewPageCount(size)
       && FreeRun(f0.used, b.frame, b.pages)
       && f == FrameUse(f0.used + Run(b.frame, b.pages), Credit(f0.free, -(b.pages as int)))
  }

  /** The blocks that an allocation was placed into: as they were, or, only when no gap
      of them was large enough, with one more. */
  ghost predicate Found(L0: Layout, base: Layout, f0: FrameUse, f: FrameUse, size: nat, k: nat) {
    || (base == L0 && f == f0)
    || (k == |L0| && NoFitAll(L0, size) && GrewByOne(L0, base, f0, f, size))
  }

  /** No gap and no run of frames is large enough. */
  ghost predicate Exhausted(L: Layout, f: FrameUse, maxPages: nat, size: nat) {
    && NoFitAll(L, size)
    && forall i: nat :: i < maxPages ==> !FreeRun(f.used, i, NewPageCount(size))
  }

  /** What was placed was placed into a gap that was there, or into a run of frames that was free. */
  lemma NotExhausted(L0: Layout, base: Layout, L: Layout, f0: FrameUse, f: FrameUse, hhdm: nat, maxPages: nat,
      h: Headers, r: Roots, size: nat, req: nat, p: nat, k: nat, j: nat)
    requires Sound(h, L, hhdm, f.used, maxPages, r) && PlacedAt(base, L, k, j, size, req, p)
    requires Found(L0, base, f0, f, size, k)
    ensures !Exhausted(L0, f0, maxPages, size)
  {
    hide Stands, GoodLayout, MagicLive, Intact, FreeRun, NewPageCount, Credit, Run, GapStart, GapEnd, Aligned, Insert;
    if base == L0 {
      assert !NoFit(L0[k], size) by {
        GapFits(L0[k], j, size);
      }
    } else {
      NewBlkPlace(L0, base, L, f0, f, hhdm, f.used, maxPages, size, k, j, req);
    }
  }

  lemma GapFits(b: Blk, j: nat, size: nat)
    requires j <= |b.live| && Fits(b, j, size)
    ensures !NoFit(b, size)
  {
    hide Fits;
  }

  lemma NewBlkPlace(L0: Layout, base: Layout, L: Layout, f0: FrameUse, f: FrameUse, hhdm: nat, used: set<nat>,
      maxPages: nat, size: nat, k: nat, j: nat, req: nat)
    requires OnFrames(L, hhdm, used, maxPages) && GrewByOne(L0, base, f0, f, size) && k == |L0| && k < |L|
    requires j <= |base[k].live| && L == PlacedLayout(base, k, j, Cell(GapStart(base[k], j), size, req))
    ensures exists i: nat :: i < maxPages && FreeRun(f0.used, i, NewPageCount(size))
  {
    hide FreeRun, NewPageCount, Credit, Run, GapStart, GapEnd, Insert, Fits;
    assert L[k].frame == base[k].frame && L[k].pages == base[k].pages;
    PageCountPositive(size);
    assert FreeRun(f0.used, base[k].frame, NewPageCount(size));
  }

  lemma PageCountPositive(size: nat)
    ensures NewPageCount(size) >= 1
  {
  }

  // ----- a full heap -----

  /** A block of sixteen pages behind frame 0, filled by one allocation of 65424 bytes, on a machine of
      seventeen frames. */
  function FullBlock(hhdm: nat): Blk {
    Blk(hhdm + PAGE, 1, 16, [Cell(hhdm + PAGE + MAJOR_SIZE, 65456, 65424)])
  }

  ghost function AllUsed(): FrameUse {
    FrameUse(Run(0, 17), 0)
  }

  /** There, no request finds room: by `Krealloc`, a request for more bytes for the one allocation gives
      back the allocation and returns 0. */
  lemma FullHeap(hhdm: nat, req: nat)
    ensures GoodLayout([FullBlock(hhdm)]) && OnFrames([FullBlock(hhdm)], hhdm, AllUsed().used, 17)
    ensures Exhausted([FullBlock(hhdm)], AllUsed(), 17, req + ALIGNMENT + ALIGN_INFO)
  {
    var b, size := FullBlock(hhdm), req + ALIGNMENT + ALIGN_INFO;
    FullGaps(hhdm, size);
    PageCountPositive(size);
    hide NewPageCount, Sorted;
    assert GoodBlk(b);
    assert Run(1, 16) <= AllUsed().used;
    forall i: nat | i < 17 ensures !FreeRun(AllUsed().used, i, NewPageCount(size)) {
      assert i in AllUsed().used;
    }
  }

  lemma FullGaps(hhdm: nat, size: nat)
    ensures Sorted(FullBlock(hhdm)) && NoFit(FullBlock(hhdm), size)
  {
  }

  /** Where the search is: before growing, all blocks before k are full unless it
      started at the best bet; after growing, it is at the new block. */
  ghost predicate Progress(L0: Layout, L: Layout, f0: FrameUse, f: FrameUse, size: nat, grown: bool, startedBet: bool,
      k: nat) {
    if grown then
      !startedBet && k == |L0| && NoFitAll(L0, size) && GrewByOne(L0, L, f0, f, size)
    else
      L == L0 && f == f0 && k < |L| && (!startedBet ==> forall i :: 0 <= i < k ==> NoFit(L0[i], size))
  }

  /** What the links of block k say. */
  lemma BlkLinks(h: Headers, L: Layout, k: nat, hhdm: nat, used: set<nat>, maxPages: nat, r: Roots)
    requires Sound(h, L, hhdm, used, maxPages, r) && k < |L|
    ensures L[k].addr in h.majors
    ensures var g := h.majors[L[k].addr];
            && g.next == BlkAddr(L, k + 1) && (g.next == 0 <==> k + 1 == |L|)
            && (g.next != 0 ==> g.next == L[k + 1].addr)
    ensures r.memRoot == L[0].addr && L[0].addr != 0 && L[k].addr != 0
    ensures k + 1 == |L| ==> L[k].addr == BlkAddr(L, |L| - 1)
  {
    BlkStands(h, L, k);
    BlkAddrs(L, k);
    hide Stands, GoodLayout, Usage, Size, MagicLive, Intact, OnFrames;
  }

  lemma BlkAddrs(L: Layout, k: nat)
    requires GoodLayout(L) && k < |L|
    ensures L[0].addr != 0 && L[k].addr != 0 && (k + 1 < |L| ==> L[k + 1].addr != 0)
  {
    hide DisjointBlks, Sorted, RoomyCells;
    assert GoodBlk(L[0]) && GoodBlk(L[k]);
    if k + 1 < |L| { assert GoodBlk(L[k + 1]); }
  }

  /** What the free total of block k says about its gaps. */
  lemma BlkRoom(h: Headers, L: Layout, k: nat, hhdm: nat, used: set<nat>, maxPages: nat, r: Roots, size: nat)
    requires Sound(h, L, hhdm, used, maxPages, r) && k < |L|
    ensures L[k].addr in h.majors
    ensures var g := h.majors[L[k].addr];
            && g.usage <= g.size
            && (g.size - g.usage < size + MINOR_SIZE ==> NoFit(L[k], size))
            && (L[k].live == [] && Fits(L[k], 0, size) ==> g.size - g.usage >= size + MINOR_SIZE)
  {
    BlkStands(h, L, k);
    GoodAt(L, k);
    hide Stands, GoodLayout, GoodBlk, MagicLive, Intact, OnFrames, BlkAddr, CellAddr;
    RoomOf(L[k], size);
  }

  lemma GoodAt(L: Layout, k: nat)
    requires GoodLayout(L) && k < |L|
    ensures GoodBlk(L[k])
  {
    hide GoodBlk, DisjointBlks;
  }

  lemma RoomOf(b: Blk, size: nat)
    requires GoodBlk(b)
    ensures MAJOR_SIZE + Usage(b.live) <= Size(b)
    ensures Size(b) - (MAJOR_SIZE + Usage(b.live)) < size + MINOR_SIZE ==> NoFit(b, size)
    ensures b.live == [] && Fits(b, 0, size) ==> Size(b) - (MAJOR_SIZE + Usage(b.live)) >= size + MINOR_SIZE
  {
    FreeBoundsGap(b, 0);
    if Size(b) - (MAJOR_SIZE + Usage(b.live)) < size + MINOR_SIZE {
      TooFullForAny(b, size);
    }
  }

  lemma RootFacts(h: Headers, L: Layout, hhdm: nat, used: set<nat>, maxPages: nat, r: Roots)
    requires Sound(h, L, hhdm, used, maxPages, r)
    ensures r.memRoot == 0 <==> L == []
    ensures L == [] ==> r.bestBet == 0 && BlkAddr(L, |L| - 1) == 0
    ensures L != [] ==> r.memRoot == L[0].addr
  {
    hide Stands, OnFrames;
    if L != [] { assert GoodBlk(L[0]); }
  }

  lemma BestBetAt(h: Headers, L: Layout, hhdm: nat, used: set<nat>, maxPages: nat, r: Roots) returns (k: nat)
    requires Sound(h, L, hhdm, used, maxPages, r) && r.bestBet != 0
    ensures k < |L| && L[k].addr == r.bestBet
  {
    var l :| 0 <= l < |L| && L[l].addr == r.bestBet;
    k := l;
  }

  lemma BetMoved(h: Headers, L: Layout, k: nat, hhdm: nat, used: set<nat>, maxPages: nat, r: Roots)
    requires Sound(h, L, hhdm, used, maxPages, r) && k < |L|
    ensures Sound(h, L, hhdm, used, maxPages, r.(bestBet := L[k].addr))
  {
    hide Stands, GoodLayout, OnFrames;
  }

  lemma StartSearch(L0: Layout, L: Layout, f0: FrameUse, f: FrameUse, size: nat, grown: bool, k: nat)
    requires if grown then L0 == [] && GrewByOne(L0, L, f0, f, size) && k == 0 else L == L0 && f == f0 && k < |L|
    ensures Progress(L0, L, f0, f, size, grown, !grown, k)
    ensures k == 0 ==> Progress(L0, L, f0, f, size, grown, false, k)
  {
    hide FreeRun, NewPageCount, Credit, Fits, NoFit, Run;
  }

  /** Block k has no gap: it is not the new one, and the search goes on. */
  lemma FullHere(L0: Layout, L: Layout, f0: FrameUse, f: FrameUse, size: nat, grown: bool, startedBet: bool, k: nat)
    requires Progress(L0, L, f0, f, size, grown, startedBet, k) && k < |L| && NoFit(L[k], size)
    ensures !grown && L == L0 && f == f0
    ensures k + 1 < |L| ==> Progress(L0, L, f0, f, size, false, startedBet, k + 1)
    ensures k + 1 == |L| && !startedBet ==> NoFitAll(L0, size)
    ensures Progress(L0, L, f0, f, size, false, false, 0)
  {
    hide FreeRun, NewPageCount, Credit, Fits, Run;
    assert NoFit(L[k], size) ==> !Fits(L[k], 0, size);
  }

  lemma NoneLeft(L0: Layout, f0: FrameUse, maxPages: nat, size: nat)
    requires NoFitAll(L0, size)
    requires forall i: nat :: i < maxPages ==> !FreeRun(f0.used, i, NewPageCount(size))
    ensures Exhausted(L0, f0, maxPages, size)
  {
    hide FreeRun, NewPageCount, NoFitAll;
  }

  lemma GrownNow(L0: Layout, L: Layout, f0: FrameUse, f: FrameUse, size: nat)
    requires NoFitAll(L0, size) && GrewByOne(L0, L, f0, f, size)
    ensures Progress(L0, L, f0, f, size, true, false, |L| - 1)
  {
    hide FreeRun, NewPageCount, Credit, Fits, NoFit, Run;
  }

  lemma EmptyTakes(L0: Layout, L: Layout, f0: FrameUse, f: FrameUse, size: nat, grown: bool, startedBet: bool, k: nat)
    requires Progress(L0, L, f0, f, size, grown, startedBet, k) && NonEmptyBlks(L0) && k < |L|
    ensures L[k].live == [] ==> Fits(L[k], 0, size)
  {
    hide FreeRun, NewPageCount, Credit, Fits, NoFit, Run;
  }

  lemma FoundHere(L0: Layout, base: Layout, L: Layout, f0: FrameUse, f: FrameUse, size: nat, grown: bool,
                  startedBet: bool, k: nat, j: nat, req: nat, p: nat)
    requires Progress(L0, base, f0, f, size, grown, startedBet, k) && NonEmptyBlks(L0)
    requires PlacedAt(base, L, k, j, size, req, p)
    ensures Found(L0, base, f0, f, size, k) && NonEmptyBlks(L)
  {
    hide FreeRun, NewPageCount, Credit, Fits, NoFit, Run, GapStart, Aligned;
    forall l | 0 <= l < |L|
      ensures L[l].live != []
    {
      if l != k {
        assert L[l] == base[l];
        if grown {
          assert base[l] == base[..|L0|][l];
        }
      }
    }
  }

  /** The layout gained an allocation at the start of gap j of block k, the first gap that takes it; p is
      the aligned pointer to it. */
  ghost predicate PlacedAt(L: Layout, L': Layout, k: nat, j: nat, size: nat, req: nat, p: nat) {
    && k < |L| && j <= |L[k].live| && Fits(L[k], j, size) && (forall i: nat :: i < j ==> !Fits(L[k], i, size))
    && L' == PlacedLayout(L, k, j, Cell(GapStart(L[k], j), size, req))
    && p == Aligned(GapStart(L[k], j) + MINOR_SIZE)
  }

  lemma AlignedPositive(raw: nat)
    requires raw > 0
    ensures Aligned(raw) > 0
  {
  }

  lemma BlkFacts(h: Headers, L: Layout, k: nat, hhdm: nat, used: set<nat>, maxPages: nat, r: Roots, size: nat)
    requires Sound(h, L, hhdm, used, maxPages, r) && k < |L|
    ensures L[k].addr in h.majors && L[k].addr > 0
    ensures var g := h.majors[L[k].addr];
            && g.first == CellAddr(L[k].live, 0) && g.size == Size(L[k])
            && (g.first == 0 <==> L[k].live == [])
            && GapStart(L[k], 0) == L[k].addr + MAJOR_SIZE
            && (g.first != 0 ==> g.first >= L[k].addr + MAJOR_SIZE)
            && (g.first != 0 ==> (Fits(L[k], 0, size) <==> g.first - L[k].addr - MAJOR_SIZE >= size + MINOR_SIZE))
    ensures CellAddr(L[k].live, -1) == 0 && (L[k].live == [] ==> CellAddr(L[k].live, 0) == 0)
  {
    hide Usage, MinorsStand, PadsStand;
    BlkStands(h, L, k);
    assert GoodBlk(L[k]);
    if L[k].live != [] { InBlock(L[k], 0); }
  }

  lemma CellFacts(h: Headers, L: Layout, k: nat, j: nat, hhdm: nat, used: set<nat>, maxPages: nat, r: Roots, size: nat)
    requires Sound(h, L, hhdm, used, maxPages, r) && k < |L| && j < |L[k].live|
    ensures L[k].live[j].addr in h.minors && CellAddr(L[k].live, j) == L[k].live[j].addr
    ensures var b := L[k];
            var node := h.minors[b.live[j].addr];
            var limit := if node.next == 0 then b.addr + Size(b) else node.next;
            && node.next == CellAddr(b.live, j + 1) && (node.next == 0 <==> j + 1 == |b.live|)
            && GapStart(b, j + 1) == b.live[j].addr + MINOR_SIZE + node.size <= limit
            && (Fits(b, j + 1, size) <==> limit - b.live[j].addr - MINOR_SIZE - node.size >= size + MINOR_SIZE)
            && node.size == b.live[j].size && node.reqSize == b.live[j].req && node.block == b.addr
                && node.magic == MAGIC
            && node.prev == CellAddr(b.live, j - 1) && (node.prev == 0 <==> j == 0)
  {
    hide Usage, MajorsStand, PadsStand;
    var b := L[k];
    assert GoodBlk(b) && MinorsStand(h.minors, b);
    assert h.minors[b.live[j].addr] == MinorOf(b, j);
    assert GapStart(b, j + 1) <= GapEnd(b, j + 1);
    if j + 1 < |b.live| { InBlock(b, j + 1); }
    if j > 0 { InBlock(b, j - 1); }
  }

  lemma GapOf(h: Headers, L: Layout, k: nat, j: nat, c: Cell, hhdm: nat, used: set<nat>, maxPages: nat, r: Roots)
    requires Sound(h, L, hhdm, used, maxPages, r) && k < |L| && Placeable(L[k], j, c)
    ensures NoCellIn(L, c.addr, CellEnd(c))
  {
    GapFree(L, k, j, c);
  }

  lemma ForgottenSound(h: Headers, L: Layout, lo: nat, hi: nat, hhdm: nat, used: set<nat>, maxPages: nat, r: Roots)
    requires Sound(h, L, hhdm, used, maxPages, r) && NoCellIn(L, lo, hi)
    ensures Sound(Forgotten(h, lo, hi), L, hhdm, used, maxPages, r) && Vacant(Forgotten(h, lo, hi), lo, hi)
  {
    hide Stands, MagicLive, Intact, NoCellIn, Forgotten, GoodLayout, OnFrames;
    ForgottenIs(h, L, lo, hi);
  }

  /** Everything LinkMinor needs to know. */
  lemma PlacementFacts(h: Headers, L: Layout, k: nat, j: nat, c: Cell, hhdm: nat, used: set<nat>, maxPages: nat,
      r: Roots)
    requires Sound(h, L, hhdm, used, maxPages, r) && k < |L| && Placeable(L[k], j, c) && Vacant(h, c.addr, CellEnd(c))
    ensures L[k].addr in h.majors && MinorsStand(h.minors, L[k]) && c.size < TWO_32 && c.req < TWO_32
    ensures h.majors[L[k].addr].usage + c.size + MINOR_SIZE < TWO_32
    ensures Sound(Placed(h, L[k], j, c), PlacedLayout(L, k, j, c), hhdm, used, maxPages, r.(inUse := r.inUse + c.size))
    ensures PlacedAsStored(h, L, k, j, c)
  {
    hide PlacedMajors, PlacedMinors, PadAddr, Usage, InUse, TotalInUse, TotalSize, GoodLayout, MinorsStand, PadsStand,
      MajorsStand, MagicLive, Intact, Vacant;
    PlacedStands(h, L, k, j, c);
    PlacedIntact(h, L, k, j, c);
    BlkStands(h, L, k);
    PlacementRoom(L, k, j, c);
    SumsOfInsert(L[k].live, j, c);
    TotalsOfUpdate(L, k, PlacedBlk(L[k], j, c));
    PlacementListed(L, k, j, c, hhdm, used, maxPages, r.bestBet);
    PlacedAs(h, L, k, j, c);
    PlacedMagic(h.minors, L, k, j, c);
  }

  /** The stores of LinkMinor make the headers of the layout with the new cell. */
  ghost predicate PlacedAsStored(h: Headers, L: Layout, k: nat, j: nat, c: Cell)
    requires k < |L| && L[k].addr in h.majors && MinorsStand(h.minors, L[k]) && j <= |L[k].live|
  {
    var h', p, n := Placed(h, L[k], j, c), CellAddr(L[k].live, j - 1), CellAddr(L[k].live, j);
    && (p != 0 ==> p in h.minors) && (n != 0 ==> n in h.minors) && (p != 0 ==> p != n)
    && (var g := h.majors[L[k].addr];
        h'.majors == h.majors[L[k].addr := g.(usage := g.usage + c.size + MINOR_SIZE,
                                              first := if p == 0 then c.addr else g.first)])
    && (var m1 := if p != 0 then h.minors[p := h.minors[p].(next := c.addr)] else h.minors;
        var m2 := if n != 0 then m1[n := m1[n].(prev := c.addr)] else m1;
        h'.minors == m2[c.addr := Minor(p, n, L[k].addr, MAGIC, c.size, c.req)])
    && (var raw := c.addr + MINOR_SIZE;
        raw + ALIGN_INFO <= Aligned(raw) && h'.pads == h.pads[Aligned(raw) - ALIGN_INFO := Aligned(raw) - raw])
  }

  lemma PlacedAs(h: Headers, L: Layout, k: nat, j: nat, c: Cell)
    requires Stands(h, L) && GoodLayout(L) && k < |L| && Placeable(L[k], j, c)
    ensures L[k].addr in h.majors && MinorsStand(h.minors, L[k]) && PlacedAsStored(h, L, k, j, c)
  {
    hide Usage, Stands;
    BlkStands(h, L, k);
    PlacementRoom(L, k, j, c);
  }

  lemma PlacementRoom(L: Layout, k: nat, j: nat, c: Cell)
    requires GoodLayout(L) && k < |L| && Placeable(L[k], j, c)
    ensures 0 < L[k].addr && c.size < TWO_32 && c.req < TWO_32
    ensures MAJOR_SIZE + Usage(L[k].live) + c.size + MINOR_SIZE < TWO_32
    ensures CellAddr(L[k].live, j - 1) != 0 <==> j > 0
    ensures CellAddr(L[k].live, j) != 0 <==> j < |L[k].live|
    ensures j > 0 && j < |L[k].live| ==> CellAddr(L[k].live, j - 1) != CellAddr(L[k].live, j)
    ensures c.addr != CellAddr(L[k].live, j - 1) || j == 0
    ensures c.addr != CellAddr(L[k].live, j) || j == |L[k].live|
  {
    hide Usage;
    assert GoodBlk(L[k]);
    FreeBoundsGap(L[k], j);
    if j > 0 { InBlock(L[k], j - 1); }
    if j < |L[k].live| { InBlock(L[k], j); }
  }

  lemma PlacementListed(L: Layout, k: nat, j: nat, c: Cell, hhdm: nat, used: set<nat>, maxPages: nat, best: nat)
    requires OnFrames(L, hhdm, used, maxPages) && k < |L| && j <= |L[k].live|
    ensures var L' := PlacedLayout(L, k, j, c);
            OnFrames(L', hhdm, used, maxPages) && BlkAddr(L', 0) == BlkAddr(L, 0)
                && (Listed(L, best) ==> Listed(L', best))
  {
    hide Insert, Run;
    var L' := PlacedLayout(L, k, j, c);
    if Listed(L, best) {
      var l :| 0 <= l < |L| && L[l].addr == best;
      assert L'[l].addr == best;
    }
  }

  lemma NoRun(used: set<nat>, maxPages: nat, n: nat)
    requires !exists i: nat :: i < maxPages && FreeRun(used, i, n)
    ensures forall i: nat :: i < maxPages ==> !FreeRun(used, i, n)
  {
    hide FreeRun;
  }

  lemma AppendedRoot(L: Layout, b: Blk, a: nat)
    requires GoodLayout(L)
    ensures BlkAddr(L + [b], 0) == if L == [] then b.addr else BlkAddr(L, 0)
    ensures Listed(L, a) ==> Listed(L + [b], a)
    ensures (BlkAddr(L, |L| - 1) == 0) == (L == [])
  {
    if Listed(L, a) {
      var k :| 0 <= k < |L| && L[k].addr == a;
      assert (L + [b])[k].addr == a;
    }
    if L != [] {
      assert GoodBlk(L[|L| - 1]);
    }
  }

  /** The stores of AddMajor make the headers of the longer list. */
  lemma AppendedSound(h: Headers, L: Layout, hhdm: nat, used: set<nat>, maxPages: nat, r: Roots, b: Blk)
    requires Sound(h, L, hhdm, used, maxPages, r)
    requires FreeRun(used, b.frame, b.pages) && b.addr == hhdm + PAGE * b.frame && b.live == []
    requires 0 < b.frame && 0 < b.pages && MAJOR_SIZE <= Size(b) < TWO_32 && b.frame + b.pages <= maxPages
    ensures var header, last := Major(0, 0, b.pages, Size(b), MAJOR_SIZE, 0), BlkAddr(L, |L| - 1);
            && (last == 0 <==> L == []) && last != b.addr && (last != 0 ==> last in h.majors)
            && var ms := h.majors[b.addr := header];
            && var ms' := if last == 0 then ms
                else ms[last := ms[last].(next := b.addr)][b.addr := header.(prev := last)];
            && Sound(h.(majors := ms'), L + [b], hhdm, used + Run(b.frame, b.pages), maxPages,
                  Roots(if last == 0 then b.addr else r.memRoot, r.bestBet, r.inUse, r.total + Size(b)))
  {
    hide Stands, OnFrames, GoodLayout, Listed, Run, TotalInUse, TotalSize, InUse, Size, MagicLive, Intact;
    AppendedMagic(h.minors, L, b);
    AppendedIntactAs(h, L, b);
    FreshBlk(L, hhdm, used, maxPages, b);
    AppendedStands(h, L, b);
    TotalsOfAppend(L, b);
    AppendedRoot(L, b, r.bestBet);
    AppendedAs(h, L, b);
  }

  lemma AppendedIntactAs(h: Headers, L: Layout, b: Blk)
    requires Intact(h, L) && b.live == []
    ensures forall ms :: Intact(h.(majors := ms), L + [b])
  {
    hide Intact;
    forall ms ensures Intact(h.(majors := ms), L + [b]) {
      AppendedIntact(h, h.(majors := ms), L, b);
    }
  }

  lemma AppendedAs(h: Headers, L: Layout, b: Blk)
    requires Stands(h, L) && GoodLayout(L + [b])
    ensures MajorsStand(h.majors, L) && BlkAddr(L, |L| - 1) != b.addr
    ensures var header, last := Major(0, 0, b.pages, Size(b), MAJOR_SIZE, 0), BlkAddr(L, |L| - 1);
            if L == [] then AppendedMajors(h.majors, L, b) == h.majors[b.addr := header]
            else last in h.majors
                 && AppendedMajors(h.majors, L, b) ==
                    h.majors[b.addr := header][last := h.majors[last].(next := b.addr)][b.addr := header.(prev := last)]
  {
    hide Size;
    LastMajor(h, L, b);
    assert (L + [b])[|L|] == b && GoodBlk(b);
  }

  lemma LastMajor(h: Headers, L: Layout, b: Blk)
    requires Stands(h, L) && GoodLayout(L + [b])
    ensures |L| > 0 ==> L[|L| - 1].addr in h.majors && L[|L| - 1].addr != b.addr
    ensures |L| > 0 ==> L[|L| - 1].addr == BlkAddr(L, |L| - 1)
    ensures |L| == 0 ==> BlkAddr(L, |L| - 1) == 0
  {
    var L' := L + [b];
    if |L| > 0 {
      assert L'[|L| - 1] == L[|L| - 1] && L'[|L|] == b;
      assert GoodBlk(L[|L| - 1]) && GoodBlk(b) && DisjointBlks(L'[|L| - 1], L'[|L|]);
    }
  }
}
