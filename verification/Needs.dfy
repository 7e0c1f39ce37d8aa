/** How many frames it takes to map a set of pages: one for each page, and one for each table on the
    way that is not there yet (src/mm/vmm.c:38-126). */
module Needs {
  import opened PageTables
  import opened TreeSteps
  import opened Subtrees
  import opened CloneSteps
  import opened FreeTree
  import opened HeapWindow
  import opened Pmm

  /** The place of a page and those of the tables on the way. */
  ghost function PathTo(v: nat): set<Node> {
    TablesTo(v) + {Leaf(v)}
  }

  lemma SamePath(v: nat, w: nat)
    requires UserAddr(v) && UserAddr(w) && v / 4096 == w / 4096
    ensures PathTo(v) == PathTo(w)
  {
    IndicesOfPage(v);
    IndicesOfPage(w);
  }

  /** The places that a set of pages wants. */
  ghost function Wanted(pages: set<nat>): set<Node> {
    set p, k | p in pages && k in PathTo(p * 4096) :: k
  }

  lemma WantedMore(pages: set<nat>, p: nat)
    ensures Wanted(pages + {p}) == Wanted(pages) + PathTo(p * 4096)
  {
    hide PathTo;
  }

  lemma WantedMonotone(pages: set<nat>, more: set<nat>)
    requires pages <= more
    ensures Wanted(pages) <= Wanted(more)
  {
    hide PathTo;
  }

  lemma NothingWanted()
    ensures Wanted({}) == {}
  {
  }

  /** The pages of a range. */
  ghost function PageRange(lo: nat, n: nat): (s: set<nat>)
    ensures forall p :: p in s <==> lo <= p < lo + n
  {
    if n == 0 then {} else PageRange(lo, n - 1) + {lo + n - 1}
  }

  /** How many of them are missing. */
  ghost function Needed(pages: set<nat>, at: Places): nat {
    |Wanted(pages) - at.Keys|
  }

  /** The pages and all tables on the way are there, and nothing else was added. */
  ghost predicate Reached(at: Places, at': Places, pages: set<nat>) {
    at'.Keys == at.Keys + Wanted(pages)
  }

  /** A page of the set cannot be mapped: fewer frames are free than places on its way are missing,
      and only places that the set wants were added so far. */
  ghost predicate Stuck(free: set<nat>, at: Places, at': Places, pages: set<nat>) {
    && at'.Keys <= at.Keys + Wanted(pages)
    && exists p :: p in pages && |free| < |PathTo(p * 4096) - at'.Keys|
  }

  lemma ReachedNothing(at: Places)
    ensures Reached(at, at, {})
  {
    NothingWanted();
  }

  lemma ReachedMore(at: Places, at1: Places, at2: Places, pages: set<nat>, p: nat)
    requires Reached(at, at1, pages) && at2.Keys == at1.Keys + PathTo(p * 4096)
    ensures Reached(at, at2, pages + {p})
  {
    hide Wanted, PathTo;
    WantedMore(pages, p);
  }

  lemma StuckAt(free: set<nat>, at: Places, at1: Places, at2: Places, pages: set<nat>, p: nat, more: set<nat>)
    requires Reached(at, at1, pages) && at2.Keys <= at1.Keys + PathTo(p * 4096)
    requires |free| < |PathTo(p * 4096) - at2.Keys| && pages + {p} <= more
    ensures Stuck(free, at, at2, more)
  {
    hide Wanted, PathTo;
    WantedMore(pages, p);
    WantedMonotone(pages + {p}, more);
    assert p in more;
  }

  // ----- frames -----

  /** The frames that left the free ones are those of the new places. */
  lemma FramesTaken(s: Phys, root: nat, at: Places, s': Phys, at': Places, maxPages: nat)
    requires Extends(s, at, s', at') && OwnedTree(s, root, at, 4) && OwnedTree(s', root, at', 4) && |s'.mem| == maxPages
    ensures |FreeFrames(s.used, maxPages)| == |FreeFrames(s'.used, maxPages)| + |at'.Keys - at.Keys|
  {
    var taken := at'.Values - at.Values;
    TakenFrames(s, root, at, s', at', maxPages);
    TakenCount(s, root, at, s', at');
    hide Extends, OwnedTree;
    var now, was := FreeFrames(s'.used, maxPages), FreeFrames(s.used, maxPages);
    assert was == now + taken && now !! taken;
  }

  lemma TakenFrames(s: Phys, root: nat, at: Places, s': Phys, at': Places, maxPages: nat)
    requires Extends(s, at, s', at') && OwnedTree(s, root, at, 4) && OwnedTree(s', root, at', 4) && |s'.mem| == maxPages
    ensures var taken := at'.Values - at.Values;
            && FreeFrames(s.used, maxPages) == FreeFrames(s'.used, maxPages) + taken
            && FreeFrames(s'.used, maxPages) !! taken
  {
    hide Injective, Shaped, Linked, Credit, KeepsUsed;
    forall f | f in at'.Values - at.Values ensures f < maxPages && f !in s.used && f in s'.used {
      var k :| k in at' && at'[k] == f;
      assert k !in at by {
        InOld(at, k);
      }
    }
  }

  lemma InOld(at: Places, k: Node)
    ensures k in at ==> at[k] in at.Values
  {
  }

  lemma TakenCount(s: Phys, root: nat, at: Places, s': Phys, at': Places)
    requires Extends(s, at, s', at') && OwnedTree(s, root, at, 4) && OwnedTree(s', root, at', 4)
    ensures |at'.Values - at.Values| == |at'.Keys - at.Keys|
  {
    hide HoldsTables, Shaped, Linked, Charged, KeepsUsed, NewFrames;
    CountFrames(at);
    CountFrames(at');
    SubValues(at', at);
    CountDifference(at'.Values, at.Values);
    KeyDifference(at'.Keys, at.Keys);
    assert |at'| == |at'.Keys| && |at| == |at.Keys|;
  }

  lemma CountDifference(a: set<nat>, b: set<nat>)
    requires b <= a
    ensures |a - b| == |a| - |b|
  {
    assert a == (a - b) + b;
  }

  lemma KeyDifference(a: set<Node>, b: set<Node>)
    requires b <= a
    ensures |a - b| == |a| - |b|
  {
    assert a == (a - b) + b;
  }

  /** Pages that were all mapped had frames enough. */
  lemma FramesSufficed(s: Phys, root: nat, at: Places, s': Phys, at': Places, pages: set<nat>, maxPages: nat)
    requires Extends(s, at, s', at') && OwnedTree(s, root, at, 4) && OwnedTree(s', root, at', 4) && |s'.mem| == maxPages
    requires Reached(at, at', pages)
    ensures |FreeFrames(s.used, maxPages)| >= Needed(pages, at)
  {
    FramesTaken(s, root, at, s', at', maxPages);
    hide Extends, OwnedTree, FreeFrames, Wanted;
    assert at'.Keys - at.Keys == Wanted(pages) - at.Keys;
  }

  /** Pages of which one could not be mapped had not. */
  lemma FramesLacked(s: Phys, root: nat, at: Places, s': Phys, at': Places, pages: set<nat>, maxPages: nat)
    requires Extends(s, at, s', at') && OwnedTree(s, root, at, 4) && OwnedTree(s', root, at', 4) && |s'.mem| == maxPages
    requires Stuck(FreeFrames(s'.used, maxPages), at, at', pages)
    ensures |FreeFrames(s.used, maxPages)| < Needed(pages, at)
  {
    FramesTaken(s, root, at, s', at', maxPages);
    KeysGrow(s, at, s', at');
    hide Extends, OwnedTree, FreeFrames, PathTo;
    var p :| p in pages && |FreeFrames(s'.used, maxPages)| < |PathTo(p * 4096) - at'.Keys|;
    PathWanted(pages, p);
    StillMissing(at.Keys, at'.Keys, Wanted(pages), PathTo(p * 4096));
  }

  lemma KeysGrow(s: Phys, at: Places, s': Phys, at': Places)
    requires Extends(s, at, s', at')
    ensures at.Keys <= at'.Keys
  {
  }

  lemma PathWanted(pages: set<nat>, p: nat)
    requires p in pages
    ensures PathTo(p * 4096) <= Wanted(pages)
  {
    hide PathTo;
  }

  lemma StillMissing(a: set<Node>, b: set<Node>, w: set<Node>, path: set<Node>)
    requires a <= b <= a + w && path <= w
    ensures |b - a| + |path - b| <= |w - a|
  {
    var x, y := b - a, path - b;
    assert x !! y && x + y <= w - a;
    assert w - a == x + y + ((w - a) - (x + y));
  }
}
