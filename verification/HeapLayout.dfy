/** What the kernel heap's linked headers stand for (src/mm/liballoc.c). */
module HeapLayout {
  const MAJOR_SIZE := 40 // sizeof(struct liballoc_major)
  const MINOR_SIZE := 40 // sizeof(struct liballoc_minor)
  const ALIGNMENT := 16
  const ALIGN_INFO := 16
  const MAGIC := 0xc001c0de
  const DEAD := 0xdeaddead

  // ----- headers in memory; links are addresses, 0 is NULL -----

  datatype Major = Major(prev: nat, next: nat, pages: nat, size: nat, usage: nat, first: nat)

  datatype Minor = Minor(prev: nat, next: nat, block: nat, magic: nat, size: nat, reqSize: nat)

  // ----- the layout they stand for -----

  /** A live allocation: the address of its header, its size and the size asked for. */
  datatype Cell = Cell(addr: nat, size: nat, req: nat)

  /** A block of pages with its live allocations in address order. */
  datatype Blk = Blk(addr: nat, frame: nat, pages: nat, live: seq<Cell>)

  function Size(b: Blk): nat {
    4096 * b.pages
  }

  function CellEnd(c: Cell): nat {
    c.addr + MINOR_SIZE + c.size
  }

  /** The gap before live[j], or after the last one when j == |live|. */
  function GapStart(b: Blk, j: nat): nat
    requires j <= |b.live|
  {
    if j == 0 then b.addr + MAJOR_SIZE else CellEnd(b.live[j - 1])
  }

  function GapEnd(b: Blk, j: nat): nat
    requires j <= |b.live|
  {
    if j == |b.live| then b.addr + Size(b) else b.live[j].addr
  }

  /** In address order, disjoint, inside the block, behind its header. */
  ghost predicate Sorted(b: Blk) {
    forall j :: 0 <= j <= |b.live| ==> GapStart(b, j) <= GapEnd(b, j)
  }

  function Usage(live: seq<Cell>): nat {
    if live == [] then 0 else Usage(live[..|live| - 1]) + MINOR_SIZE + live[|live| - 1].size
  }

  function InUse(live: seq<Cell>): nat {
    if live == [] then 0 else InUse(live[..|live| - 1]) + live[|live| - 1].size
  }

  /** A gap takes an allocation of `size` bytes with its header. */
  predicate Fits(b: Blk, j: nat, size: nat)
    requires j <= |b.live|
  {
    GapStart(b, j) + size + MINOR_SIZE <= GapEnd(b, j)
  }

  ghost predicate NoFit(b: Blk, size: nat) {
    forall j :: 0 <= j <= |b.live| ==> !Fits(b, j, size)
  }

  // ----- order inside a block -----

  lemma {:induction false} InOrder(b: Blk, i: nat, j: nat)
    requires Sorted(b) && i <= j <= |b.live|
    ensures GapStart(b, i) <= GapEnd(b, i) <= GapEnd(b, j)
    ensures GapStart(b, i) <= GapStart(b, j) <= GapEnd(b, j)
    ensures i < j ==> CellEnd(b.live[i]) <= GapStart(b, j)
  {
    if i < j {
      InOrder(b, i, j - 1);
      assert GapStart(b, j - 1) <= GapEnd(b, j - 1) && GapStart(b, j) <= GapEnd(b, j);
    }
  }

  /** Live allocation j with its header lies inside the block, behind the block's header. */
  lemma InBlock(b: Blk, j: nat)
    requires Sorted(b) && j < |b.live|
    ensures b.addr + MAJOR_SIZE <= b.live[j].addr && CellEnd(b.live[j]) <= b.addr + Size(b)
  {
    InOrder(b, 0, j);
    InOrder(b, j + 1, |b.live|);
  }

  /** Two live allocations of a block do not overlap. */
  lemma Apart(b: Blk, i: nat, j: nat)
    requires Sorted(b) && i < j < |b.live|
    ensures CellEnd(b.live[i]) <= b.live[j].addr
  {
    InOrder(b, i, j);
  }

  /** The free bytes of a block bound every gap, and Usage never exceeds the block. */
  lemma {:induction false} GapsInFree(b: Blk, j: nat, n: nat)
    requires Sorted(b) && n <= |b.live| && j <= n
    ensures b.addr + MAJOR_SIZE + Usage(b.live[..n]) <= GapStart(b, n)
    ensures j < n ==> GapEnd(b, j) - GapStart(b, j) + b.addr + MAJOR_SIZE + Usage(b.live[..n]) <= GapStart(b, n)
  {
    if n > 0 {
      GapsInFree(b, 0, n - 1);
      assert b.live[..n][..n - 1] == b.live[..n - 1];
      assert GapStart(b, n - 1) <= GapEnd(b, n - 1);
      if j < n - 1 {
        GapsInFree(b, j, n - 1);
      }
    }
  }

  lemma FreeBoundsGap(b: Blk, j: nat)
    requires Sorted(b) && j <= |b.live|
    ensures GapEnd(b, j) - GapStart(b, j) + MAJOR_SIZE + Usage(b.live) <= Size(b)
  {
    assert b.live[..|b.live|] == b.live;
    GapsInFree(b, j, |b.live|);
    assert GapStart(b, |b.live|) <= GapEnd(b, |b.live|);
  }

  lemma TooFullForAny(b: Blk, size: nat)
    requires Sorted(b) && Size(b) - (MAJOR_SIZE + Usage(b.live)) < size + MINOR_SIZE
    ensures NoFit(b, size)
  {
    forall j | 0 <= j <= |b.live|
      ensures !Fits(b, j, size)
    {
      FreeBoundsGap(b, j);
    }
  }

  // ----- insertion and removal -----

  function Insert(live: seq<Cell>, j: nat, c: Cell): (r: seq<Cell>)
    requires j <= |live|
    ensures |r| == |live| + 1 && r[j] == c
    ensures forall i :: 0 <= i < j ==> r[i] == live[i]
    ensures forall i :: j < i < |r| ==> r[i] == live[i - 1]
  {
    live[..j] + [c] + live[j..]
  }

  function Remove(live: seq<Cell>, j: nat): (r: seq<Cell>)
    requires j < |live|
    ensures |r| == |live| - 1
    ensures forall i :: 0 <= i < j ==> r[i] == live[i]
    ensures forall i :: j <= i < |r| ==> r[i] == live[i + 1]
  {
    live[..j] + live[j + 1..]
  }

  /** A fitting gap takes the allocation at its start and the block stays sorted. */
  lemma InsertSorted(b: Blk, j: nat, c: Cell)
    requires Sorted(b) && j <= |b.live| && c.addr == GapStart(b, j) && Fits(b, j, c.size)
    ensures Sorted(b.(live := Insert(b.live, j, c)))
  {
    var b' := b.(live := Insert(b.live, j, c));
    forall i | 0 <= i <= |b'.live|
      ensures GapStart(b', i) <= GapEnd(b', i)
    {
      if i < j {
        assert GapStart(b, i) <= GapEnd(b, i);
      } else if i > j + 1 {
        assert GapStart(b, i - 1) <= GapEnd(b, i - 1);
      }
    }
  }

  lemma RemoveSorted(b: Blk, j: nat)
    requires Sorted(b) && j < |b.live|
    ensures Sorted(b.(live := Remove(b.live, j)))
  {
    var b' := b.(live := Remove(b.live, j));
    forall i | 0 <= i <= |b'.live|
      ensures GapStart(b', i) <= GapEnd(b', i)
    {
      if i < j {
        assert GapStart(b, i) <= GapEnd(b, i);
      } else if i > j {
        assert GapStart(b, i + 1) <= GapEnd(b, i + 1);
      } else {
        assert GapStart(b, j) <= GapEnd(b, j) && GapStart(b, j + 1) <= GapEnd(b, j + 1);
      }
    }
  }

  lemma {:induction false} SumsOfInsert(live: seq<Cell>, j: nat, c: Cell)
    requires j <= |live|
    ensures Usage(Insert(live, j, c)) == Usage(live) + MINOR_SIZE + c.size
    ensures InUse(Insert(live, j, c)) == InUse(live) + c.size
  {
    var r := Insert(live, j, c);
    if j == |live| {
      assert r[..|r| - 1] == live;
    } else {
      SumsOfInsert(live[..|live| - 1], j, c);
      assert r[..|r| - 1] == Insert(live[..|live| - 1], j, c);
    }
  }

  lemma SumsOfRemove(live: seq<Cell>, j: nat)
    requires j < |live|
    ensures Usage(live) == Usage(Remove(live, j)) + MINOR_SIZE + live[j].size
    ensures InUse(live) == InUse(Remove(live, j)) + live[j].size
  {
    hide Usage, InUse, Insert, Remove;
    InsertRemoved(live, j);
    SumsOfInsert(Remove(live, j), j, live[j]);
  }

  lemma InsertRemoved(live: seq<Cell>, j: nat)
    requires j < |live|
    ensures Insert(Remove(live, j), j, live[j]) == live
  {
  }

  // ----- ALIGN and UNALIGN -----

  /** The pointer ALIGN makes of the address after a header. */
  function Aligned(raw: nat): nat {
    var p := raw + ALIGN_INFO;
    if p % ALIGNMENT == 0 then p else p + (ALIGNMENT - p % ALIGNMENT)
  }

  /** The byte it stores ALIGN_INFO below. */
  function AlignByte(raw: nat): nat {
    Aligned(raw) - raw
  }

  lemma AlignedFits(raw: nat, req: nat)
    ensures Aligned(raw) % 16 == 0
    ensures raw <= Aligned(raw) - ALIGN_INFO && Aligned(raw) + req < raw + req + ALIGNMENT + ALIGN_INFO
    ensures 16 <= AlignByte(raw) < 32
  {
  }
}
