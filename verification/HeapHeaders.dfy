/** The linked headers of the heap, and what linking a new allocation in or an old one
    out does to them (src/mm/liballoc.c). */
module HeapHeaders {
  import opened Words
  import opened HeapLayout

  /** All headers, by address, and the alignment bytes that ALIGN stores. */
  datatype Headers = Headers(majors: map<nat, Major>, minors: map<nat, Minor>, pads: map<nat, nat>)

  type Layout = seq<Blk>

  // ----- the headers a layout calls for -----

  function BlkAddr(L: Layout, k: int): nat {
    if 0 <= k < |L| then L[k].addr else 0
  }

  function CellAddr(live: seq<Cell>, j: int): nat {
    if 0 <= j < |live| then live[j].addr else 0
  }

  function MajorOf(L: Layout, k: nat): Major
    requires k < |L|
  {
    Major(BlkAddr(L, k - 1), BlkAddr(L, k + 1), L[k].pages, Size(L[k]), MAJOR_SIZE + Usage(L[k].live),
        CellAddr(L[k].live, 0))
  }

  function MinorOf(b: Blk, j: nat): Minor
    requires j < |b.live|
  {
    Minor(CellAddr(b.live, j - 1), CellAddr(b.live, j + 1), b.addr, MAGIC, b.live[j].size, b.live[j].req)
  }

  function PadAddr(c: Cell): nat {
    Aligned(c.addr + MINOR_SIZE) - ALIGN_INFO
  }

  /** The headers in memory are exactly those of the layout: every link, size and count. */
  ghost predicate MajorsStand(majors: map<nat, Major>, L: Layout) {
    && (forall k :: 0 <= k < |L| ==> L[k].addr in majors)
    && forall k: nat {:trigger MajorOf(L, k)} :: k < |L| ==> majors[L[k].addr] == MajorOf(L, k)
  }

  ghost predicate MinorsStand(minors: map<nat, Minor>, b: Blk) {
    && (forall j :: 0 <= j < |b.live| ==> b.live[j].addr in minors)
    && forall j: nat {:trigger MinorOf(b, j)} :: j < |b.live| ==> minors[b.live[j].addr] == MinorOf(b, j)
  }

  ghost predicate PadsStand(pads: map<nat, nat>, b: Blk) {
    forall j :: 0 <= j < |b.live| ==>
      PadAddr(b.live[j]) in pads && pads[PadAddr(b.live[j])] == AlignByte(b.live[j].addr + MINOR_SIZE)
  }

  ghost predicate Stands(h: Headers, L: Layout) {
    && MajorsStand(h.majors, L)
    && (forall k :: 0 <= k < |L| ==> MinorsStand(h.minors, L[k]))
    && (forall k :: 0 <= k < |L| ==> PadsStand(h.pads, L[k]))
  }

  // ----- blocks in memory -----

  /** A cell has room for the bytes asked for and for aligning them. */
  ghost predicate RoomyCells(b: Blk) {
    forall j :: 0 <= j < |b.live| ==> b.live[j].req + ALIGNMENT + ALIGN_INFO <= b.live[j].size
  }

  ghost predicate GoodBlk(b: Blk) {
    0 < b.addr && 0 < b.pages && Size(b) < TWO_32 && Sorted(b) && RoomyCells(b)
  }

  predicate DisjointBlks(a: Blk, b: Blk) {
    a.addr + Size(a) <= b.addr || b.addr + Size(b) <= a.addr
  }

  ghost predicate GoodLayout(L: Layout) {
    && (forall k :: 0 <= k < |L| ==> GoodBlk(L[k]))
    && (forall k, l :: 0 <= k < l < |L| ==> DisjointBlks(L[k], L[l]))
  }

  /** An address inside block k is in no other block. */
  lemma OneBlock(L: Layout, k: nat, l: nat, a: nat)
    requires GoodLayout(L) && k < |L| && l < |L| && k != l
    requires L[k].addr <= a < L[k].addr + Size(L[k])
    ensures !(L[l].addr <= a < L[l].addr + Size(L[l]))
  {
    assert DisjointBlks(L[if k < l then k else l], L[if k < l then l else k]);
  }

  lemma BlksApart(L: Layout, k: nat, l: nat)
    requires GoodLayout(L) && k < |L| && l < |L| && L[k].addr == L[l].addr
    ensures k == l
  {
    if k != l {
      OneBlock(L, k, l, L[k].addr);
    }
  }

  // ----- putting an allocation into gap j of block k -----

  ghost function PlacedBlk(b: Blk, j: nat, c: Cell): Blk
    requires j <= |b.live|
  {
    b.(live := Insert(b.live, j, c))
  }

  ghost function PlacedMinors(minors: map<nat, Minor>, b: Blk, j: nat, c: Cell): map<nat, Minor>
    requires j <= |b.live|
    requires MinorsStand(minors, b)
  {
    var p, n := CellAddr(b.live, j - 1), CellAddr(b.live, j);
    var m1 := if j > 0 then minors[p := minors[p].(next := c.addr)] else minors;
    var m2 := if j < |b.live| then m1[n := m1[n].(prev := c.addr)] else m1;
    m2[c.addr := Minor(p, n, b.addr, MAGIC, c.size, c.req)]
  }

  /** Where a placement can be: the new header starts the gap and fits. */
  ghost predicate Placeable(b: Blk, j: nat, c: Cell) {
    && j <= |b.live| && c.addr == GapStart(b, j) && Fits(b, j, c.size)
    && c.req + ALIGNMENT + ALIGN_INFO <= c.size
  }

  lemma PlacedMinorsStand(minors: map<nat, Minor>, b: Blk, j: nat, c: Cell)
    requires MinorsStand(minors, b) && Sorted(b) && Placeable(b, j, c)
    ensures MinorsStand(PlacedMinors(minors, b, j, c), PlacedBlk(b, j, c))
  {
    var b', m' := PlacedBlk(b, j, c), PlacedMinors(minors, b, j, c);
    InsertSorted(b, j, c);
    AddrsIncrease(b');
    forall i: nat | i < |b'.live|
      ensures b'.live[i].addr in m' && m'[b'.live[i].addr] == MinorOf(b', i)
    {
      PlacedMinorAt(minors, b, j, c, i);
    }
  }

  lemma AddrsIncrease(b: Blk)
    requires Sorted(b)
    ensures forall i, l :: 0 <= i < l < |b.live| ==> b.live[i].addr < b.live[l].addr
  {
    forall i, l | 0 <= i < l < |b.live|
      ensures b.live[i].addr < b.live[l].addr
    {
      Apart(b, i, l);
    }
  }

  lemma PlacedMinorAt(minors: map<nat, Minor>, b: Blk, j: nat, c: Cell, i: nat)
    requires MinorsStand(minors, b) && j <= |b.live|
    requires var b' := PlacedBlk(b, j, c);
             i < |b'.live| && forall i, l :: 0 <= i < l < |b'.live| ==> b'.live[i].addr < b'.live[l].addr
    ensures var b', m' := PlacedBlk(b, j, c), PlacedMinors(minors, b, j, c);
            b'.live[i].addr in m' && m'[b'.live[i].addr] == MinorOf(b', i)
  {
    if i == j {
      NewMinorAt(minors, b, j, c);
    } else if i < j {
      EarlierMinorAt(minors, b, j, c, i);
    } else {
      LaterMinorAt(minors, b, j, c, i);
    }
  }

  lemma NewMinorAt(minors: map<nat, Minor>, b: Blk, j: nat, c: Cell)
    requires MinorsStand(minors, b) && j <= |b.live|
    ensures var b', m' := PlacedBlk(b, j, c), PlacedMinors(minors, b, j, c);
            b'.live[j].addr in m' && m'[b'.live[j].addr] == MinorOf(b', j)
  {
    var b' := PlacedBlk(b, j, c);
    assert CellAddr(b'.live, j - 1) == CellAddr(b.live, j - 1) && CellAddr(b'.live, j + 1) == CellAddr(b.live, j);
  }

  /** p, n and c are different addresses: the three updates do not meet. */
  lemma PlacedMinorsPoint(minors: map<nat, Minor>, b: Blk, j: nat, c: Cell, a: nat)
    requires MinorsStand(minors, b) && j <= |b.live| && a in minors && a != c.addr
    ensures a in PlacedMinors(minors, b, j, c)
    ensures (j > 0 ==> a != b.live[j - 1].addr) && (j < |b.live| ==> a != b.live[j].addr) ==>
              PlacedMinors(minors, b, j, c)[a] == minors[a]
    ensures j > 0 && a == b.live[j - 1].addr && (j < |b.live| ==> a != b.live[j].addr) ==>
              PlacedMinors(minors, b, j, c)[a] == minors[a].(next := c.addr)
    ensures j < |b.live| && a == b.live[j].addr && (j > 0 ==> a != b.live[j - 1].addr) ==>
              PlacedMinors(minors, b, j, c)[a] == minors[a].(prev := c.addr)
  {
  }

  lemma EarlierMinorAt(minors: map<nat, Minor>, b: Blk, j: nat, c: Cell, i: nat)
    requires MinorsStand(minors, b) && i < j <= |b.live|
    requires var b' := PlacedBlk(b, j, c);
             forall i, l :: 0 <= i < l < |b'.live| ==> b'.live[i].addr < b'.live[l].addr
    ensures var b', m' := PlacedBlk(b, j, c), PlacedMinors(minors, b, j, c);
            b'.live[i].addr in m' && m'[b'.live[i].addr] == MinorOf(b', i)
  {
    hide PlacedMinors;
    var b' := PlacedBlk(b, j, c);
    assert b'.live[i] == b.live[i] && b'.live[j - 1] == b.live[j - 1] && b'.live[j] == c;
    assert j < |b.live| ==> b'.live[j + 1] == b.live[j];
    PlacedMinorsPoint(minors, b, j, c, b.live[i].addr);
    assert minors[b.live[i].addr] == MinorOf(b, i);
    assert CellAddr(b'.live, i - 1) == CellAddr(b.live, i - 1);
    if i < j - 1 {
      assert b'.live[i + 1] == b.live[i + 1];
    }
  }

  lemma LaterMinorAt(minors: map<nat, Minor>, b: Blk, j: nat, c: Cell, i: nat)
    requires MinorsStand(minors, b) && j < i <= |b.live|
    requires var b' := PlacedBlk(b, j, c);
             forall i, l :: 0 <= i < l < |b'.live| ==> b'.live[i].addr < b'.live[l].addr
    ensures var b', m' := PlacedBlk(b, j, c), PlacedMinors(minors, b, j, c);
            b'.live[i].addr in m' && m'[b'.live[i].addr] == MinorOf(b', i)
  {
    hide PlacedMinors;
    var b' := PlacedBlk(b, j, c);
    assert b'.live[i] == b.live[i - 1] && b'.live[j] == c && b'.live[j + 1] == b.live[j];
    assert j > 0 ==> b'.live[j - 1] == b.live[j - 1];
    PlacedMinorsPoint(minors, b, j, c, b.live[i - 1].addr);
    assert minors[b.live[i - 1].addr] == MinorOf(b, i - 1);
    assert CellAddr(b'.live, i + 1) == CellAddr(b.live, i);
    if i > j + 1 {
      assert b'.live[i - 1] == b.live[i - 2];
    }
  }

  /** Headers of other blocks are out of reach. */
  lemma OtherMinorsStand(minors: map<nat, Minor>, minors': map<nat, Minor>, L: Layout, k: nat, l: nat)
    requires GoodLayout(L) && k < |L| && l < |L| && k != l && MinorsStand(minors, L[l])
    requires forall a :: a in minors && !(L[k].addr <= a < L[k].addr + Size(L[k])) ==>
      a in minors' && minors'[a] == minors[a]
    ensures MinorsStand(minors', L[l])
  {
    forall j: nat | j < |L[l].live|
      ensures L[l].live[j].addr in minors' && minors'[L[l].live[j].addr] == MinorOf(L[l], j)
    {
      assert minors[L[l].live[j].addr] == MinorOf(L[l], j);
      InBlock(L[l], j);
      OneBlock(L, l, k, L[l].live[j].addr);
    }
  }

  // ----- alignment bytes -----

  /** The byte is in its own cell, so no other cell's byte. */
  lemma PadInCell(c: Cell)
    requires ALIGNMENT + ALIGN_INFO <= c.size
    ensures c.addr + MINOR_SIZE <= PadAddr(c) < CellEnd(c)
  {
  }

  lemma PlacedPadApart(b: Blk, j: nat, c: Cell, i: nat)
    requires GoodBlk(b) && Placeable(b, j, c) && i < |PlacedBlk(b, j, c).live| && i != j
    ensures PlacedBlk(b, j, c).live[i] == if i < j then b.live[i] else b.live[i - 1]
    ensures PadAddr(PlacedBlk(b, j, c).live[i]) != PadAddr(c)
  {
    hide PadAddr, Usage;
    var b' := PlacedBlk(b, j, c);
    InsertSorted(b, j, c);
    Apart(b', if i < j then i else j, if i < j then j else i);
    PadInCell(b'.live[i]);
    PadInCell(c);
  }

  lemma PlacedPadsStand(pads: map<nat, nat>, b: Blk, j: nat, c: Cell)
    requires PadsStand(pads, b) && GoodBlk(b) && Placeable(b, j, c)
    ensures PadsStand(pads[PadAddr(c) := AlignByte(c.addr + MINOR_SIZE)], PlacedBlk(b, j, c))
  {
    hide PadAddr, AlignByte, GoodBlk, Placeable;
    PlacedThere(b, j, c);
    var b' := PlacedBlk(b, j, c);
    forall i: nat | i < |b'.live| && i != j
      ensures b'.live[i] == (if i < j then b.live[i] else b.live[i - 1]) && PadAddr(b'.live[i]) != PadAddr(c)
    {
      PlacedPadApart(b, j, c, i);
    }
  }

  lemma PlacedThere(b: Blk, j: nat, c: Cell)
    requires Placeable(b, j, c)
    ensures j <= |b.live| && |PlacedBlk(b, j, c).live| == |b.live| + 1 && PlacedBlk(b, j, c).live[j] == c
  {
  }

  lemma OtherPadsStand(pads: map<nat, nat>, pads': map<nat, nat>, L: Layout, k: nat, l: nat)
    requires GoodLayout(L) && k < |L| && l < |L| && k != l && PadsStand(pads, L[l])
    requires forall a :: a in pads && !(L[k].addr <= a < L[k].addr + Size(L[k])) ==> a in pads' && pads'[a] == pads[a]
    ensures PadsStand(pads', L[l])
  {
    forall j | 0 <= j < |L[l].live|
      ensures PadAddr(L[l].live[j]) in pads'
      ensures pads'[PadAddr(L[l].live[j])] == AlignByte(L[l].live[j].addr + MINOR_SIZE)
    {
      InBlock(L[l], j);
      assert GoodBlk(L[l]);
      PadInCell(L[l].live[j]);
      OneBlock(L, l, k, PadAddr(L[l].live[j]));
    }
  }

  // ----- the whole heap after a placement -----

  ghost function PlacedLayout(L: Layout, k: nat, j: nat, c: Cell): Layout
    requires k < |L| && j <= |L[k].live|
  {
    L[k := PlacedBlk(L[k], j, c)]
  }

  ghost function PlacedMajors(majors: map<nat, Major>, b: Blk, j: nat, c: Cell): map<nat, Major>
    requires b.addr in majors
  {
    var g := majors[b.addr];
    majors[b.addr := g.(usage := g.usage + c.size + MINOR_SIZE, first := if j == 0 then c.addr else g.first)]
  }

  ghost function Placed(h: Headers, b: Blk, j: nat, c: Cell): Headers
    requires b.addr in h.majors && MinorsStand(h.minors, b) && j <= |b.live|
  {
    Headers(PlacedMajors(h.majors, b, j, c), PlacedMinors(h.minors, b, j, c),
        h.pads[PadAddr(c) := AlignByte(c.addr + MINOR_SIZE)])
  }

  lemma PlacedMajorsStand(majors: map<nat, Major>, L: Layout, k: nat, j: nat, c: Cell)
    requires MajorsStand(majors, L) && GoodLayout(L) && k < |L| && j <= |L[k].live|
    ensures MajorsStand(PlacedMajors(majors, L[k], j, c), PlacedLayout(L, k, j, c))
  {
    hide Usage, PlacedMajors;
    var L' := PlacedLayout(L, k, j, c);
    forall l: nat | l < |L'|
      ensures L'[l].addr in PlacedMajors(majors, L[k], j, c)
      ensures PlacedMajors(majors, L[k], j, c)[L'[l].addr] == MajorOf(L', l)
    {
      if l == k {
        PlacedMajorAt(majors, L, k, j, c);
      } else {
        OtherMajorAt(majors, L, k, j, c, l);
      }
    }
  }

  lemma PlacedMajorAt(majors: map<nat, Major>, L: Layout, k: nat, j: nat, c: Cell)
    requires MajorsStand(majors, L) && k < |L| && j <= |L[k].live|
    ensures L[k].addr in majors && L[k].addr in PlacedMajors(majors, L[k], j, c)
    ensures PlacedMajors(majors, L[k], j, c)[L[k].addr] == MajorOf(PlacedLayout(L, k, j, c), k)
  {
    hide Usage;
    SumsOfInsert(L[k].live, j, c);
    assert majors[L[k].addr] == MajorOf(L, k);
    assert CellAddr(Insert(L[k].live, j, c), 0) == if j == 0 then c.addr else CellAddr(L[k].live, 0);
  }

  lemma OtherMajorAt(majors: map<nat, Major>, L: Layout, k: nat, j: nat, c: Cell, l: nat)
    requires MajorsStand(majors, L) && GoodLayout(L) && k < |L| && j <= |L[k].live| && l < |L| && l != k
    ensures var m', L' := PlacedMajors(majors, L[k], j, c), PlacedLayout(L, k, j, c);
            L'[l].addr in m' && m'[L'[l].addr] == MajorOf(L', l)
  {
    hide Usage, Insert;
    assert majors[L[l].addr] == MajorOf(L, l);
    if L[l].addr == L[k].addr {
      BlksApart(L, k, l);
    }
  }

  lemma PlacedGoodLayout(L: Layout, k: nat, j: nat, c: Cell)
    requires GoodLayout(L) && k < |L| && Placeable(L[k], j, c)
    ensures GoodLayout(PlacedLayout(L, k, j, c))
  {
    var L' := PlacedLayout(L, k, j, c);
    InsertSorted(L[k], j, c);
    assert GoodBlk(L[k]);
    assert GoodBlk(L'[k]);
    forall a, b | 0 <= a < b < |L'|
      ensures DisjointBlks(L'[a], L'[b])
    {
      assert DisjointBlks(L[a], L[b]);
    }
  }

  /** The new header and the neighbours' links are the only minors that changed. */
  lemma PlacedOutside(h: Headers, b: Blk, j: nat, c: Cell)
    requires b.addr in h.majors && MinorsStand(h.minors, b) && GoodBlk(b) && Placeable(b, j, c)
    ensures var h' := Placed(h, b, j, c);
            && (forall a :: a in h.minors && !(b.addr <= a < b.addr + Size(b)) ==>
                a in h'.minors && h'.minors[a] == h.minors[a])
            && (forall a :: a in h.pads && !(b.addr <= a < b.addr + Size(b)) ==>
                a in h'.pads && h'.pads[a] == h.pads[a])
  {
    hide PlacedMajors, PadAddr, AlignByte, Usage, PlacedMinors;
    InOrder(b, 0, j);
    InOrder(b, j, |b.live|);
    PadInCell(c);
    forall a | a in h.minors && !(b.addr <= a < b.addr + Size(b))
      ensures a in PlacedMinors(h.minors, b, j, c) && PlacedMinors(h.minors, b, j, c)[a] == h.minors[a]
    {
      if j > 0 { InBlock(b, j - 1); }
      if j < |b.live| { InBlock(b, j); }
      PlacedMinorsPoint(h.minors, b, j, c, a);
    }
  }

  lemma PlacedStands(h: Headers, L: Layout, k: nat, j: nat, c: Cell)
    requires Stands(h, L) && GoodLayout(L) && k < |L| && Placeable(L[k], j, c)
    ensures Stands(Placed(h, L[k], j, c), PlacedLayout(L, k, j, c)) && GoodLayout(PlacedLayout(L, k, j, c))
  {
    hide PlacedMinors, PlacedMajors, MajorsStand, PadsStand, MinorsStand, PadAddr, AlignByte;
    assert GoodBlk(L[k]);
    BlkStands(h, L, k);
    PlacedGoodLayout(L, k, j, c);
    PlacedMajorsStand(h.majors, L, k, j, c);
    PlacedMinorsStand(h.minors, L[k], j, c);
    PlacedPadsStand(h.pads, L[k], j, c);
    PlacedOutside(h, L[k], j, c);
    forall l | 0 <= l < |L| && l != k
      ensures MinorsStand(Placed(h, L[k], j, c).minors, L[l]) && PadsStand(Placed(h, L[k], j, c).pads, L[l])
    {
      OtherMinorsStand(h.minors, Placed(h, L[k], j, c).minors, L, k, l);
      OtherPadsStand(h.pads, Placed(h, L[k], j, c).pads, L, k, l);
    }
  }

  lemma BlkStands(h: Headers, L: Layout, k: nat)
    requires Stands(h, L) && k < |L|
    ensures L[k].addr in h.majors && h.majors[L[k].addr] == MajorOf(L, k)
    ensures MinorsStand(h.minors, L[k]) && PadsStand(h.pads, L[k])
  {
    assert MajorOf(L, k) == MajorOf(L, k);
  }

  // ----- taking allocation j of block k out -----

  ghost function TakenBlk(b: Blk, j: nat): Blk
    requires j < |b.live|
  {
    b.(live := Remove(b.live, j))
  }

  ghost function TakenMinors(minors: map<nat, Minor>, b: Blk, j: nat): map<nat, Minor>
    requires MinorsStand(minors, b) && j < |b.live|
  {
    var a, p, n := b.live[j].addr, CellAddr(b.live, j - 1), CellAddr(b.live, j + 1);
    var m1 := minors[a := minors[a].(magic := DEAD)];
    var m2 := if j + 1 < |b.live| then m1[n := m1[n].(prev := p)] else m1;
    if j > 0 then m2[p := m2[p].(next := n)] else m2
  }

  lemma TakenMinorsPoint(minors: map<nat, Minor>, b: Blk, j: nat, a: nat)
    requires MinorsStand(minors, b) && j < |b.live| && a in minors && a != b.live[j].addr
    ensures a in TakenMinors(minors, b, j)
    ensures (j > 0 ==> a != b.live[j - 1].addr) && (j + 1 < |b.live| ==> a != b.live[j + 1].addr) ==>
              TakenMinors(minors, b, j)[a] == minors[a]
    ensures j > 0 && a == b.live[j - 1].addr && (j + 1 < |b.live| ==> a != b.live[j + 1].addr) ==>
              TakenMinors(minors, b, j)[a] == minors[a].(next := CellAddr(b.live, j + 1))
    ensures j + 1 < |b.live| && a == b.live[j + 1].addr && (j > 0 ==> a != b.live[j - 1].addr) ==>
              TakenMinors(minors, b, j)[a] == minors[a].(prev := CellAddr(b.live, j - 1))
  {
  }

  lemma TakenMinorsStand(minors: map<nat, Minor>, b: Blk, j: nat)
    requires MinorsStand(minors, b) && Sorted(b) && j < |b.live|
    ensures MinorsStand(TakenMinors(minors, b, j), TakenBlk(b, j))
  {
    hide TakenMinors;
    var b', m' := TakenBlk(b, j), TakenMinors(minors, b, j);
    AddrsIncrease(b);
    forall i: nat | i < |b'.live|
      ensures b'.live[i].addr in m' && m'[b'.live[i].addr] == MinorOf(b', i)
    {
      if i < j {
        BeforeTaken(minors, b, j, i);
      } else {
        AfterTaken(minors, b, j, i);
      }
    }
  }

  lemma BeforeTaken(minors: map<nat, Minor>, b: Blk, j: nat, i: nat)
    requires MinorsStand(minors, b) && i < j < |b.live|
    requires forall i, l :: 0 <= i < l < |b.live| ==> b.live[i].addr < b.live[l].addr
    ensures var b', m' := TakenBlk(b, j), TakenMinors(minors, b, j);
            b'.live[i].addr in m' && m'[b'.live[i].addr] == MinorOf(b', i)
  {
    hide TakenMinors;
    var b' := TakenBlk(b, j);
    assert b'.live[i] == b.live[i] && b.live[i].addr != b.live[j].addr;
    assert minors[b.live[i].addr] == MinorOf(b, i);
    TakenMinorsPoint(minors, b, j, b.live[i].addr);
    assert CellAddr(b'.live, i - 1) == CellAddr(b.live, i - 1);
    if i == j - 1 {
      assert CellAddr(b'.live, i + 1) == CellAddr(b.live, j + 1);
    } else {
      assert b'.live[i + 1] == b.live[i + 1] && b.live[i].addr != b.live[j - 1].addr;
    }
  }

  lemma AfterTaken(minors: map<nat, Minor>, b: Blk, j: nat, i: nat)
    requires MinorsStand(minors, b) && j <= i < |b.live| - 1
    requires forall i, l :: 0 <= i < l < |b.live| ==> b.live[i].addr < b.live[l].addr
    ensures var b', m' := TakenBlk(b, j), TakenMinors(minors, b, j);
            b'.live[i].addr in m' && m'[b'.live[i].addr] == MinorOf(b', i)
  {
    hide TakenMinors;
    var b' := TakenBlk(b, j);
    assert b'.live[i] == b.live[i + 1] && b.live[i + 1].addr != b.live[j].addr;
    assert minors[b.live[i + 1].addr] == MinorOf(b, i + 1);
    TakenMinorsPoint(minors, b, j, b.live[i + 1].addr);
    assert CellAddr(b'.live, i + 1) == CellAddr(b.live, i + 2);
    if i == j {
      assert CellAddr(b'.live, i - 1) == CellAddr(b.live, j - 1);
    } else {
      assert b'.live[i - 1] == b.live[i] && b.live[i + 1].addr != b.live[j + 1].addr;
    }
  }

  ghost function TakenMajors(majors: map<nat, Major>, b: Blk, j: nat): map<nat, Major>
    requires b.addr in majors && j < |b.live|
    requires majors[b.addr].usage >= b.live[j].size + MINOR_SIZE
  {
    var g := majors[b.addr];
    majors[b.addr := g.(usage := g.usage - (b.live[j].size + MINOR_SIZE),
                        first := if j == 0 then CellAddr(b.live, 1) else g.first)]
  }

  ghost function TakenLayout(L: Layout, k: nat, j: nat): Layout
    requires k < |L| && j < |L[k].live|
  {
    L[k := TakenBlk(L[k], j)]
  }

  lemma TakenMajorsStand(majors: map<nat, Major>, L: Layout, k: nat, j: nat)
    requires MajorsStand(majors, L) && GoodLayout(L) && k < |L| && j < |L[k].live|
    ensures majors[L[k].addr].usage >= L[k].live[j].size + MINOR_SIZE
    ensures MajorsStand(TakenMajors(majors, L[k], j), TakenLayout(L, k, j))
  {
    hide Usage, GoodBlk;
    var L' := TakenLayout(L, k, j);
    SumsOfRemove(L[k].live, j);
    assert majors[L[k].addr] == MajorOf(L, k);
    forall l: nat | l < |L'|
      ensures L'[l].addr in TakenMajors(majors, L[k], j)
      ensures TakenMajors(majors, L[k], j)[L'[l].addr] == MajorOf(L', l)
    {
      assert majors[L[l].addr] == MajorOf(L, l);
      if l != k && L[l].addr == L[k].addr {
        BlksApart(L, k, l);
      }
      if l == k {
        assert CellAddr(L'[k].live, 0) == if j == 0 then CellAddr(L[k].live, 1) else CellAddr(L[k].live, 0);
      }
    }
  }

  ghost function Taken(h: Headers, b: Blk, j: nat): Headers
    requires b.addr in h.majors && MinorsStand(h.minors, b) && j < |b.live|
    requires h.majors[b.addr].usage >= b.live[j].size + MINOR_SIZE
  {
    h.(majors := TakenMajors(h.majors, b, j), minors := TakenMinors(h.minors, b, j))
  }

  lemma TakenGoodLayout(L: Layout, k: nat, j: nat)
    requires GoodLayout(L) && k < |L| && j < |L[k].live|
    ensures GoodLayout(TakenLayout(L, k, j))
  {
    var L' := TakenLayout(L, k, j);
    assert GoodBlk(L[k]);
    RemoveSorted(L[k], j);
    assert GoodBlk(L'[k]);
    forall a, b | 0 <= a < b < |L'|
      ensures DisjointBlks(L'[a], L'[b])
    {
      assert DisjointBlks(L[a], L[b]);
    }
  }

  lemma TakenOutside(minors: map<nat, Minor>, b: Blk, j: nat)
    requires MinorsStand(minors, b) && Sorted(b) && j < |b.live|
    ensures forall a :: a in minors && !(b.addr <= a < b.addr + Size(b)) ==>
              a in TakenMinors(minors, b, j) && TakenMinors(minors, b, j)[a] == minors[a]
  {
    hide TakenMinors;
    InBlock(b, j);
    if j > 0 { InBlock(b, j - 1); }
    if j + 1 < |b.live| { InBlock(b, j + 1); }
    forall a | a in minors && !(b.addr <= a < b.addr + Size(b))
      ensures a in TakenMinors(minors, b, j) && TakenMinors(minors, b, j)[a] == minors[a]
    {
      TakenMinorsPoint(minors, b, j, a);
    }
  }

  lemma TakenStands(h: Headers, L: Layout, k: nat, j: nat)
    requires Stands(h, L) && GoodLayout(L) && k < |L| && j < |L[k].live|
    ensures h.majors[L[k].addr].usage >= L[k].live[j].size + MINOR_SIZE
    ensures Stands(Taken(h, L[k], j), TakenLayout(L, k, j)) && GoodLayout(TakenLayout(L, k, j))
  {
    hide TakenMinors, TakenMajors, MajorsStand, MinorsStand, PadAddr, AlignByte;
    assert GoodBlk(L[k]);
    BlkStands(h, L, k);
    TakenGoodLayout(L, k, j);
    TakenMajorsStand(h.majors, L, k, j);
    TakenMinorsStand(h.minors, L[k], j);
    TakenOutside(h.minors, L[k], j);
    forall l | 0 <= l < |L| && l != k
      ensures MinorsStand(Taken(h, L[k], j).minors, L[l])
    {
      OtherMinorsStand(h.minors, Taken(h, L[k], j).minors, L, k, l);
    }
  }

  // ----- adding and dropping a block -----

  ghost function AppendedMajors(majors: map<nat, Major>, L: Layout, b: Blk): map<nat, Major>
    requires MajorsStand(majors, L)
  {
    var m1 := if |L| > 0 then majors[L[|L| - 1].addr := majors[L[|L| - 1].addr].(next := b.addr)] else majors;
    m1[b.addr := Major(BlkAddr(L, |L| - 1), 0, b.pages, Size(b), MAJOR_SIZE, 0)]
  }

  lemma AppendedStands(h: Headers, L: Layout, b: Blk)
    requires Stands(h, L) && GoodLayout(L + [b]) && b.live == []
    ensures Stands(h.(majors := AppendedMajors(h.majors, L, b)), L + [b])
  {
    hide MajorOf, MajorsStand, MinorsStand, PadsStand, GoodLayout, AppendedMajors;
    AppendedMajorsStand(h, L, b);
    forall k | 0 <= k < |L| + 1 ensures MinorsStand(h.minors, (L + [b])[k]) && PadsStand(h.pads, (L + [b])[k]) {
      if k < |L| {
        assert (L + [b])[k] == L[k];
      } else {
        NothingStands(h, b);
      }
    }
  }

  lemma NothingStands(h: Headers, b: Blk)
    requires b.live == []
    ensures MinorsStand(h.minors, b) && PadsStand(h.pads, b)
  {
  }

  lemma AppendedMajorsStand(h: Headers, L: Layout, b: Blk)
    requires MajorsStand(h.majors, L) && GoodLayout(L + [b]) && b.live == []
    ensures MajorsStand(AppendedMajors(h.majors, L, b), L + [b])
  {
    hide MajorOf, MajorsStand, GoodLayout, AppendedMajors;
    var L' := L + [b];
    forall l: nat | l < |L'|
      ensures L'[l].addr in AppendedMajors(h.majors, L, b)
      ensures AppendedMajors(h.majors, L, b)[L'[l].addr] == MajorOf(L', l)
    {
      if l < |L| {
        AppendedOld(h.majors, L, b, l);
      } else {
        AppendedNew(h.majors, L, b);
      }
    }
    MajorsFrom(AppendedMajors(h.majors, L, b), L');
  }

  lemma MajorsFrom(majors: map<nat, Major>, L: Layout)
    requires forall l: nat :: l < |L| ==> L[l].addr in majors && majors[L[l].addr] == MajorOf(L, l)
    ensures MajorsStand(majors, L)
  {
    hide MajorOf;
  }

  lemma AppendedNew(majors: map<nat, Major>, L: Layout, b: Blk)
    requires MajorsStand(majors, L) && b.live == []
    ensures b.addr in AppendedMajors(majors, L, b) && AppendedMajors(majors, L, b)[b.addr] == MajorOf(L + [b], |L|)
  {
    hide Size;
  }

  /** A block that was there: its header changes only if it was the last one. */
  lemma AppendedOld(majors: map<nat, Major>, L: Layout, b: Blk, l: nat)
    requires MajorsStand(majors, L) && GoodLayout(L + [b]) && l < |L|
    ensures L[l].addr in AppendedMajors(majors, L, b)
    ensures AppendedMajors(majors, L, b)[L[l].addr] == MajorOf(L + [b], l)
  {
    hide Size, GoodLayout;
    var L' := L + [b];
    assert L'[l] == L[l] && L'[|L|] == b && L'[|L| - 1] == L[|L| - 1];
    assert majors[L[l].addr] == MajorOf(L, l);
    if L[l].addr == b.addr {
      BlksApart(L', l, |L|);
    }
    if L[l].addr == L[|L| - 1].addr {
      BlksApart(L', l, |L| - 1);
    }
  }

  ghost function Dropped(L: Layout, k: nat): Layout
    requires k < |L|
  {
    L[..k] + L[k + 1..]
  }

  ghost function DroppedMajors(majors: map<nat, Major>, L: Layout, k: nat): map<nat, Major>
    requires MajorsStand(majors, L) && k < |L|
  {
    var m1 := if k > 0 then majors[L[k - 1].addr := majors[L[k - 1].addr].(next := BlkAddr(L, k + 1))] else majors;
    if k + 1 < |L| then m1[L[k + 1].addr := m1[L[k + 1].addr].(prev := BlkAddr(L, k - 1))] else m1
  }

  lemma DroppedStands(h: Headers, L: Layout, k: nat)
    requires Stands(h, L) && GoodLayout(L) && k < |L|
    ensures Stands(h.(majors := DroppedMajors(h.majors, L, k)), Dropped(L, k)) && GoodLayout(Dropped(L, k))
  {
    hide Size, GoodBlk, DisjointBlks, DroppedMajors, MinorsStand, PadsStand, MajorOf, GoodLayout;
    var L', m' := Dropped(L, k), DroppedMajors(h.majors, L, k);
    DroppedGoodLayout(L, k);
    forall l: nat | l < |L'|
      ensures L'[l].addr in m' && m'[L'[l].addr] == MajorOf(L', l)
    {
      DroppedMajorAt(h.majors, L, k, l);
    }
  }

  lemma DroppedGoodLayout(L: Layout, k: nat)
    requires GoodLayout(L) && k < |L|
    ensures GoodLayout(Dropped(L, k))
    ensures forall l :: 0 <= l < |L| - 1 ==> Dropped(L, k)[l] == L[if l < k then l else l + 1]
  {
    hide GoodBlk, DisjointBlks;
    var L' := Dropped(L, k);
    forall a, b | 0 <= a < b < |L'|
      ensures DisjointBlks(L'[a], L'[b])
    {
      assert DisjointBlks(L[if a < k then a else a + 1], L[if b < k then b else b + 1]);
    }
  }

  lemma DroppedMajorAt(majors: map<nat, Major>, L: Layout, k: nat, l: nat)
    requires MajorsStand(majors, L) && GoodLayout(L) && k < |L| && l < |L| - 1
    ensures var L', m' := Dropped(L, k), DroppedMajors(majors, L, k);
            L'[l].addr in m' && m'[L'[l].addr] == MajorOf(L', l)
  {
    hide Size, GoodBlk, DisjointBlks, GoodLayout;
    var L' := Dropped(L, k);
    var l0 := if l < k then l else l + 1;
    assert L'[l] == L[l0];
    assert majors[L[l0].addr] == MajorOf(L, l0);
    if k > 0 && L[l0].addr == L[k - 1].addr { BlksApart(L, l0, k - 1); }
    if k + 1 < |L| && L[l0].addr == L[k + 1].addr { BlksApart(L, l0, k + 1); }
    if k > 0 && k + 1 < |L| && L[k - 1].addr == L[k + 1].addr { BlksApart(L, k - 1, k + 1); }
    assert BlkAddr(L', l - 1) == if l == k then BlkAddr(L, k - 1) else BlkAddr(L, l0 - 1);
    assert BlkAddr(L', l + 1) == if l + 1 == k then BlkAddr(L, k + 1) else BlkAddr(L, l0 + 1);
  }

  // ----- totals -----

  function TotalInUse(L: Layout): nat {
    if L == [] then 0 else TotalInUse(L[..|L| - 1]) + InUse(L[|L| - 1].live)
  }

  function TotalSize(L: Layout): nat {
    if L == [] then 0 else TotalSize(L[..|L| - 1]) + Size(L[|L| - 1])
  }

  lemma {:induction false} TotalsOfUpdate(L: Layout, k: nat, b: Blk)
    requires k < |L|
    ensures TotalInUse(L[k := b]) + InUse(L[k].live) == TotalInUse(L) + InUse(b.live)
    ensures TotalSize(L[k := b]) + Size(L[k]) == TotalSize(L) + Size(b)
  {
    var r := L[k := b];
    if k == |L| - 1 {
      assert r[..|r| - 1] == L[..|L| - 1];
    } else {
      TotalsOfUpdate(L[..|L| - 1], k, b);
      assert r[..|r| - 1] == L[..|L| - 1][k := b];
    }
  }

  lemma {:induction false} TotalsOfDrop(L: Layout, k: nat)
    requires k < |L|
    ensures TotalInUse(L) == TotalInUse(Dropped(L, k)) + InUse(L[k].live)
    ensures TotalSize(L) == TotalSize(Dropped(L, k)) + Size(L[k])
  {
    var r := Dropped(L, k);
    if k == |L| - 1 {
      assert r == L[..|L| - 1];
    } else {
      TotalsOfDrop(L[..|L| - 1], k);
      assert r[..|r| - 1] == Dropped(L[..|L| - 1], k);
    }
  }

  lemma TotalsOfAppend(L: Layout, b: Blk)
    ensures TotalInUse(L + [b]) == TotalInUse(L) + InUse(b.live)
    ensures b.live == [] ==> InUse(b.live) == 0
    ensures TotalSize(L + [b]) == TotalSize(L) + Size(b)
  {
    assert (L + [b])[..|L|] == L;
  }

  // ----- the magic number marks live headers -----

  ghost predicate LiveAt(L: Layout, k: int, j: int, a: nat) {
    0 <= k < |L| && 0 <= j < |L[k].live| && L[k].live[j].addr == a
  }

  /** A header with the magic number is that of a live allocation. */
  ghost predicate MagicLive(minors: map<nat, Minor>, L: Layout) {
    forall a :: a in minors && minors[a].magic == MAGIC ==> exists k, j :: LiveAt(L, k, j, a)
  }

  lemma AppendedMagic(minors: map<nat, Minor>, L: Layout, b: Blk)
    requires MagicLive(minors, L)
    ensures MagicLive(minors, L + [b])
  {
    forall a | a in minors && minors[a].magic == MAGIC
      ensures exists k, j :: LiveAt(L + [b], k, j, a)
    {
      var k, j :| LiveAt(L, k, j, a);
      assert LiveAt(L + [b], k, j, a);
    }
  }

  lemma DroppedMagic(minors: map<nat, Minor>, L: Layout, k0: nat)
    requires MagicLive(minors, L) && k0 < |L| && L[k0].live == []
    ensures MagicLive(minors, Dropped(L, k0))
  {
    forall a | a in minors && minors[a].magic == MAGIC
      ensures exists k, j :: LiveAt(Dropped(L, k0), k, j, a)
    {
      var k, j :| LiveAt(L, k, j, a);
      assert LiveAt(Dropped(L, k0), if k < k0 then k else k - 1, j, a);
    }
  }

  lemma PlacedMagic(minors: map<nat, Minor>, L: Layout, k0: nat, j0: nat, c: Cell)
    requires MagicLive(minors, L) && k0 < |L| && MinorsStand(minors, L[k0]) && j0 <= |L[k0].live|
    ensures MagicLive(PlacedMinors(minors, L[k0], j0, c), PlacedLayout(L, k0, j0, c))
  {
    var m', L' := PlacedMinors(minors, L[k0], j0, c), PlacedLayout(L, k0, j0, c);
    forall a | a in m' && m'[a].magic == MAGIC
      ensures exists k, j :: LiveAt(L', k, j, a)
    {
      if a == c.addr {
        assert LiveAt(L', k0, j0, a);
      } else {
        assert a in minors && minors[a].magic == MAGIC;
        var k, j :| LiveAt(L, k, j, a);
        assert LiveAt(L', k, if k == k0 && j >= j0 then j + 1 else j, a);
      }
    }
  }

  lemma TakenMagic(minors: map<nat, Minor>, L: Layout, k0: nat, j0: nat)
    requires MagicLive(minors, L) && k0 < |L| && MinorsStand(minors, L[k0]) && j0 < |L[k0].live| && Sorted(L[k0])
    ensures MagicLive(TakenMinors(minors, L[k0], j0), TakenLayout(L, k0, j0))
  {
    var m', L' := TakenMinors(minors, L[k0], j0), TakenLayout(L, k0, j0);
    AddrsIncrease(L[k0]);
    forall a | a in m' && m'[a].magic == MAGIC
      ensures exists k, j :: LiveAt(L', k, j, a)
    {
      assert a != L[k0].live[j0].addr && a in minors && minors[a].magic == MAGIC;
      var k, j :| LiveAt(L, k, j, a);
      assert LiveAt(L', k, if k == k0 && j > j0 then j - 1 else j, a);
    }
  }

  // ----- pointers -----

  /** UNALIGN: the address after the header, from an aligned pointer. */
  function Unaligned(pads: map<nat, nat>, p: nat): nat {
    if p >= ALIGN_INFO && p - ALIGN_INFO in pads && pads[p - ALIGN_INFO] < ALIGNMENT + ALIGN_INFO
        && pads[p - ALIGN_INFO] <= p
    then p - pads[p - ALIGN_INFO] else p
  }

  /** UNALIGN undoes ALIGN on every live allocation. */
  lemma UnalignAligned(h: Headers, L: Layout, k: nat, j: nat)
    requires Stands(h, L) && k < |L| && j < |L[k].live|
    ensures Unaligned(h.pads, Aligned(L[k].live[j].addr + MINOR_SIZE)) == L[k].live[j].addr + MINOR_SIZE
    ensures L[k].live[j].addr in h.minors && h.minors[L[k].live[j].addr].magic == MAGIC
  {
    hide MajorsStand;
    assert PadAddr(L[k].live[j]) in h.pads;
    assert MinorsStand(h.minors, L[k]) && h.minors[L[k].live[j].addr] == MinorOf(L[k], j);
  }

  /** The bytes asked for are 16-aligned, inside the allocation, and overlap no header
      and no other live allocation. */
  lemma PointerSafe(L: Layout, k: nat, j: nat, k2: nat, j2: nat)
    requires GoodLayout(L) && k < |L| && j < |L[k].live| && k2 < |L| && j2 < |L[k2].live| && (k != k2 || j != j2)
    ensures var c, d, p := L[k].live[j], L[k2].live[j2], Aligned(L[k].live[j].addr + MINOR_SIZE);
            && p % 16 == 0 && c.addr + MINOR_SIZE <= p && p + c.req <= CellEnd(c)
            && L[k].addr + MAJOR_SIZE <= c.addr && CellEnd(c) <= L[k].addr + Size(L[k])
            && (CellEnd(c) <= d.addr || CellEnd(d) <= c.addr)
            && (CellEnd(c) <= L[k2].addr || L[k2].addr + MAJOR_SIZE <= c.addr)
  {
    assert GoodBlk(L[k]) && GoodBlk(L[k2]);
    InBlock(L[k], j);
    InBlock(L[k2], j2);
    AlignedFits(L[k].live[j].addr + MINOR_SIZE, L[k].live[j].req);
    if k == k2 {
      Apart(L[k], if j < j2 then j else j2, if j < j2 then j2 else j);
    } else {
      assert DisjointBlks(L[if k < k2 then k else k2], L[if k < k2 then k2 else k]);
    }
  }

  // ----- a smaller request for the same allocation -----

  ghost function ResizedBlk(b: Blk, j: nat, req: nat): Blk
    requires j < |b.live|
  {
    b.(live := b.live[j := b.live[j].(req := req)])
  }

  lemma {:induction false} SumsOfResize(live: seq<Cell>, j: nat, req: nat)
    requires j < |live|
    ensures Usage(live[j := live[j].(req := req)]) == Usage(live)
    ensures InUse(live[j := live[j].(req := req)]) == InUse(live)
  {
    var r := live[j := live[j].(req := req)];
    if j == |live| - 1 {
      assert r[..|r| - 1] == live[..|live| - 1];
    } else {
      SumsOfResize(live[..|live| - 1], j, req);
      assert r[..|r| - 1] == live[..|live| - 1][j := live[j].(req := req)];
    }
  }

  lemma ResizedGood(L: Layout, k: nat, j: nat, req: nat)
    requires GoodLayout(L) && k < |L| && j < |L[k].live| && req <= L[k].live[j].req
    ensures GoodLayout(L[k := ResizedBlk(L[k], j, req)])
  {
    var b, b' := L[k], ResizedBlk(L[k], j, req);
    assert GoodBlk(b);
    forall i | 0 <= i <= |b'.live|
      ensures GapStart(b', i) <= GapEnd(b', i)
    {
      assert GapStart(b, i) <= GapEnd(b, i);
    }
    assert GoodBlk(b');
    var L' := L[k := b'];
    forall x, y | 0 <= x < y < |L'|
      ensures DisjointBlks(L'[x], L'[y])
    {
      assert DisjointBlks(L[x], L[y]);
    }
  }

  lemma ResizedMinors(minors: map<nat, Minor>, b: Blk, j: nat, req: nat)
    requires MinorsStand(minors, b) && Sorted(b) && j < |b.live|
    ensures MinorsStand(minors[b.live[j].addr := minors[b.live[j].addr].(reqSize := req)], ResizedBlk(b, j, req))
  {
    var b' := ResizedBlk(b, j, req);
    var m' := minors[b.live[j].addr := minors[b.live[j].addr].(reqSize := req)];
    AddrsIncrease(b);
    forall i: nat | i < |b'.live|
      ensures b'.live[i].addr in m' && m'[b'.live[i].addr] == MinorOf(b', i)
    {
      assert minors[b.live[i].addr] == MinorOf(b, i);
      assert CellAddr(b'.live, i - 1) == CellAddr(b.live, i - 1) && CellAddr(b'.live, i + 1) == CellAddr(b.live, i + 1);
    }
  }

  lemma ResizedStands(h: Headers, L: Layout, k: nat, j: nat, req: nat)
    requires Stands(h, L) && GoodLayout(L) && k < |L| && j < |L[k].live| && req <= L[k].live[j].req
    ensures L[k].live[j].addr in h.minors
    ensures var a, b' := L[k].live[j].addr, ResizedBlk(L[k], j, req);
            Stands(h.(minors := h.minors[a := h.minors[a].(reqSize := req)]), L[k := b'])
  {
    hide MinorsStand, Usage, GoodBlk, AlignByte, Aligned;
    var a, b' := L[k].live[j].addr, ResizedBlk(L[k], j, req);
    BlkStands(h, L, k);
    CellHeader(h.minors, L, k, j);
    var h' := h.(minors := h.minors[a := h.minors[a].(reqSize := req)]);
    ResizedMinors(h.minors, L[k], j, req);
    forall l | 0 <= l < |L| && l != k
      ensures MinorsStand(h'.minors, L[l])
    {
      OtherMinorsStand(h.minors, h'.minors, L, k, l);
    }
    ResizedMajors(h.majors, L, k, j, req);
  }

  lemma CellHeader(minors: map<nat, Minor>, L: Layout, k: nat, j: nat)
    requires GoodLayout(L) && k < |L| && j < |L[k].live| && MinorsStand(minors, L[k])
    ensures L[k].live[j].addr in minors && Sorted(L[k])
    ensures L[k].addr <= L[k].live[j].addr < L[k].addr + Size(L[k])
  {
    assert GoodBlk(L[k]);
    InBlock(L[k], j);
  }

  lemma ResizedMajors(majors: map<nat, Major>, L: Layout, k: nat, j: nat, req: nat)
    requires MajorsStand(majors, L) && k < |L| && j < |L[k].live|
    ensures MajorsStand(majors, L[k := ResizedBlk(L[k], j, req)])
  {
    hide Usage;
    var L' := L[k := ResizedBlk(L[k], j, req)];
    SumsOfResize(L[k].live, j, req);
    forall l: nat | l < |L'|
      ensures majors[L'[l].addr] == MajorOf(L', l)
    {
      assert majors[L[l].addr] == MajorOf(L, l);
    }
  }

  lemma ResizedMagic(minors: map<nat, Minor>, L: Layout, k0: nat, j0: nat, req: nat)
    requires MagicLive(minors, L) && k0 < |L| && j0 < |L[k0].live| && L[k0].live[j0].addr in minors
    ensures var a := L[k0].live[j0].addr;
            MagicLive(minors[a := minors[a].(reqSize := req)], L[k0 := ResizedBlk(L[k0], j0, req)])
  {
    var a0 := L[k0].live[j0].addr;
    var m', L' := minors[a0 := minors[a0].(reqSize := req)], L[k0 := ResizedBlk(L[k0], j0, req)];
    forall a | a in m' && m'[a].magic == MAGIC
      ensures exists k, j :: LiveAt(L', k, j, a)
    {
      var k, j :| LiveAt(L, k, j, a);
      assert LiveAt(L', k, j, a);
    }
  }

  // ----- headers that nothing was written over -----

  /** Of a header whose bytes an allocation or a freed block took, nothing is known any more. */
  function ForgetMinors(minors: map<nat, Minor>, lo: nat, hi: nat): map<nat, Minor> {
    map a | a in minors && !(a < hi && lo < a + MINOR_SIZE) :: minors[a]
  }

  function ForgetPads(pads: map<nat, nat>, lo: nat, hi: nat): map<nat, nat> {
    map q | q in pads && !(lo <= q < hi) :: pads[q]
  }

  function Forgotten(h: Headers, lo: nat, hi: nat): Headers {
    h.(minors := ForgetMinors(h.minors, lo, hi), pads := ForgetPads(h.pads, lo, hi))
  }

  /** No live cell has a byte from lo to hi. */
  ghost predicate NoCellIn(L: Layout, lo: nat, hi: nat) {
    forall k: nat, j: nat :: k < |L| && j < |L[k].live| ==> CellApart(L[k].live[j], lo, hi)
  }

  predicate CellApart(c: Cell, lo: nat, hi: nat) {
    hi <= c.addr || CellEnd(c) <= lo
  }

  /** No known header has a byte from lo to hi. */
  ghost predicate Vacant(h: Headers, lo: nat, hi: nat) {
    && (forall a :: a in h.minors ==> a + MINOR_SIZE <= lo || hi <= a)
    && (forall q :: q in h.pads ==> q < lo || hi <= q)
  }

  ghost predicate HeaderApart(L: Layout, a: nat) {
    forall k: nat, j: nat :: k < |L| && j < |L[k].live| ==>
      L[k].live[j].addr == a || CellApart(L[k].live[j], a, a + MINOR_SIZE)
  }

  ghost predicate PadApart(L: Layout, q: nat) {
    forall k: nat, j: nat :: k < |L| && j < |L[k].live| ==>
      PadAddr(L[k].live[j]) == q || CellApart(L[k].live[j], q, q + 1)
  }

  ghost predicate Housed(L: Layout, lo: nat, hi: nat) {
    exists k: nat :: k < |L| && L[k].addr <= lo && hi <= L[k].addr + Size(L[k])
  }

  /** The known headers, dead ones too, are in listed blocks, and in no live cell but their own. */
  ghost predicate Intact(h: Headers, L: Layout) {
    && (forall a :: a in h.minors ==> HeaderApart(L, a) && Housed(L, a, a + MINOR_SIZE))
    && (forall q :: q in h.pads ==> PadApart(L, q) && Housed(L, q, q + 1))
  }

  /** A byte that a caller asked for is no byte of a known header, dead or alive, and no alignment
      byte: what the caller stores there changes none of them. */
  lemma PayloadSafe(h: Headers, L: Layout, k: nat, j: nat, x: nat)
    requires Intact(h, L) && GoodLayout(L) && k < |L| && j < |L[k].live|
    requires var p := Aligned(L[k].live[j].addr + MINOR_SIZE); p <= x < p + L[k].live[j].req
    ensures forall a :: a in h.minors ==> !(a <= x < a + MINOR_SIZE)
    ensures x !in h.pads
  {
    var c := L[k].live[j];
    assert GoodBlk(L[k]);
    AlignedFits(c.addr + MINOR_SIZE, c.req);
    hide Aligned;
    forall a | a in h.minors ensures !(a <= x < a + MINOR_SIZE) {
      assert HeaderApart(L, a);
      assert c.addr == a || CellApart(c, a, a + MINOR_SIZE);
    }
    forall q | q in h.pads ensures q != x {
      assert PadApart(L, q);
      assert PadAddr(c) == q || CellApart(c, q, q + 1);
    }
  }

  lemma ForgottenIs(h: Headers, L: Layout, lo: nat, hi: nat)
    requires Stands(h, L) && MagicLive(h.minors, L) && Intact(h, L) && GoodLayout(L) && NoCellIn(L, lo, hi)
    ensures Stands(Forgotten(h, lo, hi), L) && MagicLive(Forgotten(h, lo, hi).minors, L)
    ensures Intact(Forgotten(h, lo, hi), L)
    ensures Vacant(Forgotten(h, lo, hi), lo, hi)
  {
    hide HeaderApart, PadApart, Housed, MajorsStand, PadAddr, AlignByte;
    var h' := Forgotten(h, lo, hi);
    forall k | 0 <= k < |L| ensures MinorsStand(h'.minors, L[k]) && PadsStand(h'.pads, L[k]) {
      ForgottenBlk(h, L, k, lo, hi);
    }
  }

  lemma ForgottenBlk(h: Headers, L: Layout, k: nat, lo: nat, hi: nat)
    requires Stands(h, L) && GoodLayout(L) && NoCellIn(L, lo, hi) && k < |L|
    ensures MinorsStand(Forgotten(h, lo, hi).minors, L[k]) && PadsStand(Forgotten(h, lo, hi).pads, L[k])
  {
    hide MajorsStand, PadAddr, AlignByte;
    var h', b := Forgotten(h, lo, hi), L[k];
    assert MinorsStand(h.minors, b) && PadsStand(h.pads, b) && GoodBlk(b);
    forall j: nat | j < |b.live|
      ensures b.live[j].addr in h'.minors && h'.minors[b.live[j].addr] == MinorOf(b, j)
      ensures PadAddr(b.live[j]) in h'.pads && h'.pads[PadAddr(b.live[j])] == AlignByte(b.live[j].addr + MINOR_SIZE)
    {
      assert CellApart(b.live[j], lo, hi);
      PadInCell(b.live[j]);
      assert h.minors[b.live[j].addr] == MinorOf(b, j);
    }
  }

  lemma PlacedIntact(h: Headers, L: Layout, k: nat, j: nat, c: Cell)
    requires Stands(h, L) && GoodLayout(L) && k < |L| && Placeable(L[k], j, c) && Intact(h, L)
    requires Vacant(h, c.addr, CellEnd(c)) && GoodLayout(PlacedLayout(L, k, j, c))
    ensures L[k].addr in h.majors && MinorsStand(h.minors, L[k])
    ensures Intact(Placed(h, L[k], j, c), PlacedLayout(L, k, j, c))
  {
    hide PlacedMajors, AlignByte, PadAddr, MajorsStand, GoodLayout, GoodBlk, Size;
    BlkStands(h, L, k);
    var h', L' := Placed(h, L[k], j, c), PlacedLayout(L, k, j, c);
    PlacedKeys(h.minors, L[k], j, c);
    NewCellPlace(L, k, j, c);
    forall a | a in h'.minors ensures HeaderApart(L', a) && Housed(L', a, a + MINOR_SIZE) {
      if a == c.addr {
        NewHeaderApart(L, k, j, c);
      } else {
        OldHeaderApart(L, k, j, c, a);
      }
    }
    forall q | q in h'.pads ensures PadApart(L', q) && Housed(L', q, q + 1) {
      if q == PadAddr(c) {
        NewHeaderApart(L, k, j, c);
      } else {
        OldPadApart(L, k, j, c, q);
      }
    }
  }

  lemma PlacedKeys(minors: map<nat, Minor>, b: Blk, j: nat, c: Cell)
    requires MinorsStand(minors, b) && j <= |b.live|
    ensures forall a :: a in PlacedMinors(minors, b, j, c) ==> a in minors || a == c.addr
  {
  }

  lemma NewCellPlace(L: Layout, k: nat, j: nat, c: Cell)
    requires k < |L| && j <= |L[k].live|
    ensures var L' := PlacedLayout(L, k, j, c);
            && |L'| == |L| && |L'[k].live| == |L[k].live| + 1 && L'[k].live[j] == c
            && (forall l :: 0 <= l < |L| ==>
                L'[l].addr == L[l].addr && L'[l].pages == L[l].pages && (l != k ==> L'[l] == L[l]))
            && forall i: nat :: i < |L'[k].live| && i != j ==> L'[k].live[i] == L[k].live[if i < j then i else i - 1]
  {
  }

  lemma NewHeaderApart(L: Layout, k: nat, j: nat, c: Cell)
    requires k < |L| && j <= |L[k].live| && GoodLayout(PlacedLayout(L, k, j, c))
    ensures var L' := PlacedLayout(L, k, j, c);
            && HeaderApart(L', c.addr) && Housed(L', c.addr, c.addr + MINOR_SIZE)
            && PadApart(L', PadAddr(c)) && Housed(L', PadAddr(c), PadAddr(c) + 1)
  {
    hide Insert, Usage, Aligned;
    NewCellPlace(L, k, j, c);
    var L' := PlacedLayout(L, k, j, c);
    assert GoodBlk(L'[k]);
    InBlock(L'[k], j);
    PadInCell(c);
    forall k2: nat, j2: nat | k2 < |L'| && j2 < |L'[k2].live| && (k2 != k || j2 != j)
      ensures CellApart(L'[k2].live[j2], c.addr, CellEnd(c))
    {
      PointerSafe(L', k, j, k2, j2);
    }
  }

  lemma OldHeaderApart(L: Layout, k: nat, j: nat, c: Cell, a: nat)
    requires k < |L| && j <= |L[k].live| && HeaderApart(L, a) && Housed(L, a, a + MINOR_SIZE)
    requires a + MINOR_SIZE <= c.addr || CellEnd(c) <= a
    ensures HeaderApart(PlacedLayout(L, k, j, c), a) && Housed(PlacedLayout(L, k, j, c), a, a + MINOR_SIZE)
  {
    hide Insert, CellApart;
    NewCellPlace(L, k, j, c);
    HousedStill(L, PlacedLayout(L, k, j, c), a, a + MINOR_SIZE);
    assert CellApart(c, a, a + MINOR_SIZE) by {
      ApartMeans(c, a, a + MINOR_SIZE);
    }
  }

  lemma ApartMeans(c: Cell, lo: nat, hi: nat)
    ensures CellApart(c, lo, hi) <==> hi <= c.addr || CellEnd(c) <= lo
  {
  }

  lemma OldPadApart(L: Layout, k: nat, j: nat, c: Cell, q: nat)
    requires k < |L| && j <= |L[k].live| && PadApart(L, q) && Housed(L, q, q + 1) && (q < c.addr || CellEnd(c) <= q)
    ensures PadApart(PlacedLayout(L, k, j, c), q) && Housed(PlacedLayout(L, k, j, c), q, q + 1)
  {
    hide Insert, CellApart, PadAddr;
    NewCellPlace(L, k, j, c);
    HousedStill(L, PlacedLayout(L, k, j, c), q, q + 1);
    ApartMeans(c, q, q + 1);
  }

  lemma HousedStill(L: Layout, L': Layout, lo: nat, hi: nat)
    requires Housed(L, lo, hi) && |L'| >= |L|
    requires forall l :: 0 <= l < |L| ==> L'[l].addr == L[l].addr && L'[l].pages == L[l].pages
    ensures Housed(L', lo, hi)
  {
    var k: nat :| k < |L| && L[k].addr <= lo && hi <= L[k].addr + Size(L[k]);
    assert L'[k].addr <= lo && hi <= L'[k].addr + Size(L'[k]);
  }

  /** Fewer cells and more blocks keep the headers intact. */
  lemma IntactStill(h: Headers, h': Headers, L: Layout, L': Layout)
    requires Intact(h, L) && |L'| >= |L| && (forall l :: |L| <= l < |L'| ==> L'[l].live == [])
    requires (forall a :: a in h'.minors ==> a in h.minors) && (forall q :: q in h'.pads ==> q in h.pads)
    requires forall l :: 0 <= l < |L| ==> L'[l].addr == L[l].addr && L'[l].pages == L[l].pages
    requires forall l: nat, i: nat :: l < |L| && i < |L'[l].live| ==> CellWas(L[l].live, L'[l].live[i])
    ensures Intact(h', L')
  {
    hide Housed, CellApart, PadAddr, Size;
    forall a | a in h'.minors ensures HeaderApart(L', a) && Housed(L', a, a + MINOR_SIZE) {
      HousedStill(L, L', a, a + MINOR_SIZE);
      forall k: nat, j: nat | k < |L'| && j < |L'[k].live|
        ensures L'[k].live[j].addr == a || CellApart(L'[k].live[j], a, a + MINOR_SIZE)
      {
        var i: nat := WasAt(L[k].live, L'[k].live[j]);
        assert L[k].live[i].addr == a || CellApart(L[k].live[i], a, a + MINOR_SIZE);
        SameExtent(L[k].live[i], L'[k].live[j], a, a + MINOR_SIZE);
      }
    }
    forall q | q in h'.pads ensures PadApart(L', q) && Housed(L', q, q + 1) {
      HousedStill(L, L', q, q + 1);
      forall k: nat, j: nat | k < |L'| && j < |L'[k].live|
        ensures PadAddr(L'[k].live[j]) == q || CellApart(L'[k].live[j], q, q + 1)
      {
        var i: nat := WasAt(L[k].live, L'[k].live[j]);
        assert PadAddr(L[k].live[i]) == q || CellApart(L[k].live[i], q, q + 1);
        SameExtent(L[k].live[i], L'[k].live[j], q, q + 1);
      }
    }
  }

  /** A cell with this extent was there. */
  ghost predicate CellWas(live: seq<Cell>, c: Cell) {
    exists i: nat :: i < |live| && live[i].addr == c.addr && live[i].size == c.size
  }

  lemma WasAt(live: seq<Cell>, c: Cell) returns (i: nat)
    requires CellWas(live, c)
    ensures i < |live| && live[i].addr == c.addr && live[i].size == c.size
  {
    i :| i < |live| && live[i].addr == c.addr && live[i].size == c.size;
  }

  lemma SameExtent(c: Cell, d: Cell, lo: nat, hi: nat)
    requires c.addr == d.addr && c.size == d.size
    ensures CellApart(d, lo, hi) == CellApart(c, lo, hi) && PadAddr(d) == PadAddr(c)
  {
  }

  lemma TakenIntact(h: Headers, L: Layout, k: nat, j: nat)
    requires Intact(h, L) && k < |L| && j < |L[k].live| && L[k].addr in h.majors && MinorsStand(h.minors, L[k])
    requires h.majors[L[k].addr].usage >= L[k].live[j].size + MINOR_SIZE
    ensures Intact(Taken(h, L[k], j), TakenLayout(L, k, j))
  {
    hide TakenMajors, Intact, MinorsStand;
    var L' := TakenLayout(L, k, j);
    TakenKeys(h.minors, L[k], j);
    forall l: nat, i: nat | l < |L| && i < |L'[l].live| ensures CellWas(L[l].live, L'[l].live[i]) {
      var m := if l == k && i >= j then i + 1 else i;
      assert L'[l].live[i] == L[l].live[m];
    }
    IntactStill(h, Taken(h, L[k], j), L, L');
  }

  lemma TakenKeys(minors: map<nat, Minor>, b: Blk, j: nat)
    requires MinorsStand(minors, b) && j < |b.live|
    ensures forall a :: a in TakenMinors(minors, b, j) ==> a in minors
  {
  }

  lemma AppendedIntact(h: Headers, h': Headers, L: Layout, b: Blk)
    requires Intact(h, L) && b.live == [] && h'.minors == h.minors && h'.pads == h.pads
    ensures Intact(h', L + [b])
  {
    hide Intact;
    forall l: nat, i: nat | l < |L| && i < |(L + [b])[l].live| ensures CellWas(L[l].live, (L + [b])[l].live[i]) {
    }
    IntactStill(h, h', L, L + [b]);
  }

  lemma ResizedIntact(h: Headers, h': Headers, L: Layout, k: nat, j: nat, req: nat)
    requires Intact(h, L) && k < |L| && j < |L[k].live| && h'.pads == h.pads && forall a :: a in h'.minors ==>
        a in h.minors
    ensures Intact(h', L[k := ResizedBlk(L[k], j, req)])
  {
    hide Intact;
    var L' := L[k := ResizedBlk(L[k], j, req)];
    forall l: nat, i: nat | l < |L| && i < |L'[l].live| ensures CellWas(L[l].live, L'[l].live[i]) {
      assert L'[l].live[i].addr == L[l].live[i].addr;
    }
    IntactStill(h, h', L, L');
  }

  /** A dropped block leaves the headers in the other ones. */
  lemma DroppedIntact(h: Headers, h': Headers, L: Layout, k: nat)
    requires Intact(h, L) && k < |L| && Vacant(h, L[k].addr, L[k].addr + Size(L[k]))
    requires h'.minors == h.minors && h'.pads == h.pads
    ensures Intact(h', Dropped(L, k))
  {
    hide CellApart, PadAddr, Size;
    var L' := Dropped(L, k);
    assert forall l :: 0 <= l < |L'| ==> L'[l] == L[if l < k then l else l + 1];
    forall a | a in h'.minors ensures HeaderApart(L', a) && Housed(L', a, a + MINOR_SIZE) {
      HousedElsewhere(L, k, a, a + MINOR_SIZE);
      assert HeaderApart(L, a);
    }
    forall q | q in h'.pads ensures PadApart(L', q) && Housed(L', q, q + 1) {
      HousedElsewhere(L, k, q, q + 1);
      assert PadApart(L, q);
    }
  }

  lemma HousedElsewhere(L: Layout, k: nat, lo: nat, hi: nat)
    requires Housed(L, lo, hi) && k < |L| && lo < hi && (hi <= L[k].addr || L[k].addr + Size(L[k]) <= lo)
    ensures Housed(Dropped(L, k), lo, hi)
  {
    var l: nat :| l < |L| && L[l].addr <= lo && hi <= L[l].addr + Size(L[l]);
    assert Dropped(L, k)[if l < k then l else l - 1] == L[l];
  }

  /** A new cell goes where no cell is. */
  lemma GapFree(L: Layout, k: nat, j: nat, c: Cell)
    requires GoodLayout(L) && k < |L| && Placeable(L[k], j, c)
    ensures NoCellIn(L, c.addr, CellEnd(c))
  {
    PlacedGoodLayout(L, k, j, c);
    hide GoodLayout, Placeable, Insert, Aligned, Usage;
    PlacedThere(L[k], j, c);
    NewCellPlace(L, k, j, c);
    var L' := PlacedLayout(L, k, j, c);
    forall k2: nat, j2: nat | k2 < |L| && j2 < |L[k2].live| ensures CellApart(L[k2].live[j2], c.addr, CellEnd(c)) {
      var i: nat := if k2 == k && j2 >= j then j2 + 1 else j2;
      assert L'[k2].live[i] == L[k2].live[j2];
      PointerSafe(L', k, j, k2, i);
    }
  }

  lemma BlockFree(L: Layout, k: nat)
    requires GoodLayout(L) && k < |L| && L[k].live == []
    ensures NoCellIn(L, L[k].addr, L[k].addr + Size(L[k]))
  {
    hide Usage;
    forall k2: nat, j2: nat | k2 < |L| && j2 < |L[k2].live|
      ensures CellApart(L[k2].live[j2], L[k].addr, L[k].addr + Size(L[k]))
    {
      assert GoodBlk(L[k2]);
      InBlock(L[k2], j2);
      assert DisjointBlks(L[if k < k2 then k else k2], L[if k < k2 then k2 else k]);
    }
  }
}
