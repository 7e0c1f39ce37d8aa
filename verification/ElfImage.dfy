/** The image of a program: what its segments put where, and the pages that hold them
    (ELF gABI chapter 5, Program Header; src/kernel/elf.c:71-260). */
module ElfImage {
  import opened Wrappers
  import opened Words
  import opened PageTables
  import opened TreeSteps
  import opened HeapWindow

  /** The fields of a program header that the loader uses. */
  datatype Phdr = Phdr(load: bool, writable: bool, executable: bool, offset: nat, vaddr: nat, filesz: nat, memsz: nat)

  // ----- the image -----

  predicate Loads(ph: Phdr) {
    ph.load && ph.memsz != 0
  }

  /** The pages from seg_start to seg_end. */
  function FirstPage(ph: Phdr): nat {
    ph.vaddr / 4096
  }

  function EndPage(ph: Phdr): nat {
    (ph.vaddr + ph.memsz + 0xFFF) / 4096
  }

  predicate Touches(ph: Phdr, p: nat) {
    Loads(ph) && FirstPage(ph) <= p < EndPage(ph)
  }

  function SegmentFlags(ph: Phdr): Flags {
    Flags(true, ph.writable, true, 0, if ph.executable then 0 else 0x800)
  }

  predicate InFile(ph: Phdr, w: nat) {
    ph.vaddr <= w < ph.vaddr + ph.filesz
  }

  predicate InBss(ph: Phdr, w: nat) {
    ph.vaddr + ph.filesz <= w < ph.vaddr + ph.memsz
  }

  function FileByte(file: seq<Byte>, ph: Phdr, w: nat): Byte {
    if w >= ph.vaddr && ph.offset + (w - ph.vaddr) < |file| then file[ph.offset + (w - ph.vaddr)] else 0
  }

  /** What the segments, one after the other, put at address w. */
  function Image(file: seq<Byte>, phs: seq<Phdr>, w: nat): Byte {
    if phs == [] then 0
    else
      var ph, before := phs[|phs| - 1], Image(file, phs[..|phs| - 1], w);
      if !Loads(ph) then before
      else if InBss(ph, w) then 0
      else if InFile(ph, w) then FileByte(file, ph, w)
      else before
  }

  /** The flags of page p: those of the first segment on it. */
  function PageFlags(phs: seq<Phdr>, p: nat): Option<Flags> {
    if phs == [] then None
    else
      var before := PageFlags(phs[..|phs| - 1], p);
      if before.Some? then before
      else if Touches(phs[|phs| - 1], p) then Some(SegmentFlags(phs[|phs| - 1]))
      else None
  }

  /** No address belongs to two segments, and no segment has more bytes in the file than in memory. */
  ghost predicate Proper(phs: seq<Phdr>) {
    && (forall i :: 0 <= i < |phs| && Loads(phs[i]) ==> phs[i].filesz <= phs[i].memsz)
    && (forall i, j, w: nat :: 0 <= i < j < |phs| && InSegment(phs[i], w) ==> !InSegment(phs[j], w))
  }

  predicate InSegment(ph: Phdr, w: nat) {
    Loads(ph) && ph.vaddr <= w < ph.vaddr + ph.memsz
  }

  /** The image has the bytes of the file where the headers say, zeros for the rest of each
      segment, and zeros outside the segments. */
  lemma {:induction false} ImageRight(file: seq<Byte>, phs: seq<Phdr>, w: nat)
    requires Proper(phs)
    ensures forall i :: 0 <= i < |phs| && InSegment(phs[i], w) ==>
              Image(file, phs, w) == if w < phs[i].vaddr + phs[i].filesz then FileByte(file, phs[i], w) else 0
    ensures (forall i :: 0 <= i < |phs| ==> !InSegment(phs[i], w)) ==> Image(file, phs, w) == 0
  {
    if phs != [] {
      var n := |phs| - 1;
      assert forall i, j, v: nat :: 0 <= i < j < n && InSegment(phs[..n][i], v) ==> !InSegment(phs[..n][j], v);
      ImageRight(file, phs[..n], w);
      forall i | 0 <= i < n ensures phs[..n][i] == phs[i] {
      }
    }
  }

  // ----- the bytes of the file -----

  /** The loader's check that the file has the bytes of a segment: a sum of 64 bits. */
  predicate Checked(file: seq<Byte>, ph: Phdr) {
    (ph.offset + ph.filesz) % TWO_64 <= |file|
  }

  predicate SumFits(ph: Phdr) {
    ph.filesz > 0 ==> ph.offset + ph.filesz < TWO_64
  }

  /** A segment that passes the check lies inside the file exactly when the sum does not wrap; and
      one inside the file passes. */
  lemma CheckedExactly(file: seq<Byte>, ph: Phdr)
    requires |file| < TWO_64
    ensures Checked(file, ph) ==> (ph.offset + ph.filesz <= |file| <==> ph.offset + ph.filesz < TWO_64)
    ensures ph.offset + ph.filesz <= |file| ==> Checked(file, ph)
  {
  }

  /** A segment of 4097 bytes from 4096 bytes in front of a file of one page passes the check. */
  lemma CheckWraps(file: seq<Byte>, ph: Phdr)
    requires |file| == 4096 && ph == Phdr(true, true, true, TWO_64 - 4096, 0x40_0000, 4097, 4097)
    ensures Checked(file, ph) && !SumFits(ph) && ph.offset + ph.filesz > |file|
  {
  }

  // ----- the tracked pages -----

  /** elf_page_t, with the page number of the user address and the frame of the kernel address. */
  datatype Tracked = Tracked(page: nat, frame: nat)

  ghost predicate IsTracked(ts: seq<Tracked>, p: nat) {
    exists i :: 0 <= i < |ts| && ts[i].page == p
  }

  ghost function TrackedPages(ts: seq<Tracked>): (s: set<nat>)
    ensures forall p: nat :: p in s <==> IsTracked(ts, p)
  {
    set i | 0 <= i < |ts| :: ts[i].page
  }

  lemma TrackedPagesMore(ts: seq<Tracked>, t: Tracked)
    ensures TrackedPages(ts + [t]) == TrackedPages(ts) + {t.page}
  {
    var more := ts + [t];
    assert more[|ts|] == t;
    forall p: nat ensures IsTracked(more, p) <==> IsTracked(ts, p) || p == t.page {
      if i :| 0 <= i < |ts| && ts[i].page == p {
        assert more[i].page == p;
      }
    }
  }

  /** Pages that are tracked once each are as many as there are entries. */
  lemma {:induction false} TrackedCount(ts: seq<Tracked>)
    requires forall i, j :: 0 <= i < j < |ts| ==> ts[i].page != ts[j].page
    ensures |TrackedPages(ts)| == |ts|
  {
    if ts == [] {
      assert TrackedPages(ts) == {};
    } else {
      var n := |ts| - 1;
      TrackedCount(ts[..n]);
      assert ts == ts[..n] + [ts[n]];
      TrackedPagesMore(ts[..n], ts[n]);
      forall i | 0 <= i < n ensures ts[..n][i].page != ts[n].page {
        assert ts[..n][i] == ts[i];
      }
    }
  }

  ghost predicate TrackedAt(m: Mem, root: nat, t: Tracked, flags: Flags) {
    && flags.present && UserAddr(t.page * 4096)
    && GetPte(m, root, t.page * 4096) == Pte(flags, t.frame)
    && UserPath(m, root, t.page * 4096)
    && t.frame < |m| && m[t.frame].Data?
  }

  /** An address on no tracked page translates as before, and the way to it is still open if it was. */
  ghost predicate OtherSame(m0: Mem, m: Mem, root: nat, ts: seq<Tracked>, w: nat) {
    && (!IsTracked(ts, w / 4096) ==> Translate(m, root, w) == Translate(m0, root, w))
    && (UserPath(m0, root, w) ==> UserPath(m, root, w))
  }

  /** Each tracked page is mapped once, to its own frame; nothing else changed its translation. */
  ghost predicate Tracks(m0: Mem, m: Mem, root: nat, ts: seq<Tracked>, flags: seq<Flags>) {
    && |flags| == |ts|
    && (forall i: nat :: i < |ts| ==> TrackedAt(m, root, ts[i], flags[i]))
    && (forall i, j :: 0 <= i < j < |ts| ==> ts[i].page != ts[j].page)
    && (forall w: nat :: UserAddr(w) ==> OtherSame(m0, m, root, ts, w))
  }

  /** The tracked pages hold the bytes that f gives for their addresses. */
  ghost predicate Shows(m: Mem, ts: seq<Tracked>, f: nat -> Byte) {
    forall i: nat :: i < |ts| ==> PageShows(m, ts[i], f)
  }

  ghost predicate PageShows(m: Mem, t: Tracked, f: nat -> Byte) {
    t.frame < |m| && m[t.frame].Data? && forall o: nat :: o < 4096 ==> m[t.frame].b[o] == f(AddressOf(t.page, o))
  }

  function AddressOf(p: nat, o: nat): nat {
    p * 4096 + o
  }

  ghost predicate ZeroOutside(ts: seq<Tracked>, f: nat -> Byte) {
    forall w: nat :: !IsTracked(ts, w / 4096) ==> f(w) == 0
  }

  lemma PageAddress(p: nat, o: nat)
    requires o < 4096
    ensures AddressOf(p, o) / 4096 == p && AddressOf(p, o) % 4096 == o
  {
  }

  /** The frame of a tracked page is the one at its place in the tree. */
  lemma TrackedPlace(s: Phys, root: nat, at: Places, t: Tracked, flags: Flags)
    requires OwnedTree(s, root, at, 4) && TrackedAt(s.mem, root, t, flags)
    ensures Leaf(t.page * 4096) in at && at[Leaf(t.page * 4096)] == t.frame
  {
    hide GetPte, Tree, UserPath;
    TranslateInTree(s.mem, root, at, t.page * 4096);
  }

  lemma TrackedKept(s: Phys, root: nat, at: Places, t: Tracked, flags: Flags, s2: Phys, leaf: Node, p: Pte)
    requires OwnedTree(s, root, at, 4) && TrackedAt(s.mem, root, t, flags)
    requires KeepsUsed(s, s2.mem, at) && Remapped(s.mem, s2.mem, root, leaf, p) && Leaf(t.page * 4096) != leaf
    requires KeepsPaths(s.mem, s2.mem, root)
    ensures TrackedAt(s2.mem, root, t, flags) && s2.mem[t.frame] == s.mem[t.frame]
  {
    hide GetPte, Tree, Leaf, UserAddr, UserPath;
    TrackedPlace(s, root, at, t, flags);
    PageKept(s, s2.mem, root, at, t.page * 4096);
  }

  /** A fresh page is mapped and tracked. */
  lemma TracksMore(m0: Mem, s: Phys, root: nat, at: Places, ts: seq<Tracked>, fl: seq<Flags>, s2: Phys, at2: Places,
      page: nat, frame: nat, flags: Flags)
    requires OwnedTree(s, root, at, 4) && Tracks(m0, s.mem, root, ts, fl) && !IsTracked(ts, page)
    requires KeepsUsed(s, s2.mem, at) && flags.present && UserAddr(page * 4096)
    requires frame < |s2.mem| && s2.mem[frame] == ZeroData()
    requires Remapped(s.mem, s2.mem, root, Leaf(page * 4096), Pte(flags, frame))
    requires KeepsPaths(s.mem, s2.mem, root) && UserPath(s2.mem, root, page * 4096)
    ensures Tracks(m0, s2.mem, root, ts + [Tracked(page, frame)], fl + [flags])
    ensures forall i: nat :: i < |ts| ==> s2.mem[ts[i].frame] == s.mem[ts[i].frame]
  {
    hide GetPte, Tree, Leaf, UserPath;
    var more, flags2 := ts + [Tracked(page, frame)], fl + [flags];
    forall i: nat | i < |ts| ensures TrackedAt(s2.mem, root, ts[i], fl[i])
        && s2.mem[ts[i].frame] == s.mem[ts[i].frame] && ts[i].page != page {
      assert TrackedAt(s.mem, root, ts[i], fl[i]);
      LeafSamePage(ts[i].page * 4096, page * 4096);
      TrackedKept(s, root, at, ts[i], fl[i], s2, Leaf(page * 4096), Pte(flags, frame));
    }
    forall w: nat | UserAddr(w) ensures OtherSame(m0, s2.mem, root, more, w) {
      assert OtherSame(m0, s.mem, root, ts, w);
      assert more[|ts|].page == page;
      forall i | 0 <= i < |ts| ensures more[i] == ts[i] {
      }
      LeafSamePage(w, page * 4096);
    }
    assert TrackedAt(s2.mem, root, more[|ts|], flags2[|ts|]);
  }

  lemma ShowsMore(m: Mem, m2: Mem, ts: seq<Tracked>, f: nat -> Byte, page: nat, frame: nat)
    requires Shows(m, ts, f) && ZeroOutside(ts, f) && !IsTracked(ts, page)
    requires |m2| >= |m| && frame < |m2| && m2[frame] == ZeroData() && forall i: nat :: i < |ts| ==>
        m2[ts[i].frame] == m[ts[i].frame]
    ensures Shows(m2, ts + [Tracked(page, frame)], f) && ZeroOutside(ts + [Tracked(page, frame)], f)
  {
    var more := ts + [Tracked(page, frame)];
    forall i: nat | i < |more| ensures PageShows(m2, more[i], f) {
      if i < |ts| {
        assert PageShows(m, ts[i], f);
      } else {
        forall o: nat | o < 4096 ensures f(AddressOf(page, o)) == 0 {
          PageAddress(page, o);
        }
      }
    }
    forall w: nat | !IsTracked(more, w / 4096) ensures f(w) == 0 {
      forall i | 0 <= i < |ts| ensures ts[i].page != w / 4096 {
        assert more[i] == ts[i];
      }
    }
  }

  // ----- stores into tracked pages -----

  /** Page b with the bytes x from offset o on. */
  function Stored(b: seq<Byte>, o: nat, x: seq<Byte>): (r: seq<Byte>)
    requires o + |x| <= |b|
    ensures |r| == |b|
  {
    b[..o] + x + b[o + |x|..]
  }

  /** f with the bytes x from address a on. */
  ghost function Patched(f: nat -> Byte, a: nat, x: seq<Byte>): nat -> Byte {
    (w: nat) => if a <= w < a + |x| then x[w - a] else f(w)
  }

  ghost function PatchedMem(m: Mem, frame: nat, o: nat, x: seq<Byte>): (r: Mem)
    requires frame < |m| && m[frame].Data? && o + |x| <= 4096
    ensures |r| == |m|
  {
    m[frame := Data(Stored(m[frame].b, o, x))]
  }

  /** Data stored in a mapped page leaves the tree and the translation as they are. */
  lemma PatchTree(s: Phys, root: nat, at: Places, t: Tracked, flags: Flags, o: nat, x: seq<Byte>)
    requires OwnedTree(s, root, at, 4) && TrackedAt(s.mem, root, t, flags) && o + |x| <= 4096
    ensures var m2 := PatchedMem(s.mem, t.frame, o, x);
            OwnedTree(Phys(m2, s.used, s.free), root, at, 4) && SameGetPte(s.mem, m2, root)
            && KeepsPaths(s.mem, m2, root)
  {
    hide GetPte, Linked, Shaped, UserPath;
    TrackedPlace(s, root, at, t, flags);
    var m2 := PatchedMem(s.mem, t.frame, o, x);
    forall n | n in at && Depth(n) <= 3 ensures m2[at[n]] == s.mem[at[n]] {
      LeafDepth(t.page * 4096);
    }
    TreeFrame(s.mem, m2, root, at, 4);
    PathsFrame(s.mem, m2, root, at, 4);
  }

  lemma LeafDepth(v: nat)
    ensures Depth(Leaf(v)) == 4
  {
  }

  lemma PatchTracks(m0: Mem, s: Phys, root: nat, at: Places, ts: seq<Tracked>, fl: seq<Flags>, j: nat, o: nat,
      x: seq<Byte>)
    requires OwnedTree(s, root, at, 4) && Tracks(m0, s.mem, root, ts, fl) && j < |ts| && o + |x| <= 4096
    ensures |fl| == |ts| && TrackedAt(s.mem, root, ts[j], fl[j])
    ensures var m2 := PatchedMem(s.mem, ts[j].frame, o, x);
            OwnedTree(Phys(m2, s.used, s.free), root, at, 4) && Tracks(m0, m2, root, ts, fl)
  {
    hide GetPte, Tree, UserPath;
    PatchTree(s, root, at, ts[j], fl[j], o, x);
    var m2 := PatchedMem(s.mem, ts[j].frame, o, x);
    forall i: nat | i < |ts| ensures TrackedAt(m2, root, ts[i], fl[i]) {
      assert TrackedAt(s.mem, root, ts[i], fl[i]);
    }
    forall w: nat | UserAddr(w) ensures OtherSame(m0, m2, root, ts, w) {
      assert OtherSame(m0, s.mem, root, ts, w);
    }
  }

  /** Two tracked pages have two frames. */
  lemma FramesDiffer(s: Phys, root: nat, at: Places, m0: Mem, ts: seq<Tracked>, fl: seq<Flags>, i: nat, j: nat)
    requires OwnedTree(s, root, at, 4) && Tracks(m0, s.mem, root, ts, fl) && i < |ts| && j < |ts| && i != j
    ensures ts[i].frame != ts[j].frame
  {
    hide GetPte, Leaf, OtherSame, UserPath;
    assert TrackedAt(s.mem, root, ts[i], fl[i]) && TrackedAt(s.mem, root, ts[j], fl[j]);
    TrackedPlace(s, root, at, ts[i], fl[i]);
    TrackedPlace(s, root, at, ts[j], fl[j]);
    LeafSamePage(ts[i].page * 4096, ts[j].page * 4096);
    assert ts[i].page != ts[j].page;
  }

  lemma PatchShows(m0: Mem, s: Phys, root: nat, at: Places, ts: seq<Tracked>, fl: seq<Flags>, f: nat -> Byte, j: nat,
      o: nat, x: seq<Byte>)
    requires OwnedTree(s, root, at, 4) && Tracks(m0, s.mem, root, ts, fl) && j < |ts| && o + |x| <= 4096
    requires Shows(s.mem, ts, f) && |fl| == |ts| && TrackedAt(s.mem, root, ts[j], fl[j])
    ensures Shows(PatchedMem(s.mem, ts[j].frame, o, x), ts, Patched(f, AddressOf(ts[j].page, o), x))
  {
    hide GetPte, Tree, Tracks, TrackedAt;
    var m2, f2 := PatchedMem(s.mem, ts[j].frame, o, x), Patched(f, AddressOf(ts[j].page, o), x);
    forall i: nat | i < |ts| ensures PageShows(m2, ts[i], f2) {
      assert PageShows(s.mem, ts[i], f);
      if i == j {
        PatchPage(s.mem, ts[j], f, o, x);
      } else {
        FramesDiffer(s, root, at, m0, ts, fl, i, j);
        forall b: nat | b < 4096 ensures f2(AddressOf(ts[i].page, b)) == f(AddressOf(ts[i].page, b)) {
          PagesApart(m0, s.mem, root, ts, fl, i, j, b, o, x);
        }
      }
    }
  }

  lemma PatchPage(m: Mem, t: Tracked, f: nat -> Byte, o: nat, x: seq<Byte>)
    requires PageShows(m, t, f) && o + |x| <= 4096
    ensures PageShows(PatchedMem(m, t.frame, o, x), t, Patched(f, AddressOf(t.page, o), x))
  {
  }

  lemma PagesApart(m0: Mem, m: Mem, root: nat, ts: seq<Tracked>, fl: seq<Flags>, i: nat, j: nat, b: nat, o: nat,
      x: seq<Byte>)
    requires Tracks(m0, m, root, ts, fl) && i < |ts| && j < |ts| && i != j && b < 4096 && o + |x| <= 4096
    ensures !(AddressOf(ts[j].page, o) <= AddressOf(ts[i].page, b) < AddressOf(ts[j].page, o) + |x|)
  {
    hide TrackedAt, OtherSame;
    assert ts[i].page != ts[j].page;
  }

  lemma PatchOutside(ts: seq<Tracked>, f: nat -> Byte, j: nat, o: nat, x: seq<Byte>)
    requires ZeroOutside(ts, f) && j < |ts| && o + |x| <= 4096
    ensures ZeroOutside(ts, Patched(f, AddressOf(ts[j].page, o), x))
  {
    forall w: nat | !IsTracked(ts, w / 4096) ensures Patched(f, AddressOf(ts[j].page, o), x)(w) == 0 {
      assert w / 4096 != ts[j].page;
    }
  }
}
