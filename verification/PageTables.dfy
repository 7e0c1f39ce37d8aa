/** Four-level page tables as values: what the bytes of the tables mean
    (src/mm/vmm.c; Intel SDM Vol. 3A, chapter 4, "4-Level Paging"). */
module PageTables {
  import opened Wrappers
  import opened Words

  // ----- entries and pages -----

  /** The bits of an entry outside its frame number: bits 0, 1 and 2, bits 3-11
      and bits 52-63. */
  datatype Flags = Flags(present: bool, rw: bool, user: bool, rest: nat, hi: nat)

  /** A 64-bit table entry; frame is bits 12-51. */
  datatype Pte = Pte(flags: Flags, frame: nat)

  const NO_FLAGS := Flags(false, false, false, 0, 0)
  const ZERO_PTE := Pte(NO_FLAGS, 0)

  /** entry & 0xFFF, as flags */
  function Low12(p: Pte): Flags {
    p.flags.(hi := 0)
  }

  /** A physical page, by the way it was last filled: as a table of 512 entries or
      as 4096 bytes of data. */
  datatype RawPage = Table(e: seq<Pte>) | Data(b: seq<Byte>)

  type Page = p: RawPage | (p.Table? ==> |p.e| == 512) && (p.Data? ==> |p.b| == 4096)
    witness Table(seq(512, _ => ZERO_PTE))

  type Mem = seq<Page>

  function ZeroTable(): Page {
    Table(seq(512, _ => ZERO_PTE))
  }

  function ZeroData(): Page {
    Data(seq(4096, _ => 0))
  }

  function Entry(m: Mem, f: nat, i: nat): Pte {
    if f < |m| && m[f].Table? && i < 512 then m[f].e[i] else ZERO_PTE
  }

  function SetEntry(m: Mem, f: nat, i: nat, p: Pte): (r: Mem)
    requires f < |m| && m[f].Table? && i < 512
    ensures |r| == |m| && r[f].Table?
    ensures forall g, j {:trigger Entry(r, g, j)} :: Entry(r, g, j) == if g == f && j == i then p else Entry(m, g, j)
    ensures forall g :: 0 <= g < |m| && g != f ==> r[g] == m[g]
  {
    m[f := Table(m[f].e[i := p])]
  }

  /** Page f zeroed as a table. */
  function ClearTable(m: Mem, f: nat): (r: Mem)
    requires f < |m|
    ensures |r| == |m| && r[f].Table?
    ensures forall g, j {:trigger Entry(r, g, j)} :: Entry(r, g, j) == if g == f then ZERO_PTE else Entry(m, g, j)
    ensures forall g :: 0 <= g < |m| && g != f ==> r[g] == m[g]
  {
    m[f := ZeroTable()]
  }

  // ----- virtual addresses -----

  function Index4(v: nat): nat { v / 0x80_0000_0000 % 512 }
  function Index3(v: nat): nat { v / 0x4000_0000 % 512 }
  function Index2(v: nat): nat { v / 0x20_0000 % 512 }
  function Index1(v: nat): nat { v / 0x1000 % 512 }

  /** A place in a page-table tree: the root, or entry i of the table at place up.
      Tables are at depths 0 to 3, mapped pages at depth 4. */
  datatype Node = Root | Sub(up: Node, i: nat)

  function Depth(n: Node): nat {
    if n.Root? then 0 else 1 + Depth(n.up)
  }

  /** Only the lower half of the root belongs to the process. */
  function Width(n: Node): nat {
    if n.Root? then 256 else 512
  }

  /** The place of the page that holds address v. */
  function Leaf(v: nat): (n: Node)
    ensures Depth(n) == 4
  {
    var n2 := Sub(Sub(Root, Index4(v)), Index3(v));
    assert Depth(n2) == 2;
    Sub(Sub(n2, Index2(v)), Index1(v))
  }

  lemma LeafIndex(v: nat)
    ensures Leaf(v).Sub? && Leaf(v).i == Index1(v) && Index1(v) < 512 && Depth(Leaf(v).up) == 3
  {
  }

  lemma IndexBounds(v: nat)
    requires UserAddr(v)
    ensures Index4(v) < 256 && Index3(v) < 512 && Index2(v) < 512 && Index1(v) < 512
  {
    IndicesOfPage(v);
  }

  /** The places of the tables on the way to the page of v, but for the root. */
  ghost function TablesTo(v: nat): set<Node> {
    var n3 := Sub(Root, Index4(v));
    var n2 := Sub(n3, Index3(v));
    {n3, n2, Sub(n2, Index2(v))}
  }

  /** Addresses of the lower canonical half. */
  predicate UserAddr(v: nat) {
    v < 0x8000_0000_0000
  }

  /** Two user addresses are at one place exactly when they are on one page. */
  lemma LeafSamePage(v: nat, w: nat)
    requires UserAddr(v) && UserAddr(w)
    ensures Leaf(v) == Leaf(w) <==> v / 4096 == w / 4096
  {
    IndicesOfPage(v);
    IndicesOfPage(w);
    hide Index1, Index2, Index3, Index4;
    var p, q := v / 4096, w / 4096;
    if Leaf(v) == Leaf(w) {
      assert p / 512 / 512 / 512 == q / 512 / 512 / 512;
      assert p / 512 / 512 == q / 512 / 512;
      assert p / 512 == q / 512;
    }
  }

  lemma IndicesOfPage(v: nat)
    requires UserAddr(v)
    ensures var p := v / 4096;
            Index1(v) == p % 512 && Index2(v) == p / 512 % 512 && Index3(v) == p / 512 / 512 % 512
            && Index4(v) == p / 512 / 512 / 512 < 256
  {
    var p := v / 4096;
    assert v / 0x20_0000 == p / 512;
    assert v / 0x4000_0000 == p / 512 / 512;
    assert v / 0x80_0000_0000 == p / 512 / 512 / 512;
  }

  // ----- translation -----

  /** The walk of vmm_get_pte. */
  function GetPte(m: Mem, root: nat, v: nat): Pte {
    var e4 := Entry(m, root, Index4(v));
    if !e4.flags.present then ZERO_PTE else
    var e3 := Entry(m, e4.frame, Index3(v));
    if !e3.flags.present then ZERO_PTE else
    var e2 := Entry(m, e3.frame, Index2(v));
    if !e2.flags.present then ZERO_PTE else
    Entry(m, e2.frame, Index1(v))
  }

  /** The partial map that a tree of tables stands for. */
  function Translate(m: Mem, root: nat, v: nat): Option<Pte> {
    var p := GetPte(m, root, v);
    if p.flags.present then Some(p) else None
  }

  /** m' translates the page at `leaf` by p and every other page as m does. */
  ghost predicate Remapped(m: Mem, m': Mem, root: nat, leaf: Node, p: Pte) {
    forall w: nat :: UserAddr(w) ==> GetPte(m', root, w) == if Leaf(w) == leaf then p else GetPte(m, root, w)
  }

  // ----- what user code can reach -----

  /** An entry that keeps user code from nothing: present, writable, user, and not execute-disabled. */
  predicate Open(p: Pte) {
    p.flags.present && p.flags.rw && p.flags.user && p.flags.hi == 0
  }

  /** The three table entries on the way to the page of v are open, so that what user code may do there
      is for the last entry alone to say (Intel SDM Vol. 3A, section 4.6.1). */
  ghost predicate UserPath(m: Mem, root: nat, v: nat) {
    var e4 := Entry(m, root, Index4(v));
    var e3 := Entry(m, e4.frame, Index3(v));
    var e2 := Entry(m, e3.frame, Index2(v));
    Open(e4) && Open(e3) && Open(e2)
  }

  /** The way to a page that was open is open. */
  ghost predicate KeepsPaths(m: Mem, m': Mem, root: nat) {
    forall v: nat :: UserAddr(v) && UserPath(m, root, v) ==> UserPath(m', root, v)
  }

  lemma PathsTwice(m: Mem, m1: Mem, m2: Mem, root: nat)
    requires KeepsPaths(m, m1, root) && KeepsPaths(m1, m2, root)
    ensures KeepsPaths(m, m2, root)
  {
    hide UserPath;
  }

  /** The way is that to every address on the page. */
  lemma PathOfPage(m: Mem, root: nat, v: nat, w: nat)
    requires UserAddr(v) && UserAddr(w) && v / 4096 == w / 4096
    ensures UserPath(m, root, v) <==> UserPath(m, root, w)
  {
    hide Entry, Open;
    IndicesOfPage(v);
    IndicesOfPage(w);
  }

  // ----- the shape of a tree -----

  type Places = map<Node, nat>

  /** No frame is at two places. */
  ghost predicate Injective(at: Places) {
    forall a, b :: a in at && b in at && at[a] == at[b] ==> a == b
  }

  /** The places are closed towards the root and no deeper than d. */
  ghost predicate Shaped(root: nat, at: Places, d: nat) {
    && 3 <= d <= 4
    && Root in at && at[Root] == root
    && (forall n :: n in at ==> Depth(n) <= d)
    && (forall n, i: nat :: Sub(n, i) in at ==> n in at && i < Width(n))
  }

  /** Places of depth at most 3 hold tables. */
  ghost predicate HoldsTables(m: Mem, at: Places) {
    forall n :: n in at ==> at[n] < |m| && (Depth(n) <= 3 ==> m[at[n]].Table?)
  }

  /** The places below n are exactly those its present entries lead to, and the entries that lead to
      tables are writable and executable. */
  ghost predicate Linked(m: Mem, at: Places, d: nat) {
    forall n, i: nat {:trigger Sub(n, i) in at} {:trigger Entry(m, at[n], i)} ::
      n in at && Depth(n) < d && i < Width(n) ==>
        (Sub(n, i) in at <==> Entry(m, at[n], i).flags.present)
        && (Sub(n, i) in at ==> at[Sub(n, i)] == Entry(m, at[n], i).frame)
        && (Sub(n, i) in at && Depth(n) <= 2 ==> Entry(m, at[n], i).flags.rw && Entry(m, at[n], i).flags.hi == 0)
  }

  /** `at` gives the frame of every table of the tree rooted at `root`, and also of
      every mapped page when d is 4. */
  ghost predicate Tree(m: Mem, root: nat, at: Places, d: nat) {
    Shaped(root, at, d) && Injective(at) && HoldsTables(m, at) && Linked(m, at, d)
  }

  lemma AddPlace(root: nat, at: Places, d: nat, n: Node, i: nat, f: nat)
    requires Shaped(root, at, d) && Injective(at)
    requires n in at && i < Width(n) && Depth(n) < d && f !in at.Values
    ensures Shaped(root, at[Sub(n, i) := f], d) && Injective(at[Sub(n, i) := f])
  {
    var at' := at[Sub(n, i) := f];
    forall a, b | a in at' && b in at' && at'[a] == at'[b]
      ensures a == b
    {
      if a != Sub(n, i) { assert at[a] in at.Values; }
      if b != Sub(n, i) { assert at[b] in at.Values; }
    }
  }

  /** In a tree, the walk for v reads entry Index1(v) of the last table, if there. */
  lemma GetPteInTree(m: Mem, root: nat, at: Places, d: nat, v: nat)
    requires Tree(m, root, at, d) && UserAddr(v)
    ensures GetPte(m, root, v) ==
            if Leaf(v).up in at then Entry(m, at[Leaf(v).up], Index1(v)) else ZERO_PTE
  {
    IndicesOfPage(v);
    var n3 := Sub(Root, Index4(v));
    var n2 := Sub(n3, Index3(v));
    var n1 := Sub(n2, Index2(v));
    if n3 in at && n2 in at {
      assert n1 in at <==> Entry(m, at[n2], Index2(v)).flags.present;
    }
  }

  /** Entry i of the table at place k is there and for user code. */
  ghost predicate UserAt(m: Mem, at: Places, k: Node, i: nat) {
    k in at && Entry(m, at[k], i).flags.present && Entry(m, at[k], i).flags.user
  }

  /** In a tree, the way to v is open when its tables are there and have the user bit. */
  lemma PathInTree(m: Mem, root: nat, at: Places, d: nat, v: nat)
    requires Tree(m, root, at, d) && UserAddr(v)
    ensures UserPath(m, root, v) <==>
            && TablesTo(v) <= at.Keys
            && forall n :: n in TablesTo(v) ==> UserAt(m, at, n.up, n.i)
  {
    hide Injective, Entry, Index1, Index2, Index3, Index4;
    IndicesOfPage(v);
    var n3 := Sub(Root, Index4(v));
    var n2 := Sub(n3, Index3(v));
    var n1 := Sub(n2, Index2(v));
    assert TablesTo(v) == {n3, n2, n1};
    assert Sub(Root, Index4(v)) in at <==> Entry(m, at[Root], Index4(v)).flags.present;
    if n3 in at {
      assert Sub(n3, Index3(v)) in at <==> Entry(m, at[n3], Index3(v)).flags.present;
      if n2 in at {
        assert Sub(n2, Index2(v)) in at <==> Entry(m, at[n2], Index2(v)).flags.present;
      }
    }
  }

  /** User bits of tables that stay keep the ways open. */
  lemma PathsInTree(m: Mem, at: Places, m': Mem, at': Places, root: nat, d: nat)
    requires Tree(m, root, at, d) && Tree(m', root, at', d)
    requires forall k :: k in at && Depth(k) <= 3 ==> k in at'
    requires forall k, i: nat :: UserAt(m, at, k, i) && Depth(k) <= 2 ==> UserAt(m', at', k, i)
    ensures KeepsPaths(m, m', root)
  {
    hide Tree, UserPath, UserAt, Index1, Index2, Index3, Index4;
    forall v: nat | UserAddr(v) && UserPath(m, root, v)
      ensures UserPath(m', root, v)
    {
      PathInTree(m, root, at, d, v);
      PathInTree(m', root, at', d, v);
    }
  }

  /** A tree whose pages did not change is as open as it was. */
  lemma PathsFrame(m: Mem, m': Mem, root: nat, at: Places, d: nat)
    requires Tree(m, root, at, d) && |m'| == |m|
    requires forall n :: n in at && Depth(n) <= 3 ==> m'[at[n]] == m[at[n]]
    ensures KeepsPaths(m, m', root)
  {
    hide Shaped, Injective, Linked;
    TreeFrame(m, m', root, at, d);
    PathsInTree(m, at, m', at, root, d);
  }

  lemma TranslateInTree(m: Mem, root: nat, at: Places, v: nat)
    requires Tree(m, root, at, 4) && UserAddr(v)
    ensures Translate(m, root, v).Some? <==> Leaf(v) in at
    ensures Leaf(v) in at ==> Translate(m, root, v).value.frame == at[Leaf(v)]
  {
    GetPteInTree(m, root, at, 4, v);
    var n := Leaf(v).up;
    assert Depth(n) == 3;
  }

  /** A tree whose pages did not change is the same tree with the same translation. */
  lemma TreeFrame(m: Mem, m': Mem, root: nat, at: Places, d: nat)
    requires Tree(m, root, at, d) && |m'| == |m|
    requires forall n :: n in at && Depth(n) <= 3 ==> m'[at[n]] == m[at[n]]
    ensures Tree(m', root, at, d)
    ensures forall v :: UserAddr(v) ==> GetPte(m', root, v) == GetPte(m, root, v)
  {
    forall n, i: nat | n in at && Depth(n) <= 3
      ensures Entry(m', at[n], i) == Entry(m, at[n], i)
    {
    }
    forall v | UserAddr(v)
      ensures GetPte(m', root, v) == GetPte(m, root, v)
    {
      GetPteInTree(m, root, at, d, v);
      GetPteInTree(m', root, at, d, v);
    }
  }
}
