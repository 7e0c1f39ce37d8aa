/** The chains of all files and directories of a volume, over any run of allocations, growths and
    removals (src/fs/fat32.c:646-682, 715-729, 820-827, 1002-1015, 1068-1077, 1109-1128). */
module FatVolume {
  import opened FatTable
  import opened FatChains
  import opened FatGrow
  import opened FatContents

  /** The live chains are chains of the table, share no cluster, and make up all that is in use. */
  ghost predicate Volume(t: Fat, chains: seq<seq<nat>>) {
    && InRange(t) && |t| <= EOC
    && Live(t, chains) && Apart(chains) && Tight(t, chains)
  }

  ghost predicate Live(t: Fat, chains: seq<seq<nat>>) {
    forall i :: 0 <= i < |chains| ==> IsChain(t, chains[i])
  }

  ghost predicate Apart(chains: seq<seq<nat>>) {
    forall i, j :: 0 <= i < |chains| && 0 <= j < |chains| && i != j ==> Disjoint(chains[i], chains[j])
  }

  ghost predicate Tight(t: Fat, chains: seq<seq<nat>>) {
    forall c: nat :: 2 <= c < |t| && Next(t[c]) != 0 ==> Covered(chains, c)
  }

  ghost predicate Covered(chains: seq<seq<nat>>, c: nat) {
    exists i :: 0 <= i < |chains| && c in chains[i]
  }

  /** What the driver does to the table: a new chain for create and mkdir, growth of a file or
      a directory, and removal of a chain by unlink. */
  datatype Step = New(c: nat) | Grow(i: nat, g: seq<nat>) | Remove(i: nat)

  ghost predicate Does(t: Fat, t': Fat, chains: seq<seq<nat>>, e: Step) {
    match e
    case New(c) => 2 <= c < |t| && Next(t[c]) == 0 && t' == t[c := WithNext(t[c], EOC)]
    case Grow(i, g) => i < |chains| && Grown(t, t', chains[i], g)
    case Remove(i) => i < |chains| && InRange(t) && |t| <= EOC && IsChain(t, chains[i]) && FreedFrom(t, t',
        chains[i][0])
  }

  ghost function After(chains: seq<seq<nat>>, e: Step): seq<seq<nat>> {
    match e
    case New(c) => chains + [[c]]
    case Grow(i, g) => if i < |chains| then chains[i := g] else chains
    case Remove(i) => if i < |chains| then chains[..i] + chains[i + 1..] else chains
  }

  /** How many free entries a step adds. */
  ghost function FreeChange(chains: seq<seq<nat>>, e: Step): int {
    match e
    case New(_) => -1
    case Grow(i, g) => if i < |chains| then |chains[i]| - |g| else 0
    case Remove(i) => if i < |chains| then |chains[i]| else 0
  }

  // ----- a new chain -----

  lemma NewChain(t: Fat, s: seq<nat>, c: nat)
    requires IsChain(t, s) && 2 <= c < |t| && Next(t[c]) == 0
    ensures IsChain(t[c := WithNext(t[c], EOC)], s) && c !in s
  {
    FreeNotInChain(t, s, c);
    ChainKept(t, t[c := WithNext(t[c], EOC)], s);
  }

  lemma NewEntry(t: Fat, c: nat)
    requires InRange(t) && 2 <= c < |t| <= EOC && Next(t[c]) == 0
    ensures var t' := t[c := WithNext(t[c], EOC)];
            InRange(t') && IsChain(t', [c]) && Next(t'[c]) != 0 && FreeFrom(t', 2) == FreeFrom(t, 2) - {c}
  {
    WithNextReads(t[c], EOC);
    var t' := t[c := WithNext(t[c], EOC)];
    forall e | 0 <= e < |t'| ensures Links(t', e) {
      assert Links(t, e);
    }
  }

  lemma NewKept(t: Fat, t': Fat, chains: seq<seq<nat>>, c: nat)
    requires Volume(t, chains) && Does(t, t', chains, New(c))
    ensures Volume(t', chains + [[c]]) && |FreeFrom(t', 2)| == |FreeFrom(t, 2)| - 1
  {
    hide IsChain, InRange, WithNext, Next, FreeFrom;
    var chains' := chains + [[c]];
    NewEntry(t, c);
    InFree(t, c);
    forall i | 0 <= i < |chains| ensures IsChain(t', chains[i]) && c !in chains[i] {
      NewChain(t, chains[i], c);
    }
    assert c in chains'[|chains|];
    forall e: nat | 2 <= e < |t| && Next(t'[e]) != 0 ensures Covered(chains', e) {
      if e != c {
        assert Covered(chains, e);
        var i :| 0 <= i < |chains| && e in chains[i];
        assert e in chains'[i];
      }
    }
  }

  lemma InFree(t: Fat, c: nat)
    requires 2 <= c < |t| && Next(t[c]) == 0
    ensures c in FreeFrom(t, 2)
  {
  }

  // ----- a chain removed -----

  lemma HeadOf(t: Fat, t': Fat, s: seq<nat>)
    requires InRange(t) && |t| <= EOC && IsChain(t, s) && FreedFrom(t, t', s[0])
    ensures |s| >= 1 && |t'| == |t|
  {
  }

  lemma RemoveKept(t: Fat, t': Fat, chains: seq<seq<nat>>, i: nat)
    requires Volume(t, chains) && Does(t, t', chains, Remove(i))
    ensures Volume(t', chains[..i] + chains[i + 1..]) && |FreeFrom(t', 2)| == |FreeFrom(t, 2)| + |chains[i]|
  {
    hide IsChain, FreedFrom, WithNext, Next, InRange, FreeFrom, Disjoint;
    var s := chains[i];
    FreeingChain(t, t', s);
    HeadOf(t, t', s);
    var chains' := chains[..i] + chains[i + 1..];
    forall j | 0 <= j < |chains| && j != i ensures IsChain(t', chains[j]) {
      OthersKeptByFreeing(t, t', s, chains[j]);
    }
    forall c: nat | 2 <= c < |t| && Next(t'[c]) != 0 ensures Covered(chains', c) {
      FreedEntry(t, t', s, c);
      assert Covered(chains, c);
      var j :| 0 <= j < |chains| && c in chains[j];
      assert chains[j] == chains'[if j < i then j else j - 1];
    }
  }

  // ----- a chain grown -----

  lemma GrownEntry(t: Fat, t': Fat, s: seq<nat>, g: seq<nat>, c: nat)
    requires Grown(t, t', s, g) && InRange(t) && c < |t|
    ensures |t'| == |t| && Links(t', c) && (c !in g ==> t'[c] == t[c])
    ensures c in g ==> c >= 2 && Next(t'[c]) != 0
    ensures c in s ==> c in g
    ensures c in g[|s|..] <==> c in g && c !in s
  {
    assert Links(t, c);
    assert g == s + g[|s|..];
    if c in g {
      var k: nat :| k < |g| && g[k] == c;
      assert k + 1 < |g| ==> Next(t'[g[k]]) == g[k + 1];
    }
    forall k, m | 0 <= k < |s| && 0 <= m < |g| - |s| ensures s[k] != g[|s|..][m] {
      assert g[k] != g[|s| + m];
    }
  }

  lemma GrownIsChain(t: Fat, t': Fat, s: seq<nat>, g: seq<nat>)
    requires Grown(t, t', s, g)
    ensures IsChain(t', g) && |t'| == |t| && |s| <= |g|
  {
  }

  lemma GrowKept(t: Fat, t': Fat, chains: seq<seq<nat>>, i: nat, g: seq<nat>)
    requires Volume(t, chains) && Does(t, t', chains, Grow(i, g))
    ensures Volume(t', chains[i := g])
  {
    hide IsChain, Grown, Next, Links, Disjoint;
    var chains' := chains[i := g];
    GrownIsChain(t, t', chains[i], g);
    forall j | 0 <= j < |chains| && j != i
        ensures IsChain(t', chains[j]) && Disjoint(g, chains[j]) && Disjoint(chains[j], g) {
      OtherChain(t, t', chains[i], g, chains[j]);
      DisjointBoth(g, chains[j]);
    }
    forall c: nat | c < |t|
      ensures Links(t', c)
      ensures 2 <= c && Next(t'[c]) != 0 ==> Covered(chains', c)
    {
      GrownEntry(t, t', chains[i], g, c);
      if c in g {
        assert c in chains'[i];
      } else if 2 <= c && Next(t'[c]) != 0 {
        assert Covered(chains, c);
        var j :| 0 <= j < |chains| && c in chains[j];
        assert c in chains'[j];
      }
    }
  }

  lemma DisjointBoth(s: seq<nat>, o: seq<nat>)
    requires Disjoint(s, o)
    ensures Disjoint(o, s)
  {
  }

  lemma GrowCounts(t: Fat, t': Fat, s: seq<nat>, g: seq<nat>)
    requires InRange(t) && |t| <= EOC && Grown(t, t', s, g) && IsChain(t, s)
    ensures |FreeFrom(t', 2)| == |FreeFrom(t, 2)| - (|g| - |s|)
  {
    hide IsChain, WithNext, Next, Links;
    var more := g[|s|..];
    forall c: nat | c < |t|
      ensures c in more ==> 2 <= c && Next(t[c]) == 0
      ensures Next(t'[c]) == 0 <==> Next(t[c]) == 0 && c !in more
    {
      GrownEntry(t, t', s, g, c);
      if c in s && Next(t[c]) == 0 {
        FreeNotInChain(t, s, c);
      }
    }
    GrownDistinct(t, t', s, g);
    assert FreeFrom(t', 2) == FreeFrom(t, 2) - Elems(more);
    assert Elems(more) <= FreeFrom(t, 2);
    SizeOfDistinct(more);
  }

  lemma GrownDistinct(t: Fat, t': Fat, s: seq<nat>, g: seq<nat>)
    requires Grown(t, t', s, g)
    ensures var more := g[|s|..];
            (forall i, j :: 0 <= i < j < |more| ==> more[i] != more[j]) && forall c :: c in more ==> c < |t|
  {
    forall i, j | 0 <= i < j < |g| - |s| ensures g[|s|..][i] != g[|s|..][j] {
      assert g[|s| + i] != g[|s| + j];
    }
  }

  // ----- runs -----

  /** A run: tables and live chains, one step after the other. */
  ghost predicate IsRun(tables: seq<Fat>, live: seq<seq<seq<nat>>>, steps: seq<Step>) {
    && |tables| == |live| == |steps| + 1
    && forall k :: 0 <= k < |steps| ==> StepAt(tables, live, steps, k)
  }

  ghost predicate StepAt(tables: seq<Fat>, live: seq<seq<seq<nat>>>, steps: seq<Step>, k: nat)
    requires |tables| == |live| == |steps| + 1 && k < |steps|
  {
    Does(tables[k], tables[k + 1], live[k], steps[k]) && live[k + 1] == After(live[k], steps[k])
  }

  ghost function TotalChange(live: seq<seq<seq<nat>>>, steps: seq<Step>, k: nat): int
    requires k <= |steps| < |live|
  {
    if k == 0 then 0 else TotalChange(live, steps, k - 1) + FreeChange(live[k - 1], steps[k - 1])
  }

  lemma StepKept(t: Fat, t': Fat, chains: seq<seq<nat>>, e: Step)
    requires Volume(t, chains) && Does(t, t', chains, e)
    ensures Volume(t', After(chains, e)) && |FreeFrom(t', 2)| == |FreeFrom(t, 2)| + FreeChange(chains, e)
  {
    hide IsChain, InRange, Grown, FreedFrom, FreeFrom, Apart, Tight, WithNext, Next;
    match e
    case New(c) => NewKept(t, t', chains, c);
    case Grow(i, g) =>
      GrowKept(t, t', chains, i, g);
      GrowCounts(t, t', chains[i], g);
    case Remove(i) => RemoveKept(t, t', chains, i);
  }

  /** In every state of every run the live chains are finite, acyclic, ended, disjoint and all that
      is in use, and the free entries are what the steps leave: no cluster is lost or shared. */
  lemma {:induction false} RunKept(tables: seq<Fat>, live: seq<seq<seq<nat>>>, steps: seq<Step>, k: nat)
    requires IsRun(tables, live, steps) && Volume(tables[0], live[0]) && k <= |steps|
    ensures Volume(tables[k], live[k])
    ensures |FreeFrom(tables[k], 2)| == |FreeFrom(tables[0], 2)| + TotalChange(live, steps, k)
  {
    hide Volume, Does, After, FreeChange, FreeFrom;
    if k > 0 {
      RunKept(tables, live, steps, k - 1);
      assert StepAt(tables, live, steps, k - 1);
      StepKept(tables[k - 1], tables[k], live[k - 1], steps[k - 1]);
    }
  }
}
