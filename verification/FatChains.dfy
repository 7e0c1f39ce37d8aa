/** What freeing and growing do to the chains of a file allocation table (src/fs/fat32.c). */
module FatChains {
  import opened FatTable

  // ----- walking a table, cyclic or not -----

  /** A walk ends at 0 and at the end markers. */
  predicate Stop(c: nat) {
    c == 0 || c >= EOC
  }

  /** Every link of the table ends a walk or names an entry of the table. */
  ghost predicate InRange(t: Fat) {
    forall c :: 0 <= c < |t| ==> Links(t, c)
  }

  ghost predicate Links(t: Fat, c: nat)
    requires c < |t|
  {
    Stop(Next(t[c])) || Next(t[c]) < |t|
  }

  /** The cluster after k steps from start. */
  ghost function At(t: Fat, start: nat, k: nat): (c: nat)
    requires InRange(t) && start < |t| <= EOC
    ensures Stop(c) || c < |t|
  {
    if k == 0 then start
    else
      var c := At(t, start, k - 1);
      if Stop(c) then c else
        assert Links(t, c);
        Next(t[c])
  }

  ghost predicate Reached(t: Fat, start: nat, c: nat)
    requires InRange(t) && start < |t| <= EOC
  {
    !Stop(c) && exists k: nat :: At(t, start, k) == c
  }

  lemma ReachedStep(t: Fat, start: nat, c: nat)
    requires InRange(t) && start < |t| <= EOC && Reached(t, start, c)
    ensures c < |t| && (Stop(Next(t[c])) || Reached(t, start, Next(t[c])))
  {
    var k: nat :| At(t, start, k) == c;
    assert At(t, start, k + 1) == Next(t[c]);
  }

  /** A set that is closed under links and holds the start holds all that is reached. */
  lemma {:induction false} ClosedHolds(t: Fat, start: nat, done: set<nat>, k: nat)
    requires InRange(t) && start < |t| <= EOC
    requires Stop(start) || start in done
    requires forall c :: c in done ==> c < |t| && (Stop(Next(t[c])) || Next(t[c]) in done)
    ensures Stop(At(t, start, k)) || At(t, start, k) in done
  {
    if k > 0 {
      ClosedHolds(t, start, done, k - 1);
    }
  }

  /** The entries reached are zeroed below their top four bits, the others stay. */
  ghost predicate FreedFrom(t: Fat, t': Fat, start: nat)
    requires InRange(t) && start < |t| <= EOC
  {
    |t'| == |t| && forall c: nat :: c < |t| ==> t'[c] == if Reached(t, start, c) then WithNext(t[c], 0) else t[c]
  }

  /** The loop of fat32_free_chain: what was seen so far is freed, and only current is to be seen yet. */
  ghost predicate Freeing(t: Fat, now: Fat, start: nat, done: set<nat>, current: nat) {
    && InRange(t) && start < |t| <= EOC
    && |now| == |t|
    && (forall c: nat :: c < |t| ==> now[c] == if c in done then WithNext(t[c], 0) else t[c])
    && (forall c :: c in done ==> SeenOn(t, start, done, current, c))
    && (Stop(current) || (current < |t| && Reached(t, start, current)))
    && (start in done || start == current)
  }

  ghost predicate SeenOn(t: Fat, start: nat, done: set<nat>, current: nat, c: nat)
    requires InRange(t) && start < |t| <= EOC
  {
    && c < |t| && Reached(t, start, c)
    && (Stop(Next(t[c])) || Next(t[c]) in done || Next(t[c]) == current)
  }

  predicate IsEntry(t: Fat, c: nat) {
    c < |t|
  }

  ghost function Entries(t: Fat): set<nat> {
    set c: nat | c < |t| && IsEntry(t, c)
  }

  lemma FreeingStarts(t: Fat, start: nat)
    requires InRange(t) && start < |t| <= EOC && !Stop(start)
    ensures Freeing(t, t, start, {}, start)
  {
    assert At(t, start, 0) == start;
  }

  /** One turn of the loop: an entry met again reads 0. */
  lemma FreedStep(t: Fat, start: nat, was: Fat, done: set<nat>, c: nat)
    requires Freeing(t, was, start, done, c) && !Stop(c)
    ensures c < |was| && Freeing(t, was[c := WithNext(was[c], 0)], start, done + {c}, Next(was[c]))
    ensures Entries(t) - (done + {c}) <= Entries(t) - done
    ensures c !in done ==> c in Entries(t) - done
    ensures c in done ==> Next(was[c]) == 0
  {
    WithNextReads(t[c], 0);
    WithNextReads(was[c], 0);
    ReachedStep(t, start, c);
    assert Links(t, c);
    assert IsEntry(t, c);
    var next := Next(was[c]);
    forall d | d in done + {c} ensures SeenOn(t, start, done + {c}, next, d) {
      assert d in done ==> SeenOn(t, start, done, c, d);
    }
  }

  /** Freeing the set of all that was seen, once the walk is over, is freeing what is reached. */
  lemma FreedAll(t: Fat, now: Fat, start: nat, done: set<nat>, current: nat)
    requires Freeing(t, now, start, done, current) && Stop(current) && !Stop(start)
    ensures FreedFrom(t, now, start)
  {
    forall c | c in done ensures c < |t| && (Stop(Next(t[c])) || Next(t[c]) in done) {
      assert SeenOn(t, start, done, current, c);
    }
    forall c: nat | c < |t| ensures Reached(t, start, c) <==> c in done {
      assert c in done ==> SeenOn(t, start, done, current, c);
      if Reached(t, start, c) {
        var k: nat :| At(t, start, k) == c;
        ClosedHolds(t, start, done, k);
      }
    }
  }

  // ----- chains -----

  lemma {:induction false} AlongChain(t: Fat, s: seq<nat>, k: nat)
    requires IsChain(t, s) && InRange(t) && |t| <= EOC
    ensures k < |s| ==> At(t, s[0], k) == s[k]
    ensures k >= |s| ==> At(t, s[0], k) >= EOC
  {
    if k > 0 {
      AlongChain(t, s, k - 1);
    }
  }

  /** What is reached from the head of a chain is the chain. */
  lemma ReachedChain(t: Fat, s: seq<nat>, c: nat)
    requires IsChain(t, s) && InRange(t) && |t| <= EOC
    ensures Reached(t, s[0], c) <==> c in s
  {
    if c in s {
      var k: nat :| k < |s| && s[k] == c;
      AlongChain(t, s, k);
    }
    if Reached(t, s[0], c) {
      var k: nat :| At(t, s[0], k) == c;
      AlongChain(t, s, k);
    }
  }

  /** Clusters free for allocation from entry h on. */
  ghost function FreeFrom(t: Fat, h: nat): (f: set<nat>) {
    set c: nat | h <= c < |t| && Next(t[c]) == 0
  }

  lemma FreedEntry(t: Fat, t': Fat, s: seq<nat>, c: nat)
    requires IsChain(t, s) && InRange(t) && |t| <= EOC && FreedFrom(t, t', s[0]) && c < |t|
    ensures t'[c] == if c in s then WithNext(t[c], 0) else t[c]
    ensures Next(t'[c]) == (if c in s then 0 else Next(t[c])) && Links(t', c)
    ensures c in s ==> c >= 2 && Next(t[c]) != 0
  {
    if c in s {
      var i: nat :| i < |s| && s[i] == c;
      assert i < |s| - 1 ==> Next(t[s[i]]) == s[i + 1];
    }
    ReachedChain(t, s, c);
    WithNextReads(t[c], 0);
    assert Links(t, c);
  }

  /** Freeing a chain adds exactly its clusters to the free ones. */
  lemma FreeingChain(t: Fat, t': Fat, s: seq<nat>)
    requires IsChain(t, s) && InRange(t) && |t| <= EOC && FreedFrom(t, t', s[0])
    ensures FreeFrom(t', 2) == FreeFrom(t, 2) + Elems(s)
    ensures |FreeFrom(t', 2)| == |FreeFrom(t, 2)| + |s|
    ensures InRange(t')
  {
    hide WithNext, Next, Links, Reached;
    assert |t'| == |t|;
    forall c: nat | c < |t|
      ensures Next(t'[c]) == (if c in s then 0 else Next(t[c])) && Links(t', c)
      ensures c in s ==> c >= 2 && Next(t[c]) != 0
    {
      FreedEntry(t, t', s, c);
    }
    FreeSetGrows(t, t', s);
  }

  lemma FreeSetGrows(t: Fat, t': Fat, s: seq<nat>)
    requires |t'| == |t|
    requires forall i :: 0 <= i < |s| ==> s[i] < |t|
    requires forall i, j :: 0 <= i < j < |s| ==> s[i] != s[j]
    requires forall c: nat :: c < |t| ==> Next(t'[c]) == if c in s then 0 else Next(t[c])
    requires forall c: nat :: c < |t| && c in s ==> c >= 2 && Next(t[c]) != 0
    ensures FreeFrom(t', 2) == FreeFrom(t, 2) + Elems(s)
    ensures |FreeFrom(t', 2)| == |FreeFrom(t, 2)| + |s|
  {
    hide Next;
    var mine := Elems(s);
    SizeOfDistinct(s);
    assert FreeFrom(t, 2) !! mine;
    assert FreeFrom(t', 2) == FreeFrom(t, 2) + mine;
  }

  ghost function Elems(s: seq<nat>): set<nat> {
    set c | c in s
  }

  lemma {:induction false} SizeOfDistinct(s: seq<nat>)
    requires forall i, j :: 0 <= i < j < |s| ==> s[i] != s[j]
    ensures |Elems(s)| == |s|
  {
    if s == [] {
      assert Elems(s) == {};
    } else {
      var r := s[..|s| - 1];
      var last := s[|s| - 1];
      SizeOfDistinct(r);
      assert last !in r;
      forall c ensures c in Elems(s) <==> c in r || c == last {
        assert s == r + [last];
      }
      assert Elems(s) == Elems(r) + {last};
    }
  }

  /** Another chain, disjoint from the freed one, is kept. */
  lemma OthersKeptByFreeing(t: Fat, t': Fat, s: seq<nat>, o: seq<nat>)
    requires IsChain(t, s) && InRange(t) && |t| <= EOC && FreedFrom(t, t', s[0])
    requires IsChain(t, o) && Disjoint(s, o)
    ensures IsChain(t', o)
  {
    forall c | c in o ensures t'[c] == t[c] {
      ReachedChain(t, s, c);
    }
    ChainKept(t, t', o);
  }

  // ----- allocation -----

  /** The entries passed over before r in the cyclic scan from h. */
  predicate Passed(h: nat, r: nat, c: nat) {
    if h <= r then h <= c < r else h <= c < LIMIT || 2 <= c < r
  }

  /** The entries passed over after k steps of the scan from h. */
  predicate PassedBy(h: nat, k: nat, c: nat) {
    (h <= c < LIMIT && c < h + k) || (2 <= c && c + (LIMIT - 2) < h + k)
  }

  /** The k-th cluster of the scan. */
  function Scan(h: nat, k: nat): (c: nat)
    requires 2 <= h < LIMIT && k <= LIMIT - 2
    ensures 2 <= c < LIMIT
  {
    if h + k < LIMIT then h + k else h + k - (LIMIT - 2)
  }

  /** r is the first free entry of the cyclic scan. */
  ghost predicate FirstFree(t: Fat, h: nat, r: nat) {
    && 2 <= r < LIMIT && r < |t| && Next(t[r]) == 0
    && (forall c: nat :: Passed(h, r, c) ==> c < |t| && Next(t[c]) != 0)
  }

  ghost predicate NoneFree(t: Fat) {
    |t| >= LIMIT && forall c: nat :: 2 <= c < LIMIT ==> Next(t[c]) != 0
  }

  /** The scan for k clusters, one after the other, stays inside the table. */
  ghost predicate Ready(t: Fat, h: nat, k: nat) {
    |t| >= LIMIT || |FreeFrom(t, h)| >= k
  }

  /** Where a scan starts. */
  function Hint(h: nat): (r: nat)
    ensures 2 <= r < LIMIT
  {
    if h < 2 || h >= LIMIT then 2 else h
  }

  lemma ReadyFinds(t: Fat, h: nat) returns (w: nat)
    requires Ready(t, h, 1) && |t| < LIMIT
    ensures w in FreeFrom(t, h)
  {
    assert FreeFrom(t, h) == {} ==> |FreeFrom(t, h)| == 0;
    w :| w in FreeFrom(t, h);
  }

  /** After an allocation one free entry less lies ahead. */
  lemma ReadyAfter(t: Fat, h: nat, r: nat, k: nat)
    requires Ready(t, h, k + 1) && FirstFree(t, h, r) && 2 <= h < LIMIT
    ensures Ready(t[r := WithNext(t[r], EOC)], Hint(r + 1), k)
  {
    if |t| < LIMIT {
      var t' := t[r := WithNext(t[r], EOC)];
      WithNextReads(t[r], EOC);
      assert !Passed(h, r, |t|);
      assert FreeFrom(t', r + 1) == FreeFrom(t, h) - {r} by {
        forall c: nat | c in FreeFrom(t, h) && c != r ensures c in FreeFrom(t', r + 1) {
          assert !Passed(h, r, c);
        }
      }
    }
  }

  ghost predicate NonePassed(t: Fat, h: nat, k: nat) {
    forall c: nat :: PassedBy(h, k, c) ==> c < |t| && Next(t[c]) != 0
  }

  lemma NonePassedYet(t: Fat, h: nat)
    requires 2 <= h < LIMIT
    ensures NonePassed(t, h, 0) && Scan(h, 0) == h
  {
  }

  /** The scan looks at entries of the table only. */
  lemma ScanInside(t: Fat, h: nat, k: nat)
    requires Ready(t, h, 1) && 2 <= h < LIMIT && k < LIMIT - 2 && NonePassed(t, h, k)
    ensures Scan(h, k) < |t|
  {
    if |t| < LIMIT {
      var w := ReadyFinds(t, h);
      assert !PassedBy(h, k, w);
    }
  }

  /** The scan looks at an entry behind the end of the table. */
  ghost predicate LeavesTable(t: Fat, h: nat)
    requires 2 <= h < LIMIT
  {
    exists k: nat :: k < LIMIT - 2 && NonePassed(t, h, k) && Scan(h, k) >= |t|
  }

  /** That happens exactly in a table that ends in front of the scan's limit and has no free entry
      from the hint on, even if one is free in front of the hint. */
  lemma LeavesExactly(t: Fat, h: nat)
    requires 2 <= h < LIMIT
    ensures LeavesTable(t, h) <==> |t| < LIMIT && FreeFrom(t, h) == {}
    ensures LeavesTable(t, h) <==> !Ready(t, h, 1)
  {
    assert |FreeFrom(t, h)| == 0 <==> FreeFrom(t, h) == {};
    if Ready(t, h, 1) {
      forall k: nat | k < LIMIT - 2 && NonePassed(t, h, k) ensures Scan(h, k) < |t| {
        ScanInside(t, h, k);
      }
    } else {
      var k: nat := if h >= |t| then 0 else |t| - h;
      forall c: nat | PassedBy(h, k, c) ensures c < |t| && Next(t[c]) != 0 {
        assert c !in FreeFrom(t, h);
      }
      assert NonePassed(t, h, k);
    }
  }

  /** A table of 16 entries of which only entry 2 is free, and the hint behind it. */
  lemma ShortTableLeft(t: Fat)
    requires |t| == 16 && forall c :: 0 <= c < 16 ==> t[c] == if c == 2 then 0 else EOC
    ensures Next(t[2]) == 0 && LeavesTable(t, 3)
  {
    assert FreeFrom(t, 3) == {};
    LeavesExactly(t, 3);
  }

  /** What the scan stops at is the first free entry, or there is none. */
  lemma ScanStops(t: Fat, h: nat, k: nat)
    requires 2 <= h < LIMIT && NonePassed(t, h, k) && k <= LIMIT - 2
    ensures k < LIMIT - 2 && Scan(h, k) < |t| && Next(t[Scan(h, k)]) == 0 ==> FirstFree(t, h, Scan(h, k))
    ensures k == LIMIT - 2 ==> NoneFree(t)
  {
    if k == LIMIT - 2 {
      forall c: nat | 2 <= c < LIMIT ensures c < |t| && Next(t[c]) != 0 {
        assert PassedBy(h, k, c);
      }
      assert PassedBy(h, k, LIMIT - 1);
    } else {
      forall c: nat | Passed(h, Scan(h, k), c) ensures c < |t| && Next(t[c]) != 0 {
        assert PassedBy(h, k, c);
      }
    }
  }

  lemma ScanOn(t: Fat, h: nat, k: nat)
    requires 2 <= h < LIMIT && NonePassed(t, h, k) && k < LIMIT - 2
    requires Scan(h, k) < |t| && Next(t[Scan(h, k)]) != 0
    ensures NonePassed(t, h, k + 1)
    ensures Scan(h, k + 1) == if Scan(h, k) + 1 >= LIMIT then 2 else Scan(h, k) + 1
  {
    forall c: nat | PassedBy(h, k + 1, c) ensures c < |t| && Next(t[c]) != 0 {
      assert PassedBy(h, k, c) || c == Scan(h, k);
    }
  }
}
