/** The file allocation table as a sequence of 32-bit entries, and its chains
    (Microsoft FAT32 File System Specification; src/fs/fat32.c). */
module FatTable {
  import opened Words

  const EOC: nat := 0xFFF_FFF8      // FAT32_EOC_MARKER
  const LIMIT: nat := 0xFFF_FFF0    // where fat32_allocate_cluster stops
  const TWO_28: nat := 0x1000_0000

  // ----- entries -----

  /** What get_next_cluster makes of an entry. */
  function Next(raw: Word32): (r: nat)
    ensures r < TWO_28
  {
    raw % TWO_28
  }

  /** What set_next_cluster makes of it: the top four bits stay. */
  function WithNext(raw: Word32, v: nat): Word32 {
    raw / TWO_28 * TWO_28 + v % TWO_28
  }

  lemma WithNextReads(raw: Word32, v: nat)
    ensures Next(raw) == raw % 0x1000_0000 && Next(WithNext(raw, v)) == v % 0x1000_0000
    ensures WithNext(raw, v) / 0x1000_0000 == raw / 0x1000_0000
  {
  }

  // ----- chains -----

  type Fat = seq<Word32>

  /** The clusters of a file in order: distinct, linked, the last one marked as the end. */
  ghost predicate IsChain(fat: Fat, s: seq<nat>) {
    && |s| >= 1
    && (forall i :: 0 <= i < |s| ==> 2 <= s[i] < |fat|)
    && (forall i, j :: 0 <= i < j < |s| ==> s[i] != s[j])
    && (forall i :: 0 <= i < |s| - 1 ==> Next(fat[s[i]]) == s[i + 1])
    && Next(fat[s[|s| - 1]]) >= EOC
  }

  ghost predicate Disjoint(s: seq<nat>, t: seq<nat>) {
    forall c :: c in s ==> c !in t
  }

  lemma LinkOf(t: Fat, s: seq<nat>, k: nat)
    requires IsChain(t, s) && k < |s|
    ensures 2 <= s[k] < |t|
    ensures if k + 1 < |s| then Next(t[s[k]]) == s[k + 1] else Next(t[s[k]]) >= EOC
  {
  }

  lemma ChainNonEmpty(t: Fat, s: seq<nat>)
    requires IsChain(t, s)
    ensures |s| >= 1
  {
  }

  /** A chain is determined by its first cluster. */
  lemma ChainUnique(fat: Fat, s: seq<nat>, t: seq<nat>)
    requires IsChain(fat, s) && IsChain(fat, t) && s[0] == t[0] && |fat| <= EOC
    ensures s == t
  {
    var m := if |s| < |t| then |s| else |t|;
    SameUpTo(fat, s, t, m);
    assert s[m - 1] == s[..m][m - 1] == t[..m][m - 1] == t[m - 1];
    LinkOf(fat, s, m - 1);
    LinkOf(fat, t, m - 1);
  }

  lemma {:induction false} SameUpTo(fat: Fat, s: seq<nat>, t: seq<nat>, i: nat)
    requires IsChain(fat, s) && IsChain(fat, t) && s[0] == t[0] && 1 <= i <= |s| && i <= |t|
    ensures s[..i] == t[..i]
  {
    if i > 1 {
      SameUpTo(fat, s, t, i - 1);
      assert s[i - 2] == s[..i - 1][i - 2] == t[..i - 1][i - 2] == t[i - 2];
      assert Next(fat[s[i - 2]]) == s[i - 1] && Next(fat[t[i - 2]]) == t[i - 1];
    }
  }

  /** Changing entries outside a chain keeps it. */
  lemma ChainKept(fat: Fat, fat': Fat, s: seq<nat>)
    requires IsChain(fat, s) && |fat'| == |fat|
    requires forall c :: c in s ==> fat'[c] == fat[c]
    ensures IsChain(fat', s)
  {
  }
}
