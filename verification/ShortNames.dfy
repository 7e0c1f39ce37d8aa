/** Short aliases of long names (src/fs/fat32.c:231-272, 846-852). */
module ShortNames {
  import opened Words

  const MAX_ALIAS: nat := 999_999
  const SPACE: Byte := 0x20
  const DOT: Byte := 0x2E
  const TILDE: Byte := 0x7E

  function Upper(c: Byte): Byte {
    if 0x61 <= c <= 0x7A then c - 0x20 else c
  }

  // ----- base and extension -----

  /** The index of the last dot before i, or -1. */
  function LastDot(name: seq<Byte>, i: nat): (d: int)
    requires i <= |name|
    ensures -1 <= d < i
  {
    if i == 0 then -1 else if name[i - 1] == DOT then i - 1 else LastDot(name, i - 1)
  }

  /** Upper-case characters of the first i, without spaces and dots, at most eight. */
  function BaseOf(name: seq<Byte>, i: nat): (b: seq<Byte>)
    requires i <= |name|
    ensures |b| <= 8
  {
    if i == 0 then []
    else
      var b := BaseOf(name, i - 1);
      if |b| == 8 || name[i - 1] == SPACE || name[i - 1] == DOT then b else b + [Upper(name[i - 1])]
  }

  function ExtOf(name: seq<Byte>): (e: seq<Byte>)
    ensures |e| <= 3
  {
    var d := LastDot(name, |name|);
    if d == -1 then []
    else
      var n := if |name| - d - 1 < 3 then |name| - d - 1 else 3;
      UpperAll(name[d + 1..d + 1 + n])
  }

  function UpperAll(s: seq<Byte>): (r: seq<Byte>)
    ensures |r| == |s|
  {
    seq(|s|, i requires 0 <= i < |s| => Upper(s[i]))
  }

  function Base(name: seq<Byte>): (b: seq<Byte>)
    ensures 1 <= |b| <= 8
  {
    var d := LastDot(name, |name|);
    var b := BaseOf(name, if d == -1 then |name| else d);
    if b == [] then [0x5F] else b
  }

  /** A name without its spaces and dots, in upper case. */
  function Plainly(name: seq<Byte>): seq<Byte> {
    if name == [] then []
    else
      var c := name[|name| - 1];
      Plainly(name[..|name| - 1])
      + if c == 0x20 || c == 0x2E then [] else if 0x61 <= c <= 0x7A then [c - 0x20] else [c]
  }

  /** The base is what comes in front of the last dot, without spaces and dots, in upper case, up to the
      eighth character. */
  lemma {:induction false} BaseIs(name: seq<Byte>, i: nat)
    requires i <= |name|
    ensures BaseOf(name, i) ==
            if |Plainly(name[..i])| <= 8 then Plainly(name[..i]) else Plainly(name[..i])[..8]
  {
    if i > 0 {
      assert name[..i][..i - 1] == name[..i - 1];
      BaseIs(name, i - 1);
    }
  }

  /** The extension is what follows the last dot, in upper case, up to the third character. */
  lemma ExtIs(name: seq<Byte>, d: nat)
    requires d < |name| && name[d] == 0x2E && forall j :: d < j < |name| ==> name[j] != 0x2E
    ensures LastDot(name, |name|) == d && |ExtOf(name)| == if |name| - d - 1 < 3 then |name| - d - 1 else 3
    ensures forall k :: 0 <= k < |ExtOf(name)| ==>
              ExtOf(name)[k] == var c := name[d + 1 + k]; if 0x61 <= c <= 0x7A then c - 0x20 else c
  {
    LastDotIs(name, |name|, d);
  }

  lemma {:induction false} LastDotIs(name: seq<Byte>, i: nat, d: nat)
    requires d < i <= |name| && name[d] == DOT && forall j :: d < j < i ==> name[j] != DOT
    ensures LastDot(name, i) == d
  {
    if d < i - 1 {
      LastDotIs(name, i - 1, d);
    }
  }

  // ----- the number -----

  function Digits(n: nat): (s: seq<Byte>)
    ensures |s| >= 1 && forall i :: 0 <= i < |s| ==> 0x30 <= s[i] <= 0x39
  {
    var last: Byte := 0x30 + n % 10;
    if n < 10 then [last] else Digits(n / 10) + [last]
  }

  /** The number that decimal digits stand for. */
  function Decimal(s: seq<Byte>): int {
    if s == [] then 0 else 10 * Decimal(s[..|s| - 1]) + s[|s| - 1] - 0x30
  }

  lemma {:induction false} DigitsValue(n: nat)
    ensures Decimal(Digits(n)) == n
  {
    if n >= 10 {
      DigitsValue(n / 10);
      assert Digits(n)[..|Digits(n)| - 1] == Digits(n / 10);
    } else {
      assert Digits(n)[..0] == [];
    }
  }

  lemma {:induction false} DigitsUnique(n: nat, m: nat)
    requires Digits(n) == Digits(m)
    ensures n == m
    decreases n
  {
    var s := Digits(n);
    assert s[|s| - 1] == 0x30 + n % 10 == 0x30 + m % 10;
    if n >= 10 && m >= 10 {
      assert Digits(n / 10) == s[..|s| - 1] == Digits(m / 10);
      DigitsUnique(n / 10, m / 10);
    }
  }

  lemma {:induction false} DigitsCount(n: nat, k: nat, bound: nat)
    requires k >= 1 && n < bound && bound == Power10(k)
    ensures |Digits(n)| <= k
    decreases k
  {
    if n >= 10 {
      assert k > 1;
      DigitsCount(n / 10, k - 1, Power10(k - 1));
    }
  }

  function Power10(k: nat): nat {
    if k == 0 then 1 else 10 * Power10(k - 1)
  }

  lemma AtMostSix(n: nat)
    requires n <= MAX_ALIAS
    ensures |Digits(n)| <= 6
  {
    assert Power10(3) == 1000;
    assert Power10(6) == 1_000_000;
    DigitsCount(n, 6, 1_000_000);
  }

  // ----- the alias -----

  function Spaces(k: nat): (s: seq<Byte>)
    ensures |s| == k
  {
    seq(k, _ => SPACE)
  }

  /** The part of the base that is kept in front of the number. */
  function Kept(name: seq<Byte>, num: nat): (k: nat)
    requires |Digits(num)| <= 6
    ensures 1 <= k <= |Base(name)| && k + 1 + |Digits(num)| <= 8
  {
    var room := 7 - |Digits(num)|;
    if |Base(name)| > room then room else |Base(name)|
  }

  /** BASE~N, padded to eight characters, and the extension, padded to three. */
  function Stem(name: seq<Byte>, num: nat): (s: seq<Byte>)
    requires |Digits(num)| <= 6
    ensures |s| == 8
  {
    var k := Kept(name, num);
    Base(name)[..k] + [TILDE] + Digits(num) + Spaces(7 - k - |Digits(num)|)
  }

  function AliasOf(name: seq<Byte>, num: nat): (a: seq<Byte>)
    requires |Digits(num)| <= 6
    ensures |a| == 11
  {
    Stem(name, num) + ExtOf(name) + Spaces(3 - |ExtOf(name)|)
  }

  /** The first alias of "a b.c" is "AB~1    C  ". */
  lemma AliasOfShort()
    ensures |Digits(1)| == 1
    ensures AliasOf([0x61, 0x20, 0x62, 0x2E, 0x63], 1) ==
            [0x41, 0x42, 0x7E, 0x31, 0x20, 0x20, 0x20, 0x20, 0x43, 0x20, 0x20]
  {
    var name: seq<Byte> := [0x61, 0x20, 0x62, 0x2E, 0x63];
    ExtIs(name, 3);
    assert BaseOf(name, 0) == [] && BaseOf(name, 1) == [0x41] && BaseOf(name, 2) == [0x41];
    assert BaseOf(name, 3) == [0x41, 0x42];
    assert ExtOf(name) == [0x43];
    assert Stem(name, 1) == [0x41, 0x42] + [0x7E] + [0x31] + [0x20, 0x20, 0x20, 0x20];
  }

  /** The tilde in front of the number is the last one of the stem. */
  lemma LastTilde(name: seq<Byte>, num: nat, i: nat)
    requires |Digits(num)| <= 6 && i < 8
    ensures Stem(name, num)[Kept(name, num)] == TILDE
    ensures i > Kept(name, num) ==> Stem(name, num)[i] != TILDE
    ensures var k := Kept(name, num);
        k < i <= k + |Digits(num)| ==> Stem(name, num)[i] == Digits(num)[i - k - 1] && Stem(name, num)[i] != SPACE
    ensures i > Kept(name, num) + |Digits(num)| ==> Stem(name, num)[i] == SPACE
  {
  }

  /** No two numbers give a name the same alias, even when it has tildes of its own. */
  lemma AliasInjective(name: seq<Byte>, n: nat, m: nat)
    requires n <= MAX_ALIAS && m <= MAX_ALIAS
    ensures |Digits(n)| <= 6 && |Digits(m)| <= 6
    ensures AliasOf(name, n) == AliasOf(name, m) <==> n == m
  {
    AtMostSix(n);
    AtMostSix(m);
    if AliasOf(name, n) == AliasOf(name, m) {
      SameStem(name, n, m);
      DigitsUnique(n, m);
    }
  }

  lemma SameStem(name: seq<Byte>, n: nat, m: nat)
    requires |Digits(n)| <= 6 && |Digits(m)| <= 6 && AliasOf(name, n) == AliasOf(name, m)
    ensures Digits(n) == Digits(m)
  {
    assert Stem(name, n) == AliasOf(name, n)[..8] == AliasOf(name, m)[..8] == Stem(name, m);
    hide Stem, Digits, AliasOf, Kept;
    SameTilde(name, n, m);
    SameLength(name, n, m);
    SameDigits(name, n, m);
  }

  /** Equal stems have their last tildes at the same place. */
  lemma SameTilde(name: seq<Byte>, n: nat, m: nat)
    requires |Digits(n)| <= 6 && |Digits(m)| <= 6 && Stem(name, n) == Stem(name, m)
    ensures Kept(name, n) == Kept(name, m)
  {
    hide Stem, Digits, Kept;
    LastTilde(name, n, Kept(name, n));
    LastTilde(name, m, Kept(name, m));
    LastTilde(name, n, Kept(name, m));
    LastTilde(name, m, Kept(name, n));
  }

  /** Behind the tilde, as many characters are no spaces. */
  lemma SameLength(name: seq<Byte>, n: nat, m: nat)
    requires |Digits(n)| <= 6 && |Digits(m)| <= 6 && Stem(name, n) == Stem(name, m) && Kept(name, n) == Kept(name, m)
    ensures |Digits(n)| == |Digits(m)|
  {
    hide Stem, Digits, Kept;
    var x, y := Kept(name, n) + |Digits(n)|, Kept(name, m) + |Digits(m)|;
    LastTilde(name, n, if x < y then y else x);
    LastTilde(name, m, if x < y then y else x);
  }

  lemma SameDigits(name: seq<Byte>, n: nat, m: nat)
    requires |Digits(n)| <= 6 && |Digits(m)| == |Digits(n)| && Stem(name, n) == Stem(name, m)
    requires Kept(name, n) == Kept(name, m)
    ensures Digits(n) == Digits(m)
  {
    hide Stem, Digits, Kept;
    forall i: nat | i < |Digits(n)| ensures Digits(n)[i] == Digits(m)[i] {
      LastTilde(name, n, Kept(name, n) + 1 + i);
      LastTilde(name, m, Kept(name, n) + 1 + i);
    }
  }

  // ----- the search for an unused alias -----

  ghost function Aliases(name: seq<Byte>, k: nat): (s: set<seq<Byte>>)
    requires k <= MAX_ALIAS
  {
    if k == 0 then {} else
      AtMostSix(k);
      Aliases(name, k - 1) + {AliasOf(name, k)}
  }

  lemma {:induction false} AliasesHold(name: seq<Byte>, k: nat, a: seq<Byte>) returns (n: nat)
    requires k <= MAX_ALIAS && a in Aliases(name, k)
    ensures 1 <= n <= k && |Digits(n)| <= 6 && a == AliasOf(name, n)
  {
    AtMostSix(k);
    if a == AliasOf(name, k) {
      n := k;
    } else {
      n := AliasesHold(name, k - 1, a);
    }
  }

  lemma {:induction false} AliasesCount(name: seq<Byte>, k: nat)
    requires k <= MAX_ALIAS
    ensures |Aliases(name, k)| == k
  {
    hide AliasOf;
    if k > 0 {
      AliasesCount(name, k - 1);
      AtMostSix(k);
      if AliasOf(name, k) in Aliases(name, k - 1) {
        var n := AliasesHold(name, k - 1, AliasOf(name, k));
        AliasInjective(name, n, k);
      }
    }
  }

  ghost predicate AllUsed(name: seq<Byte>, used: set<seq<Byte>>, k: nat)
    requires k <= MAX_ALIAS
  {
    Aliases(name, k) <= used
  }

  /** The first k aliases cannot all be used by fewer than k names. */
  lemma Pigeonhole(name: seq<Byte>, used: set<seq<Byte>>, k: nat)
    requires k <= MAX_ALIAS && AllUsed(name, used, k)
    ensures |used| >= k
  {
    AliasesCount(name, k);
    SubsetSize(Aliases(name, k), used);
  }

  lemma {:induction false} SubsetSize(a: set<seq<Byte>>, b: set<seq<Byte>>)
    requires a <= b
    ensures |a| <= |b|
  {
    if a != {} {
      var x :| x in a;
      SubsetSize(a - {x}, b - {x});
    }
  }

  // ----- the loops -----

  /** The loop that looks for the last dot. */
  method FindDot(name: seq<Byte>) returns (dot: int)
    ensures dot == LastDot(name, |name|)
  {
    dot := -1;
    for j := 0 to |name|
      invariant dot == LastDot(name, j)
    {
      if name[j] == DOT {
        dot := j;
      }
    }
  }

  /** The loop that collects the base, up to the last dot. */
  method CollectBase(name: seq<Byte>, end: nat) returns (base: seq<Byte>)
    requires end <= |name|
    ensures base == BaseOf(name, end)
  {
    base := [];
    var i: nat := 0;
    while i < end && |base| < 8
      invariant i <= end && base == BaseOf(name, i)
    {
      if name[i] != SPACE && name[i] != DOT {
        base := base + [Upper(name[i])];
      }
      i := i + 1;
    }
    BaseFull(name, i, end);
  }

  /** The loop that collects the extension, from behind the last dot. */
  method CollectExt(name: seq<Byte>, start: nat) returns (ext: seq<Byte>)
    requires start <= |name|
    ensures ext == UpperAll(name[start..if |name| - start < 3 then |name| else start + 3])
  {
    hide Upper;
    ext := [];
    var j: nat := start;
    while j < |name| && |ext| < 3
      invariant start <= j <= |name| && j == start + |ext| && |ext| <= 3
      invariant ext == UpperAll(name[start..j])
    {
      assert name[start..j + 1] == name[start..j] + [name[j]];
      ext := ext + [Upper(name[j])];
      j := j + 1;
    }
  }

  /** The loops that take the name apart. */
  method Split(name: seq<Byte>) returns (base: seq<Byte>, ext: seq<Byte>)
    ensures base == Base(name) && ext == ExtOf(name)
  {
    hide LastDot, BaseOf, UpperAll;
    var dot := FindDot(name);
    base := CollectBase(name, if dot == -1 then |name| else dot);
    if base == [] {
      base := [0x5F];
    }
    ext := [];
    if dot != -1 {
      ext := CollectExt(name, dot + 1);
    }
  }

  lemma {:induction false} BaseFull(name: seq<Byte>, i: nat, end: nat)
    requires i <= end <= |name| && (i == end || |BaseOf(name, i)| == 8)
    ensures BaseOf(name, end) == BaseOf(name, i)
  {
    if i < end {
      BaseFull(name, i, end - 1);
    }
  }

  /** The digits, from the last to the first. */
  method DigitsBackwards(num: nat) returns (tmp: seq<Byte>)
    ensures Reversed(tmp) == Digits(num)
  {
    var n: nat := num;
    tmp := [0x30 + n % 10];
    n := n / 10;
    while n != 0
      invariant Digits(num) == if n == 0 then Reversed(tmp) else Digits(n) + Reversed(tmp)
      decreases n
    {
      var digit: Byte := 0x30 + n % 10;
      assert (tmp + [digit])[..|tmp|] == tmp;
      assert Reversed(tmp + [digit]) == [digit] + Reversed(tmp);
      tmp := tmp + [digit];
      n := n / 10;
    }
  }

  /** The tilde, and the digits turned round. */
  method NumberTail(num: nat) returns (tail: seq<Byte>)
    ensures tail == [TILDE] + Digits(num)
  {
    hide Digits;
    var tmp := DigitsBackwards(num);
    tail := [TILDE];
    var t: nat := |tmp|;
    assert tmp[..|tmp|] == tmp;
    while t != 0
      invariant t <= |tmp| && tail + Reversed(tmp[..t]) == [TILDE] + Reversed(tmp)
      decreases t
    {
      assert tmp[..t][..t - 1] == tmp[..t - 1];
      t := t - 1;
      tail := tail + [tmp[t]];
    }
  }

  function Reversed(s: seq<Byte>): seq<Byte> {
    if s == [] then [] else [s[|s| - 1]] + Reversed(s[..|s| - 1])
  }

  /** generate_short_alias */
  method GenerateAlias(name: seq<Byte>, num: nat) returns (alias: seq<Byte>)
    requires num <= MAX_ALIAS
    ensures |Digits(num)| <= 6 && alias == AliasOf(name, num)
  {
    AtMostSix(num);
    var out := new Byte[11](i => SPACE);
    var base, ext := Split(name);
    var tail := NumberTail(num);
    var room: nat := 8 - |tail|;
    var k: nat := if |base| > room then room else |base|;
    forall i | 0 <= i < k {
      out[i] := base[i];
    }
    forall i | 0 <= i < |tail| {
      out[k + i] := tail[i];
    }
    forall i | 0 <= i < |ext| {
      out[8 + i] := ext[i];
    }
    alias := out[..];
    AliasBytes(name, num, alias);
  }

  lemma AliasBytes(name: seq<Byte>, num: nat, a: seq<Byte>)
    requires |Digits(num)| <= 6 && |a| == 11
    requires var k, tail := Kept(name, num), [TILDE] + Digits(num);
             forall i :: 0 <= i < 11 ==> a[i] == if i < k then Base(name)[i] else if i < k + |tail| then tail[i - k]
                                                 else if 8 <= i < 8 + |ExtOf(name)| then ExtOf(name)[i - 8] else SPACE
    ensures a == AliasOf(name, num)
  {
    hide Base, Digits, ExtOf;
  }
}
