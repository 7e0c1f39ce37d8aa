/** 8.3 names (src/fs/fat32.c:65-70, 189-229). */
module FatNames {
  import opened Words
  import opened ShortNames

  function FirstDot(name: seq<Byte>): (d: nat)
    ensures d <= |name| && (d < |name| ==> name[d] == DOT)
    ensures forall i :: 0 <= i < d ==> name[i] != DOT
  {
    if name == [] || name[0] == DOT then 0
    else
      var d := FirstDot(name[1..]);
      assert forall i :: 0 < i < d + 1 ==> name[i] == name[1..][i - 1];
      d + 1
  }

  function Cut(s: seq<Byte>, k: nat): seq<Byte> {
    if |s| <= k then s else s[..k]
  }

  function Padded(s: seq<Byte>, k: nat): (r: seq<Byte>)
    requires |s| <= k
    ensures |r| == k
  {
    s + Spaces(k - |s|)
  }

  function ExtPart(name: seq<Byte>): seq<Byte> {
    var d := FirstDot(name);
    if d < |name| then name[d + 1..] else []
  }

  /** The name in 8.3 form: upper case, cut and padded. */
  function Format83(name: seq<Byte>): (r: seq<Byte>)
    ensures |r| == 11
  {
    Padded(UpperAll(Cut(name[..FirstDot(name)], 8)), 8) + Padded(UpperAll(Cut(ExtPart(name), 3)), 3)
  }

  /** The 8.3 form, byte by byte: the name up to its first dot at d, then what follows the dot. */
  lemma Format83Bytes(name: seq<Byte>, d: nat, k: nat)
    requires d <= |name| && (d < |name| ==> name[d] == 0x2E) && forall i :: 0 <= i < d ==> name[i] != 0x2E
    requires k < 11
    ensures var j := if k < 8 then k else d + 1 + (k - 8);
            Format83(name)[k] ==
            if if k < 8 then j < d else j < |name| then
              (if 0x61 <= name[j] <= 0x7A then name[j] - 0x20 else name[j])
            else 0x20
  {
    assert FirstDot(name) == d;
    hide FirstDot;
  }

  predicate Lower(c: Byte) {
    0x61 <= c <= 0x7A
  }

  /** One stem of 1 to 8 characters, at most one dot, up to 3 behind it; no spaces, no lower case. */
  predicate Fits83(name: seq<Byte>) {
    && 1 <= FirstDot(name) <= 8 && |ExtPart(name)| <= 3 && DOT !in ExtPart(name)
    && forall i :: 0 <= i < |name| ==> name[i] != SPACE && !Lower(name[i])
  }

  /** name_fits_83 */
  method NameFits83(name: seq<Byte>) returns (fits: bool)
    ensures fits == Fits83(name)
  {
    var len: nat, dots: nat, baseLen: nat, extLen: nat := 0, 0, 0, 0;
    var inExt := false;
    ghost var d := FirstDot(name);
    while len < |name|
      invariant len <= |name| && inExt == (len > d) && dots == (if inExt then 1 else 0)
      invariant baseLen == (if inExt then d else len) && extLen == (if inExt then len - d - 1 else 0)
      invariant baseLen <= 8 && extLen <= 3
      invariant forall i :: 0 <= i < len ==> name[i] != SPACE && !Lower(name[i])
      invariant forall i :: d < i < len ==> name[i] != DOT
    {
      if len > 12 {
        return false;
      }
      var c := name[len];
      if c == DOT {
        dots := dots + 1;
        if dots > 1 {
          assert ExtPart(name)[len - d - 1] == DOT;
          return false;
        }
        inExt := true;
      } else {
        if c == SPACE || Lower(c) {
          return false;
        }
        if inExt {
          extLen := extLen + 1;
          if extLen > 3 {
            return false;
          }
        } else {
          baseLen := baseLen + 1;
          if baseLen > 8 {
            return false;
          }
        }
      }
      len := len + 1;
    }
    fits := baseLen > 0;
    forall i | 0 <= i < |ExtPart(name)| ensures ExtPart(name)[i] != DOT {
      assert ExtPart(name)[i] == name[d + 1 + i];
    }
  }

  /** The bytes of the 8.3 form, from the two parts of the name. */
  lemma FormatBytes(name: seq<Byte>, out: seq<Byte>, n: nat, m: nat)
    requires |out| == 11 && n == |Cut(name[..FirstDot(name)], 8)| && m == |Cut(ExtPart(name), 3)|
    requires forall k :: 0 <= k < n ==> out[k] == Upper(name[k])
    requires forall k :: n <= k < 8 || 8 + m <= k < 11 ==> out[k] == SPACE
    requires var d := FirstDot(name); d + 1 + m <= |name| || m == 0
    requires var d := FirstDot(name); forall k :: 8 <= k < 8 + m ==> out[k] == Upper(name[d + 1 + (k - 8)])
    ensures out == Format83(name)
  {
    hide FirstDot;
    var d := FirstDot(name);
    assert out[..8] == Padded(UpperAll(Cut(name[..d], 8)), 8);
    assert out[8..] == Padded(UpperAll(Cut(ExtPart(name), 3)), 3);
    assert out == out[..8] + out[8..];
  }

  lemma BaseLength(name: seq<Byte>, n: nat)
    requires n <= FirstDot(name) && n <= 8 && (n == FirstDot(name) || n == 8)
    ensures |Cut(name[..FirstDot(name)], 8)| == n
  {
    hide FirstDot;
  }

  lemma ExtLength(name: seq<Byte>, m: nat)
    requires var d := FirstDot(name);
             if d < |name| then m <= 3 && d + 1 + m <= |name| && (m == 3 || d + 1 + m == |name|) else m == 0
    ensures |Cut(ExtPart(name), 3)| == m
  {
    hide FirstDot;
  }

  /** format_83_name */
  method FormatName(input: seq<Byte>) returns (out: seq<Byte>)
    ensures out == Format83(input)
  {
    hide FirstDot, Upper, Format83, Cut, ExtPart;
    var output := new Byte[11](i => SPACE);
    var i: nat, j: nat := 0, 0;
    ghost var d := FirstDot(input);
    while i < |input| && input[i] != DOT && j < 8
      invariant i == j <= 8 && i <= d
      invariant forall k :: 0 <= k < j ==> output[k] == Upper(input[k])
      invariant forall k :: j <= k < 11 ==> output[k] == SPACE
    {
      output[j] := Upper(input[i]);
      i, j := i + 1, j + 1;
    }
    ghost var n: nat := j;
    BaseLength(input, n);
    while i < |input| && input[i] != DOT
      invariant i <= d
    {
      i := i + 1;
    }
    if i < |input| {
      i := i + 1;
      j := 8;
      while i < |input| && j < 11
        invariant d + 1 <= i <= |input| && 8 <= j <= 11 && i - d - 1 == j - 8
        invariant forall k :: 0 <= k < n ==> output[k] == Upper(input[k])
        invariant forall k :: n <= k < 8 || j <= k < 11 ==> output[k] == SPACE
        invariant forall k :: 8 <= k < j ==> output[k] == Upper(input[d + 1 + (k - 8)])
      {
        output[j] := Upper(input[i]);
        i, j := i + 1, j + 1;
      }
      ExtLength(input, j - 8);
      FormatBytes(input, output[..], n, j - 8);
    } else {
      ExtLength(input, 0);
      FormatBytes(input, output[..], n, 0);
    }
    out := output[..];
  }

  /** The 8.3 form of a name that fits never looks like a free or deleted slot. */
  lemma FitsNotFree(name: seq<Byte>)
    requires Fits83(name) && 0 < name[0] < 0x80
    ensures 0 < Format83(name)[0] < 0x80
  {
  }

  /** Nor does an alias. */
  lemma AliasNotFree(name: seq<Byte>, num: nat)
    requires |Digits(num)| <= 6 && forall i :: 0 <= i < |name| ==> 0 < name[i] < 0x80
    ensures 0 < AliasOf(name, num)[0] < 0x80
  {
    hide Digits;
    var d := LastDot(name, |name|);
    BaseChars(name, if d == -1 then |name| else d);
  }

  lemma {:induction false} BaseChars(name: seq<Byte>, i: nat)
    requires i <= |name| && forall k :: 0 <= k < |name| ==> 0 < name[k] < 0x80
    ensures forall k :: 0 <= k < |BaseOf(name, i)| ==> 0 < BaseOf(name, i)[k] < 0x80
  {
    if i > 0 {
      BaseChars(name, i - 1);
    }
  }
}
