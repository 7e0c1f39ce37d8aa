/** Bytes, and words of 32 and 64 bits. */
module Words {
  type Byte = x: int | 0 <= x < 256

  const TWO_32: nat := 0x1_0000_0000
  const TWO_64: nat := 0x1_0000_0000_0000_0000

  type Word32 = x: nat | x < TWO_32

  type Word64 = x: nat | x < TWO_64

  // ----- words as bytes, least significant first -----

  function Load32(s: seq<Byte>, off: nat): Word32
    requires off + 4 <= |s|
  {
    (s[off] as int) + 0x100 * (s[off + 1] as int) + 0x1_0000 * (s[off + 2] as int) + 0x100_0000 * (s[off + 3] as int)
  }

  function Byte0(v: Word32): Byte { v % 0x100 }
  function Byte1(v: Word32): Byte { v / 0x100 % 0x100 }
  function Byte2(v: Word32): Byte { v / 0x1_0000 % 0x100 }
  function Byte3(v: Word32): Byte { v / 0x100_0000 }

  lemma LoadStored(v: Word32)
    ensures Load32([Byte0(v), Byte1(v), Byte2(v), Byte3(v)], 0) == v
  {
    assert v / 0x1_0000 == v / 0x100 / 0x100;
    assert v / 0x100_0000 == v / 0x100 / 0x100 / 0x100;
  }

  function Load16(s: seq<Byte>, off: nat): nat
    requires off + 2 <= |s|
  {
    (s[off] as int) + 0x100 * (s[off + 1] as int)
  }

  function Low(v: Word64): Word32 { v % TWO_32 }

  function High(v: Word64): Word32 { v / TWO_32 }

  function Load64(s: seq<Byte>, o: nat): Word64
    requires o + 8 <= |s|
  {
    Load32(s, o) + TWO_32 * Load32(s, o + 4)
  }

  /** The number that bytes stand for, least significant first. */
  function Value(s: seq<Byte>): nat {
    if s == [] then 0 else s[0] + 0x100 * Value(s[1..])
  }

  lemma LoadsAreValues(s: seq<Byte>, o: nat)
    ensures o + 2 <= |s| ==> Load16(s, o) == Value(s[o..o + 2])
    ensures o + 4 <= |s| ==> Load32(s, o) == Value(s[o..o + 4])
    ensures o + 8 <= |s| ==> Load64(s, o) == Value(s[o..o + 8])
  {
    if o + 2 <= |s| {
      ValueOn(s, o, 1);
      ValueOn(s, o + 1, 0);
    }
    if o + 4 <= |s| {
      ValueOfFour(s, o);
    }
    if o + 8 <= |s| {
      ValueOfFour(s, o + 4);
      ValueOn(s, o, 7);
      ValueOn(s, o + 1, 6);
      ValueOn(s, o + 2, 5);
      ValueOn(s, o + 3, 4);
    }
  }

  lemma ValueOn(s: seq<Byte>, o: nat, k: nat)
    requires o + k + 1 <= |s|
    ensures Value(s[o..o + k + 1]) == s[o] + 0x100 * Value(s[o + 1..o + k + 1])
    ensures Value(s[o + 1..o + 1]) == 0
  {
    assert s[o..o + k + 1][1..] == s[o + 1..o + k + 1];
  }

  lemma ValueOfFour(s: seq<Byte>, o: nat)
    requires o + 4 <= |s|
    ensures Load32(s, o) == Value(s[o..o + 4])
  {
    ValueOn(s, o, 3);
    ValueOn(s, o + 1, 2);
    ValueOn(s, o + 2, 1);
    ValueOn(s, o + 3, 0);
  }
}
