/** Long file names in directory slots (Microsoft FAT32 File System Specification, section
    "FAT Long Directory Entries"; src/fs/fat32.c:97-187, 854-936). */
module Lfn {
  import opened Wrappers
  import opened Words

  const MAX_ENTRIES: nat := 20
  const CHARS_PER_ENTRY: nat := 13
  const ATTR_LFN: Byte := 0x0F
  const LAST_FLAG: nat := 0x40

  type Slot = s: seq<Byte> | |s| == 32 witness seq(32, _ => 0)

  // ----- checksum -----

  /** One step of the rotating sum, in 8-bit arithmetic. */
  function Rotate(sum: Byte, c: Byte): Byte {
    ((if sum % 2 == 1 then 0x80 else 0) + sum / 2 + c) % 0x100
  }

  /** A rotation right by one bit, which rotating left undoes, and an addition of bytes. */
  lemma RotateIs(sum: Byte, c: Byte)
    ensures Rotate(sum, c) == (Rotate(sum, 0) + c) % 0x100
    ensures Rotate(sum, 0) % 0x80 * 2 + Rotate(sum, 0) / 0x80 == sum
  {
  }

  function ChecksumOf(name: seq<Byte>): Byte {
    if name == [] then 0 else Rotate(ChecksumOf(name[..|name| - 1]), name[|name| - 1])
  }

  lemma SumOn(name: seq<Byte>, c: Byte, was: Byte)
    requires ChecksumOf(name) == was
    ensures ChecksumOf(name + [c]) == Rotate(was, c)
  {
    assert (name + [c])[..|name|] == name;
  }

  lemma SumOfBase()
    ensures ChecksumOf([0x52, 0x45, 0x41, 0x44, 0x4D, 0x45]) == 0x0B
  {
    assert ChecksumOf([]) == 0;
    hide ChecksumOf;
    var s: seq<Byte> := [];
    SumOn(s, 0x52, 0x00);
    s := s + [0x52];
    SumOn(s, 0x45, 0x52);
    s := s + [0x45];
    SumOn(s, 0x41, 0x6E);
    s := s + [0x41];
    SumOn(s, 0x44, 0x78);
    s := s + [0x44];
    SumOn(s, 0x4D, 0x80);
    s := s + [0x4D];
    SumOn(s, 0x45, 0x8D);
    s := s + [0x45];
    assert s == [0x52, 0x45, 0x41, 0x44, 0x4D, 0x45];
  }

  /** The checksum of "README~1TXT". */
  lemma SumOfReadme()
    ensures ChecksumOf([0x52, 0x45, 0x41, 0x44, 0x4D, 0x45, 0x7E, 0x31, 0x54, 0x58, 0x54]) == 0x6B
  {
    SumOfBase();
    hide ChecksumOf;
    var s: seq<Byte> := [0x52, 0x45, 0x41, 0x44, 0x4D, 0x45];
    SumOn(s, 0x7E, 0x0B);
    s := s + [0x7E];
    SumOn(s, 0x31, 0x03);
    s := s + [0x31];
    SumOn(s, 0x54, 0xB2);
    s := s + [0x54];
    SumOn(s, 0x58, 0xAD);
    s := s + [0x58];
    SumOn(s, 0x54, 0x2E);
    s := s + [0x54];
    assert s == [0x52, 0x45, 0x41, 0x44, 0x4D, 0x45, 0x7E, 0x31, 0x54, 0x58, 0x54];
  }

  /** lfn_checksum */
  method Checksum(name: seq<Byte>) returns (sum: Byte)
    requires |name| == 11
    ensures sum == ChecksumOf(name)
  {
    sum := 0;
    for i := 0 to 11
      invariant sum == ChecksumOf(name[..i])
    {
      assert name[..i + 1][..i] == name[..i];
      sum := Rotate(sum, name[i]);
    }
    assert name[..11] == name;
  }

  // ----- characters of a slot -----

  /** Where the k-th of the 13 characters is: name1, name2 or name3. */
  function Pos(k: nat): (p: nat)
    requires k < CHARS_PER_ENTRY
    ensures 1 <= p <= 9 || 14 <= p <= 24 || 28 <= p <= 30
  {
    if k < 5 then 1 + 2 * k else if k < 11 then 14 + 2 * (k - 5) else 28 + 2 * (k - 11)
  }

  lemma PosApart(k: nat, m: nat)
    requires k < m < CHARS_PER_ENTRY
    ensures Pos(k) + 1 < Pos(m)
  {
  }

  function Char16(s: Slot, k: nat): nat
    requires k < CHARS_PER_ENTRY
  {
    (s[Pos(k)] as int) + 0x100 * (s[Pos(k) + 1] as int)
  }

  /** The string of a slot from character k on. */
  function TextFrom(s: Slot, k: nat): seq<Byte>
    requires k <= CHARS_PER_ENTRY
    decreases CHARS_PER_ENTRY - k
  {
    if k == CHARS_PER_ENTRY then []
    else
      var ch := Char16(s, k);
      if ch == 0 || ch == 0xFFFF then [] else [Plain(ch)] + TextFrom(s, k + 1)
  }

  function Plain(ch: nat): Byte {
    if ch < 0x80 then ch else 0x5F // '_'
  }

  // ----- the reader -----

  /** What the accumulator knows; texts are its chunks as strings. */
  datatype State = State(inProgress: bool, next: nat, total: nat, checksum: Byte, texts: seq<seq<Byte>>)

  function Reset(st: State): State {
    st.(inProgress := false, next := 0, total := 0)
  }

  function Joined(texts: seq<seq<Byte>>, k: nat): seq<Byte>
    requires k <= |texts|
  {
    if k == 0 then [] else Joined(texts, k - 1) + texts[k - 1]
  }

  /** What lfn_feed_entry does with a slot: the new state, and the name if there is one. */
  function Fed(st: State, s: Slot): (State, Option<seq<Byte>>)
    requires |st.texts| == MAX_ENTRIES && st.total <= MAX_ENTRIES
  {
    if s[11] == ATTR_LFN then
      var q := s[0] % 32;
      if q == 0 || q > MAX_ENTRIES then (Reset(st), None)
      else if s[0] / LAST_FLAG % 2 == 1 then
        (State(true, q, q, s[13], st.texts[q - 1 := TextFrom(s, 0)]), None)
      else if !st.inProgress || s[13] != st.checksum || q != st.next - 1 then (Reset(st), None)
      else (st.(next := q, texts := st.texts[q - 1 := TextFrom(s, 0)]), None)
    else
      (Reset(st),
       if st.inProgress && st.next == 1 && ChecksumOf(s[..11]) == st.checksum then Some(Joined(st.texts, st.total))
           else None)
  }

  /** A row of bytes as a string, from byte i on. */
  function CString(row: seq<Byte>, i: nat): seq<Byte>
    requires i <= |row|
    decreases |row| - i
  {
    if i == |row| || row[i] == 0 then [] else [row[i]] + CString(row, i + 1)
  }

  /** A row that holds the characters and then 0 is the text of the slot. */
  lemma {:induction false} RowIs(row: seq<Byte>, s: Slot, k: nat, i: nat)
    requires i <= k <= CHARS_PER_ENTRY < |row| && row[k] == 0
    requires forall j :: 0 <= j < k ==> var ch := Char16(s, j); ch != 0 && ch != 0xFFFF && row[j] == Plain(ch)
    requires k < CHARS_PER_ENTRY ==> Char16(s, k) == 0 || Char16(s, k) == 0xFFFF
    ensures CString(row, i) == TextFrom(s, i)
    decreases k - i
  {
    if i < k {
      RowIs(row, s, k, i + 1);
    }
  }

  /** lfn_accum_t: the chunks are strings in rows of 14 bytes. */
  class Accum {
    const chunks: array2<Byte>
    var total: nat
    var next: nat
    var inProgress: bool
    var checksum: Byte

    constructor ()
      ensures Valid() && fresh(chunks) && !inProgress
    {
      chunks := new Byte[MAX_ENTRIES, CHARS_PER_ENTRY + 1];
      total, next, inProgress, checksum := 0, 0, false, 0;
    }

    ghost predicate Valid()
      reads this
    {
      chunks.Length0 == MAX_ENTRIES && chunks.Length1 == CHARS_PER_ENTRY + 1 && total <= MAX_ENTRIES
    }

    ghost function Row(r: nat): (row: seq<Byte>)
      reads chunks
      requires r < chunks.Length0
      ensures |row| == chunks.Length1
    {
      seq(chunks.Length1, i requires 0 <= i < chunks.Length1 reads chunks => chunks[r, i])
    }

    ghost function Texts(): (t: seq<seq<Byte>>)
      reads chunks
      ensures |t| == chunks.Length0
    {
      seq(chunks.Length0, r requires 0 <= r < chunks.Length0 reads chunks => CString(Row(r), 0))
    }

    ghost function Value(): State
      reads this, chunks
      requires Valid()
    {
      State(inProgress, next, total, checksum, Texts())
    }

    /** lfn_accum_reset */
    method Clear()
      requires Valid()
      modifies this
      ensures Valid() && Value() == Reset(old(Value()))
    {
      inProgress, next, total := false, 0, 0;
    }

    /** lfn_extract_chars into row r. */
    method Extract(s: Slot, r: nat)
      requires Valid() && r < MAX_ENTRIES
      modifies chunks
      ensures Texts() == old(Texts())[r := TextFrom(s, 0)]
    {
      ghost var before := Texts();
      var k: nat := 0;
      while k < CHARS_PER_ENTRY
        invariant k <= CHARS_PER_ENTRY
        invariant forall i :: 0 <= i < k ==>
          var ch := Char16(s, i); ch != 0 && ch != 0xFFFF && chunks[r, i] == Plain(ch)
        invariant forall q, i :: 0 <= q < MAX_ENTRIES && q != r && 0 <= i <= CHARS_PER_ENTRY ==>
          chunks[q, i] == old(chunks[q, i])
      {
        var ch := Char16(s, k);
        if ch == 0 || ch == 0xFFFF {
          chunks[r, k] := 0;
          RowIs(Row(r), s, k, 0);
          assert forall q: nat :: q < MAX_ENTRIES && q != r ==> Row(q) == old(Row(q));
          return;
        }
        chunks[r, k] := Plain(ch);
        k := k + 1;
      }
      chunks[r, CHARS_PER_ENTRY] := 0;
      RowIs(Row(r), s, CHARS_PER_ENTRY, 0);
      assert forall q: nat :: q < MAX_ENTRIES && q != r ==> Row(q) == old(Row(q));
    }

    /** strcat of all chunks in order */
    method Join() returns (name: seq<Byte>)
      requires Valid()
      ensures name == Joined(Texts(), total)
    {
      name := [];
      for i := 0 to total
        invariant name == Joined(Texts(), i)
      {
        var j: nat := 0;
        ghost var base := name;
        while j <= CHARS_PER_ENTRY && chunks[i, j] != 0
          invariant j <= CHARS_PER_ENTRY + 1 && name + CString(Row(i), j) == base + CString(Row(i), 0)
        {
          name := name + [chunks[i, j]];
          j := j + 1;
        }
      }
    }

    /** lfn_feed_entry */
    method Feed(s: Slot) returns (name: Option<seq<Byte>>)
      requires Valid()
      modifies this, chunks
      ensures Valid() && (Value(), name) == Fed(old(Value()), s)
    {
      name := None;
      if s[11] == ATTR_LFN {
        var q: nat := s[0] % 32;
        if q == 0 || q > MAX_ENTRIES {
          Clear();
          return;
        }
        if s[0] / LAST_FLAG % 2 == 1 {
          Clear();
          inProgress, checksum, total, next := true, s[13], q, q;
        } else if !inProgress || s[13] != checksum || q != next - 1 {
          Clear();
          return;
        } else {
          next := q;
        }
        Extract(s, q - 1);
        return;
      }
      if inProgress && next == 1 {
        var sum := Checksum(s[..11]);
        if sum == checksum {
          var joined := Join();
          name := Some(joined);
        }
      }
      Clear();
    }
  }
}
