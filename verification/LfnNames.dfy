/** Long names written and read back (src/fs/fat32.c:97-187, 854-936). */
module LfnNames {
  import opened Wrappers
  import opened Words
  import opened Lfn

  /** A string of 1 to 255 bytes. */
  ghost predicate IsName(name: seq<Byte>) {
    1 <= |name| <= 255 && forall i :: 0 <= i < |name| ==> name[i] != 0
  }

  /** How many slots hold the name. */
  function ChunkCount(name: seq<Byte>): (c: nat)
    ensures |name| <= c * CHARS_PER_ENTRY < |name| + CHARS_PER_ENTRY
    ensures 1 <= |name| <= 255 ==> 1 <= c <= MAX_ENTRIES
  {
    (|name| + CHARS_PER_ENTRY - 1) / CHARS_PER_ENTRY
  }

  /** A name can be written exactly when it is not longer than 260 bytes: five more than the reader's
      buffer of 256 bytes takes. */
  lemma WritableNames(name: seq<Byte>)
    ensures ChunkCount(name) <= MAX_ENTRIES <==> |name| <= 260
  {
  }

  /** The j-th 16-bit unit: the character, then one terminator, then padding. */
  function Unit16(name: seq<Byte>, j: nat): (u: nat)
    ensures u < 0x1_0000
  {
    if j < |name| then name[j] else if j == |name| then 0 else 0xFFFF
  }

  /** The slot that holds piece q of the name. */
  ghost predicate HoldsPiece(s: Slot, name: seq<Byte>, q: nat, sum: Byte)
    requires q >= 1
  {
    && s[0] == (if q == ChunkCount(name) then q + LAST_FLAG else q)
    && s[11] == ATTR_LFN && s[12] == 0 && s[13] == sum && s[26] == 0 && s[27] == 0
    && forall k: nat :: k < CHARS_PER_ENTRY ==> Char16(s, k) == Unit16(name, (q - 1) * CHARS_PER_ENTRY + k)
  }

  /** The short entry: the alias, the attributes, the first cluster and size 0. */
  ghost predicate HoldsShort(s: Slot, alias: seq<Byte>, attr: Byte, cluster: nat) {
    && |alias| == 11 && s[..11] == alias && s[11] == attr
    && FirstCluster(s) == cluster && Load32(s, 28) == 0
  }

  /** cluster_high and cluster_low of a short entry */
  function FirstCluster(s: Slot): nat {
    0x1_0000 * ((s[20] as int) + 0x100 * (s[21] as int)) + (s[26] as int) + 0x100 * (s[27] as int)
  }

  /** The slots of a name in directory order: the pieces from the last down to the first, then the short entry. */
  ghost predicate SlotsOf(slots: seq<Slot>, name: seq<Byte>, alias: seq<Byte>, attr: Byte, cluster: nat) {
    && |slots| == ChunkCount(name) + 1
    && (forall c: nat :: c < ChunkCount(name) ==> HoldsPiece(slots[c], name, ChunkCount(name) - c, ChecksumOf(alias)))
    && HoldsShort(slots[ChunkCount(name)], alias, attr, cluster)
  }

  /** The bytes of a piece: its number with the mark of the last one, the attributes, the checksum, and the
      characters, low byte first, at bytes 1 to 10, 14 to 25 and 28 to 31. */
  lemma PieceBytes(s: Slot, name: seq<Byte>, q: nat, sum: Byte, k: nat)
    requires q >= 1 && HoldsPiece(s, name, q, sum) && k < 13
    ensures 13 * (q - 1) < |name| <= 13 * q ==> s[0] == q + 0x40
    ensures 13 * q < |name| ==> s[0] == q
    ensures s[11] == 0x0F && s[12] == 0 && s[13] == sum && s[26] == 0 && s[27] == 0
    ensures var i, j := if k < 5 then 1 + 2 * k else if k < 11 then 4 + 2 * k else 6 + 2 * k, 13 * (q - 1) + k;
            && (j < |name| ==> s[i] == name[j] && s[i + 1] == 0)
            && (j == |name| ==> s[i] == 0 && s[i + 1] == 0)
            && (j > |name| ==> s[i] == 0xFF && s[i + 1] == 0xFF)
  {
    PieceChar(s, name, q, sum, k);
  }

  /** The first cluster of an entry: its high half at byte 20, its low half at byte 26. */
  lemma FirstClusterBytes(s: Slot)
    ensures FirstCluster(s) == Load16(s, 26) + 0x1_0000 * Load16(s, 20)
  {
  }

  // ----- writing -----

  /** One piece, as fat32_add_entry_named fills it in. */
  method WritePiece(name: seq<Byte>, q: nat, sum: Byte) returns (s: Slot)
    requires IsName(name) && 1 <= q <= ChunkCount(name)
    ensures HoldsPiece(s, name, q, sum)
  {
    hide Pos;
    var slot := new Byte[32](i => 0);
    slot[0] := if q == ChunkCount(name) then q + LAST_FLAG else q;
    slot[11], slot[13] := ATTR_LFN, sum;
    var base: nat := (q - 1) * CHARS_PER_ENTRY;
    var ended := false;
    var k: nat := 0;
    ghost var first := slot[0];
    while k < CHARS_PER_ENTRY
      invariant k <= CHARS_PER_ENTRY && ended == (base + k > |name|)
      invariant slot[0] == first && slot[11] == ATTR_LFN && slot[12] == 0 && slot[13] == sum && slot[26] == 0
      invariant slot[27] == 0
      invariant forall m: nat :: m < k ==> Unit(slot[..], m) == Unit16(name, base + m)
    {
      var piece: Byte := if base + k < |name| then name[base + k] else 0;
      var unit: nat;
      if !ended && piece != 0 {
        unit := piece;
      } else if !ended {
        unit := 0;
        ended := true;
      } else {
        unit := 0xFFFF;
      }
      ghost var before := slot[..];
      slot[Pos(k)], slot[Pos(k) + 1] := unit % 0x100, unit / 0x100;
      forall m: nat | m < k ensures Unit(slot[..], m) == Unit(before, m) {
        PosApart(m, k);
      }
      k := k + 1;
    }
    s := slot[..];
    forall m: nat | m < CHARS_PER_ENTRY ensures Char16(s, m) == Unit16(name, base + m) {
      assert Unit(s, m) == Unit16(name, base + m);
    }
  }

  function Unit(s: seq<Byte>, k: nat): nat
    requires |s| == 32 && k < CHARS_PER_ENTRY
  {
    Char16(s, k)
  }

  method WriteShort(alias: seq<Byte>, attr: Byte, cluster: Word32) returns (s: Slot)
    requires |alias| == 11
    ensures HoldsShort(s, alias, attr, cluster)
  {
    var slot := new Byte[32](i => 0);
    forall i | 0 <= i < 11 {
      slot[i] := alias[i];
    }
    slot[11] := attr;
    slot[20], slot[21] := Byte2(cluster), Byte3(cluster);
    slot[26], slot[27] := Byte0(cluster), Byte1(cluster);
    s := slot[..];
    LoadStored(cluster);
    assert s[..11] == alias;
  }

  /** The writing part of fat32_add_entry_named: the reserved slots in order. */
  method WriteSlots(name: seq<Byte>, alias: seq<Byte>, attr: Byte, cluster: Word32) returns (slots: seq<Slot>)
    requires IsName(name) && |alias| == 11
    ensures SlotsOf(slots, name, alias, attr, cluster)
  {
    var count := ChunkCount(name);
    var sum := Checksum(alias);
    slots := [];
    var c: nat := 0;
    while c < count
      invariant c <= count && |slots| == c
      invariant forall b: nat :: b < c ==> HoldsPiece(slots[b], name, count - b, sum)
    {
      var s := WritePiece(name, count - c, sum);
      slots := slots + [s];
      c := c + 1;
    }
    var s := WriteShort(alias, attr, cluster);
    slots := slots + [s];
  }

  // ----- reading back -----

  /** What a name reads as: bytes from 0x80 on become underscores. */
  function Ascii(name: seq<Byte>): (r: seq<Byte>)
    ensures |r| == |name|
  {
    seq(|name|, i requires 0 <= i < |name| => Plain(name[i]))
  }

  lemma AsciiSame(name: seq<Byte>)
    ensures Ascii(name) == name <==> forall i :: 0 <= i < |name| ==> name[i] < 0x80
  {
    forall i | 0 <= i < |name| && Ascii(name) == name ensures name[i] < 0x80 {
      assert Ascii(name)[i] == Plain(name[i]);
    }
  }

  function Cut(name: seq<Byte>, j: nat): (k: nat)
    ensures k <= |name| && k <= j
  {
    if j < |name| then j else |name|
  }

  lemma PieceChar(s: Slot, name: seq<Byte>, q: nat, sum: Byte, k: nat)
    requires q >= 1 && HoldsPiece(s, name, q, sum)
    ensures k < CHARS_PER_ENTRY ==> Char16(s, k) == Unit16(name, (q - 1) * CHARS_PER_ENTRY + k)
  {
    hide Char16, Unit16;
  }

  /** The text of a piece. */
  lemma PieceText(s: Slot, name: seq<Byte>, q: nat, sum: Byte, k: nat)
    requires IsName(name) && q >= 1 && HoldsPiece(s, name, q, sum) && k <= CHARS_PER_ENTRY
    ensures var base := (q - 1) * CHARS_PER_ENTRY;
            TextFrom(s, k) == Ascii(name[Cut(name, base + k)..Cut(name, base + CHARS_PER_ENTRY)])
  {
    hide Char16, Unit16, ChunkCount, Ascii, TextFrom, Cut, IsName;
    TextFromBase(s, name, (q - 1) * CHARS_PER_ENTRY, k);
  }

  lemma {:induction false} TextFromBase(s: Slot, name: seq<Byte>, base: nat, k: nat)
    requires IsName(name) && k <= CHARS_PER_ENTRY
    requires forall j: nat :: j < CHARS_PER_ENTRY ==> Char16(s, j) == Unit16(name, base + j)
    ensures TextFrom(s, k) == Ascii(name[Cut(name, base + k)..Cut(name, base + CHARS_PER_ENTRY)])
    decreases CHARS_PER_ENTRY - k
  {
    TextStep(s, k);
    hide Char16, Ascii, TextFrom, Plain;
    var lo, hi := Cut(name, base + k), Cut(name, base + CHARS_PER_ENTRY);
    if k < CHARS_PER_ENTRY && base + k < |name| {
      TextFromBase(s, name, base, k + 1);
      AsciiFirst(name, base + k, hi);
    } else {
      assert name[lo..hi] == [];
      NoText();
    }
  }

  lemma NoText()
    ensures Ascii([]) == []
  {
  }

  /** One character of a text. */
  lemma TextStep(s: Slot, k: nat)
    requires k <= CHARS_PER_ENTRY
    ensures k == CHARS_PER_ENTRY ==> TextFrom(s, k) == []
    ensures k < CHARS_PER_ENTRY ==>
              TextFrom(s, k) ==
              if Char16(s, k) == 0 || Char16(s, k) == 0xFFFF then [] else [Plain(Char16(s, k))] + TextFrom(s, k + 1)
  {
    hide Char16;
  }

  lemma AsciiFirst(name: seq<Byte>, i: nat, hi: nat)
    requires i < hi <= |name|
    ensures Ascii(name[i..hi]) == [Plain(name[i])] + Ascii(name[i + 1..hi])
  {
    assert name[i..hi] == [name[i]] + name[i + 1..hi];
  }

  /** The reader after the first c slots of a name. */
  ghost predicate Midway(st: State, name: seq<Byte>, sum: Byte, c: nat) {
    var count := ChunkCount(name);
    && |st.texts| == MAX_ENTRIES && 1 <= c <= count <= MAX_ENTRIES
    && st.inProgress && st.total == count && st.checksum == sum && st.next == count - c + 1
    && forall q: nat :: count - c + 1 <= q <= count ==> st.texts[q - 1] == Piece(name, q)
  }

  function Piece(name: seq<Byte>, q: nat): seq<Byte>
    requires q >= 1
  {
    Ascii(name[Cut(name, (q - 1) * CHARS_PER_ENTRY)..Cut(name, q * CHARS_PER_ENTRY)])
  }

  /** What the reader takes from a piece. */
  lemma PieceRead(s: Slot, name: seq<Byte>, q: nat, sum: Byte)
    requires IsName(name) && 1 <= q <= ChunkCount(name) && HoldsPiece(s, name, q, sum)
    ensures s[11] == ATTR_LFN && s[13] == sum && s[0] % 32 == q <= MAX_ENTRIES
    ensures s[0] / LAST_FLAG % 2 == 1 <==> q == ChunkCount(name)
    ensures TextFrom(s, 0) == Piece(name, q)
  {
    hide Char16, Unit16, TextFrom;
    PieceHead(s, name, q, sum);
    PieceText(s, name, q, sum, 0);
    hide HoldsPiece;
  }

  lemma PieceHead(s: Slot, name: seq<Byte>, q: nat, sum: Byte)
    requires IsName(name) && 1 <= q <= ChunkCount(name) && HoldsPiece(s, name, q, sum)
    ensures s[11] == ATTR_LFN && s[13] == sum && s[0] % 32 == q <= MAX_ENTRIES
    ensures s[0] / LAST_FLAG % 2 == 1 <==> q == ChunkCount(name)
  {
    hide Char16, Unit16, ChunkCount;
  }

  lemma FirstPiece(st: State, s: Slot, name: seq<Byte>, sum: Byte)
    requires IsName(name) && HoldsPiece(s, name, ChunkCount(name), sum)
    requires |st.texts| == MAX_ENTRIES && st.total <= MAX_ENTRIES
    ensures Midway(Fed(st, s).0, name, sum, 1) && Fed(st, s).1 == None
  {
    hide TextFrom, Piece, HoldsPiece;
    PieceRead(s, name, ChunkCount(name), sum);
  }

  lemma NextPiece(st: State, s: Slot, name: seq<Byte>, sum: Byte, c: nat)
    requires IsName(name) && c < ChunkCount(name) && HoldsPiece(s, name, ChunkCount(name) - c, sum)
    requires Midway(st, name, sum, c)
    ensures Midway(Fed(st, s).0, name, sum, c + 1) && Fed(st, s).1 == None
  {
    hide TextFrom, Piece, HoldsPiece;
    PieceRead(s, name, ChunkCount(name) - c, sum);
  }

  lemma {:induction false} JoinedPieces(texts: seq<seq<Byte>>, name: seq<Byte>, k: nat)
    requires k <= |texts| && forall q: nat :: 1 <= q <= k ==> texts[q - 1] == Piece(name, q)
    ensures Joined(texts, k) == Ascii(name[..Cut(name, k * CHARS_PER_ENTRY)])
  {
    if k > 0 {
      JoinedPieces(texts, name, k - 1);
      var lo, hi := Cut(name, (k - 1) * CHARS_PER_ENTRY), Cut(name, k * CHARS_PER_ENTRY);
      assert texts[k - 1] == Piece(name, k);
      assert name[..hi] == name[..lo] + name[lo..hi];
      assert Ascii(name[..hi]) == Ascii(name[..lo]) + Ascii(name[lo..hi]);
    }
  }

  lemma ShortEnds(st: State, s: Slot, name: seq<Byte>, alias: seq<Byte>, attr: Byte, cluster: nat)
    requires IsName(name) && Midway(st, name, ChecksumOf(alias), ChunkCount(name))
    requires HoldsShort(s, alias, attr, cluster) && attr != ATTR_LFN
    ensures Fed(st, s).1 == Some(Ascii(name)) && !Fed(st, s).0.inProgress
  {
    JoinedPieces(st.texts, name, ChunkCount(name));
    assert name[..Cut(name, ChunkCount(name) * CHARS_PER_ENTRY)] == name;
  }

  /** The accumulator after some slots. */
  ghost function FedAll(st: State, slots: seq<Slot>): (r: State)
    requires |st.texts| == MAX_ENTRIES && st.total <= MAX_ENTRIES
    ensures |r.texts| == MAX_ENTRIES && r.total <= MAX_ENTRIES
  {
    if slots == [] then st else Fed(FedAll(st, slots[..|slots| - 1]), slots[|slots| - 1]).0
  }

  lemma {:induction false} MidwayAfter(st: State, slots: seq<Slot>, name: seq<Byte>, alias: seq<Byte>, attr: Byte,
      cluster: nat, c: nat)
    requires IsName(name) && SlotsOf(slots, name, alias, attr, cluster) && 1 <= c <= ChunkCount(name)
    requires |st.texts| == MAX_ENTRIES && st.total <= MAX_ENTRIES
    ensures Midway(FedAll(st, slots[..c]), name, ChecksumOf(alias), c)
    ensures Fed(FedAll(st, slots[..c - 1]), slots[c - 1]).1 == None
  {
    hide HoldsPiece, Midway, Fed;
    assert slots[..c][..c - 1] == slots[..c - 1];
    if c == 1 {
      FirstPiece(FedAll(st, []), slots[0], name, ChecksumOf(alias));
    } else {
      MidwayAfter(st, slots, name, alias, attr, cluster, c - 1);
      NextPiece(FedAll(st, slots[..c - 1]), slots[c - 1], name, ChecksumOf(alias), c - 1);
    }
  }

  /** Round trip: from any state of the accumulator, the slots of a name give it back at the short
      entry and at no slot before, byte for byte exactly when all its bytes are below 0x80. */
  lemma NameReadBack(st: State, slots: seq<Slot>, name: seq<Byte>, alias: seq<Byte>, attr: Byte, cluster: nat)
    requires IsName(name) && SlotsOf(slots, name, alias, attr, cluster) && attr != ATTR_LFN
    requires |st.texts| == MAX_ENTRIES && st.total <= MAX_ENTRIES
    ensures forall c: nat :: c < ChunkCount(name) ==> Fed(FedAll(st, slots[..c]), slots[c]).1 == None
    ensures var last := Fed(FedAll(st, slots[..ChunkCount(name)]), slots[ChunkCount(name)]);
            last.1 == Some(Ascii(name)) && !last.0.inProgress
    ensures Ascii(name) == name <==> forall i :: 0 <= i < |name| ==> name[i] < 0x80
  {
    hide HoldsPiece, Midway, Fed;
    AsciiSame(name);
    forall c: nat | c < ChunkCount(name) ensures Fed(FedAll(st, slots[..c]), slots[c]).1 == None {
      MidwayAfter(st, slots, name, alias, attr, cluster, c + 1);
    }
    MidwayAfter(st, slots, name, alias, attr, cluster, ChunkCount(name));
    ShortEnds(FedAll(st, slots[..ChunkCount(name)]), slots[ChunkCount(name)], name, alias, attr, cluster);
  }

  const HIGH_BYTE: seq<Byte> := [0x80]

  /** A name of the one byte 0x80 reads back as an underscore. */
  lemma HighByteLost(st: State, slots: seq<Slot>, alias: seq<Byte>, attr: Byte, cluster: nat)
    requires SlotsOf(slots, HIGH_BYTE, alias, attr, cluster) && attr != ATTR_LFN
    requires |st.texts| == MAX_ENTRIES && st.total <= MAX_ENTRIES
    ensures ChunkCount(HIGH_BYTE) == 1 && Fed(FedAll(st, slots[..1]), slots[1]).1 == Some([0x5F])
  {
    hide Fed, FedAll, SlotsOf;
    NameReadBack(st, slots, HIGH_BYTE, alias, attr, cluster);
    assert Ascii(HIGH_BYTE) == [0x5F];
  }
}
