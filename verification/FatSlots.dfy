/** A directory as the 32-byte slots of its cluster chain (src/fs/fat32.c:477-521). */
module FatSlots {
  import opened Words
  import opened FatDriver
  import opened FatBytes
  import opened Lfn
  import opened FatCreate

  // ----- slots -----

  function SlotIn(b: seq<Byte>, o: nat): Slot
    requires o + 32 <= |b|
  {
    b[o..o + 32]
  }

  /** The slots of the chain, in order. */
  ghost function Slots(d: Disk, a: Area, s: seq<nat>): (r: seq<Slot>)
    requires a.spc >= 1 && Clusters(s)
    ensures |r| == |s| * a.spc * 16
  {
    seq(|s| * a.spc * 16, i requires 0 <= i < |s| * a.spc * 16 => SlotIn(Bytes(d, a, s), i * 32))
  }

  /** A slot lies in one sector. */
  lemma SlotPlace(d: Disk, a: Area, s: seq<nat>, i: nat)
    requires a.spc >= 1 && Clusters(s) && i < |s| * a.spc * 16
    ensures i / 16 < |s| * a.spc
    ensures Slots(d, a, s)[i] == SlotIn(d[SectorOf(a, s, i / 16)], i % 16 * 32)
  {
    hide SectorOf, ByteAt;
    var b, sec := Bytes(d, a, s), d[SectorOf(a, s, i / 16)];
    var x, y := SlotIn(b, i * 32), SlotIn(sec, i % 16 * 32);
    forall j: nat | j < 32 ensures x[j] == y[j] {
      assert (i * 32 + j) / 512 == i / 16 && (i * 32 + j) % 512 == i % 16 * 32 + j;
      assert b[i * 32 + j] == ByteAt(d, a, s, i * 32 + j);
      InSector(d, a, s, i * 32 + j);
    }
  }

  /** The same from the start of the data area: slot i is 32 bytes of a sector that is i / 16 sectors
      into the chain. */
  lemma SlotOfChain(d: Disk, a: Area, s: seq<nat>, i: nat)
    requires a.spc >= 1 && Clusters(s) && i < |s| * a.spc * 16
    ensures i / 16 / a.spc < |s| && s[i / 16 / a.spc] >= 2
    ensures Slots(d, a, s)[i] ==
            d[a.data + a.spc * (s[i / 16 / a.spc] - 2) + i / 16 % a.spc][i % 16 * 32..i % 16 * 32 + 32]
  {
    hide Slots;
    SlotPlace(d, a, s, i);
    SeatAndRank(a.spc, i / 16, |s|);
    var c := s[i / 16 / a.spc];
    assert (c - 2) * a.spc == a.spc * (c - 2);
  }

  lemma SameSlots(d: Disk, d': Disk, a: Area, s: seq<nat>)
    requires a.spc >= 1 && Clusters(s) && Bytes(d', a, s) == Bytes(d, a, s)
    ensures Slots(d', a, s) == Slots(d, a, s)
  {
    hide Bytes;
  }

  // ----- stores -----

  /** A sector with the slot at offset o replaced. */
  function WithSlot(sec: Sector, o: nat, x: Slot): (r: Sector)
    requires o + 32 <= 512
  {
    sec[..o] + x + sec[o + 32..]
  }

  lemma WithSlotReads(sec: Sector, e: nat, x: Slot, f: nat)
    requires e < 16 && f < 16
    ensures SlotIn(WithSlot(sec, e * 32, x), f * 32) == if f == e then x else SlotIn(sec, f * 32)
  {
    var y := SlotIn(WithSlot(sec, e * 32, x), f * 32);
    forall j: nat | j < 32 ensures y[j] == if f == e then x[j] else SlotIn(sec, f * 32)[j] {
    }
  }

  /** Storing a slot changes this one and no other. */
  lemma SlotStored(d: Disk, a: Area, s: seq<nat>, i: nat, x: Slot)
    requires a.spc >= 1 && Clusters(s) && i < |s| * a.spc * 16
    ensures i / 16 < |s| * a.spc
    ensures var l := SectorOf(a, s, i / 16);
            Slots(d[l := WithSlot(d[l], i % 16 * 32, x)], a, s) == Slots(d, a, s)[i := x]
  {
    hide SectorOf, Bytes, Slots, SlotIn, WithSlot;
    SlotPlace(d, a, s, i);
    var l := SectorOf(a, s, i / 16);
    var d' := d[l := WithSlot(d[l], i % 16 * 32, x)];
    SlotsCount(d, a, s);
    SlotsCount(d', a, s);
    forall k: nat | k < |s| * a.spc * 16 ensures Slots(d', a, s)[k] == if k == i then x else Slots(d, a, s)[k] {
      SlotPlace(d, a, s, k);
      SlotPlace(d', a, s, k);
      if k / 16 == i / 16 {
        WithSlotReads(d[l], i % 16, x, k % 16);
      } else {
        if SectorOf(a, s, k / 16) == l {
          SectorsApart(a, s, k / 16, i / 16);
        }
      }
    }
  }

  lemma SlotsCount(d: Disk, a: Area, s: seq<nat>)
    requires a.spc >= 1 && Clusters(s)
    ensures |Slots(d, a, s)| == |s| * a.spc * 16
  {
  }

  // ----- growth -----

  /** Zeros behind the bytes are 0x00 slots behind the slots. */
  lemma SlotsGrown(d: Disk, d': Disk, a: Area, s: seq<nat>, g: seq<nat>, k: nat)
    requires a.spc >= 1 && Clusters(s) && Clusters(g) && |g| == |s| + k
    requires Bytes(d', a, g) == Bytes(d, a, s) + Zeros(k * a.spc * 512)
    ensures Slots(d', a, g) == Slots(d, a, s) + ZeroSlots(k * a.spc * 16)
  {
    var n: nat, m: nat := |s| * a.spc, k * a.spc;
    assert |g| * a.spc == n + m;
    SlotsCount(d, a, s);
    SlotsCount(d', a, g);
    forall i: nat | i < n * 16 ensures Slots(d, a, s)[i] == SlotIn(Bytes(d, a, s), i * 32) {
    }
    forall i: nat | i < (n + m) * 16 ensures Slots(d', a, g)[i] == SlotIn(Bytes(d', a, g), i * 32) {
    }
    hide Bytes, Slots, SlotIn, ZeroSlot;
    forall i: nat | i < (n + m) * 16 ensures Slots(d', a, g)[i] == (Slots(d, a, s) + ZeroSlots(m * 16))[i] {
      SlotBehind(Bytes(d, a, s), n, m, i);
    }
  }

  /** A slot of bytes with zeros behind. */
  lemma SlotBehind(b: seq<Byte>, n: nat, m: nat, i: nat)
    requires |b| == n * 512 && i < (n + m) * 16
    ensures SlotIn(b + Zeros(m * 512), i * 32) == if i < n * 16 then SlotIn(b, i * 32) else ZeroSlot()
  {
    var x := SlotIn(b + Zeros(m * 512), i * 32);
    var y: seq<Byte> := if i < n * 16 then SlotIn(b, i * 32) else ZeroSlot();
    forall j: nat | j < 32 ensures x[j] == y[j] {
    }
  }

  // ----- the slots of one cluster -----

  /** Where slot i of cluster k is in the directory. */
  lemma SlotOfCluster(a: Area, s: seq<nat>, k: nat, i: nat)
    requires a.spc >= 1 && Clusters(s) && k < |s| && i < a.spc * 16
    ensures var n := k * a.spc * 16 + i;
            && n < |s| * a.spc * 16 && n / 16 == k * a.spc + i / 16 && n % 16 == i % 16
            && n / 16 < |s| * a.spc && SectorOf(a, s, n / 16) == ClusterLba(a.data, a.spc, s[k]) + i / 16
  {
    hide ClusterLba, Seat, Rank;
    Multiples(a.spc, k, |s|);
    SeatAndRank(a.spc, k * a.spc + i / 16, k + 1);
    SeatAndRank(a.spc, k * a.spc + i / 16, k);
  }
}
