/** The bitmap frame allocator (src/mm/pmm.c).

    Frames are numbered; frame f is the 4 KiB page at physical address f * 4096.
    The bitmap is the source's packed byte array: bit f % 8 of byte f / 8 is set
    when frame f is in use. */
module Pmm {
  import opened Wrappers
  import opened Words

  const PAGE_SIZE: nat := 4096

  /** A free-memory counter after k frames came back; it wraps at 32 bits. */
  function Credit(free: int, k: int): (r: int)
    ensures 0 <= r < TWO_32
  {
    (free + PAGE_SIZE * k) % TWO_32
  }

  lemma CreditTwice(free: int, a: int, b: int)
    ensures Credit(Credit(free, a), b) == Credit(free, a + b)
  {
    var x := free + PAGE_SIZE * a;
    assert x == x / TWO_32 * TWO_32 + x % TWO_32;
    WrapShift(x % TWO_32 + PAGE_SIZE * b, x / TWO_32);
  }

  lemma WrapShift(x: int, q: int)
    ensures (x + q * TWO_32) % TWO_32 == x % TWO_32
  {
  }

  lemma CreditNothing(free: int)
    requires 0 <= free < TWO_32
    ensures Credit(free, 0) == free
  {
  }

  // ----- the three bit macros, on one byte -----

  /** 1 << k */
  function Mask(k: nat): bv8
    requires k < 8
  {
    match k
    case 0 => 1
    case 1 => 2
    case 2 => 4
    case 3 => 8
    case 4 => 16
    case 5 => 32
    case 6 => 64
    case _ => 128
  }

  lemma MaskIs()
    ensures forall k: nat :: k < 8 ==> Mask(k) == (1 as bv8) << k
  {
    assert Mask(0) == (1 as bv8) << 0 && Mask(1) == (1 as bv8) << 1 && Mask(2) == (1 as bv8) << 2;
    assert Mask(3) == (1 as bv8) << 3 && Mask(4) == (1 as bv8) << 4 && Mask(5) == (1 as bv8) << 5;
    assert Mask(6) == (1 as bv8) << 6 && Mask(7) == (1 as bv8) << 7;
  }

  predicate BitOf(x: bv8, k: nat)
    requires k < 8
  {
    x & Mask(k) != 0
  }

  lemma SetOneBit(x: bv8, k: nat, j: nat)
    requires k < 8 && j < 8
    ensures BitOf(x | Mask(k), j) == (j == k || BitOf(x, j))
  {
    BitsOfMasks(x, k, j);
  }

  lemma ClearOneBit(x: bv8, k: nat, j: nat)
    requires k < 8 && j < 8
    ensures BitOf(x & !Mask(k), j) == (j != k && BitOf(x, j))
  {
    BitsOfMasks(x, k, j);
  }

  lemma BitsOfMasks(x: bv8, k: nat, j: nat)
    requires k < 8 && j < 8
    ensures (x | Mask(k)) & Mask(j) == if j == k then Mask(j) else x & Mask(j)
    ensures (x & !Mask(k)) & Mask(j) == if j == k then 0 else x & Mask(j)
    ensures Mask(j) != 0
  {
    if j != k {
      assert Mask(k) & Mask(j) == 0;
    }
  }

  // ----- what a bitmap says about frames -----

  predicate Bit(bytes: seq<bv8>, f: nat)
    requires f / 8 < |bytes|
  {
    BitOf(bytes[f / 8], f % 8)
  }

  /** No frame of [i, i+n) is used; a request for no frames is never satisfied,
      because the scan succeeds only inside its inner loop. */
  ghost predicate FreeRun(used: set<nat>, i: nat, n: nat) {
    n >= 1 && forall j :: i <= j < i + n ==> j !in used
  }

  ghost function Run(f: nat, n: nat): (s: set<nat>)
    ensures forall j :: j in s <==> f <= j < f + n
  {
    if n == 0 then {} else Run(f, n - 1) + {f + n - 1}
  }

  /** The frames that can be handed out. */
  ghost function FreeFrames(used: set<nat>, maxPages: nat): set<nat> {
    set f: nat | f < maxPages && f !in used
  }

  lemma SizeOfSubset(x: set<nat>, y: set<nat>)
    requires x <= y
    ensures |x| <= |y|
  {
    assert y == x + (y - x);
  }

  class FrameAllocator {
    const bitmap: array<bv8>
    const maxPages: nat
    var freeMem: nat // a uint32_t

    /** The bit after the last frame is a set sentinel that stops the inner scan;
        frame 0 is never handed out. */
    ghost predicate Valid()
      reads this, bitmap
    {
      && 0 < maxPages < 8 * bitmap.Length
      && maxPages in Used()
      && 0 in Used()
      && freeMem < TWO_32
    }

    ghost function Used(): (s: set<nat>)
      reads this, bitmap
    {
      set f: nat | f < 8 * bitmap.Length && Bit(bitmap[..], f)
    }

    constructor (bytes: array<bv8>, pages: nat, free: nat)
      requires 0 < pages < 8 * bytes.Length && Bit(bytes[..], pages) && Bit(bytes[..], 0)
      requires free < TWO_32
      ensures Valid() && bitmap == bytes && maxPages == pages && freeMem == free
    {
      bitmap := bytes;
      maxPages := pages;
      freeMem := free;
    }

    /** BIT_SET */
    method AllocPage(f: nat)
      requires f < 8 * bitmap.Length
      modifies bitmap
      ensures Used() == old(Used()) + {f}
    {
      var b := f / 8;
      bitmap[b] := bitmap[b] | Mask(f % 8);
      forall g: nat | g < 8 * bitmap.Length
        ensures Bit(bitmap[..], g) == (g == f || old(Bit(bitmap[..], g)))
      {
        if g / 8 == b {
          SetOneBit(old(bitmap[b]), f % 8, g % 8);
        }
      }
    }

    /** BIT_CLEAR */
    method FreePage(f: nat)
      requires f < 8 * bitmap.Length
      modifies bitmap
      ensures Used() == old(Used()) - {f}
    {
      var b := f / 8;
      bitmap[b] := bitmap[b] & !Mask(f % 8);
      forall g: nat | g < 8 * bitmap.Length
        ensures Bit(bitmap[..], g) == (g != f && old(Bit(bitmap[..], g)))
      {
        if g / 8 == b {
          ClearOneBit(old(bitmap[b]), f % 8, g % 8);
        }
      }
    }

    method AllocPages(f: nat, count: nat)
      requires f + count <= 8 * bitmap.Length && freeMem < TWO_32
      modifies this`freeMem, bitmap
      ensures Used() == old(Used()) + Run(f, count)
      ensures freeMem == Credit(old(freeMem), -(count as int)) == (old(freeMem) - 4096 * count) % 0x1_0000_0000
    {
      for i := 0 to count
        modifies bitmap
        invariant Used() == old(Used()) + Run(f, i)
      {
        AllocPage(f + i);
      }
      freeMem := (freeMem - count * PAGE_SIZE) % TWO_32;
    }

    method FreePages(f: nat, count: nat)
      requires f + count <= 8 * bitmap.Length && freeMem < TWO_32
      modifies this`freeMem, bitmap
      ensures Used() == old(Used()) - Run(f, count)
      ensures freeMem == Credit(old(freeMem), count) == (old(freeMem) + 4096 * count) % 0x1_0000_0000
    {
      for i := 0 to count
        modifies bitmap
        invariant Used() == old(Used()) - Run(f, i)
      {
        FreePage(f + i);
      }
      freeMem := (freeMem + count * PAGE_SIZE) % TWO_32;
    }

    /** First fit. None stands for the source's endless loop when memory is out. */
    method Pmalloc(pages: nat) returns (r: Option<nat>)
      requires Valid()
      modifies this`freeMem, bitmap
      ensures Valid()
      ensures r.Some? <==> exists i: nat :: i < maxPages && FreeRun(old(Used()), i, pages)
      ensures r.Some? ==>
                && 0 < r.value && r.value + pages <= maxPages
                && FreeRun(old(Used()), r.value, pages)
                && (forall i: nat :: i < r.value ==> !FreeRun(old(Used()), i, pages))
                && Used() == old(Used()) + Run(r.value, pages)
                && freeMem == Credit(old(freeMem), -(pages as int)) == (old(freeMem) - 4096 * pages) % 0x1_0000_0000
      ensures r.None? ==> Used() == old(Used()) && freeMem == old(freeMem)
    {
      for i := 0 to maxPages
        invariant bitmap[..] == old(bitmap[..]) && freeMem == old(freeMem)
        invariant forall k: nat :: k < i ==> !FreeRun(old(Used()), k, pages)
      {
        var j := 0;
        while j < pages
          invariant 0 <= j <= pages && i + j <= maxPages
          invariant bitmap[..] == old(bitmap[..]) && freeMem == old(freeMem)
          invariant forall k :: i <= k < i + j ==> k !in old(Used())
          invariant j == pages ==> pages == 0
        {
          if BitOf(bitmap[(i + j) / 8], (i + j) % 8) {
            assert i + j in Used();
            break;
          } else if j == pages - 1 {
            assert FreeRun(old(Used()), i, pages);
            AllocPages(i, pages);
            return Some(i);
          }
          j := j + 1;
        }
      }
      return None;
    }
  }
}
