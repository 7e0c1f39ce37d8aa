/** The bytes of the heap's allocations, and copying them (src/mm/liballoc.c:108-128). */
module HeapBytes {
  /** The byte at each address. */
  type Bytes = nat -> nat

  /** n bytes from src on are also at dst; all other bytes are as before. */
  ghost predicate CopiedTo(was: Bytes, now: Bytes, dst: nat, src: nat, n: nat) {
    forall a: nat {:trigger now(a)} :: now(a) == if dst <= a < dst + n then was(src + (a - dst)) else was(a)
  }

  function Moved(b: Bytes, dst: nat, src: nat, k: nat): Bytes {
    (a: nat) => if dst <= a < dst + k then b(src + (a - dst)) else b(a)
  }

  lemma MovedIs(b: Bytes, dst: nat, src: nat, k: nat)
    ensures CopiedTo(b, Moved(b, dst, src, k), dst, src, k)
  {
  }

  lemma CopiedNone(b: Bytes, dst: nat, src: nat)
    ensures CopiedTo(b, b, dst, src, 0)
  {
  }

  /** Further bytes read from a source that was not written to. */
  lemma CopiedOn(was: Bytes, now: Bytes, now': Bytes, dst: nat, src: nat, n: nat, k: nat)
    requires CopiedTo(was, now, dst, src, n) && CopiedTo(now, now', dst + n, src + n, k)
    requires src + n + k <= dst || dst <= src
    ensures CopiedTo(was, now', dst, src, n + k)
  {
    forall a: nat
      ensures now'(a) == if dst <= a < dst + (n + k) then was(src + (a - dst)) else was(a)
    {
      if dst + n <= a < dst + n + k {
        var b: nat := src + (a - dst);
        assert src + n + (a - (dst + n)) == b;
        assert now'(a) == now(b);
        assert now(b) == was(b);
      } else {
        assert now'(a) == now(a);
      }
    }
  }

  class Memory {
    var bytes: Bytes

    constructor (b: Bytes)
      ensures bytes == b
    {
      bytes := b;
    }

    /** One assignment through a pointer, of a 32-bit word or of a byte. */
    method Move(dst: nat, src: nat, width: nat)
      modifies this
      ensures CopiedTo(old(bytes), bytes, dst, src, width)
    {
      hide CopiedTo, Moved;
      MovedIs(bytes, dst, src, width);
      bytes := Moved(bytes, dst, src, width);
    }

    /** liballoc_memcpy, forward: words, then the rest. It copies right on regions that do not overlap,
        and downwards. */
    method Copy(dst: nat, src: nat, n: nat)
      requires src + n <= dst || dst <= src
      modifies this
      ensures CopiedTo(old(bytes), bytes, dst, src, n)
    {
      hide CopiedTo;
      ghost var was := bytes;
      CopiedNone(was, dst, src);
      var done: nat := 0;
      while n - done >= 4
        invariant done <= n && CopiedTo(was, bytes, dst, src, done)
      {
        ghost var now := bytes;
        Move(dst + done, src + done, 4);
        CopiedOn(was, now, bytes, dst, src, done, 4);
        done := done + 4;
      }
      while n - done > 0
        invariant done <= n && CopiedTo(was, bytes, dst, src, done)
      {
        ghost var now := bytes;
        Move(dst + done, src + done, 1);
        CopiedOn(was, now, bytes, dst, src, done, 1);
        done := done + 1;
      }
    }
  }
}
