/** The initial stack of a program: argc, argv and envp with their strings
    (System V AMD64 ABI, section 3.4.1; src/kernel/sched/build_stack.c). */
module UserStack {
  import opened Wrappers
  import opened Words

  const MAX_EXEC_ARGS: int := 64

  /** user_stack_result_t */
  datatype Layout = Layout(rsp: nat, argv: nat, envp: nat)

  // ----- words and strings in memory -----

  /** A C string at o: its bytes, then 0. */
  ghost predicate StringAt(s: seq<Byte>, o: nat, x: seq<Byte>) {
    o + |x| + 1 <= |s| && s[o..o + |x|] == x && s[o + |x|] == 0
  }

  /** The string that a reader finds at o. */
  function ReadString(s: seq<Byte>, o: nat): seq<Byte>
    requires o <= |s|
    decreases |s| - o
  {
    if o == |s| || s[o] == 0 then [] else [s[o]] + ReadString(s, o + 1)
  }

  lemma {:induction false} StringRead(s: seq<Byte>, o: nat, x: seq<Byte>)
    requires StringAt(s, o, x) && 0 !in x
    ensures ReadString(s, o) == x
    decreases |x|
  {
    if x != [] {
      assert s[o] == s[o..o + |x|][0] == x[0];
      assert s[o + 1..o + 1 + |x[1..]|] == s[o..o + |x|][1..];
      StringRead(s, o + 1, x[1..]);
    }
  }

  /** A 64-bit store, least significant byte first. */
  method Store64(a: array<Byte>, o: nat, v: Word64)
    requires o + 8 <= a.Length
    modifies a
    ensures Load64(a[..], o) == v
    ensures forall i :: 0 <= i < a.Length && !(o <= i < o + 8) ==> a[i] == old(a[i])
  {
    hide Byte0, Byte1, Byte2, Byte3;
    var lo, hi := Low(v), High(v);
    a[o], a[o + 1], a[o + 2], a[o + 3] := Byte0(lo), Byte1(lo), Byte2(lo), Byte3(lo);
    a[o + 4], a[o + 5], a[o + 6], a[o + 7] := Byte0(hi), Byte1(hi), Byte2(hi), Byte3(hi);
    LoadStored(lo);
    LoadStored(hi);
  }

  // ----- strings -----

  /** C strings: no byte of them is 0. */
  ghost predicate Strings(strs: seq<seq<Byte>>) {
    forall i :: 0 <= i < |strs| ==> 0 !in strs[i]
  }

  /** The room that strings take with their terminators. */
  function Room(strs: seq<seq<Byte>>): nat {
    if strs == [] then 0 else Room(strs[..|strs| - 1]) + |strs[|strs| - 1]| + 1
  }

  lemma {:induction false} RoomGrows(strs: seq<seq<Byte>>, i: nat, j: nat)
    requires i <= j <= |strs|
    ensures Room(strs[..i]) <= Room(strs[..j])
    decreases j
  {
    if i < j {
      RoomGrows(strs, i, j - 1);
      assert strs[..j][..j - 1] == strs[..j - 1];
    }
  }

  /** The place of string i when they are pushed down from top, the first one highest. */
  ghost function Place(strs: seq<seq<Byte>>, top: nat, i: nat): int
    requires i < |strs|
  {
    top - Room(strs[..i + 1])
  }

  /** The first k strings are below top, and their addresses are known. */
  ghost predicate Pushed(s: seq<Byte>, strs: seq<seq<Byte>>, top: nat, base: nat, ptrs: seq<nat>, k: nat) {
    && k <= |strs| && |ptrs| == k && Room(strs[..k]) <= top <= |s|
    && forall i: nat :: i < k ==> PushedAt(s, strs, top, base, ptrs, i)
  }

  ghost predicate PushedAt(s: seq<Byte>, strs: seq<seq<Byte>>, top: nat, base: nat, ptrs: seq<nat>, i: nat)
    requires i < |strs| && i < |ptrs|
  {
    && Place(strs, top, i) >= 0 && ptrs[i] == base + Place(strs, top, i)
    && StringAt(s, Place(strs, top, i), strs[i])
  }

  lemma PushedKept(s: seq<Byte>, s': seq<Byte>, strs: seq<seq<Byte>>, top: nat, base: nat, ptrs: seq<nat>, k: nat)
    requires Pushed(s, strs, top, base, ptrs, k) && |s'| == |s|
    requires forall i :: top - Room(strs[..k]) <= i < top ==> s'[i] == s[i]
    ensures Pushed(s', strs, top, base, ptrs, k)
  {
    hide Room;
    forall i: nat | i < k ensures PushedAt(s', strs, top, base, ptrs, i) {
      assert PushedAt(s, strs, top, base, ptrs, i);
      RoomGrows(strs, i + 1, k);
      var p: nat := Place(strs, top, i);
      PlaceEnd(strs, top, i);
      assert s'[p..p + |strs[i]|] == s[p..p + |strs[i]|];
    }
  }

  /** A string ends where the one before begins. */
  lemma PlaceEnd(strs: seq<seq<Byte>>, top: nat, i: nat)
    requires i < |strs|
    ensures Place(strs, top, i) + |strs[i]| + 1 == top - Room(strs[..i]) <= top
  {
    assert strs[..i + 1][..i] == strs[..i];
  }

  lemma PushedOn(s: seq<Byte>, s': seq<Byte>, strs: seq<seq<Byte>>, top: nat, base: nat, ptrs: seq<nat>, k: nat,
      offset: nat)
    requires Pushed(s, strs, top, base, ptrs, k) && k < |strs| && |s'| == |s|
    requires offset == top - Room(strs[..k]) - (|strs[k]| + 1)
    requires StringAt(s', offset, strs[k])
    requires forall i :: top - Room(strs[..k]) <= i < top ==> s'[i] == s[i]
    ensures Pushed(s', strs, top, base, ptrs + [base + offset], k + 1)
  {
    PushedKept(s, s', strs, top, base, ptrs, k);
    hide StringAt;
    PlaceEnd(strs, top, k);
    var more := ptrs + [base + offset];
    forall i: nat | i < k + 1 ensures PushedAt(s', strs, top, base, more, i) {
      assert i < k ==> PushedAt(s', strs, top, base, ptrs, i);
    }
  }

  lemma RoomNext(strs: seq<seq<Byte>>, k: nat)
    requires k < |strs|
    ensures Room(strs[..k + 1]) == Room(strs[..k]) + |strs[k]| + 1
    ensures Room(strs[..k + 1]) <= Room(strs)
  {
    assert strs[..k + 1][..k] == strs[..k];
    RoomGrows(strs, k + 1, |strs|);
    assert strs[..|strs|] == strs;
  }

  /** memcpy of a string with its terminator */
  method CopyString(stack: array<Byte>, o: nat, x: seq<Byte>)
    requires o + |x| + 1 <= stack.Length
    modifies stack
    ensures StringAt(stack[..], o, x)
    ensures forall i :: 0 <= i < stack.Length && !(o <= i < o + |x| + 1) ==> stack[i] == old(stack[i])
  {
    forall i | 0 <= i < |x| {
      stack[o + i] := x[i];
    }
    stack[o + |x|] := 0;
    assert stack[..][o..o + |x|] == x;
  }

  /** The loop that pushes the strings of argv or envp down from offset; it fails exactly when
      they do not fit. */
  method PushStrings(stack: array<Byte>, top: nat, base: nat, strs: seq<seq<Byte>>) returns (ok: bool, offset: nat,
      ptrs: seq<nat>)
    requires top <= stack.Length
    modifies stack
    ensures ok <==> Room(strs) <= top
    ensures ok ==> offset == top - Room(strs) && Pushed(stack[..], strs, top, base, ptrs, |strs|)
    ensures forall i :: top <= i < stack.Length ==> stack[i] == old(stack[i])
  {
    hide StringAt, Pushed;
    offset := top;
    ptrs := [];
    var k: nat := 0;
    NonePushed(stack[..], strs, top, base);
    while k < |strs|
      invariant k <= |strs| && offset == top - Room(strs[..k]) && Pushed(stack[..], strs, top, base, ptrs, k)
      invariant forall i :: top <= i < stack.Length ==> stack[i] == old(stack[i])
    {
      RoomNext(strs, k);
      var len: nat := |strs[k]| + 1;
      if len > offset {
        return false, offset, ptrs;
      }
      ghost var before := stack[..];
      offset := offset - len;
      CopyString(stack, offset, strs[k]);
      PushedOn(before, stack[..], strs, top, base, ptrs, k, offset);
      ptrs := ptrs + [base + offset];
      k := k + 1;
    }
    assert strs[..|strs|] == strs;
    PushedFits(stack[..], strs, top, base, ptrs, |strs|);
    ok := true;
  }

  lemma NonePushed(s: seq<Byte>, strs: seq<seq<Byte>>, top: nat, base: nat)
    requires top <= |s|
    ensures Pushed(s, strs, top, base, [], 0) && Room(strs[..0]) == 0
  {
  }

  lemma PushedFits(s: seq<Byte>, strs: seq<seq<Byte>>, top: nat, base: nat, ptrs: seq<nat>, k: nat)
    requires Pushed(s, strs, top, base, ptrs, k)
    ensures Room(strs[..k]) <= top
  {
  }

  // ----- pointers -----

  /** An array of pointers at a place, with a NULL behind them. */
  ghost predicate Pointers(s: seq<Byte>, at: nat, ptrs: seq<nat>) {
    && at + 8 * |ptrs| + 8 <= |s|
    && (forall i: nat :: i < |ptrs| ==> PointerAt(s, at, i, ptrs[i]))
    && PointerAt(s, at, |ptrs|, 0)
  }

  ghost predicate PointerAt(s: seq<Byte>, at: nat, i: nat, p: nat) {
    at + 8 * i + 8 <= |s| && Load64(s, at + 8 * i) == p
  }

  lemma PointersKept(s: seq<Byte>, s': seq<Byte>, at: nat, ptrs: seq<nat>)
    requires Pointers(s, at, ptrs) && |s'| == |s|
    requires forall i :: at <= i < at + 8 * |ptrs| + 8 ==> s'[i] == s[i]
    ensures Pointers(s', at, ptrs)
  {
    forall i: nat | i < |ptrs| ensures PointerAt(s', at, i, ptrs[i]) {
      assert PointerAt(s, at, i, ptrs[i]);
    }
  }

  /** The loop that pushes the NULL and the pointers, the last one first. */
  method PushPointers(stack: array<Byte>, top: nat, ptrs: seq<nat>) returns (offset: nat)
    requires 8 * |ptrs| + 8 <= top <= stack.Length && forall i :: 0 <= i < |ptrs| ==> ptrs[i] < TWO_64
    modifies stack
    ensures offset == top - 8 * |ptrs| - 8 && Pointers(stack[..], offset, ptrs)
    ensures forall i :: 0 <= i < stack.Length && !(offset <= i < top) ==> stack[i] == old(stack[i])
  {
    hide Load64;
    offset := top - 8;
    Store64(stack, offset, 0);
    ghost var at: nat := top - 8 * |ptrs| - 8;
    assert PointerAt(stack[..], at, |ptrs|, 0);
    var i: nat := |ptrs|;
    while i > 0
      invariant i <= |ptrs| && offset == at + 8 * i
      invariant PointerAt(stack[..], at, |ptrs|, 0)
      invariant forall j: nat :: i <= j < |ptrs| ==> PointerAt(stack[..], at, j, ptrs[j])
      invariant forall j :: 0 <= j < stack.Length && !(offset <= j < top) ==> stack[j] == old(stack[j])
    {
      i := i - 1;
      offset := offset - 8;
      ghost var before := stack[..];
      Store64(stack, offset, ptrs[i]);
      assert PointerAt(stack[..], at, i, ptrs[i]);
      forall j: nat | i < j <= |ptrs| ensures j < |ptrs| ==> PointerAt(stack[..], at, j, ptrs[j])
                                      ensures j == |ptrs| ==> PointerAt(stack[..], at, j, 0) {
        PointerKept(before, stack[..], at, j, if j < |ptrs| then ptrs[j] else 0);
      }
    }
  }

  lemma PointerKept(s: seq<Byte>, s': seq<Byte>, at: nat, i: nat, p: nat)
    requires PointerAt(s, at, i, p) && |s'| == |s| && forall j :: at + 8 * i <= j < at + 8 * i + 8 ==> s'[j] == s[j]
    ensures PointerAt(s', at, i, p)
  {
  }

  // ----- the whole -----

  /** A vector of strings that a program finds at a place: pointers and NULL, and behind each
      pointer its string, the strings below each other between lo and hi. */
  ghost predicate Vector(s: seq<Byte>, base: nat, at: nat, strs: seq<seq<Byte>>, lo: nat, hi: nat) {
    && at + 8 * |strs| + 8 <= |s| && Load64(s, at + 8 * |strs|) == 0
    && forall i: nat :: i < |strs| ==> FindsString(s, base, at, strs, lo, hi, i)
  }

  ghost predicate FindsString(s: seq<Byte>, base: nat, at: nat, strs: seq<seq<Byte>>, lo: nat, hi: nat, i: nat)
    requires at + 8 * |strs| + 8 <= |s| && i < |strs|
  {
    var p := Load64(s, at + 8 * i);
    && base + lo <= p && p - base < |s| && ReadString(s, p - base) == strs[i]
    && p + |strs[i]| + 1 <= if i == 0 then base + hi else Load64(s, at + 8 * (i - 1))
  }

  lemma StringFound(s: seq<Byte>, base: nat, strs: seq<seq<Byte>>, top: nat, ptrs: seq<nat>, i: nat)
    requires Pushed(s, strs, top, base, ptrs, |strs|) && i < |strs| && 0 !in strs[i]
    ensures |ptrs| == |strs| && Room(strs) <= top <= |s| && base + (top - Room(strs)) <= ptrs[i] && ptrs[i] - base < |s|
    ensures ReadString(s, ptrs[i] - base) == strs[i]
    ensures ptrs[i] + |strs[i]| + 1 == if i == 0 then base + top else ptrs[i - 1]
  {
    hide Room, ReadString;
    assert strs[..|strs|] == strs;
    assert PushedAt(s, strs, top, base, ptrs, i);
    StringRead(s, Place(strs, top, i), strs[i]);
    PlaceEnd(strs, top, i);
    RoomNext(strs, i);
    if i > 0 {
      var h: nat := i - 1;
      assert PushedAt(s, strs, top, base, ptrs, h);
    } else {
      NonePushed(s, strs, top, base);
    }
  }

  lemma PointersAre(s: seq<Byte>, at: nat, ptrs: seq<nat>, i: nat)
    requires Pointers(s, at, ptrs) && i <= |ptrs|
    ensures at + 8 * |ptrs| + 8 <= |s| && Load64(s, at + 8 * i) == if i < |ptrs| then ptrs[i] else 0
  {
    hide Load64;
    assert i < |ptrs| ==> PointerAt(s, at, i, ptrs[i]);
  }

  lemma VectorFound(s: seq<Byte>, base: nat, at: nat, strs: seq<seq<Byte>>, top: nat, ptrs: seq<nat>)
    requires Pushed(s, strs, top, base, ptrs, |strs|) && Pointers(s, at, ptrs) && Room(strs) <= top
    requires Strings(strs)
    ensures Vector(s, base, at, strs, top - Room(strs), top)
  {
    hide Load64, Room, ReadString, Pushed, Pointers;
    PushedBound(s, strs, top, base, ptrs);
    PointersAre(s, at, ptrs, |ptrs|);
    var lo: nat := top - Room(strs);
    forall i: nat | i < |strs| ensures FindsString(s, base, at, strs, lo, top, i) {
      StringFound(s, base, strs, top, ptrs, i);
      PointersAre(s, at, ptrs, i);
      if i > 0 {
        PointersAre(s, at, ptrs, i - 1);
      }
    }
  }

  lemma PushedBound(s: seq<Byte>, strs: seq<seq<Byte>>, top: nat, base: nat, ptrs: seq<nat>)
    requires Pushed(s, strs, top, base, ptrs, |strs|)
    ensures |ptrs| == |strs| && forall i :: 0 <= i < |ptrs| ==> ptrs[i] <= base + |s|
  {
    hide StringAt, Room;
    forall i: nat | i < |ptrs| ensures ptrs[i] <= base + |s| {
      assert PushedAt(s, strs, top, base, ptrs, i);
    }
  }

  lemma AllKept(s: seq<Byte>, s': seq<Byte>, strs: seq<seq<Byte>>, top: nat, base: nat, ptrs: seq<nat>)
    requires Pushed(s, strs, top, base, ptrs, |strs|) && |s'| == |s| && Room(strs) <= top <= |s|
    requires forall i :: top - Room(strs) <= i < top ==> s'[i] == s[i]
    ensures Pushed(s', strs, top, base, ptrs, |strs|)
  {
    hide Pushed, Room;
    assert strs[..|strs|] == strs;
    PushedKept(s, s', strs, top, base, ptrs, |strs|);
  }

  /** What a new program finds from its stack pointer on. */
  ghost predicate Laid(s: seq<Byte>, base: nat, argv: seq<seq<Byte>>, envp: seq<seq<Byte>>, out: Layout) {
    && out.rsp % 16 == 0 && base <= out.rsp && out.argv == out.rsp + 8 && out.envp == out.argv + 8 * |argv| + 8
    && var o, args, envs := out.rsp - base, |s| - Room(argv), |s| - Room(argv) - Room(envp);
    && 0 <= envs && o + ArraySize(argv, envp) <= envs
    && Load64(s, o) == |argv|
    && Vector(s, base, o + 8, argv, args, |s|)
    && Vector(s, base, o + 8 + 8 * |argv| + 8, envp, envs, args)
  }

  function ArraySize(argv: seq<seq<Byte>>, envp: seq<seq<Byte>>): nat {
    24 + 8 * |argv| + 8 * |envp|
  }

  /** & ~0xF */
  function Align16(x: nat): (r: nat)
    ensures r % 16 == 0 && x - 16 < r <= x
  {
    x / 16 * 16
  }

  /** The counts are in range, the total fits, and aligning does not go below the block. */
  ghost predicate Fits(bytes: nat, base: nat, argc: int, argv: seq<seq<Byte>>, envc: int, envp: seq<seq<Byte>>) {
    && 0 <= argc <= MAX_EXEC_ARGS && 0 <= envc <= MAX_EXEC_ARGS
    && Room(argv) + Room(envp) + ArraySize(argv, envp) <= bytes
    && base <= Align16(base + bytes - Room(argv) - Room(envp) - ArraySize(argv, envp))
  }

  /** With an aligned block, aligning the stack pointer never fails. */
  lemma AlignedFits(bytes: nat, base: nat, argc: int, argv: seq<seq<Byte>>, envc: int, envp: seq<seq<Byte>>)
    requires base % 16 == 0
    ensures Fits(bytes, base, argc, argv, envc, envp) <==>
              && 0 <= argc <= MAX_EXEC_ARGS && 0 <= envc <= MAX_EXEC_ARGS
              && Room(argv) + Room(envp) + ArraySize(argv, envp) <= bytes
  {
  }

  /** Pointers and strings pushed, arrays in place: the program finds its arguments. */
  lemma LaidOut(s: seq<Byte>, base: nat, argv: seq<seq<Byte>>, envp: seq<seq<Byte>>, args: seq<nat>, envs: seq<nat>,
      o: nat)
    requires Strings(argv)
    requires Strings(envp)
    requires (base + o) % 16 == 0 && Room(argv) + Room(envp) + o + ArraySize(argv, envp) <= |s|
    requires Pushed(s, argv, |s|, base, args, |argv|) && Pushed(s, envp, |s| - Room(argv), base, envs, |envp|)
    requires Load64(s, o) == |argv| && Pointers(s, o + 8, args) && Pointers(s, o + 8 + 8 * |argv| + 8, envs)
    ensures Laid(s, base, argv, envp, Layout(base + o, base + o + 8, base + o + 16 + 8 * |argv|))
  {
    hide Vector, Pushed, Pointers, Load64, Room, Strings;
    VectorFound(s, base, o + 8, argv, |s|, args);
    VectorFound(s, base, o + 8 + 8 * |argv| + 8, envp, |s| - Room(argv), envs);
  }

  /** build_user_stack: the program finds its arguments exactly as given, or the call fails, which
      it does exactly when they do not fit. */
  method BuildUserStack(stack: array<Byte>, base: nat, argc: int, argv: seq<seq<Byte>>, envc: int, envp: seq<seq<Byte>>)
    returns (out: Option<Layout>)
    requires base + stack.Length < TWO_64
    requires (0 <= argc <= MAX_EXEC_ARGS ==> |argv| == argc) && (0 <= envc <= MAX_EXEC_ARGS ==> |envp| == envc)
    requires Strings(argv)
    requires Strings(envp)
    modifies stack
    ensures out.Some? <==> Fits(stack.Length, base, argc, argv, envc, envp)
    ensures out.Some? ==> Laid(stack[..], base, argv, envp, out.value)
  {
    hide Pushed, Pointers, Laid, Load64, Room, Strings;
    if argc < 0 || envc < 0 || argc > MAX_EXEC_ARGS || envc > MAX_EXEC_ARGS {
      return None;
    }
    var ok, offset, args := PushStrings(stack, stack.Length, base, argv);
    if !ok {
      return None;
    }
    ghost var s1, top := stack[..], offset;
    var envs;
    ok, offset, envs := PushStrings(stack, offset, base, envp);
    if !ok {
      return None;
    }
    AllKept(s1, stack[..], argv, stack.Length, base, args);
    PushedBound(stack[..], argv, stack.Length, base, args);
    PushedBound(stack[..], envp, top, base, envs);
    var arrays: nat := ArraySize(argv, envp);
    if arrays > offset {
      return None;
    }
    var target: nat := Align16(base + offset - arrays);
    if target < base {
      return None;
    }
    ghost var s2, envs0 := stack[..], offset;
    offset := target - base + arrays;
    if offset > stack.Length {
      return None;
    }
    offset := PushPointers(stack, offset, envs);
    ghost var s3 := stack[..];
    var envpAddr: nat := base + offset;
    ghost var envpAt := offset;
    offset := PushPointers(stack, offset, args);
    ghost var s4 := stack[..];
    var argvAddr: nat := base + offset;
    ghost var argvAt := offset;
    offset := offset - 8;
    Store64(stack, offset, argc);
    PointersKept(s3, stack[..], envpAt, envs);
    PointersKept(s4, stack[..], argvAt, args);
    AllKept(s2, stack[..], argv, stack.Length, base, args);
    AllKept(s2, stack[..], envp, top, base, envs);
    LaidOut(stack[..], base, argv, envp, args, envs, offset);
    out := Some(Layout(base + offset, argvAddr, envpAddr));
  }
}
