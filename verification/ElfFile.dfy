/** The file of a program: its checks, its header table, and loading it
    (ELF gABI chapters 4 and 5; src/kernel/elf.c:7-260). */
module ElfFile {
  import opened Wrappers
  import opened Words
  import opened PageTables
  import opened FreeTree
  import opened HeapWindow
  import opened Vmm
  import opened Needs
  import opened Pmm
  import opened ElfImage
  import opened ElfLoad
  import opened Brk

  const EHDR_SIZE: nat := 64 // sizeof(elf64_ehdr_t)
  const PHDR_SIZE: nat := 56 // sizeof(elf64_phdr_t)
  const ELF_MAGIC: nat := 0x464C_457F

  /** The fields of the file header that the loader uses. */
  datatype Ehdr = Ehdr(entry: nat, phoff: nat, phentsize: nat, phnum: nat)

  function FileHeader(file: seq<Byte>): Ehdr
    requires |file| >= EHDR_SIZE
  {
    Ehdr(Load64(file, 24), Load64(file, 32), Load16(file, 54), Load16(file, 56))
  }

  /** The size of the header table as the source computes it, in `int`. */
  predicate SizeFits(file: seq<Byte>) {
    |file| >= EHDR_SIZE ==> FileHeader(file).phnum * FileHeader(file).phentsize < 0x8000_0000
  }

  /** A little-endian 64-bit executable for x86-64 with a header table whose end, as a 64-bit sum, is
      in the file. */
  predicate IsProgram(file: seq<Byte>) {
    && |file| >= EHDR_SIZE && Load32(file, 0) == ELF_MAGIC && file[4] == 2 && file[5] == 1
    && Load16(file, 16) == 2 && Load16(file, 18) == 62
    && var h := FileHeader(file);
       h.phoff != 0 && h.phnum != 0 && (h.phoff + h.phnum * h.phentsize) % TWO_64 <= |file|
  }

  /** The same on the bytes of the file. */
  lemma ProgramBytes(file: seq<Byte>)
    ensures IsProgram(file) <==>
            && |file| >= 64
            && file[0] == 0x7F && file[1] == 0x45 && file[2] == 0x4C && file[3] == 0x46
            && file[4] == 2 && file[5] == 1 && Load16(file, 16) == 2 && Load16(file, 18) == 0x3E
            && Load64(file, 32) != 0 && Load16(file, 56) != 0
            && (Load64(file, 32) + Load16(file, 56) * Load16(file, 54)) % 0x1_0000_0000_0000_0000 <= |file|
  {
    hide Load16, Load64;
    if |file| >= 64 {
      MagicBytes(file);
    }
  }

  lemma MagicBytes(file: seq<Byte>)
    requires |file| >= 4
    ensures Load32(file, 0) == ELF_MAGIC <==> file[0] == 0x7F && file[1] == 0x45 && file[2] == 0x4C && file[3] == 0x46
  {
  }

  /** elf_validate */
  method Validate(file: seq<Byte>) returns (rc: int)
    requires SizeFits(file)
    ensures rc == if IsProgram(file) then 0 else -1
  {
    if |file| < EHDR_SIZE {
      return -1;
    }
    if Load32(file, 0) != ELF_MAGIC {
      return -1;
    }
    if file[4] != 2 {
      return -1;
    }
    if file[5] != 1 {
      return -1;
    }
    if Load16(file, 16) != 2 {
      return -1;
    }
    if Load16(file, 18) != 62 {
      return -1;
    }
    var h := FileHeader(file);
    if h.phoff == 0 || h.phnum == 0 {
      return -1;
    }
    if (h.phoff + h.phnum * h.phentsize) % TWO_64 > |file| {
      return -1;
    }
    rc := 0;
  }

  // ----- the header table -----

  /** Where program header i is. */
  function Place(h: Ehdr, i: nat): nat {
    h.phoff + i * h.phentsize
  }

  ghost predicate TableInside(file: seq<Byte>) {
    && |file| >= EHDR_SIZE
    && forall i: nat :: i < FileHeader(file).phnum ==> Place(FileHeader(file), i) + PHDR_SIZE <= |file|
  }

  /** With table entries of the usual size or larger, and unless its end wraps, the table of a file
      that passed the checks is inside the file. */
  lemma CheckedInside(file: seq<Byte>)
    requires IsProgram(file) && SizeFits(file) && FileHeader(file).phentsize >= PHDR_SIZE
    requires var h := FileHeader(file); h.phoff + h.phnum * h.phentsize < TWO_64
    ensures TableInside(file)
  {
    hide Load16, Load32, Load64;
    var h := FileHeader(file);
    forall i: nat | i < h.phnum ensures Place(h, i) + PHDR_SIZE <= |file| {
      RowsBefore(i, h.phnum, h.phentsize);
    }
  }

  lemma RowsBefore(i: nat, n: nat, size: nat)
    requires i < n
    ensures i * size + size <= n * size
  {
    var k := n - 1 - i;
    assert n * size == (i + 1 + k) * size == i * size + size + k * size;
    assert k * size >= 0;
  }

  function ProgramHeader(file: seq<Byte>, o: nat): Phdr
    requires o + PHDR_SIZE <= |file|
  {
    Phdr(Load32(file, o) == 1, Load32(file, o + 4) / 2 % 2 == 1, Load32(file, o + 4) % 2 == 1, Load64(file, o + 8),
         Load64(file, o + 16), Load64(file, o + 32), Load64(file, o + 40))
  }

  ghost function Headers(file: seq<Byte>): (phs: seq<Phdr>)
    requires TableInside(file)
    ensures |phs| == FileHeader(file).phnum
  {
    var h := FileHeader(file);
    seq(h.phnum, i requires 0 <= i < h.phnum => ProgramHeader(file, Place(h, i)))
  }

  method ReadHeaders(file: seq<Byte>) returns (phs: seq<Phdr>)
    requires TableInside(file)
    ensures phs == Headers(file)
  {
    hide ProgramHeader;
    var h := FileHeader(file);
    phs := [];
    for i := 0 to h.phnum
      invariant |phs| == i && forall k: nat :: k < i ==> phs[k] == ProgramHeader(file, Place(h, k))
    {
      phs := phs + [ProgramHeader(file, Place(h, i))];
    }
  }

  // ----- the program in terms of the bytes of the file -----

  /** Program header i is at byte o. */
  ghost predicate IsHeaderAt(file: seq<Byte>, i: nat, o: nat) {
    && |file| >= 64 && o + 56 <= |file|
    && i < Load16(file, 56) && o == Load64(file, 32) + i * Load16(file, 54)
  }

  /** The segment of the header at byte o is to be loaded and has memory. */
  ghost predicate LoadsAt(file: seq<Byte>, o: nat)
    requires o + 56 <= |file|
  {
    Load32(file, o) == 1 && Load64(file, o + 40) != 0
  }

  ghost predicate HasAddress(file: seq<Byte>, o: nat, w: nat)
    requires o + 56 <= |file|
  {
    LoadsAt(file, o) && Load64(file, o + 16) <= w < Load64(file, o + 16) + Load64(file, o + 40)
  }

  ghost predicate HasPage(file: seq<Byte>, o: nat, p: nat)
    requires o + 56 <= |file|
  {
    LoadsAt(file, o) && Load64(file, o + 16) < (p + 1) * 4096 && p * 4096 < Load64(file, o + 16) + Load64(file, o + 40)
  }

  /** No segment has more bytes in the file than in memory, and no address is in two segments. */
  ghost predicate SegmentsApart(file: seq<Byte>) {
    && (forall i: nat, o: nat :: IsHeaderAt(file, i, o) && LoadsAt(file, o) ==>
        Load64(file, o + 32) <= Load64(file, o + 40))
    && (forall i: nat, o: nat, j: nat, q: nat, w: nat ::
        IsHeaderAt(file, i, o) && IsHeaderAt(file, j, q) && i != j && HasAddress(file, o, w) ==>
          !HasAddress(file, q, w))
  }

  /** User code reads byte b at address w. */
  ghost predicate Reads(m: Mem, root: nat, w: nat, b: Byte) {
    var p := GetPte(m, root, w);
    && UserPath(m, root, w) && p.flags.present && p.flags.user
    && p.frame < |m| && m[p.frame].Data? && m[p.frame].b[w % 4096] == b
  }

  /** Byte k of the segment of the header at byte o is in memory: one from the file, or a zero behind them. */
  ghost predicate ByteThere(m: Mem, root: nat, file: seq<Byte>, o: nat, k: nat)
    requires o + 56 <= |file|
  {
    var offset, vaddr := Load64(file, o + 8), Load64(file, o + 16);
    if k < Load64(file, o + 32) then offset + k < |file| && Reads(m, root, vaddr + k, file[offset + k])
    else Reads(m, root, vaddr + k, 0)
  }

  /** Every segment is in memory, and the rest of their pages is zero. */
  ghost predicate BytesThere(m: Mem, root: nat, file: seq<Byte>) {
    && (forall i: nat, o: nat, k: nat {:trigger IsHeaderAt(file, i, o), ByteThere(m, root, file, o, k)} ::
          IsHeaderAt(file, i, o) && LoadsAt(file, o) && k < Load64(file, o + 40) ==> ByteThere(m, root, file, o, k))
    && (forall w: nat :: UserAddr(w) && OnPageOnly(file, w) ==> Reads(m, root, w, 0))
  }

  /** The page of w is that of a segment, but w is in none. */
  ghost predicate OnPageOnly(file: seq<Byte>, w: nat) {
    && (exists i: nat, o: nat :: IsHeaderAt(file, i, o) && HasPage(file, o, w / 4096))
    && (forall i: nat, o: nat :: IsHeaderAt(file, i, o) ==> !HasAddress(file, o, w))
  }

  /** Header i at byte o is the first one with page p. */
  ghost predicate IsFirst(file: seq<Byte>, i: nat, o: nat, p: nat) {
    && IsHeaderAt(file, i, o) && HasPage(file, o, p)
    && (forall j: nat, q: nat :: IsHeaderAt(file, j, q) && j < i ==> !HasPage(file, q, p))
  }

  /** A page is writable and executable as the first header with it says, and for user code; what is on
      no page of a segment is as before. */
  ghost predicate PagesThere(m0: Mem, m: Mem, root: nat, file: seq<Byte>) {
    && (forall i: nat, o: nat, w: nat {:trigger IsFirst(file, i, o, w / 4096)} ::
          UserAddr(w) && IsFirst(file, i, o, w / 4096) ==>
            && UserPath(m, root, w)
            && var f := Load32(file, o + 4);
               GetPte(m, root, w).flags == Flags(true, f / 2 % 2 == 1, true, 0, if f % 2 == 1 then 0 else 0x800))
    && (forall w: nat :: UserAddr(w) && OnNoPage(file, w / 4096) ==>
          && Translate(m, root, w) == Translate(m0, root, w)
          && (UserPath(m0, root, w) ==> UserPath(m, root, w)))
  }

  ghost predicate OnNoPage(file: seq<Byte>, p: nat) {
    forall i: nat, o: nat :: IsHeaderAt(file, i, o) ==> !HasPage(file, o, p)
  }

  /** The fields of header i, by their places in Elf64_Phdr. */
  lemma HeaderFields(file: seq<Byte>, i: nat, o: nat)
    requires TableInside(file) && IsHeaderAt(file, i, o)
    ensures i < |Headers(file)|
    ensures var ph := Headers(file)[i];
            && (Loads(ph) <==> LoadsAt(file, o))
            && (ph.writable <==> Load32(file, o + 4) / 2 % 2 == 1) && (ph.executable <==> Load32(file, o + 4) % 2 == 1)
            && ph.offset == Load64(file, o + 8) && ph.vaddr == Load64(file, o + 16)
            && ph.filesz == Load64(file, o + 32) && ph.memsz == Load64(file, o + 40)
            && (forall w: nat :: InSegment(ph, w) <==> HasAddress(file, o, w))
            && (forall p: nat :: Touches(ph, p) <==> HasPage(file, o, p))
  {
    hide Load16, Load32, Load64;
    var ph := Headers(file)[i];
    forall p: nat ensures Touches(ph, p) <==> HasPage(file, o, p) {
    }
  }

  lemma HeaderThere(file: seq<Byte>, i: nat) returns (o: nat)
    requires TableInside(file) && i < |Headers(file)|
    ensures IsHeaderAt(file, i, o)
  {
    hide Load16, Load32, Load64;
    o := Place(FileHeader(file), i);
  }

  lemma ApartProper(file: seq<Byte>)
    requires TableInside(file) && SegmentsApart(file)
    ensures Proper(Headers(file))
  {
    hide IsHeaderAt, LoadsAt, HasAddress, HasPage, Headers, Loads, InSegment, Touches, TableInside, Load64, Load32;
    var phs := Headers(file);
    forall i: nat | i < |phs| && Loads(phs[i]) ensures phs[i].filesz <= phs[i].memsz {
      var o := HeaderThere(file, i);
      HeaderFields(file, i, o);
    }
    forall i: nat, j: nat, w: nat | i < j < |phs| && InSegment(phs[i], w) ensures !InSegment(phs[j], w) {
      var o := HeaderThere(file, i);
      var q := HeaderThere(file, j);
      HeaderFields(file, i, o);
      HeaderFields(file, j, q);
    }
  }

  /** The program was loaded: its segments are sound and below the end of the user half. */
  ghost predicate LoadedFile(m0: Mem, m: Mem, root: nat, file: seq<Byte>) {
    && TableInside(file)
    && Loaded(m0, m, root, file, Headers(file)) && SoundProgram(file, Headers(file))
    && (forall i :: 0 <= i < |Headers(file)| && Loads(Headers(file)[i]) ==>
        Headers(file)[i].vaddr + Headers(file)[i].memsz <= USER_TOP)
  }

  lemma ByteInPlace(m0: Mem, m: Mem, root: nat, file: seq<Byte>, i: nat, o: nat, k: nat)
    requires LoadedFile(m0, m, root, file) && Proper(Headers(file))
    requires IsHeaderAt(file, i, o) && LoadsAt(file, o) && k < Load64(file, o + 40)
    ensures ByteThere(m, root, file, o, k)
  {
    hide HasPage, Headers, Touches, TableInside, Load64, Load32, UserPath, GetPte, Loaded, Proper, TotalPages,
      PageFlags;
    HeaderFields(file, i, o);
    var phs, w := Headers(file), Load64(file, o + 16) + k;
    assert HasAddress(file, o, w) && InSegment(phs[i], w);
    SegmentPagesThere(phs, i, w);
    LoadedRight(m0, m, root, file, phs, w);
    assert Sound(file, phs, i);
  }

  lemma RestInPlace(m0: Mem, m: Mem, root: nat, file: seq<Byte>, w: nat)
    requires LoadedFile(m0, m, root, file) && Proper(Headers(file)) && UserAddr(w) && OnPageOnly(file, w)
    ensures Reads(m, root, w, 0)
  {
    hide HasPage, HasAddress, LoadsAt, Headers, Touches, InSegment, TableInside, Load64, Load32, UserPath,
      GetPte, Loaded, Proper, SoundProgram, PageFlags;
    var phs := Headers(file);
    var i: nat, o: nat :| IsHeaderAt(file, i, o) && HasPage(file, o, w / 4096);
    HeaderFields(file, i, o);
    TouchedPage(phs, i, w / 4096);
    forall j | 0 <= j < |phs| ensures !InSegment(phs[j], w) {
      var q := HeaderThere(file, j);
      HeaderFields(file, j, q);
    }
    LoadedRight(m0, m, root, file, phs, w);
  }

  /** Main result, on the bytes of the file: after a load, user code finds the bytes of each segment at
      the addresses its header names, zeros behind them, and zeros on the rest of their pages. */
  lemma BytesInPlace(m0: Mem, m: Mem, root: nat, file: seq<Byte>)
    requires LoadedFile(m0, m, root, file) && SegmentsApart(file)
    ensures BytesThere(m, root, file)
  {
    hide LoadedFile, SegmentsApart, LoadsAt, Load64, ByteThere, OnPageOnly, Reads, Proper, Headers;
    assert TableInside(file) by { InsideOf(m0, m, root, file); }
    ApartProper(file);
    forall i: nat, o: nat, k: nat | IsHeaderAt(file, i, o) && LoadsAt(file, o) && k < Load64(file, o + 40)
      ensures ByteThere(m, root, file, o, k)
    {
      ByteInPlace(m0, m, root, file, i, o, k);
    }
    forall w: nat | UserAddr(w) && OnPageOnly(file, w) ensures Reads(m, root, w, 0) {
      RestInPlace(m0, m, root, file, w);
    }
  }

  lemma InsideOf(m0: Mem, m: Mem, root: nat, file: seq<Byte>)
    requires LoadedFile(m0, m, root, file)
    ensures TableInside(file)
  {
  }

  lemma PageInPlace(m0: Mem, m: Mem, root: nat, file: seq<Byte>, i: nat, o: nat, w: nat)
    requires LoadedFile(m0, m, root, file) && UserAddr(w) && IsFirst(file, i, o, w / 4096)
    ensures UserPath(m, root, w)
    ensures GetPte(m, root, w).flags ==
            Flags(true, Load32(file, o + 4) / 2 % 2 == 1, true, 0, if Load32(file, o + 4) % 2 == 1 then 0 else 0x800)
  {
    hide IsHeaderAt, HasPage, LoadsAt, Headers, Touches, TableInside, Load64, Load32, UserPath, GetPte, SoundProgram,
      PageFlags, InSegment, HasAddress, Image;
    var phs, p := Headers(file), w / 4096;
    HeaderFields(file, i, o);
    forall j: nat | j < i ensures !Touches(phs[j], p) {
      var q := HeaderThere(file, j);
      HeaderFields(file, j, q);
    }
    FirstFlags(phs, i, p);
    assert Finds(m0, m, root, file, phs, w);
  }

  lemma NoPageInPlace(m0: Mem, m: Mem, root: nat, file: seq<Byte>, w: nat)
    requires LoadedFile(m0, m, root, file) && UserAddr(w) && OnNoPage(file, w / 4096)
    ensures Translate(m, root, w) == Translate(m0, root, w) && (UserPath(m0, root, w) ==> UserPath(m, root, w))
  {
    hide IsHeaderAt, HasPage, LoadsAt, Headers, Touches, TableInside, Load64, Load32, UserPath, GetPte, SoundProgram,
      PageFlags, InSegment, HasAddress, Image, Translate;
    var phs, p := Headers(file), w / 4096;
    if PageFlags(phs, p).Some? {
      FlagsPresent(phs, p);
      var j: nat :| 0 <= j < |phs| && Touches(phs[j], p);
      var q := HeaderThere(file, j);
      HeaderFields(file, j, q);
    }
    assert Finds(m0, m, root, file, phs, w);
  }

  /** Each page of a segment has the rights that the first header with it asks for, and user code can
      reach it; all other addresses are as before. */
  lemma PagesInPlace(m0: Mem, m: Mem, root: nat, file: seq<Byte>)
    requires LoadedFile(m0, m, root, file)
    ensures PagesThere(m0, m, root, file)
  {
    hide LoadedFile, IsFirst, OnNoPage, Load32, UserPath, GetPte, Translate;
    forall i: nat, o: nat, w: nat | UserAddr(w) && IsFirst(file, i, o, w / 4096)
      ensures o + 8 <= |file| && UserPath(m, root, w)
      ensures GetPte(m, root, w).flags ==
              Flags(true, Load32(file, o + 4) / 2 % 2 == 1, true, 0, if Load32(file, o + 4) % 2 == 1 then 0 else 0x800)
    {
      FirstInside(file, i, o, w / 4096);
      PageInPlace(m0, m, root, file, i, o, w);
    }
    forall w: nat | UserAddr(w) && OnNoPage(file, w / 4096)
      ensures Translate(m, root, w) == Translate(m0, root, w) && (UserPath(m0, root, w) ==> UserPath(m, root, w))
    {
      NoPageInPlace(m0, m, root, file, w);
    }
  }

  lemma FirstInside(file: seq<Byte>, i: nat, o: nat, p: nat)
    requires IsFirst(file, i, o, p)
    ensures o + 56 <= |file|
  {
  }

  // ----- loading -----

  /** What the checks do not ask of a file and the loader relies on. */
  ghost predicate LoadableFile(file: seq<Byte>, at: Places) {
    TableInside(file) && Loadable(Headers(file), at)
  }

  /** elf_load_impl: a file that is no program is refused and nothing changes; given frames enough,
      a program is loaded exactly when its segments are sound. */
  method LoadFile(m: Machine, root: nat, file: seq<Byte>, ghost at: Places)
    returns (r: Option<ElfInfo>, ghost at1: Places, ghost t: nat)
    requires m.Valid() && ProcessTree(m, root, at) && SizeFits(file) && (IsProgram(file) ==> LoadableFile(file, at))
    modifies m`mem, m.pmm`freeMem, m.pmm.bitmap
    ensures m.Valid() && ProcessTree(m, root, at1)
    ensures !IsProgram(file) ==> r == None && at1 == at && m.State() == old(m.State())
    ensures r.Some? ==> PagesThere(old(m.mem), m.mem, root, file)
    ensures r.Some? && SegmentsApart(file) ==> BytesThere(m.mem, root, file)
    ensures r.Some? ==> Loaded(old(m.mem), m.mem, root, file, Headers(file))
    ensures IsProgram(file) ==>
              (r.Some? <==>
                 && SoundProgram(file, Headers(file))
                 && |FreeFrames(old(m.pmm.Used()), m.pmm.maxPages)| >= 1 + Needed(LoadPages(Headers(file)), at))
    ensures r.Some? ==> r.value.numPages == |LoadPages(Headers(file))|
    ensures r.Some? ==> r.value.entry == Load64(file, 24) && Bounds(Headers(file), r.value.base, r.value.end)
    ensures r.Some? ==> t < |old(m.mem)| && t !in old(m.pmm.Used())
    ensures r.Some? ==> Extends(ZeroedFrame(old(m.State()), t), at, m.State(), at1)
    ensures r.None? && IsProgram(file) ==> Extends(old(m.State()), at, m.State(), at1)
  {
    hide IsProgram, ProcessTree, Loadable, Loaded, SoundProgram, FreeFrames, Needed, LoadPages, Extends, Bounds,
      Headers, TotalPages, TableInside, PagesThere, BytesThere, SegmentsApart, LoadedFile;
    var rc := Validate(file);
    if rc != 0 {
      return None, at, 0;
    }
    var phs := ReadHeaders(file);
    InsideHeader(file);
    ghost var m0 := m.mem;
    r, at1, t := Load(m, root, file, FileHeader(file).entry, phs, at);
    if r.Some? {
      LoadedIs(m0, m.mem, root, file, at);
      PagesInPlace(m0, m.mem, root, file);
      if SegmentsApart(file) {
        BytesInPlace(m0, m.mem, root, file);
      }
    }
  }

  lemma LoadedIs(m0: Mem, m: Mem, root: nat, file: seq<Byte>, at: Places)
    requires TableInside(file) && Loadable(Headers(file), at)
    requires Loaded(m0, m, root, file, Headers(file)) && SoundProgram(file, Headers(file))
    ensures LoadedFile(m0, m, root, file)
  {
    hide Headers, Loaded, SoundProgram, Loadable, TableInside, Loads;
    UserSegments(Headers(file), at);
  }

  lemma InsideHeader(file: seq<Byte>)
    requires TableInside(file)
    ensures |file| >= EHDR_SIZE && FileHeader(file).entry == Load64(file, 24)
  {
  }
}
