/** Mounting a volume: what the driver takes from the boot sector (Microsoft FAT32 File System
    Specification, section "Boot Sector and BPB"; src/fs/fat32.c:357-376). */
module FatMount {
  import opened Wrappers
  import opened Words
  import opened FatTable
  import opened FatDriver
  import opened FatBytes
  import opened FatRead

  /** The fields of fat32_bpb_t that fat32_init uses. */
  datatype BootSector = BootSector(spc: nat, reserved: nat, fats: nat, fatSize: nat, root: nat, signature: Byte)

  function Boot(sec: Sector): BootSector {
    BootSector(sec[13], (sec[14] as int) + 0x100 * (sec[15] as int), sec[16], Load32(sec, 36), Load32(sec, 44), sec[66])
  }

  lemma BootBytes(sec: Sector)
    ensures var b := Boot(sec);
            && b.spc == sec[13] && b.reserved == Load16(sec, 14) && b.fats == sec[16] && b.fatSize == Load32(sec, 36)
            && b.root == Load32(sec, 44) && b.signature == sec[66]
  {
  }

  predicate Signed(b: BootSector) {
    b.signature == 0x28 || b.signature == 0x29
  }

  function TableStart(b: BootSector, lba: nat): nat {
    lba + b.reserved
  }

  function DataStart(b: BootSector, lba: nat): nat {
    TableStart(b, lba) + b.fatSize * b.fats
  }

  /** A volume of so many table entries lies in 32-bit sector numbers, its table in front of its data. */
  predicate Fits(b: BootSector, lba: nat, entries: nat) {
    && 2 <= entries <= EOC && 1 <= b.spc
    && EntrySector(TableStart(b, lba), entries - 1) < DataStart(b, lba)
    && DataStart(b, lba) + entries * b.spc < CACHE_INVALID
  }

  /** Before anything is cached, the disk alone holds the table. */
  lemma NothingCached(d: Disk, b: Sector, start: nat, n: nat, top: nat)
    requires top <= CACHE_INVALID && (n > 0 ==> EntrySector(start, n - 1) < top)
    ensures TableOf(d, CACHE_INVALID, b, start, n) == TableOf(d, CACHE_INVALID, ZeroSector(), start, n)
  {
    hide TableOf, EntrySector, ZeroSector;
    SameTable(d, CACHE_INVALID, ZeroSector(), d, CACHE_INVALID, b, start, n, top);
  }

  /** What a mounted volume takes from the bytes of its boot sector, at sector lba. */
  ghost predicate Mounted(v: Driver, disk: Disk, lba: nat, root: nat)
    reads v`disk, v`hint
  {
    var sec := disk[lba];
    && v.disk == disk && v.spc == sec[13] && root == Load32(sec, 44) && v.hint == root + 1
    && v.fatStart == lba + Load16(sec, 14)
    && v.dataStart == v.fatStart + sec[16] * Load32(sec, 36)
  }

  /** Byte p of a file of one cluster c on a volume that was just mounted, from the boot sector on. */
  lemma MountedByte(v: Driver, disk: Disk, lba: nat, root: nat, c: nat, p: nat, l: nat)
    requires Mounted(v, disk, lba, root) && v.spc >= 1 && c >= 2 && p < v.spc * 512
    requires var sec := disk[lba];
             l == lba + Load16(sec, 14) + sec[16] * Load32(sec, 36) + sec[13] * (c - 2) + p / 512
    ensures Clusters([c]) && p < |Bytes(v.disk, AreaOf(v), [c])|
    ensures Bytes(v.disk, AreaOf(v), [c])[p] == disk[l][p % 512]
  {
    hide Bytes, Load16, Load32;
    ByteOfChain(v.disk, AreaOf(v), [c], p);
  }

  /** fat32_init refuses a boot sector without one of the two signatures, and else starts with a
      clean, empty cache and the search for free clusters behind the root directory. */
  method Init(disk: Disk, lba: nat, ghost entries: nat) returns (d: Option<Driver>, root: nat)
    requires Signed(Boot(disk[lba])) ==> Fits(Boot(disk[lba]), lba, entries)
    ensures d.Some? <==> disk[lba][66] == 0x28 || disk[lba][66] == 0x29
    ensures d.Some? ==> fresh(d.value) && fresh(d.value.buf) && d.value.Valid() && d.value.OnDisk()
    ensures d.Some? ==>
              var b, v := Boot(disk[lba]), d.value;
              && v.disk == disk && v.n == entries && v.spc == b.spc && root == b.root && v.hint == b.root + 1
              && v.fatStart == lba + b.reserved && v.dataStart == v.fatStart + b.fatSize * b.fats
    ensures d.Some? ==> Mounted(d.value, disk, lba, root) && d.value.spc >= 1
  {
    hide TableOf, Boot, ZeroSector, EntrySector;
    var sec := disk[lba];
    BootBytes(sec);
    var b := Boot(sec);
    root := b.root;
    if !Signed(b) {
      return None, root;
    }
    var v := new Driver(TableStart(b, lba), DataStart(b, lba), b.spc, b.root, disk, entries);
    NothingCached(disk, v.buf[..], v.fatStart, entries, v.dataStart);
    d := Some(v);
  }
}
