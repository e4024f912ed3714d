/**
  Opening a device (Init.c FatOpenDevice): the checks on the boot sector, the geometry computed from it,
  and the FAT type chosen by the number of clusters. Sizes are UINTN and UINT64; the one subtraction
  that can wrap, Sectors - FirstClusterLba, wraps here too.
 */
module Mounting {
  import opened Bytes
  import opened FatCodec
  import opened Chains
  import opened Volumes
  import opened FileSpace
  import opened OpenFiles

  const MAX_FAT12_CLUSTER: nat := 0xFF5
  const MAX_FAT16_CLUSTER: nat := 0xFFF5
  const MIN_BLOCK_ALIGNMENT: int := 9
  const MAX_BLOCK_ALIGNMENT: int := 12
  const MAX_SECTORS_PER_CLUSTER_ALIGNMENT: int := 7

  type UInt16 = x: int | 0 <= x < 0x1_0000
  type UInt32 = x: int | 0 <= x < 0x1_0000_0000

  datatype BootSector = BootSector(
    sectorSize: UInt16, sectorsPerCluster: Byte, reservedSectors: UInt16, numFats: Byte, rootEntries: UInt16,
    sectors16: UInt16, media: Byte, sectorsPerFat16: UInt16, largeSectors: UInt32,
    largeSectorsPerFat: UInt32, extendedFlags: UInt16, fsVersion: UInt16)
  {
    function Sectors(): nat {
      if sectors16 != 0 then sectors16 else largeSectors
    }

    predicate IsFat32() {
      sectorsPerFat16 == 0
    }

    function SectorsPerFat(): nat {
      if IsFat32() then largeSectorsPerFat else sectorsPerFat16
    }
  }

  datatype Result<T> = Ok(value: T) | Err(status: Status)

  /** HighBitSet32 cast to UINT8: minus one becomes 255. */
  function HighBit(x: nat): nat {
    if x == 0 then 255 else if x == 1 then 0 else 1 + HighBit(x / 2)
  }

  function Pow2(n: nat): (p: nat)
    ensures p > 0
  {
    if n == 0 then 1 else 2 * Pow2(n - 1)
  }

  /** x & (x - 1) is zero. */
  predicate AtMostOneBit(x: UInt16) {
    x as bv16 & (x as bv16 - 1) == 0
  }

  /** Flag 0x80: mirroring is disabled. */
  predicate MirroringDisabled(flags: UInt16) {
    flags / 0x80 % 2 == 1
  }

  /** The tests that end in EFI_UNSUPPORTED. */
  predicate Recognised(bs: BootSector) {
    && bs.reservedSectors != 0 && bs.numFats != 0 && bs.Sectors() != 0
    && AtMostOneBit(bs.sectorSize)
    && MIN_BLOCK_ALIGNMENT <= HighBit(bs.sectorSize) <= MAX_BLOCK_ALIGNMENT
    && AtMostOneBit(bs.sectorsPerCluster)
    && HighBit(bs.sectorsPerCluster) <= MAX_SECTORS_PER_CLUSTER_ALIGNMENT
    && (bs.media > 0xF7 || bs.media == 0xF0 || bs.media == 0x00 || bs.media == 0x01)
    && if bs.IsFat32() then bs.SectorsPerFat() != 0 && bs.fsVersion == 0 && !MirroringDisabled(bs.extendedFlags)
       else bs.rootEntries != 0
  }

  function RootLba(bs: BootSector): nat {
    Mul(bs.numFats, bs.SectorsPerFat()) + bs.reservedSectors
  }

  function FirstClusterLba(bs: BootSector): nat
    requires bs.sectorSize != 0
  {
    RootLba(bs) + Div((if bs.IsFat32() then 0 else bs.rootEntries) * 32 + (bs.sectorSize - 1), bs.sectorSize)
  }

  /** (Sectors - FirstClusterLba) >> SectorsPerClusterAlignment on a UINTN. */
  function MaxCluster(bs: BootSector): nat
    requires bs.sectorSize != 0
  {
    Div((bs.Sectors() - FirstClusterLba(bs)) % UINT64_LIMIT, Pow2(HighBit(bs.sectorsPerCluster)))
  }

  /** The FAT type by the number of clusters. */
  function TypeOf(bs: BootSector): FatType
    requires bs.sectorSize != 0
  {
    if bs.IsFat32() then Fat32 else if MaxCluster(bs) < MAX_FAT12_CLUSTER then Fat12 else Fat16
  }

  function GeometryOf(bs: BootSector): Geometry
    requires bs.sectorSize != 0
  {
    var blockAlignment := HighBit(bs.sectorSize);
    Geometry(
      TypeOf(bs), Mul(bs.reservedSectors, bs.sectorSize), Mul(bs.SectorsPerFat(), bs.sectorSize), bs.numFats,
      Mul(RootLba(bs), Pow2(blockAlignment)), Mul(FirstClusterLba(bs), Pow2(blockAlignment)),
      Mul(bs.Sectors(), Pow2(blockAlignment)), MaxCluster(bs),
      Pow2(blockAlignment + HighBit(bs.sectorsPerCluster)))
  }

  /** The read of the dirty value, entry 1 of the FAT, ends inside the volume; FAT12 has none. */
  predicate DirtyValueReadable(g: Geometry) {
    g.fatType == Fat12 || g.fatPos + EntrySize(g.fatType) + EntrySize(g.fatType) <= g.volumeSize
  }

  function OpenDevice(bs: BootSector): Result<Geometry> {
    if !Recognised(bs) then Err(Unsupported)
    else if (MaxCluster(bs) < MAX_FAT16_CLUSTER) == bs.IsFat32() then Err(VolumeCorrupted)
    else if !DirtyValueReadable(GeometryOf(bs)) then Err(VolumeCorrupted)
    else Ok(GeometryOf(bs))
  }

  lemma HighBitZero()
    ensures HighBit(0) == 255
  {
  }

  lemma {:induction false} HighBitBounds(x: nat)
    requires x > 0
    ensures Pow2(HighBit(x)) <= x < 2 * Pow2(HighBit(x))
  {
    if x > 1 {
      HighBitBounds(x / 2);
    }
  }

  lemma {:induction false} Pow2Mono(a: nat, b: nat)
    requires a <= b
    ensures Pow2(a) <= Pow2(b)
  {
    if a < b {
      Pow2Mono(a, b - 1);
    }
  }

  lemma {:induction false} HighBitOfPow2(n: nat)
    ensures HighBit(Pow2(n)) == n
  {
    if n > 0 {
      HighBitOfPow2(n - 1);
    }
  }

  lemma {:induction false} Pow2Add(a: nat, b: nat)
    ensures Pow2(a + b) == Pow2(a) * Pow2(b)
  {
    if b > 0 {
      Pow2Add(a, b - 1);
      assert Pow2(a + b) == 2 * Pow2(a + (b - 1));
      assert Pow2(a) * (2 * Pow2(b - 1)) == 2 * (Pow2(a) * Pow2(b - 1));
    }
  }

  lemma SingleBit(x: bv16)
    requires x & (x - 1) == 0 && x < 8192
    ensures x == 0 || x == 1 || x == 2 || x == 4 || x == 8 || x == 16 || x == 32 || x == 64 || x == 128 || x == 256
      || x == 512 || x == 1024 || x == 2048 || x == 4096
  {
  }

  lemma Pow2Values()
    ensures Pow2(0) == 1 && Pow2(1) == 2 && Pow2(2) == 4 && Pow2(3) == 8 && Pow2(4) == 16 && Pow2(5) == 32
    ensures Pow2(6) == 64 && Pow2(7) == 128 && Pow2(8) == 256 && Pow2(9) == 512 && Pow2(10) == 1024
    ensures Pow2(11) == 2048 && Pow2(12) == 4096 && Pow2(13) == 8192
  {
    assert Pow2(4) == 2 * Pow2(3) == 16;
    assert Pow2(8) == 2 * Pow2(7) == 256;
  }

  lemma SingleBitValue(x: UInt16)
    requires AtMostOneBit(x) && 0 < x < 8192
    ensures x in {1, 2, 4, 8, 16, 32, 64, 128, 256, 512, 1024, 2048, 4096}
  {
    var b := x as bv16;
    assert b as int == x;
    SingleBit(b);
  }

  lemma PowersOfTwo(x: UInt16) returns (n: nat)
    requires AtMostOneBit(x) && 0 < x < 8192
    ensures x == Pow2(n)
  {
    hide AtMostOneBit, Pow2;
    SingleBitValue(x);
    Pow2Values();
    n := if x == 1 then 0 else if x == 2 then 1 else if x == 4 then 2 else if x == 8 then 3 else if x == 16 then 4
         else if x == 32 then 5 else if x == 64 then 6 else if x == 128 then 7 else if x == 256 then 8
         else if x == 512 then 9 else if x == 1024 then 10 else if x == 2048 then 11 else 12;
  }

  lemma PowerExact(x: UInt16, low: nat)
    requires AtMostOneBit(x) && low <= HighBit(x) <= 12
    ensures Pow2(HighBit(x)) == x && Pow2(low) <= x <= 4096
  {
    hide AtMostOneBit, HighBit, Pow2;
    HighBitZero();
    HighBitBounds(x);
    Pow2Values();
    Pow2Mono(HighBit(x), 12);
    Pow2Mono(low, HighBit(x));
    var n := PowersOfTwo(x);
    HighBitOfPow2(n);
  }

  /** The shifts by the two alignments multiply by the sector size and by the sectors per cluster. */
  lemma Alignments(bs: BootSector)
    requires Recognised(bs)
    ensures 512 <= bs.sectorSize <= 4096 && Pow2(HighBit(bs.sectorSize)) == bs.sectorSize
    ensures 1 <= bs.sectorsPerCluster <= 128 && Pow2(HighBit(bs.sectorsPerCluster)) == bs.sectorsPerCluster
  {
    hide AtMostOneBit, HighBit, Pow2;
    PowerExact(bs.sectorSize, 9);
    PowerExact(bs.sectorsPerCluster, 0);
    Pow2Mono(HighBit(bs.sectorsPerCluster), 7);
    Pow2Values();
  }

  // ---------------------------------------------------------------- what an accepted boot sector guarantees

  function EntryBits(t: FatType): nat {
    match t
    case Fat12 => 12
    case Fat16 => 16
    case Fat32 => 32
  }

  /** An entry for every cluster fits in the FAT exactly when the FAT has that many bits. */
  lemma FatHolds(t: FatType, maxCluster: nat, fatSize: nat)
    ensures EntryPos(t, maxCluster + 1) + EntrySize(t) <= fatSize <==> (maxCluster + 2) * EntryBits(t) <= 8 * fatSize
  {
  }

  lemma {:induction false} MulAssoc(a: nat, b: nat, n: nat)
    ensures Mul(Mul(a, b), n) == Mul(a, Mul(b, n))
  {
    if a > 0 {
      MulAssoc(a - 1, b, n);
      MulAdd(Mul(a - 1, b), b, n);
    }
  }

  lemma ProductBound(a: nat, b: nat, x: nat, y: nat)
    requires a <= x && b <= y
    ensures Mul(a, b) <= x * y
  {
    MulIsProduct(a, b);
    assert a * b <= x * b <= x * y;
  }

  /** The first cluster of a FAT12 or FAT16 volume lies below sector 2^25; of any volume below 2^41. */
  lemma FirstClusterBound(bs: BootSector)
    requires Recognised(bs)
    ensures FirstClusterLba(bs) < 0x200_0000_0000
    ensures !bs.IsFat32() ==> FirstClusterLba(bs) < 0x200_0000
  {
    hide Recognised, Mul, Div, HighBit, Pow2;
    Alignments(bs);
    ProductBound(bs.numFats, bs.SectorsPerFat(), 255, if bs.IsFat32() then 0xFFFF_FFFF else 0xFFFF);
    QuotientBound((if bs.IsFat32() then 0 else bs.rootEntries) * 32 + (bs.sectorSize - 1), bs.sectorSize);
  }

  lemma QuotientBound(o: nat, n: nat)
    requires 0 < n
    ensures Div(o, n) <= o
  {
    DivMod(o, n);
    MulIsProduct(Div(o, n), n);
    assert Div(o, n) * n >= Div(o, n);
  }

  /** When the data area starts beyond the end of the volume the wrapped difference gives a huge cluster count. */
  lemma WrappedIsHuge(bs: BootSector)
    requires Recognised(bs) && bs.Sectors() < FirstClusterLba(bs)
    ensures MaxCluster(bs) >= 0x1_0000_0000
  {
    hide Recognised, Mul, Div, Mod, HighBit, Pow2, FirstClusterLba;
    Alignments(bs);
    FirstClusterBound(bs);
    var wrapped := bs.Sectors() - FirstClusterLba(bs) + UINT64_LIMIT;
    assert (bs.Sectors() - FirstClusterLba(bs)) % UINT64_LIMIT == wrapped;
    QuotientLarge(wrapped, bs.sectorsPerCluster);
  }

  lemma QuotientLarge(o: nat, n: nat)
    requires 0 < n <= 128 && o >= 0x1_0000_0000 * 128
    ensures Div(o, n) >= 0x1_0000_0000
  {
    hide Mul, Div, Mod;
    var q := Div(o, n);
    DivMod(o, n);
    MulIsProduct(0x1_0000_0000, n);
    if q < 0x1_0000_0000 {
      MulMono(q, 0x1_0000_0000, n);
    }
  }

  /** What a boot sector must satisfy beyond the driver's own checks. */
  predicate Consistent(bs: BootSector)
    requires bs.sectorSize != 0
  {
    && (MaxCluster(bs) + 2) * EntryBits(TypeOf(bs)) <= 8 * Mul(bs.SectorsPerFat(), bs.sectorSize)
    && (bs.IsFat32() ==> FirstClusterLba(bs) <= bs.Sectors() && MaxCluster(bs) + 1 < 0x0FFF_FFF7)
  }

  lemma AreasFit(bs: BootSector, g: Geometry)
    requires OpenDevice(bs) == Ok(g)
    ensures g.fatPos + g.fatSize <= g.rootPos == g.fatPos + Mul(g.numFats, g.fatSize) && g.rootPos <= g.firstClusterPos
    ensures g.clusterSize == Mul(bs.sectorsPerCluster, bs.sectorSize) > 0
  {
    hide Recognised, Mul, Div, Mod, HighBit, Pow2, MaxCluster;
    RecognisedWhenOpened(bs);
    Alignments(bs);
    var b, n, s, r := bs.sectorSize, bs.numFats, bs.SectorsPerFat(), bs.reservedSectors;
    MulAdd(Mul(n, s), r, b);
    MulAssoc(n, s, b);
    MulMono(1, n, g.fatSize);
    MulSmall(g.fatSize);
    MulMono(RootLba(bs), FirstClusterLba(bs), b);
    Pow2Add(HighBit(bs.sectorSize), HighBit(bs.sectorsPerCluster));
    MulIsProduct(bs.sectorsPerCluster, bs.sectorSize);
  }

  lemma RecognisedWhenOpened(bs: BootSector)
    requires OpenDevice(bs).Ok?
    ensures Recognised(bs) && (MaxCluster(bs) < MAX_FAT16_CLUSTER <==> !bs.IsFat32())
  {
  }

  /** The clusters end inside the volume exactly when the data area starts inside it. */
  lemma ClustersFit(bs: BootSector, g: Geometry)
    requires OpenDevice(bs) == Ok(g)
    ensures g.firstClusterPos + Mul(g.maxCluster, g.clusterSize) <= g.volumeSize <==> FirstClusterLba(bs) <= bs.Sectors()
  {
    hide Recognised, Mul, Div, Mod, HighBit, Pow2, FirstClusterLba;
    RecognisedWhenOpened(bs);
    Alignments(bs);
    AreasFit(bs, g);
    FirstClusterBound(bs);
    var first, sectors, c, b := FirstClusterLba(bs), bs.Sectors(), bs.sectorsPerCluster, bs.sectorSize;
    if first <= sectors {
      assert (sectors - first) % UINT64_LIMIT == sectors - first;
      DivMod(sectors - first, c);
      MulMono(Mul(g.maxCluster, c), sectors - first, b);
      MulAssoc(g.maxCluster, c, b);
      MulAdd(first, sectors - first, b);
    } else {
      MulMono(sectors, first, b);
    }
  }

  /**
    An accepted boot sector gives a geometry the rest of the driver can work with - a FAT entry for every
    cluster, areas that do not overlap and end inside the volume, and no cluster number that reads as a
    mark - exactly when the FAT is large enough and, on FAT32 only, the data area starts inside the
    volume and the cluster numbers stay below the marks. On FAT12 and FAT16 the thresholds ensure that.
   */
  lemma OpenedGeometry(bs: BootSector, g: Geometry)
    requires OpenDevice(bs) == Ok(g)
    ensures bs.sectorSize != 0 && (g.Ok() <==> Consistent(bs))
  {
    hide Recognised, Mul, Div, Mod, HighBit, Pow2, FirstClusterLba;
    RecognisedWhenOpened(bs);
    Alignments(bs);
    AreasFit(bs, g);
    ClustersFit(bs, g);
    FatHolds(g.fatType, g.maxCluster, g.fatSize);
    if bs.Sectors() < FirstClusterLba(bs) {
      WrappedIsHuge(bs);
    }
  }

  /** A FAT32 volume of 33 sectors that needs 34 for the reserved sectors and the FATs: FatOpenDevice accepts it. */
  lemma WrappedVolumeAccepted()
    ensures var bs := BootSector(512, 1, 32, 2, 0, 0, 0xF8, 0, 33, 1, 0, 0);
      OpenDevice(bs).Ok? && bs.Sectors() < FirstClusterLba(bs) && !OpenDevice(bs).value.Ok()
  {
    var bs := BootSector(512, 1, 32, 2, 0, 0, 0xF8, 0, 33, 1, 0, 0);
    hide Mul, Div;
    Pow2Values();
    HighBitOfPow2(9);
    HighBitOfPow2(0);
    assert Recognised(bs);
    MulIsProduct(2, 1);
    assert bs.Sectors() < FirstClusterLba(bs);
    WrappedIsHuge(bs);
    MulIsProduct(32, 512);
    MulIsProduct(33, 512);
    OpenedGeometry(bs, OpenDevice(bs).value);
  }

  /** A floppy disk of 2880 sectors with FATs of one sector each: accepted, with 341 FAT entries for 2863 clusters. */
  lemma SmallFatAccepted()
    ensures var bs := BootSector(512, 1, 1, 2, 224, 2880, 0xF0, 1, 0, 0, 0, 0);
      OpenDevice(bs).Ok? && OpenDevice(bs).value.fatType == Fat12 && OpenDevice(bs).value.maxCluster == 2863
      && !OpenDevice(bs).value.Ok()
  {
    var bs := BootSector(512, 1, 1, 2, 224, 2880, 0xF0, 1, 0, 0, 0, 0);
    hide Mul, Div, Mod;
    Pow2Values();
    HighBitOfPow2(9);
    HighBitOfPow2(0);
    assert Recognised(bs);
    MulIsProduct(2, 1);
    ShiftsAreArithmetic(224 * 32 + 511, 512);
    assert FirstClusterLba(bs) == 17;
    ShiftsAreArithmetic(2863, 1);
    assert MaxCluster(bs) == 2863;
    MulIsProduct(1, 512);
    OpenedGeometry(bs, OpenDevice(bs).value);
  }

  // ---------------------------------------------------------------- where the areas are

  /** The root directory takes as many whole sectors as its bytes need. */
  lemma RootArea(bs: BootSector)
    requires Recognised(bs)
    ensures var root := if bs.sectorsPerFat16 == 0 then 0 else 32 * bs.rootEntries;
      root <= Mul(FirstClusterLba(bs), bs.sectorSize) - Mul(RootLba(bs), bs.sectorSize) < root + bs.sectorSize
  {
    hide Recognised, Mul, Div, Mod, HighBit, Pow2, RootLba;
    Alignments(bs);
    var root, ss := if bs.sectorsPerFat16 == 0 then 0 else 32 * bs.rootEntries, bs.sectorSize;
    DivMod(root + (ss - 1), ss);
    MulAdd(RootLba(bs), Div(root + (ss - 1), ss), ss);
  }

  /** Less than one cluster is left over behind the last one. */
  lemma LastCluster(bs: BootSector)
    requires Recognised(bs) && FirstClusterLba(bs) <= bs.Sectors()
    ensures var end := Mul(FirstClusterLba(bs), bs.sectorSize) + Mul(MaxCluster(bs), Mul(bs.sectorsPerCluster, bs.sectorSize));
      end <= Mul(bs.Sectors(), bs.sectorSize) < end + Mul(bs.sectorsPerCluster, bs.sectorSize)
  {
    hide Recognised, Mul, Div, Mod, HighBit, Pow2, FirstClusterLba;
    Alignments(bs);
    var first, sectors, c, ss := FirstClusterLba(bs), bs.Sectors(), bs.sectorsPerCluster, bs.sectorSize;
    assert (sectors - first) % UINT64_LIMIT == sectors - first;
    var n, r := Div(sectors - first, c), Mod(sectors - first, c);
    DivMod(sectors - first, c);
    MulAdd(first, sectors - first, ss);
    MulAdd(Mul(n, c), r, ss);
    MulAssoc(n, c, ss);
    MulMono(r, c, ss);
  }

  /**
    Where an accepted volume has its areas, in the fields of its boot sector: the reserved sectors, the FATs, the
    root directory of FAT12 and FAT16 in whole sectors, and as many whole clusters as fit behind it. The FAT type
    goes by the number of clusters.
   */
  lemma OpenedLayout(bs: BootSector, g: Geometry)
    requires OpenDevice(bs) == Ok(g)
    ensures var spf := if bs.sectorsPerFat16 == 0 then bs.largeSectorsPerFat else bs.sectorsPerFat16;
      var sectors := if bs.sectors16 == 0 then bs.largeSectors else bs.sectors16;
      var root := if bs.sectorsPerFat16 == 0 then 0 else 32 * bs.rootEntries;
      && g.fatPos == bs.reservedSectors * bs.sectorSize && g.fatSize == spf * bs.sectorSize && g.numFats == bs.numFats
      && g.rootPos == g.fatPos + g.numFats * g.fatSize
      && root <= g.firstClusterPos - g.rootPos < root + bs.sectorSize
      && g.volumeSize == sectors * bs.sectorSize && g.clusterSize == bs.sectorsPerCluster * bs.sectorSize
    ensures g.firstClusterPos <= g.volumeSize ==>
      0 <= g.volumeSize - (g.firstClusterPos + g.maxCluster * g.clusterSize) < g.clusterSize
    ensures g.fatType == Fat12 <==> bs.sectorsPerFat16 != 0 && g.maxCluster < 4085
    ensures g.fatType == Fat16 <==> bs.sectorsPerFat16 != 0 && 4085 <= g.maxCluster < 65525
    ensures g.fatType == Fat32 <==> bs.sectorsPerFat16 == 0
  {
    hide Recognised, Mul, Div, Mod, HighBit, Pow2, FirstClusterLba, RootLba, MaxCluster, DirtyValueReadable;
    RecognisedWhenOpened(bs);
    Alignments(bs);
    AreasFit(bs, g);
    RootArea(bs);
    MulIsProduct(bs.reservedSectors, bs.sectorSize);
    MulIsProduct(bs.SectorsPerFat(), bs.sectorSize);
    MulIsProduct(g.numFats, g.fatSize);
    MulIsProduct(bs.Sectors(), bs.sectorSize);
    MulIsProduct(bs.sectorsPerCluster, bs.sectorSize);
    MulIsProduct(g.maxCluster, g.clusterSize);
    if FirstClusterLba(bs) <= bs.Sectors() {
      LastCluster(bs);
    } else {
      MulMono(bs.Sectors(), FirstClusterLba(bs), bs.sectorSize);
    }
  }

  /** The root directory of FAT12 and FAT16 lies in front of the first cluster. */
  lemma RootCovered(bs: BootSector, f: OFile)
    requires OpenDevice(bs) == Ok(f.volume.g) && bs.sectorsPerFat16 != 0 && f.volume.g.Ok()
    requires f.isFixedRootDir && f.fileSize == 32 * bs.rootEntries
    ensures f.Covered()
  {
    hide OpenDevice, Geometry.Ok;
    OpenedLayout(bs, f.volume.g);
  }

  function Floppy(): BootSector {
    BootSector(512, 1, 1, 2, 224, 2880, 0xF0, 9, 0, 0, 0, 0)
  }

  lemma FloppyNumbers()
    ensures Recognised(Floppy()) && RootLba(Floppy()) == 19 && FirstClusterLba(Floppy()) == 33 && MaxCluster(Floppy()) == 2847
    ensures HighBit(512) == 9 && Pow2(9) == 512 && HighBit(1) == 0 && Pow2(9 + 0) == 512
  {
    hide Mul, Div, Mod;
    Pow2Values();
    HighBitOfPow2(9);
    HighBitOfPow2(0);
    MulIsProduct(2, 9);
    ShiftsAreArithmetic(224 * 32 + 511, 512);
    ShiftsAreArithmetic(2847, 1);
  }

  /** A floppy disk of 1.44 MB: two FATs of nine sectors, 224 root entries, 2847 clusters from byte 16896 on. */
  lemma FloppyLayout()
    ensures OpenDevice(BootSector(512, 1, 1, 2, 224, 2880, 0xF0, 9, 0, 0, 0, 0))
      == Ok(Geometry(Fat12, 512, 4608, 2, 9728, 16896, 1474560, 2847, 512))
  {
    hide Mul, Div, Mod, Recognised, RootLba, FirstClusterLba, MaxCluster, HighBit, Pow2;
    FloppyNumbers();
    MulIsProduct(1, 512);
    MulIsProduct(9, 512);
    MulIsProduct(19, 512);
    MulIsProduct(33, 512);
    MulIsProduct(2880, 512);
  }

  // ---------------------------------------------------------------- which boot sectors are accepted

  const SECTOR_SIZES: set<int> := {512, 1024, 2048, 4096}
  const CLUSTER_SIZES: set<int> := {1, 2, 4, 8, 16, 32, 64, 128}

  /** The bit tests and the alignment limits together accept exactly the sizes of the FAT specification. */
  lemma SizesExactly(bs: BootSector)
    ensures AtMostOneBit(bs.sectorSize) && MIN_BLOCK_ALIGNMENT <= HighBit(bs.sectorSize) <= MAX_BLOCK_ALIGNMENT
      <==> bs.sectorSize in SECTOR_SIZES
    ensures AtMostOneBit(bs.sectorsPerCluster) && HighBit(bs.sectorsPerCluster) <= MAX_SECTORS_PER_CLUSTER_ALIGNMENT
      <==> bs.sectorsPerCluster in CLUSTER_SIZES
  {
    hide AtMostOneBit, HighBit, Pow2;
    Pow2Values();
    PowersAccepted();
    if AtMostOneBit(bs.sectorSize) && MIN_BLOCK_ALIGNMENT <= HighBit(bs.sectorSize) <= MAX_BLOCK_ALIGNMENT {
      PowerExact(bs.sectorSize, 9);
      SingleBitValue(bs.sectorSize);
    }
    if AtMostOneBit(bs.sectorsPerCluster) && HighBit(bs.sectorsPerCluster) <= MAX_SECTORS_PER_CLUSTER_ALIGNMENT {
      PowerExact(bs.sectorsPerCluster, 0);
      Pow2Mono(HighBit(bs.sectorsPerCluster), 7);
      SingleBitValue(bs.sectorsPerCluster);
    }
  }

  lemma PowersAccepted()
    ensures forall n :: 0 <= n <= 12 ==> Pow2(n) <= 4096 && AtMostOneBit(Pow2(n)) && HighBit(Pow2(n)) == n
  {
    forall n | 0 <= n <= 12
      ensures Pow2(n) <= 4096 && AtMostOneBit(Pow2(n)) && HighBit(Pow2(n)) == n
    {
      hide HighBit, AtMostOneBit, Pow2;
      Pow2Values();
      HighBitOfPow2(n);
      PowerBits();
    }
  }

  lemma PowerBits()
    ensures AtMostOneBit(1) && AtMostOneBit(2) && AtMostOneBit(4) && AtMostOneBit(8) && AtMostOneBit(16) && AtMostOneBit(32)
    ensures AtMostOneBit(64) && AtMostOneBit(128) && AtMostOneBit(256) && AtMostOneBit(512) && AtMostOneBit(1024)
    ensures AtMostOneBit(2048) && AtMostOneBit(4096)
  {
  }

  /**
    A boot sector is accepted exactly when its sizes are those of the FAT specification, it has reserved
    sectors, FATs and sectors, its media byte is known, the fields of its kind are sensible, and its number
    of clusters is one of that kind: below 0xFFF5 without the FAT32 fields, and not below with them. A FAT32
    volume must also hold the start of its FAT, where the dirty value is read.
   */
  lemma AcceptedExactly(bs: BootSector)
    ensures OpenDevice(bs).Ok? <==>
      && bs.sectorSize in {512, 1024, 2048, 4096} && bs.sectorsPerCluster in {1, 2, 4, 8, 16, 32, 64, 128}
      && bs.reservedSectors > 0 && bs.numFats > 0 && (bs.sectors16 > 0 || bs.largeSectors > 0)
      && (bs.media in {0x00, 0x01, 0xF0} || 0xF8 <= bs.media)
      && (if bs.sectorsPerFat16 == 0 then bs.largeSectorsPerFat > 0 && bs.fsVersion == 0 && bs.extendedFlags / 128 % 2 == 0
          else bs.rootEntries > 0)
      && (var spf := if bs.sectorsPerFat16 == 0 then bs.largeSectorsPerFat else bs.sectorsPerFat16;
          var root := if bs.sectorsPerFat16 == 0 then 0 else 32 * bs.rootEntries;
          var sectors := if bs.sectors16 == 0 then bs.largeSectors else bs.sectors16;
          var first := bs.reservedSectors + bs.numFats * spf + (root + bs.sectorSize - 1) / bs.sectorSize;
          (sectors - first) % 0x1_0000_0000_0000_0000 / bs.sectorsPerCluster >= 65525 <==> bs.sectorsPerFat16 == 0)
      && (bs.sectorsPerFat16 == 0 ==> bs.reservedSectors < if bs.sectors16 == 0 then bs.largeSectors else bs.sectors16)
    ensures OpenDevice(bs) == Err(Unsupported) <==>
      !(&& bs.sectorSize in {512, 1024, 2048, 4096} && bs.sectorsPerCluster in {1, 2, 4, 8, 16, 32, 64, 128}
        && bs.reservedSectors > 0 && bs.numFats > 0 && (bs.sectors16 > 0 || bs.largeSectors > 0)
        && (bs.media in {0x00, 0x01, 0xF0} || 0xF8 <= bs.media)
        && (if bs.sectorsPerFat16 == 0 then bs.largeSectorsPerFat > 0 && bs.fsVersion == 0 && bs.extendedFlags / 128 % 2 == 0
            else bs.rootEntries > 0))
    ensures OpenDevice(bs).Err? ==> OpenDevice(bs).status == Unsupported || OpenDevice(bs).status == VolumeCorrupted
  {
    hide AtMostOneBit, HighBit, Pow2, MaxCluster, GeometryOf, DirtyValueReadable;
    SizesExactly(bs);
    if bs.sectorSize in {512, 1024, 2048, 4096} && bs.sectorsPerCluster in {1, 2, 4, 8, 16, 32, 64, 128} {
      ClusterCount(bs);
      if Recognised(bs) && (MaxCluster(bs) < MAX_FAT16_CLUSTER <==> !bs.IsFat32()) {
        DirtyValueExactly(bs);
      }
    }
  }

  /** The number of clusters, over the fields of the boot sector. */
  lemma ClusterCount(bs: BootSector)
    requires bs.sectorSize in SECTOR_SIZES && bs.sectorsPerCluster in CLUSTER_SIZES
    ensures var spf := if bs.sectorsPerFat16 == 0 then bs.largeSectorsPerFat else bs.sectorsPerFat16;
      var root := if bs.sectorsPerFat16 == 0 then 0 else 32 * bs.rootEntries;
      var sectors := if bs.sectors16 == 0 then bs.largeSectors else bs.sectors16;
      var first := bs.reservedSectors + bs.numFats * spf + (root + bs.sectorSize - 1) / bs.sectorSize;
      MaxCluster(bs) == (sectors - first) % 0x1_0000_0000_0000_0000 / bs.sectorsPerCluster
  {
    hide Mul, Div, Mod, AtMostOneBit, HighBit, Pow2;
    SizesExactly(bs);
    PowerExact(bs.sectorsPerCluster, 0);
    MulIsProduct(bs.numFats, bs.SectorsPerFat());
    var root := if bs.sectorsPerFat16 == 0 then 0 else 32 * bs.rootEntries;
    ShiftsAreArithmetic(root + (bs.sectorSize - 1), bs.sectorSize);
    ShiftsAreArithmetic((bs.Sectors() - FirstClusterLba(bs)) % UINT64_LIMIT, bs.sectorsPerCluster);
  }

  /** The dirty value can be read exactly when the FAT starts inside the volume, which only a FAT32 volume can fail to do. */
  lemma DirtyValueExactly(bs: BootSector)
    requires Recognised(bs) && (MaxCluster(bs) < MAX_FAT16_CLUSTER <==> !bs.IsFat32())
    ensures DirtyValueReadable(GeometryOf(bs)) <==> (bs.IsFat32() ==> bs.reservedSectors < bs.Sectors())
  {
    hide Recognised, Mul, Div, Mod, HighBit, Pow2, FirstClusterLba, MaxCluster;
    Alignments(bs);
    if bs.reservedSectors < bs.Sectors() {
      MulMono(bs.reservedSectors, bs.Sectors(), bs.sectorSize);
    } else {
      MulMono(bs.Sectors(), bs.reservedSectors, bs.sectorSize);
    }
    ReservedFirst(bs);
    if bs.Sectors() < FirstClusterLba(bs) {
      WrappedIsHuge(bs);
    }
  }

  lemma ReservedFirst(bs: BootSector)
    requires Recognised(bs)
    ensures bs.reservedSectors < FirstClusterLba(bs)
  {
    hide Div, HighBit, Pow2, AtMostOneBit;
    MulMono(1, bs.numFats, bs.SectorsPerFat());
    MulSmall(bs.SectorsPerFat());
  }

  // ---------------------------------------------------------------- the free-cluster information

  /** What is read from the info sector: whether its signatures are right, the count and the hint. */
  datatype InfoSector = InfoSector(signed: bool, count: UInt32, next: UInt32)

  datatype FreeInfo = FreeInfo(valid: bool, count: nat, next: nat)

  /** The count and the hint after mounting; `info` is present on FAT32 volumes that have an info sector. */
  function MountedInfo(maxCluster: nat, present: bool, info: InfoSector): FreeInfo {
    var next := if present then info.next else 0;
    FreeInfo(
      present && info.signed && info.count <= maxCluster,
      if present then info.count else 0,
      if MIN_CLUSTER > next || next > maxCluster + 1 then MIN_CLUSTER else next)
  }

  /**
    The hint is always usable. Without an info sector count and hint are right for every table. With one, a wrong
    count or hint does no harm to the allocator unless the count says that no cluster is free.
   */
  lemma MountedInfoUsable(t: Table, maxCluster: nat, present: bool, info: InfoSector)
    requires |t| == maxCluster + 2 && maxCluster < 0x8000_0000
    ensures var f := MountedInfo(maxCluster, present, info);
      && f.next == (if present && 2 <= info.next <= maxCluster + 1 then info.next else 2)
      && (f.valid <==> present && info.signed && info.count <= maxCluster) && (present ==> f.count == info.count)
      && (!present ==> CountOk(t, f.valid, f.count) && HintOk(t, f.next))
      && (CanRecount(f.valid, f.count) <==> !(present && info.signed && info.count == 0))
  {
  }

  /** An info sector that claims a full volume and points behind the only free cluster: the allocator will not find it. */
  lemma WrongInfoHidesFree(maxCluster: nat)
    requires 2 <= maxCluster
    ensures var f := MountedInfo(maxCluster, true, InfoSector(true, 0, 3));
      var t: Table := seq(maxCluster + 2, c => if c == 2 then FREE else LAST);
      FreeSet(t) == {2} && FreeFrom(t, f.next) == {} && !CanRecount(f.valid, f.count)
  {
  }
}
