/**
  A mounted volume: its geometry, the two disk caches over one device, and the file allocation table
  read and written through the FAT cache (Misc.c FatDiskIo, FileSpace.c FatLoadFatEntry, FatGetFatEntry,
  FatSetFatEntry).
 */
module Volumes {
  import opened Bytes
  import opened DiskCaching
  import opened FatCodec
  import opened Chains

  datatype CacheKind = CacheFat | CacheData

  datatype Geometry = Geometry(
    fatType: FatType, fatPos: nat, fatSize: nat, numFats: nat, rootPos: nat, firstClusterPos: nat,
    volumeSize: nat, maxCluster: nat, clusterSize: nat)
  {
    /** The data area follows the last FAT; the FAT holds an entry for every cluster; no cluster number is a mark. */
    ghost predicate Ok() {
      && 0 < numFats && fatPos + fatSize <= rootPos == fatPos + Mul(numFats, fatSize)
      && EntryPos(fatType, maxCluster + 1) + EntrySize(fatType) <= fatSize
      && maxCluster + 1 < SpecialFrom(fatType)
      && 0 < clusterSize
      && rootPos <= firstClusterPos
      && firstClusterPos + Mul(maxCluster, clusterSize) <= volumeSize
    }

    /** FatInitializeDiskCache: region, copies, page size and number of pages of each cache. */
    function FatLayout(): Layout {
      Layout(fatPos, fatSize, numFats, if fatType == Fat12 then 0x2000 else 0x8000, if fatType == Fat12 then 1 else 16, volumeSize)
    }

    function DataLayout(): Layout
      requires rootPos <= volumeSize
    {
      Layout(rootPos, volumeSize - rootPos, 1, if fatType == Fat12 then 0x2000 else 0x1_0000, 64, volumeSize)
    }
  }

  lemma LayoutsOk(g: Geometry)
    requires g.Ok()
    ensures g.FatLayout().Ok() && g.DataLayout().Ok()
    ensures g.FatLayout().End() == g.rootPos && g.DataLayout().End() == g.volumeSize
    ensures g.FatLayout().pageSize == (if g.fatType == Fat12 then 8192 else 32768) && g.FatLayout().groups == (if g.fatType == Fat12 then 1 else 16)
    ensures g.DataLayout().pageSize == (if g.fatType == Fat12 then 8192 else 65536) && g.DataLayout().groups == 64
  {
    MulSmall(g.volumeSize - g.rootPos);
  }

  lemma EntryPosMono(t: FatType, i: nat, j: nat)
    requires i <= j
    ensures EntryPos(t, i) <= EntryPos(t, j)
    ensures i < j && t != Fat12 ==> EntryPos(t, i) + EntrySize(t) <= EntryPos(t, j)
  {
  }

  lemma AllInFat(g: Geometry, fat: seq<Byte>, i: nat)
    requires g.Ok() && |fat| == g.fatSize && i <= g.maxCluster + 1
    ensures InFat(g.fatType, fat, i)
  {
    EntryPosMono(g.fatType, i, g.maxCluster + 1);
  }

  /** The table that the bytes of a FAT encode. */
  ghost function TableOf(g: Geometry, fat: seq<Byte>): (t: Table)
    requires g.Ok() && |fat| == g.fatSize
    ensures |t| == g.maxCluster + 2
  {
    seq(g.maxCluster + 2, i requires 0 <= i < g.maxCluster + 2 =>
      if i < MIN_CLUSTER then FREE else (AllInFat(g, fat, i); Entry(g.fatType, fat, i)))
  }

  lemma TableSet(g: Geometry, fat: seq<Byte>, i: nat, v: nat)
    requires g.Ok() && |fat| == g.fatSize && MIN_CLUSTER <= i <= g.maxCluster + 1 && Storable(g.fatType, v)
    ensures InFat(g.fatType, fat, i)
    ensures TableOf(g, WithEntry(g.fatType, fat, i, v)) == TableOf(g, fat)[i := v]
  {
    hide Entry, WithEntry;
    AllInFat(g, fat, i);
    GetAfterSet(g.fatType, fat, i, v);
    forall j | MIN_CLUSTER <= j <= g.maxCluster + 1 && j != i
      ensures InFat(g.fatType, fat, j)
      ensures Entry(g.fatType, WithEntry(g.fatType, fat, i, v), j) == Entry(g.fatType, fat, j)
    {
      AllInFat(g, fat, j);
      OtherEntryKept(g.fatType, fat, i, v, j);
    }
  }

  /** The volume's dirty bit lives in entry 1, which is no cluster. */
  lemma TableKeepsDirtyWrite(g: Geometry, fat: seq<Byte>, value: seq<Byte>)
    requires g.Ok() && |fat| == g.fatSize && g.fatType != Fat12 && |value| == EntrySize(g.fatType)
    ensures EntrySize(g.fatType) + |value| <= g.fatSize
    ensures TableOf(g, Splice(fat, EntrySize(g.fatType), value)) == TableOf(g, fat)
  {
    hide Entry;
    EntryPosMono(g.fatType, 1, g.maxCluster + 1);
    forall j | MIN_CLUSTER <= j <= g.maxCluster + 1
      ensures InFat(g.fatType, fat, j)
      ensures Entry(g.fatType, Splice(fat, EntrySize(g.fatType), value), j) == Entry(g.fatType, fat, j)
    {
      AllInFat(g, fat, j);
      EntryPosMono(g.fatType, 1, j);
      EntryFrame(g.fatType, fat, EntrySize(g.fatType), value, j);
    }
  }

  /**
    The bytes of a FAT and the number an entry reads as. FAT12 packs two entries into three bytes; FAT16 and FAT32
    store the low byte first, FAT32 without the upper four bits. Large numbers are marks and read as the last
    sixteen values of 64 bits.
   */
  ghost predicate EntryReads(t: FatType, fat: seq<Byte>, i: nat, value: nat) {
    match t
    case Fat12 =>
      var p := i / 2 * 3;
      && p + 2 + i % 2 <= |fat|
      && var b0: int, b1: int, b2: int := fat[p], fat[p + 1], fat[p + 1 + i % 2];
         var raw := if i % 2 == 0 then b0 + 0x100 * (b1 % 16) else b1 / 16 + 0x10 * b2;
         value == if raw >= 0xFF7 then 0xFFFF_FFFF_FFFF_FFF0 + raw % 16 else raw
    case Fat16 =>
      && 2 * i + 2 <= |fat|
      && var b0: int, b1: int := fat[2 * i], fat[2 * i + 1];
         var raw := b0 + 0x100 * b1;
         value == if raw >= 0xFFF7 then 0xFFFF_FFFF_FFFF_FFF0 + raw % 16 else raw
    case Fat32 =>
      && 4 * i + 4 <= |fat|
      && var b0: int, b1: int, b2: int, b3: int := fat[4 * i], fat[4 * i + 1], fat[4 * i + 2], fat[4 * i + 3];
         var raw := b0 + 0x100 * b1 + 0x1_0000 * b2 + 0x100_0000 * (b3 % 16);
         value == if raw >= 0x0FFF_FFF7 then 0xFFFF_FFFF_FFFF_FFF0 + raw % 16 else raw
  }

  /** The bytes of a FAT after an entry was set: those of the entry, and otherwise at most those of entry 1. */
  ghost predicate EntryWritten(t: FatType, fat: seq<Byte>, fat': seq<Byte>, i: nat, value: nat) {
    && |fat'| == |fat|
    && match t
       case Fat12 =>
         var p := i / 2 * 3;
         && p + 2 + i % 2 <= |fat|
         && (i % 2 == 0 ==> fat'[p] == value % 0x100 && fat'[p + 1] == value / 0x100 % 16 + fat[p + 1] / 16 * 16)
         && (i % 2 == 1 ==> fat'[p + 1] == fat[p + 1] % 16 + value % 16 * 16 && fat'[p + 2] == value / 16 % 0x100)
         && forall q :: 0 <= q < |fat| && !(p + i % 2 <= q < p + 2 + i % 2) ==> fat'[q] == fat[q]
       case Fat16 =>
         && 2 * i + 2 <= |fat| && fat'[2 * i] == value % 0x100 && fat'[2 * i + 1] == value / 0x100 % 0x100
         && forall q :: 0 <= q < |fat| && !(2 * i <= q < 2 * i + 2) && !(2 <= q < 4) ==> fat'[q] == fat[q]
       case Fat32 =>
         && 4 * i + 4 <= |fat| && fat'[4 * i] == value % 0x100 && fat'[4 * i + 1] == value / 0x100 % 0x100
         && fat'[4 * i + 2] == value / 0x1_0000 % 0x100 && fat'[4 * i + 3] == value / 0x100_0000 % 16 + fat[4 * i + 3] / 16 * 16
         && forall q :: 0 <= q < |fat| && !(4 * i <= q < 4 * i + 4) && !(4 <= q < 8) ==> fat'[q] == fat[q]
  }

  /** At most the bytes of entry 1 differ, and on FAT12 none. */
  ghost predicate Marked(t: FatType, fat: seq<Byte>, fat': seq<Byte>) {
    |fat'| == |fat| && forall q :: 0 <= q < |fat| && (t == Fat12 || !(EntrySize(t) <= q < 2 * EntrySize(t))) ==> fat'[q] == fat[q]
  }

  /** Entry 1 of a FAT16 or FAT32 volume that was not marked as dirty now holds the dirty value; otherwise it is as before. */
  ghost predicate DirtyMark(t: FatType, dirty: bool, dirtyValue: seq<Byte>, fat: seq<Byte>, fat': seq<Byte>) {
    && (t == Fat16 ==> 4 <= |fat| == |fat'| && fat'[2..4] == if dirty then fat[2..4] else dirtyValue)
    && (t == Fat32 ==> 8 <= |fat| == |fat'| && fat'[4..8] == if dirty then fat[4..8] else dirtyValue)
  }

  /** Entries of clusters do not reach into entry 1. */
  lemma EntryOneKept(g: Geometry, fat: seq<Byte>, i: nat, value: nat)
    requires g.Ok() && |fat| == g.fatSize && MIN_CLUSTER <= i <= g.maxCluster + 1 && g.fatType != Fat12
    ensures InFat(g.fatType, fat, i) && 2 * EntrySize(g.fatType) <= |fat| == |WithEntry(g.fatType, fat, i, value)|
    ensures WithEntry(g.fatType, fat, i, value)[EntrySize(g.fatType)..2 * EntrySize(g.fatType)] == fat[EntrySize(g.fatType)..2 * EntrySize(g.fatType)]
  {
    AllInFat(g, fat, i);
    hide Pack;
    EntryPosMono(g.fatType, 1, i);
  }

  lemma MarkedSame(t: FatType, fat: seq<Byte>)
    ensures Marked(t, fat, fat)
  {
  }

  lemma EntryReadsAt(t: FatType, fat: seq<Byte>, i: nat)
    requires InFat(t, fat, i)
    ensures EntryReads(t, fat, i, Entry(t, fat, i))
  {
    hide Entry, EntryPos;
    EntryBounds(t, fat, i);
    match t
    case Fat12 =>
      Parity(i);
      if i % 2 == 0 {
        ReadsEven12(fat, i / 2);
      } else {
        ReadsOdd12(fat, i / 2);
      }
    case Fat16 => ReadsFat16(fat, i);
    case Fat32 => ReadsFat32(fat, i);
  }

  lemma EntryBounds(t: FatType, fat: seq<Byte>, i: nat)
    requires InFat(t, fat, i)
    ensures t == Fat12 ==> 3 * (i / 2) + 2 + i % 2 <= |fat|
    ensures t == Fat16 ==> 2 * i + 2 <= |fat|
    ensures t == Fat32 ==> 4 * i + 4 <= |fat|
  {
    if t == Fat12 {
      Position12(i);
    }
  }

  lemma Parity(i: nat)
    ensures i == if i % 2 == 0 then 2 * (i / 2) else 2 * (i / 2) + 1
  {
  }

  lemma WrittenAt(t: FatType, fat: seq<Byte>, i: nat, value: nat)
    requires InFat(t, fat, i)
    ensures EntryWritten(t, fat, WithEntry(t, fat, i, value), i, value)
  {
    hide WithEntry, EntryPos;
    EntryBounds(t, fat, i);
    WithLength(t, fat, i, value);
    match t
    case Fat12 =>
      Parity(i);
      if i % 2 == 0 {
        WritesEven12(fat, i / 2, value);
      } else {
        WritesOdd12(fat, i / 2, value);
      }
    case Fat16 => WritesFat16(fat, i, value);
    case Fat32 => WritesFat32(fat, i, value);
  }

  lemma WithLength(t: FatType, fat: seq<Byte>, i: nat, value: nat)
    requires InFat(t, fat, i)
    ensures |WithEntry(t, fat, i, value)| == |fat|
  {
  }

  /** Marking the volume as dirty first does not show in the bytes of the entry. */
  lemma WrittenAfterMark(g: Geometry, fat: seq<Byte>, marked: seq<Byte>, i: nat, value: nat)
    requires g.Ok() && |fat| == g.fatSize && MIN_CLUSTER <= i <= g.maxCluster + 1 && Marked(g.fatType, fat, marked)
    ensures InFat(g.fatType, marked, i) && EntryWritten(g.fatType, fat, WithEntry(g.fatType, marked, i, value), i, value)
  {
    hide WithEntry, EntryPos;
    AllInFat(g, marked, i);
    WrittenAt(g.fatType, marked, i, value);
  }

  /** The table that a FAT encodes, entry by entry, over its bytes. */
  lemma EntryReadsTable(g: Geometry, fat: seq<Byte>, i: nat)
    requires g.Ok() && |fat| == g.fatSize && i <= g.maxCluster + 1
    ensures MIN_CLUSTER <= i ==> EntryReads(g.fatType, fat, i, TableOf(g, fat)[i])
  {
    hide Entry, EntryReads;
    AllInFat(g, fat, i);
    EntryReadsAt(g.fatType, fat, i);
  }

  /** The entry buffer after a failed load. */
  function AllOnes(t: FatType): (b: seq<Byte>)
    ensures |b| == EntrySize(t)
  {
    seq(EntrySize(t), _ => 0xFF)
  }

  /** The free count after an entry changed from `original` to `value`; it is a UINT32 and stops at zero. */
  function CountAfter(count: nat, original: nat, value: nat): nat {
    if value == FREE && original != FREE then (count + 1) % 0x1_0000_0000
    else if value != FREE && original == FREE && count != 0 then count - 1
    else count
  }

  class Volume {
    const g: Geometry
    const dev: Device
    const fat: DiskCache
    const data: DiskCache

    var freeInfoValid: bool
    var clusterCount: nat
    var nextCluster: nat
    var fatDirty: bool
    var dirtyValue: seq<Byte>
    var fatEntryPos: nat
    var fatEntryBuffer: seq<Byte>

    ghost function CacheRepr(): set<object> {
      {dev, fat, fat.tags, fat.pages, data, data.tags, data.pages}
    }

    ghost function Repr(): set<object> {
      CacheRepr() + {this}
    }

    ghost predicate Valid()
      reads CacheRepr(), `dirtyValue, `fatEntryBuffer
    {
      && Wired()
      && fat.Valid() && data.Valid()
      && |dirtyValue| == |fatEntryBuffer| == EntrySize(g.fatType)
    }

    /** The parts that never change: geometry and how the objects are connected. */
    ghost predicate Wired() {
      && g.Ok()
      && fat.dev == dev && data.dev == dev
      && fat.l == g.FatLayout() && data.l == g.DataLayout()
      && fat != data && fat.tags != data.tags && fat.pages != data.pages
    }

    /** The file allocation table as seen through the cache. */
    ghost function Table(): (t: Table)
      requires Valid()
      reads CacheRepr(), `dirtyValue, `fatEntryBuffer
      ensures |t| == g.maxCluster + 2
    {
      TableOf(g, fat.View())
    }

    /** The root directory and data area as seen through the cache. */
    ghost function Data(): (d: seq<Byte>)
      requires Valid()
      reads CacheRepr(), `dirtyValue, `fatEntryBuffer
      ensures |d| == g.volumeSize - g.rootPos
    {
      data.View()
    }

    /** A freshly mounted volume shows what is on the disk. */
    constructor (g: Geometry, dev: Device, dirtyValue: seq<Byte>)
      requires g.Ok() && |dev.bytes| == g.volumeSize && |dirtyValue| == EntrySize(g.fatType)
      ensures this.g == g && this.dev == dev && Valid() && fresh(Repr() - {dev})
      ensures fat.View() == dev.bytes[g.fatPos..g.fatPos + g.fatSize] && Data() == dev.bytes[g.rootPos..]
      ensures !freeInfoValid && clusterCount == 0 && nextCluster == MIN_CLUSTER && !fatDirty
    {
      LayoutsOk(g);
      this.g, this.dev := g, dev;
      this.fat := new DiskCache(dev, g.FatLayout());
      this.data := new DiskCache(dev, g.DataLayout());
      this.freeInfoValid, this.clusterCount, this.nextCluster, this.fatDirty := false, 0, MIN_CLUSTER, false;
      this.dirtyValue, this.fatEntryPos, this.fatEntryBuffer := dirtyValue, g.fatPos, dirtyValue;
    }

    /** FatDiskIo for cached modes: range check, then the cache of the area. */
    method DiskIo(kind: CacheKind, mode: IoMode, offset: nat, buffer: seq<Byte>) returns (st: Status, out: seq<Byte>)
      requires Valid()
      requires kind.CacheFat? ==> g.fatPos <= offset && offset + |buffer| <= g.fatPos + g.fatSize && |buffer| <= 4
      requires kind.CacheData? ==> g.rootPos <= offset
      modifies CacheRepr()
      ensures Valid() && |out| == |buffer|
      ensures kind.CacheFat? ==> st == Success && Data() == old(Data())
      ensures kind.CacheFat? && mode.ReadDisk? ==> fat.View() == old(fat.View()) && out == fat.View()[offset - g.fatPos..offset - g.fatPos + |buffer|]
      ensures kind.CacheFat? && mode.WriteDisk? ==> fat.View() == Splice(old(fat.View()), offset - g.fatPos, buffer)
      ensures kind.CacheData? ==> fat.View() == old(fat.View()) && Table() == old(Table())
      ensures kind.CacheData? ==> (st == Success <==> offset + |buffer| <= g.volumeSize)
      ensures st != Success ==> st == VolumeCorrupted && dev.error && Data() == old(Data()) && dev.bytes == old(dev.bytes)
      ensures st == Success ==> dev.error == old(dev.error)
      ensures kind.CacheData? && st == Success && mode.ReadDisk? ==>
        Data() == old(Data()) && out == Data()[offset - g.rootPos..offset - g.rootPos + |buffer|]
      ensures kind.CacheData? && st == Success && mode.WriteDisk? ==>
        Data() == Splice(old(Data()), offset - g.rootPos, buffer) && out == buffer
      ensures old(fat.MirrorsEqual()) ==> fat.MirrorsEqual()
      ensures |dev.bytes| == |old(dev.bytes)| && dev.bytes[..g.fatPos] == old(dev.bytes[..g.fatPos])
    {
      hide Inv, ViewOf, Mirrored, Mul, Splice, TableOf;
      LayoutsOk(g);
      ghost var disk0 := dev.bytes;
      InvShape(fat.l, fat.tags[..], fat.pages[..], dev.bytes);
      if offset + |buffer| <= g.volumeSize {
        if kind.CacheFat? {
          st, out := fat.Access(mode, offset, buffer);
          OutsideInvisible(data.l, data.tags[..], data.pages[..], disk0, dev.bytes);
        } else {
          st, out := data.Access(mode, offset, buffer);
          OutsideInvisible(fat.l, fat.tags[..], fat.pages[..], disk0, dev.bytes);
        }
      } else {
        st, out := VolumeCorrupted, buffer;
        dev.error := true;
      }
    }

    /** What no operation on cached areas may disturb: equal FAT copies stay equal, the reserved sectors stay. */
    twostate predicate Tidy()
      requires old(Valid()) && Valid()
      reads CacheRepr(), `dirtyValue, `fatEntryBuffer
    {
      && (old(fat.MirrorsEqual()) ==> fat.MirrorsEqual())
      && |dev.bytes| == |old(dev.bytes)| && dev.bytes[..g.fatPos] == old(dev.bytes[..g.fatPos])
    }

    /** FatLoadFatEntry: an index past the last cluster leaves the position of the buffer stale. */
    method LoadFatEntry(index: nat)
      requires Valid()
      modifies CacheRepr(), `fatEntryPos, `fatEntryBuffer
      ensures Valid() && Tidy() && dev.error == old(dev.error)
      ensures fat.View() == old(fat.View()) && Data() == old(Data())
      ensures index <= g.maxCluster + 1 ==> InFat(g.fatType, fat.View(), index) && fatEntryPos == g.fatPos + EntryPos(g.fatType, index)
      ensures index <= g.maxCluster + 1 ==> fatEntryBuffer == fat.View()[EntryPos(g.fatType, index)..EntryPos(g.fatType, index) + EntrySize(g.fatType)]
      ensures index > g.maxCluster + 1 ==> fatEntryPos == old(fatEntryPos) && fatEntryBuffer == AllOnes(g.fatType)
    {
      hide Inv, ViewOf, Mirrored, EntryPos;
      if index > g.maxCluster + 1 {
        fatEntryBuffer := AllOnes(g.fatType);
        return;
      }
      AllInFat(g, fat.View(), index);
      fatEntryPos := g.fatPos + EntryPos(g.fatType, index);
      var st, out := DiskIo(CacheFat, ReadDisk, fatEntryPos, fatEntryBuffer);
      fatEntryBuffer := if st == Success then out else AllOnes(g.fatType);
    }

    /** FatGetFatEntry: the entry of a cluster, or an end mark for an index past the last cluster. */
    method GetFatEntry(index: nat) returns (value: nat)
      requires Valid()
      modifies CacheRepr(), `fatEntryPos, `fatEntryBuffer
      ensures Valid() && Tidy() && dev.error == old(dev.error)
      ensures Table() == old(Table()) && Data() == old(Data()) && fat.View() == old(fat.View())
      ensures MIN_CLUSTER <= index <= g.maxCluster + 1 ==> value == Table()[index] && EntryReads(g.fatType, fat.View(), index, value)
      ensures index > g.maxCluster + 1 ==> value == 0xFFFF_FFFF_FFFF_FFFF
    {
      hide Inv, ViewOf, Mirrored, EntryPos, Unpack;
      LoadFatEntry(index);
      if index > g.maxCluster + 1 {
        return LAST;
      }
      value := Unpack(g.fatType, index, fatEntryBuffer);
      EntryReadsTable(g, fat.View(), index);
    }

    /** The free-cluster bookkeeping of FatSetFatEntry. */
    method NoteEntryChange(index: nat, original: nat, value: nat)
      modifies `clusterCount, `nextCluster
      ensures clusterCount == CountAfter(old(clusterCount), original, value)
      ensures nextCluster == if value == FREE && original != FREE && index < old(nextCluster) then index else old(nextCluster)
    {
      if value == FREE && original != FREE {
        clusterCount := (clusterCount + 1) % 0x1_0000_0000;
        if index < nextCluster {
          nextCluster := index;
        }
      } else if value != FREE && original == FREE {
        if clusterCount != 0 {
          clusterCount := clusterCount - 1;
        }
      }
    }

    /** FatSetFatEntry on a cluster: the table changes at that cluster only. */
    method SetFatEntry(index: nat, value: nat) returns (st: Status)
      requires Valid() && index <= g.maxCluster + 1 && Storable(g.fatType, value)
      modifies Repr()
      ensures Valid() && Tidy() && dev.error == old(dev.error)
      ensures Data() == old(Data()) && freeInfoValid == old(freeInfoValid)
      ensures index < MIN_CLUSTER ==> st == VolumeCorrupted && Table() == old(Table())
      ensures index < MIN_CLUSTER ==> clusterCount == old(clusterCount) && nextCluster == old(nextCluster)
      ensures index >= MIN_CLUSTER ==> st == Success && Table() == old(Table())[index := value]
      ensures index >= MIN_CLUSTER ==> EntryWritten(g.fatType, old(fat.View()), fat.View(), index, value)
      ensures index >= MIN_CLUSTER ==> fatDirty == (old(fatDirty) || g.fatType != Fat12)
      ensures index >= MIN_CLUSTER ==> DirtyMark(g.fatType, old(fatDirty), old(dirtyValue), old(fat.View()), fat.View())
      ensures index >= MIN_CLUSTER ==> clusterCount == CountAfter(old(clusterCount), old(Table())[index], value)
      ensures index >= MIN_CLUSTER ==>
        nextCluster == if value == FREE && old(Table())[index] != FREE && index < old(nextCluster) then index else old(nextCluster)
    {
      hide Volume.Valid, Volume.Table, Volume.Data, Mirrored, Storable, EntryReads, EntryWritten, DirtyMark;
      if index < MIN_CLUSTER {
        return VolumeCorrupted;
      }
      GeometryOk(this);
      var original := GetFatEntry(index);
      NoteEntryChange(index, original, value);
      st := WriteEntry(index, value);
    }

    /** The part of FatSetFatEntry after the accounting: the entry is loaded again, changed and written back. */
    method WriteEntry(index: nat, value: nat) returns (st: Status)
      requires Valid() && MIN_CLUSTER <= index <= g.maxCluster + 1 && Storable(g.fatType, value)
      modifies CacheRepr(), `fatEntryPos, `fatEntryBuffer, `fatDirty
      ensures Valid() && Tidy() && dev.error == old(dev.error)
      ensures st == Success && Table() == old(Table())[index := value] && Data() == old(Data())
      ensures EntryWritten(g.fatType, old(fat.View()), fat.View(), index, value)
      ensures fatDirty == (old(fatDirty) || g.fatType != Fat12)
      ensures DirtyMark(g.fatType, old(fatDirty), dirtyValue, old(fat.View()), fat.View())
    {
      hide Inv, ViewOf, Mirrored, EntryPos, Pack, TableOf, Splice, Storable, EntryWritten;
      ghost var view0 := fat.View();
      LoadFatEntry(index);
      MarkedSame(g.fatType, view0);
      fatEntryBuffer := Pack(g.fatType, index, fatEntryBuffer, value);
      if !fatDirty && g.fatType != Fat12 {
        fatDirty := true;
        MarkVolume(index);
      }
      ghost var view1 := fat.View();
      st := StoreEntry(index, value);
      WrittenAfterMark(g, view0, view1, index, value);
      if g.fatType != Fat12 {
        EntryOneKept(g, view1, index, value);
      }
    }

    /** The last step of FatSetFatEntry: the updated buffer goes back to the FAT. */
    method StoreEntry(ghost index: nat, ghost value: nat) returns (st: Status)
      requires Valid() && MIN_CLUSTER <= index <= g.maxCluster + 1 && Storable(g.fatType, value)
      requires InFat(g.fatType, fat.View(), index) && fatEntryPos == g.fatPos + EntryPos(g.fatType, index)
      requires var p, n := EntryPos(g.fatType, index), EntrySize(g.fatType);
        fatEntryBuffer == Pack(g.fatType, index, fat.View()[p..p + n], value)
      modifies CacheRepr()
      ensures Valid() && Tidy() && dev.error == old(dev.error)
      ensures st == Success && Table() == old(Table())[index := value] && Data() == old(Data())
      ensures fat.View() == WithEntry(g.fatType, old(fat.View()), index, value)
    {
      hide Inv, ViewOf, Mirrored, EntryPos, Pack, TableOf, Splice, Storable;
      TableSet(g, fat.View(), index, value);
      var out;
      st, out := DiskIo(CacheFat, WriteDisk, fatEntryPos, fatEntryBuffer);
    }

    /** FatAccessVolumeDirty: write the dirty value into entry 1; cluster entries keep their bytes. */
    method MarkVolume(ghost index: nat)
      requires Valid() && g.fatType != Fat12 && MIN_CLUSTER <= index <= g.maxCluster + 1
      modifies CacheRepr()
      ensures Valid() && Tidy() && dev.error == old(dev.error)
      ensures Table() == old(Table()) && Data() == old(Data())
      ensures InFat(g.fatType, fat.View(), index)
      ensures var p, n := EntryPos(g.fatType, index), EntrySize(g.fatType); fat.View()[p..p + n] == old(fat.View())[p..p + n]
      ensures Marked(g.fatType, old(fat.View()), fat.View())
      ensures 2 * EntrySize(g.fatType) <= |fat.View()| && fat.View()[EntrySize(g.fatType)..2 * EntrySize(g.fatType)] == dirtyValue
    {
      hide Inv, ViewOf, Mirrored, TableOf;
      AllInFat(g, fat.View(), index);
      EntryPosMono(g.fatType, 1, g.maxCluster + 1);
      EntryPosMono(g.fatType, 1, index);
      TableKeepsDirtyWrite(g, fat.View(), dirtyValue);
      var st, out := DiskIo(CacheFat, WriteDisk, g.fatPos + EntrySize(g.fatType), dirtyValue);
    }

    /**
      FatVolumeFlushCache: afterwards the raw disk shows the table and the data, neither of which
      changed, and no page is dirty.
     */
    method FlushCache() returns (st: Status)
      requires Valid()
      modifies CacheRepr()
      ensures Valid() && Tidy() && st == Success && dev.error == old(dev.error)
      ensures fat.View() == old(fat.View()) && Data() == old(Data())
      ensures dev.bytes[g.fatPos..g.fatPos + g.fatSize] == fat.View() && dev.bytes[g.rootPos..] == Data()
      ensures !fat.dirty && !data.dirty
    {
      hide Inv, ViewOf, Mirrored, Mul;
      LayoutsOk(g);
      InvShape(fat.l, fat.tags[..], fat.pages[..], dev.bytes);
      ghost var disk0 := dev.bytes;
      st := fat.Flush();
      OutsideInvisible(data.l, data.tags[..], data.pages[..], disk0, dev.bytes);
      if st != Success {
        return;
      }
      ghost var disk1 := dev.bytes;
      st := data.Flush();
      OutsideInvisible(fat.l, fat.tags[..], fat.pages[..], disk1, dev.bytes);
      assert dev.bytes[g.fatPos..g.fatPos + g.fatSize] == disk1[g.fatPos..g.fatPos + g.fatSize];
    }
  }

  /** The geometry of a valid volume. */
  lemma GeometryOk(v: Volume)
    requires v.Valid()
    ensures v.g.Ok() && |v.Table()| == v.g.maxCluster + 2 <= SPECIAL
  {
  }
}
