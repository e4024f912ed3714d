/**
  A directory together with the file that holds it: the entries in memory, and the slots read and written through
  the file layer. Creating and removing entries change the directory's own bytes and no other file.
 */
module DirectoryStore {
  import opened Bytes
  import opened DiskCaching
  import opened Chains
  import opened Volumes
  import opened FileSpace
  import opened FileBytes
  import opened Neighbours
  import opened OpenFiles
  import opened LongNames
  import opened NameHash
  import opened ShortNames
  import opened DirectoryLayout
  import opened DirectoryDisk
  import opened Directories
  import opened DirectoryFiles

  /** What a write into a directory file keeps: its size and chain, the table, and every byte outside the file. */
  twostate predicate OwnBytesOnly(f: OFile)
    requires old(f.Valid()) && f.Valid() && f.volume.g.Ok() && f.Covered()
    reads f, f.volume, f.volume.CacheRepr()
  {
    && f.fileSize == old(f.fileSize) && f.chain == old(f.chain)
    && f.volume.Table() == old(f.volume.Table()) && f.volume.dev.error == old(f.volume.dev.error) && FreeInfoKept(f.volume)
    && SameElsewhere(f.Where(), old(f.volume.Data()), f.volume.Data(), 0, f.fileSize)
  }

  /** FatStoreDirEnt through the file layer: the entry, then the parts of its name, one slot at a time. */
  method StoreOnFile(f: OFile, d: DirEnt, invalid: bool)
    requires f.Valid() && f.Covered() && f.fileSize % SLOT == 0
    requires 1 <= d.entryCount <= MAX_LFN_ENTRIES + 1 && 0 <= d.First() && d.entryPos < f.fileSize / SLOT
    modifies f, f.volume.Repr()
    ensures f.Valid() && f.Covered() && OwnBytesOnly(f)
    ensures SlotsOf(f.Bytes(), f.fileSize) == Store(SlotsOf(old(f.Bytes()), f.fileSize), d, invalid)
  {
    hide Volume.Valid, Volume.Table, Volume.Data, OFile.Covered, Extent.Fits, Extent.Capacity, Mul, CursorOk, IsChain, Content,
      SameElsewhere, SlotsOf, Store, Stored, Partial, PartSlot, CheckSum;
    GeometryOk(f.volume);
    WhereFits(f);
    ghost var slots0, data0, e := SlotsOf(f.Bytes(), f.fileSize), f.volume.Data(), f.Where();
    SlotsLength(f.Bytes(), f.fileSize);
    PartialBounds(slots0, d, invalid);
    var lfn := d.entryCount - 1;
    var st, out := AccessEntry(f, WriteDisk, d.entryPos, d.entry);
    var sum := FatCheckSum(d.ShortName());
    var ordinal := 1;
    while ordinal <= lfn
      invariant 1 <= ordinal <= lfn + 1 && f.Valid() && f.Covered() && f.fileSize == old(f.fileSize) && f.chain == old(f.chain)
      invariant f.volume.Table() == old(f.volume.Table()) && f.volume.dev.error == old(f.volume.dev.error) && FreeInfoKept(f.volume)
      invariant f.Where() == e && SameElsewhere(e, data0, f.volume.Data(), 0, f.fileSize)
      invariant SlotsOf(f.Bytes(), f.fileSize) == Partial(slots0, d, invalid, ordinal - 1)
    {
      PartialStep(slots0, d, invalid, ordinal);
      ghost var data1 := f.volume.Data();
      st, out := AccessEntry(f, WriteDisk, d.entryPos - ordinal, PartSlot(d.name, lfn, sum, invalid, ordinal));
      SameElsewhereTrans(e, data0, data1, f.volume.Data(), f.fileSize);
      ordinal := ordinal + 1;
    }
  }

  lemma SlotsLength(bytes: seq<Byte>, size: nat)
    requires size <= |bytes|
    ensures |SlotsOf(bytes, size)| == size / SLOT
  {
  }

  /**
    The files other than the directory are as before. The fixed root directory has no chain: the table is the same and
    every chain holds the same bytes.
   */
  ghost predicate OtherFilesIntact(g: Geometry, fixedRoot: bool, t: Table, cs: seq<nat>, data: seq<Byte>, t': Table, cs': seq<nat>, data': seq<Byte>)
    requires g.Ok()
  {
    if fixedRoot then
      && t' == t && |data'| == |data|
      && forall other :: ChainExtent(g, other).Fits(|data|) ==> Content(ChainExtent(g, other), data') == Content(ChainExtent(g, other), data)
    else OthersKept(g, t, cs, data, t', cs', data')
  }

  /** Changes that stay within the directory's own bytes leave the other files alone. */
  lemma OthersIntact(f: OFile, t: Table, cs: seq<nat>, data: seq<Byte>)
    requires f.Valid() && f.Covered() && |data| == |f.volume.Data()| && f.volume.g.Ok()
    requires if f.isFixedRootDir then f.volume.Table() == t else Resized(t, cs, f.volume.Table(), f.chain)
    requires SameElsewhere(f.Where(), data, f.volume.Data(), 0, f.fileSize)
    ensures OtherFilesIntact(f.volume.g, f.isFixedRootDir, t, cs, data, f.volume.Table(), f.chain, f.volume.Data())
  {
    hide Volume.Table, Volume.Data, Resized, SameElsewhere, Content, Extent.Fits, IsChain, OthersKept, Mul;
    if f.isFixedRootDir {
      WhereFits(f);
      var g := f.volume.g;
      forall other | ChainExtent(g, other).Fits(|data|)
        ensures Content(ChainExtent(g, other), f.volume.Data()) == Content(ChainExtent(g, other), data)
      {
        OtherFileKept(f.Where(), ChainExtent(g, other), data, f.volume.Data(), 0, f.fileSize);
      }
    } else {
      FileOthersKept(f, t, cs, data, 0, f.fileSize);
    }
  }

  /** A directory and its file. */
  class FileDirectory {
    const dir: ODir
    const file: OFile

    ghost predicate Apart()
      reads dir, file
    {
      dir.Repr() !! {file} + file.volume.Repr()
    }

    /** The file is in order and holds these slots. */
    ghost predicate Holds(slots: seq<Slot>)
      reads file, file.volume, file.volume.CacheRepr()
    {
      && file.Valid() && SpaceOk(file.volume) && file.Covered()
      && file.fileSize % SLOT == 0 && slots == SlotsOf(file.Bytes(), file.fileSize)
      && (!file.isFixedRootDir ==> WholeSlots(file))
    }

    /** The slots of the directory are the bytes of the file. */
    ghost predicate Valid()
      reads dir, dir.longTable.buckets, dir.shortTable.buckets, file, file.volume, file.volume.CacheRepr()
    {
      && dir.Valid() && Holds(dir.slots) && Apart() && dir.fixedRoot == file.isFixedRootDir
      && (!dir.fixedRoot ==> dir.clusterSlots == file.volume.g.clusterSize / SLOT)
    }

    constructor (dir: ODir, file: OFile)
      requires dir.Valid() && file.Valid() && SpaceOk(file.volume) && file.Covered() && dir.Repr() !! {file} + file.volume.Repr()
      requires file.fileSize % SLOT == 0 && dir.slots == SlotsOf(file.Bytes(), file.fileSize) && dir.fixedRoot == file.isFixedRootDir
      requires !dir.fixedRoot ==> WholeSlots(file) && dir.clusterSlots == file.volume.g.clusterSize / SLOT
      ensures this.dir == dir && this.file == file && Valid()
    {
      this.dir, this.file := dir, file;
    }

    /** FatRemoveDirEnt: the entry is gone from memory and disk, and nothing but the directory's own bytes changed. */
    method Remove(i: nat)
      requires Valid() && i < |dir.children|
      requires Alone(dir.sv, true, dir.children, dir.children[i]) && Alone(dir.sv, false, dir.children, dir.children[i])
      modifies dir.Repr(), file, file.volume.Repr()
      ensures Valid() && dir.All() == Removed(old(dir.All()), i) && OwnBytesOnly(file)
      ensures old(dir.Durable()) ==> dir.Durable()
      ensures OtherFilesIntact(
          file.volume.g, dir.fixedRoot, old(file.volume.Table()), old(file.chain), old(file.volume.Data()),
          file.volume.Table(), file.chain, file.volume.Data())
    {
      hide OtherFilesIntact, EndMarkOnly, Enlarged, Cut, ODir.Valid, Volume.Valid, Volume.Table, Volume.Data, SpaceOk, IsChain, CursorOk, Content, SameElsewhere, SlotsOf, Store, Alone, Removed,
        ODir.All, Mul, Extent.Fits, Extent.Capacity, OFile.Covered;
      SpaceGivesValid(file.volume);
      GeometryOk(file.volume);
      SlotsLength(file.Bytes(), file.fileSize);
      var d := Deleted(dir.children[i]);
      dir.RemoveDirEnt(i);
      label Removed:
      StoreOnFile(file, d, true);
      SpaceAfterWrite@Removed(file.volume);
      EndMarkSame(file.volume.Table(), file.chain);
      SameSize(file, old(file.volume.Data()), 0, file.fileSize);
      OthersIntact(file, file.volume.Table(), file.chain, old(file.volume.Data()));
    }

    /** The file grows by one cluster of end marks if it has to and a cluster is free. */
    method MakeRoom(needed: bool, ghost slots: seq<Slot>) returns (expands: bool)
      requires Holds(slots) && (needed ==> !file.isFixedRootDir && file.fileSize + file.volume.g.clusterSize <= MAX_FILE_SIZE)
      modifies file, file.volume.Repr()
      ensures Holds(slots + EndSlots(if expands then file.volume.g.clusterSize / SLOT else 0))
      ensures expands <==> needed && FreeSet(old(file.volume.Table())) != {}
      ensures Resized(old(file.volume.Table()), old(file.chain), file.volume.Table(), file.chain)
      ensures file.isFixedRootDir ==> file.volume.Table() == old(file.volume.Table())
      ensures SameElsewhere(file.Where(), old(file.volume.Data()), file.volume.Data(), 0, file.fileSize)
    {
      hide Volume.Valid, Volume.Table, Volume.Data, SpaceOk, IsChain, CursorOk, Content, SameElsewhere, SlotsOf, Mul, Extent.Fits, Extent.Capacity,
        OFile.Covered, FreeSet, EndSlots, Enlarged, EndMarkOnly, Cut, OthersKept;
      SpaceGivesValid(file.volume);
      GeometryOk(file.volume);
      if needed {
        var st := ExpandDirectory(file);
        expands := st == Success;
      } else {
        expands := false;
        NoMoreSlots(slots);
        EndMarkSame(file.volume.Table(), file.chain);
        WhereFits(file);
        NothingWritten(file.Where(), file.volume.Data());
        SameElsewhereWiden(file.Where(), file.volume.Data(), file.volume.Data(), 0, 0, file.fileSize);
      }
    }

    /**
      FatCreateDirEnt: the new entry is in memory and on disk, in a file that grew by one cluster if it had to. When there
      is no room the directory is as before. In either case no other file changed.
     */
    method Create(name: Name, attributes: Byte, stamp: seq<Byte>, labelPos: nat) returns (status: Status, d: DirEnt, ghost i: nat)
      requires Valid() && 1 <= |name| <= 255 && |stamp| == 19 && NoMatch(dir.sv, name, dir.All()) && !IsDot(name)
      requires NeedsShort(dir.sv, name) ==> ShortAvailable(dir.All(), BaseName(dir.sv, name), NameCrc(dir.sv, name))
      requires dir.fixedRoot || LfnCount(|name|) + 1 <= dir.clusterSlots
      modifies dir.Repr(), file, file.volume.Repr()
      ensures Valid()
      ensures status == Success ==> i <= |old(dir.All())| && dir.All() == Inserted(old(dir.All()), i, d) && d.name == name
      ensures status != Success ==> status == VolumeFull && dir.All() == old(dir.All())
      ensures Resized(old(file.volume.Table()), old(file.chain), file.volume.Table(), file.chain)
      ensures SameElsewhere(file.Where(), old(file.volume.Data()), file.volume.Data(), 0, file.fileSize)
      ensures old(dir.Durable()) && LiveName(dir.sv, name) && !VolumeId(attributes) ==> dir.Durable()
      ensures OtherFilesIntact(
          file.volume.g, dir.fixedRoot, old(file.volume.Table()), old(file.chain), old(file.volume.Data()),
          file.volume.Table(), file.chain, file.volume.Data())
    {
      hide OtherFilesIntact, ODir.Valid, Holds, Volume.Valid, Volume.Table, Volume.Data, NoMatch, ShortAvailable, BaseName, Is8Dot3, Inserted, ODir.All,
        Resized, SameElsewhere, LiveName, ODir.Durable, LfnCount;
      HoldsMeans(dir.slots);
      ghost var t0, cs0, data0 := file.volume.Table(), file.chain, file.volume.Data();
      status, d, i := CreateOwn(name, attributes, stamp, labelPos);
      HoldsMeans(dir.slots);
      SameSize(file, data0, 0, file.fileSize);
      OthersIntact(file, t0, cs0, data0);
    }

    /** Planning, growing and entering; the changes stay within the directory's own bytes. */
    method CreateOwn(name: Name, attributes: Byte, stamp: seq<Byte>, labelPos: nat) returns (status: Status, d: DirEnt, ghost i: nat)
      requires Valid() && 1 <= |name| <= 255 && |stamp| == 19 && NoMatch(dir.sv, name, dir.All()) && !IsDot(name)
      requires NeedsShort(dir.sv, name) ==> ShortAvailable(dir.All(), BaseName(dir.sv, name), NameCrc(dir.sv, name))
      requires dir.fixedRoot || LfnCount(|name|) + 1 <= dir.clusterSlots
      modifies dir.Repr(), file, file.volume.Repr()
      ensures Valid()
      ensures status == Success ==> i <= |old(dir.All())| && dir.All() == Inserted(old(dir.All()), i, d) && d.name == name
      ensures status != Success ==> status == VolumeFull && dir.All() == old(dir.All())
      ensures Resized(old(file.volume.Table()), old(file.chain), file.volume.Table(), file.chain)
      ensures SameElsewhere(file.Where(), old(file.volume.Data()), file.volume.Data(), 0, file.fileSize)
      ensures old(dir.Durable()) && LiveName(dir.sv, name) && !VolumeId(attributes) ==> dir.Durable()
      ensures dir.fixedRoot ==> file.volume.Table() == old(file.volume.Table())
    {
      hide ODir.Valid, Holds, Volume.Valid, Volume.Table, Volume.Data, NoMatch, ShortAvailable, BaseName, Is8Dot3, Taken, NoRoom, SlotsFor, Inserted,
        ODir.All, StoredAfter, Resized, SameElsewhere, EndSlots, SlotsOf, UniqueKeys, MustExpand, LiveName, ODir.Durable, Store, LfnCount,
        NeedsShort, IsDot, NameCrc, VolumeId, FreeSet, OFile.Covered, OFile.Where, OFile.Valid, Geometry.Ok;
      HoldsMeans(dir.slots);
      ghost var data0 := file.volume.Data();
      var needed := Plan(name);
      var expands := MakeRoom(needed, dir.slots);
      HoldsMeans(dir.slots + EndSlots(if expands then dir.clusterSlots else 0));
      status, d, i := Enter(name, attributes, stamp, needed, expands, labelPos, data0);
    }

    /** The entry is created in memory and written to the file, which has grown as far as needed. */
    method Enter(name: Name, attributes: Byte, stamp: seq<Byte>, needed: bool, expands: bool, labelPos: nat, ghost data0: seq<Byte>)
        returns (status: Status, d: DirEnt, ghost i: nat)
      requires dir.Valid() && dir.endOfDir && Apart() && dir.fixedRoot == file.isFixedRootDir
      requires !dir.fixedRoot ==> dir.clusterSlots == file.volume.g.clusterSize / SLOT
      requires needed == MustExpand(dir.fixedRoot, dir.currentEndPos + SlotsFor(dir.sv, name), |dir.slots|) && (expands ==> needed)
      requires Holds(dir.slots + EndSlots(if expands then dir.clusterSlots else 0))
      requires 1 <= |name| <= 255 && |stamp| == 19 && NoMatch(dir.sv, name, dir.All()) && !IsDot(name)
      requires NeedsShort(dir.sv, name) ==> ShortAvailable(dir.children, BaseName(dir.sv, name), NameCrc(dir.sv, name))
      requires dir.fixedRoot || LfnCount(|name|) + 1 <= dir.clusterSlots
      requires file.volume.g.Ok() && file.volume.Valid() && SameElsewhere(file.Where(), data0, file.volume.Data(), 0, file.fileSize)
      modifies dir.Repr(), file, file.volume.Repr()
      ensures Valid() && file.volume.Valid()
      ensures file.volume.Table() == old(file.volume.Table()) && file.chain == old(file.chain)
      ensures status == Success ==> i <= |old(dir.All())| && dir.All() == Inserted(old(dir.All()), i, d) && d.name == name
      ensures status != Success ==> status == VolumeFull && dir.All() == old(dir.All())
      ensures SameElsewhere(file.Where(), data0, file.volume.Data(), 0, file.fileSize)
      ensures old(dir.Durable()) && LiveName(dir.sv, name) && !VolumeId(attributes) ==> dir.Durable()
    {
      hide ODir.Valid, Holds, Volume.Valid, Volume.Table, Volume.Data, NoMatch, ShortAvailable, BaseName, Is8Dot3, Taken, NoRoom, SlotsFor, Inserted,
        ODir.All, StoredAfter, SameElsewhere, EndSlots, SlotsOf, UniqueKeys, LiveName, MustExpand, Store, ODir.Durable, LfnCount, CaseFlag;
      ghost var slots := dir.slots;
      ghost var n := if expands then dir.clusterSlots else 0;
      status, d, i := dir.CreateDirEnt(name, attributes, stamp, expands, labelPos);
      if status == Success {
        AfterMeans(slots, dir.slots, d, n);
        WriteEntry(d, slots + EndSlots(n), data0);
      } else {
        NoMoreSlots(slots);
      }
      HoldsMeans(dir.slots);
    }

    /** The rest of the directory is loaded, which tells whether the new entry needs another cluster. */
    method Plan(name: Name) returns (needed: bool)
      requires Valid()
      modifies dir.Repr()
      ensures Valid() && dir.endOfDir && dir.children == dir.All() == old(dir.All()) && dir.slots == old(dir.slots)
      ensures needed == MustExpand(dir.fixedRoot, dir.currentEndPos + SlotsFor(dir.sv, name), |dir.slots|)
      ensures file.volume.g.Ok() && (needed ==> !file.isFixedRootDir && file.fileSize + file.volume.g.clusterSize <= MAX_FILE_SIZE)
      ensures old(dir.Durable()) ==> dir.Durable()
    {
      hide ODir.Valid, Holds, ODir.All, SlotsFor, MustExpand, ODir.Durable, Geometry.Ok;
      dir.LoadAll();
      needed := MustExpand(dir.fixedRoot, dir.currentEndPos + SlotsFor(dir.sv, name), |dir.slots|);
      RoomBound(dir.currentEndPos + SlotsFor(dir.sv, name));
    }

    lemma HoldsMeans(slots: seq<Slot>)
      requires Holds(slots)
      ensures file.Valid() && file.volume.Valid() && file.volume.g.Ok() && file.Covered()
    {
    }

    /** The last step of a creation: the entry goes to its slots. */
    method WriteEntry(d: DirEnt, ghost slots: seq<Slot>, ghost data0: seq<Byte>)
      requires Holds(slots) && 1 <= d.entryCount <= MAX_LFN_ENTRIES + 1 && 0 <= d.First() && d.entryPos < |slots|
      requires file.volume.g.Ok() && SameElsewhere(file.Where(), data0, file.volume.Data(), 0, file.fileSize)
      modifies file, file.volume.Repr()
      ensures Holds(Store(slots, d, false)) && file.volume.Table() == old(file.volume.Table()) && file.chain == old(file.chain)
      ensures SameElsewhere(file.Where(), data0, file.volume.Data(), 0, file.fileSize)
    {
      hide Volume.Valid, Volume.Table, Volume.Data, SpaceOk, IsChain, CursorOk, Content, SameElsewhere, SlotsOf, Store, Mul, Extent.Fits,
        Extent.Capacity, OFile.Covered;
      SpaceGivesValid(file.volume);
      GeometryOk(file.volume);
      SlotsLength(file.Bytes(), file.fileSize);
      ghost var data1 := file.volume.Data();
      label Before:
      StoreOnFile(file, d, false);
      SpaceAfterWrite@Before(file.volume);
      SameElsewhereTrans(file.Where(), data0, data1, file.volume.Data(), file.fileSize);
    }

    lemma RoomBound(newEndPos: nat)
      requires Valid()
      ensures file.Valid() && file.volume.g.Ok()
      ensures MustExpand(dir.fixedRoot, newEndPos, |dir.slots|) ==>
        !file.isFixedRootDir && file.fileSize + file.volume.g.clusterSize <= MAX_FILE_SIZE
    {
      hide ODir.Indexed, ODir.CursorOk, ListOk, Rest, Boundary, Volume.Valid, Volume.Table, Volume.Data, SpaceOk, IsChain, CursorOk, Content, SlotsOf, Mul,
        OFile.Covered;
      GeometryOk(file.volume);
      SlotsLength(file.Bytes(), file.fileSize);
      if !dir.fixedRoot {
        WholeBound(dir.clusterSlots);
      }
    }
  }

  lemma SameSize(f: OFile, data: seq<Byte>, pos: nat, len: nat)
    requires f.volume.Valid() && f.volume.g.Ok() && SameElsewhere(f.Where(), data, f.volume.Data(), pos, len)
    ensures |data| == |f.volume.Data()|
  {
  }

  lemma WholeBound(clusterSlots: nat)
    requires Whole(0x1_0000, clusterSlots)
    ensures clusterSlots <= 0x1_0000
  {
    var m: nat :| 0x1_0000 == Mul(m, clusterSlots);
    MulSmall(clusterSlots);
    if m > 0 {
      MulMono(1, m, clusterSlots);
    }
  }

  lemma AfterMeans(slots: seq<Slot>, slots': seq<Slot>, d: DirEnt, n: nat)
    requires StoredAfter(slots, slots', d) && |slots'| == |slots| + n
    ensures 1 <= d.entryCount <= MAX_LFN_ENTRIES + 1 && 0 <= d.First() && d.entryPos < |slots + EndSlots(n)|
    ensures slots' == Store(slots + EndSlots(n), d, false)
  {
    hide Store;
  }
}
