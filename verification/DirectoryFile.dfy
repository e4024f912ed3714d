/**
  A directory as a file (DirectoryManage.c FatAccessEntry): slot `p` is the 32 bytes at 32 * `p` of the
  file, so reading and writing slots one at a time is what the file layer does with those bytes.
 */
module DirectoryFiles {
  import opened Bytes
  import opened LongNames
  import opened DirectoryLayout
  import opened DiskCaching
  import opened FatCodec
  import opened Chains
  import opened Volumes
  import opened FileSpace
  import opened Neighbours
  import opened FileBytes
  import opened OpenFiles

  const SLOT: nat := 32

  /** The whole slots of the first `size` bytes. */
  ghost function SlotsOf(bytes: seq<Byte>, size: nat): (r: seq<Slot>)
    requires size <= |bytes|
    ensures |r| == size / SLOT
  {
    seq(size / SLOT, p requires 0 <= p < size / SLOT => bytes[SLOT * p..SLOT * p + SLOT])
  }

  lemma SlotRead(bytes: seq<Byte>, size: nat, p: nat)
    requires size <= |bytes| && p < size / SLOT
    ensures SLOT * p + SLOT <= |bytes| && |SlotsOf(bytes, size)| == size / SLOT
    ensures SlotsOf(bytes, size)[p] == bytes[SLOT * p..SLOT * p + SLOT]
  {
  }

  lemma SlotWrite(bytes: seq<Byte>, size: nat, p: nat, slot: Slot)
    requires size <= |bytes| && p < size / SLOT
    ensures SLOT * p + SLOT <= |bytes|
    ensures SlotsOf(Splice(bytes, SLOT * p, slot), size) == SlotsOf(bytes, size)[p := slot]
  {
    var bytes' := Splice(bytes, SLOT * p, slot);
    forall q | 0 <= q < size / SLOT
      ensures SlotsOf(bytes', size)[q] == SlotsOf(bytes, size)[p := slot][q]
    {
      var a, b := bytes'[SLOT * q..SLOT * q + SLOT], bytes[SLOT * q..SLOT * q + SLOT];
      if q == p {
        assert a == slot;
      } else {
        assert a == b;
      }
    }
  }

  /** FatAccessEntry: one slot is read, or written and no other slot changes; behind the end an end mark is read. */
  method AccessEntry(f: OFile, mode: IoMode, entryPos: nat, entry: Slot) returns (st: Status, out: Slot)
    requires f.Valid() && f.Covered() && f.fileSize % SLOT == 0 && (mode.WriteDisk? ==> entryPos < f.fileSize / SLOT)
    modifies f, f.volume.Repr()
    ensures f.Valid() && f.Covered() && st == Success && f.fileSize == old(f.fileSize) && f.chain == old(f.chain)
    ensures f.volume.Table() == old(f.volume.Table()) && f.volume.dev.error == old(f.volume.dev.error) && FreeInfoKept(f.volume)
    ensures mode.WriteDisk? ==> SameElsewhere(f.Where(), old(f.volume.Data()), f.volume.Data(), 0, f.fileSize)
    ensures f.fileSize <= |f.Bytes()| && f.fileSize <= |old(f.Bytes())|
    ensures mode.ReadDisk? ==> f.volume.Data() == old(f.volume.Data())
    ensures mode.ReadDisk? && entryPos >= f.fileSize / SLOT ==> DirectoryLayout.EndMark(out)
    ensures mode.ReadDisk? && entryPos < f.fileSize / SLOT ==> out == SlotsOf(f.Bytes(), f.fileSize)[entryPos]
    ensures mode.WriteDisk? ==> SlotsOf(f.Bytes(), f.fileSize) == SlotsOf(old(f.Bytes()), f.fileSize)[entryPos := entry]
  {
    hide Volume.Valid, Volume.Table, Volume.Data, Mirrored, Mul, CursorOk, IsChain, Content, SameElsewhere, Splice, SlotsOf;
    GeometryOk(f.volume);
    WhereFits(f);
    if entryPos * SLOT >= f.fileSize {
      return Success, EndSlot();
    }
    var bytes;
    ghost var before := f.Bytes();
    SlotRead(before, f.fileSize, entryPos);
    if mode.WriteDisk? {
      SlotWrite(before, f.fileSize, entryPos, entry);
    }
    ghost var data0 := f.volume.Data();
    st, bytes := f.AccessOFile(mode, entryPos * SLOT, entry);
    out := bytes;
    WhereFits(f);
    if mode.WriteDisk? {
      SameElsewhereWiden(f.Where(), data0, f.volume.Data(), entryPos * SLOT, SLOT, f.fileSize);
    }
  }

  // ---------------------------------------------------------------- growing a directory

  /** The directory file consists of whole clusters, which consist of whole slots. */
  ghost predicate WholeSlots(f: OFile)
    requires f.volume.g.Ok()
    reads f
  {
    !f.isFixedRootDir && f.fileSize == Mul(|f.chain|, f.volume.g.clusterSize) && f.volume.g.clusterSize % SLOT == 0 && f.fileSize % SLOT == 0
  }

  /** One more cluster of slots is one more cluster: never the request that growth answers wrongly. */
  lemma OneClusterMore(clusterSize: nat, n: nat)
    requires 0 < clusterSize
    ensures SizeToClusters(clusterSize, Mul(n, clusterSize)) == n
    ensures SizeToClusters(clusterSize, Mul(n, clusterSize) + clusterSize) == n + 1
    ensures Mul(n + 1, clusterSize) == Mul(n, clusterSize) + clusterSize
  {
    PageOffset(n, 0, clusterSize);
    PageOffset(n + 1, 0, clusterSize);
    assert Mul(n + 1, clusterSize) == Mul(n, clusterSize) + clusterSize;
  }

  /** Bytes followed by zeros are slots followed by end marks. */
  lemma SlotsAppended(before: seq<Byte>, after: seq<Byte>, size: nat, more: nat)
    requires size <= |before| && size + more <= |after| && size % SLOT == 0 && more % SLOT == 0
    requires after[..size + more] == before[..size] + Zeros(more)
    ensures SlotsOf(after, size + more) == SlotsOf(before, size) + EndSlots(more / SLOT)
  {
    var m, n := size / SLOT, more / SLOT;
    assert size == SLOT * m && more == SLOT * n && (size + more) / SLOT == m + n;
    var all := after[..size + more];
    forall p | 0 <= p < m + n
      ensures SlotsOf(after, size + more)[p] == (SlotsOf(before, size) + EndSlots(n))[p]
    {
      SlotAppended(before, after, size, more, m, p);
    }
  }

  lemma SlotAppended(before: seq<Byte>, after: seq<Byte>, size: nat, more: nat, m: nat, p: nat)
    requires size <= |before| && size + more <= |after| && size == SLOT * m && SLOT * p + SLOT <= size + more
    requires after[..size + more] == before[..size] + Zeros(more)
    ensures after[SLOT * p..SLOT * p + SLOT] == if p < m then before[SLOT * p..SLOT * p + SLOT] else EndSlot()
  {
    var all, slot := after[..size + more], after[SLOT * p..SLOT * p + SLOT];
    assert forall i :: 0 <= i < SLOT ==> slot[i] == all[SLOT * p + i];
    if p < m {
      var was := before[SLOT * p..SLOT * p + SLOT];
      assert forall i :: 0 <= i < SLOT ==> was[i] == before[..size][SLOT * p + i];
      assert slot == was;
    } else {
      assert forall i :: 0 <= i < SLOT ==> slot[i] == 0;
      assert slot == EndSlot();
    }
  }

  /**
    FatExpandODir through the file layer: a cluster of end marks is appended exactly when a cluster is free, and
    otherwise the directory stays as it is. Other files are not touched.
   */
  method ExpandDirectory(f: OFile) returns (st: Status)
    requires f.Valid() && SpaceOk(f.volume) && f.Covered() && WholeSlots(f) && f.fileSize + f.volume.g.clusterSize <= MAX_FILE_SIZE
    modifies f, f.volume.Repr()
    ensures f.Valid() && SpaceOk(f.volume) && f.Covered() && WholeSlots(f)
    ensures st == Success <==> old(FreeSet(f.volume.Table())) != {}
    ensures f.fileSize <= |f.Bytes()| && f.fileSize == old(f.fileSize) + (if st == Success then f.volume.g.clusterSize else 0)
    ensures SlotsOf(f.Bytes(), f.fileSize)
      == SlotsOf(old(f.Bytes()), old(f.fileSize)) + EndSlots(if st == Success then f.volume.g.clusterSize / SLOT else 0)
    ensures OthersKept(f.volume.g, old(f.volume.Table()), old(f.chain), old(f.volume.Data()), f.volume.Table(), f.chain, f.volume.Data())
    ensures Resized(old(f.volume.Table()), old(f.chain), f.volume.Table(), f.chain)
    ensures SameElsewhere(f.Where(), old(f.volume.Data()), f.volume.Data(), 0, f.fileSize)
  {
    hide Volume.Valid, Volume.Table, Volume.Data, Mirrored, Mul, CursorOk, IsChain, Content, SameElsewhere, SlotsOf, OthersKept, FreeSet,
      SizeToClusters, SpaceOk, Enlarged, EndMarkOnly, EndSlots, Zeros;
    ghost var data0 := f.volume.Data();
    SpaceGivesValid(f.volume);
    GeometryOk(f.volume);
    var cs := f.volume.g.clusterSize;
    ghost var before, n, size := f.Bytes(), |f.chain|, f.fileSize;
    OneClusterMore(cs, n);
    st := f.ExpandOFile(f.fileSize + cs);
    SpaceGivesValid(f.volume);
    if st == Success {
      WholeAgain(f, n);
      SlotsAppended(before, f.Bytes(), size, cs);
      WhereFits(f);
      SameElsewhereWiden(f.Where(), data0, f.volume.Data(), size, cs, f.fileSize);
    } else {
      WhereFits(f);
      NothingWritten(f.Where(), data0);
      SameElsewhereWiden(f.Where(), data0, data0, 0, 0, f.fileSize);
      NoMoreSlots(SlotsOf(before, size));
    }
  }

  lemma NoMoreSlots(slots: seq<Slot>)
    ensures slots + EndSlots(0) == slots
  {
  }

  lemma WholeAgain(f: OFile, n: nat)
    requires f.volume.g.Ok() && f.Sized() && f.fileSize == Mul(n, f.volume.g.clusterSize) + f.volume.g.clusterSize
    requires f.volume.g.clusterSize % SLOT == 0 && Mul(n, f.volume.g.clusterSize) % SLOT == 0
    ensures WholeSlots(f)
  {
    hide Mul, SizeToClusters;
    OneClusterMore(f.volume.g.clusterSize, n);
    SumOfWhole(Mul(n, f.volume.g.clusterSize), f.volume.g.clusterSize);
  }

  lemma SumOfWhole(a: nat, b: nat)
    requires a % SLOT == 0 && b % SLOT == 0
    ensures (a + b) % SLOT == 0
  {
  }
}
