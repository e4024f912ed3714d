/** Open files (FileSpace.c, ReadWrite.c): the cluster chain of a file, its growth, and byte access. */
module OpenFiles {
  import opened Bytes
  import opened DiskCaching
  import opened FatCodec
  import opened Chains
  import opened Volumes
  import opened FileSpace
  import opened Growth
  import opened FileBytes
  import opened Neighbours

  const MAX_FILE_SIZE: nat := 0xFFFF_FFFF

  /** FatSizeToClusters. */
  function SizeToClusters(clusterSize: nat, size: nat): nat
    requires 0 < clusterSize
  {
    Div(size, clusterSize) + if Mod(size, clusterSize) > 0 then 1 else 0
  }

  /** The least number of clusters that holds `size` bytes. */
  lemma SizeToClustersIsCeiling(clusterSize: nat, size: nat)
    requires 0 < clusterSize
    ensures var n := SizeToClusters(clusterSize, size);
      size <= Mul(n, clusterSize) && (n > 0 ==> Mul(n - 1, clusterSize) < size)
  {
    hide Div, Mod;
    DivMod(size, clusterSize);
  }

  /** A step that reads the volume: table, data and free information are as before. */
  twostate predicate OnlyRead(v: Volume)
    requires old(v.Valid()) && v.Valid()
    reads v, v.CacheRepr()
  {
    && v.Tidy() && v.dev.error == old(v.dev.error)
    && v.Table() == old(v.Table()) && v.Data() == old(v.Data())
    && v.freeInfoValid == old(v.freeInfoValid) && v.clusterCount == old(v.clusterCount) && v.nextCluster == old(v.nextCluster)
  }

  class OFile {
    const volume: Volume
    const isFixedRootDir: bool
    var fileSize: nat
    var fileCluster: nat
    var fileCurrentCluster: nat
    var fileLastCluster: nat
    var dirty: bool
    var archive: bool
    var position: nat
    var posDisk: nat
    var posRem: nat
    ghost var chain: seq<nat>

    constructor (volume: Volume, isFixedRootDir: bool, fileSize: nat, ghost chain: seq<nat>, fileCluster: nat)
      requires volume.Valid() && IsChain(volume.Table(), chain) && fileCluster == Head(chain)
      ensures Valid() && this.volume == volume && this.isFixedRootDir == isFixedRootDir
      ensures this.fileSize == fileSize && this.chain == chain
    {
      this.volume, this.isFixedRootDir, this.fileSize, this.chain := volume, isFixedRootDir, fileSize, chain;
      this.fileCluster, this.fileCurrentCluster, this.fileLastCluster := fileCluster, fileCluster, FREE;
      this.dirty, this.archive, this.position, this.posDisk, this.posRem := false, false, 0, 0, 0;
    }

    /** The cluster fields agree with the chain in the table. */
    ghost predicate Valid()
      reads this, volume, volume.CacheRepr()
    {
      && volume.Valid()
      && IsChain(volume.Table(), chain)
      && fileCluster == Head(chain)
      && (fileLastCluster == FREE || (chain != [] && fileLastCluster == Tail(chain)))
      && CursorOk(volume.g.clusterSize, chain, fileCurrentCluster, position)
    }

    /** The first part of FatShrinkEof: the `n`th cluster and what its predecessor links to. */
    method WalkClusters(n: nat) returns (st: Status, lastCluster: nat, cluster: nat)
      requires Valid()
      modifies volume.Repr()
      ensures Valid() && OnlyRead(volume)
      ensures st == if n <= |chain| then Success else VolumeCorrupted
      ensures n <= |chain| ==> lastCluster == Tail(chain[..n])
      ensures 0 < n <= |chain| ==> cluster == if n < |chain| then chain[n] else volume.Table()[chain[n - 1]]
      ensures n == 0 ==> cluster == fileCluster
    {
      hide EntryReads, EntryWritten, DirtyMark, DiskCache.View, Volume.Valid, Volume.Table, Volume.Data, Mirrored, CursorOk;
      GeometryOk(volume);
      ghost var t := volume.Table();
      st, cluster, lastCluster := Success, fileCluster, FREE;
      var curSize := 0;
      while curSize < n
        invariant 0 <= curSize <= n && curSize <= |chain|
        invariant Valid() && OnlyRead(volume) && volume.Table() == t
        invariant st == Success && lastCluster == Tail(chain[..curSize])
        invariant curSize > 0 ==> cluster == if curSize < |chain| then chain[curSize] else t[chain[curSize - 1]]
        invariant curSize == 0 ==> cluster == fileCluster
      {
        if cluster == FREE || cluster >= SPECIAL {
          return VolumeCorrupted, lastCluster, cluster;
        }
        assert curSize < |chain| && cluster == chain[curSize];
        lastCluster := cluster;
        cluster := volume.GetFatEntry(cluster);
        curSize := curSize + 1;
      }
    }

    /**
      FatShrinkEof: keeps exactly the clusters that the file size needs and frees the rest; a chain that
      is too short is reported as corrupt and left alone.
     */
    method ShrinkEof() returns (st: Status)
      requires Valid() && SpaceOk(volume)
      modifies this, volume.Repr()
      ensures Valid() && SpaceOk(volume) && volume.Tidy() && volume.Data() == old(volume.Data()) && fileSize == old(fileSize)
      ensures st == if Clusters() <= |old(chain)| then Success else VolumeCorrupted
      ensures CutBack(old(volume.Table()), old(chain), Clusters(), volume.Table(), chain)
    {
      hide EntryReads, EntryWritten, DirtyMark, DiskCache.View, Volume.Valid, Volume.Table, Volume.Data, Mirrored, CursorOk, Shrunk, FreeSet, CountOk, HintOk, LinksOk, SizeToClusters, IsChain;
      GeometryOk(volume);
      var newSize := SizeToClusters(volume.g.clusterSize, fileSize);
      var walked, lastCluster, cluster := WalkClusters(newSize);
      if walked != Success {
        return walked;
      }
      if newSize == 0 && cluster == FREE {
        ShrunkNothing(volume.Table(), chain);
        return Success;
      }
      st := CutChain(newSize, lastCluster, cluster);
    }

    /** The second part of FatShrinkEof: end the chain after `n` clusters and free what follows. */
    method CutChain(n: nat, lastCluster: nat, cluster: nat) returns (st: Status)
      requires Valid() && SpaceOk(volume) && n <= |chain| && chain != [] && lastCluster == Tail(chain[..n])
      requires cluster == if n < |chain| then chain[n] else volume.Table()[chain[n - 1]]
      modifies this, volume.Repr()
      ensures Valid() && SpaceOk(volume) && volume.Tidy() && volume.Data() == old(volume.Data()) && fileSize == old(fileSize)
      ensures st == Success && chain == old(chain)[..n] && volume.Table() == Shrunk(old(volume.Table()), old(chain), n)
    {
      hide EntryReads, EntryWritten, DirtyMark, DiskCache.View, Volume.Valid, Volume.Table, Volume.Data, Mirrored, CursorOk, Shrunk, SpaceOk, IsChain;
      assert this !in volume.Repr();
      CursorHome(volume.g.clusterSize, chain[..n], if n == 0 then FREE else fileCluster, position);
      if n == 0 {
        fileCluster := FREE;
      }
      fileCurrentCluster, fileLastCluster, dirty := fileCluster, lastCluster, true;
      st := CutTable(volume, chain, n, lastCluster, cluster);
      chain := chain[..n];
      SpaceGivesValid(volume);
    }

    /** FatGrowEof looks for the last cluster of a chain whose end is not known yet. */
    method FindLastCluster() returns (clusterCount: nat)
      requires Valid() && chain != []
      modifies `fileLastCluster, volume.Repr()
      ensures Valid() && OnlyRead(volume) && clusterCount == |chain| && fileLastCluster == Tail(chain)
    {
      hide EntryReads, EntryWritten, DirtyMark, DiskCache.View, Volume.Valid, Volume.Table, Volume.Data, Mirrored, CursorOk;
      GeometryOk(volume);
      ghost var t := volume.Table();
      var cluster := fileCluster;
      clusterCount := 0;
      while !EndMark(cluster)
        invariant clusterCount <= |chain|
        invariant volume.Valid() && OnlyRead(volume) && volume.Table() == t
        invariant cluster == if clusterCount < |chain| then chain[clusterCount] else t[Tail(chain)]
        invariant clusterCount > 0 ==> fileLastCluster == chain[clusterCount - 1]
        decreases |chain| - clusterCount
      {
        clusterCount := clusterCount + 1;
        fileLastCluster := cluster;
        cluster := volume.GetFatEntry(cluster);
      }
    }

    /** Record the clusters that LinkClusters put behind the chain. */
    method AdoptClusters(firstCluster: nat, lastCluster: nat, ghost before: Table, ghost added: seq<nat>)
      requires volume.Valid() && IsChain(before, chain) && Fresh(before, added) && volume.Table() == Grown(before, chain, added)
      requires fileCluster == Head(chain) && fileLastCluster == Tail(chain)
      requires CursorOk(volume.g.clusterSize, chain, fileCurrentCluster, position)
      requires lastCluster == Tail(chain + added) && (chain == [] && added != [] ==> firstCluster == added[0])
      modifies this
      ensures Valid() && chain == old(chain) + added && fileSize == old(fileSize)
    {
      hide EntryReads, EntryWritten, DirtyMark, DiskCache.View, Volume.Valid, Volume.Table, Volume.Data, Mirrored, CursorOk, Grown;
      GrownChain(before, chain, added);
      FreshNotFree(before, chain, added);
      assert this !in volume.Repr();
      if fileLastCluster == FREE && lastCluster != FREE {
        fileCluster, fileCurrentCluster := firstCluster, firstCluster;
      }
      CursorExtends(volume.g.clusterSize, chain, added, fileCurrentCluster, position);
      fileLastCluster := lastCluster;
      chain := chain + added;
    }

    /**
      FatGrowEof. With `need` clusters missing and accurate free information the file gains exactly the
      missing clusters when they are free; GrowOutcome says when VolumeFull is reported, and then the
      chain is cut back to what the unchanged file size needs.
     */
    method GrowEof(newSizeInBytes: nat) returns (st: Status, ghost added: seq<nat>)
      requires Valid() && SpaceOk(volume)
      modifies this, volume.Repr()
      ensures Valid() && SpaceOk(volume) && volume.Tidy() && volume.Data() == old(volume.Data())
      ensures Fresh(old(volume.Table()), added)
      ensures st == Success ==> fileSize == newSizeInBytes && dirty
      ensures st != Success ==> fileSize == old(fileSize)
      ensures newSizeInBytes > 0xFFFF_FFFF ==> st == Unsupported
      ensures newSizeInBytes > 0xFFFF_FFFF || !old(MustGrow(newSizeInBytes)) ==>
        added == [] && chain == old(chain) && volume.Table() == old(volume.Table())
      ensures newSizeInBytes <= 0xFFFF_FFFF && !old(MustGrow(newSizeInBytes)) ==> st == Success
      ensures newSizeInBytes <= 0xFFFF_FFFF && old(MustGrow(newSizeInBytes)) ==>
        if old(LengthMismatch()) then
          st == VolumeCorrupted && added == [] && CutBack(old(volume.Table()), old(chain), old(Clusters()), volume.Table(), chain)
        else
          && GrowOutcome(|FreeSet(old(volume.Table()))|, ClustersFor(newSizeInBytes) - old(Clusters()), st == VolumeFull, |added|)
          && (st == Success ==> chain == old(chain) + added && volume.Table() == Grown(old(volume.Table()), old(chain), added))
          && (st == Success || st == VolumeFull)
          && (st == VolumeFull ==>
               CutBack(Grown(old(volume.Table()), old(chain), added), old(chain) + added, old(Clusters()), volume.Table(), chain))
    {
      hide EntryReads, EntryWritten, DirtyMark, DiskCache.View, Volume.Valid, Volume.Table, Volume.Data, Mirrored, CursorOk, Grown, Shrunk, SpaceOk, IsChain, Fresh, FreeSet, SizeToClusters, CutBack;
      SpaceGivesValid(volume);
      GeometryOk(volume);
      added := [];
      NothingAdded(volume.Table());
      if newSizeInBytes > MAX_FILE_SIZE {
        return Unsupported, [];
      }
      var curSize := SizeToClusters(volume.g.clusterSize, fileSize);
      var newSize := SizeToClusters(volume.g.clusterSize, newSizeInBytes);
      if curSize < newSize {
        if fileCluster != FREE && fileLastCluster == FREE {
          var clusterCount := FindLastCluster();
          if clusterCount != curSize {
            SpaceAfterRead(volume);
            var ignored := ShrinkEof();
            return VolumeCorrupted, [];
          }
          SpaceAfterRead(volume);
        }
        HeadFree(volume.Table(), chain);
        st, added := Extend(curSize, newSize);
        if st != Success {
          return;
        }
      }
      fileSize, dirty := newSizeInBytes, true;
      st := Success;
    }

    /** The middle of FatGrowEof, with the last cluster known. */
    method Extend(curSize: nat, newSize: nat) returns (st: Status, ghost added: seq<nat>)
      requires Valid() && SpaceOk(volume) && fileLastCluster == Tail(chain) && curSize == Clusters() < newSize
      modifies this, volume.Repr()
      ensures Valid() && SpaceOk(volume) && volume.Tidy() && volume.Data() == old(volume.Data()) && fileSize == old(fileSize)
      ensures Fresh(old(volume.Table()), added) && (st == Success || st == VolumeFull)
      ensures GrowOutcome(|FreeSet(old(volume.Table()))|, newSize - curSize, st == VolumeFull, |added|)
      ensures st == Success ==> chain == old(chain) + added && volume.Table() == Grown(old(volume.Table()), old(chain), added)
      ensures st != Success ==>
        CutBack(Grown(old(volume.Table()), old(chain), added), old(chain) + added, curSize, volume.Table(), chain)
    {
      hide EntryReads, EntryWritten, DirtyMark, DiskCache.View, Volume.Valid, Volume.Table, Volume.Data, Mirrored, CursorOk, Grown, Shrunk, SpaceOk, IsChain, Fresh, FreeSet, SizeToClusters, CutBack;
      SpaceGivesValid(volume);
      ghost var t := volume.Table();
      var full, firstCluster, lastCluster;
      full, firstCluster, lastCluster, added := LinkClusters(volume, chain, fileLastCluster, curSize, newSize);
      SpaceGivesValid(volume);
      AdoptClusters(firstCluster, lastCluster, t, added);
      st := Success;
      if full {
        var ignored := ShrinkEof();
        st := VolumeFull;
      }
    }

    /** The number of clusters that the file size, or a new size, needs. */
    ghost function Clusters(): nat
      requires volume.g.Ok()
      reads `fileSize
    {
      ClustersFor(fileSize)
    }

    ghost function ClustersFor(size: nat): nat
      requires volume.g.Ok()
    {
      SizeToClusters(volume.g.clusterSize, size)
    }

    ghost predicate MustGrow(size: nat)
      requires volume.g.Ok()
      reads `fileSize
    {
      Clusters() < ClustersFor(size)
    }

    /** The end of the chain is not known yet, and its length will not match the file size. */
    ghost predicate LengthMismatch()
      requires volume.g.Ok()
      reads this
    {
      fileCluster != FREE && fileLastCluster == FREE && |chain| != Clusters()
    }

    /** Where the bytes of the file lie in the data area. */
    ghost function Where(): Extent
      requires volume.g.Ok()
      reads `chain, `fileSize
    {
      if isFixedRootDir then FixedRoot(fileSize)
      else Extent.Clusters(volume.g.firstClusterPos - volume.g.rootPos, volume.g.clusterSize, chain)
    }

    /** The clusters of the file cover its size. */
    ghost predicate Covered()
      requires volume.g.Ok()
      reads `chain, `fileSize
    {
      if isFixedRootDir then fileSize <= volume.g.firstClusterPos - volume.g.rootPos
      else fileSize <= Mul(|chain|, volume.g.clusterSize)
    }

    /** The bytes of the file up to the end of its last cluster. */
    ghost function Bytes(): (r: seq<Byte>)
      requires Valid() && Covered()
      reads this, volume, volume.CacheRepr()
      ensures fileSize <= |r|
    {
      WhereFits(this);
      Content(Where(), volume.Data())
    }

    /**
      The walk of FatOFilePosition, for any position: from the cached cluster, or from the start of the chain. A
      position in the cluster behind the last one is not refused: the walk ends at the end mark itself.
     */
    method SeekCluster(pos: nat) returns (st: Status, cluster: nat, startPos: nat, ghost k: nat)
      requires Valid()
      modifies volume.Repr()
      ensures Valid() && OnlyRead(volume)
      ensures st == if chain != [] && pos < Mul(|chain| + 1, volume.g.clusterSize) then Success else VolumeCorrupted
      ensures st == Success ==>
        k <= |chain| && cluster == LinkAt(volume.Table(), chain, k) && startPos == Mul(k, volume.g.clusterSize) <= pos < startPos + volume.g.clusterSize
    {
      hide EntryReads, EntryWritten, DirtyMark, DiskCache.View, Volume.Valid, Volume.Table, Volume.Data, Mirrored, Mul;
      GeometryOk(volume);
      ghost var t := volume.Table();
      var clusterSize := volume.g.clusterSize;
      cluster, startPos, st := fileCurrentCluster, position, Success;
      if pos < startPos || fileCluster == cluster {
        startPos, cluster, k := 0, fileCluster, 0;
        MulSmall(clusterSize);
      } else {
        k :| 0 <= k < |chain| && chain[k] == cluster && startPos == Mul(k, clusterSize);
      }
      while startPos + clusterSize <= pos
        invariant Valid() && OnlyRead(volume) && volume.Table() == t && st == Success
        invariant k <= |chain| && cluster == LinkAt(t, chain, k) && startPos == Mul(k, clusterSize) <= pos
        decreases pos - startPos
      {
        LinkKinds(t, chain, k);
        MulAdd(k, 1, clusterSize);
        MulSmall(clusterSize);
        startPos := startPos + clusterSize;
        if cluster == FREE || cluster >= SPECIAL {
          return VolumeCorrupted, cluster, startPos, k;
        }
        cluster := volume.GetFatEntry(cluster);
        k := k + 1;
      }
      LinkKinds(t, chain, k);
      MulMono(k, |chain|, clusterSize);
      MulAdd(|chain|, 1, clusterSize);
      MulSmall(clusterSize);
      if cluster < MIN_CLUSTER {
        st := VolumeCorrupted;
      }
    }

    /** A position that a cluster of the file covers. */
    method SeekInside(pos: nat) returns (st: Status, cluster: nat, startPos: nat, ghost k: nat)
      requires Valid() && pos < Mul(|chain|, volume.g.clusterSize)
      modifies volume.Repr()
      ensures Valid() && OnlyRead(volume) && st == Success
      ensures k < |chain| && cluster == chain[k] && startPos == Mul(k, volume.g.clusterSize) <= pos < startPos + volume.g.clusterSize
    {
      hide EntryReads, EntryWritten, DirtyMark, DiskCache.View, Volume.Valid, Volume.Table, Volume.Data, Mirrored, Mul, IsChain, CursorOk;
      GeometryOk(volume);
      ChainNonEmpty(chain, volume.g.clusterSize, pos);
      MulAdd(|chain|, 1, volume.g.clusterSize);
      MulSmall(volume.g.clusterSize);
      st, cluster, startPos, k := SeekCluster(pos);
    }

    /** The run of FatOFilePosition: clusters that follow each other, until `posLimit` bytes are covered. */
    method CountRun(cluster: nat, ghost k: nat, first: nat, posLimit: nat) returns (run: nat, ghost m: nat)
      requires Valid() && k < |chain| && cluster == chain[k]
      modifies volume.Repr()
      ensures Valid() && OnlyRead(volume)
      ensures 0 < m && Consecutive(chain, k, m) && run + volume.g.clusterSize == first + Mul(m, volume.g.clusterSize)
    {
      hide EntryReads, EntryWritten, DirtyMark, DiskCache.View, Volume.Valid, Volume.Table, Volume.Data, Mirrored, Mul, CursorOk;
      GeometryOk(volume);
      ghost var t := volume.Table();
      var current := cluster;
      run, m := first, 1;
      MulSmall(volume.g.clusterSize);
      var next := volume.GetFatEntry(current);
      while next == current + 1 && run < posLimit
        invariant Valid() && OnlyRead(volume) && volume.Table() == t
        invariant 0 < m && Consecutive(chain, k, m) && current == chain[k + m - 1] && next == t[current]
        invariant run + volume.g.clusterSize == first + Mul(m, volume.g.clusterSize)
        decreases |chain| - m
      {
        MulAdd(m, 1, volume.g.clusterSize);
        LinkInside(t, chain, k + m - 1);
        run, current, m := run + volume.g.clusterSize, current + 1, m + 1;
        next := volume.GetFatEntry(current);
      }
    }

    /**
      FatOFilePosition: whatever cluster the file was last positioned at, `posDisk` is the disk address of
      byte `pos`, and the next `posRem` bytes of the file follow it on the disk.
     */
    method OFilePosition(pos: nat, posLimit: nat) returns (st: Status)
      requires Valid() && Covered() && pos < fileSize
      modifies `fileCurrentCluster, `position, `posDisk, `posRem, volume.Repr()
      ensures Valid() && Covered() && OnlyRead(volume) && st == Success
      ensures volume.g.rootPos <= posDisk && 0 < posRem && Run(Where(), pos, posDisk - volume.g.rootPos, posRem)
    {
      hide EntryReads, EntryWritten, DirtyMark, DiskCache.View, Volume.Valid, Volume.Table, Volume.Data, Mirrored, Mul, CursorOk, IsChain, Run;
      GeometryOk(volume);
      if isFixedRootDir {
        FixedRun(fileSize, pos);
        posDisk := volume.g.rootPos + pos;
        posRem := fileSize - pos;
        return Success;
      }
      st := SeekRun(pos, posLimit);
    }

    /** FatOFilePosition for a cluster chain. */
    method SeekRun(pos: nat, posLimit: nat) returns (st: Status)
      requires Valid() && !isFixedRootDir && pos < Mul(|chain|, volume.g.clusterSize)
      modifies `fileCurrentCluster, `position, `posDisk, `posRem, volume.Repr()
      ensures Valid() && OnlyRead(volume) && st == Success
      ensures volume.g.rootPos <= posDisk && 0 < posRem && Run(Where(), pos, posDisk - volume.g.rootPos, posRem)
    {
      hide EntryReads, EntryWritten, DirtyMark, DiskCache.View, Volume.Valid, Volume.Table, Volume.Data, Mirrored, Mul, CursorOk, Consecutive, IsChain, Run, Extent.Capacity;
      GeometryOk(volume);
      var cluster, startPos;
      ghost var k;
      st, cluster, startPos, k := SeekInside(pos);
      if st != Success {
        return;
      }
      var run;
      ghost var m;
      run, m := CountRun(cluster, k, startPos + volume.g.clusterSize - pos, posLimit);
      ClusterInRange(volume.Table(), chain, k);
      MulAdd(k, m, volume.g.clusterSize);
      ConsecutiveRun(Where(), k, m, pos);
      CursorAt(volume.g.clusterSize, chain, k);
      posDisk := volume.g.firstClusterPos + Mul(cluster - MIN_CLUSTER, volume.g.clusterSize) + pos - startPos;
      fileCurrentCluster, position, posRem := cluster, startPos, run;
    }

    /** One round of FatAccessOFile: seek, clip to the run, transfer. */
    method AccessRun(mode: IoMode, ghost data0: seq<Byte>, ghost pos0: nat, n: nat, pos: nat, buffer: seq<Byte>, done: seq<Byte>)
      returns (st: Status, len: nat, out: seq<Byte>)
      requires Valid() && Covered() && pos == pos0 + n && n < |buffer| && pos0 + |buffer| <= fileSize
      requires Accessed(mode, Where(), data0, volume.Data(), pos0, n, buffer, done)
      modifies this, volume.Repr()
      ensures Valid() && Covered() && st == Success && 0 < len && n + len <= |buffer|
      ensures volume.Tidy() && volume.dev.error == old(volume.dev.error) && volume.Table() == old(volume.Table()) && FreeInfoKept(volume)
      ensures fileSize == old(fileSize) && chain == old(chain)
      ensures dirty == (old(dirty) || mode.WriteDisk?) && archive == (old(archive) || mode.WriteDisk?)
      ensures Accessed(mode, Where(), data0, volume.Data(), pos0, n + len, buffer, out)
    {
      hide EntryReads, EntryWritten, DirtyMark, DiskCache.View, Volume.Valid, Volume.Table, Volume.Data, Mirrored, Mul, CursorOk, IsChain, Content, Done, SameElsewhere, Accessed, Splice, Run, Extent.Fits, Extent.Capacity, OFile.Covered, OFile.Where;
      GeometryOk(volume);
      WhereFits(this);
      AccessedShape(mode, Where(), data0, volume.Data(), pos0, n, buffer, done);
      st := OFilePosition(pos, |buffer| - n);
      if st != Success {
        return;
      }
      len := if |buffer| - n > posRem then posRem else |buffer| - n;
      RunShorter(Where(), pos, posDisk - volume.g.rootPos, posRem, len);
      st, out := TransferRun(volume, mode, Where(), data0, pos0, n, posDisk, len, buffer, done);
      if st != Success {
        return;
      }
      if mode.WriteDisk? {
        dirty, archive := true, true;
      }
    }

    /**
      FatAccessOFile, blocking: the file is a byte sequence. A read returns the requested slice; a write
      replaces exactly that slice, and no other byte of the data area changes.
     */
    method AccessOFile(mode: IoMode, pos0: nat, buffer: seq<Byte>) returns (st: Status, out: seq<Byte>)
      requires Valid() && Covered() && pos0 + |buffer| <= fileSize
      modifies this, volume.Repr()
      ensures Valid() && Covered() && st == Success && |out| == |buffer|
      ensures volume.Tidy() && volume.dev.error == old(volume.dev.error) && volume.Table() == old(volume.Table()) && FreeInfoKept(volume)
      ensures fileSize == old(fileSize) && chain == old(chain)
      ensures mode.ReadDisk? ==> volume.Data() == old(volume.Data()) && out == Bytes()[pos0..pos0 + |buffer|]
      ensures mode.WriteDisk? ==> Bytes() == Splice(old(Bytes()), pos0, buffer)
      ensures mode.WriteDisk? ==> SameElsewhere(Where(), old(volume.Data()), volume.Data(), pos0, |buffer|)
      ensures dirty == (old(dirty) || (mode.WriteDisk? && buffer != [])) && archive == (old(archive) || (mode.WriteDisk? && buffer != []))
    {
      hide Volume.Valid, Volume.Data, Volume.Table, Mirrored, Mul, CursorOk, IsChain, Content, Done, SameElsewhere, Accessed, Splice;
      GeometryOk(volume);
      WhereFits(this);
      ghost var data0 := volume.Data();
      AccessedStart(mode, Where(), data0, pos0, buffer);
      st, out := Success, buffer;
      var n := 0;
      while n < |buffer|
        invariant n <= |buffer| && st == Success && Valid() && Covered()
        invariant volume.Tidy() && volume.dev.error == old(volume.dev.error) && volume.Table() == old(volume.Table()) && FreeInfoKept(volume)
        invariant fileSize == old(fileSize) && chain == old(chain)
        invariant Accessed(mode, Where(), data0, volume.Data(), pos0, n, buffer, out)
        invariant dirty == (old(dirty) || (mode.WriteDisk? && n > 0)) && archive == (old(archive) || (mode.WriteDisk? && n > 0))
      {
        var len;
        st, len, out := AccessRun(mode, data0, pos0, n, pos0 + n, buffer, out);
        if st != Success {
          return;
        }
        n := n + len;
      }
      AccessedAll(mode, Where(), data0, volume.Data(), pos0, buffer, out);
    }

    /** FatWriteZeroPool: the file reads as zero from `from` to its end; every other byte is kept. */
    method WriteZeroPool(from: nat) returns (st: Status)
      requires Valid() && Covered() && from <= fileSize
      modifies this, volume.Repr()
      ensures Valid() && Covered() && st == Success
      ensures volume.Tidy() && volume.dev.error == old(volume.dev.error) && volume.Table() == old(volume.Table()) && FreeInfoKept(volume)
      ensures fileSize == old(fileSize) && chain == old(chain)
      ensures Bytes() == Splice(old(Bytes()), from, Zeros(fileSize - from))
      ensures SameElsewhere(Where(), old(volume.Data()), volume.Data(), from, fileSize - from)
    {
      hide Volume.Valid, Volume.Data, Volume.Table, Mirrored, Mul, CursorOk, IsChain, Content, SameElsewhere, Zeroed, Splice, Extent.Capacity, Extent.Fits, OFile.Covered, OFile.Where;
      GeometryOk(volume);
      WhereFits(this);
      ghost var e, data0 := Where(), volume.Data();
      var appendedSize: nat := fileSize - from;
      var bufferSize: nat := if appendedSize > MAX_ALLOCATE_SIZE then MAX_ALLOCATE_SIZE else appendedSize;
      var writePos := from;
      ZeroedStart(e, data0, from);
      st := Success;
      while true
        invariant Valid() && Covered() && st == Success
        invariant volume.Tidy() && volume.dev.error == old(volume.dev.error) && volume.Table() == old(volume.Table()) && FreeInfoKept(volume)
        invariant fileSize == old(fileSize) && chain == old(chain)
        invariant from <= writePos && writePos + appendedSize == fileSize
        invariant appendedSize > 0 ==> bufferSize > 0
        invariant Zeroed(e, data0, volume.Data(), from, writePos - from)
        decreases appendedSize
      {
        var writeSize: nat := if appendedSize > bufferSize then bufferSize else appendedSize;
        appendedSize := appendedSize - writeSize;
        ghost var data1 := volume.Data();
        var out;
        st, out := AccessOFile(WriteDisk, writePos, Zeros(writeSize));
        if st != Success {
          break;
        }
        ZeroedMore(e, data0, data1, volume.Data(), from, writePos - from, writeSize);
        writePos := writePos + writeSize;
        if appendedSize == 0 {
          break;
        }
      }
      ZeroedAll(e, data0, volume.Data(), from, fileSize - from);
    }

    /** The chain has exactly the clusters that the file size needs. */
    ghost predicate Sized()
      requires volume.g.Ok()
      reads `chain, `fileSize
    {
      !isFixedRootDir && |chain| == Clusters()
    }

    /** Growing to `size` does not ask for exactly one cluster more than are free. */
    ghost predicate Growable(size: nat)
      requires Valid()
      reads this, volume, volume.CacheRepr()
    {
      var free := |FreeSet(volume.Table())|;
      !(0 < free && ClustersFor(size) == Clusters() + free + 1)
    }

    ghost predicate RoomFor(size: nat)
      requires Valid()
      reads this, volume, volume.CacheRepr()
    {
      size <= MAX_FILE_SIZE && ClustersFor(size) <= Clusters() + |FreeSet(volume.Table())|
    }

    /**
      FatGrowEof on a file whose chain matches its size: all or nothing, except that a request for one cluster more
      than are free leaves the last cluster out. A growth that succeeds covers the new size exactly when the
      request is `Growable`.
     */
    method GrowSized(size: nat) returns (st: Status, ghost added: seq<nat>)
      requires Valid() && SpaceOk(volume) && Sized() && fileSize <= size
      modifies this, volume.Repr()
      ensures Valid() && SpaceOk(volume) && volume.Tidy() && volume.Data() == old(volume.Data())
      ensures st == Success <==> old(RoomFor(size)) || (size <= MAX_FILE_SIZE && !old(Growable(size)))
      ensures Fresh(old(volume.Table()), added)
      ensures st == Success ==> fileSize == size && chain == old(chain) + added
      ensures st == Success ==> Enlarged(old(volume.Table()), old(chain), volume.Table(), chain)
      ensures st == Success ==> (Sized() <==> old(Growable(size))) && (Covered() <==> old(Growable(size)))
      ensures st == Success && !old(Growable(size)) ==>
        |chain| + 1 == Clusters() && chain != [] && volume.Table()[Tail(chain)] == LAST
      ensures st != Success ==> Sized()
      ensures st != Success ==> fileSize == old(fileSize) && chain == old(chain) && EndMarkOnly(old(volume.Table()), chain, volume.Table())
    {
      hide EntryReads, EntryWritten, DirtyMark, DiskCache.View, Volume.Valid, Volume.Table, Volume.Data, Mirrored, CursorOk, Grown, Shrunk, SpaceOk, IsChain, Fresh, FreeSet, SizeToClusters, CutBack, Enlarged, EndMarkOnly, Mul;
      SpaceGivesValid(volume);
      GeometryOk(volume);
      ClustersMono(volume.g.clusterSize, fileSize, size);
      ghost var t, cs := volume.Table(), chain;
      st, added := GrowEof(size);
      if st == Success {
        EnlargedBy(t, cs, added);
        CoveredWhenSized(volume.g.clusterSize, |chain|, size);
        if added != [] {
          GrownEnd(t, cs, added);
        }
      } else {
        if st == VolumeFull {
          CutBackRestores(t, cs, added, volume.Table(), chain);
        }
        EndMarkSame(t, cs);
        added := [];
        NothingAdded(old(volume.Table()));
      }
    }

    /**
      What the seek makes of the last byte of a file that was grown to a size it could not be given: it is sent to an
      address three clusters below the first one, modulo 2^64, in the FATs or the root directory.
     */
    method SeekUncovered(size: nat) returns (st: Status, posDisk: nat)
      requires Valid() && SpaceOk(volume) && Sized() && fileSize < size <= MAX_FILE_SIZE && !Growable(size)
      modifies this, volume.Repr()
      ensures Valid() && SpaceOk(volume) && st == Success && fileSize == size && !Covered()
      ensures Mul(|chain|, volume.g.clusterSize) <= size - 1
      ensures posDisk == StrayAddress(volume.g, size - 1 - Mul(|chain|, volume.g.clusterSize))
    {
      hide EntryReads, EntryWritten, DirtyMark, DiskCache.View, Volume.Valid, Volume.Table, Volume.Data, Mirrored, CursorOk, SpaceOk, IsChain, Fresh, FreeSet, Enlarged, EndMarkOnly, Mul;
      SpaceGivesValid(volume);
      GeometryOk(volume);
      ghost var added;
      st, added := GrowSized(size);
      SpaceGivesValid(volume);
      ghost var t, cs := volume.Table(), volume.g.clusterSize;
      SizeToClustersIsCeiling(cs, size);
      var cluster, startPos;
      ghost var k;
      label Grown:
      st, cluster, startPos, k := SeekCluster(size - 1);
      SpaceAfterRead@Grown(volume);
      SeekEnds(|chain|, k, cs, size - 1);
      posDisk := (volume.g.firstClusterPos + Mul(cluster - MIN_CLUSTER, volume.g.clusterSize) + (size - 1 - startPos)) % UINT64_LIMIT;
      StrayFromLast(volume.g, size - 1 - startPos);
    }

    /** FatExpandOFile: the file keeps its bytes and is extended by zeros, or stays as it was. */
    method ExpandOFile(size: nat) returns (st: Status)
      requires Valid() && SpaceOk(volume) && Sized() && Covered() && fileSize <= size && Growable(size)
      modifies this, volume.Repr()
      ensures Valid() && SpaceOk(volume) && Sized() && Covered() && volume.Tidy()
      ensures st == Success <==> old(RoomFor(size))
      ensures st == Success ==> fileSize == size && Bytes()[..size] == old(Bytes())[..old(fileSize)] + Zeros(size - old(fileSize))
      ensures st == Success ==> SameElsewhere(Where(), old(volume.Data()), volume.Data(), old(fileSize), size - old(fileSize))
      ensures st != Success ==> fileSize == old(fileSize) && chain == old(chain) && volume.Data() == old(volume.Data())
      ensures st == Success ==> Enlarged(old(volume.Table()), old(chain), volume.Table(), chain)
      ensures st != Success ==> EndMarkOnly(old(volume.Table()), chain, volume.Table())
      ensures OthersKept(volume.g, old(volume.Table()), old(chain), old(volume.Data()), volume.Table(), chain, volume.Data())
    {
      hide EntryReads, EntryWritten, DirtyMark, DiskCache.View, Volume.Valid, Volume.Table, Volume.Data, Mirrored, CursorOk, SpaceOk, IsChain, Fresh, FreeSet, SizeToClusters, Content, SameElsewhere, Splice, Enlarged, EndMarkOnly, OthersKept;
      SpaceGivesValid(volume);
      GeometryOk(volume);
      WhereFits(this);
      ghost var t, data0 := volume.Table(), volume.Data();
      ghost var cs, oldSize, oldBytes := chain, fileSize, Bytes();
      var writePos := fileSize;
      ghost var added;
      st, added := GrowSized(size);
      SizedCovers(this);
      if st == Success {
        GrownBytes(this, cs, added, oldBytes);
        ghost var grown := Bytes();
        label Grow:
        st := WriteZeroPool(writePos);
        SpaceAfterWrite@Grow(volume);
        ZeroTail(oldBytes, grown, Bytes(), oldSize, size);
        FileOthersKept(this, t, cs, data0, oldSize, size - oldSize);
      } else {
        WhereFits(this);
        NothingWritten(Where(), data0);
        FileOthersKept(this, t, cs, data0, 0, 0);
      }
    }

    /** The growth in front of a write that passes the end of the file: earlier bytes are kept. */
    method GrowForWrite(endPosition: nat) returns (st: Status)
      requires Valid() && SpaceOk(volume) && Sized() && Covered() && Growable(endPosition)
      modifies this, volume.Repr()
      ensures Valid() && SpaceOk(volume) && Sized() && Covered() && volume.Tidy() && volume.Data() == old(volume.Data())
      ensures st == Success <==> endPosition <= old(fileSize) || old(RoomFor(endPosition))
      ensures st == Success ==> fileSize == if endPosition > old(fileSize) then endPosition else old(fileSize)
      ensures st == Success ==> |old(Bytes())| <= |Bytes()| && Bytes()[..|old(Bytes())|] == old(Bytes())
      ensures st == Success ==> Enlarged(old(volume.Table()), old(chain), volume.Table(), chain)
      ensures st != Success ==> fileSize == old(fileSize) && chain == old(chain) && EndMarkOnly(old(volume.Table()), chain, volume.Table())
    {
      hide EntryReads, EntryWritten, DirtyMark, DiskCache.View, Volume.Valid, Volume.Table, Volume.Data, Mirrored, CursorOk, SpaceOk, IsChain, Fresh, FreeSet, SizeToClusters, Content, Enlarged, EndMarkOnly;
      SpaceGivesValid(volume);
      GeometryOk(volume);
      WhereFits(this);
      st := Success;
      ghost var t, cs, oldBytes := volume.Table(), chain, Bytes();
      if endPosition > fileSize {
        ghost var added;
        st, added := GrowSized(endPosition);
        SizedCovers(this);
        if st == Success {
          GrownBytes(this, cs, added, oldBytes);
        }
      } else {
        NothingAdded(t);
        EnlargedBy(t, cs, []);
      }
    }

    /** The file part of FatIFileAccess for a write at `pos`. */
    method WriteAt(pos: nat, buffer: seq<Byte>) returns (st: Status)
      requires Valid() && SpaceOk(volume) && Sized() && Covered() && Growable(pos + |buffer|)
      modifies this, volume.Repr()
      ensures Valid() && SpaceOk(volume) && Sized() && Covered() && volume.Tidy()
      ensures st == Success <==> pos + |buffer| <= old(fileSize) || old(RoomFor(pos + |buffer|))
      ensures st == Success ==> fileSize == if pos + |buffer| > old(fileSize) then pos + |buffer| else old(fileSize)
      ensures st == Success ==> Bytes()[pos..pos + |buffer|] == buffer
      ensures st == Success ==> forall x :: 0 <= x < old(fileSize) && !(pos <= x < pos + |buffer|) ==> Bytes()[x] == old(Bytes())[x]
      ensures st == Success ==> SameElsewhere(Where(), old(volume.Data()), volume.Data(), pos, |buffer|)
      ensures st == Success ==> Enlarged(old(volume.Table()), old(chain), volume.Table(), chain)
      ensures st != Success ==> fileSize == old(fileSize) && chain == old(chain) && volume.Data() == old(volume.Data())
      ensures st != Success ==> EndMarkOnly(old(volume.Table()), chain, volume.Table())
      ensures OthersKept(volume.g, old(volume.Table()), old(chain), old(volume.Data()), volume.Table(), chain, volume.Data())
    {
      hide EntryReads, EntryWritten, DirtyMark, DiskCache.View, Volume.Valid, Volume.Table, Volume.Data, Mirrored, CursorOk, SpaceOk, IsChain, FreeSet, SizeToClusters, Content, SameElsewhere, Splice, Enlarged, EndMarkOnly, OthersKept, Mul, Extent.Fits, Extent.Capacity;
      SpaceGivesValid(volume);
      GeometryOk(volume);
      ghost var t, cs, data0, oldBytes, oldSize := volume.Table(), chain, volume.Data(), Bytes(), fileSize;
      st := GrowForWrite(pos + |buffer|);
      SpaceGivesValid(volume);
      if st != Success {
        NothingWritten(Where(), data0);
        FileOthersKept(this, t, cs, data0, 0, 0);
        return;
      }
      ghost var grown := Bytes();
      label Grow:
      var out;
      st, out := AccessOFile(WriteDisk, pos, buffer);
      SpaceAfterWrite@Grow(volume);
      WrittenBytes(oldBytes, grown, Bytes(), pos, buffer, oldSize);
      FileOthersKept(this, t, cs, data0, pos, |buffer|);
    }

    /** FatTruncateOFile: the remaining bytes are kept and the clusters behind them become free. */
    method TruncateOFile(size: nat) returns (st: Status)
      requires Valid() && SpaceOk(volume) && !isFixedRootDir && Covered() && size <= fileSize
      modifies this, volume.Repr()
      ensures Valid() && SpaceOk(volume) && Sized() && Covered() && volume.Tidy() && volume.Data() == old(volume.Data())
      ensures st == Success && fileSize == size && chain <= old(chain)
      ensures Bytes()[..size] == old(Bytes())[..size]
      ensures FreeSet(volume.Table()) == old(FreeSet(volume.Table())) + (Elements(old(chain)) - Elements(chain))
      ensures Cut(old(volume.Table()), old(chain), volume.Table(), chain)
      ensures OthersKept(volume.g, old(volume.Table()), old(chain), old(volume.Data()), volume.Table(), chain, volume.Data())
    {
      hide EntryReads, EntryWritten, DirtyMark, DiskCache.View, Volume.Valid, Volume.Table, Volume.Data, Mirrored, CursorOk, Shrunk, SpaceOk, IsChain, FreeSet, SizeToClusters, Content, SameElsewhere, OthersKept;
      SpaceGivesValid(volume);
      GeometryOk(volume);
      WhereFits(this);
      ghost var t, cs, oldBytes := volume.Table(), chain, Bytes();
      CoveredWhenSized(volume.g.clusterSize, |chain|, size);
      assert this !in volume.Repr();
      fileSize := size;
      st := ShrinkEof();
      ShrunkChain(t, cs, Clusters());
      ElementsSplit(t, cs, Clusters());
      SizedCovers(this);
      ShrunkBytes(this, cs, oldBytes);
      WhereFits(this);
      NothingWritten(Where(), volume.Data());
      FileOthersKept(this, t, cs, volume.Data(), 0, 0);
    }
  }

  // ---------------------------------------------------------------- the allocation loop of FatGrowEof

  /**
    The state of the loop: `added` is linked behind `cs`. `wrapped` tells that the allocator has handed
    out the last added cluster a second time, because its own entry still read as free.
   */
  ghost predicate Growing(t: Table, cs: seq<nat>, added: seq<nat>, wrapped: bool, now: Table, next: nat) {
    && IsChain(t, cs) && Fresh(t, added) && MIN_CLUSTER <= next
    && if wrapped then
         added != [] && FreeSet(t) == Elements(added) && now == Rewritten(GrowTable(t, cs, added), Tail(added))
       else
         Scanning(t, added, next) && now == GrowTable(t, cs, added)
  }

  ghost function Rewritten(t: Table, c: nat): (r: Table)
    ensures |r| == |t|
  {
    if c < |t| then t[c := c] else t
  }

  /** What the allocator finds in a growing state. */
  lemma GrowingFinds(t: Table, cs: seq<nat>, added: seq<nat>, wrapped: bool, now: Table, next: nat, c: nat)
    requires Growing(t, cs, added, wrapped, now, next) && |now| == |t|
    requires FreeSet(now) != {} ==> Least(c, Candidates(now, next))
    ensures FreeSet(now) == {} ==> FreeSet(t) == Elements(added) && (wrapped || added == [])
    ensures FreeSet(now) != {} ==> !wrapped && Index(t, c)
    ensures FreeSet(now) != {} && FreeSet(t) - Elements(added) != {} ==>
      && c !in added
      && Growing(t, cs, added + [c], false, Link(now, Tail(cs + added), c), c + 1)
      && Tail(cs + (added + [c])) == c
    ensures FreeSet(now) != {} && FreeSet(t) - Elements(added) == {} ==>
      && c == Tail(cs + added)
      && Growing(t, cs, added, true, Link(now, Tail(cs + added), c), c + 1)
  {
    hide GrowTable;
    GrowLength(t, cs, added);
    FreshJoin(t, cs, added);
    if wrapped {
      GrowingFree(t, cs, added);
      assert Tail(added) in FreeSet(t);
      FreeAfterSet(GrowTable(t, cs, added), Tail(added), Tail(added));
      assert FreeSet(now) == {};
    } else if FreeSet(t) - Elements(added) != {} {
      GrowingFree(t, cs, added);
      ScanNew(t, cs, added, next, c);
      AppendFresh(t, cs, added, c);
      assert cs + added != [] ==> Index(t, Tail(cs + added));
    } else {
      ScanWrapped(t, cs, added, next);
      assert added != [] ==> Index(t, Tail(added)) && c == Tail(added);
    }
  }

  lemma GrowingNext(t: Table, cs: seq<nat>, added: seq<nat>, wrapped: bool, now: Table, next: nat)
    requires Growing(t, cs, added, wrapped, now, next)
    ensures MIN_CLUSTER <= next
    ensures cs + added != [] ==> Index(t, Tail(cs + added))
  {
    FreshJoin(t, cs, added);
  }

  lemma GrowingStart(t: Table, cs: seq<nat>, next: nat)
    requires IsChain(t, cs) && HintOk(t, next) && |t| <= SPECIAL
    ensures Growing(t, cs, [], false, t, next)
  {
  }

  /** Writing the end mark completes the growth, also after the allocator has wrapped. */
  lemma GrowingEnd(t: Table, cs: seq<nat>, added: seq<nat>, wrapped: bool, now: Table, next: nat)
    requires Growing(t, cs, added, wrapped, now, next) && |now| == |t|
    ensures IsChain(t, cs) && Fresh(t, added) && HintOk(Grown(t, cs, added), next)
    ensures LinksOk(t) ==> LinksOk(Grown(t, cs, added))
    ensures cs + added == [] ==> now == Grown(t, cs, added)
    ensures cs + added != [] ==> Index(now, Tail(cs + added)) && LinkValue(now, LAST) && now[Tail(cs + added) := LAST] == Grown(t, cs, added)
  {
    hide GrowTable;
    FreshJoin(t, cs, added);
    GrowLength(t, cs, added);
    HintAfterGrowth(t, cs, added, next);
    GrownChain(t, cs, added);
    GrowNothing(t, cs, added);
  }

  lemma GrowNothing(t: Table, cs: seq<nat>, added: seq<nat>)
    requires IsChain(t, cs) && Fresh(t, added)
    ensures cs + added == [] ==> GrowTable(t, cs, added) == t
  {
  }

  lemma GrowingCount(t: Table, cs: seq<nat>, added: seq<nat>, wrapped: bool, now: Table, next: nat)
    requires Growing(t, cs, added, wrapped, now, next)
    ensures |added| <= |FreeSet(t)|
    ensures FreeSet(t) == Elements(added) ==> |added| == |FreeSet(t)|
    ensures wrapped ==> 0 < |added| == |FreeSet(t)|
  {
    hide GrowTable;
    AddedCount(t, added);
  }

  lemma GrowingAnyHint(t: Table, cs: seq<nat>, added: seq<nat>, wrapped: bool, now: Table, next: nat, next': nat)
    requires Growing(t, cs, added, wrapped, now, next) && MIN_CLUSTER <= next'
    requires FreeSet(t) == Elements(added) && (wrapped || added == [])
    ensures Growing(t, cs, added, wrapped, now, next')
  {
    hide GrowTable;
    assert added == [] ==> FreeSet(t) == {};
  }

  lemma LinkTarget(g: Geometry, t: Table, c: nat)
    requires g.Ok() && |t| == g.maxCluster + 2 && Index(t, c)
    ensures Storable(g.fatType, c) && LinkValue(t, c)
  {
  }

  /** One round: allocate a cluster and link it behind the last one. */
  method GrowOnce(v: Volume, ghost t: Table, ghost cs: seq<nat>, lastCluster: nat, ghost added: seq<nat>, ghost wrapped: bool)
    returns (newCluster: nat, ghost added': seq<nat>, ghost wrapped': bool)
    requires v.Valid() && !v.dev.error && LinksOk(v.Table()) && CountOk(v.Table(), v.freeInfoValid, v.clusterCount)
    requires |t| == |v.Table()| && Growing(t, cs, added, wrapped, v.Table(), v.nextCluster) && lastCluster == Tail(cs + added)
    modifies v.Repr()
    ensures v.Valid() && v.Tidy() && !v.dev.error && v.Data() == old(v.Data())
    ensures LinksOk(v.Table()) && CountOk(v.Table(), v.freeInfoValid, v.clusterCount)
    ensures Growing(t, cs, added', wrapped', v.Table(), v.nextCluster)
    ensures newCluster == LAST <==> FreeSet(old(v.Table())) == {}
    ensures newCluster == LAST ==> added' == added && wrapped' == wrapped && FreeSet(t) == Elements(added) && (wrapped || added == [])
    ensures newCluster != LAST ==> Index(t, newCluster) && !wrapped && newCluster == Tail(cs + added')
    ensures newCluster != LAST ==> added' == if wrapped' then added else added + [newCluster]
  {
    hide EntryReads, EntryWritten, DirtyMark, DiskCache.View, Volume.Valid, Volume.Table, Volume.Data, Mirrored, Growing, LinksOk, CountOk, FreeSet, Candidates, Least, LinkValue, HintOk, Storable;
    GeometryOk(v);
    GrowingNext(t, cs, added, wrapped, v.Table(), v.nextCluster);
    ghost var now, next := v.Table(), v.nextCluster;
    RightCountRecounts(now, v.freeInfoValid, v.clusterCount);
    FreeFromWithin(now, next);
    newCluster := AllocateCluster(v);
    GrowingFinds(t, cs, added, wrapped, now, next, newCluster);
    added', wrapped' := added, wrapped;
    if newCluster == LAST {
      GrowingAnyHint(t, cs, added, wrapped, now, next, v.nextCluster);
      return;
    }
    if FreeSet(t) - Elements(added) != {} {
      added' := added + [newCluster];
    } else {
      wrapped' := true;
    }
    if lastCluster != FREE {
      LinkTarget(v.g, now, newCluster);
      SetLink(v, lastCluster, newCluster);
    }
  }

  /**
    What a growth by `need` clusters does when `free` clusters are free: `full` is reported, `added`
    clusters are linked. A request for one cluster more than are free is the exception: it is not
    reported although one cluster is missing.
   */
  ghost predicate GrowOutcome(free: nat, need: nat, full: bool, added: nat) {
    && added == (if need <= free then need else free)
    && (full <==> need > free && !(0 < free && need == free + 1))
  }

  /** The loop of FatGrowEof and the end mark it writes. */
  method LinkClusters(v: Volume, ghost cs: seq<nat>, fileLastCluster: nat, from: nat, newSize: nat)
    returns (full: bool, firstCluster: nat, lastCluster: nat, ghost added: seq<nat>)
    requires SpaceOk(v) && IsChain(v.Table(), cs) && fileLastCluster == Tail(cs) && from < newSize
    modifies v.Repr()
    ensures SpaceOk(v) && v.Tidy() && v.Data() == old(v.Data())
    ensures Fresh(old(v.Table()), added) && v.Table() == Grown(old(v.Table()), cs, added)
    ensures lastCluster == Tail(cs + added) && (cs == [] && added != [] ==> firstCluster == added[0])
    ensures GrowOutcome(|FreeSet(old(v.Table()))|, newSize - from, full, |added|)
  {
    hide EntryReads, EntryWritten, DirtyMark, DiskCache.View, Volume.Valid, Volume.Table, Volume.Data, Mirrored, Growing, LinksOk, CountOk, HintOk, FreeSet, Grown, IsChain, Fresh;
    GeometryOk(v);
    ghost var t := v.Table();
    ghost var wrapped := false;
    added := [];
    assert cs + added == cs;
    GrowingStart(t, cs, v.nextCluster);
    var curSize := from;
    lastCluster, firstCluster, full := fileLastCluster, FREE, false;
    while curSize < newSize
      invariant from <= curSize <= newSize && curSize == from + |added| + (if wrapped then 1 else 0)
      invariant v.Valid() && v.Tidy() && !v.dev.error && v.Data() == old(v.Data()) && |v.Table()| == |t|
      invariant LinksOk(v.Table()) && CountOk(v.Table(), v.freeInfoValid, v.clusterCount)
      invariant Growing(t, cs, added, wrapped, v.Table(), v.nextCluster)
      invariant lastCluster == Tail(cs + added) && (cs == [] && added != [] ==> firstCluster == added[0])
      invariant !full
    {
      GrowingNext(t, cs, added, wrapped, v.Table(), v.nextCluster);
      var newCluster;
      ghost var added', wrapped';
      newCluster, added', wrapped' := GrowOnce(v, t, cs, lastCluster, added, wrapped);
      if EndMark(newCluster) {
        full := true;
        break;
      }
      if lastCluster == FREE {
        firstCluster := newCluster;
      }
      lastCluster, added, wrapped := newCluster, added', wrapped';
      curSize := curSize + 1;
    }
    GrowingEnd(t, cs, added, wrapped, v.Table(), v.nextCluster);
    GrowingCount(t, cs, added, wrapped, v.Table(), v.nextCluster);
    if lastCluster != FREE {
      SetLink(v, lastCluster, LAST);
    }
  }

  /** The table side of FatShrinkEof. */
  method CutTable(v: Volume, ghost cs: seq<nat>, n: nat, lastCluster: nat, cluster: nat) returns (st: Status)
    requires SpaceOk(v) && IsChain(v.Table(), cs) && n <= |cs| && cs != [] && lastCluster == Tail(cs[..n])
    requires cluster == if n < |cs| then cs[n] else v.Table()[cs[n - 1]]
    modifies v.Repr()
    ensures SpaceOk(v) && v.Tidy() && v.Data() == old(v.Data())
    ensures st == Success && v.Table() == Shrunk(old(v.Table()), cs, n) && IsChain(v.Table(), cs[..n])
  {
    hide EntryReads, EntryWritten, DirtyMark, DiskCache.View, Volume.Valid, Volume.Table, Volume.Data, Mirrored, Shrunk, SpaceOk, ReachSet, Ends, Cleared, IsChain, LinkValue;
    SpaceGivesValid(v);
    ghost var t := v.Table();
    ReachTail(t, cs, n);
    ShrunkChain(t, cs, n);
    if n != 0 {
      ChainEnd(t, cs, n);
      SetEndMark(v, lastCluster);
    }
    st := FreeClusters(v, cluster);
    SpaceGivesValid(v);
  }

  /** The free-cluster information is as before. */
  twostate predicate FreeInfoKept(v: Volume)
    reads v
  {
    v.freeInfoValid == old(v.freeInfoValid) && v.clusterCount == old(v.clusterCount) && v.nextCluster == old(v.nextCluster)
  }

  /** The transfer of one run: `len` more bytes of the access are done. */
  method TransferRun(volume: Volume, mode: IoMode, ghost e: Extent, ghost data0: seq<Byte>, ghost pos0: nat, n: nat, posDisk: nat, len: nat,
                     buffer: seq<Byte>, done: seq<Byte>) returns (st: Status, out: seq<Byte>)
    requires volume.Valid() && 0 < len && n + len <= |buffer| && volume.g.rootPos <= posDisk
    requires e.Fits(|volume.Data()|) && Run(e, pos0 + n, posDisk - volume.g.rootPos, len)
    requires Accessed(mode, e, data0, volume.Data(), pos0, n, buffer, done)
    modifies volume.CacheRepr()
    ensures volume.Valid() && volume.Tidy() && volume.dev.error == old(volume.dev.error) && volume.Table() == old(volume.Table())
    ensures st == Success && Accessed(mode, e, data0, volume.Data(), pos0, n + len, buffer, out)
  {
    hide EntryReads, EntryWritten, DirtyMark, DiskCache.View, Volume.Valid, Volume.Table, Volume.Data, Mirrored, Mul, Content, Done, SameElsewhere, Accessed, Splice, Run, Extent.Fits, Extent.Capacity;
    GeometryOk(volume);
    AccessedShape(mode, e, data0, volume.Data(), pos0, n, buffer, done);
    ghost var at, data1 := posDisk - volume.g.rootPos, volume.Data();
    RunInside(e, |data1|, pos0 + n, at, len);
    DataLength(volume);
    var part;
    st, part := volume.DiskIo(CacheData, mode, posDisk, buffer[n..n + len]);
    AccessedMore(mode, e, data0, data1, volume.Data(), pos0, n, at, buffer, done, part);
    out := done[..n] + part + done[n + len..];
  }

  lemma DataLength(v: Volume)
    requires v.Valid()
    ensures |v.Data()| == v.g.volumeSize - v.g.rootPos
  {
  }

  /** The first `n` bytes of an access at file position `pos` are done; `data` is the data area now, `data0` before. */
  ghost predicate Accessed(mode: IoMode, e: Extent, data0: seq<Byte>, data: seq<Byte>, pos: nat, n: nat, buffer: seq<Byte>, out: seq<Byte>) {
    && |data| == |data0| && e.Fits(|data0|)
    && Done(mode, Content(e, data0), Content(e, data), pos, n, buffer, out)
    && (mode.ReadDisk? ==> data == data0)
    && SameElsewhere(e, data0, data, pos, n)
  }

  lemma AccessedShape(mode: IoMode, e: Extent, data0: seq<Byte>, data: seq<Byte>, pos: nat, n: nat, buffer: seq<Byte>, out: seq<Byte>)
    requires Accessed(mode, e, data0, data, pos, n, buffer, out)
    ensures |data| == |data0| && e.Fits(|data0|) && n <= |buffer| == |out|
  {
  }

  lemma AccessedStart(mode: IoMode, e: Extent, data: seq<Byte>, pos: nat, buffer: seq<Byte>)
    requires e.Fits(|data|) && pos + |buffer| <= e.Capacity()
    ensures Accessed(mode, e, data, data, pos, 0, buffer, buffer)
  {
    hide Content;
    ContentLength(e, data);
  }

  lemma AccessedMore(mode: IoMode, e: Extent, data0: seq<Byte>, data1: seq<Byte>, data2: seq<Byte>, pos: nat, n: nat, at: nat,
                     buffer: seq<Byte>, out: seq<Byte>, part: seq<Byte>)
    requires Accessed(mode, e, data0, data1, pos, n, buffer, out) && n + |part| <= |buffer|
    requires Run(e, pos + n, at, |part|) && at + |part| <= |data1|
    requires mode.ReadDisk? ==> data2 == data1 && part == data1[at..at + |part|]
    requires mode.WriteDisk? ==> part == buffer[n..n + |part|] && data2 == Splice(data1, at, part)
    ensures Accessed(mode, e, data0, data2, pos, n + |part|, buffer, out[..n] + part + out[n + |part|..])
  {
    hide Content, SameElsewhere, Done;
    if mode.ReadDisk? {
      ReadRun(e, data1, pos + n, at, |part|);
      SameLonger(e, data0, data1, pos, n, n + |part|);
    } else {
      WriteRun(e, data1, pos + n, at, part);
      WriteRunElsewhere(e, data0, data1, pos, n, at, part);
    }
    DoneMore(mode, Content(e, data0), Content(e, data1), Content(e, data2), pos, n, buffer, out, part);
  }

  lemma SameLonger(e: Extent, data: seq<Byte>, data': seq<Byte>, pos: nat, n: nat, m: nat)
    requires e.Clusters? ==> 0 < e.clusterSize
    requires data == data' && pos + m <= e.Capacity()
    ensures SameElsewhere(e, data, data', pos, m)
  {
  }

  lemma AccessedAll(mode: IoMode, e: Extent, data0: seq<Byte>, data: seq<Byte>, pos: nat, buffer: seq<Byte>, out: seq<Byte>)
    requires Accessed(mode, e, data0, data, pos, |buffer|, buffer, out)
    ensures |out| == |buffer| && |data| == |data0| && e.Fits(|data0|) && pos + |buffer| <= |Content(e, data)| == |Content(e, data0)|
    ensures mode.ReadDisk? ==> data == data0 && out == Content(e, data)[pos..pos + |buffer|]
    ensures mode.WriteDisk? ==> Content(e, data) == Splice(Content(e, data0), pos, buffer) && SameElsewhere(e, data0, data, pos, |buffer|)
  {
    hide Content, SameElsewhere;
    assert out[..|buffer|] == out && buffer[..|buffer|] == buffer;
  }

  lemma FixedRun(size: nat, pos: nat)
    requires pos <= size
    ensures Run(FixedRoot(size), pos, pos, size - pos)
  {
  }

  lemma RunShorter(e: Extent, pos: nat, at: nat, len: nat, len': nat)
    requires e.Clusters? ==> 0 < e.clusterSize
    requires Run(e, pos, at, len) && len' <= len
    ensures Run(e, pos, at, len')
  {
  }

  const MAX_ALLOCATE_SIZE: nat := 0xA0_0000

  function Zeros(n: nat): (r: seq<Byte>)
    ensures |r| == n
  {
    seq(n, _ => 0)
  }

  /** The first `n` bytes from file position `pos` on have been zeroed. */
  ghost predicate Zeroed(e: Extent, data0: seq<Byte>, data: seq<Byte>, pos: nat, n: nat) {
    && |data| == |data0| && e.Fits(|data0|) && pos + n <= e.Capacity()
    && Content(e, data) == Splice(Content(e, data0), pos, Zeros(n))
    && SameElsewhere(e, data0, data, pos, n)
  }

  lemma ZeroedStart(e: Extent, data: seq<Byte>, pos: nat)
    requires e.Fits(|data|) && pos <= e.Capacity()
    ensures Zeroed(e, data, data, pos, 0)
  {
    hide Content;
    ContentLength(e, data);
  }

  lemma ZeroedMore(e: Extent, data0: seq<Byte>, data1: seq<Byte>, data2: seq<Byte>, pos: nat, n: nat, m: nat)
    requires Zeroed(e, data0, data1, pos, n) && |data2| == |data1| && pos + n + m <= e.Capacity()
    requires Content(e, data2) == Splice(Content(e, data1), pos + n, Zeros(m))
    requires SameElsewhere(e, data1, data2, pos + n, m)
    ensures Zeroed(e, data0, data2, pos, n + m)
  {
    hide Content;
    ContentLength(e, data0);
    SpliceJoin(Content(e, data0), pos, Zeros(n), Zeros(m));
    assert Zeros(n) + Zeros(m) == Zeros(n + m);
    SameElsewhereJoin(e, data0, data1, data2, pos, n, m);
  }

  lemma ZeroedAll(e: Extent, data0: seq<Byte>, data: seq<Byte>, pos: nat, n: nat)
    requires Zeroed(e, data0, data, pos, n)
    ensures |data| == |data0| && e.Fits(|data0|) && pos + n <= |Content(e, data0)|
    ensures Content(e, data) == Splice(Content(e, data0), pos, Zeros(n)) && SameElsewhere(e, data0, data, pos, n)
  {
    hide Content, SameElsewhere;
    ContentLength(e, data0);
  }

  lemma ClustersMono(clusterSize: nat, a: nat, b: nat)
    requires 0 < clusterSize && a <= b
    ensures SizeToClusters(clusterSize, a) <= SizeToClusters(clusterSize, b)
  {
    hide SizeToClusters, Mul;
    SizeToClustersIsCeiling(clusterSize, a);
    SizeToClustersIsCeiling(clusterSize, b);
    var n, m := SizeToClusters(clusterSize, a), SizeToClusters(clusterSize, b);
    if m < n {
      MulMono(m, n - 1, clusterSize);
    }
  }

  lemma SizedCovers(f: OFile)
    requires f.Valid() && f.Sized()
    ensures f.Covered()
  {
    SizeToClustersIsCeiling(f.volume.g.clusterSize, f.fileSize);
  }

  /** Growing does not touch the bytes that were there. */
  lemma GrownBytes(f: OFile, cs: seq<nat>, added: seq<nat>, oldBytes: seq<Byte>)
    requires f.Valid() && f.Covered() && !f.isFixedRootDir && f.chain == cs + added
    requires Extent.Clusters(f.volume.g.firstClusterPos - f.volume.g.rootPos, f.volume.g.clusterSize, cs).Fits(|f.volume.Data()|)
    requires oldBytes == Content(Extent.Clusters(f.volume.g.firstClusterPos - f.volume.g.rootPos, f.volume.g.clusterSize, cs), f.volume.Data())
    ensures |oldBytes| <= |f.Bytes()| && f.Bytes()[..|oldBytes|] == oldBytes
  {
    hide Volume.Table, Volume.Data, Inv, ViewOf, Content, Mul;
    WhereFits(f);
    ContentPrefix(f.volume.g.firstClusterPos - f.volume.g.rootPos, f.volume.g.clusterSize, cs, added, f.volume.Data());
    ContentLength(Extent.Clusters(f.volume.g.firstClusterPos - f.volume.g.rootPos, f.volume.g.clusterSize, cs), f.volume.Data());
  }

  lemma ElementsSplit(t: Table, cs: seq<nat>, n: nat)
    requires IsChain(t, cs) && n <= |cs|
    ensures Elements(cs[n..]) == Elements(cs) - Elements(cs[..n])
  {
    ChainDistinct(t, cs);
    forall c | c in cs[..n]
      ensures c !in cs[n..]
    {
      var i :| 0 <= i < n && cs[i] == c;
      assert forall j :: n <= j < |cs| ==> cs[j] != c;
    }
    assert cs == cs[..n] + cs[n..];
  }

  /** Shrinking does not touch the bytes that stay. */
  lemma ShrunkBytes(f: OFile, cs: seq<nat>, oldBytes: seq<Byte>)
    requires f.Valid() && f.Covered() && !f.isFixedRootDir && f.chain <= cs
    requires Extent.Clusters(f.volume.g.firstClusterPos - f.volume.g.rootPos, f.volume.g.clusterSize, cs).Fits(|f.volume.Data()|)
    requires oldBytes == Content(Extent.Clusters(f.volume.g.firstClusterPos - f.volume.g.rootPos, f.volume.g.clusterSize, cs), f.volume.Data())
    ensures |f.Bytes()| <= |oldBytes| && oldBytes[..|f.Bytes()|] == f.Bytes()
  {
    hide Volume.Table, Volume.Data, Inv, ViewOf, Content, Mul;
    WhereFits(f);
    var added := cs[|f.chain|..];
    assert cs == f.chain + added;
    ContentPrefix(f.volume.g.firstClusterPos - f.volume.g.rootPos, f.volume.g.clusterSize, f.chain, added, f.volume.Data());
    ContentLength(Extent.Clusters(f.volume.g.firstClusterPos - f.volume.g.rootPos, f.volume.g.clusterSize, cs), f.volume.Data());
    ContentLength(f.Where(), f.volume.Data());
  }

  lemma WrittenBytes(before: seq<Byte>, grown: seq<Byte>, after: seq<Byte>, pos: nat, buffer: seq<Byte>, n: nat)
    requires n <= |before| <= |grown| && grown[..|before|] == before
    requires pos + |buffer| <= |grown| && after == Splice(grown, pos, buffer)
    ensures after[pos..pos + |buffer|] == buffer
    ensures forall x :: 0 <= x < n && !(pos <= x < pos + |buffer|) ==> after[x] == before[x]
  {
    assert forall i :: 0 <= i < |before| ==> grown[i] == grown[..|before|][i];
  }

  lemma ZeroTail(before: seq<Byte>, grown: seq<Byte>, after: seq<Byte>, n: nat, m: nat)
    requires n <= |before| <= |grown| && n <= m <= |grown| && grown[..|before|] == before
    requires after == Splice(grown, n, Zeros(m - n))
    ensures after[..m] == before[..n] + Zeros(m - n)
  {
    assert forall i :: 0 <= i < n ==> after[i] == grown[i] == grown[..|before|][i];
  }

  twostate lemma SpaceAfterWrite(v: Volume)
    requires old(SpaceOk(v)) && v.Valid() && v.dev.error == old(v.dev.error) && v.Table() == old(v.Table()) && FreeInfoKept(v)
    ensures SpaceOk(v)
  {
  }

  /** A file that was resized and written leaves the other files of its volume alone. */
  lemma FileOthersKept(f: OFile, t: Table, cs: seq<nat>, data: seq<Byte>, pos: nat, len: nat)
    requires f.Valid() && f.Covered() && !f.isFixedRootDir && |data| == |f.volume.Data()|
    requires Resized(t, cs, f.volume.Table(), f.chain) && SameElsewhere(f.Where(), data, f.volume.Data(), pos, len)
    ensures OthersKept(f.volume.g, t, cs, data, f.volume.Table(), f.chain, f.volume.Data())
  {
    hide Resized, SameElsewhere, OthersKept, Extent.Fits;
    WhereFits(f);
    RootInside(f.volume);
    OthersKeptBy(f.volume.g, t, cs, data, f.volume.Table(), f.chain, f.volume.Data(), pos, len);
  }

  /** The cluster fields of a file agree with its chain. */
  ghost predicate FieldsOk(f: OFile)
    reads f
  {
    && f.fileCluster == Head(f.chain)
    && (f.fileLastCluster == FREE || (f.chain != [] && f.fileLastCluster == Tail(f.chain)))
    && CursorOk(f.volume.g.clusterSize, f.chain, f.fileCurrentCluster, f.position)
  }

  /** What OtherFileIntact needs to know of the other file before the operation. */
  lemma FileBefore(f: OFile)
    requires f.Valid() && f.Covered()
    ensures FieldsOk(f) && IsChain(f.volume.Table(), f.chain) && f.Where().Fits(|f.volume.Data()|)
    ensures f.Bytes() == Content(f.Where(), f.volume.Data())
  {
    WhereFits(f);
  }

  /**
    Two open files of a volume: when an operation on one, whose chain goes from `cs` to `cs'`, keeps the other
    files, as writing, expanding and truncating do, the other one stays valid with the same bytes, and their
    chains stay disjoint.
   */
  lemma OtherFileIntact(other: OFile, t: Table, cs: seq<nat>, data: seq<Byte>, cs': seq<nat>)
    requires other.volume.Valid() && other.volume.g.Ok() && other.Covered() && FieldsOk(other)
    requires IsChain(t, other.chain) && other.Where().Fits(|data|) && Disjoint(cs, other.chain)
    requires OthersKept(other.volume.g, t, cs, data, other.volume.Table(), cs', other.volume.Data())
    ensures other.Valid() && other.Bytes() == Content(other.Where(), data) && Disjoint(cs', other.chain)
  {
    hide Volume.Valid, Volume.Table, Volume.Data, IsChain, CursorOk, Content, Extent.Fits, Mul;
    if other.isFixedRootDir {
      var g := other.volume.g;
      RootBytes(other.fileSize, g.firstClusterPos - g.rootPos, data, other.volume.Data());
    }
  }

  /**
    Where byte `x` of a file is: in the cluster that its chain has at position x / clusterSize, cluster 2 being the first one
    of the volume; the fixed root directory is the first thing in the data area.
   */
  lemma ByteInPlace(f: OFile, x: nat)
    requires f.Valid() && f.Covered() && x < f.fileSize
    ensures var g, cs := f.volume.g, f.volume.g.clusterSize;
      && (f.isFixedRootDir ==> x < |f.volume.Data()| && f.Bytes()[x] == f.volume.Data()[x])
      && (!f.isFixedRootDir ==>
           && 0 < cs && x / cs < |f.chain|
           && var at := g.firstClusterPos - g.rootPos + (f.chain[x / cs] - 2) * cs + x % cs;
              0 <= at < |f.volume.Data()| && f.Bytes()[x] == f.volume.Data()[at])
  {
    hide Volume.Valid, Volume.Table, Volume.Data, CursorOk, Mul, Div, Mod;
    GeometryOk(f.volume);
    WhereFits(f);
    ContentAt(f.Where(), f.volume.Data(), x);
    if !f.isFixedRootDir {
      var cs := f.volume.g.clusterSize;
      InChain(x, |f.chain|, cs);
      ShiftsAreArithmetic(x, cs);
      ClusterInRange(f.volume.Table(), f.chain, x / cs);
      MulIsProduct(f.chain[x / cs] - 2, cs);
    }
  }

  lemma RootBytes(size: nat, base: nat, data: seq<Byte>, data': seq<Byte>)
    requires size <= base <= |data| == |data'| && data'[..base] == data[..base]
    ensures Content(FixedRoot(size), data') == Content(FixedRoot(size), data)
  {
    assert forall i :: 0 <= i < base ==> data'[i] == data'[..base][i] == data[..base][i] == data[i];
  }

  lemma RootInside(v: Volume)
    requires v.Valid()
    ensures v.g.firstClusterPos - v.g.rootPos <= |v.Data()|
  {
    hide Mul;
    DataLength(v);
  }

  /** The extent of a file lies inside the data area. */
  lemma WhereFits(f: OFile)
    requires f.Valid() && f.Covered()
    ensures f.Where().Fits(|f.volume.Data()|) && f.fileSize <= f.Where().Capacity()
  {
    hide Volume.Table, Volume.Data, Mul, Inv, ViewOf;
    var g, chain := f.volume.g, f.chain;
    ChainDistinct(f.volume.Table(), chain);
    forall i | 0 <= i < |chain|
      ensures MIN_CLUSTER <= chain[i] && Mul(chain[i] - MIN_CLUSTER, g.clusterSize) + g.clusterSize <= Mul(g.maxCluster, g.clusterSize)
    {
      GeometryOk(f.volume);
      MulMono(chain[i] - MIN_CLUSTER, g.maxCluster, g.clusterSize);
    }
  }

  lemma ChainNonEmpty(chain: seq<nat>, clusterSize: nat, pos: nat)
    requires pos < Mul(|chain|, clusterSize)
    ensures chain != []
  {
  }

  /** What the links of a chain lead to after `k` steps: a cluster, then the end mark; nothing for an empty chain. */
  ghost function LinkAt(t: Table, chain: seq<nat>, k: nat): nat
    requires IsChain(t, chain)
  {
    if k < |chain| then chain[k] else if chain == [] then FREE else t[Tail(chain)]
  }

  lemma LinkKinds(t: Table, chain: seq<nat>, k: nat)
    requires IsChain(t, chain) && k <= |chain|
    ensures k < |chain| ==> Index(t, LinkAt(t, chain, k)) && t[LinkAt(t, chain, k)] == LinkAt(t, chain, k + 1)
    ensures k == |chain| ==> if chain == [] then LinkAt(t, chain, k) == FREE else LinkAt(t, chain, k) > SPECIAL
  {
  }

  lemma LinkInside(t: Table, chain: seq<nat>, i: nat)
    requires IsChain(t, chain) && i < |chain| && t[chain[i]] == chain[i] + 1
    ensures i + 1 < |chain| && chain[i + 1] == chain[i] + 1
  {
  }

  lemma ClusterInRange(t: Table, chain: seq<nat>, k: nat)
    requires IsChain(t, chain) && k < |chain|
    ensures MIN_CLUSTER <= chain[k]
  {
  }

  /** A chain cut back to `n` clusters, or left alone when it does not have that many. */
  ghost predicate CutBack(t: Table, cs: seq<nat>, n: nat, t': Table, cs': seq<nat>) {
    && IsChain(t, cs)
    && if n <= |cs| then cs' == cs[..n] && t' == Shrunk(t, cs, n) else cs' == cs && t' == t
  }

  lemma EnlargedBy(t: Table, cs: seq<nat>, added: seq<nat>)
    requires IsChain(t, cs) && Fresh(t, added)
    ensures added != [] ==> Enlarged(t, cs, Grown(t, cs, added), cs + added)
    ensures added == [] ==> Enlarged(t, cs, t, cs) && cs + added == cs
  {
    hide IsChain, Grown;
    assert (cs + added)[|cs|..] == added;
    assert cs[|cs|..] == [];
  }

  lemma EndMarkSame(t: Table, cs: seq<nat>)
    requires IsChain(t, cs)
    ensures EndMarkOnly(t, cs, t)
  {
  }

  /** A growth that is undone leaves the chain and, up to the kind of end mark, the table. */
  lemma CutBackRestores(t: Table, cs: seq<nat>, added: seq<nat>, t': Table, cs': seq<nat>)
    requires IsChain(t, cs) && Fresh(t, added) && CutBack(Grown(t, cs, added), cs + added, |cs|, t', cs')
    ensures cs' == cs && EndMarkOnly(t, cs, t')
  {
    hide IsChain, Grown, Shrunk;
    GrowThenShrink(t, cs, added);
    assert (cs + added)[..|cs|] == cs;
  }

  const UINT64_LIMIT: nat := 0x1_0000_0000_0000_0000

  /** Where FatOFilePosition looks for offset `off` of a cluster numbered LAST. */
  ghost function StrayAddress(g: Geometry, off: nat): int {
    (g.firstClusterPos - 3 * g.clusterSize + off) % UINT64_LIMIT
  }

  lemma StrayFromLast(g: Geometry, off: nat)
    ensures (g.firstClusterPos + Mul(LAST - MIN_CLUSTER, g.clusterSize) + off) % UINT64_LIMIT == StrayAddress(g, off)
  {
    hide Mul;
    MulIsProduct(LAST - MIN_CLUSTER, g.clusterSize);
    MinusThree(g.firstClusterPos + off, g.clusterSize);
  }

  lemma MinusThree(x: nat, n: nat)
    ensures (x + (UINT64_LIMIT - 3) * n) % UINT64_LIMIT == (x - 3 * n) % UINT64_LIMIT
  {
    WholeWraps(x - 3 * n, n);
  }

  lemma {:induction false} WholeWraps(y: int, n: nat)
    ensures (y + UINT64_LIMIT * n) % UINT64_LIMIT == y % UINT64_LIMIT
  {
    if n > 0 {
      WholeWraps(y, n - 1);
      OneWrap(y + UINT64_LIMIT * (n - 1));
    }
  }

  lemma OneWrap(y: int)
    ensures (y + UINT64_LIMIT) % UINT64_LIMIT == y % UINT64_LIMIT
  {
  }

  /** On a volume with three clusters' worth of bytes in front of the first cluster that is in front of all clusters. */
  lemma StrayBelowClusters(g: Geometry, off: nat)
    requires off < g.clusterSize && 3 * g.clusterSize <= g.firstClusterPos < UINT64_LIMIT
    ensures StrayAddress(g, off) == g.firstClusterPos - 3 * g.clusterSize + off < g.firstClusterPos
  {
  }

  lemma SeekEnds(n: nat, k: nat, clusterSize: nat, pos: nat)
    requires k <= n && Mul(n, clusterSize) <= pos && pos < Mul(k, clusterSize) + clusterSize
    ensures k == n
  {
    if k < n {
      MulMono(k, n, clusterSize);
    }
  }

  lemma CoveredWhenSized(clusterSize: nat, n: nat, size: nat)
    requires 0 < clusterSize
    ensures n >= SizeToClusters(clusterSize, size) <==> size <= Mul(n, clusterSize)
  {
    hide Mul, SizeToClusters;
    SizeToClustersIsCeiling(clusterSize, size);
    var need := SizeToClusters(clusterSize, size);
    if need <= n {
      MulMono(need, n, clusterSize);
    } else {
      MulMono(n, need - 1, clusterSize);
    }
  }

  lemma GrownEnd(t: Table, cs: seq<nat>, added: seq<nat>)
    requires IsChain(t, cs) && Fresh(t, added) && added != []
    ensures Tail(cs + added) < |t| && Grown(t, cs, added)[Tail(cs + added)] == LAST
  {
    FreshJoin(t, cs, added);
  }

  lemma NothingAdded(t: Table)
    requires |t| <= SPECIAL
    ensures Fresh(t, [])
  {
  }

  twostate lemma SpaceAfterRead(v: Volume)
    requires old(SpaceOk(v)) && v.Valid() && OnlyRead(v)
    ensures SpaceOk(v)
  {
  }

  lemma HeadFree(t: Table, cs: seq<nat>)
    requires IsChain(t, cs)
    ensures Head(cs) == FREE <==> cs == []
  {
  }

  lemma FreshNotFree(t: Table, cs: seq<nat>, added: seq<nat>)
    requires IsChain(t, cs) && Fresh(t, added)
    ensures cs + added != [] ==> Tail(cs + added) != FREE
    ensures cs != [] ==> Tail(cs) != FREE
  {
  }

  lemma CursorExtends(clusterSize: nat, chain: seq<nat>, added: seq<nat>, current: nat, position: nat)
    requires if chain == [] && added != [] then current == Head(added) else CursorOk(clusterSize, chain, current, position)
    ensures CursorOk(clusterSize, chain + added, current, position)
    ensures Head(chain + added) == if chain == [] then Head(added) else Head(chain)
  {
    assert chain == [] ==> chain + added == added;
    assert chain != [] ==> Head(chain + added) == Head(chain);
    if chain != [] && current != Head(chain) {
      var k :| 0 <= k < |chain| && chain[k] == current && position == Mul(k, clusterSize);
      assert (chain + added)[k] == current;
    }
  }

  lemma SpaceGivesValid(v: Volume)
    requires SpaceOk(v)
    ensures v.Valid()
  {
  }

  lemma ChainEnd(t: Table, cs: seq<nat>, n: nat)
    requires IsChain(t, cs) && 0 < n <= |cs|
    ensures Index(t, cs[n - 1]) && Tail(cs[..n]) == cs[n - 1] && LinkValue(t, LAST)
  {
  }

  lemma CursorAt(clusterSize: nat, chain: seq<nat>, k: nat)
    requires k < |chain|
    ensures CursorOk(clusterSize, chain, chain[k], Mul(k, clusterSize))
  {
  }

  lemma CursorHome(clusterSize: nat, chain: seq<nat>, current: nat, position: nat)
    requires current == Head(chain)
    ensures CursorOk(clusterSize, chain, current, position)
  {
  }

  lemma ShrunkNothing(t: Table, cs: seq<nat>)
    requires IsChain(t, cs) && Head(cs) == FREE
    ensures cs == [] && Shrunk(t, cs, 0) == t
  {
  }

  /** The cached seek state: it names the first cluster, or the cluster that holds `position`. */
  ghost predicate CursorOk(clusterSize: nat, chain: seq<nat>, current: nat, position: nat) {
    || current == Head(chain)
    || exists k :: 0 <= k < |chain| && chain[k] == current && position == Mul(k, clusterSize)
  }
}
