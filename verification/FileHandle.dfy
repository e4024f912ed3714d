/** File handles (ReadWrite.c, FatIFileAccess for files): reads and writes at the position of the handle. */
module FileHandles {
  import opened Bytes
  import opened DiskCaching
  import opened Chains
  import opened Volumes
  import opened FileSpace
  import opened FileBytes
  import opened Neighbours
  import opened OpenFiles

  class IFile {
    const ofile: OFile
    const readOnly: bool
    var position: nat

    constructor (ofile: OFile, readOnly: bool)
      ensures this.ofile == ofile && this.readOnly == readOnly && position == 0
    {
      this.ofile, this.readOnly, this.position := ofile, readOnly, 0;
    }

    ghost predicate Ready()
      reads this, ofile, ofile.volume, ofile.volume.CacheRepr()
    {
      ofile.Valid() && SpaceOk(ofile.volume) && ofile.Sized() && ofile.Covered()
    }

    /** FatIFileAccess, reading: the bytes from the position on, clipped at the end of the file. */
    method Read(buffer: seq<Byte>) returns (st: Status, out: seq<Byte>)
      requires ofile.Valid() && ofile.Covered()
      modifies this, ofile, ofile.volume.Repr()
      ensures ofile.Valid() && ofile.Covered() && ofile.volume.Tidy() && (old(Ready()) ==> Ready())
      ensures ofile.fileSize == old(ofile.fileSize) && ofile.chain == old(ofile.chain) && ofile.volume.Data() == old(ofile.volume.Data())
      ensures old(position) > ofile.fileSize ==> st == DeviceError && out == [] && position == old(position)
      ensures old(position) <= ofile.fileSize ==> st == Success && position == old(position) + |out|
      ensures old(position) <= ofile.fileSize ==>
        out == ofile.Bytes()[old(position)..if old(position) + |buffer| > ofile.fileSize then ofile.fileSize else old(position) + |buffer|]
    {
      hide Volume.Valid, Volume.Table, Volume.Data, Mirrored, SpaceOk, Content;
      GeometryOk(ofile.volume);
      WhereFits(ofile);
      if position > ofile.fileSize {
        return DeviceError, [];
      }
      var endPosition := position + |buffer|;
      var bufferSize := |buffer|;
      if endPosition > ofile.fileSize {
        bufferSize := bufferSize - (endPosition - ofile.fileSize);
      }
      st, out := ofile.AccessOFile(ReadDisk, position, buffer[..bufferSize]);
      if old(SpaceOk(ofile.volume)) {
        SpaceAfterWrite(ofile.volume);
      }
      position := position + |out|;
    }

    /**
      FatIFileAccess, writing: the file grows when the write passes its end, and then holds the buffer at
      the position of the handle; all earlier bytes are kept. When the clusters are not there nothing is
      written. Bytes between the old end and the position are those of the new clusters.
     */
    method Write(volumeReadOnly: bool, buffer: seq<Byte>) returns (st: Status, written: nat)
      requires Ready() && ofile.Growable(position + |buffer|)
      modifies this, ofile, ofile.volume.Repr()
      ensures Ready() && ofile.volume.Tidy() && position == old(position) + written
      ensures volumeReadOnly ==> st == WriteProtected
      ensures !volumeReadOnly && readOnly ==> st == AccessDenied
      ensures !volumeReadOnly && !readOnly ==>
        (st == Success <==> old(position) + |buffer| <= old(ofile.fileSize) || old(ofile.RoomFor(position + |buffer|)))
      ensures st != Success ==> written == 0 && ofile.fileSize == old(ofile.fileSize)
      ensures st != Success ==> ofile.chain == old(ofile.chain) && ofile.volume.Data() == old(ofile.volume.Data())
      ensures st == Success ==> written == |buffer|
      ensures st == Success ==>
        ofile.fileSize == if old(position) + |buffer| > old(ofile.fileSize) then old(position) + |buffer| else old(ofile.fileSize)
      ensures st == Success ==> ofile.Bytes()[old(position)..old(position) + |buffer|] == buffer
      ensures st == Success ==> forall x :: 0 <= x < old(ofile.fileSize) && !(old(position) <= x < old(position) + |buffer|) ==>
        ofile.Bytes()[x] == old(ofile.Bytes())[x]
      ensures st == Success ==>
        SameElsewhere(ofile.Where(), old(ofile.volume.Data()), ofile.volume.Data(), old(position), |buffer|)
      ensures st == Success ==> Enlarged(old(ofile.volume.Table()), old(ofile.chain), ofile.volume.Table(), ofile.chain)
      ensures st != Success ==> EndMarkOnly(old(ofile.volume.Table()), ofile.chain, ofile.volume.Table())
      ensures OthersKept(
          ofile.volume.g, old(ofile.volume.Table()), old(ofile.chain), old(ofile.volume.Data()),
          ofile.volume.Table(), ofile.chain, ofile.volume.Data())
    {
      hide Volume.Valid, Volume.Table, Volume.Data, Mirrored, SpaceOk, Content, SameElsewhere, FreeSet, SizeToClusters, Enlarged, EndMarkOnly, OthersKept, IsChain;
      SpaceGivesValid(ofile.volume);
      GeometryOk(ofile.volume);
      written := 0;
      if volumeReadOnly || readOnly {
        NothingChanged(ofile);
        return if volumeReadOnly then WriteProtected else AccessDenied, 0;
      }
      st := ofile.WriteAt(position, buffer);
      if st == Success {
        written := |buffer|;
        position := position + written;
      }
    }
  }

  /** A write through a handle, growing or not, leaves any other open file with a disjoint chain as it is. */
  method WriteBeside(h: IFile, other: OFile, volumeReadOnly: bool, buffer: seq<Byte>) returns (st: Status, written: nat)
    requires h.Ready() && h.ofile.Growable(h.position + |buffer|)
    requires other != h.ofile && other.volume == h.ofile.volume && other.Valid() && other.Covered()
    requires Disjoint(h.ofile.chain, other.chain)
    modifies h, h.ofile, h.ofile.volume.Repr()
    ensures h.Ready() && other.Valid() && other.Covered()
    ensures other.chain == old(other.chain) && other.Bytes() == old(other.Bytes()) && Disjoint(h.ofile.chain, other.chain)
  {
    hide Volume.Valid, Volume.Table, Volume.Data, SpaceOk, Content, IsChain, OthersKept, CursorOk, FreeSet, SizeToClusters;
    GeometryOk(other.volume);
    FileBefore(other);
    ghost var t, cs, data := other.volume.Table(), h.ofile.chain, other.volume.Data();
    st, written := h.Write(volumeReadOnly, buffer);
    ReadyMeans(h);
    OtherFileIntact(other, t, cs, data, h.ofile.chain);
  }

  lemma ReadyMeans(h: IFile)
    requires h.Ready()
    ensures h.ofile.volume.Valid()
  {
  }

  lemma NothingChanged(f: OFile)
    requires f.Valid() && f.Covered() && !f.isFixedRootDir
    ensures EndMarkOnly(f.volume.Table(), f.chain, f.volume.Table())
    ensures OthersKept(f.volume.g, f.volume.Table(), f.chain, f.volume.Data(), f.volume.Table(), f.chain, f.volume.Data())
  {
    hide OthersKept, SameElsewhere;
    WhereFits(f);
    NothingWritten(f.Where(), f.volume.Data());
    FileOthersKept(f, f.volume.Table(), f.chain, f.volume.Data(), 0, 0);
  }
}
