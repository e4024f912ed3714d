/**
  What an operation on one file leaves alone: the chains and the bytes of every other file of the volume, and
  the fixed root directory.
 */
module Neighbours {
  import opened Bytes
  import opened FatCodec
  import opened Chains
  import opened FileSpace
  import opened Growth
  import opened Volumes
  import opened FileBytes

  /** Where a chain lies in the data area. */
  ghost function ChainExtent(g: Geometry, chain: seq<nat>): Extent
    requires g.Ok()
  {
    Extent.Clusters(g.firstClusterPos - g.rootPos, g.clusterSize, chain)
  }

  /** Fresh clusters were linked behind the chain, or nothing happened. */
  ghost predicate Enlarged(t: Table, cs: seq<nat>, t': Table, cs': seq<nat>) {
    && IsChain(t, cs) && cs <= cs' && Fresh(t, cs'[|cs|..])
    && t' == if cs' == cs then t else Grown(t, cs, cs'[|cs|..])
  }

  /** Nothing but the kind of end mark of the chain changed. */
  ghost predicate EndMarkOnly(t: Table, cs: seq<nat>, t': Table) {
    IsChain(t, cs) && (t' == t || (cs != [] && t' == t[Tail(cs) := LAST]))
  }

  /** The chain was cut and its rest freed. */
  ghost predicate Cut(t: Table, cs: seq<nat>, t': Table, cs': seq<nat>) {
    IsChain(t, cs) && cs' <= cs && t' == Shrunk(t, cs, |cs'|)
  }

  ghost predicate Resized(t: Table, cs: seq<nat>, t': Table, cs': seq<nat>) {
    Enlarged(t, cs, t', cs') || (cs' == cs && EndMarkOnly(t, cs, t')) || Cut(t, cs, t', cs')
  }

  /**
    Every other file is as before: a chain that shares no cluster with this file is still a chain, still shares
    no cluster with it, and holds the same bytes; so does the area of the fixed root directory.
   */
  ghost predicate OthersKept(g: Geometry, t: Table, cs: seq<nat>, data: seq<Byte>, t': Table, cs': seq<nat>, data': seq<Byte>)
    requires g.Ok()
  {
    && |data'| == |data| && g.firstClusterPos - g.rootPos <= |data|
    && data'[..g.firstClusterPos - g.rootPos] == data[..g.firstClusterPos - g.rootPos]
    && forall other :: IsChain(t, other) && Disjoint(cs, other) ==>
         && IsChain(t', other) && Disjoint(cs', other)
         && (ChainExtent(g, other).Fits(|data|) ==> Content(ChainExtent(g, other), data') == Content(ChainExtent(g, other), data))
  }

  lemma NormalisedKeeps(t: Table, cs: seq<nat>, t': Table, other: seq<nat>)
    requires EndMarkOnly(t, cs, t') && IsChain(t, other) && Disjoint(cs, other)
    ensures IsChain(t', other)
  {
    if t' != t {
      assert cs[|cs| - 1] == Tail(cs);
      ChainFrame(t, t', other);
    }
  }

  lemma ResizedKeeps(t: Table, cs: seq<nat>, t': Table, cs': seq<nat>, other: seq<nat>)
    requires Resized(t, cs, t', cs') && IsChain(t, other) && Disjoint(cs, other)
    ensures IsChain(t', other) && Disjoint(cs', other)
  {
    hide IsChain, Grown, Shrunk;
    if Enlarged(t, cs, t', cs') {
      var added := cs'[|cs|..];
      assert cs' == cs + added;
      GrownOther(t, cs, added, other);
    } else if cs' == cs && EndMarkOnly(t, cs, t') {
      NormalisedKeeps(t, cs, t', other);
    } else {
      assert cs' == cs[..|cs'|];
      ShrunkOther(t, cs, |cs'|, other);
    }
  }

  /** A file that was resized and then written within its new extent leaves the others alone. */
  lemma OthersKeptBy(g: Geometry, t: Table, cs: seq<nat>, data: seq<Byte>, t': Table, cs': seq<nat>, data': seq<Byte>, pos: nat, len: nat)
    requires g.Ok() && g.firstClusterPos - g.rootPos <= |data| && Resized(t, cs, t', cs')
    requires ChainExtent(g, cs').Fits(|data|) && SameElsewhere(ChainExtent(g, cs'), data, data', pos, len)
    ensures OthersKept(g, t, cs, data, t', cs', data')
  {
    hide Resized, SameElsewhere, Content, IsChain, Extent.Fits;
    var e, base := ChainExtent(g, cs'), g.firstClusterPos - g.rootPos;
    SameLength(e, data, data', pos, len);
    forall other | IsChain(t, other) && Disjoint(cs, other)
      ensures IsChain(t', other) && Disjoint(cs', other)
      ensures ChainExtent(g, other).Fits(|data|) ==> Content(ChainExtent(g, other), data') == Content(ChainExtent(g, other), data)
    {
      ResizedKeeps(t, cs, t', cs', other);
      if ChainExtent(g, other).Fits(|data|) {
        OtherFileKept(e, ChainExtent(g, other), data, data', pos, len);
      }
    }
    RootAreaKept(e, base, data, data', pos, len);
  }

  lemma SameLength(e: Extent, data: seq<Byte>, data': seq<Byte>, pos: nat, len: nat)
    requires (e.Clusters? ==> 0 < e.clusterSize) && SameElsewhere(e, data, data', pos, len)
    ensures |data'| == |data|
  {
  }

  lemma RootAreaKept(e: Extent, base: nat, data: seq<Byte>, data': seq<Byte>, pos: nat, len: nat)
    requires e.Clusters? && e.base == base <= |data| && e.Fits(|data|) && SameElsewhere(e, data, data', pos, len)
    ensures |data'| == |data| && data'[..base] == data[..base]
  {
    hide Content, Mul;
    var root := FixedRoot(base);
    OtherFileKept(e, root, data, data', pos, len);
    RootContent(base, data);
    RootContent(base, data');
  }

  lemma RootContent(base: nat, data: seq<Byte>)
    requires base <= |data|
    ensures Content(FixedRoot(base), data) == data[..base]
  {
  }

  lemma NothingWritten(e: Extent, data: seq<Byte>)
    requires e.Clusters? ==> 0 < e.clusterSize
    ensures SameElsewhere(e, data, data, 0, 0)
  {
  }
}
