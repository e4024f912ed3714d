/** Disk space (FileSpace.c): counting, allocating and freeing clusters. */
module FileSpace {
  import opened Bytes
  import opened DiskCaching
  import opened FatCodec
  import opened Chains
  import opened Volumes

  /** Free clusters from `lo` on. */
  ghost function FreeFrom(t: Table, lo: nat): (s: set<nat>) {
    set c | MIN_CLUSTER <= c < |t| && lo <= c && t[c] == FREE
  }

  /** A free count that is marked valid is the number of free clusters. */
  ghost predicate CountOk(t: Table, valid: bool, count: nat) {
    valid ==> count == |FreeSet(t)|
  }

  /** No free cluster lies below the hint. */
  ghost predicate HintOk(t: Table, next: nat) {
    MIN_CLUSTER <= next && forall c :: c in FreeSet(t) ==> next <= c
  }

  lemma FreeFromStep(t: Table, i: nat)
    requires Index(t, i)
    ensures FreeFrom(t, i) == if t[i] == FREE then FreeFrom(t, i + 1) + {i} else FreeFrom(t, i + 1)
    ensures |FreeFrom(t, i)| == |FreeFrom(t, i + 1)| + if t[i] == FREE then 1 else 0
  {
    assert FreeFrom(t, i) == if t[i] == FREE then FreeFrom(t, i + 1) + {i} else FreeFrom(t, i + 1);
    assert i !in FreeFrom(t, i + 1);
  }

  lemma FreeFromAll(t: Table)
    ensures FreeFrom(t, MIN_CLUSTER) == FreeSet(t) && FreeFrom(t, |t|) == {}
  {
  }

  /** `c` is the least element of `s`. */
  ghost predicate Least(c: nat, s: set<nat>) {
    c in s && forall x :: x in s ==> c <= x
  }

  /**
    FatComputeFreeInfo: when the information is not valid, count the free clusters and point the hint
    at the least one; a full volume leaves the hint alone.
   */
  method ComputeFreeInfo(v: Volume)
    requires v.Valid() && !v.dev.error
    modifies v.Repr()
    ensures v.Valid() && v.Tidy() && !v.dev.error && v.Table() == old(v.Table()) && v.Data() == old(v.Data())
    ensures v.freeInfoValid
    ensures old(v.freeInfoValid) ==> v.clusterCount == old(v.clusterCount) && v.nextCluster == old(v.nextCluster)
    ensures !old(v.freeInfoValid) ==> v.clusterCount == |FreeSet(v.Table())|
    ensures !old(v.freeInfoValid) ==>
      if FreeSet(v.Table()) == {} then v.nextCluster == old(v.nextCluster) else Least(v.nextCluster, FreeSet(v.Table()))
  {
    hide EntryReads, EntryWritten, DirtyMark, DiskCache.View, Volume.Valid, Volume.Table, Volume.Data, Mirrored, FreeFrom, FreeSet;
    GeometryOk(v);
    ghost var t := v.Table();
    FreeFromAll(t);
    if !v.freeInfoValid {
      v.freeInfoValid, v.clusterCount := true, 0;
      var index := v.g.maxCluster + 1;
      while index >= MIN_CLUSTER
        invariant MIN_CLUSTER - 1 <= index <= v.g.maxCluster + 1
        invariant v.Valid() && v.Tidy() && !v.dev.error && v.Table() == t && v.Data() == old(v.Data())
        invariant v.freeInfoValid && v.clusterCount == |FreeFrom(t, index + 1)|
        invariant if FreeFrom(t, index + 1) == {} then v.nextCluster == old(v.nextCluster)
                  else Least(v.nextCluster, FreeFrom(t, index + 1))
      {
        if v.dev.error {
          break;
        }
        FreeFromStep(t, index);
        FreeFromAbove(t, index + 1);
        var entry := v.GetFatEntry(index);
        if entry == FREE {
          v.clusterCount := v.clusterCount + 1;
          v.nextCluster := index;
        }
        index := index - 1;
      }
    }
  }

  lemma FreeFromAbove(t: Table, lo: nat)
    ensures forall c :: c in FreeFrom(t, lo) ==> lo <= c
  {
  }

  lemma FreeFromEmpty(t: Table, lo: nat)
    requires |t| <= lo
    ensures FreeFrom(t, lo) == {}
  {
  }

  lemma FreeFromMember(t: Table, lo: nat, c: nat)
    ensures c in FreeFrom(t, lo) <==> c in FreeSet(t) && lo <= c
    ensures c in FreeSet(t) <==> MIN_CLUSTER <= c < |t| && t[c] == FREE
  {
  }

  /** Where FatAllocateCluster looks: from the hint on, and in the whole table when nothing is free there. */
  ghost function Candidates(t: Table, next: nat): set<nat> {
    if FreeFrom(t, next) != {} then FreeFrom(t, next) else FreeSet(t)
  }

  /** The recount at the end of the table is made: the count is not valid, or positive as a 32-bit signed number. */
  predicate CanRecount(valid: bool, count: nat) {
    !valid || 0 < count < 0x8000_0000
  }

  /** With a right count the recount is made unless no cluster is free. */
  lemma RightCountRecounts(t: Table, valid: bool, count: nat)
    requires |t| < 0x8000_0000 && CountOk(t, valid, count)
    ensures CanRecount(valid, count) || FreeSet(t) == {}
  {
    FreeBound(t);
  }

  /** The hint ran past the table: recount unless the count says that nothing is free. */
  method Rescan(v: Volume)
    requires v.Valid() && !v.dev.error && v.nextCluster > v.g.maxCluster + 1
    modifies v.Repr()
    ensures v.Valid() && v.Tidy() && !v.dev.error && v.Table() == old(v.Table()) && v.Data() == old(v.Data())
    ensures !CanRecount(old(v.freeInfoValid), old(v.clusterCount)) ==>
      v.freeInfoValid == old(v.freeInfoValid) && v.clusterCount == old(v.clusterCount) && v.nextCluster == old(v.nextCluster)
    ensures CanRecount(old(v.freeInfoValid), old(v.clusterCount)) ==> CountOk(v.Table(), v.freeInfoValid, v.clusterCount)
    ensures CanRecount(old(v.freeInfoValid), old(v.clusterCount)) ==>
      if FreeSet(v.Table()) == {} then v.nextCluster == old(v.nextCluster)
      else Least(v.nextCluster, FreeSet(v.Table())) && v.nextCluster <= v.g.maxCluster + 1
  {
    hide EntryReads, EntryWritten, DirtyMark, DiskCache.View, Volume.Valid, Volume.Table, Volume.Data, Mirrored, FreeSet;
    GeometryOk(v);
    if v.freeInfoValid && 0 < v.clusterCount < 0x8000_0000 {
      v.freeInfoValid := false;
    }
    ComputeFreeInfo(v);
    FreeFromMember(v.Table(), 0, v.nextCluster);
  }

  /**
    FatAllocateCluster, from any count and any hint: the least free cluster from the hint on, else, after a
    recount, the least free cluster of all. FAT_CLUSTER_LAST is returned when no cluster is free, and also when none
    is free from the hint on and the count forbids the recount; with a right count that does not happen. The
    table is only read.
   */
  method AllocateCluster(v: Volume) returns (c: nat)
    requires v.Valid() && !v.dev.error && MIN_CLUSTER <= v.nextCluster
    modifies v.Repr()
    ensures v.Valid() && v.Tidy() && !v.dev.error && v.Table() == old(v.Table()) && v.Data() == old(v.Data())
    ensures MIN_CLUSTER <= v.nextCluster
    ensures old(CountOk(v.Table(), v.freeInfoValid, v.clusterCount)) ==> CountOk(v.Table(), v.freeInfoValid, v.clusterCount)
    ensures c == LAST <==>
      (FreeFrom(v.Table(), old(v.nextCluster)) == {} && (FreeSet(v.Table()) == {} || !CanRecount(old(v.freeInfoValid), old(v.clusterCount))))
    ensures c != LAST ==> Least(c, Candidates(v.Table(), old(v.nextCluster))) && v.nextCluster == c + 1
  {
    hide EntryReads, EntryWritten, DirtyMark, DiskCache.View, Volume.Valid, Volume.Table, Volume.Data, Mirrored, FreeFrom, FreeSet, CountOk, Least, CanRecount;
    if v.dev.error {
      return LAST;
    }
    GeometryOk(v);
    ghost var t, next0, valid0, count0 := v.Table(), v.nextCluster, v.freeInfoValid, v.clusterCount;
    while true
      invariant next0 <= v.nextCluster && v.freeInfoValid == valid0 && v.clusterCount == count0
      invariant v.Valid() && v.Tidy() && !v.dev.error && v.Table() == t && v.Data() == old(v.Data())
      invariant FreeFrom(t, v.nextCluster) == FreeFrom(t, next0)
      decreases v.g.maxCluster + 2 - v.nextCluster
    {
      FreeFromWithin(t, next0);
      if v.nextCluster > v.g.maxCluster + 1 {
        FreeFromEmpty(t, v.nextCluster);
        Rescan(v);
        if v.nextCluster > v.g.maxCluster + 1 {
          return LAST;
        }
        LeastIsFree(t, v.nextCluster);
      } else {
        AtHint(t, v.nextCluster);
      }
      var entry := v.GetFatEntry(v.nextCluster);
      if entry == FREE {
        break;
      }
      v.nextCluster := v.nextCluster + 1;
    }
    c := v.nextCluster;
    v.nextCluster := v.nextCluster + 1;
  }

  lemma FreeFromWithin(t: Table, lo: nat)
    ensures FreeSet(t) == {} ==> FreeFrom(t, lo) == {}
  {
  }

  lemma LeastIsFree(t: Table, c: nat)
    requires Least(c, FreeSet(t))
    ensures MIN_CLUSTER <= c < |t| && t[c] == FREE
  {
  }

  /** The cluster under the hint is either the one to allocate or can be skipped. */
  lemma AtHint(t: Table, next: nat)
    requires Index(t, next)
    ensures t[next] == FREE ==> Least(next, FreeFrom(t, next)) && FreeFrom(t, next) != {} && FreeSet(t) != {}
    ensures t[next] != FREE ==> FreeFrom(t, next + 1) == FreeFrom(t, next)
  {
    if t[next] == FREE {
      assert next in FreeFrom(t, next) && next in FreeSet(t);
    }
  }

  // ---------------------------------------------------------------- freeing a chain

  /** Every entry is free, a link to a cluster, or a mark. */
  ghost predicate LinksOk(t: Table) {
    |t| <= SPECIAL && forall c :: MIN_CLUSTER <= c < |t| ==> LinkValue(t, t[c])
  }

  ghost predicate LinkValue(t: Table, v: nat) {
    v == FREE || Index(t, v) || v >= SPECIAL
  }

  /**
    What holds of the disk space between operations: links are in range, a count marked valid is the
    true number of free clusters, and no free cluster lies below the hint.
   */
  ghost predicate SpaceOk(v: Volume)
    reads v, v.CacheRepr()
  {
    && v.Valid() && !v.dev.error
    && LinksOk(v.Table())
    && CountOk(v.Table(), v.freeInfoValid, v.clusterCount)
    && HintOk(v.Table(), v.nextCluster)
  }

  /** A count that is not valid and the lowest hint are right for every table. */
  lemma SpaceWithoutInfo(v: Volume)
    requires v.Valid() && !v.dev.error && LinksOk(v.Table()) && !v.freeInfoValid && v.nextCluster == MIN_CLUSTER
    ensures SpaceOk(v)
  {
    hide Volume.Valid, Volume.Table;
  }

  /** `t` with the given clusters free. */
  ghost function Cleared(t: Table, cs: set<nat>): (r: Table)
    ensures |r| == |t|
    ensures forall c :: 0 <= c < |t| ==> r[c] == if c in cs then FREE else t[c]
  {
    seq(|t|, c requires 0 <= c < |t| => if c in cs then FREE else t[c])
  }

  /** The bookkeeping of FatSetFatEntry keeps the count right and the hint low enough. */
  lemma InfoAfterSet(t: Table, c: nat, v: nat, valid: bool, count: nat, next: nat)
    requires Index(t, c) && |t| < 0x1000_0000 && CountOk(t, valid, count)
    ensures CountOk(t[c := v], valid, CountAfter(count, t[c], v))
    ensures HintOk(t, next) ==> HintOk(t[c := v], if v == FREE && t[c] != FREE && c < next then c else next)
  {
    FreeAfterSet(t, c, v);
    FreeBound(t);
  }

  lemma LinksAfterSet(t: Table, c: nat, v: nat)
    requires LinksOk(t) && Index(t, c) && LinkValue(t, v)
    ensures LinksOk(t[c := v])
  {
    var t' := t[c := v];
    forall x | MIN_CLUSTER <= x < |t'|
      ensures LinkValue(t', t'[x])
    {
      assert LinkValue(t, t[x]);
    }
  }

  /** FatSetFatEntry seen from the space accounting: the count stays true and a good hint stays good. */
  method SetLink(v: Volume, c: nat, value: nat)
    requires v.Valid() && !v.dev.error && Index(v.Table(), c) && Storable(v.g.fatType, value) && LinkValue(v.Table(), value)
    requires LinksOk(v.Table()) && CountOk(v.Table(), v.freeInfoValid, v.clusterCount)
    modifies v.Repr()
    ensures v.Valid() && v.Tidy() && !v.dev.error && v.Data() == old(v.Data()) && v.freeInfoValid == old(v.freeInfoValid)
    ensures v.Table() == old(v.Table())[c := value]
    ensures LinksOk(v.Table()) && CountOk(v.Table(), v.freeInfoValid, v.clusterCount)
    ensures HintOk(old(v.Table()), old(v.nextCluster)) ==> HintOk(v.Table(), v.nextCluster)
    ensures value != FREE ==> v.nextCluster == old(v.nextCluster)
  {
    hide EntryReads, EntryWritten, DirtyMark, DiskCache.View, Volume.Valid, Volume.Table, Volume.Data, Mirrored, FreeSet, CountOk, HintOk, LinksOk, Storable, LinkValue;
    GeometryOk(v);
    LinksAfterSet(v.Table(), c, value);
    InfoAfterSet(v.Table(), c, value, v.freeInfoValid, v.clusterCount, v.nextCluster);
    var ignored := v.SetFatEntry(c, value);
  }

  /** FatSetFatEntry with FAT_CLUSTER_LAST, between operations. */
  method SetEndMark(v: Volume, c: nat)
    requires SpaceOk(v) && Index(v.Table(), c)
    modifies v.Repr()
    ensures SpaceOk(v) && v.Tidy() && v.Data() == old(v.Data()) && v.freeInfoValid == old(v.freeInfoValid)
    ensures v.Table() == old(v.Table())[c := LAST]
  {
    hide EntryReads, EntryWritten, DirtyMark, DiskCache.View, Volume.Valid, Volume.Table, Volume.Data, Mirrored, FreeSet, CountOk, HintOk, LinksOk;
    SetLink(v, c, LAST);
  }

  /** The clusters reachable from `start`. */
  ghost function ReachSet(t: Table, start: nat): set<nat> {
    set c | MIN_CLUSTER <= c < |t| && Reaches(t, start, c)
  }

  lemma WalkExtend(t: Table, start: nat, path: seq<nat>, c: nat)
    requires Walk(t, start, path) && c == Follow(t, start, |path|) && Index(t, c) && c !in path
    ensures Walk(t, start, path + [c]) && Follow(t, start, |path| + 1) == t[c]
    ensures Cleared(t, Elements(path))[c := FREE] == Cleared(t, Elements(path + [c]))
    ensures Cleared(t, Elements(path))[c] == t[c]
  {
  }

  lemma WalkStart(t: Table, start: nat)
    ensures Walk(t, start, []) && Follow(t, start, 0) == start && Cleared(t, Elements([])) == t
  {
  }

  lemma ClearedTwice(t: Table, path: seq<nat>, c: nat)
    requires c in path && c < |t|
    ensures Cleared(t, Elements(path))[c] == FREE
    ensures Cleared(t, Elements(path))[c := FREE] == Cleared(t, Elements(path))
  {
  }

  lemma LinkFrom(t: Table, c: nat)
    requires LinksOk(t) && Index(t, c)
    ensures LinkValue(t, t[c])
  {
  }

  lemma FreeProgress(t: Table, c: nat)
    requires Index(t, c)
    ensures |t| - |FreeSet(t[c := FREE])| == |t| - |FreeSet(t)| - (if t[c] != FREE then 1 else 0) >= 0
  {
    FreeAfterSet(t, c, FREE);
    FreeBound(t[c := FREE]);
  }

  lemma WalkDone(t: Table, start: nat, path: seq<nat>)
    requires Walk(t, start, path) && (!Index(t, Follow(t, start, |path|)) || Follow(t, start, |path|) in path)
    ensures Elements(path) == ReachSet(t, start)
    ensures Ends(t, start) <==> EndMark(Follow(t, start, |path|))
  {
    hide Follow, Walk;
    WalkComplete(t, start, path);
    WalkIndices(t, start, path);
  }

  lemma WalkIndices(t: Table, start: nat, path: seq<nat>)
    requires Walk(t, start, path)
    ensures forall c :: c in path ==> Index(t, c)
  {
  }

  /**
    FatFreeClusters: frees exactly the clusters reachable from `start`, terminates even when the links
    form a cycle (the number of non-free entries goes down), and succeeds exactly when the links end
    in an end mark.
   */
  method FreeClusters(v: Volume, start: nat) returns (st: Status)
    requires SpaceOk(v) && LinkValue(v.Table(), start)
    modifies v.Repr()
    ensures SpaceOk(v) && v.Tidy() && v.Data() == old(v.Data()) && v.freeInfoValid == old(v.freeInfoValid)
    ensures v.Table() == Cleared(old(v.Table()), ReachSet(old(v.Table()), start))
    ensures st == if Ends(old(v.Table()), start) then Success else VolumeCorrupted
  {
    hide EntryReads, EntryWritten, DirtyMark, DiskCache.View, Volume.Valid, Volume.Table, Volume.Data, Mirrored, FreeSet, Follow, Walk, HintOk, CountOk, LinksOk, Ends, ReachSet, Cleared;
    GeometryOk(v);
    ghost var t := v.Table();
    ghost var path: seq<nat> := [];
    WalkStart(t, start);
    var cluster: nat := start;
    while !EndMark(cluster)
      invariant v.Valid() && v.Tidy() && !v.dev.error && v.Data() == old(v.Data()) && v.freeInfoValid == old(v.freeInfoValid)
      invariant Walk(t, start, path) && v.Table() == Cleared(t, Elements(path))
      invariant LinkValue(t, cluster)
      invariant cluster == Follow(t, start, |path|) || (cluster == FREE && Follow(t, start, |path|) in path)
      invariant LinksOk(v.Table()) && CountOk(v.Table(), v.freeInfoValid, v.clusterCount) && HintOk(v.Table(), v.nextCluster)
      decreases |t| - |FreeSet(v.Table())|, cluster != FREE
    {
      if cluster == FREE || cluster >= SPECIAL {
        WalkIndices(t, start, path);
        WalkDone(t, start, path);
        return VolumeCorrupted;
      }
      var lastCluster := cluster;
      ghost var before := v.Table();
      cluster := v.GetFatEntry(cluster);
      SetLink(v, lastCluster, FREE);
      FreeProgress(before, lastCluster);
      if lastCluster in path {
        ClearedTwice(t, path, lastCluster);
      } else {
        LinkFrom(t, lastCluster);
        WalkExtend(t, start, path, lastCluster);
        path := path + [lastCluster];
      }
    }
    WalkDone(t, start, path);
    st := Success;
  }
}
