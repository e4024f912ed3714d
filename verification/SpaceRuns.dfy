/**
  Runs of growing and shrinking files on one volume: the chains of all files stay chains and stay
  disjoint, and no cluster is ever lost or used twice.
 */
module SpaceRuns {
  import opened FatCodec
  import opened Chains
  import opened FileSpace
  import opened Growth
  import opened OpenFiles

  /** A table and the chains of the files that live in it. */
  datatype Space = Space(table: Table, files: seq<seq<nat>>)

  datatype Step = Grow(file: nat, added: seq<nat>) | Shrink(file: nat, keep: nat)

  /** Every file is a chain and no cluster belongs to two files. */
  ghost predicate WellFormed(s: Space) {
    && (forall i :: 0 <= i < |s.files| ==> IsChain(s.table, s.files[i]))
    && (forall i, j :: 0 <= i < j < |s.files| ==> Disjoint(s.files[i], s.files[j]))
  }

  /** FatGrowEof adds clusters that are free; FatShrinkEof keeps a prefix of the chain. */
  ghost predicate Enabled(s: Space, step: Step) {
    && step.file < |s.files|
    && match step
       case Grow(i, added) => Fresh(s.table, added)
       case Shrink(i, keep) => keep <= |s.files[i]|
  }

  ghost function Apply(s: Space, step: Step): (s': Space)
    requires WellFormed(s) && Enabled(s, step)
    ensures |s'.files| == |s.files|
  {
    match step
    case Grow(i, added) => Space(Grown(s.table, s.files[i], added), s.files[i := s.files[i] + added])
    case Shrink(i, keep) => Space(Shrunk(s.table, s.files[i], keep), s.files[i := s.files[i][..keep]])
  }

  ghost function ClustersInUse(files: seq<seq<nat>>): nat {
    if files == [] then 0 else ClustersInUse(files[..|files| - 1]) + |files[|files| - 1]|
  }

  lemma {:induction false} InUseUpdate(files: seq<seq<nat>>, i: nat, cs: seq<nat>)
    requires i < |files|
    ensures ClustersInUse(files[i := cs]) == ClustersInUse(files) - |files[i]| + |cs|
  {
    var n := |files| - 1;
    if i == n {
      assert files[i := cs][..n] == files[..n];
    } else {
      InUseUpdate(files[..n], i, cs);
      assert files[i := cs][..n] == files[..n][i := cs];
    }
  }

  lemma StepChains(s: Space, step: Step, j: nat)
    requires WellFormed(s) && Enabled(s, step) && j < |s.files|
    ensures IsChain(Apply(s, step).table, Apply(s, step).files[j])
    ensures j != step.file ==> Disjoint(Apply(s, step).files[step.file], s.files[j])
  {
    var i := step.file;
    assert i < j ==> Disjoint(s.files[i], s.files[j]);
    assert j < i ==> Disjoint(s.files[j], s.files[i]);
    match step
    case Grow(_, added) =>
      if i == j {
        GrownChain(s.table, s.files[i], added);
      } else {
        GrownOther(s.table, s.files[i], added, s.files[j]);
      }
    case Shrink(_, keep) =>
      if i == j {
        ShrunkChain(s.table, s.files[i], keep);
      } else {
        ShrunkOther(s.table, s.files[i], keep, s.files[j]);
      }
  }

  /** Free clusters and clusters in use together stay the same in number. */
  lemma StepConserves(s: Space, step: Step)
    requires WellFormed(s) && Enabled(s, step)
    ensures |FreeSet(Apply(s, step).table)| + ClustersInUse(Apply(s, step).files) == |FreeSet(s.table)| + ClustersInUse(s.files)
  {
    var cs := s.files[step.file];
    match step
    case Grow(i, added) =>
      GrownChain(s.table, cs, added);
      InUseUpdate(s.files, i, cs + added);
      DistinctSize(added);
      assert FreeSet(s.table) == FreeSet(s.table) - Elements(added) + Elements(added);
    case Shrink(i, keep) =>
      ShrunkChain(s.table, cs, keep);
      InUseUpdate(s.files, i, cs[..keep]);
      ChainDistinct(s.table, cs);
      DistinctSize(cs[keep..]);
      ChainNotFree(s.table, cs);
      assert FreeSet(s.table) !! Elements(cs[keep..]);
  }

  lemma StepKeeps(s: Space, step: Step)
    requires WellFormed(s) && Enabled(s, step)
    ensures WellFormed(Apply(s, step))
  {
    hide IsChain, Grown, Shrunk;
    var s' := Apply(s, step);
    forall j | 0 <= j < |s'.files|
      ensures IsChain(s'.table, s'.files[j])
    {
      StepChains(s, step, j);
    }
    forall i, j | 0 <= i < j < |s'.files|
      ensures Disjoint(s'.files[i], s'.files[j])
    {
      StepChains(s, step, i);
      StepChains(s, step, j);
    }
  }

  /** A run: each step is enabled where it is taken. */
  ghost predicate IsRun(s: Space, steps: seq<Step>)
    decreases |steps|
  {
    steps == [] || (WellFormed(s) && Enabled(s, steps[0]) && IsRun(Apply(s, steps[0]), steps[1..]))
  }

  ghost function RunFrom(s: Space, steps: seq<Step>): (s': Space)
    requires IsRun(s, steps)
    decreases |steps|
  {
    if steps == [] then s else RunFrom(Apply(s, steps[0]), steps[1..])
  }

  /** Over every run the volume stays well formed and the number of clusters is conserved. */
  lemma {:induction false} RunKeeps(s: Space, steps: seq<Step>)
    requires WellFormed(s) && IsRun(s, steps)
    ensures WellFormed(RunFrom(s, steps))
    ensures |FreeSet(RunFrom(s, steps).table)| + ClustersInUse(RunFrom(s, steps).files) == |FreeSet(s.table)| + ClustersInUse(s.files)
    decreases |steps|
  {
    if steps != [] {
      StepKeeps(s, steps[0]);
      StepConserves(s, steps[0]);
      RunKeeps(Apply(s, steps[0]), steps[1..]);
    }
  }

  // ---------------------------------------------------------------- when FatGrowEof keeps its promise

  /** The request is met in full, or VolumeFull is reported because the clusters are not there. */
  ghost predicate GrowHonest(t: Table, need: nat, full: bool, added: seq<nat>) {
    if full then need > |FreeSet(t)| else |added| == need
  }

  /**
    FatGrowEof keeps its promise exactly when it is not asked for one cluster more than the number of
    free clusters (on a volume that is not already full).
   */
  lemma GrowHonestExactly(t: Table, cs: seq<nat>, need: nat, full: bool, added: seq<nat>)
    requires IsChain(t, cs) && Fresh(t, added) && GrowOutcome(|FreeSet(t)|, need, full, |added|)
    ensures GrowHonest(t, need, full, added) <==> !(FreeSet(t) != {} && need == |FreeSet(t)| + 1)
    ensures !GrowHonest(t, need, full, added) ==> !full && IsChain(Grown(t, cs, added), cs + added) && |cs + added| == |cs| + need - 1
  {
    GrownChain(t, cs, added);
  }

  /** One free cluster, two requested for an empty file: success is reported with one cluster. */
  lemma GrowShortExample(full: bool, added: seq<nat>)
    requires Fresh([0, 0, 0], added) && GrowOutcome(|FreeSet([0, 0, 0])|, 2, full, |added|)
    ensures !full && added == [2] && Grown([0, 0, 0], [], added) == [0, 0, LAST]
  {
    var t: Table := [0, 0, 0];
    assert FreeSet(t) == {2};
    GrownEntries(t, [], added);
    assert added == [2];
    assert [] + added == added;
  }
}
