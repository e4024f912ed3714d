/** How growing and shrinking a file changes the table, as functions on tables. */
module Growth {
  import opened FatCodec
  import opened Chains
  import opened FileSpace

  // ---------------------------------------------------------------- shrinking

  /** Only the first `n` clusters of the chain remain; the others are free. */
  ghost function Shrunk(t: Table, cs: seq<nat>, n: nat): (r: Table)
    requires IsChain(t, cs) && n <= |cs|
    ensures |r| == |t|
  {
    Cleared(if n == 0 then t else t[cs[n - 1] := LAST], Elements(cs[n..]))
  }

  /** The entries of a shrunk table. */
  lemma ShrunkEntry(t: Table, cs: seq<nat>, n: nat, c: nat)
    requires IsChain(t, cs) && n <= |cs| && c < |t|
    ensures Shrunk(t, cs, n)[c] == if c in cs[n..] then FREE else if n > 0 && c == cs[n - 1] then LAST else t[c]
  {
  }

  /** The kept clusters form a chain, and exactly the dropped ones became free. */
  lemma ShrunkChain(t: Table, cs: seq<nat>, n: nat)
    requires IsChain(t, cs) && n <= |cs|
    ensures IsChain(Shrunk(t, cs, n), cs[..n])
    ensures FreeSet(Shrunk(t, cs, n)) == FreeSet(t) + Elements(cs[n..])
    ensures LinksOk(t) ==> LinksOk(Shrunk(t, cs, n))
  {
    hide Shrunk;
    ChainDistinct(t, cs);
    ChainNotFree(t, cs);
    var t' := Shrunk(t, cs, n);
    forall i | 0 <= i < n
      ensures t'[cs[i]] == if i == n - 1 then LAST else t[cs[i]]
    {
      ShrunkEntry(t, cs, n, cs[i]);
      assert cs[i] !in cs[n..];
    }
    forall c | MIN_CLUSTER <= c < |t|
      ensures t'[c] == FREE <==> c in cs[n..] || t[c] == FREE
      ensures LinksOk(t) ==> LinkValue(t', t'[c])
    {
      ShrunkEntry(t, cs, n, c);
    }
  }

  lemma ChainNotFree(t: Table, cs: seq<nat>)
    requires IsChain(t, cs)
    ensures forall i :: 0 <= i < |cs| ==> t[cs[i]] != FREE
  {
    forall i | 0 <= i < |cs|
      ensures t[cs[i]] != FREE
    {
      if i < |cs| - 1 {
        assert t[cs[i]] == cs[i + 1];
      }
    }
  }

  /** A chain that shares no cluster with the shrunk one is untouched. */
  lemma ShrunkOther(t: Table, cs: seq<nat>, n: nat, other: seq<nat>)
    requires IsChain(t, cs) && n <= |cs| && IsChain(t, other) && Disjoint(cs, other)
    ensures IsChain(Shrunk(t, cs, n), other)
  {
    forall i | 0 <= i < |other|
      ensures Shrunk(t, cs, n)[other[i]] == t[other[i]]
    {
      assert other[i] !in cs[n..];
    }
    ChainFrame(t, Shrunk(t, cs, n), other);
  }

  /** What FatFreeClusters reaches from the first dropped cluster, or from the end mark when none is dropped. */
  lemma ReachTail(t: Table, cs: seq<nat>, n: nat)
    requires IsChain(t, cs) && n <= |cs| && cs != []
    ensures var start := if n < |cs| then cs[n] else t[cs[n - 1]];
      var t' := if n == 0 then t else t[cs[n - 1] := LAST];
      Cleared(t', ReachSet(t', start)) == Shrunk(t, cs, n) && Ends(t', start) && LinkValue(t', start)
  {
    ChainDistinct(t, cs);
    var t' := if n == 0 then t else t[cs[n - 1] := LAST];
    ChainSuffix(t, cs, n);
    ChainFrame(t, t', cs[n..]);
    if n < |cs| {
      assert cs[n..][0] == cs[n];
      ChainReaches(t', cs[n..]);
      assert ReachSet(t', cs[n]) == Elements(cs[n..]);
    } else {
      var start := t[cs[n - 1]];
      assert Follow(t', start, 0) == start;
      forall m: nat
        ensures Follow(t', start, m) == start
      {
        FollowStuck(t', start, 0, m);
      }
      assert ReachSet(t', start) == {};
    }
  }

  // ---------------------------------------------------------------- growing

  /** One link: `last` (if there is one) now points to `c`. */
  ghost function Link(t: Table, last: nat, c: nat): (r: Table)
    requires last < |t|
    ensures |r| == |t|
  {
    if last == FREE then t else t[last := c]
  }

  /** The table after `added` was linked behind `cs`; the last new cluster's own entry is not written yet. */
  ghost function GrowTable(t: Table, cs: seq<nat>, added: seq<nat>): (r: Table)
    requires forall i :: 0 <= i < |cs| ==> Index(t, cs[i])
    requires forall i :: 0 <= i < |added| ==> Index(t, added[i])
    ensures |r| == |t|
  {
    if added == [] then t
    else
      var n := |added| - 1;
      if cs + added[..n] == [] then t
      else Link(GrowTable(t, cs, added[..n]), Tail(cs + added[..n]), added[n])
  }

  /** `added` are distinct free clusters, none of them in the chain. */
  ghost predicate Fresh(t: Table, added: seq<nat>) {
    && |t| <= SPECIAL
    && Distinct(added)
    && forall i :: 0 <= i < |added| ==> added[i] in FreeSet(t)
  }

  lemma FreshJoin(t: Table, cs: seq<nat>, added: seq<nat>)
    requires IsChain(t, cs) && Fresh(t, added)
    ensures Distinct(cs + added)
    ensures forall i :: 0 <= i < |cs| + |added| ==> Index(t, (cs + added)[i])
    ensures forall i :: 0 <= i < |cs| ==> t[cs[i]] != FREE
  {
    ChainDistinct(t, cs);
    ChainNotFree(t, cs);
  }

  /** The links of the half-built chain; every other entry, the last new cluster's included, is as before. */
  ghost predicate Linked(t: Table, cc: seq<nat>, r: Table)
    requires |r| == |t| && forall i :: 0 <= i < |cc| ==> Index(t, cc[i])
  {
    && (forall i :: 0 <= i < |cc| - 1 ==> Index(t, cc[i]) && r[cc[i]] == cc[i + 1])
    && (forall c :: 0 <= c < |t| && r[c] != t[c] ==> c in cc && c != Tail(cc))
  }

  lemma LinkOneMore(t: Table, pp: seq<nat>, q: Table, c: nat)
    requires |q| == |t| && forall i :: 0 <= i < |pp| ==> Index(t, pp[i])
    requires Linked(t, pp, q) && pp != [] && Index(t, c) && Distinct(pp + [c])
    ensures Linked(t, pp + [c], q[Tail(pp) := c])
  {
    var cc, r := pp + [c], q[Tail(pp) := c];
    assert Tail(cc) == c;
    assert cc[|pp|] == c && c !in pp by {
      forall i | 0 <= i < |pp|
        ensures pp[i] != c
      {
        assert cc[i] != cc[|pp|];
      }
    }
    forall i | 0 <= i < |cc| - 1
      ensures r[cc[i]] == cc[i + 1]
    {
      assert cc[i] == pp[i];
      if i < |pp| - 1 {
        assert cc[i] != cc[|pp| - 1] && cc[i + 1] == pp[i + 1];
      }
    }
  }

  lemma LinkedBase(t: Table, cs: seq<nat>)
    requires IsChain(t, cs) || (|cs| == 1 && Index(t, cs[0]))
    ensures forall i :: 0 <= i < |cs| ==> Index(t, cs[i])
    ensures Linked(t, cs, t)
  {
  }

  lemma {:induction false} GrowLinks(t: Table, cs: seq<nat>, added: seq<nat>)
    requires IsChain(t, cs) && Fresh(t, added)
    ensures forall i :: 0 <= i < |cs| + |added| ==> Index(t, (cs + added)[i])
    ensures Linked(t, cs + added, GrowTable(t, cs, added))
  {
    hide Linked, Distinct;
    FreshJoin(t, cs, added);
    if added == [] {
      assert cs + added == cs;
      LinkedBase(t, cs);
    } else {
      var n := |added| - 1;
      FreshPrefix(t, added, n);
      GrowLinks(t, cs, added[..n]);
      var pp := cs + added[..n];
      assert cs + added == pp + [added[n]];
      if pp == [] {
        assert cs + added == [added[n]];
        LinkedBase(t, [added[n]]);
      } else {
        LinkOneMore(t, pp, GrowTable(t, cs, added[..n]), added[n]);
      }
    }
  }

  lemma FreshPrefix(t: Table, added: seq<nat>, n: nat)
    requires Fresh(t, added) && n <= |added|
    ensures Fresh(t, added[..n])
  {
  }

  /** The table once the last cluster has received its end mark. */
  ghost function Grown(t: Table, cs: seq<nat>, added: seq<nat>): (r: Table)
    requires IsChain(t, cs) && Fresh(t, added)
    ensures |r| == |t|
  {
    FreshJoin(t, cs, added);
    if cs + added == [] then t else GrowTable(t, cs, added)[Tail(cs + added) := LAST]
  }

  /** The entries of a grown table. */
  lemma GrownEntries(t: Table, cs: seq<nat>, added: seq<nat>)
    requires IsChain(t, cs) && Fresh(t, added)
    ensures forall i :: 0 <= i < |cs| + |added| ==> Index(t, (cs + added)[i])
    ensures var cc, r := cs + added, Grown(t, cs, added);
      && (forall i :: 0 <= i < |cc| ==> r[cc[i]] == if i == |cc| - 1 then LAST else cc[i + 1])
      && (forall c :: 0 <= c < |t| && c !in cc ==> r[c] == t[c])
  {
    FreshJoin(t, cs, added);
    GrowLinks(t, cs, added);
    var cc, r := cs + added, Grown(t, cs, added);
    forall i | 0 <= i < |cc|
      ensures r[cc[i]] == if i == |cc| - 1 then LAST else cc[i + 1]
    {
      assert i < |cc| - 1 ==> cc[i] != cc[|cc| - 1];
    }
  }

  /**
    A grown table holds the old chain followed by the new clusters; the new clusters, and no others,
    stopped being free; entries outside the chain are untouched.
   */
  lemma GrownChain(t: Table, cs: seq<nat>, added: seq<nat>)
    requires IsChain(t, cs) && Fresh(t, added)
    ensures IsChain(Grown(t, cs, added), cs + added)
    ensures forall c :: 0 <= c < |t| && c !in cs + added ==> Grown(t, cs, added)[c] == t[c]
    ensures FreeSet(Grown(t, cs, added)) == FreeSet(t) - Elements(added)
    ensures LinksOk(t) ==> LinksOk(Grown(t, cs, added))
  {
    hide Distinct;
    GrownEntries(t, cs, added);
    FreshJoin(t, cs, added);
    var cc, r := cs + added, Grown(t, cs, added);
    assert IsChain(r, cc) by {
      forall i | 0 <= i < |cc|
        ensures Index(r, cc[i])
      {
        assert Index(t, cc[i]);
      }
    }
    ChainNotFree(r, cc);
    forall c | MIN_CLUSTER <= c < |t|
      ensures r[c] == FREE <==> t[c] == FREE && c !in added
      ensures LinksOk(t) ==> LinkValue(r, r[c])
    {
      if c in cc {
        var i :| 0 <= i < |cc| && cc[i] == c;
        assert i < |cc| - 1 ==> Index(t, cc[i + 1]);
        assert r[cc[i]] != FREE && LinkValue(r, r[cc[i]]);
        assert c in cs ==> t[c] != FREE;
      } else {
        assert LinksOk(t) ==> LinkValue(t, t[c]);
      }
    }
  }

  /** Free clusters while the last new cluster still looks free. */
  lemma GrowingFree(t: Table, cs: seq<nat>, added: seq<nat>)
    requires IsChain(t, cs) && Fresh(t, added)
    ensures FreeSet(GrowTable(t, cs, added)) ==
            FreeSet(t) - Elements(added) + if added == [] then {} else {added[|added| - 1]}
  {
    FreshJoin(t, cs, added);
    GrowLinks(t, cs, added);
    var cc, r := cs + added, GrowTable(t, cs, added);
    forall c | MIN_CLUSTER <= c < |t|
      ensures r[c] == FREE <==> t[c] == FREE && (c !in added || c == added[|added| - 1])
    {
      if c in cc {
        var i :| 0 <= i < |cc| && cc[i] == c;
        if i < |cc| - 1 {
          assert r[cc[i]] == cc[i + 1];
          assert added != [] ==> cc[i] != cc[|cc| - 1];
        }
      }
    }
  }

  /** Any other chain survives the growth. */
  lemma GrownOther(t: Table, cs: seq<nat>, added: seq<nat>, other: seq<nat>)
    requires IsChain(t, cs) && Fresh(t, added) && IsChain(t, other) && Disjoint(cs, other)
    ensures IsChain(Grown(t, cs, added), other) && Disjoint(cs + added, other)
  {
    hide Grown, GrowTable;
    GrownEntries(t, cs, added);
    ChainNotFree(t, other);
    assert forall i :: 0 <= i < |other| ==> other[i] !in cs + added;
    GrownLength(t, cs, added);
    ChainFrame(t, Grown(t, cs, added), other);
  }

  lemma GrownLength(t: Table, cs: seq<nat>, added: seq<nat>)
    requires IsChain(t, cs) && Fresh(t, added)
    ensures |Grown(t, cs, added)| == |t|
  {
  }

  lemma GrowThenShrinkAt(t: Table, cs: seq<nat>, added: seq<nat>, c: nat)
    requires IsChain(t, cs) && Fresh(t, added) && c < |t|
    ensures IsChain(Grown(t, cs, added), cs + added)
    ensures Shrunk(Grown(t, cs, added), cs + added, |cs|)[c] == if cs != [] && c == Tail(cs) then LAST else t[c]
  {
    hide Grown, GrowTable, Shrunk;
    GrownChain(t, cs, added);
    GrownEntries(t, cs, added);
    GrownLength(t, cs, added);
    var cc, r := cs + added, Grown(t, cs, added);
    ShrunkEntry(r, cc, |cs|, c);
    assert cc[|cs|..] == added;
    assert cs != [] ==> cc[|cs| - 1] == Tail(cs);
    ChainNotFree(t, cs);
    if c in added {
      assert t[c] == FREE;
    } else if c in cs {
      var i :| 0 <= i < |cs| && cs[i] == c;
      assert cc[i] == c;
      if i < |cs| - 1 {
        assert t[cs[i]] == cs[i + 1] == cc[i + 1];
      }
    }
  }

  /** Growing and then cutting back to the old length restores the table, with the end mark normalised. */
  lemma GrowThenShrink(t: Table, cs: seq<nat>, added: seq<nat>)
    requires IsChain(t, cs) && Fresh(t, added)
    ensures IsChain(Grown(t, cs, added), cs + added)
    ensures Shrunk(Grown(t, cs, added), cs + added, |cs|) == if cs == [] then t else t[Tail(cs) := LAST]
  {
    hide Grown, GrowTable;
    GrownChain(t, cs, added);
    GrownLength(t, cs, added);
    forall c | 0 <= c < |t|
      ensures Shrunk(Grown(t, cs, added), cs + added, |cs|)[c] == if cs != [] && c == Tail(cs) then LAST else t[c]
    {
      GrowThenShrinkAt(t, cs, added, c);
    }
  }

  // ---------------------------------------------------------------- the allocation loop

  /** The hint while a file grows: what is still to be allocated lies at or above it, what was allocated below it. */
  ghost predicate Scanning(t: Table, added: seq<nat>, next: nat) {
    && MIN_CLUSTER <= next
    && (forall c :: c in FreeSet(t) && c !in added ==> next <= c)
    && (forall i :: 0 <= i < |added| ==> added[i] < next)
  }

  lemma AppendFresh(t: Table, cs: seq<nat>, added: seq<nat>, c: nat)
    requires IsChain(t, cs) && Fresh(t, added) && c in FreeSet(t) && c !in added
    ensures Fresh(t, added + [c])
    ensures Tail(cs + (added + [c])) == c
    ensures GrowTable(t, cs, added + [c]) ==
            if cs + added == [] then t else GrowTable(t, cs, added)[Tail(cs + added) := c]
    ensures cs + added == [] ==> GrowTable(t, cs, added) == t
  {
    assert (added + [c])[..|added|] == added;
  }

  /** A cluster that is still free on a scan is the next one to add. */
  lemma ScanNew(t: Table, cs: seq<nat>, added: seq<nat>, next: nat, c: nat)
    requires IsChain(t, cs) && Fresh(t, added) && Scanning(t, added, next)
    requires FreeSet(t) - Elements(added) != {} && Least(c, Candidates(GrowTable(t, cs, added), next))
    ensures c in FreeSet(t) && c !in added && Scanning(t, added + [c], c + 1)
  {
    hide GrowTable;
    GrowingFree(t, cs, added);
    var r := GrowTable(t, cs, added);
    forall x
      ensures x in FreeFrom(r, next) <==> x in FreeSet(t) - Elements(added)
    {
      FreeFromMember(r, next, x);
    }
    var x :| x in FreeSet(t) - Elements(added);
    assert x in FreeFrom(r, next);
    assert forall y :: y in FreeSet(t) && y !in added ==> y in FreeFrom(r, next);
  }

  /** With nothing left, the allocator comes back to the last cluster it handed out, if there is one. */
  lemma ScanWrapped(t: Table, cs: seq<nat>, added: seq<nat>, next: nat)
    requires IsChain(t, cs) && Fresh(t, added) && Scanning(t, added, next)
    requires FreeSet(t) - Elements(added) == {}
    ensures FreeSet(t) == Elements(added)
    ensures added == [] ==> FreeSet(GrowTable(t, cs, added)) == {}
    ensures added != [] ==>
      && FreeSet(GrowTable(t, cs, added)) == {Tail(added)} == Candidates(GrowTable(t, cs, added), next)
      && Tail(added) == Tail(cs + added) && Index(t, Tail(added))
      && FreeSet(GrowTable(t, cs, added)[Tail(added) := Tail(added)]) == {}
  {
    hide GrowTable;
    GrowingFree(t, cs, added);
    var r := GrowTable(t, cs, added);
    forall x
      ensures x in FreeFrom(r, next) <==> x in FreeSet(t) - Elements(added)
    {
      FreeFromMember(r, next, x);
    }
    assert FreeFrom(r, next) == {};
    if added != [] {
      assert Tail(added) in FreeSet(t);
      GrowLength(t, cs, added);
      FreeAfterSet(r, Tail(added), Tail(added));
    }
  }

  lemma GrowLength(t: Table, cs: seq<nat>, added: seq<nat>)
    requires IsChain(t, cs) && Fresh(t, added)
    ensures |GrowTable(t, cs, added)| == |t|
  {
  }

  /** Between operations again: the hint fits the grown table. */
  lemma HintAfterGrowth(t: Table, cs: seq<nat>, added: seq<nat>, next: nat)
    requires IsChain(t, cs) && Fresh(t, added) && MIN_CLUSTER <= next
    requires FreeSet(t) == Elements(added) || Scanning(t, added, next)
    ensures HintOk(Grown(t, cs, added), next)
  {
    hide Grown;
    GrownChain(t, cs, added);
  }

  /** How many clusters a growth by `need` adds: all that are needed, or all that are free. */
  lemma AddedCount(t: Table, added: seq<nat>)
    requires Fresh(t, added)
    ensures |added| <= |FreeSet(t)|
    ensures |added| == |FreeSet(t)| <==> FreeSet(t) == Elements(added)
  {
    DistinctSize(added);
    SubsetSize(Elements(added), FreeSet(t));
  }
}
