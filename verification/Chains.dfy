/**
  Cluster chains in a file allocation table. A table is the sequence of entry values; clusters are
  the indices from MIN_CLUSTER on (entries 0 and 1 hold no cluster).
 */
module Chains {
  import opened FatCodec

  type Table = seq<nat>

  ghost predicate Index(t: Table, c: nat) {
    MIN_CLUSTER <= c < |t| <= SPECIAL
  }

  /** A chain: every cluster links to the next one and the last one carries an end mark. */
  ghost predicate IsChain(t: Table, cs: seq<nat>) {
    && (forall i :: 0 <= i < |cs| ==> Index(t, cs[i]))
    && (forall i :: 0 <= i < |cs| - 1 ==> t[cs[i]] == cs[i + 1])
    && (|cs| > 0 ==> EndMark(t[cs[|cs| - 1]]))
  }

  /** The first cluster of a chain, as a directory entry records it. */
  function Head(cs: seq<nat>): nat {
    if cs == [] then FREE else cs[0]
  }

  function Tail(cs: seq<nat>): nat {
    if cs == [] then FREE else cs[|cs| - 1]
  }

  ghost predicate Distinct(cs: seq<nat>) {
    forall i, j :: 0 <= i < j < |cs| ==> cs[i] != cs[j]
  }

  ghost predicate Disjoint(a: seq<nat>, b: seq<nat>) {
    forall i, j :: 0 <= i < |a| && 0 <= j < |b| ==> a[i] != b[j]
  }

  /** No cluster occurs twice in a chain. */
  lemma ChainDistinct(t: Table, cs: seq<nat>)
    requires IsChain(t, cs)
    ensures Distinct(cs)
  {
    forall i, j | 0 <= i < j < |cs|
      ensures cs[i] != cs[j]
    {
      ChainNoRepeat(t, cs, i, j);
    }
  }

  lemma {:induction false} ChainNoRepeat(t: Table, cs: seq<nat>, i: nat, j: nat)
    requires IsChain(t, cs) && i < j < |cs|
    ensures cs[i] != cs[j]
    decreases |cs| - j
  {
    assert t[cs[i]] == cs[i + 1];
    if j + 1 < |cs| {
      ChainNoRepeat(t, cs, i + 1, j + 1);
    }
  }

  /** The chain that starts at a cluster is unique. */
  lemma {:induction false} ChainUnique(t: Table, a: seq<nat>, b: seq<nat>)
    requires IsChain(t, a) && IsChain(t, b) && Head(a) == Head(b)
    ensures a == b
  {
    if a == [] || b == [] {
      assert a == b;
    } else {
      ChainSuffix(t, a, 1);
      ChainSuffix(t, b, 1);
      assert a[1..] != [] ==> Head(a[1..]) == t[a[0]];
      assert b[1..] != [] ==> Head(b[1..]) == t[b[0]];
      ChainUnique(t, a[1..], b[1..]);
      assert a == [a[0]] + a[1..] && b == [b[0]] + b[1..];
    }
  }

  lemma ChainSuffix(t: Table, cs: seq<nat>, k: nat)
    requires IsChain(t, cs) && k <= |cs|
    ensures IsChain(t, cs[k..])
  {
  }

  /** A chain depends only on the entries of its own clusters. */
  lemma ChainFrame(t: Table, t': Table, cs: seq<nat>)
    requires IsChain(t, cs) && |t'| == |t|
    requires forall i :: 0 <= i < |cs| ==> t'[cs[i]] == t[cs[i]]
    ensures IsChain(t', cs)
  {
  }

  // ---------------------------------------------------------------- free clusters

  ghost function FreeSet(t: Table): set<nat> {
    set c | MIN_CLUSTER <= c < |t| && t[c] == FREE
  }

  /** What setting one entry does to the free clusters. */
  lemma FreeAfterSet(t: Table, c: nat, v: nat)
    requires Index(t, c)
    ensures FreeSet(t[c := v]) == if v == FREE then FreeSet(t) + {c} else FreeSet(t) - {c}
    ensures |FreeSet(t[c := v])| == |FreeSet(t)| + (if v == FREE && t[c] != FREE then 1 else if v != FREE && t[c] == FREE then -1 else 0)
  {
    var t' := t[c := v];
    assert FreeSet(t') == if v == FREE then FreeSet(t) + {c} else FreeSet(t) - {c};
    if v == FREE && t[c] == FREE {
      assert FreeSet(t) + {c} == FreeSet(t);
    } else if v != FREE && t[c] != FREE {
      assert FreeSet(t) - {c} == FreeSet(t);
    }
  }

  lemma SubsetSize<T>(a: set<T>, b: set<T>)
    requires a <= b
    ensures |a| <= |b|
    ensures |a| == |b| ==> a == b
  {
    assert b == a + (b - a);
    assert |b| == |a| + |b - a|;
    if |a| == |b| {
      assert b - a == {};
    }
  }

  lemma {:induction false} FreeBound(t: Table)
    ensures |FreeSet(t)| <= |t|
  {
    if t == [] {
      assert FreeSet(t) == {};
    } else {
      var n := |t| - 1;
      FreeBound(t[..n]);
      assert FreeSet(t) <= FreeSet(t[..n]) + {n};
      SubsetSize(FreeSet(t), FreeSet(t[..n]) + {n});
    }
  }

  ghost function Elements(cs: seq<nat>): set<nat> {
    set c | c in cs
  }

  /** Distinct clusters, counted as a set. */
  lemma {:induction false} DistinctSize(cs: seq<nat>)
    requires Distinct(cs)
    ensures |Elements(cs)| == |cs|
  {
    if cs == [] {
      assert Elements(cs) == {};
    } else {
      var n := |cs| - 1;
      DistinctSize(cs[..n]);
      assert Elements(cs) == Elements(cs[..n]) + {cs[n]} by {
        assert cs == cs[..n] + [cs[n]];
      }
      assert cs[n] !in cs[..n];
    }
  }

  // ---------------------------------------------------------------- following links

  /** The value reached after following `n` links from `c`; a value that is no cluster stays put. */
  ghost function Follow(t: Table, c: nat, n: nat): nat {
    if n == 0 then c
    else
      var x := Follow(t, c, n - 1);
      if Index(t, x) then t[x] else x
  }

  ghost predicate Reaches(t: Table, c: nat, x: nat) {
    Index(t, x) && exists n: nat :: Follow(t, c, n) == x
  }

  /** Following the links of `c` comes to an end mark. */
  ghost predicate Ends(t: Table, c: nat) {
    exists n: nat :: EndMark(Follow(t, c, n))
  }

  /** The distinct clusters visited from `c` on, in order. */
  ghost predicate Walk(t: Table, c: nat, path: seq<nat>) {
    && Distinct(path)
    && forall i :: 0 <= i < |path| ==> Index(t, path[i]) && path[i] == Follow(t, c, i)
  }

  lemma {:induction false} FollowStuck(t: Table, c: nat, n: nat, m: nat)
    requires n <= m && !Index(t, Follow(t, c, n))
    ensures Follow(t, c, m) == Follow(t, c, n)
  {
    if n < m {
      FollowStuck(t, c, n, m - 1);
    }
  }

  /** Once a walk has come back to a visited cluster it never leaves the visited clusters. */
  lemma {:induction false} FollowInLoop(t: Table, c: nat, path: seq<nat>, m: nat)
    requires Walk(t, c, path) && Follow(t, c, |path|) in path
    ensures Follow(t, c, m) in path
  {
    if m < |path| {
      assert path[m] == Follow(t, c, m);
    } else if m > |path| {
      FollowInLoop(t, c, path, m - 1);
      var i :| 0 <= i < |path| && path[i] == Follow(t, c, m - 1);
      assert Follow(t, c, m) == t[path[i]] == Follow(t, c, i + 1);
      if i + 1 < |path| {
        assert path[i + 1] == Follow(t, c, i + 1);
      }
    }
  }

  /** A walk that cannot be extended visits exactly the reachable clusters, and says how the chain ends. */
  lemma WalkComplete(t: Table, c: nat, path: seq<nat>)
    requires Walk(t, c, path)
    requires var next := Follow(t, c, |path|); !Index(t, next) || next in path
    ensures forall x :: x in path <==> Reaches(t, c, x)
    ensures Ends(t, c) <==> EndMark(Follow(t, c, |path|))
  {
    var next := Follow(t, c, |path|);
    forall x | x in path
      ensures Reaches(t, c, x)
    {
      var i :| 0 <= i < |path| && path[i] == x;
      assert Follow(t, c, i) == x;
    }
    forall x | Reaches(t, c, x)
      ensures x in path
    {
      var n: nat :| Follow(t, c, n) == x;
      if next in path {
        FollowInLoop(t, c, path, n);
      } else if n < |path| {
        assert path[n] == x;
      } else {
        FollowStuck(t, c, |path|, n);
      }
    }
    assert forall i :: 0 <= i < |path| ==> !EndMark(path[i]);
    if Ends(t, c) {
      var n: nat :| EndMark(Follow(t, c, n));
      if next in path {
        FollowInLoop(t, c, path, n);
      } else if n >= |path| {
        FollowStuck(t, c, |path|, n);
      }
    }
  }

  /** From the head of a chain exactly its clusters are reached, and its end mark. */
  lemma ChainReaches(t: Table, cs: seq<nat>)
    requires IsChain(t, cs) && cs != []
    ensures forall x :: x in cs <==> Reaches(t, cs[0], x)
    ensures Ends(t, cs[0])
  {
    forall i | 0 <= i <= |cs|
      ensures i < |cs| ==> Follow(t, cs[0], i) == cs[i]
      ensures i == |cs| ==> EndMark(Follow(t, cs[0], i))
    {
      ChainFollow(t, cs, i);
    }
    ChainDistinct(t, cs);
    WalkComplete(t, cs[0], cs);
  }

  lemma {:induction false} ChainFollow(t: Table, cs: seq<nat>, i: nat)
    requires IsChain(t, cs) && cs != [] && i <= |cs|
    ensures Follow(t, cs[0], i) == if i < |cs| then cs[i] else t[cs[|cs| - 1]]
  {
    if i > 0 {
      ChainFollow(t, cs, i - 1);
    }
  }
}
