/**
  Lifetimes of open files (Open.c, Flush.c, DirectoryManage.c FatOpenDirEnt and FatCloseDirEnt): the tree
  of OFiles, the handles open on each, and the list of OFiles whose references have yet to be checked.
  OFiles are numbered in the order in which they are allocated, so a parent has a smaller number than its
  children.
 */
module OpenTree {
  import opened Lists

  type Id = nat

  // ---------------------------------------------------------------- the tree

  /** Every OFile hangs below an OFile that is live and older, or is the root; each has a handle count. */
  ghost predicate TreeOk(live: set<Id>, parent: map<Id, Id>, opens: map<Id, nat>) {
    && parent.Keys <= live && opens.Keys == live
    && forall c :: c in parent ==> parent[c] in live && parent[c] < c
  }

  /** `o` is `d` or an ancestor of `d`. */
  ghost predicate Above(live: set<Id>, parent: map<Id, Id>, o: Id, d: Id)
    requires forall c :: c in parent ==> parent[c] in live && parent[c] < c
    decreases d
  {
    o == d || (d in parent && Above(live, parent, o, parent[d]))
  }

  predicate HasChild(parent: map<Id, Id>, o: Id) {
    exists c :: c in parent && parent[c] == o
  }

  /** No handle and no child. */
  predicate Unreferenced(parent: map<Id, Id>, opens: map<Id, nat>, o: Id)
    requires o in opens
  {
    opens[o] == 0 && !HasChild(parent, o)
  }

  /** A handle is open on `o` or on one of its descendants. */
  ghost predicate Needed(live: set<Id>, parent: map<Id, Id>, opens: map<Id, nat>, o: Id)
    requires TreeOk(live, parent, opens)
  {
    exists d :: d in live && opens[d] > 0 && Above(live, parent, o, d)
  }

  lemma {:induction false} AboveTrans(live: set<Id>, parent: map<Id, Id>, opens: map<Id, nat>, a: Id, b: Id, d: Id)
    requires TreeOk(live, parent, opens) && b in parent && parent[b] == a && Above(live, parent, b, d)
    ensures Above(live, parent, a, d)
    decreases d
  {
    if b != d {
      AboveTrans(live, parent, opens, a, b, parent[d]);
    }
  }

  /** When every OFile has a handle or a child, following children ends at a handle. */
  lemma {:induction false} ReferencedNeeded(live: set<Id>, parent: map<Id, Id>, opens: map<Id, nat>, o: Id, limit: nat)
    requires TreeOk(live, parent, opens) && o in live && (forall i :: i in live ==> i < limit)
    requires forall i :: i in live ==> !Unreferenced(parent, opens, i)
    ensures Needed(live, parent, opens, o)
    decreases limit - o
  {
    if opens[o] > 0 {
      assert Above(live, parent, o, o);
    } else {
      assert !Unreferenced(parent, opens, o);
      var c :| c in parent && parent[c] == o;
      ReferencedNeeded(live, parent, opens, c, limit);
      var d :| d in live && opens[d] > 0 && Above(live, parent, c, d);
      AboveTrans(live, parent, opens, o, c, d);
    }
  }

  /** `live'`, `parent'` and `opens'` are what is left of a tree after freeing OFiles without handles, children first. */
  ghost predicate Pruned(live: set<Id>, parent: map<Id, Id>, opens: map<Id, nat>, live': set<Id>, parent': map<Id, Id>, opens': map<Id, nat>) {
    && TreeOk(live, parent, opens) && TreeOk(live', parent', opens') && live' <= live
    && (forall o :: o in live' ==> opens'[o] == opens[o])
    && (forall o :: o in live' ==> (o in parent <==> o in parent'))
    && (forall o :: o in parent' ==> o in parent && parent'[o] == parent[o])
    && (forall o :: o in live && o !in live' ==> opens[o] == 0)
  }

  lemma {:induction false} AboveKept(live: set<Id>, parent: map<Id, Id>, opens: map<Id, nat>, live': set<Id>, parent': map<Id, Id>, opens': map<Id, nat>, o: Id, d: Id)
    requires Pruned(live, parent, opens, live', parent', opens') && d in live'
    ensures Above(live, parent, o, d) <==> Above(live', parent', o, d)
    ensures Above(live, parent, o, d) ==> o in live'
    decreases d
  {
    if o != d && d in parent {
      AboveKept(live, parent, opens, live', parent', opens', o, parent[d]);
    }
  }

  /** Freeing OFiles without handles, children first, keeps every OFile that is needed, and changes nobody's need. */
  lemma NeededKept(live: set<Id>, parent: map<Id, Id>, opens: map<Id, nat>, live': set<Id>, parent': map<Id, Id>, opens': map<Id, nat>, o: Id)
    requires Pruned(live, parent, opens, live', parent', opens')
    ensures Needed(live, parent, opens, o) <==> Needed(live', parent', opens', o)
    ensures Needed(live, parent, opens, o) ==> o in live'
  {
    forall d | d in live'
      ensures Above(live, parent, o, d) <==> Above(live', parent', o, d)
      ensures Above(live, parent, o, d) ==> o in live'
    {
      AboveKept(live, parent, opens, live', parent', opens', o, d);
    }
  }

  class FileTree {
    var live: set<Id>
    var parent: map<Id, Id>
    var opens: map<Id, nat>
    var checkRef: seq<Id>
    var next: Id

    /** The tree and the check list are well formed. */
    ghost predicate Shape()
      reads this
    {
      && TreeOk(live, parent, opens) && (forall o :: o in live ==> o < next)
      && (forall i :: 0 <= i < |checkRef| ==> checkRef[i] in live)
      && NoRepeats(checkRef)
    }

    /** An OFile without handles and children is on the check list; `except` may still be on its way there. */
    ghost predicate Listed(except: set<Id>)
      reads this
      requires Shape()
    {
      forall o :: o in live && o !in except && Unreferenced(parent, opens, o) ==> o in checkRef
    }

    ghost predicate Valid()
      reads this
    {
      Shape() && Listed({})
    }

    /** The OFiles that are still needed. */
    ghost function Kept(): set<Id>
      reads this
      requires Shape()
    {
      set o | o in live && Needed(live, parent, opens, o)
    }

    constructor ()
      ensures Valid() && live == {} && checkRef == []
    {
      live, parent, opens, checkRef, next := {}, map[], map[], [], 0;
    }

    /** FatOpenDirEnt: a new OFile below `above` (or the root), at the head of the check list. */
    method OpenDirEnt(isRoot: bool, above: Id) returns (o: Id)
      requires Valid() && (!isRoot ==> above in live)
      modifies this
      ensures Valid() && o !in old(live) && live == old(live) + {o} && checkRef == [o] + old(checkRef)
      ensures opens == old(opens)[o := 0] && parent == if isRoot then old(parent) else old(parent)[o := above]
    {
      o := next;
      next := next + 1;
      live := live + {o};
      if !isRoot {
        parent := parent[o := above];
      }
      opens := opens[o := 0];
      checkRef := [o] + checkRef;
      assert forall p :: HasChild(old(parent), p) ==> HasChild(parent, p) by {
        assert forall c :: c in old(parent) ==> c in parent && parent[c] == old(parent)[c];
      }
    }

    /** FatAllocateIFile: one more handle. */
    method AllocateIFile(o: Id)
      requires Valid() && o in live
      modifies this`opens
      ensures Valid() && opens == old(opens)[o := old(opens)[o] + 1]
    {
      opens := opens[o := opens[o] + 1];
    }

    /** FatIFileClose: one handle less, and the OFile is put on the check list unless it is there. */
    method IFileClose(o: Id)
      requires Valid() && o in live && opens[o] > 0
      modifies this`opens, this`checkRef
      ensures Valid() && opens == old(opens)[o := old(opens)[o] - 1]
      ensures checkRef == if o in old(checkRef) then old(checkRef) else [o] + old(checkRef)
    {
      opens := opens[o := opens[o] - 1];
      if o !in checkRef {
        checkRef := [o] + checkRef;
      }
    }

    /** FatCheckOFileRef and FatCloseDirEnt: off the check list; freed when it has neither handle nor child. */
    method CheckOFileRef(o: Id) returns (freed: bool)
      requires Shape() && o in live && Listed({o})
      modifies this
      ensures Shape() && next == old(next)
      ensures freed == Unreferenced(old(parent), old(opens), o)
      ensures !freed ==> Listed({}) && live == old(live) && parent == old(parent) && opens == old(opens)
      ensures freed ==> Listed(if o in old(parent) then {old(parent)[o]} else {})
      ensures freed ==> live == old(live) - {o} && parent == old(parent) - {o} && opens == old(opens) - {o}
      ensures checkRef == Without(old(checkRef), o)
    {
      hide HasChild;
      WithoutFacts(checkRef, o);
      assert forall x :: x in checkRef ==> x in live;
      checkRef := Without(checkRef, o);
      assert forall x :: x in checkRef ==> x in live && x != o;
      freed := Unreferenced(parent, opens, o);
      if freed {
        ChildrenAfterFree(parent, o);
        NoChildMeans(parent, o);
        live, parent, opens := live - {o}, parent - {o}, opens - {o};
        assert TreeOk(live, parent, opens);
        forall p | p in live && Unreferenced(parent, opens, p) && !(o in old(parent) && p == old(parent)[o])
          ensures p in checkRef
        {
          assert !HasChild(parent, p);
          assert opens[p] == old(opens)[p];
          assert Unreferenced(old(parent), old(opens), p);
        }
      }
    }

    /** The inner loop of FatCheckVolumeRef: from `start` up the tree, as long as OFiles are freed. */
    method CheckUp(start: Id, ghost live0: set<Id>, ghost parent0: map<Id, Id>, ghost opens0: map<Id, nat>)
      requires Valid() && start in checkRef && Pruned(live0, parent0, opens0, live, parent, opens)
      modifies this
      ensures Valid() && Pruned(live0, parent0, opens0, live, parent, opens) && next == old(next)
      ensures |live| < |old(live)| || (live == old(live) && |checkRef| < |old(checkRef)|)
    {
      hide Pruned, Unreferenced;
      var o, more := start, true;
      WithoutFacts(checkRef, start);
      while more
        invariant Shape() && Pruned(live0, parent0, opens0, live, parent, opens) && next == old(next)
        invariant if more then o in live && Listed({o}) else Listed({})
        invariant |live| < |old(live)| || (live == old(live) &&
            if more then o == start && checkRef == old(checkRef) else |checkRef| < |old(checkRef)|)
        decreases more, |live|
      {
        ghost var live1, parent1, opens1 := live, parent, opens;
        var hasParent, up := o in parent, if o in parent then parent[o] else 0;
        var freed := CheckOFileRef(o);
        if freed {
          PrunedMore(live0, parent0, opens0, live1, parent1, opens1, o);
          more := hasParent;
          o := up;
        } else {
          more := false;
        }
      }
    }

    /**
      FatCheckVolumeRef: from each OFile on the list, up the tree as long as OFiles are freed. It ends, and
      exactly the OFiles that are needed are left.
     */
    method CheckVolumeRef()
      requires Valid()
      modifies this
      ensures Valid() && checkRef == [] && live == old(Kept()) == Kept()
      ensures Pruned(old(live), old(parent), old(opens), live, parent, opens) && next == old(next)
    {
      hide Pruned, Listed, Needed, Unreferenced;
      ghost var live0, parent0, opens0 := live, parent, opens;
      PrunedSelf(live, parent, opens);
      while checkRef != []
        invariant Valid() && Pruned(live0, parent0, opens0, live, parent, opens) && next == old(next)
        decreases |live|, |checkRef|
      {
        CheckUp(checkRef[0], live0, parent0, opens0);
      }
      NothingListed();
      PrunedSubset(live0, parent0, opens0, live, parent, opens);
      forall o
        ensures o in live <==> o in live0 && Needed(live0, parent0, opens0, o)
        ensures Needed(live0, parent0, opens0, o) <==> Needed(live, parent, opens, o)
      {
        NeededKept(live0, parent0, opens0, live, parent, opens, o);
        if o in live {
          ReferencedNeeded(live, parent, opens, o, next);
        }
      }
    }

    lemma NothingListed()
      requires Valid() && checkRef == []
      ensures forall o :: o in live ==> !Unreferenced(parent, opens, o)
    {
      hide Unreferenced;
    }
  }

  // ---------------------------------------------------------------- steps

  /** Freeing an OFile takes a child away from its parent only. */
  lemma ChildrenAfterFree(parent: map<Id, Id>, o: Id)
    ensures forall p :: HasChild(parent - {o}, p) ==> HasChild(parent, p)
    ensures forall p :: HasChild(parent, p) && !HasChild(parent - {o}, p) ==> o in parent && parent[o] == p
  {
    forall p | HasChild(parent, p) && !(o in parent && parent[o] == p)
      ensures HasChild(parent - {o}, p)
    {
      var c :| c in parent && parent[c] == p;
      assert c in parent - {o} && (parent - {o})[c] == p;
    }
  }

  lemma NoChildMeans(parent: map<Id, Id>, o: Id)
    requires !HasChild(parent, o)
    ensures forall c :: c in parent ==> parent[c] != o
  {
  }

  lemma PrunedSelf(live: set<Id>, parent: map<Id, Id>, opens: map<Id, nat>)
    requires TreeOk(live, parent, opens)
    ensures Pruned(live, parent, opens, live, parent, opens)
  {
  }

  lemma PrunedSubset(live: set<Id>, parent: map<Id, Id>, opens: map<Id, nat>, live': set<Id>, parent': map<Id, Id>, opens': map<Id, nat>)
    requires Pruned(live, parent, opens, live', parent', opens')
    ensures live' <= live
  {
  }

  lemma PrunedMore(live0: set<Id>, parent0: map<Id, Id>, opens0: map<Id, nat>, live: set<Id>, parent: map<Id, Id>, opens: map<Id, nat>, o: Id)
    requires Pruned(live0, parent0, opens0, live, parent, opens) && o in live && Unreferenced(parent, opens, o)
    ensures Pruned(live0, parent0, opens0, live - {o}, parent - {o}, opens - {o})
  {
    NoChildMeans(parent, o);
  }
}
