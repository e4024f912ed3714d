/**
  Agreement between the entries in memory and the slots of the directory file: what is written for
  each entry can be read back, and reopening the directory finds the same entries.
 */
module DirectoryDisk {
  import opened Bytes
  import opened LongNames
  import opened NameHash
  import opened DirectoryLayout

  /** The same 32 bytes; FAT12 and FAT16 have no use for the high half of the first cluster, bytes 20 and 21. */
  ghost predicate SameBytes(fat32: bool, a: Slot, b: Slot) {
    forall i :: 0 <= i < 32 && (fat32 || (i != 20 && i != 21)) ==> a[i] == b[i]
  }

  /** The slots hold the entry; an entry with a long name is loaded with that name. */
  ghost predicate OnDisk(sv: Services, fat32: bool, slots: seq<Slot>, d: DirEnt) {
    && d.entryPos < |slots| && IsLive(slots[d.entryPos]) && slots[d.entryPos][..11] == d.ShortName()
    && SameBytes(fat32, slots[d.entryPos], d.entry)
    && (d.entryCount > 1 ==> LoadLongName(slots, d.entryPos, sv.viaCase) == Lfn(d.entryCount, d.name))
  }

  ghost predicate IsChild(children: seq<DirEnt>, p: nat) {
    exists i :: 0 <= i < |children| && children[i].entryPos == p
  }

  /** Below the end of the loaded part: no end mark, and no live slot that is not an entry. */
  ghost predicate OnlyChildren(slots: seq<Slot>, children: seq<DirEnt>, endPos: nat) {
    endPos <= |slots| && forall p :: 0 <= p < endPos ==> !EndMark(slots[p]) && (IsLive(slots[p]) ==> IsChild(children, p))
  }

  /** Behind an end mark there are only end marks. */
  ghost predicate CleanTail(slots: seq<Slot>, endPos: nat, endOfDir: bool) {
    if endOfDir then forall q :: endPos <= q < |slots| ==> EndMark(slots[q])
    else forall p, q :: endPos <= p < q < |slots| && EndMark(slots[p]) ==> EndMark(slots[q])
  }

  ghost predicate Coherent(sv: Services, fat32: bool, slots: seq<Slot>, children: seq<DirEnt>, endPos: nat, endOfDir: bool) {
    && (forall i :: 0 <= i < |children| ==> OnDisk(sv, fat32, slots, children[i]))
    && OnlyChildren(slots, children, endPos)
    && CleanTail(slots, endPos, endOfDir)
  }

  /** A directory whose end mark is followed by nothing but end marks is in agreement before anything is loaded. */
  lemma CoherentAtOpen(sv: Services, fat32: bool, slots: seq<Slot>)
    requires CleanTail(slots, 0, false)
    ensures Coherent(sv, fat32, slots, [], 0, false)
  {
  }

  // ---------------------------------------------------------------- loading

  lemma CoherentAfterEnd(sv: Services, fat32: bool, slots: seq<Slot>, children: seq<DirEnt>, endPos: nat, endPos': nat)
    requires Coherent(sv, fat32, slots, children, endPos, false) && endPos <= endPos' <= |slots|
    requires forall p :: endPos <= p < endPos' ==> Skipped(slots[p])
    requires endPos' == |slots| || EndMark(slots[endPos'])
    ensures Coherent(sv, fat32, slots, children, endPos', true)
  {
    hide OnDisk;
  }

  lemma CoherentAfterLoad(sv: Services, fat32: bool, slots: seq<Slot>, children: seq<DirEnt>, endPos: nat, p: nat)
    requires Coherent(sv, fat32, slots, children, endPos, false) && endPos <= p < |slots| && IsLive(slots[p])
    requires forall q :: endPos <= q < p ==> Skipped(slots[q])
    ensures Coherent(sv, fat32, slots, children + [Parsed(sv, fat32, slots, p)], p + 1, false)
  {
    var d := Parsed(sv, fat32, slots, p);
    var children' := children + [d];
    assert OnDisk(sv, fat32, slots, d);
    hide OnDisk, Parsed, LoadLongName, Skipped;
    KindsExclude(slots);
    assert children'[|children|].entryPos == p by {
      ParsedShape(sv, fat32, slots, p);
    }
    forall q | 0 <= q < p + 1 && IsLive(slots[q])
      ensures IsChild(children', q)
    {
      if q < endPos {
        var i :| 0 <= i < |children| && children[i].entryPos == q;
        assert children'[i].entryPos == q;
      }
    }
  }

  /** Slots added at the end of the file do not matter to what lies before them. */
  lemma CoherentAfterExpand(sv: Services, fat32: bool, slots: seq<Slot>, zeros: seq<Slot>, children: seq<DirEnt>, endPos: nat)
    requires Coherent(sv, fat32, slots, children, endPos, true) && forall i :: 0 <= i < |zeros| ==> EndMark(zeros[i])
    ensures Coherent(sv, fat32, slots + zeros, children, endPos, true)
  {
    hide EndMark, IsLive, OnDisk, IsChild;
    var slots' := slots + zeros;
    forall i | 0 <= i < |children|
      ensures OnDisk(sv, fat32, slots', children[i])
    {
      OnDiskExpand(sv, fat32, slots, zeros, children[i]);
    }
    assert forall p :: 0 <= p < |slots| ==> slots'[p] == slots[p];
    assert forall q :: |slots| <= q < |slots'| ==> slots'[q] == zeros[q - |slots|];
  }

  lemma OnDiskExpand(sv: Services, fat32: bool, slots: seq<Slot>, zeros: seq<Slot>, d: DirEnt)
    requires OnDisk(sv, fat32, slots, d)
    ensures OnDisk(sv, fat32, slots + zeros, d)
  {
    hide CheckSum, LoadLfn, Terminated, IsLive;
    LoadStable(slots, slots + zeros, d.entryPos, CheckSum(slots[d.entryPos][..11]), 1);
  }

  lemma KindsExclude(slots: seq<Slot>)
    ensures forall q :: 0 <= q < |slots| ==> !(Skipped(slots[q]) && IsLive(slots[q])) && !(Skipped(slots[q]) && EndMark(slots[q]))
    ensures forall q :: 0 <= q < |slots| ==> !(IsLive(slots[q]) && EndMark(slots[q]))
  {
  }

  // ---------------------------------------------------------------- storing

  /** The slots of the directory after FatStoreDirEnt. */
  function Store(slots: seq<Slot>, d: DirEnt, invalid: bool): (r: seq<Slot>)
    requires 1 <= d.entryCount <= MAX_LFN_ENTRIES + 1 && 0 <= d.First() && d.entryPos < |slots|
    ensures |r| == |slots|
  {
    Splice(slots, d.First(), Stored(d, invalid))
  }

  lemma StoreAt(slots: seq<Slot>, d: DirEnt, invalid: bool, p: nat)
    requires 1 <= d.entryCount <= MAX_LFN_ENTRIES + 1 && 0 <= d.First() && d.entryPos < |slots| && p < |slots|
    ensures |Store(slots, d, invalid)| == |slots|
    ensures !(d.First() <= p <= d.entryPos) ==> Store(slots, d, invalid)[p] == slots[p]
    ensures p == d.entryPos ==> Store(slots, d, invalid)[p] == d.entry
    ensures d.First() <= p < d.entryPos ==> Store(slots, d, invalid)[p][11] == ATTRIBUTE_LFN
    ensures d.First() <= p < d.entryPos && invalid ==> Store(slots, d, invalid)[p][0] == DELETE_MARK
  {
    hide LfnSlot, LfnBuffer, CheckSum;
    var lfn := d.entryCount - 1;
    if d.First() <= p < d.entryPos {
      var o := d.entryPos - p;
      assert Store(slots, d, invalid)[p] == Stored(d, invalid)[p - d.First()];
      assert Stored(d, invalid)[p - d.First()] == PartSlot(d.name, lfn, CheckSum(d.ShortName()), invalid, o);
      LfnBufferLength(d.name, lfn);
      SlotRoundTrip(OrdinalByte(o, lfn, invalid), CheckSum(d.ShortName()), LfnBuffer(d.name, lfn)[LFN_CHARS * (o - 1)..LFN_CHARS * o]);
    }
  }

  /** Two entries use different slots. */
  ghost predicate Apart(d: DirEnt, e: DirEnt) {
    d.entryPos < e.First() || e.entryPos < d.First()
  }

  lemma ShapeOf(sv: Services, fat32: bool, slots: seq<Slot>, e: DirEnt)
    requires OnDisk(sv, fat32, slots, e) && e.entryCount > 1
    ensures e.entryPos < |slots| && LoadLfn(slots, e.entryPos, CheckSum(slots[e.entryPos][..11]), 1).count == e.entryCount
  {
    hide LoadLfn, CheckSum, IsLive;
  }

  /** Storing one entry leaves the others readable, even one whose name search stopped at the slots just written. */
  lemma StoreKeepsOther(sv: Services, fat32: bool, slots: seq<Slot>, d: DirEnt, invalid: bool, e: DirEnt)
    requires 1 <= d.entryCount <= MAX_LFN_ENTRIES + 1 && 0 <= d.First() && d.entryPos < |slots| && Barrier(d.entry)
    requires OnDisk(sv, fat32, slots, e) && 1 <= e.entryCount && 0 <= e.First() && Apart(d, e)
    ensures OnDisk(sv, fat32, Store(slots, d, invalid), e)
  {
    hide Store, LoadLfn, CheckSum, Barrier, IsLive, Terminated;
    var slots' := Store(slots, d, invalid);
    StoreAt(slots, d, invalid, e.entryPos);
    if e.entryCount > 1 {
      var sum := CheckSum(slots[e.entryPos][..11]);
      ShapeOf(sv, fat32, slots, e);
      forall i | e.First() <= i < e.entryPos
        ensures slots'[i] == slots[i]
      {
        StoreAt(slots, d, invalid, i);
      }
      if e.First() > 0 {
        StoreAt(slots, d, invalid, e.First() - 1);
      }
      assert SameParts(slots, slots', e.entryPos, e.entryCount - 1);
      LoadStable(slots, slots', e.entryPos, sum, 1);
    }
  }

  /** The names that the driver stores: an entry with a long name has as many slots as the name needs. */
  ghost predicate Storable(d: DirEnt) {
    && IsLive(d.entry) && 1 <= d.entryCount <= MAX_LFN_ENTRIES + 1 && 0 <= d.First()
    && (d.entryCount > 1 ==> 0 !in d.name && 1 <= |d.name| <= 255 && d.entryCount == LfnCount(|d.name|) + 1)
  }

  lemma StoredOnDisk(sv: Services, fat32: bool, slots: seq<Slot>, d: DirEnt)
    requires Storable(d) && d.entryPos < |slots|
    ensures OnDisk(sv, fat32, Store(slots, d, false), d)
  {
    hide Stored, LoadLongName, IsLive;
    var slots' := Store(slots, d, false);
    StoredLength(d, false);
    SpliceSlice(slots, d.First(), Stored(d, false));
    assert slots'[d.entryPos] == Stored(d, false)[d.entryCount - 1] == d.entry;
    if d.entryCount > 1 {
      assert IsStored(slots', d);
      LongNameRoundTrip(slots', d, sv.viaCase);
    }
  }

  lemma StoredLength(d: DirEnt, invalid: bool)
    requires 1 <= d.entryCount <= MAX_LFN_ENTRIES + 1
    ensures |Stored(d, invalid)| == d.entryCount && Stored(d, invalid)[d.entryCount - 1] == d.entry
  {
  }

  // ---------------------------------------------------------------- creating and removing

  lemma StillChild(children: seq<DirEnt>, i: nat, d: DirEnt, p: nat)
    requires i <= |children|
    ensures p == d.entryPos || IsChild(children, p) ==> IsChild(Inserted(children, i, d), p)
  {
    var r := Inserted(children, i, d);
    assert r[i].entryPos == d.entryPos;
    if IsChild(children, p) {
      var k :| 0 <= k < |children| && children[k].entryPos == p;
      assert r[if k < i then k else k + 1].entryPos == p;
    }
  }

  lemma StillOther(children: seq<DirEnt>, i: nat, p: nat)
    requires i < |children| && p != children[i].entryPos
    ensures IsChild(children, p) ==> IsChild(Removed(children, i), p)
  {
    var r := Removed(children, i);
    if IsChild(children, p) {
      var k :| 0 <= k < |children| && children[k].entryPos == p;
      assert r[if k < i then k else k - 1].entryPos == p;
    }
  }

  lemma SlotWritten(slots: seq<Slot>, d: DirEnt, invalid: bool, p: nat)
    requires 1 <= d.entryCount <= MAX_LFN_ENTRIES + 1 && 0 <= d.First() <= p <= d.entryPos < |slots|
    requires invalid ==> d.entry[0] == DELETE_MARK
    ensures |Store(slots, d, invalid)| == |slots|
    ensures p < d.entryPos || invalid ==> Skipped(Store(slots, d, invalid)[p])
    ensures p == d.entryPos ==> Store(slots, d, invalid)[p] == d.entry
  {
    hide Store;
    StoreAt(slots, d, invalid, p);
    SlotKinds(d.entry);
  }

  /** Storing a new entry in free slots, or in the slots added at the end, keeps memory and disk in agreement. */
  lemma CoherentAfterCreate(sv: Services, fat32: bool, slots: seq<Slot>, children: seq<DirEnt>, endPos: nat, endPos': nat, i: nat, d: DirEnt)
    requires Coherent(sv, fat32, slots, children, endPos, true) && ListOk(children, 0, endPos) && i <= |children|
    requires Storable(d) && endPos <= endPos' <= |slots| && d.entryPos < endPos' && (endPos < endPos' ==> d.First() == endPos && d.entryPos + 1 == endPos')
    requires ListOk(Inserted(children, i, d), 0, endPos')
    ensures Coherent(sv, fat32, Store(slots, d, false), Inserted(children, i, d), endPos', true)
  {
    hide Store, OnDisk, ListOk, LoadLongName;
    var slots', children' := Store(slots, d, false), Inserted(children, i, d);
    StoredOnDisk(sv, fat32, slots, d);
    SlotKinds(d.entry);
    forall k | 0 <= k < |children'|
      ensures OnDisk(sv, fat32, slots', children'[k])
    {
      if k != i {
        var j := if k < i then k else k - 1;
        assert children'[k] == children[j];
        ListElement(children, 0, endPos, j);
        InsertedApart(children, i, d, endPos', j);
        StoreKeepsOther(sv, fat32, slots, d, false, children[j]);
      }
    }
    forall p | 0 <= p < endPos'
      ensures |slots'| == |slots| && !EndMark(slots'[p]) && (IsLive(slots'[p]) ==> IsChild(children', p))
    {
      StoreAt(slots, d, false, p);
      StillChild(children, i, d, p);
      if d.First() <= p <= d.entryPos {
        SlotWritten(slots, d, false, p);
      }
    }
    forall q | endPos' <= q < |slots|
      ensures EndMark(slots'[q])
    {
      StoreAt(slots, d, false, q);
    }
  }

  lemma InsertedApart(children: seq<DirEnt>, i: nat, d: DirEnt, hi: nat, j: nat)
    requires i <= |children| && ListOk(Inserted(children, i, d), 0, hi) && j < |children|
    ensures Apart(d, children[j])
  {
    var r := Inserted(children, i, d);
    assert r[i] == d && r[if j < i then j else j + 1] == children[j];
  }

  /** Marking an entry as deleted keeps memory and disk in agreement. */
  lemma CoherentAfterRemove(sv: Services, fat32: bool, slots: seq<Slot>, children: seq<DirEnt>, endPos: nat, endOfDir: bool, i: nat, d: DirEnt)
    requires Coherent(sv, fat32, slots, children, endPos, endOfDir) && ListOk(children, 0, endPos) && i < |children|
    requires d.entryPos == children[i].entryPos && d.entryCount == children[i].entryCount && d.entry[0] == DELETE_MARK
    requires 1 <= d.entryCount <= MAX_LFN_ENTRIES + 1 && 0 <= d.First() && d.entryPos < |slots|
    ensures Coherent(sv, fat32, Store(slots, d, true), Removed(children, i), endPos, endOfDir)
  {
    hide Store, OnDisk, ListOk, LoadLongName;
    var slots', children' := Store(slots, d, true), Removed(children, i);
    assert Barrier(d.entry);
    ListElement(children, 0, endPos, i);
    forall k | 0 <= k < |children'|
      ensures OnDisk(sv, fat32, slots', children'[k])
    {
      var j := if k < i then k else k + 1;
      assert children'[k] == children[j];
      ListElement(children, 0, endPos, j);
      if j < i {
        ListPair(children, 0, endPos, j, i);
      } else {
        ListPair(children, 0, endPos, i, j);
      }
      StoreKeepsOther(sv, fat32, slots, d, true, children[j]);
    }
    forall p | 0 <= p < |slots|
      ensures |slots'| == |slots| && (if d.First() <= p <= d.entryPos then Skipped(slots'[p]) else slots'[p] == slots[p])
    {
      StoreAt(slots, d, true, p);
      if d.First() <= p <= d.entryPos {
        SlotWritten(slots, d, true, p);
      }
    }
    forall p | 0 <= p < endPos
      ensures !EndMark(slots'[p]) && (IsLive(slots'[p]) ==> IsChild(children', p))
    {
      if p != d.entryPos {
        StillOther(children, i, p);
      }
    }
  }

  // ---------------------------------------------------------------- reopening

  /** The same file: position, short name and the other bytes of the entry, and the long name and slot count of one that has them. */
  ghost predicate SameEntry(fat32: bool, found: DirEnt, d: DirEnt) {
    && found.entryPos == d.entryPos && found.ShortName() == d.ShortName() && SameBytes(fat32, found.entry, d.entry)
    && (d.entryCount > 1 ==> found.name == d.name && found.entryCount == d.entryCount)
  }

  ghost predicate SameEntries(fat32: bool, found: seq<DirEnt>, list: seq<DirEnt>) {
    |found| == |list| && forall i :: 0 <= i < |list| ==> SameEntry(fat32, found[i], list[i])
  }

  lemma SameSelf(fat32: bool, list: seq<DirEnt>)
    ensures SameEntries(fat32, list, list)
  {
  }

  lemma SameCons(fat32: bool, f: DirEnt, d: DirEnt, found: seq<DirEnt>, list: seq<DirEnt>)
    requires SameEntry(fat32, f, d) && SameEntries(fat32, found, list)
    ensures SameEntries(fat32, [f] + found, [d] + list)
  {
  }

  lemma ParsedSame(sv: Services, fat32: bool, slots: seq<Slot>, d: DirEnt)
    requires OnDisk(sv, fat32, slots, d)
    ensures SameEntry(fat32, Parsed(sv, fat32, slots, d.entryPos), d)
  {
    hide LoadLongName, IsLive;
  }

  lemma {:induction false} ReopenFrom(sv: Services, fat32: bool, slots: seq<Slot>, children: seq<DirEnt>, endPos: nat, endOfDir: bool, p: nat, k: nat)
    requires Coherent(sv, fat32, slots, children, endPos, endOfDir) && ListOk(children, 0, endPos) && p <= endPos && k <= |children|
    requires (k > 0 ==> children[k - 1].entryPos < p) && (k < |children| ==> p <= children[k].entryPos)
    ensures SameEntries(fat32, Rest(sv, fat32, slots, p), children[k..] + if endOfDir then [] else Rest(sv, fat32, slots, endPos))
    decreases endPos - p
  {
    hide OnDisk, Parsed, EndMark, IsLive, ListOk, Rest, Skipped, SameEntry, SameEntries;
    var rest := if endOfDir then [] else Rest(sv, fat32, slots, endPos);
    RestStep(sv, fat32, slots, p);
    if p == endPos {
      if k < |children| {
        ListElement(children, 0, endPos, k);
      }
      assert children[k..] + rest == rest;
      SameSelf(fat32, rest);
    } else if IsLive(slots[p]) {
      var j :| 0 <= j < |children| && children[j].entryPos == p;
      NextChild(children, endPos, k, j);
      if k + 1 < |children| {
        ListPair(children, 0, endPos, k, k + 1);
        ListElement(children, 0, endPos, k + 1);
      }
      ParsedSame(sv, fat32, slots, children[k]);
      ReopenFrom(sv, fat32, slots, children, endPos, endOfDir, p + 1, k + 1);
      assert children[k..] + rest == [children[k]] + (children[k + 1..] + rest);
      SameCons(fat32, Parsed(sv, fat32, slots, p), children[k], Rest(sv, fat32, slots, p + 1), children[k + 1..] + rest);
    } else {
      if k < |children| {
        assert OnDisk(sv, fat32, slots, children[k]);
        LiveChild(sv, fat32, slots, children[k]);
      }
      ReopenFrom(sv, fat32, slots, children, endPos, endOfDir, p + 1, k);
    }
  }

  lemma LiveChild(sv: Services, fat32: bool, slots: seq<Slot>, d: DirEnt)
    requires OnDisk(sv, fat32, slots, d)
    ensures d.entryPos < |slots| && IsLive(slots[d.entryPos])
  {
  }

  /** The child at position `p` is child `k` when `p` lies between child `k` - 1 and child `k`. */
  lemma NextChild(children: seq<DirEnt>, hi: nat, k: nat, j: nat)
    requires ListOk(children, 0, hi) && k <= |children| && j < |children|
    requires (k > 0 ==> children[k - 1].entryPos < children[j].entryPos) && (k < |children| ==> children[j].entryPos <= children[k].entryPos)
    ensures k == j
  {
    hide ListOk;
    ListElement(children, 0, hi, j);
    if j < k {
      if j < k - 1 {
        ListElement(children, 0, hi, k - 1);
        ListPair(children, 0, hi, j, k - 1);
      }
    } else if k < j {
      ListPair(children, 0, hi, k, j);
    }
  }

  /** Opening the directory again finds the entries that the open directory has. */
  lemma Reopened(sv: Services, fat32: bool, slots: seq<Slot>, children: seq<DirEnt>, endPos: nat, endOfDir: bool)
    requires Coherent(sv, fat32, slots, children, endPos, endOfDir) && ListOk(children, 0, endPos)
    ensures SameEntries(fat32, Rest(sv, fat32, slots, 0), children + if endOfDir then [] else Rest(sv, fat32, slots, endPos))
  {
    ReopenFrom(sv, fat32, slots, children, endPos, endOfDir, 0, 0);
    assert children[0..] == children;
  }
}
