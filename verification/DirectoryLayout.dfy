/**
  The slots of a directory file and the entries they hold (DirectoryManage.c): what a scan of the
  directory finds, where entries may lie, and where first fit puts a new one.
 */
module DirectoryLayout {
  import opened Bytes
  import opened LongNames
  import opened NameHash

  // ---------------------------------------------------------------- scanning slots

  /** FAT_ATTRIBUTE_VOLUME_ID is set: a label, or part of a long name. */
  predicate VolumeId(attributes: Byte) {
    attributes / 8 % 2 == 1
  }

  /** Slots that FatLoadNextDirEnt passes over. */
  predicate Skipped(s: Slot) {
    s[0] == DELETE_MARK || VolumeId(s[11])
  }

  /** The slot that ends a directory. */
  predicate EndMark(s: Slot) {
    !Skipped(s) && s[0] == EMPTY_MARK
  }

  /** A slot of zeros: what is read behind the end of a directory, and what a new cluster is filled with. */
  function EndSlot(): Slot {
    seq(32, _ => 0)
  }

  function EndSlots(n: nat): (r: seq<Slot>)
    ensures |r| == n
  {
    seq(n, _ => EndSlot())
  }

  predicate IsLive(s: Slot) {
    !Skipped(s) && s[0] != EMPTY_MARK
  }

  lemma SlotKinds(s: Slot)
    ensures VolumeId(ATTRIBUTE_LFN) && (!VolumeId(s[11]) ==> Barrier(s))
  {
  }

  /** An entry as it is kept in memory; FAT12 and FAT16 ignore the high half of the cluster number. */
  function InMemory(fat32: bool, s: Slot): (r: Slot)
    ensures r[..11] == s[..11] && r[11] == s[11]
    ensures forall i :: 0 <= i < 32 ==> r[i] == if !fat32 && (i == 20 || i == 21) then 0 else s[i]
  {
    if fat32 then s else s[20 := 0][21 := 0]
  }

  /** The entry that FatLoadNextDirEnt makes of slot `p`. */
  function Parsed(sv: Services, fat32: bool, slots: seq<Slot>, p: nat): (d: DirEnt)
    requires p < |slots|
    ensures d.entryPos == p && 1 <= d.entryCount <= MAX_LFN_ENTRIES + 1 && 0 <= d.First()
  {
    var lfn := LoadLongName(slots, p, sv.viaCase);
    DirEnt(p, lfn.count, lfn.chars, InMemory(fat32, slots[p]))
  }

  /** The entries found by scanning from slot `p`. */
  function Rest(sv: Services, fat32: bool, slots: seq<Slot>, p: nat): (r: seq<DirEnt>)
    requires p <= |slots|
    decreases |slots| - p
  {
    if p == |slots| || EndMark(slots[p]) then []
    else (if IsLive(slots[p]) then [Parsed(sv, fat32, slots, p)] else []) + Rest(sv, fat32, slots, p + 1)
  }

  /** The next entry cannot have its long name below slot `p`. */
  ghost predicate Boundary(slots: seq<Slot>, p: nat) {
    p <= |slots| && (p == 0 || Barrier(slots[p - 1]))
  }

  /** Entries in slot order, each within [lo, hi), no two sharing a slot. */
  ghost predicate ListOk(list: seq<DirEnt>, lo: nat, hi: nat) {
    && (forall i :: 0 <= i < |list| ==>
          1 <= list[i].entryCount <= MAX_LFN_ENTRIES + 1 && lo <= list[i].First() && list[i].entryPos < hi)
    && (forall i, j :: 0 <= i < j < |list| ==> list[i].entryPos < list[j].First())
  }

  lemma ListAppend(a: seq<DirEnt>, b: seq<DirEnt>, lo: nat, mid: nat, hi: nat)
    requires ListOk(a, lo, mid) && ListOk(b, mid, hi) && lo <= mid <= hi
    ensures ListOk(a + b, lo, hi)
  {
  }

  /** Loading a long name does not pass a slot that cannot be part of one. */
  lemma {:induction false} LoadStops(slots: seq<Slot>, p: nat, sum: Byte, o: nat, lo: nat)
    requires lo <= p <= |slots| && 1 <= o <= MAX_LFN_ENTRIES + 1 && Boundary(slots, lo)
    ensures LoadLfn(slots, p, sum, o).count - o <= p - lo
    decreases p
  {
    hide LfnMatches, IsLast, LfnChars, Barrier;
    if p == lo {
      if p > 0 {
        BarrierStops(slots[p - 1], sum, o);
      }
    } else if LfnMatches(slots[p - 1], sum, o) && !IsLast(slots[p - 1][0]) {
      MatchBound(slots[p - 1], sum, o);
      LoadStops(slots, p - 1, sum, o + 1, lo);
    }
  }

  lemma ParsedAbove(sv: Services, fat32: bool, slots: seq<Slot>, p: nat, lo: nat)
    requires lo <= p < |slots| && Boundary(slots, lo)
    ensures lo <= Parsed(sv, fat32, slots, p).First()
  {
    hide LoadLfn, CheckSum, Terminated, Barrier;
    LoadStops(slots, p, CheckSum(slots[p][..11]), 1, lo);
  }

  /** A scan finds entries in slot order with slots of their own. */
  lemma {:induction false} RestList(sv: Services, fat32: bool, slots: seq<Slot>, p: nat, lo: nat)
    requires lo <= p <= |slots| && Boundary(slots, lo)
    ensures ListOk(Rest(sv, fat32, slots, p), lo, |slots|)
    decreases |slots| - p
  {
    hide Parsed, Boundary, IsLive, EndMark, Rest, ListOk;
    RestStep(sv, fat32, slots, p);
    if p < |slots| && !EndMark(slots[p]) {
      if IsLive(slots[p]) {
        ParsedShape(sv, fat32, slots, p);
        ParsedAbove(sv, fat32, slots, p, lo);
        RestList(sv, fat32, slots, p + 1, p + 1);
        OneEntry(Parsed(sv, fat32, slots, p), lo);
        ListAppend([Parsed(sv, fat32, slots, p)], Rest(sv, fat32, slots, p + 1), lo, p + 1, |slots|);
      } else {
        RestList(sv, fat32, slots, p + 1, lo);
      }
    } else {
      EmptyList(lo, |slots|);
    }
  }

  lemma RestStep(sv: Services, fat32: bool, slots: seq<Slot>, p: nat)
    requires p <= |slots|
    ensures p == |slots| || EndMark(slots[p]) ==> Rest(sv, fat32, slots, p) == []
    ensures p < |slots| && IsLive(slots[p]) ==> Rest(sv, fat32, slots, p) == [Parsed(sv, fat32, slots, p)] + Rest(sv, fat32, slots, p + 1)
    ensures p < |slots| && Skipped(slots[p]) ==> Rest(sv, fat32, slots, p) == Rest(sv, fat32, slots, p + 1)
    ensures p < |slots| && !EndMark(slots[p]) && !IsLive(slots[p]) ==> Skipped(slots[p])
  {
  }

  lemma OneEntry(d: DirEnt, lo: nat)
    requires 1 <= d.entryCount <= MAX_LFN_ENTRIES + 1 && lo <= d.First()
    ensures ListOk([d], lo, d.entryPos + 1)
  {
  }

  lemma EmptyList(lo: nat, hi: nat)
    ensures ListOk([], lo, hi)
  {
  }

  lemma ParsedShape(sv: Services, fat32: bool, slots: seq<Slot>, p: nat)
    requires p < |slots|
    ensures var d := Parsed(sv, fat32, slots, p);
      d.entryPos == p && 1 <= d.entryCount <= MAX_LFN_ENTRIES + 1 && 0 <= d.First() && d.ShortName() == slots[p][..11]
    ensures IsLive(slots[p]) ==> Boundary(slots, p + 1)
  {
    hide LoadLongName, Barrier;
    SlotKinds(slots[p]);
  }

  /** Loading a long name reads nothing below a slot that cannot be part of one. */
  lemma {:induction false} LoadFrame(slots: seq<Slot>, slots': seq<Slot>, p: nat, sum: Byte, o: nat, lo: nat)
    requires lo <= p <= |slots| == |slots'| && 1 <= o <= MAX_LFN_ENTRIES + 1
    requires Boundary(slots, lo) && Boundary(slots', lo) && slots[lo..] == slots'[lo..]
    ensures LoadLfn(slots, p, sum, o) == LoadLfn(slots', p, sum, o)
    decreases p
  {
    hide LfnMatches, IsLast, LfnChars, Barrier;
    if p == lo {
      if p > 0 {
        BarrierStops(slots[p - 1], sum, o);
        BarrierStops(slots'[p - 1], sum, o);
      }
    } else {
      assert slots[p - 1] == slots[lo..][p - 1 - lo] == slots'[p - 1];
      if LfnMatches(slots[p - 1], sum, o) && !IsLast(slots[p - 1][0]) {
        MatchBound(slots[p - 1], sum, o);
        LoadFrame(slots, slots', p - 1, sum, o + 1, lo);
      }
    }
  }

  lemma ParsedFrame(sv: Services, fat32: bool, slots: seq<Slot>, slots': seq<Slot>, p: nat, lo: nat)
    requires lo <= p < |slots| == |slots'|
    requires Boundary(slots, lo) && Boundary(slots', lo) && slots[lo..] == slots'[lo..]
    ensures slots[p] == slots'[p] && Parsed(sv, fat32, slots, p) == Parsed(sv, fat32, slots', p)
  {
    hide LoadLfn, CheckSum, Terminated, Boundary;
    assert slots[p] == slots[lo..][p - lo] == slots'[p];
    LoadFrame(slots, slots', p, CheckSum(slots[p][..11]), 1, lo);
  }

  /** What is below the boundary does not matter to the rest of a scan. */
  lemma {:induction false} RestFrame(sv: Services, fat32: bool, slots: seq<Slot>, slots': seq<Slot>, p: nat, lo: nat)
    requires lo <= p <= |slots| == |slots'|
    requires Boundary(slots, lo) && Boundary(slots', lo) && slots[lo..] == slots'[lo..]
    ensures Rest(sv, fat32, slots, p) == Rest(sv, fat32, slots', p)
    decreases |slots| - p
  {
    hide Parsed, Boundary, IsLive, EndMark;
    if p < |slots| {
      ParsedFrame(sv, fat32, slots, slots', p, lo);
      RestFrame(sv, fat32, slots, slots', p + 1, lo);
    }
  }

  /** A live slot named "AAAAAAAA.AAA" and another one of that name with another first cluster. */
  function TwinSlots(): seq<Slot> {
    var a: Slot := seq(32, _ => 0x41);
    var b: Slot := seq(32, i => if i == 26 then 0x42 else 0x41);
    [a, b]
  }

  /**
    Duplicate names come from a scan: of two entries with one short name, loaded in slot order and therefore in
    the opposite order in their bucket, deleting the first one makes the second one unfindable.
   */
  lemma TwinLost(sv: Services, fat32: bool)
    ensures var all := Rest(sv, fat32, TwinSlots(), 0);
      && |all| == 2 && all[0].entryPos == 0 && all[1].entryPos == 1 && all[0].ShortName() == all[1].ShortName()
      && FirstMatch(sv, false, [all[1], all[0]], all[0].ShortName(), 0) && Unlinked([all[1], all[0]], 0, all[0]) == []
  {
    hide LoadLongName, Parsed;
    var slots := TwinSlots();
    assert IsLive(slots[0]) && IsLive(slots[1]);
    RestStep(sv, fat32, slots, 0);
    RestStep(sv, fat32, slots, 1);
    RestStep(sv, fat32, slots, 2);
    ParsedShape(sv, fat32, slots, 0);
    ParsedShape(sv, fat32, slots, 1);
    assert slots[0][..11] == slots[1][..11];
    DuplicateLost(sv, false, Parsed(sv, fat32, slots, 1), Parsed(sv, fat32, slots, 0));
  }

  /** The entry in memory has the bytes of its slot. */
  lemma ParsedBytes(sv: Services, fat32: bool, slots: seq<Slot>, p: nat)
    requires p < |slots|
    ensures forall i :: 0 <= i < 32 ==> Parsed(sv, fat32, slots, p).entry[i] == if !fat32 && (i == 20 || i == 21) then 0 else slots[p][i]
  {
    hide LoadLongName;
  }

  lemma ParsedName(sv: Services, fat32: bool, slots: seq<Slot>, p: nat)
    requires p < |slots|
    ensures var d := Parsed(sv, fat32, slots, p); Lfn(d.entryCount, d.name) == LoadLongName(slots, p, sv.viaCase)
  {
    hide LoadLongName;
  }

  /** Deleted slots, labels and parts of long names are passed over; the first other slot that starts with zero ends the directory. */
  lemma SkippedMeans(slots: seq<Slot>)
    ensures forall p :: 0 <= p < |slots| ==> (Skipped(slots[p]) <==> slots[p][0] == 0xE5 || slots[p][11] / 8 % 2 == 1)
    ensures forall p :: 0 <= p < |slots| ==>
      (EndMark(slots[p]) <==> slots[p][0] == 0x00 && slots[p][0] != 0xE5 && slots[p][11] / 8 % 2 == 0)
    ensures forall p :: 0 <= p < |slots| ==>
      (IsLive(slots[p]) <==> slots[p][0] != 0x00 && slots[p][0] != 0xE5 && slots[p][11] / 8 % 2 == 0)
  {
  }

  // ---------------------------------------------------------------- first fit

  /** The slot in front of the gap before child `i`: the position of the child before it. */
  function Before(children: seq<DirEnt>, i: nat): nat
    requires i <= |children|
  {
    if i == 0 then 0 else children[i - 1].entryPos
  }

  /** The gap before child `i` takes `count` slots, and the label does not lie in them. */
  predicate Fits(children: seq<DirEnt>, i: nat, count: nat, labelPos: nat)
    requires i < |children|
  {
    var pos := Before(children, i) + count;
    pos + children[i].entryCount <= children[i].entryPos && (labelPos > pos || labelPos <= Before(children, i))
  }

  /** A gap fits when the entry ends in front of the child and the label is not among the slots it would take. */
  lemma FitsExactly(children: seq<DirEnt>, i: nat, count: nat, labelPos: nat)
    requires i < |children|
    ensures var last := if i == 0 then 0 else children[i - 1].entryPos;
      Fits(children, i, count, labelPos) <==> last + count < children[i].First() && !(last < labelPos <= last + count)
  {
  }

  /** The first gap that fits, or the slots behind the last entry if they end below `endPos`. */
  ghost predicate FirstFitAnswer(children: seq<DirEnt>, count: nat, endPos: nat, labelPos: nat, full: bool, pos: nat, i: nat) {
    && i <= |children| && pos == Before(children, i) + count
    && (forall j :: 0 <= j < i ==> !Fits(children, j, count, labelPos))
    && (i < |children| ==> !full && Fits(children, i, count, labelPos))
    && (i == |children| ==> (full <==> pos >= endPos))
  }

  /** The search of FatFirstFitInsertDirEnt: the position and the place in the list, or no room. */
  method FirstFit(children: seq<DirEnt>, count: nat, endPos: nat, labelPos: nat) returns (full: bool, pos: nat, i: nat)
    ensures FirstFitAnswer(children, count, endPos, labelPos, full, pos, i)
  {
    var currentPos: nat := 0;
    pos := count;
    i := 0;
    while i < |children|
      invariant i <= |children| && currentPos == Before(children, i) && pos == currentPos + count
      invariant forall j :: 0 <= j < i ==> !Fits(children, j, count, labelPos)
    {
      if pos + children[i].entryCount <= children[i].entryPos {
        if labelPos > pos || labelPos <= currentPos {
          return false, pos, i;
        }
      }
      currentPos := children[i].entryPos;
      pos := currentPos + count;
      i := i + 1;
    }
    full := pos >= endPos;
  }

  function Inserted(list: seq<DirEnt>, i: nat, d: DirEnt): seq<DirEnt>
    requires i <= |list|
  {
    list[..i] + [d] + list[i..]
  }

  function Removed(list: seq<DirEnt>, i: nat): seq<DirEnt>
    requires i < |list|
  {
    list[..i] + list[i + 1..]
  }

  /** `d` lies in the gap before child `i`. */
  ghost predicate InGap(list: seq<DirEnt>, i: nat, d: DirEnt)
    requires i <= |list|
  {
    && 1 <= d.entryCount <= MAX_LFN_ENTRIES + 1 && 0 <= d.First()
    && (i > 0 ==> list[i - 1].entryPos < d.First()) && (i < |list| ==> d.entryPos < list[i].First())
  }

  lemma InsertPair(list: seq<DirEnt>, hi: nat, i: nat, d: DirEnt, a: nat, b: nat)
    requires ListOk(list, 0, hi) && i <= |list| && InGap(list, i, d) && a < b <= |list|
    ensures Inserted(list, i, d)[a].entryPos < Inserted(list, i, d)[b].First()
  {
    hide ListOk;
    var r := Inserted(list, i, d);
    if b == i {
      assert r[a] == list[a] && r[b] == d;
      if a < i - 1 { ListPair(list, 0, hi, a, i - 1); ListElement(list, 0, hi, i - 1); }
    } else if a == i {
      assert r[a] == d && r[b] == list[b - 1];
      if i < b - 1 { ListPair(list, 0, hi, i, b - 1); ListElement(list, 0, hi, i); }
    } else {
      var a', b' := if a < i then a else a - 1, if b < i then b else b - 1;
      assert r[a] == list[a'] && r[b] == list[b'];
      ListPair(list, 0, hi, a', b');
    }
  }

  lemma ListElement(list: seq<DirEnt>, lo: nat, hi: nat, i: nat)
    requires ListOk(list, lo, hi) && i < |list|
    ensures 1 <= list[i].entryCount <= MAX_LFN_ENTRIES + 1 && lo <= list[i].First() <= list[i].entryPos < hi
  {
  }

  /** A list stays in order when the new entry lies in the gap where it is put. */
  lemma InsertOrdered(list: seq<DirEnt>, hi: nat, i: nat, d: DirEnt)
    requires ListOk(list, 0, hi) && i <= |list| && InGap(list, i, d) && d.entryPos < hi
    ensures ListOk(Inserted(list, i, d), 0, hi)
  {
    var r := Inserted(list, i, d);
    forall a, b | 0 <= a < b < |r|
      ensures r[a].entryPos < r[b].First()
    {
      InsertPair(list, hi, i, d, a, b);
    }
    forall a | 0 <= a < |r|
      ensures 1 <= r[a].entryCount <= MAX_LFN_ENTRIES + 1 && 0 <= r[a].First() && r[a].entryPos < hi
    {
      assert r[a] == if a < i then list[a] else if a == i then d else list[a - 1];
    }
  }

  lemma ListPair(list: seq<DirEnt>, lo: nat, hi: nat, i: nat, j: nat)
    requires ListOk(list, lo, hi) && i < j < |list|
    ensures list[i].entryPos < list[j].First()
  {
  }

  lemma RemoveOrdered(list: seq<DirEnt>, hi: nat, i: nat)
    requires ListOk(list, 0, hi) && i < |list|
    ensures ListOk(Removed(list, i), 0, hi)
  {
    var r := Removed(list, i);
    assert forall a :: 0 <= a < |r| ==> r[a] == if a < i then list[a] else list[a + 1];
  }

  /** The place found keeps the list in order and its slots apart; only the gap after the last entry ignores the label. */
  lemma FirstFitApart(children: seq<DirEnt>, endPos: nat, i: nat, d: DirEnt, labelPos: nat)
    requires ListOk(children, 0, endPos) && i <= |children| && 1 <= d.entryCount <= MAX_LFN_ENTRIES + 1
    requires d.entryPos == Before(children, i) + d.entryCount
    requires if i < |children| then Fits(children, i, d.entryCount, labelPos) else d.entryPos < endPos
    ensures ListOk(Inserted(children, i, d), 0, endPos)
    ensures i < |children| && labelPos > 0 ==> !(d.First() <= labelPos <= d.entryPos)
  {
    InsertOrdered(children, endPos, i, d);
  }

  /** The `count` slots from `first` on are slots of the file, and no entry uses them. */
  ghost predicate FreeRun(children: seq<DirEnt>, count: nat, size: nat, first: nat) {
    && first + count <= size
    && forall i :: 0 <= i < |children| ==> children[i].entryPos < first || first + count <= children[i].First()
  }

  /** Runs that first fit does not see: from slot 0, and beyond the slots that have been scanned. */
  predicate Overlooked(count: nat, endPos: nat, first: nat) {
    first == 0 || first + count > endPos
  }

  /**
    In a directory of `size` slots without a label, first fit reports a full directory exactly when every free
    run of the file that is long enough starts at slot 0 or ends behind the scanned part.
   */
  lemma FullExactly(children: seq<DirEnt>, count: nat, endPos: nat, size: nat, full: bool, pos: nat, i: nat)
    requires ListOk(children, 0, endPos) && count > 0 && endPos <= size
    requires FirstFitAnswer(children, count, endPos, 0, full, pos, i)
    ensures full <==> forall first: nat :: FreeRun(children, count, size, first) ==> Overlooked(count, endPos, first)
  {
    if !full {
      assert FreeRun(children, count, size, pos + 1 - count);
    } else {
      forall first: nat | FreeRun(children, count, size, first)
        ensures Overlooked(count, endPos, first)
      {
        if !Overlooked(count, endPos, first) {
          RunInGap(children, count, endPos, size, first, |children|);
        }
      }
    }
  }

  /** A free run lies behind child `n` - 1 unless one of the gaps before takes it. */
  lemma {:induction false} RunInGap(children: seq<DirEnt>, count: nat, endPos: nat, size: nat, first: nat, n: nat)
    requires n <= |children| && ListOk(children, 0, endPos) && count > 0 && FreeRun(children, count, size, first) && first > 0
    requires forall j :: 0 <= j < n ==> !Fits(children, j, count, 0)
    ensures Before(children, n) < first
  {
    if n > 0 {
      RunInGap(children, count, endPos, size, first, n - 1);
      assert !Fits(children, n - 1, count, 0);
    }
  }

  /** An entry of one or more slots that ends in slot `pos`. */
  function Placeholder(pos: nat, count: nat): DirEnt {
    DirEnt(pos, count, [], seq(32, _ => 0))
  }

  /** Slots 1 and 2 of three are taken and one slot is wanted: slot 0 is free, and the directory is reported full. */
  lemma SlotZeroOverlooked(full: bool, pos: nat, i: nat)
    requires FirstFitAnswer([Placeholder(1, 1), Placeholder(2, 1)], 1, 3, 0, full, pos, i)
    ensures full && FreeRun([Placeholder(1, 1), Placeholder(2, 1)], 1, 3, 0)
  {
    var children := [Placeholder(1, 1), Placeholder(2, 1)];
    assert !Fits(children, 0, 1, 0) && !Fits(children, 1, 1, 0);
  }

  /** Sixteen slots, the last entry in slot 12, the scan ended at slot 15, three slots wanted: 13 to 15 are free. */
  lemma TailOverlooked(full: bool, pos: nat, i: nat)
    requires FirstFitAnswer([Placeholder(12, 12)], 3, 15, 0, full, pos, i)
    ensures full && FreeRun([Placeholder(12, 12)], 3, 16, 13)
  {
    assert !Fits([Placeholder(12, 12)], 0, 3, 0);
  }
}
