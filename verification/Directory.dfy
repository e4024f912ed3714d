/**
  An open directory (DirectoryManage.c, and FatIFileReadDir in ReadWrite.c): the slots of the directory
  file, the list of entries loaded so far, a read cursor shared by all handles of the directory, and the
  two name indexes. The file contents are the sequence of 32-byte slots; slots are read and written
  through the file layer one at a time.
 */
module Directories {
  import opened Bytes
  import opened LongNames
  import opened NameHash
  import opened ShortNames
  import opened DirectoryLayout
  import opened DirectoryDisk

  const MAX_DIRENTRY_COUNT: nat := 0xFFFF

  /** The file name as given, or its 8.3 form. */
  predicate Matches(sv: Services, name: Name, d: DirEnt) {
    Up(sv, name) == Up(sv, d.name) || (Is8Dot3(sv, name) && BaseName(sv, name) == d.ShortName())
  }

  lemma MatchesMeans(sv: Services, name: Name, d: DirEnt)
    ensures Matches(sv, name, d) <==> Up(sv, name) == Up(sv, d.name) || (Is8Dot3(sv, name) && BaseName(sv, name) == d.ShortName())
  {
  }

  ghost predicate NoMatch(sv: Services, name: Name, all: seq<DirEnt>) {
    forall e :: e in all ==> !Matches(sv, name, e)
  }

  ghost predicate AtMostOne(sv: Services, name: Name, all: seq<DirEnt>) {
    forall i, j :: 0 <= i < j < |all| ==> !(Matches(sv, name, all[i]) && Matches(sv, name, all[j]))
  }

  /** A scan of a whole directory for a name. */
  function ScanFinds(sv: Services, name: Name, all: seq<DirEnt>): (bool, DirEnt) {
    if all == [] then (false, NoEntry())
    else if Matches(sv, name, all[0]) then (true, all[0])
    else ScanFinds(sv, name, all[1..])
  }

  lemma {:induction false} ScanFindsNone(sv: Services, name: Name, all: seq<DirEnt>)
    requires NoMatch(sv, name, all)
    ensures !ScanFinds(sv, name, all).0
  {
    hide Matches;
    if all != [] {
      ScanFindsNone(sv, name, all[1..]);
    }
  }

  lemma {:induction false} ScanFindsOnly(sv: Services, name: Name, all: seq<DirEnt>, d: DirEnt)
    requires d in all && Matches(sv, name, d)
    ensures AtMostOne(sv, name, all) ==> ScanFinds(sv, name, all) == (true, d)
  {
    hide Matches;
    if AtMostOne(sv, name, all) {
      var i :| 0 <= i < |all| && all[i] == d;
      if i > 0 {
        assert AtMostOne(sv, name, all[1..]) by {
          forall a, b | 0 <= a < b < |all[1..]|
            ensures !(Matches(sv, name, all[1..][a]) && Matches(sv, name, all[1..][b]))
          {
            assert all[1..][a] == all[a + 1] && all[1..][b] == all[b + 1];
          }
        }
        ScanFindsOnly(sv, name, all[1..], d);
      }
    }
  }

  // ---------------------------------------------------------------- at most one entry matches a name

  /** An entry whose file name is an 8.3 name has it as its short name. */
  ghost predicate OwnShort(sv: Services, all: seq<DirEnt>) {
    forall d :: d in all && Is8Dot3(sv, d.name) ==> d.ShortName() == BaseName(sv, d.name)
  }

  /** With unique long names and unique short names no name matches two entries, not even one by each. */
  lemma OneMatch(sv: Services, name: Name, all: seq<DirEnt>)
    requires CaseBlind(sv) && UniqueKeys(sv, true, all) && UniqueKeys(sv, false, all) && OwnShort(sv, all)
    ensures AtMostOne(sv, name, all)
  {
    forall i, j | 0 <= i < j < |all|
      ensures !(Matches(sv, name, all[i]) && Matches(sv, name, all[j]))
    {
      hide Matches, Is8Dot3, BaseName, CaseBlind;
      SameMatch(sv, name, all, all[i]);
      SameMatch(sv, name, all, all[j]);
    }
  }

  lemma SameMatch(sv: Services, name: Name, all: seq<DirEnt>, d: DirEnt)
    requires CaseBlind(sv) && OwnShort(sv, all) && d in all
    ensures Matches(sv, name, d) ==>
      if Is8Dot3(sv, name) then d.ShortName() == BaseName(sv, name) else Up(sv, d.name) == Up(sv, name)
  {
    hide Is8Dot3, BaseName, CaseBlind;
    if Up(sv, name) == Up(sv, d.name) {
      CaseKeepsShort(sv, name, d.name);
    }
  }

  /** A directory has at most 65536 slots; one that can grow consists of whole clusters. */
  ghost predicate SizeOk(fixedRoot: bool, size: nat, clusterSlots: nat) {
    size <= 0x1_0000 && (fixedRoot || (Whole(size, clusterSlots) && Whole(0x1_0000, clusterSlots)))
  }

  ghost predicate Whole(size: nat, clusterSlots: nat) {
    exists k: nat :: size == Mul(k, clusterSlots)
  }

  lemma SizeBound(fixedRoot: bool, size: nat, clusterSlots: nat)
    requires SizeOk(fixedRoot, size, clusterSlots)
    ensures size <= 0x1_0000
  {
  }

  lemma OneMoreCluster(size: nat, clusterSlots: nat)
    requires SizeOk(false, size, clusterSlots) && size < 0x1_0000
    ensures SizeOk(false, size + clusterSlots, clusterSlots)
  {
    var k: nat :| size == Mul(k, clusterSlots);
    var m: nat :| 0x1_0000 == Mul(m, clusterSlots);
    if m <= k {
      MulMono(m, k, clusterSlots);
    }
    MulMono(k + 1, m, clusterSlots);
    assert Mul(k + 1, clusterSlots) == size + clusterSlots;
  }

  /** Creating an entry keeps every 8.3 file name its own short name. */
  lemma OwnShortAfterCreate(sv: Services, all: seq<DirEnt>, i: nat, d: DirEnt)
    requires OwnShort(sv, all) && i <= |all| && (Is8Dot3(sv, d.name) ==> d.ShortName() == BaseName(sv, d.name))
    ensures OwnShort(sv, Inserted(all, i, d))
  {
    hide Is8Dot3, BaseName;
    assert forall e :: e in Inserted(all, i, d) ==> e in all || e == d;
  }

  /** An entry with the deletion mark. */
  function Deleted(d: DirEnt): DirEnt {
    d.(entry := d.entry[0 := DELETE_MARK])
  }

  lemma DeletedSlots(slots: seq<Slot>, d: DirEnt)
    requires 1 <= d.entryCount <= MAX_LFN_ENTRIES + 1 && 0 <= d.First() && d.entryPos < |slots| && d.entry[0] == 0xE5
    ensures |Store(slots, d, true)| == |slots|
    ensures forall p :: 0 <= p < |slots| ==>
      if d.First() <= p <= d.entryPos then Store(slots, d, true)[p][0] == 0xE5 else Store(slots, d, true)[p] == slots[p]
  {
    hide Store;
    StoreLength(slots, d, true);
    forall p | 0 <= p < |slots|
      ensures if d.First() <= p <= d.entryPos then Store(slots, d, true)[p][0] == 0xE5 else Store(slots, d, true)[p] == slots[p]
    {
      StoreAt(slots, d, true, p);
    }
  }

  function NoEntry(): DirEnt {
    DirEnt(0, 1, [], seq(32, _ => 0))
  }

  class ODir {
    const sv: Services
    const fat32: bool
    const fixedRoot: bool
    const clusterSlots: nat
    const longTable: HashTable
    const shortTable: HashTable

    var slots: seq<Slot>
    var children: seq<DirEnt>
    var cursor: int
    var currentPos: nat
    var currentEndPos: nat
    var endOfDir: bool

    ghost function Repr(): set<object> {
      {this, longTable.buckets, shortTable.buckets}
    }

    /** The whole directory: the entries loaded, and those a scan of the rest would find. */
    ghost function All(): seq<DirEnt>
      reads this
    {
      children + if endOfDir || currentEndPos > |slots| then [] else Rest(sv, fat32, slots, currentEndPos)
    }

    /** Both indexes hold exactly the entries loaded. */
    ghost predicate Indexed()
      reads this`children, longTable.buckets, shortTable.buckets
    {
      && longTable.sv == sv && shortTable.sv == sv && longTable.long && !shortTable.long
      && longTable.buckets != shortTable.buckets
      && longTable.Indexes(children) && shortTable.Indexes(children)
    }

    /** The entries at and before the cursor lie below the cursor's position. */
    ghost predicate CursorOk()
      reads this
    {
      -1 <= cursor < |children| && (cursor >= 0 ==> children[cursor].entryPos < currentPos) && currentPos <= currentEndPos
    }

    ghost predicate Valid()
      reads this, longTable.buckets, shortTable.buckets
    {
      && currentEndPos <= |slots|
      && ListOk(children, 0, currentEndPos)
      && CursorOk() && Indexed()
      && (!endOfDir ==> Boundary(slots, currentEndPos)) && SizeOk(fixedRoot, |slots|, clusterSlots)
    }

    /** No two entries share a long name, up to case, or a short name. */
    ghost predicate Unique()
      reads this
    {
      UniqueKeys(sv, true, All()) && UniqueKeys(sv, false, All())
    }

    /** The slots on disk and the entries in memory agree. */
    ghost predicate Durable()
      reads this
    {
      Coherent(sv, fat32, slots, children, currentEndPos, endOfDir)
    }

    /** FatAllocateODir: nothing is loaded yet. */
    constructor (sv: Services, fat32: bool, fixedRoot: bool, clusterSlots: nat, slots: seq<Slot>)
      requires SizeOk(fixedRoot, |slots|, clusterSlots)
      ensures Valid() && fresh(Repr()) && this.slots == slots && All() == Rest(sv, fat32, slots, 0)
      ensures CleanTail(slots, 0, false) ==> Durable()
    {
      hide UniqueKeys, Rest, HashTable.Indexes, ListOk, Coherent, CleanTail, SizeOk;
      EmptyList(0, 0);
      if CleanTail(slots, 0, false) {
        CoherentAtOpen(sv, fat32, slots);
      }
      this.sv, this.fat32, this.fixedRoot, this.clusterSlots, this.slots := sv, fat32, fixedRoot, clusterSlots, slots;
      children, cursor, currentPos, currentEndPos, endOfDir := [], -1, 0, 0, false;
      longTable := new HashTable(sv, true);
      shortTable := new HashTable(sv, false);
      new;
      assert [] + Rest(sv, fat32, slots, 0) == Rest(sv, fat32, slots, 0);
      assert All() == Rest(sv, fat32, slots, 0);
    }

    /** FatAddDirEnt: the entry goes in front of child `i`, or at the end of the list. */
    method AddDirEnt(d: DirEnt, i: nat)
      requires Indexed() && i <= |children| && d !in children
      modifies this`children, longTable.buckets, shortTable.buckets
      ensures Indexed() && children == Inserted(old(children), i, d)
    {
      ghost var before := children;
      children := Inserted(children, i, d);
      assert forall e :: e in children <==> e in before || e == d;
      shortTable.Insert(d, before, children);
      longTable.Insert(d, before, children);
    }

    /** FatLoadNextDirEnt: the next entry of the scan joins the list, or the end of the directory is noted. */
    method LoadNextDirEnt() returns (found: bool, d: DirEnt)
      requires Valid() && !endOfDir
      modifies Repr()
      ensures Valid() && All() == old(All()) && slots == old(slots) && cursor == old(cursor) && currentPos == old(currentPos)
      ensures found ==> !endOfDir && children == old(children) + [d]
      ensures !found ==> endOfDir && children == old(children)
      ensures old(currentEndPos) <= currentEndPos && (old(Durable()) ==> Durable())
      ensures found ==> old(currentEndPos) <= d.entryPos < |slots| && currentEndPos == d.entryPos + 1
      ensures found ==> forall i :: 0 <= i < 32 ==> d.entry[i] == if !fat32 && (i == 20 || i == 21) then 0 else slots[d.entryPos][i]
      ensures found ==> Lfn(d.entryCount, d.name) == LoadLongName(slots, d.entryPos, sv.viaCase)
      ensures found ==> slots[d.entryPos][0] != 0x00 && slots[d.entryPos][0] != 0xE5 && slots[d.entryPos][11] / 8 % 2 == 0
      ensures !found && currentEndPos < |slots| ==> slots[currentEndPos][0] == 0x00 && slots[currentEndPos][11] / 8 % 2 == 0
      ensures forall p :: old(currentEndPos) <= p < (if found then d.entryPos else currentEndPos) ==> slots[p][0] == 0xE5 || slots[p][11] / 8 % 2 == 1
    {
      hide LoadLongName, ListOk, IsLive, EndMark, Skipped, Parsed, UniqueKeys, Rest, Indexed, Boundary, Inserted, Coherent, SizeOk;
      ghost var start := currentEndPos;
      ghost var rest := Rest(sv, fat32, slots, start);
      d := NoEntry();
      SkipSlots();
      SkippedMeans(slots);
      RestStep(sv, fat32, slots, currentEndPos);
      SizeBound(fixedRoot, |slots|, clusterSlots);
      ListWider(children, 0, start, currentEndPos);
      if currentEndPos < |slots| && !EndMark(slots[currentEndPos]) {
        found := true;
        if Coherent(sv, fat32, slots, children, start, false) {
          CoherentAfterLoad(sv, fat32, slots, children, start, currentEndPos);
        }
        ParsedBytes(sv, fat32, slots, currentEndPos);
        ParsedName(sv, fat32, slots, currentEndPos);
        d := LoadEntry(start);
        Shift(old(children), d, Rest(sv, fat32, slots, currentEndPos));
      } else {
        found := false;
        endOfDir := true;
        if Coherent(sv, fat32, slots, children, start, false) {
          CoherentAfterEnd(sv, fat32, slots, children, start, currentEndPos);
        }
        assert old(children) + [] == children + [];
      }
    }

    /** Deleted slots, labels and parts of long names are passed over. */
    method SkipSlots()
      requires currentEndPos <= |slots|
      modifies this`currentEndPos
      ensures old(currentEndPos) <= currentEndPos <= |slots|
      ensures Rest(sv, fat32, slots, currentEndPos) == Rest(sv, fat32, slots, old(currentEndPos))
      ensures currentEndPos < |slots| ==> !Skipped(slots[currentEndPos])
      ensures forall p :: old(currentEndPos) <= p < currentEndPos ==> Skipped(slots[p])
    {
      hide Skipped, Rest, IsLive, EndMark;
      while currentEndPos < |slots| && Skipped(slots[currentEndPos])
        invariant old(currentEndPos) <= currentEndPos <= |slots|
        invariant Rest(sv, fat32, slots, currentEndPos) == Rest(sv, fat32, slots, old(currentEndPos))
        invariant forall p :: old(currentEndPos) <= p < currentEndPos ==> Skipped(slots[p])
      {
        RestStep(sv, fat32, slots, currentEndPos);
        currentEndPos := currentEndPos + 1;
      }
    }

    /** The live slot at the end of the loaded part becomes the last entry of the list. */
    method LoadEntry(ghost start: nat) returns (d: DirEnt)
      requires Indexed() && currentEndPos < |slots| <= 0x1_0000 && IsLive(slots[currentEndPos])
      requires start <= currentEndPos && ListOk(children, 0, start) && Boundary(slots, start)
      modifies this`children, this`currentEndPos, longTable.buckets, shortTable.buckets
      ensures Indexed() && d == Parsed(sv, fat32, slots, old(currentEndPos)) && children == old(children) + [d]
      ensures currentEndPos == old(currentEndPos) + 1 && ListOk(children, 0, currentEndPos) && Boundary(slots, currentEndPos)
    {
      hide ListOk, IsLive, Parsed, HashTable.Indexes, Boundary;
      ghost var p := currentEndPos;
      ParsedShape(sv, fat32, slots, p);
      ParsedAbove(sv, fat32, slots, p, start);
      d := ParseEntry();
      NotAmong(children, start, d);
      OneEntry(d, start);
      ListAppend(children, [d], 0, start, p + 1);
      AddDirEnt(d, |children|);
      assert children == old(children) + [d];
      currentEndPos := currentEndPos + 1;
    }

    method ParseEntry() returns (d: DirEnt)
      requires currentEndPos < |slots| <= 0x1_0000
      ensures d == Parsed(sv, fat32, slots, currentEndPos)
    {
      hide LoadLongName, InMemory;
      var lfn := LoadLongNameEntry(slots, currentEndPos, sv.viaCase);
      d := DirEnt(currentEndPos % 0x1_0000, lfn.count, lfn.chars, InMemory(fat32, slots[currentEndPos]));
    }

    // -------------------------------------------------------------- reading

    /** FatResetODirCursor. */
    method ResetCursor()
      requires Valid()
      modifies this`cursor, this`currentPos
      ensures Valid() && All() == old(All()) && cursor == -1 && currentPos == 0 && (old(Durable()) ==> Durable())
    {
      hide ListOk, UniqueKeys, Rest, Indexed, Boundary, SizeOk, Coherent;
      cursor, currentPos := -1, 0;
    }

    /** FatGetNextDirEnt: the cursor moves on by one entry, loading it if need be. */
    method GetNextDirEnt() returns (found: bool, d: DirEnt)
      requires Valid()
      modifies Repr()
      ensures Valid() && All() == old(All()) && slots == old(slots)
      ensures found ==> cursor == old(cursor) + 1 && d == children[cursor] && currentPos == d.entryPos + 1
      ensures !found ==> endOfDir && cursor == old(cursor) == |children| - 1 && currentPos == currentEndPos
      ensures old(currentEndPos) <= currentEndPos && (old(Durable()) ==> Durable())
    {
      hide ListOk, UniqueKeys, Rest, Indexed, Boundary, SizeOk, Coherent;
      d := NoEntry();
      if cursor + 1 == |children| && !endOfDir {
        found, d := LoadNextDirEnt();
      }
      if cursor + 1 == |children| {
        found := false;
        currentPos := currentEndPos;
        assert cursor >= 0 ==> children[cursor].entryPos < currentPos by {
          if cursor >= 0 {
            ListElement(children, 0, currentEndPos, cursor);
          }
        }
      } else {
        found := true;
        cursor := cursor + 1;
        d := children[cursor];
        currentPos := d.entryPos + 1;
        ListElement(children, 0, currentEndPos, cursor);
      }
    }

    /**
      FatIFileReadDir, for a handle at slot `position`: the entry of least position not below it, whatever
      other handles did to the shared cursor. When the caller's buffer is too small the handle stays put.
     */
    method ReadDir(position: nat, bufferFits: bool) returns (found: bool, d: DirEnt, position': nat)
      requires Valid() && position <= currentEndPos
      modifies Repr()
      ensures Valid() && All() == old(All()) && slots == old(slots) && position' <= currentEndPos
      ensures old(currentEndPos) <= currentEndPos && (old(Durable()) ==> Durable())
      ensures ReadResult(All(), position, bufferFits, found, d, position')
    {
      hide Valid, Durable, ListOk, IsNext, AllBelow, Rest, All;
      if position < currentPos {
        ResetCursor();
      }
      ghost var all := All();
      CursorFacts();
      found, d := GetNextDirEnt();
      CursorFacts();
      while found && currentPos <= position
        invariant Valid() && All() == all == old(All()) && slots == old(slots) && -1 <= cursor < |children| <= |all|
        invariant position <= currentEndPos && currentPos <= currentEndPos <= |slots|
        invariant old(currentEndPos) <= currentEndPos && (old(Durable()) ==> Durable())
        invariant found ==> cursor >= 0 && d == all[cursor] && currentPos == d.entryPos + 1
        invariant found && cursor > 0 ==> all[cursor - 1].entryPos < position
        invariant !found ==> currentPos == currentEndPos && |all| == cursor + 1 && (cursor >= 0 ==> all[cursor].entryPos < position)
        decreases found, |all| - cursor
      {
        found, d := GetNextDirEnt();
        CursorFacts();
      }
      AllOrdered();
      PrefixBelow(all, |slots|, if found then cursor else cursor + 1, position);
      if found {
        NextAt(all, |slots|, cursor, position);
        position' := if bufferFits then currentPos else position;
      } else {
        position' := currentPos;
        assert all[..|all|] == all;
      }
    }

    // -------------------------------------------------------------- searching

    /** FatSearchODir: the answer of a scan of the whole directory, from the indexes and as little loading as possible. */
    method SearchODir(name: Name) returns (found: bool, d: DirEnt)
      requires Valid()
      modifies Repr()
      ensures Valid() && All() == old(All()) && slots == old(slots) && cursor == old(cursor) && currentPos == old(currentPos)
      ensures old(currentEndPos) <= currentEndPos && (old(Durable()) ==> Durable())
      ensures found ==> d in children && d in All() && Matches(sv, name, d)
      ensures !found ==> endOfDir && NoMatch(sv, name, All())
      ensures AtMostOne(sv, name, All()) ==> found == ScanFinds(sv, name, All()).0 && (found ==> d == ScanFinds(sv, name, All()).1)
    {
      hide Valid, Durable, Matches, Is8Dot3, BaseName, Rest;
      var possible, short := CheckIs8Dot3Name(sv, name);
      found, d := SearchIndexes(name, possible, short);
      while !found && !endOfDir
        invariant Valid() && All() == old(All()) && slots == old(slots) && cursor == old(cursor) && currentPos == old(currentPos)
        invariant old(currentEndPos) <= currentEndPos && (old(Durable()) ==> Durable())
        invariant found ==> d in children && Matches(sv, name, d)
        invariant !found ==> NoMatch(sv, name, children)
        decreases !found, !endOfDir, |All()| - |children|
      {
        CursorFacts();
        var loaded, e := LoadNextDirEnt();
        CursorFacts();
        if loaded {
          MatchesMeans(sv, name, e);
          if Up(sv, name) == Up(sv, e.name) || (possible && short == e.ShortName()) {
            found, d := true, e;
          }
        }
      }
      CursorFacts();
      if found {
        ScanFindsOnly(sv, name, All(), d);
      } else {
        ScanFindsNone(sv, name, All());
      }
    }

    method SearchIndexes(name: Name, possible: bool, short: Short) returns (found: bool, d: DirEnt)
      requires Valid() && possible == Is8Dot3(sv, name) && short == BaseName(sv, name)
      ensures found ==> d in children && Matches(sv, name, d)
      ensures !found ==> NoMatch(sv, name, children)
    {
      hide ListOk, UniqueKeys, Rest, Boundary, HashTable.Indexes, Is8Dot3, BaseName;
      found, d := longTable.Lookup(Up(sv, name), children);
      if !found && possible {
        found, d := shortTable.Lookup(short, children);
      }
    }

    // -------------------------------------------------------------- storing and removing

    /** FatStoreDirEnt: the entry, then the parts of its name in the slots in front of it. */
    method StoreDirEnt(d: DirEnt, invalid: bool)
      requires 1 <= d.entryCount <= MAX_LFN_ENTRIES + 1 && 0 <= d.First() && d.entryPos < |slots|
      modifies this`slots
      ensures slots == Store(old(slots), d, invalid)
    {
      hide PartSlot, CheckSum, Stored, Partial, Store;
      var entryPos, entryCount := d.entryPos, d.entryCount;
      PartialBounds(slots, d, invalid);
      slots := slots[entryPos := d.entry];
      entryCount := entryCount - 1;
      if entryCount > 0 {
        var sum := FatCheckSum(d.ShortName());
        var ordinal := 1;
        while ordinal <= entryCount
          invariant 1 <= ordinal <= entryCount + 1 && entryPos == d.entryPos - (ordinal - 1) && |slots| == |old(slots)|
          invariant slots == Partial(old(slots), d, invalid, ordinal - 1)
        {
          PartialStep(old(slots), d, invalid, ordinal);
          entryPos := entryPos - 1;
          slots := slots[entryPos := PartSlot(d.name, entryCount, sum, invalid, ordinal)];
          ordinal := ordinal + 1;
        }
      }
    }

    /**
      FatRemoveDirEnt, for child `i`: a cursor at the entry steps back, the entry leaves the list and both
      indexes, and its slots are marked as deleted.
     */
    method RemoveDirEnt(i: nat)
      requires Valid() && i < |children| && Alone(sv, true, children, children[i]) && Alone(sv, false, children, children[i])
      modifies Repr()
      ensures 1 <= old(children)[i].entryCount <= MAX_LFN_ENTRIES + 1 && 0 <= old(children)[i].First() && old(children)[i].entryPos < |old(slots)|
      ensures Valid() && All() == Removed(old(All()), i) && currentEndPos == old(currentEndPos)
      ensures slots == Store(old(slots), Deleted(old(children)[i]), true)
      ensures forall p :: 0 <= p < |old(slots)| ==>
        if old(children)[i].First() <= p <= old(children)[i].entryPos then slots[p][0] == 0xE5 else slots[p] == old(slots)[p]
      ensures (old(Durable()) ==> Durable()) && (old(Unique()) ==> Unique())
    {
      hide ListOk, UniqueKeys, Rest, Indexed, Boundary, SizeOk, Coherent, Store, Removed, Alone;
      var d := children[i];
      ghost var rest := if endOfDir then [] else Rest(sv, fat32, slots, currentEndPos);
      ListElement(children, 0, currentEndPos, i);
      RemoveOrdered(children, currentEndPos, i);
      DropChild(i);
      d := Deleted(d);
      ghost var before := slots;
      StoreDirEnt(d, true);
      StoreBelow(sv, fat32, before, d, true, currentEndPos);
      DeletedSlots(before, d);
      RemovedAll(sv, old(children), rest, i);
      if Coherent(sv, fat32, before, old(children), currentEndPos, endOfDir) {
        CoherentAfterRemove(sv, fat32, before, old(children), currentEndPos, endOfDir, i, d);
      }
    }

    /** The list, the cursor and the indexes without child `i`. */
    method DropChild(i: nat)
      requires Indexed() && CursorOk() && i < |children| && ListOk(children, 0, currentEndPos)
      requires Alone(sv, true, children, children[i]) && Alone(sv, false, children, children[i])
      modifies this`children, this`cursor, longTable.buckets, shortTable.buckets
      ensures Indexed() && CursorOk() && children == Removed(old(children), i)
    {
      hide ListOk, Alone, Foremost, HashTable.Indexes, Removed;
      ghost var before := children;
      var d := children[i];
      CursorAfterRemove(children, currentEndPos, cursor, currentPos, i);
      if cursor == i {
        cursor := cursor - 1;
      } else if cursor > i {
        cursor := cursor - 1; // the same entry, one place further to the front
      }
      RemovedMembers(children, currentEndPos, i);
      children := Removed(children, i);
      shortTable.Delete(d, before, children);
      longTable.Delete(d, before, children);
    }

    // -------------------------------------------------------------- creating

    /** The rest of the directory is loaded. */
    method LoadAll()
      requires Valid()
      modifies Repr()
      ensures Valid() && endOfDir && children == All() == old(All()) && slots == old(slots)
      ensures old(currentEndPos) <= currentEndPos && (old(Durable()) ==> Durable())
      ensures old(endOfDir) ==> children == old(children) && currentEndPos == old(currentEndPos)
    {
      hide Valid, Durable, Rest;
      CursorFacts();
      while !endOfDir
        invariant Valid() && All() == old(All()) && slots == old(slots) && old(currentEndPos) <= currentEndPos
        invariant (old(Durable()) ==> Durable()) && (old(endOfDir) ==> endOfDir && children == old(children) && currentEndPos == old(currentEndPos))
        decreases !endOfDir, |All()| - |children|
      {
        CursorFacts();
        var _, _ := LoadNextDirEnt();
        CursorFacts();
      }
      CursorFacts();
    }

    /**
      FatNewEntryPos: the slots behind the last entry, in a file that grows by one cluster if it has to and
      can, and otherwise the first gap that is large enough. `expands` is whether the volume has a cluster for
      the directory, `labelPos` the slot of the volume label. The end of the directory is moved by the caller.
     */
    method NewEntryPos(entryCount: nat, expands: bool, labelPos: nat)
        returns (status: Status, entryPos: nat, i: nat, endPos: nat)
      requires Valid() && 1 <= entryCount <= MAX_LFN_ENTRIES + 1 && (fixedRoot || entryCount <= clusterSlots)
      modifies Repr()
      ensures Valid() && endOfDir && children == All() == old(All()) && old(currentEndPos) <= currentEndPos
      ensures old(Durable()) ==> Durable()
      ensures old(endOfDir) ==> children == old(children)
      ensures status == Success ==> Placed(children, currentEndPos, endPos, |slots|, i, entryPos, entryCount)
      ensures status == Success || status == VolumeFull
      ensures status == VolumeFull && (expands || fixedRoot) && labelPos == 0 ==> NoRoom(children, entryCount, currentEndPos, |slots|)
      ensures old(endOfDir) ==> currentEndPos == old(currentEndPos)
      ensures MustExpand(fixedRoot, currentEndPos + entryCount, |old(slots)|) ==> (status == Success <==> expands)
      ensures slots == old(slots) + EndSlots(if MustExpand(fixedRoot, currentEndPos + entryCount, |old(slots)|) && expands then clusterSlots else 0)
    {
      hide Valid, Durable, ListOk, Placed, Coherent, SizeOk, NoRoom, EndSlots;
      NoEndSlots(slots);
      LoadAll();
      CursorFacts();
      entryPos, i, endPos := 0, 0, currentEndPos;
      var newEndPos := currentEndPos + entryCount;
      if newEndPos > |slots| {
        if newEndPos >= (if fixedRoot then |slots| else MAX_DIRENTRY_COUNT) {
          var full;
          full, entryPos, i := FirstFit(children, entryCount, currentEndPos, labelPos);
          if full {
            NoGap(entryPos, i, entryCount, labelPos);
            return VolumeFull, entryPos, i, endPos;
          }
          FitPlaced(entryPos, i, entryCount, labelPos);
          entryPos := entryPos % 0x1_0000;
          return Success, entryPos, i, endPos;
        }
        if !expands {
          return VolumeFull, entryPos, i, endPos;
        }
        ExpandODir();
      }
      endPos := newEndPos;
      AppendPlaced(newEndPos, entryCount);
      entryPos := (newEndPos - 1) % 0x1_0000;
      i := |children|;
      status := Success;
    }

    /** FatExpandODir: one cluster of zeros at the end of the file. */
    method ExpandODir()
      requires Valid() && endOfDir && !fixedRoot && |slots| < 0x1_0000
      modifies this`slots
      ensures Valid() && All() == old(All()) && slots == old(slots) + EndSlots(clusterSlots) && (old(Durable()) ==> Durable())
    {
      hide ListOk, UniqueKeys, Indexed, SizeOk, Coherent;
      OneMoreCluster(|slots|, clusterSlots);
      ghost var before := slots;
      var zeros := EndSlots(clusterSlots);
      slots := slots + zeros;
      if Coherent(sv, fat32, before, children, currentEndPos, true) {
        CoherentAfterExpand(sv, fat32, before, zeros, children, currentEndPos);
      }
    }

    /**
      FatCreateDirEnt, for a name that a search did not find: the directory gains one entry with that name, in
      slots of its own, and short and long names stay unique. When there is no room nothing changes.
     */
    method CreateDirEnt(name: Name, attributes: Byte, stamp: seq<Byte>, expands: bool, labelPos: nat)
        returns (status: Status, d: DirEnt, ghost i: nat)
      requires Valid() && 1 <= |name| <= 255 && |stamp| == 19 && NoMatch(sv, name, All())
      requires IsDot(name) ==> !Taken(All(), DotName(name))
      requires NeedsShort(sv, name) ==> endOfDir && ShortAvailable(children, BaseName(sv, name), NameCrc(sv, name))
      requires fixedRoot || LfnCount(|name|) + 1 <= clusterSlots
      modifies Repr()
      ensures Valid() && endOfDir && children == All() && old(currentEndPos) <= currentEndPos
      ensures status == Success || status == VolumeFull
      ensures status == Success ==> i <= |old(All())| && All() == Inserted(old(All()), i, d)
      ensures status == Success ==> d.name == name && d.entryCount == SlotsFor(sv, name) && !Taken(old(All()), d.ShortName())
      ensures status == Success ==> d.entry[11] == attributes && d.entry[13..] == stamp
      ensures status == Success ==> d.entry[12] == if Is8Dot3(sv, name) then CaseFlag(sv, name).0 else 0
      ensures status == Success && Is8Dot3(sv, name) ==> d.ShortName() == BaseName(sv, name)
      ensures status == VolumeFull ==> All() == old(All())
      ensures status == VolumeFull && (expands || fixedRoot) && labelPos == 0 ==>
        NoRoom(children, SlotsFor(sv, name), currentEndPos, |slots|)
      ensures old(Durable()) && LiveName(sv, name) && !VolumeId(attributes) ==> Durable()
      ensures old(Unique()) ==> Unique()
      ensures status == VolumeFull ==> slots == old(slots)
      ensures status == Success ==> StoredAfter(old(slots), slots, d)
      ensures old(endOfDir) ==>
        var grows := MustExpand(fixedRoot, old(currentEndPos) + SlotsFor(sv, name), |old(slots)|);
        && (grows ==> (status == Success <==> expands))
        && (status == Success ==> |slots| == |old(slots)| + if grows then clusterSlots else 0)
    {
      hide Valid, Durable, UniqueKeys, NoMatch, Taken, ShortAvailable, BaseName, Is8Dot3, Placed, NoRoom, IsLive, Inserted, Rest, EndSlots, Store, SlotsFor, StoredAfter, MustExpand, CaseFlag, VolumeId, LfnCount, FirstFree;
      ghost var slots0 := slots;
      NoEndSlots(slots0);
      d, i := NoEntry(), 0;
      var short, caseFlag, entryCount := SetEntryCount(name);
      SlotsForBounds(sv, name);
      var entryPos, at, endPos;
      status, entryPos, at, endPos := NewEntryPos(entryCount, expands, labelPos);
      if status == Success {
        CursorFacts();
        i := at;
        ghost var slots1 := slots;
        EndSlotsLength(slots0, slots1);
        var entry: Slot := short + [attributes, caseFlag] + stamp;
        EntryFields(short, attributes, caseFlag, stamp, entry);
        d := EnterEntry(name, entry, entryCount, entryPos, at, endPos);
        LiveEntry(d.entry);
        AfterStore(slots0, slots1, slots, d);
      }
    }

    /** The new entry is made and put in its place. */
    method EnterEntry(name: Name, entry: Slot, entryCount: nat, entryPos: nat, i: nat, endPos: nat) returns (d: DirEnt)
      requires Valid() && endOfDir && children == All() && 1 <= |name| <= 255 && entryCount == SlotsFor(sv, name)
      requires Placed(children, currentEndPos, endPos, |slots|, i, entryPos, entryCount)
      requires NoMatch(sv, name, children) && !Taken(children, entry[..11])
      modifies Repr()
      ensures Valid() && endOfDir && i <= |old(children)| && children == All() == Inserted(old(children), i, d)
      ensures old(currentEndPos) <= currentEndPos && d.name == name && d.entry == entry && d.entryCount == entryCount
      ensures 1 <= d.entryCount <= MAX_LFN_ENTRIES + 1 && 0 <= d.First() && d.entryPos < |old(slots)| && slots == Store(old(slots), d, false)
      ensures (old(Durable()) && IsLive(entry) && 0 !in name ==> Durable()) && (old(Unique()) ==> Unique())
    {
      hide Valid, Durable, UniqueKeys, NoMatch, Taken, Placed, IsLive, Inserted, Rest, Store, SlotsFor;
      SlotsForBounds(sv, name);
      d := DirEnt(entryPos, entryCount, name, entry);
      NewKeys(sv, name, children, d);
      PlacedBounds(children, currentEndPos, endPos, |slots|, i, d);
      PlaceEntry(d, i, endPos);
    }

    /**
      The last component of a path in FatLocateOFile, and the creation in FatOFileOpen when it is not found:
      the search leaves the directory in the state that creation demands.
     */
    method FindOrCreate(name: Name, create: bool, attributes: Byte, stamp: seq<Byte>, expands: bool, labelPos: nat)
        returns (status: Status, d: DirEnt, created: bool)
      requires Valid() && 1 <= |name| <= 255 && |stamp| == 19 && !IsDot(name)
      requires NeedsShort(sv, name) ==> ShortAvailable(All(), BaseName(sv, name), NameCrc(sv, name))
      requires fixedRoot || LfnCount(|name|) + 1 <= clusterSlots
      modifies Repr()
      ensures Valid()
      ensures created <==> status == Success && NoMatch(sv, name, old(All()))
      ensures !created ==> All() == old(All())
      ensures created ==> exists i :: 0 <= i <= |old(All())| && All() == Inserted(old(All()), i, d)
      ensures status == Success ==> d in All() && Matches(sv, name, d)
      ensures status == NotFound <==> NoMatch(sv, name, old(All())) && !create
      ensures (old(Durable()) && LiveName(sv, name) && !VolumeId(attributes) ==> Durable()) && (old(Unique()) ==> Unique())
    {
      hide Valid, Durable, UniqueKeys, Taken, ShortAvailable, BaseName, Is8Dot3, NoRoom, IsLive, Inserted, Rest, SlotsFor, Up, CaseFlag, StoredAfter, MustExpand, LiveName;
      var found;
      found, d := SearchODir(name);
      created, status := false, Success;
      CursorFacts();
      if !found {
        if !create {
          return NotFound, d, false;
        }
        ghost var i;
        status, d, i := CreateDirEnt(name, attributes, stamp, expands, labelPos);
        created := status == Success;
        if created {
          InsertedHas(old(All()), i, d);
          MatchesMeans(sv, name, d);
        }
      }
    }

    /** The new entry joins the list and the indexes and is written to its slots. */
    method PlaceEntry(d: DirEnt, i: nat, endPos: nat)
      requires Valid() && endOfDir && 1 <= d.entryCount <= MAX_LFN_ENTRIES + 1
      requires Placed(children, currentEndPos, endPos, |slots|, i, d.entryPos, d.entryCount) && NewKey(sv, children, d)
      modifies Repr()
      ensures Valid() && endOfDir && children == All() == Inserted(old(children), i, d) && currentEndPos == endPos
      ensures (old(Durable()) && Storable(d) ==> Durable()) && (old(Unique()) ==> Unique())
      ensures 0 <= d.First() && d.entryPos < |old(slots)| && slots == Store(old(slots), d, false)
    {
      hide ListOk, UniqueKeys, Rest, Indexed, Boundary, SizeOk, Coherent, Store, Inserted, NewKey, Storable, Matches;
      ghost var before, slots0, end0 := children, slots, currentEndPos;
      assert before + [] == before;
      PlacedInGap(children, currentEndPos, endPos, |slots|, i, d);
      CursorAfterInsert(children, cursor, currentPos, i, d);
      UniqueAfterInsert(sv, children, i, d);
      NotTaken(sv, children, d);
      if cursor >= i {
        cursor := cursor + 1; // the same entry, one place further to the back
      }
      currentEndPos := endPos;
      AddDirEnt(d, i);
      StoreDirEnt(d, false);
      assert children + [] == children;
      StoreLength(slots0, d, false);
      if Coherent(sv, fat32, slots0, before, end0, true) && Storable(d) {
        CoherentAfterCreate(sv, fat32, slots0, before, end0, endPos, i, d);
      }
    }

    /**
      FatSetEntryCount: short name, case flag and number of slots for a file name. A generated short name is
      not in use; the whole directory must have been loaded for that.
     */
    method SetEntryCount(name: Name) returns (short: Short, caseFlag: Byte, entryCount: nat)
      requires Valid() && 1 <= |name| <= 255 && NoMatch(sv, name, All())
      requires IsDot(name) ==> !Taken(All(), DotName(name))
      requires NeedsShort(sv, name) ==> endOfDir && ShortAvailable(children, BaseName(sv, name), NameCrc(sv, name))
      ensures !Taken(All(), short) && 1 <= entryCount <= MAX_LFN_ENTRIES + 1
      ensures entryCount == SlotsFor(sv, name) && caseFlag == (if Is8Dot3(sv, name) then CaseFlag(sv, name).0 else 0)
      ensures Is8Dot3(sv, name) ==> short == BaseName(sv, name)
      ensures LiveName(sv, name) ==> short[0] != EMPTY_MARK && short[0] != DELETE_MARK
      ensures NeedsShort(sv, name) ==> FirstFree(children, BaseName(sv, name), NameCrc(sv, name), short)
    {
      hide Valid, BaseName, Taken, Rest, ShortAvailable, FirstFree;
      CursorFacts();
      entryCount, caseFlag := 1, 0;
      DotNot8Dot3(sv, name);
      if IsDot(name) {
        short := DotName(name);
        DotFirst(name);
      } else {
        var possible, base := CheckIs8Dot3Name(sv, name);
        short := base;
        if possible {
          NoMatchShort(sv, name, All());
          CaseFlagCount(sv, name);
          caseFlag, entryCount := CaseFlag(sv, name).0, CaseFlag(sv, name).1;
        } else {
          TablesOk();
          short := Create8Dot3Name(shortTable, base, NameCrc(sv, name), children);
          GeneratedFirst(sv, name, children, short);
          entryCount := LfnCount(|name|) + 1;
        }
      }
    }

    lemma NoGap(entryPos: nat, i: nat, entryCount: nat, labelPos: nat)
      requires Valid() && 1 <= entryCount && FirstFitAnswer(children, entryCount, currentEndPos, labelPos, true, entryPos, i)
      ensures labelPos == 0 ==> NoRoom(children, entryCount, currentEndPos, |slots|)
    {
      hide UniqueKeys, Rest, Indexed, Boundary, ListOk, FreeRun;
      if labelPos == 0 {
        FullExactly(children, entryCount, currentEndPos, |slots|, true, entryPos, i);
      }
    }

    lemma FitPlaced(entryPos: nat, i: nat, entryCount: nat, labelPos: nat)
      requires Valid() && i <= |children| && entryPos == Before(children, i) + entryCount && 1 <= entryCount <= MAX_LFN_ENTRIES + 1
      requires if i < |children| then Fits(children, i, entryCount, labelPos) else entryPos < currentEndPos
      ensures entryPos < 0x1_0000 && Placed(children, currentEndPos, currentEndPos, |slots|, i, entryPos, entryCount)
    {
      hide UniqueKeys, Rest, Indexed, Boundary, ListOk;
      var zero: Slot := seq(32, _ => 0);
      var d := DirEnt(entryPos, entryCount, [], zero);
      if i < |children| {
        ListElement(children, 0, currentEndPos, i);
      }
      if i > 0 {
        ListElement(children, 0, currentEndPos, i - 1);
      }
    }

    lemma AppendPlaced(newEndPos: nat, entryCount: nat)
      requires Valid() && newEndPos == currentEndPos + entryCount <= |slots| && 1 <= entryCount <= MAX_LFN_ENTRIES + 1
      ensures newEndPos - 1 < 0x1_0000 && Placed(children, currentEndPos, newEndPos, |slots|, |children|, newEndPos - 1, entryCount)
    {
      hide UniqueKeys, Rest, Indexed, Boundary, ListOk;
      if |children| > 0 {
        ListElement(children, 0, currentEndPos, |children| - 1);
      }
    }

    /** Every entry of a directory with unique names can be removed. */
    lemma Removable(i: nat)
      requires i < |children| && Unique()
      ensures Alone(sv, true, children, children[i]) && Alone(sv, false, children, children[i])
    {
      hide UniqueKeys, Rest, Alone;
      UniqueAlone(sv, children, if endOfDir || currentEndPos > |slots| then [] else Rest(sv, fat32, slots, currentEndPos), i);
    }

    /** Opening the directory again finds the entries that this directory has. */
    lemma ReopenFinds()
      requires Valid() && Durable()
      ensures SameEntries(fat32, Rest(sv, fat32, slots, 0), All())
    {
      hide ListOk, UniqueKeys, Rest, Indexed, Boundary, SizeOk, Coherent, SameEntries;
      Reopened(sv, fat32, slots, children, currentEndPos, endOfDir);
    }

    lemma TablesOk()
      requires Valid()
      ensures !shortTable.long && shortTable.Indexes(children)
    {
      hide ListOk, UniqueKeys, Rest, Boundary, HashTable.Indexes;
    }

    lemma CursorFacts()
      requires Valid()
      ensures currentEndPos <= |slots| && CursorOk() && |children| <= |All()| && (endOfDir ==> All() == children)
      ensures forall i :: 0 <= i < |children| ==> All()[i] == children[i]
    {
      hide ListOk, UniqueKeys, Rest, Indexed, Boundary;
    }

    /** The whole directory is in slot order, and no two entries share a slot. */
    lemma AllOrdered()
      requires Valid()
      ensures ListOk(All(), 0, |slots|)
    {
      hide ListOk, UniqueKeys, Rest, Indexed, Boundary;
      if endOfDir {
        ListWider(children, 0, currentEndPos, |slots|);
        assert All() == children;
      } else {
        RestList(sv, fat32, slots, currentEndPos, currentEndPos);
        ListAppend(children, Rest(sv, fat32, slots, currentEndPos), 0, currentEndPos, |slots|);
      }
    }
  }

  predicate IsDot(name: Name) {
    name == [DOT] || name == [DOT, DOT]
  }

  /** The short names of "." and "..". */
  function DotName(name: Name): Short
    requires IsDot(name)
  {
    Splice(Blanks(), 0, name)
  }

  /** The name is neither "." nor ".." nor an 8.3 name. */
  predicate NeedsShort(sv: Services, name: Name) {
    !IsDot(name) && !Is8Dot3(sv, name)
  }

  /** The name has no terminator in it, and its first FAT character is neither of the two marks. */
  predicate LiveName(sv: Services, name: Name) {
    0 !in name && BaseName(sv, name)[0] != EMPTY_MARK && BaseName(sv, name)[0] != DELETE_MARK
  }

  lemma DotFirst(name: Name)
    requires IsDot(name)
    ensures DotName(name)[0] == DOT
  {
  }

  lemma GeneratedFirst(sv: Services, name: Name, children: seq<DirEnt>, short: Short)
    requires FirstFree(children, BaseName(sv, name), NameCrc(sv, name), short)
    ensures LiveName(sv, name) ==> short[0] != EMPTY_MARK && short[0] != DELETE_MARK
  {
    hide BaseName, Tried, Taken;
    var t: nat :| short == Tried(BaseName(sv, name), NameCrc(sv, name), t);
    TriedFirstByte(BaseName(sv, name), NameCrc(sv, name), t);
  }

  /** How many slots an entry of that name takes: a long name is stored unless upper and lower case flags can express it. */
  function SlotsFor(sv: Services, name: Name): (n: nat) {
    if Is8Dot3(sv, name) then CaseFlag(sv, name).1 else if IsDot(name) then 1 else LfnCount(|name|) + 1
  }

  lemma SlotsForBounds(sv: Services, name: Name)
    requires 1 <= |name| <= 255
    ensures 1 <= SlotsFor(sv, name) <= LfnCount(|name|) + 1 <= MAX_LFN_ENTRIES + 1
    ensures SlotsFor(sv, name) > 1 ==> SlotsFor(sv, name) == LfnCount(|name|) + 1
    ensures NeedsShort(sv, name) ==> 13 * (SlotsFor(sv, name) - 2) < |name| <= 13 * (SlotsFor(sv, name) - 1)
    ensures IsDot(name) ==> SlotsFor(sv, name) == 1
  {
    hide Is8Dot3, CaseFlag;
    LfnCountIsCeiling(|name|);
    DotNot8Dot3(sv, name);
    LfnCountPositive(|name|);
    if Is8Dot3(sv, name) {
      CaseFlagCount(sv, name);
    }
  }

  /** CRC32 of the file name and its terminator. */
  function NameCrc(sv: Services, name: Name): nat {
    sv.crc32(CharBytes(name + [0]))
  }

  /** The short names of "." and ".." are one and two dots, filled with blanks. */
  lemma DotNameBytes(name: Name, i: nat)
    requires IsDot(name) && i < 11
    ensures DotName(name)[i] == if i < |name| then 0x2E else 0x20
  {
  }

  /** The CRC goes over the characters of the name, low byte first, and its terminator. */
  lemma NameCrcMeans(sv: Services, name: Name, b: seq<int>)
    requires |b| == 2 * |name| + 2 && b[2 * |name|] == 0 && b[2 * |name| + 1] == 0
    requires forall k :: 0 <= k < |name| ==> b[2 * k] == name[k] % 256 && b[2 * k + 1] == name[k] / 256
    ensures NameCrc(sv, name) == sv.crc32(b)
  {
    var bytes := CharBytes(name + [0]);
    forall i | 0 <= i < |b|
      ensures b[i] == bytes[i]
    {
      CharBytesAt(name + [0], i / 2);
      assert i == 2 * (i / 2) + i % 2;
    }
    assert bytes == b;
  }

  lemma DotNot8Dot3(sv: Services, name: Name)
    ensures IsDot(name) ==> !Is8Dot3(sv, name)
  {
    if name == [DOT, DOT] {
      assert ExtraMark(name, 0);
    }
  }

  lemma NoMatchShort(sv: Services, name: Name, all: seq<DirEnt>)
    requires NoMatch(sv, name, all) && Is8Dot3(sv, name)
    ensures !Taken(all, BaseName(sv, name))
  {
    hide Is8Dot3, BaseName;
  }

  lemma CaseFlagCount(sv: Services, name: Name)
    requires Is8Dot3(sv, name)
    ensures 1 <= CaseFlag(sv, name).1 <= 2 && 1 <= |name| <= 12 && LfnCount(|name|) == 1
  {
    hide ToFat;
  }

  lemma InsertedHas(list: seq<DirEnt>, i: nat, d: DirEnt)
    requires i <= |list|
    ensures d in Inserted(list, i, d)
  {
    assert Inserted(list, i, d)[i] == d;
  }

  lemma EntryFields(short: Short, attributes: Byte, caseFlag: Byte, stamp: seq<Byte>, entry: Slot)
    requires |stamp| == 19 && entry == short + [attributes, caseFlag] + stamp
    ensures entry[..11] == short && entry[0] == short[0] && entry[11] == attributes && entry[12] == caseFlag && entry[13..] == stamp
  {
  }

  lemma LiveEntry(s: Slot)
    ensures s[0] != EMPTY_MARK && s[0] != DELETE_MARK && !VolumeId(s[11]) ==> IsLive(s)
  {
  }

  lemma LfnCountPositive(length: nat)
    requires 1 <= length <= 255
    ensures 1 <= LfnCount(length) <= MAX_LFN_ENTRIES
  {
  }

  /** The keys of `d` are not the keys of any entry. */
  ghost predicate NewKey(sv: Services, list: seq<DirEnt>, d: DirEnt) {
    forall e :: e in list ==> KeyOf(sv, true, e) != KeyOf(sv, true, d) && KeyOf(sv, false, e) != KeyOf(sv, false, d)
  }

  lemma NewKeys(sv: Services, name: Name, list: seq<DirEnt>, d: DirEnt)
    requires d.name == name && NoMatch(sv, name, list) && !Taken(list, d.ShortName())
    ensures NewKey(sv, list, d)
  {
    hide Up, Is8Dot3, BaseName;
    forall e | e in list
      ensures Up(sv, e.name) != Up(sv, name)
    {
      MatchesMeans(sv, name, e);
    }
  }

  lemma NotTaken(sv: Services, list: seq<DirEnt>, d: DirEnt)
    requires NewKey(sv, list, d)
    ensures d !in list
  {
    hide KeyOf;
  }

  /** Names stay unique when an entry with new keys is added. */
  lemma UniqueAfterInsert(sv: Services, list: seq<DirEnt>, i: nat, d: DirEnt)
    requires i <= |list| && NewKey(sv, list, d)
    ensures UniqueKeys(sv, true, list) ==> UniqueKeys(sv, true, Inserted(list, i, d))
    ensures UniqueKeys(sv, false, list) ==> UniqueKeys(sv, false, Inserted(list, i, d))
  {
    hide KeyOf;
    var r := Inserted(list, i, d);
    assert forall k :: 0 <= k < |r| && k != i ==> r[k] == list[if k < i then k else k - 1];
    assert forall k :: 0 <= k < |r| && k != i ==> r[k] in list;
  }

  lemma CursorAfterInsert(list: seq<DirEnt>, cursor: int, position: nat, i: nat, d: DirEnt)
    requires i <= |list| && -1 <= cursor < |list| && (cursor >= 0 ==> list[cursor].entryPos < position)
    ensures |Inserted(list, i, d)| == |list| + 1
    ensures var cursor' := if cursor >= i then cursor + 1 else cursor;
      -1 <= cursor' < |list| + 1 && (cursor' >= 0 ==> Inserted(list, i, d)[cursor'].entryPos < position)
  {
  }

  lemma PlacedInGap(children: seq<DirEnt>, endPos: nat, endPos': nat, size: nat, i: nat, d: DirEnt)
    requires Placed(children, endPos, endPos', size, i, d.entryPos, d.entryCount) && 1 <= d.entryCount <= MAX_LFN_ENTRIES + 1
    requires ListOk(children, 0, endPos)
    ensures ListOk(Inserted(children, i, d), 0, endPos')
  {
    hide ListOk, Inserted;
    ListWider(children, 0, endPos, endPos');
    InsertOrdered(children, endPos', i, d);
  }

  lemma PlacedBounds(children: seq<DirEnt>, endPos: nat, endPos': nat, size: nat, i: nat, d: DirEnt)
    requires Placed(children, endPos, endPos', size, i, d.entryPos, d.entryCount)
    ensures i <= |children| && endPos <= endPos' && 0 <= d.First()
  {
  }

  /** The file has to grow for an entry that ends in front of `newEndPos`, and may. */
  predicate MustExpand(fixedRoot: bool, newEndPos: nat, size: nat) {
    newEndPos > size && !fixedRoot && newEndPos < MAX_DIRENTRY_COUNT
  }

  /** The slots with end marks appended as far as needed, and the entry stored in them. */
  ghost predicate StoredAfter(slots: seq<Slot>, slots': seq<Slot>, d: DirEnt) {
    && 1 <= d.entryCount <= MAX_LFN_ENTRIES + 1 && 0 <= d.First() && d.entryPos < |slots'| && |slots| <= |slots'|
    && slots' == Store(slots + EndSlots(|slots'| - |slots|), d, false)
  }

  lemma AfterStore(slots: seq<Slot>, slots1: seq<Slot>, slots': seq<Slot>, d: DirEnt)
    requires 1 <= d.entryCount <= MAX_LFN_ENTRIES + 1 && 0 <= d.First() && d.entryPos < |slots1| && slots' == Store(slots1, d, false)
    requires |slots| <= |slots1| && slots1 == slots + EndSlots(|slots1| - |slots|)
    ensures StoredAfter(slots, slots', d) && |slots'| == |slots1|
  {
    hide Store;
    StoreLength(slots1, d, false);
  }

  lemma MustExpandExactly(fixedRoot: bool, newEndPos: nat, size: nat)
    ensures MustExpand(fixedRoot, newEndPos, size) <==> !fixedRoot && size < newEndPos < 0xFFFF
  {
  }

  lemma NoEndSlots(slots: seq<Slot>)
    ensures slots + EndSlots(0) == slots
  {
  }

  lemma EndSlotsLength(slots: seq<Slot>, slots': seq<Slot>)
    ensures forall n: nat :: slots' == slots + EndSlots(n) ==> |slots'| == |slots| + n
  {
  }

  lemma StoreLength(slots: seq<Slot>, d: DirEnt, invalid: bool)
    requires 1 <= d.entryCount <= MAX_LFN_ENTRIES + 1 && 0 <= d.First() && d.entryPos < |slots|
    ensures |Store(slots, d, invalid)| == |slots|
  {
  }

  /** Every free run of slots that is long enough is one that first fit does not see. */
  ghost predicate NoRoom(children: seq<DirEnt>, entryCount: nat, endPos: nat, size: nat) {
    forall first: nat :: FreeRun(children, entryCount, size, first) ==> Overlooked(entryCount, endPos, first)
  }

  /**
    A place for a new entry: in the gap before child `i`, either below the end of the loaded part or in the
    slots between the old end and the new one.
   */
  ghost predicate Placed(children: seq<DirEnt>, endPos: nat, endPos': nat, size: nat, i: nat, entryPos: nat, entryCount: nat) {
    && i <= |children| && 0 <= entryPos - entryCount + 1
    && (i > 0 ==> children[i - 1].entryPos < entryPos - entryCount + 1)
    && (i < |children| ==> entryPos < children[i].First())
    && endPos <= endPos' <= size && entryPos < endPos'
    && (endPos < endPos' ==> entryPos - entryCount + 1 == endPos && entryPos + 1 == endPos')
  }

  /** `d` is the entry of least position not below `position`. */
  ghost predicate IsNext(all: seq<DirEnt>, position: nat, d: DirEnt) {
    d in all && position <= d.entryPos && forall e :: e in all && position <= e.entryPos ==> d.entryPos <= e.entryPos
  }

  ghost predicate AllBelow(all: seq<DirEnt>, position: nat) {
    forall e :: e in all ==> e.entryPos < position
  }

  /** What a directory read at `position` answers, and where it leaves the handle. */
  ghost predicate ReadResult(all: seq<DirEnt>, position: nat, bufferFits: bool, found: bool, d: DirEnt, position': nat) {
    if found then IsNext(all, position, d) && position' == (if bufferFits then d.entryPos + 1 else position)
    else AllBelow(all, position) && position <= position'
  }

  lemma PrefixBelow(all: seq<DirEnt>, hi: nat, n: nat, position: nat)
    requires ListOk(all, 0, hi) && n <= |all| && (n > 0 ==> all[n - 1].entryPos < position)
    ensures AllBelow(all[..n], position)
  {
    forall i | 0 <= i < n
      ensures all[i].entryPos < position
    {
      hide ListOk;
      if i < n - 1 {
        ListPair(all, 0, hi, i, n - 1);
        ListElement(all, 0, hi, n - 1);
      }
    }
  }

  lemma NextAt(all: seq<DirEnt>, hi: nat, n: nat, position: nat)
    requires ListOk(all, 0, hi) && n < |all| && AllBelow(all[..n], position) && position <= all[n].entryPos
    ensures IsNext(all, position, all[n])
  {
    forall i | 0 <= i < |all| && position <= all[i].entryPos
      ensures all[n].entryPos <= all[i].entryPos
    {
      hide ListOk;
      assert forall k :: 0 <= k < n ==> all[k] in all[..n];
      if n < i {
        ListPair(all, 0, hi, n, i);
        ListElement(all, 0, hi, i);
      }
    }
  }

  lemma Shift(a: seq<DirEnt>, d: DirEnt, b: seq<DirEnt>)
    ensures a + ([d] + b) == (a + [d]) + b
  {
  }

  /** The slots after the entry and the first `n` parts of its name have been written. */
  ghost function Partial(slots: seq<Slot>, d: DirEnt, invalid: bool, n: nat): (r: seq<Slot>)
    requires n < d.entryCount <= MAX_LFN_ENTRIES + 1 && 0 <= d.First() && d.entryPos < |slots|
    ensures |r| == |slots|
  {
    Splice(slots, d.entryPos - n, Stored(d, invalid)[d.entryCount - 1 - n..])
  }

  lemma PartialBounds(slots: seq<Slot>, d: DirEnt, invalid: bool)
    requires 1 <= d.entryCount <= MAX_LFN_ENTRIES + 1 && 0 <= d.First() && d.entryPos < |slots|
    ensures Partial(slots, d, invalid, 0) == slots[d.entryPos := d.entry]
    ensures Partial(slots, d, invalid, d.entryCount - 1) == Store(slots, d, invalid)
  {
    hide Stored;
    StoredLength(d, invalid);
    assert Stored(d, invalid)[0..] == Stored(d, invalid);
    assert Stored(d, invalid)[d.entryCount - 1..] == [d.entry];
  }

  lemma PartialStep(slots: seq<Slot>, d: DirEnt, invalid: bool, o: nat)
    requires 1 <= o < d.entryCount <= MAX_LFN_ENTRIES + 1 && 0 <= d.First() && d.entryPos < |slots|
    ensures |Partial(slots, d, invalid, o - 1)| == |slots|
    ensures Partial(slots, d, invalid, o)
      == Partial(slots, d, invalid, o - 1)[d.entryPos - o := PartSlot(d.name, d.entryCount - 1, CheckSum(d.ShortName()), invalid, o)]
  {
    hide PartSlot, CheckSum;
    var all := Stored(d, invalid);
    assert all[d.entryCount - 1 - o] == PartSlot(d.name, d.entryCount - 1, CheckSum(d.ShortName()), invalid, o);
  }

  /** Storing an entry in the loaded part leaves the rest of a scan alone. */
  lemma StoreBelow(sv: Services, fat32: bool, slots: seq<Slot>, d: DirEnt, invalid: bool, endPos: nat)
    requires 1 <= d.entryCount <= MAX_LFN_ENTRIES + 1 && 0 <= d.First() && d.entryPos < endPos <= |slots| && Barrier(d.entry)
    ensures |Store(slots, d, invalid)| == |slots|
    ensures Boundary(slots, endPos) ==> Boundary(Store(slots, d, invalid), endPos)
    ensures Boundary(slots, endPos) ==> Rest(sv, fat32, Store(slots, d, invalid), endPos) == Rest(sv, fat32, slots, endPos)
  {
    hide Store, Barrier, Rest;
    var slots' := Store(slots, d, invalid);
    StoreAt(slots, d, invalid, endPos - 1);
    forall p | endPos <= p < |slots|
      ensures slots'[p] == slots[p]
    {
      StoreAt(slots, d, invalid, p);
    }
    if Boundary(slots, endPos) {
      assert slots[endPos..] == slots'[endPos..];
      RestFrame(sv, fat32, slots, slots', endPos, endPos);
    }
  }

  lemma CursorAfterRemove(list: seq<DirEnt>, hi: nat, cursor: int, position: nat, i: nat)
    requires ListOk(list, 0, hi) && i < |list| && -1 <= cursor < |list| && (cursor >= 0 ==> list[cursor].entryPos < position)
    ensures |Removed(list, i)| == |list| - 1
    ensures var cursor' := if cursor >= i then cursor - 1 else cursor;
      -1 <= cursor' < |list| - 1 && (cursor' >= 0 ==> Removed(list, i)[cursor'].entryPos < position)
  {
    hide ListOk;
    if 0 < i {
      ListPair(list, 0, hi, i - 1, i);
      ListElement(list, 0, hi, i);
    }
  }

  lemma RemovedMembers(list: seq<DirEnt>, hi: nat, i: nat)
    requires ListOk(list, 0, hi) && i < |list|
    ensures forall e :: e in Removed(list, i) <==> e in list && e != list[i]
  {
    var r := Removed(list, i);
    forall k | 0 <= k < |list| && k != i
      ensures list[k] != list[i] && list[k] in r
    {
      assert r[if k < i then k else k - 1] == list[k];
      if k < i {
        ListPair(list, 0, hi, k, i);
      } else {
        ListPair(list, 0, hi, i, k);
      }
    }
  }

  lemma RemovedAll(sv: Services, a: seq<DirEnt>, b: seq<DirEnt>, i: nat)
    requires i < |a|
    ensures Removed(a + b, i) == Removed(a, i) + b
    ensures UniqueKeys(sv, true, a + b) ==> UniqueKeys(sv, true, Removed(a, i) + b)
    ensures UniqueKeys(sv, false, a + b) ==> UniqueKeys(sv, false, Removed(a, i) + b)
  {
    hide KeyOf;
    var all, r := a + b, Removed(a, i) + b;
    assert forall k :: 0 <= k < |r| ==> r[k] == all[if k < i then k else k + 1];
  }

  /** In a directory with unique names every entry is alone with its names. */
  lemma UniqueAlone(sv: Services, a: seq<DirEnt>, b: seq<DirEnt>, i: nat)
    requires i < |a|
    ensures UniqueKeys(sv, true, a + b) ==> Alone(sv, true, a, a[i])
    ensures UniqueKeys(sv, false, a + b) ==> Alone(sv, false, a, a[i])
  {
    hide KeyOf;
    assert forall k :: 0 <= k < |a| ==> (a + b)[k] == a[k];
  }

  lemma ListWider(list: seq<DirEnt>, lo: nat, hi: nat, hi': nat)
    requires ListOk(list, lo, hi) && hi <= hi'
    ensures ListOk(list, lo, hi')
  {
  }

  lemma NotAmong(list: seq<DirEnt>, hi: nat, d: DirEnt)
    requires ListOk(list, 0, hi) && hi <= d.entryPos
    ensures d !in list
  {
  }
}
