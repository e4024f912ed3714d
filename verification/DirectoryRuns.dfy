/**
  Several handles reading one directory while entries are created and removed. The steps are what
  ODir.ReadDir, ODir.CreateDirEnt and ODir.RemoveDirEnt promise about the whole directory.
 */
module DirectoryRuns {
  import opened Bytes
  import opened LongNames
  import opened NameHash
  import opened ShortNames
  import opened DirectoryLayout
  import opened Directories

  /** The entries of the directory and the position of each handle. */
  datatype State = State(entries: seq<DirEnt>, positions: seq<nat>)

  datatype Event =
    | Read(handle: nat, fits: bool, found: bool, entry: DirEnt, position: nat)
    | Rewind(handle: nat)
    | Create(at: nat, entry: DirEnt)
    | Remove(at: nat)

  /** In slot order: no two entries end in the same slot. */
  ghost predicate Ordered(entries: seq<DirEnt>) {
    forall i, j :: 0 <= i < j < |entries| ==> entries[i].entryPos < entries[j].entryPos
  }

  /** The order that every operation on a directory keeps. */
  lemma OrderedList(entries: seq<DirEnt>, hi: nat)
    requires ListOk(entries, 0, hi)
    ensures Ordered(entries)
  {
  }

  /** The new entry lies between its neighbours, as ODir.Valid demands of the directory after a creation. */
  ghost predicate InOrder(entries: seq<DirEnt>, i: nat, d: DirEnt)
    requires i <= |entries|
  {
    (i > 0 ==> entries[i - 1].entryPos < d.entryPos) && (i < |entries| ==> d.entryPos < entries[i].entryPos)
  }

  lemma CreatedInOrder(entries: seq<DirEnt>, hi: nat, i: nat, d: DirEnt)
    requires i <= |entries| && ListOk(Inserted(entries, i, d), 0, hi)
    ensures InOrder(entries, i, d)
  {
    var r := Inserted(entries, i, d);
    assert r[i] == d && (i > 0 ==> r[i - 1] == entries[i - 1]) && (i < |entries| ==> r[i + 1] == entries[i]);
  }

  ghost predicate Step(s: State, e: Event, s': State) {
    match e
    case Read(h, fits, found, d, position) =>
      h < |s.positions| && ReadResult(s.entries, s.positions[h], fits, found, d, position) && s' == State(s.entries, s.positions[h := position])
    case Rewind(h) =>
      h < |s.positions| && s' == State(s.entries, s.positions[h := 0])
    case Create(i, d) =>
      i <= |s.entries| && InOrder(s.entries, i, d) && s' == State(Inserted(s.entries, i, d), s.positions)
    case Remove(i) =>
      i < |s.entries| && s' == State(Removed(s.entries, i), s.positions)
  }

  ghost predicate IsRun(states: seq<State>, events: seq<Event>) {
    && |states| == |events| + 1
    && Ordered(states[0].entries)
    && (forall i :: 0 <= i < |events| ==> Step(states[i], events[i], states[i + 1]))
  }

  /** The event hands entry `d` to the caller of handle `h`. */
  ghost predicate Hands(e: Event, h: nat, d: DirEnt) {
    e.Read? && e.handle == h && e.fits && e.found && e.entry == d
  }

  /** How often entry `d` is handed to handle `h` in the first `n` events. */
  ghost function Times(events: seq<Event>, h: nat, d: DirEnt, n: nat): nat
    requires n <= |events|
  {
    if n == 0 then 0 else Times(events, h, d, n - 1) + if Hands(events[n - 1], h, d) then 1 else 0
  }

  ghost predicate NoRewind(events: seq<Event>, h: nat) {
    forall i :: 0 <= i < |events| ==> events[i] != Rewind(h)
  }

  /** `d` is there all the time. */
  ghost predicate Stays(states: seq<State>, d: DirEnt) {
    forall i :: 0 <= i < |states| ==> d in states[i].entries
  }

  lemma PairOrdered(entries: seq<DirEnt>, i: nat, j: nat)
    requires Ordered(entries) && i < j < |entries|
    ensures entries[i].entryPos < entries[j].entryPos
  {
  }

  lemma CreatedPair(entries: seq<DirEnt>, i: nat, d: DirEnt, a: nat, b: nat)
    requires Ordered(entries) && i <= |entries| && InOrder(entries, i, d) && a < b <= |entries|
    ensures Inserted(entries, i, d)[a].entryPos < Inserted(entries, i, d)[b].entryPos
  {
    hide Ordered;
    var r := Inserted(entries, i, d);
    if b == i {
      assert r[a] == entries[a] && r[b] == d;
      if a < i - 1 { PairOrdered(entries, a, i - 1); }
    } else if a == i {
      assert r[a] == d && r[b] == entries[b - 1];
      if i < b - 1 { PairOrdered(entries, i, b - 1); }
    } else {
      var a', b' := if a < i then a else a - 1, if b < i then b else b - 1;
      assert r[a] == entries[a'] && r[b] == entries[b'];
      PairOrdered(entries, a', b');
    }
  }

  lemma StepOrdered(s: State, e: Event, s': State)
    requires Step(s, e, s') && Ordered(s.entries)
    ensures Ordered(s'.entries)
  {
    if e.Create? {
      forall a, b | 0 <= a < b < |s'.entries|
        ensures s'.entries[a].entryPos < s'.entries[b].entryPos
      {
        CreatedPair(s.entries, e.at, e.entry, a, b);
      }
    } else if e.Remove? {
      var i, r := e.at, s'.entries;
      assert forall k :: 0 <= k < |r| ==> r[k] == if k < i then s.entries[k] else s.entries[k + 1];
    }
  }

  /** The entries stay in slot order over every run. */
  lemma {:induction false} RunOrdered(states: seq<State>, events: seq<Event>, n: nat)
    requires IsRun(states, events) && n < |states|
    ensures Ordered(states[n].entries)
  {
    if n > 0 {
      RunOrdered(states, events, n - 1);
      StepOrdered(states[n - 1], events[n - 1], states[n]);
    }
  }

  lemma HandlesKept(s: State, e: Event, s': State)
    requires Step(s, e, s')
    ensures |s'.positions| == |s.positions|
  {
  }

  lemma {:induction false} AllHandles(states: seq<State>, events: seq<Event>, n: nat)
    requires IsRun(states, events) && n < |states|
    ensures |states[n].positions| == |states[0].positions|
  {
    if n > 0 {
      AllHandles(states, events, n - 1);
      HandlesKept(states[n - 1], events[n - 1], states[n]);
    }
  }

  /** One event: an entry that is there is handed out exactly when the position passes it. */
  lemma OnePass(s: State, e: Event, s': State, h: nat, d: DirEnt)
    requires Step(s, e, s') && Ordered(s.entries) && d in s.entries && h < |s.positions| && e != Rewind(h)
    ensures h < |s'.positions| && s.positions[h] <= s'.positions[h]
    ensures Hands(e, h, d) <==> s.positions[h] <= d.entryPos < s'.positions[h]
  {
    if e.Read? && e.handle == h && e.found {
      var i :| 0 <= i < |s.entries| && s.entries[i] == d;
      var j :| 0 <= j < |s.entries| && s.entries[j] == e.entry;
      assert i < j ==> s.entries[i].entryPos < s.entries[j].entryPos;
    }
  }

  lemma {:induction false} PassedOnce(states: seq<State>, events: seq<Event>, h: nat, d: DirEnt, n: nat)
    requires IsRun(states, events) && NoRewind(events, h) && Stays(states, d) && n < |states|
    requires h < |states[0].positions| && states[0].positions[h] == 0
    ensures n <= |events| && h < |states[n].positions|
    ensures Times(events, h, d, n) == if d.entryPos < states[n].positions[h] then 1 else 0
  {
    hide Step, Ordered, Hands, IsRun, Stays, NoRewind;
    RunLength(states, events);
    AllHandles(states, events, n);
    if n > 0 {
      PassedOnce(states, events, h, d, n - 1);
      RunAt(states, events, h, d, n - 1);
      OnePass(states[n - 1], events[n - 1], states[n], h, d);
    }
  }

  lemma RunLength(states: seq<State>, events: seq<Event>)
    requires IsRun(states, events)
    ensures |states| == |events| + 1
  {
  }

  lemma RunAt(states: seq<State>, events: seq<Event>, h: nat, d: DirEnt, n: nat)
    requires IsRun(states, events) && NoRewind(events, h) && Stays(states, d) && n < |events|
    ensures Step(states[n], events[n], states[n + 1]) && Ordered(states[n].entries)
    ensures d in states[n].entries && events[n] != Rewind(h)
  {
    hide Step, Ordered;
    RunOrdered(states, events, n);
  }

  /**
    A full scan by one handle, interleaved with any reads of other handles, creations and removals: every
    entry that is there all the time is returned exactly once.
   */
  lemma ScanOnce(states: seq<State>, events: seq<Event>, h: nat, d: DirEnt)
    requires IsRun(states, events) && NoRewind(events, h) && Stays(states, d)
    requires h < |states[0].positions| && states[0].positions[h] == 0
    requires |events| > 0 && events[|events| - 1].Read? && events[|events| - 1].handle == h && !events[|events| - 1].found
    ensures Times(events, h, d, |events|) == 1
  {
    var n := |events| - 1;
    PassedOnce(states, events, h, d, n + 1);
    AllHandles(states, events, n);
    assert Step(states[n], events[n], states[n + 1]);
    assert d in states[n].entries;
  }

  lemma {:induction false} PositionsGrow(states: seq<State>, events: seq<Event>, h: nat, m: nat, n: nat)
    requires IsRun(states, events) && NoRewind(events, h) && m <= n < |states| && h < |states[0].positions|
    ensures h < |states[m].positions| && h < |states[n].positions| && states[m].positions[h] <= states[n].positions[h]
  {
    AllHandles(states, events, m);
    AllHandles(states, events, n);
    if m < n {
      PositionsGrow(states, events, h, m, n - 1);
      assert Step(states[n - 1], events[n - 1], states[n]);
      assert events[n - 1] != Rewind(h);
    }
  }

  /** A handle is never given two entries in the wrong order, nor the same slot twice, whatever happens in between. */
  lemma NeverTwice(states: seq<State>, events: seq<Event>, h: nat, a: DirEnt, b: DirEnt, m: nat, n: nat)
    requires IsRun(states, events) && NoRewind(events, h) && m < n < |events| && h < |states[0].positions|
    requires Hands(events[m], h, a) && Hands(events[n], h, b)
    ensures a.entryPos < b.entryPos
  {
    assert Step(states[m], events[m], states[m + 1]);
    assert Step(states[n], events[n], states[n + 1]);
    PositionsGrow(states, events, h, m + 1, n);
  }

  // ---------------------------------------------------------------- the operations of a directory make such runs

  lemma RunMore(states: seq<State>, events: seq<Event>, e: Event, s: State)
    requires IsRun(states, events) && Step(states[|states| - 1], e, s)
    ensures IsRun(states + [s], events + [e])
  {
    hide Step, Ordered;
    var states', events' := states + [s], events + [e];
    forall i | 0 <= i < |events'|
      ensures Step(states'[i], events'[i], states'[i + 1])
    {
      if i < |events| {
        assert states'[i] == states[i] && states'[i + 1] == states[i + 1] && events'[i] == events[i];
      }
    }
  }

  /** An open directory, the positions of its handles, and the run so far. */
  class Session {
    const dir: ODir
    var positions: seq<nat>
    ghost var states: seq<State>
    ghost var events: seq<Event>

    /** The run is one of those above, and ends in the present state. */
    ghost predicate Valid()
      reads this, dir, dir.longTable.buckets, dir.shortTable.buckets
    {
      && dir.Valid() && IsRun(states, events)
      && states[|states| - 1] == State(dir.All(), positions)
      && forall h :: 0 <= h < |positions| ==> positions[h] <= dir.currentEndPos
    }

    /** `handles` handles are opened on the directory. */
    constructor (dir: ODir, handles: nat)
      requires dir.Valid()
      ensures Valid() && this.dir == dir && events == [] && positions == seq(handles, _ => 0)
    {
      this.dir := dir;
      positions := seq(handles, _ => 0);
      states := [State(dir.All(), seq(handles, _ => 0))];
      events := [];
      new;
      hide ODir.Valid, Ordered;
      dir.AllOrdered();
      OrderedList(dir.All(), |dir.slots|);
    }

    /** The event has happened. */
    ghost method Note(e: Event)
      requires IsRun(states, events) && Step(states[|states| - 1], e, State(dir.All(), positions))
      modifies this`states, this`events
      ensures IsRun(states, events) && states[|states| - 1] == State(dir.All(), positions)
      ensures states == old(states) + [State(dir.All(), positions)] && events == old(events) + [e]
    {
      hide IsRun, Step;
      RunMore(states, events, e, State(dir.All(), positions));
      states, events := states + [State(dir.All(), positions)], events + [e];
    }

    /** FatIFileReadDir on handle `h`. */
    method Read(h: nat, fits: bool) returns (found: bool, d: DirEnt)
      requires Valid() && h < |positions|
      modifies this, dir.Repr()
      ensures |positions| == |old(positions)|
      ensures Valid() && events == old(events) + [Event.Read(h, fits, found, d, positions[h])]
    {
      hide ODir.Valid, IsRun, ReadResult, ODir.All;
      var position;
      found, d, position := dir.ReadDir(positions[h], fits);
      positions := positions[h := position];
      Note(Event.Read(h, fits, found, d, position));
    }

    /** FatSetPosition on handle `h`, to the start of the directory. */
    method Rewind(h: nat)
      requires Valid() && h < |positions|
      modifies this, dir.Repr()
      ensures Valid() && events == old(events) + [Event.Rewind(h)]
    {
      hide ODir.Valid, IsRun, ODir.All;
      dir.ResetCursor();
      positions := positions[h := 0];
      Note(Event.Rewind(h));
    }

    /** FatCreateDirEnt; nothing happens to the run when there is no room. */
    method Create(name: Name, attributes: Byte, stamp: seq<Byte>, expands: bool, labelPos: nat) returns (status: Status, d: DirEnt, ghost i: nat)
      requires Valid() && 1 <= |name| <= 255 && |stamp| == 19 && NoMatch(dir.sv, name, dir.All()) && !IsDot(name)
      requires NeedsShort(dir.sv, name) ==> dir.endOfDir && ShortAvailable(dir.children, BaseName(dir.sv, name), NameCrc(dir.sv, name))
      requires dir.fixedRoot || LfnCount(|name|) + 1 <= dir.clusterSlots
      modifies this, dir.Repr()
      ensures Valid() && events == old(events) + if status == Success then [Event.Create(i, d)] else []
    {
      hide ODir.Valid, IsRun, ODir.All, NoMatch, ShortAvailable, BaseName, Is8Dot3, Taken, NoRoom, SlotsFor, Inserted, InOrder, CaseFlag, StoredAfter, MustExpand, LiveName;
      status, d, i := dir.CreateDirEnt(name, attributes, stamp, expands, labelPos);
      if status == Success {
        dir.AllOrdered();
        CreatedInOrder(old(dir.All()), |dir.slots|, i, d);
        Note(Event.Create(i, d));
      }
    }

    /** FatRemoveDirEnt. */
    method Remove(i: nat)
      requires Valid() && i < |dir.children|
      requires Alone(dir.sv, true, dir.children, dir.children[i]) && Alone(dir.sv, false, dir.children, dir.children[i])
      modifies this, dir.Repr()
      ensures Valid() && events == old(events) + [Event.Remove(i)]
    {
      hide ODir.Valid, IsRun, Alone, Removed;
      dir.CursorFacts();
      dir.RemoveDirEnt(i);
      Note(Event.Remove(i));
    }
  }
}
