/**
  Directory slots and long file names (DirectoryManage.c FatStoreDirEnt, FatLoadLongNameEntry;
  FileName.c FatCheckSum; FatFileSystem.h). A directory is a sequence of 32-byte slots. A file takes one
  slot for its entry; a long name lies in front of it, 13 characters to a slot, last part first.
 */
module LongNames {
  import opened Bytes

  type Char16 = c: int | 0 <= c < 0x1_0000
  type Name = seq<Char16>
  type Slot = s: seq<Byte> | |s| == 32 witness seq(32, _ => 0)
  type Short = s: seq<Byte> | |s| == 11 witness seq(11, _ => 0x20)

  const DELETE_MARK: Byte := 0xE5
  const EMPTY_MARK: Byte := 0x00
  const ATTRIBUTE_LFN: Byte := 0x0F
  const LFN_LAST: nat := 0x40
  const LFN_CHARS: nat := 13
  const MAX_LFN_ENTRIES: nat := 20

  /** A directory entry in memory: its last slot, the number of its slots, its file name and its 32 bytes. */
  datatype DirEnt = DirEnt(entryPos: nat, entryCount: nat, name: Name, entry: Slot)
  {
    function ShortName(): Short {
      entry[..11]
    }

    /** First slot of the entry. */
    function First(): int {
      entryPos - entryCount + 1
    }
  }

  // ---------------------------------------------------------------- checksum

  /** The sum is rotated right by one bit before each byte is added, in eight bits. */
  function SumStep(sum: Byte, b: Byte): Byte {
    (RotatedRight(sum) + b) % 256
  }

  function CheckSum(short: seq<Byte>): Byte {
    if short == [] then 0 else SumStep(CheckSum(short[..|short| - 1]), short[|short| - 1])
  }

  /**
    The running sums of a checksum: each is the one before, moved down one bit with its lowest bit moved to the top,
    plus the next byte, modulo 256.
   */
  ghost predicate RunningSums(short: seq<Byte>, run: seq<int>) {
    && |run| == |short| + 1 && run[0] == 0
    && forall i :: 0 <= i < |short| ==> 0 <= run[i] < 256 && run[i + 1] == ((run[i] + 255 * (run[i] % 2)) / 2 + short[i]) % 256
  }

  /** FatCheckSum. */
  method FatCheckSum(short: Short) returns (sum: Byte)
    ensures sum == CheckSum(short)
    ensures exists run :: RunningSums(short, run) && run[11] == sum
  {
    hide CheckSum, SumStep, RotatedRight, RunningSums;
    sum := 0;
    ghost var run: seq<int> := [0];
    SumsStart();
    assert short[..0] == [];
    for i := 0 to |short|
      invariant sum == CheckSum(short[..i]) && |run| == i + 1 && run[i] == sum && RunningSums(short[..i], run)
    {
      SumsMore(short[..i], run, short[i]);
      CheckSumMore(short[..i], short[i]);
      assert short[..i] + [short[i]] == short[..i + 1];
      sum := SumStep(sum, short[i]);
      run := run + [sum];
    }
    assert short[..|short|] == short;
  }

  lemma SumsStart()
    ensures RunningSums([], [0]) && CheckSum([]) == 0
  {
  }

  lemma CheckSumMore(short: seq<Byte>, b: Byte)
    ensures CheckSum(short + [b]) == SumStep(CheckSum(short), b)
  {
    assert (short + [b])[..|short|] == short;
  }

  lemma SumsMore(short: seq<Byte>, run: seq<int>, b: Byte)
    requires RunningSums(short, run) && 0 <= run[|short|] < 256
    ensures RunningSums(short + [b], run + [SumStep(run[|short|], b)])
  {
    hide SumStep, RotatedRight;
    var s: Byte := run[|short|];
    StepMeans(s, b);
    var short', run' := short + [b], run + [SumStep(s, b)];
    assert forall i :: 0 <= i <= |short| ==> run'[i] == run[i];
    assert forall i :: 0 <= i < |short| ==> short'[i] == short[i];
  }

  lemma StepMeans(s: Byte, b: Byte)
    ensures SumStep(s, b) == ((s + 255 * (s % 2)) / 2 + b) % 256
  {
    RotationDirection(s);
  }

  /** The rotation is to the right. */
  lemma RotationDirection(s: Byte)
    ensures 2 * RotatedRight(s) == s + 255 * (s % 2) && RotatedRight(s) == (s + 255 * (s % 2)) / 2
  {
  }

  /** There is one sequence of running sums, and it ends in the checksum. */
  lemma {:induction false} RunningSumsEnd(short: seq<Byte>, run: seq<int>)
    requires RunningSums(short, run)
    ensures run[|short|] == CheckSum(short)
  {
    if short != [] {
      hide CheckSum, SumStep, RotatedRight;
      var n := |short| - 1;
      var short', run', b := short[..n], run[..n + 1], short[n];
      assert forall i :: 0 <= i <= n ==> run'[i] == run[i];
      assert forall i :: 0 <= i < n ==> short'[i] == short[i];
      RunningSumsEnd(short', run');
      assert short == short' + [b];
      CheckSumMore(short', b);
      StepMeans(CheckSum(short'), b);
    } else {
      SumsStart();
    }
  }

  /** A byte rotated right by one bit. */
  function RotatedRight(s: Byte): Byte {
    (if s % 2 == 1 then 0x80 else 0) + s / 2
  }

  lemma RotationInjective(s: Byte, s': Byte)
    requires RotatedRight(s) == RotatedRight(s')
    ensures s == s'
  {
    assert s == 2 * (s / 2) + s % 2 && s' == 2 * (s' / 2) + s' % 2;
  }

  lemma SumOfBytes(r: Byte, b: Byte)
    ensures (r + b) % 256 == if r + b < 256 then r + b else r + b - 256
  {
  }

  /** Neither the running sum nor the next byte gets lost in a step. */
  lemma SumStepInjective(s: Byte, b: Byte, s': Byte, b': Byte)
    requires (s != s' && b == b') || (s == s' && b != b')
    ensures SumStep(s, b) != SumStep(s', b')
  {
    hide RotatedRight;
    SumOfBytes(RotatedRight(s), b);
    SumOfBytes(RotatedRight(s'), b');
    if RotatedRight(s) == RotatedRight(s') {
      RotationInjective(s, s');
    }
  }

  /**
    A short name that differs from another in exactly one byte has another checksum, so the long name of one is
    never taken for the long name of the other.
   */
  lemma {:induction false} OneByteChangesSum(short: seq<Byte>, i: nat, b: Byte)
    requires i < |short| && b != short[i]
    ensures CheckSum(short[i := b]) != CheckSum(short)
  {
    hide SumStep;
    var n := |short| - 1;
    if i == n {
      assert short[i := b][..n] == short[..n];
      SumStepInjective(CheckSum(short[..n]), short[n], CheckSum(short[..n]), b);
    } else {
      assert short[i := b][..n] == short[..n][i := b];
      OneByteChangesSum(short[..n], i, b);
      SumStepInjective(CheckSum(short[..n]), short[n], CheckSum(short[..n][i := b]), short[n]);
    }
  }

  // ---------------------------------------------------------------- one long-name slot

  /** Little-endian bytes of characters. */
  function CharBytes(chars: Name): (b: seq<Byte>)
    ensures |b| == 2 * |chars|
  {
    seq(2 * |chars|, i requires 0 <= i < 2 * |chars| => if i % 2 == 0 then chars[i / 2] % 256 else chars[i / 2] / 256)
  }

  function BytesChars(b: seq<Byte>): (chars: Name)
    requires |b| % 2 == 0
    ensures |chars| == |b| / 2
  {
    seq(|b| / 2, i requires 0 <= i < |b| / 2 => var lo: int, hi: int := b[2 * i], b[2 * i + 1]; lo + 256 * hi)
  }

  lemma CharsRoundTrip(chars: Name)
    ensures BytesChars(CharBytes(chars)) == chars
  {
  }

  /** Ordinal, Name1, Attributes, Type, Checksum, Name2, MustBeZero, Name3. */
  function LfnSlot(ordinal: Byte, sum: Byte, chars: Name): Slot
    requires |chars| == LFN_CHARS
  {
    [ordinal] + CharBytes(chars[..5]) + [ATTRIBUTE_LFN, 0, sum] + CharBytes(chars[5..11]) + [0, 0] + CharBytes(chars[11..])
  }

  function LfnChars(slot: Slot): (chars: Name)
    ensures |chars| == LFN_CHARS
  {
    BytesChars(slot[1..11]) + BytesChars(slot[14..26]) + BytesChars(slot[28..])
  }

  lemma SlotRoundTrip(ordinal: Byte, sum: Byte, chars: Name)
    requires |chars| == LFN_CHARS
    ensures var s := LfnSlot(ordinal, sum, chars);
      LfnChars(s) == chars && s[0] == ordinal && s[11] == ATTRIBUTE_LFN && s[13] == sum && s[26] == s[27] == 0
  {
    hide CharBytes, BytesChars;
    CharsRoundTrip(chars[..5]);
    CharsRoundTrip(chars[5..11]);
    CharsRoundTrip(chars[11..]);
    CharBytesLength(chars[..5]);
    CharBytesLength(chars[5..11]);
    CharBytesLength(chars[11..]);
    var s := LfnSlot(ordinal, sum, chars);
    assert s[1..11] == CharBytes(chars[..5]);
    assert s[14..26] == CharBytes(chars[5..11]);
    assert s[28..] == CharBytes(chars[11..]);
  }

  /** Where the bytes of a long-name slot are; characters are stored low byte first. */
  lemma SlotBytes(ordinal: Byte, sum: Byte, chars: Name)
    requires |chars| == 13
    ensures var s := LfnSlot(ordinal, sum, chars);
      && s[0] == ordinal && s[11] == 0x0F && s[12] == 0 && s[13] == sum && s[26] == 0 && s[27] == 0
      && forall k :: 0 <= k < 13 ==>
           var p := if k < 5 then 1 + 2 * k else if k < 11 then 14 + 2 * (k - 5) else 28 + 2 * (k - 11);
           s[p] == chars[k] % 256 && s[p + 1] == chars[k] / 256
  {
    var s := LfnSlot(ordinal, sum, chars);
    var a, b, c := CharBytes(chars[..5]), CharBytes(chars[5..11]), CharBytes(chars[11..]);
    assert forall i :: 0 <= i < 10 ==> s[1 + i] == a[i];
    assert forall i :: 0 <= i < 12 ==> s[14 + i] == b[i];
    assert forall i :: 0 <= i < 4 ==> s[28 + i] == c[i];
    forall k | 0 <= k < 13
      ensures var p := if k < 5 then 1 + 2 * k else if k < 11 then 14 + 2 * (k - 5) else 28 + 2 * (k - 11);
        s[p] == chars[k] % 256 && s[p + 1] == chars[k] / 256
    {
      if k < 5 {
        CharBytesAt(chars[..5], k);
      } else if k < 11 {
        CharBytesAt(chars[5..11], k - 5);
      } else {
        CharBytesAt(chars[11..], k - 11);
      }
    }
  }

  lemma CharBytesAt(chars: Name, k: nat)
    requires k < |chars|
    ensures CharBytes(chars)[2 * k] == chars[k] % 256 && CharBytes(chars)[2 * k + 1] == chars[k] / 256
  {
  }

  /** The characters that are read from any slot. */
  lemma SlotCharacters(slot: Slot, k: nat)
    requires k < 13
    ensures var p := if k < 5 then 1 + 2 * k else if k < 11 then 14 + 2 * (k - 5) else 28 + 2 * (k - 11);
      var lo: int, hi: int := slot[p], slot[p + 1];
      LfnChars(slot)[k] == lo + 256 * hi
  {
    if k < 5 {
      BytesCharsAt(slot[1..11], k);
    } else if k < 11 {
      BytesCharsAt(slot[14..26], k - 5);
    } else {
      BytesCharsAt(slot[28..], k - 11);
    }
  }

  lemma BytesCharsAt(b: seq<Byte>, k: nat)
    requires |b| % 2 == 0 && k < |b| / 2
    ensures var lo: int, hi: int := b[2 * k], b[2 * k + 1]; BytesChars(b)[k] == lo + 256 * hi
  {
  }

  lemma CharBytesLength(chars: Name)
    ensures |CharBytes(chars)| == 2 * |chars|
  {
  }

  // ---------------------------------------------------------------- storing a long name

  /** LFN_ENTRY_NUMBER. */
  function LfnCount(length: nat): nat {
    (length + LFN_CHARS - 1) / LFN_CHARS
  }

  /** The least number of slots, of 13 characters each, that holds a name. */
  lemma LfnCountIsCeiling(length: nat)
    ensures var n := LfnCount(length); length <= 13 * n && (n > 0 ==> 13 * (n - 1) < length)
  {
  }

  /** The name buffer: 0xFFFF everywhere, with the name and its terminator copied to its start. */
  function LfnBuffer(name: Name, lfn: nat): (b: Name)
    ensures |b| == LFN_CHARS * lfn
  {
    seq(LFN_CHARS * lfn, i requires 0 <= i < LFN_CHARS * lfn =>
      if i < |name| then name[i] else if i == |name| then 0 else 0xFFFF)
  }

  /** Ordinal byte of part `o` of `lfn`; the slots of a deleted entry carry the deletion mark. */
  function OrdinalByte(o: nat, lfn: nat, invalid: bool): Byte
    requires 1 <= o <= lfn <= MAX_LFN_ENTRIES
  {
    if invalid then DELETE_MARK else if o == lfn then o + LFN_LAST else o
  }

  /** The slot that holds part `o` of the name. */
  function PartSlot(name: Name, lfn: nat, sum: Byte, invalid: bool, o: nat): Slot
    requires 1 <= o <= lfn <= MAX_LFN_ENTRIES
  {
    LfnSlot(OrdinalByte(o, lfn, invalid), sum, LfnBuffer(name, lfn)[LFN_CHARS * (o - 1)..LFN_CHARS * o])
  }

  /** What FatStoreDirEnt writes: the parts of the name, last part first, and the entry itself. */
  function Stored(d: DirEnt, invalid: bool): (slots: seq<Slot>)
    requires 1 <= d.entryCount <= MAX_LFN_ENTRIES + 1
    ensures |slots| == d.entryCount && slots[d.entryCount - 1] == d.entry
  {
    seq(d.entryCount, i requires 0 <= i < d.entryCount =>
      if i == d.entryCount - 1 then d.entry
      else PartSlot(d.name, d.entryCount - 1, CheckSum(d.ShortName()), invalid, d.entryCount - 1 - i))
  }

  // ---------------------------------------------------------------- loading a long name

  /** LfnEntry.Ordinal without the last-part mark. */
  function OrdinalOf(b: Byte): nat {
    b % 64 + b / 128 * 128
  }

  predicate IsLast(b: Byte) {
    b / 64 % 2 == 1
  }

  predicate LfnMatches(slot: Slot, sum: Byte, o: nat) {
    && slot[11] == ATTRIBUTE_LFN && slot[26] == 0 && slot[27] == 0 && slot[13] == sum
    && OrdinalOf(slot[0]) == o && o <= MAX_LFN_ENTRIES
  }

  /** Which slots are part `o` of a long name: the ordinal byte is `o`, or `o` with the mark of the last part. */
  lemma MatchesExactly(slot: Slot, sum: Byte, o: nat)
    requires 1 <= o <= 21
    ensures LfnMatches(slot, sum, o) <==>
      (o <= 20 && (slot[0] == o || slot[0] == o + 64) && slot[11] == 0x0F && slot[13] == sum && slot[26] == 0 && slot[27] == 0)
    ensures LfnMatches(slot, sum, o) ==> (IsLast(slot[0]) <==> slot[0] == o + 64)
  {
    var b: int := slot[0];
    OrdinalBits(b);
  }

  lemma OrdinalBits(b: Byte)
    ensures b < 64 ==> OrdinalOf(b) == b && !IsLast(b)
    ensures 64 <= b < 128 ==> OrdinalOf(b) == b - 64 && IsLast(b)
    ensures 128 <= b ==> OrdinalOf(b) >= 128
  {
  }

  /**
    Where character `j` of the name buffer of a stored entry lies on disk: in the slot `j / 13` in front of the entry's own, with
    the part's number as ordinal. Behind the name come a terminator and 0xFFFF.
   */
  lemma StoredCharacter(d: DirEnt, invalid: bool, j: nat)
    requires 2 <= d.entryCount <= 21 && j < 13 * (d.entryCount - 1)
    ensures |Stored(d, invalid)| == d.entryCount
    ensures var slot, k, o := Stored(d, invalid)[d.entryCount - 2 - j / 13], j % 13, j / 13 + 1;
      var p := if k < 5 then 1 + 2 * k else if k < 11 then 14 + 2 * (k - 5) else 28 + 2 * (k - 11);
      var c := if j < |d.name| then d.name[j] else if j == |d.name| then 0 else 0xFFFF;
      && slot[0] == (if invalid then 0xE5 else if o == d.entryCount - 1 then o + 64 else o)
      && slot[11] == 0x0F && slot[12] == 0 && slot[13] == CheckSum(d.ShortName()) && slot[26] == 0 && slot[27] == 0
      && slot[p] == c % 256 && slot[p + 1] == c / 256
  {
    hide LfnSlot, CheckSum, LfnBuffer;
    var lfn, o := d.entryCount - 1, j / 13 + 1;
    assert o <= lfn && j == 13 * (o - 1) + j % 13;
    LfnBufferLength(d.name, lfn);
    var chars := LfnBuffer(d.name, lfn)[LFN_CHARS * (o - 1)..LFN_CHARS * o];
    SlotBytes(OrdinalByte(o, lfn, invalid), CheckSum(d.ShortName()), chars);
    assert Stored(d, invalid)[lfn - o] == PartSlot(d.name, lfn, CheckSum(d.ShortName()), invalid, o);
    BufferAt(d.name, lfn, j);
    assert chars[j % 13] == LfnBuffer(d.name, lfn)[j];
  }

  lemma BufferAt(name: Name, lfn: nat, j: nat)
    requires j < 13 * lfn
    ensures LfnBuffer(name, lfn)[j] == if j < |name| then name[j] else if j == |name| then 0 else 0xFFFF
  {
  }

  /** Number of slots of the entry, and the characters in front of it; none when the long name is not complete. */
  datatype Lfn = Lfn(count: nat, chars: Name)

  function LoadLfn(slots: seq<Slot>, p: nat, sum: Byte, o: nat): (r: Lfn)
    requires p <= |slots| && 1 <= o <= MAX_LFN_ENTRIES + 1
    ensures o <= r.count <= MAX_LFN_ENTRIES + 1 && r.count <= o + p
    ensures r.chars != [] ==> |r.chars| == LFN_CHARS * (r.count - o)
    decreases p
  {
    if p == 0 || !LfnMatches(slots[p - 1], sum, o) then Lfn(o, [])
    else if IsLast(slots[p - 1][0]) then Lfn(o + 1, LfnChars(slots[p - 1]))
    else
      var rest := LoadLfn(slots, p - 1, sum, o + 1);
      Lfn(rest.count, if rest.chars == [] then [] else LfnChars(slots[p - 1]) + rest.chars)
  }

  /** A NUL-terminated string: everything in front of the first zero. */
  function Terminated(b: Name): (name: Name)
    ensures name <= b && 0 !in name
    ensures |name| < |b| ==> b[|name|] == 0
  {
    if b == [] || b[0] == 0 then [] else [b[0]] + Terminated(b[1..])
  }

  /** Name and slot count of the entry at `p`; `viaCase` gives the file name of an entry without a long name. */
  function LoadLongName(slots: seq<Slot>, p: nat, viaCase: Slot -> Name): (r: Lfn)
    requires p < |slots|
    ensures 1 <= r.count <= MAX_LFN_ENTRIES + 1 && r.count <= p + 1
  {
    var lfn := LoadLfn(slots, p, CheckSum(slots[p][..11]), 1);
    Lfn(lfn.count, if lfn.chars == [] then viaCase(slots[p]) else Terminated(lfn.chars))
  }

  /** One step of the load at part `o`, with the slot below `p`. */
  lemma LoadStep(slots: seq<Slot>, p: nat, sum: Byte, o: nat)
    requires p <= |slots| && 1 <= o <= MAX_LFN_ENTRIES + 1
    ensures p == 0 || !LfnMatches(slots[p - 1], sum, o) ==> LoadLfn(slots, p, sum, o) == Lfn(o, [])
    ensures p > 0 && LfnMatches(slots[p - 1], sum, o) ==> o <= MAX_LFN_ENTRIES && LfnChars(slots[p - 1]) != []
    ensures p > 0 && LfnMatches(slots[p - 1], sum, o) && IsLast(slots[p - 1][0]) ==>
      LoadLfn(slots, p, sum, o) == Lfn(o + 1, LfnChars(slots[p - 1]))
    ensures p > 0 && LfnMatches(slots[p - 1], sum, o) && !IsLast(slots[p - 1][0]) ==>
      LoadLfn(slots, p, sum, o) == Behind(LfnChars(slots[p - 1]), LoadLfn(slots, p - 1, sum, o + 1))
  {
    hide IsLast;
    if p > 0 && LfnMatches(slots[p - 1], sum, o) {
      MatchBound(slots[p - 1], sum, o);
    }
  }

  /** A load with `front` in front of its characters; a load without characters stays without. */
  function Behind(front: Name, l: Lfn): Lfn {
    Lfn(l.count, if l.chars == [] then [] else front + l.chars)
  }

  lemma BehindJoin(a: Name, b: Name, l: Lfn)
    ensures b != [] ==> Behind(a, Behind(b, l)) == Behind(a + b, l)
    ensures Behind([], l) == l && (b != [] ==> Behind(a, Lfn(l.count, b)) == Lfn(l.count, a + b)) && Behind(a, Lfn(l.count, [])) == Lfn(l.count, [])
  {
    if l.chars != [] {
      assert a + (b + l.chars) == (a + b) + l.chars;
      assert [] + l.chars == l.chars;
    }
  }

  /** An entry with no first part in front of it has one slot and the name that its case flag gives. */
  lemma NoLongName(slots: seq<Slot>, p: nat, viaCase: Slot -> Name)
    requires p < |slots| && (p == 0 || !LfnMatches(slots[p - 1], CheckSum(slots[p][..11]), 1))
    ensures LoadLongName(slots, p, viaCase) == Lfn(1, viaCase(slots[p]))
  {
    hide LfnMatches, CheckSum;
  }

  /** FatLoadLongNameEntry. */
  method LoadLongNameEntry(slots: seq<Slot>, entryPos: nat, viaCase: Slot -> Name) returns (r: Lfn)
    requires entryPos < |slots|
    ensures r == LoadLongName(slots, entryPos, viaCase)
  {
    var short: Short := slots[entryPos][..11];
    var sum := FatCheckSum(short);
    var buffer, ordinal := CollectParts(slots, entryPos, sum);
    r := Lfn(ordinal, if buffer == [] then viaCase(slots[entryPos]) else Terminated(buffer));
  }

  /** The loop of FatLoadLongNameEntry: parts are collected downwards, until the last one or one that does not fit. */
  method CollectParts(slots: seq<Slot>, entryPos: nat, sum: Byte) returns (buffer: Name, ordinal: nat)
    requires entryPos < |slots|
    ensures LoadLfn(slots, entryPos, sum, 1) == Lfn(ordinal, buffer)
  {
    hide LfnMatches, IsLast, LfnChars, LoadLfn, Behind;
    ghost var whole := LoadLfn(slots, entryPos, sum, 1);
    BehindJoin([], [], whole);
    var p: nat, more := entryPos, true;
    buffer, ordinal := [], 1;
    while more
      invariant p <= entryPos && 1 <= ordinal <= MAX_LFN_ENTRIES + 1
      invariant if more then whole == Behind(buffer, LoadLfn(slots, p, sum, ordinal)) else whole == Lfn(ordinal, buffer)
      decreases more, p
    {
      LoadStep(slots, p, sum, ordinal);
      BehindJoin(buffer, [], Lfn(ordinal, []));
      if p == 0 {
        buffer, more := [], false;
        break;
      }
      p := p - 1;
      var slot := slots[p];
      if !LfnMatches(slot, sum, ordinal) {
        buffer, more := [], false;
        break;
      }
      if IsLast(slot[0]) {
        BehindJoin(buffer, LfnChars(slot), Lfn(ordinal + 1, []));
      } else {
        BehindJoin(buffer, LfnChars(slot), LoadLfn(slots, p, sum, ordinal + 1));
      }
      buffer := buffer + LfnChars(slot);
      ordinal := ordinal + 1;
      more := !IsLast(slot[0]);
    }
  }

  lemma MatchBound(slot: Slot, sum: Byte, o: nat)
    requires LfnMatches(slot, sum, o)
    ensures o <= MAX_LFN_ENTRIES && |LfnChars(slot)| == LFN_CHARS
  {
  }

  /** The parts of a long name do not fit an entry whose short name differs from its own in one byte, such as the deletion mark. */
  lemma OtherShortNameMismatch(slot: Slot, short: Short, i: nat, b: Byte, o: nat)
    requires i < 11 && b != short[i] && LfnMatches(slot, CheckSum(short), o)
    ensures !LfnMatches(slot, CheckSum(short[i := b]), o)
  {
    hide CheckSum;
    OneByteChangesSum(short, i, b);
  }

  /** No part of a name can lie in this slot. */
  predicate Barrier(slot: Slot) {
    slot[11] != ATTRIBUTE_LFN || slot[0] == DELETE_MARK
  }

  lemma BarrierStops(slot: Slot, sum: Byte, o: nat)
    requires Barrier(slot)
    ensures !LfnMatches(slot, sum, o)
  {
  }

  /** The slots of the entry up to `p`, and the slot below them where the search for parts may have ended. */
  ghost predicate SameParts(slots: seq<Slot>, slots': seq<Slot>, p: nat, length: nat)
    requires p <= |slots| && p <= |slots'| && length <= p
  {
    && (forall i :: p - length <= i < p ==> slots'[i] == slots[i])
    && (p > length ==> slots'[p - length - 1] == slots[p - length - 1] || Barrier(slots'[p - length - 1]))
  }

  /** An entry loads the same way when its own slots are the same and the slot below them did not become a part. */
  lemma {:induction false} LoadStable(slots: seq<Slot>, slots': seq<Slot>, p: nat, sum: Byte, o: nat)
    requires p <= |slots| && p <= |slots'| && 1 <= o <= MAX_LFN_ENTRIES + 1
    requires SameParts(slots, slots', p, LoadLfn(slots, p, sum, o).count - o)
    ensures LoadLfn(slots', p, sum, o) == LoadLfn(slots, p, sum, o)
    decreases p
  {
    hide LfnMatches, IsLast, LfnChars, Barrier;
    if p > 0 {
      if LfnMatches(slots[p - 1], sum, o) {
        MatchBound(slots[p - 1], sum, o);
        assert slots'[p - 1] == slots[p - 1];
        if !IsLast(slots[p - 1][0]) {
          LoadStable(slots, slots', p - 1, sum, o + 1);
        }
      } else if Barrier(slots'[p - 1]) {
        BarrierStops(slots'[p - 1], sum, o);
      }
    }
  }

  // ---------------------------------------------------------------- round trip

  lemma OrdinalRoundTrip(o: nat, lfn: nat)
    requires 1 <= o <= lfn <= MAX_LFN_ENTRIES
    ensures OrdinalOf(OrdinalByte(o, lfn, false)) == o && (IsLast(OrdinalByte(o, lfn, false)) <==> o == lfn)
  {
    assert (o + 64) / 64 == 1 && (o + 64) % 64 == o && (o + 64) / 128 == 0;
    assert o / 64 == 0 && o % 64 == o && o / 128 == 0;
  }

  lemma PartMatches(name: Name, lfn: nat, sum: Byte, o: nat)
    requires 1 <= o <= lfn <= MAX_LFN_ENTRIES
    ensures LfnMatches(PartSlot(name, lfn, sum, false, o), sum, o)
    ensures LfnChars(PartSlot(name, lfn, sum, false, o)) == LfnBuffer(name, lfn)[LFN_CHARS * (o - 1)..LFN_CHARS * o]
    ensures IsLast(PartSlot(name, lfn, sum, false, o)[0]) <==> o == lfn
  {
    hide LfnSlot, LfnChars, OrdinalOf, OrdinalByte, IsLast, LfnBuffer;
    LfnBufferLength(name, lfn);
    OrdinalRoundTrip(o, lfn);
    SlotRoundTrip(OrdinalByte(o, lfn, false), sum, LfnBuffer(name, lfn)[LFN_CHARS * (o - 1)..LFN_CHARS * o]);
  }

  lemma LfnBufferLength(name: Name, lfn: nat)
    ensures |LfnBuffer(name, lfn)| == LFN_CHARS * lfn
  {
  }

  /** The parts of a name, from part `o` on, lie below slot `p`. */
  ghost predicate PartsBelow(slots: seq<Slot>, p: nat, name: Name, lfn: nat, sum: Byte, o: nat)
    requires 1 <= o <= lfn + 1 && lfn <= MAX_LFN_ENTRIES && p <= |slots|
  {
    lfn + 1 - o <= p && forall k :: o <= k <= lfn ==> slots[p - 1 - (k - o)] == PartSlot(name, lfn, sum, false, k)
  }

  /** Loading follows the parts down to the last one and collects the rest of the buffer. */
  lemma {:induction false} LoadParts(slots: seq<Slot>, p: nat, name: Name, lfn: nat, sum: Byte, o: nat)
    requires 1 <= o <= lfn <= MAX_LFN_ENTRIES && p <= |slots| && PartsBelow(slots, p, name, lfn, sum, o)
    ensures |LfnBuffer(name, lfn)| == LFN_CHARS * lfn
    ensures LoadLfn(slots, p, sum, o) == Lfn(lfn + 1, LfnBuffer(name, lfn)[LFN_CHARS * (o - 1)..])
    decreases lfn - o
  {
    hide LfnMatches, LfnChars, IsLast, LfnBuffer, PartSlot;
    LfnBufferLength(name, lfn);
    PartMatches(name, lfn, sum, o);
    var buffer := LfnBuffer(name, lfn);
    assert slots[p - 1 - (o - o)] == PartSlot(name, lfn, sum, false, o);
    if o < lfn {
      forall k | o + 1 <= k <= lfn
        ensures slots[p - 1 - 1 - (k - (o + 1))] == PartSlot(name, lfn, sum, false, k)
      {
        assert slots[p - 1 - (k - o)] == PartSlot(name, lfn, sum, false, k);
      }
      LoadParts(slots, p - 1, name, lfn, sum, o + 1);
      assert buffer[LFN_CHARS * (o - 1)..] == buffer[LFN_CHARS * (o - 1)..LFN_CHARS * o] + buffer[LFN_CHARS * o..];
    } else {
      assert buffer[LFN_CHARS * (o - 1)..] == buffer[LFN_CHARS * (o - 1)..LFN_CHARS * o];
    }
  }

  lemma {:induction false} TerminatedPrefix(name: Name, rest: Name)
    requires 0 !in name && (rest == [] || rest[0] == 0)
    ensures Terminated(name + rest) == name
  {
    if name == [] {
      assert name + rest == rest;
    } else {
      TerminatedPrefix(name[1..], rest);
      assert (name + rest)[1..] == name[1..] + rest;
    }
  }

  /** The buffer that is read back ends the name, also when no terminator was stored. */
  lemma BufferTerminated(name: Name, lfn: nat)
    requires 0 !in name && |name| <= LFN_CHARS * lfn
    ensures Terminated(LfnBuffer(name, lfn)) == name
  {
    var buffer := LfnBuffer(name, lfn);
    assert buffer == name + buffer[|name|..];
    TerminatedPrefix(name, buffer[|name|..]);
  }

  /** The slots of a directory hold what FatStoreDirEnt writes for `d`. */
  ghost predicate IsStored(slots: seq<Slot>, d: DirEnt) {
    && 1 <= d.entryCount <= MAX_LFN_ENTRIES + 1 && 0 <= d.First() && d.entryPos < |slots|
    && slots[d.First()..d.entryPos + 1] == Stored(d, false)
  }

  lemma StoredParts(slots: seq<Slot>, d: DirEnt)
    requires IsStored(slots, d)
    ensures slots[d.entryPos] == d.entry
    ensures PartsBelow(slots, d.entryPos, d.name, d.entryCount - 1, CheckSum(d.ShortName()), 1)
  {
    hide PartSlot, CheckSum, Stored;
    var lfn, sum := d.entryCount - 1, CheckSum(d.ShortName());
    var range := slots[d.First()..d.entryPos + 1];
    StoredSlot(d, lfn);
    assert slots[d.entryPos] == range[lfn];
    forall k | 1 <= k <= lfn
      ensures slots[d.entryPos - 1 - (k - 1)] == PartSlot(d.name, lfn, sum, false, k)
    {
      StoredSlot(d, lfn - k);
      assert slots[d.entryPos - k] == range[lfn - k];
    }
  }

  lemma StoredSlot(d: DirEnt, i: nat)
    requires i < d.entryCount <= MAX_LFN_ENTRIES + 1
    ensures |Stored(d, false)| == d.entryCount
    ensures i == d.entryCount - 1 ==> Stored(d, false)[i] == d.entry
    ensures i < d.entryCount - 1 ==>
      Stored(d, false)[i] == PartSlot(d.name, d.entryCount - 1, CheckSum(d.ShortName()), false, d.entryCount - 1 - i)
  {
    hide PartSlot, CheckSum;
  }

  /**
    Long-name round trip: an entry stored with its long name is loaded with the same name and the same
    number of slots, whatever else the directory holds and whatever the length of the name.
   */
  lemma LongNameRoundTrip(slots: seq<Slot>, d: DirEnt, viaCase: Slot -> Name)
    requires 0 !in d.name && 1 <= |d.name| <= 255 && d.entryCount == LfnCount(|d.name|) + 1
    requires IsStored(slots, d)
    ensures LoadLongName(slots, d.entryPos, viaCase) == Lfn(d.entryCount, d.name)
  {
    hide PartSlot, CheckSum, LoadLfn, IsStored, LfnBuffer, PartsBelow;
    var lfn, sum := d.entryCount - 1, CheckSum(d.ShortName());
    StoredParts(slots, d);
    StoredRange(slots, d);
    LoadParts(slots, d.entryPos, d.name, lfn, sum, 1);
    var buffer := LfnBuffer(d.name, lfn);
    assert buffer[LFN_CHARS * (1 - 1)..] == buffer;
    BufferTerminated(d.name, lfn);
  }

  lemma StoredRange(slots: seq<Slot>, d: DirEnt)
    requires IsStored(slots, d)
    ensures d.entryPos < |slots| && 1 <= d.entryCount <= MAX_LFN_ENTRIES + 1
  {
  }
}
