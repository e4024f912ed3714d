/**
  Short names (FileName.c FatCheckIs8Dot3Name, FatCreate8Dot3Name, FatSetCaseFlag): which file names are
  8.3 names, and the short name generated for the others.
 */
module ShortNames {
  import opened Bytes
  import opened LongNames
  import opened NameHash

  const DOT: Char16 := 0x2E
  const BLANK: Byte := 0x20
  const TILDE: Byte := 0x7E
  const ONE: Byte := 0x31
  const MAIN_LEN: nat := 8
  const EXTEND_LEN: nat := 3
  const MAX_SPEC_RETRY: nat := 4
  const SPEC_BASE_TAG_LEN: nat := 6
  const HASH_BASE_TAG_LEN: nat := 2
  const HASH_VALUE_TAG_LEN: nat := 4
  const CASE_MIXED: nat := 0x01
  const CASE_NAME_LOWER: nat := 0x08
  const CASE_EXT_LOWER: nat := 0x10

  function Min(a: nat, b: nat): nat {
    if a <= b then a else b
  }

  // ---------------------------------------------------------------- 8.3 names

  /** Where the last dot is, or the length of the name. */
  function LastDot(name: Name): (i: nat)
    ensures i <= |name| && (i < |name| ==> name[i] == DOT)
    ensures forall j :: 0 <= j < |name| && (j > i || i == |name|) ==> name[j] != DOT
  {
    LastDotFrom(name, |name|)
  }

  function LastDotFrom(name: Name, n: nat): (i: nat)
    requires n <= |name|
    ensures i < n || i == |name|
    ensures i < |name| ==> name[i] == DOT
    ensures forall j :: 0 <= j < n && (j > i || i == |name|) ==> name[j] != DOT
  {
    if n == 0 then |name| else if name[n - 1] == DOT then n - 1 else LastDotFrom(name, n - 1)
  }

  function Main(name: Name): Name {
    name[..LastDot(name)]
  }

  function Extension(name: Name): Name {
    if LastDot(name) < |name| then name[LastDot(name) + 1..] else []
  }

  /** A dot or a blank that is not the dot in front of the extension. */
  predicate ExtraMark(name: Name, i: nat)
    requires i < |name|
  {
    (name[i] == DOT || name[i] == BLANK) && i != LastDot(name)
  }

  /** What FatStrToFat writes: at most `size` characters. */
  function ToFat(sv: Services, s: Name, size: nat): (r: FatName)
    ensures |r.bytes| <= size
  {
    var f := sv.strToFat(s, size);
    FatName(if |f.bytes| <= size then f.bytes else f.bytes[..size], f.illegal)
  }

  function Blanks(): Short {
    seq(11, _ => BLANK)
  }

  /** The short name of an 8.3 name, and the base of the short name of any other name. */
  function BaseName(sv: Services, name: Name): Short {
    var main := ToFat(sv, name, Min(|Main(name)|, MAIN_LEN)).bytes;
    var ext := ToFat(sv, Extension(name), Min(|Extension(name)|, EXTEND_LEN)).bytes;
    Splice(Splice(Blanks(), 0, main), MAIN_LEN, ext)
  }

  predicate Is8Dot3(sv: Services, name: Name) {
    && (forall i :: 0 <= i < |name| ==> !ExtraMark(name, i))
    && 0 < |Main(name)| <= MAIN_LEN && |Extension(name)| <= EXTEND_LEN
    && !ToFat(sv, name, |Main(name)|).illegal && !ToFat(sv, Extension(name), |Extension(name)|).illegal
  }

  /** A name is its main part, the last dot and its extension; a name without a dot is all main part. */
  ghost predicate SplitAs(name: Name, main: Name, ext: Name) {
    if 0x2E in name then name == main + [0x2E] + ext && 0x2E !in ext else main == name && ext == []
  }

  /**
    The FAT characters of the main part are at the start of the short name, at most eight, those of the extension
    from byte 8 on, at most three, and the other bytes are blanks.
   */
  ghost predicate ShortWritten(sv: Services, name: Name, main: Name, ext: Name, short: Short) {
    var a, b := if |main| <= 8 then |main| else 8, if |ext| <= 3 then |ext| else 3;
    var m, x := sv.strToFat(name, a).bytes, sv.strToFat(ext, b).bytes;
    && (forall i :: 0 <= i < 8 ==> short[i] == if i < a && i < |m| then m[i] else 0x20)
    && (forall i :: 0 <= i < 3 ==> short[8 + i] == if i < b && i < |x| then x[i] else 0x20)
  }

  /** One to eight and at most three characters, no further dot, no blank, nothing that FAT names cannot hold. */
  ghost predicate EightDotThree(sv: Services, name: Name, main: Name, ext: Name) {
    && 1 <= |main| <= 8 && |ext| <= 3
    && 0x2E !in main && 0x20 !in main && 0x20 !in ext
    && !sv.strToFat(name, |main|).illegal && !sv.strToFat(ext, |ext|).illegal
  }

  lemma SplitHere(name: Name)
    ensures SplitAs(name, Main(name), Extension(name))
  {
    var n := LastDot(name);
    if n < |name| {
      assert name == name[..n] + [name[n]] + name[n + 1..];
      assert name[n] == DOT;
    } else {
      assert name[..n] == name;
    }
  }

  lemma SplitOnce(name: Name, main: Name, ext: Name)
    requires SplitAs(name, main, ext)
    ensures main == Main(name) && ext == Extension(name)
  {
    var n := LastDot(name);
    if 0x2E in name {
      assert name[|main|] == DOT;
      assert forall i :: |main| < i < |name| ==> name[i] == ext[i - |main| - 1];
      assert n == |main|;
    } else {
      assert n == |name|;
    }
  }

  lemma BytesByParts(sv: Services, name: Name, main: Name, ext: Name)
    requires SplitAs(name, main, ext)
    ensures ShortWritten(sv, name, main, ext, BaseName(sv, name))
  {
    hide SplitAs, LastDot;
    SplitOnce(name, main, ext);
  }

  lemma FormByParts(sv: Services, name: Name, main: Name, ext: Name)
    requires SplitAs(name, main, ext)
    ensures Is8Dot3(sv, name) <==> EightDotThree(sv, name, main, ext)
  {
    SplitOnce(name, main, ext);
    var n := LastDot(name);
    assert main == name[..n];
    MarksByParts(name, main, ext);
  }

  lemma MarksByParts(name: Name, main: Name, ext: Name)
    requires SplitAs(name, main, ext) && main == Main(name) && ext == Extension(name)
    ensures (forall i :: 0 <= i < |name| ==> !ExtraMark(name, i)) <==> 0x2E !in main && 0x20 !in main && 0x20 !in ext
  {
    var n := LastDot(name);
    if forall i :: 0 <= i < |name| ==> !ExtraMark(name, i) {
      forall i | 0 <= i < |main|
        ensures main[i] != 0x2E && main[i] != 0x20
      {
        assert main[i] == name[i] && !ExtraMark(name, i);
      }
      forall i | 0 <= i < |ext|
        ensures ext[i] != 0x20
      {
        assert ext[i] == name[n + 1 + i] && !ExtraMark(name, n + 1 + i);
      }
    }
    if 0x2E !in main && 0x20 !in main && 0x20 !in ext {
      forall i | 0 <= i < |name|
        ensures !ExtraMark(name, i)
      {
        if i < n {
          assert name[i] == main[i];
        } else if n < i {
          assert name[i] == ext[i - n - 1];
        }
      }
    }
  }

  /** Two names whose extensions have different FAT characters have different short names, so no entry matches both by it. */
  lemma ExtensionsTellApart(sv: Services, a: Name, b: Name, mainA: Name, extA: Name, mainB: Name, extB: Name, i: nat)
    requires SplitAs(a, mainA, extA) && SplitAs(b, mainB, extB) && i < |extA| <= 3 && |extB| <= 3
    requires i < |sv.strToFat(extA, |extA|).bytes| && sv.strToFat(extA, |extA|).bytes[i] != 0x20
    requires i < |extB| && i < |sv.strToFat(extB, |extB|).bytes| ==> sv.strToFat(extB, |extB|).bytes[i] != sv.strToFat(extA, |extA|).bytes[i]
    ensures BaseName(sv, a) != BaseName(sv, b)
  {
    hide BaseName, SplitAs;
    BytesByParts(sv, a, mainA, extA);
    BytesByParts(sv, b, mainB, extB);
    assert BaseName(sv, a)[8 + i] != BaseName(sv, b)[8 + i];
  }

  /** FatCheckIs8Dot3Name. */
  method CheckIs8Dot3Name(sv: Services, name: Name) returns (possible: bool, short: Short)
    ensures possible == Is8Dot3(sv, name) && short == BaseName(sv, name)
    ensures exists main, ext :: SplitAs(name, main, ext)
    ensures forall main, ext :: SplitAs(name, main, ext) ==> ShortWritten(sv, name, main, ext, short) && (possible <==> EightDotThree(sv, name, main, ext))
  {
    possible, short := ScanName(sv, name);
    hide SplitAs, ShortWritten, EightDotThree, Is8Dot3, BaseName;
    SplitHere(name);
    forall main, ext | SplitAs(name, main, ext)
      ensures ShortWritten(sv, name, main, ext, short) && (possible <==> EightDotThree(sv, name, main, ext))
    {
      BytesByParts(sv, name, main, ext);
      FormByParts(sv, name, main, ext);
    }
  }

  /** The scans of FatCheckIs8Dot3Name. */
  method ScanName(sv: Services, name: Name) returns (possible: bool, short: Short)
    ensures possible == Is8Dot3(sv, name) && short == BaseName(sv, name)
  {
    possible := true;
    var separateDot := |name|;
    for i := 0 to |name|
      invariant separateDot == LastDotFrom(name, i)
    {
      if name[i] == DOT {
        separateDot := i;
      }
    }
    var main: nat, ext := separateDot, [];
    if separateDot < |name| {
      ext := name[separateDot + 1..];
    }
    for i := |name| downto 0
      invariant possible <==> forall j :: i <= j < |name| ==> !ExtraMark(name, j)
    {
      if ExtraMark(name, i) {
        possible := false;
      }
    }
    var extLen := |ext|;
    if main == 0 {
      possible := false;
    }
    if main > MAIN_LEN {
      possible, main := false, MAIN_LEN;
    }
    if extLen > EXTEND_LEN {
      possible, extLen := false, EXTEND_LEN;
    }
    var fatMain := ToFat(sv, name, main);
    var fatExt := ToFat(sv, ext, extLen);
    if fatMain.illegal {
      possible := false;
    }
    if fatExt.illegal {
      possible := false;
    }
    short := Splice(Splice(Blanks(), 0, fatMain.bytes), MAIN_LEN, fatExt.bytes);
  }

  /** The collation takes no notice of case and leaves dots and blanks alone. */
  ghost predicate CaseBlind(sv: Services) {
    && (forall c: Char16 :: (sv.up(c) == DOT <==> c == DOT) && (sv.up(c) == BLANK <==> c == BLANK))
    && (forall a: Name, b: Name, n: nat :: Up(sv, a) == Up(sv, b) ==> sv.strToFat(a, n) == sv.strToFat(b, n))
  }

  lemma SameCharacters(sv: Services, a: Name, b: Name, i: nat)
    requires CaseBlind(sv) && Up(sv, a) == Up(sv, b) && i < |a|
    ensures |a| == |b| && (a[i] == DOT <==> b[i] == DOT) && (a[i] == BLANK <==> b[i] == BLANK)
  {
    assert |Up(sv, a)| == |Up(sv, b)|;
    assert sv.up(a[i]) == Up(sv, a)[i] == Up(sv, b)[i] == sv.up(b[i]);
  }

  lemma {:induction false} SameLastDot(sv: Services, a: Name, b: Name, n: nat)
    requires CaseBlind(sv) && Up(sv, a) == Up(sv, b) && n <= |a|
    ensures |a| == |b| && LastDotFrom(a, n) == LastDotFrom(b, n)
  {
    assert |Up(sv, a)| == |Up(sv, b)|;
    if n > 0 {
      SameCharacters(sv, a, b, n - 1);
      SameLastDot(sv, a, b, n - 1);
    }
  }

  lemma SameExtension(sv: Services, a: Name, b: Name)
    requires CaseBlind(sv) && Up(sv, a) == Up(sv, b)
    ensures |Main(a)| == |Main(b)| && |Extension(a)| == |Extension(b)| && Up(sv, Extension(a)) == Up(sv, Extension(b))
  {
    SameLastDot(sv, a, b, |a|);
    var n := LastDot(a);
    if n < |a| {
      assert Up(sv, Extension(a)) == Up(sv, a)[n + 1..];
      assert Up(sv, Extension(b)) == Up(sv, b)[n + 1..];
    }
  }

  /** Names that differ only in case are 8.3 names together and have the same short name. */
  lemma CaseKeepsShort(sv: Services, a: Name, b: Name)
    requires CaseBlind(sv) && Up(sv, a) == Up(sv, b)
    ensures Is8Dot3(sv, a) == Is8Dot3(sv, b) && BaseName(sv, a) == BaseName(sv, b)
  {
    SameLastDot(sv, a, b, |a|);
    SameExtension(sv, a, b);
    forall i | 0 <= i < |a|
      ensures ExtraMark(a, i) == ExtraMark(b, i)
    {
      SameCharacters(sv, a, b, i);
    }
  }

  // ---------------------------------------------------------------- case flags

  /** FatCheckNameCase. */
  function NameCase(sv: Services, part: Name, flag: nat): nat {
    if part == MapName(sv.up, part) then 0 else if part == MapName(sv.low, part) then flag else CASE_MIXED
  }

  /** FatSetCaseFlag: the case flag of an 8.3 name and the number of slots it needs. */
  function CaseFlag(sv: Services, name: Name): (r: (Byte, nat)) {
    var ext := if LastDot(name) < |name| then NameCase(sv, Extension(name), CASE_EXT_LOWER) else 0;
    var main := NameCase(sv, Main(name), CASE_NAME_LOWER);
    if ext == CASE_MIXED || main == CASE_MIXED then (0, 2) else (ext + main, 1)
  }

  ghost predicate AllUpper(sv: Services, part: Name) {
    forall i :: 0 <= i < |part| ==> sv.up(part[i]) == part[i]
  }

  ghost predicate AllLower(sv: Services, part: Name) {
    forall i :: 0 <= i < |part| ==> sv.low(part[i]) == part[i]
  }

  lemma MapSame(f: Char16 -> Char16, part: Name)
    ensures part == MapName(f, part) <==> forall i :: 0 <= i < |part| ==> f(part[i]) == part[i]
  {
    var r := MapName(f, part);
    if part == r {
      forall i | 0 <= i < |part|
        ensures f(part[i]) == part[i]
      {
        assert r[i] == part[i];
      }
    }
  }

  lemma NameCaseMeans(sv: Services, part: Name, flag: nat)
    requires flag != 0 && flag != 1
    ensures NameCase(sv, part, flag) == if AllUpper(sv, part) then 0 else if AllLower(sv, part) then flag else 1
  {
    MapSame(sv.up, part);
    MapSame(sv.low, part);
  }

  /**
    What the case flag says: one slot is enough when each part is all upper or all lower case, and then bit 0x08 says
    that the main part is in lower case and bit 0x10 that the extension is. A name of mixed case takes a long name.
   */
  lemma CaseFlagMeans(sv: Services, name: Name, main: Name, ext: Name)
    requires SplitAs(name, main, ext)
    ensures var plain := (AllUpper(sv, main) || AllLower(sv, main)) && (AllUpper(sv, ext) || AllLower(sv, ext));
      && CaseFlag(sv, name).1 == (if plain then 1 else 2)
      && CaseFlag(sv, name).0 == (if !plain then 0 else (if AllUpper(sv, main) then 0 else 0x08) + (if AllUpper(sv, ext) then 0 else 0x10))
  {
    hide AllUpper, AllLower, NameCase;
    SplitOnce(name, main, ext);
    NameCaseMeans(sv, main, CASE_NAME_LOWER);
    NameCaseMeans(sv, ext, CASE_EXT_LOWER);
    EmptyUpper(sv);
  }

  lemma EmptyUpper(sv: Services)
    ensures AllUpper(sv, [])
  {
  }

  // ---------------------------------------------------------------- generated short names

  /** Length without trailing blanks. */
  function TrimmedLength(s: seq<Byte>): (n: nat)
    ensures n <= |s|
  {
    if s != [] && s[|s| - 1] == BLANK then TrimmedLength(s[..|s| - 1]) else |s|
  }

  function HexDigit(n: nat): Byte
    requires n < 16
  {
    if n > 9 then n - 10 + 0x41 else n + 0x30
  }

  /** The low four bits of the first four bytes of the CRC, as digits. */
  function HashTag(crc: nat): (r: seq<Byte>)
    ensures |r| == HASH_VALUE_TAG_LEN
  {
    [HexDigit(crc % 16), HexDigit(crc / 0x100 % 16), HexDigit(crc / 0x1_0000 % 16), HexDigit(crc / 0x100_0000 % 16)]
  }

  /** `short` with `c` as the character that is counted up. */
  function Probe(short: Short, at: nat, c: Byte): Short
    requires at < 11
  {
    short[at := c]
  }

  /** The hashed form: two characters of the base at most, the digits of the CRC and a tilde. */
  function Hashed(base: Short, crc: nat): (r: (Short, nat))
    ensures r.1 < MAIN_LEN
  {
    var n := Min(Min(TrimmedLength(base[..MAIN_LEN]), SPEC_BASE_TAG_LEN), HASH_BASE_TAG_LEN);
    var spec := SpecForm(base);
    (Splice(spec.0, n, HashTag(crc) + [TILDE, ONE]), n + HASH_VALUE_TAG_LEN + 1)
  }

  /** The first form: six characters of the base at most and a tilde. */
  function SpecForm(base: Short): (r: (Short, nat))
    ensures r.1 < MAIN_LEN && r.0[8..] == base[8..]
  {
    var n := Min(TrimmedLength(base[..MAIN_LEN]), SPEC_BASE_TAG_LEN);
    (Splice(base, n, [TILDE, ONE]), n + 1)
  }

  /** Entries whose short name is the hashed form with some counter character. */
  ghost function Sharing(children: seq<DirEnt>, form: Short, at: nat): set<DirEnt>
    requires at < 11
  {
    set d | d in children && d.ShortName() == Probe(form, at, d.ShortName()[at])
  }

  /** `short` is the short name of an entry. */
  ghost predicate Taken(children: seq<DirEnt>, short: Short) {
    exists d :: d in children && d.ShortName() == short
  }

  lemma {:induction false} PickDistinct(children: seq<DirEnt>, form: Short, at: nat, n: nat) returns (s: set<DirEnt>)
    requires at < 11 && n <= 256
    requires forall c: Byte :: Taken(children, Probe(form, at, c))
    ensures s <= Sharing(children, form, at) && |s| == n && forall d :: d in s ==> d.ShortName()[at] < n
  {
    if n == 0 {
      s := {};
    } else {
      s := PickDistinct(children, form, at, n - 1);
      var c: Byte := n - 1;
      assert Taken(children, Probe(form, at, c));
      var d :| d in children && d.ShortName() == Probe(form, at, c);
      s := s + {d};
    }
  }

  /** When fewer than 256 entries share the hashed form, some counter character gives an unused name. */
  lemma SomeProbeFree(children: seq<DirEnt>, form: Short, at: nat) returns (free: Byte)
    requires at < 11 && |Sharing(children, form, at)| < 256
    ensures !Taken(children, Probe(form, at, free))
  {
    if forall c: Byte :: Taken(children, Probe(form, at, c)) {
      var s := PickDistinct(children, form, at, 256);
      SubsetSize(s, Sharing(children, form, at));
    }
    free :| !Taken(children, Probe(form, at, free));
  }

  lemma {:induction false} SubsetSize(a: set<DirEnt>, b: set<DirEnt>)
    requires a <= b
    ensures |a| <= |b|
  {
    if a != {} {
      var x :| x in a;
      SubsetSize(a - {x}, b - {x});
    }
  }

  lemma TagShape(base: Short, crc: nat)
    ensures var n := Min(TrimmedLength(base[..MAIN_LEN]), SPEC_BASE_TAG_LEN);
      SpecForm(base) == (Splice(base, n, [TILDE, ONE]), n + 1) && n <= SPEC_BASE_TAG_LEN && SpecForm(base).0[8..] == base[8..]
    ensures Hashed(base, crc).1 < MAIN_LEN && Hashed(base, crc).0[8..] == base[8..] && |HashTag(crc)| == HASH_VALUE_TAG_LEN
  {
  }

  // ---------------------------------------------------------------- the names that are tried

  /** The base, a tilde and the digit `j` + 1. */
  function SpecName(base: Short, j: nat): Short
    requires j < MAX_SPEC_RETRY
  {
    Probe(SpecForm(base).0, SpecForm(base).1, ONE + j)
  }

  /** The counter character, one byte, after `n` steps from '1'. */
  function Counter(n: nat): Byte {
    (ONE + n) % 256
  }

  /** The hashed form with counter character `c`. */
  function HashedName(base: Short, crc: nat, c: Byte): Short {
    Probe(Hashed(base, crc).0, Hashed(base, crc).1, c)
  }

  /** The name that is tried in round `t`. */
  function Tried(base: Short, crc: nat, t: nat): Short {
    if t < MAX_SPEC_RETRY then SpecName(base, t) else HashedName(base, crc, Counter(t - MAX_SPEC_RETRY))
  }

  /** One of the four names of the first form, or one of the 256 of the hashed form, is not in use. */
  ghost predicate ShortAvailable(children: seq<DirEnt>, base: Short, crc: nat) {
    || (exists j :: 0 <= j < MAX_SPEC_RETRY && !Taken(children, SpecName(base, j)))
    || (exists c: Byte :: !Taken(children, HashedName(base, crc, c)))
  }

  /** That is exactly when some round ends the search; otherwise it goes on for ever. */
  lemma AvailableExactly(children: seq<DirEnt>, base: Short, crc: nat)
    ensures ShortAvailable(children, base, crc) <==> exists t: nat :: !Taken(children, Tried(base, crc, t))
  {
    hide Taken, SpecName, HashedName;
    if j :| 0 <= j < MAX_SPEC_RETRY && !Taken(children, SpecName(base, j)) {
      assert !Taken(children, Tried(base, crc, j));
    } else if c: Byte :| !Taken(children, HashedName(base, crc, c)) {
      CounterReaches(c);
      var n: nat := if ONE <= c then c - ONE else c + 256 - ONE;
      assert Tried(base, crc, n + MAX_SPEC_RETRY) == HashedName(base, crc, c);
    }
  }

  lemma CounterReaches(c: Byte)
    ensures Counter(if ONE <= c then c - ONE else c + 256 - ONE) == c
  {
  }

  /** Fewer than 256 entries that share the hashed form leave a name available. */
  lemma FewSharersAvailable(children: seq<DirEnt>, base: Short, crc: nat)
    requires |Sharing(children, Hashed(base, crc).0, Hashed(base, crc).1)| < 256
    ensures ShortAvailable(children, base, crc)
  {
    hide Sharing, Taken, Hashed;
    TagShape(base, crc);
    var c := SomeProbeFree(children, Hashed(base, crc).0, Hashed(base, crc).1);
    assert !Taken(children, HashedName(base, crc, c));
  }

  /** A directory in which every name that would be tried is taken: one entry for each of the 260. */
  function Crowd(base: Short, crc: nat): (r: seq<DirEnt>)
    ensures |r| == MAX_SPEC_RETRY + 256
    ensures forall t :: 0 <= t < |r| ==> r[t].ShortName() == Tried(base, crc, t)
  {
    seq(MAX_SPEC_RETRY + 256, t requires 0 <= t < MAX_SPEC_RETRY + 256 => CrowdEntry(base, crc, t))
  }

  function CrowdEntry(base: Short, crc: nat, t: nat): (d: DirEnt)
    ensures d.ShortName() == Tried(base, crc, t)
  {
    var entry: Slot := Tried(base, crc, t) + seq(21, _ => 0);
    assert entry[..11] == Tried(base, crc, t);
    DirEnt(t, 1, [], entry)
  }

  /** On that directory the search never ends. */
  lemma CrowdExhausts(base: Short, crc: nat)
    ensures !ShortAvailable(Crowd(base, crc), base, crc)
    ensures forall t: nat :: Taken(Crowd(base, crc), Tried(base, crc, t))
  {
    hide Tried, Crowd, SpecName, HashedName;
    var crowd := Crowd(base, crc);
    CrowdShorts(base, crc);
    forall j | 0 <= j < MAX_SPEC_RETRY
      ensures Taken(crowd, SpecName(base, j))
    {
      TriedSpec(base, crc, j);
      assert crowd[j].ShortName() == Tried(base, crc, j);
    }
    forall c: Byte
      ensures Taken(crowd, HashedName(base, crc, c))
    {
      var n: nat := if ONE <= c then c - ONE else c + 256 - ONE;
      CounterReaches(c);
      TriedHashed(base, crc, n);
      assert crowd[n + MAX_SPEC_RETRY].ShortName() == Tried(base, crc, n + MAX_SPEC_RETRY);
    }
    AvailableExactly(crowd, base, crc);
  }

  lemma CrowdShorts(base: Short, crc: nat)
    ensures |Crowd(base, crc)| == MAX_SPEC_RETRY + 256
    ensures forall t :: 0 <= t < MAX_SPEC_RETRY + 256 ==> Crowd(base, crc)[t].ShortName() == Tried(base, crc, t)
  {
    hide Tried;
  }

  lemma TriedSpec(base: Short, crc: nat, j: nat)
    requires j < MAX_SPEC_RETRY
    ensures Tried(base, crc, j) == SpecName(base, j)
  {
  }

  lemma TriedHashed(base: Short, crc: nat, n: nat)
    ensures Tried(base, crc, n + MAX_SPEC_RETRY) == HashedName(base, crc, Counter(n))
  {
  }

  /** The first `n` characters of the main part of a base are all of it but trailing blanks. */
  ghost predicate BaseLength(base: Short, n: nat) {
    n <= 8 && (n > 0 ==> base[n - 1] != 0x20) && forall i :: n <= i < 8 ==> base[i] == 0x20
  }

  lemma {:induction false} TrimmedMeans(s: seq<Byte>)
    ensures var n := TrimmedLength(s); n <= |s| && (n > 0 ==> s[n - 1] != 0x20) && forall i :: n <= i < |s| ==> s[i] == 0x20
  {
    if s != [] && s[|s| - 1] == BLANK {
      TrimmedMeans(s[..|s| - 1]);
    }
  }

  lemma TrimmedIs(base: Short, n: nat)
    requires BaseLength(base, n)
    ensures TrimmedLength(base[..8]) == n
  {
    hide TrimmedLength;
    TrimmedMeans(base[..8]);
    assert forall i :: 0 <= i < 8 ==> base[..8][i] == base[i];
  }

  /** The four names tried first: at most six characters of the base, a tilde, a digit, and the rest of the base. */
  lemma SpecShape(base: Short, n: nat, crc: nat, t: nat, i: nat)
    requires BaseLength(base, n) && t < 4 && i < 11
    ensures var k := if n <= 6 then n else 6;
      Tried(base, crc, t)[i] == if i == k then 0x7E else if i == k + 1 then 0x31 + t else base[i]
  {
    hide TrimmedLength;
    TrimmedIs(base, n);
  }

  /**
    The names tried after them: at most two characters of the base, the low halves of the four bytes of the CRC as
    hexadecimal digits, a tilde, the counter, and the rest of the base.
   */
  lemma HashedShape(base: Short, n: nat, crc: nat, t: nat, i: nat)
    requires BaseLength(base, n) && 4 <= t && i < 11
    ensures var k := if n <= 2 then n else 2;
      var digit := if i == k then crc % 16 else if i == k + 1 then crc / 0x100 % 16 else if i == k + 2 then crc / 0x1_0000 % 16 else crc / 0x100_0000 % 16;
      Tried(base, crc, t)[i] ==
        if k <= i < k + 4 then (if digit > 9 then digit - 10 + 0x41 else digit + 0x30)
        else if i == k + 4 then 0x7E else if i == k + 5 then (0x31 + (t - 4)) % 256 else base[i]
  {
    hide TrimmedLength;
    TrimmedIs(base, n);
  }

  /** `short` is the first name tried that is not in use. */
  ghost predicate FirstFree(children: seq<DirEnt>, base: Short, crc: nat, short: Short) {
    exists t: nat :: short == Tried(base, crc, t) && !Taken(children, short) && forall j :: 0 <= j < t ==> Taken(children, Tried(base, crc, j))
  }

  /** Where the counter character of round `t` stands. */
  function CounterAt(base: Short, crc: nat, t: nat): (at: nat)
    ensures at < MAIN_LEN
  {
    if t < MAX_SPEC_RETRY then SpecForm(base).1 else Hashed(base, crc).1
  }

  /** Counting up gives the next name, except where the hashed form takes over. */
  lemma NextTried(base: Short, crc: nat, t: nat)
    requires t + 1 != MAX_SPEC_RETRY
    ensures CounterAt(base, crc, t + 1) == CounterAt(base, crc, t)
    ensures var short, at := Tried(base, crc, t), CounterAt(base, crc, t); Probe(short, at, NextChar(short[at])) == Tried(base, crc, t + 1)
  {
    hide SpecForm, Hashed;
    TagShape(base, crc);
    if t >= MAX_SPEC_RETRY {
      CounterNext(t - MAX_SPEC_RETRY);
    }
  }

  lemma CounterNext(n: nat)
    ensures Counter(n + 1) == NextChar(Counter(n))
  {
  }

  lemma TriedKeepsExtension(base: Short, crc: nat, t: nat)
    ensures Tried(base, crc, t)[8..] == base[8..]
  {
    hide SpecForm, Hashed;
    TagShape(base, crc);
  }

  /** The first byte of a generated name is that of the base, a tilde or a digit. */
  lemma TriedFirstByte(base: Short, crc: nat, t: nat)
    ensures var b := Tried(base, crc, t)[0]; b == base[0] || b == TILDE || 0x30 <= b < 0x47
  {
    hide TrimmedLength;
    TagShape(base, crc);
    FirstForms(base, crc);
  }

  lemma FirstForms(base: Short, crc: nat)
    ensures SpecForm(base).1 > 0 && (SpecForm(base).0[0] == base[0] || SpecForm(base).0[0] == TILDE)
    ensures Hashed(base, crc).1 > 0 && (Hashed(base, crc).0[0] == SpecForm(base).0[0] || 0x30 <= Hashed(base, crc).0[0] < 0x47)
  {
    hide TrimmedLength, HashTag;
    TagShape(base, crc);
    HexTag(crc);
  }

  lemma HexTag(crc: nat)
    ensures |HashTag(crc)| == HASH_VALUE_TAG_LEN && 0x30 <= HashTag(crc)[0] < 0x47
  {
  }

  function NextChar(c: Byte): Byte {
    if c == 255 then 0 else c + 1
  }

  lemma FirstTried(base: Short, crc: nat)
    ensures var n := Min(TrimmedLength(base[..MAIN_LEN]), SPEC_BASE_TAG_LEN);
      Tried(base, crc, 0) == Splice(base, n, [TILDE, ONE]) && CounterAt(base, crc, 0) == n + 1
  {
    hide TrimmedLength;
    var n := Min(TrimmedLength(base[..MAIN_LEN]), SPEC_BASE_TAG_LEN);
    assert SpecForm(base).0[n + 1] == ONE;
    assert Tried(base, crc, 0) == SpecForm(base).0;
  }

  /** The hashed form overwrites the tilde and the counter of the first form. */
  lemma FirstHashed(base: Short, crc: nat)
    ensures var last := Probe(Tried(base, crc, 3), CounterAt(base, crc, 3), NextChar(Tried(base, crc, 3)[CounterAt(base, crc, 3)]));
      var n := Min(CounterAt(base, crc, 0) - 1, HASH_BASE_TAG_LEN);
      Tried(base, crc, 4) == Splice(last, n, HashTag(crc) + [TILDE, ONE]) && CounterAt(base, crc, 4) == n + HASH_VALUE_TAG_LEN + 1
  {
    hide HashTag, TrimmedLength;
    TagShape(base, crc);
    var last := Probe(Tried(base, crc, 3), CounterAt(base, crc, 3), NextChar(Tried(base, crc, 3)[CounterAt(base, crc, 3)]));
    var n := Min(CounterAt(base, crc, 0) - 1, HASH_BASE_TAG_LEN);
    var tag := HashTag(crc) + [TILDE, ONE];
    assert Splice(last, n, tag) == Splice(SpecForm(base).0, n, tag);
    assert Hashed(base, crc).0[n + HASH_VALUE_TAG_LEN + 1] == ONE;
    assert Counter(0) == ONE;
  }

  /**
    FatCreate8Dot3Name: the first name that is not in use, of four of the first form and then of the hashed form
    with its counter running through all bytes. It ends because one of these names is available.
   */
  method Create8Dot3Name(table: HashTable, base: Short, crc: nat, ghost children: seq<DirEnt>) returns (short: Short)
    requires !table.long && table.Indexes(children) && ShortAvailable(children, base, crc)
    ensures FirstFree(children, base, crc, short) && !Taken(children, short) && short[8..] == base[8..]
  {
    hide HashTag, TrimmedLength, HashTable.Indexes, Tried, CounterAt, Taken, ShortAvailable, NextChar;
    AvailableExactly(children, base, crc);
    ghost var last: nat :| !Taken(children, Tried(base, crc, last));
    FirstTried(base, crc);
    LengthBound(base, crc);
    var baseTagLen: nat := Min(TrimmedLength(base[..MAIN_LEN]), SPEC_BASE_TAG_LEN);
    short := Splice(base, baseTagLen, [TILDE, ONE]);
    var at: nat := baseTagLen + 1;
    ghost var at0 := at;
    var retry: nat := 0;
    var taken := ShortTaken(table, short, children);
    while taken
      invariant at < MAIN_LEN && short == Tried(base, crc, retry) && at == CounterAt(base, crc, retry)
      invariant retry < MAX_SPEC_RETRY ==> baseTagLen == at0 - 1 && at0 == CounterAt(base, crc, 0)
      invariant taken == Taken(children, short) && retry <= last
      invariant forall j :: 0 <= j < retry ==> Taken(children, Tried(base, crc, j))
      decreases last - retry
    {
      short := Probe(short, at, NextChar(short[at]));
      retry := retry + 1;
      if retry == MAX_SPEC_RETRY {
        FirstHashed(base, crc);
        baseTagLen := Min(baseTagLen, HASH_BASE_TAG_LEN);
        short := Splice(short, baseTagLen, HashTag(crc) + [TILDE, ONE]);
        at := baseTagLen + HASH_VALUE_TAG_LEN + 1;
      } else {
        NextTried(base, crc, retry - 1);
      }
      taken := ShortTaken(table, short, children);
    }
    TriedKeepsExtension(base, crc, retry);
  }

  lemma LengthBound(base: Short, crc: nat)
    ensures TrimmedLength(base[..MAIN_LEN]) <= MAIN_LEN && |HashTag(crc)| == HASH_VALUE_TAG_LEN
  {
  }

  method ShortTaken(table: HashTable, short: Short, ghost children: seq<DirEnt>) returns (taken: bool)
    requires !table.long && table.Indexes(children)
    ensures taken == Taken(children, short)
  {
    var d;
    taken, d := table.Lookup(short, children);
  }
}
