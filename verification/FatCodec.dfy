/**
  FAT entries in the file allocation table (FileSpace.c, FatFileSystem.h): 12, 16 and 28-bit values
  packed into bytes. A cluster number is a UINTN; the marks stored in an entry are sign-extended to
  the top of that range when read.
 */
module FatCodec {
  import opened Bytes

  datatype FatType = Fat12 | Fat16 | Fat32

  const FREE: nat := 0
  const LAST: nat := 0xFFFF_FFFF_FFFF_FFFF
  const SPECIAL_EXT: nat := 0xFFFF_FFFF_FFFF_FFF0
  const SPECIAL: nat := 0xFFFF_FFFF_FFFF_FFF7
  const MIN_CLUSTER: nat := 2

  /** FAT_END_OF_FAT_CHAIN. */
  predicate EndMark(v: nat) {
    v > SPECIAL
  }

  function EntrySize(t: FatType): nat {
    if t == Fat32 then 4 else 2
  }

  /** Byte position of entry `i` in a FAT. */
  function EntryPos(t: FatType, i: nat): nat {
    match t
    case Fat12 => i * 3 / 2
    case Fat16 => i * 2
    case Fat32 => i * 4
  }

  /** Least stored value that is a mark and not a cluster number. */
  function SpecialFrom(t: FatType): nat {
    match t
    case Fat12 => 0xFF7
    case Fat16 => 0xFFF7
    case Fat32 => 0x0FFF_FFF7
  }

  function Word16(b: seq<Byte>): nat
    requires |b| == 2
  {
    var lo: int, hi: int := b[0], b[1];
    lo + 256 * hi
  }

  /** Little-endian bytes of a 16-bit word. */
  function Bytes16(w: nat): (b: seq<Byte>)
    requires w < 0x1_0000
    ensures |b| == 2 && Word16(b) == w
  {
    [w % 256, w / 256]
  }

  function Word32(b: seq<Byte>): nat
    requires |b| == 4
  {
    Word16(b[..2]) + 65536 * Word16(b[2..])
  }

  /** The value stored for entry `i`, before the marks are extended. */
  function Stored(t: FatType, i: nat, b: seq<Byte>): (v: nat)
    requires |b| == EntrySize(t)
  {
    match t
    case Fat12 => if i % 2 == 1 then Word16(b) / 16 else Word16(b) % 0x1000
    case Fat16 => Word16(b)
    case Fat32 => Word32(b) % 0x1000_0000
  }

  /** The value FatGetFatEntry returns for the bytes of an entry. */
  function Unpack(t: FatType, i: nat, b: seq<Byte>): (v: nat)
    requires |b| == EntrySize(t)
  {
    var accum := Stored(t, i, b);
    if accum >= SpecialFrom(t) then SPECIAL_EXT + accum % 16 else accum
  }

  /** The bytes FatSetFatEntry writes for `value`, given the bytes `b` that were there. */
  function Pack(t: FatType, i: nat, b: seq<Byte>, value: nat): (r: seq<Byte>)
    requires |b| == EntrySize(t)
    ensures |r| == EntrySize(t)
  {
    match t
    case Fat12 =>
      var v, w := value % 0x1000, Word16(b);
      Bytes16(if i % 2 == 1 then v * 16 + w % 16 else v + w / 0x1000 * 0x1000)
    case Fat16 =>
      Bytes16(value % 0x1_0000)
    case Fat32 =>
      var w := Word32(b) / 0x1000_0000 * 0x1000_0000 + value % 0x1000_0000;
      Bytes16(w % 0x1_0000) + Bytes16(w / 0x1_0000)
  }

  ghost predicate InFat(t: FatType, fat: seq<Byte>, i: nat) {
    EntryPos(t, i) + EntrySize(t) <= |fat|
  }

  /** Entry `i` of a FAT. */
  ghost function Entry(t: FatType, fat: seq<Byte>, i: nat): nat
    requires InFat(t, fat, i)
  {
    Unpack(t, i, fat[EntryPos(t, i)..EntryPos(t, i) + EntrySize(t)])
  }

  /** A FAT after entry `i` was set. */
  ghost function WithEntry(t: FatType, fat: seq<Byte>, i: nat, value: nat): (r: seq<Byte>)
    requires InFat(t, fat, i)
    ensures |r| == |fat|
  {
    Splice(fat, EntryPos(t, i), Pack(t, i, fat[EntryPos(t, i)..EntryPos(t, i) + EntrySize(t)], value))
  }

  /** Values that the driver stores: free, end of chain, or a cluster number that is not a mark. */
  ghost predicate Storable(t: FatType, value: nat) {
    value == FREE || value == LAST || MIN_CLUSTER <= value < SpecialFrom(t)
  }

  /** The nibbles of a 16-bit word and of its bytes. */
  lemma Nibbles(w: nat)
    requires w < 0x1_0000
    ensures Bytes16(w)[0] % 16 == w % 16 && Bytes16(w)[1] / 16 == w / 0x1000
  {
  }

  lemma WordNibbles(b: seq<Byte>)
    requires |b| == 2
    ensures Word16(b) < 0x1_0000 && Word16(b) % 16 == b[0] % 16 && Word16(b) / 0x1000 == b[1] / 16
  {
  }

  /** FAT12: the packed word holds the value and keeps the nibble of the neighbour. */
  lemma Pack12(i: nat, b: seq<Byte>, value: nat)
    requires |b| == 2
    ensures Stored(Fat12, i, Pack(Fat12, i, b, value)) == value % 0x1000
    ensures i % 2 == 1 ==> Pack(Fat12, i, b, value)[0] % 16 == b[0] % 16
    ensures i % 2 == 0 ==> Pack(Fat12, i, b, value)[1] / 16 == b[1] / 16
  {
    hide Word16, Bytes16;
    var v, w := value % 0x1000, Word16(b);
    WordNibbles(b);
    if i % 2 == 1 {
      Nibbles(v * 16 + w % 16);
    } else {
      Nibbles(v + w / 0x1000 * 0x1000);
    }
  }

  lemma Pack16(i: nat, b: seq<Byte>, value: nat)
    requires |b| == 2
    ensures Stored(Fat16, i, Pack(Fat16, i, b, value)) == value % 0x1_0000
  {
  }

  /** FAT32: the packed word holds the 28-bit value and keeps the four reserved bits. */
  lemma Pack32(i: nat, b: seq<Byte>, value: nat)
    requires |b| == 4
    ensures Stored(Fat32, i, Pack(Fat32, i, b, value)) == value % 0x1000_0000
    ensures Word32(Pack(Fat32, i, b, value)) / 0x1000_0000 == Word32(b) / 0x1000_0000
  {
    var w := Word32(b) / 0x1000_0000 * 0x1000_0000 + value % 0x1000_0000;
    var r := Pack(Fat32, i, b, value);
    assert r[..2] == Bytes16(w % 0x1_0000) && r[2..] == Bytes16(w / 0x1_0000);
    assert Word32(r) == w;
    QuotientUnique(w, 0x1000_0000, Word32(b) / 0x1000_0000, value % 0x1000_0000);
  }

  /** An odd FAT12 entry owns the upper nibble of its first byte and all of its second byte. */
  lemma SharedHigh(b: seq<Byte>, b': seq<Byte>)
    requires |b| == |b'| == 2 && b[0] / 16 == b'[0] / 16 && b[1] == b'[1]
    ensures Word16(b) / 16 == Word16(b') / 16
  {
  }

  /** An even FAT12 entry owns all of its first byte and the lower nibble of its second byte. */
  lemma SharedLow(b: seq<Byte>, b': seq<Byte>)
    requires |b| == |b'| == 2 && b[0] == b'[0] && b[1] % 16 == b'[1] % 16
    ensures Word16(b) % 0x1000 == Word16(b') % 0x1000
  {
  }

  /** What a value looks like once it is cut to the width of an entry. */
  lemma MaskedValue(t: FatType, value: nat)
    requires Storable(t, value)
    ensures var m := if t == Fat12 then 0x1000 else if t == Fat16 then 0x1_0000 else 0x1000_0000;
      value % m == if value == LAST then m - 1 else value
  {
  }

  lemma UnpackPack(t: FatType, i: nat, b: seq<Byte>, value: nat)
    requires |b| == EntrySize(t) && Storable(t, value)
    ensures Unpack(t, i, Pack(t, i, b, value)) == value
  {
    hide Pack, Stored;
    MaskedValue(t, value);
    match t
    case Fat12 => Pack12(i, b, value);
    case Fat16 => Pack16(i, b, value);
    case Fat32 => Pack32(i, b, value);
  }

  /** Reading back a stored value gives that value. */
  lemma GetAfterSet(t: FatType, fat: seq<Byte>, i: nat, value: nat)
    requires InFat(t, fat, i) && Storable(t, value)
    ensures Entry(t, WithEntry(t, fat, i, value), i) == value
  {
    hide Unpack, Pack;
    var p, n := EntryPos(t, i), EntrySize(t);
    SpliceSlice(fat, p, Pack(t, i, fat[p..p + n], value));
    UnpackPack(t, i, fat[p..p + n], value);
  }

  /** Entries whose bytes do not overlap. */
  lemma FarEntries(t: FatType, i: nat, j: nat)
    requires i != j
    requires t == Fat12 ==> i / 2 != j / 2
    ensures EntryPos(t, i) + EntrySize(t) <= EntryPos(t, j) || EntryPos(t, j) + EntrySize(t) <= EntryPos(t, i)
  {
    if t == Fat12 {
      hide EntryPos;
      Position12(i);
      Position12(j);
      var m, n := i / 2, j / 2;
      assert m < n ==> 3 * m + 3 <= 3 * n;
      assert n < m ==> 3 * n + 3 <= 3 * m;
    }
  }

  /** Two FAT12 entries take three bytes. */
  lemma Position12(i: nat)
    ensures EntryPos(Fat12, i) == 3 * (i / 2) + i % 2 && 0 <= i % 2 <= 1
  {
    assert i == 2 * (i / 2) + i % 2;
    Halves(i / 2);
  }

  lemma Halves(m: nat)
    ensures 2 * m * 3 / 2 == 3 * m && (2 * m + 1) * 3 / 2 == 3 * m + 1
  {
  }

  /** FAT12 entries 2m and 2m + 1 occupy the three bytes from 3m on. */
  lemma Pair12(m: nat)
    ensures EntryPos(Fat12, 2 * m) == 3 * m && EntryPos(Fat12, 2 * m + 1) == 3 * m + 1
    ensures (2 * m) % 2 == 0 && (2 * m + 1) % 2 == 1
  {
  }

  /** FAT12: setting an even entry keeps the odd entry that shares its second byte. */
  lemma NextOddKept(fat: seq<Byte>, m: nat, value: nat)
    requires InFat(Fat12, fat, 2 * m) && InFat(Fat12, fat, 2 * m + 1)
    ensures Entry(Fat12, WithEntry(Fat12, fat, 2 * m, value), 2 * m + 1) == Entry(Fat12, fat, 2 * m + 1)
  {
    hide Pack, EntryPos;
    Pair12(m);
    var fat', p := WithEntry(Fat12, fat, 2 * m, value), 3 * m;
    Pack12(2 * m, fat[p..p + 2], value);
    var b, b' := fat[p + 1..p + 3], fat'[p + 1..p + 3];
    assert b'[0] == Pack(Fat12, 2 * m, fat[p..p + 2], value)[1] && b'[1] == b[1];
    SharedHigh(b, b');
  }

  /** FAT12: setting an odd entry keeps the even entry that shares its first byte. */
  lemma PreviousEvenKept(fat: seq<Byte>, m: nat, value: nat)
    requires InFat(Fat12, fat, 2 * m) && InFat(Fat12, fat, 2 * m + 1)
    ensures Entry(Fat12, WithEntry(Fat12, fat, 2 * m + 1, value), 2 * m) == Entry(Fat12, fat, 2 * m)
  {
    hide Pack, EntryPos;
    Pair12(m);
    var fat', p := WithEntry(Fat12, fat, 2 * m + 1, value), 3 * m;
    Pack12(2 * m + 1, fat[p + 1..p + 3], value);
    var b, b' := fat[p..p + 2], fat'[p..p + 2];
    assert b'[1] == Pack(Fat12, 2 * m + 1, fat[p + 1..p + 3], value)[0] && b'[0] == b[0];
    SharedLow(b, b');
  }

  /** Writes outside the bytes of entry `j` do not change it. */
  lemma EntryFrame(t: FatType, fat: seq<Byte>, at: nat, data: seq<Byte>, j: nat)
    requires InFat(t, fat, j) && at + |data| <= |fat|
    requires at + |data| <= EntryPos(t, j) || EntryPos(t, j) + EntrySize(t) <= at
    ensures Entry(t, Splice(fat, at, data), j) == Entry(t, fat, j)
  {
    hide Unpack;
    var q, n := EntryPos(t, j), EntrySize(t);
    assert Splice(fat, at, data)[q..q + n] == fat[q..q + n];
  }

  lemma FarEntryKept(t: FatType, fat: seq<Byte>, i: nat, value: nat, j: nat)
    requires InFat(t, fat, i) && InFat(t, fat, j) && i != j
    requires t == Fat12 ==> i / 2 != j / 2
    ensures Entry(t, WithEntry(t, fat, i, value), j) == Entry(t, fat, j)
  {
    hide Unpack, Pack;
    FarEntries(t, i, j);
    EntryFrame(t, fat, EntryPos(t, i), Pack(t, i, fat[EntryPos(t, i)..EntryPos(t, i) + EntrySize(t)], value), j);
  }

  /** Setting entry `i`, to anything, leaves every other entry as it was. */
  lemma OtherEntryKept(t: FatType, fat: seq<Byte>, i: nat, value: nat, j: nat)
    requires InFat(t, fat, i) && InFat(t, fat, j) && i != j
    ensures Entry(t, WithEntry(t, fat, i, value), j) == Entry(t, fat, j)
  {
    hide Unpack, Pack, Entry, WithEntry, EntryPos;
    var m := i / 2;
    assert i == 2 * m || i == 2 * m + 1;
    if t == Fat12 && i == 2 * m && j == 2 * m + 1 {
      NextOddKept(fat, m, value);
    } else if t == Fat12 && i == 2 * m + 1 && j == 2 * m {
      PreviousEvenKept(fat, m, value);
    } else {
      FarEntryKept(t, fat, i, value, j);
    }
  }

  // ---------------------------------------------------------------- the bytes of an entry

  /** FAT12: two entries in three bytes, the even one in the low twelve bits. */
  lemma ReadsEven12(fat: seq<Byte>, m: nat)
    requires 3 * m + 2 <= |fat|
    ensures InFat(Fat12, fat, 2 * m)
    ensures var b0: int, b1: int := fat[3 * m], fat[3 * m + 1];
      var raw := b0 + 0x100 * (b1 % 16);
      Entry(Fat12, fat, 2 * m) == (if raw >= 0xFF7 then 0xFFFF_FFFF_FFFF_FFF0 + raw % 16 else raw)
  {
    Pair12(m);
    var b0: int, b1: int := fat[3 * m], fat[3 * m + 1];
    assert Word16(fat[3 * m..3 * m + 2]) == b0 + 256 * b1;
    TwelveBits(b0, b1, 0);
  }

  lemma ReadsOdd12(fat: seq<Byte>, m: nat)
    requires 3 * m + 3 <= |fat|
    ensures InFat(Fat12, fat, 2 * m + 1)
    ensures var b1: int, b2: int := fat[3 * m + 1], fat[3 * m + 2];
      var raw := b1 / 16 + 0x10 * b2;
      Entry(Fat12, fat, 2 * m + 1) == (if raw >= 0xFF7 then 0xFFFF_FFFF_FFFF_FFF0 + raw % 16 else raw)
  {
    Pair12(m);
    var b1: int, b2: int := fat[3 * m + 1], fat[3 * m + 2];
    assert Word16(fat[3 * m + 1..3 * m + 3]) == b1 + 256 * b2;
    TwelveBits(0, b1, b2);
  }

  lemma TwelveBits(b0: int, b1: int, b2: int)
    requires 0 <= b0 < 256 && 0 <= b1 < 256 && 0 <= b2 < 256
    ensures (b0 + 256 * b1) % 0x1000 == b0 + 0x100 * (b1 % 16) && (b1 + 256 * b2) / 16 == b1 / 16 + 0x10 * b2
  {
    assert b1 == 16 * (b1 / 16) + b1 % 16;
    assert b0 + 256 * b1 == 0x1000 * (b1 / 16) + (b0 + 0x100 * (b1 % 16));
  }

  /** FAT16: two bytes, the low one first. */
  lemma ReadsFat16(fat: seq<Byte>, i: nat)
    requires 2 * i + 2 <= |fat|
    ensures InFat(Fat16, fat, i)
    ensures var b0: int, b1: int := fat[2 * i], fat[2 * i + 1];
      var raw := b0 + 0x100 * b1;
      Entry(Fat16, fat, i) == (if raw >= 0xFFF7 then 0xFFFF_FFFF_FFFF_FFF0 + raw % 16 else raw)
  {
    var b := fat[2 * i..2 * i + 2];
    assert EntryPos(Fat16, i) == 2 * i && b[0] == fat[2 * i] && b[1] == fat[2 * i + 1];
  }

  /** FAT32: four bytes, the low one first; the upper four bits of the last one do not count. */
  lemma ReadsFat32(fat: seq<Byte>, i: nat)
    requires 4 * i + 4 <= |fat|
    ensures InFat(Fat32, fat, i)
    ensures var b0: int, b1: int, b2: int, b3: int := fat[4 * i], fat[4 * i + 1], fat[4 * i + 2], fat[4 * i + 3];
      var raw := b0 + 0x100 * b1 + 0x1_0000 * b2 + 0x100_0000 * (b3 % 16);
      Entry(Fat32, fat, i) == (if raw >= 0x0FFF_FFF7 then 0xFFFF_FFFF_FFFF_FFF0 + raw % 16 else raw)
  {
    var b := fat[4 * i..4 * i + 4];
    var b0: int, b1: int, b2: int, b3: int := fat[4 * i], fat[4 * i + 1], fat[4 * i + 2], fat[4 * i + 3];
    WordOfBytes(b, b0, b1, b2, b3);
    LowTwentyEight(b0, b1, b2, b3);
  }

  lemma WordOfBytes(b: seq<Byte>, b0: int, b1: int, b2: int, b3: int)
    requires |b| == 4 && b[0] == b0 && b[1] == b1 && b[2] == b2 && b[3] == b3
    ensures Word32(b) == b0 + 0x100 * b1 + 0x1_0000 * b2 + 0x100_0000 * b3
  {
    assert b[..2][0] == b0 && b[..2][1] == b1 && b[2..][0] == b2 && b[2..][1] == b3;
  }

  lemma LowTwentyEight(b0: int, b1: int, b2: int, b3: int)
    requires 0 <= b0 < 256 && 0 <= b1 < 256 && 0 <= b2 < 256 && 0 <= b3 < 256
    ensures var w := b0 + 0x100 * b1 + 0x1_0000 * b2 + 0x100_0000 * b3;
      w % 0x1000_0000 == b0 + 0x100 * b1 + 0x1_0000 * b2 + 0x100_0000 * (b3 % 16) && w / 0x1000_0000 == b3 / 16
  {
    assert b3 == 16 * (b3 / 16) + b3 % 16;
  }

  /** FAT16: the bytes that are written for a value. */
  lemma WritesFat16(fat: seq<Byte>, i: nat, v: nat)
    requires 2 * i + 2 <= |fat|
    ensures InFat(Fat16, fat, i)
    ensures var fat' := WithEntry(Fat16, fat, i, v); fat'[2 * i] == v % 0x100 && fat'[2 * i + 1] == v / 0x100 % 0x100
    ensures forall p :: 0 <= p < |fat| && !(2 * i <= p < 2 * i + 2) ==> WithEntry(Fat16, fat, i, v)[p] == fat[p]
  {
    SixteenBits(v);
  }

  lemma SixteenBits(v: nat)
    ensures v % 0x1_0000 % 256 == v % 0x100 && v % 0x1_0000 / 256 == v / 0x100 % 0x100
  {
    assert v == 0x1_0000 * (v / 0x1_0000) + v % 0x1_0000;
    var w := v % 0x1_0000;
    assert w == 256 * (w / 256) + w % 256;
    assert v == 256 * (256 * (v / 0x1_0000) + w / 256) + w % 256;
  }

  /** FAT32: the bytes that are written for a value; the upper four bits of the last byte stay. */
  lemma WritesFat32(fat: seq<Byte>, i: nat, v: nat)
    requires 4 * i + 4 <= |fat|
    ensures InFat(Fat32, fat, i)
    ensures var fat' := WithEntry(Fat32, fat, i, v);
      && fat'[4 * i] == v % 0x100 && fat'[4 * i + 1] == v / 0x100 % 0x100 && fat'[4 * i + 2] == v / 0x1_0000 % 0x100
      && fat'[4 * i + 3] == v / 0x100_0000 % 16 + fat[4 * i + 3] / 16 * 16
    ensures forall p :: 0 <= p < |fat| && !(4 * i <= p < 4 * i + 4) ==> WithEntry(Fat32, fat, i, v)[p] == fat[p]
  {
    var b := fat[4 * i..4 * i + 4];
    var b0: int, b1: int, b2: int, b3: int := fat[4 * i], fat[4 * i + 1], fat[4 * i + 2], fat[4 * i + 3];
    WordOfBytes(b, b0, b1, b2, b3);
    LowTwentyEight(b0, b1, b2, b3);
    PackedBytes32(i, b, v);
    var fat', r := WithEntry(Fat32, fat, i, v), Pack(Fat32, i, b, v);
    hide Pack, Word32;
    assert forall k :: 0 <= k < 4 ==> fat'[4 * i + k] == r[k];
  }

  lemma PackedBytes32(i: nat, b: seq<Byte>, v: nat)
    requires |b| == 4
    ensures var r := Pack(Fat32, i, b, v);
      && r[0] == v % 0x100 && r[1] == v / 0x100 % 0x100 && r[2] == v / 0x1_0000 % 0x100
      && r[3] == v / 0x100_0000 % 16 + Word32(b) / 0x1000_0000 * 16
  {
    var n, h := v % 0x1000_0000, Word32(b) / 0x1000_0000;
    assert Word32(b) < 0x1_0000_0000;
    TwentyEightBits(v, h);
    var w := h * 0x1000_0000 + n;
    assert Pack(Fat32, i, b, v) == Bytes16(w % 0x1_0000) + Bytes16(w / 0x1_0000);
  }

  lemma TwentyEightBits(v: nat, h: nat)
    requires h < 16
    ensures var w := h * 0x1000_0000 + v % 0x1000_0000;
      && w % 0x1_0000 % 256 == v % 0x100 && w % 0x1_0000 / 256 == v / 0x100 % 0x100
      && w / 0x1_0000 % 256 == v / 0x1_0000 % 0x100 && w / 0x1_0000 / 256 == v / 0x100_0000 % 16 + h * 16
  {
    var x, y, z := v / 256, v / 256 / 256, v / 256 / 256 / 256;
    Digits28(v, v % 256, x % 256, y % 256, z % 16, z / 16, h);
  }

  lemma Digits28(v: nat, b0: nat, b1: nat, b2: nat, b3: nat, q: nat, h: nat)
    requires b0 < 256 && b1 < 256 && b2 < 256 && b3 < 16 && h < 16
    requires v == b0 + 0x100 * b1 + 0x1_0000 * b2 + 0x100_0000 * b3 + 0x1000_0000 * q
    ensures var w := h * 0x1000_0000 + v % 0x1000_0000;
      && w % 0x1_0000 % 256 == v % 0x100 && w % 0x1_0000 / 256 == v / 0x100 % 0x100
      && w / 0x1_0000 % 256 == v / 0x1_0000 % 0x100 && w / 0x1_0000 / 256 == v / 0x100_0000 % 16 + h * 16
  {
    QuotientUnique(v, 0x1000_0000, q, b0 + 0x100 * b1 + 0x1_0000 * b2 + 0x100_0000 * b3);
    QuotientUnique(v, 0x100, b1 + 0x100 * b2 + 0x1_0000 * b3 + 0x10_0000 * q, b0);
    QuotientUnique(v / 0x100, 0x100, b2 + 0x100 * b3 + 0x1000 * q, b1);
    QuotientUnique(v, 0x1_0000, b2 + 0x100 * b3 + 0x1000 * q, b0 + 0x100 * b1);
    QuotientUnique(v / 0x1_0000, 0x100, b3 + 16 * q, b2);
    QuotientUnique(v, 0x100_0000, b3 + 16 * q, b0 + 0x100 * b1 + 0x1_0000 * b2);
    QuotientUnique(v / 0x100_0000, 16, q, b3);
    var w := h * 0x1000_0000 + v % 0x1000_0000;
    QuotientUnique(w, 0x1_0000, b2 + 0x100 * b3 + 0x1000 * h, b0 + 0x100 * b1);
    QuotientUnique(b0 + 0x100 * b1, 256, b1, b0);
    QuotientUnique(b2 + 0x100 * b3 + 0x1000 * h, 256, b3 + 16 * h, b2);
  }

  /** FAT12: the bytes that are written for a value; the nibble of the neighbour stays. */
  lemma WritesEven12(fat: seq<Byte>, m: nat, v: nat)
    requires 3 * m + 2 <= |fat|
    ensures InFat(Fat12, fat, 2 * m)
    ensures var fat' := WithEntry(Fat12, fat, 2 * m, v);
      && fat'[3 * m] == v % 0x100 && fat'[3 * m + 1] == v / 0x100 % 16 + fat[3 * m + 1] / 16 * 16
      && forall p :: 0 <= p < |fat| && !(3 * m <= p < 3 * m + 2) ==> fat'[p] == fat[p]
  {
    Pair12(m);
    var b0: int, b1: int := fat[3 * m], fat[3 * m + 1];
    assert Word16(fat[3 * m..3 * m + 2]) == b0 + 256 * b1;
    PackedTwelve(v, b0, b1, 0);
  }

  lemma WritesOdd12(fat: seq<Byte>, m: nat, v: nat)
    requires 3 * m + 3 <= |fat|
    ensures InFat(Fat12, fat, 2 * m + 1)
    ensures var fat' := WithEntry(Fat12, fat, 2 * m + 1, v);
      && fat'[3 * m + 1] == fat[3 * m + 1] % 16 + v % 16 * 16 && fat'[3 * m + 2] == v / 16 % 0x100
      && forall p :: 0 <= p < |fat| && !(3 * m + 1 <= p < 3 * m + 3) ==> fat'[p] == fat[p]
  {
    Pair12(m);
    var b1: int, b2: int := fat[3 * m + 1], fat[3 * m + 2];
    assert Word16(fat[3 * m + 1..3 * m + 3]) == b1 + 256 * b2;
    PackedTwelve(v, 0, b1, b2);
  }

  lemma PackedTwelve(v: nat, b0: int, b1: int, b2: int)
    requires 0 <= b0 < 256 && 0 <= b1 < 256 && 0 <= b2 < 256
    ensures var w := v % 0x1000 + (b0 + 256 * b1) / 0x1000 * 0x1000; w % 256 == v % 0x100 && w / 256 == v / 0x100 % 16 + b1 / 16 * 16
    ensures var w := v % 0x1000 * 16 + (b1 + 256 * b2) % 16; w % 256 == b1 % 16 + v % 16 * 16 && w / 256 == v / 16 % 0x100
  {
    var x, y := v / 16, v / 16 / 16;
    Digits12(v, v % 16, x % 16, y % 16, y / 16, b0, b1 % 16, b1 / 16, b2);
  }

  lemma Digits12(v: nat, n0: nat, n1: nat, n2: nat, q: nat, b0: nat, lo: nat, hi: nat, b2: nat)
    requires n0 < 16 && n1 < 16 && n2 < 16 && lo < 16 && hi < 16 && b0 < 256
    requires v == n0 + 16 * n1 + 0x100 * n2 + 0x1000 * q
    ensures var b1 := lo + 16 * hi; var w := v % 0x1000 + (b0 + 256 * b1) / 0x1000 * 0x1000;
      w % 256 == v % 0x100 && w / 256 == v / 0x100 % 16 + hi * 16
    ensures var b1 := lo + 16 * hi; var w := v % 0x1000 * 16 + (b1 + 256 * b2) % 16;
      w % 256 == lo + v % 16 * 16 && w / 256 == v / 16 % 0x100
  {
    QuotientUnique(v, 0x1000, q, n0 + 16 * n1 + 0x100 * n2);
    QuotientUnique(v, 0x100, n2 + 16 * q, n0 + 16 * n1);
    QuotientUnique(v / 0x100, 16, q, n2);
    QuotientUnique(v, 16, n1 + 16 * n2 + 0x100 * q, n0);
    QuotientUnique(v / 16, 0x100, q, n1 + 16 * n2);
    var b1 := lo + 16 * hi;
    QuotientUnique(b0 + 256 * b1, 0x1000, hi, b0 + 256 * lo);
    QuotientUnique(b1 + 256 * b2, 16, hi + 16 * b2, lo);
    QuotientUnique(n0 + 16 * n1 + 0x100 * n2 + hi * 0x1000, 256, n2 + 16 * hi, n0 + 16 * n1);
    QuotientUnique((n0 + 16 * n1 + 0x100 * n2) * 16 + lo, 256, n1 + 16 * n2, lo + 16 * n0);
  }
}
