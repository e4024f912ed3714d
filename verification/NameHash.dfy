/**
  The two name indexes of an open directory (Hash.c): arrays of bucket chains, one keyed by the
  upper-cased long name and one by the 11 bytes of the short name. Both tables are the same code over a
  different key, so there is one class here and a flag that says which key a table uses.

  Case mapping, conversion to FAT characters and CRC32 are services of the firmware. They are fields of `Services` and
  nothing is known about them; two long names compare equal exactly when their upper-cased forms do.
 */
module NameHash {
  import opened Bytes
  import opened LongNames

  const TABLE_SIZE: nat := 0x400
  const PATH_STRING_LENGTH: nat := 260

  type Key = seq<Char16>

  datatype Services = Services(
    up: Char16 -> Char16, low: Char16 -> Char16, crc32: seq<int> -> nat,
    strToFat: (Name, nat) -> FatName, viaCase: Slot -> Name)

  /** What StrToFat writes for a string, and whether it met a character that FAT names cannot hold. */
  datatype FatName = FatName(bytes: seq<Byte>, illegal: bool)

  function MapName(f: Char16 -> Char16, s: Name): (r: Name)
    ensures |r| == |s|
  {
    seq(|s|, i requires 0 <= i < |s| => f(s[i]))
  }

  /** Names are compared character by character. */
  lemma SameUpper(sv: Services, a: Name, b: Name)
    ensures Up(sv, a) == Up(sv, b) <==> |a| == |b| && forall i :: 0 <= i < |a| ==> sv.up(a[i]) == sv.up(b[i])
  {
    var x, y := Up(sv, a), Up(sv, b);
    if x == y {
      forall i | 0 <= i < |a|
        ensures |a| == |b| && sv.up(a[i]) == sv.up(b[i])
      {
        assert x[i] == y[i];
      }
      assert |x| == |y|;
    }
  }

  function Up(sv: Services, s: Name): Name {
    MapName(sv.up, s)
  }

  function KeyOf(sv: Services, long: bool, d: DirEnt): Key {
    if long then Up(sv, d.name) else d.ShortName()
  }

  /** FatHashLongName hashes at most 259 characters and their terminator; FatHashShortName all 11 bytes. */
  function Hash(sv: Services, long: bool, key: Key): (h: nat)
    ensures h < TABLE_SIZE
  {
    var length := PATH_STRING_LENGTH - 1;
    (if long then sv.crc32(CharBytes((if |key| <= length then key else key[..length]) + [0])) else sv.crc32(key)) % TABLE_SIZE
  }

  ghost predicate Distinct(s: seq<DirEnt>) {
    forall i, j :: 0 <= i < j < |s| ==> s[i] != s[j]
  }

  /** No two entries share a key. */
  ghost predicate UniqueKeys(sv: Services, long: bool, s: seq<DirEnt>) {
    forall i, j :: 0 <= i < j < |s| ==> KeyOf(sv, long, s[i]) != KeyOf(sv, long, s[j])
  }

  /** `bucket` lists, once each, the entries of `children` that hash to `h`. */
  ghost predicate BucketOk(sv: Services, long: bool, bucket: seq<DirEnt>, h: nat, children: seq<DirEnt>) {
    Distinct(bucket) && forall d :: d in bucket <==> d in children && Hash(sv, long, KeyOf(sv, long, d)) == h
  }

  /** `k` is where the first entry with this key stands in a bucket, or the end of the bucket. */
  ghost predicate FirstMatch(sv: Services, long: bool, bucket: seq<DirEnt>, key: Key, k: nat) {
    && k <= |bucket|
    && (forall i :: 0 <= i < k ==> KeyOf(sv, long, bucket[i]) != key)
    && (k < |bucket| ==> KeyOf(sv, long, bucket[k]) == key)
  }

  /** The chain behind an entry: its forward link. */
  function After(bucket: seq<DirEnt>, d: DirEnt): (r: seq<DirEnt>)
    requires d in bucket
  {
    if bucket[0] == d then bucket[1..] else After(bucket[1..], d)
  }

  lemma {:induction false} AfterIndex(bucket: seq<DirEnt>, d: DirEnt, i: nat)
    requires Distinct(bucket) && i < |bucket| && bucket[i] == d
    ensures After(bucket, d) == bucket[i + 1..]
  {
    if i > 0 {
      forall a, b | 0 <= a < b < |bucket[1..]|
        ensures bucket[1..][a] != bucket[1..][b]
      {
        assert bucket[a + 1] != bucket[b + 1];
      }
      AfterIndex(bucket[1..], d, i - 1);
    }
  }

  /** The link in front of the first match is redirected to the forward link of `d`. */
  function Unlinked(bucket: seq<DirEnt>, k: nat, d: DirEnt): seq<DirEnt>
    requires d in bucket && k <= |bucket|
  {
    bucket[..k] + After(bucket, d)
  }

  /** The redirection removes `d` and nothing else exactly when no other entry of its key stands in front of it. */
  lemma UnlinkExact(sv: Services, long: bool, bucket: seq<DirEnt>, d: DirEnt, k: nat)
    requires Distinct(bucket) && d in bucket && FirstMatch(sv, long, bucket, KeyOf(sv, long, d), k)
    ensures bucket[k] == d <==> Distinct(Unlinked(bucket, k, d)) && forall e :: e in Unlinked(bucket, k, d) <==> e in bucket && e != d
  {
    hide KeyOf, After;
    var i :| 0 <= i < |bucket| && bucket[i] == d;
    AfterIndex(bucket, d, i);
    var u := Unlinked(bucket, k, d);
    if bucket[k] == d {
      SameIndex(bucket, i, k);
      WithoutIndex(bucket, i);
    } else {
      assert k < i;
      assert bucket[k] !in u;
    }
  }

  lemma SameIndex(bucket: seq<DirEnt>, i: nat, k: nat)
    requires Distinct(bucket) && i < |bucket| && k < |bucket| && bucket[i] == bucket[k]
    ensures i == k
  {
  }

  lemma WithoutIndex(bucket: seq<DirEnt>, i: nat)
    requires Distinct(bucket) && i < |bucket|
    ensures var u := bucket[..i] + bucket[i + 1..]; Distinct(u) && forall e :: e in u <==> e in bucket && e != bucket[i]
  {
    var u := bucket[..i] + bucket[i + 1..];
    assert forall k :: 0 <= k < |u| ==> u[k] == bucket[if k < i then k else k + 1];
    forall k | 0 <= k < |bucket| && k != i
      ensures bucket[k] in u
    {
      assert u[if k < i then k else k - 1] == bucket[k];
    }
  }

  class HashTable {
    const sv: Services
    const long: bool
    const buckets: array<seq<DirEnt>>

    /** The table indexes exactly the entries of `children`. */
    ghost predicate Indexes(children: seq<DirEnt>)
      reads buckets
    {
      buckets.Length == TABLE_SIZE && forall h :: 0 <= h < TABLE_SIZE ==> BucketOk(sv, long, buckets[h], h, children)
    }

    constructor (sv: Services, long: bool)
      ensures Indexes([]) && fresh(buckets) && this.sv == sv && this.long == long
    {
      this.sv, this.long, this.buckets := sv, long, new seq<DirEnt>[TABLE_SIZE](_ => []);
    }

    /** FatLongNameHashSearch, FatShortNameHashSearch: where the search for a key ends in its bucket. */
    method Search(key: Key) returns (k: nat)
      requires buckets.Length == TABLE_SIZE
      ensures FirstMatch(sv, long, buckets[Hash(sv, long, key)], key, k)
    {
      var bucket := buckets[Hash(sv, long, key)];
      k := 0;
      while k < |bucket| && KeyOf(sv, long, bucket[k]) != key
        invariant k <= |bucket| && forall i :: 0 <= i < k ==> KeyOf(sv, long, bucket[i]) != key
      {
        k := k + 1;
      }
    }

    /** A search finds an entry with the key exactly when the directory has one. */
    method Lookup(key: Key, ghost children: seq<DirEnt>) returns (found: bool, d: DirEnt)
      requires Indexes(children)
      ensures found ==> d in children && KeyOf(sv, long, d) == key
      ensures !found ==> forall e :: e in children ==> KeyOf(sv, long, e) != key
    {
      var h := Hash(sv, long, key);
      var k := Search(key);
      assert BucketOk(sv, long, buckets[h], h, children);
      if k < |buckets[h]| {
        return true, buckets[h][k];
      }
      ghost var bucket := buckets[h];
      forall e | e in children
        ensures KeyOf(sv, long, e) != key
      {
        assert KeyOf(sv, long, e) == key ==> e in bucket;
      }
      found := false;
      d := DirEnt(0, 1, [], seq(32, _ => 0));
    }

    /** FatInsertToHashTable, for one of the tables. */
    method Insert(d: DirEnt, ghost children: seq<DirEnt>, ghost children': seq<DirEnt>)
      requires Indexes(children) && d !in children
      requires forall e :: e in children' <==> e in children || e == d
      modifies buckets
      ensures Indexes(children')
    {
      var h := Hash(sv, long, KeyOf(sv, long, d));
      assert BucketOk(sv, long, buckets[h], h, children);
      buckets[h] := [d] + buckets[h];
      forall i | 0 <= i < TABLE_SIZE
        ensures BucketOk(sv, long, buckets[i], i, children')
      {
        assert BucketOk(sv, long, old(buckets[i]), i, children);
      }
    }

    /**
      FatDeleteFromHashTable, for one of the tables. Afterwards the table indexes the list without the entry
      exactly when no other entry of its key stood in front of it in its bucket.
     */
    method Delete(d: DirEnt, ghost children: seq<DirEnt>, ghost children': seq<DirEnt>)
      requires Indexes(children) && d in children
      requires forall e :: e in children' <==> e in children && e != d
      modifies buckets
      ensures Indexes(children') <==> Foremost(sv, long, old(buckets[Hash(sv, long, KeyOf(sv, long, d))]), d)
      ensures Alone(sv, long, children, d) ==> Indexes(children')
    {
      var h := Hash(sv, long, KeyOf(sv, long, d));
      ghost var bucket := buckets[h];
      assert BucketOk(sv, long, bucket, h, children);
      var k := Search(KeyOf(sv, long, d));
      FirstIsForemost(sv, long, bucket, d, k);
      UnlinkExact(sv, long, bucket, d, k);
      buckets[h] := Unlinked(buckets[h], k, d);
      assert BucketOk(sv, long, buckets[h], h, children') <==> bucket[k] == d by {
        BucketAfterUnlink(sv, long, bucket, buckets[h], h, children, children', d, k);
      }
      if bucket[k] == d {
        forall i | 0 <= i < TABLE_SIZE && i != h
          ensures BucketOk(sv, long, buckets[i], i, children')
        {
          assert BucketOk(sv, long, old(buckets[i]), i, children);
        }
      }
      if Alone(sv, long, children, d) {
        assert bucket[k] in children;
      }
    }
  }

  /** No other entry of the list has the key of `d`. */
  ghost predicate Alone(sv: Services, long: bool, children: seq<DirEnt>, d: DirEnt) {
    forall e :: e in children && e != d ==> KeyOf(sv, long, e) != KeyOf(sv, long, d)
  }

  /** No other entry with the key of `d` stands in front of it. */
  ghost predicate Foremost(sv: Services, long: bool, bucket: seq<DirEnt>, d: DirEnt) {
    exists i :: 0 <= i < |bucket| && bucket[i] == d && forall j :: 0 <= j < i ==> KeyOf(sv, long, bucket[j]) != KeyOf(sv, long, d)
  }

  lemma FirstIsForemost(sv: Services, long: bool, bucket: seq<DirEnt>, d: DirEnt, k: nat)
    requires d in bucket && FirstMatch(sv, long, bucket, KeyOf(sv, long, d), k)
    ensures k < |bucket| && (bucket[k] == d <==> Foremost(sv, long, bucket, d))
  {
    hide KeyOf;
  }

  lemma BucketAfterUnlink(sv: Services, long: bool, bucket: seq<DirEnt>, bucket': seq<DirEnt>, h: nat, children: seq<DirEnt>, children': seq<DirEnt>, d: DirEnt, k: nat)
    requires BucketOk(sv, long, bucket, h, children) && d in bucket && FirstMatch(sv, long, bucket, KeyOf(sv, long, d), k)
    requires k < |bucket| && bucket' == Unlinked(bucket, k, d)
    requires forall e :: e in children' <==> e in children && e != d
    ensures BucketOk(sv, long, bucket', h, children') <==> bucket[k] == d
  {
    hide KeyOf, Hash, Unlinked, FirstMatch;
    UnlinkExact(sv, long, bucket, d, k);
  }

  /** Two entries with one key in a bucket: deleting the second one loses the first one as well. */
  lemma DuplicateLost(sv: Services, long: bool, a: DirEnt, d: DirEnt)
    requires a != d && KeyOf(sv, long, a) == KeyOf(sv, long, d)
    ensures FirstMatch(sv, long, [a, d], KeyOf(sv, long, d), 0) && Unlinked([a, d], 0, d) == []
    ensures !Foremost(sv, long, [a, d], d)
  {
    hide KeyOf;
    var bucket := [a, d];
    assert bucket[1..] == [d] && [d][1..] == [];
    assert After(bucket, d) == After([d], d) == [];
    assert bucket[..0] == [];
    assert bucket[0] == a && forall i :: 0 <= i < |bucket| && bucket[i] == d ==> i == 1;
  }
}
