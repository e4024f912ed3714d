/** A file as a byte sequence: which byte of the data area holds which byte of the file. */
module FileBytes {
  import opened Bytes
  import opened FatCodec
  import opened Chains

  /**
    Where a file lies: the clusters of its chain, `base` being the place of cluster MIN_CLUSTER in the
    data area; or, for the fixed root directory of FAT12 and FAT16, the start of the data area.
   */
  datatype Extent = Clusters(base: nat, clusterSize: nat, chain: seq<nat>) | FixedRoot(size: nat) {
    ghost function Capacity(): nat {
      match this
      case Clusters(_, cs, chain) => Mul(|chain|, cs)
      case FixedRoot(size) => size
    }

    /** The extent lies inside a data area of `n` bytes, and no cluster is used twice. */
    ghost predicate Fits(n: nat) {
      match this
      case Clusters(base, cs, chain) =>
        && 0 < cs && Distinct(chain)
        && forall i :: 0 <= i < |chain| ==> MIN_CLUSTER <= chain[i] && base + Mul(chain[i] - MIN_CLUSTER, cs) + cs <= n
      case FixedRoot(size) => size <= n
    }

    /** Position in the data area of byte `x` of the file. */
    ghost function Addr(x: nat): nat
      requires x < Capacity() && (Clusters? ==> 0 < clusterSize)
    {
      match this
      case Clusters(base, cs, chain) =>
        InChain(x, |chain|, cs);
        var c := chain[Div(x, cs)];
        base + Mul(if c < MIN_CLUSTER then 0 else c - MIN_CLUSTER, cs) + Mod(x, cs)
      case FixedRoot(_) => x
    }
  }

  lemma InChain(x: nat, n: nat, cs: nat)
    requires 0 < cs && x < Mul(n, cs)
    ensures Div(x, cs) < n
  {
    InPages(x, 0, n, cs);
  }

  lemma AddrInside(e: Extent, n: nat, x: nat)
    requires e.Fits(n) && x < e.Capacity()
    ensures e.Addr(x) < n
  {
    hide Mul, Div, Mod;
    if e.Clusters? {
      InChain(x, |e.chain|, e.clusterSize);
    }
  }

  /** Different bytes of a file are stored in different places. */
  lemma AddrInjective(e: Extent, n: nat, x: nat, y: nat)
    requires e.Fits(n) && x < e.Capacity() && y < e.Capacity() && e.Addr(x) == e.Addr(y)
    ensures x == y
  {
    hide Mul, Div, Mod;
    if e.Clusters? {
      var cs, i, j := e.clusterSize, Div(x, e.clusterSize), Div(y, e.clusterSize);
      InChain(x, |e.chain|, cs);
      InChain(y, |e.chain|, cs);
      var c, d := e.chain[i] - MIN_CLUSTER, e.chain[j] - MIN_CLUSTER;
      PageOffset(c, Mod(x, cs), cs);
      PageOffset(d, Mod(y, cs), cs);
      assert c == d;
      DivMod(x, cs);
      DivMod(y, cs);
    }
  }

  /** The bytes of the file, up to the end of its last cluster. */
  ghost function Content(e: Extent, data: seq<Byte>): (r: seq<Byte>)
    requires e.Fits(|data|)
    ensures |r| == e.Capacity()
  {
    seq(e.Capacity(), x requires 0 <= x < e.Capacity() => (AddrInside(e, |data|, x); data[e.Addr(x)]))
  }

  lemma ContentAt(e: Extent, data: seq<Byte>, x: nat)
    requires e.Fits(|data|) && x < e.Capacity()
    ensures e.Addr(x) < |data| && Content(e, data)[x] == data[e.Addr(x)]
  {
    AddrInside(e, |data|, x);
  }

  /** The bytes from `pos` on lie next to each other in the data area, starting at `at`. */
  ghost predicate Run(e: Extent, pos: nat, at: nat, len: nat)
    requires e.Clusters? ==> 0 < e.clusterSize
  {
    pos + len <= e.Capacity() && forall i :: pos <= i < pos + len ==> e.Addr(i) == at + (i - pos)
  }

  lemma RunInside(e: Extent, n: nat, pos: nat, at: nat, len: nat)
    requires e.Fits(n) && Run(e, pos, at, len) && 0 < len
    ensures at + len <= n
  {
    AddrInside(e, n, pos + len - 1);
  }

  /** Reading a run reads that slice of the file. */
  lemma ReadRun(e: Extent, data: seq<Byte>, pos: nat, at: nat, len: nat)
    requires e.Fits(|data|) && Run(e, pos, at, len) && at + len <= |data|
    ensures data[at..at + len] == Content(e, data)[pos..pos + len]
  {
    hide Content;
    ContentLength(e, data);
    var stored, bytes := data[at..at + len], Content(e, data)[pos..pos + len];
    forall i | 0 <= i < len
      ensures stored[i] == bytes[i]
    {
      ContentAt(e, data, pos + i);
    }
  }

  lemma ContentLength(e: Extent, data: seq<Byte>)
    requires e.Fits(|data|)
    ensures |Content(e, data)| == e.Capacity()
  {
  }

  /** Writing a run writes that slice of the file. */
  lemma WriteRun(e: Extent, data: seq<Byte>, pos: nat, at: nat, chunk: seq<Byte>)
    requires e.Fits(|data|) && Run(e, pos, at, |chunk|) && at + |chunk| <= |data|
    ensures Content(e, Splice(data, at, chunk)) == Splice(Content(e, data), pos, chunk)
  {
    var data' := Splice(data, at, chunk);
    forall x | 0 <= x < e.Capacity()
      ensures Content(e, data')[x] == Splice(Content(e, data), pos, chunk)[x]
    {
      WriteRunAt(e, data, pos, at, chunk, x);
    }
  }

  lemma WriteRunAt(e: Extent, data: seq<Byte>, pos: nat, at: nat, chunk: seq<Byte>, x: nat)
    requires e.Fits(|data|) && Run(e, pos, at, |chunk|) && at + |chunk| <= |data| && x < e.Capacity()
    ensures pos + |chunk| <= |Content(e, data)|
    ensures Content(e, Splice(data, at, chunk))[x] == Splice(Content(e, data), pos, chunk)[x]
  {
    hide Content;
    var data' := Splice(data, at, chunk);
    ContentLength(e, data);
    ContentAt(e, data, x);
    ContentAt(e, data', x);
    var a := e.Addr(x);
    if at <= a < at + |chunk| {
      AddrInjective(e, |data|, x, pos + (a - at));
    }
  }

  /** Bytes that no byte of the file from `pos` to `pos + len` occupies are the same. */
  ghost predicate SameElsewhere(e: Extent, data: seq<Byte>, data': seq<Byte>, pos: nat, len: nat)
    requires e.Clusters? ==> 0 < e.clusterSize
  {
    && |data'| == |data| && pos + len <= e.Capacity()
    && forall a :: 0 <= a < |data| && data'[a] != data[a] ==> exists x :: pos <= x < pos + len && e.Addr(x) == a
  }

  lemma WriteRunElsewhere(e: Extent, data: seq<Byte>, data': seq<Byte>, pos: nat, len: nat, at: nat, chunk: seq<Byte>)
    requires e.Fits(|data|) && SameElsewhere(e, data, data', pos, len)
    requires Run(e, pos + len, at, |chunk|) && at + |chunk| <= |data|
    ensures SameElsewhere(e, data, Splice(data', at, chunk), pos, len + |chunk|)
  {
    var data'' := Splice(data', at, chunk);
    forall a | 0 <= a < |data| && data''[a] != data[a]
      ensures exists x :: pos <= x < pos + len + |chunk| && e.Addr(x) == a
    {
      if at <= a < at + |chunk| {
        assert e.Addr(pos + len + (a - at)) == a;
      } else {
        var x :| pos <= x < pos + len && e.Addr(x) == a;
        assert pos <= x < pos + len + |chunk|;
      }
    }
  }

  /** A change inside a part of the file is a change inside the whole of it, up to `size`. */
  lemma SameElsewhereWiden(e: Extent, data: seq<Byte>, data': seq<Byte>, pos: nat, len: nat, size: nat)
    requires e.Clusters? ==> 0 < e.clusterSize
    requires SameElsewhere(e, data, data', pos, len) && pos + len <= size <= e.Capacity()
    ensures SameElsewhere(e, data, data', 0, size)
  {
    forall a | 0 <= a < |data| && data'[a] != data[a]
      ensures exists x :: 0 <= x < size && e.Addr(x) == a
    {
      var x :| pos <= x < pos + len && e.Addr(x) == a;
      assert 0 <= x < size;
    }
  }

  lemma SameElsewhereTrans(e: Extent, data0: seq<Byte>, data1: seq<Byte>, data2: seq<Byte>, size: nat)
    requires e.Clusters? ==> 0 < e.clusterSize
    requires SameElsewhere(e, data0, data1, 0, size) && SameElsewhere(e, data1, data2, 0, size)
    ensures SameElsewhere(e, data0, data2, 0, size)
  {
    forall a | 0 <= a < |data0| && data2[a] != data0[a]
      ensures exists x :: 0 <= x < size && e.Addr(x) == a
    {
      if data1[a] != data0[a] {
        var x :| 0 <= x < size && e.Addr(x) == a;
      } else {
        var x :| 0 <= x < size && e.Addr(x) == a;
      }
    }
  }

  lemma SameElsewhereJoin(e: Extent, data0: seq<Byte>, data1: seq<Byte>, data2: seq<Byte>, pos: nat, n: nat, m: nat)
    requires e.Clusters? ==> 0 < e.clusterSize
    requires SameElsewhere(e, data0, data1, pos, n) && SameElsewhere(e, data1, data2, pos + n, m)
    ensures SameElsewhere(e, data0, data2, pos, n + m)
  {
    forall a | 0 <= a < |data0| && data2[a] != data0[a]
      ensures exists x :: pos <= x < pos + n + m && e.Addr(x) == a
    {
      if data1[a] != data0[a] {
        var x :| pos <= x < pos + n && e.Addr(x) == a;
        assert pos <= x < pos + n + m;
      } else {
        var x :| pos + n <= x < pos + n + m && e.Addr(x) == a;
        assert pos <= x < pos + n + m;
      }
    }
  }

  /** A longer chain keeps the bytes of the shorter one. */
  lemma ContentPrefix(base: nat, cs: nat, chain: seq<nat>, added: seq<nat>, data: seq<Byte>)
    requires 0 < cs && Clusters(base, cs, chain).Fits(|data|) && Clusters(base, cs, chain + added).Fits(|data|)
    ensures Mul(|chain|, cs) <= Mul(|chain| + |added|, cs)
    ensures Content(Clusters(base, cs, chain + added), data)[..Mul(|chain|, cs)] == Content(Clusters(base, cs, chain), data)
  {
    hide Content, Mul, Div, Mod, Extent.Fits, Extent.Addr;
    var e, f := Clusters(base, cs, chain), Clusters(base, cs, chain + added);
    MulMono(|chain|, |chain| + |added|, cs);
    ContentLength(e, data);
    ContentLength(f, data);
    var longer, shorter := Content(f, data)[..Mul(|chain|, cs)], Content(e, data);
    forall x | 0 <= x < Mul(|chain|, cs)
      ensures longer[x] == shorter[x]
    {
      ContentAt(e, data, x);
      ContentAt(f, data, x);
      AddrPrefix(base, cs, chain, added, x);
    }
  }

  lemma AddrPrefix(base: nat, cs: nat, chain: seq<nat>, added: seq<nat>, x: nat)
    requires 0 < cs && x < Mul(|chain|, cs)
    ensures x < Mul(|chain| + |added|, cs)
    ensures Clusters(base, cs, chain + added).Addr(x) == Clusters(base, cs, chain).Addr(x)
  {
    hide Mul, Div, Mod;
    MulMono(|chain|, |chain| + |added|, cs);
    InChain(x, |chain|, cs);
  }

  /** Two files lie apart: chains without a common cluster, or the fixed root directory in front of all clusters. */
  ghost predicate Apart(e: Extent, other: Extent) {
    match (e, other)
    case (Clusters(b, cs, chain), Clusters(b', cs', chain')) => b == b' && cs == cs' && Disjoint(chain, chain')
    case (Clusters(b, _, _), FixedRoot(size)) => size <= b
    case (FixedRoot(size), Clusters(b, _, _)) => size <= b
    case (FixedRoot(_), FixedRoot(_)) => false
  }

  /** Files that lie apart do not see each other's writes. */
  lemma OtherFileKept(e: Extent, other: Extent, data: seq<Byte>, data': seq<Byte>, pos: nat, len: nat)
    requires e.Fits(|data|) && other.Fits(|data|) && SameElsewhere(e, data, data', pos, len) && Apart(e, other)
    ensures Content(other, data') == Content(other, data)
  {
    hide Content, Apart;
    ContentLength(other, data);
    ContentLength(other, data');
    forall x | 0 <= x < other.Capacity()
      ensures Content(other, data')[x] == Content(other, data)[x]
    {
      ContentAt(other, data, x);
      ContentAt(other, data', x);
      var a := other.Addr(x);
      if data'[a] != data[a] {
        var y :| pos <= y < pos + len && e.Addr(y) == a;
        ApartAddr(e, other, |data|, y, x);
      }
    }
  }

  lemma ApartAddr(e: Extent, other: Extent, n: nat, x: nat, y: nat)
    requires Apart(e, other) && e.Fits(n) && other.Fits(n) && x < e.Capacity() && y < other.Capacity()
    ensures e.Addr(x) != other.Addr(y)
  {
    hide Mul, Div, Mod;
    if e.Clusters? && other.Clusters? {
      var cs := e.clusterSize;
      InChain(x, |e.chain|, cs);
      InChain(y, |other.chain|, cs);
      PageOffset(e.chain[Div(x, cs)] - MIN_CLUSTER, Mod(x, cs), cs);
      PageOffset(other.chain[Div(y, cs)] - MIN_CLUSTER, Mod(y, cs), cs);
    }
  }

  /** The clusters from the `k`th on follow each other on the disk for `m` clusters. */
  ghost predicate Consecutive(chain: seq<nat>, k: nat, m: nat) {
    k + m <= |chain| && forall i :: k <= i < k + m ==> chain[i] == chain[k] + (i - k)
  }

  /** Consecutive clusters hold a run of bytes: from `pos` in the `k`th cluster to the end of the last one. */
  lemma ConsecutiveRun(e: Extent, k: nat, m: nat, pos: nat)
    requires e.Clusters? && 0 < e.clusterSize && 0 < m && Consecutive(e.chain, k, m) && MIN_CLUSTER <= e.chain[k]
    requires Mul(k, e.clusterSize) <= pos < Mul(k, e.clusterSize) + e.clusterSize
    ensures pos < Mul(k + m, e.clusterSize) <= e.Capacity()
    ensures var off := pos - Mul(k, e.clusterSize);
      Run(e, pos, e.base + Mul(e.chain[k] - MIN_CLUSTER, e.clusterSize) + off, Mul(k + m, e.clusterSize) - pos)
  {
    hide Mul, Div, Mod;
    var cs := e.clusterSize;
    MulMono(k + m, |e.chain|, cs);
    MulMono(k, k + m, cs);
    var at := e.base + Mul(e.chain[k] - MIN_CLUSTER, cs) + (pos - Mul(k, cs));
    forall x | pos <= x < Mul(k + m, cs)
      ensures e.Addr(x) == at + (x - pos)
    {
      InPages(x, k, k + m, cs);
      var i := Div(x, cs);
      DivMod(x, cs);
      MulAdd(k, i - k, cs);
      MulAdd(e.chain[k] - MIN_CLUSTER, i - k, cs);
      assert e.chain[i] == e.chain[k] + (i - k);
    }
  }
}
