/** Bytes, byte-sequence updates and the page arithmetic that the disk cache and the file layer share. */
module Bytes {

  type Byte = b: int | 0 <= b < 256

  /** EFI status codes that the modelled routines return. */
  datatype Status = Success | VolumeCorrupted | VolumeFull | Unsupported | DeviceError | WriteProtected | AccessDenied | NotFound

  /** `s` with the elements from `at` on replaced by `data`. */
  function Splice<T>(s: seq<T>, at: nat, data: seq<T>): (r: seq<T>)
    requires at + |data| <= |s|
    ensures |r| == |s|
    ensures forall i :: 0 <= i < |s| ==> r[i] == if at <= i < at + |data| then data[i - at] else s[i]
  {
    seq(|s|, i requires 0 <= i < |s| => if at <= i < at + |data| then data[i - at] else s[i])
  }

  /** Two adjacent splices are one splice of the concatenation. */
  lemma SpliceJoin<T>(s: seq<T>, at: nat, a: seq<T>, b: seq<T>)
    requires at + |a| + |b| <= |s|
    ensures Splice(Splice(s, at, a), at + |a|, b) == Splice(s, at, a + b)
  {
  }

  lemma SpliceSlice<T>(s: seq<T>, at: nat, data: seq<T>)
    requires at + |data| <= |s|
    ensures Splice(s, at, data)[at..at + |data|] == data
  {
  }

  // ---------------------------------------------------------------- shifts by a page size
  //
  // The driver shifts and masks by powers of two that are only known at mount time. Mul, Div and
  // Mod say what those shifts compute for any page size; ShiftsAreArithmetic ties them to *, / and %.

  /** k * n: LShiftU64 by the alignment of a page of n bytes. */
  function Mul(k: nat, n: nat): nat {
    if k == 0 then 0 else Mul(k - 1, n) + n
  }

  /** o / n: RShiftU64. */
  function Div(o: nat, n: nat): nat
    requires 0 < n
  {
    if o < n then 0 else Div(o - n, n) + 1
  }

  /** o % n: the mask of the low bits. */
  function Mod(o: nat, n: nat): (r: nat)
    requires 0 < n
    ensures r < n
  {
    if o < n then o else Mod(o - n, n)
  }

  lemma {:induction false} MulIsProduct(k: nat, n: nat)
    ensures Mul(k, n) == k * n
  {
    if k > 0 {
      MulIsProduct(k - 1, n);
      assert (k - 1) * n + n == k * n;
    }
  }

  /** Mul, Div and Mod are multiplication, quotient and remainder. */
  lemma {:induction false} ShiftsAreArithmetic(o: nat, n: nat)
    requires 0 < n
    ensures Mul(o, n) == o * n && Div(o, n) == o / n && Mod(o, n) == o % n
  {
    MulIsProduct(o, n);
    if o >= n {
      ShiftsAreArithmetic(o - n, n);
      DropOne(o, n);
    }
  }

  lemma DropOne(o: nat, n: nat)
    requires 0 < n <= o
    ensures (o - n) / n + 1 == o / n && (o - n) % n == o % n
  {
    var q, r := (o - n) / n, (o - n) % n;
    QuotientUnique(o, n, q + 1, r);
  }

  lemma QuotientUnique(o: nat, n: nat, q: nat, r: nat)
    requires 0 < n && r < n && o == q * n + r
    ensures o / n == q && o % n == r
  {
    var q' := o / n;
    assert q' * n + o % n == o;
    assert q < q' ==> (q + 1) * n <= q' * n;
    assert q' < q ==> (q' + 1) * n <= q * n;
  }

  lemma {:induction false} MulMono(a: nat, b: nat, n: nat)
    requires a <= b
    ensures Mul(a, n) <= Mul(b, n)
    ensures a < b ==> Mul(a, n) + n <= Mul(b, n)
  {
    if a < b {
      MulMono(a, b - 1, n);
    }
  }

  lemma MulSmall(n: nat)
    ensures Mul(0, n) == 0 && Mul(1, n) == n
  {
  }

  lemma {:induction false} MulAdd(a: nat, b: nat, n: nat)
    ensures Mul(a + b, n) == Mul(a, n) + Mul(b, n)
  {
    if b > 0 {
      MulAdd(a, b - 1, n);
    }
  }

  lemma {:induction false} DivMod(o: nat, n: nat)
    requires 0 < n
    ensures o == Mul(Div(o, n), n) + Mod(o, n)
  {
    if o >= n {
      DivMod(o - n, n);
    }
  }

  /** The quotient is the only page that holds offset `o`. */
  lemma PageUnique(o: nat, n: nat, p: nat)
    requires 0 < n
    ensures o == Mul(Div(o, n), n) + Mod(o, n)
    ensures Mul(p, n) <= o < Mul(p, n) + n <==> Div(o, n) == p
  {
    DivMod(o, n);
    var q := Div(o, n);
    if p < q {
      MulMono(p, q, n);
    } else if q < p {
      MulMono(q, p, n);
    }
  }

  /** Offset `k` inside page `p`. */
  lemma PageOffset(p: nat, k: nat, n: nat)
    requires k < n
    ensures Div(Mul(p, n) + k, n) == p && Mod(Mul(p, n) + k, n) == k
  {
    PageUnique(Mul(p, n) + k, n, p);
  }

  /** Offsets covered by the pages from `first` up to `last`. */
  lemma InPages(o: nat, first: nat, last: nat, n: nat)
    requires 0 < n && first <= last
    ensures Mul(first, n) <= o < Mul(last, n) <==> first <= Div(o, n) < last
  {
    var q := Div(o, n);
    DivMod(o, n);
    if q < first { MulMono(q, first, n); } else { MulMono(first, q, n); }
    if q < last { MulMono(q, last, n); } else { MulMono(last, q, n); }
  }
}
