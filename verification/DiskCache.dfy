/**
  The write-back disk cache (DiskCache.c): a direct-mapped cache of pages over one region of the
  volume. A region is the first FAT, mirrored `copies` times on the disk, or the data area, which
  has a single copy. `View` is the region as a caller sees it: cached pages over the disk.
 */
module DiskCaching {
  import opened Bytes

  datatype IoMode = ReadDisk | WriteDisk

  datatype CacheTag = CacheTag(pageNo: nat, realSize: nat, dirty: bool)

  datatype Layout = Layout(base: nat, size: nat, copies: nat, pageSize: nat, groups: nat, volumeSize: nat) {
    ghost predicate Ok() {
      0 < pageSize && 0 < groups && 0 < copies && base + size <= End() <= volumeSize
    }

    /** First address behind the last copy of the region. */
    function End(): nat {
      base + Mul(copies, size)
    }

    /** Address of byte `x` of copy `k`. */
    function Addr(k: nat, x: nat): nat {
      base + Mul(k, size) + x
    }

    /** Length of page `p`: a full page, or less for the page clipped by the end of the region. */
    function PageLen(p: nat): nat
      requires Mul(p, pageSize) <= size
    {
      if size - Mul(p, pageSize) < pageSize then size - Mul(p, pageSize) else pageSize
    }
  }

  lemma AddrBounds(l: Layout, k: nat, x: nat)
    requires k < l.copies && x < l.size
    ensures l.base <= l.Addr(k, x) < l.End()
    ensures l.Addr(0, x) == l.base + x
  {
    hide Div, Mod;
    MulMono(k, l.copies, l.size);
  }

  lemma NextAddr(l: Layout, k: nat, x: nat)
    ensures l.Addr(k + 1, x) == l.Addr(k, x) + l.size && l.Addr(0, x) == l.base + x
  {
  }

  /** Copies do not overlap. */
  lemma AddrInjective(l: Layout, j: nat, x: nat, k: nat, y: nat)
    requires x < l.size && y < l.size
    ensures l.Addr(j, x) == l.Addr(k, y) <==> j == k && x == y
    ensures j < k ==> l.Addr(j, x) < l.Addr(k, y)
  {
    hide Mul, Div, Mod;
    if j < k {
      MulMono(j, k, l.size);
    } else if k < j {
      MulMono(k, j, l.size);
    }
  }

  // ---------------------------------------------------------------- the cached region as a value

  ghost predicate Shape(l: Layout, tags: seq<CacheTag>, pages: seq<seq<Byte>>, disk: seq<Byte>) {
    && l.Ok()
    && |tags| == |pages| == l.groups
    && |disk| == l.volumeSize
    && forall g :: 0 <= g < l.groups ==> |pages[g]| == l.pageSize
  }

  /** A valid tag names an existing page of its own group; a clean page equals the disk. */
  ghost predicate TagOk(l: Layout, tag: CacheTag, page: seq<Byte>, g: nat, disk: seq<Byte>)
    requires l.Ok() && |page| == l.pageSize && |disk| == l.volumeSize
  {
    tag.realSize > 0 ==>
      && Mod(tag.pageNo, l.groups) == g
      && Mul(tag.pageNo, l.pageSize) < l.size
      && tag.realSize == l.PageLen(tag.pageNo)
      && (!tag.dirty ==> PageOnDisk(l, tag.pageNo, page, disk))
  }

  /** The first copy on the disk holds `page` as page `p`. */
  ghost predicate PageOnDisk(l: Layout, p: nat, page: seq<Byte>, disk: seq<Byte>)
    requires l.Ok() && |page| == l.pageSize && |disk| == l.volumeSize && Mul(p, l.pageSize) < l.size
  {
    forall i :: 0 <= i < l.PageLen(p) ==>
      (AddrBounds(l, 0, Mul(p, l.pageSize) + i); disk[l.base + Mul(p, l.pageSize) + i] == page[i])
  }

  ghost predicate Inv(l: Layout, tags: seq<CacheTag>, pages: seq<seq<Byte>>, disk: seq<Byte>) {
    && Shape(l, tags, pages, disk)
    && forall g :: 0 <= g < l.groups ==> TagOk(l, tags[g], pages[g], g, disk)
  }

  lemma InvShape(l: Layout, tags: seq<CacheTag>, pages: seq<seq<Byte>>, disk: seq<Byte>)
    requires Inv(l, tags, pages, disk)
    ensures Shape(l, tags, pages, disk)
  {
  }

  ghost predicate Caches(l: Layout, tags: seq<CacheTag>, p: nat)
    requires 0 < l.groups == |tags|
  {
    tags[Mod(p, l.groups)].realSize > 0 && tags[Mod(p, l.groups)].pageNo == p
  }

  ghost function ViewByte(l: Layout, tags: seq<CacheTag>, pages: seq<seq<Byte>>, disk: seq<Byte>, o: nat): Byte
    requires Shape(l, tags, pages, disk) && o < l.size
  {
    AddrBounds(l, 0, o);
    var p := Div(o, l.pageSize);
    if Caches(l, tags, p) then pages[Mod(p, l.groups)][Mod(o, l.pageSize)] else disk[l.base + o]
  }

  ghost function ViewOf(l: Layout, tags: seq<CacheTag>, pages: seq<seq<Byte>>, disk: seq<Byte>): (v: seq<Byte>)
    requires Shape(l, tags, pages, disk)
    ensures |v| == l.size
    ensures forall o :: 0 <= o < l.size ==> v[o] == ViewByte(l, tags, pages, disk, o)
  {
    seq(l.size, o requires 0 <= o < l.size => ViewByte(l, tags, pages, disk, o))
  }

  /** Every copy of the region equals the first one. */
  ghost predicate Mirrored(l: Layout, disk: seq<Byte>)
    requires l.Ok() && |disk| == l.volumeSize
  {
    forall k, x :: 0 <= k < l.copies && 0 <= x < l.size ==>
      (AddrBounds(l, k, x); disk[l.Addr(k, x)] == disk[l.base + x])
  }

  /** Bytes outside the region and its copies are the same in both disks. */
  ghost predicate SameOutside(l: Layout, disk: seq<Byte>, disk': seq<Byte>) {
    |disk| == |disk'| && forall a :: 0 <= a < |disk| && !(l.base <= a < l.End()) ==> disk[a] == disk'[a]
  }

  /** `disk'` is `disk` with `data` written at offset `o` of the first `k` copies. */
  ghost predicate CopiesWritten(l: Layout, disk: seq<Byte>, disk': seq<Byte>, k: nat, o: nat, data: seq<Byte>)
    requires l.Ok() && |disk| == l.volumeSize && o + |data| <= l.size
  {
    && SameOutside(l, disk, disk')
    && forall j, x :: 0 <= j < l.copies && 0 <= x < l.size ==>
         (AddrBounds(l, j, x);
          disk'[l.Addr(j, x)] == if j < k && o <= x < o + |data| then data[x - o] else disk[l.Addr(j, x)])
  }

  lemma WriteNextCopyAt(l: Layout, disk': seq<Byte>, k: nat, o: nat, data: seq<Byte>, j: nat, x: nat)
    requires l.Ok() && |disk'| == l.volumeSize && o + |data| <= l.size && k < l.copies && 0 < |data|
    requires j < l.copies && x < l.size
    ensures l.Addr(k, o) + |data| <= l.Addr(k, 0) + l.size <= l.End() && l.Addr(j, x) < l.End()
    ensures Splice(disk', l.Addr(k, o), data)[l.Addr(j, x)] ==
            if j == k && o <= x < o + |data| then data[x - o] else disk'[l.Addr(j, x)]
  {
    hide Mul, Div, Mod;
    AddrBounds(l, k, o + |data| - 1);
    NextAddr(l, k, 0);
    MulMono(k, l.copies, l.size);
    AddrBounds(l, j, x);
    AddrInjective(l, j, x, k, o);
    AddrInjective(l, k, o + |data| - 1, j, x);
  }

  lemma WriteNextCopy(l: Layout, disk: seq<Byte>, disk': seq<Byte>, k: nat, o: nat, data: seq<Byte>)
    requires l.Ok() && |disk| == l.volumeSize && o + |data| <= l.size && k < l.copies && 0 < |data|
    requires CopiesWritten(l, disk, disk', k, o, data)
    ensures l.base <= l.Addr(k, o) && l.Addr(k, o) + |data| <= l.Addr(k, 0) + l.size <= l.End() <= |disk'|
    ensures CopiesWritten(l, disk, Splice(disk', l.Addr(k, o), data), k + 1, o, data)
  {
    hide Mul, Div, Mod;
    WriteNextCopyAt(l, disk', k, o, data, 0, 0);
    forall j, x | 0 <= j < l.copies && 0 <= x < l.size
      ensures l.Addr(j, x) < l.End()
      ensures Splice(disk', l.Addr(k, o), data)[l.Addr(j, x)] ==
              if j < k + 1 && o <= x < o + |data| then data[x - o] else disk[l.Addr(j, x)]
    {
      WriteNextCopyAt(l, disk', k, o, data, j, x);
    }
  }

  /** The first copy after page `p` was written back, offset by offset. */
  lemma WrittenBackAt(l: Layout, disk: seq<Byte>, disk': seq<Byte>, p: nat, page: seq<Byte>, x: nat)
    requires l.Ok() && |disk| == l.volumeSize && |page| == l.pageSize && Mul(p, l.pageSize) < l.size && x < l.size
    requires CopiesWritten(l, disk, disk', l.copies, Mul(p, l.pageSize), page[..l.PageLen(p)])
    ensures l.base + x < l.End()
    ensures disk'[l.base + x] == if Div(x, l.pageSize) == p then page[Mod(x, l.pageSize)] else disk[l.base + x]
  {
    hide Mul, Div, Mod;
    AddrBounds(l, 0, x);
    PageUnique(x, l.pageSize, p);
  }

  lemma WriteBackTagOk(l: Layout, disk: seq<Byte>, disk': seq<Byte>, p: nat, page: seq<Byte>,
                       tag: CacheTag, page': seq<Byte>, h: nat)
    requires l.Ok() && |disk| == l.volumeSize && |page| == |page'| == l.pageSize && Mul(p, l.pageSize) < l.size
    requires CopiesWritten(l, disk, disk', l.copies, Mul(p, l.pageSize), page[..l.PageLen(p)])
    requires tag.realSize > 0 && tag.pageNo == p ==> page' == page
    requires TagOk(l, tag, page', h, disk)
    ensures TagOk(l, tag, page', h, disk')
    ensures TagOk(l, if tag.realSize > 0 && tag.pageNo == p then tag.(dirty := false) else tag, page', h, disk')
  {
    hide Mul, Div, Mod;
    if tag.realSize > 0 && (!tag.dirty || tag.pageNo == p) {
      var q := tag.pageNo;
      forall i | 0 <= i < l.PageLen(q)
        ensures l.base + Mul(q, l.pageSize) + i < l.End() && disk'[l.base + Mul(q, l.pageSize) + i] == page'[i]
      {
        WrittenBackAt(l, disk, disk', p, page, Mul(q, l.pageSize) + i);
        PageOffset(q, i, l.pageSize);
      }
    }
  }

  lemma WriteBackMirrors(l: Layout, disk: seq<Byte>, disk': seq<Byte>, o: nat, data: seq<Byte>)
    requires l.Ok() && |disk| == l.volumeSize && o + |data| <= l.size
    requires CopiesWritten(l, disk, disk', l.copies, o, data) && Mirrored(l, disk)
    ensures Mirrored(l, disk')
  {
    hide Mul, Div, Mod;
    forall k, x | 0 <= k < l.copies && 0 <= x < l.size
      ensures l.Addr(k, x) < l.End() && l.base + x < l.End() && disk'[l.Addr(k, x)] == disk'[l.base + x]
    {
      AddrBounds(l, k, x);
      AddrBounds(l, 0, x);
    }
  }

  /** Writing a page back to all copies cleans it without changing the view, and keeps the mirrors equal. */
  lemma WriteBackKeeps(l: Layout, tags: seq<CacheTag>, pages: seq<seq<Byte>>, disk: seq<Byte>, disk': seq<Byte>, g: nat)
    requires Inv(l, tags, pages, disk) && g < l.groups && tags[g].realSize > 0
    requires CopiesWritten(l, disk, disk', l.copies, Mul(tags[g].pageNo, l.pageSize), pages[g][..tags[g].realSize])
    ensures Inv(l, tags[g := tags[g].(dirty := false)], pages, disk')
    ensures ViewOf(l, tags[g := tags[g].(dirty := false)], pages, disk') == ViewOf(l, tags, pages, disk)
    ensures Mirrored(l, disk) ==> Mirrored(l, disk')
  {
    hide Mul, Div, Mod;
    var p := tags[g].pageNo;
    var tags' := tags[g := tags[g].(dirty := false)];
    forall h | 0 <= h < l.groups
      ensures TagOk(l, tags'[h], pages[h], h, disk')
    {
      assert TagOk(l, tags[h], pages[h], h, disk);
      WriteBackTagOk(l, disk, disk', p, pages[g], tags[h], pages[h], h);
    }
    forall o | 0 <= o < l.size
      ensures ViewByte(l, tags', pages, disk', o) == ViewByte(l, tags, pages, disk, o)
    {
      WrittenBackAt(l, disk, disk', p, pages[g], o);
    }
    if Mirrored(l, disk) {
      WriteBackMirrors(l, disk, disk', Mul(p, l.pageSize), pages[g][..tags[g].realSize]);
    }
  }

  /** Filling a clean or invalid slot with the disk's image of page `p` does not change the view. */
  lemma LoadKeeps(l: Layout, tags: seq<CacheTag>, pages: seq<seq<Byte>>, disk: seq<Byte>, p: nat, page: seq<Byte>)
    requires Inv(l, tags, pages, disk) && Mul(p, l.pageSize) < l.size
    requires var tag := tags[Mod(p, l.groups)]; tag.realSize > 0 ==> !tag.dirty
    requires |page| == l.pageSize && PageOnDisk(l, p, page, disk)
    ensures var g := Mod(p, l.groups);
      var tags' := tags[g := CacheTag(p, l.PageLen(p), false)];
      && Inv(l, tags', pages[g := page], disk)
      && ViewOf(l, tags', pages[g := page], disk) == ViewOf(l, tags, pages, disk)
  {
    hide Mul, Div, Mod;
    var g := Mod(p, l.groups);
    var tags', pages' := tags[g := CacheTag(p, l.PageLen(p), false)], pages[g := page];
    forall h | 0 <= h < l.groups
      ensures TagOk(l, tags'[h], pages'[h], h, disk)
    {
      assert TagOk(l, tags[h], pages[h], h, disk);
    }
    assert TagOk(l, tags[g], pages[g], g, disk);
    forall o | 0 <= o < l.size
      ensures ViewByte(l, tags', pages', disk, o) == ViewByte(l, tags, pages, disk, o)
    {
      var q := Div(o, l.pageSize);
      PageUnique(o, l.pageSize, q);
      AddrBounds(l, 0, o);
      if Mod(q, l.groups) == g {
        assert Caches(l, tags, q) ==> PageOnDisk(l, q, pages[g], disk);
        assert l.base + Mul(q, l.pageSize) + Mod(o, l.pageSize) == l.base + o;
      }
    }
  }

  /** Overwriting bytes of a cached page is a write to the view at exactly those bytes. */
  lemma PokeUpdates(l: Layout, tags: seq<CacheTag>, pages: seq<seq<Byte>>, disk: seq<Byte>, p: nat, off: nat, data: seq<Byte>)
    requires Inv(l, tags, pages, disk) && Caches(l, tags, p)
    requires Mul(p, l.pageSize) < l.size && off + |data| <= l.PageLen(p)
    ensures var g := Mod(p, l.groups);
      var tags' := tags[g := tags[g].(dirty := true)];
      var pages' := pages[g := Splice(pages[g], off, data)];
      && Inv(l, tags', pages', disk)
      && ViewOf(l, tags', pages', disk) == Splice(ViewOf(l, tags, pages, disk), Mul(p, l.pageSize) + off, data)
  {
    hide Mul, Div, Mod;
    var g := Mod(p, l.groups);
    var tags', pages' := tags[g := tags[g].(dirty := true)], pages[g := Splice(pages[g], off, data)];
    forall h | 0 <= h < l.groups
      ensures TagOk(l, tags'[h], pages'[h], h, disk)
    {
      assert TagOk(l, tags[h], pages[h], h, disk);
    }
    var v, w := ViewOf(l, tags, pages, disk), Splice(ViewOf(l, tags, pages, disk), Mul(p, l.pageSize) + off, data);
    forall o | 0 <= o < l.size
      ensures ViewByte(l, tags', pages', disk, o) == w[o]
    {
      PageUnique(o, l.pageSize, p);
      assert v[o] == ViewByte(l, tags, pages, disk, o);
    }
  }

  /** A cached page read in place is the view at those bytes. */
  lemma PeekReads(l: Layout, tags: seq<CacheTag>, pages: seq<seq<Byte>>, disk: seq<Byte>, p: nat, off: nat, len: nat)
    requires Inv(l, tags, pages, disk) && Caches(l, tags, p)
    requires Mul(p, l.pageSize) < l.size && off + len <= l.PageLen(p)
    ensures pages[Mod(p, l.groups)][off..off + len] == ViewOf(l, tags, pages, disk)[Mul(p, l.pageSize) + off..Mul(p, l.pageSize) + off + len]
  {
    hide Mul, Div, Mod;
    var v, at, page := ViewOf(l, tags, pages, disk), Mul(p, l.pageSize), pages[Mod(p, l.groups)];
    forall i | off <= i < off + len
      ensures page[i] == v[at + i]
    {
      PageOffset(p, i, l.pageSize);
      assert v[at + i] == ViewByte(l, tags, pages, disk, at + i);
    }
    assert page[off..off + len] == v[at + off..at + off + len];
  }

  /** Tags of pages in [first, last) lose their contents; all others stay. */
  ghost function Dropped(tags: seq<CacheTag>, first: nat, last: nat): (r: seq<CacheTag>)
    ensures |r| == |tags|
  {
    seq(|tags|, g requires 0 <= g < |tags| =>
      if tags[g].realSize > 0 && first <= tags[g].pageNo < last then tags[g].(realSize := 0) else tags[g])
  }

  lemma BypassTagOk(l: Layout, disk: seq<Byte>, disk': seq<Byte>, first: nat, last: nat, tag: CacheTag, page: seq<Byte>, g: nat)
    requires l.Ok() && |disk| == |disk'| == l.volumeSize && |page| == l.pageSize && l.base + l.size <= l.volumeSize
    requires forall x :: 0 <= x < l.size && !(first <= Div(x, l.pageSize) < last) ==> disk'[l.base + x] == disk[l.base + x]
    requires TagOk(l, tag, page, g, disk) && !(tag.realSize > 0 && first <= tag.pageNo < last)
    ensures TagOk(l, tag, page, g, disk')
  {
    hide Mul, Div, Mod;
    if tag.realSize > 0 && !tag.dirty {
      var q := tag.pageNo;
      forall i | 0 <= i < l.PageLen(q)
        ensures disk'[l.base + Mul(q, l.pageSize) + i] == page[i]
      {
        PageOffset(q, i, l.pageSize);
        assert disk'[l.base + (Mul(q, l.pageSize) + i)] == disk[l.base + (Mul(q, l.pageSize) + i)];
      }
    }
  }

  /** A whole-page write that goes around the cache, followed by dropping the overlapped pages. */
  lemma BypassWrite(l: Layout, tags: seq<CacheTag>, pages: seq<seq<Byte>>, disk: seq<Byte>, first: nat, last: nat, data: seq<Byte>)
    requires Inv(l, tags, pages, disk) && l.copies == 1
    requires first <= last && Mul(last, l.pageSize) <= l.size && |data| == Mul(last, l.pageSize) - Mul(first, l.pageSize)
    ensures l.base + Mul(first, l.pageSize) + |data| <= |disk|
    ensures var disk' := Splice(disk, l.base + Mul(first, l.pageSize), data);
      && SameOutside(l, disk, disk')
      && Inv(l, Dropped(tags, first, last), pages, disk')
      && ViewOf(l, Dropped(tags, first, last), pages, disk') == Splice(ViewOf(l, tags, pages, disk), Mul(first, l.pageSize), data)
  {
    hide Mul, Div, Mod;
    MulMono(first, last, l.pageSize);
    var tags', disk' := Dropped(tags, first, last), Splice(disk, l.base + Mul(first, l.pageSize), data);
    forall x | 0 <= x < l.size && !(first <= Div(x, l.pageSize) < last)
      ensures disk'[l.base + x] == disk[l.base + x]
    {
      InPages(x, first, last, l.pageSize);
    }
    forall g | 0 <= g < l.groups
      ensures TagOk(l, tags'[g], pages[g], g, disk')
    {
      assert TagOk(l, tags[g], pages[g], g, disk);
      if tags'[g] == tags[g] && !(tags[g].realSize > 0 && first <= tags[g].pageNo < last) {
        BypassTagOk(l, disk, disk', first, last, tags[g], pages[g], g);
      }
    }
    var v, w := ViewOf(l, tags, pages, disk), Splice(ViewOf(l, tags, pages, disk), Mul(first, l.pageSize), data);
    forall o | 0 <= o < l.size
      ensures ViewByte(l, tags', pages, disk', o) == w[o]
    {
      InPages(o, first, last, l.pageSize);
      assert v[o] == ViewByte(l, tags, pages, disk, o);
    }
  }

  /** Page `p` of the region as a read that bypasses the cache must deliver it. */
  ghost function PageImage(l: Layout, tags: seq<CacheTag>, pages: seq<seq<Byte>>, disk: seq<Byte>, p: nat): (r: seq<Byte>)
    requires Shape(l, tags, pages, disk) && l.base + Mul(p, l.pageSize) + l.pageSize <= |disk|
    ensures |r| == l.pageSize
  {
    if Caches(l, tags, p) && tags[Mod(p, l.groups)].dirty then pages[Mod(p, l.groups)]
    else disk[l.base + Mul(p, l.pageSize)..l.base + Mul(p, l.pageSize) + l.pageSize]
  }

  lemma ViewPage(l: Layout, tags: seq<CacheTag>, pages: seq<seq<Byte>>, disk: seq<Byte>, p: nat)
    requires Inv(l, tags, pages, disk) && Mul(p, l.pageSize) + l.pageSize <= l.size
    ensures l.base + Mul(p, l.pageSize) + l.pageSize <= |disk|
    ensures ViewOf(l, tags, pages, disk)[Mul(p, l.pageSize)..Mul(p, l.pageSize) + l.pageSize] == PageImage(l, tags, pages, disk, p)
  {
    hide Mul, Div, Mod;
    var v, at := ViewOf(l, tags, pages, disk), Mul(p, l.pageSize);
    assert TagOk(l, tags[Mod(p, l.groups)], pages[Mod(p, l.groups)], Mod(p, l.groups), disk);
    forall i | 0 <= i < l.pageSize
      ensures v[at + i] == PageImage(l, tags, pages, disk, p)[i]
    {
      PageOffset(p, i, l.pageSize);
      assert v[at + i] == ViewByte(l, tags, pages, disk, at + i);
    }
    assert v[at..at + l.pageSize] == PageImage(l, tags, pages, disk, p);
  }

  /** The first `off` bytes of the read buffer agree with the view, the others are still those of the disk. */
  ghost predicate Patched(v: seq<Byte>, buffer: seq<Byte>, out: seq<Byte>, at: nat, off: nat) {
    |out| == |buffer| && off <= |buffer| && at + |buffer| <= |v| && out[..off] == v[at..at + off] && out[off..] == buffer[off..]
  }

  lemma PatchStart(v: seq<Byte>, buffer: seq<Byte>, at: nat)
    requires at + |buffer| <= |v|
    ensures Patched(v, buffer, buffer, at, 0)
  {
  }

  lemma PatchAll(v: seq<Byte>, buffer: seq<Byte>, out: seq<Byte>, at: nat)
    requires Patched(v, buffer, out, at, |buffer|)
    ensures at + |buffer| <= |v| && out == v[at..at + |buffer|]
  {
    assert out[..|buffer|] == out;
  }

  /** One more page of the read buffer agrees with the view. */
  lemma PatchStep(v: seq<Byte>, buffer: seq<Byte>, was: seq<Byte>, page: seq<Byte>, at: nat, off: nat)
    requires Patched(v, buffer, was, at, off) && off + |page| <= |buffer| && page == v[at + off..at + off + |page|]
    ensures off + |page| <= |was| && Patched(v, buffer, Splice(was, off, page), at, off + |page|)
  {
    var out := Splice(was, off, page);
    assert forall i :: 0 <= i < off ==> was[i] == was[..off][i] == v[at + i];
    assert forall i :: off <= i < |was| ==> was[i] == was[off..][i - off] == buffer[i];
  }

  lemma PatchLength(v: seq<Byte>, buffer: seq<Byte>, out: seq<Byte>, at: nat, off: nat)
    requires Patched(v, buffer, out, at, off)
    ensures |out| == |buffer|
  {
  }

  /** A page without a dirty copy is already in the buffer. */
  lemma PatchSame(v: seq<Byte>, buffer: seq<Byte>, was: seq<Byte>, disk: seq<Byte>, start: nat, at: nat, off: nat, ps: nat)
    requires Patched(v, buffer, was, at, off) && off + ps <= |buffer| && start + |buffer| <= |disk|
    requires buffer == disk[start..start + |buffer|] && v[at + off..at + off + ps] == disk[start + off..start + off + ps]
    ensures Patched(v, buffer, was, at, off + ps)
  {
    var page := v[at + off..at + off + ps];
    assert forall i :: off <= i < |was| ==> was[i] == was[off..][i - off] == buffer[i] == disk[start + i];
    assert forall i :: 0 <= i < ps ==> page[i] == disk[start + off..start + off + ps][i];
    assert Splice(was, off, page) == was;
    PatchStep(v, buffer, was, page, at, off);
  }

  /** The first `n` bytes of an access at `e` are done: `v` is the view now, `v0` before. */
  ghost predicate Done(mode: IoMode, v0: seq<Byte>, v: seq<Byte>, e: nat, n: nat, buffer: seq<Byte>, out: seq<Byte>) {
    && n <= |buffer| == |out| && e + |buffer| <= |v0| == |v|
    && (mode.ReadDisk? ==> v == v0 && out[..n] == v0[e..e + n])
    && (mode.WriteDisk? ==> v == Splice(v0, e, buffer[..n]) && out == buffer)
  }

  lemma DoneShape(mode: IoMode, v0: seq<Byte>, v: seq<Byte>, e: nat, n: nat, buffer: seq<Byte>, out: seq<Byte>)
    requires Done(mode, v0, v, e, n, buffer, out)
    ensures n <= |buffer| == |out| && e + |buffer| <= |v0| == |v|
  {
  }

  /** A further `|part|` bytes. */
  lemma DoneMore(mode: IoMode, v0: seq<Byte>, v1: seq<Byte>, v2: seq<Byte>, e: nat, n: nat, buffer: seq<Byte>, out: seq<Byte>, part: seq<Byte>)
    requires Done(mode, v0, v1, e, n, buffer, out) && n + |part| <= |buffer|
    requires mode.ReadDisk? ==> v2 == v1 && part == v1[e + n..e + n + |part|]
    requires mode.WriteDisk? ==> part == buffer[n..n + |part|] && v2 == Splice(v1, e + n, part)
    ensures Done(mode, v0, v2, e, n + |part|, buffer, out[..n] + part + out[n + |part|..])
  {
    hide Mul, Div, Mod;
    if mode.ReadDisk? {
      assert (out[..n] + part + out[n + |part|..])[..n + |part|] == out[..n] + part;
    } else {
      SpliceJoin(v0, e, buffer[..n], part);
      assert buffer[..n] + part == buffer[..n + |part|];
    }
  }

  lemma NextPage(p: nat, last: nat, ps: nat)
    requires p < last
    ensures Mul(p + 1, ps) == Mul(p, ps) + ps <= Mul(last, ps)
  {
    MulMono(p, last, ps);
  }

  lemma SingleCopyMirrored(l: Layout, disk: seq<Byte>)
    requires l.Ok() && |disk| == l.volumeSize && l.copies == 1
    ensures Mirrored(l, disk)
  {
  }

  /** The under-run part of an access at `e` of `n` bytes lies inside page Div(e, ps). */
  lemma UnderRunFits(l: Layout, e: nat, n: nat)
    requires l.Ok() && e + n <= l.size && Mod(e, l.pageSize) > 0
    ensures var len := if l.pageSize - Mod(e, l.pageSize) > n then n else l.pageSize - Mod(e, l.pageSize);
      && e == Mul(Div(e, l.pageSize), l.pageSize) + Mod(e, l.pageSize)
      && Mod(e, l.pageSize) + len <= l.PageLen(Div(e, l.pageSize))
  {
    hide Mul, Div, Mod;
    PageUnique(e, l.pageSize, 0);
  }

  /** How FatAccessCache divides the rest of an access at `e` of `n` bytes after its under-run of `len` bytes. */
  lemma AlignedSplit(l: Layout, e: nat, n: nat, len: nat, pageNo: nat)
    requires l.Ok() && e + n <= l.size && len <= n
    requires len < n ==> e + len == Mul(pageNo, l.pageSize)
    ensures var count: nat := Div(n - len, l.pageSize);
      var aligned := len + Mul(count, l.pageSize);
      && len <= aligned <= n
      && (count == 0 ==> aligned == len)
      && n - aligned < l.pageSize
      && (0 < count ==> e + len == Mul(pageNo, l.pageSize) && e + aligned == Mul(pageNo + count, l.pageSize) && l.pageSize <= n)
      && (aligned < n ==> e + aligned == Mul(pageNo + count, l.pageSize) && n - aligned <= l.PageLen(pageNo + count))
  {
    hide Mul, Div, Mod;
    var ps := l.pageSize;
    var count := Div(n - len, ps);
    PageUnique(n - len, ps, 0);
    MulAdd(pageNo, count, ps);
    MulSmall(ps);
    if 0 < count {
      MulMono(0, count, ps);
    }
  }

  lemma UnderRunEnds(e: nat, n: nat, len: nat, ps: nat)
    requires 0 < ps && Mod(e, ps) > 0 && len == if ps - Mod(e, ps) > n then n else ps - Mod(e, ps)
    ensures len < n ==> e + len == Mul(Div(e, ps) + 1, ps)
  {
    hide Mul, Div, Mod;
    PageUnique(e, ps, 0);
    MulAdd(Div(e, ps), 1, ps);
    MulSmall(ps);
  }

  /** When no valid page is dirty the first copy on the disk is the view. */
  lemma CleanViewIsDisk(l: Layout, tags: seq<CacheTag>, pages: seq<seq<Byte>>, disk: seq<Byte>)
    requires Inv(l, tags, pages, disk)
    requires forall g :: 0 <= g < l.groups && tags[g].realSize > 0 ==> !tags[g].dirty
    ensures l.base + l.size <= |disk| && ViewOf(l, tags, pages, disk) == disk[l.base..l.base + l.size]
  {
    hide Mul, Div, Mod;
    forall o | 0 <= o < l.size
      ensures ViewByte(l, tags, pages, disk, o) == disk[l.base + o]
    {
      var q := Div(o, l.pageSize);
      PageUnique(o, l.pageSize, q);
      assert TagOk(l, tags[Mod(q, l.groups)], pages[Mod(q, l.groups)], Mod(q, l.groups), disk);
      assert l.base + Mul(q, l.pageSize) + Mod(o, l.pageSize) == l.base + o;
    }
  }

  /** A change of the disk outside the region is invisible through this cache. */
  lemma OutsideInvisible(l: Layout, tags: seq<CacheTag>, pages: seq<seq<Byte>>, disk: seq<Byte>, disk': seq<Byte>)
    requires Inv(l, tags, pages, disk) && |disk'| == |disk|
    requires forall a :: l.base <= a < l.End() ==> disk'[a] == disk[a]
    ensures Inv(l, tags, pages, disk') && ViewOf(l, tags, pages, disk') == ViewOf(l, tags, pages, disk)
    ensures Mirrored(l, disk) ==> Mirrored(l, disk')
  {
    hide Mul, Div, Mod;
    forall k, x | 0 <= k < l.copies && 0 <= x < l.size
      ensures l.base <= l.Addr(k, x) < l.End() && l.Addr(0, x) == l.base + x
    {
      AddrBounds(l, k, x);
    }
    forall g | 0 <= g < l.groups
      ensures TagOk(l, tags[g], pages[g], g, disk')
    {
      assert TagOk(l, tags[g], pages[g], g, disk);
      if tags[g].realSize > 0 && !tags[g].dirty {
        forall i | 0 <= i < l.PageLen(tags[g].pageNo)
          ensures l.base + Mul(tags[g].pageNo, l.pageSize) + i < l.End()
          ensures disk'[l.base + Mul(tags[g].pageNo, l.pageSize) + i] == pages[g][i]
        {
          AddrBounds(l, 0, Mul(tags[g].pageNo, l.pageSize) + i);
        }
      }
    }
    forall o | 0 <= o < l.size
      ensures ViewByte(l, tags, pages, disk', o) == ViewByte(l, tags, pages, disk, o)
    {
      AddrBounds(l, 0, o);
    }
  }

  // ---------------------------------------------------------------- the driver's objects

  /** The raw device behind the volume: a range check, then a transfer (FatDiskIo without cache). */
  class Device {
    var bytes: seq<Byte>
    var error: bool

    constructor (contents: seq<Byte>)
      ensures bytes == contents && !error
    {
      bytes, error := contents, false;
    }

    method Transfer(mode: IoMode, offset: nat, buffer: seq<Byte>) returns (st: Status, out: seq<Byte>)
      modifies this
      ensures |bytes| == |old(bytes)| && |out| == |buffer|
      ensures offset + |buffer| <= |bytes| ==> st == Success && error == old(error)
      ensures offset + |buffer| <= |bytes| && mode.ReadDisk? ==>
        bytes == old(bytes) && out == bytes[offset..offset + |buffer|]
      ensures offset + |buffer| <= |bytes| && mode.WriteDisk? ==>
        bytes == Splice(old(bytes), offset, buffer) && out == buffer
      ensures offset + |buffer| > |bytes| ==> st == VolumeCorrupted && error && bytes == old(bytes) && out == buffer
    {
      out := buffer;
      if offset + |buffer| <= |bytes| {
        st := Success;
        if mode.ReadDisk? {
          out := bytes[offset..offset + |buffer|];
        } else {
          bytes := Splice(bytes, offset, buffer);
        }
      } else {
        st, error := VolumeCorrupted, true;
      }
    }
  }

  class DiskCache {
    const dev: Device
    const l: Layout
    const tags: array<CacheTag>
    const pages: array<seq<Byte>>
    var dirty: bool

    ghost predicate Valid()
      reads this, dev, tags, pages
    {
      && Inv(l, tags[..], pages[..], dev.bytes)
      && forall g :: 0 <= g < l.groups && tags[g].realSize > 0 && tags[g].dirty ==> dirty
    }

    /** The region as the file system sees it. */
    ghost function View(): (v: seq<Byte>)
      requires Valid()
      reads this, dev, tags, pages
      ensures |v| == l.size
    {
      ViewOf(l, tags[..], pages[..], dev.bytes)
    }

    ghost predicate MirrorsEqual()
      requires Valid()
      reads this, dev, tags, pages
    {
      Mirrored(l, dev.bytes)
    }

    /** A cache with no valid page, as FatInitializeDiskCache leaves it: the view is the disk. */
    constructor (dev: Device, l: Layout)
      requires l.Ok() && |dev.bytes| == l.volumeSize
      ensures this.dev == dev && this.l == l && Valid() && !dirty && fresh(tags) && fresh(pages)
      ensures l.base + l.size <= |dev.bytes| && View() == dev.bytes[l.base..l.base + l.size]
    {
      this.dev, this.l, this.dirty := dev, l, false;
      var noTags := new CacheTag[l.groups](_ => CacheTag(0, 0, false));
      var zero := seq(l.pageSize, _ => 0);
      var zeroPages := new seq<Byte>[l.groups](_ => zero);
      this.tags, this.pages := noTags, zeroPages;
      new;
      CleanViewIsDisk(l, tags[..], pages[..], dev.bytes);
    }

    /** The write loop of FatExchangeCachePage: the same bytes go to every copy. */
    method WriteCopies(at: nat, data: seq<Byte>) returns (st: Status)
      requires l.Ok() && |dev.bytes| == l.volumeSize && 0 < |data| && at + |data| <= l.size
      modifies dev
      ensures st == Success && dev.error == old(dev.error) && |dev.bytes| == l.volumeSize
      ensures CopiesWritten(l, old(dev.bytes), dev.bytes, l.copies, at, data)
    {
      var entryPos, writeCount := l.base + at, 0;
      ghost var disk := dev.bytes;
      st := Success;
      assert CopiesWritten(l, disk, dev.bytes, 0, at, data);
      while writeCount < l.copies
        invariant writeCount <= l.copies && entryPos == l.Addr(writeCount, at)
        invariant st == Success && dev.error == old(dev.error) && |dev.bytes| == l.volumeSize
        invariant CopiesWritten(l, disk, dev.bytes, writeCount, at, data)
      {
        WriteNextCopy(l, disk, dev.bytes, writeCount, at, data);
        var out;
        st, out := dev.Transfer(WriteDisk, entryPos, data);
        if st != Success {
          return;
        }
        NextAddr(l, writeCount, at);
        entryPos, writeCount := entryPos + l.size, writeCount + 1;
      }
    }

    /** FatExchangeCachePage for WRITE_DISK: the page of slot `g` goes to every copy and becomes clean. */
    method StorePage(g: nat) returns (st: Status)
      requires Shape(l, tags[..], pages[..], dev.bytes)
      requires g < l.groups && Mul(tags[g].pageNo, l.pageSize) < l.size && tags[g].realSize == l.PageLen(tags[g].pageNo)
      modifies dev, tags
      ensures st == Success && dev.error == old(dev.error) && |dev.bytes| == l.volumeSize
      ensures CopiesWritten(l, old(dev.bytes), dev.bytes, l.copies, Mul(old(tags[g].pageNo), l.pageSize), pages[g][..old(tags[g].realSize)])
      ensures tags[..] == old(tags[..])[g := old(tags[g]).(dirty := false)]
    {
      st := WriteCopies(Mul(tags[g].pageNo, l.pageSize), pages[g][..tags[g].realSize]);
      if st == Success {
        tags[g] := tags[g].(dirty := false);
      }
    }

    /** FatExchangeCachePage for READ_DISK: slot `g` receives page tags[g].pageNo, clipped at the end of the region. */
    method LoadPage(g: nat) returns (st: Status)
      requires Shape(l, tags[..], pages[..], dev.bytes)
      requires g < l.groups && Mul(tags[g].pageNo, l.pageSize) < l.size
      modifies dev, tags, pages
      ensures st == Success && dev.error == old(dev.error) && dev.bytes == old(dev.bytes)
      ensures tags[..] == old(tags[..])[g := CacheTag(old(tags[g].pageNo), l.PageLen(old(tags[g].pageNo)), false)]
      ensures |pages[g]| == l.pageSize && pages[..] == old(pages[..])[g := pages[g]]
      ensures PageOnDisk(l, old(tags[g].pageNo), pages[g], dev.bytes)
    {
      var p := tags[g].pageNo;
      var entryPos := l.base + Mul(p, l.pageSize);
      var realSize := l.pageSize;
      var maxSize := l.base + l.size - entryPos;
      if maxSize < realSize {
        realSize := maxSize;
      }
      AddrBounds(l, 0, Mul(p, l.pageSize) + realSize - 1);
      var out;
      st, out := dev.Transfer(ReadDisk, entryPos, pages[g][..realSize]);
      if st != Success {
        return;
      }
      pages[g] := out + pages[g][realSize..];
      tags[g] := CacheTag(p, realSize, false);
    }

    /** FatGetCachePage: on return slot `p % groups` holds page `p`; the view is untouched. */
    method GetPage(p: nat) returns (st: Status)
      requires Valid() && Mul(p, l.pageSize) < l.size
      modifies dev, tags, pages
      ensures Valid() && st == Success && dev.error == old(dev.error)
      ensures Caches(l, tags[..], p) && View() == old(View())
      ensures SameOutside(l, old(dev.bytes), dev.bytes) && (old(MirrorsEqual()) ==> MirrorsEqual())
    {
      var g := Mod(p, l.groups);
      if tags[g].realSize > 0 && tags[g].pageNo == p {
        return Success;
      }
      if tags[g].realSize > 0 && tags[g].dirty {
        ghost var tags0, disk0 := tags[..], dev.bytes;
        assert TagOk(l, tags[g], pages[g], g, dev.bytes);
        st := StorePage(g);
        if st != Success {
          return;
        }
        WriteBackKeeps(l, tags0, pages[..], disk0, dev.bytes, g);
      }
      ghost var tags1, pages1 := tags[..], pages[..];
      tags[g] := tags[g].(pageNo := p);
      st := LoadPage(g);
      LoadKeeps(l, tags1, pages1, dev.bytes, p, pages[g]);
      assert tags[..] == tags1[g := CacheTag(p, l.PageLen(p), false)];
    }

    /** FatAccessUnalignedCachePage: copy between the buffer and part of one cached page, `x` being its place in the region. */
    method AccessPage(mode: IoMode, p: nat, off: nat, ghost x: nat, buffer: seq<Byte>) returns (st: Status, out: seq<Byte>)
      requires Valid() && x == Mul(p, l.pageSize) + off && Mul(p, l.pageSize) < l.size && off + |buffer| <= l.PageLen(p)
      modifies this, dev, tags, pages
      ensures Valid() && st == Success && dev.error == old(dev.error) && |out| == |buffer|
      ensures mode.ReadDisk? ==> View() == old(View()) && out == View()[x..x + |buffer|]
      ensures mode.WriteDisk? ==> View() == Splice(old(View()), x, buffer) && out == buffer
      ensures SameOutside(l, old(dev.bytes), dev.bytes) && (old(MirrorsEqual()) ==> MirrorsEqual())
    {
      hide Inv, ViewOf, Mirrored, Mul, Div, Mod;
      InvShape(l, tags[..], pages[..], dev.bytes);
      out := buffer;
      st := GetPage(p);
      if st == Success {
        InvShape(l, tags[..], pages[..], dev.bytes);
        var g := Mod(p, l.groups);
        if mode.ReadDisk? {
          out := pages[g][off..off + |buffer|];
          PeekReads(l, tags[..], pages[..], dev.bytes, p, off, |buffer|);
        } else {
          PokeUpdates(l, tags[..], pages[..], dev.bytes, p, off, buffer);
          ghost var tags0, pages0 := tags[..], pages[..];
          tags[g] := tags[g].(dirty := true);
          dirty := true;
          pages[g] := Splice(pages[g], off, buffer);
          assert tags[..] == tags0[g := tags0[g].(dirty := true)];
          assert pages[..] == pages0[g := Splice(pages0[g], off, buffer)];
        }
      }
    }

    /** FatFlushDataCacheRange for a read: bytes just read from the disk are overlaid with the dirty pages. */
    method PatchFromCache(first: nat, last: nat, ghost at: nat, buffer: seq<Byte>) returns (out: seq<Byte>)
      requires Valid() && first <= last && at == Mul(first, l.pageSize) && at + |buffer| == Mul(last, l.pageSize) <= l.size
      requires l.base + at + |buffer| <= |dev.bytes| && buffer == dev.bytes[l.base + at..l.base + at + |buffer|]
      ensures out == View()[at..at + |buffer|]
    {
      hide Inv, ViewOf, Mul, Div, Mod, Patched, Splice;
      InvShape(l, tags[..], pages[..], dev.bytes);
      ghost var v, disk := View(), dev.bytes;
      out := buffer;
      var p: nat, off: nat := first, 0;
      PatchStart(v, buffer, at);
      while p < last
        invariant first <= p <= last && at + off == Mul(p, l.pageSize) && |out| == |buffer|
        invariant Patched(v, buffer, out, at, off)
      {
        NextPage(p, last, l.pageSize);
        ViewPage(l, tags[..], pages[..], disk, p);
        var g := Mod(p, l.groups);
        if tags[g].realSize > 0 && tags[g].pageNo == p && tags[g].dirty {
          PatchStep(v, buffer, out, pages[g], at, off);
          out := Splice(out, off, pages[g]);
        } else {
          PatchSame(v, buffer, out, disk, l.base + at, at, off, l.pageSize);
        }
        PatchLength(v, buffer, out, at, off + l.pageSize);
        p, off := p + 1, off + l.pageSize;
      }
      PatchAll(v, buffer, out, at);
    }

    /** FatFlushDataCacheRange for a write: pages just overwritten on the disk lose their cached image. */
    method DropPages(first: nat, last: nat)
      requires Shape(l, tags[..], pages[..], dev.bytes)
      requires forall g :: 0 <= g < l.groups && tags[g].realSize > 0 ==> Mod(tags[g].pageNo, l.groups) == g
      requires first <= last
      modifies tags
      ensures tags[..] == Dropped(old(tags[..]), first, last)
    {
      var p := first;
      while p < last
        invariant first <= p <= last
        invariant tags[..] == Dropped(old(tags[..]), first, p)
      {
        var g := Mod(p, l.groups);
        if tags[g].realSize > 0 && tags[g].pageNo == p {
          tags[g] := tags[g].(realSize := 0);
        }
        p := p + 1;
      }
    }

    /** The page-aligned middle of an access: straight to the disk, then the cache is reconciled. */
    method AccessAligned(mode: IoMode, first: nat, last: nat, at: nat, buffer: seq<Byte>) returns (st: Status, out: seq<Byte>)
      requires Valid() && l.copies == 1 && first <= last
      requires at == Mul(first, l.pageSize) && at + |buffer| == Mul(last, l.pageSize) <= l.size
      modifies dev, tags
      ensures Valid() && st == Success && dev.error == old(dev.error) && |out| == |buffer|
      ensures mode.ReadDisk? ==> View() == old(View()) && out == View()[at..at + |buffer|]
      ensures mode.WriteDisk? ==> View() == Splice(old(View()), at, buffer) && out == buffer
      ensures SameOutside(l, old(dev.bytes), dev.bytes) && MirrorsEqual()
    {
      hide ViewOf, Mirrored, Mul, Div, Mod;
      BypassWrite(l, tags[..], pages[..], dev.bytes, first, last, buffer);
      forall g | 0 <= g < l.groups && tags[g].realSize > 0
        ensures Mod(tags[g].pageNo, l.groups) == g
      {
        assert TagOk(l, tags[..][g], pages[..][g], g, dev.bytes);
      }
      st, out := dev.Transfer(mode, l.base + at, buffer);
      if st != Success {
        return;
      }
      if mode.ReadDisk? {
        out := PatchFromCache(first, last, at, out);
      } else {
        DropPages(first, last);
      }
      SingleCopyMirrored(l, dev.bytes);
    }

    /** First part of FatAccessCache: the bytes up to the next page boundary. */
    method AccessUnderRun(mode: IoMode, entryPos: nat, buffer: seq<Byte>)
      returns (st: Status, length: nat, pageNo: nat, out: seq<Byte>)
      requires Valid() && entryPos + |buffer| <= l.size
      modifies this, dev, tags, pages
      ensures Valid() && st == Success && dev.error == old(dev.error)
      ensures Done(mode, old(View()), View(), entryPos, length, buffer, out)
      ensures length < |buffer| ==> entryPos + length == Mul(pageNo, l.pageSize)
      ensures SameOutside(l, old(dev.bytes), dev.bytes) && (old(MirrorsEqual()) ==> MirrorsEqual())
    {
      hide Inv, ViewOf, Mirrored, Mul, Div, Mod;
      InvShape(l, tags[..], pages[..], dev.bytes);
      pageNo := Div(entryPos, l.pageSize);
      var underRun := Mod(entryPos, l.pageSize);
      ghost var v0 := View();
      st, out, length := Success, buffer, 0;
      if underRun > 0 {
        length := l.pageSize - underRun;
        if length > |buffer| {
          length := |buffer|;
        }
        UnderRunFits(l, entryPos, |buffer|);
        UnderRunEnds(entryPos, |buffer|, length, l.pageSize);
        var part;
        st, part := AccessPage(mode, pageNo, underRun, entryPos, buffer[..length]);
        if st != Success {
          return;
        }
        DoneMore(mode, v0, v0, View(), entryPos, 0, buffer, out, part);
        out := out[..0] + part + out[length..];
        pageNo := pageNo + 1;
      } else {
        PageUnique(entryPos, l.pageSize, pageNo);
      }
    }

    /** Second and third part: whole pages around the cache, then the start of the last page. */
    method AccessRest(mode: IoMode, ghost v0: seq<Byte>, entryPos: nat, length: nat, pageNo: nat, buffer: seq<Byte>, done: seq<Byte>)
      returns (st: Status, out: seq<Byte>)
      requires Valid() && entryPos + |buffer| <= l.size && (|buffer| < l.pageSize || l.copies == 1)
      requires Done(mode, v0, View(), entryPos, length, buffer, done)
      requires length < |buffer| ==> entryPos + length == Mul(pageNo, l.pageSize)
      modifies this, dev, tags, pages
      ensures Valid() && st == Success && dev.error == old(dev.error)
      ensures Done(mode, v0, View(), entryPos, |buffer|, buffer, out)
      ensures SameOutside(l, old(dev.bytes), dev.bytes) && (old(MirrorsEqual()) ==> MirrorsEqual())
    {
      hide Inv, ViewOf, Mirrored, Splice, Done, Mul, Div, Mod;
      InvShape(l, tags[..], pages[..], dev.bytes);
      DoneShape(mode, v0, View(), entryPos, length, buffer, done);
      st, out := Success, done;
      var alignedPageCount: nat := Div(|buffer| - length, l.pageSize);
      var overRunPageNo: nat := pageNo + alignedPageCount;
      var alignedSize: nat := Mul(alignedPageCount, l.pageSize);
      var aligned := length + alignedSize;
      AlignedSplit(l, entryPos, |buffer|, length, pageNo);
      var part;
      if alignedPageCount > 0 {
        ghost var v1 := View();
        st, part := AccessAligned(mode, pageNo, overRunPageNo, entryPos + length, buffer[length..aligned]);
        if st != Success {
          return;
        }
        DoneMore(mode, v0, v1, View(), entryPos, length, buffer, out, part);
        out := out[..length] + part + out[aligned..];
      }
      var overRun := |buffer| - aligned;
      if overRun > 0 {
        ghost var v2 := View();
        st, part := AccessPage(mode, overRunPageNo, 0, entryPos + aligned, buffer[aligned..]);
        DoneMore(mode, v0, v2, View(), entryPos, aligned, buffer, out, part);
        out := out[..aligned] + part + out[|buffer|..];
      }
    }

    /**
      FatAccessCache. A read returns the view; a write changes the view at exactly its bytes. Nothing
      outside the region and its copies is written, and equal mirrors stay equal.
     */
    method Access(mode: IoMode, offset: nat, buffer: seq<Byte>) returns (st: Status, out: seq<Byte>)
      requires Valid() && l.base <= offset && offset + |buffer| <= l.base + l.size
      requires |buffer| < l.pageSize || l.copies == 1
      modifies this, dev, tags, pages
      ensures Valid() && st == Success && dev.error == old(dev.error) && |out| == |buffer|
      ensures mode.ReadDisk? ==> View() == old(View()) && out == View()[offset - l.base..offset - l.base + |buffer|]
      ensures mode.WriteDisk? ==> View() == Splice(old(View()), offset - l.base, buffer) && out == buffer
      ensures SameOutside(l, old(dev.bytes), dev.bytes) && (old(MirrorsEqual()) ==> MirrorsEqual())
    {
      hide Inv, ViewOf, Mul, Div, Mod, Mirrored;
      InvShape(l, tags[..], pages[..], dev.bytes);
      ghost var v0 := View();
      var length, pageNo;
      st, length, pageNo, out := AccessUnderRun(mode, offset - l.base, buffer);
      if st == Success {
        st, out := AccessRest(mode, v0, offset - l.base, length, pageNo, buffer, out);
        assert out == out[..|buffer|] && buffer == buffer[..|buffer|];
      }
    }

    /** One cache of FatVolumeFlushCache: afterwards the first copy on the disk is the view, which did not change. */
    method Flush() returns (st: Status)
      requires Valid()
      modifies this, dev, tags
      ensures Valid() && st == Success && dev.error == old(dev.error) && !dirty
      ensures View() == old(View())
      ensures l.base + l.size <= |dev.bytes| && dev.bytes[l.base..l.base + l.size] == View()
      ensures SameOutside(l, old(dev.bytes), dev.bytes) && (old(MirrorsEqual()) ==> MirrorsEqual())
    {
      st := Success;
      if dirty {
        var g := 0;
        while g < l.groups
          invariant 0 <= g <= l.groups && st == Success && dirty && dev.error == old(dev.error)
          invariant Valid() && View() == old(View())
          invariant SameOutside(l, old(dev.bytes), dev.bytes) && (old(MirrorsEqual()) ==> MirrorsEqual())
          invariant forall h :: 0 <= h < g && tags[h].realSize > 0 ==> !tags[h].dirty
        {
          if tags[g].realSize > 0 && tags[g].dirty {
            ghost var tags0, disk0 := tags[..], dev.bytes;
            assert TagOk(l, tags[..][g], pages[..][g], g, dev.bytes);
            st := StorePage(g);
            if st != Success {
              return;
            }
            WriteBackKeeps(l, tags0, pages[..], disk0, dev.bytes, g);
          }
          g := g + 1;
        }
        dirty := false;
      }
      CleanViewIsDisk(l, tags[..], pages[..], dev.bytes);
    }
  }
}
