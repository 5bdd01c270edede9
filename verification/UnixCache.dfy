/**
 The eight-entry write-back block cache of unix_io.c: every read sees what a plain device would
 hold, whatever the order of reads, writes, byte writes, flushes and changes of block size.
 */
module UnixCache {
  import opened Arith
  import opened Bytes

  const CACHE_SIZE := 8
  const WRITE_DIRECT_SIZE := 4

  /** struct unix_cache */
  datatype Entry = Entry(buf: seq<Byte>, block: nat, accessTime: int, dirty: bool, inUse: bool)

  const UNUSED := Entry([], 0, 0, false, false)

  /** Block size and byte offset of block 0 on the device. */
  datatype Layout = Layout(size: nat, offset: nat)
  {
    /** Where block `b` starts. */
    function Loc(b: nat): (r: nat)
      ensures r >= offset
    {
      b * size + offset
    }
  }

  lemma NextLoc(l: Layout, b: nat)
    ensures l.Loc(b + 1) == l.Loc(b) + l.size
  {
    assert (b + 1) * l.size == b * l.size + l.size;
  }

  lemma LocMonotone(l: Layout, b: nat, c: nat)
    requires b <= c
    ensures l.Loc(b) <= l.Loc(c)
  {
    MulMonotone(b, c, l.size);
  }

  lemma LocApart(l: Layout, b: nat, c: nat)
    requires b < c
    ensures l.Loc(b) + l.size <= l.Loc(c)
  {
    NextLoc(l, b);
    LocMonotone(l, b + 1, c);
  }

  /** Entry `e` holds a block with byte i of the device. */
  predicate Covers(l: Layout, e: Entry, i: nat) {
    e.inUse && l.Loc(e.block) <= i < l.Loc(e.block) + l.size
  }

  predicate DirtyAt(l: Layout, cache: seq<Entry>, i: nat) {
    exists k :: 0 <= k < |cache| && cache[k].dirty && Covers(l, cache[k], i)
  }

  /** No two entries in use hold the same block, and each lies within the device. */
  ghost predicate Proper(l: Layout, cache: seq<Entry>, n: nat) {
    && |cache| == CACHE_SIZE && l.size > 0
    && (forall k :: 0 <= k < |cache| && cache[k].inUse ==>
        l.Loc(cache[k].block) + l.size <= n && |cache[k].buf| == l.size)
    && (forall j, k :: 0 <= j < k < |cache| && cache[j].inUse && cache[k].inUse ==> cache[j].block != cache[k].block)
  }

  function Slice(s: seq<Byte>, lo: nat, n: nat): seq<Byte>
    requires lo + n <= |s|
  {
    s[lo..lo + n]
  }

  /** The device holds `view`, except where dirty entries do; entries of blocks lo .. hi-1 are stale and clean. */
  ghost predicate Mirrors(l: Layout, dev: seq<Byte>, view: seq<Byte>, cache: seq<Entry>, lo: nat, hi: nat) {
    && |view| == |dev| && Proper(l, cache, |dev|)
    && (forall k :: 0 <= k < |cache| && cache[k].inUse ==>
          if lo <= cache[k].block < hi then !cache[k].dirty
          else Slice(view, l.Loc(cache[k].block), l.size) == cache[k].buf)
    && (forall i: nat :: i < |dev| && !DirtyAt(l, cache, i) ==> dev[i] == view[i])
  }

  /** The same but for the bytes of block b. */
  ghost predicate MirrorsBut(l: Layout, dev: seq<Byte>, view: seq<Byte>, cache: seq<Entry>, lo: nat, hi: nat, b: nat) {
    && |view| == |dev| && Proper(l, cache, |dev|)
    && (forall k :: 0 <= k < |cache| && cache[k].inUse ==>
          if lo <= cache[k].block < hi then !cache[k].dirty
          else Slice(view, l.Loc(cache[k].block), l.size) == cache[k].buf)
    && (forall i: nat :: i < |dev| && !DirtyAt(l, cache, i) && !(l.Loc(b) <= i < l.Loc(b) + l.size) ==>
        dev[i] == view[i])
  }

  /** A block without a dirty entry reads the same on the device. */
  lemma CleanSlice(l: Layout, dev: seq<Byte>, view: seq<Byte>, cache: seq<Entry>, lo: nat, hi: nat, b: nat)
    requires Mirrors(l, dev, view, cache, lo, hi) && l.Loc(b) + l.size <= |dev|
    requires forall k :: 0 <= k < |cache| && cache[k].inUse && cache[k].block == b ==> !cache[k].dirty
    ensures Slice(dev, l.Loc(b), l.size) == Slice(view, l.Loc(b), l.size)
  {
    hide Layout.Loc;
    forall i: nat | l.Loc(b) <= i < l.Loc(b) + l.size
      ensures dev[i] == view[i]
    {
      if DirtyAt(l, cache, i) {
        var k :| 0 <= k < |cache| && cache[k].dirty && Covers(l, cache[k], i);
        if cache[k].block < b {
          LocApart(l, cache[k].block, b);
        } else if cache[k].block > b {
          LocApart(l, b, cache[k].block);
        }
      }
    }
  }

  // ---------- single steps ----------

  /** A dirty entry written to the device. */
  lemma WrittenBack(l: Layout, dev: seq<Byte>, view: seq<Byte>, cache: seq<Entry>, lo: nat, hi: nat, k: nat)
    requires Mirrors(l, dev, view, cache, lo, hi) && k < |cache| && cache[k].inUse && cache[k].dirty
    ensures Mirrors(l, Splice(dev, l.Loc(cache[k].block), cache[k].buf), view,
              cache[k := cache[k].(dirty := false)], lo, hi)
  {
    hide Layout.Loc, Splice;
    var at, buf := l.Loc(cache[k].block), cache[k].buf;
    var dev', cache' := Splice(dev, at, buf), cache[k := cache[k].(dirty := false)];
    forall i: nat | i < |dev| && !DirtyAt(l, cache', i)
      ensures dev'[i] == view[i]
    {
      if at <= i < at + l.size {
        assert Slice(view, at, l.size)[i - at] == view[i];
      } else {
        OtherDirty(l, cache, cache', k, i);
      }
    }
  }

  lemma OtherDirty(l: Layout, cache: seq<Entry>, cache': seq<Entry>, k: nat, i: nat)
    requires |cache'| == |cache| && k < |cache| && (forall j :: 0 <= j < |cache| && j != k ==> cache'[j] == cache[j])
    requires !Covers(l, cache[k], i) || !cache[k].dirty
    ensures DirtyAt(l, cache, i) ==> DirtyAt(l, cache', i)
  {
    if DirtyAt(l, cache, i) {
      var j :| 0 <= j < |cache| && cache[j].dirty && Covers(l, cache[j], i);
      assert cache'[j] == cache[j];
    }
  }

  /** A clean entry, or one not in use, given up. */
  lemma GivenUp(l: Layout, dev: seq<Byte>, view: seq<Byte>, cache: seq<Entry>, lo: nat, hi: nat, k: nat, e: Entry)
    requires Mirrors(l, dev, view, cache, lo, hi) && k < |cache| && (cache[k].inUse ==> !cache[k].dirty) && !e.inUse
    ensures Mirrors(l, dev, view, cache[k := e], lo, hi)
  {
    hide Layout.Loc;
    forall i: nat | i < |dev| && !DirtyAt(l, cache[k := e], i)
      ensures dev[i] == view[i]
    {
      OtherDirty(l, cache, cache[k := e], k, i);
    }
  }

  ghost predicate NotCached(cache: seq<Entry>, b: nat) {
    forall k :: 0 <= k < |cache| && cache[k].inUse ==> cache[k].block != b
  }

  /** The same entries are in use, for the same blocks. */
  ghost predicate SameUses(cache: seq<Entry>, cache': seq<Entry>) {
    && |cache'| == |cache|
    && forall k :: 0 <= k < |cache| ==> cache'[k].inUse == cache[k].inUse && cache'[k].block == cache[k].block
  }

  lemma SameUsesCached(cache: seq<Entry>, cache': seq<Entry>)
    requires SameUses(cache, cache')
    ensures forall b :: NotCached(cache', b) == NotCached(cache, b)
  {
  }

  ghost predicate RunNotCached(cache: seq<Entry>, lo: nat, hi: nat) {
    forall c :: lo <= c < hi ==> NotCached(cache, c)
  }

  /** An entry not in use filled with a block that is in no other. */
  lemma FilledIn(l: Layout, dev: seq<Byte>, view: seq<Byte>, cache: seq<Entry>, lo: nat, hi: nat, k: nat, e: Entry)
    requires Mirrors(l, dev, view, cache, lo, hi) && k < |cache| && !cache[k].inUse && NotCached(cache, e.block)
    requires e.inUse && !e.dirty && l.Loc(e.block) + l.size <= |dev| && e.buf == Slice(view, l.Loc(e.block), l.size)
    ensures Mirrors(l, dev, view, cache[k := e], lo, hi)
  {
    hide Layout.Loc;
    forall i: nat | i < |dev| && !DirtyAt(l, cache[k := e], i)
      ensures dev[i] == view[i]
    {
      OtherDirty(l, cache, cache[k := e], k, i);
    }
  }

  /** New data for a block that has an entry: dirty, so the device may lag behind. */
  lemma DirtiedBy(l: Layout, dev: seq<Byte>, view: seq<Byte>, cache: seq<Entry>, k: nat, e: Entry)
    requires |view| == |dev| && k < |cache| && |e.buf| == l.size && l.Loc(e.block) + l.size <= |dev|
    requires MirrorsBut(l, dev, view, cache[k := UNUSED], 0, 0, e.block)
    requires e.inUse && e.dirty && NotCached(cache[k := UNUSED], e.block)
    ensures Mirrors(l, dev, Splice(view, l.Loc(e.block), e.buf), cache[k := e], 0, 0)
  {
    hide Layout.Loc, Splice;
    var at, rest, cache' := l.Loc(e.block), cache[k := UNUSED], cache[k := e];
    var view' := Splice(view, at, e.buf);
    assert forall j :: 0 <= j < |cache| && j != k ==> rest[j] == cache'[j];
    assert Proper(l, cache', |dev|);
    forall j | 0 <= j < |cache| && cache'[j].inUse
      ensures l.Loc(cache'[j].block) + l.size <= |view'|
      ensures Slice(view', l.Loc(cache'[j].block), l.size) == cache'[j].buf
    {
      if j == k {
        assert Slice(view', at, l.size) == e.buf;
      } else {
        assert rest[j] == cache'[j] && l.Loc(rest[j].block) + l.size <= |dev|;
        OtherSlice(l, view, e.block, e.buf, cache'[j].block);
      }
    }
    forall i: nat | i < |dev| && !DirtyAt(l, cache', i)
      ensures dev[i] == view'[i]
    {
      assert !Covers(l, cache'[k], i);
      OtherDirty(l, rest, cache', k, i);
    }
  }

  /** Overwriting one block leaves the others alone. */
  lemma OtherSlice(l: Layout, s: seq<Byte>, b: nat, data: seq<Byte>, c: nat)
    requires b != c && |data| == l.size && l.Loc(b) + l.size <= |s| && l.Loc(c) + l.size <= |s|
    ensures Slice(Splice(s, l.Loc(b), data), l.Loc(c), l.size) == Slice(s, l.Loc(c), l.size)
  {
    hide Layout.Loc, Splice;
    if b < c {
      LocApart(l, b, c);
    } else {
      LocApart(l, c, b);
    }
  }

  /** With no entry in use, or all clean, the device is up to date. */
  lemma CleanDevice(l: Layout, dev: seq<Byte>, view: seq<Byte>, cache: seq<Entry>, lo: nat, hi: nat)
    requires Mirrors(l, dev, view, cache, lo, hi) && forall k :: 0 <= k < |cache| && cache[k].inUse ==> !cache[k].dirty
    ensures dev == view
  {
    hide Layout.Loc;
  }

  /** Anything may be written to a device whose cache is empty. */
  lemma EmptyCache(l: Layout, dev: seq<Byte>, cache: seq<Entry>)
    requires |cache| == CACHE_SIZE && l.size > 0 && forall k :: 0 <= k < |cache| ==> !cache[k].inUse
    ensures Mirrors(l, dev, dev, cache, 0, 0)
  {
  }

  // ---------- the channel ----------

  /** Only access times differ. */
  predicate SameEntries(cache: seq<Entry>, cache': seq<Entry>) {
    |cache'| == |cache| && forall k :: 0 <= k < |cache| ==> cache'[k] == cache[k].(accessTime := cache'[k].accessTime)
  }

  lemma NoTimesChanged(cache: seq<Entry>)
    ensures SameEntries(cache, cache)
  {
    forall k | 0 <= k < |cache|
      ensures cache[k] == cache[k].(accessTime := cache[k].accessTime)
    {
      assert cache[k] == Entry(cache[k].buf, cache[k].block, cache[k].accessTime, cache[k].dirty, cache[k].inUse);
    }
  }

  lemma TimesDoNotMatter(l: Layout, dev: seq<Byte>, view: seq<Byte>, cache: seq<Entry>, cache': seq<Entry>, lo: nat,
                         hi: nat)
    requires Mirrors(l, dev, view, cache, lo, hi) && SameEntries(cache, cache')
    ensures Mirrors(l, dev, view, cache', lo, hi)
  {
    hide Layout.Loc;
    forall i: nat | i < |dev| && !DirtyAt(l, cache', i)
      ensures dev[i] == view[i]
    {
      SameDirty(l, cache, cache', i);
    }
  }

  lemma SameDirty(l: Layout, cache: seq<Entry>, cache': seq<Entry>, i: nat)
    requires SameEntries(cache, cache')
    ensures DirtyAt(l, cache, i) ==> DirtyAt(l, cache', i)
  {
    if DirtyAt(l, cache, i) {
      var k :| 0 <= k < |cache| && cache[k].dirty && Covers(l, cache[k], i);
      assert cache'[k].dirty && Covers(l, cache'[k], i);
    }
  }

  /** struct unix_private_data with its io_channel; `view` is what a device without a cache would hold. */
  class UnixChannel {
    const writethrough: bool
    var layout: Layout
    var dev: seq<Byte>
    var cache: seq<Entry>
    var accessTime: int
    ghost var view: seq<Byte>

    constructor (dev: seq<Byte>, offset: nat, writethrough: bool)
      ensures this.dev == dev && view == dev && layout == Layout(1024, offset) && this.writethrough == writethrough
      ensures Valid()
    {
      this.dev, view, layout, this.writethrough := dev, dev, Layout(1024, offset), writethrough;
      cache, accessTime := seq(CACHE_SIZE, _ => UNUSED), 0;
      new;
      EmptyCache(layout, dev, cache);
    }

    ghost predicate Valid()
      reads this
    {
      Mirrors(layout, dev, view, cache, 0, 0) && AllClean(cache)
    }

    /** In write-through mode no entry is ever dirty. */
    ghost predicate AllClean(cache: seq<Entry>)
    {
      writethrough ==> forall k :: 0 <= k < |cache| ==> !cache[k].dirty
    }

    /**
     find_cached_block: the entry of a block, or the one to reuse: the first unused, or else the least
     recently used.
     */
    method FindCachedBlock(block: nat) returns (found: bool, at: nat)
      requires |cache| == CACHE_SIZE
      modifies this`cache, this`accessTime
      ensures at < CACHE_SIZE && SameEntries(old(cache), cache)
      ensures found ==>
                && cache[at].inUse && cache[at].block == block && accessTime == old(accessTime) + 1
                && cache[at].accessTime == accessTime
                && forall k :: 0 <= k < CACHE_SIZE && k != at ==> cache[k] == old(cache)[k]
      ensures !found ==>
                accessTime == old(accessTime) && cache == old(cache) && NotCached(cache, block) && Eldest(cache, at)
    {
      var i, unused: nat, oldest: nat := 0, CACHE_SIZE, CACHE_SIZE;
      while i < CACHE_SIZE
        invariant 0 <= i <= CACHE_SIZE && cache == old(cache)
        invariant forall k :: 0 <= k < i && cache[k].inUse ==> cache[k].block != block
        invariant if unused == CACHE_SIZE then forall k :: 0 <= k < i ==> cache[k].inUse
                  else unused < i && !cache[unused].inUse && forall k :: 0 <= k < unused ==> cache[k].inUse
        invariant if oldest == CACHE_SIZE then forall k :: 0 <= k < i ==> !cache[k].inUse
                  else oldest < i && cache[oldest].inUse &&
                       forall k :: 0 <= k < i && cache[k].inUse ==> cache[oldest].accessTime <= cache[k].accessTime
      {
        if !cache[i].inUse {
          if unused == CACHE_SIZE {
            unused := i;
          }
        } else if cache[i].block == block {
          accessTime := accessTime + 1;
          cache := cache[i := cache[i].(accessTime := accessTime)];
          return true, i;
        } else if oldest == CACHE_SIZE || cache[i].accessTime < cache[oldest].accessTime {
          oldest := i;
        }
        i := i + 1;
      }
      found, at := false, if unused < CACHE_SIZE then unused else oldest;
      assert unused == CACHE_SIZE ==> cache[0].inUse;
      NoTimesChanged(cache);
    }

    /** reuse_cache: write the old block back if it is dirty, and take the entry for another block. */
    method ReuseCache(at: nat, block: nat, ghost lo: nat, ghost hi: nat)
      requires at < CACHE_SIZE && Mirrors(layout, dev, view, cache, lo, hi)
      modifies this`cache, this`dev, this`accessTime
      ensures cache == old(cache)[at := Entry(old(cache)[at].buf, block, accessTime, false, true)]
      ensures accessTime == old(accessTime) + 1
      ensures Mirrors(layout, dev, view, cache[at := UNUSED], lo, hi)
      ensures !old(cache)[at].dirty ==> dev == old(dev)
    {
      hide Mirrors, Splice, Layout.Loc;
      MirrorsProper(layout, dev, view, cache, lo, hi);
      ghost var cache1 := cache;
      if cache[at].dirty && cache[at].inUse {
        WrittenBack(layout, dev, view, cache, lo, hi, at);
        cache1 := cache[at := cache[at].(dirty := false)];
        dev := Splice(dev, layout.Loc(cache[at].block), cache[at].buf);
      }
      GivenUp(layout, dev, view, cache1, lo, hi, at, UNUSED);
      assert cache1[at := UNUSED] == cache[at := UNUSED];
      accessTime := accessTime + 1;
      cache := cache[at := cache[at].(inUse := true, dirty := false, block := block, accessTime := accessTime)];
      assert cache[at := UNUSED] == cache1[at := UNUSED];
    }

    /** flush_cached_blocks */
    method FlushCachedBlocks(invalidate: bool)
      requires Valid()
      modifies this`cache, this`dev
      ensures Valid() && dev == view && |cache| == CACHE_SIZE
      ensures forall k :: 0 <= k < CACHE_SIZE && cache[k].inUse ==> !cache[k].dirty
      ensures if invalidate then forall k :: 0 <= k < CACHE_SIZE ==> !cache[k].inUse
              else forall b :: NotCached(cache, b) == NotCached(old(cache), b)
    {
      hide Mirrors, Splice, Layout.Loc;
      MirrorsProper(layout, dev, view, cache, 0, 0);
      var i := 0;
      while i < CACHE_SIZE
        invariant 0 <= i <= CACHE_SIZE && |cache| == CACHE_SIZE && Mirrors(layout, dev, view, cache, 0, 0)
        invariant AllClean(cache)
        invariant forall k :: 0 <= k < i && cache[k].inUse ==> !cache[k].dirty && !invalidate
        invariant |old(cache)| == CACHE_SIZE && (!invalidate ==> SameUses(old(cache), cache))
      {
        MirrorsProper(layout, dev, view, cache, 0, 0);
        var e := cache[i];
        if e.inUse {
          if e.dirty {
            WrittenBack(layout, dev, view, cache, 0, 0, i);
            dev := Splice(dev, layout.Loc(e.block), e.buf);
            cache := cache[i := e.(dirty := false)];
          }
          if invalidate {
            GivenUp(layout, dev, view, cache, 0, 0, i, cache[i].(inUse := false));
            cache := cache[i := cache[i].(inUse := false)];
          }
        }
        i := i + 1;
      }
      CleanDevice(layout, dev, view, cache, 0, 0);
      if !invalidate {
        SameUsesCached(old(cache), cache);
      }
    }

    /** unix_flush */
    method Flush()
      requires Valid()
      modifies this`cache, this`dev
      ensures Valid() && dev == view
    {
      FlushCachedBlocks(false);
    }

    /** unix_set_blksize: the buffers are new, so nothing may be left in them. */
    method SetBlksize(blksize: nat)
      requires Valid() && blksize > 0
      modifies this`cache, this`dev, this`layout, this`accessTime
      ensures Valid() && layout == old(layout).(size := blksize)
      ensures if blksize == old(layout).size then unchanged(this) else dev == view
    {
      if layout.size != blksize {
        FlushCachedBlocks(false);
        layout := layout.(size := blksize);
        cache, accessTime := seq(CACHE_SIZE, _ => UNUSED), 0;
        EmptyCache(layout, dev, cache);
      }
    }

    /** unix_write_byte */
    method WriteByte(offset: nat, data: seq<Byte>)
      requires Valid() && offset + layout.offset + |data| <= |view|
      modifies this`cache, this`dev, this`view
      ensures Valid() && view == Splice(old(view), offset + layout.offset, data) && dev == view
    {
      hide Splice, Layout.Loc;
      FlushCachedBlocks(true);
      dev := Splice(dev, offset + layout.offset, data);
      view := dev;
      EmptyCache(layout, dev, cache);
    }

    /** unix_read_blk: count blocks, or -count bytes, from the start of a block on; the last block is then cached. */
    method ReadBlk(block: nat, count: int) returns (data: seq<Byte>)
      requires Valid()
      requires block * layout.size + layout.offset + (if count < 0 then -count else count * layout.size) <= |view|
      modifies this`cache, this`dev, this`accessTime
      ensures var at, n := block * layout.size + layout.offset, if count < 0 then -count else count * layout.size;
              Valid() && data == view[at..at + n]
      ensures 0 < count <= WRITE_DIRECT_SIZE ==> !NotCached(cache, block + count - 1)
    {
      hide Mirrors, Splice, Layout.Loc, Extent, NotCached;
      WhereOnDevice(layout, block, count);
      if count < 0 || count > WRITE_DIRECT_SIZE {
        FlushCachedBlocks(false);
        return dev[layout.Loc(block)..layout.Loc(block) + Extent(layout, block, count)];
      }
      ExtentBlocks(layout, block, count);
      data := ReadCached(block, count);
    }

    /** The loop of unix_read_blk: each block from its entry, or with the uncached ones that follow it. */
    method ReadCached(block: nat, count: nat) returns (data: seq<Byte>)
      requires Valid() && layout.Loc(block) <= layout.Loc(block + count) <= |view| && count <= WRITE_DIRECT_SIZE
      modifies this`cache, this`dev, this`accessTime
      ensures Valid() && data == view[layout.Loc(block)..layout.Loc(block + count)]
      ensures count > 0 ==> !NotCached(cache, block + count - 1)
    {
      hide Mirrors, Splice, Layout.Loc, NotCached, SameEntries, Eldest;
      MirrorsProper(layout, dev, view, cache, 0, 0);
      var b, left: nat := block, count;
      data := [];
      assert Slice(view, layout.Loc(block), 0) == [];
      while left > 0
        invariant Valid() && left <= count && b + left == block + count
        invariant layout.Loc(block) <= layout.Loc(b) <= layout.Loc(block + count) <= |view|
        invariant data == view[layout.Loc(block)..layout.Loc(b)]
        invariant left < count ==> !NotCached(cache, b - 1)
        decreases left
      {
        MirrorsProper(layout, dev, view, cache, 0, 0);
        NextLoc(layout, b);
        LocMonotone(layout, b + 1, block + count);
        ghost var cache0 := cache;
        var found, at := FindCachedBlock(b);
        TimesDoNotMatter(layout, dev, view, cache0, cache, 0, 0);
        if found {
          BufIsView(layout, dev, view, cache, at);
          IsCached(cache, at);
          MoreBytes(view, layout.Loc(block), layout.Loc(b), layout.Loc(b + 1));
          data := data + cache[at].buf;
          left, b := left - 1, b + 1;
        } else {
          var got, n := ReadUncached(b, left, at);
          LocMonotone(layout, b, b + n);
          LocMonotone(layout, b + n, block + count);
          MoreBytes(view, layout.Loc(block), layout.Loc(b), layout.Loc(b + n));
          data := data + got;
          left, b := left - n, b + n;
        }
      }
    }

    /** The run of blocks from b on that are not cached, read at once; each is then put in the entry found for it. */
    method ReadUncached(b: nat, left: nat, first: nat) returns (got: seq<Byte>, n: nat)
      requires Valid() && 0 < left <= WRITE_DIRECT_SIZE && layout.Loc(b + left) <= |view|
      requires first < CACHE_SIZE && NotCached(cache, b)
      modifies this`cache, this`dev, this`accessTime
      ensures Valid() && 0 < n <= left && layout.Loc(b) <= layout.Loc(b + n) <= |view|
      ensures got == view[layout.Loc(b)..layout.Loc(b + n)] && !NotCached(cache, b + n - 1)
      ensures RunNotCached(old(cache), b, b + n) && (n < left ==> !NotCached(old(cache), b + n))
    {
      hide Mirrors, Splice, Layout.Loc, NotCached, RunNotCached, SameEntries, Eldest;
      MirrorsProper(layout, dev, view, cache, 0, 0);
      var reuse: seq<nat> := [first];
      n := 1;
      OneMore(cache, b, b);
      var found, at := false, 0;
      while n < left
        invariant 1 <= n <= left && |reuse| == n && Valid() && |cache| == CACHE_SIZE && |view| == |dev|
        invariant (forall k :: 0 <= k < n ==> reuse[k] < CACHE_SIZE) && RunNotCached(cache, b, b + n)
        invariant cache == old(cache)
        decreases left - n
      {
        found, at := FindCachedBlock(b + n);
        TimesDoNotMatter(layout, dev, view, old(cache), cache, 0, 0);
        if found {
          SameBlocks(old(cache), cache, b, n);
          FoundBefore(old(cache), cache, at);
          break;
        }
        OneMore(cache, b, b + n);
        reuse, n := reuse + [at], n + 1;
      }
      LocMonotone(layout, b, b + n);
      LocMonotone(layout, b + n, b + left);
      UncachedRun(layout, dev, view, cache, b, n);
      got := dev[layout.Loc(b)..layout.Loc(b + n)];
      KeepInCache(b, n, reuse, got);
    }

    /** The blocks just read, each put in its entry; one entry may serve for several in turn. */
    method KeepInCache(b: nat, n: nat, reuse: seq<nat>, got: seq<Byte>)
      requires Valid() && |reuse| == n && (forall k :: 0 <= k < n ==> reuse[k] < CACHE_SIZE)
      requires RunNotCached(cache, b, b + n)
      requires layout.Loc(b) <= layout.Loc(b + n) <= |view| && got == view[layout.Loc(b)..layout.Loc(b + n)]
      modifies this`cache, this`dev, this`accessTime
      ensures Valid() && (n > 0 ==> !NotCached(cache, b + n - 1))
    {
      hide Mirrors, Splice, Layout.Loc, NotCached, RunNotCached;
      MirrorsProper(layout, dev, view, cache, 0, 0);
      var j := 0;
      while j < n
        invariant 0 <= j <= n && Valid() && |cache| == CACHE_SIZE
        invariant RunNotCached(cache, b + j, b + n) && (j > 0 ==> !NotCached(cache, b + j - 1))
      {
        NextLoc(layout, b + j);
        LocMonotone(layout, b, b + j);
        LocMonotone(layout, b + j + 1, b + n);
        ghost var cache0 := cache;
        ReuseCache(reuse[j], b + j, 0, 0);
        MirrorsProper(layout, dev, view, cache[reuse[j] := UNUSED], 0, 0);
        var cp := layout.Loc(b + j) - layout.Loc(b);
        var e := cache[reuse[j]].(buf := got[cp..cp + layout.size]);
        SubSlice(view, layout.Loc(b), got, cp, cp + layout.size);
        assert e.buf == Slice(view, layout.Loc(b + j), layout.size);
        ReusedFor(cache0, cache, reuse[j], b + j, b + n, e);
        FilledIn(layout, dev, view, cache[reuse[j] := UNUSED], 0, 0, reuse[j], e);
        assert cache[reuse[j] := UNUSED][reuse[j] := e] == cache[reuse[j] := e];
        cache := cache[reuse[j] := e];
        IsCached(cache, reuse[j]);
        j := j + 1;
      }
    }

    /** unix_write_blk */
    method WriteBlk(block: nat, count: int, data: seq<Byte>)
      requires Valid() && |data| == (if count < 0 then -count else count * layout.size)
      requires block * layout.size + layout.offset + |data| <= |view|
      modifies this`cache, this`dev, this`accessTime, this`view
      ensures Valid() && view == Splice(old(view), block * layout.size + layout.offset, data)
      ensures count < 0 || count > WRITE_DIRECT_SIZE || writethrough ==> dev == view
      ensures 0 < count <= WRITE_DIRECT_SIZE ==> !NotCached(cache, block + count - 1)
    {
      hide Mirrors, Splice, Layout.Loc, Extent, NotCached;
      WhereOnDevice(layout, block, count);
      ghost var view0 := view;
      MirrorsProper(layout, dev, view, cache, 0, 0);
      if count < 0 || count > WRITE_DIRECT_SIZE {
        FlushCachedBlocks(true);
        dev := Splice(dev, layout.Loc(block), data);
        view := dev;
        EmptyCache(layout, dev, cache);
        return;
      }
      ExtentBlocks(layout, block, count);
      if writethrough {
        WriteThrough(block, count, data);
      } else {
        WriteBack(block, count, data);
      }
    }

    /** The loop of unix_write_blk when the device has already been written: entries follow, clean. */
    method WriteThrough(block: nat, count: nat, data: seq<Byte>)
      requires Valid() && writethrough && layout.Loc(block + count) <= |view|
      requires |data| == layout.Loc(block + count) - layout.Loc(block)
      modifies this`cache, this`dev, this`accessTime, this`view
      ensures Valid() && view == Splice(old(view), layout.Loc(block), data) && dev == view
      ensures count > 0 ==> !NotCached(cache, block + count - 1)
    {
      hide Mirrors, Splice, Layout.Loc, NotCached;
      MirrorsProper(layout, dev, view, cache, 0, 0);
      CleanDevice(layout, dev, view, cache, 0, 0);
      StaleRange(layout, dev, view, cache, block, count, data);
      dev := Splice(dev, layout.Loc(block), data);
      view := dev;
      var b, left: nat := block, count;
      while left > 0
        invariant left <= count && b + left == block + count
        invariant Mirrors(layout, dev, view, cache, b, b + left) && AllClean(cache)
        invariant dev == view == Splice(old(view), layout.Loc(block), data)
        invariant left < count ==> !NotCached(cache, b - 1)
      {
        MirrorsProper(layout, dev, view, cache, b, b + left);
        NextLoc(layout, b);
        LocMonotone(layout, block, b);
        LocMonotone(layout, b + 1, block + count);
        var at := EntryFor(b, b, b + left);
        var cp := layout.Loc(b) - layout.Loc(block);
        var e := cache[at].(buf := data[cp..cp + layout.size], dirty := false);
        assert e.buf == Slice(view, layout.Loc(b), layout.size);
        WeakerMirrors(layout, dev, view, cache[at := UNUSED], b, b + left, b);
        FilledIn(layout, dev, view, cache[at := UNUSED], b, b + left, at, e);
        assert cache[at := UNUSED][at := e] == cache[at := e];
        cache := cache[at := e];
        IsCached(cache, at);
        FewerStale(layout, dev, view, cache, b, b + left, at);
        left, b := left - 1, b + 1;
      }
      assert left == 0 && b + left == b;
      EmptyRange(layout, dev, view, cache, b);
    }

    /** The loop of unix_write_blk otherwise: entries take the data, dirty. */
    method WriteBack(block: nat, count: nat, data: seq<Byte>)
      requires Valid() && !writethrough && layout.Loc(block + count) <= |view|
      requires |data| == layout.Loc(block + count) - layout.Loc(block)
      modifies this`cache, this`dev, this`accessTime, this`view
      ensures Valid() && view == Splice(old(view), layout.Loc(block), data)
      ensures count > 0 ==> !NotCached(cache, block + count - 1)
    {
      hide Mirrors, Splice, Layout.Loc, NotCached;
      MirrorsProper(layout, dev, view, cache, 0, 0);
      ghost var view0, start := view, layout.Loc(block);
      var b, left: nat, cp := block, count, 0;
      EmptySplice(view0, start);
      assert data[..0] == [];
      while left > 0
        invariant left <= count && b + left == block + count && Valid()
        invariant cp == layout.Loc(b) - layout.Loc(block) && 0 <= cp <= |data| && |view| == |view0|
        invariant view == Splice(view0, start, data[..cp])
        invariant left < count ==> !NotCached(cache, b - 1)
      {
        MirrorsProper(layout, dev, view, cache, 0, 0);
        NextLoc(layout, b);
        LocMonotone(layout, block, b);
        LocMonotone(layout, b + 1, block + count);
        var at := EntryFor(b, 0, 0);
        var e := cache[at].(buf := data[cp..cp + layout.size], dirty := true);
        assert cache[at := UNUSED][at := UNUSED] == cache[at := UNUSED];
        assert cache[at := UNUSED][at := e] == cache[at := e];
        DirtiedBy(layout, dev, view, cache[at := UNUSED], at, e);
        cache := cache[at := e];
        IsCached(cache, at);
        view := Splice(view, layout.Loc(b), e.buf);
        MorePieces(view0, start, data, cp, cp + layout.size);
        cp := cp + layout.size;
        left, b := left - 1, b + 1;
      }
      assert b == block + count && data[..cp] == data;
    }

    /** The entry of a block, taken from another block if it has none. */
    method EntryFor(b: nat, ghost lo: nat, ghost hi: nat) returns (at: nat)
      requires Mirrors(layout, dev, view, cache, lo, hi) && AllClean(cache)
      modifies this`cache, this`dev, this`accessTime
      ensures at < CACHE_SIZE && |cache| == CACHE_SIZE && cache[at].inUse && cache[at].block == b
      ensures MirrorsBut(layout, dev, view, cache[at := UNUSED], lo, hi, b) && NotCached(cache[at := UNUSED], b)
      ensures AllClean(cache) && (writethrough ==> dev == old(dev))
    {
      hide Mirrors, Splice, Layout.Loc;
      MirrorsProper(layout, dev, view, cache, lo, hi);
      ghost var cache0 := cache;
      var found;
      found, at := FindCachedBlock(b);
      TimesDoNotMatter(layout, dev, view, cache0, cache, lo, hi);
      if !found {
        ghost var cache1 := cache;
        ReuseCache(at, b, lo, hi);
        WeakerMirrors(layout, dev, view, cache[at := UNUSED], lo, hi, b);
        StillNotCached(cache1, cache, at, b);
      } else {
        MirrorsProper(layout, dev, view, cache, lo, hi);
        Withdrawn(layout, dev, view, cache, lo, hi, at);
      }
    }
  }

  /**
   Bytes written are read back as blocks of whatever size: unix_write_byte at `at`, unix_set_blksize,
   and unix_read_blk of blocks that lie in the bytes written.
   */
  method WriteAndRead(ch: UnixChannel, at: nat, written: seq<Byte>, size: nat, block: nat, count: nat)
    returns (data: seq<Byte>)
    requires ch.Valid() && at + ch.layout.offset + |written| <= |ch.view| && size > 0
    requires at <= block * size && block * size + count * size <= at + |written|
    modifies ch
    ensures ch.Valid() && data == written[block * size - at..block * size + count * size - at]
  {
    hide UnixChannel.Valid, Splice;
    var offset := ch.layout.offset;
    ghost var view0 := ch.view;
    ch.WriteByte(at, written);
    ch.SetBlksize(size);
    data := ch.ReadBlk(block, count);
    PlacedSlice(view0, at + offset, written, block * size - at, block * size + count * size - at);
  }

  lemma PlacedSlice(s: seq<Byte>, at: nat, d: seq<Byte>, i: nat, j: nat)
    requires at + |d| <= |s| && i <= j <= |d|
    ensures Splice(s, at, d)[at + i..at + j] == d[i..j]
  {
  }

  /** A transfer starts `block` blocks after block 0, and moves -count bytes or count blocks. */
  lemma WhereOnDevice(l: Layout, block: nat, count: int)
    ensures l.Loc(block) == block * l.size + l.offset
    ensures Extent(l, block, count) == if count < 0 then -count else count * l.size
  {
    if count >= 0 {
      assert (block + count) * l.size == block * l.size + count * l.size;
    }
  }

  lemma IsCached(cache: seq<Entry>, k: nat)
    requires k < |cache| && cache[k].inUse
    ensures !NotCached(cache, cache[k].block)
  {
  }

  lemma FoundBefore(cache: seq<Entry>, cache': seq<Entry>, at: nat)
    requires SameEntries(cache, cache') && at < |cache'| && cache'[at].inUse
    ensures !NotCached(cache, cache'[at].block)
  {
    assert cache[at].inUse && cache[at].block == cache'[at].block;
  }

  lemma MirrorsProper(l: Layout, dev: seq<Byte>, view: seq<Byte>, cache: seq<Entry>, lo: nat, hi: nat)
    requires Mirrors(l, dev, view, cache, lo, hi)
    ensures Proper(l, cache, |dev|) && |view| == |dev|
  {
    hide Proper;
  }

  /** The entry to reuse. */
  predicate Eldest(cache: seq<Entry>, at: nat) {
    at < |cache| &&
    if cache[at].inUse then
      forall k :: 0 <= k < |cache| ==> cache[k].inUse && cache[at].accessTime <= cache[k].accessTime
    else forall k :: 0 <= k < at ==> cache[k].inUse
  }

  /** Size in bytes of a transfer. */
  function Extent(l: Layout, block: nat, count: int): (n: nat)
  {
    if count < 0 then -count
    else
      LocMonotone(l, block, block + count);
      l.Loc(block + count) - l.Loc(block)
  }

  lemma ExtentBlocks(l: Layout, block: nat, count: nat)
    ensures Extent(l, block, count) == l.Loc(block + count) - l.Loc(block) && l.Loc(block) <= l.Loc(block + count)
  {
    LocMonotone(l, block, block + count);
  }

  lemma BufIsView(l: Layout, dev: seq<Byte>, view: seq<Byte>, cache: seq<Entry>, at: nat)
    requires Mirrors(l, dev, view, cache, 0, 0) && at < |cache| && cache[at].inUse
    ensures l.Loc(cache[at].block) + l.size <= |view| && cache[at].buf == Slice(view, l.Loc(cache[at].block), l.size)
  {
    hide Layout.Loc;
  }

  lemma OneMore(cache: seq<Entry>, b: nat, c: nat)
    requires NotCached(cache, c) && (c == b || RunNotCached(cache, b, c))
    ensures RunNotCached(cache, b, c + 1)
  {
  }

  lemma SameBlocks(cache: seq<Entry>, cache': seq<Entry>, b: nat, n: nat)
    requires SameEntries(cache, cache') && RunNotCached(cache, b, b + n)
    ensures RunNotCached(cache', b, b + n)
  {
    forall c | b <= c < b + n
      ensures NotCached(cache', c)
    {
      assert NotCached(cache, c);
    }
  }

  lemma {:induction false} UncachedRun(l: Layout, dev: seq<Byte>, view: seq<Byte>, cache: seq<Entry>, b: nat, n: nat)
    requires Mirrors(l, dev, view, cache, 0, 0) && RunNotCached(cache, b, b + n)
    requires l.Loc(b + n) <= |dev| && |view| == |dev|
    ensures l.Loc(b) <= l.Loc(b + n) && dev[l.Loc(b)..l.Loc(b + n)] == view[l.Loc(b)..l.Loc(b + n)]
  {
    hide Mirrors, Layout.Loc;
    if n > 0 {
      var m := b + (n - 1);
      NextLoc(l, m);
      assert NotCached(cache, m);
      UncachedRun(l, dev, view, cache, b, n - 1);
      CleanSlice(l, dev, view, cache, 0, 0, m);
      assert dev[l.Loc(b)..l.Loc(b + n)] == dev[l.Loc(b)..l.Loc(m)] + Slice(dev, l.Loc(m), l.size);
      assert view[l.Loc(b)..l.Loc(b + n)] == view[l.Loc(b)..l.Loc(m)] + Slice(view, l.Loc(m), l.size);
    }
  }

  /** Taking an entry for block x caches no other block. */
  lemma ReusedFor(cache: seq<Entry>, cache': seq<Entry>, at: nat, x: nat, end: nat, e: Entry)
    requires at < |cache| && |cache'| == |cache| && (forall k :: 0 <= k < |cache| && k != at ==> cache'[k] == cache[k])
    requires e.block == x < end && RunNotCached(cache, x, end)
    ensures NotCached(cache'[at := UNUSED], x) && RunNotCached(cache'[at := e], x + 1, end)
  {
    assert NotCached(cache, x);
    var filled := cache'[at := e];
    forall c | x + 1 <= c < end
      ensures NotCached(filled, c)
    {
      assert NotCached(cache, c);
    }
  }

  lemma StillNotCached(cache: seq<Entry>, cache': seq<Entry>, at: nat, b: nat)
    requires NotCached(cache, b) && at < |cache| && |cache'| == |cache|
    requires forall k :: 0 <= k < |cache| && k != at ==> cache'[k] == cache[k]
    ensures NotCached(cache'[at := UNUSED], b)
  {
  }

  /** An entry taken out of the cache, its block still to be written. */
  lemma Withdrawn(l: Layout, dev: seq<Byte>, view: seq<Byte>, cache: seq<Entry>, lo: nat, hi: nat, at: nat)
    requires Mirrors(l, dev, view, cache, lo, hi) && at < |cache| && cache[at].inUse
    ensures MirrorsBut(l, dev, view, cache[at := UNUSED], lo, hi, cache[at].block)
    ensures NotCached(cache[at := UNUSED], cache[at].block)
  {
    hide Layout.Loc;
    var cache', b := cache[at := UNUSED], cache[at].block;
    forall i: nat | i < |dev| && !DirtyAt(l, cache', i) && !(l.Loc(b) <= i < l.Loc(b) + l.size)
      ensures dev[i] == view[i]
    {
      OtherDirty(l, cache, cache', at, i);
    }
  }

  lemma WeakerMirrors(l: Layout, dev: seq<Byte>, view: seq<Byte>, cache: seq<Entry>, lo: nat, hi: nat, b: nat)
    ensures Mirrors(l, dev, view, cache, lo, hi) ==> MirrorsBut(l, dev, view, cache, lo, hi, b)
    ensures MirrorsBut(l, dev, view, cache, lo, hi, b) && dev == view ==> Mirrors(l, dev, view, cache, lo, hi)
  {
    hide Layout.Loc, DirtyAt, Slice;
  }

  /** Overwriting a run of blocks leaves the others alone. */
  lemma OtherSliceRange(l: Layout, s: seq<Byte>, b: nat, n: nat, data: seq<Byte>, c: nat)
    requires !(b <= c < b + n) && l.Loc(b + n) <= |s| && l.Loc(c) + l.size <= |s|
    requires l.Loc(b) <= l.Loc(b + n) && |data| == l.Loc(b + n) - l.Loc(b)
    ensures Slice(Splice(s, l.Loc(b), data), l.Loc(c), l.size) == Slice(s, l.Loc(c), l.size)
  {
    hide Layout.Loc, Splice;
    if c < b {
      LocApart(l, c, b);
    } else {
      LocMonotone(l, b + n, c);
    }
  }

  /** All entries clean, and the device written: the entries of the blocks written are stale. */
  lemma StaleRange(l: Layout, dev: seq<Byte>, view: seq<Byte>, cache: seq<Entry>, b: nat, n: nat, data: seq<Byte>)
    requires Mirrors(l, dev, view, cache, 0, 0) && dev == view && forall k :: 0 <= k < |cache| ==> !cache[k].dirty
    requires l.Loc(b + n) <= |dev| && l.Loc(b) <= l.Loc(b + n) && |data| == l.Loc(b + n) - l.Loc(b)
    ensures Mirrors(l, Splice(dev, l.Loc(b), data), Splice(dev, l.Loc(b), data), cache, b, b + n)
  {
    hide Layout.Loc, Splice;
    var dev' := Splice(dev, l.Loc(b), data);
    forall k | 0 <= k < |cache| && cache[k].inUse && !(b <= cache[k].block < b + n)
      ensures Slice(dev', l.Loc(cache[k].block), l.size) == cache[k].buf
    {
      OtherSliceRange(l, dev, b, n, data, cache[k].block);
    }
  }

  lemma FewerStale(l: Layout, dev: seq<Byte>, view: seq<Byte>, cache: seq<Entry>, b: nat, hi: nat, at: nat)
    requires Mirrors(l, dev, view, cache, b, hi) && at < |cache| && cache[at].inUse && cache[at].block == b
    requires l.Loc(b) + l.size <= |view| && cache[at].buf == Slice(view, l.Loc(b), l.size)
    ensures Mirrors(l, dev, view, cache, b + 1, hi)
  {
    hide Layout.Loc, Slice, DirtyAt;
  }

  lemma EmptyRange(l: Layout, dev: seq<Byte>, view: seq<Byte>, cache: seq<Entry>, b: nat)
    requires Mirrors(l, dev, view, cache, b, b)
    ensures Mirrors(l, dev, view, cache, 0, 0)
  {
    hide Layout.Loc, Slice, DirtyAt;
  }
}
