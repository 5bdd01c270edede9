/**
 Reading and writing inodes through the four-entry cache and the one-block buffer of inode.c, and
 scanning all inodes in order.
 */
module InodeTable {
  import opened Arith
  import opened Bytes

  const INODE_SIZE := 128
  const CACHE_SIZE := 4

  /** The device is a whole number of blocks. */
  predicate WholeBlocks(n: nat, size: nat) {
    size > 0 && n % size == 0
  }

  /** Where the inode tables lie: first block of each group's table, and the sizes. */
  datatype Tables = Tables(blockSize: nat, inodeSize: nat, perGroup: nat, first: seq<nat>)
  {
    predicate Sound(n: nat) {
      && blockSize > 0 && perGroup > 0 && INODE_SIZE <= inodeSize <= blockSize && WholeBlocks(n, blockSize)
      && (forall g :: 0 <= g < |first| ==> first[g] > 0 && TableEnd(g) <= n)
      && (forall g, h :: 0 <= g < |first| && 0 <= h < |first| && g != h ==>
          TableEnd(g) <= TableStart(h) || TableEnd(h) <= TableStart(g))
    }

    function TableStart(g: nat): nat
      requires g < |first|
    {
      Pos(blockSize, first[g])
    }

    function TableEnd(g: nat): nat
      requires g < |first|
    {
      TableStart(g) + perGroup * inodeSize
    }

    /** Number of inodes. */
    function Count(): nat {
      |first| * perGroup
    }

    function GroupOf(ino: nat): nat
      requires perGroup > 0 && ino >= 1
    {
      (ino - 1) / perGroup
    }

    function IndexOf(ino: nat): nat
      requires perGroup > 0 && ino >= 1
    {
      (ino - 1) % perGroup
    }

    /** Byte position of an inode. */
    function Loc(ino: nat): nat
      requires perGroup > 0 && ino >= 1 && GroupOf(ino) < |first|
    {
      TableStart(GroupOf(ino)) + IndexOf(ino) * inodeSize
    }
  }

  predicate GoodIno(t: Tables, ino: nat) {
    1 <= ino <= t.Count()
  }

  lemma InoInTable(t: Tables, ino: nat)
    requires t.perGroup > 0 && GoodIno(t, ino)
    ensures t.GroupOf(ino) < |t.first| && t.IndexOf(ino) < t.perGroup
    ensures t.TableStart(t.GroupOf(ino)) <= t.Loc(ino) && t.Loc(ino) + t.inodeSize <= t.TableEnd(t.GroupOf(ino))
  {
    var g, i := t.GroupOf(ino), t.IndexOf(ino);
    assert ino - 1 == g * t.perGroup + i;
    if g >= |t.first| {
      MulMonotone(|t.first|, g, t.perGroup);
    }
    MulMonotone(i + 1, t.perGroup, t.inodeSize);
    assert (i + 1) * t.inodeSize == i * t.inodeSize + t.inodeSize;
  }

  /** Slot i of the table of group g belongs to inode g * perGroup + i + 1. */
  lemma SlotOf(t: Tables, g: nat, i: nat)
    requires g < |t.first| && i < t.perGroup
    ensures var ino := g * t.perGroup + i + 1;
            GoodIno(t, ino) && t.GroupOf(ino) == g && t.Loc(ino) == t.first[g] * t.blockSize + i * t.inodeSize
  {
    DivModUnique(g * t.perGroup + i, t.perGroup, g, i);
    MulMonotone(g + 1, |t.first|, t.perGroup);
    assert (g + 1) * t.perGroup == g * t.perGroup + t.perGroup;
  }

  lemma SlotsApart(i: nat, j: nat, size: nat)
    requires i < j
    ensures i * size + size <= j * size
  {
    MulMonotone(i + 1, j, size);
    assert (i + 1) * size == i * size + size;
  }

  lemma SamePlace(t: Tables, a: nat, b: nat)
    requires t.perGroup > 0 && a >= 1 && b >= 1 && t.GroupOf(a) == t.GroupOf(b) && t.IndexOf(a) == t.IndexOf(b)
    ensures a == b
  {
    assert a - 1 == t.GroupOf(a) * t.perGroup + t.IndexOf(a);
    assert b - 1 == t.GroupOf(b) * t.perGroup + t.IndexOf(b);
  }

  /** Two inodes never share a byte. */
  lemma InodesApart(t: Tables, n: nat, a: nat, b: nat)
    requires t.Sound(n) && GoodIno(t, a) && GoodIno(t, b) && a != b
    ensures t.GroupOf(a) < |t.first| && t.GroupOf(b) < |t.first|
    ensures t.Loc(a) + t.inodeSize <= t.Loc(b) || t.Loc(b) + t.inodeSize <= t.Loc(a)
  {
    hide Tables.GroupOf, Tables.IndexOf, Tables.TableEnd, Tables.TableStart;
    InoInTable(t, a);
    InoInTable(t, b);
    if t.GroupOf(a) == t.GroupOf(b) {
      if t.IndexOf(a) == t.IndexOf(b) {
        SamePlace(t, a, b);
      } else if t.IndexOf(a) < t.IndexOf(b) {
        SlotsApart(t.IndexOf(a), t.IndexOf(b), t.inodeSize);
      } else {
        SlotsApart(t.IndexOf(b), t.IndexOf(a), t.inodeSize);
      }
    }
  }

  /** The inode on disk: its first 128 bytes. */
  function OnDisk(t: Tables, dev: seq<Byte>, ino: nat): seq<Byte>
    requires t.Sound(|dev|) && GoodIno(t, ino)
  {
    InoInTable(t, ino);
    dev[t.Loc(ino)..t.Loc(ino) + INODE_SIZE]
  }

  /** Writing one inode leaves the others, and the rest of its own slot, alone. */
  lemma OthersKept(t: Tables, dev: seq<Byte>, ino: nat, data: seq<Byte>, other: nat)
    requires t.Sound(|dev|) && GoodIno(t, ino) && GoodIno(t, other) && |data| == INODE_SIZE
    ensures t.GroupOf(ino) < |t.first| && t.Loc(ino) + INODE_SIZE <= |dev|
    ensures OnDisk(t, Splice(dev, t.Loc(ino), data), other) == if other == ino then data else OnDisk(t, dev, other)
  {
    InoInTable(t, ino);
    InoInTable(t, other);
    hide Tables.Loc, Tables.TableStart, Tables.TableEnd;
    if other != ino {
      InodesApart(t, |dev|, ino, other);
    }
  }

  /** struct ext2_inode_cache_ent */
  datatype CacheEntry = CacheEntry(ino: nat, inode: seq<Byte>)

  datatype Status = Success | BadInodeNum

  // ---------- the cache ----------

  ghost predicate CacheRight(t: Tables, dev: seq<Byte>, cache: seq<CacheEntry>) {
    && t.Sound(|dev|) && |cache| == CACHE_SIZE
    && (forall i :: 0 <= i < |cache| && cache[i].ino != 0 ==>
        GoodIno(t, cache[i].ino) && cache[i].inode == OnDisk(t, dev, cache[i].ino))
    && (forall i, j :: 0 <= i < j < |cache| && cache[i].ino != 0 ==> cache[i].ino != cache[j].ino)
  }

  function BlockAt(dev: seq<Byte>, blockSize: nat, b: nat): (r: seq<Byte>)
  {
    if Pos(blockSize, b) + blockSize <= |dev| then dev[Pos(blockSize, b)..Pos(blockSize, b) + blockSize] else []
  }

  lemma CacheWritten(t: Tables, dev: seq<Byte>, cache: seq<CacheEntry>, ino: nat, data: seq<Byte>,
                     cache': seq<CacheEntry>)
    requires CacheRight(t, dev, cache) && GoodIno(t, ino) && |data| == INODE_SIZE && |cache'| == |cache|
    requires forall i ::
      0 <= i < |cache| ==> cache'[i] == if cache[i].ino == ino then cache[i].(inode := data) else cache[i]
    ensures t.GroupOf(ino) < |t.first| && t.Loc(ino) + INODE_SIZE <= |dev|
    ensures CacheRight(t, Splice(dev, t.Loc(ino), data), cache')
  {
    InoInTable(t, ino);
    hide Tables.Loc, Splice, OnDisk;
    forall i | 0 <= i < |cache| && cache'[i].ino != 0
      ensures cache'[i].inode == OnDisk(t, Splice(dev, t.Loc(ino), data), cache'[i].ino)
    {
      OthersKept(t, dev, ino, data, cache[i].ino);
    }
  }

  class InodeCache {
    const t: Tables
    var dev: seq<Byte>
    var cache: seq<CacheEntry>
    var cacheLast: int
    var buffer: seq<Byte>
    var bufferBlk: nat

    constructor (t: Tables, dev: seq<Byte>)
      requires t.Sound(|dev|)
      ensures Valid() && this.t == t && this.dev == dev
    {
      this.t, this.dev, cacheLast, buffer, bufferBlk := t, dev, -1, [], 0;
      cache := seq(CACHE_SIZE, _ => CacheEntry(0, []));
    }

    /** Cached inodes are those on disk, once each, and the buffer is the block it says. */
    ghost predicate Valid()
      reads this
    {
      CacheRight(t, dev, cache) && Buffered() && -1 <= cacheLast < CACHE_SIZE
    }

    ghost predicate Buffered()
      reads this
    {
      t.blockSize > 0 && (bufferBlk != 0 ==> |buffer| == t.blockSize && buffer == BlockAt(dev, t.blockSize, bufferBlk))
    }

    /** io_channel_read_blk into the buffer, unless the block is there already. */
    method FillBuffer(blk: nat)
      requires Buffered() && blk != 0 && Pos(t.blockSize, blk) + t.blockSize <= |dev|
      modifies this`buffer, this`bufferBlk
      ensures Buffered() && bufferBlk == blk && |buffer| == t.blockSize && buffer == BlockAt(dev, t.blockSize, blk)
    {
      if blk != bufferBlk {
        buffer, bufferBlk := BlockAt(dev, t.blockSize, blk), blk;
      }
    }

    /** ext2fs_read_inode, with buffers of the standard size. */
    method ReadInode(ino: nat) returns (status: Status, inode: seq<Byte>)
      requires Valid() && ino != 0
      modifies this`cache, this`cacheLast, this`buffer, this`bufferBlk
      ensures Valid() && status == if GoodIno(t, ino) then Success else BadInodeNum
      ensures status == Success ==>
                inode == OnDisk(t, dev, ino) && exists k :: 0 <= k < CACHE_SIZE && cache[k] == CacheEntry(ino, inode)
      ensures || (cache == old(cache) && cacheLast == old(cacheLast))
              || (0 <= cacheLast == (old(cacheLast) + 1) % CACHE_SIZE < |old(cache)| &&
                  cache == old(cache)[cacheLast := CacheEntry(ino, inode)])
    {
      hide Tables.Loc, Tables.TableStart, Tables.TableEnd, Tables.Sound, OnDisk, BlockAt;
      var i := 0;
      while i < CACHE_SIZE
        invariant 0 <= i <= CACHE_SIZE
        invariant forall k :: 0 <= k < i ==> cache[k].ino != ino
      {
        if cache[i].ino == ino {
          assert cache[i] == CacheEntry(ino, cache[i].inode);
          return Success, cache[i].inode;
        }
        i := i + 1;
      }
      if ino > t.Count() {
        return BadInodeNum, [];
      }
      var blk, offset := Position(ino);
      OnDiskAt(t, dev, ino);
      inode := ReadBytes(blk, offset, ino);
      cacheLast := (cacheLast + 1) % CACHE_SIZE;
      cache := cache[cacheLast := CacheEntry(ino, inode)];
      assert cache[cacheLast] == CacheEntry(ino, inode);
      status := Success;
    }

    /** Block and offset of an inode. */
    method Position(ino: nat) returns (blk: nat, offset: nat)
      requires t.Sound(|dev|) && GoodIno(t, ino)
      ensures t.GroupOf(ino) < |t.first| && offset < t.blockSize && blk != 0
      ensures Pos(t.blockSize, blk) + offset == t.Loc(ino) && t.Loc(ino) + t.inodeSize <= |dev|
    {
      hide Tables.IndexOf, Tables.GroupOf;
      InoInTable(t, ino);
      var group := t.GroupOf(ino);
      offset := t.IndexOf(ino) * t.inodeSize;
      var block := offset / t.blockSize;
      blk := t.first[group] + block;
      offset := offset % t.blockSize;
      assert (t.first[group] + block) * t.blockSize == t.first[group] * t.blockSize + block * t.blockSize;
    }

    /** The loop of ext2fs_read_inode_full: an inode may lie across two blocks. */
    method ReadBytes(blk0: nat, offset0: nat, ghost ino: nat) returns (inode: seq<Byte>)
      requires Buffered() && t.Sound(|dev|) && GoodIno(t, ino) && blk0 != 0 && offset0 < t.blockSize
      requires t.GroupOf(ino) < |t.first| && Pos(t.blockSize, blk0) + offset0 == t.Loc(ino)
      requires t.Loc(ino) + INODE_SIZE <= |dev|
      modifies this`buffer, this`bufferBlk
      ensures Buffered() && inode == OnDisk(t, dev, ino)
    {
      hide Tables.Loc, Tables.TableStart, Tables.TableEnd, Tables.Sound, Tables.GroupOf, BlockAt, OnDisk, GoodIno,
           WholeBlocks, Pos;
      OnDiskAt(t, dev, ino);
      ghost var at := t.Loc(ino);
      var blk, offset, length := blk0, offset0, INODE_SIZE;
      inode := [];
      while length > 0
        invariant Buffered() && 0 <= length <= INODE_SIZE && blk != 0 && 0 <= offset < t.blockSize
        invariant length > 0 ==> Pos(t.blockSize, blk) + offset == at + INODE_SIZE - length
        invariant inode == dev[at..at + INODE_SIZE - length]
      {
        var clen := length;
        if offset + length > t.blockSize {
          clen := t.blockSize - offset;
        }
        BlockInside(blk, t.blockSize, |dev|);
        FillBuffer(blk);
        BlockSlice(dev, t.blockSize, blk, offset, clen);
        MoreBytes(dev, at, at + INODE_SIZE - length, at + INODE_SIZE - length + clen);
        inode := inode + buffer[offset..offset + clen];
        NextBlock(blk, t.blockSize);
        offset, length, blk := 0, length - clen, blk + 1;
      }
    }

    /** ext2fs_write_inode, with buffers of the standard size, on a writable file system. */
    method WriteInode(ino: nat, inode: seq<Byte>) returns (status: Status)
      requires Valid() && ino != 0 && |inode| == INODE_SIZE
      modifies this`dev, this`cache, this`buffer, this`bufferBlk
      ensures status == if GoodIno(t, ino) then Success else BadInodeNum
      ensures Valid() && |dev| == |old(dev)|
      ensures status == BadInodeNum ==> dev == old(dev)
      ensures status == Success ==>
                && t.GroupOf(ino) < |t.first| && t.Loc(ino) + INODE_SIZE <= |dev|
                && dev == Splice(old(dev), t.Loc(ino), inode)
    {
      hide Tables.Loc, Tables.TableStart, Tables.TableEnd, Tables.Sound, OnDisk, BlockAt, Splice;
      var i := 0;
      while i < CACHE_SIZE
        invariant 0 <= i <= CACHE_SIZE && cache == old(cache)
        invariant forall k :: 0 <= k < i ==> cache[k].ino != ino
      {
        if cache[i].ino == ino {
          cache := cache[i := cache[i].(inode := inode)];
          break;
        }
        i := i + 1;
      }
      if ino > t.Count() {
        assert cache == old(cache);
        return BadInodeNum;
      }
      CacheWritten(t, dev, old(cache), ino, inode, cache);
      var blk, offset := Position(ino);
      WriteBytes(blk, offset, ino, inode);
      status := Success;
    }

    /** The loop of ext2fs_write_inode_full: each block read, changed in part and written. */
    method WriteBytes(blk0: nat, offset0: nat, ghost ino: nat, inode: seq<Byte>)
      requires Buffered() && t.Sound(|dev|) && GoodIno(t, ino) && blk0 != 0 && offset0 < t.blockSize
      requires |inode| == INODE_SIZE
      requires t.GroupOf(ino) < |t.first| && Pos(t.blockSize, blk0) + offset0 == t.Loc(ino)
      requires t.Loc(ino) + INODE_SIZE <= |dev|
      modifies this`dev, this`buffer, this`bufferBlk
      ensures Buffered() && t.Loc(ino) + INODE_SIZE <= |dev| && dev == Splice(old(dev), t.Loc(ino), inode)
    {
      hide Tables.Loc, Tables.Sound, Tables.GroupOf, BlockAt, Splice, WholeBlocks, GoodIno, OnDisk, Pos;
      OnDiskAt(t, dev, ino);
      ghost var at, dev0 := t.Loc(ino), dev;
      var blk, offset, length := blk0, offset0, INODE_SIZE;
      assert inode[..0] == [];
      EmptySplice(dev0, at);
      while length > 0
        invariant Buffered() && 0 <= length <= INODE_SIZE && blk != 0 && 0 <= offset < t.blockSize && |dev| == |dev0|
        invariant length > 0 ==> Pos(t.blockSize, blk) + offset == at + INODE_SIZE - length
        invariant dev == Splice(dev0, at, inode[..INODE_SIZE - length])
      {
        var clen := length;
        if offset + length > t.blockSize {
          clen := t.blockSize - offset;
        }
        BlockInside(blk, t.blockSize, |dev|);
        FillBuffer(blk);
        var done := INODE_SIZE - length;
        var piece := inode[done..done + clen];
        PieceWritten(dev, t.blockSize, blk, offset, piece);
        buffer := Splice(buffer, offset, piece);
        dev := Splice(dev, Pos(t.blockSize, blk), buffer);
        MorePieces(dev0, at, inode, done, done + clen);
        NextBlock(blk, t.blockSize);
        offset, length, blk := 0, length - clen, blk + 1;
      }
      assert inode[..INODE_SIZE - length] == inode;
    }
  }

  lemma OnDiskAt(t: Tables, dev: seq<Byte>, ino: nat)
    requires t.Sound(|dev|) && GoodIno(t, ino)
    ensures t.GroupOf(ino) < |t.first| && t.Loc(ino) + INODE_SIZE <= |dev| && t.blockSize > 0
    ensures WholeBlocks(|dev|, t.blockSize)
    ensures t.perGroup > 0 && ino >= 1
    ensures OnDisk(t, dev, ino) == dev[t.Loc(ino)..t.Loc(ino) + INODE_SIZE]
  {
    InoInTable(t, ino);
  }

  lemma BlockInside(b: nat, size: nat, n: nat)
    requires WholeBlocks(n, size) && Pos(size, b) < n
    ensures Pos(size, b) + size <= n
  {
    assert n == n / size * size;
    if n / size <= b {
      MulMonotone(n / size, b, size);
    }
    MulMonotone(b + 1, n / size, size);
    assert (b + 1) * size == Pos(size, b) + size;
  }

  lemma NextBlock(b: nat, size: nat)
    ensures Pos(size, b + 1) == Pos(size, b) + size
  {
  }

  lemma BlockSlice(dev: seq<Byte>, size: nat, b: nat, offset: nat, n: nat)
    requires Pos(size, b) + size <= |dev| && offset + n <= size
    ensures |BlockAt(dev, size, b)| == size
    ensures BlockAt(dev, size, b)[offset..offset + n] == dev[Pos(size, b) + offset..Pos(size, b) + offset + n]
  {
    SubSlice(dev, Pos(size, b), BlockAt(dev, size, b), offset, offset + n);
  }

  /** A block with a piece of it changed, written back, is that piece of the device changed. */
  lemma PieceWritten(dev: seq<Byte>, size: nat, b: nat, offset: nat, piece: seq<Byte>)
    requires Pos(size, b) + size <= |dev| && offset + |piece| <= size
    ensures |BlockAt(dev, size, b)| == size
    ensures var buf := Splice(BlockAt(dev, size, b), offset, piece);
            var dev' := Splice(dev, Pos(size, b), buf);
            dev' == Splice(dev, Pos(size, b) + offset, piece) && BlockAt(dev', size, b) == buf
  {
    var at := Pos(size, b);
    var buf := Splice(BlockAt(dev, size, b), offset, piece);
    var dev', want := Splice(dev, at, buf), Splice(dev, at + offset, piece);
    hide Splice;
    forall i | 0 <= i < |dev|
      ensures dev'[i] == want[i]
    {
    }
    assert BlockAt(dev', size, b) == buf;
  }

  // ---------- the scan ----------

  /** struct ext2_struct_inode_scan; `rest` is the part of the buffer not handed out yet. */
  class InodeScan {
    const t: Tables
    const dev: seq<Byte>
    const tableBlocks: nat
    const bufferBlocks: nat
    var currentInode: nat
    var currentBlock: nat
    var currentGroup: nat
    var inodesLeft: nat
    var blocksLeft: nat
    var groupsLeft: nat
    var rest: seq<Byte>

    /** ext2fs_open_inode_scan */
    constructor (t: Tables, dev: seq<Byte>, tableBlocks: nat, bufferBlocks: nat)
      requires Complete(t, dev, tableBlocks)
      ensures this.t == t && this.dev == dev && Valid() && currentInode == 0
    {
      this.t, this.dev, this.tableBlocks := t, dev, tableBlocks;
      this.bufferBlocks := if bufferBlocks != 0 then bufferBlocks else 8;
      currentInode, currentGroup, groupsLeft, rest := 0, 0, |t.first| - 1, [];
      currentBlock, inodesLeft, blocksLeft := t.first[0], t.perGroup, tableBlocks;
      new;
      FirstSlot(t);
    }

    /** Slots of the current group handed out. */
    ghost function Done(): int
      reads this
    {
      t.perGroup - inodesLeft
    }

    ghost predicate Valid()
      reads this
    {
      && Complete(t, dev, tableBlocks) && bufferBlocks > 0
      && currentGroup < |t.first| && groupsLeft == |t.first| - 1 - currentGroup
      && inodesLeft <= t.perGroup && currentInode == currentGroup * t.perGroup + Done()
      && currentBlock + blocksLeft == t.first[currentGroup] + tableBlocks
      && (inodesLeft > 0 ==> AtSlot(t, dev, SlotAt(t, currentGroup, Done()), rest, currentBlock))
    }

    /** get_next_blockgroup */
    method NextBlockgroup()
      requires Valid() && groupsLeft > 0 && inodesLeft == 0
      modifies this
      ensures Valid() && currentGroup == old(currentGroup) + 1 && inodesLeft == t.perGroup
      ensures currentInode == old(currentInode)
    {
      hide Complete, SlotAt, Pos;
      NextFirst(currentGroup, t.perGroup);
      currentGroup, groupsLeft := currentGroup + 1, groupsLeft - 1;
      currentBlock := t.first[currentGroup];
      currentInode := currentGroup * t.perGroup;
      rest, inodesLeft, blocksLeft := [], t.perGroup, tableBlocks;
      TableStarts(t, dev, tableBlocks, currentGroup);
      SlotStart(t, currentGroup);
    }

    /** ext2fs_get_next_inode: the inodes in order, each once, then 0. */
    method Next() returns (ino: nat, inode: seq<Byte>)
      requires Valid()
      modifies this
      ensures Valid()
      ensures old(currentInode) < t.Count() ==>
                ino == old(currentInode) + 1 == currentInode && GoodIno(t, ino) && inode == OnDisk(t, dev, ino)
      ensures old(currentInode) >= t.Count() ==> ino == 0 && currentInode == old(currentInode)
    {
      hide Tables.Loc, OnDisk, SlotAt, AtSlot, Pos, Tables.Sound, Complete, Tables.Count, Tables.GroupOf,
           Tables.IndexOf, Tables.TableStart, Tables.TableEnd;
      CompleteFacts(t, dev, tableBlocks, currentGroup);
      AllGroups(t, currentGroup, inodesLeft);
      if inodesLeft == 0 {
        if groupsLeft == 0 {
          return 0, [];
        }
        NextBlockgroup();
        AllGroups(t, currentGroup, inodesLeft);
      }
      SlotInTable(t, dev, tableBlocks, currentGroup, Done());
      var slot := TakeSlot();
      NextSlot(t, currentGroup, Done());
      SlotIs(t, currentGroup, Done(), currentInode + 1);
      SlotOnDisk(t, dev, currentInode + 1);
      inodesLeft, currentInode := inodesLeft - 1, currentInode + 1;
      ino, inode := currentInode, slot[..INODE_SIZE];
    }

    /** The next slot, from the buffer, or from what is left in it and the blocks read next. */
    method TakeSlot() returns (slot: seq<Byte>)
      requires Valid() && inodesLeft > 0
      modifies this`rest, this`currentBlock, this`blocksLeft
      ensures currentBlock + blocksLeft == t.first[currentGroup] + tableBlocks
      ensures var at := SlotAt(t, currentGroup, Done());
              && 0 <= at && at + t.inodeSize <= |dev| && slot == dev[at..at + t.inodeSize]
              && AtSlot(t, dev, at + t.inodeSize, rest, currentBlock)
    {
      hide SlotAt, Pos, Tables.Sound, Tables.Count, Complete;
      ghost var at := SlotAt(t, currentGroup, Done());
      SlotInTable(t, dev, tableBlocks, currentGroup, Done());
      CompleteFacts(t, dev, tableBlocks, currentGroup);
      var extra := rest;
      ghost var middle := Pos(t.blockSize, currentBlock);
      if |rest| < t.inodeSize {
        GetNextBlocks();
        MoreBytes(dev, at, middle, Pos(t.blockSize, currentBlock));
        slot := extra + rest[..t.inodeSize - |extra|];
        rest := rest[t.inodeSize - |extra|..];
        assert slot + rest == dev[at..Pos(t.blockSize, currentBlock)];
      } else {
        slot := rest[..t.inodeSize];
        rest := rest[t.inodeSize..];
        assert slot + rest == extra;
      }
      SlotRead(t, dev, at, slot, rest, currentBlock);
    }

    /** get_next_blocks, without bad blocks */
    method GetNextBlocks()
      requires Valid() && inodesLeft > 0 && |rest| < t.inodeSize
      modifies this`rest, this`currentBlock, this`blocksLeft
      ensures currentBlock + blocksLeft == t.first[currentGroup] + tableBlocks
      ensures Pos(t.blockSize, old(currentBlock)) + t.blockSize <= Pos(t.blockSize, currentBlock) <= |dev|
      ensures rest == dev[Pos(t.blockSize, old(currentBlock))..Pos(t.blockSize, currentBlock)]
    {
      hide SlotAt, Pos, Tables.Sound, Tables.Count, Complete;
      CompleteFacts(t, dev, tableBlocks, currentGroup);
      SlotInTable(t, dev, tableBlocks, currentGroup, Done());
      var numBlocks := if bufferBlocks > blocksLeft then blocksLeft else bufferBlocks;
      MoreBlocks(t, currentBlock, t.first[currentGroup] + tableBlocks);
      BlocksOn(t, currentBlock, numBlocks, t.first[currentGroup] + tableBlocks);
      rest := dev[Pos(t.blockSize, currentBlock)..Pos(t.blockSize, currentBlock + numBlocks)];
      currentBlock, blocksLeft := currentBlock + numBlocks, blocksLeft - numBlocks;
    }
  }

  /** Every group has its inode table within the device, in whole blocks. */
  ghost predicate Complete(t: Tables, dev: seq<Byte>, tableBlocks: nat) {
    && t.Sound(|dev|) && |t.first| > 0 && t.perGroup * t.inodeSize <= tableBlocks * t.blockSize
    && forall g :: 0 <= g < |t.first| ==> Pos(t.blockSize, t.first[g] + tableBlocks) <= |dev|
  }

  lemma CompleteFacts(t: Tables, dev: seq<Byte>, tableBlocks: nat, g: nat)
    requires Complete(t, dev, tableBlocks) && g < |t.first|
    ensures Pos(t.blockSize, t.first[g] + tableBlocks) <= |dev| && t.blockSize >= t.inodeSize > 0 && t.perGroup > 0
    ensures t.Sound(|dev|)
  {
  }

  lemma TableStarts(t: Tables, dev: seq<Byte>, tableBlocks: nat, g: nat)
    requires Complete(t, dev, tableBlocks) && g < |t.first|
    ensures Pos(t.blockSize, t.first[g]) <= |dev|
  {
    CompleteFacts(t, dev, tableBlocks, g);
    MulMonotone(t.first[g], t.first[g] + tableBlocks, t.blockSize);
  }

  lemma NextFirst(g: nat, perGroup: nat)
    ensures (g + 1) * perGroup == g * perGroup + perGroup
  {
  }

  /** Position of slot i of group g. */
  function SlotAt(t: Tables, g: nat, i: int): int
    requires g < |t.first|
  {
    t.TableStart(g) + i * t.inodeSize
  }

  /** The buffer holds the device from position `at` up to block `b`. */
  ghost predicate AtSlot(t: Tables, dev: seq<Byte>, at: int, rest: seq<Byte>, b: nat) {
    && 0 <= at && at + |rest| == Pos(t.blockSize, b) <= |dev| && rest == dev[at..at + |rest|]
  }

  lemma FirstSlot(t: Tables)
    requires |t.first| > 0
    ensures SlotAt(t, 0, 0) == Pos(t.blockSize, t.first[0]) && 0 * t.perGroup == 0
  {
  }

  lemma SlotStart(t: Tables, g: nat)
    requires g < |t.first|
    ensures SlotAt(t, g, 0) == Pos(t.blockSize, t.first[g])
  {
  }

  lemma NextSlot(t: Tables, g: nat, i: int)
    requires g < |t.first|
    ensures SlotAt(t, g, i + 1) == SlotAt(t, g, i) + t.inodeSize
  {
    assert (i + 1) * t.inodeSize == i * t.inodeSize + t.inodeSize;
  }

  lemma SlotInTable(t: Tables, dev: seq<Byte>, tableBlocks: nat, g: nat, i: nat)
    requires Complete(t, dev, tableBlocks) && g < |t.first| && i < t.perGroup
    ensures 0 <= SlotAt(t, g, i) && SlotAt(t, g, i) + t.inodeSize <= Pos(t.blockSize, t.first[g] + tableBlocks) <= |dev|
    ensures INODE_SIZE <= t.inodeSize <= t.blockSize
  {
    MulMonotone(i + 1, t.perGroup, t.inodeSize);
    assert (i + 1) * t.inodeSize == i * t.inodeSize + t.inodeSize;
    assert (t.first[g] + tableBlocks) * t.blockSize == t.first[g] * t.blockSize + tableBlocks * t.blockSize;
    MulNonNegative(i, t.inodeSize);
    MulNonNegative(t.first[g], t.blockSize);
  }

  lemma MoreBlocks(t: Tables, b: nat, end: nat)
    requires Pos(t.blockSize, b) < Pos(t.blockSize, end)
    ensures b < end
  {
    if b >= end {
      MulMonotone(end, b, t.blockSize);
    }
  }

  lemma BlocksOn(t: Tables, b: nat, n: nat, end: nat)
    requires 0 < n && b + n <= end
    ensures Pos(t.blockSize, b) + t.blockSize <= Pos(t.blockSize, b + n) <= Pos(t.blockSize, end)
  {
    MulMonotone(b + n, end, t.blockSize);
    MulMonotone(b + 1, b + n, t.blockSize);
    assert (b + 1) * t.blockSize == Pos(t.blockSize, b) + t.blockSize;
  }

  /** All inodes handed out only when no group is left. */
  lemma AllGroups(t: Tables, g: nat, left: nat)
    requires g < |t.first| && left <= t.perGroup && t.perGroup > 0
    ensures var n := g * t.perGroup + (t.perGroup - left); n >= t.Count() <==> left == 0 && g == |t.first| - 1
  {
    assert (g + 1) * t.perGroup == g * t.perGroup + t.perGroup;
    if g < |t.first| - 1 {
      MulMonotone(g + 2, |t.first|, t.perGroup);
      assert (g + 2) * t.perGroup == (g + 1) * t.perGroup + t.perGroup;
    }
  }

  lemma SlotIs(t: Tables, g: nat, i: nat, ino: nat)
    requires g < |t.first| && i < t.perGroup && ino == g * t.perGroup + i + 1
    ensures GoodIno(t, ino) && t.GroupOf(ino) == g && t.IndexOf(ino) == i && t.Loc(ino) == SlotAt(t, g, i)
  {
    DivModUnique(ino - 1, t.perGroup, g, i);
    MulMonotone(g + 1, |t.first|, t.perGroup);
    assert (g + 1) * t.perGroup == g * t.perGroup + t.perGroup;
  }

  lemma SlotOnDisk(t: Tables, dev: seq<Byte>, ino: nat)
    requires t.Sound(|dev|) && GoodIno(t, ino)
    ensures t.GroupOf(ino) < |t.first| && t.Loc(ino) + t.inodeSize <= |dev| && INODE_SIZE <= t.inodeSize
    ensures OnDisk(t, dev, ino) == dev[t.Loc(ino)..t.Loc(ino) + t.inodeSize][..INODE_SIZE]
  {
    InoInTable(t, ino);
  }

  /** A slot put together from what was left in the buffer and what was read, or taken from the buffer. */
  lemma SlotRead(t: Tables, dev: seq<Byte>, at: int, slot: seq<Byte>, rest: seq<Byte>, b: nat)
    requires 0 <= at <= Pos(t.blockSize, b) <= |dev| && |slot| == t.inodeSize
    requires slot + rest == dev[at..Pos(t.blockSize, b)]
    ensures at + t.inodeSize <= |dev| && slot == dev[at..at + t.inodeSize] && AtSlot(t, dev, at + t.inodeSize, rest, b)
  {
    var all := dev[at..Pos(t.blockSize, b)];
    assert |all| == |slot| + |rest|;
    assert slot == all[..t.inodeSize] && rest == all[t.inodeSize..];
  }
}
