/**
 A file read and written through an open handle with a one-block buffer (fileio.c), and the writing
 past the end that fills the gap with zeros (do_write, do_lengthen).
 */
module FileIo {
  import opened Arith
  import opened Bytes
  import opened BlockIter
  import opened BlockMap
  import opened Truncate
  import opened BlockPaths
  import opened Bmap
  import opened FreeSpace
  import opened DataBlocks

  /** What the blocks of the device that hold file data contain. */
  type Data = map<nat, seq<Byte>>

  /** io_channel_read_blk; a hole reads as zeros. */
  function DataAt(data: Data, size: nat, phys: nat): (r: seq<Byte>)
    ensures |r| == size
  {
    if phys != 0 && phys in data && |data[phys]| == size then data[phys] else ZeroBytes(size)
  }

  ghost predicate Uniform(img: seq<seq<Byte>>, size: nat) {
    forall j :: 0 <= j < |img| ==> |img[j]| == size
  }

  /** What the device holds for each logical block of the file. */
  ghost function Image(disk: Disk, n: nat, blocks: seq<nat>, data: Data, size: nat): (r: seq<seq<Byte>>)
    requires n > 0 && |blocks| == NDIR + 3
    ensures |r| == MaxBlocks(n) && Uniform(r, size)
  {
    seq(MaxBlocks(n), j requires 0 <= j < MaxBlocks(n) => DataAt(data, size, FileBlock(disk, n, blocks, j)))
  }

  /** The blocks one after the other. */
  ghost function Flat(img: seq<seq<Byte>>, size: nat): (r: seq<Byte>)
    requires Uniform(img, size)
    ensures |r| == Pos(size, |img|)
  {
    if img == [] then []
    else
      LastPos(size, |img|);
      Flat(img[..|img| - 1], size) + img[|img| - 1]
  }

  lemma LastPos(size: nat, k: nat)
    requires k > 0
    ensures Pos(size, k) == Pos(size, k - 1) + size
  {
  }

  lemma PosMonotone(size: nat, j: nat, k: nat)
    requires j < k
    ensures Pos(size, j) + size <= Pos(size, k)
  {
    MulMonotone(j + 1, k, size);
    assert (j + 1) * size == j * size + size;
  }

  lemma {:induction false} FlatBlock(img: seq<seq<Byte>>, size: nat, j: nat)
    requires Uniform(img, size) && j < |img|
    ensures Pos(size, j) + size <= |Flat(img, size)| && Flat(img, size)[Pos(size, j)..Pos(size, j) + size] == img[j]
    decreases |img|
  {
    hide Pos;
    PosMonotone(size, j, |img|);
    LastPos(size, |img|);
    if j < |img| - 1 {
      var front := img[..|img| - 1];
      PosMonotone(size, j, |front|);
      FlatBlock(front, size, j);
    }
  }

  lemma {:induction false} FlatPut(img: seq<seq<Byte>>, size: nat, j: nat, x: seq<Byte>)
    requires Uniform(img, size) && j < |img| && |x| == size
    ensures Pos(size, j) + size <= |Flat(img, size)|
    ensures Flat(img[j := x], size) == Splice(Flat(img, size), Pos(size, j), x)
    decreases |img|
  {
    hide Pos;
    PosMonotone(size, j, |img|);
    LastPos(size, |img|);
    var front := img[..|img| - 1];
    if j < |img| - 1 {
      PosMonotone(size, j, |front|);
      FlatPut(front, size, j, x);
      assert img[j := x][..|img| - 1] == front[j := x];
    } else {
      assert img[j := x][..|img| - 1] == front;
    }
  }

  /** A piece put in one block is put in the whole. */
  lemma PieceInFlat(img: seq<seq<Byte>>, size: nat, j: nat, start: nat, piece: seq<Byte>)
    requires Uniform(img, size) && j < |img| && start + |piece| <= size
    ensures Pos(size, j) + size <= |Flat(img, size)|
    ensures Flat(img[j := Splice(img[j], start, piece)], size) == Splice(Flat(img, size), Pos(size, j) + start, piece)
  {
    hide Pos, Flat;
    FlatBlock(img, size, j);
    var x := Splice(img[j], start, piece);
    FlatPut(img, size, j, x);
    SpliceIn(Flat(img, size), Pos(size, j), img[j], start, piece);
  }

  lemma SpliceIn(s: seq<Byte>, at: nat, block: seq<Byte>, start: nat, piece: seq<Byte>)
    requires at + |block| <= |s| && s[at..at + |block|] == block && start + |piece| <= |block|
    ensures Splice(s, at, Splice(block, start, piece)) == Splice(s, at + start, piece)
  {
    var a, b := Splice(s, at, Splice(block, start, piece)), Splice(s, at + start, piece);
    hide Splice;
    forall i | 0 <= i < |s|
      ensures a[i] == b[i]
    {
      assert at <= i < at + |block| ==> s[i] == s[at..at + |block|][i - at];
    }
  }

  // ---------- flushing ----------

  /** A new block for logical block j changes what the device holds for j only. */
  lemma AllocatedImage(disk: Disk, blocks: seq<nat>, disk': Disk, blocks': seq<nat>, n: nat, data: Data, size: nat,
                       j: nat, buf: seq<Byte>)
    requires n > 0 && |blocks| == NDIR + 3 == |blocks'| && j < MaxBlocks(n)
    requires forall k ::
      0 <= k < MaxBlocks(n) && k != j ==> FileBlock(disk', n, blocks', k) == FileBlock(disk, n, blocks, k)
    ensures Image(disk', n, blocks', data, size)[j := buf] == Image(disk, n, blocks, data, size)[j := buf]
  {
    hide FileBlock, MaxBlocks, DataAt;
  }

  lemma SameImage(disk: Disk, blocks: seq<nat>, disk': Disk, blocks': seq<nat>, n: nat, data: Data, size: nat)
    requires n > 0 && |blocks| == NDIR + 3 == |blocks'|
    requires forall k :: 0 <= k < MaxBlocks(n) ==> FileBlock(disk', n, blocks', k) == FileBlock(disk, n, blocks, k)
    ensures Image(disk', n, blocks', data, size) == Image(disk, n, blocks, data, size)
  {
    hide FileBlock, MaxBlocks, DataAt;
  }

  /** The words a block of data is, read as a block of pointers. */
  function Words(bytes: seq<Byte>, n: nat): seq<nat>
    requires 4 * n <= |bytes|
  {
    seq(n, i requires 0 <= i < n => U32(bytes, 4 * i))
  }

  /** Writing a data block changes what the device holds for its logical block, and nothing else of the file. */
  lemma WrittenImage(disk: Disk, blocks: seq<nat>, n: nat, data: Data, size: nat, j: nat, buf: seq<Byte>,
                     words: seq<nat>)
    requires n >= NDIR && |blocks| == NDIR + 3 && j < MaxBlocks(n) && Unique(FileBlocks(PartsOf(disk, n, blocks)))
    requires |buf| == size
    requires FileBlock(disk, n, blocks, j) != 0
    ensures var phys := FileBlock(disk, n, blocks, j);
            var disk' := disk[phys := words];
            && PartsOf(disk', n, blocks) == PartsOf(disk, n, blocks) && FileBlock(disk', n, blocks, j) == phys
            && Image(disk', n, blocks, data[phys := buf], size) == Image(disk, n, blocks, data, size)[j := buf]
  {
    hide FileBlock, MaxBlocks, PartsOf, FileBlocks, Unique;
    var phys := FileBlock(disk, n, blocks, j);
    var disk' := disk[phys := words];
    assert SameOutside(disk, disk', n, {phys});
    DataWriteKeeps(disk, disk', n, blocks, j);
    forall k | 0 <= k < MaxBlocks(n)
      ensures FileBlock(disk', n, blocks, k) == FileBlock(disk, n, blocks, k)
      ensures (k != j ==> FileBlock(disk, n, blocks, k) != phys)
    {
      SamePartsMap(disk, disk', n, blocks, k);
      if FileBlock(disk, n, blocks, k) == phys {
        MappedApart(disk, n, blocks, j, k);
      }
    }
  }

  // ---------- the handle ----------

  datatype Status = Ok | Failed | ReadOnly | BadLength

  /** The contents of `s` with `d` written at `off`, a gap before it filled with zeros. */
  function Overlaid(s: seq<Byte>, off: nat, d: seq<Byte>): seq<Byte> {
    var t := if off > |s| then s + ZeroBytes(off - |s|) else s;
    if off + |d| <= |t| then Splice(t, off, d) else t[..off] + d
  }

  /** struct ext2_file */
  class FileHandle {
    const inode: OpenInode
    const writable: bool
    var data: Data
    var size: nat
    var pos: nat
    var blockno: nat
    var physblock: nat
    var buf: seq<Byte>
    var bufValid: bool
    var bufDirty: bool

    /** ext2fs_file_open */
    constructor (inode: OpenInode, writable: bool, data: Data, size: nat)
      requires inode.Valid() && size <= Pos(inode.blockSize, MaxBlocks(inode.g.n))
      ensures Valid() && this.inode == inode && this.writable == writable && this.size == size && pos == 0
      ensures View() == Flat(OnDisk(), inode.blockSize) && this.data == data
    {
      this.inode, this.writable, this.data, this.size := inode, writable, data, size;
      pos, blockno, physblock, bufValid, bufDirty := 0, 0, 0, false, false;
      buf := ZeroBytes(inode.blockSize);
      new;
      SomeBlocks(inode.g.n);
    }

    ghost predicate Shaped()
      reads inode
    {
      inode.g.n >= NDIR && inode.g.n == inode.blockSize / 4 && |inode.blocks| == NDIR + 3
    }

    /** What the device holds for the file. */
    ghost function OnDisk(): (r: seq<seq<Byte>>)
      requires Shaped()
      reads this`data, inode
      ensures |r| == MaxBlocks(inode.g.n) && Uniform(r, inode.blockSize)
    {
      Image(inode.disk, inode.g.n, inode.blocks, data, inode.blockSize)
    }

    /** The same, with the buffer in the place of its block. */
    ghost function Now(): (r: seq<seq<Byte>>)
      requires Shaped() && |buf| == inode.blockSize
      reads this`data, this`buf, this`bufValid, this`blockno, inode
      ensures |r| == MaxBlocks(inode.g.n) && Uniform(r, inode.blockSize)
    {
      if bufValid && blockno < MaxBlocks(inode.g.n) then OnDisk()[blockno := buf] else OnDisk()
    }

    /** The byte string the handle stands for, as far as the block map reaches. */
    ghost function View(): (r: seq<Byte>)
      requires Shaped() && |buf| == inode.blockSize
      reads this`data, this`buf, this`bufValid, this`blockno, inode
      ensures |r| == Pos(inode.blockSize, MaxBlocks(inode.g.n))
    {
      Flat(Now(), inode.blockSize)
    }

    /** The file. */
    ghost function Contents(): seq<Byte>
      requires Shaped() && |buf| == inode.blockSize && size <= Pos(inode.blockSize, MaxBlocks(inode.g.n))
      reads this`data, this`buf, this`bufValid, this`blockno, this`size, inode
    {
      View()[..size]
    }

    ghost function Mapped(): nat
      requires Shaped()
      reads this`blockno, inode
    {
      FileBlock(inode.disk, inode.g.n, inode.blocks, blockno)
    }

    /** All but the contents of the buffer are right. */
    ghost predicate Positioned()
      reads this`size, this`buf, this`blockno, this`physblock, this`bufValid, this`bufDirty
      reads inode, inode.space, inode.space.bitmap.bits
    {
      && inode.Valid() && Shaped() && |buf| == inode.blockSize && blockno < MaxBlocks(inode.g.n)
      && size <= Pos(inode.blockSize, MaxBlocks(inode.g.n)) && (bufDirty ==> bufValid)
      && (bufValid ==> physblock == Mapped())
    }

    /** A clean buffer is what the device holds. */
    ghost predicate Valid()
      reads this`data, this`size, this`buf, this`blockno, this`physblock, this`bufValid, this`bufDirty
      reads inode, inode.space, inode.space.bitmap.bits
    {
      Positioned() && (bufValid && !bufDirty ==> buf == OnDisk()[blockno])
    }

    /** The buffer holds changes of a block that the file does not have, and no block is free. */
    ghost predicate Stuck()
      reads this`bufDirty, this`physblock, inode, inode.space, inode.space.bitmap.bits
    {
      bufDirty && physblock == 0 && inode.Full()
    }

    /** ext2fs_file_flush */
    method Flush() returns (status: Status)
      requires Valid()
      modifies this`data, this`physblock, this`bufDirty, inode, inode.space, inode.space.bitmap.bits
      ensures Valid() && Now() == old(Now())
      ensures status == Ok || (status == Failed && Stuck())
      ensures status == Ok ==> !bufDirty && OnDisk() == Now()
      ensures status == Failed ==> old(bufDirty) && bufValid == old(bufValid) && blockno == old(blockno)
    {
      hide OpenInode.Valid, OpenInode.Full, FileBlock, MaxBlocks, Image, FileBlocks, FreeItems.Accounted,
          Bitmap.Members;
      if !bufValid || !bufDirty {
        return Ok;
      }
      if physblock == 0 {
        var ok := AllocateBlock();
        if !ok {
          return Failed;
        }
      }
      WriteBlk();
      bufDirty, status := false, Ok;
    }

    /** The block for the buffer, when it has none yet. */
    method AllocateBlock() returns (ok: bool)
      requires Positioned() && bufValid && physblock == 0
      modifies this`physblock, inode, inode.space, inode.space.bitmap.bits
      ensures Positioned() && OnDisk()[blockno := buf] == old(OnDisk())[blockno := buf]
      ensures if ok then physblock != 0 else inode.Full() && physblock == 0 && OnDisk() == old(OnDisk())
    {
      hide OpenInode.Valid, OpenInode.Full, FileBlock, MaxBlocks, Image, FileBlocks, FreeItems.Accounted,
           Bitmap.Members, FreeItems.Valid;
      ghost var disk0, blocks0 := inode.disk, inode.blocks;
      var err, phys;
      ghost var added;
      err, phys, added := inode.Bmap(true, blockno);
      InodeShaped(inode);
      AllocatedImage(disk0, blocks0, inode.disk, inode.blocks, inode.g.n, data, inode.blockSize, blockno, buf);
      ok := err == Done;
      if ok {
        physblock := phys;
      } else {
        SameImage(disk0, blocks0, inode.disk, inode.blocks, inode.g.n, data, inode.blockSize);
      }
    }

    /** io_channel_write_blk of the buffer */
    method WriteBlk()
      requires Positioned() && bufValid && physblock != 0
      modifies this`data, inode`disk
      ensures Positioned() && OnDisk() == old(OnDisk())[blockno := buf]
    {
      hide FileBlock, MaxBlocks, Image, FileBlocks, PartsOf, Bitmap.Members, FreeItems.Valid;
      WrittenImage(inode.disk, inode.blocks, inode.g.n, data, inode.blockSize, blockno, buf, Words(buf, inode.g.n));
      inode.disk := inode.disk[physblock := Words(buf, inode.g.n)];
      data := data[physblock := buf];
    }

    /** sync_buffer_position */
    method SyncBufferPosition() returns (status: Status)
      requires Valid() && pos < Pos(inode.blockSize, MaxBlocks(inode.g.n))
      modifies this`data, this`physblock, this`bufDirty, this`bufValid, this`blockno, inode, inode.space,
          inode.space.bitmap.bits
      ensures Valid() && Now() == old(Now()) && View() == old(View())
      ensures status == Ok || (status == Failed && Stuck())
      ensures status == Ok ==> Pos(inode.blockSize, blockno) <= pos < Pos(inode.blockSize, blockno) + inode.blockSize
      ensures bufDirty ==> old(bufDirty)
    {
      hide OpenInode.Valid, OpenInode.Full, FileBlock, MaxBlocks, Image, Pos, Bitmap.Members, FreeItems.Valid, BlockAt;
      BlockOf(pos, inode.blockSize, MaxBlocks(inode.g.n));
      var b := BlockAt(pos, inode.blockSize);
      status := Ok;
      if b != blockno {
        status := Flush();
        if status != Ok {
          return;
        }
        bufValid := false;
      }
      blockno := b;
    }

    /** load_buffer */
    method LoadBuffer(dontfill: bool)
      requires Valid()
      modifies this`physblock, this`bufValid, this`buf, inode, inode.space, inode.space.bitmap.bits
      ensures Positioned() && bufValid && OnDisk() == old(OnDisk()) && (old(bufValid) ==> buf == old(buf))
      ensures !dontfill ==> Valid() && Now() == old(Now()) && View() == old(View())
    {
      hide OpenInode.Valid, OpenInode.Full, FileBlock, MaxBlocks, FileBlocks, Bitmap.Members, FreeItems.Valid,
           FreeItems.Accounted;
      if !bufValid {
        ghost var disk0, blocks0 := inode.disk, inode.blocks;
        var err, phys;
        ghost var added;
        err, phys, added := inode.Bmap(false, blockno);
        InodeShaped(inode);
        SameImage(disk0, blocks0, inode.disk, inode.blocks, inode.g.n, data, inode.blockSize);
        physblock := phys;
        if !dontfill {
          if physblock != 0 {
            buf := DataAt(data, inode.blockSize, physblock);
          } else {
            buf := ZeroBytes(inode.blockSize);
          }
        }
        bufValid := true;
      }
    }

    /** What ext2fs_file_write does in one block: fill the buffer unless all of it is replaced, and change it. */
    method PutPiece(start: nat, piece: seq<Byte>)
      requires Valid() && start + |piece| <= inode.blockSize
      modifies this`physblock, this`bufValid, this`bufDirty, this`buf, inode, inode.space, inode.space.bitmap.bits
      ensures Valid() && Now() == old(Now())[blockno := Splice(old(Now())[blockno], start, piece)]
    {
      hide OpenInode.Valid, FileBlock, MaxBlocks, Image, Bitmap.Members, FreeItems.Valid, Pos, Flat, FileHandle.View;
      LoadBuffer(|piece| == inode.blockSize);
      bufDirty := true;
      buf := Splice(buf, start, piece);
    }

    /** ext2fs_file_write */
    method Write(nbytes: seq<Byte>) returns (status: Status, count: nat)
      requires Valid() && pos + |nbytes| <= Pos(inode.blockSize, MaxBlocks(inode.g.n))
      modifies this`data, this`physblock, this`bufDirty, this`bufValid, this`blockno, this`buf, this`pos
      modifies inode, inode.space, inode.space.bitmap.bits
      ensures Valid() && count <= |nbytes| && pos == old(pos) + count
      ensures View() == Splice(old(View()), old(pos), nbytes[..count])
      ensures match status
              case Ok => writable && count == |nbytes|
              case Failed => writable && Stuck()
              case ReadOnly => !writable && count == 0
              case BadLength => false
    {
      hide OpenInode.Valid, OpenInode.Full, FileBlock, MaxBlocks, Image, Pos, Flat, Bitmap.Members, FreeItems.Valid,
           FileHandle.Now, FileHandle.View, FileHandle.Stuck, Splice,
           FileHandle.OnDisk, FileHandle.Mapped, Uniform;
      count := 0;
      ghost var v0 := View();
      EmptySplice(v0, pos);
      assert nbytes[..0] == [];
      if !writable {
        return ReadOnly, 0;
      }
      while count < |nbytes|
        invariant Valid() && count <= |nbytes| && pos == old(pos) + count
        invariant View() == Splice(v0, old(pos), nbytes[..count])
      {
        status := SyncBufferPosition();
        if status != Ok {
          return;
        }
        var start := pos - Pos(inode.blockSize, blockno);
        var c := inode.blockSize - start;
        if c > |nbytes| - count {
          c := |nbytes| - count;
        }
        ViewIsFlat();
        PieceInFlat(Now(), inode.blockSize, blockno, start, nbytes[count..count + c]);
        PutPiece(start, nbytes[count..count + c]);
        ViewIsFlat();
        MorePieces(v0, old(pos), nbytes, count, count + c);
        pos, count := pos + c, count + c;
      }
      assert nbytes[..count] == nbytes;
      status := Ok;
    }

    /** ext2fs_file_read: the bytes up to the end of the file, holes as zeros. */
    method Read(wanted: nat) returns (status: Status, out: seq<Byte>)
      requires Valid()
      modifies this`data, this`physblock, this`bufDirty, this`bufValid, this`blockno, this`buf, this`pos
      modifies inode, inode.space, inode.space.bitmap.bits
      ensures Valid() && View() == old(View())
      ensures |out| <= wanted && pos == old(pos) + |out|
      ensures (out != [] ==> pos <= size && out == Contents()[old(pos)..pos])
      ensures status == Ok ==>
                |out| == if old(pos) >= size then 0 else if wanted <= size - old(pos) then wanted else size - old(pos)
      ensures (status == Ok || (status == Failed && Stuck())) && (bufDirty ==> old(bufDirty))
    {
      hide OpenInode.Valid, OpenInode.Full, FileBlock, MaxBlocks, Image, Pos, Flat, Bitmap.Members, FreeItems.Valid,
           FileHandle.Now, FileHandle.View, FileHandle.Stuck,
           FileHandle.Contents, FileHandle.OnDisk, FileHandle.Mapped, Uniform, Splice;
      out, status := [], Ok;
      ghost var v0 := View();
      while pos < size && |out| < wanted
        invariant status == Ok && Valid() && View() == v0 && |out| <= wanted && pos == old(pos) + |out|
        invariant bufDirty ==> old(bufDirty)
        invariant out != [] ==> pos <= size && out == v0[old(pos)..pos]
      {
        var piece;
        status, piece := NextPiece(wanted - |out|);
        if status != Ok {
          break;
        }
        MoreBytes(v0, old(pos), pos, pos + |piece|);
        out, pos := out + piece, pos + |piece|;
      }
      if out != [] {
        PartOfContents(old(pos));
      }
    }

    /** One turn of the loop of ext2fs_file_read: what is wanted of the block at the position. */
    method NextPiece(wanted: nat) returns (status: Status, piece: seq<Byte>)
      requires Valid() && pos < size && wanted > 0
      modifies this`data, this`physblock, this`bufDirty, this`bufValid, this`blockno, this`buf
      modifies inode, inode.space, inode.space.bitmap.bits
      ensures Valid() && View() == old(View()) && (bufDirty ==> old(bufDirty))
      ensures status == Ok || (status == Failed && Stuck())
      ensures status == Ok ==>
                0 < |piece| <= wanted && pos + |piece| <= size <= |View()| && piece == View()[pos..pos + |piece|]
    {
      hide OpenInode.Valid, OpenInode.Full, FileBlock, MaxBlocks, Image, Pos, Flat, Bitmap.Members, FreeItems.Valid,
           FileHandle.Now, FileHandle.View, FileHandle.Stuck, FileHandle.OnDisk, FileHandle.Mapped, Uniform, Splice;
      piece := [];
      status := SyncBufferPosition();
      if status != Ok {
        return;
      }
      var start, c := pos - Pos(inode.blockSize, blockno), wanted;
      if c > inode.blockSize - start {
        c := inode.blockSize - start;
      }
      if c > size - pos {
        c := size - pos;
      }
      piece := GetPiece(start, c);
    }

    /** The bytes of one block from the buffer. */
    method GetPiece(start: nat, c: nat) returns (piece: seq<Byte>)
      requires Valid() && start + c <= inode.blockSize
      modifies this`physblock, this`bufValid, this`buf, inode, inode.space, inode.space.bitmap.bits
      ensures Valid() && View() == old(View())
      ensures var at := Pos(inode.blockSize, blockno) + start; at + c <= |View()| && piece == View()[at..at + c]
    {
      hide OpenInode.Valid, FileBlock, MaxBlocks, Image, Pos, Flat, Bitmap.Members, FreeItems.Valid, FileHandle.Now,
           FileHandle.View;
      LoadBuffer(false);
      BufferIsView();
      SubSlice(View(), Pos(inode.blockSize, blockno), buf, start, start + c);
      piece := buf[start..start + c];
    }

    lemma PartOfContents(lo: nat)
      requires Valid() && lo <= pos <= size
      ensures Contents()[lo..pos] == View()[lo..pos]
    {
      hide OpenInode.Valid, FileBlock, MaxBlocks, Image, Pos, Flat, Bitmap.Members, FreeItems.Valid, FileHandle.Now,
           FileHandle.View;
    }

    lemma ViewIsFlat()
      requires Valid()
      ensures View() == Flat(Now(), inode.blockSize)
    {
      hide OpenInode.Valid, FileBlock, MaxBlocks, Image, Pos, Flat, Bitmap.Members, FreeItems.Valid, FileHandle.Now;
    }

    lemma BufferIsView()
      requires Valid() && bufValid
      ensures var at := Pos(inode.blockSize, blockno);
              at + inode.blockSize <= |View()| && View()[at..at + inode.blockSize] == buf
    {
      hide OpenInode.Valid, FileBlock, MaxBlocks, Image, Pos, Flat, Bitmap.Members, FreeItems.Valid;
      FlatBlock(Now(), inode.blockSize, blockno);
    }

    /** ext2fs_file_close: the device is left with the contents of the file. */
    method Close() returns (status: Status)
      requires Valid()
      modifies this`data, this`physblock, this`bufDirty, inode, inode.space, inode.space.bitmap.bits
      ensures Valid() && Contents() == old(Contents())
      ensures status == Ok || (status == Failed && Stuck())
      ensures status == Ok ==> Flat(OnDisk(), inode.blockSize)[..size] == Contents()
    {
      hide OpenInode.Valid, OpenInode.Full, FileBlock, MaxBlocks, Image, Pos, Flat, Bitmap.Members, FreeItems.Valid;
      status := Flush();
    }

    /** do_read */
    method DoRead(off: nat, wanted: nat) returns (status: Status, out: seq<Byte>)
      requires Valid()
      modifies this`data, this`physblock, this`bufDirty, this`bufValid, this`blockno, this`buf, this`pos
      modifies inode, inode.space, inode.space.bitmap.bits
      ensures Valid() && Contents() == old(Contents())
      ensures status == Ok || (status == Failed && Stuck())
      ensures status == Ok ==> pos == off + |out|
      ensures status == Ok ==>
                out == if off >= size then []
                    else if wanted <= size - off then Contents()[off..off + wanted] else Contents()[off..]
    {
      hide OpenInode.Valid, OpenInode.Full, FileBlock, MaxBlocks, Image, Pos, Flat, Bitmap.Members, FreeItems.Valid,
           FileHandle.Now, FileHandle.View, FileHandle.Stuck,
           FileHandle.OnDisk, FileHandle.Mapped, Uniform, Splice;
      pos := off;
      status, out := Read(wanted);
    }

    /** do_lengthen: zeros written from the end of the file on; the position is put back. */
    method Lengthen(length: nat) returns (status: Status)
      requires Valid() && length <= Pos(inode.blockSize, MaxBlocks(inode.g.n))
      modifies this`data, this`physblock, this`bufDirty, this`bufValid, this`blockno, this`buf, this`pos, this`size
      modifies inode, inode.space, inode.space.bitmap.bits
      ensures Valid() && pos == old(pos)
      ensures status == Ok ==> length >= old(size) && Contents() == old(Contents()) + ZeroBytes(length - old(size))
      ensures status != Ok ==> size == old(size) && Contents() == old(Contents())
      ensures match status
              case Ok => length == old(size) || writable
              case Failed => length > old(size) && writable && Stuck()
              case ReadOnly => length > old(size) && !writable
              case BadLength => length < old(size)
    {
      hide OpenInode.Valid, OpenInode.Full, FileBlock, MaxBlocks, Image, Pos, Flat, Bitmap.Members, FreeItems.Valid,
           FileHandle.Now, FileHandle.View, FileHandle.Stuck,
           FileHandle.OnDisk, FileHandle.Mapped, Uniform, Splice;
      if length == size {
        NoGap(Contents());
        return Ok;
      }
      if length < size {
        return BadLength;
      }
      ghost var v0 := View();
      var startPos, gap := pos, ZeroBytes(length - size);
      pos := size;
      var written;
      status, written := Write(gap);
      pos := startPos;
      GapWritten(v0, size, gap[..written]);
      if status != Ok {
        return;
      }
      assert gap[..written] == gap;
      size := length;
    }

    /** do_write: a gap before the data is filled with zeros, and the size is the most reached. */
    method DoWrite(bytes: seq<Byte>, off: nat) returns (status: Status, ghost count: nat)
      requires Valid() && off + |bytes| <= Pos(inode.blockSize, MaxBlocks(inode.g.n))
      modifies this`data, this`physblock, this`bufDirty, this`bufValid, this`blockno, this`buf, this`pos, this`size
      modifies inode, inode.space, inode.space.bitmap.bits
      ensures Valid() && count <= |bytes|
      ensures status == Ok ==> Contents() == Overlaid(old(Contents()), off, bytes)
      ensures status != Ok ==>
                (Contents() == old(Contents()) ||
                 Contents() ==
                 Overlaid(old(Contents()), off, bytes[..count])[..if off > old(size) then off else old(size)])
      ensures match status
              case Ok => writable && count == |bytes| && pos == off + count
              case Failed => writable && Stuck()
              case ReadOnly => !writable
              case BadLength => false
    {
      hide OpenInode.Valid, OpenInode.Full, FileBlock, MaxBlocks, Image, Pos, Flat, Bitmap.Members, FreeItems.Valid,
           FileHandle.Now, FileHandle.View, FileHandle.Stuck,
           FileHandle.OnDisk, FileHandle.Mapped, Uniform, Splice, Overlaid;
      ghost var s0 := Contents();
      count := 0;
      if off > size {
        status := Lengthen(off);
        if status != Ok {
          return;
        }
      }
      ghost var v1, size1 := View(), size;
      pos := off;
      var n;
      status, n := Write(bytes);
      count := n;
      WrittenOver(s0, v1, size1, off, bytes[..n]);
      if status != Ok {
        return;
      }
      assert bytes[..n] == bytes;
      if off + |bytes| > size {
        size := off + |bytes|;
      }
    }
  }

  lemma NoGap(s: seq<Byte>)
    ensures s + ZeroBytes(0) == s
  {
  }

  lemma GapWritten(v: seq<Byte>, size: nat, gap: seq<Byte>)
    requires size + |gap| <= |v|
    ensures Splice(v, size, gap)[..size] == v[..size] && Splice(v, size, gap)[..size + |gap|] == v[..size] + gap
  {
  }

  /** Data written at or before the end of the contents, and what of it shows before the size is raised. */
  lemma WrittenOver(s0: seq<Byte>, v: seq<Byte>, size: nat, off: nat, d: seq<Byte>)
    requires off + |d| <= |v| && size <= |v| && size == (if off > |s0| then off else |s0|)
    requires v[..size] == if off > |s0| then s0 + ZeroBytes(off - |s0|) else s0
    ensures var v' := Splice(v, off, d);
            && Overlaid(s0, off, d)[..size] == v'[..size]
            && Overlaid(s0, off, d) == v'[..if off + |d| > size then off + |d| else size]
  {
  }

  /** Which block a position is in. */
  function BlockAt(pos: nat, size: nat): nat
    requires size > 0
  {
    pos / size
  }

  lemma BlockOf(pos: nat, size: nat, n: nat)
    requires size > 0 && pos < Pos(size, n)
    ensures BlockAt(pos, size) < n && Pos(size, BlockAt(pos, size)) <= pos < Pos(size, BlockAt(pos, size)) + size
  {
    assert pos == pos / size * size + pos % size;
    if pos / size >= n {
      MulMonotone(n, pos / size, size);
    }
  }

  lemma SomeBlocks(n: nat)
    ensures MaxBlocks(n) > 0
  {
    RootStarts(n);
  }

  lemma InodeShaped(inode: OpenInode)
    requires inode.Valid()
    ensures inode.g.n >= NDIR && inode.g.n == inode.blockSize / 4 && |inode.blocks| == NDIR + 3
  {
  }
}
