/**
 Iterating over the blocks of an inode: block_iterate_ind, block_iterate_dind,
 block_iterate_tind and ext2fs_block_iterate2.  The callback is a parameter.
 */
module BlockIter {
  const NDIR := 12

  /** Pointers per block, first data block, number of blocks. */
  datatype Geometry = Geometry(n: nat, first: nat, count: nat)
  {
    predicate InRange(blk: nat) { first <= blk < count }
  }

  datatype Flags = Flags(append: bool, depth: bool, dataOnly: bool)

  /** BLOCK_CHANGED, BLOCK_ABORT, BLOCK_ERROR */
  datatype Ret = Ret(changed: bool, abort: bool, error: bool)
  {
    function Or(other: Ret): Ret {
      Ret(changed || other.changed, abort || other.abort, error || other.error)
    }
  }

  const NOTHING := Ret(false, false, false)

  datatype ErrCode = NoError | BadInd | BadDind | BadTind

  /** The blocks that hold block numbers. */
  type Disk = map<nat, seq<nat>>

  function Zeros(n: nat): (r: seq<nat>)
    ensures |r| == n
    ensures forall i :: 0 <= i < n ==> r[i] == 0
  {
    if n == 0 then [] else Zeros(n - 1) + [0]
  }

  /** ext2fs_read_ind_block: the n block numbers in `blk`. */
  function ReadInd(disk: Disk, blk: nat, n: nat): (r: seq<nat>)
    ensures |r| == n
  {
    if blk in disk && |disk[blk]| == n then disk[blk] else Zeros(n)
  }

  /** What a callback does: to the disk, to its private data, to the block number, and its flags. */
  datatype Called<P> = Called(disk: Disk, p: P, blk: nat, ret: Ret)

  type Callback<!P> = (Disk, P, nat, int) -> Called<P>

  datatype Context<P> = Context(disk: Disk, p: P, bcount: nat, errcode: ErrCode)

  datatype Step<P> = Step(c: Context<P>, blk: nat, ret: Ret)

  datatype LoopStep<P> = LoopStep(c: Context<P>, buf: seq<nat>, changed: bool, ret: Ret)

  function Pow(n: nat, k: nat): nat {
    if k == 0 then 1 else n * Pow(n, k - 1)
  }

  function Call<P>(f: Callback<P>, c: Context<P>, blk: nat, count: int): Step<P> {
    var r := f(c.disk, c.p, blk, count);
    Step(c.(disk := r.disk, p := r.p), r.blk, r.ret)
  }

  /** BLOCK_COUNT_IND, BLOCK_COUNT_DIND, BLOCK_COUNT_TIND */
  function CountCode(level: nat): int {
    0 - (level as int)
  }

  function BadBlock(level: nat): ErrCode {
    if level == 1 then BadInd else if level == 2 then BadDind else BadTind
  }

  /** One indirect block of the given level (1 single, 2 double, 3 triple) and all below it. */
  function IterNode<P>(g: Geometry, fl: Flags, f: Callback<P>, level: nat, c: Context<P>, blk: nat): (r: Step<P>)
    requires level > 0
    decreases level, g.n + 1
  {
    var pre := if !fl.depth && !fl.dataOnly then Call(f, c, blk, CountCode(level)) else Step(c, blk, NOTHING);
    if pre.blk == 0 || pre.ret.abort then
      Step(pre.c.(bcount := pre.c.bcount + Pow(g.n, level)), pre.blk, pre.ret)
    else if !g.InRange(pre.blk) then
      Step(pre.c.(errcode := BadBlock(level)), pre.blk, pre.ret.(error := true))
    else
      var l := IterLoop(g, fl, f, level, pre.c.(errcode := NoError), ReadInd(pre.c.disk, pre.blk, g.n), 0, false,
          pre.ret);
      AfterChildren(fl, f, level, pre.blk, l)
  }

  /** The loop over the block numbers `buf` of an indirect block, from position i on. */
  function IterLoop<P>(g: Geometry, fl: Flags, f: Callback<P>, level: nat, c: Context<P>, buf: seq<nat>, i: nat,
                       changed: bool, ret: Ret): (r: LoopStep<P>)
    requires level > 0 && |buf| == g.n
    ensures |r.buf| == g.n
    decreases level, if i < g.n then g.n - i else 0
  {
    if i >= g.n then LoopStep(c, buf, changed, ret)
    else if !fl.append && buf[i] == 0 then
      IterLoop(g, fl, f, level, c.(bcount := c.bcount + Pow(g.n, level - 1)), buf, i + 1, changed, ret)
    else if level == 1 then
      var s := Call(f, c, buf[i], c.bcount);
      if s.ret.abort then LoopStep(s.c, buf[i := s.blk], changed || s.ret.changed, ret.(abort := true))
      else IterLoop(g, fl, f, level, s.c.(bcount := s.c.bcount + 1), buf[i := s.blk], i + 1,
                    changed || s.ret.changed, ret)
    else
      var s := IterNode(g, fl, f, level - 1, c, buf[i]);
      if s.ret.abort || s.ret.error then
        LoopStep(s.c, buf[i := s.blk], changed || s.ret.changed,
                 ret.(abort := ret.abort || s.ret.abort, error := ret.error || s.ret.error))
      else IterLoop(g, fl, f, level, s.c, buf[i := s.blk], i + 1, changed || s.ret.changed, ret)
  }

  /** The inode's fifteen block numbers and what the iteration over them returned so far. */
  datatype InodeStep<P> = InodeStep(c: Context<P>, blocks: seq<nat>, ret: Ret)

  /** The loop over the direct blocks, from block i on. */
  function IterDirect<P>(fl: Flags, f: Callback<P>, c: Context<P>, blocks: seq<nat>, i: nat,
      ret: Ret): (r: InodeStep<P>)
    requires |blocks| == NDIR + 3
    ensures |r.blocks| == NDIR + 3
    decreases if i < NDIR then NDIR - i else 0
  {
    if i >= NDIR then InodeStep(c, blocks, ret)
    else if blocks[i] == 0 && !fl.append then
      IterDirect(fl, f, c.(bcount := c.bcount + 1), blocks, i + 1, ret)
    else
      var s := Call(f, c, blocks[i], c.bcount);
      var done := InodeStep(s.c, blocks[i := s.blk], ret.Or(s.ret));
      if done.ret.abort then done
      else IterDirect(fl, f, done.c.(bcount := done.c.bcount + 1), done.blocks, i + 1, done.ret)
  }

  /** One of the three indirect trees of the inode. */
  function IterRoot<P>(g: Geometry, fl: Flags, f: Callback<P>, level: nat, s: InodeStep<P>): (r: InodeStep<P>)
    requires 1 <= level <= 3 && |s.blocks| == NDIR + 3
    ensures |r.blocks| == NDIR + 3
  {
    var at := NDIR + level - 1;
    if s.ret.abort then s
    else if s.blocks[at] != 0 || fl.append then
      var step := IterNode(g, fl, f, level, s.c, s.blocks[at]);
      InodeStep(step.c, s.blocks[at := step.blk], s.ret.Or(step.ret))
    else if level == 3 then s
    else s.(c := s.c.(bcount := s.c.bcount + Pow(g.n, level)))
  }

  /** ext2fs_block_iterate2 on the block numbers of an inode. */
  function IterInode<P>(g: Geometry, fl: Flags, f: Callback<P>, disk: Disk, p: P, blocks: seq<nat>): (r: InodeStep<P>)
    requires |blocks| == NDIR + 3
    ensures |r.blocks| == NDIR + 3
  {
    var s := IterDirect(fl, f, Context(disk, p, 0, NoError), blocks, 0, NOTHING);
    IterRoot(g, fl, f, 3, IterRoot(g, fl, f, 2, IterRoot(g, fl, f, 1, s)))
  }

  // ---------- one step at a time ----------

  lemma NodeAt<P>(g: Geometry, fl: Flags, f: Callback<P>, level: nat, c: Context<P>, blk: nat)
    requires level > 0
    ensures var pre := if !fl.depth && !fl.dataOnly then Call(f, c, blk, CountCode(level)) else Step(c, blk, NOTHING);
            IterNode(g, fl, f, level, c, blk) ==
            if pre.blk == 0 || pre.ret.abort
                then Step(pre.c.(bcount := pre.c.bcount + Pow(g.n, level)), pre.blk, pre.ret)
            else if !g.InRange(pre.blk) then Step(pre.c.(errcode := BadBlock(level)), pre.blk, pre.ret.(error := true))
            else
              AfterChildren(fl, f, level, pre.blk,
                        IterLoop(g, fl, f, level, pre.c.(errcode := NoError), ReadInd(pre.c.disk, pre.blk, g.n), 0,
                            false, pre.ret))
  {
    hide IterLoop, Call, Pow, ReadInd, CountCode, BadBlock;
  }

  /** Writing the block back, and the callback on it in depth-first order. */
  function AfterChildren<P>(fl: Flags, f: Callback<P>, level: nat, blk: nat, l: LoopStep<P>): Step<P> {
    var c1 := if l.changed then l.c.(disk := l.c.disk[blk := l.buf], errcode := NoError) else l.c;
    if fl.depth && !fl.dataOnly && !l.ret.abort then
      var post := Call(f, c1, blk, CountCode(level));
      Step(post.c, post.blk, l.ret.Or(post.ret))
    else Step(c1, blk, l.ret)
  }

  lemma LoopStops<P>(g: Geometry, fl: Flags, f: Callback<P>, level: nat, c: Context<P>, buf: seq<nat>, i: nat,
                     changed: bool, ret: Ret)
    requires level > 0 && |buf| == g.n && i >= g.n
    ensures IterLoop(g, fl, f, level, c, buf, i, changed, ret) == LoopStep(c, buf, changed, ret)
  {
  }

  lemma LoopSkips<P>(g: Geometry, fl: Flags, f: Callback<P>, level: nat, c: Context<P>, buf: seq<nat>, i: nat,
                     changed: bool, ret: Ret)
    requires level > 0 && |buf| == g.n && i < g.n && !fl.append && buf[i] == 0
    ensures IterLoop(g, fl, f, level, c, buf, i, changed, ret) ==
            IterLoop(g, fl, f, level, c.(bcount := c.bcount + Pow(g.n, level - 1)), buf, i + 1, changed, ret)
  {
    hide Pow;
  }

  lemma LoopCalls<P>(g: Geometry, fl: Flags, f: Callback<P>, c: Context<P>, buf: seq<nat>, i: nat, changed: bool,
                     ret: Ret)
    requires |buf| == g.n && i < g.n && (fl.append || buf[i] != 0)
    ensures var s := Call(f, c, buf[i], c.bcount);
            IterLoop(g, fl, f, 1, c, buf, i, changed, ret) ==
            if s.ret.abort then LoopStep(s.c, buf[i := s.blk], changed || s.ret.changed, ret.(abort := true))
            else IterLoop(g, fl, f, 1, s.c.(bcount := s.c.bcount + 1), buf[i := s.blk], i + 1,
                          changed || s.ret.changed, ret)
  {
    hide Call;
  }

  lemma LoopDescends<P>(g: Geometry, fl: Flags, f: Callback<P>, level: nat, c: Context<P>, buf: seq<nat>, i: nat,
                        changed: bool, ret: Ret)
    requires level > 1 && |buf| == g.n && i < g.n && (fl.append || buf[i] != 0)
    ensures var s := IterNode(g, fl, f, level - 1, c, buf[i]);
            IterLoop(g, fl, f, level, c, buf, i, changed, ret) ==
            if s.ret.abort || s.ret.error then
              LoopStep(s.c, buf[i := s.blk], changed || s.ret.changed,
                       ret.(abort := ret.abort || s.ret.abort, error := ret.error || s.ret.error))
            else IterLoop(g, fl, f, level, s.c, buf[i := s.blk], i + 1, changed || s.ret.changed, ret)
  {
    hide IterNode;
  }

  lemma PowOne(n: nat)
    ensures Pow(n, 0) == 1
  {
  }

  lemma DirectAt<P>(fl: Flags, f: Callback<P>, c: Context<P>, blocks: seq<nat>, i: nat, ret: Ret)
    requires |blocks| == NDIR + 3
    ensures IterDirect(fl, f, c, blocks, i, ret) ==
            if i >= NDIR then InodeStep(c, blocks, ret)
            else if blocks[i] == 0 && !fl.append then IterDirect(fl, f, c.(bcount := c.bcount + 1), blocks, i + 1, ret)
            else
              var s := Call(f, c, blocks[i], c.bcount);
              if ret.abort || s.ret.abort then InodeStep(s.c, blocks[i := s.blk], ret.Or(s.ret))
              else IterDirect(fl, f, s.c.(bcount := s.c.bcount + 1), blocks[i := s.blk], i + 1, ret.Or(s.ret))
  {
    hide Call;
  }

  /** struct block_context */
  class BlockContext<P> {
    const g: Geometry
    const fl: Flags
    const f: Callback<P>
    var disk: Disk
    var privData: P
    var bcount: nat
    var errcode: ErrCode

    constructor (g: Geometry, fl: Flags, f: Callback<P>, disk: Disk, p: P)
      ensures this.g == g && this.fl == fl && this.f == f
      ensures State() == Context(disk, p, 0, NoError)
    {
      this.g, this.fl, this.f, this.disk, privData, bcount, errcode := g, fl, f, disk, p, 0, NoError;
    }

    function State(): Context<P>
      reads this
    {
      Context(disk, privData, bcount, errcode)
    }

    method CallBack(blk: nat, count: int) returns (blk': nat, ret: Ret)
      modifies this
      ensures Step(State(), blk', ret) == Call(f, old(State()), blk, count)
    {
      var r := f(disk, privData, blk, count);
      disk, privData, blk', ret := r.disk, r.p, r.blk, r.ret;
    }

    /** block_iterate_ind */
    method IterateInd(indBlock: nat) returns (blk: nat, ret: Ret)
      modifies this
      ensures Step(State(), blk, ret) == IterNode(g, fl, f, 1, old(State()), indBlock)
    {
      hide ReadInd, IterLoop, IterNode, Call, Pow, CountCode;
      blk, ret := indBlock, NOTHING;
      NodeAt(g, fl, f, 1, State(), blk);
      if !fl.depth && !fl.dataOnly {
        blk, ret := CallBack(blk, CountCode(1));
      }
      if blk == 0 || ret.abort {
        bcount := bcount + Pow(g.n, 1);
        return;
      }
      if !g.InRange(blk) {
        errcode := BadInd;
        return blk, ret.(error := true);
      }
      errcode := NoError;
      var buf, changed, i := ReadInd(disk, blk, g.n), false, 0;
      ghost var total := IterLoop(g, fl, f, 1, State(), buf, 0, false, ret);
      while i < g.n
        invariant 0 <= i <= g.n && |buf| == g.n
        invariant IterLoop(g, fl, f, 1, State(), buf, i, changed, ret) == total
      {
        if buf[i] != 0 || fl.append {
          LoopCalls(g, fl, f, State(), buf, i, changed, ret);
          var b, flags := CallBack(buf[i], bcount);
          buf, changed := buf[i := b], changed || flags.changed;
          if flags.abort {
            ret := ret.(abort := true);
            break;
          }
        } else {
          LoopSkips(g, fl, f, 1, State(), buf, i, changed, ret);
          PowOne(g.n);
        }
        bcount, i := bcount + 1, i + 1;
      }
      if i >= g.n {
        LoopStops(g, fl, f, 1, State(), buf, i, changed, ret);
      }
      assert LoopStep(State(), buf, changed, ret) == total;
      if changed {
        disk, errcode := disk[blk := buf], NoError;
      }
      if fl.depth && !fl.dataOnly && !ret.abort {
        var flags;
        blk, flags := CallBack(blk, CountCode(1));
        ret := ret.Or(flags);
      }
    }

    /** block_iterate_dind */
    method IterateDind(dindBlock: nat) returns (blk: nat, ret: Ret)
      modifies this
      ensures Step(State(), blk, ret) == IterNode(g, fl, f, 2, old(State()), dindBlock)
    {
      hide ReadInd, IterLoop, IterNode, Call, Pow, CountCode;
      blk, ret := dindBlock, NOTHING;
      NodeAt(g, fl, f, 2, State(), blk);
      if !fl.depth && !fl.dataOnly {
        blk, ret := CallBack(blk, CountCode(2));
      }
      if blk == 0 || ret.abort {
        bcount := bcount + Pow(g.n, 2);
        return;
      }
      if !g.InRange(blk) {
        errcode := BadDind;
        return blk, ret.(error := true);
      }
      errcode := NoError;
      var buf, changed, i := ReadInd(disk, blk, g.n), false, 0;
      ghost var total := IterLoop(g, fl, f, 2, State(), buf, 0, false, ret);
      while i < g.n
        invariant 0 <= i <= g.n && |buf| == g.n
        invariant IterLoop(g, fl, f, 2, State(), buf, i, changed, ret) == total
      {
        if buf[i] == 0 && !fl.append {
          LoopSkips(g, fl, f, 2, State(), buf, i, changed, ret);
          bcount := bcount + Pow(g.n, 1);
        } else {
          LoopDescends(g, fl, f, 2, State(), buf, i, changed, ret);
          var b, flags := IterateInd(buf[i]);
          buf, changed := buf[i := b], changed || flags.changed;
          if flags.abort || flags.error {
            ret := ret.(abort := ret.abort || flags.abort, error := ret.error || flags.error);
            break;
          }
        }
        i := i + 1;
      }
      if i >= g.n {
        LoopStops(g, fl, f, 2, State(), buf, i, changed, ret);
      }
      assert LoopStep(State(), buf, changed, ret) == total;
      if changed {
        disk, errcode := disk[blk := buf], NoError;
      }
      if fl.depth && !fl.dataOnly && !ret.abort {
        var flags;
        blk, flags := CallBack(blk, CountCode(2));
        ret := ret.Or(flags);
      }
    }

    /** block_iterate_tind */
    method IterateTind(tindBlock: nat) returns (blk: nat, ret: Ret)
      modifies this
      ensures Step(State(), blk, ret) == IterNode(g, fl, f, 3, old(State()), tindBlock)
    {
      hide ReadInd, IterLoop, IterNode, Call, Pow, CountCode;
      blk, ret := tindBlock, NOTHING;
      NodeAt(g, fl, f, 3, State(), blk);
      if !fl.depth && !fl.dataOnly {
        blk, ret := CallBack(blk, CountCode(3));
      }
      if blk == 0 || ret.abort {
        bcount := bcount + Pow(g.n, 3);
        return;
      }
      if !g.InRange(blk) {
        errcode := BadTind;
        return blk, ret.(error := true);
      }
      errcode := NoError;
      var buf, changed, i := ReadInd(disk, blk, g.n), false, 0;
      ghost var total := IterLoop(g, fl, f, 3, State(), buf, 0, false, ret);
      while i < g.n
        invariant 0 <= i <= g.n && |buf| == g.n
        invariant IterLoop(g, fl, f, 3, State(), buf, i, changed, ret) == total
      {
        if buf[i] == 0 && !fl.append {
          LoopSkips(g, fl, f, 3, State(), buf, i, changed, ret);
          bcount := bcount + Pow(g.n, 2);
        } else {
          LoopDescends(g, fl, f, 3, State(), buf, i, changed, ret);
          var b, flags := IterateDind(buf[i]);
          buf, changed := buf[i := b], changed || flags.changed;
          if flags.abort || flags.error {
            ret := ret.(abort := ret.abort || flags.abort, error := ret.error || flags.error);
            break;
          }
        }
        i := i + 1;
      }
      if i >= g.n {
        LoopStops(g, fl, f, 3, State(), buf, i, changed, ret);
      }
      assert LoopStep(State(), buf, changed, ret) == total;
      if changed {
        disk, errcode := disk[blk := buf], NoError;
      }
      if fl.depth && !fl.dataOnly && !ret.abort {
        var flags;
        blk, flags := CallBack(blk, CountCode(3));
        ret := ret.Or(flags);
      }
    }

    /** The body of ext2fs_block_iterate2: direct blocks, then the three trees. */
    method IterateInode(inodeBlocks: seq<nat>) returns (blocks: seq<nat>, ret: Ret)
      requires |inodeBlocks| == NDIR + 3 && bcount == 0 && errcode == NoError
      modifies this
      ensures InodeStep(State(), blocks, ret) == IterInode(g, fl, f, old(disk), old(privData), inodeBlocks)
    {
      hide IterDirect, IterNode, Pow;
      blocks, ret := IterateDirect(inodeBlocks);
      if ret.abort { return; }
      blocks, ret := IterateRoot(blocks, ret, 1);
      if ret.abort { return; }
      blocks, ret := IterateRoot(blocks, ret, 2);
      if ret.abort { return; }
      blocks, ret := IterateRoot(blocks, ret, 3);
    }

    method IterateDirect(inodeBlocks: seq<nat>) returns (blocks: seq<nat>, ret: Ret)
      requires |inodeBlocks| == NDIR + 3
      modifies this
      ensures InodeStep(State(), blocks, ret) == IterDirect(fl, f, old(State()), inodeBlocks, 0, NOTHING)
    {
      hide IterDirect, Call;
      blocks, ret := inodeBlocks, NOTHING;
      ghost var direct := IterDirect(fl, f, State(), blocks, 0, ret);
      var i := 0;
      while i < NDIR
        invariant 0 <= i <= NDIR && |blocks| == NDIR + 3
        invariant !ret.abort && IterDirect(fl, f, State(), blocks, i, ret) == direct
      {
        DirectAt(fl, f, State(), blocks, i, ret);
        if blocks[i] != 0 || fl.append {
          var b, flags := CallBack(blocks[i], bcount);
          blocks, ret := blocks[i := b], ret.Or(flags);
          if ret.abort {
            return;
          }
        }
        bcount, i := bcount + 1, i + 1;
      }
      DirectAt(fl, f, State(), blocks, i, ret);
    }

    method IterateRoot(blocks0: seq<nat>, ret0: Ret, level: nat) returns (blocks: seq<nat>, ret: Ret)
      requires 1 <= level <= 3 && |blocks0| == NDIR + 3 && !ret0.abort
      modifies this
      ensures InodeStep(State(), blocks, ret) == IterRoot(g, fl, f, level, InodeStep(old(State()), blocks0, ret0))
    {
      blocks, ret := blocks0, ret0;
      var at := NDIR + level - 1;
      if blocks[at] != 0 || fl.append {
        var b, flags;
        if level == 1 {
          b, flags := IterateInd(blocks[at]);
        } else if level == 2 {
          b, flags := IterateDind(blocks[at]);
        } else {
          b, flags := IterateTind(blocks[at]);
        }
        blocks, ret := blocks[at := b], ret.Or(flags);
      } else if level < 3 {
        bcount := bcount + Pow(g.n, level);
      }
    }
  }
}
