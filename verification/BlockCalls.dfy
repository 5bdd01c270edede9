/**
 Every call the iterator makes: when it hands indirect blocks to its callback, before what they hold or
 after it, and when it tells its caller that one of them lies outside the file system.
 */
module BlockCalls {
  import opened BlockIter
  import opened BlockMap

  /** A callback that changes nothing and notes every call. */
  function Noter(): Callback<seq<Visit>> {
    (disk: Disk, p: seq<Visit>, blk: nat, count: int) => Called(disk, p + [Visit(count, blk)], blk, NOTHING)
  }

  /**
   The blocks of a tree in the order they are handed out: an indirect block before those it holds, or
   after them in a depth-first iteration, and not at all if only data is asked for.
   */
  ghost function Calls(n: nat, fl: Flags, disk: Disk, level: nat, blk: nat, start: nat): seq<Visit>
    decreases level, n + 1
  {
    if blk == 0 then []
    else if level == 0 then [Visit(start, blk)]
    else
      var self := if fl.dataOnly then [] else [Visit(CountCode(level), blk)];
      var below := CallsFrom(n, fl, disk, level, ReadInd(disk, blk, n), 0, start);
      if fl.depth then below + self else self + below
  }

  /** Those of the blocks held by an indirect block, from position i on. */
  ghost function CallsFrom(n: nat, fl: Flags, disk: Disk, level: nat, kids: seq<nat>, i: nat, start: nat): seq<Visit>
    requires level > 0 && |kids| == n
    decreases level, if i < n then n - i else 0
  {
    if i >= n then []
    else
      Calls(n, fl, disk, level - 1, kids[i], start) +
      CallsFrom(n, fl, disk, level, kids, i + 1, start + Pow(n, level - 1))
  }

  lemma CallsHere(n: nat, fl: Flags, disk: Disk, level: nat, blk: nat, start: nat)
    requires level > 0 && blk != 0
    ensures Calls(n, fl, disk, level, blk, start) ==
            (if fl.dataOnly || fl.depth then [] else [Visit(CountCode(level), blk)]) +
            CallsFrom(n, fl, disk, level, ReadInd(disk, blk, n), 0, start) +
            (if fl.dataOnly || !fl.depth then [] else [Visit(CountCode(level), blk)])
  {
    hide CallsFrom, ReadInd, CountCode;
  }

  lemma CallsNext(n: nat, fl: Flags, disk: Disk, level: nat, kids: seq<nat>, i: nat, start: nat)
    requires level > 0 && |kids| == n
    ensures CallsFrom(n, fl, disk, level, kids, i, start) ==
            if i >= n then []
            else
              Calls(n, fl, disk, level - 1, kids[i], start) +
              CallsFrom(n, fl, disk, level, kids, i + 1, start + Pow(n, level - 1))
  {
    hide Calls, Pow;
  }

  lemma CallsLeaf(n: nat, fl: Flags, disk: Disk, blk: nat, start: nat)
    ensures Calls(n, fl, disk, 0, blk, start) == if blk == 0 then [] else [Visit(start, blk)]
  {
  }

  lemma CallsHole(n: nat, fl: Flags, disk: Disk, level: nat, start: nat)
    ensures Calls(n, fl, disk, level, 0, start) == []
  {
  }

  /** The callback on the indirect block itself, where it comes first. */
  ghost function Noted(fl: Flags, level: nat, c: Context<seq<Visit>>, blk: nat): Context<seq<Visit>> {
    if fl.depth || fl.dataOnly then c else c.(p := c.p + [Visit(CountCode(level), blk)])
  }

  /** One indirect block in terms of the loop over what it holds. */
  lemma NodeInLoop(g: Geometry, fl: Flags, level: nat, c: Context<seq<Visit>>, blk: nat)
    requires level > 0 && blk != 0
    ensures IterNode(g, fl, Noter(), level, c, blk) ==
            if !g.InRange(blk) then
              Step(Noted(fl, level, c, blk).(errcode := BadBlock(level)), blk, Ret(false, false, true))
            else
              AfterChildren(fl, Noter(), level, blk,
                            IterLoop(g, fl, Noter(), level, Noted(fl, level, c, blk).(errcode := NoError),
                                     ReadInd(c.disk, blk, g.n), 0, false, NOTHING))
  {
    NodeAt(g, fl, Noter(), level, c, blk);
    hide IterLoop, IterNode, AfterChildren, ReadInd, CountCode, BadBlock, Pow;
  }

  lemma AfterNoted(fl: Flags, level: nat, blk: nat, l: LoopStep<seq<Visit>>)
    requires !l.changed && !l.ret.abort
    ensures AfterChildren(fl, Noter(), level, blk, l) ==
            Step(if fl.dataOnly || !fl.depth then l.c
                else l.c.(p := l.c.p + [Visit(CountCode(level), blk)]), blk, l.ret)
  {
    hide CountCode;
  }

  lemma {:induction false} CallsNode(g: Geometry, fl: Flags, level: nat, c: Context<seq<Visit>>, blk: nat)
    requires level > 0 && !fl.append && blk != 0 && WellFormed(g, c.disk, level, blk)
    ensures IterNode(g, fl, Noter(), level, c, blk) ==
            Step(After(c, Calls(g.n, fl, c.disk, level, blk, c.bcount), c.bcount + Pow(g.n, level)), blk, NOTHING)
    decreases level, g.n + 1
  {
    hide IterLoop, IterNode, Calls, CallsFrom, ReadInd, Pow, WellFormed, CountCode, AfterChildren, ChildStart, Noter;
    var kids, c1 := ReadInd(c.disk, blk, g.n), Noted(fl, level, c, blk).(errcode := NoError);
    InFileSystem(g, c.disk, level, blk);
    NodeInLoop(g, fl, level, c, blk);
    NextChild(g.n, level, c.bcount, 0);
    CallsLoop(g, fl, level, c1, blk, 0, c.bcount);
    CallsHere(g.n, fl, c.disk, level, blk, c.bcount);
    var l := IterLoop(g, fl, Noter(), level, c1, kids, 0, false, NOTHING);
    AfterNoted(fl, level, blk, l);
    var below := CallsFrom(g.n, fl, c.disk, level, kids, 0, c.bcount);
    var self := [Visit(CountCode(level), blk)];
    var before := if fl.dataOnly || fl.depth then [] else self;
    var after := if fl.dataOnly || !fl.depth then [] else self;
    assert c1.p == c.p + before && l.c.p + after == c.p + (before + below + after);
    assert l.c.p + [] == l.c.p;
  }

  lemma InFileSystem(g: Geometry, disk: Disk, level: nat, blk: nat)
    requires level > 0 && blk != 0 && WellFormed(g, disk, level, blk)
    ensures g.InRange(blk)
  {
  }

  lemma {:induction false} CallsLoop(g: Geometry, fl: Flags, level: nat, c: Context<seq<Visit>>, blk: nat, i: nat,
                                     start: nat)
    requires level > 0 && !fl.append && blk != 0 && WellFormed(g, c.disk, level, blk)
    requires i <= g.n && c.errcode == NoError && c.bcount == ChildStart(g.n, level, start, i)
    ensures var kids := ReadInd(c.disk, blk, g.n);
            IterLoop(g, fl, Noter(), level, c, kids, i, false, NOTHING) ==
            LoopStep(After(c, CallsFrom(g.n, fl, c.disk, level, kids, i, c.bcount), start + Pow(g.n, level)),
                     kids, false, NOTHING)
    decreases level, g.n - i
  {
    hide WellFormed, ReadInd, Pow, ChildStart, Calls, CallsFrom, IterLoop, IterNode, Noter;
    var kids := ReadInd(c.disk, blk, g.n);
    NextChild(g.n, level, start, i);
    CallsNext(g.n, fl, c.disk, level, kids, i, c.bcount);
    if i < g.n {
      WellFormedChild(g, c.disk, level, blk, i);
      ChildPasses(g, fl, level, c, kids, i);
      var vs := Calls(g.n, fl, c.disk, level - 1, kids[i], c.bcount);
      var c1 := After(c, vs, c.bcount + Pow(g.n, level - 1));
      CallsLoop(g, fl, level, c1, blk, i + 1, start);
      var rest := CallsFrom(g.n, fl, c.disk, level, kids, i + 1, c1.bcount);
      assert c.p + vs + rest == c.p + (vs + rest);
    } else {
      LoopStops(g, fl, Noter(), level, c, kids, i, false, NOTHING);
      NextChild(g.n, level, start, 0);
      assert c.p + [] == c.p;
    }
  }

  /** One turn of the loop, over a child that is in order. */
  lemma {:induction false} ChildPasses(g: Geometry, fl: Flags, level: nat, c: Context<seq<Visit>>, kids: seq<nat>,
                                       i: nat)
    requires level > 0 && !fl.append && |kids| == g.n && i < g.n && c.errcode == NoError
    requires WellFormed(g, c.disk, level - 1, kids[i])
    ensures var vs := Calls(g.n, fl, c.disk, level - 1, kids[i], c.bcount);
            IterLoop(g, fl, Noter(), level, c, kids, i, false, NOTHING) ==
            IterLoop(g, fl, Noter(), level, After(c, vs, c.bcount + Pow(g.n, level - 1)), kids, i + 1, false, NOTHING)
    decreases level, 0
  {
    assert kids[i := kids[i]] == kids && c.p + [] == c.p;
    PowOne(g.n);
    if kids[i] == 0 {
      CallsHole(g.n, fl, c.disk, level - 1, c.bcount);
      LoopSkips(g, fl, Noter(), level, c, kids, i, false, NOTHING);
    } else if level == 1 {
      CallsLeaf(g.n, fl, c.disk, kids[i], c.bcount);
      LoopCalls(g, fl, Noter(), c, kids, i, false, NOTHING);
    } else {
      CallsNode(g, fl, level - 1, c, kids[i]);
      LoopDescends(g, fl, Noter(), level, c, kids, i, false, NOTHING);
    }
    hide IterLoop, IterNode, Calls, WellFormed, Pow;
  }

  // ---------- a block outside the file system ----------

  /** Nothing on the disk has changed, and an error has been noted. */
  ghost predicate Failed(c: Context<seq<Visit>>, disk: Disk, ret: Ret) {
    c.disk == disk && c.errcode != NoError && ret == Ret(false, false, true)
  }

  lemma {:induction false} BadNode(g: Geometry, fl: Flags, level: nat, c: Context<seq<Visit>>, blk: nat)
    requires level > 0 && !fl.append && blk != 0 && !WellFormed(g, c.disk, level, blk)
    ensures var r := IterNode(g, fl, Noter(), level, c, blk); r.blk == blk && Failed(r.c, c.disk, r.ret)
    decreases level, g.n + 1
  {
    var kids, c1 := ReadInd(c.disk, blk, g.n), Noted(fl, level, c, blk).(errcode := NoError);
    NodeInLoop(g, fl, level, c, blk);
    if g.InRange(blk) {
      var j := BadChild(g, c.disk, level, blk);
      BadLoop(g, fl, level, c1, kids, 0, j);
      AfterNoted(fl, level, blk, IterLoop(g, fl, Noter(), level, c1, kids, 0, false, NOTHING));
    }
    hide IterLoop, IterNode, ReadInd, WellFormed, AfterChildren;
  }

  lemma BadChild(g: Geometry, disk: Disk, level: nat, blk: nat) returns (j: nat)
    requires level > 0 && blk != 0 && g.InRange(blk) && !WellFormed(g, disk, level, blk)
    ensures j < g.n && level > 1 && !WellFormed(g, disk, level - 1, ReadInd(disk, blk, g.n)[j])
  {
    j :| 0 <= j < g.n && !WellFormed(g, disk, level - 1, ReadInd(disk, blk, g.n)[j]);
  }

  lemma {:induction false} BadLoop(g: Geometry, fl: Flags, level: nat, c: Context<seq<Visit>>, kids: seq<nat>, i: nat,
                                   j: nat)
    requires level > 1 && !fl.append && |kids| == g.n && i <= j < g.n && c.errcode == NoError
    requires !WellFormed(g, c.disk, level - 1, kids[j])
    ensures var l := IterLoop(g, fl, Noter(), level, c, kids, i, false, NOTHING);
            !l.changed && Failed(l.c, c.disk, l.ret)
    decreases level, g.n - i
  {
    hide IterLoop, IterNode, Calls, Pow;
    if WellFormed(g, c.disk, level - 1, kids[i]) {
      ChildPasses(g, fl, level, c, kids, i);
      var vs := Calls(g.n, fl, c.disk, level - 1, kids[i], c.bcount);
      BadLoop(g, fl, level, After(c, vs, c.bcount + Pow(g.n, level - 1)), kids, i + 1, j);
    } else {
      BadNode(g, fl, level - 1, c, kids[i]);
      LoopDescends(g, fl, Noter(), level, c, kids, i, false, NOTHING);
    }
  }

  // ---------- the whole inode ----------

  /** The direct blocks are handed out as they were to a callback that notes data blocks only. */
  lemma {:induction false} DirectNoted(fl: Flags, c: Context<seq<Visit>>, blocks: seq<nat>, i: nat, ret: Ret)
    requires |blocks| == NDIR + 3 && !ret.abort
    ensures IterDirect(fl, Noter(), c, blocks, i, ret) == IterDirect(fl, Recorder(), c, blocks, i, ret)
    decreases if i < NDIR then NDIR - i else 0
  {
    DirectAt(fl, Noter(), c, blocks, i, ret);
    DirectAt(fl, Recorder(), c, blocks, i, ret);
    if i < NDIR {
      if blocks[i] == 0 && !fl.append {
        DirectNoted(fl, c.(bcount := c.bcount + 1), blocks, i + 1, ret);
      } else {
        var s := Call(Noter(), c, blocks[i], c.bcount);
        DirectNoted(fl, s.c.(bcount := s.c.bcount + 1), blocks[i := s.blk], i + 1, ret.Or(s.ret));
      }
    }
    hide IterDirect;
  }

  ghost predicate Bad(g: Geometry, disk: Disk, blocks: seq<nat>, level: nat)
    requires |blocks| == NDIR + 3 && 1 <= level <= 3
  {
    !WellFormed(g, disk, level, blocks[NDIR + level - 1])
  }

  /** A tree of the inode: the calls for it if it is in order, and the error code it leaves. */
  lemma NotedRoot(g: Geometry, fl: Flags, level: nat, s: InodeStep<seq<Visit>>)
    requires |s.blocks| == NDIR + 3 && 1 <= level <= 3 && !fl.append && !s.ret.abort && !s.ret.changed
    ensures var r, blk := IterRoot(g, fl, Noter(), level, s), s.blocks[NDIR + level - 1];
            && r.blocks == s.blocks && r.c.disk == s.c.disk && !r.ret.abort && !r.ret.changed
            && r.ret.error == (s.ret.error || Bad(g, s.c.disk, s.blocks, level))
            && (blk == 0 ==> r.c.errcode == s.c.errcode)
            && (blk != 0 ==> (r.c.errcode == NoError <==> !Bad(g, s.c.disk, s.blocks, level)))
            && (!Bad(g, s.c.disk, s.blocks, level) ==>
                r.c.p == s.c.p + Calls(g.n, fl, s.c.disk, level, blk, s.c.bcount) &&
                (level < 3 ==> r.c.bcount == s.c.bcount + Pow(g.n, level)))
  {
    hide IterNode, Calls, Pow, Noter;
    var blk := s.blocks[NDIR + level - 1];
    if blk == 0 {
      CallsHole(g.n, fl, s.c.disk, level, s.c.bcount);
    } else if Bad(g, s.c.disk, s.blocks, level) {
      BadNode(g, fl, level, s.c, blk);
    } else {
      CallsNode(g, fl, level, s.c, blk);
    }
    hide WellFormed;
  }

  /**
   All calls of ext2fs_block_iterate2, in order, whatever its flags, for a file whose indirect blocks are
   in order.
   */
  lemma IteratorCalls(g: Geometry, fl: Flags, disk: Disk, blocks: seq<nat>)
    requires WellFormedInode(g, disk, blocks) && !fl.append
    ensures var r := IterInode(g, fl, Noter(), disk, [], blocks);
            && r.c.disk == disk && r.blocks == blocks && r.ret == NOTHING && r.c.errcode == NoError
            && r.c.p ==
               Scan(FileMap(disk, g.n, blocks), 0, NDIR) +
               Calls(g.n, fl, disk, 1, blocks[NDIR], RootStart(g.n, 1)) +
               Calls(g.n, fl, disk, 2, blocks[NDIR + 1], RootStart(g.n, 2)) +
               Calls(g.n, fl, disk, 3, blocks[NDIR + 2], RootStart(g.n, 3))
  {
    hide IterRoot, IterDirect, Scan, Pow, RootStart, FileMap, Noter, Recorder, Calls, WellFormed;
    var c0 := Context(disk, [], 0, NoError);
    RootStarts(g.n);
    DirectNoted(fl, c0, blocks, 0, NOTHING);
    VisitDirect(g, fl, c0, blocks, 0);
    var s := IterDirect(fl, Noter(), c0, blocks, 0, NOTHING);
    NotedRoot(g, fl, 1, s);
    var s1 := IterRoot(g, fl, Noter(), 1, s);
    NotedRoot(g, fl, 2, s1);
    NotedRoot(g, fl, 3, IterRoot(g, fl, Noter(), 2, s1));
    assert [] + Scan(FileMap(disk, g.n, blocks), 0, NDIR) == Scan(FileMap(disk, g.n, blocks), 0, NDIR);
  }

  /** What ext2fs_block_iterate2 returns. */
  function Returned<P>(s: InodeStep<P>): ErrCode {
    if s.ret.error then s.c.errcode else NoError
  }

  /**
   An indirect block outside the file system ends the iteration of its tree, but the caller is only told
   so if no later tree is read: reading that one's root overwrites the error code.
   */
  lemma BadBlockReported(g: Geometry, fl: Flags, disk: Disk, blocks: seq<nat>)
    requires g.n > 0 && |blocks| == NDIR + 3 && !fl.append
    ensures Returned(IterInode(g, fl, Noter(), disk, [], blocks)) != NoError <==>
            exists level :: 1 <= level <= 3 && Bad(g, disk, blocks, level) &&
                            forall later :: level < later <= 3 ==>
                              blocks[NDIR + later - 1] == 0 || Bad(g, disk, blocks, later)
  {
    hide IterRoot, IterDirect, Scan, Pow, FileMap, Noter, Recorder, Calls, WellFormed;
    var c0 := Context(disk, [], 0, NoError);
    DirectNoted(fl, c0, blocks, 0, NOTHING);
    VisitDirect(g, fl, c0, blocks, 0);
    var s := IterDirect(fl, Noter(), c0, blocks, 0, NOTHING);
    NotedRoot(g, fl, 1, s);
    var s1 := IterRoot(g, fl, Noter(), 1, s);
    NotedRoot(g, fl, 2, s1);
    NotedRoot(g, fl, 3, IterRoot(g, fl, Noter(), 2, s1));
    HoleIsGood(g, disk, blocks);
  }

  lemma HoleIsGood(g: Geometry, disk: Disk, blocks: seq<nat>)
    requires |blocks| == NDIR + 3
    ensures forall level :: 1 <= level <= 3 && Bad(g, disk, blocks, level) ==> blocks[NDIR + level - 1] != 0
  {
  }
}
