/**
 Which disk block holds a logical block of a file: the tree of block numbers read by
 division, and proof that the iterator visits exactly those blocks, in order.
 */
module BlockMap {
  import opened Arith
  import opened BlockIter

  lemma PowPositive(n: nat, k: nat)
    requires n > 0
    ensures Pow(n, k) > 0
  {
    if k > 0 {
      PowPositive(n, k - 1);
      MulMonotone(1, n, Pow(n, k - 1));
    }
  }

  /** The block with index `idx` in the tree of the given level below `blk`; 0 where nothing is mapped. */
  function Lookup(disk: Disk, n: nat, level: nat, blk: nat, idx: int): (r: nat)
    requires n > 0
    decreases level
  {
    if blk == 0 || idx < 0 || idx >= Pow(n, level) then 0
    else if level == 0 then blk
    else
      PowPositive(n, level - 1);
      DigitBound(n, level, idx);
      var w := Pow(n, level - 1);
      Lookup(disk, n, level - 1, ReadInd(disk, blk, n)[idx / w], idx % w)
  }

  lemma DigitBound(n: nat, level: nat, idx: nat)
    requires n > 0 && level > 0 && idx < Pow(n, level) && Pow(n, level - 1) > 0
    ensures 0 <= idx / Pow(n, level - 1) < n
    ensures 0 <= idx % Pow(n, level - 1) < Pow(n, level - 1)
  {
    var w := Pow(n, level - 1);
    var q := idx / w;
    assert idx == q * w + idx % w;
    if q >= n {
      MulMonotone(n, q, w);
    }
  }

  /** First logical block of the tree of each level. */
  function RootStart(n: nat, level: nat): nat {
    if level <= 1 then NDIR else RootStart(n, level - 1) + Pow(n, level - 1)
  }

  function MaxBlocks(n: nat): nat {
    RootStart(n, 4)
  }

  /** The disk block of logical block `j` of the file. */
  function FileBlock(disk: Disk, n: nat, blocks: seq<nat>, j: int): nat
    requires n > 0 && |blocks| == NDIR + 3
  {
    if j < 0 then 0
    else if j < NDIR then blocks[j]
    else if j < RootStart(n, 2) then Lookup(disk, n, 1, blocks[NDIR], j - NDIR)
    else if j < RootStart(n, 3) then Lookup(disk, n, 2, blocks[NDIR + 1], j - RootStart(n, 2))
    else Lookup(disk, n, 3, blocks[NDIR + 2], j - RootStart(n, 3))
  }

  // ---------- the mapped blocks of a range, in order ----------

  datatype Visit = Visit(count: int, blk: nat)

  type Mapping = int -> nat

  /** Every index in [lo, hi) that `m` maps to a block, in increasing order, with the block. */
  function Scan(m: Mapping, lo: int, hi: int): seq<Visit>
    decreases if lo < hi then hi - lo else 0
  {
    if lo >= hi then []
    else Scan(m, lo, hi - 1) + (if m(hi - 1) != 0 then [Visit(hi - 1, m(hi - 1))] else [])
  }

  lemma {:induction false} ScanSplit(m: Mapping, lo: int, mid: int, hi: int)
    requires lo <= mid <= hi
    ensures Scan(m, lo, hi) == Scan(m, lo, mid) + Scan(m, mid, hi)
    decreases hi - mid
  {
    if mid < hi {
      ScanSplit(m, lo, mid, hi - 1);
    }
  }

  lemma ScanFirst(m: Mapping, lo: int, hi: int)
    requires lo < hi
    ensures Scan(m, lo, hi) == (if m(lo) != 0 then [Visit(lo, m(lo))] else []) + Scan(m, lo + 1, hi)
  {
    ScanSplit(m, lo, lo + 1, hi);
    assert Scan(m, lo, lo) == [];
  }

  lemma {:induction false} ScanSame(m: Mapping, m': Mapping, lo: int, hi: int)
    requires forall j :: lo <= j < hi ==> m(j) == m'(j)
    ensures Scan(m, lo, hi) == Scan(m', lo, hi)
    decreases if lo < hi then hi - lo else 0
  {
    if lo < hi {
      ScanSame(m, m', lo, hi - 1);
    }
  }

  /** What a scan is, element by element: increasing, and exactly the mapped indices. */
  lemma {:induction false} ScanExact(m: Mapping, lo: int, hi: int)
    ensures forall i, j :: 0 <= i < j < |Scan(m, lo, hi)| ==> Scan(m, lo, hi)[i].count < Scan(m, lo, hi)[j].count
    ensures forall j, b :: Visit(j, b) in Scan(m, lo, hi) <==> lo <= j < hi && m(j) == b && b != 0
    decreases if lo < hi then hi - lo else 0
  {
    if lo < hi {
      ScanExact(m, lo, hi - 1);
      var front, all := Scan(m, lo, hi - 1), Scan(m, lo, hi);
      forall i | 0 <= i < |front|
        ensures front[i].count < hi - 1
      {
        assert Visit(front[i].count, front[i].blk) in front;
      }
    }
  }

  // ---------- the iterator with a callback that only looks ----------

  function Recorder(): Callback<seq<Visit>> {
    (disk: Disk, p: seq<Visit>, blk: nat, count: int) =>
      Called(disk, if count >= 0 then p + [Visit(count, blk)] else p, blk, NOTHING)
  }

  /** Every indirect block below `blk` lies inside the file system. */
  ghost predicate WellFormed(g: Geometry, disk: Disk, level: nat, blk: nat)
    decreases level
  {
    blk != 0 && level > 0 ==>
      g.InRange(blk) && forall i :: 0 <= i < g.n ==> WellFormed(g, disk, level - 1, ReadInd(disk, blk, g.n)[i])
  }

  function TreeMap(disk: Disk, n: nat, level: nat, blk: nat, start: int): Mapping
    requires n > 0
  {
    (j: int) => Lookup(disk, n, level, blk, j - start)
  }

  /** The mapping of child i of an indirect block. */
  lemma ChildMap(disk: Disk, n: nat, level: nat, blk: nat, start: int, i: nat)
    requires n > 0 && level > 0 && blk != 0 && i < n
    ensures var w := Pow(n, level - 1);
            forall j :: start + i * w <= j < start + (i + 1) * w ==>
              TreeMap(disk, n, level, blk, start)(j) ==
              TreeMap(disk, n, level - 1, ReadInd(disk, blk, n)[i], start + i * w)(j)
  {
    var w := Pow(n, level - 1);
    forall j | start + i * w <= j < start + (i + 1) * w
      ensures TreeMap(disk, n, level, blk, start)(j) ==
              TreeMap(disk, n, level - 1, ReadInd(disk, blk, n)[i], start + i * w)(j)
    {
      ChildLookup(disk, n, level, blk, j - start, i);
    }
  }

  lemma ChildLookup(disk: Disk, n: nat, level: nat, blk: nat, idx: nat, i: nat)
    requires n > 0 && level > 0 && blk != 0 && i < n
    requires i * Pow(n, level - 1) <= idx < (i + 1) * Pow(n, level - 1)
    ensures Lookup(disk, n, level, blk, idx) ==
              Lookup(disk, n, level - 1, ReadInd(disk, blk, n)[i], idx - i * Pow(n, level - 1))
  {
    var w := Pow(n, level - 1);
    assert (i + 1) * w == i * w + w;
    DivModUnique(idx, w, i, idx - i * w);
    MulMonotone(i + 1, n, w);
  }

  /** Child i holds indices [i * w, (i + 1) * w) of its parent: what a scan of it gives. */
  lemma ScanChild(disk: Disk, n: nat, level: nat, blk: nat, start: int, i: nat)
    requires n > 0 && level > 0 && blk != 0 && i < n
    ensures var w := Pow(n, level - 1);
            Scan(TreeMap(disk, n, level, blk, start), start + i * w, start + (i + 1) * w) ==
            Scan(TreeMap(disk, n, level - 1, ReadInd(disk, blk, n)[i], start + i * w), start + i * w, start + i * w + w)
  {
    var w := Pow(n, level - 1);
    ChildMap(disk, n, level, blk, start, i);
    assert (i + 1) * w == i * w + w;
    ScanSame(TreeMap(disk, n, level, blk, start),
             TreeMap(disk, n, level - 1, ReadInd(disk, blk, n)[i], start + i * w),
             start + i * w, start + (i + 1) * w);
  }

  lemma {:induction false} ScanHole(disk: Disk, n: nat, level: nat, start: int, lo: int, hi: int)
    requires n > 0
    ensures Scan(TreeMap(disk, n, level, 0, start), lo, hi) == []
    decreases if lo < hi then hi - lo else 0
  {
    if lo < hi {
      var m := TreeMap(disk, n, level, 0, start);
      assert m(hi - 1) == Lookup(disk, n, level, 0, hi - 1 - start) == 0;
      ScanHole(disk, n, level, start, lo, hi - 1);
    }
  }

  lemma ScanLeaf(disk: Disk, n: nat, blk: nat, start: int)
    requires n > 0
    ensures Scan(TreeMap(disk, n, 0, blk, start), start, start + 1) == if blk == 0 then [] else [Visit(start, blk)]
  {
    var m := TreeMap(disk, n, 0, blk, start);
    assert m(start) == Lookup(disk, n, 0, blk, 0) == blk;
    assert Scan(m, start, start) == [];
  }

  /** First index below child i of an indirect block. */
  function ChildStart(n: nat, level: nat, start: nat, i: nat): nat
    requires level > 0
  {
    start + i * Pow(n, level - 1)
  }

  lemma NextChild(n: nat, level: nat, start: nat, i: nat)
    requires level > 0
    ensures ChildStart(n, level, start, i + 1) == ChildStart(n, level, start, i) + Pow(n, level - 1)
    ensures ChildStart(n, level, start, 0) == start && ChildStart(n, level, start, n) == start + Pow(n, level)
  {
    var w := Pow(n, level - 1);
    assert (i + 1) * w == i * w + w;
  }

  /** What is mapped below child i and the children after it. */
  function ScanFrom(disk: Disk, n: nat, level: nat, blk: nat, start: nat, i: nat): seq<Visit>
    requires n > 0 && level > 0
  {
    Scan(TreeMap(disk, n, level, blk, start), ChildStart(n, level, start, i), start + Pow(n, level))
  }

  function ScanBelow(disk: Disk, n: nat, level: nat, blk: nat, start: nat): seq<Visit>
    requires n > 0
  {
    Scan(TreeMap(disk, n, level, blk, start), start, start + Pow(n, level))
  }

  lemma ScanFromChild(disk: Disk, n: nat, level: nat, blk: nat, start: nat, i: nat)
    requires n > 0 && level > 0 && blk != 0 && i < n
    ensures ScanFrom(disk, n, level, blk, start, i) ==
            ScanBelow(disk, n, level - 1, ReadInd(disk, blk, n)[i], ChildStart(n, level, start, i)) +
            ScanFrom(disk, n, level, blk, start, i + 1)
  {
    var w, m := Pow(n, level - 1), TreeMap(disk, n, level, blk, start);
    assert (i + 1) * w == i * w + w;
    MulMonotone(i + 1, n, w);
    ScanSplit(m, start + i * w, start + (i + 1) * w, start + n * w);
    ScanChild(disk, n, level, blk, start, i);
  }

  lemma ScanEnds(disk: Disk, n: nat, level: nat, blk: nat, start: nat)
    requires n > 0 && level > 0
    ensures ScanFrom(disk, n, level, blk, start, n) == []
    ensures ScanFrom(disk, n, level, blk, start, 0) == ScanBelow(disk, n, level, blk, start)
  {
  }

  ghost function After(c: Context<seq<Visit>>, vs: seq<Visit>, bcount: nat): Context<seq<Visit>> {
    Context(c.disk, c.p + vs, bcount, NoError)
  }

  lemma {:induction false} VisitNode(g: Geometry, fl: Flags, level: nat, c: Context<seq<Visit>>, blk: nat)
    requires g.n > 0 && level > 0 && !fl.append && blk != 0 && WellFormed(g, c.disk, level, blk)
    ensures IterNode(g, fl, Recorder(), level, c, blk) ==
            Step(After(c, ScanBelow(c.disk, g.n, level, blk, c.bcount), c.bcount + Pow(g.n, level)), blk, NOTHING)
    decreases level, g.n + 1
  {
    NextChild(g.n, level, c.bcount, 0);
    VisitLoop(g, fl, level, c.(errcode := NoError), blk, 0, c.bcount);
    ScanEnds(c.disk, g.n, level, blk, c.bcount);
    hide IterLoop, ScanBelow, ScanFrom, ReadInd, ChildStart, Pow;
  }

  lemma {:induction false} VisitLoop(g: Geometry, fl: Flags, level: nat, c: Context<seq<Visit>>, blk: nat, i: nat,
                                     start: nat)
    requires g.n > 0 && level > 0 && !fl.append && blk != 0 && WellFormed(g, c.disk, level, blk)
    requires i <= g.n && c.errcode == NoError && c.bcount == ChildStart(g.n, level, start, i)
    ensures IterLoop(g, fl, Recorder(), level, c, ReadInd(c.disk, blk, g.n), i, false, NOTHING) ==
            LoopStep(After(c, ScanFrom(c.disk, g.n, level, blk, start, i), start + Pow(g.n, level)),
                     ReadInd(c.disk, blk, g.n), false, NOTHING)
    decreases level, g.n - i
  {
    hide WellFormed, ReadInd, Pow, ChildStart, ScanFrom, ScanBelow, IterLoop, IterNode, Recorder;
    var buf := ReadInd(c.disk, blk, g.n);
    if i < g.n {
      WellFormedChild(g, c.disk, level, blk, i);
      NextChild(g.n, level, start, i);
      ScanFromChild(c.disk, g.n, level, blk, start, i);
      var vs := ScanBelow(c.disk, g.n, level - 1, buf[i], c.bcount);
      var rest := ScanFrom(c.disk, g.n, level, blk, start, i + 1);
      if buf[i] != 0 && level > 1 {
        VisitNode(g, fl, level - 1, c, buf[i]);
      }
      ScanSmall(c.disk, g.n, level - 1, buf[i], c.bcount);
      LoopPasses(g, fl, level, c, buf, i, vs);
      VisitLoop(g, fl, level, After(c, vs, c.bcount + Pow(g.n, level - 1)), blk, i + 1, start);
      assert c.p + vs + rest == c.p + (vs + rest);
    } else {
      NextChild(g.n, level, start, i);
      ScanEnds(c.disk, g.n, level, blk, start);
      LoopStops(g, fl, Recorder(), level, c, buf, i, false, NOTHING);
      assert c.p + [] == c.p;
    }
  }

  lemma WellFormedChild(g: Geometry, disk: Disk, level: nat, blk: nat, i: nat)
    requires level > 0 && blk != 0 && WellFormed(g, disk, level, blk) && i < g.n
    ensures WellFormed(g, disk, level - 1, ReadInd(disk, blk, g.n)[i])
  {
  }

  lemma ScanSmall(disk: Disk, n: nat, level: nat, blk: nat, start: nat)
    requires n > 0
    ensures blk == 0 ==> ScanBelow(disk, n, level, blk, start) == []
    ensures blk != 0 && level == 0 ==> ScanBelow(disk, n, level, blk, start) == [Visit(start, blk)]
  {
    if blk == 0 {
      ScanHole(disk, n, level, start, start, start + Pow(n, level));
    } else if level == 0 {
      ScanLeaf(disk, n, blk, start);
    }
  }

  /** One turn of the loop when the recorder sees `vs` below child i. */
  lemma LoopPasses(g: Geometry, fl: Flags, level: nat, c: Context<seq<Visit>>, buf: seq<nat>, i: nat, vs: seq<Visit>)
    requires level > 0 && !fl.append && |buf| == g.n && i < g.n && c.errcode == NoError
    requires buf[i] == 0 ==> vs == []
    requires buf[i] != 0 && level == 1 ==> vs == [Visit(c.bcount, buf[i])]
    requires buf[i] != 0 && level > 1 ==>
               IterNode(g, fl, Recorder(), level - 1, c, buf[i]) ==
               Step(After(c, vs, c.bcount + Pow(g.n, level - 1)), buf[i], NOTHING)
    ensures IterLoop(g, fl, Recorder(), level, c, buf, i, false, NOTHING) ==
            IterLoop(g, fl, Recorder(), level, After(c, vs, c.bcount + Pow(g.n, level - 1)), buf, i + 1, false, NOTHING)
  {
    hide IterNode;
    assert buf[i := buf[i]] == buf;
    assert c.p + [] == c.p;
    assert Pow(g.n, 0) == 1;
  }

  // ---------- the whole inode ----------

  function FileMap(disk: Disk, n: nat, blocks: seq<nat>): Mapping
    requires n > 0 && |blocks| == NDIR + 3
  {
    (j: int) => FileBlock(disk, n, blocks, j)
  }

  ghost predicate WellFormedInode(g: Geometry, disk: Disk, blocks: seq<nat>) {
    && g.n > 0 && |blocks| == NDIR + 3
    && WellFormed(g, disk, 1, blocks[NDIR])
    && WellFormed(g, disk, 2, blocks[NDIR + 1])
    && WellFormed(g, disk, 3, blocks[NDIR + 2])
  }

  lemma {:induction false} VisitDirect(g: Geometry, fl: Flags, c: Context<seq<Visit>>, blocks: seq<nat>, i: nat)
    requires g.n > 0 && |blocks| == NDIR + 3 && !fl.append && i <= NDIR && c.bcount == i && c.errcode == NoError
    ensures IterDirect(fl, Recorder(), c, blocks, i, NOTHING) ==
            InodeStep(After(c, Scan(FileMap(c.disk, g.n, blocks), i, NDIR), NDIR), blocks, NOTHING)
    decreases NDIR - i
  {
    hide FileBlock, Scan, FileMap, IterDirect, Recorder;
    var m := FileMap(c.disk, g.n, blocks);
    if i < NDIR {
      var vs := if blocks[i] == 0 then [] else [Visit(i, blocks[i])];
      DirectStep(c.disk, g.n, blocks, i);
      DirectPasses(fl, c, blocks, i, vs);
      VisitDirect(g, fl, After(c, vs, i + 1), blocks, i + 1);
      assert c.p + vs + Scan(m, i + 1, NDIR) == c.p + (vs + Scan(m, i + 1, NDIR));
    } else {
      DirectAt(fl, Recorder(), c, blocks, i, NOTHING);
      ScanNone(m, NDIR);
      assert c.p + [] == c.p;
    }
  }

  lemma ScanNone(m: Mapping, j: int)
    ensures Scan(m, j, j) == []
  {
  }

  lemma DirectPasses(fl: Flags, c: Context<seq<Visit>>, blocks: seq<nat>, i: nat, vs: seq<Visit>)
    requires |blocks| == NDIR + 3 && !fl.append && i < NDIR && c.bcount == i && c.errcode == NoError
    requires vs == if blocks[i] == 0 then [] else [Visit(i, blocks[i])]
    ensures IterDirect(fl, Recorder(), c, blocks, i, NOTHING) ==
            IterDirect(fl, Recorder(), After(c, vs, i + 1), blocks, i + 1, NOTHING)
  {
    assert blocks[i := blocks[i]] == blocks;
    assert c.p + [] == c.p;
  }

  lemma DirectStep(disk: Disk, n: nat, blocks: seq<nat>, i: nat)
    requires n > 0 && |blocks| == NDIR + 3 && i < NDIR
    ensures Scan(FileMap(disk, n, blocks), i, NDIR) ==
            (if blocks[i] == 0 then [] else [Visit(i, blocks[i])]) + Scan(FileMap(disk, n, blocks), i + 1, NDIR)
  {
    hide Lookup, Pow, RootStart, Scan;
    var m := FileMap(disk, n, blocks);
    assert m(i) == FileBlock(disk, n, blocks, i) == blocks[i];
    ScanFirst(m, i, NDIR);
  }

  /** The mapping of the file between the start of a tree and the start of the next is the tree's. */
  lemma RootMap(disk: Disk, n: nat, blocks: seq<nat>, level: nat)
    requires n > 0 && |blocks| == NDIR + 3 && 1 <= level <= 3
    ensures Scan(FileMap(disk, n, blocks), RootStart(n, level), RootStart(n, level + 1)) ==
            ScanBelow(disk, n, level, blocks[NDIR + level - 1], RootStart(n, level))
  {
    hide Lookup, FileBlock;
    var start, m := RootStart(n, level), FileMap(disk, n, blocks);
    var t := TreeMap(disk, n, level, blocks[NDIR + level - 1], start);
    RootStarts(n);
    assert RootStart(n, level + 1) == start + Pow(n, level);
    RootMapPointwise(disk, n, blocks, level);
    ScanSame(m, t, start, start + Pow(n, level));
  }

  lemma RootMapPointwise(disk: Disk, n: nat, blocks: seq<nat>, level: nat)
    requires n > 0 && |blocks| == NDIR + 3 && 1 <= level <= 3
    ensures forall j :: RootStart(n, level) <= j < RootStart(n, level) + Pow(n, level) ==>
              FileMap(disk, n, blocks)(j) == TreeMap(disk, n, level, blocks[NDIR + level - 1], RootStart(n, level))(j)
  {
    RootStarts(n);
    hide Lookup, Pow;
  }

  lemma RootStarts(n: nat)
    ensures RootStart(n, 1) == NDIR && RootStart(n, 2) == NDIR + Pow(n, 1)
    ensures RootStart(n, 3) == RootStart(n, 2) + Pow(n, 2) && RootStart(n, 4) == RootStart(n, 3) + Pow(n, 3)
  {
  }

  lemma VisitRoot(g: Geometry, fl: Flags, level: nat, s: InodeStep<seq<Visit>>)
    requires WellFormedInode(g, s.c.disk, s.blocks) && 1 <= level <= 3 && !fl.append && s.ret == NOTHING
    requires s.c.bcount == RootStart(g.n, level) && s.c.errcode == NoError
    ensures var r := IterRoot(g, fl, Recorder(), level, s);
            && r.blocks == s.blocks && r.ret == NOTHING && r.c.disk == s.c.disk && r.c.errcode == NoError
            && r.c.p == s.c.p + Scan(FileMap(s.c.disk, g.n, s.blocks), RootStart(g.n, level), RootStart(g.n, level + 1))
            && (level < 3 ==> r.c.bcount == RootStart(g.n, level + 1))
  {
    hide IterNode, ScanBelow, Scan, WellFormed, FileBlock, Pow, RootStart, FileMap, Recorder;
    RootMap(s.c.disk, g.n, s.blocks, level);
    var blk := s.blocks[NDIR + level - 1];
    ScanSmall(s.c.disk, g.n, level, blk, s.c.bcount);
    if blk != 0 {
      VisitNode(g, fl, level, s.c, blk);
    }
    RootStarts(g.n);
  }

  /** The iterator with a callback that changes nothing: it sees every mapped block once, in increasing order. */
  lemma IteratorVisitsMapping(g: Geometry, fl: Flags, disk: Disk, blocks: seq<nat>)
    requires WellFormedInode(g, disk, blocks) && !fl.append
    ensures var r := IterInode(g, fl, Recorder(), disk, [], blocks);
            && r.c.disk == disk && r.blocks == blocks && r.ret == NOTHING && r.c.errcode == NoError
            && r.c.p == Scan(FileMap(disk, g.n, blocks), 0, MaxBlocks(g.n))
  {
    var m, c0 := FileMap(disk, g.n, blocks), Context(disk, [], 0, NoError);
    RootStarts(g.n);
    VisitDirect(g, fl, c0, blocks, 0);
    hide IterRoot, IterDirect, Scan, WellFormedInode, Pow, RootStart, FileMap;
    var s := IterDirect(fl, Recorder(), c0, blocks, 0, NOTHING);
    VisitRoot(g, fl, 1, s);
    var s1 := IterRoot(g, fl, Recorder(), 1, s);
    VisitRoot(g, fl, 2, s1);
    VisitRoot(g, fl, 3, IterRoot(g, fl, Recorder(), 2, s1));
    ScanFile(m, g.n);
    assert [] + Scan(m, 0, NDIR) == Scan(m, 0, NDIR);
  }

  lemma ScanFile(m: Mapping, n: nat)
    ensures Scan(m, 0, MaxBlocks(n)) ==
            Scan(m, 0, NDIR) + Scan(m, RootStart(n, 1), RootStart(n, 2)) + Scan(m, RootStart(n, 2), RootStart(n, 3)) +
            Scan(m, RootStart(n, 3), RootStart(n, 4))
  {
    RootStarts(n);
    ScanSplit(m, 0, NDIR, RootStart(n, 2));
    ScanSplit(m, 0, RootStart(n, 2), RootStart(n, 3));
    ScanSplit(m, 0, RootStart(n, 3), RootStart(n, 4));
  }

  /**
   So the iterator and the mapping agree: visits increase strictly, and block `b` is visited at `j` iff
   `j` maps to `b`.
   */
  lemma IteratorAgreesWithMapping(g: Geometry, fl: Flags, disk: Disk, blocks: seq<nat>)
    requires WellFormedInode(g, disk, blocks) && !fl.append
    ensures var visits := IterInode(g, fl, Recorder(), disk, [], blocks).c.p;
            && (forall i, k :: 0 <= i < k < |visits| ==> visits[i].count < visits[k].count)
            && (forall j, b :: Visit(j, b) in visits <==>
                0 <= j < MaxBlocks(g.n) && FileBlock(disk, g.n, blocks, j) == b && b != 0)
  {
    IteratorVisitsMapping(g, fl, disk, blocks);
    hide IterInode, FileBlock, MaxBlocks;
    var m := FileMap(disk, g.n, blocks);
    ScanExact(m, 0, MaxBlocks(g.n));
    hide Scan;
    assert forall j :: m(j) == FileBlock(disk, g.n, blocks, j);
  }
}
