/**
 src/truncate.c: the block iterator run with truncate_blocks_proc over the disk does to the
 tree of a file what TruncTree says, and do_shorten on top of it.
 */
module Truncate {
  import opened Arith
  import opened BlockIter
  import opened BlockMap
  import opened TruncTree

  const DEPTH := Flags(false, true, false)

  /** truncate_blocks_proc */
  function TruncateProc(): Callback<Info> {
    (disk: Disk, p: Info, blk: nat, count: int) =>
      if count < 0 then
        if count >= -3 && p.Deletes(-count) then Called(disk, p.Free(blk), 0, Ret(true, false, false))
        else Called(disk, p.(total := p.total + 1), blk, NOTHING)
      else if count > p.keep then Called(disk, OnData(p, blk, count), 0, Ret(true, false, false))
      else Called(disk, OnData(p, blk, count), blk, NOTHING)
  }

  // ---------- the tree on the disk ----------

  ghost function TreeOf(disk: Disk, n: nat, level: nat, blk: nat): (r: Tree)
    ensures r.Node? <==> blk != 0
    ensures r.Node? ==> r.blk == blk
    decreases level, n + 1
  {
    if blk == 0 then Hole
    else if level == 0 then Node(blk, [])
    else Node(blk, KidsOf(disk, n, level, ReadInd(disk, blk, n)))
  }

  ghost function KidsOf(disk: Disk, n: nat, level: nat, buf: seq<nat>): (r: seq<Tree>)
    requires level > 0 && |buf| <= n
    ensures |r| == |buf|
    decreases level, |buf|
  {
    if buf == [] then []
    else [TreeOf(disk, n, level - 1, buf[0])] + KidsOf(disk, n, level, buf[1..])
  }

  /** The indirect blocks of a tree. */
  ghost function Inds(level: nat, t: Tree): set<nat>
    decreases level, if t.Node? then |t.kids| + 1 else 0
  {
    if t.Hole? || level == 0 then {} else {t.blk} + KidsInds(level, t.kids)
  }

  ghost function KidsInds(level: nat, kids: seq<Tree>): set<nat>
    requires level > 0
    decreases level, |kids|
  {
    if kids == [] then {} else Inds(level - 1, kids[0]) + KidsInds(level, kids[1..])
  }

  /** No indirect block is used twice. */
  ghost predicate Separate(level: nat, t: Tree)
    decreases level, if t.Node? then |t.kids| + 1 else 0
  {
    t.Node? && level > 0 ==> t.blk !in KidsInds(level, t.kids) && KidsSeparate(level, t.kids)
  }

  ghost predicate KidsSeparate(level: nat, kids: seq<Tree>)
    requires level > 0
    decreases level, |kids|
  {
    kids != [] ==>
      && Separate(level - 1, kids[0])
      && Inds(level - 1, kids[0]) !! KidsInds(level, kids[1..])
      && KidsSeparate(level, kids[1..])
  }

  /** Indirect blocks outside `s` read the same on both disks. */
  ghost predicate SameOutside(disk: Disk, disk': Disk, n: nat, s: set<nat>) {
    forall b :: b !in s ==> ReadInd(disk', b, n) == ReadInd(disk, b, n)
  }

  lemma {:induction false} SameTree(disk: Disk, disk': Disk, n: nat, level: nat, blk: nat, s: set<nat>)
    requires SameOutside(disk, disk', n, s) && Inds(level, TreeOf(disk, n, level, blk)) !! s
    ensures TreeOf(disk', n, level, blk) == TreeOf(disk, n, level, blk)
    decreases level, n + 1
  {
    if blk != 0 && level > 0 {
      var t := TreeOf(disk, n, level, blk);
      assert blk in Inds(level, t);
      SameKids(disk, disk', n, level, ReadInd(disk, blk, n), s);
    }
  }

  lemma {:induction false} SameKids(disk: Disk, disk': Disk, n: nat, level: nat, buf: seq<nat>, s: set<nat>)
    requires level > 0 && |buf| <= n
    requires SameOutside(disk, disk', n, s) && KidsInds(level, KidsOf(disk, n, level, buf)) !! s
    ensures KidsOf(disk', n, level, buf) == KidsOf(disk, n, level, buf)
    decreases level, |buf|
  {
    if buf != [] {
      var kids := KidsOf(disk, n, level, buf);
      assert kids[1..] == KidsOf(disk, n, level, buf[1..]);
      SameTree(disk, disk', n, level - 1, buf[0], s);
      SameKids(disk, disk', n, level, buf[1..], s);
    }
  }

  /** Truncation adds no indirect block. */
  lemma {:induction false} CutInds(level: nat, t: Tree, s: int, p: Info)
    ensures Inds(level, CutTree(level, t, s, p).0) <= Inds(level, t)
    decreases level, if t.Node? then |t.kids| + 1 else 0
  {
    if t.Node? && level > 0 {
      CutKidsInds(level, t.kids, s, p);
    }
  }

  lemma {:induction false} CutKidsInds(level: nat, kids: seq<Tree>, s: int, p: Info)
    requires level > 0
    ensures KidsInds(level, CutKids(level, kids, s, p).0) <= KidsInds(level, kids)
    decreases level, |kids|
  {
    if kids != [] {
      CutInds(level - 1, kids[0], s, p);
      var (t1, p1) := CutTree(level - 1, kids[0], s, p);
      CutKidsInds(level, kids[1..], s + Pow(p.n, level - 1), p1);
      var (rest, p2) := CutKids(level, kids[1..], s + Pow(p.n, level - 1), p1);
      assert ([t1] + rest)[1..] == rest;
    }
  }

  lemma {:induction false} ShapedTree(disk: Disk, n: nat, level: nat, blk: nat)
    ensures Shaped(n, level, TreeOf(disk, n, level, blk))
    decreases level, n + 1
  {
    if blk != 0 && level > 0 {
      ShapedKids(disk, n, level, ReadInd(disk, blk, n));
    }
  }

  lemma {:induction false} ShapedKids(disk: Disk, n: nat, level: nat, buf: seq<nat>)
    requires level > 0 && |buf| <= n
    ensures forall i :: 0 <= i < |buf| ==> Shaped(n, level - 1, KidsOf(disk, n, level, buf)[i])
    decreases level, |buf|
  {
    if buf != [] {
      ShapedTree(disk, n, level - 1, buf[0]);
      ShapedKids(disk, n, level, buf[1..]);
    }
  }

  // ---------- the iterator does the cut ----------

  lemma {:induction false} CutKeepsN(level: nat, t: Tree, s: int, p: Info)
    ensures CutTree(level, t, s, p).1.n == p.n
    decreases level, if t.Node? then |t.kids| + 1 else 0
  {
    if t.Node? && level > 0 {
      CutKidsKeepN(level, t.kids, s, p);
    } else if t.Node? {
      KeepsKeep(p.Free(t.blk), s);
    }
  }

  lemma {:induction false} CutKidsKeepN(level: nat, kids: seq<Tree>, s: int, p: Info)
    requires level > 0
    ensures CutKids(level, kids, s, p).1.n == p.n
    decreases level, |kids|
  {
    if kids != [] {
      CutKeepsN(level - 1, kids[0], s, p);
      CutKidsKeepN(level, kids[1..], s + Pow(p.n, level - 1), CutTree(level - 1, kids[0], s, p).1);
    }
  }

  /** Context `c1` and block number `b1` are what the cut of the tree below `blk` leads to from context `c`. */
  ghost predicate CutDone(n: nat, level: nat, c: Context<Info>, blk: nat, c1: Context<Info>, b1: nat, changed: bool) {
    var t := TreeOf(c.disk, n, level, blk);
    var (t1, p1) := CutTree(level, t, c.bcount, c.p);
    && c1.p == p1 && c1.bcount == c.bcount + Pow(n, level) && c1.errcode == NoError
    && TreeOf(c1.disk, n, level, b1) == t1
    && SameOutside(c.disk, c1.disk, n, Inds(level, t))
    && (b1 == blk || changed)
  }

  /** The same for the children `buf` of a block of the given level. */
  ghost predicate KidsCutDone(n: nat, level: nat, c: Context<Info>, buf: seq<nat>, c1: Context<Info>, buf1: seq<nat>)
    requires level > 0 && |buf| <= n
  {
    var kids := KidsOf(c.disk, n, level, buf);
    var (kids1, p1) := CutKids(level, kids, c.bcount, c.p);
    && |buf1| == |buf|
    && c1.p == p1 && c1.bcount == c.bcount + |buf| * Pow(n, level - 1) && c1.errcode == NoError
    && KidsOf(c1.disk, n, level, buf1) == kids1
    && SameOutside(c.disk, c1.disk, n, KidsInds(level, kids))
  }

  lemma CutNothing(n: nat, level: nat, c: Context<Info>)
    requires c.errcode == NoError
    ensures CutDone(n, level, c, 0, c.(bcount := c.bcount + Pow(n, level)), 0, false)
  {
  }

  lemma CutData(n: nat, c: Context<Info>, blk: nat)
    requires c.errcode == NoError && blk != 0
    ensures var s := Call(TruncateProc(), c, blk, c.bcount);
            !s.ret.abort && CutDone(n, 0, c, blk, s.c.(bcount := s.c.bcount + 1), s.blk, s.ret.changed)
  {
    assert Pow(n, 0) == 1;
  }

  /** The first child and the others. */
  lemma FirstKid(disk: Disk, n: nat, level: nat, buf: seq<nat>)
    requires level > 0 && 0 < |buf| <= n && KidsSeparate(level, KidsOf(disk, n, level, buf))
    ensures var kids, t, rest := KidsOf(disk, n, level, buf), TreeOf(disk, n, level - 1, buf[0]),
              KidsOf(disk, n, level, buf[1..]);
            && kids == [t] + rest && kids[0] == t && kids[1..] == rest
            && KidsInds(level, kids) == Inds(level - 1, t) + KidsInds(level, rest)
            && Separate(level - 1, t) && KidsSeparate(level, rest) && Inds(level - 1, t) !! KidsInds(level, rest)
  {
    hide Inds, Separate, TreeOf;
    var kids := KidsOf(disk, n, level, buf);
    assert kids[1..] == KidsOf(disk, n, level, buf[1..]);
  }

  /** What a cut below a block leaves alone. */
  lemma CutFacts(n: nat, level: nat, c: Context<Info>, blk: nat, c1: Context<Info>, b1: nat, changed: bool)
    requires CutDone(n, level, c, blk, c1, b1, changed)
    ensures var t := TreeOf(c.disk, n, level, blk);
            var (t1, p1) := CutTree(level, t, c.bcount, c.p);
            && SameOutside(c.disk, c1.disk, n, Inds(level, t)) && c1.errcode == NoError && c1.p.n == c.p.n
            && (b1 == blk || changed)
            && c1.p == p1 && c1.bcount == c.bcount + Pow(n, level) && TreeOf(c1.disk, n, level, b1) == t1
            && Inds(level, t1) <= Inds(level, t)
  {
    hide TreeOf, CutTree, Inds, SameOutside, Pow;
    CutKeepsN(level, TreeOf(c.disk, n, level, blk), c.bcount, c.p);
    CutInds(level, TreeOf(c.disk, n, level, blk), c.bcount, c.p);
  }

  lemma ConsCut(n: nat, level: nat, c: Context<Info>, buf: seq<nat>, c1: Context<Info>, b1: nat, changed: bool,
                c2: Context<Info>, rest: seq<nat>)
    requires level > 0 && 0 < |buf| <= n && c.p.n == n && KidsSeparate(level, KidsOf(c.disk, n, level, buf))
    requires CutDone(n, level - 1, c, buf[0], c1, b1, changed)
    requires KidsCutDone(n, level, c1, buf[1..], c2, rest)
    ensures KidsCutDone(n, level, c, buf, c2, [b1] + rest)
  {
    hide CutTree, CutKids, Separate, KidsSeparate, Inds, KidsInds, Pow, TreeOf, KidsOf, CutDone, SameOutside;
    FirstKid(c.disk, n, level, buf);
    CutFacts(n, level - 1, c, buf[0], c1, b1, changed);
    var kids := KidsOf(c.disk, n, level, buf);
    var t, others := kids[0], kids[1..];
    KidsEnd(|buf|, Pow(n, level - 1));
    var (t1, p1) := CutTree(level - 1, t, c.bcount, c.p);
    SameKids(c.disk, c1.disk, n, level, buf[1..], Inds(level - 1, t));
    SameTree(c1.disk, c2.disk, n, level - 1, b1, KidsInds(level, others));
    ConsCutParts(n, level, c, buf, b1, rest, kids, t1, c2);
    SameOutsideTwice(c.disk, c1.disk, c2.disk, n, Inds(level - 1, t), KidsInds(level, others));
    CutKidsCons(level, kids, c.bcount, c.p, n);
  }

  lemma ConsCutParts(n: nat, level: nat, c: Context<Info>, buf: seq<nat>, b1: nat, rest: seq<nat>, kids: seq<Tree>,
                     t1: Tree, c2: Context<Info>)
    requires level > 0 && 0 < |buf| <= n && |rest| == |buf| - 1
    ensures KidsOf(c2.disk, n, level, [b1] + rest) ==
              [TreeOf(c2.disk, n, level - 1, b1)] + KidsOf(c2.disk, n, level, rest)
  {
    assert ([b1] + rest)[1..] == rest;
  }

  lemma SameOutsideTwice(d0: Disk, d1: Disk, d2: Disk, n: nat, s: set<nat>, s': set<nat>)
    requires SameOutside(d0, d1, n, s) && SameOutside(d1, d2, n, s')
    ensures SameOutside(d0, d2, n, s + s')
  {
  }

  lemma CutKidsCons(level: nat, kids: seq<Tree>, s: nat, p: Info, n: nat)
    requires level > 0 && kids != [] && p.n == n
    ensures var (t1, p1) := CutTree(level - 1, kids[0], s, p);
            var (rest, p2) := CutKids(level, kids[1..], s + Pow(n, level - 1), p1);
            CutKids(level, kids, s, p) == ([t1] + rest, p2)
  {
  }

  ghost predicate AllInRange(g: Geometry, s: set<nat>) {
    forall b :: b in s ==> g.InRange(b)
  }

  lemma {:induction false} NodeCut(g: Geometry, level: nat, c: Context<Info>, blk: nat)
    requires 0 < level <= 3 && blk != 0 && c.p.n == g.n
    requires var t := TreeOf(c.disk, g.n, level, blk); Separate(level, t) && AllInRange(g, Inds(level, t))
    ensures var r := IterNode(g, DEPTH, TruncateProc(), level, c, blk);
            !r.ret.abort && !r.ret.error && CutDone(g.n, level, c, blk, r.c, r.blk, r.ret.changed)
    decreases level, g.n + 1, 0
  {
    var n, t, buf := g.n, TreeOf(c.disk, g.n, level, blk), ReadInd(c.disk, blk, g.n);
    assert blk in Inds(level, t);
    assert buf[0..] == buf;
    var c0 := c.(errcode := NoError);
    LoopCut(g, level, c0, buf, 0, false);
    var l := IterLoop(g, DEPTH, TruncateProc(), level, c0, buf, 0, false, NOTHING);
    assert l.buf[0..] == l.buf;
    assert Pow(n, level) == n * Pow(n, level - 1);
    hide IterLoop, Pow, Separate, CutKids, KidsInds, KidsOf;
    AfterLoop(g, level, c, blk, l);
  }

  /** What follows the loop in an indirect block: write it back if changed, then the callback on the block itself. */
  lemma AfterLoop(g: Geometry, level: nat, c: Context<Info>, blk: nat, l: LoopStep<Info>)
    requires level > 0 && blk != 0 && c.p.n == g.n && |l.buf| == g.n && level <= 3
    requires var kids := KidsOf(c.disk, g.n, level, ReadInd(c.disk, blk, g.n)); blk !in KidsInds(level, kids)
    requires KidsCutDone(g.n, level, c.(errcode := NoError), ReadInd(c.disk, blk, g.n), l.c, l.buf)
    requires !l.changed ==> l.buf == ReadInd(c.disk, blk, g.n)
    ensures var c1 := if l.changed then l.c.(disk := l.c.disk[blk := l.buf], errcode := NoError) else l.c;
            var post := Call(TruncateProc(), c1, blk, CountCode(level));
            !post.ret.abort && !post.ret.error && CutDone(g.n, level, c, blk, post.c, post.blk, post.ret.changed)
  {
    hide KidsCutDone, CutKids, KidsOf, KidsInds, ReadInd, SameOutside, Pow;
    var c1 := if l.changed then l.c.(disk := l.c.disk[blk := l.buf], errcode := NoError) else l.c;
    LoopWritten(g, level, c, blk, l);
    var t := TreeOf(c.disk, g.n, level, blk);
    assert Inds(level, t) == {blk} + KidsInds(level, t.kids);
    AllOfBlock(g.n, level);
  }

  lemma AllOfBlock(n: nat, level: nat)
    requires level > 0
    ensures n * Pow(n, level - 1) == Pow(n, level)
  {
  }

  /** The block of pointers written back after the loop, if any changed. */
  lemma LoopWritten(g: Geometry, level: nat, c: Context<Info>, blk: nat, l: LoopStep<Info>)
    requires level > 0 && blk != 0 && |l.buf| == g.n
    requires var kids := KidsOf(c.disk, g.n, level, ReadInd(c.disk, blk, g.n)); blk !in KidsInds(level, kids)
    requires KidsCutDone(g.n, level, c.(errcode := NoError), ReadInd(c.disk, blk, g.n), l.c, l.buf)
    requires !l.changed ==> l.buf == ReadInd(c.disk, blk, g.n)
    ensures var c1 := if l.changed then l.c.(disk := l.c.disk[blk := l.buf], errcode := NoError) else l.c;
            var kids := KidsOf(c.disk, g.n, level, ReadInd(c.disk, blk, g.n));
            var (kids1, p1) := CutKids(level, kids, c.bcount, c.p);
            && TreeOf(c1.disk, g.n, level, blk) == Node(blk, kids1)
            && SameOutside(c.disk, c1.disk, g.n, {blk} + KidsInds(level, kids))
            && c1.p == p1 && c1.bcount == c.bcount + g.n * Pow(g.n, level - 1) && c1.errcode == NoError
  {
    hide CutKids, KidsInds, CutTree, Pow, Inds;
    var n, kids := g.n, KidsOf(c.disk, g.n, level, ReadInd(c.disk, blk, g.n));
    var c1 := if l.changed then l.c.(disk := l.c.disk[blk := l.buf], errcode := NoError) else l.c;
    CutKidsInds(level, kids, c.bcount, c.p);
    assert ReadInd(l.c.disk, blk, n) == ReadInd(c.disk, blk, n);
    assert ReadInd(c1.disk, blk, n) == l.buf && SameOutside(l.c.disk, c1.disk, n, {blk});
    SameKids(l.c.disk, c1.disk, n, level, l.buf, {blk});
    SameOutsideTwice(c.disk, l.c.disk, c1.disk, n, KidsInds(level, kids), {blk});
    assert KidsInds(level, kids) + {blk} == {blk} + KidsInds(level, kids);
  }

  /** One turn of the loop, whatever the child was. */
  lemma LoopTurn(g: Geometry, level: nat, c: Context<Info>, buf: seq<nat>, i: nat, changed: bool)
    returns (c1: Context<Info>, b1: nat, childChanged: bool)
    requires 0 < level <= 3 && |buf| == g.n && i < g.n && c.errcode == NoError && c.p.n == g.n
    requires var t := TreeOf(c.disk, g.n, level - 1, buf[i]);
             Separate(level - 1, t) && AllInRange(g, Inds(level - 1, t))
    ensures CutDone(g.n, level - 1, c, buf[i], c1, b1, childChanged)
    ensures IterLoop(g, DEPTH, TruncateProc(), level, c, buf, i, changed, NOTHING) ==
            IterLoop(g, DEPTH, TruncateProc(), level, c1, buf[i := b1], i + 1, changed || childChanged, NOTHING)
    decreases level, g.n - i, 0
  {
    if buf[i] == 0 {
      c1, b1, childChanged := c.(bcount := c.bcount + Pow(g.n, level - 1)), 0, false;
      CutNothing(g.n, level - 1, c);
      assert buf[i := 0] == buf;
    } else if level == 1 {
      var s := Call(TruncateProc(), c, buf[i], c.bcount);
      c1, b1, childChanged := s.c.(bcount := s.c.bcount + 1), s.blk, s.ret.changed;
      CutData(g.n, c, buf[i]);
    } else {
      NodeCut(g, level - 1, c, buf[i]);
      var s := IterNode(g, DEPTH, TruncateProc(), level - 1, c, buf[i]);
      c1, b1, childChanged := s.c, s.blk, s.ret.changed;
    }
    hide CutDone, IterNode;
  }

  lemma {:induction false} LoopCut(g: Geometry, level: nat, c: Context<Info>, buf: seq<nat>, i: nat, changed: bool)
    requires 0 < level <= 3 && |buf| == g.n && i <= g.n && c.errcode == NoError && c.p.n == g.n
    requires var kids := KidsOf(c.disk, g.n, level, buf[i..]);
             KidsSeparate(level, kids) && AllInRange(g, KidsInds(level, kids))
    ensures var r := IterLoop(g, DEPTH, TruncateProc(), level, c, buf, i, changed, NOTHING);
            && r.ret == NOTHING && (!r.changed ==> r.buf == buf && !changed)
            && r.buf[..i] == buf[..i] && KidsCutDone(g.n, level, c, buf[i..], r.c, r.buf[i..])
    decreases level, g.n - i, 1
  {
    hide IterLoop, KidsCutDone, CutDone, KidsOf, KidsInds, KidsSeparate, TreeOf, CutTree, CutKids, Inds, Separate,
         SameOutside, Pow;
    if i < g.n {
      var n := g.n;
      assert buf[i..][1..] == buf[i + 1..] && buf[i..][0] == buf[i];
      FirstKid(c.disk, n, level, buf[i..]);
      var c1, b1, childChanged := LoopTurn(g, level, c, buf, i, changed);
      CutFacts(n, level - 1, c, buf[i], c1, b1, childChanged);
      SameKids(c.disk, c1.disk, n, level, buf[i + 1..], Inds(level - 1, TreeOf(c.disk, n, level - 1, buf[i])));
      var buf1 := buf[i := b1];
      assert buf1[i + 1..] == buf[i + 1..];
      LoopCut(g, level, c1, buf1, i + 1, changed || childChanged);
      var r := IterLoop(g, DEPTH, TruncateProc(), level, c1, buf1, i + 1, changed || childChanged, NOTHING);
      LoopEnd(n, level, c, buf, i, b1, childChanged, c1, r);
    } else {
      LoopOver(g, level, c, buf, i, changed);
    }
  }

  lemma LoopOver(g: Geometry, level: nat, c: Context<Info>, buf: seq<nat>, i: nat, changed: bool)
    requires 0 < level && |buf| == g.n == i && c.errcode == NoError
    ensures IterLoop(g, DEPTH, TruncateProc(), level, c, buf, i, changed, NOTHING) == LoopStep(c, buf, changed, NOTHING)
    ensures KidsCutDone(g.n, level, c, buf[i..], c, buf[i..])
  {
    assert buf[i..] == [];
  }

  lemma LoopEnd(n: nat, level: nat, c: Context<Info>, buf: seq<nat>, i: nat, b1: nat, childChanged: bool,
                c1: Context<Info>, r: LoopStep<Info>)
    requires level > 0 && |buf| == n == |r.buf| && i < n && c.p.n == n
    requires KidsSeparate(level, KidsOf(c.disk, n, level, buf[i..]))
    requires CutDone(n, level - 1, c, buf[i], c1, b1, childChanged)
    requires KidsCutDone(n, level, c1, buf[i + 1..], r.c, r.buf[i + 1..])
    requires r.buf[..i + 1] == buf[i := b1][..i + 1]
    ensures KidsCutDone(n, level, c, buf[i..], r.c, r.buf[i..]) && r.buf[..i] == buf[..i] && r.buf[i] == b1
  {
    hide KidsSeparate, KidsOf, CutDone, KidsCutDone;
    assert buf[i..][1..] == buf[i + 1..];
    assert r.buf[i] == r.buf[..i + 1][i] == b1;
    assert r.buf[i..] == [b1] + r.buf[i + 1..];
    assert r.buf[..i] == r.buf[..i + 1][..i] == buf[i := b1][..i + 1][..i] == buf[..i];
    ConsCut(n, level, c, buf[i..], c1, b1, childChanged, r.c, r.buf[i + 1..]);
  }

  // ---------- the whole inode ----------

  lemma {:induction false} DirectCut(n: nat, c: Context<Info>, blocks: seq<nat>, i: nat, ret: Ret)
    requires n >= NDIR && |blocks| == NDIR + 3 && i <= NDIR && c.bcount == i && c.errcode == NoError && c.p.n == n
    requires !ret.abort && !ret.error
    ensures var r := IterDirect(DEPTH, TruncateProc(), c, blocks, i, ret);
            && !r.ret.abort && !r.ret.error && r.c.disk == c.disk
            && r.blocks[..i] == blocks[..i] && r.blocks[NDIR..] == blocks[NDIR..]
            && KidsCutDone(n, 1, c, blocks[i..NDIR], r.c, r.blocks[i..NDIR])
            && (!r.ret.changed ==> r.blocks == blocks && !ret.changed)
    decreases NDIR - i
  {
    hide KidsCutDone, CutDone, TreeOf, CutTree, CutKids, IterDirect, SameOutside, Inds, Pow;
    if i < NDIR {
      var c1, b1, changed, ret1 := DirectTurn(n, c, blocks, i, ret);
      CutFacts(n, 0, c, blocks[i], c1, b1, changed);
      DirectCut(n, c1, blocks[i := b1], i + 1, ret1);
      var r := IterDirect(DEPTH, TruncateProc(), c1, blocks[i := b1], i + 1, ret1);
      DirectEnd(n, c, blocks, i, b1, changed, c1, r.c, r.blocks);
    } else {
      DirectOver(n, c, blocks, ret);
    }
  }

  lemma DirectOver(n: nat, c: Context<Info>, blocks: seq<nat>, ret: Ret)
    requires n >= NDIR && |blocks| == NDIR + 3 && c.errcode == NoError
    ensures IterDirect(DEPTH, TruncateProc(), c, blocks, NDIR, ret) == InodeStep(c, blocks, ret)
    ensures KidsCutDone(n, 1, c, blocks[NDIR..NDIR], c, blocks[NDIR..NDIR])
  {
    assert blocks[NDIR..NDIR] == [];
  }

  /** One turn of the loop over the direct blocks. */
  lemma DirectTurn(n: nat, c: Context<Info>, blocks: seq<nat>, i: nat, ret: Ret)
    returns (c1: Context<Info>, b1: nat, changed: bool, ret1: Ret)
    requires |blocks| == NDIR + 3 && i < NDIR && c.bcount == i && c.errcode == NoError && !ret.abort && !ret.error
    ensures CutDone(n, 0, c, blocks[i], c1, b1, changed) && c1.bcount == i + 1 && c1.disk == c.disk
    ensures !ret1.abort && !ret1.error && (ret1.changed <==> ret.changed || changed)
    ensures IterDirect(DEPTH, TruncateProc(), c, blocks, i, ret) ==
              IterDirect(DEPTH, TruncateProc(), c1, blocks[i := b1], i + 1, ret1)
  {
    hide CutDone;
    c1, b1, changed, ret1 := c.(bcount := i + 1), 0, false, ret;
    assert Pow(n, 0) == 1;
    if blocks[i] == 0 {
      CutNothing(n, 0, c);
      assert blocks[i := 0] == blocks;
    } else {
      CutData(n, c, blocks[i]);
      var s := Call(TruncateProc(), c, blocks[i], c.bcount);
      c1, b1, changed, ret1 := s.c.(bcount := i + 1), s.blk, s.ret.changed, ret.Or(s.ret);
    }
  }

  lemma DirectEnd(n: nat, c: Context<Info>, blocks: seq<nat>, i: nat, b1: nat, changed: bool, c1: Context<Info>,
                  c2: Context<Info>, blocks2: seq<nat>)
    requires n >= NDIR && |blocks| == NDIR + 3 == |blocks2| && i < NDIR && c.p.n == n
    requires CutDone(n, 0, c, blocks[i], c1, b1, changed)
    requires var blocks1 := blocks[i := b1];
             && blocks2[..i + 1] == blocks1[..i + 1]
             && KidsCutDone(n, 1, c1, blocks1[i + 1..NDIR], c2, blocks2[i + 1..NDIR])
    ensures blocks2[..i] == blocks[..i] && KidsCutDone(n, 1, c, blocks[i..NDIR], c2, blocks2[i..NDIR])
  {
    var blocks1, buf := blocks[i := b1], blocks[i..NDIR];
    assert buf[1..] == blocks1[i + 1..NDIR] && buf[0] == blocks[i];
    assert blocks2[i] == blocks2[..i + 1][i] == b1;
    assert blocks2[i..NDIR] == [b1] + blocks2[i + 1..NDIR];
    assert blocks2[..i] == blocks2[..i + 1][..i] == blocks1[..i + 1][..i] == blocks[..i];
    DataSeparate(n, c.disk, buf);
    hide CutDone, KidsCutDone, KidsSeparate, KidsOf;
    ConsCut(n, 1, c, buf, c1, b1, changed, c2, blocks2[i + 1..NDIR]);
  }

  lemma {:induction false} DataSeparate(n: nat, disk: Disk, buf: seq<nat>)
    requires |buf| <= n
    ensures KidsSeparate(1, KidsOf(disk, n, 1, buf)) && KidsInds(1, KidsOf(disk, n, 1, buf)) == {}
    decreases |buf|
  {
    if buf != [] {
      DataSeparate(n, disk, buf[1..]);
      assert KidsOf(disk, n, 1, buf)[1..] == KidsOf(disk, n, 1, buf[1..]);
    }
  }

  /** The four parts of a file: the direct blocks as trees of level 0, and the three trees. */
  datatype Parts = Parts(direct: seq<Tree>, t1: Tree, t2: Tree, t3: Tree)

  ghost function PartsOf(disk: Disk, n: nat, blocks: seq<nat>): Parts
    requires n >= NDIR && |blocks| == NDIR + 3
  {
    Parts(KidsOf(disk, n, 1, blocks[..NDIR]), TreeOf(disk, n, 1, blocks[NDIR]),
          TreeOf(disk, n, 2, blocks[NDIR + 1]), TreeOf(disk, n, 3, blocks[NDIR + 2]))
  }

  function TreeAt(f: Parts, level: nat): Tree {
    if level == 1 then f.t1 else if level == 2 then f.t2 else f.t3
  }

  function WithTree(f: Parts, level: nat, t: Tree): Parts {
    if level == 1 then f.(t1 := t) else if level == 2 then f.(t2 := t) else f.(t3 := t)
  }

  ghost predicate Unshared(f: Parts) {
    Inds(1, f.t1) !! Inds(2, f.t2) && Inds(1, f.t1) !! Inds(3, f.t3) && Inds(2, f.t2) !! Inds(3, f.t3)
  }

  ghost predicate SoundTree(g: Geometry, level: nat, t: Tree) {
    Separate(level, t) && AllInRange(g, Inds(level, t))
  }

  /** No indirect block is used twice in the file, and each is a block of the file system. */
  ghost predicate FileSeparate(g: Geometry, f: Parts) {
    SoundTree(g, 1, f.t1) && SoundTree(g, 2, f.t2) && SoundTree(g, 3, f.t3) && Unshared(f)
  }

  ghost function CutFile(n: nat, f: Parts, p: Info): (Parts, Info) {
    var (direct, p0) := CutKids(1, f.direct, 0, p);
    var (t1, p1) := CutTree(1, f.t1, RootStart(n, 1), p0);
    var (t2, p2) := CutTree(2, f.t2, RootStart(n, 2), p1);
    var (t3, p3) := CutTree(3, f.t3, RootStart(n, 3), p2);
    (Parts(direct, t1, t2, t3), p3)
  }

  lemma RootCut(g: Geometry, level: nat, s: InodeStep<Info>)
    requires 1 <= level <= 3 && |s.blocks| == NDIR + 3 && !s.ret.abort && !s.ret.error
    requires s.c.p.n == g.n && s.c.errcode == NoError
    requires var t := TreeOf(s.c.disk, g.n, level, s.blocks[NDIR + level - 1]);
             Separate(level, t) && AllInRange(g, Inds(level, t))
    ensures var r := IterRoot(g, DEPTH, TruncateProc(), level, s);
            var at := NDIR + level - 1;
            var t := TreeOf(s.c.disk, g.n, level, s.blocks[at]);
            var (t1, p1) := CutTree(level, t, s.c.bcount, s.c.p);
            && !r.ret.abort && !r.ret.error && r.c.errcode == NoError && r.c.p == p1 && p1.n == g.n
            && r.blocks == s.blocks[at := r.blocks[at]] && TreeOf(r.c.disk, g.n, level, r.blocks[at]) == t1
            && SameOutside(s.c.disk, r.c.disk, g.n, Inds(level, t))
            && (level < 3 ==> r.c.bcount == s.c.bcount + Pow(g.n, level))
            && (!r.ret.changed ==> r.blocks == s.blocks && !s.ret.changed)
  {
    var at := NDIR + level - 1;
    CutKeepsN(level, TreeOf(s.c.disk, g.n, level, s.blocks[at]), s.c.bcount, s.c.p);
    if s.blocks[at] != 0 {
      NodeCut(g, level, s.c, s.blocks[at]);
      hide IterNode, TreeOf, Inds, Pow, CutTree, SameOutside, Separate;
    } else {
      hide IterNode, Pow;
      assert s.blocks[at := 0] == s.blocks;
    }
  }

  lemma DirectPart(g: Geometry, disk: Disk, blocks: seq<nat>, p: Info)
    requires g.n >= NDIR && |blocks| == NDIR + 3 && p.n == g.n
    ensures var r := IterDirect(DEPTH, TruncateProc(), Context(disk, p, 0, NoError), blocks, 0, NOTHING);
            var (direct, p0) := CutKids(1, KidsOf(disk, g.n, 1, blocks[..NDIR]), 0, p);
            && !r.ret.abort && !r.ret.error && r.c == Context(disk, p0, NDIR, NoError) && p0.n == g.n
            && r.blocks[NDIR..] == blocks[NDIR..] && KidsOf(disk, g.n, 1, r.blocks[..NDIR]) == direct
            && (!r.ret.changed ==> r.blocks == blocks)
  {
    var c := Context(disk, p, 0, NoError);
    DirectCut(g.n, c, blocks, 0, NOTHING);
    assert blocks[0..NDIR] == blocks[..NDIR];
    var r := IterDirect(DEPTH, TruncateProc(), c, blocks, 0, NOTHING);
    assert r.blocks[0..NDIR] == r.blocks[..NDIR];
    CutKidsKeepN(1, KidsOf(disk, g.n, 1, blocks[..NDIR]), 0, p);
    assert Pow(g.n, 0) == 1;
    hide IterDirect, KidsOf, CutKids, Pow;
  }

  /** Cutting one of the three trees on disk leaves the other parts of the file alone. */
  lemma RootCutsPart(g: Geometry, level: nat, s: InodeStep<Info>)
    requires 1 <= level <= 3 && g.n >= NDIR && |s.blocks| == NDIR + 3 && !s.ret.abort && !s.ret.error
    requires s.c.p.n == g.n && s.c.errcode == NoError && s.c.bcount == RootStart(g.n, level)
    requires var f := PartsOf(s.c.disk, g.n, s.blocks); SoundTree(g, level, TreeAt(f, level)) && Unshared(f)
    ensures var r, f := IterRoot(g, DEPTH, TruncateProc(), level, s), PartsOf(s.c.disk, g.n, s.blocks);
            var (t, p1) := CutTree(level, TreeAt(f, level), RootStart(g.n, level), s.c.p);
            && !r.ret.abort && !r.ret.error && r.c.errcode == NoError && r.c.p == p1 && p1.n == g.n
            && PartsOf(r.c.disk, g.n, r.blocks) == WithTree(f, level, t) && Unshared(WithTree(f, level, t))
            && (level < 3 ==> r.c.bcount == RootStart(g.n, level + 1))
            && (!r.ret.changed ==> r.blocks == s.blocks && !s.ret.changed)
  {
    hide IterRoot, TreeOf, KidsOf, CutTree, Separate, Inds, KidsInds, KidsSeparate, SameOutside, Pow, RootStart,
         AllInRange;
    var n, f, at := g.n, PartsOf(s.c.disk, g.n, s.blocks), NDIR + level - 1;
    RootCut(g, level, s);
    var r := IterRoot(g, DEPTH, TruncateProc(), level, s);
    CutInds(level, TreeAt(f, level), RootStart(n, level), s.c.p);
    assert r.blocks[..NDIR] == s.blocks[..NDIR];
    DataSeparate(n, s.c.disk, s.blocks[..NDIR]);
    RootStarts(n);
    SameKids(s.c.disk, r.c.disk, n, 1, s.blocks[..NDIR], Inds(level, TreeAt(f, level)));
    if level != 1 { SameTree(s.c.disk, r.c.disk, n, 1, s.blocks[NDIR], Inds(level, TreeAt(f, level))); }
    if level != 2 { SameTree(s.c.disk, r.c.disk, n, 2, s.blocks[NDIR + 1], Inds(level, TreeAt(f, level))); }
    if level != 3 { SameTree(s.c.disk, r.c.disk, n, 3, s.blocks[NDIR + 2], Inds(level, TreeAt(f, level))); }
  }

  lemma DirectCutsPart(g: Geometry, disk: Disk, blocks: seq<nat>, p: Info)
    requires g.n >= NDIR && |blocks| == NDIR + 3 && p.n == g.n
    ensures var r, f := IterDirect(DEPTH, TruncateProc(), Context(disk, p, 0, NoError), blocks, 0, NOTHING),
              PartsOf(disk, g.n, blocks);
            var (direct, p0) := CutKids(1, f.direct, 0, p);
            && !r.ret.abort && !r.ret.error && r.c == Context(disk, p0, NDIR, NoError) && p0.n == g.n
            && PartsOf(disk, g.n, r.blocks) == f.(direct := direct)
            && (!r.ret.changed ==> r.blocks == blocks)
  {
    DirectPart(g, disk, blocks, p);
    var s := IterDirect(DEPTH, TruncateProc(), Context(disk, p, 0, NoError), blocks, 0, NOTHING);
    assert s.blocks[NDIR] == s.blocks[NDIR..][0] == blocks[NDIR..][0] == blocks[NDIR];
    assert s.blocks[NDIR + 1] == s.blocks[NDIR..][1] == blocks[NDIR..][1] == blocks[NDIR + 1];
    assert s.blocks[NDIR + 2] == s.blocks[NDIR..][2] == blocks[NDIR..][2] == blocks[NDIR + 2];
    hide IterDirect, TreeOf, KidsOf, CutKids;
  }

  /** The iterator does to the file on disk what CutFile says. */
  lemma IterationCutsFile(g: Geometry, disk: Disk, blocks: seq<nat>, p: Info)
    requires g.n >= NDIR && |blocks| == NDIR + 3 && p.n == g.n
    requires FileSeparate(g, PartsOf(disk, g.n, blocks))
    ensures var r := IterInode(g, DEPTH, TruncateProc(), disk, p, blocks);
            && !r.ret.abort && !r.ret.error && r.c.errcode == NoError
            && (PartsOf(r.c.disk, g.n, r.blocks), r.c.p) == CutFile(g.n, PartsOf(disk, g.n, blocks), p)
            && (!r.ret.changed ==> r.blocks == blocks)
  {
    DirectCutsPart(g, disk, blocks, p);
    RootStarts(g.n);
    hide IterDirect, IterRoot, PartsOf, CutTree, CutKids, SoundTree, Pow, RootStart, Inds;
    var s := IterDirect(DEPTH, TruncateProc(), Context(disk, p, 0, NoError), blocks, 0, NOTHING);
    RootCutsPart(g, 1, s);
    var s1 := IterRoot(g, DEPTH, TruncateProc(), 1, s);
    RootCutsPart(g, 2, s1);
    RootCutsPart(g, 3, IterRoot(g, DEPTH, TruncateProc(), 2, s1));
  }

  // ---------- the trees show the mapping ----------

  lemma {:induction false} TreeShows(disk: Disk, n: nat, level: nat, blk: nat, s: int)
    requires n > 0
    ensures Shows(n, level, TreeOf(disk, n, level, blk), s, TreeMap(disk, n, level, blk, s))
    decreases level, n + 1
  {
    var m := TreeMap(disk, n, level, blk, s);
    if blk == 0 {
      forall j | s <= j < s + Pow(n, level)
        ensures m(j) == 0
      {
        assert m(j) == Lookup(disk, n, level, 0, j - s);
      }
    } else if level == 0 {
      assert m(s) == Lookup(disk, n, 0, blk, 0) && Pow(n, 0) == 1;
    } else {
      var buf := ReadInd(disk, blk, n);
      assert buf[0..] == buf;
      KidsShowMap(disk, n, level, blk, buf, 0, s);
    }
  }

  lemma {:induction false} KidsShowMap(disk: Disk, n: nat, level: nat, blk: nat, buf: seq<nat>, i: nat, s: int)
    requires n > 0 && level > 0 && blk != 0 && buf == ReadInd(disk, blk, n) && i <= n
    ensures KidsShow(n, level, KidsOf(disk, n, level, buf[i..]), s + i * Pow(n, level - 1),
              TreeMap(disk, n, level, blk, s))
    decreases level, n - i
  {
    if i < n {
      var w := Pow(n, level - 1);
      var kids := KidsOf(disk, n, level, buf[i..]);
      assert buf[i..][0] == buf[i] && buf[i..][1..] == buf[i + 1..];
      KidsEnd(i + 1, w);
      assert kids[0] == TreeOf(disk, n, level - 1, buf[i]) && kids[1..] == KidsOf(disk, n, level, buf[i + 1..]);
      TreeShows(disk, n, level - 1, buf[i], s + i * w);
      ChildMap(disk, n, level, blk, s, i);
      ShapedTree(disk, n, level - 1, buf[i]);
      hide Lookup, Pow, KidsOf, TreeOf;
      ShowsSame(n, level - 1, kids[0], s + i * w, TreeMap(disk, n, level - 1, buf[i], s + i * w),
          TreeMap(disk, n, level, blk, s));
      KidsShowMap(disk, n, level, blk, buf, i + 1, s);
    }
  }

  /** Only the mapping inside the tree's range matters. */
  lemma {:induction false} ShowsSame(n: nat, level: nat, t: Tree, s: int, m: Mapping, m': Mapping)
    requires n > 0 && Shaped(n, level, t) && Shows(n, level, t, s, m)
    requires forall j :: s <= j < s + Pow(n, level) ==> m(j) == m'(j)
    ensures Shows(n, level, t, s, m')
    decreases level, if t.Node? then |t.kids| + 1 else 0
  {
    if t.Node? && level > 0 {
      KidsShowSame(n, level, t.kids, s, m, m', n);
    } else if t.Node? {
      assert Pow(n, 0) == 1;
    }
  }

  lemma {:induction false} KidsShowSame(n: nat, level: nat, kids: seq<Tree>, s: int, m: Mapping, m': Mapping, k: nat)
    requires n > 0 && level > 0 && KidsShow(n, level, kids, s, m) && k == |kids|
    requires forall i :: 0 <= i < |kids| ==> Shaped(n, level - 1, kids[i])
    requires forall j :: s <= j < s + k * Pow(n, level - 1) ==> m(j) == m'(j)
    ensures KidsShow(n, level, kids, s, m')
    decreases level, |kids|
  {
    if kids != [] {
      var w := Pow(n, level - 1);
      KidsEnd(k, w);
      MulNonNegative(k - 1, w);
      ShowsSame(n, level - 1, kids[0], s, m, m');
      KidsShowSame(n, level, kids[1..], s + w, m, m', k - 1);
    }
  }

  /** A tree shows one mapping only. */
  lemma {:induction false} ShowsUnique(n: nat, level: nat, t: Tree, s: int, m: Mapping, m': Mapping, j: int)
    requires n > 0 && Shaped(n, level, t) && Shows(n, level, t, s, m) && Shows(n, level, t, s, m')
    requires s <= j < s + Pow(n, level)
    ensures m(j) == m'(j)
    decreases level, if t.Node? then |t.kids| + 1 else 0
  {
    if t.Node? && level > 0 {
      KidsShowUnique(n, level, t.kids, s, m, m', j);
    } else if t.Node? {
      assert Pow(n, 0) == 1;
    }
  }

  lemma {:induction false} KidsShowUnique(n: nat, level: nat, kids: seq<Tree>, s: int, m: Mapping, m': Mapping, j: int)
    requires n > 0 && level > 0 && KidsShow(n, level, kids, s, m) && KidsShow(n, level, kids, s, m')
    requires forall i :: 0 <= i < |kids| ==> Shaped(n, level - 1, kids[i])
    requires s <= j < s + |kids| * Pow(n, level - 1)
    ensures m(j) == m'(j)
    decreases level, |kids|
  {
    var w := Pow(n, level - 1);
    assert kids == [] ==> |kids| * w == 0;
    KidsEnd(|kids|, w);
    if j < s + w {
      ShowsUnique(n, level - 1, kids[0], s, m, m', j);
    } else {
      KidsShowUnique(n, level, kids[1..], s + w, m, m', j);
    }
  }

  ghost predicate PartsShow(n: nat, f: Parts, m: Mapping) {
    && KidsShow(n, 1, f.direct, 0, m) && Shows(n, 1, f.t1, RootStart(n, 1), m)
    && Shows(n, 2, f.t2, RootStart(n, 2), m) && Shows(n, 3, f.t3, RootStart(n, 3), m)
  }

  lemma {:induction false} DirectShows(disk: Disk, n: nat, blocks: seq<nat>, i: nat)
    requires n >= NDIR && |blocks| == NDIR + 3 && i <= NDIR
    ensures KidsShow(n, 1, KidsOf(disk, n, 1, blocks[i..NDIR]), i, FileMap(disk, n, blocks))
    decreases NDIR - i
  {
    if i < NDIR {
      var m, buf := FileMap(disk, n, blocks), blocks[i..NDIR];
      assert buf[0] == blocks[i] && buf[1..] == blocks[i + 1..NDIR];
      assert m(i) == FileBlock(disk, n, blocks, i) == blocks[i];
      assert Pow(n, 0) == 1;
      hide Lookup, RootStart;
      DirectShows(disk, n, blocks, i + 1);
    }
  }

  lemma RootShows(disk: Disk, n: nat, blocks: seq<nat>, level: nat)
    requires n >= NDIR && |blocks| == NDIR + 3 && 1 <= level <= 3
    ensures Shows(n, level, TreeOf(disk, n, level, blocks[NDIR + level - 1]), RootStart(n, level),
              FileMap(disk, n, blocks))
  {
    var blk, s, m := blocks[NDIR + level - 1], RootStart(n, level), FileMap(disk, n, blocks);
    TreeShows(disk, n, level, blk, s);
    ShapedTree(disk, n, level, blk);
    RootMapPointwise(disk, n, blocks, level);
    hide TreeOf, Lookup, FileBlock, Pow, RootStart;
    ShowsSame(n, level, TreeOf(disk, n, level, blk), s, TreeMap(disk, n, level, blk, s), m);
  }

  lemma PartsOfShow(disk: Disk, n: nat, blocks: seq<nat>)
    requires n >= NDIR && |blocks| == NDIR + 3
    ensures PartsShow(n, PartsOf(disk, n, blocks), FileMap(disk, n, blocks))
  {
    DirectShows(disk, n, blocks, 0);
    assert blocks[0..NDIR] == blocks[..NDIR];
    RootShows(disk, n, blocks, 1);
    RootShows(disk, n, blocks, 2);
    RootShows(disk, n, blocks, 3);
    hide TreeOf, KidsOf, FileBlock, RootStart, Shows, KidsShow;
  }

  /** If the trees on disk show `m`, then `m` is the mapping of the file. */
  lemma ShownIsMapping(disk: Disk, n: nat, blocks: seq<nat>, m: Mapping, j: int)
    requires n >= NDIR && |blocks| == NDIR + 3 && PartsShow(n, PartsOf(disk, n, blocks), m) && 0 <= j < MaxBlocks(n)
    ensures FileBlock(disk, n, blocks, j) == m(j)
  {
    var f, m' := PartsOf(disk, n, blocks), FileMap(disk, n, blocks);
    PartsOfShow(disk, n, blocks);
    RootStarts(n);
    ShapedKids(disk, n, 1, blocks[..NDIR]);
    ShapedTree(disk, n, 1, blocks[NDIR]);
    ShapedTree(disk, n, 2, blocks[NDIR + 1]);
    ShapedTree(disk, n, 3, blocks[NDIR + 2]);
    assert m'(j) == FileBlock(disk, n, blocks, j);
    assert Pow(n, 0) == 1;
    hide FileBlock, Shaped, Shows, KidsShow, RootStart, Pow, TreeOf, KidsOf;
    if j < NDIR {
      KidsShowUnique(n, 1, f.direct, 0, m, m', j);
    } else if j < RootStart(n, 2) {
      ShowsUnique(n, 1, f.t1, RootStart(n, 1), m, m', j);
    } else if j < RootStart(n, 3) {
      ShowsUnique(n, 2, f.t2, RootStart(n, 2), m, m', j);
    } else {
      ShowsUnique(n, 3, f.t3, RootStart(n, 3), m, m', j);
    }
  }

  // ---------- the file after truncation ----------

  ghost function LeftFile(n: nat, keep: int, f: Parts, m: Mapping): Parts
    requires n > 0
  {
    Parts(LeftKids(n, keep, 1, f.direct, 0, m), Left(n, keep, 1, f.t1, RootStart(n, 1), m),
          Left(n, keep, 2, f.t2, RootStart(n, 2), m), Left(n, keep, 3, f.t3, RootStart(n, 3), m))
  }

  ghost function PrunedFile(n: nat, keep: int, f: Parts): Parts {
    Parts(PrunedKids(n, keep, 1, f.direct, 0), Pruned(n, keep, 1, f.t1, RootStart(n, 1)),
          Pruned(n, keep, 2, f.t2, RootStart(n, 2)), Pruned(n, keep, 3, f.t3, RootStart(n, 3)))
  }

  /** Every indirect block keeps a data block, or a dropped data block before its end starts a tree of its level. */
  ghost predicate ReachedFile(n: nat, keep: int, f: Parts, m: Mapping)
    requires n > 0
  {
    && Reached(n, keep, 1, f.t1, RootStart(n, 1), m)
    && Reached(n, keep, 2, f.t2, RootStart(n, 2), m)
    && Reached(n, keep, 3, f.t3, RootStart(n, 3), m)
  }

  ghost function FileBlocks(f: Parts): multiset<nat> {
    KidsBlocks(f.direct) + Blocks(f.t1) + Blocks(f.t2) + Blocks(f.t3)
  }

  ghost predicate ShapedFile(n: nat, f: Parts) {
    && |f.direct| == NDIR && (forall i :: 0 <= i < NDIR ==> Shaped(n, 0, f.direct[i]))
    && Shaped(n, 1, f.t1) && Shaped(n, 2, f.t2) && Shaped(n, 3, f.t3)
  }

  lemma RootsAligned(n: nat)
    requires n > 0
    ensures Placed(n, 1, RootStart(n, 1)) && Placed(n, 2, RootStart(n, 2)) && Placed(n, 3, RootStart(n, 3))
  {
    RootStarts(n);
    SmallPows(n);
    SquarePositive(n);
    SmallMultiple(0, n);
    SmallMultiple(0, n * n);
    hide Multiple, RootStart, Pow;
  }

  lemma FreshFlags(p: Info, m: Mapping)
    requires p.n > 0 && p.keep >= -1 && !p.single && !p.allButTriple && !p.allIndirect
    ensures FlagsMean(p, m, 0)
  {
  }

  lemma CutFileIsLeft(n: nat, f: Parts, p: Info, m: Mapping)
    requires n >= NDIR && p.n == n && ShapedFile(n, f) && PartsShow(n, f, m) && FlagsMean(p, m, 0)
    ensures CutFile(n, f, p).0 == LeftFile(n, p.keep, f, m)
    ensures Accounted(FileBlocks(f), FileBlocks(CutFile(n, f, p).0), p, CutFile(n, f, p).1)
  {
    hide Shaped, Shows, KidsShow, CutTree, CutKids, Left, LeftKids, FlagsMean, Pow, RootStart, Accounted, Blocks,
         KidsBlocks, Placed;
    assert 0 + 0 * Pow(n, 0) == 0;
    CutKidsFlags(1, f.direct, 0, p, m);
    CutKidsLeaves(1, f.direct, 0, p, m);
    CutKidsAccount(1, f.direct, 0, p, m, 0, 0);
    var (direct, p0) := CutKids(1, f.direct, 0, p);
    RootsAligned(n);
    RootStarts(n);
    PowZero(n);
    TreePart(n, 1, f.t1, RootStart(n, 1), p0, m);
    var (t1, p1) := CutTree(1, f.t1, RootStart(n, 1), p0);
    TreePart(n, 2, f.t2, RootStart(n, 2), p1, m);
    var (t2, p2) := CutTree(2, f.t2, RootStart(n, 2), p1);
    TreePart(n, 3, f.t3, RootStart(n, 3), p2, m);
    var (t3, p3) := CutTree(3, f.t3, RootStart(n, 3), p2);
    AccountedTwice(KidsBlocks(f.direct), KidsBlocks(direct), Blocks(f.t1), Blocks(t1), p, p0, p1);
    AccountedTwice(KidsBlocks(f.direct) + Blocks(f.t1), KidsBlocks(direct) + Blocks(t1), Blocks(f.t2), Blocks(t2),
        p, p1, p2);
    AccountedTwice(KidsBlocks(f.direct) + Blocks(f.t1) + Blocks(f.t2), KidsBlocks(direct) + Blocks(t1) + Blocks(t2),
                   Blocks(f.t3), Blocks(t3), p, p2, p3);
  }

  lemma PowZero(n: nat)
    ensures NDIR * Pow(n, 0) == NDIR
  {
  }

  lemma TreePart(n: nat, level: nat, t: Tree, s: int, p: Info, m: Mapping)
    requires n > 0 && p.n == n && 1 <= level <= 3 && Placed(n, level, s) && Shaped(n, level, t)
    requires Shows(n, level, t, s, m) && FlagsMean(p, m, s)
    ensures var (t1, p1) := CutTree(level, t, s, p);
            && p1.n == n && p1.keep == p.keep && FlagsMean(p1, m, s + Pow(n, level))
            && t1 == Left(n, p.keep, level, t, s, m) && Accounted(Blocks(t), Blocks(t1), p, p1)
  {
    CutFlags(level, t, s, p, m);
    CutLeaves(level, t, s, p, m);
    CutAccounts(level, t, s, p, m);
  }

  lemma LeftFileShows(n: nat, keep: int, f: Parts, m: Mapping)
    requires n >= NDIR && PartsShow(n, f, m)
    ensures PartsShow(n, LeftFile(n, keep, f, m), Kept(m, keep))
  {
    RootsAligned(n);
    hide Shows, Left, LeftKids, RootStart, Placed, Pow;
    LeftKidsShow(n, keep, 1, f.direct, 0, m, 0, 0);
    LeftShows(n, keep, 1, f.t1, RootStart(n, 1), m);
    LeftShows(n, keep, 2, f.t2, RootStart(n, 2), m);
    LeftShows(n, keep, 3, f.t3, RootStart(n, 3), m);
  }

  /** Truncation leaves exactly the right tree if, and only if, the flags reach every indirect block. */
  lemma LeftFileIsPruned(n: nat, keep: int, f: Parts, m: Mapping)
    requires n >= NDIR && ShapedFile(n, f) && PartsShow(n, f, m)
    ensures LeftFile(n, keep, f, m) == PrunedFile(n, keep, f) <==> ReachedFile(n, keep, f, m)
  {
    RootsAligned(n);
    hide Shaped, Shows, KidsShow, Left, LeftKids, Pruned, PrunedKids, Reached, RootStart, Placed;
    DirectLeft(n, keep, f.direct, 0, m);
    LeftIsPruned(n, keep, 1, f.t1, RootStart(n, 1), m);
    LeftIsPruned(n, keep, 2, f.t2, RootStart(n, 2), m);
    LeftIsPruned(n, keep, 3, f.t3, RootStart(n, 3), m);
  }

  lemma {:induction false} DirectLeft(n: nat, keep: int, kids: seq<Tree>, s: int, m: Mapping)
    requires n > 0
    ensures LeftKids(n, keep, 1, kids, s, m) == PrunedKids(n, keep, 1, kids, s)
    decreases |kids|
  {
    if kids != [] {
      DirectLeft(n, keep, kids[1..], s + Pow(n, 0), m);
    }
  }

  /** Every indirect block has a data block mapped below it. */
  ghost predicate Inhabited(n: nat, level: nat, t: Tree, s: int, m: Mapping)
    decreases level, if t.Node? then |t.kids| + 1 else 0
  {
    t.Node? && level > 0 ==>
        KeepsSome(s + Pow(n, level), m, s, s + Pow(n, level)) && KidsInhabited(n, level, t.kids, s, m)
  }

  ghost predicate KidsInhabited(n: nat, level: nat, kids: seq<Tree>, s: int, m: Mapping)
    requires level > 0
    decreases level, |kids|
  {
    kids != [] ==>
      Inhabited(n, level - 1, kids[0], s, m) && KidsInhabited(n, level, kids[1..], s + Pow(n, level - 1), m)
  }

  /** A file without holes: mapped up to some length, not beyond, and no indirect block without a data block. */
  ghost predicate HoleFree(n: nat, f: Parts, m: Mapping, len: int) {
    && (forall j :: m(j) != 0 <==> 0 <= j < len)
    && Inhabited(n, 1, f.t1, RootStart(n, 1), m) && Inhabited(n, 2, f.t2, RootStart(n, 2), m)
    && Inhabited(n, 3, f.t3, RootStart(n, 3), m)
  }

  lemma {:induction false} HoleFreeFirst(n: nat, level: nat, t: Tree, s: int, m: Mapping, len: int)
    requires s >= 0 && Inhabited(n, level, t, s, m) && forall j :: m(j) != 0 <==> 0 <= j < len
    ensures FirstMapped(n, level, t, s, m)
    decreases level, if t.Node? then |t.kids| + 1 else 0
  {
    if t.Node? && level > 0 {
      HoleFreeKidsFirst(n, level, t.kids, s, m, len);
    }
  }

  lemma {:induction false} HoleFreeKidsFirst(n: nat, level: nat, kids: seq<Tree>, s: int, m: Mapping, len: int)
    requires s >= 0 && level > 0 && KidsInhabited(n, level, kids, s, m) && forall j :: m(j) != 0 <==> 0 <= j < len
    ensures KidsFirstMapped(n, level, kids, s, m)
    decreases level, |kids|
  {
    if kids != [] {
      HoleFreeFirst(n, level - 1, kids[0], s, m, len);
      HoleFreeKidsFirst(n, level, kids[1..], s + Pow(n, level - 1), m, len);
    }
  }

  /** For a file without holes truncation leaves exactly the right tree, whatever the new length. */
  lemma HoleFreeIsPruned(n: nat, keep: int, f: Parts, m: Mapping, len: int)
    requires n >= NDIR && ShapedFile(n, f) && PartsShow(n, f, m) && HoleFree(n, f, m, len)
    ensures LeftFile(n, keep, f, m) == PrunedFile(n, keep, f)
  {
    RootsAligned(n);
    RootStarts(n);
    hide Shaped, Shows, KidsShow, Reached, FirstMapped, Inhabited, RootStart, Placed, Pow, Left, Pruned, LeftKids,
         PrunedKids;
    HoleFreeFirst(n, 1, f.t1, RootStart(n, 1), m, len);
    HoleFreeFirst(n, 2, f.t2, RootStart(n, 2), m, len);
    HoleFreeFirst(n, 3, f.t3, RootStart(n, 3), m, len);
    FirstMappedReached(n, keep, 1, f.t1, RootStart(n, 1), m);
    FirstMappedReached(n, keep, 2, f.t2, RootStart(n, 2), m);
    FirstMappedReached(n, keep, 3, f.t3, RootStart(n, 3), m);
    LeftFileIsPruned(n, keep, f, m);
  }

  // ---------- do_shorten ----------

  datatype InodeData = InodeData(size: nat, sizeHigh: nat, sectors: nat, blocks: seq<nat>)

  /** A mounted file system as truncation sees it: the blocks, the inode on disk, and the blocks given back. */
  class FileSystem {
    const g: Geometry
    const blockSize: nat
    var disk: Disk
    var inode: InodeData
    var freed: seq<nat>

    constructor (g: Geometry, blockSize: nat, disk: Disk, inode: InodeData)
      ensures this.g == g && this.blockSize == blockSize && this.disk == disk && this.inode == inode && freed == []
    {
      this.g, this.blockSize, this.disk, this.inode, freed := g, blockSize, disk, inode, [];
    }

    ghost predicate Valid()
      reads this
    {
      && g.n >= NDIR && g.n == blockSize / 4 && |inode.blocks| == NDIR + 3
      && FileSeparate(g, FileTrees())
    }

    ghost function FileTrees(): Parts
      requires g.n >= NDIR && |inode.blocks| == NDIR + 3
      reads this
    {
      PartsOf(disk, g.n, inode.blocks)
    }

    /** do_shorten with a handle whose copy of the inode is `handle`. */
    method DoShorten(handle: InodeData, length: nat) returns (rc: int)
      requires Valid() && handle == inode
      modifies this
      ensures length >= handle.size ==> unchanged(this) && rc == if length == handle.size then 0 else EFAULT
      ensures length < handle.size ==>
                var n, keep, m := g.n, LastToKeep(length, blockSize), FileMap(old(disk), g.n, handle.blocks);
                && rc == 0 && inode.size == length && inode.sizeHigh == 0 && |inode.blocks| == NDIR + 3
                && FileTrees() == LeftFile(n, keep, old(FileTrees()), m)
                && inode.sectors == Sectors(|FileBlocks(FileTrees())|, blockSize)
                && (forall j :: 0 <= j < MaxBlocks(n) ==>
                      FileBlock(disk, n, inode.blocks, j) ==
                      if j * blockSize < length then FileBlock(old(disk), n, handle.blocks, j) else 0)
                && old(freed) <= freed
                && multiset(freed[|old(freed)|..]) + FileBlocks(FileTrees()) == FileBlocks(old(FileTrees()))
    {
      assert blockSize > 0;
      hide Sectors, LastToKeep, IterInode, PartsOf, FileMap, LeftFile, FileBlocks, FileSeparate;
      if length == handle.size {
        return 0;
      }
      if length > handle.size {
        return EFAULT;
      }
      var keep := LastToKeep(length, blockSize);
      var info := Info(keep, g.n, false, false, false, 0, 0, []);
      inode := handle.(size := length, sizeHigh := 0);
      var ctx := new BlockContext(g, DEPTH, TruncateProc(), disk, info);
      var blocks, ret := ctx.IterateInode(inode.blocks);
      TruncationOfFile(g, disk, handle.blocks, info);
      disk, freed := ctx.disk, freed + ctx.privData.freed;
      assert freed[|old(freed)|..] == ctx.privData.freed;
      if ret.changed {
        inode := inode.(blocks := blocks);
      }
      inode := inode.(sectors := Sectors(ctx.privData.total, blockSize));
      rc := 0;
      ShortenedBytes(old(disk), disk, g.n, handle.blocks, inode.blocks, length, blockSize);
    }
  }

  /** i_blocks counts in units of 512 bytes. */
  function Sectors(blocks: nat, blockSize: nat): nat {
    blocks * blockSize / 512
  }

  /** They are the bytes of the blocks: exactly those, as block sizes are multiples of 512. */
  lemma SectorsAreBytes(blocks: nat, blockSize: nat)
    ensures Sectors(blocks, blockSize) * 512 <= blocks * blockSize < Sectors(blocks, blockSize) * 512 + 512
    ensures blockSize % 512 == 0 ==> Sectors(blocks, blockSize) * 512 == blocks * blockSize
  {
    if blockSize % 512 == 0 {
      var k := blockSize / 512;
      assert blocks * blockSize == blocks * k * 512;
      MultipleMod(blocks * k, 512);
    }
  }

  /** The iteration do_shorten runs, from fresh flags: what is left, what is given back, and the count. */
  lemma TruncationOfFile(g: Geometry, disk: Disk, blocks: seq<nat>, info: Info)
    requires g.n >= NDIR && |blocks| == NDIR + 3 && info.keep >= -1
    requires info == Info(info.keep, g.n, false, false, false, 0, 0, [])
    requires FileSeparate(g, PartsOf(disk, g.n, blocks))
    ensures var r, f, m := IterInode(g, DEPTH, TruncateProc(), disk, info, blocks), PartsOf(disk, g.n, blocks),
              FileMap(disk, g.n, blocks);
            var f' := PartsOf(r.c.disk, g.n, r.blocks);
            && f' == LeftFile(g.n, info.keep, f, m) && (!r.ret.changed ==> r.blocks == blocks)
            && multiset(r.c.p.freed) + FileBlocks(f') == FileBlocks(f) && r.c.p.total == |FileBlocks(f')|
  {
    var f, m := PartsOf(disk, g.n, blocks), FileMap(disk, g.n, blocks);
    IterationCutsFile(g, disk, blocks, info);
    TreesOfFile(disk, g.n, blocks);
    FreshFlags(info, m);
    CutFileIsLeft(g.n, f, info, m);
    hide CutFile, IterInode, LeftFile, PartsOf, FileBlocks, FileMap, FlagsMean, ShapedFile, PartsShow;
  }

  const EFAULT := 14

  function LastToKeep(length: nat, blockSize: nat): (keep: int)
    requires blockSize > 0
    ensures keep >= -1
  {
    if length != 0 then (length - 1) / blockSize else -1
  }

  /** A block is kept exactly if one of its bytes is. */
  lemma BlockKept(length: nat, blockSize: nat, j: nat)
    requires blockSize > 0
    ensures j <= LastToKeep(length, blockSize) <==> j * blockSize < length
  {
    if length > 0 {
      var q := (length - 1) / blockSize;
      assert length - 1 == q * blockSize + (length - 1) % blockSize;
      if j <= q {
        MulMonotone(j, q, blockSize);
      } else {
        MulMonotone(q + 1, j, blockSize);
        assert (q + 1) * blockSize == q * blockSize + blockSize;
      }
    } else {
      MulMonotone(0, j, blockSize);
    }
  }

  lemma ShortenedBytes(disk: Disk, disk': Disk, n: nat, blocks: seq<nat>, blocks': seq<nat>, length: nat,
                       blockSize: nat)
    requires n >= NDIR && |blocks| == NDIR + 3 == |blocks'| && blockSize > 0
    requires PartsOf(disk', n, blocks') ==
             LeftFile(n, LastToKeep(length, blockSize), PartsOf(disk, n, blocks), FileMap(disk, n, blocks))
    ensures forall j :: 0 <= j < MaxBlocks(n) ==>
              FileBlock(disk', n, blocks', j) == if j * blockSize < length then FileBlock(disk, n, blocks, j) else 0
  {
    hide LastToKeep, PartsOf, FileMap, LeftFile, FileBlock, MaxBlocks;
    forall j | 0 <= j < MaxBlocks(n)
      ensures FileBlock(disk', n, blocks', j) == if j * blockSize < length then FileBlock(disk, n, blocks, j) else 0
    {
      ShortenedMapping(disk, disk', n, blocks, blocks', LastToKeep(length, blockSize), j);
      BlockKept(length, blockSize, j);
    }
  }

  lemma TreesOfFile(disk: Disk, n: nat, blocks: seq<nat>)
    requires n >= NDIR && |blocks| == NDIR + 3
    ensures ShapedFile(n, PartsOf(disk, n, blocks)) && PartsShow(n, PartsOf(disk, n, blocks), FileMap(disk, n, blocks))
  {
    PartsOfShow(disk, n, blocks);
    ShapedKids(disk, n, 1, blocks[..NDIR]);
    ShapedTree(disk, n, 1, blocks[NDIR]);
    ShapedTree(disk, n, 2, blocks[NDIR + 1]);
    ShapedTree(disk, n, 3, blocks[NDIR + 2]);
  }

  /** The mapping of the shortened file: the old one up to the last block to keep, and nothing after it. */
  lemma ShortenedMapping(disk: Disk, disk': Disk, n: nat, blocks: seq<nat>, blocks': seq<nat>, keep: int, j: int)
    requires n >= NDIR && |blocks| == NDIR + 3 == |blocks'| && 0 <= j < MaxBlocks(n)
    requires PartsOf(disk', n, blocks') == LeftFile(n, keep, PartsOf(disk, n, blocks), FileMap(disk, n, blocks))
    ensures FileBlock(disk', n, blocks', j) == if j <= keep then FileBlock(disk, n, blocks, j) else 0
  {
    var m := FileMap(disk, n, blocks);
    PartsOfShow(disk, n, blocks);
    LeftFileShows(n, keep, PartsOf(disk, n, blocks), m);
    ShownIsMapping(disk', n, blocks', Kept(m, keep), j);
    assert m(j) == FileBlock(disk, n, blocks, j);
  }

  // ---------- a sparse file that keeps an empty indirect block ----------

  /** One indirect block `x`, with only its second number set. */
  function SparseDisk(n: nat, x: nat, y: nat): Disk
    requires n > 1
  {
    map[x := Zeros(n)[1 := y]]
  }

  function SparseBlocks(x: nat): (r: seq<nat>)
    ensures |r| == NDIR + 3
  {
    Zeros(NDIR) + [x, 0, 0]
  }

  lemma SparseMapping(n: nat, x: nat, y: nat, j: int)
    requires n >= NDIR && x != 0 && j < MaxBlocks(n)
    ensures FileBlock(SparseDisk(n, x, y), n, SparseBlocks(x), j) == if j == NDIR + 1 then y else 0
  {
    assert Pow(n, 0) == 1;
    SmallPows(n);
    RootStarts(n);
    hide Zeros;
  }

  lemma {:induction false} NoIndsBelow(kids: seq<Tree>)
    ensures KidsInds(1, kids) == {} && KidsSeparate(1, kids)
  {
    if kids != [] {
      NoIndsBelow(kids[1..]);
    }
  }

  lemma SparseSeparate(g: Geometry, x: nat, y: nat)
    requires g.n >= NDIR && x != 0 && g.InRange(x)
    ensures FileSeparate(g, PartsOf(SparseDisk(g.n, x, y), g.n, SparseBlocks(x)))
  {
    hide KidsOf, KidsInds, KidsSeparate;
    var f := PartsOf(SparseDisk(g.n, x, y), g.n, SparseBlocks(x));
    assert f.t1.Node? && f.t1.blk == x && f.t2 == Hole && f.t3 == Hole;
    NoIndsBelow(f.t1.kids);
  }

  lemma LeftTree(n: nat, keep: int, f: Parts, m: Mapping)
    requires n > 0 && f.t1.Node? && Shaped(n, 1, f.t1) && Shows(n, 1, f.t1, NDIR, m)
    ensures !Dropped(n, keep, m, RootStart(n, 1) + Pow(n, 1), 1) ==>
              LeftFile(n, keep, f, m).t1.Node? && LeftFile(n, keep, f, m).t1.blk == f.t1.blk
    ensures !KeepsSome(keep, m, NDIR, NDIR + Pow(n, 1)) ==> PrunedFile(n, keep, f).t1.Hole?
  {
    PrunedKeepsSome(n, keep, 1, f.t1, NDIR, m);
    assert RootStart(n, 1) == NDIR;
    hide Pruned, LeftKids, Shows, Shaped, Dropped, KeepsSome, PrunedKids, Pow, RootStart;
  }

  /** Cut to its direct blocks, of which none is mapped, such a file keeps its indirect block, for every block size. */
  lemma SparseFileKeepsEmptyBlock(n: nat, x: nat, y: nat)
    requires n >= NDIR && x != 0
    ensures var disk, blocks, keep := SparseDisk(n, x, y), SparseBlocks(x), NDIR - 1;
            var f, m := PartsOf(disk, n, blocks), FileMap(disk, n, blocks);
            LeftFile(n, keep, f, m).t1.Node? && LeftFile(n, keep, f, m).t1.blk == x && PrunedFile(n, keep, f).t1.Hole?
  {
    hide LeftFile, PrunedFile, KidsOf, Shaped, Shows, KidsShow, FileBlock, SparseDisk, Pow;
    var disk, blocks, keep := SparseDisk(n, x, y), SparseBlocks(x), NDIR - 1;
    var f, m := PartsOf(disk, n, blocks), FileMap(disk, n, blocks);
    TreesOfFile(disk, n, blocks);
    SmallPows(n);
    RootStarts(n);
    forall j | keep < j < NDIR + n && m(j) != 0
      ensures !Triggers(n, 1, j)
    {
      SparseMapping(n, x, y, j);
    }
    LeftTree(n, keep, f, m);
  }

  /**
   do_shorten on that file: afterwards no logical block is mapped, and still the inode has its indirect
   block, and i_blocks counts it.
   */
  method ShortenSparseFile(g: Geometry, blockSize: nat, x: nat, y: nat) returns (fs: FileSystem)
    requires g.n >= NDIR && g.n == blockSize / 4 && x != 0 && g.InRange(x)
    ensures fs.g == g && fs.inode.size == NDIR * blockSize && |fs.inode.blocks| == NDIR + 3
    ensures forall j :: 0 <= j < MaxBlocks(g.n) ==> FileBlock(fs.disk, g.n, fs.inode.blocks, j) == 0
    ensures fs.inode.blocks[NDIR] == x && x in FileBlocks(fs.FileTrees())
    ensures fs.inode.sectors == Sectors(|FileBlocks(fs.FileTrees())|, blockSize)
  {
    hide PartsOf, FileMap, LeftFile, FileBlocks, FileSeparate, FileBlock, SparseDisk, SparseBlocks, MaxBlocks, Sectors;
    var disk, blocks := SparseDisk(g.n, x, y), SparseBlocks(x);
    var inode := InodeData((NDIR + 2) * blockSize, 0, Sectors(2, blockSize), blocks);
    SparseSeparate(g, x, y);
    fs := new FileSystem(g, blockSize, disk, inode);
    var rc := fs.DoShorten(inode, NDIR * blockSize);
    LastOfDirect(blockSize);
    SparseFileKeepsEmptyBlock(g.n, x, y);
    RootBlock(fs.disk, g.n, fs.inode.blocks);
    RootCounts(fs.FileTrees());
    forall j | 0 <= j < MaxBlocks(g.n)
      ensures FileBlock(fs.disk, g.n, fs.inode.blocks, j) == 0
    {
      ShortenedMapping(disk, fs.disk, g.n, blocks, fs.inode.blocks, NDIR - 1, j);
      SparseMapping(g.n, x, y, j);
    }
  }

  lemma LastOfDirect(blockSize: nat)
    requires blockSize > 0
    ensures LastToKeep(NDIR * blockSize, blockSize) == NDIR - 1
  {
    DivModUnique(NDIR * blockSize - 1, blockSize, NDIR - 1, blockSize - 1);
  }

  lemma RootCounts(f: Parts)
    requires f.t1.Node?
    ensures f.t1.blk in FileBlocks(f)
  {
  }

  lemma RootBlock(disk: Disk, n: nat, blocks: seq<nat>)
    requires n >= NDIR && |blocks| == NDIR + 3
    ensures PartsOf(disk, n, blocks).t1.Node? ==> PartsOf(disk, n, blocks).t1.blk == blocks[NDIR]
  {
    hide KidsOf;
  }
}
