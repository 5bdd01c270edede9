/**
 What truncation does to the tree of blocks of a file: the callback of src/truncate.c with its
 few sticky flags, run depth first over the tree, and which blocks it leaves.
 */
module TruncTree {
  import opened Arith
  import opened BlockIter
  import opened BlockMap

  /** struct truncate_blocks_info; the three flag bits as booleans, and the blocks given back so far. */
  datatype Info = Info(keep: int, n: nat, single: bool, allButTriple: bool, allIndirect: bool,
                       clearPtrs: nat, total: nat, freed: seq<nat>)
  {
    /** Whether an indirect block of the given level is deleted when the iterator comes back to it. */
    predicate Deletes(level: nat) {
      if level == 1 then single || allButTriple || allIndirect
      else if level == 2 then allButTriple || allIndirect
      else allIndirect
    }

    function Free(blk: nat): Info {
      this.(freed := freed + [blk])
    }
  }

  /** truncate_blocks_proc on an indirect block. */
  function OnIndirect(p: Info, level: nat, blk: nat): Info {
    if p.Deletes(level) then p.Free(blk) else p.(total := p.total + 1)
  }

  /** truncate_blocks_proc on data block number `j` of the file. */
  function OnData(p: Info, blk: nat, j: int): Info {
    if j > p.keep then AddFlags(p.Free(blk), j) else p.(total := p.total + 1)
  }

  predicate Multiple(x: int, n: nat) {
    n > 0 && x % n == 0
  }

  /** The flags set by dropping data block `j`. */
  function AddFlags(p: Info, j: int): Info {
    if j < NDIR then p
    else if j == NDIR then p.(clearPtrs := 1, allIndirect := true)
    else if j == p.n + NDIR then p.(clearPtrs := 2, allIndirect := true)
    else if j > p.n + NDIR && p.n > 0 then
      var p1 := if Multiple(j - NDIR, p.n) then p.(single := true) else p;
      var i := j - NDIR - (p.n + p.n * p.n);
      if i == 0 then p1.(clearPtrs := 3, allIndirect := true)
      else if i > 0 && Multiple(i, p.n * p.n) then p1.(allButTriple := true)
      else p1
    else p
  }

  // ---------- the flags are set at the first block of a tree ----------

  /** Whether a tree of the given level can start at data block `s`. */
  predicate Aligned(n: nat, level: nat, s: int)
    requires n > 0
  {
    if level == 1 then s >= NDIR && Multiple(s - NDIR, n)
    else if level == 2 then s >= NDIR + n && Multiple(s - NDIR - n, n * n)
    else s == NDIR + n + n * n
  }

  /** Whether dropping data block `j` makes blocks of the given level go. */
  predicate Triggers(n: nat, level: nat, j: int)
    requires n > 0
  {
    Aligned(n, level, j) || j == NDIR || (level == 3 && j == NDIR + n)
  }

  lemma ModOfMultiple(x: int, n: nat, k: int)
    requires n > 0
    ensures (x + k * n) % n == x % n
  {
    var q, r := x / n, x % n;
    assert x + k * n == (q + k) * n + r;
    if x + k * n >= 0 && q + k >= 0 {
      DivModUnique(x + k * n, n, q + k, r);
    } else {
      ModUnique(x + k * n, n, q + k, r);
    }
  }

  lemma ModUnique(y: int, n: nat, q: int, r: nat)
    requires r < n && y == q * n + r
    ensures y % n == r
  {
    var q', r' := y / n, y % n;
    assert y == q' * n + r';
    assert (q' - q) * n == r - r' && (q - q') * n == r' - r;
    if q' > q {
      MulMonotone(1, q' - q, n);
    } else if q' < q {
      MulMonotone(1, q - q', n);
    }
  }

  /** A multiple of n * n is a multiple of n. */
  lemma ModSquare(x: int, n: nat)
    requires n > 0 && n * n > 0 && x % (n * n) == 0
    ensures x % n == 0
  {
    var q := x / (n * n);
    assert x == q * (n * n) == (q * n) * n;
    ModUnique(x, n, q * n, 0);
  }

  lemma SquarePositive(n: nat)
    requires n > 0
    ensures n * n >= n > 0
  {
    MulMonotone(1, n, n);
  }

  lemma SteppedMultiple(x: int, n: nat, k: int)
    requires n > 0
    ensures Multiple(x + k * n, n) <==> Multiple(x, n)
  {
    ModOfMultiple(x, n, k);
  }

  /** How the multiples the callback tests for are related. */
  lemma TestedMultiples(n: nat, j: int)
    requires n > 0
    ensures var i := j - NDIR - (n + n * n);
            && (Multiple(i, n * n) <==> Multiple(j - NDIR - n, n * n))
            && (Multiple(i, n * n) ==> Multiple(j - NDIR, n))
            && (i == 0 ==> Multiple(i, n * n)) && (j == NDIR ==> Multiple(j - NDIR, n))
            && (j == NDIR + n ==> Multiple(j - NDIR, n) && Multiple(j - NDIR - n, n * n))
            && (0 < j - NDIR < n ==> !Multiple(j - NDIR, n))
            && (0 < j - NDIR - n < n * n ==> !Multiple(j - NDIR - n, n * n))
  {
    hide Multiple;
    SquarePositive(n);
    var i, nn := j - NDIR - (n + n * n), n * n;
    SteppedMultiple(i, nn, 1);
    assert i + 1 * nn == j - NDIR - n;
    SteppedMultiple(i, n, n + 1);
    assert i + (n + 1) * n == j - NDIR;
    SquareMultiple(i, n);
    SteppedMultiple(0, n, 1);
    assert 0 + 1 * n == n;
    SmallMultiple(i, nn);
    SmallMultiple(0, n);
    SmallMultiple(0, nn);
    SmallMultiple(j - NDIR, n);
    SmallMultiple(j - NDIR - n, n * n);
  }

  lemma SquareMultiple(x: int, n: nat)
    ensures Multiple(x, n * n) ==> Multiple(x, n)
  {
    if n > 0 && Multiple(x, n * n) {
      SquarePositive(n);
      ModSquare(x, n);
    }
  }

  lemma SmallMultiple(x: int, n: nat)
    ensures 0 < x < n ==> !Multiple(x, n)
    ensures x == 0 && n > 0 ==> Multiple(x, n)
  {
  }

  /** The flags after data block `j` is dropped: those of the levels whose trees it starts. */
  lemma FlagsAreAlignment(p: Info, j: int, level: nat)
    requires p.n > 0 && 1 <= level <= 3
    ensures AddFlags(p, j).Deletes(level) <==> p.Deletes(level) || Triggers(p.n, level, j)
  {
    hide Multiple;
    TestedMultiples(p.n, j);
    SquarePositive(p.n);
  }

  // ---------- the cut of one tree ----------

  /** The blocks of a file below one block number: data blocks have no children. */
  datatype Tree = Hole | Node(blk: nat, kids: seq<Tree>)

  ghost predicate Shaped(n: nat, level: nat, t: Tree)
    decreases level
  {
    t.Node? ==>
      t.blk != 0 &&
      if level == 0 then t.kids == []
      else |t.kids| == n && forall i :: 0 <= i < n ==> Shaped(n, level - 1, t.kids[i])
  }

  /** What the depth-first iteration with truncate_blocks_proc makes of a tree that starts at data block `s`. */
  ghost function CutTree(level: nat, t: Tree, s: int, p: Info): (r: (Tree, Info))
    decreases level, if t.Node? then |t.kids| + 1 else 0
  {
    if t.Hole? then (Hole, p)
    else if level == 0 then (if s > p.keep then Hole else t, OnData(p, t.blk, s))
    else
      var (kids, p1) := CutKids(level, t.kids, s, p);
      (if p1.Deletes(level) then Hole else Node(t.blk, kids), OnIndirect(p1, level, t.blk))
  }

  /** The same for the children of a block of the given level, the first of them at data block `s`. */
  ghost function CutKids(level: nat, kids: seq<Tree>, s: int, p: Info): (r: (seq<Tree>, Info))
    requires level > 0
    ensures |r.0| == |kids|
    decreases level, |kids|
  {
    if kids == [] then ([], p)
    else
      var (t, p1) := CutTree(level - 1, kids[0], s, p);
      var (rest, p2) := CutKids(level, kids[1..], s + Pow(p.n, level - 1), p1);
      ([t] + rest, p2)
  }

  /** The tree shows the same blocks as the mapping `m` of the file. */
  ghost predicate Shows(n: nat, level: nat, t: Tree, s: int, m: Mapping)
    decreases level, if t.Node? then |t.kids| + 1 else 0
  {
    if t.Hole? then forall j :: s <= j < s + Pow(n, level) ==> m(j) == 0
    else if level == 0 then m(s) == t.blk
    else KidsShow(n, level, t.kids, s, m)
  }

  ghost predicate KidsShow(n: nat, level: nat, kids: seq<Tree>, s: int, m: Mapping)
    requires level > 0
    decreases level, |kids|
  {
    kids != [] ==>
      Shows(n, level - 1, kids[0], s, m) && KidsShow(n, level, kids[1..], s + Pow(n, level - 1), m)
  }

  /** Some mapped data block before `e` is dropped and starts a tree of the given level. */
  ghost predicate Dropped(n: nat, keep: int, m: Mapping, e: int, level: nat)
    requires n > 0
  {
    exists j :: keep < j < e && m(j) != 0 && Triggers(n, level, j)
  }

  /** The sticky flags tell, level by level, whether such a block has been dropped. */
  ghost predicate FlagsMean(p: Info, m: Mapping, e: int)
    requires p.n > 0
  {
    forall level :: 1 <= level <= 3 ==> (p.Deletes(level) <==> Dropped(p.n, p.keep, m, e, level))
  }

  lemma DroppedNext(n: nat, keep: int, m: Mapping, e: int, level: nat)
    requires n > 0
    ensures Dropped(n, keep, m, e + 1, level) <==>
            Dropped(n, keep, m, e, level) || (keep < e && m(e) != 0 && Triggers(n, level, e))
  {
  }

  lemma DroppedInHole(n: nat, keep: int, m: Mapping, s: int, e: int, level: nat)
    requires n > 0 && s <= e && forall j :: s <= j < e ==> m(j) == 0
    ensures Dropped(n, keep, m, e, level) <==> Dropped(n, keep, m, s, level)
  {
  }

  lemma {:induction false} CutFlags(level: nat, t: Tree, s: int, p: Info, m: Mapping)
    requires p.n > 0 && level <= 3 && Shaped(p.n, level, t) && Shows(p.n, level, t, s, m) && FlagsMean(p, m, s)
    ensures var p' := CutTree(level, t, s, p).1;
            p'.n == p.n && p'.keep == p.keep && FlagsMean(p', m, s + Pow(p.n, level))
    decreases level, if t.Node? then |t.kids| + 1 else 0
  {
    hide Triggers, Dropped, AddFlags;
    var n := p.n;
    if t.Hole? {
      forall l | 1 <= l <= 3
        ensures Dropped(n, p.keep, m, s + Pow(n, level), l) <==> Dropped(n, p.keep, m, s, l)
      {
        DroppedInHole(n, p.keep, m, s, s + Pow(n, level), l);
      }
    } else if level == 0 {
      KeepsKeep(p.Free(t.blk), s);
      forall l | 1 <= l <= 3
        ensures OnData(p, t.blk, s).Deletes(l) <==> Dropped(n, p.keep, m, s + 1, l)
      {
        DroppedNext(n, p.keep, m, s, l);
        FlagsAreAlignment(p.Free(t.blk), s, l);
      }
    } else {
      CutKidsFlags(level, t.kids, s, p, m);
    }
  }

  lemma KeepsKeep(p: Info, s: int)
    ensures AddFlags(p, s).n == p.n && AddFlags(p, s).keep == p.keep
  {
  }

  lemma {:induction false} CutKidsFlags(level: nat, kids: seq<Tree>, s: int, p: Info, m: Mapping)
    requires p.n > 0 && 0 < level <= 3 && KidsShow(p.n, level, kids, s, m) && FlagsMean(p, m, s)
    requires forall i :: 0 <= i < |kids| ==> Shaped(p.n, level - 1, kids[i])
    ensures var p' := CutKids(level, kids, s, p).1;
            p'.n == p.n && p'.keep == p.keep && FlagsMean(p', m, s + |kids| * Pow(p.n, level - 1))
    decreases level, |kids|
  {
    hide FlagsMean, Pow, Shaped, Shows;
    if kids != [] {
      CutFlags(level - 1, kids[0], s, p, m);
      var p1 := CutTree(level - 1, kids[0], s, p).1;
      CutKidsFlags(level, kids[1..], s + Pow(p.n, level - 1), p1, m);
      KidsEnd(|kids|, Pow(p.n, level - 1));
    }
  }

  lemma KidsEnd(k: nat, w: nat)
    requires k > 0
    ensures k * w == w + (k - 1) * w
  {
  }

  // ---------- which blocks are left ----------

  lemma TriggersDown(n: nat, level: nat, j: int, lower: nat)
    requires n > 0 && 1 <= lower <= level <= 3 && Triggers(n, level, j)
    ensures Triggers(n, lower, j)
  {
    hide Multiple;
    TestedMultiples(n, j);
    SquarePositive(n);
  }

  lemma SmallPows(n: nat)
    ensures Pow(n, 0) == 1 && Pow(n, 1) == n && Pow(n, 2) == n * n
  {
    assert Pow(n, 1) == n * Pow(n, 0);
    assert Pow(n, 2) == n * Pow(n, 1);
  }

  /** Inside a tree no later block starts a tree of the same level. */
  lemma NoTriggerInside(n: nat, level: nat, s: int, j: int)
    requires n > 0 && 1 <= level <= 3 && Aligned(n, level, s) && s < j < s + Pow(n, level)
    ensures !Triggers(n, level, j)
  {
    hide Multiple;
    SmallPows(n);
    SquarePositive(n);
    if level == 1 {
      SteppedMultiple(j - NDIR - (s - NDIR), n, 0);
      ShiftedMultiple(j - NDIR, s - NDIR, n);
      SmallMultiple(j - s, n);
    } else if level == 2 {
      ShiftedMultiple(j - NDIR - n, s - NDIR - n, n * n);
      SmallMultiple(j - s, n * n);
    }
  }

  lemma ShiftedMultiple(x: int, y: int, n: nat)
    requires n > 0 && Multiple(y, n)
    ensures Multiple(x, n) <==> Multiple(x - y, n)
  {
    var q := y / n;
    assert y == q * n;
    SteppedMultiple(x - y, n, q);
  }

  lemma KidAligned(n: nat, level: nat, s: int, i: nat)
    requires n > 0 && 2 <= level <= 3 && Aligned(n, level, s)
    ensures Aligned(n, level - 1, s + i * Pow(n, level - 1))
  {
    hide Multiple;
    SmallPows(n);
    SquarePositive(n);
    MulNonNegative(i, n);
    MulNonNegative(i, n * n);
    if level == 2 {
      TestedMultiples(n, s);
      SquareMultiple(s - NDIR - n, n);
      SteppedMultiple(s - NDIR - n, n, 1);
      assert s - NDIR - n + 1 * n == s - NDIR;
      SteppedMultiple(s - NDIR, n, i);
      assert s + i * n - NDIR == s - NDIR + i * n;
    } else {
      var nn := n * n;
      SmallMultiple(0, nn);
      SteppedMultiple(0, nn, i + 1);
      assert 0 + (i + 1) * nn == nn + i * nn;
    }
  }

  /**
   If a dropped block starts a tree of this level before the end of an aligned tree, everything in the
   tree is dropped, and by the same block everything below is deleted too.
   */
  lemma DroppedFromStart(n: nat, keep: int, m: Mapping, level: nat, s: int, lower: nat, e: int)
    requires n > 0 && 1 <= lower <= level <= 3 && Aligned(n, level, s)
    requires Dropped(n, keep, m, s + Pow(n, level), level) && e > s
    ensures keep < s && Dropped(n, keep, m, e, lower)
  {
    hide Triggers, Aligned, Pow;
    var j :| keep < j < s + Pow(n, level) && m(j) != 0 && Triggers(n, level, j);
    if j > s {
      NoTriggerInside(n, level, s, j);
    }
    TriggersDown(n, level, j, lower);
  }

  /**
   What truncation should leave by its flags: data blocks up to `keep`, and the indirect blocks no dropped
   block condemns.
   */
  ghost function Left(n: nat, keep: int, level: nat, t: Tree, s: int, m: Mapping): Tree
    requires n > 0
    decreases level, if t.Node? then |t.kids| + 1 else 0
  {
    if t.Hole? then Hole
    else if level == 0 then if s > keep then Hole else t
    else if Dropped(n, keep, m, s + Pow(n, level), level) then Hole
    else Node(t.blk, LeftKids(n, keep, level, t.kids, s, m))
  }

  ghost function LeftKids(n: nat, keep: int, level: nat, kids: seq<Tree>, s: int, m: Mapping): (r: seq<Tree>)
    requires n > 0 && level > 0
    ensures |r| == |kids|
    decreases level, |kids|
  {
    if kids == [] then []
    else [Left(n, keep, level - 1, kids[0], s, m)] + LeftKids(n, keep, level, kids[1..], s + Pow(n, level - 1), m)
  }

  lemma {:induction false} CutLeaves(level: nat, t: Tree, s: int, p: Info, m: Mapping)
    requires p.n > 0 && level <= 3 && Shaped(p.n, level, t) && Shows(p.n, level, t, s, m) && FlagsMean(p, m, s)
    ensures CutTree(level, t, s, p).0 == Left(p.n, p.keep, level, t, s, m)
    decreases level, if t.Node? then |t.kids| + 1 else 0
  {
    if t.Node? && level > 0 {
      CutKidsLeaves(level, t.kids, s, p, m);
      CutKidsFlags(level, t.kids, s, p, m);
      hide Dropped, Shaped, Shows, LeftKids, CutKids;
    }
  }

  lemma {:induction false} CutKidsLeaves(level: nat, kids: seq<Tree>, s: int, p: Info, m: Mapping)
    requires p.n > 0 && 0 < level <= 3 && KidsShow(p.n, level, kids, s, m) && FlagsMean(p, m, s)
    requires forall i :: 0 <= i < |kids| ==> Shaped(p.n, level - 1, kids[i])
    ensures CutKids(level, kids, s, p).0 == LeftKids(p.n, p.keep, level, kids, s, m)
    decreases level, |kids|
  {
    hide FlagsMean, Pow, Shaped, Shows;
    if kids != [] {
      CutLeaves(level - 1, kids[0], s, p, m);
      CutFlags(level - 1, kids[0], s, p, m);
      CutKidsLeaves(level, kids[1..], s + Pow(p.n, level - 1), CutTree(level - 1, kids[0], s, p).1, m);
    }
  }

  /** Trees that start at the beginning of the file's indirect part or below it: level 0 needs no alignment. */
  ghost predicate Placed(n: nat, level: nat, s: int)
    requires n > 0
  {
    level <= 3 && (level > 0 ==> Aligned(n, level, s))
  }

  lemma KidPlaced(n: nat, level: nat, s: int, i: nat)
    requires n > 0 && 0 < level <= 3 && (level > 1 ==> Placed(n, level, s))
    ensures Placed(n, level - 1, s + i * Pow(n, level - 1))
  {
    if level > 1 {
      KidAligned(n, level, s, i);
    }
  }

  /** The mapping of the truncated file. */
  function Kept(m: Mapping, keep: int): Mapping {
    (j: int) => if j <= keep then m(j) else 0
  }

  ghost predicate AllHoles(kids: seq<Tree>) {
    forall i :: 0 <= i < |kids| ==> kids[i] == Hole
  }

  /** Below a condemned block nothing is left: no kept data block, no indirect block. */
  lemma {:induction false} CondemnedKids(n: nat, keep: int, level: nat, kids: seq<Tree>, s: int, m: Mapping, top: nat,
                                         s0: int)
    requires n > 0 && 0 < level <= top <= 3 && Aligned(n, top, s0) && s0 <= s
    requires Dropped(n, keep, m, s0 + Pow(n, top), top)
    ensures AllHoles(LeftKids(n, keep, level, kids, s, m))
    decreases |kids|
  {
    if kids != [] {
      hide Dropped, Aligned;
      PowPositive(n, level - 1);
      if level > 1 {
        DroppedFromStart(n, keep, m, top, s0, level - 1, s + Pow(n, level - 1));
      } else {
        DroppedFromStart(n, keep, m, top, s0, 1, s + 1);
      }
      CondemnedKids(n, keep, level, kids[1..], s + Pow(n, level - 1), m, top, s0);
    }
  }

  /** The data blocks left are exactly the mapped ones up to `keep`, whatever holes the file has. */
  lemma {:induction false} LeftShows(n: nat, keep: int, level: nat, t: Tree, s: int, m: Mapping)
    requires n > 0 && Placed(n, level, s) && Shows(n, level, t, s, m)
    ensures Shows(n, level, Left(n, keep, level, t, s, m), s, Kept(m, keep))
    decreases level, if t.Node? then |t.kids| + 1 else 0
  {
    if t.Node? && level > 0 {
      if Dropped(n, keep, m, s + Pow(n, level), level) {
        PowPositive(n, level);
        DroppedFromStart(n, keep, m, level, s, level, s + 1);
      } else {
        hide Dropped, Placed;
        LeftKidsShow(n, keep, level, t.kids, s, m, s, 0);
      }
    }
  }

  lemma {:induction false} LeftKidsShow(n: nat, keep: int, level: nat, kids: seq<Tree>, s: int, m: Mapping, s0: int,
                                        i: nat)
    requires n > 0 && 0 < level <= 3 && (level > 1 ==> Placed(n, level, s0)) && s == s0 + i * Pow(n, level - 1)
    requires KidsShow(n, level, kids, s, m)
    ensures KidsShow(n, level, LeftKids(n, keep, level, kids, s, m), s, Kept(m, keep))
    decreases level, |kids|
  {
    if kids != [] {
      KidPlaced(n, level, s0, i);
      KidsEnd(i + 1, Pow(n, level - 1));
      hide Placed, Pow, Left;
      LeftShows(n, keep, level - 1, kids[0], s, m);
      LeftKidsShow(n, keep, level, kids[1..], s + Pow(n, level - 1), m, s0, i + 1);
    }
  }

  // ---------- nothing is lost or freed twice ----------

  /** All block numbers of a tree, with multiplicity. */
  ghost function Blocks(t: Tree): (r: multiset<nat>)
    decreases t
  {
    if t.Hole? then multiset{} else multiset{t.blk} + KidsBlocks(t.kids)
  }

  ghost function KidsBlocks(kids: seq<Tree>): (r: multiset<nat>)
    decreases kids
  {
    if kids == [] then multiset{} else Blocks(kids[0]) + KidsBlocks(kids[1..])
  }

  lemma {:induction false} HolesHaveNoBlocks(kids: seq<Tree>)
    requires AllHoles(kids)
    ensures KidsBlocks(kids) == multiset{}
  {
    if kids != [] {
      HolesHaveNoBlocks(kids[1..]);
    }
  }

  /** Every block of the tree is left in it or freed, once each, and those left are counted. */
  ghost predicate Accounted(before: multiset<nat>, after: multiset<nat>, p: Info, p': Info) {
    && multiset(p.freed) + before == multiset(p'.freed) + after
    && p'.total == p.total + |after|
  }

  lemma AccountedTwice(b1: multiset<nat>, a1: multiset<nat>, b2: multiset<nat>, a2: multiset<nat>, p: Info, p1: Info,
                       p2: Info)
    requires Accounted(b1, a1, p, p1) && Accounted(b2, a2, p1, p2)
    ensures Accounted(b1 + b2, a1 + a2, p, p2)
  {
    assert multiset(p.freed) + (b1 + b2) == (multiset(p.freed) + b1) + b2 == (multiset(p1.freed) + a1) + b2;
    assert (multiset(p1.freed) + a1) + b2 == (multiset(p1.freed) + b2) + a1;
    assert (multiset(p1.freed) + b2) + a1 == (multiset(p2.freed) + a2) + a1 == multiset(p2.freed) + (a1 + a2);
  }

  lemma FreeOne(p: Info, blk: nat)
    ensures multiset(p.Free(blk).freed) == multiset(p.freed) + multiset{blk}
  {
  }

  lemma {:induction false} CutAccounts(level: nat, t: Tree, s: int, p: Info, m: Mapping)
    requires p.n > 0 && Placed(p.n, level, s) && Shaped(p.n, level, t) && Shows(p.n, level, t, s, m)
    requires FlagsMean(p, m, s)
    ensures var r := CutTree(level, t, s, p); Accounted(Blocks(t), Blocks(r.0), p, r.1)
    decreases level, if t.Node? then |t.kids| + 1 else 0
  {
    hide Blocks, KidsBlocks, FlagsMean, CutKids, Accounted, KidsShow, LeftKids;
    if t.Hole? || level == 0 {
      LeafAccount(level, t, s, p);
    } else {
      KidsEnd(1, Pow(p.n, level - 1));
      CutKidsAccount(level, t.kids, s, p, m, s, 0);
      CutKidsFlags(level, t.kids, s, p, m);
      CutKidsLeaves(level, t.kids, s, p, m);
      var (kids, p1) := CutKids(level, t.kids, s, p);
      NodeAccount(level, t, s, p, kids, p1, m);
    }
  }

  lemma LeafAccount(level: nat, t: Tree, s: int, p: Info)
    requires t.Hole? || (level == 0 && t.kids == [])
    ensures var r := CutTree(level, t, s, p); Accounted(Blocks(t), Blocks(r.0), p, r.1)
  {
    hide AddFlags;
    if t.Hole? {
      AccountedNothing(p);
    } else {
      FreeOne(p, t.blk);
      SameLists(p.Free(t.blk), s);
    }
  }

  lemma SameLists(p: Info, s: int)
    ensures AddFlags(p, s).freed == p.freed && AddFlags(p, s).total == p.total
  {
  }

  lemma Shift(a: multiset<nat>, b: multiset<nat>, x: nat)
    ensures a + (multiset{x} + b) == (a + b) + multiset{x}
  {
  }

  lemma NodeAccount(level: nat, t: Tree, s: int, p: Info, kids: seq<Tree>, p1: Info, m: Mapping)
    requires t.Node? && p.n > 0 && level > 0 && Placed(p.n, level, s) && p1.n == p.n && p1.keep == p.keep
    requires FlagsMean(p1, m, s + Pow(p.n, level))
    requires kids == LeftKids(p.n, p.keep, level, t.kids, s, m)
    requires Accounted(KidsBlocks(t.kids), KidsBlocks(kids), p, p1)
    ensures var t' := if p1.Deletes(level) then Hole else Node(t.blk, kids);
            Accounted(Blocks(t), Blocks(t'), p, OnIndirect(p1, level, t.blk))
  {
    hide Placed, FlagsMean, LeftKids, KidsBlocks, Pow;
    Shift(multiset(p.freed), KidsBlocks(t.kids), t.blk);
    if p1.Deletes(level) {
      NodeCondemned(level, t, s, p, kids, p1, m);
      FreeOne(p1, t.blk);
    } else {
      Shift(multiset(p1.freed), KidsBlocks(kids), t.blk);
    }
  }

  lemma NodeCondemned(level: nat, t: Tree, s: int, p: Info, kids: seq<Tree>, p1: Info, m: Mapping)
    requires t.Node? && p.n > 0 && level > 0 && Placed(p.n, level, s) && p1.n == p.n && p1.keep == p.keep
    requires FlagsMean(p1, m, s + Pow(p.n, level)) && kids == LeftKids(p.n, p.keep, level, t.kids, s, m)
    requires p1.Deletes(level)
    ensures KidsBlocks(kids) == multiset{}
  {
    hide LeftKids, KidsBlocks, AllHoles;
    CondemnedKids(p.n, p.keep, level, t.kids, s, m, level, s);
    HolesHaveNoBlocks(kids);
  }

  lemma KidsBlocksCons(t: Tree, rest: seq<Tree>)
    ensures KidsBlocks([t] + rest) == Blocks(t) + KidsBlocks(rest)
  {
    assert ([t] + rest)[1..] == rest;
  }

  lemma {:induction false} CutKidsAccount(level: nat, kids: seq<Tree>, s: int, p: Info, m: Mapping, s0: int, i: nat)
    requires p.n > 0 && 0 < level <= 3 && (level > 1 ==> Placed(p.n, level, s0)) && s == s0 + i * Pow(p.n, level - 1)
    requires KidsShow(p.n, level, kids, s, m) && FlagsMean(p, m, s)
    requires forall j :: 0 <= j < |kids| ==> Shaped(p.n, level - 1, kids[j])
    ensures var r := CutKids(level, kids, s, p); Accounted(KidsBlocks(kids), KidsBlocks(r.0), p, r.1)
    decreases level, |kids|
  {
    hide FlagsMean, Pow, Shaped, Shows, Placed, CutTree, Accounted, Blocks, KidsBlocks, Dropped, Triggers, Info.Deletes;
    if kids == [] {
      AccountedNothing(p);
    } else {
      KidPlaced(p.n, level, s0, i);
      KidsEnd(i + 1, Pow(p.n, level - 1));
      CutAccounts(level - 1, kids[0], s, p, m);
      CutFlags(level - 1, kids[0], s, p, m);
      var (t1, p1) := CutTree(level - 1, kids[0], s, p);
      CutKidsAccount(level, kids[1..], s + Pow(p.n, level - 1), p1, m, s0, i + 1);
      var (rest, p2) := CutKids(level, kids[1..], s + Pow(p.n, level - 1), p1);
      AccountedTwice(Blocks(kids[0]), Blocks(t1), KidsBlocks(kids[1..]), KidsBlocks(rest), p, p1, p2);
      assert kids == [kids[0]] + kids[1..];
      KidsBlocksCons(kids[0], kids[1..]);
      KidsBlocksCons(t1, rest);
    }
  }

  lemma AccountedNothing(p: Info)
    ensures Accounted(KidsBlocks([]), KidsBlocks([]), p, p)
  {
  }

  // ---------- what truncation should leave ----------

  /** Drop the data blocks past `keep`, and then every indirect block with nothing mapped below it. */
  ghost function Pruned(n: nat, keep: int, level: nat, t: Tree, s: int): Tree
    decreases level, if t.Node? then |t.kids| + 1 else 0
  {
    if t.Hole? then Hole
    else if level == 0 then if s > keep then Hole else t
    else
      var kids := PrunedKids(n, keep, level, t.kids, s);
      if AllHoles(kids) then Hole else Node(t.blk, kids)
  }

  ghost function PrunedKids(n: nat, keep: int, level: nat, kids: seq<Tree>, s: int): (r: seq<Tree>)
    requires level > 0
    ensures |r| == |kids|
    decreases level, |kids|
  {
    if kids == [] then []
    else [Pruned(n, keep, level - 1, kids[0], s)] + PrunedKids(n, keep, level, kids[1..], s + Pow(n, level - 1))
  }

  ghost predicate KeepsSome(keep: int, m: Mapping, s: int, e: int) {
    exists j :: s <= j < e && j <= keep && m(j) != 0
  }

  /** Every indirect block keeps a data block, or a dropped data block before its end starts a tree of its level. */
  ghost predicate Reached(n: nat, keep: int, level: nat, t: Tree, s: int, m: Mapping)
    requires n > 0
    decreases level, if t.Node? then |t.kids| + 1 else 0
  {
    t.Node? && level > 0 ==>
      && (KeepsSome(keep, m, s, s + Pow(n, level)) || Dropped(n, keep, m, s + Pow(n, level), level))
      && ReachedKids(n, keep, level, t.kids, s, m)
  }

  ghost predicate ReachedKids(n: nat, keep: int, level: nat, kids: seq<Tree>, s: int, m: Mapping)
    requires n > 0 && level > 0
    decreases level, |kids|
  {
    kids != [] ==>
      Reached(n, keep, level - 1, kids[0], s, m) && ReachedKids(n, keep, level, kids[1..], s + Pow(n, level - 1), m)
  }

  lemma {:induction false} PrunedKeepsSome(n: nat, keep: int, level: nat, t: Tree, s: int, m: Mapping)
    requires n > 0 && Shaped(n, level, t) && Shows(n, level, t, s, m)
    ensures Pruned(n, keep, level, t, s).Node? <==> KeepsSome(keep, m, s, s + Pow(n, level))
    decreases level, if t.Node? then |t.kids| + 1 else 0
  {
    if t.Node? && level > 0 {
      PrunedKidsKeepSome(n, keep, level, t.kids, s, m);
    } else if t.Node? {
      assert Pow(n, 0) == 1;
      assert t.blk != 0 && m(s) == t.blk;
    }
  }

  lemma {:induction false} PrunedKidsKeepSome(n: nat, keep: int, level: nat, kids: seq<Tree>, s: int, m: Mapping)
    requires n > 0 && level > 0 && KidsShow(n, level, kids, s, m)
    requires forall i :: 0 <= i < |kids| ==> Shaped(n, level - 1, kids[i])
    ensures !AllHoles(PrunedKids(n, keep, level, kids, s)) <==> KeepsSome(keep, m, s, s + |kids| * Pow(n, level - 1))
    decreases level, |kids|
  {
    if kids != [] {
      var w := Pow(n, level - 1);
      PrunedKeepsSome(n, keep, level - 1, kids[0], s, m);
      PrunedKidsKeepSome(n, keep, level, kids[1..], s + w, m);
      KidsEnd(|kids|, w);
      PowPositive(n, level - 1);
      MulNonNegative(|kids| - 1, w);
      hide Pow, Shaped, Shows, Pruned, KeepsSome;
      KeepsSomeSplit(keep, m, s, s + w, s + |kids| * w);
      AllHolesCons(Pruned(n, keep, level - 1, kids[0], s), PrunedKids(n, keep, level, kids[1..], s + w));
    } else {
      assert |kids| * Pow(n, level - 1) == 0;
    }
  }

  lemma KeepsSomeSplit(keep: int, m: Mapping, s: int, mid: int, e: int)
    requires s <= mid <= e
    ensures KeepsSome(keep, m, s, e) <==> KeepsSome(keep, m, s, mid) || KeepsSome(keep, m, mid, e)
  {
  }

  lemma AllHolesCons(t: Tree, rest: seq<Tree>)
    ensures AllHoles([t] + rest) <==> t == Hole && AllHoles(rest)
  {
    if AllHoles([t] + rest) {
      assert ([t] + rest)[0] == t;
      assert forall i :: 0 <= i < |rest| ==> ([t] + rest)[i + 1] == rest[i];
    }
  }

  /** What the flags leave is what truncation should leave if, and only if, every indirect block is reached. */
  lemma {:induction false} LeftIsPruned(n: nat, keep: int, level: nat, t: Tree, s: int, m: Mapping)
    requires n > 0 && Placed(n, level, s) && Shaped(n, level, t) && Shows(n, level, t, s, m)
    ensures Left(n, keep, level, t, s, m) == Pruned(n, keep, level, t, s) <==> Reached(n, keep, level, t, s, m)
    decreases level, if t.Node? then |t.kids| + 1 else 0
  {
    if t.Node? && level > 0 {
      PrunedKeepsSome(n, keep, level, t, s, m);
      LeftKidsArePruned(n, keep, level, t.kids, s, m, s, 0);
      if Dropped(n, keep, m, s + Pow(n, level), level) {
        CondemnedKids(n, keep, level, t.kids, s, m, level, s);
        PowPositive(n, level);
        DroppedFromStart(n, keep, m, level, s, level, s + 1);
        CondemnedReached(n, keep, level, t.kids, s, m, level, s);
      }
      hide Dropped, Placed, Shaped, Shows, LeftKids, PrunedKids, ReachedKids;
    }
  }

  lemma {:induction false} LeftKidsArePruned(n: nat, keep: int, level: nat, kids: seq<Tree>, s: int, m: Mapping,
                                             s0: int, i: nat)
    requires n > 0 && level > 0 && Placed(n, level, s0) && s == s0 + i * Pow(n, level - 1)
    requires KidsShow(n, level, kids, s, m) && forall j :: 0 <= j < |kids| ==> Shaped(n, level - 1, kids[j])
    ensures LeftKids(n, keep, level, kids, s, m) == PrunedKids(n, keep, level, kids, s) <==>
            ReachedKids(n, keep, level, kids, s, m)
    decreases level, |kids|
  {
    if kids != [] {
      KidPlaced(n, level, s0, i);
      KidsEnd(i + 1, Pow(n, level - 1));
      hide Placed, Pow, Left, Pruned, Reached, Shaped, Shows;
      LeftIsPruned(n, keep, level - 1, kids[0], s, m);
      LeftKidsArePruned(n, keep, level, kids[1..], s + Pow(n, level - 1), m, s0, i + 1);
      ConsEqual(Left(n, keep, level - 1, kids[0], s, m), LeftKids(n, keep, level, kids[1..], s + Pow(n, level - 1), m),
                Pruned(n, keep, level - 1, kids[0], s), PrunedKids(n, keep, level, kids[1..], s + Pow(n, level - 1)));
    }
  }

  lemma ConsEqual(t: Tree, rest: seq<Tree>, t': Tree, rest': seq<Tree>)
    ensures [t] + rest == [t'] + rest' <==> t == t' && rest == rest'
  {
    if [t] + rest == [t'] + rest' {
      assert t == ([t] + rest)[0] == ([t'] + rest')[0];
      assert rest == ([t] + rest)[1..] == ([t'] + rest')[1..];
    }
  }

  lemma {:induction false} CondemnedReached(n: nat, keep: int, level: nat, kids: seq<Tree>, s: int, m: Mapping,
                                            top: nat, s0: int)
    requires n > 0 && 0 < level <= top <= 3 && Aligned(n, top, s0) && s0 <= s
    requires Dropped(n, keep, m, s0 + Pow(n, top), top)
    ensures ReachedKids(n, keep, level, kids, s, m)
    decreases level, |kids|
  {
    if kids != [] {
      hide Dropped, Aligned;
      PowPositive(n, level - 1);
      if level > 1 {
        DroppedFromStart(n, keep, m, top, s0, level - 1, s + Pow(n, level - 1));
        if kids[0].Node? {
          CondemnedReached(n, keep, level - 1, kids[0].kids, s, m, top, s0);
        }
      }
      CondemnedReached(n, keep, level, kids[1..], s + Pow(n, level - 1), m, top, s0);
    }
  }

  /** In particular when every indirect block has its first data block mapped, as in a file without holes. */
  ghost predicate FirstMapped(n: nat, level: nat, t: Tree, s: int, m: Mapping)
    decreases level, if t.Node? then |t.kids| + 1 else 0
  {
    t.Node? && level > 0 ==> m(s) != 0 && KidsFirstMapped(n, level, t.kids, s, m)
  }

  ghost predicate KidsFirstMapped(n: nat, level: nat, kids: seq<Tree>, s: int, m: Mapping)
    requires level > 0
    decreases level, |kids|
  {
    kids != [] ==>
      FirstMapped(n, level - 1, kids[0], s, m) && KidsFirstMapped(n, level, kids[1..], s + Pow(n, level - 1), m)
  }

  lemma {:induction false} FirstMappedReached(n: nat, keep: int, level: nat, t: Tree, s: int, m: Mapping)
    requires n > 0 && Placed(n, level, s) && FirstMapped(n, level, t, s, m)
    ensures Reached(n, keep, level, t, s, m)
    decreases level, if t.Node? then |t.kids| + 1 else 0
  {
    if t.Node? && level > 0 {
      PowPositive(n, level);
      assert Triggers(n, level, s);
      KidsFirstMappedReached(n, keep, level, t.kids, s, m, s, 0);
      if s <= keep {
        assert KeepsSome(keep, m, s, s + Pow(n, level));
      } else {
        assert Dropped(n, keep, m, s + Pow(n, level), level);
      }
    }
  }

  lemma {:induction false} KidsFirstMappedReached(n: nat, keep: int, level: nat, kids: seq<Tree>, s: int, m: Mapping,
                                                  s0: int, i: nat)
    requires n > 0 && level > 0 && Placed(n, level, s0) && s == s0 + i * Pow(n, level - 1)
    requires KidsFirstMapped(n, level, kids, s, m)
    ensures ReachedKids(n, keep, level, kids, s, m)
    decreases level, |kids|
  {
    if kids != [] {
      KidPlaced(n, level, s0, i);
      KidsEnd(i + 1, Pow(n, level - 1));
      hide Placed, Pow, FirstMapped, Reached;
      FirstMappedReached(n, keep, level - 1, kids[0], s, m);
      KidsFirstMappedReached(n, keep, level, kids[1..], s + Pow(n, level - 1), m, s0, i + 1);
    }
  }
}
