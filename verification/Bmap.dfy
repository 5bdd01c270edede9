/**
 ext2fs_bmap with BMAP_ALLOC: finding the disk block of a logical block, and adding it, with the
 indirect blocks on the way to it, when there is none; ext2fs_alloc_block below it.
 */
module Bmap {
  import opened Arith
  import opened BlockIter
  import opened BlockMap
  import opened TruncTree
  import opened Truncate
  import opened BlockPaths
  import opened FreeSpace

  datatype Outcome = Done | NoSpace

  /**
   What an allocation may change: the file's trees, the blocks in use, the free count and whether the
   counters are right.
   */
  datatype Snap = Snap(f: Parts, used: set<nat>, free: int, accounted: bool)

  function PathLength(level: nat): nat {
    if level == 0 then 1 else level
  }

  /** Blocks `added` were free and are now used once each in the file; only what `target` leads to may have changed. */
  ghost predicate Grown(a: Snap, z: Snap, level: nat, target: seq<nat>, added: set<nat>) {
    && FileBlocks(z.f) == FileBlocks(a.f) + multiset(added)
    && z.used == a.used + added && a.used !! added
    && z.free == a.free - |added| && (a.accounted ==> z.accounted)
    && (forall l, q :: l <= 3 && |q| == PathLength(l) && !(l == level && q == target) ==>
        LeafAt(z.f, l, q) == LeafAt(a.f, l, q))
  }

  /** One part of a lookup that went as far as `reach` on the path `target`, from state a to state z. */
  ghost predicate Advanced(a: Snap, z: Snap, level: nat, reach: seq<nat>, target: seq<nat>, alloc: bool, err: Outcome,
                           blk: nat, added: set<nat>) {
    && Grown(a, z, level, target, added)
    && (added == {} ==> z == a)
    && (!alloc || LeafAt(a.f, level, target) != 0 ==> added == {} && err == Done)
    && (err == Done ==> blk == LeafAt(z.f, level, reach) && (alloc ==> blk != 0))
    && (err == NoSpace || |reach| < |target| ==> LeafAt(z.f, level, target) == LeafAt(a.f, level, target))
  }

  lemma GrownTwice(a: Snap, b: Snap, c: Snap, level: nat, target: seq<nat>, s1: set<nat>, s2: set<nat>)
    requires Grown(a, b, level, target, s1) && Grown(b, c, level, target, s2)
    ensures Grown(a, c, level, target, s1 + s2)
  {
    assert s1 !! s2;
    assert multiset(s1 + s2) == multiset(s1) + multiset(s2);
    assert |s1 + s2| == |s1| + |s2|;
    hide FileBlocks, LeafAt;
    assert FileBlocks(c.f) == FileBlocks(a.f) + (multiset(s1) + multiset(s2));
    forall l, q | l <= 3 && |q| == PathLength(l) && !(l == level && q == target)
      ensures LeafAt(c.f, l, q) == LeafAt(a.f, l, q)
    {
      assert LeafAt(b.f, l, q) == LeafAt(a.f, l, q);
    }
  }

  lemma AdvancedTwice(a: Snap, b: Snap, c: Snap, level: nat, r1: seq<nat>, r2: seq<nat>, target: seq<nat>, alloc: bool,
                      err: Outcome, blk1: nat, blk2: nat, s1: set<nat>, s2: set<nat>)
    requires Advanced(a, b, level, r1, target, alloc, Done, blk1, s1) && |r1| < |target|
    requires Advanced(b, c, level, r2, target, alloc, err, blk2, s2)
    ensures Advanced(a, c, level, r2, target, alloc, err, blk2, s1 + s2)
  {
    GrownTwice(a, b, c, level, target, s1, s2);
    hide Grown, LeafAt;
  }

  lemma DisjointSteps(a: Snap, b: Snap, c: Snap, level: nat, r1: seq<nat>, r2: seq<nat>, target: seq<nat>, alloc: bool,
                      err: Outcome, blk1: nat, blk2: nat, s1: set<nat>, s2: set<nat>)
    requires Advanced(a, b, level, r1, target, alloc, Done, blk1, s1)
    requires Advanced(b, c, level, r2, target, alloc, err, blk2, s2)
    ensures |s1 + s2| == |s1| + |s2|
  {
    hide FileBlocks, LeafAt;
    assert s1 !! s2;
  }

  lemma AdvancedFailed(a: Snap, z: Snap, level: nat, r1: seq<nat>, r2: seq<nat>, target: seq<nat>, alloc: bool,
                       blk1: nat, blk2: nat, s: set<nat>)
    requires Advanced(a, z, level, r1, target, alloc, NoSpace, blk1, s)
    ensures Advanced(a, z, level, r2, target, alloc, NoSpace, blk2, s)
  {
    hide Grown, LeafAt;
  }

  lemma GrownNothing(a: Snap, level: nat, target: seq<nat>)
    ensures Grown(a, a, level, target, {})
  {
    hide LeafAt, FileBlocks;
  }

  /** A block `b` taken and put into the hole at `reach` on the way to `target`. */
  lemma GrownByOne(n: nat, a: Snap, z: Snap, level: nat, reach: seq<nat>, target: seq<nat>, b: nat)
    requires level <= 3 && |target| == PathLength(level) && reach <= target && HoleIn(a.f, level, reach)
    requires z.f == PutFile(a.f, level, reach, Fresh(n, PathLength(level) - |reach|, b))
    requires b !in a.used && z.used == a.used + {b} && z.free == a.free - 1 && (a.accounted ==> z.accounted)
    ensures Grown(a, z, level, target, {b})
    ensures LeafAt(z.f, level, reach) == b && LeafAt(a.f, level, target) == 0
    ensures |reach| < |target| ==> LeafAt(z.f, level, target) == 0
  {
    hide FileBlocks, LeafAt, PutFile, HoleIn, Fresh, Blocks;
    var sub := Fresh(n, PathLength(level) - |reach|, b);
    FileBlocksPut(a.f, level, reach, sub);
    FreshBlocks(n, PathLength(level) - |reach|, b);
    assert multiset({b}) == multiset{b};
    PutLeaf(n, a.f, level, reach, target, b, level, reach);
    PutLeaf(n, a.f, level, reach, target, b, level, target);
    forall l, q | l <= 3 && |q| == PathLength(l) && !(l == level && q == target)
      ensures LeafAt(z.f, l, q) == LeafAt(a.f, l, q)
    {
      PutLeaf(n, a.f, level, reach, target, b, l, q);
    }
  }

  /** What a path leads to after a new block was put at `reach`. */
  lemma PutLeaf(n: nat, f: Parts, level: nat, reach: seq<nat>, target: seq<nat>, b: nat, l: nat, q: seq<nat>)
    requires level <= 3 && |target| == PathLength(level) && reach <= target && HoleIn(f, level, reach)
    requires l <= 3 && (|q| == PathLength(l) || (l == level && q == reach))
    ensures LeafAt(PutFile(f, level, reach, Fresh(n, PathLength(level) - |reach|, b)), l, q) ==
            if l == level && q == reach then b else LeafAt(f, l, q)
    ensures l == level && reach <= q ==> LeafAt(f, l, q) == 0
  {
    var sub := Fresh(n, PathLength(level) - |reach|, b);
    LeafAtPut(f, level, reach, sub, l, q);
    hide LeafAt, PutFile, HoleIn, Leaf, Fresh;
    if l == level && reach <= q {
      if |q| > |reach| {
        FreshLeaves(n, |target| - |reach|, b, q[|reach|..]);
      } else {
        assert q == reach && q[|reach|..] == [];
        FreshRoot(n, PathLength(level) - |reach|, b);
      }
    }
  }

  lemma FreshRoot(n: nat, level: nat, b: nat)
    ensures Leaf(Fresh(n, level, b), []) == b
  {
  }

  lemma FreshLeaves(n: nat, level: nat, b: nat, q: seq<nat>)
    requires level > 0 && |q| == level
    ensures Leaf(Fresh(n, level, b), q) == 0
  {
    if q[0] < n {
      assert Holes(n)[q[0]] == Hole;
    }
  }

  lemma FreshBlocks(n: nat, level: nat, b: nat)
    ensures Blocks(Fresh(n, level, b)) == multiset{b}
  {
    if level > 0 {
      HolesHaveNoBlocks(Holes(n));
    }
  }

  /** Nothing is reached through a block number of zero. */
  lemma {:induction false} NothingBeyond(n: nat, level: nat, t: Tree, path: seq<nat>, more: seq<nat>)
    requires Shaped(n, level, t) && |path| <= level && Leaf(t, path) == 0
    ensures Leaf(t, path + more) == 0
    decreases |path|
  {
    if t.Node? && path != [] && path[0] < |t.kids| {
      assert (path + more)[1..] == path[1..] + more;
      NothingBeyond(n, level - 1, t.kids[path[0]], path[1..], more);
    }
  }

  lemma {:induction false} LeafChild(disk: Disk, n: nat, level: nat, root: nat, path: seq<nat>, i: nat)
    requires |path| < level && i < n
    ensures var t := TreeOf(disk, n, level, root);
            Leaf(t, path) != 0 ==> Leaf(t, path + [i]) == ReadInd(disk, Leaf(t, path), n)[i]
    decreases |path|
  {
    var t := TreeOf(disk, n, level, root);
    if Leaf(t, path) != 0 {
      var buf := ReadInd(disk, root, n);
      if path == [] {
        KidAt(disk, n, level, buf, i);
        assert path + [i] == [i] && [i][1..] == [];
      } else {
        KidAt(disk, n, level, buf, path[0]);
        assert (path + [i])[1..] == path[1..] + [i];
        LeafChild(disk, n, level - 1, buf[path[0]], path[1..], i);
      }
    }
  }

  ghost predicate Owned(f: Parts, used: set<nat>) {
    Unique(FileBlocks(f)) && forall b :: b in FileBlocks(f) ==> b in used
  }

  /** Growing keeps the file free of sharing. */
  lemma GrownOwned(a: Snap, z: Snap, level: nat, target: seq<nat>, added: set<nat>)
    requires Grown(a, z, level, target, added) && Owned(a.f, a.used)
    ensures Owned(z.f, z.used)
  {
    hide FileBlocks, LeafAt;
    forall b
      ensures FileBlocks(z.f)[b] <= 1 && (b in FileBlocks(z.f) ==> b in z.used)
    {
      assert FileBlocks(z.f)[b] == FileBlocks(a.f)[b] + multiset(added)[b];
    }
  }

  /** A new block stored in an indirect block. */
  lemma StoreGrows(n: nat, disk: Disk, disk': Disk, blocks: seq<nat>, level: nat, path: seq<nat>, i: nat, b: nat,
                   a: Snap, z: Snap, target: seq<nat>)
    requires n >= NDIR && |blocks| == NDIR + 3 && 1 <= level <= 3 && |path| < level && |target| == level
    requires path + [i] <= target && i < n
    requires a.f == PartsOf(disk, n, blocks) && Owned(a.f, a.used) && b != 0 && b !in a.used
    requires z == Snap(PartsOf(disk', n, blocks), a.used + {b}, a.free - 1, z.accounted)
    requires (a.accounted ==> z.accounted)
    requires var ind := LeafAt(a.f, level, path);
             && ind != 0 && ReadInd(disk, ind, n)[i] == 0
             && disk' == disk[b := Zeros(n)][ind := ReadInd(disk, ind, n)[i := b]]
    ensures Advanced(a, z, level, path + [i], target, true, Done, b, {b})
  {
    hide FileBlocks, LeafAt, HoleIn, PutFile, Fresh, PartsOf, Stored, ReadInd, Unique, Grown;
    var ind := LeafAt(a.f, level, path);
    LeafAtIsBlock(a.f, level, path);
    assert b !in FileBlocks(a.f) && b != ind;
    assert Stored(disk, disk', n, ind, i, b) by { StoredNow(disk, n, ind, i, b); }
    AttachIn(disk, disk', n, blocks, level, path, i, b);
    GrownByOne(n, a, z, level, path + [i], target, b);
  }

  lemma StoredNow(disk: Disk, n: nat, ind: nat, i: nat, b: nat)
    requires i < n && b != ind
    ensures Stored(disk, disk[b := Zeros(n)][ind := ReadInd(disk, ind, n)[i := b]], n, ind, i, b)
  {
  }

  lemma StillOwned(a: Snap, z: Snap, level: nat, reach: seq<nat>, target: seq<nat>, alloc: bool, err: Outcome, blk: nat,
                   added: set<nat>)
    requires Advanced(a, z, level, reach, target, alloc, err, blk, added) && Owned(a.f, a.used)
    ensures Owned(z.f, z.used)
  {
    GrownOwned(a, z, level, target, added);
  }

  /** One step of a lookup: the number stored in the indirect block reached. */
  lemma Looked(disk: Disk, n: nat, blocks: seq<nat>, level: nat, path: seq<nat>, nr: nat, target: seq<nat>, alloc: bool,
               a: Snap)
    requires n >= NDIR && |blocks| == NDIR + 3 && nr < n && 1 <= level <= 3 && |target| == level
    requires path + [nr] <= target
    requires a.f == PartsOf(disk, n, blocks) && Owned(a.f, a.used)
    ensures var ind := LeafAt(a.f, level, path);
            var blk := if ind == 0 then 0 else ReadInd(disk, ind, n)[nr];
            && LeafAt(a.f, level, path + [nr]) == blk
            && (!alloc || blk != 0 ==> Advanced(a, a, level, path + [nr], target, alloc, Done, blk, {}))
            && (blk == 0 ==> Advanced(a, a, level, path + [nr], target, true, NoSpace, 0, {}))
            && (ind != 0 && nr > 0 ==> ReadInd(disk, ind, n)[nr - 1] == 0 || ReadInd(disk, ind, n)[nr - 1] in a.used)
  {
    hide FileBlocks, Leaf, TreeOf, KidsOf, Grown, ReadInd, Unique, Shaped;
    var root, t := blocks[NDIR + level - 1], TreeAt(a.f, level);
    ShapedTree(disk, n, level, root);
    LeafChild(disk, n, level, root, path, nr);
    if nr > 0 {
      LeafChild(disk, n, level, root, path, nr - 1);
    }
    if LeafAt(a.f, level, path) == 0 {
      NothingBeyond(n, level, t, path, [nr]);
    } else if nr > 0 && LeafAt(a.f, level, path + [nr - 1]) != 0 {
      LeafAtIsBlock(a.f, level, path + [nr - 1]);
    }
    if Leaf(t, path + [nr]) == 0 {
      assert target == path + [nr] + target[|path| + 1..];
      NothingBeyond(n, level, t, path + [nr], target[|path| + 1..]);
    }
    GrownNothing(a, level, target);
  }

  /** A mounted file system and one inode of it. */
  class OpenInode {
    const g: Geometry
    const blockSize: nat
    const space: FreeItems
    var disk: Disk
    var blocks: seq<nat>
    var sectors: int

    constructor (g: Geometry, blockSize: nat, space: FreeItems, disk: Disk, blocks: seq<nat>, sectors: int)
      ensures this.g == g && this.blockSize == blockSize && this.space == space
      ensures this.disk == disk && this.blocks == blocks && this.sectors == sectors
    {
      this.g, this.blockSize, this.space, this.disk, this.blocks, this.sectors := g, blockSize, space, disk,
          blocks, sectors;
    }

    ghost predicate Sized()
      reads this, space
    {
      && g.n >= NDIR && g.n == blockSize / 4 && |blocks| == NDIR + 3
      && space.Valid() && space.bitmap.start == g.first && space.bitmap.end + 1 == g.count
    }

    ghost function File(): Parts
      requires g.n >= NDIR && |blocks| == NDIR + 3
      reads this
    {
      PartsOf(disk, g.n, blocks)
    }

    /** The blocks of the file are marked in use, and each is used once. */
    ghost predicate Valid()
      reads this, space, space.bitmap.bits
    {
      && Sized()
      && Owned(File(), space.bitmap.Members())
      && (g.first > 0 || 0 in space.bitmap.Members())
    }

    ghost function Now(): Snap
      requires Sized()
      reads this, space, space.bitmap.bits
    {
      Snap(File(), space.bitmap.Members(), space.superFree, space.Accounted())
    }

    ghost predicate Full()
      reads space, space.bitmap.bits
    {
      forall k :: space.bitmap.start <= k <= space.bitmap.end ==> k in space.bitmap.Members()
    }

    /** ext2fs_alloc_block: find a free block, write zeros to it, mark it. */
    method AllocBlock(goal: nat) returns (err: Outcome, blk: nat)
      requires Valid() && (goal == 0 || goal in space.bitmap.Members())
      modifies this`disk, space, space.bitmap.bits
      ensures Sized()
      ensures err == NoSpace ==> Full() && Valid() && Now() == old(Now()) && disk == old(disk) && blk == 0
      ensures err == Done ==>
                && blk != 0 && g.first <= blk < g.count
                && blk !in old(space.bitmap.Members()) && space.bitmap.Members() == old(space.bitmap.Members()) + {blk}
                && space.superFree == old(space.superFree) - 1 && (old(space.Accounted()) ==> space.Accounted())
                && disk == old(disk)[blk := Zeros(g.n)]
    {
      hide FreeItems.Accounted;
      assert goal != 0 ==> goal >= space.bitmap.start;
      hide Bitmap.Members;
      var ok;
      ok, blk := space.NewBlock(goal);
      if !ok {
        return NoSpace, 0;
      }
      disk := disk[blk := Zeros(g.n)];
      GroupInRange(space.bitmap.start, space.perGroup, |space.groupFree|, space.bitmap.end, blk);
      space.AllocStats(blk, true);
      err := Done;
    }

    /**
     block_ind_bmap; `path` leads to the indirect block `ind` in the tree of the given level, on the way
     to `target`.
     */
    method IndBmap(alloc: bool, ind: nat, nr: nat, ghost level: nat, ghost path: seq<nat>, ghost target: seq<nat>)
      returns (err: Outcome, blk: nat, count: nat, ghost added: set<nat>)
      requires Valid() && nr < g.n && 1 <= level <= 3 && |target| == level && path + [nr] <= target
      requires ind == LeafAt(File(), level, path) && (alloc ==> ind != 0)
      modifies this`disk, space, space.bitmap.bits
      ensures Valid() && Advanced(old(Now()), Now(), level, path + [nr], target, alloc, err, blk, added)
      ensures count == |added| <= 1
      ensures err == NoSpace ==> Full()
    {
      hide Unique, FileBlocks, LeafAt, FreeItems.Accounted, Bitmap.Members, PartsOf, ReadInd, Advanced, Owned;
      blk, count, added, err := 0, 0, {}, Done;
      ghost var before := Now();
      Looked(disk, g.n, blocks, level, path, nr, target, alloc, before);
      if ind == 0 {
        return;
      }
      var buf := ReadInd(disk, ind, g.n);
      blk := buf[nr];
      if blk == 0 && alloc {
        var goal := if nr > 0 then buf[nr - 1] else 0;
        err, blk := AllocBlock(goal);
        if err == NoSpace {
          return;
        }
        disk := disk[ind := buf[nr := blk]];
        count, added := 1, {blk};
        StoreGrows(g.n, old(disk), disk, blocks, level, path, nr, blk, before, Now(), target);
        StillOwned(before, Now(), level, path + [nr], target, alloc, err, blk, added);
      }
    }

    /** The number at position `at` of the inode, or a new block put there. */
    method InodeBlock(alloc: bool, at: nat, ghost level: nat, ghost target: seq<nat>)
      returns (err: Outcome, blk: nat, count: nat, ghost added: set<nat>)
      requires Valid() && level <= 3 && |target| == PathLength(level)
      requires if level == 0 then at < NDIR && target == [at] else at == NDIR + level - 1
      modifies this`disk, this`blocks, space, space.bitmap.bits
      ensures Valid() && count == |added| <= 1
      ensures Advanced(old(Now()), Now(), level, if level == 0 then target else [], target, alloc, err, blk, added)
      ensures err == NoSpace ==> Full()
    {
      hide Unique, FileBlocks, LeafAt, FreeItems.Accounted, Bitmap.Members, PartsOf, Advanced, Owned;
      ghost var before := Now();
      InodeLooked(disk, g.n, blocks, level, at, target, alloc, before);
      err, blk, count, added := Done, blocks[at], 0, {};
      if blk == 0 && alloc {
        if at > 0 {
          InodeBlockUsed(disk, g.n, blocks, at - 1, space.bitmap.Members());
        }
        err, blk := AllocBlock(if at > 0 then blocks[at - 1] else 0);
        if err == NoSpace {
          return;
        }
        InodeGrows(g.n, old(disk), blocks, level, at, blk, before,
                   Snap(PartsOf(disk, g.n, blocks[at := blk]), space.bitmap.Members(), space.superFree,
                       space.Accounted()), target);
        blocks := blocks[at := blk];
        count, added := 1, {blk};
      }
    }

    /** block_dind_bmap on the double indirect block `dind`, root of the tree of level 2 or first of level 3. */
    method DindBmap(alloc: bool, dind: nat, nr: nat, ghost level: nat, ghost target: seq<nat>)
      returns (err: Outcome, blk: nat, count: nat, ghost added: set<nat>)
      requires Valid() && nr < Pow(g.n, 2) && 2 <= level <= 3 && |target| == level && Split2(g.n, nr) <= target
      requires dind == LeafAt(File(), level, []) && (alloc ==> dind != 0)
      modifies this`disk, space, space.bitmap.bits
      ensures Valid() && Advanced(old(Now()), Now(), level, Split2(g.n, nr), target, alloc, err, blk, added)
      ensures count == |added| <= 2
      ensures err == NoSpace ==> Full()
    {
      hide FileBlocks, LeafAt, FreeItems.Accounted, Bitmap.Members, PartsOf, Owned, Grown;
      ghost var before := Now();
      SplitBounds(g.n, nr, 2);
      hide Pow;
      ghost var r1, r2 := [nr / g.n], Split2(g.n, nr);
      assert [] + [nr / g.n] == r1 && r1 + [nr % g.n] == r2;
      assert r1 <= target by { assert r1 == target[..1]; }
      var b, c;
      err, b, c, added := IndBmap(alloc, dind, nr / g.n, level, [], target);
      blk, count := b, c;
      if err == NoSpace {
        AdvancedFailed(before, Now(), level, r1, r2, target, alloc, b, blk, added);
        return;
      }
      ghost var mid, first := Now(), added;
      ghost var second;
      assert b == LeafAt(File(), level, r1) && (alloc ==> b != 0);
      hide Advanced;
      err, blk, c, second := IndBmap(alloc, b, nr % g.n, level, r1, target);
      AdvancedTwice(before, mid, Now(), level, r1, r2, target, alloc, err, b, blk, first, second);
      DisjointSteps(before, mid, Now(), level, r1, r2, target, alloc, err, b, blk, first, second);
      count, added := count + c, first + second;
    }

    /** block_tind_bmap */
    method TindBmap(alloc: bool, tind: nat, nr: nat) returns (err: Outcome, blk: nat, count: nat, ghost added: set<nat>)
      requires Valid() && nr < Pow(g.n, 3)
      requires tind == LeafAt(File(), 3, []) && (alloc ==> tind != 0)
      modifies this`disk, space, space.bitmap.bits
      ensures Valid() && Advanced(old(Now()), Now(), 3, Split3(g.n, nr), Split3(g.n, nr), alloc, err, blk, added)
      ensures count == |added| <= 3
      ensures err == NoSpace ==> Full()
    {
      hide FileBlocks, LeafAt, FreeItems.Accounted, Bitmap.Members, PartsOf, Owned, Grown;
      ghost var before, target := Now(), Split3(g.n, nr);
      SplitBounds(g.n, nr, 3);
      hide Pow;
      ghost var r1 := Split2(g.n, nr / g.n);
      assert r1 == target[..2] && r1 + [nr % g.n] == target;
      var b, c;
      err, b, c, added := DindBmap(alloc, tind, nr / g.n, 3, target);
      blk, count := b, c;
      if err == NoSpace {
        AdvancedFailed(before, Now(), 3, r1, target, target, alloc, b, blk, added);
        return;
      }
      ghost var mid, first := Now(), added;
      ghost var second;
      assert b == LeafAt(File(), 3, r1) && (alloc ==> b != 0);
      hide Advanced;
      err, blk, c, second := IndBmap(alloc, b, nr % g.n, 3, r1, target);
      AdvancedTwice(before, mid, Now(), 3, r1, target, target, alloc, err, b, blk, first, second);
      DisjointSteps(before, mid, Now(), 3, r1, target, target, alloc, err, b, blk, first, second);
      count, added := count + c, first + second;
    }

    /** ext2fs_bmap, to look a block up or, with BMAP_ALLOC, to add it. */
    method Bmap(alloc: bool, block: nat) returns (err: Outcome, phys: nat, ghost added: set<nat>)
      requires Valid() && block < MaxBlocks(g.n)
      modifies this, space, space.bitmap.bits
      ensures Valid()
      ensures err == Done ==> FileBlock(disk, g.n, blocks, block) == phys && (alloc ==> phys != 0)
      ensures err == NoSpace ==> Full()
      ensures forall k :: 0 <= k < MaxBlocks(g.n) && (k != block || err == NoSpace || !alloc) ==>
                FileBlock(disk, g.n, blocks, k) == old(FileBlock(disk, g.n, blocks, k))
      ensures old(FileBlock(disk, g.n, blocks, block)) != 0 || !alloc ==> added == {} && err == Done
      ensures space.bitmap.Members() == old(space.bitmap.Members()) + added && added !! old(space.bitmap.Members())
      ensures FileBlocks(File()) == old(FileBlocks(File())) + multiset(added)
      ensures |added| <= 1 + PlaceOf(g.n, block).level
      ensures space.superFree == old(space.superFree) - |added| && (old(space.Accounted()) ==> space.Accounted())
      ensures sectors == old(sectors) + if err == Done then Sectors(|added|, blockSize) else 0
    {
      hide FileBlocks, LeafAt, FreeItems.Accounted, Bitmap.Members, PartsOf, Owned, FileBlock, MaxBlocks, Sectors,
           PlaceOf, Advanced;
      var count;
      err, phys, count, added := BmapPlace(alloc, block);
      ghost var place := PlaceOf(g.n, block);
      AdvancedFacts(old(Now()), Now(), place.level, place.path, place.path, alloc, err, phys, added);
      MappingAfterAll(g.n, old(disk), old(blocks), disk, blocks, block, alloc, err, phys, added, old(Now()), Now());
      NoSectors(blockSize);
      if err == Done && count > 0 {
        sectors := sectors + Sectors(count, blockSize);
      }
    }

    /** The four cases of ext2fs_bmap. */
    method BmapPlace(alloc: bool, block: nat) returns (err: Outcome, phys: nat, count: nat, ghost added: set<nat>)
      requires Valid() && block < MaxBlocks(g.n)
      modifies this`disk, this`blocks, space, space.bitmap.bits
      ensures Valid() && count == |added| <= 1 + PlaceOf(g.n, block).level
      ensures var place := PlaceOf(g.n, block);
              Advanced(old(Now()), Now(), place.level, place.path, place.path, alloc, err, phys, added)
      ensures err == NoSpace ==> Full()
    {
      hide FileBlocks, LeafAt, FreeItems.Accounted, Bitmap.Members, PartsOf, Owned, Grown, PlaceOf, MaxBlocks,
           Advanced, Pow, Digits, OpenInode.Full, FreeItems.Valid;
      PlaceSplit(g.n, block);
      if block < NDIR {
        err, phys, count, added := InodeBlock(alloc, block, 0, [block]);
        return;
      }
      var level, nr := 1, block - NDIR;
      if nr >= g.n {
        level, nr := 2, nr - g.n;
        if nr >= Pow(g.n, 2) {
          level, nr := 3, nr - Pow(g.n, 2);
        }
      }
      err, phys, count, added := TreeBmap(alloc, level, nr);
    }

    method LevelBmap(alloc: bool, level: nat, root: nat, nr: nat, ghost target: seq<nat>)
      returns (err: Outcome, phys: nat, count: nat, ghost added: set<nat>)
      requires Valid() && 1 <= level <= 3 && nr < Pow(g.n, level) && (level == 1 ==> nr < g.n)
      requires target == if level == 1 then [nr] else if level == 2 then Split2(g.n, nr) else Split3(g.n, nr)
      requires root == LeafAt(File(), level, []) && (alloc ==> root != 0)
      modifies this`disk, space, space.bitmap.bits
      ensures Valid() && Advanced(old(Now()), Now(), level, target, target, alloc, err, phys, added)
      ensures count == |added| <= level
      ensures err == NoSpace ==> Full()
    {
      hide FileBlocks, LeafAt, FreeItems.Accounted, Bitmap.Members, PartsOf, Owned, Grown, Pow, Split2, Split3,
          Advanced;
      assert [] + [nr] == [nr];
      if level == 1 {
        err, phys, count, added := IndBmap(alloc, root, nr, 1, [], target);
      } else if level == 2 {
        err, phys, count, added := DindBmap(alloc, root, nr, 2, target);
      } else {
        err, phys, count, added := TindBmap(alloc, root, nr);
      }
    }

    /** The part of ext2fs_bmap for the tree of one level: its root, then the way down. */
    method TreeBmap(alloc: bool, level: nat, nr: nat)
      returns (err: Outcome, phys: nat, count: nat, ghost added: set<nat>)
      requires Valid() && 1 <= level <= 3 && nr < Pow(g.n, level)
      modifies this`disk, this`blocks, space, space.bitmap.bits
      ensures Valid() && count == |added| <= 1 + level
      ensures var path := Digits(g.n, level, nr);
              Advanced(old(Now()), Now(), level, path, path, alloc, err, phys, added)
      ensures err == NoSpace ==> Full()
    {
      hide FileBlocks, LeafAt, FreeItems.Accounted, Bitmap.Members, PartsOf, Owned, Grown, Pow, Digits, Split2,
           Split3, Advanced, OpenInode.Full, FreeItems.Valid;
      ghost var before, target := Now(), Digits(g.n, level, nr);
      DigitsSplit(g.n, level, nr);
      var root, c;
      err, root, count, added := InodeBlock(alloc, NDIR + level - 1, level, target);
      phys := root;
      if err == NoSpace {
        AdvancedFailed(before, Now(), level, [], target, target, alloc, root, phys, added);
        return;
      }
      ghost var mid, first := Now(), added;
      ghost var second;
      WentTo(before, mid, level, [], target, alloc, root, first);
      err, phys, c, second := LevelBmap(alloc, level, root, nr, target);
      AdvancedTwice(before, mid, Now(), level, [], target, target, alloc, err, root, phys, first, second);
      DisjointSteps(before, mid, Now(), level, [], target, target, alloc, err, root, phys, first, second);
      count, added := count + c, first + second;
    }
  }

  lemma WentTo(a: Snap, z: Snap, level: nat, reach: seq<nat>, target: seq<nat>, alloc: bool, blk: nat, added: set<nat>)
    requires Advanced(a, z, level, reach, target, alloc, Done, blk, added)
    ensures blk == LeafAt(z.f, level, reach) && (alloc ==> blk != 0)
  {
  }

  lemma DigitsSplit(n: nat, level: nat, nr: nat)
    requires n > 0 && 1 <= level <= 3 && nr < Pow(n, level)
    ensures Digits(n, level, nr) == if level == 1 then [nr] else if level == 2 then Split2(n, nr) else Split3(n, nr)
    ensures level == 1 ==> nr < n
  {
    SmallPows(n);
    DigitsOne(n, nr);
    DigitsTwo(n, nr);
    DigitsThree(n, nr);
    hide Digits, Pow;
  }

  lemma AdvancedFacts(a: Snap, z: Snap, level: nat, reach: seq<nat>, target: seq<nat>, alloc: bool, err: Outcome,
                      blk: nat, added: set<nat>)
    requires Advanced(a, z, level, reach, target, alloc, err, blk, added)
    ensures FileBlocks(z.f) == FileBlocks(a.f) + multiset(added) && z.used == a.used + added && a.used !! added
    ensures z.free == a.free - |added| && (a.accounted ==> z.accounted)
  {
  }

  lemma MappingAfterAll(n: nat, disk: Disk, blocks: seq<nat>, disk': Disk, blocks': seq<nat>, j: nat, alloc: bool,
                        err: Outcome, blk: nat, added: set<nat>, a: Snap, z: Snap)
    requires n >= NDIR && |blocks| == NDIR + 3 == |blocks'| && j < MaxBlocks(n)
    requires a.f == PartsOf(disk, n, blocks) && z.f == PartsOf(disk', n, blocks')
    requires Advanced(a, z, PlaceOf(n, j).level, PlaceOf(n, j).path, PlaceOf(n, j).path, alloc, err, blk, added)
    ensures forall k :: 0 <= k < MaxBlocks(n) && (k != j || err == NoSpace || !alloc) ==>
              FileBlock(disk', n, blocks', k) == FileBlock(disk, n, blocks, k)
    ensures err == Done ==> FileBlock(disk', n, blocks', j) == blk && (alloc ==> blk != 0)
    ensures FileBlock(disk, n, blocks, j) != 0 || !alloc ==> added == {} && err == Done
  {
    hide PartsOf, FileBlock, MaxBlocks, PlaceOf, Advanced;
    MappingAfter(n, disk, blocks, disk', blocks', j, j, alloc, err, blk, added, a, z);
    forall k | 0 <= k < MaxBlocks(n) && (k != j || err == NoSpace || !alloc)
      ensures FileBlock(disk', n, blocks', k) == FileBlock(disk, n, blocks, k)
    {
      MappingAfter(n, disk, blocks, disk', blocks', j, k, alloc, err, blk, added, a, z);
    }
  }

  lemma NoSectors(blockSize: nat)
    ensures Sectors(0, blockSize) == 0
  {
  }

  /** A new block in the inode itself: a direct block, or the root of a tree. */
  lemma InodeGrows(n: nat, disk: Disk, blocks: seq<nat>, level: nat, at: nat, b: nat, a: Snap, z: Snap,
      target: seq<nat>)
    requires n >= NDIR && |blocks| == NDIR + 3 && level <= 3 && |target| == PathLength(level)
    requires (if level == 0 then at < NDIR && target == [at] else at == NDIR + level - 1) && blocks[at] == 0
    requires a.f == PartsOf(disk, n, blocks) && Owned(a.f, a.used) && b != 0 && b !in a.used
    requires z == Snap(PartsOf(disk[b := Zeros(n)], n, blocks[at := b]), a.used + {b}, a.free - 1, z.accounted)
    requires (a.accounted ==> z.accounted)
    ensures Advanced(a, z, level, if level == 0 then target else [], target, true, Done, b, {b})
    ensures Owned(z.f, z.used)
  {
    var reach := if level == 0 then target else [];
    assert b !in FileBlocks(a.f);
    assert Zeroed(disk, disk[b := Zeros(n)], n, b);
    hide FileBlocks, LeafAt, HoleIn, PutFile, Fresh, PartsOf, Zeroed, ReadInd, Owned;
    if level == 0 {
      AttachDirect(disk, disk[b := Zeros(n)], n, blocks, at, b);
    } else {
      AttachRoot(disk, disk[b := Zeros(n)], n, blocks, level, b);
    }
    GrownByOne(n, a, z, level, reach, target, b);
    GrownOwned(a, z, level, target, {b});
    hide Grown;
  }

  /** A block number in the inode itself. */
  lemma InodeLooked(disk: Disk, n: nat, blocks: seq<nat>, level: nat, at: nat, target: seq<nat>, alloc: bool, a: Snap)
    requires n >= NDIR && |blocks| == NDIR + 3 && level <= 3 && |target| == PathLength(level)
    requires if level == 0 then at < NDIR && target == [at] else at == NDIR + level - 1
    requires a.f == PartsOf(disk, n, blocks) && Owned(a.f, a.used)
    ensures var reach := if level == 0 then target else [];
            && LeafAt(a.f, level, reach) == blocks[at]
            && (!alloc || blocks[at] != 0 ==> Advanced(a, a, level, reach, target, alloc, Done, blocks[at], {}))
            && (blocks[at] == 0 ==> Advanced(a, a, level, reach, target, true, NoSpace, 0, {}))
            && (blocks[at] != 0 ==> blocks[at] in a.used)
  {
    hide FileBlocks, KidsOf, Grown, ReadInd, Unique, LeafAt, PartsOf, TreeOf;
    var reach := if level == 0 then target else [];
    InodeLeaf(disk, n, blocks, level, at, reach, target);
    if LeafAt(a.f, level, reach) != 0 {
      LeafAtIsBlock(a.f, level, reach);
    }
    GrownNothing(a, level, target);
  }

  lemma InodeLeaf(disk: Disk, n: nat, blocks: seq<nat>, level: nat, at: nat, reach: seq<nat>, target: seq<nat>)
    requires n >= NDIR && |blocks| == NDIR + 3 && level <= 3
    requires if level == 0 then at < NDIR && reach == [at] == target else at == NDIR + level - 1 && reach == []
    ensures LeafAt(PartsOf(disk, n, blocks), level, reach) == blocks[at]
    ensures blocks[at] == 0 ==> LeafAt(PartsOf(disk, n, blocks), level, target) == 0
  {
    if level == 0 {
      KidAt(disk, n, 1, blocks[..NDIR], at);
      assert blocks[..NDIR][at] == blocks[at];
    }
    hide KidsOf, ReadInd;
  }

  /** The two ends of the inode's list of blocks as goals: what is there is in use. */
  lemma InodeBlockUsed(disk: Disk, n: nat, blocks: seq<nat>, at: nat, used: set<nat>)
    requires n >= NDIR && |blocks| == NDIR + 3 && at < NDIR + 3 && Owned(PartsOf(disk, n, blocks), used)
    ensures blocks[at] == 0 || blocks[at] in used
  {
    var a := Snap(PartsOf(disk, n, blocks), used, 0, false);
    var level := if at < NDIR then 0 else at - NDIR + 1;
    InodeLooked(disk, n, blocks, level, at, if level == 0 then [at] else Zeros(level), false, a);
  }

  lemma PlaceSplit(n: nat, j: nat)
    requires n > 0 && j < MaxBlocks(n)
    ensures PlaceOf(n, j) ==
            if j < NDIR then Place(0, [j]) else if j < NDIR + n then Place(1, Digits(n, 1, j - NDIR))
            else if j < NDIR + n + Pow(n, 2) then Place(2, Digits(n, 2, j - NDIR - n))
            else Place(3, Digits(n, 3, j - NDIR - n - Pow(n, 2)))
    ensures Pow(n, 1) == n && j - NDIR - n - Pow(n, 2) < Pow(n, 3)
  {
    RootStarts(n);
    SmallPows(n);
    hide Pow, RootStart, Digits;
  }

  /** What an allocation does to the mapping of the file: nothing, but for the block asked for. */
  lemma MappingAfter(n: nat, disk: Disk, blocks: seq<nat>, disk': Disk, blocks': seq<nat>, j: nat, k: nat, alloc: bool,
                     err: Outcome, blk: nat, added: set<nat>, a: Snap, z: Snap)
    requires n >= NDIR && |blocks| == NDIR + 3 == |blocks'| && j < MaxBlocks(n) && k < MaxBlocks(n)
    requires a.f == PartsOf(disk, n, blocks) && z.f == PartsOf(disk', n, blocks')
    requires Advanced(a, z, PlaceOf(n, j).level, PlaceOf(n, j).path, PlaceOf(n, j).path, alloc, err, blk, added)
    ensures k != j || err == NoSpace || !alloc ==> FileBlock(disk', n, blocks', k) == FileBlock(disk, n, blocks, k)
    ensures err == Done ==> FileBlock(disk', n, blocks', j) == blk && (alloc ==> blk != 0)
    ensures FileBlock(disk, n, blocks, j) != 0 || !alloc ==> added == {} && err == Done
  {
    FileBlockIsLeaf(disk, n, blocks, k);
    FileBlockIsLeaf(disk', n, blocks', k);
    FileBlockIsLeaf(disk, n, blocks, j);
    FileBlockIsLeaf(disk', n, blocks', j);
    assert forall i :: 0 <= i < MaxBlocks(n) ==> |PlaceOf(n, i).path| == PathLength(PlaceOf(n, i).level);
    hide FileBlock, PartsOf, LeafAt, MaxBlocks, PlaceOf;
    if k != j && PlaceOf(n, k) == PlaceOf(n, j) {
      PlaceInjective(n, j, k);
    }
  }

  /** The positions block_dind_bmap and block_tind_bmap divide a block number into. */
  function Split2(n: nat, nr: nat): (r: seq<nat>)
    requires n > 0
    ensures |r| == 2
  {
    [nr / n, nr % n]
  }

  function Split3(n: nat, nr: nat): (r: seq<nat>)
    requires n > 0
    ensures |r| == 3
  {
    [nr / n / n, nr / n % n, nr % n]
  }

  lemma SplitBounds(n: nat, nr: nat, k: nat)
    requires n > 0 && k > 0 && nr < Pow(n, k)
    ensures nr / n < Pow(n, k - 1) && nr % n < n && Pow(n, 1) == n
  {
    assert Pow(n, 1) == n * Pow(n, 0) && Pow(n, 0) == 1;
    var top := Pow(n, k - 1);
    assert Pow(n, k) == n * top;
    hide Pow;
    if nr / n >= top {
      MulMonotone(top, nr / n, n);
    }
  }

  lemma TwoPlaces(s: seq<nat>, i: nat, j: nat)
    requires i < j < |s|
    ensures s[i] == s[j] ==> multiset(s)[s[i]] >= 2
  {
    assert s == s[..j] + s[j..] && s[..j][i] == s[i] && s[j..][0] == s[j];
    assert s[i] in multiset(s[..j]) && s[j] in multiset(s[j..]);
    assert multiset(s) == multiset(s[..j]) + multiset(s[j..]);
  }

  /** The blocks a truncation gives back are in use and distinct, so giving them back keeps the counters
      right; and the shortened file still owns its blocks. */
  lemma TruncationFreesOwned(f: Parts, f': Parts, freed: seq<nat>, used: set<nat>)
    requires Owned(f, used) && multiset(freed) + FileBlocks(f') == FileBlocks(f)
    ensures forall i :: 0 <= i < |freed| ==> freed[i] in used
    ensures forall i, j :: 0 <= i < j < |freed| ==> freed[i] != freed[j]
    ensures Owned(f', used - (set i | i in freed))
  {
    hide FileBlocks;
    forall b
      ensures multiset(freed)[b] + FileBlocks(f')[b] == FileBlocks(f)[b] <= 1
    {
      assert (multiset(freed) + FileBlocks(f'))[b] == FileBlocks(f)[b];
    }
    forall i | 0 <= i < |freed|
      ensures freed[i] in used
    {
      assert freed[i] in multiset(freed);
    }
    forall i, j | 0 <= i < j < |freed|
      ensures freed[i] != freed[j]
    {
      TwoPlaces(freed, i, j);
    }
    forall b | b in FileBlocks(f')
      ensures b in used && b !in freed
    {
      assert b in FileBlocks(f);
      assert b in freed ==> b in multiset(freed);
    }
  }
}
