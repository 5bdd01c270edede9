/**
 The data blocks of a file whose blocks are used once: no two logical blocks share one, and none is
 an indirect block, so that writing one changes that logical block only.
 */
module DataBlocks {
  import opened BlockIter
  import opened BlockMap
  import opened TruncTree
  import opened Truncate
  import opened BlockPaths

  /** Two paths of one length never lead to the same block. */
  lemma {:induction false} LeavesApart(t: Tree, p: seq<nat>, q: seq<nat>)
    requires Unique(Blocks(t)) && |p| == |q| && Leaf(t, p) == Leaf(t, q) != 0
    ensures p == q
    decreases |p|
  {
    hide Blocks, KidsBlocks, Unique, Leaf;
    if p != [] {
      var b := Leaf(t, p);
      LeafBelow(t, p);
      LeafBelow(t, q);
      LeafNode(t, p);
      if p[0] != q[0] {
        NotInOther(t, p[0], q[0], b);
      } else {
        KidUnique(t, p[0]);
        LeavesApart(t.kids[p[0]], p[1..], q[1..]);
        assert p == [p[0]] + p[1..] && q == [q[0]] + q[1..];
      }
    }
  }

  lemma LeafNode(t: Tree, p: seq<nat>)
    requires Leaf(t, p) != 0
    ensures t.Node?
  {
  }

  lemma {:induction false} KidsIndsIn(level: nat, kids: seq<Tree>, x: nat) returns (j: nat)
    requires level > 0 && x in KidsInds(level, kids)
    ensures j < |kids| && x in Inds(level - 1, kids[j])
    decreases |kids|
  {
    if x in Inds(level - 1, kids[0]) {
      j := 0;
    } else {
      j := KidsIndsIn(level, kids[1..], x);
      j := j + 1;
    }
  }

  /** The block a path of full length leads to is no indirect block. */
  lemma {:induction false} DataNotIndirect(level: nat, t: Tree, p: seq<nat>)
    requires Unique(Blocks(t)) && |p| == level && Leaf(t, p) != 0
    ensures Leaf(t, p) !in Inds(level, t)
    decreases level
  {
    hide Blocks, KidsBlocks, Unique, Leaf, Inds, KidsInds;
    var b := Leaf(t, p);
    LeafNode(t, p);
    IndsOf(level, t);
    if level > 0 && b in Inds(level, t) {
      LeafBelow(t, p);
      KidUnique(t, p[0]);
      if b == t.blk {
        InKids(t, p[0], b);
      } else {
        var j := KidsIndsIn(level, t.kids, b);
        IndsAreBlocks(level - 1, t.kids[j]);
        if j != p[0] {
          NotInOther(t, p[0], j, b);
        } else {
          DataNotIndirect(level - 1, t.kids[j], p[1..]);
        }
      }
    }
  }

  lemma IndsOf(level: nat, t: Tree)
    requires t.Node?
    ensures Inds(level, t) == if level == 0 then {} else {t.blk} + KidsInds(level, t.kids)
  {
  }

  // ---------- in the whole file ----------

  predicate FullLength(level: nat, path: seq<nat>) {
    level <= 3 && |path| == if level == 0 then 1 else level
  }

  lemma DirectApart(f: Parts, p: seq<nat>, q: seq<nat>)
    requires Unique(FileBlocks(f)) && |p| == 1 && |q| == 1 && LeafAt(f, 0, p) == LeafAt(f, 0, q) != 0
    ensures p == q
  {
    hide Blocks, KidsBlocks, Leaf;
    var b := LeafAt(f, 0, p);
    LeafIsBlock(f.direct[p[0]], p[1..]);
    LeafIsBlock(f.direct[q[0]], q[1..]);
    KidBlocks(f.direct, p[0]);
    assert p == [p[0]] && q == [q[0]];
    assert KidsBlocks(f.direct)[b] <= FileBlocks(f)[b] <= 1;
    if p[0] != q[0] {
      assert false;
    }
  }

  lemma DirectInFile(f: Parts, p: seq<nat>)
    requires LeafAt(f, 0, p) != 0
    ensures LeafAt(f, 0, p) in KidsBlocks(f.direct)
  {
    hide Blocks, KidsBlocks, Leaf;
    LeafIsBlock(f.direct[p[0]], p[1..]);
    KidsInFile(f.direct, p[0], LeafAt(f, 0, p));
  }

  /** A block of the file is reached by one path only. */
  lemma PathsApart(f: Parts, l: nat, p: seq<nat>, m: nat, q: seq<nat>)
    requires Unique(FileBlocks(f)) && FullLength(l, p) && FullLength(m, q) && LeafAt(f, l, p) == LeafAt(f, m, q) != 0
    ensures l == m && p == q
  {
    hide FileBlocks, Blocks, KidsBlocks, Unique, Leaf;
    var b := LeafAt(f, l, p);
    if l == 0 && m == 0 {
      DirectApart(f, p, q);
    } else {
      if l > 0 { LeafIsBlock(TreeAt(f, l), p); } else { DirectInFile(f, p); }
      if m > 0 { LeafIsBlock(TreeAt(f, m), q); } else { DirectInFile(f, q); }
      FileUnique(f, if l > 0 then l else m, b);
      LeavesApart(TreeAt(f, l), p, q);
    }
  }

  /** Two logical blocks never share a disk block. */
  lemma MappedApart(disk: Disk, n: nat, blocks: seq<nat>, j: nat, k: nat)
    requires n >= NDIR && |blocks| == NDIR + 3 && j < MaxBlocks(n) && k < MaxBlocks(n)
    requires Unique(FileBlocks(PartsOf(disk, n, blocks)))
    requires FileBlock(disk, n, blocks, j) == FileBlock(disk, n, blocks, k) != 0
    ensures j == k
  {
    hide FileBlocks, PartsOf, FileBlock, MaxBlocks, LeafAt, Unique;
    FileBlockIsLeaf(disk, n, blocks, j);
    FileBlockIsLeaf(disk, n, blocks, k);
    PlaceLength(n, j);
    PlaceLength(n, k);
    PathsApart(PartsOf(disk, n, blocks), PlaceOf(n, j).level, PlaceOf(n, j).path, PlaceOf(n, k).level,
        PlaceOf(n, k).path);
    PlaceInjective(n, j, k);
  }

  lemma PlaceLength(n: nat, j: nat)
    requires n > 0
    ensures FullLength(PlaceOf(n, j).level, PlaceOf(n, j).path)
  {
  }

  lemma LeafNotIndirect(f: Parts, level: nat, path: seq<nat>, l: nat)
    requires Unique(FileBlocks(f)) && FullLength(level, path) && LeafAt(f, level, path) != 0 && 1 <= l <= 3
    ensures LeafAt(f, level, path) !in Inds(l, TreeAt(f, l))
  {
    hide FileBlocks, Blocks, KidsBlocks, Unique, Leaf, Inds;
    var b := LeafAt(f, level, path);
    IndsAreBlocks(l, TreeAt(f, l));
    if b in Inds(l, TreeAt(f, l)) {
      FileUnique(f, l, b);
      if level == 0 {
        DirectInFile(f, path);
      } else {
        LeafIsBlock(TreeAt(f, level), path);
        DataNotIndirect(level, TreeAt(f, level), path);
      }
    }
  }

  /** Writing a data block changes nothing in the tree that maps it. */
  lemma DataWriteKeeps(disk: Disk, disk': Disk, n: nat, blocks: seq<nat>, j: nat)
    requires n >= NDIR && |blocks| == NDIR + 3 && j < MaxBlocks(n) && Unique(FileBlocks(PartsOf(disk, n, blocks)))
    requires FileBlock(disk, n, blocks, j) != 0 && SameOutside(disk, disk', n, {FileBlock(disk, n, blocks, j)})
    ensures PartsOf(disk', n, blocks) == PartsOf(disk, n, blocks)
  {
    hide FileBlocks, FileBlock, MaxBlocks, LeafAt, Unique, TreeOf, KidsOf, Inds, SameOutside, PlaceOf;
    var b, f, place := FileBlock(disk, n, blocks, j), PartsOf(disk, n, blocks), PlaceOf(n, j);
    FileBlockIsLeaf(disk, n, blocks, j);
    PlaceLength(n, j);
    LeafNotIndirect(f, place.level, place.path, 1);
    LeafNotIndirect(f, place.level, place.path, 2);
    LeafNotIndirect(f, place.level, place.path, 3);
    DataKids(disk, disk', n, blocks[..NDIR]);
    SameTree(disk, disk', n, 1, blocks[NDIR], {b});
    SameTree(disk, disk', n, 2, blocks[NDIR + 1], {b});
    SameTree(disk, disk', n, 3, blocks[NDIR + 2], {b});
  }

  lemma SamePartsMap(disk: Disk, disk': Disk, n: nat, blocks: seq<nat>, k: nat)
    requires n >= NDIR && |blocks| == NDIR + 3 && k < MaxBlocks(n)
    requires PartsOf(disk', n, blocks) == PartsOf(disk, n, blocks)
    ensures FileBlock(disk', n, blocks, k) == FileBlock(disk, n, blocks, k)
  {
    hide PartsOf, FileBlock, MaxBlocks, LeafAt, PlaceOf;
    FileBlockIsLeaf(disk, n, blocks, k);
    FileBlockIsLeaf(disk', n, blocks, k);
  }
}
