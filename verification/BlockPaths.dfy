/**
 A block put into a hole of a file's tree: which disk changes do it, and what else they change (nothing).
 Places in a tree are given by the path of positions that leads to them from the root.
 */
module BlockPaths {
  import opened Arith
  import opened BlockIter
  import opened BlockMap
  import opened TruncTree
  import opened Truncate

  /** The block at the end of a path; 0 where the path leaves the tree. */
  ghost function Leaf(t: Tree, path: seq<nat>): nat
    decreases |path|
  {
    if t.Hole? then 0
    else if path == [] then t.blk
    else if path[0] < |t.kids| then Leaf(t.kids[path[0]], path[1..])
    else 0
  }

  ghost predicate HoleAt(t: Tree, path: seq<nat>)
    decreases |path|
  {
    if path == [] then t.Hole?
    else t.Node? && path[0] < |t.kids| && HoleAt(t.kids[path[0]], path[1..])
  }

  /** The tree with `sub` in the place the path leads to. */
  ghost function PutAt(t: Tree, path: seq<nat>, sub: Tree): Tree
    decreases |path|
  {
    if path == [] then sub
    else if t.Node? && path[0] < |t.kids| then
      Node(t.blk, t.kids[path[0] := PutAt(t.kids[path[0]], path[1..], sub)])
    else t
  }

  /** Only paths through the filled hole lead elsewhere. */
  lemma {:induction false} LeafPut(t: Tree, p: seq<nat>, sub: Tree, q: seq<nat>)
    requires HoleAt(t, p)
    ensures Leaf(PutAt(t, p, sub), q) == if p <= q then Leaf(sub, q[|p|..]) else Leaf(t, q)
    ensures p <= q ==> Leaf(t, q) == 0
    decreases |p|
  {
    if p == [] {
      assert q[0..] == q;
    } else if q != [] && q[0] == p[0] {
      LeafPut(t.kids[p[0]], p[1..], sub, q[1..]);
      assert p <= q <==> p[1..] <= q[1..] by {
        assert p == [p[0]] + p[1..] && q == [q[0]] + q[1..];
      }
      if p <= q {
        assert q[1..][|p| - 1..] == q[|p|..];
      }
    }
  }

  lemma {:induction false} KidsBlocksPut(kids: seq<Tree>, i: nat, t: Tree)
    requires i < |kids|
    ensures KidsBlocks(kids[i := t]) + Blocks(kids[i]) == KidsBlocks(kids) + Blocks(t)
    decreases |kids|
  {
    hide Blocks, KidsBlocks;
    var rest := kids[1..];
    assert kids == [kids[0]] + rest;
    KidsBlocksCons(kids[0], rest);
    if i > 0 {
      KidsBlocksPut(rest, i - 1, t);
      assert kids[i := t] == [kids[0]] + rest[i - 1 := t];
      KidsBlocksCons(kids[0], rest[i - 1 := t]);
      AddBoth(Blocks(kids[0]), KidsBlocks(rest[i - 1 := t]), Blocks(kids[i]), KidsBlocks(rest), Blocks(t));
    } else {
      assert kids[i := t] == [t] + rest;
      KidsBlocksCons(t, rest);
      AddBoth(KidsBlocks(rest), Blocks(t), Blocks(kids[0]), Blocks(kids[0]), Blocks(t));
    }
  }

  lemma AddBoth(a: multiset<nat>, b: multiset<nat>, c: multiset<nat>, d: multiset<nat>, e: multiset<nat>)
    requires b + c == d + e
    ensures (a + b) + c == (a + d) + e
  {
    assert (a + b) + c == a + (b + c);
    assert (a + d) + e == a + (d + e);
  }

  lemma {:induction false} BlocksPut(t: Tree, p: seq<nat>, sub: Tree)
    requires HoleAt(t, p)
    ensures Blocks(PutAt(t, p, sub)) == Blocks(t) + Blocks(sub)
    decreases |p|
  {
    if p != [] {
      var kid := t.kids[p[0]];
      var kid' := PutAt(kid, p[1..], sub);
      BlocksPut(kid, p[1..], sub);
      KidsBlocksPut(t.kids, p[0], kid');
      hide Blocks, KidsBlocks, PutAt, HoleAt;
      PutNode(t, p[0], kid', Blocks(sub));
    }
  }

  lemma PutNode(t: Tree, i: nat, kid: Tree, more: multiset<nat>)
    requires t.Node? && i < |t.kids| && Blocks(kid) == Blocks(t.kids[i]) + more
    requires KidsBlocks(t.kids[i := kid]) + Blocks(t.kids[i]) == KidsBlocks(t.kids) + Blocks(kid)
    ensures Blocks(Node(t.blk, t.kids[i := kid])) == Blocks(t) + more
  {
    assert Blocks(t) == multiset{t.blk} + KidsBlocks(t.kids);
    assert Blocks(Node(t.blk, t.kids[i := kid])) == multiset{t.blk} + KidsBlocks(t.kids[i := kid]);
    hide Blocks, KidsBlocks;
    MultisetCancel(KidsBlocks(t.kids[i := kid]), KidsBlocks(t.kids), Blocks(t.kids[i]), more);
  }

  lemma MultisetCancel(a: multiset<nat>, b: multiset<nat>, c: multiset<nat>, more: multiset<nat>)
    requires a + c == b + (c + more)
    ensures a == b + more
  {
    assert forall x :: a[x] + c[x] == b[x] + (c[x] + more[x]) by {
      forall x ensures a[x] + c[x] == b[x] + (c[x] + more[x]) {
        assert (a + c)[x] == (b + (c + more))[x];
      }
    }
  }

  // ---------- blocks used once ----------

  ghost predicate Unique(s: multiset<nat>) {
    forall b :: s[b] <= 1
  }

  lemma {:induction false} KidBlocks(kids: seq<Tree>, i: nat)
    requires i < |kids|
    ensures Blocks(kids[i]) <= KidsBlocks(kids)
    ensures forall j :: 0 <= j < |kids| && j != i ==> Blocks(kids[i]) + Blocks(kids[j]) <= KidsBlocks(kids)
    decreases |kids|
  {
    if i > 0 {
      KidBlocks(kids[1..], i - 1);
    } else {
      forall j | 0 < j < |kids|
        ensures Blocks(kids[j]) <= KidsBlocks(kids[1..])
      {
        KidBlocks(kids[1..], j - 1);
      }
    }
  }

  /** The indirect blocks of a tree are among its blocks. */
  lemma {:induction false} IndsAreBlocks(level: nat, t: Tree)
    ensures forall b :: b in Inds(level, t) ==> b in Blocks(t)
    decreases level, if t.Node? then |t.kids| + 1 else 0
  {
    if t.Node? && level > 0 {
      KidsIndsAreBlocks(level, t.kids);
    }
  }

  lemma {:induction false} KidsIndsAreBlocks(level: nat, kids: seq<Tree>)
    requires level > 0
    ensures forall b :: b in KidsInds(level, kids) ==> b in KidsBlocks(kids)
    decreases level, |kids|
  {
    if kids != [] {
      IndsAreBlocks(level - 1, kids[0]);
      KidsIndsAreBlocks(level, kids[1..]);
    }
  }

  lemma {:induction false} LeafIsBlock(t: Tree, path: seq<nat>)
    requires Leaf(t, path) != 0
    ensures Leaf(t, path) in Blocks(t)
    decreases |path|
  {
    if path != [] {
      LeafIsBlock(t.kids[path[0]], path[1..]);
      KidBlocks(t.kids, path[0]);
    }
  }

  // ---------- the change on the disk ----------

  lemma {:induction false} KidAt(disk: Disk, n: nat, level: nat, buf: seq<nat>, i: nat)
    requires level > 0 && |buf| <= n && i < |buf|
    ensures KidsOf(disk, n, level, buf)[i] == TreeOf(disk, n, level - 1, buf[i])
    decreases |buf|
  {
    if i > 0 {
      KidAt(disk, n, level, buf[1..], i - 1);
    }
  }

  function Holes(k: nat): (r: seq<Tree>)
    ensures |r| == k && forall i :: 0 <= i < k ==> r[i] == Hole
  {
    if k == 0 then [] else [Hole] + Holes(k - 1)
  }

  /** A new block: a data block, or an indirect block full of zeros. */
  ghost function Fresh(n: nat, level: nat, b: nat): Tree {
    Node(b, if level == 0 then [] else Holes(n))
  }

  lemma {:induction false} ZerosAreHoles(disk: Disk, n: nat, level: nat, k: nat)
    requires level > 0 && k <= n
    ensures KidsOf(disk, n, level, Zeros(k)) == Holes(k)
    decreases k
  {
    var kids := KidsOf(disk, n, level, Zeros(k));
    forall i | 0 <= i < k
      ensures kids[i] == Holes(k)[i]
    {
      KidAt(disk, n, level, Zeros(k), i);
    }
  }

  lemma FreshTree(disk: Disk, n: nat, level: nat, b: nat)
    requires b != 0 && ReadInd(disk, b, n) == Zeros(n)
    ensures TreeOf(disk, n, level, b) == Fresh(n, level, b)
  {
    if level > 0 {
      ZerosAreHoles(disk, n, level, n);
    }
  }

  /** The disk after block `b` was zeroed and then stored at position i of indirect block `ind`. */
  ghost predicate Stored(disk: Disk, disk': Disk, n: nat, ind: nat, i: nat, b: nat)
    requires i < n
  {
    && ReadInd(disk', b, n) == Zeros(n) && ReadInd(disk', ind, n) == ReadInd(disk, ind, n)[i := b]
    && SameOutside(disk, disk', n, {b, ind})
  }

  /** The same children read on both disks, except child i. */
  lemma KidsPut(disk: Disk, disk': Disk, n: nat, level: nat, buf: seq<nat>, i: nat, b: nat)
    requires level > 0 && |buf| == n && i < n
    requires forall j ::
      0 <= j < n && j != i ==> TreeOf(disk', n, level - 1, buf[j]) == TreeOf(disk, n, level - 1, buf[j])
    ensures KidsOf(disk', n, level, buf[i := b]) == KidsOf(disk, n, level, buf)[i := TreeOf(disk', n, level - 1, b)]
  {
    hide TreeOf;
    var kids, kids' := KidsOf(disk, n, level, buf), KidsOf(disk', n, level, buf[i := b]);
    forall j | 0 <= j < n
      ensures kids'[j] == kids[i := TreeOf(disk', n, level - 1, b)][j]
    {
      KidAt(disk, n, level, buf, j);
      KidAt(disk', n, level, buf[i := b], j);
    }
    hide KidsOf;
  }

  /** A subtree without the two blocks written reads the same afterwards. */
  lemma SameElsewhere(disk: Disk, disk': Disk, n: nat, level: nat, blk: nat, ind: nat, b: nat)
    requires SameOutside(disk, disk', n, {b, ind})
    requires ind !in Blocks(TreeOf(disk, n, level, blk)) && b !in Blocks(TreeOf(disk, n, level, blk))
    ensures TreeOf(disk', n, level, blk) == TreeOf(disk, n, level, blk)
  {
    IndsAreBlocks(level, TreeOf(disk, n, level, blk));
    hide TreeOf, Inds, Blocks, SameOutside;
    SameTree(disk, disk', n, level, blk, {b, ind});
  }

  /** Storing `b` at position i of the indirect block a path leads to fills the hole at path + [i]. */
  lemma {:induction false} AttachTree(disk: Disk, disk': Disk, n: nat, level: nat, root: nat, path: seq<nat>, i: nat,
                                      b: nat)
    requires root != 0 && |path| < level && i < n && b != 0
    requires var t := TreeOf(disk, n, level, root);
             var ind := Leaf(t, path);
             && Unique(Blocks(t)) && b !in Blocks(t)
             && ind != 0 && ReadInd(disk, ind, n)[i] == 0 && Stored(disk, disk', n, ind, i, b)
    ensures HoleAt(TreeOf(disk, n, level, root), path + [i])
    ensures TreeOf(disk', n, level, root) ==
              PutAt(TreeOf(disk, n, level, root), path + [i], Fresh(n, level - |path| - 1, b))
    decreases |path|
  {
    hide TreeOf, Leaf, KidsOf, Blocks, SameOutside, Unique, Fresh, PutAt, HoleAt, ReadInd, Stored;
    var t, buf := TreeOf(disk, n, level, root), ReadInd(disk, root, n);
    var at := if path == [] then i else path[0];
    StoredFacts(disk, disk', n, Leaf(t, path), i, b);
    NodeOf(disk, n, level, root, path);
    OthersSame(disk, disk', n, level, root, Leaf(t, path), b, at, path);
    KidAt(disk, n, level, buf, at);
    if path == [] {
      assert path + [i] == [i];
      FreshTree(disk', n, level - 1, b);
      KidsPut(disk, disk', n, level, buf, i, b);
      PutOne(t, i, Fresh(n, level - 1, b));
      NodeOf(disk', n, level, root, path);
    } else {
      KidUnique(t, at);
      AttachTree(disk, disk', n, level - 1, buf[at], path[1..], i, b);
      KidsPut(disk, disk', n, level, buf, at, buf[at]);
      assert buf[at := buf[at]] == buf;
      PutBelow(t, path, i, Fresh(n, level - |path| - 1, b));
      assert TreeOf(disk', n, level, root) == Node(root, KidsOf(disk', n, level, buf)) by {
        NodeOf(disk', n, level, root, path);
      }
    }
  }

  lemma PutOne(t: Tree, i: nat, sub: Tree)
    requires t.Node? && i < |t.kids| && t.kids[i] == Hole
    ensures HoleAt(t, [i]) && PutAt(t, [i], sub) == Node(t.blk, t.kids[i := sub])
  {
    assert [i][1..] == [];
  }

  lemma PutBelow(t: Tree, path: seq<nat>, i: nat, sub: Tree)
    requires path != [] && t.Node? && path[0] < |t.kids|
    ensures HoleAt(t, path + [i]) == HoleAt(t.kids[path[0]], path[1..] + [i])
    ensures PutAt(t, path + [i], sub) == Node(t.blk, t.kids[path[0] := PutAt(t.kids[path[0]], path[1..] + [i], sub)])
  {
    assert (path + [i])[1..] == path[1..] + [i];
  }

  lemma KidUnique(t: Tree, i: nat)
    requires t.Node? && i < |t.kids| && Unique(Blocks(t))
    ensures Unique(Blocks(t.kids[i])) && Blocks(t.kids[i]) <= Blocks(t) && t.blk !in KidsBlocks(t.kids)
  {
    KidBlocks(t.kids, i);
    assert Blocks(t) == multiset{t.blk} + KidsBlocks(t.kids);
    hide Blocks, KidsBlocks;
    forall b
      ensures Blocks(t.kids[i])[b] <= 1
    {
      assert Blocks(t.kids[i])[b] <= KidsBlocks(t.kids)[b] <= Blocks(t)[b] <= 1;
    }
    assert Blocks(t)[t.blk] == 1 + KidsBlocks(t.kids)[t.blk];
  }

  lemma LeafBelow(t: Tree, path: seq<nat>)
    requires path != [] && Leaf(t, path) != 0
    ensures path[0] < |t.kids| && t.kids[path[0]].Node? && Leaf(t.kids[path[0]], path[1..]) == Leaf(t, path)
    ensures Leaf(t, path) in Blocks(t.kids[path[0]])
  {
    LeafIsBlock(t.kids[path[0]], path[1..]);
  }

  lemma SameAt(disk: Disk, disk': Disk, n: nat, s: set<nat>, b: nat)
    requires SameOutside(disk, disk', n, s) && b !in s
    ensures ReadInd(disk', b, n) == ReadInd(disk, b, n)
  {
  }

  lemma StoredFacts(disk: Disk, disk': Disk, n: nat, ind: nat, i: nat, b: nat)
    requires i < n && Stored(disk, disk', n, ind, i, b)
    ensures SameOutside(disk, disk', n, {b, ind})
    ensures ReadInd(disk', b, n) == Zeros(n) && ReadInd(disk', ind, n) == ReadInd(disk, ind, n)[i := b]
  {
  }

  lemma NodeOf(disk: Disk, n: nat, level: nat, root: nat, path: seq<nat>)
    requires root != 0 && level > 0
    ensures var t := TreeOf(disk, n, level, root);
            && t == Node(root, KidsOf(disk, n, level, ReadInd(disk, root, n))) && root in Blocks(t)
            && (path == [] ==> Leaf(t, path) == root)
            && (path != [] && Leaf(t, path) != 0 ==>
                  path[0] < n && t.kids[path[0]].Node? && Leaf(t.kids[path[0]], path[1..]) == Leaf(t, path)
                  && Leaf(t, path) in Blocks(t.kids[path[0]]))
  {
    var t := TreeOf(disk, n, level, root);
    if path != [] && Leaf(t, path) != 0 {
      LeafBelow(t, path);
    }
    hide KidsOf, ReadInd, KidsBlocks;
  }

  /** What lies beside the path is not touched. */
  lemma OthersSame(disk: Disk, disk': Disk, n: nat, level: nat, root: nat, ind: nat, b: nat, at: nat, path: seq<nat>)
    requires root != 0 && level > 0 && at < n
    requires var t := TreeOf(disk, n, level, root);
             && Unique(Blocks(t)) && b !in Blocks(t) && SameOutside(disk, disk', n, {b, ind})
             && ind == Leaf(t, path) && ind != 0 && (path != [] ==> at == path[0])
    ensures var buf := ReadInd(disk, root, n);
            forall j :: 0 <= j < n && j != at ==>
                TreeOf(disk', n, level - 1, buf[j]) == TreeOf(disk, n, level - 1, buf[j])
    ensures path != [] ==> ind != root && ReadInd(disk', root, n) == ReadInd(disk, root, n)
  {
    hide TreeOf, KidsOf, Leaf, Blocks, KidsBlocks, Unique, SameOutside, ReadInd;
    var t, buf := TreeOf(disk, n, level, root), ReadInd(disk, root, n);
    NodeOf(disk, n, level, root, path);
    KidUnique(t, at);
    if path != [] {
      InKids(t, at, ind);
      SameAt(disk, disk', n, {b, ind}, root);
    }
    forall j | 0 <= j < n && j != at
      ensures TreeOf(disk', n, level - 1, buf[j]) == TreeOf(disk, n, level - 1, buf[j])
    {
      KidAt(disk, n, level, buf, j);
      NotBeside(t, at, j, ind, b);
      SameElsewhere(disk, disk', n, level - 1, buf[j], ind, b);
    }
  }

  lemma NotBeside(t: Tree, at: nat, j: nat, ind: nat, b: nat)
    requires t.Node? && at < |t.kids| && j < |t.kids| && j != at && Unique(Blocks(t)) && b !in Blocks(t)
    requires ind == t.blk || ind in Blocks(t.kids[at])
    ensures ind !in Blocks(t.kids[j]) && b !in Blocks(t.kids[j])
  {
    KidUnique(t, j);
    hide Blocks, KidsBlocks, Unique;
    if ind in Blocks(t.kids[at]) {
      NotInOther(t, at, j, ind);
    } else if ind in Blocks(t.kids[j]) {
      InKids(t, j, ind);
    }
  }

  lemma InKids(t: Tree, i: nat, x: nat)
    requires t.Node? && i < |t.kids| && x in Blocks(t.kids[i])
    ensures x in KidsBlocks(t.kids)
  {
    KidBlocks(t.kids, i);
  }

  lemma NotInOther(t: Tree, i: nat, j: nat, x: nat)
    requires t.Node? && i < |t.kids| && j < |t.kids| && i != j && Unique(Blocks(t)) && x in Blocks(t.kids[i])
    ensures x !in Blocks(t.kids[j])
  {
    KidBlocks(t.kids, i);
    assert Blocks(t) == multiset{t.blk} + KidsBlocks(t.kids);
    hide Blocks, KidsBlocks;
    assert (Blocks(t.kids[i]) + Blocks(t.kids[j]))[x] <= KidsBlocks(t.kids)[x] <= Blocks(t)[x] <= 1;
  }

  // ---------- places in a file ----------

  /** What a path leads to in the tree of a level; level 0 is the direct blocks, by their position. */
  ghost function LeafAt(f: Parts, level: nat, path: seq<nat>): nat {
    if level > 0 then Leaf(TreeAt(f, level), path)
    else if path != [] && path[0] < |f.direct| then Leaf(f.direct[path[0]], path[1..])
    else 0
  }

  ghost predicate HoleIn(f: Parts, level: nat, path: seq<nat>) {
    if level > 0 then HoleAt(TreeAt(f, level), path)
    else |path| == 1 && path[0] < |f.direct| && f.direct[path[0]].Hole?
  }

  ghost function PutFile(f: Parts, level: nat, path: seq<nat>, sub: Tree): Parts {
    if level > 0 then WithTree(f, level, PutAt(TreeAt(f, level), path, sub))
    else if path != [] && path[0] < |f.direct| then f.(direct := f.direct[path[0] := sub])
    else f
  }

  lemma LeafAtPut(f: Parts, level: nat, p: seq<nat>, sub: Tree, l: nat, q: seq<nat>)
    requires level <= 3 && l <= 3 && HoleIn(f, level, p)
    ensures LeafAt(PutFile(f, level, p, sub), l, q) == if l == level && p <= q then Leaf(sub, q[|p|..])
              else LeafAt(f, l, q)
    ensures l == level && p <= q ==> LeafAt(f, l, q) == 0
  {
    if level > 0 {
      if l == level {
        LeafPut(TreeAt(f, level), p, sub, q);
      }
    } else if l == 0 && q != [] {
      assert p <= q <==> p[0] == q[0];
    }
    hide Leaf, PutAt, HoleAt;
  }

  lemma FileBlocksPut(f: Parts, level: nat, p: seq<nat>, sub: Tree)
    requires level <= 3 && HoleIn(f, level, p)
    ensures FileBlocks(PutFile(f, level, p, sub)) == FileBlocks(f) + Blocks(sub)
  {
    hide Blocks, KidsBlocks, PutAt, HoleAt;
    var more, t := Blocks(sub), PutAt(TreeAt(f, level), p, sub);
    if level > 0 {
      BlocksPut(TreeAt(f, level), p, sub);
    }
    if level == 0 {
      DirectPut(f.direct, p[0], sub);
      PartsGrow(f, f.(direct := f.direct[p[0] := sub]), more, multiset{}, multiset{}, multiset{}, more);
    } else if level == 1 {
      PartsGrow(f, f.(t1 := t), multiset{}, more, multiset{}, multiset{}, more);
    } else if level == 2 {
      PartsGrow(f, f.(t2 := t), multiset{}, multiset{}, more, multiset{}, more);
    } else {
      PartsGrow(f, f.(t3 := t), multiset{}, multiset{}, multiset{}, more, more);
    }
  }

  lemma PartsGrow(f: Parts, f': Parts, a: multiset<nat>, b: multiset<nat>, c: multiset<nat>, d: multiset<nat>,
                  all: multiset<nat>)
    requires KidsBlocks(f'.direct) == KidsBlocks(f.direct) + a && Blocks(f'.t1) == Blocks(f.t1) + b
    requires Blocks(f'.t2) == Blocks(f.t2) + c && Blocks(f'.t3) == Blocks(f.t3) + d && all == a + b + c + d
    ensures FileBlocks(f') == FileBlocks(f) + all
  {
    hide Blocks, KidsBlocks;
  }

  lemma DirectPut(kids: seq<Tree>, i: nat, sub: Tree)
    requires i < |kids| && kids[i].Hole?
    ensures KidsBlocks(kids[i := sub]) == KidsBlocks(kids) + Blocks(sub)
  {
    KidsBlocksPut(kids, i, sub);
    assert Blocks(kids[i]) == multiset{};
    hide Blocks, KidsBlocks;
    assert KidsBlocks(kids[i := sub]) + multiset{} == KidsBlocks(kids[i := sub]);
  }

  lemma {:induction false} KidsInFile(kids: seq<Tree>, i: nat, b: nat)
    requires i < |kids| && b in Blocks(kids[i])
    ensures b in KidsBlocks(kids)
  {
    KidBlocks(kids, i);
  }

  lemma LeafAtIsBlock(f: Parts, level: nat, path: seq<nat>)
    requires level <= 3 && LeafAt(f, level, path) != 0
    ensures LeafAt(f, level, path) in FileBlocks(f)
  {
    if level > 0 {
      LeafIsBlock(TreeAt(f, level), path);
    } else {
      LeafIsBlock(f.direct[path[0]], path[1..]);
      KidsInFile(f.direct, path[0], LeafAt(f, level, path));
    }
    hide Blocks, KidsBlocks, Leaf;
  }

  /** In a file whose blocks are used once, the blocks of a tree are in no other. */
  lemma FileUnique(f: Parts, level: nat, b: nat)
    requires Unique(FileBlocks(f)) && 1 <= level <= 3 && b in Blocks(TreeAt(f, level))
    ensures forall l :: 1 <= l <= 3 && l != level ==> b !in Blocks(TreeAt(f, l))
    ensures b !in KidsBlocks(f.direct) && Unique(Blocks(TreeAt(f, level)))
  {
    var all := FileBlocks(f);
    hide Blocks, KidsBlocks;
    assert forall x :: all[x] == KidsBlocks(f.direct)[x] + Blocks(f.t1)[x] + Blocks(f.t2)[x] + Blocks(f.t3)[x];
  }

  lemma {:induction false} DataKids(disk: Disk, disk': Disk, n: nat, buf: seq<nat>)
    requires |buf| <= n
    ensures KidsOf(disk', n, 1, buf) == KidsOf(disk, n, 1, buf)
    decreases |buf|
  {
    if buf != [] {
      DataKids(disk, disk', n, buf[1..]);
    }
  }

  /** Storing a zeroed new block in an indirect block of a file. */
  lemma AttachIn(disk: Disk, disk': Disk, n: nat, blocks: seq<nat>, level: nat, path: seq<nat>, i: nat, b: nat)
    requires n >= NDIR && |blocks| == NDIR + 3 && 1 <= level <= 3 && |path| < level && i < n && b != 0
    requires var f := PartsOf(disk, n, blocks);
             var ind := LeafAt(f, level, path);
             && Unique(FileBlocks(f)) && b !in FileBlocks(f)
             && ind != 0 && ReadInd(disk, ind, n)[i] == 0 && Stored(disk, disk', n, ind, i, b)
    ensures HoleIn(PartsOf(disk, n, blocks), level, path + [i])
    ensures PartsOf(disk', n, blocks) ==
              PutFile(PartsOf(disk, n, blocks), level, path + [i], Fresh(n, level - |path| - 1, b))
  {
    var f := PartsOf(disk, n, blocks);
    var ind := LeafAt(f, level, path);
    LeafIsBlock(TreeAt(f, level), path);
    FileUnique(f, level, ind);
    hide TreeOf, KidsOf, Blocks, KidsBlocks, PutAt, HoleAt, Fresh, ReadInd;
    DataKids(disk, disk', n, blocks[..NDIR]);
    AttachTree(disk, disk', n, level, blocks[NDIR + level - 1], path, i, b);
    hide Unique, Leaf, Stored, SameOutside;
    if level != 1 { OtherKept(disk, disk', n, blocks, level, 1, ind, b); }
    if level != 2 { OtherKept(disk, disk', n, blocks, level, 2, ind, b); }
    if level != 3 { OtherKept(disk, disk', n, blocks, level, 3, ind, b); }
  }

  lemma OtherKept(disk: Disk, disk': Disk, n: nat, blocks: seq<nat>, level: nat, l: nat, ind: nat, b: nat)
    requires n >= NDIR && |blocks| == NDIR + 3 && 1 <= level <= 3 && 1 <= l <= 3 && l != level
    requires var f := PartsOf(disk, n, blocks);
             Unique(FileBlocks(f)) && b !in FileBlocks(f) && ind in Blocks(TreeAt(f, level))
    requires SameOutside(disk, disk', n, {b, ind})
    ensures TreeOf(disk', n, l, blocks[NDIR + l - 1]) == TreeOf(disk, n, l, blocks[NDIR + l - 1])
  {
    hide TreeOf, Blocks, KidsBlocks, SameOutside, Unique, KidsOf;
    var f := PartsOf(disk, n, blocks);
    FileUnique(f, level, ind);
    assert TreeAt(f, l) == TreeOf(disk, n, l, blocks[NDIR + l - 1]);
    assert ind !in Blocks(TreeAt(f, l));
    SameElsewhere(disk, disk', n, l, blocks[NDIR + l - 1], ind, b);
  }

  ghost predicate Zeroed(disk: Disk, disk': Disk, n: nat, b: nat) {
    ReadInd(disk', b, n) == Zeros(n) && SameOutside(disk, disk', n, {b})
  }

  /** Zeroing a block that the file does not use changes no part of it. */
  lemma ZeroedParts(disk: Disk, disk': Disk, n: nat, blocks: seq<nat>, b: nat)
    requires n >= NDIR && |blocks| == NDIR + 3 && b !in FileBlocks(PartsOf(disk, n, blocks))
    requires Zeroed(disk, disk', n, b)
    ensures PartsOf(disk', n, blocks) == PartsOf(disk, n, blocks)
  {
    hide TreeOf, KidsOf, Blocks, KidsBlocks, ReadInd;
    DataKids(disk, disk', n, blocks[..NDIR]);
    SameElsewhere(disk, disk', n, 1, blocks[NDIR], b, b);
    SameElsewhere(disk, disk', n, 2, blocks[NDIR + 1], b, b);
    SameElsewhere(disk, disk', n, 3, blocks[NDIR + 2], b, b);
  }

  /** A zeroed new block as the root of a tree. */
  lemma AttachRoot(disk: Disk, disk': Disk, n: nat, blocks: seq<nat>, level: nat, b: nat)
    requires n >= NDIR && |blocks| == NDIR + 3 && 1 <= level <= 3 && b != 0 && blocks[NDIR + level - 1] == 0
    requires b !in FileBlocks(PartsOf(disk, n, blocks)) && Zeroed(disk, disk', n, b)
    ensures HoleIn(PartsOf(disk, n, blocks), level, [])
    ensures PartsOf(disk', n, blocks[NDIR + level - 1 := b]) ==
              PutFile(PartsOf(disk, n, blocks), level, [], Fresh(n, level, b))
  {
    hide KidsOf, Fresh, ReadInd, FileBlocks, SameOutside;
    ZeroedParts(disk, disk', n, blocks, b);
    FreshTree(disk', n, level, b);
    assert blocks[NDIR + level - 1 := b][..NDIR] == blocks[..NDIR];
    assert TreeAt(PartsOf(disk, n, blocks), level).Hole?;
    hide TreeOf;
  }

  /** A zeroed new block as a direct block. */
  lemma AttachDirect(disk: Disk, disk': Disk, n: nat, blocks: seq<nat>, j: nat, b: nat)
    requires n >= NDIR && |blocks| == NDIR + 3 && j < NDIR && b != 0 && blocks[j] == 0
    requires b !in FileBlocks(PartsOf(disk, n, blocks)) && Zeroed(disk, disk', n, b)
    ensures HoleIn(PartsOf(disk, n, blocks), 0, [j])
    ensures PartsOf(disk', n, blocks[j := b]) == PutFile(PartsOf(disk, n, blocks), 0, [j], Fresh(n, 0, b))
  {
    ZeroedParts(disk, disk', n, blocks, b);
    var direct, direct' := KidsOf(disk', n, 1, blocks[..NDIR]), KidsOf(disk', n, 1, blocks[j := b][..NDIR]);
    KidAt(disk', n, 1, blocks[..NDIR], j);
    assert blocks[..NDIR][j] == blocks[j];
    assert direct[j] == Hole;
    forall k | 0 <= k < NDIR
      ensures direct'[k] == direct[j := Node(b, [])][k]
    {
      KidAt(disk', n, 1, blocks[..NDIR], k);
      KidAt(disk', n, 1, blocks[j := b][..NDIR], k);
    }
    assert direct' == direct[j := Node(b, [])];
    hide KidsOf, ReadInd, FileBlocks, TreeOf;
  }

  // ---------- logical block numbers ----------

  /** The positions on the way to the block with index `idx` in a tree. */
  function Digits(n: nat, level: nat, idx: nat): (path: seq<nat>)
    requires n > 0
    ensures |path| == level
  {
    if level == 0 then []
    else
      PowPositive(n, level - 1);
      [idx / Pow(n, level - 1)] + Digits(n, level - 1, idx % Pow(n, level - 1))
  }

  lemma {:induction false} LookupIsLeaf(disk: Disk, n: nat, level: nat, blk: nat, idx: nat)
    requires n > 0 && idx < Pow(n, level)
    ensures Lookup(disk, n, level, blk, idx) == Leaf(TreeOf(disk, n, level, blk), Digits(n, level, idx))
    decreases level
  {
    if blk != 0 && level > 0 {
      PowPositive(n, level - 1);
      DigitBound(n, level, idx);
      var w, buf := Pow(n, level - 1), ReadInd(disk, blk, n);
      LookupIsLeaf(disk, n, level - 1, buf[idx / w], idx % w);
      KidAt(disk, n, level, buf, idx / w);
      var path := Digits(n, level, idx);
      assert path[1..] == Digits(n, level - 1, idx % w);
      hide Pow, KidsOf, ReadInd;
    }
  }

  lemma {:induction false} DigitsInjective(n: nat, level: nat, idx: nat, idx': nat)
    requires n > 0 && idx < Pow(n, level) && idx' < Pow(n, level) && Digits(n, level, idx) == Digits(n, level, idx')
    ensures idx == idx'
    decreases level
  {
    if level > 0 {
      hide Pow, Digits;
      var w := Pow(n, level - 1);
      DigitsStep(n, level, idx);
      DigitsStep(n, level, idx');
      DigitsInjective(n, level - 1, idx % w, idx' % w);
      SameDivision(idx, idx', w);
    }
  }

  lemma DigitsStep(n: nat, level: nat, idx: nat)
    requires n > 0 && level > 0 && idx < Pow(n, level)
    ensures var w := Pow(n, level - 1);
            w > 0 && idx % w < w && Digits(n, level, idx)[0] == idx / w &&
                Digits(n, level, idx)[1..] == Digits(n, level - 1, idx % w)
  {
    PowPositive(n, level - 1);
    hide Pow;
  }

  lemma SameDivision(x: nat, y: nat, w: nat)
    requires w > 0 && x / w == y / w && x % w == y % w
    ensures x == y
  {
    assert x == x / w * w + x % w;
    assert y == y / w * w + y % w;
  }

  lemma DigitsOne(n: nat, x: nat)
    requires n > 0
    ensures Digits(n, 1, x) == [x]
  {
    assert Pow(n, 0) == 1;
  }

  /** bmap divides from the bottom up. */
  lemma DigitsTwo(n: nat, x: nat)
    requires n > 0
    ensures Digits(n, 2, x) == [x / n, x % n]
  {
    SmallPows(n);
    DigitsOne(n, x % n);
  }

  lemma DivTwiceAt(n: nat, x: nat, q: nat, r: nat, q2: nat, q1: nat)
    requires r < n && q1 < n && x == q * n + r && q == q2 * n + q1
    ensures n * n > 0 && x / (n * n) == q2 && x % (n * n) == q1 * n + r
  {
    RestBound(n, q1, r);
    Regroup(n, q2, q1, r);
    DivModUnique(x, n * n, q2, q1 * n + r);
  }

  lemma DivTwice(n: nat, x: nat)
    requires n > 0 && n * n > 0
    ensures x / (n * n) == x / n / n && x % (n * n) == x / n % n * n + x % n
  {
    DivTwiceAt(n, x, x / n, x % n, x / n / n, x / n % n);
  }

  lemma RestBound(n: nat, q: nat, r: nat)
    requires q < n && r < n
    ensures q * n + r < n * n
  {
    MulMonotone(q + 1, n, n);
    assert (q + 1) * n == q * n + n;
  }

  lemma Regroup(n: nat, q2: nat, q1: nat, r: nat)
    ensures (q2 * n + q1) * n + r == q2 * (n * n) + (q1 * n + r)
  {
    assert (q2 * n) * n == q2 * (n * n);
  }

  lemma DigitsThree(n: nat, x: nat)
    requires n > 0
    ensures Digits(n, 3, x) == [x / n / n, x / n % n, x % n]
  {
    SmallPows(n);
    SquarePositive(n);
    DivTwice(n, x);
    DigitsTwo(n, x % (n * n));
    var q1, r := x / n % n, x % n;
    DivModUnique(q1 * n + r, n, q1, r);
    assert Digits(n, 3, x) == [x / (n * n)] + Digits(n, 2, x % (n * n));
  }

  /** Where logical block j is: the level of its tree and the path in it. */
  datatype Place = Place(level: nat, path: seq<nat>)

  function PlaceOf(n: nat, j: nat): (r: Place)
    requires n > 0
    ensures r.level <= 3
  {
    if j < NDIR then Place(0, [j])
    else if j < RootStart(n, 2) then Place(1, Digits(n, 1, j - NDIR))
    else if j < RootStart(n, 3) then Place(2, Digits(n, 2, j - RootStart(n, 2)))
    else Place(3, Digits(n, 3, j - RootStart(n, 3)))
  }

  lemma PlaceInjective(n: nat, j: nat, k: nat)
    requires n > 0 && j < MaxBlocks(n) && k < MaxBlocks(n) && PlaceOf(n, j) == PlaceOf(n, k)
    ensures j == k
  {
    RootStarts(n);
    var level := PlaceOf(n, j).level;
    if level == 0 {
      assert [j][0] == [k][0];
    } else {
      hide Pow, RootStart;
      DigitsInjective(n, level, j - RootStart(n, level), k - RootStart(n, level));
    }
  }

  lemma FileBlockIsLeaf(disk: Disk, n: nat, blocks: seq<nat>, j: nat)
    requires n >= NDIR && |blocks| == NDIR + 3 && j < MaxBlocks(n)
    ensures FileBlock(disk, n, blocks, j) == LeafAt(PartsOf(disk, n, blocks), PlaceOf(n, j).level, PlaceOf(n, j).path)
  {
    RootStarts(n);
    var level := PlaceOf(n, j).level;
    if level == 0 {
      KidAt(disk, n, 1, blocks[..NDIR], j);
      assert blocks[..NDIR][j] == blocks[j];
      hide Lookup, Pow, RootStart, KidsOf;
    } else {
      hide Lookup, Pow, RootStart, Digits, Leaf, TreeOf;
      LookupIsLeaf(disk, n, level, blocks[NDIR + level - 1], j - RootStart(n, level));
    }
  }
}
