/**
 ext2fs_expand_dir: the block iterator, appending, finds the lowest logical block that is not mapped and
 allocates it together with the indirect blocks on the way to it.
 */
module ExpandDir {
  import opened Arith
  import opened Bytes
  import opened BlockIter
  import opened BlockMap
  import opened TruncTree
  import opened Truncate
  import opened BlockPaths
  import opened FreeSpace
  import opened Bmap
  import DirBlock

  const APPEND := Flags(true, false, false)

  // ---------- ext2fs_new_block as a function ----------

  function FreeFrom(used: set<nat>, lo: nat, hi: nat): (r: nat)
    requires lo <= hi
    ensures lo <= r <= hi && (r < hi ==> r !in used) && forall k :: lo <= k < r ==> k in used
    decreases hi - lo
  {
    if lo == hi || lo !in used then lo else FreeFrom(used, lo + 1, hi)
  }

  /** The first free block from the goal on, around the end; the number of blocks if there is none. */
  function FirstFree(g: Geometry, used: set<nat>, goal: nat): (r: nat)
    requires g.first <= g.count
    ensures r < g.count ==> g.InRange(r) && r !in used
    ensures r >= g.count ==> r == g.count && forall b :: g.InRange(b) ==> b in used
  {
    var from := if goal < g.first || goal == 0 || goal >= g.count then g.first else goal;
    var r := FreeFrom(used, from, g.count);
    if r < g.count then r
    else
      var s := FreeFrom(used, g.first, from);
      if s < from then s else g.count
  }

  /** It is the block ext2fs_new_block finds. */
  lemma FirstFreeIsNewBlock(g: Geometry, used: set<nat>, goal: nat, ok: bool, blk: nat)
    requires g.first < g.count && (goal == 0 || goal >= g.first)
    requires ok ==> g.InRange(blk) && blk !in used
    requires var from := if goal == 0 || goal > g.count - 1 then g.first else goal;
             ok ==> forall k: nat ::
                 g.InRange(k) && (if blk >= from then from <= k < blk else k >= from || k < blk) ==> k in used
    requires !ok ==> forall k: nat :: g.InRange(k) ==> k in used
    ensures FirstFree(g, used, goal) == if ok then blk else g.count
  {
  }

  // ---------- expand_dir_proc ----------

  /** The free counters of the groups and of the superblock. */
  datatype Counters = Counters(perGroup: nat, groups: seq<int>, super: int)

  /** ext2fs_block_alloc_stats for a block taken. */
  function CountTaken(g: Geometry, k: Counters, b: nat): Counters {
    if k.perGroup > 0 && g.first <= b && GroupOf(g.first, k.perGroup, b) < |k.groups| then
      var i := GroupOf(g.first, k.perGroup, b);
      k.(groups := k.groups[i := k.groups[i] - 1], super := k.super - 1)
    else k
  }

  /** Every block is in a group, and the counters are right. */
  ghost predicate Counted(g: Geometry, used: set<nat>, k: Counters) {
    && k.perGroup > 0 && g.first < g.count <= GroupStart(g.first, k.perGroup, |k.groups|)
    && GroupsAccounted(used, g.first, g.count - 1, k.perGroup, k.groups) && k.super == Sum(k.groups)
  }

  lemma TakenCounted(g: Geometry, used: set<nat>, k: Counters, b: nat)
    requires Counted(g, used, k) && g.InRange(b) && b !in used
    ensures Counted(g, used + {b}, CountTaken(g, k, b))
  {
    hide GroupOf, GroupStart, GroupsAccounted, Sum;
    GroupInRange(g.first, k.perGroup, |k.groups|, g.count - 1, b);
    GroupsAfter(used, g.first, g.count - 1, k.perGroup, k.groups, b, true);
    SumUpdate(k.groups, GroupOf(g.first, k.perGroup, b), -1);
  }

  /**
   struct expand_dir_struct, the last block seen, the blocks in use, the counters, and the new directory
   block as the iterator would read it.
   */
  datatype Expanding = Expanding(used: set<nat>, free: Counters, last: nat, done: bool, newblocks: nat, err: bool,
                                 content: seq<nat>)

  /** Block `b` taken. */
  function Took(g: Geometry, p: Expanding, b: nat): Expanding {
    p.(used := p.used + {b}, free := CountTaken(g, p.free, b), newblocks := p.newblocks + 1)
  }

  /** expand_dir_proc */
  function ExpandProc(g: Geometry): Callback<Expanding>
    requires g.first <= g.count
  {
    (disk: Disk, p: Expanding, blk: nat, count: int) =>
      if blk != 0 then Called(disk, p.(last := blk), blk, NOTHING)
      else
        var b := FirstFree(g, p.used, p.last);
        if b >= g.count then Called(disk, p.(err := true), 0, Ret(false, true, false))
        else
          var done := p.done || count > 0;
          Called(disk[b := if count > 0 then p.content else Zeros(g.n)],
                 Took(g, p, b).(done := done), b, Ret(true, done, false))
  }

  // ---------- what a search below one block does ----------

  /** Blocks used once, in use, and on the device. */
  ghost predicate Good(g: Geometry, used: set<nat>, s: multiset<nat>) {
    Unique(s) && forall b :: b in s ==> b in used && g.InRange(b)
  }

  /** A search that starts: nothing found yet, the blocks of the tree are good, block zero is not to be had. */
  ghost predicate Ready(g: Geometry, level: nat, c: Context<Expanding>, blk: nat) {
    && g.n >= NDIR && g.first <= g.count && c.errcode == NoError && c.bcount > 0
    && !c.p.done && !c.p.err && (c.p.last == 0 || c.p.last >= g.first) && (g.first > 0 || 0 in c.p.used)
    && |c.p.content| == g.n
    && Good(g, c.p.used, Blocks(TreeOf(c.disk, g.n, level, blk)))
  }

  /**
   Index `idx` is the first without a block, and only it may have one afterwards; none is without if it is
   past the end.
   */
  ghost predicate MapChange(n: nat, level: nat, disk: Disk, blk: nat, disk1: Disk, blk1: nat, idx: nat)
    requires n > 0
  {
    && idx <= Pow(n, level)
    && (forall i :: 0 <= i < idx ==> Lookup(disk, n, level, blk, i) != 0)
    && (idx < Pow(n, level) ==> Lookup(disk, n, level, blk, idx) == 0)
    && (forall i :: 0 <= i < Pow(n, level) && i != idx ==>
        Lookup(disk1, n, level, blk1, i) == Lookup(disk, n, level, blk, i))
  }

  ghost predicate TreeChange(n: nat, level: nat, disk: Disk, blk: nat, disk1: Disk, blk1: nat, added: set<nat>) {
    && Blocks(TreeOf(disk1, n, level, blk1)) == Blocks(TreeOf(disk, n, level, blk)) + multiset(added)
    && SameOutside(disk, disk1, n, Inds(level, TreeOf(disk, n, level, blk)) + added)
  }

  /** The blocks taken were free, and the search ended with a new block, with none free, or without coming to a hole. */
  ghost predicate StateChange(g: Geometry, p: Expanding, p1: Expanding, added: set<nat>, found: bool, newest: nat) {
    && p1.used == p.used + added && p.used !! added && p1.newblocks == p.newblocks + |added| && p1.content == p.content
    && (Counted(g, p.used, p.free) ==> Counted(g, p1.used, p1.free))
    && (forall b :: b in added ==> g.InRange(b)) && (p1.last == 0 || p1.last >= g.first)
    && if found then
         && p1.done != p1.err && (p1.done <==> newest != 0) && (newest != 0 ==> newest in added)
         && (p1.err ==> forall b :: g.InRange(b) ==> b in p1.used)
       else added == {} && !p1.done && !p1.err && p1.free == p.free
  }

  /** If the search is done, the newest block is the new directory block. */
  ghost predicate Filling(n: nat, c: Context<Expanding>, newest: nat) {
    c.p.done ==> ReadInd(c.disk, newest, n) == c.p.content
  }

  ghost predicate Found(g: Geometry, level: nat, c: Context<Expanding>, blk: nat, c1: Context<Expanding>, blk1: nat,
                        idx: nat, added: set<nat>)
    requires g.n > 0
  {
    && MapChange(g.n, level, c.disk, blk, c1.disk, blk1, idx)
    && TreeChange(g.n, level, c.disk, blk, c1.disk, blk1, added)
    && StateChange(g, c.p, c1.p, added, idx < Pow(g.n, level), Lookup(c1.disk, g.n, level, blk1, idx))
    && Filling(g.n, c1, Lookup(c1.disk, g.n, level, blk1, idx))
    && c1.errcode == NoError && (idx == Pow(g.n, level) ==> c1.disk == c.disk && blk1 == blk && c1.bcount > 0)
  }

  ghost predicate Searched(g: Geometry, level: nat, c: Context<Expanding>, blk: nat, c1: Context<Expanding>, blk1: nat,
                           ret: Ret, idx: nat, added: set<nat>)
    requires g.n > 0
  {
    && Found(g, level, c, blk, c1, blk1, idx, added)
    && ret.abort == (idx < Pow(g.n, level)) && !ret.error && (blk1 == blk || ret.changed)
    && (!ret.abort ==> !ret.changed)
  }

  /** The callback on a data block. */
  lemma DataSearched(g: Geometry, c: Context<Expanding>, blk: nat) returns (idx: nat, added: set<nat>)
    requires Ready(g, 0, c, blk)
    ensures var s := Call(ExpandProc(g), c, blk, c.bcount);
            Searched(g, 0, c, blk, if s.ret.abort then s.c
                else s.c.(bcount := s.c.bcount + 1), s.blk, s.ret, idx, added)
  {
    hide FirstFree, MapChange, TreeChange, Good, TreeOf, Blocks, Pow, Lookup;
    var s := Call(ExpandProc(g), c, blk, c.bcount);
    idx, added := if blk != 0 then 1 else 0, if blk != 0 || s.blk == 0 then {} else {s.blk};
    PowOne(g.n);
    DataState(g, c, blk);
    DataMap(g.n, c.disk, blk, s.c.disk, s.blk);
    DataTree(g.n, c.disk, blk, s.c.disk, s.blk);
  }

  lemma DataMap(n: nat, disk: Disk, blk: nat, disk1: Disk, blk1: nat)
    requires n > 0 && (blk != 0 ==> blk1 == blk)
    ensures MapChange(n, 0, disk, blk, disk1, blk1, if blk != 0 then 1 else 0)
    ensures Lookup(disk1, n, 0, blk1, 0) == blk1
  {
    PowOne(n);
  }

  lemma DataTree(n: nat, disk: Disk, blk: nat, disk1: Disk, blk1: nat)
    requires blk != 0 ==> blk1 == blk && disk1 == disk
    requires forall b :: b != blk1 || b == 0 ==> ReadInd(disk1, b, n) == ReadInd(disk, b, n)
    ensures TreeChange(n, 0, disk, blk, disk1, blk1, if blk != 0 || blk1 == 0 then {} else {blk1})
  {
    hide TreeOf, Blocks, ReadInd;
    LeafBlocks(disk, n, blk);
    LeafBlocks(disk1, n, blk1);
    assert multiset({blk1}) == multiset{blk1};
  }

  lemma DataState(g: Geometry, c: Context<Expanding>, blk: nat)
    requires Ready(g, 0, c, blk)
    ensures var s := Call(ExpandProc(g), c, blk, c.bcount);
            && (blk != 0 ==> s.blk == blk && s.c == c.(p := c.p.(last := blk)) && s.ret == NOTHING)
            && (blk == 0 ==> s.ret.abort && !s.ret.error && (s.blk == 0 || s.ret.changed) && s.c.errcode == NoError)
            && (forall b :: b != s.blk || b == 0 ==> ReadInd(s.c.disk, b, g.n) == ReadInd(c.disk, b, g.n))
            && StateChange(g, c.p, s.c.p, if blk != 0 || s.blk == 0 then {} else {s.blk}, blk == 0, s.blk)
            && Filling(g.n, s.c, s.blk)
  {
    hide FirstFree, Unique, Counted, CountTaken, Blocks, TreeOf;
    if blk != 0 {
      LeafBlocks(c.disk, g.n, blk);
      assert blk in Blocks(TreeOf(c.disk, g.n, 0, blk));
    } else {
      NewData(g, c);
    }
  }

  lemma NewData(g: Geometry, c: Context<Expanding>)
    requires Ready(g, 0, c, 0)
    ensures var s := Call(ExpandProc(g), c, 0, c.bcount);
            && s.ret.abort && !s.ret.error && (s.blk == 0 || s.ret.changed) && s.c.errcode == NoError
            && (forall b :: b != s.blk || b == 0 ==> ReadInd(s.c.disk, b, g.n) == ReadInd(c.disk, b, g.n))
            && StateChange(g, c.p, s.c.p, if s.blk == 0 then {} else {s.blk}, true, s.blk) && Filling(g.n, s.c, s.blk)
  {
    hide FirstFree, Counted, CountTaken, Good;
    var b := FirstFree(g, c.p.used, c.p.last);
    if b >= g.count {
      assert c.p.used + {} == c.p.used;
    } else {
      if Counted(g, c.p.used, c.p.free) {
        TakenCounted(g, c.p.used, c.p.free, b);
      }
      var p, p1 := c.p, Call(ExpandProc(g), c, 0, c.bcount).c.p;
      assert p1 == Took(g, p, b).(done := true) && StateChange(g, p, p1, {b}, true, b);
    }
  }

  lemma LeafBlocks(disk: Disk, n: nat, blk: nat)
    ensures Blocks(TreeOf(disk, n, 0, blk)) == if blk == 0 then multiset{} else multiset{blk}
  {
  }

  // ---------- one child of an indirect block ----------

  lemma SameLookup(disk: Disk, disk': Disk, n: nat, level: nat, blk: nat, i: nat)
    requires n > 0 && i < Pow(n, level) && TreeOf(disk', n, level, blk) == TreeOf(disk, n, level, blk)
    ensures Lookup(disk', n, level, blk, i) == Lookup(disk, n, level, blk, i)
  {
    hide Pow, Lookup, TreeOf, Leaf, Digits;
    LookupIsLeaf(disk, n, level, blk, i);
    LookupIsLeaf(disk', n, level, blk, i);
  }

  lemma ChildOf(n: nat, level: nat, i: nat) returns (j: nat, r: nat)
    requires n > 0 && level > 0 && i < Pow(n, level)
    ensures var w := Pow(n, level - 1); j < n && r < w && i == j * w + r
  {
    PowPositive(n, level - 1);
    DigitBound(n, level, i);
    j, r := i / Pow(n, level - 1), i % Pow(n, level - 1);
  }

  lemma LookupChild(disk: Disk, n: nat, level: nat, blk: nat, j: nat, r: nat)
    requires n > 0 && level > 0 && blk != 0 && j < n && r < Pow(n, level - 1)
    ensures 0 <= j * Pow(n, level - 1) + r < Pow(n, level)
    ensures Lookup(disk, n, level, blk, j * Pow(n, level - 1) + r) ==
              Lookup(disk, n, level - 1, ReadInd(disk, blk, n)[j], r)
  {
    var w := Pow(n, level - 1);
    MulNonNegative(j, w);
    assert (j + 1) * w == j * w + w;
    MulMonotone(j + 1, n, w);
    assert Pow(n, level) == n * w;
    hide Lookup, Pow;
    ChildLookup(disk, n, level, blk, j * w + r, j);
  }

  /** What is stored once the number of child k is written back to its block. */
  ghost predicate ChildStored(n: nat, level: nat, disk: Disk, blk: nat, k: nat, disk1: Disk, b1: nat, disk2: Disk)
    requires level > 0 && k < n
  {
    var buf := ReadInd(disk, blk, n);
    && ReadInd(disk2, blk, n) == buf[k := b1]
    && (forall j :: 0 <= j < n && j != k ==> TreeOf(disk2, n, level - 1, buf[j]) == TreeOf(disk, n, level - 1, buf[j]))
    && TreeOf(disk2, n, level - 1, b1) == TreeOf(disk1, n, level - 1, b1)
  }

  lemma StoreChild(g: Geometry, level: nat, used: set<nat>, disk: Disk, blk: nat, k: nat, disk1: Disk, b1: nat,
                   disk2: Disk, added: set<nat>)
    requires level > 0 && k < g.n && blk != 0 && used !! added
    requires Good(g, used, Blocks(TreeOf(disk, g.n, level, blk)))
    requires TreeChange(g.n, level - 1, disk, ReadInd(disk, blk, g.n)[k], disk1, b1, added)
    requires disk2 == disk1[blk := ReadInd(disk, blk, g.n)[k := b1]] ||
              (disk2 == disk1 && b1 == ReadInd(disk, blk, g.n)[k])
    ensures ChildStored(g.n, level, disk, blk, k, disk1, b1, disk2)
    ensures SameOutside(disk, disk2, g.n, Inds(level, TreeOf(disk, g.n, level, blk)) + added)
  {
    hide TreeOf, KidsOf, Blocks, KidsBlocks, Inds, KidsInds, Unique, ReadInd, SameOutside;
    var n, buf, t := g.n, ReadInd(disk, blk, g.n), TreeOf(disk, g.n, level, blk);
    NodeOf(disk, n, level, blk, []);
    KidAt(disk, n, level, buf, k);
    KidUnique(t, k);
    var s := Inds(level - 1, t.kids[k]) + added;
    IndsAreBlocks(level - 1, t.kids[k]);
    OwnBlockApart(t, k, used, added);
    IndsInclude(level, t, k);
    SameAt(disk, disk1, n, s, blk);
    WrittenBack(disk1, n, blk, buf[k := b1], disk2);
    SameOutsideTwice(disk, disk1, disk2, n, s, {blk});
    forall j | 0 <= j < n && j != k
      ensures TreeOf(disk2, n, level - 1, buf[j]) == TreeOf(disk, n, level - 1, buf[j])
    {
      KidAt(disk, n, level, buf, j);
      SiblingApart(level, t, k, j, used, added);
      SameTree(disk, disk2, n, level - 1, buf[j], s + {blk});
    }
    IndsAreBlocks(level - 1, TreeOf(disk1, n, level - 1, b1));
    SameTree(disk1, disk2, n, level - 1, b1, {blk});
    MoreOutside(disk, disk2, n, s + {blk}, Inds(level, t) + added);
  }

  lemma WrittenBack(disk1: Disk, n: nat, blk: nat, buf: seq<nat>, disk2: Disk)
    requires |buf| == n && (disk2 == disk1[blk := buf] || (disk2 == disk1 && buf == ReadInd(disk1, blk, n)))
    ensures ReadInd(disk2, blk, n) == buf && SameOutside(disk1, disk2, n, {blk})
  {
  }

  lemma MoreOutside(disk: Disk, disk': Disk, n: nat, s: set<nat>, s': set<nat>)
    requires SameOutside(disk, disk', n, s) && s <= s'
    ensures SameOutside(disk, disk', n, s')
  {
  }

  lemma IndsInclude(level: nat, t: Tree, k: nat)
    requires level > 0 && t.Node? && k < |t.kids|
    ensures t.blk in Inds(level, t) && Inds(level - 1, t.kids[k]) <= Inds(level, t)
  {
    KidIndsIn(level, t.kids, k);
  }

  lemma {:induction false} KidIndsIn(level: nat, kids: seq<Tree>, k: nat)
    requires level > 0 && k < |kids|
    ensures Inds(level - 1, kids[k]) <= KidsInds(level, kids)
    decreases |kids|
  {
    if k > 0 {
      KidIndsIn(level, kids[1..], k - 1);
    }
  }

  /** The block itself is in no child, and not new. */
  lemma OwnBlockApart(t: Tree, k: nat, used: set<nat>, added: set<nat>)
    requires t.Node? && k < |t.kids| && Unique(Blocks(t)) && used !! added && forall b :: b in Blocks(t) ==> b in used
    ensures t.blk !in Blocks(t.kids[k]) && t.blk !in added
    ensures forall b :: b in Blocks(t.kids[k]) ==> b in used
  {
    KidUnique(t, k);
    assert t.blk in Blocks(t);
    hide Blocks, KidsBlocks, Unique;
    if t.blk in Blocks(t.kids[k]) {
      InKids(t, k, t.blk);
    }
  }

  lemma SiblingApart(level: nat, t: Tree, k: nat, j: nat, used: set<nat>, added: set<nat>)
    requires level > 0 && t.Node? && k < |t.kids| && j < |t.kids| && j != k && Unique(Blocks(t))
    requires used !! added && forall b :: b in Blocks(t) ==> b in used
    ensures Inds(level - 1, t.kids[j]) !! (Inds(level - 1, t.kids[k]) + added) + {t.blk}
  {
    hide Blocks, KidsBlocks, Unique, Inds;
    OwnBlockApart(t, j, used, added);
    IndsAreBlocks(level - 1, t.kids[j]);
    IndsAreBlocks(level - 1, t.kids[k]);
    var mine := Inds(level - 1, t.kids[j]);
    forall b | b in mine
      ensures b !in Inds(level - 1, t.kids[k])
    {
      NotInOther(t, j, k, b);
    }
  }

  ghost predicate Filled(disk: Disk, n: nat, level: nat, blk: nat)
    requires n > 0
  {
    forall i :: 0 <= i < Pow(n, level) ==> Lookup(disk, n, level, blk, i) != 0
  }

  /** The first index without a block, from the first child with one. */
  lemma NodeMap(n: nat, level: nat, disk: Disk, blk: nat, k: nat, disk1: Disk, b1: nat, disk2: Disk, idx: nat)
    requires level > 0 && blk != 0 && k < n && ChildStored(n, level, disk, blk, k, disk1, b1, disk2)
    requires MapChange(n, level - 1, disk, ReadInd(disk, blk, n)[k], disk1, b1, idx) && idx < Pow(n, level - 1)
    requires forall j :: 0 <= j < k ==> Filled(disk, n, level - 1, ReadInd(disk, blk, n)[j])
    ensures var at := k * Pow(n, level - 1) + idx;
            && 0 <= at < Pow(n, level) && MapChange(n, level, disk, blk, disk2, blk, at)
            && Lookup(disk2, n, level, blk, at) == Lookup(disk1, n, level - 1, b1, idx)
  {
    hide Lookup, Pow, TreeOf;
    var w, buf := Pow(n, level - 1), ReadInd(disk, blk, n);
    LookupChild(disk, n, level, blk, k, idx);
    LookupChild(disk2, n, level, blk, k, idx);
    SameLookup(disk1, disk2, n, level - 1, b1, idx);
    var at := k * w + idx;
    forall i: nat | i < Pow(n, level)
      ensures i < at ==> Lookup(disk, n, level, blk, i) != 0
      ensures i != at ==> Lookup(disk2, n, level, blk, i) == Lookup(disk, n, level, blk, i)
    {
      var j, r := ChildOf(n, level, i);
      LookupChild(disk, n, level, blk, j, r);
      LookupChild(disk2, n, level, blk, j, r);
      Ordered(k, idx, j, r, w);
      if j != k {
        SameLookup(disk, disk2, n, level - 1, buf[j], r);
      } else {
        SameLookup(disk1, disk2, n, level - 1, b1, r);
      }
    }
  }

  lemma Ordered(k: nat, x: nat, j: nat, r: nat, w: nat)
    requires x < w && r < w
    ensures j * w + r < k * w + x ==> j < k || (j == k && r < x)
    ensures j * w + r != k * w + x ==> j != k || r != x
  {
    if j > k {
      MulMonotone(k + 1, j, w);
      assert (k + 1) * w == k * w + w;
    }
  }

  lemma NodeTree(n: nat, level: nat, disk: Disk, blk: nat, k: nat, disk1: Disk, b1: nat, disk2: Disk, added: set<nat>)
    requires level > 0 && blk != 0 && k < n && ChildStored(n, level, disk, blk, k, disk1, b1, disk2)
    requires TreeChange(n, level - 1, disk, ReadInd(disk, blk, n)[k], disk1, b1, added)
    ensures Blocks(TreeOf(disk2, n, level, blk)) == Blocks(TreeOf(disk, n, level, blk)) + multiset(added)
  {
    hide TreeOf, KidsOf, Blocks, KidsBlocks, Inds, SameOutside, ReadInd;
    var buf, t := ReadInd(disk, blk, n), TreeOf(disk, n, level, blk);
    NodeOf(disk, n, level, blk, []);
    NodeOf(disk2, n, level, blk, []);
    KidAt(disk, n, level, buf, k);
    KidsPut(disk, disk2, n, level, buf, k, b1);
    var kid := TreeOf(disk2, n, level - 1, b1);
    KidsBlocksPut(t.kids, k, kid);
    PutNode(t, k, kid, multiset(added));
  }

  lemma NodeFilled(n: nat, level: nat, disk: Disk, blk: nat)
    requires level > 0 && blk != 0 && n > 0
    requires forall j :: 0 <= j < n ==> Filled(disk, n, level - 1, ReadInd(disk, blk, n)[j])
    ensures MapChange(n, level, disk, blk, disk, blk, Pow(n, level))
  {
    hide Lookup, Pow, ReadInd;
    forall i: nat | i < Pow(n, level)
      ensures Lookup(disk, n, level, blk, i) != 0
    {
      var j, r := ChildOf(n, level, i);
      LookupChild(disk, n, level, blk, j, r);
    }
  }

  lemma NothingChanged(n: nat, level: nat, disk: Disk, blk: nat)
    ensures TreeChange(n, level, disk, blk, disk, blk, {})
  {
    hide TreeOf, Blocks, Inds;
    var none: set<nat> := {};
    assert multiset(none) == multiset{};
  }

  // ---------- the search below an indirect block ----------

  /** Child i of the block, in the state the loop has come to it with. */
  ghost predicate LoopReady(g: Geometry, level: nat, c: Context<Expanding>, blk: nat, i: nat)
    requires level > 0 && g.n > 0
  {
    && blk != 0 && i <= g.n && Ready(g, level, c, blk)
    && forall j :: 0 <= j < i ==> Filled(c.disk, g.n, level - 1, ReadInd(c.disk, blk, g.n)[j])
  }

  /** What the loop leaves: every child filled, or child k searched with a hole in it. */
  ghost predicate LoopFound(g: Geometry, level: nat, c: Context<Expanding>, blk: nat, ret: Ret, l: LoopStep<Expanding>,
                            k: nat, ck: Context<Expanding>, b1: nat, childRet: Ret, idx: nat, added: set<nat>)
    requires level > 0 && g.n > 0
  {
    var buf := ReadInd(c.disk, blk, g.n);
    && k <= g.n && (forall j :: 0 <= j < k ==> Filled(c.disk, g.n, level - 1, buf[j]))
    && ck.disk == c.disk && ck.p == c.p.(last := ck.p.last)
    && if k == g.n then
         l == LoopStep(ck, buf, false, ret) && ck.errcode == NoError && ck.bcount > 0 &&
             (ck.p.last == 0 || ck.p.last >= g.first)
       else
         && Searched(g, level - 1, ck, buf[k], l.c, b1, childRet, idx, added) && idx < Pow(g.n, level - 1)
         && l == LoopStep(l.c, buf[k := b1], childRet.changed, ret.(abort := true))
  }

  lemma KidReady(g: Geometry, level: nat, c: Context<Expanding>, blk: nat, i: nat)
    requires level > 0 && blk != 0 && i < g.n && Ready(g, level, c, blk)
    ensures Ready(g, level - 1, c, ReadInd(c.disk, blk, g.n)[i])
  {
    hide TreeOf, Blocks, KidsOf, Unique;
    var t := TreeOf(c.disk, g.n, level, blk);
    NodeOf(c.disk, g.n, level, blk, []);
    KidAt(c.disk, g.n, level, ReadInd(c.disk, blk, g.n), i);
    KidUnique(t, i);
  }

  lemma {:induction false} LoopSearch(g: Geometry, level: nat, c: Context<Expanding>, blk: nat, i: nat, ret: Ret)
    returns (k: nat, ck: Context<Expanding>, b1: nat, childRet: Ret, idx: nat, added: set<nat>)
    requires level > 0 && g.n > 0 && LoopReady(g, level, c, blk, i)
    ensures LoopFound(g, level, c, blk, ret,
              IterLoop(g, APPEND, ExpandProc(g), level, c, ReadInd(c.disk, blk, g.n), i, false, ret),
                      k, ck, b1, childRet, idx, added)
    decreases level, g.n - i
  {
    hide IterLoop, IterNode, Call, ReadInd, Pow, Filled, MapChange, TreeChange, Good, ExpandProc;
    var buf := ReadInd(c.disk, blk, g.n);
    if i >= g.n {
      LoopStops(g, APPEND, ExpandProc(g), level, c, buf, i, false, ret);
      k, ck, b1, childRet, idx, added := g.n, c, 0, NOTHING, 0, {};
    } else {
      KidReady(g, level, c, blk, i);
      var s: Step<Expanding>;
      s, idx, added := ChildSearch(g, level, c, buf, i, ret);
      if idx < Pow(g.n, level - 1) {
        k, ck, b1, childRet := i, c, s.blk, s.ret;
      } else {
        ChildFilled(g, level, c, buf[i], s.c, idx, added);
        assert buf[i := buf[i]] == buf;
        k, ck, b1, childRet, idx, added := LoopSearch(g, level, s.c, blk, i + 1, ret);
      }
    }
  }

  lemma ChildFilled(g: Geometry, level: nat, c: Context<Expanding>, b: nat, c1: Context<Expanding>, idx: nat,
                    added: set<nat>)
    requires level > 0 && g.n > 0 && idx >= Pow(g.n, level - 1) && Ready(g, level - 1, c, b)
    requires Found(g, level - 1, c, b, c1, b, idx, added)
    ensures Filled(c.disk, g.n, level - 1, b) && c1.p == c.p.(last := c1.p.last)
  {
    hide Pow, Lookup, TreeChange, Good;
  }

  /** One turn of the loop. */
  lemma ChildSearch(g: Geometry, level: nat, c: Context<Expanding>, buf: seq<nat>, i: nat, ret: Ret)
    returns (s: Step<Expanding>, idx: nat, added: set<nat>)
    requires level > 0 && i < g.n == |buf| && Ready(g, level - 1, c, buf[i])
    ensures Searched(g, level - 1, c, buf[i], s.c, s.blk, s.ret, idx, added) && idx <= Pow(g.n, level - 1)
    ensures IterLoop(g, APPEND, ExpandProc(g), level, c, buf, i, false, ret) ==
            if s.ret.abort then LoopStep(s.c, buf[i := s.blk], s.ret.changed, ret.(abort := true))
            else IterLoop(g, APPEND, ExpandProc(g), level, s.c, buf[i := s.blk], i + 1, false, ret)
    decreases level, 0
  {
    hide IterLoop, IterNode, Pow, TreeChange, StateChange, Good, ExpandProc, Lookup;
    if level == 1 {
      idx, added := DataSearched(g, c, buf[i]);
      LoopCalls(g, APPEND, ExpandProc(g), c, buf, i, false, ret);
      s := Call(ExpandProc(g), c, buf[i], c.bcount);
      if !s.ret.abort {
        s := s.(c := s.c.(bcount := s.c.bcount + 1));
      }
    } else {
      idx, added := NodeSearch(g, level - 1, c, buf[i]);
      LoopDescends(g, APPEND, ExpandProc(g), level, c, buf, i, false, ret);
      s := IterNode(g, APPEND, ExpandProc(g), level - 1, c, buf[i]);
    }
  }

  /** The loop over the children and the writing back. */
  lemma {:induction false} NodeAround(g: Geometry, level: nat, c: Context<Expanding>, blk: nat, ret: Ret)
    returns (idx: nat, added: set<nat>)
    requires level > 0 && blk != 0 && Ready(g, level, c, blk) && !ret.abort && !ret.error
    ensures var l := IterLoop(g, APPEND, ExpandProc(g), level, c, ReadInd(c.disk, blk, g.n), 0, false, ret);
            var s := AfterChildren(APPEND, ExpandProc(g), level, blk, l);
            && Found(g, level, c, blk, s.c, blk, idx, added) && s.blk == blk
            && s.ret == if idx < Pow(g.n, level) then ret.(abort := true) else ret
    decreases level, g.n + 1
  {
    hide IterLoop, ReadInd, Pow, Filled, MapChange, TreeChange, Good, ExpandProc, ChildStored, Lookup;
    var k, ck, b1, childRet, idx0, added0 := LoopSearch(g, level, c, blk, 0, ret);
    var l := IterLoop(g, APPEND, ExpandProc(g), level, c, ReadInd(c.disk, blk, g.n), 0, false, ret);
    if k == g.n {
      idx, added := Pow(g.n, level), {};
      NodeFilled(g.n, level, c.disk, blk);
      NothingChanged(g.n, level, c.disk, blk);
    } else {
      var disk2 := if l.changed then l.c.disk[blk := l.buf] else l.c.disk;
      idx, added := k * Pow(g.n, level - 1) + idx0, added0;
      StoreChild(g, level, c.p.used, c.disk, blk, k, l.c.disk, b1, disk2, added);
      NodeMap(g.n, level, c.disk, blk, k, l.c.disk, b1, disk2, idx0);
      NodeTree(g.n, level, c.disk, blk, k, l.c.disk, b1, disk2, added);
      TreeChanged(g.n, level, c.disk, blk, disk2, added);
      FillingStays(g, level, c, blk, ck, l.c, disk2, l.buf, added, Lookup(l.c.disk, g.n, level - 1, b1, idx0));
    }
  }

  /** Writing the indirect block back does not touch the newest block. */
  lemma FillingStays(g: Geometry, level: nat, c: Context<Expanding>, blk: nat, ck: Context<Expanding>,
                     c1: Context<Expanding>, disk2: Disk, buf: seq<nat>, added: set<nat>, newest: nat)
    requires level > 0 && blk != 0 && Ready(g, level, c, blk) && ck.p == c.p.(last := ck.p.last)
    requires StateChange(g, ck.p, c1.p, added, true, newest) && Filling(g.n, c1, newest)
    requires disk2 == c1.disk || disk2 == c1.disk[blk := buf]
    ensures Filling(g.n, c1.(disk := disk2), newest)
  {
    hide Unique, TreeOf, Counted;
    assert blk in Blocks(TreeOf(c.disk, g.n, level, blk));
  }

  lemma TreeChanged(n: nat, level: nat, disk: Disk, blk: nat, disk1: Disk, added: set<nat>)
    requires Blocks(TreeOf(disk1, n, level, blk)) == Blocks(TreeOf(disk, n, level, blk)) + multiset(added)
    requires SameOutside(disk, disk1, n, Inds(level, TreeOf(disk, n, level, blk)) + added)
    ensures TreeChange(n, level, disk, blk, disk1, blk, added)
  {
    hide TreeOf, Blocks, Inds, SameOutside;
  }

  /** The callback on an indirect block. */
  lemma PreCall(g: Geometry, level: nat, c: Context<Expanding>, blk: nat)
    requires level > 0 && Ready(g, level, c, blk)
    ensures var pre := Call(ExpandProc(g), c, blk, CountCode(level));
            && (blk != 0 ==> pre == Step(c.(p := c.p.(last := blk)), blk, NOTHING) && g.InRange(blk))
            && (blk == 0 && pre.blk == 0 ==>
                  && pre == Step(c.(p := c.p.(err := true)), 0, Ret(false, true, false))
                  && forall b :: g.InRange(b) ==> b in c.p.used)
            && (blk == 0 && pre.blk != 0 ==>
                  && g.InRange(pre.blk) && pre.blk !in c.p.used && pre.ret == Ret(true, false, false)
                  && pre.c == c.(disk := c.disk[pre.blk := Zeros(g.n)],
                                 p := Took(g, c.p, pre.blk)))
  {
    hide FirstFree, Unique, Zeros, CountTaken;
    var b := FirstFree(g, c.p.used, c.p.last);
    if blk != 0 {
      assert blk in Blocks(TreeOf(c.disk, g.n, level, blk));
    }
  }

  /** A new indirect block maps nothing. */
  lemma EmptyNode(g: Geometry, level: nat, c: Context<Expanding>, b: nat)
    requires level > 0 && b != 0 && g.InRange(b) && Ready(g, level, c, 0)
    ensures var c0 := c.(disk := c.disk[b := Zeros(g.n)], p := Took(g, c.p, b));
            && Ready(g, level, c0, b) && Blocks(TreeOf(c0.disk, g.n, level, b)) == multiset{b}
            && Inds(level, TreeOf(c0.disk, g.n, level, b)) == {b}
            && forall i :: 0 <= i < Pow(g.n, level) ==> Lookup(c0.disk, g.n, level, b, i) == 0
  {
    hide TreeOf, Inds, Pow, Lookup, Blocks, KidsInds;
    var disk := c.disk[b := Zeros(g.n)];
    assert ReadInd(disk, b, g.n) == Zeros(g.n);
    FreshTree(disk, g.n, level, b);
    FreshBlocks(g.n, level, b);
    IndsOfFresh(g.n, level, b);
    forall i | 0 <= i < Pow(g.n, level)
      ensures Lookup(disk, g.n, level, b, i) == 0
    {
      var j, r := ChildOf(g.n, level, i);
      LookupChild(disk, g.n, level, b, j, r);
      LookupHole(disk, g.n, level - 1, r);
    }
  }

  lemma LookupHole(disk: Disk, n: nat, level: nat, i: nat)
    requires n > 0
    ensures Lookup(disk, n, level, 0, i) == 0
  {
  }

  lemma IndsOfFresh(n: nat, level: nat, b: nat)
    requires level > 0
    ensures Inds(level, Fresh(n, level, b)) == {b}
  {
    HolesHaveNoInds(n, level, n);
  }

  lemma {:induction false} HolesHaveNoInds(n: nat, level: nat, k: nat)
    requires level > 0
    ensures KidsInds(level, Holes(k)) == {}
    decreases k
  {
    if k > 0 {
      HolesHaveNoInds(n, level, k - 1);
      assert Holes(k)[1..] == Holes(k - 1);
    }
  }

  /** What was found below a new indirect block was found where there was none. */
  lemma FoundBelowNew(g: Geometry, level: nat, c: Context<Expanding>, b: nat, c0: Context<Expanding>,
                      c1: Context<Expanding>, idx: nat, added: set<nat>)
    requires level > 0 && b != 0 && g.InRange(b) && b !in c.p.used && Ready(g, level, c, 0)
    requires c0 == c.(disk := c.disk[b := Zeros(g.n)], p := Took(g, c.p, b))
    requires Blocks(TreeOf(c0.disk, g.n, level, b)) == multiset{b} && Inds(level, TreeOf(c0.disk, g.n, level, b)) == {b}
    requires forall i :: 0 <= i < Pow(g.n, level) ==> Lookup(c0.disk, g.n, level, b, i) == 0
    requires Found(g, level, c0, b, c1, b, idx, added)
    ensures idx == 0 < Pow(g.n, level) && Found(g, level, c, 0, c1, b, idx, added + {b})
  {
    hide Pow, Lookup, Good, MapChange, TreeChange, StateChange, TreeOf, Blocks, Inds;
    MapFromNothing(g.n, level, c.disk, c0.disk, b, c1.disk, idx);
    StateFromNothing(g, c.p, b, c0.p, c1.p, added, Lookup(c1.disk, g.n, level, b, idx));
    NewTree(g.n, level, c.disk, b, c0.disk, c1.disk, added);
  }

  lemma MapFromNothing(n: nat, level: nat, disk: Disk, disk0: Disk, b: nat, disk1: Disk, idx: nat)
    requires n > 0 && MapChange(n, level, disk0, b, disk1, b, idx)
    requires forall i :: 0 <= i < Pow(n, level) ==> Lookup(disk0, n, level, b, i) == 0
    ensures idx == 0 < Pow(n, level) && MapChange(n, level, disk, 0, disk1, b, idx)
  {
    hide Pow, Lookup;
    PowPositive(n, level);
    forall i: nat
      ensures Lookup(disk, n, level, 0, i) == 0
    {
      LookupHole(disk, n, level, i);
    }
    assert Lookup(disk0, n, level, b, 0) == 0;
  }

  lemma StateFromNothing(g: Geometry, p: Expanding, b: nat, p0: Expanding, p1: Expanding, added: set<nat>, newest: nat)
    requires b !in p.used && g.InRange(b) && p0 == Took(g, p, b)
    requires StateChange(g, p0, p1, added, true, newest)
    ensures StateChange(g, p, p1, added + {b}, true, newest) && b !in added
  {
    hide Counted, CountTaken;
    assert |added + {b}| == |added| + 1;
    if Counted(g, p.used, p.free) {
      TakenCounted(g, p.used, p.free, b);
    }
  }

  lemma NewTree(n: nat, level: nat, disk: Disk, b: nat, disk0: Disk, disk1: Disk, added: set<nat>)
    requires disk0 == disk[b := Zeros(n)] && b !in added
    requires Blocks(TreeOf(disk0, n, level, b)) == multiset{b} && Inds(level, TreeOf(disk0, n, level, b)) == {b}
    requires TreeChange(n, level, disk0, b, disk1, b, added)
    ensures TreeChange(n, level, disk, 0, disk1, b, added + {b})
  {
    hide TreeOf, Blocks, Inds, SameOutside;
    NothingThere(disk, n, level);
    assert multiset(added + {b}) == multiset{b} + multiset(added);
    WrittenBack(disk, n, b, Zeros(n), disk0);
    SameOutsideTwice(disk, disk0, disk1, n, {b}, {b} + added);
    assert {b} + ({b} + added) == {} + (added + {b});
  }

  lemma NothingThere(disk: Disk, n: nat, level: nat)
    ensures Blocks(TreeOf(disk, n, level, 0)) == multiset{} && Inds(level, TreeOf(disk, n, level, 0)) == {}
  {
  }

  lemma {:induction false} NodeSearch(g: Geometry, level: nat, c: Context<Expanding>, blk: nat)
    returns (idx: nat, added: set<nat>)
    requires level > 0 && Ready(g, level, c, blk)
    ensures var s := IterNode(g, APPEND, ExpandProc(g), level, c, blk);
            Searched(g, level, c, blk, s.c, s.blk, s.ret, idx, added)
    decreases level, g.n + 2
  {
    hide IterLoop, IterNode, AfterChildren, Call, ReadInd, Pow, Found, Good, TreeOf, Blocks, Inds, Lookup, ExpandProc;
    NodeAt(g, APPEND, ExpandProc(g), level, c, blk);
    PreCall(g, level, c, blk);
    var pre := Call(ExpandProc(g), c, blk, CountCode(level));
    if blk != 0 {
      idx, added := NodeAround(g, level, pre.c, blk, NOTHING);
      FoundFrom(g, level, c, blk, pre.c, AfterChildren(APPEND, ExpandProc(g), level, blk,
        IterLoop(g, APPEND, ExpandProc(g), level, pre.c, ReadInd(pre.c.disk, blk, g.n), 0, false, NOTHING)).c, blk,
            idx, added);
    } else if pre.blk == 0 {
      idx, added := 0, {};
      NoneFree(g, level, c);
    } else {
      EmptyNode(g, level, c, pre.blk);
      idx, added := NodeAround(g, level, pre.c, pre.blk, pre.ret);
      FoundBelowNew(g, level, c, pre.blk, pre.c, IterNode(g, APPEND, ExpandProc(g), level, c, blk).c, idx, added);
      added := added + {pre.blk};
    }
  }

  /** The last block seen does not matter. */
  lemma FoundFrom(g: Geometry, level: nat, c: Context<Expanding>, blk: nat, c0: Context<Expanding>,
                  c1: Context<Expanding>, blk1: nat, idx: nat, added: set<nat>)
    requires g.n > 0 && c0 == c.(p := c.p.(last := c0.p.last)) && Found(g, level, c0, blk, c1, blk1, idx, added)
    ensures Found(g, level, c, blk, c1, blk1, idx, added) && idx <= Pow(g.n, level)
  {
    hide Pow, Lookup, TreeChange;
  }

  lemma NoneFree(g: Geometry, level: nat, c: Context<Expanding>)
    requires Ready(g, level, c, 0) && forall b :: g.InRange(b) ==> b in c.p.used
    ensures Pow(g.n, level) > 0
    ensures forall bcount: nat :: Found(g, level, c, 0, c.(p := c.p.(err := true), bcount := bcount), 0, 0, {})
  {
    hide Pow, Lookup, TreeChange, Good;
    PowPositive(g.n, level);
    NothingChanged(g.n, level, c.disk, 0);
    forall i: nat
      ensures Lookup(c.disk, g.n, level, 0, i) == 0
    {
      LookupHole(c.disk, g.n, level, i);
    }
  }

  // ---------- the whole file ----------

  /** Where a logical block is: a direct block, or index i below the root of a level. */
  function At(n: nat, level: nat, i: nat): nat {
    if level == 0 then i else RootStart(n, level) + i
  }

  function Width(n: nat, level: nat): nat {
    if level == 0 then NDIR else Pow(n, level)
  }

  lemma AtBounds(n: nat, level: nat, i: nat)
    requires level <= 3 && i <= Width(n, level)
    ensures At(n, level, i) <= MaxBlocks(n) && (level == 3 && i == Width(n, 3) ==> At(n, level, i) == MaxBlocks(n))
    ensures level < 3 ==> At(n, level, Width(n, level)) == At(n, level + 1, 0)
    ensures i < Width(n, level) ==> At(n, level, i) < MaxBlocks(n)
  {
    RootStarts(n);
    hide Pow, RootStart;
  }

  lemma SplitIndex(n: nat, j: nat) returns (level: nat, i: nat)
    requires j < MaxBlocks(n)
    ensures level <= 3 && i < Width(n, level) && j == At(n, level, i)
  {
    RootStarts(n);
    hide Pow, RootStart;
    if j < NDIR {
      level, i := 0, j;
    } else if j < RootStart(n, 2) {
      level, i := 1, j - NDIR;
    } else if j < RootStart(n, 3) {
      level, i := 2, j - RootStart(n, 2);
    } else {
      level, i := 3, j - RootStart(n, 3);
    }
  }

  lemma FileBlockAt(disk: Disk, n: nat, blocks: seq<nat>, level: nat, i: nat)
    requires n > 0 && |blocks| == NDIR + 3 && level <= 3 && i < Width(n, level)
    ensures FileBlock(disk, n, blocks, At(n, level, i)) == if level == 0 then blocks[i]
              else Lookup(disk, n, level, blocks[NDIR + level - 1], i)
  {
    RootStarts(n);
    hide Pow, RootStart, Lookup;
  }

  lemma AtOrder(n: nat, level: nat, i: nat, l: nat, k: nat)
    requires level <= 3 && l <= 3 && i <= Width(n, level) && k < Width(n, l)
    ensures At(n, l, k) < At(n, level, i) ==> l < level || (l == level && k < i)
    ensures At(n, l, k) == At(n, level, i) && i < Width(n, level) ==> l == level && k == i
  {
    RootStarts(n);
    hide Pow, RootStart;
  }

  /** Logical block `idx` is the lowest without a block, and only it may have one afterwards. */
  ghost predicate FileFound(g: Geometry, disk: Disk, blocks: seq<nat>, p: Expanding, r: InodeStep<Expanding>, idx: nat,
                            added: set<nat>)
    requires g.n >= NDIR && |blocks| == NDIR + 3 == |r.blocks|
  {
    && idx <= MaxBlocks(g.n)
    && (forall j :: 0 <= j < idx ==> FileBlock(disk, g.n, blocks, j) != 0)
    && (idx < MaxBlocks(g.n) ==> FileBlock(disk, g.n, blocks, idx) == 0)
    && (forall j :: 0 <= j < MaxBlocks(g.n) && j != idx ==>
        FileBlock(r.c.disk, g.n, r.blocks, j) == FileBlock(disk, g.n, blocks, j))
    && FileBlocks(PartsOf(r.c.disk, g.n, r.blocks)) == FileBlocks(PartsOf(disk, g.n, blocks)) + multiset(added)
    && StateChange(g, p, r.c.p, added, idx < MaxBlocks(g.n), FileBlock(r.c.disk, g.n, r.blocks, idx))
    && Filling(g.n, r.c, FileBlock(r.c.disk, g.n, r.blocks, idx))
    && !r.ret.error && (r.blocks == blocks || r.ret.changed)
  }

  /** A file whose blocks are good, with a search that starts. */
  ghost predicate FileReady(g: Geometry, disk: Disk, blocks: seq<nat>, p: Expanding) {
    && g.n >= NDIR && g.first <= g.count && |blocks| == NDIR + 3
    && !p.done && !p.err && (p.last == 0 || p.last >= g.first) && (g.first > 0 || 0 in p.used)
    && Good(g, p.used, FileBlocks(PartsOf(disk, g.n, blocks)))
  }

  lemma PartGood(g: Geometry, disk: Disk, blocks: seq<nat>, p: Expanding, level: nat)
    requires FileReady(g, disk, blocks, p) && 1 <= level <= 3
    ensures Good(g, p.used, Blocks(TreeOf(disk, g.n, level, blocks[NDIR + level - 1])))
  {
    hide TreeOf, Blocks, KidsOf, KidsBlocks;
    var f := PartsOf(disk, g.n, blocks);
    assert TreeAt(f, level) == TreeOf(disk, g.n, level, blocks[NDIR + level - 1]);
    forall b
      ensures Blocks(TreeAt(f, level))[b] <= FileBlocks(f)[b]
    {
      PartCount(f, level, b);
    }
  }

  lemma PartCount(f: Parts, level: nat, b: nat)
    ensures Blocks(TreeAt(f, level))[b] <= FileBlocks(f)[b]
  {
    hide Blocks, KidsBlocks;
    assert FileBlocks(f)[b] == KidsBlocks(f.direct)[b] + Blocks(f.t1)[b] + Blocks(f.t2)[b] + Blocks(f.t3)[b];
  }

  /** A change below one root leaves the other parts of the file alone. */
  lemma RootParts(g: Geometry, used: set<nat>, level: nat, disk: Disk, blocks: seq<nat>, disk1: Disk, blk1: nat,
                  added: set<nat>)
    requires g.n >= NDIR && |blocks| == NDIR + 3 && 1 <= level <= 3 && used !! added
    requires Good(g, used, FileBlocks(PartsOf(disk, g.n, blocks)))
    requires TreeChange(g.n, level, disk, blocks[NDIR + level - 1], disk1, blk1, added)
    ensures var blocks1 := blocks[NDIR + level - 1 := blk1];
            PartsOf(disk1, g.n, blocks1) == WithTree(PartsOf(disk, g.n, blocks), level, TreeOf(disk1, g.n, level, blk1))
  {
    hide TreeOf, KidsOf, Blocks, KidsBlocks, Inds, SameOutside, Unique;
    var blocks1 := blocks[NDIR + level - 1 := blk1];
    assert blocks1[..NDIR] == blocks[..NDIR];
    DataKids(disk, disk1, g.n, blocks[..NDIR]);
    if level != 1 { OtherRoot(g, used, level, 1, disk, blocks, disk1, added); }
    if level != 2 { OtherRoot(g, used, level, 2, disk, blocks, disk1, added); }
    if level != 3 { OtherRoot(g, used, level, 3, disk, blocks, disk1, added); }
  }

  lemma OtherRoot(g: Geometry, used: set<nat>, level: nat, l: nat, disk: Disk, blocks: seq<nat>, disk1: Disk,
                  added: set<nat>)
    requires g.n >= NDIR && |blocks| == NDIR + 3 && 1 <= level <= 3 && 1 <= l <= 3 && l != level && used !! added
    requires Good(g, used, FileBlocks(PartsOf(disk, g.n, blocks)))
    requires SameOutside(disk, disk1, g.n, Inds(level, TreeOf(disk, g.n, level, blocks[NDIR + level - 1])) + added)
    ensures TreeOf(disk1, g.n, l, blocks[NDIR + l - 1]) == TreeOf(disk, g.n, l, blocks[NDIR + l - 1])
  {
    hide TreeOf, KidsOf, Blocks, KidsBlocks, Inds, SameOutside, Unique, FileBlocks;
    var f := PartsOf(disk, g.n, blocks);
    var mine, s := Inds(l, TreeAt(f, l)), Inds(level, TreeAt(f, level)) + added;
    IndsAreBlocks(l, TreeAt(f, l));
    IndsAreBlocks(level, TreeAt(f, level));
    forall b | b in mine
      ensures b !in s
    {
      FileUnique(f, l, b);
      InFile(f, l, b);
    }
    SameTree(disk, disk1, g.n, l, blocks[NDIR + l - 1], s);
  }

  lemma InFile(f: Parts, l: nat, b: nat)
    requires b in Blocks(TreeAt(f, l))
    ensures b in FileBlocks(f)
  {
    hide Blocks, KidsBlocks;
  }

  lemma RootBlocks(f: Parts, level: nat, t: Tree, added: set<nat>)
    requires 1 <= level <= 3 && Blocks(t) == Blocks(TreeAt(f, level)) + multiset(added)
    ensures FileBlocks(WithTree(f, level, t)) == FileBlocks(f) + multiset(added)
  {
    hide Blocks, KidsBlocks, FileBlocks;
    var none: multiset<nat> := multiset{};
    var more := multiset(added);
    if level == 1 { PartsGrow(f, f.(t1 := t), none, more, none, none, more); }
    if level == 2 { PartsGrow(f, f.(t2 := t), none, none, more, none, more); }
    if level == 3 { PartsGrow(f, f.(t3 := t), none, none, none, more, more); }
  }

  /** The map of the file after a change below one root. */
  lemma RootMapping(g: Geometry, used: set<nat>, level: nat, disk: Disk, blocks: seq<nat>, disk1: Disk, blk1: nat,
                    i: nat, added: set<nat>)
    requires g.n >= NDIR && |blocks| == NDIR + 3 && 1 <= level <= 3 && used !! added
    requires Good(g, used, FileBlocks(PartsOf(disk, g.n, blocks)))
    requires TreeChange(g.n, level, disk, blocks[NDIR + level - 1], disk1, blk1, added)
    requires MapChange(g.n, level, disk, blocks[NDIR + level - 1], disk1, blk1, i) && i < Pow(g.n, level)
    ensures var n, blocks1, idx := g.n, blocks[NDIR + level - 1 := blk1], At(g.n, level, i);
            && idx < MaxBlocks(n) && FileBlock(disk, n, blocks, idx) == 0
            && FileBlock(disk1, n, blocks1, idx) == Lookup(disk1, n, level, blk1, i)
            && (forall j :: 0 <= j < MaxBlocks(n) && j != idx ==>
                FileBlock(disk1, n, blocks1, j) == FileBlock(disk, n, blocks, j))
            && (forall k :: 0 <= k < i ==> FileBlock(disk, n, blocks, At(n, level, k)) != 0)
  {
    hide Pow, RootStart, Lookup, TreeOf, FileBlock, FileBlocks, At, MaxBlocks, Good, TreeChange, PartsOf;
    var n, blocks1, idx := g.n, blocks[NDIR + level - 1 := blk1], At(g.n, level, i);
    AtBounds(n, level, i);
    FileBlockAt(disk, n, blocks, level, i);
    FileBlockAt(disk1, n, blocks1, level, i);
    forall j: nat | j < MaxBlocks(n) && j != idx
      ensures FileBlock(disk1, n, blocks1, j) == FileBlock(disk, n, blocks, j)
    {
      var l, k := SplitIndex(n, j);
      FileBlockAt(disk, n, blocks, l, k);
      FileBlockAt(disk1, n, blocks1, l, k);
      if l > 0 && l != level {
        OtherRootKept(g, used, level, l, disk, blocks, disk1, blk1, added);
        SameLookup(disk, disk1, n, l, blocks[NDIR + l - 1], k);
      }
    }
    forall k: nat | k < i
      ensures FileBlock(disk, n, blocks, At(n, level, k)) != 0
    {
      FileBlockAt(disk, n, blocks, level, k);
    }
  }

  lemma OtherRootKept(g: Geometry, used: set<nat>, level: nat, l: nat, disk: Disk, blocks: seq<nat>, disk1: Disk,
                      blk1: nat, added: set<nat>)
    requires g.n >= NDIR && |blocks| == NDIR + 3 && 1 <= level <= 3 && 1 <= l <= 3 && l != level && used !! added
    requires Good(g, used, FileBlocks(PartsOf(disk, g.n, blocks)))
    requires TreeChange(g.n, level, disk, blocks[NDIR + level - 1], disk1, blk1, added)
    ensures TreeOf(disk1, g.n, l, blocks[NDIR + l - 1]) == TreeOf(disk, g.n, l, blocks[NDIR + l - 1])
  {
    hide TreeOf, FileBlocks, Good, PartsOf, SameOutside, Inds;
    OtherRoot(g, used, level, l, disk, blocks, disk1, added);
  }

  // ---------- the direct blocks ----------

  lemma PassedCall(g: Geometry, c: Context<Expanding>, blk: nat)
    requires g.first <= g.count && blk != 0
    ensures Call(ExpandProc(g), c, blk, c.bcount) == Step(c.(p := c.p.(last := blk)), blk, NOTHING)
  {
  }

  lemma {:induction false} DirectSearch(g: Geometry, c: Context<Expanding>, blocks: seq<nat>, i: nat) returns (k: nat)
    requires |blocks| == NDIR + 3 && i <= NDIR && c.bcount == i && c.errcode == NoError && (i == 0 ==> blocks[0] != 0)
    requires g.n >= NDIR && g.first <= g.count && !c.p.done && !c.p.err && (c.p.last == 0 || c.p.last >= g.first)
    requires (g.first > 0 || 0 in c.p.used)
    requires |c.p.content| == g.n
    requires forall j :: 0 <= j < NDIR && blocks[j] != 0 ==> g.InRange(blocks[j])
    ensures var s := IterDirect(APPEND, ExpandProc(g), c, blocks, i, NOTHING);
            && i <= k <= NDIR && (forall j :: i <= j < k ==> blocks[j] != 0) && s.c.errcode == NoError && !s.ret.error
            && if k == NDIR then
                 && s.blocks == blocks && s.ret == NOTHING && s.c.disk == c.disk && s.c.bcount > 0
                 && s.c.p == c.p.(last := s.c.p.last) && (s.c.p.last == 0 || s.c.p.last >= g.first)
               else
                 && blocks[k] == 0 && s.ret.abort && s.blocks == blocks[k := s.blocks[k]]
                 && (s.blocks[k] == 0 || s.ret.changed)
                 && StateChange(g, c.p, s.c.p, Taken(s.blocks[k]), true, s.blocks[k]) && Filling(g.n, s.c, s.blocks[k])
                 && SameOutside(c.disk, s.c.disk, g.n, Taken(s.blocks[k]))
    decreases NDIR - i
  {
    hide IterDirect, ExpandProc, Call, StateChange, ReadInd;
    DirectAt(APPEND, ExpandProc(g), c, blocks, i, NOTHING);
    if i == NDIR {
      k := NDIR;
    } else if blocks[i] != 0 {
      PassedCall(g, c, blocks[i]);
      assert blocks[i := blocks[i]] == blocks;
      var c1 := c.(p := c.p.(last := blocks[i]), bcount := i + 1);
      k := DirectSearch(g, c1, blocks, i + 1);
      StateFrom(g, c.p, c1.p, IterDirect(APPEND, ExpandProc(g), c1, blocks, i + 1, NOTHING), k);
    } else {
      k := i;
      NothingBad(g, c, blocks[i]);
      DataState(g, c, 0);
    }
  }

  function Taken(b: nat): set<nat> {
    if b == 0 then {} else {b}
  }

  lemma StateFrom(g: Geometry, p: Expanding, p0: Expanding, s: InodeStep<Expanding>, k: nat)
    requires p0 == p.(last := p0.last) && k < |s.blocks|
    ensures StateChange(g, p0, s.c.p, Taken(s.blocks[k]), true, s.blocks[k]) ==>
              StateChange(g, p, s.c.p, Taken(s.blocks[k]), true, s.blocks[k])
  {
  }

  lemma NothingBad(g: Geometry, c: Context<Expanding>, blk: nat)
    requires blk == 0
    ensures Good(g, c.p.used, Blocks(TreeOf(c.disk, g.n, 0, blk)))
  {
  }

  /** The map and the blocks of the file after a direct block is filled. */
  lemma DirectFile(g: Geometry, used: set<nat>, disk: Disk, blocks: seq<nat>, disk1: Disk, k: nat, b: nat)
    requires g.n >= NDIR && |blocks| == NDIR + 3 && k < NDIR && blocks[k] == 0 && (b != 0 ==> b !in used)
    requires Good(g, used, FileBlocks(PartsOf(disk, g.n, blocks))) && SameOutside(disk, disk1, g.n, Taken(b))
    ensures var n, blocks1 := g.n, blocks[k := b];
            && k < MaxBlocks(n) && FileBlock(disk, n, blocks, k) == 0 && FileBlock(disk1, n, blocks1, k) == b
            && (forall j :: 0 <= j < MaxBlocks(n) && j != k ==>
                FileBlock(disk1, n, blocks1, j) == FileBlock(disk, n, blocks, j))
            && FileBlocks(PartsOf(disk1, n, blocks1)) == FileBlocks(PartsOf(disk, n, blocks)) + multiset(Taken(b))
  {
    hide Pow, RootStart, Lookup, TreeOf, FileBlock, FileBlocks, MaxBlocks, Good, PartsOf, SameOutside, SameRoots;
    var n, blocks1 := g.n, blocks[k := b];
    AtBounds(n, 0, k);
    FileBlockAt(disk, n, blocks, 0, k);
    FileBlockAt(disk1, n, blocks1, 0, k);
    DirectRoots(g, used, disk, blocks, disk1, Taken(b));
    forall j: nat | j < MaxBlocks(n) && j != k
      ensures FileBlock(disk1, n, blocks1, j) == FileBlock(disk, n, blocks, j)
    {
      var l, i := SplitIndex(n, j);
      FileBlockAt(disk, n, blocks, l, i);
      FileBlockAt(disk1, n, blocks1, l, i);
      if l > 0 {
        SameRoot(disk, disk1, n, blocks, l);
        SameLookup(disk, disk1, n, l, blocks[NDIR + l - 1], i);
      }
    }
    DirectParts(n, disk, blocks, disk1, k, b);
  }

  ghost predicate SameRoots(disk: Disk, disk1: Disk, n: nat, blocks: seq<nat>)
    requires |blocks| == NDIR + 3
  {
    && TreeOf(disk1, n, 1, blocks[NDIR]) == TreeOf(disk, n, 1, blocks[NDIR])
    && TreeOf(disk1, n, 2, blocks[NDIR + 1]) == TreeOf(disk, n, 2, blocks[NDIR + 1])
    && TreeOf(disk1, n, 3, blocks[NDIR + 2]) == TreeOf(disk, n, 3, blocks[NDIR + 2])
  }

  lemma SameRoot(disk: Disk, disk1: Disk, n: nat, blocks: seq<nat>, l: nat)
    requires |blocks| == NDIR + 3 && 1 <= l <= 3 && SameRoots(disk, disk1, n, blocks)
    ensures TreeOf(disk1, n, l, blocks[NDIR + l - 1]) == TreeOf(disk, n, l, blocks[NDIR + l - 1])
  {
    hide TreeOf;
  }

  /** New blocks are in no tree of the file. */
  lemma DirectRoots(g: Geometry, used: set<nat>, disk: Disk, blocks: seq<nat>, disk1: Disk, added: set<nat>)
    requires g.n >= NDIR && |blocks| == NDIR + 3 && used !! added
    requires Good(g, used, FileBlocks(PartsOf(disk, g.n, blocks))) && SameOutside(disk, disk1, g.n, added)
    ensures SameRoots(disk, disk1, g.n, blocks)
  {
    hide TreeOf, FileBlocks, SameOutside, Good, PartsOf;
    DirectRoot(g, used, disk, blocks, disk1, added, 1);
    DirectRoot(g, used, disk, blocks, disk1, added, 2);
    DirectRoot(g, used, disk, blocks, disk1, added, 3);
  }

  lemma DirectRoot(g: Geometry, used: set<nat>, disk: Disk, blocks: seq<nat>, disk1: Disk, added: set<nat>, l: nat)
    requires g.n >= NDIR && |blocks| == NDIR + 3 && used !! added && 1 <= l <= 3
    requires Good(g, used, FileBlocks(PartsOf(disk, g.n, blocks))) && SameOutside(disk, disk1, g.n, added)
    ensures TreeOf(disk1, g.n, l, blocks[NDIR + l - 1]) == TreeOf(disk, g.n, l, blocks[NDIR + l - 1])
  {
    hide TreeOf, KidsOf, Blocks, KidsBlocks, Inds, SameOutside, Unique, FileBlocks;
    var f := PartsOf(disk, g.n, blocks);
    var mine := Inds(l, TreeAt(f, l));
    IndsAreBlocks(l, TreeAt(f, l));
    forall b | b in mine
      ensures b !in added
    {
      InFile(f, l, b);
    }
    SameTree(disk, disk1, g.n, l, blocks[NDIR + l - 1], added);
  }

  lemma DirectParts(n: nat, disk: Disk, blocks: seq<nat>, disk1: Disk, k: nat, b: nat)
    requires n >= NDIR && |blocks| == NDIR + 3 && k < NDIR && blocks[k] == 0
    requires SameRoots(disk, disk1, n, blocks)
    ensures FileBlocks(PartsOf(disk1, n, blocks[k := b])) == FileBlocks(PartsOf(disk, n, blocks)) + multiset(Taken(b))
  {
    hide KidsOf, Blocks, KidsBlocks, TreeOf, FileBlocks;
    var f, f', direct := PartsOf(disk, n, blocks), PartsOf(disk1, n, blocks[k := b]), blocks[..NDIR];
    assert blocks[k := b][..NDIR] == direct[k := b];
    DataKids(disk, disk1, n, direct);
    KidAt(disk, n, 1, direct, k);
    DirectKids(disk1, n, direct, k, b);
    var t := TreeOf(disk1, n, 0, b);
    KidsBlocksPut(f.direct, k, t);
    LeafBlocks(disk1, n, b);
    LeafBlocks(disk, n, 0);
    TakenBlocks(b);
    var none: multiset<nat> := multiset{};
    assert KidsBlocks(f'.direct) + none == KidsBlocks(f'.direct);
    PartsGrow(f, f', multiset(Taken(b)), none, none, none, multiset(Taken(b)));
  }

  lemma TakenBlocks(b: nat)
    ensures multiset(Taken(b)) == if b == 0 then multiset{} else multiset{b}
  {
  }

  lemma DirectKids(disk: Disk, n: nat, direct: seq<nat>, k: nat, b: nat)
    requires k < |direct| <= n
    ensures KidsOf(disk, n, 1, direct[k := b]) == KidsOf(disk, n, 1, direct)[k := TreeOf(disk, n, 0, b)]
  {
    hide KidsOf, TreeOf;
    var after, want := KidsOf(disk, n, 1, direct[k := b]), KidsOf(disk, n, 1, direct)[k := TreeOf(disk, n, 0, b)];
    forall j | 0 <= j < |direct|
      ensures after[j] == want[j]
    {
      KidAt(disk, n, 1, direct[k := b], j);
      KidAt(disk, n, 1, direct, j);
    }
  }

  // ---------- part after part ----------

  /** Nothing found so far. */
  ghost predicate Halfway(g: Geometry, disk: Disk, blocks: seq<nat>, p: Expanding, s: InodeStep<Expanding>) {
    && s.blocks == blocks && s.ret == NOTHING && s.c.disk == disk && s.c.bcount > 0 && s.c.errcode == NoError
    && s.c.p == p.(last := s.c.p.last) && (s.c.p.last == 0 || s.c.p.last >= g.first)
  }

  ghost predicate PartFilled(disk: Disk, n: nat, blocks: seq<nat>, level: nat, to: nat)
    requires n > 0 && |blocks| == NDIR + 3
  {
    forall k :: 0 <= k < to ==> FileBlock(disk, n, blocks, At(n, level, k)) != 0
  }

  /** The hole was at index i of the level. */
  ghost predicate FoundAt(g: Geometry, disk: Disk, blocks: seq<nat>, p: Expanding, r: InodeStep<Expanding>, level: nat,
                          i: nat, added: set<nat>)
    requires g.n >= NDIR && |blocks| == NDIR + 3 == |r.blocks|
  {
    var n, idx := g.n, At(g.n, level, i);
    && level <= 3 && i < Width(n, level) && PartFilled(disk, n, blocks, level, i)
    && FileBlock(disk, n, blocks, idx) == 0
    && (forall j :: 0 <= j < MaxBlocks(n) && j != idx ==>
        FileBlock(r.c.disk, n, r.blocks, j) == FileBlock(disk, n, blocks, j))
    && FileBlocks(PartsOf(r.c.disk, n, r.blocks)) == FileBlocks(PartsOf(disk, n, blocks)) + multiset(added)
    && StateChange(g, p, r.c.p, added, true, FileBlock(r.c.disk, n, r.blocks, idx))
    && Filling(n, r.c, FileBlock(r.c.disk, n, r.blocks, idx))
    && r.ret.abort && !r.ret.error && (r.blocks == blocks || r.ret.changed)
  }

  lemma RootReady(g: Geometry, disk: Disk, blocks: seq<nat>, p: Expanding, s: InodeStep<Expanding>, level: nat)
    requires FileReady(g, disk, blocks, p) && Halfway(g, disk, blocks, p, s) && 1 <= level <= 3 && |p.content| == g.n
    ensures Ready(g, level, s.c, blocks[NDIR + level - 1])
  {
    hide Good, FileBlocks, TreeOf, Blocks, PartsOf;
    PartGood(g, disk, blocks, p, level);
  }

  lemma RootSearch(g: Geometry, disk: Disk, blocks: seq<nat>, p: Expanding, s: InodeStep<Expanding>, level: nat)
    returns (i: nat, added: set<nat>)
    requires FileReady(g, disk, blocks, p) && Halfway(g, disk, blocks, p, s) && 1 <= level <= 3 && |p.content| == g.n
    ensures var r := IterRoot(g, APPEND, ExpandProc(g), level, s);
            if i < Width(g.n, level) then FoundAt(g, disk, blocks, p, r, level, i, added)
            else Halfway(g, disk, blocks, p, r) && PartFilled(disk, g.n, blocks, level, Width(g.n, level))
  {
    hide IterNode, ExpandProc, Found, FileBlock, FileBlocks, MaxBlocks, Good, PartsOf, Pow, At, PartFilled, TreeOf,
         Blocks, Lookup;
    var at := NDIR + level - 1;
    RootReady(g, disk, blocks, p, s, level);
    i, added := NodeSearch(g, level, s.c, blocks[at]);
    var step := IterNode(g, APPEND, ExpandProc(g), level, s.c, blocks[at]);
    FoundFrom(g, level, s.c.(p := p), blocks[at], s.c, step.c, step.blk, i, added);
    if i < Width(g.n, level) {
      RootFound(g, disk, blocks, p, s.c.(p := p), step.c, step.blk, level, i, added);
    } else {
      RootFilled(g, disk, blocks, p, s.c.(p := p), step.c, step.blk, level, i, added);
      assert blocks[at := blocks[at]] == blocks;
    }
  }

  lemma RootFilled(g: Geometry, disk: Disk, blocks: seq<nat>, p: Expanding, c: Context<Expanding>,
                   c1: Context<Expanding>, blk1: nat, level: nat, i: nat, added: set<nat>)
    requires FileReady(g, disk, blocks, p) && 1 <= level <= 3 && c.disk == disk && c.p == p
    requires Found(g, level, c, blocks[NDIR + level - 1], c1, blk1, i, added) && i >= Width(g.n, level)
    ensures PartFilled(disk, g.n, blocks, level, Width(g.n, level)) && c1.disk == disk
    ensures blk1 == blocks[NDIR + level - 1]
    ensures c1.bcount > 0 && c1.errcode == NoError && c1.p == p.(last := c1.p.last)
    ensures (c1.p.last == 0 || c1.p.last >= g.first)
  {
    hide FileBlock, FileBlocks, Good, PartsOf, Pow, At, TreeChange, Lookup;
    forall k: nat | k < Width(g.n, level)
      ensures FileBlock(disk, g.n, blocks, At(g.n, level, k)) != 0
    {
      FileBlockAt(disk, g.n, blocks, level, k);
    }
  }

  lemma RootFound(g: Geometry, disk: Disk, blocks: seq<nat>, p: Expanding, c: Context<Expanding>,
                  c1: Context<Expanding>, blk1: nat, level: nat, i: nat, added: set<nat>)
    requires FileReady(g, disk, blocks, p) && 1 <= level <= 3 && c.disk == disk && c.p == p
    requires Found(g, level, c, blocks[NDIR + level - 1], c1, blk1, i, added) && i < Width(g.n, level)
    ensures FoundAt(g, disk, blocks, p, InodeStep(c1, blocks[NDIR + level - 1 := blk1], Ret(true, true, false)), level,
              i, added)
  {
    hide FileBlock, FileBlocks, Good, PartsOf, Pow, At, Lookup, MapChange, TreeOf, Blocks, Inds, SameOutside, MaxBlocks;
    var at, f := NDIR + level - 1, PartsOf(disk, g.n, blocks);
    StateDisjoint(g, p, c1.p, added, Lookup(c1.disk, g.n, level, blk1, i));
    RootMapping(g, p.used, level, disk, blocks, c1.disk, blk1, i, added);
    RootParts(g, p.used, level, disk, blocks, c1.disk, blk1, added);
    RootTree(disk, g.n, blocks, level);
    RootBlocks(f, level, TreeOf(c1.disk, g.n, level, blk1), added);
  }

  lemma StateDisjoint(g: Geometry, p: Expanding, p1: Expanding, added: set<nat>, newest: nat)
    requires StateChange(g, p, p1, added, true, newest)
    ensures p.used !! added
  {
  }

  lemma RootTree(disk: Disk, n: nat, blocks: seq<nat>, level: nat)
    requires n >= NDIR && |blocks| == NDIR + 3 && 1 <= level <= 3
    ensures TreeAt(PartsOf(disk, n, blocks), level) == TreeOf(disk, n, level, blocks[NDIR + level - 1])
  {
    hide TreeOf, KidsOf;
  }

  lemma DirectPartSearch(g: Geometry, disk: Disk, blocks: seq<nat>, p: Expanding) returns (i: nat, added: set<nat>)
    requires FileReady(g, disk, blocks, p) && blocks[0] != 0 && |p.content| == g.n
    ensures var r := IterDirect(APPEND, ExpandProc(g), Context(disk, p, 0, NoError), blocks, 0, NOTHING);
            if i < NDIR then FoundAt(g, disk, blocks, p, r, 0, i, added)
            else Halfway(g, disk, blocks, p, r) && PartFilled(disk, g.n, blocks, 0, NDIR)
  {
    hide IterDirect, ExpandProc, FileBlock, FileBlocks, MaxBlocks, Good, PartsOf, SameOutside;
    DirectInRange(g, disk, blocks, p);
    i := DirectSearch(g, Context(disk, p, 0, NoError), blocks, 0);
    var r := IterDirect(APPEND, ExpandProc(g), Context(disk, p, 0, NoError), blocks, 0, NOTHING);
    forall k: nat | k < i
      ensures FileBlock(disk, g.n, blocks, At(g.n, 0, k)) != 0
    {
      FileBlockAt(disk, g.n, blocks, 0, k);
    }
    added := {};
    if i < NDIR {
      added := Taken(r.blocks[i]);
      NewIsFree(g, p, r.c.p, r.blocks[i]);
      DirectFile(g, p.used, disk, blocks, r.c.disk, i, r.blocks[i]);
    }
  }

  lemma NewIsFree(g: Geometry, p: Expanding, p1: Expanding, b: nat)
    requires StateChange(g, p, p1, Taken(b), true, b)
    ensures b != 0 ==> b !in p.used
  {
  }

  lemma DirectInRange(g: Geometry, disk: Disk, blocks: seq<nat>, p: Expanding)
    requires FileReady(g, disk, blocks, p)
    ensures forall j :: 0 <= j < NDIR && blocks[j] != 0 ==> g.InRange(blocks[j])
  {
    hide KidsOf, KidsBlocks, Blocks, TreeOf, Unique;
    forall j: nat | j < NDIR && blocks[j] != 0
      ensures g.InRange(blocks[j])
    {
      var f := PartsOf(disk, g.n, blocks);
      KidAt(disk, g.n, 1, blocks[..NDIR], j);
      LeafBlocks(disk, g.n, blocks[j]);
      KidsInFile(f.direct, j, blocks[j]);
    }
  }

  /** The iteration of ext2fs_expand_dir over a file whose first block is mapped. */
  lemma ExpandSearch(g: Geometry, disk: Disk, blocks: seq<nat>, p: Expanding) returns (idx: nat, added: set<nat>)
    requires FileReady(g, disk, blocks, p) && blocks[0] != 0 && |p.content| == g.n
    ensures FileFound(g, disk, blocks, p, IterInode(g, APPEND, ExpandProc(g), disk, p, blocks), idx, added)
  {
    hide IterDirect, IterRoot, ExpandProc, Good, FileBlocks, PartsOf, FoundAt, Halfway, PartFilled, FileFound,
        Width, At;
    var f, i := ExpandProc(g), 0;
    var s := IterDirect(APPEND, f, Context(disk, p, 0, NoError), blocks, 0, NOTHING);
    i, added := DirectPartSearch(g, disk, blocks, p);
    WidthZero(g.n);
    if i < NDIR {
      Stopped(g, disk, blocks, p, s, 0, i, added);
      idx := LowestHole(g, disk, blocks, p, s, 0, i, added);
      return;
    }
    i, added := RootSearch(g, disk, blocks, p, s, 1);
    var s1 := IterRoot(g, APPEND, f, 1, s);
    if i < Width(g.n, 1) {
      Stopped(g, disk, blocks, p, s1, 1, i, added);
      idx := LowestHole(g, disk, blocks, p, s1, 1, i, added);
      return;
    }
    i, added := RootSearch(g, disk, blocks, p, s1, 2);
    var s2 := IterRoot(g, APPEND, f, 2, s1);
    if i < Width(g.n, 2) {
      Stopped(g, disk, blocks, p, s2, 2, i, added);
      idx := LowestHole(g, disk, blocks, p, s2, 2, i, added);
      return;
    }
    i, added := RootSearch(g, disk, blocks, p, s2, 3);
    var s3 := IterRoot(g, APPEND, f, 3, s2);
    if i < Width(g.n, 3) {
      idx := LowestHole(g, disk, blocks, p, s3, 3, i, added);
      return;
    }
    idx := NoHole(g, disk, blocks, p, s3);
    added := {};
  }

  lemma WidthZero(n: nat)
    ensures Width(n, 0) == NDIR
  {
  }

  /** After an abort the other parts are not looked at. */
  lemma Stopped(g: Geometry, disk: Disk, blocks: seq<nat>, p: Expanding, s: InodeStep<Expanding>, level: nat, i: nat,
                added: set<nat>)
    requires g.n >= NDIR && g.first <= g.count && |blocks| == NDIR + 3 == |s.blocks|
    requires FoundAt(g, disk, blocks, p, s, level, i, added)
    ensures forall l :: 1 <= l <= 3 ==> IterRoot(g, APPEND, ExpandProc(g), l, s) == s
  {
    hide ExpandProc, FileBlock, FileBlocks, PartsOf, PartFilled, IterNode, StateChange;
  }

  lemma LowestHole(g: Geometry, disk: Disk, blocks: seq<nat>, p: Expanding, r: InodeStep<Expanding>, level: nat, i: nat,
                   added: set<nat>)
    returns (idx: nat)
    requires FileReady(g, disk, blocks, p) && |r.blocks| == NDIR + 3 && FoundAt(g, disk, blocks, p, r, level, i, added)
    requires level > 0 ==> PartFilled(disk, g.n, blocks, 0, Width(g.n, 0))
    requires level > 1 ==> PartFilled(disk, g.n, blocks, 1, Width(g.n, 1))
    requires level > 2 ==> PartFilled(disk, g.n, blocks, 2, Width(g.n, 2))
    ensures FileFound(g, disk, blocks, p, r, idx, added)
  {
    hide FileBlock, FileBlocks, MaxBlocks, Good, PartsOf, At, StateChange, Width;
    idx := At(g.n, level, i);
    AtBounds(g.n, level, i);
    forall j: nat | j < idx
      ensures FileBlock(disk, g.n, blocks, j) != 0
    {
      var l, k := SplitIndex(g.n, j);
      AtOrder(g.n, level, i, l, k);
    }
  }

  lemma NoHole(g: Geometry, disk: Disk, blocks: seq<nat>, p: Expanding, r: InodeStep<Expanding>) returns (idx: nat)
    requires FileReady(g, disk, blocks, p) && Halfway(g, disk, blocks, p, r)
    requires PartFilled(disk, g.n, blocks, 0, Width(g.n, 0)) && PartFilled(disk, g.n, blocks, 1, Width(g.n, 1))
    requires PartFilled(disk, g.n, blocks, 2, Width(g.n, 2)) && PartFilled(disk, g.n, blocks, 3, Width(g.n, 3))
    ensures FileFound(g, disk, blocks, p, r, idx, {})
  {
    hide FileBlock, FileBlocks, MaxBlocks, Good, PartsOf, At, Width;
    idx := MaxBlocks(g.n);
    forall j: nat | j < idx
      ensures FileBlock(disk, g.n, blocks, j) != 0
    {
      var l, k := SplitIndex(g.n, j);
    }
    var none: set<nat> := {};
    assert multiset(none) == multiset{};
  }

  // ---------- ext2fs_expand_dir ----------

  /** A block of bytes as the iterator would read it. */
  function WordsIn(block: seq<Byte>): (r: seq<nat>)
    ensures |r| == |block| / 4
    ensures forall i :: 0 <= i < |r| ==> r[i] == U32(block, 4 * i)
  {
    seq(|block| / 4, i requires 0 <= i < |block| / 4 => U32(block, 4 * i))
  }

  /** Success, no free block, EXT2_ET_EXPAND_DIR_ERR. */
  datatype ExpandStatus = Expanded | NoSpaceLeft | NoHoleLeft

  lemma GoodGrows(g: Geometry, used: set<nat>, s: multiset<nat>, added: set<nat>)
    requires Good(g, used, s) && used !! added && forall b :: b in added ==> g.InRange(b)
    ensures Good(g, used + added, s + multiset(added))
  {
    forall b: nat
      ensures (s + multiset(added))[b] <= 1
    {
    }
  }

  /** A directory, the blocks in use, the counters, and the variable expand_dir_proc keeps between calls. */
  class Directory {
    const g: Geometry
    const blockSize: nat
    var disk: Disk
    var blocks: seq<nat>
    var used: set<nat>
    var free: Counters
    var size: nat
    var sectors: int
    var lastBlk: nat

    ghost predicate Valid()
      reads this
    {
      && blockSize < DirBlock.BLOCK_LIMIT && blockSize % 4 == 0 && g.n == blockSize / 4
      && FileReady(g, disk, blocks, Expanding(used, free, lastBlk, false, 0, false, []))
    }

    ghost function Maps(j: nat): nat
      requires Valid()
      reads this
    {
      FileBlock(disk, g.n, blocks, j)
    }

    ghost function Own(): multiset<nat>
      requires Valid()
      reads this
    {
      FileBlocks(PartsOf(disk, g.n, blocks))
    }

    /** ext2fs_expand_dir; `block` is the new directory block. */
    method ExpandDir() returns (status: ExpandStatus, ghost idx: nat, ghost added: set<nat>, ghost block: seq<Byte>)
      requires Valid() && blocks[0] != 0
      modifies this`disk, this`blocks, this`used, this`free, this`size, this`sectors, this`lastBlk
      ensures Valid() && used == old(used) + added && old(used) !! added && Own() == old(Own()) + multiset(added)
      ensures old(Counted(g, used, free)) ==> Counted(g, used, free)
      ensures idx <= MaxBlocks(g.n) && (forall j :: 0 <= j < idx ==> old(Maps(j)) != 0)
      ensures (idx < MaxBlocks(g.n) ==> old(Maps(idx)) == 0)
      ensures forall j :: 0 <= j < MaxBlocks(g.n) && j != idx ==> Maps(j) == old(Maps(j))
      ensures DirBlock.Tiled(block, 0) && |block| == blockSize && DirBlock.Live(DirBlock.Parse(block, 0)) == []
      ensures match status
              case Expanded =>
                && idx < MaxBlocks(g.n) && Maps(idx) in added && ReadInd(disk, Maps(idx), g.n) == WordsIn(block)
                && size == old(size) + blockSize && sectors == old(sectors) + blockSize / 512 * |added|
              case NoSpaceLeft =>
                && idx < MaxBlocks(g.n) && Maps(idx) == 0 && (forall b :: g.InRange(b) ==> b in used)
                && size == old(size) && sectors == old(sectors)
              case NoHoleLeft =>
                idx == MaxBlocks(g.n) && added == {} && size == old(size) && sectors == old(sectors)
    {
      hide ExpandProc, IterInode, FileBlock, FileBlocks, PartsOf, MaxBlocks, Good, Counted, WordsIn, DirBlock.Tiled,
           DirBlock.Parse, DirBlock.Live;
      var newBlock := DirBlock.NewDirBlock(blockSize, 0, 0, 0);
      block := newBlock;
      var content := WordsIn(newBlock);
      ghost var p0 := Expanding(used, free, lastBlk, false, 0, false, content);
      idx, added := ExpandSearch(g, disk, blocks, p0);
      var es := new BlockContext(g, APPEND, ExpandProc(g), disk,
          Expanding(used, free, lastBlk, false, 0, false, content));
      var newBlocks, ret := es.IterateInode(blocks);
      GoodGrows(g, used, FileBlocks(PartsOf(disk, g.n, blocks)), added);
      disk, used, free, lastBlk := es.disk, es.privData.used, es.privData.free, es.privData.last;
      if ret.changed {
        blocks := newBlocks;
      }
      if es.privData.err {
        return NoSpaceLeft, idx, added, block;
      }
      if !es.privData.done {
        return NoHoleLeft, idx, added, block;
      }
      size, sectors := size + blockSize, sectors + blockSize / 512 * es.privData.newblocks;
      status := Expanded;
    }
  }
}
