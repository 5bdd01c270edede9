/**
 Free space: bit operations on a byte array (bitops.c), a range-checked bitmap on top
 (gen_bitmap.c), the search for a free block or inode (alloc.c) and the counters kept
 beside the bitmap (alloc_stats.c).
 */
module FreeSpace {
  import opened Arith

  // ---------- single bits ----------

  function Mask(i: nat): bv8 {
    if i == 0 then 1 else if i == 1 then 2 else if i == 2 then 4 else if i == 3 then 8
    else if i == 4 then 16 else if i == 5 then 32 else if i == 6 then 64 else 128
  }

  predicate On(x: bv8, i: nat) {
    x & Mask(i) != 0
  }

  /** Bits are numbered from the least significant one of the byte on. */
  lemma OnIsShift(x: bv8, i: nat)
    requires i < 8
    ensures On(x, i) <==> (x >> i) & 1 == 1
  {
    match i
    case 0 | 1 | 2 | 3 | 4 | 5 | 6 | 7 =>
  }

  function Changed(x: bv8, i: nat, on: bool): bv8 {
    if on then x | Mask(i) else x & !Mask(i)
  }

  lemma ChangedExact(x: bv8, i: nat, on: bool, j: nat)
    requires i < 8 && j < 8
    ensures On(Changed(x, i, on), j) <==> if i == j then on else On(x, j)
  {
  }

  predicate TestBit(s: seq<bv8>, nr: nat) {
    nr / 8 < |s| && On(s[nr / 8], nr % 8)
  }

  lemma SameBit(k: nat, nr: nat)
    ensures k == nr <==> k / 8 == nr / 8 && k % 8 == nr % 8
  {
  }

  lemma ByteChange(s: seq<bv8>, nr: nat, on: bool, k: nat)
    requires nr / 8 < |s|
    ensures TestBit(s[nr / 8 := Changed(s[nr / 8], nr % 8, on)], k) <==> if k == nr then on else TestBit(s, k)
  {
    SameBit(k, nr);
    ChangedExact(s[nr / 8], nr % 8, on, k % 8);
    hide On, Changed;
  }

  /** ext2fs_set_bit */
  method SetBit(nr: nat, addr: array<bv8>) returns (was: bool)
    requires nr / 8 < addr.Length
    modifies addr
    ensures was == old(TestBit(addr[..], nr))
    ensures forall k: nat :: TestBit(addr[..], k) <==> k == nr || old(TestBit(addr[..], k))
  {
    ghost var before := addr[..];
    hide On, Changed;
    var at := nr / 8;
    was := On(addr[at], nr % 8);
    addr[at] := Changed(addr[at], nr % 8, true);
    assert addr[..] == before[at := Changed(before[at], nr % 8, true)];
    hide TestBit;
    forall k: nat
      ensures TestBit(addr[..], k) <==> k == nr || TestBit(before, k)
    {
      ByteChange(before, nr, true, k);
    }
  }

  /** ext2fs_clear_bit */
  method ClearBit(nr: nat, addr: array<bv8>) returns (was: bool)
    requires nr / 8 < addr.Length
    modifies addr
    ensures was == old(TestBit(addr[..], nr))
    ensures forall k: nat :: TestBit(addr[..], k) <==> k != nr && old(TestBit(addr[..], k))
  {
    ghost var before := addr[..];
    hide On, Changed;
    var at := nr / 8;
    was := On(addr[at], nr % 8);
    addr[at] := Changed(addr[at], nr % 8, false);
    assert addr[..] == before[at := Changed(before[at], nr % 8, false)];
    hide TestBit;
    forall k: nat
      ensures TestBit(addr[..], k) <==> k != nr && TestBit(before, k)
    {
      ByteChange(before, nr, false, k);
    }
  }

  predicate Marked(s: seq<bv8>, start: nat, k: nat) {
    k >= start && TestBit(s, k - start)
  }

  /** struct ext2fs_struct_generic_bitmap: bits for the numbers start .. end. */
  class Bitmap {
    const start: nat
    const end: nat
    const bits: array<bv8>

    constructor (start: nat, end: nat)
      requires start <= end
      ensures Valid() && this.start == start && this.end == end && fresh(bits) && Members() == {}
    {
      this.start, this.end := start, end;
      bits := new bv8[(end - start) / 8 + 1](_ => 0);
      new;
      assert forall k: nat :: !TestBit(bits[..], k) by {
        hide Mask;
      }
    }

    predicate Valid() {
      start <= end && (end - start) / 8 < bits.Length
    }

    ghost function Members(): set<nat>
      reads bits
    {
      set k | start <= k <= end && Marked(bits[..], start, k)
    }

    method Test(bitno: nat) returns (r: bool)
      requires Valid()
      ensures r == (bitno in Members())
    {
      hide On;
      if bitno < start || bitno > end { return false; }
      var nr := bitno - start;
      r := On(bits[nr / 8], nr % 8);
      assert r == Marked(bits[..], start, bitno);
    }

    /** ext2fs_mark_generic_bitmap: a number out of range changes nothing. */
    method Mark(bitno: nat) returns (was: bool)
      requires Valid()
      modifies bits
      ensures was == (bitno in old(Members()))
      ensures Members() == if start <= bitno <= end then old(Members()) + {bitno} else old(Members())
    {
      hide TestBit;
      if bitno < start || bitno > end { return false; }
      was := SetBit(bitno - start, bits);
    }

    /** ext2fs_unmark_generic_bitmap */
    method Unmark(bitno: nat) returns (was: bool)
      requires Valid()
      modifies bits
      ensures was == (bitno in old(Members()))
      ensures Members() == old(Members()) - {bitno}
    {
      hide TestBit;
      if bitno < start || bitno > end { return false; }
      was := ClearBit(bitno - start, bits);
    }
  }

  // ---------- counting ----------

  /** How many of the `n` numbers from `lo` on are free: not in use, and not past the end. */
  ghost function FreeIn(used: set<nat>, end: nat, lo: nat, n: nat): nat {
    if n == 0 then 0 else FreeIn(used, end, lo, n - 1) + if lo + n - 1 <= end && lo + n - 1 !in used then 1 else 0
  }

  ghost function Sum(s: seq<int>): int {
    if s == [] then 0 else Sum(s[..|s| - 1]) + s[|s| - 1]
  }

  lemma {:induction false} SumUpdate(s: seq<int>, i: nat, d: int)
    requires i < |s|
    ensures Sum(s[i := s[i] + d]) == Sum(s) + d
  {
    var t := s[i := s[i] + d];
    if i < |s| - 1 {
      SumUpdate(s[..|s| - 1], i, d);
      assert t[..|s| - 1] == s[..|s| - 1][i := s[i] + d];
    } else {
      assert t[..|s| - 1] == s[..|s| - 1];
    }
  }

  /** One number taken changes the count of a range by one, if it was free and in the range. */
  lemma {:induction false} FreeTake(used: set<nat>, end: nat, lo: nat, n: nat, k: nat)
    ensures FreeIn(used + {k}, end, lo, n) ==
            FreeIn(used, end, lo, n) - if lo <= k < lo + n && k <= end && k !in used then 1 else 0
  {
    if n > 0 {
      FreeTake(used, end, lo, n - 1, k);
    }
  }

  lemma {:induction false} FreeJoin(used: set<nat>, end: nat, lo: nat, n: nat, n': nat)
    ensures FreeIn(used, end, lo, n + n') == FreeIn(used, end, lo, n) + FreeIn(used, end, lo + n, n')
  {
    if n' > 0 {
      FreeJoin(used, end, lo, n, n' - 1);
    }
  }

  lemma {:induction false} FreeNone(used: set<nat>, end: nat, lo: nat, n: nat)
    ensures FreeIn(used, end, lo, n) == 0 <==> forall k :: lo <= k < lo + n && k <= end ==> k in used
  {
    if n > 0 {
      FreeNone(used, end, lo, n - 1);
    }
  }

  /** ext2fs_group_of_blk, ext2fs_group_of_ino: the group a number belongs to. */
  function GroupOf(start: nat, perGroup: nat, k: nat): nat
    requires perGroup > 0 && start <= k
  {
    (k - start) / perGroup
  }

  /** First number of group g. */
  function GroupStart(start: nat, perGroup: nat, g: nat): nat {
    start + g * perGroup
  }

  lemma InGroup(start: nat, perGroup: nat, k: nat, g: nat)
    requires perGroup > 0 && start <= k
    ensures GroupStart(start, perGroup, g) <= k < GroupStart(start, perGroup, g) + perGroup <==>
            g == GroupOf(start, perGroup, k)
  {
    var q := GroupOf(start, perGroup, k);
    assert k - start == q * perGroup + (k - start) % perGroup;
    if GroupStart(start, perGroup, g) <= k < GroupStart(start, perGroup, g) + perGroup {
      DivModUnique(k - start, perGroup, g, k - start - g * perGroup);
    }
  }

  /** Every group's counter is its number of free items. */
  ghost predicate GroupsAccounted(used: set<nat>, start: nat, end: nat, perGroup: nat, groupFree: seq<int>) {
    forall g :: 0 <= g < |groupFree| ==> groupFree[g] == FreeIn(used, end, GroupStart(start, perGroup, g), perGroup)
  }

  /** The counters after item `k` changes state: right again if, and only if, the bit really changed. */
  lemma GroupsAfter(used: set<nat>, start: nat, end: nat, perGroup: nat, groupFree: seq<int>, k: nat, take: bool)
    requires perGroup > 0 && start <= k && GroupOf(start, perGroup, k) < |groupFree|
    requires GroupsAccounted(used, start, end, perGroup, groupFree)
    ensures var g, d := GroupOf(start, perGroup, k), if take then -1 else 1;
            var used' := if k > end then used else if take then used + {k} else used - {k};
            GroupsAccounted(used', start, end, perGroup, groupFree[g := groupFree[g] + d]) <==>
                k <= end && (k in used) != take
  {
    hide GroupOf, FreeIn, GroupStart;
    var g, d := GroupOf(start, perGroup, k), if take then -1 else 1;
    var used' := if k > end then used else if take then used + {k} else used - {k};
    var after := groupFree[g := groupFree[g] + d];
    InGroup(start, perGroup, k, g);
    forall h | 0 <= h < |groupFree|
      ensures FreeIn(used', end, GroupStart(start, perGroup, h), perGroup) ==
              groupFree[h] + if h == g && k <= end && (k in used) != take then d else 0
    {
      InGroup(start, perGroup, k, h);
      FreeTake(used, end, GroupStart(start, perGroup, h), perGroup, k);
      FreeTake(used - {k}, end, GroupStart(start, perGroup, h), perGroup, k);
      assert used - {k} + {k} == used + {k};
      if k !in used { assert used - {k} == used; }
      if k in used { assert used + {k} == used; }
    }
    assert after[g] == groupFree[g] + d;
  }

  /** The block groups' counters add up to the number of free items. */
  lemma {:induction false} GroupsSum(used: set<nat>, start: nat, end: nat, perGroup: nat, groupFree: seq<int>)
    requires GroupsAccounted(used, start, end, perGroup, groupFree)
    ensures Sum(groupFree) == FreeIn(used, end, start, |groupFree| * perGroup)
  {
    hide FreeIn;
    var n := |groupFree|;
    if n > 0 {
      FrontAccounted(used, start, end, perGroup, groupFree);
      GroupsSum(used, start, end, perGroup, groupFree[..n - 1]);
      assert n * perGroup == (n - 1) * perGroup + perGroup;
      FreeJoin(used, end, start, (n - 1) * perGroup, perGroup);
    } else {
      FreeNothing(used, end, start);
    }
  }

  lemma FreeNothing(used: set<nat>, end: nat, start: nat)
    ensures FreeIn(used, end, start, 0) == 0
  {
  }

  lemma FrontAccounted(used: set<nat>, start: nat, end: nat, perGroup: nat, groupFree: seq<int>)
    requires GroupsAccounted(used, start, end, perGroup, groupFree) && groupFree != []
    ensures GroupsAccounted(used, start, end, perGroup, groupFree[..|groupFree| - 1])
    ensures groupFree[|groupFree| - 1] == FreeIn(used, end, start + (|groupFree| - 1) * perGroup, perGroup)
  {
    hide FreeIn;
    var front := groupFree[..|groupFree| - 1];
    forall g | 0 <= g < |front|
      ensures front[g] == FreeIn(used, end, GroupStart(start, perGroup, g), perGroup)
    {
      assert front[g] == groupFree[g];
    }
  }

  /** Blocks or inodes: a bitmap of those in use, the free counters of the groups, and the one in the superblock. */
  class FreeItems {
    const bitmap: Bitmap
    const perGroup: nat
    var groupFree: seq<int>
    var superFree: int

    constructor (bitmap: Bitmap, perGroup: nat, groupFree: seq<int>, superFree: int)
      requires bitmap.Valid() && perGroup > 0 && bitmap.end < GroupStart(bitmap.start, perGroup, |groupFree|)
      ensures Valid() && this.bitmap == bitmap && this.perGroup == perGroup
      ensures this.groupFree == groupFree && this.superFree == superFree
    {
      this.bitmap, this.perGroup, this.groupFree, this.superFree := bitmap, perGroup, groupFree, superFree;
    }

    /** Every item is in a group. */
    predicate Valid()
      reads this
    {
      bitmap.Valid() && perGroup > 0 && bitmap.end < GroupStart(bitmap.start, perGroup, |groupFree|)
    }

    /** The counters are right. */
    ghost predicate Accounted()
      reads this, bitmap.bits
    {
      GroupsAccounted(bitmap.Members(), bitmap.start, bitmap.end, perGroup, groupFree) && superFree == Sum(groupFree)
    }

    /** ext2fs_block_alloc_stats, ext2fs_inode_alloc_stats: the counters stay right if, and only if, the bit changes. */
    method AllocStats(k: nat, take: bool)
      requires Valid() && bitmap.start <= k && GroupOf(bitmap.start, perGroup, k) < |groupFree|
      modifies this`groupFree, this`superFree, bitmap.bits
      ensures Valid() && |groupFree| == old(|groupFree|)
      ensures bitmap.Members() ==
              if k > bitmap.end then old(bitmap.Members())
              else if take then old(bitmap.Members()) + {k} else old(bitmap.Members()) - {k}
      ensures superFree == old(superFree) + if take then -1 else 1
      ensures old(Accounted()) ==> (Accounted() <==> k <= bitmap.end && (k in old(bitmap.Members())) != take)
    {
      hide Bitmap.Members, GroupOf, GroupStart, GroupsAccounted, Sum;
      ghost var used := bitmap.Members();
      var group := GroupOf(bitmap.start, perGroup, k);
      var was;
      if take {
        was := bitmap.Mark(k);
      } else {
        if k > bitmap.end {
          OutOfMap(bitmap, k);
        }
        was := bitmap.Unmark(k);
      }
      var d := if take then -1 else 1;
      ghost var before := groupFree;
      groupFree := groupFree[group := groupFree[group] + d];
      superFree := superFree + d;
      SumUpdate(before, group, d);
      if GroupsAccounted(used, bitmap.start, bitmap.end, perGroup, before) {
        GroupsAfter(used, bitmap.start, bitmap.end, perGroup, before, k, take);
      }
    }

    /** Giving back, one after the other, distinct items in use. */
    method FreeAll(items: seq<nat>)
      requires Valid() && (forall i :: 0 <= i < |items| ==> items[i] in bitmap.Members())
      requires forall i, j :: 0 <= i < j < |items| ==> items[i] != items[j]
      modifies this`groupFree, this`superFree, bitmap.bits
      ensures Valid() && bitmap.Members() == old(bitmap.Members()) - (set x | x in items)
      ensures superFree == old(superFree) + |items| && (old(Accounted()) ==> Accounted())
    {
      hide Accounted, GroupOf, GroupStart;
      var i := 0;
      ghost var used := bitmap.Members();
      while i < |items|
        invariant 0 <= i <= |items| && Valid()
        invariant bitmap.Members() == used - (set x | x in items[..i])
        invariant superFree == old(superFree) + i && (old(Accounted()) ==> Accounted())
      {
        assert items[..i + 1] == items[..i] + [items[i]];
        InMap(bitmap, items[i]);
        GroupInRange(bitmap.start, perGroup, |groupFree|, bitmap.end, items[i]);
        hide Bitmap.Members;
        AllocStats(items[i], false);
        i := i + 1;
      }
      assert items[..i] == items;
    }

    /** Where ext2fs_new_block starts to look. */
    function StartOf(goal: nat): nat {
      if goal == 0 || goal > bitmap.end then bitmap.start else goal
    }

    /** Looking from `from` up, and on from the beginning after the end, one comes to k before x. */
    predicate Skipped(from: nat, x: nat, k: nat) {
      if x >= from then from <= k < x else k >= from || k < x
    }

    /** ext2fs_new_block: the first free block from the goal on; none only if none is free. */
    method NewBlock(goal: nat) returns (ok: bool, blk: nat)
      requires Valid() && (goal == 0 || goal >= bitmap.start)
      ensures ok ==> bitmap.start <= blk <= bitmap.end && blk !in bitmap.Members()
      ensures ok ==>
                var from := if goal == 0 || goal > bitmap.end then bitmap.start else goal;
                && (blk < from ==> forall k :: from <= k <= bitmap.end ==> k in bitmap.Members())
                && forall k :: (if blk < from then bitmap.start else from) <= k < blk ==> k in bitmap.Members()
      ensures !ok ==> forall k :: bitmap.start <= k <= bitmap.end ==> k in bitmap.Members()
    {
      hide Bitmap.Members;
      var from := StartOf(goal);
      ok, blk := Search(from, bitmap.start);
    }

    /** The search both functions make: up to the last item, then on from the first usable one. */
    method Search(from: nat, low: nat) returns (ok: bool, at: nat)
      requires bitmap.Valid() && bitmap.start <= low <= from <= bitmap.end
      ensures ok ==> low <= at <= bitmap.end && at !in bitmap.Members()
      ensures ok ==> forall k :: low <= k <= bitmap.end && Skipped(from, at, k) ==> k in bitmap.Members()
      ensures !ok ==> at == from && forall k :: low <= k <= bitmap.end ==> k in bitmap.Members()
    {
      hide Bitmap.Members;
      at := from;
      var taken := bitmap.Test(at);
      if !taken {
        return true, at;
      }
      at := if at == bitmap.end then low else at + 1;
      while at != from
        invariant low <= at <= bitmap.end
        invariant (at == from ==> forall k :: low <= k <= bitmap.end ==> k in bitmap.Members())
        invariant from in bitmap.Members()
        invariant (at != from ==> forall k :: low <= k <= bitmap.end && Skipped(from, at, k) ==> k in bitmap.Members())
        decreases if at > from then bitmap.end + 1 - at + from else if at < from then from - at else 0
      {
        taken := bitmap.Test(at);
        if !taken {
          return true, at;
        }
        at := if at == bitmap.end then low else at + 1;
      }
      ok := false;
    }

    /** ext2fs_new_inode: from the first inode of the directory's group on, never a reserved one. */
    method NewInode(dir: nat, firstIno: nat) returns (ok: bool, ino: nat)
      requires Valid() && bitmap.start == 1 && 1 <= firstIno <= bitmap.end && dir <= bitmap.end
      ensures ok ==> firstIno <= ino <= bitmap.end && ino !in bitmap.Members()
      ensures ok ==>
                var group := if dir == 0 then 1 else (dir - 1) / perGroup * perGroup + 1;
                var from := if group < firstIno then firstIno else group;
                && (ino < from ==> forall k :: from <= k <= bitmap.end ==> k in bitmap.Members())
                && forall k :: (if ino < from then firstIno else from) <= k < ino ==> k in bitmap.Members()
      ensures !ok ==> forall k :: firstIno <= k <= bitmap.end ==> k in bitmap.Members()
    {
      hide Bitmap.Members, GroupOf, GroupStart;
      DirGroupStart(perGroup, dir);
      var from := GroupStart(1, perGroup, if dir > 0 then GroupOf(1, perGroup, dir) else 0);
      if from < firstIno {
        from := firstIno;
      }
      ok, ino := Search(from, firstIno);
    }
  }

  lemma GroupInRange(start: nat, perGroup: nat, groups: nat, end: nat, k: nat)
    requires perGroup > 0 && start <= k <= end < GroupStart(start, perGroup, groups)
    ensures GroupOf(start, perGroup, k) < groups
  {
    InGroup(start, perGroup, k, GroupOf(start, perGroup, k));
    if GroupOf(start, perGroup, k) >= groups {
      MulMonotone(groups, GroupOf(start, perGroup, k), perGroup);
    }
  }

  lemma OutOfMap(bitmap: Bitmap, k: nat)
    requires k > bitmap.end
    ensures k !in bitmap.Members()
  {
  }

  lemma InMap(bitmap: Bitmap, k: nat)
    requires k in bitmap.Members()
    ensures bitmap.start <= k <= bitmap.end
  {
  }

  /** The first inode of the group of a directory, or of group 0 without one. */
  lemma DirGroupStart(perGroup: nat, dir: nat)
    requires perGroup > 0
    ensures var first := GroupStart(1, perGroup, if dir > 0 then GroupOf(1, perGroup, dir) else 0);
            && first == (if dir == 0 then 1 else (dir - 1) / perGroup * perGroup + 1)
            && first <= if dir == 0 then 1 else dir
  {
    if dir > 0 {
      InGroup(1, perGroup, dir, GroupOf(1, perGroup, dir));
    }
  }
}
