/**
 Inode reference counts (icount.c): a bitmap of the inodes with count one, a sorted list of other
 counts searched by interpolation, and an optional bitmap of the inodes in the list.
 */
module Icount {
  import opened FreeSpace

  /** struct ext2_icount_el; counts are 16 bits wide. */
  datatype El = El(ino: nat, count: nat)

  const U16_LIMIT := 0x1_0000

  datatype Status = Success | InvalidArgument

  ghost predicate Sorted(list: seq<El>) {
    && (forall i, j :: 0 <= i < j < |list| ==> list[i].ino < list[j].ino)
    && (forall i :: 0 <= i < |list| ==> list[i].count < U16_LIMIT)
  }

  /** The count the list holds for an inode; none is zero. */
  function ListCount(list: seq<El>, ino: nat): nat {
    if list == [] then 0
    else if list[0].ino == ino then list[0].count
    else ListCount(list[1..], ino)
  }

  ghost predicate Absent(list: seq<El>, ino: nat) {
    forall i :: 0 <= i < |list| ==> list[i].ino != ino
  }

  lemma {:induction false} ListCountAt(list: seq<El>, i: nat)
    requires Sorted(list) && i < |list|
    ensures ListCount(list, list[i].ino) == list[i].count
  {
    if i > 0 {
      assert list[0].ino < list[i].ino;
      ListCountAt(list[1..], i - 1);
    }
  }

  lemma {:induction false} ListCountAbsent(list: seq<El>, ino: nat)
    requires Absent(list, ino)
    ensures ListCount(list, ino) == 0
  {
    if list != [] {
      ListCountAbsent(list[1..], ino);
    }
  }

  /** The list with a zero count for a new inode. */
  function Inserted(list: seq<El>, pos: nat, ino: nat): seq<El>
    requires pos <= |list|
  {
    list[..pos] + [El(ino, 0)] + list[pos..]
  }

  /** Between the smaller and the larger inode numbers. */
  ghost predicate Place(list: seq<El>, pos: nat, ino: nat) {
    && pos <= |list|
    && (forall i :: 0 <= i < pos ==> list[i].ino < ino)
    && (forall i :: pos <= i < |list| ==> ino < list[i].ino)
  }

  lemma {:induction false} InsertedCounts(list: seq<El>, pos: nat, ino: nat, j: nat)
    requires Sorted(list) && Place(list, pos, ino)
    ensures ListCount(Inserted(list, pos, ino), j) == ListCount(list, j)
    decreases pos
  {
    var list' := Inserted(list, pos, ino);
    if pos == 0 {
      assert list' == [El(ino, 0)] + list && list'[1..] == list;
      if j == ino {
        ListCountAbsent(list, ino);
      }
    } else {
      assert list'[0] == list[0] && list'[1..] == Inserted(list[1..], pos - 1, ino);
      InsertedCounts(list[1..], pos - 1, ino, j);
    }
  }

  lemma InsertedSorted(list: seq<El>, pos: nat, ino: nat)
    requires Sorted(list) && Place(list, pos, ino)
    ensures Sorted(Inserted(list, pos, ino))
  {
  }

  lemma {:induction false} UpdatedCounts(list: seq<El>, i: nat, count: nat, j: nat)
    requires Sorted(list) && i < |list|
    ensures ListCount(list[i := El(list[i].ino, count)], j) == if j == list[i].ino then count else ListCount(list, j)
    decreases |list|
  {
    var list' := list[i := El(list[i].ino, count)];
    if i > 0 {
      assert list'[1..] == list[1..][i - 1 := El(list[i].ino, count)] && list[1..][i - 1] == list[i];
      UpdatedCounts(list[1..], i - 1, count, j);
      assert list[0].ino < list[i].ino;
    } else {
      assert list'[1..] == list[1..];
    }
  }

  /** struct ext2_icount without the tdb; `lastLookup` is the position of the last insertion. */
  class InodeCounts {
    const numInodes: nat
    const single: Bitmap
    const hasMultiple: bool
    const multiple: Bitmap
    var list: seq<El>
    var cursor: nat
    var lastLookup: nat

    constructor (numInodes: nat, hasMultiple: bool)
      requires numInodes > 0
      ensures Valid() && this.numInodes == numInodes && this.hasMultiple == hasMultiple
      ensures fresh(single.bits) && fresh(multiple.bits)
      ensures forall j :: Count(j) == 0
    {
      this.numInodes, this.hasMultiple := numInodes, hasMultiple;
      single := new Bitmap(1, numInodes);
      multiple := new Bitmap(1, numInodes);
      list, cursor, lastLookup := [], 0, 0;
    }

    ghost predicate Valid()
      reads this
    {
      && single.Valid() && multiple.Valid() && single.bits != multiple.bits
      && single.start == multiple.start == 1 && single.end == multiple.end == numInodes
      && Sorted(list)
    }

    /** The count of an inode. */
    ghost function Count(ino: nat): (n: nat)
      reads this, single.bits, multiple.bits
    {
      if ino in single.Members() then 1
      else if hasMultiple && ino !in multiple.Members() then 0
      else ListCount(list, ino)
    }

    /**
     get_icount_el without create: the position of an inode, wherever the cursor is and whatever pivots
     are chosen.
     */
    method Lookup(ino: nat) returns (found: bool, pos: nat)
      requires Sorted(list)
      modifies this`cursor
      ensures found ==> pos < |list| && list[pos].ino == ino
      ensures !found ==> Place(list, pos, ino)
    {
      if |list| == 0 {
        return false, 0;
      }
      if cursor >= |list| {
        cursor := 0;
      }
      if ino == list[cursor].ino {
        pos := cursor;
        cursor := cursor + 1;
        return true, pos;
      }
      var low, high := 0, |list| - 1;
      while low <= high
        invariant 0 <= low <= high + 1 <= |list|
        invariant forall i :: 0 <= i < low ==> list[i].ino < ino
        invariant forall i :: high < i < |list| ==> ino < list[i].ino
        decreases high - low
      {
        var mid :| low <= mid <= high;
        if ino == list[mid].ino {
          cursor := mid + 1;
          return true, mid;
        }
        if ino < list[mid].ino {
          high := mid - 1;
        } else {
          low := mid + 1;
        }
      }
      found, pos := false, low;
    }

    /** insert_icount_el: the inode is never the one last inserted, so a new element is made. */
    method InsertEl(ino: nat, pos: nat) returns (at: nat)
      requires Sorted(list) && Place(list, pos, ino)
      modifies this`list, this`lastLookup
      ensures at == pos && list == Inserted(old(list), pos, ino) && Sorted(list)
    {
      if lastLookup < |list| && list[lastLookup].ino == ino {
        return lastLookup;
      }
      InsertedSorted(list, pos, ino);
      list := Inserted(list, pos, ino);
      lastLookup, at := pos, pos;
    }

    /** get_icount_el with create */
    method LookupOrCreate(ino: nat) returns (pos: nat)
      requires Sorted(list)
      modifies this`list, this`cursor, this`lastLookup
      ensures Sorted(list) && pos < |list| && list[pos].ino == ino
      ensures forall j :: ListCount(list, j) == ListCount(old(list), j)
    {
      ghost var list0 := list;
      if |list| == 0 || ino > list[|list| - 1].ino {
        pos := InsertEl(ino, |list|);
        InsertedAll(list0, |list0|, ino);
        return;
      }
      var found;
      found, pos := Lookup(ino);
      if !found {
        InsertedAll(list0, pos, ino);
        pos := InsertEl(ino, pos);
      }
    }

    /** set_inode_count */
    method SetInodeCount(ino: nat, count: nat)
      requires Sorted(list) && count < U16_LIMIT
      modifies this`list, this`cursor, this`lastLookup
      ensures Sorted(list)
      ensures forall j :: ListCount(list, j) == if j == ino then count else ListCount(old(list), j)
    {
      var pos := LookupOrCreate(ino);
      UpdatedAll(list, pos, count);
      list := list[pos := El(list[pos].ino, count)];
    }

    /** get_inode_count */
    method GetInodeCount(ino: nat) returns (count: nat)
      requires Sorted(list)
      modifies this`cursor
      ensures count == ListCount(list, ino) && count < U16_LIMIT
    {
      var found, pos := Lookup(ino);
      if !found {
        ListCountAbsent(list, ino);
        return 0;
      }
      ListCountAt(list, pos);
      count := list[pos].count;
    }

    /** ext2fs_icount_fetch */
    method Fetch(ino: nat) returns (status: Status, count: nat)
      requires Valid()
      modifies this`cursor
      ensures status == if 1 <= ino <= numInodes then Success else InvalidArgument
      ensures status == Success ==> count == Count(ino)
    {
      hide Bitmap.Members, ListCount, Sorted;
      status, count := Success, 0;
      if ino == 0 || ino > numInodes {
        return InvalidArgument, 0;
      }
      var one := single.Test(ino);
      if one {
        return Success, 1;
      }
      if hasMultiple {
        var many := multiple.Test(ino);
        if !many {
          return Success, 0;
        }
      }
      count := GetInodeCount(ino);
    }

    /** ext2fs_icount_increment */
    method Increment(ino: nat) returns (status: Status, count: nat)
      requires Valid()
      modifies this, single.bits, multiple.bits
      ensures Valid() && status == if 1 <= ino <= numInodes then Success else InvalidArgument
      ensures status == InvalidArgument ==> forall j :: Count(j) == old(Count(j))
      ensures status == Success ==> count == (old(Count(ino)) + 1) % U16_LIMIT
      ensures status == Success ==> forall j :: Count(j) == if j == ino then count else old(Count(j))
      ensures multiple.Members() - {ino} == old(multiple.Members()) - {ino}
      ensures !hasMultiple ==> multiple.Members() == old(multiple.Members())
    {
      hide Bitmap.Members, ListCount, Sorted;
      status, count := Success, 0;
      if ino == 0 || ino > numInodes {
        return InvalidArgument, 0;
      }
      var ignore;
      var one := single.Test(ino);
      if one {
        SetInodeCount(ino, 2);
        count := 2;
        ignore := single.Unmark(ino);
      } else if hasMultiple {
        var many := multiple.Test(ino);
        if many {
          count := GetInodeCount(ino);
          count := (count + 1) % U16_LIMIT;
          SetInodeCount(ino, count);
        } else {
          ignore := single.Mark(ino);
          return Success, 1;
        }
      } else {
        count := GetInodeCount(ino);
        count := (count + 1) % U16_LIMIT;
        SetInodeCount(ino, count);
      }
      if hasMultiple {
        ignore := multiple.Mark(ino);
      }
    }

    /** ext2fs_icount_decrement */
    method Decrement(ino: nat) returns (status: Status, count: nat)
      requires Valid()
      modifies this, single.bits, multiple.bits
      ensures Valid() && (status == Success <==> 1 <= ino <= numInodes && old(Count(ino)) > 0)
      ensures status == InvalidArgument ==> forall j :: Count(j) == old(Count(j))
      ensures status == Success ==> count == old(Count(ino)) - 1
      ensures status == Success ==> forall j :: Count(j) == if j == ino then count else old(Count(j))
      ensures status == Success ==> (ino in single.Members() <==> count == 1)
      ensures multiple.Members() ==
              if status == Success && count == 0 && hasMultiple then old(multiple.Members()) - {ino}
              else old(multiple.Members())
    {
      hide Bitmap.Members, ListCount, Sorted;
      status, count := Success, 0;
      if ino == 0 || ino > numInodes {
        return InvalidArgument, 0;
      }
      var ignore;
      var one := single.Test(ino);
      if one {
        ignore := single.Unmark(ino);
        if hasMultiple {
          ignore := multiple.Unmark(ino);
        } else {
          SetInodeCount(ino, 0);
        }
        return Success, 0;
      }
      if hasMultiple {
        var many := multiple.Test(ino);
        if !many {
          return InvalidArgument, 0;
        }
      }
      count := GetInodeCount(ino);
      if count == 0 {
        return InvalidArgument, 0;
      }
      count := count - 1;
      SetInodeCount(ino, count);
      if count == 1 {
        ignore := single.Mark(ino);
      }
      if count == 0 && hasMultiple {
        ignore := multiple.Unmark(ino);
      }
    }

    /** ext2fs_icount_store */
    method Store(ino: nat, count: nat) returns (status: Status)
      requires Valid() && count < U16_LIMIT
      modifies this, single.bits, multiple.bits
      ensures Valid() && status == if 1 <= ino <= numInodes then Success else InvalidArgument
      ensures status == InvalidArgument ==> forall j :: Count(j) == old(Count(j))
      ensures status == Success ==> forall j :: Count(j) == if j == ino then count else old(Count(j))
      ensures status == Success ==> (ino in single.Members() <==> count == 1)
      ensures multiple.Members() ==
              if status != Success || !hasMultiple then old(multiple.Members())
              else if count > 1 then old(multiple.Members()) + {ino}
              else old(multiple.Members()) - {ino}
    {
      hide Bitmap.Members, ListCount, Sorted;
      if ino == 0 || ino > numInodes {
        return InvalidArgument;
      }
      status := Success;
      var ignore;
      if count == 1 {
        ignore := single.Mark(ino);
        if hasMultiple {
          ignore := multiple.Unmark(ino);
        }
        return;
      }
      if count == 0 {
        ignore := single.Unmark(ino);
        if hasMultiple {
          ignore := multiple.Unmark(ino);
        } else {
          SetInodeCount(ino, 0);
        }
        return;
      }
      SetInodeCount(ino, count);
      ignore := single.Unmark(ino);
      if hasMultiple {
        ignore := multiple.Mark(ino);
      }
    }
  }

  lemma InsertedAll(list: seq<El>, pos: nat, ino: nat)
    requires Sorted(list) && Place(list, pos, ino)
    ensures forall j :: ListCount(Inserted(list, pos, ino), j) == ListCount(list, j)
  {
    hide ListCount, Inserted;
    forall j
      ensures ListCount(Inserted(list, pos, ino), j) == ListCount(list, j)
    {
      InsertedCounts(list, pos, ino, j);
    }
  }

  lemma UpdatedAll(list: seq<El>, i: nat, count: nat)
    requires Sorted(list) && i < |list|
    ensures var list' := list[i := El(list[i].ino, count)];
            forall j :: ListCount(list', j) == if j == list[i].ino then count else ListCount(list, j)
  {
    hide ListCount, Sorted;
    var list' := list[i := El(list[i].ino, count)];
    forall j
      ensures ListCount(list', j) == if j == list[i].ino then count else ListCount(list, j)
    {
      UpdatedCounts(list, i, count, j);
    }
  }
}
