/**
 Adding a name to a whole directory and looking names up in it (link.c, lookup.c): a directory is the list
 of its entries in use.
 */
module DirOps {
  import opened Bytes
  import opened DirBlock
  import opened Wrappers

  /** The entries in use of a directory, from block i on. */
  ghost function EntriesFrom(blocks: seq<seq<Byte>>, i: nat): seq<Entry>
    requires GoodDir(blocks) && i <= |blocks|
    decreases |blocks| - i
  {
    if i == |blocks| then [] else Live(Parse(blocks[i], 0)) + EntriesFrom(blocks, i + 1)
  }

  lemma {:induction false} SameEntries(blocks: seq<seq<Byte>>, blocks': seq<seq<Byte>>, i: nat)
    requires GoodDir(blocks) && GoodDir(blocks') && |blocks'| == |blocks| && i <= |blocks|
    requires forall j :: i <= j < |blocks| ==> blocks'[j] == blocks[j]
    ensures EntriesFrom(blocks', i) == EntriesFrom(blocks, i)
    decreases |blocks| - i
  {
    hide GoodDir, Parse, Live;
    if i < |blocks| {
      SameEntries(blocks, blocks', i + 1);
    }
  }

  lemma WalkDirAt<P(!new)>(f: Callback<P>, includeEmpty: bool, blocks: seq<seq<Byte>>, i: nat, p: P)
    requires Sane(f) && Sized(blocks) && i < |blocks|
    ensures var w := Walk(f, includeEmpty, blocks[i], 0, p, false);
            var blocks' := blocks[i := if w.changed && w.outcome != Corrupt then w.buf else blocks[i]];
            WalkDir(f, includeEmpty, blocks, i, p) ==
            if w.outcome == Ended then WalkDir(f, includeEmpty, blocks', i + 1, w.p) else (blocks', w.p, w.outcome)
  {
    hide Walk, Sane;
  }

  lemma OneBlockOf(blocks: seq<seq<Byte>>, i: nat)
    requires GoodDir(blocks) && i < |blocks|
    ensures 0 < |blocks[i]| < BLOCK_LIMIT && Tiled(blocks[i], 0) && Sized(blocks)
  {
    hide Tiled;
  }

  lemma OneBlockChanged(blocks: seq<seq<Byte>>, i: nat, buf: seq<Byte>)
    requires GoodDir(blocks) && i < |blocks| && |buf| == |blocks[i]| && Tiled(buf, 0)
    ensures GoodDir(blocks[i := buf])
  {
    hide Tiled;
  }

  lemma EmptyWalk<P(!new)>(f: Callback<P>, includeEmpty: bool, blocks: seq<seq<Byte>>, p: P)
    requires Sane(f) && GoodDir(blocks)
    ensures Sized(blocks) && WalkDir(f, includeEmpty, blocks, |blocks|, p) == (blocks, p, Ended)
    ensures EntriesFrom(blocks, |blocks|) == []
  {
    hide Sane, Tiled;
  }

  // ---------- link ----------

  lemma AddsBefore(before: seq<Entry>, after: seq<Entry>, tail: seq<Entry>, k: nat, e: Entry)
    requires Adds(before, after, k, e, true)
    ensures Adds(before + tail, after + tail, k, e, true)
  {
    assert (before + tail)[..k] == before[..k] && (before + tail)[k..] == before[k..] + tail;
  }

  lemma NothingAdded(before: seq<Entry>, after: seq<Entry>, k: nat, e: Entry)
    requires Adds(before, after, k, e, false)
    ensures after == before
  {
  }

  ghost function EntryFor(ls: Name): Entry {
    Entry(ls.inode, ls.fileType, ls.text)
  }

  /** Blocks lo .. of a directory that link has passed over: no record of them has room for the name. */
  ghost predicate NoneHasRoom(ls: Name, blocks: seq<seq<Byte>>, lo: nat)
    requires GoodDir(blocks)
  {
    forall j :: lo <= j < |blocks| ==> NoRoom(ls, Parse(blocks[j], 0))
  }

  /** The walk of ext2fs_link from block i on: one entry more, or the same entries if nowhere is room. */
  lemma {:induction false} LinkWalks(ls: Name, blocks: seq<seq<Byte>>, i: nat) returns (k: nat)
    requires GoodName(ls) && GoodDir(blocks) && i <= |blocks|
    ensures Sane(LinkProc(ls)) && Sized(blocks)
    ensures var (out, done, outcome) := WalkDir(LinkProc(ls), true, blocks, i, false);
            && GoodDir(out) && |out| == |blocks| && outcome != Corrupt
            && (forall j :: 0 <= j < i ==> out[j] == blocks[j])
            && Adds(EntriesFrom(blocks, i), EntriesFrom(out, i), k, EntryFor(ls), done)
            && (!done ==> NoneHasRoom(ls, blocks, i))
    decreases |blocks| - i
  {
    hide Walk, WalkDir, Sane, LinkProc, Tiled, Parse, Live, LinkRecs, GoodDir, Adds, NoRoom, Formed, Sized;
    LinkSane(ls);
    if i == |blocks| {
      EmptyWalk(LinkProc(ls), true, blocks, false);
      AddsNothing([], EntryFor(ls));
      return 0;
    }
    OneBlockOf(blocks, i);
    WalkDirAt(LinkProc(ls), true, blocks, i, false);
    WalkLinks(ls, blocks[i], 0, false);
    ParseFormed(blocks[i], 0);
    var w, recs := Walk(LinkProc(ls), true, blocks[i], 0, false, false), Parse(blocks[i], 0);
    k := LinkAddsOne(ls, recs);
    var blocks1 := blocks[i := w.buf];
    OneBlockChanged(blocks, i, w.buf);
    SameEntries(blocks, blocks1, i + 1);
    if w.p {
      AddsBefore(Live(recs), Live(Parse(w.buf, 0)), EntriesFrom(blocks, i + 1), k, EntryFor(ls));
    } else {
      NothingAdded(Live(recs), Live(Parse(w.buf, 0)), k, EntryFor(ls));
      var k' := LinkWalks(ls, blocks1, i + 1);
      var (out, done, outcome) := WalkDir(LinkProc(ls), true, blocks1, i + 1, false);
      k := AddsAfter(Live(recs), EntriesFrom(blocks1, i + 1), EntriesFrom(out, i + 1), k', EntryFor(ls), done);
      assert out[i] == blocks1[i];
      assert !done ==> forall j :: i + 1 <= j < |blocks| ==> blocks1[j] == blocks[j];
    }
  }

  /** ext2fs_link: the name goes in once, between the entries there are, or nowhere if there is no room. */
  method Link(blocks: seq<seq<Byte>>, ls: Name) returns (blocks': seq<seq<Byte>>, rc: Status)
    requires GoodName(ls) && Sized(blocks)
    ensures Sane(LinkProc(ls))
    ensures var (out, done, outcome) := WalkDir(LinkProc(ls), true, blocks, 0, false);
            blocks' == out && rc == if outcome == Corrupt then DirCorrupted else if done then Success else DirNoSpace
    ensures GoodDir(blocks) ==>
              && GoodDir(blocks') && (rc == Success || rc == DirNoSpace)
              && (rc == DirNoSpace ==> EntriesFrom(blocks', 0) == EntriesFrom(blocks, 0) && NoneHasRoom(ls, blocks, 0))
              && (rc == Success ==>
                    exists k :: Adds(EntriesFrom(blocks, 0), EntriesFrom(blocks', 0), k, EntryFor(ls), true))
  {
    hide WalkDir, Sane, LinkProc, EntriesFrom, GoodDir, Sized, NoneHasRoom;
    LinkSane(ls);
    var done, outcome;
    blocks', done, outcome := DirIterate(LinkProc(ls), true, blocks, false);
    rc := if outcome == Corrupt then DirCorrupted else if done then Success else DirNoSpace;
    if GoodDir(blocks) {
      ghost var k := LinkWalks(ls, blocks, 0);
    }
  }

  // ---------- lookup ----------

  lemma {:induction false} NamedJoin(a: seq<Entry>, b: seq<Entry>, name: seq<Byte>)
    ensures FirstNamed(a + b, name) == if FirstNamed(a, name).Some? then FirstNamed(a, name) else FirstNamed(b, name)
  {
    if a == [] {
      assert a + b == b;
    } else {
      assert (a + b)[1..] == a[1..] + b;
      NamedJoin(a[1..], b, name);
    }
  }

  lemma {:induction false} LookupWalks(name: seq<Byte>, blocks: seq<seq<Byte>>, i: nat)
    requires GoodDir(blocks) && i <= |blocks|
    ensures Sane(LookupProc(name)) && Sized(blocks)
    ensures var (out, found, outcome) := WalkDir(LookupProc(name), false, blocks, i, None);
            out == blocks && found == FirstNamed(EntriesFrom(blocks, i), name) && outcome != Corrupt
    decreases |blocks| - i
  {
    hide Walk, WalkDir, Sane, LookupProc, Tiled, Parse, Live, GoodDir, Sized, FirstNamed;
    LookupSane(name);
    if i == |blocks| {
      EmptyWalk(LookupProc(name), false, blocks, None);
      NamedNowhere(name);
    } else {
      OneBlockOf(blocks, i);
      WalkDirAt(LookupProc(name), false, blocks, i, None);
      WalkLooksUp(name, blocks[i], 0);
      NamedJoin(Live(Parse(blocks[i], 0)), EntriesFrom(blocks, i + 1), name);
      assert blocks[i := blocks[i]] == blocks;
      LookupWalks(name, blocks, i + 1);
    }
  }

  lemma NamedNowhere(name: seq<Byte>)
    ensures FirstNamed([], name) == None
  {
  }

  /** ext2fs_lookup: the inode of the first entry in use with the name. */
  method Lookup(blocks: seq<seq<Byte>>, name: seq<Byte>) returns (inode: nat, rc: Status)
    requires Sized(blocks)
    ensures Sane(LookupProc(name))
    ensures rc == DirCorrupted <==> WalkDir(LookupProc(name), false, blocks, 0, None).2 == Corrupt
    ensures GoodDir(blocks) ==>
              var found := FirstNamed(EntriesFrom(blocks, 0), name);
              if found.Some? then rc == Success && inode == found.value else rc == FileNotFound
  {
    hide WalkDir, Sane, LookupProc, EntriesFrom, GoodDir, Sized, FirstNamed;
    LookupSane(name);
    var out, found, outcome := DirIterate(LookupProc(name), false, blocks, None);
    if GoodDir(blocks) {
      LookupWalks(name, blocks, 0);
    }
    if outcome == Corrupt {
      return 0, DirCorrupted;
    }
    inode, rc := if found.Some? then found.value else 0, if found.Some? then Success else FileNotFound;
  }

  /** A name linked for the first time is found from then on, and no other name is found differently. */
  lemma LinkedIsFound(before: seq<Entry>, after: seq<Entry>, k: nat, e: Entry, name: seq<Byte>)
    requires Adds(before, after, k, e, true) && FirstNamed(before, e.name) == None
    ensures FirstNamed(after, name) == if name == e.name then Some(e.inode) else FirstNamed(before, name)
  {
    hide FirstNamed;
    assert before == before[..k] + before[k..] && after == before[..k] + ([e] + before[k..]);
    NamedJoin(before[..k], before[k..], e.name);
    NamedJoin(before[..k], before[k..], name);
    NamedJoin(before[..k], [e] + before[k..], name);
    NamedFirst(e, before[k..], name);
  }
}
