/**
 The commit of a tdb transaction: save the old contents, mark them live, write the new
 contents, clear the mark.  Whenever it is cut short, recovery gives all of the old file or
 all of the new one, exactly if no part of the log that lies past the end of the file is lost.
 */
module TdbCommit {
  import opened Bytes
  import opened TdbOverlay
  import opened TdbDisk
  import opened TdbLog
  import opened TdbRecovery
  import opened TdbOverrun
  import opened Arith

  // ---------- growing the file ----------

  /** Every aligned word of `v` from `size` on is still zero or already padding. */
  ghost predicate PaddedFrom(v: seq<Byte>, size: nat) {
    forall off {:trigger U32(v, off)} ::
        size <= off && off % 4 == 0 && off + 4 <= |v| ==> U32(v, off) == 0 || U32(v, off) == PAD_WORD
  }

  /** `v` is `u` grown at its end, after a cut to `size` bytes in which padding may have replaced what was there. */
  ghost predicate GrownFrom(v: seq<Byte>, u: seq<Byte>, size: nat) {
    && size % 4 == 0 && size <= |u| <= |v|
    && (forall i :: 0 <= i < |u| ==> v[i] == u[i] || (size <= i && v[i] == PAD_BYTE))
    && (|u| == size ==> PaddedFrom(v, size))
  }

  ghost predicate GrownFromSome(v: seq<Byte>, vs: seq<seq<Byte>>, size: nat) {
    exists j :: 0 <= j < |vs| && GrownFrom(v, vs[j], size)
  }

  ghost predicate GrownState(s: DiskState, s0: DiskState, size: nat) {
    s.Valid() && forall k :: 0 <= k < |s.Versions()| ==> GrownFromSome(s.Versions()[k], s0.Versions(), size)
  }

  lemma ResizedIsGrown(u: seq<Byte>, n: nat, size: nat)
    requires size % 4 == 0 && size <= |u| <= n
    ensures GrownFrom(Resized(u, n), u, size)
  {
    var v := Resized(u, n);
    if |u| == size {
      forall off {:trigger U32(v, off)} | size <= off && off % 4 == 0 && off + 4 <= |v|
        ensures U32(v, off) == 0
      {
      }
    }
  }

  lemma SetLengthIsGrown(s: DiskState, n: nat, size: nat)
    requires s.Valid() && size % 4 == 0 && size <= |s.image| <= n
    ensures GrownState(s.SetLength(n), s, size)
  {
    var s' := s.SetLength(n);
    hide GrownFrom;
    forall k | 0 <= k < |s'.Versions()|
      ensures GrownFromSome(s'.Versions()[k], s.Versions(), size)
    {
      ResizedIsGrown(s.Versions()[k], n, size);
    }
  }

  lemma PadWord(v: seq<Byte>, off: nat)
    requires off + 4 <= |v| && v[off] == v[off + 1] == v[off + 2] == v[off + 3] == PAD_BYTE
    ensures U32(v, off) == PAD_WORD
  {
  }

  lemma PaddingIsGrown(v: seq<Byte>, u: seq<Byte>, size: nat, off: nat, n: nat)
    requires GrownFrom(v, u, size) && size <= off && off + n <= |v| && off % 4 == 0 && n % 4 == 0
    ensures GrownFrom(Splice(v, off, Pad(n)), u, size)
  {
    hide U32, Pad, PaddedFrom;
    if |u| == size {
      PaddingIsPadded(v, size, off, n);
    }
  }

  lemma PaddingIsPadded(v: seq<Byte>, size: nat, off: nat, n: nat)
    requires PaddedFrom(v, size) && off + n <= |v| && off % 4 == 0 && n % 4 == 0
    ensures PaddedFrom(Splice(v, off, Pad(n)), size)
  {
    hide U32, Pad, Splice;
    var r := Splice(v, off, Pad(n));
    forall at {:trigger U32(r, at)} | size <= at && at % 4 == 0 && at + 4 <= |r|
      ensures U32(r, at) == 0 || U32(r, at) == PAD_WORD
    {
      if off <= at < off + n {
        PadWord(r, at);
      } else {
        OtherWord(v, off, Pad(n), at);
      }
    }
  }

  lemma PadWriteIsGrown(s: DiskState, s0: DiskState, size: nat, off: nat, n: nat)
    requires GrownState(s, s0, size) && s0.Valid() && size <= off && off + n <= |s.image| && off % 4 == 0 && n % 4 == 0
    ensures GrownState(s.Write(off, Pad(n)), s0, size)
  {
    hide GrownFrom, PaddedFrom;
    var s' := s.Write(off, Pad(n));
    forall k | 0 <= k < |s'.Versions()|
      ensures GrownFromSome(s'.Versions()[k], s0.Versions(), size)
    {
      if k < |s.Versions()| {
        assert s'.Versions()[k] == s.Versions()[k];
      } else {
        assert s.Versions()[|s.earlier|] == s.image;
        var j :| 0 <= j < |s0.Versions()| && GrownFrom(s.image, s0.Versions()[j], size);
        PaddingIsGrown(s.image, s0.Versions()[j], size, off, n);
      }
    }
  }

  /** The file starts with `start` and then `done` bytes of padding. */
  ghost predicate PaddedUpTo(img: seq<Byte>, start: seq<Byte>, done: nat) {
    |start| + done <= |img| && img[..|start| + done] == start + Pad(done)
  }

  lemma PadSplice(s: seq<Byte>, start: seq<Byte>, done: nat, n: nat)
    requires PaddedUpTo(s, start, done) && |start| + done + n <= |s|
    ensures PaddedUpTo(Splice(s, |start| + done, Pad(n)), start, done + n)
  {
    var size, r := |start| + done, Splice(s, |start| + done, Pad(n));
    forall i | 0 <= i < size + n
      ensures r[i] == (start + Pad(done + n))[i]
    {
      if i < size {
        assert s[i] == s[..size][i];
      }
    }
  }

  /** From `from` on the trace holds nothing but states of the file grown to `n` bytes. */
  ghost predicate AllGrown(trace: seq<DiskState>, from: nat, s0: DiskState, size: nat, n: nat) {
    forall k :: from <= k < |trace| ==> GrownState(trace[k], s0, size) && |trace[k].image| == n
  }

  lemma NothingGrown(trace: seq<DiskState>, s0: DiskState, size: nat, n: nat)
    ensures AllGrown(trace, |trace|, s0, size, n)
  {
  }

  lemma MoreGrown(trace: seq<DiskState>, from: nat, s: DiskState, s0: DiskState, size: nat, n: nat)
    requires AllGrown(trace, from, s0, size, n) && GrownState(s, s0, size) && |s.image| == n
    ensures AllGrown(trace + [s], from, s0, size, n)
  {
    hide GrownState;
  }

  /** Since trace position `from`, where it was in state `s0`, the file has only been grown, from `size` on. */
  ghost predicate Growing(s: DiskState, trace: seq<DiskState>, from: nat, s0: DiskState, size: nat) {
    && s.Valid() && |trace| > 0 && s == trace[|trace| - 1]
    && GrownState(s, s0, size) && AllGrown(trace, from, s0, size, |s.image|)
  }

  lemma StartGrowing(trace: seq<DiskState>, s0: DiskState, size: nat, n: nat)
    requires s0.Valid() && size % 4 == 0 && size <= |s0.image| <= n
    ensures Growing(s0.SetLength(n), trace + [s0.SetLength(n)], |trace|, s0, size)
  {
    hide GrownState, AllGrown;
    SetLengthIsGrown(s0, n, size);
    NothingGrown(trace, s0, size, n);
    MoreGrown(trace, |trace|, s0.SetLength(n), s0, size, n);
  }

  lemma KeepGrowing(s: DiskState, trace: seq<DiskState>, from: nat, s0: DiskState, size: nat, off: nat, n: nat)
    requires Growing(s, trace, from, s0, size) && s0.Valid()
    requires size <= off && off + n <= |s.image| && off % 4 == 0 && n % 4 == 0
    ensures Growing(s.Write(off, Pad(n)), trace + [s.Write(off, Pad(n))], from, s0, size)
  {
    hide GrownState, AllGrown, Pad;
    PadWriteIsGrown(s, s0, size, off, n);
    MoreGrown(trace, from, s.Write(off, Pad(n)), s0, size, |s.image|);
  }

  function Piece(left: nat): (n: nat)
    requires left % 4 == 0
    ensures n <= left && n % 4 == 0 && (left - n) % 4 == 0 && (left > 0 ==> n > 0)
  {
    if left > 1024 then 1024 else left
  }

  /** tdb_expand_file: lengthen the file from `oldSize` on and fill the new part in pieces of at most 1024 bytes. */
  method ExpandFile(file: DiskFile, oldSize: nat, addition: nat)
    requires oldSize <= |file.image| <= oldSize + addition
    requires file.State().Valid() && oldSize % 4 == 0 && addition % 4 == 0
    modifies file
    ensures file.image == old(file.image)[..oldSize] + Pad(addition)
    ensures old(file.trace) < file.trace
    ensures Growing(file.State(), file.trace, old(|file.trace|), old(file.State()), oldSize)
  {
    hide GrownState, AllGrown, Growing, Pad, ZeroBytes, Resized, ResizedAll, Splice, Piece, PaddedUpTo;
    ghost var s0, from := file.State(), |file.trace|;
    ghost var start := file.image[..oldSize];
    PadNothing(file.image, oldSize, addition);
    StartGrowing(file.trace, s0, oldSize, oldSize + addition);
    file.SetLength(oldSize + addition);
    var left, size := addition, oldSize;
    while left > 0
      invariant 0 <= left <= addition && left % 4 == 0 && size == oldSize + addition - left
      invariant |file.image| == oldSize + addition && PaddedUpTo(file.image, start, addition - left)
      invariant old(file.trace) < file.trace && Growing(file.State(), file.trace, from, s0, oldSize)
    {
      var n := Piece(left);
      KeepGrowing(file.State(), file.trace, from, s0, oldSize, size, n);
      PadSplice(file.image, start, addition - left, n);
      file.Write(size, Pad(n));
      left, size := left - n, size + n;
    }
    PaddedToEnd(file.image, start, addition);
  }

  lemma PadNothing(img: seq<Byte>, size: nat, n: nat)
    requires size <= |img| <= size + n
    ensures PaddedUpTo(Resized(img, size + n), img[..size], 0)
  {
    assert Resized(img, size + n)[..size] == img[..size];
  }

  lemma PaddedToEnd(img: seq<Byte>, start: seq<Byte>, n: nat)
    requires PaddedUpTo(img, start, n) && |img| == |start| + n
    ensures img == start + Pad(n)
  {
    assert img[..|img|] == img;
  }

  // ---------- what growing keeps ----------

  lemma FreshGrown(v: seq<Byte>, u: seq<Byte>, c: Commit, oldHead: nat)
    requires GrownFrom(v, u, |u|) && Fresh(u, c, oldHead) && c.head % 4 == 0 && c.area >= REC_SIZE && |v| % 4 == 0
    requires |v| <= c.head || c.head + c.area <= |v|
    ensures Fresh(v, c, oldHead)
  {
    hide U32, PaddedFrom;
    assert u <= v;
    PrefixWord(v, u, RECOVERY_HEAD);
    if oldHead != 0 {
      PrefixWord(v, u, oldHead + MAGIC_OFS);
    }
    if c.head + REC_SIZE <= |u| {
      PrefixWord(v, u, c.head + MAGIC_OFS);
      PrefixWord(v, u, c.head + 4);
    } else if c.head + REC_SIZE <= |v| {
      PaddedWord(v, |u|, c.head + MAGIC_OFS);
      PaddedWord(v, |u|, c.head + 4);
    }
  }

  lemma PrefixWord(v: seq<Byte>, u: seq<Byte>, off: nat)
    requires u <= v && off + 4 <= |u|
    ensures U32(v, off) == U32(u, off)
  {
    hide U32;
    assert v[off..off + 4] == u[off..off + 4];
    U32Same(v, u, off, off);
  }

  lemma PaddedWord(v: seq<Byte>, size: nat, off: nat)
    requires PaddedFrom(v, size) && size <= off && off % 4 == 0 && off + 4 <= |v|
    ensures U32(v, off) == 0 || U32(v, off) == PAD_WORD
  {
  }

  lemma LiveGrown(v: seq<Byte>, u: seq<Byte>, c: Commit, size: nat)
    requires c.Valid() && GrownFrom(v, u, size) && Live(u, c) && |v| % 4 == 0
    requires |c.before| <= size && c.head + REC_SIZE <= size && PaddedLogFrom(c, size)
    ensures Live(v, c)
  {
    hide U32, EncodeLog, EncodeU32, EncodeRecord, PaddedFrom, Commit.Saved, Covered;
    SameWords(v, u, RECOVERY_HEAD);
    var body, log := c.Body(RECOVERY_MAGIC), EncodeLog(c.entries);
    forall i | 0 <= i < |body|
      ensures v[c.head..c.head + |body|][i] == body[i]
    {
      assert u[c.head + i] == u[c.head..c.head + |body|][i] == body[i];
      if i >= REC_SIZE {
        assert body[i] == log[i - REC_SIZE];
      }
    }
  }

  lemma SameWords(v: seq<Byte>, u: seq<Byte>, off: nat)
    requires off + 4 <= |v| && off + 4 <= |u| && forall i :: off <= i < off + 4 ==> v[i] == u[i]
    ensures U32(v, off) == U32(u, off)
  {
    hide U32;
    assert v[off..off + 4] == u[off..off + 4];
    U32Same(v, u, off, off);
  }

  ghost predicate FreshState(s: DiskState, c: Commit, oldHead: nat) {
    s.Valid() && forall k :: 0 <= k < |s.Versions()| ==> Fresh(s.Versions()[k], c, oldHead)
  }

  lemma FreshGrownState(s: DiskState, s0: DiskState, c: Commit, oldHead: nat)
    requires GrownState(s, s0, |s0.image|) && FreshState(s0, c, oldHead) && c.head % 4 == 0 && c.area >= REC_SIZE
    requires |s.image| % 4 == 0 && (|s.image| <= c.head || c.head + c.area <= |s.image|)
    ensures FreshState(s, c, oldHead)
  {
    hide GrownFrom, Fresh;
    assert s.Versions()[|s.earlier|] == s.image;
    forall k | 0 <= k < |s.Versions()|
      ensures Fresh(s.Versions()[k], c, oldHead)
    {
      assert GrownFromSome(s.Versions()[k], s0.Versions(), |s0.image|);
      var j :| 0 <= j < |s0.Versions()| && GrownFrom(s.Versions()[k], s0.Versions()[j], |s0.image|);
      FreshGrown(s.Versions()[k], s0.Versions()[j], c, oldHead);
    }
  }

  lemma GrowthIsFresh(trace: seq<DiskState>, from: nat, s: DiskState, s0: DiskState, c: Commit, oldHead: nat)
    requires FreshState(s0, c, oldHead) && c.head % 4 == 0 && c.area >= REC_SIZE
    requires from < |trace| && Growing(s, trace, from, s0, |s0.image|)
    requires |s.image| % 4 == 0 && c.head + c.area <= |s.image|
    ensures FreshState(s, c, oldHead) && forall k :: from <= k < |trace| ==> FreshState(trace[k], c, oldHead)
  {
    hide GrownState, FreshState;
    forall k | from <= k < |trace|
      ensures FreshState(trace[k], c, oldHead)
    {
      FreshGrownState(trace[k], s0, c, oldHead);
    }
  }

  lemma LiveGrownState(s: DiskState, s0: DiskState, c: Commit, size: nat)
    requires c.Valid() && GrownState(s, s0, size) && LiveState(s0, c) && |s.image| % 4 == 0
    requires |c.before| <= size && c.head + REC_SIZE <= size && PaddedLogFrom(c, size)
    ensures LiveState(s, c)
  {
    hide GrownFrom, Live, PaddedLogFrom, Commit.Valid;
    assert s.Versions()[|s.earlier|] == s.image;
    forall k | 0 <= k < |s.Versions()|
      ensures Live(s.Versions()[k], c)
    {
      assert GrownFromSome(s.Versions()[k], s0.Versions(), size);
      var j :| 0 <= j < |s0.Versions()| && GrownFrom(s.Versions()[k], s0.Versions()[j], size);
      LiveGrown(s.Versions()[k], s0.Versions()[j], c, size);
    }
  }

  /** A log that passes the end of the file lengthens it first. */
  lemma FreshLengthened(s: DiskState, c: Commit, oldHead: nat, n: nat)
    requires c.Valid() && c.Straddles() && FreshState(s, c, oldHead) && |s.image| <= n
    ensures FreshState(s.SetLength(n), c, oldHead)
  {
    hide Fresh, Commit.Valid, Commit.Straddles;
    var s' := s.SetLength(n);
    assert s.Versions()[|s.earlier|] == s.image;
    forall k | 0 <= k < |s'.Versions()|
      ensures Fresh(s'.Versions()[k], c, oldHead)
    {
      assert s'.Versions()[k] == Resized(s.Versions()[k], n);
      FreshResized(s.Versions()[k], c, oldHead, n);
    }
  }

  lemma FreshResized(u: seq<Byte>, c: Commit, oldHead: nat, n: nat)
    requires c.Valid() && c.Straddles() && Fresh(u, c, oldHead) && |u| <= n
    ensures Fresh(Resized(u, n), c, oldHead)
  {
    hide U32, EncodeLog;
    ResizedWord(u, n, RECOVERY_HEAD);
    if oldHead != 0 {
      ResizedWord(u, n, oldHead + MAGIC_OFS);
    }
    ResizedWord(u, n, c.head + MAGIC_OFS);
    ResizedWord(u, n, c.head + 4);
  }

  // ---------- the two writes before the log is marked ----------

  lemma FreshWrite(s: DiskState, c: Commit, oldHead: nat, off: nat, data: seq<Byte>)
    requires FreshState(s, c, oldHead) && off + |data| <= |s.image|
    requires Fresh(Splice(s.image, off, data), c, oldHead)
    ensures FreshState(s.Write(off, data), c, oldHead)
  {
    hide Fresh;
    var s' := s.Write(off, data);
    assert forall k :: 0 <= k < |s.Versions()| ==> s'.Versions()[k] == s.Versions()[k];
  }

  lemma FreshHeadWritten(img: seq<Byte>, c: Commit, oldHead: nat)
    requires Fresh(img, c, oldHead) && RECOVERY_HEAD + 4 <= c.head < U32_LIMIT && c.head + REC_SIZE <= |img|
    requires oldHead != 0 ==> oldHead >= RECOVERY_HEAD + 4
    ensures Fresh(Splice(img, RECOVERY_HEAD, EncodeU32(c.head)), c, oldHead)
    ensures U32(Splice(img, RECOVERY_HEAD, EncodeU32(c.head)), RECOVERY_HEAD) == c.head
  {
    hide U32, EncodeU32;
    var e := EncodeU32(c.head);
    var r := Splice(img, RECOVERY_HEAD, e);
    assert r[RECOVERY_HEAD..RECOVERY_HEAD + 4] == e;
    EncodedWord(r, RECOVERY_HEAD, c.head);
    OtherWord(img, RECOVERY_HEAD, e, c.head + MAGIC_OFS);
    OtherWord(img, RECOVERY_HEAD, e, c.head + 4);
    if oldHead != 0 {
      OtherWord(img, RECOVERY_HEAD, e, oldHead + MAGIC_OFS);
    }
  }

  lemma FreshHeadState(s: DiskState, c: Commit, oldHead: nat)
    requires FreshState(s, c, oldHead)
    requires RECOVERY_HEAD + 4 <= c.head < U32_LIMIT && c.head + REC_SIZE <= |s.image|
    requires oldHead != 0 ==> oldHead >= RECOVERY_HEAD + 4
    ensures RECOVERY_HEAD + 4 <= |s.image|
    ensures FreshState(s.Write(RECOVERY_HEAD, EncodeU32(c.head)), c, oldHead)
    ensures HeadWord(s.Write(RECOVERY_HEAD, EncodeU32(c.head)).image) == c.head
  {
    hide U32, EncodeU32;
    assert s.Versions()[|s.earlier|] == s.image;
    FreshHeadWritten(s.image, c, oldHead);
    FreshWrite(s, c, oldHead, RECOVERY_HEAD, EncodeU32(c.head));
  }

  lemma FreshBlobWritten(img: seq<Byte>, c: Commit, oldHead: nat)
    requires c.Valid() && Fresh(img, c, oldHead) && c.head + REC_SIZE + c.DataLen() <= |img|
    requires oldHead != 0 ==> oldHead == c.head || oldHead + REC_SIZE <= c.head
    ensures Fresh(Splice(img, c.head, c.Blob(0)), c, oldHead)
    ensures HasBody(Splice(img, c.head, c.Blob(0)), c, 0)
    ensures U32(Splice(img, c.head, c.Blob(0)), RECOVERY_HEAD) == U32(img, RECOVERY_HEAD)
  {
    hide U32, EncodeU32, EncodeRecord, EncodeLog;
    var r, blob, body := Splice(img, c.head, c.Blob(0)), c.Blob(0), c.Body(0);
    assert r[c.head..c.head + |body|] == body;
    BodyParts(c, r, 0);
    OtherWord(img, c.head, blob, RECOVERY_HEAD);
    if oldHead != 0 && oldHead != c.head {
      OtherWord(img, c.head, blob, oldHead + MAGIC_OFS);
    }
  }

  /** Setting the magic of a complete, synced log makes it live. */
  lemma MagicMakesLive(img: seq<Byte>, c: Commit, oldHead: nat)
    requires c.Valid() && Fresh(img, c, oldHead) && HasBody(img, c, 0) && U32(img, RECOVERY_HEAD) == c.head
    ensures Live(Splice(img, c.head + MAGIC_OFS, EncodeU32(RECOVERY_MAGIC)), c)
  {
    hide U32, EncodeLog;
    var e := EncodeU32(RECOVERY_MAGIC);
    var r, body := Splice(img, c.head + MAGIC_OFS, e), c.Body(RECOVERY_MAGIC);
    OtherWord(img, c.head + MAGIC_OFS, e, RECOVERY_HEAD);
    BodyMagic(c);
    hide EncodeU32, EncodeRecord, Commit.Body;
    forall i | 0 <= i < |body|
      ensures r[c.head..c.head + |body|][i] == body[i]
    {
      assert img[c.head..c.head + |body|][i] == img[c.head + i];
    }
  }

  lemma BodyMagic(c: Commit)
    requires c.Encodable()
    ensures forall i :: 0 <= i < |c.Body(0)| ==>
              c.Body(RECOVERY_MAGIC)[i] ==
              if MAGIC_OFS <= i < MAGIC_OFS + 4 then EncodeU32(RECOVERY_MAGIC)[i - MAGIC_OFS] else c.Body(0)[i]
  {
    hide EncodeU32, EncodeLog;
  }

  // ---------- the ranges to save ----------

  /** The old contents of every element that lies in the old file. */
  ghost function OldEntries(els: seq<Element>, base: seq<Byte>): (r: seq<Element>)
    requires NoneStraddles(els, |base|)
  {
    if els == [] then []
    else
      var front, last := els[..|els| - 1], els[|els| - 1];
      assert NoneStraddles(front, |base|);
      if last.offset >= |base| then OldEntries(front, base)
      else OldEntries(front, base) + [OldEntry(last, base)]
  }

  ghost function OldEntry(el: Element, base: seq<Byte>): Element
    requires el.End() <= |base|
  {
    Element(el.offset, base[el.offset..el.End()])
  }

  ghost predicate NotCovered(els: seq<Element>, lo: nat, hi: nat) {
    forall i :: lo <= i < hi ==> !Covered(els, i)
  }

  lemma ElementApart(els: seq<Element>, k: nat, lo: nat, hi: nat)
    requires k < |els| && |els[k].data| > 0 && lo < hi && NotCovered(els, lo, hi)
    ensures els[k].End() <= lo || hi <= els[k].offset
  {
    var el := els[k];
    if el.offset < hi && lo < el.End() {
      var i := if lo < el.offset then el.offset else lo;
      assert el.Covers(i);
      assert Covered(els, i);
    }
  }

  lemma {:induction false} OldEntriesSaved(els: seq<Element>, c: Commit)
    requires Sound(els, |c.before|) && c.area > 0
    requires c.entries == OldEntries(els, c.before)
    requires NotCovered(els, RECOVERY_HEAD, RECOVERY_HEAD + 4) && NotCovered(els, c.head, c.head + c.area)
    ensures forall k :: 0 <= k < |c.entries| ==> c.Saved(c.entries[k])
  {
    if els != [] {
      var front, last := els[..|els| - 1], els[|els| - 1];
      FrontKeeps(els, |c.before|, RECOVERY_HEAD, RECOVERY_HEAD + 4);
      FrontKeeps(els, |c.before|, c.head, c.head + c.area);
      OldEntriesSaved(front, c.(entries := OldEntries(front, c.before)));
      ElementApart(els, |els| - 1, RECOVERY_HEAD, RECOVERY_HEAD + 4);
      ElementApart(els, |els| - 1, c.head, c.head + c.area);
    }
  }

  lemma FrontKeeps(els: seq<Element>, m: nat, lo: nat, hi: nat)
    requires els != [] && Sound(els, m) && NotCovered(els, lo, hi)
    ensures Sound(els[..|els| - 1], m) && NotCovered(els[..|els| - 1], lo, hi)
  {
    var front := els[..|els| - 1];
    forall i | lo <= i < hi
      ensures !Covered(front, i)
    {
      CoveredFront(els, i);
    }
  }

  lemma CoveredFront(els: seq<Element>, i: int)
    requires els != []
    ensures Covered(els[..|els| - 1], i) ==> Covered(els, i)
  {
    var front := els[..|els| - 1];
    if Covered(front, i) {
      var k :| 0 <= k < |front| && front[k].Covers(i);
      assert els[k].Covers(i);
    }
  }

  lemma {:induction false} OldEntriesCover(els: seq<Element>, base: seq<Byte>, k: nat, i: nat)
    requires NoneStraddles(els, |base|) && k < |els| && els[k].Covers(i) && i < |base|
    ensures Covered(OldEntries(els, base), i)
  {
    var front, last := els[..|els| - 1], els[|els| - 1];
    var es := OldEntries(els, base);
    if k < |front| {
      OldEntriesCover(front, base, k, i);
      var j :| 0 <= j < |OldEntries(front, base)| && OldEntries(front, base)[j].Covers(i);
      assert es[j] == OldEntries(front, base)[j];
    } else {
      assert es[|es| - 1].Covers(i);
    }
  }

  lemma {:induction false} OldEntriesFit(els: seq<Element>, base: seq<Byte>)
    requires NoneStraddles(els, |base|) && |base| < U32_LIMIT
    ensures EntriesFit(OldEntries(els, base))
  {
    if els != [] {
      assert NoneStraddles(els[..|els| - 1], |base|);
      OldEntriesFit(els[..|els| - 1], base);
    }
  }

  lemma OldEntriesStep(els: seq<Element>, base: seq<Byte>, k: nat)
    requires NoneStraddles(els, |base|) && k < |els|
    ensures NoneStraddles(els[..k], |base|) && NoneStraddles(els[..k + 1], |base|)
    ensures OldEntries(els[..k + 1], base) ==
            if els[k].offset >= |base| then OldEntries(els[..k], base)
            else OldEntries(els[..k], base) + [OldEntry(els[k], base)]
  {
    hide OldEntry, NoneStraddles;
    var upto := els[..k + 1];
    StraddlesPrefix(els, |base|, k);
    StraddlesPrefix(els, |base|, k + 1);
    assert upto[..k] == els[..k];
  }

  lemma StraddlesPrefix(els: seq<Element>, m: nat, k: nat)
    requires NoneStraddles(els, m) && k <= |els|
    ensures NoneStraddles(els[..k], m) && (k < |els| && els[k].offset < m ==> els[k].End() <= m)
  {
  }

  lemma EncodeLogStep(es: seq<Element>, el: Element)
    requires EntriesFit(es) && el.offset < U32_LIMIT && |el.data| < U32_LIMIT
    ensures EntriesFit(es + [el])
    ensures EncodeLog(es + [el]) == EncodeLog(es) + EncodeEntry(el)
  {
    assert (es + [el])[..|es|] == es;
  }

  lemma OldLogStep(els: seq<Element>, base: seq<Byte>, k: nat)
    requires NoneStraddles(els, |base|) && k < |els| && |base| < U32_LIMIT
    ensures NoneStraddles(els[..k], |base|) && NoneStraddles(els[..k + 1], |base|)
    ensures els[k].offset < |base| ==> els[k].End() <= |base| && |OldEntry(els[k], base).data| == |els[k].data|
    ensures EntriesFit(OldEntries(els[..k], base)) && EntriesFit(OldEntries(els[..k + 1], base))
    ensures EncodeLog(OldEntries(els[..k + 1], base)) ==
            if els[k].offset >= |base| then EncodeLog(OldEntries(els[..k], base))
            else EncodeLog(OldEntries(els[..k], base)) + EncodeEntry(OldEntry(els[k], base))
  {
    OldEntriesStep(els, base, k);
    OldEntriesFit(els[..k], base);
    OldEntriesFit(els[..k + 1], base);
    hide OldEntries, EncodeEntry, EncodeLog;
    if els[k].offset < |base| {
      EncodeLogStep(OldEntries(els[..k], base), OldEntry(els[k], base));
    }
  }

  /** tdb_recovery_size: what the log of the old contents will take, its tailer included. */
  method RecoverySize(els: seq<Element>, base: seq<Byte>) returns (size: nat)
    requires NoneStraddles(els, |base|) && |base| < U32_LIMIT
    ensures EntriesFit(OldEntries(els, base)) && size == |EncodeLog(OldEntries(els, base))| + 4
    ensures size == LogSize(els, base)
  {
    hide OldEntries, EncodeEntry, EncodeLog, NoneStraddles, EntriesFit;
    size := 4;
    var k := 0;
    NoOldEntries(els, base);
    while k < |els|
      invariant k <= |els| && NoneStraddles(els[..k], |base|) && EntriesFit(OldEntries(els[..k], base))
      invariant size == |EncodeLog(OldEntries(els[..k], base))| + 4
    {
      OldLogStep(els, base, k);
      if els[k].offset < |base| {
        size := size + 8 + |els[k].data|;
      }
      k := k + 1;
    }
    assert els[..k] == els;
  }

  lemma NoOldEntries(els: seq<Element>, base: seq<Byte>)
    ensures OldEntries(els[..0], base) == [] && EncodeLog([]) == [] && NoneStraddles(els[..0], |base|) && EntriesFit([])
  {
  }

  /** The loop of transaction_setup_recovery that appends the old contents, read from the file, to the blob. */
  method BuildLog(els: seq<Element>, file: DiskFile, oldSize: nat, ghost base: seq<Byte>, head: seq<Byte>)
    returns (data: seq<Byte>)
    requires NoneStraddles(els, |base|) && |base| == oldSize < U32_LIMIT && oldSize <= |file.image|
    requires forall i :: 0 <= i < |base| && Covered(els, i) ==> file.image[i] == base[i]
    ensures EntriesFit(OldEntries(els, base)) && data == head + EncodeLog(OldEntries(els, base))
  {
    data := head;
    var k := 0;
    hide OldEntries, EncodeEntry, EncodeLog;
    NoOldEntries(els, base);
    while k < |els|
      invariant k <= |els| && NoneStraddles(els[..k], |base|) && EntriesFit(OldEntries(els[..k], base))
      invariant data == head + EncodeLog(OldEntries(els[..k], base))
    {
      OldLogStep(els, base, k);
      var el := els[k];
      if el.offset < oldSize {
        var saved := Element(el.offset, file.image[el.offset..el.End()]);
        SameOld(els, k, file.image, base);
        data := data + EncodeEntry(saved);
      }
      k := k + 1;
    }
    assert els[..k] == els;
  }

  lemma SameOld(els: seq<Element>, k: nat, img: seq<Byte>, base: seq<Byte>)
    requires k < |els| && els[k].End() <= |base| <= |img|
    requires forall i :: 0 <= i < |base| && Covered(els, i) ==> img[i] == base[i]
    ensures img[els[k].offset..els[k].End()] == base[els[k].offset..els[k].End()]
  {
    forall i | els[k].offset <= i < els[k].End()
      ensures img[i] == base[i]
    {
      assert els[k].Covers(i);
      assert Covered(els, i);
    }
  }

  // ---------- the commit ----------

  /** Images a crash during the commit may leave. */
  ghost predicate Survivable(img: seq<Byte>, c: Commit, oldHead: nat, view: seq<Byte>)
    requires c.Valid()
  {
    OldSide(img, c, oldHead) || Committed(img, c, view)
  }

  /** Every crash from trace position `from` on leaves a survivable image. */
  ghost predicate Safe(trace: seq<DiskState>, from: nat, c: Commit, oldHead: nat, view: seq<Byte>)
    requires c.Valid()
  {
    forall k, img :: from <= k < |trace| && CrashImage(trace[k], img) ==> Survivable(img, c, oldHead, view)
  }

  lemma SafeStep(trace: seq<DiskState>, s: DiskState, from: nat, c: Commit, oldHead: nat, view: seq<Byte>)
    requires c.Valid() && Safe(trace, from, c, oldHead, view)
    requires forall img :: CrashImage(s, img) ==> Survivable(img, c, oldHead, view)
    ensures Safe(trace + [s], from, c, oldHead, view)
  {
    hide CrashImage, Survivable;
  }

  lemma SafeNothing(trace: seq<DiskState>, c: Commit, oldHead: nat, view: seq<Byte>)
    requires c.Valid()
    ensures Safe(trace, |trace|, c, oldHead, view)
  {
  }

  lemma FreshStep(trace: seq<DiskState>, s: DiskState, from: nat, c: Commit, oldHead: nat, view: seq<Byte>)
    requires c.Valid() && oldHead % 4 == 0 && Safe(trace, from, c, oldHead, view) && FreshState(s, c, oldHead)
    ensures Safe(trace + [s], from, c, oldHead, view)
  {
    forall img | CrashImage(s, img)
      ensures Survivable(img, c, oldHead, view)
    {
      hide Fresh, CrashImage;
      FreshCrash(s, c, oldHead, img);
    }
    SafeStep(trace, s, from, c, oldHead, view);
  }

  lemma LiveStep(trace: seq<DiskState>, s: DiskState, from: nat, c: Commit, oldHead: nat, view: seq<Byte>)
    requires c.Valid() && Safe(trace, from, c, oldHead, view) && LiveState(s, c)
    ensures Safe(trace + [s], from, c, oldHead, view)
  {
    forall img | CrashImage(s, img)
      ensures Survivable(img, c, oldHead, view)
    {
      hide Live, CrashImage;
      LiveCrash(s, c, img);
    }
    SafeStep(trace, s, from, c, oldHead, view);
  }

  lemma {:induction false} GrowSteps(before: seq<DiskState>, after: seq<DiskState>, from: nat, c: Commit, oldHead: nat,
                                     view: seq<Byte>)
    requires c.Valid() && oldHead % 4 == 0 && Safe(before, from, c, oldHead, view) && before <= after
    requires forall k :: |before| <= k < |after| ==> FreshState(after[k], c, oldHead) || LiveState(after[k], c)
    ensures Safe(after, from, c, oldHead, view)
    decreases |after| - |before|
  {
    hide FreshState, LiveState, Safe;
    if |before| < |after| {
      var s := after[|before|];
      if FreshState(s, c, oldHead) {
        FreshStep(before, s, from, c, oldHead, view);
      } else {
        LiveStep(before, s, from, c, oldHead, view);
      }
      assert before + [s] <= after;
      GrowSteps(before + [s], after, from, c, oldHead, view);
    } else {
      assert before == after;
    }
  }

  // ---------- tdb_recovery_allocate ----------

  /** The record length of a new area for a log of `size` bytes: record and area fill whole pages. */
  function AreaFor(size: nat, pageSize: nat): (maxSize: nat)
    requires pageSize > 0 && pageSize % 4 == 0
    ensures size <= maxSize < size + pageSize && maxSize % 4 == 0
  {
    AlignIs(REC_SIZE + size, pageSize);
    WholePages(REC_SIZE + size, pageSize);
    Align(REC_SIZE + size, pageSize) - REC_SIZE
  }

  /** No other length as short as this fills whole pages. */
  lemma AreaForIs(size: nat, pageSize: nat, n: nat)
    requires pageSize > 0 && pageSize % 4 == 0
    ensures n == AreaFor(size, pageSize) <==> size <= n < size + pageSize && (REC_SIZE + n) % pageSize == 0
  {
    hide Align;
    AlignIs(REC_SIZE + size, pageSize);
    if size <= n < size + pageSize && (REC_SIZE + n) % pageSize == 0 {
      AlignOnly(REC_SIZE + size, pageSize, REC_SIZE + n);
    }
  }

  datatype PendingWrite = PendingWrite(off: nat, data: seq<Byte>)

  ghost predicate WritesFit(ws: seq<PendingWrite>, size: nat, tableSize: nat) {
    forall k :: 0 <= k < |ws| ==> WriteFits(ws[k], size, tableSize)
  }

  /** A write as the allocator makes them: inside the file, past the header, hash heads as aligned words. */
  ghost predicate WriteFits(w: PendingWrite, size: nat, tableSize: nat) {
    && w.off + |w.data| <= size && FREELIST_TOP <= w.off
    && (FREELIST_TOP + tableSize <= w.off || (|w.data| == 4 && w.off < FREELIST_TOP + tableSize && w.off % 4 == 0))
  }

  ghost function AfterWrites(s: seq<Byte>, ws: seq<PendingWrite>): (r: seq<Byte>)
    requires forall k :: 0 <= k < |ws| ==> ws[k].off + |ws[k].data| <= |s|
    ensures |r| == |s|
  {
    if ws == [] then s
    else
      var front, last := ws[..|ws| - 1], ws[|ws| - 1];
      assert forall k :: 0 <= k < |front| ==> front[k] == ws[k];
      assert last.off + |last.data| <= |s|;
      Splice(AfterWrites(s, front), last.off, last.data)
  }

  lemma AfterOneMore(s: seq<Byte>, ws: seq<PendingWrite>, k: nat)
    requires forall j :: 0 <= j < |ws| ==> ws[j].off + |ws[j].data| <= |s|
    requires k < |ws|
    ensures AfterWrites(s, ws[..k + 1]) == Splice(AfterWrites(s, ws[..k]), ws[k].off, ws[k].data)
  {
    assert ws[..k + 1][..k] == ws[..k];
  }

  /** The elements of a transaction after those writes. */
  ghost function AfterAll(els: seq<Element>, m: nat, ws: seq<PendingWrite>): (r: seq<Element>)
    requires NonEmpty(els)
    ensures NonEmpty(r)
  {
    if ws == [] then els
    else
      var last := ws[|ws| - 1];
      AfterWrite(AfterAll(els, m, ws[..|ws| - 1]), m, last.off, last.data)
  }

  lemma AfterAllButLast(els: seq<Element>, m: nat, ws: seq<PendingWrite>, k: nat)
    requires NonEmpty(els) && k < |ws|
    ensures AfterAll(els, m, ws[..k + 1]) == AfterWrite(AfterAll(els, m, ws[..k]), m, ws[k].off, ws[k].data)
  {
    assert ws[..k + 1][..k] == ws[..k];
  }

  /** The writes of tdb_free when an old recovery area that is too small goes back to the free list. */
  method ReleaseArea(tx: Transaction, freeing: seq<PendingWrite>)
    requires tx.Consistent() && WritesFit(freeing, tx.mapSize, |tx.hashHeads|)
    requires NotCovered(tx.elements, RECOVERY_HEAD, RECOVERY_HEAD + 4)
    modifies tx`elements, tx`hashHeads
    ensures tx.Consistent() && NotCovered(tx.elements, RECOVERY_HEAD, RECOVERY_HEAD + 4)
    ensures tx.Contents() == AfterWrites(old(tx.Contents()), freeing)
    ensures NonEmpty(old(tx.elements)) && tx.elements == AfterAll(old(tx.elements), tx.oldMapSize, freeing)
  {
    hide Sound, Extent, View, Covered, Transaction.Mirrored, NonEmpty, Splice, AfterWrite;
    ghost var s, table, els, m := tx.Contents(), |tx.hashHeads|, tx.elements, tx.oldMapSize;
    SoundNonEmpty(els, m);
    var k := 0;
    while k < |freeing|
      invariant k <= |freeing| && tx.Consistent() && |tx.hashHeads| == table
      invariant NotCovered(tx.elements, RECOVERY_HEAD, RECOVERY_HEAD + 4)
      invariant tx.Contents() == AfterWrites(s, freeing[..k]) && tx.elements == AfterAll(els, m, freeing[..k])
    {
      AfterOneMore(s, freeing, k);
      AfterAllButLast(els, m, freeing, k);
      assert WriteFits(freeing[k], tx.mapSize, table);
      tx.TransactionWrite(freeing[k].off, freeing[k].data);
      k := k + 1;
    }
    assert freeing[..k] == freeing;
  }

  /** The existing recovery area, if there is one, holds no live log.  The length in its record may be anything. */
  ghost predicate HeadReady(base: seq<Byte>) {
    && RECOVERY_HEAD + 4 <= |base|
    && var head := U32(base, RECOVERY_HEAD);
       head != 0 && head + REC_SIZE <= |base| ==>
         && head % 4 == 0 && RECOVERY_HEAD + 4 <= head
         && U32(base, head + MAGIC_OFS) != RECOVERY_MAGIC
  }

  /** The record of the existing recovery area can be read. */
  ghost predicate HeadInFile(base: seq<Byte>) {
    HeadWord(base) == 0 || HeadWord(base) + REC_SIZE <= |base|
  }

  /** The transaction does not write to the existing recovery area. */
  ghost predicate AreaReady(base: seq<Byte>, els: seq<Element>) {
    && HeadReady(base)
    && var head := U32(base, RECOVERY_HEAD);
       head != 0 && head + REC_SIZE <= |base| ==>
           NotCovered(els, head, head + AreaIn(|base|, head, U32(base, head + 4)))
  }

  /** What the log of the old contents will take, its tailer included. */
  ghost function LogSize(els: seq<Element>, base: seq<Byte>): nat {
    if NoneStraddles(els, |base|) && |base| < U32_LIMIT then
      OldEntriesFit(els, base);
      |EncodeLog(OldEntries(els, base))| + 4
    else 0
  }

  /** The log fits in the existing area, by the length in its record. */
  ghost predicate FitsOldArea(base: seq<Byte>, els: seq<Element>) {
    HeadWord(base) != 0 && HeadWord(base) + REC_SIZE <= |base| && LogSize(els, base) <= U32(base, HeadWord(base) + 4)
  }

  /** The elements once an existing area that is too small is given back. */
  ghost function Released(base: seq<Byte>, els: seq<Element>, freeing: seq<PendingWrite>): seq<Element>
    requires NonEmpty(els)
  {
    if HeadWord(base) == 0 then els else AfterAll(els, |base|, freeing)
  }

  /** The length of a new area for their log. */
  ghost function NewLengthFor(base: seq<Byte>, els: seq<Element>, freeing: seq<PendingWrite>, pageSize: nat): nat
    requires NonEmpty(els) && pageSize > 0 && pageSize % 4 == 0
  {
    AreaFor(LogSize(Released(base, els, freeing), base), pageSize)
  }

  /**
   There is a place for the log: in the existing area, as far as the transaction has the file reach, or in
   a new one after its end, below 4 GiB.
   */
  ghost predicate HasRoom(base: seq<Byte>, els: seq<Element>, mapSize: nat, freeing: seq<PendingWrite>,
                          pageSize: nat)
    requires NonEmpty(els) && pageSize > 0 && pageSize % 4 == 0
  {
    && HeadInFile(base)
    && if FitsOldArea(base, els) then HeadWord(base) + REC_SIZE + LogSize(els, base) <= mapSize
       else mapSize + REC_SIZE + NewLengthFor(base, els, freeing, pageSize) < U32_LIMIT
  }

  /**
   The log fits in the existing area by the length in its record, but not in what there is of the file.
   A crash before the record of a new area is written can leave such a length: see CrashInNewArea.
   */
  ghost predicate PassesEnd(base: seq<Byte>, els: seq<Element>) {
    && NoneStraddles(els, |base|) && RECOVERY_HEAD + 4 <= |base| < U32_LIMIT
    && var head, size := U32(base, RECOVERY_HEAD), LogSize(els, base);
       head != 0 && head + REC_SIZE <= |base| < head + REC_SIZE + size && size <= U32(base, head + 4)
  }

  /** A transaction on a synced file, about to commit. */
  ghost predicate Ready(file: DiskFile, tx: Transaction)
    reads file, tx
  {
    && file.image == tx.base && file.earlier == [] && tx.Consistent()
    && |tx.base| % 4 == 0 && tx.mapSize % 4 == 0 && tx.mapSize < U32_LIMIT
    && NotCovered(tx.elements, RECOVERY_HEAD, RECOVERY_HEAD + 4)
    && AreaReady(tx.base, tx.elements)
  }

  lemma HeadThroughOverlay(els: seq<Element>, m: nat, base: seq<Byte>)
    requires Sound(els, m) && NotCovered(els, RECOVERY_HEAD, RECOVERY_HEAD + 4) && RECOVERY_HEAD + 4 <= |base|
    ensures View(els, base, RECOVERY_HEAD, 4) == base[RECOVERY_HEAD..RECOVERY_HEAD + 4]
  {
    forall j | 0 <= j < |els|
      ensures RECOVERY_HEAD + 4 <= els[j].offset || RECOVERY_HEAD >= els[j].End()
    {
      ElementApart(els, j, RECOVERY_HEAD, RECOVERY_HEAD + 4);
    }
    ViewOfFile(els, base, RECOVERY_HEAD, 4);
  }

  /** How much of the file the recovery area at `head` takes up, if its record promises `recLen` bytes. */
  function AreaIn(fileSize: nat, head: nat, recLen: nat): nat {
    if head < fileSize < head + REC_SIZE + recLen then fileSize - head else REC_SIZE + recLen
  }

  ghost function CommitOf(base: seq<Byte>, els: seq<Element>, offset: nat, maxSize: nat): Commit
    requires NoneStraddles(els, |base|)
  {
    Commit(base, OldEntries(els, base), offset, AreaIn(|base|, offset, maxSize), maxSize)
  }

  lemma CommitIsValid(base: seq<Byte>, els: seq<Element>, offset: nat, maxSize: nat, size: nat)
    requires Sound(els, |base|) && RECOVERY_HEAD + 4 <= |base| < U32_LIMIT && |base| % 4 == 0
    requires offset % 4 == 0 && RECOVERY_HEAD + 4 <= offset && maxSize < U32_LIMIT
    requires |base| <= offset ==> offset + REC_SIZE + maxSize < U32_LIMIT && maxSize % 4 == 0
    requires offset < |base| ==>
               && offset + REC_SIZE <= |base|
               && offset == U32(base, RECOVERY_HEAD) && maxSize == U32(base, offset + 4)
    requires EntriesFit(OldEntries(els, base)) && size == |EncodeLog(OldEntries(els, base))| + 4 <= maxSize
    requires NotCovered(els, RECOVERY_HEAD, RECOVERY_HEAD + 4)
    requires NotCovered(els, offset, offset + AreaIn(|base|, offset, maxSize))
    ensures CommitOf(base, els, offset, maxSize).Valid()
    ensures CommitOf(base, els, offset, maxSize).DataLen() == size
  {
    hide EncodeLog, OldEntries, U32;
    OldEntriesSaved(els, CommitOf(base, els, offset, maxSize));
  }

  lemma FreshAtStart(base: seq<Byte>, c: Commit, oldHead: nat)
    requires c.before == base && RECOVERY_HEAD + 4 <= |base| && |base| % 4 == 0 && oldHead == U32(base, RECOVERY_HEAD)
    requires oldHead != 0 ==> oldHead + REC_SIZE <= |base| && U32(base, oldHead + MAGIC_OFS) != RECOVERY_MAGIC
    requires |base| <= c.head ||
              (c.head == oldHead != 0 && c.head + c.area <= |base| && c.recLen == U32(base, c.head + 4))
    ensures FreshState(DiskState(base, []), c, oldHead)
  {
    hide U32;
    assert DiskState(base, []).Versions() == [base];
  }

  lemma PastTheEnd(els: seq<Element>, m: nat, size: nat, hi: nat)
    requires Extent(els, m, size)
    ensures NotCovered(els, size, hi)
  {
  }

  ghost predicate HeadsApart(oldHead: nat, c: Commit) {
    oldHead % 4 == 0 && (oldHead != 0 ==> oldHead == c.head || oldHead + REC_SIZE <= c.head)
  }

  /** What tdb_recovery_allocate leaves: an area that is still unused, and room for the log of `els` in it. */
  ghost predicate Allocated(s: DiskState, base: seq<Byte>, els: seq<Element>, c: Commit, end: nat) {
    && Sound(els, |base|) && Extent(els, |base|, end)
    && c.before == base && c.entries == OldEntries(els, base) && c.Valid()
    && NotCovered(els, RECOVERY_HEAD, RECOVERY_HEAD + 4) && NotCovered(els, c.head, c.head + c.area)
    && RECOVERY_HEAD + 4 <= |base|
    && HeadsApart(U32(base, RECOVERY_HEAD), c) && FreshState(s, c, U32(base, RECOVERY_HEAD))
    && c.head + c.area <= |s.image| && |s.image| % 4 == 0
    && HeadWord(s.image) == c.head
    && (|base| <= c.head ==> end <= c.head)
  }

  /**
   tdb_recovery_allocate: use the existing area if its record says the log fits, else make a new one at
   the end of the file.
   */
  method RecoveryAllocate(file: DiskFile, tx: Transaction, freeing: seq<PendingWrite>, pageSize: nat)
    returns (ok: bool, size: nat, offset: nat, maxSize: nat, ghost end: nat)
    requires Ready(file, tx) && WritesFit(freeing, tx.mapSize, |tx.hashHeads|)
    requires pageSize > 0 && pageSize % 4 == 0
    modifies file, tx
    ensures !ok ==> unchanged(file)
    ensures old(file.trace) <= file.trace
    ensures ok ==> NoneStraddles(tx.elements, |tx.base|) && tx.mapSize % 4 == 0 && HeadInFile(tx.base)
    ensures ok ==>
              var c := CommitOf(tx.base, tx.elements, offset, maxSize);
              && Allocated(file.State(), tx.base, tx.elements, c, end) && size == c.DataLen()
              && (forall k :: old(|file.trace|) <= k < |file.trace| ==>
                  FreshState(file.trace[k], c, U32(tx.base, RECOVERY_HEAD)))
              && (c.Straddles() <==> PassesEnd(tx.base, old(tx.elements)))
    ensures ok ==> |file.image| == tx.oldMapSize <= tx.mapSize && end <= tx.mapSize
    ensures NonEmpty(old(tx.elements)) && (ok ==> maxSize < U32_LIMIT)
    ensures ok <==>
              && HeadInFile(tx.base)
              && (FitsOldArea(tx.base, old(tx.elements)) ||
                  old(tx.mapSize) + REC_SIZE + NewLengthFor(tx.base, old(tx.elements), freeing, pageSize) < U32_LIMIT)
    ensures ok && FitsOldArea(tx.base, old(tx.elements)) ==>
              && unchanged(file) && unchanged(tx) && end == tx.mapSize
              && offset == HeadWord(tx.base) && maxSize == U32(tx.base, offset + 4)
    ensures ok && !FitsOldArea(tx.base, old(tx.elements)) ==>
              && tx.elements == Released(tx.base, old(tx.elements), freeing) && offset == end == old(tx.mapSize)
              && maxSize == NewLengthFor(tx.base, old(tx.elements), freeing, pageSize)
              && View(tx.elements, tx.base, 0, end) ==
                 if HeadWord(tx.base) == 0 then old(tx.Contents()) else AfterWrites(old(tx.Contents()), freeing)
  {
    hide View, U32, NotCovered, EncodeLog, OldEntries, Transaction.Mirrored, Fresh, LogSize, AfterAll, NonEmpty;
    SoundNonEmpty(tx.elements, tx.oldMapSize);
    ok, size, offset, maxSize, end := false, 0, 0, 0, 0;
    HeadThroughOverlay(tx.elements, tx.oldMapSize, tx.base);
    var _, headBytes := tx.Read(RECOVERY_HEAD, 4);
    U32Same(headBytes, tx.base, 0, RECOVERY_HEAD);
    var head := U32(headBytes, 0);
    if head != 0 && head + REC_SIZE > |file.image| {
      return;
    }
    var recLen := if head != 0 then U32(file.image, head + 4) else 0;
    size := RecoverySize(tx.elements, tx.base);
    if head != 0 && size <= recLen {
      // it fits in the existing area
      ok, offset, maxSize, end := true, head, recLen, tx.mapSize;
      CommitIsValid(tx.base, tx.elements, head, recLen, size);
      FreshAtStart(tx.base, CommitOf(tx.base, tx.elements, head, recLen), head);
      return;
    }
    // free up the old recovery area, then allocate a new one at the end of the file
    if head != 0 {
      ReleaseArea(tx, freeing);
    }
    ok, size, offset, maxSize, end := NewArea(file, tx, pageSize);
  }

  /** ... the new area. */
  method NewArea(file: DiskFile, tx: Transaction, pageSize: nat)
    returns (ok: bool, size: nat, offset: nat, maxSize: nat, ghost end: nat)
    requires file.image == tx.base && file.earlier == [] && tx.Consistent()
    requires |tx.base| % 4 == 0 && tx.mapSize % 4 == 0 && tx.mapSize < U32_LIMIT
    requires NotCovered(tx.elements, RECOVERY_HEAD, RECOVERY_HEAD + 4) && HeadReady(tx.base)
    requires HeadInFile(tx.base)
    requires pageSize > 0 && pageSize % 4 == 0
    modifies file, tx`mapSize, tx`oldMapSize
    ensures NoneStraddles(tx.elements, |tx.base|) && |tx.base| < U32_LIMIT && size == LogSize(tx.elements, tx.base)
    ensures offset == end == old(tx.mapSize) && maxSize == AreaFor(size, pageSize)
    ensures ok <==> offset + REC_SIZE + maxSize < U32_LIMIT
    ensures !ok ==> unchanged(file)
    ensures ok ==>
              var c := CommitOf(tx.base, tx.elements, offset, maxSize);
              && Allocated(file.State(), tx.base, tx.elements, c, end) && size == c.DataLen()
              && old(file.trace) <= file.trace
              && (forall k :: old(|file.trace|) <= k < |file.trace| ==>
                  FreshState(file.trace[k], c, U32(tx.base, RECOVERY_HEAD)))
    ensures ok ==> |file.image| == tx.oldMapSize == tx.mapSize == offset + REC_SIZE + maxSize
    ensures ok ==> |tx.base| <= offset && U32(file.image, offset + 4) == PAD_WORD
  {
    hide View, U32, NotCovered, EncodeLog, OldEntries, Transaction.Mirrored, Fresh, FreshState, GrownState, Pad,
         EncodeU32, AreaFor, Sound, Extent, Growing, Commit.Valid, HeadReady, HeadsApart, Splice, LogSize;
    ghost var els, base := tx.elements, tx.base;
    SoundSizes(els, |base|, tx.mapSize);
    OldHeadApart(base);
    size := RecoverySize(tx.elements, tx.base);
    maxSize := AreaFor(size, pageSize);
    offset, end := tx.mapSize, tx.mapSize;
    if offset + REC_SIZE + maxSize >= U32_LIMIT {
      return false, size, offset, maxSize, end;
    }
    ghost var oldHead := U32(base, RECOVERY_HEAD);
    ghost var c := CommitOf(base, els, offset, maxSize);
    PastTheEnd(els, |base|, end, c.head + c.area);
    CommitIsValid(base, els, offset, maxSize, size);
    FreshAtStart(base, c, oldHead);
    ghost var s0 := file.State();
    ExpandFile(file, tx.oldMapSize, (tx.mapSize - tx.oldMapSize) + REC_SIZE + maxSize);
    tx.mapSize := |file.image|;
    tx.oldMapSize := tx.mapSize;
    GrowthIsFresh(file.trace, old(|file.trace|), file.State(), s0, c, oldHead);
    FreshHeadState(file.State(), c, oldHead);
    NewLength(file.image, offset);
    HeadsAre(base, c);
    file.Write(RECOVERY_HEAD, EncodeU32(offset));
    ok := true;
  }

  lemma SoundSizes(els: seq<Element>, m: nat, size: nat)
    requires Sound(els, m) && Extent(els, m, size)
    ensures NoneStraddles(els, m) && m <= size
  {
  }

  lemma OldHeadApart(base: seq<Byte>)
    requires HeadReady(base) && HeadInFile(base)
    ensures RECOVERY_HEAD + 4 <= |base|
    ensures var head := U32(base, RECOVERY_HEAD);
            head % 4 == 0 && (head != 0 ==>
              RECOVERY_HEAD + 4 <= head && head + REC_SIZE <= |base| && U32(base, head + MAGIC_OFS) != RECOVERY_MAGIC)
  {
    hide U32;
  }

  lemma HeadsAre(base: seq<Byte>, c: Commit)
    requires HeadReady(base) && HeadInFile(base) && |base| <= c.head
    ensures HeadsApart(HeadWord(base), c)
  {
    hide U32;
  }

  /** In a new area the word for the length is padding until the record is written. */
  lemma NewLength(img: seq<Byte>, offset: nat)
    requires RECOVERY_HEAD + 4 <= offset < U32_LIMIT && offset + 8 <= |img|
    requires forall i :: offset + 4 <= i < offset + 8 ==> img[i] == PAD_BYTE
    ensures U32(Splice(img, RECOVERY_HEAD, EncodeU32(offset)), offset + 4) == PAD_WORD
  {
    hide U32, EncodeU32, Splice;
    PadWord(img, offset + 4);
    OtherWord(img, RECOVERY_HEAD, EncodeU32(offset), offset + 4);
  }

  // ---------- transaction_setup_recovery ----------

  lemma FreshImage(s: DiskState, c: Commit, oldHead: nat)
    requires FreshState(s, c, oldHead)
    ensures Fresh(s.image, c, oldHead) && IsOld(s.image, c) && FreshState(s.Sync(), c, oldHead)
  {
    hide U32, IsOld;
    assert s.Versions()[|s.earlier|] == s.image;
  }

  lemma CoveredIsOld(img: seq<Byte>, els: seq<Element>, c: Commit)
    requires IsOld(img, c) && NotCovered(els, RECOVERY_HEAD, RECOVERY_HEAD + 4)
    requires NotCovered(els, c.head, c.head + c.area)
    ensures forall i :: 0 <= i < |c.before| && Covered(els, i) ==> img[i] == c.before[i]
  {
  }

  lemma BlobState(s: DiskState, c: Commit, oldHead: nat)
    requires c.Valid() && FreshState(s, c, oldHead) && c.head + c.area <= |s.image|
    requires oldHead != 0 ==> oldHead == c.head || oldHead + REC_SIZE <= c.head
    ensures var reached := s.Reaching(c.head + REC_SIZE + c.DataLen());
            && FreshState(reached, c, oldHead) && FreshState(reached.Write(c.head, c.Blob(0)), c, oldHead)
            && HasBody(reached.Write(c.head, c.Blob(0)).image, c, 0)
            && HeadWord(reached.Write(c.head, c.Blob(0)).image) == HeadWord(s.image)
  {
    hide U32, EncodeLog, EncodeRecord, EncodeU32, Fresh, FreshState, Commit.Blob;
    var n := c.head + REC_SIZE + c.DataLen();
    var reached := s.Reaching(n);
    FreshImage(s, c, oldHead);
    HeadInside(s.image, c, oldHead);
    if |s.image| < n {
      FreshLengthened(s, c, oldHead, n);
      ResizedWord(s.image, n, RECOVERY_HEAD);
    }
    FreshImage(reached, c, oldHead);
    FreshBlobWritten(reached.image, c, oldHead);
    FreshWrite(reached, c, oldHead, c.head, c.Blob(0));
  }

  lemma HeadInside(img: seq<Byte>, c: Commit, oldHead: nat)
    requires Fresh(img, c, oldHead)
    ensures RECOVERY_HEAD + 4 <= |img|
  {
  }

  /** Writing the log, with the file lengthened first if the log passes its end. */
  lemma BlobSteps(trace: seq<DiskState>, s: DiskState, from: nat, c: Commit, oldHead: nat, view: seq<Byte>)
    requires c.Valid() && oldHead % 4 == 0 && Safe(trace, from, c, oldHead, view)
    requires var reached := s.Reaching(c.head + REC_SIZE + c.DataLen());
             FreshState(reached, c, oldHead) && FreshState(reached.Write(c.head, c.Blob(0)), c, oldHead)
    ensures var n := c.head + REC_SIZE + c.DataLen();
            var reached := s.Reaching(n);
            Safe(trace + (if |s.image| < n then [reached] else []) + [reached.Write(c.head, c.Blob(0))], from, c,
                oldHead, view)
  {
    hide U32, EncodeLog, FreshState, Safe, Commit.Blob, Commit.Valid;
    ValidSizes(c);
    var n := c.head + REC_SIZE + c.DataLen();
    var reached := s.Reaching(n);
    if |s.image| < n {
      FreshStep(trace, reached, from, c, oldHead, view);
      FreshStep(trace + [reached], reached.Write(c.head, c.Blob(0)), from, c, oldHead, view);
    } else {
      FreshStep(trace, reached.Write(c.head, c.Blob(0)), from, c, oldHead, view);
      assert trace + [] == trace;
    }
  }

  /** Marking the log: until the mark is synced a crash finds it or does not, and either way the old file is safe. */
  lemma MagicStep(trace: seq<DiskState>, img: seq<Byte>, from: nat, c: Commit, oldHead: nat, view: seq<Byte>)
    requires c.Valid() && Safe(trace, from, c, oldHead, view)
    requires Fresh(img, c, oldHead) && HasBody(img, c, 0) && HeadWord(img) == c.head
    ensures c.head + MAGIC_OFS + 4 <= |img|
    ensures Safe(trace + [DiskState(img, []).Write(c.head + MAGIC_OFS, EncodeU32(RECOVERY_MAGIC))], from, c,
              oldHead, view)
    ensures LiveState(DiskState(img, []).Write(c.head + MAGIC_OFS, EncodeU32(RECOVERY_MAGIC)).Sync(), c)
  {
    hide U32, EncodeU32, EncodeLog, EncodeRecord, Safe, CrashImage, HasBody, Fresh, Live;
    BodyFits(img, c);
    MagicMakesLiveHere(img, c, oldHead);
    var s := DiskState(img, []).Write(c.head + MAGIC_OFS, EncodeU32(RECOVERY_MAGIC));
    forall crashed | CrashImage(s, crashed)
      ensures Survivable(crashed, c, oldHead, view)
    {
      CrashOfOneWord(s, img, crashed, c.head + MAGIC_OFS);
    }
    SafeStep(trace, s, from, c, oldHead, view);
    assert s.Sync().Versions() == [s.image];
  }

  lemma BodyFits(img: seq<Byte>, c: Commit)
    requires c.Valid() && HasBody(img, c, 0)
    ensures c.head + REC_SIZE <= |img| && (c.head + MAGIC_OFS) % 4 == 0
  {
    hide EncodeLog, EncodeRecord, U32, EncodeU32, Commit.Saved, EntriesFit;
  }

  lemma MagicMakesLiveHere(img: seq<Byte>, c: Commit, oldHead: nat)
    requires c.Valid() && Fresh(img, c, oldHead) && HasBody(img, c, 0) && HeadWord(img) == c.head
    ensures c.head + MAGIC_OFS + 4 <= |img|
    ensures Live(Splice(img, c.head + MAGIC_OFS, EncodeU32(RECOVERY_MAGIC)), c)
  {
    hide U32, EncodeU32, EncodeLog, EncodeRecord;
    MagicMakesLive(img, c, oldHead);
  }

  /** The log is on disk and marked; the transaction's elements have not been written yet. */
  ghost predicate Armed(s: DiskState, base: seq<Byte>, els: seq<Element>, c: Commit, end: nat) {
    && Sound(els, |base|) && Extent(els, |base|, end)
    && c.before == base && c.entries == OldEntries(els, base) && c.Valid()
    && NotCovered(els, RECOVERY_HEAD, RECOVERY_HEAD + 4) && NotCovered(els, c.head, c.head + c.area)
    && LiveState(s, c) && IsOld(s.image, c) && c.head + c.area <= |s.image|
  }

  /** transaction_setup_recovery */
  method SetupRecovery(file: DiskFile, tx: Transaction, freeing: seq<PendingWrite>, pageSize: nat)
    returns (ok: bool, magicOffset: nat, ghost c: Commit, ghost end: nat)
    requires Ready(file, tx) && WritesFit(freeing, tx.mapSize, |tx.hashHeads|)
    requires pageSize > 0 && pageSize % 4 == 0
    modifies file, tx
    ensures !ok ==> unchanged(file)
    ensures old(file.trace) <= file.trace
    ensures ok ==> magicOffset == c.head + MAGIC_OFS && file.earlier == [] && tx.mapSize % 4 == 0 && end <= tx.mapSize
    ensures ok ==>
              && Armed(file.State(), tx.base, tx.elements, c, end)
              && RECOVERY_HEAD + 4 <= |tx.base| && HeadsApart(U32(tx.base, RECOVERY_HEAD), c) && HeadInFile(tx.base)
              && Safe(file.trace, old(|file.trace|), c, U32(tx.base, RECOVERY_HEAD), View(tx.elements, tx.base, 0, end))
              && |tx.base| <= tx.oldMapSize && c.head + c.area <= tx.oldMapSize && tx.oldMapSize % 4 == 0
              && tx.oldMapSize <= |file.image| <= tx.mapSize && (!c.Straddles() ==> |file.image| == tx.oldMapSize)
    ensures NonEmpty(old(tx.elements))
    ensures ok <==> HasRoom(tx.base, old(tx.elements), old(tx.mapSize), freeing, pageSize)
    ensures ok && FitsOldArea(tx.base, old(tx.elements)) ==>
              unchanged(tx) && c == OldAreaCommit(tx.base, tx.elements) && end == tx.mapSize
    ensures ok && !FitsOldArea(tx.base, old(tx.elements)) ==>
              && tx.elements == Released(tx.base, old(tx.elements), freeing) && c.head == end == old(tx.mapSize)
              && c.recLen == NewLengthFor(tx.base, old(tx.elements), freeing, pageSize)
              && View(tx.elements, tx.base, 0, end) ==
                 if HeadWord(tx.base) == 0 then old(tx.Contents()) else AfterWrites(old(tx.Contents()), freeing)
    ensures ok ==> (c.Straddles() <==> PassesEnd(tx.base, old(tx.elements)))
    ensures ok && PassesEnd(tx.base, old(tx.elements)) ==>
              && file.image == MarkedPastEnd(c) && |tx.base| < |file.image|
              && c.head + REC_SIZE + c.DataLen() <= end == tx.mapSize
  {
    hide U32, EncodeLog, OldEntries, NotCovered, View, FreshState, Safe, LiveState, LogSize, Sound, Extent, PassesEnd,
         NonEmpty, AfterAll, Released, NewLengthFor;
    var oldMapSize := tx.oldMapSize;
    ghost var n := |file.trace|;
    PassesEndSize(tx.base, tx.elements);
    var size, offset, maxSize;
    ok, size, offset, maxSize, end := RecoveryAllocate(file, tx, freeing, pageSize);
    magicOffset := offset + MAGIC_OFS;
    ghost var base, els := tx.base, tx.elements;
    c := Commit([], [], 0, 0, 0);
    if !ok {
      return;
    }
    c := CommitOf(base, els, offset, maxSize);
    PassesEndSize(base, els);
    ok := WriteLog(file, tx.elements, oldMapSize, tx.mapSize, size, offset, maxSize, base, c, end, n);
  }

  lemma PassesEndSize(base: seq<Byte>, els: seq<Element>)
    ensures PassesEnd(base, els) ==> FitsOldArea(base, els)
    ensures NoneStraddles(els, |base|) && |base| < U32_LIMIT ==>
              EntriesFit(OldEntries(els, base)) && LogSize(els, base) == |EncodeLog(OldEntries(els, base))| + 4
  {
    hide U32, OldEntries, EncodeLog;
    if NoneStraddles(els, |base|) && |base| < U32_LIMIT {
      OldEntriesFit(els, base);
    }
  }

  /** The commit that saves the old contents in the existing area. */
  ghost function OldAreaCommit(base: seq<Byte>, els: seq<Element>): Commit
    requires HeadWord(base) + 8 <= |base| && NoneStraddles(els, |base|)
  {
    CommitOf(base, els, HeadWord(base), U32(base, HeadWord(base) + 4))
  }

  /** ... once the area is there: build the log, write it, sync, mark it, sync. */
  method WriteLog(file: DiskFile, els: seq<Element>, oldMapSize: nat, mapSize: nat, size: nat, offset: nat,
                  maxSize: nat, ghost base: seq<Byte>, ghost c: Commit, ghost end: nat, ghost n: nat)
    returns (ok: bool)
    requires |base| == oldMapSize && NoneStraddles(els, |base|) && maxSize < U32_LIMIT
    requires c.Encodable() && c == CommitOf(base, els, offset, maxSize) && size == c.DataLen()
    requires Allocated(file.State(), base, els, c, end) && |file.image| <= mapSize && n <= |file.trace|
    requires forall k :: n <= k < |file.trace| ==> FreshState(file.trace[k], c, U32(base, RECOVERY_HEAD))
    requires c.Straddles() ==> file.image == base
    modifies file
    ensures ok <==> offset + REC_SIZE + size <= mapSize
    ensures !c.Straddles() ==> ok
    ensures !ok ==> unchanged(file)
    ensures old(file.trace) <= file.trace
    ensures ok ==> file.earlier == [] && Armed(file.State(), base, els, c, end)
    ensures ok ==> Safe(file.trace, n, c, U32(base, RECOVERY_HEAD), View(els, base, 0, end))
    ensures ok ==> old(|file.image|) <= |file.image| <= mapSize
    ensures ok && !c.Straddles() ==> |file.image| == |old(file.image)|
    ensures ok && c.Straddles() ==> file.image == MarkedPastEnd(c)
  {
    hide U32, EncodeU32, EncodeLog, EncodeRecord, Fresh, FreshState, Safe, View, LiveState, HasBody, OldEntries,
         NotCovered, Extent, Commit.Blob, Splice, IsOld, DiskState.Reaching, MarkedPastEnd, Sound, EntriesFit;
    ghost var oldHead, view := HeadWord(base), View(els, base, 0, end);
    SafeNothing(file.trace[..n], c, oldHead, view);
    GrowSteps(file.trace[..n], file.trace, n, c, oldHead, view);
    FreshImage(file.State(), c, oldHead);
    CoveredIsOld(file.image, els, c);
    OldLength(file.image, c);
    ghost var s := file.State();
    var header := EncodeRecord(Record(0, maxSize, oldMapSize, size, 0, 0));
    var data := BuildLog(els, file, oldMapSize, base, header);
    data := data + EncodeU32((REC_SIZE + maxSize) % U32_LIMIT);
    BlobIs(c, data);
    if offset + |data| > mapSize {
      return false;
    }
    ok := true;
    BlobState(file.State(), c, oldHead);
    BlobSteps(file.trace, file.State(), n, c, oldHead, view);
    file.Pwrite(offset, data);
    MarkLog(file, offset + MAGIC_OFS, c, n, oldHead, view);
    if c.Straddles() {
      MarkPastEnd(s, c);
    }
  }

  /** ... once the log is written: sync, mark it, sync. */
  method MarkLog(file: DiskFile, magicOffset: nat, ghost c: Commit, ghost n: nat, ghost oldHead: nat,
                 ghost view: seq<Byte>)
    requires c.Valid() && oldHead % 4 == 0 && Safe(file.trace, n, c, oldHead, view) && magicOffset == c.head + MAGIC_OFS
    requires FreshState(file.State(), c, oldHead) && HasBody(file.image, c, 0) && HeadWord(file.image) == c.head
    modifies file
    ensures magicOffset + 4 <= |old(file.image)|
    ensures file.image == Splice(old(file.image), magicOffset, EncodeU32(RECOVERY_MAGIC)) && file.earlier == []
    ensures old(file.trace) <= file.trace && Safe(file.trace, n, c, oldHead, view)
    ensures LiveState(file.State(), c) && IsOld(file.image, c)
  {
    hide U32, EncodeU32, EncodeLog, EncodeRecord, Fresh, FreshState, Safe, LiveState, HasBody, Splice, IsOld,
         Commit.Valid;
    BodyFits(file.image, c);
    FreshImage(file.State(), c, oldHead);
    FreshStep(file.trace, file.State().Sync(), n, c, oldHead, view);
    file.Sync();
    MagicStep(file.trace, file.image, n, c, oldHead, view);
    AreaHoldsRecord(c);
    MagicKeepsOld(file.image, c);
    file.Write(magicOffset, EncodeU32(RECOVERY_MAGIC));
    LiveStep(file.trace, file.State().Sync(), n, c, oldHead, view);
    file.Sync();
  }

  lemma BlobIs(c: Commit, data: seq<Byte>)
    requires c.Encodable() && data == EncodeRecord(c.Rec(0)) + EncodeLog(c.entries) + EncodeU32(c.Tailer())
    ensures data == c.Blob(0)
  {
  }

  lemma MagicKeepsOld(img: seq<Byte>, c: Commit)
    requires IsOld(img, c) && REC_SIZE <= c.area && c.head + REC_SIZE <= |img|
    ensures IsOld(Splice(img, c.head + MAGIC_OFS, EncodeU32(RECOVERY_MAGIC)), c)
  {
    hide EncodeU32;
  }

  /** The old file with the log, still unmarked, written past its end. */
  lemma MarkPastEnd(s: DiskState, c: Commit)
    requires c.Valid() && c.Straddles() && s.image == c.before
    ensures var img := s.Reaching(c.head + REC_SIZE + c.DataLen()).image;
            && c.head + |c.Blob(0)| <= |img| && c.head + MAGIC_OFS + 4 <= |img|
            && Splice(Splice(img, c.head, c.Blob(0)), c.head + MAGIC_OFS, EncodeU32(RECOVERY_MAGIC)) == MarkedPastEnd(c)
  {
    hide EncodeU32, EncodeLog, EncodeRecord, U32, Commit.Saved, Commit.Body;
    BodyMagic(c);
  }

  // ---------- tdb_transaction_commit ----------

  lemma ElementByte(els: seq<Element>, base: seq<Byte>, end: nat, k: nat, j: nat)
    requires Sound(els, |base|) && k < |els| && j < |els[k].data| && els[k].offset + j < end
    ensures View(els, base, 0, end)[els[k].offset + j] == els[k].data[j]
  {
    assert els[k].Covers(els[k].offset + j);
    ByteAtCovered(els, base, els[k].offset + j, k);
  }

  lemma PaddedViewAt(c: Commit, view: seq<Byte>, i: nat)
    requires c.Valid() && PaddedView(c, view) && |c.before| <= i < c.head + REC_SIZE + |EncodeLog(c.entries)|
    ensures i < |view| && view[i] == PAD_BYTE
  {
    hide EncodeLog;
    assert PaddingAt(view, i);
  }

  /** The transaction's elements put nothing but padding into a log that passes the end of the file. */
  lemma ElementKeepsBody(c: Commit, els: seq<Element>, k: nat, end: nat)
    requires c.Valid() && Sound(els, |c.before|) && k < |els|
    requires els[k].End() <= c.head || c.head + c.area <= els[k].offset
    requires PaddingPastEnd(c, View(els, c.before, 0, end))
    ensures KeepsBody(c, els[k].offset, els[k].data)
  {
    hide EncodeLog, EncodeRecord, View, EncodeU32, Sound, Commit.Saved, PaddedView;
    var el, body, log := els[k], c.Body(RECOVERY_MAGIC), EncodeLog(c.entries);
    forall j | 0 <= j < |el.data| && c.head <= el.offset + j < c.head + |body|
      ensures el.data[j] == body[el.offset + j - c.head]
    {
      assert c.Straddles();
      var i := el.offset + j - c.head - REC_SIZE;
      assert log[i] == PAD_BYTE && body[el.offset + j - c.head] == log[i];
      PaddedViewAt(c, View(els, c.before, 0, end), el.offset + j);
      ElementByte(els, c.before, end, k, j);
    }
  }

  lemma ElementWriteLive(img: seq<Byte>, c: Commit, els: seq<Element>, k: nat, end: nat)
    requires c.Valid() && Live(img, c) && Sound(els, |c.before|) && c.entries == OldEntries(els, c.before)
    requires NotCovered(els, RECOVERY_HEAD, RECOVERY_HEAD + 4) && NotCovered(els, c.head, c.head + c.area)
    requires PaddingPastEnd(c, View(els, c.before, 0, end))
    requires k < |els| && els[k].End() <= |img|
    ensures Live(Splice(img, els[k].offset, els[k].data), c)
  {
    AreaHoldsRecord(c);
    hide Live, OldEntries, EncodeLog, NotCovered, Commit.Valid, PaddingPastEnd, View, KeepsBody;
    var el := els[k];
    ElementApart(els, k, RECOVERY_HEAD, RECOVERY_HEAD + 4);
    ElementApart(els, k, c.head, c.head + c.area);
    forall i | el.offset <= i < el.End() && i < |c.before|
      ensures Covered(c.entries, i)
    {
      OldEntriesCover(els, c.before, k, i);
    }
    ElementKeepsBody(c, els, k, end);
    LiveWrite(img, c, el.offset, el.data);
  }

  lemma ElementWriteState(s: DiskState, c: Commit, els: seq<Element>, k: nat, end: nat)
    requires c.Valid() && LiveState(s, c) && Sound(els, |c.before|) && c.entries == OldEntries(els, c.before)
    requires NotCovered(els, RECOVERY_HEAD, RECOVERY_HEAD + 4) && NotCovered(els, c.head, c.head + c.area)
    requires PaddingPastEnd(c, View(els, c.before, 0, end))
    requires k < |els| && els[k].End() <= |s.image|
    ensures LiveState(s.Write(els[k].offset, els[k].data), c)
  {
    hide Live, Sound, OldEntries, NotCovered, PaddingPastEnd, View, Commit.Valid;
    assert s.Versions()[|s.earlier|] == s.image;
    ElementWriteLive(s.image, c, els, k, end);
    var s' := s.Write(els[k].offset, els[k].data);
    assert forall j :: 0 <= j < |s.Versions()| ==> s'.Versions()[j] == s.Versions()[j];
  }

  lemma AppliedStep(els: seq<Element>, img: seq<Byte>, k: nat)
    requires AllInside(els, |img|) && k < |els|
    ensures AllInside(els[..k], |img|) && AllInside(els[..k + 1], |img|)
    ensures Applied(els[..k + 1], img) == Splice(Applied(els[..k], img), els[k].offset, els[k].data)
  {
    hide Splice;
    assert els[..k + 1][..k] == els[..k];
  }

  /** The loop of the commit that performs all the writes. */
  method WriteElements(file: DiskFile, tx: Transaction, ghost c: Commit, ghost end: nat,
                       ghost n: nat, ghost oldHead: nat, ghost view: seq<Byte>)
    requires c.Valid() && Sound(tx.elements, |c.before|) && c.entries == OldEntries(tx.elements, c.before)
    requires NotCovered(tx.elements, RECOVERY_HEAD, RECOVERY_HEAD + 4)
    requires NotCovered(tx.elements, c.head, c.head + c.area)
    requires view == View(tx.elements, c.before, 0, end) && AllInside(tx.elements, |file.image|)
    requires PaddingPastEnd(c, view) ==> Safe(file.trace, n, c, oldHead, view) && LiveState(file.State(), c)
    modifies file, tx`elements
    ensures PaddingPastEnd(c, view) ==> Safe(file.trace, n, c, oldHead, view) && LiveState(file.State(), c)
    ensures old(file.trace) <= file.trace
    ensures file.image == Applied(old(tx.elements), old(file.image)) && tx.elements == []
  {
    hide U32, Safe, LiveState, Sound, OldEntries, NotCovered, Applied, View, PaddingPastEnd, Commit.Valid;
    ghost var els, img, k, kept := tx.elements, file.image, 0, PaddingPastEnd(c, view);
    AppliedNothing(els, img);
    while |tx.elements| > 0
      invariant k <= |els| && tx.elements == els[k..] && AllInside(els[..k], |img|)
      invariant kept ==> Safe(file.trace, n, c, oldHead, view) && LiveState(file.State(), c)
      invariant old(file.trace) <= file.trace && file.image == Applied(els[..k], img)
      decreases |tx.elements|
    {
      var el := tx.elements[0];
      AppliedStep(els, img, k);
      if kept {
        ElementWriteState(file.State(), c, els, k, end);
        LiveStep(file.trace, file.State().Write(el.offset, el.data), n, c, oldHead, view);
      }
      file.Write(el.offset, el.data);
      tx.elements := tx.elements[1..];
      k := k + 1;
    }
    assert els[..k] == els;
  }

  lemma AppliedNothing(els: seq<Element>, img: seq<Byte>)
    ensures AllInside(els[..0], |img|) && Applied(els[..0], img) == img && els[0..] == els
  {
  }

  /** With every element written, the file is the transaction's. */
  lemma WrittenIsNew(els: seq<Element>, c: Commit, end: nat, img: seq<Byte>)
    requires Extent(els, |c.before|, end) && end <= |img| && AllInside(els, |img|) && IsOld(img, c)
    ensures IsNew(Applied(els, img), c, View(els, c.before, 0, end))
  {
    var view, r := View(els, c.before, 0, end), Applied(els, img);
    forall i | 0 <= i < end && !c.Reserved(i)
      ensures r[i] == view[i]
    {
      AppliedAt(els, img, i);
      ByteAtOtherBase(els, c.before, img, i);
    }
  }

  /** The head of the file names the area, and the record there has the length of the area. */
  ghost predicate NamesArea(img: seq<Byte>, c: Commit) {
    c.head + REC_SIZE <= |img| && HeadWord(img) == c.head && U32(img, c.head + 4) == c.recLen
  }

  lemma AppliedWord(els: seq<Element>, img: seq<Byte>, off: nat)
    requires AllInside(els, |img|) && NotCovered(els, off, off + 4) && off + 4 <= |img|
    ensures U32(Applied(els, img), off) == U32(img, off)
  {
    hide U32, Applied;
    forall i | off <= i < off + 4
      ensures Applied(els, img)[i] == img[i]
    {
      AppliedAt(els, img, i);
    }
    SameWords(Applied(els, img), img, off);
  }

  lemma WrittenNamesArea(els: seq<Element>, img: seq<Byte>, c: Commit)
    requires c.area >= REC_SIZE && NamesArea(img, c) && AllInside(els, |img|)
    requires RECOVERY_HEAD + 4 <= |img|
    requires NotCovered(els, RECOVERY_HEAD, RECOVERY_HEAD + 4) && NotCovered(els, c.head, c.head + c.area)
    ensures NamesArea(Applied(els, img), c)
  {
    hide U32, Applied;
    AppliedWord(els, img, RECOVERY_HEAD);
    AppliedWord(els, img, c.head + 4);
  }

  lemma ClearedIsCommitted(img: seq<Byte>, c: Commit, view: seq<Byte>)
    requires c.Valid() && NamesArea(img, c) && IsNew(img, c, view)
    requires |c.before| <= |img| && |img| % 4 == 0 && c.head + c.area <= |img|
    ensures c.head + MAGIC_OFS + 4 <= |img|
    ensures Committed(Splice(img, c.head + MAGIC_OFS, ZERO4), c, view)
  {
    hide U32, EncodeLog, EncodeRecord, EncodeU32;
    ZeroWord(img, c.head + MAGIC_OFS);
    OtherWord(img, c.head + MAGIC_OFS, ZERO4, RECOVERY_HEAD);
    OtherWord(img, c.head + MAGIC_OFS, ZERO4, c.head + 4);
  }

  /**
   Clearing the mark: until that is synced a crash finds it or does not, and gets all of the old file or
   all of the new.
   */
  lemma ClearStep(trace: seq<DiskState>, img: seq<Byte>, from: nat, c: Commit, oldHead: nat, view: seq<Byte>)
    requires c.Valid() && Safe(trace, from, c, oldHead, view) && Live(img, c) && c.head + MAGIC_OFS + 4 <= |img|
    requires Committed(Splice(img, c.head + MAGIC_OFS, ZERO4), c, view)
    ensures Safe(trace + [DiskState(img, []).Write(c.head + MAGIC_OFS, ZERO4)], from, c, oldHead, view)
  {
    HeadAligned(c);
    hide U32, EncodeLog, EncodeRecord, EncodeU32, Safe, CrashImage, Live, Committed, IsNew, Commit.Valid;
    var s := DiskState(img, []).Write(c.head + MAGIC_OFS, ZERO4);
    forall crashed | CrashImage(s, crashed)
      ensures Survivable(crashed, c, oldHead, view)
    {
      CrashOfOneWord(s, img, crashed, c.head + MAGIC_OFS);
    }
    SafeStep(trace, s, from, c, oldHead, view);
  }

  lemma HeadAligned(c: Commit)
    requires c.Valid()
    ensures (c.head + MAGIC_OFS) % 4 == 0
  {
    hide EncodeLog, Commit.Saved, U32, EntriesFit;
  }

  lemma CommittedStep(trace: seq<DiskState>, s: DiskState, from: nat, c: Commit, oldHead: nat, view: seq<Byte>)
    requires c.Valid() && Safe(trace, from, c, oldHead, view) && Committed(s.image, c, view) && s.earlier == []
    ensures Safe(trace + [s], from, c, oldHead, view)
  {
    hide CrashImage, Committed, Safe;
    forall crashed | CrashImage(s, crashed)
      ensures Survivable(crashed, c, oldHead, view)
    {
      CrashAfterSync(s, crashed);
    }
    SafeStep(trace, s, from, c, oldHead, view);
  }

  /** One of the states from `from` on shows `img`: a crash there may leave it. */
  ghost predicate Passes(trace: seq<DiskState>, from: nat, img: seq<Byte>) {
    exists k :: from <= k < |trace| && trace[k].Valid() && trace[k].image == img
  }

  lemma PassesLonger(trace: seq<DiskState>, longer: seq<DiskState>, from: nat, img: seq<Byte>)
    requires Passes(trace, from, img) && trace <= longer
    ensures Passes(longer, from, img)
  {
    var k :| from <= k < |trace| && trace[k].Valid() && trace[k].image == img;
    assert longer[k] == trace[k];
  }

  /** Where the file has not changed, neither have the old contents nor what names the area. */
  lemma GrownIsOld(img: seq<Byte>, u: seq<Byte>, c: Commit, size: nat)
    requires c.Valid() && IsOld(u, c) && NamesArea(u, c) && |c.before| <= size && c.head + c.area <= size <= |u|
    requires size <= |img| && img[..size] == u[..size]
    ensures IsOld(img, c) && NamesArea(img, c)
  {
    hide U32, EncodeLog;
    assert forall i :: 0 <= i < size ==> img[i] == img[..size][i] == u[i];
    SameWords(img, u, RECOVERY_HEAD);
    SameWords(img, u, c.head + 4);
  }

  lemma ArmedWords(s: DiskState, base: seq<Byte>, els: seq<Element>, c: Commit, end: nat)
    requires Armed(s, base, els, c, end)
    ensures NamesArea(s.image, c)
  {
    hide Live, U32, Commit.Valid;
    assert s.Versions()[|s.earlier|] == s.image;
    LiveWords(s.image, c);
  }

  /** The second half of the commit: from a marked log to the finished file. */
  method WriteNewContents(file: DiskFile, tx: Transaction, magicOffset: nat, ghost c: Commit, ghost end: nat,
                          ghost n: nat, ghost oldHead: nat, ghost view: seq<Byte>)
    requires magicOffset == c.head + MAGIC_OFS && file.earlier == [] && view == View(tx.elements, c.before, 0, end)
    requires Armed(file.State(), c.before, tx.elements, c, end) && oldHead % 4 == 0
    requires n <= |file.trace| && Safe(file.trace, n, c, oldHead, view)
    requires |c.before| <= tx.oldMapSize && c.head + c.area <= tx.oldMapSize && tx.oldMapSize % 4 == 0
    requires tx.oldMapSize <= |file.image| <= tx.mapSize && end <= tx.mapSize && tx.mapSize % 4 == 0
    requires if c.Straddles() then tx.oldMapSize < |file.image| && tx.oldMapSize == |c.before| && end == tx.mapSize
                              else |file.image| == tx.oldMapSize
    requires c.Straddles() ==> file.image == MarkedPastEnd(c)
    modifies file, tx
    ensures tx.elements == [] && file.earlier == [] && old(file.trace) <= file.trace && Committed(file.image, c, view)
    ensures tx.mapSize == tx.oldMapSize
    ensures PaddingPastEnd(c, view) ==> Safe(file.trace, n, c, oldHead, view)
    ensures c.Straddles() ==> |c.before| <= end && OverrunPasses(file.trace, n, c, old(tx.elements), end)
  {
    hide U32, EncodeLog, EncodeRecord, EncodeU32, Safe, CrashImage, Live, Committed, LiveState, View, Applied,
         NotCovered, Pad, GrownState, FreshState, OldEntries, Commit.Valid, Passes, Commit.Blob, IsNew, Growing,
         PaddingPastEnd, PaddedLogFrom, NamesArea, Sound, Extent, MarkedPastEnd, AllInside;
    ghost var els, s0, t0 := tx.elements, file.State(), file.trace;
    ValidSizes(c);
    ArmedWords(file.State(), c.before, els, c, end);
    AreaHoldsRecord(c);
    if tx.mapSize != tx.oldMapSize {
      ExpandFile(file, tx.oldMapSize, tx.mapSize - tx.oldMapSize);
      ExpandedPrefix(file.image, s0.image, tx.oldMapSize, tx.mapSize - tx.oldMapSize);
      GrownIsOld(file.image, s0.image, c, tx.oldMapSize);
      if PaddingPastEnd(c, view) {
        PaddedPastSize(c, view, tx.oldMapSize);
        GrowthIsSafe(t0, file.trace, s0, file.State(), n, c, oldHead, view, tx.oldMapSize);
      }
      if c.Straddles() {
        PaddedPasses(file.trace, t0, file.State(), s0, n, c, end);
      }
      tx.mapSize := |file.image|;
    }
    ghost var t1, img := file.trace, file.image;
    FinishCommit(file, tx, magicOffset, c, end, n, oldHead, view);
    if c.Straddles() {
      PassesLonger(t1, file.trace, n, PaddedLog(c, end));
      ElementsFit(els, |c.before|, end, |img|);
    }
  }

  /**
   A log that passes the end of the file is seen with padding in its place, and then with the
   transaction's elements.
   */
  ghost predicate OverrunPasses(trace: seq<DiskState>, from: nat, c: Commit, els: seq<Element>, n: nat)
    requires c.Valid() && c.Straddles() && |c.before| <= n
  {
    && AllInside(els, n)
    && Passes(trace, from, PaddedLog(c, n)) && Passes(trace, from, Applied(els, PaddedLog(c, n)))
  }

  lemma ExpandedPrefix(img: seq<Byte>, u: seq<Byte>, size: nat, n: nat)
    requires size <= |u| && img == u[..size] + Pad(n)
    ensures size <= |img| && img[..size] == u[..size]
  {
  }

  /** ... once the file has its new length. */
  method FinishCommit(file: DiskFile, tx: Transaction, magicOffset: nat, ghost c: Commit, ghost end: nat,
                      ghost n: nat, ghost oldHead: nat, ghost view: seq<Byte>)
    requires magicOffset == c.head + MAGIC_OFS && view == View(tx.elements, c.before, 0, end)
    requires c.Valid() && Sound(tx.elements, |c.before|) && Extent(tx.elements, |c.before|, end)
    requires c.entries == OldEntries(tx.elements, c.before)
    requires NotCovered(tx.elements, RECOVERY_HEAD, RECOVERY_HEAD + 4)
    requires NotCovered(tx.elements, c.head, c.head + c.area)
    requires IsOld(file.image, c) && NamesArea(file.image, c) && |file.image| % 4 == 0
    requires end <= |file.image| && c.head + c.area <= |file.image| && n <= |file.trace|
    requires PaddingPastEnd(c, view) ==> Safe(file.trace, n, c, oldHead, view) && LiveState(file.State(), c)
    modifies file, tx
    ensures tx.elements == [] && file.earlier == [] && old(file.trace) <= file.trace && Committed(file.image, c, view)
    ensures tx.mapSize == tx.oldMapSize
    ensures PaddingPastEnd(c, view) ==> Safe(file.trace, n, c, oldHead, view)
    ensures AllInside(old(tx.elements), |old(file.image)|)
    ensures Passes(file.trace, n, Applied(old(tx.elements), old(file.image)))
  {
    hide U32, EncodeLog, EncodeRecord, EncodeU32, Safe, CrashImage, Live, Committed, LiveState, View, Applied,
         NotCovered, FreshState, OldEntries, Commit.Valid, Commit.Blob, IsNew, IsOld, Sound, Extent, PaddingPastEnd,
         NamesArea, Passes, AllInside;
    ghost var els, img := tx.elements, file.image;
    OldLength(img, c);
    ElementsFit(els, |c.before|, end, |img|);
    WriteElements(file, tx, c, end, n, oldHead, view);
    WrittenIsNew(els, c, end, img);
    AreaHoldsRecord(c);
    WrittenNamesArea(els, img, c);
    ClearedIsCommitted(file.image, c, view);
    if PaddingPastEnd(c, view) {
      SyncIsLive(file.State(), c);
      LiveStep(file.trace, file.State().Sync(), n, c, oldHead, view);
    }
    file.Sync();
    ghost var t1 := file.trace;
    SyncedPasses(file.trace, file.State(), n);
    if PaddingPastEnd(c, view) {
      ClearStep(file.trace, file.image, n, c, oldHead, view);
    }
    file.Write(magicOffset, ZERO4);
    if PaddingPastEnd(c, view) {
      CommittedStep(file.trace, file.State().Sync(), n, c, oldHead, view);
    }
    file.Sync();
    PassesLonger(t1, file.trace, n, Applied(els, img));
    tx.Cancel();
  }

  lemma OldLength(img: seq<Byte>, c: Commit)
    requires c.Valid() && IsOld(img, c)
    ensures RECOVERY_HEAD + 4 <= |c.before| <= |img|
  {
  }

  lemma SyncedPasses(trace: seq<DiskState>, s: DiskState, from: nat)
    requires from < |trace| && trace[|trace| - 1] == s && s.earlier == []
    ensures Passes(trace, from, s.image)
  {
    assert trace[|trace| - 1].Valid();
  }

  lemma GrowthIsSafe(before: seq<DiskState>, after: seq<DiskState>, s0: DiskState, s: DiskState,
                     n: nat, c: Commit, oldHead: nat, view: seq<Byte>, size: nat)
    requires c.Valid() && oldHead % 4 == 0 && Safe(before, n, c, oldHead, view) && LiveState(s0, c)
    requires before < after && Growing(s, after, |before|, s0, size) && |s.image| % 4 == 0
    requires |c.before| <= size && c.head + REC_SIZE <= size && PaddedLogFrom(c, size)
    ensures Safe(after, n, c, oldHead, view) && LiveState(s, c)
  {
    hide GrownState, LiveState, Safe, FreshState, PaddedLogFrom, Commit.Valid;
    forall k | |before| <= k < |after|
      ensures LiveState(after[k], c)
    {
      LiveGrownState(after[k], s0, c, size);
    }
    GrowSteps(before, after, n, c, oldHead, view);
  }

  lemma PaddedPasses(trace: seq<DiskState>, before: seq<DiskState>, s: DiskState, s0: DiskState, from: nat, c: Commit,
                     n: nat)
    requires c.Valid() && c.Straddles() && |c.before| <= n
    requires from <= |before| && before < trace && Growing(s, trace, |before|, s0, |c.before|)
    requires s.image == MarkedPastEnd(c)[..|c.before|] + Pad(n - |c.before|)
    ensures Passes(trace, from, PaddedLog(c, n))
  {
    hide MarkedPastEnd, Pad, Commit.Valid, GrownState, AllGrown;
    assert from <= |trace| - 1 < |trace| && trace[|trace| - 1].Valid() && trace[|trace| - 1].image == s.image;
  }

  lemma AreaHoldsRecord(c: Commit)
    requires c.Valid()
    ensures c.area >= REC_SIZE
  {
  }

  lemma ElementsFit(els: seq<Element>, m: nat, end: nat, n: nat)
    requires Sound(els, m) && Extent(els, m, end) && m <= n && end <= n
    ensures AllInside(els, n)
  {
  }

  lemma SyncIsLive(s: DiskState, c: Commit)
    requires c.Valid() && LiveState(s, c)
    ensures LiveState(s.Sync(), c) && Live(s.image, c)
  {
    hide Live;
    assert s.Versions()[|s.earlier|] == s.image;
    assert s.Sync().Versions() == [s.image];
  }

  /** Recovery of `img` succeeds and gives all of the old contents or all of the new. */
  ghost predicate OldOrNew(img: seq<Byte>, c: Commit, view: seq<Byte>) {
    Recovered(img).Done? && (IsOld(Recovered(img).image, c) || IsNew(Recovered(img).image, c, view))
  }

  /** Whatever a crash during a commit leaves, and however often recovery is then interrupted and run again,
      recovery succeeds and gives all of the old contents or all of the new. */
  lemma CommitIsAtomic(trace: seq<DiskState>, from: nat, k: nat, c: Commit, oldHead: nat, view: seq<Byte>,
                       run: seq<seq<Byte>>)
    requires c.Valid() && Safe(trace, from, c, oldHead, view)
    requires from <= k < |trace| && RestartRun(run) && CrashImage(trace[k], run[0])
    ensures OldOrNew(run[|run| - 1], c, view)
  {
    hide CrashImage, OldSide, IsOld, Recovered, U32, CrashedInRecovery;
    assert Survivable(run[0], c, oldHead, view);
    if OldSide(run[0], c, oldHead) {
      OldSideForEver(run, c, oldHead);
    } else {
      CommittedForEver(run, c, view);
    }
  }

  /** Whatever a crash from trace position `from` on leaves, and however often recovery is then interrupted. */
  ghost predicate Atomic(trace: seq<DiskState>, from: nat, c: Commit, view: seq<Byte>) {
    forall k, run: seq<seq<Byte>> ::
      from <= k < |trace| && RestartRun(run) && CrashImage(trace[k], run[0]) ==> OldOrNew(run[|run| - 1], c, view)
  }

  /** What the program sees of a disk state is what a crash there may leave. */
  lemma PassedImage(trace: seq<DiskState>, from: nat, img: seq<Byte>) returns (k: nat)
    requires Passes(trace, from, img)
    ensures from <= k < |trace| && CrashImage(trace[k], img)
  {
    hide CrashImage;
    k :| from <= k < |trace| && trace[k].Valid() && trace[k].image == img;
    NewestVersionCanSurvive(trace[k]);
  }

  /** A crash can leave the padded file, and if more than padding is lost, recovery fails or gives something else. */
  lemma OverrunCanBeFatal(trace: seq<DiskState>, from: nat, c: Commit, n: nat) returns (at: nat, img: seq<Byte>)
    requires c.Valid() && c.Straddles() && c.head + REC_SIZE + c.DataLen() <= n && c.DataLen() <= PAD_LENGTH
    requires !PaddedLogFrom(c, |c.before|) && Passes(trace, from, PaddedLog(c, n))
    ensures from <= at < |trace| && CrashImage(trace[at], img)
    ensures Recovered(img).Failed? <==> c.entries != [] && |c.before| < c.head + REC_SIZE + LastData(c)
    ensures Recovered(img).Done? ==> |Recovered(img).image| == |c.before| && !IsOld(Recovered(img).image, c)
  {
    hide U32, EncodeLog, PaddedLog, Recovered, CrashImage, PaddedLogFrom, Passes, IsOld, Commit.Valid, Commit.Straddles,
         LastData;
    ValidSizes(c);
    img := PaddedLog(c, n);
    PaddedLogOutcome(c, n);
    at := PassedImage(trace, from, img);
  }

  /** If recovery of one of those gives neither, the commit is not atomic. */
  lemma NotAtomic(trace: seq<DiskState>, from: nat, c: Commit, view: seq<Byte>, img: seq<Byte>)
    requires Passes(trace, from, img) && !OldOrNew(img, c, view)
    ensures !Atomic(trace, from, c, view)
  {
    hide OldOrNew, CrashImage, Passes;
    var k := PassedImage(trace, from, img);
    var run := [img];
    assert RestartRun(run) && run[0] == img && run[|run| - 1] == img;
  }

  lemma NeitherOldNorNew(img: seq<Byte>, c: Commit, view: seq<Byte>)
    requires |c.before| < |view|
    requires Recovered(img).Done? ==> |Recovered(img).image| == |c.before| && !IsOld(Recovered(img).image, c)
    ensures !OldOrNew(img, c, view)
  {
    hide Recovered, IsOld;
  }

  lemma WrittenHasRecord(els: seq<Element>, c: Commit, n: nat)
    requires c.Valid() && c.Straddles() && c.head + REC_SIZE + c.DataLen() <= n && AllInside(els, n)
    requires NotCovered(els, RECOVERY_HEAD, RECOVERY_HEAD + 4) && NotCovered(els, c.head, c.head + c.area)
    ensures |c.before| <= n && HasRecord(Applied(els, PaddedLog(c, n)), c) && IsOld(PaddedLog(c, n), c)
  {
    hide U32, EncodeLog, Applied, Commit.Blob, PaddedLog, Commit.Saved;
    var x := PaddedLog(c, n);
    PaddedHasRecord(c, n);
    AppliedWord(els, x, RECOVERY_HEAD);
    forall i | c.head <= i < |c.before|
      ensures Applied(els, x)[i] == x[i]
    {
      AppliedAt(els, x, i);
    }
  }

  lemma OverrunLoses(trace: seq<DiskState>, from: nat, c: Commit, els: seq<Element>, end: nat)
    requires c.Valid() && Extent(els, |c.before|, end)
    requires NotCovered(els, RECOVERY_HEAD, RECOVERY_HEAD + 4) && NotCovered(els, c.head, c.head + c.area)
    requires c.Straddles() && c.head + REC_SIZE + c.DataLen() <= end && c.DataLen() <= PAD_LENGTH
    requires |c.before| <= end && OverrunPasses(trace, from, c, els, end)
    requires !PaddingPastEnd(c, View(els, c.before, 0, end))
    ensures !Atomic(trace, from, c, View(els, c.before, 0, end))
  {
    hide U32, EncodeLog, Applied, PaddedLog, Commit.Valid, Commit.Straddles, PaddedLogFrom, Atomic, Extent, NotCovered,
         Recovered, HasRecord, IsOld, OldOrNew, Passes, View;
    var view := View(els, c.before, 0, end);
    ValidSizes(c);
    if !PaddedLogFrom(c, |c.before|) {
      PaddedLogOutcome(c, end);
      NeitherOldNorNew(PaddedLog(c, end), c, view);
      NotAtomic(trace, from, c, view, PaddedLog(c, end));
    } else {
      var x := Applied(els, PaddedLog(c, end));
      var at :| |c.before| <= at < c.head + REC_SIZE + |EncodeLog(c.entries)| && !PaddingAt(view, at);
      WrittenHasRecord(els, c, end);
      WrittenIsNew(els, c, end, PaddedLog(c, end));
      NewByte(x, c, view, at);
      OverwrittenOutcome(x, c, end, at);
      NeitherOldNorNew(x, c, view);
      NotAtomic(trace, from, c, view, x);
    }
  }

  lemma NewByte(img: seq<Byte>, c: Commit, view: seq<Byte>, i: nat)
    requires c.Valid() && c.Straddles() && IsNew(img, c, view) && |c.before| <= i < |view|
    ensures i < |img| && img[i] == view[i]
  {
    hide EncodeLog;
  }

  lemma AtomicExactly(trace: seq<DiskState>, from: nat, c: Commit, oldHead: nat, els: seq<Element>, end: nat)
    requires c.Valid() && Extent(els, |c.before|, end)
    requires NotCovered(els, RECOVERY_HEAD, RECOVERY_HEAD + 4) && NotCovered(els, c.head, c.head + c.area)
    requires PaddingPastEnd(c, View(els, c.before, 0, end)) ==>
              Safe(trace, from, c, oldHead, View(els, c.before, 0, end))
    requires c.Straddles() ==>
               |c.before| <= end && c.head + REC_SIZE + c.DataLen() <= end && OverrunPasses(trace, from, c, els, end)
    requires c.DataLen() <= PAD_LENGTH
    ensures Atomic(trace, from, c, View(els, c.before, 0, end)) <==> PaddingPastEnd(c, View(els, c.before, 0, end))
  {
    hide U32, EncodeLog, Commit.Valid, Commit.Straddles, PaddedLogFrom, PaddedView, OverrunPasses, Extent, NotCovered,
         View, Safe, CrashImage, CrashedInRecovery, OldOrNew;
    var view := View(els, c.before, 0, end);
    if PaddingPastEnd(c, view) {
      forall k, run: seq<seq<Byte>> | from <= k < |trace| && RestartRun(run) && CrashImage(trace[k], run[0])
        ensures OldOrNew(run[|run| - 1], c, view)
      {
        CommitIsAtomic(trace, from, k, c, oldHead, view, run);
      }
    } else {
      OverrunLoses(trace, from, c, els, end);
    }
  }

  /**
   tdb_transaction_commit.  `freeing` is what releasing an old, too small recovery area writes.
   The commit is atomic exactly if its log does not pass the end of the file, or what it has there
   and what the transaction writes there is padding.
   */
  method TransactionCommit(file: DiskFile, tx: Transaction, freeing: seq<PendingWrite>, pageSize: nat)
    returns (ok: bool, ghost c: Commit, ghost view: seq<Byte>)
    requires Ready(file, tx) && WritesFit(freeing, tx.mapSize, |tx.hashHeads|)
    requires pageSize > 0 && pageSize % 4 == 0
    modifies file, tx
    ensures tx.elements == [] && tx.mapSize == tx.oldMapSize && old(file.trace) <= file.trace
    ensures !ok || old(tx.elements) == [] ==> unchanged(file)
    ensures NonEmpty(old(tx.elements)) && NoneStraddles(old(tx.elements), |tx.base|)
    ensures ok <==>
              && !old(tx.transactionError)
              && (old(tx.elements) == [] ||
                  HasRoom(tx.base, old(tx.elements), old(tx.mapSize), freeing, pageSize))
    ensures ok && old(tx.elements) != [] ==>
              if FitsOldArea(tx.base, old(tx.elements)) then
                c == OldAreaCommit(tx.base, old(tx.elements)) && view == old(tx.Contents())
              else
                && c.head == old(tx.mapSize) && c.recLen == NewLengthFor(tx.base, old(tx.elements), freeing, pageSize)
                && view ==
                   if HeadWord(tx.base) == 0 then old(tx.Contents()) else AfterWrites(old(tx.Contents()), freeing)
    ensures ok && old(tx.elements) != [] ==>
              && c.before == old(file.image) && c.Valid() && HeadInFile(c.before)
              && Committed(file.image, c, view) && file.earlier == []
              && (c.Straddles() <==> PassesEnd(old(file.image), old(tx.elements)))
    ensures ok && old(tx.elements) != [] && PaddingPastEnd(c, view) ==>
              Safe(file.trace, old(|file.trace|), c, HeadWord(old(file.image)), view)
    ensures ok && old(tx.elements) != [] && c.DataLen() <= PAD_LENGTH ==>
              (Atomic(file.trace, old(|file.trace|), c, view) <==> PaddingPastEnd(c, view))
    ensures ok && old(tx.elements) != [] && PassesEnd(old(file.image), old(tx.elements)) ==>
              && c.head + REC_SIZE + c.DataLen() <= |view| && |c.before| <= |view|
              && OverrunPasses(file.trace, old(|file.trace|), c, old(tx.elements), |view|)
  {
    hide OldEntries, NotCovered, U32, Committed, LiveState, Safe, EncodeLog, Passes, Commit.Blob, IsNew, View, LogSize,
         Extent, Commit.Valid, PaddingPastEnd, PassesEnd, OverrunPasses, MarkedPastEnd, Atomic, Sound, NonEmpty,
         AfterAll, Released, NewLengthFor, NoneStraddles, FitsOldArea, HasRoom;
    SoundNonEmpty(tx.elements, |tx.base|);
    SoundSizes(tx.elements, |tx.base|, tx.mapSize);
    c, view := Commit([], [], 0, 0, 0), [];
    if tx.transactionError {
      tx.Cancel();
      return false, c, view;
    }
    if tx.elements == [] {
      tx.Cancel();
      return true, c, view;
    }
    ghost var n, end, els := |file.trace|, 0, tx.elements;
    ghost var oldHead := HeadWord(file.image);
    var magicOffset;
    ok, magicOffset, c, end := SetupRecovery(file, tx, freeing, pageSize);
    if !ok {
      tx.Cancel();
      return;
    }
    view := View(tx.elements, tx.base, 0, end);
    ghost var now := tx.elements;
    WriteNewContents(file, tx, magicOffset, c, end, n, oldHead, view);
    ValidSizes(c);
    if c.DataLen() <= PAD_LENGTH {
      AtomicExactly(file.trace, n, c, oldHead, now, end);
    }
  }

  // ---------- the transaction after a crash ----------

  /** The existing recovery area, with all the length its record gives it, lies in the file. */
  ghost predicate AreaInFile(img: seq<Byte>) {
    var head := HeadWord(img);
    head == 0 || (head + REC_SIZE <= |img| && head + REC_SIZE + U32(img, head + 4) <= |img|)
  }

  /** The head names a new area whose record is still padding, which reads as a length past the end of the file. */
  ghost predicate Unwritten(img: seq<Byte>, c: Commit) {
    && |c.before| <= c.head && c.head + REC_SIZE <= |img| && HeadWord(img) == c.head
    && U32(img, c.head + 4) == PAD_WORD && c.head + REC_SIZE + PAD_WORD > |img|
  }

  lemma SettlingWords(img: seq<Byte>, c: Commit)
    requires c.Valid() && Settling(img, c)
    ensures RECOVERY_HEAD + 4 <= |img| && c.head + REC_SIZE <= |img| && c.head + c.area <= |img| && |c.before| <= |img|
    ensures HeadWord(img) == c.head || HeadWord(img) == 0
    ensures U32(img, c.head + MAGIC_OFS) == RECOVERY_MAGIC || U32(img, c.head + MAGIC_OFS) == 0
    ensures U32(img, c.head + 4) == c.recLen
  {
    hide U32, EncodeLog, EncodeRecord, EncodeU32, BodyExceptMagic;
    BodyWords(img, c);
  }

  lemma MarkedIsLive(img: seq<Byte>, c: Commit)
    requires c.Valid() && Settling(img, c) && HeadWord(img) == c.head && U32(img, c.head + MAGIC_OFS) == RECOVERY_MAGIC
    ensures Live(img, c)
  {
    hide U32, EncodeLog, EncodeRecord, EncodeU32, BodyExceptMagic;
    MagicCompletesBody(img, c);
  }

  lemma OldHeadWords(img: seq<Byte>, c: Commit, oldHead: nat)
    requires c.Valid() && Fresh(img, c, oldHead) && |c.before| <= c.head
    requires oldHead == HeadWord(c.before) && HeadReady(c.before) && HeadInFile(c.before) && oldHead != 0
    ensures oldHead + REC_SIZE <= |c.before| <= |img| && U32(img, oldHead + 4) == U32(c.before, oldHead + 4)
  {
    hide U32, EncodeLog, LengthKnown;
    assert img[oldHead + 4..oldHead + 8] == c.before[oldHead + 4..oldHead + 8];
    U32Same(img, c.before, oldHead + 4, oldHead + 4);
  }

  lemma FreshNext(img: seq<Byte>, c: Commit, oldHead: nat)
    requires c.Valid() && Fresh(img, c, oldHead)
    requires oldHead == HeadWord(c.before) && HeadReady(c.before) && HeadInFile(c.before)
    ensures (|img| % 4 == 0 || c.Straddles()) && HeadReady(img)
    ensures AreaInFile(c.before) ==> (AreaInFile(img) <==> !Unwritten(img, c))
  {
    hide U32, EncodeLog, IsOld;
    FreshLength(img, c, oldHead);
    if |c.before| <= c.head && oldHead != 0 {
      OldHeadWords(img, c, oldHead);
    }
  }

  lemma FreshLength(img: seq<Byte>, c: Commit, oldHead: nat)
    requires Fresh(img, c, oldHead)
    ensures |c.before| <= |img|
  {
  }

  lemma SettlingNext(img: seq<Byte>, c: Commit)
    requires c.Valid() && Settling(img, c)
    requires HeadWord(img) == 0 || U32(img, c.head + MAGIC_OFS) == 0
    ensures HeadReady(img)
    ensures AreaInFile(c.before) ==> AreaInFile(img) && !Unwritten(img, c)
  {
    hide U32, EncodeLog, IsOld, Settling;
    SettlingWords(img, c);
  }

  /** A file recovered from a live log. */
  lemma LiveNext(img: seq<Byte>, c: Commit)
    requires c.Valid() && Live(img, c)
    ensures Recovered(img).Done?
    ensures var r := Recovered(img).image;
            |r| % 4 == 0 && HeadReady(r) && (AreaInFile(c.before) ==> AreaInFile(r) && !Unwritten(img, c))
  {
    hide U32, EncodeLog, IsOld, Settling, Live, FindLog, Recovered;
    LiveWords(img, c);
    RecoveredSettles(img, c);
    var r := Recovered(img).image;
    if Settling(r, c) {
      SettlingWords(r, c);
    }
  }

  /**
   The file recovered after a crash of a commit, however often recovery was interrupted, is one the
   next transaction can commit on ...
   */
  lemma RecoveredIsReady(img: seq<Byte>, c: Commit, oldHead: nat, view: seq<Byte>)
    requires c.Valid() && Survivable(img, c, oldHead, view)
    requires oldHead == HeadWord(c.before) && HeadReady(c.before) && HeadInFile(c.before)
    ensures Recovered(img).Done? && HeadReady(Recovered(img).image)
    ensures |Recovered(img).image| % 4 == 0 || (c.Straddles() && Recovered(img).image == img)
    // ... and the length of its recovery area can be trusted, unless the crash came before that was written
    ensures AreaInFile(c.before) ==> (AreaInFile(Recovered(img).image) <==> !Unwritten(img, c))
  {
    hide U32, EncodeLog, IsOld, IsNew, Fresh, Settling, Live, FindLog, Recovered, AreaInFile, Unwritten, HeadReady;
    if Live(img, c) {
      LiveNext(img, c);
    } else if Fresh(img, c, oldHead) {
      FreshRecovers(img, c, oldHead);
      FreshNext(img, c, oldHead);
    } else if Settling(img, c) {
      QuietOldSide(img, c, oldHead);
      SettlingWords(img, c);
      if HeadWord(img) == c.head && U32(img, c.head + MAGIC_OFS) == RECOVERY_MAGIC {
        MarkedIsLive(img, c);
      }
      SettlingLength(img, c);
      SettlingNext(img, c);
    } else if Restored(img, c) {
      QuietOldSide(img, c, oldHead);
      RestoredNext(img, c);
    } else {
      CommittedRecovers(img, c, view);
      CommittedNext(img, c, view);
    }
  }

  lemma SettlingLength(img: seq<Byte>, c: Commit)
    requires c.Valid() && Settling(img, c)
    ensures |img| % 4 == 0 || c.Straddles()
  {
  }

  lemma RestoredNext(img: seq<Byte>, c: Commit)
    requires c.Valid() && Restored(img, c)
    ensures |img| % 4 == 0 && HeadReady(img) && (AreaInFile(c.before) ==> AreaInFile(img)) && !Unwritten(img, c)
  {
    hide U32, EncodeLog, IsOld;
  }

  lemma CommittedNext(img: seq<Byte>, c: Commit, view: seq<Byte>)
    requires c.Valid() && Committed(img, c, view)
    ensures |img| % 4 == 0 && HeadReady(img)
    ensures AreaInFile(c.before) ==> (AreaInFile(img) <==> !Unwritten(img, c))
  {
    hide U32, EncodeLog, IsNew;
  }

  /** After a crash between the write of the head of a new area and that of its record, the length is padding. */
  lemma CrashInNewArea(s: DiskState, c: Commit, oldHead: nat)
    requires c.Valid() && FreshState(s, c, oldHead) && |c.before| <= c.head
    requires c.head + REC_SIZE <= |s.image| && HeadWord(s.image) == c.head && U32(s.image, c.head + 4) == PAD_WORD
    ensures CrashImage(s, s.image) && Recovered(s.image) == Done(s.image)
    ensures AreaInFile(s.image) <==> c.head + REC_SIZE + PAD_WORD <= |s.image|
  {
    hide U32, EncodeLog, CrashImage, FindLog, Recovered;
    NewestVersionCanSurvive(s);
    FreshImage(s, c, oldHead);
    FreshRecovers(s.image, c, oldHead);
  }
}
