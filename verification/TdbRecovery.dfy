/**
 Crash recovery of a tdb file: what tdb_transaction_recover makes of an image, and the
 classes of images a commit or an interrupted recovery can leave behind.
 */
module TdbRecovery {
  import opened Bytes
  import opened TdbOverlay
  import opened TdbDisk
  import opened TdbLog

  const RECOVERY_HEAD := 44
  const RECOVERY_MAGIC := 0xf53bc0e7
  const ZERO4: seq<Byte> := [0, 0, 0, 0]
  /** A word of the bytes a file is filled with when it grows. */
  const PAD_WORD := 0x42424242

  datatype Recovery = Done(image: seq<Byte>) | Failed

  ghost predicate AllInside(entries: seq<Element>, n: nat) {
    forall k :: 0 <= k < |entries| ==> entries[k].End() <= n
  }

  /** The word that names the recovery area. */
  function HeadWord(img: seq<Byte>): nat {
    if RECOVERY_HEAD + 4 <= |img| then U32(img, RECOVERY_HEAD) else 0
  }

  /** Where a record marked with the recovery magic is, if there is one. */
  datatype Located = Unmarked | OutOfBounds | Marked(head: nat, rec: Record)

  function Locate(img: seq<Byte>): (r: Located)
    ensures r.Marked? ==> RECOVERY_HEAD + 4 <= |img| && r.head + REC_SIZE + r.rec.dataLen <= |img|
  {
    if |img| < RECOVERY_HEAD + 4 then OutOfBounds
    else
      var head := U32(img, RECOVERY_HEAD);
      if head == 0 then Unmarked
      else if head + REC_SIZE > |img| then OutOfBounds
      else
        var rec := ReadRecord(img, head);
        if rec.magic != RECOVERY_MAGIC then Unmarked
        else if head + REC_SIZE + rec.dataLen > |img| then OutOfBounds
        else Marked(head, rec)
  }

  function LogData(img: seq<Byte>, head: nat, rec: Record): seq<Byte>
    requires head + REC_SIZE + rec.dataLen <= |img|
  {
    img[head + REC_SIZE..head + REC_SIZE + rec.dataLen]
  }

  /** Whether recovery finds a live log in `img`: where it is, its record and the ranges in it. */
  datatype Found = Nothing | Unreadable | Log(head: nat, rec: Record, entries: seq<Element>)

  ghost function FindLog(img: seq<Byte>): (r: Found)
    ensures r.Log? ==> RECOVERY_HEAD + 4 <= |img| && r.head + REC_SIZE <= |img| && AllInside(r.entries, |img|)
  {
    match Locate(img)
    case Unmarked => Nothing
    case OutOfBounds => Unreadable
    case Marked(head, rec) =>
      var parsed := ParseLog(LogData(img, head, rec), 0);
      if parsed.Malformed? || !AllInside(parsed.entries, |img|) then Unreadable
      else Log(head, rec, parsed.entries)
  }

  /** The file once the recovery head, if the area lies past the recovered end, and the magic are cleared. */
  ghost function Cleared(img: seq<Byte>, head: nat, eof: nat): (r: seq<Byte>)
    requires RECOVERY_HEAD + 4 <= |img| && head + REC_SIZE <= |img|
    ensures |r| == |img|
  {
    var r := if eof <= head then Splice(img, RECOVERY_HEAD, ZERO4) else img;
    Splice(r, head + MAGIC_OFS, ZERO4)
  }

  /** What tdb_transaction_recover makes of the file. */
  ghost function Recovered(img: seq<Byte>): Recovery {
    match FindLog(img)
    case Nothing => Done(img)
    case Unreadable => Failed
    case Log(head, rec, entries) =>
      Done(Resized(Cleared(Applied(entries, img), head, rec.keyLen), rec.keyLen))
  }

  /**
   A commit in progress: the file before it, the ranges it saves, and its recovery area: where it
   starts, how much of the file it takes up, and the length in its record, which may promise more.
   */
  datatype Commit = Commit(before: seq<Byte>, entries: seq<Element>, head: nat, area: nat, recLen: nat)
  {
    ghost predicate Reserved(i: int) {
      RECOVERY_HEAD <= i < RECOVERY_HEAD + 4 || head <= i < head + area
    }

    ghost predicate Saved(el: Element) {
      && el.End() <= |before| && el.data == before[el.offset..el.End()]
      && (el.End() <= RECOVERY_HEAD || RECOVERY_HEAD + 4 <= el.offset)
      && (el.End() <= head || head + area <= el.offset)
    }

    ghost predicate Valid() {
      && RECOVERY_HEAD + 4 <= |before| < U32_LIMIT && |before| % 4 == 0
      && head % 4 == 0 && RECOVERY_HEAD + 4 <= head && head + area < U32_LIMIT
      && area <= REC_SIZE + recLen && recLen < U32_LIMIT
      && (forall k :: 0 <= k < |entries| ==> Saved(entries[k]))
      && EntriesFit(entries) && DataLen() < U32_LIMIT && REC_SIZE <= area
      && (Straddles() || (REC_SIZE + DataLen() <= area && (|before| <= head || head + area <= |before|)))
      && (|before| <= head ==> area == REC_SIZE + recLen && recLen % 4 == 0)
      && (head < |before| ==> head == U32(before, RECOVERY_HEAD) && recLen == U32(before, head + 4))
    }

    /** The area ends with the old file, and the log in it does not. */
    ghost predicate Straddles()
      requires EntriesFit(entries)
    {
      head + area == |before| && REC_SIZE <= area < REC_SIZE + DataLen()
    }

    /** All the numbers that go into the recovery area fit their words. */
    ghost predicate Encodable() {
      EntriesFit(entries) && |before| < U32_LIMIT && recLen < U32_LIMIT && DataLen() < U32_LIMIT
    }

    ghost function DataLen(): nat
      requires EntriesFit(entries)
    {
      |EncodeLog(entries)| + 4
    }

    ghost function Rec(magic: nat): (r: Record)
      requires Encodable() && magic < U32_LIMIT
      ensures r.Fits()
    {
      Record(0, recLen, |before|, DataLen(), 0, magic)
    }

    /** The size of record and area, as a 32-bit sum. */
    ghost function Tailer(): (r: nat)
      ensures r < U32_LIMIT
    {
      (REC_SIZE + recLen) % U32_LIMIT
    }

    /** Record and log, which is what recovery reads. */
    ghost function Body(magic: nat): (r: seq<Byte>)
      requires Encodable() && magic < U32_LIMIT
      ensures |r| == REC_SIZE + |EncodeLog(entries)|
    {
      EncodeRecord(Rec(magic)) + EncodeLog(entries)
    }

    /** The recovery area as written to disk, with its tailer. */
    ghost function Blob(magic: nat): (r: seq<Byte>)
      requires Encodable() && magic < U32_LIMIT
      ensures |r| == REC_SIZE + DataLen()
    {
      Body(magic) + EncodeU32(Tailer())
    }
  }

  /** The bytes below the old file size, other than the recovery head and area, are those before the commit. */
  ghost predicate IsOld(img: seq<Byte>, c: Commit) {
    |c.before| <= |img| && forall i :: 0 <= i < |c.before| && !c.Reserved(i) ==> img[i] == c.before[i]
  }

  /** The same for the file the transaction commits. */
  ghost predicate IsNew(img: seq<Byte>, c: Commit, view: seq<Byte>) {
    |view| <= |img| && forall i :: 0 <= i < |view| && !c.Reserved(i) ==> img[i] == view[i]
  }

  ghost predicate HasBody(img: seq<Byte>, c: Commit, magic: nat)
    requires c.Valid() && magic < U32_LIMIT
  {
    c.head + REC_SIZE + c.DataLen() <= |img| && img[c.head..c.head + |c.Body(magic)|] == c.Body(magic)
  }

  /** The log is live: every byte that may have changed is saved in it. */
  ghost predicate Live(img: seq<Byte>, c: Commit)
    requires c.Valid()
  {
    && |c.before| <= |img| && (|img| % 4 == 0 || c.Straddles()) && c.head + c.area <= |img|
    && U32(img, RECOVERY_HEAD) == c.head
    && HasBody(img, c, RECOVERY_MAGIC)
    && forall i :: 0 <= i < |c.before| && !c.Reserved(i) && !Covered(c.entries, i) ==> img[i] == c.before[i]
  }

  lemma {:induction false} RestoredByte(c: Commit, entries: seq<Element>, img: seq<Byte>, i: nat)
    requires forall k :: 0 <= k < |entries| ==> c.Saved(entries[k])
    requires i < |c.before| && (Covered(entries, i) || (i < |img| && img[i] == c.before[i]))
    ensures ByteAt(entries, img, i) == c.before[i]
  {
    if entries != [] {
      var last, front := entries[|entries| - 1], entries[..|entries| - 1];
      if last.Covers(i) {
        assert c.Saved(last);
      } else {
        if Covered(entries, i) {
          var k :| 0 <= k < |entries| && entries[k].Covers(i);
          assert front[k].Covers(i);
        }
        RestoredByte(c, front, img, i);
      }
    }
  }

  lemma BodyParts(c: Commit, img: seq<Byte>, magic: nat)
    requires c.Valid() && magic < U32_LIMIT && HasBody(img, c, magic)
    ensures ReadRecord(img, c.head) == c.Rec(magic)
    ensures img[c.head + REC_SIZE..c.head + REC_SIZE + |EncodeLog(c.entries)|] == EncodeLog(c.entries)
  {
    hide U32, EncodeU32, EncodeRecord, EncodeLog, ReadRecord;
    var body := c.Body(magic);
    var rec, log := EncodeRecord(c.Rec(magic)), EncodeLog(c.entries);
    assert body == rec + log && |rec| == REC_SIZE;
    assert body[0..REC_SIZE] == rec && body[REC_SIZE..|body|] == log;
    SubSlice(img, c.head, body, 0, REC_SIZE);
    SubSlice(img, c.head, body, REC_SIZE, |body|);
    RecordRoundTrip(img, c.head, c.Rec(magic));
  }

  lemma LiveLogFound(img: seq<Byte>, c: Commit)
    requires c.Valid() && Live(img, c)
    ensures FindLog(img) == Log(c.head, c.Rec(RECOVERY_MAGIC), c.entries)
  {
    hide U32, EncodeU32, EncodeRecord, EncodeLog, ReadRecord, ParseLog;
    BodyParts(c, img, RECOVERY_MAGIC);
    var log := EncodeLog(c.entries);
    var data := img[c.head + REC_SIZE..c.head + REC_SIZE + c.DataLen()];
    MoreBytes(img, c.head + REC_SIZE, c.head + REC_SIZE + |log|, c.head + REC_SIZE + c.DataLen());
    var tail := img[c.head + REC_SIZE + |log|..c.head + REC_SIZE + c.DataLen()];
    assert data == log + tail;
    assert c.entries[..0] == [] && c.entries[0..] == c.entries;
    EmptyLog();
    LogRoundTrip(c.entries, tail, data, 0, 0);
    assert AllInside(c.entries, |img|) by {
      forall k | 0 <= k < |c.entries| ensures c.entries[k].End() <= |img| { assert c.Saved(c.entries[k]); }
    }
  }

  /** From a live log, recovery gives exactly the old file size and the old contents. */
  lemma LiveRecovers(img: seq<Byte>, c: Commit)
    requires c.Valid() && Live(img, c)
    ensures Recovered(img).Done? && |Recovered(img).image| == |c.before| && IsOld(Recovered(img).image, c)
  {
    LiveLogFound(img, c);
    var restored := Applied(c.entries, img);
    var r := Recovered(img).image;
    forall i | 0 <= i < |c.before| && !c.Reserved(i)
      ensures r[i] == c.before[i]
    {
      AppliedAt(c.entries, img, i);
      RestoredByte(c, c.entries, img, i);
    }
  }

  /** No log can be live: the recovery head and both possible records are those of a commit not yet under way. */
  ghost predicate Fresh(img: seq<Byte>, c: Commit, oldHead: nat) {
    && IsOld(img, c) && RECOVERY_HEAD + 4 <= |img| && (|img| % 4 == 0 || (EntriesFit(c.entries) && c.Straddles()))
    && (U32(img, RECOVERY_HEAD) == oldHead || (U32(img, RECOVERY_HEAD) == c.head && c.head + REC_SIZE <= |img|))
    && (oldHead != 0 ==> oldHead + REC_SIZE <= |img| && U32(img, oldHead + MAGIC_OFS) != RECOVERY_MAGIC)
    && (c.head + REC_SIZE <= |img| ==> U32(img, c.head + MAGIC_OFS) != RECOVERY_MAGIC)
    && (|img| <= c.head || c.head + c.area <= |img|)
    && LengthKnown(img, c)
  }

  /** The length in the record of the area; in a new area it may not be written yet. */
  ghost predicate LengthKnown(img: seq<Byte>, c: Commit) {
    c.head + REC_SIZE <= |img| ==>
      || U32(img, c.head + 4) == c.recLen
      || (|c.before| <= c.head && (U32(img, c.head + 4) == 0 || U32(img, c.head + 4) == PAD_WORD))
  }

  /** The old contents are back; the recovery head and the magic may or may not be cleared yet. */
  ghost predicate Settling(img: seq<Byte>, c: Commit)
    requires c.Valid()
  {
    && IsOld(img, c) && RECOVERY_HEAD + 4 <= |img| && (|img| % 4 == 0 || c.Straddles())
    && c.head + c.area <= |img| && c.head + REC_SIZE + c.DataLen() <= |img|
    && (U32(img, RECOVERY_HEAD) == c.head || U32(img, RECOVERY_HEAD) == 0)
    && (U32(img, c.head + MAGIC_OFS) == RECOVERY_MAGIC || U32(img, c.head + MAGIC_OFS) == 0)
    && BodyExceptMagic(img, c)
  }

  ghost predicate BodyExceptMagic(img: seq<Byte>, c: Commit)
    requires c.Valid() && c.head + REC_SIZE + c.DataLen() <= |img|
  {
    var body := c.Body(RECOVERY_MAGIC);
    forall i :: 0 <= i < |body| && !(MAGIC_OFS <= i < MAGIC_OFS + 4) ==> img[c.head + i] == body[i]
  }

  /** The transaction's file, with the recovery magic cleared. */
  ghost predicate Committed(img: seq<Byte>, c: Commit, view: seq<Byte>) {
    && IsNew(img, c, view) && RECOVERY_HEAD + 4 <= |img| && |c.before| <= |img| && |img| % 4 == 0
    && c.head + REC_SIZE <= |img| && c.head + c.area <= |img|
    && U32(img, RECOVERY_HEAD) == c.head && U32(img, c.head + MAGIC_OFS) == 0 && U32(img, c.head + 4) == c.recLen
  }

  lemma LiveCrash(s: DiskState, c: Commit, img: seq<Byte>)
    requires c.Valid() && s.Valid() && CrashImage(s, img)
    requires forall k :: 0 <= k < |s.Versions()| ==> Live(s.Versions()[k], c)
    ensures Live(img, c)
  {
    hide U32;
    assert |s.Versions()[|s.earlier|]| == |img|;
    var _ := CrashWord(s, img, RECOVERY_HEAD);
    var body := c.Body(RECOVERY_MAGIC);
    forall i | 0 <= i < |body|
      ensures img[c.head..c.head + |body|][i] == body[i]
    {
      var k := CrashByte(s, img, c.head + i);
      assert Live(s.Versions()[k], c);
      assert s.Versions()[k][c.head..c.head + |body|][i] == s.Versions()[k][c.head + i];
    }
    forall i | 0 <= i < |c.before| && !c.Reserved(i) && !Covered(c.entries, i)
      ensures img[i] == c.before[i]
    {
      var k := CrashByte(s, img, i);
      assert Live(s.Versions()[k], c);
    }
  }

  lemma CrashLength(s: DiskState, img': seq<Byte>)
    requires CrashImage(s, img')
    ensures |img'| == |s.image|
  {
  }

  lemma IsOldCrash(s: DiskState, c: Commit, img: seq<Byte>)
    requires s.Valid() && CrashImage(s, img)
    requires forall k :: 0 <= k < |s.Versions()| ==> IsOld(s.Versions()[k], c)
    ensures IsOld(img, c)
  {
    assert |s.Versions()[|s.earlier|]| == |img|;
    forall i | 0 <= i < |c.before| && !c.Reserved(i)
      ensures img[i] == c.before[i]
    {
      var k := CrashByte(s, img, i);
      assert IsOld(s.Versions()[k], c);
    }
  }

  lemma FreshCrash(s: DiskState, c: Commit, oldHead: nat, img: seq<Byte>)
    requires c.head % 4 == 0 && oldHead % 4 == 0 && s.Valid() && CrashImage(s, img)
    requires forall k :: 0 <= k < |s.Versions()| ==> Fresh(s.Versions()[k], c, oldHead)
    ensures Fresh(img, c, oldHead)
  {
    hide U32;
    assert s.Versions()[|s.earlier|] == s.image;
    IsOldCrash(s, c, img);
    var k := CrashWord(s, img, RECOVERY_HEAD);
    assert Fresh(s.Versions()[k], c, oldHead);
    if oldHead != 0 {
      var k' := CrashWord(s, img, oldHead + MAGIC_OFS);
      assert Fresh(s.Versions()[k'], c, oldHead);
    }
    if c.head + REC_SIZE <= |img| {
      var k' := CrashWord(s, img, c.head + MAGIC_OFS);
      assert Fresh(s.Versions()[k'], c, oldHead);
      var j := CrashWord(s, img, c.head + 4);
      assert Fresh(s.Versions()[j], c, oldHead);
    }
  }

  lemma SettlingCrash(s: DiskState, c: Commit, img: seq<Byte>)
    requires c.Valid() && s.Valid() && CrashImage(s, img)
    requires forall k :: 0 <= k < |s.Versions()| ==> Settling(s.Versions()[k], c)
    ensures Settling(img, c)
  {
    hide U32, IsOld, BodyExceptMagic, EncodeLog, CrashImage;
    CrashLength(s, img);
    assert s.Versions()[|s.earlier|] == s.image;
    IsOldCrash(s, c, img);
    var k := CrashWord(s, img, RECOVERY_HEAD);
    assert Settling(s.Versions()[k], c);
    k := CrashWord(s, img, c.head + MAGIC_OFS);
    assert Settling(s.Versions()[k], c);
    SettlingBodyCrash(s, c, img);
  }

  lemma SettlingBodyCrash(s: DiskState, c: Commit, img: seq<Byte>)
    requires c.Valid() && s.Valid() && CrashImage(s, img) && c.head + REC_SIZE + c.DataLen() <= |img|
    requires forall k :: 0 <= k < |s.Versions()| ==> Settling(s.Versions()[k], c)
    ensures BodyExceptMagic(img, c)
  {
    hide U32, IsOld, EncodeLog, CrashImage, Commit.Body;
    var body := c.Body(RECOVERY_MAGIC);
    forall i | 0 <= i < |body| && !(MAGIC_OFS <= i < MAGIC_OFS + 4)
      ensures img[c.head + i] == body[i]
    {
      var j := CrashByte(s, img, c.head + i);
      assert Settling(s.Versions()[j], c);
    }
  }

  lemma FreshRecovers(img: seq<Byte>, c: Commit, oldHead: nat)
    requires Fresh(img, c, oldHead)
    ensures FindLog(img) == Nothing && Recovered(img) == Done(img)
  {
    hide U32, ParseLog;
  }

  /** A settling image still has its log, or recovery leaves it alone. */
  lemma SettlingIsLiveOrDone(img: seq<Byte>, c: Commit)
    requires c.Valid() && Settling(img, c)
    ensures Live(img, c) || FindLog(img) == Nothing
  {
    hide U32, ParseLog, EncodeU32, EncodeLog;
    if U32(img, RECOVERY_HEAD) == c.head && U32(img, c.head + MAGIC_OFS) == RECOVERY_MAGIC {
      MagicCompletesBody(img, c);
    }
  }

  lemma MagicCompletesBody(img: seq<Byte>, c: Commit)
    requires c.Valid() && c.head + REC_SIZE + c.DataLen() <= |img|
    requires BodyExceptMagic(img, c) && U32(img, c.head + MAGIC_OFS) == RECOVERY_MAGIC
    ensures HasBody(img, c, RECOVERY_MAGIC)
  {
    var body := c.Body(RECOVERY_MAGIC);
    var e := EncodeU32(RECOVERY_MAGIC);
    assert EncodeRecord(c.Rec(RECOVERY_MAGIC))[MAGIC_OFS..MAGIC_OFS + 4] == e;
    assert body[MAGIC_OFS..MAGIC_OFS + 4] == e;
    hide EncodeU32, EncodeRecord, EncodeLog;
    U32Injective(img[c.head + MAGIC_OFS..c.head + MAGIC_OFS + 4], RECOVERY_MAGIC);
    forall i | 0 <= i < |body|
      ensures img[c.head..c.head + |body|][i] == body[i]
    {
      if MAGIC_OFS <= i < MAGIC_OFS + 4 {
        assert body[i] == e[i - MAGIC_OFS];
        assert img[c.head + i] == img[c.head + MAGIC_OFS..c.head + MAGIC_OFS + 4][i - MAGIC_OFS];
      }
    }
  }

  /** Either way the outcome of recovery is the old contents. */
  lemma SettlingRecovers(img: seq<Byte>, c: Commit)
    requires c.Valid() && Settling(img, c)
    ensures Recovered(img).Done? && IsOld(Recovered(img).image, c)
  {
    SettlingIsLiveOrDone(img, c);
    if Live(img, c) {
      LiveRecovers(img, c);
    }
  }

  lemma CommittedRecovers(img: seq<Byte>, c: Commit, view: seq<Byte>)
    requires Committed(img, c, view)
    ensures FindLog(img) == Nothing && Recovered(img) == Done(img)
  {
    hide U32, IsNew, FindLog, Recovered;
    LocatedMeans(img);
  }

  // ---------- the disk while recovery runs ----------

  /** The disk after the ranges `es` have been written back. */
  ghost function ReplayState(s0: DiskState, es: seq<Element>): (s: DiskState)
    requires AllInside(es, |s0.image|)
    ensures s.image == Applied(es, s0.image)
  {
    if es == [] then s0
    else
      var front, last := es[..|es| - 1], es[|es| - 1];
      ReplayStateFits(s0.image, es);
      ReplayState(s0, front).Write(last.offset, last.data)
  }

  lemma ReplayStateFits(img: seq<Byte>, es: seq<Element>)
    requires es != [] && AllInside(es, |img|)
    ensures AllInside(es[..|es| - 1], |img|) && es[|es| - 1].End() <= |img|
  {
    assert forall k :: 0 <= k < |es| - 1 ==> es[..|es| - 1][k] == es[k];
  }

  ghost function ReplayTrace(s0: DiskState, es: seq<Element>): (r: seq<DiskState>)
    requires AllInside(es, |s0.image|)
    ensures |r| == |es| + 1
  {
    if es == [] then [s0]
    else
      ReplayStateFits(s0.image, es);
      ReplayTrace(s0, es[..|es| - 1]) + [ReplayState(s0, es)]
  }

  ghost function HeadCleared(s: DiskState, head: nat, eof: nat): (r: DiskState)
    requires RECOVERY_HEAD + 4 <= |s.image|
    ensures |r.image| == |s.image|
  {
    if eof <= head then s.Write(RECOVERY_HEAD, ZERO4) else s
  }

  /** Every state of the disk during a recovery that finds a log, in order; the last two are after the cut. */
  ghost function RecoveryTrace(s0: DiskState): (r: seq<DiskState>)
    requires FindLog(s0.image).Log?
    ensures |r| >= 4
  {
    var Log(head, rec, entries) := FindLog(s0.image);
    ReplayTrace(s0, entries) + ClearTrace(ReplayState(s0, entries), head, rec.keyLen)
  }

  /** The last of them is the recovered file, synced. */
  lemma RecoveryTraceEnds(s0: DiskState)
    requires FindLog(s0.image).Log?
    ensures var r := RecoveryTrace(s0);
            Recovered(s0.image) == Done(r[|r| - 1].image) && r[|r| - 1].earlier == []
  {
    hide FindLog, Applied, ReplayState, ReplayTrace, ClearTrace, Cleared, Resized;
  }

  /** The states from the sync of the restored contents on; the last two are after the cut. */
  ghost function ClearTrace(s: DiskState, head: nat, eof: nat): (r: seq<DiskState>)
    requires RECOVERY_HEAD + 4 <= |s.image| && head + REC_SIZE <= |s.image|
    ensures |r| >= 4 && r[|r| - 1] == DiskState(Resized(Cleared(s.image, head, eof), eof), [])
  {
    var synced := s.Sync();
    var cleared := HeadCleared(synced, head, eof);
    var quiet := cleared.Write(head + MAGIC_OFS, ZERO4);
    var cut := quiet.SetLength(eof);
    [synced] + (if eof <= head then [cleared] else []) + [quiet, cut, cut.Sync()]
  }

  /** tdb_transaction_recover */
  method Recover(file: DiskFile) returns (ok: bool)
    modifies file
    ensures ok <==> !FindLog(old(file.image)).Unreadable?
    ensures FindLog(old(file.image)).Nothing? ==> unchanged(file)
    ensures ok ==> Recovered(old(file.image)) == Done(file.image)
    ensures FindLog(old(file.image)).Log? ==>
              file.trace == old(file.trace) + RecoveryTrace(old(file.State()))[1..]
  {
    hide U32, ParseLog, LogData, Applied, ReplayState, ReplayTrace, AllInside, ClearTrace, RecoveryTrace, Cleared,
         Locate, Resized, FindLog, Recovered;
    var located := ReadHeader(file);
    LocatedMeans(file.image);
    if located.Unmarked? {
      return true;
    }
    if located.OutOfBounds? {
      return false;
    }
    var Marked(head, rec) := located;
    ghost var s0 := file.State();
    assert s0.image == file.image;
    ghost var entries;
    ok, entries := WriteBack(file, LogData(file.image, head, rec));
    if ok {
      RecoveryOf(s0, head, rec, entries);
      Clear(file, head, rec.keyLen);
    }
  }

  /** Read the recovery head and the record it points to. */
  method ReadHeader(file: DiskFile) returns (r: Located)
    ensures r == Locate(file.image)
  {
    hide U32;
    if |file.image| < RECOVERY_HEAD + 4 {
      return OutOfBounds;
    }
    var head := U32(file.image, RECOVERY_HEAD);
    if head == 0 {
      return Unmarked;
    }
    if head + REC_SIZE > |file.image| {
      return OutOfBounds;
    }
    var rec := ReadRecord(file.image, head);
    if rec.magic != RECOVERY_MAGIC {
      return Unmarked;
    }
    if head + REC_SIZE + rec.dataLen > |file.image| {
      return OutOfBounds;
    }
    r := Marked(head, rec);
  }

  lemma LocatedMeans(img: seq<Byte>)
    ensures match Locate(img)
            case Unmarked => FindLog(img) == Nothing && Recovered(img) == Done(img)
            case OutOfBounds => FindLog(img) == Unreadable
            case Marked(head, rec) =>
              var parsed := ParseLog(LogData(img, head, rec), 0);
              FindLog(img) == if parsed.Ranges? && AllInside(parsed.entries, |img|)
                              then Log(head, rec, parsed.entries) else Unreadable
  {
    hide Locate, ParseLog, AllInside;
  }

  lemma RecoveryOf(s0: DiskState, head: nat, rec: Record, entries: seq<Element>)
    requires FindLog(s0.image) == Log(head, rec, entries)
    ensures RecoveryTrace(s0)[1..] ==
            ReplayTrace(s0, entries)[1..] + ClearTrace(ReplayState(s0, entries), head, rec.keyLen)
    ensures Recovered(s0.image) == Done(Resized(Cleared(ReplayState(s0, entries).image, head, rec.keyLen), rec.keyLen))
  {
    hide FindLog, Applied, ReplayState, ReplayTrace, ClearTrace, Cleared, Resized;
  }

  /** What is left of recovery once the old contents are written back: sync, forget the log, cut the file. */
  method Clear(file: DiskFile, head: nat, eof: nat)
    requires RECOVERY_HEAD + 4 <= |file.image| && head + REC_SIZE <= |file.image|
    modifies file
    ensures file.trace == old(file.trace) + ClearTrace(old(file.State()), head, eof)
    ensures file.image == Resized(Cleared(old(file.image), head, eof), eof)
  {
    hide Splice, Resized, ResizedAll;
    file.Sync();
    if eof <= head {
      file.Write(RECOVERY_HEAD, ZERO4);
    }
    file.Write(head + MAGIC_OFS, ZERO4);
    file.SetLength(eof);
    file.Sync();
  }

  /** The loop that writes every range of the log back. */
  method WriteBack(file: DiskFile, data: seq<Byte>) returns (ok: bool, ghost entries: seq<Element>)
    modifies file
    ensures ok <==> ParseLog(data, 0).Ranges? && AllInside(ParseLog(data, 0).entries, |old(file.image)|)
    ensures ok ==> ParseLog(data, 0).entries == entries && AllInside(entries, |old(file.image)|)
    ensures ok ==> file.State() == ReplayState(old(file.State()), entries)
    ensures ok ==> file.trace == old(file.trace) + ReplayTrace(old(file.State()), entries)[1..]
  {
    hide U32, ParseLog, Applied, ReplayState, ReplayTrace, AllInside, Prepend;
    ghost var s0, t0 := file.State(), file.trace;
    var p := 0;
    entries := [];
    ok := true;
    ReplayNothing(s0, ParseLog(data, 0));
    while p + 8 < |data|
      invariant AllInside(entries, |s0.image|)
      invariant file.State() == ReplayState(s0, entries) && |file.image| == |s0.image|
      invariant file.trace == t0 + ReplayTrace(s0, entries)[1..]
      invariant ParseLog(data, 0) == Prepend(entries, ParseLog(data, p))
      decreases |data| - p
    {
      var ofs, len := U32(data, p), U32(data, p + 4);
      ParseNext(data, p, entries, |s0.image|);
      if p + 8 + len > |data| || ofs + len > |file.image| {
        return false, entries;
      }
      var el := Element(ofs, data[p + 8..p + 8 + len]);
      ReplayStep(s0, entries, el);
      file.Write(ofs, el.data);
      entries := entries + [el];
      p := p + 8 + len;
    }
    ParseEnd(data, p, entries);
  }

  lemma ReplayNothing(s0: DiskState, log: ParsedLog)
    ensures AllInside([], |s0.image|) && ReplayState(s0, []) == s0 && ReplayTrace(s0, []) == [s0]
    ensures Prepend([], log) == log
  {
    assert log.Ranges? ==> [] + log.entries == log.entries;
  }

  lemma ReplayStep(s0: DiskState, es: seq<Element>, el: Element)
    requires AllInside(es, |s0.image|) && el.End() <= |s0.image|
    ensures AllInside(es + [el], |s0.image|) && |ReplayState(s0, es).image| == |s0.image|
    ensures ReplayState(s0, es + [el]) == ReplayState(s0, es).Write(el.offset, el.data)
    ensures ReplayTrace(s0, es + [el])[1..] == ReplayTrace(s0, es)[1..] + [ReplayState(s0, es + [el])]
  {
    assert (es + [el])[..|es|] == es;
  }

  /** The ranges from `p` on, after `es`: the next one is bad, or it joins `es`. */
  lemma ParseNext(data: seq<Byte>, p: nat, es: seq<Element>, n: nat)
    requires p + 8 < |data|
    ensures var ofs, len := U32(data, p), U32(data, p + 4);
            var all := Prepend(es, ParseLog(data, p));
            && (p + 8 + len > |data| ==> all == Malformed)
            && (p + 8 + len <= |data| ==>
                  all == Prepend(es + [Element(ofs, data[p + 8..p + 8 + len])], ParseLog(data, p + 8 + len)))
            && (p + 8 + len <= |data| && ofs + len > n ==> all == Malformed || !AllInside(all.entries, n))
  {
    hide U32;
    var ofs, len := U32(data, p), U32(data, p + 4);
    if p + 8 + len <= |data| && ParseLog(data, p).Ranges? {
      var el, rest := Element(ofs, data[p + 8..p + 8 + len]), ParseLog(data, p + 8 + len).entries;
      assert es + ([el] + rest) == (es + [el]) + rest;
      assert (es + ([el] + rest))[|es|] == el;
    }
  }

  lemma ParseEnd(data: seq<Byte>, p: nat, es: seq<Element>)
    requires p + 8 >= |data|
    ensures Prepend(es, ParseLog(data, p)) == Ranges(es)
  {
  }

  ghost function Prepend(entries: seq<Element>, rest: ParsedLog): ParsedLog {
    match rest
    case Malformed => Malformed
    case Ranges(es) => Ranges(entries + es)
  }

  // ---------- crashes while recovery runs ----------

  ghost predicate LiveState(s: DiskState, c: Commit)
    requires c.Valid()
  {
    s.Valid() && forall k :: 0 <= k < |s.Versions()| ==> Live(s.Versions()[k], c)
  }

  ghost predicate SettlingState(s: DiskState, c: Commit)
    requires c.Valid()
  {
    s.Valid() && forall k :: 0 <= k < |s.Versions()| ==> Settling(s.Versions()[k], c)
  }

  /** The write puts into the log only what the log holds there. */
  ghost predicate KeepsBody(c: Commit, off: nat, data: seq<Byte>)
    requires c.Valid()
  {
    var body := c.Body(RECOVERY_MAGIC);
    forall j :: 0 <= j < |data| && c.head <= off + j < c.head + |body| ==> data[j] == body[off + j - c.head]
  }

  /** A write keeps the log live if it misses the recovery head, keeps the log and changes no unsaved old byte. */
  lemma LiveWrite(img: seq<Byte>, c: Commit, off: nat, data: seq<Byte>)
    requires c.Valid() && Live(img, c) && off + |data| <= |img|
    requires off + |data| <= RECOVERY_HEAD || RECOVERY_HEAD + 4 <= off
    requires KeepsBody(c, off, data)
    requires forall i ::
      off <= i < off + |data| && i < |c.before| && !Covered(c.entries, i) ==> data[i - off] == c.before[i]
    ensures Live(Splice(img, off, data), c)
  {
    hide U32, EncodeLog, EncodeU32, EncodeRecord, Commit.Body;
    var after, body := Splice(img, off, data), c.Body(RECOVERY_MAGIC);
    assert after[RECOVERY_HEAD..RECOVERY_HEAD + 4] == img[RECOVERY_HEAD..RECOVERY_HEAD + 4];
    U32Same(after, img, RECOVERY_HEAD, RECOVERY_HEAD);
    forall i | 0 <= i < |body|
      ensures after[c.head..c.head + |body|][i] == body[i]
    {
      assert img[c.head..c.head + |body|][i] == img[c.head + i];
      if off <= c.head + i < off + |data| {
        assert data[c.head + i - off] == body[i];
      }
    }
  }

  lemma LiveRestore(img: seq<Byte>, c: Commit, el: Element)
    requires c.Valid() && Live(img, c) && c.Saved(el) && el.End() <= |img|
    ensures Live(Splice(img, el.offset, el.data), c)
  {
    hide U32, EncodeLog, EncodeU32, EncodeRecord, Commit.Body;
    LiveWrite(img, c, el.offset, el.data);
  }

  lemma {:induction false} ReplayLive(s0: DiskState, c: Commit, es: seq<Element>, k: nat)
    requires c.Valid() && LiveState(s0, c)
    requires AllInside(es, |s0.image|) && forall j :: 0 <= j < |es| ==> c.Saved(es[j])
    requires k <= |es|
    ensures LiveState(ReplayState(s0, es), c) && LiveState(ReplayTrace(s0, es)[k], c)
  {
    hide Live;
    if es != [] {
      var front, last := es[..|es| - 1], es[|es| - 1];
      ReplayStateFits(s0.image, es);
      ReplayLive(s0, c, front, if k < |es| then k else 0);
      var s := ReplayState(s0, front);
      assert s.Versions()[|s.earlier|] == s.image;
      LiveRestore(s.image, c, last);
      var s' := s.Write(last.offset, last.data);
      assert forall j :: 0 <= j < |s.Versions()| ==> s'.Versions()[j] == s.Versions()[j];
    } else {
      assert ReplayTrace(s0, es) == [s0];
    }
  }

  lemma RestoredIsOld(img: seq<Byte>, c: Commit)
    requires c.Valid() && Live(img, c) && AllInside(c.entries, |img|)
    ensures IsOld(Applied(c.entries, img), c)
  {
    var r := Applied(c.entries, img);
    forall i | 0 <= i < |c.before| && !c.Reserved(i)
      ensures r[i] == c.before[i]
    {
      AppliedAt(c.entries, img, i);
      RestoredByte(c, c.entries, img, i);
    }
  }

  lemma LiveAndOldIsSettling(r: seq<Byte>, c: Commit)
    requires c.Valid() && Live(r, c) && IsOld(r, c)
    ensures Settling(r, c)
  {
    hide U32, EncodeLog, EncodeU32, EncodeRecord, IsOld;
    var body := c.Body(RECOVERY_MAGIC);
    BodyParts(c, r, RECOVERY_MAGIC);
    forall i | 0 <= i < |body|
      ensures r[c.head + i] == body[i]
    {
      assert r[c.head..c.head + |body|][i] == r[c.head + i];
    }
  }

  lemma ZeroWord(s: seq<Byte>, off: nat)
    requires off + 4 <= |s|
    ensures U32(Splice(s, off, ZERO4), off) == 0
  {
  }

  lemma OtherWord(s: seq<Byte>, off: nat, data: seq<Byte>, at: nat)
    requires off + |data| <= |s| && at + 4 <= |s| && (at + 4 <= off || off + |data| <= at)
    ensures U32(Splice(s, off, data), at) == U32(s, at)
  {
    hide U32;
    assert Splice(s, off, data)[at..at + 4] == s[at..at + 4];
    U32Same(Splice(s, off, data), s, at, at);
  }

  lemma SettlingHeadCleared(img: seq<Byte>, c: Commit)
    requires c.Valid() && Settling(img, c)
    ensures Settling(Splice(img, RECOVERY_HEAD, ZERO4), c)
  {
    hide U32, EncodeLog, EncodeU32, EncodeRecord;
    ZeroWord(img, RECOVERY_HEAD);
    OtherWord(img, RECOVERY_HEAD, ZERO4, c.head + MAGIC_OFS);
  }

  lemma SettlingMagicCleared(img: seq<Byte>, c: Commit)
    requires c.Valid() && Settling(img, c)
    ensures Settling(Splice(img, c.head + MAGIC_OFS, ZERO4), c)
  {
    hide U32, EncodeLog, EncodeU32, EncodeRecord;
    ZeroWord(img, c.head + MAGIC_OFS);
    OtherWord(img, c.head + MAGIC_OFS, ZERO4, RECOVERY_HEAD);
  }

  lemma SettlingWrite(s: DiskState, c: Commit, off: nat, data: seq<Byte>)
    requires c.Valid() && SettlingState(s, c) && off + |data| <= |s.image|
    requires Settling(Splice(s.image, off, data), c)
    ensures SettlingState(s.Write(off, data), c)
  {
    hide Settling;
    assert forall k :: 0 <= k < |s.Versions()| ==> s.Write(off, data).Versions()[k] == s.Versions()[k];
  }

  lemma ClearTraceAt(s: DiskState, head: nat, eof: nat, k: nat)
    requires RECOVERY_HEAD + 4 <= |s.image| && head + REC_SIZE <= |s.image|
    requires k < |ClearTrace(s, head, eof)| - 2
    ensures var synced := s.Sync();
            var cleared := HeadCleared(synced, head, eof);
            var at := ClearTrace(s, head, eof)[k];
            at == synced || at == cleared || at == cleared.Write(head + MAGIC_OFS, ZERO4)
  {
  }

  lemma SettlingSynced(s: DiskState, c: Commit)
    requires c.Valid() && Settling(s.image, c)
    ensures SettlingState(s.Sync(), c)
  {
  }

  lemma SettlingHeadClear(s: DiskState, c: Commit, eof: nat)
    requires c.Valid() && SettlingState(s, c) && Settling(s.image, c)
    ensures SettlingState(HeadCleared(s, c.head, eof), c) && Settling(HeadCleared(s, c.head, eof).image, c)
  {
    SettlingHeadCleared(s.image, c);
    hide Settling, SettlingState;
    if eof <= c.head {
      SettlingWrite(s, c, RECOVERY_HEAD, ZERO4);
    }
  }

  lemma SettlingMagicClear(s: DiskState, c: Commit)
    requires c.Valid() && SettlingState(s, c) && Settling(s.image, c)
    ensures SettlingState(s.Write(c.head + MAGIC_OFS, ZERO4), c)
  {
    SettlingMagicCleared(s.image, c);
    hide Settling, SettlingState;
    SettlingWrite(s, c, c.head + MAGIC_OFS, ZERO4);
  }

  /** What the disk holds after the old contents are synced and until the file is cut. */
  lemma ClearSettling(s: DiskState, c: Commit, eof: nat, k: nat)
    requires c.Valid() && Settling(s.image, c)
    requires k < |ClearTrace(s, c.head, eof)| - 2
    ensures SettlingState(ClearTrace(s, c.head, eof)[k], c)
  {
    ClearTraceAt(s, c.head, eof, k);
    SettlingSynced(s, c);
    hide Settling, SettlingState, ClearTrace;
    SettlingHeadClear(s.Sync(), c, eof);
    SettlingMagicClear(HeadCleared(s.Sync(), c.head, eof), c);
  }

  lemma TraceOf(s0: DiskState, head: nat, rec: Record, entries: seq<Element>)
    requires FindLog(s0.image) == Log(head, rec, entries)
    ensures RecoveryTrace(s0) == ReplayTrace(s0, entries) + ClearTrace(ReplayState(s0, entries), head, rec.keyLen)
  {
    hide FindLog, Applied, ReplayState, ReplayTrace, ClearTrace, Cleared, Resized;
  }

  /** The trace of the recovery of a live image is the replay of its saved ranges and the clearing. */
  lemma LiveTrace(img: seq<Byte>, c: Commit)
    requires c.Valid() && Live(img, c)
    ensures FindLog(img) == Log(c.head, c.Rec(RECOVERY_MAGIC), c.entries)
    ensures RecoveryTrace(DiskState(img, [])) ==
            ReplayTrace(DiskState(img, []), c.entries) +
            ClearTrace(ReplayState(DiskState(img, []), c.entries), c.head, |c.before|)
  {
    hide U32, Live, FindLog, ClearTrace, RecoveryTrace, ReplayTrace, ReplayState, Applied, EncodeLog, AllInside;
    LiveLogFound(img, c);
    TraceOf(DiskState(img, []), c.head, c.Rec(RECOVERY_MAGIC), c.entries);
  }

  lemma ReplayedIsSettling(img: seq<Byte>, c: Commit)
    requires c.Valid() && Live(img, c) && AllInside(c.entries, |img|)
    ensures Settling(Applied(c.entries, img), c)
  {
    var s0 := DiskState(img, []);
    hide U32, Live, Settling, ReplayTrace, ReplayState, Applied, EncodeLog, AllInside, IsOld;
    assert s0.Versions() == [img];
    ReplayLive(s0, c, c.entries, 0);
    var s := ReplayState(s0, c.entries);
    assert s.Versions()[|s.earlier|] == s.image;
    RestoredIsOld(img, c);
    LiveAndOldIsSettling(s.image, c);
  }

  lemma CrashInReplay(img: seq<Byte>, c: Commit, k: nat, img': seq<Byte>)
    requires c.Valid() && Live(img, c) && AllInside(c.entries, |img|)
    requires k <= |c.entries| && CrashImage(ReplayTrace(DiskState(img, []), c.entries)[k], img')
    ensures Live(img', c)
  {
    var s0 := DiskState(img, []);
    hide U32, Live, CrashImage, ReplayTrace, ReplayState, Applied, EncodeLog;
    assert s0.Versions() == [img];
    ReplayLive(s0, c, c.entries, k);
    LiveCrash(ReplayTrace(s0, c.entries)[k], c, img');
  }

  /** A crash during recovery, before the file is cut, leaves an image that recovers to the old contents again. */
  lemma RecoveryCrash(img: seq<Byte>, c: Commit, k: nat, img': seq<Byte>)
    requires c.Valid() && Live(img, c)
    requires FindLog(img).Log? && k < |RecoveryTrace(DiskState(img, []))| - 2
    requires CrashImage(RecoveryTrace(DiskState(img, []))[k], img')
    ensures Live(img', c) || Settling(img', c)
  {
    hide U32, Live, Settling, CrashImage, FindLog, ClearTrace, RecoveryTrace, ReplayTrace, ReplayState, Applied,
         EncodeLog, AllInside, LiveState;
    LiveTrace(img, c);
    var s0, n := DiskState(img, []), |c.entries| + 1;
    if k < n {
      CrashInReplay(img, c, k, img');
    } else {
      var s := ReplayState(s0, c.entries);
      ReplayedIsSettling(img, c);
      ClearSettling(s, c, |c.before|, k - n);
      SettlingCrash(ClearTrace(s, c.head, |c.before|)[k - n], c, img');
    }
  }

  // ---------- a crash after the cut ----------

  lemma CutVersion(v: seq<Byte>, c: Commit)
    requires c.Valid() && Settling(v, c)
    ensures IsOld(Resized(v, |c.before|), c)
    ensures U32(Resized(v, |c.before|), RECOVERY_HEAD) == U32(v, RECOVERY_HEAD)
    ensures c.head < |c.before| && !c.Straddles() ==> Settling(Resized(v, |c.before|), c)
    ensures c.Straddles() ==> CutShort(Resized(v, |c.before|), c)
  {
    hide U32, EncodeLog, EncodeU32, EncodeRecord, Commit.Body;
    var r := Resized(v, |c.before|);
    ResizedWord(v, |c.before|, RECOVERY_HEAD);
    if c.head < |c.before| {
      ResizedWord(v, |c.before|, c.head + 4);
      ResizedWord(v, |c.before|, c.head + 12);
      ResizedWord(v, |c.before|, c.head + MAGIC_OFS);
      BodyWords(v, c);
    }
  }

  lemma ResizedWord(v: seq<Byte>, n: nat, off: nat)
    requires off + 4 <= n && off + 4 <= |v|
    ensures U32(Resized(v, n), off) == U32(v, off)
  {
    hide U32;
    assert Resized(v, n)[off..off + 4] == v[off..off + 4];
    U32Same(Resized(v, n), v, off, off);
  }

  /** The two lengths in the record. */
  lemma BodyWords(img: seq<Byte>, c: Commit)
    requires c.Valid() && c.head + REC_SIZE + c.DataLen() <= |img| && BodyExceptMagic(img, c)
    ensures U32(img, c.head + 4) == c.recLen && U32(img, c.head + 12) == c.DataLen()
  {
    hide U32, EncodeU32, EncodeLog, EncodeRecord;
    RecordWords(c.Rec(RECOVERY_MAGIC));
    BodyWord(img, c, 4, c.recLen);
    BodyWord(img, c, 12, c.DataLen());
  }

  lemma RecordWords(r: Record)
    requires r.Fits()
    ensures EncodeRecord(r)[4..8] == EncodeU32(r.recLen) && EncodeRecord(r)[12..16] == EncodeU32(r.dataLen)
  {
    hide EncodeU32;
  }

  lemma BodyWord(img: seq<Byte>, c: Commit, at: nat, x: nat)
    requires c.Valid() && c.head + REC_SIZE + c.DataLen() <= |img| && BodyExceptMagic(img, c)
    requires x < U32_LIMIT && at + 4 <= MAGIC_OFS && EncodeRecord(c.Rec(RECOVERY_MAGIC))[at..at + 4] == EncodeU32(x)
    ensures U32(img, c.head + at) == x
  {
    hide U32, EncodeU32, EncodeLog, EncodeRecord;
    var body, rec := c.Body(RECOVERY_MAGIC), EncodeRecord(c.Rec(RECOVERY_MAGIC));
    forall i | 0 <= i < 4
      ensures img[c.head + at..c.head + at + 4][i] == EncodeU32(x)[i]
    {
      assert body[at + i] == rec[at + i] == rec[at..at + 4][i];
    }
    EncodedWord(img, c.head + at, x);
  }

  /** A file cut in the middle of its log: the record is still there. */
  ghost predicate CutShort(img: seq<Byte>, c: Commit) {
    && RECOVERY_HEAD + 4 <= |img| && IsOld(img, c) && |img| == |c.before| && c.head + REC_SIZE <= |img|
    && (U32(img, RECOVERY_HEAD) == c.head || U32(img, RECOVERY_HEAD) == 0)
    && (U32(img, c.head + MAGIC_OFS) == RECOVERY_MAGIC || U32(img, c.head + MAGIC_OFS) == 0)
    && U32(img, c.head + 4) == c.recLen
    && EntriesFit(c.entries) && U32(img, c.head + 12) == c.DataLen()
  }

  lemma CutShortCrash(s: DiskState, c: Commit, img: seq<Byte>)
    requires c.Valid() && s.Valid() && CrashImage(s, img)
    requires forall k :: 0 <= k < |s.Versions()| ==> CutShort(s.Versions()[k], c)
    ensures CutShort(img, c)
  {
    hide U32, IsOld, EncodeLog, CrashImage;
    CrashLength(s, img);
    assert s.Versions()[|s.earlier|] == s.image;
    IsOldCrash(s, c, img);
    var k := CrashWord(s, img, RECOVERY_HEAD);
    assert CutShort(s.Versions()[k], c);
    k := CrashWord(s, img, c.head + MAGIC_OFS);
    assert CutShort(s.Versions()[k], c);
    k := CrashWord(s, img, c.head + 4);
    assert CutShort(s.Versions()[k], c);
    k := CrashWord(s, img, c.head + 12);
    assert CutShort(s.Versions()[k], c);
  }

  /** Such a file does not recover while it is marked: the record promises more than there is. */
  lemma CutShortRecovers(img: seq<Byte>, c: Commit)
    requires c.Valid() && c.Straddles() && CutShort(img, c)
    ensures Recovered(img).Failed? <==> HeadWord(img) != 0 && U32(img, c.head + MAGIC_OFS) == RECOVERY_MAGIC
    ensures Recovered(img).Done? ==> Recovered(img) == Done(img)
  {
    hide U32, IsOld, EncodeLog, ParseLog;
  }

  lemma CutStateVersions(s: DiskState, c: Commit, cut: DiskState, img': seq<Byte>)
    requires c.Valid() && SettlingState(s, c) && cut == s.SetLength(|c.before|) && CrashImage(cut, img')
    ensures IsOld(img', c) && (U32(img', RECOVERY_HEAD) == c.head || U32(img', RECOVERY_HEAD) == 0)
    ensures c.head < |c.before| && !c.Straddles() ==> Settling(img', c)
    ensures c.Straddles() ==> CutShort(img', c)
  {
    hide U32, Settling, IsOld, CutShort, Commit.Straddles, EncodeLog;
    assert cut.Valid();
    forall k | 0 <= k < |cut.Versions()|
      ensures var v := s.Versions()[k];
              cut.Versions()[k] == Resized(v, |c.before|) && Settling(v, c) && IsOld(cut.Versions()[k], c)
    {
      CutVersion(s.Versions()[k], c);
    }
    IsOldCrash(cut, c, img');
    var k := CrashWord(cut, img', RECOVERY_HEAD);
    CutVersion(s.Versions()[k], c);
    SettlingHead(s.Versions()[k], c);
    forall j | 0 <= j < |cut.Versions()|
      ensures c.head < |c.before| && !c.Straddles() ==> Settling(cut.Versions()[j], c)
      ensures c.Straddles() ==> CutShort(cut.Versions()[j], c)
    {
      CutVersion(s.Versions()[j], c);
    }
    if c.Straddles() {
      CutShortCrash(cut, c, img');
    } else if c.head < |c.before| {
      SettlingCrash(cut, c, img');
    }
  }

  lemma SettlingHead(v: seq<Byte>, c: Commit)
    requires c.Valid() && Settling(v, c)
    ensures RECOVERY_HEAD + 4 <= |v| && (U32(v, RECOVERY_HEAD) == c.head || U32(v, RECOVERY_HEAD) == 0)
  {
  }

  /** The head of the file names an area that has been cut off, or a marked log that has been cut in the middle. */
  ghost predicate NamesLostLog(img: seq<Byte>, c: Commit)
    requires c.Valid()
  {
    && HeadWord(img) != 0
    && (|c.before| <= c.head ||
        (c.Straddles() && c.head + REC_SIZE <= |img| && U32(img, c.head + MAGIC_OFS) == RECOVERY_MAGIC))
  }

  /** Between the cut and the last sync, a crash is fatal exactly when it leaves a head that names a lost log. */
  lemma CrashAfterCut(s: DiskState, c: Commit, img': seq<Byte>)
    requires c.Valid() && SettlingState(s, c) && CrashImage(s.SetLength(|c.before|), img')
    ensures Recovered(img').Failed? <==> NamesLostLog(img', c)
    ensures Recovered(img').Done? ==> IsOld(Recovered(img').image, c)
  {
    hide U32, Settling, SettlingState, CrashImage, ParseLog, IsOld, EncodeLog;
    CutStateVersions(s, c, s.SetLength(|c.before|), img');
    CrashLength(s.SetLength(|c.before|), img');
    if c.Straddles() {
      CutShortRecovers(img', c);
      CutShortIsOld(img', c);
    } else if c.head < |c.before| {
      SettlingRecovers(img', c);
    }
  }

  lemma CutShortIsOld(img: seq<Byte>, c: Commit)
    requires CutShort(img, c)
    ensures IsOld(img, c) && |img| == |c.before| && RECOVERY_HEAD + 4 <= |img| && c.head + REC_SIZE <= |img|
    ensures HeadWord(img) == c.head || HeadWord(img) == 0
    ensures U32(img, c.head + MAGIC_OFS) == RECOVERY_MAGIC || U32(img, c.head + MAGIC_OFS) == 0
    ensures U32(img, c.head + 4) == c.recLen
  {
    hide U32, EncodeLog, IsOld;
  }

  lemma CutState(s: DiskState, head: nat, eof: nat)
    requires RECOVERY_HEAD + 4 <= |s.image| && head + REC_SIZE <= |s.image|
    ensures var t := ClearTrace(s, head, eof);
            t[|t| - 2] == t[|t| - 3].SetLength(eof) && |t[|t| - 3].earlier| > 0 && t[|t| - 3].earlier[0] == s.image
  {
  }

  /** The disk right after recovery of `img` has cut the file. */
  ghost function StateAtCut(img: seq<Byte>): DiskState
    requires FindLog(img).Log?
  {
    var t := RecoveryTrace(DiskState(img, []));
    t[|t| - 2]
  }

  /** The same for the recovery of a live image: the one state it passes through that a crash may not survive. */
  lemma RecoveryCutCrash(img: seq<Byte>, c: Commit, img': seq<Byte>)
    requires c.Valid() && Live(img, c) && FindLog(img).Log? && CrashImage(StateAtCut(img), img')
    ensures Recovered(img').Failed? <==> NamesLostLog(img', c)
    ensures Recovered(img').Done? ==> IsOld(Recovered(img').image, c)
  {
    hide U32, Live, Settling, CrashImage, FindLog, Recovered, ClearTrace, RecoveryTrace, ReplayTrace, ReplayState,
         Applied, EncodeLog, AllInside, SettlingState, IsOld, NamesLostLog;
    LiveLogFound(img, c);
    LiveTrace(img, c);
    ReplayedIsSettling(img, c);
    var s := ReplayState(DiskState(img, []), c.entries);
    CutState(s, c.head, |c.before|);
    var t := ClearTrace(s, c.head, |c.before|);
    ClearSettling(s, c, |c.before|, |t| - 3);
    CrashAfterCut(t[|t| - 3], c, img');
  }

  lemma OldestVersionCanSurvive(s: DiskState)
    requires s.Valid() && |s.earlier| > 0
    ensures CrashImage(s, s.earlier[0])
  {
    forall w: nat | 4 * w < |s.image|
      ensures WordFromSome(s.earlier[0], s.Versions(), w)
    {
      assert SameWord(s.earlier[0], s.Versions()[0], w);
    }
  }

  /** And a crash there really can be fatal whenever the log does not lie in the file as it is cut. */
  lemma CutCanBeFatal(img: seq<Byte>, c: Commit) returns (img': seq<Byte>)
    requires c.Valid() && Live(img, c) && FindLog(img).Log? && (|c.before| <= c.head || c.Straddles())
    ensures CrashImage(StateAtCut(img), img')
    ensures Recovered(img').Failed?
  {
    hide U32, Live, Settling, CrashImage, FindLog, Recovered, ClearTrace, RecoveryTrace, ReplayTrace, ReplayState,
         Applied, EncodeLog, AllInside, IsOld;
    LiveLogFound(img, c);
    LiveTrace(img, c);
    ReplayedIsSettling(img, c);
    ReplayedHead(img, c);
    var s := ReplayState(DiskState(img, []), c.entries);
    CutState(s, c.head, |c.before|);
    var t := ClearTrace(s, c.head, |c.before|);
    ClearSettling(s, c, |c.before|, |t| - 3);
    var quiet := t[|t| - 3];
    img' := quiet.SetLength(|c.before|).earlier[0];
    OldestVersionCanSurvive(quiet.SetLength(|c.before|));
    CutVersion(s.image, c);
    if c.Straddles() {
      ReplayedMagic(img, c);
      ResizedWord(s.image, |c.before|, c.head + MAGIC_OFS);
    }
    RecoveryCutCrash(img, c, img');
  }

  lemma ReplayedHead(img: seq<Byte>, c: Commit)
    requires c.Valid() && Live(img, c) && AllInside(c.entries, |img|)
    ensures U32(Applied(c.entries, img), RECOVERY_HEAD) == c.head
  {
    var s0 := DiskState(img, []);
    assert s0.Versions() == [img];
    hide ReplayState, ReplayTrace, U32;
    ReplayLive(s0, c, c.entries, 0);
    var s := ReplayState(s0, c.entries);
    assert s.Versions()[|s.earlier|] == s.image;
  }

  lemma ReplayedMagic(img: seq<Byte>, c: Commit)
    requires c.Valid() && Live(img, c) && AllInside(c.entries, |img|)
    ensures c.head + REC_SIZE <= |img| && U32(Applied(c.entries, img), c.head + MAGIC_OFS) == RECOVERY_MAGIC
  {
    hide ReplayState, ReplayTrace, U32, Applied, EncodeLog, EncodeRecord, Live, AllInside;
    var s0 := DiskState(img, []);
    assert s0.Versions() == [img];
    ReplayLive(s0, c, c.entries, 0);
    var s := ReplayState(s0, c.entries);
    assert s.Versions()[|s.earlier|] == s.image;
    LiveWords(s.image, c);
  }

  lemma LiveWords(img: seq<Byte>, c: Commit)
    requires c.Valid() && Live(img, c)
    ensures c.head + REC_SIZE <= |img| && HeadWord(img) == c.head
    ensures U32(img, c.head + 4) == c.recLen && U32(img, c.head + MAGIC_OFS) == RECOVERY_MAGIC
  {
    hide U32, EncodeLog, EncodeRecord, EncodeU32;
    BodyParts(c, img, RECOVERY_MAGIC);
  }

  // ---------- any number of crashes ----------

  /**
   `img'` is left by a crash while recovery runs on `img`, or by that recovery when it is done, or is
   `img` when there is nothing to do; of the crashes after the cut only those that recovery survives.
   */
  ghost predicate CrashedInRecovery(img: seq<Byte>, img': seq<Byte>) {
    match FindLog(img)
    case Unreadable => false
    case Nothing => img' == img
    case Log(_, _, _) =>
      var trace := RecoveryTrace(DiskState(img, []));
      exists k :: 0 <= k < |trace| && CrashImage(trace[k], img') && (k == |trace| - 2 ==> Recovered(img').Done?)
  }

  /** The images found on the disk at each of any number of starts, every one but the first left by recovery itself. */
  ghost predicate RestartRun(run: seq<seq<Byte>>) {
    |run| > 0 && forall i :: 0 <= i < |run| - 1 ==> CrashedInRecovery(run[i], run[i + 1])
  }

  /** The file is back to its old size, and a log that did not lie in it is forgotten. */
  ghost predicate Restored(img: seq<Byte>, c: Commit) {
    && IsOld(img, c) && |img| == |c.before|
    && (HeadWord(img) == 0 ||
        (HeadWord(img) == c.head && c.head + REC_SIZE <= |img|
         && U32(img, c.head + MAGIC_OFS) == 0 && U32(img, c.head + 4) == c.recLen))
  }

  /** Images a crash can leave from which recovery must give the old contents. */
  ghost predicate OldSide(img: seq<Byte>, c: Commit, oldHead: nat)
    requires c.Valid()
  {
    Fresh(img, c, oldHead) || Live(img, c) || Settling(img, c) || Restored(img, c)
  }

  /** A recovered file, or one that survived a crash right after the cut. */
  lemma CutOldSide(img: seq<Byte>, c: Commit, img': seq<Byte>)
    requires c.Valid() && Live(img, c) && FindLog(img).Log? && CrashImage(StateAtCut(img), img')
    requires Recovered(img').Done?
    ensures Settling(img', c) || Restored(img', c)
  {
    hide U32, Live, Settling, CrashImage, FindLog, Recovered, ClearTrace, RecoveryTrace, ReplayTrace, ReplayState,
         Applied, EncodeLog, AllInside, SettlingState, IsOld;
    LiveLogFound(img, c);
    LiveTrace(img, c);
    ReplayedIsSettling(img, c);
    var s := ReplayState(DiskState(img, []), c.entries);
    CutState(s, c.head, |c.before|);
    var t := ClearTrace(s, c.head, |c.before|);
    ClearSettling(s, c, |c.before|, |t| - 3);
    CrashAfterCut(t[|t| - 3], c, img');
    CutStateVersions(t[|t| - 3], c, t[|t| - 2], img');
    CrashLength(t[|t| - 2], img');
    if c.Straddles() {
      CutShortIsOld(img', c);
    }
  }

  lemma NewestVersionCanSurvive(s: DiskState)
    requires s.Valid()
    ensures CrashImage(s, s.image)
  {
    forall w: nat | 4 * w < |s.image|
      ensures WordFromSome(s.image, s.Versions(), w)
    {
      assert SameWord(s.image, s.Versions()[|s.earlier|], w);
    }
  }

  lemma CutSynced(s: DiskState, head: nat, eof: nat)
    requires RECOVERY_HEAD + 4 <= |s.image| && head + REC_SIZE <= |s.image|
    ensures var t := ClearTrace(s, head, eof); t[|t| - 1] == t[|t| - 2].Sync()
  {
  }

  lemma CutHead(s: DiskState, head: nat, eof: nat)
    requires RECOVERY_HEAD + 4 <= eof <= head && head + REC_SIZE <= |s.image|
    ensures var t := ClearTrace(s, head, eof); HeadWord(t[|t| - 1].image) == 0
  {
    hide Splice, U32;
    var img := Splice(s.image, RECOVERY_HEAD, ZERO4);
    ZeroWord(s.image, RECOVERY_HEAD);
    OtherWord(img, head + MAGIC_OFS, ZERO4, RECOVERY_HEAD);
    var r := Splice(img, head + MAGIC_OFS, ZERO4);
    assert Resized(r, eof)[RECOVERY_HEAD..RECOVERY_HEAD + 4] == r[RECOVERY_HEAD..RECOVERY_HEAD + 4];
    U32Same(Resized(r, eof), r, RECOVERY_HEAD, RECOVERY_HEAD);
  }

  /** What is left once the file is cut and synced names no lost log. */
  lemma ClearedNamesNone(s: DiskState, c: Commit, img: seq<Byte>)
    requires c.Valid() && Settling(s.image, c)
    requires RECOVERY_HEAD + 4 <= |s.image| && c.head + REC_SIZE <= |s.image|
    requires var t := ClearTrace(s, c.head, |c.before|); CrashImage(t[|t| - 1], img)
    ensures !NamesLostLog(img, c)
  {
    hide U32, Settling, CrashImage, ClearTrace, EncodeLog, BodyExceptMagic, Commit.Saved;
    var t := ClearTrace(s, c.head, |c.before|);
    CutSynced(s, c.head, |c.before|);
    CrashAfterSync(t[|t| - 1], img);
    if |c.before| <= c.head {
      CutHead(s, c.head, |c.before|);
    } else {
      CutMagic(s, c.head, |c.before|);
    }
  }

  lemma SettlingRoom(v: seq<Byte>, c: Commit)
    requires c.Valid() && Settling(v, c)
    ensures RECOVERY_HEAD + 4 <= |v| && c.head + REC_SIZE <= |v|
  {
    hide U32, EncodeLog, BodyExceptMagic;
  }

  /** The file after the last sync is one that a crash right before it may leave too. */
  lemma ClearedIsCut(s: DiskState, head: nat, eof: nat, img: seq<Byte>)
    requires RECOVERY_HEAD + 4 <= |s.image| && head + REC_SIZE <= |s.image|
    requires var t := ClearTrace(s, head, eof); CrashImage(t[|t| - 1], img)
    ensures var t := ClearTrace(s, head, eof); CrashImage(t[|t| - 2], img)
  {
    hide ClearTrace, CrashImage, U32, DiskState.Valid, DiskState.Sync;
    var cut := CutAndSynced(s, head, eof);
    SyncedCanSurvive(cut, img);
  }

  lemma CutAndSynced(s: DiskState, head: nat, eof: nat) returns (cut: DiskState)
    requires RECOVERY_HEAD + 4 <= |s.image| && head + REC_SIZE <= |s.image|
    ensures var t := ClearTrace(s, head, eof); t[|t| - 2] == cut && t[|t| - 1] == cut.Sync()
    ensures cut.Valid()
  {
    cut := HeadCleared(s.Sync(), head, eof).Write(head + MAGIC_OFS, ZERO4).SetLength(eof);
  }

  lemma SyncedCanSurvive(s: DiskState, img: seq<Byte>)
    requires s.Valid() && CrashImage(s.Sync(), img)
    ensures CrashImage(s, img)
  {
    hide CrashImage;
    CrashAfterSync(s.Sync(), img);
    NewestVersionCanSurvive(s);
  }

  /** The file a finished recovery leaves is one that a crash right after the cut may leave, and survives. */
  lemma FinishedIsCut(img: seq<Byte>, c: Commit, img': seq<Byte>)
    requires c.Valid() && Live(img, c) && FindLog(img).Log?
    requires var t := RecoveryTrace(DiskState(img, [])); CrashImage(t[|t| - 1], img')
    ensures CrashImage(StateAtCut(img), img') && Recovered(img').Done?
  {
    hide U32, Live, Settling, CrashImage, FindLog, Recovered, ClearTrace, RecoveryTrace, ReplayTrace, ReplayState,
         Applied, EncodeLog, AllInside, NamesLostLog, Commit.Valid, IsOld;
    LiveLogFound(img, c);
    LiveTrace(img, c);
    ReplayedIsSettling(img, c);
    var s := ReplayState(DiskState(img, []), c.entries);
    SettlingRoom(s.image, c);
    ClearedIsCut(s, c.head, |c.before|, img');
    ClearedNamesNone(s, c, img');
    RecoveryCutCrash(img, c, img');
  }

  lemma OldSideCrash(img: seq<Byte>, c: Commit, oldHead: nat, img': seq<Byte>)
    requires c.Valid() && OldSide(img, c, oldHead) && CrashedInRecovery(img, img')
    ensures OldSide(img', c, oldHead)
  {
    hide U32, FindLog, RecoveryTrace, Fresh, Live, Settling, Restored, CrashImage, Recovered;
    if Live(img, c) {
      LiveTrace(img, c);
      var trace := RecoveryTrace(DiskState(img, []));
      var k :| 0 <= k < |trace| && CrashImage(trace[k], img') && (k == |trace| - 2 ==> Recovered(img').Done?);
      if k < |trace| - 2 {
        RecoveryCrash(img, c, k, img');
      } else {
        if k == |trace| - 1 {
          FinishedIsCut(img, c, img');
        }
        CutOldSide(img, c, img');
      }
    } else {
      QuietOldSide(img, c, oldHead);
    }
  }

  lemma QuietOldSide(img: seq<Byte>, c: Commit, oldHead: nat)
    requires c.Valid() && OldSide(img, c, oldHead) && !Live(img, c)
    ensures FindLog(img) == Nothing && Recovered(img) == Done(img) && IsOld(img, c)
  {
    hide U32, Live, Settling, ParseLog, IsOld;
    if Fresh(img, c, oldHead) {
      FreshRecovers(img, c, oldHead);
    } else if Settling(img, c) {
      SettlingIsLiveOrDone(img, c);
      SettlingIsOld(img, c);
    }
  }

  lemma SettlingIsOld(img: seq<Byte>, c: Commit)
    requires c.Valid() && Settling(img, c)
    ensures IsOld(img, c)
  {
  }

  lemma OldSideRecovers(img: seq<Byte>, c: Commit, oldHead: nat)
    requires c.Valid() && OldSide(img, c, oldHead)
    ensures Recovered(img).Done? && IsOld(Recovered(img).image, c)
  {
    hide Recovered, Live, OldSide, IsOld;
    if Live(img, c) {
      LiveRecovers(img, c);
    } else {
      QuietOldSide(img, c, oldHead);
    }
  }

  /**
   However often recovery is cut short and run again, it ends with the old contents if it started on the
   old side ...
   */
  lemma {:induction false} OldSideForEver(run: seq<seq<Byte>>, c: Commit, oldHead: nat)
    requires RestartRun(run) && c.Valid() && OldSide(run[0], c, oldHead)
    ensures var last := run[|run| - 1];
            OldSide(last, c, oldHead) && Recovered(last).Done? && IsOld(Recovered(last).image, c)
  {
    hide OldSide, CrashedInRecovery, Recovered, IsOld;
    if |run| > 1 {
      var front := run[..|run| - 1];
      assert RestartRun(front) && front[0] == run[0];
      OldSideForEver(front, c, oldHead);
      OldSideCrash(run[|run| - 2], c, oldHead, run[|run| - 1]);
    }
    OldSideRecovers(run[|run| - 1], c, oldHead);
  }

  /** ... and with the committed contents if it started on those. */
  lemma {:induction false} CommittedForEver(run: seq<seq<Byte>>, c: Commit, view: seq<Byte>)
    requires RestartRun(run) && Committed(run[0], c, view)
    ensures var last := run[|run| - 1]; Recovered(last) == Done(last) && Committed(last, c, view)
  {
    hide Committed, Recovered, FindLog;
    if |run| > 1 {
      var front := run[..|run| - 1];
      assert RestartRun(front) && front[0] == run[0];
      CommittedForEver(front, c, view);
      CommittedRecovers(run[|run| - 2], c, view);
      assert CrashedInRecovery(run[|run| - 2], run[|run| - 1]);
    }
    CommittedRecovers(run[|run| - 1], c, view);
  }

  lemma CutMagic(s: DiskState, head: nat, eof: nat)
    requires RECOVERY_HEAD + 4 <= |s.image| && head + REC_SIZE <= eof && head + REC_SIZE <= |s.image|
    ensures var t := ClearTrace(s, head, eof); U32(t[|t| - 1].image, head + MAGIC_OFS) == 0
  {
    hide Splice, U32;
    var img := s.image;
    ZeroWord(img, head + MAGIC_OFS);
    var r := Splice(img, head + MAGIC_OFS, ZERO4);
    var at := head + MAGIC_OFS;
    assert Resized(r, eof)[at..at + 4] == r[at..at + 4];
    U32Same(Resized(r, eof), r, at, at);
  }

  /** What recovery makes of a live log: the file it cut, with no log left in it. */
  lemma RecoveredSettles(img: seq<Byte>, c: Commit)
    requires c.Valid() && Live(img, c)
    ensures Recovered(img).Done?
    ensures var r := Recovered(img).image;
            && |r| == |c.before| && (Settling(r, c) || Restored(r, c)) && FindLog(r) == Nothing
            && (|c.before| <= c.head ==> HeadWord(r) == 0)
            && (c.head < |c.before| ==> U32(r, c.head + MAGIC_OFS) == 0)
  {
    hide U32, Live, Settling, CrashImage, FindLog, Recovered, ClearTrace, RecoveryTrace, ReplayTrace, ReplayState,
         Applied, EncodeLog, AllInside, SettlingState, IsOld;
    LiveRecovers(img, c);
    LiveLogFound(img, c);
    LiveTrace(img, c);
    ReplayedIsSettling(img, c);
    RecoveryTraceEnds(DiskState(img, []));
    var s := ReplayState(DiskState(img, []), c.entries);
    var t := RecoveryTrace(DiskState(img, []));
    var last := t[|t| - 1];
    NewestVersionCanSurvive(last);
    FinishedIsCut(img, c, last.image);
    CutOldSide(img, c, last.image);
    RecoveryCutCrash(img, c, last.image);
    if c.head < |c.before| {
      CutMagic(s, c.head, |c.before|);
    }
    NoMarkNoLog(last.image, c);
  }

  lemma NoMarkNoLog(img: seq<Byte>, c: Commit)
    requires c.Valid() && (Settling(img, c) || Restored(img, c))
    requires HeadWord(img) == 0 || (c.head + REC_SIZE <= |img| && U32(img, c.head + MAGIC_OFS) == 0)
    ensures FindLog(img) == Nothing
  {
    hide U32, ParseLog, BodyExceptMagic, IsOld;
    LocatedMeans(img);
  }

  /** Recovering a recovered file does nothing. */
  lemma RecoverOnce(img: seq<Byte>, c: Commit, oldHead: nat)
    requires c.Valid() && OldSide(img, c, oldHead)
    ensures Recovered(img).Done? && Recovered(Recovered(img).image) == Recovered(img)
  {
    hide Live, OldSide, IsOld, FindLog;
    if Live(img, c) {
      RecoveredSettles(img, c);
    } else {
      QuietOldSide(img, c, oldHead);
    }
  }
}
