/**
 A log that passes the end of the file.  The record of the recovery area promises more than there is,
 the log is written past the end of the file, and the commit then writes over what is there: padding
 when it lengthens the file, and the contents of the transaction after that.
 */
module TdbOverrun {
  import opened Bytes
  import opened TdbOverlay
  import opened TdbDisk
  import opened TdbLog
  import opened TdbRecovery

  /** The least length whose highest byte is padding. */
  const PAD_LENGTH := 0x4200_0000

  /** Every byte of the log from position `size` of the file on is what the file is padded with. */
  ghost predicate PaddedLogFrom(c: Commit, size: nat)
    requires c.Valid()
  {
    var log := EncodeLog(c.entries);
    forall i :: 0 <= i < |log| && size <= c.head + REC_SIZE + i ==> log[i] == PAD_BYTE
  }

  ghost predicate PaddedView(c: Commit, view: seq<Byte>)
    requires c.Valid()
  {
    forall i :: |c.before| <= i < c.head + REC_SIZE + |EncodeLog(c.entries)| ==> PaddingAt(view, i)
  }

  predicate PaddingAt(view: seq<Byte>, i: nat) {
    i < |view| && view[i] == PAD_BYTE
  }

  /**
   Whatever the log has past the end of the old file is padding, and so is what the transaction puts
   there.  A log that ends before the file does has nothing there.
   */
  ghost predicate PaddingPastEnd(c: Commit, view: seq<Byte>)
    requires c.Valid()
  {
    c.Straddles() ==> PaddedLogFrom(c, |c.before|) && PaddedView(c, view)
  }

  /** The same from the size on at which the commit lengthens the file. */
  lemma PaddedPastSize(c: Commit, view: seq<Byte>, size: nat)
    requires c.Valid() && PaddingPastEnd(c, view) && |c.before| <= size && c.head + c.area <= size
    ensures PaddedLogFrom(c, size)
  {
    hide EncodeLog;
  }

  /** The log written into an area that ends before the log does: it ends the file. */
  ghost function MarkedPastEnd(c: Commit): seq<Byte>
    requires c.Encodable() && c.head <= |c.before|
  {
    c.before[..c.head] + c.Blob(RECOVERY_MAGIC)
  }

  /** The file that leaves, once the transaction's new part is filled. */
  ghost function PaddedLog(c: Commit, n: nat): (r: seq<Byte>)
    requires c.Valid() && c.Straddles() && |c.before| <= n
    ensures |r| == n
  {
    MarkedPastEnd(c)[..|c.before|] + Pad(n - |c.before|)
  }

  lemma ValidSizes(c: Commit)
    requires c.Valid()
    ensures EntriesFit(c.entries) && c.Encodable() && |EncodeLog(c.entries)| + 4 == c.DataLen()
    ensures c.Straddles() ==> c.head + REC_SIZE <= |c.before| < c.head + REC_SIZE + c.DataLen()
  {
    hide EncodeLog;
  }

  /** The record and as much of the log as lies below the old end of the file. */
  ghost predicate HasRecord(img: seq<Byte>, c: Commit)
    requires c.Valid() && c.Straddles()
  {
    && c.head + REC_SIZE + c.DataLen() <= |img| && HeadWord(img) == c.head
    && (forall i :: c.head <= i < |c.before| ==> img[i] == c.Blob(RECOVERY_MAGIC)[i - c.head])
  }

  lemma PaddedHasRecord(c: Commit, n: nat)
    requires c.Valid() && c.Straddles() && c.head + REC_SIZE + c.DataLen() <= n
    ensures HasRecord(PaddedLog(c, n), c) && IsOld(PaddedLog(c, n), c)
  {
    hide U32, EncodeU32, EncodeRecord, EncodeLog, Commit.Blob, Pad;
    var x := PaddedLog(c, n);
    assert forall i :: 0 <= i < |c.before| ==> x[i] == MarkedPastEnd(c)[i];
    assert x[RECOVERY_HEAD..RECOVERY_HEAD + 4] == c.before[RECOVERY_HEAD..RECOVERY_HEAD + 4];
    U32Same(x, c.before, RECOVERY_HEAD, RECOVERY_HEAD);
  }

  /** Recovery reads that record, and the bytes after it as the log. */
  lemma RecordLocated(img: seq<Byte>, c: Commit)
    requires c.Valid() && c.Straddles() && HasRecord(img, c)
    ensures Locate(img) == Marked(c.head, c.Rec(RECOVERY_MAGIC))
    ensures var data := LogData(img, c.head, c.Rec(RECOVERY_MAGIC));
            && |data| == c.DataLen()
            && forall i :: 0 <= i < |data| ==> data[i] == img[c.head + REC_SIZE + i]
  {
    hide U32, EncodeU32, EncodeRecord, EncodeLog, ReadRecord, Commit.Saved;
    var rec := c.Rec(RECOVERY_MAGIC);
    assert img[c.head..c.head + REC_SIZE] == EncodeRecord(rec);
    RecordRoundTrip(img, c.head, rec);
  }

  /** ... which is that of the commit as far as the old file goes. */
  lemma LogBelowEnd(img: seq<Byte>, c: Commit, i: nat)
    requires c.Valid() && c.Straddles() && HasRecord(img, c)
    requires i < |EncodeLog(c.entries)| && c.head + REC_SIZE + i < |c.before|
    ensures img[c.head + REC_SIZE + i] == EncodeLog(c.entries)[i]
  {
    hide U32, EncodeU32, EncodeRecord, EncodeLog, Commit.Saved;
    assert c.Blob(RECOVERY_MAGIC)[REC_SIZE + i] == EncodeLog(c.entries)[i];
  }

  /** What lies past the old end of the file is padding. */
  lemma PaddedAbove(c: Commit, n: nat, i: nat)
    requires c.Valid() && c.Straddles() && |c.before| <= i < n
    ensures PaddedLog(c, n)[i] == PAD_BYTE
  {
    hide EncodeU32, EncodeRecord, EncodeLog, Commit.Blob, Commit.Saved;
  }

  lemma EntriesInside(c: Commit, n: nat)
    requires c.Valid() && |c.before| <= n
    ensures AllInside(c.entries, n)
  {
    hide EncodeLog;
    forall k | 0 <= k < |c.entries| ensures c.entries[k].End() <= n { assert c.Saved(c.entries[k]); }
  }

  // ---------- what recovery makes of the padded file ----------

  /** The log as recovery reads it from the padded file. */
  ghost function CutLog(c: Commit, n: nat): (r: seq<Byte>)
    requires c.Valid() && c.Straddles() && c.head + REC_SIZE + c.DataLen() <= n
    ensures |r| == c.DataLen()
  {
    PaddedLog(c, n)[c.head + REC_SIZE..c.head + REC_SIZE + c.DataLen()]
  }

  lemma CutLogAt(c: Commit, n: nat, i: nat)
    requires c.Valid() && c.Straddles() && c.head + REC_SIZE + c.DataLen() <= n && i < c.DataLen()
    ensures |c.before| <= c.head + REC_SIZE + i ==> CutLog(c, n)[i] == PAD_BYTE
    ensures c.head + REC_SIZE + i < |c.before| && i < |EncodeLog(c.entries)| ==>
              CutLog(c, n)[i] == EncodeLog(c.entries)[i]
  {
    hide EncodeLog, PaddedLog, HasRecord, IsOld, Commit.Valid;
    ValidSizes(c);
    PaddedHasRecord(c, n);
    if |c.before| <= c.head + REC_SIZE + i {
      PaddedAbove(c, n, c.head + REC_SIZE + i);
    } else if i < |EncodeLog(c.entries)| {
      LogBelowEnd(PaddedLog(c, n), c, i);
    }
  }

  lemma CutLogIs(c: Commit, n: nat)
    requires c.Valid() && c.Straddles() && c.head + REC_SIZE + c.DataLen() <= n
    ensures CutLog(c, n)[..|EncodeLog(c.entries)|] == EncodeLog(c.entries) <==> PaddedLogFrom(c, |c.before|)
  {
    hide EncodeLog, CutLog, Commit.Valid, Commit.Straddles;
    ValidSizes(c);
    var log, cut := EncodeLog(c.entries), CutLog(c, n);
    forall i | 0 <= i < |log|
      ensures cut[..|log|][i] == if c.head + REC_SIZE + i < |c.before| then log[i] else PAD_BYTE
    {
      CutLogAt(c, n, i);
    }
    if PaddedLogFrom(c, |c.before|) {
      assert cut[..|log|] == log;
    } else {
      var i :| 0 <= i < |log| && |c.before| <= c.head + REC_SIZE + i && log[i] != PAD_BYTE;
      assert cut[..|log|][i] != log[i];
    }
  }

  /**
   In the file that lengthening leaves, recovery finds that very log exactly if all of it that lies past
   the old end is padding, in particular if only the tailer does.
   */
  lemma PaddedLogFound(c: Commit, n: nat)
    requires c.Valid() && c.Straddles() && c.head + REC_SIZE + c.DataLen() <= n
    ensures FindLog(PaddedLog(c, n)) == Log(c.head, c.Rec(RECOVERY_MAGIC), c.entries) <==> PaddedLogFrom(c, |c.before|)
  {
    hide U32, EncodeLog, PaddedLog, Locate, ParseLog, PaddedLogFrom, Commit.Rec, Commit.Valid, HasRecord, IsOld,
         AllInside;
    PaddedHasRecord(c, n);
    RecordLocated(PaddedLog(c, n), c);
    LocatedMeans(PaddedLog(c, n));
    ValidSizes(c);
    ParseExact(c.entries, CutLog(c, n));
    CutLogIs(c, n);
    EntriesInside(c, n);
  }

  /** Where the data of the last saved range starts in the log. */
  ghost function LastData(c: Commit): (p: nat)
    requires c.Valid() && c.entries != []
    ensures 8 <= p <= |EncodeLog(c.entries)|
    ensures p + |c.entries[|c.entries| - 1].data| == |EncodeLog(c.entries)|
    ensures p == |EncodeLog(c.entries[..|c.entries| - 1])| + 8
  {
    |EncodeLog(c.entries)| - |c.entries[|c.entries| - 1].data|
  }

  /** The range of the log in which position `m` lies. */
  lemma {:induction false} RangeAt(es: seq<Element>, m: nat) returns (k: nat)
    requires EntriesFit(es) && m < |EncodeLog(es)|
    ensures k < |es| && EntriesFit(es[..k]) && EntriesFit(es[..k + 1])
    ensures |EncodeLog(es[..k])| <= m < |EncodeLog(es[..k + 1])|
  {
    var front := es[..|es| - 1];
    if m < |EncodeLog(front)| {
      k := RangeAt(front, m);
      assert es[..k] == front[..k] && es[..k + 1] == front[..k + 1];
    } else {
      k := |es| - 1;
      assert es[..k + 1] == es;
    }
  }

  lemma CutHeader(c: Commit, n: nat, p: nat)
    requires c.Valid() && c.Straddles() && c.head + REC_SIZE + c.DataLen() <= n
    requires |c.before| < c.head + REC_SIZE + p + 8 && p + 8 < c.DataLen() <= PAD_LENGTH
    ensures ParseLog(CutLog(c, n), p) == Malformed
  {
    hide EncodeLog, U32, CutLog, Commit.Valid, Commit.Straddles;
    CutLogAt(c, n, p + 7);
    TopByte(CutLog(c, n), p + 4);
  }

  lemma TopByte(s: seq<Byte>, off: nat)
    requires off + 4 <= |s| && s[off + 3] == PAD_BYTE
    ensures U32(s, off) >= PAD_LENGTH
  {
  }

  /** If the old end of the file cuts off the log before the data of its last range, recovery fails. */
  lemma PaddedLogFatal(c: Commit, n: nat)
    requires c.Valid() && c.Straddles() && c.head + REC_SIZE + c.DataLen() <= n && c.DataLen() <= PAD_LENGTH
    requires c.entries != [] && |c.before| < c.head + REC_SIZE + LastData(c)
    ensures Recovered(PaddedLog(c, n)) == Failed
  {
    hide U32, EncodeLog, PaddedLog, Locate, ParseLog, CutLog, Commit.Rec, EncodeEntry, FindLog, Commit.Valid, HasRecord,
         IsOld, LogData, LastData;
    ValidSizes(c);
    var m := |c.before| - c.head - REC_SIZE;
    PaddedHasRecord(c, n);
    RecordLocated(PaddedLog(c, n), c);
    LocatedMeans(PaddedLog(c, n));
    var k := RangeAt(c.entries, m);
    RangesBefore(c, n, k);
    CutRange(c, n, k);
    EmptyLog();
    assert c.entries[..0] == [];
    BadRest(c.entries, CutLog(c, n), 0, k);
    CutLogIsData(c, n);
  }

  lemma CutLogIsData(c: Commit, n: nat)
    requires c.Valid() && c.Straddles() && c.head + REC_SIZE + c.DataLen() <= n
    ensures CutLog(c, n) == LogData(PaddedLog(c, n), c.head, c.Rec(RECOVERY_MAGIC))
  {
    hide U32, EncodeLog, PaddedLog;
  }

  /** The ranges before the cut are intact. */
  lemma RangesBefore(c: Commit, n: nat, k: nat)
    requires c.Valid() && c.Straddles() && c.head + REC_SIZE + c.DataLen() <= n
    requires k < |c.entries| && EntriesFit(c.entries[..k])
    requires c.head + REC_SIZE + |EncodeLog(c.entries[..k])| <= |c.before|
    ensures |EncodeLog(c.entries[..k])| + 12 <= c.DataLen()
    ensures CutLog(c, n)[..|EncodeLog(c.entries[..k])|] == EncodeLog(c.entries[..k])
  {
    hide EncodeLog, EncodeEntry, CutLog, Commit.Valid, Commit.Straddles;
    ValidSizes(c);
    var done, log, cut := EncodeLog(c.entries[..k]), EncodeLog(c.entries), CutLog(c, n);
    LogSteps(c.entries, k);
    LogPrefix(c.entries, k);
    forall i | 0 <= i < |done|
      ensures cut[..|done|][i] == done[i]
    {
      CutLogAt(c, n, i);
    }
  }

  /** Where range `k` lies in the log. */
  lemma LogSteps(es: seq<Element>, k: nat)
    requires EntriesFit(es) && k < |es|
    ensures EntriesFit(es[..k]) && EntriesFit(es[..k + 1])
    ensures var p := |EncodeLog(es[..k])|;
            && |EncodeLog(es[..k + 1])| == p + 8 + |es[k].data| <= |EncodeLog(es)|
            && EncodeLog(es)[p..p + 8 + |es[k].data|] == EncodeEntry(es[k])
  {
    hide EncodeLog, EncodeEntry;
    var log, tail := EncodeLog(es), ZeroBytes(4);
    var p := |EncodeLog(es[..k])|;
    LogStep(es, tail, log + tail, k, p);
    assert (log + tail)[p..p + 8 + |es[k].data|] == log[p..p + 8 + |es[k].data|];
  }

  /** The range that is cut does not parse, or the one after it does not. */
  lemma CutRange(c: Commit, n: nat, k: nat)
    requires c.Valid() && c.Straddles() && c.head + REC_SIZE + c.DataLen() <= n && c.DataLen() <= PAD_LENGTH
    requires k < |c.entries| && EntriesFit(c.entries[..k]) && EntriesFit(c.entries[..k + 1])
    requires var m := |c.before| - c.head - REC_SIZE; |EncodeLog(c.entries[..k])| <= m < |EncodeLog(c.entries[..k + 1])|
    requires |c.before| < c.head + REC_SIZE + LastData(c)
    ensures ParseLog(CutLog(c, n), |EncodeLog(c.entries[..k])|) == Malformed
  {
    hide EncodeLog, EncodeEntry, CutLog, U32, ParseLog, Commit.Valid, LastData;
    ValidSizes(c);
    LogSteps(c.entries, k);
    var m, p := |c.before| - c.head - REC_SIZE, |EncodeLog(c.entries[..k])|;
    if m < p + 8 {
      CutHeader(c, n, p);
    } else {
      assert k + 1 < |c.entries|;
      LogSteps(c.entries, k + 1);
      CutHeader(c, n, |EncodeLog(c.entries[..k + 1])|);
      WholeHeader(c, n, k);
      BadNext(CutLog(c, n), p, c.entries[k]);
    }
  }

  lemma WholeHeader(c: Commit, n: nat, k: nat)
    requires c.Valid() && c.Straddles() && c.head + REC_SIZE + c.DataLen() <= n
    requires k < |c.entries| && EntriesFit(c.entries[..k])
    requires c.head + REC_SIZE + |EncodeLog(c.entries[..k])| + 8 <= |c.before|
    requires |EncodeLog(c.entries[..k])| + 8 <= c.DataLen()
    ensures U32(CutLog(c, n), |EncodeLog(c.entries[..k])| + 4) == |c.entries[k].data|
  {
    hide EncodeLog, CutLog, U32, EncodeU32, Commit.Valid, Commit.Straddles;
    ValidSizes(c);
    LogSteps(c.entries, k);
    var log, cut, p := EncodeLog(c.entries), CutLog(c, n), |EncodeLog(c.entries[..k])|;
    var e := EncodeEntry(c.entries[k]);
    assert e[4..8] == EncodeU32(|c.entries[k].data|);
    SubSlice(log, p, e, 4, 8);
    forall i {:trigger cut[i]} | p + 4 <= i < p + 8
      ensures cut[i] == log[i]
    {
      CutLogAt(c, n, i);
    }
    assert cut[p + 4..p + 8] == log[p + 4..p + 8];
    EncodedWord(cut, p + 4, |c.entries[k].data|);
  }

  // ---------- a log whose last range holds something else ----------

  /** The ranges of `c` with `data` as the contents of the last. */
  ghost function OtherLast(c: Commit, data: seq<Byte>): seq<Element>
    requires c.entries != []
  {
    c.entries[..|c.entries| - 1] + [Element(c.entries[|c.entries| - 1].offset, data)]
  }

  lemma OtherLastEncoded(c: Commit, data: seq<Byte>)
    requires c.Valid() && c.entries != [] && |data| == |c.entries[|c.entries| - 1].data|
    ensures EntriesFit(OtherLast(c, data))
    ensures EncodeLog(OtherLast(c, data)) == EncodeLog(c.entries)[..LastData(c)] + data
  {
    hide EncodeU32;
    var front, last := c.entries[..|c.entries| - 1], c.entries[|c.entries| - 1];
    var es := OtherLast(c, data);
    assert es[..|es| - 1] == front;
    assert EncodeEntry(last)[..8] == EncodeU32(last.offset) + EncodeU32(|last.data|);
    assert EncodeLog(c.entries)[..LastData(c)] == EncodeLog(front) + EncodeEntry(last)[..8];
  }

  /** Recovery then succeeds, and leaves contents that are not the old ones. */
  lemma LastRangeChanged(img: seq<Byte>, c: Commit, at: nat)
    requires c.Valid() && c.Straddles() && HasRecord(img, c) && c.entries != []
    requires c.head + REC_SIZE + LastData(c) <= |c.before|
    requires LastData(c) <= at < |EncodeLog(c.entries)|
    requires img[c.head + REC_SIZE + at] != EncodeLog(c.entries)[at]
    ensures Recovered(img).Done? && |Recovered(img).image| == |c.before| && !IsOld(Recovered(img).image, c)
  {
    hide U32, EncodeLog, EncodeU32, EncodeRecord, Locate, ParseLog, Commit.Valid, HasRecord, LastData, FindLog, Applied,
         OtherLast, Recovered, Commit.Straddles;
    ValidSizes(c);
    var p, log := LastData(c), EncodeLog(c.entries);
    var at0 := c.head + REC_SIZE;
    RecordLocated(img, c);
    var data := img[at0 + p..at0 + |log|];
    var es := OtherLast(c, data);
    OtherLastFound(img, c, data);
    OtherLastWins(img, c, data, at - p);
    var last := c.entries[|c.entries| - 1];
    LastSaved(c);
    assert log[at] == last.data[at - p] by { LastDataAt(c, at - p); }
    RecoveredLog(img, c, es);
    NotOldAt(Recovered(img).image, c, last.offset + (at - p));
  }

  lemma NotOldAt(img: seq<Byte>, c: Commit, i: nat)
    requires i < |c.before| && i < |img| && !c.Reserved(i) && img[i] != c.before[i]
    ensures !IsOld(img, c)
  {
  }

  lemma LastDataAt(c: Commit, i: nat)
    requires c.Valid() && c.entries != [] && i < |c.entries[|c.entries| - 1].data|
    ensures EncodeLog(c.entries)[LastData(c) + i] == c.entries[|c.entries| - 1].data[i]
  {
    hide EncodeU32;
  }

  lemma LastSaved(c: Commit)
    requires c.Valid() && c.entries != []
    ensures c.Saved(c.entries[|c.entries| - 1])
  {
    hide EncodeLog;
  }

  lemma OtherLastFound(img: seq<Byte>, c: Commit, data: seq<Byte>)
    requires c.Valid() && c.Straddles() && HasRecord(img, c) && c.entries != []
    requires c.head + REC_SIZE + LastData(c) <= |c.before|
    requires data == img[c.head + REC_SIZE + LastData(c)..c.head + REC_SIZE + |EncodeLog(c.entries)|]
    ensures FindLog(img) == Log(c.head, c.Rec(RECOVERY_MAGIC), OtherLast(c, data))
  {
    hide U32, EncodeLog, EncodeU32, EncodeRecord, Locate, ParseLog, Commit.Valid, HasRecord, LastData, FindLog,
         OtherLast, Commit.Straddles;
    ValidSizes(c);
    var p, log := LastData(c), EncodeLog(c.entries);
    RecordLocated(img, c);
    var read := LogData(img, c.head, c.Rec(RECOVERY_MAGIC));
    var es := OtherLast(c, data);
    OtherLastEncoded(c, data);
    forall i | 0 <= i < |log|
      ensures read[..|log|][i] == (log[..p] + data)[i]
    {
      if i < p {
        LogBelowEnd(img, c, i);
      }
    }
    ParseExact(es, read);
    OtherLastInside(c, data, |img|);
    LocatedMeans(img);
  }

  lemma OtherLastInside(c: Commit, data: seq<Byte>, n: nat)
    requires c.Valid() && c.entries != [] && |data| == |c.entries[|c.entries| - 1].data| && |c.before| <= n
    ensures AllInside(OtherLast(c, data), n)
  {
    hide EncodeLog;
    EntriesInside(c, n);
  }

  /** Of the ranges written back, the last one shows. */
  lemma OtherLastWins(img: seq<Byte>, c: Commit, data: seq<Byte>, i: nat)
    requires c.Valid() && c.entries != [] && |data| == |c.entries[|c.entries| - 1].data| && |c.before| <= |img|
    requires i < |data| && AllInside(OtherLast(c, data), |img|)
    ensures c.entries[|c.entries| - 1].offset + i < |img|
    ensures Applied(OtherLast(c, data), img)[c.entries[|c.entries| - 1].offset + i] == data[i]
  {
    hide EncodeLog, Applied;
    LastSaved(c);
    var es := OtherLast(c, data);
    assert es[|es| - 1].Covers(es[|es| - 1].offset + i);
    AppliedAt(es, img, es[|es| - 1].offset + i);
  }

  lemma RecoveredLog(img: seq<Byte>, c: Commit, es: seq<Element>)
    requires c.Valid() && c.Straddles() && AllInside(es, |img|) && c.head + REC_SIZE + c.DataLen() <= |img|
    requires FindLog(img) == Log(c.head, c.Rec(RECOVERY_MAGIC), es)
    ensures Recovered(img).Done? && |Recovered(img).image| == |c.before|
    ensures forall i :: 0 <= i < |c.before| && !c.Reserved(i) ==> Recovered(img).image[i] == Applied(es, img)[i]
  {
    hide EncodeLog, FindLog, Applied, U32, AllInside;
  }

  // ---------- the two outcomes ----------

  lemma PaddedIsLive(c: Commit, n: nat)
    requires c.Valid() && c.Straddles() && c.head + REC_SIZE + c.DataLen() <= n && PaddedLogFrom(c, |c.before|)
    ensures Live(PaddedLog(c, n), c)
  {
    hide U32, EncodeLog, EncodeU32, EncodeRecord, PaddedLog, Commit.Saved;
    PaddedHasRecord(c, n);
    var x, body, log := PaddedLog(c, n), c.Body(RECOVERY_MAGIC), EncodeLog(c.entries);
    forall i | 0 <= i < |body|
      ensures x[c.head..c.head + |body|][i] == body[i]
    {
      if c.head + i < |c.before| {
        assert c.Blob(RECOVERY_MAGIC)[i] == body[i];
      } else {
        PaddedAbove(c, n, c.head + i);
        assert body[i] == log[i - REC_SIZE];
      }
    }
  }

  /**
   What recovery makes of the padded file: it fails exactly if the log is cut off before the data of its
   last range; it gives the old contents exactly if nothing but padding is lost; and in between it
   succeeds with contents that are neither.
   */
  lemma PaddedLogOutcome(c: Commit, n: nat)
    requires c.Valid() && c.Straddles() && c.head + REC_SIZE + c.DataLen() <= n && c.DataLen() <= PAD_LENGTH
    ensures Recovered(PaddedLog(c, n)).Failed? <==> c.entries != [] && |c.before| < c.head + REC_SIZE + LastData(c)
    ensures Recovered(PaddedLog(c, n)).Done? && IsOld(Recovered(PaddedLog(c, n)).image, c) <==>
            PaddedLogFrom(c, |c.before|)
    ensures Recovered(PaddedLog(c, n)).Done? ==> |Recovered(PaddedLog(c, n)).image| == |c.before|
  {
    hide U32, EncodeLog, PaddedLog, Recovered, IsOld, Commit.Valid, Commit.Straddles, HasRecord, LastData, Live;
    ValidSizes(c);
    var log := EncodeLog(c.entries);
    if PaddedLogFrom(c, |c.before|) {
      PaddedIsLive(c, n);
      LiveRecovers(PaddedLog(c, n), c);
    }
    if c.entries != [] && |c.before| < c.head + REC_SIZE + LastData(c) {
      PaddedLogFatal(c, n);
    } else if !PaddedLogFrom(c, |c.before|) {
      var at :| 0 <= at < |log| && |c.before| <= c.head + REC_SIZE + at && log[at] != PAD_BYTE;
      EmptyLog();
      PaddedHasRecord(c, n);
      PaddedAbove(c, n, c.head + REC_SIZE + at);
      LastRangeChanged(PaddedLog(c, n), c, at);
    }
  }

  /** If only padding was lost but the transaction then writes something else there, recovery succeeds with neither. */
  lemma OverwrittenOutcome(img: seq<Byte>, c: Commit, n: nat, at: nat)
    requires c.Valid() && c.Straddles() && c.head + REC_SIZE + c.DataLen() <= n && c.DataLen() <= PAD_LENGTH
    requires PaddedLogFrom(c, |c.before|) && HasRecord(img, c)
    requires |c.before| <= at < c.head + REC_SIZE + |EncodeLog(c.entries)| && img[at] != PAD_BYTE
    ensures Recovered(img).Done? && |Recovered(img).image| == |c.before| && !IsOld(Recovered(img).image, c)
  {
    hide U32, EncodeLog, PaddedLog, Recovered, IsOld, Commit.Valid, Commit.Straddles, HasRecord, LastData;
    ValidSizes(c);
    EmptyLog();
    PaddedLogOutcome(c, n);
    LastRangeChanged(img, c, at - c.head - REC_SIZE);
  }
}
