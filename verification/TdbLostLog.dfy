/**
 A commit that is not atomic, from beginning to end: a crash in the first commit of a database leaves a
 recovery area of which only the head is known, and the log of the next transaction passes its end.
 */
module TdbLostLog {
  import opened Bytes
  import opened TdbOverlay
  import opened TdbDisk
  import opened TdbLog
  import opened TdbRecovery
  import opened TdbOverrun
  import opened TdbCommit

  /** The bytes of the hash table, with the head of the free list. */
  function TableSize(hashSize: nat): nat {
    4 * (hashSize + 1)
  }

  /** The length of the first recovery area: room for the log of a transaction that changes the table alone. */
  function FirstArea(hashSize: nat, pageSize: nat): (maxSize: nat)
    requires pageSize > 0 && pageSize % 4 == 0
    ensures TableSize(hashSize) + 12 <= maxSize < TableSize(hashSize) + 12 + pageSize && maxSize % 4 == 0
  {
    AreaFor(TableSize(hashSize) + 12, pageSize)
  }

  /** A database without a recovery area, large enough, and not all padding where it matters. */
  predicate NoAreaYet(base: seq<Byte>, hashSize: nat, pageSize: nat) {
    && pageSize > 0 && pageSize % 4 == 0 && |base| % 4 == 0 && |base| + 2 * pageSize < PAD_LENGTH / 2
    && FREELIST_TOP + TableSize(hashSize) + 4 + FirstArea(hashSize, pageSize) <= |base|
    && U32(base, RECOVERY_HEAD) == 0 && base[FREELIST_TOP + FirstArea(hashSize, pageSize) - 12] != PAD_BYTE
  }

  /**
   Zeros will do; and with pages of 4096 bytes, the first area of 131 chains has bytes to spare, that of
   1014 has none.
   */
  lemma NoAreaInZeros(n: nat, hashSize: nat, pageSize: nat)
    requires pageSize > 0 && pageSize % 4 == 0 && n % 4 == 0 && n + 2 * pageSize < PAD_LENGTH / 2
    requires FREELIST_TOP + TableSize(hashSize) + 4 + FirstArea(hashSize, pageSize) <= n
    ensures NoAreaYet(ZeroBytes(n), hashSize, pageSize)
    ensures FirstArea(131, 4096) > TableSize(131) + 12 && FirstArea(1014, 4096) == TableSize(1014) + 12
  {
  }

  /** The file after a crash of the first commit: there is an area, and everything in it is padding still. */
  ghost predicate HeadWritten(x: seq<Byte>, base: seq<Byte>, maxSize: nat) {
    && |x| == |base| + REC_SIZE + maxSize && RECOVERY_HEAD + 4 <= |base| && HeadWord(x) == |base|
    && U32(x, |base| + 4) == PAD_WORD && U32(x, |base| + MAGIC_OFS) != RECOVERY_MAGIC
    && forall i :: RECOVERY_HEAD + 4 <= i < |base| ==> x[i] == base[i]
  }

  /** The elements of the second transaction: the table, `d` bytes of the old file, and the new end of it. */
  ghost function Elements(x: seq<Byte>, hashSize: nat, d: nat, n: nat): seq<Element>
    requires FREELIST_TOP + TableSize(hashSize) <= |x|
  {
    var start := FREELIST_TOP + TableSize(hashSize);
    [Element(FREELIST_TOP, x[FREELIST_TOP..start]), Element(start + 4, ZeroBytes(d)), Element(|x|, Pad(n))]
  }

  lemma TableLog(els: seq<Element>, base: seq<Byte>, hashSize: nat)
    requires FREELIST_TOP + TableSize(hashSize) <= |base| < U32_LIMIT
    requires els == [Element(FREELIST_TOP, base[FREELIST_TOP..FREELIST_TOP + TableSize(hashSize)])]
    ensures NoneStraddles(els, |base|) && LogSize(els, base) == TableSize(hashSize) + 12
    ensures NotCovered(els, RECOVERY_HEAD, RECOVERY_HEAD + 4)
  {
    hide EncodeLog, EncodeEntry, OldEntries;
    NoOldEntries(els, base);
    OldLogStep(els, base, 0);
    assert els[..1] == els;
  }

  /** The first commit up to the write of the recovery head, a crash there, and recovery. */
  method CrashInFirstCommit(base: seq<Byte>, hashSize: nat, pageSize: nat) returns (file: DiskFile)
    requires NoAreaYet(base, hashSize, pageSize)
    ensures fresh(file) && file.earlier == [] && file.trace == []
    ensures HeadWritten(file.image, base, FirstArea(hashSize, pageSize))
  {
    hide U32, LogSize, NotCovered, NoneStraddles, Extent, Sound, View, Fresh, Commit.Valid, FreshState, OldEntries,
         Recovered, FindLog;
    var crashing := new DiskFile(base);
    var tx := new Transaction.Start(base, hashSize);
    TableLog(tx.elements, base, hashSize);
    var ok, size, offset, maxSize, end := NewArea(crashing, tx, pageSize);
    ghost var c := CommitOf(base, tx.elements, offset, maxSize);
    CrashInNewArea(crashing.State(), c, 0);
    FreshImage(crashing.State(), c, 0);
    FreshRecovers(crashing.image, c, 0);
    HeadIsWritten(crashing.image, c, base);
    assert maxSize == FirstArea(hashSize, pageSize);
    file := new DiskFile(crashing.image);
    var _ := Recover(file);
  }

  lemma HeadIsWritten(x: seq<Byte>, c: Commit, base: seq<Byte>)
    requires c.Valid() && Fresh(x, c, 0) && c.before == base && c.head == |base| && HeadWord(x) == c.head
    requires |x| == c.head + REC_SIZE + c.recLen && U32(x, c.head + 4) == PAD_WORD
    ensures HeadWritten(x, base, c.recLen)
  {
    hide U32, EncodeLog;
  }

  /** What the second transaction saves, and the log of it. */
  lemma SecondLog(x: seq<Byte>, hashSize: nat, d: nat, n: nat)
    requires d > 0 && n > 0 && FREELIST_TOP + TableSize(hashSize) + 4 + d <= |x| < U32_LIMIT
    ensures var els := Elements(x, hashSize, d, n);
            && NoneStraddles(els, |x|) && LogSize(els, x) == TableSize(hashSize) + 20 + d
            && OldEntries(els, x) == [OldEntry(els[0], x), OldEntry(els[1], x)]
  {
    hide EncodeLog, EncodeEntry, U32, Pad, ZeroBytes, OldEntries, OldEntry, LogSize;
    var els := Elements(x, hashSize, d, n);
    assert NoneStraddles(els, |x|);
    TwoSaved(els, x);
    TwoLogged(els, x);
  }

  lemma TwoSaved(els: seq<Element>, base: seq<Byte>)
    requires |els| == 3 && NoneStraddles(els, |base|)
    requires els[0].offset < |base| && els[1].offset < |base| <= els[2].offset
    ensures els[0].End() <= |base| && els[1].End() <= |base|
    ensures OldEntries(els, base) == [OldEntry(els[0], base), OldEntry(els[1], base)]
  {
    hide OldEntries, OldEntry;
    NoOldEntries(els, base);
    OldEntriesStep(els, base, 0);
    OldEntriesStep(els, base, 1);
    OldEntriesStep(els, base, 2);
    assert els[..3] == els;
  }

  lemma TwoLogged(els: seq<Element>, base: seq<Byte>)
    requires |els| == 3 && NoneStraddles(els, |base|) && |base| < U32_LIMIT
    requires els[0].offset < |base| && els[1].offset < |base| <= els[2].offset
    ensures LogSize(els, base) == |els[0].data| + |els[1].data| + 20
  {
    hide OldEntries, OldEntry, EncodeLog, EncodeEntry, NoneStraddles;
    NoOldEntries(els, base);
    OldLogStep(els, base, 0);
    OldLogStep(els, base, 1);
    OldLogStep(els, base, 2);
    assert els[..3] == els;
  }

  /** It passes the end of the file. */
  lemma SecondPasses(x: seq<Byte>, base: seq<Byte>, hashSize: nat, d: nat, n: nat)
    requires |base| % 4 == 0 && d > 0 && n > 0 && HeadWritten(x, base, d)
    requires FREELIST_TOP + TableSize(hashSize) + 4 + d <= |base|
    requires |x| < U32_LIMIT && TableSize(hashSize) + 20 + d <= PAD_WORD && |x| < |base| + REC_SIZE + PAD_WORD
    ensures var els := Elements(x, hashSize, d, n);
            && NotCovered(els, RECOVERY_HEAD, RECOVERY_HEAD + 4) && AreaReady(x, els) && PassesEnd(x, els)
  {
    hide U32, Pad, ZeroBytes, LogSize, OldEntries;
    SecondLog(x, hashSize, d, n);
  }

  /** It loses a byte of the old contents that is not padding, unless it loses the header of its last range. */
  lemma SecondLogLost(x: seq<Byte>, base: seq<Byte>, hashSize: nat, d: nat, n: nat, c: Commit)
    requires HeadWritten(x, base, d)
    requires FREELIST_TOP + TableSize(hashSize) + 4 + d <= |base| && base[FREELIST_TOP + d - 12] != PAD_BYTE
    requires var els := Elements(x, hashSize, d, n);
             NoneStraddles(els, |x|) && PassesEnd(x, els) && c == OldAreaCommit(x, els) && c.Valid() && c.Straddles()
             && LogSize(els, x) == TableSize(hashSize) + 20 + d
             && OldEntries(els, x) == [OldEntry(els[0], x), OldEntry(els[1], x)]
    ensures d >= TableSize(hashSize) + 16 ==> !PaddedLogFrom(c, |c.before|)
    ensures c.DataLen() == TableSize(hashSize) + 20 + d
    ensures c.entries != [] && c.head + REC_SIZE + LastData(c) == |base| + REC_SIZE + TableSize(hashSize) + 16
  {
    hide EncodeLog, EncodeEntry, U32, Pad, Commit.Valid, Commit.Straddles, PassesEnd, OldEntries;
    var els := Elements(x, hashSize, d, n);
    ValidSizes(c);
    var last := c.entries[|c.entries| - 1];
    assert last == OldEntry(els[1], x) && |last.data| == d;
    if d >= TableSize(hashSize) + 16 {
      var i := d - LastData(c);
      LastDataAt(c, i);
      assert last.data[i] == x[last.offset + i] == base[FREELIST_TOP + d - 12];
      assert EncodeLog(c.entries)[d] != PAD_BYTE;
    }
  }

  /** The second transaction: it overwrites part of the old file and lengthens it by room for its log. */
  method SecondTransaction(x: seq<Byte>, hashSize: nat, d: nat, n: nat) returns (tx: Transaction)
    requires FREELIST_TOP + TableSize(hashSize) + 4 + d < |x| && d > 0 && n > 0
    ensures fresh(tx) && tx.base == x && tx.Consistent() && !tx.transactionError
    ensures tx.elements == Elements(x, hashSize, d, n) && tx.mapSize == |x| + n
  {
    hide Pad, ZeroBytes, Sound, Extent, Splice, Transaction.Mirrored, View, Covered, AfterWrite;
    var start := FREELIST_TOP + TableSize(hashSize);
    tx := new Transaction.Start(x, hashSize);
    SoundNonEmpty(tx.elements, |x|);
    AfterDetached(tx.elements, |x|, start + 4, ZeroBytes(d));
    tx.TransactionWrite(start + 4, ZeroBytes(d));
    AfterDetached(tx.elements, |x|, |x|, Pad(n));
    tx.Expand(n);
  }

  /**
   The second commit succeeds, and there is a crash of it from which recovery gives neither the old
   contents nor the new: it fails if the first area was filled to the last byte, else it succeeds.
   */
  method LoseBothContents(base: seq<Byte>, hashSize: nat, pageSize: nat)
    returns (file: DiskFile, ghost c: Commit, ghost view: seq<Byte>, ghost at: nat, ghost img: seq<Byte>)
    requires NoAreaYet(base, hashSize, pageSize)
    ensures c.Valid() && Committed(file.image, c, view)
    ensures at < |file.trace| && CrashImage(file.trace[at], img) && !OldOrNew(img, c, view)
    ensures Recovered(img).Failed? <==> FirstArea(hashSize, pageSize) == TableSize(hashSize) + 12
  {
    hide U32, LogSize, NotCovered, NoneStraddles, Commit.Valid, Commit.Straddles, OldEntries, Recovered,
         Transaction.Consistent, FirstArea, AreaReady, PassesEnd, PaddedLogFrom, Committed, OldOrNew, Passes, PaddedLog,
         CrashImage, Atomic, PaddingPastEnd, LastData, IsOld, HeadWritten, OldEntry, AfterWrites, EncodeLog, Ready;
    var maxSize := FirstArea(hashSize, pageSize);
    var n := TableSize(hashSize) + 20 + maxSize;
    file := CrashInFirstCommit(base, hashSize, pageSize);
    ghost var x := file.image;
    WrittenLength(x, base, maxSize);
    var tx := SecondTransaction(file.image, hashSize, maxSize, n);
    ghost var els := tx.elements;
    SecondLog(x, hashSize, maxSize, n);
    SecondPasses(x, base, hashSize, maxSize, n);
    SecondIsReady(file, tx, base, hashSize, maxSize, n);
    var ok;
    ok, c, view := TransactionCommit(file, tx, [], pageSize);
    img := PaddedLog(c, |view|);
    SecondCommitLoses(x, base, hashSize, maxSize, n, c, view);
    at := PassedImage(file.trace, 0, img);
  }

  lemma SecondIsReady(file: DiskFile, tx: Transaction, base: seq<Byte>, hashSize: nat, d: nat, n: nat)
    requires file.image == tx.base && file.earlier == [] && tx.Consistent() && |base| % 4 == 0 && d % 4 == 0
    requires n % 4 == 0
    requires HeadWritten(file.image, base, d) && tx.mapSize == |file.image| + n < U32_LIMIT
    requires NotCovered(tx.elements, RECOVERY_HEAD, RECOVERY_HEAD + 4) && AreaReady(tx.base, tx.elements)
    ensures Ready(file, tx)
  {
    hide U32, NotCovered, AreaReady, Transaction.Consistent;
  }

  lemma SecondCommitLoses(x: seq<Byte>, base: seq<Byte>, hashSize: nat, d: nat, n: nat, c: Commit, view: seq<Byte>)
    requires HeadWritten(x, base, d) && d % 4 == 0 && d >= TableSize(hashSize) + 12
    requires TableSize(hashSize) + 20 + d <= PAD_LENGTH
    requires FREELIST_TOP + TableSize(hashSize) + 4 + d <= |base| && base[FREELIST_TOP + d - 12] != PAD_BYTE
    requires var els := Elements(x, hashSize, d, n);
             NoneStraddles(els, |x|) && PassesEnd(x, els) && c == OldAreaCommit(x, els) && c.Valid() && c.Straddles()
             && LogSize(els, x) == TableSize(hashSize) + 20 + d
             && OldEntries(els, x) == [OldEntry(els[0], x), OldEntry(els[1], x)]
    requires c.head + REC_SIZE + c.DataLen() <= |view|
    ensures |c.before| < |view| && !OldOrNew(PaddedLog(c, |view|), c, view)
    ensures Recovered(PaddedLog(c, |view|)).Failed? <==> d == TableSize(hashSize) + 12
  {
    hide U32, LogSize, NoneStraddles, Commit.Valid, Commit.Straddles, OldEntries, Recovered, PassesEnd, PaddedLogFrom,
         OldOrNew, PaddedLog, LastData, IsOld, OldEntry, EncodeLog, Pad, ZeroBytes;
    ValidSizes(c);
    SecondLogLost(x, base, hashSize, d, n, c);
    PaddedLogOutcome(c, |view|);
    NeitherOldNorNew(PaddedLog(c, |view|), c, view);
  }

  lemma WrittenLength(x: seq<Byte>, base: seq<Byte>, maxSize: nat)
    requires HeadWritten(x, base, maxSize)
    ensures |x| == |base| + REC_SIZE + maxSize && HeadWord(x) == |base|
  {
    hide U32;
  }
}
