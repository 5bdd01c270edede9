/**
 Directory blocks: records of variable length tiled over the bytes of a block, walked by
 ext2fs_process_dir_block with the callbacks of link, unlink and lookup.
 */
module DirBlock {
  import opened Bytes
  import opened Wrappers

  // ---------- fields ----------

  function U16(s: seq<Byte>, off: nat): (r: nat)
    requires off + 2 <= |s|
    ensures r < 0x1_0000
  {
    var lo: int, hi: int := s[off], s[off + 1];
    lo + 0x100 * hi
  }

  function EncodeU16(x: nat): (r: seq<Byte>)
    requires x < 0x1_0000
    ensures |r| == 2 && U16(r, 0) == x
  {
    [x % 0x100, x / 0x100]
  }

  const DIRENT_HEADER := 8

  /** Fields of the directory entry at `off`; past the end of the block there is nothing. */
  function Inode(buf: seq<Byte>, off: nat): nat {
    if off + DIRENT_HEADER <= |buf| then U32(buf, off) else 0
  }

  function RecLen(buf: seq<Byte>, off: nat): nat {
    if off + DIRENT_HEADER <= |buf| then U16(buf, off + 4) else 0
  }

  function NameLen(buf: seq<Byte>, off: nat): (n: nat)
    ensures n < 256
  {
    if off + DIRENT_HEADER <= |buf| then var b: int := buf[off + 6]; b else 0
  }

  function FileType(buf: seq<Byte>, off: nat): (n: nat)
    ensures n < 256
  {
    if off + DIRENT_HEADER <= |buf| then var b: int := buf[off + 7]; b else 0
  }

  /** The checks of ext2fs_process_dir_block. */
  predicate RecordOk(buf: seq<Byte>, off: nat) {
    && off + DIRENT_HEADER <= |buf| && off + RecLen(buf, off) <= |buf|
    && RecLen(buf, off) >= 8 && RecLen(buf, off) % 4 == 0 && NameLen(buf, off) + 8 <= RecLen(buf, off)
  }

  function SetRecLen(buf: seq<Byte>, off: nat, n: nat): (r: seq<Byte>)
    requires off + DIRENT_HEADER <= |buf| && n < 0x1_0000
    ensures |r| == |buf|
  {
    Splice(buf, off + 4, EncodeU16(n))
  }

  /** A whole entry: inode, record length, name length, file type, name. */
  function WriteEntry(buf: seq<Byte>, off: nat, inode: nat, recLen: nat, fileType: Byte,
      name: seq<Byte>): (r: seq<Byte>)
    requires off + DIRENT_HEADER + |name| <= |buf| && inode < U32_LIMIT && recLen < 0x1_0000 && |name| < 256
    ensures |r| == |buf|
  {
    Splice(buf, off, EncodeU32(inode) + EncodeU16(recLen) + [|name|, fileType] + name)
  }

  /** EXT2_DIR_REC_LEN: the shortest record for a name. */
  function DirRecLen(nameLen: nat): (n: nat)
    ensures n % 4 == 0 && nameLen + 8 <= n <= nameLen + 11
  {
    (nameLen + 8 + 3) / 4 * 4
  }

  // ---------- records ----------

  datatype Rec = Rec(inode: nat, recLen: nat, fileType: nat, name: seq<Byte>)

  function RecordAt(buf: seq<Byte>, off: nat): (r: Rec)
    requires RecordOk(buf, off)
    ensures r.recLen == RecLen(buf, off) && |r.name| == NameLen(buf, off)
  {
    Rec(Inode(buf, off), RecLen(buf, off), FileType(buf, off), buf[off + 8..off + 8 + NameLen(buf, off)])
  }

  /** A record on disk: inode, record length, name length, file type, name. */
  lemma BytesOfRecord(buf: seq<Byte>, off: nat)
    requires RecordOk(buf, off)
    ensures var r := RecordAt(buf, off);
            && r.inode < U32_LIMIT && r.recLen < 0x1_0000 && |r.name| < 256 && r.fileType < 256
            && buf[off..off + 8 + |r.name|] ==
               EncodeU32(r.inode) + EncodeU16(r.recLen) + [|r.name| as Byte, r.fileType as Byte] + r.name
  {
    var r, inode, recLen := RecordAt(buf, off), buf[off..off + 4], buf[off + 4..off + 6];
    U32Same(buf, inode, off, 0);
    U32Injective(inode, r.inode);
    Digit(recLen[0], recLen[1]);
    assert recLen == EncodeU16(r.recLen);
    RecordParts(buf, off, |r.name|);
  }

  lemma RecordParts(buf: seq<Byte>, off: nat, n: nat)
    requires off + 8 + n <= |buf|
    ensures buf[off..off + 8 + n] ==
            buf[off..off + 4] + buf[off + 4..off + 6] + [buf[off + 6], buf[off + 7]] + buf[off + 8..off + 8 + n]
  {
    assert buf[off + 6..off + 8] == [buf[off + 6], buf[off + 7]];
    MoreBytes(buf, off, off + 4, off + 6);
    MoreBytes(buf, off, off + 6, off + 8);
    MoreBytes(buf, off, off + 8, off + 8 + n);
  }

  /** From `off` on the block is tiled by good records. */
  predicate Tiled(buf: seq<Byte>, off: nat)
    decreases |buf| - off
  {
    off == |buf| || (off < |buf| && RecordOk(buf, off) && Tiled(buf, off + RecLen(buf, off)))
  }

  function Parse(buf: seq<Byte>, off: nat): seq<Rec>
    requires Tiled(buf, off)
    decreases |buf| - off
  {
    if off == |buf| then [] else [RecordAt(buf, off)] + Parse(buf, off + RecLen(buf, off))
  }

  /** Records depend on the bytes from their start on. */
  lemma {:induction false} ParseSame(buf: seq<Byte>, buf': seq<Byte>, off: nat)
    requires Tiled(buf, off) && |buf'| == |buf| && off <= |buf| && buf'[off..] == buf[off..]
    ensures Tiled(buf', off) && Parse(buf', off) == Parse(buf, off)
    decreases |buf| - off
  {
    if off < |buf| {
      RecordSame(buf, buf', off);
      var next := off + RecLen(buf, off);
      assert buf'[next..] == buf'[off..][next - off..] && buf[next..] == buf[off..][next - off..];
      ParseSame(buf, buf', next);
    }
  }

  /** A record depends on its own bytes only. */
  lemma RecordSame(buf: seq<Byte>, buf': seq<Byte>, off: nat)
    requires RecordOk(buf, off) && |buf'| == |buf|
    requires forall i :: off <= i < off + RecLen(buf, off) ==> buf'[i] == buf[i]
    ensures RecordOk(buf', off) && RecordAt(buf', off) == RecordAt(buf, off)
  {
    var n := NameLen(buf, off);
    assert buf'[off + 8..off + 8 + n] == buf[off + 8..off + 8 + n];
  }

  ghost predicate SameFrom(buf: seq<Byte>, buf': seq<Byte>, lo: nat) {
    |buf'| == |buf| && forall i :: lo <= i < |buf| ==> buf'[i] == buf[i]
  }

  ghost predicate SameUpTo(buf: seq<Byte>, buf': seq<Byte>, hi: nat) {
    |buf'| == |buf| && forall i :: 0 <= i < hi && i < |buf| ==> buf'[i] == buf[i]
  }

  /** The fields of the entry at `off`. */
  ghost predicate FieldsAre(buf: seq<Byte>, off: nat, inode: nat, recLen: nat, fileType: nat, name: seq<Byte>) {
    && Inode(buf, off) == inode && RecLen(buf, off) == recLen && FileType(buf, off) == fileType
    && NameLen(buf, off) == |name|
    && off + 8 + |name| <= |buf| && buf[off + 8..off + 8 + |name|] == name
  }

  lemma SetRecLenIs(buf: seq<Byte>, off: nat, n: nat)
    requires off + DIRENT_HEADER + NameLen(buf, off) <= |buf| && n < 0x1_0000
    ensures var buf' := SetRecLen(buf, off, n);
            && FieldsAre(buf', off, Inode(buf, off), n, FileType(buf, off), buf[off + 8..off + 8 + NameLen(buf, off)])
            && SameUpTo(buf, buf', off) && SameFrom(buf, buf', off + 8)
  {
    var buf' := SetRecLen(buf, off, n);
    assert buf'[off + 4] == EncodeU16(n)[0] && buf'[off + 5] == EncodeU16(n)[1];
    assert U32(buf', off) == U32(buf, off);
    assert buf'[off + 8..off + 8 + NameLen(buf, off)] == buf[off + 8..off + 8 + NameLen(buf, off)];
  }

  lemma WriteEntryIs(buf: seq<Byte>, off: nat, inode: nat, recLen: nat, fileType: Byte, name: seq<Byte>)
    requires off + DIRENT_HEADER + |name| <= |buf| && inode < U32_LIMIT && recLen < 0x1_0000 && |name| < 256
    ensures var buf' := WriteEntry(buf, off, inode, recLen, fileType, name);
            && FieldsAre(buf', off, inode, recLen, fileType, name)
            && SameUpTo(buf, buf', off) && SameFrom(buf, buf', off + 8 + |name|)
  {
    var e, r := EncodeU32(inode), EncodeU16(recLen);
    var all := EncodeU32(inode) + EncodeU16(recLen) + [|name|, fileType] + name;
    var buf' := Splice(buf, off, all);
    assert forall i :: 0 <= i < |all| ==> buf'[off + i] == all[i];
    assert buf'[off..off + 4] == e;
    U32Same(buf', e, off, 0);
    U32RoundTrip(inode);
    assert buf'[off + 4] == r[0] && buf'[off + 5] == r[1];
    assert buf'[off + 6] == |name| && buf'[off + 7] == fileType;
    assert buf'[off + 8..off + 8 + |name|] == name;
  }

  /** Fields that are the same bytes are the same. */
  lemma FieldsSame(buf: seq<Byte>, buf': seq<Byte>, off: nat, inode: nat, recLen: nat, fileType: nat, name: seq<Byte>)
    requires FieldsAre(buf, off, inode, recLen, fileType, name) && |buf'| == |buf|
    requires forall i :: off <= i < off + 8 + |name| ==> buf'[i] == buf[i]
    ensures FieldsAre(buf', off, inode, recLen, fileType, name)
  {
    assert buf'[off + 8..off + 8 + |name|] == buf[off + 8..off + 8 + |name|];
  }

  // ---------- the walk ----------

  const BLOCK_LIMIT := 0x1_0000

  /** What a callback does: to the block, to its private data, DIRENT_CHANGED and DIRENT_ABORT. */
  datatype Called<P> = Called(buf: seq<Byte>, p: P, changed: bool, abort: bool)

  type Callback<!P> = (seq<Byte>, nat, P) -> Called<P>

  datatype Outcome = Ended | Aborted | Corrupt

  datatype Walked<P> = Walked(buf: seq<Byte>, p: P, changed: bool, outcome: Outcome)

  /** Callbacks keep the block's size, and leave a record to step over. */
  ghost predicate Sane<P(!new)>(f: Callback<P>) {
    forall buf, off, p :: RecordOk(buf, off) && |buf| < BLOCK_LIMIT ==>
      var r := f(buf, off, p);
      |r.buf| == |buf| && (!r.abort ==> RecLen(r.buf, off) > 0)
  }

  /** The loop of ext2fs_process_dir_block from offset `off` on. */
  function Walk<P(!new)>(f: Callback<P>, includeEmpty: bool, buf: seq<Byte>, off: nat, p: P,
      changed: bool): (r: Walked<P>)
    requires Sane(f) && |buf| < BLOCK_LIMIT
    ensures |r.buf| == |buf|
    decreases if off < |buf| then |buf| - off else 0
  {
    if off >= |buf| then Walked(buf, p, changed, Ended)
    else if !RecordOk(buf, off) then Walked(buf, p, changed, Corrupt)
    else if Inode(buf, off) == 0 && !includeEmpty then Walk(f, includeEmpty, buf, off + RecLen(buf, off), p, changed)
    else
      var r := f(buf, off, p);
      if r.abort then Walked(r.buf, r.p, changed || r.changed, Aborted)
      else Walk(f, includeEmpty, r.buf, off + RecLen(r.buf, off), r.p, changed || r.changed)
  }

  /** struct dir_context */
  class DirContext<P(!new)> {
    const f: Callback<P>
    const includeEmpty: bool
    var buf: seq<Byte>
    var privData: P

    constructor (f: Callback<P>, includeEmpty: bool, p: P)
      ensures this.f == f && this.includeEmpty == includeEmpty && privData == p
    {
      this.f, this.includeEmpty, privData, buf := f, includeEmpty, p, [];
    }

    /** ext2fs_process_dir_block on a block of the directory; the block as it is on disk afterwards. */
    method ProcessDirBlock(block: seq<Byte>) returns (block': seq<Byte>, outcome: Outcome)
      requires Sane(f) && |block| < BLOCK_LIMIT
      modifies this
      ensures var w := Walk(f, includeEmpty, block, 0, old(privData), false);
              && buf == w.buf && privData == w.p && outcome == w.outcome
              && block' == if w.changed && w.outcome != Corrupt then w.buf else block
    {
      hide RecordOk, RecLen, Sane;
      buf := block;
      var offset, changed := 0, false;
      ghost var total := Walk(f, includeEmpty, buf, 0, privData, false);
      while offset < |buf|
        invariant |buf| == |block| && Sane(f)
        invariant Walk(f, includeEmpty, buf, offset, privData, changed) == total
        decreases |buf| - offset
      {
        if !RecordOk(buf, offset) {
          return block, Corrupt;
        }
        StepsOver(f, buf, offset, privData);
        if Inode(buf, offset) != 0 || includeEmpty {
          var r := f(buf, offset, privData);
          buf, privData, changed := r.buf, r.p, changed || r.changed;
          if r.abort {
            return if changed then buf else block, Aborted;
          }
        }
        offset := offset + RecLen(buf, offset);
      }
      block', outcome := if changed then buf else block, Ended;
    }
  }

  lemma StepsOver<P(!new)>(f: Callback<P>, buf: seq<Byte>, off: nat, p: P)
    requires Sane(f) && RecordOk(buf, off) && |buf| < BLOCK_LIMIT
    ensures RecLen(buf, off) > 0
    ensures var r := f(buf, off, p); |r.buf| == |buf| && (!r.abort ==> RecLen(r.buf, off) > 0)
  {
  }

  // ---------- link ----------

  datatype Name = Name(inode: nat, fileType: Byte, text: seq<Byte>)

  ghost predicate GoodName(ls: Name) {
    0 < ls.inode < U32_LIMIT && |ls.text| < 256
  }

  /** link_proc */
  function LinkAt(ls: Name, buf: seq<Byte>, off: nat, done: bool): (r: Called<bool>)
    requires RecordOk(buf, off) && |buf| < BLOCK_LIMIT && ls.inode < U32_LIMIT && |ls.text| < 256
    ensures |r.buf| == |buf|
  {
    var need := DirRecLen(|ls.text|);
    var next := off + RecLen(buf, off);
    var absorb := next + 8 < |buf| && Inode(buf, next) == 0 && next + RecLen(buf, next) <= |buf|;
    var len := RecLen(buf, off) + if absorb then RecLen(buf, next) else 0;
    var buf1 := if absorb then SetRecLen(buf, off, len) else buf;
    if Inode(buf, off) != 0 then
      var min := DirRecLen(NameLen(buf, off));
      if len < min + need then Called(buf1, done, absorb, false)
      else Called(WriteEntry(SetRecLen(buf1, off, min), off + min, 0, len - min, 0, []), done, true, false)
    else if len < need then Called(buf1, done, absorb, false)
    else Called(WriteEntry(buf1, off, ls.inode, len, ls.fileType, ls.text), true, true, true)
  }

  function LinkProc(ls: Name): Callback<bool> {
    (buf: seq<Byte>, off: nat, done: bool) =>
      if RecordOk(buf, off) && |buf| < BLOCK_LIMIT && ls.inode < U32_LIMIT && |ls.text| < 256
          then LinkAt(ls, buf, off, done)
      else Called(buf, done, false, true)
  }

  /** The record after `r`, if it is free and not a last one of eight bytes, is taken into it. */
  predicate Absorbs(rest: seq<Rec>) {
    rest != [] && rest[0].inode == 0 && !(|rest| == 1 && rest[0].recLen == 8)
  }

  /** The same on records: what link makes of the records of a block, and whether the name went in. */
  function LinkRecs(ls: Name, recs: seq<Rec>): (r: (seq<Rec>, bool))
    decreases |recs|, if recs != [] && recs[0].inode != 0 then 1 else 0
  {
    if recs == [] then ([], false)
    else
      var need, absorb := DirRecLen(|ls.text|), Absorbs(recs[1..]);
      var len := recs[0].recLen + if absorb then recs[1].recLen else 0;
      var rest := recs[if absorb then 2 else 1..];
      var min := DirRecLen(|recs[0].name|);
      if recs[0].inode != 0 && len >= min + need then
        var (tail, done) := LinkRecs(ls, [Rec(0, len - min, 0, [])] + rest);
        ([recs[0].(recLen := min)] + tail, done)
      else if recs[0].inode == 0 && len >= need then
        ([Rec(ls.inode, len, ls.fileType, ls.text)] + rest, true)
      else
        var (tail, done) := LinkRecs(ls, rest);
        ([recs[0].(recLen := len)] + tail, done)
  }

  /** Whether link_proc takes the next record into the one at `off`. */
  predicate AbsorbsAt(buf: seq<Byte>, off: nat) {
    var next := off + RecLen(buf, off);
    next + 8 < |buf| && Inode(buf, next) == 0 && next + RecLen(buf, next) <= |buf|
  }

  /** How far the record at `off` reaches once it has taken the next. */
  function AbsorbedLen(buf: seq<Byte>, off: nat): nat {
    RecLen(buf, off) + if AbsorbsAt(buf, off) then RecLen(buf, off + RecLen(buf, off)) else 0
  }

  /** What link_proc writes at a record: a shortened record and a free one, or the new entry, or only the length. */
  lemma LinkStep(ls: Name, buf: seq<Byte>, off: nat, done: bool)
    requires RecordOk(buf, off) && |buf| < BLOCK_LIMIT && ls.inode < U32_LIMIT && |ls.text| < 256
    ensures var r, len, rec := LinkAt(ls, buf, off, done), AbsorbedLen(buf, off), RecordAt(buf, off);
            var need, min := DirRecLen(|ls.text|), DirRecLen(|rec.name|);
            && SameUpTo(buf, r.buf, off) && SameFrom(buf, r.buf, off + len) && rec.recLen <= len <= |buf| - off
            && if rec.inode != 0 && len >= min + need then
                 && !r.abort && r.p == done && FieldsAre(r.buf, off, rec.inode, min, rec.fileType, rec.name)
                 && FieldsAre(r.buf, off + min, 0, len - min, 0, [])
               else if rec.inode == 0 && len >= need then
                 r.abort && r.p && FieldsAre(r.buf, off, ls.inode, len, ls.fileType, ls.text)
               else !r.abort && r.p == done && FieldsAre(r.buf, off, rec.inode, len, rec.fileType, rec.name)
  {
    hide SetRecLen, WriteEntry, FieldsAre, DirRecLen, U16, U32;
    var rec, len := RecordAt(buf, off), AbsorbedLen(buf, off);
    var need, min := DirRecLen(|ls.text|), DirRecLen(|rec.name|);
    var buf1 := if AbsorbsAt(buf, off) then SetRecLen(buf, off, len) else buf;
    RecordFields(buf, off);
    SetRecLenIs(buf, off, len);
    assert FieldsAre(buf1, off, rec.inode, len, rec.fileType, rec.name);
    if rec.inode != 0 && len >= min + need {
      SplitStep(buf1, off, rec, len, min);
    } else if rec.inode == 0 && len >= need {
      WriteEntryIs(buf1, off, ls.inode, len, ls.fileType, ls.text);
    }
  }

  /** A record cut to `min` bytes, and a free one in the rest. */
  lemma SplitStep(buf: seq<Byte>, off: nat, rec: Rec, len: nat, min: nat)
    requires FieldsAre(buf, off, rec.inode, len, rec.fileType, rec.name) && |buf| < BLOCK_LIMIT
    requires 8 + |rec.name| <= min && min + 8 <= len <= |buf| - off
    ensures var r := WriteEntry(SetRecLen(buf, off, min), off + min, 0, len - min, 0, []);
            && FieldsAre(r, off, rec.inode, min, rec.fileType, rec.name) && FieldsAre(r, off + min, 0, len - min, 0, [])
            && SameUpTo(buf, r, off) && SameFrom(buf, r, off + len)
  {
    hide SetRecLen, WriteEntry, FieldsAre;
    FieldsName(buf, off, rec.inode, len, rec.fileType, rec.name);
    var buf2 := SetRecLen(buf, off, min);
    SetRecLenIs(buf, off, min);
    WriteEntryIs(buf2, off + min, 0, len - min, 0, []);
    FieldsSame(buf2, WriteEntry(buf2, off + min, 0, len - min, 0, []), off, rec.inode, min, rec.fileType, rec.name);
  }

  lemma RecordFields(buf: seq<Byte>, off: nat)
    requires RecordOk(buf, off)
    ensures var r := RecordAt(buf, off); FieldsAre(buf, off, r.inode, r.recLen, r.fileType, r.name)
  {
  }

  lemma FieldsName(buf: seq<Byte>, off: nat, inode: nat, recLen: nat, fileType: nat, name: seq<Byte>)
    requires FieldsAre(buf, off, inode, recLen, fileType, name)
    ensures NameLen(buf, off) == |name| && off + 8 + |name| <= |buf| && buf[off + 8..off + 8 + |name|] == name
    ensures Inode(buf, off) == inode && FileType(buf, off) == fileType && RecLen(buf, off) == recLen
  {
  }

  /** Good fields make a record. */
  lemma FieldsRecord(buf: seq<Byte>, off: nat, inode: nat, recLen: nat, fileType: nat, name: seq<Byte>)
    requires FieldsAre(buf, off, inode, recLen, fileType, name) && recLen % 4 == 0 && |name| + 8 <= recLen
    requires off + recLen <= |buf|
    ensures RecordOk(buf, off) && RecordAt(buf, off) == Rec(inode, recLen, fileType, name)
  {
  }

  lemma LinkSane(ls: Name)
    ensures Sane(LinkProc(ls))
  {
    forall buf: seq<Byte>, off: nat, done: bool | RecordOk(buf, off) && |buf| < BLOCK_LIMIT
      ensures var r := LinkProc(ls)(buf, off, done); |r.buf| == |buf| && (!r.abort ==> RecLen(r.buf, off) > 0)
    {
      if ls.inode < U32_LIMIT && |ls.text| < 256 {
        LinkStep(ls, buf, off, done);
      }
    }
  }

  /** A record with good fields, followed by a tiled rest. */
  lemma ParseCons(buf: seq<Byte>, off: nat, rec: Rec)
    requires FieldsAre(buf, off, rec.inode, rec.recLen, rec.fileType, rec.name)
    requires rec.recLen % 4 == 0 && |rec.name| + 8 <= rec.recLen && off + rec.recLen <= |buf|
    requires Tiled(buf, off + rec.recLen)
    ensures Tiled(buf, off) && Parse(buf, off) == [rec] + Parse(buf, off + rec.recLen)
  {
    FieldsRecord(buf, off, rec.inode, rec.recLen, rec.fileType, rec.name);
    hide FieldsAre, RecordOk, RecordAt;
  }

  lemma ParseFrom(buf: seq<Byte>, buf': seq<Byte>, off: nat)
    requires Tiled(buf, off) && off <= |buf| && SameFrom(buf, buf', off)
    ensures Tiled(buf', off) && Parse(buf', off) == Parse(buf, off)
  {
    assert buf'[off..] == buf[off..];
    ParseSame(buf, buf', off);
  }

  /** Taking the next record in, seen on records. */
  lemma AbsorbsIs(buf: seq<Byte>, off: nat)
    requires Tiled(buf, off) && off < |buf|
    ensures var recs, len := Parse(buf, off), AbsorbedLen(buf, off);
            && recs != [] && recs[0] == RecordAt(buf, off) && RecordOk(buf, off)
            && (AbsorbsAt(buf, off) <==> Absorbs(recs[1..]))
            && len == recs[0].recLen + (if Absorbs(recs[1..]) then recs[1].recLen else 0)
            && len % 4 == 0 && off + len <= |buf| && |recs[0].name| + 8 <= recs[0].recLen <= len
            && Tiled(buf, off + len) && Parse(buf, off + len) == recs[if Absorbs(recs[1..]) then 2 else 1..]
  {
    hide U16, U32;
    var recs, next := Parse(buf, off), off + RecLen(buf, off);
    assert recs[1..] == Parse(buf, next);
    if next < |buf| {
      assert recs[1] == RecordAt(buf, next) && recs[2..] == Parse(buf, next + RecLen(buf, next));
      assert next + 8 == |buf| <==> |recs| == 2 && recs[1].recLen == 8 by {
        if next + 8 == |buf| {
          assert Parse(buf, next + 8) == [];
        }
      }
    }
  }

  /** The walk of ext2fs_link over a good block does to its records what LinkRecs says; the block stays good. */
  lemma {:induction false} WalkLinks(ls: Name, buf: seq<Byte>, off: nat, changed: bool)
    requires GoodName(ls) && Tiled(buf, off) && off <= |buf| < BLOCK_LIMIT
    ensures Sane(LinkProc(ls))
    ensures var w := Walk(LinkProc(ls), true, buf, off, false, changed);
            var (recs, done) := LinkRecs(ls, Parse(buf, off));
            && SameUpTo(buf, w.buf, off) && Tiled(w.buf, off) && Parse(w.buf, off) == recs
            && w.p == done && w.outcome == (if done then Aborted else Ended)
            && (changed ==> w.changed) && (!w.changed ==> w.buf == buf)
    decreases |buf| - off, 1
  {
    hide FieldsAre, DirRecLen, RecordOk, RecordAt, Sane, Tiled, Parse, LinkAt, AbsorbsAt, AbsorbedLen, Absorbs, Walk,
         LinkRecs, LinkProc, SameUpTo, SameFrom, RecLen;
    LinkSane(ls);
    if off < |buf| {
      AbsorbsIs(buf, off);
      LinkStep(ls, buf, off, false);
      LinkKeeps(ls, buf, off);
      WalkStep(ls, buf, off, changed);
      var recs, len, r := Parse(buf, off), AbsorbedLen(buf, off), LinkAt(ls, buf, off, false);
      var need, min := DirRecLen(|ls.text|), DirRecLen(|recs[0].name|);
      LinkRecsStep(ls, recs, len);
      ParseFrom(buf, r.buf, off + len);
      if recs[0].inode != 0 && len >= min + need {
        ParseCons(r.buf, off + min, Rec(0, len - min, 0, []));
        LinkGoesOn(ls, buf, r.buf, off, recs[0].(recLen := min), changed || r.changed);
      } else if recs[0].inode == 0 && len >= need {
        ParseCons(r.buf, off, Rec(ls.inode, len, ls.fileType, ls.text));
      } else {
        LinkGoesOn(ls, buf, r.buf, off, recs[0].(recLen := len), changed || r.changed);
      }
    } else {
      WalkEnds(ls, buf, off, changed);
    }
  }

  /** The block after the walk holds the records `recs` from `off` on. */
  ghost predicate WalkedTo(buf: seq<Byte>, w: Walked<bool>, off: nat, recs: seq<Rec>, done: bool, changed: bool) {
    && SameUpTo(buf, w.buf, off) && Tiled(w.buf, off) && Parse(w.buf, off) == recs
    && w.p == done && w.outcome == (if done then Aborted else Ended)
    && (changed ==> w.changed) && (!w.changed ==> w.buf == buf)
  }

  ghost function LinkWalk(ls: Name, buf: seq<Byte>, off: nat, changed: bool): Walked<bool>
    requires GoodName(ls) && |buf| < BLOCK_LIMIT
  {
    LinkSane(ls);
    Walk(LinkProc(ls), true, buf, off, false, changed)
  }

  /** The walk after link_proc left `rec` behind it. */
  lemma {:induction false} LinkGoesOn(ls: Name, buf: seq<Byte>, buf1: seq<Byte>, off: nat, rec: Rec, changed: bool)
    requires GoodName(ls) && off + rec.recLen <= |buf1| == |buf| < BLOCK_LIMIT && Tiled(buf1, off + rec.recLen)
    requires FieldsAre(buf1, off, rec.inode, rec.recLen, rec.fileType, rec.name) && SameUpTo(buf, buf1, off)
    requires rec.recLen % 4 == 0 && |rec.name| + 8 <= rec.recLen && (!changed ==> buf1 == buf)
    ensures RecLen(buf1, off) == rec.recLen
    ensures var w := LinkWalk(ls, buf1, off + rec.recLen, changed);
            var next := LinkRecs(ls, Parse(buf1, off + rec.recLen));
            WalkedTo(buf, w, off, [rec] + next.0, next.1, changed)
    decreases |buf| - off, 0
  {
    hide FieldsAre, Sane, Tiled, Parse, Walk, LinkRecs, LinkProc;
    FieldsName(buf1, off, rec.inode, rec.recLen, rec.fileType, rec.name);
    WalkLinks(ls, buf1, off + rec.recLen, changed);
    AfterRest(buf, buf1, Walk(LinkProc(ls), true, buf1, off + rec.recLen, false, changed).buf, off, rec);
  }

  lemma WalkEnds(ls: Name, buf: seq<Byte>, off: nat, changed: bool)
    requires GoodName(ls) && off == |buf| < BLOCK_LIMIT && Sane(LinkProc(ls))
    ensures Tiled(buf, off) && Parse(buf, off) == [] && LinkRecs(ls, []) == ([], false) && SameUpTo(buf, buf, off)
    ensures Walk(LinkProc(ls), true, buf, off, false, changed) == Walked(buf, false, changed, Ended)
  {
    hide Sane;
  }

  lemma LinkRecsStep(ls: Name, recs: seq<Rec>, len: nat)
    requires recs != [] && len == recs[0].recLen + if Absorbs(recs[1..]) then recs[1].recLen else 0
    ensures var rest := recs[if Absorbs(recs[1..]) then 2 else 1..];
            var need, min := DirRecLen(|ls.text|), DirRecLen(|recs[0].name|);
            LinkRecs(ls, recs) ==
            if recs[0].inode != 0 && len >= min + need then
              var (tail, done) := LinkRecs(ls, [Rec(0, len - min, 0, [])] + rest);
              ([recs[0].(recLen := min)] + tail, done)
            else if recs[0].inode == 0 && len >= need then ([Rec(ls.inode, len, ls.fileType, ls.text)] + rest, true)
            else
              var (tail, done) := LinkRecs(ls, rest);
              ([recs[0].(recLen := len)] + tail, done)
  {
    hide Absorbs, DirRecLen;
  }

  lemma LinkKeeps(ls: Name, buf: seq<Byte>, off: nat)
    requires RecordOk(buf, off) && |buf| < BLOCK_LIMIT && ls.inode < U32_LIMIT && |ls.text| < 256
    ensures var r := LinkAt(ls, buf, off, false); !r.changed ==> r.buf == buf
  {
    hide SetRecLen, WriteEntry, U16, U32;
  }

  lemma WalkStep(ls: Name, buf: seq<Byte>, off: nat, changed: bool)
    requires GoodName(ls) && RecordOk(buf, off) && |buf| < BLOCK_LIMIT && Sane(LinkProc(ls))
    ensures var r := LinkAt(ls, buf, off, false);
            Walk(LinkProc(ls), true, buf, off, false, changed) ==
            if r.abort then Walked(r.buf, r.p, changed || r.changed, Aborted)
            else Walk(LinkProc(ls), true, r.buf, off + RecLen(r.buf, off), r.p, changed || r.changed)
  {
    hide Sane, LinkAt;
  }

  /** The record before the rest of the walk is not touched by it. */
  lemma AfterRest(buf: seq<Byte>, buf1: seq<Byte>, buf2: seq<Byte>, off: nat, rec: Rec)
    requires FieldsAre(buf1, off, rec.inode, rec.recLen, rec.fileType, rec.name)
    requires SameUpTo(buf1, buf2, off + rec.recLen)
    requires rec.recLen % 4 == 0 && |rec.name| + 8 <= rec.recLen && off + rec.recLen <= |buf2|
    requires Tiled(buf2, off + rec.recLen)
    requires SameUpTo(buf, buf1, off)
    ensures Tiled(buf2, off) && Parse(buf2, off) == [rec] + Parse(buf2, off + rec.recLen) && SameUpTo(buf, buf2, off)
  {
    hide FieldsAre, Tiled, Parse;
    FieldsSame(buf1, buf2, off, rec.inode, rec.recLen, rec.fileType, rec.name);
    ParseCons(buf2, off, rec);
  }

  // ---------- entries ----------

  datatype Entry = Entry(inode: nat, fileType: nat, name: seq<Byte>)

  function EntryOf(r: Rec): Entry {
    Entry(r.inode, r.fileType, r.name)
  }

  /** The entries in use, in order. */
  function Live(recs: seq<Rec>): seq<Entry> {
    if recs == [] then [] else (if recs[0].inode != 0 then [EntryOf(recs[0])] else []) + Live(recs[1..])
  }

  lemma LiveCons(r: Rec, rest: seq<Rec>)
    ensures Live([r] + rest) == (if r.inode != 0 then [EntryOf(r)] else []) + Live(rest)
  {
    assert ([r] + rest)[1..] == rest;
  }

  /** Record lengths are whole words and hold the name. */
  ghost predicate Formed(recs: seq<Rec>) {
    forall i :: 0 <= i < |recs| ==> recs[i].recLen % 4 == 0 && |recs[i].name| + 8 <= recs[i].recLen
  }

  lemma {:induction false} ParseFormed(buf: seq<Byte>, off: nat)
    requires Tiled(buf, off) && off <= |buf|
    ensures Formed(Parse(buf, off))
    decreases |buf| - off
  {
    if off < |buf| {
      hide RecordOk, RecordAt, RecLen, NameLen;
      ParseAt(buf, off);
      RecordFacts(buf, off);
      ParseFormed(buf, off + RecLen(buf, off));
    }
  }

  lemma RoundedUp(n: nat, len: nat)
    requires len % 4 == 0 && n + 8 <= len
    ensures DirRecLen(n) <= len
  {
  }

  /** No record had room for the name, by itself. */
  ghost predicate NoRoom(ls: Name, recs: seq<Rec>) {
    forall i :: 0 <= i < |recs| ==>
      recs[i].recLen < DirRecLen(|ls.text|) + if recs[i].inode != 0 then DirRecLen(|recs[i].name|) else 0
  }

  /** One entry put in at position k, or nothing changed. */
  ghost predicate Adds(before: seq<Entry>, after: seq<Entry>, k: nat, e: Entry, done: bool) {
    k <= |before| && after == if done then before[..k] + [e] + before[k..] else before
  }

  /** Link adds the one entry and keeps the others in order; or changes none, and then no record had room. */
  lemma {:induction false} LinkAddsOne(ls: Name, recs: seq<Rec>) returns (k: nat)
    requires ls.inode != 0 && Formed(recs)
    ensures var (out, done) := LinkRecs(ls, recs);
            Adds(Live(recs), Live(out), k, Entry(ls.inode, ls.fileType, ls.text), done) && (!done ==> NoRoom(ls, recs))
    decreases |recs|, if recs != [] && recs[0].inode != 0 then 1 else 0
  {
    hide DirRecLen, LinkRecs, Live, NoRoom, Formed, Adds, Absorbs;
    var e := Entry(ls.inode, ls.fileType, ls.text);
    if recs == [] {
      EmptyRecs(ls);
      AddsNothing([], e);
      return 0;
    }
    var absorb := Absorbs(recs[1..]);
    AbsorbsTwo(recs);
    var len, rest := recs[0].recLen + (if absorb then recs[1].recLen else 0), recs[if absorb then 2 else 1..];
    var need, min := DirRecLen(|ls.text|), DirRecLen(|recs[0].name|);
    LinkRecsStep(ls, recs, len);
    LiveRest(recs);
    var head := if recs[0].inode != 0 then [EntryOf(recs[0])] else [];
    if recs[0].inode != 0 && len >= min + need {
      var left := Rec(0, len - min, 0, []);
      FormedRest(recs, left, ls);
      var k' := LinkAddsOne(ls, [left] + rest);
      var (out, done) := LinkRecs(ls, [left] + rest);
      LiveFree(left, rest);
      LiveLonger(recs[0], min, out);
      FreeRecordTaken(ls, left, rest);
      k := AddsAfter(head, Live(rest), Live(out), k', e, done);
    } else if recs[0].inode == 0 && len >= need {
      LiveCons(Rec(ls.inode, len, ls.fileType, ls.text), rest);
      k := AddsFirst(Live(rest), e);
    } else {
      FormedRest(recs, Rec(0, 8, 0, []), ls);
      var k' := LinkAddsOne(ls, rest);
      var (out, done) := LinkRecs(ls, rest);
      LiveLonger(recs[0], len, out);
      k := AddsAfter(head, Live(rest), Live(out), k', e, done);
      RoomAfter(ls, recs, done);
    }
  }

  lemma AbsorbsTwo(recs: seq<Rec>)
    requires recs != []
    ensures Absorbs(recs[1..]) ==> |recs| >= 2
  {
  }

  /** The length of a record does not matter to its entry. */
  lemma LiveLonger(r: Rec, len: nat, rest: seq<Rec>)
    ensures Live([r.(recLen := len)] + rest) == (if r.inode != 0 then [EntryOf(r)] else []) + Live(rest)
  {
    LiveCons(r.(recLen := len), rest);
  }

  lemma LiveFree(r: Rec, rest: seq<Rec>)
    requires r.inode == 0
    ensures Live([r] + rest) == Live(rest)
  {
    LiveCons(r, rest);
  }

  lemma FormedRest(recs: seq<Rec>, left: Rec, ls: Name)
    requires recs != [] && Formed(recs) && |left.name| + 8 <= left.recLen
    requires var absorb := Absorbs(recs[1..]);
             var len := recs[0].recLen + (if absorb then recs[1].recLen else 0);
             left.recLen == 8 || left.recLen == len - DirRecLen(|recs[0].name|)
    ensures var rest := recs[if Absorbs(recs[1..]) then 2 else 1..]; Formed(rest) && Formed([left] + rest)
  {
    var rest := recs[if Absorbs(recs[1..]) then 2 else 1..];
    assert left.recLen % 4 == 0;
    forall i | 0 <= i < |rest|
      ensures rest[i].recLen % 4 == 0 && |rest[i].name| + 8 <= rest[i].recLen
    {
    }
  }

  lemma EmptyRecs(ls: Name)
    ensures LinkRecs(ls, []) == ([], false) && Live([]) == [] && NoRoom(ls, [])
  {
  }

  /** The entries of a record list: the first record's, then those after it, whether or not the next is absorbed. */
  lemma LiveRest(recs: seq<Rec>)
    requires recs != []
    ensures Live(recs) == (if recs[0].inode != 0 then [EntryOf(recs[0])] else []) +
              Live(recs[if Absorbs(recs[1..]) then 2 else 1..])
  {
    if Absorbs(recs[1..]) {
      assert recs[1..][1..] == recs[2..] && recs[1..][0] == recs[1];
    }
  }

  lemma AddsNothing(s: seq<Entry>, e: Entry)
    ensures Adds(s, s, 0, e, false)
  {
  }

  lemma AddsFirst(tail: seq<Entry>, e: Entry) returns (k: nat)
    ensures Adds([] + tail, [e] + tail, k, e, true)
  {
    k := 0;
  }

  lemma AddsAfter(head: seq<Entry>, tail: seq<Entry>, after: seq<Entry>, k: nat, e: Entry, done: bool) returns (k': nat)
    requires Adds(tail, after, k, e, done)
    ensures Adds(head + tail, head + after, k', e, done)
  {
    k' := |head| + k;
    assert (head + tail)[..k'] == head + tail[..k] && (head + tail)[k'..] == tail[k..];
  }

  lemma FreeRecordTaken(ls: Name, left: Rec, rest: seq<Rec>)
    requires left.inode == 0 && left.recLen >= DirRecLen(|ls.text|)
    ensures LinkRecs(ls, [left] + rest).1
  {
    assert ([left] + rest)[1..] == rest;
    hide DirRecLen;
  }

  lemma RoomAfter(ls: Name, recs: seq<Rec>, done: bool)
    requires recs != [] && Formed(recs)
    requires var absorb := Absorbs(recs[1..]);
             var len, rest := recs[0].recLen + (if absorb then recs[1].recLen else 0), recs[if absorb then 2 else 1..];
             var need, min := DirRecLen(|ls.text|), DirRecLen(|recs[0].name|);
             && !(recs[0].inode != 0 && len >= min + need) && !(recs[0].inode == 0 && len >= need)
             && (!done ==> NoRoom(ls, rest))
    ensures !done ==> NoRoom(ls, recs)
  {
    hide DirRecLen;
    if !done {
      var absorb := Absorbs(recs[1..]);
      var rest := recs[if absorb then 2 else 1..];
      forall i | 0 <= i < |recs|
        ensures recs[i].recLen < DirRecLen(|ls.text|) + if recs[i].inode != 0 then DirRecLen(|recs[i].name|) else 0
      {
        if i >= 2 || (i == 1 && !absorb) {
          assert recs[i] == rest[if absorb then i - 2 else i - 1];
        } else if i == 1 {
          assert recs[1] == recs[1..][0] && recs[1].inode == 0;
          RoundedUp(|recs[0].name|, recs[0].recLen);
        }
      }
    }
  }

  // ---------- unlink ----------

  /** What to unlink: a name, an inode number, or both. */
  datatype Target = Target(name: Option<seq<Byte>>, inode: nat)
  {
    predicate Matches(r: Rec) {
      && (name.Some? ==> r.name == name.value)
      && (if inode != 0 then r.inode == inode else r.inode != 0)
    }
  }

  /** The private data of unlink_proc: the offset of the record seen before, and whether it is done. */
  datatype UnlinkState = UnlinkState(prev: Option<nat>, done: bool)

  function SetInode(buf: seq<Byte>, off: nat, inode: nat): (r: seq<Byte>)
    requires off + DIRENT_HEADER <= |buf| && inode < U32_LIMIT
    ensures |r| == |buf|
  {
    Splice(buf, off, EncodeU32(inode))
  }

  /** unlink_proc; the record before is wherever `prev` says, in this block or not. */
  function UnlinkCall(t: Target, buf: seq<Byte>, off: nat, p: UnlinkState): (r: Called<UnlinkState>)
    ensures |r.buf| == |buf| && (!r.abort ==> r.buf == buf && RecordOk(buf, off))
  {
    if !RecordOk(buf, off) then Called(buf, p, false, true)
    else
      var p' := p.(prev := Some(off));
      if !t.Matches(RecordAt(buf, off)) then Called(buf, p', false, false)
      else if p.prev.Some? then
        if p.prev.value + DIRENT_HEADER <= |buf| then
          Called(SetRecLen(buf, p.prev.value, (RecLen(buf, p.prev.value) + RecLen(buf, off)) % 0x1_0000),
              p'.(done := true), true, true)
        else Called(buf, p'.(done := true), true, true)
      else Called(SetInode(buf, off, 0), p'.(done := true), true, true)
  }

  function UnlinkProc(t: Target): Callback<UnlinkState> {
    (buf: seq<Byte>, off: nat, p: UnlinkState) => UnlinkCall(t, buf, off, p)
  }

  lemma UnlinkSane(t: Target)
    ensures Sane(UnlinkProc(t))
  {
    hide UnlinkCall, RecordOk, RecLen;
    forall buf: seq<Byte>, off: nat, p: UnlinkState | RecordOk(buf, off) && |buf| < BLOCK_LIMIT
      ensures var r := UnlinkProc(t)(buf, off, p); |r.buf| == |buf| && (!r.abort ==> RecLen(r.buf, off) > 0)
    {
      RecordFacts(buf, off);
    }
  }

  lemma RecordFacts(buf: seq<Byte>, off: nat)
    requires RecordOk(buf, off)
    ensures RecLen(buf, off) >= 8 && RecLen(buf, off) % 4 == 0 && off + RecLen(buf, off) <= |buf|
    ensures off + DIRENT_HEADER <= |buf|
    ensures NameLen(buf, off) + 8 <= RecLen(buf, off) && RecordAt(buf, off).recLen == RecLen(buf, off)
    ensures |RecordAt(buf, off).name| == NameLen(buf, off) && RecordAt(buf, off).inode == Inode(buf, off)
  {
  }

  /** Records of which the first does not match: the first match becomes part of the record before it. */
  function MergeMatch(t: Target, recs: seq<Rec>): (r: (seq<Rec>, bool))
  {
    if |recs| < 2 then (recs, false)
    else if t.Matches(recs[1]) then ([recs[0].(recLen := recs[0].recLen + recs[1].recLen)] + recs[2..], true)
    else
      var (rest, done) := MergeMatch(t, recs[1..]);
      ([recs[0]] + rest, done)
  }

  function UnlinkRecs(t: Target, recs: seq<Rec>): (r: (seq<Rec>, bool)) {
    if recs != [] && t.Matches(recs[0]) then ([recs[0].(inode := 0)] + recs[1..], true)
    else MergeMatch(t, recs)
  }

  lemma UnlinkStep(t: Target, buf: seq<Byte>, off: nat, p: UnlinkState, changed: bool)
    requires RecordOk(buf, off) && |buf| < BLOCK_LIMIT && Sane(UnlinkProc(t))
    ensures !t.Matches(RecordAt(buf, off)) ==>
              Walk(UnlinkProc(t), true, buf, off, p, changed) ==
              Walk(UnlinkProc(t), true, buf, off + RecLen(buf, off), p.(prev := Some(off)), changed)
    ensures t.Matches(RecordAt(buf, off)) && p.prev == None ==>
              Walk(UnlinkProc(t), true, buf, off, p, changed) ==
                  Walked(SetInode(buf, off, 0), UnlinkState(Some(off), true), true, Aborted)
    ensures t.Matches(RecordAt(buf, off)) && p.prev.Some? && p.prev.value + DIRENT_HEADER <= |buf| ==>
              Walk(UnlinkProc(t), true, buf, off, p, changed) ==
              Walked(SetRecLen(buf, p.prev.value, (RecLen(buf, p.prev.value) + RecLen(buf, off)) % 0x1_0000),
                  UnlinkState(Some(off), true), true, Aborted)
  {
    hide Sane, SetInode, SetRecLen, RecordAt;
  }

  /** The walk of ext2fs_unlink, past a record `p` that does not match. */
  lemma {:induction false} WalkMerges(t: Target, buf: seq<Byte>, p: nat, changed: bool)
    requires Tiled(buf, p) && p < |buf| < BLOCK_LIMIT && RecordOk(buf, p)
    ensures Sane(UnlinkProc(t))
    ensures var w := Walk(UnlinkProc(t), true, buf, p + RecLen(buf, p), UnlinkState(Some(p), false), changed);
            var (recs, done) := MergeMatch(t, Parse(buf, p));
            && SameUpTo(buf, w.buf, p) && Tiled(w.buf, p) && Parse(w.buf, p) == recs
            && w.p.done == done && w.outcome == (if done then Aborted else Ended) && (!w.changed ==> w.buf == buf)
    decreases |buf| - p
  {
    hide Tiled, Parse, RecordOk, RecordAt, Sane, UnlinkProc, Walk, SetRecLen, SetInode, FieldsAre, Target.Matches;
    UnlinkSane(t);
    ParseAt(buf, p);
    RecordFacts(buf, p);
    var off := p + RecLen(buf, p);
    if off < |buf| {
      ParseAt(buf, off);
      RecordFacts(buf, off);
      UnlinkStep(t, buf, off, UnlinkState(Some(p), false), changed);
      if t.Matches(RecordAt(buf, off)) {
        MergedParse(buf, p, off, off + RecLen(buf, off));
      } else {
        WalkMerges(t, buf, off, changed);
        RecordFields(buf, p);
        UpToItself(buf, p);
        AfterRest(buf, buf, Walk(UnlinkProc(t), true, buf, off + RecLen(buf, off), UnlinkState(Some(off), false),
            changed).buf, p, RecordAt(buf, p));
      }
    } else {
      WalkUnlinkEnds(t, buf, UnlinkState(Some(p), false), changed);
      UpToItself(buf, p);
    }
  }

  lemma UpToItself(buf: seq<Byte>, p: nat)
    ensures SameUpTo(buf, buf, p)
  {
  }

  lemma WalkUnlinkEnds(t: Target, buf: seq<Byte>, p: UnlinkState, changed: bool)
    requires |buf| < BLOCK_LIMIT && Sane(UnlinkProc(t))
    ensures Walk(UnlinkProc(t), true, buf, |buf|, p, changed) == Walked(buf, p, changed, Ended)
    ensures Tiled(buf, |buf|) && Parse(buf, |buf|) == []
  {
    hide Sane;
  }

  /** The first record and the rest of a tiled part of a block. */
  lemma ParseAt(buf: seq<Byte>, off: nat)
    requires Tiled(buf, off) && off < |buf|
    ensures RecordOk(buf, off)
    ensures var next, recs := off + RecLen(buf, off), Parse(buf, off);
            && next <= |buf| && Tiled(buf, next) && recs == [RecordAt(buf, off)] + Parse(buf, next)
            && recs[1..] == Parse(buf, next) && recs[0] == RecordAt(buf, off)
            && (next < |buf| ==> RecordOk(buf, next) && |recs| >= 2 && recs[1] == RecordAt(buf, next)
                                 && next + RecLen(buf, next) <= |buf| && Tiled(buf, next + RecLen(buf, next))
                                 && recs[2..] == Parse(buf, next + RecLen(buf, next)))
            && (next == |buf| ==> |recs| == 1)
  {
    hide RecordAt, RecLen, RecordOk, Tiled, Parse;
    var next, recs := off + RecLen(buf, off), Parse(buf, off);
    FirstRecord(buf, off);
    assert recs[1..] == Parse(buf, next);
    if next < |buf| {
      FirstRecord(buf, next);
      assert recs[2..] == recs[1..][1..];
    } else {
      NoRecord(buf, next);
    }
  }

  lemma FirstRecord(buf: seq<Byte>, off: nat)
    requires Tiled(buf, off) && off < |buf|
    ensures RecordOk(buf, off)
    ensures var next := off + RecLen(buf, off);
            next <= |buf| && Tiled(buf, next) && Parse(buf, off) == [RecordAt(buf, off)] + Parse(buf, next)
  {
    hide RecordAt, RecLen, NameLen;
  }

  lemma NoRecord(buf: seq<Byte>, off: nat)
    requires Tiled(buf, off) && off >= |buf|
    ensures off == |buf| && Parse(buf, off) == []
  {
    hide RecordAt, RecLen, RecordOk;
  }

  lemma MergedParse(buf: seq<Byte>, p: nat, off: nat, after: nat)
    requires RecordOk(buf, p) && off == p + RecLen(buf, p) && RecordOk(buf, off) && after == off + RecLen(buf, off)
    requires |buf| < BLOCK_LIMIT && Tiled(buf, after)
    ensures var n := RecLen(buf, p) + RecLen(buf, off);
            var buf' := SetRecLen(buf, p, n % 0x1_0000);
            && n == n % 0x1_0000 && SameUpTo(buf, buf', p) && Tiled(buf', p)
            && Parse(buf', p) == [RecordAt(buf, p).(recLen := n)] + Parse(buf, after)
  {
    hide SetRecLen, FieldsAre, Tiled, Parse, U16, U32, NameLen, FileType, Inode, RecordOk, RecordAt, RecLen;
    var n, rec := RecLen(buf, p) + RecLen(buf, off), RecordAt(buf, p);
    RecordFacts(buf, p);
    RecordFacts(buf, off);
    SetRecLenIs(buf, p, n);
    RecordFields(buf, p);
    FieldsName(buf, p, rec.inode, rec.recLen, rec.fileType, rec.name);
    FromLater(buf, SetRecLen(buf, p, n), p + 8, after);
    ParseFrom(buf, SetRecLen(buf, p, n), after);
    ParseCons(SetRecLen(buf, p, n), p, rec.(recLen := n));
  }

  lemma FromLater(buf: seq<Byte>, buf': seq<Byte>, lo: nat, lo': nat)
    requires SameFrom(buf, buf', lo) && lo <= lo'
    ensures SameFrom(buf, buf', lo')
  {
  }

  lemma SetInodeIs(buf: seq<Byte>, off: nat)
    requires RecordOk(buf, off)
    ensures var buf', rec := SetInode(buf, off, 0), RecordAt(buf, off);
            FieldsAre(buf', off, 0, rec.recLen, rec.fileType, rec.name) && SameUpTo(buf, buf', off) &&
                SameFrom(buf, buf', off + 4)
  {
    var buf', e := SetInode(buf, off, 0), EncodeU32(0);
    assert buf'[off..off + 4] == e;
    U32Same(buf', e, off, 0);
    var n := NameLen(buf, off);
    assert buf'[off + 8..off + 8 + n] == buf[off + 8..off + 8 + n];
  }

  /** Unlink in a block that no record was seen before: the records end up as UnlinkRecs says. */
  lemma WalkUnlinks(t: Target, buf: seq<Byte>)
    requires Tiled(buf, 0) && 0 < |buf| < BLOCK_LIMIT
    ensures Sane(UnlinkProc(t))
    ensures var w := Walk(UnlinkProc(t), true, buf, 0, UnlinkState(None, false), false);
            var (recs, done) := UnlinkRecs(t, Parse(buf, 0));
            && Tiled(w.buf, 0) && Parse(w.buf, 0) == recs && w.p.done == done
            && w.outcome == (if done then Aborted else Ended) && (!w.changed ==> w.buf == buf)
  {
    hide Tiled, Parse, RecordOk, RecordAt, Sane, UnlinkProc, Walk, SetRecLen, SetInode, Target.Matches, MergeMatch,
         RecLen, Inode, NameLen, FileType, UnlinkRecs;
    UnlinkSane(t);
    ParseAt(buf, 0);
    RecordFacts(buf, 0);
    UnlinkStep(t, buf, 0, UnlinkState(None, false), false);
    UnlinkRecsCases(t, Parse(buf, 0));
    if t.Matches(RecordAt(buf, 0)) {
      ClearedParse(buf, 0);
    } else {
      WalkMerges(t, buf, 0, false);
    }
  }

  lemma UnlinkRecsCases(t: Target, recs: seq<Rec>)
    requires recs != []
    ensures t.Matches(recs[0]) ==> UnlinkRecs(t, recs) == ([recs[0].(inode := 0)] + recs[1..], true)
    ensures !t.Matches(recs[0]) ==> UnlinkRecs(t, recs) == MergeMatch(t, recs)
  {
  }

  lemma ClearedParse(buf: seq<Byte>, off: nat)
    requires Tiled(buf, off) && off < |buf|
    ensures RecordOk(buf, off) && off + RecLen(buf, off) <= |buf| && Tiled(buf, off + RecLen(buf, off))
    ensures Tiled(SetInode(buf, off, 0), off)
    ensures Parse(SetInode(buf, off, 0), off) == [RecordAt(buf, off).(inode := 0)] + Parse(buf, off + RecLen(buf, off))
  {
    hide Tiled, Parse, RecordOk, RecordAt, SetInode, FieldsAre, RecLen, NameLen;
    ParseAt(buf, off);
    RecordFacts(buf, off);
    SetInodeIs(buf, off);
    FromLater(buf, SetInode(buf, off, 0), off + 4, off + RecLen(buf, off));
    ParseFrom(buf, SetInode(buf, off, 0), off + RecLen(buf, off));
    ParseCons(SetInode(buf, off, 0), off, RecordAt(buf, off).(inode := 0));
  }

  /** In a later block, where a record was seen before, only a match that is not the first record is removed:
      a matching first record stays in use. */
  lemma UnlinkLeavesFirst(t: Target, buf: seq<Byte>, prev: nat)
    requires Tiled(buf, 0) && 0 < |buf| < BLOCK_LIMIT && prev + DIRENT_HEADER <= |buf|
    ensures Sane(UnlinkProc(t))
    ensures var w := Walk(UnlinkProc(t), true, buf, 0, UnlinkState(Some(prev), false), false);
            var recs := Parse(buf, 0);
            if t.Matches(recs[0]) then w.p.done && Inode(w.buf, 0) == recs[0].inode != 0
            else Tiled(w.buf, 0) && Parse(w.buf, 0) == UnlinkRecs(t, recs).0 && w.p.done == UnlinkRecs(t, recs).1
    ensures var w := Walk(UnlinkProc(t), true, buf, 0, UnlinkState(Some(prev), false), false);
            w.outcome == (if w.p.done then Aborted else Ended) && (!w.changed ==> w.buf == buf)
  {
    hide Tiled, Parse, RecordOk, RecordAt, Sane, UnlinkProc, Walk, SetRecLen, SetInode, FieldsAre, MergeMatch, RecLen;
    UnlinkSane(t);
    ParseAt(buf, 0);
    RecordFacts(buf, 0);
    UnlinkStep(t, buf, 0, UnlinkState(Some(prev), false), false);
    if t.Matches(RecordAt(buf, 0)) {
      LengthOnly(buf, prev, (RecLen(buf, prev) + RecLen(buf, 0)) % 0x1_0000);
    } else {
      WalkMerges(t, buf, 0, false);
    }
  }

  /** Changing a record length anywhere leaves the first inode number alone. */
  lemma LengthOnly(buf: seq<Byte>, prev: nat, n: nat)
    requires prev + DIRENT_HEADER <= |buf| && n < 0x1_0000
    ensures Inode(SetRecLen(buf, prev, n), 0) == Inode(buf, 0)
  {
    var buf' := SetRecLen(buf, prev, n);
    assert forall i :: 0 <= i < 4 ==> buf'[i] == buf[i];
  }

  // ---------- unlink in a directory of several blocks ----------

  /** Where the last record of a block starts. */
  function LastOff(buf: seq<Byte>, off: nat): (last: nat)
    requires Tiled(buf, off) && off < |buf|
    ensures last + DIRENT_HEADER <= |buf|
    decreases |buf| - off
  {
    var next := off + RecLen(buf, off);
    if next < |buf| then LastOff(buf, next) else off
  }

  ghost predicate NoMatch(t: Target, recs: seq<Rec>) {
    forall i :: 0 <= i < |recs| ==> !t.Matches(recs[i])
  }

  /** A block without a match: it stays as it is, and its last record is the one seen before. */
  lemma {:induction false} WalkPasses(t: Target, buf: seq<Byte>, off: nat, p: UnlinkState)
    requires Tiled(buf, off) && off < |buf| < BLOCK_LIMIT && NoMatch(t, Parse(buf, off))
    ensures Sane(UnlinkProc(t))
    ensures Walk(UnlinkProc(t), true, buf, off, p, false) ==
              Walked(buf, p.(prev := Some(LastOff(buf, off))), false, Ended)
    decreases |buf| - off
  {
    hide Parse, RecordOk, RecordAt, Sane, UnlinkProc, Walk, Target.Matches, RecLen;
    UnlinkSane(t);
    ParseAt(buf, off);
    RecordFacts(buf, off);
    UnlinkStep(t, buf, off, p, false);
    var recs, next := Parse(buf, off), off + RecLen(buf, off);
    assert !t.Matches(recs[0]);
    if next < |buf| {
      assert forall i :: 0 <= i < |recs| - 1 ==> recs[1..][i] == recs[i + 1];
      WalkPasses(t, buf, next, p.(prev := Some(off)));
    } else {
      WalkUnlinkEnds(t, buf, p.(prev := Some(off)), false);
    }
  }

  ghost predicate Sized(blocks: seq<seq<Byte>>) {
    forall i :: 0 <= i < |blocks| ==> |blocks[i]| < BLOCK_LIMIT
  }

  /** The blocks of a directory walked in turn from number `i` on, until the callback stops. */
  ghost function WalkDir<P(!new)>(f: Callback<P>, includeEmpty: bool, blocks: seq<seq<Byte>>, i: nat,
      p: P): (r: (seq<seq<Byte>>, P, Outcome))
    requires Sane(f) && Sized(blocks) && i <= |blocks|
    ensures |r.0| == |blocks|
    decreases |blocks| - i
  {
    if i == |blocks| then (blocks, p, Ended)
    else
      var w := Walk(f, includeEmpty, blocks[i], 0, p, false);
      var blocks' := blocks[i := if w.changed && w.outcome != Corrupt then w.buf else blocks[i]];
      if w.outcome == Ended then WalkDir(f, includeEmpty, blocks', i + 1, w.p) else (blocks', w.p, w.outcome)
  }

  /** ext2fs_dir_iterate */
  method DirIterate<P(!new)>(f: Callback<P>, includeEmpty: bool, blocks: seq<seq<Byte>>, p: P)
    returns (blocks': seq<seq<Byte>>, p': P, outcome: Outcome)
    requires Sane(f) && Sized(blocks)
    ensures (blocks', p', outcome) == WalkDir(f, includeEmpty, blocks, 0, p)
  {
    hide Walk, Sane;
    blocks', outcome := blocks, Ended;
    var ctx := new DirContext(f, includeEmpty, p);
    ghost var total := WalkDir(f, includeEmpty, blocks, 0, p);
    var i := 0;
    while i < |blocks'| && outcome == Ended
      invariant i <= |blocks'| && Sized(blocks') && ctx.f == f && ctx.includeEmpty == includeEmpty && fresh(ctx)
      invariant if outcome == Ended then WalkDir(f, includeEmpty, blocks', i, ctx.privData) == total
                else total == (blocks', ctx.privData, outcome)
      decreases |blocks'| - i
    {
      var block';
      block', outcome := ctx.ProcessDirBlock(blocks'[i]);
      blocks' := blocks'[i := block'];
      i := i + 1;
    }
    p' := ctx.privData;
  }

  /** The walk of one unlink. */
  ghost function UnlinkBlocks(t: Target, blocks: seq<seq<Byte>>, i: nat,
      p: UnlinkState): (r: (seq<seq<Byte>>, UnlinkState, Outcome))
    requires Sized(blocks) && i <= |blocks|
    ensures |r.0| == |blocks|
  {
    UnlinkSane(t);
    WalkDir(UnlinkProc(t), true, blocks, i, p)
  }

  datatype Status = Success | InvalidArgument | DirCorrupted | DirNoSpace | FileNotFound

  /** ext2fs_unlink */
  method Unlink(blocks: seq<seq<Byte>>, t: Target) returns (blocks': seq<seq<Byte>>, rc: Status)
    requires Sized(blocks)
    ensures t.name == None && t.inode == 0 ==> rc == InvalidArgument && blocks' == blocks
    ensures t.name != None || t.inode != 0 ==>
              var (out, p, outcome) := UnlinkBlocks(t, blocks, 0, UnlinkState(None, false));
              blocks' == out && rc == if outcome == Corrupt then DirCorrupted
                  else if p.done then Success else DirNoSpace
  {
    hide WalkDir, Sane, UnlinkProc;
    if t.name == None && t.inode == 0 {
      return blocks, InvalidArgument;
    }
    UnlinkSane(t);
    var state, outcome;
    blocks', state, outcome := DirIterate(UnlinkProc(t), true, blocks, UnlinkState(None, false));
    rc := if outcome == Corrupt then DirCorrupted else if state.done then Success else DirNoSpace;
  }

  /** A directory: good blocks of one size. */
  ghost predicate GoodDir(blocks: seq<seq<Byte>>) {
    && (forall i :: 0 <= i < |blocks| ==> 0 < |blocks[i]| < BLOCK_LIMIT && Tiled(blocks[i], 0))
    && (forall i, j :: 0 <= i < |blocks| && 0 <= j < |blocks| ==> |blocks[i]| == |blocks[j]|)
  }

  /** Block `k` has the first match, or `k` is past the end and there is none. */
  ghost predicate FirstMatchIn(t: Target, blocks: seq<seq<Byte>>, k: nat)
    requires GoodDir(blocks)
  {
    && k <= |blocks|
    && (forall i :: 0 <= i < k ==> NoMatch(t, Parse(blocks[i], 0)))
    && (k < |blocks| ==> !NoMatch(t, Parse(blocks[k], 0)))
  }

  /** The state of unlink_proc at the start of block `i` while nothing has matched. */
  ghost function StateAt(blocks: seq<seq<Byte>>, i: nat): UnlinkState
    requires GoodDir(blocks) && i <= |blocks|
  {
    if i == 0 then UnlinkState(None, false) else UnlinkState(Some(LastOff(blocks[i - 1], 0)), false)
  }

  lemma {:induction false} UnlinkReaches(t: Target, blocks: seq<seq<Byte>>, i: nat, k: nat)
    requires GoodDir(blocks) && FirstMatchIn(t, blocks, k) && i <= k
    ensures Sized(blocks)
    ensures UnlinkBlocks(t, blocks, i, StateAt(blocks, i)) == UnlinkBlocks(t, blocks, k, StateAt(blocks, k))
    decreases k - i
  {
    hide Walk, Sane, UnlinkProc, Tiled, Parse, LastOff, NoMatch;
    if i < k {
      WalkPasses(t, blocks[i], 0, StateAt(blocks, i));
      assert blocks[i := blocks[i]] == blocks;
      UnlinkReaches(t, blocks, i + 1, k);
    }
  }

  /** In the block with the first match, unlink is done. */
  lemma FoundInRecs(t: Target, recs: seq<Rec>)
    requires !NoMatch(t, recs)
    ensures recs != [] && UnlinkRecs(t, recs).1
  {
    hide Target.Matches;
    var i :| 0 <= i < |recs| && t.Matches(recs[i]);
    if !t.Matches(recs[0]) {
      FoundByMerge(t, recs, i);
    }
  }

  lemma {:induction false} FoundByMerge(t: Target, recs: seq<Rec>, i: nat)
    requires 0 < i < |recs| && t.Matches(recs[i])
    ensures MergeMatch(t, recs).1
  {
    hide Target.Matches;
    if !t.Matches(recs[1]) {
      assert recs[1..][i - 1] == recs[i];
      FoundByMerge(t, recs[1..], i - 1);
    }
  }

  /** Where ext2fs_unlink goes wrong: the match is the first record of a block that is not the first. */
  ghost predicate MatchStartsLater(t: Target, blocks: seq<seq<Byte>>, k: nat)
    requires GoodDir(blocks) && k < |blocks|
  {
    FirstBlockRecord(blocks, k);
    k > 0 && t.Matches(Parse(blocks[k], 0)[0])
  }

  lemma FirstBlockRecord(blocks: seq<seq<Byte>>, k: nat)
    requires GoodDir(blocks) && k < |blocks|
    ensures RecordOk(blocks[k], 0) && Parse(blocks[k], 0) != [] && Parse(blocks[k], 0)[0] == RecordAt(blocks[k], 0)
  {
    ParseAt(blocks[k], 0);
  }

  /**
   Unlink in a whole directory.  It reports success exactly if something matches.  It takes the first
   match out of its block exactly if that is not the first record of a later block; if it is, the entry
   stays in use, and the record of the same block at the offset where the block before had its last
   record, or whatever bytes are there, has its length raised.
   */
  lemma UnlinkDirectory(t: Target, blocks: seq<seq<Byte>>, k: nat)
    requires GoodDir(blocks) && FirstMatchIn(t, blocks, k)
    ensures Sized(blocks)
    ensures var (out, p, outcome) := UnlinkBlocks(t, blocks, 0, UnlinkState(None, false));
            && (p.done <==> k < |blocks|) && outcome != Corrupt
            && (forall i :: 0 <= i < |blocks| && i != k ==> out[i] == blocks[i])
            && (k < |blocks| ==>
                  (Tiled(out[k], 0) && Parse(out[k], 0) == UnlinkRecs(t, Parse(blocks[k], 0)).0 <==>
                      !MatchStartsLater(t, blocks, k)))
            && (k < |blocks| && MatchStartsLater(t, blocks, k) ==>
                  var b, last := blocks[k], LastOff(blocks[k - 1], 0);
                  && Inode(out[k], 0) == Inode(b, 0) != 0
                  && out[k] == SetRecLen(b, last, (RecLen(b, last) + RecLen(b, 0)) % 0x1_0000))
  {
    hide Walk, Sane, UnlinkProc, Tiled, Parse, LastOff, NoMatch, UnlinkRecs, RecordOk, RecordAt, SetRecLen, RecLen,
         Inode;
    UnlinkReaches(t, blocks, 0, k);
    if k < |blocks| {
      FirstBlockRecord(blocks, k);
      FoundInRecs(t, Parse(blocks[k], 0));
      if k == 0 {
        WalkUnlinks(t, blocks[0]);
      } else {
        var last := LastOff(blocks[k - 1], 0);
        UnlinkLeavesFirst(t, blocks[k], last);
        if t.Matches(RecordAt(blocks[k], 0)) {
          FirstStays(t, blocks[k], last);
        }
      }
    }
  }

  lemma FirstStays(t: Target, buf: seq<Byte>, prev: nat)
    requires Tiled(buf, 0) && 0 < |buf| < BLOCK_LIMIT && prev + DIRENT_HEADER <= |buf| && RecordOk(buf, 0)
    requires t.Matches(RecordAt(buf, 0)) && Parse(buf, 0) != [] && Parse(buf, 0)[0] == RecordAt(buf, 0)
    ensures Sane(UnlinkProc(t))
    ensures var w := Walk(UnlinkProc(t), true, buf, 0, UnlinkState(Some(prev), false), false);
            && w == Walked(SetRecLen(buf, prev, (RecLen(buf, prev) + RecLen(buf, 0)) % 0x1_0000),
                UnlinkState(Some(0), true), true, Aborted)
            && !(Tiled(w.buf, 0) && Parse(w.buf, 0) == UnlinkRecs(t, Parse(buf, 0)).0)
            && Inode(w.buf, 0) == Inode(buf, 0) != 0
  {
    hide Walk, Sane, UnlinkProc, SetRecLen, RecLen, NameLen, FileType, U16, U32;
    UnlinkSane(t);
    RecordFacts(buf, 0);
    UnlinkStep(t, buf, 0, UnlinkState(Some(prev), false), false);
    LengthOnly(buf, prev, (RecLen(buf, prev) + RecLen(buf, 0)) % 0x1_0000);
    var out := SetRecLen(buf, prev, (RecLen(buf, prev) + RecLen(buf, 0)) % 0x1_0000);
    if Tiled(out, 0) {
      ParseAt(out, 0);
    }
  }

  // ---------- which entry goes ----------

  ghost predicate Fits(t: Target, e: Entry) {
    && (t.name.Some? ==> e.name == t.name.value) && (t.inode != 0 ==> e.inode == t.inode)
  }

  /** Unlink removes the first entry that fits, and only that; without one it changes nothing. */
  lemma {:induction false} UnlinkRemovesFirst(t: Target, recs: seq<Rec>) returns (k: nat)
    ensures var (out, done) := UnlinkRecs(t, recs);
            && k <= |Live(recs)| && (forall i :: 0 <= i < k ==> !Fits(t, Live(recs)[i]))
            && (done <==> k < |Live(recs)|) && (done ==> Fits(t, Live(recs)[k]))
            && Live(out) == if done then Live(recs)[..k] + Live(recs)[k + 1..] else Live(recs)
  {
    if recs != [] && t.Matches(recs[0]) {
      LiveCons(recs[0].(inode := 0), recs[1..]);
      k := 0;
    } else {
      k := MergeRemovesFirst(t, recs);
    }
  }

  lemma {:induction false} MergeRemovesFirst(t: Target, recs: seq<Rec>) returns (k: nat)
    requires recs != [] ==> !t.Matches(recs[0])
    ensures var (out, done) := MergeMatch(t, recs);
            && k <= |Live(recs)| && (forall i :: 0 <= i < k ==> !Fits(t, Live(recs)[i]))
            && (done <==> k < |Live(recs)|) && (done ==> Fits(t, Live(recs)[k]))
            && Live(out) == if done then Live(recs)[..k] + Live(recs)[k + 1..] else Live(recs)
  {
    hide Fits, Live;
    LiveFirst(recs);
    if recs == [] {
      return 0;
    }
    var head := if recs[0].inode != 0 then [EntryOf(recs[0])] else [];
    NoFit(t, recs[0]);
    if |recs| >= 2 && t.Matches(recs[1]) {
      LiveCons(recs[0].(recLen := recs[0].recLen + recs[1].recLen), recs[2..]);
      assert recs[1..][1..] == recs[2..] && recs[1..][0] == recs[1];
      LiveFirst(recs[1..]);
      DoesFit(t, recs[1]);
      k := |head|;
      TakeOut(head, Live(recs[1..]), 0);
    } else if |recs| >= 2 {
      var k' := MergeRemovesFirst(t, recs[1..]);
      var (rest, done) := MergeMatch(t, recs[1..]);
      LiveCons(recs[0], rest);
      k := |head| + k';
      if done {
        TakeOut(head, Live(recs[1..]), k');
      }
    } else {
      assert recs[1..] == [];
      LiveFirst(recs[1..]);
      k := |head|;
    }
  }

  lemma LiveFirst(recs: seq<Rec>)
    ensures recs == [] ==> Live(recs) == []
    ensures recs != [] ==> Live(recs) == (if recs[0].inode != 0 then [EntryOf(recs[0])] else []) + Live(recs[1..])
  {
  }

  lemma NoFit(t: Target, r: Rec)
    requires !t.Matches(r)
    ensures r.inode != 0 ==> !Fits(t, EntryOf(r))
  {
  }

  lemma DoesFit(t: Target, r: Rec)
    requires t.Matches(r)
    ensures r.inode != 0 && Fits(t, EntryOf(r))
  {
  }

  lemma TakeOut(head: seq<Entry>, tail: seq<Entry>, k: nat)
    requires k < |tail|
    ensures var k', all := |head| + k, head + tail;
            all[..k'] + all[k' + 1..] == head + (tail[..k] + tail[k + 1..]) && all[k'] == tail[k]
  {
  }

  /** A name linked and unlinked again: the entries are what they were. */
  lemma UnlinkUndoesLink(ls: Name, recs: seq<Rec>)
    requires ls.inode != 0 && Formed(recs) && LinkRecs(ls, recs).1
    requires forall i :: 0 <= i < |Live(recs)| ==> Live(recs)[i].name != ls.text
    ensures var (out, done) := UnlinkRecs(Target(Some(ls.text), ls.inode), LinkRecs(ls, recs).0);
            done && Live(out) == Live(recs)
  {
    hide LinkRecs, UnlinkRecs, Live;
    var t, e, all := Target(Some(ls.text), ls.inode), Entry(ls.inode, ls.fileType, ls.text), Live(recs);
    var k := LinkAddsOne(ls, recs);
    var linked := Live(LinkRecs(ls, recs).0);
    var k' := UnlinkRemovesFirst(t, LinkRecs(ls, recs).0);
    assert linked[k] == e && Fits(t, e);
    forall i | 0 <= i < k
      ensures !Fits(t, linked[i])
    {
      assert linked[i] == all[i];
    }
    assert k' == k;
    assert linked[..k] + linked[k + 1..] == all[..k] + all[k..] == all;
  }

  // ---------- lookup ----------

  /** lookup_proc */
  function LookupProc(name: seq<Byte>): Callback<Option<nat>> {
    (buf: seq<Byte>, off: nat, p: Option<nat>) =>
      if RecordOk(buf, off) && RecordAt(buf, off).name == name then Called(buf, Some(Inode(buf, off)), false, true)
      else Called(buf, p, false, !RecordOk(buf, off))
  }

  /** The inode of the first entry with a name. */
  function FirstNamed(entries: seq<Entry>, name: seq<Byte>): Option<nat> {
    if entries == [] then None
        else if entries[0].name == name then Some(entries[0].inode) else FirstNamed(entries[1..], name)
  }

  /** Lookup finds the first entry in use with the name, and changes nothing. */
  lemma {:induction false} WalkLooksUp(name: seq<Byte>, buf: seq<Byte>, off: nat)
    requires Tiled(buf, off) && off <= |buf| < BLOCK_LIMIT
    ensures Sane(LookupProc(name))
    ensures var w := Walk(LookupProc(name), false, buf, off, None, false);
            && w.buf == buf && !w.changed && w.p == FirstNamed(Live(Parse(buf, off)), name)
            && w.outcome == if w.p == None then Ended else Aborted
    decreases |buf| - off
  {
    hide Tiled, Parse, RecordOk, RecordAt, Sane, LookupProc, Live, FirstNamed, Walk;
    LookupStep(name, buf, off);
    if off < |buf| {
      ParseAt(buf, off);
      RecordFacts(buf, off);
      WalkLooksUp(name, buf, off + RecLen(buf, off));
      LiveFirst(Parse(buf, off));
      NamedFirst(EntryOf(RecordAt(buf, off)), Live(Parse(buf, off + RecLen(buf, off))), name);
    }
  }

  lemma NamedFirst(e: Entry, tail: seq<Entry>, name: seq<Byte>)
    ensures FirstNamed([e] + tail, name) == if e.name == name then Some(e.inode) else FirstNamed(tail, name)
    ensures [] + tail == tail
  {
    assert ([e] + tail)[1..] == tail;
  }

  lemma LookupStep(name: seq<Byte>, buf: seq<Byte>, off: nat)
    requires Tiled(buf, off) && off <= |buf| < BLOCK_LIMIT
    ensures Sane(LookupProc(name))
    ensures off < |buf| ==>
              RecordOk(buf, off) &&
              Walk(LookupProc(name), false, buf, off, None, false) ==
              if Inode(buf, off) != 0 && RecordAt(buf, off).name == name
                  then Walked(buf, Some(Inode(buf, off)), false, Aborted)
              else Walk(LookupProc(name), false, buf, off + RecLen(buf, off), None, false)
    ensures off == |buf| ==>
              Walk(LookupProc(name), false, buf, off, None, false) == Walked(buf, None, false, Ended)
              && FirstNamed(Live(Parse(buf, off)), name) == None
  {
    hide RecordAt, RecordOk;
    LookupSane(name);
    if off < |buf| {
      ParseAt(buf, off);
      RecordFacts(buf, off);
    }
    hide Sane;
  }

  lemma LookupSane(name: seq<Byte>)
    ensures Sane(LookupProc(name))
  {
    hide RecordAt, RecordOk;
    forall buf: seq<Byte>, off: nat, p: Option<nat> | RecordOk(buf, off) && |buf| < BLOCK_LIMIT
      ensures var r := LookupProc(name)(buf, off, p); |r.buf| == |buf| && (!r.abort ==> RecLen(r.buf, off) > 0)
    {
      RecordFacts(buf, off);
    }
  }

  /** In the block itself: linking a fresh name and unlinking it again restores the entries, byte layout aside. */
  lemma LinkThenUnlink(ls: Name, buf: seq<Byte>)
    requires GoodName(ls) && Tiled(buf, 0) && 0 < |buf| < BLOCK_LIMIT
    requires forall i :: 0 <= i < |Live(Parse(buf, 0))| ==> Live(Parse(buf, 0))[i].name != ls.text
    ensures Sane(LinkProc(ls)) && Sane(UnlinkProc(Target(Some(ls.text), ls.inode)))
    ensures var w := Walk(LinkProc(ls), true, buf, 0, false, false);
            var u := Walk(UnlinkProc(Target(Some(ls.text), ls.inode)), true, w.buf, 0, UnlinkState(None, false), false);
            w.p ==> u.p.done && Tiled(u.buf, 0) && Live(Parse(u.buf, 0)) == Live(Parse(buf, 0))
  {
    hide Tiled, Parse, Walk, Sane, LinkProc, UnlinkProc, LinkRecs, UnlinkRecs, Live, Formed;
    WalkLinks(ls, buf, 0, false);
    ParseFormed(buf, 0);
    WalkUnlinks(Target(Some(ls.text), ls.inode), Walk(LinkProc(ls), true, buf, 0, false, false).buf);
    if LinkRecs(ls, Parse(buf, 0)).1 {
      UnlinkUndoesLink(ls, Parse(buf, 0));
    }
  }

  // ---------- a new block ----------

  function ZeroBlock(n: nat): (r: seq<Byte>)
    ensures |r| == n && forall i :: 0 <= i < n ==> r[i] == 0
  {
    seq(n, _ => 0)
  }

  /** ext2fs_new_dir_block: one free record, or the entries "." and ".." */
  method NewDirBlock(blockSize: nat, dirIno: nat, parentIno: nat, fileType: Byte) returns (buf: seq<Byte>)
    requires 24 <= blockSize < BLOCK_LIMIT && blockSize % 4 == 0 && dirIno < U32_LIMIT && parentIno < U32_LIMIT
    requires dirIno != 0 ==> parentIno != 0
    ensures |buf| == blockSize && Tiled(buf, 0)
    ensures Parse(buf, 0) ==
            if dirIno == 0 then [Rec(0, blockSize, 0, [])]
            else [Rec(dirIno, 12, fileType, DOT), Rec(parentIno, blockSize - 12, fileType, DOT + DOT)]
    ensures Live(Parse(buf, 0)) ==
            if dirIno == 0 then [] else [Entry(dirIno, fileType, DOT), Entry(parentIno, fileType, DOT + DOT)]
  {
    hide WriteEntry, SetRecLen, FieldsAre, Tiled, Parse, Live;
    var zeros := ZeroBlock(blockSize);
    buf := SetRecLen(zeros, 0, blockSize);
    if dirIno != 0 {
      var recLen := blockSize - DirRecLen(1);
      buf := WriteEntry(buf, 0, dirIno, DirRecLen(1), fileType, DOT);
      ghost var first := buf;
      WriteEntryIs(SetRecLen(zeros, 0, blockSize), 0, dirIno, DirRecLen(1), fileType, DOT);
      buf := WriteEntry(buf, DirRecLen(1), parentIno, recLen, fileType, DOT + DOT);
      WriteEntryIs(first, DirRecLen(1), parentIno, recLen, fileType, DOT + DOT);
      FieldsSame(first, buf, 0, dirIno, DirRecLen(1), fileType, DOT);
      EndTiled(buf);
      ParseCons(buf, DirRecLen(1), Rec(parentIno, recLen, fileType, DOT + DOT));
      ParseCons(buf, 0, Rec(dirIno, DirRecLen(1), fileType, DOT));
      LiveTwo(Rec(dirIno, DirRecLen(1), fileType, DOT), Rec(parentIno, recLen, fileType, DOT + DOT));
    } else {
      ZeroFields(zeros);
      SetRecLenIs(zeros, 0, blockSize);
      EndTiled(buf);
      ParseCons(buf, 0, Rec(0, blockSize, 0, []));
      LiveCons(Rec(0, blockSize, 0, []), []);
      LiveFirst([]);
    }
  }

  const DOT: seq<Byte> := [46]

  lemma EndTiled(buf: seq<Byte>)
    ensures Tiled(buf, |buf|) && Parse(buf, |buf|) == []
  {
  }

  lemma ZeroFields(zeros: seq<Byte>)
    requires |zeros| >= 8 && forall i :: 0 <= i < |zeros| ==> zeros[i] == 0
    ensures Inode(zeros, 0) == 0 && NameLen(zeros, 0) == 0 && FileType(zeros, 0) == 0
  {
  }

  lemma LiveTwo(a: Rec, b: Rec)
    requires a.inode != 0 && b.inode != 0
    ensures Live([a] + ([b] + [])) == [EntryOf(a), EntryOf(b)]
  {
    LiveCons(a, [b] + []);
    LiveCons(b, []);
    LiveFirst([]);
  }

  // ---------- directories in which unlink goes wrong ----------

  /**
   If the block before has only one record, a matching first record takes its own length twice; where
   that does not fit, the block is corrupt from then on.
   */
  lemma UnlinkCorrupts(t: Target, a: seq<Byte>, b: seq<Byte>)
    requires GoodDir([a, b]) && |[a, b]| == 2 && |[a, b][1]| <= 0x8000 && Tiled(a, 0) && Tiled(b, 0)
    requires |Parse(a, 0)| == 1 && NoMatch(t, Parse(a, 0)) && RecordOk(b, 0) && t.Matches(RecordAt(b, 0))
    requires 2 * RecLen(b, 0) > |b|
    ensures Sized([a, b])
    ensures var (out, p, _) := UnlinkBlocks(t, [a, b], 0, UnlinkState(None, false));
            p.done && !RecordOk(out[1], 0)
  {
    hide Target.Matches, UnlinkBlocks, UnlinkRecs, RecordAt, RecordOk, RecLen, SetRecLen, Walk, WalkDir, Live, Tiled,
         Parse, LastOff;
    var dir := [a, b];
    assert |dir[0]| == |dir[1]|;
    FirstBlockRecord(dir, 1);
    assert FirstMatchIn(t, dir, 1) by {
      assert t.Matches(Parse(b, 0)[0]);
    }
    UnlinkDirectory(t, dir, 1);
    OnlyRecord(a, 0);
    DoubledTooLong(b);
  }

  lemma DoubledTooLong(b: seq<Byte>)
    requires RecordOk(b, 0) && |b| <= 0x8000 && 2 * RecLen(b, 0) > |b|
    ensures !RecordOk(SetRecLen(b, 0, (RecLen(b, 0) + RecLen(b, 0)) % 0x1_0000), 0)
  {
    hide SetRecLen;
    RecordFacts(b, 0);
    SetRecLenIs(b, 0, (RecLen(b, 0) + RecLen(b, 0)) % 0x1_0000);
  }

  lemma OnlyRecord(buf: seq<Byte>, off: nat)
    requires Tiled(buf, off) && off < |buf| && |Parse(buf, off)| == 1
    ensures LastOff(buf, off) == off
  {
    hide RecordOk, RecordAt, RecLen;
    ParseAt(buf, off);
  }

  lemma SecondRecord(buf: seq<Byte>, n: nat)
    requires Tiled(buf, 0) && 0 < |buf| && |Parse(buf, 0)| == 2 && Parse(buf, 0)[0].recLen == n
    ensures LastOff(buf, 0) == n < |buf|
  {
    hide RecordOk, RecordAt, RecLen;
    ParseAt(buf, 0);
    RecordFacts(buf, 0);
    OnlyRecord(buf, n);
  }

  /**
   The first name linked into a block that was added to a directory cannot be unlinked, for every block
   size and name: the call reports success, and the entry is still there.
   */
  method UnlinkFromAddedBlock(blockSize: nat, dirIno: nat, parentIno: nat, fileType: Byte, ls: Name)
    returns (blocks: seq<seq<Byte>>, rc: Status)
    requires 1024 <= blockSize < BLOCK_LIMIT && blockSize % 4 == 0 && 0 < dirIno < U32_LIMIT
    requires 0 < parentIno < U32_LIMIT
    requires GoodName(ls) && ls.text != DOT && ls.text != DOT + DOT
    ensures rc == Success && |blocks| == 2 && Inode(blocks[1], 0) == ls.inode
    ensures |ls.text| <= 8 ==>
              Tiled(blocks[1], 0) && Live(Parse(blocks[1], 0)) == [Entry(ls.inode, ls.fileType, ls.text)]
  {
    hide Tiled, Parse, Live, Walk, Sane, LinkProc, LinkRecs, UnlinkBlocks, UnlinkRecs, SetRecLen, LastOff, Inode,
         RecLen, RecordOk, RecordAt, FirstMatchIn, MatchStartsLater, GoodDir, Sized;
    var first := NewDirBlock(blockSize, dirIno, parentIno, fileType);
    var added := NewDirBlock(blockSize, 0, dirIno, fileType);
    LinkSane(ls);
    var ctx := new DirContext(LinkProc(ls), true, false);
    var block, outcome := ctx.ProcessDirBlock(added);
    WalkLinks(ls, added, 0, false);
    LinkedAlone(ls, blockSize);
    var t := Target(Some(ls.text), ls.inode);
    TwoBlocks(t, first, block, ls);
    blocks, rc := Unlink([first, block], t);
    UnlinkDirectory(t, [first, block], 1);
    SecondRecord(first, 12);
    LengthInSlack(block, blockSize, ls);
  }

  lemma LinkedAlone(ls: Name, n: nat)
    requires GoodName(ls) && n >= 1024
    ensures LinkRecs(ls, [Rec(0, n, 0, [])]) == ([Rec(ls.inode, n, ls.fileType, ls.text)], true)
  {
    hide LinkRecs, DirRecLen;
    var recs, e := [Rec(0, n, 0, [])], Rec(ls.inode, n, ls.fileType, ls.text);
    assert DirRecLen(|ls.text|) <= |ls.text| + 11;
    assert recs[1..] == [] && [e] + recs[1..] == [e];
    LinkRecsStep(ls, recs, n);
  }

  lemma TwoBlocks(t: Target, first: seq<Byte>, block: seq<Byte>, ls: Name)
    requires 0 < |first| == |block| < BLOCK_LIMIT && Tiled(first, 0) && Tiled(block, 0) && ls.inode != 0
    requires |Parse(first, 0)| == 2 && Parse(first, 0)[0].name != ls.text && Parse(first, 0)[1].name != ls.text
    requires Parse(block, 0) == [Rec(ls.inode, |block|, ls.fileType, ls.text)] && t == Target(Some(ls.text), ls.inode)
    ensures GoodDir([first, block]) && Sized([first, block])
    ensures FirstMatchIn(t, [first, block], 1) && MatchStartsLater(t, [first, block], 1)
    ensures RecordOk(block, 0) && Inode(block, 0) == ls.inode && RecLen(block, 0) == |block|
  {
    hide Tiled, Parse, RecordOk, RecLen, Inode;
    var dir := [first, block];
    assert dir[0] == first && dir[1] == block;
    FirstBlockRecord(dir, 1);
    RecordFacts(block, 0);
    assert t.Matches(Parse(dir[1], 0)[0]);
  }

  /** A length written past the name of the only record leaves that record as it is. */
  lemma LengthInSlack(buf: seq<Byte>, n: nat, ls: Name)
    requires Tiled(buf, 0) && 1024 <= n == |buf| < BLOCK_LIMIT && ls.inode != 0
    requires Parse(buf, 0) == [Rec(ls.inode, n, ls.fileType, ls.text)] && RecordOk(buf, 0)
    ensures var out := SetRecLen(buf, 12, (RecLen(buf, 12) + RecLen(buf, 0)) % 0x1_0000);
            |ls.text| <= 8 ==> Tiled(out, 0) && Live(Parse(out, 0)) == [Entry(ls.inode, ls.fileType, ls.text)]
  {
    hide Tiled, Parse, RecordOk, RecordAt, RecLen, SetRecLen, FieldsAre, Live, U16, U32, NameLen;
    var out := SetRecLen(buf, 12, (RecLen(buf, 12) + RecLen(buf, 0)) % 0x1_0000);
    if |ls.text| <= 8 {
      ParseAt(buf, 0);
      RecordFacts(buf, 0);
      RecordFields(buf, 0);
      UpToName(buf, 12, (RecLen(buf, 12) + RecLen(buf, 0)) % 0x1_0000);
      FieldsSame(buf, out, 0, ls.inode, n, ls.fileType, ls.text);
      EndTiled(out);
      ParseCons(out, 0, Rec(ls.inode, n, ls.fileType, ls.text));
      LiveCons(Rec(ls.inode, n, ls.fileType, ls.text), []);
      LiveFirst([]);
    }
  }

  lemma UpToName(buf: seq<Byte>, off: nat, n: nat)
    requires off + DIRENT_HEADER <= |buf| && n < 0x1_0000
    ensures forall i :: 0 <= i < off + 4 ==> SetRecLen(buf, off, n)[i] == buf[i]
  {
  }
}
