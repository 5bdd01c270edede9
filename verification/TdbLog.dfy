/**
 The recovery area of a tdb file: its record header, and the log of old file contents in it.
 */
module TdbLog {
  import opened Bytes
  import opened TdbOverlay

  const REC_SIZE := 24
  const MAGIC_OFS := 20

  /** struct list_struct */
  datatype Record = Record(next: nat, recLen: nat, keyLen: nat, dataLen: nat, fullHash: nat, magic: nat)
  {
    predicate Fits() {
      && next < U32_LIMIT && recLen < U32_LIMIT && keyLen < U32_LIMIT
      && dataLen < U32_LIMIT && fullHash < U32_LIMIT && magic < U32_LIMIT
    }
  }

  function ReadRecord(s: seq<Byte>, off: nat): (r: Record)
    requires off + REC_SIZE <= |s|
    ensures r.Fits()
  {
    Record(U32(s, off), U32(s, off + 4), U32(s, off + 8), U32(s, off + 12), U32(s, off + 16), U32(s, off + 20))
  }

  function EncodeRecord(r: Record): (s: seq<Byte>)
    requires r.Fits()
    ensures |s| == REC_SIZE
  {
    EncodeU32(r.next) + EncodeU32(r.recLen) + EncodeU32(r.keyLen) +
    EncodeU32(r.dataLen) + EncodeU32(r.fullHash) + EncodeU32(r.magic)
  }

  /** A 4-byte word that was encoded at `off` is read back. */
  lemma EncodedWord(s: seq<Byte>, off: nat, x: nat)
    requires x < U32_LIMIT && off + 4 <= |s| && s[off..off + 4] == EncodeU32(x)
    ensures U32(s, off) == x
  {
    hide U32, EncodeU32;
    U32RoundTrip(x);
    assert EncodeU32(x)[0..4] == EncodeU32(x);
    U32Same(s, EncodeU32(x), off, 0);
  }

  lemma RecordRoundTrip(s: seq<Byte>, off: nat, r: Record)
    requires r.Fits() && off + REC_SIZE <= |s| && s[off..off + REC_SIZE] == EncodeRecord(r)
    ensures ReadRecord(s, off) == r
  {
    hide U32, EncodeU32;
    var e := EncodeRecord(r);
    assert s[off..off + 4] == e[0..4] == EncodeU32(r.next);
    assert s[off + 4..off + 8] == e[4..8] == EncodeU32(r.recLen);
    assert s[off + 8..off + 12] == e[8..12] == EncodeU32(r.keyLen);
    assert s[off + 12..off + 16] == e[12..16] == EncodeU32(r.dataLen);
    assert s[off + 16..off + 20] == e[16..20] == EncodeU32(r.fullHash);
    assert s[off + 20..off + 24] == e[20..24] == EncodeU32(r.magic);
    EncodedWord(s, off, r.next);
    EncodedWord(s, off + 4, r.recLen);
    EncodedWord(s, off + 8, r.keyLen);
    EncodedWord(s, off + 12, r.dataLen);
    EncodedWord(s, off + 16, r.fullHash);
    EncodedWord(s, off + 20, r.magic);
  }

  ghost predicate EntriesFit(entries: seq<Element>) {
    forall k :: 0 <= k < |entries| ==> entries[k].offset < U32_LIMIT && |entries[k].data| < U32_LIMIT
  }

  /** The bytes the log holds for one saved range: offset, length, contents. */
  function EncodeEntry(el: Element): (r: seq<Byte>)
    requires el.offset < U32_LIMIT && |el.data| < U32_LIMIT
    ensures |r| == 8 + |el.data|
  {
    EncodeU32(el.offset) + EncodeU32(|el.data|) + el.data
  }

  ghost function EncodeLog(entries: seq<Element>): (r: seq<Byte>)
    requires EntriesFit(entries)
  {
    if entries == [] then [] else EncodeLog(entries[..|entries| - 1]) + EncodeEntry(entries[|entries| - 1])
  }

  /** The ranges a reader of `data` finds from position `p` on; None where it would run off the end. */
  datatype ParsedLog = Ranges(entries: seq<Element>) | Malformed

  function ParseLog(data: seq<Byte>, p: nat): ParsedLog
    decreases |data| - p
  {
    if p + 8 < |data| then
      var ofs, len := U32(data, p), U32(data, p + 4);
      if p + 8 + len > |data| then Malformed
      else
        match ParseLog(data, p + 8 + len)
        case Malformed => Malformed
        case Ranges(rest) => Ranges([Element(ofs, data[p + 8..p + 8 + len])] + rest)
    else Ranges([])
  }

  /** Parsing gives back exactly the encoded ranges, and stops before the 4-byte tailer. */
  lemma {:induction false} LogRoundTrip(entries: seq<Element>, tail: seq<Byte>, data: seq<Byte>, k: nat, p: nat)
    requires EntriesFit(entries) && |tail| == 4 && data == EncodeLog(entries) + tail
    requires k <= |entries| && p == |EncodeLog(entries[..k])|
    ensures ParseLog(data, p) == Ranges(entries[k..])
    decreases |entries| - k
  {
    hide U32, EncodeLog;
    if k == |entries| {
      assert entries[..k] == entries;
      assert entries[k..] == [];
    } else {
      var el, q := entries[k], p + 8 + |entries[k].data|;
      LogStep(entries, tail, data, k, p);
      assert el.offset < U32_LIMIT && |el.data| < U32_LIMIT;
      hide *;
      ParseEntry(data, p, el);
      LogRoundTrip(entries, tail, data, k + 1, q);
      ParseStep(data, p, el, entries[k + 1..]);
      assert entries[k..] == [el] + entries[k + 1..];
    }
  }

  lemma {:induction false} LogPrefix(entries: seq<Element>, k: nat)
    requires EntriesFit(entries) && k <= |entries|
    ensures EncodeLog(entries[..k]) <= EncodeLog(entries)
    decreases |entries| - k
  {
    if k < |entries| {
      LogPrefix(entries, k + 1);
      assert entries[..k + 1][..k] == entries[..k];
    } else {
      assert entries[..k] == entries;
    }
  }

  lemma LogStep(entries: seq<Element>, tail: seq<Byte>, data: seq<Byte>, k: nat, p: nat)
    requires EntriesFit(entries) && |tail| == 4 && data == EncodeLog(entries) + tail
    requires k < |entries| && p == |EncodeLog(entries[..k])|
    ensures var q := p + 8 + |entries[k].data|;
            q == |EncodeLog(entries[..k + 1])| && q + 4 <= |data| && data[p..q] == EncodeEntry(entries[k])
  {
    hide EncodeEntry;
    var done, entry := EncodeLog(entries[..k]), EncodeEntry(entries[k]);
    assert entries[..k + 1][..k] == entries[..k];
    LogPrefix(entries, k + 1);
    assert EncodeLog(entries[..k + 1]) == done + entry;
    hide EncodeLog;
    assert done + entry <= data;
    assert data[|done|..|done| + |entry|] == (done + entry)[|done|..] == entry;
  }

  lemma ParseStep(data: seq<Byte>, p: nat, el: Element, rest: seq<Element>)
    requires p + 8 + |el.data| + 4 <= |data|
    requires U32(data, p) == el.offset && U32(data, p + 4) == |el.data|
    requires data[p + 8..p + 8 + |el.data|] == el.data
    requires ParseLog(data, p + 8 + |el.data|) == Ranges(rest)
    ensures ParseLog(data, p) == Ranges([el] + rest)
  {
    hide U32;
  }

  lemma ParseEntry(data: seq<Byte>, p: nat, el: Element)
    requires el.offset < U32_LIMIT && |el.data| < U32_LIMIT
    requires p + 8 + |el.data| <= |data| && data[p..p + 8 + |el.data|] == EncodeEntry(el)
    ensures U32(data, p) == el.offset && U32(data, p + 4) == |el.data|
    ensures data[p + 8..p + 8 + |el.data|] == el.data
  {
    hide U32, EncodeU32;
    var e := EncodeEntry(el);
    assert e[0..4] == EncodeU32(el.offset) && e[4..8] == EncodeU32(|el.data|) && e[8..|e|] == el.data;
    SubSlice(data, p, e, 0, 4);
    SubSlice(data, p, e, 4, 8);
    SubSlice(data, p, e, 8, |e|);
    EncodedWord(data, p, el.offset);
    EncodedWord(data, p + 4, |el.data|);
  }

  lemma {:induction false} EncodeLogFront(el: Element, rest: seq<Element>)
    requires EntriesFit(rest) && el.offset < U32_LIMIT && |el.data| < U32_LIMIT
    ensures EntriesFit([el] + rest) && EncodeLog([el] + rest) == EncodeEntry(el) + EncodeLog(rest)
  {
    hide EncodeEntry;
    var all := [el] + rest;
    if rest == [] {
      assert all[..0] == [];
    } else {
      var front := rest[..|rest| - 1];
      assert all[..|all| - 1] == [el] + front;
      EncodeLogFront(el, front);
    }
  }

  lemma ParsedEntry(data: seq<Byte>, p: nat, el: Element)
    requires p + 8 + |el.data| <= |data| && el.offset == U32(data, p) && |el.data| == U32(data, p + 4)
    requires el.data == data[p + 8..p + 8 + |el.data|]
    ensures data[p..p + 8 + |el.data|] == EncodeEntry(el)
  {
    hide U32, EncodeU32;
    var a, b := data[p..p + 4], data[p + 4..p + 8];
    U32Same(data, a, p, 0);
    U32Same(data, b, p + 4, 0);
    U32Injective(a, el.offset);
    U32Injective(b, |el.data|);
    assert data[p..p + 8 + |el.data|] == a + b + el.data;
  }

  /** What is parsed is encoded in the bytes it was parsed from. */
  lemma {:induction false} ParsedBytes(data: seq<Byte>, p: nat, es: seq<Element>)
    requires p <= |data| && EntriesFit(es) && ParseLog(data, p) == Ranges(es)
    ensures p + |EncodeLog(es)| <= |data| && data[p..p + |EncodeLog(es)|] == EncodeLog(es)
    decreases |data| - p
  {
    hide U32, EncodeEntry, EncodeLog;
    if p + 8 < |data| {
      var el := es[0];
      var q := p + 8 + |el.data|;
      ParsedFirst(data, p, es);
      assert es == [el] + es[1..];
      EncodeLogFront(el, es[1..]);
      ParsedBytes(data, q, es[1..]);
      MoreBytes(data, p, q, q + |EncodeLog(es[1..])|);
    } else {
      EmptyLog();
    }
  }

  lemma EmptyLog()
    ensures EncodeLog([]) == []
  {
  }

  lemma ParsedFirst(data: seq<Byte>, p: nat, es: seq<Element>)
    requires p + 8 < |data| && ParseLog(data, p) == Ranges(es)
    ensures |es| > 0
    ensures var el := es[0];
            && p + 8 + |el.data| <= |data| && el.offset < U32_LIMIT && |el.data| < U32_LIMIT
            && data[p..p + 8 + |el.data|] == EncodeEntry(el) && ParseLog(data, p + 8 + |el.data|) == Ranges(es[1..])
  {
    hide U32, EncodeEntry;
    var rest := ParseLog(data, p + 8 + U32(data, p + 4)).entries;
    assert es[1..] == rest;
    ParsedEntry(data, p, es[0]);
  }

  /** A log area gives back exactly the ranges whose encoding it starts with. */
  lemma ParseExact(es: seq<Element>, data: seq<Byte>)
    requires EntriesFit(es) && |data| == |EncodeLog(es)| + 4
    ensures ParseLog(data, 0) == Ranges(es) <==> data[..|EncodeLog(es)|] == EncodeLog(es)
  {
    hide EncodeLog, ParseLog;
    var n := |EncodeLog(es)|;
    assert data == data[..n] + data[n..];
    if ParseLog(data, 0) == Ranges(es) {
      ParsedBytes(data, 0, es);
    } else if data[..n] == EncodeLog(es) {
      EmptyLog();
      assert es[..0] == [] && es[0..] == es;
      LogRoundTrip(es, data[n..], data, 0, 0);
    }
  }

  /** If the bytes after the first ranges are no log, the whole is none. */
  lemma {:induction false} BadRest(es: seq<Element>, data: seq<Byte>, j: nat, k: nat)
    requires EntriesFit(es) && j <= k <= |es| && |EncodeLog(es[..k])| + 4 <= |data|
    requires data[..|EncodeLog(es[..k])|] == EncodeLog(es[..k])
    requires ParseLog(data, |EncodeLog(es[..k])|) == Malformed
    ensures |EncodeLog(es[..j])| <= |EncodeLog(es[..k])| && ParseLog(data, |EncodeLog(es[..j])|) == Malformed
    decreases k - j
  {
    hide U32, EncodeEntry, EncodeLog, ParseLog;
    if j < k {
      var done := es[..k];
      var encoded, p := EncodeLog(done), |EncodeLog(es[..j])|;
      var tail := data[|encoded|..|encoded| + 4];
      assert done[..j] == es[..j] && done[..j + 1] == es[..j + 1];
      BadRest(es, data, j + 1, k);
      LogStep(done, tail, encoded + tail, j, p);
      var q := p + 8 + |es[j].data|;
      assert data[..q] == (encoded + tail)[..q];
      assert data[p..q] == (encoded + tail)[p..q];
      ParseEntry(data, p, es[j]);
      BadNext(data, p, es[j]);
    }
  }

  lemma BadNext(data: seq<Byte>, p: nat, el: Element)
    requires p + 8 + |el.data| + 4 <= |data| && U32(data, p + 4) == |el.data|
    requires ParseLog(data, p + 8 + |el.data|) == Malformed
    ensures ParseLog(data, p) == Malformed
  {
    hide U32;
  }
}
