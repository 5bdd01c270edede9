/**
 The write overlay of a tdb transaction: the list of elements that
 `transaction_write` builds and `transaction_read` reads through.
 */
module TdbOverlay {
  import opened Bytes

  const FREELIST_TOP := 168
  const PAD_BYTE: Byte := 0x42

  function Pad(n: nat): (r: seq<Byte>)
    ensures |r| == n
    ensures forall i :: 0 <= i < n ==> r[i] == PAD_BYTE
  {
    if n == 0 then [] else Pad(n - 1) + [PAD_BYTE]
  }

  datatype Element = Element(offset: nat, data: seq<Byte>)
  {
    function End(): nat { offset + |data| }

    predicate Covers(i: int) { offset <= i < End() }
  }

  /** Whether the ranges [off, off + len) and [a, b) have a byte in common. */
  predicate Overlaps(off: nat, len: nat, a: nat, b: nat) {
    off < b && a < off + len
  }

  ghost predicate Disjoint(els: seq<Element>) {
    forall i, j :: 0 <= i < j < |els| ==> els[i].End() <= els[j].offset || els[j].End() <= els[i].offset
  }

  ghost predicate NonEmpty(els: seq<Element>) {
    forall i :: 0 <= i < |els| ==> |els[i].data| > 0
  }

  ghost predicate Covered(els: seq<Element>, i: int) {
    exists k :: 0 <= k < |els| && els[k].Covers(i)
  }

  /** The byte a reader of the transaction should see at `i`, most recent element first. */
  ghost function ByteAt(els: seq<Element>, base: seq<Byte>, i: nat): Byte {
    if els == [] then
      if i < |base| then base[i] else PAD_BYTE
    else
      var last := els[|els| - 1];
      if last.Covers(i) then last.data[i - last.offset] else ByteAt(els[..|els| - 1], base, i)
  }

  /** In a list of disjoint elements the order does not matter: any covering element gives the byte. */
  lemma {:induction false} ByteAtCovered(els: seq<Element>, base: seq<Byte>, i: nat, k: nat)
    requires Disjoint(els)
    requires k < |els| && els[k].Covers(i)
    ensures ByteAt(els, base, i) == els[k].data[i - els[k].offset]
  {
    if k < |els| - 1 {
      ByteAtCovered(els[..|els| - 1], base, i, k);
    }
  }

  lemma {:induction false} ByteAtUncovered(els: seq<Element>, base: seq<Byte>, i: nat)
    requires !Covered(els, i)
    ensures ByteAt(els, base, i) == if i < |base| then base[i] else PAD_BYTE
  {
    if els != [] {
      assert !els[|els| - 1].Covers(i);
      assert !Covered(els[..|els| - 1], i);
      ByteAtUncovered(els[..|els| - 1], base, i);
    }
  }

  /** What `after` must be at byte `i` once `buf` is written at `off` over `before`. */
  ghost predicate WrittenAt(before: seq<Element>, after: seq<Element>, base: seq<Byte>, off: nat, buf: seq<Byte>,
      i: nat) {
    && ByteAt(after, base, i) == (if off <= i < off + |buf| then buf[i - off] else ByteAt(before, base, i))
    && (Covered(after, i) <==> Covered(before, i) || off <= i < off + |buf|)
  }

  ghost predicate Written(before: seq<Element>, after: seq<Element>, base: seq<Byte>, off: nat, buf: seq<Byte>) {
    forall i: nat :: WrittenAt(before, after, base, off, buf, i)
  }

  lemma WrittenNothing(els: seq<Element>, base: seq<Byte>, off: nat)
    ensures Written(els, els, base, off, [])
  {
  }

  /** Writes in sequence to adjacent ranges are one write. */
  lemma WrittenTwice(a: seq<Element>, b: seq<Element>, c: seq<Element>, base: seq<Byte>, off: nat, x: seq<Byte>,
                     y: seq<Byte>)
    requires Written(a, b, base, off, x)
    requires Written(b, c, base, off + |x|, y)
    ensures Written(a, c, base, off, x + y)
  {
    forall i: nat
      ensures WrittenAt(a, c, base, off, x + y, i)
    {
      assert WrittenAt(a, b, base, off, x, i) && WrittenAt(b, c, base, off + |x|, y, i);
    }
  }

  /** A write of more than one piece stays covered where it was covered. */
  lemma WrittenKeepsCovered(a: seq<Element>, b: seq<Element>, base: seq<Byte>, off: nat, buf: seq<Byte>, i: nat)
    requires Written(a, b, base, off, buf) && Covered(a, i)
    ensures Covered(b, i)
  {
    assert WrittenAt(a, b, base, off, buf, i);
  }

  /** Every element keeps its place and start, and none gets shorter. */
  ghost predicate Grows(before: seq<Element>, after: seq<Element>) {
    |before| <= |after| &&
    forall k :: 0 <= k < |before| ==> after[k].offset == before[k].offset && |after[k].data| >= |before[k].data|
  }

  /** The last element that the write overlaps, or the number of elements if there is none. */
  function LastOverlap(els: seq<Element>, off: nat, len: nat): (k: nat)
    ensures k <= |els| && (k < |els| ==> Overlaps(off, len, els[k].offset, els[k].End()))
    ensures forall j :: 0 <= j < |els| && (k == |els| || j > k) ==> !Overlaps(off, len, els[j].offset, els[j].End())
  {
    if els == [] then 0
    else
      var n := |els| - 1;
      if Overlaps(off, len, els[n].offset, els[n].End()) then n
      else
        var k := LastOverlap(els[..n], off, len);
        if k == n then |els| else k
  }

  /** The last element that ends where the write starts, or the number of elements. */
  function LastEnding(els: seq<Element>, off: nat): (k: nat)
    ensures k <= |els| && (k < |els| ==> els[k].End() == off)
    ensures forall j :: 0 <= j < |els| && (k == |els| || j > k) ==> els[j].End() != off
  {
    if els == [] then 0
    else
      var n := |els| - 1;
      if els[n].End() == off then n
      else
        var k := LastEnding(els[..n], off);
        if k == n then |els| else k
  }

  /**
   The elements after a write, with the old end of the file at `m`: what overlaps an element goes into
   it, and the rest extends an element or becomes one.
   */
  ghost function AfterWrite(els: seq<Element>, m: nat, off: nat, buf: seq<Byte>): (r: seq<Element>)
    requires NonEmpty(els)
    ensures Grows(els, r) && NonEmpty(r)
    decreases |buf|, 1
  {
    if buf == [] then els
    else
      var k := LastOverlap(els, off, |buf|);
      if k == |els| then
        var best := LastEnding(els, off);
        if best < |els| && (off + |buf| < m || off > m) then
          els[best := Element(els[best].offset, els[best].data + buf)]
        else els + [Element(off, buf)]
      else
        var before := if off < els[k].offset then els[k].offset - off else 0;
        AfterWriteFrom(AfterWrite(els, m, off, buf[..before]), m, off + before, buf[before..], k)
  }

  /** ... when it starts in element `k`. */
  ghost function AfterWriteFrom(els: seq<Element>, m: nat, at: nat, rest: seq<Byte>, k: nat): (r: seq<Element>)
    requires NonEmpty(els) && k < |els| && els[k].Covers(at) && rest != []
    ensures Grows(els, r) && NonEmpty(r)
    decreases |rest|, 0
  {
    var el := els[k];
    var part := if at + |rest| <= el.End() then |rest| else el.End() - at;
    var changed := els[k := Element(el.offset, Splice(el.data, at - el.offset, rest[..part]))];
    AfterWrite(changed, m, at + part, rest[part..])
  }

  /** A write that touches no element becomes one. */
  lemma AfterDetached(els: seq<Element>, m: nat, off: nat, buf: seq<Byte>)
    requires NonEmpty(els) && buf != [] && Detached(els, off, |buf|)
    ensures AfterWrite(els, m, off, buf) == els + [Element(off, buf)]
  {
  }

  lemma AfterApart(els: seq<Element>, m: nat, off: nat, buf: seq<Byte>, best: nat)
    requires NonEmpty(els) && LastOverlap(els, off, |buf|) == |els| && LastEnding(els, off) == best
    ensures AfterWrite(els, m, off, buf) ==
            if buf == [] then els
            else if best < |els| && (off + |buf| < m || off > m) then
              els[best := Element(els[best].offset, els[best].data + buf)]
            else els + [Element(off, buf)]
  {
  }

  lemma AfterNothing(els: seq<Element>, m: nat, off: nat)
    requires NonEmpty(els)
    ensures AfterWrite(els, m, off, []) == els
  {
  }

  lemma HoldsSome(els: seq<Element>, k: nat)
    requires NonEmpty(els) && k < |els|
    ensures els[k].offset < els[k].End()
  {
  }

  /** What comes before the overlapped element is written first. */
  lemma AfterOverlapping(els: seq<Element>, m: nat, off: nat, buf: seq<Byte>, k: nat)
    requires NonEmpty(els) && buf != [] && k < |els| && k == LastOverlap(els, off, |buf|)
    ensures var before := if off < els[k].offset then els[k].offset - off else 0;
            && before < |buf| && k < |AfterWrite(els, m, off, buf[..before])|
            && AfterWrite(els, m, off, buf[..before])[k].Covers(off + before)
            && AfterWrite(els, m, off, buf) ==
               AfterWriteFrom(AfterWrite(els, m, off, buf[..before]), m, off + before, buf[before..], k)
  {
    hide Splice, AfterWriteFrom, NonEmpty;
    HoldsSome(els, k);
    var before := if off < els[k].offset then els[k].offset - off else 0;
    assert AfterWrite(els, m, off, buf[..before])[k].offset == els[k].offset;
  }

  ghost predicate NoneStraddles(els: seq<Element>, m: nat) {
    forall k :: 0 <= k < |els| ==> els[k].End() <= m || m <= els[k].offset
  }

  /** The invariant of the element list; `m` is the file size when the transaction started. */
  ghost predicate Sound(els: seq<Element>, m: nat) {
    Disjoint(els) && NonEmpty(els) && NoneStraddles(els, m)
  }

  lemma GrowsTwice(a: seq<Element>, b: seq<Element>, c: seq<Element>)
    requires Grows(a, b) && Grows(b, c)
    ensures Grows(a, c)
  {
  }

  lemma GrowsNothing(a: seq<Element>)
    ensures Grows(a, a)
  {
  }

  lemma GrowsElement(a: seq<Element>, b: seq<Element>, k: nat)
    requires Grows(a, b) && k < |a|
    ensures k < |b| && b[k].offset == a[k].offset && b[k].End() >= a[k].End()
  {
  }

  /** No element has a byte in the range of the write. */
  ghost predicate Apart(els: seq<Element>, off: nat, len: nat) {
    forall j :: 0 <= j < |els| ==> off + len <= els[j].offset || off >= els[j].End()
  }

  /** Nor does one end where the write starts, and could be extended. */
  ghost predicate Detached(els: seq<Element>, off: nat, len: nat) {
    forall j :: 0 <= j < |els| ==> off + len <= els[j].offset || off > els[j].End()
  }

  lemma OnlyOverlap(els: seq<Element>, off: nat, len: nat, k: nat)
    requires k < |els| && Overlaps(off, len, els[k].offset, els[k].End())
    requires forall j :: k < j < |els| ==> !Overlaps(off, len, els[j].offset, els[j].End())
    ensures LastOverlap(els, off, len) == k
  {
  }

  lemma OverlapRange(els: seq<Element>, off: nat, len: nat, k: nat)
    requires k < |els| && k == LastOverlap(els, off, len)
    ensures off < els[k].End() && els[k].offset < off + len
  {
  }

  lemma SoundNonEmpty(els: seq<Element>, m: nat)
    requires Sound(els, m)
    ensures NonEmpty(els)
  {
  }

  lemma NoOverlap(els: seq<Element>, off: nat, len: nat, best: nat)
    requires Apart(els, off, len) && len > 0
    requires best <= |els| && (best < |els| ==> els[best].End() == off)
    requires forall j :: 0 <= j < |els| && (best == |els| || j > best) ==> els[j].End() != off
    ensures LastOverlap(els, off, len) == |els| && LastEnding(els, off) == best
  {
  }

  lemma ApartFrom(els: seq<Element>, off: nat, len: nat)
    requires forall j :: 0 <= j < |els| ==> off + len <= els[j].offset || off >= els[j].End()
    ensures Apart(els, off, len)
  {
  }

  lemma ApartUncovered(els: seq<Element>, off: nat, len: nat, i: int)
    requires Apart(els, off, len) && off <= i < off + len
    ensures !Covered(els, i)
  {
  }

  /**
   A byte of element `k` after the element has been replaced by a longer or equal one that starts at the
   same place.
   */
  lemma ByteAtReplaced(els: seq<Element>, k: nat, el: Element, base: seq<Byte>, i: nat)
    requires k < |els| && Disjoint(els) && Disjoint(els[k := el])
    requires el.offset == els[k].offset && el.End() >= els[k].End()
    ensures ByteAt(els[k := el], base, i) == if el.Covers(i) then el.data[i - el.offset] else ByteAt(els, base, i)
    ensures Covered(els[k := el], i) <==> Covered(els, i) || el.Covers(i)
  {
    var after := els[k := el];
    if el.Covers(i) {
      assert after[k].Covers(i);
      ByteAtCovered(after, base, i, k);
    } else if Covered(els, i) {
      var j :| 0 <= j < |els| && els[j].Covers(i);
      assert after[j].Covers(i);
      ByteAtCovered(els, base, i, j);
      ByteAtCovered(after, base, i, j);
    } else {
      forall j | 0 <= j < |after| ensures !after[j].Covers(i) {
        if j != k { assert !els[j].Covers(i); }
      }
      ByteAtUncovered(els, base, i);
      ByteAtUncovered(after, base, i);
    }
  }

  /** Copying `buf` into element `k`. */
  lemma OverwriteElement(els: seq<Element>, k: nat, el: Element, base: seq<Byte>, m: nat, off: nat, buf: seq<Byte>)
    requires k < |els| && Sound(els, m)
    requires els[k].offset <= off && off + |buf| <= els[k].End()
    requires el == Element(els[k].offset, Splice(els[k].data, off - els[k].offset, buf))
    ensures Sound(els[k := el], m) && Grows(els, els[k := el])
    ensures Written(els, els[k := el], base, off, buf)
  {
    hide Splice, ByteAt;
    var after := els[k := el];
    assert Disjoint(after) && NonEmpty(after);
    hide Disjoint, NonEmpty, NoneStraddles;
    forall i: nat
      ensures WrittenAt(els, after, base, off, buf, i)
    {
      ByteAtReplaced(els, k, el, base, i);
      if el.Covers(i) {
        assert els[k].Covers(i);
        ByteAtCovered(els, base, i, k);
      }
    }
  }

  /** Appending `buf` to element `k`, which ends where the write starts. */
  lemma ExtendElement(els: seq<Element>, k: nat, el: Element, base: seq<Byte>, m: nat, off: nat, buf: seq<Byte>)
    requires k < |els| && Sound(els, m) && Apart(els, off, |buf|)
    requires els[k].End() == off
    requires off + |buf| < m || off > m
    requires el == Element(els[k].offset, els[k].data + buf)
    ensures Sound(els[k := el], m) && Grows(els, els[k := el])
    ensures Written(els, els[k := el], base, off, buf)
  {
    hide Splice, ByteAt;
    var after := els[k := el];
    assert Disjoint(after) && NonEmpty(after);
    hide Disjoint, NonEmpty, NoneStraddles, Apart;
    forall i: nat
      ensures WrittenAt(els, after, base, off, buf, i)
    {
      ByteAtReplaced(els, k, el, base, i);
      if el.Covers(i) && i < off {
        assert els[k].Covers(i);
        ByteAtCovered(els, base, i, k);
      }
    }
  }

  /** Adding a new element for a range that no element has a byte of. */
  lemma AddElement(els: seq<Element>, base: seq<Byte>, m: nat, off: nat, buf: seq<Byte>)
    requires Sound(els, m) && |buf| > 0 && Apart(els, off, |buf|)
    requires off < m < off + |buf| ==> Covered(els, m)
    ensures Sound(els + [Element(off, buf)], m) && Grows(els, els + [Element(off, buf)])
    ensures Written(els, els + [Element(off, buf)], base, off, buf)
  {
    var el := Element(off, buf);
    var after := els + [el];
    assert after[..|after| - 1] == els;
    forall i: nat
      ensures WrittenAt(els, after, base, off, buf, i)
    {
      if Covered(els, i) {
        var j :| 0 <= j < |els| && els[j].Covers(i);
        assert after[j].Covers(i);
      }
      if el.Covers(i) { assert after[|els|].Covers(i); }
    }
  }

  /** What a reader of the transaction sees in [off, off + len). */
  ghost function View(els: seq<Element>, base: seq<Byte>, off: nat, len: nat): (r: seq<Byte>)
    ensures |r| == len
    ensures forall i :: 0 <= i < len ==> r[i] == ByteAt(els, base, off + i)
  {
    if len == 0 then [] else View(els, base, off, len - 1) + [ByteAt(els, base, off + len - 1)]
  }

  lemma ViewSplit(els: seq<Element>, base: seq<Byte>, off: nat, a: nat, b: nat)
    ensures View(els, base, off, a + b) == View(els, base, off, a) + View(els, base, off + a, b)
  {
  }

  lemma ViewOfElement(els: seq<Element>, base: seq<Byte>, off: nat, len: nat, k: nat)
    requires Disjoint(els) && k < |els|
    requires els[k].offset <= off && off + len <= els[k].End()
    ensures View(els, base, off, len) == els[k].data[off - els[k].offset..off - els[k].offset + len]
  {
    var view := View(els, base, off, len);
    forall i | 0 <= i < len
      ensures view[i] == els[k].data[off - els[k].offset..off - els[k].offset + len][i]
    {
      ByteAtCovered(els, base, off + i, k);
    }
  }

  lemma ViewOfFile(els: seq<Element>, base: seq<Byte>, off: nat, len: nat)
    requires Apart(els, off, len) && off + len <= |base|
    ensures View(els, base, off, len) == base[off..off + len]
  {
    var view := View(els, base, off, len);
    forall i | 0 <= i < len
      ensures view[i] == base[off..off + len][i]
    {
      ApartUncovered(els, off, len, off + i);
      ByteAtUncovered(els, base, off + i);
    }
  }

  /** The transaction's file is exactly [0, mapSize): nothing is written past it and all of its new part is written. */
  ghost predicate Extent(els: seq<Element>, oldMapSize: nat, mapSize: nat) {
    && oldMapSize <= mapSize
    && (forall i :: oldMapSize <= i < mapSize ==> Covered(els, i))
    && (forall k :: 0 <= k < |els| ==> els[k].End() <= mapSize)
  }

  lemma ApartInsideBase(els: seq<Element>, m: nat, mapSize: nat, off: nat, len: nat)
    requires Extent(els, m, mapSize) && Apart(els, off, len) && 0 < len && off + len <= mapSize
    ensures off + len <= m
  {
    ApartUncovered(els, off, len, off + len - 1);
  }

  lemma ExtentWritten(a: seq<Element>, b: seq<Element>, base: seq<Byte>, off: nat, buf: seq<Byte>, m: nat, mapSize: nat,
                      newSize: nat)
    requires Extent(a, m, mapSize) && Written(a, b, base, off, buf) && NonEmpty(b)
    requires (newSize == mapSize && off + |buf| <= mapSize) || (off == mapSize && newSize == off + |buf|)
    ensures Extent(b, m, newSize)
  {
    forall i | m <= i < newSize
      ensures Covered(b, i)
    {
      assert WrittenAt(a, b, base, off, buf, i);
    }
    forall k | 0 <= k < |b|
      ensures b[k].End() <= newSize
    {
      var last := b[k].End() - 1;
      assert b[k].Covers(last);
      assert WrittenAt(a, b, base, off, buf, last);
    }
  }

  lemma CoveredOnlyWritten(a: seq<Element>, b: seq<Element>, base: seq<Byte>, off: nat, buf: seq<Byte>)
    requires Written(a, b, base, off, buf)
    ensures forall i :: Covered(b, i) ==> Covered(a, i) || off <= i < off + |buf|
  {
    forall i | Covered(b, i)
      ensures Covered(a, i) || off <= i < off + |buf|
    {
      var k :| 0 <= k < |b| && b[k].Covers(i);
      assert WrittenAt(a, b, base, off, buf, i);
    }
  }

  /** What a write does to a reader's view of [a, a + len). */
  lemma ViewWritten(before: seq<Element>, after: seq<Element>, base: seq<Byte>, off: nat, buf: seq<Byte>, a: nat,
                    len: nat)
    requires Written(before, after, base, off, buf)
    ensures off + |buf| <= a || a + len <= off ==> View(after, base, a, len) == View(before, base, a, len)
    ensures a <= off && off + |buf| <= a + len ==>
              View(after, base, a, len) == Splice(View(before, base, a, len), off - a, buf)
  {
    var v, v' := View(before, base, a, len), View(after, base, a, len);
    forall i | 0 <= i < len
      ensures v'[i] == if off <= a + i < off + |buf| then buf[a + i - off] else v[i]
    {
      assert WrittenAt(before, after, base, off, buf, a + i);
    }
  }

  /** Writing the elements in list order into `file`, as the commit does. */
  ghost function Applied(els: seq<Element>, file: seq<Byte>): (r: seq<Byte>)
    requires forall k :: 0 <= k < |els| ==> els[k].End() <= |file|
    ensures |r| == |file|
  {
    if els == [] then file
    else
      var last := els[|els| - 1];
      var front := els[..|els| - 1];
      assert forall k :: 0 <= k < |front| ==> front[k] == els[k];
      assert last.End() <= |file|;
      Splice(Applied(front, file), last.offset, last.data)
  }

  lemma {:induction false} AppliedAt(els: seq<Element>, file: seq<Byte>, i: nat)
    requires forall k :: 0 <= k < |els| ==> els[k].End() <= |file|
    requires i < |file|
    ensures Applied(els, file)[i] == ByteAt(els, file, i)
    ensures !Covered(els, i) ==> Applied(els, file)[i] == file[i]
  {
    if els != [] {
      var front := els[..|els| - 1];
      AppliedAt(front, file, i);
      if Covered(front, i) {
        var k :| 0 <= k < |front| && front[k].Covers(i);
        assert els[k].Covers(i);
      }
      if els[|els| - 1].Covers(i) {
        assert Covered(els, i);
      }
    }
  }

  lemma {:induction false} ByteAtOtherBase(els: seq<Element>, base: seq<Byte>, file: seq<Byte>, i: nat)
    requires Covered(els, i) || (i < |base| && i < |file| && base[i] == file[i])
    ensures ByteAt(els, base, i) == ByteAt(els, file, i)
  {
    if els != [] && !els[|els| - 1].Covers(i) {
      var front := els[..|els| - 1];
      if Covered(els, i) {
        var k :| 0 <= k < |els| && els[k].Covers(i);
        assert front[k].Covers(i);
      }
      ByteAtOtherBase(front, base, file, i);
    }
  }

  /** Writing the elements over the file, extended to the new size in any way, yields exactly the transaction's view. */
  lemma CommitYieldsView(els: seq<Element>, base: seq<Byte>, mapSize: nat, file: seq<Byte>)
    requires Extent(els, |base|, mapSize) && |file| == mapSize && base <= file
    ensures Applied(els, file) == View(els, base, 0, mapSize)
  {
    var view := View(els, base, 0, mapSize);
    forall i | 0 <= i < mapSize
      ensures Applied(els, file)[i] == view[i]
    {
      AppliedAt(els, file, i);
      ByteAtOtherBase(els, base, file, i);
    }
  }

  lemma ViewExpanded(before: seq<Element>, after: seq<Element>, base: seq<Byte>, size: nat, pad: seq<Byte>)
    requires Written(before, after, base, size, pad)
    ensures View(after, base, 0, size + |pad|) == View(before, base, 0, size) + pad
  {
    ViewSplit(after, base, 0, size, |pad|);
    ViewWritten(before, after, base, size, pad, 0, size);
    ViewWritten(before, after, base, size, pad, size, |pad|);
    assert Splice(View(before, base, size, |pad|), 0, pad) == pad;
  }

  lemma StartView(els: seq<Element>, base: seq<Byte>, heads: seq<Byte>)
    requires FREELIST_TOP + |heads| <= |base| && heads == base[FREELIST_TOP..FREELIST_TOP + |heads|]
    requires Written([], els, base, FREELIST_TOP, heads)
    ensures View(els, base, 0, |base|) == base
    ensures View(els, base, FREELIST_TOP, |heads|) == heads
  {
    var all, top := View(els, base, 0, |base|), View(els, base, FREELIST_TOP, |heads|);
    forall i | 0 <= i < |base|
      ensures all[i] == base[i]
    {
      assert WrittenAt([], els, base, FREELIST_TOP, heads, i);
    }
    forall i | 0 <= i < |heads|
      ensures top[i] == heads[i]
    {
      assert WrittenAt([], els, base, FREELIST_TOP, heads, FREELIST_TOP + i);
    }
  }

  /** The head of hash chain `c` of a database file; the +1 takes account of the free list. */
  function HeadOf(file: seq<Byte>, c: nat): nat {
    if FREELIST_TOP + 4 * (c + 1) + 4 <= |file| then U32(file, FREELIST_TOP + 4 * (c + 1)) else 0
  }

  lemma ViewSlice(els: seq<Element>, base: seq<Byte>, a: nat, len: nat, i: nat, n: nat)
    requires i + n <= len
    ensures View(els, base, a, len)[i..i + n] == View(els, base, a + i, n)
  {
    ViewSplit(els, base, a, i, len - i);
    ViewSplit(els, base, a + i, n, len - i - n);
  }

  lemma MirroredHead(els: seq<Element>, base: seq<Byte>, size: nat, heads: seq<Byte>, c: nat)
    requires FREELIST_TOP + |heads| <= size && 4 * (c + 1) + 4 <= |heads|
    requires heads == View(els, base, FREELIST_TOP, |heads|)
    ensures HeadOf(View(els, base, 0, size), c) == U32(heads, 4 * (c + 1))
  {
    hide View, U32;
    var at := 4 * (c + 1);
    ViewSlice(els, base, 0, size, FREELIST_TOP + at, 4);
    ViewSlice(els, base, FREELIST_TOP, |heads|, at, 4);
    U32Same(View(els, base, 0, size), heads, FREELIST_TOP + at, at);
  }

  lemma SoundElement(els: seq<Element>, m: nat, k: nat)
    requires Sound(els, m) && k < |els|
    ensures Disjoint(els) && |els[k].data| > 0
  {
  }

  /** The in-memory state of one transaction over the database file `base`. */
  class Transaction {
    var elements: seq<Element>
    var hashHeads: seq<Byte>
    var transactionError: bool
    var oldMapSize: nat
    var mapSize: nat
    const base: seq<Byte>

    /** The mirrored hash heads are the hash table words of the transaction's view. */
    ghost predicate Mirrored()
      reads this`elements, this`hashHeads
    {
      hashHeads == View(elements, base, FREELIST_TOP, |hashHeads|)
    }

    /** What every operation of a transaction keeps. */
    ghost predicate Consistent()
      reads this`elements, this`hashHeads, this`mapSize, this`oldMapSize
    {
      && Sound(elements, oldMapSize)
      && Extent(elements, oldMapSize, mapSize)
      && oldMapSize == |base|
      && FREELIST_TOP + |hashHeads| <= oldMapSize
      && |hashHeads| % 4 == 0
      && Mirrored()
    }

    /** The file as the transaction sees it. */
    ghost function Contents(): (r: seq<Byte>)
      reads this`elements, this`mapSize
      ensures |r| == mapSize
    {
      View(elements, base, 0, mapSize)
    }

    predicate InHeads(off: nat, len: nat)
      reads this`hashHeads
    {
      len == 4 && FREELIST_TOP <= off < FREELIST_TOP + |hashHeads|
    }

    predicate ApartFromHeads(off: nat, len: nat)
      reads this`hashHeads
    {
      off + len <= FREELIST_TOP || FREELIST_TOP + |hashHeads| <= off
    }

    /** tdb_transaction_start: an empty overlay over `file`, primed with the table of `hashSize` chains. */
    constructor Start(file: seq<Byte>, hashSize: nat)
      requires FREELIST_TOP + 4 * (hashSize + 1) <= |file|
      ensures Consistent() && Contents() == base == file && !transactionError
      ensures |hashHeads| == 4 * (hashSize + 1)
      ensures elements == [Element(FREELIST_TOP, file[FREELIST_TOP..FREELIST_TOP + 4 * (hashSize + 1)])]
    {
      hide Written, View, Splice, Extent, Covered, ByteAt, AfterWrite;
      elements, transactionError := [], false;
      base, oldMapSize, mapSize := file, |file|, |file|;
      hashHeads := file[FREELIST_TOP..FREELIST_TOP + 4 * (hashSize + 1)];
      new;
      ghost var heads := hashHeads;
      AfterDetached([], |file|, FREELIST_TOP, heads);
      Write(FREELIST_TOP, hashHeads);
      assert |heads| == 4 ==> Splice(heads, 0, heads) == heads;
      assert hashHeads == heads;
      StartView(elements, base, heads);
      ExtentWritten([], elements, base, FREELIST_TOP, heads, oldMapSize, mapSize, mapSize);
    }

    /** The write method of a transaction as the rest of tdb calls it: inside the file, hash heads as aligned words. */
    method TransactionWrite(off: nat, buf: seq<Byte>)
      requires Consistent() && off + |buf| <= mapSize
      requires ApartFromHeads(off, |buf|) || (InHeads(off, |buf|) && (off - FREELIST_TOP) % 4 == 0)
      modifies this`elements, this`hashHeads
      ensures Consistent() && |hashHeads| == old(|hashHeads|)
      ensures Contents() == Splice(old(Contents()), off, buf)
      ensures forall i :: Covered(elements, i) ==> Covered(old(elements), i) || off <= i < off + |buf|
      ensures elements == AfterWrite(old(elements), oldMapSize, off, buf)
    {
      hide AfterWrite;
      ghost var before := elements;
      if off < oldMapSize < off + |buf| { assert Covered(elements, oldMapSize); }
      Write(off, buf);
      ExtentWritten(before, elements, base, off, buf, oldMapSize, mapSize, mapSize);
      ViewWritten(before, elements, base, off, buf, 0, mapSize);
      ViewWritten(before, elements, base, off, buf, FREELIST_TOP, |hashHeads|);
      CoveredOnlyWritten(before, elements, base, off, buf);
    }

    /** transaction_expand_file for tdb_expand, which then moves the end of the file. */
    method Expand(addition: nat)
      requires Consistent()
      modifies this`elements, this`hashHeads, this`mapSize
      ensures Consistent() && mapSize == old(mapSize) + addition && |hashHeads| == old(|hashHeads|)
      ensures Contents() == old(Contents()) + Pad(addition)
      ensures elements == AfterWrite(old(elements), oldMapSize, old(mapSize), Pad(addition))
    {
      hide AfterWrite;
      ghost var before, pad := elements, Pad(addition);
      assert ApartFromHeads(mapSize, addition);
      Write(mapSize, Pad(addition));
      ExtentWritten(before, elements, base, mapSize, pad, oldMapSize, mapSize, mapSize + addition);
      ViewWritten(before, elements, base, mapSize, pad, FREELIST_TOP, |hashHeads|);
      ViewExpanded(before, elements, base, mapSize, pad);
      mapSize := mapSize + addition;
    }

    /** tdb_transaction_cancel: forget everything. */
    method Cancel()
      modifies this`elements, this`mapSize
      ensures elements == [] && mapSize == oldMapSize
    {
      elements, mapSize := [], oldMapSize;
    }

    /** transaction_next_hash_chain: the first chain from `chain` on with a non-zero head in the mirror. */
    method NextHashChain(chain: nat) returns (h: nat)
      requires Consistent() && chain < |hashHeads| / 4
      ensures chain <= h < |hashHeads| / 4
      ensures forall c :: chain <= c < h ==> HeadOf(Contents(), c) == 0
      ensures h + 1 < |hashHeads| / 4 ==> HeadOf(Contents(), h) != 0
    {
      h := chain;
      while h + 1 < |hashHeads| / 4
        invariant chain <= h < |hashHeads| / 4
        invariant forall c :: chain <= c < h ==> HeadOf(Contents(), c) == 0
      {
        MirroredHead(elements, base, mapSize, hashHeads, h);
        if U32(hashHeads, 4 * (h + 1)) != 0 {
          break;
        }
        h := h + 1;
      }
    }

    /** Read in a transaction: split the range over the elements, latest first. */
    method Read(off: nat, len: nat) returns (ok: bool, buf: seq<Byte>)
      requires Sound(elements, oldMapSize) && oldMapSize == |base| && Extent(elements, oldMapSize, mapSize)
      modifies this`transactionError
      ensures ok <==> off + len <= mapSize
      ensures if ok then transactionError == old(transactionError) && buf == View(elements, base, off, len)
              else transactionError
      decreases len
    {
      hide Sound, Extent, Apart, View;
      var k := |elements|;
      while k > 0
        invariant 0 <= k <= |elements|
        invariant forall j :: k <= j < |elements| ==> off + len <= elements[j].offset || off >= elements[j].End()
      {
        k := k - 1;
        if off + len <= elements[k].offset || off >= elements[k].End() {
          continue;
        }
        ok, buf := ReadOverlapping(off, len, k);
        return;
      }
      ApartFrom(elements, off, len);
      // not in the elements: a real read
      ok, buf := off + len <= mapSize, [];
      if !ok {
        transactionError := true;
      } else if len > 0 {
        ApartInsideBase(elements, oldMapSize, mapSize, off, len);
        ViewOfFile(elements, base, off, len);
        buf := base[off..off + len];
      }
    }

    /** The body of the read loop for an element `k` that overlaps the range: a copy and up to two reads. */
    method ReadOverlapping(off: nat, len: nat, k: nat) returns (ok: bool, buf: seq<Byte>)
      requires Sound(elements, oldMapSize) && oldMapSize == |base| && Extent(elements, oldMapSize, mapSize)
      requires k < |elements| && !(off + len <= elements[k].offset) && !(off >= elements[k].End())
      modifies this`transactionError
      ensures ok <==> off + len <= mapSize
      ensures if ok then transactionError == old(transactionError) && buf == View(elements, base, off, len)
              else transactionError
      decreases len, 1
    {
      hide Sound, View;
      var el := elements[k];
      ghost var els := elements;
      SoundElement(els, oldMapSize, k);
      assert el.End() <= mapSize;
      if off >= el.offset {
        ok, buf := ReadFrom(off, len, k);
        return;
      }
      var partial := el.offset - off;
      var rest;
      ok, buf := Read(off, partial);
      ok, rest := ReadFrom(el.offset, len - partial, k);
      ViewSplit(els, base, off, partial, len - partial);
      buf := buf + rest;
    }

    /** ... once the range starts inside element `k`. */
    method ReadFrom(off: nat, len: nat, k: nat) returns (ok: bool, buf: seq<Byte>)
      requires Sound(elements, oldMapSize) && oldMapSize == |base| && Extent(elements, oldMapSize, mapSize)
      requires k < |elements| && elements[k].Covers(off)
      modifies this`transactionError
      ensures ok <==> off + len <= mapSize
      ensures if ok then transactionError == old(transactionError) && buf == View(elements, base, off, len)
              else transactionError
      decreases len, 0
    {
      var el := elements[k];
      ghost var els := elements;
      assert el.End() <= mapSize;
      hide *;
      SoundElement(els, oldMapSize, k);
      var partial := if off + len <= el.End() then len else el.End() - off;
      ViewOfElement(els, base, off, partial, k);
      ok, buf := true, el.data[off - el.offset..off - el.offset + partial];
      if partial < len {
        var rest;
        ok, rest := Read(off + partial, len - partial);
        if !ok {
          transactionError := true;
          return;
        }
        ViewSplit(els, base, off, partial, len - partial);
        buf := buf + rest;
      }
    }

    /** Write in a transaction: overwrite what overlaps, extend or add an element for the rest. */
    method Write(off: nat, buf: seq<Byte>)
      requires Sound(elements, oldMapSize) && |hashHeads| % 4 == 0
      requires off < oldMapSize < off + |buf| ==> Covered(elements, oldMapSize)
      modifies this`elements, this`hashHeads
      ensures Sound(elements, oldMapSize)
      ensures Written(old(elements), elements, base, off, buf)
      ensures Grows(old(elements), elements)
      ensures |hashHeads| == old(|hashHeads|)
      ensures InHeads(off, |buf|) ==> hashHeads == Splice(old(hashHeads), (off - FREELIST_TOP) / 4 * 4, buf)
      ensures ApartFromHeads(off, |buf|) || |buf| < 4 ==> hashHeads == old(hashHeads)
      ensures old(elements) == [] && |buf| != 4 ==> hashHeads == old(hashHeads)
      ensures elements == AfterWrite(old(elements), oldMapSize, off, buf)
      decreases |buf|
    {
      hide Written, Sound, Grows, Covered, Apart, AfterWrite, LastOverlap, LastEnding, NonEmpty;
      SoundNonEmpty(elements, oldMapSize);
      if |buf| == 0 {
        AfterNothing(elements, oldMapSize, off);
        WrittenNothing(elements, base, off);
        GrowsNothing(elements);
        return;
      }
      if InHeads(off, |buf|) {
        hashHeads := Splice(hashHeads, (off - FREELIST_TOP) / 4 * 4, buf);
      }
      var best := |elements|;
      var k := |elements|;
      while k > 0
        invariant 0 <= k <= |elements|
        invariant forall j :: k <= j < |elements| ==> off + |buf| <= elements[j].offset || off >= elements[j].End()
        invariant best == |elements| || (k <= best < |elements| && elements[best].End() == off)
        invariant forall j :: k <= j < |elements| && (best == |elements| || j > best) ==> elements[j].End() != off
      {
        k := k - 1;
        var el := elements[k];
        if best == |elements| && off == el.End() {
          best := k;
        }
        if off + |buf| <= el.offset || off >= el.End() {
          continue;
        }
        OnlyOverlap(elements, off, |buf|, k);
        WriteOverlapping(off, buf, k);
        return;
      }
      ApartFrom(elements, off, |buf|);
      NoOverlap(elements, off, |buf|, best);
      AfterApart(elements, oldMapSize, off, buf, best);
      if best < |elements| && (off + |buf| < oldMapSize || off > oldMapSize) {
        var el := Element(elements[best].offset, elements[best].data + buf);
        ExtendElement(elements, best, el, base, oldMapSize, off, buf);
        elements := elements[best := el];
        return;
      }
      AddElement(elements, base, oldMapSize, off, buf);
      elements := elements + [Element(off, buf)];
    }

    /** The body of the write loop for an element `k` that the write overlaps: up to two writes and a copy. */
    method WriteOverlapping(off: nat, buf: seq<Byte>, k: nat)
      requires Sound(elements, oldMapSize) && |hashHeads| % 4 == 0 && |buf| > 0
      requires off < oldMapSize < off + |buf| ==> Covered(elements, oldMapSize)
      requires k < |elements| && k == LastOverlap(elements, off, |buf|)
      modifies this`elements, this`hashHeads
      ensures Sound(elements, oldMapSize) && elements == AfterWrite(old(elements), oldMapSize, off, buf)
      ensures Written(old(elements), elements, base, off, buf)
      ensures Grows(old(elements), elements)
      ensures |hashHeads| == old(|hashHeads|)
      ensures ApartFromHeads(off, |buf|) || |buf| <= 4 ==> hashHeads == old(hashHeads)
      decreases |buf|, 1
    {
      hide Written, Sound, Grows, Covered, Apart, AfterWrite, AfterWriteFrom, LastOverlap, Overlaps;
      OverlapRange(elements, off, |buf|, k);
      SoundNonEmpty(elements, oldMapSize);
      AfterOverlapping(elements, oldMapSize, off, buf, k);
      var at, rest := off, buf;
      SoundElement(elements, oldMapSize, k);
      ghost var before, done := elements, [];
      ghost var straddled := off < oldMapSize < off + |buf|;
      if at < elements[k].offset {
        var partial := elements[k].offset - at;
        Write(at, rest[..partial]);
        GrowsElement(before, elements, k);
        if straddled { WrittenKeepsCovered(before, elements, base, at, rest[..partial], oldMapSize); }
        done := rest[..partial];
        rest, at := rest[partial..], at + partial;
        assert buf == done + rest;
      } else {
        AfterNothing(elements, oldMapSize, off);
        assert buf[..0] == [] && buf[0..] == buf;
        WrittenNothing(elements, base, off);
        GrowsNothing(elements);
      }
      ghost var middle, tail := elements, rest;
      WriteFrom(at, rest, k);
      WrittenTwice(before, middle, elements, base, off, done, tail);
      GrowsTwice(before, middle, elements);
    }

    /** ... once the write starts inside element `k`. */
    method WriteFrom(at0: nat, rest0: seq<Byte>, k: nat)
      requires Sound(elements, oldMapSize) && |hashHeads| % 4 == 0 && |rest0| > 0
      requires at0 < oldMapSize < at0 + |rest0| ==> Covered(elements, oldMapSize)
      requires k < |elements| && elements[k].Covers(at0)
      modifies this`elements, this`hashHeads
      ensures Sound(elements, oldMapSize) && elements == AfterWriteFrom(old(elements), oldMapSize, at0, rest0, k)
      ensures Written(old(elements), elements, base, at0, rest0)
      ensures Grows(old(elements), elements)
      ensures |hashHeads| == old(|hashHeads|)
      ensures ApartFromHeads(at0, |rest0|) || |rest0| <= 4 ==> hashHeads == old(hashHeads)
      decreases |rest0|, 0
    {
      hide Written, Sound, Grows, Covered, Apart;
      var at, rest := at0, rest0;
      var el := elements[k];
      var partial := if at + |rest| <= el.End() then |rest| else el.End() - at;
      ghost var before, mid := elements, rest[..partial];
      var changed := Element(el.offset, Splice(el.data, at - el.offset, rest[..partial]));
      OverwriteElement(elements, k, changed, base, oldMapSize, at, rest[..partial]);
      elements := elements[k := changed];
      ghost var middle := elements;
      rest, at := rest[partial..], at + partial;
      assert rest0 == mid + rest;
      if |rest| != 0 {
        if at0 < oldMapSize < at0 + |rest0| { WrittenKeepsCovered(before, middle, base, at0, mid, oldMapSize); }
        Write(at, rest);
        WrittenTwice(before, middle, elements, base, at0, mid, rest);
        GrowsTwice(before, middle, elements);
      } else {
        assert rest0 == mid;
      }
    }
  }
}
