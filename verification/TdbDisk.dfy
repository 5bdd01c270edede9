/**
 A file on a disk that may crash.  Writes stay unordered until the next sync: a crash
 leaves, independently for every aligned 4-byte word, the word as it was on the disk or
 as any write since the last sync made it.  Changes of the file length are ordered.
 */
module TdbDisk {
  import opened Bytes

  /** The file as read back by the program, and the older versions a crash may still expose. */
  datatype DiskState = DiskState(image: seq<Byte>, earlier: seq<seq<Byte>>)
  {
    ghost predicate Valid() {
      forall k :: 0 <= k < |earlier| ==> |earlier[k]| == |image|
    }

    ghost function Versions(): seq<seq<Byte>> {
      earlier + [image]
    }

    function Write(off: nat, data: seq<Byte>): DiskState
      requires off + |data| <= |image|
    {
      DiskState(Splice(image, off, data), earlier + [image])
    }

    function Sync(): DiskState {
      DiskState(image, [])
    }

    function SetLength(n: nat): DiskState {
      DiskState(Resized(image, n), ResizedAll(earlier, n))
    }

    /** Lengthened, if need be, to hold `n` bytes. */
    function Reaching(n: nat): (r: DiskState)
      ensures |r.image| == if |image| < n then n else |image|
    {
      if |image| < n then SetLength(n) else this
    }
  }

  /** ftruncate: cut, or extend with zeros. */
  function Resized(s: seq<Byte>, n: nat): (r: seq<Byte>)
    ensures |r| == n
    ensures forall i :: 0 <= i < n ==> r[i] == if i < |s| then s[i] else 0
  {
    if n <= |s| then s[..n] else s + ZeroBytes(n - |s|)
  }

  function ResizedAll(vs: seq<seq<Byte>>, n: nat): (r: seq<seq<Byte>>)
    ensures |r| == |vs|
    ensures forall k :: 0 <= k < |vs| ==> r[k] == Resized(vs[k], n)
  {
    if vs == [] then [] else ResizedAll(vs[..|vs| - 1], n) + [Resized(vs[|vs| - 1], n)]
  }

  /** `img` and `v` have the same aligned word number `w`. */
  ghost predicate SameWord(img: seq<Byte>, v: seq<Byte>, w: nat) {
    forall i :: 4 * w <= i < 4 * w + 4 && i < |img| && i < |v| ==> img[i] == v[i]
  }

  ghost predicate WordFromSome(img: seq<Byte>, vs: seq<seq<Byte>>, w: nat) {
    exists k :: 0 <= k < |vs| && SameWord(img, vs[k], w)
  }

  /** `img` is what a crash in state `s` may leave on the disk. */
  ghost predicate CrashImage(s: DiskState, img: seq<Byte>) {
    && |img| == |s.image|
    && forall w: nat :: 4 * w < |img| ==> WordFromSome(img, s.Versions(), w)
  }

  lemma CrashByte(s: DiskState, img: seq<Byte>, i: nat) returns (k: nat)
    requires s.Valid() && CrashImage(s, img) && i < |img|
    ensures k < |s.Versions()| && |s.Versions()[k]| == |img| && img[i] == s.Versions()[k][i]
  {
    assert WordFromSome(img, s.Versions(), i / 4);
    k :| 0 <= k < |s.Versions()| && SameWord(img, s.Versions()[k], i / 4);
  }

  lemma CrashWord(s: DiskState, img: seq<Byte>, off: nat) returns (k: nat)
    requires s.Valid() && CrashImage(s, img) && off % 4 == 0 && off + 4 <= |img|
    ensures k < |s.Versions()| && |s.Versions()[k]| == |img| && U32(img, off) == U32(s.Versions()[k], off)
  {
    hide U32;
    var w := off / 4;
    assert WordFromSome(img, s.Versions(), w);
    k :| 0 <= k < |s.Versions()| && SameWord(img, s.Versions()[k], w);
    var v := s.Versions()[k];
    assert img[off..off + 4] == v[off..off + 4];
    U32Same(img, v, off, off);
  }

  /** With one unsynced change of one word, a crash leaves the file before or after it. */
  lemma CrashOfOneWord(s: DiskState, before: seq<Byte>, img: seq<Byte>, off: nat)
    requires s.earlier == [before] && |before| == |s.image| && CrashImage(s, img)
    requires off % 4 == 0 && off + 4 <= |before|
    requires forall i :: 0 <= i < |before| && !(off <= i < off + 4) ==> before[i] == s.image[i]
    ensures img == before || img == s.image
  {
    assert WordFromSome(img, s.Versions(), off / 4);
    var k :| 0 <= k < |s.Versions()| && SameWord(img, s.Versions()[k], off / 4);
    var v := s.Versions()[k];
    forall i | 0 <= i < |img|
      ensures img[i] == v[i]
    {
      var j := CrashByte(s, img, i);
    }
  }

  /** Once synced, a crash leaves what the program sees. */
  lemma CrashAfterSync(s: DiskState, img: seq<Byte>)
    requires s.earlier == [] && CrashImage(s, img)
    ensures img == s.image
  {
    forall i | 0 <= i < |img|
      ensures img[i] == s.image[i]
    {
      var k := CrashByte(s, img, i);
    }
  }

  /** The database file.  The trace records the disk after every operation on it. */
  class DiskFile {
    var image: seq<Byte>
    ghost var earlier: seq<seq<Byte>>
    ghost var trace: seq<DiskState>

    ghost function State(): DiskState
      reads this
    {
      DiskState(image, earlier)
    }

    /** A file opened after a crash: what is on the disk. */
    constructor (contents: seq<Byte>)
      ensures State() == DiskState(contents, []) && trace == []
    {
      image, earlier, trace := contents, [], [];
    }

    /** tdb_write below a transaction: pwrite, or a copy into the mapping. */
    method Write(off: nat, data: seq<Byte>)
      requires off + |data| <= |image|
      modifies this
      ensures State() == old(State()).Write(off, data)
      ensures trace == old(trace) + [State()]
    {
      earlier := earlier + [image];
      image := Splice(image, off, data);
      trace := trace + [State()];
    }

    /** The same where pwrite may pass the end of the file, and then lengthens it. */
    method Pwrite(off: nat, data: seq<Byte>)
      requires off <= |image|
      modifies this
      ensures var reached := old(State()).Reaching(off + |data|);
              && State() == reached.Write(off, data)
              && trace == old(trace) + (if old(|image|) < off + |data| then [reached] else []) + [State()]
    {
      if off + |data| > |image| {
        SetLength(off + |data|);
      }
      Write(off, data);
    }

    /** transaction_sync */
    method Sync()
      modifies this
      ensures State() == old(State()).Sync()
      ensures trace == old(trace) + [State()]
    {
      earlier := [];
      trace := trace + [State()];
    }

    /** ftruncate */
    method SetLength(n: nat)
      modifies this
      ensures State() == old(State()).SetLength(n)
      ensures trace == old(trace) + [State()]
    {
      earlier := ResizedAll(earlier, n);
      image := Resized(image, n);
      trace := trace + [State()];
    }
  }
}
