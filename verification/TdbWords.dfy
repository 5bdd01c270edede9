/**
 The database file of tdb as 32-bit words, and the bytes in them.
 */
module TdbWords {
  import opened Bytes

  /** The words at the multiples of four. */
  type Words = map<nat, nat>

  function Get(mem: Words, w: int): nat {
    if w >= 0 && w in mem then mem[w] else 0
  }

  ghost predicate SameOutside(mem: Words, mem': Words, lo: int, hi: int) {
    forall w: int {:trigger Get(mem', w)} :: w < lo || w >= hi ==> Get(mem', w) == Get(mem, w)
  }

  /** Byte j of a word, the lowest first. */
  function ByteOf(v: nat, j: nat): Byte {
    if j == 0 then v % 0x100 else ByteOf(v / 0x100, j - 1)
  }

  function SetByte(v: nat, j: nat, b: Byte): nat {
    if j == 0 then v / 0x100 * 0x100 + b else v % 0x100 + 0x100 * SetByte(v / 0x100, j - 1, b)
  }

  lemma {:induction false} SetByteOf(v: nat, j: nat, b: Byte, i: nat)
    ensures ByteOf(SetByte(v, j, b), i) == if i == j then b else ByteOf(v, i)
    decreases j
  {
    if j == 0 {
      Digit(b, v / 0x100);
    } else {
      Digit(v % 0x100, SetByte(v / 0x100, j - 1, b));
      if i > 0 {
        SetByteOf(v / 0x100, j - 1, b, i - 1);
      }
    }
  }

  /** Where the word of byte `a` starts. */
  function WordOf(a: nat): (w: nat)
    ensures w <= a < w + 4
    ensures w % 4 == 0
  {
    a - a % 4
  }

  function ByteAt(mem: Words, a: nat): Byte {
    ByteOf(Get(mem, WordOf(a)), a - WordOf(a))
  }

  function PutByte(mem: Words, a: nat, b: Byte): Words {
    mem[WordOf(a) := SetByte(Get(mem, WordOf(a)), a - WordOf(a), b)]
  }

  lemma PutByteAt(mem: Words, a: nat, b: Byte, x: nat)
    ensures ByteAt(PutByte(mem, a, b), x) == if x == a then b else ByteAt(mem, x)
  {
    hide WordOf, ByteOf, SetByte;
    SetByteOf(Get(mem, WordOf(a)), a - WordOf(a), b, x - WordOf(x));
  }

  /** pwrite of a byte string. */
  function PutBytes(mem: Words, a: nat, s: seq<Byte>): Words {
    if s == [] then mem else PutByte(PutBytes(mem, a, s[..|s| - 1]), a + |s| - 1, s[|s| - 1])
  }

  /** The bytes from `a` on are those of `s`. */
  ghost predicate Holds(mem: Words, a: nat, s: seq<Byte>) {
    forall i :: 0 <= i < |s| ==> ByteAt(mem, a + i) == s[i]
  }

  function ReadBytes(mem: Words, a: nat, n: nat): (s: seq<Byte>)
    ensures |s| == n && Holds(mem, a, s)
  {
    if n == 0 then [] else ReadBytes(mem, a, n - 1) + [ByteAt(mem, a + n - 1)]
  }

  lemma ReadsHeld(mem: Words, a: nat, s: seq<Byte>)
    requires Holds(mem, a, s)
    ensures ReadBytes(mem, a, |s|) == s
  {
    hide ByteAt, ReadBytes;
    var r := ReadBytes(mem, a, |s|);
    assert forall i :: 0 <= i < |s| ==> r[i] == s[i];
  }

  /** A written string is there, and every other byte is as it was. */
  lemma {:induction false} PutBytesAt(mem: Words, a: nat, s: seq<Byte>, x: nat)
    ensures ByteAt(PutBytes(mem, a, s), x) == if a <= x < a + |s| then s[x - a] else ByteAt(mem, x)
  {
    hide ByteAt, PutByte;
    if s != [] {
      PutBytesAt(mem, a, s[..|s| - 1], x);
      PutByteAt(PutBytes(mem, a, s[..|s| - 1]), a + |s| - 1, s[|s| - 1], x);
    }
  }

  lemma PutBytesHeld(mem: Words, a: nat, s: seq<Byte>)
    ensures Holds(PutBytes(mem, a, s), a, s)
  {
    hide ByteAt, PutBytes;
    forall i | 0 <= i < |s|
      ensures ByteAt(PutBytes(mem, a, s), a + i) == s[i]
    {
      PutBytesAt(mem, a, s, a + i);
    }
  }

  /** A string written after another leaves that one alone. */
  lemma PutBytesAfter(mem: Words, a: nat, s: seq<Byte>, t: seq<Byte>)
    requires Holds(mem, a, s)
    ensures Holds(PutBytes(mem, a + |s|, t), a, s + t)
  {
    hide ByteAt, PutBytes;
    forall i | 0 <= i < |s + t|
      ensures ByteAt(PutBytes(mem, a + |s|, t), a + i) == (s + t)[i]
    {
      PutBytesAt(mem, a + |s|, t, a + i);
    }
  }

  /** Only words with a byte of the string in them change. */
  lemma {:induction false} PutBytesWords(mem: Words, a: nat, s: seq<Byte>, lo: nat, hi: nat)
    requires lo % 4 == 0 && lo <= a && a + |s| <= hi
    ensures SameOutside(mem, PutBytes(mem, a, s), lo, hi)
  {
    hide Get, PutByte;
    if s != [] {
      var m, x := PutBytes(mem, a, s[..|s| - 1]), a + |s| - 1;
      PutBytesWords(mem, a, s[..|s| - 1], lo, hi);
      PutByteWords(m, x, s[|s| - 1], lo, hi);
      assert PutBytes(mem, a, s) == PutByte(m, x, s[|s| - 1]);
    }
  }

  lemma PutByteWords(mem: Words, a: nat, b: Byte, lo: nat, hi: nat)
    requires lo % 4 == 0 && lo <= a < hi
    ensures SameOutside(mem, PutByte(mem, a, b), lo, hi)
  {
    hide SetByte, WordOf;
    WordAbove(lo, a);
  }

  lemma WordAbove(lo: nat, x: nat)
    requires lo % 4 == 0 && lo <= x
    ensures lo <= WordOf(x)
  {
  }

  /** Bytes depend on their own words only. */
  lemma HeldStays(mem: Words, mem': Words, a: nat, s: seq<Byte>)
    requires Holds(mem, a, s) && forall w: int :: a - 4 < w < a + |s| ==> Get(mem', w) == Get(mem, w)
    ensures Holds(mem', a, s)
  {
    hide Get, ByteOf;
  }

  lemma HeldParts(mem: Words, a: nat, s: seq<Byte>, t: seq<Byte>)
    requires Holds(mem, a, s + t)
    ensures Holds(mem, a, s) && Holds(mem, a + |s|, t)
  {
    hide ByteAt;
    forall i | 0 <= i < |s|
      ensures ByteAt(mem, a + i) == s[i]
    {
      assert (s + t)[i] == s[i];
    }
    forall i | 0 <= i < |t|
      ensures ByteAt(mem, a + |s| + i) == t[i]
    {
      assert ByteAt(mem, a + (|s| + i)) == (s + t)[|s| + i];
    }
  }
}
