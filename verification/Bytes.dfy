/**
 Byte strings: little-endian 32-bit words, and overwriting part of a string.
 */
module Bytes {
  type Byte = x: int | 0 <= x < 256

  const U32_LIMIT := 0x1_0000_0000

  /** The value 0 .. U32_LIMIT-1 stored in the four bytes at `off`. */
  function U32(s: seq<Byte>, off: nat): (r: nat)
    requires off + 4 <= |s|
    ensures r < U32_LIMIT
  {
    var b0: int, b1: int, b2: int, b3: int := s[off], s[off + 1], s[off + 2], s[off + 3];
    b0 + 0x100 * b1 + 0x1_0000 * b2 + 0x100_0000 * b3
  }

  function EncodeU32(x: nat): (r: seq<Byte>)
    requires x < U32_LIMIT
    ensures |r| == 4
  {
    [x % 0x100, x / 0x100 % 0x100, x / 0x1_0000 % 0x100, x / 0x100_0000]
  }

  lemma U32RoundTrip(x: nat)
    requires x < U32_LIMIT
    ensures U32(EncodeU32(x), 0) == x
  {
    var y, r0 := x / 0x100, x % 0x100;
    var z, r1 := y / 0x100, y % 0x100;
    var w, r2 := z / 0x100, z % 0x100;
    assert x == 0x1_0000 * z + (0x100 * r1 + r0);
    assert x / 0x1_0000 == z;
    assert x == 0x100_0000 * w + (0x1_0000 * r2 + 0x100 * r1 + r0);
    assert x / 0x100_0000 == w;
  }

  /** No other four bytes encode the same word. */
  lemma U32Injective(s: seq<Byte>, x: nat)
    requires |s| == 4 && U32(s, 0) == x
    ensures s == EncodeU32(x)
  {
    var b0: int, b1: int, b2: int, b3: int := s[0], s[1], s[2], s[3];
    var y := b1 + 0x100 * (b2 + 0x100 * b3);
    Digit(b0, y);
    Digit(b1, b2 + 0x100 * b3);
    Digit(b2, b3);
    assert x / 0x1_0000 == y / 0x100 && x / 0x100_0000 == y / 0x100 / 0x100;
  }

  lemma Digit(b: int, rest: int)
    requires 0 <= b < 0x100 && rest >= 0
    ensures (b + 0x100 * rest) % 0x100 == b && (b + 0x100 * rest) / 0x100 == rest
  {
  }

  /** `data` placed over the bytes of `s` that start at `off`. */
  function Splice(s: seq<Byte>, off: nat, data: seq<Byte>): (r: seq<Byte>)
    requires off + |data| <= |s|
    ensures |r| == |s|
    ensures forall i :: 0 <= i < |s| ==> r[i] == if off <= i < off + |data| then data[i - off] else s[i]
  {
    s[..off] + data + s[off + |data|..]
  }

  /** The word at `off` only depends on its own four bytes. */
  lemma U32Same(s: seq<Byte>, t: seq<Byte>, off: nat, off': nat)
    requires off + 4 <= |s| && off' + 4 <= |t|
    requires s[off..off + 4] == t[off'..off' + 4]
    ensures U32(s, off) == U32(t, off')
  {
    var a, b := s[off..off + 4], t[off'..off' + 4];
    assert a[0] == s[off] && a[1] == s[off + 1] && a[2] == s[off + 2] && a[3] == s[off + 3];
    assert b[0] == t[off'] && b[1] == t[off' + 1] && b[2] == t[off' + 2] && b[3] == t[off' + 3];
  }

  lemma SubSlice<T>(s: seq<T>, off: nat, e: seq<T>, i: nat, j: nat)
    requires off + |e| <= |s| && s[off..off + |e|] == e && i <= j <= |e|
    ensures s[off + i..off + j] == e[i..j]
  {
    var t := s[off..off + |e|];
    forall k | 0 <= k < j - i
      ensures s[off + i..off + j][k] == t[i..j][k]
    {
      assert t[i + k] == s[off + i + k];
    }
  }

  function ZeroBytes(n: nat): (r: seq<Byte>)
    ensures |r| == n
    ensures forall i :: 0 <= i < n ==> r[i] == 0
  {
    if n == 0 then [] else ZeroBytes(n - 1) + [0]
  }

  lemma MoreBytes(s: seq<Byte>, lo: nat, mid: nat, hi: nat)
    requires lo <= mid <= hi <= |s|
    ensures s[lo..mid] + s[mid..hi] == s[lo..hi]
  {
  }

  lemma EmptySplice(s: seq<Byte>, at: nat)
    requires at <= |s|
    ensures Splice(s, at, []) == s
  {
  }

  lemma MorePieces(s: seq<Byte>, at: nat, data: seq<Byte>, done: nat, next: nat)
    requires at + |data| <= |s| && done <= next <= |data|
    ensures Splice(Splice(s, at, data[..done]), at + done, data[done..next]) == Splice(s, at, data[..next])
  {
  }
}
