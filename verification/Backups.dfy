/**
 Which groups hold backup superblocks: the enumerator of res_gdt.c, and the two membership tests
 of closefs.c and src/ext2fs.c.
 */
module Backups {
  import opened Arith

  function Pow(b: nat, k: nat): nat {
    if k == 0 then 1 else b * Pow(b, k - 1)
  }

  predicate IsPow(b: nat, a: int) {
    exists k: nat :: k <= a && Pow(b, k) == a
  }

  /** An exponent is less than the power, so the bound above excludes nothing. */
  lemma {:induction false} PowLarge(b: nat, k: nat)
    requires b >= 2
    ensures Pow(b, k) > k
  {
    if k > 0 {
      PowLarge(b, k - 1);
      MulMonotone(2, b, Pow(b, k - 1));
    }
  }

  lemma PowIs(b: nat, k: nat)
    requires b >= 2
    ensures IsPow(b, Pow(b, k)) && Pow(b, k) > k
  {
    PowLarge(b, k);
  }

  /** A power of b is 1, or b times a power. */
  lemma PowDivides(b: nat, a: int, q: int)
    requires b >= 2 && a == b * q && a != 0
    ensures IsPow(b, a) <==> IsPow(b, q)
  {
    if q >= 1 {
      MulMonotone(1, q, b);
    } else {
      MulMonotone(q, 0, b);
    }
    if IsPow(b, a) {
      var k: nat :| k <= a && Pow(b, k) == a;
      var p := Pow(b, k - 1);
      assert b * p == b * q;
      SameFactor(b, p, q);
      PowIs(b, k - 1);
    }
    if IsPow(b, q) {
      var k: nat :| k <= q && Pow(b, k) == q;
      PowIs(b, k + 1);
      assert Pow(b, k + 1) == a;
    }
  }

  lemma SameFactor(b: nat, p: int, q: int)
    requires b > 0 && b * p == b * q
    ensures p == q
  {
    assert (p + 1) * b == p * b + b && (q + 1) * b == q * b + b;
    if p < q {
      MulMonotone(p + 1, q, b);
    } else if q < p {
      MulMonotone(q + 1, p, b);
    }
  }

  lemma PowOrOne(b: nat, a: int)
    requires b >= 2 && IsPow(b, a) && a != 1
    ensures exists q: int :: a == b * q && q >= 1
  {
    var k: nat :| k <= a && Pow(b, k) == a;
    PowLarge(b, k - 1);
    assert a == b * Pow(b, k - 1);
  }

  // ---------- the two tests ----------

  /** C's division, which truncates towards zero. */
  function Quot(a: int, b: int): int
    requires b > 0
  {
    if a >= 0 then a / b else -((-a) / b)
  }

  function Rem(a: int, b: int): int
    requires b > 0
  {
    a - b * Quot(a, b)
  }

  /** test_root of closefs.c */
  method TestRootDown(a0: int, b: int) returns (r: bool)
    requires b >= 2
    ensures r <==> a0 == 0 || IsPow(b, a0)
  {
    if a0 == 0 {
      return true;
    }
    var a := a0;
    while true
      invariant a != 0 && (IsPow(b, a) <==> IsPow(b, a0))
      decreases if a >= 0 then a else -a
    {
      if a == 1 {
        PowIs(b, 0);
        return true;
      }
      if Rem(a, b) != 0 {
        if IsPow(b, a) {
          PowOrOne(b, a);
          var q: int :| a == b * q && q >= 1;
          DivModUnique(a, b, q, 0);
          assert false;
        }
        return false;
      }
      var q := Quot(a, b);
      PowDivides(b, a, q);
      Smaller(a, b, q);
      a := q;
    }
  }

  lemma Smaller(a: int, b: nat, q: int)
    requires b >= 2 && a == b * q && a != 0
    ensures q != 0 && (if q >= 0 then q else -q) < if a >= 0 then a else -a
  {
    if q > 0 {
      MulMonotone(2, b, q);
    } else if q < 0 {
      MulMonotone(2, b, -q);
      assert b * -q == -a;
    }
  }

  /** test_root of src/ext2fs.c */
  method TestRootUp(a: int, b: int) returns (r: bool)
    requires b >= 2
    ensures r <==> a != 1 && IsPow(b, a)
  {
    var num := b;
    ghost var k := 1;
    assert Pow(b, 1) == b * Pow(b, 0) == b;
    while a > num
      invariant num == Pow(b, k) && num >= b && k >= 1
      invariant forall i :: 1 <= i < k ==> Pow(b, i) < a
      decreases a - num
    {
      assert Pow(b, k + 1) == num * b;
      MulMonotone(2, b, num);
      num, k := num * b, k + 1;
    }
    r := num == a;
    if r {
      PowIs(b, k);
    } else if IsPow(b, a) && a != 1 {
      var i: nat :| i <= a && Pow(b, i) == a;
      assert i >= 1;
      assert i >= k;
      PowIncreasing(b, k, i);
      assert false;
    }
  }

  lemma {:induction false} PowIncreasing(b: nat, i: nat, j: nat)
    requires b >= 2 && i <= j
    ensures Pow(b, i) <= Pow(b, j) && (i < j ==> Pow(b, i) < Pow(b, j))
    decreases j - i
  {
    if i < j {
      PowIncreasing(b, i, j - 1);
      PowLarge(b, j - 1);
      MulMonotone(2, b, Pow(b, j - 1));
    }
  }

  /** Group 0, group 1, and the powers of 3, 5 and 7. */
  predicate Special(g: int) {
    g == 0 || IsPow(3, g) || IsPow(5, g) || IsPow(7, g)
  }

  /** ext2fs_bg_has_super */
  method BgHasSuper(sparse: bool, group: int) returns (r: bool)
    ensures r <==> !sparse || Special(group)
  {
    if !sparse {
      return true;
    }
    r := TestRootDown(group, 3);
    if !r { r := TestRootDown(group, 5); }
    if !r { r := TestRootDown(group, 7); }
  }

  /** ext2_group_sparse */
  method GroupSparse(group: int) returns (r: bool)
    ensures r <==> group <= 1 || Special(group)
  {
    if group <= 1 {
      return true;
    }
    r := TestRootUp(group, 3);
    if !r { r := TestRootUp(group, 5); }
    if !r { r := TestRootUp(group, 7); }
  }

  /** The two tests accept the same groups exactly from group 0 on. */
  lemma TestsAgree(group: int)
    ensures (Special(group) <==> group <= 1 || Special(group)) <==> group >= 0
  {
    if group == 1 {
      PowIs(3, 0);
    }
    if group < 0 && Special(group) {
      assert false;
    }
  }

  // ---------- the enumerator ----------

  datatype Counters = Counters(three: nat, five: nat, seven: nat)

  /** list_backups: the next group, and the counters afterwards. */
  function NextBackup(sparse: bool, c: Counters): (nat, Counters) {
    if !sparse then (c.three, c.(three := c.three + 1))
    else if c.five < c.three && c.five <= c.seven then (c.five, c.(five := c.five * 5))
    else if c.seven < c.three && c.seven < c.five then (c.seven, c.(seven := c.seven * 7))
    else (c.three, c.(three := c.three * 3))
  }

  /** The code of list_backups, which picks the counter to use by comparing in turn. */
  method ListBackups(sparse: bool, c: Counters) returns (ret: nat, c': Counters)
    ensures (ret, c') == NextBackup(sparse, c)
  {
    var min, mult := 0, 3;
    var smallest := c.three;
    if !sparse {
      return c.three, c.(three := c.three + 1);
    }
    if c.five < smallest {
      min, mult, smallest := 1, 5, c.five;
    }
    if c.seven < smallest {
      min, mult, smallest := 2, 7, c.seven;
    }
    ret := smallest;
    c' := if min == 0 then c.(three := c.three * mult)
        else if min == 1 then c.(five := c.five * mult) else c.(seven := c.seven * mult);
  }

  const START := Counters(1, 5, 7)

  function CountersAfter(n: nat): Counters {
    if n == 0 then START else NextBackup(true, CountersAfter(n - 1)).1
  }

  /** The first n groups listed on a sparse file system. */
  function Backups(n: nat): (s: seq<nat>)
    ensures |s| == n
  {
    if n == 0 then [] else Backups(n - 1) + [NextBackup(true, CountersAfter(n - 1)).0]
  }

  function Least(c: Counters): nat {
    if c.three <= c.five && c.three <= c.seven then c.three else if c.five <= c.seven then c.five else c.seven
  }

  /** The counters are powers, each of its own base, and no two are equal. */
  ghost predicate Powers(c: Counters) {
    && IsPow(3, c.three) && IsPow(5, c.five) && c.five > 1 && IsPow(7, c.seven) && c.seven > 1
    && c.three != c.five && c.three != c.seven && c.five != c.seven
  }

  lemma TimesMod5(x: nat)
    ensures x % 5 != 0 ==> (3 * x) % 5 != 0
  {
  }

  lemma TimesMod7(x: nat)
    ensures x % 7 != 0 ==> (3 * x) % 7 != 0 && (5 * x) % 7 != 0
  {
    var q, r := x / 7, x % 7;
    assert 3 * x == 7 * (3 * q) + 3 * r && 5 * x == 7 * (5 * q) + 5 * r;
  }

  /** A power of one base is never a multiple of another of 3, 5 and 7. */
  lemma {:induction false} PowersMod(k: nat)
    ensures Pow(3, k) % 5 != 0 && Pow(3, k) % 7 != 0 && Pow(5, k) % 7 != 0
  {
    if k > 0 {
      PowersMod(k - 1);
      TimesMod5(Pow(3, k - 1));
      TimesMod7(Pow(3, k - 1));
      TimesMod7(Pow(5, k - 1));
    }
  }

  lemma Distinct(a: nat, b: nat)
    ensures IsPow(3, a) && IsPow(5, b) && b > 1 ==> a != b
    ensures IsPow(3, a) && IsPow(7, b) && b > 1 ==> a != b
    ensures IsPow(5, a) && IsPow(7, b) && b > 1 ==> a != b
  {
    if a == b && b > 1 {
      if IsPow(3, a) {
        var k: nat :| k <= a && Pow(3, k) == a;
        PowersMod(k);
      }
      if IsPow(5, b) {
        MultipleOf(5, b);
        var k: nat :| k <= b && Pow(5, k) == b;
        PowersMod(k);
      }
      if IsPow(7, b) {
        MultipleOf(7, b);
      }
    }
  }

  lemma MultipleOf(b: nat, a: nat)
    requires b >= 2 && IsPow(b, a) && a > 1
    ensures a % b == 0
  {
    PowOrOne(b, a);
    var q: int :| a == b * q && q >= 1;
    DivModUnique(a, b, q, 0);
  }

  /** The next power after a power of b is b times it. */
  lemma NextPower(b: nat, a: nat, g: nat)
    requires b >= 2 && IsPow(b, a) && IsPow(b, g) && g > a
    ensures g >= b * a && IsPow(b, b * a)
  {
    var k: nat :| k <= a && Pow(b, k) == a;
    var j: nat :| j <= g && Pow(b, j) == g;
    if j <= k {
      PowIncreasing(b, j, k);
    }
    PowIncreasing(b, k + 1, j);
    PowIs(b, k + 1);
  }

  /** A power of 3 from 1 on, or of 5 or 7 above 1, that its counter has passed. */
  predicate Below(g: nat, c: Counters) {
    (IsPow(3, g) && g < c.three) || (IsPow(5, g) && 1 < g < c.five) || (IsPow(7, g) && 1 < g < c.seven)
  }

  /** Groups below the counters that hold backups are those listed already. */
  ghost predicate ListedBelow(n: nat) {
    var c, s := CountersAfter(n), Backups(n);
    && Powers(c)
    && (forall i :: 0 <= i < n ==> s[i] < Least(c))
    && (forall i, j :: 0 <= i < j < n ==> s[i] < s[j])
    && (forall i :: 0 <= i < n ==> s[i] >= 1 && Special(s[i]))
    && (forall g: nat :: Below(g, c) ==> g in s)
  }

  lemma StartListed()
    ensures ListedBelow(0)
  {
    PowIs(3, 0);
    PowIs(5, 1);
    PowIs(7, 1);
    assert Pow(5, 1) == 5 * Pow(5, 0) && Pow(7, 1) == 7 * Pow(7, 0) && Pow(5, 0) == Pow(7, 0) == 1;
    PowIs(5, 0);
    PowIs(7, 0);
    forall g: nat
      ensures !Below(g, START)
    {
      if IsPow(5, g) && 1 < g < 5 { NextPower(5, 1, g); }
      if IsPow(7, g) && 1 < g < 7 { NextPower(7, 1, g); }
      if IsPow(3, g) && g < 1 { ZeroNoPower(3); }
    }
  }

  lemma ZeroNoPower(b: nat)
    requires b >= 2
    ensures !IsPow(b, 0)
  {
    assert Pow(b, 0) == 1;
  }

  /** The powers of a base below its next counter are those below the old one, and the old one. */
  lemma OneMorePower(b: nat, a: nat, g: nat)
    requires b >= 2 && IsPow(b, a)
    ensures IsPow(b, b * a) && b * a > a && (IsPow(b, g) && g < b * a ==> g <= a)
  {
    var k: nat :| k <= a && Pow(b, k) == a;
    PowIs(b, k + 1);
    PowLarge(b, k);
    MulMonotone(2, b, a);
    if IsPow(b, g) && g > a {
      NextPower(b, a, g);
    }
  }

  /** One more call: the counters stay powers, and nothing between is missed. */
  lemma ListedStep(n: nat)
    requires ListedBelow(n)
    ensures ListedBelow(n + 1)
  {
    hide IsPow;
    var c, s := CountersAfter(n), Backups(n);
    var (ret, c') := NextBackup(true, c);
    assert CountersAfter(n + 1) == c' && Backups(n + 1) == s + [ret];
    var s' := s + [ret];
    CountersStep(c);
    forall g: nat | Below(g, c')
      ensures g in s'
    {
      OneMorePower(3, c.three, g);
      OneMorePower(5, c.five, g);
      OneMorePower(7, c.seven, g);
      assert Below(g, c) || g == ret;
    }
  }

  lemma CountersStep(c: Counters)
    requires Powers(c)
    ensures var (ret, c') := NextBackup(true, c);
            Powers(c') && ret == Least(c) < Least(c') && ret >= 1 && Special(ret)
  {
    hide IsPow;
    OneMorePower(3, c.three, 0);
    OneMorePower(5, c.five, 0);
    OneMorePower(7, c.seven, 0);
    ZeroNoPower(3);
    Distinct(c.three * 3, c.five);
    Distinct(c.three * 3, c.seven);
    Distinct(c.three, c.five * 5);
    Distinct(c.five * 5, c.seven);
    Distinct(c.three, c.seven * 7);
    Distinct(c.five, c.seven * 7);
  }

  lemma {:induction false} Listed(n: nat)
    ensures ListedBelow(n)
  {
    hide ListedBelow;
    if n == 0 {
      StartListed();
    } else {
      Listed(n - 1);
      ListedStep(n - 1);
    }
  }

  lemma Growing(s: seq<nat>, i: nat)
    requires i < |s| && (forall j :: 0 <= j < |s| ==> s[j] >= 1) && forall j, k :: 0 <= j < k < |s| ==> s[j] < s[k]
    ensures s[i] > i
  {
    if i > 0 {
      Growing(s, i - 1);
    }
  }

  /** Started at 1, 5 and 7, the enumerator lists groups in strictly increasing order, and lists exactly those
      from 1 on that the membership tests accept; it reaches group g within g + 1 calls. */
  lemma BackupsAreSpecial(n: nat)
    ensures forall i, j :: 0 <= i < j < n ==> Backups(n)[i] < Backups(n)[j]
    ensures forall i :: 0 <= i < n ==> Backups(n)[i] >= 1 && Special(Backups(n)[i])
    ensures forall g: nat :: 1 <= g < n ==> (Special(g) <==> g in Backups(n))
  {
    hide IsPow, Backups, CountersAfter;
    Listed(n);
    var c, s := CountersAfter(n), Backups(n);
    forall g: nat | 1 <= g < n
      ensures Special(g) <==> g in s
    {
      if n > 0 {
        Growing(s, n - 1);
        assert s[n - 1] < Least(c);
      }
      if Special(g) {
        assert IsPow(3, 1) by { PowIs(3, 0); assert Pow(3, 0) == 1; }
        assert Below(g, c);
      }
      if g in s {
        var i :| 0 <= i < n && s[i] == g;
      }
    }
  }
}
