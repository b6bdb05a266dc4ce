/** Python's `&` and `|` on non-negative integers, and the set of bit
    positions of such an integer, which turns `&` into intersection and `|`
    into union. */
module Bitwise {

  /** a & b. */
  function And(a: nat, b: nat): nat
    decreases a
  {
    if a == 0 || b == 0 then 0
    else (if a % 2 == 1 && b % 2 == 1 then 1 else 0) + 2 * And(a / 2, b / 2)
  }

  /** a | b. */
  function Or(a: nat, b: nat): nat
    decreases a + b
  {
    if a == 0 then b
    else if b == 0 then a
    else (if a % 2 == 1 || b % 2 == 1 then 1 else 0) + 2 * Or(a / 2, b / 2)
  }

  function Up(s: set<nat>): set<nat>
  {
    set i | i in s :: i + 1
  }

  /** The positions of the bits set in x. */
  function Bits(x: nat): set<nat>
    decreases x
  {
    if x == 0 then {} else (if x % 2 == 1 then {0} else {}) + Up(Bits(x / 2))
  }

  function Pow2(n: nat): (p: nat)
    ensures p >= 1
  {
    if n == 0 then 1 else 2 * Pow2(n - 1)
  }

  lemma UpFacts(s: set<nat>, t: set<nat>)
    ensures 0 !in Up(s)
    ensures Up(s) * Up(t) == Up(s * t) && Up(s) + Up(t) == Up(s + t)
    ensures Up(s) <= Up(t) <==> s <= t
    ensures Up(s) == {} <==> s == {}
  {
    forall i | i in Up(s) * Up(t) ensures i in Up(s * t) {
      var j :| j in s && i == j + 1;
      var k :| k in t && i == k + 1;
      assert j in s * t;
    }
    if Up(s) <= Up(t) {
      forall i | i in s ensures i in t {
        assert i + 1 in Up(s);
      }
    }
    if s != {} {
      var i :| i in s;
      assert i + 1 in Up(s);
    }
  }

  lemma UpInjective(s: set<nat>, t: set<nat>)
    requires Up(s) == Up(t)
    ensures s == t
  {
    UpFacts(s, t);
    UpFacts(t, s);
  }

  lemma BitsLow(x: nat)
    ensures 0 in Bits(x) <==> x % 2 == 1
    ensures x > 0 ==> Bits(x) - {0} == Up(Bits(x / 2))
  {
    UpFacts(Bits(x / 2), {});
  }

  /** Only zero has no bits set. */
  lemma BitsEmpty(x: nat)
    ensures Bits(x) == {} <==> x == 0
  {
    if x > 0 && x % 2 == 0 {
      assert x / 2 > 0;
      BitsEmpty(x / 2);
      UpFacts(Bits(x / 2), {});
    }
  }

  /** A number is determined by its bits. */
  lemma {:induction false} BitsInjective(a: nat, b: nat)
    requires Bits(a) == Bits(b)
    ensures a == b
    decreases a
  {
    BitsEmpty(a);
    BitsEmpty(b);
    if a != 0 {
      BitsLow(a);
      BitsLow(b);
      UpInjective(Bits(a / 2), Bits(b / 2));
      BitsInjective(a / 2, b / 2);
    }
  }

  lemma {:induction false} AndBits(a: nat, b: nat)
    ensures Bits(And(a, b)) == Bits(a) * Bits(b)
    decreases a
  {
    BitsEmpty(a);
    BitsEmpty(b);
    if a != 0 && b != 0 {
      var r := And(a / 2, b / 2);
      AndBits(a / 2, b / 2);
      UpFacts(Bits(a / 2), Bits(b / 2));
      var low: set<nat> := if a % 2 == 1 && b % 2 == 1 then {0} else {};
      var x := And(a, b);
      assert x == (if a % 2 == 1 && b % 2 == 1 then 1 else 0) + 2 * r;
      assert x / 2 == r && (x % 2 == 1 <==> a % 2 == 1 && b % 2 == 1);
      BitsEmpty(x);
      if x > 0 {
        assert Bits(x) == (if x % 2 == 1 then {0} else {}) + Up(Bits(r));
      } else {
        BitsEmpty(r);
      }
    }
  }

  lemma {:induction false} OrBits(a: nat, b: nat)
    ensures Bits(Or(a, b)) == Bits(a) + Bits(b)
    decreases a + b
  {
    BitsEmpty(a);
    BitsEmpty(b);
    if a != 0 && b != 0 {
      var r := Or(a / 2, b / 2);
      OrBits(a / 2, b / 2);
      UpFacts(Bits(a / 2), Bits(b / 2));
      var x := Or(a, b);
      assert x / 2 == r && (x % 2 == 1 <==> a % 2 == 1 || b % 2 == 1);
      assert x > 0;
    }
  }

  /** Numbers below 2^n have their bits below n. */
  lemma {:induction false} BitsBelow(x: nat, n: nat)
    requires x < Pow2(n)
    ensures forall i :: i in Bits(x) ==> i < n
    decreases n
  {
    if x > 0 {
      assert n > 0;
      BitsBelow(x / 2, n - 1);
    }
  }

  /** Numbers whose bits are below n are below 2^n. */
  lemma {:induction false} BelowFromBits(x: nat, n: nat)
    requires forall i :: i in Bits(x) ==> i < n
    ensures x < Pow2(n)
    decreases x
  {
    if x > 0 {
      if n == 0 {
        BitsEmpty(x);
        var i :| i in Bits(x);
        assert false;
      }
      forall i | i in Bits(x / 2) ensures i < n - 1 {
        assert i + 1 in Up(Bits(x / 2));
      }
      BelowFromBits(x / 2, n - 1);
    }
  }
}
