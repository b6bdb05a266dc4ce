/** InotifyEvent.get_mask_description over a table of named constants, and
    the evaluation of its result as Python would eval it in a namespace
    holding those constants. The table is the module's `constants` dict in
    iteration order. For a value in [0, 2^32), Python's `mask & value` only
    sees the low 32 bits of mask in two's complement, also for the negative
    masks the C binding produces; `Low32` makes that explicit. */
module MaskDescription {
  import opened Base
  import opened Wire
  import opened Bitwise

  /** The `constants` dict: (name, value) pairs in iteration order. */
  type Table = seq<(string, nat)>

  /** The low 32 bits of x in two's complement. */
  function Low32(x: int): (r: nat)
    ensures IsU32(x) ==> r == x
  {
    x % Two32
  }

  /** `mask & value` is non-zero. */
  predicate Overlaps(mask: int, value: nat)
  {
    And(Low32(mask), value) != 0
  }

  predicate NoBar(s: string) { forall k :: 0 <= k < |s| ==> s[k] != '|' }

  /** A table as binding.c builds it: distinct identifiers (never "0",
      never holding '|') with 32-bit values. */
  predicate WellFormed(t: Table)
  {
    && (forall k :: 0 <= k < |t| ==> t[k].0 != [] && t[k].0 != "0" && NoBar(t[k].0) && t[k].1 < Two32)
    && (forall j, k :: 0 <= j < k < |t| ==> t[j].0 != t[k].0)
  }

  /** The entries whose value shares a bit with mask, in table order. */
  function Matching(t: Table, mask: int): (r: Table)
    ensures |r| <= |t|
  {
    if t == [] then []
    else (if Overlaps(mask, t[0].1) then [t[0]] else []) + Matching(t[1..], mask)
  }

  function Names(t: Table): (r: seq<string>)
    ensures |r| == |t| && forall k :: 0 <= k < |t| ==> r[k] == t[k].0
  {
    if t == [] then [] else [t[0].0] + Names(t[1..])
  }

  /** '|'.join(parts) for a non-empty list. */
  function Join(parts: seq<string>): string
    requires parts != []
  {
    if |parts| == 1 then parts[0] else parts[0] + "|" + Join(parts[1..])
  }

  /** Offset of the first '|' in s, or |s| when there is none. */
  function FirstBar(s: string): (k: nat)
    ensures k <= |s| && NoBar(s[..k]) && (k < |s| ==> s[k] == '|')
  {
    if s == [] then 0 else if s[0] == '|' then 0 else 1 + FirstBar(s[1..])
  }

  /** s.split('|'). */
  function Split(s: string): (r: seq<string>)
    ensures r != []
    decreases |s|
  {
    var k := FirstBar(s);
    if k == |s| then [s] else [s[..k]] + Split(s[k + 1..])
  }

  /** get_mask_description(): the '|'-join of the names of the constants
      that share a bit with mask, in table order, or "0" when none does. */
  function Describe(t: Table, mask: int): (d: string)
    ensures (forall k :: 0 <= k < |t| ==> !Overlaps(mask, t[k].1)) ==> d == "0"
    ensures (forall k :: 0 <= k < |t| ==> t[k].0 != [] && t[k].0 != "0") ==>
      (d == "0" <==> forall k :: 0 <= k < |t| ==> !Overlaps(mask, t[k].1))
  {
    var names := Names(Matching(t, mask));
    MatchingSpec(t, mask);
    JoinNotZero(t, mask);
    if names == [] then "0" else Join(names)
  }

  /** With identifiers for names, a join of matching names is never the
      literal 0. */
  lemma JoinNotZero(t: Table, mask: int)
    ensures var names := Names(Matching(t, mask));
      (forall k :: 0 <= k < |t| ==> t[k].0 != [] && t[k].0 != "0") && names != [] ==> Join(names) != "0"
  {
    var m := Matching(t, mask);
    if (forall k :: 0 <= k < |t| ==> t[k].0 != [] && t[k].0 != "0") && m != [] {
      MatchingSpec(t, mask);
      assert m[0] in t;
      NotZero(Names(m));
    }
  }

  /** The value bound to a name in the namespace (the first entry by that
      name); None is a NameError. */
  function Lookup(t: Table, name: string): Option<nat>
  {
    if t == [] then None else if t[0].0 == name then Some(t[0].1) else Lookup(t[1..], name)
  }

  /** The bitwise or of the values named by parts, or None when one of the
      names is not bound. */
  function EvalParts(t: Table, parts: seq<string>): (r: Option<nat>)
    ensures r.None? <==> exists k :: 0 <= k < |parts| && Lookup(t, parts[k]).None?
  {
    if parts == [] then Some(0)
    else
      match Lookup(t, parts[0])
      case None => None
      case Some(v) =>
        match EvalParts(t, parts[1..])
        case None => None
        case Some(rest) => Some(Or(v, rest))
  }

  /** eval() of a description: the literal 0, or names joined by '|'. */
  function Eval(t: Table, s: string): (r: Option<int>)
    ensures r.None? <==> s != "0" && exists k :: 0 <= k < |Split(s)| && Lookup(t, Split(s)[k]).None?
    ensures r.Some? ==> r.value >= 0
  {
    if s == "0" then Some(0)
    else
      var parts := Split(s);
      match EvalParts(t, parts)
      case None =>
        assert s != "0" && exists k :: 0 <= k < |Split(s)| && Lookup(t, Split(s)[k]).None?;
        None
      case Some(b) => Some(b)
  }

  /** The bitwise or of all values of a table. */
  function OrValues(t: Table): nat
  {
    if t == [] then 0 else Or(t[0].1, OrValues(t[1..]))
  }

  /** Every constant that shares a bit with mask lies wholly inside it. */
  predicate SubMasks(t: Table, mask: int)
  {
    forall k :: 0 <= k < |t| && Overlaps(mask, t[k].1) ==> And(Low32(mask), t[k].1) == t[k].1
  }

  /** Every bit of mask belongs to some constant. */
  predicate Covered(t: Table, mask: int)
  {
    And(Low32(mask), OrValues(t)) == Low32(mask)
  }

  /** The matching entries are exactly the entries sharing a bit with mask;
      there are none exactly when no entry shares a bit with it. */
  lemma {:induction false} MatchingSpec(t: Table, mask: int)
    ensures var r := Matching(t, mask);
      && (forall e :: e in r <==> e in t && Overlaps(mask, e.1))
      && (r == [] <==> forall k :: 0 <= k < |t| ==> !Overlaps(mask, t[k].1))
  {
    if t != [] {
      MatchingSpec(t[1..], mask);
      var r := Matching(t, mask);
      var rest := Matching(t[1..], mask);
      forall e ensures e in r <==> e in t && Overlaps(mask, e.1) {
        assert e in t <==> e == t[0] || e in t[1..];
      }
      if forall k :: 0 <= k < |t| ==> !Overlaps(mask, t[k].1) {
        assert forall k :: 0 <= k < |t[1..]| ==> !Overlaps(mask, t[1..][k].1) by {
          forall k | 0 <= k < |t[1..]| ensures !Overlaps(mask, t[1..][k].1) {
            assert t[1..][k] == t[k + 1];
          }
        }
      }
    }
  }

  lemma {:induction false} SplitAfterBar(p: string, rest: string)
    requires NoBar(p)
    ensures Split(p + "|" + rest) == [p] + Split(rest)
  {
    var s := p + "|" + rest;
    FirstBarOf(p, rest);
    assert s[..|p|] == p;
    assert s[|p| + 1..] == rest;
  }

  lemma {:induction false} FirstBarOf(p: string, rest: string)
    requires NoBar(p)
    ensures FirstBar(p + "|" + rest) == |p|
    decreases |p|
  {
    if p != [] {
      assert (p + "|" + rest)[1..] == p[1..] + "|" + rest;
      FirstBarOf(p[1..], rest);
    }
  }

  /** Splitting a join on '|' gives the parts back when none holds '|'. */
  lemma {:induction false} SplitJoin(parts: seq<string>)
    requires parts != [] && forall k :: 0 <= k < |parts| ==> NoBar(parts[k])
    ensures Split(Join(parts)) == parts
    decreases |parts|
  {
    if |parts| == 1 {
      assert FirstBar(parts[0]) == |parts[0]|;
    } else {
      var tail := parts[1..];
      assert forall k :: 0 <= k < |tail| ==> NoBar(tail[k]) by {
        forall k | 0 <= k < |tail| ensures NoBar(tail[k]) {
          assert tail[k] == parts[k + 1];
        }
      }
      var rest := Join(tail);
      assert Join(parts) == parts[0] + "|" + rest;
      SplitAfterBar(parts[0], rest);
      SplitJoin(tail);
      assert parts == [parts[0]] + tail;
    }
  }

  /** An entry whose name no earlier entry has is what its name looks up. */
  lemma {:induction false} LookupEntry(t: Table, k: nat)
    requires k < |t| && forall j :: 0 <= j < k ==> t[j].0 != t[k].0
    ensures Lookup(t, t[k].0) == Some(t[k].1)
    decreases k
  {
    if k > 0 {
      assert t[0].0 != t[k].0;
      assert t[1..][k - 1] == t[k];
      forall j | 0 <= j < k - 1 ensures t[1..][j].0 != t[1..][k - 1].0 {
        assert t[1..][j] == t[j + 1];
      }
      LookupEntry(t[1..], k - 1);
    }
  }

  /** A bound name is bound by an entry of the table. */
  lemma {:induction false} LookupSpec(t: Table, name: string)
    ensures Lookup(t, name).Some? ==> (name, Lookup(t, name).value) in t
    ensures Lookup(t, name).None? <==> forall e :: e in t ==> e.0 != name
  {
    if t != [] {
      assert t[0] in t;
      assert forall e :: e in t <==> e == t[0] || e in t[1..];
      LookupSpec(t[1..], name);
    }
  }

  /** Evaluating the names of table entries ors their values. */
  lemma {:induction false} EvalEntries(t: Table, sub: Table)
    requires WellFormed(t) && forall e :: e in sub ==> e in t
    ensures EvalParts(t, Names(sub)) == Some(OrValues(sub))
    decreases |sub|
  {
    if sub != [] {
      assert sub[0] in sub;
      assert sub[0] in t;
      var k :| 0 <= k < |t| && t[k] == sub[0];
      LookupEntry(t, k);
      assert Names(sub)[1..] == Names(sub[1..]);
      assert forall e :: e in sub[1..] ==> e in sub;
      EvalEntries(t, sub[1..]);
    }
  }

  /** Evaluated in the namespace of t, the description built from entries of
      t raises no NameError and gives the or of the matching values. */
  lemma EvalDescribe(t: Table, sub: Table, mask: int)
    requires WellFormed(t) && forall e :: e in sub ==> e in t
    ensures Eval(t, Describe(sub, mask)) == Some(OrValues(Matching(sub, mask)))
  {
    var m := Matching(sub, mask);
    MatchingSpec(sub, mask);
    EvalEntries(t, m);
    var names := Names(m);
    if names != [] {
      forall k | 0 <= k < |names| ensures NoBar(names[k]) {
        assert m[k] in m;
        assert m[k] in t;
        var j :| 0 <= j < |t| && t[j] == m[k];
      }
      assert m[0] in m;
      assert m[0] in t;
      SplitJoin(names);
      NotZero(names);
    }
  }

  /** A join of identifiers is never the literal 0. */
  lemma NotZero(names: seq<string>)
    requires names != [] && names[0] != "0" && names[0] != []
    ensures Join(names) != "0"
  {
    if |names| > 1 {
      var s := Join(names);
      assert s == names[0] + ("|" + Join(names[1..]));
      assert |s| > |names[0]|;
      if |names[0]| == 1 {
        assert s[1] == '|';
      }
    }
  }

  /** `m & v` seen on bit positions: non-zero when they share a position,
      v when v's positions lie in m's, m when m's lie in v's. */
  lemma EntryBits(m: nat, v: nat)
    ensures And(m, v) != 0 <==> Bits(m) * Bits(v) != {}
    ensures And(m, v) == v <==> Bits(v) <= Bits(m)
    ensures And(m, v) == m <==> Bits(m) <= Bits(v)
  {
    AndBits(m, v);
    BitsEmpty(And(m, v));
    if Bits(v) <= Bits(m) {
      assert Bits(m) * Bits(v) == Bits(v);
      BitsInjective(And(m, v), v);
    }
    if Bits(m) <= Bits(v) {
      assert Bits(m) * Bits(v) == Bits(m);
      BitsInjective(And(m, v), m);
    }
  }

  lemma SubMasksCons(t: Table, mask: int)
    requires t != []
    ensures SubMasks(t, mask) <==>
      && (Overlaps(mask, t[0].1) ==> And(Low32(mask), t[0].1) == t[0].1)
      && SubMasks(t[1..], mask)
  {
    if SubMasks(t, mask) {
      forall k | 0 <= k < |t[1..]| && Overlaps(mask, t[1..][k].1)
        ensures And(Low32(mask), t[1..][k].1) == t[1..][k].1
      {
        assert t[1..][k] == t[k + 1];
      }
    }
    if (Overlaps(mask, t[0].1) ==> And(Low32(mask), t[0].1) == t[0].1) && SubMasks(t[1..], mask) {
      forall k | 0 <= k < |t| && Overlaps(mask, t[k].1)
        ensures And(Low32(mask), t[k].1) == t[k].1
      {
        if k > 0 {
          assert t[1..][k - 1] == t[k];
        }
      }
    }
  }

  lemma OrValuesCons(e: (string, nat), rest: Table)
    ensures Bits(OrValues([e] + rest)) == Bits(e.1) + Bits(OrValues(rest))
  {
    assert ([e] + rest)[1..] == rest;
    OrBits(e.1, OrValues(rest));
  }

  /** The matching values lie inside mask exactly when every overlapping
      constant is a sub-mask of it. */
  lemma {:induction false} MatchingInside(t: Table, mask: int)
    ensures Bits(OrValues(Matching(t, mask))) <= Bits(Low32(mask)) <==> SubMasks(t, mask)
    decreases |t|
  {
    if t != [] {
      var m, v := Low32(mask), t[0].1;
      var rest := Matching(t[1..], mask);
      MatchingInside(t[1..], mask);
      SubMasksCons(t, mask);
      EntryBits(m, v);
      if Overlaps(mask, v) {
        assert Matching(t, mask) == [t[0]] + rest;
        OrValuesCons(t[0], rest);
      } else {
        assert Matching(t, mask) == rest;
      }
    }
  }

  /** Within mask, the matching values cover the same bits as the whole table. */
  lemma {:induction false} MatchingCovers(t: Table, mask: int)
    ensures Bits(Low32(mask)) * Bits(OrValues(Matching(t, mask))) == Bits(Low32(mask)) * Bits(OrValues(t))
    decreases |t|
  {
    if t != [] {
      var m, v := Low32(mask), t[0].1;
      var rest := Matching(t[1..], mask);
      MatchingCovers(t[1..], mask);
      EntryBits(m, v);
      assert t == [t[0]] + t[1..];
      OrValuesCons(t[0], t[1..]);
      var b, x, y := Bits(m), Bits(OrValues(rest)), Bits(OrValues(t[1..]));
      assert b * (Bits(v) + y) == b * Bits(v) + b * y;
      if Overlaps(mask, v) {
        assert Matching(t, mask) == [t[0]] + rest;
        OrValuesCons(t[0], rest);
        assert b * (Bits(v) + x) == b * Bits(v) + b * x;
      } else {
        assert Matching(t, mask) == rest;
      }
    }
  }

  lemma {:induction false} Pow2Add(a: nat, b: nat)
    ensures Pow2(a + b) == Pow2(a) * Pow2(b)
    decreases a
  {
    if a > 0 {
      Pow2Add(a - 1, b);
    }
  }

  lemma Pow2Of32()
    ensures Pow2(32) == Two32
  {
    assert Pow2(4) == 16 by {
      assert Pow2(1) == 2 && Pow2(2) == 4 && Pow2(3) == 8;
    }
    Pow2Add(4, 4);
    Pow2Add(8, 8);
    Pow2Add(16, 16);
  }

  /** The or of 32-bit values is a 32-bit value. */
  lemma {:induction false} OrValuesBelow(t: Table)
    requires forall k :: 0 <= k < |t| ==> t[k].1 < Two32
    ensures OrValues(t) < Two32
    decreases |t|
  {
    if t != [] {
      var rest := t[1..];
      assert forall k :: 0 <= k < |rest| ==> rest[k].1 < Two32 by {
        forall k | 0 <= k < |rest| ensures rest[k].1 < Two32 {
          assert rest[k] == t[k + 1];
        }
      }
      OrValuesBelow(rest);
      Pow2Of32();
      BitsBelow(t[0].1, 32);
      BitsBelow(OrValues(rest), 32);
      OrBits(t[0].1, OrValues(rest));
      BelowFromBits(OrValues(t), 32);
    }
  }

  /** Evaluating the description of mask over entries `sub` of t gives mask
      back exactly when mask is a 32-bit value, every constant of sub that
      overlaps mask is a sub-mask of it, and the constants of sub cover all
      of mask's bits. */
  lemma RoundTripOver(t: Table, sub: Table, mask: int)
    requires WellFormed(t) && forall e :: e in sub ==> e in t
    ensures Eval(t, Describe(sub, mask)) == Some(mask) <==>
      IsU32(mask) && SubMasks(sub, mask) && Covered(sub, mask)
  {
    EvalDescribe(t, sub, mask);
    var matching := Matching(sub, mask);
    var o, m, all := OrValues(matching), Low32(mask), OrValues(sub);
    MatchingInside(sub, mask);
    MatchingCovers(sub, mask);
    EntryBits(m, all);
    MatchingSpec(sub, mask);
    forall k | 0 <= k < |matching| ensures matching[k].1 < Two32 {
      assert matching[k] in matching;
      assert matching[k] in t;
    }
    OrValuesBelow(matching);
    if Eval(t, Describe(sub, mask)) == Some(mask) {
      assert o == mask && m == o;
      assert Bits(m) * Bits(all) == Bits(m);
    }
    if IsU32(mask) && SubMasks(sub, mask) && Covered(sub, mask) {
      assert Bits(m) * Bits(o) == Bits(m);
      assert Bits(m) <= Bits(o);
      BitsInjective(o, m);
    }
  }

  /** get_mask_description's promise that eval() of the description gives
      the mask back holds exactly for the 32-bit masks that every
      overlapping constant lies inside and that the constants cover. */
  lemma RoundTripIff(t: Table, mask: int)
    requires WellFormed(t)
    ensures Eval(t, Describe(t, mask)) == Some(mask) <==>
      IsU32(mask) && SubMasks(t, mask) && Covered(t, mask)
  {
    RoundTripOver(t, t, mask);
  }

  /** The constants of t that lie wholly inside mask and are not zero. */
  function Inside(t: Table, mask: int): (r: Table)
    ensures forall e :: e in r <==> e in t && e.1 != 0 && And(Low32(mask), e.1) == e.1
  {
    if t == [] then []
    else
      var e := t[0];
      var rest := Inside(t[1..], mask);
      assert forall x :: x in t <==> x == e || x in t[1..];
      (if e.1 != 0 && And(Low32(mask), e.1) == e.1 then [e] else []) + rest
  }

  /** The description as the documented round trip needs it: the names of
      the constants that lie wholly inside mask. */
  function DescribeExact(t: Table, mask: int): string
  {
    Describe(Inside(t, mask), mask)
  }

  lemma InsideSubMasks(t: Table, mask: int)
    ensures SubMasks(Inside(t, mask), mask)
  {
    var r := Inside(t, mask);
    forall k | 0 <= k < |r| ensures And(Low32(mask), r[k].1) == r[k].1 {
      assert r[k] in r;
    }
  }

  /** The corrected description evaluates back to mask exactly when mask is
      a 32-bit value whose bits are all covered by constants inside it. */
  lemma ExactRoundTrip(t: Table, mask: int)
    requires WellFormed(t)
    ensures Eval(t, DescribeExact(t, mask)) == Some(mask) <==>
      IsU32(mask) && Covered(Inside(t, mask), mask)
  {
    InsideSubMasks(t, mask);
    RoundTripOver(t, Inside(t, mask), mask);
  }

  /** Each value's bits are among the bits of the or of the table. */
  lemma {:induction false} InOrValues(t: Table, k: nat)
    requires k < |t|
    ensures Bits(t[k].1) <= Bits(OrValues(t))
    decreases k
  {
    OrBits(t[0].1, OrValues(t[1..]));
    if k > 0 {
      assert t[1..][k - 1] == t[k];
      InOrValues(t[1..], k - 1);
    }
  }

  /** The corrected description of a mask that is itself one of the
      constants evaluates back to it. */
  lemma ExactOnConstant(t: Table, k: nat)
    requires WellFormed(t) && k < |t| && t[k].1 != 0
    ensures Eval(t, DescribeExact(t, t[k].1)) == Some(t[k].1)
  {
    var v := t[k].1;
    var inside := Inside(t, v);
    EntryBits(v, v);
    assert t[k] in t;
    assert t[k] in inside;
    var j :| 0 <= j < |inside| && inside[j] == t[k];
    InOrValues(inside, j);
    EntryBits(v, OrValues(inside));
    ExactRoundTrip(t, v);
  }
}
