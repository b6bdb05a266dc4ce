/** The vendored inotifyx package (gevent_inotifyx/vendor/inotifyx/__init__.py):
    at import it copies every IN_* attribute of the binding into the module
    and into the `constants` dict, walking dir(binding) in its sorted order;
    InotifyEvent wraps one event tuple and describes its mask in terms of
    those constants; get_events wraps each tuple of the binding's
    get_events in an InotifyEvent. */
module Inotifyx {
  import opened Base
  import opened Wire
  import opened Kernel
  import opened Binding
  import opened Bitwise
  import opened MaskDescription

  /** Python's `a < b` on str: lexicographic by code point, comparing
      from offset i on. */
  predicate BelowFrom(a: string, b: string, i: nat)
    decreases |a| - i
  {
    if i >= |a| then i < |b|
    else if i >= |b| then false
    else if a[i] != b[i] then a[i] < b[i]
    else BelowFrom(a, b, i + 1)
  }

  predicate Below(a: string, b: string) { BelowFrom(a, b, 0) }

  lemma {:induction false} BelowFromTrans(a: string, b: string, c: string, i: nat)
    requires BelowFrom(a, b, i) && BelowFrom(b, c, i)
    requires forall k :: 0 <= k < i ==> k < |a| && k < |b| && k < |c| && a[k] == b[k] == c[k]
    ensures BelowFrom(a, c, i)
    decreases |a| - i
  {
    if i < |a| && a[i] == b[i] && b[i] == c[i] {
      BelowFromTrans(a, b, c, i + 1);
    }
  }

  lemma {:induction false} BelowFromIrreflexive(a: string, i: nat)
    ensures !BelowFrom(a, a, i)
    decreases |a| - i
  {
    if i < |a| {
      BelowFromIrreflexive(a, i + 1);
    }
  }

  /** Each name strictly below the next. */
  predicate Adjacent(s: seq<string>)
  {
    forall i :: 0 <= i < |s| - 1 ==> Below(s[i], s[i + 1])
  }

  /** Strictly ascending: how dir() lists distinct names. */
  predicate Ascending(s: seq<string>)
  {
    forall i, j :: 0 <= i < j < |s| ==> Below(s[i], s[j])
  }

  lemma AdjacentAppend(a: seq<string>, b: seq<string>)
    requires Adjacent(a) && Adjacent(b) && a != [] && b != [] && Below(a[|a| - 1], b[0])
    ensures Adjacent(a + b)
  {
    var s := a + b;
    forall i | 0 <= i < |s| - 1 ensures Below(s[i], s[i + 1]) {
      if i + 1 < |a| {
        assert s[i] == a[i] && s[i + 1] == a[i + 1];
      } else if i + 1 > |a| {
        assert s[i] == b[i - |a|] && s[i + 1] == b[i - |a| + 1];
      }
    }
  }

  lemma {:induction false} AdjacentUpTo(s: seq<string>, i: nat, j: nat)
    requires Adjacent(s) && i < j < |s|
    ensures Below(s[i], s[j])
    decreases j - i
  {
    if i + 1 < j {
      AdjacentUpTo(s, i, j - 1);
      BelowFromTrans(s[i], s[j - 1], s[j], 0);
    }
  }

  /** Names each below the next are sorted as a whole, hence each listed
      once. */
  lemma AdjacentAscending(s: seq<string>)
    requires Adjacent(s)
    ensures Ascending(s) && forall i, j :: 0 <= i < j < |s| ==> s[i] != s[j]
  {
    forall i, j | 0 <= i < j < |s| ensures Below(s[i], s[j]) {
      AdjacentUpTo(s, i, j);
    }
    forall i, j | 0 <= i < j < |s| ensures s[i] != s[j] {
      BelowFromIrreflexive(s[i], 0);
    }
  }

  /** dir(binding) under Python 3: the attribute names of the extension
      module (the IN_* constants, the module's own dunder attributes and the
      four functions of its method table), sorted. It is written as five runs
      so that each run can be checked on its own. */
  const NamesA: seq<string> := ["IN_ACCESS", "IN_ALL_EVENTS", "IN_ATTRIB", "IN_CLOSE", "IN_CLOSE_NOWRITE", "IN_CLOSE_WRITE"]
  const NamesB: seq<string> := ["IN_CREATE", "IN_DELETE", "IN_DELETE_SELF", "IN_DONT_FOLLOW", "IN_IGNORED", "IN_ISDIR"]
  const NamesC: seq<string> := ["IN_MASK_ADD", "IN_MODIFY", "IN_MOVE", "IN_MOVED_FROM", "IN_MOVED_TO", "IN_MOVE_SELF"]
  const NamesD: seq<string> := ["IN_ONESHOT", "IN_ONLYDIR", "IN_OPEN", "IN_Q_OVERFLOW", "IN_UNMOUNT"]
  const NamesE: seq<string> := [
    "__doc__", "__file__", "__loader__", "__name__", "__package__", "__spec__",
    "add_watch", "get_events", "init", "rm_watch"]

  const BindingNames: seq<string> := NamesA + NamesB + NamesC + NamesD + NamesE

  lemma NamesASorted()
    ensures Adjacent(NamesA)
  {
    assert Below(NamesA[0], NamesA[1]);
    assert Below(NamesA[1], NamesA[2]);
    assert Below(NamesA[2], NamesA[3]);
    assert Below(NamesA[3], NamesA[4]);
    assert Below(NamesA[4], NamesA[5]);
  }

  lemma NamesBSorted()
    ensures Adjacent(NamesB)
  {
    assert Below(NamesB[0], NamesB[1]);
    assert Below(NamesB[1], NamesB[2]);
    assert Below(NamesB[2], NamesB[3]);
    assert Below(NamesB[3], NamesB[4]);
    assert Below(NamesB[4], NamesB[5]);
  }

  lemma NamesCSorted()
    ensures Adjacent(NamesC)
  {
    assert Below(NamesC[0], NamesC[1]);
    assert Below(NamesC[1], NamesC[2]);
    assert Below(NamesC[2], NamesC[3]);
    assert Below(NamesC[3], NamesC[4]);
    assert Below(NamesC[4], NamesC[5]);
  }

  lemma NamesDSorted()
    ensures Adjacent(NamesD)
  {
    assert Below(NamesD[0], NamesD[1]);
    assert Below(NamesD[1], NamesD[2]);
    assert Below(NamesD[2], NamesD[3]);
    assert Below(NamesD[3], NamesD[4]);
  }

  lemma NamesESorted()
    ensures Adjacent(NamesE)
  {
    assert Below(NamesE[0], NamesE[1]);
    assert Below(NamesE[1], NamesE[2]);
    assert Below(NamesE[2], NamesE[3]);
    assert Below(NamesE[3], NamesE[4]);
    assert Below(NamesE[4], NamesE[5]);
    assert Below(NamesE[5], NamesE[6]);
    assert Below(NamesE[6], NamesE[7]);
    assert Below(NamesE[7], NamesE[8]);
    assert Below(NamesE[8], NamesE[9]);
  }

  /** dir() sorts: the names above are in ascending order, each once. */
  lemma BindingNamesSorted()
    ensures Ascending(BindingNames)
    ensures forall i, j :: 0 <= i < j < |BindingNames| ==> BindingNames[i] != BindingNames[j]
  {
    NamesASorted();
    NamesBSorted();
    NamesCSorted();
    NamesDSorted();
    NamesESorted();
    assert Below(NamesA[5], NamesB[0]) && Below(NamesB[5], NamesC[0]);
    assert Below(NamesC[5], NamesD[0]) && Below(NamesD[4], NamesE[0]);
    AdjacentAppend(NamesA, NamesB);
    AdjacentAppend(NamesA + NamesB, NamesC);
    AdjacentAppend(NamesA + NamesB + NamesC, NamesD);
    AdjacentAppend(NamesA + NamesB + NamesC + NamesD, NamesE);
    AdjacentAscending(BindingNames);
  }

  /** The filter of the import loop: `name.startswith('IN_') or
      name == 'BUF_LEN'`. */
  predicate Selected(name: string)
  {
    (|name| >= 3 && name[0] == 'I' && name[1] == 'N' && name[2] == '_') || name == "BUF_LEN"
  }

  /** Every selected name is an attribute, as it is for names from dir(). */
  predicate Available(names: seq<string>, attrs: Table)
  {
    forall n :: n in names && Selected(n) ==> Lookup(attrs, n).Some?
  }

  /** The `constants` dict the import loop builds from names listed once
      each: the selected names with their attribute values, in the order of
      `names`. */
  function Collected(names: seq<string>, attrs: Table): (r: Table)
    requires Available(names, attrs)
    ensures |r| <= |names|
    ensures forall k :: 0 <= k < |r| ==> Selected(r[k].0)
  {
    if names == [] then []
    else
      var n := names[0];
      assert forall x :: x in names[1..] ==> x in names;
      (if Selected(n) then [(n, Lookup(attrs, n).value)] else []) + Collected(names[1..], attrs)
  }

  /** An entry is in the dict exactly when its name is a selected name and
      its value is the attribute's. */
  lemma {:induction false} CollectedSpec(names: seq<string>, attrs: Table)
    requires Available(names, attrs)
    ensures forall e :: e in Collected(names, attrs) <==>
      e.0 in names && Selected(e.0) && Lookup(attrs, e.0) == Some(e.1)
  {
    if names != [] {
      var rest := names[1..];
      assert forall x :: x in rest ==> x in names;
      CollectedSpec(rest, attrs);
      var c := Collected(names, attrs);
      forall e ensures e in c <==> e.0 in names && Selected(e.0) && Lookup(attrs, e.0) == Some(e.1) {
        assert e.0 in names <==> e.0 == names[0] || e.0 in rest;
      }
    }
  }

  lemma AscendingTail(names: seq<string>)
    requires Ascending(names) && names != []
    ensures Ascending(names[1..])
  {
    var rest := names[1..];
    forall i, j | 0 <= i < j < |rest| ensures Below(rest[i], rest[j]) {
      assert rest[i] == names[i + 1] && rest[j] == names[j + 1];
    }
  }

  /** The first name comes before every key collected from the others. */
  lemma HeadBelowCollected(names: seq<string>, attrs: Table)
    requires Available(names, attrs) && Ascending(names) && names != []
    ensures Available(names[1..], attrs)
    ensures forall k :: 0 <= k < |Collected(names[1..], attrs)| ==> Below(names[0], Collected(names[1..], attrs)[k].0)
  {
    var rest := names[1..];
    assert forall x :: x in rest ==> x in names;
    CollectedSpec(rest, attrs);
    var c := Collected(rest, attrs);
    forall k | 0 <= k < |c| ensures Below(names[0], c[k].0) {
      assert c[k] in c;
      var j :| 0 <= j < |rest| && rest[j] == c[k].0;
      assert rest[j] == names[j + 1];
    }
  }

  lemma ConsAscending(x: string, ns: seq<string>)
    requires Ascending(ns) && forall k :: 0 <= k < |ns| ==> Below(x, ns[k])
    ensures Ascending([x] + ns)
  {
    var cn := [x] + ns;
    forall i, j | 0 <= i < j < |cn| ensures Below(cn[i], cn[j]) {
      assert cn[j] == ns[j - 1];
      if i > 0 {
        assert cn[i] == ns[i - 1];
      }
    }
  }

  /** The dict keeps the order of `names`: sorted names give sorted keys. */
  lemma {:induction false} CollectedOrdered(names: seq<string>, attrs: Table)
    requires Available(names, attrs) && Ascending(names)
    ensures Ascending(Names(Collected(names, attrs)))
  {
    if names != [] {
      var rest := names[1..];
      AscendingTail(names);
      HeadBelowCollected(names, attrs);
      CollectedOrdered(rest, attrs);
      if Selected(names[0]) {
        var t := Collected(rest, attrs);
        var v := Lookup(attrs, names[0]).value;
        assert Names([(names[0], v)] + t) == [names[0]] + Names(t);
        ConsAscending(names[0], Names(t));
      }
    }
  }

  /** The import loop (lines 44-48), filling the dict one name at a time. */
  method CollectConstants(names: seq<string>, attrs: Table) returns (constants: Table)
    requires Available(names, attrs)
    ensures constants == Collected(names, attrs)
  {
    constants := [];
    var i := 0;
    while i < |names|
      invariant 0 <= i <= |names| && Available(names[i..], attrs)
      invariant Collected(names, attrs) == constants + Collected(names[i..], attrs)
    {
      var name := names[i];
      assert names[i..][0] == name && names[i..][1..] == names[i + 1..];
      assert forall x :: x in names[i + 1..] ==> x in names[i..];
      if Selected(name) {
        constants := constants + [(name, Lookup(attrs, name).value)];
      }
      i := i + 1;
    }
  }

  /** The `constants` dict the import builds, and the names it binds in
      the module: the IN_* constants in sorted order. */
  const Constants: Table := [
    ("IN_ACCESS", 0x1), ("IN_ALL_EVENTS", 0xFFF), ("IN_ATTRIB", 0x4), ("IN_CLOSE", 0x18),
    ("IN_CLOSE_NOWRITE", 0x10), ("IN_CLOSE_WRITE", 0x8), ("IN_CREATE", 0x100),
    ("IN_DELETE", 0x200), ("IN_DELETE_SELF", 0x400), ("IN_DONT_FOLLOW", 0x200_0000),
    ("IN_IGNORED", 0x8000), ("IN_ISDIR", 0x4000_0000), ("IN_MASK_ADD", 0x2000_0000),
    ("IN_MODIFY", 0x2), ("IN_MOVE", 0xC0), ("IN_MOVED_FROM", 0x40), ("IN_MOVED_TO", 0x80),
    ("IN_MOVE_SELF", 0x800), ("IN_ONESHOT", 0x8000_0000), ("IN_ONLYDIR", 0x100_0000),
    ("IN_OPEN", 0x20), ("IN_Q_OVERFLOW", 0x4000), ("IN_UNMOUNT", 0x2000)]

  lemma BufLenNotListed()
    ensures "BUF_LEN" !in BindingNames
  {
  }

  /** The names the loop selects from dir(binding) are its first
      |Constants| names, and they are the names of Constants in order. */
  lemma ConstantNames()
    ensures forall k :: 0 <= k < |Constants| ==> Constants[k].0 == BindingNames[k]
  {
  }

  lemma SelectedNames()
    ensures forall k :: 0 <= k < |BindingNames| ==> (Selected(BindingNames[k]) <==> k < |Constants|)
  {
  }

  /** Whatever the attribute values, the dict has no BUF_LEN entry. */
  lemma NoBufLen(attrs: Table)
    requires Available(BindingNames, attrs)
    ensures Lookup(Collected(BindingNames, attrs), "BUF_LEN") == None
  {
    BufLenNotListed();
    CollectedSpec(BindingNames, attrs);
    LookupSpec(Collected(BindingNames, attrs), "BUF_LEN");
  }

  lemma ConstantsNoBar()
    ensures forall k :: 0 <= k < |Constants| ==> Constants[k].0 != [] && Constants[k].0 != "0" && NoBar(Constants[k].0)
  {
  }

  /** Constants is a well-formed table: distinct names without '|', 32-bit
      values. */
  lemma ConstantsWellFormed()
    ensures WellFormed(Constants)
  {
    BindingNamesSorted();
    ConstantNames();
    ConstantsNoBar();
    forall j, k | 0 <= j < k < |Constants| ensures Constants[j].0 != Constants[k].0 {
      assert Constants[j].0 == BindingNames[j] && Constants[k].0 == BindingNames[k];
    }
    assert forall k :: 0 <= k < |Constants| ==> Constants[k].1 < Two32;
  }

  lemma HeadIn(t: Table)
    requires t != []
    ensures t[0] in t
  {
  }

  /** The names of a table without its first entry. */
  lemma NamesTail(t: Table)
    requires t != [] && Ascending(Names(t))
    ensures Ascending(Names(t[1..]))
  {
    AscendingTail(Names(t));
    assert Names(t)[1..] == Names(t[1..]);
  }

  /** The first entries of two such tables are the same. */
  lemma SameFirst(a: Table, b: Table)
    requires a != [] && b != [] && Ascending(Names(a)) && Ascending(Names(b))
    requires a[0] in b && b[0] in a
    ensures a[0] == b[0]
  {
    var j :| 0 <= j < |b| && b[j] == a[0];
    var i :| 0 <= i < |a| && a[i] == b[0];
    if i > 0 && j > 0 {
      assert Names(b)[0] == b[0].0 && Names(b)[j] == a[0].0;
      assert Names(a)[0] == a[0].0 && Names(a)[i] == b[0].0;
      BelowFromTrans(a[0].0, b[0].0, a[0].0, 0);
      BelowFromIrreflexive(a[0].0, 0);
    }
  }

  /** Tables whose names ascend and that hold the same entries are the
      same table. */
  lemma {:induction false} SameSorted(a: Table, b: Table)
    requires Ascending(Names(a)) && Ascending(Names(b))
    requires forall e :: e in a <==> e in b
    ensures a == b
    decreases |a| + |b|
  {
    if a != [] {
      HeadIn(a);
      HeadIn(b);
      SameFirst(a, b);
      NamesTail(a);
      NamesTail(b);
      forall e ensures e in a[1..] <==> e in b[1..] {
        DistinctTail(a, e);
        DistinctTail(b, e);
      }
      SameSorted(a[1..], b[1..]);
      assert a == [a[0]] + a[1..] && b == [b[0]] + b[1..];
    } else if b != [] {
      HeadIn(b);
      assert false;
    }
  }

  /** In a table whose names ascend, the first entry is not repeated. */
  lemma DistinctTail(t: Table, e: (string, nat))
    requires Ascending(Names(t)) && t != []
    ensures e in t[1..] <==> e in t && e != t[0]
  {
    if e in t[1..] {
      var k :| 0 <= k < |t[1..]| && t[1..][k] == e;
      assert Names(t)[0] == t[0].0 && Names(t)[k + 1] == e.0;
      BelowFromIrreflexive(e.0, 0);
    }
    if e in t && e != t[0] {
      var k :| 0 <= k < |t| && t[k] == e;
      assert t[1..][k - 1] == e;
    }
  }

  /** The sorted table holds only registered constants. */
  lemma SortedRegistered()
    ensures forall k :: 0 <= k < |Constants| ==> Constants[k] in ModuleConstants
  {
  }

  /** Every registered constant is in the sorted table. */
  lemma RegisteredSorted()
    ensures forall k :: 0 <= k < |ModuleConstants| ==> ModuleConstants[k] in Constants
  {
  }

  /** No name is registered twice. */
  lemma RegisteredOnce()
    ensures forall j, k :: 0 <= j < k < |ModuleConstants| ==> ModuleConstants[j].0 != ModuleConstants[k].0
  {
  }

  /** The registered value of the k-th name of the sorted table is the
      value the table gives it. */
  lemma RegisteredValue(k: nat)
    requires k < |Constants|
    ensures Lookup(ModuleConstants, Constants[k].0) == Some(Constants[k].1)
  {
    SortedRegistered();
    RegisteredOnce();
    assert Constants[k] in ModuleConstants;
    var j :| 0 <= j < |ModuleConstants| && ModuleConstants[j] == Constants[k];
    LookupEntry(ModuleConstants, j);
  }

  /** Every name the import loop selects from dir(binding) is an attribute
      of the binding. */
  lemma ImportAvailable()
    ensures Available(BindingNames, ModuleConstants)
  {
    SelectedNames();
    ConstantNames();
    forall n | n in BindingNames && Selected(n) ensures Lookup(ModuleConstants, n).Some? {
      var k :| 0 <= k < |BindingNames| && BindingNames[k] == n;
      RegisteredValue(k);
    }
  }

  /** A table named by a prefix of an ascending list ascends. */
  lemma PrefixAscending(t: Table, ns: seq<string>)
    requires |t| <= |ns| && Ascending(ns)
    requires forall k :: 0 <= k < |t| ==> t[k].0 == ns[k]
    ensures Ascending(Names(t))
  {
    var tn := Names(t);
    forall i, j | 0 <= i < j < |tn| ensures Below(tn[i], tn[j]) {
      assert tn[i] == ns[i] && tn[j] == ns[j];
    }
  }

  lemma ConstantsAscending()
    ensures Ascending(Names(Constants))
  {
    BindingNamesSorted();
    ConstantNames();
    PrefixAscending(Constants, BindingNames);
  }

  /** The entries the import loop collects are those of the sorted table. */
  lemma ImportedEntries(e: (string, nat))
    requires Available(BindingNames, ModuleConstants)
    ensures e in Collected(BindingNames, ModuleConstants) <==> e in Constants
  {
    SelectedNames();
    ConstantNames();
    CollectedSpec(BindingNames, ModuleConstants);
    if e in Collected(BindingNames, ModuleConstants) {
      var k :| 0 <= k < |BindingNames| && BindingNames[k] == e.0;
      RegisteredValue(k);
      assert e == Constants[k];
    }
    if e in Constants {
      var k :| 0 <= k < |Constants| && Constants[k] == e;
      RegisteredValue(k);
      assert BindingNames[k] == e.0;
    }
  }

  /** The import loop run on the binding: the `constants` dict (and the
      module globals it mirrors) is every registered IN_* constant with its
      Linux value, keyed in the sorted order of dir(). */
  lemma ImportedConstants()
    ensures Available(BindingNames, ModuleConstants)
    ensures Collected(BindingNames, ModuleConstants) == Constants
  {
    ImportAvailable();
    BindingNamesSorted();
    CollectedOrdered(BindingNames, ModuleConstants);
    ConstantsAscending();
    forall e ensures e in Collected(BindingNames, ModuleConstants) <==> e in Constants {
      ImportedEntries(e);
    }
    SameSorted(Collected(BindingNames, ModuleConstants), Constants);
  }

  /** get_mask_description's promise fails on the Linux constants for every
      mask with some but not all of IN_ALL_EVENTS's bits (every ordinary
      event): IN_ALL_EVENTS overlaps such a mask without lying inside it, so
      its name enters the description and widens what eval() gives back. */
  lemma EventMasksDoNotRoundTrip(mask: int)
    requires And(Low32(mask), InAllEvents) != 0 && And(Low32(mask), InAllEvents) != InAllEvents
    ensures Eval(Constants, Describe(Constants, mask)) != Some(mask)
  {
    ConstantsWellFormed();
    RoundTripIff(Constants, mask);
    assert Constants[1].1 == InAllEvents;
    assert !SubMasks(Constants, mask);
  }

  /** The event of a created file: the description of IN_CREATE does not
      evaluate back to IN_CREATE. */
  lemma CreateDoesNotRoundTrip()
    ensures Eval(Constants, Describe(Constants, 0x100)) != Some(0x100)
  {
    CreateInsideAllEvents();
    EventMasksDoNotRoundTrip(0x100);
  }

  lemma CreateInsideAllEvents()
    ensures And(Low32(0x100), InAllEvents) == 0x100
  {
    assert And(1, 0xF) == 1;
    assert And(2, 0x1F) == 2;
    assert And(4, 0x3F) == 4;
    assert And(8, 0x7F) == 8;
    assert And(16, 0xFF) == 16;
    assert And(32, 0x1FF) == 32;
    assert And(64, 0x3FF) == 64;
    assert And(128, 0x7FF) == 128;
  }

  /** With only the constants that lie inside the mask, the description of
      IN_CREATE evaluates back to IN_CREATE, and so for every constant. */
  lemma ExactOnConstants()
    ensures forall k :: 0 <= k < |Constants| ==>
      Eval(Constants, DescribeExact(Constants, Constants[k].1)) == Some(Constants[k].1)
  {
    ConstantsWellFormed();
    forall k | 0 <= k < |Constants|
      ensures Eval(Constants, DescribeExact(Constants, Constants[k].1)) == Some(Constants[k].1)
    {
      ExactOnConstant(Constants, k);
    }
  }
  /** IN_CREATE itself: the corrected description round-trips. */
  lemma CreateExactRoundTrip()
    ensures Eval(Constants, DescribeExact(Constants, 0x100)) == Some(0x100)
  {
    ConstantsWellFormed();
    assert Constants[6].1 == 0x100;
    ExactOnConstant(Constants, 6);
  }


  /** One event: the fields of an inotify_event as the binding hands them
      over, set once by the constructor. `N` is the type of a name. */
  class InotifyEvent<N> {
    const wd: int
    const mask: int
    const cookie: int
    const name: Option<N>

    constructor (wd: int, mask: int, cookie: int, name: Option<N>)
      ensures Fields() == EventTuple(wd, mask, cookie, name)
    {
      this.wd, this.mask, this.cookie, this.name := wd, mask, cookie, name;
    }

    function Fields(): EventTuple<N>
    {
      EventTuple(wd, mask, cookie, name)
    }

    /** get_mask_description(): walk the dict, keep the names of the
        constants that share a bit with the mask, and join them with '|',
        or give "0" when there are none. */
    method GetMaskDescription(constants: Table) returns (d: string)
      ensures d == Describe(constants, mask)
    {
      var parts: seq<string> := [];
      var i := 0;
      while i < |constants|
        invariant 0 <= i <= |constants|
        invariant Names(Matching(constants, mask)) == parts + Names(Matching(constants[i..], mask))
      {
        var (n, value) := constants[i];
        var rest := Matching(constants[i + 1..], mask);
        assert constants[i..][0] == constants[i] && constants[i..][1..] == constants[i + 1..];
        if And(Low32(mask), value) != 0 {
          assert Matching(constants[i..], mask) == [constants[i]] + rest;
          assert Names([constants[i]] + rest) == [n] + Names(rest) by {
            assert ([constants[i]] + rest)[1..] == rest;
          }
          parts := parts + [n];
        } else {
          assert Matching(constants[i..], mask) == rest;
        }
        i := i + 1;
      }
      assert constants[i..] == [];
      assert parts + [] == parts;
      if parts != [] {
        d := Join(parts);
      } else {
        d := "0";
      }
    }
  }

  /** The fields of a list of events. */
  function Snapshot<N>(es: seq<InotifyEvent<N>>): (ts: seq<EventTuple<N>>)
    ensures |ts| == |es|
  {
    seq(|es|, k requires 0 <= k < |es| => es[k].Fields())
  }

  /** The list comprehension of get_events: one new event per tuple, in
      order, holding that tuple's fields. */
  method Wrap<N>(ts: seq<EventTuple<N>>) returns (es: seq<InotifyEvent<N>>)
    ensures Snapshot(es) == ts
    ensures forall k :: 0 <= k < |es| ==> fresh(es[k])
  {
    es := [];
    var i := 0;
    while i < |ts|
      invariant 0 <= i <= |ts| && |es| == i
      invariant forall k :: 0 <= k < i ==> es[k].Fields() == ts[k] && fresh(es[k])
    {
      var t := ts[i];
      var e := new InotifyEvent(t.wd, t.mask, t.cookie, t.name);
      es := es + [e];
      i := i + 1;
    }
  }

  /** get_events(fd[, timeout]): the binding's get_events, each tuple
      wrapped in an InotifyEvent; an exception of the binding passes
      through. */
  method GetEvents(m: Module, fd: Fd, arg: TimeoutArg) returns (r: Result<seq<InotifyEvent<seq<byte>>>>)
    requires m.Valid() && CallReturns(fd.State(), arg)
    modifies fd, m.buf
    ensures var run := CGetEvents(old(fd.State()), old(m.buf[..]), arg);
      && fd.State() == run.env && m.buf[..] == run.mem
      && (r.Ok? <==> run.result.Ok?)
      && (r.Err? ==> r.error == run.result.error)
      && (r.Ok? ==> Snapshot(r.value) == run.result.value)
  {
    var ts := m.GetEvents(fd, arg);
    if ts.Err? {
      return Err(ts.error);
    }
    var es := Wrap(ts.value);
    return Ok(es);
  }
}
