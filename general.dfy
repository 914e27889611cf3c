/** The general helpers: the all-of containment test, the truth predicate of
    text/template and the helpers built on it, and the unit selection of the
    human-readable file size. */
module General {
  import opened Values

  // ---------------------------------------------------------------------
  // Containment
  // ---------------------------------------------------------------------

  /** Why one containment check gave up: a value that resolved to the
      invalid value, or an error from eq. */
  datatype Fault = InvalidValue | EqError

  /** The outcome of the inner per-target check: found, not found, or an
      error (which Contains reports as "not contained"). */
  datatype Check = Hit | Miss | Fail(fault: Fault)

  predicate IsPrefix(p: string, s: string) {
    |p| <= |s| && s[..|p|] == p
  }

  /** t occurs in s starting at index k. */
  predicate OccursAt(t: string, s: string, k: int) {
    0 <= k <= |s| - |t| && s[k..k + |t|] == t
  }

  /** strings.Contains: t occurs in s (the empty string occurs everywhere). */
  function IsSubstring(t: string, s: string): (r: bool)
    ensures t == [] ==> r
    ensures r ==> |t| <= |s|
    decreases |s|
  {
    IsPrefix(t, s) || (s != [] && IsSubstring(t, s[1..]))
  }

  lemma {:induction false} IsSubstringAt(t: string, s: string)
    ensures IsSubstring(t, s) <==> exists k :: OccursAt(t, s, k)
    decreases |s|
  {
    if IsPrefix(t, s) {
      assert OccursAt(t, s, 0);
    } else if s == [] {
    } else {
      IsSubstringAt(t, s[1..]);
      if IsSubstring(t, s[1..]) {
        var k :| OccursAt(t, s[1..], k);
        assert s[k + 1..k + 1 + |t|] == s[1..][k..k + |t|];
        assert OccursAt(t, s, k + 1);
      }
      if k :| OccursAt(t, s, k) {
        assert k != 0;
        assert s[1..][k - 1..k - 1 + |t|] == s[k..k + |t|];
        assert OccursAt(t, s[1..], k - 1);
      }
    }
  }

  /** The early-exit scan shared by the slice and the map branch, over the
      outcomes of eq in visiting order: the first outcome that is not
      Differ decides; an eq error ends the scan with an error. */
  function Scan(cs: seq<Cmp>): (r: Check)
    ensures r != Fail(InvalidValue)
  {
    if cs == [] then Miss
    else match cs[0]
      case Incomparable => Fail(EqError)
      case Same => Hit
      case Differ => Scan(cs[1..])
  }

  /** Every outcome in cs is Differ. */
  predicate AllDiffer(cs: seq<Cmp>) {
    forall j | 0 <= j < |cs| :: cs[j] == Differ
  }

  /** The outcome at index k is c and every earlier one is Differ: a scan
      stops at k with c. */
  predicate DecidesAt(cs: seq<Cmp>, k: int, c: Cmp) {
    0 <= k < |cs| && cs[k] == c && AllDiffer(cs[..k])
  }

  lemma DecidesAtShift(cs: seq<Cmp>, k: nat, c: Cmp)
    requires cs != [] && cs[0] == Differ
    ensures DecidesAt(cs, k + 1, c) <==> DecidesAt(cs[1..], k, c)
  {
    if k + 1 < |cs| {
      assert cs[..k + 1] == [cs[0]] + cs[1..][..k];
    }
  }

  lemma {:induction false} ScanMeaning(cs: seq<Cmp>)
    ensures Scan(cs) == Miss <==> AllDiffer(cs)
    ensures Scan(cs) == Hit <==> exists k :: DecidesAt(cs, k, Same)
    ensures Scan(cs) == Fail(EqError) <==> exists k :: DecidesAt(cs, k, Incomparable)
  {
    if cs == [] {
    } else if cs[0] == Differ {
      var t := cs[1..];
      ScanMeaning(t);
      assert AllDiffer(cs) <==> AllDiffer(t) by {
        assert forall j | 1 <= j < |cs| :: cs[j] == t[j - 1];
      }
      if k :| DecidesAt(t, k, Same) {
        DecidesAtShift(cs, k, Same);
      }
      if k :| DecidesAt(t, k, Incomparable) {
        DecidesAtShift(cs, k, Incomparable);
      }
      if k :| DecidesAt(cs, k, Same) {
        assert k != 0;
        DecidesAtShift(cs, k - 1, Same);
      }
      if k :| DecidesAt(cs, k, Incomparable) {
        assert k != 0;
        DecidesAtShift(cs, k - 1, Incomparable);
      }
    } else {
      assert DecidesAt(cs, 0, cs[0]);
      assert forall k | 0 < k < |cs| :: cs[..k][0] == cs[0];
      assert forall k | 0 < k < |cs| :: !AllDiffer(cs[..k]);
    }
  }

  /** When eq never errs, the scan's result depends only on which outcomes
      occur, not on their order or number. */
  lemma ScanByMembership(cs: seq<Cmp>)
    requires Incomparable !in cs
    ensures Scan(cs) == if Same in cs then Hit else Miss
  {
    ScanMeaning(cs);
    forall k | 0 <= k < |cs| ensures cs[k] != Incomparable {
      assert cs[k] in cs;
    }
    assert Scan(cs) != Fail(EqError);
    if Same !in cs {
      forall k | 0 <= k < |cs| ensures cs[k] == Differ {
        assert cs[k] in cs;
      }
    } else {
      var k :| 0 <= k < |cs| && cs[k] == Same;
      assert !AllDiffer(cs);
    }
  }

  /** The eq outcomes of the slice branch: the resolved target against
      each resolved element, in index order. */
  function ElemOutcomes(eq: EqFn, rVal: Val, es: seq<Val>): (cs: seq<Cmp>)
    ensures |cs| == |es|
    ensures forall k | 0 <= k < |es| :: cs[k] == eq(rVal, IndirectInterface(es[k]))
  {
    seq(|es|, k requires 0 <= k < |es| => eq(rVal, IndirectInterface(es[k])))
  }

  /** The eq outcomes of the map branch: each raw map value against the raw
      target, in iteration order; the keys play no part. */
  function ValueOutcomes(eq: EqFn, val: Val, ents: seq<(Val, Val)>): (cs: seq<Cmp>)
    ensures |cs| == |ents|
    ensures forall k | 0 <= k < |ents| :: cs[k] == eq(ents[k].1, val)
  {
    seq(|ents|, k requires 0 <= k < |ents| => eq(ents[k].1, val))
  }

  /** The inner closure of Contains for one target val, as a value. */
  function Probe(eq: EqFn, render: Val -> string, collection: Val, val: Val): (r: Check)
    ensures r == Fail(InvalidValue) <==>
      IndirectInterface(collection) == Nil || IndirectInterface(val) == Nil
    ensures (IndirectInterface(val) != Nil &&
             !(IndirectInterface(collection).Str? || IndirectInterface(collection).Seq? ||
               IndirectInterface(collection).Map? || IndirectInterface(collection).Nil?)) ==> r == Miss
  {
    var v := IndirectInterface(collection);
    var rVal := IndirectInterface(val);
    if v == Nil || rVal == Nil then Fail(InvalidValue)
    else match v
      case Str(s) => if IsSubstring(render(rVal), s) then Hit else Miss
      case Seq(es) => Scan(ElemOutcomes(eq, rVal, es))
      case Map(ents) => Scan(ValueOutcomes(eq, val, ents))
      case _ => Miss
  }

  /** The closure itself: resolve both sides, then dispatch on the kind of
      the collection, scanning with an early exit. */
  method ContainsOne(eq: EqFn, render: Val -> string, collection: Val, val: Val) returns (c: Check)
    ensures c == Probe(eq, render, collection, val)
  {
    var v := IndirectInterface(collection);
    if v == Nil {
      return Fail(InvalidValue);
    }
    var rVal := IndirectInterface(val);
    if rVal == Nil {
      return Fail(InvalidValue);
    }
    match v {
      case Str(s) =>
        c := if IsSubstring(render(rVal), s) then Hit else Miss;
      case Seq(es) =>
        ghost var cs := ElemOutcomes(eq, rVal, es);
        var i := 0;
        while i < |es|
          invariant 0 <= i <= |es|
          invariant Scan(cs) == Scan(cs[i..])
        {
          var ok := eq(rVal, IndirectInterface(es[i]));
          assert cs[i..][0] == ok && cs[i..][1..] == cs[i + 1..];
          if ok == Incomparable {
            return Fail(EqError);
          }
          if ok == Same {
            return Hit;
          }
          i := i + 1;
        }
        c := Miss;
      case Map(ents) =>
        ghost var cs := ValueOutcomes(eq, val, ents);
        var i := 0;
        while i < |ents|
          invariant 0 <= i <= |ents|
          invariant Scan(cs) == Scan(cs[i..])
        {
          var ok := eq(ents[i].1, val);
          assert cs[i..][0] == ok && cs[i..][1..] == cs[i + 1..];
          if ok == Incomparable {
            return Fail(EqError);
          }
          if ok == Same {
            return Hit;
          }
          i := i + 1;
        }
        c := Miss;
      case _ =>
        c := Miss;
    }
  }

  /** Every target is found in the collection. With no targets this holds
      whatever the collection is, even an invalid one. */
  predicate ContainsAll(eq: EqFn, render: Val -> string, collection: Val, values: seq<Val>) {
    forall i | 0 <= i < |values| :: Probe(eq, render, collection, values[i]) == Hit
  }

  /** Contains: checks the targets in order and stops at the first one that
      is missing or whose check fails. */
  method Contains(eq: EqFn, render: Val -> string, collection: Val, values: seq<Val>) returns (b: bool)
    ensures b <==> ContainsAll(eq, render, collection, values)
  {
    for i := 0 to |values|
      invariant forall j | 0 <= j < i :: Probe(eq, render, collection, values[j]) == Hit
    {
      var c := ContainsOne(eq, render, collection, values[i]);
      if c != Hit {
        return false;
      }
    }
    return true;
  }

  /** A string collection holds a target iff the target's %v rendering
      occurs in it. */
  lemma ProbeString(eq: EqFn, render: Val -> string, collection: Val, val: Val)
    requires IndirectInterface(collection).Str? && IndirectInterface(val) != Nil
    ensures var s, t := IndirectInterface(collection).s, render(IndirectInterface(val));
      Probe(eq, render, collection, val) == (if exists k :: OccursAt(t, s, k) then Hit else Miss)
  {
    IsSubstringAt(render(IndirectInterface(val)), IndirectInterface(collection).s);
  }

  /** A slice or array holds a target iff eq first reports a match on some
      resolved element; an eq error before any match ends the scan with an
      error, and the scan stops at the first match. */
  lemma ProbeSlice(eq: EqFn, render: Val -> string, collection: Val, val: Val)
    requires IndirectInterface(collection).Seq? && IndirectInterface(val) != Nil
    ensures var es, rVal := IndirectInterface(collection).elems, IndirectInterface(val);
      (Probe(eq, render, collection, val) == Hit <==>
        exists k | 0 <= k < |es| :: eq(rVal, IndirectInterface(es[k])) == Same &&
          forall j | 0 <= j < k :: eq(rVal, IndirectInterface(es[j])) == Differ) &&
      (Probe(eq, render, collection, val) == Miss <==>
        forall k | 0 <= k < |es| :: eq(rVal, IndirectInterface(es[k])) == Differ) &&
      (Probe(eq, render, collection, val) == Fail(EqError) <==>
        exists k | 0 <= k < |es| :: eq(rVal, IndirectInterface(es[k])) == Incomparable &&
          forall j | 0 <= j < k :: eq(rVal, IndirectInterface(es[j])) == Differ)
  {
    var es, rVal := IndirectInterface(collection).elems, IndirectInterface(val);
    var cs := ElemOutcomes(eq, rVal, es);
    ScanMeaning(cs);
    assert Probe(eq, render, collection, val) == Scan(cs);
    forall k | 0 <= k < |es|
      ensures AllDiffer(cs[..k]) <==> forall j | 0 <= j < k :: eq(rVal, IndirectInterface(es[j])) == Differ
    {
      assert forall j | 0 <= j < k :: cs[..k][j] == cs[j];
    }
    if k :| DecidesAt(cs, k, Same) {
      assert eq(rVal, IndirectInterface(es[k])) == Same;
    }
    if k :| 0 <= k < |es| && eq(rVal, IndirectInterface(es[k])) == Same &&
            forall j | 0 <= j < k :: eq(rVal, IndirectInterface(es[j])) == Differ {
      assert DecidesAt(cs, k, Same);
    }
    if k :| DecidesAt(cs, k, Incomparable) {
      assert eq(rVal, IndirectInterface(es[k])) == Incomparable;
    }
    if k :| 0 <= k < |es| && eq(rVal, IndirectInterface(es[k])) == Incomparable &&
            forall j | 0 <= j < k :: eq(rVal, IndirectInterface(es[j])) == Differ {
      assert DecidesAt(cs, k, Incomparable);
    }
  }

  /** Elements of a slice are resolved before they are compared: replacing
      each element by its resolution changes nothing. */
  lemma ProbeSliceResolvesElements(eq: EqFn, render: Val -> string, es: seq<Val>, val: Val)
    ensures Probe(eq, render, Seq(es), val) ==
      Probe(eq, render, Seq(seq(|es|, k requires 0 <= k < |es| => IndirectInterface(es[k]))), val)
  {
    var es' := seq(|es|, k requires 0 <= k < |es| => IndirectInterface(es[k]));
    var rVal := IndirectInterface(val);
    assert ElemOutcomes(eq, rVal, es) == ElemOutcomes(eq, rVal, es');
  }

  /** In a map only the values are compared, never the keys: two maps with
      the same values in the same iteration order give the same answer. */
  lemma ProbeMapIgnoresKeys(eq: EqFn, render: Val -> string, ents1: seq<(Val, Val)>,
                            ents2: seq<(Val, Val)>, val: Val)
    requires |ents1| == |ents2|
    requires forall k | 0 <= k < |ents1| :: ents1[k].1 == ents2[k].1
    ensures Probe(eq, render, Map(ents1), val) == Probe(eq, render, Map(ents2), val)
  {
    assert ValueOutcomes(eq, val, ents1) == ValueOutcomes(eq, val, ents2);
  }

  /** When eq errs on no value, a map holds a target iff eq matches some
      value, whatever order the iteration visits the entries in. */
  lemma ProbeMap(eq: EqFn, render: Val -> string, collection: Val, val: Val)
    requires IndirectInterface(collection).Map? && IndirectInterface(val) != Nil
    requires forall e | e in IndirectInterface(collection).entries :: eq(e.1, val) != Incomparable
    ensures Probe(eq, render, collection, val) ==
      if exists e | e in IndirectInterface(collection).entries :: eq(e.1, val) == Same then Hit else Miss
  {
    var ents := IndirectInterface(collection).entries;
    var cs := ValueOutcomes(eq, val, ents);
    forall k | 0 <= k < |cs| ensures cs[k] != Incomparable {
      assert ents[k] in ents;
    }
    ScanByMembership(cs);
    if e :| e in ents && eq(e.1, val) == Same {
      var k :| 0 <= k < |ents| && ents[k] == e;
      assert cs[k] == Same;
    }
    if Same in cs {
      var k :| 0 <= k < |cs| && cs[k] == Same;
      assert ents[k] in ents;
    }
  }

  /** For every eq, errors included, what can be said of a map without
      knowing the iteration order: it misses a valid target iff every value
      differs from it; a hit needs a matching value and an eq error needs a
      value eq fails on; an eq error and no match anywhere fails the check. */
  lemma {:induction false} ProbeMapOutcomes(eq: EqFn, render: Val -> string, ents: seq<(Val, Val)>, val: Val)
    ensures Probe(eq, render, Map(ents), val) == Miss <==>
      IndirectInterface(val) != Nil && forall k | 0 <= k < |ents| :: eq(ents[k].1, val) == Differ
    ensures Probe(eq, render, Map(ents), val) == Hit ==>
      exists k | 0 <= k < |ents| :: eq(ents[k].1, val) == Same
    ensures Probe(eq, render, Map(ents), val) == Fail(EqError) ==>
      exists k | 0 <= k < |ents| :: eq(ents[k].1, val) == Incomparable
    ensures (IndirectInterface(val) != Nil &&
             (exists k | 0 <= k < |ents| :: eq(ents[k].1, val) == Incomparable) &&
             (forall k | 0 <= k < |ents| :: eq(ents[k].1, val) != Same)) ==>
      Probe(eq, render, Map(ents), val) == Fail(EqError)
  {
    var cs := ValueOutcomes(eq, val, ents);
    ScanMeaning(cs);
    if IndirectInterface(val) != Nil {
      assert Probe(eq, render, Map(ents), val) == Scan(cs);
      if Scan(cs) == Hit {
        var k :| DecidesAt(cs, k, Same);
      }
      if Scan(cs) == Fail(EqError) {
        var k :| DecidesAt(cs, k, Incomparable);
      }
      if Scan(cs) == Miss {
        assert AllDiffer(cs);
      }
      if (exists k | 0 <= k < |ents| :: eq(ents[k].1, val) == Incomparable) &&
         (forall k | 0 <= k < |ents| :: eq(ents[k].1, val) != Same) {
        var k :| 0 <= k < |ents| && eq(ents[k].1, val) == Incomparable;
        assert cs[k] == Incomparable;
        assert !AllDiffer(cs);
        assert forall j :: !DecidesAt(cs, j, Same);
        assert Scan(cs) != Hit && Scan(cs) != Miss;
        assert Scan(cs).Fail? && Scan(cs).fault != InvalidValue;
      }
    }
  }

  /** Hence visiting the same entries in another order (a permutation, or
      any sequence with the same members) cannot change the answer. */
  lemma ProbeMapOrderFree(eq: EqFn, render: Val -> string, ents1: seq<(Val, Val)>,
                          ents2: seq<(Val, Val)>, val: Val)
    requires IndirectInterface(val) != Nil
    requires forall e :: e in ents1 <==> e in ents2
    requires forall e | e in ents1 :: eq(e.1, val) != Incomparable
    ensures Probe(eq, render, Map(ents1), val) == Probe(eq, render, Map(ents2), val)
  {
    ProbeMap(eq, render, Map(ents1), val);
    ProbeMap(eq, render, Map(ents2), val);
  }

  /** A one-character string occurs only where that character does. */
  lemma CharNotSubstring(c: char, s: string)
    requires c !in s
    ensures !IsSubstring([c], s)
  {
    IsSubstringAt([c], s);
    forall k ensures !OccursAt([c], s, k) {
      if 0 <= k < |s| {
        assert s[k] in s;
        assert s[k..k + 1] == [s[k]];
      }
    }
  }

  /** The string scenarios of the repository's tests for contains, where
      %v prints a string verbatim. */
  lemma ContainsStringScenarios(eq: EqFn, render: Val -> string)
    requires forall s :: render(Str(s)) == s
    ensures Probe(eq, render, Str("hellox"), Str("x")) == Hit
    ensures Probe(eq, render, Str("hello"), Str("x")) == Miss
  {
    IsSubstringAt("x", "hellox");
    assert OccursAt("x", "hellox", 5);
    CharNotSubstring('x', "hello");
  }

  /** The slice scenarios, where eq compares strings by equality. */
  lemma ContainsSliceScenarios(eq: EqFn, render: Val -> string)
    requires EqAgreesOnScalars(eq)
    ensures Probe(eq, render, Seq([Str("y"), Str("x")]), Str("x")) == Hit
    ensures Probe(eq, render, Seq([Str("y"), Str("x")]), Str("z")) == Miss
    ensures Probe(eq, render, Ptr(Seq([Int(1), Int(2)])), Int(1)) == Hit
  {
    assert eq(Str("x"), Str("y")) == Differ && eq(Str("x"), Str("x")) == Same;
    assert eq(Str("z"), Str("y")) == Differ && eq(Str("z"), Str("x")) == Differ;
    assert ElemOutcomes(eq, Str("x"), [Str("y"), Str("x")]) == [Differ, Same];
    assert ElemOutcomes(eq, Str("z"), [Str("y"), Str("x")]) == [Differ, Differ];
    assert [Differ, Same][1..] == [Same] && [Differ, Differ][1..] == [Differ];
    assert eq(Int(1), Int(1)) == Same;
    assert ElemOutcomes(eq, Int(1), [Int(1), Int(2)])[0] == Same;
  }

  /** The map scenarios, where eq compares integers by equality. */
  lemma ContainsMapScenarios(eq: EqFn, render: Val -> string)
    requires EqAgreesOnScalars(eq)
    ensures Probe(eq, render, Map([(Int(0), Int(0)), (Int(1), Int(1))]), Int(1)) == Hit
    ensures Probe(eq, render, Map([(Int(0), Int(0)), (Int(1), Int(1))]), Int(2)) == Miss
  {
    assert eq(Int(0), Int(1)) == Differ && eq(Int(1), Int(1)) == Same;
    assert eq(Int(0), Int(2)) == Differ && eq(Int(1), Int(2)) == Differ;
    assert ValueOutcomes(eq, Int(1), [(Int(0), Int(0)), (Int(1), Int(1))]) == [Differ, Same];
    assert ValueOutcomes(eq, Int(2), [(Int(0), Int(0)), (Int(1), Int(1))]) == [Differ, Differ];
    assert [Differ, Same][1..] == [Same] && [Differ, Differ][1..] == [Differ];
  }

  /** Several targets in a map: {0:0, 1:1} lacks 2, so it does not hold
      all of 0, 1 and 2. */
  lemma ContainsMapOneMissingScenario(eq: EqFn, render: Val -> string)
    requires EqAgreesOnScalars(eq)
    ensures !ContainsAll(eq, render, Map([(Int(0), Int(0)), (Int(1), Int(1))]), [Int(0), Int(1), Int(2)])
  {
    var two := [(Int(0), Int(0)), (Int(1), Int(1))];
    assert eq(Int(0), Int(2)) == Differ && eq(Int(1), Int(2)) == Differ;
    assert ValueOutcomes(eq, Int(2), two) == [Differ, Differ];
    assert [Differ, Differ][1..] == [Differ];
    assert Probe(eq, render, Map(two), [Int(0), Int(1), Int(2)][2]) == Miss;
  }

  /** {0:0, 1:1, 2:2} holds every one of 0, 1 and 2. */
  lemma ContainsMapAllPresentScenario(eq: EqFn, render: Val -> string)
    requires EqAgreesOnScalars(eq)
    ensures ContainsAll(eq, render, Map([(Int(0), Int(0)), (Int(1), Int(1)), (Int(2), Int(2))]),
                        [Int(0), Int(1), Int(2)])
  {
    var three := [(Int(0), Int(0)), (Int(1), Int(1)), (Int(2), Int(2))];
    assert eq(Int(0), Int(0)) == Same;
    assert eq(Int(0), Int(1)) == Differ && eq(Int(1), Int(1)) == Same;
    assert eq(Int(0), Int(2)) == Differ && eq(Int(1), Int(2)) == Differ && eq(Int(2), Int(2)) == Same;
    assert ValueOutcomes(eq, Int(0), three)[0] == Same;
    assert eq(Int(2), Int(1)) == Differ;
    assert ValueOutcomes(eq, Int(1), three) == [Differ, Same, Differ];
    assert ValueOutcomes(eq, Int(2), three) == [Differ, Differ, Same];
    assert [Differ, Same, Differ][1..][0] == Same;
    assert [Differ, Differ, Same][1..] == [Differ, Same] && [Differ, Same][1..] == [Same];
    assert Probe(eq, render, Map(three), Int(0)) == Hit;
    assert Probe(eq, render, Map(three), Int(1)) == Hit;
    assert Probe(eq, render, Map(three), Int(2)) == Hit;
    assert forall i | 0 <= i < 3 :: [Int(0), Int(1), Int(2)][i] == Int(i);
  }

  /** A collection of a kind with no branch, here an integer, holds
      nothing. */
  lemma ContainsOtherKindScenario(eq: EqFn, render: Val -> string)
    ensures Probe(eq, render, Int(1), Int(1)) == Miss
  {
  }

  /** A nil collection or a nil target is invalid, so the check fails even
      where the nil target sits in a slice next to a nil element. */
  lemma ContainsNilScenarios(eq: EqFn, render: Val -> string)
    ensures Probe(eq, render, Nil, Nil) == Fail(InvalidValue)
    ensures Probe(eq, render, Seq([Iface(Int(1)), NilIface]), Nil) == Fail(InvalidValue)
  {
  }

  // ---------------------------------------------------------------------
  // Truthiness
  // ---------------------------------------------------------------------

  /** text/template's IsTrue: the pair (truth, ok), where ok says whether the
      kind has a truth value at all. A non-nil pointer or interface is true
      without being dereferenced; a struct is always true. */
  function TemplateIsTrue(v: Val): (r: (bool, bool))
    ensures !r.1 ==> !r.0
  {
    match v
    case Nil => (false, true)
    case Str(s) => (|s| > 0, true)
    case Seq(es) => (|es| > 0, true)
    case Map(ents) => (|ents| > 0, true)
    case Bool(b) => (b, true)
    case Int(n) => (n != 0, true)
    case Uint(u) => (u != 0, true)
    case Real(x) => (x != 0.0, true)
    case Ptr(_) => (true, true)
    case Iface(_) => (true, true)
    case NilPtr => (false, true)
    case NilIface => (false, true)
    case Struct => (true, true)
    case UnsafePointer => (false, false)
  }

  /** The values that carry no meaning: nil, the zero of a scalar, an empty
      string, slice or map, a nil pointer or interface, and a kind with no
      truth value. */
  predicate ZeroValue(v: Val) {
    v == Nil || v == Str("") || v == Int(0) || v == Uint(0) || v == Real(0.0) ||
    v == Bool(false) || v == Seq([]) || v == Map([]) || v == NilPtr || v == NilIface ||
    v == UnsafePointer
  }

  function IsTrue(v: Val): (r: bool)
    ensures r <==> !ZeroValue(v)
  {
    var (truth, ok) := TemplateIsTrue(v);
    truth && ok
  }

  function IsEmpty(v: Val): (r: bool)
    ensures r <==> ZeroValue(v)
  {
    !IsTrue(v)
  }

  /** A pointer is true even when what it points to is empty. */
  lemma PointerTruthDoesNotDereference(t: Val)
    ensures IsTrue(Ptr(t)) && IsTrue(Iface(t))
    ensures IsTrue(Ptr(Int(0))) && !IsTrue(Int(0))
  {
  }

  /** YesNo as written: the truth of its FIRST parameter picks vt or vf. */
  function YesNo(v: Val, vt: Val, vf: Val): (r: Val)
    ensures ZeroValue(v) ==> r == vf
    ensures !ZeroValue(v) ==> r == vt
  {
    if IsTrue(v) then vt else vf
  }

  /** YesNo as its doc comment describes it and as a template pipeline
      calls it ({{. | yesno "OK" "NOK"}} passes the data LAST): the truth of
      the last value picks the first or the second. */
  function YesNoAsDocumented(vt: Val, vf: Val, v: Val): (r: Val)
    ensures ZeroValue(v) ==> r == vf
    ensures !ZeroValue(v) ==> r == vt
    ensures r == YesNo(v, vt, vf)
  {
    if IsTrue(v) then vt else vf
  }

  /** The yesno tests with the pipeline's argument order, YesNo("OK",
      "NOK", data): the code as written tests "OK", which is always
      meaningful, and so answers "NOK" for every piped value, also for "ok",
      1 and true, where the tests expect "OK". */
  lemma YesNoPipelineAsWritten(data: Val)
    ensures YesNo(Str("OK"), Str("NOK"), data) == Str("NOK")
    ensures YesNo(Str("OK"), Str("NOK"), Str("ok")) != Str("OK")
    ensures YesNo(Str("OK"), Str("NOK"), Int(1)) != Str("OK")
    ensures YesNo(Str("OK"), Str("NOK"), Bool(true)) != Str("OK")
  {
    assert !ZeroValue(Str("OK"));
  }

  /** With the documented reading every yesno test gets its expected
      answer: "OK" for "ok", 1 and true, "NOK" for "", 0 and false. */
  lemma YesNoPipelineAsDocumented()
    ensures YesNoAsDocumented(Str("OK"), Str("NOK"), Str("ok")) == Str("OK")
    ensures YesNoAsDocumented(Str("OK"), Str("NOK"), Str("")) == Str("NOK")
    ensures YesNoAsDocumented(Str("OK"), Str("NOK"), Int(1)) == Str("OK")
    ensures YesNoAsDocumented(Str("OK"), Str("NOK"), Int(0)) == Str("NOK")
    ensures YesNoAsDocumented(Str("OK"), Str("NOK"), Bool(true)) == Str("OK")
    ensures YesNoAsDocumented(Str("OK"), Str("NOK"), Bool(false)) == Str("NOK")
  {
  }


  /** Default(df, v) is YesNo with v as its own "yes" value, and its result
      is meaningful iff v or the default is. */
  function Default(df: Val, v: Val): (r: Val)
    ensures r == YesNo(v, v, df)
    ensures r == YesNoAsDocumented(v, df, v)
    ensures IsTrue(r) <==> IsTrue(v) || IsTrue(df)
  {
    if IsEmpty(v) then df else v
  }

  /** Coalesce: the first meaningful argument, every earlier one being
      empty; nil when there is none. */
  method Coalesce(vs: seq<Val>) returns (r: Val)
    ensures (forall i | 0 <= i < |vs| :: IsEmpty(vs[i])) ==> r == Nil
    ensures (exists i | 0 <= i < |vs| :: IsTrue(vs[i])) ==>
      exists k | 0 <= k < |vs| :: r == vs[k] && IsTrue(r) && forall j | 0 <= j < k :: IsEmpty(vs[j])
  {
    for i := 0 to |vs|
      invariant forall j | 0 <= j < i :: IsEmpty(vs[j])
    {
      if IsTrue(vs[i]) {
        return vs[i];
      }
    }
    return Nil;
  }

  // ---------------------------------------------------------------------
  // File size
  // ---------------------------------------------------------------------

  datatype Unit = Bytes | KB | MB | GB | TB | PB

  /** The size of one unit, 1 << 10 for KB up to 1 << 50 for PB. */
  function Factor(u: Unit): real {
    match u
    case Bytes => 1.0
    case KB => 1024.0
    case MB => 1048576.0
    case GB => 1073741824.0
    case TB => 1099511627776.0
    case PB => 1125899906842624.0
  }

  /** The unit the if-chain picks: the largest one not above the size, and
      bytes for anything below 1 KB (negative sizes included). */
  function UnitFor(size: real): (u: Unit)
    ensures u != Bytes ==> Factor(u) <= size
    ensures u != PB ==> size < 1024.0 * Factor(u)
  {
    if size < Factor(KB) then Bytes
    else if size < Factor(MB) then KB
    else if size < Factor(GB) then MB
    else if size < Factor(TB) then GB
    else if size < Factor(PB) then TB
    else PB
  }

  /** The two bounds determine the unit: no other unit satisfies them. */
  lemma UnitForUnique(size: real, u: Unit)
    requires u != Bytes ==> Factor(u) <= size
    requires u != PB ==> size < 1024.0 * Factor(u)
    ensures u == UnitFor(size)
  {
  }

  /** A file size as FileSizeFormat would print it: the number of units and
      the unit. */
  datatype FileSize = FileSize(scaled: real, unit: Unit)

  /** The size FileSizeFormat reads from its argument: any integer or float
      kind; anything else has none. */
  function SizeOf(v: Val): (r: Option<real>)
    ensures r.Some? <==> v.Int? || v.Uint? || v.Real?
    ensures v.Uint? ==> r.value >= 0.0
  {
    match v
    case Int(n) => Some(n as real)
    case Uint(u) => Some(u as real)
    case Real(x) => Some(x)
    case _ => None
  }

  /** FileSizeFormat up to the final text: None where the helper returns the
      empty string, otherwise the scaled size and its unit. */
  function FileSizeFormat(v: Val): (r: Option<FileSize>)
    ensures r.None? <==> !(v.Int? || v.Uint? || v.Real?)
    ensures r.Some? ==> r.value.scaled * Factor(r.value.unit) == SizeOf(v).value
    ensures r.Some? && r.value.unit != PB ==> r.value.scaled < 1024.0
    ensures r.Some? && r.value.unit != Bytes ==> 1.0 <= r.value.scaled
  {
    match SizeOf(v)
    case None => None
    case Some(size) =>
      var u := UnitFor(size);
      Some(FileSize(size / Factor(u), u))
  }
}
