/** The primitive predicates the rules are built from: pattern matching,
    the comparison operators, list membership, type classification and
    duplicate detection (lib/utils.js). */
module Utils {
  import opened Text
  import opened Js

  /** The source and flags of `new RegExp(pattern)`: a regular expression is
      copied, undefined gives the empty pattern, anything else is compiled
      from its string form. */
  function PatternOf(pattern: Value): (string, string)
  {
    match pattern
    case RegExp(_, source, flags) => (source, flags)
    case Undef => ("", "")
    case _ => (ToString(pattern), "")
  }

  /** utils.match: `new RegExp(pattern).test(value)`. */
  function Match(host: Host, value: Value, pattern: Value): Completion<bool>
  {
    var (source, flags) := PatternOf(pattern);
    host.regexTest(source, flags, ToString(value))
  }

  /** `test` converts its argument to a string, so an absent value is tested
      as the text "undefined" and null as "null". */
  lemma MatchTestsText(host: Host, pattern: Value)
    ensures Match(host, Undef, pattern) == host.regexTest(PatternOf(pattern).0, PatternOf(pattern).1, "undefined")
    ensures Match(host, Null, pattern) == host.regexTest(PatternOf(pattern).0, PatternOf(pattern).1, "null")
  {
  }

  /** utils.lessThan: `a < b`. */
  function LessThan(a: Value, b: Value): (r: bool)
    ensures a.Num? && b.Num? ==> (r <==> a.n < b.n)
    ensures a.Str? && b.Str? ==> (r <==> StrLess(a.s, b.s))
  {
    Lt(a, b)
  }

  /** utils.lessOrEqualThan: `a <= b`. */
  function LessOrEqualThan(a: Value, b: Value): (r: bool)
    ensures a.Num? && b.Num? ==> (r <==> a.n <= b.n)
    ensures a.Str? && b.Str? ==> (r <==> StrLess(a.s, b.s) || a.s == b.s)
  {
    if a.Str? && b.Str? then StrLessTrichotomy(a.s, b.s); Le(a, b) else Le(a, b)
  }

  /** utils.greaterThan: `a > b`. */
  function GreaterThan(a: Value, b: Value): (r: bool)
    ensures a.Num? && b.Num? ==> (r <==> a.n > b.n)
    ensures a.Str? && b.Str? ==> (r <==> StrLess(b.s, a.s))
  {
    Gt(a, b)
  }

  /** utils.greaterOrEqualThan: `a >= b`. */
  function GreaterOrEqualThan(a: Value, b: Value): (r: bool)
    ensures a.Num? && b.Num? ==> (r <==> a.n >= b.n)
    ensures a.Str? && b.Str? ==> (r <==> StrLess(b.s, a.s) || a.s == b.s)
  {
    if a.Str? && b.Str? then StrLessTrichotomy(a.s, b.s); Ge(a, b) else Ge(a, b)
  }

  /** utils.equal: `a === b`. */
  function Equal(a: Value, b: Value): (r: bool)
    ensures !a.IsObject() ==> (r <==> a == b)
    ensures a.Arr? ==> (r <==> b.Arr? && b.id == a.id)
    ensures a.Obj? ==> (r <==> b.Obj? && b.id == a.id)
    ensures a.Func? ==> (r <==> b.Func? && b.id == a.id)
    ensures a.RegExp? ==> (r <==> b.RegExp? && b.id == a.id)
  {
    StrictEq(a, b)
  }

  /** When either side is not a number and not a numeral, every comparison
      is false; when both are numbers or both strings, `<=` is the negation of
      `>` and `>=` the negation of `<`. */
  lemma ComparisonsComplement(a: Value, b: Value)
    ensures ToNumber(ToPrimitive(a)) == NaN && !(ToPrimitive(a).Str? && ToPrimitive(b).Str?) ==>
      !LessThan(a, b) && !LessOrEqualThan(a, b) && !GreaterThan(a, b) && !GreaterOrEqualThan(a, b)
    ensures (a.Num? && b.Num?) || (a.Str? && b.Str?) ==>
      (LessOrEqualThan(a, b) <==> !GreaterThan(a, b)) && (GreaterOrEqualThan(a, b) <==> !LessThan(a, b))
  {
  }

  /** `es.indexOf(v)`: the first position holding a value strictly equal to
      v, or -1 when there is none. */
  function IndexOf(es: seq<Value>, v: Value): (r: int)
    ensures -1 <= r < |es|
    ensures r == -1 <==> forall i :: 0 <= i < |es| ==> !StrictEq(es[i], v)
    ensures r >= 0 ==> StrictEq(es[r], v) && forall i :: 0 <= i < r ==> !StrictEq(es[i], v)
  {
    if |es| == 0 then -1
    else if StrictEq(es[0], v) then 0
    else
      var r := IndexOf(es[1..], v);
      assert forall i :: 1 <= i < |es| ==> es[i] == es[1..][i - 1];
      if r == -1 then -1 else r + 1
  }

  /** utils.notIn: `!~arr.indexOf(value)`. An array is searched with strict
      equality, a string for the text of the value; anything else has no
      indexOf method to call. */
  function NotIn(value: Value, arr: Value): (r: Completion<bool>)
    ensures arr.Arr? ==> r == Normal(forall i :: 0 <= i < |arr.elems| ==> !StrictEq(arr.elems[i], value))
    ensures arr.Str? ==> r.Normal? && (r.value <==> !Occurs(arr.s, ToString(value)))
    ensures !arr.Arr? && !arr.Str? ==> r.Throw?
  {
    match arr
    case Arr(_, es) => Normal(IndexOf(es, value) == -1)
    case Str(s) =>
      var needle := ToString(value);
      ContainsMeaning(s, needle);
      Normal(!Contains(s, needle))
    case Undef => Throw(NullishRead("indexOf"))
    case Null => Throw(NullishRead("indexOf"))
    case _ => Throw(NotCallable("arr.indexOf"))
  }

  /** utils.checkType over the closed set of type names. */
  function CheckType(value: Value, t: Value): (r: bool)
    ensures t == Str("string") ==> (r <==> value.Str?)
    ensures t == Str("array") ==> (r <==> value.Arr?)
    ensures t == Str("number") ==> (r <==> ToNumber(value) != NaN)
    ensures t == Str("boolean") ==> (r <==> value == Bool(true) || value == Bool(false))
    ensures t != Str("string") && t != Str("array") && t != Str("number") && t != Str("boolean") ==> !r
  {
    if StrictEq(t, Str("string")) then value.Str?
    else if StrictEq(t, Str("array")) then value.Arr?
    else if StrictEq(t, Str("number")) then ToNumber(value).Finite?
    else if StrictEq(t, Str("boolean")) then StrictEq(value, Bool(true)) || StrictEq(value, Bool(false))
    else false
  }

  /** Every integer, and the text of every integer, is of type 'number'. */
  lemma IntegersAreNumbers(n: int)
    ensures CheckType(Num(n), Str("number"))
    ensures CheckType(Str(IntToString(n)), Str("number"))
  {
    NumberTextRoundTrip(n);
  }

  /** The value distinct compares for one entry: `entry[key]` when key is a
      non-empty string, otherwise the entry itself. */
  function Project(entry: Value, key: Value): Completion<Value>
  {
    if Truthy(key) && key.Str? then Prop(entry, key.s) else Normal(entry)
  }

  /** The position of the first entry whose projection throws, or |es|. */
  function FirstCrash(es: seq<Value>, key: Value): (c: nat)
    ensures c <= |es|
    ensures forall i :: 0 <= i < c ==> Project(es[i], key).Normal?
    ensures c < |es| ==> Project(es[c], key).Throw?
  {
    if |es| == 0 then 0
    else if Project(es[0], key).Throw? then 0
    else
      var c := FirstCrash(es[1..], key);
      assert forall i :: 1 <= i < |es| ==> es[i] == es[1..][i - 1];
      1 + c
  }

  function Projections(es: seq<Value>, key: Value): seq<Value>
    requires forall i :: 0 <= i < |es| ==> Project(es[i], key).Normal?
  {
    seq(|es|, i requires 0 <= i < |es| => Project(es[i], key).value)
  }

  /** No two values strictly equal. */
  predicate NoRepeats(ps: seq<Value>)
  {
    forall i, j :: 0 <= i < j < |ps| ==> !StrictEq(ps[i], ps[j])
  }

  /** What utils.distinct computes: false for a non-array; otherwise the
      entries are projected in order until the first projection that throws,
      a repeat among the projections read so far gives false, and if there is
      none the throw, or else true, is the outcome. */
  function DistinctOf(entries: Value, key: Value): Completion<bool>
  {
    if !entries.Arr? then Normal(false)
    else
      var es := entries.elems;
      var c := FirstCrash(es, key);
      if !NoRepeats(Projections(es[..c], key)) then Normal(false)
      else if c < |es| then Throw(Project(es[c], key).error)
      else Normal(true)
  }

  /** utils.distinct: a for-of loop that remembers the projections seen so
      far and returns false at the first repeat. */
  method Distinct(entries: Value, key: Value) returns (r: Completion<bool>)
    ensures r == DistinctOf(entries, key)
  {
    if !CheckType(entries, Str("array")) {
      return Normal(false);
    }
    var es := entries.elems;
    var foundValues: seq<Value> := [];
    for i := 0 to |es|
      invariant i <= FirstCrash(es, key)
      invariant foundValues == Projections(es[..i], key)
      invariant NoRepeats(foundValues)
    {
      var p := Project(es[i], key);
      if p.Throw? {
        DistinctThrowsAt(entries, key, i);
        return Throw(p.error);
      }
      var value := p.value;
      var found := IndexOf(foundValues, value);
      if found != -1 {
        DistinctStopsAtRepeat(entries, key, found, i);
        return Normal(false);
      }
      DistinctStep(es, key, i, foundValues);
      foundValues := foundValues + [value];
    }
    DistinctAllRead(entries, key);
    return Normal(true);
  }

  /** One pass of the loop body that neither throws nor finds a repeat keeps
      the loop invariant. */
  lemma DistinctStep(es: seq<Value>, key: Value, i: nat, foundValues: seq<Value>)
    requires i < |es| && i <= FirstCrash(es, key) && Project(es[i], key).Normal?
    requires foundValues == Projections(es[..i], key) && NoRepeats(foundValues)
    requires IndexOf(foundValues, Project(es[i], key).value) == -1
    ensures i + 1 <= FirstCrash(es, key)
    ensures foundValues + [Project(es[i], key).value] == Projections(es[..i + 1], key)
    ensures NoRepeats(foundValues + [Project(es[i], key).value])
  {
    NoRepeatsExtend(foundValues, Project(es[i], key).value);
  }

  lemma NoRepeatsExtend(ps: seq<Value>, v: Value)
    requires NoRepeats(ps) && IndexOf(ps, v) == -1
    ensures NoRepeats(ps + [v])
  {
    var qs := ps + [v];
    forall i, j | 0 <= i < j < |qs|
      ensures !StrictEq(qs[i], qs[j])
    {
      if j < |ps| {
        assert qs[i] == ps[i] && qs[j] == ps[j];
      } else {
        assert qs[i] == ps[i] && qs[j] == v;
      }
    }
  }

  lemma DistinctThrowsAt(entries: Value, key: Value, i: nat)
    requires entries.Arr? && i < |entries.elems| && i <= FirstCrash(entries.elems, key)
    requires Project(entries.elems[i], key).Throw?
    requires NoRepeats(Projections(entries.elems[..i], key))
    ensures DistinctOf(entries, key) == Throw(Project(entries.elems[i], key).error)
  {
    assert FirstCrash(entries.elems, key) == i;
  }

  lemma DistinctAllRead(entries: Value, key: Value)
    requires entries.Arr? && FirstCrash(entries.elems, key) == |entries.elems|
    requires NoRepeats(Projections(entries.elems[..|entries.elems|], key))
    ensures DistinctOf(entries, key) == Normal(true)
  {
  }

  /** On an array, distinct gives true exactly when every projection succeeds
      and no two projections are strictly equal; the empty array gives true
      and a non-array false. */
  lemma DistinctMeaning(entries: Value, key: Value)
    ensures !entries.Arr? ==> DistinctOf(entries, key) == Normal(false)
    ensures entries.Arr? && entries.elems == [] ==> DistinctOf(entries, key) == Normal(true)
    ensures entries.Arr? ==>
      (DistinctOf(entries, key) == Normal(true) <==>
        (forall i :: 0 <= i < |entries.elems| ==> Project(entries.elems[i], key).Normal?)
        && NoRepeats(Projections(entries.elems, key)))
  {
    if entries.Arr? {
      var es := entries.elems;
      var c := FirstCrash(es, key);
      if c == |es| {
        assert es[..c] == es;
      }
    }
  }

  /** A repeat among the first entries makes distinct false whatever the
      entries after it hold, even one that would throw. */
  lemma DistinctStopsAtRepeat(entries: Value, key: Value, i: nat, j: nat)
    requires entries.Arr? && i < j < |entries.elems|
    requires j <= FirstCrash(entries.elems, key) && Project(entries.elems[j], key).Normal?
    requires StrictEq(Project(entries.elems[i], key).value, Project(entries.elems[j], key).value)
    ensures DistinctOf(entries, key) == Normal(false)
  {
    var es := entries.elems;
    var c := FirstCrash(es, key);
    assert j < c;
    var ps := Projections(es[..c], key);
    assert ps[i] == Project(es[i], key).value && ps[j] == Project(es[j], key).value;
    assert !NoRepeats(ps);
  }
}
