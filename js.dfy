/** The slice of JavaScript the engine relies on: values, truthiness, strict
    equality, conversion to string and number, property access, the relational
    operators and calls into code outside the engine. */
module Js {
  import opened Text

  datatype Option<+T> = None | Some(value: T)

  /** A JavaScript value. Numbers are integers. Arrays, plain objects,
      functions and regular expressions are objects: each carries an identity
      `id`, which is what strict equality compares for them. */
  datatype Value =
    | Undef
    | Null
    | Bool(b: bool)
    | Num(n: int)
    | Str(s: string)
    | Arr(id: nat, elems: seq<Value>)
    | Obj(id: nat, props: map<string, Value>)
    | Func(id: nat, arity: nat, source: string)
    | RegExp(id: nat, source: string, flags: string)
  {
    predicate IsObject() { Arr? || Obj? || Func? || RegExp? }

    predicate IsNullish() { Undef? || Null? }
  }

  /** The `message` of a thrown error. Only Literal texts are written by the
      engine's callers; the runtime's own wording of its errors is not
      modelled, so those texts are identified by where they arise. */
  datatype ErrText =
    | Literal(text: string)                    // `new Error(text)`
    | NullishRead(key: string)                 // TypeError: reading `key` of undefined or null
    | NotCallable(callee: string)              // TypeError: `callee` is not a function

  /** How an evaluation ends: with a value, or by throwing an error. */
  datatype Completion<+T> = Normal(value: T) | Throw(error: ErrText)
  {
    predicate IsFailure() { Throw? }

    function PropagateFailure<U>(): Completion<U>
      requires Throw?
    {
      Throw(error)
    }

    function Extract(): T
      requires Normal?
    {
      value
    }
  }

  /** What `moment(a)` answers about `b`: a invalid date on either side
      makes every comparison false. */
  datatype DateOrder = Before | Same | After | Invalid

  /** The code the engine calls but does not contain: user functions found
      in a schema, the date library and the regular-expression engine
      (`regexTest(source, flags, input)`, throwing for an invalid pattern). */
  datatype Host = Host(
    call: (Value, seq<Value>) -> Completion<Value>,
    dateOrder: (Value, Value) -> DateOrder,
    regexTest: (string, string, string) -> Completion<bool>)

  /** `!!v` */
  predicate Truthy(v: Value)
  {
    match v
    case Undef => false
    case Null => false
    case Bool(b) => b
    case Num(n) => n != 0
    case Str(s) => s != ""
    case _ => true
  }

  /** `a === b`: primitives by value, objects by identity. */
  predicate StrictEq(a: Value, b: Value)
  {
    match (a, b)
    case (Undef, Undef) => true
    case (Null, Null) => true
    case (Bool(x), Bool(y)) => x == y
    case (Num(x), Num(y)) => x == y
    case (Str(x), Str(y)) => x == y
    case (Arr(x, _), Arr(y, _)) => x == y
    case (Obj(x, _), Obj(y, _)) => x == y
    case (Func(x, _, _), Func(y, _, _)) => x == y
    case (RegExp(x, _, _), RegExp(y, _, _)) => x == y
    case _ => false
  }

  /** Strict equality is an equivalence that coincides with equality of
      values on primitives. */
  lemma StrictEqFacts(a: Value, b: Value, c: Value)
    ensures StrictEq(a, a)
    ensures StrictEq(a, b) ==> StrictEq(b, a)
    ensures StrictEq(a, b) && StrictEq(b, c) ==> StrictEq(a, c)
    ensures !a.IsObject() ==> (StrictEq(a, b) <==> a == b)
  {
  }

  function IntToString(n: int): (s: string)
    ensures |s| > 0
  {
    if n < 0 then "-" + NatToString(-n) else NatToString(n)
  }

  /** `String(v)` */
  function ToString(v: Value): string
  {
    match v
    case Undef => "undefined"
    case Null => "null"
    case Bool(b) => if b then "true" else "false"
    case Num(n) => IntToString(n)
    case Str(s) => s
    case Arr(_, es) =>
      if |es| == 0 then ""
      else Join(seq(|es|, i requires 0 <= i < |es| => if es[i].IsNullish() then "" else ToString(es[i])), ',')
    case Obj(_, _) => "[object Object]"
    case Func(_, _, source) => source
    case RegExp(_, source, flags) => "/" + source + "/" + flags
  }

  /** The characters ECMAScript trims before reading a number: white space
      and line terminators. */
  predicate IsSpace(c: char)
  {
    var k := c as int;
    k == 0x09 || k == 0x0A || k == 0x0B || k == 0x0C || k == 0x0D || k == 0x20 || k == 0xA0
    || k == 0x1680 || (0x2000 <= k <= 0x200A) || k == 0x2028 || k == 0x2029 || k == 0x202F
    || k == 0x205F || k == 0x3000 || k == 0xFEFF
  }

  function TrimStart(s: string): string
  {
    if |s| > 0 && IsSpace(s[0]) then TrimStart(s[1..]) else s
  }

  function TrimEnd(s: string): string
  {
    if |s| > 0 && IsSpace(s[|s| - 1]) then TrimEnd(s[..|s| - 1]) else s
  }

  datatype Number = NaN | Finite(n: int)

  /** Number(s) for a string: surrounding white space is ignored, the empty
      string is 0, and an optionally signed run of decimal digits is its
      value; anything else is NaN. */
  function StringToNumber(s: string): Number
  {
    var t := TrimEnd(TrimStart(s));
    if |t| == 0 then Finite(0)
    else if t[0] == '-' && |t| > 1 && AllDigits(t[1..]) then Finite(0 - ParseDigits(t[1..]) as int)
    else if t[0] == '+' && |t| > 1 && AllDigits(t[1..]) then Finite(ParseDigits(t[1..]))
    else if AllDigits(t) then Finite(ParseDigits(t))
    else NaN
  }

  /** `Number(v)`; an object goes through its string form. */
  function ToNumber(v: Value): Number
  {
    match v
    case Undef => NaN
    case Null => Finite(0)
    case Bool(b) => Finite(if b then 1 else 0)
    case Num(n) => Finite(n)
    case Str(s) => StringToNumber(s)
    case _ => StringToNumber(ToString(v))
  }

  /** Reading back the text of an integer gives the integer. */
  lemma NumberTextRoundTrip(n: int)
    ensures ToNumber(Str(IntToString(n))) == Finite(n)
  {
    if n < 0 {
      NegativeText(-n);
    } else {
      NaturalText(n);
    }
  }

  lemma NaturalText(k: nat)
    ensures StringToNumber(NatToString(k)) == Finite(k)
  {
    var s := NatToString(k);
    UntrimmedText(s);
    ParsePrint(k);
  }

  lemma NegativeText(k: nat)
    requires k > 0
    ensures StringToNumber("-" + NatToString(k)) == Finite(0 - k)
  {
    var digits := NatToString(k);
    var s := "-" + digits;
    assert s[|s| - 1] == digits[|digits| - 1];
    UntrimmedText(s);
    ParsePrint(k);
    assert s[1..] == digits;
  }

  /** A text that starts with a sign or a digit and ends with a digit has no
      white space to trim. */
  lemma UntrimmedText(s: string)
    requires |s| > 0 && (s[0] == '-' || IsDigit(s[0])) && IsDigit(s[|s| - 1])
    ensures TrimEnd(TrimStart(s)) == s
  {
    assert !IsSpace(s[0]) && !IsSpace(s[|s| - 1]);
  }

  /** The index named by a property key of an array or string of length n:
      a canonical numeral below n. */
  function IndexKey(key: string, n: nat): (r: Option<nat>)
    ensures r.Some? ==> r.value < n && NatToString(r.value) == key
    ensures r.None? ==> forall i :: 0 <= i < n ==> NatToString(i) != key
  {
    if Canonical(key) && ParseDigits(key) < n then
      PrintParse(key);
      Some(ParseDigits(key))
    else
      NoIndexKey(key, n);
      None
  }

  lemma NoIndexKey(key: string, n: nat)
    requires !(Canonical(key) && ParseDigits(key) < n)
    ensures forall i :: 0 <= i < n ==> NatToString(i) != key
  {
    forall i | 0 <= i < n
      ensures NatToString(i) != key
    {
      ParsePrint(i);
    }
  }

  /** `v[key]`: throws for undefined and null, finds own properties of plain
      objects, the length and the elements of arrays and strings, and the
      length (the declared parameter count) of a function; anything else
      reads as undefined. */
  function Prop(v: Value, key: string): (r: Completion<Value>)
    ensures r.Throw? <==> v.IsNullish()
    ensures v.Str? && key == "length" ==> r == Normal(Num(|v.s|))
    ensures v.Arr? && key == "length" ==> r == Normal(Num(|v.elems|))
    ensures v.Func? && key == "length" ==> r == Normal(Num(v.arity))
    ensures v.Obj? ==> r == Normal(if key in v.props then v.props[key] else Undef)
  {
    match v
    case Undef => Throw(NullishRead(key))
    case Null => Throw(NullishRead(key))
    case Obj(_, m) => Normal(if key in m then m[key] else Undef)
    case Arr(_, es) =>
      if key == "length" then Normal(Num(|es|))
      else (match IndexKey(key, |es|)
            case Some(i) => Normal(es[i])
            case None => Normal(Undef))
    case Str(s) =>
      if key == "length" then Normal(Num(|s|))
      else (match IndexKey(key, |s|)
            case Some(i) => Normal(Str([s[i]]))
            case None => Normal(Undef))
    case Func(_, arity, _) => Normal(if key == "length" then Num(arity) else Undef)
    case _ => Normal(Undef)
  }

  /** ToPrimitive with the number hint: an object becomes its string form. */
  function ToPrimitive(v: Value): (p: Value)
    ensures !p.IsObject()
  {
    if v.IsObject() then Str(ToString(v)) else v
  }

  /** The abstract relational comparison `x < y`; None is its undefined
      outcome, reached when either side converts to NaN. */
  function Compare(x: Value, y: Value): Option<bool>
  {
    var px, py := ToPrimitive(x), ToPrimitive(y);
    if px.Str? && py.Str? then Some(StrLess(px.s, py.s))
    else
      match (ToNumber(px), ToNumber(py))
      case (Finite(a), Finite(b)) => Some(a < b)
      case _ => None
  }

  /** `x < y` */
  predicate Lt(x: Value, y: Value) { Compare(x, y) == Some(true) }

  /** `x > y` */
  predicate Gt(x: Value, y: Value) { Compare(y, x) == Some(true) }

  /** `x <= y` */
  predicate Le(x: Value, y: Value) { Compare(y, x) == Some(false) }

  /** `x >= y` */
  predicate Ge(x: Value, y: Value) { Compare(x, y) == Some(false) }

  /** `callee(...args)`: a function runs in the host; calling anything else
      throws the given TypeError. */
  function Call(host: Host, callee: Value, args: seq<Value>, notCallable: ErrText): Completion<Value>
  {
    if callee.Func? then host.call(callee, args) else Throw(notCallable)
  }
}
