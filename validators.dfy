/** The rule table (lib/validators.js): one validator per rule name, each
    called with the whole data, the field path and the rule's configuration
    value. A validator reads the field's value through the path reader and
    combines the primitive predicates; it answers true (satisfied), false,
    or throws. */
module Validators {
  import opened Text
  import opened Js
  import Utils
  import Charset
  import opened PathLookup

  /** The names registered in the validators object. */
  datatype Rule =
    | RequiredRule | TypeRule | PatternRule | ExactLengthRule | MinLengthRule | MaxLengthRule | LengthBetweenRule
    | LessThanRule | LessOrEqualThanRule | GreaterThanRule | GreaterOrEqualThanRule | EqualRule | NotEqualRule | AcceptedRule
    | AfterDateRule | BeforeDateRule | EqualDateRule | EqualOrBeforeDateRule | EqualOrAfterDateRule | BetweenDatesRule
    | AlphaRule | AlphaDashRule | AlphaNumericRule | EmailRule | UrlRule | IpRule | BetweenRule | BetweenStrictRule | DigitsRule
    | DistinctRule | InRule | NotInRule | RequiredWithRule | RequiredWithoutRule | RequiredIfRule

  /** `validators[name]`: the built-in registered under a name, if any. */
  function Lookup(name: string): Option<Rule>
  {
    var registry := map[
        "required" := Rule.RequiredRule, "type" := Rule.TypeRule, "pattern" := Rule.PatternRule,
        "exactLength" := Rule.ExactLengthRule, "minLength" := Rule.MinLengthRule, "maxLength" := Rule.MaxLengthRule,
        "lengthBetween" := Rule.LengthBetweenRule, "lessThan" := Rule.LessThanRule,
        "lessOrEqualThan" := Rule.LessOrEqualThanRule, "greaterThan" := Rule.GreaterThanRule,
        "greaterOrEqualThan" := Rule.GreaterOrEqualThanRule, "equal" := Rule.EqualRule,
        "notEqual" := Rule.NotEqualRule, "accepted" := Rule.AcceptedRule, "afterDate" := Rule.AfterDateRule,
        "beforeDate" := Rule.BeforeDateRule, "equalDate" := Rule.EqualDateRule,
        "equalOrBeforeDate" := Rule.EqualOrBeforeDateRule, "equalOrAfterDate" := Rule.EqualOrAfterDateRule,
        "betweenDates" := Rule.BetweenDatesRule, "alpha" := Rule.AlphaRule, "alphaDash" := Rule.AlphaDashRule,
        "alphaNumeric" := Rule.AlphaNumericRule, "email" := Rule.EmailRule, "url" := Rule.UrlRule, "ip" := Rule.IpRule,
        "between" := Rule.BetweenRule, "betweenStrict" := Rule.BetweenStrictRule, "digits" := Rule.DigitsRule,
        "distinct" := Rule.DistinctRule, "in" := Rule.InRule, "notIn" := Rule.NotInRule,
        "requiredWith" := Rule.RequiredWithRule, "requiredWithout" := Rule.RequiredWithoutRule,
        "requiredIf" := Rule.RequiredIfRule];
    if name in registry then Some(registry[name]) else None
  }

  /** The two fixed expressions handed to the regular-expression engine. */
  datatype FixedExpression = EmailAddress | WebAddress

  /** Their source text and flags. */
  function Expression(e: FixedExpression): Value
  {
    match e
    case EmailAddress =>
      RegExp(0, @"^[-a-z0-9~!$%^&*_=+}{\'?]+(\.[-a-z0-9~!$%^&*_=+}{\'?]+)*@([a-z0-9_][-a-z0-9_]*(\.[-a-z0-9_]+)*\.(aero|arpa|biz|com|coop|edu|gov|info|int|mil|museum|name|net|org|pro|travel|mobi|[a-z][a-z])|([0-9]{1,3}\.[0-9]{1,3}\.[0-9]{1,3}\.[0-9]{1,3}))(:[0-9]{1,5})?$", "i")
    case WebAddress =>
      RegExp(0, @"https?:\/\/(www\.)?[-a-zA-Z0-9@:%._\+~#=]{2,256}\.[a-z]{2,6}\b([-a-zA-Z0-9@:%_\+.~#?&//=]*)", "")
  }

  /** The list the accepted rule searches. */
  function AcceptedValues(): Value
  {
    Arr(0, [Str("yes"), Str("on"), Num(1), Bool(true)])
  }

  /** `!!get(data, field)` */
  predicate Present(data: Value, field: string)
  {
    Truthy(Resolve(data, field))
  }

  function Required(data: Value, field: string, config: Value): Completion<bool>
  {
    Normal(if !Truthy(config) then true else Present(data, field))
  }

  function Type(data: Value, field: string, config: Value): Completion<bool>
  {
    Normal(Utils.CheckType(Resolve(data, field), config))
  }

  function Pattern(host: Host, data: Value, field: string, config: Value): Completion<bool>
  {
    Utils.Match(host, Resolve(data, field), config)
  }

  function ExactLength(data: Value, field: string, config: Value): Completion<bool>
  {
    var len :- Prop(Resolve(data, field), "length");
    Normal(Utils.Equal(len, config))
  }

  function MinLength(data: Value, field: string, config: Value): Completion<bool>
  {
    var len :- Prop(Resolve(data, field), "length");
    Normal(Utils.GreaterOrEqualThan(len, config))
  }

  function MaxLength(data: Value, field: string, config: Value): Completion<bool>
  {
    var len :- Prop(Resolve(data, field), "length");
    Normal(Utils.LessOrEqualThan(len, config))
  }

  /** minLength with `config[0]` and, only when that holds, maxLength with
      `config[1]`. Once `config[0]` has been read, `config[1]` can be read too. */
  function LengthBetween(data: Value, field: string, config: Value): Completion<bool>
  {
    var lo :- Prop(config, "0");
    var atLeast :- MinLength(data, field, lo);
    if !atLeast then Normal(false)
    else MaxLength(data, field, Prop(config, "1").value)
  }

  function LessThan(data: Value, field: string, config: Value): Completion<bool>
  {
    Normal(Lt(Resolve(data, field), config))
  }

  function LessOrEqualThan(data: Value, field: string, config: Value): Completion<bool>
  {
    Normal(Le(Resolve(data, field), config))
  }

  function GreaterThan(data: Value, field: string, config: Value): Completion<bool>
  {
    Normal(Gt(Resolve(data, field), config))
  }

  function GreaterOrEqualThan(data: Value, field: string, config: Value): Completion<bool>
  {
    Normal(Ge(Resolve(data, field), config))
  }

  function Equal(data: Value, field: string, config: Value): Completion<bool>
  {
    Normal(StrictEq(Resolve(data, field), config))
  }

  function NotEqual(data: Value, field: string, config: Value): Completion<bool>
  {
    Normal(!StrictEq(Resolve(data, field), config))
  }

  function Accepted(data: Value, field: string): Completion<bool>
  {
    var absent :- Utils.NotIn(Resolve(data, field), AcceptedValues());
    Normal(!absent)
  }

  function AfterDate(host: Host, data: Value, field: string, config: Value): Completion<bool>
  {
    Normal(host.dateOrder(Resolve(data, field), config) == After)
  }

  function BeforeDate(host: Host, data: Value, field: string, config: Value): Completion<bool>
  {
    Normal(host.dateOrder(Resolve(data, field), config) == Before)
  }

  function EqualDate(host: Host, data: Value, field: string, config: Value): Completion<bool>
  {
    Normal(host.dateOrder(Resolve(data, field), config) == Same)
  }

  function EqualOrBeforeDate(host: Host, data: Value, field: string, config: Value): Completion<bool>
  {
    var order := host.dateOrder(Resolve(data, field), config);
    Normal(order == Same || order == Before)
  }

  function EqualOrAfterDate(host: Host, data: Value, field: string, config: Value): Completion<bool>
  {
    var order := host.dateOrder(Resolve(data, field), config);
    Normal(order == Same || order == After)
  }

  /** Strictly after `config[0]` and strictly before `config[1]`. */
  function BetweenDates(host: Host, data: Value, field: string, config: Value): Completion<bool>
  {
    var from :- Prop(config, "0");
    var to := Prop(config, "1").value;
    var v := Resolve(data, field);
    Normal(host.dateOrder(v, from) == After && host.dateOrder(v, to) == Before)
  }

  function Alpha(data: Value, field: string): Completion<bool>
  {
    Normal(Charset.IsAlpha(ToString(Resolve(data, field))))
  }

  function AlphaDash(data: Value, field: string): Completion<bool>
  {
    Normal(Charset.IsAlphaDash(ToString(Resolve(data, field))))
  }

  function AlphaNumeric(data: Value, field: string): Completion<bool>
  {
    Normal(Charset.IsAlphaNumeric(ToString(Resolve(data, field))))
  }

  function Email(host: Host, data: Value, field: string): Completion<bool>
  {
    Utils.Match(host, Resolve(data, field), Expression(EmailAddress))
  }

  function Url(host: Host, data: Value, field: string): Completion<bool>
  {
    Utils.Match(host, Resolve(data, field), Expression(WebAddress))
  }

  function Ip(data: Value, field: string): Completion<bool>
  {
    Normal(Charset.IsIPv4(ToString(Resolve(data, field))))
  }

  function Between(data: Value, field: string, config: Value): Completion<bool>
  {
    var v := Resolve(data, field);
    var lo :- Prop(config, "0");
    if !Utils.GreaterThan(v, lo) then Normal(false)
    else Normal(Utils.LessThan(v, Prop(config, "1").value))
  }

  function BetweenStrict(data: Value, field: string, config: Value): Completion<bool>
  {
    var v := Resolve(data, field);
    var lo :- Prop(config, "0");
    if !Utils.GreaterOrEqualThan(v, lo) then Normal(false)
    else Normal(Utils.LessOrEqualThan(v, Prop(config, "1").value))
  }

  /** Of type 'number', and its text is exactly `config` characters long. */
  function Digits(data: Value, field: string, config: Value): Completion<bool>
  {
    var v := Resolve(data, field);
    Normal(Utils.CheckType(v, Str("number")) && StrictEq(Num(|ToString(v)|), config))
  }

  function Distinct(data: Value, field: string, config: Value): Completion<bool>
  {
    Utils.DistinctOf(Resolve(data, field), config)
  }

  function In(data: Value, field: string, config: Value): Completion<bool>
  {
    var absent :- Utils.NotIn(Resolve(data, field), config);
    Normal(!absent)
  }

  function NotIn(data: Value, field: string, config: Value): Completion<bool>
  {
    Utils.NotIn(Resolve(data, field), config)
  }

  /** `list.reduce`: only an array has one. */
  function Reducible(list: Value): Completion<seq<Value>>
  {
    match list
    case Arr(_, es) => Normal(es)
    case Undef => Throw(NullishRead("reduce"))
    case Null => Throw(NullishRead("reduce"))
    case _ => Throw(NotCallable("rule.reduce"))
  }

  /** The fold of requiredWith, `prev || !!data[curr]`, which stops reading
      data once prev is true. */
  function AnyTruthy(data: Value, keys: seq<Value>, acc: bool): Completion<bool>
  {
    if |keys| == 0 then Normal(acc)
    else if acc then AnyTruthy(data, keys[1..], true)
    else
      var x :- Prop(data, ToString(keys[0]));
      AnyTruthy(data, keys[1..], Truthy(x))
  }

  /** The fold of requiredWithout, `prev && !!data[curr]`, which stops reading
      data once prev is false. */
  function AllTruthy(data: Value, keys: seq<Value>, acc: bool): Completion<bool>
  {
    if |keys| == 0 then Normal(acc)
    else if !acc then AllTruthy(data, keys[1..], false)
    else
      var x :- Prop(data, ToString(keys[0]));
      AllTruthy(data, keys[1..], Truthy(x))
  }

  function RequiredWith(data: Value, field: string, config: Value): Completion<bool>
  {
    var keys :- Reducible(config);
    var any :- AnyTruthy(data, keys, false);
    Normal(if any then Present(data, field) else true)
  }

  function RequiredWithout(data: Value, field: string, config: Value): Completion<bool>
  {
    var keys :- Reducible(config);
    var all :- AllTruthy(data, keys, true);
    Normal(if all then true else Present(data, field))
  }

  /** `config(data) === true ? required(data, field, true) : true` */
  function RequiredIf(host: Host, data: Value, field: string, config: Value): Completion<bool>
  {
    var answer :- Call(host, config, [data], NotCallable("rule"));
    if StrictEq(answer, Bool(true)) then Required(data, field, Bool(true)) else Normal(true)
  }

  /** The validator registered under `rule`, called as `(data, field, config)`. */
  function Eval(host: Host, rule: Rule, data: Value, field: string, config: Value): Completion<bool>
  {
    match rule
    case RequiredRule => Required(data, field, config)
    case TypeRule => Type(data, field, config)
    case PatternRule => Pattern(host, data, field, config)
    case ExactLengthRule => ExactLength(data, field, config)
    case MinLengthRule => MinLength(data, field, config)
    case MaxLengthRule => MaxLength(data, field, config)
    case LengthBetweenRule => LengthBetween(data, field, config)
    case LessThanRule => LessThan(data, field, config)
    case LessOrEqualThanRule => LessOrEqualThan(data, field, config)
    case GreaterThanRule => GreaterThan(data, field, config)
    case GreaterOrEqualThanRule => GreaterOrEqualThan(data, field, config)
    case EqualRule => Equal(data, field, config)
    case NotEqualRule => NotEqual(data, field, config)
    case AcceptedRule => Accepted(data, field)
    case AfterDateRule => AfterDate(host, data, field, config)
    case BeforeDateRule => BeforeDate(host, data, field, config)
    case EqualDateRule => EqualDate(host, data, field, config)
    case EqualOrBeforeDateRule => EqualOrBeforeDate(host, data, field, config)
    case EqualOrAfterDateRule => EqualOrAfterDate(host, data, field, config)
    case BetweenDatesRule => BetweenDates(host, data, field, config)
    case AlphaRule => Alpha(data, field)
    case AlphaDashRule => AlphaDash(data, field)
    case AlphaNumericRule => AlphaNumeric(data, field)
    case EmailRule => Email(host, data, field)
    case UrlRule => Url(host, data, field)
    case IpRule => Ip(data, field)
    case BetweenRule => Between(data, field, config)
    case BetweenStrictRule => BetweenStrict(data, field, config)
    case DigitsRule => Digits(data, field, config)
    case DistinctRule => Distinct(data, field, config)
    case InRule => In(data, field, config)
    case NotInRule => NotIn(data, field, config)
    case RequiredWithRule => RequiredWith(data, field, config)
    case RequiredWithoutRule => RequiredWithout(data, field, config)
    case RequiredIfRule => RequiredIf(host, data, field, config)
  }

  /** required: a falsy config is always satisfied; a truthy one holds
      exactly when the field's value is truthy. */
  lemma RequiredMeaning(data: Value, field: string, config: Value)
    ensures !Truthy(config) ==> Required(data, field, config) == Normal(true)
    ensures Truthy(config) ==> Required(data, field, config) == Normal(Present(data, field))
  {
  }

  /** The type rule classifies the field's value over the four type names
      and rejects every other name. */
  lemma TypeMeaning(data: Value, field: string, config: Value)
    ensures var v := Resolve(data, field);
      && Type(data, field, Str("string")) == Normal(v.Str?)
      && Type(data, field, Str("array")) == Normal(v.Arr?)
      && Type(data, field, Str("boolean")) == Normal(v == Bool(true) || v == Bool(false))
    ensures config != Str("string") && config != Str("array") && config != Str("number") && config != Str("boolean") ==>
      Type(data, field, config) == Normal(false)
  {
  }

  /** The pattern rule tests the text of the field's value, so an absent
      field is tested as the text "undefined" and null as "null". */
  lemma PatternTestsText(host: Host, data: Value, field: string, config: Value)
    ensures Resolve(data, field) == Undef ==>
      Pattern(host, data, field, config) == host.regexTest(Utils.PatternOf(config).0, Utils.PatternOf(config).1, "undefined")
    ensures Resolve(data, field) == Null ==>
      Pattern(host, data, field, config) == host.regexTest(Utils.PatternOf(config).0, Utils.PatternOf(config).1, "null")
  {
    Utils.MatchTestsText(host, config);
  }

  /** The distinct rule is false on a field that is not an array, and on an
      array true exactly when every projection succeeds and no two are
      strictly equal. */
  lemma DistinctRuleMeaning(data: Value, field: string, key: Value)
    ensures !Resolve(data, field).Arr? ==> Distinct(data, field, key) == Normal(false)
    ensures var v := Resolve(data, field);
      v.Arr? ==>
        (Distinct(data, field, key) == Normal(true) <==>
          (forall i :: 0 <= i < |v.elems| ==> Utils.Project(v.elems[i], key).Normal?)
          && Utils.NoRepeats(Utils.Projections(v.elems, key)))
  {
    Utils.DistinctMeaning(Resolve(data, field), key);
  }

  /** The rules built only on truthiness, comparison, equality, type, the
      date library and the character classes. */
  predicate NeverThrows(rule: Rule)
  {
    match rule
    case RequiredRule | TypeRule | LessThanRule | LessOrEqualThanRule | GreaterThanRule | GreaterOrEqualThanRule | EqualRule
      | NotEqualRule | AcceptedRule | AfterDateRule | BeforeDateRule | EqualDateRule | EqualOrBeforeDateRule
      | EqualOrAfterDateRule | AlphaRule | AlphaDashRule | AlphaNumericRule | IpRule | DigitsRule => true
    case _ => false
  }

  /** Those rules answer on every input: they never throw. */
  lemma TotalRules(host: Host, rule: Rule, data: Value, field: string, config: Value)
    requires NeverThrows(rule)
    ensures Eval(host, rule, data, field, config).Normal?
  {
    if rule == Rule.AcceptedRule {
      AcceptedSearch(Resolve(data, field));
    }
  }

  /** The length rules read `.length`, which throws on an absent or null
      value; lengthBetween throws too, whichever read comes first. */
  lemma LengthRulesThrowOnAbsent(data: Value, field: string, config: Value)
    requires Resolve(data, field).IsNullish()
    ensures ExactLength(data, field, config) == Throw(NullishRead("length"))
    ensures MinLength(data, field, config) == Throw(NullishRead("length"))
    ensures MaxLength(data, field, config) == Throw(NullishRead("length"))
    ensures LengthBetween(data, field, config).Throw?
  {
  }

  /** The length of a string or an array, or the parameter count of a
      function. */
  function LengthOf(v: Value): nat
    requires v.Str? || v.Arr? || v.Func?
  {
    if v.Str? then |v.s| else if v.Arr? then |v.elems| else v.arity
  }

  /** On strings, arrays and functions with a numeric bound, exactLength,
      minLength and maxLength compare the length with =, >= and <=. */
  lemma LengthRulesMeaning(data: Value, field: string, k: int)
    requires Resolve(data, field).Str? || Resolve(data, field).Arr? || Resolve(data, field).Func?
    ensures ExactLength(data, field, Num(k)) == Normal(LengthOf(Resolve(data, field)) == k)
    ensures MinLength(data, field, Num(k)) == Normal(LengthOf(Resolve(data, field)) >= k)
    ensures MaxLength(data, field, Num(k)) == Normal(LengthOf(Resolve(data, field)) <= k)
  {
  }

  /** A number, a boolean or a regular expression has no length, and
      `undefined` compared with a number is false, so the length rules fail
      on such a value. A missing lower bound makes lengthBetween fail on any
      value that has properties at all. */
  lemma LengthRulesWithoutLength(data: Value, field: string, k: int, id: nat)
    ensures var v := Resolve(data, field);
      v.Num? || v.Bool? || v.RegExp? ==>
        ExactLength(data, field, Num(k)) == Normal(false)
        && MinLength(data, field, Num(k)) == Normal(false)
        && MaxLength(data, field, Num(k)) == Normal(false)
    ensures !Resolve(data, field).IsNullish() ==> LengthBetween(data, field, Arr(id, [])) == Normal(false)
  {
    var v := Resolve(data, field);
    assert ToNumber(Undef) == NaN;
    if v.Num? || v.Bool? || v.RegExp? {
      assert Prop(v, "length") == Normal(Undef);
    }
    if !v.IsNullish() {
      assert Prop(Arr(id, []), "0") == Normal(Undef);
      assert !Utils.GreaterOrEqualThan(Prop(v, "length").value, Undef);
    }
  }

  /** lengthBetween is minLength with the first bound followed, when that
      holds, by maxLength with the second bound. */
  lemma LengthBetweenIsMinThenMax(data: Value, field: string, config: Value)
    requires !config.IsNullish()
    ensures var lo, hi := Prop(config, "0").value, Prop(config, "1").value;
      LengthBetween(data, field, config) ==
        match MinLength(data, field, lo)
        case Throw(e) => Throw(e)
        case Normal(atLeast) => if atLeast then MaxLength(data, field, hi) else Normal(false)
  {
  }

  /** With both bounds given, lengthBetween holds when lo <= length <= hi;
      with the upper bound missing the `<= undefined` comparison is false, so
      it never holds. */
  lemma LengthBetweenMeaning(data: Value, field: string, lo: int, hi: int, id: nat)
    requires Resolve(data, field).Str? || Resolve(data, field).Arr? || Resolve(data, field).Func?
    ensures LengthBetween(data, field, Arr(id, [Num(lo), Num(hi)]))
      == Normal(lo <= LengthOf(Resolve(data, field)) <= hi)
    ensures LengthBetween(data, field, Arr(id, [Num(lo)])) == Normal(false)
  {
    var two, one := Arr(id, [Num(lo), Num(hi)]), Arr(id, [Num(lo)]);
    assert NatToString(0) == "0" && NatToString(1) == "1";
    assert Prop(two, "0") == Normal(Num(lo)) && Prop(two, "1") == Normal(Num(hi));
    assert Prop(one, "0") == Normal(Num(lo)) && Prop(one, "1") == Normal(Undef);
  }

  /** With two bounds, between is greaterThan the first and lessThan the
      second, and betweenStrict the same with the non-strict comparisons, for
      any kind of value. On numbers with numeric bounds, between is
      therefore exclusive on both ends and betweenStrict inclusive. */
  lemma BetweenMeaning(data: Value, field: string, lo: Value, hi: Value, id: nat)
    ensures var v := Resolve(data, field);
      Between(data, field, Arr(id, [lo, hi])) == Normal(Utils.GreaterThan(v, lo) && Utils.LessThan(v, hi))
    ensures var v := Resolve(data, field);
      BetweenStrict(data, field, Arr(id, [lo, hi])) == Normal(Utils.GreaterOrEqualThan(v, lo) && Utils.LessOrEqualThan(v, hi))
    ensures var v := Resolve(data, field);
      v.Num? && lo.Num? && hi.Num? ==> Between(data, field, Arr(id, [lo, hi])) == Normal(lo.n < v.n < hi.n)
    ensures var v := Resolve(data, field);
      v.Num? && lo.Num? && hi.Num? ==> BetweenStrict(data, field, Arr(id, [lo, hi])) == Normal(lo.n <= v.n <= hi.n)
  {
    var bounds := Arr(id, [lo, hi]);
    assert NatToString(0) == "0" && NatToString(1) == "1";
    assert Prop(bounds, "0") == Normal(lo) && Prop(bounds, "1") == Normal(hi);
  }

  /** equal and notEqual answer opposite values; on a primitive value equal
      holds exactly when the configured value is the same value. */
  lemma EqualityRules(data: Value, field: string, config: Value)
    ensures Equal(data, field, config).value == !NotEqual(data, field, config).value
    ensures !Resolve(data, field).IsObject() ==> Equal(data, field, config) == Normal(Resolve(data, field) == config)
  {
    StrictEqFacts(Resolve(data, field), config, config);
  }

  /** The comparison rules agree with the comparison predicates of utils on
      the field's value. */
  lemma ComparisonRulesAgree(data: Value, field: string, config: Value)
    ensures LessThan(data, field, config) == Normal(Utils.LessThan(Resolve(data, field), config))
    ensures LessOrEqualThan(data, field, config) == Normal(Utils.LessOrEqualThan(Resolve(data, field), config))
    ensures GreaterThan(data, field, config) == Normal(Utils.GreaterThan(Resolve(data, field), config))
    ensures GreaterOrEqualThan(data, field, config) == Normal(Utils.GreaterOrEqualThan(Resolve(data, field), config))
  {
  }

  /** For the same list, in and notIn throw together or answer opposite
      values. */
  lemma InNotInOpposite(data: Value, field: string, list: Value)
    ensures In(data, field, list).Throw? <==> NotIn(data, field, list).Throw?
    ensures In(data, field, list).Normal? ==> In(data, field, list).value == !NotIn(data, field, list).value
  {
  }

  /** in over an array holds exactly when some element is strictly equal to
      the field's value. */
  lemma InMeaning(data: Value, field: string, id: nat, list: seq<Value>)
    ensures In(data, field, Arr(id, list))
      == Normal(exists i :: 0 <= i < |list| && StrictEq(list[i], Resolve(data, field)))
  {
  }

  /** accepted holds exactly for "yes", "on", 1 and true. */
  lemma AcceptedMeaning(data: Value, field: string)
    ensures var v := Resolve(data, field);
      Accepted(data, field) == Normal(v == Str("yes") || v == Str("on") || v == Num(1) || v == Bool(true))
  {
    AcceptedSearch(Resolve(data, field));
  }

  lemma AcceptedSearch(v: Value)
    ensures Utils.NotIn(v, AcceptedValues()) == Normal(!(v == Str("yes") || v == Str("on") || v == Num(1) || v == Bool(true)))
  {
    var es := AcceptedValues().elems;
    assert es == [Str("yes"), Str("on"), Num(1), Bool(true)];
    StrictEqFacts(es[0], v, v);
    StrictEqFacts(es[1], v, v);
    StrictEqFacts(es[2], v, v);
    StrictEqFacts(es[3], v, v);
    assert (forall i :: 0 <= i < |es| ==> !StrictEq(es[i], v))
      <==> !StrictEq(es[0], v) && !StrictEq(es[1], v) && !StrictEq(es[2], v) && !StrictEq(es[3], v);
  }

  /** The inclusive date rules are the strict rule or equality, and after
      and before exclude each other. */
  lemma DateRulesCompose(host: Host, data: Value, field: string, config: Value)
    ensures EqualOrBeforeDate(host, data, field, config).value
      == (EqualDate(host, data, field, config).value || BeforeDate(host, data, field, config).value)
    ensures EqualOrAfterDate(host, data, field, config).value
      == (EqualDate(host, data, field, config).value || AfterDate(host, data, field, config).value)
    ensures !(AfterDate(host, data, field, config).value && BeforeDate(host, data, field, config).value)
  {
  }

  /** betweenDates with two bounds is afterDate of the first and beforeDate
      of the second: both ends excluded. */
  lemma BetweenDatesMeaning(host: Host, data: Value, field: string, id: nat, from: Value, to: Value)
    ensures BetweenDates(host, data, field, Arr(id, [from, to]))
      == Normal(AfterDate(host, data, field, from).value && BeforeDate(host, data, field, to).value)
  {
    var bounds := Arr(id, [from, to]);
    assert NatToString(0) == "0" && NatToString(1) == "1";
    assert Prop(bounds, "0") == Normal(from) && Prop(bounds, "1") == Normal(to);
  }

  /** The three character classes nest: alpha implies alphaNumeric implies
      alphaDash. */
  lemma CharacterRulesNest(data: Value, field: string)
    ensures Alpha(data, field) == Normal(true) ==> AlphaNumeric(data, field) == Normal(true)
    ensures AlphaNumeric(data, field) == Normal(true) ==> AlphaDash(data, field) == Normal(true)
  {
    Charset.CharsetsNest(ToString(Resolve(data, field)));
  }

  /** `data[key]` is truthy; false when data cannot be read. */
  predicate KeyTruthy(data: Value, key: Value)
  {
    var x := Prop(data, ToString(key));
    x.Normal? && Truthy(x.value)
  }

  /** Some listed top-level key of data is truthy. */
  ghost predicate SomeKeyTruthy(data: Value, keys: seq<Value>)
  {
    exists i :: 0 <= i < |keys| && KeyTruthy(data, keys[i])
  }

  /** Every listed top-level key of data is truthy. */
  ghost predicate EveryKeyTruthy(data: Value, keys: seq<Value>)
  {
    forall i :: 0 <= i < |keys| ==> KeyTruthy(data, keys[i])
  }

  /** On data that can be read, the requiredWith fold computes "the seed or
      some key truthy". */
  lemma {:induction false} AnyTruthyFold(data: Value, keys: seq<Value>, acc: bool)
    requires !data.IsNullish()
    ensures AnyTruthy(data, keys, acc) == Normal(acc || SomeKeyTruthy(data, keys))
  {
    if |keys| > 0 {
      var x := Prop(data, ToString(keys[0]));
      AnyTruthyFold(data, keys[1..], if acc then true else Truthy(x.value));
      if SomeKeyTruthy(data, keys[1..]) {
        var i :| 0 <= i < |keys[1..]| && KeyTruthy(data, keys[1..][i]);
        assert KeyTruthy(data, keys[i + 1]);
      }
      if SomeKeyTruthy(data, keys) {
        var i :| 0 <= i < |keys| && KeyTruthy(data, keys[i]);
        if i > 0 {
          assert KeyTruthy(data, keys[1..][i - 1]);
        }
      }
    }
  }

  /** On data that can be read, the requiredWithout fold computes "the seed
      and every key truthy". */
  lemma {:induction false} AllTruthyFold(data: Value, keys: seq<Value>, acc: bool)
    requires !data.IsNullish()
    ensures AllTruthy(data, keys, acc) == Normal(acc && EveryKeyTruthy(data, keys))
  {
    if |keys| > 0 {
      var x := Prop(data, ToString(keys[0]));
      AllTruthyFold(data, keys[1..], if !acc then false else Truthy(x.value));
      if EveryKeyTruthy(data, keys) {
        forall i | 0 <= i < |keys[1..]|
          ensures KeyTruthy(data, keys[1..][i])
        {
          assert keys[1..][i] == keys[i + 1];
        }
      }
      if KeyTruthy(data, keys[0]) && EveryKeyTruthy(data, keys[1..]) {
        forall i | 0 <= i < |keys|
          ensures KeyTruthy(data, keys[i])
        {
          if i > 0 {
            assert keys[i] == keys[1..][i - 1];
          }
        }
      }
    }
  }

  /** requiredWith: when some listed top-level key of data is truthy the field
      must be truthy, otherwise the rule holds; an empty list always holds. */
  lemma RequiredWithMeaning(data: Value, field: string, id: nat, keys: seq<Value>)
    requires !data.IsNullish()
    ensures RequiredWith(data, field, Arr(id, keys))
      == Normal(if SomeKeyTruthy(data, keys) then Present(data, field) else true)
  {
    AnyTruthyFold(data, keys, false);
  }

  /** requiredWithout: when every listed top-level key of data is truthy the
      rule holds, otherwise the field must be truthy. */
  lemma RequiredWithoutMeaning(data: Value, field: string, id: nat, keys: seq<Value>)
    requires !data.IsNullish()
    ensures RequiredWithout(data, field, Arr(id, keys))
      == Normal(if EveryKeyTruthy(data, keys) then true else Present(data, field))
  {
    AllTruthyFold(data, keys, true);
  }

  /** requiredWith and requiredWithout with an empty list read nothing and
      hold, even on absent data; with a non-empty list on absent or null data
      they throw; with a configuration that is not an array they throw. */
  lemma CrossFieldErrors(data: Value, field: string, config: Value, id: nat, keys: seq<Value>)
    ensures RequiredWith(data, field, Arr(id, [])) == Normal(true)
    ensures RequiredWithout(data, field, Arr(id, [])) == Normal(true)
    ensures data.IsNullish() && keys != [] ==> RequiredWith(data, field, Arr(id, keys)).Throw?
    ensures data.IsNullish() && keys != [] ==> RequiredWithout(data, field, Arr(id, keys)).Throw?
    ensures !config.Arr? ==> RequiredWith(data, field, config).Throw? && RequiredWithout(data, field, config).Throw?
  {
  }

  /** requiredIf: when the predicate, given the whole data, returns exactly
      true the rule is required(true); any other answer satisfies it; a
      predicate that throws, or a config that is not a function, throws. */
  lemma RequiredIfMeaning(host: Host, data: Value, field: string, config: Value)
    ensures !config.Func? ==> RequiredIf(host, data, field, config) == Throw(NotCallable("rule"))
    ensures config.Func? && host.call(config, [data]) == Normal(Bool(true)) ==>
      RequiredIf(host, data, field, config) == Normal(Present(data, field))
    ensures config.Func? && host.call(config, [data]).Normal? && host.call(config, [data]) != Normal(Bool(true)) ==>
      RequiredIf(host, data, field, config) == Normal(true)
    ensures config.Func? && host.call(config, [data]).Throw? ==>
      RequiredIf(host, data, field, config) == Throw(host.call(config, [data]).error)
  {
    if config.Func? && host.call(config, [data]).Normal? {
      StrictEqFacts(host.call(config, [data]).value, Bool(true), Bool(true));
    }
  }

  /** digits on an integer of either sign holds exactly when its decimal
      text, minus sign included, has the configured number of characters; on
      a string, exactly when the string converts to a number and has that
      many characters; a configuration that is not a number never holds. */
  lemma DigitsMeaning(data: Value, field: string, config: Value)
    ensures var v := Resolve(data, field);
      v.Num? && config.Num? ==> Digits(data, field, config) == Normal(|IntToString(v.n)| == config.n)
    ensures var v := Resolve(data, field);
      v.Str? && config.Num? ==> Digits(data, field, config) == Normal(StringToNumber(v.s) != NaN && |v.s| == config.n)
    ensures !config.Num? ==> Digits(data, field, config) == Normal(false)
  {
  }

  /** ip holds for the dotted quad of four numbers exactly when each is at
      most 255. */
  lemma IpMeaning(data: Value, field: string, a: nat, b: nat, c: nat, d: nat)
    requires Resolve(data, field) == Str(Charset.Dotted(a, b, c, d))
    ensures Ip(data, field) == Normal(a <= 255 && b <= 255 && c <= 255 && d <= 255)
  {
    Charset.DottedIsIPv4(a, b, c, d);
  }
}
