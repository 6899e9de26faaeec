/** The verification engine (lib/main.js): for every field of the schema and
    every rule of that field, pick the validator, run it on the data and,
    when it fails or throws, record one failure carrying the field and a
    message. */
module Engine {
  import opened Js
  import Validators
  import Messages

  /** A field's rule set as `Object.keys(rules)` enumerates it, each name with
      its configuration value `rules[name]`. */
  type RuleSet = seq<(string, Value)>

  /** The schema as `Object.keys(schema)` enumerates it. */
  type Schema = seq<(string, RuleSet)>

  /** One entry of the returned errors array. */
  datatype Failure = Failure(field: string, message: ErrText)

  /** The validator the engine settles on for a rule name. */
  datatype Validator = Builtin(rule: Validators.Rule) | Custom(fn: Value) | Noop

  /** A built-in registered under the name comes first, then a function given
      as the rule's value, and otherwise the no-op that always passes. */
  function Select(ruleType: string, config: Value): Validator
  {
    match Validators.Lookup(ruleType)
    case Some(rule) => Builtin(rule)
    case None => if config.Func? then Custom(config) else Noop
  }

  /** `validator(data, fieldName, config)`, read as a boolean. */
  function Run(host: Host, validator: Validator, data: Value, field: string, config: Value): Completion<bool>
  {
    match validator
    case Builtin(rule) => Validators.Eval(host, rule, data, field, config)
    case Custom(fn) =>
      var answer :- host.call(fn, [data, Str(field), config]);
      Normal(Truthy(answer))
    case Noop => Normal(true)
  }

  /** `x || {}` */
  function OrEmpty(x: Value): (r: Value)
    ensures !r.IsNullish()
  {
    if Truthy(x) then x else Obj(0, map[])
  }

  /** `(messages[field] || {})[ruleType]`, for messages already defaulted. */
  function Override(messages: Value, field: string, ruleType: string): Value
    requires !messages.IsNullish()
  {
    Prop(OrEmpty(Prop(messages, field).value), ruleType).value
  }

  /** The message recorded for a rule that answered falsy: the text of a
      truthy override, or else the error thrown by calling the default entry. */
  function FailureMessage(host: Host, messages: Value, field: string, ruleType: string, config: Value): ErrText
    requires !messages.IsNullish()
  {
    var text := Override(messages, field, ruleType);
    if Truthy(text) then Literal(ToString(text))
    else Messages.DefaultMessage(host, ruleType, field, config).error
  }

  /** A truthy override is the message, text and all; without one the
      message is the runtime's complaint that the default entry cannot be
      called, whatever the rule and whether or not the table has a text for it. */
  lemma FailureMessageChoice(host: Host, messages: Value, field: string, ruleType: string, config: Value)
    requires !messages.IsNullish()
    ensures Truthy(Override(messages, field, ruleType)) ==>
      FailureMessage(host, messages, field, ruleType, config) == Literal(ToString(Override(messages, field, ruleType)))
    ensures !Truthy(Override(messages, field, ruleType)) ==>
      FailureMessage(host, messages, field, ruleType, config) == NotCallable("defaults[ruleType]")
  {
  }

  /** The failures one (field, rule) pair records: none when the validator
      answers truthy, the thrown message when it throws, and the failure
      message when it answers falsy. */
  function PairFailures(host: Host, data: Value, messages: Value, field: string, ruleType: string, config: Value): (r: seq<Failure>)
    requires !messages.IsNullish()
    ensures |r| <= 1
    ensures forall k :: 0 <= k < |r| ==> r[k].field == field
    ensures r == [] <==> Run(host, Select(ruleType, config), data, field, config) == Normal(true)
  {
    match Run(host, Select(ruleType, config), data, field, config)
    case Throw(e) => [Failure(field, e)]
    case Normal(ok) => if ok then [] else [Failure(field, FailureMessage(host, messages, field, ruleType, config))]
  }

  /** What the per-rule callback records for a (field, rule name, rule value)
      triple. */
  type PairCheck = (string, string, Value) -> seq<Failure>

  /** The per-rule callback of `verify`, with the data and the defaulted
      messages fixed. */
  function Recorder(host: Host, data: Value, messages: Value): PairCheck
    requires !messages.IsNullish()
  {
    (field, ruleType, config) => PairFailures(host, data, messages, field, ruleType, config)
  }

  /** The failures of one field's rules, in rule order. */
  function Gather(check: PairCheck, field: string, rules: RuleSet): seq<Failure>
  {
    if |rules| == 0 then []
    else
      var (ruleType, config) := rules[|rules| - 1];
      Gather(check, field, rules[..|rules| - 1]) + check(field, ruleType, config)
  }

  /** The failures of the whole schema, field by field. */
  function GatherAll(check: PairCheck, schema: Schema): seq<Failure>
  {
    if |schema| == 0 then []
    else
      var (field, rules) := schema[|schema| - 1];
      GatherAll(check, schema[..|schema| - 1]) + Gather(check, field, rules)
  }

  /** The errors array `verify` returns, for messages already defaulted. */
  function Report(host: Host, data: Value, schema: Schema, messages: Value): seq<Failure>
    requires !messages.IsNullish()
  {
    GatherAll(Recorder(host, data, messages), schema)
  }

  /** The validator choice of the per-rule callback: the no-op, replaced by
      a registered built-in or else by a function-valued configuration. */
  method ChooseValidator(ruleType: string, config: Value) returns (validator: Validator)
    ensures validator == Select(ruleType, config)
  {
    validator := Noop;
    if Validators.Lookup(ruleType).Some? {
      validator := Builtin(Validators.Lookup(ruleType).value);
    } else if config.Func? {
      validator := Custom(config);
    }
  }

  /** The message of the error thrown for a failed rule: the override when
      it is truthy, otherwise whatever calling the default entry throws. */
  method FailedRuleMessage(host: Host, msgs: Value, fieldName: string, ruleType: string, config: Value)
    returns (message: ErrText)
    requires !msgs.IsNullish()
    ensures message == FailureMessage(host, msgs, fieldName, ruleType, config)
  {
    var fieldMessages := OrEmpty(Prop(msgs, fieldName).value);
    var text := Prop(fieldMessages, ruleType).value;
    FailureMessageChoice(host, msgs, fieldName, ruleType, config);
    if Truthy(text) {
      message := Literal(ToString(text));
    } else {
      var thrown := Messages.DefaultMessage(host, ruleType, fieldName, config);
      message := thrown.error;
    }
  }

  /** The per-rule callback: run the chosen validator and produce the
      failure it pushes, if any. */
  method CheckRule(host: Host, data: Value, msgs: Value, fieldName: string, ruleType: string, config: Value)
    returns (found: seq<Failure>)
    requires !msgs.IsNullish()
    ensures found == PairFailures(host, data, msgs, fieldName, ruleType, config)
  {
    var validator := ChooseValidator(ruleType, config);
    var outcome := Run(host, validator, data, fieldName, config);
    match outcome {
      case Throw(e) =>
        found := [Failure(fieldName, e)];
      case Normal(ok) =>
        found := [];
        if !ok {
          var message := FailedRuleMessage(host, msgs, fieldName, ruleType, config);
          found := [Failure(fieldName, message)];
        }
    }
  }

  lemma GatherStep(check: PairCheck, field: string, rules: RuleSet, j: nat)
    requires j < |rules|
    ensures Gather(check, field, rules[..j + 1]) == Gather(check, field, rules[..j]) + check(field, rules[j].0, rules[j].1)
  {
    assert rules[..j + 1][..j] == rules[..j];
  }

  lemma GatherAllStep(check: PairCheck, schema: Schema, i: nat)
    requires i < |schema|
    ensures GatherAll(check, schema[..i + 1]) == GatherAll(check, schema[..i]) + Gather(check, schema[i].0, schema[i].1)
  {
    assert schema[..i + 1][..i] == schema[..i];
  }

  /** The callback run over every rule of one field. */
  method CheckField(host: Host, data: Value, msgs: Value, fieldName: string, rules: RuleSet)
    returns (found: seq<Failure>)
    requires !msgs.IsNullish()
    ensures found == Gather(Recorder(host, data, msgs), fieldName, rules)
  {
    found := [];
    for j := 0 to |rules|
      invariant found == Gather(Recorder(host, data, msgs), fieldName, rules[..j])
    {
      var ruleType, config := rules[j].0, rules[j].1;
      var more := CheckRule(host, data, msgs, fieldName, ruleType, config);
      GatherStep(Recorder(host, data, msgs), fieldName, rules, j);
      found := found + more;
    }
    assert rules[..|rules|] == rules;
  }

  /** verify(data, schema, messages) */
  method Verify(host: Host, data: Value, schema: Schema, messages: Value) returns (errors: seq<Failure>)
    ensures errors == Report(host, data, schema, OrEmpty(messages))
  {
    var msgs := if Truthy(messages) then messages else Obj(0, map[]);
    errors := [];
    for i := 0 to |schema|
      invariant errors == GatherAll(Recorder(host, data, msgs), schema[..i])
    {
      var found := CheckField(host, data, msgs, schema[i].0, schema[i].1);
      GatherAllStep(Recorder(host, data, msgs), schema, i);
      errors := errors + found;
    }
    assert schema[..|schema|] == schema;
  }

  /** A pair passes when its validator answers exactly true. */
  ghost predicate Passes(host: Host, data: Value, field: string, ruleType: string, config: Value)
  {
    Run(host, Select(ruleType, config), data, field, config) == Normal(true)
  }

  /** The number of (field, rule) pairs of a schema. */
  function PairCount(schema: Schema): nat
  {
    if |schema| == 0 then 0 else PairCount(schema[..|schema| - 1]) + |schema[|schema| - 1].1|
  }

  /** What one pair records: a throw is recorded with its own message even
      when an override exists, a falsy answer with the failure message, and
      a truthy answer not at all. */
  lemma PairMeaning(host: Host, data: Value, messages: Value, field: string, ruleType: string, config: Value)
    requires !messages.IsNullish()
    ensures Run(host, Select(ruleType, config), data, field, config).Throw? ==>
      PairFailures(host, data, messages, field, ruleType, config)
        == [Failure(field, Run(host, Select(ruleType, config), data, field, config).error)]
    ensures Run(host, Select(ruleType, config), data, field, config) == Normal(false) ==>
      PairFailures(host, data, messages, field, ruleType, config)
        == [Failure(field, FailureMessage(host, messages, field, ruleType, config))]
  {
  }

  /** A registered built-in is used whatever the rule's value is, even a
      function; an unregistered name with a function value runs that function
      and passes on a truthy answer; an unregistered name with any other value
      records nothing. */
  lemma SelectMeaning(host: Host, data: Value, messages: Value, field: string, ruleType: string, config: Value)
    requires !messages.IsNullish()
    ensures Validators.Lookup(ruleType).Some? ==> Select(ruleType, config) == Builtin(Validators.Lookup(ruleType).value)
    ensures Validators.Lookup(ruleType).None? && config.Func? ==>
      (PairFailures(host, data, messages, field, ruleType, config) == [] <==>
       host.call(config, [data, Str(field), config]).Normal? && Truthy(host.call(config, [data, Str(field), config]).value))
    ensures Validators.Lookup(ruleType).None? && !config.Func? ==>
      PairFailures(host, data, messages, field, ruleType, config) == []
  {
  }

  /** A check that records at most one failure, always for the field it is
      given, as the per-rule callback does. */
  ghost predicate SingleFailure(check: PairCheck)
  {
    forall field, ruleType, config :: |check(field, ruleType, config)| <= 1
      && forall k :: 0 <= k < |check(field, ruleType, config)| ==> check(field, ruleType, config)[k].field == field
  }

  lemma RecorderSingle(host: Host, data: Value, messages: Value)
    requires !messages.IsNullish()
    ensures SingleFailure(Recorder(host, data, messages))
  {
  }

  /** A field records at most one failure per rule, all for that field. */
  lemma {:induction false} GatherBound(check: PairCheck, field: string, rules: RuleSet)
    requires SingleFailure(check)
    ensures |Gather(check, field, rules)| <= |rules|
    ensures forall k :: 0 <= k < |Gather(check, field, rules)| ==> Gather(check, field, rules)[k].field == field
  {
    if |rules| > 0 {
      var last := rules[|rules| - 1];
      GatherBound(check, field, rules[..|rules| - 1]);
      assert |check(field, last.0, last.1)| <= 1;
    }
  }

  /** The schema records at most one failure per (field, rule) pair, and
      every failure names a field of the schema. */
  lemma {:induction false} GatherAllBound(check: PairCheck, schema: Schema)
    requires SingleFailure(check)
    ensures |GatherAll(check, schema)| <= PairCount(schema)
    ensures forall k :: 0 <= k < |GatherAll(check, schema)| ==>
      exists i :: 0 <= i < |schema| && schema[i].0 == GatherAll(check, schema)[k].field
  {
    if |schema| > 0 {
      var n := |schema| - 1;
      var init := schema[..n];
      GatherAllBound(check, init);
      GatherBound(check, schema[n].0, schema[n].1);
      var front, back := GatherAll(check, init), Gather(check, schema[n].0, schema[n].1);
      var r := GatherAll(check, schema);
      assert r == front + back;
      forall k | 0 <= k < |r|
        ensures exists i :: 0 <= i < |schema| && schema[i].0 == r[k].field
      {
        if k < |front| {
          var i :| 0 <= i < |init| && init[i].0 == front[k].field;
          assert schema[i] == init[i];
        } else {
          assert r[k] == back[k - |front|];
          assert schema[n].0 == r[k].field;
        }
      }
    }
  }

  /** `verify` reports at most one failure per (field, rule) pair, and only
      for fields of the schema. */
  lemma ReportBound(host: Host, data: Value, schema: Schema, messages: Value)
    requires !messages.IsNullish()
    ensures |Report(host, data, schema, messages)| <= PairCount(schema)
    ensures forall k :: 0 <= k < |Report(host, data, schema, messages)| ==>
      exists i :: 0 <= i < |schema| && schema[i].0 == Report(host, data, schema, messages)[k].field
  {
    RecorderSingle(host, data, messages);
    GatherAllBound(Recorder(host, data, messages), schema);
  }

  /** A field records nothing exactly when the check records nothing for any
      of its rules. */
  lemma {:induction false} GatherEmpty(check: PairCheck, field: string, rules: RuleSet)
    ensures Gather(check, field, rules) == [] <==>
      forall j :: 0 <= j < |rules| ==> check(field, rules[j].0, rules[j].1) == []
  {
    if |rules| > 0 {
      var n := |rules| - 1;
      var init := rules[..n];
      GatherEmpty(check, field, init);
      if forall j :: 0 <= j < |rules| ==> check(field, rules[j].0, rules[j].1) == [] {
        forall j | 0 <= j < |init|
          ensures check(field, init[j].0, init[j].1) == []
        {
          assert init[j] == rules[j];
        }
      }
      if Gather(check, field, rules) == [] {
        forall j | 0 <= j < |rules|
          ensures check(field, rules[j].0, rules[j].1) == []
        {
          if j < n {
            assert rules[j] == init[j];
          }
        }
      }
    }
  }

  /** Every rule of a field passes under a check. */
  ghost predicate FieldClean(check: PairCheck, field: string, rules: RuleSet)
  {
    forall j :: 0 <= j < |rules| ==> check(field, rules[j].0, rules[j].1) == []
  }

  /** The schema records nothing exactly when no field records anything. */
  lemma {:induction false} GatherAllEmpty(check: PairCheck, schema: Schema)
    ensures GatherAll(check, schema) == [] <==>
      forall i :: 0 <= i < |schema| ==> FieldClean(check, schema[i].0, schema[i].1)
  {
    if |schema| > 0 {
      var n := |schema| - 1;
      var init := schema[..n];
      GatherAllEmpty(check, init);
      GatherEmpty(check, schema[n].0, schema[n].1);
      if forall i :: 0 <= i < |schema| ==> FieldClean(check, schema[i].0, schema[i].1) {
        forall i | 0 <= i < |init|
          ensures FieldClean(check, init[i].0, init[i].1)
        {
          assert init[i] == schema[i];
        }
      }
      if GatherAll(check, schema) == [] {
        forall i | 0 <= i < |schema|
          ensures FieldClean(check, schema[i].0, schema[i].1)
        {
          if i < n {
            assert schema[i] == init[i];
          }
        }
      }
    }
  }

  /** A rule records nothing under the per-rule callback exactly when its
      validator answers true. */
  lemma RecorderClean(host: Host, data: Value, messages: Value, field: string, ruleType: string, config: Value)
    requires !messages.IsNullish()
    ensures Recorder(host, data, messages)(field, ruleType, config) == [] <==> Passes(host, data, field, ruleType, config)
  {
  }

  /** `verify` reports nothing exactly when every rule of every field passes. */
  lemma ReportEmpty(host: Host, data: Value, schema: Schema, messages: Value)
    requires !messages.IsNullish()
    ensures Report(host, data, schema, messages) == [] <==>
      forall i, j :: 0 <= i < |schema| && 0 <= j < |schema[i].1| ==>
        Passes(host, data, schema[i].0, schema[i].1[j].0, schema[i].1[j].1)
  {
    var check := Recorder(host, data, messages);
    GatherAllEmpty(check, schema);
    forall i, j | 0 <= i < |schema| && 0 <= j < |schema[i].1|
      ensures check(schema[i].0, schema[i].1[j].0, schema[i].1[j].1) == [] <==>
        Passes(host, data, schema[i].0, schema[i].1[j].0, schema[i].1[j].1)
    {
      RecorderClean(host, data, messages, schema[i].0, schema[i].1[j].0, schema[i].1[j].1);
    }
  }

  /** A field's failures come out in rule order. */
  lemma {:induction false} GatherAppend(check: PairCheck, field: string, first: RuleSet, second: RuleSet)
    ensures Gather(check, field, first + second) == Gather(check, field, first) + Gather(check, field, second)
  {
    if |second| == 0 {
      assert first + second == first;
    } else {
      var n := |second| - 1;
      var whole := first + second;
      var init, last := second[..n], second[n];
      assert whole[..|whole| - 1] == first + init;
      assert whole[|whole| - 1] == last;
      var lastPart := check(field, last.0, last.1);
      assert Gather(check, field, whole) == Gather(check, field, first + init) + lastPart;
      assert Gather(check, field, second) == Gather(check, field, init) + lastPart;
      GatherAppend(check, field, first, init);
    }
  }

  /** The schema's failures come out field by field in schema order. */
  lemma {:induction false} GatherAllAppend(check: PairCheck, first: Schema, second: Schema)
    ensures GatherAll(check, first + second) == GatherAll(check, first) + GatherAll(check, second)
  {
    if |second| == 0 {
      assert first + second == first;
    } else {
      var n := |second| - 1;
      var whole := first + second;
      var init, last := second[..n], second[n];
      assert whole[..|whole| - 1] == first + init;
      assert whole[|whole| - 1] == last;
      var lastPart := Gather(check, last.0, last.1);
      assert GatherAll(check, whole) == GatherAll(check, first + init) + lastPart;
      assert GatherAll(check, second) == GatherAll(check, init) + lastPart;
      GatherAllAppend(check, first, init);
    }
  }

  /** The report of two schemas one after the other is the first report
      followed by the second. */
  lemma ReportAppend(host: Host, data: Value, first: Schema, second: Schema, messages: Value)
    requires !messages.IsNullish()
    ensures Report(host, data, first + second, messages)
      == Report(host, data, first, messages) + Report(host, data, second, messages)
  {
    GatherAllAppend(Recorder(host, data, messages), first, second);
  }

  /** Six of the table's keys are names of built-in rules; the other six
      (lt, lte, gt, gte, eq, ne) are not, so no rule ever reaches them. */
  lemma TableAndRegistry(key: string)
    requires Messages.Defaults(key).Some?
    ensures Validators.Lookup(key).Some? <==>
      key in {"required", "type", "pattern", "exactLength", "minLength", "maxLength"}
  {
    Messages.TableKeys(key);
  }
}
