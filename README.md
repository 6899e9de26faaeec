# data-inspector rule engine in Dafny

This project models the rule-evaluation engine of data-inspector. `verify(data, schema, messages)` walks every field of a schema and every rule of that field. For each rule it picks a validator and runs it on the data. When the answer is falsy, or the validator throws, it records one `{field, message}` entry. The model covers four parts of the engine:

- the primitive predicates of `lib/utils.js`: pattern matching, the relational operators, strict equality, list membership, type classification, duplicate detection;
- the 35 named rules of `lib/validators.js`;
- the verification loop of `lib/main.js`;
- the default-message table of `lib/messages.js`.

JavaScript values are a datatype `Js.Value`:

- `undefined`, `null`, booleans, integers and strings;
- arrays, plain objects, functions and regular expressions, each carrying an identity so that `===` compares them by reference.

An exception is a `Throw` completion, and `verify`'s `catch` turns it into an entry. Three things the engine calls but does not contain are fields of `Js.Host`: caller-supplied rule functions, moment's date comparison, and the regular-expression engine for caller patterns and the email and url expressions. The get-value path reader is not a host field: it is the fixed function `PathLookup.Resolve` (see "## Left out").

Modules, one per file:

- `Text` (text.dfy): decimal numerals, splitting and joining on a separator, string order, substring search.
- `Js` (js.dfy): values, truthiness, `===`, `String(v)`, `Number(v)` on the integer subset, property reads, `<` and friends, the host.
- `Utils` (utils.dfy): `lib/utils.js`; `distinct` is a method with a loop proved against the function `DistinctOf`.
- `Charset` (charset.dfy): the alpha, alphaDash, alphaNumeric and ip expressions as character and octet checks.
- `PathLookup` (resolve.dfy): the `get(data, path)` reader.
- `Validators` (validators.dfy): one function per rule, the name registry `Lookup` and the dispatcher `Eval`.
- `Messages` (messages.dfy): the default-message table.
- `Engine` (engine.dfy): `verify` as nested loops (`Verify`, `CheckField`, `CheckRule`), proved equal to the function `Report`, with the lemmas about the report.

Where the code and the project's documented behaviour disagree, the model follows the code:

- **Default messages.** `lib/main.js:27` calls `defaults[ruleType](...)`, but every entry of `lib/messages.js` is a string, and rule names without an entry read `undefined`. Without an override, the recorded message is therefore always the runtime's "not a function" error. It is never a table text, not even for the six rules that have one. The model records it as `NotCallable("defaults[ruleType]")`.
- **Dispatch order.** A registered built-in wins over a function given as the rule's value (`lib/main.js:18-22`).
- **No minimal mode.** `verify` takes exactly three parameters.
- **Missing bound.** `lengthBetween` with a missing upper bound compares against `undefined` and answers false.

## Model

| member | source | states |
|---|---|---|
| Js.IntToString | lib/validators.js:34 | `String(n)` for an integer: never empty; `Js.NumberTextRoundTrip` states that `Number` reads it back |
| Js.StringToNumber | lib/utils.js:15 | definition of `Number(s)` for a string (no contract of its own); stated by `Js.NumberTextRoundTrip` and `Utils.CheckType` |
| Js.Lt | lib/utils.js:3 | definition of `x < y` (no contract of its own): the comparison answers true; stated by `Utils.LessThan` |
| Js.Gt | lib/utils.js:5 | definition of `x > y` (no contract of its own): `y < x` answers true; stated by `Utils.GreaterThan` |
| Js.Le | lib/utils.js:4 | definition of `x <= y` (no contract of its own): `y < x` answers false, not undefined; stated by `Utils.LessOrEqualThan` |
| Js.Ge | lib/utils.js:6 | definition of `x >= y` (no contract of its own): `x < y` answers false, not undefined; stated by `Utils.GreaterOrEqualThan` |
| Js.Truthy | lib/main.js:25 | definition of `!!v` (no contract of its own): undefined, null, false, 0 and the empty string are falsy, everything else truthy |
| Js.StrictEq | lib/utils.js:7 | definition of `===` (no contract of its own); its properties are stated by `Js.StrictEqFacts` and `Utils.Equal` |
| Js.ToString | lib/validators.js:34 | definition of `String(v)` (no contract of its own): integers in decimal, arrays joined with commas, plain objects as "[object Object]", functions as their source, regular expressions as /source/flags |
| Js.ToNumber | lib/utils.js:15 | definition of `Number(v)` on the integer subset (no contract of its own); `Js.NumberTextRoundTrip` and `Utils.CheckType` state its properties |
| Js.Compare | lib/utils.js:3-6 | definition of the abstract relational comparison (no contract of its own): two strings by string order, otherwise numerically, undefined when a side is NaN; `Utils.LessThan` and its siblings state the outcomes |
| Js.Call | lib/main.js:27 | definition of a call (no contract of its own): a function runs in the host, calling anything else throws |
| Js.StrictEqFacts | lib/utils.js:7 | `===` is reflexive, symmetric and transitive on the model's values, and on primitives it is value equality |
| Js.NumberTextRoundTrip | lib/utils.js:15 | the decimal text of any integer converts back to that integer, so it is not NaN |
| Js.Prop | lib/validators.js:9-11 | reading a property throws exactly when the object is undefined or null; `length` is the character count of a string, the element count of an array and the parameter count of a function; a plain object gives its own property or undefined |
| Js.IndexKey | lib/validators.js:12 | a key names an element of an n-element array exactly when it is the canonical numeral of an index below n |
| Js.ToPrimitive | lib/utils.js:3-6 | converting to a primitive before a comparison always gives a primitive |
| Text.ContainsMeaning | lib/utils.js:8 | the search `indexOf` makes on a string finds the needle exactly when it occurs at some position |
| Text.StrLess | lib/utils.js:3-6 | definition of `<` on two strings (no contract of its own): code unit by code unit, a proper prefix first; stated by `Text.StrLessTrichotomy` and `Text.StrLessTransitive` |
| Text.Contains | lib/utils.js:8 | definition of `indexOf` on a string being found (no contract of its own); stated by `Text.ContainsMeaning` |
| Text.StrLessTrichotomy | lib/utils.js:3-6 | string order is never both ways, never on equal strings, and one way on different strings |
| Text.StrLessTransitive | lib/utils.js:3-6 | string order is transitive, so with `Text.StrLessTrichotomy` it is a strict total order |
| Text.ParsePrint | lib/validators.js:34 | reading back the decimal text of a natural number gives that number |
| Text.PrintParse | lib/validators.js:34 | a canonical numeral is the decimal text of its value |
| Text.JoinSplit | lib/validators.js:31 | joining the parts of a split with the separator gives back the string |
| Text.SplitJoin | lib/validators.js:31 | splitting a join of separator-free parts gives back the parts |
| Utils.PatternOf | lib/utils.js:2 | definition (no contract of its own): `new RegExp(pattern)` copies a regular expression, compiles undefined as the empty pattern and anything else from its text |
| Utils.Match | lib/utils.js:2 | definition of `match` (no contract of its own): the host tests the value's text against the pattern; `Utils.MatchTestsText` states its property |
| Utils.MatchTestsText | lib/utils.js:2 | `match` tests the text of its value, so undefined is tested as "undefined" and null as "null" |
| Utils.LessThan | lib/utils.js:3 | on two numbers it is `<` on their values; on two strings it is string order |
| Utils.LessOrEqualThan | lib/utils.js:4 | on two numbers it is `<=`; on two strings it is string order or equality |
| Utils.GreaterThan | lib/utils.js:5 | on two numbers it is `>`; on two strings it is the reversed string order |
| Utils.GreaterOrEqualThan | lib/utils.js:6 | on two numbers it is `>=`; on two strings it is the reversed string order or equality |
| Utils.Equal | lib/utils.js:7 | on a primitive it is value equality; an array, object, function or regular expression is equal exactly to a value of the same kind with the same identity |
| Utils.ComparisonsComplement | lib/utils.js:3-6 | when one side converts to NaN and the two sides are not both strings after conversion to primitives, all four comparisons are false (two strings always compare by string order); on two numbers or two strings `<=` negates `>` and `>=` negates `<` |
| Utils.IndexOf | lib/utils.js:8 | `indexOf` is -1 exactly when no element is strictly equal to the value, otherwise the first such position |
| Utils.NotIn | lib/utils.js:8 | on an array, true exactly when no element is strictly equal to the value; on a string, true exactly when the value's text does not occur; anything else throws |
| Utils.CheckType | lib/utils.js:9-21 | 'string' holds exactly for strings, 'array' for arrays, 'number' for values not converting to NaN, 'boolean' for true and false; any other name gives false |
| Utils.IntegersAreNumbers | lib/utils.js:14-15 | every integer and the text of every integer are of type 'number' |
| Utils.Project | lib/utils.js:30 | definition (no contract of its own): `entry[key]` for a non-empty string key, otherwise the entry |
| Utils.DistinctOf | lib/utils.js:22-40 | reference definition of `distinct` (no contract of its own); `Utils.Distinct` is proved against it and `Utils.DistinctMeaning` states what it means |
| Utils.FirstCrash | lib/utils.js:29-30 | the projections before the returned position all succeed, and the one at it throws |
| Utils.Distinct | lib/utils.js:22-40 | the loop returns what `DistinctOf` specifies: false for a non-array, false at the first repeat, the first projection's throw, or true |
| Utils.DistinctStep | lib/utils.js:29-37 | a pass that neither throws nor finds a repeat keeps `foundValues` equal to the projections read so far, with no repeats |
| Utils.NoRepeatsExtend | lib/utils.js:32-36 | pushing a value that `indexOf` does not find keeps the found values free of repeats |
| Utils.DistinctThrowsAt | lib/utils.js:30 | a projection that throws before any repeat is the outcome |
| Utils.DistinctAllRead | lib/utils.js:39 | reading every entry without a repeat gives true |
| Utils.DistinctStopsAtRepeat | lib/utils.js:32-33 | a repeat gives false whatever later entries hold, even one that would throw |
| Utils.DistinctMeaning | lib/utils.js:22-40 | false for a non-array; true for the empty array; on an array, true exactly when every projection succeeds and the projections are pairwise not strictly equal |
| Charset.IsAlpha | lib/validators.js:26 | definition of `/^[a-z]+$/i` (no contract of its own): one or more ASCII letters of either case; stated by `Charset.CharsetsNest` |
| Charset.IsAlphaDash | lib/validators.js:27 | definition of `/^[\w\-]+$/` (no contract of its own): one or more letters, digits, underscores or dashes; stated by `Charset.CharsetsNest` |
| Charset.IsAlphaNumeric | lib/validators.js:28 | definition of `/^[a-z0-9]+$/i` (no contract of its own): one or more ASCII letters or digits; stated by `Charset.CharsetsNest` |
| Charset.IsOctet | lib/validators.js:31 | definition of one octet alternative of the ip expression (no contract of its own); stated by `Charset.OctetMeaning` and `Charset.OctetOfNumber` |
| Charset.IsIPv4 | lib/validators.js:31 | definition of the whole ip expression (no contract of its own): four octets separated by dots; stated by `Charset.DottedIsIPv4` and `Charset.IPv4IsDotted` |
| Charset.CharsetsNest | lib/validators.js:26-28 | every alpha text is alphaNumeric, and every alphaNumeric text is alphaDash |
| Charset.OctetMeaning | lib/validators.js:31 | an octet of the ip expression is exactly a decimal numeral without leading zeros whose value is at most 255 |
| Charset.OctetOfNumber | lib/validators.js:31 | the text of n is an octet exactly when n is at most 255 |
| Charset.DottedIsIPv4 | lib/validators.js:31 | the dotted quad of four numbers passes the ip check exactly when each is at most 255 |
| Charset.IPv4IsDotted | lib/validators.js:31 | whatever passes the ip check is the dotted quad of four numbers at most 255 |
| PathLookup.Resolve | lib/validators.js:6 | definition of `get(data, path)` (no contract of its own); `PathLookup.ResolveKey` and `PathLookup.ResolveNested` state its behaviour |
| PathLookup.ResolveKey | lib/validators.js:6 | a path without dots reads an own property of a plain object, and undefined otherwise |
| PathLookup.ResolveNested | lib/validators.js:6 | a dotted path reads the rest of the path inside the value its first segment names |
| Validators.Present | lib/validators.js:6 | definition of `!!get(data, field)` (no contract of its own); stated by `Validators.RequiredMeaning` |
| Validators.Expression | lib/validators.js:29-30 | definition (no contract of its own): the email expression with flag i and the url expression without flags, as written in the source |
| Validators.AcceptedValues | lib/validators.js:19 | definition of the list `['yes', 'on', 1, true]` (no contract of its own); stated by `Validators.AcceptedSearch` |
| Validators.KeyTruthy | lib/validators.js:38-39 | definition of `!!data[key]` for one listed key (no contract of its own); used by `Validators.AnyTruthyFold` and `Validators.AllTruthyFold` |
| Validators.Lookup | lib/validators.js:5-41 | the registry (no contract of its own): each of the 35 rule names maps to its validator, every other name to none; `Engine.TableAndRegistry` states part of it |
| Validators.Required | lib/validators.js:6 | definition of `required` (no contract of its own); stated by `Validators.RequiredMeaning` |
| Validators.Type | lib/validators.js:7 | definition of `type` (no contract of its own); stated by `Validators.TypeMeaning` |
| Validators.Pattern | lib/validators.js:8 | definition of `pattern` (no contract of its own); stated by `Validators.PatternTestsText` |
| Validators.ExactLength | lib/validators.js:9 | definition of `exactLength` (no contract of its own); stated by `Validators.LengthRulesMeaning` and `Validators.LengthRulesThrowOnAbsent` |
| Validators.MinLength | lib/validators.js:10 | definition of `minLength` (no contract of its own); stated by `Validators.LengthRulesMeaning` and `Validators.LengthRulesThrowOnAbsent` |
| Validators.MaxLength | lib/validators.js:11 | definition of `maxLength` (no contract of its own); stated by `Validators.LengthRulesMeaning` and `Validators.LengthRulesThrowOnAbsent` |
| Validators.LengthBetween | lib/validators.js:12 | definition of `lengthBetween` (no contract of its own); stated by `Validators.LengthBetweenIsMinThenMax` and `Validators.LengthBetweenMeaning` |
| Validators.LessThan | lib/validators.js:13 | definition of `lessThan` (no contract of its own); stated by `Validators.ComparisonRulesAgree` |
| Validators.LessOrEqualThan | lib/validators.js:14 | definition of `lessOrEqualThan` (no contract of its own); stated by `Validators.ComparisonRulesAgree` |
| Validators.GreaterThan | lib/validators.js:15 | definition of `greaterThan` (no contract of its own); stated by `Validators.ComparisonRulesAgree` |
| Validators.GreaterOrEqualThan | lib/validators.js:16 | definition of `greaterOrEqualThan` (no contract of its own); stated by `Validators.ComparisonRulesAgree` |
| Validators.Equal | lib/validators.js:17 | definition of `equal` (no contract of its own); stated by `Validators.EqualityRules` |
| Validators.NotEqual | lib/validators.js:18 | definition of `notEqual` (no contract of its own); stated by `Validators.EqualityRules` |
| Validators.Accepted | lib/validators.js:19 | definition of `accepted` (no contract of its own); stated by `Validators.AcceptedMeaning` |
| Validators.AfterDate | lib/validators.js:20 | definition of `afterDate` (no contract of its own): the host's date order is after; stated with its siblings by `Validators.DateRulesCompose` |
| Validators.BeforeDate | lib/validators.js:21 | definition of `beforeDate` (no contract of its own): the host's date order is before |
| Validators.EqualDate | lib/validators.js:22 | definition of `equalDate` (no contract of its own): the host's date order is same |
| Validators.EqualOrBeforeDate | lib/validators.js:23 | definition of `equalOrBeforeDate` (no contract of its own); stated by `Validators.DateRulesCompose` |
| Validators.EqualOrAfterDate | lib/validators.js:24 | definition of `equalOrAfterDate` (no contract of its own); stated by `Validators.DateRulesCompose` |
| Validators.BetweenDates | lib/validators.js:25 | definition of `betweenDates` (no contract of its own); stated by `Validators.BetweenDatesMeaning` |
| Validators.Alpha | lib/validators.js:26 | definition of `alpha` (no contract of its own): the value's text is one or more ASCII letters; stated by `Validators.CharacterRulesNest` |
| Validators.AlphaDash | lib/validators.js:27 | definition of `alphaDash` (no contract of its own): the value's text is one or more letters, digits, underscores or dashes |
| Validators.AlphaNumeric | lib/validators.js:28 | definition of `alphaNumeric` (no contract of its own): the value's text is one or more ASCII letters or digits |
| Validators.Email | lib/validators.js:29 | definition of `email` (no contract of its own): the host tests the value's text against the fixed email expression |
| Validators.Url | lib/validators.js:30 | definition of `url` (no contract of its own): the host tests the value's text against the fixed url expression |
| Validators.Ip | lib/validators.js:31 | definition of `ip` (no contract of its own); stated by `Validators.IpMeaning` |
| Validators.Between | lib/validators.js:32 | definition of `between` (no contract of its own); stated by `Validators.BetweenMeaning` |
| Validators.BetweenStrict | lib/validators.js:33 | definition of `betweenStrict` (no contract of its own); stated by `Validators.BetweenMeaning` |
| Validators.Digits | lib/validators.js:34 | definition of `digits` (no contract of its own); stated by `Validators.DigitsMeaning` |
| Validators.Distinct | lib/validators.js:35 | definition of the `distinct` rule (no contract of its own); stated by `Validators.DistinctRuleMeaning` |
| Validators.In | lib/validators.js:36 | definition of `in` (no contract of its own); stated by `Validators.InMeaning` and `Validators.InNotInOpposite` |
| Validators.NotIn | lib/validators.js:37 | definition of `notIn` (no contract of its own); stated by `Validators.InNotInOpposite` |
| Validators.Reducible | lib/validators.js:38-39 | definition (no contract of its own): `rule.reduce` exists only on an array; undefined and null throw a read error, anything else a not-a-function error |
| Validators.AnyTruthy | lib/validators.js:38 | definition of the requiredWith fold (no contract of its own); stated by `Validators.AnyTruthyFold` |
| Validators.AllTruthy | lib/validators.js:39 | definition of the requiredWithout fold (no contract of its own); stated by `Validators.AllTruthyFold` |
| Validators.RequiredWith | lib/validators.js:38 | definition of `requiredWith` (no contract of its own); stated by `Validators.RequiredWithMeaning` and `Validators.CrossFieldErrors` |
| Validators.RequiredWithout | lib/validators.js:39 | definition of `requiredWithout` (no contract of its own); stated by `Validators.RequiredWithoutMeaning` and `Validators.CrossFieldErrors` |
| Validators.RequiredIf | lib/validators.js:40 | definition of `requiredIf` (no contract of its own); stated by `Validators.RequiredIfMeaning` |
| Validators.Eval | lib/validators.js:5-41 | the dispatcher (no contract of its own): each rule runs the validator of the same name; `Validators.TotalRules` states which never throw |
| Validators.RequiredMeaning | lib/validators.js:6 | a falsy configuration always passes; a truthy one passes exactly when the field's value is truthy |
| Validators.TypeMeaning | lib/validators.js:7 | the rule classifies the field's value as string, array or boolean, and any name outside the four type names fails |
| Validators.PatternTestsText | lib/validators.js:8 | an absent field is tested as the text "undefined" and null as "null" |
| Validators.TotalRules | lib/validators.js:6-40 | the 19 rules listed in `Validators.NeverThrows` never throw: required, type, the four comparisons, equal, notEqual, accepted, the five single-date rules, alpha, alphaDash, alphaNumeric, ip and digits. pattern, email and url read no property either, but they are excluded because the host's regular-expression engine may throw on a pattern |
| Validators.LengthRulesThrowOnAbsent | lib/validators.js:9-12 | on an undefined or null field the four length rules throw |
| Validators.LengthRulesMeaning | lib/validators.js:9-11 | on a string, an array or a function (whose length is its parameter count), exactLength, minLength and maxLength compare the length by =, >= and <= |
| Validators.LengthBetweenIsMinThenMax | lib/validators.js:12 | lengthBetween is minLength with the first bound and, only when that holds, maxLength with the second |
| Validators.LengthBetweenMeaning | lib/validators.js:12 | with both bounds it holds exactly when lo <= length <= hi; with the upper bound missing it is false |
| Validators.LengthRulesWithoutLength | lib/validators.js:9-12 | on a number, a boolean or a regular expression, which have no length, exactLength, minLength and maxLength with a numeric bound answer false; lengthBetween with no bounds answers false on any value that is not undefined or null |
| Validators.BetweenMeaning | lib/validators.js:32-33 | for any value, between is greaterThan the first bound and lessThan the second, betweenStrict the non-strict pair; on a number with numeric bounds, between is exclusive on both bounds and betweenStrict inclusive on both |
| Validators.EqualityRules | lib/validators.js:17-18 | notEqual is the negation of equal, and on a primitive equal is value equality |
| Validators.ComparisonRulesAgree | lib/validators.js:13-16 | the four comparison rules are the utils comparisons of the field's value with the configuration |
| Validators.InNotInOpposite | lib/validators.js:36-37 | for the same list, in and notIn throw together and otherwise give opposite answers |
| Validators.InMeaning | lib/validators.js:36 | on an array list, in holds exactly when some element is strictly equal to the field's value |
| Validators.AcceptedMeaning | lib/validators.js:19 | accepted holds exactly for "yes", "on", 1 and true |
| Validators.AcceptedSearch | lib/validators.js:19 | the accepted list contains exactly "yes", "on", 1 and true under strict equality |
| Validators.DateRulesCompose | lib/validators.js:20-24 | equalOrBeforeDate is equalDate or beforeDate, equalOrAfterDate is equalDate or afterDate, and afterDate and beforeDate never both hold |
| Validators.BetweenDatesMeaning | lib/validators.js:25 | betweenDates holds exactly when the value is after the first date and before the second |
| Validators.CharacterRulesNest | lib/validators.js:26-28 | a value passing alpha passes alphaNumeric, and one passing alphaNumeric passes alphaDash |
| Validators.IpMeaning | lib/validators.js:31 | a dotted quad passes ip exactly when each number is at most 255 |
| Validators.DigitsMeaning | lib/validators.js:34 | on an integer of any sign, digits holds exactly when its decimal text (with the minus sign) has the configured length; on a string, exactly when it converts to a number and has that length; a configuration that is not a number always fails |
| Validators.DistinctRuleMeaning | lib/validators.js:35 | false when the field is not an array; otherwise true exactly when every projection succeeds with no two strictly equal |
| Validators.AnyTruthyFold | lib/validators.js:38 | the or-fold over the listed keys is its seed or-ed with "some listed key is truthy" |
| Validators.AllTruthyFold | lib/validators.js:39 | the and-fold over the listed keys is its seed and-ed with "every listed key is truthy" |
| Validators.RequiredWithMeaning | lib/validators.js:38 | if some listed top-level key is truthy the field must be truthy; otherwise it passes |
| Validators.RequiredWithoutMeaning | lib/validators.js:39 | if every listed top-level key is truthy it passes; otherwise the field must be truthy |
| Validators.CrossFieldErrors | lib/validators.js:38-39 | an empty list passes; with keys, an undefined or null data throws; a configuration that is not an array throws |
| Validators.RequiredIfMeaning | lib/validators.js:40 | a predicate answering exactly true makes it required(true); another answer passes; a throw propagates; a configuration that is not a function throws |
| Messages.Defaults | lib/messages.js:1-14 | the table itself (no contract of its own): the twelve key-text pairs; stated by `Messages.TableKeys` and `Messages.Entry` |
| Messages.Entry | lib/messages.js:1-14 | `defaults[key]` is the table's text for its twelve keys and undefined for every other key |
| Messages.DefaultMessage | lib/main.js:27 | calling `defaults[ruleType]` always throws the runtime's "not a function" error |
| Messages.TableKeys | lib/messages.js:1-14 | the table has exactly the keys required, type, pattern, exactLength, minLength, maxLength, lt, lte, gt, gte, eq, ne |
| Engine.Recorder | lib/main.js:15-35 | definition of the per-rule callback (no contract of its own) with the data and messages fixed; stated by `Engine.RecorderSingle` and `Engine.RecorderClean` |
| Engine.Select | lib/main.js:16-22 | definition of the validator choice (no contract of its own); stated by `Engine.SelectMeaning` and `Engine.ChooseValidator` |
| Engine.Run | lib/main.js:25 | definition of `validator(data, fieldName, rules[ruleType])` read as a boolean (no contract of its own); stated through `Engine.PairFailures` |
| Engine.Override | lib/main.js:26 | definition of `(messages[fieldName] or {})[ruleType]` (no contract of its own); used by `Engine.FailureMessageChoice` |
| Engine.FailureMessage | lib/main.js:26-27 | definition of the thrown message (no contract of its own); stated by `Engine.FailureMessageChoice` |
| Engine.Gather | lib/main.js:15-35 | definition of one field's entries (no contract of its own); stated by `Engine.GatherBound`, `Engine.GatherEmpty` and `Engine.GatherAppend` |
| Engine.GatherAll | lib/main.js:11-36 | definition of the whole schema's entries (no contract of its own); stated by `Engine.GatherAllBound`, `Engine.GatherAllEmpty` and `Engine.GatherAllAppend` |
| Engine.Report | lib/main.js:7-39 | reference definition of the returned errors (no contract of its own); `Engine.Verify` is proved equal to it and `Engine.ReportBound`, `Engine.ReportEmpty` and `Engine.ReportAppend` state what it means |
| Engine.TableAndRegistry | lib/messages.js:2-13 | of the table's keys exactly the first six name built-in rules; lt, lte, gt, gte, eq and ne name none |
| Engine.OrEmpty | lib/main.js:8 | a falsy value defaulted to `{}` is never undefined or null |
| Engine.ChooseValidator | lib/main.js:16-22 | the validator variable ends as the built-in of that name, else the rule's function value, else the no-op |
| Engine.SelectMeaning | lib/main.js:16-22 | a built-in wins even over a function value; an unknown name with a function value passes exactly on a truthy answer; an unknown name with any other value records nothing |
| Engine.FailedRuleMessage | lib/main.js:26-27 | the thrown message is the override text when it is truthy, otherwise whatever calling the default entry throws |
| Engine.FailureMessageChoice | lib/main.js:26-27 | a truthy override is the message verbatim; without one the message is the "not a function" error for every rule |
| Engine.PairFailures | lib/main.js:24-34 | one pair records at most one entry, always for its own field, and none exactly when its validator answers true |
| Engine.PairMeaning | lib/main.js:24-34 | a throw is recorded with its own message even when an override exists; a falsy answer is recorded with the failure message |
| Engine.CheckRule | lib/main.js:15-35 | the per-rule callback pushes exactly what `PairFailures` specifies |
| Engine.RecorderSingle | lib/main.js:29-33 | the per-rule callback pushes at most one entry, for its own field |
| Engine.RecorderClean | lib/main.js:24-34 | the per-rule callback pushes nothing exactly when the validator answers true |
| Engine.GatherStep | lib/main.js:15 | a field's entries grow rule by rule |
| Engine.GatherAllStep | lib/main.js:11 | the errors array grows field by field |
| Engine.CheckField | lib/main.js:12-35 | the rule loop of one field pushes that field's entries in rule order |
| Engine.Verify | lib/main.js:7-39 | the returned errors are the report of the schema, with a falsy `messages` read as `{}` |
| Engine.GatherBound | lib/main.js:15-35 | a field records at most one entry per rule, all naming that field |
| Engine.GatherAllBound | lib/main.js:11-36 | the errors hold at most one entry per (field, rule) pair, each naming a schema field |
| Engine.ReportBound | lib/main.js:11-36 | `verify` reports at most one entry per (field, rule) pair, and only for fields of the schema |
| Engine.GatherEmpty | lib/main.js:15-35 | a field records nothing exactly when each of its rules records nothing |
| Engine.GatherAllEmpty | lib/main.js:11-36 | the schema records nothing exactly when no field records anything |
| Engine.ReportEmpty | lib/main.js:11-36 | `verify` reports nothing exactly when every rule of every field answers true |
| Engine.GatherAppend | lib/main.js:14-15 | a field's entries come out in rule order |
| Engine.GatherAllAppend | lib/main.js:11 | the entries come out field by field in schema order |
| Engine.ReportAppend | lib/main.js:11 | the report of two schemas one after the other is the first report followed by the second |

## Left out

- PathLookup.Resolve: the get-value package is not part of this model. `get(data, path)` is assumed to split the path on dots and walk plain objects only. It reads undefined at the first missing segment and never throws.
- Dates: moment's parsing and comparison are a host capability `dateOrder` that answers before, same, after or invalid. Invalid stands for a date moment cannot parse, against which every date rule answers false. `moment(undefined)` is the current time, not an invalid date, so an absent field is compared with "now"; the clock is outside the model, and `dateOrder` is left unconstrained on it.
- Regular expressions: caller patterns and the email and url expressions are tested by the host capability `regexTest`, so their contents are not modelled. The alpha, alphaDash, alphaNumeric and ip expressions are modelled as character checks. Every regular expression created from a literal shares identity 0.
- User functions: caller rule functions and requiredIf predicates are the host capability `call`. Their side effects on the data are not modelled.
- Numbers: numbers are unbounded integers. Fractions, NaN, infinities, -0, hexadecimal and exponent numerals are not modelled. JavaScript numbers lose integer precision above 2^53, and `String(n)` switches to exponent form for magnitudes of 1e21 and more; the model writes every integer in plain decimal, so `digits` with 5 on 1e21 holds in JavaScript ("1e+21") but not in the model. `Number(v)` on a string accepts optional surrounding whitespace, a sign and decimal digits; any other text is NaN.
- Strings: strings are sequences of characters. JavaScript's UTF-16 code units, and so lengths of astral characters, are not modelled.
- `new String(...)` wrapper objects are not modelled. `checkType`'s `instanceof String` and digits' `new String(v).length` use the primitive string.
- Js.Prop: reads only own data. A function's `length` is its parameter count, but its `name` and other own properties, a regular expression's own and prototype properties (`source`, `flags`, `lastIndex`), and every name inherited from `Object.prototype` read as undefined. So `requiredWith` or `requiredWithout` listing `constructor`, a `distinct` key such as `toString`, or a length rule on a regular expression can answer differently in JavaScript.
- Inherited property names: names inherited from `Object.prototype` (`toString`, `constructor`, …) are treated as unknown. This applies both as rule names and as keys of the message table and of the messages argument.
- Key order: `Object.keys` ordering is not computed. The schema and each rule set are given as sequences in enumeration order. A rule set that is not an object is not modelled. In particular `verify` itself throws, outside its `try`, when the schema or one of its rule sets is undefined or null (`lib/main.js:11` and `lib/main.js:13`); `Engine.Verify` takes sequences and cannot express that throw.
- Thrown values: the engine keeps `e.message`, modelled as an abstract `ErrText`. The runtime's exact TypeError wording is not modelled, nor are thrown values that are not errors.
- Messages.Defaults: that every table text is free of placeholders is not stated as a lemma. It holds by inspection of the twelve texts in `Messages.Defaults`.
