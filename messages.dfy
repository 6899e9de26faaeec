/** The default message table (lib/messages.js): twelve fixed texts, six of
    them under names of built-in rules and six under short comparison names
    (lt, lte, gt, gte, eq, ne) that no rule is registered under. */
module Messages {
  import opened Js

  /** The table's key-text pairs, looked up by key. */
  function Defaults(key: string): Option<string>
  {
    var table := map[
        "required" := "This attribute is required",
        "type" := "This attribute must be of the type",
        "pattern" := "This attribute must match this pattern",
        "exactLength" := "This attribute must have this exact length",
        "minLength" := "This attribute must have a minimum of this length",
        "maxLength" := "This attribute must have a maximum of this length",
        "lt" := "This attribute must be less than that",
        "lte" := "This attribute must be less than or equal that",
        "gt" := "This attribute must be greater than that",
        "gte" := "This attribute must be greater than or equal that",
        "eq" := "This attribute must be equal that",
        "ne" := "This attribute must not be equal that"];
    if key in table then Some(table[key]) else None
  }

  /** `defaults[key]`: a table text, or undefined for any other key. */
  function Entry(key: string): (v: Value)
    ensures v.Str? <==> Defaults(key).Some?
    ensures v.Str? ==> v.s == Defaults(key).value
    ensures !v.Str? ==> v == Undef
  {
    match Defaults(key)
    case Some(text) => Str(text)
    case None => Undef
  }

  /** `defaults[key](field, config)`: every entry is a string or undefined,
      neither of which can be called, so this always throws the runtime's
      "not a function" error, whether or not the key is in the table. */
  function DefaultMessage(host: Host, key: string, field: string, config: Value): (r: Completion<Value>)
    ensures r == Throw(NotCallable("defaults[ruleType]"))
  {
    Call(host, Entry(key), [Str(field), config], NotCallable("defaults[ruleType]"))
  }

  /** The table has exactly these twelve keys. */
  lemma TableKeys(key: string)
    ensures Defaults(key).Some? <==> key in {"required", "type", "pattern", "exactLength", "minLength", "maxLength",
                                              "lt", "lte", "gt", "gte", "eq", "ne"}
  {
  }
}
