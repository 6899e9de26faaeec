/** The path reader the rules use to fetch a field's value (the get-value
    package, lib/validators.js:1), assumed here to split the path on dots and
    walk down through plain objects, reading undefined as soon as a segment
    is missing. It never throws. */
module PathLookup {
  import opened Text
  import opened Js

  function Walk(v: Value, segs: seq<string>): Value
  {
    if |segs| == 0 then v
    else if v.Obj? && segs[0] in v.props then Walk(v.props[segs[0]], segs[1..])
    else Undef
  }

  /** `get(data, path)` */
  function Resolve(data: Value, path: string): Value
  {
    Walk(data, Split(path, '.'))
  }

  /** A path without dots names an own property of an object; on anything
      that is not a plain object every path reads undefined. */
  lemma ResolveKey(data: Value, key: string)
    requires '.' !in key
    ensures Resolve(data, key) == if data.Obj? && key in data.props then data.props[key] else Undef
  {
    SplitConcat(key, "", '.');
    assert Split("", '.') == [""];
    assert key + "" == key;
    assert Split(key, '.') == [key];
    assert [key][1..] == [];
    if data.Obj? && key in data.props {
      assert Walk(data.props[key], []) == data.props[key];
    }
  }

  /** A dotted path reads the rest of the path inside the value its first
      segment names. */
  lemma ResolveNested(data: Value, head: string, rest: string)
    requires '.' !in head
    ensures Resolve(data, head + "." + rest) == Resolve(Resolve(data, head), rest)
  {
    ResolveKey(data, head);
    SplitConcat(head, "." + rest, '.');
    assert head + "." + rest == head + ("." + rest);
    assert ("." + rest)[1..] == rest;
    var tail := Split("." + rest, '.');
    assert tail == [""] + Split(rest, '.');
    assert tail[0] == "" && tail[1..] == Split(rest, '.');
    assert head + tail[0] == head;
    var segs := Split(head + "." + rest, '.');
    assert segs == [head] + Split(rest, '.');
    assert segs[1..] == Split(rest, '.');
  }
}
