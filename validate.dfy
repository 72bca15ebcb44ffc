/** Schema checks of a configuration document (internal/config/validate.go
    and config/parse.go): reading the schema version, the version gate and
    the collection of schema errors, the key normalisation applied before
    validation, and the two patches made to the schema's definitions. */
module SchemaValidation {
  import opened Wrappers
  import opened Strings
  import Yaml

  /** The version number of a `mach_composer.version` string: the whole
      string as an integer, else its part before the first dot. */
  function VersionNumber(v: string): Option<int> {
    match Atoi(v)
    case Some(n) => Some(n)
    case None => Atoi(SplitN(v, '.', 2)[0])
  }

  /** The version read from a decoded version string; a decoding failure
      comes first, then `notFound` when the string holds no number. */
  function SchemaVersion(decoded: Result<string>, notFound: string): (r: Result<int>)
    ensures decoded.Err? ==> r == Err(decoded.error)
    ensures decoded.Ok? && VersionNumber(decoded.value).None? ==> r == Err(notFound)
    ensures r.Ok? ==> decoded.Ok? && VersionNumber(decoded.value) == Some(r.value)
  {
    match decoded
    case Err(e) => Err(e)
    case Ok(v) =>
      match VersionNumber(v)
      case Some(n) => Ok(n)
      case None => Err(notFound)
  }

  const DocumentNoVersion := "no valid version identifier found"
  const FileNoVersion := "No valid version identifier found"

  /** Go's getSchemaVersion; `decode` reads `mach_composer.version` from the
      document node. */
  function GetSchemaVersionOfDocument(document: Yaml.Node, decode: Yaml.Node -> Result<string>): (r: Result<int>)
    ensures r == SchemaVersion(decode(document), DocumentNoVersion)
  {
    SchemaVersion(decode(document), DocumentNoVersion)
  }

  /** Go's GetSchemaVersion in config/parse.go; `unmarshal` reads
      `mach_composer.version` from the file's bytes. */
  function GetSchemaVersion(data: seq<bv8>, unmarshal: seq<bv8> -> Result<string>): (r: Result<int>)
    ensures r == SchemaVersion(unmarshal(data), FileNoVersion)
  {
    SchemaVersion(unmarshal(data), FileNoVersion)
  }

  /** An integer version string gives that integer. */
  lemma IntegerVersion(n: int)
    requires MinInt64 <= n <= MaxInt64
    ensures VersionNumber(IntToString(n)) == Some(n)
  {
    AtoiOfIntToString(n);
  }

  lemma IntToStringHasNoDot(n: int)
    ensures '.' !in IntToString(n)
  {
    var s := IntToString(n);
    if n < 0 {
      assert s == "-" + NatToString(-n);
      assert forall i :: 1 <= i < |s| ==> s[i] == NatToString(-n)[i - 1];
    }
  }

  /** A string holding a dot is not an integer. */
  lemma AtoiOfDotted(s: string, i: nat)
    requires i < |s| && s[i] == '.'
    ensures Atoi(s) == None
  {
    if |s| > 0 && (s[0] == '-' || s[0] == '+') {
      if i > 0 {
        assert s[1..][i - 1] == '.';
      }
    }
  }

  /** "N.rest" gives N, however the rest looks. */
  lemma DottedVersion(n: int, rest: string)
    requires MinInt64 <= n <= MaxInt64
    ensures VersionNumber(IntToString(n) + "." + rest) == Some(n)
  {
    var d := IntToString(n);
    var v := d + "." + rest;
    assert v[|d|] == '.';
    AtoiOfDotted(v, |d|);
    IntToStringHasNoDot(n);
    assert v == d + ['.'] + rest;
    SplitNAtFirst(d, '.', rest, 2);
    AtoiOfIntToString(n);
  }

  /** A version string that starts with neither a sign nor a digit holds
      no version. */
  lemma NonNumericVersion(v: string)
    requires |v| > 0 && !IsDigit(v[0]) && v[0] != '-' && v[0] != '+'
    ensures VersionNumber(v) == None
  {
    var head := SplitN(v, '.', 2)[0];
    match IndexOf(v, '.')
    case None =>
      assert head == v;
    case Some(i) =>
      assert head == v[..i];
      if i > 0 {
        assert head[0] == v[0];
      }
  }

  /** A configuration document that fails its checks: the schema's findings,
      or any other error. */
  datatype ConfigError = ValidationError(errors: seq<string>) | Failure(message: string)

  function Unsupported(version: int): string {
    "Config version " + IntToString(version) + " is unsupported. Only version 1 is supported.\n"
  }

  /** One message per schema finding, each ending in a newline. */
  function Messages(descriptions: seq<string>): (r: seq<string>)
    ensures |r| == |descriptions|
    ensures forall i :: 0 <= i < |descriptions| ==> r[i] == descriptions[i] + "\n"
  {
    if |descriptions| == 0 then []
    else Messages(descriptions[..|descriptions| - 1]) + [descriptions[|descriptions| - 1] + "\n"]
  }

  /** The outcome of validateConfig. `prepare` stands for loading schema 1
      and building the document's loader, `validate` for running the schema
      validator, which answers with the descriptions of its findings. */
  function Validation(document: Yaml.Node, decode: Yaml.Node -> Result<string>,
                      prepare: Yaml.Node -> Option<string>,
                      validate: Yaml.Node -> Result<seq<string>>): Option<ConfigError>
  {
    match GetSchemaVersionOfDocument(document, decode)
    case Err(e) => Some(Failure(e))
    case Ok(version) =>
      if version != 1 then Some(Failure(Unsupported(version)))
      else match prepare(document)
        case Some(e) => Some(Failure(e))
        case None =>
          match validate(document)
          case Err(e) => Some(Failure("configuration file is invalid: " + e))
          case Ok(descriptions) =>
            if |descriptions| == 0 then None else Some(ValidationError(Messages(descriptions)))
  }

  /** Only a version 1 document that the schema accepts passes; any other
      version is refused before the schema is looked at. */
  lemma ValidationGate(document: Yaml.Node, decode: Yaml.Node -> Result<string>,
                       prepare: Yaml.Node -> Option<string>, validate: Yaml.Node -> Result<seq<string>>)
    ensures Validation(document, decode, prepare, validate).None? <==>
              && GetSchemaVersionOfDocument(document, decode) == Ok(1)
              && prepare(document).None? && validate(document) == Ok([])
    ensures forall version :: GetSchemaVersionOfDocument(document, decode) == Ok(version) && version != 1 ==>
              Validation(document, decode, prepare, validate) == Some(Failure(Unsupported(version)))
  {
  }

  /** A document the schema rejects reports one message per finding. */
  lemma ValidationErrorsPerFinding(document: Yaml.Node, decode: Yaml.Node -> Result<string>,
                                   prepare: Yaml.Node -> Option<string>,
                                   validate: Yaml.Node -> Result<seq<string>>)
    requires Validation(document, decode, prepare, validate).Some?
    requires Validation(document, decode, prepare, validate).value.ValidationError?
    ensures validate(document).Ok?
    ensures var errors := Validation(document, decode, prepare, validate).value.errors;
            && |errors| == |validate(document).value| > 0
            && forall i :: 0 <= i < |errors| ==> errors[i] == validate(document).value[i] + "\n"
  {
  }

  /** Go's validateConfig: `ok` tells whether there is no error. */
  method ValidateConfig(document: Yaml.Node, decode: Yaml.Node -> Result<string>,
                        prepare: Yaml.Node -> Option<string>, validate: Yaml.Node -> Result<seq<string>>)
    returns (ok: bool, err: Option<ConfigError>)
    ensures ok <==> err.None?
    ensures err == Validation(document, decode, prepare, validate)
  {
    var version := GetSchemaVersionOfDocument(document, decode);
    if version.Err? {
      return false, Some(Failure(version.error));
    }
    if version.value != 1 {
      return false, Some(Failure(Unsupported(version.value)));
    }
    var prepared := prepare(document);
    if prepared.Some? {
      return false, Some(Failure(prepared.value));
    }
    var result := validate(document);
    if result.Err? {
      return false, Some(Failure("configuration file is invalid: " + result.error));
    }
    var descriptions := result.value;
    if |descriptions| > 0 {
      var errors: seq<string> := [];
      var i := 0;
      while i < |descriptions|
        invariant 0 <= i <= |descriptions|
        invariant errors == Messages(descriptions[..i])
      {
        assert descriptions[..i + 1][..i] == descriptions[..i];
        errors := errors + [descriptions[i] + "\n"];
        i := i + 1;
      }
      assert descriptions[..i] == descriptions;
      return false, Some(ValidationError(errors));
    }
    return true, None;
  }

  /** A decoded YAML value: a scalar, a map with string keys, a map with
      keys of any kind (its entries in iteration order), or a list. */
  datatype Atom = AString(s: string) | AInt(i: int) | ABool(b: bool) | ANull
  datatype Value = Scalar(atom: Atom) | StringMap(fields: map<string, Value>) | AnyMap(entries: seq<Entry>)
                 | List(items: seq<Value>)
  datatype Entry = Entry(key: Atom, value: Value)

  /** Go's `%v` of a map key. */
  function Render(a: Atom): string {
    match a
    case AString(s) => s
    case AInt(i) => IntToString(i)
    case ABool(b) => if b then "true" else "false"
    case ANull => "<nil>"
  }

  /** The string-keyed map of the entries: each key rendered, and of two
      entries whose keys render alike the later one kept. */
  function Collect(entries: seq<Entry>): map<string, Value> {
    if |entries| == 0 then map[]
    else Collect(entries[..|entries| - 1])[Render(entries[|entries| - 1].key) := entries[|entries| - 1].value]
  }

  /** The value with every map turned into a string-keyed map. */
  function Transformed(d: Value): Value {
    match d
    case Scalar(_) => d
    case StringMap(fields) => StringMap(map k | k in fields :: Transformed(fields[k]))
    case AnyMap(entries) =>
      StringMap(Collect(seq(|entries|, i requires 0 <= i < |entries| =>
                              assert entries[i] < d;
                              Entry(entries[i].key, Transformed(entries[i].value)))))
    case List(items) => List(seq(|items|, i requires 0 <= i < |items| => Transformed(items[i])))
  }

  /** A value that JSON can hold: no map with keys other than strings. */
  predicate JsonReady(d: Value) {
    match d
    case Scalar(_) => true
    case StringMap(fields) => forall k :: k in fields ==> JsonReady(fields[k])
    case AnyMap(_) => false
    case List(items) => forall i :: 0 <= i < |items| ==> JsonReady(items[i])
  }

  lemma {:induction false} CollectReady(entries: seq<Entry>)
    requires forall i :: 0 <= i < |entries| ==> JsonReady(entries[i].value)
    ensures forall k :: k in Collect(entries) ==> JsonReady(Collect(entries)[k])
  {
    if |entries| > 0 {
      var init := entries[..|entries| - 1];
      forall i | 0 <= i < |init|
        ensures JsonReady(init[i].value)
      {
        assert init[i] == entries[i];
      }
      CollectReady(init);
    }
  }

  /** Every transformed value can be serialised to JSON. */
  lemma {:induction false} TransformedIsJsonReady(d: Value)
    ensures JsonReady(Transformed(d))
    decreases d
  {
    match d
    case Scalar(_) =>
    case StringMap(fields) =>
      forall k | k in fields
        ensures JsonReady(Transformed(fields[k]))
      {
        TransformedIsJsonReady(fields[k]);
      }
    case AnyMap(entries) =>
      var ts := seq(|entries|, i requires 0 <= i < |entries| =>
                      assert entries[i] < d;
                      Entry(entries[i].key, Transformed(entries[i].value)));
      forall i | 0 <= i < |ts|
        ensures JsonReady(ts[i].value)
      {
        assert entries[i] < d;
        TransformedIsJsonReady(entries[i].value);
      }
      CollectReady(ts);
    case List(items) =>
      forall i | 0 <= i < |items|
        ensures JsonReady(Transformed(items[i]))
      {
        TransformedIsJsonReady(items[i]);
      }
  }

  /** A value JSON can already hold is left as it is, so transforming twice
      is transforming once. */
  lemma {:induction false} TransformedKeepsReady(d: Value)
    requires JsonReady(d)
    ensures Transformed(d) == d
    decreases d
  {
    match d
    case Scalar(_) =>
    case StringMap(fields) =>
      forall k | k in fields
        ensures Transformed(fields[k]) == fields[k]
      {
        TransformedKeepsReady(fields[k]);
      }
      assert (map k | k in fields :: Transformed(fields[k])) == fields;
    case List(items) =>
      forall i | 0 <= i < |items|
        ensures Transformed(items[i]) == items[i]
      {
        TransformedKeepsReady(items[i]);
      }
      assert seq(|items|, i requires 0 <= i < |items| => Transformed(items[i])) == items;
  }

  /** The keys of the collected map are the rendered keys. */
  lemma {:induction false} CollectKeys(entries: seq<Entry>, k: string)
    ensures k in Collect(entries) <==> exists i :: 0 <= i < |entries| && Render(entries[i].key) == k
  {
    if |entries| > 0 {
      var init := entries[..|entries| - 1];
      CollectKeys(init, k);
      if k in Collect(init) {
        var i :| 0 <= i < |init| && Render(init[i].key) == k;
        assert entries[i] == init[i];
      }
      if exists i :: 0 <= i < |entries| && Render(entries[i].key) == k {
        var i :| 0 <= i < |entries| && Render(entries[i].key) == k;
        if i < |init| {
          assert init[i] == entries[i];
        }
      }
    }
  }

  /** Of two entries whose keys render alike, the later one's value is
      kept: the value under a rendered key is that of the last entry with
      that rendering. */
  lemma {:induction false} CollectLast(entries: seq<Entry>, i: nat)
    requires i < |entries|
    requires forall j :: i < j < |entries| ==> Render(entries[j].key) != Render(entries[i].key)
    ensures Render(entries[i].key) in Collect(entries)
    ensures Collect(entries)[Render(entries[i].key)] == entries[i].value
  {
    if i < |entries| - 1 {
      var init := entries[..|entries| - 1];
      forall j | i < j < |init|
        ensures Render(init[j].key) != Render(init[i].key)
      {
        assert init[j] == entries[j];
      }
      assert init[i] == entries[i];
      CollectLast(init, i);
    }
  }

  /** Go's transformYamlData: string-keyed maps are rebuilt with their
      values transformed, other maps rebuilt with their keys rendered by
      `%v`, each list element transformed in its place, and scalars
      returned as they are. */
  method TransformYamlData(d: Value) returns (r: Value)
    ensures r == Transformed(d)
    decreases d, 1
  {
    match d {
      case Scalar(_) =>
        return d;
      case StringMap(fields) =>
        r := TransformFields(d);
      case AnyMap(entries) =>
        r := TransformEntries(d);
      case List(items) =>
        r := TransformItems(d);
    }
  }

  /** The `map[string]interface{}` case: every value is transformed under
      its own key. */
  method TransformFields(d: Value) returns (r: Value)
    requires d.StringMap?
    ensures r == Transformed(d)
    decreases d, 0
  {
    var fields := d.fields;
    var result: map<string, Value> := map[];
    var rest := fields.Keys;
    while rest != {}
      invariant rest <= fields.Keys
      invariant result.Keys == fields.Keys - rest
      invariant forall k :: k in result ==> result[k] == Transformed(fields[k])
      decreases |rest|
    {
      var k :| k in rest;
      var v := TransformYamlData(fields[k]);
      result := result[k := v];
      rest := rest - {k};
    }
    assert result == map k | k in fields :: Transformed(fields[k]);
    return StringMap(result);
  }

  /** The `map[interface{}]interface{}` case: every entry is stored under
      its rendered key, in order. */
  method TransformEntries(d: Value) returns (r: Value)
    requires d.AnyMap?
    ensures r == Transformed(d)
    decreases d, 0
  {
    var entries := d.entries;
    var result: map<string, Value> := map[];
    ghost var done: seq<Entry> := [];
    var i := 0;
    while i < |entries|
      invariant 0 <= i <= |entries| && |done| == i
      invariant forall j :: 0 <= j < i ==> done[j] == Entry(entries[j].key, Transformed(entries[j].value))
      invariant result == Collect(done)
    {
      assert entries[i] < d;
      var v := TransformYamlData(entries[i].value);
      result := result[Render(entries[i].key) := v];
      done := done + [Entry(entries[i].key, v)];
      assert done[..i] == done[..|done| - 1];
      i := i + 1;
    }
    assert done == seq(|entries|, i requires 0 <= i < |entries| =>
                         assert entries[i] < d;
                         Entry(entries[i].key, Transformed(entries[i].value)));
    return StringMap(result);
  }

  /** The `[]interface{}` case: the elements are transformed one by one. */
  method TransformItems(d: Value) returns (r: Value)
    requires d.List?
    ensures r == Transformed(d)
    decreases d, 0
  {
    var items := d.items;
    var t := items;
    var i := 0;
    while i < |t|
      invariant 0 <= i <= |t| == |items|
      invariant forall j :: 0 <= j < i ==> t[j] == Transformed(items[j])
      invariant forall j :: i <= j < |t| ==> t[j] == items[j]
    {
      var v := TransformYamlData(t[i]);
      t := t[i := v];
      i := i + 1;
    }
    assert t == seq(|items|, i requires 0 <= i < |items| => Transformed(items[i]));
    return List(t);
  }

  /** Go's setAdditionalProperties: the schema object gets its
      `additionalProperties` set to `value`; a schema that is not an object
      stops the program. */
  function SetAdditionalProperties(values: Value, value: bool): (r: Value)
    requires values.StringMap?
    ensures r.StringMap? && r.fields.Keys == values.fields.Keys + {"additionalProperties"}
    ensures r.fields["additionalProperties"] == Scalar(ABool(value))
    ensures forall k :: k in values.fields && k != "additionalProperties" ==> r.fields[k] == values.fields[k]
  {
    StringMap(values.fields["additionalProperties" := Scalar(ABool(value))])
  }

  /** The schema objects setObjectProperties can patch: an object with an
      object under `properties`. */
  predicate HasProperties(values: Value) {
    values.StringMap? && "properties" in values.fields && values.fields["properties"].StringMap?
  }

  /** Go's setObjectProperties: a non-empty plugin schema `p` is put under
      `properties[name]`; an empty one changes nothing. */
  function SetObjectProperties(values: Value, name: string, p: map<string, Value>): (r: Value)
    requires |p| < 1 || HasProperties(values)
    ensures |p| == 0 ==> r == values
    ensures |p| > 0 ==>
              && HasProperties(r) && r.fields.Keys == values.fields.Keys
              && (forall k :: k in values.fields && k != "properties" ==> r.fields[k] == values.fields[k])
              && var before := values.fields["properties"].fields;
                 var after := r.fields["properties"].fields;
                 && after.Keys == before.Keys + {name}
                 && after[name] == StringMap(p)
                 && forall k :: k in before && k != name ==> after[k] == before[k]
  {
    if |p| < 1 then values
    else
      var properties := values.fields["properties"].fields;
      StringMap(values.fields["properties" := StringMap(properties[name := StringMap(p)])])
  }
}
