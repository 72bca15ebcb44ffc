/** Configuration variables (internal/config/variable/base.go): a tree of
    scalars, maps and slices parsed from YAML, merged at the top level,
    transformed value by value and searched for component references. */
module ConfigVariable {
  import opened Wrappers
  import Yaml

  datatype Variable =
    | Scalar(value: string)
    | MapVar(elements: map<string, Variable>)
    | SliceVar(items: seq<Variable>)

  type VariablesMap = map<string, Variable>

  /** The check the scalar constructor performs on its text: None when the
      text is accepted, otherwise its error. */
  type ScalarCheck = string -> Option<string>

  // ---------------------------------------------------------------- parsing

  /** parseField: a scalar node becomes a Scalar, a mapping node a MapVar and a
      sequence node a SliceVar; every other kind is rejected. The first child
      that fails to parse stops the parse with its error. */
  function ParseField(n: Yaml.Node, check: ScalarCheck): (r: Result<Variable>)
    ensures r.Ok? && n.kind == Yaml.ScalarNode ==> r.value.Scalar?
    ensures r.Ok? && n.kind == Yaml.MappingNode ==> r.value.MapVar?
    ensures r.Ok? && n.kind == Yaml.SequenceNode ==> r.value.SliceVar?
    decreases n, |n.content| + 1
  {
    match n.kind
    case ScalarNode =>
      if check(n.value).Some? then Err(check(n.value).value) else Ok(Scalar(n.value))
    case MappingNode =>
      (match ParsePairs(n, |n.content| / 2, check)
       case Err(e) => Err(e)
       case Ok(m) => Ok(MapVar(m)))
    case SequenceNode =>
      (match ParseItems(n, |n.content|, check)
       case Err(e) => Err(e)
       case Ok(items) => Ok(SliceVar(items)))
    case _ =>
      Err("unsupported variable type: " + n.tag)
  }

  /** The first `p` key/value pairs of a mapping node, a later pair
      overriding an earlier one with the same key. */
  function ParsePairs(n: Yaml.Node, p: nat, check: ScalarCheck): Result<map<string, Variable>>
    requires 2 * p <= |n.content|
    decreases n, 2 * p
  {
    if p == 0 then Ok(map[])
    else
      match ParsePairs(n, p - 1, check)
      case Err(e) => Err(e)
      case Ok(m) =>
        match ParseField(n.content[2 * p - 1], check)
        case Err(e) => Err(e)
        case Ok(v) => Ok(m[n.content[2 * p - 2].value := v])
  }

  /** The first `k` children of a sequence node, parsed in order. */
  function ParseItems(n: Yaml.Node, k: nat, check: ScalarCheck): Result<seq<Variable>>
    requires k <= |n.content|
    decreases n, k
  {
    if k == 0 then Ok([])
    else
      match ParseItems(n, k - 1, check)
      case Err(e) => Err(e)
      case Ok(items) =>
        match ParseField(n.content[k - 1], check)
        case Err(e) => Err(e)
        case Ok(v) => Ok(items + [v])
  }

  /** The keys of the first `p` pairs of a mapping node. */
  function PairKeys(content: seq<Yaml.Node>, p: nat): set<string>
    requires 2 * p <= |content|
  {
    set j | 0 <= j < p :: content[2 * j].value
  }

  /** Pair `j` is the last one among the first `p` pairs with its key. */
  predicate LastPair(content: seq<Yaml.Node>, p: nat, j: nat)
    requires 2 * p <= |content|
  {
    j < p && forall j' :: j < j' < p ==> content[2 * j'].value != content[2 * j].value
  }

  /** A sequence parses exactly when every item does. */
  lemma {:induction false} ParseItemsOk(n: Yaml.Node, k: nat, check: ScalarCheck)
    requires k <= |n.content|
    ensures ParseItems(n, k, check).Ok? <==> forall i :: 0 <= i < k ==> ParseField(n.content[i], check).Ok?
  {
    if k > 0 {
      ParseItemsOk(n, k - 1, check);
    }
  }

  /** A parsed sequence keeps the length and the order of the items. */
  lemma {:induction false} ParseItemsOrder(n: Yaml.Node, k: nat, check: ScalarCheck)
    requires k <= |n.content| && ParseItems(n, k, check).Ok?
    ensures |ParseItems(n, k, check).value| == k
    ensures forall i :: 0 <= i < k ==> ParseField(n.content[i], check) == Ok(ParseItems(n, k, check).value[i])
  {
    if k > 0 {
      ParseItemsOrder(n, k - 1, check);
    }
  }

  /** A failing sequence reports the error of its first failing item. */
  lemma {:induction false} ParseItemsFirstError(n: Yaml.Node, k: nat, check: ScalarCheck)
    requires k <= |n.content| && ParseItems(n, k, check).Err?
    ensures exists i :: 0 <= i < k && ParseField(n.content[i], check) == Err(ParseItems(n, k, check).error)
                        && forall j :: 0 <= j < i ==> ParseField(n.content[j], check).Ok?
  {
    if ParseItems(n, k - 1, check).Err? {
      ParseItemsFirstError(n, k - 1, check);
    } else {
      ParseItemsOk(n, k - 1, check);
    }
  }

  /** A mapping parses exactly when every value does. */
  lemma {:induction false} ParsePairsOk(n: Yaml.Node, p: nat, check: ScalarCheck)
    requires 2 * p <= |n.content|
    ensures ParsePairs(n, p, check).Ok? <==> forall j :: 0 <= j < p ==> ParseField(n.content[2 * j + 1], check).Ok?
  {
    if p > 0 {
      ParsePairsOk(n, p - 1, check);
    }
  }

  /** A parsed mapping has one key per pair, holding the value of the last
      pair with that key. */
  lemma ParsePairsLastWins(n: Yaml.Node, p: nat, check: ScalarCheck)
    requires 2 * p <= |n.content| && ParsePairs(n, p, check).Ok?
    ensures ParsePairs(n, p, check).value.Keys == PairKeys(n.content, p)
    ensures forall j :: LastPair(n.content, p, j) ==>
              ParseField(n.content[2 * j + 1], check) == Ok(ParsePairs(n, p, check).value[n.content[2 * j].value])
  {
    ParsePairsKeys(n, p, check);
    ParsePairsLast(n, p, check);
  }

  lemma {:induction false} ParsePairsKeys(n: Yaml.Node, p: nat, check: ScalarCheck)
    requires 2 * p <= |n.content| && ParsePairs(n, p, check).Ok?
    ensures ParsePairs(n, p, check).value.Keys == PairKeys(n.content, p)
  {
    if p > 0 {
      ParsePairsKeys(n, p - 1, check);
      PairKeysStep(n.content, p);
    }
  }

  lemma {:induction false} ParsePairsLast(n: Yaml.Node, p: nat, check: ScalarCheck)
    requires 2 * p <= |n.content| && ParsePairs(n, p, check).Ok?
    ensures forall j :: LastPair(n.content, p, j) ==>
              && n.content[2 * j].value in ParsePairs(n, p, check).value
              && ParseField(n.content[2 * j + 1], check) == Ok(ParsePairs(n, p, check).value[n.content[2 * j].value])
  {
    if p > 0 {
      ParsePairsLast(n, p - 1, check);
      var m0 := ParsePairs(n, p - 1, check).value;
      var key := n.content[2 * (p - 1)].value;
      var v := ParseField(n.content[2 * (p - 1) + 1], check).value;
      var m := ParsePairs(n, p, check).value;
      assert m == m0[key := v];
      forall j: nat | LastPair(n.content, p, j)
        ensures n.content[2 * j].value in m && ParseField(n.content[2 * j + 1], check) == Ok(m[n.content[2 * j].value])
      {
        if j < p - 1 {
          var kj := n.content[2 * j].value;
          assert kj != key;
          assert LastPair(n.content, p - 1, j);
          assert ParseField(n.content[2 * j + 1], check) == Ok(m0[kj]);
        }
      }
    }
  }

  lemma PairKeysStep(content: seq<Yaml.Node>, p: nat)
    requires 0 < p && 2 * p <= |content|
    ensures PairKeys(content, p) == PairKeys(content, p - 1) + {content[2 * (p - 1)].value}
  {
    forall x | x in PairKeys(content, p)
      ensures x in PairKeys(content, p - 1) + {content[2 * (p - 1)].value}
    {
      var j :| 0 <= j < p && content[2 * j].value == x;
      if j < p - 1 {
        assert x in PairKeys(content, p - 1);
      }
    }
  }

  /** A failing mapping reports the error of its first failing value. */
  lemma {:induction false} ParsePairsFirstError(n: Yaml.Node, p: nat, check: ScalarCheck)
    requires 2 * p <= |n.content| && ParsePairs(n, p, check).Err?
    ensures exists j :: 0 <= j < p
                        && ParseField(n.content[2 * j + 1], check) == Err(ParsePairs(n, p, check).error)
                        && forall i :: 0 <= i < j ==> ParseField(n.content[2 * i + 1], check).Ok?
  {
    if ParsePairs(n, p - 1, check).Err? {
      ParsePairsFirstError(n, p - 1, check);
    } else {
      ParsePairsOk(n, p - 1, check);
    }
  }

  /** The shape of parseField's result, stated per node kind. */
  lemma ParseFieldSpec(n: Yaml.Node, check: ScalarCheck)
    ensures n.kind == Yaml.ScalarNode ==>
              ParseField(n, check) == (if check(n.value).None? then Ok(Scalar(n.value)) else Err(check(n.value).value))
    ensures n.kind == Yaml.MappingNode ==>
              && (ParseField(n, check).Ok? <==>
                    forall j :: 0 <= j < |n.content| / 2 ==> ParseField(n.content[2 * j + 1], check).Ok?)
              && (ParseField(n, check).Ok? ==> ParseField(n, check).value.elements.Keys == PairKeys(n.content, |n.content| / 2))
    ensures n.kind == Yaml.SequenceNode ==>
              && (ParseField(n, check).Ok? <==>
                    forall i :: 0 <= i < |n.content| ==> ParseField(n.content[i], check).Ok?)
              && (ParseField(n, check).Ok? ==>
                    var items := ParseField(n, check).value.items;
                    |items| == |n.content| &&
                    forall i :: 0 <= i < |n.content| ==> ParseField(n.content[i], check) == Ok(items[i]))
    ensures n.kind !in {Yaml.ScalarNode, Yaml.MappingNode, Yaml.SequenceNode} ==>
              ParseField(n, check) == Err("unsupported variable type: " + n.tag)
  {
    if n.kind == Yaml.MappingNode {
      ParsePairsOk(n, |n.content| / 2, check);
      if ParseField(n, check).Ok? {
        ParsePairsLastWins(n, |n.content| / 2, check);
      }
    } else if n.kind == Yaml.SequenceNode {
      ParseItemsOk(n, |n.content|, check);
      if ParseField(n, check).Ok? {
        ParseItemsOrder(n, |n.content|, check);
      }
    }
  }

  /** UnmarshalYAML: a non-mapping node is refused and the receiver kept;
      otherwise the receiver is replaced by a fresh map filled pair by pair.
      On a failing value the receiver keeps the pairs before it. */
  method UnmarshalVariables(vl: VariablesMap, n: Yaml.Node, check: ScalarCheck)
      returns (vl': VariablesMap, err: Option<string>)
    requires Yaml.WellFormed(n)
    ensures n.kind != Yaml.MappingNode ==> vl' == vl && err == Some("expected a mapping node")
    ensures n.kind == Yaml.MappingNode ==>
              && (err.None? <==> ParsePairs(n, |n.content| / 2, check).Ok?)
              && (err.None? ==> vl' == ParsePairs(n, |n.content| / 2, check).value)
              && (err.Some? ==> ParsePairs(n, |n.content| / 2, check) == Err(err.value))
              && (err.Some? ==> exists p: nat :: && 2 * p < |n.content|
                                                  && ParsePairs(n, p, check) == Ok(vl')
                                                  && ParseField(n.content[2 * p + 1], check) == Err(err.value))
  {
    if n.kind != Yaml.MappingNode {
      return vl, Some("expected a mapping node");
    }
    vl' := map[];
    var p := 0;
    while 2 * p < |n.content|
      invariant 2 * p <= |n.content|
      invariant ParsePairs(n, p, check) == Ok(vl')
      decreases |n.content| - 2 * p
    {
      var pVal := ParseField(n.content[2 * p + 1], check);
      if pVal.Err? {
        assert ParsePairs(n, p + 1, check) == Err(pVal.error);
        FailurePersists(n, p + 1, |n.content| / 2, check);
        return vl', Some(pVal.error);
      }
      vl' := vl'[n.content[2 * p].value := pVal.value];
      p := p + 1;
    }
    assert p == |n.content| / 2;
    return vl', None;
  }

  /** A failing prefix of the pairs makes every longer prefix fail alike. */
  lemma {:induction false} FailurePersists(n: Yaml.Node, p: nat, p': nat, check: ScalarCheck)
    requires p <= p' && 2 * p' <= |n.content|
    requires ParsePairs(n, p, check).Err?
    ensures ParsePairs(n, p', check) == ParsePairs(n, p, check)
    decreases p' - p
  {
    if p' > p {
      FailurePersists(n, p, p' - 1, check);
    }
  }

  // ---------------------------------------------------------------- merging

  /** The top-level overlay of `maps`, later maps overriding earlier ones. */
  function Merged(maps: seq<VariablesMap>): VariablesMap {
    if |maps| == 0 then map[]
    else Merged(maps[..|maps| - 1]) + maps[|maps| - 1]
  }

  /** A key is in the merge exactly when some map has it. */
  lemma {:induction false} MergedKeys(maps: seq<VariablesMap>, k: string)
    ensures k in Merged(maps) <==> exists i :: 0 <= i < |maps| && k in maps[i]
  {
    if |maps| > 0 {
      var init := maps[..|maps| - 1];
      MergedKeys(init, k);
      if k in Merged(init) {
        var i :| 0 <= i < |init| && k in init[i];
        assert k in maps[i];
      }
      if exists i :: 0 <= i < |maps| && k in maps[i] {
        var i :| 0 <= i < |maps| && k in maps[i];
        if i < |init| {
          assert k in init[i];
        }
      }
    }
  }

  /** A key takes its value, whole, from the last map that has it. */
  lemma {:induction false} MergedLastWins(maps: seq<VariablesMap>, k: string, i: nat)
    requires i < |maps| && k in maps[i]
    requires forall j :: i < j < |maps| ==> k !in maps[j]
    ensures k in Merged(maps) && Merged(maps)[k] == maps[i][k]
  {
    var init := maps[..|maps| - 1];
    if i < |maps| - 1 {
      MergedLastWins(init, k, i);
    }
  }

  /** Copies every entry of `m` into `result`, overriding what is there. */
  method Overlay(result: VariablesMap, m: VariablesMap) returns (r: VariablesMap)
    ensures r == result + m
  {
    r := result;
    var rest := m.Keys;
    while rest != {}
      invariant rest <= m.Keys
      invariant r.Keys == result.Keys + (m.Keys - rest)
      invariant forall k :: k in r ==> r[k] == (if k in m && k !in rest then m[k] else result[k])
      decreases rest
    {
      var key :| key in rest;
      r := r[key := m[key]];
      rest := rest - {key};
    }
  }

  /** MergeVariablesMaps: the maps overlaid in order. */
  method MergeVariablesMaps(maps: seq<VariablesMap>) returns (result: VariablesMap)
    ensures result == Merged(maps)
  {
    result := map[];
    var i := 0;
    while i < |maps|
      invariant i <= |maps|
      invariant result == Merged(maps[..i])
    {
      assert maps[..i + 1][..i] == maps[..i];
      result := Overlay(result, maps[i]);
      i := i + 1;
    }
    assert maps[..i] == maps;
  }

  // ---------------------------------------------------------------- transform

  /** Transform: each variable's value transformed under its own key; the
      whole transform fails, with no map, when any value fails. The values
      are visited in no particular order. */
  method Transform<T>(vl: VariablesMap, transformValue: Variable -> Result<T>) returns (r: Result<map<string, T>>)
    ensures r.Ok? <==> forall k :: k in vl ==> transformValue(vl[k]).Ok?
    ensures r.Ok? ==> r.value.Keys == vl.Keys && forall k :: k in vl ==> r.value[k] == transformValue(vl[k]).value
    ensures r.Err? ==> exists k :: k in vl && transformValue(vl[k]) == Err(r.error)
  {
    var data: map<string, T> := map[];
    var rest := vl.Keys;
    while rest != {}
      invariant rest <= vl.Keys
      invariant data.Keys == vl.Keys - rest
      invariant forall k :: k in data ==> transformValue(vl[k]).Ok? && data[k] == transformValue(vl[k]).value
      decreases rest
    {
      var key :| key in rest;
      var dat := transformValue(vl[key]);
      if dat.Err? {
        return Err(dat.error);
      }
      data := data[key := dat.value];
      rest := rest - {key};
    }
    return Ok(data);
  }

  // ---------------------------------------------------------------- references

  /** slices.Compact: drops every element equal to the one before it. */
  function Compact(s: seq<string>): (r: seq<string>)
    ensures |r| <= |s|
    ensures |s| > 0 ==> |r| > 0 && r[|r| - 1] == s[|s| - 1]
  {
    if |s| <= 1 then s
    else if s[|s| - 1] == s[|s| - 2] then Compact(s[..|s| - 1])
    else Compact(s[..|s| - 1]) + [s[|s| - 1]]
  }

  predicate NoAdjacentDuplicates(s: seq<string>) {
    forall i :: 0 < i < |s| ==> s[i] != s[i - 1]
  }

  lemma {:induction false} CompactNoAdjacentDuplicates(s: seq<string>)
    ensures NoAdjacentDuplicates(Compact(s))
  {
    if |s| > 1 {
      CompactNoAdjacentDuplicates(s[..|s| - 1]);
    }
  }

  /** Compacting keeps exactly the elements that were there. */
  lemma {:induction false} CompactElements(s: seq<string>, x: string)
    ensures x in Compact(s) <==> x in s
  {
    if |s| > 1 {
      var init := s[..|s| - 1];
      CompactElements(init, x);
      assert s == init + [s[|s| - 1]];
      if s[|s| - 1] == s[|s| - 2] {
        assert s[|s| - 1] in init;
      }
    }
  }

  /** A sequence without adjacent duplicates is its own compaction. */
  lemma {:induction false} CompactFixed(s: seq<string>)
    requires NoAdjacentDuplicates(s)
    ensures Compact(s) == s
  {
    if |s| > 1 {
      var init := s[..|s| - 1];
      assert NoAdjacentDuplicates(init);
      CompactFixed(init);
      assert s == init + [s[|s| - 1]];
    }
  }

  /** The references of the variables under `keys`, concatenated in that order. */
  function ConcatRefs(vl: VariablesMap, keys: seq<string>, refs: Variable -> seq<string>): seq<string>
    requires forall i :: 0 <= i < |keys| ==> keys[i] in vl
  {
    if |keys| == 0 then []
    else ConcatRefs(vl, keys[..|keys| - 1], refs) + refs(vl[keys[|keys| - 1]])
  }

  lemma {:induction false} ConcatRefsElements(vl: VariablesMap, keys: seq<string>, refs: Variable -> seq<string>, x: string)
    requires forall i :: 0 <= i < |keys| ==> keys[i] in vl
    ensures x in ConcatRefs(vl, keys, refs) <==> exists i :: 0 <= i < |keys| && x in refs(vl[keys[i]])
  {
    if |keys| > 0 {
      var init := keys[..|keys| - 1];
      ConcatRefsElements(vl, init, refs, x);
      if exists i :: 0 <= i < |keys| && x in refs(vl[keys[i]]) {
        var i :| 0 <= i < |keys| && x in refs(vl[keys[i]]);
        if i < |init| {
          assert init[i] == keys[i];
        }
      }
      if exists i :: 0 <= i < |init| && x in refs(vl[init[i]]) {
        var i :| 0 <= i < |init| && x in refs(vl[init[i]]);
        assert keys[i] == init[i];
      }
    }
  }

  /** ListReferencedComponents: the references of every variable, in the
      order the map yields its keys, with adjacent duplicates dropped. */
  method ListReferencedComponents(vl: VariablesMap, refs: Variable -> seq<string>)
      returns (r: seq<string>, ghost order: seq<string>)
    ensures |order| == |vl| && (forall i :: 0 <= i < |order| ==> order[i] in vl)
    ensures forall k :: k in vl ==> k in order
    ensures r == Compact(ConcatRefs(vl, order, refs))
    ensures NoAdjacentDuplicates(r)
    ensures forall x :: x in r <==> exists k :: k in vl && x in refs(vl[k])
  {
    var references: seq<string> := [];
    order := [];
    var rest := vl.Keys;
    while rest != {}
      invariant rest <= vl.Keys
      invariant |order| + |rest| == |vl|
      invariant forall i :: 0 <= i < |order| ==> order[i] in vl && order[i] !in rest
      invariant forall k :: k in vl && k !in rest ==> k in order
      invariant references == ConcatRefs(vl, order, refs)
      decreases rest
    {
      var key :| key in rest;
      assert (order + [key])[..|order|] == order;
      references := references + refs(vl[key]);
      order := order + [key];
      rest := rest - {key};
    }
    assert |vl.Keys| == |vl|;
    r := Compact(references);
    CompactNoAdjacentDuplicates(references);
    forall x
      ensures x in r <==> exists k :: k in vl && x in refs(vl[k])
    {
      CompactElements(references, x);
      ConcatRefsElements(vl, order, refs, x);
    }
  }
}
