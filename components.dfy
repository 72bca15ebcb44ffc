/** The global `components:` block (internal/config/parse_components.go):
    the checks and defaults applied to every component, and the
    `${include(<file>)}` directive that loads the block from another file. */
module ComponentsConfig {
  import opened Wrappers
  import opened Strings
  import Yaml

  /** A global component; `endpoints` holds the values of its endpoint map. */
  datatype Component = Component(name: string, source: string, version: string,
                                 integrations: seq<string>, endpoints: seq<string>)

  function Names(cs: seq<Component>): (r: seq<string>)
    ensures |r| == |cs| && forall i :: 0 <= i < |cs| ==> r[i] == cs[i].name
  {
    if |cs| == 0 then [] else [cs[0].name] + Names(cs[1..])
  }

  function Duplicate(name: string): string {
    "component " + name + " is duplicate"
  }

  /** A component without integrations gets the cloud integration. */
  function WithDefaultIntegrations(c: Component, cloud: string): Component {
    if |c.integrations| < 1 then c.(integrations := [cloud]) else c
  }

  /** The component after its defaults: a source starting with "." is made
      absolute with `abs` (filepath.Abs), whose failure is the error. */
  function Normalised(c: Component, cloud: string, abs: string -> Result<string>): Result<Component> {
    var d := WithDefaultIntegrations(c, cloud);
    if HasPrefix(d.source, ".") then
      match abs(d.source)
      case Ok(p) => Ok(d.(source := p))
      case Err(e) => Err(e)
    else Ok(d)
  }

  /** Component `i` stops the verification: its name was seen before, or
      its source cannot be made absolute. */
  predicate Fails(cs: seq<Component>, i: nat, cloud: string, abs: string -> Result<string>)
    requires i < |cs|
  {
    cs[i].name in Names(cs[..i]) || Normalised(cs[i], cloud, abs).Err?
  }

  /** The error component `i` stops the verification with. */
  function FailureOf(cs: seq<Component>, i: nat, cloud: string, abs: string -> Result<string>): string
    requires i < |cs| && Fails(cs, i, cloud, abs)
  {
    if cs[i].name in Names(cs[..i]) then Duplicate(cs[i].name) else Normalised(cs[i], cloud, abs).error
  }

  /** The walk has passed the first `i` components of `cs`: none of them
      fails, and `now` holds each of them with its defaults. */
  ghost predicate Done(cs: seq<Component>, now: seq<Component>, i: nat, cloud: string, abs: string -> Result<string>) {
    && |now| == |cs| && i <= |cs|
    && forall j :: 0 <= j < i ==> !Fails(cs, j, cloud, abs) && Normalised(cs[j], cloud, abs) == Ok(now[j])
  }

  /** `now` agrees with `cs` from index `from` on. */
  ghost predicate Untouched(cs: seq<Component>, now: seq<Component>, from: nat) {
    |now| == |cs| && forall j :: from <= j < |cs| ==> now[j] == cs[j]
  }

  lemma VerifyStep(cs: seq<Component>, now: seq<Component>, i: nat, cloud: string, abs: string -> Result<string>,
                   next: seq<Component>)
    requires Done(cs, now, i, cloud, abs) && Untouched(cs, now, i) && i < |cs|
    requires !Fails(cs, i, cloud, abs) && next == now[i := Normalised(cs[i], cloud, abs).value]
    ensures Done(cs, next, i + 1, cloud, abs) && Untouched(cs, next, i + 1)
  {
  }

  lemma NamesSnoc(cs: seq<Component>, i: nat)
    requires i < |cs|
    ensures Names(cs[..i + 1]) == Names(cs[..i]) + [cs[i].name]
  {
    var l, r := Names(cs[..i + 1]), Names(cs[..i]) + [cs[i].name];
    forall k | 0 <= k < |l|
      ensures l[k] == r[k]
    {
      assert cs[..i + 1][k] == cs[k];
    }
  }

  /** Go's verifyComponents: each component in turn is checked for a repeated
      name and gets its defaults in place; the first failure ends the walk,
      leaving the components before it updated, the failing one with its
      integrations defaulted when the failure is its source, and the rest
      untouched. `k` is the index the walk stopped at. */
  method VerifyComponents(a: array<Component>, cloud: string, abs: string -> Result<string>)
    returns (err: Option<string>, ghost k: nat)
    modifies a
    ensures Done(old(a[..]), a[..], k, cloud, abs) && Untouched(old(a[..]), a[..], k + 1)
    ensures k == a.Length ==> err.None?
    ensures k < a.Length ==> Fails(old(a[..]), k, cloud, abs) && err == Some(FailureOf(old(a[..]), k, cloud, abs))
    ensures k < a.Length ==>
              a[k] == if old(a[k]).name in Names(old(a[..k])) then old(a[k]) else WithDefaultIntegrations(old(a[k]), cloud)
  {
    ghost var cs := a[..];
    var seen: seq<string> := [];
    var i := 0;
    while i < a.Length
      invariant 0 <= i <= a.Length
      invariant seen == Names(cs[..i])
      invariant Done(cs, a[..], i, cloud, abs) && Untouched(cs, a[..], i)
    {
      ghost var before := a[..];
      var c := a[i];
      var name := c.name;
      NamesSnoc(cs, i);
      if name in seen {
        return Some(Duplicate(name)), i;
      }
      if |c.integrations| < 1 {
        assert c.integrations + [cloud] == [cloud];
        c := c.(integrations := c.integrations + [cloud]);
        a[i] := c;
      }
      assert c == WithDefaultIntegrations(cs[i], cloud);
      if HasPrefix(c.source, ".") {
        var val := abs(c.source);
        if val.Err? {
          return Some(val.error), i;
        }
        c := c.(source := val.value);
        a[i] := c;
      }
      assert a[..] == before[i := c];
      VerifyStep(cs, before, i, cloud, abs, a[..]);
      seen := seen + [name];
      i := i + 1;
    }
    return None, i;
  }

  /** Whether the name of component `j` appears among the earlier ones. */
  lemma NameSeen(cs: seq<Component>, j: nat)
    requires j < |cs|
    ensures cs[j].name in Names(cs[..j]) <==> exists i :: 0 <= i < j && cs[i].name == cs[j].name
  {
    if cs[j].name in Names(cs[..j]) {
      var i :| 0 <= i < j && Names(cs[..j])[i] == cs[j].name;
      assert cs[..j][i] == cs[i];
    }
    if exists i :: 0 <= i < j && cs[i].name == cs[j].name {
      var i :| 0 <= i < j && cs[i].name == cs[j].name;
      assert Names(cs[..j])[i] == cs[..j][i].name == cs[j].name;
    }
  }

  /** A walk that reaches the end saw pairwise different names and could
      give every component its defaults. */
  lemma DistinctIfVerified(cs: seq<Component>, cloud: string, abs: string -> Result<string>)
    requires forall j :: 0 <= j < |cs| ==> !Fails(cs, j, cloud, abs)
    ensures forall i, j :: 0 <= i < j < |cs| ==> cs[i].name != cs[j].name
    ensures forall j :: 0 <= j < |cs| ==> Normalised(cs[j], cloud, abs).Ok?
  {
    forall i, j | 0 <= i < j < |cs|
      ensures cs[i].name != cs[j].name
    {
      assert !Fails(cs, j, cloud, abs);
      NameSeen(cs, j);
    }
    forall j | 0 <= j < |cs|
      ensures Normalised(cs[j], cloud, abs).Ok?
    {
      assert !Fails(cs, j, cloud, abs);
    }
  }

  /** Conversely, components with pairwise different names whose defaults
      all apply are walked to the end. */
  lemma VerifiedIfDistinct(cs: seq<Component>, cloud: string, abs: string -> Result<string>)
    requires forall i, j :: 0 <= i < j < |cs| ==> cs[i].name != cs[j].name
    requires forall j :: 0 <= j < |cs| ==> Normalised(cs[j], cloud, abs).Ok?
    ensures forall j :: 0 <= j < |cs| ==> !Fails(cs, j, cloud, abs)
  {
    forall j | 0 <= j < |cs|
      ensures !Fails(cs, j, cloud, abs)
    {
      NameSeen(cs, j);
    }
  }

  /** The defaults: an empty integration list becomes the cloud integration
      alone, a non-empty one is kept, and only a source starting with "."
      changes, to what `abs` makes of it. */
  lemma NormalisedFields(c: Component, cloud: string, abs: string -> Result<string>)
    requires Normalised(c, cloud, abs).Ok?
    ensures var d := Normalised(c, cloud, abs).value;
            && d.name == c.name && d.version == c.version && d.endpoints == c.endpoints
            && d.integrations == (if |c.integrations| == 0 then [cloud] else c.integrations)
            && (HasPrefix(c.source, ".") ==> abs(c.source) == Ok(d.source))
            && (!HasPrefix(c.source, ".") ==> d.source == c.source)
  {
  }

  const IncludeStart := "${include("

  /** The file named by an include directive at the head of `s`: a non-empty
      run free of ")" closed by ")}". */
  function IncludeAt(s: string): (r: Option<string>)
    ensures r.Some? ==> |r.value| > 0 && ')' !in r.value && HasPrefix(s, IncludeStart + r.value + ")}")
  {
    if !HasPrefix(s, IncludeStart) then None
    else
      var rest := s[|IncludeStart|..];
      match IndexOf(rest, ')')
      case None => None
      case Some(k) =>
        if k > 0 && k + 1 < |rest| && rest[k + 1] == '}' then
          assert s[..|IncludeStart| + k + 2] == IncludeStart + rest[..k] + ")}";
          Some(rest[..k])
        else None
  }

  /** Go's FindStringSubmatch for `\$\{include\(([^)]+)\)\}`: the file of the
      leftmost directive in `s`. */
  function FindInclude(s: string): (r: Option<string>)
    decreases |s|
  {
    if |s| == 0 then None
    else match IncludeAt(s)
      case Some(f) => Some(f)
      case None => FindInclude(s[1..])
  }

  /** The directive for a file names that file. */
  lemma IncludeOfDirective(f: string, tail: string)
    requires |f| > 0 && ')' !in f
    ensures FindInclude(IncludeStart + f + ")}" + tail) == Some(f)
  {
    var s := IncludeStart + f + ")}" + tail;
    var rest := s[|IncludeStart|..];
    assert s[..|IncludeStart|] == IncludeStart;
    assert rest == f + ")}" + tail;
    assert rest[..|f|] == f && rest[|f|] == ')';
    IndexOfAt(rest, ')', |f|);
    assert rest[|f| + 1] == '}';
  }

  const IncludeTagError := "failed to parse ${include()} tag"

  /** Go's loadComponentsNode: the single node of the document the directive
      names. `load` reads and decodes the file named by `join(dir, file)`. */
  function LoadComponentsNode(node: Yaml.Node, dir: string, join: (string, string) -> string,
                              load: string -> Result<Yaml.Node>): (r: Result<Yaml.Node>)
    ensures FindInclude(node.value).None? ==> r == Err(IncludeTagError)
    ensures r.Ok? ==>
              exists f :: (FindInclude(node.value) == Some(f) && load(join(dir, f)).Ok?
                           && load(join(dir, f)).value.content == [r.value])
  {
    match FindInclude(node.value)
    case None => Err(IncludeTagError)
    case Some(f) =>
      match load(join(dir, f))
      case Err(e) => Err(e)
      case Ok(doc) =>
        if |doc.content| != 1 then Err("Invalid yaml file")
        else
          assert doc.content == [doc.content[0]];
          Ok(doc.content[0])
  }

  /** The include branch of parseComponentsNode: a string-tagged node is a
      directive, any other node is the block itself. */
  function ComponentsNode(node: Yaml.Node, source: string, dirOf: string -> string,
                          join: (string, string) -> string, load: string -> Result<Yaml.Node>): (r: Result<Yaml.Node>)
    ensures node.tag != "!!str" ==> r == Ok(node)
    ensures node.tag == "!!str" ==> r == LoadComponentsNode(node, dirOf(source), join, load)
  {
    if node.tag == "!!str" then LoadComponentsNode(node, dirOf(source), join, load) else Ok(node)
  }

  /** An included document with any number of nodes but one is rejected. */
  lemma IncludedDocumentHasOneNode(node: Yaml.Node, dir: string, join: (string, string) -> string,
                                   load: string -> Result<Yaml.Node>, f: string)
    requires FindInclude(node.value) == Some(f)
    requires load(join(dir, f)).Ok? && |load(join(dir, f)).value.content| != 1
    ensures LoadComponentsNode(node, dir, join, load) == Err("Invalid yaml file")
  {
  }
}
