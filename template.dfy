/** The rewriter of `${component.X.Y}` references in configuration values
    (internal/generator/variables.go). The regular expression
    `\${(component(?:\.[^\}]+)+)}` is modelled by a scanner: a match starts
    with `${component.`, continues with a non-empty run free of `}`, and ends
    at the first `}`; matches are found leftmost first and do not overlap. */
module TemplateVariable {
  import opened Wrappers
  import opened Strings

  /** The start of every reference, the text of the pattern's group. */
  const Head := "component."

  /** The start of every match. */
  const Prefix := "${" + Head

  /** The scanner reports at most this many matches. */
  const MaxMatches: nat := 20

  /** The interpolation syntax around a reference. */
  function Wrap(reference: string): string {
    "${" + reference + "}"
  }

  /** One match: the whole matched text and the text of its first group. */
  datatype Match = Match(whole: string, reference: string)

  /** `s` starts with a match of length `len`. */
  predicate MatchesAt(s: string, len: nat) {
    && |Prefix| + 2 <= len <= |s|
    && s[..|Prefix|] == Prefix
    && s[len - 1] == '}'
    && '}' !in s[|Prefix|..len - 1]
  }

  /** The length of the match at the head of `s`, if there is one; a match
      is unique when it exists. */
  function MatchLength(s: string): (r: Option<nat>)
    ensures forall len: nat :: MatchesAt(s, len) <==> r == Some(len)
  {
    if |s| < |Prefix| || s[..|Prefix|] != Prefix then None
    else match IndexOf(s[|Prefix|..], '}')
      case None => None
      case Some(k) => if k == 0 then None else Some(|Prefix| + k + 1)
  }

  /** A `component.` reference without a closing brace. */
  predicate IsReference(reference: string) {
    && |reference| > |Head|
    && reference[..|Head|] == Head
    && '}' !in reference
  }

  /** What every match looks like. */
  predicate Shaped(m: Match) {
    m.whole == Wrap(m.reference) && IsReference(m.reference)
  }

  /** The match at the head of `s`, taken apart. */
  lemma MatchShaped(s: string, len: nat)
    requires MatchesAt(s, len)
    ensures Shaped(Match(s[..len], s[2..len - 1]))
  {
    var reference := s[2..len - 1];
    assert s[..2] == Prefix[..2] == "${";
    assert s[..len] == s[..2] + reference + [s[len - 1]];
    assert reference[..|Head|] == s[..|Prefix|][2..] == Head;
    assert reference == Head + s[|Prefix|..len - 1];
  }

  /** Go's FindAllStringSubmatch(s, n) for the reference pattern: at most `n`
      leftmost, non-overlapping matches. */
  function FindAll(s: string, n: nat): (ms: seq<Match>)
    ensures |ms| <= n
    ensures forall i :: 0 <= i < |ms| ==> Shaped(ms[i])
    decreases |s|
  {
    if n == 0 || |s| == 0 then []
    else match MatchLength(s)
      case Some(len) =>
        MatchShaped(s, len);
        [Match(s[..len], s[2..len - 1])] + FindAll(s[len..], n - 1)
      case None => FindAll(s[1..], n)
  }

  /** The scanner finds nothing exactly when no position starts a match. */
  lemma {:induction false} FindAllEmpty(s: string, n: nat)
    requires n > 0
    ensures FindAll(s, n) == [] <==> forall i :: 0 <= i < |s| ==> MatchLength(s[i..]).None?
    decreases |s|
  {
    if |s| > 0 {
      assert s[0..] == s;
      if MatchLength(s).None? {
        FindAllEmpty(s[1..], n);
        if forall i :: 0 <= i < |s[1..]| ==> MatchLength(s[1..][i..]).None? {
          forall i | 0 <= i < |s|
            ensures MatchLength(s[i..]).None?
          {
            if i > 0 {
              assert s[i..] == s[1..][i - 1..];
            }
          }
        } else {
          var i :| 0 <= i < |s[1..]| && MatchLength(s[1..][i..]).Some?;
          assert s[1..][i..] == s[i + 1..];
        }
      }
    }
  }

  /** A value that is one whole reference yields exactly that match. */
  lemma WholeValueMatch(reference: string, n: nat)
    requires IsReference(reference) && n > 0
    ensures FindAll(Wrap(reference), n) == [Match(Wrap(reference), reference)]
  {
    var v := Wrap(reference);
    assert v[..|Prefix|] == "${" + reference[..|Head|] == Prefix;
    assert v[|Prefix|..|v| - 1] == reference[|Head|..];
    assert MatchesAt(v, |v|);
    assert v[..|v|] == v && v[2..|v| - 1] == reference && v[|v|..] == [];
  }

  /** The error for a reference that lacks the output name. */
  function InvalidReference(reference: string): string {
    "invalid variable '" + reference + "'; "
      + "When using a ${component...} variable it has to consist of 2 parts; "
      + "component-name.output-name"
  }

  /** The module reference the pieces `component`, X, Y of a reference become. */
  function Replacement(parts: seq<string>): string
    requires |parts| == 3
  {
    Wrap("module." + parts[1] + "." + parts[2])
  }

  /** A reference split at dots into at most three pieces. */
  function Parts(m: Match): seq<string> {
    SplitN(m.reference, '.', 3)
  }

  /** The value with every occurrence of a well-formed match replaced. */
  function Apply(val: string, m: Match): string
    requires Shaped(m) && |Parts(m)| == 3
  {
    ReplaceAll(val, m.whole, Replacement(Parts(m)))
  }

  /** The value after replacing every occurrence of each match in turn; the
      first match with fewer than three pieces is an error. */
  function Rewrite(val: string, ms: seq<Match>): (r: Result<string>)
    requires forall i :: 0 <= i < |ms| ==> Shaped(ms[i])
    decreases |ms|
  {
    if |ms| == 0 then Ok(val)
    else if |Parts(ms[0])| < 3 then Err(InvalidReference(ms[0].reference))
    else
      assert Shaped(ms[0]);
      Rewrite(Apply(val, ms[0]), ms[1..])
  }

  /** One step of the rewrite: the first match fails it or is applied. */
  lemma RewriteStep(val: string, ms: seq<Match>)
    requires 0 < |ms| && forall i :: 0 <= i < |ms| ==> Shaped(ms[i])
    ensures |Parts(ms[0])| < 3 ==> Rewrite(val, ms) == Err(InvalidReference(ms[0].reference))
    ensures |Parts(ms[0])| == 3 ==> Rewrite(val, ms) == Rewrite(Apply(val, ms[0]), ms[1..])
  {
  }

  /** Rewriting succeeds exactly when every match has three pieces. */
  lemma {:induction false} RewriteOk(val: string, ms: seq<Match>)
    requires forall i :: 0 <= i < |ms| ==> Shaped(ms[i])
    ensures Rewrite(val, ms).Ok? <==> forall k :: 0 <= k < |ms| ==> |Parts(ms[k])| == 3
    decreases |ms|
  {
    if |ms| > 0 && |Parts(ms[0])| == 3 {
      assert Shaped(ms[0]);
      RewriteOk(Apply(val, ms[0]), ms[1..]);
      assert forall k :: 1 <= k < |ms| ==> ms[k] == ms[1..][k - 1];
    }
  }

  /** A failure reports the first match with fewer than three pieces. */
  lemma {:induction false} RewriteFirstError(val: string, ms: seq<Match>, k: nat)
    requires forall i :: 0 <= i < |ms| ==> Shaped(ms[i])
    requires k < |ms| && |Parts(ms[k])| < 3
    requires forall j :: 0 <= j < k ==> |Parts(ms[j])| == 3
    ensures Rewrite(val, ms) == Err(InvalidReference(ms[k].reference))
    decreases k
  {
    if k > 0 {
      assert Shaped(ms[0]) && |Parts(ms[0])| == 3;
      var next := Apply(val, ms[0]);
      assert Rewrite(val, ms) == Rewrite(next, ms[1..]);
      assert ms[1..][k - 1] == ms[k];
      forall j | 0 <= j < k - 1
        ensures |Parts(ms[1..][j])| == 3
      {
        assert ms[1..][j] == ms[j + 1];
      }
      RewriteFirstError(next, ms[1..], k - 1);
    }
  }

  /** Go's ParseTemplateVariable: the value with each `${component.X.Y}`
      reference (of the first 20 found) rewritten to `${module.X.Y}`. */
  method ParseTemplateVariable(val: string) returns (r: Result<string>)
    ensures r == Rewrite(val, FindAll(val, MaxMatches))
  {
    var matches := FindAll(val, MaxMatches);
    if |matches| == 0 {
      return Ok(val);
    }
    r := RewriteMatches(val, matches);
  }

  /** The loop of ParseTemplateVariable over the matches found. */
  method RewriteMatches(val: string, matches: seq<Match>) returns (r: Result<string>)
    requires forall i :: 0 <= i < |matches| ==> Shaped(matches[i])
    ensures r == Rewrite(val, matches)
  {
    var current := val;
    var i := 0;
    while i < |matches|
      invariant 0 <= i <= |matches|
      invariant Rewrite(val, matches) == Rewrite(current, matches[i..])
    {
      ghost var rest := matches[i..];
      RewriteStep(current, rest);
      assert rest[0] == matches[i] && rest[1..] == matches[i + 1..];
      var parts := SplitN(matches[i].reference, '.', 3);
      if |parts| < 3 {
        return Err(InvalidReference(matches[i].reference));
      }
      assert parts == Parts(matches[i]);
      current := ReplaceAll(current, matches[i].whole, Replacement(parts));
      i := i + 1;
    }
    return Ok(current);
  }

  /** A value without any reference is returned unchanged. */
  lemma NoReferenceUnchanged(val: string)
    requires forall i :: 0 <= i < |val| ==> MatchLength(val[i..]).None?
    ensures Rewrite(val, FindAll(val, MaxMatches)) == Ok(val)
  {
    FindAllEmpty(val, MaxMatches);
  }

  /** The head is the group name and a dot. */
  lemma HeadParts()
    ensures Head == "component" + ['.'] && '.' !in "component"
  {
  }

  /** `component.X.Y` with X free of dots splits into `component`, X and Y,
      however many dots Y holds. */
  lemma SplitReference(x: string, y: string)
    requires '.' !in x
    ensures SplitN(Head + x + "." + y, '.', 3) == ["component", x, y]
  {
    HeadParts();
    assert Head + x + "." + y == "component" + ['.'] + (x + ['.'] + y);
    SplitNAtFirst("component", '.', x + ['.'] + y, 3);
    SplitNAtFirst(x, '.', y, 2);
  }

  /** A value that is one reference `${component.X.Y}` becomes
      `${module.X.Y}`; dots in Y stay, since the split is limited to three. */
  lemma SingleReference(x: string, y: string)
    requires '.' !in x && '}' !in x && '}' !in y
    ensures var val := Wrap(Head + x + "." + y);
            Rewrite(val, FindAll(val, MaxMatches)) == Ok(Wrap("module." + x + "." + y))
  {
    var reference := Head + x + "." + y;
    assert reference[..|Head|] == Head;
    assert '}' !in reference by {
      assert reference == Head + (x + "." + y);
    }
    WholeValueMatch(reference, MaxMatches);
    SplitReference(x, y);
    ReplaceAllWhole(Wrap(reference), Wrap("module." + x + "." + y));
  }

  /** A reference `${component.X}` without an output name is an error that
      quotes `component.X`. */
  lemma MissingOutputName(x: string)
    requires '.' !in x && '}' !in x && |x| > 0
    ensures var val := Wrap(Head + x);
            Rewrite(val, FindAll(val, MaxMatches)) == Err(InvalidReference(Head + x))
  {
    var reference := Head + x;
    assert reference[..|Head|] == Head;
    WholeValueMatch(reference, MaxMatches);
    HeadParts();
    assert reference == "component" + ['.'] + x;
    SplitNAtFirst("component", '.', x, 3);
  }
}
