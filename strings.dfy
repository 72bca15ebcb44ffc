/** The parts of Go's `strings` and `strconv` packages the core relies on,
    written out over `seq<char>`. */
module Strings {
  import opened Wrappers

  const MinInt64: int := -0x8000_0000_0000_0000
  const MaxInt64: int := 0x7fff_ffff_ffff_ffff

  /** Go's strings.HasPrefix. */
  predicate HasPrefix(s: string, prefix: string) {
    |prefix| <= |s| && s[..|prefix|] == prefix
  }

  /** Index of the first occurrence of `c` in `s` (Go's strings.IndexByte). */
  function IndexOf(s: string, c: char): (r: Option<nat>)
    ensures r.Some? ==> r.value < |s| && s[r.value] == c && c !in s[..r.value]
    ensures r.None? <==> c !in s
  {
    if |s| == 0 then None
    else if s[0] == c then Some(0)
    else match IndexOf(s[1..], c)
      case None => None
      case Some(i) => Some(i + 1)
  }

  /** Go's strings.SplitN(s, sep, n) for a one-character separator and n >= 1:
      at most n pieces, the last holding the unsplit rest. */
  function SplitN(s: string, sep: char, n: nat): (parts: seq<string>)
    requires n >= 1
    ensures 1 <= |parts| <= n
    decreases n
  {
    if n == 1 then [s]
    else match IndexOf(s, sep)
      case None => [s]
      case Some(i) => [s[..i]] + SplitN(s[i + 1..], sep, n - 1)
  }

  /** The first occurrence of `c` is at `i` when `s[i]` is `c` and no
      earlier character is. */
  lemma IndexOfAt(s: string, c: char, i: nat)
    requires i < |s| && s[i] == c && c !in s[..i]
    ensures IndexOf(s, c) == Some(i)
  {
  }

  /** Splitting at the first separator peels off the separator-free head. */
  lemma SplitNAtFirst(a: string, c: char, b: string, n: nat)
    requires c !in a && n >= 2
    ensures SplitN(a + [c] + b, c, n) == [a] + SplitN(b, c, n - 1)
  {
    var s := a + [c] + b;
    assert s[..|a|] == a;
    IndexOfAt(s, c, |a|);
    assert s[|a| + 1..] == b;
  }

  /** Every piece but the last is free of the separator. */
  lemma {:induction false} SplitNPiecesHaveNoSeparator(s: string, sep: char, n: nat, k: nat)
    requires n >= 1 && k + 1 < |SplitN(s, sep, n)|
    ensures sep !in SplitN(s, sep, n)[k]
    decreases n
  {
    if n > 1 && IndexOf(s, sep).Some? {
      var i := IndexOf(s, sep).value;
      var rest := SplitN(s[i + 1..], sep, n - 1);
      var parts := SplitN(s, sep, n);
      assert parts == [s[..i]] + rest;
      if k == 0 {
        assert parts[0] == s[..i];
      } else {
        SplitNPiecesHaveNoSeparator(s[i + 1..], sep, n - 1, k - 1);
        assert parts[k] == rest[k - 1];
      }
    }
  }

  /** Joining the pieces of SplitN with the separator gives back the input. */
  lemma {:induction false} SplitNJoin(s: string, sep: char, n: nat)
    requires n >= 1
    ensures Join(SplitN(s, sep, n), [sep]) == s
    decreases n
  {
    if n > 1 && IndexOf(s, sep).Some? {
      var i := IndexOf(s, sep).value;
      var head, tail := s[..i], s[i + 1..];
      var rest := SplitN(tail, sep, n - 1);
      assert SplitN(s, sep, n) == [head] + rest;
      SplitNJoin(tail, sep, n - 1);
      JoinCons(head, rest, [sep]);
      Rejoin(s, i);
    }
  }

  lemma Rejoin(s: string, i: nat)
    requires i < |s|
    ensures s[..i] + [s[i]] + s[i + 1..] == s
  {
  }

  /** Go's strings.Join: no parts give the empty string, one part is itself,
      and each further part is added after a separator. */
  function Join(parts: seq<string>, sep: string): (r: string)
    ensures |parts| == 0 ==> r == ""
    ensures |parts| == 1 ==> r == parts[0]
  {
    if |parts| == 0 then ""
    else if |parts| == 1 then parts[0]
    else parts[0] + sep + Join(parts[1..], sep)
  }

  /** Join read from the other end: the last part follows the join of the
      others and one separator. */
  lemma {:induction false} JoinSnoc(parts: seq<string>, sep: string)
    requires |parts| > 1
    ensures Join(parts, sep) == Join(parts[..|parts| - 1], sep) + sep + parts[|parts| - 1]
    decreases |parts|
  {
    var init := parts[..|parts| - 1];
    assert parts == [parts[0]] + parts[1..];
    if |parts| > 2 {
      JoinSnoc(parts[1..], sep);
      assert parts[1..][..|parts| - 2] == init[1..];
      assert init == [init[0]] + init[1..];
      JoinCons(init[0], init[1..], sep);
    } else {
      assert init == [parts[0]];
    }
  }

  /** Go's strings.ReplaceAll for a non-empty `pat`: every non-overlapping
      occurrence, scanning left to right, is replaced with `repl`. */
  function ReplaceAll(s: string, pat: string, repl: string): (r: string)
    requires |pat| > 0
    decreases |s|
  {
    if |s| < |pat| then s
    else if s[..|pat|] == pat then repl + ReplaceAll(s[|pat|..], pat, repl)
    else [s[0]] + ReplaceAll(s[1..], pat, repl)
  }

  /** Replacing a whole string with something gives that something. */
  lemma ReplaceAllWhole(s: string, repl: string)
    requires |s| > 0
    ensures ReplaceAll(s, s, repl) == repl
  {
    assert s[..|s|] == s;
    assert s[|s|..] == "";
  }

  /** JoinCons: a part put in front is followed by one separator. */
  lemma JoinCons(a: string, rest: seq<string>, sep: string)
    requires |rest| > 0
    ensures Join([a] + rest, sep) == a + sep + Join(rest, sep)
  {
    assert ([a] + rest)[1..] == rest;
  }

  /** `pat` occurs in `s` at position `i`. */
  predicate At(s: string, pat: string, i: nat) {
    i + |pat| <= |s| && s[i..i + |pat|] == pat
  }

  /** A prefix of `s` in which no occurrence of `pat` starts is copied as it
      is. */
  lemma {:induction false} ReplaceAllSkip(s: string, pat: string, repl: string, j: nat)
    requires |pat| > 0 && j <= |s|
    requires forall i: nat :: i < j ==> !At(s, pat, i)
    ensures ReplaceAll(s, pat, repl) == s[..j] + ReplaceAll(s[j..], pat, repl)
    decreases j
  {
    if j > 0 {
      ReplaceAllStep(s, pat, repl);
      forall i: nat | i < j - 1
        ensures !At(s[1..], pat, i)
      {
        AtTail(s, pat, i);
      }
      ReplaceAllSkip(s[1..], pat, repl, j - 1);
      SliceTail(s, j);
    }
  }

  /** A first character that starts no occurrence is copied. */
  lemma ReplaceAllStep(s: string, pat: string, repl: string)
    requires |pat| > 0 && |s| > 0 && !At(s, pat, 0)
    ensures ReplaceAll(s, pat, repl) == [s[0]] + ReplaceAll(s[1..], pat, repl)
  {
    if |s| >= |pat| {
      assert s[0..0 + |pat|] == s[..|pat|];
    }
  }

  lemma AtTail(s: string, pat: string, i: nat)
    requires |s| > 0
    ensures At(s[1..], pat, i) <==> At(s, pat, i + 1)
  {
    if i + |pat| <= |s| - 1 {
      assert s[1..][i..i + |pat|] == s[i + 1..i + 1 + |pat|];
    }
  }

  lemma SliceTail(s: string, j: nat)
    requires 0 < j <= |s|
    ensures [s[0]] + s[1..][..j - 1] == s[..j] && s[1..][j - 1..] == s[j..]
  {
  }

  /** The leftmost occurrence of `pat` is replaced by `repl`, and the scan
      goes on right after it. */
  lemma ReplaceAllFirst(s: string, pat: string, repl: string, j: nat)
    requires |pat| > 0 && At(s, pat, j)
    requires forall i: nat :: i < j ==> !At(s, pat, i)
    ensures ReplaceAll(s, pat, repl) == s[..j] + repl + ReplaceAll(s[j + |pat|..], pat, repl)
  {
    ReplaceAllSkip(s, pat, repl, j);
    ReplaceAllHit(s, pat, repl, j);
  }

  /** An occurrence at `j` is replaced when the scan reaches it. */
  lemma ReplaceAllHit(s: string, pat: string, repl: string, j: nat)
    requires |pat| > 0 && At(s, pat, j)
    ensures ReplaceAll(s[j..], pat, repl) == repl + ReplaceAll(s[j + |pat|..], pat, repl)
  {
    var t := s[j..];
    assert t[..|pat|] == s[j..j + |pat|];
    assert t[|pat|..] == s[j + |pat|..];
  }

  /** A string in which `pat` does not occur is left unchanged. */
  lemma ReplaceAllAbsent(s: string, pat: string, repl: string)
    requires |pat| > 0
    requires forall i: nat :: !At(s, pat, i)
    ensures ReplaceAll(s, pat, repl) == s
  {
    ReplaceAllSkip(s, pat, repl, |s|);
    assert s[..|s|] == s;
  }

  predicate IsDigit(c: char) { '0' <= c <= '9' }

  predicate AllDigits(s: string) { forall i :: 0 <= i < |s| ==> IsDigit(s[i]) }

  /** The value of a string of decimal digits. */
  function DigitsValue(s: string): (v: nat)
    requires AllDigits(s)
  {
    if |s| == 0 then 0
    else DigitsValue(s[..|s| - 1]) * 10 + (s[|s| - 1] as int - '0' as int)
  }

  /** Go's strconv.Atoi on a 64-bit platform: an optional sign, at least one
      decimal digit and nothing else, and the value must fit in an int64. */
  function Atoi(s: string): (r: Option<int>)
    ensures r.Some? ==> MinInt64 <= r.value <= MaxInt64
  {
    var negative := |s| > 0 && s[0] == '-';
    var digits := if |s| > 0 && (s[0] == '-' || s[0] == '+') then s[1..] else s;
    if |digits| == 0 || !AllDigits(digits) then None
    else
      var mag: int := DigitsValue(digits);
      var v := if negative then -mag else mag;
      if MinInt64 <= v <= MaxInt64 then Some(v) else None
  }

  function DigitChar(d: nat): (c: char)
    requires d < 10
    ensures IsDigit(c) && c as int - '0' as int == d
  {
    ('0' as int + d) as char
  }

  /** Decimal rendering of a natural number (fmt's %d, no sign). */
  function NatToString(n: nat): (s: string)
    ensures |s| > 0 && AllDigits(s)
  {
    if n < 10 then [DigitChar(n)]
    else NatToString(n / 10) + [DigitChar(n % 10)]
  }

  /** Decimal rendering of an integer (fmt's %d and %v). */
  function IntToString(i: int): (s: string)
    ensures |s| > 0
  {
    if i < 0 then "-" + NatToString(-i) else NatToString(i)
  }

  lemma {:induction false} DigitsValueOfNatToString(n: nat)
    ensures DigitsValue(NatToString(n)) == n
  {
    var s := NatToString(n);
    if n >= 10 {
      DigitsValueOfNatToString(n / 10);
      assert s[..|s| - 1] == NatToString(n / 10);
    }
  }

  /** Atoi reads back what IntToString renders, for every int64. */
  lemma AtoiOfIntToString(i: int)
    requires MinInt64 <= i <= MaxInt64
    ensures Atoi(IntToString(i)) == Some(i)
  {
    if i < 0 {
      var d := NatToString(-i);
      assert IntToString(i) == "-" + d;
      assert ("-" + d)[0] == '-' && ("-" + d)[1..] == d;
      DigitsValueOfNatToString(-i);
    } else {
      var d := NatToString(i);
      assert IsDigit(d[0]);
      DigitsValueOfNatToString(i);
    }
  }
}
