/**
  The pieces of Go's `strings` package and of RE2's character classes that the
  bundler relies on: `\s`, `strings.Index`, `strings.Replace(s, old, new, 1)`,
  `strings.Split` and `strings.Join`, all on strings seen as sequences of runes.
 */
module Strings {
  import opened Wrappers

  /** RE2's `\s`: tab, newline, form feed, carriage return and space (no vertical tab). */
  predicate IsSpace(c: char) {
    c == '\t' || c == '\n' || c == '\U{000C}' || c == '\r' || c == ' '
  }

  /** The class `['"]`. */
  predicate IsQuote(c: char) {
    c == '\'' || c == '"'
  }

  /** Every rune of s[a..b] is in `\s`. */
  ghost predicate AllSpace(s: string, a: nat, b: nat)
    requires b <= |s|
  {
    forall i :: a <= i < b ==> IsSpace(s[i])
  }

  /** Where the greedy `\s*` started at position i of s stops. */
  function SpaceEnd(s: string, i: nat): (r: nat)
    requires i <= |s|
    ensures i <= r <= |s|
    ensures r == |s| || !IsSpace(s[r])
    decreases |s| - i
  {
    if i < |s| && IsSpace(s[i]) then SpaceEnd(s, i + 1) else i
  }

  /** Everything the greedy `\s*` takes is a space. */
  lemma {:induction false} SpaceEndSpaces(s: string, i: nat)
    requires i <= |s|
    ensures AllSpace(s, i, SpaceEnd(s, i))
    decreases |s| - i
  {
    if i < |s| && IsSpace(s[i]) {
      SpaceEndSpaces(s, i + 1);
    }
  }

  /** The greedy `\s*` takes the only maximal run of spaces: any run that stops at a non-space is it. */
  lemma {:induction false} SpaceEndUnique(s: string, i: nat, r: nat)
    requires i <= r <= |s| && AllSpace(s, i, r) && (r == |s| || !IsSpace(s[r]))
    ensures SpaceEnd(s, i) == r
    decreases r - i
  {
    if i < r {
      SpaceEndUnique(s, i + 1, r);
    }
  }

  /** The greedy `\s*` takes at least every run of spaces from i. */
  lemma SpaceEndCovers(s: string, i: nat, r: nat)
    requires i <= r <= |s| && AllSpace(s, i, r)
    ensures r <= SpaceEnd(s, i)
  {
  }

  /** The greedy `\s*` stops at the latest at the first non-space from i. */
  lemma {:induction false} SpaceEndStops(s: string, i: nat, c: nat)
    requires i <= c < |s| && !IsSpace(s[c])
    ensures SpaceEnd(s, i) <= c
    decreases c - i
  {
    if i < c && IsSpace(s[i]) {
      SpaceEndStops(s, i + 1, c);
    }
  }

  /** Scanning spaces in a suffix of s is scanning them in s, shifted. */
  lemma SpaceEndShift(s: string, a: nat, j: nat)
    requires a + j <= |s|
    ensures SpaceEnd(s[a..], j) == SpaceEnd(s, a + j) - a
  {
    var r := SpaceEnd(s, a + j);
    SpaceEndSpaces(s, a + j);
    assert AllSpace(s[a..], j, r - a);
    SpaceEndUnique(s[a..], j, r - a);
  }

  predicate OccursAt(s: string, pat: string, i: nat) {
    i + |pat| <= |s| && s[i..i + |pat|] == pat
  }

  /** `strings.Index` searching from position `from` on: the first occurrence, or none. */
  function IndexFrom(s: string, pat: string, from: nat): (r: Option<nat>)
    ensures r.Some? ==> from <= r.value && OccursAt(s, pat, r.value)
    ensures r.Some? ==> forall j :: from <= j < r.value ==> !OccursAt(s, pat, j)
    ensures r.None? ==> forall j :: from <= j ==> !OccursAt(s, pat, j)
    decreases |s| - from
  {
    if from + |pat| > |s| then None
    else if s[from..from + |pat|] == pat then Some(from)
    else IndexFrom(s, pat, from + 1)
  }

  /** `strings.Index(s, pat)`, with -1 as None. */
  function IndexOf(s: string, pat: string): Option<nat> {
    IndexFrom(s, pat, 0)
  }

  /** `strings.Index(s, pat) > -1`. */
  predicate Contains(s: string, pat: string) {
    IndexOf(s, pat).Some?
  }

  /** Contains holds exactly when the pattern occurs somewhere. */
  lemma ContainsIff(s: string, pat: string, i: nat)
    ensures OccursAt(s, pat, i) ==> Contains(s, pat)
    ensures Contains(s, pat) ==> OccursAt(s, pat, IndexOf(s, pat).value)
  {
  }

  /** `strings.Replace(s, target, replacement, 1)`: the first occurrence of target, if any, is replaced. */
  function ReplaceFirst(s: string, target: string, replacement: string): string {
    match IndexOf(s, target)
    case None => s
    case Some(i) => s[..i] + replacement + s[i + |target|..]
  }

  /** `strings.Join(parts, sep)` for a one-rune separator. */
  function Join(parts: seq<string>, sep: char): string {
    if |parts| == 0 then ""
    else if |parts| == 1 then parts[0]
    else parts[0] + [sep] + Join(parts[1..], sep)
  }

  /** `strings.Split(s, sep)` for a one-rune separator: never empty (SplitJoin says what the parts are). */
  function Split(s: string, sep: char): (parts: seq<string>)
    ensures |parts| >= 1
    decreases |s|
  {
    if sep !in s then [s]
    else
      var i := FirstRune(s, sep);
      [s[..i]] + Split(s[i + 1..], sep)
  }

  /** A string is what comes before position i, the rune at i, and what follows. */
  lemma Around(s: string, i: nat)
    requires i < |s|
    ensures s == s[..i] + [s[i]] + s[i + 1..]
  {
  }

  /** Splitting loses nothing: no part holds the separator, and joining the parts gives s back. */
  lemma {:induction false} SplitJoin(s: string, sep: char)
    ensures forall k :: 0 <= k < |Split(s, sep)| ==> sep !in Split(s, sep)[k]
    ensures Join(Split(s, sep), sep) == s
    decreases |s|
  {
    if sep in s {
      var i := FirstRune(s, sep);
      var rest := Split(s[i + 1..], sep);
      var parts := [s[..i]] + rest;
      assert Split(s, sep) == parts;
      SplitJoin(s[i + 1..], sep);
      assert parts[0] == s[..i] && parts[1..] == rest;
      assert Join(parts, sep) == s[..i] + [sep] + Join(rest, sep);
      Around(s, i);
      forall k | 0 <= k < |parts| ensures sep !in parts[k] {
        if k > 0 {
          assert parts[k] == rest[k - 1];
        }
      }
    }
  }

  /** Index of the first occurrence of c in s. */
  function FirstRune(s: string, c: char): (i: nat)
    requires c in s
    ensures i < |s| && s[i] == c && c !in s[..i]
  {
    if s[0] == c then 0 else 1 + FirstRune(s[1..], c)
  }

  /** Joining all parts equals joining all but the last, the separator, then the last. */
  lemma {:induction false} JoinSnoc(parts: seq<string>, sep: char)
    requires |parts| >= 2
    ensures Join(parts, sep) == Join(parts[..|parts| - 1], sep) + [sep] + parts[|parts| - 1]
  {
    if |parts| > 2 {
      JoinSnoc(parts[1..], sep);
      assert parts[1..][..|parts| - 2] == parts[..|parts| - 1][1..];
    }
  }
}
