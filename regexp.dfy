/**
  Go's `Regexp.ReplaceAllString` and `Regexp.ReplaceAllStringFunc`, for the patterns the
  bundler uses: none of them matches the empty string, and none looks behind its start
  (no anchors, no `\b`), so whether and how far a pattern matches at a position depends
  only on the text from that position on. Such a pattern is given here by its matcher:
  the length of its leftmost-first match at the start of a text, if there is one.
 */
module Regexp {
  import opened Wrappers

  type Matcher = string -> Option<nat>

  /** Length of the match at the start of u, 0 when there is none. */
  function MatchLen(m: Matcher, u: string): (n: nat)
    ensures n <= |u|
  {
    match m(u)
    case Some(k) => if k <= |u| then k else 0
    case None => 0
  }

  /**
    The scan of `ReplaceAllStringFunc`: from left to right, each match is replaced by
    f applied to the matched text and the scan resumes after it; where nothing matches,
    one rune is copied and the scan moves on by one.
   */
  function ReplaceAllFunc(s: string, m: Matcher, f: string -> string): string
    decreases |s|
  {
    if s == [] then []
    else
      var n := MatchLen(m, s);
      if n > 0 then f(s[..n]) + ReplaceAllFunc(s[n..], m, f)
      else [s[0]] + ReplaceAllFunc(s[1..], m, f)
  }

  /** The replacement of `ReplaceAllString` with a template free of `$`: the same text for every match. */
  function Const(r: string): string -> string {
    _ => r
  }

  /** Length of the match starting at position i of s, 0 when there is none. */
  function MatchAt(m: Matcher, s: string, i: nat): nat
    requires i <= |s|
  {
    MatchLen(m, s[i..])
  }

  /** A matched stretch s[start..end]. */
  datatype Span = Span(start: nat, end: nat)

  /** Where the k-th stretch of unmatched text begins: at `from`, or after the previous match. */
  function GapStart(from: nat, spans: seq<Span>, k: nat): nat
    requires k <= |spans|
  {
    if k == 0 then from else spans[k - 1].end
  }

  /** Where the k-th stretch of unmatched text ends: at the next match, or at the end of s. */
  function GapEnd(s: string, spans: seq<Span>, k: nat): nat
    requires k <= |spans|
  {
    if k == |spans| then |s| else spans[k].start
  }

  /** The spans lie in s[from..], left to right, non-empty and without overlap. */
  ghost predicate Ordered(s: string, from: nat, spans: seq<Span>) {
    && from <= |s|
    && (forall k :: 0 <= k < |spans| ==> spans[k].start < spans[k].end <= |s|)
    && (forall k {:trigger GapStart(from, spans, k)} :: 0 <= k < |spans| ==> GapStart(from, spans, k) <= spans[k].start)
  }

  /** No match starts anywhere in s[a..b]. */
  ghost predicate NoMatchIn(m: Matcher, s: string, a: nat, b: nat)
    requires b <= |s|
  {
    forall i :: a <= i < b ==> MatchAt(m, s, i) == 0
  }

  /**
    The spans are the leftmost non-overlapping matches of m in s[from..]: each is a
    match, and no match starts in the text between them, before the first one or after
    the last one.
   */
  ghost predicate LeftmostMatches(m: Matcher, s: string, from: nat, spans: seq<Span>) {
    && Ordered(s, from, spans)
    && (forall k :: 0 <= k < |spans| ==> MatchAt(m, s, spans[k].start) == spans[k].end - spans[k].start)
    && (forall k :: 0 <= k <= |spans| ==> NoMatchIn(m, s, GapStart(from, spans, k), GapEnd(s, spans, k)))
  }

  /** The text s[from..] with every span replaced by f of its text, and every gap copied. */
  function Splice(s: string, from: nat, spans: seq<Span>, f: string -> string): string
    requires Ordered(s, from, spans)
    decreases |spans|
  {
    if spans == [] then s[from..]
    else
      assert GapStart(from, spans, 0) <= spans[0].start;
      OrderedTail(s, from, spans);
      s[from..spans[0].start] + f(s[spans[0].start..spans[0].end]) + Splice(s, spans[0].end, spans[1..], f)
  }

  /** The spans after the first lie in the text after it, still ordered. */
  lemma OrderedTail(s: string, from: nat, spans: seq<Span>)
    requires Ordered(s, from, spans) && spans != []
    ensures Ordered(s, spans[0].end, spans[1..])
  {
    forall k | 0 <= k < |spans| - 1
      ensures GapStart(spans[0].end, spans[1..], k) <= spans[1..][k].start < spans[1..][k].end <= |s|
    {
      assert GapStart(spans[0].end, spans[1..], k) == GapStart(from, spans, k + 1);
    }
  }

  /** Dropping the first match leaves the leftmost matches of the text after it. */
  lemma {:induction false} LeftmostTail(m: Matcher, s: string, from: nat, spans: seq<Span>)
    requires LeftmostMatches(m, s, from, spans) && spans != []
    ensures LeftmostMatches(m, s, spans[0].end, spans[1..])
  {
    OrderedTail(s, from, spans);
    var tail := spans[1..];
    forall k | 0 <= k <= |tail|
      ensures NoMatchIn(m, s, GapStart(spans[0].end, tail, k), GapEnd(s, tail, k))
    {
      assert GapStart(spans[0].end, tail, k) == GapStart(from, spans, k + 1);
      assert GapEnd(s, tail, k) == GapEnd(s, spans, k + 1);
    }
  }

  /** Unmatched text is copied unchanged. */
  lemma {:induction false} CopyGap(m: Matcher, f: string -> string, s: string, n: nat)
    requires n <= |s| && NoMatchIn(m, s, 0, n)
    ensures ReplaceAllFunc(s, m, f) == s[..n] + ReplaceAllFunc(s[n..], m, f)
  {
    if n > 0 {
      assert s[0..] == s;
      assert MatchAt(m, s, 0) == 0;
      forall i | 0 <= i < n - 1 ensures MatchAt(m, s[1..], i) == 0 {
        assert s[1..][i..] == s[i + 1..];
        assert MatchAt(m, s, i + 1) == 0;
      }
      CopyGap(m, f, s[1..], n - 1);
      assert s[1..][n - 1..] == s[n..];
      assert s[..n] == [s[0]] + s[1..][..n - 1];
    }
  }

  /** Unmatched text between two positions of s is copied unchanged. */
  lemma CopyGapAt(m: Matcher, f: string -> string, s: string, a: nat, b: nat)
    requires a <= b <= |s| && NoMatchIn(m, s, a, b)
    ensures ReplaceAllFunc(s[a..], m, f) == s[a..b] + ReplaceAllFunc(s[b..], m, f)
  {
    var u := s[a..];
    forall i | 0 <= i < b - a ensures MatchAt(m, u, i) == 0 {
      assert u[i..] == s[a + i..];
      assert MatchAt(m, s, a + i) == 0;
    }
    CopyGap(m, f, u, b - a);
    assert u[b - a..] == s[b..];
    assert u[..b - a] == s[a..b];
  }

  /** A match at position a of s is replaced by f of the matched text. */
  lemma ReplaceMatchAt(m: Matcher, f: string -> string, s: string, a: nat)
    requires a <= |s| && MatchAt(m, s, a) > 0
    ensures ReplaceAllFunc(s[a..], m, f)
         == f(s[a..a + MatchAt(m, s, a)]) + ReplaceAllFunc(s[a + MatchAt(m, s, a)..], m, f)
  {
    var v, n := s[a..], MatchAt(m, s, a);
    assert v[..n] == s[a..a + n];
    assert v[n..] == s[a + n..];
  }

  /**
    `ReplaceAllStringFunc` replaces exactly the leftmost non-overlapping matches, left to
    right, and copies the text between them unchanged.
   */
  lemma {:induction false} ReplaceAllIsSplice(m: Matcher, f: string -> string, s: string, from: nat, spans: seq<Span>)
    requires LeftmostMatches(m, s, from, spans)
    ensures ReplaceAllFunc(s[from..], m, f) == Splice(s, from, spans, f)
    decreases |spans|
  {
    if spans == [] {
      assert NoMatchIn(m, s, GapStart(from, spans, 0), GapEnd(s, spans, 0));
      CopyGapAt(m, f, s, from, |s|);
      assert s[|s|..] == [];
    } else {
      var sp := spans[0];
      assert NoMatchIn(m, s, GapStart(from, spans, 0), GapEnd(s, spans, 0));
      assert GapStart(from, spans, 0) <= sp.start;
      ReplaceFirstSpan(m, f, s, from, sp);
      LeftmostTail(m, s, from, spans);
      ReplaceAllIsSplice(m, f, s, sp.end, spans[1..]);
    }
  }

  /** Text with no match, then a match: the text is copied and the match replaced. */
  lemma ReplaceFirstSpan(m: Matcher, f: string -> string, s: string, from: nat, sp: Span)
    requires from <= sp.start < sp.end <= |s| && NoMatchIn(m, s, from, sp.start)
    requires MatchAt(m, s, sp.start) == sp.end - sp.start
    ensures ReplaceAllFunc(s[from..], m, f)
         == s[from..sp.start] + f(s[sp.start..sp.end]) + ReplaceAllFunc(s[sp.end..], m, f)
  {
    CopyGapAt(m, f, s, from, sp.start);
    ReplaceMatchAt(m, f, s, sp.start);
  }

  /** A text with a single match: the match is replaced and the rest is copied. */
  lemma ReplaceSingleMatch(m: Matcher, f: string -> string, s: string, a: nat, b: nat)
    requires a < b <= |s| && NoMatchIn(m, s, 0, a) && MatchAt(m, s, a) == b - a && NoMatchIn(m, s, b, |s|)
    ensures ReplaceAllFunc(s, m, f) == s[..a] + f(s[a..b]) + s[b..]
  {
    ReplaceFirstSpan(m, f, s, 0, Span(a, b));
    CopyGapAt(m, f, s, b, |s|);
    assert s[0..] == s;
    assert s[|s|..] == [];
  }

  /** A match at `from` followed by the leftmost matches after it are the leftmost matches from `from`. */
  lemma ConsLeftmost(m: Matcher, s: string, from: nat, n: nat, rest: seq<Span>)
    requires 0 < n && from + n <= |s| && MatchAt(m, s, from) == n
    requires LeftmostMatches(m, s, from + n, rest)
    ensures LeftmostMatches(m, s, from, [Span(from, from + n)] + rest)
  {
    var spans := [Span(from, from + n)] + rest;
    forall k | 0 <= k < |spans|
      ensures spans[k].start < spans[k].end <= |s|
      ensures MatchAt(m, s, spans[k].start) == spans[k].end - spans[k].start
      ensures GapStart(from, spans, k) <= spans[k].start
    {
      if k > 0 {
        assert spans[k] == rest[k - 1];
        assert GapStart(from, spans, k) == GapStart(from + n, rest, k - 1);
      }
    }
    assert Ordered(s, from, spans);
    forall k | 0 <= k <= |spans|
      ensures NoMatchIn(m, s, GapStart(from, spans, k), GapEnd(s, spans, k))
    {
      if k > 0 {
        assert GapStart(from, spans, k) == GapStart(from + n, rest, k - 1);
        assert GapEnd(s, spans, k) == GapEnd(s, rest, k - 1);
      }
    }
  }

  /** A position where nothing matches may join the gap before the leftmost matches. */
  lemma SkipLeftmost(m: Matcher, s: string, from: nat, rest: seq<Span>)
    requires from < |s| && MatchAt(m, s, from) == 0
    requires LeftmostMatches(m, s, from + 1, rest)
    ensures LeftmostMatches(m, s, from, rest)
  {
    forall k | 1 <= k <= |rest|
      ensures GapStart(from, rest, k) == GapStart(from + 1, rest, k)
    {
    }
    assert NoMatchIn(m, s, GapStart(from + 1, rest, 0), GapEnd(s, rest, 0));
  }

  /** The leftmost non-overlapping matches of m in s[from..], found by the same scan. */
  function LeftmostSpans(m: Matcher, s: string, from: nat): (spans: seq<Span>)
    requires from <= |s|
    ensures LeftmostMatches(m, s, from, spans)
    decreases |s| - from
  {
    if from == |s| then []
    else
      var n := MatchAt(m, s, from);
      if n > 0 then
        var rest := LeftmostSpans(m, s, from + n);
        ConsLeftmost(m, s, from, n, rest);
        [Span(from, from + n)] + rest
      else
        var rest := LeftmostSpans(m, s, from + 1);
        SkipLeftmost(m, s, from, rest);
        rest
  }

  /** The leftmost non-overlapping matches are unique. */
  lemma {:induction false} LeftmostUnique(m: Matcher, s: string, from: nat, a: seq<Span>, b: seq<Span>)
    requires LeftmostMatches(m, s, from, a) && LeftmostMatches(m, s, from, b)
    ensures a == b
    decreases |a|
  {
    if a != [] {
      assert MatchAt(m, s, a[0].start) > 0;
    }
    if b != [] {
      assert MatchAt(m, s, b[0].start) > 0;
    }
    assert NoMatchIn(m, s, GapStart(from, a, 0), GapEnd(s, a, 0));
    assert NoMatchIn(m, s, GapStart(from, b, 0), GapEnd(s, b, 0));
    if a != [] && b != [] {
      assert a[0] == b[0];
      LeftmostTail(m, s, from, a);
      LeftmostTail(m, s, from, b);
      LeftmostUnique(m, s, a[0].end, a[1..], b[1..]);
      assert a == [a[0]] + a[1..];
      assert b == [b[0]] + b[1..];
    }
  }

  /** The replace-all scan equals the splice of its unique leftmost matches. */
  lemma ReplaceAllSplicesLeftmost(m: Matcher, f: string -> string, s: string)
    ensures ReplaceAllFunc(s, m, f) == Splice(s, 0, LeftmostSpans(m, s, 0), f)
  {
    assert s[0..] == s;
    ReplaceAllIsSplice(m, f, s, 0, LeftmostSpans(m, s, 0));
  }
}
