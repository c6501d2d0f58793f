/**
  The three RE2 patterns of `fullFillImgUrl` (main.go:59-81), as matchers: the opening
  `\(\s*['"]?`, the closing `['"]?\s*\)` and the whole reference
  `url\s*\(\s*['"]?(.*?)['"]?\s*\)`.

  RE2 matches leftmost-first: `\s*` and `['"]?` take as much as they can, `(.*?)` as
  little as it can, `.` is any rune but a newline, and `\s` is one of tab, newline,
  form feed, carriage return and space.
 */
module UrlPattern {
  import opened Wrappers
  import opened Strings
  import opened Regexp

  /** RE2's `.`: anything but a newline, on every rune of s[a..b]. */
  ghost predicate NoNewline(s: string, a: nat, b: nat)
    requires b <= |s|
  {
    forall i :: a <= i < b ==> s[i] != '\n'
  }

  // ----- `\(\s*['"]?`, the opening of a reference (main.go:65) -----

  /** Where the match of `\(\s*['"]?` starting at position i of s ends, if there is one. */
  function OpenEnd(s: string, i: nat): (r: Option<nat>)
    requires i <= |s|
    ensures r.Some? <==> i < |s| && s[i] == '('
    ensures r.Some? ==> i < r.value <= |s|
  {
    if i < |s| && s[i] == '(' then
      var w := SpaceEnd(s, i + 1);
      Some(if w < |s| && IsQuote(s[w]) then w + 1 else w)
    else None
  }

  /** Length of the match of `\(\s*['"]?` at the start of u. */
  function OpenLen(u: string): Option<nat> {
    OpenEnd(u, 0)
  }

  /** s[i..e] is `(`, then spaces, then perhaps a quote: a text in the language of `\(\s*['"]?`. */
  ghost predicate OpenShape(s: string, i: nat, e: nat) {
    && i < e <= |s| && s[i] == '('
    && (AllSpace(s, i + 1, e) || (i + 2 <= e && IsQuote(s[e - 1]) && AllSpace(s, i + 1, e - 1)))
  }

  /** A match of `\(\s*['"]?` is a text in its language. */
  lemma OpenEndShape(s: string, i: nat)
    requires i <= |s|
    ensures OpenEnd(s, i).Some? ==> OpenShape(s, i, OpenEnd(s, i).value)
  {
    if i < |s| && s[i] == '(' {
      SpaceEndSpaces(s, i + 1);
    }
  }

  /**
    The match of `\(\s*['"]?` is the longest text of its language from position i: the
    greedy `\s*` and `['"]?` leave nothing the pattern could still take.
   */
  lemma OpenEndLongest(s: string, i: nat, e: nat)
    requires OpenShape(s, i, e)
    ensures OpenEnd(s, i).Some? && e <= OpenEnd(s, i).value
  {
  }

  /** The opening pattern matches at position i exactly as far as OpenEnd says. */
  lemma OpenMatchAt(s: string, i: nat)
    requires i <= |s|
    ensures MatchAt(OpenLen, s, i) == if OpenEnd(s, i).Some? then OpenEnd(s, i).value - i else 0
  {
    if i < |s| {
      SpaceEndShift(s, i, 1);
    }
  }

  // ----- `['"]?\s*\)`, the closing of a reference (main.go:68) -----

  /** s[i..e] is an optional quote, then spaces, then `)`: a text in the language of `['"]?\s*\)`. */
  ghost predicate CloseShape(s: string, i: nat, e: nat) {
    && i < e <= |s| && s[e - 1] == ')'
    && (AllSpace(s, i, e - 1) || (IsQuote(s[i]) && AllSpace(s, i + 1, e - 1)))
  }

  /** Where the match of `['"]?\s*\)` starting at position i of s ends, if there is one. */
  function CloseEnd(s: string, i: nat): (r: Option<nat>)
    requires i <= |s|
    ensures r.Some? ==> i < r.value <= |s|
  {
    var j := if i < |s| && IsQuote(s[i]) then i + 1 else i;
    var k := SpaceEnd(s, j);
    if k < |s| && s[k] == ')' then Some(k + 1) else None
  }

  /** A match of `['"]?\s*\)` is a text in its language. */
  lemma CloseEndShape(s: string, i: nat)
    requires i <= |s|
    ensures CloseEnd(s, i).Some? ==> CloseShape(s, i, CloseEnd(s, i).value)
  {
    var j := if i < |s| && IsQuote(s[i]) then i + 1 else i;
    SpaceEndSpaces(s, j);
  }

  /** The match of `['"]?\s*\)` at position i, if any, is the only text from i on in its language. */
  lemma CloseEndIsTheShape(s: string, i: nat, e: nat)
    requires CloseShape(s, i, e)
    ensures CloseEnd(s, i) == Some(e)
  {
    if IsQuote(s[i]) {
      assert !IsSpace(s[i]);
      SpaceEndUnique(s, i + 1, e - 1);
    } else {
      SpaceEndUnique(s, i, e - 1);
    }
  }

  /** Whether `['"]?\s*\)` matches at position i only depends on the text up to its end. */
  lemma CloseEndPrefix(s: string, n: nat, i: nat)
    requires i <= n <= |s|
    ensures CloseEnd(s[..n], i).Some? ==> CloseEnd(s, i) == CloseEnd(s[..n], i)
    ensures CloseEnd(s, i).Some? && CloseEnd(s, i).value <= n ==> CloseEnd(s[..n], i) == CloseEnd(s, i)
  {
    CloseEndShape(s, i);
    CloseEndShape(s[..n], i);
    if CloseEnd(s[..n], i).Some? {
      CloseEndIsTheShape(s, i, CloseEnd(s[..n], i).value);
    }
    if CloseEnd(s, i).Some? && CloseEnd(s, i).value <= n {
      CloseEndIsTheShape(s[..n], i, CloseEnd(s, i).value);
    }
  }

  /** Length of the match of `['"]?\s*\)` at the start of u. */
  function CloseLen(u: string): (r: Option<nat>)
    ensures r.Some? ==> 1 <= r.value <= |u|
  {
    CloseEnd(u, 0)
  }

  /** The closing pattern matches at position i exactly as far as CloseEnd says. */
  lemma CloseMatchAt(s: string, i: nat)
    requires i <= |s|
    ensures MatchAt(CloseLen, s, i) == if CloseEnd(s, i).Some? then CloseEnd(s, i).value - i else 0
  {
    var j := if i < |s| && IsQuote(s[i]) then 1 else 0;
    SpaceEndShift(s, i, j);
  }

  // ----- `url\s*\(\s*['"]?(.*?)['"]?\s*\)`, a whole reference (main.go:78) -----

  /**
    Where the parts of a match lie: `url` at 0, spaces, `(` at paren, spaces up to
    spaceEnd, an optional quote up to bodyStart, the captured body up to bodyEnd, an
    optional quote up to tailStart, spaces, and `)` at close.
   */
  datatype UrlMatch = UrlMatch(paren: nat, spaceEnd: nat, bodyStart: nat, bodyEnd: nat, tailStart: nat, close: nat)

  /** s[..mt.close + 1], split as mt says, is in the language of `url\s*\(\s*['"]?(.*?)['"]?\s*\)`. */
  ghost predicate Shaped(s: string, mt: UrlMatch) {
    && mt.close < |s|
    && 3 <= mt.paren < mt.spaceEnd <= mt.bodyStart <= mt.bodyEnd <= mt.tailStart <= mt.close
    && s[0] == 'u' && s[1] == 'r' && s[2] == 'l'
    && AllSpace(s, 3, mt.paren) && s[mt.paren] == '('
    && AllSpace(s, mt.paren + 1, mt.spaceEnd)
    && (mt.bodyStart == mt.spaceEnd || (mt.bodyStart == mt.spaceEnd + 1 && IsQuote(s[mt.spaceEnd])))
    && NoNewline(s, mt.bodyStart, mt.bodyEnd)
    && (mt.tailStart == mt.bodyEnd || (mt.tailStart == mt.bodyEnd + 1 && IsQuote(s[mt.bodyEnd])))
    && AllSpace(s, mt.tailStart, mt.close) && s[mt.close] == ')'
  }

  /** w, split as mt says, is in the language of the reference pattern. */
  ghost predicate InPattern(w: string, mt: UrlMatch) {
    |w| == mt.close + 1 && Shaped(w, mt)
  }

  /**
    The split RE2's leftmost-first order prefers: the spaces after `(` are all taken,
    then the quote if there is one, and the body stops at the first place the closing
    part can match.
   */
  ghost predicate Preferred(w: string, mt: UrlMatch)
    requires Shaped(w, mt)
  {
    && !IsSpace(w[mt.spaceEnd])
    && (IsQuote(w[mt.spaceEnd]) ==> mt.bodyStart == mt.spaceEnd + 1)
    && forall j :: mt.bodyStart <= j < mt.bodyEnd ==> CloseEnd(w, j).None?
  }

  /** Being shaped as a reference, the preferred way, only depends on the runes up to the closing parenthesis. */
  lemma ShapedPrefix(u: string, n: nat, mt: UrlMatch)
    requires mt.close < n <= |u|
    ensures Shaped(u, mt) <==> Shaped(u[..n], mt)
    ensures Shaped(u, mt) && Preferred(u, mt) ==> Preferred(u[..n], mt)
    ensures Shaped(u, mt) && Preferred(u[..n], mt) ==> Preferred(u, mt)
  {
    if Shaped(u, mt) {
      assert u[..n][mt.spaceEnd] == u[mt.spaceEnd];
      if Preferred(u, mt) {
        forall j | mt.bodyStart <= j < mt.bodyEnd ensures CloseEnd(u[..n], j).None? {
          CloseEndPrefix(u, n, j);
        }
      }
      if Preferred(u[..n], mt) {
        forall j | mt.bodyStart <= j < mt.bodyEnd ensures CloseEnd(u, j).None? {
          if CloseEnd(u, j).Some? {
            CloseEndBefore(u, j, mt.close);
            CloseEndPrefix(u, n, j);
          }
        }
      }
    }
  }

  /**
    The lazy `(.*?)` from position i of u: the first position at which the closing part
    matches, without crossing a newline.
   */
  function LazyBody(u: string, i: nat): (r: Option<nat>)
    requires i <= |u|
    ensures r.Some? ==> i <= r.value < |u| && CloseEnd(u, r.value).Some?
    decreases |u| - i
  {
    if CloseEnd(u, i).Some? then Some(i)
    else if i < |u| && u[i] != '\n' then LazyBody(u, i + 1)
    else None
  }

  /** The lazy body stops at the first position where the closing part matches, and only there. */
  lemma {:induction false} LazyBodyFirst(u: string, i: nat)
    requires i <= |u|
    ensures var r := LazyBody(u, i);
      && (r.Some? ==> i <= r.value < |u| && CloseEnd(u, r.value).Some? && NoNewline(u, i, r.value))
      && (r.Some? ==> forall j :: i <= j < r.value ==> CloseEnd(u, j).None?)
      && (r.None? ==> forall j :: i <= j <= |u| && NoNewline(u, i, j) ==> CloseEnd(u, j).None?)
    decreases |u| - i
  {
    if CloseEnd(u, i).Some? {
    } else if i < |u| && u[i] != '\n' {
      LazyBodyFirst(u, i + 1);
      var r := LazyBody(u, i + 1);
      if r.None? {
        forall j | i <= j <= |u| && NoNewline(u, i, j) ensures CloseEnd(u, j).None? {
          if j > i {
            assert NoNewline(u, i + 1, j);
          }
        }
      }
    } else {
      forall j | i < j <= |u| ensures !NoNewline(u, i, j) {
        assert u[i] == '\n';
      }
    }
  }

  /** Where the optional quote `['"]?` starting at position i of u ends: it is taken when there. */
  function AfterQuote(u: string, i: nat): (r: nat)
    requires i <= |u|
    ensures r == i || (i < |u| && r == i + 1 && IsQuote(u[i]))
    ensures r <= |u|
  {
    if i < |u| && IsQuote(u[i]) then i + 1 else i
  }

  /** The leftmost-first match of the reference pattern at the start of u, if any. */
  function ParseUrl(u: string): (r: Option<UrlMatch>)
  {
    if |u| >= 3 && u[0] == 'u' && u[1] == 'r' && u[2] == 'l' then
      var paren := SpaceEnd(u, 3);
      if paren < |u| && u[paren] == '(' then
        var spaceEnd := SpaceEnd(u, paren + 1);
        var bodyStart := AfterQuote(u, spaceEnd);
        ParseTail(u, paren, spaceEnd, bodyStart)
      else None
    else None
  }

  /**
    Where `url`, spaces and `(` start u and the lazy body from ParseUrl's body start
    meets a closing part that ends by c, ParseUrl finds a match that ends by c.
   */
  lemma ParseUrlWithin(u: string, c: nat)
    requires |u| >= 3 && u[0] == 'u' && u[1] == 'r' && u[2] == 'l'
    requires SpaceEnd(u, 3) < |u| && u[SpaceEnd(u, 3)] == '('
    requires var spaceEnd := SpaceEnd(u, SpaceEnd(u, 3) + 1);
      var bodyStart := AfterQuote(u, spaceEnd);
      LazyBody(u, bodyStart).Some? && CloseEnd(u, LazyBody(u, bodyStart).value).value <= c
    ensures ParseUrl(u).Some? && ParseUrl(u).value.close < c
  {
  }

  /**
    The rest of the match once its body starts at bodyStart: the lazy body, then the
    optional quote, the spaces and the `)` of the closing part.
   */
  function ParseTail(u: string, paren: nat, spaceEnd: nat, bodyStart: nat): (r: Option<UrlMatch>)
    requires bodyStart <= |u|
    ensures r.Some? <==> LazyBody(u, bodyStart).Some?
    ensures r.Some? ==> r.value.close + 1 == CloseEnd(u, LazyBody(u, bodyStart).value).value
  {
    match LazyBody(u, bodyStart)
    case Some(bodyEnd) =>
      var tailStart := if IsQuote(u[bodyEnd]) then bodyEnd + 1 else bodyEnd;
      Some(UrlMatch(paren, spaceEnd, bodyStart, bodyEnd, tailStart, CloseEnd(u, bodyEnd).value - 1))
    case None => None
  }

  /** Length of the match of the reference pattern at the start of u. */
  function UrlLen(u: string): Option<nat> {
    match ParseUrl(u)
    case Some(mt) => Some(mt.close + 1)
    case None => None
  }

  /** The parts ParseUrl finds lie where Shaped says, split the way Preferred says. */
  lemma ParseUrlShaped(u: string, mt: UrlMatch)
    requires ParseUrl(u) == Some(mt)
    ensures Shaped(u, mt) && Preferred(u, mt)
  {
    var spaceEnd := SpaceEnd(u, mt.paren + 1);
    var bodyStart := AfterQuote(u, spaceEnd);
    assert mt.paren == SpaceEnd(u, 3) && mt.spaceEnd == spaceEnd && mt.bodyStart == bodyStart;
    assert LazyBody(u, bodyStart) == Some(mt.bodyEnd);
    LazyBodyFirst(u, mt.bodyStart);
    SpaceEndSpaces(u, 3);
    SpaceEndSpaces(u, mt.paren + 1);
    CloseEndShape(u, mt.bodyEnd);
  }

  /**
    What ParseUrl finds is a match of `url\s*\(\s*['"]?(.*?)['"]?\s*\)` at the start of u,
    split the way RE2's leftmost-first order prefers.
   */
  lemma ParseUrlSound(u: string)
    requires ParseUrl(u).Some?
    ensures var mt := ParseUrl(u).value;
      mt.close < |u| && InPattern(u[..mt.close + 1], mt) && Preferred(u[..mt.close + 1], mt)
  {
    var mt := ParseUrl(u).value;
    ParseUrlShaped(u, mt);
    ShapedPrefix(u, mt.close + 1, mt);
  }

  /** A match of the closing part never reaches past a `)` that follows its start. */
  lemma CloseEndBefore(s: string, i: nat, c: nat)
    requires i <= c < |s| && s[c] == ')' && CloseEnd(s, i).Some?
    ensures CloseEnd(s, i).value <= c + 1
  {
    var j := if i < |s| && IsQuote(s[i]) then i + 1 else i;
    assert j <= c;
    SpaceEndStops(s, j, c);
  }

  /** The steps of ParseUrl up to the body, where a shaped reference is known to start u. */
  lemma BodyStartCovers(u: string, sh: UrlMatch)
    requires Shaped(u, sh)
    ensures SpaceEnd(u, 3) == sh.paren
    ensures sh.spaceEnd <= SpaceEnd(u, sh.paren + 1)
    ensures var spaceEnd := SpaceEnd(u, sh.paren + 1);
      sh.bodyStart <= AfterQuote(u, spaceEnd)
  {
    SpaceEndUnique(u, 3, sh.paren);
    SpaceEndCovers(u, sh.paren + 1, sh.spaceEnd);
  }

  /** Where a shaped reference's body ends, the closing part matches. */
  lemma ShapedClose(u: string, sh: UrlMatch)
    requires Shaped(u, sh)
    ensures CloseEnd(u, sh.bodyEnd) == Some(sh.close + 1)
  {
    CloseEndIsTheShape(u, sh.bodyEnd, sh.close + 1);
  }

  /**
    The lazy body of ParseUrl, started where ParseUrl starts it, stops no later than the
    closing parenthesis of any shaped reference at the start of u.
   */
  lemma LazyBodyCovers(u: string, sh: UrlMatch, bodyStart: nat)
    requires Shaped(u, sh) && bodyStart <= |u|
    requires SpaceEnd(u, 3) == sh.paren && sh.bodyStart <= bodyStart
    requires var spaceEnd := SpaceEnd(u, sh.paren + 1);
      sh.spaceEnd <= spaceEnd
      && bodyStart == AfterQuote(u, spaceEnd)
    ensures && LazyBody(u, bodyStart).Some? && LazyBody(u, bodyStart).value <= sh.close
            && CloseEnd(u, LazyBody(u, bodyStart).value).Some?
            && CloseEnd(u, LazyBody(u, bodyStart).value).value <= sh.close + 1
  {
    LazyBodyFirst(u, bodyStart);
    var spaceEnd := SpaceEnd(u, sh.paren + 1);
    var q := sh.bodyEnd;
    if q >= bodyStart {
      ShapedClose(u, sh);
      assert NoNewline(u, bodyStart, q);
      var r := LazyBody(u, bodyStart).value;
      CloseEndBefore(u, r, sh.close);
    } else if q < spaceEnd {
      SpaceEndSpaces(u, sh.paren + 1);
      assert IsSpace(u[q]);
      SpaceEndStops(u, sh.paren + 1, sh.close);
      assert sh.close <= spaceEnd by {
        assert !IsSpace(u[spaceEnd]);
      }
      CloseEndIsTheShape(u, bodyStart, bodyStart + 1);
    } else {
      assert sh.tailStart == bodyStart by {
        assert !IsSpace(u[q]);
      }
      CloseEndIsTheShape(u, bodyStart, sh.close + 1);
    }
  }

  /**
    Whenever some prefix of u is in the language of the reference pattern, ParseUrl finds
    a match, and it is no longer than that prefix: the leftmost-first match is the
    shortest one.
   */
  lemma ParseUrlShortest(u: string, n: nat, sh: UrlMatch)
    requires n <= |u| && InPattern(u[..n], sh)
    ensures ParseUrl(u).Some? && ParseUrl(u).value.close < n
  {
    ShapedPrefix(u, n, sh);
    BodyStartCovers(u, sh);
    var paren := sh.paren;
    var spaceEnd := SpaceEnd(u, paren + 1);
    var bodyStart := AfterQuote(u, spaceEnd);
    LazyBodyCovers(u, sh, bodyStart);
    ParseUrlWithin(u, sh.close + 1);
  }

  /** A text in the pattern's language has only one split the way RE2 prefers. */
  lemma PreferredUnique(w: string, a: UrlMatch, b: UrlMatch)
    requires InPattern(w, a) && Preferred(w, a)
    requires InPattern(w, b) && Preferred(w, b)
    ensures a == b
  {
    SpaceEndUnique(w, 3, a.paren);
    SpaceEndUnique(w, 3, b.paren);
    SpaceEndUnique(w, a.paren + 1, a.spaceEnd);
    SpaceEndUnique(w, b.paren + 1, b.spaceEnd);
    assert a.bodyStart == b.bodyStart by {
      if !IsQuote(w[a.spaceEnd]) {
        assert a.bodyStart == a.spaceEnd && b.bodyStart == b.spaceEnd;
      }
    }
    ShapedClose(w, a);
    ShapedClose(w, b);
    assert a.bodyEnd == b.bodyEnd;
    assert a.tailStart == b.tailStart by {
      assert IsQuote(w[a.bodyEnd]) ==> !IsSpace(w[a.bodyEnd]);
    }
  }
}
