/**
  `fullFillImgUrl` and its closure `fillImgUrl` (main.go:59-81): every `url(...)`
  reference of a stylesheet is rewritten so that it still resolves once the stylesheet
  has been merged into a bundle that lives elsewhere. The reference gets double quotes,
  and a relative one gets the stylesheet's own directory in front; absolute references
  (a leading `/`) and references holding `http://` are left as they are.
 */
module ImgUrl {
  import opened Wrappers
  import opened Strings
  import opened Regexp
  import opened UrlPattern

  /** `regL.ReplaceAllString(str, "(\"")`: every opening `(`, its spaces and its quote become `("`. */
  function QuoteOpen(s: string): string {
    ReplaceAllFunc(s, OpenLen, Const("(\""))
  }

  /** `regR.ReplaceAllString(str, "\")")`: every closing quote, spaces and `)` become `")`. */
  function QuoteClose(s: string): string {
    ReplaceAllFunc(s, CloseLen, Const("\")"))
  }

  /** `fillImgUrl`: the rewriting of one matched reference, prefixing it with assetUrl. */
  function FillImgUrl(assetUrl: string, str: string): string {
    if Contains(str, "http://") then str
    else
      var quoted := QuoteClose(QuoteOpen(str));
      if Contains(quoted, "(\"/") then quoted
      else ReplaceFirst(quoted, "(\"", "(\"" + assetUrl)
  }

  /** The closure `fillImgUrl` as the function value handed to `ReplaceAllStringFunc`. */
  function Filler(assetUrl: string): string -> string {
    str => FillImgUrl(assetUrl, str)
  }

  /** `fullFillImgUrl(assetUrl, css)`: `ReplaceAllStringFunc` with the url pattern and `fillImgUrl`. */
  function FullFillImgUrl(assetUrl: string, css: string): string {
    ReplaceAllFunc(css, UrlLen, Filler(assetUrl))
  }

  /**
    In lead + `("` + rest, with no `(` in lead or rest, the first `("` is the one after
    lead; `("/` occurs exactly when rest starts with `/`; and replacing the first `("`
    puts the replacement right after lead.
   */
  lemma FirstOpenQuote(lead: string, rest: string, replacement: string)
    requires '(' !in lead && '(' !in rest
    ensures var v := lead + "(\"" + rest;
      && IndexOf(v, "(\"") == Some(|lead|)
      && (Contains(v, "(\"/") <==> rest != [] && rest[0] == '/')
      && ReplaceFirst(v, "(\"", replacement) == lead + replacement + rest
  {
    var v := lead + "(\"" + rest;
    var p := |lead|;
    assert v[p..p + 2] == "(\"";
    assert OccursAt(v, "(\"", p);
    forall j | 0 <= j < |v| && j != p ensures v[j] != '(' {
      if j < p {
        assert v[j] == lead[j];
      } else if j > p + 1 {
        assert v[j] == rest[j - p - 2];
      }
    }
    forall j: nat | j < p ensures !OccursAt(v, "(\"", j) {
      assert v[j..j + 2][0] == v[j];
    }
    assert IndexOf(v, "(\"").value == p;
    assert v[p + 2..] == rest;
    if rest != [] && rest[0] == '/' {
      assert v[p..p + 3] == "(\"/";
      ContainsIff(v, "(\"/", p);
    }
    if Contains(v, "(\"/") {
      var i := IndexOf(v, "(\"/").value;
      assert v[i..i + 3][0] == v[i];
      assert v[i..i + 3][2] == v[i + 2];
    }
  }

  /** Where there is no `(`, the opening pattern does not match. */
  lemma NoOpenNoMatch(s: string, a: nat, b: nat)
    requires a <= b <= |s| && forall i :: a <= i < b ==> s[i] != '('
    ensures NoMatchIn(OpenLen, s, a, b)
  {
  }

  /** A matched reference t has no `(` before its opening parenthesis, and none after its body. */
  lemma ReferenceParens(t: string, mt: UrlMatch)
    requires InPattern(t, mt)
    ensures forall i :: 0 <= i < mt.paren ==> t[i] != '(' && t[i] != ')' && !IsQuote(t[i])
    ensures forall i :: mt.bodyEnd <= i < |t| ==> t[i] != '('
  {
  }

  /**
    regL on a matched reference whose body has no `(`: the opening parenthesis, the spaces
    after it and the quote that may follow become `("`, and nothing else changes.
   */
  lemma QuoteOpenReference(t: string, mt: UrlMatch)
    requires InPattern(t, mt) && Preferred(t, mt) && '(' !in t[mt.bodyStart..mt.bodyEnd]
    ensures QuoteOpen(t) == t[..mt.paren] + "(\"" + t[mt.bodyStart..]
  {
    SpaceEndUnique(t, mt.paren + 1, mt.spaceEnd);
    OpenMatchAt(t, mt.paren);
    ReferenceParens(t, mt);
    NoOpenNoMatch(t, 0, mt.paren);
    forall i | mt.bodyStart <= i < mt.bodyEnd ensures t[i] != '(' {
      assert t[i] == t[mt.bodyStart..mt.bodyEnd][i - mt.bodyStart];
    }
    NoOpenNoMatch(t, mt.bodyStart, |t|);
    ReplaceSingleMatch(OpenLen, Const("(\""), t, mt.paren, mt.bodyStart);
  }

  /**
    The closing pattern right after a quote: a second quote stops it; otherwise it
    matches exactly when it matches without the first quote, one rune longer.
   */
  lemma CloseLenAfterQuote(q: char, r: string)
    requires IsQuote(q)
    ensures r != [] && IsQuote(r[0]) ==> CloseLen([q] + r).None?
    ensures !(r != [] && IsQuote(r[0])) ==>
      CloseLen([q] + r) == if CloseLen(r).Some? then Some(CloseLen(r).value + 1) else None
  {
    var w := [q] + r;
    assert w[1..] == r;
    SpaceEndShift(w, 1, 0);
  }

  /** The rewritten reference v = lead + `("` + the text after the opening: no closing match starts in lead + `(`. */
  lemma NoCloseInLead(t: string, mt: UrlMatch, v: string)
    requires InPattern(t, mt) && v == t[..mt.paren] + "(\"" + t[mt.bodyStart..]
    ensures NoMatchIn(CloseLen, v, 0, mt.paren + 1)
  {
    var p := mt.paren;
    ReferenceParens(t, mt);
    assert v[p] == '(';
    forall i | 0 <= i < p ensures v[i] == t[i] && v[i] != ')' && !IsQuote(v[i]) && v[i] != '(' {
    }
    forall i | 0 <= i <= p ensures MatchAt(CloseLen, v, i) == 0 {
      CloseMatchAt(v, i);
      SpaceEndStops(v, i, p);
    }
  }

  /** From the body on, v is the text of t from the body on, two runes to the right. */
  lemma CloseInBody(t: string, mt: UrlMatch, v: string, k: nat)
    requires InPattern(t, mt) && v == t[..mt.paren] + "(\"" + t[mt.bodyStart..]
    requires mt.bodyStart + k <= |t|
    ensures MatchAt(CloseLen, v, mt.paren + 2 + k) == MatchAt(CloseLen, t, mt.bodyStart + k)
  {
    assert v[mt.paren + 2 + k..] == t[mt.bodyStart + k..];
  }

  /** The body of a preferred match holds no start of the closing pattern; the text after it is one. */
  lemma CloseInReference(t: string, mt: UrlMatch)
    requires InPattern(t, mt) && Preferred(t, mt)
    ensures NoMatchIn(CloseLen, t, mt.bodyStart, mt.bodyEnd)
    ensures MatchAt(CloseLen, t, mt.bodyEnd) == |t| - mt.bodyEnd
  {
    forall j | mt.bodyStart <= j < mt.bodyEnd ensures MatchAt(CloseLen, t, j) == 0 {
      CloseMatchAt(t, j);
    }
    ShapedClose(t, mt);
    CloseMatchAt(t, mt.bodyEnd);
  }

  /**
    At the quote regL inserted, regR matches only when the reference has an empty body
    and no closing quote: it then takes the inserted quote and everything up to `)`.
   */
  lemma CloseAtInsertedQuote(t: string, mt: UrlMatch, v: string)
    requires InPattern(t, mt) && Preferred(t, mt) && v == t[..mt.paren] + "(\"" + t[mt.bodyStart..]
    ensures mt.bodyStart == mt.bodyEnd && mt.tailStart == mt.bodyEnd ==>
      MatchAt(CloseLen, v, mt.paren + 1) == |v| - mt.paren - 1
    ensures !(mt.bodyStart == mt.bodyEnd && mt.tailStart == mt.bodyEnd) ==>
      MatchAt(CloseLen, v, mt.paren + 1) == 0
  {
    var r := t[mt.bodyStart..];
    assert v[mt.paren + 1..] == ['"'] + r;
    assert r[0] == t[mt.bodyStart];
    CloseLenAfterQuote('"', r);
    CloseInReference(t, mt);
    if mt.bodyStart < mt.bodyEnd {
      assert MatchAt(CloseLen, t, mt.bodyStart) == 0;
    }
  }

  /** regR on a text whose only match of the closing pattern runs from a to the end. */
  lemma QuoteCloseLast(v: string, a: nat)
    requires a < |v| && NoMatchIn(CloseLen, v, 0, a) && MatchAt(CloseLen, v, a) == |v| - a
    ensures QuoteClose(v) == v[..a] + "\")"
  {
    assert NoMatchIn(CloseLen, v, |v|, |v|);
    ReplaceSingleMatch(CloseLen, Const("\")"), v, a, |v|);
    assert v[|v|..] == [];
  }

  /** lead + `("` + rest, cut before the quote, then closed by `")`. */
  lemma RequotedEmpty(lead: string, rest: string)
    ensures (lead + "(\"" + rest)[..|lead| + 1] + "\")" == lead + "(\")"
  {
  }

  /** lead + `("` + t[a..], cut after t[a..b], then closed by `")`. */
  lemma RequotedBody(lead: string, t: string, a: nat, b: nat)
    requires a <= b <= |t|
    ensures (lead + "(\"" + t[a..])[..|lead| + 2 + (b - a)] + "\")" == lead + "(\"" + t[a..b] + "\")"
  {
  }

  /** regR after regL on a reference with an empty body and no closing quote. */
  lemma QuoteCloseEmpty(t: string, mt: UrlMatch)
    requires InPattern(t, mt) && Preferred(t, mt) && mt.bodyStart == mt.bodyEnd == mt.tailStart
    ensures QuoteClose(t[..mt.paren] + "(\"" + t[mt.bodyStart..]) == t[..mt.paren] + "(\")"
  {
    var p := mt.paren;
    var v := t[..p] + "(\"" + t[mt.bodyStart..];
    NoCloseInLead(t, mt, v);
    CloseAtInsertedQuote(t, mt, v);
    QuoteCloseLast(v, p + 1);
    RequotedEmpty(t[..p], t[mt.bodyStart..]);
  }

  /** After regL, the text after the body is still a match of regR, now ending the text. */
  lemma CloseAtTail(t: string, mt: UrlMatch, v: string)
    requires InPattern(t, mt) && v == t[..mt.paren] + "(\"" + t[mt.bodyStart..]
    ensures var b2 := mt.paren + 2 + (mt.bodyEnd - mt.bodyStart);
      b2 < |v| && MatchAt(CloseLen, v, b2) == |v| - b2
  {
    var b2 := mt.paren + 2 + (mt.bodyEnd - mt.bodyStart);
    assert v[b2..] == t[mt.bodyEnd..];
    ShapedClose(t, mt);
    CloseMatchAt(t, mt.bodyEnd);
  }

  /** After regL, on a reference with a body or a closing quote, regR does not match before the text after the body. */
  lemma NoCloseBeforeTail(t: string, mt: UrlMatch, v: string)
    requires InPattern(t, mt) && Preferred(t, mt) && !(mt.bodyStart == mt.bodyEnd == mt.tailStart)
    requires v == t[..mt.paren] + "(\"" + t[mt.bodyStart..]
    ensures NoMatchIn(CloseLen, v, 0, mt.paren + 2 + (mt.bodyEnd - mt.bodyStart))
  {
    var p := mt.paren;
    var b2 := p + 2 + (mt.bodyEnd - mt.bodyStart);
    NoCloseInLead(t, mt, v);
    CloseAtInsertedQuote(t, mt, v);
    CloseInReference(t, mt);
    forall i | p + 2 <= i < b2 ensures MatchAt(CloseLen, v, i) == 0 {
      CloseInBody(t, mt, v, i - p - 2);
    }
  }

  /** regR after regL on a reference with a body or a closing quote. */
  lemma QuoteCloseBody(t: string, mt: UrlMatch)
    requires InPattern(t, mt) && Preferred(t, mt) && !(mt.bodyStart == mt.bodyEnd == mt.tailStart)
    ensures QuoteClose(t[..mt.paren] + "(\"" + t[mt.bodyStart..])
         == t[..mt.paren] + "(\"" + t[mt.bodyStart..mt.bodyEnd] + "\")"
  {
    var p := mt.paren;
    var v := t[..p] + "(\"" + t[mt.bodyStart..];
    var b2 := p + 2 + (mt.bodyEnd - mt.bodyStart);
    CloseAtTail(t, mt, v);
    NoCloseBeforeTail(t, mt, v);
    QuoteCloseLast(v, b2);
    RequotedBody(t[..p], t, mt.bodyStart, mt.bodyEnd);
  }

  /** No `(` before the opening parenthesis of a reference. */
  lemma LeadHasNoParen(t: string, mt: UrlMatch)
    requires InPattern(t, mt)
    ensures '(' !in t[..mt.paren]
  {
  }

  /** The last step of `fillImgUrl` on a re-quoted reference lead + `("` + body + `")`. */
  lemma PrefixQuoted(assetUrl: string, lead: string, body: string)
    requires '(' !in lead && '(' !in body
    ensures var q := lead + "(\"" + body + "\")";
      && (Contains(q, "(\"/") <==> body != [] && body[0] == '/')
      && ReplaceFirst(q, "(\"", "(\"" + assetUrl) == lead + "(\"" + assetUrl + body + "\")"
  {
    var rest := body + "\")";
    assert '(' !in rest by {
      assert forall i :: 0 <= i < |rest| ==> rest[i] == if i < |body| then body[i] else "\")"[i - |body|];
    }
    RequotedRegroup(lead, body, assetUrl);
    FirstOpenQuote(lead, rest, "(\"" + assetUrl);
  }

  /** The same concatenations, grouped the way PrefixQuoted needs them. */
  lemma RequotedRegroup(lead: string, body: string, assetUrl: string)
    ensures lead + "(\"" + body + "\")" == lead + "(\"" + (body + "\")")
    ensures lead + ("(\"" + assetUrl) + (body + "\")") == lead + "(\"" + assetUrl + body + "\")"
  {
  }

  /** The last step of `fillImgUrl` on the reference regR left as lead + `(")`. */
  lemma PrefixBare(assetUrl: string, lead: string)
    requires '(' !in lead
    ensures var q := lead + "(\")";
      && !Contains(q, "(\"/")
      && ReplaceFirst(q, "(\"", "(\"" + assetUrl) == lead + "(\"" + assetUrl + ")"
  {
    assert lead + "(\")" == lead + "(\"" + ")";
    FirstOpenQuote(lead, ")", "(\"" + assetUrl);
    assert lead + ("(\"" + assetUrl) + ")" == lead + "(\"" + assetUrl + ")";
  }

  /** `fillImgUrl` on a reference without `http://` whose body is empty and has no closing quote. */
  lemma FillBare(assetUrl: string, t: string, mt: UrlMatch)
    requires InPattern(t, mt) && Preferred(t, mt) && mt.bodyStart == mt.bodyEnd == mt.tailStart
    requires !Contains(t, "http://")
    ensures FillImgUrl(assetUrl, t) == t[..mt.paren] + "(\"" + assetUrl + ")"
  {
    QuoteOpenReference(t, mt);
    QuoteCloseEmpty(t, mt);
    LeadHasNoParen(t, mt);
    PrefixBare(assetUrl, t[..mt.paren]);
  }

  /** `fillImgUrl` on a reference without `http://` whose body has no `(` and is not bare. */
  lemma FillBody(assetUrl: string, t: string, mt: UrlMatch)
    requires InPattern(t, mt) && Preferred(t, mt) && !(mt.bodyStart == mt.bodyEnd == mt.tailStart)
    requires '(' !in t[mt.bodyStart..mt.bodyEnd] && !Contains(t, "http://")
    ensures var lead, body := t[..mt.paren], t[mt.bodyStart..mt.bodyEnd];
      FillImgUrl(assetUrl, t) ==
        if body != [] && body[0] == '/' then lead + "(\"" + body + "\")"
        else lead + "(\"" + assetUrl + body + "\")"
  {
    QuoteOpenReference(t, mt);
    QuoteCloseBody(t, mt);
    LeadHasNoParen(t, mt);
    PrefixQuoted(assetUrl, t[..mt.paren], t[mt.bodyStart..mt.bodyEnd]);
  }

  /**
    What `fillImgUrl` makes of one reference `url(...)` whose body has no `(`, with lead
    the text before the parenthesis (`url` and spaces) and body the captured `(.*?)`:
    left alone if it holds `http://`; an absolute body is only re-quoted as `("body")`;
    a relative one becomes `("assetUrl body")`; and an empty body without closing
    quote (`url()`, `url( )`, `url(')`) becomes `("assetUrl)`, because regR takes the
    quote regL inserted.
   */
  lemma FillImgUrlReference(assetUrl: string, t: string, mt: UrlMatch)
    requires InPattern(t, mt) && Preferred(t, mt) && '(' !in t[mt.bodyStart..mt.bodyEnd]
    ensures var lead, body := t[..mt.paren], t[mt.bodyStart..mt.bodyEnd];
      var r := FillImgUrl(assetUrl, t);
      var bare := body == [] && mt.tailStart == mt.bodyEnd;
      && (Contains(t, "http://") ==> r == t)
      && (!Contains(t, "http://") && body != [] && body[0] == '/' ==> r == lead + "(\"" + body + "\")")
      && (!Contains(t, "http://") && !bare && !(body != [] && body[0] == '/') ==>
            r == lead + "(\"" + assetUrl + body + "\")")
      && (!Contains(t, "http://") && bare ==> r == lead + "(\"" + assetUrl + ")")
  {
    if !Contains(t, "http://") {
      if mt.bodyStart == mt.bodyEnd == mt.tailStart {
        FillBare(assetUrl, t, mt);
      } else {
        FillBody(assetUrl, t, mt);
      }
    }
  }

  /** A stretch of css the reference pattern matches is a reference, split as RE2 prefers. */
  lemma MatchedReference(css: string, a: nat, b: nat)
    requires a < b <= |css| && MatchAt(UrlLen, css, a) == b - a
    ensures ParseUrl(css[a..]).Some?
    ensures var mt := ParseUrl(css[a..]).value;
      InPattern(css[a..b], mt) && Preferred(css[a..b], mt)
  {
    var u := css[a..];
    ParseUrlSound(u);
    assert u[..b - a] == css[a..b];
  }

  /**
    `fullFillImgUrl` copies the stylesheet and replaces exactly its leftmost
    non-overlapping references, left to right, each by `fillImgUrl` of its text; each
    replaced stretch is a reference split as RE2 prefers, so FillImgUrlReference says
    what it becomes.
   */
  lemma FullFillImgUrlSplices(assetUrl: string, css: string)
    ensures var spans := LeftmostSpans(UrlLen, css, 0);
      && LeftmostMatches(UrlLen, css, 0, spans)
      && FullFillImgUrl(assetUrl, css) == Splice(css, 0, spans, Filler(assetUrl))
      && forall k :: 0 <= k < |spans| ==>
           var t := css[spans[k].start..spans[k].end];
           ParseUrl(css[spans[k].start..]).Some?
           && InPattern(t, ParseUrl(css[spans[k].start..]).value)
           && Preferred(t, ParseUrl(css[spans[k].start..]).value)
  {
    var spans := LeftmostSpans(UrlLen, css, 0);
    ReplaceAllSplicesLeftmost(UrlLen, Filler(assetUrl), css);
    forall k | 0 <= k < |spans|
      ensures ParseUrl(css[spans[k].start..]).Some?
      ensures var mt := ParseUrl(css[spans[k].start..]).value;
        InPattern(css[spans[k].start..spans[k].end], mt) && Preferred(css[spans[k].start..spans[k].end], mt)
    {
      MatchedReference(css, spans[k].start, spans[k].end);
    }
  }
}
