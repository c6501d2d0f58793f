# gocombo: a verified model of the bundle builder

gocombo is a build-time asset bundler. It reads a manifest of asset groups. For each
group it concatenates the JavaScript files and then the CSS files, appends the group's
inline code, and hands each bundle to an external minifier. It names each bundle by the
MD5 digest of its content and writes a new manifest that maps every group key to its
two bundle names. Before a stylesheet is concatenated, every `url(...)` reference in it
is rewritten so that it still resolves once the stylesheet lives in the bundle's
directory.

The model has two parts, both taken from `main.go`.

- **The CSS `url(...)` rewriter** (`fullFillImgUrl` and its closure `fillImgUrl`).
  - `Regexp` models Go's `ReplaceAllString` / `ReplaceAllStringFunc` for patterns that
    never match the empty text and do not look behind their start. It proves that the
    scan copies everything between matches and replaces exactly the unique leftmost
    non-overlapping matches.
  - `UrlPattern` is a hand-written scanner for the three RE2 patterns. It follows RE2's
    leftmost-first order: greedy `\s*` and `['"]?`, a lazy `(.*?)`, a `.` that does not
    cross a newline, and `\s` = tab, newline, form feed, carriage return, space. It is
    proved to find a match of `url\s*\(\s*['"]?(.*?)['"]?\s*\)` split the way RE2
    prefers, a split that is unique, and that match is the shortest text in the
    pattern's language.
  - `ImgUrl` proves, for every reference, what `fillImgUrl` turns it into.
- **Bundle assembly** (`Bundle`), which covers three operations.
  - `minifyJs`, `minifyCss` and `minify` are methods with loops. They are proved against
    specification functions: the bundle contents, the output name and the output
    manifest.
  - `getFileContent` reads from a file system given as a map. A path not in the map is a
    file that cannot be read, and it reads as `""`.
  - `md5Hash` is a parameter: any function from text to text.

A matched reference that contains `http://` anywhere, not only at the start of its
URL, is left alone (`main.go:61`); `ImgUrl.FillImgUrlReference` states that.

## Model

| member | source | states |
|---|---|---|
| Strings.SpaceEnd | main.go:65 | the greedy `\s*` from a position stops at the end or at a non-space, never before the position |
| Strings.SpaceEndSpaces | main.go:65 | everything the greedy `\s*` takes is a space |
| Strings.SpaceEndUnique | main.go:65 | any run of spaces that stops at a non-space or at the end is exactly what `\s*` takes |
| Strings.SpaceEndCovers | main.go:68 | `\s*` takes at least every run of spaces from its start |
| Strings.SpaceEndStops | main.go:68 | `\s*` stops at the latest at the first non-space |
| Strings.SpaceEndShift | main.go:65-69 | scanning spaces in a suffix is scanning them in the whole text, shifted |
| Strings.IndexFrom | main.go:61 | `strings.Index`: the result is an occurrence with none before it, and None means no occurrence at all |
| Strings.ContainsIff | main.go:61 | `strings.Index(s, p) > -1` holds exactly when p occurs in s |
| Strings.Split | main.go:163 | `strings.Split` on `/` never returns an empty list, so `arr[0:len(arr)-1]` is always in range |
| Strings.SplitJoin | main.go:163-165 | no part of `strings.Split` holds the separator, and `strings.Join` of the parts gives the text back |
| Strings.FirstRune | main.go:163 | the first occurrence of a rune: it is there and not earlier |
| Strings.JoinSnoc | main.go:165 | joining all parts is joining all but the last, then the separator, then the last |
| Regexp.ReplaceAllIsSplice | main.go:66 | any leftmost non-overlapping matches are exactly what the replace-all scan replaces, gaps copied unchanged |
| Regexp.ReplaceSingleMatch | main.go:69 | a text with a single match is replaced at that match only |
| Regexp.ReplaceFirstSpan | main.go:79 | the scan copies the gap before the first match and replaces that match |
| Regexp.CopyGap | main.go:79 | where no match starts, the scan copies the text unchanged |
| Regexp.CopyGapAt | main.go:79 | a match-free tail of the text is copied unchanged |
| Regexp.ReplaceMatchAt | main.go:79 | at a match, the scan emits the replacement of the matched text and resumes after it |
| Regexp.LeftmostSpans | main.go:79 | the spans found from a position are the leftmost non-overlapping matches there |
| Regexp.ConsLeftmost | main.go:79 | a match followed by the leftmost matches after it are the leftmost matches |
| Regexp.SkipLeftmost | main.go:79 | a position where nothing matches does not change the leftmost matches after it |
| Regexp.OrderedTail | main.go:79 | the spans after the first stay ordered and non-overlapping |
| Regexp.LeftmostTail | main.go:79 | the leftmost matches after the first are the leftmost matches from its end |
| Regexp.LeftmostUnique | main.go:79 | the leftmost non-overlapping matches of a text are unique |
| Regexp.ReplaceAllSplicesLeftmost | main.go:79 | `ReplaceAllStringFunc` equals the splice of the unique leftmost matches: text outside them is copied unchanged, each match replaced, left to right |
| UrlPattern.OpenEnd | main.go:65 | `\(\s*['"]?` matches at a position exactly when a `(` is there, and the match is not empty |
| UrlPattern.OpenEndShape | main.go:65 | a match of the opening pattern is a `(`, spaces and perhaps a quote |
| UrlPattern.OpenEndLongest | main.go:65 | the match is the longest such text from its position: the `(`, all the spaces after it, and the quote if one follows |
| UrlPattern.OpenMatchAt | main.go:65 | the opening pattern as regL applies it matches at a position exactly as far as OpenEnd says, and not at all where OpenEnd finds nothing |
| UrlPattern.CloseEnd | main.go:68 | a match of `['"]?\s*\)` ends within the text, after its start |
| UrlPattern.CloseEndShape | main.go:68 | a match of `['"]?\s*\)` is an optional quote, spaces and `)` |
| UrlPattern.CloseEndIsTheShape | main.go:68 | every text of that form from a position is the match there |
| UrlPattern.CloseEndPrefix | main.go:68 | whether the closing pattern matches depends only on the text up to its end |
| UrlPattern.CloseLen | main.go:68 | a closing match is at least the `)` and never longer than the text |
| UrlPattern.CloseMatchAt | main.go:68 | the closing pattern matches at a position exactly as far as the scanner says |
| UrlPattern.ShapedPrefix | main.go:78 | being a reference, and being split the preferred way, depend only on the text up to its `)`, in both directions |
| UrlPattern.LazyBody | main.go:78 | the lazy body stops where the closing part matches |
| UrlPattern.LazyBodyFirst | main.go:78 | the lazy `(.*?)` stops at the first position where the closing part matches, without crossing a newline, or finds none |
| UrlPattern.ParseUrlShaped | main.go:78 | the parts ParseUrl finds lie where the pattern says, split the way leftmost-first prefers |
| UrlPattern.ParseUrlSound | main.go:78 | every match found is in the language of `url\s*\(\s*['"]?(.*?)['"]?\s*\)`, split the way RE2's leftmost-first order prefers |
| UrlPattern.CloseEndBefore | main.go:68 | a closing match never reaches past a `)` that follows its start |
| UrlPattern.BodyStartCovers | main.go:78 | for any reference at the start, the scanner's body starts no earlier than that reference's body |
| UrlPattern.ShapedClose | main.go:78 | where a reference's body ends, the closing part matches up to its `)` |
| UrlPattern.LazyBodyCovers | main.go:78 | the lazy body stops no later than the `)` of any reference at the start |
| UrlPattern.PreferredUnique | main.go:78 | a text in the pattern's language has only one split the way leftmost-first prefers, so the capture `(.*?)` is determined |
| UrlPattern.ParseUrlShortest | main.go:78 | whenever some prefix is in the pattern's language, a match is found and it is no longer than that prefix |
| ImgUrl.FullFillImgUrlSplices | main.go:78-80 | the rewritten stylesheet copies all text outside references and replaces the leftmost non-overlapping references, left to right, each a reference split as RE2 prefers |
| ImgUrl.MatchedReference | main.go:78-79 | each stretch the url pattern replaces is a reference in the pattern's language |
| ImgUrl.FillImgUrlReference | main.go:60-76 | a reference holding `http://` is unchanged. Otherwise: an absolute body (leading `/`, so also `//`) becomes `("body")`; any other body, `https://` and `data:` included, becomes `("prefix body")`; an empty body with no closing quote becomes `("prefix)` |
| ImgUrl.FillBody | main.go:65-75 | the rewriting of a reference with a body or a closing quote, the body holding no `(` |
| ImgUrl.FillBare | main.go:65-75 | the rewriting of `url()` with an empty body and no closing quote |
| ImgUrl.QuoteOpenReference | main.go:65-66 | on a reference whose body holds no `(`, regL turns the `(`, its spaces and its quote into `("`; the text before the `(` (`url` and spaces) and after the quote is unchanged |
| ImgUrl.QuoteCloseBody | main.go:68-69 | after regL, regR turns the closing quote, spaces and `)` into `")` and changes nothing else |
| ImgUrl.QuoteCloseEmpty | main.go:68-69 | with an empty body and no closing quote, regR takes the quote regL inserted, leaving `(")` |
| ImgUrl.QuoteCloseLast | main.go:69 | regR on a text whose only match ends the text |
| ImgUrl.CloseAtInsertedQuote | main.go:68 | regR matches at the inserted quote exactly when the body is empty and has no closing quote |
| ImgUrl.CloseLenAfterQuote | main.go:68 | the closing pattern right after a quote: a second quote stops it, otherwise it matches one rune further |
| ImgUrl.NoCloseInLead | main.go:68 | regR does not match in the text before the inserted quote |
| ImgUrl.CloseInBody | main.go:68 | after regL, the closing pattern matches in the body as it did before |
| ImgUrl.CloseInReference | main.go:68 | the body holds no start of a closing match, and the text after it is one |
| ImgUrl.CloseAtTail | main.go:68 | after regL, the text after the body still matches regR up to the end |
| ImgUrl.NoCloseBeforeTail | main.go:68 | after regL, regR does not match before the text after the body, unless the body is empty with no closing quote |
| ImgUrl.NoOpenNoMatch | main.go:65 | where there is no `(`, regL does not match |
| ImgUrl.ReferenceParens | main.go:78 | a reference has no `(`, `)` or quote before its `(`, and no `(` after its body |
| ImgUrl.LeadHasNoParen | main.go:75 | the text before a reference's `(` holds no `(` |
| ImgUrl.FirstOpenQuote | main.go:71-75 | in lead + `("` + rest with no other `(`: the first `("` is after lead; `("/` occurs exactly when rest starts with `/`; the replacement lands right after lead |
| ImgUrl.PrefixQuoted | main.go:71-75 | on a quoted reference with no `(` outside its `("`, `("/` is found exactly when the body starts with `/`; otherwise the prefix is inserted once, right after `("` |
| ImgUrl.PrefixBare | main.go:71-75 | on `(")`, `("/` is never found and the prefix is inserted right after `("` |
| Bundle.LastIndexOf | main.go:163-165 | the last position of a rune: there, with none after it, and None exactly when the rune is absent |
| Bundle.CssDirIsParent | main.go:163-165 | a stylesheet's directory prefix is its path up to and including the last `/`, or `/` alone when it has none |
| Bundle.ConcatStep | main.go:138-140 | reading one more listed file appends its content |
| Bundle.ConcatAppend | main.go:138-140 | concatenating two lists of files concatenates their contents, in order |
| Bundle.ConcatCons | main.go:161-167 | the first listed file's content comes first, before the rest |
| Bundle.ConcatSkipsEmpty | main.go:185-193 | a file that reads as `""` contributes nothing: the bundle is as if it were not listed |
| Bundle.UnreadableReadsEmpty | main.go:185-193 | a listed file that cannot be read contributes `""`, to either kind of bundle |
| Bundle.MinifyJs | main.go:135-156 | the JavaScript text is the listed files' contents in order, then `JsCodes`; the bundle is named `prefix/hash(text).js` |
| Bundle.MinifyCss | main.go:158-183 | the CSS text is each listed stylesheet rewritten against its own directory, in order, then `CssCodes`, not rewritten; the bundle is named `prefix/hash(text).css` |
| Bundle.Minify | main.go:102-123 | whatever order the groups are visited in, the output manifest is the function of the input that maps every key to its entry |
| Bundle.ManifestOfEntries | main.go:108-118 | a map with exactly the input's keys, each holding its group's entry, is the output manifest |
| Bundle.ManifestShape | main.go:108-118 | the output manifest has exactly the input's keys. Each entry is `[prefix/hash(js).js]` and `[prefix/hash(css).css]` with no inline code, so equal content gives equal names |

## Left out

- Loading the project configuration, the argument check and the panics (`main.go:31-57`) are file I/O with fatal exits. The project is a parameter.
- JSON decoding and encoding of the manifests (`readAssetsConf`, `writeNewAssets`, `main.go:83-100`, `main.go:125-133`) is left out. Manifests are maps.
- Writing `./tmp/tmp.js` and `./tmp/tmp.css`, and running `uglifyjs` and `csso` with their error printing (`main.go:146-153`, `main.go:173-180`), are subprocesses and file I/O.
  - `Bundle.MinifyJs` and `Bundle.MinifyCss` return the text they would write as well as the bundle name.
  - The minified output itself is not modelled.
- MD5 and its hex rendering (`main.go:195-196`) are a foreign library. The hash is any function from text to text; only its determinism is used.
- The order in which `minify` visits groups (`main.go:108`) is unspecified. The loop picks any remaining key, so the result is proved for every order.
- Progress and error printing (`main.go:103`, `109`, `122`, `190`) is diagnostic output only.
- File contents are runes. Go works on bytes and runes of UTF-8 text, but the patterns only test ASCII runes, so invalid UTF-8 is not modelled.
- The file system is taken as unchanged by the run's own writes.
  - The program writes `./tmp/tmp.js`, `./tmp/tmp.css` and each bundle under `RootPath + AssetsFolderPrefix` (`main.go:147`, `149`, `174`, `176`) while it loops over the groups.
  - A later group that lists one of those paths would read the new content, so its entry would depend on the order the groups are visited in.
  - `Bundle.Minify` reads every group from the same map, so its "whatever order" holds for that file system only.
- ImgUrl.QuoteOpenReference: stated only for references whose body holds no `(`, for the reason given for FillImgUrlReference below.
- ImgUrl.FillBody: stated only for references whose body holds no `(`, as FillImgUrlReference below.
- ImgUrl.PrefixQuoted: stated only for a lead and body without `(`, which is what FillBody needs.
- ImgUrl.FillImgUrlReference: only characterises references whose body holds no `(`.
  - regL also rewrites a `(` inside the body, such as `url(a(b).png)` or `url(data:...(...))`.
  - The model still computes those references through `FillImgUrl` and the splice lemma, but it states no closed form for them.
