/**
  The bundle assembly of `minifyJs`, `minifyCss` and `minify` (main.go:102-183): each
  asset group's files are read in the order listed and concatenated, CSS files after
  their `url(...)` references have been rewritten against their own directory, the
  group's inline code is appended, and the bundle is named by the hash of its content.
  The output manifest maps every group key to the names of its two bundles.

  The file system is a map from path to content, a path outside the map being a file
  that cannot be read; the MD5 digest is a function given as a parameter.
 */
module Bundle {
  import opened Wrappers
  import opened Strings
  import opened ImgUrl

  /** `projectJson` (main.go:14-20): where assets live and where bundles go. */
  datatype Project = Project(
    rootPath: string,
    assetsFolderPrefix: string,
    assetsConfFile: string,
    assetsConfOutputFile: string,
    minFilesOutputPrefix: string)

  /** `assetsJson` (main.go:22-27): one asset group of a manifest. */
  datatype Assets = Assets(jsFiles: seq<string>, cssFiles: seq<string>, jsCodes: string, cssCodes: string)

  /** The readable files: a path maps to its content. */
  type FileSystem = map<string, string>

  /** The content digest `md5Hash` computes, rendered as text. */
  type Hash = string -> string

  /** `getFileContent` (main.go:185-193): the file's content, or "" when it cannot be read. */
  function GetFileContent(fs: FileSystem, file: string): string {
    if file in fs then fs[file] else ""
  }

  /** Where a listed file is read from: `RootPath + AssetsFolderPrefix + filename`. */
  function AssetPath(project: Project, filename: string): string {
    project.rootPath + project.assetsFolderPrefix + filename
  }

  // ----- the directory prefix of a stylesheet (main.go:163-165) -----

  /** Every segment of filename but the last, joined with `/`, and a trailing `/`. */
  function CssDir(filename: string): string {
    var arr := Split(filename, '/');
    Join(arr[..|arr| - 1], '/') + "/"
  }

  /** The last position of c in s, if c occurs. */
  function LastIndexOf(s: string, c: char): (r: Option<nat>)
    ensures r.None? <==> c !in s
    ensures r.Some? ==> r.value < |s| && s[r.value] == c && c !in s[r.value + 1..]
  {
    if s == [] then None
    else if s[|s| - 1] == c then Some(|s| - 1)
    else
      var r := LastIndexOf(s[..|s| - 1], c);
      assert s == s[..|s| - 1] + [s[|s| - 1]];
      if r.Some? then
        assert s[r.value + 1..] == s[..|s| - 1][r.value + 1..] + [s[|s| - 1]];
        r
      else r
  }

  /**
    The directory prefix of a stylesheet is its path up to and including the last `/`,
    and `/` alone for a path without one.
   */
  lemma CssDirIsParent(filename: string)
    ensures CssDir(filename) == match LastIndexOf(filename, '/')
      case None => "/"
      case Some(i) => filename[..i + 1]
  {
    var arr := Split(filename, '/');
    var n := |arr|;
    SplitJoin(filename, '/');
    if n == 1 {
      assert filename == arr[0];
    } else {
      JoinSnoc(arr, '/');
      var init := Join(arr[..n - 1], '/');
      assert filename == init + ['/'] + arr[n - 1];
      assert filename[|init|] == '/';
      assert filename[|init| + 1..] == arr[n - 1];
      assert filename[..|init| + 1] == init + "/";
    }
  }

  // ----- the content of a bundle (main.go:137-141, 160-168) -----

  /** The two kinds of bundle a group produces. */
  datatype Kind = Js | Css

  /**
    How a listed file enters its bundle: read from the asset folder ("" when it cannot
    be), and, for a stylesheet, rewritten against the stylesheet's own directory.
   */
  function ReadAsset(fs: FileSystem, project: Project, kind: Kind, filename: string): string {
    var text := GetFileContent(fs, AssetPath(project, filename));
    match kind
    case Js => text
    case Css => FullFillImgUrl(CssDir(filename), text)
  }

  /** ReadAsset for one kind of bundle, as a function of the file name. */
  function Reader(fs: FileSystem, project: Project, kind: Kind): string -> string {
    filename => ReadAsset(fs, project, kind, filename)
  }

  /** The listed files, each as read, concatenated in the order listed. */
  function Concat(files: seq<string>, read: string -> string): string
    decreases |files|
  {
    if files == [] then ""
    else Concat(files[..|files| - 1], read) + read(files[|files| - 1])
  }

  /** The JavaScript bundle of a group: its files, then its inline code. */
  function JsBundle(fs: FileSystem, project: Project, item: Assets): string {
    Concat(item.jsFiles, Reader(fs, project, Js)) + item.jsCodes
  }

  /** The CSS bundle of a group: its rewritten stylesheets, then its inline code, not rewritten. */
  function CssBundle(fs: FileSystem, project: Project, item: Assets): string {
    Concat(item.cssFiles, Reader(fs, project, Css)) + item.cssCodes
  }

  /** Where a bundle is recorded: `MinFilesOutputPrefix + "/" + hash + ext`. */
  function OutputFile(project: Project, hash: Hash, content: string, ext: string): string {
    project.minFilesOutputPrefix + "/" + hash(content) + ext
  }

  /** Reading one more file appends its content. */
  lemma ConcatStep(files: seq<string>, i: nat, read: string -> string)
    requires i < |files|
    ensures Concat(files[..i + 1], read) == Concat(files[..i], read) + read(files[i])
  {
    assert files[..i + 1][..i] == files[..i];
  }

  /** Concatenating two lists of files concatenates their contents, in order. */
  lemma {:induction false} ConcatAppend(xs: seq<string>, ys: seq<string>, read: string -> string)
    ensures Concat(xs + ys, read) == Concat(xs, read) + Concat(ys, read)
    decreases |ys|
  {
    if ys == [] {
      assert xs + ys == xs;
    } else {
      var zs := xs + ys;
      assert zs[..|zs| - 1] == xs + ys[..|ys| - 1];
      ConcatAppend(xs, ys[..|ys| - 1], read);
    }
  }

  /** Each listed file contributes its own content at its own place, the first one first. */
  lemma ConcatCons(f: string, rest: seq<string>, read: string -> string)
    ensures Concat([f] + rest, read) == read(f) + Concat(rest, read)
  {
    ConcatAppend([f], rest, read);
    assert [f][..0] == [];
  }

  /** A file that reads as "" contributes nothing: the bundle is as if it were not listed. */
  lemma ConcatSkipsEmpty(xs: seq<string>, f: string, ys: seq<string>, read: string -> string)
    requires read(f) == ""
    ensures Concat(xs + [f] + ys, read) == Concat(xs + ys, read)
  {
    ConcatAppend(xs + [f], ys, read);
    ConcatAppend(xs, [f], read);
    ConcatAppend(xs, ys, read);
    assert [f][..0] == [];
  }

  /** A listed file that cannot be read reads as "", in either kind of bundle. */
  lemma UnreadableReadsEmpty(fs: FileSystem, project: Project, kind: Kind, filename: string)
    requires AssetPath(project, filename) !in fs
    ensures Reader(fs, project, kind)(filename) == ""
  {
  }

  // ----- building the bundles (main.go:102-183) -----

  /**
    `minifyJs`: concatenates the group's JavaScript files and inline code into the text
    handed to the minifier, and names the bundle by the hash of that text.
   */
  method MinifyJs(fs: FileSystem, project: Project, hash: Hash, item: Assets)
    returns (content: string, outputFile: string)
    ensures content == JsBundle(fs, project, item)
    ensures outputFile == OutputFile(project, hash, content, ".js")
  {
    content := "";
    for i := 0 to |item.jsFiles|
      invariant content == Concat(item.jsFiles[..i], Reader(fs, project, Js))
    {
      ConcatStep(item.jsFiles, i, Reader(fs, project, Js));
      content := content + GetFileContent(fs, AssetPath(project, item.jsFiles[i]));
    }
    assert item.jsFiles[..|item.jsFiles|] == item.jsFiles;
    content := content + item.jsCodes;
    var digest := hash(content);
    outputFile := project.minFilesOutputPrefix + "/" + digest + ".js";
  }

  /**
    `minifyCss`: concatenates the group's stylesheets, each rewritten against its own
    directory, and the inline CSS, and names the bundle by the hash of that text.
   */
  method MinifyCss(fs: FileSystem, project: Project, hash: Hash, item: Assets)
    returns (content: string, outputFile: string)
    ensures content == CssBundle(fs, project, item)
    ensures outputFile == OutputFile(project, hash, content, ".css")
  {
    content := "";
    for i := 0 to |item.cssFiles|
      invariant content == Concat(item.cssFiles[..i], Reader(fs, project, Css))
    {
      var filename := item.cssFiles[i];
      var tmp := GetFileContent(fs, AssetPath(project, filename));
      var arr := Split(filename, '/');
      var arr1 := arr[0..|arr| - 1];
      var path := Join(arr1, '/') + "/";
      assert path == CssDir(filename);
      ConcatStep(item.cssFiles, i, Reader(fs, project, Css));
      content := content + FullFillImgUrl(path, tmp);
    }
    assert item.cssFiles[..|item.cssFiles|] == item.cssFiles;
    content := content + item.cssCodes;
    var digest := hash(content);
    outputFile := project.minFilesOutputPrefix + "/" + digest + ".css";
  }

  /** The entry `minify` records for a group: one bundle of each kind, and no inline code. */
  function MinifiedEntry(fs: FileSystem, project: Project, hash: Hash, item: Assets): Assets {
    Assets([OutputFile(project, hash, JsBundle(fs, project, item), ".js")],
           [OutputFile(project, hash, CssBundle(fs, project, item), ".css")], "", "")
  }

  /** The output manifest of `minify`: every group key, mapped to its entry. */
  function OutputManifest(fs: FileSystem, project: Project, hash: Hash, assets: map<string, Assets>): map<string, Assets> {
    map key | key in assets :: MinifiedEntry(fs, project, hash, assets[key])
  }

  /**
    `minify` without its I/O: the groups are visited one at a time, in no particular
    order, and each one's entry is recorded under its key.
   */
  method Minify(fs: FileSystem, project: Project, hash: Hash, assets: map<string, Assets>)
    returns (newAssets: map<string, Assets>)
    ensures newAssets == OutputManifest(fs, project, hash, assets)
  {
    newAssets := map[];
    var remaining := assets.Keys;
    while remaining != {}
      invariant remaining <= assets.Keys
      invariant newAssets.Keys == assets.Keys - remaining
      invariant forall key :: key in newAssets ==> newAssets[key] == MinifiedEntry(fs, project, hash, assets[key])
      decreases |remaining|
    {
      var key :| key in remaining;
      var item := assets[key];
      var jsContent, jsName := MinifyJs(fs, project, hash, item);
      var cssContent, cssName := MinifyCss(fs, project, hash, item);
      var newItem := Assets([jsName], [cssName], "", "");
      newAssets := newAssets[key := newItem];
      remaining := remaining - {key};
    }
    ManifestOfEntries(fs, project, hash, assets, newAssets);
  }

  /** A map with the groups' keys, each holding its group's entry, is the output manifest. */
  lemma ManifestOfEntries(fs: FileSystem, project: Project, hash: Hash, assets: map<string, Assets>, m: map<string, Assets>)
    requires forall key :: key in m <==> key in assets
    requires forall key :: key in m ==> m[key] == MinifiedEntry(fs, project, hash, assets[key])
    ensures m == OutputManifest(fs, project, hash, assets)
  {
  }

  /**
    The output manifest has exactly the input's keys; each entry names one JavaScript
    and one CSS bundle under the output prefix, by the hash of its content, and carries
    no inline code.
   */
  lemma ManifestShape(fs: FileSystem, project: Project, hash: Hash, assets: map<string, Assets>)
    ensures var m := OutputManifest(fs, project, hash, assets);
      && m.Keys == assets.Keys
      && forall key :: key in m ==>
           && m[key].jsFiles == [project.minFilesOutputPrefix + "/" + hash(JsBundle(fs, project, assets[key])) + ".js"]
           && m[key].cssFiles == [project.minFilesOutputPrefix + "/" + hash(CssBundle(fs, project, assets[key])) + ".css"]
           && m[key].jsCodes == "" && m[key].cssCodes == ""
  {
  }
}
