/** Where the site builder writes a Markdown page (`get_html_path`) and
    the link from one page's HTML file to another's
    (`get_relative_html_path`). */
module HtmlPaths {
  import opened Text
  import opened PosixPath

  /** `name.lower() in ('index', 'readme')`: only a five- or six-letter
      name can be one. */
  function IsIndexName(name: string): (b: bool)
    ensures b ==> |name| == 5 || |name| == 6
  {
    Lower(name) == "index" || Lower(name) == "readme"
  }

  /** The name a page is built under: the file name without its
      extension, where `index` and `README` in any case both become
      `index`. */
  function PageName(filename: string): (r: string)
    ensures r == "index" || r == SplitExt(filename).0
  {
    var stem := SplitExt(filename).0;
    if IsIndexName(stem) then "index" else stem
  }

  /** `get_html_path(path, use_directory_urls)`. Every result is an HTML
      file, and with directory URLs always an `index.html`. */
  function GetHtmlPath(path: string, useDirectoryUrls: bool): (r: string)
    ensures EndsWith(r, ".html")
    ensures useDirectoryUrls ==> EndsWith(r, "index.html")
  {
    HtmlFile(SplitHeadTail(path).0, PageName(SplitHeadTail(path).1), useDirectoryUrls)
  }

  /** Where the page `name` of directory `parent` is built. */
  function HtmlFile(parent: string, name: string, useDirectoryUrls: bool): (r: string)
    ensures EndsWith(r, ".html")
    ensures useDirectoryUrls ==> EndsWith(r, "index.html")
  {
    var r := if !useDirectoryUrls then PathJoin(parent, name + ".html")
             else if name == "index" then PathJoin(parent, "index.html")
             else PathJoin(PathJoin(parent, name), "index.html");
    HtmlSuffix(r, if useDirectoryUrls then "index.html" else name + ".html");
    r
  }

  lemma HtmlSuffix(r: string, file: string)
    requires EndsWith(r, file)
    requires file == "index.html" || (exists name :: file == name + ".html")
    ensures EndsWith(r, ".html")
  {
    if file == "index.html" {
      assert EndsWith("index.html", ".html");
    } else {
      var name :| file == name + ".html";
      assert file[|file| - 5..] == ".html";
    }
    EndsWithTrans(r, file, ".html");
  }

  /** The same mapping on the segments of a normalised path: the parent
      directory is kept; the page becomes `name.html` (flat) or
      `index.html` inside a directory named after the page, except that
      an index page stays in its parent. */
  function HtmlSegments(segs: seq<string>, useDirectoryUrls: bool): (r: seq<string>)
    requires |segs| >= 1
    ensures |r| >= 1
  {
    HtmlNames(segs[..|segs| - 1], PageName(segs[|segs| - 1]), useDirectoryUrls)
  }

  function HtmlNames(parent: seq<string>, name: string, useDirectoryUrls: bool): (r: seq<string>)
    ensures |r| >= 1
  {
    if !useDirectoryUrls then parent + [name + ".html"]
    else if name == "index" then parent + ["index.html"]
    else parent + [name, "index.html"]
  }

  /** A page name is `index` exactly when the stem is `index` or `README`
      in any case. */
  lemma PageNameIsIndex(filename: string)
    ensures PageName(filename) == "index" <==> IsIndexName(SplitExt(filename).0)
  {
    var stem := SplitExt(filename).0;
    if stem == "index" {
      assert Lower(stem) == "index";
    }
  }

  /** The page name of a name is a name, and so is its `.html` file. */
  lemma PageNameIsName(filename: string)
    requires IsName(filename)
    ensures IsName(PageName(filename))
    ensures IsName(PageName(filename) + ".html")
  {
    StemIsName(filename);
    assert IsName("index");
    NameWithSuffix(PageName(filename), ".html");
  }

  lemma NameWithSuffix(a: string, b: string)
    requires IsName(a) && |b| >= 2 && '/' !in b
    ensures IsName(a + b)
  {
    forall i | 0 <= i < |a + b| ensures (a + b)[i] != '/' {
      if i < |a| {
        assert a[i] in a;
      } else {
        assert b[i - |a|] in b;
      }
    }
  }

  lemma HtmlSegmentsAreNames(segs: seq<string>, useDirectoryUrls: bool)
    requires |segs| >= 1 && AllNames(segs)
    ensures AllNames(HtmlSegments(segs, useDirectoryUrls))
  {
    PageNameIsName(segs[|segs| - 1]);
    assert IsName("index.html");
  }

  /** On a normalised path, `get_html_path` works segment by segment as
      `HtmlSegments` says, and its result is normalised too. */
  lemma GetHtmlPathSegments(path: string, useDirectoryUrls: bool)
    requires IsNormalPath(path)
    ensures IsNormalPath(GetHtmlPath(path, useDirectoryUrls))
    ensures Split(GetHtmlPath(path, useDirectoryUrls), '/')
         == HtmlSegments(Split(path, '/'), useDirectoryUrls)
  {
    var segs := Split(path, '/');
    GetHtmlPathJoined(path, useDirectoryUrls);
    HtmlSegmentsAreNames(segs, useDirectoryUrls);
    NormalJoin(GetHtmlPath(path, useDirectoryUrls), HtmlSegments(segs, useDirectoryUrls));
  }

  /** Names joined by slashes form a normalised path that splits back
      into them. */
  lemma NormalJoin(h: string, names: seq<string>)
    requires |names| >= 1 && AllNames(names) && h == Join(names, '/')
    ensures IsNormalPath(h) && Split(h, '/') == names
  {
    SplitJoin(names, '/');
  }

  lemma GetHtmlPathJoined(path: string, useDirectoryUrls: bool)
    requires IsNormalPath(path)
    ensures GetHtmlPath(path, useDirectoryUrls) == Join(HtmlSegments(Split(path, '/'), useDirectoryUrls), '/')
  {
    var segs := Split(path, '/');
    var n := |segs|;
    SplitOfNormalPath(path);
    PageNameIsName(segs[n - 1]);
    GetHtmlPathOfSplit(path, useDirectoryUrls, Join(segs[..n - 1], '/'), segs[n - 1]);
    HtmlJoinSegments(segs[..n - 1], PageName(segs[n - 1]), useDirectoryUrls);
  }

  lemma GetHtmlPathOfSplit(path: string, useDirectoryUrls: bool, parent: string, filename: string)
    requires SplitHeadTail(path) == (parent, filename)
    ensures GetHtmlPath(path, useDirectoryUrls) == HtmlFile(parent, PageName(filename), useDirectoryUrls)
  {
  }

  lemma SplitOfNormalPath(path: string)
    requires IsNormalPath(path)
    ensures var segs := Split(path, '/');
      SplitHeadTail(path) == (Join(segs[..|segs| - 1], '/'), segs[|segs| - 1])
  {
    JoinSplit(path, '/');
    SplitNormalPath(Split(path, '/'));
  }

  /** The three joins of `get_html_path` on a normalised parent. */
  lemma HtmlJoinSegments(parent: seq<string>, name: string, useDirectoryUrls: bool)
    requires AllNames(parent) && IsName(name) && IsName(name + ".html")
    ensures HtmlFile(Join(parent, '/'), name, useDirectoryUrls) == Join(HtmlNames(parent, name, useDirectoryUrls), '/')
  {
    assert IsName("index.html");
    if !useDirectoryUrls {
      JoinOntoNames(parent, name + ".html");
    } else if name == "index" {
      JoinOntoNames(parent, "index.html");
    } else {
      JoinTwoOntoNames(parent, name, "index.html");
    }
  }

  /** `join(join(parent, name), file)` adds two segments. */
  lemma JoinTwoOntoNames(parent: seq<string>, name: string, file: string)
    requires AllNames(parent) && IsName(name) && IsName(file)
    ensures PathJoin(PathJoin(Join(parent, '/'), name), file) == Join(parent + [name, file], '/')
  {
    JoinOntoNames(parent, name);
    JoinOntoNames(parent + [name], file);
    assert parent + [name] + [file] == parent + [name, file];
  }

  /** The shape of a normalised page's HTML path: same parent directory;
      flat, `name.html` in place of the file; with directory URLs,
      `index.html` either in the parent (index and README pages) or in a
      new directory named after the page. */
  lemma HtmlPathShape(path: string, useDirectoryUrls: bool)
    requires IsNormalPath(path)
    ensures var segs := Split(path, '/');
            var out := Split(GetHtmlPath(path, useDirectoryUrls), '/');
            var n := |segs|;
            var stem := SplitExt(segs[n - 1]).0;
            |out| >= n && out[..n - 1] == segs[..n - 1] &&
            (!useDirectoryUrls ==>
               |out| == n &&
               out[n - 1] == (if IsIndexName(stem) then "index" else stem) + ".html") &&
            (useDirectoryUrls ==>
               out[|out| - 1] == "index.html" &&
               (IsIndexName(stem) ==> |out| == n) &&
               (!IsIndexName(stem) ==> |out| == n + 1 && out[n - 1] == stem))
  {
    GetHtmlPathSegments(path, useDirectoryUrls);
    var segs := Split(path, '/');
    PageNameIsIndex(segs[|segs| - 1]);
  }

  /** The directory part of a list of segments. */
  function DirOf(segs: seq<string>): seq<string>
    requires |segs| >= 1
  {
    segs[..|segs| - 1]
  }

  lemma DirOfThenLast(segs: seq<string>)
    requires |segs| >= 1
    ensures DirOf(segs) + [segs[|segs| - 1]] == segs
  {
  }

  /** `posixpath.dirname` of a normalised path, and what `relpath` sees
      of it. */
  lemma DirnameOfNormalPath(h: string)
    requires IsNormalPath(h)
    ensures RelativeWithoutParent(Dirname(h))
    ensures Segments(Dirname(h)) == DirOf(Split(h, '/'))
  {
    var segs := Split(h, '/');
    DirnameJoined(h);
    NamesPath(DirOf(segs));
  }

  lemma DirnameJoined(h: string)
    requires IsNormalPath(h)
    ensures Dirname(h) == Join(DirOf(Split(h, '/')), '/')
  {
    SplitOfNormalPath(h);
  }

  /** Joined names are a path `relpath` accepts, with those names as its
      segments. */
  lemma NamesPath(names: seq<string>)
    requires AllNames(names)
    ensures RelativeWithoutParent(Join(names, '/'))
    ensures Segments(Join(names, '/')) == names
  {
    if names == [] {
      assert Split("", '/') == [""];
    } else {
      SplitJoin(names, '/');
      JoinedNamesEnds(names);
      assert Join(names, '/')[0] == names[0][0];
      assert ".." !in names;
    }
  }

  /** `get_relative_html_path(old_page, new_page, use_directory_urls)`:
      the link between the two pages' HTML paths. */
  function GetRelativeHtmlPath(oldPage: string, newPage: string, useDirectoryUrls: bool): (r: string)
    requires IsNormalPath(oldPage) && IsNormalPath(newPage)
    ensures useDirectoryUrls ==> EndsWith(r, "/")
  {
    GetHtmlPathSegments(oldPage, useDirectoryUrls);
    GetHtmlPathSegments(newPage, useDirectoryUrls);
    HtmlLink(GetHtmlPath(oldPage, useDirectoryUrls), GetHtmlPath(newPage, useDirectoryUrls), useDirectoryUrls)
  }

  /** The link from the HTML file `oldPath` to the HTML file `newPath`:
      `relpath` from the old file's directory, to the new file, or with
      directory URLs to its directory followed by a slash. */
  function HtmlLink(oldPath: string, newPath: string, useDirectoryUrls: bool): (r: string)
    requires IsNormalPath(oldPath) && IsNormalPath(newPath)
    ensures useDirectoryUrls ==> EndsWith(r, "/")
  {
    LinkArguments(oldPath, newPath, useDirectoryUrls);
    var rel := RelPath(LinkTarget(newPath, useDirectoryUrls), Dirname(oldPath));
    EndsWithAppended(rel, "/");
    if useDirectoryUrls then rel + "/" else rel
  }

  /** The link's target and start are paths `relpath` accepts. */
  lemma LinkArguments(oldPath: string, newPath: string, useDirectoryUrls: bool)
    requires IsNormalPath(oldPath) && IsNormalPath(newPath)
    ensures LinkTarget(newPath, useDirectoryUrls) != ""
    ensures RelativeWithoutParent(LinkTarget(newPath, useDirectoryUrls))
    ensures RelativeWithoutParent(Dirname(oldPath))
  {
    DirnameOfNormalPath(oldPath);
    LinkTargetOf(newPath, useDirectoryUrls);
  }

  /** The path the link goes to: the new HTML file, or with directory
      URLs its directory (`./` when that is the top), which is never
      empty. */
  function LinkTarget(newPath: string, useDirectoryUrls: bool): (r: string)
    ensures !useDirectoryUrls ==> r == newPath
    ensures useDirectoryUrls ==> r == "./" || (r != "" && StartsWith(newPath, r))
  {
    if useDirectoryUrls then (if Dirname(newPath) == "" then "./" else Dirname(newPath))
    else newPath
  }

  lemma LinkTargetOf(newPath: string, useDirectoryUrls: bool)
    requires IsNormalPath(newPath)
    ensures var target := LinkTarget(newPath, useDirectoryUrls);
            var segs := Split(newPath, '/');
            target != "" && RelativeWithoutParent(target) &&
            Segments(target) == (if useDirectoryUrls then DirOf(segs) else segs)
  {
    var segs := Split(newPath, '/');
    if !useDirectoryUrls {
      JoinSplit(newPath, '/');
      NamesPath(segs);
    } else {
      DirnameOfNormalPath(newPath);
      DirnameJoined(newPath);
      if Dirname(newPath) == "" {
        TopDirectory();
        if DirOf(segs) != [] {
          JoinedNamesEnds(DirOf(segs));
        }
      }
    }
  }

  /** `./`, the top directory, is a path `relpath` accepts and has no
      segments. */
  lemma TopDirectory()
    ensures RelativeWithoutParent("./") && Segments("./") == []
  {
    assert "./" == "." + ['/'] + "";
    SplitAfterPart(".", '/', "");
    assert Split("", '/') == [""];
    SplitNoSep(".", '/');
    assert Split("./", '/') == [".", ""];
  }

  /** Following the link from the old file's directory leads to the new
      file, or with directory URLs to the new file's directory. */
  lemma HtmlLinkResolves(oldPath: string, newPath: string, useDirectoryUrls: bool)
    requires IsNormalPath(oldPath) && IsNormalPath(newPath)
    ensures var segs := Split(newPath, '/');
            var link := Split(HtmlLink(oldPath, newPath, useDirectoryUrls), '/');
            Resolve(DirOf(Split(oldPath, '/')), link) == if useDirectoryUrls then DirOf(segs) else segs
  {
    var rel := LinkRelResolves(oldPath, newPath, useDirectoryUrls);
    if useDirectoryUrls {
      TrailingSlashResolves(DirOf(Split(oldPath, '/')), rel);
    }
  }

  /** The `relpath` part of the link, and where it leads from the old
      file's directory: to the new file, or to its directory. */
  lemma LinkRelResolves(oldPath: string, newPath: string, useDirectoryUrls: bool) returns (rel: string)
    requires IsNormalPath(oldPath) && IsNormalPath(newPath)
    ensures HtmlLink(oldPath, newPath, useDirectoryUrls) == if useDirectoryUrls then rel + "/" else rel
    ensures var segs := Split(newPath, '/');
            Resolve(DirOf(Split(oldPath, '/')), Split(rel, '/')) == if useDirectoryUrls then DirOf(segs) else segs
  {
    LinkArguments(oldPath, newPath, useDirectoryUrls);
    rel := RelPath(LinkTarget(newPath, useDirectoryUrls), Dirname(oldPath));
    DirnameOfNormalPath(oldPath);
    LinkTargetOf(newPath, useDirectoryUrls);
  }

  /** With directory URLs the link gets a slash at the end; it still
      leads to the same directory. */
  lemma TrailingSlashResolves(dir: seq<string>, rel: string)
    ensures Resolve(dir, Split(rel + "/", '/')) == Resolve(dir, Split(rel, '/'))
  {
    SplitTrailingSep(rel, '/');
    ResolveTrailingEmpty(dir, Split(rel, '/'));
  }

  /** Following the link `get_relative_html_path` returns, from the old
      page's HTML directory, leads to the new page's HTML file, or with
      directory URLs to the directory whose `index.html` that file is
      (`HtmlPathNormal`). */
  lemma RelativeHtmlPathResolves(oldPage: string, newPage: string, useDirectoryUrls: bool)
    requires IsNormalPath(oldPage) && IsNormalPath(newPage)
    ensures var oldSegs := Split(GetHtmlPath(oldPage, useDirectoryUrls), '/');
            var newSegs := Split(GetHtmlPath(newPage, useDirectoryUrls), '/');
            var link := Split(GetRelativeHtmlPath(oldPage, newPage, useDirectoryUrls), '/');
            Resolve(DirOf(oldSegs), link) == if useDirectoryUrls then DirOf(newSegs) else newSegs
  {
    RelativeIsHtmlLink(oldPage, newPage, useDirectoryUrls);
    HtmlLinkResolves(GetHtmlPath(oldPage, useDirectoryUrls), GetHtmlPath(newPage, useDirectoryUrls), useDirectoryUrls);
  }

  /** `get_relative_html_path` is the link between the two HTML paths. */
  lemma RelativeIsHtmlLink(oldPage: string, newPage: string, useDirectoryUrls: bool)
    requires IsNormalPath(oldPage) && IsNormalPath(newPage)
    ensures IsNormalPath(GetHtmlPath(oldPage, useDirectoryUrls)) && IsNormalPath(GetHtmlPath(newPage, useDirectoryUrls))
    ensures GetRelativeHtmlPath(oldPage, newPage, useDirectoryUrls)
         == HtmlLink(GetHtmlPath(oldPage, useDirectoryUrls), GetHtmlPath(newPage, useDirectoryUrls), useDirectoryUrls)
  {
    GetHtmlPathSegments(oldPage, useDirectoryUrls);
    GetHtmlPathSegments(newPage, useDirectoryUrls);
  }

  /** The HTML path of a normalised page is normalised, and with
      directory URLs it is an `index.html`. */
  lemma HtmlPathNormal(path: string, useDirectoryUrls: bool)
    requires IsNormalPath(path)
    ensures var h := Split(GetHtmlPath(path, useDirectoryUrls), '/');
            IsNormalPath(GetHtmlPath(path, useDirectoryUrls)) &&
            (useDirectoryUrls ==> h[|h| - 1] == "index.html")
  {
    GetHtmlPathSegments(path, useDirectoryUrls);
    HtmlPathShape(path, useDirectoryUrls);
  }

  /** Two top-level pages `a.md` and `b.md` (plain stems, no dot): the
      link from the first to the second is `b.html`, or `../b/` with
      directory URLs (`old.md` to `new.md` gives `../new/`). */
  lemma TopLevelLink(a: string, b: string, useDirectoryUrls: bool)
    requires IsName(a) && '.' !in a && !IsIndexName(a)
    requires IsName(b) && '.' !in b && !IsIndexName(b)
    requires a != b
    ensures IsNormalPath(a + ".md") && IsNormalPath(b + ".md")
    ensures GetRelativeHtmlPath(a + ".md", b + ".md", useDirectoryUrls)
         == if useDirectoryUrls then "../" + b + "/" else b + ".html"
  {
    PlainPageExample(a, useDirectoryUrls);
    PlainPageExample(b, useDirectoryUrls);
    var oldHtml := GetHtmlPath(a + ".md", useDirectoryUrls);
    var newHtml := GetHtmlPath(b + ".md", useDirectoryUrls);
    GetHtmlPathSegments(a + ".md", useDirectoryUrls);
    GetHtmlPathSegments(b + ".md", useDirectoryUrls);
    assert GetRelativeHtmlPath(a + ".md", b + ".md", useDirectoryUrls)
        == HtmlLink(oldHtml, newHtml, useDirectoryUrls);
    if useDirectoryUrls {
      DirLinkExample(oldHtml, newHtml, a, b);
    } else {
      FlatLinkExample(oldHtml, newHtml, b);
    }
  }

  lemma DirLinkExample(oldHtml: string, newHtml: string, a: string, b: string)
    requires IsName(a) && IsName(b) && a != b
    requires IsNormalPath(oldHtml) && IsNormalPath(newHtml)
    requires Split(oldHtml, '/') == [a, "index.html"] && Split(newHtml, '/') == [b, "index.html"]
    ensures HtmlLink(oldHtml, newHtml, true) == "../" + b + "/"
  {
    LinkSegments(oldHtml, newHtml, true);
    SiblingLink(Split(oldHtml, '/'), Split(newHtml, '/'), a, b);
  }

  /** From `a/index.html` to `b/index.html`: up one, then down into `b`. */
  lemma SiblingLink(oldSegs: seq<string>, newSegs: seq<string>, a: string, b: string)
    requires a != b && oldSegs == [a, "index.html"] && newSegs == [b, "index.html"]
    ensures RelString(RelativeSegments(DirOf(oldSegs), DirOf(newSegs))) + "/" == "../" + b + "/"
  {
    assert DirOf(oldSegs) == [a] && DirOf(newSegs) == [b];
    SiblingSegments(a, b);
    SiblingString(b);
  }

  lemma FlatLinkExample(oldHtml: string, newHtml: string, b: string)
    requires IsNormalPath(oldHtml) && IsNormalPath(newHtml)
    requires |Split(oldHtml, '/')| == 1 && Split(newHtml, '/') == [b + ".html"]
    ensures HtmlLink(oldHtml, newHtml, false) == b + ".html"
  {
    LinkSegments(oldHtml, newHtml, false);
    TopLevelRel(Split(oldHtml, '/'), Split(newHtml, '/'), b + ".html");
  }

  /** Between two top-level files the link is the target's name. */
  lemma TopLevelRel(oldSegs: seq<string>, newSegs: seq<string>, target: string)
    requires |oldSegs| == 1 && newSegs == [target]
    ensures RelString(RelativeSegments(DirOf(oldSegs), newSegs)) == target
  {
    assert DirOf(oldSegs) == [];
    assert RelativeSegments([], [target]) == [target];
  }

  /** The link is `relpath` of the segment lists of its two arguments. */
  lemma LinkSegments(oldPath: string, newPath: string, useDirectoryUrls: bool)
    requires IsNormalPath(oldPath) && IsNormalPath(newPath)
    ensures var newSegs := Split(newPath, '/');
      var rel := RelString(RelativeSegments(DirOf(Split(oldPath, '/')),
                                            if useDirectoryUrls then DirOf(newSegs) else newSegs));
      HtmlLink(oldPath, newPath, useDirectoryUrls) == if useDirectoryUrls then rel + "/" else rel
  {
    DirnameOfNormalPath(oldPath);
    LinkTargetOf(newPath, useDirectoryUrls);
  }

  lemma SiblingSegments(a: string, b: string)
    requires a != b
    ensures RelativeSegments([a], [b]) == ["..", b]
  {
    assert CommonPrefixLength([a], [b]) == 0;
  }

  lemma SiblingString(b: string)
    ensures RelString(["..", b]) + "/" == "../" + b + "/"
  {
    assert Join(["..", b], '/') == ".." + ['/'] + b;
    assert ".." + ['/'] == "../";
  }

  /** A page `stem.md` whose stem has no dot: its HTML path, worked out. */
  lemma PlainPageExample(stem: string, useDirectoryUrls: bool)
    requires IsName(stem) && '.' !in stem && !IsIndexName(stem)
    ensures IsNormalPath(stem + ".md")
    ensures Split(GetHtmlPath(stem + ".md", useDirectoryUrls), '/')
         == if useDirectoryUrls then [stem, "index.html"] else [stem + ".html"]
    ensures GetHtmlPath(stem + ".md", useDirectoryUrls)
         == if useDirectoryUrls then stem + "/index.html" else stem + ".html"
  {
    var file := stem + ".md";
    PlainStem(stem);
    assert stem != "index";
    var expected := if useDirectoryUrls then [stem, "index.html"] else [stem + ".html"];
    TopLevelSegments(file, stem, useDirectoryUrls, expected);
    GetHtmlPathSegments(file, useDirectoryUrls);
    var h := GetHtmlPath(file, useDirectoryUrls);
    JoinSplit(h, '/');
    JoinedExample(stem, useDirectoryUrls, expected);
  }

  lemma TopLevelSegments(file: string, stem: string, useDirectoryUrls: bool, expected: seq<string>)
    requires Split(file, '/') == [file] && PageName(file) == stem && stem != "index"
    requires expected == if useDirectoryUrls then [stem, "index.html"] else [stem + ".html"]
    ensures HtmlSegments(Split(file, '/'), useDirectoryUrls) == expected
  {
    assert [file][..0] == [];
  }

  lemma JoinedExample(stem: string, useDirectoryUrls: bool, expected: seq<string>)
    requires expected == if useDirectoryUrls then [stem, "index.html"] else [stem + ".html"]
    ensures Join(expected, '/') == if useDirectoryUrls then stem + "/index.html" else stem + ".html"
  {
    if useDirectoryUrls {
      assert Join(expected, '/') == stem + ['/'] + Join(["index.html"], '/');
      assert stem + ['/'] + "index.html" == stem + "/index.html";
    }
  }

  /** The file `stem.md` is one segment, and its page name is the stem. */
  lemma PlainStem(stem: string)
    requires IsName(stem) && '.' !in stem && !IsIndexName(stem)
    ensures IsNormalPath(stem + ".md") && Split(stem + ".md", '/') == [stem + ".md"]
    ensures PageName(stem + ".md") == stem
  {
    var file := stem + ".md";
    assert '/' !in file by {
      assert forall i :: 0 <= i < |file| ==> file[i] == if i < |stem| then stem[i] else ".md"[i - |stem|];
    }
    SplitNoSep(file, '/');
    assert file[|stem|] == '.';
    forall j | |stem| < j < |file| ensures file[j] != '.' {
      assert file[j] == ".md"[j - |stem|];
    }
    RFindIs(file, '.', |stem|);
    assert file[0] == stem[0] && stem[0] in stem;
    assert SplitExt(file) == (stem, ".md");
    assert IsName(file);
  }
}
