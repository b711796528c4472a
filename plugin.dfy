/** `RedirectPlugin`, the MkDocs plugin itself. Once the site's files are
    known (`on_files`) it records the redirect table, warns about old pages
    that are not Markdown and indexes the documentation pages; after the
    build (`on_post_build`) it writes one redirect page per entry whose
    target is an external URL or a known page, and warns about the rest. */
module Plugin {
  import opened Text
  import opened PosixPath
  import opened HtmlPaths
  import opened RedirectHtml

  /** One entry of the `redirect_maps` setting: an old page and the page
      or URL it moved to. */
  datatype Redirect = Redirect(oldPage: string, newPage: string)

  /** A documentation page of the site, known by its source path. */
  datatype File = File(srcPath: string)

  /** The warnings the plugin logs. */
  datatype Warning =
    | LegacyRedirectsSetting
    | NotMarkdown(page: string)
    | MissingTarget(target: string)

  /** A target is external when it starts with `http://` or `https://`,
      in any case. */
  function IsExternal(target: string): (b: bool)
    ensures b ==> |target| >= 7 && target[6] == '/'
  {
    StartsWith(Lower(target), "http://") || StartsWith(Lower(target), "https://")
  }

  /** The key a page is indexed under: its source path with every `\`
      turned into `/`. */
  function PageKey(f: File): (key: string)
    ensures '\\' !in key
  {
    ReplaceChar(f.srcPath, '\\', '/')
  }

  /** The `doc_pages` index over the documentation pages; a later page
      replaces an earlier one with the same key. Every key is its page's
      key, so none holds a backslash. */
  function PageIndex(files: seq<File>): (index: map<string, File>)
    ensures forall k :: k in index ==> PageKey(index[k]) == k && '\\' !in k
  {
    if files == [] then map[]
    else
      var last := files[|files| - 1];
      PageIndex(files[..|files| - 1])[PageKey(last) := last]
  }

  /** The keys of the index are exactly the keys of the pages. */
  lemma {:induction false} PageIndexKeys(files: seq<File>, k: string)
    ensures k in PageIndex(files) <==> exists i :: 0 <= i < |files| && PageKey(files[i]) == k
  {
    if files != [] {
      var init := files[..|files| - 1];
      PageIndexKeys(init, k);
      if k in PageIndex(init) {
        var i :| 0 <= i < |init| && PageKey(init[i]) == k;
        assert files[i] == init[i];
      }
      if exists i :: 0 <= i < |files| && PageKey(files[i]) == k {
        var i :| 0 <= i < |files| && PageKey(files[i]) == k;
        if i < |init| {
          assert init[i] == files[i];
        }
      }
    }
  }

  /** The index of the last page with key `k`, or -1 when there is none. */
  function LastPage(files: seq<File>, k: string): (j: int)
    ensures -1 <= j < |files|
    ensures 0 <= j ==> PageKey(files[j]) == k
    ensures forall m :: j < m < |files| ==> PageKey(files[m]) != k
  {
    if files == [] then -1
    else if PageKey(files[|files| - 1]) == k then |files| - 1
    else LastPage(files[..|files| - 1], k)
  }

  /** A key of the index maps to the last page with that key; a key no
      page has is not in the index. */
  lemma {:induction false} PageIndexLast(files: seq<File>, k: string)
    ensures k in PageIndex(files) <==> LastPage(files, k) >= 0
    ensures k in PageIndex(files) ==> PageIndex(files)[k] == files[LastPage(files, k)]
  {
    if files != [] {
      PageIndexLast(files[..|files| - 1], k);
    }
  }

  /** The warnings for the old pages the Markdown test rejects, in table
      order. */
  function MarkdownWarnings(entries: seq<Redirect>, isMarkdown: string -> bool): (ws: seq<Warning>)
    ensures |ws| <= |entries|
    ensures forall w :: w in ws ==> w.NotMarkdown? && !isMarkdown(w.page)
  {
    if entries == [] then []
    else
      var last := entries[|entries| - 1];
      MarkdownWarnings(entries[..|entries| - 1], isMarkdown)
        + (if isMarkdown(last.oldPage) then [] else [NotMarkdown(last.oldPage)])
  }

  /** One more entry adds its warning, if any, at the end. */
  lemma MarkdownStep(entries: seq<Redirect>, i: nat, isMarkdown: string -> bool)
    requires i < |entries|
    ensures MarkdownWarnings(entries[..i + 1], isMarkdown)
         == MarkdownWarnings(entries[..i], isMarkdown)
            + (if isMarkdown(entries[i].oldPage) then [] else [NotMarkdown(entries[i].oldPage)])
  {
    assert entries[..i + 1][..i] == entries[..i];
  }

  /** A page is warned about exactly when it is an old page of the table
      that the Markdown test rejects. */
  lemma {:induction false} MarkdownWarningsIff(entries: seq<Redirect>, isMarkdown: string -> bool, page: string)
    ensures NotMarkdown(page) in MarkdownWarnings(entries, isMarkdown)
        <==> exists i :: 0 <= i < |entries| && entries[i].oldPage == page && !isMarkdown(page)
  {
    if entries != [] {
      var init, last := entries[..|entries| - 1], entries[|entries| - 1];
      MarkdownWarningsIff(init, isMarkdown, page);
      var added := if isMarkdown(last.oldPage) then [] else [NotMarkdown(last.oldPage)];
      assert MarkdownWarnings(entries, isMarkdown) == MarkdownWarnings(init, isMarkdown) + added;
      assert NotMarkdown(page) in added <==> last.oldPage == page && !isMarkdown(page);
      if exists i :: 0 <= i < |entries| && entries[i].oldPage == page && !isMarkdown(page) {
        var i :| 0 <= i < |entries| && entries[i].oldPage == page && !isMarkdown(page);
        if i < |init| {
          assert init[i] == entries[i];
        }
      }
      if exists i :: 0 <= i < |init| && init[i].oldPage == page && !isMarkdown(page) {
        var i :| 0 <= i < |init| && init[i].oldPage == page && !isMarkdown(page);
        assert entries[i] == init[i];
      }
    }
  }

  /** What `on_post_build` does with one entry: write a redirect page at
      the old page's HTML path pointing to `url`, or skip it with a
      warning. */
  datatype Outcome = Write(htmlPath: string, url: string) | Skip(warning: Warning)

  /** The relative link to an internal target can be formed: both pages
      are normalised relative paths. */
  predicate LinkComputable(r: Redirect, pages: set<string>)
  {
    !IsExternal(r.newPage) && r.newPage in pages ==> IsNormalPath(r.oldPage) && IsNormalPath(r.newPage)
  }

  predicate AllLinksComputable(entries: seq<Redirect>, pages: set<string>)
  {
    forall i :: 0 <= i < |entries| ==> LinkComputable(entries[i], pages)
  }

  /** An external target is used as it is, whether or not it is also a
      known page; a known page is linked relatively; anything else is a
      missing target. Only a missing target is skipped. */
  function OutcomeOf(r: Redirect, pages: set<string>, useDirectoryUrls: bool): (o: Outcome)
    requires LinkComputable(r, pages)
    ensures o.Write? ==> o.htmlPath == GetHtmlPath(r.oldPage, useDirectoryUrls)
    ensures IsExternal(r.newPage) ==> o.Write? && o.url == r.newPage
    ensures o.Skip? <==> !IsExternal(r.newPage) && r.newPage !in pages
    ensures o.Skip? ==> o.warning == MissingTarget(r.newPage)
  {
    if IsExternal(r.newPage) then Write(GetHtmlPath(r.oldPage, useDirectoryUrls), r.newPage)
    else if r.newPage in pages then
      Write(GetHtmlPath(r.oldPage, useDirectoryUrls), GetRelativeHtmlPath(r.oldPage, r.newPage, useDirectoryUrls))
    else Skip(MissingTarget(r.newPage))
  }

  /** For an internal target, following the written link from the old
      page's directory reaches the new page's HTML file (its directory,
      with directory URLs). */
  lemma InternalTargetResolves(r: Redirect, pages: set<string>, useDirectoryUrls: bool)
    requires LinkComputable(r, pages)
    requires !IsExternal(r.newPage) && r.newPage in pages
    ensures var o := OutcomeOf(r, pages, useDirectoryUrls);
            var from := Split(o.htmlPath, '/');
            o.Write? &&
            Resolve(DirOf(from), Split(o.url, '/')) + (if useDirectoryUrls then ["index.html"] else [])
              == Split(GetHtmlPath(r.newPage, useDirectoryUrls), '/')
  {
    var newSegs := Split(GetHtmlPath(r.newPage, useDirectoryUrls), '/');
    RelativeHtmlPathResolves(r.oldPage, r.newPage, useDirectoryUrls);
    if useDirectoryUrls {
      HtmlPathNormal(r.newPage, useDirectoryUrls);
      DirOfThenLast(newSegs);
    }
  }

  /** The outcome of each entry of the table, in order. */
  function Outcomes(entries: seq<Redirect>, pages: set<string>, useDirectoryUrls: bool): (os: seq<Outcome>)
    requires AllLinksComputable(entries, pages)
    ensures |os| == |entries|
    ensures forall i :: 0 <= i < |entries| ==> os[i] == OutcomeOf(entries[i], pages, useDirectoryUrls)
  {
    seq(|entries|, i requires 0 <= i < |entries| && LinkComputable(entries[i], pages) =>
      OutcomeOf(entries[i], pages, useDirectoryUrls))
  }

  /** The writes among the outcomes, in order, as (HTML path,
      destination). */
  function Writes(os: seq<Outcome>): seq<(string, string)>
  {
    if os == [] then []
    else
      var o := os[|os| - 1];
      Writes(os[..|os| - 1]) + (if o.Write? then [(o.htmlPath, o.url)] else [])
  }

  /** The warnings of the skipped outcomes, in order. */
  function SkipWarnings(os: seq<Outcome>): seq<Warning>
  {
    if os == [] then []
    else
      var o := os[|os| - 1];
      SkipWarnings(os[..|os| - 1]) + (if o.Skip? then [o.warning] else [])
  }

  /** Every outcome is exactly one write or one warning. */
  lemma {:induction false} WritesAndWarningsCount(os: seq<Outcome>)
    ensures |Writes(os)| + |SkipWarnings(os)| == |os|
  {
    if os != [] {
      WritesAndWarningsCount(os[..|os| - 1]);
    }
  }

  /** A write is listed exactly when some outcome is that write. */
  lemma {:induction false} WritesIff(os: seq<Outcome>, htmlPath: string, url: string)
    ensures (htmlPath, url) in Writes(os) <==> Write(htmlPath, url) in os
  {
    if os != [] {
      var init := os[..|os| - 1];
      WritesIff(init, htmlPath, url);
      assert os == init + [os[|os| - 1]];
    }
  }

  /** A warning is listed exactly when some outcome skips with it. */
  lemma {:induction false} SkipWarningsIff(os: seq<Outcome>, w: Warning)
    ensures w in SkipWarnings(os) <==> Skip(w) in os
  {
    if os != [] {
      var init := os[..|os| - 1];
      SkipWarningsIff(init, w);
      assert os == init + [os[|os| - 1]];
    }
  }

  /** Each entry that is not skipped gives exactly the write of its redirect
      page at its old page's HTML path, and nothing else is written. */
  lemma WritesFromEntries(entries: seq<Redirect>, pages: set<string>, useDirectoryUrls: bool,
                          htmlPath: string, url: string)
    requires AllLinksComputable(entries, pages)
    ensures (htmlPath, url) in Writes(Outcomes(entries, pages, useDirectoryUrls))
        <==> exists i :: 0 <= i < |entries| && OutcomeOf(entries[i], pages, useDirectoryUrls) == Write(htmlPath, url)
  {
    var os := Outcomes(entries, pages, useDirectoryUrls);
    WritesIff(os, htmlPath, url);
    if Write(htmlPath, url) in os {
      var i :| 0 <= i < |os| && os[i] == Write(htmlPath, url);
    }
  }

  /** A target is reported missing exactly when some entry names it, it is
      not external, and it is not a known page. */
  lemma MissingTargetWarned(entries: seq<Redirect>, pages: set<string>, useDirectoryUrls: bool, target: string)
    requires AllLinksComputable(entries, pages)
    ensures MissingTarget(target) in SkipWarnings(Outcomes(entries, pages, useDirectoryUrls))
        <==> exists i :: 0 <= i < |entries| && entries[i].newPage == target && !IsExternal(target) && target !in pages
  {
    var os := Outcomes(entries, pages, useDirectoryUrls);
    SkipWarningsIff(os, MissingTarget(target));
    if Skip(MissingTarget(target)) in os {
      var i :| 0 <= i < |os| && os[i] == Skip(MissingTarget(target));
      assert entries[i].newPage == target;
    }
    if exists i :: 0 <= i < |entries| && entries[i].newPage == target && !IsExternal(target) && target !in pages {
      var i :| 0 <= i < |entries| && entries[i].newPage == target && !IsExternal(target) && target !in pages;
      assert os[i] == Skip(MissingTarget(target));
    }
  }

  /** The site after a sequence of writes, each replacing the file at its
      path with the redirect page to its destination. */
  function ApplyWrites(files: map<string, string>, writes: seq<(string, string)>): map<string, string>
  {
    if writes == [] then files
    else
      var w := writes[|writes| - 1];
      ApplyWrites(files, writes[..|writes| - 1])[w.0 := RedirectPage(w.1)]
  }

  lemma ApplyWritesSnoc(files: map<string, string>, writes: seq<(string, string)>, w: (string, string))
    ensures ApplyWrites(files, writes + [w]) == ApplyWrites(files, writes)[w.0 := RedirectPage(w.1)]
  {
    assert (writes + [w])[..|writes|] == writes;
  }

  /** The index of the last write to `path`, or -1 when there is none. */
  function LastWrite(writes: seq<(string, string)>, path: string): (j: int)
    ensures -1 <= j < |writes|
    ensures 0 <= j ==> writes[j].0 == path
    ensures forall m :: j < m < |writes| ==> writes[m].0 != path
  {
    if writes == [] then -1
    else if writes[|writes| - 1].0 == path then |writes| - 1
    else LastWrite(writes[..|writes| - 1], path)
  }

  /** After the writes, a path written to holds the redirect page of its
      last write. */
  lemma {:induction false} ApplyWritesLast(files: map<string, string>, writes: seq<(string, string)>, path: string)
    requires LastWrite(writes, path) >= 0
    ensures path in ApplyWrites(files, writes)
    ensures ApplyWrites(files, writes)[path] == RedirectPage(writes[LastWrite(writes, path)].1)
  {
    if writes[|writes| - 1].0 != path {
      var before := writes[..|writes| - 1];
      ApplyWritesLast(files, before, path);
      assert before[LastWrite(before, path)] == writes[LastWrite(writes, path)];
    }
  }

  /** A path no write touches is as it was. */
  lemma {:induction false} ApplyWritesElsewhere(files: map<string, string>, writes: seq<(string, string)>, path: string)
    requires LastWrite(writes, path) < 0
    ensures path in ApplyWrites(files, writes) <==> path in files
    ensures path in files ==> ApplyWrites(files, writes)[path] == files[path]
  {
    if writes != [] {
      ApplyWritesElsewhere(files, writes[..|writes| - 1], path);
    }
  }

  /** One more outcome adds its write, or its warning, at the end. */
  lemma OutcomeStep(os: seq<Outcome>, i: nat)
    requires i < |os|
    ensures Writes(os[..i + 1]) == Writes(os[..i]) + (if os[i].Write? then [(os[i].htmlPath, os[i].url)] else [])
    ensures SkipWarnings(os[..i + 1]) == SkipWarnings(os[..i]) + (if os[i].Skip? then [os[i].warning] else [])
  {
    assert os[..i + 1][..i] == os[..i];
  }

  /** The site after one more outcome: a write replaces one file. */
  lemma ApplyStep(files: map<string, string>, os: seq<Outcome>, i: nat)
    requires i < |os|
    ensures os[i].Write? ==> ApplyWrites(files, Writes(os[..i + 1])) == ApplyWrites(files, Writes(os[..i]))[os[i].htmlPath := RedirectPage(os[i].url)]
    ensures os[i].Skip? ==> ApplyWrites(files, Writes(os[..i + 1])) == ApplyWrites(files, Writes(os[..i]))
  {
    OutcomeStep(os, i);
    if os[i].Write? {
      ApplyWritesSnoc(files, Writes(os[..i]), (os[i].htmlPath, os[i].url));
    } else {
      assert Writes(os[..i]) + [] == Writes(os[..i]);
    }
  }

  /** The body of `on_post_build`'s loop for one entry. */
  method HandleEntry(r: Redirect, pages: set<string>, useDirectoryUrls: bool, site: SiteDir) returns (logged: seq<Warning>)
    requires LinkComputable(r, pages)
    modifies site
    ensures var o := OutcomeOf(r, pages, useDirectoryUrls);
            (o.Write? ==> site.files == old(site.files)[o.htmlPath := RedirectPage(o.url)] && logged == []) &&
            (o.Skip? ==> site.files == old(site.files) && logged == [o.warning])
  {
    var dest;
    if IsExternal(r.newPage) {
      dest := r.newPage;
    } else if r.newPage in pages {
      dest := GetRelativeHtmlPath(r.oldPage, r.newPage, useDirectoryUrls);
    } else {
      return [MissingTarget(r.newPage)];
    }
    site.WriteHtml(GetHtmlPath(r.oldPage, useDirectoryUrls), dest);
    return [];
  }

  /** A target with no slash is not an external URL. */
  lemma NoSlashNotExternal(target: string)
    requires '/' !in target
    ensures !IsExternal(target)
  {
    if |target| >= 7 {
      var lower := Lower(target);
      assert target[6] in target;
      assert lower[6] == LowerChar(target[6]) != '/';
      assert !StartsWith(lower, "http://") by {
        assert lower[..7][6] == lower[6] && "http://"[6] == '/';
      }
      assert !StartsWith(lower, "https://") by {
        if |lower| >= 8 {
          assert lower[..8][6] == lower[6] && "https://"[6] == '/';
        }
      }
    }
  }

  /** The Markdown file of a name is not an external URL. */
  lemma MarkdownFileNotExternal(name: string)
    requires IsName(name)
    ensures !IsExternal(name + ".md")
  {
    var file := name + ".md";
    forall k | 0 <= k < |file|
      ensures file[k] != '/'
    {
      if k < |name| {
        assert file[k] == name[k];
      }
    }
    NoSlashNotExternal(file);
  }

  /** The table `{a.md: b.md}` for two top-level pages, `b.md` known:
      one write, at `a.html` with the link `b.html`, or with directory
      URLs at `a/index.html` with the link `../b/`. */
  lemma InternalScenario(a: string, b: string, useDirectoryUrls: bool)
    requires IsName(a) && '.' !in a && !IsIndexName(a)
    requires IsName(b) && '.' !in b && !IsIndexName(b)
    requires a != b
    ensures AllLinksComputable([Redirect(a + ".md", b + ".md")], {b + ".md"})
    ensures Outcomes([Redirect(a + ".md", b + ".md")], {b + ".md"}, useDirectoryUrls)
         == [if useDirectoryUrls then Write(a + "/index.html", "../" + b + "/")
             else Write(a + ".html", b + ".html")]
  {
    var r := Redirect(a + ".md", b + ".md");
    TopLevelLink(a, b, useDirectoryUrls);
    PlainPageExample(a, useDirectoryUrls);
    MarkdownFileNotExternal(b);
    InternalOutcome(r, {b + ".md"}, useDirectoryUrls);
  }

  /** `{old.md: new.md}` with `new.md` known writes `old.html` linking to
      `new.html`, or with directory URLs `old/index.html` linking to
      `../new/`. */
  lemma OldToNewScenario(useDirectoryUrls: bool)
    ensures AllLinksComputable([Redirect("old.md", "new.md")], {"new.md"})
    ensures Outcomes([Redirect("old.md", "new.md")], {"new.md"}, useDirectoryUrls)
         == [if useDirectoryUrls then Write("old/index.html", "../new/")
             else Write("old.html", "new.html")]
  {
    assert Lower("old") == "old" && Lower("new") == "new";
    InternalScenario("old", "new", useDirectoryUrls);
    assert "old" + ".md" == "old.md" && "new" + ".md" == "new.md";
    assert "old" + "/index.html" == "old/index.html" && "../" + "new" + "/" == "../new/";
    assert "old" + ".html" == "old.html" && "new" + ".html" == "new.html";
  }

  /** The table of one entry has that entry's outcome. */
  lemma SingleOutcome(r: Redirect, pages: set<string>, useDirectoryUrls: bool)
    requires LinkComputable(r, pages)
    ensures AllLinksComputable([r], pages)
    ensures Outcomes([r], pages, useDirectoryUrls) == [OutcomeOf(r, pages, useDirectoryUrls)]
  {
  }

  lemma InternalOutcome(r: Redirect, pages: set<string>, useDirectoryUrls: bool)
    requires IsNormalPath(r.oldPage) && IsNormalPath(r.newPage)
    requires !IsExternal(r.newPage) && r.newPage in pages
    ensures AllLinksComputable([r], pages)
    ensures Outcomes([r], pages, useDirectoryUrls)
         == [Write(GetHtmlPath(r.oldPage, useDirectoryUrls), GetRelativeHtmlPath(r.oldPage, r.newPage, useDirectoryUrls))]
  {
    SingleOutcome(r, pages, useDirectoryUrls);
  }

  /** The table `{old: url}` with an external `url`: one write of `url`
      at the old page's HTML path, whatever the known pages are. */
  lemma ExternalScenario(oldPage: string, url: string, pages: set<string>, useDirectoryUrls: bool)
    requires IsExternal(url)
    ensures AllLinksComputable([Redirect(oldPage, url)], pages)
    ensures Outcomes([Redirect(oldPage, url)], pages, useDirectoryUrls)
         == [Write(GetHtmlPath(oldPage, useDirectoryUrls), url)]
  {
  }

  /** The table `{old: target}` with a target that is neither a URL nor a
      known page: no write and one warning. */
  lemma MissingScenario(oldPage: string, target: string, pages: set<string>, useDirectoryUrls: bool)
    requires !IsExternal(target) && target !in pages
    ensures AllLinksComputable([Redirect(oldPage, target)], pages)
    ensures var os := Outcomes([Redirect(oldPage, target)], pages, useDirectoryUrls);
            Writes(os) == [] && SkipWarnings(os) == [MissingTarget(target)]
  {
    var os := Outcomes([Redirect(oldPage, target)], pages, useDirectoryUrls);
    assert os[..0] == [];
  }

  /** The plugin object: its `redirect_maps` setting, and the state the
      first phase hands to the second. */
  class RedirectPlugin {
    /** The plugin's `redirect_maps` setting, in table order. */
    const redirectMaps: seq<Redirect>
    /** The redirect table in use (`self.redirects`). */
    var redirects: seq<Redirect>
    /** The known documentation pages by key (`self.doc_pages`). */
    var docPages: map<string, File>
    /** The warnings logged so far. */
    var warnings: seq<Warning>
    /** Whether `on_files` has run, so that `redirects` and `doc_pages`
        exist. */
    var collected: bool

    constructor(redirectMaps: seq<Redirect>)
      ensures this.redirectMaps == redirectMaps
      ensures redirects == [] && docPages == map[] && warnings == []
      ensures !collected
    {
      this.redirectMaps := redirectMaps;
      collected := false;
      redirects := [];
      docPages := map[];
      warnings := [];
    }

    /** `on_files`: takes the redirect table from the setting unchanged,
        warns once if the legacy root-level `redirects` setting is set to a
        truthy (non-empty) value, warns about each old page that is not
        Markdown without dropping it, and indexes the documentation pages
        by their keys. */
    method OnFiles(documentationPages: seq<File>, legacyRedirects: bool, isMarkdown: string -> bool)
      modifies this
      ensures collected
      ensures redirects == redirectMaps
      ensures docPages == PageIndex(documentationPages)
      ensures warnings == old(warnings) + (if legacyRedirects then [LegacyRedirectsSetting] else [])
                          + MarkdownWarnings(redirectMaps, isMarkdown)
    {
      var legacy := if legacyRedirects then [LegacyRedirectsSetting] else [];
      var entries := redirectMaps;
      var before, logged := warnings, [];
      var i := 0;
      while i < |entries|
        invariant 0 <= i <= |entries|
        invariant logged == MarkdownWarnings(entries[..i], isMarkdown)
      {
        MarkdownStep(entries, i, isMarkdown);
        if !isMarkdown(entries[i].oldPage) {
          logged := logged + [NotMarkdown(entries[i].oldPage)];
        }
        i := i + 1;
      }
      assert entries[..i] == entries;
      redirects := redirectMaps;
      warnings := before + legacy + logged;
      docPages := PageIndex(documentationPages);
      collected := true;
    }

    /** `on_post_build`: goes through the table in order, writing the
        redirect page of every entry that is not skipped into the site and
        warning about every skipped one. */
    method OnPostBuild(useDirectoryUrls: bool, site: SiteDir)
      requires collected
      requires AllLinksComputable(redirects, docPages.Keys)
      modifies this`warnings, site
      ensures site.files == ApplyWrites(old(site.files), Writes(Outcomes(redirects, docPages.Keys, useDirectoryUrls)))
      ensures warnings == old(warnings) + SkipWarnings(Outcomes(redirects, docPages.Keys, useDirectoryUrls))
    {
      var entries, pages := redirects, docPages.Keys;
      ghost var os := Outcomes(entries, pages, useDirectoryUrls);
      var before, logged := warnings, [];
      var i := 0;
      while i < |entries|
        invariant 0 <= i <= |entries|
        invariant site.files == ApplyWrites(old(site.files), Writes(os[..i]))
        invariant logged == SkipWarnings(os[..i])
      {
        OutcomeStep(os, i);
        ApplyStep(old(site.files), os, i);
        var w := HandleEntry(entries[i], pages, useDirectoryUrls, site);
        logged := logged + w;
        i := i + 1;
      }
      assert os[..i] == os;
      warnings := before + logged;
    }
  }
}
