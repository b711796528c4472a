/** The redirect page `write_html` puts in place of a moved page: a fixed
    HTML template whose three `{url}` holes (the canonical link, the
    script that keeps the `#anchor`, and the meta refresh) are filled with
    the destination, and the site directory it is written into. */
module RedirectHtml {
  import opened Text

  datatype Option<T> = None | Some(value: T)

  /** A page template with three `{url}` holes, each between an opening
      and a closing piece: the canonical link, the script that sends the
      browser on (keeping the `#anchor`), and the meta refresh. */
  datatype Template = Template(
    head: string,
    linkOpen: string, linkClose: string,
    robots: string,
    scriptOpen: string, scriptClose: string,
    refreshOpen: string, refreshClose: string,
    tail: string)

  /** The template `write_html` fills in, after dedenting. */
  const RedirectTemplate := Template(
    "\n<!doctype html>\n<html lang=\"en\">\n<head>\n    <meta charset=\"utf-8\">\n    <title>Redirecting...</title>\n",
    "    <link rel=\"canonical\" href=\"", "\">\n",
    "    <meta name=\"robots\" content=\"noindex\">\n",
    "    <script>var anchor=window.location.hash.substr(1);location.href=\"", "\"+(anchor?\"#\"+anchor:\"\")</script>\n",
    "    <meta http-equiv=\"refresh\" content=\"0; url=", "\">\n",
    "</head>\n<body>\nRedirecting...\n</body>\n</html>\n")

  /** Length of a template without its holes. */
  function FixedLength(t: Template): nat
  {
    |t.head| + |t.linkOpen| + |t.linkClose| + |t.robots| + |t.scriptOpen|
    + |t.scriptClose| + |t.refreshOpen| + |t.refreshClose| + |t.tail|
  }

  /** `<link rel="canonical" href="{url}">` */
  function CanonicalLink(t: Template, url: string): string
  {
    t.linkOpen + url + t.linkClose
  }

  /** The script that sends the browser to `{url}`, keeping the anchor. */
  function ScriptRedirect(t: Template, url: string): string
  {
    t.scriptOpen + url + t.scriptClose
  }

  /** `<meta http-equiv="refresh" content="0; url={url}">` */
  function RefreshMeta(t: Template, url: string): string
  {
    t.refreshOpen + url + t.refreshClose
  }

  /** `template.format(url=url)`: every hole filled with `url`, so the
      page grows by three copies of it. */
  function Format(t: Template, url: string): (page: string)
    ensures |page| == FixedLength(t) + 3 * |url|
  {
    t.head + (CanonicalLink(t, url) + (t.robots + ScriptRedirect(t, url) + RefreshMeta(t, url) + t.tail))
  }

  /** The page `write_html` writes for the destination `url`. */
  function RedirectPage(url: string): string
  {
    Format(RedirectTemplate, url)
  }

  /** A filled template keeps its head and tail and holds the canonical
      link, the script and the meta refresh, each naming `url`; it is the
      template grown by three copies of `url`. */
  lemma FormatContents(t: Template, url: string)
    ensures var page := Format(t, url);
      StartsWith(page, t.head) && EndsWith(page, t.tail) &&
      Contains(page, CanonicalLink(t, url)) &&
      Contains(page, ScriptRedirect(t, url)) &&
      Contains(page, RefreshMeta(t, url)) &&
      |page| == FixedLength(t) + 3 * |url|
  {
    PageParts(Format(t, url), t.head, CanonicalLink(t, url), t.robots, ScriptRedirect(t, url), RefreshMeta(t, url), t.tail);
  }

  /** Where each part of a six-part concatenation sits. */
  lemma PageParts(page: string, a: string, b: string, c: string, d: string, e: string, f: string)
    requires page == a + (b + (c + d + e + f))
    ensures StartsWith(page, a) && EndsWith(page, f)
    ensures Contains(page, b) && Contains(page, d) && Contains(page, e)
  {
    assert page == a + b + c + d + e + f;
    assert page[..|a|] == a;
    assert page[|page| - |f|..] == f;
    ContainsAt(page, |a|, b);
    ContainsAt(page, |a| + |b| + |c|, d);
    ContainsAt(page, |a| + |b| + |c| + |d|, e);
  }

  lemma ContainsAt(s: string, i: nat, p: string)
    requires i + |p| <= |s| && s[i..i + |p|] == p
    ensures Contains(s, p)
  {
    assert StartsWith(s[i..], p);
  }

  /** Reads the destination back out of a page: the text in the first
      hole, provided filling the template with it gives the page. */
  function Parse(t: Template, page: string): (r: Option<string>)
    ensures r.Some? ==> Format(t, r.value) == page
  {
    if |page| < FixedLength(t) then None
    else
      var n := (|page| - FixedLength(t)) / 3;
      var url := page[|t.head| + |t.linkOpen|..|t.head| + |t.linkOpen| + n];
      if Format(t, url) == page then Some(url) else None
  }

  /** Parsing a filled template gives back what filled it. */
  lemma ParseFormat(t: Template, url: string)
    ensures Parse(t, Format(t, url)) == Some(url)
  {
    var page := Format(t, url);
    FormatContents(t, url);
    FirstHole(page, t.head, t.linkOpen, url, t.linkClose, t.robots + ScriptRedirect(t, url) + RefreshMeta(t, url) + t.tail);
    ThirdOf(|page|, FixedLength(t), |url|);
    ParseIs(t, page, url);
  }

  lemma ThirdOf(total: int, fixed: int, n: nat)
    requires total == fixed + 3 * n
    ensures (total - fixed) / 3 == n
  {
  }

  lemma ParseIs(t: Template, page: string, url: string)
    requires |page| >= FixedLength(t) && (|page| - FixedLength(t)) / 3 == |url|
    requires page[|t.head| + |t.linkOpen|..|t.head| + |t.linkOpen| + |url|] == url
    requires Format(t, url) == page
    ensures Parse(t, page) == Some(url)
  {
  }

  lemma FirstHole(page: string, a: string, b: string, url: string, c: string, rest: string)
    requires page == a + (b + url + c + rest)
    ensures page[|a| + |b|..|a| + |b| + |url|] == url
  {
    assert page == (a + b) + url + (c + rest);
  }

  /** Different destinations give different pages. */
  lemma FormatInjective(t: Template, u: string, v: string)
    requires Format(t, u) == Format(t, v)
    ensures u == v
  {
    ParseFormat(t, u);
    ParseFormat(t, v);
  }

  /** The destination a page redirects to, if it is a redirect page. */
  function TargetOf(page: string): (r: Option<string>)
    ensures r.Some? ==> RedirectPage(r.value) == page
  {
    Parse(RedirectTemplate, page)
  }

  /** Every redirect page names its destination. */
  lemma TargetOfRedirectPage(url: string)
    ensures TargetOf(RedirectPage(url)) == Some(url)
  {
    ParseFormat(RedirectTemplate, url);
  }

  /** The built site: each file's path, relative to the site directory,
      mapped to its contents. */
  class SiteDir {
    var files: map<string, string>

    constructor(files: map<string, string>)
      ensures this.files == files
    {
      this.files := files;
    }

    /** `write_html(site_dir, old_path, new_path)`: the file at `oldPath`
        becomes the redirect page to `newPath`, replacing what was there;
        no other file changes. */
    method WriteHtml(oldPath: string, newPath: string)
      modifies this
      ensures files == old(files)[oldPath := RedirectPage(newPath)]
    {
      files := files[oldPath := RedirectPage(newPath)];
    }
  }
}
