# mkdocs-redirects in Dafny

A model of the MkDocs plugin `mkdocs-redirects`, with proofs about it. The
plugin writes one small HTML page for each entry of its `redirect_maps`
setting. Each page sits where an old page used to be built and sends the
browser on to the new page or to an external URL.

The model has five modules:

- `Text`: the string operations the plugin uses. These are `lower`
  (ASCII), `startswith`, a one-character `replace`, and `split`/`join`
  on a separator.
- `PosixPath`: the `posixpath` functions the plugin calls, on
  `/`-separated strings. `split`, `dirname`, `join` and `splitext` are
  total, as in Python. `relpath` is modelled for relative paths without
  `..`. Each path also has a segment-level view, as a list of names, and
  `Resolve` says how a relative link is followed from a directory.
- `HtmlPaths`: `get_html_path` and `get_relative_html_path`. Both are
  functions on strings, linked by lemmas to reference definitions on
  segments.
- `RedirectHtml`: the page `write_html` writes. It is a template with
  three `{url}` holes, filled by `Format` and read back by `Parse`. It
  also holds `SiteDir`, the built site as a map from path to contents,
  whose `WriteHtml` replaces one file.
- `Plugin`: the `RedirectPlugin` class with its two hooks.
  - `OnFiles` records the redirect table, collects the warnings and
    indexes the documentation pages.
  - `OnPostBuild` loops over the table, writing redirect pages into a
    `SiteDir` and collecting the warnings for missing targets.
  - Each hook's postcondition states its whole new state, in terms of
    specification functions. Lemmas then say what those functions mean.
  - The flag `collected` records that `OnFiles` has run. `OnPostBuild`
    requires it, because in the source the attributes `redirects` and
    `doc_pages` exist only after `on_files`.

The redirect page is the dedented text of the template in `write_html`:
it keeps its line breaks and the four-space indentation of the `<head>`
lines.

Main results:

- **HTML paths.** `get_html_path` keeps the parent directory and turns
  the page into `name.html` or into `name/index.html`. With directory
  URLs, `index` and `README` pages stay in their directory as
  `index.html` (`HtmlPathShape`).
- **Links.** Following the link `get_relative_html_path` returns, from
  the old page's directory, reaches the new page's HTML file. With
  directory URLs it reaches the directory that holds that file
  (`RelativeHtmlPathResolves`).
- **The redirect page.** It is injective in its destination, and the
  destination can be read back out of it (`ParseFormat`).
- **Writes.** After `on_post_build`, each entry that is not skipped has
  written its redirect page at its old page's HTML path. If several
  entries share a path, the last write wins (`ApplyWritesLast`). Every
  other file is unchanged (`ApplyWritesElsewhere`).
- **Warnings.** `on_post_build` warns exactly for targets that are
  neither external nor known pages (`MissingTargetWarned`). `on_files`
  warns exactly for old pages that fail the Markdown test
  (`MarkdownWarningsIff`).

## Model

| member | source | states |
|---|---|---|
| `Text.ReplaceChar` | mkdocs_redirects/plugin.py:112 | every occurrence of the character is replaced and nothing else changes, so a replaced `\` no longer occurs |
| `Text.Lower` | mkdocs_redirects/plugin.py:77 | `str.lower` on ASCII: same length, each character kept or an upper-case letter moved down by 32, and no upper-case letter left |
| `PosixPath.SplitHeadTail` | mkdocs_redirects/plugin.py:73 | `posixpath.split`: the tail holds no `/` and the path ends with it |
| `PosixPath.SplitNormalPath` | mkdocs_redirects/plugin.py:73 | on a normalised path, `split` gives the parent's names joined by `/` and the last name |
| `PosixPath.Dirname` | mkdocs_redirects/plugin.py:61-63 | `posixpath.dirname` is a prefix of the path, and empty exactly when the path has no `/` |
| `PosixPath.SplitExt` | mkdocs_redirects/plugin.py:74 | `posixpath.splitext`: stem plus extension is the input, and the extension is empty or one dot followed by no dot or slash |
| `PosixPath.SplitExtWhen` | mkdocs_redirects/plugin.py:74 | the extension is non-empty exactly when the last component has a dot after some character that is not a dot |
| `PosixPath.SplitExtOfStem` | mkdocs_redirects/plugin.py:74 | `stem.ext` splits into `stem` and `.ext` when the stem's last component is not all dots and the extension has no dot or slash |
| `PosixPath.StemIsName` | mkdocs_redirects/plugin.py:74 | the stem of a file name is again a file name, never empty, `.` or `..` |
| `PosixPath.PathJoin` | mkdocs_redirects/plugin.py:80-87 | `posixpath.join(a, b)` ends with `b` |
| `PosixPath.JoinOntoNames` | mkdocs_redirects/plugin.py:80-87 | joining a name onto a normalised directory adds exactly one segment |
| `PosixPath.KeptNames` | mkdocs_redirects/plugin.py:63 | the parts `normpath` keeps are parts of the input other than empty and `.` ones, and a list of names is kept whole |
| `PosixPath.CommonPrefixLength` | mkdocs_redirects/plugin.py:63 | the length of the longest common prefix of the two segment lists |
| `PosixPath.RelativeSegmentsResolve` | mkdocs_redirects/plugin.py:63 | going up with one `..` per start segment past the common prefix, then down the rest of the target, reaches the target |
| `PosixPath.RelativeSegmentsIgnoreWorkingDirectory` | mkdocs_redirects/plugin.py:63 | putting the same working directory in front of both paths, as `abspath` does, leaves the relative segments unchanged |
| `PosixPath.RelStringResolves` | mkdocs_redirects/plugin.py:63 | the string `relpath` builds from the segments (`.` for none) is non-empty, has no trailing `/`, and resolves to the target |
| `PosixPath.RelPath` | mkdocs_redirects/plugin.py:63 | `posixpath.relpath(path, start)`: a non-empty link with no trailing slash that, followed from `start`, reaches `path` |
| `HtmlPaths.GetHtmlPath` | mkdocs_redirects/plugin.py:71-87 | every result is an `.html` file, and with directory URLs an `index.html` |
| `HtmlPaths.IsIndexName` | mkdocs_redirects/plugin.py:77 | a stem that counts as the index page has the length of `index` or `readme` |
| `HtmlPaths.PageName` | mkdocs_redirects/plugin.py:73-77 | the page name is `index` or the stem of the file name |
| `HtmlPaths.HtmlFile` | mkdocs_redirects/plugin.py:79-87 | each of the three returns is an `.html` file, and with directory URLs an `index.html` |
| `HtmlPaths.PageNameIsIndex` | mkdocs_redirects/plugin.py:77 | the page name is `index` exactly when the stem is `index` or `readme` in any case |
| `HtmlPaths.GetHtmlPathSegments` | mkdocs_redirects/plugin.py:71-87 | on a normalised path, the HTML path is normalised and its segments are those of the segment-level reference `HtmlSegments` |
| `HtmlPaths.HtmlJoinSegments` | mkdocs_redirects/plugin.py:79-87 | the three `join` cases of `get_html_path` equal joining the reference segment list |
| `HtmlPaths.HtmlPathShape` | mkdocs_redirects/plugin.py:71-87 | same parent. Flat mode: `name.html` in place of the file. Directory URLs: `index.html` in the parent for `index`/`README` (just `index.html` at the top), otherwise `name/index.html` |
| `HtmlPaths.HtmlPathNormal` | mkdocs_redirects/plugin.py:71-87 | the HTML path of a normalised page is normalised, and with directory URLs its last segment is `index.html` |
| `HtmlPaths.PlainPageExample` | mkdocs_redirects/plugin.py:71-87 | `stem.md` becomes `stem.html`, or `stem/index.html` with directory URLs |
| `HtmlPaths.DirnameOfNormalPath` | mkdocs_redirects/plugin.py:61-63 | `dirname` of a normalised path is a path `relpath` accepts, and its segments are the path's directory segments |
| `HtmlPaths.LinkTarget` | mkdocs_redirects/plugin.py:59-61 | without directory URLs the new HTML path itself; with them `./` or a non-empty prefix of it |
| `HtmlPaths.LinkTargetOf` | mkdocs_redirects/plugin.py:59-61 | the link goes to the new HTML file, or with directory URLs to its directory (`./` at the top), which is never empty |
| `HtmlPaths.GetRelativeHtmlPath` | mkdocs_redirects/plugin.py:54-68 | with directory URLs the link always ends with `/` |
| `HtmlPaths.HtmlLink` | mkdocs_redirects/plugin.py:59-66 | the `relpath` step, with a `/` appended under directory URLs, which the result then always ends with |
| `HtmlPaths.LinkSegments` | mkdocs_redirects/plugin.py:59-66 | the link is the `relpath` segments from the old file's directory to the new file (or its directory), with a trailing `/` under directory URLs |
| `HtmlPaths.LinkRelResolves` | mkdocs_redirects/plugin.py:59-66 | the link is the `relpath` result, with `/` appended under directory URLs, and that result leads from the old file's directory to the new file, or to its directory |
| `HtmlPaths.HtmlLinkResolves` | mkdocs_redirects/plugin.py:59-66 | following the link from the old file's directory reaches the new file, or its directory under directory URLs |
| `HtmlPaths.TrailingSlashResolves` | mkdocs_redirects/plugin.py:65-66 | the appended `/` does not change where the link leads |
| `HtmlPaths.RelativeHtmlPathResolves` | mkdocs_redirects/plugin.py:54-68 | resolving the returned link against the old page's HTML directory gives the new page's HTML path (its directory under directory URLs) |
| `HtmlPaths.TopLevelLink` | mkdocs_redirects/plugin.py:54-68 | from `a.md` to `b.md` the link is `b.html`, or `../b/` with directory URLs |
| `RedirectHtml.FormatContents` | mkdocs_redirects/plugin.py:34-51 | the page keeps the template's head and tail, contains the canonical link, the script and the meta refresh, each with the URL, and is the template grown by three copies of the URL |
| `RedirectHtml.Format` | mkdocs_redirects/plugin.py:34-51 | the filled page is the template grown by three copies of the URL |
| `RedirectHtml.Parse` | mkdocs_redirects/plugin.py:34-51 | a URL read back from a page is one that fills the template to give exactly that page |
| `RedirectHtml.ParseFormat` | mkdocs_redirects/plugin.py:41-44 | parsing a filled template gives back the URL that filled it |
| `RedirectHtml.FormatInjective` | mkdocs_redirects/plugin.py:41-44 | different destinations give different pages |
| `RedirectHtml.TargetOf` | mkdocs_redirects/plugin.py:34-51 | a destination read from a page is one whose redirect page that page is |
| `RedirectHtml.TargetOfRedirectPage` | mkdocs_redirects/plugin.py:34-51 | every redirect page names its destination |
| `RedirectHtml.SiteDir.constructor` | mkdocs_redirects/plugin.py:139 | the site directory starts with the given files |
| `RedirectHtml.SiteDir.WriteHtml` | mkdocs_redirects/plugin.py:18-51 | the file at the old path becomes the redirect page to the new path, and no other file changes |
| `Plugin.PageKey` | mkdocs_redirects/plugin.py:112 | the key of a page holds no `\` |
| `Plugin.PageIndex` | mkdocs_redirects/plugin.py:111-114 | every key of the page index is the key of the page it maps to, and holds no `\` |
| `Plugin.PageIndexKeys` | mkdocs_redirects/plugin.py:111-114 | a key is in the index exactly when some documentation page has it |
| `Plugin.PageIndexLast` | mkdocs_redirects/plugin.py:111-114 | a key maps to the last page with that key |
| `Plugin.MarkdownWarnings` | mkdocs_redirects/plugin.py:106-108 | at most one warning per entry, each about a non-Markdown page |
| `Plugin.MarkdownWarningsIff` | mkdocs_redirects/plugin.py:106-108 | a page is warned about exactly when it is an old page of the table that fails the Markdown test |
| `Plugin.IsExternal` | mkdocs_redirects/plugin.py:126 | an external target is at least `http://` long, with a `/` at index 6 |
| `Plugin.NoSlashNotExternal` | mkdocs_redirects/plugin.py:126 | a target without `/` never counts as external |
| `Plugin.OutcomeOf` | mkdocs_redirects/plugin.py:126-141 | an external target is written as is, even if it is also a known page. An entry is skipped exactly when its target is neither external nor known, and then with a missing-target warning. Writes go to `get_html_path` of the old page |
| `Plugin.InternalTargetResolves` | mkdocs_redirects/plugin.py:129-130 | for a known target, the written link leads from the old page's HTML directory to the new page |
| `Plugin.Outcomes` | mkdocs_redirects/plugin.py:123-136 | one outcome per entry, in table order |
| `Plugin.WritesAndWarningsCount` | mkdocs_redirects/plugin.py:123-141 | every entry gives exactly one write or exactly one warning |
| `Plugin.WritesIff` | mkdocs_redirects/plugin.py:123-141 | a write is listed exactly when some outcome is that write |
| `Plugin.SkipWarningsIff` | mkdocs_redirects/plugin.py:134-136 | a warning is listed exactly when some outcome skips with it |
| `Plugin.WritesFromEntries` | mkdocs_redirects/plugin.py:123-141 | the writes are exactly the outcomes of the entries that are not skipped |
| `Plugin.MissingTargetWarned` | mkdocs_redirects/plugin.py:134-136 | a missing-target warning is logged exactly for targets of the table that are neither external nor known pages |
| `Plugin.ApplyWritesLast` | mkdocs_redirects/plugin.py:139-141 | a path written to holds the redirect page of its last write |
| `Plugin.ApplyWritesElsewhere` | mkdocs_redirects/plugin.py:139-141 | a path no write touches keeps its old contents, or stays absent |
| `Plugin.HandleEntry` | mkdocs_redirects/plugin.py:126-141 | one turn of the `on_post_build` loop: the entry's write is made with no warning, or its warning is returned with nothing written |
| `Plugin.InternalScenario` | mkdocs_redirects/plugin.py:123-141 | the table `{a.md: b.md}` with `b.md` known writes `a.html` linking to `b.html`, or `a/index.html` linking to `../b/` |
| `Plugin.OldToNewScenario` | mkdocs_redirects/plugin.py:123-141 | `{old.md: new.md}` gives `old.html` linking to `new.html`, or `old/index.html` linking to `../new/` |
| `Plugin.ExternalScenario` | mkdocs_redirects/plugin.py:126-127 | an external target gives one write of the URL as is, whatever the known pages |
| `Plugin.MissingScenario` | mkdocs_redirects/plugin.py:134-136 | a target that is neither a URL nor a known page gives no write and one warning |
| `Plugin.RedirectPlugin.constructor` | mkdocs_redirects/plugin.py:90-94 | the plugin starts with its `redirect_maps` setting, no table, no pages and no warnings, and `on_files` has not run |
| `Plugin.RedirectPlugin.OnFiles` | mkdocs_redirects/plugin.py:97-114 | the table is the setting unchanged. The warnings grow by the legacy-setting warning (if that setting is set to a truthy, non-empty value), then one per non-Markdown old page. The page index is built from the documentation pages, and the hook is marked as run |
| `Plugin.RedirectPlugin.OnPostBuild` | mkdocs_redirects/plugin.py:117-141 | callable only after `on_files`, which creates the table and the page index it reads. The site is the old site with every write applied in table order, and the warnings grow by the missing-target warnings in table order |

## Left out

- Filesystem effects of `write_html` (mkdocs_redirects/plugin.py:21-31)
  are left out. The model does not create directories, check that they
  exist, or raise I/O errors. The built site is the map `SiteDir.files`
  from the path string `write_html` receives, the old page's
  `get_html_path`, to the file's contents.
- The keys of `SiteDir.files` are strings, not resolved files.
  `os.path.join(site_dir, old_path)` is not modelled, and old pages are
  not normalised. An absolute old page such as `/a.md` would be written
  outside the site directory, and `a.md` and `./a.md` give two keys for
  one file. `ApplyWritesLast` and `ApplyWritesElsewhere` speak about
  keys. They speak about files only when the old pages are normalised
  relative paths.
- `textwrap.dedent` and `str.format` are not modelled in general. The
  template is written out already dedented, and `Format` fills only its
  three `{url}` holes.
- Logging is not modelled. Warnings are values appended to the plugin's
  `warnings` sequence, without their message text, and the `log.debug`
  calls (mkdocs_redirects/plugin.py:27, 32-33) are left out. Each hook
  collects its warnings in a local sequence and appends them when it
  returns, in the order the source logs them.
- The host's collaborators are inputs, not models. They are:
  - the Markdown test, the `isMarkdown` parameter;
  - the documentation pages, a sequence of `File`;
  - whether the legacy `redirects` setting is set to a truthy
    (non-empty) value, a boolean;
  - `use_directory_urls`, a boolean;
  - the site directory, a `SiteDir` object.
  `config_scheme`, `BasePlugin` and option validation are not part of
  this model.
- The `redirect_maps` dictionary is a sequence of pairs in insertion
  order. A dictionary cannot repeat an old page but the sequence can, so
  the model covers more tables than the source. When old pages repeat,
  the last write wins (`ApplyWritesLast`).
- `Text.Lower` folds ASCII letters only. That is exact for the
  comparisons the plugin makes, against `index`, `readme`, `http://` and
  `https://`, but not in general.
- `PosixPath.RelPath` requires relative paths with no `..` segment.
  `relpath` on absolute paths or on `..` is not modelled; it would need
  the working directory. `RelativeSegmentsIgnoreWorkingDirectory` shows
  that the working directory `abspath` adds cancels out. The `ValueError`
  for an empty path becomes a precondition, which the plugin always meets
  because a link target is never empty.
- `HtmlPaths.GetRelativeHtmlPath` requires both pages to be normalised
  relative paths: names separated by single slashes, with no empty, `.`
  or `..` segment. Other page paths are not modelled.
- `HtmlPaths.HtmlLink` has the same requirement for the two HTML paths.
- `Plugin.RedirectPlugin.OnPostBuild` requires one thing of every entry
  whose target is a known page and not external. Its old page and its
  target must both be such normalised paths (`AllLinksComputable`).
  `Plugin.OutcomeOf` and `Plugin.Outcomes` have the same requirement.
