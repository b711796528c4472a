/** The `posixpath` functions the plugin calls: `split`, `dirname`,
    `join` (two arguments), `splitext` and `relpath`, on `/`-separated
    strings. `split`, `dirname`, `join` and `splitext` are total, as in
    Python; `relpath` is modelled for relative paths without `..`
    segments, where `abspath` only puts the working directory in front. */
module PosixPath {
  import opened Text

  /** `s.rfind(c)`: the last index of `c` in `s`, or -1 when there is none. */
  function RFind(s: string, c: char): (i: int)
    ensures -1 <= i < |s|
    ensures 0 <= i ==> s[i] == c
    ensures forall j :: i < j < |s| ==> s[j] != c
  {
    if s == [] then -1
    else if s[|s| - 1] == c then |s| - 1
    else RFind(s[..|s| - 1], c)
  }

  /** `s.rstrip(c)` */
  function RStrip(s: string, c: char): (r: string)
    ensures |r| <= |s| && r == s[..|r|]
    ensures r == [] || r[|r| - 1] != c
    ensures forall j :: |r| <= j < |s| ==> s[j] == c
  {
    if s != [] && s[|s| - 1] == c then RStrip(s[..|s| - 1], c) else s
  }

  predicate AllSlashes(s: string)
  {
    forall j :: 0 <= j < |s| ==> s[j] == '/'
  }

  /** `posixpath.split(p)`: the head (trailing slashes removed unless it
      is nothing but slashes) and the tail after the last slash. */
  function SplitHeadTail(p: string): (r: (string, string))
    ensures '/' !in r.1 && EndsWith(p, r.1)
  {
    var i := RFind(p, '/') + 1;
    var head := p[..i];
    var tail := p[i..];
    if head != "" && !AllSlashes(head) then (RStrip(head, '/'), tail) else (head, tail)
  }

  /** `posixpath.dirname(p)`, the head of `posixpath.split(p)`: a prefix
      of the path, empty exactly when the path has no slash. */
  function Dirname(p: string): (r: string)
    ensures StartsWith(p, r)
    ensures r == "" <==> '/' !in p
  {
    SplitHeadTail(p).0
  }

  /** `posixpath.join(a, b)` */
  function PathJoin(a: string, b: string): (r: string)
    ensures EndsWith(r, b)
  {
    if StartsWith(b, "/") then b
    else if a == "" || EndsWith(a, "/") then a + b
    else a + "/" + b
  }

  /** `posixpath.splitext(p)`: the extension starts at the last dot of the
      last component, unless only dots come before that dot in it. */
  function SplitExt(p: string): (r: (string, string))
    ensures r.0 + r.1 == p
    ensures r.1 == "" || (r.1[0] == '.' && '.' !in r.1[1..] && '/' !in r.1)
  {
    var sepIndex := RFind(p, '/');
    var dotIndex := RFind(p, '.');
    if dotIndex > sepIndex && exists j :: sepIndex < j < dotIndex && p[j] != '.' then
      (p[..dotIndex], p[dotIndex..])
    else
      (p, "")
  }

  /** `splitext` splits exactly when the last component has a dot with a
      non-dot before it. */
  lemma SplitExtWhen(p: string)
    ensures SplitExt(p).1 != "" <==> exists i, j :: RFind(p, '/') < j < i < |p| && p[i] == '.' && p[j] != '.'
  {
    var sepIndex, dotIndex := RFind(p, '/'), RFind(p, '.');
    if exists i, j :: sepIndex < j < i < |p| && p[i] == '.' && p[j] != '.' {
      var i, j :| sepIndex < j < i < |p| && p[i] == '.' && p[j] != '.';
      assert i <= dotIndex;
      assert sepIndex < j < dotIndex && p[j] != '.';
      assert p[dotIndex..] != "";
    }
  }

  /** Putting an extension on a stem whose last component has a non-dot
      and splitting it off again gives back the stem and the extension. */
  lemma SplitExtOfStem(stem: string, ext: string)
    requires exists j :: RFind(stem, '/') < j < |stem| && stem[j] != '.'
    requires '.' !in ext && '/' !in ext
    ensures SplitExt(stem + "." + ext) == (stem, "." + ext)
  {
    var p := stem + "." + ext;
    var j :| RFind(stem, '/') < j < |stem| && stem[j] != '.';
    StemDotExt(stem, ext);
    LastSlashOfPrefix(p, stem);
    assert p[j] == p[..|stem|][j];
    SplitExtAt(p, |stem|, j);
  }

  /** Where the stem, the dot and the extension sit in `stem + "." + ext`. */
  lemma StemDotExt(stem: string, ext: string)
    requires '.' !in ext && '/' !in ext
    ensures var p := stem + "." + ext;
      p[..|stem|] == stem && p[|stem|..] == "." + ext && p[|stem|] == '.' &&
      forall k :: |stem| < k < |p| ==> p[k] != '.' && p[k] != '/'
  {
    var p := stem + "." + ext;
    forall k | |stem| < k < |p| ensures p[k] != '.' && p[k] != '/' {
      assert p[k] == ext[k - |stem| - 1];
      assert ext[k - |stem| - 1] in ext;
    }
    assert p[..|stem|] == stem;
  }

  /** `splitext` splits at a dot followed by no dot or slash, when a
      non-dot of the same component comes before it. */
  lemma SplitExtAt(p: string, d: nat, j: int)
    requires d < |p| && p[d] == '.'
    requires forall k :: d < k < |p| ==> p[k] != '.' && p[k] != '/'
    requires RFind(p, '/') < j < d && p[j] != '.'
    ensures SplitExt(p) == (p[..d], p[d..])
  {
    RFindIs(p, '.', d);
  }

  /** The last slash of `p` is the last slash of its prefix `stem` when
      what follows the prefix holds no slash. */
  lemma LastSlashOfPrefix(p: string, stem: string)
    requires |stem| <= |p| && p[..|stem|] == stem
    requires forall k :: |stem| <= k < |p| ==> p[k] != '/'
    ensures RFind(p, '/') == RFind(stem, '/')
  {
    var i := RFind(stem, '/');
    if i >= 0 {
      assert p[i] == stem[i];
      forall k | i < k < |p| ensures p[k] != '/' {
        if k < |stem| {
          assert p[k] == stem[k];
        }
      }
      RFindIs(p, '/', i);
    } else {
      forall k | 0 <= k < |p| ensures p[k] != '/' {
        if k < |stem| {
          assert p[k] == stem[k];
        }
      }
      assert RFind(p, '/') == -1;
    }
  }

  /** A segment of a normalised relative path: not empty, no slash, and
      neither `.` nor `..`. */
  predicate IsName(s: string)
  {
    s != "" && '/' !in s && s != "." && s != ".."
  }

  predicate AllNames(segs: seq<string>)
  {
    forall k :: 0 <= k < |segs| ==> IsName(segs[k])
  }

  /** A relative, normalised path: names separated by single slashes. */
  predicate IsNormalPath(p: string)
  {
    AllNames(Split(p, '/'))
  }

  /** Joined names start with the first name and end with the last one. */
  lemma JoinedNamesEnds(segs: seq<string>)
    requires |segs| >= 1
    ensures StartsWith(Join(segs, '/'), segs[0])
    ensures EndsWith(Join(segs, '/'), segs[|segs| - 1])
  {
    JoinEnds(segs);
    if |segs| > 1 {
      FirstOfThree(segs[0], ['/'], Join(segs[1..], '/'));
    }
  }

  lemma FirstOfThree(a: string, b: string, c: string)
    ensures StartsWith(a + b + c, a)
  {
    assert (a + b + c)[..|a|] == a;
  }

  /** Taking off the trailing slash that follows a name. */
  lemma RStripAfterName(a: string)
    requires a != [] && a[|a| - 1] != '/'
    ensures RStrip(a + "/", '/') == a
  {
    assert (a + "/")[..|a|] == a;
  }

  /** `rfind` finds an occurrence with none after it. */
  lemma RFindIs(s: string, c: char, i: int)
    requires 0 <= i < |s| && s[i] == c
    requires forall j :: i < j < |s| ==> s[j] != c
    ensures RFind(s, c) == i
  {
  }

  /** The last slash of `s == a + "/" + x`, when `x` has none, is the
      one between them. */
  lemma RFindBeforeName(s: string, a: string, x: string)
    requires '/' !in x && s == a + "/" + x
    ensures RFind(s, '/') == |a|
  {
    assert s[|a|] == '/';
    forall j | |a| < j < |s| ensures s[j] != '/' {
      assert s[j] == x[j - |a| - 1];
      assert x[j - |a| - 1] in x;
    }
    RFindIs(s, '/', |a|);
  }

  /** `posixpath.split` of `s == jp + "/" + x`, where `jp` is joined names. */
  lemma SplitAfterNames(s: string, p: seq<string>, x: string)
    requires |p| >= 1 && AllNames(p) && '/' !in x
    requires s == Join(p, '/') + "/" + x
    ensures SplitHeadTail(s) == (Join(p, '/'), x)
  {
    var jp := Join(p, '/');
    RFindBeforeName(s, jp, x);
    assert s[..|jp| + 1] == jp + "/";
    assert s[|jp| + 1..] == x;
    JoinedNamesEnds(p);
    assert jp[0] == p[0][0];
    assert (jp + "/")[0] != '/';
    JoinNonEmptyEnd(p);
    RStripAfterName(jp);
  }

  /** `posixpath.split` of a path without a slash has an empty head. */
  lemma SplitName(x: string)
    requires '/' !in x
    ensures SplitHeadTail(x) == ("", x)
  {
    assert x[..0] == "" && x[0..] == x;
  }

  /** `posixpath.split` of a normalised path gives its parent's names
      and its last name. */
  lemma SplitNormalPath(segs: seq<string>)
    requires |segs| >= 1 && AllNames(segs)
    ensures SplitHeadTail(Join(segs, '/')) == (Join(segs[..|segs| - 1], '/'), segs[|segs| - 1])
  {
    var n := |segs|;
    var x := segs[n - 1];
    assert '/' !in x;
    if n == 1 {
      assert Join(segs, '/') == x;
      SplitName(x);
    } else {
      var p := segs[..n - 1];
      assert AllNames(p) by {
        forall k | 0 <= k < |p| ensures IsName(p[k]) {
          assert p[k] == segs[k];
        }
      }
      DropLast(segs);
      SplitJoinedNames(p, x);
    }
  }

  lemma DropLast<T>(s: seq<T>)
    requires |s| >= 1
    ensures s == s[..|s| - 1] + [s[|s| - 1]]
  {
  }

  lemma SplitJoinedNames(p: seq<string>, x: string)
    requires |p| >= 1 && AllNames(p) && '/' !in x
    ensures SplitHeadTail(Join(p + [x], '/')) == (Join(p, '/'), x)
  {
    JoinSnoc(p, x, '/');
    SplitAfterNames(Join(p + [x], '/'), p, x);
  }

  /** `posixpath.join` of a normalised directory and a name adds one
      segment. */
  lemma JoinOntoNames(p: seq<string>, x: string)
    requires AllNames(p) && IsName(x)
    ensures PathJoin(Join(p, '/'), x) == Join(p + [x], '/')
  {
    if p == [] {
      assert p + [x] == [x];
    } else {
      JoinNonEmptyEnd(p);
      JoinSnoc(p, x, '/');
    }
  }

  /** The stem `splitext` leaves of a name is itself a name. */
  lemma StemIsName(f: string)
    requires IsName(f)
    ensures IsName(SplitExt(f).0)
  {
    var sepIndex := RFind(f, '/');
    var dotIndex := RFind(f, '.');
    var stem := SplitExt(f).0;
    if dotIndex > sepIndex && exists j :: sepIndex < j < dotIndex && f[j] != '.' {
      var j :| sepIndex < j < dotIndex && f[j] != '.';
      assert stem == f[..dotIndex] && stem[j] != '.';
      assert stem != "." && stem != "..";
      assert forall c :: c in stem ==> c in f;
    }
  }

  // ---------------------------------------------------------------------
  // relpath

  /** Paths `relpath` is modelled for: relative, with no `..` segment. */
  predicate RelativeWithoutParent(p: string)
  {
    !StartsWith(p, "/") && ".." !in Split(p, '/')
  }

  /** The parts `normpath` keeps of a relative path without `..`: empty
      and `.` parts are dropped. */
  function KeptNames(parts: seq<string>): (names: seq<string>)
    ensures forall k :: 0 <= k < |names| ==> names[k] in parts && names[k] != "" && names[k] != "."
    ensures (forall k :: 0 <= k < |parts| ==> IsName(parts[k])) ==> names == parts
  {
    if parts == [] then []
    else (if parts[0] == "" || parts[0] == "." then [] else [parts[0]]) + KeptNames(parts[1..])
  }

  /** The segments of `abspath(p)` after the working directory's, as
      `relpath` lists them. */
  function Segments(p: string): (segs: seq<string>)
    requires RelativeWithoutParent(p)
    ensures AllNames(segs)
  {
    KeptNames(Split(p, '/'))
  }

  /** `len(commonprefix([a, b]))` for two lists. */
  function CommonPrefixLength(a: seq<string>, b: seq<string>): (n: nat)
    ensures n <= |a| && n <= |b| && a[..n] == b[..n]
    ensures n < |a| && n < |b| ==> a[n] != b[n]
  {
    if a == [] || b == [] || a[0] != b[0] then 0
    else
      var m := CommonPrefixLength(a[1..], b[1..]);
      assert a[..m + 1] == [a[0]] + a[1..][..m];
      assert b[..m + 1] == [b[0]] + b[1..][..m];
      m + 1
  }

  function Repeat(s: string, n: nat): (r: seq<string>)
    ensures |r| == n && forall k :: 0 <= k < n ==> r[k] == s
  {
    if n == 0 then [] else [s] + Repeat(s, n - 1)
  }

  /** The list `relpath` joins: one `..` per start segment past the
      common prefix, then the rest of the target. */
  function RelativeSegments(start: seq<string>, target: seq<string>): seq<string>
  {
    var i := CommonPrefixLength(start, target);
    Repeat("..", |start| - i) + target[i..]
  }

  /** One step of resolving a relative reference against a directory:
      `..` goes up (never above the root), `.` and an empty part (a
      trailing slash) stay, a name goes down. */
  function Step(dir: seq<string>, part: string): seq<string>
  {
    if part == "" || part == "." then dir
    else if part == ".." then (if dir == [] then [] else dir[..|dir| - 1])
    else dir + [part]
  }

  function Resolve(dir: seq<string>, parts: seq<string>): seq<string>
    decreases |parts|
  {
    if parts == [] then dir else Resolve(Step(dir, parts[0]), parts[1..])
  }

  lemma {:induction false} ResolveAppend(dir: seq<string>, a: seq<string>, b: seq<string>)
    ensures Resolve(dir, a + b) == Resolve(Resolve(dir, a), b)
    decreases |a|
  {
    if a == [] {
      assert a + b == b;
    } else {
      assert (a + b)[1..] == a[1..] + b;
      ResolveAppend(Step(dir, a[0]), a[1..], b);
    }
  }

  /** Going up from `dir` once per segment past the first `k` leaves
      the first `k`. */
  lemma {:induction false} ResolveUp(dir: seq<string>, k: nat)
    requires k <= |dir|
    ensures Resolve(dir, Repeat("..", |dir| - k)) == dir[..k]
    decreases |dir| - k
  {
    if k < |dir| {
      var up := Repeat("..", |dir| - k);
      assert up[0] == ".." && up[1..] == Repeat("..", |dir| - 1 - k);
      var parent := dir[..|dir| - 1];
      assert Step(dir, "..") == parent;
      ResolveUp(parent, k);
      assert parent[..k] == dir[..k];
    }
  }

  lemma {:induction false} ResolveDown(dir: seq<string>, names: seq<string>)
    requires AllNames(names)
    ensures Resolve(dir, names) == dir + names
    decreases |names|
  {
    if names != [] {
      ResolveDown(dir + [names[0]], names[1..]);
      assert dir + [names[0]] + names[1..] == dir + names;
    }
  }

  lemma ResolveTrailingEmpty(dir: seq<string>, parts: seq<string>)
    ensures Resolve(dir, parts + [""]) == Resolve(dir, parts)
  {
    ResolveAppend(dir, parts, [""]);
  }

  /** Going up out of the start directory and down into the target gives
      the target. */
  lemma RelativeSegmentsResolve(start: seq<string>, target: seq<string>)
    requires AllNames(target)
    ensures Resolve(start, RelativeSegments(start, target)) == target
  {
    var i := CommonPrefixLength(start, target);
    UpThenDown(start, target, i);
  }

  /** Up to the common prefix, then down the rest of the target. */
  lemma UpThenDown(start: seq<string>, target: seq<string>, i: nat)
    requires AllNames(target) && i <= |start| && i <= |target| && start[..i] == target[..i]
    ensures Resolve(start, Repeat("..", |start| - i) + target[i..]) == target
  {
    var up, down := Repeat("..", |start| - i), target[i..];
    ResolveAppend(start, up, down);
    ResolveUp(start, i);
    SuffixNames(target, i);
    ResolveDown(target[..i], down);
    assert target[..i] + down == target;
  }

  lemma SuffixNames(segs: seq<string>, i: nat)
    requires AllNames(segs) && i <= |segs|
    ensures AllNames(segs[i..])
  {
    forall k | 0 <= k < |segs| - i ensures IsName(segs[i..][k]) {
      assert segs[i..][k] == segs[i + k];
    }
  }

  /** The string `relpath` returns for a list of parts: `.` for none,
      the parts joined by slashes otherwise. */
  function RelString(rel: seq<string>): string
  {
    if rel == [] then "." else Join(rel, '/')
  }

  /** `posixpath.relpath(path, start)`. Following the link it returns from
      `start` leads to `path`. */
  function RelPath(path: string, start: string): (r: string)
    requires path != ""
    requires RelativeWithoutParent(path) && RelativeWithoutParent(start)
    ensures r != "" && !EndsWith(r, "/")
    ensures Resolve(Segments(start), Split(r, '/')) == Segments(path)
  {
    RelStringResolves(Segments(start), Segments(path));
    RelString(RelativeSegments(Segments(start), Segments(path)))
  }

  lemma RelStringResolves(start: seq<string>, target: seq<string>)
    requires AllNames(target)
    ensures var r := RelString(RelativeSegments(start, target));
      r != "" && !EndsWith(r, "/") && Resolve(start, Split(r, '/')) == target
  {
    var rel := RelativeSegments(start, target);
    RelativeSegmentsResolve(start, target);
    if rel == [] {
      SplitNoSep(".", '/');
    } else {
      var i := CommonPrefixLength(start, target);
      assert forall k :: 0 <= k < |rel| ==> IsName(rel[k]) || rel[k] == ".." by {
        forall k | 0 <= k < |rel| ensures IsName(rel[k]) || rel[k] == ".." {
          if k >= |start| - i {
            assert rel[k] == target[i + k - (|start| - i)];
          }
        }
      }
      SplitJoin(rel, '/');
      JoinNonEmptyEnd(rel);
    }
  }

  /** Joining non-empty parts that hold no slash does not end in a slash. */
  lemma JoinNonEmptyEnd(parts: seq<string>)
    requires |parts| >= 1
    requires forall k :: 0 <= k < |parts| ==> parts[k] != "" && '/' !in parts[k]
    ensures Join(parts, '/') != "" && !EndsWith(Join(parts, '/'), "/")
  {
    JoinEnds(parts);
    var j := Join(parts, '/');
    var last := parts[|parts| - 1];
    assert j[|j| - 1] == last[|last| - 1];
  }

  lemma {:induction false} JoinEnds(parts: seq<string>)
    requires |parts| >= 1
    ensures EndsWith(Join(parts, '/'), parts[|parts| - 1])
  {
    if |parts| > 1 {
      JoinEnds(parts[1..]);
    }
  }

  /** `abspath` puts the same working directory in front of both paths;
      it cancels out of the relative path. */
  lemma {:induction false} RelativeSegmentsIgnoreWorkingDirectory(cwd: seq<string>, start: seq<string>, target: seq<string>)
    ensures RelativeSegments(cwd + start, cwd + target) == RelativeSegments(start, target)
  {
    CommonPrefixShift(cwd, start, target);
    assert (cwd + target)[|cwd| + CommonPrefixLength(start, target)..]
        == target[CommonPrefixLength(start, target)..];
  }

  lemma {:induction false} CommonPrefixShift(cwd: seq<string>, a: seq<string>, b: seq<string>)
    ensures CommonPrefixLength(cwd + a, cwd + b) == |cwd| + CommonPrefixLength(a, b)
  {
    if cwd != [] {
      assert (cwd + a)[1..] == cwd[1..] + a;
      assert (cwd + b)[1..] == cwd[1..] + b;
      CommonPrefixShift(cwd[1..], a, b);
    } else {
      assert cwd + a == a && cwd + b == b;
    }
  }
}
