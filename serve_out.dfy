/**
 * The routing decision of the preview server for the static export
 * (scripts/serve-out.mjs): from the request target and the file tree under
 * `out/`, which file is sent with which Content-Type, or which error.
 *
 * Paths are lists of segments: an absolute POSIX path "/a/b" is ["a", "b"].
 * The file tree is abstract: the set of regular files and the set of
 * directories, each as such a path.
 */
module ServeOut {
  import opened Wrappers
  import opened JsString
  import opened JsArray
  import GenerateFeeds

  type Path = seq<string>

  // ---------------------------------------------------------------------------
  // Normalising the request target
  // ---------------------------------------------------------------------------

  /** The characters `.` in a JavaScript regular expression does not match. */
  predicate IsLineTerminator(c: char)
  {
    c == '\n' || c == '\r' || c == '\U{2028}' || c == '\U{2029}'
  }

  predicate NoLineTerminator(s: string)
  {
    forall i :: 0 <= i < |s| ==> !IsLineTerminator(s[i])
  }

  /** `/\?.*$/` matches at `i`: a `?` with no line terminator after it up to the end. */
  predicate QueryAt(s: string, i: int)
  {
    0 <= i < |s| && s[i] == '?' && NoLineTerminator(s[i + 1..])
  }

  /** `s.replace(/\?.*$/, "")`: cut at the leftmost position where the pattern matches. */
  function StripQuery(s: string): (r: string)
    ensures r <= s
  {
    if |s| == 0 then ""
    else if QueryAt(s, 0) then ""
    else [s[0]] + StripQuery(s[1..])
  }

  lemma QueryAtTail(s: string, i: int)
    requires |s| > 0 && i >= 0
    ensures QueryAt(s[1..], i) <==> QueryAt(s, i + 1)
  {
    if 0 <= i < |s| - 1 {
      assert s[1..][i + 1..] == s[i + 2..];
    }
  }

  /**
   * `StripQuery` is the regular-expression replacement: it keeps everything
   * before the leftmost match, and keeps the whole string when nothing matches.
   */
  lemma {:induction false} StripQueryMatch(s: string)
    ensures var r := StripQuery(s);
            && r <= s
            && (|r| < |s| ==> QueryAt(s, |r|))
            && (forall i :: 0 <= i < |r| ==> !QueryAt(s, i))
  {
    if |s| > 0 && !QueryAt(s, 0) {
      var t := s[1..];
      StripQueryMatch(t);
      var r := StripQuery(s);
      QueryAtTail(s, |r| - 1);
      forall i | 0 < i < |r|
        ensures !QueryAt(s, i)
      {
        QueryAtTail(s, i - 1);
      }
    }
  }

  /** `s.replace(/\/$/, "")`: one trailing `/` removed, if there is one. */
  function TrimTrailingSlash(s: string): (r: string)
    ensures s == r || s == r + "/"
    ensures |s| > 0 && s[|s| - 1] == '/' ==> |r| == |s| - 1
  {
    if |s| > 0 && s[|s| - 1] == '/' then s[..|s| - 1] else s
  }

  /** `req.url || "/"`: a missing or empty target reads as the root. */
  function RequestTarget(url: Option<string>): string
  {
    if url.Some? && url.value != "" then url.value else "/"
  }

  /** `base`: the target without its query, without one trailing `/`, and `/` when that leaves nothing. */
  function Base(url: Option<string>): (r: string)
    ensures r != ""
  {
    var trimmed := TrimTrailingSlash(StripQuery(RequestTarget(url)));
    if trimmed == "" then "/" else trimmed
  }

  predicate NonEmpty(s: string)
  {
    s != ""
  }

  /** `base.split("/").filter(Boolean)`. */
  function Segments(base: string): (r: seq<string>)
    ensures forall seg :: seg in r ==> seg != "" && '/' !in seg
  {
    Filter(NonEmpty, Split(base, '/'))
  }

  // ---------------------------------------------------------------------------
  // POSIX paths
  // ---------------------------------------------------------------------------

  /** The string form of an absolute path. */
  function PathString(p: Path): string
  {
    "/" + Join(p, "/")
  }

  /** A segment `path.resolve` keeps as it is. */
  predicate IsPlain(seg: string)
  {
    seg != "" && seg != "." && seg != ".." && '/' !in seg
  }

  /** An absolute path as `path.resolve` returns it: no empty, `.` or `..` segment. */
  predicate Normalized(p: Path)
  {
    forall seg :: seg in p ==> IsPlain(seg)
  }

  /** One segment of `path.resolve`: `.` and empty stay, `..` goes up (but not above the root). */
  function ResolveStep(p: Path, seg: string): Path
  {
    if seg == "" || seg == "." then p
    else if seg == ".." then (if |p| == 0 then p else p[..|p| - 1])
    else p + [seg]
  }

  /** `path.resolve(base, ...parts)` for an absolute `base` and slash-free parts. */
  function Resolve(base: Path, parts: seq<string>): (r: Path)
    decreases |parts|
  {
    if |parts| == 0 then base
    else Resolve(ResolveStep(base, parts[0]), parts[1..])
  }

  /** Resolving keeps a normalised path normalised. */
  lemma {:induction false} ResolveNormalized(base: Path, parts: seq<string>)
    requires Normalized(base)
    requires forall seg :: seg in parts ==> '/' !in seg
    ensures Normalized(Resolve(base, parts))
    decreases |parts|
  {
    if |parts| > 0 {
      var next := ResolveStep(base, parts[0]);
      assert parts[0] in parts;
      assert Normalized(next) by {
        forall seg | seg in next ensures IsPlain(seg) {
          if |base| > 0 && seg in base[..|base| - 1] {
            var k :| 0 <= k < |base| - 1 && base[..|base| - 1][k] == seg;
            assert base[k] == seg;
          }
        }
      }
      forall seg | seg in parts[1..] ensures '/' !in seg {
        var k :| 0 <= k < |parts[1..]| && parts[1..][k] == seg;
        assert parts[k + 1] == seg;
      }
      ResolveNormalized(next, parts[1..]);
    }
  }

  /** Plain segments are appended as they are. */
  lemma {:induction false} ResolvePlain(base: Path, parts: seq<string>)
    requires forall seg :: seg in parts ==> IsPlain(seg)
    ensures Resolve(base, parts) == base + parts
    decreases |parts|
  {
    if |parts| > 0 {
      assert parts[0] in parts;
      forall seg | seg in parts[1..] ensures IsPlain(seg) {
        var k :| 0 <= k < |parts[1..]| && parts[1..][k] == seg;
        assert parts[k + 1] == seg;
      }
      ResolvePlain(base + [parts[0]], parts[1..]);
      assert base + [parts[0]] + parts[1..] == base + parts;
    }
  }

  /** The last segment of a path, "" for the root. */
  function BaseName(p: Path): string
  {
    if |p| == 0 then "" else p[|p| - 1]
  }

  /** The index of the last `.` in `name`, or -1. */
  function LastDot(name: string): (r: int)
    ensures -1 <= r < |name|
    ensures r >= 0 ==> name[r] == '.' && forall k :: r < k < |name| ==> name[k] != '.'
    ensures r == -1 ==> forall k :: 0 <= k < |name| ==> name[k] != '.'
  {
    if |name| == 0 then -1
    else if name[|name| - 1] == '.' then |name| - 1
    else LastDot(name[..|name| - 1])
  }

  /**
   * `path.extname`: from the last `.` of the last segment to its end; nothing
   * when there is no `.`, when the only leading part is that `.` (".bashrc"),
   * or for "..".
   */
  function ExtName(p: Path): (r: string)
    ensures r == "" || (r[0] == '.' && '.' !in r[1..])
    ensures var name := BaseName(p); r != "" <==> LastDot(name) > 0 && name != ".."
    ensures var name := BaseName(p); r != "" ==> |r| <= |name| && name[|name| - |r|..] == r
  {
    var name := BaseName(p);
    var dot := LastDot(name);
    if dot <= 0 || name == ".." then ""
    else name[dot..]
  }

  /** The last `.` of `a + "." + b` is the one after `a` when `b` has none. */
  lemma {:induction false} LastDotAfter(a: string, b: string)
    requires '.' !in b
    ensures LastDot(a + "." + b) == |a|
    decreases |b|
  {
    var name := a + "." + b;
    if |b| > 0 {
      var b' := b[..|b| - 1];
      assert name[..|name| - 1] == a + "." + b';
      assert name[|name| - 1] == b[|b| - 1];
      LastDotAfter(a, b');
    }
  }

  /** A last segment `stem.ext` has the extension `.ext`, except for "..". */
  lemma ExtNameOf(p: Path, stem: string, ext: string)
    requires stem != "" && '.' !in ext
    requires stem + "." + ext != ".."
    ensures ExtName(p + [stem + "." + ext]) == "." + ext
  {
    var name := stem + "." + ext;
    assert BaseName(p + [name]) == name;
    LastDotAfter(stem, ext);
    assert name[|stem|..] == "." + ext;
  }

  // ---------------------------------------------------------------------------
  // Content types
  // ---------------------------------------------------------------------------

  const ATOM_PATHS := ["/feed.xml", "/ja/feed.xml", "/en/feed.xml"]
  const ATOM_TYPE := "application/atom+xml; charset=utf-8"
  const HTML_TYPE := "text/html; charset=utf-8"
  const OCTET_STREAM := "application/octet-stream"
  const PLAIN_TEXT := "text/plain"

  const MIME: map<string, string> := map[
    ".html" := HTML_TYPE,
    ".xml" := "application/xml; charset=utf-8",
    ".css" := "text/css",
    ".js" := "application/javascript",
    ".json" := "application/json",
    ".ico" := "image/x-icon",
    ".svg" := "image/svg+xml",
    ".png" := "image/png",
    ".jpg" := "image/jpeg",
    ".jpeg" := "image/jpeg",
    ".webp" := "image/webp",
    ".woff2" := "font/woff2",
    ".woff" := "font/woff"
  ]

  /** `MIME[ext] || "application/octet-stream"`. */
  function MimeType(ext: string): (r: string)
    ensures ext in MIME ==> r == MIME[ext]
    ensures ext !in MIME ==> r == OCTET_STREAM
    ensures r != ATOM_TYPE
  {
    if ext in MIME && MIME[ext] != "" then MIME[ext] else OCTET_STREAM
  }

  // ---------------------------------------------------------------------------
  // Routing
  // ---------------------------------------------------------------------------

  /** The export on disk: its regular files and its directories. */
  datatype Tree = Tree(files: set<Path>, dirs: set<Path>)

  /** `fs.existsSync`. */
  predicate Exists(tree: Tree, p: Path)
  {
    p in tree.files || p in tree.dirs
  }

  /** `fs.existsSync(p) && fs.statSync(p).isFile()`. */
  predicate IsFile(tree: Tree, p: Path)
  {
    p in tree.files
  }

  /** What the handler does: streams a file with status 200, or sends a short text body. */
  datatype Response =
    | SendFile(path: Path, contentType: string)
    | Send(status: nat, body: string, contentType: string)

  const FORBIDDEN := Send(403, "Forbidden", PLAIN_TEXT)
  const NOT_FOUND := Send(404, "Not Found", PLAIN_TEXT)

  /** The traversal guard as written: a plain string-prefix test on the resolved path. */
  predicate PrefixGuard(outDir: Path, segs: seq<string>)
  {
    PathString(Resolve([], outDir)) <= PathString(Resolve(outDir, segs))
  }

  /** The file the Atom override looks at: `path.resolve(outDir, segs.join(sep) || "feed.xml")`. */
  function AtomFile(outDir: Path, segs: seq<string>): Path
  {
    Resolve(outDir, if |segs| == 0 then ["feed.xml"] else segs)
  }

  /** The rules after the Atom override: file, directory index, root index, 404. */
  function StaticRoute(outDir: Path, segs: seq<string>, tree: Tree): Response
  {
    var asFile := Resolve(outDir, segs);
    var asIndex := Resolve(asFile, ["index.html"]);
    if IsFile(tree, asFile) then SendFile(asFile, MimeType(ExtName(asFile)))
    else if Exists(tree, asIndex) then SendFile(asIndex, MIME[".html"])
    else if |segs| == 0 && Exists(tree, Resolve(outDir, ["index.html"])) then
      SendFile(Resolve(outDir, ["index.html"]), MIME[".html"])
    else NOT_FOUND
  }

  /** The request handler: the rules in order, the first that applies decides. */
  function Route(outDir: Path, url: Option<string>, tree: Tree): Response
    requires Normalized(outDir)
  {
    var base := Base(url);
    var segs := Segments(base);
    if !PrefixGuard(outDir, segs) then FORBIDDEN
    else if base in ATOM_PATHS && IsFile(tree, AtomFile(outDir, segs)) then
      SendFile(AtomFile(outDir, segs), ATOM_TYPE)
    else StaticRoute(outDir, segs, tree)
  }

  /** `Number(process.env.PORT)`, as a JavaScript number. */
  datatype JsNumber = NaN | Infinite(negative: bool) | Finite(value: real)

  /** `Number(process.env.PORT) || 3080`: NaN and zero are falsy. */
  function Port(n: JsNumber): (r: JsNumber)
    ensures r != NaN && r != Finite(0.0)
    ensures n != NaN && n != Finite(0.0) ==> r == n
    ensures n == NaN || n == Finite(0.0) ==> r == Finite(3080.0)
  {
    if n.NaN? || n == Finite(0.0) then Finite(3080.0) else n
  }

  // ---------------------------------------------------------------------------
  // Requests for a plain path
  // ---------------------------------------------------------------------------

  /** A segment of a request path that needs no normalising: non-empty, no `/`, no `?`. */
  predicate IsRequestSegment(seg: string)
  {
    seg != "" && '/' !in seg && '?' !in seg
  }

  lemma {:induction false} StripQueryNone(s: string)
    requires '?' !in s
    ensures StripQuery(s) == s
  {
    if |s| > 0 {
      StripQueryNone(s[1..]);
      assert s == [s[0]] + s[1..];
    }
  }

  /** A query string with no line terminator is cut off at its `?`. */
  lemma {:induction false} StripQueryOff(p: string, q: string)
    requires '?' !in p && NoLineTerminator(q)
    ensures StripQuery(p + "?" + q) == p
  {
    if |p| == 0 {
      assert (p + "?" + q)[1..] == q;
    } else {
      assert (p + "?" + q)[1..] == p[1..] + "?" + q;
      StripQueryOff(p[1..], q);
      assert p == [p[0]] + p[1..];
    }
  }

  lemma {:induction false} PathStringNoQuery(xs: seq<string>)
    requires forall seg :: seg in xs ==> IsRequestSegment(seg)
    ensures '?' !in PathString(xs)
    decreases |xs|
  {
    if |xs| > 1 {
      assert xs[0] in xs;
      assert forall seg :: seg in xs[1..] ==> seg in xs;
      PathStringNoQuery(xs[1..]);
      assert PathString(xs) == "/" + xs[0] + PathString(xs[1..]);
    } else if |xs| == 1 {
      assert xs[0] in xs;
    }
  }

  lemma PathStringLast(xs: seq<string>)
    requires |xs| > 0 && xs[|xs| - 1] != "" && '/' !in xs[|xs| - 1]
    ensures PathString(xs)[|PathString(xs)| - 1] != '/'
  {
    var init, last := xs[..|xs| - 1], xs[|xs| - 1];
    if |init| > 0 {
      assert xs == init + [last];
      JoinSnoc(init, last, "/");
    }
    assert last[|last| - 1] in last;
  }

  lemma PathStringJoin(xs: seq<string>)
    requires |xs| > 0
    ensures PathString(xs) == Join([""] + xs, "/")
  {
    JoinCons("", xs, "/");
  }

  /** The segments of a path's string form are its segments. */
  lemma SegmentsOfPath(xs: seq<string>)
    requires forall seg :: seg in xs ==> seg != "" && '/' !in seg
    ensures Segments(PathString(xs)) == xs
  {
    if |xs| == 0 {
      assert PathString(xs) == "/";
      assert "/"[1..] == "";
      assert Split("/", '/') == ["", ""];
      assert ["", ""][1..] == [""];
      assert [""][1..] == [];
    } else {
      PathStringJoin(xs);
      SplitJoin([""] + xs, '/');
      assert forall seg :: seg in xs ==> NonEmpty(seg);
      FilterAll(NonEmpty, xs);
      assert ([""] + xs)[1..] == xs;
    }
  }

  /** The base of a request for a path, with or without one trailing `/` and a query string, is the path. */
  lemma BaseOfPath(xs: seq<string>, slash: bool, query: Option<string>)
    requires forall seg :: seg in xs ==> IsRequestSegment(seg)
    requires query.Some? ==> NoLineTerminator(query.value)
    ensures var p := PathString(xs);
            Base(Some(p + (if slash then "/" else "") + (if query.Some? then "?" + query.value else ""))) == p
  {
    var p := PathString(xs);
    var pre := p + (if slash then "/" else "");
    var target := pre + (if query.Some? then "?" + query.value else "");
    PathStringNoQuery(xs);
    assert '?' !in pre;
    if query.Some? {
      assert target == pre + "?" + query.value;
      StripQueryOff(pre, query.value);
    } else {
      assert target == pre;
      StripQueryNone(pre);
    }
    assert RequestTarget(Some(target)) == target;
    assert StripQuery(target) == pre;
    if slash {
      assert pre[..|pre| - 1] == p;
      assert TrimTrailingSlash(pre) == p;
    } else if |xs| > 0 {
      assert xs[|xs| - 1] in xs;
      PathStringLast(xs);
      assert TrimTrailingSlash(pre) == p;
    } else {
      assert pre == "/";
    }
  }

  /**
   * A request for the path with segments `xs`, with or without one trailing
   * `/` and with or without a query string, has exactly `xs` as its segments.
   */
  lemma RequestSegments(xs: seq<string>, slash: bool, query: Option<string>)
    requires forall seg :: seg in xs ==> IsRequestSegment(seg)
    requires query.Some? ==> NoLineTerminator(query.value)
    ensures var target := PathString(xs) + (if slash then "/" else "") + (if query.Some? then "?" + query.value else "");
            Segments(Base(Some(target))) == xs
  {
    BaseOfPath(xs, slash, query);
    SegmentsOfPath(xs);
  }

  /** The three feed paths, as segments. */
  const FEED_SEGMENTS: seq<Path> := [["feed.xml"], ["ja", "feed.xml"], ["en", "feed.xml"]]

  lemma FeedFileName()
    ensures IsRequestSegment("feed.xml") && IsPlain("feed.xml")
  {
    assert forall i :: 0 <= i < |"feed.xml"| ==> "feed.xml"[i] != '/' && "feed.xml"[i] != '?';
  }

  lemma LocaleFeedPath(code: string)
    requires code == "ja" || code == "en"
    ensures "/" + code + "/feed.xml" == PathString([code, "feed.xml"])
  {
    JoinCons(code, ["feed.xml"], "/");
    assert "/" + code + "/feed.xml" == "/" + code + "/" + "feed.xml";
  }

  lemma FeedSegments(k: nat)
    requires k < |ATOM_PATHS|
    ensures ATOM_PATHS[k] == PathString(FEED_SEGMENTS[k])
    ensures forall seg :: seg in FEED_SEGMENTS[k] ==> IsRequestSegment(seg) && IsPlain(seg)
  {
    FeedFileName();
    if k == 1 {
      LocaleFeedPath("ja");
      assert ATOM_PATHS[1] == "/" + "ja" + "/feed.xml";
    } else if k == 2 {
      LocaleFeedPath("en");
      assert ATOM_PATHS[2] == "/" + "en" + "/feed.xml";
    }
  }


  // ---------------------------------------------------------------------------
  // The rules in order
  // ---------------------------------------------------------------------------

  lemma PathStringExtends(p: Path, q: Path)
    ensures PathString(p) <= PathString(p + q)
  {
    if |p| > 0 && |q| > 0 {
      JoinAppend(p, q, "/");
    } else if |q| == 0 {
      assert p + q == p;
    }
  }

  /** `path.resolve(outDir)` of the already resolved out directory is itself. */
  lemma OutDirResolved(outDir: Path)
    requires Normalized(outDir)
    ensures Resolve([], outDir) == outDir
  {
    ResolvePlain([], outDir);
  }

  lemma IndexPath(p: Path)
    ensures Resolve(p, ["index.html"]) == p + ["index.html"]
  {
    assert IsPlain("index.html") by {
      assert forall k :: 0 <= k < |"index.html"| ==> "index.html"[k] != '/';
    }
    ResolvePlain(p, ["index.html"]);
  }

  /**
   * The root-index rule (the third static rule) never decides: with no
   * segments the directory-index rule already looked at the same file.
   */
  lemma RootIndexRuleRedundant(outDir: Path, segs: seq<string>, tree: Tree)
    ensures var asFile := Resolve(outDir, segs);
            var asIndex := asFile + ["index.html"];
            StaticRoute(outDir, segs, tree) ==
              if IsFile(tree, asFile) then SendFile(asFile, MimeType(ExtName(asFile)))
              else if Exists(tree, asIndex) then SendFile(asIndex, HTML_TYPE)
              else NOT_FOUND
  {
    IndexPath(Resolve(outDir, segs));
    IndexPath(outDir);
  }

  /**
   * First match wins: 403 when the guard fails; then the Atom override for
   * the three feed paths; then a regular file with its extension's type;
   * then a directory index as HTML; else 404.
   */
  lemma RouteRules(outDir: Path, url: Option<string>, tree: Tree)
    requires Normalized(outDir)
    ensures var base := Base(url);
            var segs := Segments(base);
            var asFile := Resolve(outDir, segs);
            var atom := base in ATOM_PATHS && IsFile(tree, AtomFile(outDir, segs));
            var r := Route(outDir, url, tree);
            && (!PrefixGuard(outDir, segs) ==> r == FORBIDDEN)
            && (PrefixGuard(outDir, segs) && atom ==> r == SendFile(asFile, ATOM_TYPE))
            && (PrefixGuard(outDir, segs) && !atom && IsFile(tree, asFile) ==>
                  r == SendFile(asFile, MimeType(ExtName(asFile))))
            && (PrefixGuard(outDir, segs) && !atom && !IsFile(tree, asFile) && Exists(tree, asFile + ["index.html"]) ==>
                  r == SendFile(asFile + ["index.html"], HTML_TYPE))
            && (PrefixGuard(outDir, segs) && !atom && !IsFile(tree, asFile) && !Exists(tree, asFile + ["index.html"]) ==>
                  r == NOT_FOUND)
  {
    var segs := Segments(Base(url));
    RootIndexRuleRedundant(outDir, segs, tree);
    assert |segs| > 0 ==> AtomFile(outDir, segs) == Resolve(outDir, segs);
    if Base(url) in ATOM_PATHS {
      var k :| 0 <= k < |ATOM_PATHS| && ATOM_PATHS[k] == Base(url);
      FeedSegments(k);
      SegmentsOfPath(FEED_SEGMENTS[k]);
    }
  }

  /** 403 exactly when the string-prefix guard fails. */
  lemma ForbiddenIff(outDir: Path, url: Option<string>, tree: Tree)
    requires Normalized(outDir)
    ensures Route(outDir, url, tree) == FORBIDDEN <==> !PrefixGuard(outDir, Segments(Base(url)))
  {
    RouteRules(outDir, url, tree);
  }

  /** The Atom type is sent exactly for an existing feed file requested by one of the three paths. */
  lemma AtomIff(outDir: Path, url: Option<string>, tree: Tree)
    requires Normalized(outDir)
    ensures var r := Route(outDir, url, tree);
            var segs := Segments(Base(url));
            (r.SendFile? && r.contentType == ATOM_TYPE) <==>
              (PrefixGuard(outDir, segs) && Base(url) in ATOM_PATHS && IsFile(tree, AtomFile(outDir, segs)))
  {
    RouteRules(outDir, url, tree);
  }

  /** A feed path whose file is missing falls through to the static rules. */
  lemma AtomFallThrough(outDir: Path, url: Option<string>, tree: Tree)
    requires Normalized(outDir)
    requires PrefixGuard(outDir, Segments(Base(url)))
    requires !IsFile(tree, AtomFile(outDir, Segments(Base(url))))
    ensures Route(outDir, url, tree) == StaticRoute(outDir, Segments(Base(url)), tree)
  {
  }

  /**
   * A file is sent only if it exists, as a regular file unless it is a
   * directory index sent as HTML, and its path passes the string-prefix test.
   */
  lemma ServedExists(outDir: Path, url: Option<string>, tree: Tree)
    requires Normalized(outDir)
    ensures var r := Route(outDir, url, tree);
            r.SendFile? ==>
              && Exists(tree, r.path)
              && (IsFile(tree, r.path) || r.contentType == HTML_TYPE)
              && PathString(outDir) <= PathString(r.path)
  {
    var segs := Segments(Base(url));
    var asFile := Resolve(outDir, segs);
    RouteRules(outDir, url, tree);
    OutDirResolved(outDir);
    PathStringExtends(asFile, ["index.html"]);
  }

  /** Every other response is 403 or 404 with a plain-text body. */
  lemma ErrorResponses(outDir: Path, url: Option<string>, tree: Tree)
    requires Normalized(outDir)
    ensures var r := Route(outDir, url, tree);
            r.Send? ==> r == FORBIDDEN || r == NOT_FOUND
  {
    RouteRules(outDir, url, tree);
  }

  /**
   * A request for a feed path (trailing `/` and query allowed) whose file
   * exists under the out directory gets that file as Atom.
   */
  lemma FeedServedAsAtom(outDir: Path, k: nat, slash: bool, query: Option<string>, tree: Tree)
    requires Normalized(outDir) && k < 3
    requires query.Some? ==> NoLineTerminator(query.value)
    requires outDir + FEED_SEGMENTS[k] in tree.files
    ensures var target := ATOM_PATHS[k] + (if slash then "/" else "") + (if query.Some? then "?" + query.value else "");
            Route(outDir, Some(target), tree) == SendFile(outDir + FEED_SEGMENTS[k], ATOM_TYPE)
  {
    var xs := FEED_SEGMENTS[k];
    FeedSegments(k);
    BaseOfPath(xs, slash, query);
    SegmentsOfPath(xs);
    ResolvePlain(outDir, xs);
    OutDirResolved(outDir);
    PathStringExtends(outDir, xs);
  }

  /** The preview server serves as Atom exactly the paths the generator writes `_headers` rules for. */
  lemma FeedPathsAgree()
    ensures ATOM_PATHS == GenerateFeeds.FEED_PATHS
    ensures GenerateFeeds.ATOM_CONTENT_TYPE_LINE == "  Content-Type: " + ATOM_TYPE
  {
  }

  // ---------------------------------------------------------------------------
  // The traversal guard: as written, and as intended
  // ---------------------------------------------------------------------------

  /** The guard intended: the resolved path lies inside the out directory, segment by segment. */
  predicate InsideGuard(outDir: Path, segs: seq<string>)
  {
    outDir <= Resolve(outDir, segs)
  }

  /** Every path inside the out directory passes the string test too. */
  lemma InsideGuardPassesPrefixGuard(outDir: Path, segs: seq<string>)
    requires Normalized(outDir)
    requires InsideGuard(outDir, segs)
    ensures PrefixGuard(outDir, segs)
  {
    var r := Resolve(outDir, segs);
    assert r == outDir + r[|outDir|..];
    OutDirResolved(outDir);
    PathStringExtends(outDir, r[|outDir|..]);
  }

  lemma SiblingPassesGuard(parent: Path, out: string, sibling: string, file: string)
    requires out <= sibling
    ensures PathString(parent + [out]) <= PathString(parent + [sibling, file])
  {
    JoinCons(sibling, [file], "/");
    if |parent| > 0 {
      JoinAppend(parent, [out], "/");
      JoinAppend(parent, [sibling, file], "/");
    } else {
      assert parent + [out] == [out];
      assert parent + [sibling, file] == [sibling, file];
    }
  }

  /** Each feed path is split into the segments of one of the three feed files. */
  lemma AtomPathSegments(base: string)
    requires base in ATOM_PATHS
    ensures Segments(base) in FEED_SEGMENTS
  {
    var k :| 0 <= k < |ATOM_PATHS| && ATOM_PATHS[k] == base;
    FeedSegments(k);
    SegmentsOfPath(FEED_SEGMENTS[k]);
  }

  /**
   * As written, the string test lets through a sibling of the out directory
   * whose name starts with the out directory's name: `/../<sibling>/<file>`
   * sends `<parent>/<sibling>/<file>`, which is not inside `<parent>/<out>`.
   */
  lemma PrefixGuardEscape(parent: Path, out: string, sibling: string, file: string)
    requires Normalized(parent) && IsPlain(out)
    requires IsRequestSegment(sibling) && IsPlain(sibling) && IsRequestSegment(file) && IsPlain(file)
    requires out <= sibling && out != sibling
    ensures var outDir := parent + [out];
            var leaked := parent + [sibling, file];
            && Normalized(outDir)
            && Route(outDir, Some("/../" + sibling + "/" + file), Tree({leaked}, {})) == SendFile(leaked, MimeType(ExtName(leaked)))
            && !(outDir <= leaked)
  {
    var outDir := parent + [out];
    var leaked := parent + [sibling, file];
    var xs := ["..", sibling, file];
    var url := "/../" + sibling + "/" + file;
    assert Normalized(outDir);
    assert IsRequestSegment("..");
    EscapeRequest(sibling, file);
    assert outDir[..|outDir| - 1] == parent;
    assert Resolve(outDir, xs) == Resolve(parent, [sibling, file]);
    ResolvePlain(parent, [sibling, file]);
    OutDirResolved(outDir);
    SiblingPassesGuard(parent, out, sibling, file);
    if Base(Some(url)) in ATOM_PATHS {
      AtomPathSegments(Base(Some(url)));
      assert false;
    }
    RouteServesFile(outDir, Some(url), Tree({leaked}, {}));
    assert outDir[|parent|] != leaked[|parent|];
  }

  /** The file rule: past the guard, a request that is no feed path and names a file is sent as that file. */
  lemma RouteServesFile(outDir: Path, url: Option<string>, tree: Tree)
    requires Normalized(outDir)
    requires PrefixGuard(outDir, Segments(Base(url))) && Base(url) !in ATOM_PATHS
    requires IsFile(tree, Resolve(outDir, Segments(Base(url))))
    ensures var asFile := Resolve(outDir, Segments(Base(url)));
            Route(outDir, url, tree) == SendFile(asFile, MimeType(ExtName(asFile)))
  {
    RouteRules(outDir, url, tree);
  }

  lemma EscapeRequest(sibling: string, file: string)
    requires IsRequestSegment(sibling) && IsRequestSegment(file)
    ensures Segments(Base(Some("/../" + sibling + "/" + file))) == ["..", sibling, file]
  {
    var xs := ["..", sibling, file];
    assert IsRequestSegment("..");
    JoinThree("..", sibling, file, "/");
    assert PathString(xs) + "" + "" == "/../" + sibling + "/" + file;
    RequestSegments(xs, false, None);
  }

  /** The corrected handler: 403 unless the resolved path is inside the out directory. */
  function SafeRoute(outDir: Path, url: Option<string>, tree: Tree): Response
    requires Normalized(outDir)
  {
    if !InsideGuard(outDir, Segments(Base(url))) then FORBIDDEN else Route(outDir, url, tree)
  }

  /** With the corrected guard a file is sent only from inside the out directory. */
  lemma SafeRouteServesInside(outDir: Path, url: Option<string>, tree: Tree)
    requires Normalized(outDir)
    ensures var r := SafeRoute(outDir, url, tree);
            r.SendFile? ==> outDir <= r.path && Exists(tree, r.path)
  {
    var segs := Segments(Base(url));
    if InsideGuard(outDir, segs) {
      InsideGuardPassesPrefixGuard(outDir, segs);
      RouteRules(outDir, url, tree);
      ServedExists(outDir, url, tree);
    }
  }

  /** The corrected handler differs from the original only by refusing paths outside. */
  lemma SafeRouteAgrees(outDir: Path, url: Option<string>, tree: Tree)
    requires Normalized(outDir)
    ensures InsideGuard(outDir, Segments(Base(url))) ==> SafeRoute(outDir, url, tree) == Route(outDir, url, tree)
    ensures !InsideGuard(outDir, Segments(Base(url))) ==> SafeRoute(outDir, url, tree) == FORBIDDEN
  {
  }
}
