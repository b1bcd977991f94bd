/** The request handler of the static file server in `user-auth/index.js`: the root path is
    rewritten to the sign-in page, the content type follows the file extension, and the
    outcome of reading the file decides the status. The file system is a function from the
    path below the served directory to the outcome of `fs.readFile` on it. */
module StaticRouter {

  type byte = bv8

  /** What `fs.readFile` reports: the file's bytes, or an error with its `code`. */
  datatype ReadOutcome = Contents(data: seq<byte>) | ReadError(code: string)

  /** The body written with `res.end`: the file data, the fixed "page not found" document, or text. */
  datatype Body = FileData(data: seq<byte>) | NotFoundPage | Text(text: string)

  datatype Response = Response(status: nat, contentType: string, body: Body)

  // ---------------------------------------------------------------------------
  // Paths

  const LoginPage := "/login.html"

  /** The default route: `/` is served as the sign-in page. */
  function RewritePath(pathname: string): string {
    if pathname == "/" then LoginPage else pathname
  }

  /** Only `/` is rewritten, and the rewrite is its own fixed point. */
  lemma RewriteOnlyRoot(pathname: string)
    ensures pathname == "/" ==> RewritePath(pathname) == LoginPage
    ensures pathname != "/" ==> RewritePath(pathname) == pathname
    ensures RewritePath(RewritePath(pathname)) == RewritePath(pathname)
  {
  }

  /** `pathname.slice(1)`: the path below the served directory. */
  function RelativePath(pathname: string): (rel: string)
    ensures |pathname| >= 1 ==> pathname == [pathname[0]] + rel
    ensures |pathname| == 0 ==> rel == []
  {
    if |pathname| >= 1 then pathname[1..] else []
  }

  /** The path without the separators it ends with. */
  function StripTrailingSlashes(p: string): string {
    if p != [] && p[|p| - 1] == '/' then StripTrailingSlashes(p[..|p| - 1]) else p
  }

  /** Stripping keeps a prefix that does not end in `/` and drops only `/` characters. */
  lemma {:induction false} StripTrailingSlashesSpec(p: string)
    ensures var q := StripTrailingSlashes(p);
            && q <= p
            && (q == [] || q[|q| - 1] != '/')
            && forall k :: |q| <= k < |p| ==> p[k] == '/'
  {
    if p != [] && p[|p| - 1] == '/' {
      StripTrailingSlashesSpec(p[..|p| - 1]);
    }
  }

  /** The last segment of a path: what follows its last `/`. */
  function LastSegment(p: string): string {
    if p == [] || p[|p| - 1] == '/' then []
    else LastSegment(p[..|p| - 1]) + [p[|p| - 1]]
  }

  /** The last segment is a suffix without `/`, and it is the whole path or follows a `/`. */
  lemma {:induction false} LastSegmentSpec(p: string)
    ensures var name := LastSegment(p);
            && |name| <= |p| && name == p[|p| - |name|..]
            && '/' !in name
            && (|name| < |p| ==> p[|p| - |name| - 1] == '/')
  {
    if p != [] && p[|p| - 1] != '/' {
      var init := p[..|p| - 1];
      LastSegmentSpec(init);
      var name := LastSegment(p);
      assert name == LastSegment(init) + [p[|p| - 1]];
      assert p == init + [p[|p| - 1]];
      assert name == p[|p| - |name|..];
    }
  }

  /** The position of the last `.` in a name, or -1. */
  function LastDot(name: string): (i: int)
    ensures -1 <= i < |name|
  {
    if name == [] then -1
    else if name[|name| - 1] == '.' then |name| - 1
    else LastDot(name[..|name| - 1])
  }

  /** The position found holds a `.`, and no `.` follows it. */
  lemma {:induction false} LastDotSpec(name: string)
    ensures var i := LastDot(name);
            && (i >= 0 ==> name[i] == '.')
            && forall k :: i < k < |name| ==> name[k] != '.'
  {
    if name != [] && name[|name| - 1] != '.' {
      LastDotSpec(name[..|name| - 1]);
      var i := LastDot(name);
      forall k | i < k < |name| ensures name[k] != '.' {
        if k < |name| - 1 {
          assert name[k] == name[..|name| - 1][k];
        }
      }
    }
  }

  /** The extension `path.extname` reports for a name: from its last `.` to the end, except
      when that `.` is the first character (a dot file) or the name is `..`. */
  function NameExtension(name: string): string {
    var i := LastDot(name);
    if name == ".." || i <= 0 then [] else name[i..]
  }

  /** `path.extname`: the extension of the last segment, trailing separators ignored. */
  function ExtName(p: string): (ext: string)
    ensures ext == [] || (ext[0] == '.' && '/' !in ext)
    ensures forall k :: 1 <= k < |ext| ==> ext[k] != '.'
  {
    var name := LastSegment(StripTrailingSlashes(p));
    LastSegmentSpec(StripTrailingSlashes(p));
    LastDotSpec(name);
    var ext := NameExtension(name);
    assert forall k :: 0 <= k < |ext| ==> ext[k] == name[LastDot(name) + k];
    ext
  }

  /** A file named `stem.suffix`, with a suffix free of dots and separators, has the
      extension `.suffix`, in whatever directory it lies (the name `..` excepted). */
  lemma ExtNameOfFile(dir: string, stem: string, suffix: string)
    requires stem != [] && stem != "." && '/' !in stem && '/' !in suffix && '.' !in suffix
    ensures ExtName(dir + "/" + stem + "." + suffix) == "." + suffix
  {
    var name := stem + "." + suffix;
    var p := (dir + "/") + name;
    assert dir + "/" + stem + "." + suffix == p;
    NameHasNoSlash(stem, suffix);
    assert p[|p| - 1] == name[|name| - 1];
    assert StripTrailingSlashes(p) == p;
    LastSegmentAfterSlash(dir + "/", name);
    NameExtensionOfFile(stem, suffix);
  }

  lemma NameHasNoSlash(stem: string, suffix: string)
    requires '/' !in stem && '/' !in suffix
    ensures '/' !in stem + "." + suffix
  {
    var name := stem + "." + suffix;
    forall k | 0 <= k < |name| ensures name[k] != '/' {
      if k < |stem| {
        assert name[k] == stem[k];
      } else if k > |stem| {
        assert name[k] == suffix[k - |stem| - 1];
      }
    }
  }

  lemma NameExtensionOfFile(stem: string, suffix: string)
    requires stem != [] && stem != "." && '.' !in suffix
    ensures NameExtension(stem + "." + suffix) == "." + suffix
  {
    var name := stem + "." + suffix;
    LastDotBeforeSuffix(stem, suffix);
    assert name != ".." by {
      if |name| == 2 {
        assert |stem| == 1 && name[0] == stem[0];
      }
    }
    assert name[|stem|..] == "." + suffix;
  }

  lemma {:induction false} LastSegmentAfterSlash(prefix: string, name: string)
    requires prefix != [] && prefix[|prefix| - 1] == '/' && '/' !in name
    ensures LastSegment(prefix + name) == name
    decreases |name|
  {
    var p := prefix + name;
    if name == [] {
      assert p == prefix;
    } else {
      var init := name[..|name| - 1];
      assert p[..|p| - 1] == prefix + init;
      assert p[|p| - 1] == name[|name| - 1];
      LastSegmentAfterSlash(prefix, init);
      assert init + [name[|name| - 1]] == name;
    }
  }

  lemma {:induction false} LastDotBeforeSuffix(stem: string, suffix: string)
    requires '.' !in suffix
    ensures LastDot(stem + "." + suffix) == |stem|
    decreases |suffix|
  {
    var name := stem + "." + suffix;
    if suffix == [] {
      assert name[|name| - 1] == '.';
    } else {
      var init := suffix[..|suffix| - 1];
      assert name[..|name| - 1] == stem + "." + init;
      assert name[|name| - 1] == suffix[|suffix| - 1];
      LastDotBeforeSuffix(stem, init);
    }
  }

  // ---------------------------------------------------------------------------
  // Content types

  /** The eight extensions the server knows. */
  const MimeTypes: map<string, string> := map[
    ".html" := "text/html",
    ".css" := "text/css",
    ".js" := "application/javascript",
    ".json" := "application/json",
    ".png" := "image/png",
    ".jpg" := "image/jpeg",
    ".gif" := "image/gif",
    ".ico" := "image/x-icon"
  ]

  /** `mimeTypes[ext] || 'text/plain'`. */
  function ContentType(ext: string): (t: string)
    ensures ext in MimeTypes ==> t == MimeTypes[ext]
    ensures ext !in MimeTypes ==> t == "text/plain"
    ensures t != []
  {
    if ext in MimeTypes then MimeTypes[ext] else "text/plain"
  }

  /** An extension outside the table, including none at all, is served as plain text. */
  lemma UnknownExtensionIsPlainText(ext: string)
    requires ext !in {".html", ".css", ".js", ".json", ".png", ".jpg", ".gif", ".ico"}
    ensures ContentType(ext) == "text/plain"
  {
  }

  // ---------------------------------------------------------------------------
  // The handler

  /** The handler for a request path against a file system. */
  function Serve(pathname: string, fs: string -> ReadOutcome): (r: Response)
    ensures var outcome := fs(RelativePath(RewritePath(pathname)));
            && (outcome.ReadError? && outcome.code == "ENOENT" ==> r == Response(404, "text/html", NotFoundPage))
            && (outcome.ReadError? && outcome.code != "ENOENT" ==> r == Response(500, "text/plain", Text("Server error")))
            && (outcome.Contents? ==>
                  r == Response(200, ContentType(ExtName(RewritePath(pathname))), FileData(outcome.data)))
    ensures r.status in {200, 404, 500}
  {
    var path := RewritePath(pathname);
    var contentType := ContentType(ExtName(path));
    match fs(RelativePath(path))
    case ReadError(code) =>
      if code == "ENOENT" then Response(404, "text/html", NotFoundPage)
      else Response(500, "text/plain", Text("Server error"))
    case Contents(data) => Response(200, contentType, FileData(data))
  }

  /** The sign-in page has the extension `.html`. */
  lemma LoginPageIsHtml()
    ensures ExtName(LoginPage) == ".html"
  {
    LastDotBeforeSuffix("login", "html");
    assert "login" + "." + "html" == "login.html";
    assert LastDot("login.html") == 5;
    assert NameExtension("login.html") == ".html";
    assert StripTrailingSlashes(LoginPage) == LoginPage;
    LastSegmentAfterSlash("/", "login.html");
    assert "/" + "login.html" == LoginPage;
  }

  /** The root serves `login.html` as HTML. */
  lemma RootServesLoginPage(fs: string -> ReadOutcome, data: seq<byte>)
    requires fs("login.html") == Contents(data)
    ensures Serve("/", fs) == Response(200, "text/html", FileData(data))
  {
    LoginPageIsHtml();
    RootFile();
  }

  /** A request for `/` reads `login.html`. */
  lemma RootFile()
    ensures RewritePath("/") == LoginPage && RelativePath(LoginPage) == "login.html"
  {
    assert LoginPage[1..] == "login.html";
  }

  /** A file found under a listed extension is served byte for byte with its type. */
  lemma ServesFileWithItsType(dir: string, stem: string, suffix: string, fs: string -> ReadOutcome, data: seq<byte>)
    requires stem != [] && stem != "." && '/' !in stem && '/' !in suffix && '.' !in suffix
    requires fs(RelativePath(dir + "/" + stem + "." + suffix)) == Contents(data)
    ensures Serve(dir + "/" + stem + "." + suffix, fs)
            == Response(200, ContentType("." + suffix), FileData(data))
  {
    var p := dir + "/" + stem + "." + suffix;
    assert |p| >= 3;
    ExtNameOfFile(dir, stem, suffix);
  }

  /** Only the read outcome of the requested file matters: two file systems that agree on it
      give the same response. */
  lemma ServeReadsOneFile(pathname: string, fs: string -> ReadOutcome, gs: string -> ReadOutcome)
    requires fs(RelativePath(RewritePath(pathname))) == gs(RelativePath(RewritePath(pathname)))
    ensures Serve(pathname, fs) == Serve(pathname, gs)
  {
  }
}
