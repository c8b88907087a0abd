/**
  What a client reads in answer to a question: status, headers and content, by
  what the file system says of the file.
 */
module Replies {
  import opened Strings
  import opened ResponseSpec

  /** The first index file that exists, for a path that ends in '/'. */
  ghost predicate IndexIs(root: string, path: string, files: seq<string>, env: Environment, index: Option<string>) {
    var slashed := path != "" && path[|path| - 1] == '/';
    match index
    case None => slashed ==> forall i :: 0 <= i < |files| ==> root + path + files[i] !in env.accessible
    case Some(file) =>
      && slashed
      && exists i :: 0 <= i < |files| && files[i] == file && root + path + file in env.accessible
                     && forall j :: 0 <= j < i ==> root + path + files[j] !in env.accessible
  }

  function PathWith(path: string, index: Option<string>): string {
    match index
    case None => path
    case Some(file) => path + file
  }

  predicate Missing(file: string, env: Environment) {
    file !in env.stat || env.stat[file].isDirectory
  }

  predicate Readable(file: string, env: Environment) {
    file in env.stat && !env.stat[file].isDirectory && env.stat[file].othersRead
  }

  /** Status code and text. */
  function StatusOf(file: string, index: Option<string>, env: Environment): string {
    if Missing(file, env) then "404 Not Found"
    else if !env.stat[file].othersRead then "403 Forbidden"
    else if index.Some? then "301 Moved Permanently"
    else "200 OK"
  }

  /** The content type that belongs to a path: that of the suffix behind the last '.'. */
  ghost predicate KindIs(kind: string, path: string, types: map<string, string>) {
    && (NoneOf(path, {'.'}) ==> kind == "text/plain")
    && forall stem, suffix :: path == stem + "." + suffix && NoneOf(suffix, {'.'}) ==>
         kind == if "." + suffix in types then types["." + suffix] else "text/plain"
  }

  ghost predicate Says(page: string, text: string) {
    exists a, b :: page == a + text + b
  }

  /** The content: the file, or a page that says why there is none. */
  ghost predicate ContentIs(body: string, file: string, env: Environment) {
    if Missing(file, env) then Says(body, "404 Not Found")
    else if !env.stat[file].othersRead then Says(body, "403 Forbidden")
    else if file !in env.opens || file !in env.maps then Says(body, "500 Internal Server Error")
    else body == env.maps[file]
  }

  /** The lines of the head. */
  ghost predicate HeadIs(lines: seq<string>, path: string, file: string, index: Option<string>, version: string,
                         keepAlive: bool, types: map<string, string>, env: Environment) {
    && lines != [] && lines[0] == "HTTP/" + version + " " + StatusOf(file, index, env)
    && (("Location: " + path) in lines <==> Readable(file, env) && index.Some?)
    && ("Connection: Close" in lines <==> Missing(file, env) || (Readable(file, env) && !keepAlive))
    && ("Connection: keep-alive" in lines <==> Readable(file, env) && keepAlive && version != "1.1")
    && (exists kind :: ("Content-type: " + kind) in lines
                       && if Readable(file, env) then KindIs(kind, path, types) else kind == "text/html")
    && ("Cache-Control: max-age=31536000" in lines <==> version == "1.1")
    && "Server: WhiteWebServer" in lines
  }

  // ---------- Which file ----------

  lemma IndexIsFound(root: string, path: string, files: seq<string>, env: Environment, index: Option<string>)
    requires IndexIs(root, path, files, env, index) && path != ""
    ensures index == if path[|path| - 1] == '/' then FindIndex(root + path, files, env) else None
  {
    FirstIndexIsFound(root + path, files, env);
    if path[|path| - 1] == '/' {
      match FindIndex(root + path, files, env)
      case None =>
      case Some(file) =>
        var i :| 0 <= i < |files| && files[i] == file && root + path + file in env.accessible
                 && forall j :: 0 <= j < i ==> root + path + files[j] !in env.accessible;
        if index.Some? {
          var k :| 0 <= k < |files| && files[k] == index.value && root + path + files[k] in env.accessible
                   && forall j :: 0 <= j < k ==> root + path + files[j] !in env.accessible;
          assert i == k;
        }
    }
  }

  lemma FoundIndexIs(root: string, path: string, files: seq<string>, env: Environment) returns (index: Option<string>)
    ensures IndexIs(root, path, files, env, index)
  {
    FirstIndexIsFound(root + path, files, env);
    index := if path != "" && path[|path| - 1] == '/' then FindIndex(root + path, files, env) else None;
  }

  function CodeOf(file: string, index: Option<string>, env: Environment): int {
    if Missing(file, env) then 404
    else if !env.stat[file].othersRead then 403
    else if index.Some? then 301
    else 200
  }

  lemma NotFoundIsPrinted()
    ensures PrintCode(404) + " " + "Not Found" == "404 Not Found"
  {
    ThreeDigits(404, "404");
  }

  lemma ForbiddenIsPrinted()
    ensures PrintCode(403) + " " + "Forbidden" == "403 Forbidden"
  {
    ThreeDigits(403, "403");
  }

  lemma MovedPermanentlyIsPrinted()
    ensures PrintCode(301) + " " + "Moved Permanently" == "301 Moved Permanently"
  {
    ThreeDigits(301, "301");
  }

  lemma OkIsPrinted()
    ensures PrintCode(200) + " " + "OK" == "200 OK"
  {
    ThreeDigits(200, "200");
  }

  /** Code and text on the status line. */
  lemma CodeOfIsStatus(file: string, index: Option<string>, env: Environment)
    ensures var code := CodeOf(file, index, env);
            StatusText(code).Some? && PrintCode(code) + " " + StatusText(code).value == StatusOf(file, index, env)
  {
    NotFoundIsPrinted();
    ForbiddenIsPrinted();
    MovedPermanentlyIsPrinted();
    OkIsPrinted();
  }

  lemma ThreeDigits(n: nat, s: string)
    requires 100 <= n < 1000 && |s| == 3
    requires s[0] as int == n / 100 + '0' as int && s[1] as int == n / 10 % 10 + '0' as int
    requires s[2] as int == n % 10 + '0' as int
    ensures ToDecimal(n) == s
  {
    assert ToDecimal(n / 100) == [s[0]];
    assert n / 10 / 10 == n / 100;
    assert ToDecimal(n / 10) == [s[0]] + [s[1]];
    assert s == [s[0]] + [s[1]] + [s[2]];
  }

  /** Path and code are those that the source chooses. */
  lemma ResolveIs(q: Question, env: Environment, index: Option<string>)
    requires q.code == 200 && q.path != "" && IndexIs(q.srcDir, q.path, q.files, env, index)
    ensures var path := PathWith(q.path, index);
            Resolve(q.code, q.srcDir, q.path, q.files, env) == (path, CodeOf(q.srcDir + path, index, env))
  {
    IndexIsFound(q.srcDir, q.path, q.files, env, index);
  }

  // ---------- The content type ----------

  lemma {:induction false} LastIndexIs(s: string, c: char, k: nat)
    requires k <= |s| && (k < |s| ==> s[k] == c) && forall i :: k < i < |s| ==> s[i] != c
    requires k == |s| ==> c !in s
    ensures LastIndexOf(s, c) == k
    decreases |s|
  {
    if s != "" && k != |s| - 1 {
      var front := s[..|s| - 1];
      assert s[|s| - 1] != c;
      LastIndexIs(front, c, if k == |s| then |front| else k);
    }
  }

  lemma TypeOfPath(code: int, path: string, types: map<string, string>)
    requires code == 200 || code == 301
    ensures KindIs(FileType(code, path, types), path, types)
  {
    if NoneOf(path, {'.'}) {
      LastIndexIs(path, '.', |path|);
    }
    forall stem, suffix | path == stem + "." + suffix && NoneOf(suffix, {'.'})
      ensures FileType(code, path, types) == if "." + suffix in types then types["." + suffix] else "text/plain"
    {
      LastIndexIs(path, '.', |stem|);
      assert path[|stem|..] == "." + suffix;
    }
  }

  // ---------- The lines ----------

  /** A line of a head by what it may be. */
  lemma LinesOfHead(line: string, code: int, version: string, keepAlive: bool, path: string, mime: string, n: nat)
    requires StatusText(code).Some?
    ensures line in Head(code, version, keepAlive, path, mime) + [LengthLine(n)] <==>
            || line == StatusLine(version, code) || line in FirstLines(code, version, keepAlive, path)
            || line == "Content-type: " + mime || (version == "1.1" && line == "Cache-Control: max-age=31536000")
            || line == "Server: WhiteWebServer" || line == LengthLine(n)
  {
  }

  lemma FirstLinesAre(line: string, code: int, version: string, keepAlive: bool, path: string)
    requires code == 404 || code == 403 || code == 301 || code == 200
    ensures line in FirstLines(code, version, keepAlive, path) <==>
            || (code == 404 && line == "Connection: Close")
            || (code == 301 && line == "Location: " + path)
            || ((code == 301 || code == 200) && !keepAlive && line == "Connection: Close")
            || ((code == 301 || code == 200) && keepAlive && version != "1.1"
                && (line == "Connection: keep-alive" || line == "keep-alive: max=6, timeout=120"))
  {
  }

  /** The characters by which the lines of a head differ. */
  lemma LineStarts(code: int, version: string, path: string, mime: string, n: nat)
    requires StatusText(code).Some?
    ensures |StatusLine(version, code)| > 4 && StatusLine(version, code)[0] == 'H'
    ensures var line := "Content-type: " + mime; |line| > 4 && line[0] == 'C' && line[1] == 'o' && line[3] == 't'
    ensures var line := LengthLine(n); |line| > 4 && line[0] == 'C' && line[1] == 'o' && line[3] == 't'
    ensures var line := "Location: " + path; |line| > 4 && line[0] == 'L'
  {
  }

  lemma FixedLines()
    ensures "Connection: Close"[0] == 'C' && "Connection: Close"[1] == 'o' && "Connection: Close"[3] == 'n'
    ensures "Connection: keep-alive"[0] == 'C' && "Connection: keep-alive"[1] == 'o'
    ensures "Connection: keep-alive"[3] == 'n' && |"Connection: keep-alive"| == 22 && |"Connection: Close"| == 17
    ensures "Cache-Control: max-age=31536000"[0] == 'C' && "Cache-Control: max-age=31536000"[1] == 'a'
    ensures "Server: WhiteWebServer"[0] == 'S' && "keep-alive: max=6, timeout=120"[0] == 'k'
  {
  }

  /** The connection lines. */
  lemma ConnectionOfHead(code: int, version: string, keepAlive: bool, path: string, mime: string, n: nat)
    requires code == 404 || code == 403 || code == 301 || code == 200
    ensures var lines := Head(code, version, keepAlive, path, mime) + [LengthLine(n)];
            && ("Connection: Close" in lines <==> code == 404 || ((code == 301 || code == 200) && !keepAlive))
            && ("Connection: keep-alive" in lines <==> (code == 301 || code == 200) && keepAlive && version != "1.1")
  {
    LineStarts(code, version, path, mime, n);
    FixedLines();
    LinesOfHead("Connection: Close", code, version, keepAlive, path, mime, n);
    FirstLinesAre("Connection: Close", code, version, keepAlive, path);
    LinesOfHead("Connection: keep-alive", code, version, keepAlive, path, mime, n);
    FirstLinesAre("Connection: keep-alive", code, version, keepAlive, path);
  }

  /** The other lines. */
  lemma OthersOfHead(code: int, version: string, keepAlive: bool, path: string, mime: string, n: nat)
    requires code == 404 || code == 403 || code == 301 || code == 200
    ensures var lines := Head(code, version, keepAlive, path, mime) + [LengthLine(n)];
            && (("Location: " + path) in lines <==> code == 301)
            && ("Content-type: " + mime) in lines
            && ("Cache-Control: max-age=31536000" in lines <==> version == "1.1")
            && "Server: WhiteWebServer" in lines
  {
    LineStarts(code, version, path, mime, n);
    FixedLines();
    LinesOfHead("Location: " + path, code, version, keepAlive, path, mime, n);
    FirstLinesAre("Location: " + path, code, version, keepAlive, path);
    LinesOfHead("Content-type: " + mime, code, version, keepAlive, path, mime, n);
    LinesOfHead("Cache-Control: max-age=31536000", code, version, keepAlive, path, mime, n);
    FirstLinesAre("Cache-Control: max-age=31536000", code, version, keepAlive, path);
    LinesOfHead("Server: WhiteWebServer", code, version, keepAlive, path, mime, n);
  }

  // ---------- The content ----------

  lemma SaysInside(page: string, a: string, m: string, b: string, c: string, t: string, d: string, e: string,
                   f: string, g: string)
    requires page == a + m + b + m + c + t + d + e + f + g
    ensures Says(page, m)
  {
    assert page == a + m + (b + m + c + t + d + e + f + g);
  }

  lemma PageSays(code: int, message: string)
    requires StatusText(code).Some?
    ensures Says(ErrorPage(code, message), PrintCode(code) + " " + StatusText(code).value)
  {
    var text := PrintCode(code) + " " + StatusText(code).value;
    SaysInside(ErrorPage(code, message), "<html><head><title>", text, "</title></head><body><center><h1>", "</h1><p>",
               message, "</p></center><hr><em><center>", "WhiteWebServer ", "0.01alpha", "</center></em></body></html>");
  }

  lemma ServerErrorIsPrinted()
    ensures PrintCode(500) + " " + "Internal Server Error" == "500 Internal Server Error"
  {
    ThreeDigits(500, "500");
    assert ToDecimal(500) + " " == "500 ";
  }

  lemma ContentOfCode(file: string, index: Option<string>, env: Environment)
    ensures ContentIs(Body(ContentFor(CodeOf(file, index, env), file, env)), file, env)
  {
    var code := CodeOf(file, index, env);
    CodeOfIsStatus(file, index, env);
    PageSays(code, "Cannot open specific file");
    PageSays(500, "Cannot open specific file");
    PageSays(500, "Cannot map specific file");
    ServerErrorIsPrinted();
  }

  // ---------- The reply ----------

  lemma HeadOfCode(file: string, index: Option<string>, version: string, keepAlive: bool, path: string,
                   types: map<string, string>, env: Environment, n: nat)
    ensures var code := CodeOf(file, index, env);
            && StatusText(code).Some?
            && HeadIs(Head(code, version, keepAlive, path, FileType(code, path, types)) + [LengthLine(n)],
                      path, file, index, version, keepAlive, types, env)
  {
    var code := CodeOf(file, index, env);
    var kind := FileType(code, path, types);
    CodeOfIsStatus(file, index, env);
    StatusLineIs(code, version, StatusOf(file, index, env));
    ConnectionOfHead(code, version, keepAlive, path, kind, n);
    OthersOfHead(code, version, keepAlive, path, kind, n);
    if Readable(file, env) {
      TypeOfPath(code, path, types);
    }
  }

  lemma StatusLineIs(code: int, version: string, status: string)
    requires StatusText(code).Some? && PrintCode(code) + " " + StatusText(code).value == status
    ensures StatusLine(version, code) == "HTTP/" + version + " " + status
  {
    var front := "HTTP/" + version + " ";
    assert front + PrintCode(code) + " " + StatusText(code).value == front + (PrintCode(code) + " " + StatusText(code).value);
  }

  /** The answer to a request for `path`. */
  ghost predicate Answers(reply: Reply, root: string, path: string, files: seq<string>, version: string,
                          keepAlive: bool, types: map<string, string>, env: Environment) {
    exists index ::
      && IndexIs(root, path, files, env, index)
      && var found := PathWith(path, index);
         && HeadIs(reply.lines, found, root + found, index, version, keepAlive, types, env)
         && ContentIs(reply.body, root + found, env)
  }

  lemma ReplyAnswers(q: Question, types: map<string, string>, env: Environment, more: string)
    requires q.code == 200 && q.path != ""
    ensures Answers(ReplyTo(q, types, env, more), q.srcDir, q.path, q.files, q.version, q.keepAlive, types, env)
  {
    var index := FoundIndexIs(q.srcDir, q.path, q.files, env);
    ResolveIs(q, env, index);
    var found := PathWith(q.path, index);
    var file := q.srcDir + found;
    var code := CodeOf(file, index, env);
    var content := ContentFor(code, file, env);
    HeadOfCode(file, index, q.version, q.keepAlive, found, types, env, |Body(content)|);
    ContentOfCode(file, index, env);
    assert Respond(q, types, env) == (Head(code, q.version, q.keepAlive, found, FileType(code, found, types)), content);
  }

  lemma StatusesDiffer(front: string, a: string, b: string)
    requires |a| > 3 && |b| > 3 && (a[0] != b[0] || a[2] != b[2])
    ensures front + a != front + b
  {
    assert (front + a)[|front|] == a[0] && (front + b)[|front|] == b[0];
    assert (front + a)[|front| + 2] == a[2] && (front + b)[|front| + 2] == b[2];
  }

  lemma StatusIsIff(front: string, file: string, index: Option<string>, env: Environment)
    ensures var status := front + StatusOf(file, index, env);
            && (status == front + "404 Not Found" <==> Missing(file, env))
            && (status == front + "403 Forbidden" <==> !Missing(file, env) && !env.stat[file].othersRead)
            && (status == front + "301 Moved Permanently" <==> Readable(file, env) && index.Some?)
            && (status == front + "200 OK" <==> Readable(file, env) && index == None)
  {
    StatusesDiffer(front, "404 Not Found", "403 Forbidden");
    StatusesDiffer(front, "404 Not Found", "301 Moved Permanently");
    StatusesDiffer(front, "404 Not Found", "200 OK");
    StatusesDiffer(front, "403 Forbidden", "301 Moved Permanently");
    StatusesDiffer(front, "403 Forbidden", "200 OK");
    StatusesDiffer(front, "301 Moved Permanently", "200 OK");
  }

  /** The status line that a client reads off what is sent, by the file that the path leads to. */
  lemma StatusIff(q: Question, types: map<string, string>, env: Environment, more: string, index: Option<string>)
    returns (reply: Reply)
    requires OneLined(q, types) && SmallFile(q, types, env) && q.code == 200 && q.path != ""
    requires IndexIs(q.srcDir, q.path, q.files, env, index)
    ensures ReadReply(Sent(q, types, env) + more) == Some(reply) && reply.lines != []
    ensures var path := PathWith(q.path, index);
            var file := q.srcDir + path;
            var status, front := reply.lines[0], "HTTP/" + q.version + " ";
            && (status == front + "404 Not Found" <==> file !in env.stat || env.stat[file].isDirectory)
            && (status == front + "403 Forbidden" <==> !Missing(file, env) && !env.stat[file].othersRead)
            && (status == front + "301 Moved Permanently" <==> Readable(file, env) && index.Some?)
            && (status == front + "200 OK" <==> Readable(file, env) && index == None)
            && (Readable(file, env) && index.Some? <==> ("Location: " + path) in reply.lines)
  {
    reply := ReplyTo(q, types, env, more);
    ResponseIsFramed(q, types, env, more);
    ReplyAnswers(q, types, env, more);
    AnsweredWith(reply, q.srcDir, q.path, q.files, q.version, q.keepAlive, types, env, index);
    StatusIsIff("HTTP/" + q.version + " ", q.srcDir + PathWith(q.path, index), index, env);
  }

  /** There is only one index file that it can be, and with it the answer is settled. */
  lemma AnsweredWith(reply: Reply, root: string, path: string, files: seq<string>, version: string, keepAlive: bool,
                     types: map<string, string>, env: Environment, index: Option<string>)
    requires Answers(reply, root, path, files, version, keepAlive, types, env)
    requires path != "" && IndexIs(root, path, files, env, index)
    ensures var found := PathWith(path, index);
            && HeadIs(reply.lines, found, root + found, index, version, keepAlive, types, env)
            && ContentIs(reply.body, root + found, env)
  {
    var i :|
      && IndexIs(root, path, files, env, i)
      && var found := PathWith(path, i);
         && HeadIs(reply.lines, found, root + found, i, version, keepAlive, types, env)
         && ContentIs(reply.body, root + found, env);
    IndexIsFound(root, path, files, env, i);
    IndexIsFound(root, path, files, env, index);
  }

  /** A servable file is sent for its own path. */
  lemma FileIsSent(reply: Reply, root: string, path: string, files: seq<string>, version: string, keepAlive: bool,
                   types: map<string, string>, env: Environment)
    requires Answers(reply, root, path, files, version, keepAlive, types, env)
    requires path != "" && path[|path| - 1] != '/' && Servable(root + path, env)
    ensures reply.lines != [] && reply.lines[0] == "HTTP/" + version + " " + "200 OK"
    ensures reply.body == env.maps[root + path]
  {
    AnsweredWith(reply, root, path, files, version, keepAlive, types, env, None);
  }

  /** For a directory its first index file is sent, with a redirection to it. */
  lemma IndexIsSent(reply: Reply, root: string, path: string, files: seq<string>, version: string, keepAlive: bool,
                    types: map<string, string>, env: Environment, index: string)
    requires Answers(reply, root, path, files, version, keepAlive, types, env)
    requires path != "" && IndexIs(root, path, files, env, Some(index)) && Servable(root + path + index, env)
    ensures reply.lines != [] && reply.lines[0] == "HTTP/" + version + " " + "301 Moved Permanently"
    ensures ("Location: " + (path + index)) in reply.lines && reply.body == env.maps[root + path + index]
  {
    AnsweredWith(reply, root, path, files, version, keepAlive, types, env, Some(index));
    Assoc(root, path, index);
  }

  // ---------- What the head says about the connection ----------

  /** Whether a client may send more, by section 9.3 of RFC 9112. */
  predicate MaySendMore(lines: seq<string>, version: string) {
    if version == "1.1" then "Connection: Close" !in lines else "Connection: keep-alive" in lines
  }

  /**
    What the head says about the connection is what the server goes by, the request's
    own wish, except that a page for a missing file always says "Close", and one for
    a forbidden file never says anything.
   */
  lemma HeadTellsIff(reply: Reply, root: string, path: string, files: seq<string>, version: string, keepAlive: bool,
                     types: map<string, string>, env: Environment, index: Option<string>)
    requires Answers(reply, root, path, files, version, keepAlive, types, env)
    requires path != "" && IndexIs(root, path, files, env, index)
    ensures var file := root + PathWith(path, index);
            MaySendMore(reply.lines, version) == keepAlive <==>
            if Missing(file, env) then !keepAlive
            else if Readable(file, env) then true
            else keepAlive == (version == "1.1")
  {
    AnsweredWith(reply, root, path, files, version, keepAlive, types, env, index);
  }

  // ---------- Refusals ----------

  lemma BadRequestIsPrinted()
    ensures PrintCode(400) + " " + "Bad Request" == "400 Bad Request"
  {
    ThreeDigits(400, "400");
  }

  /** The answer to what was no request; it says nothing about the connection. */
  ghost predicate Refuses(reply: Reply, version: string) {
    && reply.lines != [] && reply.lines[0] == "HTTP/" + version + " " + "400 Bad Request"
    && Says(reply.body, "400 Bad Request")
    && "Connection: Close" !in reply.lines && "Connection: keep-alive" !in reply.lines
  }

  lemma RefusalIs(q: Question, types: map<string, string>, env: Environment, more: string)
    requires q.code == 400
    ensures Refuses(ReplyTo(q, types, env, more), q.version)
  {
    var content := ErrorPage(400, "Cannot open specific file");
    BadRequestIsPrinted();
    StatusLineIs(400, q.version, "400 Bad Request");
    PageSays(400, "Cannot open specific file");
    NoConnectionLines(q.version, q.keepAlive, q.path, "text/html", |content|);
    assert Respond(q, types, env) == (Head(400, q.version, q.keepAlive, q.path, "text/html"), Page(content));
  }

  lemma NoConnectionLines(version: string, keepAlive: bool, path: string, mime: string, n: nat)
    ensures var lines := Head(400, version, keepAlive, path, mime) + [LengthLine(n)];
            "Connection: Close" !in lines && "Connection: keep-alive" !in lines
  {
    LineStarts(400, version, path, mime, n);
    FixedLines();
    LinesOfHead("Connection: Close", 400, version, keepAlive, path, mime, n);
    LinesOfHead("Connection: keep-alive", 400, version, keepAlive, path, mime, n);
  }
}
