/**
  What `HttpResponse` writes, and what a client reads: section 6.3 of RFC 9112
  with a Content-Length field.
 */
module ResponseSpec {
  import opened Strings

  // ---------- The system's answers ----------

  datatype Stat = Stat(isDirectory: bool, othersRead: bool, size: nat)

  /** The outcomes of `access`, `stat`, `open` and `mmap` for every path; they need not fit together. */
  datatype Environment = Environment(
    accessible: set<string>, stat: map<string, Stat>, opens: set<string>, maps: map<string, string>)

  /** A mapping has the size that was asked for, and a size is an `off_t`. */
  ghost predicate Honest(env: Environment) {
    && (forall p :: p in env.maps && p in env.stat ==> |env.maps[p]| == env.stat[p].size)
    && (forall p :: p in env.stat ==> env.stat[p].size < 0x8000_0000_0000_0000)
  }

  // ---------- Choosing the answer ----------

  /** The first index file that exists in a directory. */
  function FindIndex(dir: string, files: seq<string>, env: Environment): Option<string> {
    if files == [] then None
    else if dir + files[0] in env.accessible then Some(files[0])
    else FindIndex(dir, files[1..], env)
  }

  predicate WantsFile(code: int) {
    code == 200 || code == 301 || code == 302 || code == 303 || code == 304
  }

  /** The path and the code for the status line; an empty path is outside what the source defines. */
  function Resolve(code: int, srcDir: string, path: string, files: seq<string>, env: Environment): (string, int)
  {
    if !WantsFile(code) then (path, code)
    else
      var index := if path != "" && path[|path| - 1] == '/' then FindIndex(srcDir + path, files, env) else None;
      var path' := if index.Some? then path + index.value else path;
      var code' := if index.Some? then 301 else code;
      var file := srcDir + path';
      if file !in env.stat || env.stat[file].isDirectory then (path', 404)
      else if !env.stat[file].othersRead then (path', 403)
      else (path', code')
  }

  /** `kCodeStatus`. */
  function StatusText(code: int): Option<string> {
    match code
    case 200 => Some("OK")
    case 204 => Some("No Content")
    case 206 => Some("Partial Content")
    case 301 => Some("Moved Permanently")
    case 302 => Some("Found")
    case 303 => Some("See Other")
    case 304 => Some("Not Modified")
    case 307 => Some("Temporary redirect")
    case 401 => Some("Unauthorized")
    case 400 => Some("Bad Request")
    case 403 => Some("Forbidden")
    case 404 => Some("Not Found")
    case 500 => Some("Internal Server Error")
    case 503 => Some("Service Unavailable")
    case _ => None
  }

  function PrintCode(code: int): string {
    if code < 0 then "-" + ToDecimal(-code) else ToDecimal(code)
  }

  // ---------- Sizes ----------

  /** A `size_t` or file size as an `int`, and the `size_t` that is made of the `int`. */
  function ToInt(size: nat): int {
    var low := size % 0x1_0000_0000;
    if low <= INT_MAX then low else low - 0x1_0000_0000
  }

  function ToSize(n: int): int {
    if n < 0 then n + 0x1_0000_0000_0000_0000 else n
  }

  /** A file's size survives the way through `FileSize` exactly when it is an `int`. */
  lemma FileSizeIsExactIff(size: nat)
    requires size < 0x8000_0000_0000_0000
    ensures ToSize(ToInt(size)) == size <==> size <= INT_MAX
  {
    assert size == size / 0x1_0000_0000 * 0x1_0000_0000 + size % 0x1_0000_0000;
  }

  // ---------- Header ----------

  function StatusLine(version: string, code: int): string
    requires StatusText(code).Some?
  {
    "HTTP/" + version + " " + PrintCode(code) + " " + StatusText(code).value
  }

  function ConnectionLines(version: string, keepAlive: bool): seq<string> {
    if version == "1.1" && keepAlive then []
    else if keepAlive then ["Connection: keep-alive", "keep-alive: max=6, timeout=120"]
    else ["Connection: Close"]
  }

  function FirstLines(code: int, version: string, keepAlive: bool, path: string): seq<string> {
    if code == 404 then ["Connection: Close"]
    else if code == 301 then ["Location: " + path] + ConnectionLines(version, keepAlive)
    else if WantsFile(code) then ConnectionLines(version, keepAlive)
    else []
  }

  function HeaderLines(code: int, version: string, keepAlive: bool, path: string, mime: string): seq<string> {
    FirstLines(code, version, keepAlive, path)
    + ["Content-type: " + mime]
    + (if version == "1.1" then ["Cache-Control: max-age=31536000"] else [])
    + ["Server: WhiteWebServer"]
  }

  /** `find_last_of`, or `|s|`. */
  function LastIndexOf(s: string, c: char): (k: nat)
    ensures k <= |s|
  {
    if s == "" then 0
    else if s[|s| - 1] == c then |s| - 1
    else
      var k := LastIndexOf(s[..|s| - 1], c);
      if k == |s| - 1 then |s| else k
  }

  /** `GetFileType`; `types` is `kSuffixType`. */
  function FileType(code: int, path: string, types: map<string, string>): string {
    if code == 503 || code == 500 || code == 401 || code == 403 || code == 502 || code == 400 || code == 404 then
      "text/html"
    else
      var suffix := path[LastIndexOf(path, '.')..];
      if suffix != "" && suffix in types then types[suffix] else "text/plain"
  }

  /** The lines in front of the Content-Length. */
  function Head(code: int, version: string, keepAlive: bool, path: string, mime: string): seq<string>
    requires StatusText(code).Some?
  {
    [StatusLine(version, code)] + HeaderLines(code, version, keepAlive, path, mime)
  }

  function LengthLine(n: nat): string {
    "Content-Length: " + ToDecimal(n)
  }

  function LinesText(lines: seq<string>): string {
    if lines == [] then "" else lines[0] + "\r\n" + LinesText(lines[1..])
  }

  // ---------- Content ----------

  function ErrorPage(code: int, message: string): string {
    var status := if StatusText(code).Some? then StatusText(code).value else "Bad Request";
    var msg := PrintCode(code) + " " + status;
    "<html><head><title>" + msg + "</title></head><body><center><h1>" + msg + "</h1><p>" + message
    + "</p></center><hr><em><center>" + "WhiteWebServer " + "0.01alpha" + "</center></em></body></html>"
  }

  /** Either a page in the buffer or a mapped file. */
  datatype Content = Page(page: string) | File(bytes: string)

  function ContentFor(code: int, file: string, env: Environment): Content {
    if !WantsFile(code) then Page(ErrorPage(code, "Cannot open specific file"))
    else if file !in env.opens then Page(ErrorPage(500, "Cannot open specific file"))
    else if file !in env.maps then Page(ErrorPage(500, "Cannot map specific file"))
    else File(env.maps[file])
  }

  // ---------- Response ----------

  /** What `HttpResponse::Init` is given. */
  datatype Question = Question(
    srcDir: string, path: string, files: seq<string>, version: string, keepAlive: bool, code: int)

  /** The head as it is determined before the content is opened, and the content. */
  function Respond(q: Question, types: map<string, string>, env: Environment): (seq<string>, Content)
  {
    var (path, resolved) := Resolve(q.code, q.srcDir, q.path, q.files, env);
    var code := if StatusText(resolved).None? then 400 else resolved;
    (Head(code, q.version, q.keepAlive, path, FileType(code, path, types)), ContentFor(code, q.srcDir + path, env))
  }

  function Body(c: Content): string {
    match c
    case Page(page) => page
    case File(bytes) => bytes
  }

  /** What is sent for a head and a body. */
  function Wire(head: seq<string>, body: string): string {
    LinesText(head + [LengthLine(|body|)]) + ("\r\n" + body)
  }

  // ---------- Reading a reply ----------

  datatype Reply = Reply(lines: seq<string>, body: string, rest: string)

  /** The lines up to the first empty one, each ended by CRLF. */
  function ReadLines(s: string): Option<(seq<string>, string)>
    decreases |s|
  {
    var lf := IndexOf(s, '\n');
    if lf == 0 || lf == |s| || s[lf - 1] != '\r' then None
    else if lf == 1 then Some(([], s[2..]))
    else
      match ReadLines(s[lf + 1..])
      case None => None
      case Some((lines, rest)) => Some(([s[..lf - 1]] + lines, rest))
  }

  const LENGTH_FIELD := "CONTENT-LENGTH:"

  /** The values of all Content-Length fields. */
  function LengthFields(lines: seq<string>): seq<Option<int>> {
    if lines == [] then []
    else
      (if HasPrefixNoCase(lines[0], LENGTH_FIELD) then [Stoi(lines[0][|LENGTH_FIELD|..])] else [])
      + LengthFields(lines[1..])
  }

  /** One reply off the front of a stream; it must have one valid Content-Length, which says how long the body is. */
  function ReadReply(s: string): Option<Reply> {
    match ReadLines(s)
    case None => None
    case Some((lines, rest)) =>
      var lengths := LengthFields(lines);
      if |lengths| != 1 || lengths[0].None? || !(0 <= lengths[0].value <= |rest|) then None
      else Some(Reply(lines, rest[..lengths[0].value], rest[lengths[0].value..]))
  }

  // ---------- The framing theorem ----------

  /** A line that may stand in a head beside the Content-Length. */
  predicate PlainLine(line: string) {
    line != "" && NoneOf(line, {'\n'}) && !HasPrefixNoCase(line, LENGTH_FIELD)
  }

  lemma ReadOneLine(line: string, rest: string)
    requires NoneOf(line, {'\n'})
    ensures var s := line + "\r\n" + rest;
            ReadLines(s) ==
            if line == "" then Some(([], rest))
            else match ReadLines(rest) case None => None case Some((lines, r)) => Some(([line] + lines, r))
  {
    var s := line + "\r\n" + rest;
    FindIs(s, '\n', 0, |line| + 1);
    assert s[..|line|] == line;
    assert s[|line| + 2..] == rest;
  }

  lemma {:induction false} ReadWrittenLines(lines: seq<string>, body: string)
    requires forall i :: 0 <= i < |lines| ==> lines[i] != "" && NoneOf(lines[i], {'\n'})
    ensures ReadLines(LinesText(lines) + ("\r\n" + body)) == Some((lines, body))
    decreases |lines|
  {
    if lines == [] {
      assert LinesText([]) + ("\r\n" + body) == "" + "\r\n" + body;
      ReadOneLine("", body);
    } else {
      var rest := LinesText(lines[1..]) + ("\r\n" + body);
      ReadWrittenLines(lines[1..], body);
      Assoc(lines[0] + "\r\n", LinesText(lines[1..]), "\r\n" + body);
      ReadOneLine(lines[0], rest);
      assert [lines[0]] + lines[1..] == lines;
    }
  }

  lemma {:induction false} LengthFieldsOfHead(head: seq<string>, n: nat)
    requires forall i :: 0 <= i < |head| ==> PlainLine(head[i])
    requires n <= INT_MAX
    ensures LengthFields(head + [LengthLine(n)]) == [Some(n)]
    decreases |head|
  {
    if head == [] {
      assert head + [LengthLine(n)] == [LengthLine(n)];
      LengthLineIsRead(n);
      assert [LengthLine(n)][1..] == [];
    } else {
      assert (head + [LengthLine(n)])[1..] == head[1..] + [LengthLine(n)];
      LengthFieldsOfHead(head[1..], n);
    }
  }

  lemma LengthLineIsRead(n: nat)
    requires n <= INT_MAX
    ensures HasPrefixNoCase(LengthLine(n), LENGTH_FIELD)
    ensures Stoi(LengthLine(n)[|LENGTH_FIELD|..]) == Some(n)
    ensures LengthLine(n) != "" && NoneOf(LengthLine(n), {'\n'})
  {
    var name, digits := "Content-Length: ", ToDecimal(n);
    LengthNameIsRead();
    DecimalRoundTrip(n);
    assert LengthLine(n)[15..] == " " + digits;
    StoiOfDecimal(n);
    StoiSkipsSpace(digits);
  }

  lemma LengthNameIsRead()
    ensures HasPrefixNoCase("Content-Length: ", LENGTH_FIELD) && |LENGTH_FIELD| == 15
    ensures |"Content-Length: "| == 16 && "Content-Length: "[15] == ' '
    ensures NoneOf("Content-Length: ", {'\n'})
  {
  }

  lemma StoiSkipsSpace(s: string)
    requires s != "" && !IsSpace(s[0])
    ensures Stoi(" " + s) == Stoi(s)
  {
    var t := " " + s;
    assert t[1..] == s;
    assert SpaceRun(s) == 0 && SpaceRun(t) == 1;
    assert s[0..] == s;
  }

  lemma ReadReplyIs(s: string, lines: seq<string>, body: string, more: string, n: int)
    requires ReadLines(s) == Some((lines, body + more)) && LengthFields(lines) == [Some(n)] && n == |body|
    ensures ReadReply(s) == Some(Reply(lines, body, more))
  {
    assert (body + more)[..n] == body && (body + more)[n..] == more;
  }

  /** A client that reads what is sent gets the head and exactly the body, and leaves what is sent after it. */
  lemma FramingTheorem(head: seq<string>, body: string, more: string)
    requires forall i :: 0 <= i < |head| ==> PlainLine(head[i])
    requires |body| <= INT_MAX
    ensures ReadReply(Wire(head, body) + more) == Some(Reply(head + [LengthLine(|body|)], body, more))
  {
    var lines := head + [LengthLine(|body|)];
    LengthLineIsRead(|body|);
    assert Wire(head, body) + more == LinesText(lines) + ("\r\n" + (body + more));
    ReadWrittenLines(lines, body + more);
    LengthFieldsOfHead(head, |body|);
    ReadReplyIs(Wire(head, body) + more, lines, body, more, |body|);
  }

  // ---------- The lines that are written are plain ----------

  lemma CloseIsPlain()
    ensures PlainLine("Connection: Close")
  {
    assert ToUpper("Connection: Close"[3]) == 'N';
  }

  lemma KeepAliveIsPlain()
    ensures PlainLine("Connection: keep-alive")
  {
    assert ToUpper("Connection: keep-alive"[3]) == 'N';
  }

  lemma KeepAliveLimitsArePlain()
    ensures PlainLine("keep-alive: max=6, timeout=120")
  {
    assert ToUpper("keep-alive: max=6, timeout=120"[0]) == 'K';
  }

  lemma FirstLinesArePlain(code: int, version: string, keepAlive: bool, path: string)
    requires NoneOf(path, {'\n'})
    ensures forall i :: 0 <= i < |FirstLines(code, version, keepAlive, path)| ==>
              PlainLine(FirstLines(code, version, keepAlive, path)[i])
  {
    CloseIsPlain();
    KeepAliveIsPlain();
    KeepAliveLimitsArePlain();
    var location := "Location: " + path;
    assert PlainLine(location) by {
      assert NoneOf("Location: ", {'\n'});
      assert ToUpper(location[0]) == 'L';
    }
  }

  lemma OtherLinesArePlain(mime: string)
    requires NoneOf(mime, {'\n'})
    ensures PlainLine("Content-type: " + mime)
    ensures PlainLine("Cache-Control: max-age=31536000")
    ensures PlainLine("Server: WhiteWebServer")
  {
    assert NoneOf("Content-type: ", {'\n'});
    assert ToUpper(("Content-type: " + mime)[8]) == 'T';
    assert ToUpper("Cache-Control: max-age=31536000"[1]) == 'A';
    assert ToUpper("Server: WhiteWebServer"[0]) == 'S';
  }

  lemma StatusLineIsPlain(version: string, code: int)
    requires StatusText(code).Some? && NoneOf(version, {'\n'})
    ensures PlainLine(StatusLine(version, code))
  {
    var text := StatusText(code).value;
    assert code >= 0;
    assert NoneOf(text, {'\n'}) by { StatusTextIsPlain(code); }
    DecimalRoundTrip(code);
    assert NoneOf(PrintCode(code), {'\n'});
    assert NoneOf("HTTP/", {'\n'});
    assert ToUpper(StatusLine(version, code)[0]) == 'H';
  }

  lemma StatusTextIsPlain(code: int)
    requires StatusText(code).Some?
    ensures NoneOf(StatusText(code).value, {'\n'})
  {
    match code
    case 200 => assert NoneOf("OK", {'\n'});
    case 204 => assert NoneOf("No Content", {'\n'});
    case 206 => assert NoneOf("Partial Content", {'\n'});
    case 301 => assert NoneOf("Moved Permanently", {'\n'});
    case 302 => assert NoneOf("Found", {'\n'});
    case 303 => assert NoneOf("See Other", {'\n'});
    case 304 => assert NoneOf("Not Modified", {'\n'});
    case 307 => assert NoneOf("Temporary redirect", {'\n'});
    case 401 => assert NoneOf("Unauthorized", {'\n'});
    case 400 => assert NoneOf("Bad Request", {'\n'});
    case 403 => assert NoneOf("Forbidden", {'\n'});
    case 404 => assert NoneOf("Not Found", {'\n'});
    case 500 => assert NoneOf("Internal Server Error", {'\n'});
    case 503 => assert NoneOf("Service Unavailable", {'\n'});
    case _ =>
  }

  lemma HeadIsPlain(code: int, version: string, keepAlive: bool, path: string, mime: string)
    requires StatusText(code).Some?
    requires NoneOf(version, {'\n'}) && NoneOf(path, {'\n'}) && NoneOf(mime, {'\n'})
    ensures var head := Head(code, version, keepAlive, path, mime);
            forall i :: 0 <= i < |head| ==> PlainLine(head[i])
  {
    StatusLineIsPlain(version, code);
    FirstLinesArePlain(code, version, keepAlive, path);
    OtherLinesArePlain(mime);
  }

  // ---------- Which content is sent ----------

  lemma {:induction false} FirstIndexIsFound(dir: string, files: seq<string>, env: Environment)
    ensures match FindIndex(dir, files, env)
            case None => forall i :: 0 <= i < |files| ==> dir + files[i] !in env.accessible
            case Some(f) =>
              exists i :: 0 <= i < |files| && files[i] == f && dir + f in env.accessible
                          && forall j :: 0 <= j < i ==> dir + files[j] !in env.accessible
  {
    if files != [] && dir + files[0] !in env.accessible {
      FirstIndexIsFound(dir, files[1..], env);
      var index := FindIndex(dir, files[1..], env);
      if index.Some? {
        var i :| 0 <= i < |files[1..]| && files[1..][i] == index.value
                 && forall j :: 0 <= j < i ==> dir + files[1..][j] !in env.accessible;
        assert files[i + 1] == index.value;
        forall j | 0 <= j < i + 1 ensures dir + files[j] !in env.accessible {
          assert j > 0 ==> files[j] == files[1..][j - 1];
        }
      } else {
        forall j | 0 <= j < |files| ensures dir + files[j] !in env.accessible {
          assert j > 0 ==> files[j] == files[1..][j - 1];
        }
      }
    }
  }

  /** A regular file that others may read, and that can be opened and mapped. */
  predicate Servable(file: string, env: Environment) {
    file in env.stat && !env.stat[file].isDirectory && env.stat[file].othersRead
    && file in env.opens && file in env.maps
  }

  /** The path is the requested one, or that of an index file in it, to which 301 redirects. */
  lemma ResolvedPath(srcDir: string, path: string, files: seq<string>, env: Environment)
    ensures var (path', code) := Resolve(200, srcDir, path, files, env);
            if path' == path then code != 301 || "" in files
            else path <= path' && path'[|path|..] in files && code != 200
  {
    FirstIndexIsFound(srcDir + path, files, env);
  }

  lemma ResolvedIff(srcDir: string, path: string, files: seq<string>, env: Environment)
    ensures var (path', code) := Resolve(200, srcDir, path, files, env);
            var file := srcDir + path';
            && StatusText(code).Some?
            && (WantsFile(code) <==> file in env.stat && !env.stat[file].isDirectory && env.stat[file].othersRead)
  {
  }

  lemma ContentIsFileIff(code: int, file: string, env: Environment)
    ensures var c := ContentFor(code, file, env);
            && (c.File? <==> WantsFile(code) && file in env.opens && file in env.maps)
            && (c.File? ==> c.bytes == env.maps[file])
  {
  }

  /** A file is sent exactly if it is servable. */
  lemma FileIsServedIff(q: Question, types: map<string, string>, env: Environment)
    requires q.code == 200
    ensures var file := q.srcDir + Resolve(q.code, q.srcDir, q.path, q.files, env).0;
            var content := Respond(q, types, env).1;
            (content.File? <==> Servable(file, env)) && (content.File? ==> content.bytes == env.maps[file])
  {
    var (path, code) := Resolve(200, q.srcDir, q.path, q.files, env);
    ResolvedIff(q.srcDir, q.path, q.files, env);
    ContentIsFileIff(code, q.srcDir + path, env);
    assert Respond(q, types, env).1 == ContentFor(code, q.srcDir + path, env);
  }

  // ---------- Every response is framed ----------

  lemma PageIsShort(code: int, message: string)
    requires StatusText(code).Some? && |message| <= 1000
    ensures |ErrorPage(code, message)| <= INT_MAX
  {
    assert 0 <= code < 1000;
    assert |ToDecimal(code)| <= 3 by {
      assert |ToDecimal(code / 10 / 10)| == 1;
    }
    assert |StatusText(code).value| <= 30;
  }

  lemma {:induction false} IndexIsPlain(dir: string, files: seq<string>, env: Environment)
    requires forall i :: 0 <= i < |files| ==> NoneOf(files[i], {'\n'})
    ensures var index := FindIndex(dir, files, env); index.Some? ==> NoneOf(index.value, {'\n'})
  {
    if files != [] {
      IndexIsPlain(dir, files[1..], env);
    }
  }

  lemma PathIsPlain(q: Question, env: Environment)
    requires NoneOf(q.path, {'\n'}) && forall i :: 0 <= i < |q.files| ==> NoneOf(q.files[i], {'\n'})
    ensures NoneOf(Resolve(q.code, q.srcDir, q.path, q.files, env).0, {'\n'})
  {
    IndexIsPlain(q.srcDir + q.path, q.files, env);
  }

  lemma TypeIsPlain(code: int, path: string, types: map<string, string>)
    requires forall t :: t in types ==> NoneOf(types[t], {'\n'})
    ensures NoneOf(FileType(code, path, types), {'\n'})
  {
    assert NoneOf("text/html", {'\n'}) && NoneOf("text/plain", {'\n'});
  }

  lemma PagesAreShort(code: int, file: string, env: Environment)
    requires StatusText(code).Some?
    ensures var c := ContentFor(code, file, env); c.Page? ==> |c.page| <= INT_MAX
  {
    PageIsShort(code, "Cannot open specific file");
    PageIsShort(500, "Cannot open specific file");
    PageIsShort(500, "Cannot map specific file");
  }

  /** The texts that end up in a head. */
  ghost predicate OneLined(q: Question, types: map<string, string>) {
    && NoneOf(q.path, {'\n'}) && NoneOf(q.version, {'\n'})
    && (forall i :: 0 <= i < |q.files| ==> NoneOf(q.files[i], {'\n'}))
    && (forall t :: t in types ==> NoneOf(types[t], {'\n'}))
  }

  /** The reply that a client should read, with `more` still to come. */
  function ReplyTo(q: Question, types: map<string, string>, env: Environment, more: string): Reply {
    var (head, content) := Respond(q, types, env);
    Reply(head + [LengthLine(|Body(content)|)], Body(content), more)
  }

  /** What is sent in answer to `q`. */
  function Sent(q: Question, types: map<string, string>, env: Environment): string {
    var (head, content) := Respond(q, types, env);
    Wire(head, Body(content))
  }

  /** If a file is sent, its size is an `int`. */
  predicate SmallFile(q: Question, types: map<string, string>, env: Environment) {
    var (_, content) := Respond(q, types, env);
    content.File? ==> |content.bytes| <= INT_MAX
  }

  /**
    Whatever `access`, `stat`, `open` and `mmap` answer, a client that is sent the
    response reads its head and its body, and stops where they end.
   */
  lemma ResponseIsFramed(q: Question, types: map<string, string>, env: Environment, more: string)
    requires OneLined(q, types) && SmallFile(q, types, env)
    ensures ReadReply(Sent(q, types, env) + more) == Some(ReplyTo(q, types, env, more))
  {
    var (path, resolved) := Resolve(q.code, q.srcDir, q.path, q.files, env);
    var code := if StatusText(resolved).None? then 400 else resolved;
    PathIsPlain(q, env);
    TypeIsPlain(code, path, types);
    HeadIsPlain(code, q.version, q.keepAlive, path, FileType(code, path, types));
    PagesAreShort(code, q.srcDir + path, env);
    FramingTheorem(Respond(q, types, env).0, Body(Respond(q, types, env).1), more);
  }
}
