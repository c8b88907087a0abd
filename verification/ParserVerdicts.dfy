/**
  Which lines `HttpRequest::Parse` accepts, and what it makes of them, by the
  characters of the line; and with that, when it answers with which code.
 */
module ParserVerdicts {
  import opened Strings
  import opened RequestSpec
  import Messages

  predicate AllOf(s: string, chars: set<char>) {
    forall i :: 0 <= i < |s| ==> s[i] in chars
  }

  /** A run of separators that is as long as it can be between the two texts. */
  predicate Separates(front: string, gap: string, back: string, separators: set<char>) {
    && NoneOf(front, separators) && gap != "" && AllOf(gap, separators)
    && (back != "" ==> back[0] !in separators)
  }

  lemma CutOf(front: string, gap: string, back: string, separators: set<char>)
    requires Separates(front, gap, back, separators)
    ensures Cut(front + gap + back, separators) == Some((front, back))
  {
    var text := front + gap + back;
    FindAnyIs(text, separators, 0, |front|);
    var rest := text[|front| + 1..];
    assert rest == gap[1..] + back;
    SpanEndIs(rest, separators, 0, |gap| - 1);
    assert text[..|front|] == front && rest[|gap| - 1..] == back;
  }

  lemma GapIs(text: string, rest: string, k: nat, n: nat, separators: set<char>)
    requires k + 1 + n <= |text| && rest == text[k + 1..] && text[k] in separators
    requires forall i :: 0 <= i < n ==> rest[i] in separators
    ensures AllOf(text[k..k + 1 + n], separators)
  {
    var gap := text[k..k + 1 + n];
    forall i | 0 <= i < |gap| ensures gap[i] in separators {
      assert i > 0 ==> gap[i] == rest[i - 1];
    }
  }

  lemma CutGives(text: string, separators: set<char>) returns (front: string, gap: string, back: string)
    requires !NoneOf(text, separators)
    ensures text == front + gap + back && Separates(front, gap, back, separators)
    ensures Cut(text, separators) == Some((front, back))
  {
    FindAnyFirst(text, separators, 0);
    var k := FindAny(text, separators, 0);
    var rest := text[k + 1..];
    SpanEndFirst(rest, separators, 0);
    var n := SpanEnd(rest, separators, 0);
    front, gap, back := text[..k], text[k..k + 1 + n], rest[n..];
    GapIs(text, rest, k, n, separators);
    assert back == text[k + 1 + n..];
  }

  lemma NothingToCutIff(text: string, separators: set<char>)
    ensures Cut(text, separators) == None <==> NoneOf(text, separators)
  {
    FindAnyFirst(text, separators, 0);
  }

  // ---------- The request line ----------

  /** The path part of a target: all of it, or from the first '/' behind the scheme and the host. */
  ghost predicate PathIs(target: string, path: string) {
    && path != "" && path[0] == '/'
    && (target == path
        || exists scheme, host ::
             && (EqualNoCase(scheme, "HTTP://") || EqualNoCase(scheme, "HTTPS://"))
             && NoneOf(host, {'/'}) && target == scheme + host + path)
  }

  lemma PathBehindHost(scheme: string, host: string, path: string)
    requires EqualNoCase(scheme, "HTTP://") || EqualNoCase(scheme, "HTTPS://")
    requires NoneOf(host, {'/'}) && path != "" && path[0] == '/'
    ensures PathOf(scheme + host + path) == Some(path)
  {
    var target := scheme + host + path;
    var rest := target[|scheme|..];
    assert rest == host + path;
    FindIs(rest, '/', 0, |host|);
    assert target[|scheme| + |host|..] == path;
    assert ToUpper(target[4]) == ToUpper(scheme[4]);
    assert EqualNoCase(scheme, "HTTP://") ==> HasPrefixNoCase(target, "HTTP://");
    assert EqualNoCase(scheme, "HTTPS://") ==> HasPrefixNoCase(target, "HTTPS://") && !HasPrefixNoCase(target, "HTTP://");
  }

  lemma PathOfIs(target: string, path: string)
    requires PathIs(target, path)
    ensures PathOf(target) == Some(path)
  {
    if target == path {
      assert ToUpper(target[0]) == '/';
    } else {
      var scheme, host :|
        && (EqualNoCase(scheme, "HTTP://") || EqualNoCase(scheme, "HTTPS://"))
        && NoneOf(host, {'/'}) && target == scheme + host + path;
      PathBehindHost(scheme, host, path);
    }
  }

  lemma HostAndPath(target: string, n: nat)
    requires n <= |target|
    requires EqualNoCase(target[..n], "HTTP://") || EqualNoCase(target[..n], "HTTPS://")
    ensures var path := target[n + IndexOf(target[n..], '/')..];
            path != "" ==> PathIs(target, path)
  {
    var rest := target[n..];
    IndexOfFirst(rest, '/');
    var k := IndexOf(rest, '/');
    var scheme, host, path := target[..n], rest[..k], target[n + k..];
    if path != "" {
      assert path[0] == rest[k];
      assert target == scheme + host + path;
    }
  }

  lemma PathOfGives(target: string)
    ensures match PathOf(target)
            case None => HasPrefixNoCase(target, "HTTP://") && '/' !in target[7..]
            case Some(path) => path != "" && path[0] == '/' ==> PathIs(target, path)
  {
    if HasPrefixNoCase(target, "HTTP://") {
      assert EqualNoCase(target[..7], "HTTP://");
      HostAndPath(target, 7);
      IndexOfFirst(target[7..], '/');
    } else if HasPrefixNoCase(target, "HTTPS://") {
      assert EqualNoCase(target[..8], "HTTPS://");
      HostAndPath(target, 8);
    }
  }

  /** Name, target and protocol, with blanks between them. */
  ghost predicate Splits(line: string, name: string, target: string, protocol: string) {
    exists gap, gap2, url ::
      && Separates(name, gap, url, {' ', '\t'}) && line == name + gap + url
      && Separates(target, gap2, protocol, {' ', '\t'}) && url == target + gap2 + protocol
  }

  predicate KnownNames(name: string, protocol: string) {
    && (EqualNoCase(name, "GET") || EqualNoCase(name, "POST"))
    && (EqualNoCase(protocol, "HTTP/1.1") || EqualNoCase(protocol, "HTTP/1.0"))
  }

  /** GET or POST, a target with a path, and one of the two protocols. */
  ghost predicate GoodLine(line: string) {
    exists name, target, protocol, path ::
      Splits(line, name, target, protocol) && KnownNames(name, protocol) && PathIs(target, path)
  }

  /** The same, but with "http://" and nothing but a host as its target. */
  ghost predicate LostLine(line: string) {
    exists name, target, protocol ::
      && Splits(line, name, target, protocol) && KnownNames(name, protocol)
      && HasPrefixNoCase(target, "HTTP://") && '/' !in target[7..]
  }

  lemma SplitIsCut(line: string, name: string, target: string, protocol: string) returns (url: string)
    requires Splits(line, name, target, protocol)
    ensures Cut(line, BLANKS) == Some((name, url)) && Cut(url, BLANKS) == Some((target, protocol))
  {
    var gap, gap2;
    gap, gap2, url :|
      && Separates(name, gap, url, {' ', '\t'}) && line == name + gap + url
      && Separates(target, gap2, protocol, {' ', '\t'}) && url == target + gap2 + protocol;
    CutOf(name, gap, url, BLANKS);
    CutOf(target, gap2, protocol, BLANKS);
  }

  lemma CutIsSplit(line: string, name: string, url: string, target: string, protocol: string)
    requires Cut(line, BLANKS) == Some((name, url)) && Cut(url, BLANKS) == Some((target, protocol))
    ensures Splits(line, name, target, protocol)
  {
    NothingToCutIff(line, BLANKS);
    NothingToCutIff(url, BLANKS);
    var _, gap, _ := CutGives(line, BLANKS);
    var _, gap2, _ := CutGives(url, BLANKS);
    assert Separates(name, gap, url, {' ', '\t'});
    assert Separates(target, gap2, protocol, {' ', '\t'});
  }

  lemma KnownName(name: string)
    requires EqualNoCase(name, "GET") || EqualNoCase(name, "POST")
    ensures Upper(name) == if EqualNoCase(name, "GET") then "GET" else "POST"
  {
  }

  lemma KnownProtocol(protocol: string)
    requires EqualNoCase(protocol, "HTTP/1.1") || EqualNoCase(protocol, "HTTP/1.0")
    ensures protocol[5..] == if EqualNoCase(protocol, "HTTP/1.1") then "1.1" else "1.0"
  {
    var version := if EqualNoCase(protocol, "HTTP/1.1") then "HTTP/1.1" else "HTTP/1.0";
    assert forall i :: 5 <= i < 8 ==> ToUpper(protocol[i]) == version[i];
    assert version[5..] == if EqualNoCase(protocol, "HTTP/1.1") then "1.1" else "1.0";
    assert protocol[5] == '1' && protocol[6] == '.' && protocol[7] == version[7];
  }

  /** What a good request line is parsed to. */
  lemma GoodLineIsParsed(r: Request, line: string, name: string, target: string, protocol: string, path: string)
    requires Splits(line, name, target, protocol) && KnownNames(name, protocol) && PathIs(target, path)
    ensures ParseRequestLine(r, line) ==
            Accepted(r.(method_ := Upper(name), version := protocol[5..], path := path, state := HEADERS))
  {
    var url := SplitIsCut(line, name, target, protocol);
    PathOfIs(target, path);
    KnownName(name);
    KnownProtocol(protocol);
  }

  /** Accepted exactly if it is good, and passed on as a null pointer exactly if only the path is missing. */
  lemma RequestLineIff(r: Request, line: string)
    ensures ParseRequestLine(r, line).Accepted? <==> GoodLine(line)
    ensures ParseRequestLine(r, line).Faulted? <==> LostLine(line)
  {
    if GoodLine(line) {
      var name, target, protocol, path :|
        Splits(line, name, target, protocol) && KnownNames(name, protocol) && PathIs(target, path);
      GoodLineIsParsed(r, line, name, target, protocol, path);
    }
    if LostLine(line) {
      var name, target, protocol :|
        && Splits(line, name, target, protocol) && KnownNames(name, protocol)
        && HasPrefixNoCase(target, "HTTP://") && '/' !in target[7..];
      LostLineFaults(r, line, name, target, protocol);
    }
    if !ParseRequestLine(r, line).Rejected? {
      NotRejectedIsKnown(r, line);
    }
  }

  lemma LostLineFaults(r: Request, line: string, name: string, target: string, protocol: string)
    requires Splits(line, name, target, protocol) && KnownNames(name, protocol)
    requires HasPrefixNoCase(target, "HTTP://") && '/' !in target[7..]
    ensures ParseRequestLine(r, line).Faulted?
  {
    var url := SplitIsCut(line, name, target, protocol);
    IndexOfFirst(target[7..], '/');
  }

  lemma NotRejectedIsKnown(r: Request, line: string)
    requires !ParseRequestLine(r, line).Rejected?
    ensures if ParseRequestLine(r, line).Accepted? then GoodLine(line) else LostLine(line)
  {
    var (name, url) := Cut(line, BLANKS).value;
    var (target, protocol) := Cut(url, BLANKS).value;
    CutIsSplit(line, name, url, target, protocol);
    PathOfGives(target);
    assert KnownNames(name, protocol);
  }

  // ---------- Header fields ----------

  /** A field line is split at its first run of ':', ' ' and tabs. */
  lemma FieldIsParsed(r: Request, key: string, gap: string, value: string)
    requires Separates(key, gap, value, {':', ' ', '\t'})
    ensures ParseHeader(r, key + gap + value) == Accepted(r.(header := r.header[Upper(key) := value]))
  {
    CutOf(key, gap, value, FIELD_SEPARATORS);
  }

  /** A line is refused exactly if it has text but no separator; the blank line ends the head. */
  lemma HeaderIff(r: Request, line: string)
    ensures ParseHeader(r, line).Rejected? <==> line != "" && NoneOf(line, {':', ' ', '\t'})
    ensures !ParseHeader(r, line).Faulted?
    ensures line == "" ==>
              ParseHeader(r, line) == Accepted(r.(state := if "CONTENT-LENGTH" in r.header then BODY else FINISH))
  {
    NothingToCutIff(line, FIELD_SEPARATORS);
  }

  // ---------- The whole parser ----------

  ghost predicate Takes(r: Request, line: string) {
    match r.state
    case REQUEST_LINE => GoodLine(line)
    case HEADERS => line == "" || !NoneOf(line, {':', ' ', '\t'})
    case _ => true
  }

  ghost predicate Refuses(r: Request, line: string) {
    match r.state
    case REQUEST_LINE => !GoodLine(line) && !LostLine(line)
    case HEADERS => line != "" && NoneOf(line, {':', ' ', '\t'})
    case _ => false
  }

  lemma TextIff(r: Request, line: string)
    requires !r.state.BODY?
    ensures ParseText(r, line).Accepted? <==> Takes(r, line)
    ensures ParseText(r, line).Rejected? <==> Refuses(r, line)
  {
    RequestLineIff(r, line);
    HeaderIff(r, line);
  }

  /** Where the parser gets to: the first line that it does not take, the body, or the end. */
  ghost function Stop(r: Request, slack: char, data: string): (Request, char, string)
    decreases |data| + if slack == '\r' then 1 else 0
  {
    if data == "" || r.state.BODY? || !FirstLine(slack, data).Ok? || !Takes(r, LineText(data)) then (r, slack, data)
    else
      TextIff(r, LineText(data));
      var (slack', rest) := Consume(data, FirstLine(slack, data).len);
      Stop(ParseText(r, LineText(data)).r, slack', rest)
  }

  lemma StopTakesLine(r: Request, slack: char, data: string, t: bool) returns (r': Request, slack': char, rest: string)
    requires data != "" && !r.state.BODY? && FirstLine(slack, data).Ok? && Takes(r, LineText(data))
    ensures ParseText(r, LineText(data)) == Accepted(r')
    ensures (slack', rest) == Consume(data, FirstLine(slack, data).len)
    ensures Stop(r, slack, data) == Stop(r', slack', rest) && Run(r, slack, data, t) == Run(r', slack', rest, t)
  {
    TextIff(r, LineText(data));
    var len := FirstLine(slack, data).len;
    r', slack', rest := ParseText(r, LineText(data)).r, Consume(data, len).0, Consume(data, len).1;
    RunTakesLine(r, slack, data, t, len, r');
  }

  /** The bytes are answered with what the last round says of those that it meets. */
  lemma {:induction false} RunIsLastRound(r: Request, slack: char, data: string, t: bool)
    ensures var (r', slack', rest) := Stop(r, slack, data);
            && Run(r, slack, data, t) == Run(r', slack', rest, t)
            && (rest == "" || r'.state.BODY? || !FirstLine(slack', rest).Ok? || !Takes(r', LineText(rest)))
    decreases |data| + if slack == '\r' then 1 else 0
  {
    if data != "" && !r.state.BODY? && FirstLine(slack, data).Ok? && Takes(r, LineText(data)) {
      var r', slack', rest := StopTakesLine(r, slack, data, t);
      RunIsLastRound(r', slack', rest, t);
    }
  }

  /** BAD_REQUEST exactly if the parser stops at a complete line that it refuses. */
  lemma RejectedIff(r: Request, slack: char, data: string, t: bool)
    ensures Run(r, slack, data, t).code == BAD_REQUEST <==>
            var (r', slack', rest) := Stop(r, slack, data);
            rest != "" && !r'.state.BODY? && FirstLine(slack', rest).Ok? && Refuses(r', LineText(rest))
  {
    RunIsLastRound(r, slack, data, t);
    var (r', slack', rest) := Stop(r, slack, data);
    if rest != "" && !r'.state.BODY? && FirstLine(slack', rest).Ok? {
      TextIff(r', LineText(rest));
    }
  }

  /**
    NO_REQUEST exactly if bytes are wanting: before the head is complete, in a line
    without a line end (or with a bare one), or in the body, where a negative length
    is never reached.
   */
  lemma WaitsIff(r: Request, slack: char, data: string, t: bool)
    ensures Run(r, slack, data, t).code == NO_REQUEST <==>
            var (r', slack', rest) := Stop(r, slack, data);
            if rest == "" then !r'.state.FINISH?
            else if r'.state.BODY? then
              var n := ContentLength(r'); n.Some? && (n.value < 0 || |rest| < n.value)
            else !FirstLine(slack', rest).Ok?
  {
    RunIsLastRound(r, slack, data, t);
    var (r', slack', rest) := Stop(r, slack, data);
    if rest != "" && !r'.state.BODY? && FirstLine(slack', rest).Ok? {
      TextIff(r', LineText(rest));
    }
  }

  /** A request that is finished with a body has all that was unread, up to a NUL, and swallows it. */
  lemma FinishedBodyIs(r: Request, slack: char, data: string, t: bool)
    requires var (r', _, rest) := Stop(r, slack, data); rest != "" && r'.state.BODY?
    requires Run(r, slack, data, t).code == GET_REQUEST
    ensures var o, rest := Run(r, slack, data, t), Stop(r, slack, data).2;
            o.rest == "" && o.r.body == if '\0' in rest then rest[..IndexOf(rest, '\0')] else rest
  {
    RunIsLastRound(r, slack, data, t);
    var (r', slack', rest) := Stop(r, slack, data);
    BodyIsAll(r', slack', rest, t);
  }

  lemma BodyIsAll(r: Request, slack: char, data: string, t: bool)
    requires data != "" && r.state.BODY? && Run(r, slack, data, t).code == GET_REQUEST
    ensures var o := Run(r, slack, data, t);
            o.rest == "" && o.r.body == if '\0' in data then data[..IndexOf(data, '\0')] else data
  {
    CStringIsPrefix(data);
  }

  // ---------- From the first byte on ----------

  /** A first line that is not good, whatever follows it. */
  lemma BadStartIsRejected(line: string, slack: char, rest: string, t: bool)
    requires NoneOf(line, Messages.LINE_BREAKERS) && !GoodLine(line) && !LostLine(line)
    ensures Run(Fresh, slack, line + "\r\n" + rest, t).code == BAD_REQUEST
  {
    Messages.LineThenRest(slack, line, rest);
    RequestLineIff(Fresh, line);
  }

  /** A line without a separator behind any good fields, whatever follows it. */
  lemma BadFieldIsRejected(m: Messages.Message, line: string, slack: char, rest: string, t: bool)
    requires Messages.Printable(m) && line != "" && NoneOf(line, {'\0', '\n', ':', ' ', '\t'})
    ensures var data := Messages.RequestLine(m) + "\r\n" + (Messages.PrintFields(m.fields) + (line + "\r\n" + rest));
            Run(Fresh, slack, data, t).code == BAD_REQUEST
  {
    var r1 := Fresh.(method_ := m.method_, path := m.path, version := m.version, state := HEADERS);
    var r2 := r1.(header := Messages.HeaderOf(m.fields, map[]));
    var last := line + "\r\n" + rest;
    Messages.ParsePrintedStart(Fresh, m);
    Messages.StartIsOneLine(m);
    Messages.TakePrintedLine(Fresh, slack, Messages.RequestLine(m), Messages.PrintFields(m.fields) + last, t, r1);
    Messages.TakePrintedFields(r1, m.fields, Messages.PrintFields(m.fields) + last, last);
    Messages.LineThenRest('\0', line, rest);
    HeaderIff(r2, line);
  }

  // ---------- Bodies that are no forms ----------

  predicate IsForm(r: Request) {
    "CONTENT-TYPE" in r.header && HasPrefixNoCase(r.header["CONTENT-TYPE"], "APPLICATION/X-WWW-FORM-URLENCODED")
  }

  /** JSON text is kept for the library's reader, and any other body is only a body. */
  lemma PostedText(m: Messages.Message, slack: char)
    requires Messages.Printable(m) && Messages.Framed(m) && m.body != "" && '\0' !in m.body
    requires !IsForm(Messages.BeforeBody(m))
    ensures var o, header := Run(Fresh, slack, Messages.Print(m), true), Messages.HeaderOf(m.fields, map[]);
            var kind := if "CONTENT-TYPE" in header then header["CONTENT-TYPE"] else "";
            && o.code == GET_REQUEST && o.rest == "" && o.r.body == m.body
            && o.r.header == header["CONTENT-TYPE" := kind]
            && o.r.post == if HasPrefixNoCase(kind, "APPLICATION/JSON") then JsonText(m.body) else Empty
  {
    Messages.PrintedIsParsed(m, slack, true);
    CStringIsPrefix(m.body);
    TextIsKept(Messages.BeforeBody(m), m.body);
  }

  lemma TextIsKept(r: Request, body: string)
    requires r.state.BODY? && r.post == Empty && body != "" && CString(body) == body
    requires ContentLength(r) == Some(|body|) && !IsForm(r)
    ensures var o := Run(r, '\0', body, true);
            var kind := if "CONTENT-TYPE" in r.header then r.header["CONTENT-TYPE"] else "";
            && o.code == GET_REQUEST && o.rest == "" && o.r.body == body
            && o.r.header == r.header["CONTENT-TYPE" := kind]
            && o.r.post == if HasPrefixNoCase(kind, "APPLICATION/JSON") then JsonText(body) else Empty
  {
    var kind := if "CONTENT-TYPE" in r.header then r.header["CONTENT-TYPE"] else "";
    assert WithContentType(r.header) == r.header["CONTENT-TYPE" := kind];
    assert "CONTENT-TYPE" !in r.header ==> !HasPrefixNoCase(kind, "APPLICATION/X-WWW-FORM-URLENCODED");
  }
}
