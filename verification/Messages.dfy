/**
  Requests as text: how a request is written (`MakeProxyRequests`), and that the
  parser reads back what was written.
 */
module Messages {
  import opened Strings
  import opened RequestSpec
  import Form
  import Fragmentation

  type Field = (string, string)

  datatype Message = Message(method_: string, path: string, version: string, fields: seq<Field>, body: string)

  const LINE_BREAKERS := {'\0', '\n'}

  function FieldLine(f: Field): string {
    f.0 + ": " + f.1
  }

  function PrintField(f: Field): string {
    FieldLine(f) + "\r\n"
  }

  function PrintFields(fields: seq<Field>): string {
    if fields == [] then "" else PrintField(fields[0]) + PrintFields(fields[1..])
  }

  function RequestLine(m: Message): string {
    m.method_ + " " + m.path + " HTTP/" + m.version
  }

  function Print(m: Message): string {
    RequestLine(m) + "\r\n" + (PrintFields(m.fields) + ("\r\n" + m.body))
  }

  // ---------- What can be written ----------

  predicate GoodKey(key: string) {
    NoneOf(key, FIELD_SEPARATORS + LINE_BREAKERS)
  }

  predicate GoodValue(value: string) {
    NoneOf(value, LINE_BREAKERS) && (value != "" ==> value[0] !in FIELD_SEPARATORS)
  }

  predicate GoodStart(method_: string, path: string, version: string) {
    && (method_ == "GET" || method_ == "POST")
    && (version == "1.1" || version == "1.0")
    && path != "" && path[0] == '/' && NoneOf(path, BLANKS + LINE_BREAKERS)
  }

  predicate Printable(m: Message) {
    && GoodStart(m.method_, m.path, m.version)
    && forall i :: 0 <= i < |m.fields| ==> GoodKey(m.fields[i].0) && GoodValue(m.fields[i].1)
  }

  /** The header map that field lines leave behind: upper-cased keys, the last value wins. */
  function HeaderOf(fields: seq<Field>, acc: map<string, string>): map<string, string> {
    if fields == [] then acc else HeaderOf(fields[1..], acc[Upper(fields[0].0) := fields[0].1])
  }

  /** The request once the blank line is read. */
  function BeforeBody(m: Message): Request {
    var header := HeaderOf(m.fields, map[]);
    Request(if "CONTENT-LENGTH" in header then BODY else FINISH, m.method_, m.path, m.version, "", header, Empty)
  }

  // ---------- Reading it back ----------

  lemma LineThenRest(slack: char, line: string, rest: string)
    requires NoneOf(line, LINE_BREAKERS)
    ensures var data := line + "\r\n" + rest;
            && IndexOf(data, '\n') == |line| + 1 && data[|line|] == '\r' && data[0] != '\n'
            && FirstLine(slack, data) == Ok(|line| + 2)
            && LineText(data) == line
            && Consume(data, |line| + 2) == ('\0', rest)
  {
    var data := line + "\r\n" + rest;
    FindIs(data, '\n', 0, |line| + 1);
    assert data[..|line|] == line;
    CStringIsPrefix(line);
    assert data[|line| + 2..] == rest;
  }

  lemma CutAt(front: string, separators: set<char>, separator: char, back: string)
    requires NoneOf(front, separators) && separator in separators
    requires SkipSpan(back, separators) == back
    ensures Cut(front + [separator] + back, separators) == Some((front, back))
  {
    var text := front + [separator] + back;
    FindAnyIs(text, separators, 0, |front|);
    assert text[..|front|] == front && text[|front| + 1..] == back;
  }

  lemma SkipNothing(s: string, separators: set<char>)
    requires s != "" ==> s[0] !in separators
    ensures SkipSpan(s, separators) == s
  {
  }

  lemma ParsePrintedField(r: Request, f: Field)
    requires GoodKey(f.0) && GoodValue(f.1)
    ensures NoneOf(FieldLine(f), LINE_BREAKERS)
    ensures ParseHeader(r, FieldLine(f)) == Accepted(r.(header := r.header[Upper(f.0) := f.1]))
  {
    var line := FieldLine(f);
    var back := " " + f.1;
    assert line == f.0 + [':'] + back;
    FindAnyIs(line, FIELD_SEPARATORS, 0, |f.0|);
    assert line[..|f.0|] == f.0 && line[|f.0| + 1..] == back;
    assert SpanEnd(back, FIELD_SEPARATORS, 1) == 1;
    assert back[1..] == f.1;
  }

  lemma ParsePrintedPath(r: Request, path: string)
    requires path != "" && path[0] == '/'
    ensures ParsePath(r, path) == Accepted(r.(path := path, state := HEADERS))
  {
    assert ToUpper(path[0]) == '/';
  }

  lemma ParsePrintedTarget(r: Request, url: string, path: string, protocol: string, version: string)
    requires path != "" && path[0] == '/'
    requires (version == "1.1" && protocol == "HTTP/1.1") || (version == "1.0" && protocol == "HTTP/1.0")
    requires Cut(url, BLANKS) == Some((path, protocol))
    ensures ParseTarget(r, url) == Accepted(r.(version := version, path := path, state := HEADERS))
  {
    ParsePrintedPath(r.(version := version), path);
    ProtocolsDiffer();
  }

  lemma ProtocolsDiffer()
    ensures EqualNoCase("HTTP/1.1", "HTTP/1.1") && EqualNoCase("HTTP/1.0", "HTTP/1.0")
    ensures !EqualNoCase("HTTP/1.0", "HTTP/1.1")
  {
    assert ToUpper("HTTP/1.0"[7]) != "HTTP/1.1"[7];
  }

  lemma ParsePrintedMethod(r: Request, line: string, name: string, url: string, v: Verdict)
    requires name == "GET" || name == "POST"
    requires Cut(line, BLANKS) == Some((name, url))
    requires ParseTarget(r.(method_ := name), url) == v
    ensures ParseRequestLine(r, line) == v
  {
  }

  /** The two blanks of a request line. */
  lemma CutStart(name: string, path: string, protocol: string)
    requires NoneOf(name, BLANKS) && NoneOf(path, BLANKS)
    requires path != "" && protocol != "" && protocol[0] !in BLANKS
    ensures var url := path + [' '] + protocol;
            Cut(url, BLANKS) == Some((path, protocol)) && Cut(name + [' '] + url, BLANKS) == Some((name, url))
  {
    var url := path + [' '] + protocol;
    SkipNothing(protocol, BLANKS);
    SkipNothing(url, BLANKS);
    CutAt(path, BLANKS, ' ', protocol);
    CutAt(name, BLANKS, ' ', url);
  }

  lemma ProtocolName(version: string)
    requires version == "1.1" || version == "1.0"
    ensures "HTTP/" + version == if version == "1.1" then "HTTP/1.1" else "HTTP/1.0"
  {
  }

  lemma StartIsOneLine(m: Message)
    requires GoodStart(m.method_, m.path, m.version)
    ensures NoneOf(RequestLine(m), LINE_BREAKERS)
    ensures NoneOf(m.method_, BLANKS) && NoneOf(m.path, BLANKS)
    ensures RequestLine(m) == m.method_ + [' '] + (m.path + [' '] + ("HTTP/" + m.version))
  {
    assert NoneOf(m.method_, BLANKS + LINE_BREAKERS);
    assert NoneOf(m.version, LINE_BREAKERS);
  }

  lemma ParsePrintedStart(r: Request, m: Message)
    requires GoodStart(m.method_, m.path, m.version)
    ensures ParseRequestLine(r, RequestLine(m)) ==
            Accepted(r.(method_ := m.method_, path := m.path, version := m.version, state := HEADERS))
  {
    StartIsOneLine(m);
    ProtocolName(m.version);
    var protocol := if m.version == "1.1" then "HTTP/1.1" else "HTTP/1.0";
    ParsePrintedLine(r, RequestLine(m), m.method_, m.path, protocol, m.version);
  }

  lemma ParsePrintedLine(r: Request, line: string, name: string, path: string, protocol: string, version: string)
    requires GoodStart(name, path, version) && NoneOf(name, BLANKS) && NoneOf(path, BLANKS)
    requires line == name + [' '] + (path + [' '] + protocol)
    requires (version == "1.1" && protocol == "HTTP/1.1") || (version == "1.0" && protocol == "HTTP/1.0")
    ensures ParseRequestLine(r, line) ==
            Accepted(r.(method_ := name, path := path, version := version, state := HEADERS))
  {
    var url := path + [' '] + protocol;
    CutStart(name, path, protocol);
    ParsePrintedTarget(r.(method_ := name), url, path, protocol, version);
    ParsePrintedMethod(r, line, name, url,
                       Accepted(r.(method_ := name, path := path, version := version, state := HEADERS)));
  }

  /** One printed line, taken off the front of what is unread. */
  lemma TakePrintedLine(r: Request, slack: char, line: string, rest: string, t: bool, r': Request)
    requires NoneOf(line, LINE_BREAKERS) && !r.state.BODY?
    requires ParseText(r, line) == Accepted(r')
    ensures Run(r, slack, line + "\r\n" + rest, t) == Run(r', '\0', rest, t)
    ensures (if r'.state.FINISH? then rest == "" else Fragmentation.Exact(r', rest)) && !r.state.FINISH? ==>
              Fragmentation.Exact(r, line + "\r\n" + rest)
  {
    var data := line + "\r\n" + rest;
    LineThenRest(slack, line, rest);
    RunTakesLine(r, slack, data, t, |line| + 2, r');
    assert data[|line| + 2..] == rest;
  }

  /** Parsing `data` from `r` is parsing `data'` from `r'`, and ends where that ends. */
  ghost predicate Leads(r: Request, data: string, r': Request, data': string) {
    && (forall t :: Run(r, '\0', data, t) == Run(r', '\0', data', t))
    && (Fragmentation.Exact(r', data') ==> Fragmentation.Exact(r, data))
  }

  lemma LeadsOn(r1: Request, d1: string, r2: Request, d2: string, r3: Request, d3: string)
    requires Leads(r1, d1, r2, d2) && Leads(r2, d2, r3, d3)
    ensures Leads(r1, d1, r3, d3)
  {
    forall t ensures Run(r1, '\0', d1, t) == Run(r3, '\0', d3, t) {
      assert Run(r1, '\0', d1, t) == Run(r2, '\0', d2, t);
    }
  }

  lemma TakePrintedField(r: Request, f: Field, rest: string)
    requires r.state.HEADERS? && GoodKey(f.0) && GoodValue(f.1)
    ensures Leads(r, FieldLine(f) + "\r\n" + rest, r.(header := r.header[Upper(f.0) := f.1]), rest)
  {
    ParsePrintedField(r, f);
    var data, r' := FieldLine(f) + "\r\n" + rest, r.(header := r.header[Upper(f.0) := f.1]);
    TakePrintedLine(r, '\0', FieldLine(f), rest, true, r');
    forall t ensures Run(r, '\0', data, t) == Run(r', '\0', rest, t) {
      TakePrintedLine(r, '\0', FieldLine(f), rest, t, r');
    }
  }

  lemma {:induction false} TakePrintedFields(r: Request, fields: seq<Field>, data: string, rest: string)
    requires r.state.HEADERS? && data == PrintFields(fields) + rest
    requires forall i :: 0 <= i < |fields| ==> GoodKey(fields[i].0) && GoodValue(fields[i].1)
    ensures Leads(r, data, r.(header := HeaderOf(fields, r.header)), rest)
    decreases |fields|
  {
    if fields == [] {
      assert data == rest;
    } else {
      var f, r1 := fields[0], r.(header := r.header[Upper(fields[0].0) := fields[0].1]);
      var data' := PrintFields(fields[1..]) + rest;
      assert data == FieldLine(f) + "\r\n" + data';
      TakePrintedField(r, f, data');
      TakePrintedFields(r1, fields[1..], data', rest);
      LeadsOn(r, data, r1, data', r.(header := HeaderOf(fields, r.header)), rest);
    }
  }

  lemma TakeBlankLine(r: Request, body: string, t: bool, r': Request)
    requires r.state.HEADERS?
    requires r' == r.(state := if "CONTENT-LENGTH" in r.header then BODY else FINISH)
    ensures Run(r, '\0', "\r\n" + body, t) == Run(r', '\0', body, t)
    ensures (if r'.state.FINISH? then body == "" else Fragmentation.Exact(r', body)) ==>
              Fragmentation.Exact(r, "\r\n" + body)
  {
    TakePrintedLine(r, '\0', "", body, t, r');
    assert "" + "\r\n" + body == "\r\n" + body;
  }

  /** The parser gets from the start of a printed message to its body with the message's own fields. */
  lemma PrintedIsParsed(m: Message, slack: char, t: bool)
    requires Printable(m)
    ensures Run(Fresh, slack, Print(m), t) == Run(BeforeBody(m), '\0', m.body, t)
    ensures (if BeforeBody(m).state.FINISH? then m.body == "" else Fragmentation.Exact(BeforeBody(m), m.body)) ==>
              Fragmentation.Exact(Fresh, Print(m))
  {
    var r1 := Fresh.(method_ := m.method_, path := m.path, version := m.version, state := HEADERS);
    var r2 := r1.(header := HeaderOf(m.fields, map[]));
    ParsePrintedStart(Fresh, m);
    StartIsOneLine(m);
    TakePrintedLine(Fresh, slack, RequestLine(m), PrintFields(m.fields) + ("\r\n" + m.body), t, r1);
    TakePrintedFields(r1, m.fields, PrintFields(m.fields) + ("\r\n" + m.body), "\r\n" + m.body);
    TakeBlankLine(r2, m.body, t, BeforeBody(m));
  }

  /** A message whose Content-Length is the positive length of its body, or that has neither. */
  predicate Framed(m: Message) {
    var r := BeforeBody(m);
    if r.state.FINISH? then m.body == "" else m.body != "" && ContentLength(r) == Some(|m.body|)
  }

  /** Written requests are requests that the fragmentation theorems speak about. */
  lemma FramedIsExact(m: Message)
    requires Printable(m) && Framed(m)
    ensures Fragmentation.Exact(Fresh, Print(m))
  {
    PrintedIsParsed(m, '\0', true);
  }

  /** Every printed message without a body is a request that the session theorems speak about. */
  lemma PlainIsWellFormed(m: Message)
    requires Printable(m) && m.body == "" && BeforeBody(m).state.FINISH?
    ensures Fragmentation.WellFormed(Print(m))
  {
    PrintedIsParsed(m, '\0', true);
  }

  /** A message that announces just the body it has is left waiting exactly when that is empty. */
  lemma OwnLengthWaitsIff(m: Message, slack: char)
    requires Printable(m) && BeforeBody(m).state.BODY? && ContentLength(BeforeBody(m)) == Some(|m.body|)
    ensures Run(Fresh, slack, Print(m), true).code == NO_REQUEST <==> m.body == ""
  {
    PrintedIsParsed(m, slack, true);
  }

  /** A form that is posted in any admissible encoding arrives as the last-wins map of its fields. */
  lemma PostedForm(m: Message, slack: char, pairs: seq<Form.Pair>, codes: seq<Form.Pair>)
    requires Printable(m) && Framed(m)
    requires codes != [] && Form.EncodesPairs(pairs, codes) && m.body == Form.Join(codes)
    requires var header := HeaderOf(m.fields, map[]);
             && "CONTENT-TYPE" in header
             && HasPrefixNoCase(header["CONTENT-TYPE"], "APPLICATION/X-WWW-FORM-URLENCODED")
    ensures var o := Run(Fresh, slack, Print(m), true);
            && o.code == GET_REQUEST && o.rest == ""
            && o.r.body == m.body && o.r.post == Fields(Form.LastWins(pairs, map[]))
  {
    PrintedIsParsed(m, slack, true);
    Form.FormRoundTrip(pairs, codes);
    assert m.body != "";
    CStringIsPrefix(m.body);
    PostedFormBody(BeforeBody(m), m.body, Form.LastWins(pairs, map[]));
  }

  lemma PostedFormIsWellFormed(m: Message, pairs: seq<Form.Pair>, codes: seq<Form.Pair>)
    requires Printable(m) && Framed(m)
    requires codes != [] && Form.EncodesPairs(pairs, codes) && m.body == Form.Join(codes)
    requires var header := HeaderOf(m.fields, map[]);
             && "CONTENT-TYPE" in header
             && HasPrefixNoCase(header["CONTENT-TYPE"], "APPLICATION/X-WWW-FORM-URLENCODED")
    ensures Fragmentation.WellFormed(Print(m))
  {
    PostedForm(m, '\0', pairs, codes);
    FramedIsExact(m);
  }

  lemma PostedFormBody(r: Request, body: string, fields: map<string, string>)
    requires r.state.BODY? && body != "" && ContentLength(r) == Some(|body|) && CString(body) == body
    requires "CONTENT-TYPE" in r.header
    requires HasPrefixNoCase(r.header["CONTENT-TYPE"], "APPLICATION/X-WWW-FORM-URLENCODED")
    requires Form.Fields(body, 0, map[]) == Some(fields)
    ensures Run(r, '\0', body, true) ==
            Outcome(GET_REQUEST, r.(body := body, post := Fields(fields), state := FINISH), body[|body| - 1], "")
  {
    assert WithContentType(r.header) == r.header;
    assert ParsePost(r.(body := body)) == Some(r.(body := body, post := Fields(fields)));
  }

  lemma {:induction false} PrintFieldsAppend(a: seq<Field>, b: seq<Field>)
    ensures PrintFields(a + b) == PrintFields(a) + PrintFields(b)
    decreases |a|
  {
    if a == [] {
      assert a + b == b;
    } else {
      assert (a + b)[1..] == a[1..] + b;
      PrintFieldsAppend(a[1..], b);
    }
  }
}
