/**
  What `HttpRequest` computes, as functions from the unread bytes.  The class in
  HttpRequest.dfy is proved against these functions; the theorems about parsing
  are stated about them.
 */
module RequestSpec {
  import opened Strings
  import Form

  datatype ParseState = REQUEST_LINE | HEADERS | BODY | FINISH

  /** `post_`: JSON text is the library's to interpret and is kept as it is. */
  datatype Post = Empty | Fields(fields: map<string, string>) | JsonText(text: string)

  datatype Request = Request(
    state: ParseState, method_: string, path: string, version: string, body: string,
    header: map<string, string>, post: Post)

  const Fresh := Request(REQUEST_LINE, "", "", "1.1", "", map[], Empty)

  /**
    `HTTP_CODE`, as far as `Parse` produces it.  `Fault` is added for the inputs
    on which the C++ code throws out of `Parse` or its behaviour is undefined.
   */
  datatype Code = NO_REQUEST | GET_REQUEST | BAD_REQUEST | Fault

  /** What one line, or the body, does to the request. */
  datatype Verdict = Accepted(r: Request) | Rejected(r: Request) | Faulted

  // ---------- Lines ----------

  datatype Line = Open | Bad | Ok(len: nat)

  /**
    A line ends at the first LF, which must follow a CR.  When the LF is the
    first unread byte, the CR is looked for in the slack byte, and the reported
    length counts one byte too many.
   */
  function FirstLine(slack: char, data: string): (line: Line)
    ensures line.Ok? ==> line.len >= 2 && (line.len <= |data| || (data == "\n" && slack == '\r'))
  {
    var lf := IndexOf(data, '\n');
    if lf == |data| then Open
    else if lf == 0 then (if slack == '\r' then Ok(2) else Bad)
    else if data[lf - 1] == '\r' then Ok(lf + 1)
    else Bad
  }

  predicate CrLfAt(data: string, k: nat) {
    k + 1 < |data| && data[k] == '\r' && data[k + 1] == '\n'
  }

  predicate BareLfAt(data: string, k: nat) {
    k < |data| && data[k] == '\n' && (k == 0 || data[k - 1] != '\r')
  }

  predicate NoLfBefore(data: string, k: nat) {
    forall i :: 0 <= i < k && i < |data| ==> data[i] != '\n'
  }

  /** A line is found exactly if a CRLF comes before any bare LF, and is bad exactly if a bare LF comes first. */
  lemma FirstLineIff(slack: char, data: string)
    requires slack != '\r'
    ensures FirstLine(slack, data).Ok? <==> exists k: nat :: CrLfAt(data, k) && NoLfBefore(data, k)
    ensures forall k: nat :: CrLfAt(data, k) && NoLfBefore(data, k) ==> FirstLine(slack, data) == Ok(k + 2)
    ensures FirstLine(slack, data).Bad? <==> exists k: nat :: BareLfAt(data, k) && NoLfBefore(data, k)
    ensures FirstLine(slack, data).Open? <==> NoLfBefore(data, |data|)
  {
    IndexOfFirst(data, '\n');
    var lf := IndexOf(data, '\n');
    if lf < |data| {
      assert lf > 0 && data[lf - 1] == '\r' ==> CrLfAt(data, lf - 1) && NoLfBefore(data, lf - 1);
      assert lf == 0 || data[lf - 1] != '\r' ==> BareLfAt(data, lf) && NoLfBefore(data, lf);
    }
    forall k: nat | CrLfAt(data, k) && NoLfBefore(data, k) ensures k + 1 == lf {
      FindIs(data, '\n', 0, k + 1);
    }
    forall k: nat | BareLfAt(data, k) && NoLfBefore(data, k) ensures k == lf {
      FindIs(data, '\n', 0, k);
    }
  }

  /** The C string at the start of `data` once the CR and LF of its first line are zeros. */
  function LineText(data: string): string {
    var lf := IndexOf(data, '\n');
    CString(data[..if lf == 0 then 0 else lf - 1])
  }

  // ---------- Request line and header fields ----------

  const BLANKS := {' ', '\t'}
  const FIELD_SEPARATORS := {':', ' ', '\t'}

  /**
    The path part of a request target.  `None` is the "http://" target without a
    later '/': its search result, a null pointer, is passed to `strncasecmp`.
   */
  function PathOf(target: string): Option<string> {
    if HasPrefixNoCase(target, "HTTP://") then
      var path := target[7 + IndexOf(target[7..], '/')..];
      if path == "" then None else Some(path)
    else if HasPrefixNoCase(target, "HTTPS://") then
      Some(target[8 + IndexOf(target[8..], '/')..])
    else
      Some(target)
  }

  /** The text before the first separator, and the text after the run of separators that it starts. */
  function Cut(text: string, separators: set<char>): Option<(string, string)> {
    var k := FindAny(text, separators, 0);
    if k == |text| then None else Some((text[..k], SkipSpan(text[k + 1..], separators)))
  }

  function ParseRequestLine(r: Request, line: string): Verdict {
    match Cut(line, BLANKS)
    case None => Rejected(r)
    case Some((name, url)) =>
      if EqualNoCase(name, "GET") then ParseTarget(r.(method_ := "GET"), url)
      else if EqualNoCase(name, "POST") then ParseTarget(r.(method_ := "POST"), url)
      else Rejected(r)
  }

  /** The request line from the target on. */
  function ParseTarget(r: Request, url: string): Verdict {
    match Cut(url, BLANKS)
    case None => Rejected(r)
    case Some((target, protocol)) =>
      if EqualNoCase(protocol, "HTTP/1.1") then ParsePath(r.(version := "1.1"), target)
      else if EqualNoCase(protocol, "HTTP/1.0") then ParsePath(r.(version := "1.0"), target)
      else Rejected(r)
  }

  function ParsePath(r: Request, target: string): Verdict {
    match PathOf(target)
    case None => Faulted
    case Some(path) =>
      if path == "" || path[0] != '/' then Rejected(r) else Accepted(r.(path := path, state := HEADERS))
  }

  function ParseHeader(r: Request, line: string): Verdict {
    if line == "" then
      Accepted(r.(state := if "CONTENT-LENGTH" in r.header then BODY else FINISH))
    else
      match Cut(line, FIELD_SEPARATORS)
      case None => Rejected(r)
      case Some((key, value)) => Accepted(r.(header := r.header[Upper(key) := value]))
  }

  function ParseText(r: Request, line: string): Verdict
    requires !r.state.BODY?
  {
    match r.state
    case REQUEST_LINE => ParseRequestLine(r, line)
    case HEADERS => ParseHeader(r, line)
    case _ => Accepted(r)
  }

  // ---------- Body ----------

  /** The number that the Content-Length field denotes for `stoi`. */
  function ContentLength(r: Request): Option<int> {
    Stoi(if "CONTENT-LENGTH" in r.header then r.header["CONTENT-LENGTH"] else "")
  }

  /**
    The C string at the start of the unread bytes; it needs a zero among them or,
    if `terminated`, has one behind them.
   */
  function BodyText(data: string, terminated: bool): Option<string> {
    if terminated || '\0' in data then Some(CString(data)) else None
  }

  /** Looking the content type up inserts an empty one when there is none. */
  function WithContentType(header: map<string, string>): map<string, string> {
    if "CONTENT-TYPE" in header then header else header["CONTENT-TYPE" := ""]
  }

  function ParsePost(r: Request): Option<Request> {
    var r1 := r.(header := WithContentType(r.header));
    var contentType := r1.header["CONTENT-TYPE"];
    if HasPrefixNoCase(contentType, "APPLICATION/X-WWW-FORM-URLENCODED") then
      var fields := Form.Fields(r.body, 0, map[]);
      if fields.None? then None else Some(r1.(post := Fields(fields.value)))
    else if HasPrefixNoCase(contentType, "APPLICATION/JSON") then
      Some(r1.(post := JsonText(r.body)))
    else
      Some(r1)
  }

  /** A negative Content-Length is compared as a huge unsigned number. */
  function ParseBody(r: Request, data: string, terminated: bool): Verdict {
    match ContentLength(r)
    case None => Faulted
    case Some(n) =>
      if !(0 <= n <= |data|) then Rejected(r) else
      match BodyText(data, terminated)
      case None => Faulted
      case Some(body) =>
        match ParsePost(r.(body := body))
        case None => Faulted
        case Some(r') => Accepted(r'.(state := FINISH))
  }

  // ---------- Parse ----------

  datatype Outcome = Outcome(code: Code, r: Request, slack: char, rest: string)

  /**
    The loop of `Parse` from request `r` with unread bytes `data` behind the byte
    `slack`.  After BAD_REQUEST, slack byte and unread bytes are those before the
    rejected line was written into; after Fault they are not described.
   */
  function Run(r: Request, slack: char, data: string, terminated: bool): (o: Outcome)
    decreases |data| + if slack == '\r' then 1 else 0
  {
    if data == "" then
      Outcome(if r.state.FINISH? then GET_REQUEST else NO_REQUEST, r, slack, data)
    else if r.state.BODY? then
      match ParseBody(r, data, terminated)
      case Rejected(_) => Outcome(NO_REQUEST, r, slack, data)
      case Faulted => Outcome(Fault, r, slack, data)
      case Accepted(r') => Outcome(GET_REQUEST, r', data[|data| - 1], "")
    else
      match FirstLine(slack, data)
      case Open => Outcome(NO_REQUEST, r, slack, data)
      case Bad => Outcome(NO_REQUEST, r, slack, data)
      case Ok(len) =>
        match ParseText(r, LineText(data))
        case Rejected(r') => Outcome(BAD_REQUEST, r'.(state := FINISH), slack, data)
        case Faulted => Outcome(Fault, r, slack, data)
        case Accepted(r') => var (slack', rest) := Consume(data, len); Run(r', slack', rest, terminated)
  }

  /** Slack byte and unread bytes after the line end has been overwritten and `len` bytes retrieved. */
  function Consume(data: string, len: nat): (result: (char, string))
    requires FirstLine('\r', data) == Ok(len)
    ensures |result.1| + (if result.0 == '\r' then 1 else 0) <
            |data| + (if data[0] == '\n' then 1 else 0)
  {
    if len > |data| then ('\0', "\0")
    else (if data[0] == '\n' then data[1] else '\0', data[len..])
  }

  /** `HttpRequest::Parse`. */
  function Parse(r: Request, slack: char, data: string, terminated: bool): Outcome {
    if data == "" then Outcome(NO_REQUEST, r, slack, data) else Run(r, slack, data, terminated)
  }

  /** One round of the loop. */
  lemma RunTakesLine(r: Request, slack: char, data: string, terminated: bool, len: nat, r': Request)
    requires data != "" && !r.state.BODY? && FirstLine(slack, data) == Ok(len)
    requires ParseText(r, LineText(data)) == Accepted(r')
    ensures Run(r, slack, data, terminated) == Run(r', Consume(data, len).0, Consume(data, len).1, terminated)
  {
  }

  lemma RunTakesBody(r: Request, slack: char, data: string, terminated: bool, r': Request)
    requires data != "" && r.state.BODY? && ParseBody(r, data, terminated) == Accepted(r')
    ensures Run(r, slack, data, terminated) == Run(r', data[|data| - 1], "", terminated)
  {
  }
}
