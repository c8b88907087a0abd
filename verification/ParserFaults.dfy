/**
  When `HttpRequest::Parse` throws or leaves what C++ defines: exactly which unread
  bytes a peer has to send.
 */
module ParserFaults {
  import opened Strings
  import opened RequestSpec
  import opened ParserVerdicts
  import Form
  import Messages

  /** Reading on from `i`, where "%" takes the two characters behind it along, the last character is met as a "%". */
  predicate CutShort(s: string, i: nat)
    decreases |s| - i
  {
    i < |s| && if s[i] == '%' then i + 1 == |s| || CutShort(s, i + 3) else CutShort(s, i + 1)
  }

  /** Where the value of the last field begins. */
  function LastValue(body: string, begin: nat): (k: nat)
    requires begin <= |body|
    ensures k <= |body|
    decreases |body| - begin
  {
    var end := Form.FindFrom(body, '&', begin);
    if end == -1 then Form.FindFrom(body, '=', begin) + 1 else LastValue(body, end + 1)
  }

  /**
    The announced length is no `int`; or the body has arrived, and is not ended by a
    zero, or is a form whose last value is cut short in an escape.
   */
  predicate BadBody(r: Request, data: string, terminated: bool) {
    match ContentLength(r)
    case None => true
    case Some(n) =>
      0 <= n <= |data| &&
      var body := CString(data);
      (!terminated && '\0' !in data) || (IsForm(r) && CutShort(body, LastValue(body, 0)))
  }

  lemma BodyFaultsIff(r: Request, data: string, terminated: bool)
    ensures ParseBody(r, data, terminated).Faulted? <==> BadBody(r, data, terminated)
  {
    PostFaultsIff(r.(body := CString(data)));
    FieldsFaultIff(CString(data), 0, map[]);
  }

  lemma PostFaultsIff(r: Request)
    ensures ParsePost(r).None? <==> IsForm(r) && Form.Fields(r.body, 0, map[]).None?
  {
  }

  /** Parsing faults exactly if it stops at a request line without a path behind the host, or at such a body. */
  lemma ParseFaultsIff(r: Request, slack: char, data: string, terminated: bool)
    ensures Run(r, slack, data, terminated).code == Fault <==>
            var (r', slack', rest) := Stop(r, slack, data);
            && rest != ""
            && if r'.state.BODY? then BadBody(r', rest, terminated)
               else r'.state.REQUEST_LINE? && FirstLine(slack', rest).Ok? && LostLine(LineText(rest))
  {
    RunIsLastRound(r, slack, data, terminated);
    var (r', slack', rest) := Stop(r, slack, data);
    LastRoundFaultsIff(r', slack', rest, terminated);
  }

  lemma LastRoundFaultsIff(r: Request, slack: char, data: string, terminated: bool)
    requires data == "" || r.state.BODY? || !FirstLine(slack, data).Ok? || !Takes(r, LineText(data))
    ensures Run(r, slack, data, terminated).code == Fault <==>
            && data != ""
            && if r.state.BODY? then BadBody(r, data, terminated)
               else r.state.REQUEST_LINE? && FirstLine(slack, data).Ok? && LostLine(LineText(data))
  {
    if data != "" {
      if r.state.BODY? {
        BodyFaultsIff(r, data, terminated);
      } else if FirstLine(slack, data).Ok? {
        RequestLineIff(r, LineText(data));
        HeaderIff(r, LineText(data));
      }
    }
  }

  // ---------- Forms ----------

  /** Decoding that ends before the end of the string never reads past it. */
  lemma {:induction false} DecodeInsideIsDefined(str: string, begin: nat, end: int)
    requires end < |str|
    ensures Form.Decode(str, begin, end).Some?
    decreases end - begin
  {
    if begin < end {
      DecodeInsideIsDefined(str, if str[begin] == '%' then begin + 3 else begin + 1, end);
    }
  }

  lemma {:induction false} DecodeFaultsIff(str: string, begin: nat)
    ensures Form.Decode(str, begin, |str|).None? <==> CutShort(str, begin)
    decreases |str| - begin
  {
    if begin < |str| {
      DecodeFaultsIff(str, if str[begin] == '%' then begin + 3 else begin + 1);
    }
  }

  /** Only the last value can be decoded past the end of the body. */
  lemma {:induction false} FieldsFaultIff(body: string, begin: nat, acc: map<string, string>)
    requires begin <= |body|
    ensures Form.Fields(body, begin, acc).None? <==> CutShort(body, LastValue(body, begin))
    decreases |body| - begin
  {
    var end, split := Form.FindFrom(body, '&', begin), Form.FindFrom(body, '=', begin);
    DecodeInsideIsDefined(body, begin, split);
    if end == -1 {
      DecodeFaultsIff(body, split + 1);
    } else {
      DecodeInsideIsDefined(body, split + 1, end);
      var key, value := Form.Decode(body, begin, split), Form.Decode(body, split + 1, end);
      FieldsFaultIff(body, end + 1, acc[key.value := value.value]);
    }
  }

  /** Such a form ends in "%". */
  lemma {:induction false} CutShortEndsInPercent(s: string, i: nat)
    requires CutShort(s, i)
    ensures s[|s| - 1] == '%'
    decreases |s| - i
  {
    if s[i] != '%' {
      CutShortEndsInPercent(s, i + 1);
    } else if i + 1 != |s| {
      CutShortEndsInPercent(s, i + 3);
    }
  }

  // ---------- Inputs that fault ----------

  lemma HostAsTarget(host: string)
    requires NoneOf(host, BLANKS + Messages.LINE_BREAKERS + {'/'})
    ensures var target := "http://" + host;
            && HasPrefixNoCase(target, "HTTP://") && NoneOf(target[7..], {'/'})
            && NoneOf(target, BLANKS) && NoneOf(target, Messages.LINE_BREAKERS)
  {
    assert NoneOf("http://", BLANKS) && NoneOf("http://", Messages.LINE_BREAKERS);
    assert ("http://" + host)[7..] == host;
  }

  /** The request line for a target. */
  function GetLine(target: string): string {
    "GET" + [' '] + (target + [' '] + "HTTP/1.1")
  }

  /** A request whose target is "http://" and a host, and nothing else. */
  lemma HostAloneFaults(host: string, slack: char, rest: string, terminated: bool)
    requires NoneOf(host, BLANKS + Messages.LINE_BREAKERS + {'/'})
    ensures Run(Fresh, slack, GetLine("http://" + host) + "\r\n" + rest, terminated).code == Fault
  {
    HostAsTarget(host);
    TargetFaults("http://" + host, slack, rest, terminated);
  }

  lemma TargetFaults(target: string, slack: char, rest: string, terminated: bool)
    requires NoneOf(target, BLANKS) && NoneOf(target, Messages.LINE_BREAKERS)
    requires HasPrefixNoCase(target, "HTTP://") && NoneOf(target[7..], {'/'})
    ensures Run(Fresh, slack, GetLine(target) + "\r\n" + rest, terminated).code == Fault
  {
    LineIsLost(target);
    LineOf(target, "HTTP/1.1");
    LostLineFaultsAtOnce(GetLine(target), slack, rest, terminated);
  }

  lemma LineIsLost(target: string)
    requires NoneOf(target, BLANKS) && HasPrefixNoCase(target, "HTTP://") && NoneOf(target[7..], {'/'})
    ensures LostLine(GetLine(target))
  {
    var url := target + [' '] + "HTTP/1.1";
    assert Separates("GET", [' '], url, {' ', '\t'}) && Separates(target, [' '], "HTTP/1.1", {' ', '\t'});
    assert GetLine(target) == "GET" + [' '] + url;
    assert Splits(GetLine(target), "GET", target, "HTTP/1.1");
    assert KnownNames("GET", "HTTP/1.1");
  }

  lemma LineOf(target: string, protocol: string)
    requires NoneOf(target, Messages.LINE_BREAKERS) && protocol == "HTTP/1.1"
    ensures NoneOf("GET" + [' '] + (target + [' '] + protocol), Messages.LINE_BREAKERS)
  {
    assert NoneOf("GET", Messages.LINE_BREAKERS) && NoneOf(protocol, Messages.LINE_BREAKERS);
  }

  lemma LostLineFaultsAtOnce(line: string, slack: char, rest: string, terminated: bool)
    requires NoneOf(line, Messages.LINE_BREAKERS) && LostLine(line)
    ensures Run(Fresh, slack, line + "\r\n" + rest, terminated).code == Fault
  {
    Messages.LineThenRest(slack, line, rest);
    RequestLineIff(Fresh, line);
  }

  /** A printed message with a body faults exactly if that is bad. */
  lemma PrintedFaultsIff(m: Messages.Message, slack: char, terminated: bool)
    requires Messages.Printable(m) && Messages.BeforeBody(m).state.BODY? && m.body != ""
    ensures Run(Fresh, slack, Messages.Print(m), terminated).code == Fault
            <==> BadBody(Messages.BeforeBody(m), m.body, terminated)
  {
    Messages.PrintedIsParsed(m, slack, terminated);
    ParseFaultsIff(Messages.BeforeBody(m), '\0', m.body, terminated);
  }

  /** `stoi` throws. */
  lemma LengthCanFault(terminated: bool)
    ensures var m := Messages.Message("POST", "/", "1.1", [("Content-Length", "x")], "a");
            Run(Fresh, '\0', Messages.Print(m), terminated).code == Fault
  {
    var m := Messages.Message("POST", "/", "1.1", [("Content-Length", "x")], "a");
    LengthIsHeader(m, "x");
    PrintedFaultsIff(m, '\0', terminated);
  }

  /** Nothing ends the body. */
  lemma EndCanFault()
    ensures var m := Messages.Message("POST", "/", "1.1", [("Content-Length", "1")], "a");
            Run(Fresh, '\0', Messages.Print(m), false).code == Fault
  {
    var m := Messages.Message("POST", "/", "1.1", [("Content-Length", "1")], "a");
    LengthIsHeader(m, "1");
    StoiOfDecimal(1);
    assert ToDecimal(1) == "1";
    PrintedFaultsIff(m, '\0', false);
  }

  lemma LengthIsHeader(m: Messages.Message, n: string)
    requires m == Messages.Message("POST", "/", "1.1", [("Content-Length", n)], "a")
    requires NoneOf(n, Messages.LINE_BREAKERS) && n != "" && n[0] !in FIELD_SEPARATORS
    ensures Messages.Printable(m) && Messages.BeforeBody(m).state.BODY?
    ensures Messages.BeforeBody(m).header == map["CONTENT-LENGTH" := n]
  {
    assert Messages.GoodKey("Content-Length");
    assert m.fields[1..] == [];
    assert Upper("Content-Length") == "CONTENT-LENGTH";
    assert Messages.HeaderOf([], map["CONTENT-LENGTH" := n]) == map["CONTENT-LENGTH" := n];
  }

  /** "%" at the end of the last value; at the end of a key, or as the end of an escape, it does no harm. */
  lemma FormsCutShort()
    ensures CutShort("a=%", LastValue("a=%", 0))
    ensures !CutShort("a%=", LastValue("a%=", 0)) && !CutShort("a=%%", LastValue("a=%%", 0))
  {
    FindIs("a=%", '&', 0, 3);
    FindIs("a=%", '=', 0, 1);
    FindIs("a%=", '&', 0, 3);
    FindIs("a%=", '=', 0, 2);
    FindIs("a=%%", '&', 0, 4);
    FindIs("a=%%", '=', 0, 1);
  }

  /** A whole message, with any fields that announce such a form. */
  lemma FormCanFault(m: Messages.Message, slack: char, terminated: bool)
    requires Messages.Printable(m) && Messages.BeforeBody(m).state.BODY? && m.body == "a=%"
    requires IsForm(Messages.BeforeBody(m)) && ContentLength(Messages.BeforeBody(m)) == Some(3)
    ensures Run(Fresh, slack, Messages.Print(m), terminated).code == Fault
  {
    FormsCutShort();
    CStringOfThree("a=%");
    PrintedFaultsIff(m, slack, terminated);
  }

  lemma CStringOfThree(s: string)
    requires |s| == 3 && '\0' !in s
    ensures CString(s) == s
  {
    FindIs(s, '\0', 0, 3);
    assert s[..3] == s;
  }
}
