/**
  Forwarding a request: the text that `MakeProxyRequests` writes, and that parsing
  it gives the request back, with the five forwarding fields added.
 */
module Proxy {
  import opened Strings
  import opened RequestSpec
  import opened Messages
  import Fragmentation

  // ---------- What is written ----------

  function HostOf(header: map<string, string>): string {
    if "HOST" in header then header["HOST"] else ""
  }

  /** The fields of the header map in the order in which the hash table gives them. */
  function OwnFields(header: map<string, string>, order: seq<string>): seq<Field>
    requires forall k :: k in order ==> k in header
  {
    if order == [] then [] else [(order[0], header[order[0]])] + OwnFields(header, order[1..])
  }

  function ForwardedValue(host: string, ip: string): string {
    "for=" + ip + ";host=" + host + ";proto=http"
  }

  function ForwardingFields(host: string, ip: string): seq<Field> {
    [("X-Forwarded-For", ip), ("X-Forwarded-Host", host), ("X-Forwarded-Proto", "http"),
     ("Forwarded", ForwardedValue(host, ip)), ("via", "WhiteWebServer_Proxy")]
  }

  ghost predicate IsOrder(order: seq<string>, header: map<string, string>) {
    forall k :: k in order <==> k in header
  }

  ghost function ProxyMessage(r: Request, order: seq<string>, ip: string): Message
    requires IsOrder(order, r.header)
  {
    Message(r.method_, r.path, r.version,
            OwnFields(r.header, order) + ForwardingFields(HostOf(r.header), ip), r.body)
  }

  /** The header map that the other side should see. */
  function ForwardedHeader(header: map<string, string>, ip: string): map<string, string> {
    header["X-FORWARDED-FOR" := ip]["X-FORWARDED-HOST" := HostOf(header)]["X-FORWARDED-PROTO" := "http"]
          ["FORWARDED" := ForwardedValue(HostOf(header), ip)]["VIA" := "WhiteWebServer_Proxy"]
  }

  // ---------- What the parser can have produced ----------

  predicate GoodHeader(header: map<string, string>) {
    forall k :: k in header ==> GoodKey(k) && Upper(k) == k && GoodValue(header[k])
  }

  /** The body and what was made of it agree with the header fields. */
  predicate GoodBody(r: Request) {
    if "CONTENT-LENGTH" in r.header then
      && ContentLength(r).Some? && ContentLength(r).value >= 0
      && NoneOf(r.body, {'\0'})
      && ParsePost(r.(post := Empty)) == Some(r)
    else r.body == "" && r.post == Empty
  }

  predicate Tidy(r: Request) {
    && GoodHeader(r.header)
    && (!r.state.REQUEST_LINE? ==> GoodStart(r.method_, r.path, r.version))
    && (r.state.BODY? ==> "CONTENT-LENGTH" in r.header)
    && (if r.state.FINISH? then GoodBody(r) else r.body == "" && r.post == Empty)
  }

  /** A request that the parser itself has finished. */
  ghost predicate Produced(r: Request) {
    exists slack, data, t :: var o := Run(Fresh, slack, data, t); o.code == GET_REQUEST && o.r == r
  }

  lemma LineTextIsGood(data: string)
    ensures NoneOf(LineText(data), LINE_BREAKERS)
  {
    IndexOfFirst(data, '\n');
    var lf := IndexOf(data, '\n');
    var line := data[..if lf == 0 then 0 else lf - 1];
    CStringIsPrefix(line);
    var text := CString(line);
    forall i | 0 <= i < |text| ensures text[i] !in LINE_BREAKERS {
      assert text[i] == line[i] == data[i];
      assert text[i] in text;
    }
  }

  lemma CutIsGood(text: string, separators: set<char>)
    requires NoneOf(text, LINE_BREAKERS) && Cut(text, separators).Some?
    ensures var (front, back) := Cut(text, separators).value;
            && NoneOf(front, separators + LINE_BREAKERS)
            && NoneOf(back, LINE_BREAKERS) && (back != "" ==> back[0] !in separators)
  {
    FindAnyFirst(text, separators, 0);
    var k := FindAny(text, separators, 0);
    var tail := text[k + 1..];
    SpanEndFirst(tail, separators, 0);
    var back := SkipSpan(tail, separators);
    forall i | 0 <= i < |back| ensures back[i] !in LINE_BREAKERS {
      assert back[i] == tail[SpanEnd(tail, separators, 0) + i];
    }
  }

  lemma UpperIsGoodKey(key: string)
    requires GoodKey(key)
    ensures GoodKey(Upper(key)) && Upper(Upper(key)) == Upper(key)
  {
  }

  lemma PathIsGood(target: string)
    requires NoneOf(target, BLANKS + LINE_BREAKERS) && PathOf(target).Some?
    ensures NoneOf(PathOf(target).value, BLANKS + LINE_BREAKERS)
  {
  }

  lemma TargetIsTidy(r: Request, url: string)
    requires NoneOf(url, LINE_BREAKERS)
    ensures var v := ParseTarget(r, url);
            v.Accepted? ==>
              && (v.r.version == "1.1" || v.r.version == "1.0")
              && v.r.path != "" && v.r.path[0] == '/' && NoneOf(v.r.path, BLANKS + LINE_BREAKERS)
              && v.r == r.(path := v.r.path, version := v.r.version, state := HEADERS)
  {
    if Cut(url, BLANKS).Some? {
      CutIsGood(url, BLANKS);
      var target := Cut(url, BLANKS).value.0;
      if PathOf(target).Some? {
        PathIsGood(target);
      }
    }
  }

  lemma TextKeepsTidy(r: Request, data: string)
    requires Tidy(r) && !r.state.BODY?
    ensures var v := ParseText(r, LineText(data)); v.Accepted? ==> Tidy(v.r)
  {
    var text := LineText(data);
    LineTextIsGood(data);
    match r.state {
      case REQUEST_LINE =>
        if Cut(text, BLANKS).Some? {
          CutIsGood(text, BLANKS);
          var url := Cut(text, BLANKS).value.1;
          TargetIsTidy(r.(method_ := "GET"), url);
          TargetIsTidy(r.(method_ := "POST"), url);
        }
      case HEADERS =>
        if text != "" && Cut(text, FIELD_SEPARATORS).Some? {
          CutIsGood(text, FIELD_SEPARATORS);
          UpperIsGoodKey(Cut(text, FIELD_SEPARATORS).value.0);
        }
      case FINISH =>
    }
  }

  lemma ContentTypeIsGood(header: map<string, string>)
    requires GoodHeader(header)
    ensures GoodHeader(WithContentType(header))
  {
    assert GoodKey("CONTENT-TYPE") && Upper("CONTENT-TYPE") == "CONTENT-TYPE";
  }

  /** Interpreting the same body again gives the same request. */
  lemma PostIsStable(r: Request, r': Request)
    requires r.post == Empty && ParsePost(r) == Some(r')
    ensures r' == r.(header := WithContentType(r.header), post := r'.post)
    ensures ParsePost(r'.(state := FINISH, post := Empty)) == Some(r'.(state := FINISH))
  {
  }

  lemma BodyTextIsGood(data: string)
    ensures NoneOf(CString(data), {'\0'})
  {
    CStringIsPrefix(data);
    var body := CString(data);
    forall i | 0 <= i < |body| ensures body[i] != '\0' {
      assert body[i] in body;
    }
  }

  lemma BodyKeepsTidy(r: Request, data: string, t: bool)
    requires Tidy(r) && r.state.BODY?
    ensures var v := ParseBody(r, data, t); v.Accepted? ==> Tidy(v.r)
  {
    var r1 := r.(body := CString(data));
    var v := ParseBody(r, data, t);
    if v.Accepted? {
      BodyTextIsGood(data);
      var r2 := ParsePost(r1).value;
      PostIsStable(r1, r2);
      ContentTypeIsGood(r.header);
      assert v.r == r2.(state := FINISH);
      assert ContentLength(v.r) == ContentLength(r);
    }
  }

  lemma {:induction false} RunKeepsTidy(r: Request, slack: char, data: string, t: bool)
    requires Tidy(r)
    ensures var o := Run(r, slack, data, t);
            // Bound to a variable so that the verifier takes it as one fact.
            var tidy := Tidy(o.r);
            o.code == GET_REQUEST ==> tidy && o.r.state.FINISH?
    decreases |data| + if slack == '\r' then 1 else 0
  {
    if data != "" {
      if r.state.BODY? {
        BodyKeepsTidy(r, data, t);
      } else if FirstLine(slack, data).Ok? {
        TextKeepsTidy(r, data);
        var v := ParseText(r, LineText(data));
        if v.Accepted? {
          var len := FirstLine(slack, data).len;
          RunTakesLine(r, slack, data, t, len, v.r);
          RunKeepsTidy(v.r, Consume(data, len).0, Consume(data, len).1, t);
        }
      }
    }
  }

  lemma ProducedIsTidy(r: Request)
    requires Produced(r)
    ensures Tidy(r) && r.state.FINISH?
  {
    var slack, data, t :| var o := Run(Fresh, slack, data, t); o.code == GET_REQUEST && o.r == r;
    RunKeepsTidy(Fresh, slack, data, t);
  }

  // ---------- Parsing what is written ----------

  lemma {:induction false} HeaderOfAppend(a: seq<Field>, b: seq<Field>, acc: map<string, string>)
    ensures HeaderOf(a + b, acc) == HeaderOf(b, HeaderOf(a, acc))
    decreases |a|
  {
    if a == [] {
      assert a + b == b;
    } else {
      assert (a + b)[1..] == a[1..] + b;
      HeaderOfAppend(a[1..], b, acc[Upper(a[0].0) := a[0].1]);
    }
  }

  lemma {:induction false} OwnFieldsGiveHeader(header: map<string, string>, order: seq<string>, acc: map<string, string>)
    requires GoodHeader(header) && forall k :: k in order ==> k in header
    ensures HeaderOf(OwnFields(header, order), acc) == acc + map k | k in order :: header[k]
    ensures forall f :: f in OwnFields(header, order) ==> GoodKey(f.0) && GoodValue(f.1)
    decreases |order|
  {
    if order != [] {
      var k := order[0];
      assert order == [k] + order[1..];
      OwnFieldsGiveHeader(header, order[1..], acc[k := header[k]]);
    }
  }

  lemma HeaderOfOne(key: string, value: string, upper: string, rest: seq<Field>, acc: map<string, string>)
    requires Upper(key) == upper
    ensures HeaderOf([(key, value)] + rest, acc) == HeaderOf(rest, acc[upper := value])
  {
    assert ([(key, value)] + rest)[1..] == rest;
  }

  lemma ForwardingFieldsGiveHeader(host: string, ip: string, acc: map<string, string>)
    ensures HeaderOf(ForwardingFields(host, ip), acc) ==
            acc["X-FORWARDED-FOR" := ip]["X-FORWARDED-HOST" := host]["X-FORWARDED-PROTO" := "http"]
               ["FORWARDED" := ForwardedValue(host, ip)]["VIA" := "WhiteWebServer_Proxy"]
  {
    var f := ForwardingFields(host, ip);
    assert f == [f[0]] + ([f[1]] + ([f[2]] + ([f[3]] + ([f[4]] + []))));
    var a1 := acc["X-FORWARDED-FOR" := ip];
    var a2 := a1["X-FORWARDED-HOST" := host];
    var a3 := a2["X-FORWARDED-PROTO" := "http"];
    var a4 := a3["FORWARDED" := ForwardedValue(host, ip)];
    HeaderOfOne(f[0].0, f[0].1, "X-FORWARDED-FOR", [f[1]] + ([f[2]] + ([f[3]] + ([f[4]] + []))), acc);
    HeaderOfOne(f[1].0, f[1].1, "X-FORWARDED-HOST", [f[2]] + ([f[3]] + ([f[4]] + [])), a1);
    HeaderOfOne(f[2].0, f[2].1, "X-FORWARDED-PROTO", [f[3]] + ([f[4]] + []), a2);
    HeaderOfOne(f[3].0, f[3].1, "FORWARDED", [f[4]] + [], a3);
    HeaderOfOne(f[4].0, f[4].1, "VIA", [], a4);
  }

  /** The text of an IPv4 address, as `inet_ntoa` gives it. */
  predicate IsAddress(ip: string) {
    forall i :: 0 <= i < |ip| ==> IsDigit(ip[i]) || ip[i] == '.'
  }

  lemma ForwardingFieldsAreGood(host: string, ip: string)
    requires IsAddress(ip) && GoodValue(host)
    ensures forall i :: 0 <= i < 5 ==> GoodKey(ForwardingFields(host, ip)[i].0) && GoodValue(ForwardingFields(host, ip)[i].1)
  {
    assert GoodKey("X-Forwarded-For") && GoodKey("X-Forwarded-Host") && GoodKey("X-Forwarded-Proto");
    assert GoodKey("Forwarded") && GoodKey("via");
    assert NoneOf(ip, LINE_BREAKERS);
    assert GoodValue(ip);
    assert GoodValue("http") && GoodValue("WhiteWebServer_Proxy");
    ForwardedValueIsGood(host, ip);
  }

  lemma ForwardedValueIsGood(host: string, ip: string)
    requires IsAddress(ip) && NoneOf(host, LINE_BREAKERS)
    ensures GoodValue(ForwardedValue(host, ip))
  {
    var value := ForwardedValue(host, ip);
    assert NoneOf("for=" + ip, LINE_BREAKERS);
    assert NoneOf(";host=" + host, LINE_BREAKERS);
    assert value == ("for=" + ip) + (";host=" + host) + ";proto=http";
    assert value[0] == 'f';
  }

  lemma AllFieldsAreGood(header: map<string, string>, order: seq<string>, ip: string)
    requires GoodHeader(header) && IsOrder(order, header) && IsAddress(ip)
    ensures var fields := OwnFields(header, order) + ForwardingFields(HostOf(header), ip);
            forall i :: 0 <= i < |fields| ==> GoodKey(fields[i].0) && GoodValue(fields[i].1)
  {
    var own, five := OwnFields(header, order), ForwardingFields(HostOf(header), ip);
    OwnFieldsGiveHeader(header, order, map[]);
    ForwardingFieldsAreGood(HostOf(header), ip);
    var fields := own + five;
    forall i | 0 <= i < |fields| ensures GoodKey(fields[i].0) && GoodValue(fields[i].1) {
      if i < |own| {
        assert fields[i] in own;
      } else {
        assert fields[i] == five[i - |own|];
      }
    }
  }

  lemma AllFieldsGiveHeader(header: map<string, string>, order: seq<string>, ip: string)
    requires GoodHeader(header) && IsOrder(order, header)
    ensures HeaderOf(OwnFields(header, order) + ForwardingFields(HostOf(header), ip), map[])
            == ForwardedHeader(header, ip)
  {
    OwnFieldsGiveHeader(header, order, map[]);
    assert map[] + (map k | k in order :: header[k]) == header;
    HeaderOfAppend(OwnFields(header, order), ForwardingFields(HostOf(header), ip), map[]);
    ForwardingFieldsGiveHeader(HostOf(header), ip, header);
  }

  lemma ForwardedMessage(r: Request, order: seq<string>, ip: string)
    requires Tidy(r) && r.state.FINISH? && IsOrder(order, r.header) && IsAddress(ip)
    ensures var m := ProxyMessage(r, order, ip);
            Printable(m) && HeaderOf(m.fields, map[]) == ForwardedHeader(r.header, ip)
  {
    AllFieldsAreGood(r.header, order, ip);
    AllFieldsGiveHeader(r.header, order, ip);
  }

  /** The forwarding fields touch neither the framing nor the type of the body. */
  lemma ForwardedPost(r: Request, ip: string)
    requires Tidy(r) && r.state.FINISH? && "CONTENT-LENGTH" in r.header
    ensures var r' := r.(header := ForwardedHeader(r.header, ip));
            ContentLength(r') == ContentLength(r) && ParsePost(r'.(post := Empty)) == Some(r')
  {
    var r0 := r.(post := Empty);
    assert "CONTENT-TYPE" in r.header by {
      assert ParsePost(r0).value.header == WithContentType(r.header);
    }
    assert WithContentType(ForwardedHeader(r.header, ip)) == ForwardedHeader(r.header, ip);
  }

  lemma ForwardedBody(r: Request, ip: string, r0: Request)
    requires Tidy(r) && r.state.FINISH? && "CONTENT-LENGTH" in r.header
    requires r0 == Request(BODY, r.method_, r.path, r.version, "", ForwardedHeader(r.header, ip), Empty)
    ensures var o := Run(r0, '\0', r.body, true);
            if r.body != "" && ContentLength(r).value <= |r.body| then
              o.code == GET_REQUEST && o.r == r.(header := ForwardedHeader(r.header, ip)) && o.rest == ""
            else o.code == NO_REQUEST
  {
    ForwardedPost(r, ip);
    var r' := r.(header := ForwardedHeader(r.header, ip));
    CStringIsPrefix(r.body);
    assert '\0' !in r.body;
    assert r0.(body := r.body) == r'.(post := Empty, state := BODY);
    PostIgnoresState(r'.(post := Empty), r');
  }

  lemma PostIgnoresState(r: Request, r': Request)
    requires ParsePost(r) == Some(r')
    ensures ParsePost(r.(state := BODY)) == Some(r'.(state := BODY))
  {
  }

  /** The request can be sent on: its text announces no more body than it has. */
  predicate Forwardable(r: Request) {
    "CONTENT-LENGTH" in r.header ==>
      r.body != "" && ContentLength(r).Some? && ContentLength(r).value <= |r.body|
  }

  /**
    Parsing what is written for a request that the parser has produced, with its
    fields in any order, gives the same request with exactly the five forwarding
    fields set; unless the body is shorter than announced, because it had a NUL in
    it, or empty: then the reader is left waiting.
   */
  lemma ParsePrintParse(r: Request, order: seq<string>, ip: string, slack: char)
    requires Produced(r) && IsOrder(order, r.header) && IsAddress(ip)
    ensures var o := Run(Fresh, slack, Print(ProxyMessage(r, order, ip)), true);
            if Forwardable(r) then
              o.code == GET_REQUEST && o.r == r.(header := ForwardedHeader(r.header, ip)) && o.rest == ""
            else o.code == NO_REQUEST
  {
    ProducedIsTidy(r);
    ForwardedMessage(r, order, ip);
    var m := ProxyMessage(r, order, ip);
    PrintedIsParsed(m, slack, true);
    if "CONTENT-LENGTH" in r.header {
      ForwardedBody(r, ip, BeforeBody(m));
    }
  }

  lemma TwoIsAnnounced(r: Request)
    requires "CONTENT-LENGTH" in r.header && r.header["CONTENT-LENGTH"] == "2"
    ensures ContentLength(r) == Some(2)
  {
    StoiOfDecimal(2);
    assert ToDecimal(2) == "2";
  }

  lemma NulBodyIsEmpty(r: Request, data: string)
    requires r.state.BODY? && ContentLength(r) == Some(2) && |data| == 2 && data[0] == '\0'
    requires "CONTENT-TYPE" !in r.header && "CONTENT-LENGTH" in r.header
    ensures var o := Run(r, '\0', data, true);
            o.code == GET_REQUEST && o.r == r.(state := FINISH, header := r.header["CONTENT-TYPE" := ""], body := "")
  {
    assert CString(data) == "";
    assert ParsePost(r.(body := "")) == Some(r.(header := r.header["CONTENT-TYPE" := ""], body := ""));
  }

  lemma NulMessage(m: Message)
    requires m == Message("POST", "/", "1.1", [("Content-Length", "2")], "\0a")
    ensures Printable(m) && BeforeBody(m).header == map["CONTENT-LENGTH" := "2"] && BeforeBody(m).state.BODY?
  {
    assert GoodKey("Content-Length") && GoodValue("2");
    assert m.fields == [("Content-Length", "2")] + [];
    HeaderOfOne("Content-Length", "2", "CONTENT-LENGTH", [], map[]);
  }

  /** A body that starts with a NUL is parsed to an empty one, and what is written for it announces more. */
  lemma ForwardingCanFail()
    ensures exists r :: Produced(r) && !Forwardable(r)
  {
    var m := Message("POST", "/", "1.1", [("Content-Length", "2")], "\0a");
    NulMessage(m);
    TwoIsAnnounced(BeforeBody(m));
    NulBodyIsEmpty(BeforeBody(m), m.body);
    PrintedIsParsed(m, '\0', true);
    var r := Run(Fresh, '\0', Print(m), true).r;
    assert Produced(r) && !Forwardable(r);
  }

  lemma ForwardedIsFramed(r: Request, order: seq<string>, ip: string)
    requires Produced(r) && IsOrder(order, r.header) && IsAddress(ip)
    requires "CONTENT-LENGTH" in r.header ==> r.body != "" && ContentLength(r) == Some(|r.body|)
    ensures Fragmentation.Exact(Fresh, Print(ProxyMessage(r, order, ip)))
  {
    ProducedIsTidy(r);
    ForwardedMessage(r, order, ip);
    FramedIsExact(ProxyMessage(r, order, ip));
  }

  /** A text that is forwarded may be cut in pieces on its way. */
  lemma ForwardedIsExact(r: Request, order: seq<string>, ip: string)
    requires Produced(r) && IsOrder(order, r.header) && IsAddress(ip)
    requires "CONTENT-LENGTH" in r.header ==> r.body != "" && ContentLength(r) == Some(|r.body|)
    ensures Fragmentation.WellFormed(Print(ProxyMessage(r, order, ip)))
  {
    ForwardedIsFramed(r, order, ip);
    ParsePrintParse(r, order, ip, '\0');
  }

  /** The names of the fields that are added. */
  const FORWARDING := {"X-FORWARDED-FOR", "X-FORWARDED-HOST", "X-FORWARDED-PROTO", "FORWARDED", "VIA"}

  /** What the header of a forwarded request is: who asked, for which host, and everything else as it came. */
  ghost predicate Forwarded(header: map<string, string>, own: map<string, string>, ip: string) {
    var host := if "HOST" in own then own["HOST"] else "";
    && header.Keys == own.Keys + FORWARDING
    && header["X-FORWARDED-FOR"] == ip && header["X-FORWARDED-HOST"] == host
    && header["X-FORWARDED-PROTO"] == "http" && header["VIA"] == "WhiteWebServer_Proxy"
    && header["FORWARDED"] == "for=" + ip + ";host=" + host + ";proto=http"
    && forall k :: k in own && k !in FORWARDING ==> header[k] == own[k]
  }

  lemma HeaderIsForwarded(own: map<string, string>, ip: string)
    ensures Forwarded(ForwardedHeader(own, ip), own, ip)
  {
    var header := ForwardedHeader(own, ip);
    assert header.Keys == own.Keys + FORWARDING;
  }

  /** What the upstream server reads of a request that can be forwarded. */
  lemma UpstreamSees(r: Request, order: seq<string>, ip: string, slack: char)
    requires Produced(r) && IsOrder(order, r.header) && IsAddress(ip) && Forwardable(r)
    ensures var o := Run(Fresh, slack, Print(ProxyMessage(r, order, ip)), true);
            && o.code == GET_REQUEST && o.rest == "" && Forwarded(o.r.header, r.header, ip)
            && o.r.method_ == r.method_ && o.r.path == r.path && o.r.version == r.version && o.r.body == r.body
  {
    ParsePrintParse(r, order, ip, slack);
    HeaderIsForwarded(r.header, ip);
  }

  // ---------- Writing it in steps ----------

  lemma {:induction false} OwnFieldsSnoc(header: map<string, string>, order: seq<string>, k: string)
    requires (forall x :: x in order ==> x in header) && k in header
    ensures OwnFields(header, order + [k]) == OwnFields(header, order) + [(k, header[k])]
    decreases |order|
  {
    if order == [] {
      assert order + [k] == [k];
      assert OwnFields(header, [k][1..]) == [];
    } else {
      assert (order + [k])[1..] == order[1..] + [k];
      OwnFieldsSnoc(header, order[1..], k);
    }
  }

  /** Writing one more field of the header map. */
  lemma PrintOneMore(header: map<string, string>, order: seq<string>, k: string)
    requires (forall x :: x in order ==> x in header) && k in header
    ensures PrintFields(OwnFields(header, order + [k])) ==
            PrintFields(OwnFields(header, order)) + PrintField((k, header[k]))
  {
    var f := (k, header[k]);
    OwnFieldsSnoc(header, order, k);
    PrintFieldsAppend(OwnFields(header, order), [f]);
    assert PrintFields([f][1..]) == "";
    assert PrintFields([f]) == PrintField(f) + "";
  }

  /** The five forwarding fields as they are written one after the other behind `front`. */
  lemma PrintForwarding(front: string, f: seq<Field>)
    requires |f| == 5
    ensures front + PrintFields(f) ==
            front + PrintField(f[0]) + PrintField(f[1]) + PrintField(f[2]) + PrintField(f[3]) + PrintField(f[4])
  {
    var f1, f2 := front + PrintField(f[0]), front + PrintField(f[0]) + PrintField(f[1]);
    var f3 := f2 + PrintField(f[2]);
    PrintNext(front, f);
    PrintNext(f1, f[1..]);
    PrintNext(f2, f[2..]);
    PrintNext(f3, f[3..]);
    PrintNext(f3 + PrintField(f[3]), f[4..]);
    assert f[1..][1..] == f[2..] && f[2..][1..] == f[3..] && f[3..][1..] == f[4..] && f[4..][1..] == [];
  }

  lemma PrintNext(front: string, f: seq<Field>)
    requires f != []
    ensures front + PrintFields(f) == front + PrintField(f[0]) + PrintFields(f[1..])
  {
    assert front + (PrintField(f[0]) + PrintFields(f[1..])) == front + PrintField(f[0]) + PrintFields(f[1..]);
  }
}
