/**
  A run of the server in which `PendingWriteBytes` is not 0 although everything has
  been sent: the second vector element is left over from another connection that
  used the same `HttpConn`, and a page does not use it.
 */
module StaleVector {
  import opened Strings
  import opened RequestSpec
  import opened ResponseSpec
  import opened Exchange
  import opened HttpConns
  import Messages
  import Ownership

  /** A request that is parsed from `text`, wherever it stands. */
  ghost predicate ParsesTo(text: string, r: Request) {
    forall slack, t ::
      var o := Run(Fresh, slack, text, t);
      o.code == GET_REQUEST && o.r == r && o.rest == ""
  }

  lemma SimpleRequest(text: string) returns (r: Request)
    requires text == TEXT
    ensures r == Request(RequestSpec.FINISH, "GET", "/", "1.1", "", map[], Empty)
    ensures ParsesTo(text, r)
  {
    var m := Messages.Message("GET", "/", "1.1", [], "");
    r := Messages.BeforeBody(m);
    assert Messages.Print(m) == text;
    forall slack, t
      ensures var o := Run(Fresh, slack, text, t); o.code == GET_REQUEST && o.r == r && o.rest == ""
    {
      Messages.PrintedIsParsed(m, slack, t);
    }
  }

  lemma WholeText(text: string, terminated: bool, r: Request) returns (o: Outcome)
    requires ParsesTo(text, r) && text != ""
    ensures o == Parse(Fresh, '\0', text, terminated) && o.code == GET_REQUEST && o.r == r
  {
    o := Run(Fresh, '\0', text, terminated);
  }

  method Connect(conn: HttpConn, text: string)
    requires conn.Valid()
    modifies conn`isClose, conn`wire, conn.readBuff, conn.writeBuff
    ensures conn.Valid() && !conn.isClose
    ensures conn.readBuff.Contents() == text && conn.readBuff.Slack() == '\0' && conn.writeBuff.Contents() == ""
  {
    conn.Init();
    var _ := conn.ReadFromFd(text, -1);
    assert "" + text == text;
  }

  /** The response to `r` is prepared. */
  ghost predicate Answered(conn: HttpConn, r: Request, head: seq<string>, content: Content)
    reads conn, conn.readBuff, conn.writeBuff, conn.request, conn.response
  {
    conn.Valid() && conn.request.View() == r && !conn.isClose && conn.Carries("", head, content)
  }

  lemma ProcessedIsAnswered(conn: HttpConn, o: Outcome, result: Option<ProcessState>,
                            head: seq<string>, content: Content)
    requires conn.Processed(o, result) && o.code == GET_REQUEST && !conn.isClose && conn.setup.webRoot != ""
    requires result == Some(ProcessState.FINISH) ==> conn.Carries("", head, content)
    ensures result == Some(ProcessState.FINISH) && Answered(conn, o.r, head, content)
  {
  }

  /** A request arrives, and its response is prepared. */
  method Answer(conn: HttpConn, env: Environment, ghost o: Outcome, ghost head: seq<string>, ghost content: Content)
    requires conn.Valid() && !conn.isClose && Honest(env) && conn.setup.webRoot != "" && conn.writeBuff.Contents() == ""
    requires o == Parse(conn.Current(), conn.readBuff.Slack(), conn.readBuff.Contents(), conn.readBuff.Terminated())
    requires o.code == GET_REQUEST
    requires (head, content) == Respond(QuestionFor(o.r, o.code, conn.setup), conn.setup.types, env)
    modifies conn`iov0Base, conn`iov0Len, conn`iov1Base, conn`iov1Len, conn`iovCnt
    modifies conn.request, conn.response, conn.readBuff, conn.writeBuff
    ensures Answered(conn, o.r, head, content)
    ensures content.Page? ==> conn.iov1Len == old(conn.iov1Len)
  {
    var result := conn.Process(env, o, head, content);
    ProcessedIsAnswered(conn, o, result, head, content);
  }

  /** A new connection, and a request on it, whose response is prepared. */
  method Receive(conn: HttpConn, text: string, env: Environment, ghost r: Request,
                 ghost head: seq<string>, ghost content: Content)
    requires conn.Valid() && Honest(env) && conn.setup.webRoot != "" && text != ""
    requires conn.Current() == Fresh && ParsesTo(text, r)
    requires (head, content) == Respond(QuestionFor(r, GET_REQUEST, conn.setup), conn.setup.types, env)
    modifies conn, conn.request, conn.response, conn.readBuff, conn.writeBuff
    ensures Answered(conn, r, head, content)
    ensures content.Page? ==> conn.iov1Len == old(conn.iov1Len)
  {
    Connect(conn, text);
    ghost var o := WholeText(text, conn.readBuff.Terminated(), r);
    Answer(conn, env, o, head, content);
  }

  /** The client goes away after one byte of a response with a file. */
  method CutOff(conn: HttpConn, ghost head: seq<string>, ghost bytes: string)
    requires conn.Valid() && !conn.isClose && conn.Carries("", head, File(bytes)) && |bytes| <= INT_MAX
    modifies conn, conn.request, conn.response, conn.writeBuff
    ensures conn.Valid() && conn.Current() == Fresh && conn.iov1Len == |bytes|
  {
    assert |Wire(head, bytes)| > |bytes|;
    var _ := conn.WriteToFd(1, -1);
    conn.Close();
  }

  /** A page is sent to the last byte. */
  method SendPage(conn: HttpConn, ghost head: seq<string>, ghost page: string)
    requires conn.Carries("", head, Page(page))
    modifies conn, conn.writeBuff
    ensures conn.Prepared() && conn.Gather() == "" && conn.iov0Len == 0
    ensures conn.iov1Len == old(conn.iov1Len) && conn.request.View() == old(conn.request.View())
  {
    var _ := conn.WriteToFd(conn.Available(), 0);
  }

  const TEXT := "GET / HTTP/1.1\r\n\r\n"
  const SETUP := Setup("w", [], map[])
  const WITH_FILE := Environment({}, map["w/" := Stat(false, true, 10)], {"w/"}, map["w/" := "0123456789"])
  const WITHOUT_FILE := Environment({}, map[], {}, map[])

  lemma FileThenPage(r: Request)
    requires r.path == "/"
    ensures Honest(WITH_FILE) && Honest(WITHOUT_FILE)
    ensures Respond(QuestionFor(r, GET_REQUEST, SETUP), SETUP.types, WITH_FILE).1 == File("0123456789")
    ensures Respond(QuestionFor(r, GET_REQUEST, SETUP), SETUP.types, WITHOUT_FILE).1.Page?
  {
    assert "w" + "/" == "w/";
    FileIsServedIff(QuestionFor(r, GET_REQUEST, SETUP), SETUP.types, WITH_FILE);
    FileIsServedIff(QuestionFor(r, GET_REQUEST, SETUP), SETUP.types, WITHOUT_FILE);
  }

  /** The two visits, one after the other. */
  method Visits(conn: HttpConn, text: string, withFile: Environment, without: Environment, ghost r: Request,
                ghost head: seq<string>, ghost bytes: string, ghost head2: seq<string>, ghost page: string)
    requires conn.Valid() && Honest(withFile) && Honest(without) && conn.setup.webRoot != "" && text != ""
    requires conn.Current() == Fresh && ParsesTo(text, r) && |bytes| <= INT_MAX
    requires (head, File(bytes)) == Respond(QuestionFor(r, GET_REQUEST, conn.setup), conn.setup.types, withFile)
    requires (head2, Page(page)) == Respond(QuestionFor(r, GET_REQUEST, conn.setup), conn.setup.types, without)
    modifies conn, conn.request, conn.response, conn.readBuff, conn.writeBuff
    ensures conn.Prepared() && conn.Gather() == "" && conn.iov0Len == 0
    ensures conn.iov1Len == |bytes| && conn.request.View() == r
  {
    Receive(conn, text, withFile, r, head, File(bytes));
    CutOff(conn, head, bytes);
    Receive(conn, text, without, r, head2, Page(page));
    SendPage(conn, head2, page);
  }

  lemma SmallIsExact(n: nat)
    requires n <= INT_MAX
    ensures ToInt(n) == n
  {
  }

  /** What is reported as pending after them. */
  method TwoVisits(conn: HttpConn, text: string, withFile: Environment, without: Environment,
                   ghost r: Request, ghost bytes: string)
    requires conn.Valid() && Honest(withFile) && Honest(without) && conn.setup.webRoot != "" && text != ""
    requires conn.Current() == Fresh && ParsesTo(text, r) && KeepAlive(r) && |bytes| <= INT_MAX
    requires Respond(QuestionFor(r, GET_REQUEST, conn.setup), conn.setup.types, withFile).1 == File(bytes)
    requires Respond(QuestionFor(r, GET_REQUEST, conn.setup), conn.setup.types, without).1.Page?
    modifies conn, conn.request, conn.response, conn.readBuff, conn.writeBuff
    ensures conn.Prepared() && conn.Gather() == "" && conn.PendingWriteBytes() == |bytes|
    ensures conn.request.IsKeepAlive()
  {
    ghost var first := Respond(QuestionFor(r, GET_REQUEST, conn.setup), conn.setup.types, withFile);
    ghost var second := Respond(QuestionFor(r, GET_REQUEST, conn.setup), conn.setup.types, without);
    Visits(conn, text, withFile, without, r, first.0, bytes, second.0, second.1.page);
    SmallIsExact(|bytes|);
    assert conn.iov0Len + conn.iov1Len == |bytes|;
  }

  /** All has been sent, something is reported as pending, and a connection that is to be kept alive is closed. */
  method StaleElement() returns (conn: HttpConn)
    ensures conn.Prepared() && conn.Gather() == "" && conn.PendingWriteBytes() == 10
    ensures conn.request.IsKeepAlive()
    ensures forall fd, again ::
              Ownership.OnWrite(fd, Ownership.Result(0, again, false, conn.PendingWriteBytes(), conn.request.IsKeepAlive()))
              == Ownership.Close
  {
    ghost var r := SimpleRequest(TEXT);
    FileThenPage(r);
    conn := new HttpConn(SETUP);
    TwoVisits(conn, TEXT, WITH_FILE, WITHOUT_FILE, r, "0123456789");
  }
}
