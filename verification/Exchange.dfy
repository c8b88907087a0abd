/**
  From the bytes of a request to the bytes of its response: what `HttpConn::Process`
  asks `HttpResponse` for, and that the client can always read the answer.
 */
module Exchange {
  import opened Strings
  import opened RequestSpec
  import opened ResponseSpec
  import Fragmentation
  import Messages
  import Ownership
  import Proxy

  /** `HttpRequest::IsKeepAlive`. */
  function KeepAlive(r: Request): bool {
    if "CONNECTION" !in r.header then r.version == "1.1" else EqualNoCase(r.header["CONNECTION"], "KEEP-ALIVE")
  }

  /** What the server is set up with. */
  datatype Setup = Setup(webRoot: string, files: seq<string>, types: map<string, string>)

  /** The response that is asked for once the request `r` has been parsed, well or badly. */
  function QuestionFor(r: Request, code: Code, setup: Setup): Question {
    Question(setup.webRoot, r.path, setup.files, r.version, KeepAlive(r), if code.GET_REQUEST? then 200 else 400)
  }

  // ---------- What a request always fits into a head ----------

  predicate OneLine(r: Request) {
    NoneOf(r.path, {'\n'}) && NoneOf(r.version, {'\n'})
  }

  /** Holds of a request that is being parsed, and of a parsed one. */
  predicate Sound(r: Request) {
    OneLine(r) && (!r.state.REQUEST_LINE? ==> r.path != "")
  }

  lemma TargetKeepsSound(r: Request, url: string)
    requires OneLine(r) && NoneOf(url, Messages.LINE_BREAKERS)
    ensures var v := ParseTarget(r, url);
            (v.Accepted? ==> Sound(v.r)) && (v.Rejected? ==> OneLine(v.r))
  {
    if Cut(url, BLANKS).Some? {
      Proxy.CutIsGood(url, BLANKS);
      Proxy.TargetIsTidy(r, url);
    }
  }

  lemma TextKeepsSound(r: Request, data: string)
    requires Sound(r) && !r.state.BODY?
    ensures var v := ParseText(r, LineText(data));
            (v.Accepted? ==> Sound(v.r)) && (v.Rejected? ==> OneLine(v.r))
  {
    var text := LineText(data);
    Proxy.LineTextIsGood(data);
    if r.state.REQUEST_LINE? && Cut(text, BLANKS).Some? {
      Proxy.CutIsGood(text, BLANKS);
      var url := Cut(text, BLANKS).value.1;
      TargetKeepsSound(r.(method_ := "GET"), url);
      TargetKeepsSound(r.(method_ := "POST"), url);
    }
  }

  /** Whatever arrives, the path and the version of the parsed request stay on one line. */
  lemma {:induction false} RunKeepsSound(r: Request, slack: char, data: string, t: bool)
    requires Sound(r)
    ensures var o := Run(r, slack, data, t);
            && (o.code == NO_REQUEST || o.code == GET_REQUEST ==> Sound(o.r))
            && (o.code == GET_REQUEST ==> o.r.path != "")
            && (o.code == BAD_REQUEST ==> OneLine(o.r) && o.r.state.FINISH?)
    decreases |data| + if slack == '\r' then 1 else 0
  {
    if data != "" && !r.state.BODY? && FirstLine(slack, data).Ok? {
      TextKeepsSound(r, data);
      var v := ParseText(r, LineText(data));
      if v.Accepted? {
        var len := FirstLine(slack, data).len;
        RunTakesLine(r, slack, data, t, len, v.r);
        RunKeepsSound(v.r, Consume(data, len).0, Consume(data, len).1, t);
      }
    }
  }

  // ---------- Every answer can be read ----------

  /** Index file names and content types without line ends. */
  ghost predicate OneLinedSetup(setup: Setup) {
    && (forall i :: 0 <= i < |setup.files| ==> NoneOf(setup.files[i], {'\n'}))
    && (forall t :: t in setup.types ==> NoneOf(setup.types[t], {'\n'}))
  }

  /**
    Whatever bytes arrive and whatever the file system answers, a response to them
    is read back as its head and its body.
   */
  lemma AnswerIsFramed(r: Request, slack: char, data: string, t: bool, setup: Setup, env: Environment, more: string)
    requires Sound(r) && OneLinedSetup(setup)
    requires var o := Parse(r, slack, data, t);
             && (o.code == GET_REQUEST || o.code == BAD_REQUEST)
             && SmallFile(QuestionFor(o.r, o.code, setup), setup.types, env)
    ensures var o := Parse(r, slack, data, t);
            var q := QuestionFor(o.r, o.code, setup);
            ReadReply(Sent(q, setup.types, env) + more) == Some(ReplyTo(q, setup.types, env, more))
  {
    RunKeepsSound(r, slack, data, t);
    var o := Parse(r, slack, data, t);
    ResponseIsFramed(QuestionFor(o.r, o.code, setup), setup.types, env, more);
  }

  // ---------- A conversation ----------

  /** A request in the pieces in which it arrives, and the file system when it is answered. */
  datatype Turn = Turn(chunks: seq<Fragmentation.Chunk>, env: Environment)

  /** What the request is answered with when it is parsed whole, on a connection of its own. */
  function Asked(turn: Turn, setup: Setup): Question {
    QuestionFor(Run(Fresh, '\0', Fragmentation.Bytes(turn.chunks), true).r, GET_REQUEST, setup)
  }

  /**
    The state of the connection after some pieces, the bytes that it has sent,
    whether it is open, and what the second vector element still holds.
   */
  datatype Server = Server(o: Outcome, wire: string, open: bool, stale: nat)

  /** What decides whether a connection stays open after a response. */
  datatype Ending = Ending(keepAlive: bool, sendsFile: bool)

  function EndingOf(q: Question, setup: Setup, env: Environment): Ending {
    Ending(q.keepAlive, Respond(q, setup.types, env).1.File?)
  }

  /** Only writing out a file uses the second vector element, and empties it. */
  function StaleAfter(e: Ending, stale: nat): nat {
    if e.sendsFile then 0 else stale
  }

  /** `OnWrite`, once everything has been written: whether the connection stays open. */
  predicate Stays(e: Ending, stale: nat) {
    Ownership.OnWrite(0, Ownership.Result(0, false, false, ToInt(StaleAfter(e, stale)), e.keepAlive)).Rearm?
  }

  /** The response has been written out. */
  function Reply(s: Server, o: Outcome, q: Question, setup: Setup, env: Environment): Server {
    var e := EndingOf(q, setup, env);
    Server(o, s.wire + Sent(q, setup.types, env), Stays(e, s.stale), StaleAfter(e, s.stale))
  }

  /**
    What follows from a parse outcome.  An exception ends everything; with no web
    root there is one in place of every response.
   */
  function Answer(s: Server, o: Outcome, setup: Setup, env: Environment): Server {
    match o.code
    case NO_REQUEST => s.(o := o)
    case Fault => s.(o := o, open := false)
    case _ =>
      if setup.webRoot == "" then s.(o := o, open := false)
      else Reply(s, o, QuestionFor(o.r, o.code, setup), setup, env)
  }

  /** The response that `o` is answered with can be written: the counts of pending bytes are `int`s. */
  predicate Fits(o: Outcome, setup: Setup, env: Environment, stale: nat) {
    o.code == GET_REQUEST || o.code == BAD_REQUEST ==>
      var q := QuestionFor(o.r, o.code, setup);
      SmallFile(q, setup.types, env) && |Sent(q, setup.types, env)| + stale < 0x1_0000_0000
  }

  /** `s'` is what follows from `o` if the response, where there is one, consists of `head` and `content`. */
  predicate Follows(s: Server, s': Server, o: Outcome, setup: Setup, head: seq<string>, content: Content) {
    match o.code
    case NO_REQUEST => s' == s.(o := o)
    case Fault => s'.wire == s.wire && !s'.open
    case _ =>
      if setup.webRoot == "" then s'.wire == s.wire && !s'.open
      else IsReply(s, s', o, head, content)
  }

  predicate IsReply(s: Server, s': Server, o: Outcome, head: seq<string>, content: Content) {
    var e := Ending(KeepAlive(o.r), content.File?);
    && s' == Server(o, s.wire + Wire(head, Body(content)), Stays(e, s.stale), StaleAfter(e, s.stale))
    && (content.File? ==> |content.bytes| <= INT_MAX)
    && |Wire(head, Body(content))| + s.stale < 0x1_0000_0000
  }

  lemma AnswerFollows(s: Server, o: Outcome, setup: Setup, env: Environment, head: seq<string>, content: Content)
    requires (head, content) == Respond(QuestionFor(o.r, o.code, setup), setup.types, env)
    requires Fits(o, setup, env, s.stale)
    ensures Follows(s, Answer(s, o, setup, env), o, setup, head, content)
  {
  }

  /** One reading of the socket, `Process`, and writing out the response; a closed connection reads nothing. */
  function Serve(s: Server, chunk: Fragmentation.Chunk, setup: Setup, env: Environment): Server {
    if !s.open then s else Answer(s, Fragmentation.Process(s.o, chunk), setup, env)
  }

  function ServeChunks(s: Server, chunks: seq<Fragmentation.Chunk>, setup: Setup, env: Environment): Server
    decreases |chunks|
  {
    if chunks == [] then s else ServeChunks(Serve(s, chunks[0], setup, env), chunks[1..], setup, env)
  }

  function ServeAll(s: Server, turns: seq<Turn>, setup: Setup): Server
    decreases |turns|
  {
    if turns == [] then s else ServeAll(ServeChunks(s, turns[0].chunks, setup, turns[0].env), turns[1..], setup)
  }

  /** How many responses are sent: up to and including the first after which the connection is closed. */
  function CountServed(endings: seq<Ending>, stale: nat): (n: nat)
    ensures n <= |endings|
  {
    if endings == [] then 0
    else 1 + if Stays(endings[0], stale) then CountServed(endings[1..], StaleAfter(endings[0], stale)) else 0
  }

  /** What the second vector element holds after some responses. */
  function StaleAfterAll(endings: seq<Ending>, stale: nat): nat {
    if endings == [] then stale else StaleAfterAll(endings[1..], StaleAfter(endings[0], stale))
  }

  /** After response `i`, if the connection gets there, it stays open. */
  predicate StaysAfter(endings: seq<Ending>, stale: nat, i: nat)
    requires i < |endings|
  {
    Stays(endings[i], StaleAfterAll(endings[..i], stale))
  }

  /** All responses but the last one leave the connection open, and if any is not sent, the last one closes it. */
  lemma {:induction false} CountUntilClosed(endings: seq<Ending>, stale: nat)
    ensures var n := CountServed(endings, stale);
            && (forall i :: 0 <= i < n - 1 ==> StaysAfter(endings, stale, i))
            && (n < |endings| ==> n > 0 && !StaysAfter(endings, stale, n - 1))
    decreases |endings|
  {
    if endings != [] {
      var rest, stale' := endings[1..], StaleAfter(endings[0], stale);
      CountUntilClosed(rest, stale');
      assert endings[..0] == [];
      forall i | 0 <= i < |rest| ensures StaysAfter(endings, stale, i + 1) == StaysAfter(rest, stale', i) {
        assert endings[..i + 1][1..] == rest[..i];
      }
      var n := CountServed(endings, stale);
      forall i | 0 <= i < n - 1 ensures StaysAfter(endings, stale, i) {
        if i > 0 {
          assert StaysAfter(rest, stale', i - 1);
        }
      }
    }
  }

  /** With nothing stale, only a request that is not kept alive closes the connection. */
  lemma {:induction false} CountWithoutStale(endings: seq<Ending>)
    requires forall i :: 0 <= i < |endings| - 1 ==> endings[i].keepAlive
    ensures CountServed(endings, 0) == |endings|
    decreases |endings|
  {
    if |endings| > 1 {
      CountWithoutStale(endings[1..]);
    }
  }

  /** A connection stays open exactly if it is to be kept alive and nothing is stale when all has been sent. */
  lemma StaysIff(e: Ending, stale: nat)
    ensures Stays(e, stale) <==> e.keepAlive && (e.sendsFile || stale % 0x1_0000_0000 == 0)
  {
  }

  /** With nothing stale, the last response that is sent is the first that is not kept alive, or the last of all. */
  lemma CountIsFirstClosing(endings: seq<Ending>)
    ensures var n := CountServed(endings, 0);
            && (forall i :: 0 <= i < n - 1 ==> endings[i].keepAlive)
            && (n < |endings| ==> n > 0 && !endings[n - 1].keepAlive)
            && (endings != [] ==> n > 0)
  {
    CountUntilClosed(endings, 0);
    var n := CountServed(endings, 0);
    forall i | 0 <= i < n ensures StaysAfter(endings, 0, i) <==> endings[i].keepAlive {
      NothingStale(endings[..i]);
      StaysIff(endings[i], 0);
    }
  }

  lemma {:induction false} NothingStale(endings: seq<Ending>)
    ensures StaleAfterAll(endings, 0) == 0
  {
    if endings != [] {
      NothingStale(endings[1..]);
    }
  }

  /** With something stale, a page closes the connection, kept alive or not. */
  lemma StalePageCloses(endings: seq<Ending>, stale: nat)
    requires endings != [] && !endings[0].sendsFile && 0 < stale < 0x1_0000_0000
    ensures CountServed(endings, stale) == 1
  {
  }

  function Endings(turns: seq<Turn>, setup: Setup): (endings: seq<Ending>)
    ensures |endings| == |turns|
    ensures forall i :: 0 <= i < |turns| ==> endings[i] == EndingOf(Asked(turns[i], setup), setup, turns[i].env)
  {
    seq(|turns|, i requires 0 <= i < |turns| => EndingOf(Asked(turns[i], setup), setup, turns[i].env))
  }

  /** The turns that are answered. */
  function Served(turns: seq<Turn>, setup: Setup, stale: nat): seq<Turn> {
    if setup.webRoot == "" then [] else turns[..CountServed(Endings(turns, setup), stale)]
  }

  /** They are the first ones; all but the last leave the connection open, and the last closes it if any are left. */
  lemma ServedUntilClosed(turns: seq<Turn>, setup: Setup, stale: nat) returns (n: nat)
    requires setup.webRoot != ""
    ensures n <= |turns| && Served(turns, setup, stale) == turns[..n]
    ensures forall i :: 0 <= i < n - 1 ==> StaysAfter(Endings(turns, setup), stale, i)
    ensures n < |turns| ==> n > 0 && !StaysAfter(Endings(turns, setup), stale, n - 1)
  {
    var endings := Endings(turns, setup);
    n := CountServed(endings, stale);
    CountUntilClosed(endings, stale);
  }

  /** A client reads `n` replies. */
  function ReadReplies(s: string, n: nat): Option<(seq<Reply>, string)>
    decreases n
  {
    if n == 0 then Some(([], s))
    else
      match ReadReply(s)
      case None => None
      case Some(reply) =>
        match ReadReplies(reply.rest, n - 1)
        case None => None
        case Some((replies, rest)) => Some(([reply] + replies, rest))
  }

  /** The stream of the answers, each for its request alone. */
  function Answers(turns: seq<Turn>, setup: Setup): string {
    if turns == [] then ""
    else Sent(Asked(turns[0], setup), setup.types, turns[0].env) + Answers(turns[1..], setup)
  }

  function Expected(turns: seq<Turn>, setup: Setup): seq<Reply> {
    if turns == [] then []
    else [ReplyTo(Asked(turns[0], setup), setup.types, turns[0].env, Answers(turns[1..], setup))]
         + Expected(turns[1..], setup)
  }

  predicate Readable(turn: Turn, setup: Setup) {
    Fragmentation.CutsOne(turn.chunks) && SmallFile(Asked(turn, setup), setup.types, turn.env)
  }

  /** A well-formed request, and a response that can be written: the counts of pending bytes are `int`s. */
  predicate GoodTurn(turn: Turn, setup: Setup, stale: nat) {
    && Readable(turn, setup)
    && |Sent(Asked(turn, setup), setup.types, turn.env)| + stale < 0x1_0000_0000
  }

  lemma {:induction false} ClosedStaysClosed(s: Server, turns: seq<Turn>, setup: Setup)
    requires !s.open
    ensures ServeAll(s, turns, setup) == s
    decreases |turns|
  {
    if turns != [] {
      ClosedReadsNothing(s, turns[0].chunks, setup, turns[0].env);
      ClosedStaysClosed(s, turns[1..], setup);
    }
  }

  lemma {:induction false} ClosedReadsNothing(s: Server, chunks: seq<Fragmentation.Chunk>, setup: Setup, env: Environment)
    requires !s.open
    ensures ServeChunks(s, chunks, setup, env) == s
    decreases |chunks|
  {
    if chunks != [] {
      ClosedReadsNothing(s, chunks[1..], setup, env);
    }
  }

  /** While the answers are `NO_REQUEST`, nothing is sent; the last chunk has the request answered. */
  lemma {:induction false} ServeOne(s: Server, chunks: seq<Fragmentation.Chunk>, setup: Setup, env: Environment,
                                    final: Outcome)
    requires s.open && final.code == GET_REQUEST
    requires Fragmentation.Answers(Fragmentation.Process, s.o, chunks, final)
    ensures ServeChunks(s, chunks, setup, env) == Answer(s, final, setup, env)
    decreases |chunks|
  {
    var s' := Serve(s, chunks[0], setup, env);
    if |chunks| == 1 {
      assert ServeChunks(s', chunks[1..], setup, env) == s';
    } else {
      ServeOne(s', chunks[1..], setup, env, final);
    }
  }

  /** Without a web root nothing is ever sent. */
  lemma {:induction false} NothingWithoutRoot(s: Server, chunks: seq<Fragmentation.Chunk>, setup: Setup, env: Environment)
    requires setup.webRoot == ""
    ensures ServeChunks(s, chunks, setup, env).wire == s.wire
    decreases |chunks|
  {
    if chunks != [] {
      NothingWithoutRoot(Serve(s, chunks[0], setup, env), chunks[1..], setup, env);
    }
  }

  lemma {:induction false} NothingWithoutRootAtAll(s: Server, turns: seq<Turn>, setup: Setup)
    requires setup.webRoot == ""
    ensures ServeAll(s, turns, setup).wire == s.wire
    decreases |turns|
  {
    if turns != [] {
      NothingWithoutRoot(s, turns[0].chunks, setup, turns[0].env);
      NothingWithoutRootAtAll(ServeChunks(s, turns[0].chunks, setup, turns[0].env), turns[1..], setup);
    }
  }

  /** However the requests are cut, the connection sends the answers to the uncut requests that it serves, in order. */
  lemma {:induction false} ServedIsAnswers(s: Server, turns: seq<Turn>, setup: Setup)
    requires s.open && Fragmentation.Idle(s.o)
    requires forall i :: 0 <= i < |turns| ==> Fragmentation.CutsOne(turns[i].chunks)
    ensures ServeAll(s, turns, setup).wire == s.wire + Answers(Served(turns, setup, s.stale), setup)
    decreases |turns|
  {
    if turns == [] {
      assert s.wire + "" == s.wire;
    } else if setup.webRoot == "" {
      NothingWithoutRootAtAll(s, turns, setup);
      assert s.wire + "" == s.wire;
    } else {
      var turn := turns[0];
      Fragmentation.OneRequest(s.o, turn.chunks);
      var final := Run(Fresh, '\0', Fragmentation.Bytes(turn.chunks), true);
      ServeOne(s, turn.chunks, setup, turn.env, final);
      var s' := Reply(s, final, Asked(turn, setup), setup, turn.env);
      assert s' == ServeChunks(s, turn.chunks, setup, turn.env);
      var rest := if s'.open then Served(turns[1..], setup, s'.stale) else [];
      AfterTheFirst(turns, setup, s.stale);
      AnswersSplit(turn, rest, setup);
      Assoc(s.wire, Sent(Asked(turn, setup), setup.types, turn.env), Answers(rest, setup));
      if s'.open {
        ServedIsAnswers(s', turns[1..], setup);
      } else {
        ClosedStaysClosed(s', turns[1..], setup);
        assert s'.wire + "" == s'.wire;
      }
    }
  }

  /** With nothing stale, the connection is open at the end exactly if every request was to be kept alive. */
  lemma {:induction false} OpenIff(s: Server, turns: seq<Turn>, setup: Setup)
    requires s.open && Fragmentation.Idle(s.o) && s.stale == 0 && setup.webRoot != ""
    requires forall i :: 0 <= i < |turns| ==> Fragmentation.CutsOne(turns[i].chunks)
    ensures ServeAll(s, turns, setup).open <==> forall i :: 0 <= i < |turns| ==> Asked(turns[i], setup).keepAlive
    decreases |turns|
  {
    if turns != [] {
      var s' := FirstTurn(s, turns[0], setup);
      if s'.open {
        OpenIff(s', turns[1..], setup);
        assert forall i :: 0 < i < |turns| ==> turns[i] == turns[1..][i - 1];
      } else {
        ClosedStaysClosed(s', turns[1..], setup);
      }
    }
  }

  lemma FirstTurn(s: Server, turn: Turn, setup: Setup) returns (s': Server)
    requires s.open && Fragmentation.Idle(s.o) && s.stale == 0 && setup.webRoot != ""
    requires Fragmentation.CutsOne(turn.chunks)
    ensures s' == ServeChunks(s, turn.chunks, setup, turn.env)
    ensures Fragmentation.Idle(s'.o) && s'.stale == 0 && (s'.open <==> Asked(turn, setup).keepAlive)
  {
    Fragmentation.OneRequest(s.o, turn.chunks);
    var final := Run(Fresh, '\0', Fragmentation.Bytes(turn.chunks), true);
    ServeOne(s, turn.chunks, setup, turn.env, final);
    s' := Answer(s, final, setup, turn.env);
    StaysIff(EndingOf(Asked(turn, setup), setup, turn.env), 0);
  }

  lemma AfterTheFirst(turns: seq<Turn>, setup: Setup, stale: nat)
    requires turns != [] && setup.webRoot != ""
    ensures var e := EndingOf(Asked(turns[0], setup), setup, turns[0].env);
            Served(turns, setup, stale) ==
            [turns[0]] + if Stays(e, stale) then Served(turns[1..], setup, StaleAfter(e, stale)) else []
  {
    EndingsSplit(turns, setup);
    CountSplit(turns, Endings(turns, setup), stale);
  }

  lemma CountSplit<T>(all: seq<T>, endings: seq<Ending>, stale: nat)
    requires |all| == |endings| > 0
    ensures var stale' := StaleAfter(endings[0], stale);
            all[..CountServed(endings, stale)] ==
            [all[0]] + if Stays(endings[0], stale) then all[1..][..CountServed(endings[1..], stale')] else []
  {
    var n := if Stays(endings[0], stale) then CountServed(endings[1..], StaleAfter(endings[0], stale)) else 0;
    assert all[..n + 1] == [all[0]] + all[1..][..n];
  }

  lemma EndingsSplit(turns: seq<Turn>, setup: Setup)
    requires turns != []
    ensures var es := Endings(turns, setup);
            es[0] == EndingOf(Asked(turns[0], setup), setup, turns[0].env) && es[1..] == Endings(turns[1..], setup)
  {
  }

  lemma AnswersSplit(turn: Turn, rest: seq<Turn>, setup: Setup)
    ensures Answers([turn] + rest, setup) == Sent(Asked(turn, setup), setup.types, turn.env) + Answers(rest, setup)
  {
    assert ([turn] + rest)[1..] == rest;
  }

  lemma FreshIsSound()
    ensures Sound(Fresh)
  {
  }

  lemma TurnIsRead(turn: Turn, setup: Setup, more: string)
    requires OneLinedSetup(setup) && Readable(turn, setup)
    ensures var reply := ReplyTo(Asked(turn, setup), setup.types, turn.env, more);
            ReadReply(Sent(Asked(turn, setup), setup.types, turn.env) + more) == Some(reply) && reply.rest == more
  {
    var o := Run(Fresh, '\0', Fragmentation.Bytes(turn.chunks), true);
    FreshIsSound();
    RunKeepsSound(Fresh, '\0', Fragmentation.Bytes(turn.chunks), true);
    assert OneLine(o.r);
    ResponseIsFramed(QuestionFor(o.r, GET_REQUEST, setup), setup.types, turn.env, more);
  }

  lemma ReadFirst(s: string, n: nat, first: Reply, more: string, others: seq<Reply>, rest: string)
    requires n > 0 && ReadReply(s) == Some(first) && first.rest == more
    requires ReadReplies(more, n - 1) == Some((others, rest))
    ensures ReadReplies(s, n) == Some(([first] + others, rest))
  {
  }

  lemma TurnIsReadFirst(turn: Turn, setup: Setup, more: string, n: nat, others: seq<Reply>)
    requires OneLinedSetup(setup) && Readable(turn, setup)
    requires ReadReplies(more, n) == Some((others, ""))
    ensures var first := ReplyTo(Asked(turn, setup), setup.types, turn.env, more);
            ReadReplies(Sent(Asked(turn, setup), setup.types, turn.env) + more, n + 1) == Some(([first] + others, ""))
  {
    var first := ReplyTo(Asked(turn, setup), setup.types, turn.env, more);
    var s := Sent(Asked(turn, setup), setup.types, turn.env) + more;
    TurnIsRead(turn, setup, more);
    ReadFirst(s, n + 1, first, more, others, "");
  }

  lemma {:induction false} AnswersAreRead(turns: seq<Turn>, setup: Setup)
    requires OneLinedSetup(setup) && forall i :: 0 <= i < |turns| ==> Readable(turns[i], setup)
    ensures ReadReplies(Answers(turns, setup), |turns|) == Some((Expected(turns, setup), ""))
    decreases |turns|
  {
    if turns != [] {
      var tail := turns[1..];
      AnswersAreRead(tail, setup);
      TurnIsReadFirst(turns[0], setup, Answers(tail, setup), |tail|, Expected(tail, setup));
      assert |tail| + 1 == |turns|;
    }
  }

  /**
    On one connection, for every list of requests and every cutting of each: the
    client reads one reply for each request up to the first after which the
    connection is closed, the reply to that request alone, and nothing else.
   */
  lemma ConversationTheorem(o: Outcome, turns: seq<Turn>, setup: Setup, stale: nat)
    requires Fragmentation.Idle(o)
    requires OneLinedSetup(setup) && forall i :: 0 <= i < |turns| ==> GoodTurn(turns[i], setup, stale)
    ensures var served := Served(turns, setup, stale);
            ReadReplies(ServeAll(Server(o, "", true, stale), turns, setup).wire, |served|)
            == Some((Expected(served, setup), ""))
  {
    var served := Served(turns, setup, stale);
    ServedIsAnswers(Server(o, "", true, stale), turns, setup);
    AnswersAreRead(served, setup);
    assert "" + Answers(served, setup) == Answers(served, setup);
  }
}
