/**
  A whole connection in the terms of its clients: messages go in, in any pieces, and
  what is read back is the files they ask for.
 */
module Sessions {
  import opened Strings
  import opened RequestSpec
  import opened ResponseSpec
  import opened Exchange
  import opened Conversations
  import opened HttpConns
  import Fragmentation
  import Messages
  import Replies

  // ---------- What a message asks for ----------

  /** The value of the last field with the name Connection, in any case. */
  function LastConnection(fields: seq<Messages.Field>): Option<string> {
    if fields == [] then None
    else
      var later := LastConnection(fields[1..]);
      if later.Some? then later
      else if EqualNoCase(fields[0].0, "CONNECTION") then Some(fields[0].1)
      else None
  }

  /** Whether the connection is to be kept alive: by the field, or else by the version. */
  predicate WantsKeepAlive(m: Messages.Message) {
    match LastConnection(m.fields)
    case None => m.version == "1.1"
    case Some(value) => EqualNoCase(value, "KEEP-ALIVE")
  }

  lemma NameIsUpper(name: string)
    ensures EqualNoCase(name, "CONNECTION") <==> Upper(name) == "CONNECTION"
  {
  }

  lemma {:induction false} ConnectionInHeader(fields: seq<Messages.Field>, acc: map<string, string>)
    ensures var header := Messages.HeaderOf(fields, acc);
            match LastConnection(fields)
            case None => "CONNECTION" in header <==> "CONNECTION" in acc
            case Some(value) => "CONNECTION" in header && header["CONNECTION"] == value
    ensures var header := Messages.HeaderOf(fields, acc);
            LastConnection(fields) == None && "CONNECTION" in acc ==> header["CONNECTION"] == acc["CONNECTION"]
    decreases |fields|
  {
    if fields != [] {
      NameIsUpper(fields[0].0);
      ConnectionInHeader(fields[1..], acc[Upper(fields[0].0) := fields[0].1]);
    }
  }

  lemma KeepAliveIs(m: Messages.Message)
    ensures KeepAlive(Messages.BeforeBody(m)) == WantsKeepAlive(m)
  {
    ConnectionInHeader(m.fields, map[]);
  }

  /** "Connection: close" ends the connection, and so does version 1.0 without a field. */
  lemma WhoIsNotKeptAlive(m: Messages.Message, front: seq<Messages.Field>, name: string, value: string)
    requires EqualNoCase(name, "CONNECTION") && EqualNoCase(value, "CLOSE")
    ensures m.fields == front + [(name, value)] ==> !WantsKeepAlive(m)
    ensures m.version == "1.0" && LastConnection(m.fields) == None ==> !WantsKeepAlive(m)
  {
    if m.fields == front + [(name, value)] {
      LastFieldWins(front, name, value);
    }
  }

  lemma {:induction false} LastFieldWins(front: seq<Messages.Field>, name: string, value: string)
    requires EqualNoCase(name, "CONNECTION")
    ensures LastConnection(front + [(name, value)]) == Some(value)
    decreases |front|
  {
    if front == [] {
      assert front + [(name, value)] == [(name, value)];
      assert LastConnection([(name, value)][1..]) == None;
    } else {
      assert (front + [(name, value)])[1..] == front[1..] + [(name, value)];
      LastFieldWins(front[1..], name, value);
    }
  }

  /** A body changes nothing that the answer depends on. */
  lemma BodyKeepsHead(r: Request, data: string)
    requires r.state.BODY? && Run(r, '\0', data, true).code == GET_REQUEST
    ensures var r' := Run(r, '\0', data, true).r;
            r'.path == r.path && r'.version == r.version && KeepAlive(r') == KeepAlive(r)
  {
    var r1 := r.(body := CString(data));
    assert WithContentType(r.header) == r.header || WithContentType(r.header) == r.header["CONTENT-TYPE" := ""];
    assert "CONTENT-TYPE" != "CONNECTION";
  }

  /** What the server asks for when the message has been parsed. */
  lemma AskedIs(turn: Turn, m: Messages.Message, setup: Setup)
    requires Messages.Printable(m) && Fragmentation.CutsOne(turn.chunks)
    requires Fragmentation.Bytes(turn.chunks) == Messages.Print(m)
    ensures Asked(turn, setup) == Question(setup.webRoot, m.path, setup.files, m.version, WantsKeepAlive(m), 200)
  {
    var r := Messages.BeforeBody(m);
    Messages.PrintedIsParsed(m, '\0', true);
    KeepAliveIs(m);
    if r.state.FINISH? {
      Fragmentation.RunStaysFinished(r, '\0', m.body, true);
    } else {
      BodyKeepsHead(r, m.body);
    }
  }

  // ---------- Visits ----------

  /** A message in the pieces in which it arrives, and the file system when it is answered. */
  datatype Visit = Visit(message: Messages.Message, pieces: seq<string>, env: Environment)

  function AsArrivals(visits: seq<Visit>): (arrivals: seq<Arrival>)
    ensures |arrivals| == |visits|
    ensures forall i :: 0 <= i < |visits| ==> arrivals[i] == Arrival(visits[i].pieces, visits[i].env)
  {
    seq(|visits|, i requires 0 <= i < |visits| => Arrival(visits[i].pieces, visits[i].env))
  }

  /** The pieces make up the message. */
  predicate Delivers(v: Visit) {
    Messages.Printable(v.message) && Text(v.pieces) == Messages.Print(v.message)
  }

  /** The reply that the message should get. */
  ghost predicate Answered(reply: Reply, v: Visit, setup: Setup) {
    Replies.Answers(reply, setup.webRoot, v.message.path, setup.files, v.message.version, WantsKeepAlive(v.message),
                    setup.types, v.env)
  }

  lemma ExpectedSplits(turns: seq<Turn>, setup: Setup)
    requires turns != []
    ensures Expected(turns, setup) ==
            [ReplyTo(Asked(turns[0], setup), setup.types, turns[0].env, Answers(turns[1..], setup))]
            + Expected(turns[1..], setup)
  {
  }

  lemma VisitIsAnswered(turn: Turn, v: Visit, setup: Setup, more: string)
    requires Delivers(v) && turn == AsTurn(Arrival(v.pieces, v.env)) && Fragmentation.CutsOne(turn.chunks)
    ensures Asked(turn, setup).keepAlive == WantsKeepAlive(v.message)
    ensures Answered(ReplyTo(Asked(turn, setup), setup.types, turn.env, more), v, setup)
  {
    AskedIs(turn, v.message, setup);
    Replies.ReplyAnswers(Asked(turn, setup), setup.types, v.env, more);
  }

  /** The turns deliver the visits, each in pieces that make up one request. */
  ghost predicate AreTurns(turns: seq<Turn>, visits: seq<Visit>) {
    && |turns| == |visits|
    && forall i :: 0 <= i < |visits| ==>
         && Delivers(visits[i]) && turns[i] == AsTurn(Arrival(visits[i].pieces, visits[i].env))
         && Fragmentation.CutsOne(turns[i].chunks)
  }

  ghost predicate AllAnswered(replies: seq<Reply>, visits: seq<Visit>, setup: Setup) {
    |replies| <= |visits| && forall i :: 0 <= i < |replies| ==> Answered(replies[i], visits[i], setup)
  }

  lemma OneMoreAnswered(first: Reply, rest: seq<Reply>, visits: seq<Visit>, setup: Setup)
    requires visits != [] && Answered(first, visits[0], setup) && AllAnswered(rest, visits[1..], setup)
    ensures AllAnswered([first] + rest, visits, setup)
  {
    var replies := [first] + rest;
    forall i | 0 <= i < |replies| ensures Answered(replies[i], visits[i], setup) {
      if i > 0 {
        assert Answered(rest[i - 1], visits[1..][i - 1], setup);
      }
    }
  }

  /** The replies expected to turns answer the visits, one by one. */
  lemma {:induction false} ExpectedAreAnswered(turns: seq<Turn>, visits: seq<Visit>, setup: Setup)
    requires AreTurns(turns, visits)
    ensures |Expected(turns, setup)| == |turns| && AllAnswered(Expected(turns, setup), visits, setup)
    decreases |turns|
  {
    if turns != [] {
      var more := Answers(turns[1..], setup);
      RestAreTurns(turns, visits);
      VisitIsAnswered(turns[0], visits[0], setup, more);
      ExpectedAreAnswered(turns[1..], visits[1..], setup);
      OneMoreAnswered(ReplyTo(Asked(turns[0], setup), setup.types, turns[0].env, more), Expected(turns[1..], setup),
                      visits, setup);
      ExpectedSplits(turns, setup);
    }
  }

  lemma RestAreTurns(turns: seq<Turn>, visits: seq<Visit>)
    requires AreTurns(turns, visits) && turns != []
    ensures AreTurns(turns[1..], visits[1..])
  {
  }

  /** The replies expected to those that are served answer the first visits. */
  lemma ServedAreAnswered(visits: seq<Visit>, turns: seq<Turn>, setup: Setup, n: nat)
    requires AreTurns(turns, visits) && n <= |visits|
    ensures |Expected(turns[..n], setup)| == n && AllAnswered(Expected(turns[..n], setup), visits, setup)
  {
    assert AreTurns(turns[..n], visits[..n]);
    ExpectedAreAnswered(turns[..n], visits[..n], setup);
    var replies := Expected(turns[..n], setup);
    forall i | 0 <= i < n ensures Answered(replies[i], visits[i], setup) {
      assert Answered(replies[i], visits[..n][i], setup);
    }
  }

  lemma EndingsAsWished(visits: seq<Visit>, turns: seq<Turn>, setup: Setup) returns (endings: seq<Ending>)
    requires AreTurns(turns, visits)
    ensures endings == Endings(turns, setup) && |endings| == |visits|
    ensures forall i :: 0 <= i < |visits| ==> endings[i].keepAlive == WantsKeepAlive(visits[i].message)
  {
    endings := Endings(turns, setup);
    forall i | 0 <= i < |visits| ensures endings[i].keepAlive == WantsKeepAlive(visits[i].message) {
      VisitIsAnswered(turns[i], visits[i], setup, "");
    }
  }

  ghost predicate AllDelivered(visits: seq<Visit>) {
    forall i :: 0 <= i < |visits| ==> Delivers(visits[i])
  }

  /** The replies go up to the first to a message that does not want the connection kept alive. */
  predicate UntilNotKeptAlive(n: nat, visits: seq<Visit>) {
    && n <= |visits| && (visits != [] ==> n > 0)
    && (forall i :: 0 <= i < n - 1 ==> WantsKeepAlive(visits[i].message))
    && (n < |visits| ==> !WantsKeepAlive(visits[n - 1].message))
  }

  lemma VisitsAreTurns(visits: seq<Visit>, setup: Setup, stale: nat) returns (turns: seq<Turn>)
    requires AllDelivered(visits) && Good(AsArrivals(visits), setup, stale)
    ensures turns == AsTurns(AsArrivals(visits)) && AreTurns(turns, visits)
  {
    turns := AsTurns(AsArrivals(visits));
    forall i | 0 <= i < |visits| ensures Fragmentation.CutsOne(turns[i].chunks) {
      assert GoodTurn(AsTurn(AsArrivals(visits)[i]), setup, stale);
    }
  }

  /** What the replies are that are expected to the turns that are served. */
  lemma ServedReplies(visits: seq<Visit>, turns: seq<Turn>, setup: Setup, stale: nat)
    requires AreTurns(turns, visits) && setup.webRoot != ""
    ensures AllAnswered(Expected(Served(turns, setup, stale), setup), visits, setup)
    ensures |Expected(Served(turns, setup, stale), setup)| == |Served(turns, setup, stale)|
  {
    var n := ServedUntilClosed(turns, setup, stale);
    ServedAreAnswered(visits, turns, setup, n);
  }

  lemma CountAsWished(endings: seq<Ending>, visits: seq<Visit>)
    requires |endings| == |visits|
    requires forall i :: 0 <= i < |visits| ==> endings[i].keepAlive == WantsKeepAlive(visits[i].message)
    ensures UntilNotKeptAlive(CountServed(endings, 0), visits)
  {
    CountIsFirstClosing(endings);
  }

  lemma ServedCount(visits: seq<Visit>, turns: seq<Turn>, setup: Setup)
    requires AreTurns(turns, visits) && setup.webRoot != ""
    ensures UntilNotKeptAlive(|Served(turns, setup, 0)|, visits)
  {
    var endings := EndingsAsWished(visits, turns, setup);
    CountAsWished(endings, visits);
  }

  lemma RepliesAnswer(visits: seq<Visit>, setup: Setup, stale: nat, served: seq<Turn>) returns (replies: seq<Reply>)
    requires AllDelivered(visits) && Good(AsArrivals(visits), setup, stale) && setup.webRoot != ""
    requires served == Served(AsTurns(AsArrivals(visits)), setup, stale)
    ensures replies == Expected(served, setup) && |replies| == |served| && AllAnswered(replies, visits, setup)
    ensures stale == 0 ==> UntilNotKeptAlive(|replies|, visits)
  {
    var turns := VisitsAreTurns(visits, setup, stale);
    ServedReplies(visits, turns, setup, stale);
    ServedCount(visits, turns, setup);
    replies := Expected(served, setup);
  }

  lemma OpenIsKeptAlive(visits: seq<Visit>, setup: Setup, stale: nat)
    requires AllDelivered(visits) && Good(AsArrivals(visits), setup, stale)
    ensures (forall i :: 0 <= i < |visits| ==> Asked(AsTurn(AsArrivals(visits)[i]), setup).keepAlive)
            <==> forall i :: 0 <= i < |visits| ==> WantsKeepAlive(visits[i].message)
  {
    var turns := VisitsAreTurns(visits, setup, stale);
    forall i | 0 <= i < |visits|
      ensures Asked(AsTurn(AsArrivals(visits)[i]), setup).keepAlive == WantsKeepAlive(visits[i].message)
    {
      VisitIsAnswered(turns[i], visits[i], setup, "");
    }
  }

  /**
    A connection from its beginning.  The client reads the answers to its messages, in
    order and nothing else.  If nothing is left over from an earlier connection, it
    reads them up to the first message that does not want the connection kept alive,
    and the connection is closed exactly if there is such a message.
   */
  method ServeVisits(conn: HttpConn, fd: int, visits: seq<Visit>) returns (open: bool, ghost replies: seq<Reply>)
    requires conn.Valid() && conn.Current() == Fresh && OneLinedSetup(conn.setup) && conn.setup.webRoot != ""
    requires AllDelivered(visits) && Good(AsArrivals(visits), conn.setup, conn.iov1Len)
    requires HaveRoom(Sizes(AsArrivals(visits)), |conn.readBuff.container| - 1)
    modifies conn, conn.request, conn.response, conn.readBuff, conn.writeBuff
    ensures ReadReplies(conn.wire, |replies|) == Some((replies, "")) && AllAnswered(replies, visits, conn.setup)
    ensures old(conn.iov1Len) == 0 ==> UntilNotKeptAlive(|replies|, visits)
    ensures old(conn.iov1Len) == 0 ==> (open <==> forall i :: 0 <= i < |visits| ==> WantsKeepAlive(visits[i].message))
  {
    ghost var stale, arrivals := conn.iov1Len, AsArrivals(visits);
    replies := RepliesAnswer(visits, conn.setup, stale, Served(AsTurns(arrivals), conn.setup, stale));
    OpenIsKeptAlive(visits, conn.setup, stale);
    open := ServeConnection(conn, fd, AsArrivals(visits));
  }

  // ---------- Single messages ----------

  /** What is sent for one message, wherever the connection is, reads as its answer. */
  lemma MessageIsAnswered(s: Server, turn: Turn, m: Messages.Message, setup: Setup, more: string)
    returns (text: string, reply: Reply)
    requires s.open && Fragmentation.Idle(s.o) && setup.webRoot != "" && OneLinedSetup(setup)
    requires Messages.Printable(m) && Fragmentation.Bytes(turn.chunks) == Messages.Print(m) && Readable(turn, setup)
    ensures ServeChunks(s, turn.chunks, setup, turn.env).wire == s.wire + text
    ensures ReadReply(text + more) == Some(reply) && reply.rest == more
    ensures Replies.Answers(reply, setup.webRoot, m.path, setup.files, m.version, WantsKeepAlive(m), setup.types, turn.env)
  {
    var q := Asked(turn, setup);
    Fragmentation.OneRequest(s.o, turn.chunks);
    ServeOne(s, turn.chunks, setup, turn.env, Run(Fresh, '\0', Fragmentation.Bytes(turn.chunks), true));
    AskedIs(turn, m, setup);
    TurnIsRead(turn, setup, more);
    text, reply := Sent(q, setup.types, turn.env), ReplyTo(q, setup.types, turn.env, more);
    Replies.ReplyAnswers(q, setup.types, turn.env, more);
  }

  /** A message that names a servable file gets that file. */
  lemma MessageGetsFile(s: Server, turn: Turn, m: Messages.Message, setup: Setup, more: string)
    returns (text: string, reply: Reply)
    requires s.open && Fragmentation.Idle(s.o) && setup.webRoot != "" && OneLinedSetup(setup)
    requires Messages.Printable(m) && Fragmentation.Bytes(turn.chunks) == Messages.Print(m) && Readable(turn, setup)
    requires m.path[|m.path| - 1] != '/' && Servable(setup.webRoot + m.path, turn.env)
    ensures ServeChunks(s, turn.chunks, setup, turn.env).wire == s.wire + text
    ensures ReadReply(text + more) == Some(reply) && reply.rest == more
    ensures reply.lines != [] && reply.lines[0] == "HTTP/" + m.version + " " + "200 OK"
    ensures reply.body == turn.env.maps[setup.webRoot + m.path]
  {
    text, reply := MessageIsAnswered(s, turn, m, setup, more);
    Replies.FileIsSent(reply, setup.webRoot, m.path, setup.files, m.version, WantsKeepAlive(m), setup.types, turn.env);
  }

  /** What is sent for bytes that are no request reads as a refusal, and the connection goes on as the request wished. */
  lemma RefusalIsSent(s: Server, chunk: Fragmentation.Chunk, setup: Setup, env: Environment, more: string)
    returns (text: string, reply: Reply)
    requires s.open && setup.webRoot != "" && OneLinedSetup(setup) && (s.o.r.state.FINISH? || Sound(s.o.r))
    requires Fragmentation.Process(s.o, chunk).code == BAD_REQUEST
    ensures var o, s' := Fragmentation.Process(s.o, chunk), Exchange.Serve(s, chunk, setup, env);
            && s'.wire == s.wire + text && ReadReply(text + more) == Some(reply) && reply.rest == more
            && Replies.Refuses(reply, o.r.version)
            && (s'.open <==> KeepAlive(o.r) && s.stale % 0x1_0000_0000 == 0)
  {
    var o := Fragmentation.Process(s.o, chunk);
    var q := QuestionFor(o.r, BAD_REQUEST, setup);
    FreshIsSound();
    RunKeepsSound(if s.o.r.state.FINISH? then Fresh else s.o.r, s.o.slack, s.o.rest + chunk.bytes, chunk.terminated);
    text, reply := Sent(q, setup.types, env), ReplyTo(q, setup.types, env, more);
    ResponseIsFramed(q, setup.types, env, more);
    Replies.RefusalIs(q, setup.types, env, more);
    StaysIff(EndingOf(q, setup, env), s.stale);
  }
}
