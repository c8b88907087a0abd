/**
  A whole connection as the event loop serves it: one reading of the socket after
  the other, until no more requests come or the connection is closed.
 */
module Conversations {
  import opened Strings
  import opened RequestSpec
  import opened ResponseSpec
  import opened Exchange
  import opened Fragmentation
  import opened HttpConns

  /** A request in the pieces that the readings deliver, and the file system when it is answered. */
  datatype Arrival = Arrival(pieces: seq<string>, env: Environment)

  /** The pieces as chunks, each with a zero behind it; what they are parsed to does not depend on it. */
  function Chunks(pieces: seq<string>): (chunks: seq<Chunk>)
    ensures Matches(chunks, pieces, true)
    ensures |pieces| > 0 ==> chunks[1..] == Chunks(pieces[1..])
  {
    if pieces == [] then [] else [Chunk(pieces[0], true)] + Chunks(pieces[1..])
  }

  function Text(pieces: seq<string>): string {
    Bytes(Chunks(pieces))
  }

  function AsTurn(arrival: Arrival): Turn {
    Turn(Chunks(arrival.pieces), arrival.env)
  }

  function AsTurns(arrivals: seq<Arrival>): (turns: seq<Turn>)
    ensures |turns| == |arrivals| && forall i :: 0 <= i < |arrivals| ==> turns[i] == AsTurn(arrivals[i])
  {
    seq(|arrivals|, i requires 0 <= i < |arrivals| => AsTurn(arrivals[i]))
  }

  lemma RestOfTurns(arrivals: seq<Arrival>)
    requires arrivals != []
    ensures AsTurns(arrivals)[0] == AsTurn(arrivals[0]) && AsTurns(arrivals)[1..] == AsTurns(arrivals[1..])
  {
  }

  predicate HasBody(pieces: seq<string>) {
    Exact(Fresh, Text(pieces)) && EndsInBody(Fresh, Text(pieces))
  }

  /** Chunks that deliver the pieces; those of a request with a body all have a zero behind them. */
  predicate Matches(chunks: seq<Chunk>, pieces: seq<string>, bodied: bool) {
    |chunks| == |pieces|
    && forall i :: 0 <= i < |chunks| ==> chunks[i].bytes == pieces[i] && (bodied ==> chunks[i].terminated)
  }

  lemma {:induction false} MatchingBytes(chunks: seq<Chunk>, pieces: seq<string>, bodied: bool)
    requires Matches(chunks, pieces, bodied)
    ensures Bytes(chunks) == Text(pieces)
    decreases |chunks|
  {
    if chunks != [] {
      MatchingBytes(chunks[1..], pieces[1..], bodied);
    }
  }

  /** `NO_REQUEST` after every piece but the last, and `final` after the last. */
  ghost predicate Expects(o: Outcome, pieces: seq<string>, bodied: bool, final: Outcome)
    decreases |pieces|
  {
    && pieces != []
    && forall t :: (bodied ==> t) ==>
         var o' := Process(o, Chunk(pieces[0], t));
         if |pieces| == 1 then o' == final
         else o'.code == NO_REQUEST && Expects(o', pieces[1..], bodied, final)
  }

  lemma {:induction false} AnswersAreExpected(o: Outcome, pieces: seq<string>, bodied: bool, final: Outcome)
    requires pieces != []
    requires forall chunks :: Matches(chunks, pieces, bodied) ==> Fragmentation.Answers(Process, o, chunks, final)
    ensures Expects(o, pieces, bodied, final)
    decreases |pieces|
  {
    forall t | bodied ==> t
      ensures var o' := Process(o, Chunk(pieces[0], t));
              if |pieces| == 1 then o' == final
              else o'.code == NO_REQUEST && Expects(o', pieces[1..], bodied, final)
    {
      var first := Chunk(pieces[0], t);
      if |pieces| == 1 {
        assert Matches([first], pieces, bodied);
      } else {
        forall rest | Matches(rest, pieces[1..], bodied)
          ensures Process(o, first).code == NO_REQUEST && Fragmentation.Answers(Process, Process(o, first), rest, final)
        {
          FirstAnswered(o, first, rest, pieces, bodied, final);
        }
        assert Matches(Chunks(pieces[1..]), pieces[1..], bodied);
        AnswersAreExpected(Process(o, first), pieces[1..], bodied, final);
      }
    }
  }

  lemma FirstAnswered(o: Outcome, first: Chunk, rest: seq<Chunk>, pieces: seq<string>, bodied: bool, final: Outcome)
    requires |pieces| > 1 && first.bytes == pieces[0] && (bodied ==> first.terminated)
    requires Matches(rest, pieces[1..], bodied)
    requires forall chunks :: Matches(chunks, pieces, bodied) ==> Fragmentation.Answers(Process, o, chunks, final)
    ensures Process(o, first).code == NO_REQUEST && Fragmentation.Answers(Process, Process(o, first), rest, final)
  {
    var chunks := [first] + rest;
    assert chunks[1..] == rest;
    assert Matches(chunks, pieces, bodied);
  }

  /** What a request is parsed to, in whatever pieces it arrives. */
  lemma ArrivalIsExpected(o: Outcome, pieces: seq<string>) returns (final: Outcome)
    requires Idle(o) && CutsOne(Chunks(pieces))
    ensures final == Run(Fresh, '\0', Text(pieces), true) && final.code == GET_REQUEST && Idle(final)
    ensures Expects(o, pieces, HasBody(pieces), final)
  {
    final := Run(Fresh, '\0', Text(pieces), true);
    OneRequest(o, Chunks(pieces));
    forall chunks | Matches(chunks, pieces, HasBody(pieces)) ensures Fragmentation.Answers(Process, o, chunks, final) {
      MatchingBytes(chunks, pieces, HasBody(pieces));
      OneRequest(o, chunks);
    }
    AnswersAreExpected(o, pieces, HasBody(pieces), final);
  }

  lemma ExpectedFits(o: Outcome, piece: string, pieces: seq<string>, bodied: bool, final: Outcome,
                     setup: Setup, env: Environment, stale: nat, writable: nat)
    requires Expects(o, pieces, bodied, final) && Fits(final, setup, env, stale)
    requires piece == pieces[0] && (bodied ==> |piece| < writable)
    ensures forall t :: (|piece| < writable ==> t) ==> Fits(Process(o, Chunk(piece, t)), setup, env, stale)
  {
  }

  /** The state in which the answer to `final` is sent does not depend on what was received before. */
  lemma AnswerForgets(s: Server, o: Outcome, final: Outcome, setup: Setup, env: Environment)
    requires final.code == GET_REQUEST
    ensures Exchange.Answer(s.(o := o), final, setup, env) == Exchange.Answer(s, final, setup, env)
  {
  }

  /** Where one reading leads to. */
  lemma PieceLeads(s: Server, s': Server, pieces: seq<string>, chunk: Chunk, bodied: bool, final: Outcome,
                   setup: Setup, env: Environment)
    requires s.open && Expects(s.o, pieces, bodied, final) && final.code == GET_REQUEST
    requires chunk.bytes == pieces[0] && (bodied ==> chunk.terminated) && s' == Exchange.Serve(s, chunk, setup, env)
    ensures if |pieces| == 1 then s' == Exchange.Answer(s, final, setup, env)
            else s' == s.(o := s'.o) && Expects(s'.o, pieces[1..], bodied, final)
    ensures s'.o.code != BAD_REQUEST
  {
    assert chunk == Chunk(pieces[0], chunk.terminated);
  }

  /** One reading, which delivers the first of the pieces that are still to come. */
  method ServePiece(conn: HttpConn, fd: int, pieces: seq<string>, env: Environment, ghost s: Server,
                    ghost bodied: bool, ghost final: Outcome) returns (open: bool, ghost s': Server)
    requires conn.Tracks(s) && Honest(env) && Expects(s.o, pieces, bodied, final) && final.code == GET_REQUEST
    requires Fits(final, conn.setup, env, s.stale) && (bodied ==> |pieces[0]| < conn.readBuff.WritableBytes())
    modifies conn, conn.request, conn.response, conn.readBuff, conn.writeBuff
    ensures conn.wire == s'.wire && open == s'.open && (open ==> conn.Tracks(s'))
    ensures if |pieces| == 1 then s' == Exchange.Answer(s, final, conn.setup, env)
            else s' == s.(o := s'.o) && Expects(s'.o, pieces[1..], bodied, final)
    ensures open && |pieces[0]| < old(conn.readBuff.WritableBytes()) ==>
              conn.readBuff.WritableBytes() == old(conn.readBuff.WritableBytes()) - |pieces[0]|
  {
    ExpectedFits(s.o, pieces[0], pieces, bodied, final, conn.setup, env, s.stale, conn.readBuff.WritableBytes());
    var whole;
    ghost var chunk;
    whole, open, chunk := conn.Serve(fd, pieces[0], true, env, s);
    s' := Exchange.Serve(s, chunk, conn.setup, env);
    PieceLeads(s, s', pieces, chunk, bodied, final, conn.setup, env);
  }

  /** The readings that deliver one request; the last one has it answered. */
  method ServePieces(conn: HttpConn, fd: int, pieces: seq<string>, env: Environment, ghost s: Server,
                     ghost bodied: bool, ghost final: Outcome) returns (open: bool)
    requires conn.Tracks(s) && Honest(env) && Expects(s.o, pieces, bodied, final) && final.code == GET_REQUEST
    requires Fits(final, conn.setup, env, s.stale)
    requires bodied ==> |Text(pieces)| < conn.readBuff.WritableBytes()
    modifies conn, conn.request, conn.response, conn.readBuff, conn.writeBuff
    ensures var s' := Exchange.Answer(s, final, conn.setup, env);
            conn.wire == s'.wire && open == s'.open && (open ==> conn.Tracks(s'))
    ensures open && |Text(pieces)| < old(conn.readBuff.WritableBytes()) ==>
              conn.readBuff.WritableBytes() == old(conn.readBuff.WritableBytes()) - |Text(pieces)|
  {
    var rest := pieces;
    ghost var s' := s;
    while true
      invariant conn.Tracks(s') && s' == s.(o := s'.o) && Expects(s'.o, rest, bodied, final)
      invariant |Text(rest)| <= |Text(pieces)|
      invariant |Text(pieces)| < old(conn.readBuff.WritableBytes()) ==>
                  conn.readBuff.WritableBytes() == old(conn.readBuff.WritableBytes()) - |Text(pieces)| + |Text(rest)|
      decreases |rest|
    {
      AnswerForgets(s, s'.o, final, conn.setup, env);
      assert |Text(rest)| == |rest[0]| + |Text(rest[1..])|;
      open, s' := ServePiece(conn, fd, rest, env, s', bodied, final);
      if |rest| == 1 {
        return;
      }
      rest := rest[1..];
    }
  }

  // ---------- One request after the other ----------

  /** Well-formed requests, and responses that can be written. */
  ghost predicate Good(arrivals: seq<Arrival>, setup: Setup, stale: nat) {
    forall i :: 0 <= i < |arrivals| ==>
      Honest(arrivals[i].env) && GoodTurn(AsTurn(arrivals[i]), setup, stale)
  }

  datatype Size = Size(length: nat, bodied: bool)

  function Sizes(arrivals: seq<Arrival>): seq<Size> {
    if arrivals == [] then []
    else [Size(|Text(arrivals[0].pieces)|, HasBody(arrivals[0].pieces))] + Sizes(arrivals[1..])
  }

  function Total(sizes: seq<Size>): nat {
    if sizes == [] then 0 else sizes[0].length + Total(sizes[1..])
  }

  /** Every request with a body ends before the `room` bytes are used up. */
  predicate HaveRoom(sizes: seq<Size>, room: int) {
    forall i :: 0 <= i < |sizes| && sizes[i].bodied ==> Total(sizes[..i + 1]) < room
  }

  /** Where serving the first request leads to. */
  lemma FirstServed(s: Server, arrivals: seq<Arrival>, final: Outcome, setup: Setup)
    requires s.open && Fragmentation.Idle(s.o) && arrivals != [] && Good(arrivals, setup, s.stale)
    requires final == Run(Fresh, '\0', Text(arrivals[0].pieces), true) && final.code == GET_REQUEST
    ensures Fits(final, setup, arrivals[0].env, s.stale)
    ensures var s' := Exchange.Answer(s, final, setup, arrivals[0].env);
            && ServeAll(s, AsTurns(arrivals), setup) == ServeAll(s', AsTurns(arrivals[1..]), setup)
            && s'.stale <= s.stale && s'.o == final
  {
    var turn := AsTurn(arrivals[0]);
    RestOfTurns(arrivals);
    OneRequest(s.o, turn.chunks);
    ServeOne(s, turn.chunks, setup, turn.env, final);
  }

  lemma RestIsGood(arrivals: seq<Arrival>, setup: Setup, stale: nat, stale': nat)
    requires arrivals != [] && Good(arrivals, setup, stale) && stale' <= stale
    ensures Good(arrivals[1..], setup, stale')
  {
    forall i | 0 <= i < |arrivals[1..]|
      ensures Honest(arrivals[1..][i].env) && GoodTurn(AsTurn(arrivals[1..][i]), setup, stale')
    {
      assert GoodTurn(AsTurn(arrivals[i + 1]), setup, stale);
    }
  }

  lemma FirstSize(arrivals: seq<Arrival>) returns (size: Size)
    requires arrivals != []
    ensures size == Size(|Text(arrivals[0].pieces)|, HasBody(arrivals[0].pieces))
    ensures Sizes(arrivals) == [size] + Sizes(arrivals[1..])
  {
    size := Size(|Text(arrivals[0].pieces)|, HasBody(arrivals[0].pieces));
  }

  lemma RoomIsLeft(size: Size, rest: seq<Size>, room: int) returns (room': int)
    requires HaveRoom([size] + rest, room)
    ensures room' == room - size.length && HaveRoom(rest, room') && (size.bodied ==> size.length < room)
  {
    room' := room - size.length;
    var sizes := [size] + rest;
    assert sizes[..1] == [size] && Total([size]) == size.length;
    forall i | 0 <= i < |rest| && rest[i].bodied ensures Total(rest[..i + 1]) < room' {
      assert sizes[i + 1] == rest[i] && sizes[..i + 2][1..] == rest[..i + 1];
    }
  }

  /** The connection is open, and `arrivals` are to come; there is room for `room` bytes, if any. */
  ghost predicate Between(conn: HttpConn, s: Server, arrivals: seq<Arrival>, room: int)
    reads conn, conn.readBuff, conn.writeBuff, conn.request
  {
    && conn.Tracks(s) && (room > 0 ==> room == conn.readBuff.WritableBytes())
    && Fragmentation.Idle(s.o) && Good(arrivals, conn.setup, s.stale) && HaveRoom(Sizes(arrivals), room)
  }

  /** One request, and its response. */
  method ServeArrival(conn: HttpConn, fd: int, arrivals: seq<Arrival>, ghost s: Server, ghost room: int)
    returns (open: bool, ghost s': Server, ghost room': int)
    requires Between(conn, s, arrivals, room) && arrivals != []
    modifies conn, conn.request, conn.response, conn.readBuff, conn.writeBuff
    ensures conn.wire == s'.wire && open == s'.open
    ensures open ==> Between(conn, s', arrivals[1..], room')
    ensures ServeAll(s, AsTurns(arrivals), conn.setup) == ServeAll(s', AsTurns(arrivals[1..]), conn.setup)
  {
    ghost var pieces := arrivals[0].pieces;
    ghost var final := ArrivalIsExpected(s.o, pieces);
    FirstServed(s, arrivals, final, conn.setup);
    s' := Exchange.Answer(s, final, conn.setup, arrivals[0].env);
    RestIsGood(arrivals, conn.setup, s.stale, s'.stale);
    ghost var size := FirstSize(arrivals);
    room' := RoomIsLeft(size, Sizes(arrivals[1..]), room);
    open := ServePieces(conn, fd, arrivals[0].pieces, arrivals[0].env, s, HasBody(pieces), final);
  }

  /**
    Serves the requests that arrive, however each is cut: what is sent is what the
    conversation says, and nothing is read any more once the connection is closed.
   */
  method Converse(conn: HttpConn, fd: int, arrivals: seq<Arrival>, ghost s: Server, ghost room: int)
    returns (open: bool)
    requires Between(conn, s, arrivals, room)
    modifies conn, conn.request, conn.response, conn.readBuff, conn.writeBuff
    ensures var s' := ServeAll(s, AsTurns(arrivals), conn.setup);
            conn.wire == s'.wire && open == s'.open
  {
    var rest := arrivals;
    ghost var s', left := s, room;
    open := true;
    while open && rest != []
      invariant conn.wire == s'.wire && open == s'.open
      invariant open ==> Between(conn, s', rest, left)
      invariant ServeAll(s', AsTurns(rest), conn.setup) == ServeAll(s, AsTurns(arrivals), conn.setup)
      decreases |rest|
    {
      open, s', left := ServeArrival(conn, fd, rest, s', left);
      rest := rest[1..];
    }
    if !open {
      ClosedStaysClosed(s', AsTurns(rest), conn.setup);
    }
  }

  /** What a client reads of it. */
  lemma RepliesAreRead(o: Outcome, arrivals: seq<Arrival>, setup: Setup, stale: nat, wire: string)
    requires Fragmentation.Idle(o) && OneLinedSetup(setup) && Good(arrivals, setup, stale)
    requires wire == ServeAll(Server(o, "", true, stale), AsTurns(arrivals), setup).wire
    ensures var served := Served(AsTurns(arrivals), setup, stale);
            ReadReplies(wire, |served|) == Some((Expected(served, setup), ""))
  {
    ConversationTheorem(o, AsTurns(arrivals), setup, stale);
  }

  /** `HttpConn::Init`, when nothing of an earlier request is left. */
  method Open(conn: HttpConn) returns (ghost s: Server, ghost room: nat)
    requires conn.Valid() && conn.Current() == Fresh
    modifies conn, conn.readBuff, conn.writeBuff
    ensures conn.Tracks(s) && Fragmentation.Idle(s.o) && s == Server(s.o, "", true, old(conn.iov1Len))
    ensures room == conn.readBuff.WritableBytes() == |old(conn.readBuff.container)| - 1
  {
    ghost var stale := conn.iov1Len;
    conn.Init();
    s := Server(Outcome(NO_REQUEST, conn.request.View(), '\0', ""), "", true, stale);
    room := conn.readBuff.WritableBytes();
  }

  lemma Begins(conn: HttpConn, s: Server, arrivals: seq<Arrival>, room: int, stale: nat, size: int)
    requires conn.Tracks(s) && Fragmentation.Idle(s.o) && s.stale == stale
    requires room == conn.readBuff.WritableBytes() == size
    requires Good(arrivals, conn.setup, stale) && HaveRoom(Sizes(arrivals), size)
    ensures Between(conn, s, arrivals, room)
  {
  }

  method Start(conn: HttpConn, ghost arrivals: seq<Arrival>, ghost stale: nat, ghost size: int)
    returns (ghost s: Server, ghost room: int)
    requires conn.Valid() && conn.Current() == Fresh
    requires stale == conn.iov1Len && size == |conn.readBuff.container| - 1
    requires Good(arrivals, conn.setup, stale) && HaveRoom(Sizes(arrivals), size)
    modifies conn, conn.readBuff, conn.writeBuff
    ensures Between(conn, s, arrivals, room) && s == Server(s.o, "", true, stale) && Fragmentation.Idle(s.o)
  {
    s, room := Open(conn);
    Begins(conn, s, arrivals, room, stale, size);
  }

  /** Whether it is open at the end. */
  lemma OpenAtTheEnd(o: Outcome, arrivals: seq<Arrival>, setup: Setup)
    requires Fragmentation.Idle(o) && Good(arrivals, setup, 0) && setup.webRoot != ""
    ensures ServeAll(Server(o, "", true, 0), AsTurns(arrivals), setup).open
            <==> forall i :: 0 <= i < |arrivals| ==> Asked(AsTurn(arrivals[i]), setup).keepAlive
  {
    OpenIff(Server(o, "", true, 0), AsTurns(arrivals), setup);
  }

  /**
    A connection from its beginning: the client reads one reply for each request up
    to the first after which the connection is closed, and nothing else.
   */
  method ServeConnection(conn: HttpConn, fd: int, arrivals: seq<Arrival>) returns (open: bool)
    requires conn.Valid() && conn.Current() == Fresh && OneLinedSetup(conn.setup)
    requires Good(arrivals, conn.setup, conn.iov1Len) && HaveRoom(Sizes(arrivals), |conn.readBuff.container| - 1)
    modifies conn, conn.request, conn.response, conn.readBuff, conn.writeBuff
    ensures var served := Served(AsTurns(arrivals), conn.setup, old(conn.iov1Len));
            ReadReplies(conn.wire, |served|) == Some((Expected(served, conn.setup), ""))
    ensures old(conn.iov1Len) == 0 && conn.setup.webRoot != "" ==>
              (open <==> forall i :: 0 <= i < |arrivals| ==> Asked(AsTurn(arrivals[i]), conn.setup).keepAlive)
  {
    ghost var stale := conn.iov1Len;
    ghost var s, room := Start(conn, arrivals, stale, |conn.readBuff.container| - 1);
    open := Converse(conn, fd, arrivals, s, room);
    RepliesAreRead(s.o, arrivals, conn.setup, stale, conn.wire);
    if stale == 0 && conn.setup.webRoot != "" {
      OpenAtTheEnd(s.o, arrivals, conn.setup);
    }
  }
}
