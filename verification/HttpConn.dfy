/**
  `white::HttpConn` in static mode: reads until the socket is drained, turns a
  request into a response, and writes head and file with `writev`, however little
  of it the kernel takes at a time.
 */
module HttpConns {
  import opened Strings
  import opened Buffers
  import opened RequestSpec
  import opened ResponseSpec
  import opened Exchange
  import opened HttpRequests
  import opened HttpResponses
  import Fragmentation
  import Ownership

  datatype ProcessState = FINISH | PENDING

  class HttpConn {
    const readBuff: Buffer
    const writeBuff: Buffer
    const request: HttpRequest
    const response: HttpResponse
    const setup: Setup
    var isClose: bool
    /** `iov_[0]`: a position in the write buffer and a length. */
    var iov0Base: nat
    var iov0Len: nat
    /** `iov_[1]`: a position in the mapped file and a length. */
    var iov1Base: nat
    var iov1Len: nat
    var iovCnt: nat
    /** What the kernel has accepted so far. */
    ghost var wire: string

    ghost predicate Valid()
      reads this, readBuff, writeBuff, request
    {
      // Bound to variables so that the verifier takes each as one fact.
      var buffers := readBuff.Valid() && writeBuff.Valid();
      var sound := request.IsFinish() || Sound(request.View());
      buffers && sound && readBuff != writeBuff && response.suffixType == setup.types
    }

    /** A response has been prepared; the vector and the write buffer agree. */
    ghost predicate Prepared()
      reads this, readBuff, writeBuff, request, response
    {
      // Bound to a variable so that the verifier takes it as one fact.
      var valid := Valid();
      && valid
      && iov0Len == writeBuff.ReadableBytes() && (iov0Len > 0 ==> iov0Base == writeBuff.readIdx)
      && (iovCnt == 1 || iovCnt == 2)
      && (iovCnt == 2 ==> response.HasFile() && iov1Base + iov1Len == |response.file.value|)
    }

    /** The bytes that the vector points at, as far as `writev` is told about them. */
    ghost function Gather(): (bytes: string)
      requires Prepared()
      reads this, readBuff, writeBuff, request, response
    {
      Gather0() + Gather1()
    }

    ghost function Gather0(): (bytes: string)
      requires Prepared()
      reads this, readBuff, writeBuff, request, response
      ensures |bytes| == iov0Len
    {
      if iov0Len == 0 then "" else writeBuff.container[iov0Base..iov0Base + iov0Len]
    }

    ghost function Gather1(): (bytes: string)
      requires Prepared()
      reads this, readBuff, writeBuff, request, response
      ensures iovCnt == 2 ==> |bytes| == iov1Len
    {
      if iovCnt == 2 then response.file.value[iov1Base..iov1Base + iov1Len] else ""
    }

    function PendingWriteBytes(): int
      reads this
    {
      ToInt(iov0Len + iov1Len)
    }

    /**
      What is reported as pending is 0 exactly if the two lengths add up to a
      multiple of 2^32.  Below that, nothing pending means that all has been sent.
      When all has been sent, nothing is pending exactly if the second vector element
      is in use, or holds nothing from an earlier connection.
     */
    lemma PendingIsExactIff()
      requires Prepared()
      ensures PendingWriteBytes() == 0 <==> (iov0Len + iov1Len) % 0x1_0000_0000 == 0
      ensures PendingWriteBytes() == 0 && iov0Len + iov1Len < 0x1_0000_0000 ==>
                Gather() == "" && writeBuff.Contents() == ""
      ensures Gather() == "" ==> (PendingWriteBytes() == 0 <==> iovCnt == 2 || iov1Len % 0x1_0000_0000 == 0)
    {
    }

    constructor (setup: Setup)
      ensures Valid() && isClose && wire == "" && this.setup == setup && iov1Len == 0
      ensures fresh(readBuff) && fresh(writeBuff) && fresh(request) && fresh(response)
      ensures readBuff.Contents() == "" && writeBuff.Contents() == "" && request.View() == Fresh
    {
      readBuff := new Buffer(2048);
      writeBuff := new Buffer(2048);
      request := new HttpRequest();
      response := new HttpResponse(setup.types);
      this.setup := setup;
      isClose := true;
      iov0Base, iov0Len, iov1Base, iov1Len, iovCnt := 0, 0, 0, 0, 0;
      wire := "";
    }

    /** A new connection.  The vector keeps what the last connection left in it. */
    method Init()
      requires Valid()
      modifies this`isClose, this`wire, readBuff, writeBuff
      ensures Valid() && !isClose && wire == ""
      ensures readBuff.Contents() == "" && readBuff.Slack() == '\0' && writeBuff.Contents() == ""
      ensures readBuff.WritableBytes() == |old(readBuff.container)| - 1
    {
      writeBuff.Clear();
      readBuff.Clear();
      isClose := false;
      wire := "";
    }

    method Close()
      requires Valid()
      modifies this`isClose, request, response`file
      ensures Valid() && isClose && !response.HasFile()
      ensures if old(isClose) then request.View() == old(request.View()) else request.View() == Fresh
    {
      response.Unmap();
      if !isClose {
        isClose := true;
        request.Init();
      }
    }

    /**
      Reads until the socket has nothing more, which is reported as 0 or -1.
      `incoming` is what arrives meanwhile; the kernel hands it over in pieces.
     */
    method ReadFromFd(incoming: string, ending: int) returns (len: int)
      requires Valid() && -1 <= ending <= 0
      modifies readBuff
      ensures Valid() && readBuff.Slack() == old(readBuff.Slack())
      ensures readBuff.Contents() == old(readBuff.Contents()) + incoming
      ensures |incoming| < old(readBuff.WritableBytes()) ==>
                readBuff.Terminated() && readBuff.WritableBytes() == old(readBuff.WritableBytes()) - |incoming|
      ensures len == ending
    {
      var rest := incoming;
      ghost var before := readBuff.Contents();
      assert before + incoming == before + incoming[|incoming| - |rest|..];
      while true
        invariant Valid() && readBuff.Slack() == old(readBuff.Slack())
        invariant |rest| <= |incoming| && rest == incoming[|incoming| - |rest|..]
        invariant readBuff.Contents() + rest == before + incoming
        invariant |incoming| < old(readBuff.WritableBytes()) ==>
                    readBuff.WritableBytes() == old(readBuff.WritableBytes()) - |incoming| + |rest|
        decreases |rest|
      {
        var result := if ending == 0 then Received("") else Failed;
        if rest != "" {
          var n :| 0 < n <= |rest| && n <= readBuff.WritableBytes() + 65536;
          result := Received(rest[..n]);
          Split(readBuff.Contents(), rest, n);
          rest := rest[n..];
        }
        len := readBuff.ReadFromFd(result);
        if len <= 0 {
          break;
        }
      }
    }

    lemma Split(a: string, b: string, n: nat)
      requires n <= |b|
      ensures a + b == (a + b[..n]) + b[n..]
    {
    }

    /**
      Writes until the kernel takes no more, which is reported as 0 or -1.  `room`
      is how much it takes in all; it does so in pieces of any size.
     */
    method WriteToFd(room: nat, ending: int) returns (len: int)
      requires Prepared() && room <= |Gather()| && -1 <= ending <= 0
      modifies this`iov0Base, this`iov0Len, this`iov1Base, this`iov1Len, this`wire, writeBuff
      ensures Prepared()
      ensures wire == old(wire) + old(Gather())[..room] && Gather() == old(Gather())[room..]
      ensures iov0Len == if room < old(iov0Len) then old(iov0Len) - room else 0
      ensures iovCnt == 1 ==> iov1Len == old(iov1Len)
      ensures len == ending
    {
      ghost var bytes, start, done := Gather(), wire, "";
      var left: nat := room;
      while true
        invariant Prepared()
        invariant |done| + left == room
        invariant iov0Len == if |done| < old(iov0Len) then old(iov0Len) - |done| else 0
        invariant wire == start + done && done + Gather() == bytes
        invariant iovCnt == 1 ==> iov1Len == old(iov1Len)
        decreases |Gather()|
      {
        len := ending;
        if left != 0 {
          assert 0 < 1 <= left;
          len :| 0 < len <= left;
        }
        if len <= 0 {
          assert bytes[..room] == done && bytes[room..] == Gather();
          return;
        }
        // The source breaks off here if both lengths are 0, with which nothing would have been accepted.
        ghost var rest := Gather();
        Accepted(len);
        left := left - len;
        Split(done, rest, len);
        Assoc(start, done, rest[..len]);
        done := done + rest[..len];
      }
    }

    /** The vector and the write buffer after `len` bytes have been accepted. */
    method Accepted(len: nat)
      requires Prepared() && 0 < len <= |Gather()|
      modifies this`iov0Base, this`iov0Len, this`iov1Base, this`iov1Len, this`wire, writeBuff
      ensures Prepared()
      ensures wire == old(wire) + old(Gather())[..len] && Gather() == old(Gather())[len..]
      ensures iov0Len == if len < old(iov0Len) then old(iov0Len) - len else 0
      ensures iovCnt == 1 ==> iov1Len == old(iov1Len)
    {
      ghost var header, file := Gather0(), Gather1();
      Dropped(header, file, len);
      wire := wire + (header + file)[..len];
      if len > iov0Len {
        AcceptedOfFile(len);
        assert Gather0() == "";
      } else {
        AcceptedOfHeader(len);
      }
    }

    /** Part of the header has been sent, or just all of it. */
    method AcceptedOfHeader(len: nat)
      requires Prepared() && 0 < len <= iov0Len
      modifies this`iov0Base, this`iov0Len, writeBuff
      ensures Prepared()
      ensures iov0Len == old(iov0Len) - len
      ensures Gather0() == old(Gather0())[len..] && Gather1() == old(Gather1())
    {
      iov0Base := iov0Base + len;
      iov0Len := iov0Len - len;
      writeBuff.Retrieve(len);
    }

    lemma Dropped(a: string, b: string, len: nat)
      requires len <= |a + b|
      ensures len <= |a| ==> (a + b)[len..] == a[len..] + b
      ensures len > |a| ==> (a + b)[len..] == "" + b[len - |a|..]
    {
    }

    lemma SliceAdvances(s: string, base: nat, len: nat, n: nat)
      requires n <= len && base + len <= |s|
      ensures s[base + n..base + len] == s[base..base + len][n..]
    {
    }

    /** The header has been sent, and part of the file. */
    method AcceptedOfFile(len: nat)
      requires Prepared() && iov0Len < len <= |Gather()|
      modifies this`iov0Len, this`iov1Base, this`iov1Len, writeBuff
      ensures Prepared()
      ensures iov0Len == 0 && Gather1() == old(Gather1())[len - old(iov0Len)..]
    {
      assert iovCnt == 2;
      AdvanceFile(len - iov0Len);
      DropHeader();
    }

    /** The header need not be kept any longer. */
    method DropHeader()
      requires Prepared()
      modifies this`iov0Len, writeBuff
      ensures Prepared() && iov0Len == 0 && Gather1() == old(Gather1())
    {
      if iov0Len != 0 {
        writeBuff.Clear();
        iov0Len := 0;
      }
    }

    method AdvanceFile(n: nat)
      requires Prepared() && iovCnt == 2 && n <= iov1Len
      modifies this`iov1Base, this`iov1Len
      ensures Prepared() && iov1Len == old(iov1Len) - n
      ensures Gather0() == old(Gather0()) && Gather1() == old(Gather1())[n..]
    {
      SliceAdvances(response.file.value, iov1Base, iov1Len, n);
      iov1Base := iov1Base + n;
      iov1Len := iov1Len - n;
    }

    /** The request that further bytes belong to. */
    ghost function Current(): Request
      reads request
    {
      if request.IsFinish() then Fresh else request.View()
    }

    /** The first half of `Process`: `NO_REQUEST` also stands for having nothing to parse. */
    method ParseStep(ghost o: Outcome) returns (code: Code)
      requires Valid()
      requires o == Parse(Current(), readBuff.Slack(), readBuff.Contents(), readBuff.Terminated())
      modifies request, readBuff`container, readBuff`readIdx
      ensures readBuff.Valid() && readBuff.WritableBytes() == old(readBuff.WritableBytes())
      ensures request.Reaches(o, code, readBuff)
    {
      if request.IsFinish() {
        request.Init();
      }
      if readBuff.ReadableBytes() == 0 {
        return NO_REQUEST;
      }
      code := request.Parse(readBuff);
    }

    /** `HttpResponse` is given the request; `false` if its `Init` throws. */
    method Ask(code: Code) returns (ok: bool)
      requires response.suffixType == setup.types
      modifies response
      ensures ok == (setup.webRoot != "")
      ensures ok ==> response.file == None && response.Asked() == QuestionFor(request.View(), code, setup)
    {
      ok := response.Init(setup.webRoot, request.path, setup.files, request.version, request.IsKeepAlive(),
                          if code.GET_REQUEST? then 200 else 400);
    }

    /** It answers into the write buffer. */
    method WriteAnswer(env: Environment, ghost q: Question, ghost head: seq<string>, ghost content: Content)
      requires writeBuff.Valid() && Honest(env) && response.file == None
      requires response.Asked() == q && (WantsFile(q.code) ==> q.path != "")
      requires (head, content) == Respond(q, response.suffixType, env)
      modifies response, writeBuff
      ensures writeBuff.Valid() && Answered(old(writeBuff.Contents()), head, content)
    {
      ghost var head', content' := response.MakeResponse(writeBuff, env);
      assert (head', content') == (head, content);
    }

    /** The response is in the write buffer, but for the file. */
    ghost predicate Answered(before: string, head: seq<string>, content: Content)
      requires writeBuff.Valid()
      reads this, writeBuff, response
    {
      && (content.Page? ==> response.file == None && writeBuff.Contents() == before + Wire(head, content.page))
      && (content.File? ==>
            && response.file == Some(content.bytes) && response.fileSize == |content.bytes| < 0x8000_0000_0000_0000
            && writeBuff.Contents() + content.bytes == before + Wire(head, content.bytes))
    }

    /** The vector points at the write buffer and, if there is one, the file. */
    ghost predicate VectorIsSet()
      requires writeBuff.Valid()
      reads this, writeBuff, response
    {
      && iov0Base == writeBuff.readIdx && iov0Len == writeBuff.ReadableBytes()
      && iovCnt == (if response.HasFile() then 2 else 1)
      && (response.HasFile() ==>
            iov1Base == 0 && response.fileSize < 0x8000_0000_0000_0000 && iov1Len == ToSize(response.FileSize()))
    }

    lemma VectorCarriesPage(before: string, head: seq<string>, page: string)
      requires Valid() && Answered(before, head, Page(page)) && VectorIsSet()
      ensures Carries(before, head, Page(page))
    {
      assert writeBuff.container[iov0Base..iov0Base + iov0Len] == writeBuff.Contents();
      assert writeBuff.Contents() + "" == writeBuff.Contents();
    }

    lemma VectorCarriesFile(before: string, head: seq<string>, bytes: string)
      requires Valid() && Answered(before, head, File(bytes)) && VectorIsSet()
      ensures Carries(before, head, File(bytes))
    {
      assert writeBuff.container[iov0Base..iov0Base + iov0Len] == writeBuff.Contents();
      FileSizeIsExactIff(response.fileSize);
      assert bytes[0..|bytes|] == bytes;
    }

    lemma VectorCarries(before: string, head: seq<string>, content: Content)
      requires Valid() && Answered(before, head, content) && VectorIsSet()
      ensures Carries(before, head, content)
    {
      match content {
        case Page(page) => VectorCarriesPage(before, head, page);
        case File(bytes) => VectorCarriesFile(before, head, bytes);
      }
    }

    /** Points the vector at the response. */
    method SetVector(ghost before: string, ghost head: seq<string>, ghost content: Content)
      requires writeBuff.Valid() && Answered(before, head, content)
      modifies this`iov0Base, this`iov0Len, this`iov1Base, this`iov1Len, this`iovCnt
      ensures writeBuff.Valid() && Answered(before, head, content) && VectorIsSet()
      ensures Valid() ==> Carries(before, head, content)
      ensures content.Page? ==> iov1Len == old(iov1Len)
    {
      iov0Base, iov0Len := writeBuff.readIdx, writeBuff.ReadableBytes();
      iovCnt := 1;
      if response.HasFile() {
        FileSizeIsExactIff(response.fileSize);
        iov1Base, iov1Len := 0, ToSize(response.FileSize());
        iovCnt := 2;
      }
      if Valid() {
        VectorCarries(before, head, content);
      }
    }

    /** The vector holds the response, if the size of its file is an `int`; otherwise it is certainly wrong. */
    ghost predicate Carries(before: string, head: seq<string>, content: Content)
      reads this, readBuff, writeBuff, request, response
    {
      if content.File? && |content.bytes| > INT_MAX then iov1Len != |content.bytes|
      else
        && Prepared() && iovCnt == (if content.File? then 2 else 1)
        && (content.File? ==> iov1Len == |content.bytes|)
        && Gather() == before + Wire(head, Body(content))
    }

    /** The second half of `Process`. */
    method Reply(code: Code, env: Environment, ghost head: seq<string>, ghost content: Content) returns (ok: bool)
      requires writeBuff.Valid() && Honest(env) && response.suffixType == setup.types
      requires code.GET_REQUEST? ==> request.path != ""
      requires (head, content) == Respond(QuestionFor(request.View(), code, setup), setup.types, env)
      modifies this`iov0Base, this`iov0Len, this`iov1Base, this`iov1Len, this`iovCnt, response, writeBuff
      ensures writeBuff.Valid() && ok == (setup.webRoot != "")
      ensures ok && Valid() ==> Carries(old(writeBuff.Contents()), head, content)
      ensures ok && content.Page? ==> iov1Len == old(iov1Len)
    {
      ok := Ask(code);
      if ok {
        WriteAnswer(env, QuestionFor(request.View(), code, setup), head, content);
        SetVector(old(writeBuff.Contents()), head, content);
      }
    }

    /** What `Process` makes of a parse outcome; `None` if something throws. */
    ghost predicate Processed(o: Outcome, result: Option<ProcessState>)
      reads this, readBuff, writeBuff, request
    {
      // Bound to a variable so that the verifier takes it as one fact.
      var valid := Valid();
      && result == (match o.code
                    case NO_REQUEST => Some(PENDING)
                    case Fault => None
                    case _ => if setup.webRoot == "" then None else Some(ProcessState.FINISH))
      && (o.code != Fault ==> valid && request.View() == o.r)
      && (o.code == NO_REQUEST || o.code == GET_REQUEST ==>
            readBuff.Slack() == o.slack && readBuff.Contents() == o.rest)
      && (o.code == BAD_REQUEST ==> request.Keeps(readBuff, o.slack, o.rest))
    }

    lemma OutcomeIsSound(o: Outcome)
      requires Valid() && o == Parse(Current(), readBuff.Slack(), readBuff.Contents(), readBuff.Terminated())
      ensures o.code != Fault ==> Sound(o.r) || o.r.state.FINISH?
      ensures o.code == GET_REQUEST ==> o.r.path != ""
    {
      RunKeepsSound(Current(), readBuff.Slack(), readBuff.Contents(), readBuff.Terminated());
    }

    /**
      Parses what has arrived, and prepares the response once a request is complete or
      broken; `o` is the outcome of parsing, `head` and `content` the response to it.
     */
    method Process(env: Environment, ghost o: Outcome, ghost head: seq<string>, ghost content: Content)
      returns (result: Option<ProcessState>)
      requires Valid() && Honest(env)
      requires o == Parse(Current(), readBuff.Slack(), readBuff.Contents(), readBuff.Terminated())
      requires (head, content) == Respond(QuestionFor(o.r, o.code, setup), setup.types, env)
      modifies this`iov0Base, this`iov0Len, this`iov1Base, this`iov1Len, this`iovCnt
      modifies request, response, readBuff`container, readBuff`readIdx, writeBuff
      ensures Processed(o, result)
      ensures result.Some? ==> readBuff.WritableBytes() == old(readBuff.WritableBytes())
      ensures result == Some(PENDING) ==> writeBuff.Contents() == old(writeBuff.Contents()) && iov1Len == old(iov1Len)
      ensures result == Some(ProcessState.FINISH) ==> Carries(old(writeBuff.Contents()), head, content)
      ensures result == Some(ProcessState.FINISH) && content.Page? ==> iov1Len == old(iov1Len)
    {
      OutcomeIsSound(o);
      var code := ParseStep(o);
      result := AfterParsing(code, env, o, head, content);
    }

    lemma ReachedIsProcessed(o: Outcome, code: Code, result: Option<ProcessState>)
      requires readBuff.Valid() && writeBuff.Valid() && readBuff != writeBuff && response.suffixType == setup.types
      requires request.Reaches(o, code, readBuff)
      requires o.code != Fault ==> Sound(o.r) || o.r.state.FINISH?
      requires result == match code
                         case NO_REQUEST => Some(PENDING)
                         case Fault => None
                         case _ => if setup.webRoot == "" then None else Some(ProcessState.FINISH)
      ensures Processed(o, result) && (o.code != Fault ==> Valid())
    {
    }

    /** The `switch` of `Process`, and what follows it. */
    method AfterParsing(code: Code, env: Environment, ghost o: Outcome, ghost head: seq<string>, ghost content: Content)
      returns (result: Option<ProcessState>)
      requires readBuff.Valid() && writeBuff.Valid() && readBuff != writeBuff && Honest(env)
      requires response.suffixType == setup.types && request.Reaches(o, code, readBuff)
      requires (o.code != Fault ==> Sound(o.r) || o.r.state.FINISH?) && (o.code == GET_REQUEST ==> o.r.path != "")
      requires (head, content) == Respond(QuestionFor(o.r, o.code, setup), setup.types, env)
      modifies this`iov0Base, this`iov0Len, this`iov1Base, this`iov1Len, this`iovCnt, response, writeBuff
      ensures Processed(o, result)
      ensures result == Some(PENDING) ==> writeBuff.Contents() == old(writeBuff.Contents()) && iov1Len == old(iov1Len)
      ensures result == Some(ProcessState.FINISH) ==> Carries(old(writeBuff.Contents()), head, content)
      ensures result == Some(ProcessState.FINISH) && content.Page? ==> iov1Len == old(iov1Len)
    {
      match code {
        case NO_REQUEST => result := Some(PENDING);
        case Fault => result := None;
        case _ =>
          var ok := Reply(code, env, head, content);
          result := if ok then Some(ProcessState.FINISH) else None;
      }
      ReachedIsProcessed(o, code, result);
    }

    // ---------- The handlers ----------

    /** How many bytes the vector points at. */
    function Available(): nat
      reads this
    {
      iov0Len + if iovCnt == 2 then iov1Len else 0
    }

    /** One round of `OnWrite`: the kernel takes `room` bytes, and then would block or fails. */
    method OnWrite(fd: int, room: nat, fails: bool) returns (after: Ownership.After)
      requires Prepared() && iov0Len + iov1Len < 0x1_0000_0000 && room <= |Gather()|
      modifies this`iov0Base, this`iov0Len, this`iov1Base, this`iov1Len, this`wire, writeBuff
      ensures Prepared() && iov0Len + iov1Len < 0x1_0000_0000
      ensures wire == old(wire) + old(Gather())[..room] && Gather() == old(Gather())[room..]
      ensures iovCnt == 1 ==> iov1Len == old(iov1Len)
      ensures Gather() != "" ==> after == if fails then Ownership.Close else Ownership.Rearm(Ownership.Write(fd))
      ensures Gather() == "" ==>
                && after == Ownership.OnWrite(fd, Ownership.Result(0, false, false, ToInt(iov1Len), request.IsKeepAlive()))
                && writeBuff.Contents() == "" && (iovCnt == 2 ==> iov1Len == 0)
      ensures Gather() == "" ==>
                (after.Rearm? <==> request.IsKeepAlive() && (iovCnt == 2 || iov1Len % 0x1_0000_0000 == 0))
    {
      var ret := WriteToFd(room, if room == Available() then 0 else -1);
      PendingIsExactIff();
      var result := Ownership.Result(ret, ret < 0 && !fails, false, PendingWriteBytes(), request.IsKeepAlive());
      after := Ownership.OnWrite(fd, result);
    }

    /** Of `bytes`, those in `done` have been sent, and the vector holds the others. */
    ghost predicate Halfway(start: string, done: string, bytes: string)
      reads this, readBuff, writeBuff, request, response
    {
      && Prepared() && iov0Len + iov1Len < 0x1_0000_0000
      && wire == start + done && done + Gather() == bytes
    }

    /** A round in which the kernel takes what it likes; it takes something, unless it fails. */
    method Round(fd: int, fails: bool, ghost start: string, ghost done: string, ghost bytes: string)
      returns (after: Ownership.After, ghost done': string)
      requires Halfway(start, done, bytes)
      modifies this`iov0Base, this`iov0Len, this`iov1Base, this`iov1Len, this`wire, writeBuff
      ensures Halfway(start, done', bytes) && (iovCnt == 1 ==> iov1Len == old(iov1Len))
      ensures Gather() != "" ==>
                && after == (if fails then Ownership.Close else Ownership.Rearm(Ownership.Write(fd)))
                && wire < start + bytes && (fails || |Gather()| < |old(Gather())|)
      ensures Gather() == "" ==>
                && after == Ownership.OnWrite(fd, Ownership.Result(0, false, false, ToInt(iov1Len), request.IsKeepAlive()))
                && wire == start + bytes && writeBuff.Contents() == "" && (iovCnt == 2 ==> iov1Len == 0)
    {
      var room := Room(Available(), fails);
      ghost var rest := Gather();
      after := OnWrite(fd, room, fails);
      Split(done, rest, room);
      Assoc(start, done, rest[..room]);
      done' := done + rest[..room];
      Unsent(start, done', Gather());
    }

    /**
      The rounds of `OnWrite`: a round that would block is repeated.  The kernel takes
      something in every round, or fails, which it does not if it is `healthy`; then
      the connection is closed with part of the response sent.
     */
    method WriteAll(fd: int, healthy: bool) returns (whole: bool, open: bool)
      requires Prepared() && iov0Len + iov1Len < 0x1_0000_0000 && !isClose
      modifies this`iov0Base, this`iov0Len, this`iov1Base, this`iov1Len, this`wire, this`isClose
      modifies writeBuff, request, response`file
      ensures Valid() && open == !isClose && (healthy ==> whole)
      ensures whole ==>
                && wire == old(wire) + old(Gather()) && writeBuff.Contents() == ""
                && iov1Len == (if iovCnt == 2 then 0 else old(iov1Len))
                && open == Ownership.OnWrite(fd, Ownership.Result(0, false, false, ToInt(iov1Len),
                                                                  old(request.IsKeepAlive()))).Rearm?
      ensures !whole ==> !open && old(wire) <= wire < old(wire) + old(Gather())
      ensures open ==> request.View() == old(request.View())
    {
      ghost var bytes, start, done := Gather(), wire, "";
      while true
        invariant Halfway(start, done, bytes) && !isClose && request.View() == old(request.View())
        invariant iovCnt == 1 ==> iov1Len == old(iov1Len)
        decreases |Gather()|
      {
        var fails: bool := *;
        fails := fails && !healthy;
        var after;
        after, done := Round(fd, fails, start, done, bytes);
        match after {
          case Rearm(Write(_)) =>
          case Rearm(Read(_)) =>
            return true, true;
          case Close =>
            whole := Available() == 0;
            Close();
            return whole, false;
        }
      }
    }

    /** How much the kernel takes of what is available: something, unless it fails. */
    method Room(available: nat, fails: bool) returns (room: nat)
      ensures room <= available && (available > 0 && !fails ==> room > 0)
    {
      assert 0 <= available <= available;
      room :| room <= available && (available > 0 && !fails ==> room > 0);
    }

    lemma Unsent(start: string, done: string, rest: string)
      ensures if rest == "" then done + rest == done else start + done < start + (done + rest)
    {
      assert rest != "" ==> (start + (done + rest))[..|start + done|] == start + done;
    }

    ghost predicate ReadsOn(s: Server)
      reads readBuff
    {
      readBuff.Valid() && readBuff.Slack() == s.o.slack && readBuff.Contents() == s.o.rest
    }

    /** The connection is open, between two events, and in the state `s`. */
    ghost predicate Tracks(s: Server)
      reads this, readBuff, writeBuff, request
    {
      // Bound to a variable so that the verifier takes it as one fact.
      var valid := Valid();
      && valid && !isClose && s.open && request.View() == s.o.r && ReadsOn(s)
      && writeBuff.Contents() == "" && wire == s.wire && iov1Len == s.stale
    }

    /** A response has been prepared for `s`, and writing it out leads to `s'`. */
    ghost predicate Ready(s: Server, s': Server, head: seq<string>, content: Content)
      reads this, readBuff, writeBuff, request, response
    {
      var e := Ending(request.IsKeepAlive(), content.File?);
      && Carries("", head, content) && (content.File? ==> |content.bytes| <= INT_MAX) && !isClose
      && |Wire(head, Body(content))| + s.stale < 0x1_0000_0000
      && wire == s.wire && (content.Page? ==> iov1Len == s.stale)
      && s'.wire == s.wire + Wire(head, Body(content)) && s'.open == Stays(e, s.stale)
      && s'.stale == StaleAfter(e, s.stale) && s'.o.r == request.View()
    }

    /** Writes out the response that `Process` has prepared. */
    method WriteOut(fd: int, healthy: bool, ghost s: Server, ghost s': Server,
                    ghost head: seq<string>, ghost content: Content) returns (whole: bool, open: bool)
      requires Ready(s, s', head, content)
      modifies this`iov0Base, this`iov0Len, this`iov1Base, this`iov1Len, this`wire, this`isClose
      modifies writeBuff, request, response`file
      ensures healthy ==> whole
      ensures whole ==> wire == s'.wire && open == s'.open
      ensures !whole ==> !open && s.wire <= wire < s'.wire
      ensures open && ReadsOn(s') ==> Tracks(s')
    {
      assert Gather() == Wire(head, Body(content));
      whole, open := WriteAll(fd, healthy);
    }

    /** `Process` has led from `s` to where `Dispatch` reaches `s'`. */
    ghost predicate Leads(result: Option<ProcessState>, s: Server, s': Server, head: seq<string>, content: Content)
      reads this, readBuff, writeBuff, request, response
    {
      // Bound to variables so that the verifier takes each as one fact.
      var tracks, ready := Tracks(s'), Ready(s, s', head, content);
      match result
      case None => s'.wire == wire && !s'.open
      case Some(PENDING) => tracks
      case Some(FINISH) => ready
    }

    /** `OnRead` after `Process`. */
    method Dispatch(fd: int, healthy: bool, result: Option<ProcessState>, ghost s: Server, ghost s': Server,
                    ghost head: seq<string>, ghost content: Content) returns (whole: bool, open: bool)
      requires Leads(result, s, s', head, content)
      modifies this`iov0Base, this`iov0Len, this`iov1Base, this`iov1Len, this`wire, this`isClose
      modifies writeBuff, request, response`file
      ensures healthy ==> whole
      ensures whole ==> wire == s'.wire && open == s'.open
      ensures !whole ==> !open && s.wire <= wire < s'.wire
      ensures open && ReadsOn(s') ==> Tracks(s')
    {
      if result == None {
        return true, false;
      }
      assert result == Some(PENDING) || result == Some(ProcessState.FINISH);
      var read := Ownership.Result(-1, true, result == Some(ProcessState.FINISH), 0, false);
      if Ownership.OnRead(fd, read) == Ownership.Rearm(Ownership.Read(fd)) {
        return true, true;
      }
      whole, open := WriteOut(fd, healthy, s, s', head, content);
    }

    /** What `Process` ensures, in the terms of the conversation. */
    lemma ProcessedLeads(result: Option<ProcessState>, s: Server, s': Server, o: Outcome,
                         head: seq<string>, content: Content)
      requires Processed(o, result) && Follows(s, s', o, setup, head, content)
      requires !isClose && s.open && wire == s.wire
      requires result == Some(PENDING) ==> writeBuff.Contents() == "" && iov1Len == s.stale
      requires result == Some(ProcessState.FINISH) ==>
                 Carries("", head, content) && (content.Page? ==> iov1Len == s.stale)
      ensures Leads(result, s, s', head, content)
      ensures s'.open && o.code != BAD_REQUEST ==> ReadsOn(s')
    {
    }

    /** `Process` for a connection in state `s`. */
    method Prepare(env: Environment, ghost s: Server, ghost s': Server, ghost o: Outcome,
                   ghost head: seq<string>, ghost content: Content) returns (result: Option<ProcessState>)
      requires Valid() && Honest(env) && !isClose && s.open
      requires o == Parse(Current(), readBuff.Slack(), readBuff.Contents(), readBuff.Terminated())
      requires (head, content) == Respond(QuestionFor(o.r, o.code, setup), setup.types, env)
      requires Follows(s, s', o, setup, head, content)
      requires writeBuff.Contents() == "" && wire == s.wire && iov1Len == s.stale
      modifies this`iov0Base, this`iov0Len, this`iov1Base, this`iov1Len, this`iovCnt
      modifies request, response, readBuff`container, readBuff`readIdx, writeBuff
      ensures Leads(result, s, s', head, content)
      ensures s'.open && o.code != BAD_REQUEST ==> ReadsOn(s')
      ensures result.Some? ==> readBuff.Valid() && readBuff.WritableBytes() == old(readBuff.WritableBytes())
    {
      result := Process(env, o, head, content);
      ProcessedLeads(result, s, s', o, head, content);
    }

    /** Parsing, answering, and writing out. */
    method Answer(fd: int, healthy: bool, env: Environment, ghost s: Server, ghost s': Server, ghost o: Outcome,
                  ghost head: seq<string>, ghost content: Content)
      returns (whole: bool, open: bool)
      requires Valid() && Honest(env) && !isClose && s.open
      requires o == Parse(Current(), readBuff.Slack(), readBuff.Contents(), readBuff.Terminated())
      requires (head, content) == Respond(QuestionFor(o.r, o.code, setup), setup.types, env)
      requires Follows(s, s', o, setup, head, content)
      requires writeBuff.Contents() == "" && wire == s.wire && iov1Len == s.stale
      modifies this`iov0Base, this`iov0Len, this`iov1Base, this`iov1Len, this`iovCnt, this`wire, this`isClose
      modifies request, response, readBuff`container, readBuff`readIdx, writeBuff
      ensures healthy ==> whole
      ensures whole ==> wire == s'.wire && open == s'.open
      ensures !whole ==> !open && s.wire <= wire < s'.wire
      ensures open && o.code != BAD_REQUEST ==> Tracks(s')
      ensures open ==> readBuff.Valid() && readBuff.WritableBytes() == old(readBuff.WritableBytes())
    {
      var result := Prepare(env, s, s', o, head, content);
      whole, open := Dispatch(fd, healthy, result, s, s', head, content);
    }

    /**
      One delivery of bytes: `OnRead`, which drains the socket, and whatever follows
      from it.  If the kernel fails while the response is written, part of it is sent.
     */
    method Serve(fd: int, incoming: string, healthy: bool, env: Environment, ghost s: Server)
      returns (whole: bool, open: bool, ghost chunk: Fragmentation.Chunk)
      requires Tracks(s) && Honest(env)
      requires forall t :: (|incoming| < readBuff.WritableBytes() ==> t) ==>
                 Fits(Fragmentation.Process(s.o, Fragmentation.Chunk(incoming, t)), setup, env, s.stale)
      modifies this`iov0Base, this`iov0Len, this`iov1Base, this`iov1Len, this`iovCnt, this`wire, this`isClose
      modifies request, response, readBuff, writeBuff
      ensures chunk.bytes == incoming && (|incoming| < old(readBuff.WritableBytes()) ==> chunk.terminated)
      ensures var s' := Exchange.Serve(s, chunk, setup, env);
              && (healthy ==> whole)
              && (if whole then wire == s'.wire && open == s'.open else !open && s.wire <= wire < s'.wire)
              && (open && s'.o.code != BAD_REQUEST ==> Tracks(s'))
      ensures open && |incoming| < old(readBuff.WritableBytes()) ==>
                readBuff.Valid() && readBuff.WritableBytes() == old(readBuff.WritableBytes()) - |incoming|
    {
      var _ := ReadFromFd(incoming, -1);
      chunk := Fragmentation.Chunk(incoming, readBuff.Terminated());
      ghost var o := Fragmentation.Process(s.o, chunk);
      ghost var response := Respond(QuestionFor(o.r, o.code, setup), setup.types, env);
      AnswerFollows(s, o, setup, env, response.0, response.1);
      whole, open := Answer(fd, healthy, env, s, Exchange.Answer(s, o, setup, env), o, response.0, response.1);
    }
  }
}
