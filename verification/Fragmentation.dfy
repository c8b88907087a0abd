/**
  Requests arrive in arbitrary pieces.  However a request is cut, the parser asks
  for more after every piece but the last, and after the last it has the request
  that parsing the uncut bytes gives; over a keep-alive connection this repeats.
 */
module Fragmentation {
  import opened Strings
  import opened RequestSpec

  // ---------- Stopping and resuming ----------

  /** No reachable parser is among the header fields with a CR in the slack byte. */
  predicate Coherent(r: Request, slack: char) {
    r.state.HEADERS? ==> slack != '\r'
  }

  lemma FirstLineExtends(slack: char, a: string, b: string)
    requires !FirstLine(slack, a).Open?
    ensures a != "" && FirstLine(slack, a + b) == FirstLine(slack, a) && LineText(a + b) == LineText(a)
  {
    IndexOfFirst(a, '\n');
    var lf := IndexOf(a, '\n');
    assert a[lf] == '\n';
    IndexOfAppend(a, b, '\n');
    var end := if lf == 0 then 0 else lf - 1;
    assert (a + b)[..end] == a[..end];
  }

  lemma EmptyLineIsNoRequestLine(r: Request)
    ensures ParseRequestLine(r, "") == Rejected(r)
  {
  }

  lemma LineStartingWithLfIsEmpty(data: string)
    requires data != "" && data[0] == '\n'
    ensures IndexOf(data, '\n') == 0 && LineText(data) == ""
  {
  }

  lemma CoherentAfterLine(r: Request, slack: char, data: string)
    requires Coherent(r, slack) && data != "" && !r.state.BODY? && FirstLine(slack, data).Ok?
    requires var v := ParseText(r, LineText(data)); v.Accepted? && !v.r.state.FINISH?
    ensures data[0] != '\n'
  {
    IndexOfFirst(data, '\n');
    if data[0] == '\n' {
      LineStartingWithLfIsEmpty(data);
      EmptyLineIsNoRequestLine(r);
    }
  }

  lemma RunStaysFinished(r: Request, slack: char, data: string, terminated: bool)
    requires r.state.FINISH?
    ensures Run(r, slack, data, terminated).r == r
    decreases |data| + if slack == '\r' then 1 else 0
  {
  }

  /** Running on `a` and later on what is left of it with `b` behind is running on `a + b`. */
  lemma {:induction false} Resume(r: Request, slack: char, a: string, b: string, ta: bool, t: bool)
    requires Coherent(r, slack)
    requires var o := Run(r, slack, a, ta); o.code == NO_REQUEST && !o.r.state.FINISH?
    ensures var o := Run(r, slack, a, ta);
            Coherent(o.r, o.slack) && Run(r, slack, a + b, t) == Run(o.r, o.slack, o.rest + b, t)
    decreases |a| + if slack == '\r' then 1 else 0
  {
    if a != "" && !r.state.BODY? && FirstLine(slack, a).Ok? {
      var len := FirstLine(slack, a).len;
      FirstLineExtends(slack, a, b);
      var r' := ParseText(r, LineText(a)).r;
      if r'.state.FINISH? {
        RunStaysFinished(r', Consume(a, len).0, Consume(a, len).1, ta);
      } else {
        CoherentAfterLine(r, slack, a);
        assert a[0] != '\n';
        assert (a + b)[len..] == a[len..] + b;
        RunTakesLine(r, slack, a, ta, len, r');
        RunTakesLine(r, slack, a + b, t, len, r');
        Resume(r', '\0', a[len..], b, ta, t);
      }
    } else if a != "" && !r.state.BODY? && FirstLine(slack, a).Bad? {
      FirstLineExtends(slack, a, b);
    }
  }

  // ---------- One whole request ----------

  /** From `r`, the bytes `data` are the rest of one request, and end where it ends. */
  predicate Exact(r: Request, data: string)
    decreases |data|
  {
    && data != ""
    && match r.state
       case FINISH => false
       case BODY => ContentLength(r) == Some(|data|)
       case _ =>
         var lf := IndexOf(data, '\n');
         && 1 <= lf < |data| && data[lf - 1] == '\r'
         && var v := ParseText(r, LineText(data));
            && v.Accepted?
            && if v.r.state.FINISH? then lf + 1 == |data| else Exact(v.r, data[lf + 1..])
  }

  /** The request has a body, for which the C string at the unread bytes has to end. */
  predicate EndsInBody(r: Request, data: string)
    requires Exact(r, data)
    decreases |data|
  {
    r.state.BODY? ||
    var lf := IndexOf(data, '\n');
    var r' := ParseText(r, LineText(data)).r;
    !r'.state.FINISH? && EndsInBody(r', data[lf + 1..])
  }

  lemma FirstLineOfExact(r: Request, slack: char, data: string)
    requires Exact(r, data) && !r.state.BODY?
    ensures FirstLine(slack, data) == Ok(IndexOf(data, '\n') + 1)
    ensures data[0] != '\n'
    ensures Consume(data, IndexOf(data, '\n') + 1) == ('\0', data[IndexOf(data, '\n') + 1..])
  {
    IndexOfFirst(data, '\n');
  }

  lemma ExactStep(r: Request, data: string) returns (r': Request, lf: nat)
    requires Exact(r, data) && !r.state.BODY?
    ensures lf == IndexOf(data, '\n') && 1 <= lf < |data| && data[lf - 1] == '\r' && data[0] != '\n'
    ensures ParseText(r, LineText(data)) == Accepted(r')
    ensures if r'.state.FINISH? then lf + 1 == |data| else Exact(r', data[lf + 1..])
  {
    IndexOfFirst(data, '\n');
    lf := IndexOf(data, '\n');
    r' := ParseText(r, LineText(data)).r;
  }

  /** A whole request is never left waiting, whatever was consumed before it. */
  lemma {:induction false} ExactIsConsumed(r: Request, slack: char, data: string, t: bool)
    requires Exact(r, data)
    ensures var o := Run(r, slack, data, t);
            && o.code == Run(r, '\0', data, t).code
            && (o.code == GET_REQUEST ==> o == Run(r, '\0', data, t) && o.rest == "" && o.r.state.FINISH?)
            && (o.code == GET_REQUEST || o.code == Fault)
    decreases |data|
  {
    if !r.state.BODY? {
      FirstLineOfExact(r, slack, data);
      FirstLineOfExact(r, '\0', data);
      var len := IndexOf(data, '\n') + 1;
      var r' := ParseText(r, LineText(data)).r;
      RunTakesLine(r, slack, data, t, len, r');
      RunTakesLine(r, '\0', data, t, len, r');
      if !r'.state.FINISH? {
        ExactIsConsumed(r', '\0', data[len..], t);
      }
    }
  }

  lemma EndsInBodyStep(r: Request, data: string) returns (r': Request, lf: nat)
    requires Exact(r, data) && !EndsInBody(r, data)
    ensures lf == IndexOf(data, '\n') && lf < |data| && !r.state.BODY?
    ensures ParseText(r, LineText(data)) == Accepted(r')
    ensures if r'.state.FINISH? then data[lf + 1..] == ""
            else Exact(r', data[lf + 1..]) && !EndsInBody(r', data[lf + 1..])
  {
    r', lf := ExactStep(r, data);
  }

  /** Without a body it makes no difference what is behind the contents. */
  lemma {:induction false} NoBodyNeedsNoZero(r: Request, slack: char, data: string, t: bool)
    requires Exact(r, data) && !EndsInBody(r, data)
    ensures Run(r, slack, data, t) == Run(r, slack, data, true)
    decreases |data|
  {
    var r', lf := EndsInBodyStep(r, data);
    var rest := data[lf + 1..];
    FirstLineOfExact(r, slack, data);
    RunTakesLine(r, slack, data, t, lf + 1, r');
    RunTakesLine(r, slack, data, true, lf + 1, r');
    if r'.state.FINISH? {
      assert Run(r', '\0', "", t) == Run(r', '\0', "", true);
    } else {
      NoBodyNeedsNoZero(r', '\0', rest, t);
    }
  }

  lemma FirstLineOfPrefix(slack: char, data: string, n: nat)
    requires n <= |data|
    requires var lf := IndexOf(data, '\n'); 1 <= lf < |data| && data[lf - 1] == '\r' && data[0] != '\n'
    ensures var lf, p := IndexOf(data, '\n'), data[..n];
            if n <= lf then FirstLine(slack, p) == Open
            else
              && FirstLine(slack, p) == Ok(lf + 1) && LineText(p) == LineText(data)
              && Consume(p, lf + 1) == ('\0', data[lf + 1..][..n - lf - 1])
  {
    IndexOfFirst(data, '\n');
    var lf, p := IndexOf(data, '\n'), data[..n];
    FindIs(p, '\n', 0, if n <= lf then n else lf);
    if n > lf {
      assert p[..lf - 1] == data[..lf - 1];
      assert p[lf + 1..] == data[lf + 1..][..n - lf - 1];
    }
  }

  ghost predicate Waits(o: Outcome) {
    o.code == NO_REQUEST && !o.r.state.FINISH?
  }

  lemma OpenLineWaits(r: Request, slack: char, p: string, t: bool)
    requires !r.state.BODY? && !r.state.FINISH? && (p == "" || FirstLine(slack, p) == Open)
    ensures Waits(Run(r, slack, p, t))
  {
  }

  lemma ShortBodyWaits(r: Request, slack: char, p: string, t: bool)
    requires r.state.BODY? && ContentLength(r).Some? && |p| < ContentLength(r).value
    ensures Waits(Run(r, slack, p, t))
  {
  }

  lemma LineThenWaits(r: Request, slack: char, p: string, t: bool, r': Request, len: nat, q: string)
    requires p != "" && !r.state.BODY? && FirstLine(slack, p) == Ok(len)
    requires ParseText(r, LineText(p)) == Accepted(r') && Consume(p, len) == ('\0', q)
    requires Waits(Run(r', '\0', q, t))
    ensures Waits(Run(r, slack, p, t))
  {
    RunTakesLine(r, slack, p, t, len, r');
  }

  /** Part of a request is not taken for a request. */
  lemma {:induction false} PrefixWaits(r: Request, slack: char, data: string, n: nat, t: bool)
    requires Exact(r, data) && n < |data|
    ensures Waits(Run(r, slack, data[..n], t))
    decreases |data|
  {
    if r.state.BODY? {
      ShortBodyWaits(r, slack, data[..n], t);
    } else {
      var r', lf := ExactStep(r, data);
      FirstLineOfPrefix(slack, data, n);
      if n <= lf {
        OpenLineWaits(r, slack, data[..n], t);
      } else {
        PrefixWaits(r', '\0', data[lf + 1..], n - lf - 1, t);
        LineThenWaits(r, slack, data[..n], t, r', lf + 1, data[lf + 1..][..n - lf - 1]);
      }
    }
  }

  // ---------- Pieces ----------

  /** What one read delivers, and whether the buffer then has a zero behind its contents. */
  datatype Chunk = Chunk(bytes: string, terminated: bool)

  function Bytes(chunks: seq<Chunk>): string {
    if chunks == [] then "" else chunks[0].bytes + Bytes(chunks[1..])
  }

  /** Appending a chunk and running the parse step of `HttpConn::Process`. */
  function Process(o: Outcome, chunk: Chunk): Outcome {
    Parse(if o.r.state.FINISH? then Fresh else o.r, o.slack, o.rest + chunk.bytes, chunk.terminated)
  }

  predicate AllNonEmpty(chunks: seq<Chunk>) {
    forall i :: 0 <= i < |chunks| ==> chunks[i].bytes != ""
  }

  // The next few members do not depend on what is done with a chunk.

  type Step = (Outcome, Chunk) -> Outcome

  /** `NO_REQUEST` after every chunk but the last, and `final` after the last. */
  predicate Answers(step: Step, o: Outcome, chunks: seq<Chunk>, final: Outcome)
    decreases |chunks|
  {
    if chunks == [] then false
    else if |chunks| == 1 then step(o, chunks[0]) == final
    else step(o, chunks[0]).code == NO_REQUEST && Answers(step, step(o, chunks[0]), chunks[1..], final)
  }

  function AfterChunks(step: Step, o: Outcome, chunks: seq<Chunk>): Outcome
    decreases |chunks|
  {
    if chunks == [] then o else AfterChunks(step, step(o, chunks[0]), chunks[1..])
  }

  /** From `o`, more bytes are processed as if they followed `done` in one piece. */
  ghost predicate Continues(step: Step, whole: (string, bool) -> Outcome, o: Outcome, done: string) {
    forall c: Chunk :: c.bytes != "" ==> step(o, c) == whole(done + c.bytes, c.terminated)
  }

  /** Every proper prefix of `data` leaves the parser waiting and able to continue. */
  ghost predicate Resumable(step: Step, whole: (string, bool) -> Outcome, data: string) {
    forall n, t :: 0 < n < |data| ==>
      Waits(whole(data[..n], t)) && Continues(step, whole, whole(data[..n], t), data[..n])
  }

  lemma FirstChunk(data: string, n: nat, chunks: seq<Chunk>) returns (m: nat)
    requires n <= |data| && data[n..] == Bytes(chunks)
    requires chunks != [] && AllNonEmpty(chunks)
    ensures n < m <= |data| && m == n + |chunks[0].bytes|
    ensures data[..n] + chunks[0].bytes == data[..m] && data[m..] == Bytes(chunks[1..])
    ensures |chunks| == 1 <==> m == |data|
  {
    m := n + |chunks[0].bytes|;
    assert data == data[..n] + (chunks[0].bytes + Bytes(chunks[1..]));
    assert |chunks| > 1 ==> chunks[1].bytes != "";
  }

  lemma {:induction false} AnswersFrom(step: Step, whole: (string, bool) -> Outcome, o: Outcome, data: string, n: nat,
                                       chunks: seq<Chunk>)
    requires Resumable(step, whole, data) && n <= |data| && data[n..] == Bytes(chunks)
    requires chunks != [] && AllNonEmpty(chunks)
    requires Continues(step, whole, o, data[..n])
    ensures var final := whole(data, chunks[|chunks| - 1].terminated);
            Answers(step, o, chunks, final) && AfterChunks(step, o, chunks) == final
    decreases |chunks|
  {
    var m := FirstChunk(data, n, chunks);
    var o' := step(o, chunks[0]);
    assert o' == whole(data[..m], chunks[0].terminated);
    if |chunks| == 1 {
      assert data[..m] == data && chunks[1..] == [];
    } else {
      AnswersFrom(step, whole, o', data, m, chunks[1..]);
    }
  }

  lemma ExactIsResumable(slack: char, data: string)
    requires Exact(Fresh, data)
    ensures Resumable(Process, (s, t) => Run(Fresh, slack, s, t), data)
  {
    forall n, t | 0 < n < |data|
      ensures Waits(Run(Fresh, slack, data[..n], t))
      ensures Continues(Process, (s, t) => Run(Fresh, slack, s, t), Run(Fresh, slack, data[..n], t), data[..n])
    {
      PrefixWaits(Fresh, slack, data, n, t);
      var o := Run(Fresh, slack, data[..n], t);
      forall c: Chunk | c.bytes != ""
        ensures Process(o, c) == Run(Fresh, slack, data[..n] + c.bytes, c.terminated)
      {
        Resume(Fresh, slack, data[..n], c.bytes, t, c.terminated);
      }
    }
  }

  /** The connection is between requests. */
  predicate Idle(o: Outcome) {
    o.rest == "" && (o.r.state.FINISH? || o.r == Fresh)
  }

  /** Cutting a request into pieces does not change what it is parsed to. */
  lemma FragmentationIndependence(o: Outcome, chunks: seq<Chunk>)
    requires Idle(o) && chunks != [] && AllNonEmpty(chunks)
    requires Exact(Fresh, Bytes(chunks))
    ensures var terminated := chunks[|chunks| - 1].terminated;
            var final := Run(Fresh, o.slack, Bytes(chunks), terminated);
            && Answers(Process, o, chunks, final) && AfterChunks(Process, o, chunks) == final
            && final.code == Run(Fresh, '\0', Bytes(chunks), terminated).code
            && (final.code == GET_REQUEST ==> final == Run(Fresh, '\0', Bytes(chunks), terminated) && Idle(final))
  {
    var data := Bytes(chunks);
    var whole := (s, t) => Run(Fresh, o.slack, s, t);
    forall c: Chunk | c.bytes != ""
      ensures Process(o, c) == whole(data[..0] + c.bytes, c.terminated)
    {
      assert o.rest + c.bytes == c.bytes == data[..0] + c.bytes;
    }
    ExactIsResumable(o.slack, data);
    AnswersFrom(Process, whole, o, data, 0, chunks);
    ExactIsConsumed(Fresh, o.slack, data, chunks[|chunks| - 1].terminated);
  }

  // ---------- A keep-alive session ----------

  /** A request that the parser accepts when it is sent in one piece and nothing follows it. */
  predicate WellFormed(data: string) {
    Exact(Fresh, data) && Run(Fresh, '\0', data, true).code == GET_REQUEST
  }

  /** The pieces of one request; if it has a body, the last one leaves a zero behind the buffer's contents. */
  predicate CutsOne(chunks: seq<Chunk>) {
    && chunks != [] && AllNonEmpty(chunks)
    && WellFormed(Bytes(chunks))
    && (EndsInBody(Fresh, Bytes(chunks)) ==> chunks[|chunks| - 1].terminated)
  }

  /** The request is answered once, after its last piece, with what parsing it whole gives. */
  predicate AnswersWhole(o: Outcome, chunks: seq<Chunk>) {
    var final := Run(Fresh, '\0', Bytes(chunks), true);
    && final.code == GET_REQUEST && final.rest == ""
    && Answers(Process, o, chunks, final)
    && AfterChunks(Process, o, chunks) == final
  }

  predicate AnswersEach(o: Outcome, requests: seq<seq<Chunk>>)
    decreases |requests|
  {
    requests == []
    || (AnswersWhole(o, requests[0]) && AnswersEach(AfterChunks(Process, o, requests[0]), requests[1..]))
  }

  lemma OneRequest(o: Outcome, chunks: seq<Chunk>)
    requires Idle(o) && CutsOne(chunks)
    ensures AnswersWhole(o, chunks) && Idle(AfterChunks(Process, o, chunks))
  {
    FragmentationIndependence(o, chunks);
    if !EndsInBody(Fresh, Bytes(chunks)) {
      NoBodyNeedsNoZero(Fresh, '\0', Bytes(chunks), chunks[|chunks| - 1].terminated);
    }
  }

  /** Every cutting of every sequence of requests. */
  lemma {:induction false} SessionTheorem(o: Outcome, requests: seq<seq<Chunk>>)
    requires Idle(o)
    requires forall i :: 0 <= i < |requests| ==> CutsOne(requests[i])
    ensures AnswersEach(o, requests)
    decreases |requests|
  {
    if requests != [] {
      OneRequest(o, requests[0]);
      SessionTheorem(AfterChunks(Process, o, requests[0]), requests[1..]);
    }
  }
}
