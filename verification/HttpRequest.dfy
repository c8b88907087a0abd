/**
  `white::HttpRequest`: the parser as it works, on the bytes of a `Buffer` in
  place, proved against `RequestSpec`.
 */
module HttpRequests {
  import opened Strings
  import opened Buffers
  import opened RequestSpec
  import Form
  import Messages
  import Proxy

  datatype LineStatus = LINE_OK | LINE_BAD | LINE_OPEN

  /** The C string that a pointer to `memory[p]` denotes. */
  function StringAt(memory: string, p: nat): string
    requires p <= |memory|
  {
    CString(memory[p..])
  }

  /** The memory differs at most from `lo` to before `hi`. */
  ghost predicate ChangedWithin(before: string, after: string, lo: int, hi: int) {
    && |after| == |before|
    && forall i :: 0 <= i < |before| && !(lo <= i < hi) ==> after[i] == before[i]
  }

  lemma ChangedTwice(a: string, b: string, c: string, lo: int, mid: int, hi: int)
    requires ChangedWithin(a, b, lo, hi) && ChangedWithin(b, c, mid, hi) && lo <= mid
    ensures ChangedWithin(a, c, lo, hi)
  {
  }

  /** `strpbrk` on a C string in memory, by positions. */
  lemma SearchInText(memory: string, p: nat, e: nat, accept: set<char>)
    requires p <= e < |memory| && memory[e] == '\0' && '\0' !in memory[p..e] && '\0' !in accept
    ensures FindAny(memory, accept + {'\0'}, p) == p + FindAny(memory[p..e], accept, 0)
    ensures var q := FindAny(memory, accept + {'\0'}, p); memory[q] == '\0' <==> q == e
  {
    var text := memory[p..e];
    FindAnyFirst(text, accept, 0);
    var k := FindAny(text, accept, 0);
    assert forall i :: p <= i < e ==> memory[i] == text[i - p];
    FindAnyIs(memory, accept + {'\0'}, p, p + k);
  }

  /** `strspn` likewise. */
  lemma SpanInText(memory: string, p: nat, e: nat, accept: set<char>)
    requires p <= e < |memory| && memory[e] == '\0' && '\0' !in accept
    ensures var q := SpanEnd(memory, accept, p);
            q <= e && SkipSpan(memory[p..e], accept) == memory[q..e]
  {
    var text := memory[p..e];
    SpanEndFirst(text, accept, 0);
    SpanEndFirst(memory, accept, p);
    var k, q := SpanEnd(text, accept, 0), SpanEnd(memory, accept, p);
    assert forall i :: p <= i < e ==> memory[i] == text[i - p];
    assert q == p + k;
  }

  lemma TextIs(memory: string, p: nat, e: nat)
    requires p <= e < |memory| && memory[e] == '\0' && '\0' !in memory[p..e]
    ensures StringAt(memory, p) == memory[p..e]
  {
    var text := memory[p..];
    assert text[e - p] == '\0';
    assert forall i :: 0 <= i < e - p ==> text[i] == memory[p..e][i];
    FindIs(text, '\0', 0, e - p);
    assert text[..e - p] == memory[p..e];
  }

  /** Overwriting `memory[q]` leaves what is before and behind it in the C string. */
  lemma OverwrittenAt(memory: string, p: nat, q: nat, e: nat)
    requires p <= q < e < |memory| && memory[e] == '\0' && '\0' !in memory[p..e]
    ensures var after := memory[q := '\0'];
            && after[p..q] == memory[p..e][..q - p] && '\0' !in after[p..q] && after[q] == '\0'
            && after[q + 1..e] == memory[p..e][q + 1 - p..] && '\0' !in after[q + 1..e] && after[e] == '\0'
  {
    var text, after := memory[p..e], memory[q := '\0'];
    assert forall i :: p <= i < e ==> memory[i] == text[i - p];
    assert after[p..q] == text[..q - p];
    assert after[q + 1..e] == text[q + 1 - p..];
  }

  lemma SpanLeavesText(memory: string, p: nat, e: nat, accept: set<char>)
    requires p <= e < |memory| && memory[e] == '\0' && '\0' !in memory[p..e] && '\0' !in accept
    ensures var q := SpanEnd(memory, accept, p);
            && q <= e && '\0' !in memory[q..e]
            && StringAt(memory, q) == memory[q..e] == SkipSpan(memory[p..e], accept)
  {
    SpanInText(memory, p, e, accept);
    var q := SpanEnd(memory, accept, p);
    assert forall i :: q <= i < e ==> memory[i] == memory[p..e][i - p];
    TextIs(memory, q, e);
  }

  /** What is before the byte overwritten at `q`, as a C string. */
  lemma FrontInMemory(memory: string, after: string, p: nat, q: nat, e: nat)
    requires p <= q < e < |memory| && memory[e] == '\0' && '\0' !in memory[p..e]
    requires after == memory[q := '\0']
    ensures StringAt(after, p) == memory[p..e][..q - p]
  {
    OverwrittenAt(memory, p, q, e);
    TextIs(after, p, q);
  }

  /** What is behind it, without the separators that it begins with. */
  lemma BackInMemory(memory: string, after: string, p: nat, q: nat, e: nat, separators: set<char>)
    requires p <= q < e < |memory| && memory[e] == '\0' && '\0' !in memory[p..e] && '\0' !in separators
    requires after == memory[q := '\0']
    ensures var next := SpanEnd(after, separators, q + 1);
            && next <= e && '\0' !in after[next..e]
            && StringAt(after, next) == after[next..e] == SkipSpan(memory[p..e][q + 1 - p..], separators)
  {
    OverwrittenAt(memory, p, q, e);
    SpanLeavesText(after, q + 1, e, separators);
  }

  /** The two parts of a C string in memory after its first separator, at `q`, has been overwritten. */
  lemma CutInMemory(memory: string, p: nat, q: nat, e: nat, separators: set<char>)
    requires p <= q < e < |memory| && memory[e] == '\0' && '\0' !in memory[p..e] && '\0' !in separators
    requires q == p + FindAny(memory[p..e], separators, 0)
    ensures var after := memory[q := '\0'];
            var next := SpanEnd(after, separators, q + 1);
            && next <= e && '\0' !in after[next..e] && StringAt(after, next) == after[next..e]
            && Cut(memory[p..e], separators) == Some((StringAt(after, p), after[next..e]))
  {
    var after := memory[q := '\0'];
    FrontInMemory(memory, after, p, q, e);
    BackInMemory(memory, after, p, q, e, separators);
    CutIs(memory[p..e], separators, q - p, StringAt(after, p), after[SpanEnd(after, separators, q + 1)..e]);
  }

  lemma CutIs(text: string, separators: set<char>, k: nat, front: string, back: string)
    requires k < |text| && k == FindAny(text, separators, 0)
    requires front == text[..k] && back == SkipSpan(text[k + 1..], separators)
    ensures Cut(text, separators) == Some((front, back))
  {
  }

  /** What `ParseLine` leaves: the line is a C string, and its text is what `LineText` says. */
  lemma LineOverwritten(before: string, after: string, read: nat, write: nat, slack: char)
    requires 1 <= read <= write <= |before| && slack == before[read - 1]
    requires FirstLine(slack, before[read..write]).Ok?
    requires var lf := read + IndexOf(before[read..write], '\n'); after == before[lf := '\0'][lf - 1 := '\0']
    ensures var data := before[read..write];
            var text := LineText(data);
            && '\0' in after[read..write]
            && CString(after[read..write]) == text
            && |text| <= (if data[0] == '\n' then 0 else IndexOf(data, '\n') - 1)
  {
    var data, data' := before[read..write], after[read..write];
    IndexOfFirst(data, '\n');
    var lf := IndexOf(data, '\n');
    var end := if lf == 0 then 0 else lf - 1;
    assert data'[end] == after[read + end] == '\0';
    assert data'[..end] == data[..end];
    if '\0' in data[..end] {
      IndexOfAppend(data[..end], data'[end..], '\0');
      assert data' == data[..end] + data'[end..];
    } else {
      IndexOfAppend(data[..end], data'[end..], '\0');
      assert data' == data[..end] + data'[end..];
      assert data'[end..][0] == '\0';
      assert data'[..end] == data[..end];
    }
  }

  /** What `Retrieve` leaves of the bytes after the text of the line was changed as well. */
  lemma LineConsumed(before: string, after: string, read: nat, write: nat, e: nat, slack: char, len: nat)
    requires 1 <= read <= write <= |before| == |after| && slack == before[read - 1]
    requires FirstLine(slack, before[read..write]) == Ok(len)
    requires var lf := read + IndexOf(before[read..write], '\n');
             && read <= e && (e == read || e < lf)
             && ChangedWithin(before[lf := '\0'][lf - 1 := '\0'], after, read, e)
    ensures var next := if len > write - read then read else read + len;
            Consume(before[read..write], len) == (after[next - 1], after[next..write])
  {
    var data := before[read..write];
    var lf := IndexOf(data, '\n');
    if len > |data| {
      assert after[read..write] == "\0";
    } else {
      assert data[1] == before[read + 1];
      assert after[read + len..write] == data[len..];
    }
  }

  /** Whatever was written into the text of the line, up to `e`, taking the line off leaves `next`. */
  ghost predicate Leaves(memory: string, read: nat, write: nat, e: nat, len: nat, next: (char, string))
    requires 1 <= read <= write <= |memory|
  {
    forall after :: ChangedWithin(memory, after, read, e) ==>
      var begin := if len > write - read then read else read + len;
      begin <= write && next == (after[begin - 1], after[begin..write])
  }

  lemma LeftBehind(memory: string, after: string, read: nat, write: nat, e: nat, len: nat, next: (char, string))
    requires 1 <= read <= write <= |memory| && Leaves(memory, read, write, e, len, next)
    requires ChangedWithin(memory, after, read, e)
    ensures var begin := if len > write - read then read else read + len;
            begin <= write && after[begin - 1] == next.0 && after[begin..write] == next.1
  {
  }

  lemma LineLeaves(before: string, memory: string, read: nat, write: nat, e: nat, slack: char, len: nat)
    requires 1 <= read <= write <= |before| && slack == before[read - 1]
    requires FirstLine(slack, before[read..write]) == Ok(len)
    requires var lf := read + IndexOf(before[read..write], '\n');
             && read <= e && (e == read || e < lf) && memory == before[lf := '\0'][lf - 1 := '\0']
    ensures Leaves(memory, read, write, e, len, Consume(before[read..write], len))
  {
    forall after | ChangedWithin(memory, after, read, e)
      ensures var begin := if len > write - read then read else read + len;
              begin <= write && Consume(before[read..write], len) == (after[begin - 1], after[begin..write])
    {
      LineConsumed(before, after, read, write, e, slack, len);
    }
  }

  /** Of the unread bytes at most those of the first line have changed. */
  predicate OnlyLineChanged(before: string, after: string) {
    |after| == |before| && forall i :: IndexOf(before, '\n') < i < |before| ==> after[i] == before[i]
  }

  lemma LineRejected(before: string, after: string, read: nat, write: nat, e: nat)
    requires 1 <= read <= write <= |before|
    requires var lf := read + IndexOf(before[read..write], '\n');
             && lf < write && read <= e && (e == read || e < lf)
             && ChangedWithin(before[lf := '\0'][lf - 1 := '\0'], after, read, e)
    ensures OnlyLineChanged(before[read..write], after[read..write])
    ensures before[read] != '\n' ==> after[read - 1] == before[read - 1]
  {
    IndexOfFirst(before[read..write], '\n');
    assert before[read..write][0] == before[read];
  }

  class HttpRequest {
    var state: ParseState
    var method_: string
    var path: string
    var version: string
    var body: string
    var header: map<string, string>
    var post: Post

    function View(): Request
      reads this
    {
      Request(state, method_, path, version, body, header, post)
    }

    constructor ()
      ensures View() == Fresh
    {
      method_, path, body := "", "", "";
      version := "1.1";
      state := REQUEST_LINE;
      header, post := map[], Empty;
    }

    method Init()
      modifies this
      ensures View() == Fresh
    {
      method_, path, body := "", "", "";
      version := "1.1";
      state := REQUEST_LINE;
      header, post := map[], Empty;
    }

    predicate IsFinish()
      reads this
    {
      state.FINISH?
    }

    function IsKeepAlive(): bool
      reads this
    {
      if "CONNECTION" !in header then version == "1.1" else EqualNoCase(header["CONNECTION"], "KEEP-ALIVE")
    }

    /**
      Finds the first line and overwrites its CR and LF.  The scan looks at the
      byte before an LF, which for the first unread byte is the slack byte.
     */
    method ParseLine(buff: Buffer) returns (status: LineStatus, len: nat)
      requires buff.Valid()
      modifies buff`container
      ensures buff.Valid()
      ensures state.BODY? ==> status == LINE_OK && len == |buff.Contents()| && buff.container == old(buff.container)
      ensures !state.BODY? ==>
                var lf := buff.readIdx + IndexOf(old(buff.Contents()), '\n');
                match FirstLine(old(buff.Slack()), old(buff.Contents()))
                case Open => status == LINE_OPEN && len == 0 && buff.container == old(buff.container)
                case Bad => status == LINE_BAD && len == 0 && buff.container == old(buff.container)
                case Ok(n) => status == LINE_OK && len == n && buff.container == old(buff.container)[lf := '\0'][lf - 1 := '\0']
    {
      if state.BODY? {
        return LINE_OK, buff.ReadableBytes();
      }
      ghost var data := buff.Contents();
      IndexOfFirst(data, '\n');
      var begin := buff.readIdx;
      var end := buff.writeIdx;
      var lineLen := 0;
      while begin != end
        invariant begin == buff.readIdx + lineLen <= end
        invariant buff.container == old(buff.container)
        invariant forall i :: 0 <= i < lineLen ==> data[i] != '\n'
        invariant 0 < lineLen < |data| && data[lineLen - 1] == '\r' ==> data[lineLen] != '\n'
        decreases end - begin
      {
        lineLen := lineLen + 1;
        assert data[lineLen - 1] == buff.container[begin];
        if buff.container[begin] == '\r' {
          if begin + 1 == end {
            return LINE_OPEN, 0;
          } else if buff.container[begin + 1] == '\n' {
            assert data[lineLen] == '\n';
            buff.container := buff.container[begin + 1 := '\0'][begin := '\0'];
            return LINE_OK, lineLen + 1;
          }
        } else if buff.container[begin] == '\n' {
          if buff.container[begin - 1] == '\r' {
            assert lineLen == 1;
            buff.container := buff.container[begin := '\0'][begin - 1 := '\0'];
            return LINE_OK, lineLen + 1;
          }
          return LINE_BAD, 0;
        }
        begin := begin + 1;
      }
      return LINE_OPEN, 0;
    }

    /**
      Cuts the C string at `p` in two where it stands: `strpbrk`, a zero over the
      separator found, and `strspn` past the separators that follow it.
     */
    method CutInPlace(buff: Buffer, p: nat, ghost e: nat, separators: set<char>) returns (next: Option<nat>)
      requires buff.Valid() && buff.readIdx <= p <= e < buff.writeIdx
      requires buff.container[e] == '\0' && '\0' !in buff.container[p..e] && '\0' !in separators
      modifies buff`container
      ensures buff.Valid() && ChangedWithin(old(buff.container), buff.container, p, e)
      ensures match Cut(old(buff.container[p..e]), separators)
              case None => next == None
              case Some((front, back)) =>
                && next.Some? && p < next.value <= e
                && StringAt(buff.container, p) == front
                && '\0' !in buff.container[next.value..e]
                && StringAt(buff.container, next.value) == buff.container[next.value..e] == back
    {
      ghost var memory := buff.container;
      SearchInText(memory, p, e, separators);
      var q := FindAny(buff.container, separators + {'\0'}, p);
      if buff.container[q] == '\0' {
        return None;
      }
      buff.container := buff.container[q := '\0'];
      CutInMemory(memory, p, q, e, separators);
      q := SpanEnd(buff.container, separators, q + 1);
      return Some(q);
    }

    /** The current line is a C string that ends at `e`. */
    ghost predicate LineEndsAt(buff: Buffer, e: nat)
      reads buff
    {
      && buff.Valid() && buff.readIdx <= e < buff.writeIdx
      && buff.container[e] == '\0' && '\0' !in buff.container[buff.readIdx..e]
    }

    /** `None` where the C++ code passes a null pointer on. */
    method ParseRequestLine(buff: Buffer, ghost e: nat) returns (ok: Option<bool>)
      requires LineEndsAt(buff, e)
      modifies this, buff`container
      ensures buff.Valid() && ChangedWithin(old(buff.container), buff.container, buff.readIdx, e)
      ensures Decides(RequestSpec.ParseRequestLine(old(View()), old(buff.container[buff.readIdx..e])), ok)
    {
      var line := buff.readIdx;
      ghost var memory := buff.container;
      ghost var verdict := RequestSpec.ParseRequestLine(View(), memory[line..e]);
      var url := CutInPlace(buff, line, e, BLANKS);
      if url.None? {
        return Some(false);
      }
      var name := StringAt(buff.container, line);
      if EqualNoCase(name, "GET") {
        method_ := "GET";
      } else if EqualNoCase(name, "POST") {
        method_ := "POST";
      } else {
        return Some(false);
      }
      ghost var cut := buff.container;
      ok := ParseTarget(buff, url.value, e, verdict);
      ChangedTwice(memory, cut, buff.container, line, url.value, e);
    }

    /** The second half of `ParseRequestLine`: `url` points at the request target. */
    method ParseTarget(buff: Buffer, url: nat, ghost e: nat, ghost verdict: Verdict) returns (ok: Option<bool>)
      requires buff.Valid() && buff.readIdx <= url <= e < buff.writeIdx
      requires buff.container[e] == '\0' && '\0' !in buff.container[url..e]
      requires verdict == RequestSpec.ParseTarget(View(), buff.container[url..e])
      modifies this, buff`container
      ensures buff.Valid() && ChangedWithin(old(buff.container), buff.container, url, e)
      ensures Decides(verdict, ok)
    {
      var version := CutInPlace(buff, url, e, BLANKS);
      if version.None? {
        return Some(false);
      }
      var protocol := StringAt(buff.container, version.value);
      if EqualNoCase(protocol, "HTTP/1.1") {
        this.version := "1.1";
      } else if EqualNoCase(protocol, "HTTP/1.0") {
        this.version := "1.0";
      } else {
        return Some(false);
      }
      var start := PathOf(StringAt(buff.container, url));
      if start.None? {
        return None;
      }
      if start.value == "" || start.value[0] != '/' {
        return Some(false);
      }
      path := start.value;
      state := HEADERS;
      return Some(true);
    }

    /** `View()` and the returned value are what the verdict says. */
    ghost predicate Decides(verdict: Verdict, ok: Option<bool>)
      reads this
    {
      match verdict
      case Accepted(r) => ok == Some(true) && View() == r
      case Rejected(r) => ok == Some(false) && View() == r
      case Faulted => ok == None
    }

    lemma LineHasEnd(buff: Buffer) returns (e: nat)
      requires buff.Valid() && '\0' in buff.Contents()
      ensures LineEndsAt(buff, e)
      ensures buff.container[buff.readIdx..e] == CString(buff.Contents())
    {
      var data := buff.Contents();
      e := buff.readIdx + IndexOf(data, '\0');
      IndexOfFirst(data, '\0');
      assert data[e - buff.readIdx] == buff.container[e];
      assert buff.container[buff.readIdx..e] == CString(data);
      CStringIsPrefix(data);
    }

    method ParseHeader(buff: Buffer, ghost e: nat) returns (ok: bool)
      requires LineEndsAt(buff, e)
      modifies this, buff`container
      ensures buff.Valid() && ChangedWithin(old(buff.container), buff.container, buff.readIdx, e)
      ensures Decides(RequestSpec.ParseHeader(old(View()), old(buff.container[buff.readIdx..e])), Some(ok))
    {
      var line := buff.readIdx;
      if buff.container[line] == '\0' {
        assert line == e;
        state := if "CONTENT-LENGTH" in header then BODY else FINISH;
        return true;
      }
      var value := CutInPlace(buff, line, e, FIELD_SEPARATORS);
      if value.None? {
        return false;
      }
      header := header[Upper(StringAt(buff.container, line)) := StringAt(buff.container, value.value)];
      return true;
    }

    /** `None` where `stoi` throws, the form decoder or the string constructor reads past the end. */
    method ParseBody(buff: Buffer, ghost verdict: Verdict) returns (ok: Option<bool>)
      requires buff.Valid() && buff.Contents() != ""
      requires verdict == RequestSpec.ParseBody(View(), buff.Contents(), buff.Terminated())
      modifies this
      ensures Decides(verdict, ok)
    {
      var length := ContentLength(View());
      if length.None? {
        return None;
      }
      if !(0 <= length.value <= buff.ReadableBytes()) {
        return Some(false);
      }
      BodyInMemory(buff);
      if '\0' !in buff.container[buff.readIdx..] {
        return None;
      }
      body := StringAt(buff.container, buff.readIdx);
      var parsed := ParsePost();
      if !parsed {
        return None;
      }
      state := FINISH;
      return Some(true);
    }

    /** The zero tail ends the body's C string where the contents end. */
    lemma BodyInMemory(buff: Buffer)
      requires buff.Valid()
      ensures BodyText(buff.Contents(), buff.Terminated()) ==
              if '\0' in buff.container[buff.readIdx..] then Some(StringAt(buff.container, buff.readIdx)) else None
    {
      var data, memory := buff.Contents(), buff.container[buff.readIdx..];
      var tail := buff.container[buff.writeIdx..];
      assert memory == data + tail;
      if '\0' in data {
        IndexOfAppend(data, tail, '\0');
        assert memory[..IndexOf(data, '\0')] == data[..IndexOf(data, '\0')];
      } else if buff.Terminated() {
        assert tail[0] == '\0';
        IndexOfAppend(data, tail, '\0');
        assert memory[..|data|] == data == CString(data);
        assert memory[|data|] == '\0';
      }
    }

    method ParsePost() returns (ok: bool)
      modifies this
      ensures var r := RequestSpec.ParsePost(old(View()));
              ok == r.Some? && (ok ==> View() == r.value)
    {
      header := WithContentType(header);
      var contentType := header["CONTENT-TYPE"];
      if HasPrefixNoCase(contentType, "APPLICATION/X-WWW-FORM-URLENCODED") {
        var fields := Form.ParseForm(body);
        if fields.None? {
          return false;
        }
        post := Fields(fields.value);
      } else if HasPrefixNoCase(contentType, "APPLICATION/JSON") {
        post := JsonText(body);
      }
      return true;
    }

    /** The `switch` of `Parse` for a line that is terminated in place. */
    method ParseText(buff: Buffer, ghost e: nat, ghost verdict: Verdict) returns (ok: Option<bool>)
      requires LineEndsAt(buff, e) && !state.BODY?
      requires verdict == RequestSpec.ParseText(View(), buff.container[buff.readIdx..e])
      modifies this, buff`container
      ensures buff.Valid() && ChangedWithin(old(buff.container), buff.container, buff.readIdx, e)
      ensures Decides(verdict, ok)
    {
      match state {
        case REQUEST_LINE => ok := ParseRequestLine(buff, e);
        case HEADERS =>
          var accepted := ParseHeader(buff, e);
          ok := Some(accepted);
        case FINISH => ok := Some(true);
      }
    }

    /** The part of a round that follows a complete line. */
    method UseLine(buff: Buffer, len: nat, ghost e: nat, ghost verdict: Verdict, ghost next: (char, string))
      returns (ok: Option<bool>)
      requires LineEndsAt(buff, e) && !state.BODY?
      requires verdict == RequestSpec.ParseText(View(), buff.container[buff.readIdx..e])
      requires Leaves(buff.container, buff.readIdx, buff.writeIdx, e, len, next)
      modifies this, buff`container, buff`readIdx
      ensures buff.Valid() && |buff.container| == |old(buff.container)|
      ensures Decides(verdict, ok)
      ensures ok == Some(true) ==> buff.Slack() == next.0 && buff.Contents() == next.1
      ensures ok != Some(true) ==>
                buff.readIdx == old(buff.readIdx)
                && ChangedWithin(old(buff.container), buff.container, buff.readIdx, e)
    {
      ghost var memory := buff.container;
      ok := ParseText(buff, e, verdict);
      if ok == Some(true) {
        RetrieveLine(buff, len, memory, e, next);
      }
    }

    /** Takes the line off, whose text up to `e` may have been written into. */
    method RetrieveLine(buff: Buffer, len: nat, ghost memory: string, ghost e: nat, ghost next: (char, string))
      requires buff.Valid() && |memory| == |buff.container|
      requires Leaves(memory, buff.readIdx, buff.writeIdx, e, len, next)
      requires ChangedWithin(memory, buff.container, buff.readIdx, e)
      modifies buff`readIdx
      ensures buff.Valid() && buff.Slack() == next.0 && buff.Contents() == next.1
    {
      LeftBehind(memory, buff.container, buff.readIdx, buff.writeIdx, e, len, next);
      buff.Retrieve(len);
    }

    lemma RejectedIsKept(buff: Buffer, before: string, slack: char, data: string, e: nat)
      requires buff.Valid() && |before| == |buff.container|
      requires slack == before[buff.readIdx - 1] && data == before[buff.readIdx..buff.writeIdx]
      requires var lf := buff.readIdx + IndexOf(data, '\n');
               && lf < buff.writeIdx && buff.readIdx <= e && (e == buff.readIdx || e < lf)
               && ChangedWithin(before[lf := '\0'][lf - 1 := '\0'], buff.container, buff.readIdx, e)
      ensures Keeps(buff, slack, data)
    {
      LineRejected(before, buff.container, buff.readIdx, buff.writeIdx, e);
    }

    /** `ParseLine`, and what its success means. */
    method FindLine(buff: Buffer, ghost line: Line) returns (status: LineStatus, len: nat, ghost e: nat)
      requires buff.Valid() && !state.BODY?
      requires line == FirstLine(buff.Slack(), buff.Contents())
      modifies buff`container
      ensures buff.Valid() && |buff.container| == |old(buff.container)|
      ensures status == LINE_OK <==> line.Ok?
      ensures !line.Ok? ==> buff.container == old(buff.container)
      ensures line.Ok? ==>
                && len == line.len && LineEndsAt(buff, e)
                && buff.container[buff.readIdx..e] == LineText(old(buff.Contents()))
                && Leaves(buff.container, buff.readIdx, buff.writeIdx, e, len, Consume(old(buff.Contents()), len))
      ensures line.Ok? ==>
                var lf := buff.readIdx + IndexOf(old(buff.Contents()), '\n');
                && lf < buff.writeIdx && (e == buff.readIdx || e < lf)
                && buff.container == old(buff.container)[lf := '\0'][lf - 1 := '\0']
    {
      ghost var before, slack, read, write := buff.container, buff.Slack(), buff.readIdx, buff.writeIdx;
      status, len := ParseLine(buff);
      if status == LINE_OK {
        LineOverwritten(before, buff.container, read, write, slack);
        e := LineHasEnd(buff);
        LineLeaves(before, buff.container, read, write, e, slack, len);
      } else {
        e := 0;
      }
    }

    /** One round of the loop of `Parse` outside the body. */
    method ParseOneLine(buff: Buffer, ghost line: Line, ghost verdict: Verdict)
      returns (status: LineStatus, ok: Option<bool>)
      requires buff.Valid() && !state.BODY?
      requires line == FirstLine(buff.Slack(), buff.Contents())
      requires verdict == RequestSpec.ParseText(View(), LineText(buff.Contents()))
      modifies this, buff`container, buff`readIdx
      ensures buff.Valid() && |buff.container| == |old(buff.container)|
      ensures status == LINE_OK <==> line.Ok?
      ensures !line.Ok? ==> View() == old(View()) && buff.Slack() == old(buff.Slack())
                            && buff.Contents() == old(buff.Contents())
      ensures line.Ok? ==> Decides(verdict, ok)
      ensures line.Ok? && ok == Some(true) ==>
                (buff.Slack(), buff.Contents()) == Consume(old(buff.Contents()), line.len)
      ensures line.Ok? && ok != Some(true) ==> Keeps(buff, old(buff.Slack()), old(buff.Contents()))
    {
      ghost var before, slack, data := buff.container, buff.Slack(), buff.Contents();
      var len;
      ghost var e;
      status, len, e := FindLine(buff, line);
      ok := None;
      if status == LINE_OK {
        ok := UseLine(buff, len, e, verdict, Consume(data, len));
        if ok != Some(true) {
          RejectedIsKept(buff, before, slack, data, e);
        }
      }
    }

    /** A rejected line is not retrieved: only its own bytes have changed, and a slack byte that is its CR. */
    ghost predicate Keeps(buff: Buffer, slack: char, data: string)
      requires buff.Valid()
      reads buff
    {
      && OnlyLineChanged(data, buff.Contents())
      && (data != "" && data[0] != '\n' ==> buff.Slack() == slack)
    }

    /** The code and the state of the buffer are those of the outcome. */
    ghost predicate Reaches(o: Outcome, code: Code, buff: Buffer)
      requires buff.Valid()
      reads this, buff
    {
      && code == o.code
      && (code != Fault ==> View() == o.r)
      && (code == NO_REQUEST || code == GET_REQUEST ==> buff.Slack() == o.slack && buff.Contents() == o.rest)
      && (code == BAD_REQUEST ==> Keeps(buff, o.slack, o.rest))
    }

    ghost function Measure(buff: Buffer): nat
      requires buff.Valid()
      reads buff
    {
      if buff.Contents() == "" then 0 else |buff.Contents()| + if buff.Slack() == '\r' then 1 else 0
    }

    /** One round of the loop of `Parse` in the body; `None` if the loop goes on. */
    method ParseRoundInBody(buff: Buffer, ghost terminated: bool, ghost o: Outcome) returns (code: Option<Code>)
      requires buff.Valid() && buff.Contents() != "" && terminated == buff.Terminated()
      requires o == Run(View(), buff.Slack(), buff.Contents(), terminated)
      requires state.BODY?
      modifies this, buff`container, buff`readIdx
      ensures buff.Valid() && |buff.container| == |old(buff.container)|
      ensures code.Some? ==> Reaches(o, code.value, buff)
      ensures code.None? ==> o == Run(View(), buff.Slack(), buff.Contents(), terminated)
      ensures code.None? ==> Measure(buff) < old(Measure(buff))
    {
      ghost var r, slack, data := View(), buff.Slack(), buff.Contents();
      ghost var verdict := RequestSpec.ParseBody(r, data, terminated);
      var _, len := ParseLine(buff);
      var ok := ParseBody(buff, verdict);
      if ok != Some(true) {
        return Some(if ok.Some? then NO_REQUEST else Fault);
      }
      RunTakesBody(r, slack, data, terminated, View());
      buff.Retrieve(len);
      return None;
    }

    /** One round of the loop of `Parse`; `None` if it goes on. */
    method ParseRound(buff: Buffer, ghost terminated: bool, ghost o: Outcome) returns (code: Option<Code>)
      requires buff.Valid() && buff.Contents() != "" && terminated == buff.Terminated()
      requires o == Run(View(), buff.Slack(), buff.Contents(), terminated)
      modifies this, buff`container, buff`readIdx
      ensures buff.Valid() && |buff.container| == |old(buff.container)|
      ensures code.Some? ==> Reaches(o, code.value, buff)
      ensures code.None? ==> o == Run(View(), buff.Slack(), buff.Contents(), terminated)
      ensures code.None? ==> Measure(buff) < old(Measure(buff))
    {
      if state.BODY? {
        code := ParseRoundInBody(buff, terminated, o);
      } else {
        ghost var r, slack, data := View(), buff.Slack(), buff.Contents();
        ghost var line, verdict := FirstLine(slack, data), RequestSpec.ParseText(r, LineText(data));
        var status, ok := ParseOneLine(buff, line, verdict);
        if status != LINE_OK {
          return Some(NO_REQUEST);
        }
        if ok != Some(true) {
          state := FINISH;
          return Some(if ok.Some? then BAD_REQUEST else Fault);
        }
        RunTakesLine(r, slack, data, terminated, line.len, View());
        return None;
      }
    }

    /** Parses as many lines as there are; a body is parsed only once it is complete. */
    method Parse(buff: Buffer) returns (code: Code)
      requires buff.Valid()
      modifies this, buff`container, buff`readIdx
      ensures buff.Valid() && buff.WritableBytes() == old(buff.WritableBytes())
      ensures Reaches(RequestSpec.Parse(old(View()), old(buff.Slack()), old(buff.Contents()), old(buff.Terminated())),
                      code, buff)
    {
      if buff.ReadableBytes() == 0 {
        return NO_REQUEST;
      }
      ghost var terminated := buff.Terminated();
      ghost var o := Run(View(), buff.Slack(), buff.Contents(), terminated);
      while buff.ReadableBytes() != 0
        invariant buff.Valid() && |buff.container| == |old(buff.container)| && terminated == buff.Terminated()
        invariant Run(View(), buff.Slack(), buff.Contents(), terminated) == o
        decreases Measure(buff)
      {
        var result := ParseRound(buff, terminated, o);
        if result.Some? {
          return result.value;
        }
      }
      code := if state.FINISH? then GET_REQUEST else NO_REQUEST;
    }

    method AddCustomHeader(buff: Buffer, key: string, value: string)
      requires buff.Valid()
      modifies buff
      ensures buff.Valid() && buff.Contents() == old(buff.Contents()) + Messages.PrintField((key, value))
    {
      buff.Append(key + ": " + value + "\r\n");
    }

    /**
      Writes the request with the forwarding fields added.  The header map is
      traversed in the hash table's order, whatever it is; looking the host up
      inserts an empty one when there is none.
     */
    method MakeProxyRequests(buff: Buffer, originIp: string) returns (ghost order: seq<string>)
      requires buff.Valid()
      modifies this`header, buff
      ensures buff.Valid() && Proxy.IsOrder(order, old(header))
      ensures buff.Contents() == old(buff.Contents()) + Messages.Print(Proxy.ProxyMessage(old(View()), order, originIp))
      ensures header == if "HOST" in old(header) then old(header) else old(header)["HOST" := ""]
    {
      ghost var before, r := buff.Contents(), View();
      ghost var start := method_ + " " + path + " HTTP/" + version;
      buff.Append(method_ + " " + path + " HTTP/" + version + "\r\n");
      order := AddOwnFields(buff);
      AddForwarding(buff, originIp);
      buff.Append("\r\n");
      if body != "" {
        buff.Append(body);
      }
      ghost var own := Messages.PrintFields(Proxy.OwnFields(r.header, order));
      ghost var five := Messages.PrintFields(Proxy.ForwardingFields(Proxy.HostOf(r.header), originIp));
      assert buff.Contents() == before + (start + "\r\n") + own + five + "\r\n" + body;
      Messages.PrintFieldsAppend(Proxy.OwnFields(r.header, order),
                                 Proxy.ForwardingFields(Proxy.HostOf(r.header), originIp));
      Regroup(before, start, own, five, body);
    }

    lemma Regroup(before: string, start: string, own: string, five: string, body: string)
      ensures before + (start + "\r\n") + own + five + "\r\n" + body
           == before + (start + "\r\n" + ((own + five) + ("\r\n" + body)))
    {
    }

    /** The fields of the header map, in some order. */
    method AddOwnFields(buff: Buffer) returns (ghost order: seq<string>)
      requires buff.Valid()
      modifies buff
      ensures buff.Valid() && Proxy.IsOrder(order, header)
      ensures buff.Contents() == old(buff.Contents()) + Messages.PrintFields(Proxy.OwnFields(header, order))
    {
      var keys := header.Keys;
      order := [];
      while keys != {}
        invariant buff.Valid()
        invariant forall k :: k in order <==> k in header && k !in keys
        invariant keys <= header.Keys
        invariant buff.Contents() == old(buff.Contents()) + Messages.PrintFields(Proxy.OwnFields(header, order))
        decreases |keys|
      {
        var key :| key in keys;
        Proxy.PrintOneMore(header, order, key);
        AddCustomHeader(buff, key, header[key]);
        keys, order := keys - {key}, order + [key];
      }
    }

    /** The five forwarding fields of `MakeProxyRequests`. */
    method AddForwarding(buff: Buffer, originIp: string)
      requires buff.Valid()
      modifies this`header, buff
      ensures buff.Valid()
      ensures buff.Contents() == old(buff.Contents()) +
                                 Messages.PrintFields(Proxy.ForwardingFields(Proxy.HostOf(old(header)), originIp))
      ensures header == if "HOST" in old(header) then old(header) else old(header)["HOST" := ""]
    {
      Proxy.PrintForwarding(buff.Contents(), Proxy.ForwardingFields(Proxy.HostOf(header), originIp));
      AddCustomHeader(buff, "X-Forwarded-For", originIp);
      header := header["HOST" := Proxy.HostOf(header)];
      AddCustomHeader(buff, "X-Forwarded-Host", header["HOST"]);
      AddCustomHeader(buff, "X-Forwarded-Proto", "http");
      AddCustomHeader(buff, "Forwarded", Proxy.ForwardedValue(header["HOST"], originIp));
      AddCustomHeader(buff, "via", "WhiteWebServer_Proxy");
    }
  }
}
