/**
  `application/x-www-form-urlencoded` bodies: `ConvertPercentEncoding` and the
  form branch of `HttpRequest::ParsePost`.
 */
module Form {
  import opened Strings

  /**
    `HexToDec` with C++ `char` arithmetic.  A character that is not a digit is
    taken to be a letter, whatever it is.
   */
  function HexToDec(c: char): int {
    var u := ToUpper(c);
    if '0' <= u <= '9' then u as int - '0' as int else u as int - 'A' as int + 10
  }

  /** `static_cast<char>` of an `int`. */
  function TruncateToChar(n: int): char {
    (n % 256) as char
  }

  /**
    What `ConvertPercentEncoding` makes of `str[begin..end]`.  Its look-ahead runs
    past `end`, and may touch the terminator `str[|str|]`, but `str[|str| + 1]`
    does not exist: `None` stands for that access.
   */
  function Decode(str: string, begin: nat, end: int): Option<string>
    requires end <= |str|
    decreases end - begin
  {
    if begin >= end then Some("")
    else if str[begin] == '%' then
      if begin + 2 > |str| then None
      else
        var hi := if begin + 1 < |str| then str[begin + 1] else '\0';
        var lo := if begin + 2 < |str| then str[begin + 2] else '\0';
        Prepend(TruncateToChar(HexToDec(hi) * 16 + HexToDec(lo)), Decode(str, begin + 3, end))
    else
      Prepend(if str[begin] == '+' then ' ' else str[begin], Decode(str, begin + 1, end))
  }

  function Prepend(c: char, rest: Option<string>): Option<string> {
    Glue([c], rest)
  }

  function Glue(front: string, rest: Option<string>): Option<string> {
    if rest.None? then None else Some(front + rest.value)
  }

  lemma GlueAssociates(front: string, c: char, rest: Option<string>)
    ensures Glue(front, Prepend(c, rest)) == Glue(front + [c], rest)
  {
    if rest.Some? {
      assert front + ([c] + rest.value) == (front + [c]) + rest.value;
    }
  }

  method ConvertPercentEncoding(str: string, begin: nat, end: int) returns (ret: Option<string>)
    requires end <= |str|
    ensures ret == Decode(str, begin, end)
  {
    var acc := "";
    var i := begin;
    assert Glue("", Decode(str, begin, end)) == Decode(str, begin, end) by {
      var r := Decode(str, begin, end);
      assert r.Some? ==> "" + r.value == r.value;
    }
    while i < end
      invariant begin <= i
      invariant Decode(str, begin, end) == Glue(acc, Decode(str, i, end))
    {
      if str[i] == '+' {
        GlueAssociates(acc, ' ', Decode(str, i + 1, end));
        acc := acc + [' '];
      } else if str[i] == '%' {
        if i + 2 > |str| {
          return None;
        }
        var hi := if i + 1 < |str| then str[i + 1] else '\0';
        var lo := if i + 2 < |str| then str[i + 2] else '\0';
        var hexChar := HexToDec(hi) * 16 + HexToDec(lo);
        GlueAssociates(acc, TruncateToChar(hexChar), Decode(str, i + 3, end));
        acc := acc + [TruncateToChar(hexChar)];
        i := i + 2;
      } else {
        GlueAssociates(acc, str[i], Decode(str, i + 1, end));
        acc := acc + [str[i]];
      }
      i := i + 1;
    }
    assert acc + "" == acc;
    ret := Some(acc);
  }

  /** `std::string::find` narrowed to `int`: -1 for `npos`. */
  function FindFrom(s: string, c: char, begin: nat): (k: int)
    requires begin <= |s|
    ensures k == -1 || begin <= k < |s|
  {
    var k := Find(s, c, begin);
    if k == |s| then -1 else k
  }

  /**
    The fields of `body[begin..]` added to `acc` in order.  The '=' is searched
    for in the rest of the body, not only before the next '&'.
   */
  function Fields(body: string, begin: nat, acc: map<string, string>): Option<map<string, string>>
    requires begin <= |body|
    decreases |body| - begin
  {
    var end := FindFrom(body, '&', begin);
    var split := FindFrom(body, '=', begin);
    var key := Decode(body, begin, split);
    var value := Decode(body, split + 1, if end == -1 then |body| else end);
    if key.None? || value.None? then None
    else if end == -1 then Some(acc[key.value := value.value])
    else Fields(body, end + 1, acc[key.value := value.value])
  }

  /** The form branch of `ParsePost`. */
  method ParseForm(body: string) returns (post: Option<map<string, string>>)
    ensures post == Fields(body, 0, map[])
  {
    var acc: map<string, string> := map[];
    var begin := 0;
    var end := FindFrom(body, '&', begin);
    while end != -1
      invariant begin <= |body| && end == FindFrom(body, '&', begin)
      invariant Fields(body, 0, map[]) == Fields(body, begin, acc)
      decreases |body| - begin
    {
      var split := FindFrom(body, '=', begin);
      var key := ConvertPercentEncoding(body, begin, split);
      var value := ConvertPercentEncoding(body, split + 1, end);
      if key.None? || value.None? {
        return None;
      }
      acc := acc[key.value := value.value];
      begin := end + 1;
      end := FindFrom(body, '&', begin);
    }
    var split := FindFrom(body, '=', begin);
    var key := ConvertPercentEncoding(body, begin, split);
    var value := ConvertPercentEncoding(body, split + 1, |body|);
    if key.None? || value.None? {
      return None;
    }
    post := Some(acc[key.value := value.value]);
  }

  // ---------- Encoders ----------

  function HexDigitValue(c: char): Option<nat> {
    if '0' <= c <= '9' then Some(c as int - '0' as int)
    else if 'A' <= c <= 'F' then Some(10 + c as int - 'A' as int)
    else if 'a' <= c <= 'f' then Some(10 + c as int - 'a' as int)
    else None
  }

  /**
    `code` is one of the encodings of the bytes `plain` that the URL Standard
    admits: each byte as "%" and two hexadecimal digits of either case, a space
    also as "+", and any byte without a meaning of its own also as itself.
   */
  predicate Encodes(plain: string, code: string) {
    if plain == "" then code == ""
    else
      && code != ""
      && if code[0] == '%' then
           && |code| >= 3
           && HexDigitValue(code[1]).Some? && HexDigitValue(code[2]).Some?
           && plain[0] as int == 16 * HexDigitValue(code[1]).value + HexDigitValue(code[2]).value
           && Encodes(plain[1..], code[3..])
         else
           && plain[0] == (if code[0] == '+' then ' ' else code[0])
           && code[0] !in {'&', '=', '\0'}
           && Encodes(plain[1..], code[1..])
  }

  lemma HexDigitsAgree(c: char)
    requires HexDigitValue(c).Some?
    ensures HexToDec(c) == HexDigitValue(c).value < 16
  {
  }

  lemma {:induction false} DecodeInvertsEncodes(str: string, begin: nat, end: nat, plain: string)
    requires begin <= end <= |str|
    requires Encodes(plain, str[begin..end])
    ensures Decode(str, begin, end) == Some(plain)
    decreases |plain|
  {
    var code := str[begin..end];
    if plain != "" {
      var width := if code[0] == '%' then 3 else 1;
      assert code[width..] == str[begin + width..end];
      if code[0] == '%' {
        HexDigitsAgree(code[1]);
        HexDigitsAgree(code[2]);
        assert str[begin + 1] == code[1] && str[begin + 2] == code[2];
      }
      DecodeInvertsEncodes(str, begin + width, end, plain[1..]);
      assert plain == [plain[0]] + plain[1..];
    }
  }

  lemma {:induction false} EncodedIsPlain(plain: string, code: string)
    requires Encodes(plain, code)
    ensures NoneOf(code, {'&', '=', '\0'})
  {
    if plain != "" {
      var width := if code[0] == '%' then 3 else 1;
      EncodedIsPlain(plain[1..], code[width..]);
      forall i | 0 <= i < |code| ensures code[i] !in {'&', '=', '\0'} {
        if i >= width {
          assert code[i] == code[width..][i - width];
        }
      }
    }
  }

  type Pair = (string, string)

  predicate EncodesPairs(pairs: seq<Pair>, codes: seq<Pair>) {
    if pairs == [] then codes == []
    else
      && codes != []
      && Encodes(pairs[0].0, codes[0].0)
      && Encodes(pairs[0].1, codes[0].1)
      && EncodesPairs(pairs[1..], codes[1..])
  }

  function Join(codes: seq<Pair>): string
    requires codes != []
  {
    codes[0].0 + "=" + codes[0].1 + if |codes| == 1 then "" else "&" + Join(codes[1..])
  }

  /** The map that a sequence of assignments leaves behind. */
  function LastWins(pairs: seq<Pair>, acc: map<string, string>): map<string, string> {
    if pairs == [] then acc else LastWins(pairs[1..], acc[pairs[0].0 := pairs[0].1])
  }

  /** The separators of an encoded pair. */
  lemma FindPair(body: string, begin: nat, key: string, value: string)
    requires NoneOf(key, {'&', '=', '\0'}) && NoneOf(value, {'&', '=', '\0'})
    requires begin + |key| + 1 + |value| <= |body|
    requires body[begin..begin + |key|] == key
    requires body[begin + |key|] == '='
    requires body[begin + |key| + 1..begin + |key| + 1 + |value|] == value
    requires var stop := begin + |key| + 1 + |value|; stop == |body| || body[stop] == '&'
    ensures var stop := begin + |key| + 1 + |value|;
            && FindFrom(body, '=', begin) == begin + |key|
            && FindFrom(body, '&', begin) == if stop == |body| then -1 else stop
  {
    var eq := begin + |key|;
    var stop := eq + 1 + |value|;
    assert forall i :: begin <= i < eq ==> body[i] == key[i - begin];
    assert forall i :: eq < i < stop ==> body[i] == value[i - eq - 1];
    FindIs(body, '=', begin, eq);
    FindIs(body, '&', begin, stop);
  }

  /** One round of the decoder. */
  lemma FieldsStep(body: string, begin: nat, key: string, value: string, pair: Pair, acc: map<string, string>)
    requires begin + |key| + 1 + |value| <= |body|
    requires body[begin..begin + |key|] == key
    requires body[begin + |key|] == '='
    requires body[begin + |key| + 1..begin + |key| + 1 + |value|] == value
    requires var stop := begin + |key| + 1 + |value|; stop == |body| || body[stop] == '&'
    requires Encodes(pair.0, key) && Encodes(pair.1, value)
    ensures var acc' := acc[pair.0 := pair.1];
            var stop := begin + |key| + 1 + |value|;
            Fields(body, begin, acc) == if stop == |body| then Some(acc') else Fields(body, stop + 1, acc')
  {
    EncodedIsPlain(pair.0, key);
    EncodedIsPlain(pair.1, value);
    FindPair(body, begin, key, value);
    var eq := begin + |key|;
    DecodeInvertsEncodes(body, begin, eq, pair.0);
    DecodeInvertsEncodes(body, eq + 1, eq + 1 + |value|, pair.1);
  }

  lemma SliceOfSlice(s: string, begin: nat, a: string, b: string)
    requires begin <= |s| && s[begin..] == a + b
    ensures begin + |a| <= |s| && s[begin..begin + |a|] == a && s[begin + |a|..] == b
  {
    assert s[begin..begin + |a|] == s[begin..][..|a|];
    assert s[begin + |a|..] == s[begin..][|a|..];
  }

  /** The codes stand in the body from `begin` on, each with its separators. */
  predicate Laid(body: string, begin: nat, codes: seq<Pair>)
    decreases |codes|
  {
    && codes != []
    && PairAt(body, begin, codes[0])
    && var stop := PairEnd(begin, codes[0]);
       if |codes| == 1 then stop == |body|
       else stop < |body| && body[stop] == '&' && Laid(body, stop + 1, codes[1..])
  }

  function PairEnd(begin: nat, code: Pair): nat {
    begin + |code.0| + 1 + |code.1|
  }

  predicate PairAt(body: string, begin: nat, code: Pair) {
    var eq := begin + |code.0|;
    && PairEnd(begin, code) <= |body|
    && body[begin..eq] == code.0 && body[eq] == '=' && body[eq + 1..PairEnd(begin, code)] == code.1
  }

  lemma SplitPair(body: string, begin: nat, code: Pair, tail: string)
    requires begin <= |body| && body[begin..] == code.0 + "=" + code.1 + tail
    ensures PairAt(body, begin, code) && body[PairEnd(begin, code)..] == tail
  {
    var eq := begin + |code.0|;
    assert code.0 + "=" + code.1 + tail == code.0 + ("=" + (code.1 + tail));
    SliceOfSlice(body, begin, code.0, "=" + (code.1 + tail));
    SliceOfSlice(body, eq, "=", code.1 + tail);
    assert body[eq] == body[eq..][0];
    SliceOfSlice(body, eq + 1, code.1, tail);
  }

  lemma SplitSeparator(body: string, stop: nat, tail: string)
    requires stop <= |body| && body[stop..] == "&" + tail
    ensures stop < |body| && body[stop] == '&' && body[stop + 1..] == tail
  {
    assert body[stop] == body[stop..][0];
    SliceOfSlice(body, stop, "&", tail);
  }

  lemma SplitFirst(body: string, begin: nat, codes: seq<Pair>)
    requires codes != [] && begin <= |body| && body[begin..] == Join(codes)
    ensures PairAt(body, begin, codes[0])
    ensures var stop := PairEnd(begin, codes[0]);
            if |codes| == 1 then stop == |body|
            else stop < |body| && body[stop] == '&' && body[stop + 1..] == Join(codes[1..])
  {
    SplitPair(body, begin, codes[0], if |codes| == 1 then "" else "&" + Join(codes[1..]));
    if |codes| > 1 {
      SplitSeparator(body, PairEnd(begin, codes[0]), Join(codes[1..]));
    }
  }

  lemma {:induction false} JoinIsLaid(body: string, begin: nat, codes: seq<Pair>)
    requires codes != [] && begin <= |body| && body[begin..] == Join(codes)
    ensures Laid(body, begin, codes)
    decreases |codes|
  {
    SplitFirst(body, begin, codes);
    if |codes| > 1 {
      JoinIsLaid(body, PairEnd(begin, codes[0]) + 1, codes[1..]);
    }
  }

  lemma FirstPair(pairs: seq<Pair>, codes: seq<Pair>)
    requires codes != [] && EncodesPairs(pairs, codes)
    ensures pairs != [] && Encodes(pairs[0].0, codes[0].0) && Encodes(pairs[0].1, codes[0].1)
    ensures if |codes| == 1 then pairs[1..] == [] else EncodesPairs(pairs[1..], codes[1..])
  {
  }

  lemma FieldsOfPair(body: string, begin: nat, pair: Pair, code: Pair, acc: map<string, string>)
    requires PairAt(body, begin, code) && Encodes(pair.0, code.0) && Encodes(pair.1, code.1)
    requires var stop := PairEnd(begin, code); stop == |body| || body[stop] == '&'
    ensures var acc', stop := acc[pair.0 := pair.1], PairEnd(begin, code);
            Fields(body, begin, acc) == if stop == |body| then Some(acc') else Fields(body, stop + 1, acc')
  {
    FieldsStep(body, begin, code.0, code.1, pair, acc);
  }

  lemma {:induction false} FieldsOfEncoding(body: string, begin: nat, pairs: seq<Pair>, codes: seq<Pair>,
                                            acc: map<string, string>)
    requires EncodesPairs(pairs, codes) && Laid(body, begin, codes)
    ensures Fields(body, begin, acc) == Some(LastWins(pairs, acc))
    decreases |codes|
  {
    FirstPair(pairs, codes);
    FieldsOfPair(body, begin, pairs[0], codes[0], acc);
    if |codes| > 1 {
      FieldsOfEncoding(body, PairEnd(begin, codes[0]) + 1, pairs[1..], codes[1..], acc[pairs[0].0 := pairs[0].1]);
    }
  }

  /** Decoding a form undoes every admissible encoding of it. */
  lemma FormRoundTrip(pairs: seq<Pair>, codes: seq<Pair>)
    requires codes != [] && EncodesPairs(pairs, codes)
    ensures Fields(Join(codes), 0, map[]) == Some(LastWins(pairs, map[]))
    ensures '\0' !in Join(codes)
  {
    JoinIsLaid(Join(codes), 0, codes);
    FieldsOfEncoding(Join(codes), 0, pairs, codes, map[]);
    JoinHasNoNul(pairs, codes);
  }

  lemma {:induction false} JoinHasNoNul(pairs: seq<Pair>, codes: seq<Pair>)
    requires codes != [] && EncodesPairs(pairs, codes)
    ensures '\0' !in Join(codes)
    decreases |codes|
  {
    EncodedIsPlain(pairs[0].0, codes[0].0);
    EncodedIsPlain(pairs[0].1, codes[0].1);
    if |codes| > 1 {
      JoinHasNoNul(pairs[1..], codes[1..]);
    }
  }

  // The encoder that browsers use: it shows that every byte string has an encoding.

  function HexDigit(n: nat): char
    requires n < 16
    ensures HexDigitValue(HexDigit(n)) == Some(n)
  {
    if n < 10 then ('0' as int + n) as char else ('A' as int + n - 10) as char
  }

  predicate Unreserved(c: char) {
    '0' <= c <= '9' || 'A' <= c <= 'Z' || 'a' <= c <= 'z' || c in "*-._"
  }

  function Encode(plain: string): (code: string)
    requires forall i :: 0 <= i < |plain| ==> plain[i] as int < 256
    ensures Encodes(plain, code)
  {
    if plain == "" then ""
    else
      var rest := Encode(plain[1..]);
      var n := plain[0] as int;
      var c := if plain[0] == ' ' then "+"
               else if Unreserved(plain[0]) then [plain[0]]
               else ['%', HexDigit(n / 16), HexDigit(n % 16)];
      assert (c + rest)[|c|..] == rest;
      c + rest
  }
}
