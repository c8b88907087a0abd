/**
  The few C string routines that the server's parsing code leans on, as
  functions on `string`.  A C++ `char` is a Dafny `char` and a `std::string` is
  a `string`; a C string is a `string` without a NUL.
 */
module Strings {

  datatype Option<+T> = None | Some(value: T)

  lemma Assoc<T>(a: seq<T>, b: seq<T>, c: seq<T>)
    ensures (a + b) + c == a + (b + c)
  {
  }

  // ---------- Searching ----------

  /** The first position from `begin` on that holds `c`, or `|s|` (`std::string::find`). */
  function Find(s: string, c: char, begin: nat): (k: nat)
    requires begin <= |s|
    ensures begin <= k <= |s|
    decreases |s| - begin
  {
    if begin == |s| || s[begin] == c then begin else Find(s, c, begin + 1)
  }

  /** The position of the first `c`, or `|s|` (`strchr`). */
  function IndexOf(s: string, c: char): (k: nat)
    ensures k <= |s|
  {
    Find(s, c, 0)
  }

  /** The first position from `begin` on that holds one of `accept`, or `|s|` (`strpbrk`). */
  function FindAny(s: string, accept: set<char>, begin: nat): (k: nat)
    requires begin <= |s|
    ensures begin <= k <= |s|
    decreases |s| - begin
  {
    if begin == |s| || s[begin] in accept then begin else FindAny(s, accept, begin + 1)
  }

  /** The first position from `begin` on that does not hold one of `accept`, or `|s|` (`strspn`). */
  function SpanEnd(s: string, accept: set<char>, begin: nat): (k: nat)
    requires begin <= |s|
    ensures begin <= k <= |s|
    decreases |s| - begin
  {
    if begin == |s| || s[begin] !in accept then begin else SpanEnd(s, accept, begin + 1)
  }

  /** What is left after the leading characters in `accept`. */
  function SkipSpan(s: string, accept: set<char>): string {
    s[SpanEnd(s, accept, 0)..]
  }

  lemma {:induction false} FindFirst(s: string, c: char, begin: nat)
    requires begin <= |s|
    ensures var k := Find(s, c, begin);
            (k < |s| ==> s[k] == c) && forall i :: begin <= i < k ==> s[i] != c
    decreases |s| - begin
  {
    if begin < |s| && s[begin] != c {
      FindFirst(s, c, begin + 1);
    }
  }

  lemma FindIs(s: string, c: char, begin: nat, k: nat)
    requires begin <= k <= |s|
    requires k < |s| ==> s[k] == c
    requires forall i :: begin <= i < k ==> s[i] != c
    ensures Find(s, c, begin) == k
  {
    FindFirst(s, c, begin);
  }

  lemma IndexOfFirst(s: string, c: char)
    ensures var k := IndexOf(s, c);
            (k < |s| ==> s[k] == c) && forall i :: 0 <= i < k ==> s[i] != c
  {
    FindFirst(s, c, 0);
  }

  lemma {:induction false} FindAnyIs(s: string, accept: set<char>, begin: nat, k: nat)
    requires begin <= k <= |s|
    requires k < |s| ==> s[k] in accept
    requires forall i :: begin <= i < k ==> s[i] !in accept
    ensures FindAny(s, accept, begin) == k
    decreases k - begin
  {
    if begin < k {
      FindAnyIs(s, accept, begin + 1, k);
    }
  }

  lemma {:induction false} FindAnyFirst(s: string, accept: set<char>, begin: nat)
    requires begin <= |s|
    ensures var k := FindAny(s, accept, begin);
            (k < |s| ==> s[k] in accept) && forall i :: begin <= i < k ==> s[i] !in accept
    decreases |s| - begin
  {
    if begin < |s| && s[begin] !in accept {
      FindAnyFirst(s, accept, begin + 1);
    }
  }

  lemma {:induction false} SpanEndFirst(s: string, accept: set<char>, begin: nat)
    requires begin <= |s|
    ensures var k := SpanEnd(s, accept, begin);
            (k < |s| ==> s[k] !in accept) && forall i :: begin <= i < k ==> s[i] in accept
    decreases |s| - begin
  {
    if begin < |s| && s[begin] in accept {
      SpanEndFirst(s, accept, begin + 1);
    }
  }

  lemma {:induction false} SpanEndIs(s: string, accept: set<char>, begin: nat, k: nat)
    requires begin <= k <= |s|
    requires k < |s| ==> s[k] !in accept
    requires forall i :: begin <= i < k ==> s[i] in accept
    ensures SpanEnd(s, accept, begin) == k
    decreases k - begin
  {
    if begin < k {
      SpanEndIs(s, accept, begin + 1, k);
    }
  }

  lemma IndexOfAppend(s: string, t: string, c: char)
    ensures c in s ==> IndexOf(s + t, c) == IndexOf(s, c) < |s|
    ensures c !in s ==> IndexOf(s, c) == |s| && IndexOf(s + t, c) == |s| + IndexOf(t, c)
  {
    IndexOfFirst(s, c);
    IndexOfFirst(t, c);
    var k := IndexOf(s, c);
    if c in s {
      FindIs(s + t, c, 0, k);
    } else {
      FindIs(s + t, c, 0, |s| + IndexOf(t, c));
    }
  }

  // ---------- C strings and letter case ----------

  /** The C string that starts where `s` starts; the end of `s` counts as a NUL. */
  function CString(s: string): string {
    s[..IndexOf(s, '\0')]
  }

  lemma CStringIsPrefix(s: string)
    ensures '\0' !in CString(s)
    ensures '\0' !in s ==> CString(s) == s
  {
    IndexOfFirst(s, '\0');
  }

  function ToUpper(c: char): char {
    if 'a' <= c <= 'z' then (c as int - 32) as char else c
  }

  /** `StrToupper`. */
  function Upper(s: string): (r: string)
    ensures |r| == |s|
  {
    seq(|s|, i requires 0 <= i < |s| => ToUpper(s[i]))
  }

  /** `strncasecmp(s, prefix, |prefix|) == 0`, for an upper-case prefix. */
  predicate HasPrefixNoCase(s: string, prefix: string) {
    |prefix| <= |s| && forall i :: 0 <= i < |prefix| ==> ToUpper(s[i]) == prefix[i]
  }

  /** `strcasecmp(s, t) == 0`, for an upper-case `t`. */
  predicate EqualNoCase(s: string, t: string) {
    |s| == |t| && HasPrefixNoCase(s, t)
  }

  /** No character of `s` is in `bad`. */
  predicate NoneOf(s: string, bad: set<char>) {
    forall i :: 0 <= i < |s| ==> s[i] !in bad
  }

  // ---------- Numbers ----------

  predicate IsSpace(c: char) {
    c == ' ' || '\t' <= c <= '\r'
  }

  predicate IsDigit(c: char) {
    '0' <= c <= '9'
  }

  function DigitRun(s: string): (k: nat)
    ensures k <= |s|
  {
    if s == "" || !IsDigit(s[0]) then 0 else 1 + DigitRun(s[1..])
  }

  function SpaceRun(s: string): (k: nat)
    ensures k <= |s|
  {
    if s == "" || !IsSpace(s[0]) then 0 else 1 + SpaceRun(s[1..])
  }

  /** The number that a string of decimal digits denotes. */
  function DecimalValue(s: string): int {
    if s == "" then 0
    else 10 * DecimalValue(s[..|s| - 1]) + (s[|s| - 1] as int - '0' as int)
  }

  const INT_MAX := 0x7fff_ffff

  /** `std::stoi`: `None` where it throws. */
  function Stoi(s: string): Option<int> {
    var t := s[SpaceRun(s)..];
    var signed := t != "" && (t[0] == '-' || t[0] == '+');
    var u := if signed then t[1..] else t;
    var digits := u[..DigitRun(u)];
    if digits == "" then None
    else
      var v := if signed && t[0] == '-' then -DecimalValue(digits) else DecimalValue(digits);
      if -INT_MAX - 1 <= v <= INT_MAX then Some(v) else None
  }

  /** `std::to_string` on a natural number. */
  function ToDecimal(n: nat): (s: string)
    ensures s != ""
  {
    var last := [(n % 10 + '0' as int) as char];
    if n < 10 then last else ToDecimal(n / 10) + last
  }

  lemma {:induction false} DecimalRoundTrip(n: nat)
    ensures DecimalValue(ToDecimal(n)) == n
    ensures forall i :: 0 <= i < |ToDecimal(n)| ==> IsDigit(ToDecimal(n)[i])
  {
    var s := ToDecimal(n);
    if n >= 10 {
      DecimalRoundTrip(n / 10);
      assert s[..|s| - 1] == ToDecimal(n / 10);
    } else {
      assert s[..|s| - 1] == "";
    }
  }

  lemma {:induction false} DigitRunIsAll(s: string)
    requires forall i :: 0 <= i < |s| ==> IsDigit(s[i])
    ensures DigitRun(s) == |s|
  {
    if s != "" {
      DigitRunIsAll(s[1..]);
    }
  }

  /** `stoi` undoes `to_string` on every `int` that is not negative. */
  lemma StoiOfDecimal(n: nat)
    requires n <= INT_MAX
    ensures Stoi(ToDecimal(n)) == Some(n)
  {
    var s := ToDecimal(n);
    DecimalRoundTrip(n);
    assert IsDigit(s[0]);
    DigitRunIsAll(s);
    assert s[0..] == s && s[..|s|] == s;
  }
}
