/** How Squid reads a helper's reply.

    Assumed of Squid 6, with no `protocol=` on the `external_acl_type` line: in concurrency framing a reply
    starts with its channel and white space; then comes the result, ended by a blank or the line; then
    `key=value` pairs. A value goes to the next ASCII white space or NUL. A double quote is dropped and
    switches white space on and off as the end of the value; a backslash takes the next character literally,
    `n` and `r` as line ends. A value that does not start with a quote and took more than two characters is
    then URL-unescaped: `%%` is `%`, and `%` with two hex digits that are not 00 is that byte. The helper
    writes at most one pair, so only the first is read. */
module Replies {
  import opened Text
  import opened Decide

  const NUL := '\U{0}'

  // ---------------------------------------------------------------- values

  /** A character that does not stand for itself in a value. */
  predicate Special(c: char) { AsciiSpace(c) || c == '"' || c == '\\' || c == NUL }

  /** The text of a value, and how many characters it took, the one that ended it included. */
  datatype Value = Value(text: string, taken: nat)

  function Escaped(c: char): char { if c == 'n' then '\n' else if c == 'r' then '\r' else c }

  function TakeValue(s: string, quoted: bool): (v: Value)
    ensures |v.text| <= v.taken <= |s|
  {
    if s == "" || s[0] == NUL then Value("", 0)
    else if s[0] == '\\' then
      if |s| == 1 || s[1] == NUL then Value("", 1)
      else
        var rest := TakeValue(s[2..], quoted);
        Value([Escaped(s[1])] + rest.text, rest.taken + 2)
    else if s[0] == '"' then
      var rest := TakeValue(s[1..], !quoted);
      Value(rest.text, rest.taken + 1)
    else if AsciiSpace(s[0]) && !quoted then Value("", 1)
    else
      var rest := TakeValue(s[1..], quoted);
      Value([s[0]] + rest.text, rest.taken + 1)
  }

  predicate NoSpecial(s: string) { forall i :: 0 <= i < |s| ==> !Special(s[i]) }

  /** A value is taken whole exactly when it holds no special character; any other gets shorter. */
  lemma {:induction false} TakenWholeExactly(s: string)
    ensures |TakeValue(s, false).text| == |s| <==> NoSpecial(s)
    ensures NoSpecial(s) ==> TakeValue(s, false) == Value(s, |s|)
  {
    if s != "" && !Special(s[0]) {
      TakenWholeExactly(s[1..]);
      assert s == [s[0]] + s[1..];
      assert forall i :: 1 <= i < |s| ==> s[i] == s[1..][i - 1];
    }
  }

  // ---------------------------------------------------------------- URL escapes

  /** An escape starts at the front of `s`, of this length. */
  function EscapeLen(s: string): (n: nat)
    ensures n <= |s| && n != 1
  {
    if |s| >= 2 && s[0] == '%' && s[1] == '%' then 2
    else if |s| >= 3 && s[0] == '%' && IsHex(s[1]) && IsHex(s[2]) && Octet(s[1], s[2]) != NUL then 3
    else 0
  }

  function Decoded(s: string): (r: string)
    ensures |r| <= |s|
    decreases |s|
  {
    if s == "" then ""
    else if EscapeLen(s) == 2 then ['%'] + Decoded(s[2..])
    else if EscapeLen(s) == 3 then [Octet(s[1], s[2])] + Decoded(s[3..])
    else [s[0]] + Decoded(s[1..])
  }

  predicate NoEscape(s: string) { forall i :: 0 <= i < |s| ==> EscapeLen(s[i..]) == 0 }

  /** A string decodes to itself exactly when no escape starts in it; any other gets shorter. */
  lemma {:induction false} DecodedWholeExactly(s: string)
    ensures |Decoded(s)| == |s| <==> NoEscape(s)
    ensures NoEscape(s) ==> Decoded(s) == s
  {
    if s != "" {
      assert s[0..] == s;
      if EscapeLen(s) == 0 {
        DecodedWholeExactly(s[1..]);
        assert forall i :: 0 <= i < |s| - 1 ==> s[1..][i..] == s[i + 1..];
        assert NoEscape(s) ==> NoEscape(s[1..]);
        if NoEscape(s[1..]) {
          forall i | 0 <= i < |s| ensures EscapeLen(s[i..]) == 0 {
            if i > 0 { assert s[i..] == s[1..][i - 1..]; }
          }
        }
        assert s == [s[0]] + s[1..];
      } else {
        assert EscapeLen(s[0..]) != 0;
      }
    }
  }

  // ---------------------------------------------------------------- tags

  /** What Squid makes of `tag=` and these characters. */
  function ReadTag(tag: string): string {
    var v := TakeValue(tag, false);
    if tag != "" && tag[0] != '"' && v.taken > 2 then Decoded(v.text) else v.text
  }

  /** The tag stands for itself: no white space, quote, backslash or NUL, and no URL escape. Escapes do not
      count in a tag of two characters. */
  predicate PlainTag(tag: string) { NoSpecial(tag) && (|tag| > 2 ==> NoEscape(tag)) }

  lemma TagReadsBackExactly(tag: string)
    ensures ReadTag(tag) == tag <==> PlainTag(tag)
  {
    TakenWholeExactly(tag);
    DecodedWholeExactly(tag);
    if tag != "" && NoSpecial(tag) { assert !Special(tag[0]); }
  }

  // ---------------------------------------------------------------- replies

  function DigitsLen(s: string): (n: nat)
    ensures n <= |s| && AllDigits(s[..n])
  {
    if s == "" || !IsDigit(s[0]) then 0
    else
      var n := 1 + DigitsLen(s[1..]);
      assert forall i :: 1 <= i < n ==> s[i] == s[1..][i - 1];
      n
  }

  function ReadResult(s: string): Verdict {
    if "OK" <= s && (|s| == 2 || s[2] == ' ') then
      var pairs := SkipSpace(s[2..]);
      if "tag=" <= pairs then Allow(ReadTag(pairs[4..])) else Allow("")
    else Refuse
  }

  function ReadReply(body: string): (string, Verdict) {
    var n := DigitsLen(body);
    if 0 < n < |body| && AsciiSpace(body[n]) then (body[..n], ReadResult(SkipSpace(body[n..])))
    else ("", ReadResult(body))
  }

  lemma {:induction false} DigitsLenIs(digits: string, rest: string)
    requires AllDigits(digits) && (rest == "" || !IsDigit(rest[0]))
    ensures DigitsLen(digits + rest) == |digits|
  {
    if digits == "" {
      assert digits + rest == rest;
    } else {
      assert (digits + rest)[1..] == digits[1..] + rest;
      DigitsLenIs(digits[1..], rest);
    }
  }

  lemma FramedReads(channel: string, result: string)
    requires channel != "" && AllDigits(channel) && result != "" && !AsciiSpace(result[0])
    ensures ReadReply(channel + " " + result) == (channel, ReadResult(result))
  {
    var body := channel + " " + result;
    assert body == channel + (" " + result);
    DigitsLenIs(channel, " " + result);
    assert body[|channel|..] == " " + result && (" " + result)[1..] == result;
    assert SkipSpace(" " + result) == SkipSpace(result) == result;
  }

  lemma SerialReads(result: string)
    requires result == "" || !IsDigit(result[0])
    ensures ReadReply(result) == ("", ReadResult(result))
  {
  }

  lemma OkTagReads(tag: string)
    ensures ReadResult("OK tag=" + tag) == Allow(ReadTag(tag))
  {
    var s := "OK tag=" + tag;
    var pairs := "tag=" + tag;
    assert s[2..] == " " + pairs && (" " + pairs)[1..] == pairs;
    assert SkipSpace(" " + pairs) == SkipSpace(pairs) == pairs;
    assert pairs[4..] == tag;
  }

  lemma PlainResultsRead()
    ensures ReadResult("OK") == Allow("") && ReadResult("ERR") == Refuse
  {
    assert "OK"[2..] == "" && SkipSpace("") == "";
    assert "ERR"[0] != 'O';
  }
}
