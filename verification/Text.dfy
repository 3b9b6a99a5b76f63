/** The string primitives the control plane leans on: Go's `strings.Split`, `strings.Fields`,
    `strings.TrimSpace`, `strings.TrimRight` and decimal numbers.

    A Go string is a byte string. Here it is a Dafny `string` in which each `char` stands for one
    byte, so a white-space rune beyond ASCII is the two or three chars of its UTF-8 encoding. */
module Text {

  datatype Option<+T> = None | Some(value: T)

  predicate IsDigit(c: char) { '0' <= c <= '9' }

  predicate AllDigits(s: string) { forall i :: 0 <= i < |s| ==> IsDigit(s[i]) }

  predicate Free(s: string, sep: char) { forall i :: 0 <= i < |s| ==> s[i] != sep }

  function Last<T>(s: seq<T>): T requires |s| > 0 { s[|s| - 1] }

  function Front<T>(s: seq<T>): seq<T> requires |s| > 0 { s[..|s| - 1] }

  // ---------------------------------------------------------------- white space

  /** The length of the white-space rune at the front of `s`, and 0 when there is none. The runes
      are those of Go's `unicode.IsSpace`: six ASCII bytes, U+0085, U+00A0, U+1680, U+2000..U+200A,
      U+2028, U+2029, U+202F, U+205F and U+3000. No continuation byte is a lead byte, so an encoding
      found at any offset is a rune of the whole string. */
  function SpaceLen(s: string): (n: nat)
    ensures n <= |s| && n <= 3
  {
    if |s| >= 1 && AsciiSpace(s[0]) then 1
    else if |s| >= 2 && NarrowSpace(s[0], s[1]) then 2
    else if |s| >= 3 && WideSpace(s[0], s[1], s[2]) then 3
    else 0
  }

  predicate AsciiSpace(c: char) {
    c == ' ' || ('\t' <= c <= '\r')
  }

  function SkipSpace(s: string): string { if s != "" && AsciiSpace(s[0]) then SkipSpace(s[1..]) else s }

  predicate NarrowSpace(a: char, b: char) { a == '\U{C2}' && (b == '\U{85}' || b == '\U{A0}') }

  predicate WideSpace(a: char, b: char, c: char) {
    || (a == '\U{E1}' && b == '\U{9A}' && c == '\U{80}')
    || (a == '\U{E2}' && b == '\U{80}' && ('\U{80}' <= c <= '\U{8A}' || '\U{A8}' <= c <= '\U{A9}' || c == '\U{AF}'))
    || (a == '\U{E2}' && b == '\U{81}' && c == '\U{9F}')
    || (a == '\U{E3}' && b == '\U{80}' && c == '\U{80}')
  }

  predicate Continuation(c: char) { '\U{80}' <= c <= '\U{BF}' }

  /** The length of the UTF-8 rune at the front of `s`, as Go's `range` steps over a string: an invalid
      byte is a rune of its own. */
  function RuneLen(s: string): (n: nat)
    requires s != ""
    ensures 1 <= n <= |s| && (s[0] < '\U{80}' ==> n == 1)
  {
    if |s| >= 2 && '\U{C2}' <= s[0] <= '\U{DF}' && Continuation(s[1]) then 2
    else if |s| >= 3 && '\U{E0}' <= s[0] <= '\U{EF}' && Continuation(s[1]) && Continuation(s[2])
      && (s[0] == '\U{E0}' ==> s[1] >= '\U{A0}') && (s[0] == '\U{ED}' ==> s[1] <= '\U{9F}') then 3
    else if |s| >= 4 && '\U{F0}' <= s[0] <= '\U{F4}' && Continuation(s[1]) && Continuation(s[2]) && Continuation(s[3])
      && (s[0] == '\U{F0}' ==> s[1] >= '\U{90}') && (s[0] == '\U{F4}' ==> s[1] <= '\U{8F}') then 4
    else 1
  }

  /** The length of the white-space rune at the end of `s`, and 0 when there is none. */
  function SpaceEnd(s: string): (n: nat)
    ensures n <= |s| && n <= 3
  {
    if |s| >= 1 && AsciiSpace(s[|s| - 1]) then 1
    else if |s| >= 2 && NarrowSpace(s[|s| - 2], s[|s| - 1]) then 2
    else if |s| >= 3 && WideSpace(s[|s| - 3], s[|s| - 2], s[|s| - 1]) then 3
    else 0
  }

  /** No white-space rune starts anywhere in `s`. */
  predicate NoSpace(s: string) { forall i :: 0 <= i < |s| ==> SpaceLen(s[i..]) == 0 }

  /** A non-empty word: what `Fields` yields. */
  predicate Token(s: string) { s != "" && NoSpace(s) }

  function TrimLeft(s: string): string
    decreases |s|
  {
    if SpaceLen(s) > 0 then TrimLeft(s[SpaceLen(s)..]) else s
  }

  function TrimEnd(s: string): string
    decreases |s|
  {
    if SpaceEnd(s) > 0 then TrimEnd(s[..|s| - SpaceEnd(s)]) else s
  }

  /** `strings.TrimSpace`. */
  function TrimSpace(s: string): string { TrimEnd(TrimLeft(s)) }

  predicate Trimmed(s: string) { SpaceLen(s) == 0 && SpaceEnd(s) == 0 }

  /** `strings.TrimRight` with a cutset given as a predicate. */
  function TrimRight(s: string, cut: char -> bool): string {
    if s != "" && cut(Last(s)) then TrimRight(Front(s), cut) else s
  }

  /** The length of the longest prefix of `s` in which no white-space rune starts. */
  function TokenLen(s: string): (n: nat)
    ensures n <= |s|
    ensures s != "" && SpaceLen(s) == 0 ==> n > 0
  {
    if s == "" || SpaceLen(s) > 0 then 0 else 1 + TokenLen(s[1..])
  }

  /** `strings.Fields`: the maximal runs without white space. */
  function Fields(s: string): seq<string>
    decreases |s|
  {
    if s == "" then []
    else if SpaceLen(s) > 0 then Fields(s[SpaceLen(s)..])
    else [s[..TokenLen(s)]] + Fields(s[TokenLen(s)..])
  }

  lemma NoSpaceSuffix(s: string, k: nat)
    requires NoSpace(s) && k <= |s|
    ensures NoSpace(s[k..])
  {
    forall i | 0 <= i < |s[k..]| ensures SpaceLen(s[k..][i..]) == 0 {
      assert s[k..][i..] == s[k + i..];
    }
  }

  lemma NoSpaceIsTrimmed(s: string)
    requires NoSpace(s)
    ensures Trimmed(s) && TrimSpace(s) == s
  {
    EndStartsSpace(s);
    if s != "" {
      assert SpaceLen(s[0..]) == 0 && s[0..] == s;
    }
  }

  lemma EndStartsSpace(s: string)
    ensures SpaceEnd(s) == 0 || exists i :: 0 <= i < |s| && SpaceLen(s[i..]) > 0
  {
    var start := |s| - SpaceEnd(s);
    var end := s[start..];
    assert forall i :: 0 <= i < |end| ==> end[i] == s[start + i];
    assert SpaceEnd(s) == 0 || SpaceLen(end) > 0;
  }

  lemma TrimmedIsFixed(s: string)
    requires Trimmed(s)
    ensures TrimSpace(s) == s
  {
  }

  /** White space at the front stays there whatever follows. */
  lemma SpaceStays(s: string, n: nat)
    requires n <= |s| && SpaceLen(s[..n]) > 0
    ensures SpaceLen(s) > 0
  {
    var t := s[..n];
    assert t[0] == s[0] && (|t| >= 2 ==> t[1] == s[1]) && (|t| >= 3 ==> t[2] == s[2]);
  }

  lemma {:induction false} TrimLeftStarts(s: string)
    ensures SpaceLen(TrimLeft(s)) == 0
    decreases |s|
  {
    if SpaceLen(s) > 0 { TrimLeftStarts(s[SpaceLen(s)..]); }
  }

  lemma {:induction false} TrimEndIsFront(s: string) returns (n: nat)
    ensures n <= |s| && TrimEnd(s) == s[..n] && SpaceEnd(TrimEnd(s)) == 0
    decreases |s|
  {
    if SpaceEnd(s) > 0 {
      n := TrimEndIsFront(s[..|s| - SpaceEnd(s)]);
      assert s[..|s| - SpaceEnd(s)][..n] == s[..n];
    } else {
      n := |s|;
      assert s[..n] == s;
    }
  }

  /** Trimming leaves no white space at either end, so trimming again changes nothing. */
  lemma TrimTwice(s: string)
    ensures Trimmed(TrimSpace(s)) && TrimSpace(TrimSpace(s)) == TrimSpace(s)
  {
    var t := TrimLeft(s);
    TrimLeftStarts(s);
    var n := TrimEndIsFront(t);
    if SpaceLen(t[..n]) > 0 { SpaceStays(t, n); }
    TrimmedIsFixed(TrimSpace(s));
  }

  /** A blank after a word ends it: no white-space rune reaches from the word into the blank. */
  lemma {:induction false} TokenLenBefore(t: string, rest: string)
    requires NoSpace(t)
    ensures TokenLen(t + " " + rest) == |t|
  {
    var s := t + " " + rest;
    if t == "" {
      assert s[0] == ' ';
    } else {
      assert SpaceLen(t[0..]) == 0 && t[0..] == t;
      assert SpaceLen(s) == 0;
      assert s[1..] == t[1..] + " " + rest;
      NoSpaceSuffix(t, 1);
      TokenLenBefore(t[1..], rest);
    }
  }

  lemma {:induction false} TokenLenWhole(t: string)
    requires NoSpace(t)
    ensures TokenLen(t) == |t|
  {
    if t != "" {
      assert SpaceLen(t[0..]) == 0 && t[0..] == t;
      NoSpaceSuffix(t, 1);
      TokenLenWhole(t[1..]);
    }
  }

  /** Splitting words joined by single blanks gives the words back. */
  lemma {:induction false} FieldsOfJoin(words: seq<string>)
    requires forall w :: w in words ==> Token(w)
    ensures Fields(Join(words, ' ')) == words
  {
    if |words| == 1 {
      FieldsOfToken(words[0]);
    } else if |words| > 1 {
      var t, rest := words[0], Join(words[1..], ' ');
      var s := t + " " + rest;
      assert Join(words, ' ') == s && Token(words[0]);
      TokenLenBefore(t, rest);
      assert SpaceLen(s) == 0 by { assert SpaceLen(t[0..]) == 0 && t[0..] == t; }
      assert s[..|t|] == t;
      assert s[|t|..] == " " + rest && (" " + rest)[1..] == rest;
      FieldsOfJoin(words[1..]);
    }
  }

  lemma FieldsOfToken(t: string)
    requires Token(t)
    ensures Fields(t) == [t]
  {
    TokenLenWhole(t);
    assert SpaceLen(t[0..]) == 0 && t[0..] == t;
    assert t[|t|..] == "" && t[..|t|] == t && Fields("") == [];
  }

  lemma FreeConcat(a: string, b: string, sep: char)
    requires Free(a, sep) && Free(b, sep)
    ensures Free(a + b, sep)
  {
  }

  lemma AsciiNoSpace(s: string)
    requires forall i :: 0 <= i < |s| ==> ' ' < s[i] < '\U{7F}'
    ensures NoSpace(s)
  {
    forall i | 0 <= i < |s| ensures SpaceLen(s[i..]) == 0 {
      assert s[i..][0] == s[i];
    }
  }

  // ---------------------------------------------------------------- splitting

  function Join(parts: seq<string>, sep: char): string {
    if |parts| == 0 then ""
    else if |parts| == 1 then parts[0]
    else parts[0] + [sep] + Join(parts[1..], sep)
  }

  lemma JoinTwo(a: string, b: string, sep: char)
    ensures Join([a, b], sep) == a + [sep] + b
  {
    assert [a, b][1..] == [b];
  }

  lemma JoinThree(a: string, b: string, c: string, sep: char)
    ensures Join([a, b, c], sep) == a + [sep] + b + [sep] + c
  {
    assert [a, b, c][1..] == [b, c];
    JoinTwo(b, c, sep);
  }

  lemma {:induction false} JoinSnoc(parts: seq<string>, p: string, sep: char)
    requires |parts| > 0
    ensures Join(parts + [p], sep) == Join(parts, sep) + [sep] + p
  {
    if |parts| == 1 {
      assert parts + [p] == [parts[0], p];
      JoinTwo(parts[0], p, sep);
    } else {
      assert (parts + [p])[1..] == parts[1..] + [p];
      JoinSnoc(parts[1..], p, sep);
    }
  }

  /** The index of the first `sep`, or the length when there is none. */
  function IndexOf(s: string, sep: char): (n: nat)
    ensures n <= |s| && Free(s[..n], sep)
    ensures n < |s| ==> s[n] == sep
  {
    if s == "" || s[0] == sep then 0
    else
      var n := 1 + IndexOf(s[1..], sep);
      assert forall i :: 0 < i < n ==> s[i] == s[1..][i - 1];
      n
  }

  /** `strings.Split` on a one-byte separator: always at least one part. */
  function Split(s: string, sep: char): (parts: seq<string>)
    ensures |parts| > 0
    decreases |s|
  {
    var n := IndexOf(s, sep);
    if n == |s| then [s] else [s[..n]] + Split(s[n + 1..], sep)
  }

  lemma IndexOfAfter(p: string, sep: char, rest: string)
    requires Free(p, sep)
    ensures IndexOf(p + [sep] + rest, sep) == |p|
  {
    var s := p + [sep] + rest;
    var n := IndexOf(s, sep);
    assert s[|p|] == sep && forall i :: 0 <= i < |p| ==> s[i] == p[i];
    assert forall i :: 0 <= i < n ==> s[..n][i] == s[i];
  }

  lemma SplitFirst(p: string, sep: char, rest: string)
    requires Free(p, sep)
    ensures Split(p + [sep] + rest, sep) == [p] + Split(rest, sep)
  {
    var s := p + [sep] + rest;
    IndexOfAfter(p, sep, rest);
    assert s[..|p|] == p && s[|p| + 1..] == rest;
  }

  lemma {:induction false} SplitOfJoin(parts: seq<string>, sep: char)
    requires |parts| > 0
    requires forall p :: p in parts ==> Free(p, sep)
    ensures Split(Join(parts, sep), sep) == parts
  {
    var p := parts[0];
    if |parts| == 1 {
      assert Free(p, sep) && Join(parts, sep) == p;
    } else {
      SplitFirst(p, sep, Join(parts[1..], sep));
      SplitOfJoin(parts[1..], sep);
    }
  }

  predicate AllFree(parts: seq<string>, sep: char) { forall i :: 0 <= i < |parts| ==> Free(parts[i], sep) }

  lemma AllFreeCons(p: string, parts: seq<string>, sep: char)
    requires Free(p, sep) && AllFree(parts, sep)
    ensures AllFree([p] + parts, sep)
  {
    forall i | 0 <= i < |[p] + parts| ensures Free(([p] + parts)[i], sep) {
      assert ([p] + parts)[i] == if i == 0 then p else parts[i - 1];
    }
  }

  lemma {:induction false} SplitPartsAreFree(s: string, sep: char)
    ensures AllFree(Split(s, sep), sep)
    decreases |s|
  {
    var n := IndexOf(s, sep);
    if n == |s| {
      assert s[..n] == s;
      AllFreeCons(s, [], sep);
      assert [s] + [] == [s];
    } else {
      SplitPartsAreFree(s[n + 1..], sep);
      AllFreeCons(s[..n], Split(s[n + 1..], sep), sep);
    }
  }

  lemma Regroup<T>(a: seq<T>, b: seq<T>, c: seq<T>, d: seq<T>, e: seq<T>)
    ensures a + b + c + d + e == a + b + (c + d + e)
  {
  }

  /** Cutting at a separator: the parts of a joined string are the parts of its halves. */
  lemma {:induction false} SplitOfConcat(a: string, sep: char, b: string)
    ensures Split(a + [sep] + b, sep) == Split(a, sep) + Split(b, sep)
    decreases |a|
  {
    var n := IndexOf(a, sep);
    if n == |a| {
      assert a[..n] == a;
      SplitFirst(a, sep, b);
    } else {
      var first, tail := a[..n], a[n + 1..];
      assert a == first + [sep] + tail;
      calc {
        Split(a + [sep] + b, sep);
        { Regroup(first, [sep], tail, [sep], b); }
        Split(first + [sep] + (tail + [sep] + b), sep);
        { SplitFirst(first, sep, tail + [sep] + b); }
        [first] + Split(tail + [sep] + b, sep);
        { SplitOfConcat(tail, sep, b); }
        [first] + (Split(tail, sep) + Split(b, sep));
        { SplitFirst(first, sep, tail); }
        Split(a, sep) + Split(b, sep);
      }
    }
  }

  // ---------------------------------------------------------------- hexadecimal digits

  predicate IsHex(c: char) { '0' <= c <= '9' || 'a' <= c <= 'f' || 'A' <= c <= 'F' }

  function HexValue(c: char): (v: nat)
    requires IsHex(c)
    ensures v < 16
  {
    if c <= '9' then (c - '0') as nat else if c <= 'F' then (c - 'A') as nat + 10 else (c - 'a') as nat + 10
  }

  function Octet(hi: char, lo: char): char
    requires IsHex(hi) && IsHex(lo)
  {
    (16 * HexValue(hi) + HexValue(lo)) as char
  }

  // ---------------------------------------------------------------- decimal numbers

  function DigitChar(d: nat): char requires d < 10 { '0' + d as char }

  function DigitValue(c: char): nat requires IsDigit(c) { (c - '0') as nat }

  /** A number as printed by `%d`. */
  function Decimal(n: nat): (s: string)
    ensures s != "" && AllDigits(s)
  {
    if n < 10 then [DigitChar(n)] else Decimal(n / 10) + [DigitChar(n % 10)]
  }

  function DigitsValue(s: string): nat
    requires AllDigits(s)
  {
    if s == "" then 0 else 10 * DigitsValue(Front(s)) + DigitValue(Last(s))
  }

  /** `strconv.ParseUint(s, 10, bits)` for numbers below `bound`. */
  function ParseNat(s: string, bound: nat): (r: Option<nat>)
    ensures r.Some? ==> r.value < bound
  {
    if s != "" && AllDigits(s) && DigitsValue(s) < bound then Some(DigitsValue(s)) else None
  }

  /** `strconv.ParseInt(s, 10, 64)`. */
  function ParseInt64(s: string): Option<int> {
    if s != "" && (s[0] == '-' || s[0] == '+') then
      var m := ParseNat(s[1..], if s[0] == '-' then 0x8000_0000_0000_0001 else 0x8000_0000_0000_0000);
      if m.None? then None else Option<int>.Some(if s[0] == '-' then -(m.value as int) else m.value as int)
    else
      var m := ParseNat(s, 0x8000_0000_0000_0000);
      if m.None? then None else Some(m.value)
  }

  lemma {:induction false} DecimalValue(n: nat)
    ensures DigitsValue(Decimal(n)) == n
  {
    if n >= 10 {
      DecimalValue(n / 10);
      assert Front(Decimal(n)) == Decimal(n / 10);
    }
  }

  lemma ParseOfDecimal(n: nat, bound: nat)
    requires n < bound
    ensures ParseNat(Decimal(n), bound) == Some(n)
  {
    DecimalValue(n);
  }

  lemma DigitsAreToken(s: string)
    requires s != "" && AllDigits(s)
    ensures Token(s) && Trimmed(s) && TrimSpace(s) == s
    ensures Free(s, '\n') && Free(s, '\t') && Free(s, '\r')
  {
    AsciiNoSpace(s);
    NoSpaceIsTrimmed(s);
  }
}
