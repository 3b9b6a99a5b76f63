/** Peer names (`sanitizeToken` in control-plane/internal/routing/routing.go), and which profiles share
    one. The source walks a name rune by rune; a name is a byte string here, so its runes are decoded. */
module Names {
  import opened Text

  predicate PlainChar(c: char) {
    'a' <= c <= 'z' || 'A' <= c <= 'Z' || '0' <= c <= '9' || c == '_' || c == '-' || c == '.'
  }

  predicate Plain(s: string) { s != "" && forall i :: 0 <= i < |s| ==> PlainChar(s[i]) }

  function PlainOr(c: char): char { if PlainChar(c) then c else '_' }

  /** One plain character for each rune: itself, or `_`. A rune of several bytes starts with a byte that
      is not plain. */
  function Marked(s: string): (r: string)
    ensures |r| <= |s| && forall i :: 0 <= i < |r| ==> PlainChar(r[i])
    ensures s != "" ==> r != ""
    decreases |s|
  {
    if s == "" then "" else [PlainOr(s[0])] + Marked(s[RuneLen(s)..])
  }

  lemma {:induction false} PlainIsKept(s: string)
    requires forall i :: 0 <= i < |s| ==> PlainChar(s[i])
    ensures Marked(s) == s
    decreases |s|
  {
    if s != "" {
      assert RuneLen(s) == 1;
      PlainIsKept(s[1..]);
      assert s == [s[0]] + s[1..];
    }
  }

  /** Always one plain word, and a plain word already is kept. */
  function Sanitized(s: string): (r: string)
    ensures Plain(r)
    ensures Plain(s) ==> r == s
  {
    var r := if s == "" then "unnamed" else Marked(s);
    assert Plain(s) ==> r == s by { if Plain(s) { PlainIsKept(s); } }
    r
  }

  lemma MarkedStep(b: string, s: string)
    requires s != ""
    ensures b + Marked(s) == (b + [PlainOr(s[0])]) + Marked(s[RuneLen(s)..])
  {
  }

  method SanitizeToken(s: string) returns (b: string)
    ensures b == Sanitized(s)
  {
    b := "";
    var rest := s;
    while rest != ""
      invariant Marked(s) == b + Marked(rest)
      invariant b == "" ==> rest == s
      decreases |rest|
    {
      MarkedStep(b, rest);
      if PlainChar(rest[0]) { b := b + [rest[0]]; } else { b := b + ['_']; }
      rest := rest[RuneLen(rest)..];
    }
    assert Marked(rest) == "";
    if |b| == 0 { b := "unnamed"; }
  }

  // ---------------------------------------------------------------- rune by rune

  /** A Unicode scalar value and its UTF-8 bytes (section 3 of RFC 3629). */
  type Scalar = c: int | 0 <= c < 0xD800 || 0xE000 <= c < 0x11_0000

  function Utf8(c: Scalar): string {
    if c < 0x80 then [c as char]
    else if c < 0x800 then [(0xC0 + c / 64) as char, (0x80 + c % 64) as char]
    else if c < 0x1_0000 then [(0xE0 + c / 4096) as char, (0x80 + c / 64 % 64) as char, (0x80 + c % 64) as char]
    else
      [(0xF0 + c / 262144) as char, (0x80 + c / 4096 % 64) as char, (0x80 + c / 64 % 64) as char,
       (0x80 + c % 64) as char]
  }

  function Encoded(cs: seq<Scalar>): string { if cs == [] then "" else Utf8(cs[0]) + Encoded(cs[1..]) }

  function MarkOf(c: Scalar): char { if c < 0x80 then PlainOr(c as char) else '_' }

  lemma RuneLenOfUtf8(c: Scalar, rest: string)
    ensures RuneLen(Utf8(c) + rest) == |Utf8(c)| && PlainOr(Utf8(c)[0]) == MarkOf(c)
  {
    var u := Utf8(c);
    var s := u + rest;
    assert forall i :: 0 <= i < |u| ==> s[i] == u[i];
  }

  /** Each character of a name gives one mark: itself if it is plain, and else `_`, however many bytes it
      takes. */
  lemma {:induction false} OneMarkPerCharacter(cs: seq<Scalar>)
    ensures |Marked(Encoded(cs))| == |cs|
    ensures forall i :: 0 <= i < |cs| ==> Marked(Encoded(cs))[i] == MarkOf(cs[i])
  {
    if cs != [] {
      var u, rest := Utf8(cs[0]), Encoded(cs[1..]);
      RuneLenOfUtf8(cs[0], rest);
      assert (u + rest)[|u|..] == rest && (u + rest)[0] == u[0];
      OneMarkPerCharacter(cs[1..]);
    }
  }

  // ---------------------------------------------------------------- names that meet

  function Runes(s: string): (r: seq<string>)
    ensures forall i :: 0 <= i < |r| ==> r[i] != "" && (PlainChar(r[i][0]) ==> |r[i]| == 1)
    decreases |s|
  {
    if s == "" then [] else [s[..RuneLen(s)]] + Runes(s[RuneLen(s)..])
  }

  lemma {:induction false} MarkedByRune(s: string)
    ensures |Marked(s)| == |Runes(s)|
    ensures forall i :: 0 <= i < |Runes(s)| ==> Marked(s)[i] == PlainOr(Runes(s)[i][0])
    decreases |s|
  {
    if s != "" { MarkedByRune(s[RuneLen(s)..]); }
  }

  /** A rune that comes out as `_`. */
  predicate Blurred(rune: string) { rune == "_" || (rune != "" && !PlainChar(rune[0])) }

  /** The empty name stands for "unnamed". */
  function Shown(s: string): string { if s == "" then "unnamed" else s }

  /** Rune for rune, the two names agree or both have one that comes out as `_`. */
  predicate Alike(a: string, b: string) {
    var x, y := Runes(Shown(a)), Runes(Shown(b));
    |x| == |y| && forall i :: 0 <= i < |x| ==> x[i] == y[i] || (Blurred(x[i]) && Blurred(y[i]))
  }

  lemma SameMark(x: string, y: string)
    requires x != "" && y != "" && (PlainChar(x[0]) ==> |x| == 1) && (PlainChar(y[0]) ==> |y| == 1)
    ensures PlainOr(x[0]) == PlainOr(y[0]) <==> x == y || (Blurred(x) && Blurred(y))
  {
    if PlainChar(x[0]) { assert x == [x[0]]; }
    if PlainChar(y[0]) { assert y == [y[0]]; }
  }

  lemma SameMarks(m: string, n: string, x: seq<string>, y: seq<string>)
    requires |m| == |x| && |n| == |y|
    requires forall i :: 0 <= i < |x| ==> x[i] != "" && (PlainChar(x[i][0]) ==> |x[i]| == 1) && m[i] == PlainOr(x[i][0])
    requires forall i :: 0 <= i < |y| ==> y[i] != "" && (PlainChar(y[i][0]) ==> |y[i]| == 1) && n[i] == PlainOr(y[i][0])
    ensures m == n <==> |x| == |y| && forall i :: 0 <= i < |x| ==> x[i] == y[i] || (Blurred(x[i]) && Blurred(y[i]))
  {
    forall i | 0 <= i < |x| && i < |y|
      ensures m[i] == n[i] <==> x[i] == y[i] || (Blurred(x[i]) && Blurred(y[i]))
    {
      SameMark(x[i], y[i]);
    }
  }

  lemma SanitizedIsMarked(s: string)
    ensures Sanitized(s) == Marked(Shown(s))
  {
    if s == "" { PlainIsKept("unnamed"); }
  }

  /** Two profiles get one peer name exactly when their names are alike. */
  lemma PeerNamesCollideExactly(a: string, b: string)
    ensures Sanitized(a) == Sanitized(b) <==> Alike(a, b)
  {
    SanitizedIsMarked(a);
    SanitizedIsMarked(b);
    var c, d := Shown(a), Shown(b);
    MarkedByRune(c);
    MarkedByRune(d);
    SameMarks(Marked(c), Marked(d), Runes(c), Runes(d));
  }

  lemma MarkedCons(c: char, rest: string)
    requires c < '\U{80}'
    ensures Marked([c] + rest) == [PlainOr(c)] + Marked(rest)
  {
    assert ([c] + rest)[1..] == rest;
  }

  lemma Regroup<T>(a: seq<T>, b: seq<T>, c: seq<T>, d: seq<T>)
    ensures a + b + c + d == a + (b + c + d)
  {
  }

  lemma {:induction false} MarkedThenPlain(a: string, c: char, b: string)
    requires (a == "" || Plain(a)) && (b == "" || Plain(b)) && c < '\U{80}' && !PlainChar(c)
    ensures Marked(a + [c] + b) == a + ['_'] + b
    decreases |a|
  {
    if a == "" {
      assert a + [c] + b == [c] + b && a + ['_'] + b == ['_'] + b;
      MarkedCons(c, b);
      PlainIsKept(b);
    } else {
      assert a == [a[0]] + a[1..];
      Regroup([a[0]], a[1..], [c], b);
      Regroup([a[0]], a[1..], ['_'], b);
      MarkedCons(a[0], a[1..] + [c] + b);
      MarkedThenPlain(a[1..], c, b);
    }
  }

  lemma OneMark(a: string, c: char, b: string)
    requires Plain(a) && Plain(b) && c < '\U{80}' && !PlainChar(c)
    ensures Sanitized(a + [c] + b) == Sanitized(a + ['_'] + b)
  {
    MarkedThenPlain(a, c, b);
    assert Plain(a + ['_'] + b);
  }

  /** Three different profiles with one peer name. */
  lemma PeerNamesMayCollide() returns (a: string, b: string, c: string)
    ensures a == "eu west" && b == "eu/west" && c == "eu_west"
    ensures Sanitized(a) == Sanitized(b) == Sanitized(c)
  {
    var eu, west := "eu", "west";
    a, b, c := eu + [' '] + west, eu + ['/'] + west, eu + ['_'] + west;
    OneMark(eu, ' ', west);
    OneMark(eu, '/', west);
  }
}
