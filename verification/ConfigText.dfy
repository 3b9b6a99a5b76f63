/** The text of a Squid configuration: physical lines, the directive lines they make, and their words.

    Assumed of Squid 6: a line ends at its newline or at a carriage return before it, and its leading white
    space does not count. Lines that then are empty or start with `#` are skipped. A line that ends in a
    backslash goes on in the next that is not skipped; if there is none, it is dropped. White space at the
    end of the whole does not count. Blanks, tabs and line ends separate words, and a word that starts with
    `#` ends the line. Lines fit Squid's line buffer and use neither macros nor quoted values. */
module ConfigText {
  import opened Text

  predicate Separator(c: char) { c == ' ' || c == '\t' || c == '\r' || c == '\n' }

  // ---------------------------------------------------------------- lines

  /** What a physical line adds to its directive; empty if the line is skipped. */
  function Content(line: string): string {
    var t := SkipSpace(line[..IndexOf(line, '\r')]);
    if t != "" && t[0] == '#' then "" else t
  }

  /** The directive lines, after `open` was left to go on. */
  function Logical(lines: seq<string>, open: string): seq<string> {
    if lines == [] then []
    else
      var part := Content(lines[0]);
      if part == "" then Logical(lines[1..], open)
      else if Last(part) == '\\' then Logical(lines[1..], open + Front(part))
      else [open + part] + Logical(lines[1..], "")
  }

  /** What is left to go on after these lines. */
  function Open(lines: seq<string>, open: string): string {
    if lines == [] then open
    else
      var part := Content(lines[0]);
      if part == "" then Open(lines[1..], open)
      else if Last(part) == '\\' then Open(lines[1..], open + Front(part))
      else Open(lines[1..], "")
  }

  /** The line does not go on in the next one. */
  predicate Ends(line: string) { Content(line) == "" || Last(Content(line)) != '\\' }

  predicate AllEnd(lines: seq<string>) { forall i :: 0 <= i < |lines| ==> Ends(lines[i]) }

  lemma {:induction false} LogicalConcat(a: seq<string>, b: seq<string>, open: string)
    ensures Logical(a + b, open) == Logical(a, open) + Logical(b, Open(a, open))
  {
    if a == [] {
      assert a + b == b;
    } else {
      assert (a + b)[1..] == a[1..] + b;
      var part := Content(a[0]);
      if part == "" { LogicalConcat(a[1..], b, open); }
      else if Last(part) == '\\' { LogicalConcat(a[1..], b, open + Front(part)); }
      else { LogicalConcat(a[1..], b, ""); }
    }
  }

  lemma {:induction false} AllEndLeavesNothing(lines: seq<string>)
    requires AllEnd(lines)
    ensures Open(lines, "") == ""
  {
    if lines != [] {
      assert Ends(lines[0]) && AllEnd(lines[1..]);
      AllEndLeavesNothing(lines[1..]);
    }
  }

  /** The lines that end a directive. */
  function Endings(lines: seq<string>): nat {
    if lines == [] then 0
    else Endings(lines[1..]) + if Content(lines[0]) != "" && Ends(lines[0]) then 1 else 0
  }

  /** There are as many directive lines as lines that end one. */
  lemma {:induction false} LogicalCounts(lines: seq<string>, open: string)
    ensures |Logical(lines, open)| == Endings(lines)
  {
    if lines != [] {
      var part := Content(lines[0]);
      if part == "" { LogicalCounts(lines[1..], open); }
      else if Last(part) == '\\' { LogicalCounts(lines[1..], open + Front(part)); }
      else { LogicalCounts(lines[1..], ""); }
    }
  }

  lemma {:induction false} EndingsConcat(a: seq<string>, b: seq<string>)
    ensures Endings(a + b) == Endings(a) + Endings(b)
  {
    if a == [] {
      assert a + b == b;
    } else {
      assert (a + b)[1..] == a[1..] + b;
      EndingsConcat(a[1..], b);
    }
  }

  lemma OneLogical(line: string)
    ensures Logical([line], "") == if Content(line) != "" && Ends(line) then [Content(line)] else []
  {
    assert [line][1..] == [];
    assert "" + Content(line) == Content(line);
  }

  lemma ContentIs(line: string)
    requires line != "" && !AsciiSpace(line[0]) && line[0] != '#' && Free(line, '\r')
    ensures Content(line) == line
  {
    FreeIndex(line, '\r');
  }

  /** A line that ends in a backslash and the next one are one directive line. */
  lemma ContinuedIsOne(a: string, b: string)
    requires a != "" && !AsciiSpace(a[0]) && a[0] != '#' && Free(a, '\r')
    requires Content(b) == b != "" && Last(b) != '\\'
    ensures Logical([a + ['\\'], b], "") == [a + b]
  {
    var first := a + ['\\'];
    ContentIs(first);
    assert Last(first) == '\\' && Front(first) == a && "" + a == a;
    assert [first, b][1..] == [b] && [b][1..] == [];
    assert Logical([b], a) == [a + b] + Logical([], "");
  }

  // ---------------------------------------------------------------- words

  function WordLen(s: string): (n: nat)
    ensures n <= |s| && forall i :: 0 <= i < n ==> !Separator(s[i])
    ensures n < |s| ==> Separator(s[n])
  {
    if s == "" || Separator(s[0]) then 0
    else
      var n := 1 + WordLen(s[1..]);
      assert forall i :: 1 <= i < n ==> s[i] == s[1..][i - 1];
      n
  }

  function Words(s: string): seq<string>
    decreases |s|
  {
    if s == "" then []
    else if Separator(s[0]) then Words(s[1..])
    else [s[..WordLen(s)]] + Words(s[WordLen(s)..])
  }

  /** The words before a comment. */
  function Uncommented(words: seq<string>): seq<string> {
    if words == [] || (words[0] != "" && words[0][0] == '#') then [] else [words[0]] + Uncommented(words[1..])
  }

  /** The words of a directive line. */
  function LineWords(line: string): seq<string> { Uncommented(Words(TrimRight(line, AsciiSpace))) }

  predicate Unbroken(w: string) { forall i :: 0 <= i < |w| ==> !Separator(w[i]) }

  /** What can be a word of a directive. */
  predicate ConfigWord(w: string) { w != "" && w[0] != '#' && Unbroken(w) }

  /** A word that can stand at the end of a line: neither a backslash nor white space gets lost there. */
  predicate EndWord(w: string) { ConfigWord(w) && Last(w) != '\\' && !AsciiSpace(Last(w)) }

  lemma {:induction false} WordsAreUnbroken(s: string)
    ensures forall i :: 0 <= i < |Words(s)| ==> Words(s)[i] != "" && Unbroken(Words(s)[i])
    decreases |s|
  {
    if s != "" {
      if Separator(s[0]) { WordsAreUnbroken(s[1..]); } else { WordsAreUnbroken(s[WordLen(s)..]); }
    }
  }

  lemma {:induction false} UncommentedAreWords(words: seq<string>)
    requires forall i :: 0 <= i < |words| ==> words[i] != "" && Unbroken(words[i])
    ensures forall i :: 0 <= i < |Uncommented(words)| ==> ConfigWord(Uncommented(words)[i])
  {
    if words != [] && words[0][0] != '#' { UncommentedAreWords(words[1..]); }
  }

  /** Every word that is read is a word of a directive. */
  lemma LineWordsAreWords(line: string)
    ensures forall i :: 0 <= i < |LineWords(line)| ==> ConfigWord(LineWords(line)[i])
  {
    WordsAreUnbroken(TrimRight(line, AsciiSpace));
    UncommentedAreWords(Words(TrimRight(line, AsciiSpace)));
  }

  lemma WordLenIs(w: string, rest: string)
    requires Unbroken(w) && (rest == "" || Separator(rest[0]))
    ensures WordLen(w + rest) == |w|
  {
    var s := w + rest;
    var n := WordLen(s);
    assert forall i :: 0 <= i < |w| ==> !Separator(s[i]) by {
      forall i | 0 <= i < |w| ensures !Separator(s[i]) { assert s[i] == w[i]; }
    }
    assert rest != "" ==> s[|w|] == rest[0];
    assert rest == "" ==> s == w;
  }

  lemma {:induction false} WordsOfJoin(words: seq<string>)
    requires forall i :: 0 <= i < |words| ==> words[i] != "" && Unbroken(words[i])
    ensures Words(Join(words, ' ')) == words
  {
    if |words| == 1 {
      var w := words[0];
      assert w + "" == w;
      WordLenIs(w, "");
      assert w[|w|..] == "" && w[..|w|] == w && Words("") == [];
    } else if |words| > 1 {
      var w, rest := words[0], Join(words[1..], ' ');
      var s := w + ([' '] + rest);
      assert w + [' '] + rest == s;
      WordLenIs(w, [' '] + rest);
      assert s[..|w|] == w && s[|w|..] == [' '] + rest && ([' '] + rest)[1..] == rest;
      WordsOfJoin(words[1..]);
    }
  }

  lemma {:induction false} UncommentedKeeps(words: seq<string>)
    requires forall i :: 0 <= i < |words| ==> ConfigWord(words[i])
    ensures Uncommented(words) == words
  {
    if words != [] {
      UncommentedKeeps(words[1..]);
      assert words == [words[0]] + words[1..];
    }
  }

  lemma {:induction false} JoinEnds(words: seq<string>)
    requires words != [] && forall i :: 0 <= i < |words| ==> words[i] != "" && Unbroken(words[i])
    ensures var line := Join(words, ' ');
            && line != "" && line[0] == words[0][0] && Last(line) == Last(Last(words))
            && Free(line, '\n') && Free(line, '\r')
  {
    if |words| > 1 {
      JoinEnds(words[1..]);
      assert Last(words[1..]) == Last(words);
      var line, rest := Join(words, ' '), Join(words[1..], ' ');
      assert line == words[0] + [' '] + rest;
      FreeConcat(words[0], [' '], '\n');
      FreeConcat(words[0] + [' '], rest, '\n');
      FreeConcat(words[0], [' '], '\r');
      FreeConcat(words[0] + [' '], rest, '\r');
    }
  }

  lemma FreeIndex(s: string, sep: char)
    requires Free(s, sep)
    ensures IndexOf(s, sep) == |s| && s[..IndexOf(s, sep)] == s
  {
  }

  /** A line of words that starts like one. */
  predicate Lineable(words: seq<string>) {
    words != [] && (forall i :: 0 <= i < |words| ==> ConfigWord(words[i])) && !AsciiSpace(words[0][0])
  }

  lemma ContentOfWords(words: seq<string>)
    requires Lineable(words)
    ensures var line := Join(words, ' ');
            line != "" && Content(line) == line && Free(line, '\n') && (Ends(line) <==> Last(Last(words)) != '\\')
  {
    JoinEnds(words);
    var line := Join(words, ' ');
    FreeIndex(line, '\r');
    assert ConfigWord(words[0]);
  }

  /** A line of words reads back as those words exactly when none of it gets lost at its end. */
  lemma LineWordsExactly(words: seq<string>)
    requires Lineable(words)
    ensures LineWords(Join(words, ' ')) == words <==> !AsciiSpace(Last(Last(words)))
  {
    var line := Join(words, ' ');
    JoinEnds(words);
    WordsOfJoin(words);
    UncommentedKeeps(words);
    if AsciiSpace(Last(line)) {
      var cut := TrimRight(line, AsciiSpace);
      TrimRightShortens(line);
      WordsFit(cut);
      UncommentedFits(Words(cut));
    }
  }

  lemma {:induction false} TrimRightShrinks(s: string)
    ensures |TrimRight(s, AsciiSpace)| <= |s|
  {
    if s != "" && AsciiSpace(Last(s)) { TrimRightShrinks(Front(s)); }
  }

  lemma TrimRightShortens(s: string)
    requires s != "" && AsciiSpace(Last(s))
    ensures |TrimRight(s, AsciiSpace)| < |s|
  {
    TrimRightShrinks(Front(s));
  }

  /** Words joined by single blanks are no longer than the text they come from. */
  lemma {:induction false} WordsFit(s: string)
    ensures |Join(Words(s), ' ')| <= |s|
    decreases |s|
  {
    if s != "" {
      if Separator(s[0]) {
        WordsFit(s[1..]);
      } else {
        var n := WordLen(s);
        if n == |s| {
          assert s[n..] == "" && Words("") == [] && Words(s) == [s[..n]];
        } else {
          assert Words(s[n..]) == Words(s[n..][1..]) && s[n..][1..] == s[n + 1..];
          WordsFit(s[n + 1..]);
          assert Words(s)[1..] == Words(s[n + 1..]);
        }
      }
    }
  }

  lemma {:induction false} UncommentedFits(words: seq<string>)
    ensures |Join(Uncommented(words), ' ')| <= |Join(words, ' ')|
  {
    if words != [] && !(words[0] != "" && words[0][0] == '#') {
      UncommentedFits(words[1..]);
      assert Uncommented(words)[1..] == Uncommented(words[1..]);
    }
  }
}
