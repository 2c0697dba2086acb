/**
 * The parts of Rust's `str` and `BufRead` behaviour that the XBM codec relies on,
 * over strings modelled as sequences of chars.
 */
module Text {
  import opened Wrappers

  /** Unicode White_Space: the class `char::is_whitespace` tests, and so what
      `str::split_whitespace` splits on and `str::trim` removes. */
  predicate IsWhitespace(c: char) {
    || ('\t' <= c <= '\r')
    || c == ' '
    || c == '\U{0085}' || c == '\U{00A0}' || c == '\U{1680}'
    || ('\U{2000}' <= c <= '\U{200A}')
    || c == '\U{2028}' || c == '\U{2029}' || c == '\U{202F}' || c == '\U{205F}' || c == '\U{3000}'
  }

  predicate NoWhitespace(s: string) {
    forall i :: 0 <= i < |s| ==> !IsWhitespace(s[i])
  }

  predicate AllWhitespace(s: string) {
    forall i :: 0 <= i < |s| ==> IsWhitespace(s[i])
  }

  /** `str::is_ascii` */
  predicate IsAscii(s: string) {
    forall i :: 0 <= i < |s| ==> s[i] < '\U{0080}'
  }

  /** `str::starts_with` and `str::ends_with` with a string pattern. */
  predicate StartsWith(s: string, prefix: string) {
    |prefix| <= |s| && s[..|prefix|] == prefix
  }

  predicate EndsWith(s: string, suffix: string) {
    |suffix| <= |s| && s[|s| - |suffix|..] == suffix
  }

  /** Regrouping a concatenation. */
  lemma AppendAssoc<T>(a: seq<T>, b: seq<T>, c: seq<T>)
    ensures a + b + c == a + (b + c)
  {
  }

  /** `str::trim_start`: what it drops is whitespace, and what it keeps does not start with any. */
  function TrimStart(s: string): (r: string)
    ensures |r| <= |s| && r == s[|s| - |r|..]
    ensures AllWhitespace(s[..|s| - |r|])
    ensures r == [] || !IsWhitespace(r[0])
  {
    if s != [] && IsWhitespace(s[0]) then TrimStart(s[1..]) else s
  }

  /** `str::trim_end` */
  function TrimEnd(s: string): (r: string)
    ensures |r| <= |s| && r == s[..|r|]
    ensures AllWhitespace(s[|r|..])
    ensures r == [] || !IsWhitespace(r[|r| - 1])
  {
    if s != [] && IsWhitespace(s[|s| - 1]) then TrimEnd(s[..|s| - 1]) else s
  }

  /** `str::trim`: what is left neither starts nor ends with whitespace, and it is empty only
      when the whole of `s` is whitespace. */
  function Trim(s: string): (r: string)
    ensures |r| <= |s|
    ensures r == [] || (!IsWhitespace(r[0]) && !IsWhitespace(r[|r| - 1]))
    ensures r == [] <==> AllWhitespace(s)
  {
    var t := TrimStart(s);
    var r := TrimEnd(t);
    assert r != [] ==> r[0] == t[0] == s[|s| - |t|];
    assert r == [] ==> AllWhitespace(s) by {
      if r == [] {
        assert t == [] by { assert t[0..] == t; }
        forall i | 0 <= i < |s| ensures IsWhitespace(s[i]) {
          assert s[i] == s[..|s| - |t|][i];
        }
      }
    }
    r
  }

  /** Trimming only removes chars: a char absent from the input is absent from the result. */
  lemma TrimNotIn(s: string, c: char)
    requires c !in s
    ensures c !in Trim(s)
  {
    var t := TrimStart(s);
    assert c !in t by { assert t == s[|s| - |t|..]; }
    assert Trim(s) == t[..|Trim(s)|];
  }

  /** Trimming a word that starts and ends with non-whitespace, behind some whitespace, gives the word. */
  lemma TrimPadded(pad: string, w: string)
    requires AllWhitespace(pad)
    requires w != [] && !IsWhitespace(w[0]) && !IsWhitespace(w[|w| - 1])
    ensures Trim(pad + w) == w
  {
    var s := pad + w;
    var r := TrimStart(s);
    assert !IsWhitespace(s[|pad|]);
    assert forall i :: 0 <= i < |pad| ==> IsWhitespace(s[i]);
    assert |r| == |w|;
    assert r == w;
  }

  /** The length of the leading run of non-whitespace chars. */
  function WordLength(s: string): (n: nat)
    ensures n <= |s|
    ensures forall i :: 0 <= i < n ==> !IsWhitespace(s[i])
    ensures n < |s| ==> IsWhitespace(s[n])
  {
    if s == [] || IsWhitespace(s[0]) then 0 else 1 + WordLength(s[1..])
  }

  /** `str::split_whitespace`: the maximal runs of non-whitespace chars, in order. */
  function SplitWhitespace(s: string): (words: seq<string>)
    ensures forall i :: 0 <= i < |words| ==> words[i] != [] && NoWhitespace(words[i])
    decreases |s|
  {
    if s == [] then []
    else if IsWhitespace(s[0]) then SplitWhitespace(s[1..])
    else
      var n := WordLength(s);
      [s[..n]] + SplitWhitespace(s[n..])
  }

  /** Whitespace in front of the text adds no token. */
  lemma {:induction false} SplitWhitespaceSkip(ws: string, rest: string)
    requires AllWhitespace(ws)
    ensures SplitWhitespace(ws + rest) == SplitWhitespace(rest)
    decreases |ws|
  {
    if ws != [] {
      assert (ws + rest)[0] == ws[0];
      assert (ws + rest)[1..] == ws[1..] + rest;
      SplitWhitespaceSkip(ws[1..], rest);
    } else {
      assert ws + rest == rest;
    }
  }

  /** A nonempty text without whitespace is one token. */
  lemma SplitWhitespaceWord(w: string)
    requires w != [] && NoWhitespace(w)
    ensures SplitWhitespace(w) == [w]
  {
    assert WordLength(w) == |w|;
    assert w[..|w|] == w;
  }

  /** A word followed by a whitespace char is the first token of the text. */
  lemma SplitWhitespaceCons(w: string, sep: char, rest: string)
    requires w != [] && NoWhitespace(w) && IsWhitespace(sep)
    ensures SplitWhitespace(w + [sep] + rest) == [w] + SplitWhitespace(rest)
  {
    var s := w + [sep] + rest;
    var n := WordLength(s);
    assert forall i :: 0 <= i < |w| ==> s[i] == w[i];
    assert s[|w|] == sep;
    assert n == |w|;
    assert s[..n] == w;
    assert s[n..] == [sep] + rest;
    assert ([sep] + rest)[1..] == rest;
  }

  /** The tokens of `a b c\n` for whitespace-free, nonempty `a`, `b`, `c`. */
  lemma SplitWhitespaceThree(a: string, b: string, c: string)
    requires a != [] && NoWhitespace(a)
    requires b != [] && NoWhitespace(b)
    requires c != [] && NoWhitespace(c)
    ensures SplitWhitespace(a + " " + b + " " + c + "\n") == [a, b, c]
  {
    var s3 := c + "\n";
    assert s3 == c + ['\n'] + [];
    SplitWhitespaceCons(c, '\n', []);
    assert SplitWhitespace(s3) == [c];
    var s2 := b + [' '] + s3;
    SplitWhitespaceCons(b, ' ', s3);
    assert SplitWhitespace(s2) == [b, c];
    SplitWhitespaceCons(a, ' ', s2);
    ThreeWords(a, b, c);
  }

  lemma ThreeWords(a: string, b: string, c: string)
    ensures a + " " + b + " " + c + "\n" == a + [' '] + (b + [' '] + (c + "\n"))
  {
  }

  /** `str::find` with a char pattern: the index of its first occurrence. */
  function IndexOf(s: string, c: char): (r: Option<nat>)
    ensures r.Some? ==> r.value < |s| && s[r.value] == c && c !in s[..r.value]
    ensures r.None? ==> c !in s
  {
    if s == [] then None
    else if s[0] == c then Some(0)
    else match IndexOf(s[1..], c)
      case None => None
      case Some(k) =>
        assert s[..k + 1] == [s[0]] + s[1..][..k];
        Some(k + 1)
  }

  lemma IndexOfAppend(a: string, b: string, c: char)
    requires c !in a
    ensures IndexOf(a + b, c) == (match IndexOf(b, c) case None => None case Some(k) => Some(|a| + k))
  {
    var s := a + b;
    match IndexOf(b, c)
    case None =>
      assert forall i :: 0 <= i < |s| ==> s[i] != c by {
        forall i | 0 <= i < |s| ensures s[i] != c {
          if i >= |a| { assert s[i] == b[i - |a|]; }
        }
      }
    case Some(k) =>
      assert s[|a| + k] == c;
      assert c !in s[..|a| + k] by {
        forall i | 0 <= i < |a| + k ensures s[i] != c {
          if i >= |a| { assert s[i] == b[..k][i - |a|]; }
        }
      }
  }

  /** `str::split` with a char separator. */
  function Split(s: string, sep: char): (pieces: seq<string>)
    ensures |pieces| >= 1
    ensures forall i :: 0 <= i < |pieces| ==> sep !in pieces[i]
    decreases |s|
  {
    match IndexOf(s, sep)
    case None => [s]
    case Some(k) => [s[..k]] + Split(s[k + 1..], sep)
  }

  /** The pieces joined with one separator between neighbours. */
  function JoinWith(pieces: seq<string>, sep: char): string
  {
    if |pieces| == 0 then []
    else if |pieces| == 1 then pieces[0]
    else pieces[0] + [sep] + JoinWith(pieces[1..], sep)
  }

  /** `Split` loses nothing: joining its pieces back gives the input. */
  lemma {:induction false} JoinSplit(s: string, sep: char)
    ensures JoinWith(Split(s, sep), sep) == s
    decreases |s|
  {
    match IndexOf(s, sep)
    case None =>
    case Some(k) =>
      var ps := Split(s[k + 1..], sep);
      JoinSplit(s[k + 1..], sep);
      assert ([s[..k]] + ps)[1..] == ps;
      assert JoinWith([s[..k]] + ps, sep) == s[..k] + [sep] + JoinWith(ps, sep);
      assert s == s[..k] + [sep] + s[k + 1..];
  }

  /** ... and it is the only way to cut `s` into separator-free pieces. */
  lemma {:induction false} SplitJoin(pieces: seq<string>, sep: char)
    requires |pieces| >= 1
    requires forall i :: 0 <= i < |pieces| ==> sep !in pieces[i]
    ensures Split(JoinWith(pieces, sep), sep) == pieces
    decreases |pieces|
  {
    if |pieces| > 1 {
      var rest := JoinWith(pieces[1..], sep);
      IndexOfAppend(pieces[0], [sep] + rest, sep);
      assert pieces[0] + [sep] + rest == pieces[0] + ([sep] + rest);
      SplitJoin(pieces[1..], sep);
      var s := pieces[0] + [sep] + rest;
      assert s[..|pieces[0]|] == pieces[0];
      assert s[|pieces[0]| + 1..] == rest;
    } else {
      assert IndexOf(pieces[0], sep).None?;
    }
  }

  /** `str::split_terminator`: `Split`, without the last piece when that one is empty. */
  function SplitTerminator(s: string, sep: char): (r: seq<string>)
    ensures forall i :: 0 <= i < |r| ==> sep !in r[i]
    ensures Split(s, sep) == r || Split(s, sep) == r + [[]]
    ensures r != [] ==> r[|r| - 1] != [] || Split(s, sep) == r + [[]]
    ensures s == [] <==> r == []
  {
    JoinSplit(s, sep);
    var all := Split(s, sep);
    if all[|all| - 1] == [] then all[..|all| - 1] else all
  }

  /** `.map(str::trim)` over a list of pieces. */
  function TrimEach(pieces: seq<string>): (r: seq<string>)
    ensures |r| == |pieces|
    ensures forall i :: 0 <= i < |r| ==> r[i] == Trim(pieces[i])
  {
    seq(|pieces|, i requires 0 <= i < |pieces| => Trim(pieces[i]))
  }

  /** `str::trim_end_matches` with a string pattern: every trailing copy of `pat` is removed. */
  function TrimEndMatches(s: string, pat: string): (r: string)
    requires pat != []
    ensures StartsWith(s, r) && !EndsWith(r, pat)
    ensures !EndsWith(s, pat) ==> r == s
    decreases |s|
  {
    if EndsWith(s, pat) then TrimEndMatches(s[..|s| - |pat|], pat) else s
  }

  /** `str::trim_start_matches` with a string pattern: every leading copy of `pat` is removed. */
  function TrimStartMatches(s: string, pat: string): (r: string)
    requires pat != []
    ensures EndsWith(s, r) && !StartsWith(r, pat)
    ensures !StartsWith(s, pat) ==> r == s
    decreases |s|
  {
    if StartsWith(s, pat) then TrimStartMatches(s[|pat|..], pat) else s
  }

  /** `k` copies of `pat` in a row. */
  function Repeat(pat: string, k: nat): string {
    if k == 0 then [] else pat + Repeat(pat, k - 1)
  }

  lemma {:induction false} RepeatSnoc(pat: string, k: nat)
    ensures Repeat(pat, k) + pat == Repeat(pat, k + 1)
  {
    if k > 0 {
      RepeatSnoc(pat, k - 1);
      AppendAssoc(pat, Repeat(pat, k - 1), pat);
    }
  }

  /** How many copies of `pat` `s` ends with, counted from the end. */
  function TrailingCopies(s: string, pat: string): nat
    requires pat != []
    decreases |s|
  {
    if EndsWith(s, pat) then 1 + TrailingCopies(s[..|s| - |pat|], pat) else 0
  }

  /** How many copies of `pat` `s` starts with, counted from the start. */
  function LeadingCopies(s: string, pat: string): nat
    requires pat != []
    decreases |s|
  {
    if StartsWith(s, pat) then 1 + LeadingCopies(s[|pat|..], pat) else 0
  }

  /** What `trim_end_matches` removes is nothing but copies of the pattern. */
  lemma {:induction false} TrimEndMatchesCopies(s: string, pat: string)
    requires pat != []
    ensures s == TrimEndMatches(s, pat) + Repeat(pat, TrailingCopies(s, pat))
    decreases |s|
  {
    if EndsWith(s, pat) {
      var s' := s[..|s| - |pat|];
      var k := TrailingCopies(s', pat);
      TrimEndMatchesCopies(s', pat);
      RepeatSnoc(pat, k);
      AppendAssoc(TrimEndMatches(s', pat), Repeat(pat, k), pat);
      assert s == s' + pat;
    }
  }

  /** What `trim_start_matches` removes is nothing but copies of the pattern. */
  lemma {:induction false} TrimStartMatchesCopies(s: string, pat: string)
    requires pat != []
    ensures s == Repeat(pat, LeadingCopies(s, pat)) + TrimStartMatches(s, pat)
    decreases |s|
  {
    if StartsWith(s, pat) {
      var s' := s[|pat|..];
      var k := LeadingCopies(s', pat);
      TrimStartMatchesCopies(s', pat);
      AppendAssoc(pat, Repeat(pat, k), TrimStartMatches(s', pat));
      assert s == pat + s';
    }
  }

  /** How many chars `BufRead::read_line` consumes: through the first newline, or all of `s` when there is none. */
  function LineLength(s: string): (n: nat)
    ensures n <= |s|
    ensures s != [] ==> n > 0
  {
    match IndexOf(s, '\n')
    case Some(k) => k + 1
    case None => |s|
  }

  lemma LineLengthOf(a: string, rest: string)
    requires '\n' !in a
    ensures LineLength(a + "\n" + rest) == |a| + 1
  {
    IndexOfAppend(a, "\n" + rest, '\n');
    assert a + "\n" + rest == a + ("\n" + rest);
  }

  /** The text `read_line` appends to its buffer when the stream's cursor is at `p`: everything up to
      and including the first newline, or the rest of the text when no newline follows. */
  function ReadLineFrom(text: string, p: nat): (line: string)
    ensures StartsWith(RestFrom(text, p), line)
    ensures line == RestFrom(text, p) || (line != [] && line[|line| - 1] == '\n')
    ensures line != [] ==> '\n' !in line[..|line| - 1]
    ensures line == [] <==> RestFrom(text, p) == []
  {
    var rest := RestFrom(text, p);
    rest[..LineLength(rest)]
  }

  /** The text after position `p`, empty past the end. */
  function RestFrom(text: string, p: nat): string {
    if p <= |text| then text[p..] else []
  }

  /** Where the cursor stands after `read_line` at `p`. */
  function NextLine(text: string, p: nat): nat {
    p + |ReadLineFrom(text, p)|
  }

  /** Reading a line at the start of `a\n...` gives `a\n`. */
  lemma ReadLineOf(text: string, p: nat, a: string, rest: string)
    requires '\n' !in a
    requires p <= |text| && text[p..] == a + "\n" + rest
    ensures ReadLineFrom(text, p) == a + "\n"
  {
    LineLengthOf(a, rest);
  }

  /** A line of `BufRead::lines` without its "\n" or "\r\n" terminator. */
  function StripLineEnd(l: string): (r: string)
    ensures r == l || r + "\n" == l || r + "\r\n" == l
    ensures !EndsWith(l, "\n") ==> r == l
    ensures EndsWith(l, "\n") && !EndsWith(l[..|l| - 1], "\r") ==> r + "\n" == l
  {
    if EndsWith(l, "\n") then
      var l' := l[..|l| - 1];
      if EndsWith(l', "\r") then l'[..|l'| - 1] else l'
    else l
  }

  /** `BufRead::lines`: the lines of `s` without their terminators; there is no empty line after a final newline. */
  function Lines(s: string): (r: seq<string>)
    ensures forall i :: 0 <= i < |r| ==> '\n' !in r[i]
    decreases |s|
  {
    if s == [] then []
    else
      var n := LineLength(s);
      LineHasNoNewline(s);
      [StripLineEnd(s[..n])] + Lines(s[n..])
  }

  /** The first line of `s`, without its terminator, holds no newline. */
  lemma LineHasNoNewline(s: string)
    ensures '\n' !in StripLineEnd(s[..LineLength(s)])
  {
    var n := LineLength(s);
    var line := StripLineEnd(s[..n]);
    assert line == s[..n][..|line|];
    assert |line| < n ==> s[n - 1] == '\n';
  }

  /** `lines` yields the line `read_line` would read, then the lines after it. */
  lemma LinesAfterRead(text: string, p: nat)
    requires RestFrom(text, p) != []
    ensures Lines(RestFrom(text, p)) == [StripLineEnd(ReadLineFrom(text, p))] + Lines(RestFrom(text, NextLine(text, p)))
  {
    var s := RestFrom(text, p);
    var n := LineLength(s);
    assert RestFrom(text, NextLine(text, p)) == s[n..];
  }

  lemma LinesCons(a: string, rest: string)
    requires '\n' !in a && !EndsWith(a, "\r")
    ensures Lines(a + "\n" + rest) == [a] + Lines(rest)
  {
    var s := a + "\n" + rest;
    LineLengthOf(a, rest);
    assert s[..|a| + 1] == a + "\n";
    assert (a + "\n")[..|a|] == a;
    assert s[|a| + 1..] == rest;
  }
}
