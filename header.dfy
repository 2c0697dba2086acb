/**
 * The XBM header as `Decoder::new` reads it, stated as a function of the stream's text and
 * the cursor it starts from:
 *
 *   #define <name>_width <u32>
 *   #define <name>_height <u32>
 *   #define <name>_x_hot <u32>        (optional, with the next line)
 *   #define <name>_y_hot <u32>        (optional)
 *   static unsigned char <name>_bits[] = {      (or `static char`)
 *
 * The pixel data starts right after the first `{` of the declaration line.
 */
module DecodeHeader {
  import opened Wrappers
  import opened Text
  import opened Numbers
  import opened Ident

  /** The decoder's `Error`; `Io` is left out, since the stream here cannot fail. */
  datatype Error =
    | InvalidHeader
    | InvalidHexByte(token: string)
    | InvalidTermination
    | InvalidImageSize(size: nat)
    | ParseInt(kind: IntErrorKind)

  /** How the `_width` suffix comes off the second token: `TrimAll` is what the source does
      (`trim_end_matches`, every trailing copy), `StripOnce` removes exactly one copy. */
  datatype SuffixRule = TrimAll | StripOnce

  /** What a successful `Decoder::new` has found, and where the pixel data starts. */
  datatype Header = Header(
    name: string,
    width: U32,
    height: U32,
    xHot: Option<U32>,
    yHot: Option<U32>,
    dataStart: nat)

  /** The image name a `<name>_width` token gives, if it gives one. */
  function NameOf(token: string, rule: SuffixRule): (r: Option<string>)
    ensures r.Some? ==> IsIdentifier(r.value) && EndsWith(token, "_width")
    ensures r.Some? && rule == StripOnce ==> token == r.value + "_width"
    ensures r.Some? && rule == TrimAll ==> !EndsWith(r.value, "_width") && StartsWith(token, r.value)
    ensures && EndsWith(token, "_width") && rule == TrimAll && IsIdentifier(TrimEndMatches(token, "_width"))
            ==> r == Some(TrimEndMatches(token, "_width"))
    ensures && EndsWith(token, "_width") && rule == StripOnce && IsIdentifier(token[..|token| - 6])
            ==> r == Some(token[..|token| - 6])
  {
    if !EndsWith(token, "_width") then None
    else
      var name := match rule
        case TrimAll => TrimEndMatches(token, "_width")
        case StripOnce => token[..|token| - 6];
      if IsIdentifier(name) then Some(name) else None
  }

  /** The third token of a `#define` line as its value: a missing value is an invalid
      header, a bad number a parse error, and only then is an extra token an invalid header. */
  function DefineValue(tokens: seq<string>): (r: Result<U32, Error>)
    requires |tokens| >= 2
    ensures r.Success? <==> |tokens| == 3 && ParseU32(tokens[2]).Success?
    ensures r.Success? ==> ParseU32(tokens[2]) == Success(r.value)
    ensures r.Failure? ==> r.error == InvalidHeader || r.error.ParseInt?
    ensures |tokens| >= 3 && ParseU32(tokens[2]).Failure? ==> r == Failure(ParseInt(ParseU32(tokens[2]).error))
    ensures r.Failure? && r.error.ParseInt? ==> |tokens| >= 3 && ParseU32(tokens[2]).Failure?
    ensures |tokens| < 3 ==> r == Failure(InvalidHeader)
    ensures |tokens| > 3 && ParseU32(tokens[2]).Success? ==> r == Failure(InvalidHeader)
  {
    if |tokens| < 3 then Failure(InvalidHeader)
    else match ParseU32(tokens[2])
      case Failure(kind) => Failure(ParseInt(kind))
      case Success(v) => if |tokens| > 3 then Failure(InvalidHeader) else Success(v)
  }

  /** The first line: `#define <name>_width <u32>`, giving the name and the width. */
  function WidthLine(line: string, rule: SuffixRule): (r: Result<(string, U32), Error>)
    ensures var t := SplitWhitespace(line);
            r.Success? <==> (&& |t| == 3 && t[0] == "#define" && NameOf(t[1], rule).Some?
                             && ParseU32(t[2]).Success?)
    ensures var t := SplitWhitespace(line);
            r.Success? ==> NameOf(t[1], rule) == Some(r.value.0) && ParseU32(t[2]) == Success(r.value.1)
    ensures r.Failure? ==> r.error == InvalidHeader || r.error.ParseInt?
    ensures var t := SplitWhitespace(line);
            var badValue := |t| >= 3 && t[0] == "#define" && NameOf(t[1], rule).Some? && ParseU32(t[2]).Failure?;
            && (badValue ==> r == Failure(ParseInt(ParseU32(t[2]).error)))
            && (r.Failure? && !badValue ==> r.error == InvalidHeader)
  {
    var t := SplitWhitespace(line);
    if |t| < 1 || t[0] != "#define" || |t| < 2 then Failure(InvalidHeader)
    else match NameOf(t[1], rule)
      case None => Failure(InvalidHeader)
      case Some(name) =>
        match DefineValue(t)
        case Failure(e) => Failure(e)
        case Success(w) => Success((name, w))
  }

  /** A line that must be `#define <key> <u32>`. */
  function KeyedLine(line: string, key: string): (r: Result<U32, Error>)
    ensures var t := SplitWhitespace(line);
            r.Success? <==> (&& |t| == 3 && t[0] == "#define" && t[1] == key
                             && ParseU32(t[2]).Success?)
    ensures var t := SplitWhitespace(line);
            r.Success? ==> ParseU32(t[2]) == Success(r.value)
    ensures r.Failure? ==> r.error == InvalidHeader || r.error.ParseInt?
    ensures var t := SplitWhitespace(line);
            var badValue := |t| >= 3 && t[0] == "#define" && t[1] == key && ParseU32(t[2]).Failure?;
            && (badValue ==> r == Failure(ParseInt(ParseU32(t[2]).error)))
            && (r.Failure? && !badValue ==> r.error == InvalidHeader)
  {
    var t := SplitWhitespace(line);
    if |t| < 2 || t[0] != "#define" || t[1] != key then Failure(InvalidHeader)
    else DefineValue(t)
  }

  /** A tentative hotspot line: `None` when it does not start with `#define` (the line is
      then put back); otherwise it must be `#define <key> <u32>`. */
  function HotLine(line: string, key: string): (r: Option<Result<U32, Error>>)
    ensures var t := SplitWhitespace(line);
            r.None? <==> (t == [] || t[0] != "#define")
    ensures r.Some? ==> r.value == KeyedLine(line, key)
  {
    var t := SplitWhitespace(line);
    if t == [] || t[0] != "#define" then None else Some(KeyedLine(line, key))
  }

  /** The declaration the encoder writes, accepted by the decoder: its first `{` is its last char. */
  function UnsignedDeclaration(name: string): (r: string)
    ensures StartsWith(r, "static unsigned char ") && EndsWith(r, name + "_bits[] = {")
    ensures '{' !in name ==> '{' !in r[..|r| - 1] && r[|r| - 1] == '{'
  {
    "static unsigned char " + name + "_bits[] = {"
  }

  /** The other declaration the decoder accepts: its first `{` is its last char. */
  function SignedDeclaration(name: string): (r: string)
    ensures StartsWith(r, "static char ") && EndsWith(r, name + "_bits[] = {")
    ensures '{' !in name ==> '{' !in r[..|r| - 1] && r[|r| - 1] == '{'
  {
    "static char " + name + "_bits[] = {"
  }

  /** Where the pixel data starts within the declaration line: just past its first `{`,
      provided the line starts with one of the two accepted declarations. */
  function DeclarationOffset(line: string, name: string): (r: Option<nat>)
    ensures r.Some? <==> StartsWith(line, UnsignedDeclaration(name)) || StartsWith(line, SignedDeclaration(name))
    ensures r.Some? ==> 0 < r.value <= |line| && line[r.value - 1] == '{' && '{' !in line[..r.value - 1]
  {
    BraceInDeclaration(line, name);
    match IndexOf(line, '{')
    case Some(i) =>
      if StartsWith(line, UnsignedDeclaration(name)) || StartsWith(line, SignedDeclaration(name)) then Some(i + 1)
      else None
    case None => None
  }

  lemma BraceInDeclaration(line: string, name: string)
    ensures StartsWith(line, UnsignedDeclaration(name)) || StartsWith(line, SignedDeclaration(name)) ==> '{' in line
  {
    var u, d := UnsignedDeclaration(name), SignedDeclaration(name);
    if StartsWith(line, u) {
      assert line[|u| - 1] == u[|u| - 1];
    } else if StartsWith(line, d) {
      assert line[|d| - 1] == d[|d| - 1];
    }
  }

  /** A tentative hotspot line read at `at`: its value and the position after it, or, when
      it is absent, no value and the position `back` the stream is put back to. */
  function Hotspot(text: string, at: nat, key: string, back: nat): (r: Result<(Option<U32>, nat), Error>)
    ensures r.Success? && r.value.0.Some? ==> r.value.1 == NextLine(text, at) <= |text|
    ensures r.Success? && r.value.0.None? ==> r.value.1 == back
    ensures r.Failure? ==> r.error == InvalidHeader || r.error.ParseInt?
  {
    var l := ReadLineFrom(text, at);
    match HotLine(l, key)
    case None => Success((None, back))
    case Some(Failure(e)) => Failure(e)
    case Some(Success(v)) =>
      ReadLineWithin(text, at);
      Success((Some(v), NextLine(text, at)))
  }

  /** `Decoder::new` on a stream holding `text` with its cursor at `start`: the width and
      height lines, then the rest of the header. */
  function ParseHeader(text: string, start: nat, rule: SuffixRule): (r: Result<Header, Error>)
    ensures r.Success? ==> && IsIdentifier(r.value.name)
                           && (r.value.xHot.Some? <==> r.value.yHot.Some?)
                           && start < r.value.dataStart <= |text|
    ensures r.Failure? ==> r.error == InvalidHeader || r.error.ParseInt?
  {
    var l1 := ReadLineFrom(text, start);
    match WidthLine(l1, rule)
    case Failure(e) => Failure(e)
    case Success((name, width)) =>
      var l2 := ReadLineFrom(text, NextLine(text, start));
      match KeyedLine(l2, name + "_height")
      case Failure(e) => Failure(e)
      case Success(height) => HeaderTail(text, NextLine(text, NextLine(text, start)), name, width, height)
  }

  /** The first two steps of `ParseHeader`, one line each. */
  lemma ParseHeaderSteps(text: string, start: nat, rule: SuffixRule)
    ensures var l1 := ReadLineFrom(text, start);
            WidthLine(l1, rule).Failure? ==> ParseHeader(text, start, rule) == Failure(WidthLine(l1, rule).error)
    ensures var l1 := ReadLineFrom(text, start);
            WidthLine(l1, rule).Success? ==>
              var (name, width) := WidthLine(l1, rule).value;
              var l2 := ReadLineFrom(text, NextLine(text, start));
              var height := KeyedLine(l2, name + "_height");
              && (height.Failure? ==> ParseHeader(text, start, rule) == Failure(height.error))
              && (height.Success? ==>
                    ParseHeader(text, start, rule) == HeaderTail(text, NextLine(text, NextLine(text, start)), name, width, height.value))
  {
  }

  /** The header after the height line, which ends at `pos`: the hotspot lines, each put
      back by seeking to `pos` when absent, then the declaration line. */
  function HeaderTail(text: string, pos: nat, name: string, width: U32, height: U32): (r: Result<Header, Error>)
    requires IsIdentifier(name)
    ensures r.Success? ==> && r.value.name == name && r.value.width == width && r.value.height == height
                           && (r.value.xHot.Some? <==> r.value.yHot.Some?)
                           && pos < r.value.dataStart <= |text|
    ensures r.Failure? ==> r.error == InvalidHeader || r.error.ParseInt?
  {
    match Hotspot(text, pos, name + "_x_hot", pos)
    case Failure(e) => Failure(e)
    case Success((xHot, px)) =>
      match Hotspot(text, px, name + "_y_hot", pos)
      case Failure(e) => Failure(e)
      case Success((yHot, py)) =>
        if xHot.Some? != yHot.Some? then Failure(InvalidHeader)
        else
          match Declaration(text, py, name)
          case Failure(e) => Failure(e)
          case Success(dataStart) => Success(Header(name, width, height, xHot, yHot, dataStart))
  }

  /** The declaration line read at `at`: where the pixel data starts. */
  function Declaration(text: string, at: nat, name: string): (r: Result<nat, Error>)
    ensures r.Success? ==> at < r.value <= |text|
    ensures r.Failure? ==> r.error == InvalidHeader
  {
    var line := ReadLineFrom(text, at);
    match DeclarationOffset(line, name)
    case None => Failure(InvalidHeader)
    case Some(k) =>
      ReadLineWithin(text, at);
      Success(at + k)
  }

  /** A line read at `p` lies within the text. */
  lemma ReadLineWithin(text: string, p: nat)
    ensures var l := ReadLineFrom(text, p); l != [] ==> p + |l| <= |text|
  {
  }
}
