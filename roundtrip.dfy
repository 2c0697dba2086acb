/**
 * The decoder reads back what the encoder writes: for an image of 0/1 pixels, a width
 * above zero and a valid name, `Decoder::new` on the encoder's text finds the name, the
 * dimensions and the hotspot, and `decode` then gives back the pixels.
 */
module RoundTrip {
  import opened Wrappers
  import opened Text
  import opened Numbers
  import opened Bits
  import opened Ident
  import opened DecodeHeader
  import opened DecodePixels
  import opened EncodeFormat

  /** The chars `{:#04X}` prints: `0`, `x` and upper-case hex digits. */
  predicate IsHexChar(c: char) {
    '0' <= c <= '9' || 'A' <= c <= 'F' || c == 'x'
  }

  lemma HexByteChars(b: Byte)
    ensures |HexByte(b)| == 4 && HexByte(b)[0] == '0'
    ensures forall i :: 0 <= i < |HexByte(b)| ==> IsHexChar(HexByte(b)[i])
  {
  }

  /** The decoder reads a `{:#04X}` token back as the byte it was printed from. */
  lemma TokenOfHexByte(b: Byte)
    ensures TokenByte(HexByte(b)) == Success(b)
  {
    var s := HexByte(b);
    HexByteParses(b);
    HexByteChars(b);
    assert IsAscii(s);
    assert StartsWith(s, "0x");
    HexPrefixTrim(s);
    assert s[2..] != "0x" by {
      assert s[3] != 'x';
      assert s[2..][1] == s[3];
    }
  }

  /** The tokens of a data line, one per byte. */
  function HexTokens(bytes: seq<Byte>): (r: seq<string>)
    ensures |r| == |bytes|
    ensures forall i :: 0 <= i < |bytes| ==> r[i] == HexByte(bytes[i])
  {
    seq(|bytes|, i requires 0 <= i < |bytes| => HexByte(bytes[i]))
  }

  /** The decoder's row rule over a run of bytes: the state after the last one, or `None`
      when a byte runs past the buffer. */
  function FeedBytes(bytes: seq<Byte>, st: Progress, width: nat, bufLen: nat): Option<Progress>
    decreases |bytes|
  {
    if bytes == [] then Some(st)
    else
      match Feed(st, bytes[0], width, bufLen)
      case None => None
      case Some(st') => FeedBytes(bytes[1..], st', width, bufLen)
  }

  /** Bytes fed one run after another. */
  lemma {:induction false} FeedBytesAppend(a: seq<Byte>, b: seq<Byte>, st: Progress, width: nat, bufLen: nat)
    ensures FeedBytes(a + b, st, width, bufLen)
         == match FeedBytes(a, st, width, bufLen)
            case None => None
            case Some(mid) => FeedBytes(b, mid, width, bufLen)
    decreases |a|
  {
    if a == [] {
      assert a + b == b;
    } else {
      assert (a + b)[0] == a[0] && (a + b)[1..] == a[1..] + b;
      match Feed(st, a[0], width, bufLen)
      case None =>
      case Some(st') => FeedBytesAppend(a[1..], b, st', width, bufLen);
    }
  }

  /** The tokens of a line run exactly as their bytes feed, when none runs past the buffer. */
  lemma {:induction false} TokensFeed(bytes: seq<Byte>, st: Progress, width: nat, bufLen: nat)
    requires FeedBytes(bytes, st, width, bufLen).Some?
    ensures RunTokens(HexTokens(bytes), st, width, bufLen) == (FeedBytes(bytes, st, width, bufLen).value, Running)
    decreases |bytes|
  {
    if bytes != [] {
      var tokens := HexTokens(bytes);
      HexByteChars(bytes[0]);
      TokenOfHexByte(bytes[0]);
      assert tokens[1..] == HexTokens(bytes[1..]);
      var st' := Feed(st, bytes[0], width, bufLen).value;
      TokensFeed(bytes[1..], st', width, bufLen);
    }
  }

  /** The chars of a data line's list of bytes. */
  predicate IsListChar(c: char) {
    IsHexChar(c) || c == ',' || c == ' '
  }

  lemma {:induction false} HexListChars(bytes: seq<Byte>)
    ensures forall i :: 0 <= i < |HexList(bytes)| ==> IsListChar(HexList(bytes)[i])
    ensures bytes != [] ==> HexList(bytes) != [] && HexList(bytes)[0] == '0'
    decreases |bytes|
  {
    if bytes != [] {
      HexByteChars(bytes[0]);
      if |bytes| > 1 {
        HexListChars(bytes[1..]);
        var h, t := HexByte(bytes[0]), HexList(bytes[1..]);
        assert HexList(bytes) == h + ", " + t;
        forall i | 0 <= i < |h + ", " + t| ensures IsListChar((h + ", " + t)[i]) {
          if i >= |h| + 2 {
            assert (h + ", " + t)[i] == t[i - |h| - 2];
          }
        }
      }
    }
  }

  /** `str::split` takes the text before the first separator as its first piece. */
  lemma SplitCons(x: string, sep: char, y: string)
    requires sep !in x
    ensures Split(x + [sep] + y, sep) == [x] + Split(y, sep)
  {
    var s := x + [sep] + y;
    IndexOfAppend(x, [sep] + y, sep);
    assert s == x + ([sep] + y);
    assert s[..|x|] == x && s[|x| + 1..] == y;
  }

  /** The pieces of a list of bytes split at its commas: one per byte, the first behind
      `pad` and the others behind the space of `, `. */
  function HexPieces(pad: string, bytes: seq<Byte>): (r: seq<string>)
    requires bytes != []
    ensures |r| == |bytes|
    decreases |bytes|
  {
    if |bytes| == 1 then [pad + HexByte(bytes[0])]
    else [pad + HexByte(bytes[0])] + HexPieces(" ", bytes[1..])
  }

  lemma {:induction false} HexPiecesIndex(pad: string, bytes: seq<Byte>)
    requires bytes != []
    ensures var r := HexPieces(pad, bytes);
            && r[0] == pad + HexByte(bytes[0])
            && forall i :: 1 <= i < |bytes| ==> r[i] == " " + HexByte(bytes[i])
    decreases |bytes|
  {
    if |bytes| > 1 {
      HexPiecesIndex(" ", bytes[1..]);
      var r := HexPieces(pad, bytes);
      forall i | 1 <= i < |bytes| ensures r[i] == " " + HexByte(bytes[i]) {
        assert r[i] == HexPieces(" ", bytes[1..])[i - 1] && bytes[1..][i - 1] == bytes[i];
      }
    }
  }

  /** A list of bytes with a trailing comma splits into its pieces and an empty piece
      after the last comma. */
  lemma {:induction false} SplitHexList(pad: string, bytes: seq<Byte>)
    requires bytes != [] && ',' !in pad
    ensures Split(pad + HexList(bytes) + ",", ',') == HexPieces(pad, bytes) + [[]]
    decreases |bytes|
  {
    var h := HexByte(bytes[0]);
    assert ',' !in pad + h by {
      HexByteChars(bytes[0]);
      NotInAppend(',', pad, h);
    }
    if |bytes| == 1 {
      assert pad + HexList(bytes) + "," == (pad + h) + [','] + [];
      SplitCons(pad + h, ',', []);
      assert Split([], ',') == [[]];
    } else {
      var more := HexList(bytes[1..]);
      var tail := " " + more + ",";
      assert HexList(bytes) == h + ", " + more;
      Regroup(pad, h, more);
      SplitCons(pad + h, ',', tail);
      SplitHexList(" ", bytes[1..]);
      AppendAssoc([pad + h], HexPieces(" ", bytes[1..]), [[]]);
    }
  }

  lemma Regroup(pad: string, h: string, more: string)
    ensures pad + (h + ", " + more) + "," == (pad + h) + [','] + (" " + more + ",")
  {
  }

  /** A data line's list of bytes, trailing comma included, yields their tokens. */
  lemma LineTokensOfHexList(bytes: seq<Byte>)
    requires bytes != []
    ensures LineTokens(HexList(bytes) + ",") == HexTokens(bytes)
  {
    var pieces := SplitTerminator(HexList(bytes) + ",", ',');
    TrimmedPieces(bytes);
    TrimEachTokens(pieces, bytes);
  }

  lemma TrimmedPieces(bytes: seq<Byte>)
    requires bytes != []
    ensures var pieces := SplitTerminator(HexList(bytes) + ",", ',');
            && |pieces| == |bytes|
            && forall i :: 0 <= i < |bytes| ==> Trim(pieces[i]) == HexByte(bytes[i])
  {
    PiecesOfHexList(bytes);
    TrimPieces(SplitTerminator(HexList(bytes) + ",", ','), bytes);
  }

  /** `split_terminator(',')` cuts a list of bytes with its trailing comma into one piece per byte. */
  lemma PiecesOfHexList(bytes: seq<Byte>)
    requires bytes != []
    ensures var pieces := SplitTerminator(HexList(bytes) + ",", ',');
            && |pieces| == |bytes| && pieces[0] == HexByte(bytes[0])
            && forall i :: 1 <= i < |bytes| ==> pieces[i] == " " + HexByte(bytes[i])
  {
    TerminatorOfHexList(bytes);
    HexPiecesIndex([], bytes);
    EmptyPrefix(HexByte(bytes[0]));
  }

  lemma TerminatorOfHexList(bytes: seq<Byte>)
    requires bytes != []
    ensures SplitTerminator(HexList(bytes) + ",", ',') == HexPieces([], bytes)
  {
    var pieces := HexPieces([], bytes);
    SplitHexList([], bytes);
    EmptyPrefix(HexList(bytes));
    assert (pieces + [[]])[..|pieces|] == pieces;
  }

  lemma TrimEachTokens(pieces: seq<string>, bytes: seq<Byte>)
    requires |pieces| == |bytes|
    requires forall i :: 0 <= i < |bytes| ==> Trim(pieces[i]) == HexByte(bytes[i])
    ensures TrimEach(pieces) == HexTokens(bytes)
  {
  }

  /** The pieces of a list of bytes trim to their tokens. */
  lemma TrimPieces(pieces: seq<string>, bytes: seq<Byte>)
    requires |pieces| == |bytes| > 0 && pieces[0] == HexByte(bytes[0])
    requires forall i :: 1 <= i < |bytes| ==> pieces[i] == " " + HexByte(bytes[i])
    ensures forall i :: 0 <= i < |bytes| ==> Trim(pieces[i]) == HexByte(bytes[i])
  {
    forall i | 0 <= i < |bytes| ensures Trim(pieces[i]) == HexByte(bytes[i]) {
      if i == 0 {
        TrimToken("", bytes[0]);
        assert "" + HexByte(bytes[0]) == HexByte(bytes[0]);
      } else {
        TrimToken(" ", bytes[i]);
      }
    }
  }

  /** A token behind the space of `, ` trims to itself. */
  lemma TrimToken(pad: string, b: Byte)
    requires pad == "" || pad == " "
    ensures Trim(pad + HexByte(b)) == HexByte(b)
  {
    var h := HexByte(b);
    assert !IsWhitespace(h[0]) && !IsWhitespace(h[3]) by {
      HexByteChars(b);
    }
    TrimPadded(pad, h);
  }

  /** A data line without its newline. */
  function DataText(bytes: seq<Byte>): string {
    "    " + HexList(bytes) + ","
  }

  /** The data lines as `lines` yields them. */
  function DataTexts(bytes: seq<Byte>): seq<string>
    decreases |bytes|
  {
    if bytes == [] then []
    else
      var n := Min(12, |bytes|);
      [DataText(bytes[..n])] + DataTexts(bytes[n..])
  }

  /** A data line holds no line break and does not end in `\r`, so `lines` keeps it whole. */
  lemma DataTextShape(bytes: seq<Byte>)
    ensures '\n' !in DataText(bytes) && !EndsWith(DataText(bytes), "\r")
  {
    var l := HexList(bytes);
    var d := DataText(bytes);
    assert '\n' !in l by {
      HexListChars(bytes);
      assert forall i :: 0 <= i < |l| ==> IsListChar(l[i]);
    }
    assert d == "    " + l + ",";
    assert d[|d| - 1] == ',';
  }

  /** A data line trims to its list of bytes and comma. */
  lemma DataTextTrim(bytes: seq<Byte>)
    requires bytes != []
    ensures Trim(DataText(bytes)) == HexList(bytes) + ","
  {
    var w := HexList(bytes) + ",";
    assert DataText(bytes) == "    " + w;
    assert w[0] == '0' by {
      HexListChars(bytes);
    }
    assert w[|w| - 1] == ',';
    assert AllWhitespace("    ");
    TrimPadded("    ", w);
  }

  /** A data line is its text and a newline. */
  lemma DataLineText(bytes: seq<Byte>, more: string)
    ensures DataLine(bytes) + more == DataText(bytes) + "\n" + more
  {
  }

  /** The first data line and the lines after it. */
  lemma DataLinesStep(bytes: seq<Byte>)
    requires bytes != []
    ensures var n := Min(12, |bytes|);
            DataLines(bytes) == DataLine(bytes[..n]) + DataLines(bytes[n..])
  {
    var n := Min(12, |bytes|);
    if |bytes| <= 12 {
      assert bytes[..n] == bytes && bytes[n..] == [];
      AppendEmpty(DataLine(bytes));
    } else {
      assert n == 12;
    }
  }

  lemma EmptyPrefix<T>(s: seq<T>)
    ensures [] + s == s
  {
  }

  lemma AppendEmpty<T>(s: seq<T>)
    ensures s + [] == s
  {
  }

  /** `lines` cuts the data lines back apart, whatever follows them. */
  lemma {:induction false} LinesOfData(bytes: seq<Byte>, tail: string)
    ensures Lines(DataLines(bytes) + tail) == DataTexts(bytes) + Lines(tail)
    decreases |bytes|
  {
    if bytes == [] {
      assert DataLines(bytes) + tail == tail;
    } else {
      var n := Min(12, |bytes|);
      var d, x := DataText(bytes[..n]), DataLines(bytes[n..]) + tail;
      DataLinesStep(bytes);
      AppendAssoc(DataLine(bytes[..n]), DataLines(bytes[n..]), tail);
      DataLineText(bytes[..n], x);
      DataTextShape(bytes[..n]);
      LinesCons(d, x);
      LinesOfData(bytes[n..], tail);
      AppendAssoc([d], DataTexts(bytes[n..]), Lines(tail));
    }
  }

  /** The bytes of one row, fed at the start of that row, write exactly its pixels and
      leave the decoder at the start of the next row. */
  lemma {:induction false} FeedRow(row: seq<Byte>, w: seq<Byte>, width: nat, bufLen: nat)
    requires AllPixels(row) && row != [] && |w| + |row| <= bufLen
    ensures FeedBytes(RowBytes(row), Progress(w, |row|), width, bufLen) == Some(Progress(w + row, width))
    decreases |row|
  {
    var n := Min(8, |row|);
    var run, more := row[..n], row[n..];
    var b := PackByte(run);
    assert RowBytes(row) == [b] + RowBytes(more) && AllPixels(more) by {
      RowBytesStep(row);
    }
    var st := Progress(w, |row|);
    var st' := Progress(w + run, if |row| <= 8 then width else |more|);
    assert Feed(st, b, width, bufLen) == Some(st') by {
      PackByteUnpacks(run);
    }
    assert FeedBytes(RowBytes(row), st, width, bufLen) == FeedBytes(RowBytes(more), st', width, bufLen);
    if |row| <= 8 {
      assert run == row && more == [];
    } else {
      FeedRow(more, w + run, width, bufLen);
      AppendAssoc(w, run, more);
      assert run + more == row;
    }
  }

  /** The bytes of `height` whole rows write exactly their pixels. */
  lemma {:induction false} FeedImage(buf: seq<Byte>, width: nat, height: nat, w: seq<Byte>, bufLen: nat)
    requires width > 0 && AllPixels(buf) && |buf| == width * height && |w| + |buf| <= bufLen
    ensures FeedBytes(PackRows(buf, width), Progress(w, width), width, bufLen) == Some(Progress(w + buf, width))
    decreases height
  {
    if height == 0 {
      assert w + buf == w;
    } else {
      FirstRow(buf, width, height);
      var row, rest := buf[..width], buf[width..];
      assert PackRows(buf, width) == RowBytes(row) + PackRows(rest, width) && AllPixels(row) && AllPixels(rest) by {
        PackRowsStep(buf, width);
      }
      var st, st' := Progress(w, width), Progress(w + row, width);
      assert FeedBytes(RowBytes(row), st, width, bufLen) == Some(st') by {
        FeedRow(row, w, width, bufLen);
      }
      assert FeedBytes(PackRows(buf, width), st, width, bufLen) == FeedBytes(PackRows(rest, width), st', width, bufLen) by {
        FeedBytesAppend(RowBytes(row), PackRows(rest, width), st, width, bufLen);
      }
      AppendAssoc(w, row, rest);
      FeedImage(rest, width, height - 1, w + row, bufLen);
    }
  }

  /** An image of at least one row: its first row and the rows after it. */
  lemma FirstRow(buf: seq<Byte>, width: nat, height: nat)
    requires |buf| == width * height && height > 0
    ensures width <= |buf| && |buf[width..]| == width * (height - 1)
    ensures buf[..width] + buf[width..] == buf
  {
    MulPred(width, height);
  }

  /** The data lines and the closing `};`, run from any state their bytes can be fed from,
      end the decoding where feeding the bytes ends it. */
  lemma {:induction false} RunDataLines(bytes: seq<Byte>, st: Progress, width: nat, bufLen: nat)
    requires FeedBytes(bytes, st, width, bufLen).Some?
    ensures RunLines(DataTexts(bytes) + ["};"], st, width, bufLen) == Finish(FeedBytes(bytes, st, width, bufLen).value, bufLen)
    decreases |bytes|
  {
    if bytes == [] {
      assert DataTexts(bytes) + ["};"] == ["};"];
      ClosingLine("};", st, width, bufLen);
    } else {
      var n := Min(12, |bytes|);
      var c, more := bytes[..n], bytes[n..];
      assert bytes == c + more;
      FeedBytesAppend(c, more, st, width, bufLen);
      var mid := FeedBytes(c, st, width, bufLen).value;
      var lines := DataTexts(bytes) + ["};"];
      assert lines[0] == DataText(c) && lines[1..] == DataTexts(more) + ["};"];
      DataLineStep(c, st, width, bufLen);
      RunDataLines(more, mid, width, bufLen);
    }
  }

  /** The closing line ends the decoding with whatever has been written. */
  lemma ClosingLine(close: string, st: Progress, width: nat, bufLen: nat)
    requires close == "};"
    ensures RunLines([close], st, width, bufLen) == Finish(st, bufLen)
  {
    var lines := [close];
    assert lines[0] == close && |lines| == 1 && lines[1..] == [];
    ClosingStep(close, st, width, bufLen);
    assert RunLines(lines[1..], st, width, bufLen) == Finish(st, bufLen);
  }

  /** The closing line, trimmed and with its `};` removed, is empty. */
  lemma ClosingStep(close: string, st: Progress, width: nat, bufLen: nat)
    requires close == "};"
    ensures LineStep(Trim(close), true, st, width, bufLen) == (st, Running)
  {
    ClosingTrim(close);
    ClosingBody(close);
  }

  lemma ClosingTrim(close: string)
    requires close == "};"
    ensures Trim(close) == close
  {
    TrimPadded([], close);
    assert [] + close == close;
  }

  lemma ClosingBody(close: string)
    requires close == "};"
    ensures EndsWith(close, "};") && TrimEndMatches(close, "};") == []
  {
    assert close[..0] == [];
  }

  /** A data line that is not the last runs its bytes. */
  lemma DataLineStep(c: seq<Byte>, st: Progress, width: nat, bufLen: nat)
    requires c != [] && FeedBytes(c, st, width, bufLen).Some?
    ensures LineStep(Trim(DataText(c)), false, st, width, bufLen) == (FeedBytes(c, st, width, bufLen).value, Running)
  {
    DataTextTrim(c);
    LineTokensOfHexList(c);
    TokensFeed(c, st, width, bufLen);
  }

  /** The empty rest of the declaration line yields no tokens. */
  lemma EmptyLine(e: string, st: Progress, width: nat, bufLen: nat)
    requires e == []
    ensures LineStep(Trim(e), false, st, width, bufLen) == (st, Running)
  {
    assert Split(e, ',') == [e];
    assert SplitTerminator(e, ',') == [];
  }

  /** An empty line, then the rest. */
  lemma LinesBlank(rest: string)
    ensures Lines("\n" + rest) == [[]] + Lines(rest)
  {
    LinesCons([], rest);
    assert [] + "\n" + rest == "\n" + rest;
  }

  /** The closing line. */
  lemma LinesClose(close: string)
    requires close == "};"
    ensures Lines(close + "\n") == [close]
  {
    assert '\n' !in close && !EndsWith(close, "\r");
    LinesCons(close, []);
    assert close + "\n" + [] == close + "\n";
  }

  /** The text after the declaration's `{`, as `lines` yields it: the empty rest of the
      declaration line, the data lines, and the closing `};`. */
  lemma LinesOfBody(bytes: seq<Byte>, close: string)
    requires close == "};"
    ensures Lines("\n" + (DataLines(bytes) + (close + "\n"))) == [[]] + (DataTexts(bytes) + [close])
  {
    LinesBlank(DataLines(bytes) + (close + "\n"));
    LinesOfData(bytes, close + "\n");
    LinesClose(close);
  }

  /** `decode` on what the encoder writes after the declaration's `{` fills the buffer with
      the image's pixels and succeeds. */
  lemma DecodeBody(buf: seq<Byte>, width: nat, height: nat)
    requires width > 0 && AllPixels(buf) && |buf| == width * height
    ensures DecodeSpec("\n" + (DataLines(PackRows(buf, width)) + "};\n"), width, |buf|) == (Done(()), buf)
  {
    var bytes := PackRows(buf, width);
    var start := Progress([], width);
    BodySpec(bytes, width, |buf|);
    FeedImage(buf, width, height, [], |buf|);
    assert [] + buf == buf;
    RunDataLines(bytes, start, width, |buf|);
  }

  /** Decoding the text after the `{` runs the data lines and `};` from an empty start. */
  lemma BodySpec(bytes: seq<Byte>, width: nat, bufLen: nat)
    requires width > 0
    ensures DecodeSpec("\n" + (DataLines(bytes) + "};\n"), width, bufLen)
         == RunLines(DataTexts(bytes) + ["};"], Progress([], width), width, bufLen)
  {
    var start := Progress([], width);
    var lines := [[]] + (DataTexts(bytes) + ["};"]);
    BodyLines(bytes);
    assert lines[0] == [] && lines[1..] == DataTexts(bytes) + ["};"];
    RunLinesStep(lines, start, width, bufLen);
    EmptyLine(lines[0], start, width, bufLen);
  }

  /** The text after the `{` is an empty line, the data lines, then `};`. */
  lemma BodyLines(bytes: seq<Byte>)
    ensures Lines("\n" + (DataLines(bytes) + "};\n")) == [[]] + (DataTexts(bytes) + ["};"])
  {
    LinesOfBody(bytes, "};");
    assert "};" + "\n" == "};\n";
  }

  /** A char missing from both halves is missing from their concatenation. */
  lemma NotInAppend(c: char, a: string, b: string)
    requires c !in a && c !in b
    ensures c !in a + b
  {
    assert forall i :: 0 <= i < |a + b| ==> (a + b)[i] == if i < |a| then a[i] else b[i - |a|];
  }

  /** The keys the encoder appends to the name are made of identifier chars. */
  predicate IsKey(key: string) {
    key != [] && forall i :: 0 <= i < |key| ==> IsXidContinue(key[i])
  }

  /** The four keys of the header. */
  lemma Keys()
    ensures IsKey("_width") && IsKey("_height") && IsKey("_x_hot") && IsKey("_y_hot")
  {
  }

  /** A name followed by a key is a single word with no line break. */
  lemma KeyedName(name: string, key: string)
    requires IsIdentifier(name) && IsKey(key)
    ensures name + key != [] && NoWhitespace(name + key) && '\n' !in name + key
  {
    IdentifierAppend(name, key);
    IdentifierChars(name + key);
  }

  /** The digits of a value: one word with no line break. */
  lemma DecimalWord(v: nat)
    ensures NoWhitespace(Decimal(v)) && '\n' !in Decimal(v)
  {
    var d := Decimal(v);
    assert forall i :: 0 <= i < |d| ==> '0' <= d[i] <= '9';
  }

  /** A `#define` line the encoder writes is one line, ended by its newline. */
  lemma DefineLineShape(name: string, key: string, v: U32)
    requires IsIdentifier(name) && IsKey(key)
    ensures var l := DefineLine(name, key, v);
            l != [] && l[|l| - 1] == '\n' && '\n' !in l[..|l| - 1]
  {
    var l := DefineLine(name, key, v);
    var a := "#define " + (name + key) + " " + Decimal(v);
    assert l == a + "\n";
    assert l[..|l| - 1] == a;
    KeyedName(name, key);
    DecimalWord(v);
    NotInAppend('\n', "#define ", name + key);
    NotInAppend('\n', "#define " + (name + key), " ");
    NotInAppend('\n', "#define " + (name + key) + " ", Decimal(v));
  }

  /** The words of a `#define` line the encoder writes. */
  lemma DefineWords(name: string, key: string, v: U32)
    requires IsIdentifier(name) && IsKey(key)
    ensures SplitWhitespace(DefineLine(name, key, v)) == ["#define", name + key, Decimal(v)]
  {
    KeyedName(name, key);
    DecimalWord(v);
    DefineWord();
    SplitWhitespaceThree("#define", name + key, Decimal(v));
    DefineLineWords(name, key, v);
  }

  lemma DefineWord()
    ensures "#define" != [] && NoWhitespace("#define")
  {
  }

  lemma DefineLineWords(name: string, key: string, v: U32)
    ensures DefineLine(name, key, v) == "#define" + " " + (name + key) + " " + Decimal(v) + "\n"
  {
  }

  /** The decoder reads back a `#define` line the encoder wrote for the same key. */
  lemma DefineParses(name: string, key: string, v: U32)
    requires IsIdentifier(name) && IsKey(key)
    ensures KeyedLine(DefineLine(name, key, v), name + key) == Success(v)
    ensures HotLine(DefineLine(name, key, v), name + key) == Some(Success(v))
  {
    DefineWords(name, key, v);
    ParseDecimal(v);
  }

  /** The name comes back off the width line's `<name>_width` token: always when one copy
      of the suffix is removed, and under the source's rule only when the name does not
      itself end in `_width`. */
  lemma NameComesBack(name: string, rule: SuffixRule)
    requires IsIdentifier(name)
    requires rule == StripOnce || !EndsWith(name, "_width")
    ensures NameOf(name + "_width", rule) == Some(name)
  {
    var t := name + "_width";
    assert EndsWith(t, "_width");
    assert t[..|t| - 6] == name;
    if rule == TrimAll {
      assert TrimEndMatches(t, "_width") == TrimEndMatches(name, "_width");
    }
  }

  /** The decoder reads back the width line, name and width, under the same condition. */
  lemma WidthParses(name: string, w: U32, rule: SuffixRule)
    requires IsIdentifier(name)
    requires rule == StripOnce || !EndsWith(name, "_width")
    ensures WidthLine(DefineLine(name, "_width", w), rule) == Success((name, w))
  {
    Keys();
    DefineWords(name, "_width", w);
    NameComesBack(name, rule);
    ParseDecimal(w);
  }

  /** The declaration line does not start with `#define`, so a hotspot read there is put back. */
  lemma DeclarationIsNoDefine(name: string, key: string)
    requires IsIdentifier(name)
    ensures HotLine(DeclarationLine(name), key) == None
  {
    var rest := "unsigned char " + name + "_bits[] = {" + "\n";
    DeclarationStatic(name);
    SplitWhitespaceCons("static", ' ', rest);
  }

  lemma DeclarationStatic(name: string)
    ensures DeclarationLine(name) == "static" + [' '] + ("unsigned char " + name + "_bits[] = {" + "\n")
  {
  }

  /** The declaration line's first `{` is its last char before the newline. */
  lemma DeclarationBrace(name: string)
    requires IsIdentifier(name)
    ensures DeclarationOffset(DeclarationLine(name), name) == Some(|UnsignedDeclaration(name)|)
    ensures '\n' !in UnsignedDeclaration(name)
  {
    DeclarationParts(name);
    var pre := DeclarationPrefix(name);
    NotInAppend('\n', pre, "{");
    DeclarationBraceIndex(name);
    assert StartsWith(DeclarationLine(name), UnsignedDeclaration(name));
  }

  lemma DeclarationParts(name: string)
    requires IsIdentifier(name)
    ensures UnsignedDeclaration(name) == DeclarationPrefix(name) + "{"
    ensures DeclarationLine(name) == DeclarationPrefix(name) + ("{" + "\n")
  {
  }

  lemma DeclarationBraceIndex(name: string)
    requires IsIdentifier(name)
    ensures IndexOf(DeclarationLine(name), '{') == Some(|DeclarationPrefix(name)|)
  {
    DeclarationParts(name);
    IndexOfAppend(DeclarationPrefix(name), "{" + "\n", '{');
  }

  /** The declaration line up to its `{`. */
  function DeclarationPrefix(name: string): (pre: string)
    requires IsIdentifier(name)
    ensures '{' !in pre && '\n' !in pre
  {
    IdentifierChars(name);
    NotInAppend('{', "static unsigned char ", name);
    NotInAppend('{', "static unsigned char " + name, "_bits[] = ");
    NotInAppend('\n', "static unsigned char ", name);
    NotInAppend('\n', "static unsigned char " + name, "_bits[] = ");
    "static unsigned char " + name + "_bits[] = "
  }

  /** Reading a line where the remaining text starts with that line. */
  lemma ReadLineAt(text: string, p: nat, line: string, rest: string)
    requires line != [] && line[|line| - 1] == '\n' && '\n' !in line[..|line| - 1]
    requires RestFrom(text, p) == line + rest
    ensures ReadLineFrom(text, p) == line
    ensures RestFrom(text, NextLine(text, p)) == rest
  {
    var a := line[..|line| - 1];
    assert line == a + "\n";
    assert p <= |text|;
    ReadLineOf(text, p, a, rest);
    assert text[p + |line|..] == text[p..][|line|..];
  }

  /** A hotspot the encoder wrote is read back, and the cursor moves past its line. */
  lemma HotspotPresent(text: string, pos: nat, name: string, key: string, v: U32, back: nat, rest: string)
    requires IsIdentifier(name) && IsKey(key)
    requires RestFrom(text, pos) == DefineLine(name, key, v) + rest
    ensures Hotspot(text, pos, name + key, back) == Success((Some(v), NextLine(text, pos)))
    ensures RestFrom(text, NextLine(text, pos)) == rest
  {
    DefineLineShape(name, key, v);
    ReadLineAt(text, pos, DefineLine(name, key, v), rest);
    DefineParses(name, key, v);
  }

  /** Without hotspots the declaration line comes next: the hotspot read finds none and
      puts the stream back. */
  lemma HotspotAbsent(text: string, pos: nat, name: string, key: string, back: nat, rest: string)
    requires IsIdentifier(name)
    requires RestFrom(text, pos) == DeclarationLine(name) + rest
    ensures Hotspot(text, pos, key, back) == Success((None, back))
  {
    DeclarationBrace(name);
    ReadLineAt(text, pos, DeclarationLine(name), rest);
    DeclarationIsNoDefine(name, key);
  }

  /** The declaration line the encoder wrote is accepted, and the pixel data is read from
      its newline on. */
  lemma DeclarationAt(text: string, p: nat, name: string, rest: string)
    requires IsIdentifier(name)
    requires RestFrom(text, p) == DeclarationLine(name) + rest
    ensures Declaration(text, p, name).Success?
    ensures RestFrom(text, Declaration(text, p, name).value) == "\n" + rest
  {
    var u := UnsignedDeclaration(name);
    DeclarationBrace(name);
    ReadLineAt(text, p, DeclarationLine(name), rest);
    assert Declaration(text, p, name).value == p + |u|;
    assert text[p + |u|..] == text[p..][|u|..];
    assert (u + "\n" + rest)[|u|..] == "\n" + rest;
  }

  /** After the height line: the hotspot lines, if written, and the declaration line. */
  lemma TailParses(text: string, pos: nat, name: string, w: U32, h: U32, x: Option<U32>, y: Option<U32>, rest: string)
    requires IsIdentifier(name) && x.Some? == y.Some?
    requires RestFrom(text, pos)
          == HotspotLine(name, "_x_hot", x) + (HotspotLine(name, "_y_hot", y) + (DeclarationLine(name) + rest))
    ensures var r := HeaderTail(text, pos, name, w, h);
            && r.Success? && r.value == Header(name, w, h, x, y, r.value.dataStart)
            && RestFrom(text, r.value.dataStart) == "\n" + rest
  {
    Keys();
    var tail := DeclarationLine(name) + rest;
    if x.None? {
      assert RestFrom(text, pos) == tail;
      HotspotAbsent(text, pos, name, name + "_x_hot", pos, rest);
      HotspotAbsent(text, pos, name, name + "_y_hot", pos, rest);
      DeclarationAt(text, pos, name, rest);
    } else {
      var ly := HotspotLine(name, "_y_hot", y);
      HotspotPresent(text, pos, name, "_x_hot", x.value, pos, ly + tail);
      var px := NextLine(text, pos);
      HotspotPresent(text, px, name, "_y_hot", y.value, pos, tail);
      DeclarationAt(text, NextLine(text, px), name, rest);
    }
  }

  /** The first two lines of the encoder's header, and what follows them. */
  lemma HeaderLines(text: string, name: string, w: U32, h: U32, x: Option<U32>, y: Option<U32>, rest: string)
    requires IsIdentifier(name)
    requires text == HeaderText(name, w, h, x, y) + rest
    ensures ReadLineFrom(text, 0) == DefineLine(name, "_width", w)
    ensures ReadLineFrom(text, NextLine(text, 0)) == DefineLine(name, "_height", h)
    ensures RestFrom(text, NextLine(text, NextLine(text, 0)))
         == HotspotLine(name, "_x_hot", x) + (HotspotLine(name, "_y_hot", y) + (DeclarationLine(name) + rest))
  {
    var l1, l2 := DefineLine(name, "_width", w), DefineLine(name, "_height", h);
    var lx, ly := HotspotLine(name, "_x_hot", x), HotspotLine(name, "_y_hot", y);
    var d := DeclarationLine(name);
    var t := lx + (ly + (d + rest));
    AppendAssoc(l1 + l2 + lx + ly, d, rest);
    AppendAssoc(l1 + l2 + lx, ly, d + rest);
    AppendAssoc(l1 + l2, lx, ly + (d + rest));
    AppendAssoc(l1, l2, t);
    assert RestFrom(text, 0) == l1 + (l2 + t);
    Keys();
    DefineLineShape(name, "_width", w);
    ReadLineAt(text, 0, l1, l2 + t);
    DefineLineShape(name, "_height", h);
    ReadLineAt(text, NextLine(text, 0), l2, t);
  }

  /** `Decoder::new` on the encoder's header, whatever follows it, finds the name, the
      dimensions and the hotspot the encoder was given, and leaves the stream at the
      newline ending the declaration line. */
  lemma HeaderParses(text: string, name: string, w: U32, h: U32, x: Option<U32>, y: Option<U32>,
                     rest: string, rule: SuffixRule)
    requires IsIdentifier(name) && x.Some? == y.Some?
    requires rule == StripOnce || !EndsWith(name, "_width")
    requires text == HeaderText(name, w, h, x, y) + rest
    ensures var r := ParseHeader(text, 0, rule);
            && r.Success? && r.value == Header(name, w, h, x, y, r.value.dataStart)
            && RestFrom(text, r.value.dataStart) == "\n" + rest
  {
    HeaderLines(text, name, w, h, x, y, rest);
    WidthParses(name, w, rule);
    Keys();
    DefineParses(name, "_height", h);
    TailParses(text, NextLine(text, NextLine(text, 0)), name, w, h, x, y, rest);
  }

  /** Under the source's rule a name ending in `_width` does not come back: the width line
      yields a shorter name (or none), and the height line then fails to match it. */
  lemma HeaderLosesName(text: string, name: string, w: U32, h: U32, x: Option<U32>, y: Option<U32>, rest: string)
    requires IsIdentifier(name) && EndsWith(name, "_width")
    requires text == HeaderText(name, w, h, x, y) + rest
    ensures ParseHeader(text, 0, TrimAll) == Failure(InvalidHeader)
  {
    HeaderLines(text, name, w, h, x, y, rest);
    ParseHeaderSteps(text, 0, TrimAll);
    WidthLineShortens(name, w);
    var wl := WidthLine(DefineLine(name, "_width", w), TrimAll);
    if wl.Success? {
      HeightKeyMismatch(name, wl.value.0, h);
    }
  }

  /** Under the source's rule the width line of a name ending in `_width` is rejected or
      gives a shorter name. */
  lemma WidthLineShortens(name: string, w: U32)
    requires IsIdentifier(name) && EndsWith(name, "_width")
    ensures var wl := WidthLine(DefineLine(name, "_width", w), TrimAll);
            && (wl.Failure? ==> wl.error == InvalidHeader)
            && (wl.Success? ==> |wl.value.0| < |name|)
  {
    Keys();
    DefineWords(name, "_width", w);
    ParseDecimal(w);
    var t := name + "_width";
    assert t[..|t| - 6] == name;
    assert TrimEndMatches(t, "_width") == TrimEndMatches(name, "_width");
    assert TrimEndMatches(name, "_width") == TrimEndMatches(name[..|name| - 6], "_width");
  }

  /** A height line is rejected when its key names another image. */
  lemma HeightKeyMismatch(name: string, other: string, h: U32)
    requires IsIdentifier(name) && |other| < |name|
    ensures KeyedLine(DefineLine(name, "_height", h), other + "_height") == Failure(InvalidHeader)
  {
    Keys();
    DefineWords(name, "_height", h);
    assert |other + "_height"| < |name + "_height"|;
  }

  /** The round trip, for a decoder whose rule for the `_width` suffix gives the name back:
      for an image `encode` accepts, `Decoder::new` on the text it writes finds the name,
      dimensions and hotspot it was given, and `decode` and `decode_to_vec` give back the
      pixels. */
  lemma RoundTripWith(buf: seq<Byte>, name: string, width: U32, height: U32, xHot: Option<U32>, yHot: Option<U32>,
                      rule: SuffixRule)
    requires width > 0 && |buf| == width * height
    requires EncodeSpec(buf, name, width, height, xHot, yHot).Success?
    requires rule == StripOnce || !EndsWith(name, "_width")
    ensures var text := EncodeSpec(buf, name, width, height, xHot, yHot).value;
            var r := ParseHeader(text, 0, rule);
            && r.Success? && r.value == Header(name, width, height, xHot, yHot, r.value.dataStart)
            && DecodeSpec(RestFrom(text, r.value.dataStart), width, width * height) == (Done(()), buf)
            && DecodeVecSpec(RestFrom(text, r.value.dataStart), width, width * height) == Done(buf)
  {
    var text := EncodeSpec(buf, name, width, height, xHot, yHot).value;
    var body := DataLines(PackRows(buf, width)) + "};\n";
    AppendAssoc(HeaderText(name, width, height, xHot, yHot), DataLines(PackRows(buf, width)), "};\n");
    HeaderParses(text, name, width, height, xHot, yHot, body, rule);
    DecodeBody(buf, width, height);
  }

  /** The round trip as the source decodes: it holds for every name that does not itself
      end in `_width`. */
  lemma RoundTrip(buf: seq<Byte>, name: string, width: U32, height: U32, xHot: Option<U32>, yHot: Option<U32>)
    requires width > 0 && |buf| == width * height
    requires EncodeSpec(buf, name, width, height, xHot, yHot).Success?
    requires !EndsWith(name, "_width")
    ensures var text := EncodeSpec(buf, name, width, height, xHot, yHot).value;
            var r := ParseHeader(text, 0, TrimAll);
            && r.Success? && r.value == Header(name, width, height, xHot, yHot, r.value.dataStart)
            && DecodeVecSpec(RestFrom(text, r.value.dataStart), width, width * height) == Done(buf)
  {
    RoundTripWith(buf, name, width, height, xHot, yHot, TrimAll);
  }

  /** With one copy of the suffix removed, the round trip holds for every name the encoder
      accepts. */
  lemma RoundTripStripOnce(buf: seq<Byte>, name: string, width: U32, height: U32, xHot: Option<U32>, yHot: Option<U32>)
    requires width > 0 && |buf| == width * height
    requires EncodeSpec(buf, name, width, height, xHot, yHot).Success?
    ensures var text := EncodeSpec(buf, name, width, height, xHot, yHot).value;
            var r := ParseHeader(text, 0, StripOnce);
            && r.Success? && r.value == Header(name, width, height, xHot, yHot, r.value.dataStart)
            && DecodeVecSpec(RestFrom(text, r.value.dataStart), width, width * height) == Done(buf)
  {
    RoundTripWith(buf, name, width, height, xHot, yHot, StripOnce);
  }

  /** The encoder accepts every identifier, but the source's decoder rejects what it writes
      for one that ends in `_width`. */
  lemma WidthSuffixBreaksRoundTrip(buf: seq<Byte>, name: string, width: U32, height: U32, xHot: Option<U32>, yHot: Option<U32>)
    requires width > 0 && |buf| == width * height
    requires EncodeSpec(buf, name, width, height, xHot, yHot).Success?
    requires EndsWith(name, "_width")
    ensures ParseHeader(EncodeSpec(buf, name, width, height, xHot, yHot).value, 0, TrimAll) == Failure(InvalidHeader)
  {
    var text := EncodeSpec(buf, name, width, height, xHot, yHot).value;
    AppendAssoc(HeaderText(name, width, height, xHot, yHot), DataLines(PackRows(buf, width)), "};\n");
    HeaderLosesName(text, name, width, height, xHot, yHot, DataLines(PackRows(buf, width)) + "};\n");
  }

  /** A concrete case: a one-pixel image named `a_width`. */
  lemma WidthSuffixExample(name: string)
    requires name == "a_width"
    ensures EncodeSpec([0], name, 1, 1, None, None).Success?
    ensures ParseHeader(EncodeSpec([0], name, 1, 1, None, None).value, 0, TrimAll) == Failure(InvalidHeader)
  {
    assert IsIdentifier(name) by {
      assert forall i :: 1 <= i < |name| ==> IsXidContinue(name[i]);
    }
    assert EndsWith(name, "_width");
    WidthSuffixBreaksRoundTrip([0], name, 1, 1, None, None);
  }
}
