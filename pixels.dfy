/**
 * What `Decoder::decode` does with the text after the declaration's `{`, stated as
 * functions: the lines are trimmed, the last one must end in `};`, each line is cut into
 * comma-separated hex bytes, and each byte gives up to eight pixels of the current row.
 * The buffer is the pixels written so far (`pos` is their count) followed by whatever the
 * buffer held before.
 */
module DecodePixels {
  import opened Wrappers
  import opened Text
  import opened Numbers
  import opened Bits
  import opened DecodeHeader

  /** How `decode` ends: `Ok`, an `Err`, or a panic from a slice index past the buffer's end. */
  datatype Outcome<+T> = Done(value: T) | Failed(error: Error) | Panicked

  /** The pixel loop's state: the pixels written so far and how many pixels the current row still needs. */
  datatype Progress = Progress(written: seq<Byte>, remaining: nat)

  /** Whether the loop over a line's tokens ran to the end of the line or stopped the decoding. */
  datatype Status = Running | Stopped(outcome: Outcome<()>)

  /** Removing the `0x` of a four-char token leaves its last two chars, except that `0x0x`
      loses both copies. */
  lemma HexPrefixTrim(token: string)
    requires |token| == 4 && StartsWith(token, "0x")
    ensures TrimStartMatches(token, "0x") == if token[2..] == "0x" then [] else token[2..]
  {
    var t := token[2..];
    assert TrimStartMatches(token, "0x") == TrimStartMatches(t, "0x");
    assert |t| == 2 && t[..2] == t;
    if t == "0x" {
      assert t[2..] == [];
      assert TrimStartMatches(t, "0x") == TrimStartMatches([], "0x");
    }
  }

  /** One token as a byte: it must be four ASCII chars starting with a lower-case `0x`, and
      the rest must be a base-16 `u8`. A rejected token is carried in the error. */
  function TokenByte(token: string): (r: Result<Byte, Error>)
    ensures r.Failure? ==> r.error.InvalidHexByte? || r.error.ParseInt?
    ensures r.Failure? && r.error.InvalidHexByte? <==> !IsAscii(token) || |token| != 4 || !StartsWith(token, "0x")
    ensures r.Failure? && r.error.InvalidHexByte? ==> r.error.token == token
    ensures r.Success? ==> FromStrRadix(token[2..], 16, 255) == Success(r.value)
  {
    if !IsAscii(token) || |token| != 4 || !StartsWith(token, "0x") then Failure(InvalidHexByte(token))
    else HexDigits(token)
  }

  /** `u8::from_str_radix(token.trim_start_matches("0x"), 16)` for a token already known to
      be four chars starting with `0x`. */
  function HexDigits(token: string): (r: Result<Byte, Error>)
    requires |token| == 4 && StartsWith(token, "0x")
    ensures r.Failure? ==> r.error.ParseInt?
    ensures r.Success? ==> FromStrRadix(token[2..], 16, 255) == Success(r.value)
    ensures token[2..] != "0x" ==> r.Success? == FromStrRadix(token[2..], 16, 255).Success?
  {
    HexPrefixTrim(token);
    match FromStrRadix(TrimStartMatches(token, "0x"), 16, 255)
    case Failure(kind) => Failure(ParseInt(kind))
    case Success(b) => Success(b)
  }

  /** One byte into the buffer: `min(8, remaining)` of its pixels are written at `pos`; a
      short run ends the row, as does a full run that exactly completes it. A run past the
      buffer's end is the out-of-bounds slice. */
  function Feed(st: Progress, b: Byte, width: nat, bufLen: nat): (r: Option<Progress>)
    ensures r.None? <==> |st.written| + Min(8, st.remaining) > bufLen
    ensures r.Some? ==> r.value.written == st.written + ByteBits(b)[..Min(8, st.remaining)]
    ensures r.Some? ==> r.value.remaining == if st.remaining <= 8 then width else st.remaining - 8
  {
    if st.remaining < 8 then
      if |st.written| + st.remaining > bufLen then None
      else Some(Progress(st.written + ByteBits(b)[..st.remaining], width))
    else if |st.written| + 8 > bufLen then None
    else
      var remaining := st.remaining - 8;
      Some(Progress(st.written + ByteBits(b), if remaining == 0 then width else remaining))
  }

  /** The row-wrap invariant: the pixels written fit the buffer and are all 0 or 1, the
      current row's count lies in `1..=width` (0 only for an empty row), and the pixels
      written plus those still missing make up whole rows, so every row begins on a fresh byte. */
  ghost predicate WellFormed(st: Progress, width: nat, bufLen: nat) {
    && |st.written| <= bufLen
    && AllPixels(st.written)
    && st.remaining <= width
    && (width > 0 ==> 1 <= st.remaining && (|st.written| + st.remaining) % width == 0)
  }

  lemma AddWholeRow(x: nat, width: nat)
    requires width > 0 && x % width == 0
    ensures (x + width) % width == 0
  {
    var q, q', r := x / width, (x + width) / width, (x + width) % width;
    assert x == q * width;
    assert x + width == q' * width + r;
    var k := q + 1 - q';
    assert r == k * width;
    if k >= 1 {
      assert k * width == width + (k - 1) * width;
    }
  }

  lemma WholeRow(width: nat)
    ensures width > 0 ==> width % width == 0
  {
    if width > 0 {
      AddWholeRow(0, width);
    }
  }

  /** Every byte keeps the row-wrap invariant and advances `pos` by `min(8, remaining)`. */
  lemma FeedKeepsRows(st: Progress, b: Byte, width: nat, bufLen: nat)
    requires Feed(st, b, width, bufLen).Some?
    ensures var st' := Feed(st, b, width, bufLen).value;
            |st'.written| == |st.written| + Min(8, st.remaining)
            && (WellFormed(st, width, bufLen) ==> WellFormed(st', width, bufLen))
  {
    var st' := Feed(st, b, width, bufLen).value;
    if !WellFormed(st, width, bufLen) {
      return;
    }
    var run := ByteBits(b)[..Min(8, st.remaining)];
    assert st'.written == st.written + run;
    assert AllPixels(st'.written) by {
      forall i | 0 <= i < |st'.written| ensures IsPixel(st'.written[i]) {
        if i >= |st.written| {
          assert st'.written[i] == run[i - |st.written|] == Bit(b, i - |st.written|);
        }
      }
    }
    if width > 0 && st.remaining <= 8 {
      AddWholeRow(|st.written| + st.remaining, width);
    }
  }

  /** The tokens of one line, left to right, until one stops the decoding; an empty last
      token (a trailing comma) is skipped. */
  function RunTokens(tokens: seq<string>, st: Progress, width: nat, bufLen: nat): (r: (Progress, Status))
    ensures WellFormed(st, width, bufLen) ==> WellFormed(r.0, width, bufLen)
    ensures st.written <= r.0.written
    ensures r.1.Stopped? ==> r.1.outcome.Panicked? || (r.1.outcome.Failed? && (r.1.outcome.error.InvalidHexByte? || r.1.outcome.error.ParseInt?))
    decreases |tokens|
  {
    if tokens == [] || (|tokens| == 1 && tokens[0] == []) then (st, Running)
    else match TokenByte(tokens[0])
      case Failure(e) => (st, Stopped(Failed(e)))
      case Success(b) =>
        match Feed(st, b, width, bufLen)
        case None => (st, Stopped(Panicked))
        case Some(st') =>
          FeedKeepsRows(st, b, width, bufLen);
          RunTokens(tokens[1..], st', width, bufLen)
  }

  /** One token that yields a byte the buffer has room for: the rest of the line continues
      from the state that byte leaves. */
  /** The ways the token loop can end at its first token. */
  lemma RunTokensUnfold(tokens: seq<string>, st: Progress, width: nat, bufLen: nat)
    requires tokens != []
    ensures |tokens| == 1 && tokens[0] == [] ==> RunTokens(tokens, st, width, bufLen) == (st, Running)
    ensures var t := TokenByte(tokens[0]);
            !(|tokens| == 1 && tokens[0] == []) && t.Failure?
            ==> RunTokens(tokens, st, width, bufLen) == (st, Stopped(Failed(t.error)))
    ensures var t := TokenByte(tokens[0]);
            !(|tokens| == 1 && tokens[0] == []) && t.Success? && Feed(st, t.value, width, bufLen).None?
            ==> RunTokens(tokens, st, width, bufLen) == (st, Stopped(Panicked))
  {
  }

  lemma RunTokensStep(tokens: seq<string>, st: Progress, width: nat, bufLen: nat, b: Byte)
    requires tokens != [] && !(|tokens| == 1 && tokens[0] == [])
    requires TokenByte(tokens[0]) == Success(b) && Feed(st, b, width, bufLen).Some?
    ensures RunTokens(tokens, st, width, bufLen) == RunTokens(tokens[1..], Feed(st, b, width, bufLen).value, width, bufLen)
  {
  }

  /** The end of `decode`: success exactly when the pixels written fill the buffer. */
  function Finish(st: Progress, bufLen: nat): (r: (Outcome<()>, seq<Byte>))
    ensures r.1 == st.written
    ensures r.0.Done? <==> |st.written| == bufLen
    ensures !r.0.Done? ==> r.0 == Failed(InvalidImageSize(|st.written|))
  {
    if |st.written| == bufLen then (Done(()), st.written) else (Failed(InvalidImageSize(|st.written|)), st.written)
  }

  /** The tokens a line yields: split on `,` (dropping an empty last piece), each one trimmed. */
  function LineTokens(line: string): (r: seq<string>)
    ensures |r| == |SplitTerminator(line, ',')|
    ensures forall i :: 0 <= i < |r| ==> r[i] == Trim(SplitTerminator(line, ',')[i])
    ensures forall i :: 0 <= i < |r| ==> ',' !in r[i]
    ensures forall i :: 0 <= i < |r| ==> r[i] == [] || (!IsWhitespace(r[i][0]) && !IsWhitespace(r[i][|r[i]| - 1]))
  {
    var pieces := SplitTerminator(line, ',');
    var r := TrimEach(pieces);
    assert forall i :: 0 <= i < |r| ==> ',' !in r[i] by {
      forall i | 0 <= i < |r| ensures ',' !in r[i] {
        TrimNotIn(pieces[i], ',');
      }
    }
    r
  }

  /** One trimmed line. The last must end in `};`, which is removed (with any copies
      before it); if nothing is left the decoding ends there. Otherwise its tokens run. */
  function LineStep(line: string, last: bool, st: Progress, width: nat, bufLen: nat): (r: (Progress, Status))
    ensures WellFormed(st, width, bufLen) ==> WellFormed(r.0, width, bufLen)
    ensures st.written <= r.0.written
    ensures last && !EndsWith(line, "};") ==> r == (st, Stopped(Failed(InvalidTermination)))
    ensures r.1.Stopped? ==> || r.1.outcome.Panicked?
                             || (&& r.1.outcome.Failed?
                                 && (|| r.1.outcome.error.InvalidTermination?
                                     || r.1.outcome.error.InvalidHexByte?
                                     || r.1.outcome.error.ParseInt?))
  {
    if last && !EndsWith(line, "};") then (st, Stopped(Failed(InvalidTermination)))
    else
      var body := if last then TrimEndMatches(line, "};") else line;
      if last && body == [] then (st, Running)
      else RunTokens(LineTokens(body), st, width, bufLen)
  }

  /** The remaining lines, each one trimmed, until one stops the decoding. */
  function RunLines(lines: seq<string>, st: Progress, width: nat, bufLen: nat): (r: (Outcome<()>, seq<Byte>))
    ensures WellFormed(st, width, bufLen) ==> |r.1| <= bufLen && AllPixels(r.1)
    ensures st.written <= r.1
    ensures r.0.Done? ==> |r.1| == bufLen
    decreases |lines|
  {
    if lines == [] then Finish(st, bufLen)
    else
      var step := LineStep(Trim(lines[0]), |lines| == 1, st, width, bufLen);
      if step.1.Stopped? then (step.1.outcome, step.0.written)
      else
        var r := RunLines(lines[1..], step.0, width, bufLen);
        PrefixTransitive(st.written, step.0.written, r.1);
        r
  }

  /** The first line and the lines after it. */
  lemma RunLinesStep(lines: seq<string>, st: Progress, width: nat, bufLen: nat)
    requires lines != []
    ensures var step := LineStep(Trim(lines[0]), |lines| == 1, st, width, bufLen);
            RunLines(lines, st, width, bufLen)
            == if step.1.Stopped? then (step.1.outcome, step.0.written) else RunLines(lines[1..], step.0, width, bufLen)
  {
  }

  /** How the decoding of the lines can fail: a line stops it with a bad termination, a
      bad token or a panic, or the end finds the buffer not full and reports how much was
      written. */
  lemma {:induction false} RunLinesErrors(lines: seq<string>, st: Progress, width: nat, bufLen: nat)
    ensures var r := RunLines(lines, st, width, bufLen);
            r.0.Failed? ==> || r.0.error.InvalidTermination?
                            || r.0.error.InvalidHexByte?
                            || r.0.error.ParseInt?
                            || (r.0.error.InvalidImageSize? && r.0.error.size == |r.1| != bufLen)
    decreases |lines|
  {
    if lines != [] {
      var step := LineStep(Trim(lines[0]), |lines| == 1, st, width, bufLen);
      if step.1.Running? {
        RunLinesErrors(lines[1..], step.0, width, bufLen);
      }
    }
  }

  lemma PrefixTransitive<T>(a: seq<T>, b: seq<T>, c: seq<T>)
    requires a <= b && b <= c
    ensures a <= c
  {
  }

  /** `decode` on the text after the declaration's `{`, for a buffer of `bufLen` pixels:
      how it ends and the pixels it has written to the front of the buffer by then. */
  function DecodeSpec(rest: string, width: nat, bufLen: nat): (r: (Outcome<()>, seq<Byte>))
    ensures |r.1| <= bufLen && AllPixels(r.1)
    ensures r.0.Done? ==> |r.1| == bufLen
  {
    WholeRow(width);
    var start := Progress([], width);
    assert WellFormed(start, width, bufLen);
    RunLines(Lines(rest), start, width, bufLen)
  }

  /** `decode_to_vec` on the text after the declaration's `{`: the whole image of `size`
      pixels when the decoding succeeds, or how it failed. */
  function DecodeVecSpec(rest: string, width: nat, size: nat): (r: Outcome<seq<Byte>>)
    ensures r.Done? <==> DecodeSpec(rest, width, size).0.Done?
    ensures r.Done? ==> |r.value| == size && AllPixels(r.value)
    ensures r.Failed? ==> DecodeSpec(rest, width, size).0 == Failed(r.error)
  {
    var (o, written) := DecodeSpec(rest, width, size);
    match o
    case Done(_) => Done(written)
    case Failed(e) => Failed(e)
    case Panicked => Panicked
  }

  /** How `decode` can fail: `InvalidTermination`, `InvalidHexByte`, `ParseInt`, or, when
      the lines run out before the buffer is full, `InvalidImageSize` with the number of
      pixels written; never `InvalidHeader`. */
  lemma DecodeErrors(rest: string, width: nat, bufLen: nat)
    ensures var r := DecodeSpec(rest, width, bufLen);
            r.0.Failed? ==> || r.0.error.InvalidTermination?
                            || r.0.error.InvalidHexByte?
                            || r.0.error.ParseInt?
                            || (r.0.error.InvalidImageSize? && r.0.error.size == |r.1| != bufLen)
  {
    RunLinesErrors(Lines(rest), Progress([], width), width, bufLen);
  }
}
