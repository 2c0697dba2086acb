/**
 * `Decoder`: it reads the header when it is created, keeps the stream positioned at the
 * start of the pixel data, and decodes the pixels into a caller's buffer.
 */
module Decode {
  import opened Wrappers
  import opened Text
  import opened Numbers
  import opened Ident
  import opened Bits
  import opened Stream
  import opened DecodeHeader
  import opened DecodePixels

  class Decoder {
    const reader: Reader
    const name: string
    const width: U32
    const height: U32
    const xHot: Option<U32>
    const yHot: Option<U32>

    /** What every decoder `new` returns satisfies: a C identifier as its name and a
        hotspot that is either wholly present or wholly absent. */
    ghost predicate Valid() {
      IsIdentifier(name) && (xHot.Some? <==> yHot.Some?)
    }

    /** Whether this decoder holds exactly the header `h` found. */
    ghost predicate Holds(h: Header) {
      name == h.name && width == h.width && height == h.height && xHot == h.xHot && yHot == h.yHot
    }

    constructor (reader: Reader, name: string, width: U32, height: U32, xHot: Option<U32>, yHot: Option<U32>)
      requires IsIdentifier(name) && (xHot.Some? <==> yHot.Some?)
      ensures this.reader == reader && this.name == name && this.width == width && this.height == height
      ensures this.xHot == xHot && this.yHot == yHot
      ensures Valid()
    {
      this.reader := reader;
      this.name := name;
      this.width := width;
      this.height := height;
      this.xHot := xHot;
      this.yHot := yHot;
    }

    /** `Decoder::new`: reads the header line by line, putting back an absent hotspot line by
        seeking to the position saved after the height line, and leaves the stream just
        past the first `{` of the declaration. `rule` says how the `_width` suffix comes off
        the name: `TrimAll` is the source's `trim_end_matches`, `StripOnce` the correction
        under which every name the encoder accepts reads back. */
    static method New(reader: Reader, rule: SuffixRule) returns (r: Result<Decoder, Error>)
      modifies reader
      ensures match ParseHeader(reader.text, old(reader.cursor), rule)
              case Failure(e) => r == Failure(e)
              case Success(h) => && r.Success? && r.value.reader == reader && r.value.Holds(h)
                                 && r.value.Valid() && reader.cursor == h.dataStart
    {
      ParseHeaderSteps(reader.text, reader.cursor, rule);
      var line := reader.ReadLine();
      var first := WidthLine(line, rule);
      if first.Failure? {
        return Failure(first.error);
      }
      var name := first.value.0;

      line := reader.ReadLine();
      var second := KeyedLine(line, name + "_height");
      if second.Failure? {
        return Failure(second.error);
      }

      var header := ReadTail(reader, name, first.value.1, second.value);
      if header.Failure? {
        return Failure(header.error);
      }
      var decoder := new Decoder(reader, name, header.value.width, header.value.height, header.value.xHot, header.value.yHot);
      return Success(decoder);
    }

    /** The rest of `Decoder::new` once the height line is read: the hotspot lines, each put
        back by seeking to the position saved here when absent, then the declaration. */
    static method ReadTail(reader: Reader, name: string, width: U32, height: U32) returns (r: Result<Header, Error>)
      requires IsIdentifier(name)
      modifies reader
      ensures r == HeaderTail(reader.text, old(reader.cursor), name, width, height)
      ensures r.Success? ==> reader.cursor == r.value.dataStart
    {
      var pos := reader.StreamPosition();
      var x := ReadHotspot(reader, name + "_x_hot", pos);
      if x.Failure? {
        return Failure(x.error);
      }
      var y := ReadHotspot(reader, name + "_y_hot", pos);
      if y.Failure? {
        return Failure(y.error);
      }
      var xHot, yHot := x.value, y.value;
      if xHot.Some? != yHot.Some? {
        return Failure(InvalidHeader);
      }
      var declared := ReadDeclaration(reader, name);
      if declared.Failure? {
        return Failure(declared.error);
      }
      return Success(Header(name, width, height, xHot, yHot, reader.cursor));
    }

    /** One tentative hotspot line of `Decoder::new`: a line that does not start with
        `#define` is put back by seeking to `back`. */
    static method ReadHotspot(reader: Reader, key: string, back: nat) returns (r: Result<Option<U32>, Error>)
      modifies reader
      ensures match Hotspot(reader.text, old(reader.cursor), key, back)
              case Failure(e) => r == Failure(e)
              case Success((v, p)) => r == Success(v) && reader.cursor == p
    {
      var line := reader.ReadLine();
      match HotLine(line, key) {
        case None =>
          reader.Seek(back);
          return Success(None);
        case Some(Failure(e)) =>
          return Failure(e);
        case Some(Success(v)) =>
          return Success(Some(v));
      }
    }

    /** The declaration step of `Decoder::new`: the line must start with one of the two
        accepted declarations, and the stream is left just past its first `{`. */
    static method ReadDeclaration(reader: Reader, name: string) returns (r: Result<(), Error>)
      modifies reader
      ensures match Declaration(reader.text, old(reader.cursor), name)
              case Failure(e) => r == Failure(e)
              case Success(p) => r.Success? && reader.cursor == p
    {
      var pos := reader.StreamPosition();
      var line := reader.ReadLine();
      match DeclarationOffset(line, name) {
        case None =>
          return Failure(InvalidHeader);
        case Some(index) =>
          reader.Seek(pos + index);
          return Success(());
      }
    }

    /** `Decoder::name`: the name the width line gave, a C identifier. */
    function Name(): (n: string)
      requires Valid()
      ensures IsIdentifier(n)
      ensures forall h :: Holds(h) ==> n == h.name
    {
      name
    }

    /** `Decoder::width` */
    function Width(): (w: U32)
      ensures forall h :: Holds(h) ==> w == h.width
    {
      width
    }

    /** `Decoder::height` */
    function Height(): (ht: U32)
      ensures forall h :: Holds(h) ==> ht == h.height
    {
      height
    }

    /** `Decoder::x_hot`: present exactly when the y coordinate is. */
    function XHot(): (x: Option<U32>)
      requires Valid()
      ensures x.Some? <==> YHot().Some?
      ensures forall h :: Holds(h) ==> x == h.xHot
    {
      xHot
    }

    /** `Decoder::y_hot`: present exactly when the x coordinate is. */
    function YHot(): (y: Option<U32>)
      requires Valid()
      ensures y.Some? <==> xHot.Some?
      ensures forall h :: Holds(h) ==> y == h.yHot
    {
      yHot
    }

    /** `Decoder::decode`: the lines after the declaration's `{` are read with one line of
        lookahead, and each hex byte's pixels are copied into `buf` at `pos`. The buffer ends
        up holding the pixels the specification writes, followed by what it held before. */
    method Decode(buf: array<Byte>) returns (outcome: Outcome<()>, ghost written: seq<Byte>)
      requires buf.Length == width * height
      modifies reader, buf
      ensures (outcome, written) == DecodeSpec(old(reader.Rest()), width, buf.Length)
      ensures |written| <= buf.Length && buf[..] == written + old(buf[..])[|written|..]
    {
      ghost var rest := Lines(reader.Rest());
      ghost var goal := RunLines(rest, Progress([], width), width, buf.Length);
      written := [];
      var pixels := new Byte[8];
      var remainingPixels: nat := width;
      var pos: nat := 0;

      var next := reader.ReadLine();
      if next != [] {
        LinesAfterRead(reader.text, old(reader.cursor));
      }
      while next != []
        invariant next == [] <==> rest == []
        invariant next != [] ==> rest == [StripLineEnd(next)] + Lines(reader.Rest())
        invariant pos == |written| <= buf.Length
        invariant buf[..] == written + old(buf[..])[pos..]
        invariant goal == RunLines(rest, Progress(written, remainingPixels), width, buf.Length)
        decreases |rest|
      {
        var line;
        line, next := ReadAhead(next, rest);
        RunLinesStep(rest, Progress(written, remainingPixels), width, buf.Length);
        var status;
        pos, remainingPixels, status, written := DecodeLine(line, next == [], buf, pixels, pos, remainingPixels, written, old(buf[..]));
        if status.Stopped? {
          return status.outcome, written;
        }
        rest := rest[1..];
      }

      if pos == buf.Length {
        return Done(()), written;
      } else {
        return Failed(InvalidImageSize(pos)), written;
      }
    }

    /** The lookahead step of `Decoder::decode`: the current line trimmed, and the next
        one read, which is empty exactly when the current line is the last. */
    method ReadAhead(next0: string, ghost rest: seq<string>) returns (line: string, next: string)
      requires next0 != [] && rest == [StripLineEnd(next0)] + Lines(reader.Rest())
      modifies reader
      ensures line == Trim(rest[0]) && (next == [] <==> |rest| == 1)
      ensures next != [] ==> rest[1..] == [StripLineEnd(next)] + Lines(reader.Rest())
    {
      line := Trim(StripLineEnd(next0));
      ghost var at := reader.cursor;
      next := reader.ReadLine();
      if next != [] {
        LinesAfterRead(reader.text, at);
      }
    }

    /** One trimmed line inside `Decoder::decode`: the last line must end in `};`, which is
        removed, and an empty remainder ends the decoding; the rest of the line's hex bytes
        are written to `buf`. */
    method DecodeLine(line: string, last: bool, buf: array<Byte>, pixels: array<Byte>, pos0: nat, remaining0: nat,
                      ghost written0: seq<Byte>, ghost initial: seq<Byte>)
      returns (pos: nat, remainingPixels: nat, status: Status, ghost written: seq<Byte>)
      requires pixels.Length == 8 && pixels != buf && |initial| == buf.Length
      requires pos0 == |written0| <= buf.Length && buf[..] == written0 + initial[pos0..]
      modifies buf, pixels
      ensures LineStep(line, last, Progress(written0, remaining0), width, buf.Length) == (Progress(written, remainingPixels), status)
      ensures pos == |written| <= buf.Length && buf[..] == written + initial[pos..]
    {
      pos, remainingPixels, written := pos0, remaining0, written0;
      var body := line;
      if last {
        if !EndsWith(line, "};") {
          return pos, remainingPixels, Stopped(Failed(InvalidTermination)), written;
        }
        body := TrimEndMatches(line, "};");
        if body == [] {
          return pos, remainingPixels, Running, written;
        }
      }
      pos, remainingPixels, status, written := DecodeTokens(LineTokens(body), buf, pixels, pos, remainingPixels, written, initial);
    }

    /** The loop over one line's tokens inside `Decoder::decode`: each hex byte's pixels are
        expanded into `pixels` and copied into `buf` at `pos`. */
    method DecodeTokens(tokens: seq<string>, buf: array<Byte>, pixels: array<Byte>, pos0: nat, remaining0: nat,
                      ghost written0: seq<Byte>, ghost initial: seq<Byte>)
      returns (pos: nat, remainingPixels: nat, status: Status, ghost written: seq<Byte>)
      requires pixels.Length == 8 && pixels != buf && |initial| == buf.Length
      requires pos0 == |written0| <= buf.Length && buf[..] == written0 + initial[pos0..]
      modifies buf, pixels
      ensures RunTokens(tokens, Progress(written0, remaining0), width, buf.Length) == (Progress(written, remainingPixels), status)
      ensures pos == |written| <= buf.Length && buf[..] == written + initial[pos..]
    {
      pos, remainingPixels, written := pos0, remaining0, written0;
      var j := 0;
      ghost var rest := tokens;
      while j < |tokens|
        invariant 0 <= j <= |tokens| && rest == tokens[j..]
        invariant pos == |written| <= buf.Length
        invariant buf[..] == written + initial[pos..]
        invariant RunTokens(tokens, Progress(written0, remaining0), width, buf.Length)
               == RunTokens(rest, Progress(written, remainingPixels), width, buf.Length)
        decreases |tokens| - j
      {
        var token := tokens[j];
        assert rest[0] == token;
        ghost var st := Progress(written, remainingPixels);
        if j + 1 == |tokens| && token == [] {
          RunTokensUnfold(rest, st, width, buf.Length);
          break;
        }
        var parsed := TokenByte(token);
        if parsed.Failure? {
          RunTokensUnfold(rest, st, width, buf.Length);
          return pos, remainingPixels, Stopped(Failed(parsed.error)), written;
        }
        var b := parsed.value;
        var fits;
        pos, remainingPixels, fits, written := WriteByte(b, buf, pixels, pos, remainingPixels, written, initial);
        if !fits {
          RunTokensUnfold(rest, st, width, buf.Length);
          return pos, remainingPixels, Stopped(Panicked), written;
        }
        RunTokensStep(rest, st, width, buf.Length, b);
        assert rest[1..] == tokens[j + 1..];
        rest := rest[1..];
        j := j + 1;
      }
      status := Running;
    }

    /** The pixels of one byte copied into `buf` at `pos`: `min(8, remaining)` of them, or a
        panic when they do not fit. */
    method WriteByte(b: Byte, buf: array<Byte>, pixels: array<Byte>, pos0: nat, remaining0: nat,
                     ghost written0: seq<Byte>, ghost initial: seq<Byte>)
      returns (pos: nat, remainingPixels: nat, fits: bool, ghost written: seq<Byte>)
      requires pixels.Length == 8 && pixels != buf && |initial| == buf.Length
      requires pos0 == |written0| <= buf.Length && buf[..] == written0 + initial[pos0..]
      modifies buf, pixels
      ensures var next := Feed(Progress(written0, remaining0), b, width, buf.Length);
              && (fits <==> next.Some?)
              && (fits ==> next.value == Progress(written, remainingPixels))
              && (!fits ==> written == written0 && remainingPixels == remaining0)
      ensures pos == |written| <= buf.Length && buf[..] == written + initial[pos..]
    {
      pos, remainingPixels, written := pos0, remaining0, written0;
      ExpandByte(b, pixels);
      if remainingPixels < 8 {
        if pos + remainingPixels > buf.Length {
          return pos, remainingPixels, false, written;
        }
        ghost var before := buf[..];
        CopyRun(buf, pos, pixels, remainingPixels);
        AppendRun(before, written, initial, pixels[..remainingPixels], buf[..]);
        written := written + pixels[..remainingPixels];
        pos := pos + remainingPixels;
        remainingPixels := width;
      } else {
        if pos + 8 > buf.Length {
          return pos, remainingPixels, false, written;
        }
        ghost var before := buf[..];
        CopyRun(buf, pos, pixels, 8);
        AppendRun(before, written, initial, pixels[..8], buf[..]);
        written := written + pixels[..8];
        pos := pos + 8;
        remainingPixels := remainingPixels - 8;
        if remainingPixels == 0 {
          remainingPixels := width;
        }
      }
      fits := true;
    }

    /** `(byte >> i) & 1` for each of the eight pixels of a byte, least significant bit first. */
    static method ExpandByte(b: Byte, pixels: array<Byte>)
      requires pixels.Length == 8
      modifies pixels
      ensures pixels[..] == ByteBits(b)
    {
      for k := 0 to 8
        invariant forall m :: 0 <= m < k ==> pixels[m] == Bit(b, m)
      {
        pixels[k] := Bit(b, k);
      }
    }

    /** Copying a run over the buffer `written + initial[pos..]` at `pos` gives `written + run + initial[pos + |run|..]`. */
    static lemma AppendRun(before: seq<Byte>, written: seq<Byte>, initial: seq<Byte>, run: seq<Byte>, after: seq<Byte>)
      requires |written| + |run| <= |initial| == |before|
      requires before == written + initial[|written|..]
      requires after == before[..|written|] + run + before[|written| + |run|..]
      ensures after == (written + run) + initial[|written + run|..]
    {
      assert before[..|written|] == written;
      assert before[|written| + |run|..] == initial[|written| + |run|..];
    }

    /** `buf[pos..pos + n].copy_from_slice(&pixels[..n])` */
    static method CopyRun(buf: array<Byte>, pos: nat, pixels: array<Byte>, n: nat)
      requires pos + n <= buf.Length && n <= pixels.Length && pixels != buf
      modifies buf
      ensures buf[..] == old(buf[..pos]) + pixels[..n] + old(buf[pos + n..])
    {
      forall m | 0 <= m < n {
        buf[pos + m] := pixels[m];
      }
    }

    /** `Decoder::decode_to_vec`: decodes into a fresh zeroed buffer of `width * height`
        pixels and returns it on success. */
    method DecodeToVec() returns (outcome: Outcome<seq<Byte>>)
      modifies reader
      ensures outcome == DecodeVecSpec(old(reader.Rest()), width, width * height)
    {
      ghost var spec := DecodeSpec(reader.Rest(), width, width * height);
      var buf := new Byte[width * height](_ => 0);
      assert DecodeSpec(reader.Rest(), width, buf.Length) == spec;
      var o, written := Decode(buf);
      if o.Done? {
        assert |spec.1| == buf.Length;
        assert buf[..] == spec.1;
        outcome := Done(buf[..]);
      } else if o.Failed? {
        outcome := Failed(o.error);
      } else {
        outcome := Panicked;
      }
    }
  }
}
