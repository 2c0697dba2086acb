/**
 * `Encoder`: it owns a writer and `encode` appends an XBM image to it. The writer is an
 * append-only text that cannot fail, so the `?` error paths of the source never fire.
 */
module Encode {
  import opened Wrappers
  import opened Text
  import opened Numbers
  import opened Bits
  import opened Ident
  import opened EncodeFormat

  class Encoder {
    /** What has been written so far. */
    var writer: string

    /** `Encoder::new` */
    constructor (writer: string)
      ensures this.writer == writer
    {
      this.writer := writer;
    }

    /** `Encoder::encode`. A buffer whose length is not `width * height` is a panic in the
        source and a precondition here. The three checks run first, whatever the width: a
        refused image writes nothing and returns the first failing check's error. An accepted
        one of zero width writes its header and then panics in `chunks(0)`; any other accepted
        image appends the whole text. */
    method Encode(buf: seq<Byte>, name: string, width: U32, height: U32, xHot: Option<U32>, yHot: Option<U32>)
      returns (r: Ending)
      requires |buf| == width * height
      modifies this
      ensures if width == 0 && AllPixels(buf) && IsIdentifier(name) && (xHot.Some? <==> yHot.Some?)
              then r == Panicked && writer == old(writer) + HeaderText(name, width, height, xHot, yHot)
              else match EncodeSpec(buf, name, width, height, xHot, yHot)
                   case Failure(e) => r == Returned(Failure(e)) && writer == old(writer)
                   case Success(text) => r == Returned(Success(())) && writer == old(writer) + text
    {
      var notBinary := AnyAboveOne(buf);
      if notBinary {
        return Returned(Failure(NotBinary));
      }
      if !IsIdentifier(name) {
        return Returned(Failure(BadName));
      }
      if xHot.Some? != yHot.Some? {
        return Returned(Failure(LoneHotspot));
      }
      WriteHeader(name, width, height, xHot, yHot);
      if width == 0 {
        return Panicked;
      }
      WriteData(buf, width);
      writer := writer + "};\n";
      ghost var header, data := HeaderText(name, width, height, xHot, yHot), DataLines(PackRows(buf, width));
      AppendAssoc(old(writer), header, data);
      AppendAssoc(old(writer), header + data, "};\n");
      return Returned(Success(()));
    }

    /** The `#define` lines, the hotspot ones only when given, then the declaration line. */
    method WriteHeader(name: string, width: U32, height: U32, xHot: Option<U32>, yHot: Option<U32>)
      modifies this
      ensures writer == old(writer) + HeaderText(name, width, height, xHot, yHot)
    {
      var line := DefineLine(name, "_width", width);
      writer := writer + line;
      ghost var written := line;
      line := DefineLine(name, "_height", height);
      AppendAssoc(old(writer), written, line);
      writer, written := writer + line, written + line;
      assert writer == old(writer) + written;
      line := HotspotLine(name, "_x_hot", xHot);
      if xHot.Some? {
        line := DefineLine(name, "_x_hot", xHot.value);
        AppendAssoc(old(writer), written, line);
        writer := writer + line;
      } else {
        assert written + line == written;
      }
      written := written + line;
      assert writer == old(writer) + written;
      line := HotspotLine(name, "_y_hot", yHot);
      if yHot.Some? {
        line := DefineLine(name, "_y_hot", yHot.value);
        AppendAssoc(old(writer), written, line);
        writer := writer + line;
      } else {
        assert written + line == written;
      }
      written := written + line;
      assert writer == old(writer) + written;
      line := DeclarationLine(name);
      AppendAssoc(old(writer), written, line);
      writer := writer + line;
    }

    /** The pixel data: the rows of `buf.chunks(width)`, each taken off the front of what
        is left. */
    method WriteData(buf: seq<Byte>, width: nat)
      requires width > 0 && AllPixels(buf)
      modifies this
      ensures writer == old(writer) + DataLines(PackRows(buf, width))
    {
      ghost var goal := writer + DataLines(PackRows(buf, width));
      var pending: seq<Byte> := [];
      var rest := buf;
      assert pending + PackRows(rest, width) == PackRows(buf, width);
      while rest != []
        invariant AllPixels(rest)
        invariant |pending| < 12 && writer + DataLines(pending + PackRows(rest, width)) == goal
        decreases |rest|
      {
        var row := rest[..Min(width, |rest|)];
        PackRowsStep(rest, width);
        pending := WriteRow(row, pending, PackRows(rest[|row|..], width), goal);
        rest := rest[|row|..];
      }
      assert pending + PackRows(rest, width) == pending;
      if pending != [] {
        DataLinesOfLine(pending);
        writer := writer + DataLine(pending);
      } else {
        assert writer + DataLines(pending) == writer;
      }
    }

    /** One row: the chunks of `per_line.chunks(8)`, each packed into a byte and pushed. */
    method WriteRow(row: seq<Byte>, pending0: seq<Byte>, ghost after: seq<Byte>, ghost goal: string)
      returns (pending: seq<Byte>)
      requires AllPixels(row) && |pending0| < 12
      requires writer + DataLines(pending0 + (RowBytes(row) + after)) == goal
      modifies this
      ensures |pending| < 12 && writer + DataLines(pending + after) == goal
    {
      pending := pending0;
      var rest := row;
      while rest != []
        invariant AllPixels(rest)
        invariant |pending| < 12 && writer + DataLines(pending + (RowBytes(rest) + after)) == goal
        decreases |rest|
      {
        var chunk := rest[..Min(8, |rest|)];
        RowBytesStep(rest);
        var pixels := PackChunk(chunk);
        AppendAssoc([pixels], RowBytes(rest[|chunk|..]), after);
        pending := Push(pixels, pending, RowBytes(rest[|chunk|..]) + after, goal);
        rest := rest[|chunk|..];
      }
      assert RowBytes(rest) + after == after;
    }

    /** `pixels_chunk.push(pixels)`, and the line written and the chunk cleared when it
        holds twelve bytes. `todo` is what is still to come after this byte. */
    method Push(b: Byte, pending0: seq<Byte>, ghost todo: seq<Byte>, ghost goal: string) returns (pending: seq<Byte>)
      requires |pending0| < 12 && writer + DataLines(pending0 + ([b] + todo)) == goal
      modifies this
      ensures |pending| < 12 && writer + DataLines(pending + todo) == goal
    {
      AppendAssoc(pending0, [b], todo);
      pending := pending0 + [b];
      if |pending| == 12 {
        DataLinesFlush(pending, todo);
        AppendAssoc(writer, DataLine(pending), DataLines(todo));
        writer := writer + DataLine(pending);
        pending := [];
        assert pending + todo == todo;
      }
    }
  }

  /** `buf.iter().any(|&p| p > 1)` */
  method AnyAboveOne(buf: seq<Byte>) returns (found: bool)
    ensures found <==> !AllPixels(buf)
  {
    for i := 0 to |buf|
      invariant AllPixels(buf[..i])
    {
      if buf[i] > 1 {
        return true;
      }
    }
    assert buf[..|buf|] == buf;
    return false;
  }

  /** The accumulator loop `pixels |= pixel << i` over one chunk of at most eight pixels.
      The bits set by different pixels never overlap, so the OR is an addition. */
  method PackChunk(chunk: seq<Byte>) returns (pixels: Byte)
    requires AllPixels(chunk) && |chunk| <= 8
    ensures pixels == PackByte(chunk)
  {
    pixels := 0;
    for i := 0 to |chunk|
      invariant pixels == PackByte(chunk[..i])
    {
      PackByteSnoc(chunk[..i], chunk[i]);
      assert chunk[..i + 1] == chunk[..i] + [chunk[i]];
      PackByteUnpacks(chunk[..i + 1]);
      pixels := pixels + chunk[i] * Pow2(i);
    }
    assert chunk[..|chunk|] == chunk;
  }
}
