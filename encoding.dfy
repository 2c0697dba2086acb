/**
 * What `Encoder::encode` writes, stated as functions: the checks it makes before writing
 * anything, the header lines, and the pixel data packed row by row, eight pixels to a byte,
 * printed twelve bytes to a line.
 */
module EncodeFormat {
  import opened Wrappers
  import opened Numbers
  import opened Bits
  import opened Text
  import opened Ident
  import DecodeHeader

  /** The two `io::ErrorKind`s the encoder reports when it refuses its input. */
  datatype ErrorKind = InvalidData | InvalidInput

  /** The `io::Error` the encoder returns: a kind and its message. */
  datatype EncodeError = EncodeError(kind: ErrorKind, message: string)

  const NotBinary := EncodeError(InvalidData, "`buf` contains values other than `0` and `1`")
  const BadName := EncodeError(InvalidData, "invalid C identifier prefix")
  const LoneHotspot := EncodeError(InvalidInput, "only one of `x_hot` and `y_hot` is `Some`")

  /** `writeln!("#define {name}{key} {value}")` */
  function DefineLine(name: string, key: string, value: U32): (r: string)
    ensures StartsWith(r, "#define ") && EndsWith(r, " " + Decimal(value) + "\n")
    ensures '\n' !in name + key ==> '\n' !in r[..|r| - 1]
  {
    "#define " + name + key + " " + Decimal(value) + "\n"
  }

  /** A hotspot line, written only when the hotspot is given. */
  function HotspotLine(name: string, key: string, value: Option<U32>): (r: string)
    ensures r == [] <==> value.None?
    ensures value.Some? ==> r == DefineLine(name, key, value.value)
  {
    match value
    case None => ""
    case Some(v) => DefineLine(name, key, v)
  }

  /** `writeln!("static unsigned char {name}_bits[] = {{")` */
  function DeclarationLine(name: string): (r: string)
    ensures StartsWith(r, "static unsigned char ") && EndsWith(r, "{\n")
    ensures '{' !in name ==> '{' !in r[..|r| - 2]
  {
    DecodeHeader.UnsignedDeclaration(name) + "\n"
  }

  /** Everything before the pixel data: the defines, then the declaration line. */
  function HeaderText(name: string, width: U32, height: U32, xHot: Option<U32>, yHot: Option<U32>): (r: string)
    ensures StartsWith(r, DefineLine(name, "_width", width) + DefineLine(name, "_height", height))
    ensures EndsWith(r, DeclarationLine(name))
    ensures xHot.None? && yHot.None?
            ==> r == DefineLine(name, "_width", width) + DefineLine(name, "_height", height) + DeclarationLine(name)
  {
    DefineLine(name, "_width", width) + DefineLine(name, "_height", height)
    + HotspotLine(name, "_x_hot", xHot) + HotspotLine(name, "_y_hot", yHot)
    + DeclarationLine(name)
  }

  /** One row as `chunks(8)` packs it: pixel `i` of a chunk at bit `i`, a short last chunk
      padded with zero bits. */
  function RowBytes(row: seq<Byte>): (r: seq<Byte>)
    requires AllPixels(row)
    ensures |r| == (|row| + 7) / 8
    decreases |row|
  {
    if row == [] then []
    else
      var n := Min(8, |row|);
      PackByteUnpacks(row[..n]);
      [PackByte(row[..n])] + RowBytes(row[n..])
  }

  /** The image as `chunks(width)` cuts it into rows, each row packed on its own, so no byte
      holds pixels of two rows. */
  function PackRows(buf: seq<Byte>, width: nat): (r: seq<Byte>)
    requires width > 0 && AllPixels(buf)
    ensures r == [] <==> buf == []
    ensures |buf| <= width ==> r == RowBytes(buf)
    decreases |buf|
  {
    if buf == [] then []
    else
      var n := Min(width, |buf|);
      assert |buf| <= width ==> buf[..n] == buf && buf[n..] == [];
      RowBytes(buf[..n]) + PackRows(buf[n..], width)
  }

  /** The bytes as `{:#04X}` strings joined by `, `. */
  function HexList(bytes: seq<Byte>): (r: string)
    ensures |r| == if bytes == [] then 0 else 6 * |bytes| - 2
    ensures bytes != [] ==> StartsWith(r, HexByte(bytes[0]))
  {
    if bytes == [] then []
    else if |bytes| == 1 then HexByte(bytes[0])
    else HexByte(bytes[0]) + ", " + HexList(bytes[1..])
  }

  /** One data line: a four-space indent, the bytes, a trailing comma. */
  function DataLine(bytes: seq<Byte>): (r: string)
    ensures StartsWith(r, "    ") && EndsWith(r, ",\n")
    ensures |r| == |HexList(bytes)| + 6
  {
    "    " + HexList(bytes) + ",\n"
  }

  /** The data lines: twelve bytes to a line, the last line holding what is left over. */
  function DataLines(bytes: seq<Byte>): (r: string)
    ensures r == [] <==> bytes == []
    ensures bytes != [] ==> EndsWith(r, ",\n")
    decreases |bytes|
  {
    if bytes == [] then []
    else if |bytes| <= 12 then DataLine(bytes)
    else DataLine(bytes[..12]) + DataLines(bytes[12..])
  }

  /** The text `encode` writes for an accepted image. */
  function EncodeText(buf: seq<Byte>, name: string, width: U32, height: U32, xHot: Option<U32>, yHot: Option<U32>): (r: string)
    requires width > 0 && AllPixels(buf)
    ensures StartsWith(r, HeaderText(name, width, height, xHot, yHot)) && EndsWith(r, "};\n")
    ensures buf == [] ==> r == HeaderText(name, width, height, xHot, yHot) + "};\n"
  {
    HeaderText(name, width, height, xHot, yHot) + DataLines(PackRows(buf, width)) + "};\n"
  }

  /** How a call to `encode` ends: it returns its result, or it panics. */
  datatype Ending = Returned(result: Result<(), EncodeError>) | Panicked

  /** `encode` on an image whose size matches its dimensions: the first check that fails,
      in the source's order, or the text written. The checks come first for every width;
      only an image that passes them all needs a nonzero width, since `chunks(0)` panics. */
  function EncodeSpec(buf: seq<Byte>, name: string, width: U32, height: U32, xHot: Option<U32>, yHot: Option<U32>)
    : (r: Result<string, EncodeError>)
    requires width > 0 || !(AllPixels(buf) && IsIdentifier(name) && (xHot.Some? <==> yHot.Some?))
    ensures r.Success? <==> AllPixels(buf) && IsIdentifier(name) && (xHot.Some? <==> yHot.Some?)
    ensures r.Success? ==> AllPixels(buf) && r.value == EncodeText(buf, name, width, height, xHot, yHot)
    ensures !AllPixels(buf) ==> r == Failure(NotBinary)
    ensures r == Failure(BadName) <==> AllPixels(buf) && !IsIdentifier(name)
    ensures r == Failure(LoneHotspot) <==> AllPixels(buf) && IsIdentifier(name) && (xHot.Some? != yHot.Some?)
  {
    if !AllPixels(buf) then Failure(NotBinary)
    else if !IsIdentifier(name) then Failure(BadName)
    else if xHot.Some? != yHot.Some? then Failure(LoneHotspot)
    else Success(EncodeText(buf, name, width, height, xHot, yHot))
  }

  /** The first row of the image and the rows after it. */
  lemma PackRowsStep(buf: seq<Byte>, width: nat)
    requires width > 0 && AllPixels(buf) && buf != []
    ensures var n := Min(width, |buf|);
            AllPixels(buf[..n]) && AllPixels(buf[n..])
            && PackRows(buf, width) == RowBytes(buf[..n]) + PackRows(buf[n..], width)
  {
  }

  /** The first chunk of a row and the chunks after it. */
  lemma RowBytesStep(row: seq<Byte>)
    requires AllPixels(row) && row != []
    ensures var n := Min(8, |row|);
            AllPixels(row[..n]) && AllPixels(row[n..]) && |row[..n]| <= 8
            && RowBytes(row) == [PackByte(row[..n])] + RowBytes(row[n..])
  {
  }

  /** Twelve bytes make one line, ahead of the lines of what follows. */
  lemma DataLinesFlush(line: seq<Byte>, more: seq<Byte>)
    requires |line| == 12
    ensures DataLines(line + more) == DataLine(line) + DataLines(more)
  {
    var all := line + more;
    assert all[..12] == line && all[12..] == more;
    if more == [] {
      assert all == line;
    }
  }

  /** A full line's worth of bytes is one data line. */
  lemma DataLinesOfLine(bytes: seq<Byte>)
    requires 0 < |bytes| <= 12
    ensures DataLines(bytes) == DataLine(bytes)
  {
  }

  /** An image of `height` rows of `width` pixels packs into `ceil(width / 8)` bytes per row. */
  lemma {:induction false} PackRowsLength(buf: seq<Byte>, width: nat, height: nat)
    requires width > 0 && AllPixels(buf) && |buf| == width * height
    ensures |PackRows(buf, width)| == height * ((width + 7) / 8)
    decreases height
  {
    if height > 0 {
      var q := (width + 7) / 8;
      MulPred(width, height);
      MulPred(q, height);
      assert width <= |buf|;
      PackRowsStep(buf, width);
      PackRowsLength(buf[width..], width, height - 1);
    }
  }
}
