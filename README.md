# XBM codec model

This project models the codec of the `xbm` Rust crate. The crate reads and writes X11 bitmaps
(XBM), which are small C source files: `#define` lines give the width, the height and an
optional hotspot, and a `static unsigned char <name>_bits[]` array holds the pixels. The pixels
are packed eight to a byte, least significant bit first. Every row starts on a fresh byte, and
the bytes are printed as `0x..` hex literals, twelve to a line.

Modules:

- `Wrappers`: `Option` and `Result`.
- `Text`: the parts of Rust's `str` and `BufRead` that the codec relies on, such as `split_whitespace`, `trim`, `split`, `split_terminator`, `trim_end_matches`, `find`, `read_line` and `lines`.
- `Numbers`: `u32::from_str`, `u8::from_str_radix(_, 16)`, and the `{}` and `{:#04X}` formats.
- `Ident`: the identifier test both halves apply, one XID_Start char followed by XID_Continue chars.
- `Bits`: how a byte unpacks into pixels and how pixels pack into a byte.
- `Stream`: the decoder's `BufRead + Seek` input, a text with a cursor.
- `DecodeHeader`: what `Decoder::new` accepts, as functions of the text and the cursor.
- `DecodePixels`: what `Decoder::decode` does with the lines after the declaration's `{`, as functions.
- `Decode`: the `Decoder` class. `New` reads, seeks and puts lines back on a `Reader`. `Decode` fills a caller's array in place with the source's nested loops. Each method is proved against the functions above.
- `EncodeFormat`: what `Encoder::encode` writes, as functions, including the validation order and the exact error messages.
- `Encode`: the `Encoder` class. It appends to its writer with the source's loops over rows and 8-pixel chunks, and with the 12-byte pending line. It is proved against `EncodeFormat`.
- `RoundTrip`: the decoder reads back what the encoder writes.

The round trip covers every image of 0/1 pixels with a positive width and a valid name. The
decoder finds the same name, dimensions and hotspot, and `decode_to_vec` returns the same
pixels. The one exception is a name that itself ends in `_width` (see Findings).

The model follows the code on these points:

- A hex token must start with a lower-case `0x`. `0X` is rejected as `InvalidHexByte`, because the check is `starts_with("0x")`.
- The encoder returns an `InvalidData`/`InvalidInput` error for a non-0/1 pixel, a bad name or a lone hotspot. It does not panic on these.
- The `0x` prefix is removed with `trim_start_matches`, so the token `0x0x` leaves an empty string. It fails as a `ParseInt` error of kind `Empty`.

## Model

| member | source | states |
|---|---|---|
| Text.TrimStart | src/decode.rs:343 | `trim_start` drops only whitespace, and what it keeps is a suffix that does not start with whitespace |
| Text.TrimEnd | src/decode.rs:343 | `trim_end` drops only whitespace, and what it keeps is a prefix that does not end with whitespace |
| Text.Trim | src/decode.rs:343 | `trim` leaves text that neither starts nor ends with whitespace; it is empty exactly when the input is all whitespace |
| Text.TrimNotIn | src/decode.rs:357 | trimming only removes chars, so a char absent from the input is absent from the result |
| Text.TrimPadded | src/decode.rs:357 | trimming whitespace padding off a word gives the word |
| Text.WordLength | src/decode.rs:52 | the leading run of non-whitespace chars ends at whitespace or at the end |
| Text.SplitWhitespace | src/decode.rs:52 | every token of `split_whitespace` is nonempty and holds no whitespace |
| Text.SplitWhitespaceSkip | src/decode.rs:52 | whitespace in front of the text adds no token |
| Text.SplitWhitespaceWord | src/decode.rs:52 | a nonempty text without whitespace is exactly one token |
| Text.SplitWhitespaceCons | src/decode.rs:52 | a word followed by whitespace is the first token of the text |
| Text.SplitWhitespaceThree | src/decode.rs:52 | `a b c\n` splits into exactly the tokens `a`, `b`, `c` |
| Text.IndexOf | src/decode.rs:138-139 | `find` gives the first occurrence of the char, or none when the char is absent |
| Text.IndexOfAppend | src/decode.rs:138-139 | the first occurrence in `a + b`, when `a` lacks the char, is the length of `a` plus its index in `b` |
| Text.Split | src/decode.rs:355-356 | `split` yields at least one piece, and no piece holds the separator |
| Text.JoinSplit | src/decode.rs:355-356 | joining the pieces of `split` with the separator gives the input back |
| Text.SplitJoin | src/decode.rs:355-356 | splitting a join of separator-free pieces gives the pieces back, so `split` is the only such cut |
| Text.SplitTerminator | src/decode.rs:356 | `split_terminator` gives the pieces of `split`, dropping the last one only when it is empty; no piece holds the separator, and the empty text has no pieces |
| Text.TrimEach | src/decode.rs:357 | `map(str::trim)` gives one token per piece, that piece trimmed |
| Text.TrimEndMatches | src/decode.rs:59 | `trim_end_matches` leaves a prefix of the input that no longer ends with the pattern, and leaves the input alone when it does not end with the pattern |
| Text.TrimStartMatches | src/decode.rs:371 | `trim_start_matches` leaves a suffix of the input that no longer starts with the pattern, and leaves the input alone when it does not start with the pattern |
| Text.TrimEndMatchesCopies | src/decode.rs:59 | what `trim_end_matches` removes is nothing but copies of the pattern, so the input is the result followed by those copies |
| Text.TrimStartMatchesCopies | src/decode.rs:371 | what `trim_start_matches` removes is nothing but copies of the pattern, so the input is those copies followed by the result |
| Text.LineLength | src/decode.rs:51 | `read_line` consumes at least one char of a nonempty stream and never more than it holds |
| Text.LineLengthOf | src/decode.rs:51 | on `a\n...` with no newline in `a`, `read_line` consumes `a` and its newline |
| Text.ReadLineOf | src/decode.rs:51 | at a cursor in front of `a\n...`, `read_line` returns `a\n` |
| Text.ReadLineFrom | src/decode.rs:51 | `read_line` returns a prefix of what is left to read: up to and including the first newline, or all that is left when no newline follows; it returns nothing exactly at the end |
| Text.StripLineEnd | src/decode.rs:340-341 | a line yielded by `lines` loses one `\n` or `\r\n` terminator and nothing else |
| Text.Lines | src/decode.rs:340-341 | no line that `lines` yields holds a newline |
| Text.LinesAfterRead | src/decode.rs:340-341 | `lines` yields the line `read_line` would read, without its terminator, and then the lines after it |
| Text.LinesCons | src/decode.rs:340-341 | `lines` on `a\n...` yields `a` first |
| Numbers.DigitValue | src/decode.rs:372 | a char is a digit of the radix exactly when it is a decimal digit or a letter of either case below the radix, and its value is below the radix |
| Numbers.Accumulate | src/decode.rs:372 | the digit loop never exceeds the type's maximum and never fails with `Empty` |
| Numbers.FromStrRadix | src/decode.rs:372 | `from_str_radix` fails with `Empty` exactly on the empty string, and any value it returns fits the type |
| Numbers.ParseU32 | src/decode.rs:68 | a value `u32::from_str` returns fits a `u32`, and it fails with `Empty` exactly on the empty string |
| Numbers.AccumulateValue | src/decode.rs:372 | over valid digits the loop gives their positional value, and fails with `PosOverflow` exactly when that value exceeds the maximum |
| Numbers.AccumulateInvalid | src/decode.rs:372 | any char that is not a digit of the radix makes the parse fail |
| Numbers.AccumulateSnoc | src/decode.rs:372 | one more digit multiplies the value so far by the radix and adds the digit, or overflows |
| Numbers.Decimal | src/encode.rs:116-122 | `{}` prints a nonempty string of decimal digits with no leading zero |
| Numbers.ParseDecimal | src/encode.rs:116-122 | `u32::from_str` reads back any `u32` that `{}` printed |
| Numbers.UpperHexDigitValue | src/encode.rs:137 | an upper-case hex digit parses back to its value |
| Numbers.HexByte | src/encode.rs:137 | `{:#04X}` gives four chars: `0x` then two upper-case hex digits |
| Numbers.HexByteParses | src/encode.rs:137 | `{:#04X}` prints four ASCII chars, `0x` and two hex digits, and `from_str_radix(_, 16)` reads the byte back from them |
| Ident.IdentifierChars | src/decode.rs:60-64 | an identifier holds no whitespace, `{`, `,` or line break, so it stays a single token |
| Ident.IdentifierAppend | src/encode.rs:116-125 | an identifier followed by identifier chars is still an identifier |
| Ident.RejectedNames | src/decode.rs:56-67 | the names that `_width`, `__width` and `0_width` leave (empty, leading `_`, leading digit) are rejected |
| Bits.Shr | src/decode.rs:374-376 | `b >> i` is the floor of `b / 2^i` |
| Bits.Bit | src/decode.rs:374-376 | `(byte >> i) & 1` is 0 or 1 |
| Bits.ByteBits | src/decode.rs:374-376 | a byte gives eight pixels, pixel `i` being bit `i` |
| Bits.PackByteBound | src/encode.rs:128-132 | a run of `n` pixels packs into a value below 2^n |
| Bits.PackByteSnoc | src/encode.rs:130-132 | putting `pixel << i` into the accumulator adds `pixel * 2^i`; that sum equals the OR, because bit `i` of the value so far is clear (`PackByteBits`) |
| Bits.PackByteBits | src/encode.rs:128-132 | bit `i` of a packed run is its pixel `i`, and bits past the run are zero |
| Bits.PackByteUnpacks | src/encode.rs:128-132 | a run of at most eight pixels fits a byte, and unpacking that byte gives the run back |
| Stream.Reader.Rest | src/decode.rs:51 | what is left to read is the text after the cursor |
| Stream.Reader.ReadLine | src/decode.rs:51 | `read_line` returns the next line and moves the cursor past it; it returns nothing only at the end |
| Stream.Reader.StreamPosition | src/decode.rs:88 | `stream_position` is the cursor |
| Stream.Reader.Seek | src/decode.rs:105 | `seek(SeekFrom::Start(p))` sets the cursor to `p` |
| Stream.Reader.constructor | src/decode.rs:49 | the stream holds the given text with the cursor at the given position |
| DecodeHeader.NameOf | src/decode.rs:56-67 | a name comes only from a `_width` token and is an identifier; a `_width` token whose remainder under the rule is an identifier always gives that remainder. Under the source's rule the name no longer ends in `_width`; under the corrected rule it is the token minus one suffix |
| DecodeHeader.DefineValue | src/decode.rs:68-73 | the value token is accepted exactly when it is the last of three tokens and parses. A third token that does not parse is `ParseInt` with its kind, and that is the only source of `ParseInt`; fewer than three tokens, or an extra token after a good integer, is `InvalidHeader` |
| DecodeHeader.WidthLine | src/decode.rs:50-73 | the width line is accepted exactly when it has three tokens: `#define`, `<name>_width` with a valid name, and a `u32`. It fails with `ParseInt` exactly when the first two tokens are good and the third does not parse, and with `InvalidHeader` otherwise |
| DecodeHeader.KeyedLine | src/decode.rs:75-86 | a `#define` line is accepted exactly when it has three tokens with the expected key and a `u32`. It fails with `ParseInt` exactly when `#define` and the key are right and the third token does not parse, and with `InvalidHeader` otherwise |
| DecodeHeader.HotLine | src/decode.rs:90-107 | a hotspot line is absent exactly when its first token is not `#define`; otherwise it must be exactly `#define <name>_x_hot <u32>` |
| DecodeHeader.UnsignedDeclaration | src/decode.rs:135 | the declaration starts with `static unsigned char ` and ends with `<name>_bits[] = {`, and, for a name without `{`, that final `{` is its only one |
| DecodeHeader.SignedDeclaration | src/decode.rs:136 | the declaration starts with `static char ` and ends with `<name>_bits[] = {`, and, for a name without `{`, that final `{` is its only one |
| DecodeHeader.DeclarationOffset | src/decode.rs:132-151 | the declaration is accepted exactly when the line starts with one of the two prefixes, and the data starts just past the first `{` |
| DecodeHeader.BraceInDeclaration | src/decode.rs:138-147 | an accepted declaration line always has a `{`, so the `find` never fails there |
| DecodeHeader.Hotspot | src/decode.rs:88-126 | a present hotspot moves past its line; an absent one puts the cursor back at the position saved after the height line |
| DecodeHeader.ParseHeader | src/decode.rs:49-161 | a successful `new` has an identifier name, both hotspot coordinates or neither, and a data start past the cursor |
| DecodeHeader.HeaderTail | src/decode.rs:88-151 | after the height line, both hotspot lines or neither (else `InvalidHeader`), then the declaration |
| DecodeHeader.Declaration | src/decode.rs:132-151 | the declaration fails only with `InvalidHeader`, and the data starts within its line |
| Decode.Decoder.constructor | src/decode.rs:152-160 | the decoder holds exactly the fields it was given |
| Decode.Decoder.New | src/decode.rs:49-161 | `new` fails exactly as the header specification does; on success the decoder holds the parsed header and the stream sits at the start of the pixel data. `TrimAll` is the source's rule for the `_width` suffix, `StripOnce` the corrected one |
| Decode.Decoder.ReadTail | src/decode.rs:88-151 | the hotspot and declaration steps, with the cursor saved after the height line |
| Decode.Decoder.ReadHotspot | src/decode.rs:90-126 | one tentative hotspot line, put back by a seek when absent |
| Decode.Decoder.ReadDeclaration | src/decode.rs:132-151 | the stream is left at the declaration line's start plus the index of its first `{` plus one |
| Decode.Decoder.Name | src/decode.rs:178-181 | the name is an identifier, the name of the header the decoder holds |
| Decode.Decoder.Width | src/decode.rs:198-201 | `width` is the width of the header the decoder holds |
| Decode.Decoder.Height | src/decode.rs:218-221 | `height` is the height of the header the decoder holds |
| Decode.Decoder.XHot | src/decode.rs:246-249 | `x_hot` is present exactly when `y_hot` is, and is the held header's x coordinate |
| Decode.Decoder.YHot | src/decode.rs:274-277 | `y_hot` is present exactly when `x_hot` is, and is the held header's y coordinate |
| Decode.Decoder.Decode | src/decode.rs:324-401 | `decode` ends as the pixel specification says, and the buffer holds the pixels written followed by its old contents |
| Decode.Decoder.ReadAhead | src/decode.rs:340-345 | the lookahead: the current line trimmed, and whether it is the last |
| Decode.Decoder.DecodeLine | src/decode.rs:343-392 | one line: a last line must end in `};`, which is removed, and an empty remainder stops |
| Decode.Decoder.DecodeTokens | src/decode.rs:355-391 | the token loop writes exactly what the token specification writes |
| Decode.Decoder.WriteByte | src/decode.rs:374-390 | one byte writes `min(8, remaining_pixels)` pixels at `pos`, or panics when they do not fit |
| Decode.Decoder.ExpandByte | src/decode.rs:374-376 | `pixels` holds the byte's eight bits, least significant first |
| Decode.Decoder.AppendRun | src/decode.rs:379-384 | copying a run into the buffer at `pos` extends what is written and keeps the rest |
| Decode.Decoder.CopyRun | src/decode.rs:379-384 | `copy_from_slice` changes exactly `buf[pos..pos + n]` |
| Decode.Decoder.DecodeToVec | src/decode.rs:444-451 | `decode_to_vec` returns the whole image exactly when decoding a zeroed `width * height` buffer succeeds |
| DecodePixels.HexPrefixTrim | src/decode.rs:371 | removing `0x` from a token leaves its last two chars, except that `0x0x` leaves nothing |
| DecodePixels.TokenByte | src/decode.rs:365-372 | a token is `InvalidHexByte` carrying the token exactly when it is non-ASCII, not four chars, or lacks the `0x` prefix; otherwise the byte is the base-16 value of its last two chars, or a `ParseInt` error |
| DecodePixels.HexDigits | src/decode.rs:371-372 | the two digits after `0x` parse as a base-16 `u8` |
| DecodePixels.LineTokens | src/decode.rs:355-357 | a line gives one token per piece of `split_terminator(',')`, that piece trimmed: no token holds a comma or starts or ends with whitespace |
| DecodePixels.Feed | src/decode.rs:374-390 | one byte adds its first `min(8, remaining)` pixels; a run that ends or completes the row resets the count to the width; a run past the buffer is the out-of-bounds panic |
| DecodePixels.FeedKeepsRows | src/decode.rs:378-390 | each byte advances `pos` by `min(8, remaining_pixels)` and keeps the row-wrap invariant: pixels are 0/1, `remaining_pixels` is in `1..=width`, and rows start on fresh bytes |
| DecodePixels.RunTokens | src/decode.rs:360-391 | the token loop keeps the row-wrap invariant, only extends what is written, and stops only on a bad token or a panic |
| DecodePixels.Finish | src/decode.rs:394-398 | decoding succeeds exactly when `pos == buf.len()`, and otherwise fails with `InvalidImageSize(pos)` |
| DecodePixels.LineStep | src/decode.rs:343-391 | a last line not ending in `};` is `InvalidTermination`; a line keeps the invariant and stops only with the listed errors |
| DecodePixels.RunLines | src/decode.rs:341-398 | the lines write 0/1 pixels that fit the buffer, and success fills it |
| DecodePixels.RunLinesErrors | src/decode.rs:341-398 | a failure is a bad termination, a bad token, or a short image reporting the pixels written |
| DecodePixels.DecodeSpec | src/decode.rs:324-401 | `decode` writes only 0/1 pixels within the buffer, and on success fills it |
| DecodePixels.DecodeVecSpec | src/decode.rs:444-451 | `decode_to_vec` succeeds exactly when `decode` does, with a full image of 0/1 pixels, and passes its errors on |
| DecodePixels.DecodeErrors | src/decode.rs:345-398 | `decode` fails only with `InvalidTermination`, `InvalidHexByte`, `ParseInt`, or `InvalidImageSize` holding the count written; never `InvalidHeader` |
| EncodeFormat.DefineLine | src/encode.rs:116-122 | a `#define` line starts with `#define ` and ends with a space, the value in decimal and a newline; it is a single line when the name and key hold no newline |
| EncodeFormat.HotspotLine | src/encode.rs:118-123 | a hotspot line is written exactly when the coordinate is given, and it is then the `#define` line for it |
| EncodeFormat.DeclarationLine | src/encode.rs:125 | the declaration line starts with `static unsigned char ` and ends with `{` and a newline; it has no other `{` when the name has none |
| EncodeFormat.HeaderText | src/encode.rs:116-125 | the header starts with the width and height defines and ends with the declaration line; without a hotspot it is exactly those three lines |
| EncodeFormat.RowBytes | src/encode.rs:128-133 | a row packs into `ceil(len / 8)` bytes |
| EncodeFormat.PackRows | src/encode.rs:127-133 | an image packs into no bytes exactly when it has no pixels, and an image of at most one row packs as that row alone |
| EncodeFormat.HexList | src/encode.rs:135-139 | `n` printed bytes joined by `, ` take `6n - 2` chars and start with the first byte |
| EncodeFormat.DataLine | src/encode.rs:140 | a data line is indented by four spaces, ends with a comma and a newline, and is six chars longer than its list of bytes |
| EncodeFormat.DataLines | src/encode.rs:134-152 | there are data lines exactly when there are bytes, and then the text ends with a comma and a newline |
| EncodeFormat.EncodeText | src/encode.rs:116-153 | the text starts with the header and ends with `};` and a newline; with no pixels it is just those two |
| EncodeFormat.EncodeSpec | src/encode.rs:92-153 | `encode` succeeds exactly for 0/1 pixels, an identifier name and a paired hotspot, and then writes the XBM text; otherwise it returns the first failing check in the order pixels, name, hotspot; the checks are stated for every width, and only an image that passes them needs a nonzero width |
| EncodeFormat.DataLinesFlush | src/encode.rs:134-142 | twelve pending bytes make one line ahead of the lines that follow |
| EncodeFormat.DataLinesOfLine | src/encode.rs:145-152 | a partial group of bytes is flushed as one line |
| EncodeFormat.PackRowsLength | src/encode.rs:127-133 | an image of `height` rows packs into `height * ceil(width / 8)` bytes |
| Encode.Encoder.constructor | src/encode.rs:26-28 | the encoder owns the writer it is given |
| Encode.Encoder.Encode | src/encode.rs:67-164 | a refused image returns the first failing check's error (pixels, then name, then hotspot pairing) and writes nothing, whatever its width; an accepted image of zero width writes its header and then panics in `chunks(0)`; any other accepted image appends exactly the XBM text |
| Encode.Encoder.WriteHeader | src/encode.rs:116-125 | the two defines, the hotspot defines only when given, then the declaration line |
| Encode.Encoder.WriteData | src/encode.rs:126-152 | the rows' packed bytes printed twelve to a line, then the leftover partial line |
| Encode.Encoder.WriteRow | src/encode.rs:128-143 | one row's chunks packed and pushed, with the 12-byte flush |
| Encode.Encoder.Push | src/encode.rs:133-142 | pushing a byte keeps fewer than twelve pending, writing a line when twelve accumulate |
| Encode.AnyAboveOne | src/encode.rs:92 | some pixel is above 1 exactly when the buffer is not all 0/1 |
| Encode.PackChunk | src/encode.rs:129-132 | the accumulator loop computes the packed byte of the chunk |
| RoundTrip.HexByteChars | src/encode.rs:137 | a printed byte is four chars starting with `0` |
| RoundTrip.TokenOfHexByte | src/encode.rs:137 | the decoder's token check reads back a byte the encoder printed |
| RoundTrip.HexTokens | src/encode.rs:137 | the tokens of printed bytes, one per byte |
| RoundTrip.FeedBytesAppend | src/decode.rs:374-390 | feeding two byte lists in turn is feeding their concatenation |
| RoundTrip.TokensFeed | src/decode.rs:360-391 | the tokens of printed bytes run as feeding those bytes |
| RoundTrip.HexListChars | src/encode.rs:135-139 | the joined bytes contain only hex chars, commas and spaces |
| RoundTrip.HexPieces | src/encode.rs:135-139 | one piece per printed byte |
| RoundTrip.SplitHexList | src/decode.rs:356 | splitting the joined bytes and trailing comma gives one piece per byte and an empty last piece |
| RoundTrip.LineTokensOfHexList | src/decode.rs:355-357 | a data line's list of bytes yields exactly the printed bytes as tokens |
| RoundTrip.PiecesOfHexList | src/decode.rs:356 | `split_terminator` drops the empty last piece |
| RoundTrip.TrimmedPieces | src/decode.rs:357 | each trimmed piece is the printed byte |
| RoundTrip.TrimPieces | src/decode.rs:357 | trimming a padded printed byte gives the byte |
| RoundTrip.TrimToken | src/decode.rs:357 | trimming a padded token gives the token |
| RoundTrip.DataTextShape | src/encode.rs:140 | a data line holds no line break and does not end in `\r` |
| RoundTrip.DataTextTrim | src/decode.rs:343 | trimming a data line leaves the bytes and the trailing comma |
| RoundTrip.DataLineText | src/encode.rs:140 | a written data line is its text and a newline |
| RoundTrip.LinesOfData | src/decode.rs:340-341 | `lines` yields the data lines one per line |
| RoundTrip.FeedRow | src/decode.rs:378-390 | a packed row unpacks to the row and resets `remaining_pixels` to the width |
| RoundTrip.FeedImage | src/decode.rs:378-390 | the packed rows unpack to the image |
| RoundTrip.RunDataLines | src/decode.rs:341-398 | decoding the data lines and `};` writes the bytes' pixels and finishes |
| RoundTrip.ClosingLine | src/decode.rs:345-352 | a last line `};` ends the decoding |
| RoundTrip.ClosingStep | src/decode.rs:345-352 | a last line `};` stops with nothing left to decode |
| RoundTrip.DataLineStep | src/decode.rs:355-391 | a data line feeds its bytes |
| RoundTrip.EmptyLine | src/decode.rs:343-363 | the empty rest of the declaration line writes nothing |
| RoundTrip.LinesBlank | src/decode.rs:340 | the rest of the declaration line is an empty line |
| RoundTrip.LinesClose | src/decode.rs:340 | `};\n` is one line |
| RoundTrip.LinesOfBody | src/decode.rs:340 | the text after the `{` is an empty line, the data lines, then `};` |
| RoundTrip.DecodeBody | src/decode.rs:324-401 | decoding the text the encoder writes after the `{` gives back the image |
| RoundTrip.KeyedName | src/encode.rs:116-122 | a name and a key make one token with no line break |
| RoundTrip.DecimalWord | src/encode.rs:116-122 | printed digits make one token with no line break |
| RoundTrip.DefineLineShape | src/encode.rs:116-122 | a `#define` line is one line ended by its newline |
| RoundTrip.DefineWords | src/decode.rs:52 | a written `#define` line splits into `#define`, the key and the digits |
| RoundTrip.DefineParses | src/decode.rs:75-126 | the decoder reads back a written `#define` line for the same key |
| RoundTrip.NameComesBack | src/decode.rs:56-67 | the name comes back off `<name>_width` with one suffix removed, and under the source's rule only when it does not end in `_width` |
| RoundTrip.WidthParses | src/decode.rs:50-73 | the width line reads back the name and the width |
| RoundTrip.DeclarationIsNoDefine | src/decode.rs:93-112 | the declaration line is not a hotspot line |
| RoundTrip.DeclarationBrace | src/decode.rs:135-148 | the declaration line the encoder writes is accepted, with the data just past its `{` |
| RoundTrip.DeclarationBraceIndex | src/decode.rs:138-139 | the first `{` is the one at the end of the declaration |
| RoundTrip.DeclarationPrefix | src/encode.rs:125 | the declaration before its `{` has no `{` and no line break |
| RoundTrip.HotspotPresent | src/decode.rs:90-103 | a written hotspot line is read back and consumed |
| RoundTrip.HotspotAbsent | src/decode.rs:104-106 | with no hotspot written, the declaration line is put back |
| RoundTrip.DeclarationAt | src/decode.rs:132-151 | the written declaration is accepted and the data starts after its `{` |
| RoundTrip.TailParses | src/decode.rs:88-151 | the written hotspot and declaration lines read back |
| RoundTrip.HeaderLines | src/decode.rs:50-76 | the first two lines read are the width and height defines |
| RoundTrip.HeaderParses | src/decode.rs:49-161 | `new` on the written header finds the name, dimensions and hotspot, with the data after the `{` |
| RoundTrip.HeaderLosesName | src/decode.rs:56-86 | under the source's rule, a name ending in `_width` makes the written header fail with `InvalidHeader` |
| RoundTrip.WidthLineShortens | src/decode.rs:56-73 | under the source's rule, `<name>_width` with a name ending in `_width` gives a shorter name or fails |
| RoundTrip.HeightKeyMismatch | src/decode.rs:78-80 | a height line keyed by another name is `InvalidHeader` |
| RoundTrip.RoundTripWith | src/encode.rs:67-164 | for either suffix rule that gives the name back, decoding the encoder's text gives the header and the pixels |
| RoundTrip.RoundTrip | src/encode.rs:116-153 | decoding what the encoder writes gives back the name, dimensions, hotspot and pixels, for every name not ending in `_width` |
| RoundTrip.RoundTripStripOnce | src/decode.rs:56-67 | with one suffix copy removed, the round trip holds for every name the encoder accepts |
| RoundTrip.WidthSuffixBreaksRoundTrip | src/decode.rs:59 | the source's decoder rejects what the encoder writes for any name ending in `_width` |
| RoundTrip.WidthSuffixExample | src/decode.rs:59 | the one-pixel image named `a_width` is accepted by the encoder and rejected by the decoder |

Proof helpers with no row of their own, each a single unfolding or regrouping step used by the lemmas above: `DecodeHeader.ParseHeaderSteps`, `DecodeHeader.ReadLineWithin`, `DecodePixels.RunTokensStep`, `DecodePixels.RunTokensUnfold`, `DecodePixels.RunLinesStep`, `DecodePixels.AddWholeRow`, `DecodePixels.WholeRow`, `EncodeFormat.PackRowsStep`, `EncodeFormat.RowBytesStep`, `Bits.Pow2`, `Bits.HalveBounds`, `Bits.ShrZero`, `Bits.Pow2Monotone`, `Numbers.MulPred`, `Numbers.MulGrows`, `Numbers.DecimalAccumulates`, `DecodePixels.PrefixTransitive`, `Text.LineHasNoNewline`, `Text.Repeat`, `Text.RepeatSnoc`, `Text.TrailingCopies`, `Text.LeadingCopies`, and in `RoundTrip` `DataLinesStep`, `FirstRow`, `ClosingTrim`, `ClosingBody`, `DefineWord`, `DefineLineWords`, `NotInAppend`, `Keys`, `SplitCons`, `HexPiecesIndex`, `TerminatorOfHexList`, `TrimEachTokens`, `DeclarationParts`, `DeclarationStatic`, `ReadLineAt`, `BodyLines`, `BodySpec`, `Regroup`, `EmptyPrefix`, `AppendEmpty`.

## Left out

- `Error::Io` and every `?` on an I/O call: the stream is a fixed text and the writer an append-only text, so neither can fail.
- Bytes versus chars: positions and lengths count chars where the source counts UTF-8 bytes. Names may hold non-ASCII identifier chars, but the cursor only ever moves by whole lines and by the index of the first `{` within a line, so every char offset the model computes lands at the same place in the text as the byte offset the source computes.
- Encode.PackChunk: `pixels |= pixel << i` is modelled as an addition of `pixel * 2^i`. The two agree because bit `i` of the accumulator is still clear when pixel `i` is added, which `Bits.PackByteSnoc` and `Bits.PackByteBits` state.
- The Unicode XID tables: beyond ASCII, XID_Start and XID_Continue are uninterpreted predicates. The model relies only on two facts of the real tables: XID_Start is part of XID_Continue, and no White_Space char is XID_Continue.
- The `image` crate adapters, `Display`, `source` and `From` for the errors, the library's re-exports, the examples and the benchmarks: these are glue and formatting.
- `ParseIntError` keeps only its kind (`Empty`, `InvalidDigit`, `PosOverflow`).
- Decode.Decoder.Decode: a buffer whose length is not `width * height` is a precondition, not the source's assertion panic. The out-of-bounds slice panic on excess data is modelled as the `Panicked` outcome.
- Decode.Decoder.Decode: `decode` takes the decoder by value in the source. The model does not stop a second call on the same object.
- Encode.Encoder.Encode: a buffer whose length is not `width * height` (the assertion) is a precondition. A zero width is not: its refusals are modelled, and an accepted zero-width image ends in the `Panicked` outcome after its header is written.
- Encode.Encoder.Encode: `encode` consumes the encoder in the source; the model keeps the object and its writer.
- `usize` overflow of `width * height` and the `u32`-to-`usize` conversions: integers are unbounded, and widths and heights stay within `u32`.
- `checked_add` and `u64::try_from` on the brace index: these cannot fail for a line that fits in memory.
- The `pixels` array in `decode` is modelled as an 8-element array; `pixels_chunk` in `encode` is the `pending` sequence.

## Findings

| source | as written | input that shows it | evidently intended | confidence | as-written member | corrected member |
|---|---|---|---|---|---|---|
| src/decode.rs:59 | the name is derived with `trim_end_matches("_width")`, which removes every trailing copy of the suffix | an image named `a_width`: the encoder writes `#define a_width_width 1`, the decoder derives the name `a`, then rejects `#define a_width_height 1` with `InvalidHeader` | remove exactly one `_width`, so every name the encoder accepts reads back | not executed | RoundTrip.WidthSuffixExample | RoundTrip.RoundTripStripOnce |

The header functions and `Decoder.New` take the suffix rule as a parameter. `TrimAll` is the source as written; `RoundTrip.WidthSuffixBreaksRoundTrip` proves that it rejects every encoded name ending in `_width`. `StripOnce` is the correction; `DecodeHeader.NameOf` under it gives back `token` minus one suffix, and `RoundTrip.RoundTripStripOnce` proves the round trip for every accepted name.
