/**
 * The `BufRead + Seek` stream the decoder reads from: a fixed text and a cursor into it.
 * `read_line`, `stream_position` and `seek` are cursor operations. Positions count chars
 * where the source counts bytes; for ASCII input the two agree.
 */
module Stream {
  import opened Text

  class Reader {
    const text: string
    var cursor: nat

    constructor (text: string, cursor: nat)
      ensures this.text == text && this.cursor == cursor
    {
      this.text := text;
      this.cursor := cursor;
    }

    /** What is left to read. */
    function Rest(): (r: string)
      reads this
      ensures cursor <= |text| ==> text == text[..cursor] + r
      ensures cursor > |text| ==> r == []
    {
      RestFrom(text, cursor)
    }

    /** `BufRead::read_line`: the next line, newline included, or "" at the end of the stream. */
    method ReadLine() returns (line: string)
      modifies this
      ensures line == ReadLineFrom(text, old(cursor))
      ensures cursor == NextLine(text, old(cursor))
      ensures old(Rest()) == line + Rest()
      ensures line == [] <==> old(Rest()) == []
    {
      line := ReadLineFrom(text, cursor);
      cursor := cursor + |line|;
    }

    /** `Seek::stream_position` */
    method StreamPosition() returns (p: nat)
      ensures p == cursor
    {
      p := cursor;
    }

    /** `Seek::seek(SeekFrom::Start(p))` */
    method Seek(p: nat)
      modifies this
      ensures cursor == p
    {
      cursor := p;
    }
  }
}
