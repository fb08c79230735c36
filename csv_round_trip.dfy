/**
 * Reading the exporter's text back with the RFC 4180 reader gives the table
 * that was exported, cell for cell, whatever the cells contain (commas,
 * quotes, CR, LF), provided every row has at least one cell.
 */
module CsvRoundTrip {
  import opened Optional
  import opened CsvExport
  import opened Rfc4180

  /** What may follow a closing quote without being read as an escaped quote. */
  predicate NoQuoteAhead(rest: string)
  {
    rest == [] || rest[0] != Quote
  }

  /** The escaped text, then the closing quote, reads back as the original text. */
  lemma {:induction false} QuotedBodyOfEscaped(text: string, rest: string)
    requires NoQuoteAhead(rest)
    ensures QuotedBody(EscapeQuotes(text) + [Quote] + rest) == Some((text, rest))
    decreases |text|
  {
    var s := EscapeQuotes(text) + [Quote] + rest;
    if text == [] {
      assert s == [Quote] + rest;
      assert s[1..] == rest;
    } else if text[0] == Quote {
      assert s == [Quote, Quote] + (EscapeQuotes(text[1..]) + [Quote] + rest);
      assert s[2..] == EscapeQuotes(text[1..]) + [Quote] + rest;
      QuotedBodyOfEscaped(text[1..], rest);
      assert [DQuote] + text[1..] == text;
    } else {
      assert s == [text[0]] + (EscapeQuotes(text[1..]) + [Quote] + rest);
      assert s[1..] == EscapeQuotes(text[1..]) + [Quote] + rest;
      QuotedBodyOfEscaped(text[1..], rest);
      assert [text[0]] + text[1..] == text;
    }
  }

  /** One encoded field reads back as its cell text and leaves what follows. */
  lemma FieldOfEncoded(text: string, rest: string)
    requires NoQuoteAhead(rest)
    ensures Field(EncodeField(text) + rest) == Some((text, rest))
  {
    var s := EncodeField(text) + rest;
    assert s[1..] == EscapeQuotes(text) + [Quote] + rest;
    QuotedBodyOfEscaped(text, rest);
  }

  /** What may follow an encoded row: the end of the text, or CRLF and anything. */
  predicate RowEnd(tail: string)
  {
    tail == [] || (|tail| >= 2 && tail[0] == CR && tail[1] == LF)
  }

  function AfterRowEnd(tail: string): string
    requires RowEnd(tail)
  {
    if tail == [] then [] else tail[2..]
  }

  /** An encoded row with at least one cell reads back as one record with the same cells. */
  lemma {:induction false} RecordOfEncoded(cells: seq<string>, tail: string)
    requires |cells| >= 1
    requires RowEnd(tail)
    ensures Record(EncodeRow(cells) + tail) == Some((cells, AfterRowEnd(tail)))
    decreases |cells|
  {
    if |cells| == 1 {
      EncodeRowSingle(cells);
      FieldOfEncoded(cells[0], tail);
      assert [cells[0]] == cells;
    } else {
      EncodeRowCons(cells);
      var more := EncodeRow(cells[1..]) + tail;
      assert EncodeRow(cells) + tail == EncodeField(cells[0]) + ([Comma] + more);
      FieldOfEncoded(cells[0], [Comma] + more);
      assert ([Comma] + more)[1..] == more;
      RecordOfEncoded(cells[1..], tail);
      assert [cells[0]] + cells[1..] == cells;
    }
  }

  /** Every row of the table has at least one cell. */
  predicate NoEmptyRow(rows: seq<seq<string>>)
  {
    forall i :: 0 <= i < |rows| ==> |rows[i]| >= 1
  }

  /**
   * Round trip: the RFC 4180 reader recovers exactly the exported rows and
   * cells, including cells that hold commas, quotes or line breaks.
   */
  lemma {:induction false} DecodeEncodeTable(rows: seq<seq<string>>)
    requires NoEmptyRow(rows)
    ensures Decode(EncodeTable(rows)) == Some(rows)
    decreases |rows|
  {
    if |rows| == 0 {
    } else if |rows| == 1 {
      EncodeTableSingle(rows);
      EncodeRowQuoted(rows[0]);
      assert EncodeRow(rows[0]) + [] == EncodeRow(rows[0]);
      RecordOfEncoded(rows[0], []);
      assert [rows[0]] + [] == rows;
    } else {
      EncodeTableCons(rows);
      var tail := RowSeparator + EncodeTable(rows[1..]);
      assert EncodeTable(rows) == EncodeRow(rows[0]) + tail;
      assert tail[2..] == EncodeTable(rows[1..]);
      RecordOfEncoded(rows[0], tail);
      DecodeEncodeTable(rows[1..]);
      assert [rows[0]] + rows[1..] == rows;
    }
  }

  /** Hence the export of tables without cell-less rows loses nothing: distinct tables give distinct texts. */
  lemma EncodeTableInjective(a: seq<seq<string>>, b: seq<seq<string>>)
    requires NoEmptyRow(a) && NoEmptyRow(b)
    requires EncodeTable(a) == EncodeTable(b)
    ensures a == b
  {
    DecodeEncodeTable(a);
    DecodeEncodeTable(b);
  }

  /**
   * Field and record counts: the reader finds as many records as the table
   * has rows, and in each record as many fields as that row has cells, so
   * ragged rows stay ragged.
   */
  lemma RecordShape(rows: seq<seq<string>>)
    requires NoEmptyRow(rows)
    ensures Decode(EncodeTable(rows)).Some?
    ensures |Decode(EncodeTable(rows)).value| == |rows|
    ensures forall i :: 0 <= i < |rows| ==> |Decode(EncodeTable(rows)).value[i]| == |rows[i]|
  {
    DecodeEncodeTable(rows);
  }
}
