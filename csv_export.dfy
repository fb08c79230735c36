/**
 * The text produced by `exportTableToCSV`: every cell quoted, quotes inside a
 * cell doubled, cells of a row joined by a comma, rows joined by CRLF with no
 * trailing line break; and the name given to the download.
 *
 * A table is the sequence of its rows in `table.rows` order, a row the
 * sequence of the `innerText` of its cells in `row.cells` order.
 */
module CsvExport {

  const Quote: char := '"'
  const FieldSeparator: string := ","
  const RowSeparator: string := "\r\n"

  /** Number of occurrences of `c` in `s`. */
  function CountChar(c: char, s: string): nat
  {
    if s == [] then 0 else (if s[0] == c then 1 else 0) + CountChar(c, s[1..])
  }

  /**
   * `text.replace(/"/g, '""')`: the regular expression carries the global
   * flag, so every double quote is doubled, not only the first.
   */
  function EscapeQuotes(s: string): (r: string)
    ensures |r| == |s| + CountChar(Quote, s)
  {
    if s == [] then []
    else (if s[0] == Quote then [Quote, Quote] else [s[0]]) + EscapeQuotes(s[1..])
  }

  /** One cell as a CSV field: the escaped text between two double quotes. */
  function EncodeField(text: string): (r: string)
    ensures |r| == |text| + CountChar(Quote, text) + 2
    ensures r[0] == Quote && r[|r| - 1] == Quote
  {
    [Quote] + EscapeQuotes(text) + [Quote]
  }

  /** `Array.prototype.join(sep)`: `sep` between consecutive items, none before the first or after the last. */
  function Join(items: seq<string>, sep: string): string
  {
    if |items| == 0 then []
    else if |items| == 1 then items[0]
    else items[0] + sep + Join(items[1..], sep)
  }

  /** `Array.from(row.cells).map(...)`: the fields of one row. */
  function EncodeFields(cells: seq<string>): seq<string>
  {
    seq(|cells|, i requires 0 <= i < |cells| => EncodeField(cells[i]))
  }

  /** One row: its fields joined by a comma. */
  function EncodeRow(cells: seq<string>): string
  {
    Join(EncodeFields(cells), FieldSeparator)
  }

  /** `rows.map(...)`: the lines of a table. */
  function EncodeRows(rows: seq<seq<string>>): seq<string>
  {
    seq(|rows|, i requires 0 <= i < |rows| => EncodeRow(rows[i]))
  }

  /** The whole CSV text: the encoded rows joined by CRLF. */
  function EncodeTable(rows: seq<seq<string>>): string
  {
    Join(EncodeRows(rows), RowSeparator)
  }

  // Unfolding the map-then-join definitions one row or one cell at a time.

  lemma EncodeRowSingle(cells: seq<string>)
    requires |cells| == 1
    ensures EncodeRow(cells) == EncodeField(cells[0])
  {
  }

  lemma EncodeRowCons(cells: seq<string>)
    requires |cells| >= 2
    ensures EncodeRow(cells) == EncodeField(cells[0]) + FieldSeparator + EncodeRow(cells[1..])
  {
    assert EncodeFields(cells)[1..] == EncodeFields(cells[1..]);
  }

  lemma EncodeTableSingle(rows: seq<seq<string>>)
    requires |rows| == 1
    ensures EncodeTable(rows) == EncodeRow(rows[0])
  {
  }

  lemma EncodeTableCons(rows: seq<seq<string>>)
    requires |rows| >= 2
    ensures EncodeTable(rows) == EncodeRow(rows[0]) + RowSeparator + EncodeTable(rows[1..])
  {
    assert EncodeRows(rows)[1..] == EncodeRows(rows[1..]);
  }

  /** A row with at least one cell starts and ends with a double quote, so it is never empty. */
  lemma EncodeRowQuoted(cells: seq<string>)
    requires |cells| >= 1
    ensures |EncodeRow(cells)| >= 2
    ensures EncodeRow(cells)[0] == Quote && EncodeRow(cells)[|EncodeRow(cells)| - 1] == Quote
    decreases |cells|
  {
    if |cells| == 1 {
      EncodeRowSingle(cells);
    } else {
      EncodeRowCons(cells);
      EncodeRowQuoted(cells[1..]);
    }
  }

  /**
   * No trailing separator: when the last row has a cell, the text ends with
   * that cell's closing quote, not with CRLF.
   */
  lemma {:induction false} NoTrailingSeparator(rows: seq<seq<string>>)
    requires |rows| >= 1 && |rows[|rows| - 1]| >= 1
    ensures var s := EncodeTable(rows); |s| >= 2 && s[|s| - 1] == Quote
    decreases |rows|
  {
    if |rows| == 1 {
      EncodeTableSingle(rows);
      EncodeRowQuoted(rows[0]);
    } else {
      EncodeTableCons(rows);
      NoTrailingSeparator(rows[1..]);
    }
  }

  /** A table without rows exports as the empty text (an empty download, not an error). */
  lemma EmptyTable()
    ensures EncodeTable([]) == ""
  {
  }

  /**
   * Rows without cells leave no trace but their separators, so a table of
   * one cell-less row and a table of no rows export the same text.
   */
  lemma CellLessRowsVanish()
    ensures EncodeTable([[]]) == EncodeTable([])
    ensures EncodeTable([[], []]) == RowSeparator
  {
    assert EncodeRow([]) == "";
    assert EncodeRows([[], []]) == ["", ""];
  }

  /** Headers A, B and one data row 1, 2. */
  lemma TwoByTwoExample()
    ensures EncodeTable([["A", "B"], ["1", "2"]]) == "\"A\",\"B\"\r\n\"1\",\"2\""
  {
    EncodeTableCons([["A", "B"], ["1", "2"]]);
    EncodeTableSingle([["1", "2"]]);
    EncodeRowCons(["A", "B"]);
    EncodeRowCons(["1", "2"]);
    assert EscapeQuotes("A") == "A";
    assert EscapeQuotes("B") == "B";
    assert EscapeQuotes("1") == "1";
    assert EscapeQuotes("2") == "2";
  }

  /** A cell holding a quote or a comma. */
  lemma EscapingExamples()
    ensures EncodeField("a\"b") == "\"a\"\"b\""
    ensures EncodeField("x,y") == "\"x,y\""
  {
    assert EscapeQuotes("b") == "b";
    assert EscapeQuotes("\"b") == "\"\"b";
    assert EscapeQuotes("y") == "y";
    assert EscapeQuotes(",y") == ",y";
  }

  // ---------------------------------------------------------------------
  // The download name.

  /** Characters kept from the timestamp: `slice(0, 19)`. */
  const StampLength: nat := 19

  function Min(a: nat, b: nat): nat
  {
    if a <= b then a else b
  }

  /**
   * `table-${iso.slice(0, 19)}.csv`; `slice` keeps a shorter string whole.
   * The timestamp string is an input (it comes from the clock).
   */
  function FileName(iso: string): (r: string)
    ensures |r| == Min(|iso|, StampLength) + 10
    ensures r[..6] == "table-" && r[|r| - 4..] == ".csv"
  {
    "table-" + iso[..Min(|iso|, StampLength)] + ".csv"
  }

  /** The stamp part of a download name: between `table-` and `.csv`. */
  function StampOf(name: string): string
    requires |name| >= 10
  {
    name[6..|name| - 4]
  }

  /** The name gives back the timestamp cut to its first 19 characters. */
  lemma FileNameStamp(iso: string)
    ensures StampOf(FileName(iso)) == if |iso| <= StampLength then iso else iso[..StampLength]
  {
  }

  predicate IsDigit(c: char)
  {
    '0' <= c <= '9'
  }

  /** The shape `Date.prototype.toISOString` gives for years 0 to 9999: `YYYY-MM-DDTHH:mm:ss.sssZ`. */
  predicate IsIsoInstant(s: string)
  {
    && |s| == 24
    && s[4] == '-' && s[7] == '-' && s[10] == 'T' && s[13] == ':' && s[16] == ':'
    && s[19] == '.' && s[23] == 'Z'
    && (forall i :: 0 <= i < 24 && i !in {4, 7, 10, 13, 16, 19, 23} ==> IsDigit(s[i]))
  }

  /**
   * For such a timestamp the name is 29 characters long and keeps the date and
   * the time to whole seconds, colons included; the milliseconds and the `Z`
   * are cut off, so the only `.` in the name is the one before `csv`.
   */
  lemma FileNameOfIsoInstant(iso: string)
    requires IsIsoInstant(iso)
    ensures var name := FileName(iso);
      && |name| == 29
      && name[6..25] == iso[..19]
      && name[19] == ':' && name[22] == ':' && name[16] == 'T'
      && (forall i :: 0 <= i < |name| && name[i] == '.' ==> i == 25)
  {
  }
}
