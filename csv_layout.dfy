/**
 * The layout of the exported text as a CSV reader sees it: once the quoted
 * sections are set aside, what remains is one comma between consecutive cells
 * of a row and one CRLF between consecutive rows, and nothing else.
 */
module CsvLayout {
  import opened CsvExport

  /**
   * The characters of `s` that lie outside every quoted section, reading
   * from the state `inQuotes`; each quote character switches the state and
   * is itself dropped (so an escaped `""` switches it twice).
   */
  function OutsideQuotes(s: string, inQuotes: bool): string
  {
    if s == [] then []
    else if s[0] == Quote then OutsideQuotes(s[1..], !inQuotes)
    else if inQuotes then OutsideQuotes(s[1..], true)
    else [s[0]] + OutsideQuotes(s[1..], false)
  }

  /** `n` commas. */
  function Commas(n: nat): string
  {
    if n == 0 then [] else [','] + Commas(n - 1)
  }

  /** Separators a row should have: one between consecutive cells. */
  function SeparatorsIn(cells: seq<string>): nat
  {
    if |cells| == 0 then 0 else |cells| - 1
  }

  /** The unquoted text the rows should leave: each row's commas, rows joined by CRLF. */
  function Skeleton(rows: seq<seq<string>>): string
  {
    Join(seq(|rows|, i requires 0 <= i < |rows| => Commas(SeparatorsIn(rows[i]))), RowSeparator)
  }

  lemma SkeletonCons(rows: seq<seq<string>>)
    requires |rows| >= 2
    ensures Skeleton(rows) == Commas(SeparatorsIn(rows[0])) + RowSeparator + Skeleton(rows[1..])
  {
    var lines := seq(|rows|, i requires 0 <= i < |rows| => Commas(SeparatorsIn(rows[i])));
    assert lines[1..] == seq(|rows| - 1, i requires 0 <= i < |rows| - 1 => Commas(SeparatorsIn(rows[1..][i])));
  }

  /** Inside a quoted section the escaped text leaves nothing and stays inside. */
  lemma {:induction false} OutsideEscaped(text: string, t: string)
    ensures OutsideQuotes(EscapeQuotes(text) + t, true) == OutsideQuotes(t, true)
    decreases |text|
  {
    if text != [] {
      var s := EscapeQuotes(text) + t;
      var more := EscapeQuotes(text[1..]) + t;
      OutsideEscaped(text[1..], t);
      if text[0] == Quote {
        assert s == [Quote, Quote] + more;
        assert s[1..] == [Quote] + more;
        assert s[1..][1..] == more;
      } else {
        assert s == [text[0]] + more;
        assert s[1..] == more;
      }
    } else {
      assert EscapeQuotes(text) + t == t;
    }
  }

  /** A quoted field leaves nothing outside quotes and ends outside them. */
  lemma OutsideField(text: string, t: string)
    ensures OutsideQuotes(EncodeField(text) + t, false) == OutsideQuotes(t, false)
  {
    var s := EncodeField(text) + t;
    assert s[1..] == EscapeQuotes(text) + ([Quote] + t);
    OutsideEscaped(text, [Quote] + t);
    assert ([Quote] + t)[1..] == t;
  }

  /** A row leaves exactly its separating commas outside quotes. */
  lemma {:induction false} OutsideRow(cells: seq<string>, t: string)
    ensures OutsideQuotes(EncodeRow(cells) + t, false) == Commas(SeparatorsIn(cells)) + OutsideQuotes(t, false)
    decreases |cells|
  {
    if |cells| == 0 {
      assert EncodeRow(cells) + t == t;
    } else if |cells| == 1 {
      EncodeRowSingle(cells);
      OutsideField(cells[0], t);
    } else {
      EncodeRowCons(cells);
      var more := EncodeRow(cells[1..]) + t;
      assert EncodeRow(cells) + t == EncodeField(cells[0]) + ([','] + more);
      OutsideField(cells[0], [','] + more);
      assert ([','] + more)[1..] == more;
      OutsideRow(cells[1..], t);
      assert Commas(SeparatorsIn(cells)) == [','] + Commas(SeparatorsIn(cells[1..]));
    }
  }

  lemma {:induction false} OutsideTableThen(rows: seq<seq<string>>, t: string)
    ensures OutsideQuotes(EncodeTable(rows) + t, false) == Skeleton(rows) + OutsideQuotes(t, false)
    decreases |rows|
  {
    if |rows| == 0 {
      assert EncodeTable(rows) + t == t;
    } else if |rows| == 1 {
      EncodeTableSingle(rows);
      OutsideRow(rows[0], t);
    } else {
      EncodeTableCons(rows);
      SkeletonCons(rows);
      var more := EncodeTable(rows[1..]) + t;
      assert EncodeTable(rows) + t == EncodeRow(rows[0]) + (RowSeparator + more);
      OutsideRow(rows[0], RowSeparator + more);
      assert (RowSeparator + more)[1..][1..] == more;
      OutsideTableThen(rows[1..], t);
    }
  }

  /**
   * Outside its quoted fields the exported text is exactly the skeleton:
   * the commas of each row, CRLF between rows, no trailing CRLF.
   */
  lemma OutsideTable(rows: seq<seq<string>>)
    ensures OutsideQuotes(EncodeTable(rows), false) == Skeleton(rows)
  {
    OutsideTableThen(rows, []);
    assert EncodeTable(rows) + [] == EncodeTable(rows);
    assert Skeleton(rows) + [] == Skeleton(rows);
  }

  // ---------------------------------------------------------------------
  // Counting separators.

  lemma {:induction false} CountCharAppend(c: char, a: string, b: string)
    ensures CountChar(c, a + b) == CountChar(c, a) + CountChar(c, b)
    decreases |a|
  {
    if a == [] {
      assert a + b == b;
    } else {
      assert (a + b)[1..] == a[1..] + b;
      CountCharAppend(c, a[1..], b);
    }
  }

  lemma {:induction false} CountInCommas(c: char, n: nat)
    ensures CountChar(c, Commas(n)) == if c == ',' then n else 0
    decreases n
  {
    if n > 0 {
      assert Commas(n)[1..] == Commas(n - 1);
      CountInCommas(c, n - 1);
    }
  }

  /** Total number of commas the rows should be separated by. */
  function TotalSeparators(rows: seq<seq<string>>): nat
  {
    if rows == [] then 0 else SeparatorsIn(rows[0]) + TotalSeparators(rows[1..])
  }

  lemma {:induction false} SkeletonCounts(rows: seq<seq<string>>)
    requires |rows| >= 1
    ensures CountChar('\r', Skeleton(rows)) == |rows| - 1
    ensures CountChar('\n', Skeleton(rows)) == |rows| - 1
    ensures CountChar(',', Skeleton(rows)) == TotalSeparators(rows)
    decreases |rows|
  {
    var first := Commas(SeparatorsIn(rows[0]));
    CountInCommas('\r', SeparatorsIn(rows[0]));
    CountInCommas('\n', SeparatorsIn(rows[0]));
    CountInCommas(',', SeparatorsIn(rows[0]));
    if |rows| == 1 {
      assert Skeleton(rows) == first;
      assert rows[1..] == [];
    } else {
      SkeletonCons(rows);
      SkeletonCounts(rows[1..]);
      var sep := RowSeparator;
      assert CountChar('\r', sep) == 1 && CountChar('\n', sep) == 1 && CountChar(',', sep) == 0 by {
        assert sep[1..] == "\n" && sep[1..][1..] == [];
      }
      forall c | c in {'\r', '\n', ','}
        ensures CountChar(c, Skeleton(rows)) == CountChar(c, first) + CountChar(c, sep) + CountChar(c, Skeleton(rows[1..]))
      {
        CountCharAppend(c, first, sep);
        CountCharAppend(c, first + sep, Skeleton(rows[1..]));
      }
    }
  }

  /**
   * Outside quoted fields the text holds `|rows| - 1` CRLF line breaks and,
   * in all, one comma between each two consecutive cells of a row.
   */
  lemma SeparatorCounts(rows: seq<seq<string>>)
    requires |rows| >= 1
    ensures CountChar('\r', OutsideQuotes(EncodeTable(rows), false)) == |rows| - 1
    ensures CountChar('\n', OutsideQuotes(EncodeTable(rows), false)) == |rows| - 1
    ensures CountChar(',', OutsideQuotes(EncodeTable(rows), false)) == TotalSeparators(rows)
  {
    OutsideTable(rows);
    SkeletonCounts(rows);
  }

  /** Within one row of `n >= 1` cells there are `n - 1` commas outside quotes, so `n` fields. */
  lemma RowCommaCount(cells: seq<string>)
    requires |cells| >= 1
    ensures OutsideQuotes(EncodeRow(cells), false) == Commas(|cells| - 1)
    ensures CountChar(',', OutsideQuotes(EncodeRow(cells), false)) == |cells| - 1
  {
    var commas := Commas(SeparatorsIn(cells));
    OutsideRow(cells, []);
    assert EncodeRow(cells) + [] == EncodeRow(cells);
    assert commas + [] == commas;
    CountInCommas(',', SeparatorsIn(cells));
  }
}
