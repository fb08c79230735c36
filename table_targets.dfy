/**
 * Which cells of a table receive the context-menu binding: all its header
 * (`th`) cells when it has any, otherwise the cells of its first row, and
 * none when it has no rows at all.
 */
module TableTargets {

  /** Identity of a cell element of the page. */
  type CellId = nat

  /** Identity of a table element of the page. */
  type TableId = nat

  datatype Cell = Cell(id: CellId, isHeader: bool)

  /** A table as the annotator sees it: its rows, in `table.rows` order. */
  datatype Table = Table(id: TableId, rows: seq<seq<Cell>>)

  /** All cells of the rows, row after row. */
  function Cells(rows: seq<seq<Cell>>): seq<Cell>
  {
    if rows == [] then [] else rows[0] + Cells(rows[1..])
  }

  /** The header cells among `cells`, in order. */
  function Headers(cells: seq<Cell>): seq<Cell>
  {
    if cells == [] then []
    else (if cells[0].isHeader then [cells[0]] else []) + Headers(cells[1..])
  }

  /** `tbl.querySelectorAll('th')`. */
  function HeaderCells(t: Table): seq<Cell>
  {
    Headers(Cells(t.rows))
  }

  /** The targets rule: header cells if any, else the first row's cells, else none. */
  function TargetCells(t: Table): seq<Cell>
  {
    var headers := HeaderCells(t);
    if |headers| > 0 then headers
    else if |t.rows| > 0 then t.rows[0]
    else []
  }

  /** Some row of the table holds a header cell. */
  ghost predicate HasHeader(t: Table)
  {
    exists i, j :: 0 <= i < |t.rows| && 0 <= j < |t.rows[i]| && t.rows[i][j].isHeader
  }

  lemma {:induction false} CellsMembers(rows: seq<seq<Cell>>)
    ensures forall c :: c in Cells(rows) <==> exists i :: 0 <= i < |rows| && c in rows[i]
    decreases |rows|
  {
    if rows != [] {
      CellsMembers(rows[1..]);
      forall c | c in Cells(rows)
        ensures exists i :: 0 <= i < |rows| && c in rows[i]
      {
        if c !in rows[0] {
          assert c in Cells(rows[1..]);
          var i :| 0 <= i < |rows[1..]| && c in rows[1..][i];
          assert c in rows[i + 1];
        }
      }
      forall c, i | 0 <= i < |rows| && c in rows[i]
        ensures c in Cells(rows)
      {
        if i > 0 {
          assert c in rows[1..][i - 1];
        }
      }
    }
  }

  lemma {:induction false} HeadersMembers(cells: seq<Cell>)
    ensures forall c :: c in Headers(cells) <==> c in cells && c.isHeader
    ensures (forall c :: c in cells ==> !c.isHeader) ==> Headers(cells) == []
    decreases |cells|
  {
    if cells != [] {
      HeadersMembers(cells[1..]);
      assert forall c :: c in cells <==> c == cells[0] || c in cells[1..];
    }
  }

  /** `headerCells.length` is zero exactly when no row holds a header cell. */
  lemma HeaderCellsEmpty(t: Table)
    ensures |HeaderCells(t)| == 0 <==> !HasHeader(t)
  {
    CellsMembers(t.rows);
    HeadersMembers(Cells(t.rows));
    if HasHeader(t) {
      var i, j :| 0 <= i < |t.rows| && 0 <= j < |t.rows[i]| && t.rows[i][j].isHeader;
      assert t.rows[i][j] in t.rows[i];
      assert t.rows[i][j] in HeaderCells(t);
    } else {
      forall c | c in Cells(t.rows)
        ensures !c.isHeader
      {
        var i :| 0 <= i < |t.rows| && c in t.rows[i];
        var j :| 0 <= j < |t.rows[i]| && t.rows[i][j] == c;
      }
    }
  }

  /**
   * Header first: with a header cell anywhere in the table, the targets are
   * exactly the table's header cells.
   */
  lemma TargetsWithHeaders(t: Table)
    requires HasHeader(t)
    ensures forall c :: c in TargetCells(t) <==> c.isHeader && exists i :: 0 <= i < |t.rows| && c in t.rows[i]
  {
    HeaderCellsEmpty(t);
    CellsMembers(t.rows);
    HeadersMembers(Cells(t.rows));
  }

  /**
   * First-row fallback: without any header cell the targets are the first
   * row's cells, one binding per cell; without rows there are none.
   */
  lemma TargetsWithoutHeaders(t: Table)
    requires !HasHeader(t)
    ensures TargetCells(t) == if |t.rows| > 0 then t.rows[0] else []
  {
    HeaderCellsEmpty(t);
  }

  /**
   * Every target is a cell of the table, and a table gets at least one
   * target exactly when it has a header cell or a first row with a cell.
   */
  lemma TargetsOfTable(t: Table)
    ensures forall c :: c in TargetCells(t) ==> exists i :: 0 <= i < |t.rows| && c in t.rows[i]
    ensures |TargetCells(t)| > 0 <==> HasHeader(t) || (|t.rows| > 0 && |t.rows[0]| > 0)
  {
    HeaderCellsEmpty(t);
    CellsMembers(t.rows);
    HeadersMembers(Cells(t.rows));
  }
}
