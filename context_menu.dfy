/**
 * The custom context menu and the handlers that drive it: the annotator
 * binds a right-click handler to the target cells of every table; a
 * right-click bubbling through bound cells records the outermost one's
 * table and shows the menu at the mouse position; any left click hides it;
 * the menu item exports the recorded table, if there is one, and hides the
 * menu.
 */
module ContextMenu {
  import opened Optional
  import opened TableTargets
  import CsvExport

  /** What the export hands to the browser's download: the file name and the CSV text. */
  datatype Download = Download(fileName: string, csv: string)

  /** The ids of some cells. */
  function IdsOf(cells: seq<Cell>): set<CellId>
  {
    set c | c in cells :: c.id
  }

  /** Handlers after binding each of `cells`, in order, to table `tid`. */
  function BindCells(bindings: map<CellId, TableId>, cells: seq<Cell>, tid: TableId): map<CellId, TableId>
    decreases |cells|
  {
    if cells == [] then bindings
    else BindCells(bindings, cells[..|cells| - 1], tid)[cells[|cells| - 1].id := tid]
  }

  /** Binding cells adds exactly their ids, each recording `tid`, and leaves every other handler as it was. */
  lemma {:induction false} BindCellsLookup(bindings: map<CellId, TableId>, cells: seq<Cell>, tid: TableId)
    ensures forall id :: id in BindCells(bindings, cells, tid) <==> id in bindings || id in IdsOf(cells)
    ensures forall id :: id in IdsOf(cells) ==> BindCells(bindings, cells, tid)[id] == tid
    ensures forall id :: id in bindings && id !in IdsOf(cells) ==> BindCells(bindings, cells, tid)[id] == bindings[id]
    decreases |cells|
  {
    if cells != [] {
      var front := cells[..|cells| - 1];
      BindCellsLookup(bindings, front, tid);
      assert cells == front + [cells[|cells| - 1]];
      assert IdsOf(cells) == IdsOf(front) + {cells[|cells| - 1].id};
    }
  }

  /** Handlers after binding every target cell of `t` to `t`: a later binding of a cell wins. */
  function BindTable(bindings: map<CellId, TableId>, t: Table): map<CellId, TableId>
  {
    BindCells(bindings, TargetCells(t), t.id)
  }

  /** Handlers after the annotator has visited `tables` in document order. */
  function Annotated(bindings: map<CellId, TableId>, tables: seq<Table>): map<CellId, TableId>
    decreases |tables|
  {
    if tables == [] then bindings
    else BindTable(Annotated(bindings, tables[..|tables| - 1]), tables[|tables| - 1])
  }

  /**
   * The cells that carry a handler after the scan are those bound before
   * and the target cells of the scanned tables; no other cell gets one.
   */
  lemma {:induction false} AnnotatedKeys(bindings: map<CellId, TableId>, tables: seq<Table>)
    ensures forall id :: id in Annotated(bindings, tables) <==>
      id in bindings || exists k :: 0 <= k < |tables| && id in IdsOf(TargetCells(tables[k]))
    decreases |tables|
  {
    if tables != [] {
      var front := tables[..|tables| - 1];
      AnnotatedKeys(bindings, front);
      BindCellsLookup(Annotated(bindings, front), TargetCells(tables[|tables| - 1]), tables[|tables| - 1].id);
      forall id | id in Annotated(bindings, tables)
        ensures id in bindings || exists k :: 0 <= k < |tables| && id in IdsOf(TargetCells(tables[k]))
      {
        if id !in IdsOf(TargetCells(tables[|tables| - 1])) && id !in bindings {
          var k :| 0 <= k < |front| && id in IdsOf(TargetCells(front[k]));
          assert front[k] == tables[k];
        }
      }
      forall id, k | 0 <= k < |tables| && id in IdsOf(TargetCells(tables[k]))
        ensures id in Annotated(bindings, tables)
      {
        if k < |tables| - 1 {
          assert front[k] == tables[k];
        }
      }
    }
  }

  /** Handlers after binding, in order, each `jobs[k].0` to table `jobs[k].1`. */
  function BindJobs(bindings: map<CellId, TableId>, jobs: seq<(seq<Cell>, TableId)>): map<CellId, TableId>
    decreases |jobs|
  {
    if jobs == [] then bindings
    else BindCells(BindJobs(bindings, jobs[..|jobs| - 1]), jobs[|jobs| - 1].0, jobs[|jobs| - 1].1)
  }

  /** What the annotator binds for each table: its target cells and its id. */
  function JobsOf(tables: seq<Table>): seq<(seq<Cell>, TableId)>
  {
    seq(|tables|, k requires 0 <= k < |tables| => (TargetCells(tables[k]), tables[k].id))
  }

  lemma {:induction false} AnnotatedJobs(bindings: map<CellId, TableId>, tables: seq<Table>)
    ensures Annotated(bindings, tables) == BindJobs(bindings, JobsOf(tables))
    decreases |tables|
  {
    if tables != [] {
      var n := |tables| - 1;
      AnnotatedJobs(bindings, tables[..n]);
      assert JobsOf(tables)[..n] == JobsOf(tables[..n]);
    }
  }

  lemma {:induction false} JobsOwner(bindings: map<CellId, TableId>, jobs: seq<(seq<Cell>, TableId)>, i: nat, id: CellId)
    requires i < |jobs| && id in IdsOf(jobs[i].0)
    requires forall k :: i < k < |jobs| ==> id !in IdsOf(jobs[k].0)
    ensures id in BindJobs(bindings, jobs) && BindJobs(bindings, jobs)[id] == jobs[i].1
    decreases |jobs|
  {
    var last := |jobs| - 1;
    var front := jobs[..last];
    BindCellsLookup(BindJobs(bindings, front), jobs[last].0, jobs[last].1);
    if i < last {
      assert front[i] == jobs[i];
      forall k | i < k < |front|
        ensures id !in IdsOf(front[k].0)
      {
        assert front[k] == jobs[k];
      }
      JobsOwner(bindings, front, i, id);
    }
  }

  /**
   * A target cell of `tables[i]` records `tables[i]` when no later table
   * binds it again: both handlers run, in the order they were attached.
   */
  lemma AnnotatedOwner(bindings: map<CellId, TableId>, tables: seq<Table>, i: nat, c: Cell)
    requires i < |tables| && c in TargetCells(tables[i])
    requires forall k :: i < k < |tables| ==> c.id !in IdsOf(TargetCells(tables[k]))
    ensures c.id in Annotated(bindings, tables) && Annotated(bindings, tables)[c.id] == tables[i].id
  {
    var jobs := JobsOf(tables);
    AnnotatedJobs(bindings, tables);
    assert c.id in IdsOf(jobs[i].0);
    forall k | i < k < |jobs|
      ensures c.id !in IdsOf(jobs[k].0)
    {
    }
    JobsOwner(bindings, jobs, i, c.id);
  }

  /**
   * The table recorded after a right-click event has bubbled along `path`,
   * the clicked cell and its ancestor cells, innermost first: the handler
   * of the outermost bound cell runs last and wins; `None` when no cell on
   * the path is bound.
   */
  function LastBound(bindings: map<CellId, TableId>, path: seq<CellId>): Option<TableId>
    decreases |path|
  {
    if path == [] then None
    else if path[|path| - 1] in bindings then Some(bindings[path[|path| - 1]])
    else LastBound(bindings, path[..|path| - 1])
  }

  /**
   * Some handler runs exactly when a cell of the path is bound, and then the
   * recorded table is that of the outermost bound cell: bound at index `k`,
   * with no bound cell after it.
   */
  lemma {:induction false} LastBoundOf(bindings: map<CellId, TableId>, path: seq<CellId>)
    ensures LastBound(bindings, path).Some? <==> exists k :: 0 <= k < |path| && path[k] in bindings
    ensures LastBound(bindings, path).Some? ==>
      exists k :: (0 <= k < |path| && path[k] in bindings &&
        LastBound(bindings, path).value == bindings[path[k]] &&
        forall j :: k < j < |path| ==> path[j] !in bindings)
    decreases |path|
  {
    if path != [] {
      var n := |path| - 1;
      var front := path[..n];
      LastBoundOf(bindings, front);
      assert forall j :: 0 <= j < n ==> front[j] == path[j];
      if path[n] !in bindings && LastBound(bindings, front).Some? {
        var k :| 0 <= k < n && front[k] in bindings
          && LastBound(bindings, front).value == bindings[front[k]]
          && forall j :: k < j < n ==> front[j] !in bindings;
        assert path[k] in bindings && forall j :: k < j < |path| ==> path[j] !in bindings;
      }
    }
  }

  /**
   * A table nested in the first-row cell `outer` of another, both without
   * header cells: a right-click on the inner table's target `inner` runs
   * the inner handler, then the outer one, and leaves the outer table
   * recorded; a click on an unbound inner cell still reaches `outer`.
   */
  lemma NestedTables(bindings: map<CellId, TableId>, inner: CellId, outer: CellId, other: CellId)
    requires inner in bindings && outer in bindings && other !in bindings
    ensures LastBound(bindings, [inner, outer]) == Some(bindings[outer])
    ensures LastBound(bindings, [other, outer]) == Some(bindings[outer])
    ensures LastBound(bindings, [inner]) == Some(bindings[inner])
  {
  }

  /** The ids of the tables the annotator visits. */
  function TableIds(tables: seq<Table>): set<TableId>
    decreases |tables|
  {
    if tables == [] then {} else TableIds(tables[..|tables| - 1]) + {tables[|tables| - 1].id}
  }

  /** The menu, the handlers bound to cells, and `lastRightClickedTable`. */
  class Menu {
    /** The cells with a right-click handler, and the table each one records. */
    var bindings: map<CellId, TableId>
    /** `lastRightClickedTable`; `None` is the script's `null`. */
    var selected: Option<TableId>
    /** `menu.style.display` is `block`. */
    var shown: bool
    /** `menu.style.left` and `menu.style.top`, unset until the menu is first shown. */
    var position: Option<(int, int)>
    /** Every table the annotator has visited. */
    ghost var annotated: set<TableId>

    /** The menu is visible only with a table recorded, and a recorded table is one the annotator visited. */
    ghost predicate Valid()
      reads this
    {
      && (shown ==> selected.Some?)
      && (selected.Some? ==> selected.value in annotated)
      && (forall id :: id in bindings ==> bindings[id] in annotated)
    }

    /** The menu is created hidden, with nothing recorded and no handler bound. */
    constructor ()
      ensures Valid()
      ensures bindings == map[] && selected == None && !shown && position == None
      ensures annotated == {}
    {
      bindings := map[];
      selected := None;
      shown := false;
      position := None;
      annotated := {};
    }

    /** `addRedBorderAndContext`: bind a handler to each target cell of each table, in document order. */
    method Annotate(tables: seq<Table>)
      requires Valid()
      modifies this
      ensures Valid()
      ensures bindings == Annotated(old(bindings), tables)
      ensures annotated == old(annotated) + TableIds(tables)
      ensures selected == old(selected) && shown == old(shown) && position == old(position)
    {
      var i := 0;
      while i < |tables|
        invariant 0 <= i <= |tables|
        invariant bindings == Annotated(old(bindings), tables[..i])
        invariant annotated == old(annotated) + TableIds(tables[..i])
        invariant Valid()
        invariant selected == old(selected) && shown == old(shown) && position == old(position)
      {
        annotated := annotated + {tables[i].id};
        BindTargets(tables[i]);
        assert tables[..i + 1][..i] == tables[..i];
        i := i + 1;
      }
      assert tables[..|tables|] == tables;
    }

    /** `targets.forEach(...)` for one table: each target cell gets a handler recording `t`. */
    method BindTargets(t: Table)
      requires Valid() && t.id in annotated
      modifies this
      ensures Valid()
      ensures bindings == BindTable(old(bindings), t)
      ensures annotated == old(annotated)
      ensures selected == old(selected) && shown == old(shown) && position == old(position)
    {
      var targets := TargetCells(t);
      var j := 0;
      while j < |targets|
        invariant 0 <= j <= |targets|
        invariant bindings == BindCells(old(bindings), targets[..j], t.id)
        invariant annotated == old(annotated)
        invariant Valid()
        invariant selected == old(selected) && shown == old(shown) && position == old(position)
      {
        assert targets[..j + 1][..j] == targets[..j];
        bindings := bindings[targets[j].id := t.id];
        j := j + 1;
      }
      assert targets[..|targets|] == targets;
      assert BindTable(old(bindings), t) == BindCells(old(bindings), targets, t.id);
    }

    /**
     * A right-click at page coordinates (`x`, `y`). The `contextmenu` event
     * bubbles, and no handler stops it, so every bound cell on `path` (the
     * cells among the clicked element and its ancestors, innermost first)
     * runs its handler in turn: each suppresses the native menu, records its
     * table and shows the menu at the same place. The outermost bound cell
     * runs last, so its table is the one left recorded. With no bound cell
     * on the path nothing changes and the browser's own menu opens.
     * `handled` says whether the native menu was suppressed.
     */
    method RightClick(path: seq<CellId>, x: int, y: int) returns (handled: bool)
      requires Valid()
      modifies this
      ensures Valid()
      ensures handled <==> exists k :: 0 <= k < |path| && path[k] in bindings
      ensures handled ==> selected == LastBound(bindings, path) && shown && position == Some((x, y))
      ensures !handled ==> selected == old(selected) && shown == old(shown) && position == old(position)
      ensures bindings == old(bindings) && annotated == old(annotated)
    {
      var owner := LastBound(bindings, path);
      LastBoundOf(bindings, path);
      handled := owner.Some?;
      if handled {
        selected := owner;
        shown := true;
        position := Some((x, y));
      }
    }

    /** `hideMenu`, run by the document's click listener: hides the menu and changes nothing else. */
    method LeftClick()
      requires Valid()
      modifies this
      ensures Valid()
      ensures !shown
      ensures selected == old(selected) && position == old(position)
      ensures bindings == old(bindings) && annotated == old(annotated)
    {
      shown := false;
    }

    /**
     * A click on the menu item: export the recorded table, if any, then hide
     * the menu. `current` gives a table's rows of cell texts at the moment of
     * the click and `iso` the clock's ISO timestamp. A visible menu always has
     * a table to export.
     */
    method Activate(current: TableId -> seq<seq<string>>, iso: string) returns (download: Option<Download>)
      requires Valid()
      modifies this
      ensures Valid()
      ensures download == if old(selected).Some?
        then Some(Download(CsvExport.FileName(iso), CsvExport.EncodeTable(current(old(selected).value))))
        else None
      ensures old(shown) ==> download.Some?
      ensures !shown
      ensures selected == old(selected) && position == old(position)
      ensures bindings == old(bindings) && annotated == old(annotated)
    {
      if selected.Some? {
        var rows := current(selected.value);
        download := Some(Download(CsvExport.FileName(iso), CsvExport.EncodeTable(rows)));
      } else {
        download := None;
      }
      shown := false;
    }
  }
}
