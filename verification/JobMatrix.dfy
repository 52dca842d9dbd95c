/**
 The job matrix report: the recipe tasks of the selected jobs, grouped by task name, architecture and whiteboard into
 cells that are looked up again for display.
 */
module JobMatrix {
  import opened Prelude

  datatype Outcome = New | Pass | Warn | Fail | Panic | NoResult | Skip

  datatype Task = Task(name: string, result: Outcome)

  /** A recipe may have no whiteboard, or an empty one. */
  datatype Recipe = Recipe(arch: string, whiteboard: Option<string>, tasks: seq<Task>)

  /** One task together with what its recipe says of it. */
  datatype Row = Row(name: string, arch: string, whiteboard: Option<string>, result: Outcome)

  datatype Cell = Cell(name: string, arch: string, whiteboard: Option<string>)

  /** The figures of one cell: how many tasks, and how many of them with each result. */
  datatype Detail = Detail(cell: Cell, total: nat, counts: map<Outcome, nat>)

  /** The details kept for one task name, by architecture and whiteboard. */
  type Results = map<string, map<Option<string>, seq<Detail>>>

  type Matrix = map<string, Results>

  const OUTCOMES: set<Outcome> := {New, Pass, Warn, Fail, Panic, NoResult, Skip}

  function RowsOf(recipes: seq<Recipe>): seq<Row>
    decreases |recipes|
  {
    if recipes == [] then []
    else
      var last := recipes[|recipes| - 1];
      RowsOf(recipes[..|recipes| - 1]) +
        seq(|last.tasks|, i requires 0 <= i < |last.tasks| =>
          Row(last.tasks[i].name, last.arch, last.whiteboard, last.tasks[i].result))
  }

  function CellOf(row: Row): Cell {
    Cell(row.name, row.arch, row.whiteboard)
  }

  function Count(rows: seq<Row>, c: Cell): nat
    decreases |rows|
  {
    if rows == [] then 0 else Count(rows[..|rows| - 1], c) + if CellOf(rows[|rows| - 1]) == c then 1 else 0
  }

  function CountOf(rows: seq<Row>, c: Cell, o: Outcome): nat
    decreases |rows|
  {
    if rows == [] then 0
    else
      var last := rows[|rows| - 1];
      CountOf(rows[..|rows| - 1], c, o) + if CellOf(last) == c && last.result == o then 1 else 0
  }

  function DetailOf(rows: seq<Row>, c: Cell): Detail {
    Detail(c, Count(rows, c), map o | o in OUTCOMES :: CountOf(rows, c, o))
  }

  /** Where the tasks of a recipe start in the list of all rows. */
  function Offset(recipes: seq<Recipe>, r: nat): nat
    requires r <= |recipes|
  {
    if r == 0 then 0 else Offset(recipes, r - 1) + |recipes[r - 1].tasks|
  }

  lemma {:induction false} OffsetOfInit(recipes: seq<Recipe>, n: nat, r: nat)
    requires r <= n <= |recipes|
    ensures Offset(recipes[..n], r) == Offset(recipes, r)
  {
    if r > 0 {
      OffsetOfInit(recipes, n, r - 1);
    }
  }

  /** Every task of every recipe has one row, with its name and result and what its recipe says. */
  lemma {:induction false} RowsAreTasks(recipes: seq<Recipe>, r: nat, t: nat)
    requires r < |recipes| && t < |recipes[r].tasks|
    ensures |RowsOf(recipes)| == Offset(recipes, |recipes|)
    ensures
      Offset(recipes, r) + t < |RowsOf(recipes)| &&
      RowsOf(recipes)[Offset(recipes, r) + t] ==
        Row(recipes[r].tasks[t].name, recipes[r].arch, recipes[r].whiteboard, recipes[r].tasks[t].result)
    decreases |recipes|
  {
    var n := |recipes| - 1;
    RowsAreAll(recipes[..n]);
    OffsetOfInit(recipes, n, n);
    OffsetOfInit(recipes, n, r);
    if r < n {
      RowsAreTasks(recipes[..n], r, t);
    }
  }

  lemma {:induction false} RowsAreAll(recipes: seq<Recipe>)
    ensures |RowsOf(recipes)| == Offset(recipes, |recipes|)
    decreases |recipes|
  {
    if recipes != [] {
      var n := |recipes| - 1;
      RowsAreAll(recipes[..n]);
      OffsetOfInit(recipes, n, n);
    }
  }

  function TasksIn(rows: seq<Row>, c: Cell): set<int> {
    set i | 0 <= i < |rows| && CellOf(rows[i]) == c
  }

  function TasksWith(rows: seq<Row>, c: Cell, o: Outcome): set<int> {
    set i | 0 <= i < |rows| && CellOf(rows[i]) == c && rows[i].result == o
  }

  lemma OneMoreTask(rows: seq<Row>, row: Row, c: Cell, o: Outcome)
    ensures TasksIn(rows + [row], c) == TasksIn(rows, c) + if CellOf(row) == c then {|rows|} else {}
    ensures
      TasksWith(rows + [row], c, o) ==
      TasksWith(rows, c, o) + if CellOf(row) == c && row.result == o then {|rows|} else {}
  {
    var more := rows + [row];
    assert more[|rows|] == row && forall i :: 0 <= i < |rows| ==> more[i] == rows[i];
  }

  lemma {:induction false} CountsTasks(rows: seq<Row>, c: Cell, o: Outcome)
    ensures Count(rows, c) == |TasksIn(rows, c)| && CountOf(rows, c, o) == |TasksWith(rows, c, o)|
    decreases |rows|
  {
    if rows != [] {
      var init, last := rows[..|rows| - 1], rows[|rows| - 1];
      CountsTasks(init, c, o);
      OneMoreTask(init, last, c, o);
      assert rows == init + [last];
      assert |rows| - 1 !in TasksIn(init, c) && |rows| - 1 !in TasksWith(init, c, o);
    }
  }

  /** The detail of a cell shows how many tasks it has, and under each result how many have that result. */
  lemma DetailShowsTasks(rows: seq<Row>, c: Cell, o: Outcome)
    ensures
      var d := DetailOf(rows, c);
      d.cell == c && d.total == |TasksIn(rows, c)| && o in d.counts && d.counts[o] == |TasksWith(rows, c, o)|
  {
    CountsTasks(rows, c, o);
    assert o in OUTCOMES by {
      match o
      case New =>
      case _ =>
    }
  }

  lemma {:induction false} CountsOccurrences(rows: seq<Row>, c: Cell)
    ensures Count(rows, c) > 0 <==> exists i :: 0 <= i < |rows| && CellOf(rows[i]) == c
    decreases |rows|
  {
    if rows != [] {
      CountsOccurrences(rows[..|rows| - 1], c);
      if i :| 0 <= i < |rows| && CellOf(rows[i]) == c {
        assert i < |rows| - 1 ==> rows[..|rows| - 1][i] == rows[i];
      }
    }
  }

  /** The figures by result add up to the number of tasks of the cell. */
  lemma {:induction false} ResultsAddUp(rows: seq<Row>, c: Cell)
    ensures
      Count(rows, c) ==
        CountOf(rows, c, New) + CountOf(rows, c, Pass) + CountOf(rows, c, Warn) + CountOf(rows, c, Fail) +
        CountOf(rows, c, Panic) + CountOf(rows, c, NoResult) + CountOf(rows, c, Skip)
    decreases |rows|
  {
    if rows != [] {
      ResultsAddUp(rows[..|rows| - 1], c);
    }
  }

  function TotalOf(rows: seq<Row>, cells: seq<Cell>): nat
    decreases |cells|
  {
    if cells == [] then 0 else TotalOf(rows, cells[..|cells| - 1]) + Count(rows, cells[|cells| - 1])
  }

  lemma {:induction false} OneMoreRow(rows: seq<Row>, row: Row, cells: seq<Cell>)
    requires forall i, j :: 0 <= i < j < |cells| ==> cells[i] != cells[j]
    ensures TotalOf(rows + [row], cells) == TotalOf(rows, cells) + if CellOf(row) in cells then 1 else 0
    decreases |cells|
  {
    assert (rows + [row])[..|rows|] == rows;
    if cells != [] {
      OneMoreRow(rows, row, cells[..|cells| - 1]);
      assert cells == cells[..|cells| - 1] + [cells[|cells| - 1]];
    }
  }

  /** Conservation: over any listing of all occupied cells without repetition, the totals sum to the tasks. */
  lemma {:induction false} CellsConserveTasks(rows: seq<Row>, cells: seq<Cell>)
    requires forall i, j :: 0 <= i < j < |cells| ==> cells[i] != cells[j]
    requires forall i :: 0 <= i < |rows| ==> CellOf(rows[i]) in cells
    ensures TotalOf(rows, cells) == |rows|
    decreases |rows|
  {
    if rows == [] {
      NothingCounted(cells);
    } else {
      var init := rows[..|rows| - 1];
      CellsConserveTasks(init, cells);
      OneMoreRow(init, rows[|rows| - 1], cells);
      assert init + [rows[|rows| - 1]] == rows;
    }
  }

  lemma {:induction false} NothingCounted(cells: seq<Cell>)
    ensures TotalOf([], cells) == 0
    decreases |cells|
  {
    if cells != [] {
      NothingCounted(cells[..|cells| - 1]);
    }
  }

  function ResultsAt(rs: Results, arch: string, whiteboard: Option<string>): seq<Detail> {
    if arch in rs && whiteboard in rs[arch] then rs[arch][whiteboard] else []
  }

  /** The list kept in a cell of the matrix; empty if there is no such cell. */
  function At(m: Matrix, c: Cell): seq<Detail> {
    if c.name in m then ResultsAt(m[c.name], c.arch, c.whiteboard) else []
  }

  /** The matrix once a detail has been appended to its cell. */
  function WithDetail(m: Matrix, d: Detail): Matrix
    requires d.cell.name in m
  {
    var c := d.cell;
    var byArch := m[c.name];
    var byBoard := if c.arch in byArch then byArch[c.arch] else map[];
    m[c.name := byArch[c.arch := byBoard[c.whiteboard := At(m, c) + [d]]]]
  }

  /** The whiteboards seen with each architecture. */
  type Boards = map<string, seq<Option<string>>>

  ghost predicate Distinct(boards: Boards) {
    forall a :: a in boards ==> forall i, j :: 0 <= i < j < |boards[a]| ==> boards[a][i] != boards[a][j]
  }

  ghost predicate Shown(boards: Boards, arch: string, whiteboard: Option<string>) {
    arch in boards && whiteboard in boards[arch]
  }

  /** The names, in the selected recipes with the architecture and whiteboard, that the grouped query returns. */
  function NamesIn(rows: seq<Row>, arch: string, whiteboard: Option<string>): set<string> {
    set i | 0 <= i < |rows| && rows[i].arch == arch && rows[i].whiteboard == whiteboard :: rows[i].name
  }

  /** Collects task names and whiteboards from the recipes. */
  method CollectNames(recipes: seq<Recipe>) returns (tasks: Matrix, boards: Boards)
    ensures forall c :: At(tasks, c) == []
    ensures Distinct(boards)
    ensures forall i :: 0 <= i < |RowsOf(recipes)| ==>
      RowsOf(recipes)[i].name in tasks && Shown(boards, RowsOf(recipes)[i].arch, RowsOf(recipes)[i].whiteboard)
  {
    tasks, boards := map[], map[];
    for k := 0 to |recipes|
      invariant forall n :: n in tasks ==> tasks[n] == map[]
      invariant Distinct(boards)
      invariant forall i :: 0 <= i < |RowsOf(recipes[..k])| ==>
        var row := RowsOf(recipes[..k])[i];
        row.name in tasks && Shown(boards, row.arch, row.whiteboard)
    {
      var recipe := recipes[k];
      assert recipes[..k + 1][..k] == recipes[..k];
      tasks := tasks + map i | 0 <= i < |recipe.tasks| :: recipe.tasks[i].name := map[];
      if recipe.arch in boards {
        if recipe.whiteboard !in boards[recipe.arch] {
          boards := boards[recipe.arch := boards[recipe.arch] + [recipe.whiteboard]];
        }
      } else {
        boards := boards[recipe.arch := [recipe.whiteboard]];
      }
    }
    assert recipes[..|recipes|] == recipes;
  }

  /** The cells of these architectures and whiteboards hold one detail each, if occupied; all others are empty. */
  ghost predicate Filled(m: Matrix, rows: seq<Row>, done: set<(string, Option<string>)>) {
    forall c :: At(m, c) == if (c.arch, c.whiteboard) in done && Count(rows, c) > 0 then [DetailOf(rows, c)] else []
  }

  /** Every occupied cell holds exactly one detail, with the figures of its tasks, and no other cell exists. */
  ghost predicate Complete(m: Matrix, rows: seq<Row>) {
    forall c :: At(m, c) == if Count(rows, c) > 0 then [DetailOf(rows, c)] else []
  }

  lemma WithDetailAt(m: Matrix, d: Detail, c: Cell)
    requires d.cell.name in m
    ensures At(WithDetail(m, d), c) == if c == d.cell then At(m, c) + [d] else At(m, c)
  {
  }

  /** Appends a detail to the list of its cell, making the cell if it is not there. */
  method AppendDetail(m: Matrix, d: Detail) returns (m': Matrix)
    requires d.cell.name in m
    ensures m' == WithDetail(m, d)
  {
    var (name, arch, whiteboard) := (d.cell.name, d.cell.arch, d.cell.whiteboard);
    var byArch := m[name];
    assert [] + [d] == [d];
    if arch in byArch {
      if whiteboard !in byArch[arch] {
        m' := m[name := byArch[arch := byArch[arch][whiteboard := [d]]]];
      } else {
        m' := m[name := byArch[arch := byArch[arch][whiteboard := byArch[arch][whiteboard] + [d]]]];
      }
    } else {
      m' := m[name := byArch[arch := map[whiteboard := [d]]]];
    }
  }

  /** What a grouped query adds to a cell. */
  function NewDetails(rows: seq<Row>, c: Cell, arch: string, whiteboard: Option<string>): seq<Detail> {
    if c.arch == arch && c.whiteboard == whiteboard && Count(rows, c) > 0 then [DetailOf(rows, c)] else []
  }

  /** Part of the way through a grouped query: the cells of the names that are left are still as they were. */
  ghost predicate Appended(
      m: Matrix, m': Matrix, rows: seq<Row>, arch: string, whiteboard: Option<string>, left: set<string>)
  {
    forall c ::
      At(m', c) == if c.name in left then At(m, c) else At(m, c) + NewDetails(rows, c, arch, whiteboard)
  }

  lemma AppendedStep(
      m: Matrix, m': Matrix, rows: seq<Row>, arch: string, whiteboard: Option<string>, left: set<string>, name: string)
    requires Appended(m, m', rows, arch, whiteboard, left)
    requires name in left && name in m' && Count(rows, Cell(name, arch, whiteboard)) > 0
    ensures
      Appended(m, WithDetail(m', DetailOf(rows, Cell(name, arch, whiteboard))), rows, arch, whiteboard, left - {name})
  {
    var d := DetailOf(rows, Cell(name, arch, whiteboard));
    forall c
      ensures At(WithDetail(m', d), c) ==
        if c.name in left - {name} then At(m, c) else At(m, c) + NewDetails(rows, c, arch, whiteboard)
    {
      WithDetailAt(m', d, c);
      assert At(m', c) == if c.name in left then At(m, c) else At(m, c) + NewDetails(rows, c, arch, whiteboard);
    }
  }

  /** One grouped query: a detail for each task name that occurs with the architecture and whiteboard. */
  method FillCells(m: Matrix, rows: seq<Row>, arch: string, whiteboard: Option<string>) returns (m': Matrix)
    requires forall i :: 0 <= i < |rows| ==> rows[i].name in m
    ensures m'.Keys == m.Keys
    ensures forall c :: At(m', c) == At(m, c) + NewDetails(rows, c, arch, whiteboard)
  {
    m' := m;
    var names := NamesIn(rows, arch, whiteboard);
    forall c: Cell | c.arch == arch && c.whiteboard == whiteboard
      ensures Count(rows, c) > 0 <==> c.name in names
    {
      CountsOccurrences(rows, c);
    }
    while names != {}
      invariant names <= NamesIn(rows, arch, whiteboard) && m'.Keys == m.Keys
      invariant Appended(m, m', rows, arch, whiteboard, names)
      decreases names
    {
      var name :| name in names;
      AppendedStep(m, m', rows, arch, whiteboard, names, name);
      names := names - {name};
      m' := AppendDetail(m', DetailOf(rows, Cell(name, arch, whiteboard)));
    }
  }

  lemma FilledStep(
      m: Matrix, m': Matrix, rows: seq<Row>, done: set<(string, Option<string>)>, pair: (string, Option<string>))
    requires Filled(m, rows, done) && pair !in done
    requires forall c :: At(m', c) == At(m, c) + NewDetails(rows, c, pair.0, pair.1)
    ensures Filled(m', rows, done + {pair})
  {
    forall c
      ensures At(m', c) ==
        if (c.arch, c.whiteboard) in done + {pair} && Count(rows, c) > 0 then [DetailOf(rows, c)] else []
    {
      assert At(m', c) == At(m, c) + NewDetails(rows, c, pair.0, pair.1);
      assert (c.arch, c.whiteboard) == pair <==> c.arch == pair.0 && c.whiteboard == pair.1;
    }
  }

  /** The queries of one architecture. */
  method FillArch(
      m: Matrix, rows: seq<Row>, arch: string, boards: seq<Option<string>>, ghost done: set<(string, Option<string>)>)
    returns (m': Matrix)
    requires forall i :: 0 <= i < |rows| ==> rows[i].name in m
    requires forall i, j :: 0 <= i < j < |boards| ==> boards[i] != boards[j]
    requires Filled(m, rows, done) && forall w :: (arch, w) !in done
    ensures m'.Keys == m.Keys
    ensures Filled(m', rows, done + set w | w in boards :: (arch, w))
  {
    m' := m;
    ghost var now := done;
    for k := 0 to |boards|
      invariant m'.Keys == m.Keys && Filled(m', rows, now)
      invariant now == done + set w | w in boards[..k] :: (arch, w)
    {
      var pair := (arch, boards[k]);
      assert boards[..k + 1] == boards[..k] + [boards[k]];
      ghost var before := m';
      m' := FillCells(m', rows, arch, boards[k]);
      FilledStep(before, m', rows, now, pair);
      now := now + {pair};
    }
    assert boards[..|boards|] == boards;
  }

  /** Builds the matrix, one grouped query for each architecture and whiteboard. */
  method GenerateData(recipes: seq<Recipe>) returns (m: Matrix, boards: Boards)
    ensures Complete(m, RowsOf(recipes))
    ensures forall i :: 0 <= i < |RowsOf(recipes)| ==>
      RowsOf(recipes)[i].name in m && Shown(boards, RowsOf(recipes)[i].arch, RowsOf(recipes)[i].whiteboard)
  {
    m, boards := CollectNames(recipes);
    var rows := RowsOf(recipes);
    ghost var names, done := m.Keys, {};
    var arches := boards.Keys;
    while arches != {}
      invariant arches <= boards.Keys && m.Keys == names && Filled(m, rows, done)
      invariant forall a, w :: (a, w) in done <==> a in boards && a !in arches && w in boards[a]
      decreases arches
    {
      var arch :| arch in arches;
      m := FillArch(m, rows, arch, boards[arch], done);
      done := done + set w | w in boards[arch] :: (arch, w);
      arches := arches - {arch};
    }
    forall c
      ensures Count(rows, c) > 0 ==> (c.arch, c.whiteboard) in done
    {
      CountsOccurrences(rows, c);
    }
  }

  function SumOf(ds: seq<Detail>): nat {
    if ds == [] then 0 else ds[0].total + SumOf(ds[1..])
  }

  /** What the listed cells of the matrix add up to. */
  function MatrixTotal(m: Matrix, cells: seq<Cell>): nat
    decreases |cells|
  {
    if cells == [] then 0 else MatrixTotal(m, cells[..|cells| - 1]) + SumOf(At(m, cells[|cells| - 1]))
  }

  lemma {:induction false} MatrixTotalIs(m: Matrix, rows: seq<Row>, cells: seq<Cell>)
    requires Complete(m, rows)
    ensures MatrixTotal(m, cells) == TotalOf(rows, cells)
    decreases |cells|
  {
    if cells != [] {
      MatrixTotalIs(m, rows, cells[..|cells| - 1]);
      var c := cells[|cells| - 1];
      assert At(m, c) == if Count(rows, c) > 0 then [DetailOf(rows, c)] else [];
      assert SumOf([DetailOf(rows, c)]) == Count(rows, c) + SumOf([DetailOf(rows, c)][1..]);
    }
  }

  /** Every task is counted in exactly one cell of the matrix: its cells add up to the number of tasks. */
  lemma MatrixConservesTasks(m: Matrix, rows: seq<Row>, cells: seq<Cell>)
    requires Complete(m, rows)
    requires forall i, j :: 0 <= i < j < |cells| ==> cells[i] != cells[j]
    requires forall c :: At(m, c) != [] ==> c in cells
    ensures MatrixTotal(m, cells) == |rows|
  {
    forall i | 0 <= i < |rows|
      ensures CellOf(rows[i]) in cells
    {
      CountsOccurrences(rows, CellOf(rows[i]));
      assert At(m, CellOf(rows[i])) == [DetailOf(rows, CellOf(rows[i]))];
    }
    CellsConserveTasks(rows, cells);
    MatrixTotalIs(m, rows, cells);
  }

  /* Display */

  /** The results of one task name. */
  class TaskR {
    const taskName: string
    var results: Results

    constructor (taskName: string)
      ensures this.taskName == taskName && results == map[]
    {
      this.taskName := taskName;
      results := map[];
    }

    /** Stores the list of a cell, whether or not the architecture has been seen. */
    method AddResult(arch: string, whiteboard: Option<string>, ds: seq<Detail>)
      modifies this`results
      ensures forall a, w ::
        ResultsAt(results, a, w) == if a == arch && w == whiteboard then ds else ResultsAt(old(results), a, w)
    {
      if arch in results {
        results := results[arch := results[arch][whiteboard := ds]];
      } else {
        results := results[arch := map[whiteboard := ds]];
      }
    }

    /**
     The results for an architecture and a whiteboard. Without a whiteboard, or with an empty one, those of all
     whiteboards are returned, in no particular order.
     */
    method GetResults(arch: string, whiteboard: Option<string>) returns (ds: seq<Detail>)
      ensures whiteboard.Some? && whiteboard.value != "" ==> ds == ResultsAt(results, arch, whiteboard)
      ensures whiteboard.None? || whiteboard.value == "" ==>
        forall d :: d in ds <==> exists w :: d in ResultsAt(results, arch, w)
    {
      if arch !in results {
        return [];
      }
      if whiteboard.None? || whiteboard.value == "" {
        ds := [];
        var boards := results[arch].Keys;
        while boards != {}
          invariant boards <= results[arch].Keys
          invariant forall d :: d in ds <==> exists w :: w !in boards && d in ResultsAt(results, arch, w)
          decreases boards
        {
          var w :| w in boards;
          ghost var before := boards;
          boards := boards - {w};
          assert forall v :: v !in boards <==> v !in before || v == w;
          ds := ds + results[arch][w];
        }
      } else if whiteboard in results[arch] {
        ds := results[arch][whiteboard];
      } else {
        ds := [];
      }
    }

    /** The box displayed under an architecture and a whiteboard, if any. */
    method Display(arch: string, whiteboard: Option<string>, ghost rows: seq<Row>) returns (shown: Option<Detail>)
      requires HoldsResults(this, rows)
      ensures
        var c := Cell(taskName, arch, whiteboard);
        shown == if Count(rows, c) > 0 then Some(DetailOf(rows, c)) else None
    {
      ghost var c := Cell(taskName, arch, whiteboard);
      var ds := GetResults(arch, whiteboard);
      forall d | d in ds
        ensures d == DetailOf(rows, d.cell) && (d.cell == c ==> Count(rows, c) > 0) && d.cell.name == taskName
      {
        var w :=
          if d in ResultsAt(results, arch, whiteboard) then whiteboard
          else (var w :| d in ResultsAt(results, arch, w); w);
        assert ResultsAt(results, arch, w) == ResultsFor(rows, taskName, arch, w);
      }
      assert ResultsAt(results, arch, whiteboard) == ResultsFor(rows, taskName, arch, whiteboard);
      if Count(rows, c) > 0 {
        assert DetailOf(rows, c) in ResultsAt(results, arch, whiteboard);
        assert DetailOf(rows, c) in ds;
      }
      for i := 0 to |ds|
        invariant forall j :: 0 <= j < i ==> ds[j].cell.arch != arch || ds[j].cell.whiteboard != whiteboard
      {
        if ds[i].cell.arch == arch && ds[i].cell.whiteboard == whiteboard {
          return Some(ds[i]);
        }
      }
      assert forall d :: d in ds ==> d.cell.arch != arch || d.cell.whiteboard != whiteboard;
      shown := None;
    }
  }

  /** What a complete matrix keeps for a task name. */
  function ResultsFor(rows: seq<Row>, name: string, arch: string, whiteboard: Option<string>): seq<Detail> {
    var c := Cell(name, arch, whiteboard);
    if Count(rows, c) > 0 then [DetailOf(rows, c)] else []
  }

  ghost predicate HoldsResults(t: TaskR, rows: seq<Row>)
    reads t
  {
    forall arch, whiteboard :: ResultsAt(t.results, arch, whiteboard) == ResultsFor(rows, t.taskName, arch, whiteboard)
  }

  /** Copies the cells of one task name, one after the other. */
  method MakeTaskR(name: string, cells: Results) returns (t: TaskR)
    ensures fresh(t) && t.taskName == name
    ensures forall a, w :: ResultsAt(t.results, a, w) == ResultsAt(cells, a, w)
  {
    t := new TaskR(name);
    var arches := cells.Keys;
    while arches != {}
      invariant arches <= cells.Keys
      invariant forall a, w :: ResultsAt(t.results, a, w) == if a in arches then [] else ResultsAt(cells, a, w)
      decreases arches
    {
      var arch :| arch in arches;
      arches := arches - {arch};
      var boards := cells[arch].Keys;
      while boards != {}
        invariant boards <= cells[arch].Keys
        invariant forall a, w ::
          ResultsAt(t.results, a, w) ==
          if a in arches || (a == arch && w in boards) then [] else ResultsAt(cells, a, w)
        decreases boards
      {
        var board :| board in boards;
        boards := boards - {board};
        t.AddResult(arch, board, cells[arch][board]);
      }
    }
  }

  /** One object for each task name, in the given order; the program sorts the names. */
  method MakeTaskRs(m: Matrix, order: seq<string>, ghost rows: seq<Row>) returns (ts: seq<TaskR>)
    requires Enumerates(order, m.Keys) && Complete(m, rows)
    ensures |ts| == |order| && forall i :: 0 <= i < |ts| ==> ts[i].taskName == order[i] && HoldsResults(ts[i], rows)
  {
    ts := [];
    for i := 0 to |order|
      invariant |ts| == i && forall j :: 0 <= j < i ==> ts[j].taskName == order[j] && HoldsResults(ts[j], rows)
    {
      var t := MakeTaskR(order[i], m[order[i]]);
      forall arch, whiteboard
        ensures ResultsAt(t.results, arch, whiteboard) == ResultsFor(rows, t.taskName, arch, whiteboard)
      {
        assert At(m, Cell(order[i], arch, whiteboard)) == ResultsAt(m[order[i]], arch, whiteboard);
      }
      ts := ts + [t];
    }
  }
}
