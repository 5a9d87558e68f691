/**
 The maze driver (entombed.py:414-432): draw an initial row of `columns`
 random cells, then apply `generate_row` `rows` times, each time to the row
 just made, keeping the rows for the image only when an output file is set.
 */
module MazeDriver {
  import opened Rules
  import opened Results
  import opened RowGenerator
  import opened Arith

  /** The number of iterations of `range(n)`: none for a negative `n`. */
  function Count(n: int): nat {
    if n < 0 then 0 else n
  }

  /** The initial row: `columns` fresh random bits, drawn from `start` on. */
  function InitialRow(columns: int, src: BitSource, start: nat): (row: seq<Bit>)
    ensures |row| == Count(columns) && forall k :: 0 <= k < |row| ==> row[k] == src(start + k)
  {
    seq(Count(columns), (k: nat) => src(start + k))
  }

  /** The rows generated so far, the row the next one grows from, and the draw cursor. */
  datatype Run = Run(rows: seq<seq<Bit>>, current: seq<Bit>, cursor: nat)

  /** `k` generations grown from `initial`, drawing bits from `cursor` on. */
  function Generations(lut: Table, initial: seq<Bit>, src: BitSource, cursor: nat, k: nat): (res: Result<Run>)
    requires ValidValues(lut)
    ensures res.Ok? ==>
      && |res.value.rows| == k
      && |res.value.current| == |initial|
      && (forall j :: 0 <= j < k ==> |res.value.rows[j]| == |initial|)
      && res.value.current == (if k == 0 then initial else res.value.rows[k - 1])
      && cursor <= res.value.cursor
    decreases k
  {
    if k == 0 then Ok(Run([], initial, cursor))
    else match Generations(lut, initial, src, cursor, k - 1)
      case Err(e) => Err(e)
      case Ok(run) =>
        match NextRow(lut, run.current, src, run.cursor)
        case Err(e) => Err(e)
        case Ok(g) => Ok(Run(run.rows + [g.out], g.out, g.cursor))
  }

  /** What the driver leaves behind: the saved rows, the last row, and the draw cursor. */
  datatype Maze = Maze(saved: seq<seq<Bit>>, last: seq<Bit>, cursor: nat)

  /**
   The driver run from draw `start` on. `saving` says whether an output file
   was given: the initial row is always saved, the generated ones only then.
   */
  function RunMaze(lut: Table, columns: int, rows: int, saving: bool, src: BitSource, start: nat): Result<Maze>
    requires ValidValues(lut)
  {
    RunFrom(lut, InitialRow(columns, src, start), src, start + Count(columns), Count(rows), saving)
  }

  /** `height` generations grown from `initial`, with the saved rows as the driver keeps them. */
  function RunFrom(lut: Table, initial: seq<Bit>, src: BitSource, cursor: nat, height: nat, saving: bool): Result<Maze>
    requires ValidValues(lut)
  {
    match Generations(lut, initial, src, cursor, height)
    case Err(e) => Err(e)
    case Ok(run) => Ok(Maze([initial] + (if saving then run.rows else []), run.current, run.cursor))
  }

  /** The driver: the initial row, then the generation loop. */
  method GenerateMaze(lut: Table, columns: int, rows: int, saving: bool, src: BitSource, start: nat)
    returns (res: Result<Maze>)
    requires ValidValues(lut)
    ensures res == RunMaze(lut, columns, rows, saving, src, start)
  {
    var initial := InitialRow(columns, src, start);
    res := DriveRows(lut, initial, src, start + Count(columns), Count(rows), saving);
  }

  /** The generation loop, updating the current row and appending to the saved maze. */
  method DriveRows(lut: Table, initial: seq<Bit>, src: BitSource, cursor: nat, height: nat, saving: bool)
    returns (res: Result<Maze>)
    requires ValidValues(lut)
    ensures res == RunFrom(lut, initial, src, cursor, height, saving)
  {
    var current := initial;
    var cur := cursor;
    var saved := [initial];
    ghost var generated: seq<seq<Bit>> := [];
    for i := 0 to height
      invariant Generations(lut, initial, src, cursor, i) == Ok(Run(generated, current, cur))
      invariant saved == [initial] + (if saving then generated else [])
    {
      var row := NextGeneration(lut, initial, src, cursor, i, height, generated, current, cur);
      if row.Err? {
        return Err(row.error);
      }
      if saving {
        SavedAppend(initial, generated, row.value.out);
        saved := saved + [row.value.out];
      }
      generated := generated + [row.value.out];
      current := row.value.out;
      cur := row.value.cursor;
    }
    res := Ok(Maze(saved, current, cur));
  }

  lemma SavedAppend(initial: seq<Bit>, generated: seq<seq<Bit>>, row: seq<Bit>)
    ensures [initial] + generated + [row] == [initial] + (generated + [row])
  {
  }

  /** One pass of the driver loop: the next row, or the error that ends the whole run. */
  method NextGeneration(lut: Table, initial: seq<Bit>, src: BitSource, cursor: nat, i: nat, k: nat,
                        ghost rows: seq<seq<Bit>>, current: seq<Bit>, cur: nat)
    returns (res: Result<Gen>)
    requires ValidValues(lut) && i < k
    requires Generations(lut, initial, src, cursor, i) == Ok(Run(rows, current, cur))
    ensures res.Ok? ==>
      Generations(lut, initial, src, cursor, i + 1) == Ok(Run(rows + [res.value.out], res.value.out, res.value.cursor))
    ensures res.Err? ==> Generations(lut, initial, src, cursor, k) == Err(res.error)
  {
    res := GenerateRow(lut, current, src, cur);
    if res.Err? {
      GenerationsFail(lut, initial, src, cursor, i, k, Run(rows, current, cur));
    } else {
      GenerationsNext(lut, initial, src, cursor, i, Run(rows, current, cur), res.value);
    }
  }

  /** A row that generates extends the run by one generation. */
  lemma GenerationsNext(lut: Table, initial: seq<Bit>, src: BitSource, cursor: nat, i: nat, run: Run, g: Gen)
    requires ValidValues(lut) && Generations(lut, initial, src, cursor, i) == Ok(run)
    requires NextRow(lut, run.current, src, run.cursor) == Ok(g)
    ensures Generations(lut, initial, src, cursor, i + 1) == Ok(Run(run.rows + [g.out], g.out, g.cursor))
  {
  }

  /** A row that fails makes every longer run fail with its error. */
  lemma GenerationsFail(lut: Table, initial: seq<Bit>, src: BitSource, cursor: nat, i: nat, k: nat, run: Run)
    requires ValidValues(lut) && i < k && Generations(lut, initial, src, cursor, i) == Ok(run)
    requires NextRow(lut, run.current, src, run.cursor).Err?
    ensures Generations(lut, initial, src, cursor, k) == Err(NextRow(lut, run.current, src, run.cursor).error)
  {
    GenerationsErrorPersists(lut, initial, src, cursor, i + 1, k);
  }

  /** A failed generation fails the whole run with the same error. */
  lemma {:induction false} GenerationsErrorPersists(lut: Table, initial: seq<Bit>, src: BitSource, cursor: nat, k: nat, m: nat)
    requires ValidValues(lut) && k <= m
    requires Generations(lut, initial, src, cursor, k).Err?
    ensures Generations(lut, initial, src, cursor, m) == Generations(lut, initial, src, cursor, k)
    decreases m
  {
    if m > k {
      GenerationsErrorPersists(lut, initial, src, cursor, k, m - 1);
    }
  }

  // ---------------------------------------------------------------------
  // Properties of the driver.

  /**
   The draw cursor after `j` generations, for a run that gets that far (the
   starting cursor otherwise).
   */
  function CursorAfter(lut: Table, initial: seq<Bit>, src: BitSource, cursor: nat, j: nat): nat
    requires ValidValues(lut)
  {
    match Generations(lut, initial, src, cursor, j)
    case Ok(run) => run.cursor
    case Err(_) => cursor
  }
  /** A run that gets to `k` generations got to every `j <= k`, with the first `j` of its rows. */
  lemma {:induction false} GenerationsPrefix(lut: Table, initial: seq<Bit>, src: BitSource, cursor: nat, j: nat, k: nat)
    requires ValidValues(lut) && j <= k && Generations(lut, initial, src, cursor, k).Ok?
    ensures Generations(lut, initial, src, cursor, j).Ok?
    ensures Generations(lut, initial, src, cursor, j).value.rows == Generations(lut, initial, src, cursor, k).value.rows[..j]
    decreases k
  {
    var rows := Generations(lut, initial, src, cursor, k).value.rows;
    if j < k {
      var run := Generations(lut, initial, src, cursor, k - 1).value;
      var g := NextRow(lut, run.current, src, run.cursor).value;
      assert rows == run.rows + [g.out];
      GenerationsPrefix(lut, initial, src, cursor, j, k - 1);
      assert rows[..j] == run.rows[..j];
    } else {
      assert rows[..k] == rows;
    }
  }

  /** Generation `j + 1` is generated from the current row of generation `j`, from its cursor on. */
  lemma GenerationStep(lut: Table, initial: seq<Bit>, src: BitSource, cursor: nat, j: nat)
    requires ValidValues(lut) && Generations(lut, initial, src, cursor, j + 1).Ok?
    ensures Generations(lut, initial, src, cursor, j).Ok?
    ensures var before := Generations(lut, initial, src, cursor, j).value;
      var after := Generations(lut, initial, src, cursor, j + 1).value;
      Generated(lut, before.current, src, before.cursor, after.rows[j], after.cursor)
  {
    var before := Generations(lut, initial, src, cursor, j).value;
    RowResult(lut, before.current, src, before.cursor);
  }

  /**
   Row `j` of a run is generated from the row before it (the initial row for
   `j = 0`), drawing from where row `j - 1` stopped.
   */
  lemma GenerationRow(lut: Table, initial: seq<Bit>, src: BitSource, cursor: nat, j: nat, k: nat,
                      rows: seq<seq<Bit>>, prev: seq<Bit>)
    requires ValidValues(lut) && j < k && Generations(lut, initial, src, cursor, k).Ok?
    requires rows == Generations(lut, initial, src, cursor, k).value.rows && |rows| == k
    requires prev == if j == 0 then initial else rows[j - 1]
    ensures Generations(lut, initial, src, cursor, j).Ok? && Generations(lut, initial, src, cursor, j + 1).Ok?
    ensures Generated(lut, prev, src, CursorAfter(lut, initial, src, cursor, j), rows[j], CursorAfter(lut, initial, src, cursor, j + 1))
  {
    GenerationsRowAgree(lut, initial, src, cursor, j, k);
    GenerationsCurrentAgree(lut, initial, src, cursor, j, k);
    GenerationStep(lut, initial, src, cursor, j);
  }

  /** Row `j` of a run is row `j` of every longer run. */
  lemma GenerationsRowAgree(lut: Table, initial: seq<Bit>, src: BitSource, cursor: nat, j: nat, k: nat)
    requires ValidValues(lut) && j < k && Generations(lut, initial, src, cursor, k).Ok?
    ensures Generations(lut, initial, src, cursor, j + 1).Ok?
    ensures Generations(lut, initial, src, cursor, j + 1).value.rows[j] == Generations(lut, initial, src, cursor, k).value.rows[j]
  {
    GenerationsPrefix(lut, initial, src, cursor, j + 1, k);
  }

  /** The row generation `j` grows from is row `j - 1` of every longer run, or the initial row. */
  lemma GenerationsCurrentAgree(lut: Table, initial: seq<Bit>, src: BitSource, cursor: nat, j: nat, k: nat)
    requires ValidValues(lut) && j < k && Generations(lut, initial, src, cursor, k).Ok?
    ensures Generations(lut, initial, src, cursor, j).Ok?
    ensures Generations(lut, initial, src, cursor, j).value.current
      == if j == 0 then initial else Generations(lut, initial, src, cursor, k).value.rows[j - 1]
  {
    GenerationsPrefix(lut, initial, src, cursor, j, k);
    if j > 0 {
      var before := Generations(lut, initial, src, cursor, j).value;
      assert before.current == before.rows[j - 1];
    }
  }

  /**
   The saved maze: the initial row of `columns` random cells, followed, when
   saving, by `rows` more rows of the same width.
   */
  lemma MazeShape(lut: Table, columns: int, rows: int, saving: bool, src: BitSource, start: nat)
    requires ValidValues(lut) && RunMaze(lut, columns, rows, saving, src, start).Ok?
    ensures var m := RunMaze(lut, columns, rows, saving, src, start).value;
      && |m.saved| == (if saving then Count(rows) + 1 else 1)
      && m.saved[0] == InitialRow(columns, src, start)
      && (forall j :: 0 <= j < |m.saved| ==> |m.saved[j]| == Count(columns))
      && |m.last| == Count(columns)
  {
    var initial := InitialRow(columns, src, start);
    var run := Generations(lut, initial, src, start + Count(columns), Count(rows)).value;
    var m := RunMaze(lut, columns, rows, saving, src, start).value;
    assert m.saved == [initial] + (if saving then run.rows else []);
  }

  /**
   Each saved row after the first is generated from the one before it. The
   initial row takes draws `start` to `start + columns - 1`; each later row
   draws from where the row before it stopped, and the last one stops where
   the driver's cursor ends.
   */
  lemma MazeRowsFollowRule(lut: Table, columns: int, rows: int, src: BitSource, start: nat)
    requires ValidValues(lut) && RunMaze(lut, columns, rows, true, src, start).Ok?
    ensures var initial, c0 := InitialRow(columns, src, start), start + Count(columns);
      var m := RunMaze(lut, columns, rows, true, src, start).value;
      && |m.saved| == Count(rows) + 1
      && CursorAfter(lut, initial, src, c0, 0) == c0
      && CursorAfter(lut, initial, src, c0, Count(rows)) == m.cursor
      && forall j :: 0 <= j < Count(rows) ==>
           Generated(lut, m.saved[j], src, CursorAfter(lut, initial, src, c0, j), m.saved[j + 1], CursorAfter(lut, initial, src, c0, j + 1))
  {
    var initial, c0 := InitialRow(columns, src, start), start + Count(columns);
    var run := Generations(lut, initial, src, c0, Count(rows)).value;
    var m := RunMaze(lut, columns, rows, true, src, start).value;
    assert m.saved == [initial] + run.rows;
    forall j | 0 <= j < Count(rows)
      ensures Generated(lut, m.saved[j], src, CursorAfter(lut, initial, src, c0, j), m.saved[j + 1], CursorAfter(lut, initial, src, c0, j + 1))
    {
      assert m.saved[j + 1] == run.rows[j];
      assert m.saved[j] == if j == 0 then initial else run.rows[j - 1];
      GenerationRow(lut, initial, src, c0, j, Count(rows), run.rows, m.saved[j]);
    }
  }

  /**
   The driver draws `columns` bits for the initial row and at most one bit
   per generated cell.
   */
  lemma MazeDraws(lut: Table, columns: int, rows: int, saving: bool, src: BitSource, start: nat)
    requires ValidValues(lut) && RunMaze(lut, columns, rows, saving, src, start).Ok?
    ensures var m := RunMaze(lut, columns, rows, saving, src, start).value;
      start + Count(columns) <= m.cursor <= start + Count(columns) + Count(rows) * Count(columns)
  {
    GenerationsDraws(lut, InitialRow(columns, src, start), src, start + Count(columns), Count(rows));
  }

  /** Each generation draws at most one bit per cell. */
  lemma {:induction false} GenerationsDraws(lut: Table, initial: seq<Bit>, src: BitSource, cursor: nat, k: nat)
    requires ValidValues(lut) && Generations(lut, initial, src, cursor, k).Ok?
    ensures Generations(lut, initial, src, cursor, k).value.cursor <= cursor + k * |initial|
  {
    if k > 0 {
      GenerationsDraws(lut, initial, src, cursor, k - 1);
      Distribute(k, 1, |initial|);
    }
  }

  /** A table with an entry for every code never makes the driver fail. */
  lemma {:induction false} FullTableGenerations(lut: Table, initial: seq<Bit>, src: BitSource, cursor: nat, k: nat)
    requires ValidValues(lut) && |lut| >= 32
    ensures Generations(lut, initial, src, cursor, k).Ok?
  {
    if k > 0 {
      FullTableGenerations(lut, initial, src, cursor, k - 1);
      var run := Generations(lut, initial, src, cursor, k - 1).value;
      RowResult(lut, run.current, src, run.cursor);
    }
  }

  /** With a table of at least 32 entries the whole run succeeds. */
  lemma FullTableMaze(lut: Table, columns: int, rows: int, saving: bool, src: BitSource, start: nat)
    requires ValidValues(lut) && |lut| >= 32
    ensures RunMaze(lut, columns, rows, saving, src, start).Ok?
  {
    FullTableGenerations(lut, InitialRow(columns, src, start), src, start + Count(columns), Count(rows));
  }

  /** The built-in table drives a maze of any size to completion. */
  lemma DefaultMazeSucceeds(columns: int, rows: int, saving: bool, src: BitSource, start: nat)
    ensures ValidValues(DefaultLut) && RunMaze(DefaultLut, columns, rows, saving, src, start).Ok?
  {
    DefaultLutShape();
    FullTableMaze(DefaultLut, columns, rows, saving, src, start);
  }

  /**
   With a table whose every entry is `v` (all NoWall or all Wall), every
   generated row is `v` throughout and no bit is drawn after the initial row.
   */
  lemma {:induction false} UniformGenerations(lut: Table, v: Bit, initial: seq<Bit>, src: BitSource, cursor: nat, k: nat)
    requires |lut| >= 32 && (forall i :: 0 <= i < |lut| ==> lut[i] == v)
    ensures ValidValues(lut)
    ensures var res := Generations(lut, initial, src, cursor, k);
      && res.Ok? && res.value.cursor == cursor
      && forall j :: 0 <= j < k ==> res.value.rows[j] == seq(|initial|, _ => v)
  {
    assert ValidValues(lut);
    if k > 0 {
      UniformGenerations(lut, v, initial, src, cursor, k - 1);
      var run := Generations(lut, initial, src, cursor, k - 1).value;
      UniformTableRow(lut, v, run.current, src, run.cursor);
    }
  }

  lemma UniformMaze(lut: Table, v: Bit, columns: int, rows: int, src: BitSource, start: nat)
    requires |lut| >= 32 && (forall i :: 0 <= i < |lut| ==> lut[i] == v)
    ensures ValidValues(lut)
    ensures var res := RunMaze(lut, columns, rows, true, src, start);
      && res.Ok?
      && |res.value.saved| == Count(rows) + 1
      && forall j :: 1 <= j < |res.value.saved| ==> res.value.saved[j] == seq(Count(columns), _ => v)
  {
    var initial := InitialRow(columns, src, start);
    UniformGenerations(lut, v, initial, src, start + Count(columns), Count(rows));
    var res := RunMaze(lut, columns, rows, true, src, start);
    var run := Generations(lut, initial, src, start + Count(columns), Count(rows)).value;
    assert res.value.saved == [initial] + run.rows;
  }
}
