/** The single-process update of the simulator: each step copies the grid,
    runs the rule chain on every cell of the copy while reading neighbours
    from the untouched original, swaps the two buffers and advances the
    clock. */
module SerialMain {

  import opened Arith
  import opened SimulationRules

  /** The rule chain run on one cell of the copy during a step: infection
      (susceptible cells only), then the contagion, isolation and
      outcome rules, each seeing what the previous one left. */
  function CellStep(c: Cell, neighbors: seq<Cell>, time: int, rng: Rand, pos: nat): (r: Drawn)
    requires |neighbors| == 8
    ensures pos <= r.next <= pos + 3
    ensures r.cell == c.(status := r.cell.status, contagionT := r.cell.contagionT)
    ensures c.status in {EmptyWhite, CuredGreen, DeadBlack} ==> r == Drawn(c, pos)
  {
    var s1 := if c.status == SuscBlue then SusceptibleToSickRule(c, neighbors, time, rng, pos) else Drawn(c, pos);
    var s2 := if s1.cell.status == SickNcOrange then Drawn(SickToContagiousRule(s1.cell, time), s1.next) else s1;
    var s3 := if s2.cell.status == SickCRed then ContagiousToIsolatedRule(s2.cell, time, rng, s2.next) else s2;
    if IsSick(s3.cell) && time - s3.cell.contagionT == 14 then LiveOrDieRule(s3.cell, rng, s3.next) else s3
  }

  /** A cell that is sick with exactly 14 steps since exposure leaves the
      step cured or dead. */
  lemma CellStepResolves(c: Cell, neighbors: seq<Cell>, time: int, rng: Rand, pos: nat)
    requires |neighbors| == 8 && IsSick(c) && time - c.contagionT == 14
    ensures CellStep(c, neighbors, time, rng, pos).cell.status in {CuredGreen, DeadBlack}
  {
  }

  /** The rules are chained within one step: an exposed cell whose fourth
      step has come turns contagious and is then handed to the isolation
      rule, which at that age takes no draw and leaves it contagious. */
  lemma CellStepChains(c: Cell, neighbors: seq<Cell>, time: int, rng: Rand, pos: nat)
    requires |neighbors| == 8 && c.status == SickNcOrange && time - c.contagionT == 4
    ensures CellStep(c, neighbors, time, rng, pos) == Drawn(c.(status := SickCRed), pos)
  {
  }

  /** The states a cell can be in at the start of step t of a run that
      started from an initialised grid: an exposed cell has been exposed
      for 0 to 4 steps, a contagious one for 5 to 14, and no cell is
      isolated. */
  ghost predicate OnTimeline(c: Cell, t: int)
  {
    && c.status != IsolatedYellow
    && (c.status == SickNcOrange ==> 0 <= t - c.contagionT <= 4)
    && (c.status == SickCRed ==> 5 <= t - c.contagionT <= 14)
  }

  lemma InitialisedOnTimeline(c: Cell)
    requires Initialised(c)
    ensures OnTimeline(c, 0)
  {
  }

  /** The step keeps every cell on the timeline: the isolation rule is
      checked only on contagious cells, which by then are at least 4 steps
      past exposure, so its "2 steps elapsed" test never passes. */
  lemma CellStepOnTimeline(c: Cell, neighbors: seq<Cell>, time: int, rng: Rand, pos: nat)
    requires |neighbors| == 8 && OnTimeline(c, time)
    ensures OnTimeline(CellStep(c, neighbors, time, rng, pos).cell, time + 1)
  {
    var s1 := if c.status == SuscBlue then SusceptibleToSickRule(c, neighbors, time, rng, pos) else Drawn(c, pos);
    assert s1.cell.status == SickNcOrange ==> 0 <= time - s1.cell.contagionT <= 4;
    assert s1.cell.status == SickCRed ==> 5 <= time - s1.cell.contagionT <= 14;
  }

  /** The neighbour cells of column x, row y, read from the grid `g`. */
  function NeighborCells(g: seq<Cell>, w: int, h: int, x: nat, y: nat): (r: seq<Cell>)
    requires w >= 1 && h >= 1 && |g| == w * h
    ensures |r| == 8
  {
    Pick(g, Neighbors(w, h, x, y))
  }

  /** Column and row of the k-th cell visited by nested row and column
      loops over a w-wide grid. */
  function Position(k: nat, w: int): (p: (nat, nat))
    requires w >= 1
    ensures p.0 < w
  {
    if k < w then (k, 0)
    else
      var q := Position(k - w, w);
      (q.0, q.1 + 1)
  }

  /** The cell at column x, row y is visited at its row-major index. */
  lemma {:induction false} PositionOf(x: nat, y: nat, w: int)
    requires w >= 1 && x < w
    ensures Position(RowOffset(y, w) + x, w) == (x, y)
  {
    if y > 0 {
      PositionOf(x, y - 1, w);
    }
  }

  /** The first n cells of a step over snapshot `g` at time t, visited in
      row-major order from draw `pos`, and the next unused draw. */
  function StepSweep(g: seq<Cell>, w: int, h: int, t: int, rng: Rand, pos: nat, n: nat): (r: Sweep)
    requires w >= 1 && h >= 1 && |g| == w * h && n <= |g|
    ensures |r.cells| == n && pos <= r.next
  {
    if n == 0 then Sweep([], pos)
    else
      var p := StepSweep(g, w, h, t, rng, pos, n - 1);
      var q := Position(n - 1, w);
      var d := CellStep(g[n - 1], NeighborCells(g, w, h, q.0, q.1), t, rng, p.next);
      Sweep(p.cells + [d.cell], d.next)
  }

  /** Stepping one more cell appends that cell's rule-chain result. */
  lemma StepSweepExtend(g: seq<Cell>, w: int, h: int, t: int, rng: Rand, pos: nat, n: nat, x: nat, y: nat)
    requires w >= 1 && h >= 1 && |g| == w * h && x < w && y < h && n == RowOffset(y, w) + x
    ensures n < |g|
    ensures var before := StepSweep(g, w, h, t, rng, pos, n);
      var d := CellStep(g[n], NeighborCells(g, w, h, x, y), t, rng, before.next);
      StepSweep(g, w, h, t, rng, pos, n + 1) == Sweep(before.cells + [d.cell], d.next)
  {
    RowOffsetFits(y, w, h);
    RowOffsetIsProduct(h, w);
    PositionOf(x, y, w);
  }

  /** The grid after one step over snapshot `g`. */
  function StepGrid(g: seq<Cell>, w: int, h: int, t: int, rng: Rand, pos: nat): (r: Sweep)
    requires w >= 1 && h >= 1 && |g| == w * h
    ensures |r.cells| == |g|
  {
    StepSweep(g, w, h, t, rng, pos, |g|)
  }

  /** What a step may do to a cell: change its status and contagion time
      only, and leave an empty, cured or dead cell as it is. */
  ghost predicate StepKeeps(c: Cell, c': Cell)
  {
    c' == c.(status := c'.status, contagionT := c'.contagionT) &&
    (c.status in {EmptyWhite, CuredGreen, DeadBlack} ==> c' == c)
  }

  /** Every cell of `after` is what a step may make of the same cell of
      `before`. */
  ghost predicate AllStepKeep(before: seq<Cell>, after: seq<Cell>)
  {
    |after| <= |before| &&
    forall k {:trigger StepKeeps(before[k], after[k])} :: 0 <= k < |after| ==> StepKeeps(before[k], after[k])
  }

  lemma {:induction false} StepSweepPreserves(g: seq<Cell>, w: int, h: int, t: int, rng: Rand, pos: nat, n: nat)
    requires w >= 1 && h >= 1 && |g| == w * h && n <= |g|
    ensures AllStepKeep(g, StepSweep(g, w, h, t, rng, pos, n).cells)
  {
    if n > 0 {
      StepSweepPreserves(g, w, h, t, rng, pos, n - 1);
      var before := StepSweep(g, w, h, t, rng, pos, n - 1);
      var r := StepSweep(g, w, h, t, rng, pos, n).cells;
      assert StepKeeps(g[n - 1], r[n - 1]);
      forall k | 0 <= k < n
        ensures StepKeeps(g[k], r[k])
      {
        if k < n - 1 {
          assert r[k] == before.cells[k];
        }
      }
    }
  }

  /** A step changes only status and contagion time; empty, cured and dead
      cells come out of it unchanged. */
  lemma StepGridPreserves(g: seq<Cell>, w: int, h: int, t: int, rng: Rand, pos: nat)
    requires w >= 1 && h >= 1 && |g| == w * h
    ensures AllStepKeep(g, StepGrid(g, w, h, t, rng, pos).cells)
  {
    StepSweepPreserves(g, w, h, t, rng, pos, |g|);
  }

  /** Every cell of `cells` is on the timeline at time t. */
  ghost predicate AllOnTimeline(cells: seq<Cell>, t: int)
  {
    forall k {:trigger OnTimeline(cells[k], t)} :: 0 <= k < |cells| ==> OnTimeline(cells[k], t)
  }

  /** Stepping cells that are on the timeline at time t leaves them on the
      timeline at t + 1. */
  lemma {:induction false} StepSweepOnTimeline(g: seq<Cell>, w: int, h: int, t: int, rng: Rand, pos: nat, n: nat)
    requires w >= 1 && h >= 1 && |g| == w * h && n <= |g|
    requires AllOnTimeline(g, t)
    ensures AllOnTimeline(StepSweep(g, w, h, t, rng, pos, n).cells, t + 1)
  {
    if n > 0 {
      StepSweepOnTimeline(g, w, h, t, rng, pos, n - 1);
      var before := StepSweep(g, w, h, t, rng, pos, n - 1);
      var q := Position(n - 1, w);
      assert OnTimeline(g[n - 1], t);
      CellStepOnTimeline(g[n - 1], NeighborCells(g, w, h, q.0, q.1), t, rng, before.next);
      var r := StepSweep(g, w, h, t, rng, pos, n).cells;
      forall k | 0 <= k < n
        ensures OnTimeline(r[k], t + 1)
      {
        if k < n - 1 {
          assert r[k] == before.cells[k];
        }
      }
    }
  }

  /** A grid whose cells are all on the timeline at time t steps to a grid
      whose cells are all on the timeline at t + 1. */
  lemma StepGridOnTimeline(g: seq<Cell>, w: int, h: int, t: int, rng: Rand, pos: nat)
    requires w >= 1 && h >= 1 && |g| == w * h
    requires AllOnTimeline(g, t)
    ensures AllOnTimeline(StepGrid(g, w, h, t, rng, pos).cells, t + 1)
  {
    StepSweepOnTimeline(g, w, h, t, rng, pos, |g|);
  }

  /** The state of the single-process simulator: the current grid, the
      buffer the next grid is built in, the clock and the rand() cursor. */
  class Simulator {
    const rows: int
    const cols: int
    const rng: Rand
    var matrix: array<Cell>
    var updMatrix: array<Cell>
    var simT: int
    var drawPos: nat
    /** What the current buffer held when it was allocated: the initialiser
        writes only the status of the slots it empties, so the first grid
        depends on it. */
    ghost const unset: seq<Cell>

    /** Two distinct rows-by-cols buffers, and a current grid every cell of
        which is in a state a run can reach. */
    ghost predicate Valid()
      reads this, matrix
    {
      && rows >= 1 && cols >= 1
      && matrix.Length == rows * cols && updMatrix.Length == rows * cols
      && matrix != updMatrix
      && AllOnTimeline(matrix[..], simT)
    }

    /** Allocates both buffers, initialises the current grid from draw 0 and
        starts the clock at 0. */
    constructor (rows: int, cols: int, rng: Rand)
      requires rows >= 1 && cols >= 1
      ensures Valid() && fresh(matrix) && fresh(updMatrix)
      ensures this.rows == rows && this.cols == cols && this.rng == rng && simT == 0
      ensures forall k :: 0 <= k < matrix.Length ==> Initialised(matrix[k])
      ensures |unset| == rows * cols
      ensures var s := InitSweep(unset, rng, 0, rows * cols); matrix[..] == s.cells && drawPos == s.next
    {
      var m := new Cell[rows * cols];
      var u := new Cell[rows * cols];
      unset := m[..];
      var next := InitWhole(m, cols, rows, rng, 0);
      this.rows, this.cols, this.rng := rows, cols, rng;
      matrix, updMatrix := m, u;
      simT, drawPos := 0, next;
      new;
      ghost var cells := matrix[..];
      forall k | 0 <= k < |cells|
        ensures OnTimeline(cells[k], simT)
      {
        InitialisedOnTimeline(cells[k]);
      }
    }

    /** One simulation step: the new grid is the step of the old one, the
        old grid is kept in the other buffer, the buffers trade places and
        the clock advances by one. */
    method Update()
      requires Valid()
      modifies this, updMatrix
      ensures Valid()
      ensures matrix == old(updMatrix) && updMatrix == old(matrix)
      ensures updMatrix[..] == old(matrix[..])
      ensures var s := StepGrid(old(matrix[..]), cols, rows, old(simT), rng, old(drawPos));
        matrix[..] == s.cells && drawPos == s.next
      ensures simT == old(simT) + 1
    {
      forall k | 0 <= k < cols * rows {
        updMatrix[k] := matrix[k];
      }
      ghost var snapshot := matrix[..];
      assert updMatrix[..] == snapshot;
      drawPos := StepCells(matrix, updMatrix, cols, rows, simT, rng, drawPos);
      StepGridOnTimeline(snapshot, cols, rows, simT, rng, old(drawPos));
      matrix, updMatrix := updMatrix, matrix;
      simT := simT + 1;
    }

    /** The reset key: the current grid is initialised again in place,
        drawing on from the current cursor, and the clock restarts at 0;
        the other buffer is left as it is. */
    method Reset()
      requires Valid()
      modifies this, matrix
      ensures Valid() && matrix == old(matrix) && updMatrix == old(updMatrix)
      ensures var s := InitSweep(old(matrix[..]), rng, old(drawPos), rows * cols);
        matrix[..] == s.cells && drawPos == s.next
      ensures simT == 0
    {
      var next := InitWhole(matrix, cols, rows, rng, drawPos);
      drawPos, simT := next, 0;
      ghost var cells := matrix[..];
      forall k | 0 <= k < |cells|
        ensures OnTimeline(cells[k], simT)
      {
        InitialisedOnTimeline(cells[k]);
      }
    }
  }

  /** The rule chain of one step on the cell at column x, row y, reading
      its neighbours from `grid` and drawing from `pos`: each rule sees the
      cell the previous one left. */
  method RunRules(grid: array<Cell>, ghost g: seq<Cell>, cell: Cell, cols: int, rows: int, x: int, y: int, t: int, rng: Rand, pos: nat)
    returns (current: Cell, next: nat)
    requires cols >= 1 && rows >= 1 && grid[..] == g && |g| == cols * rows && 0 <= x < cols && 0 <= y < rows
    ensures Drawn(current, next) == CellStep(cell, NeighborCells(g, cols, rows, x, y), t, rng, pos)
  {
    ghost var nbs := Pick(grid[..], Neighbors(cols, rows, x, y));
    current, next := cell, pos;
    ghost var s1 := if current.status == SuscBlue then SusceptibleToSickRule(current, nbs, t, rng, next) else Drawn(current, next);
    if current.status == SuscBlue {
      var infection := SusceptibleToSickRule(current, Pick(grid[..], Neighbors(cols, rows, x, y)), t, rng, next);
      current, next := infection.cell, infection.next;
    }
    assert Drawn(current, next) == s1;
    ghost var s2 := if s1.cell.status == SickNcOrange then Drawn(SickToContagiousRule(s1.cell, t), s1.next) else s1;
    if current.status == SickNcOrange {
      current := SickToContagiousRule(current, t);
    }
    assert Drawn(current, next) == s2;
    ghost var s3 := if s2.cell.status == SickCRed then ContagiousToIsolatedRule(s2.cell, t, rng, s2.next) else s2;
    if current.status == SickCRed {
      var isolation := ContagiousToIsolatedRule(current, t, rng, next);
      current, next := isolation.cell, isolation.next;
    }
    assert Drawn(current, next) == s3;
    if IsSick(current) && t - current.contagionT == 14 {
      var outcome := LiveOrDieRule(current, rng, next);
      current, next := outcome.cell, outcome.next;
    }
  }

  /** `u` holds the first k cells of a step over `snapshot` from draw
      `pos`, followed by the snapshot's own cells, and `next` is the first
      draw not yet used. */
  ghost predicate SteppedTo(u: seq<Cell>, snapshot: seq<Cell>, cols: int, rows: int, t: int, rng: Rand,
                            pos: nat, k: nat, next: nat)
  {
    && cols >= 1 && rows >= 1 && |snapshot| == cols * rows && k <= |snapshot|
    && var s := StepSweep(snapshot, cols, rows, t, rng, pos, k);
    u == Overwritten(snapshot, 0, s.cells) && next == s.next
  }

  /** The cell at column x, row y still holds its snapshot value, and
      writing its rule-chain result extends the stepped prefix by one. */
  lemma SteppedSlot(u: seq<Cell>, snapshot: seq<Cell>, cols: int, rows: int, t: int, rng: Rand,
                    pos: nat, k: nat, next: nat, x: nat, y: nat)
    requires x < cols && y < rows && k == RowOffset(y, cols) + x
    requires SteppedTo(u, snapshot, cols, rows, t, rng, pos, k, next)
    ensures k < |u| && u[k] == snapshot[k]
    ensures var d := CellStep(snapshot[k], NeighborCells(snapshot, cols, rows, x, y), t, rng, next);
      SteppedTo(u[k := d.cell], snapshot, cols, rows, t, rng, pos, k + 1, d.next)
  {
    StepSweepExtend(snapshot, cols, rows, t, rng, pos, k, x, y);
    var before := StepSweep(snapshot, cols, rows, t, rng, pos, k);
    var d := CellStep(snapshot[k], NeighborCells(snapshot, cols, rows, x, y), t, rng, next);
    OverwrittenExtend(snapshot, 0, before.cells, d.cell);
  }

  /** One cell of a step: the cell at column x, row y (row-major index k)
      of `upd` goes through the rule chain with its neighbours read from
      `grid`; `after` is the index of the cell that comes next. */
  method StepSlot(grid: array<Cell>, upd: array<Cell>, ghost snapshot: seq<Cell>, cols: int, rows: int,
                  x: nat, y: nat, k: nat, t: int, rng: Rand, pos: nat, ghost start: nat)
    returns (next: nat, after: nat)
    requires grid != upd && grid[..] == snapshot
    requires x < cols && y < rows && k == RowOffset(y, cols) + x
    requires SteppedTo(upd[..], snapshot, cols, rows, t, rng, start, k, pos)
    modifies upd
    ensures after == k + 1
    ensures SteppedTo(upd[..], snapshot, cols, rows, t, rng, start, after, next)
  {
    SteppedSlot(upd[..], snapshot, cols, rows, t, rng, start, k, pos, x, y);
    var current;
    current, next := RunRules(grid, snapshot, upd[k], cols, rows, x, y, t, rng, pos);
    upd[k] := current;
    after := k + 1;
  }

  /** The column loop of a step over row i, whose first cell has row-major
      index k: every cell of the row goes through the rule chain, left to
      right; `after` is the index of the first cell of the next row. */
  method StepRow(grid: array<Cell>, upd: array<Cell>, ghost snapshot: seq<Cell>, cols: int, rows: int,
                 i: nat, k: nat, t: int, rng: Rand, pos: nat, ghost start: nat)
    returns (next: nat, after: nat)
    requires grid != upd && grid[..] == snapshot
    requires cols >= 1 && i < rows && k == RowOffset(i, cols)
    requires SteppedTo(upd[..], snapshot, cols, rows, t, rng, start, k, pos)
    modifies upd
    ensures after == k + cols
    ensures SteppedTo(upd[..], snapshot, cols, rows, t, rng, start, after, next)
  {
    next, after := pos, k;
    for j := 0 to cols
      invariant after == k + j
      invariant SteppedTo(upd[..], snapshot, cols, rows, t, rng, start, after, next)
    {
      next, after := StepSlot(grid, upd, snapshot, cols, rows, j, i, after, t, rng, next, start);
    }
  }

  /** The row loop of a step: every cell of `upd`, which starts as a copy
      of `grid`, goes through the rule chain with its neighbours read from
      `grid`, in row-major order, drawing from `pos`. */
  method StepCells(grid: array<Cell>, upd: array<Cell>, cols: int, rows: int, t: int, rng: Rand, pos: nat)
    returns (next: nat)
    requires cols >= 1 && rows >= 1 && grid != upd
    requires grid.Length == cols * rows && upd[..] == grid[..]
    modifies upd
    ensures var s := StepGrid(grid[..], cols, rows, t, rng, pos);
      upd[..] == s.cells && next == s.next
  {
    ghost var snapshot := grid[..];
    assert snapshot[..0] + [] + snapshot[0..] == snapshot;
    RowOffsetIsProduct(rows, cols);
    next := pos;
    var k := 0;  // row-major index i * cols of the first cell of row i
    for i := 0 to rows
      invariant k == RowOffset(i, cols)
      invariant SteppedTo(upd[..], snapshot, cols, rows, t, rng, pos, k, next)
    {
      next, k := StepRow(grid, upd, snapshot, cols, rows, i, k, t, rng, next, pos);
    }
    OverwrittenWhole(snapshot, StepGrid(snapshot, cols, rows, t, rng, pos).cells);
  }
}
