/** The master side of the MPI variant of the simulator: the start-up
    checks, the partition plan, the padded grid with its two halo rows, the
    scatter/gather exchange of row blocks and the buffer swap.

    The padded grid holds rows + 2 rows of `cols` cells: padded row 0 is a
    copy of the last logical row, padded rows 1..rows are the logical grid
    and padded row rows + 1 is a copy of the first logical row. Process i
    receives padded rows i * k .. i * k + k + 1 (k = rows / nprocs) and
    sends back its k interior rows. */
module MpiMain {

  import opened Arith
  import opened SimulationRules
  import RowMapping

  /** Number of steps of the main loop. */
  const SimLimit: nat := 120

  /** Halo rows added to each process's block and to the master's grid. */
  const RPadding: int := 2

  // ---------------------------------------------------------------------
  // Start-up checks

  /** How start-up ends: the run goes ahead, or it aborts with the usage
      message, the too-small message or the divisibility message. */
  datatype Verdict = Run | Usage | TooSmall | Indivisible

  /** The sizes the run accepts. */
  predicate Launchable(rows: int, cols: int, nprocs: int)
  {
    nprocs >= 1 && rows >= 2 && cols >= 2 && rows % nprocs == 0
  }

  /** The three checks before any allocation, in the order they are made;
      each failing check aborts the run. */
  function CheckConfig(argc: int, rows: int, cols: int, nprocs: int): (v: Verdict)
    requires nprocs >= 1
    ensures v == Run <==> argc >= 3 && Launchable(rows, cols, nprocs)
    ensures v == Usage <==> argc < 3
    ensures v == TooSmall <==> argc >= 3 && (rows < 2 || cols < 2)
  {
    if argc < 3 then Usage
    else if rows < 2 || cols < 2 then TooSmall
    else if rows % nprocs != 0 then Indivisible
    else Run
  }

  /** An accepted configuration gives every process at least one interior
      row, and the blocks together hold exactly the logical rows. */
  lemma LaunchableShares(rows: int, cols: int, nprocs: int)
    requires Launchable(rows, cols, nprocs)
    ensures rows / nprocs >= 1 && nprocs * (rows / nprocs) == rows && rows >= nprocs
  {
    var k := rows / nprocs;
    assert rows == nprocs * k;
    if k <= 0 {
      MulMono(k, 0, nprocs);
      assert false;
    }
    MulAtLeast(k, nprocs);
  }

  // ---------------------------------------------------------------------
  // Partition plan

  /** rows_per_proc: the interior rows of a block plus its two halo rows. */
  function RowsPerProc(rows: int, nprocs: int): int
    requires nprocs >= 1
  {
    RowMapping.RowsPerProc(rows, nprocs, RPadding)
  }

  /** Cells sent to each process: its whole padded block. */
  function SendCount(rows: int, cols: int, nprocs: int): int
    requires nprocs >= 1
  {
    RowsPerProc(rows, nprocs) * cols
  }

  /** Cells received back from each process: its interior rows. */
  function RecvCount(rows: int, cols: int, nprocs: int): int
    requires nprocs >= 1
  {
    (RowsPerProc(rows, nprocs) - RPadding) * cols
  }

  /** Offset of process i's block, both in the padded grid (scatter) and
      from padded row 1 (gather). */
  function Displacement(rows: int, cols: int, nprocs: int, i: int): int
    requires nprocs >= 1
  {
    i * (RowsPerProc(rows, nprocs) - RPadding) * cols
  }

  /** The three plan arrays hold, for every process, its send count, its
      receive count and its displacement. */
  ghost predicate Planned(rows: int, cols: int, nprocs: int,
                          sendcounts: array<int>, recvcounts: array<int>, displacements: array<int>)
    requires nprocs >= 1
    reads sendcounts, recvcounts, displacements
  {
    && sendcounts.Length == nprocs && recvcounts.Length == nprocs && displacements.Length == nprocs
    && forall i :: 0 <= i < nprocs ==>
      sendcounts[i] == SendCount(rows, cols, nprocs) &&
      recvcounts[i] == RecvCount(rows, cols, nprocs) &&
      displacements[i] == Displacement(rows, cols, nprocs, i)
  }

  /** The plan loop: one entry per process in each of the three arrays. */
  method PlanPartition(rows: int, cols: int, nprocs: int)
    returns (sendcounts: array<int>, recvcounts: array<int>, displacements: array<int>)
    requires nprocs >= 1
    ensures fresh(sendcounts) && fresh(recvcounts) && fresh(displacements)
    ensures Planned(rows, cols, nprocs, sendcounts, recvcounts, displacements)
  {
    var rowsPerProc := rows / nprocs + RPadding;
    sendcounts := new int[nprocs];
    recvcounts := new int[nprocs];
    displacements := new int[nprocs];
    for i := 0 to nprocs
      invariant forall i' :: 0 <= i' < i ==>
        sendcounts[i'] == SendCount(rows, cols, nprocs) &&
        recvcounts[i'] == RecvCount(rows, cols, nprocs) &&
        displacements[i'] == Displacement(rows, cols, nprocs, i')
    {
      sendcounts[i] := rowsPerProc * cols;
      recvcounts[i] := (rowsPerProc - RPadding) * cols;
      displacements[i] := i * (rowsPerProc - RPadding) * cols;
    }
  }

  /** Consecutive gather destinations meet without gap or overlap: each
      block's interior ends where the next one starts. */
  lemma GatherTiles(rows: int, cols: int, nprocs: int, i: int)
    requires nprocs >= 1
    ensures Displacement(rows, cols, nprocs, i) + RecvCount(rows, cols, nprocs) == Displacement(rows, cols, nprocs, i + 1)
  {
    var k := rows / nprocs;
    assert (i + 1) * k == i * k + k;
    assert (i * k + k) * cols == i * k * cols + k * cols;
  }

  /** The gather destinations start at the first interior row and the last
      one ends at the last interior row. */
  lemma GatherBounds(rows: int, cols: int, nprocs: int)
    requires Launchable(rows, cols, nprocs)
    ensures Displacement(rows, cols, nprocs, 0) == 0
    ensures Displacement(rows, cols, nprocs, nprocs) == rows * cols
  {
    LaunchableShares(rows, cols, nprocs);
  }

  /** The gather destinations of distinct processes are disjoint. */
  lemma {:induction false} GatherDisjoint(rows: int, cols: int, nprocs: int, i: nat, i': nat)
    requires Launchable(rows, cols, nprocs) && i < i'
    ensures Displacement(rows, cols, nprocs, i) + RecvCount(rows, cols, nprocs) <= Displacement(rows, cols, nprocs, i')
    decreases i' - i
  {
    GatherTiles(rows, cols, nprocs, i);
    if i + 1 < i' {
      GatherDisjoint(rows, cols, nprocs, i + 1, i');
      LaunchableShares(rows, cols, nprocs);
      MulMono(0, rows / nprocs, cols);
    }
  }

  /** Sum of a sequence of counts. */
  function Sum(s: seq<int>): int
  {
    if |s| == 0 then 0 else Sum(s[..|s| - 1]) + s[|s| - 1]
  }

  /** n copies of the interior count add up to n blocks' worth of rows. */
  lemma {:induction false} SumOfCounts(s: seq<int>, rows: int, cols: int, nprocs: int)
    requires nprocs >= 1
    requires forall i :: 0 <= i < |s| ==> s[i] == RecvCount(rows, cols, nprocs)
    ensures Sum(s) == Displacement(rows, cols, nprocs, |s|)
  {
    if |s| > 0 {
      SumOfCounts(s[..|s| - 1], rows, cols, nprocs);
      GatherTiles(rows, cols, nprocs, |s| - 1);
    }
  }

  /** The receive counts of the plan add up to the whole logical grid. */
  lemma RecvCountsCover(recvcounts: seq<int>, rows: int, cols: int, nprocs: int)
    requires Launchable(rows, cols, nprocs) && |recvcounts| == nprocs
    requires forall i :: 0 <= i < nprocs ==> recvcounts[i] == RecvCount(rows, cols, nprocs)
    ensures Sum(recvcounts) == rows * cols
  {
    SumOfCounts(recvcounts, rows, cols, nprocs);
    GatherBounds(rows, cols, nprocs);
  }

  /** Process i's scatter block starts at padded row i * k. */
  lemma BlockStart(rows: int, cols: int, nprocs: int, i: nat, j: nat, c: nat)
    requires nprocs >= 1
    ensures Displacement(rows, cols, nprocs, i) + j * cols + c == (i * (rows / nprocs) + j) * cols + c
  {
  }

  /** Every scatter block lies inside the padded grid, and the last one
      ends exactly at the end of the bottom halo row. */
  lemma ScatterInside(rows: int, cols: int, nprocs: int, i: nat)
    requires Launchable(rows, cols, nprocs) && i < nprocs
    ensures 0 <= Displacement(rows, cols, nprocs, i) && 0 <= SendCount(rows, cols, nprocs)
    ensures Displacement(rows, cols, nprocs, i) + SendCount(rows, cols, nprocs) <= (rows + 2) * cols
    ensures i == nprocs - 1 ==> Displacement(rows, cols, nprocs, i) + SendCount(rows, cols, nprocs) == (rows + 2) * cols
  {
    var k := rows / nprocs;
    LaunchableShares(rows, cols, nprocs);
    MulMono(0, i, k);
    MulMono(i + 1, nprocs, k);
    MulMono(0, i * k, cols);
    MulMono(i * k + k + 2, rows + 2, cols);
    assert Displacement(rows, cols, nprocs, i) + SendCount(rows, cols, nprocs) == (i * k + k + 2) * cols;
    if i == nprocs - 1 {
      assert i * k + k == nprocs * k;
    }
  }

  // ---------------------------------------------------------------------
  // Halo rows

  /** The sizes of the padded grid, in terms of the logical grid's. */
  lemma PaddedSizes(rows: int, cols: int)
    requires rows >= 1 && cols >= 1
    ensures cols <= rows * cols
    ensures (rows + 1) * cols == rows * cols + cols && (rows + 2) * cols == rows * cols + 2 * cols
  {
    MulMono(1, rows, cols);
  }

  /** The padded grid of a logical grid g with rows of `cols` cells: the
      last row on top, g itself, the first row at the bottom. */
  function Padded(g: seq<Cell>, cols: int): (m: seq<Cell>)
    requires 1 <= cols <= |g|
    ensures |m| == |g| + 2 * cols
  {
    g[|g| - cols..] + g + g[..cols]
  }

  /** The interior of the padded grid is the logical grid. */
  lemma PaddedInterior(g: seq<Cell>, cols: int)
    requires 1 <= cols <= |g|
    ensures Padded(g, cols)[cols..cols + |g|] == g
  {
  }

  /** Padding keeps every interior cell initialised. */
  lemma PaddedInitialised(g: seq<Cell>, cols: int)
    requires 1 <= cols <= |g| && forall k :: 0 <= k < |g| ==> Initialised(g[k])
    ensures forall k :: cols <= k < cols + |g| ==> Initialised(Padded(g, cols)[k])
  {
    forall k | cols <= k < cols + |g|
      ensures Initialised(Padded(g, cols)[k])
    {
      assert Padded(g, cols)[k] == g[k - cols];
    }
  }

  /** Padded row p holds logical row (p - 1) mod rows: the halo rows wrap
      around to the other end of the grid. */
  lemma PaddedAt(g: seq<Cell>, rows: int, cols: int, p: nat, r: int, c: nat)
    requires rows >= 1 && cols >= 1 && |g| == rows * cols && p < rows + 2 && c < cols
    requires r == (p + rows - 1) % rows
    ensures |Padded(g, cols)| == (rows + 2) * cols
    ensures 0 <= p * cols + c < (rows + 2) * cols && 0 <= r * cols + c < rows * cols
    ensures Padded(g, cols)[p * cols + c] == g[r * cols + c]
  {
    PaddedSizes(rows, cols);
    if p == 0 {
      DivModUnique(rows - 1, rows, 0, rows - 1);
      PaddedTop(g, rows, cols, p, r, c);
    } else if p <= rows {
      DivModUnique(p + rows - 1, rows, 1, p - 1);
      PaddedMiddle(g, rows, cols, p, r, c);
    } else {
      DivModUnique(p + rows - 1, rows, 2, 0);
      PaddedBottom(g, rows, cols, p, r, c);
    }
  }

  /** The top halo row is the last logical row. */
  lemma PaddedTop(g: seq<Cell>, rows: int, cols: int, p: nat, r: int, c: nat)
    requires rows >= 1 && cols >= 1 && |g| == rows * cols && c < cols
    requires p == 0 && r == rows - 1
    ensures 0 <= r * cols + c < |g| && 0 <= p * cols + c < |Padded(g, cols)|
    ensures Padded(g, cols)[p * cols + c] == g[r * cols + c]
  {
    PaddedSizes(rows, cols);
    assert r * cols == rows * cols - cols;
  }

  /** Padded row p, for 1 <= p <= rows, is logical row p - 1. */
  lemma PaddedMiddle(g: seq<Cell>, rows: int, cols: int, p: nat, r: int, c: nat)
    requires rows >= 1 && cols >= 1 && |g| == rows * cols && c < cols
    requires 1 <= p <= rows && r == p - 1
    ensures 0 <= r * cols + c < |g| && 0 <= p * cols + c < |Padded(g, cols)|
    ensures Padded(g, cols)[p * cols + c] == g[r * cols + c]
  {
    PaddedSizes(rows, cols);
    RowMajorBound(r, c, cols, rows);
    assert p * cols == r * cols + cols;
  }

  /** The bottom halo row is the first logical row. */
  lemma PaddedBottom(g: seq<Cell>, rows: int, cols: int, p: nat, r: int, c: nat)
    requires rows >= 1 && cols >= 1 && |g| == rows * cols && c < cols
    requires p == rows + 1 && r == 0
    ensures 0 <= r * cols + c < |g| && 0 <= p * cols + c < |Padded(g, cols)|
    ensures Padded(g, cols)[p * cols + c] == g[r * cols + c]
  {
    PaddedSizes(rows, cols);
    assert p * cols == rows * cols + cols;
    assert Padded(g, cols)[p * cols + c] == g[..cols][c];
  }

  /** The halo copy: the last interior row into padded row 0, then the
      first interior row into padded row rows + 1. */
  method CopyFrontiers(matrix: array<Cell>, rows: int, cols: int)
    requires rows >= 1 && cols >= 1 && matrix.Length == (rows + 2) * cols
    modifies matrix
    ensures rows * cols <= matrix.Length
    ensures matrix[..] == Padded(old(matrix[cols..cols + rows * cols]), cols)
  {
    PaddedSizes(rows, cols);
    var n := rows * cols;
    ghost var g := matrix[cols..cols + n];
    // last interior row to the top halo row
    forall k | 0 <= k < cols {
      matrix[k] := matrix[n + k];
    }
    // first interior row to the bottom halo row
    forall k | 0 <= k < cols {
      matrix[(rows + 1) * cols + k] := matrix[cols + k];
    }
    FrontiersCopied(matrix[..], g, cols);
  }

  /** A buffer whose interior is g and whose outer rows hold g's last and
      first rows is g padded. */
  lemma FrontiersCopied(m: seq<Cell>, g: seq<Cell>, cols: int)
    requires 1 <= cols <= |g| && |m| == |g| + 2 * cols
    requires m[cols..cols + |g|] == g
    requires forall k :: 0 <= k < cols ==> m[k] == g[|g| - cols + k]
    requires forall k :: 0 <= k < cols ==> m[cols + |g| + k] == g[k]
    ensures m == Padded(g, cols)
  {
    var p := Padded(g, cols);
    forall k | 0 <= k < |m|
      ensures m[k] == p[k]
    {
      if k < cols {
        assert m[k] == g[|g| - cols + k];
      } else if k < cols + |g| {
        assert m[k] == m[cols..cols + |g|][k - cols];
      } else {
        assert m[k] == g[k - cols - |g|];
      }
    }
  }

  /** Repeating the halo copy changes nothing. */
  lemma CopyFrontiersIdempotent(g: seq<Cell>, cols: int)
    requires 1 <= cols <= |g|
    ensures var m := Padded(g, cols);
      Padded(m[cols..cols + |g|], cols) == m
  {
    PaddedInterior(g, cols);
  }

  // ---------------------------------------------------------------------
  // Scatter and gather

  /** MPI_Scatterv: what process i receives from the master's grid. */
  function ScatterBlock(m: seq<Cell>, rows: int, cols: int, nprocs: int, i: nat): (b: seq<Cell>)
    requires Launchable(rows, cols, nprocs) && i < nprocs && |m| == (rows + 2) * cols
    ensures |b| == SendCount(rows, cols, nprocs)
  {
    ScatterInside(rows, cols, nprocs, i);
    m[Displacement(rows, cols, nprocs, i)..Displacement(rows, cols, nprocs, i) + SendCount(rows, cols, nprocs)]
  }

  /** The block scattered to process i from the haloed grid holds, in its
      slot j, the logical row that circular_rows lists for that slot. */
  lemma ScatterRows(g: seq<Cell>, rows: int, cols: int, nprocs: int, i: nat, j: nat, c: nat)
    requires Launchable(rows, cols, nprocs) && |g| == rows * cols
    requires i < nprocs && j < RowsPerProc(rows, nprocs) && c < cols
    ensures |Padded(g, cols)| == (rows + 2) * cols
    ensures var r := RowMapping.CircularRow(rows, nprocs, RPadding, i, j);
      0 <= j * cols + c < SendCount(rows, cols, nprocs) && 0 <= r * cols + c < rows * cols &&
      ScatterBlock(Padded(g, cols), rows, cols, nprocs, i)[j * cols + c] == g[r * cols + c]
  {
    BlockCell(g, rows, cols, nprocs, i, j, c);
    PaddedCircular(g, rows, cols, nprocs, i, j, c);
  }

  /** Cell c of slot j of process i's block is cell c of padded row
      p = i * k + j. */
  lemma BlockCell(g: seq<Cell>, rows: int, cols: int, nprocs: int, i: nat, j: nat, c: nat)
    requires Launchable(rows, cols, nprocs) && |g| == rows * cols
    requires i < nprocs && j < RowsPerProc(rows, nprocs) && c < cols
    ensures |Padded(g, cols)| == (rows + 2) * cols
    ensures var p := i * (rows / nprocs) + j;
      0 <= j * cols + c < SendCount(rows, cols, nprocs) && 0 <= p * cols + c < (rows + 2) * cols &&
      ScatterBlock(Padded(g, cols), rows, cols, nprocs, i)[j * cols + c] == Padded(g, cols)[p * cols + c]
  {
    PaddedSizes(rows, cols);
    ScatterSlot(rows, cols, nprocs, i, j, c);
    ScatterBlockAt(Padded(g, cols), rows, cols, nprocs, i, j * cols + c);
  }

  /** Padded row p = i * k + j holds logical row (p - 1) mod rows, which
      is the row the circular mapping names for slot j of process i. */
  lemma PaddedCircular(g: seq<Cell>, rows: int, cols: int, nprocs: int, i: nat, j: nat, c: nat)
    requires Launchable(rows, cols, nprocs) && |g| == rows * cols
    requires i < nprocs && j < RowsPerProc(rows, nprocs) && c < cols
    ensures |Padded(g, cols)| == (rows + 2) * cols
    ensures var p := i * (rows / nprocs) + j;
      var r := RowMapping.CircularRow(rows, nprocs, RPadding, i, j);
      0 <= p * cols + c < (rows + 2) * cols && 0 <= r * cols + c < rows * cols &&
      Padded(g, cols)[p * cols + c] == g[r * cols + c]
  {
    ScatterSlot(rows, cols, nprocs, i, j, c);
    PaddedAt(g, rows, cols, i * (rows / nprocs) + j, RowMapping.CircularRow(rows, nprocs, RPadding, i, j), c);
  }

  /** Slot j of process i is padded row i * k + j, and the mapping of
      circular_rows names the logical row that padded row holds. */
  lemma ScatterSlot(rows: int, cols: int, nprocs: int, i: nat, j: nat, c: nat)
    requires Launchable(rows, cols, nprocs)
    requires i < nprocs && j < RowsPerProc(rows, nprocs) && c < cols
    ensures var p := i * (rows / nprocs) + j;
      p < rows + 2 && 0 <= j * cols + c < SendCount(rows, cols, nprocs) &&
      Displacement(rows, cols, nprocs, i) + j * cols + c == p * cols + c &&
      RowMapping.CircularRow(rows, nprocs, RPadding, i, j) == (p + rows - 1) % rows
  {
    var k := rows / nprocs;
    LaunchableShares(rows, cols, nprocs);
    RowMajorBound(j, c, cols, k + 2);
    assert cols * (k + 2) == SendCount(rows, cols, nprocs);
    MulMono(i, nprocs - 1, k);
    assert (nprocs - 1) * k == rows - k;
    BlockStart(rows, cols, nprocs, i, j, c);
  }

  /** Cell q of process i's block is cell Displacement(i) + q of the grid. */
  lemma ScatterBlockAt(m: seq<Cell>, rows: int, cols: int, nprocs: int, i: nat, q: nat)
    requires Launchable(rows, cols, nprocs) && i < nprocs && |m| == (rows + 2) * cols
    requires q < SendCount(rows, cols, nprocs)
    ensures Displacement(rows, cols, nprocs, i) + q < |m|
    ensures ScatterBlock(m, rows, cols, nprocs, i)[q] == m[Displacement(rows, cols, nprocs, i) + q]
  {
    ScatterInside(rows, cols, nprocs, i);
  }

  /** MPI_Gatherv with a count of `|src|` at offset `at`: the received cells
      overwrite exactly that range of the buffer. */
  method GatherBlock(upd: array<Cell>, at: nat, src: seq<Cell>)
    requires at + |src| <= upd.Length
    modifies upd
    ensures upd[..] == Overwritten(old(upd[..]), at, src)
  {
    forall k | 0 <= k < |src| {
      upd[at + k] := src[k];
    }
  }

  /** Writing the next range right after the written ones extends them. */
  lemma OverwrittenAppend(orig: seq<Cell>, base: nat, cells: seq<Cell>, more: seq<Cell>)
    requires base + |cells| + |more| <= |orig|
    ensures Overwritten(Overwritten(orig, base, cells), base + |cells|, more) == Overwritten(orig, base, cells + more)
  {
    var r, r' := Overwritten(Overwritten(orig, base, cells), base + |cells|, more), Overwritten(orig, base, cells + more);
    assert forall k :: 0 <= k < |r| ==> r[k] == r'[k];
  }

  /** Writing a range back with what it already holds changes nothing. */
  lemma OverwrittenSame(s: seq<Cell>, base: nat, n: nat)
    requires base + n <= |s|
    ensures Overwritten(s, base, s[base..base + n]) == s
  {
    assert s[..base] + s[base..base + n] + s[base + n..] == s;
  }

  /** After the blocks of processes 0..i - 1 have been gathered, the
      interior of `upd` up to process i's destination is the grid's. */
  ghost predicate GatheredTo(u: seq<Cell>, u0: seq<Cell>, m: seq<Cell>, rows: int, cols: int, nprocs: int, i: nat, d: int)
    requires Launchable(rows, cols, nprocs)
  {
    && |u0| == |m| == (rows + 2) * cols
    && i <= nprocs
    && d == Displacement(rows, cols, nprocs, i)
    && 0 <= d <= rows * cols
    && u == Overwritten(u0, cols, m[cols..cols + d])
  }

  /** One scatter block's interior goes back to its gather destination. */
  lemma GatheredNext(u: seq<Cell>, u0: seq<Cell>, m: seq<Cell>, rows: int, cols: int, nprocs: int, i: nat, d: int,
                     b: seq<Cell>, n: int)
    requires Launchable(rows, cols, nprocs) && i < nprocs
    requires GatheredTo(u, u0, m, rows, cols, nprocs, i, d)
    requires b == ScatterBlock(m, rows, cols, nprocs, i) && n == RecvCount(rows, cols, nprocs)
    ensures 0 <= cols && 0 <= n && cols + n <= |b| && 0 <= d && cols + d + n <= |u|
    ensures GatheredTo(Overwritten(u, cols + d, b[cols..cols + n]), u0, m, rows, cols, nprocs, i + 1, d + n)
  {
    GatherArith(rows, cols, nprocs, i);
    BlockInterior(m, rows, cols, nprocs, i);
    assert m[cols..cols + d] + m[cols + d..cols + d + n] == m[cols..cols + d + n];
    OverwrittenAppend(u0, cols, m[cols..cols + d], m[cols + d..cols + d + n]);
  }

  /** The sizes one gather step relies on. */
  lemma GatherArith(rows: int, cols: int, nprocs: int, i: nat)
    requires Launchable(rows, cols, nprocs) && i < nprocs
    ensures var n := RecvCount(rows, cols, nprocs);
      0 <= n && SendCount(rows, cols, nprocs) == n + 2 * cols &&
      0 <= Displacement(rows, cols, nprocs, i) &&
      Displacement(rows, cols, nprocs, i) + n == Displacement(rows, cols, nprocs, i + 1) <= rows * cols
  {
    LaunchableShares(rows, cols, nprocs);
    MulMono(0, rows / nprocs, cols);
    GatherTiles(rows, cols, nprocs, i);
    ScatterInside(rows, cols, nprocs, i);
    GatherBounds(rows, cols, nprocs);
    if i + 1 < nprocs {
      GatherDisjoint(rows, cols, nprocs, i + 1, nprocs);
    }
  }

  /** The interior rows of process i's block are the grid's cells from
      padded row 1 + i * k on. */
  lemma BlockInterior(m: seq<Cell>, rows: int, cols: int, nprocs: int, i: nat)
    requires Launchable(rows, cols, nprocs) && i < nprocs && |m| == (rows + 2) * cols
    ensures var b, n, d := ScatterBlock(m, rows, cols, nprocs, i), RecvCount(rows, cols, nprocs), Displacement(rows, cols, nprocs, i);
      0 <= cols <= cols + n <= |b| && 0 <= d && cols + d + n <= |m| &&
      b[cols..cols + n] == m[cols + d..cols + d + n]
  {
    GatherArith(rows, cols, nprocs, i);
    ScatterInside(rows, cols, nprocs, i);
    var b, n, d := ScatterBlock(m, rows, cols, nprocs, i), RecvCount(rows, cols, nprocs), Displacement(rows, cols, nprocs, i);
    forall q | cols <= q < cols + n
      ensures b[q] == m[d + q]
    {
      ScatterBlockAt(m, rows, cols, nprocs, i, q);
    }
  }

  /** Before any gather nothing of `upd` has been written. */
  lemma GatheredStart(u0: seq<Cell>, m: seq<Cell>, rows: int, cols: int, nprocs: int)
    requires Launchable(rows, cols, nprocs) && |u0| == |m| == (rows + 2) * cols
    ensures GatheredTo(u0, u0, m, rows, cols, nprocs, 0, 0)
  {
    GatherBounds(rows, cols, nprocs);
    MulMono(0, rows, cols);
    assert u0[..cols] + m[cols..cols] + u0[cols..] == u0;
  }

  /** After the last process nothing is left to gather. */
  lemma GatheredAll(u: seq<Cell>, u0: seq<Cell>, m: seq<Cell>, rows: int, cols: int, nprocs: int, d: int)
    requires Launchable(rows, cols, nprocs) && GatheredTo(u, u0, m, rows, cols, nprocs, nprocs, d)
    ensures u == Overwritten(u0, cols, m[cols..cols + rows * cols])
  {
    GatherBounds(rows, cols, nprocs);
  }

  /** The gather of process i's interior, as one step of the gather loop. */
  method GatherStep(upd: array<Cell>, blocks: seq<seq<Cell>>, ghost u0: seq<Cell>, ghost m: seq<Cell>,
                    rows: int, cols: int, nprocs: int,
                    sendcounts: array<int>, recvcounts: array<int>, displacements: array<int>,
                    i: nat, d: int) returns (after: nat, next: int)
    requires Launchable(rows, cols, nprocs) && i < nprocs
    requires Planned(rows, cols, nprocs, sendcounts, recvcounts, displacements)
    requires GatheredTo(upd[..], u0, m, rows, cols, nprocs, i, d)
    requires |blocks| == nprocs && blocks[i] == ScatterBlock(m, rows, cols, nprocs, i)
    modifies upd
    ensures after == i + 1 && GatheredTo(upd[..], u0, m, rows, cols, nprocs, after, next)
  {
    var block, recv := blocks[i], recvcounts[i];
    GatheredNext(upd[..], u0, m, rows, cols, nprocs, i, d, block, recv);
    GatherBlock(upd, cols + displacements[i], block[cols..cols + recv]);
    after, next := i + 1, d + recv;
  }

  /** MPI_Scatterv: the block of every process, cut out of the grid. */
  method Scatterv(matrix: array<Cell>, rows: int, cols: int, nprocs: int,
                  sendcounts: array<int>, recvcounts: array<int>, displacements: array<int>)
    returns (blocks: seq<seq<Cell>>)
    requires Launchable(rows, cols, nprocs) && matrix.Length == (rows + 2) * cols
    requires Planned(rows, cols, nprocs, sendcounts, recvcounts, displacements)
    ensures |blocks| == nprocs
    ensures forall i :: 0 <= i < nprocs ==> blocks[i] == ScatterBlock(matrix[..], rows, cols, nprocs, i)
  {
    blocks := [];
    for i := 0 to nprocs
      invariant |blocks| == i
      invariant forall i' :: 0 <= i' < i ==> blocks[i'] == ScatterBlock(matrix[..], rows, cols, nprocs, i')
    {
      ScatterInside(rows, cols, nprocs, i);
      blocks := blocks + [matrix[displacements[i]..displacements[i] + sendcounts[i]]];
    }
  }

  /** MPI_Gatherv: the interior rows of every block back into `upd`, block
      i at padded row 1 + i * k. Nothing else of `upd` is written. */
  method Gatherv(upd: array<Cell>, blocks: seq<seq<Cell>>, ghost m: seq<Cell>, rows: int, cols: int, nprocs: int,
                 sendcounts: array<int>, recvcounts: array<int>, displacements: array<int>)
    requires Launchable(rows, cols, nprocs) && upd.Length == (rows + 2) * cols && |m| == (rows + 2) * cols
    requires Planned(rows, cols, nprocs, sendcounts, recvcounts, displacements)
    requires |blocks| == nprocs
    requires forall i :: 0 <= i < nprocs ==> blocks[i] == ScatterBlock(m, rows, cols, nprocs, i)
    modifies upd
    ensures upd[..] == Overwritten(old(upd[..]), cols, m[cols..cols + rows * cols])
  {
    ghost var u0 := upd[..];
    GatheredStart(u0, m, rows, cols, nprocs);
    var i, d := 0, 0;
    while i < nprocs
      invariant GatheredTo(upd[..], u0, m, rows, cols, nprocs, i, d)
      decreases nprocs - i
    {
      i, d := GatherStep(upd, blocks, u0, m, rows, cols, nprocs, sendcounts, recvcounts, displacements, i, d);
    }
    GatheredAll(upd[..], u0, m, rows, cols, nprocs, d);
  }

  /** One exchange of the main loop: every process gets its block, does no
      work on it, and returns its interior rows to the master. Only the
      interior of `upd` is written. */
  method Exchange(matrix: array<Cell>, upd: array<Cell>, rows: int, cols: int, nprocs: int,
                  sendcounts: array<int>, recvcounts: array<int>, displacements: array<int>)
    requires Launchable(rows, cols, nprocs) && matrix != upd
    requires matrix.Length == (rows + 2) * cols && upd.Length == (rows + 2) * cols
    requires Planned(rows, cols, nprocs, sendcounts, recvcounts, displacements)
    modifies upd
    ensures upd[..] == Overwritten(old(upd[..]), cols, matrix[cols..cols + rows * cols])
  {
    var blocks := Scatterv(matrix, rows, cols, nprocs, sendcounts, recvcounts, displacements);
    Gatherv(upd, blocks, matrix[..], rows, cols, nprocs, sendcounts, recvcounts, displacements);
  }

  /** init_cell_matrix on the interior of a padded buffer, from padded
      row 1 on and from draw 0. */
  method InitInterior(m: array<Cell>, rows: int, cols: int, rng: Rand)
    requires rows >= 1 && cols >= 1 && m.Length == (rows + 2) * cols
    modifies m
    ensures cols + rows * cols <= m.Length
    ensures var g := m[cols..cols + rows * cols];
      g == InitSweep(old(m[cols..cols + rows * cols]), rng, 0, rows * cols).cells &&
      forall k :: 0 <= k < |g| ==> Initialised(g[k])
  {
    PaddedSizes(rows, cols);
    ghost var orig := m[..];
    ghost var slots := m[cols..cols + rows * cols];
    var next := InitCellMatrix(m, cols, cols, rows, rng, 0);
    SweptAt(m[..], orig, cols, slots, rng, 0, rows * cols);
    assert m[cols..cols + rows * cols] == m[..][cols..cols + rows * cols];
  }

  /** The master's grid at start-up: the logical grid initialised from draw
      0 at padded row 1, then the halo copy. */
  method InitMatrix(rows: int, cols: int, rng: Rand) returns (m: array<Cell>, ghost unset: seq<Cell>)
    requires rows >= 1 && cols >= 1
    ensures fresh(m) && m.Length == (rows + 2) * cols && rows * cols <= m.Length
    ensures m[..] == Padded(m[cols..cols + rows * cols], cols)
    ensures forall k :: cols <= k < cols + rows * cols ==> Initialised(m[k])
    ensures |unset| == rows * cols && m[cols..cols + rows * cols] == InitSweep(unset, rng, 0, rows * cols).cells
  {
    PaddedSizes(rows, cols);
    m := new Cell[(rows + 2) * cols];
    unset := m[cols..cols + rows * cols];
    InitInterior(m, rows, cols, rng);
    ghost var g := m[cols..cols + rows * cols];
    CopyFrontiers(m, rows, cols);
    PaddedInterior(g, cols);
    PaddedInitialised(g, cols);
    assert m[cols..cols + rows * cols] == g;
  }

  /** The master's state: the haloed grid, the buffer the gather fills,
      and the partition plan. */
  class Master {
    const rows: int
    const cols: int
    const nprocs: int
    var matrix: array<Cell>
    var updMatrix: array<Cell>
    const sendcounts: array<int>
    const recvcounts: array<int>
    const displacements: array<int>
    /** What the interior of the current buffer held when it was allocated. */
    ghost const unset: seq<Cell>

    /** An accepted configuration, two distinct padded buffers and the
        plan for it. */
    ghost predicate Valid()
      reads this, sendcounts, recvcounts, displacements
    {
      && Launchable(rows, cols, nprocs)
      && matrix.Length == (rows + 2) * cols && updMatrix.Length == (rows + 2) * cols
      && matrix != updMatrix
      && Planned(rows, cols, nprocs, sendcounts, recvcounts, displacements)
    }

    /** Master set-up: both padded buffers, the logical grid initialised
        from draw 0 at padded row 1, the halo copy, then the plan. */
    constructor (rows: int, cols: int, nprocs: int, rng: Rand)
      requires Launchable(rows, cols, nprocs)
      ensures Valid() && fresh(matrix) && fresh(updMatrix)
      ensures this.rows == rows && this.cols == cols && this.nprocs == nprocs
      ensures rows * cols <= matrix.Length
      ensures matrix[..] == Padded(matrix[cols..cols + rows * cols], cols)
      ensures forall k :: cols <= k < cols + rows * cols ==> Initialised(matrix[k])
      ensures |unset| == rows * cols && matrix[cols..cols + rows * cols] == InitSweep(unset, rng, 0, rows * cols).cells
    {
      var m;
      ghost var blank;
      m, blank := InitMatrix(rows, cols, rng);
      unset := blank;
      var u := new Cell[(rows + 2) * cols];
      var sc, rc, dc := PlanPartition(rows, cols, nprocs);
      this.rows, this.cols, this.nprocs := rows, cols, nprocs;
      matrix, updMatrix := m, u;
      sendcounts, recvcounts, displacements := sc, rc, dc;
    }

    /** One pass of the main loop: scatter, gather, swap. The new grid's
        interior is the old grid's; its halo rows are whatever the other
        buffer held, since nothing refreshes them. */
    method Step()
      requires Valid()
      modifies this, updMatrix
      ensures Valid()
      ensures matrix == old(updMatrix) && updMatrix == old(matrix)
      ensures updMatrix[..] == old(matrix[..])
      ensures matrix[..] == Overwritten(old(updMatrix[..]), cols, old(matrix[cols..cols + rows * cols]))
    {
      Exchange(matrix, updMatrix, rows, cols, nprocs, sendcounts, recvcounts, displacements);
      matrix, updMatrix := updMatrix, matrix;
    }

    /** The whole main loop: SimLimit exchanges. With no work done by the
        processes and an even number of swaps, the grid ends where it
        started, in the same buffer, halo rows included. */
    method Simulate()
      requires Valid()
      modifies this, matrix, updMatrix
      ensures Valid()
      ensures matrix == old(matrix) && updMatrix == old(updMatrix)
      ensures matrix[..] == old(matrix[..])
    {
      ghost var m0, u0 := matrix, updMatrix;
      ghost var start := matrix[..];
      for simT := 0 to SimLimit
        invariant Valid()
        invariant Resting(m0, u0, start, simT % 2 == 0)
      {
        Round(m0, u0, start, simT % 2 == 0);
      }
    }

    /** Which buffer is `matrix` between iterations of the main loop: the
        grid buffer `m0` keeps its contents `start`; on odd iterations the
        other buffer `u0` is current and carries the same interior. */
    ghost predicate Resting(m0: array<Cell>, u0: array<Cell>, start: seq<Cell>, even: bool)
      reads this, m0, u0
    {
      && 0 <= cols && 0 <= rows * cols && cols + rows * cols <= |start| == u0.Length
      && m0[..] == start
      && if even then matrix == m0 && updMatrix == u0
         else matrix == u0 && updMatrix == m0 && u0[cols..cols + rows * cols] == start[cols..cols + rows * cols]
    }

    /** One iteration of the main loop swaps the roles of the buffers. */
    method Round(ghost m0: array<Cell>, ghost u0: array<Cell>, ghost start: seq<Cell>, even: bool)
      requires Valid() && Resting(m0, u0, start, even)
      modifies this, matrix, updMatrix
      ensures Valid() && Resting(m0, u0, start, !even)
    {
      ghost var spare := updMatrix[..];
      ghost var n := rows * cols;
      Step();
      if even {
        OverwrittenSlice(spare, cols, start[cols..cols + n]);
        assert u0[cols..cols + n] == start[cols..cols + n];
      } else {
        OverwrittenSame(start, cols, n);
        assert m0[..] == start;
      }
    }
  }
}
