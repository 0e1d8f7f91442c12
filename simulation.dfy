/** The cell model of the epidemic simulator: the cell record, toroidal
    neighbour addressing, the four status-transition rules and the random
    grid initialiser.

    Every call of the C library's rand() is one draw of a stream `rng`,
    read at a cursor `pos`; a rule that draws returns the advanced cursor
    together with the updated cell. */
module SimulationRules {

  import opened Arith

  /** The process-wide pseudo-random stream: draw number n is rng(n). */
  type Rand = nat -> nat

  datatype Gender = Male | Female

  datatype Age = Child | Adult | Elder

  /** Epidemic status of a cell; the C code encodes each as the RGB colour
      the renderer paints it with. */
  datatype Status =
    | EmptyWhite
    | SuscBlue
    | SickNcOrange
    | SickCRed
    | IsolatedYellow
    | CuredGreen
    | DeadBlack

  /** The colour code of a status, as 0xRRGGBB. */
  function Colour(s: Status): (rgb: int)
    ensures 0 <= rgb <= 0xFF_FFFF
  {
    match s
    case EmptyWhite => 0xFF_FFFF
    case SuscBlue => 0x00_00FF
    case SickNcOrange => 0xFF_AA00
    case SickCRed => 0xFF_0000
    case IsolatedYellow => 0xFF_FF00
    case CuredGreen => 0x00_FF00
    case DeadBlack => 0x00_0000
  }

  datatype Option<T> = None | Some(value: T)

  /** The status whose colour code is rgb, if any. */
  function StatusOf(rgb: int): (r: Option<Status>)
    ensures r.Some? ==> Colour(r.value) == rgb
  {
    if rgb == 0xFF_FFFF then Some(EmptyWhite)
    else if rgb == 0x00_00FF then Some(SuscBlue)
    else if rgb == 0xFF_AA00 then Some(SickNcOrange)
    else if rgb == 0xFF_0000 then Some(SickCRed)
    else if rgb == 0xFF_FF00 then Some(IsolatedYellow)
    else if rgb == 0x00_FF00 then Some(CuredGreen)
    else if rgb == 0x00_0000 then Some(DeadBlack)
    else None
  }

  /** Distinct statuses have distinct colour codes: every code decodes back
      to its status. */
  lemma ColourRoundTrip(s: Status)
    ensures StatusOf(Colour(s)) == Some(s)
  {
  }

  datatype Cell = Cell(
    age: Age,
    riskDisease: bool,
    riskJob: bool,
    vaccinated: bool,
    gender: Gender,
    status: Status,
    contagionT: int)

  /** An updated cell together with the position of the next unused draw. */
  datatype Drawn = Drawn(cell: Cell, next: nat)

  /** The cells produced by a sweep over a grid prefix, and the next unused draw. */
  datatype Sweep = Sweep(cells: seq<Cell>, next: nat)

  /** DISSEASE_STRENGTH (2.4) in tenths. */
  const DiseaseStrengthTenths: int := 24

  /** Probability, in percent, that a contagious cell isolates itself. */
  const IsolationChance: int := 90

  // ---------------------------------------------------------------------
  // Neighbour addressing

  /** Column offset of neighbour slot s; slots are numbered row by row:
      0 1 2 above, 3 4 beside, 5 6 7 below. */
  function SlotDx(s: nat): int
    requires s < 8
  {
    if s == 0 || s == 3 || s == 5 then -1 else if s == 1 || s == 6 then 0 else 1
  }

  /** Row offset of neighbour slot s. */
  function SlotDy(s: nat): int
    requires s < 8
  {
    if s < 3 then -1 else if s < 5 then 0 else 1
  }

  /** The row-major index of column c and row r of a w-wide buffer, after
      the C code's "+ size, then modulo" wrap of both coordinates. */
  function WrappedIndex(w: int, h: int, c: int, r: int): (k: nat)
    requires w >= 1 && h >= 1 && c + w >= 0 && r + h >= 0
    ensures k < w * h
  {
    var row := (r + h) % h;
    var col := (c + w) % w;
    RowMajorBound(row, col, w, h);
    row * w + col
  }

  /** The wrapped index lies in column c and row r, each taken modulo the
      grid's size. */
  lemma WrappedIndexAddress(w: int, h: int, c: int, r: int)
    requires w >= 1 && h >= 1 && c + w >= 0 && r + h >= 0
    ensures var k := WrappedIndex(w, h, c, r);
      k % w == c % w && k / w == r % h
  {
    ModShift(r, h);
    ModShift(c, w);
    RowMajorSplit((r + h) % h, (c + w) % w, w);
  }

  /** The indices of the 8 toroidal neighbours of column x, row y in a
      row-major w-by-h buffer, in slot order. */
  function Neighbors(w: int, h: int, x: int, y: int): (r: seq<nat>)
    requires w >= 1 && h >= 1 && x >= 0 && y >= 0
    ensures |r| == 8
    ensures forall s :: 0 <= s < 8 ==> r[s] < w * h
  {
    [ WrappedIndex(w, h, x - 1, y - 1), WrappedIndex(w, h, x - 0, y - 1), WrappedIndex(w, h, x + 1, y - 1),
      WrappedIndex(w, h, x - 1, y - 0), WrappedIndex(w, h, x + 1, y + 0),
      WrappedIndex(w, h, x - 1, y + 1), WrappedIndex(w, h, x + 0, y + 1), WrappedIndex(w, h, x + 1, y + 1) ]
  }

  /** Neighbour slot s of column x, row y lies SlotDx(s) columns and
      SlotDy(s) rows away, wrapping around both edges of the grid. */
  lemma NeighborsAddress(w: int, h: int, x: int, y: int)
    requires w >= 1 && h >= 1 && x >= 0 && y >= 0
    ensures var r := Neighbors(w, h, x, y);
      forall s :: 0 <= s < 8 ==>
        r[s] % w == (x + SlotDx(s)) % w && r[s] / w == (y + SlotDy(s)) % h
  {
    forall s | 0 <= s < 8
      ensures Neighbors(w, h, x, y)[s] % w == (x + SlotDx(s)) % w
      ensures Neighbors(w, h, x, y)[s] / w == (y + SlotDy(s)) % h
    {
      WrappedIndexAddress(w, h, x + SlotDx(s), y + SlotDy(s));
    }
  }

  /** On a 4-wide grid the left neighbour of column 0 is column 3 and the
      right neighbour of column 3 is column 0. */
  lemma ColumnWrap(h: int, y: int)
    requires h >= 1 && y >= 0
    ensures Neighbors(4, h, 0, y)[3] % 4 == 3 && Neighbors(4, h, 3, y)[4] % 4 == 0
  {
    NeighborsAddress(4, h, 0, y);
    NeighborsAddress(4, h, 3, y);
  }

  /** On a grid at least 3 by 3, the 8 neighbours of an in-range cell are 8
      distinct cells, none of them the cell itself. */
  lemma NeighborsDistinct(w: int, h: int, x: int, y: int)
    requires w >= 3 && h >= 3 && 0 <= x < w && 0 <= y < h
    ensures var r := Neighbors(w, h, x, y);
      (forall s, t :: 0 <= s < t < 8 ==> r[s] != r[t]) &&
      (forall s :: 0 <= s < 8 ==> r[s] != y * w + x)
  {
    var r := Neighbors(w, h, x, y);
    NeighborsAddress(w, h, x, y);
    RowMajorSplit(y, x, w);
    forall s, t | 0 <= s < t < 8
      ensures r[s] != r[t]
    {
      if SlotDy(s) == SlotDy(t) {
        assert SlotDx(s) < SlotDx(t);
        OffsetsDiffer(x, SlotDx(s), SlotDx(t), w);
      } else {
        OffsetsDiffer(y, SlotDy(s), SlotDy(t), h);
      }
    }
    forall s | 0 <= s < 8
      ensures r[s] != y * w + x
    {
      if SlotDy(s) == 0 {
        OffsetsDiffer(x, SlotDx(s), 0, w);
      } else {
        OffsetsDiffer(y, SlotDy(s), 0, h);
      }
    }
  }

  /** Two offsets in [-1, 1] that differ land on different residues modulo
      a size of at least 3. */
  lemma OffsetsDiffer(v: int, a: int, b: int, n: int)
    requires n >= 3 && 0 <= v < n && -1 <= a <= 1 && -1 <= b <= 1 && a != b
    ensures (v + a) % n != (v + b) % n
  {
    var p, q := v + a, v + b;
    assert -1 <= p <= n && -1 <= q <= n;
    var rp := if p == -1 then n - 1 else if p == n then 0 else p;
    var rq := if q == -1 then n - 1 else if q == n then 0 else q;
    assert p % n == rp;
    assert q % n == rq;
  }

  /** The cells at the given indices of a grid: what the C code reaches
      through its array of neighbour pointers. */
  function Pick(g: seq<Cell>, idx: seq<nat>): (r: seq<Cell>)
    requires forall s :: 0 <= s < |idx| ==> idx[s] < |g|
    ensures |r| == |idx| && forall s :: 0 <= s < |idx| ==> r[s] == g[idx[s]]
  {
    seq(|idx|, s requires 0 <= s < |idx| => g[idx[s]])
  }

  // ---------------------------------------------------------------------
  // Classifiers and counters

  /** A cell is sick while exposed, contagious or isolated. */
  function IsSick(target: Cell): (r: bool)
    ensures r <==> !(target.status in {EmptyWhite, SuscBlue, CuredGreen, DeadBlack})
  {
    target.status == SickNcOrange ||
    target.status == SickCRed ||
    target.status == IsolatedYellow
  }

  /** Susceptibility score: 30, 50 or 90 by age, plus 15 for any risk factor. */
  function Susceptibility(target: Cell): (r: int)
    ensures r in {30, 45, 50, 65, 90, 105}
    ensures r >= 100 <==> target.age == Elder && (target.riskDisease || target.riskJob)
    ensures target.age == Child ==> r - 30 in {0, 15}
    ensures target.age == Adult ==> r - 50 in {0, 15}
    ensures target.age == Elder ==> r - 90 in {0, 15}
    ensures (r % 10 == 5) <==> (target.riskDisease || target.riskJob)
  {
    var byAge := match target.age
      case Child => 30
      case Adult => 50
      case Elder => 90;
    var byRisk := if target.riskDisease || target.riskJob then 15 else 0;
    byAge + byRisk
  }

  /** Number of contagious (red) cells in a sequence of neighbours. */
  function ContagiousCount(neighbors: seq<Cell>): (r: nat)
    ensures r <= |neighbors|
    ensures r == 0 <==> forall s :: 0 <= s < |neighbors| ==> neighbors[s].status != SickCRed
    ensures r == |neighbors| <==> forall s :: 0 <= s < |neighbors| ==> neighbors[s].status == SickCRed
  {
    if |neighbors| == 0 then 0
    else
      var front := neighbors[..|neighbors| - 1];
      assert forall s :: 0 <= s < |front| ==> front[s] == neighbors[s];
      ContagiousCount(front) + if neighbors[|neighbors| - 1].status == SickCRed then 1 else 0
  }

  /** The C code's counting loop over the 8 neighbour pointers. */
  method InfectedNeighbors(matrix: array<Cell>, neighbors: seq<nat>) returns (count: nat)
    requires |neighbors| == 8
    requires forall s :: 0 <= s < 8 ==> neighbors[s] < matrix.Length
    ensures count == ContagiousCount(Pick(matrix[..], neighbors))
    ensures count <= 8
  {
    ghost var cells := Pick(matrix[..], neighbors);
    count := 0;
    for i := 0 to 8
      invariant count == ContagiousCount(cells[..i])
    {
      assert cells[..i + 1][..i] == cells[..i];
      if matrix[neighbors[i]].status == SickCRed {
        count := count + 1;
      }
    }
    assert cells[..8] == cells;
  }

  // ---------------------------------------------------------------------
  // Transition rules

  /** Infection: with no contagious neighbour the cell is left alone and no
      draw is taken; otherwise one draw is taken and the cell becomes
      exposed at `time` when the chance computed with the C code's integer
      divisions exceeds the draw scaled the same way. */
  function SusceptibleToSickRule(target: Cell, neighbors: seq<Cell>, time: int, rng: Rand, pos: nat): (r: Drawn)
    requires |neighbors| == 8
    ensures r.next == if ContagiousCount(neighbors) == 0 then pos else pos + 1
    ensures r.cell == if ContagiousCount(neighbors) > 0 &&
                         (ContagiousCount(neighbors) == 8 || Susceptibility(target) >= 100)
                      then target.(status := SickNcOrange, contagionT := time)
                      else target
  {
    var infN := ContagiousCount(neighbors);
    if infN == 0 then Drawn(target, pos)
    else
      var susc := Susceptibility(target);
      // ((inf_n / 8) * DISSEASE_STRENGTH) + (susc / 100), in tenths
      var chanceTenths := (infN / 8) * DiseaseStrengthTenths + (susc / 100) * 10;
      // ((rand() % 100) / 100), in tenths
      var drawTenths := ((rng(pos) % 100) / 100) * 10;
      if drawTenths < chanceTenths then
        Drawn(target.(status := SickNcOrange, contagionT := time), pos + 1)
      else
        Drawn(target, pos + 1)
  }

  /** An exposed cell turns contagious exactly 4 steps after exposure. */
  function SickToContagiousRule(target: Cell, time: int): (r: Cell)
    ensures r == target.(status := r.status)
    ensures r.status == SickCRed <==> time - target.contagionT == 4 || target.status == SickCRed
    ensures r.status != SickCRed ==> r.status == target.status
  {
    var elapsed := time - target.contagionT;
    if elapsed == 4 then target.(status := SickCRed) else target
  }

  /** Isolation: only when exactly 2 steps have elapsed since `contagionT`
      is a draw taken, and the cell isolates when the percentile draw is
      below 90. */
  function ContagiousToIsolatedRule(target: Cell, time: int, rng: Rand, pos: nat): (r: Drawn)
    ensures r.cell == target.(status := r.cell.status)
    ensures r.next == if time - target.contagionT == 2 then pos + 1 else pos
    ensures r.cell != target <==>
      time - target.contagionT == 2 && rng(pos) % 100 < 90 && target.status != IsolatedYellow
    ensures r.cell != target ==> r.cell.status == IsolatedYellow
  {
    var elapsed := time - target.contagionT;
    if elapsed == 2 then
      if rng(pos) % 100 < IsolationChance then Drawn(target.(status := IsolatedYellow), pos + 1)
      else Drawn(target, pos + 1)
    else Drawn(target, pos)
  }

  /** Death chance by age minus the vaccine bonus, in tenths of a percent:
      1.0, 1.3 or 14.8, minus 0.5 if vaccinated. */
  function DeathChanceTenths(target: Cell): (r: int)
    ensures r in {5, 8, 10, 13, 143, 148}
    ensures target.vaccinated <==> r in {5, 8, 143}
    ensures target.age == Child ==> r in {5, 10}
    ensures target.age == Adult ==> r in {8, 13}
    ensures target.age == Elder ==> r in {143, 148}
  {
    var byAge := match target.age
      case Child => 10
      case Adult => 13
      case Elder => 148;
    var vaccines := if target.vaccinated then 5 else 0;
    byAge - vaccines
  }

  /** The smallest whole percentile that survives: death happens exactly
      when the percentile draw is below this cut-off. */
  function SurvivalCutoff(age: Age, vaccinated: bool): nat
  {
    match age
    case Child => 1
    case Adult => if vaccinated then 1 else 2
    case Elder => 15
  }

  /** The outcome at the end of a sickness: one draw decides between death
      and cure; nothing but the status changes. */
  function LiveOrDieRule(target: Cell, rng: Rand, pos: nat): (r: Drawn)
    ensures r.next == pos + 1
    ensures r.cell == target.(status := r.cell.status)
    ensures r.cell.status == DeadBlack || r.cell.status == CuredGreen
    ensures r.cell.status == DeadBlack <==> rng(pos) % 100 < SurvivalCutoff(target.age, target.vaccinated)
  {
    var deathChance := DeathChanceTenths(target);
    if (rng(pos) % 100) * 10 < deathChance then Drawn(target.(status := DeadBlack), pos + 1)
    else Drawn(target.(status := CuredGreen), pos + 1)
  }

  // ---------------------------------------------------------------------
  // Grid initialisation

  /** A freshly populated cell, built from six successive draws: age,
      initial status, disease risk, job risk, vaccination and gender. */
  function NewRandomAliveCell(rng: Rand, pos: nat): (r: Drawn)
    ensures r.next == pos + 6
    ensures r.cell.status in {SuscBlue, SickNcOrange} && r.cell.contagionT == 0
    ensures r.cell.status == SickNcOrange <==> rng(pos + 1) % 1000 < 2
    ensures r.cell.age == Child <==> rng(pos) % 100 < 30
    ensures r.cell.age == Elder <==> rng(pos) % 100 >= 84
    ensures r.cell.riskDisease <==> rng(pos + 2) % 100 < 10
    ensures r.cell.riskJob <==> rng(pos + 3) % 100 < 10
    ensures r.cell.vaccinated <==> rng(pos + 4) % 100 < 70
    ensures r.cell.gender == Male <==> rng(pos + 5) % 2 == 0
  {
    var d := rng(pos) % 100;
    var age := if d < 30 then Child else if d >= 30 && d < 84 then Adult else Elder;
    var initialS := if rng(pos + 1) % 1000 < 2 then SickNcOrange else SuscBlue;
    Drawn(
      Cell(age,
           rng(pos + 2) % 100 < 10,
           rng(pos + 3) % 100 < 10,
           rng(pos + 4) % 100 < 70,
           if rng(pos + 5) % 2 == 0 then Male else Female,
           initialS,
           0),
      pos + 6)
  }

  /** One cell of the initialiser: a draw below 50 empties the slot (only its
      status is written; the other fields keep whatever the slot held),
      otherwise a new alive cell is drawn. */
  function InitCell(slot: Cell, rng: Rand, pos: nat): (r: Drawn)
    ensures r.cell.status == EmptyWhite <==> rng(pos) % 100 < 50
    ensures r.cell.status == EmptyWhite ==> r == Drawn(slot.(status := EmptyWhite), pos + 1)
    ensures r.cell.status != EmptyWhite ==> r.next == pos + 7
    ensures r.cell.status != EmptyWhite ==> r == NewRandomAliveCell(rng, pos + 1)
  {
    if rng(pos) % 100 < 50 then Drawn(slot.(status := EmptyWhite), pos + 1)
    else NewRandomAliveCell(rng, pos + 1)
  }

  /** A cell as the initialiser leaves it: empty, or alive (susceptible or
      exposed) with contagion time 0. */
  ghost predicate Initialised(c: Cell)
  {
    c.status == EmptyWhite || (c.status in {SuscBlue, SickNcOrange} && c.contagionT == 0)
  }

  /** The initialiser run over the first n slots of `slots` in order,
      from draw `pos`. */
  function InitSweep(slots: seq<Cell>, rng: Rand, pos: nat, n: nat): (r: Sweep)
    requires n <= |slots|
    ensures |r.cells| == n
  {
    if n == 0 then Sweep([], pos)
    else
      var p := InitSweep(slots, rng, pos, n - 1);
      var d := InitCell(slots[n - 1], rng, p.next);
      Sweep(p.cells + [d.cell], d.next)
  }

  /** Every initialised cell is empty or a fresh alive cell, and each cell
      takes 1 or 7 draws. */
  lemma {:induction false} InitSweepShape(slots: seq<Cell>, rng: Rand, pos: nat, n: nat)
    requires n <= |slots|
    ensures var r := InitSweep(slots, rng, pos, n);
      (forall k :: 0 <= k < n ==> Initialised(r.cells[k])) &&
      pos + n <= r.next <= pos + 7 * n
  {
    if n > 0 {
      InitSweepShape(slots, rng, pos, n - 1);
    }
  }

  /** The buffer `orig` with the cells from index `base` on replaced by
      `cells`: what a row-major sweep has written so far. */
  function Overwritten(orig: seq<Cell>, base: nat, cells: seq<Cell>): (r: seq<Cell>)
    requires base + |cells| <= |orig|
    ensures |r| == |orig|
    ensures forall k :: 0 <= k < |r| ==>
      r[k] == if base <= k < base + |cells| then cells[k - base] else orig[k]
  {
    orig[..base] + cells + orig[base + |cells|..]
  }

  /** The written range reads back as what was written. */
  lemma OverwrittenSlice(orig: seq<Cell>, base: nat, cells: seq<Cell>)
    requires base + |cells| <= |orig|
    ensures Overwritten(orig, base, cells)[base..base + |cells|] == cells
  {
    var r := Overwritten(orig, base, cells)[base..base + |cells|];
    assert forall k :: 0 <= k < |cells| ==> r[k] == cells[k];
  }

  /** Writing the next cell of the sweep extends what has been written. */
  lemma OverwrittenExtend(orig: seq<Cell>, base: nat, cells: seq<Cell>, c: Cell)
    requires base + |cells| < |orig|
    ensures Overwritten(orig, base, cells)[base + |cells| := c] == Overwritten(orig, base, cells + [c])
  {
    var r, r' := Overwritten(orig, base, cells)[base + |cells| := c], Overwritten(orig, base, cells + [c]);
    assert forall k :: 0 <= k < |r| ==> r[k] == r'[k];
  }

  /** After the first p slots of the grid at `base` have been visited, in
      row-major order from draw `pos`: the buffer `m` holds the initialised
      prefix and the original cells elsewhere, and `next` is the draw
      cursor after those slots. */
  ghost predicate InitSweptTo(m: seq<Cell>, orig: seq<Cell>, base: nat, slots: seq<Cell>,
                              rng: Rand, pos: nat, p: nat, next: nat)
  {
    base + |slots| <= |orig| && slots == orig[base..base + |slots|] && p <= |slots| &&
    var s := InitSweep(slots, rng, pos, p);
    m == Overwritten(orig, base, s.cells) && next == s.next
  }

  /** Nothing is initialised before the sweep starts. */
  lemma InitSweptStart(orig: seq<Cell>, base: nat, slots: seq<Cell>, rng: Rand, pos: nat)
    requires base + |slots| <= |orig| && slots == orig[base..base + |slots|]
    ensures InitSweptTo(orig, orig, base, slots, rng, pos, 0, pos)
  {
    assert orig[..base] + [] + orig[base..] == orig;
  }

  /** The next slot still holds its original cell, and writing InitCell's
      result into it extends the initialised prefix by one slot. */
  lemma InitSweptSlot(m: seq<Cell>, orig: seq<Cell>, base: nat, slots: seq<Cell>,
                      rng: Rand, pos: nat, p: nat, next: nat)
    requires p < |slots| && InitSweptTo(m, orig, base, slots, rng, pos, p, next)
    ensures base + p < |m| && m[base + p] == slots[p]
    ensures var d := InitCell(slots[p], rng, next);
      InitSweptTo(m[base + p := d.cell], orig, base, slots, rng, pos, p + 1, d.next)
  {
    var before := InitSweep(slots, rng, pos, p);
    OverwrittenExtend(orig, base, before.cells, InitCell(slots[p], rng, next).cell);
  }

  /** Overwriting the whole buffer leaves only the new cells. */
  lemma OverwrittenWhole(orig: seq<Cell>, cells: seq<Cell>)
    requires |cells| == |orig|
    ensures Overwritten(orig, 0, cells) == cells
  {
    assert orig[..0] + cells + orig[|cells|..] == cells;
  }

  /** One slot of init_cell_matrix, the p-th of the grid in row-major
      order: it is emptied (only its status is written) or repopulated with
      a new alive cell, as InitCell says; `after` is the index of the slot
      that comes next. */
  method InitSlot(matrix: array<Cell>, base: nat, p: nat, rng: Rand, pos: nat,
                  ghost orig: seq<Cell>, ghost slots: seq<Cell>, ghost start: nat)
    returns (next: nat, after: nat)
    requires p < |slots|
    requires InitSweptTo(matrix[..], orig, base, slots, rng, start, p, pos)
    modifies matrix
    ensures after == p + 1
    ensures InitSweptTo(matrix[..], orig, base, slots, rng, start, after, next)
  {
    InitSweptSlot(matrix[..], orig, base, slots, rng, start, p, pos);
    if rng(pos) % 100 < 50 {
      matrix[base + p] := matrix[base + p].(status := EmptyWhite);
      next := pos + 1;
    } else {
      var alive := NewRandomAliveCell(rng, pos + 1);
      matrix[base + p] := alive.cell;
      next := alive.next;
    }
    after := p + 1;
  }

  /** One row of init_cell_matrix: the w slots from row-major index `k` on
      are visited in column order; `after` is the index of the first slot
      of the next row. */
  method InitRow(matrix: array<Cell>, base: nat, w: nat, k: nat, rng: Rand, pos: nat,
                 ghost orig: seq<Cell>, ghost slots: seq<Cell>, ghost start: nat)
    returns (next: nat, after: nat)
    requires k + w <= |slots|
    requires InitSweptTo(matrix[..], orig, base, slots, rng, start, k, pos)
    modifies matrix
    ensures after == k + w
    ensures InitSweptTo(matrix[..], orig, base, slots, rng, start, after, next)
  {
    next, after := pos, k;
    for j := 0 to w
      invariant after == k + j
      invariant InitSweptTo(matrix[..], orig, base, slots, rng, start, after, next)
    {
      next, after := InitSlot(matrix, base, after, rng, next, orig, slots, start);
    }
  }

  /** init_cell_matrix on the w-by-h grid that starts at index `base` of
      `matrix`: every slot of the grid is visited once in row-major order,
      and nothing outside the grid is written. */
  method InitCellMatrix(matrix: array<Cell>, base: nat, w: nat, h: nat, rng: Rand, pos: nat) returns (next: nat)
    requires base + h * w <= matrix.Length
    modifies matrix
    ensures var s := InitSweep(old(matrix[base..base + h * w]), rng, pos, h * w);
      matrix[..] == Overwritten(old(matrix[..]), base, s.cells) && next == s.next
  {
    ghost var orig := matrix[..];
    ghost var slots := matrix[base..base + h * w];
    InitSweptStart(orig, base, slots, rng, pos);
    RowOffsetIsProduct(h, w);
    next := pos;
    var k := 0;  // row-major index i * w of the first slot of row i
    for i := 0 to h
      invariant k == RowOffset(i, w)
      invariant InitSweptTo(matrix[..], orig, base, slots, rng, pos, k, next)
    {
      RowOffsetFits(i, w, h);
      next, k := InitRow(matrix, base, w, k, rng, next, orig, slots, pos);
    }
  }

  /** init_cell_matrix over a whole w-by-h buffer, from draw `pos`: the
      buffer becomes the sweep of its old contents, and `next` is the first
      draw left over. */
  method InitWhole(matrix: array<Cell>, w: nat, h: nat, rng: Rand, pos: nat) returns (next: nat)
    requires matrix.Length == h * w
    modifies matrix
    ensures var s := InitSweep(old(matrix[..]), rng, pos, matrix.Length);
      matrix[..] == s.cells && next == s.next
    ensures forall k :: 0 <= k < matrix.Length ==> Initialised(matrix[k])
  {
    ghost var orig := matrix[..];
    ghost var slots := matrix[0..h * w];
    next := InitCellMatrix(matrix, 0, w, h, rng, pos);
    SweptAt(matrix[..], orig, 0, slots, rng, pos, h * w);
    assert slots == orig && matrix[..] == matrix[..][0..h * w];
  }

  /** Read back at its offset, what a sweep wrote is the sweep's cells,
      each of them initialised. */
  lemma SweptAt(after: seq<Cell>, orig: seq<Cell>, base: nat, slots: seq<Cell>, rng: Rand, pos: nat, n: nat)
    requires n == |slots| && base + n <= |orig|
    requires after == Overwritten(orig, base, InitSweep(slots, rng, pos, n).cells)
    ensures base + n <= |after|
    ensures after[base..base + n] == InitSweep(slots, rng, pos, n).cells
    ensures forall k :: base <= k < base + n ==> Initialised(after[k])
  {
    var s := InitSweep(slots, rng, pos, n);
    InitSweepShape(slots, rng, pos, n);
    OverwrittenSlice(orig, base, s.cells);
  }
}
