# COVID-19 Simulator — a verified Dafny model of its core

The simulator evolves a grid of cells under local epidemic rules. Every cell
has an age class, two risk flags, a vaccination flag, a gender, a status
(empty, susceptible, exposed, contagious, isolated, cured, dead) and the time
of its exposure. Each time step runs a chain of probabilistic rules on every
cell, reading the 8 toroidal neighbours from the previous grid. The result is
written into a second buffer, and the two buffers then trade places.

The repository has two drivers:

- **The single-process program** (`src/main.c`) initialises a 60-by-60 grid
  and steps it.
- **The MPI variant** (`src/main-mpi.c`) does the following:
  - checks its configuration;
  - pads the grid with two halo rows;
  - plans a row-block partition;
  - scatters overlapping blocks to the processes and gathers their interior
    rows back;
  - swaps the buffers, 120 times.

  The processes do no work on their blocks yet.

`test/test.c` prints the circular row mapping behind that partition.

The model is split into five modules, one per concern:

| file | module | models |
|---|---|---|
| `simulation.dfy` | `SimulationRules` | `src/simulation.h`: cell record, colour codes, neighbour addressing, classifiers, the four rules, the random cell and the grid initialiser |
| `serial.dfy` | `SerialMain` | the update step of `src/main.c` and its reset key, as a class `Simulator` over two arrays |
| `rowmap.dfy` | `RowMapping` | `circular_rows` and `print_int_array` of `test/test.c` |
| `mpi.dfy` | `MpiMain` | the master side of `src/main-mpi.c`, as a class `Master` over two padded arrays and three plan arrays |
| `arith.dfy` | `Arith` | non-linear arithmetic facts the other modules share (row-major indices, `div`/`mod` uniqueness) |

How the model treats the C code's side effects:

- **Random numbers.** `rand()` is a stream `rng: nat -> nat` read at a
  cursor. Every rule that draws returns the advanced cursor, so the order and
  number of draws are part of each contract.
- **Rules that mutate a cell.** The rules take `Cell *target` in C and are
  functions returning the new cell. The callers write that cell back into the
  array slot.
- **Loops.** The nested row/column loops (`init_cell_matrix` and the serial
  step) are methods over arrays: one method per loop level, proved against a
  specification function (`InitSweep`, `StepSweep`).
- **Floating point.** The comparisons are decided in exact integer tenths.
- **Output.** `print_int_array` and `circular_rows` return the text they
  would print.

The main results:

- **The serial step.** `Simulator.Update` builds exactly `StepGrid` of the
  old grid. A step changes only status and exposure time, and leaves empty,
  cured and dead cells untouched (`StepGridPreserves`). Every cell stays on
  the reachable timeline (`StepGridOnTimeline`): an exposed cell has been
  exposed for 0-4 steps, a contagious one for 5-14, and no cell is ever
  isolated.
- **Neighbour addressing.** The 8 neighbours wrap around both edges
  (`NeighborsAddress`) and are 8 distinct cells on a grid of at least 3 by 3
  (`NeighborsDistinct`).
- **The padded grid.** `CopyFrontiers` produces the padded grid, which holds
  logical row `(p - 1) mod rows` in padded row `p`. Slot `j` of process `i`'s
  scattered block holds exactly the logical row that `circular_rows` lists for
  that slot (`ScatterRows`).
- **The partition.** The interior slots cover every row exactly once
  (`InteriorCovers`, `InteriorDisjoint`). The gather destinations tile the
  interior without gaps or overlap, and the receive counts sum to the grid
  (`GatherTiles`, `GatherDisjoint`, `RecvCountsCover`).
- **The exchange and main loop.** A full scatter/gather writes back the
  interior rows unchanged (`Exchange`). After 120 swaps the master's grid is
  back in its original buffer with its original contents (`Master.Simulate`).
- **The printer.** What `print_int_array` prints parses back to the array
  (`PrintIntArrayRoundTrip`).

### Behaviour of the code worth knowing

- **Isolation never happens.** `contagious_to_isolated_rule` tests
  `time - contagion_t == 2`, where `contagion_t` is the exposure time, and
  it runs only on contagious cells, which are at least 4 steps past
  exposure. So the test never passes on a reachable state:
  `StepGridOnTimeline` proves that no cell becomes isolated.
- **Infection uses integer division.** The chance
  `((inf_n / 8) * 2.4) + (susc / 100)` and the draw `(rand() % 100) / 100`
  are integer divisions before the conversion to `double`. So the draw is
  always 0, and a susceptible cell with a contagious neighbour becomes exposed
  exactly when all 8 neighbours are contagious or its susceptibility score
  is at least 100 (`SusceptibleToSickRule`).
- **Neighbours wrap on both axes.** `neighbors` wraps rows and columns
  modulo the grid's size (`NeighborsAddress`, `ColumnWrap`), so the first
  and last rows and columns are adjacent.
- **Halo rows are copied only once.** The frontier copy (the two `memcpy` calls at
  `src/main-mpi.c:66-70`) runs once, before the main loop. After a gather, the halo rows of the buffer that becomes current
  are whatever that buffer held (`Master.Step`).
- **No worker computation.** Between the scatter and the gather the code
  has only a TODO comment, so an exchange returns the interior unchanged
  (`Exchange`).
- **`circular_rows` constants.** Its comment works the example with 3
  processes, but the function runs with `rows = 6`, `nprocs = 6`. Both tables
  are stated (`DocumentedExample`, `HardcodedTable`). `CircularRows` models
  the code's constants.

## Model

| member | source | states |
|---|---|---|
| SimulationRules.Colour | src/simulation.h:21-30 | every status is painted with a 24-bit RGB code |
| SimulationRules.StatusOf | src/simulation.h:21-30 | decoding a colour yields a status whose code is that colour |
| SimulationRules.ColourRoundTrip | src/simulation.h:21-30 | every status's code decodes back to it, so distinct statuses have distinct colours |
| SimulationRules.WrappedIndex | src/simulation.h:60-67 | the "+ size, then modulo" wrap of both coordinates always yields an index inside the w*h buffer |
| SimulationRules.WrappedIndexAddress | src/simulation.h:60-67 | the wrapped index lies in column c mod w and row r mod h |
| SimulationRules.Neighbors | src/simulation.h:43-68 | 8 neighbour indices, each inside the buffer |
| SimulationRules.NeighborsAddress | src/simulation.h:50-67 | neighbour slot s sits SlotDx(s) columns and SlotDy(s) rows away, wrapping around both edges |
| SimulationRules.ColumnWrap | src/simulation.h:60-67 | on a 4-wide grid, column 0's left neighbour is column 3 and column 3's right neighbour is column 0 |
| SimulationRules.NeighborsDistinct | src/simulation.h:50-67 | on a grid of at least 3x3 the 8 neighbours are pairwise distinct and never the cell itself |
| SimulationRules.IsSick | src/simulation.h:70-75 | sick exactly when exposed, contagious or isolated, i.e. not empty, susceptible, cured or dead |
| SimulationRules.Susceptibility | src/simulation.h:77-97 | score is one of 30/45/50/65/90/105: the age base (child 30, adult 50, elder 90) plus 0 or 15; it reaches 100 exactly for an elder with a risk factor; it ends in 5 exactly when a risk factor is set |
| SimulationRules.ContagiousCount | src/simulation.h:99-109 | count of contagious neighbours: at most their number, 0 iff none is contagious, full iff all are |
| SimulationRules.InfectedNeighbors | src/simulation.h:99-109 | the counting loop over the 8 neighbour slots returns ContagiousCount of those cells, at most 8 |
| SimulationRules.SusceptibleToSickRule | src/simulation.h:111-125 | no contagious neighbour: no draw, cell unchanged; otherwise one draw, and the cell becomes exposed at `time` iff all 8 neighbours are contagious or susceptibility >= 100 |
| SimulationRules.SickToContagiousRule | src/simulation.h:127-133 | only status changes; the cell turns contagious iff exactly 4 steps have elapsed (or it already was) |
| SimulationRules.ContagiousToIsolatedRule | src/simulation.h:135-145 | a draw is taken iff exactly 2 steps elapsed; the cell changes iff then the draw is below 90 (and it was not already isolated), and the change is to isolated |
| SimulationRules.DeathChanceTenths | src/simulation.h:150-167 | death chance in tenths of a percent: child 10, adult 13, elder 148, each 5 lower when vaccinated (so one of 5/8/143 iff vaccinated) |
| SimulationRules.LiveOrDieRule | src/simulation.h:147-173 | one draw; only status changes, to dead or cured; dead iff the percentile draw is below the age/vaccination cut-off |
| SimulationRules.NewRandomAliveCell | src/simulation.h:175-197 | six draws; susceptible or exposed with contagion time 0; exposed iff the second draw mod 1000 < 2; child iff the first draw mod 100 < 30, elder iff >= 84; disease risk iff the third draw mod 100 < 10, job risk iff the fourth < 10, vaccinated iff the fifth < 70, male iff the sixth is even |
| SimulationRules.InitCell | src/simulation.h:206-210 | empty iff the draw mod 100 < 50, in which case only the status is written and one draw is used; otherwise the cell is new_random_alive_cell's from the next draw, 7 draws in all |
| SimulationRules.InitSweep | src/simulation.h:199-213 | the initialiser over the first n slots yields n cells |
| SimulationRules.InitSweepShape | src/simulation.h:199-213 | every initialised cell is empty or a fresh alive cell, and n slots use between n and 7n draws |
| SimulationRules.InitSlot | src/simulation.h:204-211 | one slot of the loop extends the initialised prefix by InitCell's result |
| SimulationRules.InitRow | src/simulation.h:204-211 | the column loop initialises the next w slots in order |
| SimulationRules.InitCellMatrix | src/simulation.h:199-213 | the grid at `base` becomes InitSweep of its old contents, nothing outside it is written, and the cursor ends at InitSweep's |
| SimulationRules.InitWhole | src/simulation.h:199-213 | init_cell_matrix over a whole buffer: the buffer becomes the sweep of its old contents from the given draw, every cell initialised, and the cursor is where the sweep stops |
| SimulationRules.SweptAt | src/simulation.h:199-213 | what the sweep wrote at an offset reads back as the sweep's cells, each initialised |
| SerialMain.CellStep | src/main.c:123-140 | the rule chain uses at most 3 draws, changes only status and exposure time, and leaves empty, cured and dead cells untouched |
| SerialMain.CellStepResolves | src/main.c:137-140 | a cell that is sick 14 steps after exposure leaves the step cured or dead |
| SerialMain.CellStepChains | src/main.c:129-136 | an exposed cell at its 4th step turns contagious and the isolation rule then takes no draw |
| SerialMain.InitialisedOnTimeline | src/main.c:57-59 | every initialised cell is on the timeline at time 0 |
| SerialMain.CellStepOnTimeline | src/main.c:123-140 | a cell on the timeline at t is on it at t + 1 (exposed 0-4 steps, contagious 5-14, never isolated) |
| SerialMain.StepSweep | src/main.c:119-142 | the first n cells of a step, in row-major order, with a non-decreasing cursor |
| SerialMain.StepGrid | src/main.c:118-142 | a whole step yields one cell per grid cell |
| SerialMain.StepGridPreserves | src/main.c:118-142 | a step changes only status and exposure time of each cell; empty, cured and dead cells stay as they are |
| SerialMain.StepGridOnTimeline | src/main.c:118-142 | a grid on the timeline at t steps to a grid on the timeline at t + 1 |
| SerialMain.Simulator.constructor | src/main.c:50-59 | two fresh distinct buffers; the current grid is the sweep from draw 0 over the buffer's allocated contents (`unset`), and the draw cursor is where that sweep stops; every cell initialised; clock at 0 |
| SerialMain.Simulator.Update | src/main.c:117-148 | new grid = StepGrid of the old one with the cursor advanced accordingly; the old grid is kept in the other buffer; buffers swapped; clock + 1 |
| SerialMain.Simulator.Reset | src/main.c:83-87 | the current grid is re-initialised in place from the current cursor and the clock restarts at 0 |
| SerialMain.RunRules | src/main.c:123-140 | the four guarded rule calls on one cell compute CellStep with neighbours read from the grid |
| SerialMain.StepSlot | src/main.c:123-140 | one cell of the loop extends the stepped prefix by its CellStep result |
| SerialMain.StepRow | src/main.c:121-141 | the column loop steps the next `cols` cells in order |
| SerialMain.StepCells | src/main.c:119-142 | the nested loops turn the copied buffer into StepGrid of the original, reading neighbours only from the original |
| RowMapping.CircularRow | test/test.c:113 | the logical row of each slot lies in 0..rows-1 |
| RowMapping.CircularTable | test/test.c:107-115 | one entry per process, each with rows_per_proc slots |
| RowMapping.DocumentedExample | test/test.c:93-100 | 6 rows over 3 processes give [5 0 1 2], [1 2 3 4], [3 4 5 0] |
| RowMapping.HardcodedTable | test/test.c:102-115 | 6 rows over 6 processes give [5 0 1] ... [4 5 0] |
| RowMapping.HaloAbove | test/test.c:91-100 | slot 0 holds the row just above the block, wrapping to the last row for process 0 |
| RowMapping.HaloBelow | test/test.c:91-100 | slot k + 1 holds the row just below the block, wrapping to row 0 for the last process |
| RowMapping.InteriorSlot | test/test.c:91-100 | interior slots 1..k of process i hold rows i*k .. i*k+k-1 |
| RowMapping.InteriorCovers | test/test.c:87-100 | every logical row is held by an interior slot (slot r mod k + 1 of process r div k) |
| RowMapping.InteriorDisjoint | test/test.c:87-100 | no logical row is held by two interior slots |
| RowMapping.CircularRowsTable | test/test.c:107-115 | one fresh array per process filled with the mapping |
| RowMapping.Digits | test/test.c:38 | the decimal digits of n: at least one, all digits |
| RowMapping.Decimal | test/test.c:38 | "%d" renders a non-empty, comma-free string |
| RowMapping.DigitsRoundTrip | test/test.c:38 | digits parse back to the number |
| RowMapping.DecimalRoundTrip | test/test.c:38 | "%d" parses back to the number, negative numbers included |
| RowMapping.JoinRoundTrip | test/test.c:37-42 | the comma-separated list parses back to the elements |
| RowMapping.PrintIntArray | test/test.c:34-44 | prints "[", the first `size` elements separated by commas, "]\n" |
| RowMapping.PrintIntArrayRoundTrip | test/test.c:34-44 | the printed list parses back to the elements; an empty array prints "[]\n" |
| RowMapping.CircularRows | test/test.c:82-121 | prints one "Proc[i]: [..]" line per process of the 6-over-6 table |
| MpiMain.CheckConfig | src/main-mpi.c:24-41 | the run goes ahead iff there are enough arguments, rows >= 2, cols >= 2 and nprocs divides rows; the usage error iff too few arguments; the size error iff enough arguments but a size below 2 |
| MpiMain.LaunchableShares | src/main-mpi.c:37-46 | an accepted configuration gives each process at least one interior row and nprocs * (rows / nprocs) == rows |
| MpiMain.PlanPartition | src/main-mpi.c:72-81 | three fresh arrays holding every process's send count, receive count and displacement |
| MpiMain.GatherTiles | src/main-mpi.c:79-80 | each gather destination ends where the next one starts |
| MpiMain.GatherBounds | src/main-mpi.c:80 | the destinations start at 0 and the last ends at rows * cols |
| MpiMain.GatherDisjoint | src/main-mpi.c:79-80 | destinations of distinct processes do not overlap |
| MpiMain.RecvCountsCover | src/main-mpi.c:79 | the receive counts add up to rows * cols |
| MpiMain.ScatterInside | src/main-mpi.c:62-80 | every scatter block lies inside the padded grid; the last ends exactly at its end |
| MpiMain.Padded | src/main-mpi.c:62-70 | the padded grid has two more rows than the logical grid |
| MpiMain.PaddedInterior | src/main-mpi.c:64-70 | the padded grid's interior is the logical grid |
| MpiMain.PaddedAt | src/main-mpi.c:66-70 | padded row p holds logical row (p - 1) mod rows: row 0 is the last row and row rows + 1 the first |
| MpiMain.CopyFrontiers | src/main-mpi.c:66-70 | after the two row copies the buffer is the padded grid of its interior |
| MpiMain.CopyFrontiersIdempotent | src/main-mpi.c:66-70 | repeating the halo copy changes nothing |
| MpiMain.ScatterBlock | src/main-mpi.c:90-99 | each process receives send-count cells |
| MpiMain.PaddedCircular | src/main-mpi.c:66-70 | the padded row that slot j of process i reads is the logical row the circular mapping names for that slot |
| MpiMain.ScatterRows | src/main-mpi.c:90-99 | slot j of process i's block holds the logical row the circular mapping lists for it |
| MpiMain.BlockInterior | src/main-mpi.c:104-110 | the interior rows a process sends back are the grid's cells at its gather destination |
| MpiMain.GatherBlock | src/main-mpi.c:104-113 | receiving a block overwrites exactly its destination range |
| MpiMain.GatherStep | src/main-mpi.c:104-113 | gathering process i's interior extends the gathered prefix |
| MpiMain.Scatterv | src/main-mpi.c:90-99 | every process's block is cut out of the grid at its displacement |
| MpiMain.Gatherv | src/main-mpi.c:104-113 | all interiors together overwrite exactly the interior of the receiving buffer with the grid's interior |
| MpiMain.Exchange | src/main-mpi.c:89-113 | scatter then gather: the receiving buffer's interior becomes the grid's interior, its halo rows are untouched |
| MpiMain.InitInterior | src/main-mpi.c:64 | init_cell_matrix on padded rows 1..rows: the interior becomes the sweep of its old contents from draw 0, every cell initialised |
| MpiMain.PaddedInitialised | src/main-mpi.c:66-70 | the halo copy keeps every interior cell initialised |
| MpiMain.InitMatrix | src/main-mpi.c:62-70 | a fresh padded buffer whose interior is the sweep from draw 0 over its allocated contents (`unset`), every cell initialised, and whose halo rows copy it |
| MpiMain.Master.constructor | src/main-mpi.c:57-85 | accepted configuration, a padded grid whose interior is the sweep from draw 0 over its allocated contents (`unset`), distinct second buffer, the plan |
| MpiMain.Master.Step | src/main-mpi.c:89-122 | buffers swapped; the new grid is the other buffer with the old interior gathered into it |
| MpiMain.Master.Round | src/main-mpi.c:87-123 | one loop iteration swaps which buffer holds the grid, keeping its contents |
| MpiMain.Master.Simulate | src/main-mpi.c:87-123 | after the 120 iterations the grid is in its original buffer with its original contents, halo rows included |

## Left out

- **Rendering, event loop and timing.** The SDL window and renderer, the
  event loop (pause, speed keys, quit) and the frame delay of `src/main.c`
  are user interface. Only the update step and the reset key are modelled.
- **`Simulator.constructor` grid size.** It takes any positive `rows` and
  `cols`. `src/main.c` uses 60 by 60 (`WIN_W / CELL_SIZE`).
- **MPI runtime.** Process start-up, ranks and message passing are not
  modelled. `Scatterv`/`Gatherv` model the index layout on the master side,
  and the aborts appear as a `Verdict`.
- **Per-process buffers.** The per-process block buffers, and the unused
  `my_upd_matrix` and `my_buff_neighbors`, are not modelled.
- **Scatter and gather datatype.** The calls use `MPI_INT` for an array of
  `Cell` records, which would move the wrong amount of data. The model moves
  whole cells by count.
- **Seeding and the generator.** `srand` seeding and the distribution of
  `rand()` are outside the model; `rand()` draws are the parameter `rng`.
- **Allocation.** `malloc`/`free` and the NULL-pointer asserts are not
  modelled. Fresh buffers start with arbitrary contents, and nothing is
  assumed about them. The ghost constant `unset` of `Simulator` and `Master`
  records those contents, because the initialiser writes only the status of
  the slots it empties.
- **32-bit overflow.** C `int` overflow of `rows * cols`, of the
  displacements and of the step counter `sim_t` is not modelled (integers,
  `simT` included, are unbounded).
- **Floating point.** The infection chance, the draw and the death chance
  are computed exactly in tenths. This agrees with the `double` comparisons
  for every input.
- **Not part of this model.** `src/utils.h` (logging macros) and the
  `Person`-based `custom_data_types` and `print_person` of `test/test.c`.
