# Majority-vote grid relaxation (CleanFlowPNG `updateMatrix`)

This project is a verified Dafny model of the relaxation engine
`updateMatrix` in `matrix_update.cpp`. The engine works on an `m x n` grid
of colour codes:

- GREEN 0, RED 1, WHITE 2, ORANGE 3, GRAY 4, CYAN 5.

Each sweep does three things:

- It snapshots the grid.
- It gives every WHITE or ORANGE cell the majority code of its eight
  toroidal neighbours, read from the snapshot. The majority is the unique
  strict maximum of a four-slot frequency vector; on a tie the cell keeps
  its value.
- It reports whether any cell changed.

Sweeps repeat while something changed and fewer than 1000 have run.
`updateMatrix` returns the number of sweeps.

The model also covers the colour table. `readPng` uses it to turn pixels
into codes, and `saveMatrix` uses it to turn codes back into pixels.

The model has five modules:

- `Colors` (colors.dfy): the codes and the exact RGB table, as total
  functions. Also the two pixel loops, as methods over `array2`.
- `Majority` (majority.dfy): the pure specification on `seq<seq<int>>`.
  It covers:
  - toroidal neighbour indexing;
  - the neighbour list and its frequency vector;
  - the declarative vote;
  - one sweep (`Sweep`);
  - the capped relaxation (`Relax`), also expressed as `Iterate`.
- `SweepOrder` (order.dfy): a sweep that visits cells in any order, one at
  a time. It yields `Sweep`.
- `Engine` (engine.dfy): `updateMatrix` as imperative code. It uses
  `array2<int>` for the grid and the snapshot, `array<int>` for `freq`, and
  the source's nested loops, tie-break scan and do-while with the 1000 cap.
  Every method is proved against the `Majority` functions.
  `UpdateMatrix` is proved to leave `Relax` of the initial grid and to
  return its sweep count.
- `Scenarios` (scenarios.dfy): four small grids worked through by hand:
  - a lone WHITE cell;
  - an ORANGE cell among GREEN;
  - a four/four tie;
  - a 2x2 WHITE/ORANGE checkerboard that ties at every cell.

## Behaviour followed

Where the code and its comments disagree, the model follows the code:

- The doc comment of `updateMatrix` says cells with values "0 or 1" are
  replaced. The code (line 63) re-evaluates WHITE (2) and ORANGE (3), so the
  model does the same. GREEN and RED cells never change.
- The comment at line 64 says "values 0-5", but `freq` has 4 slots. The
  model has `Slots = 4` and requires that every neighbour of a WHITE/ORANGE
  cell is a code in `[0, 4)` (`Majority.Safe`). Otherwise line 72 indexes
  out of bounds, which is undefined behaviour in C++. `Majority.AllCodesSafe`
  shows that "every cell in `[0, 4)`" is enough. `Majority.SweepKeepsSafe`
  shows that the condition survives every sweep.

The tie-break scan starts with `max_freq = 0`. A slot whose count equals the
running maximum resets the result to the current value. The resulting rule
(`Majority.Vote`) is: slot `w` wins exactly when its count is positive and
strictly larger than every other count; otherwise the cell keeps its value.

On a grid with fewer than 3 rows or columns, the wrap-around makes a cell
its own neighbour, or makes a neighbour count more than once (on a 2x2 grid
the opposite corner counts four times; on a 2 x n grid the three cells of
the other row count twice each). The model counts what the source counts. `Majority.NeighboursDistinct` states that the eight
neighbours are distinct and differ from the cell itself when `m, n >= 3`.

Integer width: counts are at most 8 and `iterations` is at most 1000.
`i + di + m` is never negative, so C++'s truncating `%` agrees with Dafny's
`%`. The model uses unbounded integers. In the source, `m` and `n` are
`int`s narrowed from `size()` (lines 46-47), and `i + di + m` (line 70)
exceeds the 32-bit range once a dimension reaches 2^30; such grids are not
modelled (see "Left out").

## Model

| member | source | states |
|---|---|---|
| Colors.Encode | matrix_update.cpp:174-209 | a code outside 0..5 encodes as black (the colour table itself is the body; `Colors.DecodeEncode` and `Colors.EncodeDecode` state its round trip) |
| Colors.Decode | matrix_update.cpp:149-160 | a recognised pixel decodes to one of the six codes; all three channels must match exactly |
| Colors.ReadPixel | matrix_update.cpp:148-163 | an unknown colour leaves the cell's prior value; a known one gives the code whose encoding is that pixel |
| Colors.DecodeEncode | matrix_update.cpp:149-209 | every code in 0..5 survives encode-then-decode |
| Colors.EncodeDecode | matrix_update.cpp:149-209 | every recognised pixel survives decode-then-encode, so the table is a bijection |
| Colors.UnknownCodeReadsBackAsPrior | matrix_update.cpp:161-209 | a code outside 0..5 is saved as black; black is not recognised, so the cell reads back as its prior value |
| Colors.ReadImage | matrix_update.cpp:145-166 | a fresh grid of the image's shape holding `ReadPixel` of every pixel, with 0 for unknown colours |
| Colors.SaveImage | matrix_update.cpp:170-213 | a fresh image of the grid's shape holding `Encode` of every cell |
| Majority.Wrap | matrix_update.cpp:70-71 | `(x + d + m) % m` lies in `[0, m)`; it is `x + d` inside the range, `m - 1` below it and `0` above it |
| Majority.OffsetsAreTheEightNeighbours | matrix_update.cpp:67-69 | the loop visits exactly the eight offsets other than `(0, 0)`, each once |
| Majority.Mutable | matrix_update.cpp:63 | holds exactly for WHITE and ORANGE, the states a sweep re-evaluates |
| Majority.Neighbour | matrix_update.cpp:67-71 | every neighbour index lies inside the grid |
| Majority.CornerWraps | matrix_update.cpp:70-71 | the neighbours of `(0, 0)` include `(m-1, n-1)`, `(m-1, 0)`, `(m-1, 1)`, `(0, n-1)` and `(1, n-1)` |
| Majority.NeighbourSymmetric | matrix_update.cpp:67-71 | the neighbour relation is symmetric: the opposite offset leads back |
| Majority.WrapBack | matrix_update.cpp:70-71 | wrapping by `d`, then by `-d`, returns to the start |
| Majority.NeighboursDistinct | matrix_update.cpp:67-71 | when `m, n >= 3` the eight neighbours are pairwise distinct and never the cell itself |
| Majority.WrapInjective | matrix_update.cpp:70-71 | when `m >= 3`, distinct offsets wrap to distinct indices |
| Majority.OffsetIndex | matrix_update.cpp:67-69 | the position in loop order at which `(di, dj)` is visited |
| Majority.Neighbours | matrix_update.cpp:67-72 | the eight `temp_matrix[ni][nj]` reads of a cell, in the order the `di`/`dj` loops visit them |
| Majority.NeighbourAtOffset | matrix_update.cpp:67-72 | the neighbour visited at `(di, dj)` is the cell at `((i+di+m)%m, (j+dj+n)%n)` |
| Majority.NextNeighbour | matrix_update.cpp:67-72 | each turn of the counting loops reads the next neighbour in order |
| Majority.Count | matrix_update.cpp:72 | the `++freq[...]` tally of one code over a list, one entry at a time; never more than the list's length |
| Majority.CountIsMultiplicity | matrix_update.cpp:72 | the count of `k` equals the multiplicity of `k` in the neighbour list |
| Majority.Freq | matrix_update.cpp:64-74 | four slots, each count between 0 and the number of neighbours |
| Majority.CountSnoc | matrix_update.cpp:72 | reading one more entry raises only its own count, by one |
| Majority.FreqSnoc | matrix_update.cpp:72 | `++freq[x]` raises slot `x` by one and leaves the other slots unchanged |
| Majority.FreqSum | matrix_update.cpp:64-74 | when every entry has a slot, the counts sum to the number of entries |
| Majority.NeighbourFreqSum | matrix_update.cpp:64-74 | the neighbour counts are non-negative and sum to exactly 8 |
| Majority.Vote | matrix_update.cpp:77-90 | a unique positive strict maximum wins; with no such slot the current value is kept |
| Majority.StrictMaxOfCountsWins | matrix_update.cpp:77-90 | for neighbour counts, a strict maximum is positive and wins whatever the current value is |
| Majority.VoteRange | matrix_update.cpp:78-89 | the vote is either the current value or a slot index |
| Majority.NewValue | matrix_update.cpp:63-96 | a cell other than WHITE/ORANGE keeps its value; a WHITE/ORANGE cell gets a code in `[0, 4)` |
| Majority.Safe | matrix_update.cpp:63-72 | every neighbour of every WHITE/ORANGE cell is a code below 4, exactly the condition under which line 72 stays inside the four-slot `freq`; `Engine.UpdateMatrix` requires it |
| Majority.AllCodesSafe | matrix_update.cpp:64-72 | if every cell is in `[0, 4)`, no count indexes outside `freq` |
| Majority.Sweep | matrix_update.cpp:58-99 | the same shape, and every cell holds its vote computed from the snapshot |
| Majority.SweepChangedIff | matrix_update.cpp:93-96 | a sweep changes the grid iff some cell's new value differs from its old one |
| Majority.ChangedBefore | matrix_update.cpp:93-96 | some cell before `(i, j)` in row-major order is changed by the sweep: the value `updated` holds once the loops reach `(i, j)` |
| Majority.ChangedBeforeNext | matrix_update.cpp:93-96 | `updated` after a cell is `updated` before it, or that cell changed |
| Majority.ChangedBeforeNextRow | matrix_update.cpp:61-62 | the flag passes unchanged from the end of one row to the start of the next |
| Majority.ChangedBeforeAll | matrix_update.cpp:57-99 | at the end of a sweep, `updated` holds iff the sweep changed the grid |
| Majority.SweepFrame | matrix_update.cpp:63-94 | a sweep never alters a cell that is not WHITE/ORANGE; a cell that changes becomes a code in `[0, 4)` |
| Majority.SweepKeepsCodes | matrix_update.cpp:78-94 | if every cell is in `[0, 4)` before a sweep, every cell is in `[0, 4)` after it |
| Majority.SweepKeepsSafe | matrix_update.cpp:63-94 | the bounds-safety condition survives a sweep |
| Majority.NoMutableFixed | matrix_update.cpp:63-97 | a grid with no WHITE/ORANGE cell is a fixed point |
| Majority.RelaxFrom | matrix_update.cpp:56-107 | same shape; the sweep count lies between one more than the sweeps already done and 1000; below 1000 the grid is a fixed point |
| Majority.RelaxFromStep | matrix_update.cpp:106-107 | one turn of the do-while: sweep, count, and continue only if something changed and fewer than 1000 have run |
| Majority.Relax | matrix_update.cpp:44-110 | same shape; the return value is in 1..1000; below 1000 the final grid is a fixed point |
| Majority.FixedPointOneSweep | matrix_update.cpp:56-107 | a fixed point returns 1 and is left unchanged |
| Majority.RelaxIdempotent | matrix_update.cpp:50-107 | when a run stops before 1000, a second run on its result returns 1 and leaves the grid unchanged |
| Majority.NoMutableOneSweep | matrix_update.cpp:56-107 | a grid without WHITE/ORANGE cells takes one sweep and is unchanged |
| Majority.Iterate | matrix_update.cpp:56-107 | `k` sweeps in a row; the grid keeps its shape |
| Majority.IterateAdd | matrix_update.cpp:56-107 | `k + l` sweeps are `k` sweeps followed by `l` |
| Majority.RelaxFromIsIterate | matrix_update.cpp:56-107 | the relaxation's grid is the grid after as many sweeps as it reports |
| Majority.RelaxIsIterate | matrix_update.cpp:56-107 | `updateMatrix`'s grid is the start grid swept exactly `iterations` times |
| Majority.IterateKeepsFixedCell | matrix_update.cpp:63-94 | a cell that is not WHITE/ORANGE keeps its value through any number of sweeps |
| Majority.SettledCellStays | matrix_update.cpp:63-94 | once a cell holds a value other than WHITE/ORANGE, it is never re-evaluated |
| Majority.RelaxKeepsFixedCells | matrix_update.cpp:63-94 | `updateMatrix` never changes a cell that starts other than WHITE/ORANGE |
| Majority.IterateKeepsCodes | matrix_update.cpp:78-94 | if every cell starts in `[0, 4)`, every cell stays in `[0, 4)` through any number of sweeps |
| Majority.RelaxKeepsCodes | matrix_update.cpp:44-110 | `updateMatrix` keeps the grid's dimensions and, when every cell starts in `[0, 4)`, keeps them there |
| SweepOrder.Visit | matrix_update.cpp:63-96 | visiting one cell changes only that cell |
| SweepOrder.VisitAll | matrix_update.cpp:60-62 | the cell visits of the parallel loop run one after another in a chosen order, from the snapshot; the grid keeps its shape |
| SweepOrder.VisitAllCells | matrix_update.cpp:58-99 | after visiting distinct cells one at a time, each visited cell holds its sweep value and every other cell its snapshot value |
| SweepOrder.OrderIndependent | matrix_update.cpp:58-99 | any order that visits every cell exactly once yields the same grid as the sweep |
| Engine.CountStep | matrix_update.cpp:67-73 | reading the next neighbour extends the visited prefix of `Neighbours` by its value, which is a counted code, and adds one to exactly its count |
| Engine.CountNeighbours | matrix_update.cpp:64-74 | the `freq` array the loops fill equals `Freq` of the eight snapshot neighbours |
| Engine.ScanPrefix | matrix_update.cpp:79-90 | `(max_freq, new_value)` after the first `k` slots, one branch per slot as the loop takes it (an equal count resets to the current value, a higher count takes the slot, a lower one keeps the state); `Engine.ScanPrefixState` gives its meaning |
| Engine.ScanTie | matrix_update.cpp:81-84 | when slot `k - 1` equals the running maximum, the scan resets the result to the current value, and what it knows about the first `k` slots still holds |
| Engine.ScanRise | matrix_update.cpp:86-89 | when slot `k - 1` exceeds the running maximum, it becomes the unique winner among the first `k` slots |
| Engine.WinnerAmongFewer | matrix_update.cpp:79-90 | a strict winner among the first `k + 1` counts that lies below `k` is also the strict winner among the first `k` |
| Engine.WinnerAmongMore | matrix_update.cpp:79-90 | a strict winner among the first `k` counts stays the winner when a smaller count is added |
| Engine.BelowKeepsMax | matrix_update.cpp:79-90 | a count below the running maximum leaves that maximum both an upper bound and attained over one more slot |
| Engine.ScanBelow | matrix_update.cpp:79-90 | when slot `k - 1` is below the running maximum, the scan's maximum and result keep their meaning over the first `k` slots |
| Engine.ScanPrefixState | matrix_update.cpp:79-90 | after the scan has seen any prefix of `freq`, its maximum is the prefix's largest count and its result the prefix's unique strict maximum, else the current value |
| Engine.ScanDone | matrix_update.cpp:77-90 | at the end of the scan, its result is the vote |
| Engine.PickWinner | matrix_update.cpp:77-90 | the loop, `continue` included, computes the scan of every prefix; it returns the unique strict maximum if there is one, else the current value, i.e. `Vote` |
| Engine.CopyGrid | matrix_update.cpp:58 | the snapshot equals the live grid |
| Engine.UpdateCell | matrix_update.cpp:63-97 | the cell gets `NewValue` of the snapshot, no other cell changes, and `changed` says whether it was rewritten |
| Engine.SweepRow | matrix_update.cpp:62-98 | after row `i`, every cell up to the end of that row holds its sweep value, and `updated` says if any of them changed |
| Engine.SweepOnce | matrix_update.cpp:57-99 | the grid becomes `Sweep` of its old value; `updated` holds iff it changed |
| Engine.SweepStep | matrix_update.cpp:57-99 | one turn of the do-while: snapshot, then sweep |
| Engine.UpdateMatrix | matrix_update.cpp:44-110 | the final grid and the returned count are `Relax` of the initial grid: 1..1000 sweeps, and below 1000 a fixed point |
| Scenarios.SingleWhiteCell | matrix_update.cpp:63-107 | on a 1x1 WHITE grid the cell is its own eight neighbours; it stays WHITE and one sweep is counted |
| Scenarios.OrangeAmongGreen | matrix_update.cpp:63-107 | an ORANGE cell surrounded by GREEN turns GREEN, and two sweeps are counted |
| Scenarios.TieKeepsCurrent | matrix_update.cpp:81-83 | counts 4/4/0/0 keep the current value |
| Scenarios.OrangeTieKeeps | matrix_update.cpp:77-90 | an ORANGE cell with four GREEN and four RED neighbours keeps its value; the grid is a fixed point after one sweep |
| Scenarios.AlternatingFreq | matrix_update.cpp:64-74 | the neighbourhood `[a, b, a, b, b, a, b, a]` counts four `a`, four `b` and nothing else |
| Scenarios.TieOfTwo | matrix_update.cpp:77-90 | two codes tied at four with every other count zero leave the current value |
| Scenarios.CheckerboardNeighbours | matrix_update.cpp:67-73 | on the 2x2 WHITE/ORANGE checkerboard each cell sees its own colour on the four diagonals and the other colour on the four edges |
| Scenarios.CheckerboardFixed | matrix_update.cpp:57-107 | the 2x2 WHITE/ORANGE checkerboard ties at every cell, so one sweep leaves it unchanged and one iteration is counted |

## Left out

- OpenMP parallelism (line 60): the model sweeps with sequential nested
  loops. `SweepOrder.OrderIndependent` shows that the visiting order does
  not matter. The data race on the shared `updated` flag is not modelled.
- png++ file I/O (lines 144, 170, 214): the images are `array2<Pixel>` in
  memory.
- The `printf` diagnostic for an unknown colour (line 162) is console
  output; only its effect on the cell (none) is modelled.
- `printMatrix` and the `verbose` printing (lines 24-31, 101-104) are
  console output.
- `randomTest` (lines 112-140) depends on system randomness and printing.
- `main`'s command-line handling, its hard-coded developer path and the
  output-name derivation are plumbing around the engine.
- Engine.UpdateMatrix: requires at least one row, because line 47 reads
  `matrix[0]`. It also requires at least one column: the grid model is
  rectangular with both dimensions at least 1, so an m x 0 grid, for which
  the source does no work and returns 1, is excluded rather than modelled. It also requires `Majority.Safe`: a GRAY or CYAN neighbour of
  a WHITE/ORANGE cell makes line 72 index `freq` out of bounds, which is
  undefined behaviour, so such grids are excluded rather than modelled.
- Engine.UpdateMatrix: grids with 2^30 or more rows or columns are not
  modelled. There `i + di + m` or `j + dj + n` (lines 70-71) overflows a
  32-bit `int` in the source, which is undefined behaviour, and the
  narrowing of `size()` to `int` at lines 46-47 would already misbehave
  from 2^31; the model's unbounded arithmetic is faithful only below that.
- Colors.SaveImage: requires at least one row, because line 170 reads
  `matrix[0]`.
- The source's `std::vector<std::vector<int>>` could in principle be
  ragged; the model uses a rectangular `array2`.
