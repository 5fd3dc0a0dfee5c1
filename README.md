# Game of Life with multi-variant live cells — Dafny model

This project models the simulation core of a Go Game of Life demo (`main.go`). The world
is a bounded grid of `width*height` cells stored row-major in one flat buffer: index
`y*width+x`. A cell holds `0` when dead. A live cell holds one of `nImg` = 3 variants
(`1..3`), which only choose the picture shown. A new world starts all dead. It is then
seeded by `maxLiveCells` random writes of a random variant at a random position; a later
write to the same position overwrites an earlier one. Each tick computes a fresh buffer
from the old one. The live Moore neighbours of each cell are counted without wrapping
around the edges. A `switch` is then tried case by case:

1. fewer than 2 neighbours: dead;
2. a live cell with 2 or 3 neighbours: a freshly drawn variant;
3. more than 3 neighbours: dead;
4. exactly 3 neighbours: a freshly drawn variant.

A dead cell with 2 neighbours matches no case and keeps the zero of the fresh buffer.

Modules:

- `Grid` (grid.dfy): cell values (`NImg`, `IsVariant`, `IsCell`, `IsLive`), the row-major
  index and its arithmetic facts, the source's `max`/`min`, and `LiveCount`.
- `Neighbours` (neighbours.dfy): `neighbourCount` as the loop method `NeighbourCount`. It is
  proved against `CountSpec`, which follows the loops' visiting order. An independent
  reference, the set `LiveNeighbours` of live on-grid positions around the cell, is proved
  to have exactly `CountSpec` elements.
- `Rules` (rules.dfy): the rule `switch` as `Select`, its classical reading `Survives`,
  and the relation `IsNextGeneration(old, new)`. The relation fixes each new cell up to the
  drawn variant. The module also proves lemmas for the rule table's edge cases.
- `Seeding` (seeding.dfy): the writes of `init` as `Seeded`, with last-write-wins and
  live-count bounds.
- `Life` (life.dfy): the `World` class, with its `area` array and dimensions. It has the
  constructor (`NewWorld`), `Init` (`init`) and `Update`.

Random draws. `init` makes three draws per iteration. They are modelled as a caller-supplied
sequence of `Draw(x, y, r)`, bounded as `rand.Intn` bounds them
(`0 <= x < width`, `0 <= y < height`, `0 <= r < nImg`); the cell receives `r + 1`. This
gives `init` an exact final state, `Seeded`. In `Update` a draw only picks the variant of a
live outcome. There it is a nondeterministic choice (`var r :| 0 <= r < NImg`), and the
rules are specified up to "some variant".

A caller might expect construction with a non-positive width or height to fail. The code
has no such check: `make` accepts a zero length, and `rand.Intn(0)` panics only when
`maxLiveCells > 0`. The model follows the code. It accepts `width, height >= 0`. A zero
dimension leaves no draw that fits, so it is callable only with no draws.

## Model

| member | source | states |
|---|---|---|
| `Grid.Max` | main.go:140-145 | the result is one of the two arguments and is at least both |
| `Grid.Min` | main.go:147-152 | the result is one of the two arguments and is at most both |
| `Grid.IndexInBounds` | main.go:99-102 | every on-grid position `(x, y)` has its index `y*width+x` inside the `width*height` buffer, so `init`'s write stays in bounds |
| `Grid.IndexCoords` | main.go:111-113 | the index of `(x, y)` with `0 <= x < width` determines the position: remainder `x`, quotient `y` |
| `Grid.CoordsOfIndex` | main.go:110-113 | every index of the `width*height` buffer is the index of an on-grid position, so the nested loops cover the whole buffer |
| `Grid.IndexInjective` | main.go:111-118 | distinct positions have distinct indices, so each cell of `next` is written by one iteration only |
| `Grid.LiveCountUpdate` | main.go:102 | overwriting one cell changes the number of live cells by that cell's old and new liveness only |
| `Neighbours.NeighbourCount` | main.go:155-173 | the nested `j`/`i` loops return exactly `CountSpec` of the buffer |
| `Neighbours.CountIsLiveNeighbours` | main.go:155-173 | the count equals the number of on-grid positions among the eight around `(x, y)`, not `(x, y)` itself, that hold a live cell |
| `Neighbours.CountBounds` | main.go:157-171 | the count is at most 8 |
| `Neighbours.CornerCount` | main.go:162-166 | at corner `(0, 0)` the count is at most 3: off-grid positions are skipped, not wrapped |
| `Neighbours.CountLocal` | main.go:162-169 | two buffers that agree on the on-grid positions around `(x, y)` give the same count: nothing else is read, and there is no wrap-around |
| `Neighbours.SelfWriteKeepsWindow` | main.go:159-161 | overwriting cell `(x, y)` leaves every on-grid neighbour position unchanged |
| `Neighbours.CountIgnoresSelf` | main.go:159-161 | changing cell `(x, y)` itself never changes its own count |
| `Rules.Select` | main.go:114-134 | the case chosen by the ordered switch: under-population iff `pop < 2`; survival iff `pop` is 2 or 3 and the cell is live; over-population iff `pop > 3`; birth iff `pop == 3` and the cell is dead; no case iff `pop == 2` and the cell is dead |
| `Rules.Survives` | main.go:114-134 | the switch writes a variant iff `pop == 3`, or `pop == 2` and the cell is live (classic B3/S23) |
| `Rules.NextGenerationCells` | main.go:110-137 | a next generation has `width*height` cells, each `0` or in `1..nImg`, whatever values the old buffer held |
| `Rules.NextGenerationLiveness` | main.go:113-134 | the new cell at `(x, y)` is live iff its count over the old buffer is 3, or 2 with the old cell live |
| `Rules.LivenessDetermined` | main.go:120-133 | any two next generations of the same buffer agree on the liveness of every cell; only the variants differ |
| `Rules.CellFollowsLocal` | main.go:110-113 | what a new cell may be depends only on the old cell and its eight neighbours, so the cells can be computed in any order |
| `Rules.CentreCount` | main.go:155-173 | the centre of a 3x3 grid counts the liveness of all eight other cells |
| `Rules.CentreNext` | main.go:113-134 | the next value of a 3x3 grid's centre: some variant when 3 others are live, or 2 with the centre live; otherwise 0 |
| `Rules.CrowdingKills` | main.go:114-128 | on any grid, a cell with fewer than 2 or more than 3 live neighbours is 0 in every next generation, live or dead before |
| `Rules.ThreeGivesLife` | main.go:120-133 | on any grid, a cell with exactly 3 live neighbours holds a variant in every next generation, live or dead before |
| `Rules.TwoKeepsLiveness` | main.go:114-134 | on any grid, a cell with exactly 2 live neighbours holds a variant if it was live, and stays 0 (no case matches) if it was dead |
| `Rules.AnyVariantPossible` | main.go:120-133 | on any grid, replacing a living or born cell of a next generation by any variant gives a next generation again: every variant is a possible outcome |
| `Rules.IsolatedCellDies` | main.go:115-118 | example: on the 3x3 grid with only the centre live, the centre is dead in every next generation |
| `Rules.BirthOnThree` | main.go:130-133 | example: on a 3x3 grid with a dead centre and three live corners, the centre holds a variant in every next generation |
| `Rules.DeadWithTwoStaysDead` | main.go:114-134 | example: on a 3x3 grid with a dead centre and two live corners, the centre matches no case and stays 0 |
| `Rules.SurvivalRedrawsVariant` | main.go:120-123 | example: on a 3x3 grid with a live centre and two live corners, the centre holds a variant, and every variant is a possible outcome, not only the old one |
| `Rules.OvercrowdedCellDies` | main.go:125-128 | example: on a 3x3 grid with a live centre and four live neighbours, the centre is dead in every next generation |
| `Seeding.Seeded` | main.go:98-103 | applying the writes of `init` keeps the buffer's length |
| `Seeding.SeededUnwritten` | main.go:98-103 | a cell that no draw writes keeps its value |
| `Seeding.SeededLastWrite` | main.go:98-103 | a cell written by some draw holds the variant of the last draw that wrote it |
| `Seeding.SeededCells` | main.go:101-102 | seeding writes only variants in `1..nImg`, so cells stay dead or variants |
| `Seeding.SeededLiveCount` | main.go:98-103 | each draw adds at most one live cell |
| `Seeding.SeedBound` | main.go:86-104 | a new world has only dead cells and variants, and at most `min(maxLiveCells, width*height)` live cells |
| `Life.World.constructor` | main.go:86-94 | `NewWorld` stores `width` and `height` unchanged; the buffer has `width*height` cells, each dead or a variant, and is the all-dead buffer after the writes of `init` |
| `Life.World.Init` | main.go:97-104 | `init` makes `max(maxLiveCells, 0)` writes; the buffer afterwards is `Seeded` from the old buffer with those draws, in order, and still holds only dead cells and variants |
| `Life.World.Update` | main.go:107-138 | `width` and `height` are unchanged; `area` is a fresh buffer of `width*height` cells, each dead or a variant; it is a next generation of the buffer before the call, and every count reads only that old buffer |

## Left out

- The package `init()` (main.go:50-76). It seeds the random generator from the clock, loads
  image files and stops the program on a load error. This is I/O.
- `Game.Update`, `Game.Draw`, `Game.Layout` and `main` (main.go:180-227). They are a
  one-line delegation to `World.Update`, then rendering, window setup and the game loop.
  The index-to-pixel arithmetic in `Draw` is presentation only.
- The distribution of `rand.Intn` (uniformity, seeding). Draws are modelled by their bounds
  only.
- Life.World.Update: the draws in `Update` are nondeterministic choices, one per live
  outcome. The order in which the source consumes the shared random stream is not
  modelled.
- Life.World.constructor: negative dimensions are excluded. With a negative product `make`
  panics. With both dimensions negative the source would build a degenerate world, which is
  not modelled.
- Life.World.constructor and Life.World.Init: the panic of `rand.Intn(0)` when a dimension
  is zero and `maxLiveCells > 0` is not modelled. No draw fits a zero dimension, so the
  draws these members require cannot be supplied in that case.
- Integers are unbounded. An overflow of Go's 64-bit `int` in `width*height` or
  `y*width+x` is not modelled.
