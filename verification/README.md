# Hex-grid 4X mockup: grid, terrain, selection and turns

A Dafny model of the discrete logic of the browser mockup `mockup/script.js`:

- **Grid builder.** Rows `0 .. height-1`, and within each row columns `0 .. width-1`,
  are converted from an odd-row offset layout to cube coordinates
  `q = col - (row - (row & 1)) / 2 - qOffset`, `r = row - rOffset`, `s = -q - r`.
  The offsets `qOffset = width / 2` and `rOffset = height / 2` centre the grid on the origin.
  Each cell is keyed by the string `"q,r,s"` (`HexGrid` module).
- **Decimal ids.** The id renders each coordinate the way a JavaScript template literal
  renders an integer. A parser inverts this rendering, which proves that distinct
  coordinates give distinct ids (`Decimal` module, `HexGrid.ParseCubeId`).
- **Terrain.** One random draw per cell is bucketed by the thresholds 0.3, 0.6 and 0.85 into
  water, grass, forest or mountain. The thresholds are the IEEE 754 binary64 numbers those literals
  denote, written as exact fractions, so a draw lying between a decimal literal and its double is
  bucketed the way the comparison in the script buckets it. The results are stored in a map keyed by cell id (`Terrain`, `Game`).
- **Click selection.** The grid is scanned in stored order. The first hex the pointer
  lies in becomes the selection. When no hex is hit, nothing changes (`Game.FirstHit`, `Game.Click`).
- **End turn.** The turn counter goes up by one. Player 1 hands over to player 2, and
  any other value hands over to player 1 (`Game.EndTurn`).

The model is functional. Cells are immutable records in a `seq`. The game state is a
datatype, and each event is a pure function from state to state. The configured grid
is `DefaultLayout` (10 columns by 8 rows).

Modelling decisions:

- `row & 1` is written `row % 2`. The row is a small non-negative integer, so the two agree,
  and `(row - row % 2) / 2` is exact.
- The cell's `id` is the member `Cell.Id()`, computed from `q, r, s`. The script stores the
  same string in the record when it creates it and never changes it.
- `Math.random()` becomes a parameter `draw: nat -> real`, where `draw(i)` is the value drawn for cell `i`.
- The pointer hit test, `pointInHex(pointer, cubicToScreen(hex))`, becomes a parameter
  `hit: Cell -> bool`.

## Model

| member | source | states |
|---|---|---|
| `Decimal.IntToStringRoundTrip` | mockup/script.js:27 | parsing the decimal rendering of any integer gives that integer back |
| `Decimal.IntToStringInjective` | mockup/script.js:27 | two integers render to the same text exactly when they are equal |
| `Decimal.IntToString` | mockup/script.js:27 | the rendering is non-empty, starts with `-` exactly for negative integers, and contains no comma |
| `HexGrid.Cell.Id` | mockup/script.js:27 | a cell's id `"q,r,s"` parses back to exactly its (q, r, s) |
| `HexGrid.ParseJoined` | mockup/script.js:27 | three comma-free numerals joined by commas parse back to their three values |
| `HexGrid.CubeIdRoundTrip` | mockup/script.js:27 | the id `"q,r,s"` can be read back into exactly (q, r, s) |
| `HexGrid.CubeIdInjective` | mockup/script.js:27 | two ids are equal exactly when their coordinate triples are |
| `HexGrid.OffsetToCell` | mockup/script.js:19-21 | the converted cell satisfies q + r + s == 0, has r = row - rOffset, and the inverse map from (q, r) gives back (row, col) |
| `HexGrid.OffsetToCellInjective` | mockup/script.js:19-27 | two offset positions give equal (q, r), and equal ids, exactly when they are the same position |
| `HexGrid.RowPositions` | mockup/script.js:18 | the inner loop visits columns 0 .. n-1 of one row, in order |
| `HexGrid.Positions` | mockup/script.js:17-18 | the nested loops visit `n * width` positions |
| `HexGrid.PositionsIndexed` | mockup/script.js:17-18 | position (row, col) is visited at step `row * width + col` |
| `HexGrid.PositionAt` | mockup/script.js:17-18 | step i visits row `i / width` and column `i % width`, and that row is in range |
| `HexGrid.BuildGrid` | mockup/script.js:13-31 | the grid has exactly `width * height` cells |
| `HexGrid.GridIndex` | mockup/script.js:17-23 | the cell converted from (row, col) is stored at index `row * width + col` |
| `HexGrid.GridCellAt` | mockup/script.js:17-23 | every stored cell is the conversion of an in-range (row, col), recovered from its index |
| `HexGrid.GridOnCubePlane` | mockup/script.js:19-21 | every generated cell satisfies q + r + s == 0 |
| `HexGrid.GridRowsShareR` | mockup/script.js:12-20 | the cell at index i has r = i / width - rOffset, so each row of `width` cells shares one r, and every r lies in [-rOffset, height - 1 - rOffset] |
| `HexGrid.GridQStep` | mockup/script.js:19-20 | the next column in a row has the same r = row - rOffset and a q exactly one larger |
| `HexGrid.GridCellsDistinct` | mockup/script.js:19-27 | cells at different indices differ in (q, r) and in id |
| `HexGrid.GridIdsDistinct` | mockup/script.js:19-27 | the ids of the grid are pairwise distinct |
| `HexGrid.DefaultFirstCell` | mockup/script.js:5-21 | in the configured 10 x 8 grid the first cell is (-5, -4, 9) |
| `HexGrid.DefaultFirstCellId` | mockup/script.js:27 | that cell's id is the text "-5,-4,9" |
| `Terrain.Classify` | mockup/script.js:44-48 | a draw in [0, 1) gets the terrain whose threshold bucket contains it, and a negative draw gets water |
| `Terrain.ClassifyExactlyBucket` | mockup/script.js:44-48 | for a draw in [0, 1), a terrain is chosen if and only if the draw lies in its bucket, so the choice is unique |
| `Terrain.ThresholdsNearDecimals` | mockup/script.js:45-47 | each binary64 threshold lies just below its literal 0.3, 0.6 or 0.85, by the exact amount the rounding to binary64 gives (less than 2^-54) |
| `Terrain.ClassifyAtThresholds` | mockup/script.js:45-47 | a draw equal to a threshold falls into the upper bucket, since each comparison is strict |
| `Terrain.BucketsTileUnitInterval` | mockup/script.js:45-48 | the buckets tile [0, 1) in order, with exact widths that differ from 0.30, 0.30, 0.25 and 0.15 only by the rounding of the thresholds |
| `Game.WriteTerrainKeys` | mockup/script.js:43-49 | the terrain map's keys are exactly the ids visited |
| `Game.WriteTerrainValue` | mockup/script.js:43-49 | an id that no later cell repeats holds the terrain of its own cell's draw |
| `Game.WriteTerrainValues` | mockup/script.js:43-49 | the same for every such id at once |
| `Game.AssignTerrain` | mockup/script.js:43-49 | the terrain map's keys are exactly the cells' ids, and a cell whose id no later cell repeats finds the terrain of its own draw there |
| `Game.InitialState` | mockup/script.js:34-49 | the start state is turn 1, player 1, nothing selected, with a terrain entry under exactly the ids of the grid |
| `Game.InitialTerrainPerCell` | mockup/script.js:34-49 | the start state is turn 1, player 1, nothing selected, and every cell of the built grid has its own entry holding the terrain of its own draw |
| `Game.FirstHit` | mockup/script.js:126-134 | the scan finds the first hit cell, or no cell exactly when none is hit |
| `Game.Click` | mockup/script.js:122-134 | a click selects the first hit cell in grid order, leaves turn, player and terrain alone, and leaves the state unchanged when no cell is hit |
| `Game.ClickIdempotent` | mockup/script.js:126-134 | a second click at the same spot changes nothing more |
| `Game.EndTurn` | mockup/script.js:139-140 | ending a turn adds one to the turn, yields a player in {1, 2}, swaps 1 and 2, and keeps the selection and terrain |
| `Game.EndTurnTwice` | mockup/script.js:139-140 | two ends of turn from player 1 or 2 return to the same player two turns later |
| `Game.EndTurnsAlternate` | mockup/script.js:35-36 | from the start state, after n turns it is turn n + 1, and player 1 moves for even n and player 2 for odd n |

## Left out

- `cubicToScreen` and `pointInHex` (mockup/script.js:53-64) use floating point and `Math.sqrt(3)`. The click model takes their composition as the abstract predicate `hit`.
- `drawHexagon` (mockup/script.js:148-160) uses trigonometry and canvas path calls. `redrawGrid` and its colour table (mockup/script.js:90-119) only render.
- The engine configuration and bootstrap, `preload` and `update` (mockup/script.js:66-82, 146) are not modelled.
- `updateHexInfo`, the end-turn handler's text updates and the resize listener (mockup/script.js:141-142, 162-171) only write to the page.
- `Math.random` is not modelled. Its successive values are the parameter `draw`.
- The `units` slot (mockup/script.js:39) is declared and never used.
- The cell's `type: null` field (mockup/script.js:28) is never written. Terrain lives in `hexTypes`.
- Game.EndTurn: the turn counter is an unbounded integer. It does not model the loss of precision of a JavaScript number beyond 2^53.
