# Minesweeper board model

This project models the game logic of a Swing minesweeper program in Dafny and
proves properties of it. Two classes carry the logic:

- `Tile` (`tile.dfy`, module `Tiles`) is one square of the board. It has a
  fixed row and column, `mine`, `revealed` and `flagged` flags, and a list
  of the tiles around it. It counts the mines among those neighbours.
- `ClickableGrid` (`board.dfy`, module `Board`) is the board. It is a
  `rows x columns` array of tiles and holds `gameOver`, the flag counter
  `flaggedTiles` and the clamped `totalMines`. It covers:
  - building the tiles and linking every tile to the tiles touching it;
  - scattering mines by rejection sampling;
  - the recursive reveal that floods out from tiles with no adjacent mine;
  - flag toggling;
  - the win check;
  - the one-way end of the game.

Both classes are modelled as classes whose methods update fields in place.
`Tile.neighbors` is a `seq<Tile>` of object references, like the Java
`ArrayList<Tile>`. `ClickableGrid.tiles` is an `array2<Tile?>`.

The board carries four ghost sets:

- `Repr`: the tile objects.
- `MineSet`, `RevealedSet`, `FlagSet`: the tiles whose `mine`, `revealed` or
  `flagged` field is set.

Most of the contracts are stated over these sets:

- `Sound()` keeps the three sets in step with the tiles' fields. It also says
  that no tile is both revealed and flagged.
- `Valid()` is the board's structure:
  - every cell holds its own tile;
  - every tile's neighbour list is exactly the set of tiles touching it, with
    no repeats (`Linked`).
- `Counted()` says that `flaggedTiles` equals the number of flagged tiles.
- `Decided()` says that the game is over exactly when it is lost or won:
  - lost means a mine has been revealed;
  - won means some tile has been revealed and no safe tile is left hidden.

The flood fill is specified by `RevealOutcome`, a heap-free predicate over
these sets. It also states what happens when a reveal does nothing and what
happens when it hits a mine. On a safe tile, a reveal:

- reveals that tile, plus safe tiles only;
- reveals that tile alone when a tile around it hides a mine;
- reveals each other tile only next to an empty tile opened by the same
  flood (`FedIn`);
- changes no flag;
- leaves every newly revealed tile that has no adjacent mine with all its
  surrounding tiles revealed or flagged;
- ends the game exactly when no safe tile is left hidden.

The recursion terminates because the set of hidden tiles, `Repr - RevealedSet`,
shrinks with every reveal that does something.

The Java `revealTile` is one method. Its proof is split along the source's
own structure into three methods:

- `RevealTile`: the guards, revealing the tile, and the mine branch.
- `RevealSafe`: the rest for a safe tile, i.e. the count, the flood and the
  win check.
- `RevealNeighbors`: the loop over the neighbours.

The three are mutually recursive, just as the Java method calls itself from
inside that loop.

## Model

| member | source | states |
|---|---|---|
| Tiles.Tile.constructor | Tile.java:36-39 | a new tile has the given row and column, no neighbours, no mine, and is neither revealed nor flagged |
| Tiles.Tile.AddNeighbor | Tile.java:47-57 | null, the tile itself, or a tile already listed leaves the list unchanged; any other tile is appended at the end with the earlier entries untouched; a list without repeats stays without repeats, and a tile never becomes its own neighbour |
| Tiles.Tile.SetMine | Tile.java:95-97 | sets `mine` to the argument and changes no other field |
| Tiles.Tile.Reveal | Tile.java:111-113 | afterwards the tile is revealed (so a second call changes nothing); no other field changes |
| Tiles.Tile.ToggleFlag | Tile.java:137-139 | negates `flagged` and changes no other field, so two toggles restore the flag |
| Tiles.Tile.AdjacentMineCount | Tile.java:147-155 | the count equals the number of mined neighbours, lies between 0 and the neighbour count, and is 0 exactly when no neighbour hides a mine |
| Tiles.MinesAmong | Tile.java:147-155 | the positional count of mined tiles in a list is at most the list's length and is 0 exactly when no listed tile is mined |
| Tiles.MinesAmongCountsMinedTiles | Tile.java:149-153 | over a list without repeats, counting position by position equals the number of distinct mined tiles in the list |
| Board.ClampMines | ClickableGrid.java:67-72 | the kept mine count is the minimum of the request and `columns * rows - 1` |
| Board.ClickableGrid.constructor | ClickableGrid.java:63-129 | the clamped mine count is stored; the board is structurally valid and sound; no tile is revealed or flagged; the flag counter is 0; the game is not over; the mines are placed as `PlaceMines` states |
| Board.ClickableGrid.InitializeTiles | ClickableGrid.java:194-219 | afterwards every cell holds a fresh tile with its own coordinates, every tile is linked to exactly the tiles touching it, and no tile is mined, revealed or flagged |
| Board.ClickableGrid.CreateTiles | ClickableGrid.java:195-199 | fills every cell with a fresh tile with its own coordinates and nothing set, and collects those tiles in `Repr` |
| Board.ClickableGrid.LinkTiles | ClickableGrid.java:201-218 | turns a grid of unlinked tiles into one where every tile's neighbours are exactly the tiles touching it, each listed once, at most 8 |
| Board.ClickableGrid.LinkNeighbors | ClickableGrid.java:203-216 | after trying the eight offsets in row-major order, the tile's neighbour list holds exactly the in-bounds tiles touching it, without repeats |
| Board.ClickableGrid.NeighborsSymmetric | ClickableGrid.java:201-218 | if `n` is a neighbour of `t` then `t` is a neighbour of `n` |
| Board.ClickableGrid.AdjacentCountIsTouchingMines | ClickableGrid.java:257 | the count a tile shows equals the number of mines on the cells touching it |
| Board.ClickableGrid.PlaceMines | ClickableGrid.java:224-235 | only drawn cells get mines; a cell drawn twice is counted once; there are never more mines than `totalMines`, and there are exactly `totalMines` unless every draw already holds a mine |
| Board.ClickableGrid.ExactMineCount | ClickableGrid.java:224-235 | when the draws name at least `totalMines` distinct cells (and `totalMines` is not negative), the board holds exactly `totalMines` mines, no two on the same cell |
| Board.ClickableGrid.RevealTile | ClickableGrid.java:243-285 | out of bounds, game over, or a revealed or flagged tile: no change; a mine is revealed alone and ends the game; a safe tile follows `RevealOutcome`: a numbered tile is revealed alone, and otherwise every other tile revealed touches an empty tile revealed by the same click; revealed tiles are never hidden again, flags and mines never change, a finished game stays finished, and the game stays decided |
| Board.ClickableGrid.RevealSafe | ClickableGrid.java:257-284 | after a safe tile is revealed: a tile with an adjacent mine stays the only one revealed; otherwise only safe tiles are revealed, each other than the first touching an empty tile revealed in the same flood; every empty tile revealed has its surroundings revealed or flagged; the game ends exactly when no safe tile is left hidden |
| Board.ClickableGrid.RevealNeighbors | ClickableGrid.java:275-281 | revealing the neighbours of an empty tile reveals only safe tiles, each touching an empty tile revealed in this flood (the first one included), leaves every empty tile it revealed (the first included) with its surroundings revealed or flagged, and ends the game only when every safe tile is revealed |
| Board.ClickableGrid.NoMinedNeighborIsZeroSafe | ClickableGrid.java:257 | no neighbour of a tile hides a mine exactly when no tile touching it does |
| Board.FloodStep | ClickableGrid.java:277-280 | handing one more safe neighbour to the reveal keeps the flood's invariant: only safe tiles revealed, each touching an empty tile of the flood, handled neighbours revealed or flagged, empty tiles settled |
| Board.FloodDone | ClickableGrid.java:275-281 | once every neighbour has been handed to the reveal, the empty tile itself is settled, so every empty tile the flood revealed is |
| Board.RevealKeepsDecided | ClickableGrid.java:250-255 | any reveal outcome keeps "over exactly when lost or won", because a safe reveal reveals no mine and a mine ends the game |
| Board.ClickableGrid.ToggleFlag | ClickableGrid.java:293-312 | out of bounds, game over, or a revealed tile: no change; otherwise that tile's flag flips and `flaggedTiles` moves by +1 or -1 with it, so the counter keeps matching the number of flagged tiles; nothing else changes |
| Board.ClickableGrid.EndGame | ClickableGrid.java:319-341 | sets `gameOver`; each cell's final icon is a mine for a mine, otherwise a flag for a flagged tile, otherwise blank |
| Board.FinalDisplay | ClickableGrid.java:326-332 | the icon is the mine icon exactly for a mine, the flag icon exactly for a flagged tile without a mine, and blank otherwise |
| Board.ClickableGrid.IsInBounds | ClickableGrid.java:370-372 | a cell is in bounds when its row and column lie within the board; only a board with at least one row and one column has such a cell |
| Board.ClickableGrid.InBoundsIsTileCell | ClickableGrid.java:370-372 | on a built board, the cells in bounds are exactly the positions of the board's tiles |
| Board.ClickableGrid.CheckWin | ClickableGrid.java:348-356 | true exactly when every tile without a mine is revealed, whatever the flags |

## Left out

- The Swing user interface is not modelled:
  - the window, the buttons and labels and their layout;
  - icon loading;
  - the `setIcon`/`setEnabled`/`setBackground` calls;
  - the status text written by `updateStatus` and `endGame`.
  `endGame`'s `won` argument only selects that text, so it has no effect in
  the model.
- Event dispatch in `actionPerformed` and `mouseClicked`, `restart`, and the
  difficulty menu (`BootMenu.java` is not part of this model) are not
  modelled. They only route clicks to `revealTile` and `toggleFlag`, or open
  a new window.
- `Math.random` is not modelled. The cells it would draw in `placeMines` are a
  parameter `picks` of the constructor. With random draws the Java loop runs
  until enough mines are placed. The model's loop also stops when the supplied
  draws run out, and `PlaceMines` states what holds in either case.
- The getters (`getNeighbors`, `getTileRow`, `isMine`, ...) are read as field
  accesses.
- Board.ClampMines: Java `int` arithmetic is not modelled. `columns * rows - 1`
  and the counters are unbounded integers, so the model does not capture a
  board large enough to overflow 32 bits.
- Board.ClickableGrid.constructor: requires non-negative board sizes. With a
  negative size, `new Tile[boardRows][boardColumns]` throws
  `NegativeArraySizeException`, and that exception path is not modelled.
- Board.ClickableGrid.RevealTile: on a safe tile the contract states local
  properties of the flood. Only safe tiles are revealed; a numbered tile is
  revealed alone; every other tile revealed touches an empty tile revealed by
  the same click; and every empty tile revealed has its surroundings revealed
  or flagged. The contract does not state the full reachability property,
  that a chain of empty tiles leads from the clicked tile to every tile
  revealed.
- Board.ClickableGrid.RevealSafe: the same gap as `RevealTile`. Each tile
  revealed touches an empty tile of the flood, but no chain back to the
  clicked tile is stated.
- Board.ClickableGrid.RevealNeighbors: the same gap as `RevealTile`. Each tile
  revealed touches an empty tile revealed by this flood, but no chain back to
  the first tile is stated.
- Board.ClickableGrid.RevealTile: the contract says nothing about the mine and
  flag sets beyond what its `modifies` clause frames. Only `gameOver`,
  `RevealedSet` and the tiles' `revealed` fields can change, so mines, flags
  and the flag counter stay as they were.
- Board.ClampMines: the mine count is clamped from above only, as the code
  does it. A negative request is kept negative, and `PlaceMines` then places
  no mine. It is not raised to 0.
- `Decided()` reads "won" as some tile having been revealed while no safe tile
  is hidden. This makes a freshly built board undecided even when it has no
  cells at all. In the program, a win is only checked after a reveal.
