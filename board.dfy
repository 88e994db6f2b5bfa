/** The game board: a rows-by-columns grid of tiles linked to the tiles
    around them, mines scattered by rejection sampling, the recursive reveal
    that opens up empty areas, flags, and the one-way end of the game. */
module Board {
  import opened Tiles

  /** What the end of the game shows on a tile's button. */
  datatype Display = MineIcon | FlagIcon | BlankIcon

  /** The number of mines a board keeps for a request: the request itself,
      lowered where needed so that at least one tile is safe. */
  function ClampMines(boardColumns: int, boardRows: int, requested: int): (mines: int)
    ensures mines <= requested && mines <= boardColumns * boardRows - 1
    ensures mines == requested || mines == boardColumns * boardRows - 1
  {
    var maxMines := boardColumns * boardRows - 1;
    if requested > maxMines then maxMines else requested
  }

  /** (r, c) and (r', c') are different cells that share an edge or a corner,
      i.e. they lie at Chebyshev distance 1. */
  predicate Touching(r: int, c: int, r': int, c': int)
  {
    (r, c) != (r', c') && -1 <= r' - r <= 1 && -1 <= c' - c <= 1
  }

  /** How the end of the game shows one tile: a mine wins over a flag, and
      anything else is blank. */
  function FinalDisplay(mine: bool, flagged: bool): (d: Display)
    ensures d == MineIcon <==> mine
    ensures d == FlagIcon <==> !mine && flagged
    ensures d == BlankIcon <==> !mine && !flagged
  {
    if mine then MineIcon else if flagged then FlagIcon else BlankIcon
  }

  /** Offset (dr, dc) comes before (rowOffset, colOffset) in the row-major
      order in which the neighbour offsets are tried. */
  predicate OffsetBefore(dr: int, dc: int, rowOffset: int, colOffset: int)
  {
    dr < rowOffset || (dr == rowOffset && dc < colOffset)
  }

  /** How many offsets other than (0, 0) come before (rowOffset, colOffset)
      in that order. */
  function OffsetsBefore(rowOffset: int, colOffset: int): int
  {
    3 * (rowOffset + 1) + (colOffset + 1)
      - (if rowOffset > 0 || (rowOffset == 0 && colOffset > 0) then 1 else 0)
  }

  /** Every tile of `board` without a mine is in `revealed`. */
  ghost predicate AllSafeIn(board: set<Tile>, mines: set<Tile>, revealed: set<Tile>)
  {
    board - mines <= revealed
  }

  /** The game is over exactly when a mine has been revealed (lost) or some
      tile has been revealed and no safe tile is left hidden (won). */
  ghost predicate DecidedIn(board: set<Tile>, mines: set<Tile>, revealed: set<Tile>, over: bool)
  {
    over <==> revealed * mines != {} || (revealed != {} && AllSafeIn(board, mines, revealed))
  }

  /** `t` is safe and no tile of `board` touching it hides a mine: its
      adjacent-mine count is zero. */
  ghost predicate ZeroSafeIn(t: Tile, board: set<Tile>, mines: set<Tile>)
  {
    t !in mines &&
    forall u {:trigger Touching(t.tileRow, t.tileColumn, u.tileRow, u.tileColumn)} ::
      u in board && Touching(t.tileRow, t.tileColumn, u.tileRow, u.tileColumn) ==> u !in mines
  }

  /** Every tile of `board` touching `t` is in `uncovered`. */
  ghost predicate SettledIn(t: Tile, board: set<Tile>, uncovered: set<Tile>)
  {
    forall u {:trigger Touching(t.tileRow, t.tileColumn, u.tileRow, u.tileColumn)} ::
      u in board && Touching(t.tileRow, t.tileColumn, u.tileRow, u.tileColumn) ==> u in uncovered
  }

  /** Every tile of `newly` with adjacent-mine count zero has all the tiles
      touching it in `uncovered`. */
  ghost predicate ClosedIn(board: set<Tile>, mines: set<Tile>, uncovered: set<Tile>, newly: set<Tile>)
  {
    forall t {:trigger ZeroSafeIn(t, board, mines)} ::
      t in newly && ZeroSafeIn(t, board, mines) ==> SettledIn(t, board, uncovered)
  }

  /** Every tile of `newly` other than `t` touches an empty tile of `newly`:
      the flood can only have reached it from there. */
  ghost predicate FedIn(board: set<Tile>, mines: set<Tile>, t: Tile, newly: set<Tile>)
  {
    forall u :: u in newly && u != t ==>
      exists w :: w in newly && ZeroSafeIn(w, board, mines) &&
                  Touching(w.tileRow, w.tileColumn, u.tileRow, u.tileColumn)
  }

  /** What revealing tile `t` does to the revealed tiles and the game-over
      flag. Nothing, when the game is over or `t` is revealed or flagged
      already. A mine is revealed on its own and ends the game. A safe tile
      is revealed together with safe tiles only: on its own when a tile
      around it hides a mine, and otherwise together with tiles each touching
      an empty tile revealed in the same flood. Every empty tile among the
      newly revealed ones has all the tiles around it revealed or flagged,
      and the game is then over exactly when no safe tile is left hidden. */
  ghost predicate RevealOutcome(board: set<Tile>, mines: set<Tile>, flags: set<Tile>, t: Tile,
                                revealed: set<Tile>, over: bool, revealed': set<Tile>, over': bool)
  {
    revealed <= revealed' &&
    (over || t in revealed || t in flags ==> revealed' == revealed && over' == over) &&
    (!over && t !in revealed && t !in flags && t in mines ==> revealed' == revealed + {t} && over') &&
    (!over && t !in revealed && t !in flags && t !in mines ==>
       t in revealed' && revealed' - revealed <= board - mines &&
       (!ZeroSafeIn(t, board, mines) ==> revealed' == revealed + {t}) &&
       FedIn(board, mines, t, revealed' - revealed) &&
       (over' <==> AllSafeIn(board, mines, revealed')) &&
       ClosedIn(board, mines, revealed' + flags, revealed' - revealed))
  }

  /** The state of a flood started at the empty tile `tile` once the
      neighbours in `done` have been handed to the reveal. */
  ghost predicate Flooding(board: set<Tile>, mines: set<Tile>, flags: set<Tile>, before: set<Tile>,
                           tile: Tile, done: seq<Tile>, revealed: set<Tile>, over: bool)
  {
    tile !in before && before + {tile} <= revealed && revealed - before <= board - mines &&
    ZeroSafeIn(tile, board, mines) && FedIn(board, mines, tile, revealed - before) &&
    (over ==> AllSafeIn(board, mines, revealed)) &&
    (forall n :: n in done ==> n in revealed || n in flags) &&
    ClosedIn(board, mines, revealed + flags, revealed - before - {tile})
  }

  /** Revealing one more safe neighbour keeps the flood's state. */
  lemma FloodStep(board: set<Tile>, mines: set<Tile>, flags: set<Tile>, before: set<Tile>,
                                     tile: Tile, done: seq<Tile>, n: Tile,
                                     mid: set<Tile>, midOver: bool, after: set<Tile>, afterOver: bool)
    requires Flooding(board, mines, flags, before, tile, done, mid, midOver)
    requires n in board && n !in mines && Touching(tile.tileRow, tile.tileColumn, n.tileRow, n.tileColumn)
    requires RevealOutcome(board, mines, flags, n, mid, midOver, after, afterOver)
    ensures Flooding(board, mines, flags, before, tile, done + [n], after, afterOver)
  {
  }

  /** Once every neighbour of the empty tile has been handed to the reveal,
      every empty tile the flood revealed, the first one included, has its
      surroundings opened. */
  lemma FloodDone(board: set<Tile>, mines: set<Tile>, flags: set<Tile>, before: set<Tile>,
                                     tile: Tile, neighbors: seq<Tile>, revealed: set<Tile>, over: bool)
    requires Flooding(board, mines, flags, before, tile, neighbors, revealed, over)
    requires forall u :: u in board && Touching(tile.tileRow, tile.tileColumn, u.tileRow, u.tileColumn) ==>
               u in neighbors
    ensures ClosedIn(board, mines, revealed + flags, revealed - before)
  {
  }

  /** A reveal keeps the game decided: afterwards it is over exactly when it
      is lost or won, as it was before. */
  lemma RevealKeepsDecided(board: set<Tile>, mines: set<Tile>, flags: set<Tile>, t: Tile,
                           revealed: set<Tile>, over: bool, revealed': set<Tile>, over': bool)
    requires DecidedIn(board, mines, revealed, over)
    requires RevealOutcome(board, mines, flags, t, revealed, over, revealed', over')
    ensures DecidedIn(board, mines, revealed', over')
  {
    if over || t in revealed || t in flags {
      assert revealed' == revealed && over' == over;
    } else if t in mines {
      assert t in revealed' * mines && over';
    } else {
      assert revealed * mines == {};
      assert revealed' * mines == {} by {
        forall u | u in revealed' * mines ensures u in revealed * mines {
          assert u !in revealed' - revealed;
        }
      }
      assert t in revealed';
      assert over' <==> AllSafeIn(board, mines, revealed');
    }
  }

  /** The cells the tiles of `ts` stand on. */
  function CellsOf(ts: set<Tile>): set<(int, int)>
  {
    set t | t in ts :: (t.tileRow, t.tileColumn)
  }

  /** Tiles stand on no more cells than there are tiles. */
  lemma {:induction false} CellsOfBound(ts: set<Tile>)
    ensures |CellsOf(ts)| <= |ts|
  {
    if ts != {} {
      var t :| t in ts;
      CellsOfBound(ts - {t});
      assert CellsOf(ts) == CellsOf(ts - {t}) + {(t.tileRow, t.tileColumn)};
    }
  }

  class ClickableGrid {
    const boardColumns: int
    const boardRows: int
    const totalMines: int
    /** tiles[r, c] is the tile in row r and column c. */
    const tiles: array2<Tile?>
    var gameOver: bool
    var flaggedTiles: int

    /** The tile objects of the board. */
    ghost var Repr: set<Tile>
    /** The tiles that hide a mine, are revealed, are flagged. */
    ghost var MineSet: set<Tile>
    ghost var RevealedSet: set<Tile>
    ghost var FlagSet: set<Tile>

    /** (rowIndex, columnIndex) is a cell of the board; only a board with
        at least one row and one column has any. */
    predicate IsInBounds(rowIndex: int, columnIndex: int)
      ensures IsInBounds(rowIndex, columnIndex) ==> 0 < boardRows && 0 < boardColumns
    {
      0 <= rowIndex < boardRows && 0 <= columnIndex < boardColumns
    }

    /** The cells in bounds are exactly the positions of the board's tiles. */
    lemma InBoundsIsTileCell(rowIndex: int, columnIndex: int)
      requires Grid()
      ensures IsInBounds(rowIndex, columnIndex) <==>
                exists t :: t in Repr && t.tileRow == rowIndex && t.tileColumn == columnIndex
    {
      if IsInBounds(rowIndex, columnIndex) {
        var t := tiles[rowIndex, columnIndex];
        assert t in Repr && t.tileRow == rowIndex && t.tileColumn == columnIndex;
      }
    }

    /** Every in-bounds cell holds its own tile, and the tiles are exactly
        the objects of Repr. */
    ghost predicate Grid()
      reads this`Repr, tiles
    {
      tiles.Length0 == boardRows && tiles.Length1 == boardColumns &&
      (forall r, c :: IsInBounds(r, c) ==>
         tiles[r, c] != null && tiles[r, c] in Repr &&
         tiles[r, c].tileRow == r && tiles[r, c].tileColumn == c) &&
      (forall t {:trigger t in Repr} :: t in Repr ==>
         IsInBounds(t.tileRow, t.tileColumn) && tiles[t.tileRow, t.tileColumn] == t)
    }

    /** The neighbours of `t` are the tiles touching it, each listed once. */
    ghost predicate Linked(t: Tile)
      reads this`Repr, t`neighbors
    {
      (forall n {:trigger n in t.neighbors} :: n in t.neighbors ==>
         n in Repr && Touching(t.tileRow, t.tileColumn, n.tileRow, n.tileColumn)) &&
      (forall u {:trigger Touching(t.tileRow, t.tileColumn, u.tileRow, u.tileColumn)} ::
         u in Repr && Touching(t.tileRow, t.tileColumn, u.tileRow, u.tileColumn) ==> u in t.neighbors) &&
      Distinct(t.neighbors) && |t.neighbors| <= 8
    }

    /** The board's structure, fixed once the tiles are linked. */
    ghost predicate Valid()
      reads this`Repr, tiles, Repr`neighbors
    {
      Grid() && forall t {:trigger Linked(t)} :: t in Repr ==> Linked(t)
    }

    /** MineSet holds exactly the tiles with a mine. */
    ghost predicate MinesTracked()
      reads this`Repr, this`MineSet, Repr`mine
    {
      MineSet <= Repr && forall t {:trigger t.mine} :: t in Repr ==> (t.mine <==> t in MineSet)
    }

    /** RevealedSet holds exactly the revealed tiles. */
    ghost predicate RevealsTracked()
      reads this`Repr, this`RevealedSet, Repr`revealed
    {
      RevealedSet <= Repr &&
      forall t {:trigger t.revealed} :: t in Repr ==> (t.revealed <==> t in RevealedSet)
    }

    /** FlagSet holds exactly the flagged tiles. */
    ghost predicate FlagsTracked()
      reads this`Repr, this`FlagSet, Repr`flagged
    {
      FlagSet <= Repr && forall t {:trigger t.flagged} :: t in Repr ==> (t.flagged <==> t in FlagSet)
    }

    /** The ghost sets record the tiles' mine, revealed and flagged fields. */
    ghost predicate Tracked()
      reads this`Repr, this`MineSet, this`RevealedSet, this`FlagSet, Repr`mine, Repr`revealed, Repr`flagged
    {
      MinesTracked() && RevealsTracked() && FlagsTracked()
    }

    /** Every tile without a mine is revealed; flags play no part. */
    ghost predicate AllSafeRevealed()
      reads this`Repr, this`MineSet, this`RevealedSet
    {
      AllSafeIn(Repr, MineSet, RevealedSet)
    }

    /** What holds between any two steps of the game, also in the middle of
        a flood of reveals: the ghost sets are up to date, and no tile is
        both revealed and flagged. */
    ghost predicate Sound()
      reads this`Repr, this`MineSet, this`RevealedSet, this`FlagSet, Repr`mine, Repr`revealed, Repr`flagged
    {
      Tracked() && RevealedSet !! FlagSet
    }

    /** The flag counter matches the flags. */
    ghost predicate Counted()
      reads this`flaggedTiles, this`FlagSet
    {
      flaggedTiles == |FlagSet|
    }

    /** The game is over exactly when it is lost or won. */
    ghost predicate Decided()
      reads this`gameOver, this`Repr, this`MineSet, this`RevealedSet
    {
      DecidedIn(Repr, MineSet, RevealedSet, gameOver)
    }

    /** What holds, besides Sound(), between two user actions. */
    ghost predicate Consistent()
      reads this`gameOver, this`flaggedTiles, this`Repr, this`MineSet, this`RevealedSet, this`FlagSet
    {
      Counted() && Decided()
    }

    /** toggleFlag acts on (r, c): in bounds, game running, tile hidden. */
    ghost predicate Flaggable(r: int, c: int)
      requires Grid()
      reads this`gameOver, this`Repr, this`RevealedSet, tiles
    {
      IsInBounds(r, c) && !gameOver && tiles[r, c] !in RevealedSet
    }

    /** The supplied draws are all cells of the board. */
    predicate PicksInBounds(picks: seq<(int, int)>)
    {
      forall i :: 0 <= i < |picks| ==> IsInBounds(picks[i].0, picks[i].1)
    }

    /** The mines stand on drawn cells, never more than asked for, and there
        are exactly as many as asked for unless every draw already holds a
        mine (the supply of draws ran out). */
    ghost predicate MinesFrom(picks: seq<(int, int)>)
      requires Grid() && PicksInBounds(picks)
      reads this`Repr, this`MineSet, tiles
    {
      (forall t :: t in MineSet ==> (t.tileRow, t.tileColumn) in picks) &&
      |MineSet| <= (if totalMines < 0 then 0 else totalMines) &&
      (|MineSet| == (if totalMines < 0 then 0 else totalMines) ||
       forall i :: 0 <= i < |picks| ==> tiles[picks[i].0, picks[i].1] in MineSet)
    }

    /** When the draws name at least totalMines distinct cells, the board
        holds exactly totalMines mines. */
    lemma ExactMineCount(picks: seq<(int, int)>)
      requires Grid() && PicksInBounds(picks) && MinesFrom(picks)
      requires 0 <= totalMines <= |set i | 0 <= i < |picks| :: picks[i]|
      ensures |MineSet| == totalMines
    {
      if forall i :: 0 <= i < |picks| ==> tiles[picks[i].0, picks[i].1] in MineSet {
        var drawn := set i | 0 <= i < |picks| :: picks[i];
        assert drawn <= CellsOf(MineSet) by {
          forall i | 0 <= i < |picks| ensures picks[i] in CellsOf(MineSet) {
            var t := tiles[picks[i].0, picks[i].1];
            assert t in MineSet && (t.tileRow, t.tileColumn) == picks[i];
          }
        }
        assert CellsOf(MineSet) == drawn + (CellsOf(MineSet) - drawn);
        CellsOfBound(MineSet);
      }
    }

    /** Builds a board; `picks` stands for the random cells drawn while
        placing mines. */
    constructor (boardColumns: int, boardRows: int, totalMines: int, picks: seq<(int, int)>)
      requires 0 <= boardColumns && 0 <= boardRows
      requires forall i :: 0 <= i < |picks| ==>
                 0 <= picks[i].0 < boardRows && 0 <= picks[i].1 < boardColumns
      ensures this.boardColumns == boardColumns && this.boardRows == boardRows
      ensures this.totalMines == ClampMines(boardColumns, boardRows, totalMines)
      ensures Valid() && Sound() && Consistent() && fresh(Repr)
      ensures !gameOver && flaggedTiles == 0 && RevealedSet == {} && FlagSet == {}
      ensures PicksInBounds(picks) && MinesFrom(picks)
    {
      this.boardColumns := boardColumns;
      this.boardRows := boardRows;
      this.totalMines := ClampMines(boardColumns, boardRows, totalMines);
      tiles := new Tile?[boardRows, boardColumns];
      gameOver := false;
      flaggedTiles := 0;
      Repr, MineSet, RevealedSet, FlagSet := {}, {}, {}, {};
      new;
      InitializeTiles();
      PlaceMines(picks);
    }

    /** Creates a tile in every cell, then links each tile to the tiles
        around it. */
    method InitializeTiles()
      requires tiles.Length0 == boardRows && tiles.Length1 == boardColumns
      requires Repr == {} && MineSet == {} && RevealedSet == {} && FlagSet == {}
      modifies this`Repr, tiles
      ensures Valid() && Tracked() && fresh(Repr)
    {
      CreateTiles();
      LinkTiles();
    }

    /** The first loop pair of initializeTiles: a fresh tile in every cell. */
    method CreateTiles()
      requires tiles.Length0 == boardRows && tiles.Length1 == boardColumns && Repr == {}
      modifies this`Repr, tiles
      ensures Grid() && fresh(Repr)
      ensures forall t :: t in Repr ==> t.neighbors == [] && !t.mine && !t.revealed && !t.flagged
    {
      for rowIndex := 0 to boardRows
        invariant forall r, c :: 0 <= r < rowIndex && 0 <= c < boardColumns ==>
                    tiles[r, c] != null && tiles[r, c] in Repr &&
                    tiles[r, c].tileRow == r && tiles[r, c].tileColumn == c
        invariant forall t :: t in Repr ==>
                    0 <= t.tileRow < rowIndex && 0 <= t.tileColumn < boardColumns &&
                    tiles[t.tileRow, t.tileColumn] == t
        invariant forall t :: t in Repr ==>
                    fresh(t) && t.neighbors == [] && !t.mine && !t.revealed && !t.flagged
      {
        for columnIndex := 0 to boardColumns
          invariant forall r, c ::
                      (0 <= c < boardColumns && (0 <= r < rowIndex || (r == rowIndex && c < columnIndex))) ==>
                      tiles[r, c] != null && tiles[r, c] in Repr &&
                      tiles[r, c].tileRow == r && tiles[r, c].tileColumn == c
          invariant forall t :: t in Repr ==>
                      0 <= t.tileColumn < boardColumns &&
                      (0 <= t.tileRow < rowIndex || (t.tileRow == rowIndex && t.tileColumn < columnIndex)) &&
                      tiles[t.tileRow, t.tileColumn] == t
          invariant forall t :: t in Repr ==>
                      fresh(t) && t.neighbors == [] && !t.mine && !t.revealed && !t.flagged
        {
          var tile := new Tile(rowIndex, columnIndex);
          tiles[rowIndex, columnIndex] := tile;
          Repr := Repr + {tile};
        }
      }
    }

    /** The second loop pair of initializeTiles: every tile, in row-major
        order, gets the tiles around it as neighbours. */
    method LinkTiles()
      requires Grid() && forall t :: t in Repr ==> t.neighbors == []
      modifies Repr`neighbors
      ensures Valid()
    {
      for rowIndex := 0 to boardRows
        invariant forall t :: t in Repr ==>
                    (t.tileRow < rowIndex ==> Linked(t)) && (t.tileRow >= rowIndex ==> t.neighbors == [])
      {
        for columnIndex := 0 to boardColumns
          invariant forall t :: t in Repr ==>
                      (OffsetBefore(t.tileRow, t.tileColumn, rowIndex, columnIndex) ==> Linked(t)) &&
                      (!OffsetBefore(t.tileRow, t.tileColumn, rowIndex, columnIndex) ==> t.neighbors == [])
        {
          LinkNeighbors(tiles[rowIndex, columnIndex]);
        }
      }
    }

    /** The body of the neighbour loops: tries the eight offsets around
        `tile` and adds each in-bounds tile found there. */
    method LinkNeighbors(tile: Tile)
      requires Grid() && tile in Repr && tile.neighbors == []
      modifies tile`neighbors
      ensures Linked(tile)
    {
      var rowIndex, columnIndex := tile.tileRow, tile.tileColumn;
      for rowOffset := -1 to 2
        invariant forall u :: u in tile.neighbors <==>
                    u in Repr && Touching(rowIndex, columnIndex, u.tileRow, u.tileColumn) &&
                    u.tileRow - rowIndex < rowOffset
        invariant Distinct(tile.neighbors) && |tile.neighbors| <= OffsetsBefore(rowOffset, -1)
      {
        for colOffset := -1 to 2
          invariant forall u :: u in tile.neighbors <==>
                      u in Repr && Touching(rowIndex, columnIndex, u.tileRow, u.tileColumn) &&
                      OffsetBefore(u.tileRow - rowIndex, u.tileColumn - columnIndex, rowOffset, colOffset)
          invariant Distinct(tile.neighbors) && |tile.neighbors| <= OffsetsBefore(rowOffset, colOffset)
        {
          if rowOffset == 0 && colOffset == 0 {
            continue;
          }
          var neighborRow := rowIndex + rowOffset;
          var neighborColumn := columnIndex + colOffset;
          if IsInBounds(neighborRow, neighborColumn) {
            tile.AddNeighbor(tiles[neighborRow, neighborColumn]);
          }
        }
      }
    }

    /** Scatters mines: draws cells and turns each drawn tile that has no
        mine yet into one, until there are totalMines of them. The draws are
        supplied; the loop also stops when they run out. */
    method PlaceMines(picks: seq<(int, int)>)
      requires Grid() && MinesTracked() && MineSet == {} && PicksInBounds(picks)
      modifies this`MineSet, Repr`mine
      ensures MinesTracked() && MinesFrom(picks)
    {
      var minesPlaced := 0;
      var i := 0;
      while minesPlaced < totalMines && i < |picks|
        invariant 0 <= i <= |picks|
        invariant MinesTracked()
        invariant minesPlaced == |MineSet|
        invariant minesPlaced <= (if totalMines < 0 then 0 else totalMines)
        invariant forall j :: 0 <= j < i ==> tiles[picks[j].0, picks[j].1] in MineSet
        invariant forall t :: t in MineSet ==> (t.tileRow, t.tileColumn) in picks[..i]
        decreases |picks| - i
      {
        var randomRow, randomColumn := picks[i].0, picks[i].1;
        i := i + 1;
        var tile := tiles[randomRow, randomColumn];
        if !tile.mine {
          tile.SetMine(true);
          MineSet := MineSet + {tile};
          minesPlaced := minesPlaced + 1;
        }
      }
      assert picks[..|picks|] == picks;
    }

    /** Reveals (rowIndex, columnIndex); a mine ends the game, an empty tile
        reveals the tiles around it in turn, and a reveal that leaves no safe
        tile hidden wins the game. */
    method RevealTile(rowIndex: int, columnIndex: int)
      requires Valid() && Sound()
      modifies this`gameOver, this`RevealedSet, Repr`revealed
      decreases Repr - RevealedSet, 0
      ensures Sound()
      ensures !IsInBounds(rowIndex, columnIndex) ==> RevealedSet == old(RevealedSet) && gameOver == old(gameOver)
      ensures IsInBounds(rowIndex, columnIndex) ==>
                RevealOutcome(Repr, MineSet, FlagSet, tiles[rowIndex, columnIndex],
                              old(RevealedSet), old(gameOver), RevealedSet, gameOver)
      ensures old(Decided()) ==> Decided()
    {
      if !IsInBounds(rowIndex, columnIndex) || gameOver {
        return;
      }
      var tile := tiles[rowIndex, columnIndex];
      if tile.revealed || tile.flagged {
        return;
      }
      ghost var before := RevealedSet;
      tile.Reveal();
      RevealedSet := RevealedSet + {tile};
      assert Sound();

      if tile.mine {
        var shown := EndGame(false);
      } else {
        RevealSafe(tile, before);
      }
      if DecidedIn(Repr, MineSet, before, false) {
        RevealKeepsDecided(Repr, MineSet, FlagSet, tile, before, false, RevealedSet, gameOver);
      }
    }

    method RevealSafe(tile: Tile, ghost before: set<Tile>)
      requires Valid() && Sound() && !gameOver
      requires tile in Repr && tile !in MineSet && tile !in FlagSet
      requires tile !in before && RevealedSet == before + {tile}
      modifies this`gameOver, this`RevealedSet, Repr`revealed
      decreases Repr - RevealedSet, 2
      ensures Sound()
      ensures RevealOutcome(Repr, MineSet, FlagSet, tile, before, false, RevealedSet, gameOver)
    {
      NoMinedNeighborIsZeroSafe(tile);
      var adjacentMines := tile.AdjacentMineCount();
      if adjacentMines == 0 {
        RevealNeighbors(tile, before);
      }
      assert Grid() && Tracked();
      var won := CheckWin();
      if won {
        var shown := EndGame(true);
      }
    }

    /** No neighbour of `t` hides a mine exactly when no tile touching `t`
        does: the neighbour list decides the adjacent-mine count. */
    lemma NoMinedNeighborIsZeroSafe(t: Tile)
      requires Valid() && MinesTracked() && t in Repr && t !in MineSet
      ensures ZeroSafeIn(t, Repr, MineSet) <==> forall n :: n in t.neighbors ==> !n.mine
    {
      assert Linked(t);
    }

    /** Being neighbours is symmetric. */
    lemma NeighborsSymmetric(t: Tile, n: Tile)
      requires Valid() && t in Repr && n in t.neighbors
      ensures n in Repr && t in n.neighbors
    {
      assert Linked(t);
      assert Linked(n);
      assert Touching(n.tileRow, n.tileColumn, t.tileRow, t.tileColumn);
    }

    /** The tiles touching `t` that hide a mine. */
    ghost function TouchingMines(t: Tile): set<Tile>
      reads this`Repr, this`MineSet
    {
      set u | u in Repr && u in MineSet && Touching(t.tileRow, t.tileColumn, u.tileRow, u.tileColumn)
    }

    /** The count a tile shows is the number of mines on the cells around it. */
    lemma AdjacentCountIsTouchingMines(t: Tile)
      requires Valid() && MinesTracked() && t in Repr
      ensures MinesAmong(t.neighbors) == |TouchingMines(t)|
    {
      assert Linked(t);
      MinesAmongCountsMinedTiles(t.neighbors);
      assert MinedTiles(t.neighbors) == TouchingMines(t);
    }

    /** The loop of revealTile over the neighbours of the empty tile `tile`,
        just revealed on top of the tiles in `before`: each neighbour is
        handed to the reveal in turn. */
    method RevealNeighbors(tile: Tile, ghost before: set<Tile>)
      requires Valid() && Sound() && !gameOver
      requires tile in Repr && tile !in before && RevealedSet == before + {tile}
      requires ZeroSafeIn(tile, Repr, MineSet)
      modifies this`gameOver, this`RevealedSet, Repr`revealed
      decreases Repr - RevealedSet, 1
      ensures Sound()
      ensures before + {tile} <= RevealedSet && RevealedSet - before <= Repr - MineSet
      ensures gameOver ==> AllSafeRevealed()
      ensures FedIn(Repr, MineSet, tile, RevealedSet - before)
      ensures ClosedIn(Repr, MineSet, RevealedSet + FlagSet, RevealedSet - before)
    {
      var neighbors := tile.neighbors;
      assert Linked(tile);
      forall j | 0 <= j < |neighbors|
        ensures neighbors[j] in Repr - MineSet && IsInBounds(neighbors[j].tileRow, neighbors[j].tileColumn)
        ensures tiles[neighbors[j].tileRow, neighbors[j].tileColumn] == neighbors[j]
        ensures Touching(tile.tileRow, tile.tileColumn, neighbors[j].tileRow, neighbors[j].tileColumn)
      {
        var n := neighbors[j];
        assert n in tile.neighbors;
        assert n in Repr && Touching(tile.tileRow, tile.tileColumn, n.tileRow, n.tileColumn);
      }
      for i := 0 to |neighbors|
        invariant Sound()
        invariant Flooding(Repr, MineSet, FlagSet, before, tile, neighbors[..i], RevealedSet, gameOver)
      {
        var neighbor := neighbors[i];
        ghost var mid, midOver := RevealedSet, gameOver;
        RevealTile(neighbor.tileRow, neighbor.tileColumn);
        FloodStep(Repr, MineSet, FlagSet, before, tile, neighbors[..i], neighbor, mid, midOver, RevealedSet, gameOver);
        assert neighbors[..i + 1] == neighbors[..i] + [neighbor];
      }
      assert neighbors[..|neighbors|] == neighbors;
      FloodDone(Repr, MineSet, FlagSet, before, tile, neighbors, RevealedSet, gameOver);
    }

    /** Puts a flag on a hidden tile or takes it off, keeping the counter in
        step. */
    method ToggleFlag(rowIndex: int, columnIndex: int)
      requires Grid() && Sound()
      modifies this`flaggedTiles, this`FlagSet, Repr`flagged
      ensures Sound()
      ensures !old(Flaggable(rowIndex, columnIndex)) ==>
                FlagSet == old(FlagSet) && flaggedTiles == old(flaggedTiles)
      ensures old(Flaggable(rowIndex, columnIndex)) && tiles[rowIndex, columnIndex] in old(FlagSet) ==>
                FlagSet == old(FlagSet) - {tiles[rowIndex, columnIndex]} &&
                flaggedTiles == old(flaggedTiles) - 1
      ensures old(Flaggable(rowIndex, columnIndex)) && tiles[rowIndex, columnIndex] !in old(FlagSet) ==>
                FlagSet == old(FlagSet) + {tiles[rowIndex, columnIndex]} &&
                flaggedTiles == old(flaggedTiles) + 1
      ensures old(Counted()) ==> Counted()
      ensures Decided() == old(Decided())
    {
      if !IsInBounds(rowIndex, columnIndex) || gameOver {
        return;
      }
      var tile := tiles[rowIndex, columnIndex];
      if tile.revealed {
        return;
      }
      tile.ToggleFlag();
      if tile.flagged {
        FlagSet := FlagSet + {tile};
        flaggedTiles := flaggedTiles + 1;
      } else {
        FlagSet := FlagSet - {tile};
        flaggedTiles := flaggedTiles - 1;
      }
    }

    /** Ends the game and classifies every tile for the final display. */
    method EndGame(won: bool) returns (shown: array2<Display>)
      requires Grid()
      modifies this`gameOver
      ensures gameOver
      ensures fresh(shown) && shown.Length0 == boardRows && shown.Length1 == boardColumns
      ensures forall r, c :: IsInBounds(r, c) ==>
                shown[r, c] == FinalDisplay(tiles[r, c].mine, tiles[r, c].flagged)
    {
      gameOver := true;
      shown := new Display[boardRows, boardColumns];
      for rowIndex := 0 to boardRows
        invariant gameOver
        invariant forall r, c :: 0 <= r < rowIndex && 0 <= c < boardColumns ==>
                    shown[r, c] == FinalDisplay(tiles[r, c].mine, tiles[r, c].flagged)
      {
        for columnIndex := 0 to boardColumns
          invariant gameOver
          invariant forall r, c ::
                      (0 <= c < boardColumns && (0 <= r < rowIndex || (r == rowIndex && c < columnIndex))) ==>
                      shown[r, c] == FinalDisplay(tiles[r, c].mine, tiles[r, c].flagged)
        {
          var tile := tiles[rowIndex, columnIndex];
          shown[rowIndex, columnIndex] := FinalDisplay(tile.mine, tile.flagged);
        }
      }
    }

    /** Whether every tile without a mine has been revealed. */
    method CheckWin() returns (won: bool)
      requires Grid() && Tracked()
      ensures won <==> AllSafeRevealed()
    {
      for rowIndex := 0 to boardRows
        invariant forall r, c :: 0 <= r < rowIndex && 0 <= c < boardColumns ==>
                    tiles[r, c].mine || tiles[r, c].revealed
      {
        for columnIndex := 0 to boardColumns
          invariant forall r, c ::
                      (0 <= c < boardColumns && (0 <= r < rowIndex || (r == rowIndex && c < columnIndex))) ==>
                      tiles[r, c].mine || tiles[r, c].revealed
        {
          var tile := tiles[rowIndex, columnIndex];
          if !tile.mine && !tile.revealed {
            return false;
          }
        }
      }
      return true;
    }
  }
}
