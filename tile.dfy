/** One square of the minesweeper board: whether it hides a mine, whether it
    has been revealed or flagged, its fixed position, and the list of tiles
    around it. */
module Tiles {

  /** No tile occurs twice in `ns`. */
  ghost predicate Distinct(ns: seq<Tile>)
  {
    forall i, j :: 0 <= i < j < |ns| ==> ns[i] != ns[j]
  }

  /** The number of tiles of `ns` that hide a mine, counted position by
      position from the front. */
  ghost function MinesAmong(ns: seq<Tile>): (k: nat)
    reads (set n | n in ns)`mine
    decreases |ns|
    ensures k <= |ns|
    ensures k == 0 <==> forall i :: 0 <= i < |ns| ==> !ns[i].mine
  {
    if ns == [] then 0
    else MinesAmong(ns[..|ns| - 1]) + (if ns[|ns| - 1].mine then 1 else 0)
  }

  /** The tiles of `ns` that hide a mine, as a set. */
  ghost function MinedTiles(ns: seq<Tile>): set<Tile>
    reads (set n | n in ns)`mine
  {
    set n | n in ns && n.mine
  }

  /** Over a list without repetitions the positional count is the number of
      distinct mined tiles in the list. */
  lemma {:induction false} MinesAmongCountsMinedTiles(ns: seq<Tile>)
    requires Distinct(ns)
    ensures MinesAmong(ns) == |MinedTiles(ns)|
  {
    if ns != [] {
      var front, last := ns[..|ns| - 1], ns[|ns| - 1];
      MinesAmongCountsMinedTiles(front);
      assert last !in front by {
        forall i | 0 <= i < |front| ensures front[i] != last {
          assert ns[i] == front[i];
        }
      }
      assert forall n :: n in ns <==> n in front || n == last;
      if last.mine {
        assert MinedTiles(ns) == MinedTiles(front) + {last};
      } else {
        assert MinedTiles(ns) == MinedTiles(front);
      }
    }
  }

  class Tile {
    /** Position on the board, fixed at construction. */
    const tileRow: int
    const tileColumn: int
    /** The tiles around this one, in the order they were added. */
    var neighbors: seq<Tile>
    var mine: bool
    var revealed: bool
    var flagged: bool

    constructor (tileRow: int, tileColumn: int)
      ensures this.tileRow == tileRow && this.tileColumn == tileColumn
      ensures neighbors == [] && !mine && !revealed && !flagged
    {
      this.tileRow := tileRow;
      this.tileColumn := tileColumn;
      neighbors := [];
      mine, revealed, flagged := false, false, false;
    }

    /** Appends `neighbor` unless it is null, this tile itself, or already
        in the list; the scan compares references. */
    method AddNeighbor(neighbor: Tile?)
      modifies this`neighbors
      ensures neighbor == null || neighbor == this || neighbor in old(neighbors) ==>
                neighbors == old(neighbors)
      ensures neighbor != null && neighbor != this && neighbor !in old(neighbors) ==>
                neighbors == old(neighbors) + [neighbor]
      ensures Distinct(old(neighbors)) ==> Distinct(neighbors)
      ensures this !in old(neighbors) ==> this !in neighbors
    {
      if neighbor == null || neighbor == this {
        return;
      }
      for i := 0 to |neighbors|
        invariant neighbor !in neighbors[..i]
      {
        if neighbors[i] == neighbor {
          return;
        }
      }
      assert neighbors[..|neighbors|] == neighbors;
      neighbors := neighbors + [neighbor];
    }

    method SetMine(mine: bool)
      modifies this`mine
      ensures this.mine == mine
    {
      this.mine := mine;
    }

    /** Marks the tile revealed; calling it again has no further effect. */
    method Reveal()
      modifies this`revealed
      ensures revealed
    {
      revealed := true;
    }

    /** Puts a flag on the tile or takes it off. */
    method ToggleFlag()
      modifies this`flagged
      ensures flagged == !old(flagged)
    {
      flagged := !flagged;
    }

    /** Counts the neighbours that hide a mine. */
    method AdjacentMineCount() returns (count: nat)
      ensures count == MinesAmong(neighbors)
      ensures count <= |neighbors|
      ensures count == 0 <==> forall n :: n in neighbors ==> !n.mine
    {
      count := 0;
      for i := 0 to |neighbors|
        invariant count == MinesAmong(neighbors[..i])
      {
        assert neighbors[..i + 1][..i] == neighbors[..i];
        if neighbors[i].mine {
          count := count + 1;
        }
      }
      assert neighbors[..|neighbors|] == neighbors;
    }
  }
}
