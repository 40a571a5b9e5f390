/**
 * The apple, the bad food and the obstacle. The three behave alike: each holds
 * one cell, placed at random on a cell the snake does not occupy. They are not
 * checked against each other, so two of them may share a cell.
 */
module Entities {
  import opened GridSpace

  datatype ItemKind = Apple | BadFood | Obstacle

  class Item {
    const kind: ItemKind
    var position: Cell

    /** A new item on a free cell; the random choice fails on a full board. */
    constructor (kind: ItemKind, snakePositions: seq<Cell>)
      requires AvailablePositions(snakePositions) != {}
      ensures this.kind == kind
      ensures IsCell(position) && position !in snakePositions
    {
      this.kind := kind;
      var free := AvailablePositions(snakePositions);
      var c :| c in free;
      position := c;
    }

    /**
     * Move the item to some free cell. Which one is chosen is left open; when
     * there is none, the random choice fails and `placed` is false.
     */
    method RandomizePosition(snakePositions: seq<Cell>) returns (placed: bool)
      modifies this
      ensures placed <==> AvailablePositions(snakePositions) != {}
      ensures placed ==> position in AvailablePositions(snakePositions)
      ensures !placed ==> position == old(position)
    {
      var free := AvailablePositions(snakePositions);
      if free == {} {
        return false;
      }
      var c :| c in free;
      position := c;
      placed := true;
    }
  }
}
