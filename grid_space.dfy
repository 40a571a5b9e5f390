/**
 * The discrete playfield: a 640x480 pixel board cut into 20-pixel cells.
 * A cell is named by the pixel coordinates of its top-left corner.
 */
module GridSpace {
  const ScreenWidth: int := 640
  const ScreenHeight: int := 480
  const GridSize: int := 20
  const GridWidth: int := ScreenWidth / GridSize
  const GridHeight: int := ScreenHeight / GridSize

  type Cell = (int, int)

  /** A grid-aligned cell of the board. */
  predicate IsCell(c: Cell) {
    0 <= c.0 < ScreenWidth && 0 <= c.1 < ScreenHeight &&
    c.0 % GridSize == 0 && c.1 % GridSize == 0
  }

  /** Every cell of the board, built column by row as the game does once at start-up. */
  function AllCells(): set<Cell> {
    set x, y | 0 <= x < GridWidth && 0 <= y < GridHeight :: (x * GridSize, y * GridSize)
  }

  /** The cells a list of snake positions occupies, as Python's `set(...)` of the list. */
  function Occupied(ps: seq<Cell>): set<Cell> {
    set c | c in ps
  }

  /** No cell appears twice in the list. */
  predicate Distinct(ps: seq<Cell>) {
    forall i, j :: 0 <= i < j < |ps| ==> ps[i] != ps[j]
  }

  /** Every cell of the list lies on the board. */
  predicate OnBoard(ps: seq<Cell>) {
    forall i :: 0 <= i < |ps| ==> IsCell(ps[i])
  }

  /** The free cells: the board minus the cells the snake occupies. */
  function AvailablePositions(ps: seq<Cell>): (r: set<Cell>)
    ensures forall c :: c in r <==> IsCell(c) && c !in ps
    ensures r !! Occupied(ps) && r <= AllCells() && r + Occupied(ps) >= AllCells()
  {
    AllCellsExactly();
    AllCells() - Occupied(ps)
  }

  /** The board is exactly the set of grid-aligned cells. */
  lemma AllCellsExactly()
    ensures forall c :: c in AllCells() <==> IsCell(c)
  {
    forall c | IsCell(c) ensures c in AllCells() {
      var x, y := c.0 / GridSize, c.1 / GridSize;
      assert c == (x * GridSize, y * GridSize);
    }
  }

  // The count of the board is proved on a copy of it built one cell at a time.
  // These helpers spell the cell size (20) and the column height (24) as
  // literals so that the solver sees linear arithmetic.

  /** The cells of column `x` in the rows below `k`, added one row at a time. */
  function Column(x: int, k: nat): set<Cell> {
    if k == 0 then {} else Column(x, k - 1) + {(x * 20, (k - 1) * 20)}
  }

  /** The full columns to the left of column `k`, added one column at a time. */
  function Columns(k: nat): set<Cell> {
    if k == 0 then {} else Columns(k - 1) + Column(k - 1, 24)
  }

  predicate InColumn(c: Cell, x: int, k: nat) {
    c.0 == x * 20 && 0 <= c.1 < k * 20 && c.1 % 20 == 0
  }

  predicate InColumns(c: Cell, k: nat) {
    0 <= c.0 < k * 20 && c.0 % 20 == 0 && 0 <= c.1 < 480 && c.1 % 20 == 0
  }

  lemma {:induction false} ColumnMembers(x: int, k: nat)
    ensures forall c :: c in Column(x, k) <==> InColumn(c, x, k)
  {
    if k > 0 {
      ColumnMembers(x, k - 1);
      forall c | InColumn(c, x, k) ensures c in Column(x, k) {
        if !InColumn(c, x, k - 1) {
          assert c.1 == (k - 1) * 20;
        }
      }
    }
  }

  lemma {:induction false} ColumnSize(x: int, k: nat)
    ensures |Column(x, k)| == k
  {
    if k > 0 {
      ColumnSize(x, k - 1);
      ColumnMembers(x, k - 1);
      assert !InColumn((x * 20, (k - 1) * 20), x, k - 1);
    }
  }

  lemma {:induction false} ColumnsMembers(k: nat)
    ensures forall c :: c in Columns(k) <==> InColumns(c, k)
  {
    if k > 0 {
      ColumnsMembers(k - 1);
      ColumnMembers(k - 1, 24);
      forall c | InColumns(c, k) ensures c in Columns(k) {
        assert InColumns(c, k - 1) || InColumn(c, k - 1, 24);
      }
    }
  }

  lemma NewColumnIsDisjoint(k: nat)
    ensures Columns(k) !! Column(k, 24)
  {
    ColumnsMembers(k);
    ColumnMembers(k, 24);
    forall c | c in Column(k, 24) ensures c !in Columns(k) {
      assert InColumn(c, k, 24);
    }
  }

  lemma {:induction false} ColumnsSize(k: nat)
    ensures |Columns(k)| == k * 24
  {
    if k > 0 {
      ColumnsSize(k - 1);
      ColumnSize(k - 1, 24);
      NewColumnIsDisjoint(k - 1);
    }
  }

  /** The board has GridWidth * GridHeight = 32 * 24 cells. */
  lemma AllCellsCount()
    ensures |AllCells()| == GridWidth * GridHeight == 768
  {
    AllCellsExactly();
    var w := GridWidth;
    ColumnsMembers(w);
    ColumnsSize(w);
    forall c ensures c in AllCells() <==> c in Columns(w) {
      assert IsCell(c) <==> InColumns(c, w);
    }
    assert AllCells() == Columns(w);
  }

  /** A list covers at most as many cells as it has entries, exactly as many when they are distinct. */
  lemma {:induction false} OccupiedSize(ps: seq<Cell>)
    ensures |Occupied(ps)| <= |ps|
    ensures Distinct(ps) ==> |Occupied(ps)| == |ps|
  {
    if ps != [] {
      var init, tail := ps[..|ps| - 1], ps[|ps| - 1];
      OccupiedSize(init);
      assert ps == init + [tail];
      assert Occupied(ps) == Occupied(init) + {tail};
      if Distinct(ps) {
        assert Distinct(init);
        assert tail !in Occupied(init);
      }
    }
  }

  lemma SubsetSize(a: set<Cell>, b: set<Cell>)
    requires a <= b
    ensures |a| <= |b|
    ensures |a| == |b| ==> a == b
  {
    assert b == a + (b - a);
    assert a !! (b - a);
    if |a| == |b| {
      assert |b - a| == 0;
    }
  }

  /** A snake shorter than the board always leaves a free cell for an item. */
  lemma FreeCellExists(ps: seq<Cell>)
    requires |ps| < GridWidth * GridHeight
    ensures AvailablePositions(ps) != {}
  {
    AllCellsCount();
    OccupiedSize(ps);
    var free := AvailablePositions(ps);
    SubsetSize(AllCells(), free + Occupied(ps));
    assert |free| > 0;
  }

  /**
   * A body of distinct cells on the board has at most GridWidth * GridHeight cells,
   * and it leaves no free cell exactly when it has that many.
   */
  lemma BoardFullIff(ps: seq<Cell>)
    requires Distinct(ps) && OnBoard(ps)
    ensures |ps| <= GridWidth * GridHeight
    ensures AvailablePositions(ps) == {} <==> |ps| == GridWidth * GridHeight
  {
    AllCellsCount();
    AllCellsExactly();
    OccupiedSize(ps);
    assert Occupied(ps) <= AllCells();
    SubsetSize(Occupied(ps), AllCells());
    assert AvailablePositions(ps) == AllCells() - Occupied(ps);
  }
}
