/**
  The board of the minesweeper engine: the cell record, the Moore
  neighbourhood `DIRECTIONS`, construction of an empty grid, and ghost views
  of a grid as sets of positions, used by the specifications of the
  operations that place mines, open cells and score a board.
*/
module Grid {

  /** One square of the board. `row`/`col` are fixed at creation. */
  datatype Cell = Cell(row: int, col: int, isMine: bool, isOpen: bool, isFlagged: bool, neighborCount: int)

  /** A (row, column) coordinate. */
  type Pos = (int, int)

  /** The eight offsets of the Moore neighbourhood, in the order the engine visits them. */
  const DIRECTIONS: seq<(int, int)> :=
    [(-1, -1), (-1, 0), (-1, 1), (0, -1), (0, 1), (1, -1), (1, 0), (1, 1)]

  predicate InBounds(rows: int, cols: int, p: Pos) {
    0 <= p.0 < rows && 0 <= p.1 < cols
  }

  /** `p` comes before `q` in row-major order, the order of the engine's scans. */
  predicate Before(p: Pos, q: Pos) {
    p.0 < q.0 || (p.0 == q.0 && p.1 < q.1)
  }

  /** `q` is one of the eight cells that surround `p`. */
  predicate Adjacent(p: Pos, q: Pos) {
    p != q && -1 <= q.0 - p.0 <= 1 && -1 <= q.1 - p.1 <= 1
  }

  /** The neighbour of `p` in direction `k`. */
  function Shift(p: Pos, k: int): Pos
    requires 0 <= k < |DIRECTIONS|
  {
    (p.0 + DIRECTIONS[k].0, p.1 + DIRECTIONS[k].1)
  }

  /** Every direction leads to a neighbour, and distinct directions lead to distinct neighbours. */
  lemma ShiftIsAdjacent(p: Pos, j: int, k: int)
    requires 0 <= j < |DIRECTIONS| && 0 <= k < |DIRECTIONS|
    ensures Adjacent(p, Shift(p, k))
    ensures j != k ==> Shift(p, j) != Shift(p, k)
  {
  }

  /** Every neighbour is reached by one of the eight directions. */
  lemma AdjacentIsShift(p: Pos, q: Pos) returns (k: int)
    requires Adjacent(p, q)
    ensures 0 <= k < |DIRECTIONS| && Shift(p, k) == q
  {
    var dr, dc := q.0 - p.0, q.1 - p.1;
    k := if dr == -1 then (if dc == -1 then 0 else if dc == 0 then 1 else 2)
         else if dr == 0 then (if dc == -1 then 3 else 4)
         else (if dc == -1 then 5 else if dc == 0 then 6 else 7);
  }

  /** The cell `createGrid` puts at (r, c): no mine, closed, unflagged, count 0. */
  function EmptyCell(r: int, c: int): Cell {
    Cell(r, c, false, false, false, 0)
  }

  /** `Array.from({ length: n })` treats a negative length as 0. */
  function Length(n: int): nat {
    if n < 0 then 0 else n
  }

  /** Builds a `rows` x `cols` board of empty cells whose coordinates match their place. */
  method CreateGrid(rows: int, cols: int) returns (g: array2<Cell>)
    ensures fresh(g)
    ensures g.Length0 == Length(rows) && g.Length1 == Length(cols)
    ensures forall r, c :: 0 <= r < g.Length0 && 0 <= c < g.Length1 ==>
              g[r, c].row == r && g[r, c].col == c &&
              !g[r, c].isMine && !g[r, c].isOpen && !g[r, c].isFlagged && g[r, c].neighborCount == 0
  {
    g := new Cell[Length(rows), Length(cols)]((r, c) => EmptyCell(r, c));
  }

  // ---------------------------------------------------------------------
  // Boards as values.

  /** The positions of a `rows` x `cols` board. */
  ghost function Cells(rows: int, cols: int): (cells: set<Pos>)
    ensures forall p :: p in cells <==> InBounds(rows, cols, p)
  {
    set r, c | 0 <= r < rows && 0 <= c < cols :: (r, c)
  }

  /** The contents of a board as a value: the cell at every in-bounds position. */
  type Board = map<Pos, Cell>

  /** The current contents of the grid `g`. */
  ghost function BoardOf(g: array2<Cell>): (b: Board)
    reads g
    ensures b.Keys == Cells(g.Length0, g.Length1)
    ensures forall p :: p in b ==> b[p] == g[p.0, p.1]
  {
    map p | p in Cells(g.Length0, g.Length1) :: g[p.0, p.1]
  }

  ghost function Mines(b: Board): set<Pos> {
    set p | p in b && b[p].isMine
  }

  ghost function Safe(b: Board): set<Pos> {
    set p | p in b && !b[p].isMine
  }

  ghost function Opened(b: Board): set<Pos> {
    set p | p in b && b[p].isOpen
  }

  ghost function Closed(b: Board): set<Pos> {
    set p | p in b && !b[p].isOpen
  }

  ghost function Flagged(b: Board): set<Pos> {
    set p | p in b && b[p].isFlagged
  }

  /** Cells a reveal may open: closed and not flagged. */
  ghost function Candidates(b: Board): set<Pos> {
    set p | p in b && !b[p].isOpen && !b[p].isFlagged
  }

  /** Safe cells whose recorded count is 0: the cells from which a reveal spreads. */
  ghost function Zeros(b: Board): set<Pos> {
    set p | p in b && !b[p].isMine && b[p].neighborCount == 0
  }

  /** Cells, mine or not, whose recorded count is 0: the cells from which the 3BV flood fill spreads. */
  ghost function Blanks(b: Board): set<Pos> {
    set p | p in b && b[p].neighborCount == 0
  }

  /** A subset is no larger than its superset. */
  lemma SubsetCard(a: set<Pos>, b: set<Pos>)
    requires a <= b
    ensures |a| <= |b|
  {
    assert b == a + (b - a);
  }

  // ---------------------------------------------------------------------
  // Neighbour counts.

  /** The Moore neighbours of `p` that are in `mines`. */
  ghost function MooreMines(mines: set<Pos>, p: Pos): set<Pos> {
    set q | q in mines && Adjacent(p, q)
  }

  /** The number of the first `k` directions from `p` that lead to a cell of `mines`. */
  ghost function CountAround(mines: set<Pos>, p: Pos, k: int): (n: int)
    requires 0 <= k <= |DIRECTIONS|
    ensures 0 <= n <= k
  {
    if k == 0 then 0
    else CountAround(mines, p, k - 1) + (if Shift(p, k - 1) in mines then 1 else 0)
  }

  /** The cells of `mines` reached by the first `k` directions. */
  ghost function MinesInFirstDirections(mines: set<Pos>, p: Pos, k: int): set<Pos>
    requires 0 <= k <= |DIRECTIONS|
  {
    set j | 0 <= j < k && Shift(p, j) in mines :: Shift(p, j)
  }

  lemma {:induction false} CountAroundIsCard(mines: set<Pos>, p: Pos, k: int)
    requires 0 <= k <= |DIRECTIONS|
    ensures CountAround(mines, p, k) == |MinesInFirstDirections(mines, p, k)|
  {
    if k > 0 {
      CountAroundIsCard(mines, p, k - 1);
      var prev := MinesInFirstDirections(mines, p, k - 1);
      var q := Shift(p, k - 1);
      forall j | 0 <= j < k - 1 ensures Shift(p, j) != q {
        ShiftIsAdjacent(p, j, k - 1);
      }
      if q in mines {
        assert MinesInFirstDirections(mines, p, k) == prev + {q};
      } else {
        assert MinesInFirstDirections(mines, p, k) == prev;
      }
    }
  }

  /**
    Counting over the eight `DIRECTIONS` gives exactly the number of Moore
    neighbours that are mines, which is therefore at most 8.
  */
  lemma CountAroundIsMooreMines(mines: set<Pos>, p: Pos)
    ensures CountAround(mines, p, |DIRECTIONS|) == |MooreMines(mines, p)|
    ensures |MooreMines(mines, p)| <= 8
  {
    CountAroundIsCard(mines, p, |DIRECTIONS|);
    var s := MinesInFirstDirections(mines, p, |DIRECTIONS|);
    forall q | q in MooreMines(mines, p) ensures q in s {
      var k := AdjacentIsShift(p, q);
    }
    forall q | q in s ensures q in MooreMines(mines, p) {
      var j :| 0 <= j < |DIRECTIONS| && q == Shift(p, j);
      ShiftIsAdjacent(p, j, j);
    }
    assert s == MooreMines(mines, p);
  }

  /** Every safe cell records the exact number of its neighbouring mines. */
  ghost predicate CountsExact(b: Board) {
    forall p :: p in b && !b[p].isMine ==> b[p].neighborCount == |MooreMines(Mines(b), p)|
  }

  /** No cell of `Zeros(b)` touches a mine. */
  ghost predicate ZerosTouchNoMine(b: Board) {
    forall z, q :: z in Zeros(b) && Adjacent(z, q) ==> q !in Mines(b)
  }

  /** On a board with exact counts, a safe cell counted 0 has no neighbouring mine. */
  lemma ExactCountsMakeZerosMineFree(b: Board)
    requires CountsExact(b)
    ensures ZerosTouchNoMine(b)
  {
    forall z, q | z in Zeros(b) && Adjacent(z, q) ensures q !in Mines(b) {
      var around := MooreMines(Mines(b), z);
      assert b[z].neighborCount == |around| == 0;
      assert q !in around;
    }
  }

  /** The board `createGrid` builds: no mine, nothing open or flagged, every count 0. */
  lemma EmptyBoardIsConsistent(b: Board)
    requires forall p :: p in b ==> b[p] == EmptyCell(p.0, p.1)
    ensures Mines(b) == {} && Opened(b) == {} && Flagged(b) == {}
    ensures Zeros(b) == b.Keys
    ensures CountsExact(b)
  {
  }
}
