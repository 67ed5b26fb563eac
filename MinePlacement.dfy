/**
  Mine placement (`placeMines`), run on the first click. It builds the safe
  zone (the click and its in-bounds Moore neighbours), turns random cells
  outside it into mines until `mines` new ones are placed, and then records
  in every safe cell the number of neighbouring mines.

  `Math.random` is replaced by `draws`, the sequence of cells the random
  source would produce, in order. Each method is proved to leave the grid
  equal to a function of its old contents (`SafeZone`, `Scatter`, `Numbered`),
  and the lemmas at the end state what `placeMines` promises about them.
*/
module MinePlacement {
  import opened Grid

  // ---------------------------------------------------------------------
  // The safe zone.

  /** The first click and its in-bounds Moore neighbours. The click is included even when it is out of bounds. */
  ghost function SafeZone(rows: int, cols: int, first: Pos): set<Pos> {
    {first} + set q | q in Cells(rows, cols) && Adjacent(first, q)
  }

  /** The zone after the first `k` rounds of the loop over `DIRECTIONS`. */
  ghost function ZoneSoFar(rows: int, cols: int, first: Pos, k: int): set<Pos>
    requires 0 <= k <= |DIRECTIONS|
  {
    {first} + set j | 0 <= j < k && InBounds(rows, cols, Shift(first, j)) :: Shift(first, j)
  }

  lemma ZoneStep(rows: int, cols: int, first: Pos, k: int)
    requires 0 <= k < |DIRECTIONS|
    ensures ZoneSoFar(rows, cols, first, k + 1) ==
            ZoneSoFar(rows, cols, first, k) + (if InBounds(rows, cols, Shift(first, k)) then {Shift(first, k)} else {})
  {
  }

  /** Builds the safe zone as `placeMines` does: the click, then each in-bounds neighbour in `DIRECTIONS` order. */
  method SafeZoneOf(rows: int, cols: int, first: Pos) returns (zone: set<Pos>)
    ensures zone == SafeZone(rows, cols, first)
  {
    zone := {first};
    for k := 0 to |DIRECTIONS|
      invariant zone == ZoneSoFar(rows, cols, first, k)
    {
      var next := Shift(first, k);
      var nr, nc := next.0, next.1;
      if nr >= 0 && nr < rows && nc >= 0 && nc < cols {
        zone := zone + {next};
      }
      ZoneStep(rows, cols, first, k);
    }
    forall q | q in SafeZone(rows, cols, first) ensures q in zone {
      if q != first {
        var j := AdjacentIsShift(first, q);
      }
    }
    forall q | q in zone ensures q in SafeZone(rows, cols, first) {
      if q != first {
        var j :| 0 <= j < |DIRECTIONS| && InBounds(rows, cols, Shift(first, j)) && q == Shift(first, j);
        ShiftIsAdjacent(first, j, j);
      }
    }
  }

  // ---------------------------------------------------------------------
  // Scattering the mines.

  /** The distinct draws that would become mines: not yet a mine and outside the safe zone. */
  ghost function UsableDraws(mines: set<Pos>, zone: set<Pos>, draws: seq<Pos>): set<Pos> {
    set i | 0 <= i < |draws| && draws[i] !in mines && draws[i] !in zone :: draws[i]
  }

  lemma UsableCons(mines: set<Pos>, zone: set<Pos>, draws: seq<Pos>)
    requires |draws| > 0
    ensures UsableDraws(mines, zone, draws) ==
            (if draws[0] in mines || draws[0] in zone then {} else {draws[0]}) + UsableDraws(mines, zone, draws[1..])
    ensures UsableDraws(mines + {draws[0]}, zone, draws[1..]) == UsableDraws(mines, zone, draws[1..]) - {draws[0]}
  {
    var rest := draws[1..];
    forall p | p in UsableDraws(mines, zone, draws)
      ensures p in (if draws[0] in mines || draws[0] in zone then {} else {draws[0]}) + UsableDraws(mines, zone, rest)
    {
      var i :| 0 <= i < |draws| && draws[i] !in mines && draws[i] !in zone && p == draws[i];
      if i > 0 {
        assert rest[i - 1] == p;
      }
    }
    forall p | p in UsableDraws(mines, zone, rest) ensures p in UsableDraws(mines, zone, draws) {
      var i :| 0 <= i < |rest| && rest[i] !in mines && rest[i] !in zone && p == rest[i];
      assert draws[i + 1] == p;
    }
  }

  /** A draw that is rejected leaves the usable draws as they were. */
  lemma UsableSkip(mines: set<Pos>, zone: set<Pos>, draws: seq<Pos>)
    requires |draws| > 0 && (draws[0] in mines || draws[0] in zone)
    ensures UsableDraws(mines, zone, draws) == UsableDraws(mines, zone, draws[1..])
  {
    UsableCons(mines, zone, draws);
  }

  /** A draw that becomes a mine uses up exactly one usable draw. */
  lemma UsableTake(mines: set<Pos>, zone: set<Pos>, draws: seq<Pos>)
    requires |draws| > 0 && draws[0] !in mines && draws[0] !in zone
    ensures |UsableDraws(mines + {draws[0]}, zone, draws[1..])| == |UsableDraws(mines, zone, draws)| - 1
  {
    UsableCons(mines, zone, draws);
    var d, rest := draws[0], UsableDraws(mines, zone, draws[1..]);
    assert ({d} + rest) - {d} == rest - {d};
  }

  /**
    The mines the `while (minesPlaced < mines)` loop ends with, starting from
    `mines`: it takes the draws in order, skips one that is already a mine or
    lies in the safe zone, and turns the others into mines until `need`
    more have been placed.
  */
  ghost function Scatter(mines: set<Pos>, zone: set<Pos>, draws: seq<Pos>, need: int): set<Pos>
    decreases |draws|
  {
    if need <= 0 || draws == [] then mines
    else if draws[0] in mines || draws[0] in zone then Scatter(mines, zone, draws[1..], need)
    else Scatter(mines + {draws[0]}, zone, draws[1..], need - 1)
  }

  /**
    With enough usable draws, the loop places exactly `need` new mines
    (none when `need` is not positive), each of them one of the draws and
    none of them in the safe zone; the mines there already stay.
  */
  lemma {:induction false} ScatterPlaces(mines: set<Pos>, zone: set<Pos>, draws: seq<Pos>, need: int)
    requires need <= |UsableDraws(mines, zone, draws)|
    ensures mines <= Scatter(mines, zone, draws, need)
    ensures |Scatter(mines, zone, draws, need)| == |mines| + (if need < 0 then 0 else need)
    ensures Scatter(mines, zone, draws, need) - mines !! zone
    ensures forall p :: p in Scatter(mines, zone, draws, need) - mines ==> p in draws
    decreases |draws|
  {
    if need > 0 && draws != [] {
      var d, rest := draws[0], draws[1..];
      if d in mines || d in zone {
        UsableSkip(mines, zone, draws);
        ScatterPlaces(mines, zone, rest, need);
      } else {
        UsableTake(mines, zone, draws);
        ScatterPlaces(mines + {d}, zone, rest, need - 1);
        forall p | p in Scatter(mines, zone, draws, need) - mines ensures p in draws {
          if p != d {
            assert p in Scatter(mines + {d}, zone, rest, need - 1) - (mines + {d});
            var i :| 0 <= i < |rest| && rest[i] == p;
            assert draws[i + 1] == p;
          }
        }
      }
    }
  }

  /** The board `b` with the cells of `mines` turned into mines. */
  ghost function WithMines(b: Board, mines: set<Pos>): (nb: Board)
    ensures nb.Keys == b.Keys
  {
    map p | p in b :: if p in mines then b[p].(isMine := true) else b[p]
  }

  lemma WithMinesStep(b: Board, mines: set<Pos>, d: Pos)
    requires d in b
    ensures WithMines(b, mines)[d := WithMines(b, mines)[d].(isMine := true)] == WithMines(b, mines + {d})
  {
  }

  lemma MinesOfWithMines(b: Board, mines: set<Pos>)
    requires Mines(b) <= mines <= b.Keys
    ensures Mines(WithMines(b, mines)) == mines
  {
  }

  /** A round of the placement loop that rejects its draw. */
  lemma ScatterSkip(mines: set<Pos>, zone: set<Pos>, draws: seq<Pos>, need: int)
    requires |draws| > 0 && need > 0
    requires draws[0] in mines || draws[0] in zone
    ensures Scatter(mines, zone, draws, need) == Scatter(mines, zone, draws[1..], need)
    ensures UsableDraws(mines, zone, draws) == UsableDraws(mines, zone, draws[1..])
  {
    UsableSkip(mines, zone, draws);
  }

  /** A round of the placement loop that turns its draw into a mine. */
  lemma ScatterTake(mines: set<Pos>, zone: set<Pos>, draws: seq<Pos>, need: int)
    requires |draws| > 0 && need > 0
    requires draws[0] !in mines && draws[0] !in zone
    ensures Scatter(mines, zone, draws, need) == Scatter(mines + {draws[0]}, zone, draws[1..], need - 1)
    ensures |UsableDraws(mines + {draws[0]}, zone, draws[1..])| == |UsableDraws(mines, zone, draws)| - 1
  {
    UsableTake(mines, zone, draws);
  }

  /** `grid[r][c].isMine = true`, on a grid whose mines so far are `mines`. */
  method AddMine(g: array2<Cell>, r: int, c: int, ghost b: Board, ghost mines: set<Pos>)
    requires (r, c) in b
    requires BoardOf(g) == WithMines(b, mines)
    modifies g
    ensures BoardOf(g) == WithMines(b, mines + {(r, c)})
  {
    ghost var before := BoardOf(g);
    WithMinesStep(b, mines, (r, c));
    g[r, c] := g[r, c].(isMine := true);
    assert BoardOf(g) == before[(r, c) := before[(r, c)].(isMine := true)];
  }

  /**
    The loop at `while (minesPlaced < mines)`: each round reads the next
    draw, skips it when it is a mine already or lies in the safe zone, and
    otherwise turns it into a mine.
  */
  method ScatterMines(g: array2<Cell>, mines: int, zone: set<Pos>, draws: seq<Pos>)
    requires forall i :: 0 <= i < |draws| ==> InBounds(g.Length0, g.Length1, draws[i])
    requires mines <= |UsableDraws(Mines(BoardOf(g)), zone, draws)|
    modifies g
    ensures BoardOf(g) == WithMines(old(BoardOf(g)), Scatter(Mines(old(BoardOf(g))), zone, draws, mines))
  {
    ghost var b := BoardOf(g);
    ghost var m := Mines(b);
    var minesPlaced := 0;
    var i := 0;
    assert BoardOf(g) == WithMines(b, m);
    while minesPlaced < mines
      invariant 0 <= i <= |draws|
      invariant Mines(b) <= m <= b.Keys
      invariant BoardOf(g) == WithMines(b, m)
      invariant mines - minesPlaced <= |UsableDraws(m, zone, draws[i..])|
      invariant Scatter(m, zone, draws[i..], mines - minesPlaced) == Scatter(Mines(b), zone, draws, mines)
      decreases |draws| - i
    {
      var r, c := draws[i].0, draws[i].1;
      ghost var rest := draws[i..];
      assert rest[0] == (r, c) && rest[1..] == draws[i + 1..];
      MinesOfWithMines(b, m);
      assert g[r, c] == BoardOf(g)[(r, c)];
      assert g[r, c].isMine <==> (r, c) in m;
      i := i + 1;
      if g[r, c].isMine || (r, c) in zone {
        ScatterSkip(m, zone, rest, mines - minesPlaced);
        continue;
      }
      ScatterTake(m, zone, rest, mines - minesPlaced);
      AddMine(g, r, c, b, m);
      m := m + {(r, c)};
      minesPlaced := minesPlaced + 1;
    }
    assert Scatter(m, zone, draws[i..], mines - minesPlaced) == m;
  }

  // ---------------------------------------------------------------------
  // Numbering the safe cells.

  /** What the numbering pass writes at `p`: a mine is skipped, a safe cell gets its count of neighbouring mines. */
  ghost function NumberedCell(b: Board, p: Pos): Cell
    requires p in b
  {
    if b[p].isMine then b[p] else b[p].(neighborCount := |MooreMines(Mines(b), p)|)
  }

  /** The board after the numbering pass. */
  ghost function Numbered(b: Board): (nb: Board)
    ensures nb.Keys == b.Keys
  {
    map p | p in b :: NumberedCell(b, p)
  }

  /** The board once the numbering pass has dealt with every cell before `q`. */
  ghost function NumberedBefore(b: Board, q: Pos): (nb: Board)
    ensures nb.Keys == b.Keys
  {
    map p | p in b :: if Before(p, q) then NumberedCell(b, p) else b[p]
  }

  lemma NumberedBeforeKeepsMines(b: Board, q: Pos)
    ensures Mines(NumberedBefore(b, q)) == Mines(b)
  {
  }

  lemma NumberedStep(b: Board, q: Pos)
    requires q in b
    ensures NumberedBefore(b, q)[q := NumberedCell(b, q)] == NumberedBefore(b, (q.0, q.1 + 1))
  {
  }

  lemma NumberedRowEnd(b: Board, rows: int, cols: int, r: int)
    requires b.Keys == Cells(rows, cols)
    ensures NumberedBefore(b, (r, cols)) == NumberedBefore(b, (r + 1, 0))
  {
  }

  lemma NumberedLastRow(b: Board, rows: int, cols: int)
    requires b.Keys == Cells(rows, cols)
    ensures NumberedBefore(b, (rows, 0)) == Numbered(b)
  {
  }

  /** Counts the mines among the in-bounds neighbours of (r, c), as the `DIRECTIONS.forEach` of the numbering pass does. */
  method CountAdjacentMines(g: array2<Cell>, r: int, c: int) returns (count: int)
    ensures count == |MooreMines(Mines(BoardOf(g)), (r, c))|
  {
    ghost var mines := Mines(BoardOf(g));
    count := 0;
    for k := 0 to |DIRECTIONS|
      invariant count == CountAround(mines, (r, c), k)
    {
      var next := Shift((r, c), k);
      var nr, nc := next.0, next.1;
      if nr >= 0 && nr < g.Length0 && nc >= 0 && nc < g.Length1 && g[nr, nc].isMine {
        assert next in BoardOf(g);
        count := count + 1;
      } else {
        assert next !in mines;
      }
    }
    CountAroundIsMooreMines(mines, (r, c));
  }

  /** One round of the inner numbering loop: a safe cell at (r, c) gets its count, a mine is skipped. */
  method NumberCell(g: array2<Cell>, r: int, c: int, ghost b: Board)
    requires InBounds(g.Length0, g.Length1, (r, c))
    requires BoardOf(g) == NumberedBefore(b, (r, c))
    modifies g
    ensures BoardOf(g) == NumberedBefore(b, (r, c + 1))
  {
    ghost var before := BoardOf(g);
    NumberedStep(b, (r, c));
    if !g[r, c].isMine {
      NumberedBeforeKeepsMines(b, (r, c));
      var count := CountAdjacentMines(g, r, c);
      g[r, c] := g[r, c].(neighborCount := count);
      assert BoardOf(g) == before[(r, c) := NumberedCell(b, (r, c))];
    }
  }

  /** The inner `for` loop of the numbering pass, over row `r`. */
  method NumberRow(g: array2<Cell>, r: int, ghost b: Board)
    requires 0 <= r < g.Length0
    requires BoardOf(g) == NumberedBefore(b, (r, 0))
    modifies g
    ensures BoardOf(g) == NumberedBefore(b, (r + 1, 0))
  {
    for c := 0 to g.Length1
      invariant BoardOf(g) == NumberedBefore(b, (r, c))
    {
      NumberCell(g, r, c, b);
    }
    NumberedRowEnd(b, g.Length0, g.Length1, r);
  }

  /** The nested `for` loops that give every safe cell its neighbour count, row by row. */
  method NumberCells(g: array2<Cell>)
    modifies g
    ensures BoardOf(g) == Numbered(old(BoardOf(g)))
  {
    ghost var b := BoardOf(g);
    assert BoardOf(g) == NumberedBefore(b, (0, 0));
    for r := 0 to g.Length0
      invariant BoardOf(g) == NumberedBefore(b, (r, 0))
    {
      NumberRow(g, r, b);
    }
    NumberedLastRow(b, g.Length0, g.Length1);
  }

  // ---------------------------------------------------------------------
  // The whole placement.

  /** The board `placeMines` leaves behind, given the draws of the random source. */
  ghost function Placed(b: Board, rows: int, cols: int, mines: int, first: Pos, draws: seq<Pos>): Board {
    Numbered(WithMines(b, Scatter(Mines(b), SafeZone(rows, cols, first), draws, mines)))
  }

  /**
    `placeMines(grid, mines, firstClick)`. The grid must have a row (the
    source reads `grid[0].length`), and the random source must eventually
    produce `mines` distinct cells outside the safe zone that are not mines
    yet; otherwise the source loops forever.
  */
  method PlaceMines(g: array2<Cell>, mines: int, first: Pos, draws: seq<Pos>)
    requires g.Length0 > 0
    requires forall i :: 0 <= i < |draws| ==> InBounds(g.Length0, g.Length1, draws[i])
    requires mines <= |UsableDraws(Mines(BoardOf(g)), SafeZone(g.Length0, g.Length1, first), draws)|
    modifies g
    ensures BoardOf(g) == Placed(old(BoardOf(g)), g.Length0, g.Length1, mines, first, draws)
  {
    var rows := g.Length0;
    var cols := g.Length1;
    var zone := SafeZoneOf(rows, cols, first);
    ScatterMines(g, mines, zone, draws);
    NumberCells(g);
  }

  /**
    What `placeMines` promises: only `isMine` and `neighborCount` change;
    exactly `mines` cells that were not mines become mines (none when `mines`
    is not positive), each of them drawn and none of them in the safe zone;
    every safe cell's count is exact, hence at most 8; and a mine keeps the
    count it had.
  */
  lemma PlacementSpec(b: Board, rows: int, cols: int, mines: int, first: Pos, draws: seq<Pos>)
    requires b.Keys == Cells(rows, cols)
    requires forall i :: 0 <= i < |draws| ==> InBounds(rows, cols, draws[i])
    requires mines <= |UsableDraws(Mines(b), SafeZone(rows, cols, first), draws)|
    ensures var nb := Placed(b, rows, cols, mines, first, draws);
      nb.Keys == b.Keys &&
      (forall p :: p in b ==> nb[p].isOpen == b[p].isOpen && nb[p].isFlagged == b[p].isFlagged &&
                              nb[p].row == b[p].row && nb[p].col == b[p].col) &&
      Mines(b) <= Mines(nb) &&
      |Mines(nb)| == |Mines(b)| + (if mines < 0 then 0 else mines) &&
      Mines(nb) - Mines(b) !! SafeZone(rows, cols, first) &&
      (forall p :: p in Mines(nb) - Mines(b) ==> p in draws) &&
      CountsExact(nb) &&
      (forall p :: p in Safe(nb) ==> 0 <= nb[p].neighborCount <= 8) &&
      (forall p :: p in Mines(nb) ==> nb[p].neighborCount == b[p].neighborCount)
  {
    var zone := SafeZone(rows, cols, first);
    var m := Scatter(Mines(b), zone, draws, mines);
    ScatterPlaces(Mines(b), zone, draws, mines);
    assert m <= b.Keys by {
      forall p | p in m ensures p in b {
        if p !in Mines(b) {
          assert p in m - Mines(b);
          var i :| 0 <= i < |draws| && draws[i] == p;
        }
      }
    }
    var wb := WithMines(b, m);
    MinesOfWithMines(b, m);
    var nb := Numbered(wb);
    assert Mines(nb) == m;
    forall p | p in Safe(nb) ensures 0 <= nb[p].neighborCount <= 8 {
      CountAroundIsMooreMines(m, p);
    }
  }
}
