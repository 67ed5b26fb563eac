/**
  The cascade engine (`revealCell`): opens a cell in place and, from a safe
  cell with no neighbouring mine, cascades recursively to its eight
  neighbours. `Reveal` is the same recursion on board values; `RevealCell`
  performs it on the grid and is proved to leave the grid equal to `Reveal`
  of the old contents. The lemmas prove what `Reveal` opens: exactly the
  cells a zero path over the entry board's closed, unflagged cells leads to
  from the target.
*/
module RevealCascade {
  import opened Grid
  import opened ZeroPaths

  /** Every cell opened so far is reached from the target `s`. */
  ghost predicate CascadeSound(zeros: set<Pos>, allowed: set<Pos>, s: Pos, before: set<Pos>, now: set<Pos>) {
    forall p :: p in now - before ==> Reaches(zeros, allowed, s, p)
  }

  /** Every opened zero cell other than `s` already has its allowed neighbours open. */
  ghost predicate CascadeClosedExceptStart(zeros: set<Pos>, allowed: set<Pos>, s: Pos, before: set<Pos>, now: set<Pos>) {
    forall z, q :: z in now - before && z != s && z in zeros && Adjacent(z, q) && q in allowed ==> q in now
  }

  /** One round of the cascade, revealing the neighbour `q` of `s`, keeps every opened cell reached from `s`. */
  lemma SoundStep(zeros: set<Pos>, allowed: set<Pos>, s: Pos, q: Pos, before: set<Pos>, mid: set<Pos>, after: set<Pos>, cand: set<Pos>)
    requires s in zeros && s in allowed && Adjacent(s, q)
    requires cand <= allowed
    requires CascadeSound(zeros, allowed, s, before, mid)
    requires forall p :: p in after - mid ==> Reaches(zeros, cand, q, p)
    ensures CascadeSound(zeros, allowed, s, before, after)
  {
    forall p | p in after - before ensures Reaches(zeros, allowed, s, p) {
      if p !in mid {
        ReachesMono(zeros, cand, allowed, q, p);
        ReachesPrepend(zeros, allowed, s, q, p);
      }
    }
  }

  /**
    One round of the cascade, revealing the neighbour `q` of `s` in direction
    `k - 1` over the candidates `allowed - mid`, keeps the opened zero cells
    closed under spreading and opens `q` when it is allowed.
  */
  lemma CompleteStep(zeros: set<Pos>, allowed: set<Pos>, s: Pos, k: int, before: set<Pos>, mid: set<Pos>, after: set<Pos>)
    requires 0 < k <= |DIRECTIONS|
    requires mid <= after
    requires CascadeClosedExceptStart(zeros, allowed, s, before, mid)
    requires forall j :: 0 <= j < k - 1 && Shift(s, j) in allowed ==> Shift(s, j) in mid
    requires forall p :: p in after - mid ==> Reaches(zeros, allowed - mid, Shift(s, k - 1), p)
    requires forall p :: Reaches(zeros, allowed - mid, Shift(s, k - 1), p) ==> p in after
    ensures CascadeClosedExceptStart(zeros, allowed, s, before, after)
    ensures forall j :: 0 <= j < k && Shift(s, j) in allowed ==> Shift(s, j) in after
  {
    var q := Shift(s, k - 1);
    forall z, q' | z in after - before && z != s && z in zeros && Adjacent(z, q') && q' in allowed
      ensures q' in after
    {
      if z !in mid && q' !in mid {
        assert z in after - mid;
        ReachesStep(zeros, allowed - mid, q, z, q');
      }
    }
    if q in allowed && q !in mid {
      ReachesSelf(zeros, allowed - mid, q);
    }
  }

  /** Once the target's allowed neighbours are open too, every cell reached from it is open. */
  lemma CascadeComplete(zeros: set<Pos>, allowed: set<Pos>, s: Pos, before: set<Pos>, now: set<Pos>)
    requires s in now - before
    requires allowed !! before
    requires CascadeClosedExceptStart(zeros, allowed, s, before, now)
    requires forall q :: Adjacent(s, q) && q in allowed ==> q in now
    ensures forall p :: Reaches(zeros, allowed, s, p) ==> p in now
  {
    assert ClosedUnderSpread(zeros, allowed, now - before);
    forall p | Reaches(zeros, allowed, s, p) ensures p in now {
      ClosedRegionHoldsReach(zeros, allowed, now - before, s, p);
    }
  }

  /** The result of `revealCell`: the board after the call and the two flags it returns. */
  datatype Outcome = Outcome(board: Board, gameOver: bool, win: bool)

  /** `after` differs from `before` at most in `isOpen`, and only from closed to open. */
  ghost predicate OnlyOpens(before: Board, after: Board) {
    after.Keys == before.Keys &&
    forall p :: p in before ==>
      after[p] == before[p].(isOpen := after[p].isOpen) && (before[p].isOpen ==> after[p].isOpen)
  }

  lemma OnlyOpensShrinksClosed(before: Board, after: Board)
    requires OnlyOpens(before, after)
    ensures Opened(before) <= Opened(after) && Closed(after) <= Closed(before)
    ensures |Closed(after)| <= |Closed(before)|
  {
    SubsetCard(Closed(after), Closed(before));
  }

  /** Opening one closed cell leaves one closed cell fewer. */
  lemma OpenOneShrinksClosed(b: Board, p: Pos)
    requires p in b && !b[p].isOpen
    ensures Opened(b[p := b[p].(isOpen := true)]) == Opened(b) + {p}
    ensures Closed(b[p := b[p].(isOpen := true)]) < Closed(b)
    ensures |Closed(b[p := b[p].(isOpen := true)])| < |Closed(b)|
  {
    var b1 := b[p := b[p].(isOpen := true)];
    assert Closed(b) == Closed(b1) + {p};
  }

  /** Only `isOpen` changes, so the mines, flags and counts stay as they were. */
  lemma OnlyOpensKeepsViews(before: Board, after: Board)
    requires OnlyOpens(before, after)
    ensures Mines(after) == Mines(before) && Flagged(after) == Flagged(before)
    ensures Zeros(after) == Zeros(before) && Blanks(after) == Blanks(before)
    ensures Candidates(after) == Candidates(before) - Opened(after)
  {
  }

  /**
    `revealCell(grid, p.0, p.1)` on board values. An open or flagged target
    is left alone; a mine is opened on its own and ends the game; a safe cell
    is opened and, when its count is 0, its in-bounds neighbours are revealed
    in `DIRECTIONS` order. The closed cells only ever shrink, which is what
    makes the recursion terminate.
  */
  ghost function Reveal(b: Board, p: Pos): (out: Outcome)
    requires p in b
    ensures out.board.Keys == b.Keys
    ensures Closed(out.board) <= Closed(b) && |Closed(out.board)| <= |Closed(b)|
    decreases |Closed(b)|, 1, 0
  {
    var cell := b[p];
    if cell.isOpen || cell.isFlagged then Outcome(b, false, false)
    else
      var b1 := b[p := cell.(isOpen := true)];
      OpenOneShrinksClosed(b, p);
      if cell.isMine then Outcome(b1, true, false)
      else if cell.neighborCount == 0 then
        var spread := Spread(b1, p, |DIRECTIONS|);
        SubsetCard(Closed(spread), Closed(b));
        Outcome(spread, false, false)
      else Outcome(b1, false, false)
  }

  /** Reveals, one after the other, the in-bounds neighbours of `s` in the first `k` directions. */
  ghost function Spread(b: Board, s: Pos, k: int): (after: Board)
    requires 0 <= k <= |DIRECTIONS|
    ensures after.Keys == b.Keys
    ensures Closed(after) <= Closed(b) && |Closed(after)| <= |Closed(b)|
    decreases |Closed(b)|, 2, k
  {
    if k == 0 then b
    else
      var prev := Spread(b, s, k - 1);
      var q := Shift(s, k - 1);
      if q in prev then
        var after := Reveal(prev, q).board;
        SubsetCard(Closed(after), Closed(b));
        after
      else prev
  }

  // ---------------------------------------------------------------------
  // What a reveal changes.

  /** A reveal changes nothing but `isOpen`, and only from closed to open. */
  lemma {:induction false} RevealOnlyOpens(b: Board, p: Pos)
    requires p in b
    ensures OnlyOpens(b, Reveal(b, p).board)
    decreases |Closed(b)|, 1, 0
  {
    var cell := b[p];
    if !cell.isOpen && !cell.isFlagged && !cell.isMine && cell.neighborCount == 0 {
      var b1 := b[p := cell.(isOpen := true)];
      OpenOneShrinksClosed(b, p);
      SpreadOnlyOpens(b1, p, |DIRECTIONS|);
    }
  }

  lemma {:induction false} SpreadOnlyOpens(b: Board, s: Pos, k: int)
    requires 0 <= k <= |DIRECTIONS|
    ensures OnlyOpens(b, Spread(b, s, k))
    decreases |Closed(b)|, 2, k
  {
    if k > 0 {
      SpreadOnlyOpens(b, s, k - 1);
      var prev := Spread(b, s, k - 1);
      if Shift(s, k - 1) in prev {
        RevealOnlyOpens(prev, Shift(s, k - 1));
      }
    }
  }

  /** Only `isOpen` changes, so the mines, flags and counts stay as they were and nothing is closed. */
  ghost predicate KeepsAllButOpen(before: Board, after: Board) {
    after.Keys == before.Keys &&
    Mines(after) == Mines(before) && Flagged(after) == Flagged(before) &&
    Zeros(after) == Zeros(before) && Blanks(after) == Blanks(before) &&
    Opened(before) <= Opened(after) &&
    Candidates(after) == Candidates(before) - Opened(after)
  }

  lemma RevealKeeps(b: Board, p: Pos)
    requires p in b
    ensures KeepsAllButOpen(b, Reveal(b, p).board)
  {
    RevealOnlyOpens(b, p);
    OnlyOpensKeepsViews(b, Reveal(b, p).board);
    OnlyOpensShrinksClosed(b, Reveal(b, p).board);
  }

  lemma SpreadKeeps(b: Board, s: Pos, k: int)
    requires 0 <= k <= |DIRECTIONS|
    ensures KeepsAllButOpen(b, Spread(b, s, k))
  {
    SpreadOnlyOpens(b, s, k);
    OnlyOpensKeepsViews(b, Spread(b, s, k));
    OnlyOpensShrinksClosed(b, Spread(b, s, k));
  }

  // ---------------------------------------------------------------------
  // What a reveal opens.

  /** The candidates left once `now` is open are the cells of `allowed` not yet open. */
  lemma RemainingCandidates(b: Board, before: set<Pos>, allowed: set<Pos>, later: Board)
    requires allowed == b.Keys - before - Flagged(b)
    requires before <= Opened(b)
    requires KeepsAllButOpen(b, later)
    ensures Candidates(later) == allowed - Opened(later)
  {
  }

  /** Every cell a reveal opens is reached from the target. */
  lemma {:induction false} RevealSound(b: Board, p: Pos)
    requires p in b
    ensures forall q :: q in Opened(Reveal(b, p).board) - Opened(b) ==> Reaches(Zeros(b), Candidates(b), p, q)
    decreases |Closed(b)|, 1, 0
  {
    var cell := b[p];
    if !cell.isOpen && !cell.isFlagged {
      var b1 := b[p := cell.(isOpen := true)];
      OpenOneShrinksClosed(b, p);
      ReachesSelf(Zeros(b), Candidates(b), p);
      if !cell.isMine && cell.neighborCount == 0 {
        assert OnlyOpens(b, b1);
        OnlyOpensKeepsViews(b, b1);
        SpreadSound(b1, p, |DIRECTIONS|, Opened(b), Candidates(b));
      }
    }
  }

  /**
    The first `k` rounds of the cascade from the open zero cell `s`, whose
    call began with the open cells `before` and the candidates `allowed`,
    open only cells reached from `s`.
  */
  lemma {:induction false} SpreadSound(b: Board, s: Pos, k: int, before: set<Pos>, allowed: set<Pos>)
    requires 0 <= k <= |DIRECTIONS|
    requires s in Zeros(b) && s in allowed
    requires before <= Opened(b)
    requires allowed == b.Keys - before - Flagged(b)
    requires CascadeSound(Zeros(b), allowed, s, before, Opened(b))
    ensures CascadeSound(Zeros(b), allowed, s, before, Opened(Spread(b, s, k)))
    decreases |Closed(b)|, 2, k
  {
    if k > 0 {
      SpreadSound(b, s, k - 1, before, allowed);
      var prev := Spread(b, s, k - 1);
      var q := Shift(s, k - 1);
      if q in prev {
        SpreadKeeps(b, s, k - 1);
        RemainingCandidates(b, before, allowed, prev);
        RevealSound(prev, q);
        ShiftIsAdjacent(s, k - 1, k - 1);
        SoundStep(Zeros(b), allowed, s, q, before, Opened(prev), Opened(Reveal(prev, q).board), Candidates(prev));
      }
    }
  }

  /** Every cell reached from the target is open after the reveal. */
  lemma {:induction false} RevealComplete(b: Board, p: Pos)
    requires p in b
    ensures forall q :: Reaches(Zeros(b), Candidates(b), p, q) ==> q in Opened(Reveal(b, p).board)
    decreases |Closed(b)|, 1, 0
  {
    var cell := b[p];
    var zeros, allowed := Zeros(b), Candidates(b);
    if cell.isOpen || cell.isFlagged {
      forall q ensures Reaches(zeros, allowed, p, q) ==> q in Opened(b) {
        ReachesEnds(zeros, allowed, p, q);
      }
    } else {
      var b1 := b[p := cell.(isOpen := true)];
      OpenOneShrinksClosed(b, p);
      if cell.isMine || cell.neighborCount != 0 {
        forall q ensures Reaches(zeros, allowed, p, q) ==> q in Opened(b1) {
          ReachesFromNonZero(zeros, allowed, p, q);
        }
      } else {
        assert OnlyOpens(b, b1);
        OnlyOpensKeepsViews(b, b1);
        var after := Spread(b1, p, |DIRECTIONS|);
        SpreadComplete(b1, p, |DIRECTIONS|, Opened(b), allowed);
        SpreadKeeps(b1, p, |DIRECTIONS|);
        forall q | Adjacent(p, q) && q in allowed ensures q in Opened(after) {
          var j := AdjacentIsShift(p, q);
        }
        CascadeComplete(zeros, allowed, p, Opened(b), Opened(after));
      }
    }
  }

  /**
    The first `k` rounds of the cascade from the open zero cell `s` keep the
    opened zero cells other than `s` closed under spreading, and open every
    allowed neighbour of `s` they visit.
  */
  lemma {:induction false} SpreadComplete(b: Board, s: Pos, k: int, before: set<Pos>, allowed: set<Pos>)
    requires 0 <= k <= |DIRECTIONS|
    requires before <= Opened(b)
    requires allowed == b.Keys - before - Flagged(b)
    requires CascadeClosedExceptStart(Zeros(b), allowed, s, before, Opened(b))
    ensures CascadeClosedExceptStart(Zeros(b), allowed, s, before, Opened(Spread(b, s, k)))
    ensures forall j :: 0 <= j < k && Shift(s, j) in allowed ==> Shift(s, j) in Opened(Spread(b, s, k))
    decreases |Closed(b)|, 2, k
  {
    if k > 0 {
      SpreadComplete(b, s, k - 1, before, allowed);
      var prev := Spread(b, s, k - 1);
      var q := Shift(s, k - 1);
      if q in prev {
        SpreadKeeps(b, s, k - 1);
        RemainingCandidates(b, before, allowed, prev);
        var after := Reveal(prev, q).board;
        RevealSound(prev, q);
        RevealComplete(prev, q);
        RevealKeeps(prev, q);
        CompleteStep(Zeros(b), allowed, s, k, before, Opened(prev), Opened(after));
      } else {
        assert q !in allowed;
      }
    }
  }

  /**
    The cells one call opens are exactly those a zero path over the entry
    board's closed, unflagged cells leads to from the target.
  */
  lemma RevealReaches(b: Board, p: Pos)
    requires p in b
    ensures forall q :: q in Opened(Reveal(b, p).board) - Opened(b) <==> Reaches(Zeros(b), Candidates(b), p, q)
  {
    RevealSound(b, p);
    RevealComplete(b, p);
    forall q ensures Reaches(Zeros(b), Candidates(b), p, q) ==> q !in Opened(b) {
      ReachesEnds(Zeros(b), Candidates(b), p, q);
    }
  }

  /**
    The flags `revealCell` returns: `win` is never set; `gameOver` is set
    exactly when a closed, unflagged mine is revealed, which is then opened
    on its own; an open or flagged target leaves the board as it is.
  */
  lemma RevealFlags(b: Board, p: Pos)
    requires p in b
    ensures !Reveal(b, p).win
    ensures Reveal(b, p).gameOver <==> !b[p].isOpen && !b[p].isFlagged && b[p].isMine
    ensures b[p].isOpen || b[p].isFlagged ==> Reveal(b, p).board == b
    ensures Reveal(b, p).gameOver ==> Reveal(b, p).board == b[p := b[p].(isOpen := true)]
  {
  }

  /**
    A call of `revealCell` never closes a cell and never changes `isMine`, `isFlagged`,
    `neighborCount`, `row` or `col`; an unflagged target ends up open.
  */
  lemma RevealPreserves(b: Board, p: Pos)
    requires p in b
    ensures var after := Reveal(b, p).board;
      after.Keys == b.Keys &&
      (forall q :: q in b ==> after[q].isMine == b[q].isMine && after[q].isFlagged == b[q].isFlagged &&
                              after[q].neighborCount == b[q].neighborCount &&
                              after[q].row == b[q].row && after[q].col == b[q].col) &&
      Opened(b) <= Opened(after) &&
      (!b[p].isFlagged ==> after[p].isOpen)
  {
    RevealOnlyOpens(b, p);
    var after := Reveal(b, p).board;
    var cell := b[p];
    if !cell.isOpen && !cell.isFlagged && !cell.isMine && cell.neighborCount == 0 {
      var b1 := b[p := cell.(isOpen := true)];
      SpreadOnlyOpens(b1, p, |DIRECTIONS|);
      assert b1[p].isOpen;
    }
  }

  /** On a board whose counts are exact, revealing a safe cell opens no mine. */
  lemma RevealOpensNoMine(b: Board, p: Pos)
    requires p in b && !b[p].isMine
    requires CountsExact(b)
    ensures Mines(Reveal(b, p).board) * Opened(Reveal(b, p).board) == Mines(b) * Opened(b)
  {
    var after := Reveal(b, p).board;
    ExactCountsMakeZerosMineFree(b);
    RevealReaches(b, p);
    RevealKeeps(b, p);
    forall q | q in Opened(after) - Opened(b) ensures q !in Mines(b) {
      ReachAvoidsMines(Zeros(b), Candidates(b), Mines(b), p, q);
    }
  }

  /** Revealing the same cell twice is the same as revealing it once: the second call changes nothing. */
  lemma RevealIdempotent(b: Board, p: Pos)
    requires p in b
    ensures Reveal(Reveal(b, p).board, p) == Outcome(Reveal(b, p).board, false, false)
  {
    RevealPreserves(b, p);
  }

  /** One more step of `Spread`. */
  lemma SpreadStep(b: Board, s: Pos, k: int)
    requires 0 <= k < |DIRECTIONS|
    ensures var prev := Spread(b, s, k);
      Spread(b, s, k + 1) == if Shift(s, k) in prev then Reveal(prev, Shift(s, k)).board else prev
  {
  }

  /**
    Opens (r, c) in place, as `revealCell` does, returning its `gameOver`
    and `win` flags: the grid ends up holding `Reveal` of its old contents.
  */
  method RevealCell(g: array2<Cell>, r: int, c: int) returns (gameOver: bool, win: bool)
    requires InBounds(g.Length0, g.Length1, (r, c))
    modifies g
    ensures Outcome(BoardOf(g), gameOver, win) == Reveal(old(BoardOf(g)), (r, c))
    decreases |Closed(BoardOf(g))|, 2
  {
    ghost var b := BoardOf(g);
    var cell := g[r, c];
    if cell.isOpen || cell.isFlagged {
      return false, false;
    }
    if cell.isMine {
      g[r, c] := cell.(isOpen := true);
      assert BoardOf(g) == b[(r, c) := cell.(isOpen := true)];
      return true, false;
    }
    g[r, c] := cell.(isOpen := true);
    ghost var b1 := b[(r, c) := cell.(isOpen := true)];
    assert BoardOf(g) == b1;
    OpenOneShrinksClosed(b, (r, c));
    if cell.neighborCount == 0 {
      RevealAround(g, r, c, |Closed(b)|);
    }
    return false, false;
  }

  /**
    The cascade of `revealCell` from the safe zero cell (r, c): the
    `DIRECTIONS.forEach` that reveals each in-bounds neighbour in turn.
    `bound` exceeds the number of closed cells when it starts.
  */
  method RevealAround(g: array2<Cell>, r: int, c: int, ghost bound: int)
    requires |Closed(BoardOf(g))| < bound
    modifies g
    ensures BoardOf(g) == Spread(old(BoardOf(g)), (r, c), |DIRECTIONS|)
    decreases bound, 1
  {
    ghost var b := BoardOf(g);
    for k := 0 to |DIRECTIONS|
      invariant BoardOf(g) == Spread(b, (r, c), k)
    {
      SpreadStep(b, (r, c), k);
      RevealNeighbour(g, r, c, k, bound);
    }
  }

  /**
    One round of the cascade's `DIRECTIONS.forEach`: reveals the neighbour of
    (r, c) in direction `k` when it is in bounds. `bound` exceeds the number
    of closed cells when revealing (r, c) began.
  */
  method RevealNeighbour(g: array2<Cell>, r: int, c: int, k: int, ghost bound: int)
    requires 0 <= k < |DIRECTIONS|
    requires |Closed(BoardOf(g))| < bound
    modifies g
    ensures var q := Shift((r, c), k);
      BoardOf(g) == if q in old(BoardOf(g)) then Reveal(old(BoardOf(g)), q).board else old(BoardOf(g))
    decreases bound, 0
  {
    var next := Shift((r, c), k);
    var nr, nc := next.0, next.1;
    if 0 <= nr < g.Length0 && 0 <= nc < g.Length1 {
      var _, _ := RevealCell(g, nr, nc);
    }
  }
}
