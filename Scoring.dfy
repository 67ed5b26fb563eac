/**
  The 3BV score (`calculate3BV`): the least number of clicks that clears a
  board. Phase 1 scans the board in row-major order; every safe cell with
  count 0 that no earlier flood has marked starts a new opening, worth one
  click, and an explicit-stack flood fill marks everything that opening
  uncovers. Phase 2 adds one click for each safe cell no flood marked.

  The flood fill spreads from every marked cell whose recorded count is 0,
  mine or not (`Blanks`); it starts only on safe cells (`Zeros`).
*/
module Scoring {
  import opened Grid
  import opened ZeroPaths

  // ---------------------------------------------------------------------
  // The score as a value.

  /** The cells a flood fill started at `s` marks. */
  ghost function Flood(b: Board, s: Pos): set<Pos> {
    set p | p in b && Reaches(Blanks(b), b.Keys, s, p)
  }

  /** The zero cells that start an opening: no earlier zero cell reaches them. */
  ghost function Leaders(b: Board): set<Pos> {
    set z | z in Zeros(b) && forall w :: w in Zeros(b) && Before(w, z) ==> !Reaches(Blanks(b), b.Keys, w, z)
  }

  /** The openings found by the scan before it reaches `q`. */
  ghost function LeadersBefore(b: Board, q: Pos): set<Pos> {
    set z | z in Leaders(b) && Before(z, q)
  }

  /** The cells marked by the floods of all openings. */
  ghost function Openings(b: Board): set<Pos> {
    Covered(Blanks(b), b.Keys, Leaders(b))
  }

  /** One click per opening and one per safe cell outside every opening. */
  ghost function ThreeBV(b: Board): int {
    |Leaders(b)| + |Safe(b) - Openings(b)|
  }

  // ---------------------------------------------------------------------
  // Properties of the openings.

  /** Some element of a non-empty set of positions comes first in row-major order. */
  lemma {:induction false} Earliest(s: set<Pos>) returns (m: Pos)
    requires s != {}
    ensures m in s && forall x :: x in s ==> !Before(x, m)
    decreases |s|
  {
    var x :| x in s;
    if s == {x} {
      m := x;
    } else {
      var m' := Earliest(s - {x});
      if Before(x, m') {
        m := x;
        forall y | y in s ensures !Before(y, m) {
          if y != x {
            assert !Before(y, m');
          }
        }
      } else {
        m := m';
      }
    }
  }

  /**
    A zero cell that is not a leader is reached from an earlier leader: the
    earliest zero cell that reaches it is one.
  */
  lemma ReachedFromLeader(b: Board, z: Pos, w: Pos)
    requires z in Zeros(b) && w in Zeros(b) && Before(w, z)
    requires Reaches(Blanks(b), b.Keys, w, z)
    ensures z in Covered(Blanks(b), b.Keys, LeadersBefore(b, z))
  {
    var blanks, keys := Blanks(b), b.Keys;
    var reaching := set x | x in Zeros(b) && Reaches(blanks, keys, x, z);
    assert w in reaching;
    var m := Earliest(reaching);
    assert Before(m, z) by {
      assert !Before(w, m);
    }
    forall x | x in Zeros(b) && Before(x, m) ensures !Reaches(blanks, keys, x, m) {
      if Reaches(blanks, keys, x, m) {
        ReachesTransitive(blanks, keys, x, m, z);
      }
    }
    assert m in LeadersBefore(b, z);
  }

  /**
    The scan's test: a zero cell starts an opening exactly when no flood of an
    earlier opening has marked it.
  */
  lemma LeaderIffUnmarked(b: Board, z: Pos)
    requires z in Zeros(b)
    ensures z in Leaders(b) <==> z !in Covered(Blanks(b), b.Keys, LeadersBefore(b, z))
  {
    var blanks, keys := Blanks(b), b.Keys;
    if z !in Leaders(b) {
      var w :| w in Zeros(b) && Before(w, z) && Reaches(blanks, keys, w, z);
      ReachedFromLeader(b, z, w);
    }
  }

  /** Every zero cell lies in some opening. */
  lemma ZerosInOpenings(b: Board)
    ensures Zeros(b) <= Openings(b)
  {
    forall z | z in Zeros(b) ensures z in Openings(b) {
      if z in Leaders(b) {
        ReachesSelf(Blanks(b), b.Keys, z);
      } else {
        LeaderIffUnmarked(b, z);
        var l :| l in LeadersBefore(b, z) && Reaches(Blanks(b), b.Keys, l, z);
      }
    }
  }

  /** No opening reaches another one's leader: each zero region is counted once. */
  lemma LeadersSeparate(b: Board, l: Pos, m: Pos)
    requires l in Leaders(b) && m in Leaders(b) && l != m
    ensures !Reaches(Blanks(b), b.Keys, l, m)
  {
    if Reaches(Blanks(b), b.Keys, l, m) && Before(m, l) {
      ReachesSymmetric(Blanks(b), b.Keys, l, m);
    }
  }

  /** Every zero cell lies in the opening of exactly one leader. */
  lemma OneLeaderPerZero(b: Board, z: Pos, l: Pos, m: Pos)
    requires z in Zeros(b)
    requires l in Leaders(b) && Reaches(Blanks(b), b.Keys, l, z)
    requires m in Leaders(b) && Reaches(Blanks(b), b.Keys, m, z)
    ensures l == m
  {
    if l != m {
      ReachesSymmetric(Blanks(b), b.Keys, m, z);
      ReachesTransitive(Blanks(b), b.Keys, l, z, m);
      LeadersSeparate(b, l, m);
    }
  }

  /** The leaders are separate: no opening reaches another one's leader. */
  lemma LeadersAreSeparate(b: Board)
    ensures Separate(Blanks(b), b.Keys, Leaders(b))
  {
    forall l, m | l in Leaders(b) && m in Leaders(b) && l != m ensures !Reaches(Blanks(b), b.Keys, l, m) {
      LeadersSeparate(b, l, m);
    }
  }

  /**
    The openings do not depend on the order of the scan: they are the cells
    the flood fills from all zero cells mark, whatever order those run in.
  */
  lemma OpeningsOrderFree(b: Board)
    ensures Openings(b) == Covered(Blanks(b), b.Keys, Zeros(b))
  {
    var blanks, keys, zeros, leaders := Blanks(b), b.Keys, Zeros(b), Leaders(b);
    ZerosInOpenings(b);
    assert leaders <= zeros <= blanks;
    CoveredMono(blanks, keys, leaders, zeros);
    CoveredThrough(blanks, keys, leaders, zeros);
  }

  /**
    Nor does the number of openings: any separate set of zero cells whose
    floods together cover every zero cell has one member per opening, so
    the score is the same whichever such cells start the openings.
  */
  lemma OpeningCountOrderFree(b: Board, starts: set<Pos>)
    requires starts <= Zeros(b)
    requires Separate(Blanks(b), b.Keys, starts)
    requires Zeros(b) <= Covered(Blanks(b), b.Keys, starts)
    ensures |starts| == |Leaders(b)|
    ensures ThreeBV(b) == |starts| + |Safe(b) - Covered(Blanks(b), b.Keys, Zeros(b))|
  {
    var blanks, keys, zeros, leaders := Blanks(b), b.Keys, Zeros(b), Leaders(b);
    OpeningsOrderFree(b);
    ZerosInOpenings(b);
    LeadersAreSeparate(b);
    assert leaders <= zeros <= blanks;
    SeparateCoversSameSize(blanks, keys, starts, leaders);
  }

  /** A board whose safe cells are all reached from one zero cell is cleared in one click. */
  lemma SingleOpening(b: Board, z: Pos)
    requires z in Zeros(b)
    requires forall p :: p in Safe(b) ==> Reaches(Blanks(b), b.Keys, z, p)
    ensures ThreeBV(b) == 1
  {
    var blanks, keys, leaders, safe := Blanks(b), b.Keys, Leaders(b), Safe(b);
    ZerosInOpenings(b);
    LeadersAreSeparate(b);
    assert safe <= Covered(blanks, keys, {z}) by {
      forall p | p in safe ensures p in Covered(blanks, keys, {z}) {
        assert Reaches(blanks, keys, z, p);
      }
    }
    assert leaders <= safe;
    var l := OneStart(blanks, keys, leaders, z);
    CoveredThrough(blanks, keys, leaders, {z});
    assert safe - Openings(b) == {};
  }

  /** The flood of a set of starts is closed under spreading. */
  lemma CoveredIsClosed(zeros: set<Pos>, allowed: set<Pos>, starts: set<Pos>)
    ensures ClosedUnderSpread(zeros, allowed, Covered(zeros, allowed, starts))
  {
    forall z, q | z in Covered(zeros, allowed, starts) && z in zeros && Adjacent(z, q) && q in allowed
      ensures q in Covered(zeros, allowed, starts)
    {
      var s :| s in starts && Reaches(zeros, allowed, s, z);
      ReachesStep(zeros, allowed, s, z, q);
    }
  }

  /**
    The score lies between 0 and the number of safe cells, is at least 1 when
    there is a safe cell, and equals the number of safe cells when no safe
    cell has count 0.
  */
  lemma ThreeBVBounds(b: Board)
    ensures 0 <= ThreeBV(b) <= |Safe(b)|
    ensures Safe(b) != {} ==> ThreeBV(b) >= 1
    ensures Zeros(b) == {} ==> ThreeBV(b) == |Safe(b)|
  {
    var safe, open := Safe(b), Openings(b);
    forall l | l in Leaders(b) ensures l in safe * open {
      ReachesSelf(Blanks(b), b.Keys, l);
    }
    assert safe == (safe * open) + (safe - open);
    SubsetCard(Leaders(b), safe * open);
    if Zeros(b) == {} {
      assert Leaders(b) == {};
      assert open == {};
    } else {
      var z := Earliest(Zeros(b));
      assert z in Leaders(b);
    }
  }

  /** The score depends only on where the mines are and on the recorded counts. */
  lemma ThreeBVReadsMinesAndCounts(b: Board, b': Board)
    requires b.Keys == b'.Keys
    requires forall p :: p in b ==> b[p].isMine == b'[p].isMine && b[p].neighborCount == b'[p].neighborCount
    ensures ThreeBV(b) == ThreeBV(b')
  {
    assert Zeros(b) == Zeros(b') && Blanks(b) == Blanks(b') && Safe(b) == Safe(b');
    assert Leaders(b) == Leaders(b');
  }

  // ---------------------------------------------------------------------
  // The scans.

  /** The cells marked in `visited`. */
  ghost function Marked(visited: array2<bool>): (m: set<Pos>)
    reads visited
    ensures forall p :: p in m <==> InBounds(visited.Length0, visited.Length1, p) && visited[p.0, p.1]
  {
    set p | p in Cells(visited.Length0, visited.Length1) && visited[p.0, p.1]
  }

  /** `visited[current.r][current.c] = true`. */
  method Mark(visited: array2<bool>, p: Pos)
    requires InBounds(visited.Length0, visited.Length1, p)
    modifies visited
    ensures Marked(visited) == old(Marked(visited)) + {p}
  {
    visited[p.0, p.1] := true;
  }

  /**
    The `dr`/`dc` loops of the flood fill: pushes, in order, every in-bounds
    neighbour of `cur` that is not marked.
  */
  method PushNeighbours(visited: array2<bool>, stack: seq<Pos>, cur: Pos) returns (out: seq<Pos>)
    ensures |out| >= |stack| && out[..|stack|] == stack
    ensures forall i :: |stack| <= i < |out| ==>
              Adjacent(cur, out[i]) && InBounds(visited.Length0, visited.Length1, out[i]) && out[i] !in Marked(visited)
    ensures forall q :: Adjacent(cur, q) && InBounds(visited.Length0, visited.Length1, q) ==> q in Marked(visited) || q in out
  {
    out := stack;
    for dr := -1 to 2
      invariant |out| >= |stack| && out[..|stack|] == stack
      invariant forall i :: |stack| <= i < |out| ==>
                  Adjacent(cur, out[i]) && InBounds(visited.Length0, visited.Length1, out[i]) && out[i] !in Marked(visited)
      invariant forall q :: Adjacent(cur, q) && q.0 - cur.0 < dr && InBounds(visited.Length0, visited.Length1, q) ==>
                  q in Marked(visited) || q in out
    {
      for dc := -1 to 2
        invariant |out| >= |stack| && out[..|stack|] == stack
        invariant forall i :: |stack| <= i < |out| ==>
                  Adjacent(cur, out[i]) && InBounds(visited.Length0, visited.Length1, out[i]) && out[i] !in Marked(visited)
        invariant forall q ::
                    Adjacent(cur, q) && (q.0 - cur.0 < dr || (q.0 - cur.0 == dr && q.1 - cur.1 < dc)) &&
                    InBounds(visited.Length0, visited.Length1, q) ==>
                    q in Marked(visited) || q in out
      {
        if dr == 0 && dc == 0 {
          continue;
        }
        var nr := cur.0 + dr;
        var nc := cur.1 + dc;
        if nr >= 0 && nr < visited.Length0 && nc >= 0 && nc < visited.Length1 {
          if !visited[nr, nc] {
            out := out + [(nr, nc)];
          }
        }
      }
    }
  }

  /**
    What holds between the rounds of the flood fill from `start`, with
    `marked` the cells marked so far and `before` those marked when it began:
    it marks only cells of the flood, keeps only cells of the flood on the
    stack, keeps what was marked, has marked `start` or still holds it, and every count-0 cell it
    has marked has each of its neighbours marked or on the stack.
  */
  ghost predicate FloodInv(b: Board, start: Pos, before: set<Pos>, marked: set<Pos>, stack: seq<Pos>) {
    before <= marked <= before + Flood(b, start) &&
    (forall i :: 0 <= i < |stack| ==> stack[i] in Flood(b, start)) &&
    (start in marked || start in stack) &&
    (forall v, q :: v in marked - before && v in Blanks(b) && Adjacent(v, q) && q in b ==> q in marked || q in stack)
  }

  lemma FloodInvStart(b: Board, start: Pos, before: set<Pos>)
    requires start in b
    ensures FloodInv(b, start, before, before, [start])
  {
    ReachesSelf(Blanks(b), b.Keys, start);
  }

  /** A popped cell that is marked already is skipped (`continue`). */
  lemma FloodInvSkip(b: Board, start: Pos, before: set<Pos>, marked: set<Pos>, stack: seq<Pos>)
    requires |stack| > 0 && stack[|stack| - 1] in marked
    requires FloodInv(b, start, before, marked, stack)
    ensures FloodInv(b, start, before, marked, stack[..|stack| - 1])
  {
    var rest := stack[..|stack| - 1];
    forall v, q | v in marked - before && v in Blanks(b) && Adjacent(v, q) && q in b
      ensures q in marked || q in rest
    {
      if q !in marked {
        var i :| 0 <= i < |stack| && stack[i] == q;
        assert rest[i] == q;
      }
    }
    if start !in marked {
      var i :| 0 <= i < |stack| && stack[i] == start;
      assert rest[i] == start;
    }
  }

  /** A popped cell whose count is not 0 is marked and spreads no further. */
  lemma FloodInvMark(b: Board, start: Pos, before: set<Pos>, marked: set<Pos>, stack: seq<Pos>)
    requires |stack| > 0 && stack[|stack| - 1] !in Blanks(b)
    requires FloodInv(b, start, before, marked, stack)
    ensures FloodInv(b, start, before, marked + {stack[|stack| - 1]}, stack[..|stack| - 1])
  {
    var cur, rest := stack[|stack| - 1], stack[..|stack| - 1];
    forall v, q | v in (marked + {cur}) - before && v in Blanks(b) && Adjacent(v, q) && q in b
      ensures q in marked + {cur} || q in rest
    {
      if q !in marked + {cur} {
        var i :| 0 <= i < |stack| && stack[i] == q;
        assert rest[i] == q;
      }
    }
    if start !in marked + {cur} {
      var i :| 0 <= i < |stack| && stack[i] == start;
      assert rest[i] == start;
    }
  }

  /** A popped cell whose count is 0 is marked and its unmarked neighbours are pushed. */
  lemma FloodInvSpread(b: Board, rows: int, cols: int, start: Pos, before: set<Pos>, marked: set<Pos>, stack: seq<Pos>, out: seq<Pos>)
    requires b.Keys == Cells(rows, cols)
    requires |stack| > 0 && stack[|stack| - 1] in Blanks(b)
    requires FloodInv(b, start, before, marked, stack)
    requires var cur, rest := stack[|stack| - 1], stack[..|stack| - 1];
      |out| >= |rest| && out[..|rest|] == rest &&
      (forall i :: |rest| <= i < |out| ==> Adjacent(cur, out[i]) && InBounds(rows, cols, out[i])) &&
      (forall q :: Adjacent(cur, q) && InBounds(rows, cols, q) ==> q in marked + {cur} || q in out)
    ensures FloodInv(b, start, before, marked + {stack[|stack| - 1]}, out)
  {
    var cur, rest := stack[|stack| - 1], stack[..|stack| - 1];
    var now := marked + {cur};
    assert cur in Flood(b, start);
    forall i | 0 <= i < |out| ensures out[i] in Flood(b, start) {
      if i >= |rest| {
        ReachesStep(Blanks(b), b.Keys, start, cur, out[i]);
      } else {
        assert out[i] == rest[i] == stack[i];
      }
    }
    forall v, q | v in now - before && v in Blanks(b) && Adjacent(v, q) && q in b
      ensures q in now || q in out
    {
      if v != cur && q !in now {
        var i :| 0 <= i < |stack| && stack[i] == q;
        assert i < |rest|;
        assert out[i] == q;
      }
    }
    if start !in now {
      var i :| 0 <= i < |stack| && stack[i] == start;
      assert out[i] == start;
    }
  }

  /** When the stack is empty, the flood fill has marked exactly its flood. */
  lemma FloodInvDone(b: Board, start: Pos, before: set<Pos>, marked: set<Pos>)
    requires ClosedUnderSpread(Blanks(b), b.Keys, before)
    requires FloodInv(b, start, before, marked, [])
    ensures marked == before + Flood(b, start)
  {
    assert ClosedUnderSpread(Blanks(b), b.Keys, marked);
    forall p | p in Flood(b, start) ensures p in marked {
      ClosedRegionHoldsReach(Blanks(b), b.Keys, marked, start, p);
    }
  }

  lemma MarkShrinksUnmarked(all: set<Pos>, marked: set<Pos>, p: Pos)
    requires p in all && p !in marked
    ensures |all - (marked + {p})| < |all - marked|
  {
    assert all - marked == (all - (marked + {p})) + {p};
  }

  /**
    One round of the flood fill's `while (stack.length > 0)` loop: pop the
    last cell; skip it if it is marked; otherwise mark it and, when its
    count is 0, push its unmarked in-bounds neighbours.
  */
  method FloodRound(g: array2<Cell>, visited: array2<bool>, stack: seq<Pos>, ghost b: Board, ghost start: Pos, ghost before: set<Pos>)
    returns (next: seq<Pos>)
    requires b == BoardOf(g)
    requires visited.Length0 == g.Length0 && visited.Length1 == g.Length1
    requires |stack| > 0
    requires FloodInv(b, start, before, Marked(visited), stack)
    modifies visited
    ensures FloodInv(b, start, before, Marked(visited), next)
    ensures |b.Keys - Marked(visited)| < |b.Keys - old(Marked(visited))| ||
            (Marked(visited) == old(Marked(visited)) && |next| < |stack|)
  {
    ghost var marked := Marked(visited);
    assert g as object != visited as object;
    var cur := stack[|stack| - 1];
    next := stack[..|stack| - 1];
    if visited[cur.0, cur.1] {
      FloodInvSkip(b, start, before, marked, stack);
      return;
    }
    assert cur in b;
    MarkShrinksUnmarked(b.Keys, marked, cur);
    Mark(visited, cur);
    if g[cur.0, cur.1].neighborCount == 0 {
      assert cur in Blanks(b);
      next := PushNeighbours(visited, next, cur);
      FloodInvSpread(b, g.Length0, g.Length1, start, before, marked, stack, next);
    } else {
      assert cur !in Blanks(b);
      FloodInvMark(b, start, before, marked, stack);
    }
  }

  /**
    The flood fill from (r, c): on a marking that is closed under spreading,
    it marks exactly the cells (r, c) reaches through count-0 cells.
  */
  method FloodFill(g: array2<Cell>, visited: array2<bool>, r: int, c: int, ghost b: Board)
    requires b == BoardOf(g)
    requires visited.Length0 == g.Length0 && visited.Length1 == g.Length1
    requires InBounds(g.Length0, g.Length1, (r, c))
    requires ClosedUnderSpread(Blanks(b), b.Keys, Marked(visited))
    modifies visited
    ensures Marked(visited) == old(Marked(visited)) + Flood(b, (r, c))
  {
    ghost var before := Marked(visited);
    FloodInvStart(b, (r, c), before);
    assert g as object != visited as object;
    var stack := [(r, c)];
    while |stack| > 0
      invariant FloodInv(b, (r, c), before, Marked(visited), stack)
      decreases |b.Keys - Marked(visited)|, |stack|
    {
      stack := FloodRound(g, visited, stack, b, (r, c), before);
    }
    FloodInvDone(b, (r, c), before, Marked(visited));
  }

  // ---------------------------------------------------------------------
  // Phase 1: counting the openings.

  /** Adding a start adds its flood. */
  lemma CoveredAddFlood(b: Board, starts: set<Pos>, s: Pos)
    ensures Covered(Blanks(b), b.Keys, starts + {s}) == Covered(Blanks(b), b.Keys, starts) + Flood(b, s)
  {
  }

  lemma LeadersBeforeStep(b: Board, q: Pos)
    ensures LeadersBefore(b, (q.0, q.1 + 1)) == LeadersBefore(b, q) + (if q in Leaders(b) then {q} else {})
    ensures q !in LeadersBefore(b, q)
  {
  }

  lemma LeadersBeforeRowEnd(b: Board, rows: int, cols: int, r: int)
    requires b.Keys == Cells(rows, cols)
    ensures LeadersBefore(b, (r, cols)) == LeadersBefore(b, (r + 1, 0))
  {
  }

  lemma LeadersBeforeBounds(b: Board, rows: int, cols: int)
    requires b.Keys == Cells(rows, cols)
    ensures LeadersBefore(b, (0, 0)) == {}
    ensures LeadersBefore(b, (rows, 0)) == Leaders(b)
  {
  }

  /**
    One round of the phase-1 scan at (r, c): a safe, count-0, unmarked cell
    is a new opening, counted once and flooded.
  */
  method ScanCell(g: array2<Cell>, visited: array2<bool>, r: int, c: int, bbb: int, ghost b: Board) returns (next: int)
    requires b == BoardOf(g)
    requires visited.Length0 == g.Length0 && visited.Length1 == g.Length1
    requires InBounds(g.Length0, g.Length1, (r, c))
    requires Marked(visited) == Covered(Blanks(b), b.Keys, LeadersBefore(b, (r, c)))
    requires bbb == |LeadersBefore(b, (r, c))|
    modifies visited
    ensures Marked(visited) == Covered(Blanks(b), b.Keys, LeadersBefore(b, (r, c + 1)))
    ensures next == |LeadersBefore(b, (r, c + 1))|
  {
    next := bbb;
    var cell := g[r, c];
    ghost var earlier := LeadersBefore(b, (r, c));
    LeadersBeforeStep(b, (r, c));
    assert cell == b[(r, c)];
    if !cell.isMine && cell.neighborCount == 0 && !visited[r, c] {
      assert (r, c) in Zeros(b) && (r, c) !in Marked(visited);
      LeaderIffUnmarked(b, (r, c));
      next := next + 1;
      CoveredIsClosed(Blanks(b), b.Keys, earlier);
      FloodFill(g, visited, r, c, b);
      CoveredAddFlood(b, earlier, (r, c));
    } else {
      if (r, c) in Zeros(b) {
        assert (r, c) in Marked(visited);
        LeaderIffUnmarked(b, (r, c));
      }
      assert (r, c) !in Leaders(b);
    }
  }

  /** The inner loop of phase 1, over row `r`. */
  method ScanRow(g: array2<Cell>, visited: array2<bool>, r: int, bbb: int, ghost b: Board) returns (next: int)
    requires b == BoardOf(g)
    requires visited.Length0 == g.Length0 && visited.Length1 == g.Length1
    requires 0 <= r < g.Length0
    requires Marked(visited) == Covered(Blanks(b), b.Keys, LeadersBefore(b, (r, 0)))
    requires bbb == |LeadersBefore(b, (r, 0))|
    modifies visited
    ensures Marked(visited) == Covered(Blanks(b), b.Keys, LeadersBefore(b, (r + 1, 0)))
    ensures next == |LeadersBefore(b, (r + 1, 0))|
  {
    next := bbb;
    for c := 0 to g.Length1
      invariant Marked(visited) == Covered(Blanks(b), b.Keys, LeadersBefore(b, (r, c)))
      invariant next == |LeadersBefore(b, (r, c))|
    {
      next := ScanCell(g, visited, r, c, next, b);
    }
    LeadersBeforeRowEnd(b, g.Length0, g.Length1, r);
  }

  /** Phase 1: on an unmarked grid, counts the openings and marks what they uncover. */
  method CountOpenings(g: array2<Cell>, visited: array2<bool>) returns (n: int)
    requires visited.Length0 == g.Length0 && visited.Length1 == g.Length1
    requires Marked(visited) == {}
    modifies visited
    ensures Marked(visited) == Openings(BoardOf(g))
    ensures n == |Leaders(BoardOf(g))|
  {
    ghost var b := BoardOf(g);
    LeadersBeforeBounds(b, g.Length0, g.Length1);
    n := 0;
    for r := 0 to g.Length0
      invariant Marked(visited) == Covered(Blanks(b), b.Keys, LeadersBefore(b, (r, 0)))
      invariant n == |LeadersBefore(b, (r, 0))|
    {
      n := ScanRow(g, visited, r, n, b);
    }
  }

  // ---------------------------------------------------------------------
  // Phase 2: counting the safe cells outside every opening.

  /** The safe cells before `q` that `marked` leaves out. */
  ghost function UnmarkedSafeBefore(b: Board, marked: set<Pos>, q: Pos): set<Pos> {
    set p | p in Safe(b) && p !in marked && Before(p, q)
  }

  lemma UnmarkedSafeStep(b: Board, marked: set<Pos>, q: Pos)
    ensures UnmarkedSafeBefore(b, marked, (q.0, q.1 + 1)) ==
            UnmarkedSafeBefore(b, marked, q) + (if q in Safe(b) && q !in marked then {q} else {})
    ensures q !in UnmarkedSafeBefore(b, marked, q)
  {
  }

  lemma UnmarkedSafeRowEnd(b: Board, rows: int, cols: int, marked: set<Pos>, r: int)
    requires b.Keys == Cells(rows, cols)
    ensures UnmarkedSafeBefore(b, marked, (r, cols)) == UnmarkedSafeBefore(b, marked, (r + 1, 0))
  {
  }

  lemma UnmarkedSafeBounds(b: Board, rows: int, cols: int, marked: set<Pos>)
    requires b.Keys == Cells(rows, cols)
    ensures UnmarkedSafeBefore(b, marked, (0, 0)) == {}
    ensures UnmarkedSafeBefore(b, marked, (rows, 0)) == Safe(b) - marked
  {
  }

  /** The inner loop of phase 2, over row `r`. */
  method CountRow(g: array2<Cell>, visited: array2<bool>, r: int, bbb: int) returns (next: int)
    requires visited.Length0 == g.Length0 && visited.Length1 == g.Length1
    requires 0 <= r < g.Length0
    ensures next == bbb + |UnmarkedSafeBefore(BoardOf(g), Marked(visited), (r + 1, 0))| -
                          |UnmarkedSafeBefore(BoardOf(g), Marked(visited), (r, 0))|
  {
    ghost var b, marked := BoardOf(g), Marked(visited);
    next := bbb;
    for c := 0 to g.Length1
      invariant next == bbb + |UnmarkedSafeBefore(b, marked, (r, c))| - |UnmarkedSafeBefore(b, marked, (r, 0))|
    {
      UnmarkedSafeStep(b, marked, (r, c));
      if !g[r, c].isMine && !visited[r, c] {
        next := next + 1;
      }
    }
    UnmarkedSafeRowEnd(b, g.Length0, g.Length1, marked, r);
  }

  /** Phase 2: one click for every safe cell that no opening marked. */
  method CountUnmarked(g: array2<Cell>, visited: array2<bool>) returns (n: int)
    requires visited.Length0 == g.Length0 && visited.Length1 == g.Length1
    ensures n == |Safe(BoardOf(g)) - Marked(visited)|
  {
    ghost var b, marked := BoardOf(g), Marked(visited);
    UnmarkedSafeBounds(b, g.Length0, g.Length1, marked);
    n := 0;
    for r := 0 to g.Length0
      invariant n == |UnmarkedSafeBefore(b, marked, (r, 0))|
    {
      n := CountRow(g, visited, r, n);
    }
  }

  // ---------------------------------------------------------------------
  // The whole score.

  /**
    `calculate3BV(grid)`. The grid must have a row (the source reads
    `grid[0].length`); it is only read, and the result is the score of the
    board.
  */
  method Calculate3BV(g: array2<Cell>) returns (bbb: int)
    requires g.Length0 > 0
    ensures bbb == ThreeBV(BoardOf(g))
  {
    var rows := g.Length0;
    var cols := g.Length1;
    var visited := new bool[rows, cols]((_, _) => false);
    assert Marked(visited) == {};
    bbb := CountOpenings(g, visited);
    var rest := CountUnmarked(g, visited);
    bbb := bbb + rest;
  }
}
