/**
  Reachability through zero cells, the notion behind both the cascade of `revealCell`
  and the openings counted by the 3BV score. A zero path over `(zeros, allowed)`
  is a non-empty walk of adjacent cells, all in `allowed`, each of which except
  the last is in `zeros`: an opening spreads out of every zero cell it reaches
  and stops at the first cell that is not zero.
*/
module ZeroPaths {
  import opened Grid

  ghost predicate IsZeroPath(zeros: set<Pos>, allowed: set<Pos>, path: seq<Pos>) {
    |path| > 0 &&
    (forall i :: 0 <= i < |path| ==> path[i] in allowed) &&
    (forall i :: 0 <= i < |path| - 1 ==> Link(zeros, path, i))
  }

  /** The `i`-th step of `path` leaves a zero cell for one of its neighbours. */
  ghost predicate Link(zeros: set<Pos>, path: seq<Pos>, i: int)
    requires 0 <= i < |path| - 1
  {
    path[i] in zeros && Adjacent(path[i], path[i + 1])
  }

  /** Some zero path leads from `s` to `p`. */
  ghost predicate Reaches(zeros: set<Pos>, allowed: set<Pos>, s: Pos, p: Pos) {
    exists path :: IsZeroPath(zeros, allowed, path) && path[0] == s && path[|path| - 1] == p
  }

  /** The cells some element of `starts` reaches. */
  ghost function Covered(zeros: set<Pos>, allowed: set<Pos>, starts: set<Pos>): set<Pos> {
    set p | p in allowed && exists s :: s in starts && Reaches(zeros, allowed, s, p)
  }

  lemma ReachesSelf(zeros: set<Pos>, allowed: set<Pos>, s: Pos)
    requires s in allowed
    ensures Reaches(zeros, allowed, s, s)
  {
    assert IsZeroPath(zeros, allowed, [s]);
  }

  /** Both ends of a zero path are allowed cells. */
  lemma ReachesEnds(zeros: set<Pos>, allowed: set<Pos>, s: Pos, p: Pos)
    ensures Reaches(zeros, allowed, s, p) ==> s in allowed && p in allowed
  {
    if Reaches(zeros, allowed, s, p) {
      var path :| IsZeroPath(zeros, allowed, path) && path[0] == s && path[|path| - 1] == p;
      assert path[|path| - 1] in allowed;
    }
  }

  /** From a cell that is not zero, a zero path goes nowhere else. */
  lemma ReachesFromNonZero(zeros: set<Pos>, allowed: set<Pos>, s: Pos, p: Pos)
    requires s !in zeros
    ensures Reaches(zeros, allowed, s, p) <==> s in allowed && p == s
  {
    if Reaches(zeros, allowed, s, p) {
      var path :| IsZeroPath(zeros, allowed, path) && path[0] == s && path[|path| - 1] == p;
      assert |path| > 1 ==> Link(zeros, path, 0);
    }
    if s in allowed && p == s {
      ReachesSelf(zeros, allowed, s);
    }
  }

  /** A zero path may be extended past its last cell when that cell is zero. */
  lemma ReachesStep(zeros: set<Pos>, allowed: set<Pos>, s: Pos, p: Pos, q: Pos)
    requires Reaches(zeros, allowed, s, p)
    requires p in zeros && Adjacent(p, q) && q in allowed
    ensures Reaches(zeros, allowed, s, q)
  {
    var path :| IsZeroPath(zeros, allowed, path) && path[0] == s && path[|path| - 1] == p;
    var longer := path + [q];
    forall i | 0 <= i < |longer| - 1 ensures Link(zeros, longer, i) {
      if i < |path| - 1 {
        assert Link(zeros, path, i);
      }
    }
    assert IsZeroPath(zeros, allowed, longer);
  }

  /** A zero path may be entered from an allowed zero neighbour of its first cell. */
  lemma ReachesPrepend(zeros: set<Pos>, allowed: set<Pos>, s: Pos, q: Pos, p: Pos)
    requires s in zeros && s in allowed && Adjacent(s, q)
    requires Reaches(zeros, allowed, q, p)
    ensures Reaches(zeros, allowed, s, p)
  {
    var path :| IsZeroPath(zeros, allowed, path) && path[0] == q && path[|path| - 1] == p;
    var longer := [s] + path;
    forall i | 0 < i < |longer| - 1 ensures Link(zeros, longer, i) {
      assert Link(zeros, path, i - 1);
    }
    assert Link(zeros, longer, 0);
    assert IsZeroPath(zeros, allowed, longer);
  }

  /** Allowing more cells keeps every zero path. */
  lemma ReachesMono(zeros: set<Pos>, allowed: set<Pos>, more: set<Pos>, s: Pos, p: Pos)
    requires allowed <= more
    requires Reaches(zeros, allowed, s, p)
    ensures Reaches(zeros, more, s, p)
  {
    var path :| IsZeroPath(zeros, allowed, path) && path[0] == s && path[|path| - 1] == p;
    assert IsZeroPath(zeros, more, path);
  }

  /** `region` contains every allowed neighbour of each of its zero cells. */
  ghost predicate ClosedUnderSpread(zeros: set<Pos>, allowed: set<Pos>, region: set<Pos>) {
    forall z, q :: z in region && z in zeros && Adjacent(z, q) && q in allowed ==> q in region
  }

  lemma {:induction false} ClosedPathStaysInside(zeros: set<Pos>, allowed: set<Pos>, region: set<Pos>, path: seq<Pos>)
    requires IsZeroPath(zeros, allowed, path)
    requires path[0] in region
    requires ClosedUnderSpread(zeros, allowed, region)
    ensures path[|path| - 1] in region
  {
    if |path| > 1 {
      var prefix := path[..|path| - 1];
      forall i | 0 <= i < |prefix| - 1 ensures Link(zeros, prefix, i) {
        assert Link(zeros, path, i);
      }
      assert IsZeroPath(zeros, allowed, prefix);
      ClosedPathStaysInside(zeros, allowed, region, prefix);
      assert path[|path| - 2] in region;
      assert Link(zeros, path, |path| - 2);
    }
  }

  /** A region closed under spreading contains everything its cells reach. */
  lemma ClosedRegionHoldsReach(zeros: set<Pos>, allowed: set<Pos>, region: set<Pos>, s: Pos, p: Pos)
    requires s in region
    requires ClosedUnderSpread(zeros, allowed, region)
    requires Reaches(zeros, allowed, s, p)
    ensures p in region
  {
    var path :| IsZeroPath(zeros, allowed, path) && path[0] == s && path[|path| - 1] == p;
    ClosedPathStaysInside(zeros, allowed, region, path);
  }

  /** If no zero cell touches a mine, a zero path that starts on a safe cell never ends on a mine. */
  lemma ReachAvoidsMines(zeros: set<Pos>, allowed: set<Pos>, mines: set<Pos>, s: Pos, p: Pos)
    requires forall z, q :: z in zeros && Adjacent(z, q) && q in allowed ==> q !in mines
    requires s !in mines
    requires Reaches(zeros, allowed, s, p)
    ensures p !in mines
  {
    var path :| IsZeroPath(zeros, allowed, path) && path[0] == s && path[|path| - 1] == p;
    if |path| > 1 {
      var n := |path|;
      assert Link(zeros, path, n - 2) && path[n - 1] in allowed;
    }
  }

  function Reverse(path: seq<Pos>): (r: seq<Pos>)
    ensures |r| == |path|
    ensures forall i :: 0 <= i < |path| ==> r[i] == path[|path| - 1 - i]
  {
    if path == [] then [] else Reverse(path[1..]) + [path[0]]
  }

  /** Between two zero cells, reachability is symmetric. */
  lemma ReachesSymmetric(zeros: set<Pos>, allowed: set<Pos>, s: Pos, p: Pos)
    requires p in zeros
    requires Reaches(zeros, allowed, s, p)
    ensures Reaches(zeros, allowed, p, s)
  {
    var path :| IsZeroPath(zeros, allowed, path) && path[0] == s && path[|path| - 1] == p;
    var back := Reverse(path);
    var n := |path|;
    forall i | 0 <= i < n - 1 ensures Link(zeros, back, i) {
      assert back[i] == path[n - 1 - i] && back[i + 1] == path[n - 2 - i];
      assert Link(zeros, path, n - 2 - i);
      if i > 0 {
        assert Link(zeros, path, n - 1 - i);
      }
    }
    assert IsZeroPath(zeros, allowed, back);
  }

  /** Zero paths compose. */
  lemma ReachesTransitive(zeros: set<Pos>, allowed: set<Pos>, s: Pos, p: Pos, q: Pos)
    requires p in zeros
    requires Reaches(zeros, allowed, s, p) && Reaches(zeros, allowed, p, q)
    ensures Reaches(zeros, allowed, s, q)
  {
    var first :| IsZeroPath(zeros, allowed, first) && first[0] == s && first[|first| - 1] == p;
    var second :| IsZeroPath(zeros, allowed, second) && second[0] == p && second[|second| - 1] == q;
    var m := |first| - 1;
    var joined := first[..m] + second;
    forall i | 0 <= i < |joined| - 1 ensures Link(zeros, joined, i) {
      if i < m {
        assert Link(zeros, first, i);
      } else {
        assert Link(zeros, second, i - m);
      }
    }
    assert IsZeroPath(zeros, allowed, joined);
  }

  /** Starting from more cells covers more. */
  lemma CoveredMono(zeros: set<Pos>, allowed: set<Pos>, starts: set<Pos>, more: set<Pos>)
    requires starts <= more
    ensures Covered(zeros, allowed, starts) <= Covered(zeros, allowed, more)
  {
  }

  /** Zero cells that are covered already cover nothing new. */
  lemma CoveredThrough(zeros: set<Pos>, allowed: set<Pos>, starts: set<Pos>, via: set<Pos>)
    requires via <= zeros && via <= Covered(zeros, allowed, starts)
    ensures Covered(zeros, allowed, via) <= Covered(zeros, allowed, starts)
  {
    forall p | p in Covered(zeros, allowed, via) ensures p in Covered(zeros, allowed, starts) {
      var z :| z in via && Reaches(zeros, allowed, z, p);
      var s :| s in starts && Reaches(zeros, allowed, s, z);
      ReachesTransitive(zeros, allowed, s, z, p);
    }
  }

  /** No element of `starts` reaches another one. */
  ghost predicate Separate(zeros: set<Pos>, allowed: set<Pos>, starts: set<Pos>) {
    forall l, m :: l in starts && m in starts && l != m ==> !Reaches(zeros, allowed, l, m)
  }

  /**
    Separate starts that cover a zero cell `z` from which all of them are
    reached consist of a single cell.
  */
  lemma OneStart(zeros: set<Pos>, allowed: set<Pos>, starts: set<Pos>, z: Pos) returns (l: Pos)
    requires Separate(zeros, allowed, starts)
    requires z in zeros && z in Covered(zeros, allowed, starts)
    requires starts <= Covered(zeros, allowed, {z})
    ensures starts == {l}
  {
    l :| l in starts && Reaches(zeros, allowed, l, z);
    forall m | m in starts ensures m == l {
      assert m in Covered(zeros, allowed, {z});
      ReachesTransitive(zeros, allowed, l, z, m);
    }
  }

  /**
    Separate zero cells covered by the zero starts `starts` are no more
    numerous than those starts: each start reaches at most one of them.
  */
  lemma {:induction false} SeparateAtMost(zeros: set<Pos>, allowed: set<Pos>, cells: set<Pos>, starts: set<Pos>)
    requires cells <= zeros && starts <= zeros
    requires Separate(zeros, allowed, cells)
    requires cells <= Covered(zeros, allowed, starts)
    ensures |cells| <= |starts|
    decreases |starts|
  {
    if starts == {} {
      assert cells == {};
    } else {
      var t :| t in starts;
      var near := set x | x in cells && Reaches(zeros, allowed, t, x);
      var far := cells - near;
      assert |near| <= 1 by {
        if near != {} {
          var x :| x in near;
          forall y | y in near ensures y == x {
            ReachesSymmetric(zeros, allowed, t, x);
            ReachesTransitive(zeros, allowed, x, t, y);
          }
          assert near == {x};
        }
      }
      assert far <= Covered(zeros, allowed, starts - {t}) by {
        forall y | y in far ensures y in Covered(zeros, allowed, starts - {t}) {
          var u :| u in starts && Reaches(zeros, allowed, u, y);
          assert u != t;
        }
      }
      SeparateAtMost(zeros, allowed, far, starts - {t});
      assert cells == far + near;
    }
  }

  /** Two separate sets of zero starts that cover each other have the same size. */
  lemma SeparateCoversSameSize(zeros: set<Pos>, allowed: set<Pos>, starts: set<Pos>, others: set<Pos>)
    requires starts <= zeros && others <= zeros
    requires Separate(zeros, allowed, starts) && Separate(zeros, allowed, others)
    requires starts <= Covered(zeros, allowed, others) && others <= Covered(zeros, allowed, starts)
    ensures |starts| == |others|
  {
    SeparateAtMost(zeros, allowed, starts, others);
    SeparateAtMost(zeros, allowed, others, starts);
  }
}
