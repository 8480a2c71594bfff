/**
  Geometry of the square game field and the pure rules the board is specified by:
  the clipped neighbourhood of a cell, the number of bombs around a cell, the
  bomb-placement rule, and what a cascade of openings leaves behind.
 */
module Field {

  /** A position on the field: (row, column). */
  type Pos = (int, int)

  predicate InField(n: int, p: Pos) {
    0 <= p.0 < n && 0 <= p.1 < n
  }

  /** All positions of an n-by-n field. */
  function Positions(n: int): (r: set<Pos>)
    ensures forall q :: q in r <==> InField(n, q)
  {
    set i, j | 0 <= i < n && 0 <= j < n :: (i, j)
  }

  /** q is one of the (up to eight) cells around p; the board edges clip the neighbourhood. */
  predicate Adjacent(n: int, p: Pos, q: Pos) {
    InField(n, p) && InField(n, q) && p != q && -1 <= q.0 - p.0 <= 1 && -1 <= q.1 - p.1 <= 1
  }

  lemma AdjacentIsSymmetric(n: int, p: Pos, q: Pos)
    ensures Adjacent(n, p, q) <==> Adjacent(n, q, p)
  {
  }

  function Max(a: int, b: int): int { if a < b then b else a }

  function Min(a: int, b: int): int { if a < b then a else b }

  /** Cells (row, col), (row, col + 1), ..., (row, hi), leaving out p itself. */
  function RowCells(p: Pos, row: int, col: int, hi: int): seq<Pos>
    decreases hi - col
  {
    if col > hi then []
    else (if (row, col) == p then [] else [(row, col)]) + RowCells(p, row, col + 1, hi)
  }

  /** Rows row..rowHi of the block of columns colLo..colHi, row by row, leaving out p itself. */
  function BlockCells(p: Pos, row: int, rowHi: int, colLo: int, colHi: int): seq<Pos>
    decreases rowHi - row
  {
    if row > rowHi then []
    else RowCells(p, row, colLo, colHi) + BlockCells(p, row + 1, rowHi, colLo, colHi)
  }

  /**
    The neighbours of p on an n-by-n field, in the order the board visits them:
    rows max(r-1, 0) .. min(r+1, n-1), and within each row the columns
    max(c-1, 0) .. min(c+1, n-1), skipping p itself. The order is row by row, so the
    positions come strictly increasing.
   */
  function AdjacentCells(n: int, p: Pos): (r: seq<Pos>)
    ensures Increasing(r)
  {
    BlockCellsIncreasing(p, Max(p.0 - 1, 0), Min(p.0 + 1, n - 1), Max(p.1 - 1, 0), Min(p.1 + 1, n - 1));
    BlockCells(p, Max(p.0 - 1, 0), Min(p.0 + 1, n - 1), Max(p.1 - 1, 0), Min(p.1 + 1, n - 1))
  }

  lemma {:induction false} RowCellsMembers(p: Pos, row: int, col: int, hi: int)
    ensures forall q :: q in RowCells(p, row, col, hi) <==> q.0 == row && col <= q.1 <= hi && q != p
    decreases hi - col
  {
    if col <= hi {
      RowCellsMembers(p, row, col + 1, hi);
    }
  }

  lemma {:induction false} RowCellsLength(p: Pos, row: int, col: int, hi: int)
    requires col <= hi + 1
    ensures |RowCells(p, row, col, hi)| == hi - col + 1 - (if p.0 == row && col <= p.1 <= hi then 1 else 0)
    decreases hi - col
  {
    if col <= hi {
      RowCellsLength(p, row, col + 1, hi);
    }
  }

  lemma {:induction false} BlockCellsMembers(p: Pos, row: int, rowHi: int, colLo: int, colHi: int)
    ensures forall q :: q in BlockCells(p, row, rowHi, colLo, colHi) <==>
      row <= q.0 <= rowHi && colLo <= q.1 <= colHi && q != p
    decreases rowHi - row
  {
    if row <= rowHi {
      RowCellsMembers(p, row, colLo, colHi);
      BlockCellsMembers(p, row + 1, rowHi, colLo, colHi);
    }
  }

  lemma {:induction false} BlockCellsLength(p: Pos, row: int, rowHi: int, colLo: int, colHi: int)
    requires row <= rowHi + 1 && colLo <= colHi + 1
    ensures |BlockCells(p, row, rowHi, colLo, colHi)| ==
      (rowHi - row + 1) * (colHi - colLo + 1) - (if row <= p.0 <= rowHi && colLo <= p.1 <= colHi then 1 else 0)
    decreases rowHi - row
  {
    if row <= rowHi {
      RowCellsLength(p, row, colLo, colHi);
      BlockCellsLength(p, row + 1, rowHi, colLo, colHi);
      var w := colHi - colLo + 1;
      assert (rowHi - row + 1) * w == w + (rowHi - (row + 1) + 1) * w;
    }
  }

  /** The visiting order lists exactly the clipped neighbours, at most eight of them. */
  lemma AdjacentCellsSpec(n: int, p: Pos)
    requires InField(n, p)
    ensures forall q :: q in AdjacentCells(n, p) <==> Adjacent(n, p, q)
    ensures |AdjacentCells(n, p)| <= 8
  {
    BlockCellsMembers(p, Max(p.0 - 1, 0), Min(p.0 + 1, n - 1), Max(p.1 - 1, 0), Min(p.1 + 1, n - 1));
    AdjacentCellsLength(n, p);
  }

  lemma AdjacentCellsLength(n: int, p: Pos)
    requires InField(n, p)
    ensures |AdjacentCells(n, p)| <= 8
  {
    var r0, r1, c0, c1 := Max(p.0 - 1, 0), Min(p.0 + 1, n - 1), Max(p.1 - 1, 0), Min(p.1 + 1, n - 1);
    BlockCellsLength(p, r0, r1, c0, c1);
    assert AdjacentCells(n, p) == BlockCells(p, r0, r1, c0, c1);
    var h, w := r1 - r0 + 1, c1 - c0 + 1;
    assert 1 <= w <= 3;
    if h == 1 {
      assert h * w == w;
    } else if h == 2 {
      assert h * w == w + w;
    } else {
      assert h == 3;
      assert h * w == w + w + w;
    }
  }

  /** a comes strictly before b in row-major order. */
  predicate Before(a: Pos, b: Pos) {
    a.0 < b.0 || (a.0 == b.0 && a.1 < b.1)
  }

  predicate Increasing(s: seq<Pos>) {
    forall a, b | 0 <= a < b < |s| :: Before(s[a], s[b])
  }

  lemma IncreasingConcat(u: seq<Pos>, v: seq<Pos>)
    requires Increasing(u) && Increasing(v)
    requires forall x, y | x in u && y in v :: Before(x, y)
    ensures Increasing(u + v)
  {
    forall a, b | 0 <= a < b < |u + v| ensures Before((u + v)[a], (u + v)[b]) {
      if b < |u| {
      } else if a < |u| {
        assert (u + v)[a] in u && (u + v)[b] in v;
      } else {
        assert (u + v)[a] == v[a - |u|] && (u + v)[b] == v[b - |u|];
      }
    }
  }

  lemma {:induction false} RowCellsIncreasing(p: Pos, row: int, col: int, hi: int)
    ensures Increasing(RowCells(p, row, col, hi))
    decreases hi - col
  {
    if col <= hi {
      RowCellsIncreasing(p, row, col + 1, hi);
      RowCellsMembers(p, row, col + 1, hi);
      IncreasingConcat(if (row, col) == p then [] else [(row, col)], RowCells(p, row, col + 1, hi));
    }
  }

  lemma {:induction false} BlockCellsIncreasing(p: Pos, row: int, rowHi: int, colLo: int, colHi: int)
    ensures Increasing(BlockCells(p, row, rowHi, colLo, colHi))
    decreases rowHi - row
  {
    if row <= rowHi {
      RowCellsIncreasing(p, row, colLo, colHi);
      BlockCellsIncreasing(p, row + 1, rowHi, colLo, colHi);
      RowCellsMembers(p, row, colLo, colHi);
      BlockCellsMembers(p, row + 1, rowHi, colLo, colHi);
      IncreasingConcat(RowCells(p, row, colLo, colHi), BlockCells(p, row + 1, rowHi, colLo, colHi));
    }
  }

  /** No neighbour is visited twice. */
  lemma AdjacentCellsDistinct(n: int, p: Pos)
    ensures forall a, b | 0 <= a < b < |AdjacentCells(n, p)| :: AdjacentCells(n, p)[a] != AdjacentCells(n, p)[b]
  {
    BlockCellsIncreasing(p, Max(p.0 - 1, 0), Min(p.0 + 1, n - 1), Max(p.1 - 1, 0), Min(p.1 + 1, n - 1));
  }

  /** The number of positions of s (visited left to right) that hold a bomb. */
  function CountIn(s: seq<Pos>, bombs: set<Pos>): nat {
    if s == [] then 0
    else CountIn(s[..|s| - 1], bombs) + (if s[|s| - 1] in bombs then 1 else 0)
  }

  lemma {:induction false} CountInSpec(s: seq<Pos>, bombs: set<Pos>)
    ensures CountIn(s, bombs) <= |s|
    ensures CountIn(s, bombs) == 0 <==> forall q :: q in s ==> q !in bombs
  {
    if s != [] {
      var t := s[..|s| - 1];
      CountInSpec(t, bombs);
      assert s == t + [s[|s| - 1]];
    }
  }

  /** On a sequence without repetitions, the count is the number of its distinct positions holding a bomb. */
  lemma {:induction false} CountInIsCardinality(s: seq<Pos>, bombs: set<Pos>)
    requires forall a, b | 0 <= a < b < |s| :: s[a] != s[b]
    ensures CountIn(s, bombs) == |set q | q in bombs && q in s|
  {
    if s != [] {
      var t, x := s[..|s| - 1], s[|s| - 1];
      assert s == t + [x];
      CountInIsCardinality(t, bombs);
      assert x !in t;
      var before := set q | q in bombs && q in t;
      if x in bombs {
        assert (set q | q in bombs && q in s) == before + {x};
      } else {
        assert (set q | q in bombs && q in s) == before;
      }
    }
  }

  /** The number shown on an opened cell: how many of its neighbours hold a bomb. */
  function AdjacentBombs(n: int, bombs: set<Pos>, p: Pos): nat {
    CountIn(AdjacentCells(n, p), bombs)
  }

  /** The number lies in 0..8, and it is zero exactly when no neighbour holds a bomb. */
  lemma AdjacentBombsSpec(n: int, bombs: set<Pos>, p: Pos)
    requires InField(n, p)
    ensures AdjacentBombs(n, bombs, p) <= 8
    ensures AdjacentBombs(n, bombs, p) == 0 <==> forall q :: Adjacent(n, p, q) ==> q !in bombs
  {
    AdjacentCellsSpec(n, p);
    CountInSpec(AdjacentCells(n, p), bombs);
  }

  /** The number is independent of the visiting order: it is the number of neighbours holding a bomb. */
  lemma AdjacentBombsIsCardinality(n: int, bombs: set<Pos>, p: Pos)
    requires InField(n, p)
    ensures AdjacentBombs(n, bombs, p) == |set q | q in bombs && Adjacent(n, p, q)|
  {
    AdjacentCellsSpec(n, p);
    AdjacentCellsDistinct(n, p);
    CountInIsCardinality(AdjacentCells(n, p), bombs);
    assert (set q | q in bombs && q in AdjacentCells(n, p)) == (set q | q in bombs && Adjacent(n, p, q));
  }

  // ---------------------------------------------------------------------------
  // Bomb placement

  /** Every neighbour of p holds a bomb; vacuously true when p has no neighbour at all. */
  ghost predicate Surrounded(n: int, bombs: set<Pos>, p: Pos) {
    forall q {:trigger Adjacent(n, p, q)} :: Adjacent(n, p, q) ==> q in bombs
  }

  /**
    The placement test of the board, on the bombs placed so far: p holds no bomb yet,
    some neighbour of p holds none, and once p holds a bomb, no bomb next to p is
    surrounded by bombs. Bombs may be next to each other.
   */
  ghost predicate BombAdmissible(n: int, bombs: set<Pos>, p: Pos) {
    && p !in bombs
    && !Surrounded(n, bombs, p)
    && forall q {:trigger Adjacent(n, p, q)} :: Adjacent(n, p, q) && q in bombs ==> !Surrounded(n, bombs + {p}, q)
  }

  /** What placement guarantees: every bomb lies on the field and has a neighbour without a bomb. */
  ghost predicate WellPlaced(n: int, bombs: set<Pos>) {
    forall b | b in bombs :: InField(n, b) && !Surrounded(n, bombs, b)
  }

  /** Putting a bomb where the placement test admits one keeps the bombs well placed. */
  lemma PlacementKeepsWellPlaced(n: int, bombs: set<Pos>, p: Pos)
    requires WellPlaced(n, bombs) && InField(n, p) && BombAdmissible(n, bombs, p)
    ensures WellPlaced(n, bombs + {p})
  {
    var after := bombs + {p};
    forall b | b in after ensures InField(n, b) && !Surrounded(n, after, b) {
      if b == p {
        var q :| Adjacent(n, p, q) && q !in bombs;
        assert q !in after;
      } else if Adjacent(n, p, b) {
        assert Adjacent(n, b, p);
      } else {
        var q :| Adjacent(n, b, q) && q !in bombs;
        assert q != p;
      }
    }
  }

  /** On a one-cell field the placement test rejects every cell, so no bomb is ever placed. */
  lemma SingleCellFieldRejectsEveryBomb(bombs: set<Pos>, p: Pos)
    ensures !BombAdmissible(1, bombs, p)
  {
    assert Surrounded(1, bombs, p);
  }

  /** And no bomb set on a one-cell field is well placed except the empty one. */
  lemma SingleCellFieldHasNoBombs(bombs: set<Pos>)
    requires WellPlaced(1, bombs)
    ensures bombs == {}
  {
    if b :| b in bombs {
      assert Surrounded(1, bombs, b);
    }
  }

  /**
    The rule admits two bombs side by side: on a 3-by-3 field holding a bomb at (0, 0),
    a bomb may go to (0, 1).
   */
  lemma NeighbouringBombsAreAdmissible()
    ensures Adjacent(3, (0, 0), (0, 1)) && BombAdmissible(3, {(0, 0)}, (0, 1))
  {
    assert Adjacent(3, (0, 1), (1, 1));
    forall q | Adjacent(3, (0, 1), q) && q in {(0, 0)} ensures !Surrounded(3, {(0, 0), (0, 1)}, q) {
      assert Adjacent(3, q, (1, 0));
    }
  }

  /** The placement loop between two draws: the bombs placed so far and the failed draws still allowed. */
  datatype PlacementState = PlacementState(bombs: set<Pos>, failuresLeft: nat)

  /** The loop draws again while bombs are missing and a failed draw is still allowed. */
  predicate Placing(wanted: int, st: PlacementState) {
    |st.bombs| < wanted && st.failuresLeft != 0
  }

  /**
    The placement loop run over `draws`, in order, on an n-by-n field without bombs and
    with n * n failed draws allowed: an admitted draw adds a bomb, any other draw uses up
    one failure. Draws after the loop has stopped change nothing.
   */
  ghost function Placement(n: nat, wanted: int, draws: seq<Pos>): PlacementState {
    if draws == [] then PlacementState({}, n * n)
    else
      var st := Placement(n, wanted, draws[..|draws| - 1]);
      var p := draws[|draws| - 1];
      if !Placing(wanted, st) then st
      else if BombAdmissible(n, st.bombs, p) then PlacementState(st.bombs + {p}, st.failuresLeft)
      else PlacementState(st.bombs, st.failuresLeft - 1)
  }

  /**
    `draws` is a whole run of the loop: every draw lies on the field and was made while
    the loop was still going, and after the last one the loop stops.
   */
  ghost predicate PlacementRun(n: nat, wanted: int, draws: seq<Pos>) {
    && (forall k | 0 <= k < |draws| :: InField(n, draws[k]) && Placing(wanted, Placement(n, wanted, draws[..k])))
    && !Placing(wanted, Placement(n, wanted, draws))
  }

  /** One more draw while the loop runs: it keeps the run well formed and admits or fails by the rule. */
  lemma PlacementExtend(n: nat, wanted: int, draws: seq<Pos>, p: Pos)
    requires forall k | 0 <= k < |draws| :: InField(n, draws[k]) && Placing(wanted, Placement(n, wanted, draws[..k]))
    requires InField(n, p) && Placing(wanted, Placement(n, wanted, draws))
    ensures forall k | 0 <= k < |draws + [p]| ::
      InField(n, (draws + [p])[k]) && Placing(wanted, Placement(n, wanted, (draws + [p])[..k]))
    ensures var st := Placement(n, wanted, draws);
      Placement(n, wanted, draws + [p]) ==
        if BombAdmissible(n, st.bombs, p) then PlacementState(st.bombs + {p}, st.failuresLeft)
        else PlacementState(st.bombs, st.failuresLeft - 1)
  {
    var longer := draws + [p];
    assert longer[..|draws|] == draws;
    forall k | 0 <= k < |longer| ensures InField(n, longer[k]) && Placing(wanted, Placement(n, wanted, longer[..k])) {
      if k < |draws| {
        assert longer[..k] == draws[..k];
      }
    }
  }

  /** Draws on the field only ever place well-placed bombs, and never more than wanted. */
  lemma {:induction false} PlacementSpec(n: nat, wanted: int, draws: seq<Pos>)
    requires forall k | 0 <= k < |draws| :: InField(n, draws[k])
    ensures WellPlaced(n, Placement(n, wanted, draws).bombs)
    ensures |Placement(n, wanted, draws).bombs| <= Max(wanted, 0)
    ensures Placement(n, wanted, draws).failuresLeft <= n * n
  {
    if draws != [] {
      var t := draws[..|draws| - 1];
      PlacementSpec(n, wanted, t);
      var st := Placement(n, wanted, t);
      var p := draws[|draws| - 1];
      if Placing(wanted, st) && BombAdmissible(n, st.bombs, p) {
        PlacementKeepsWellPlaced(n, st.bombs, p);
      }
    }
  }

  /** While the loop runs, each draw places a bomb or uses up a failure, so it draws once per bomb or failure. */
  lemma {:induction false} PlacementCountsDraws(n: nat, wanted: int, draws: seq<Pos>)
    requires forall k | 0 <= k < |draws| :: Placing(wanted, Placement(n, wanted, draws[..k]))
    ensures Placement(n, wanted, draws).failuresLeft <= n * n
    ensures |draws| == |Placement(n, wanted, draws).bombs| + (n * n - Placement(n, wanted, draws).failuresLeft)
  {
    if draws != [] {
      var t := draws[..|draws| - 1];
      forall k | 0 <= k < |t| ensures Placing(wanted, Placement(n, wanted, t[..k])) {
        assert t[..k] == draws[..k];
      }
      PlacementCountsDraws(n, wanted, t);
      assert Placing(wanted, Placement(n, wanted, draws[..|t|]));
    }
  }

  /**
    A whole run ends with exactly the wanted number of bombs, or with no failure left;
    it never places more, and it draws at most once per bomb and once per allowed failure.
   */
  lemma PlacementRunSpec(n: nat, wanted: int, draws: seq<Pos>)
    requires PlacementRun(n, wanted, draws)
    ensures WellPlaced(n, Placement(n, wanted, draws).bombs)
    ensures |Placement(n, wanted, draws).bombs| <= Max(wanted, 0)
    ensures |Placement(n, wanted, draws).bombs| == Max(wanted, 0) || Placement(n, wanted, draws).failuresLeft == 0
    ensures |draws| <= Max(wanted, 0) + n * n
  {
    PlacementSpec(n, wanted, draws);
    PlacementCountsDraws(n, wanted, draws);
  }

  /** On a field of at least 2 by 2, the first draw always places a bomb when one is wanted. */
  lemma FirstDrawIsAdmitted(n: nat, wanted: int, p: Pos)
    requires n >= 2 && wanted >= 1 && InField(n, p)
    ensures Placement(n, wanted, [p]) == PlacementState({p}, n * n)
  {
    var q := if p.0 > 0 then (p.0 - 1, p.1) else (p.0 + 1, p.1);
    assert Adjacent(n, p, q) && q !in {};
    assert [p][..0] == [];
  }

  /** On a one-cell field every run of the loop places no bomb. */
  lemma SingleCellPlacementIsEmpty(wanted: int, draws: seq<Pos>)
    requires forall k | 0 <= k < |draws| :: InField(1, draws[k])
    ensures Placement(1, wanted, draws).bombs == {}
  {
    PlacementSpec(1, wanted, draws);
    SingleCellFieldHasNoBombs(Placement(1, wanted, draws).bombs);
  }

  // ---------------------------------------------------------------------------
  // Cascade of openings

  /**
    path goes from cell to neighbouring cell, stays within `within`, and every cell
    of it but the last has no bomb around it.
   */
  ghost predicate ZeroPath(n: int, bombs: set<Pos>, path: seq<Pos>, within: set<Pos>) {
    && |path| >= 1
    && (forall k | 0 <= k < |path| :: path[k] in within)
    && (forall k | 0 <= k < |path| - 1 :: Adjacent(n, path[k], path[k + 1]) && AdjacentBombs(n, bombs, path[k]) == 0)
  }

  /** Every cell of `region` is reached from `start` along a ZeroPath through `region`. */
  ghost predicate ReachedFrom(n: int, bombs: set<Pos>, start: Pos, region: set<Pos>) {
    forall p | p in region :: Reaches(n, bombs, start, p, region)
  }

  /** Some ZeroPath through `within` leads from `start` to p. */
  ghost predicate Reaches(n: int, bombs: set<Pos>, start: Pos, p: Pos, within: set<Pos>) {
    exists path :: ZeroPath(n, bombs, path, within) && path[0] == start && path[|path| - 1] == p
  }

  /** No cell of `region` without a bomb around it has a neighbour in `hidden`. */
  ghost predicate ZeroClosed(n: int, bombs: set<Pos>, region: set<Pos>, hidden: set<Pos>) {
    forall p, q | p in region && Adjacent(n, p, q) && AdjacentBombs(n, bombs, p) == 0 :: q !in hidden
  }

  /**
    What opening `start` leaves behind: the cells it opened are exactly a region that
    spreads from `start` through cells without a bomb around them (no further), and the
    region is complete: no neighbour of such a cell is still hidden (the whole zero
    region and its numbered border are open).
   */
  ghost predicate Cascade(n: int, bombs: set<Pos>, start: Pos, region: set<Pos>, hidden: set<Pos>) {
    start in region && ReachedFrom(n, bombs, start, region) && ZeroClosed(n, bombs, region, hidden)
  }

  /**
    A ZeroPath inside h0 that starts in a zero-closed region r never leaves r: each step
    goes from a cell with no bomb around it to a neighbour, which is not hidden.
   */
  lemma {:induction false} ZeroPathEndsIn(n: int, bombs: set<Pos>, path: seq<Pos>, within: set<Pos>, h0: set<Pos>, r: set<Pos>)
    requires ZeroPath(n, bombs, path, within) && within <= h0
    requires path[0] in r && ZeroClosed(n, bombs, r, h0 - r)
    ensures path[|path| - 1] in r
  {
    if |path| > 1 {
      var t := path[..|path| - 1];
      ZeroPathEndsIn(n, bombs, t, within, h0, r);
      assert Adjacent(n, path[|path| - 2], path[|path| - 1]);
    }
  }

  /** A cascade out of the hidden cells h0 is contained in any other cascade from the same start. */
  lemma CascadeWithin(n: int, bombs: set<Pos>, start: Pos, h0: set<Pos>, h1: set<Pos>, h2: set<Pos>)
    requires h1 <= h0 && h2 <= h0
    requires Cascade(n, bombs, start, h0 - h1, h1) && Cascade(n, bombs, start, h0 - h2, h2)
    ensures h0 - h1 <= h0 - h2
  {
    forall p | p in h0 - h1 ensures p in h0 - h2 {
      var path :| ZeroPath(n, bombs, path, h0 - h1) && path[0] == start && path[|path| - 1] == p;
      assert h0 - (h0 - h2) == h2;
      ZeroPathEndsIn(n, bombs, path, h0 - h1, h0, h0 - h2);
    }
  }

  /**
    Opening a cell out of the hidden cells h0 has one possible outcome: two cascades from
    the same start leave the same cells hidden.
   */
  lemma CascadeIsUnique(n: int, bombs: set<Pos>, start: Pos, h0: set<Pos>, h1: set<Pos>, h2: set<Pos>)
    requires h1 <= h0 && h2 <= h0
    requires Cascade(n, bombs, start, h0 - h1, h1) && Cascade(n, bombs, start, h0 - h2, h2)
    ensures h1 == h2
  {
    CascadeWithin(n, bombs, start, h0, h1, h2);
    CascadeWithin(n, bombs, start, h0, h2, h1);
  }

  lemma ZeroPathWiden(n: int, bombs: set<Pos>, path: seq<Pos>, within: set<Pos>, wider: set<Pos>)
    requires ZeroPath(n, bombs, path, within) && within <= wider
    ensures ZeroPath(n, bombs, path, wider)
  {
  }

  /** A ZeroPath can be extended backwards by a neighbour with no bomb around it. */
  lemma ZeroPathPrepend(n: int, bombs: set<Pos>, start: Pos, path: seq<Pos>, within: set<Pos>)
    requires ZeroPath(n, bombs, path, within) && start in within
    requires Adjacent(n, start, path[0]) && AdjacentBombs(n, bombs, start) == 0
    ensures ZeroPath(n, bombs, [start] + path, within)
  {
    var longer := [start] + path;
    assert forall k | 1 <= k < |longer| :: longer[k] == path[k - 1];
  }

  /**
    Opening `start` alone, out of the hidden cells h0, leaves a region of one cell reached
    from `start`; it is a complete cascade when `start` has a bomb around it.
   */
  lemma CascadeStart(n: int, bombs: set<Pos>, start: Pos, h0: set<Pos>)
    requires start in h0
    ensures h0 - (h0 - {start}) == {start}
    ensures ReachedFrom(n, bombs, start, h0 - (h0 - {start}))
    ensures ZeroClosed(n, bombs, h0 - (h0 - {start}) - {start}, h0 - {start})
    ensures AdjacentBombs(n, bombs, start) != 0 ==> Cascade(n, bombs, start, h0 - (h0 - {start}), h0 - {start})
  {
    assert h0 - (h0 - {start}) == {start};
    assert ZeroPath(n, bombs, [start], {start});
  }

  /**
    One step of the cascade from `start`, a cell with no bomb around it: h0 is what was
    hidden before `start` was opened, h1 what is hidden before its neighbour q is opened
    and h2 what is hidden after. Opening q opens a cascade from q (or nothing), and the
    cells opened so far stay reached from `start`, complete except for `start` itself.
   */
  lemma CascadeStep(n: int, bombs: set<Pos>, start: Pos, q: Pos, h0: set<Pos>, h1: set<Pos>, h2: set<Pos>)
    requires h2 <= h1 <= h0 - {start} && start in h0
    requires ReachedFrom(n, bombs, start, h0 - h1) && ZeroClosed(n, bombs, h0 - h1 - {start}, h1)
    requires Adjacent(n, start, q) && AdjacentBombs(n, bombs, start) == 0
    requires h1 == h2 || Cascade(n, bombs, q, h1 - h2, h2)
    ensures ReachedFrom(n, bombs, start, h0 - h2)
    ensures ZeroClosed(n, bombs, h0 - h2 - {start}, h2)
  {
    if h1 != h2 {
      CascadeStepReaches(n, bombs, start, q, h0, h1, h2);
    } else {
      assert h0 - h2 == h0 - h1;
    }
    forall p, r | p in h0 - h2 - {start} && Adjacent(n, p, r) && AdjacentBombs(n, bombs, p) == 0
      ensures r !in h2
    {
      if p in h0 - h1 {
        assert r !in h1;
      }
    }
  }

  /** The reachability half of CascadeStep, when opening q opened something. */
  lemma CascadeStepReaches(n: int, bombs: set<Pos>, start: Pos, q: Pos, h0: set<Pos>, h1: set<Pos>, h2: set<Pos>)
    requires h2 <= h1 <= h0 - {start} && start in h0
    requires ReachedFrom(n, bombs, start, h0 - h1)
    requires Adjacent(n, start, q) && AdjacentBombs(n, bombs, start) == 0
    requires ReachedFrom(n, bombs, q, h1 - h2)
    ensures ReachedFrom(n, bombs, start, h0 - h2)
  {
    var region := h0 - h1;
    var all := h0 - h2;
    assert start in region;
    forall p | p in all ensures Reaches(n, bombs, start, p, all) {
      if p in region {
        ReachesWiden(n, bombs, start, p, region, all);
      } else {
        assert p in h1 - h2;
        ReachesWiden(n, bombs, q, p, h1 - h2, all);
        ReachesPrepend(n, bombs, start, q, p, all);
      }
    }
  }

  lemma ReachesWiden(n: int, bombs: set<Pos>, start: Pos, p: Pos, within: set<Pos>, wider: set<Pos>)
    requires Reaches(n, bombs, start, p, within) && within <= wider
    ensures Reaches(n, bombs, start, p, wider)
  {
    var path :| ZeroPath(n, bombs, path, within) && path[0] == start && path[|path| - 1] == p;
    ZeroPathWiden(n, bombs, path, within, wider);
  }

  lemma ReachesPrepend(n: int, bombs: set<Pos>, start: Pos, q: Pos, p: Pos, within: set<Pos>)
    requires Reaches(n, bombs, q, p, within) && start in within
    requires Adjacent(n, start, q) && AdjacentBombs(n, bombs, start) == 0
    ensures Reaches(n, bombs, start, p, within)
  {
    var path :| ZeroPath(n, bombs, path, within) && path[0] == q && path[|path| - 1] == p;
    ZeroPathPrepend(n, bombs, start, path, within);
    assert ([start] + path)[|[start] + path| - 1] == p;
  }

  /** Once every neighbour of `start` is uncovered, the region opened from `start` is a complete cascade. */
  lemma CascadeFinish(n: int, bombs: set<Pos>, start: Pos, h0: set<Pos>, hidden: set<Pos>)
    requires start in h0 - hidden
    requires ReachedFrom(n, bombs, start, h0 - hidden) && ZeroClosed(n, bombs, h0 - hidden - {start}, hidden)
    requires forall q | Adjacent(n, start, q) :: q !in hidden
    ensures Cascade(n, bombs, start, h0 - hidden, hidden)
  {
  }
}
