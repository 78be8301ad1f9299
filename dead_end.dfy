/** A run of generate_sudoku's seeding step that leaves a grid with no solution:
    explicit draws under which the eleven seeds build a conflict-free grid in which
    one empty cell has no candidate, so the solver's ignored result is false. */
module SeedingDeadEnd {
  import opened SudokuRules
  import opened SudokuEngine

  /** Nine givens that seeding can place (each where IsValid allows it) after which
      the cell (0, 0) has no candidate: row 0 holds 1..4, column 0 holds 5..8 and
      the top-left box holds 9. */
  function DeadEndGiven(r: int, c: int): int {
    if r == 0 && 1 <= c <= 4 then c
    else if c == 0 && 1 <= r <= 4 then r + 4
    else if r == 1 && c == 1 then 9
    else 0
  }

  function DeadEndSeeds(): Board {
    seq(9, r requires 0 <= r < 9 => seq(9, c requires 0 <= c < 9 => DeadEndGiven(r, c)))
  }

  /** Seeding alone does not make the grid solvable: a conflict-free grid with at
      most SeedCount givens can have no solution, so Solve may return false inside
      GenerateSudoku, whose carving then works on the seeded grid. */
  lemma SeedsCanLeaveNoSolution()
    ensures Proper(DeadEndSeeds()) && |NonZeros(DeadEndSeeds())| <= SeedCount
    ensures forall s :: !IsCompletion(s, DeadEndSeeds())
  {
    var b := DeadEndSeeds();
    DeadEndSeedsFit();
    forall s | IsCompletion(s, b)
      ensures false
    {
      DeadEndHasNoCandidate();
      CompletionValueFits(s, b, 0, 0);
    }
  }

  /** The dead-end grid is in play and has at most SeedCount givens. */
  lemma DeadEndSeedsFit()
    ensures Proper(DeadEndSeeds()) && |NonZeros(DeadEndSeeds())| <= SeedCount
  {
    DeadEndConflictFree();
    var b := DeadEndSeeds();
    var givens := {(0, 1), (0, 2), (0, 3), (0, 4), (1, 0), (2, 0), (3, 0), (4, 0), (1, 1)};
    assert |givens| <= 9;
    assert NonZeros(b) <= givens;
    SubsetCard(NonZeros(b), givens);
  }

  lemma SubsetCard<T>(a: set<T>, b: set<T>)
    requires a <= b
    ensures |a| <= |b|
  {
    assert b == a + (b - a);
  }

  lemma DeadEndConflictFree()
    ensures Proper(DeadEndSeeds())
  {
    var b := DeadEndSeeds();
    forall r1, c1, r2, c2 | InGrid(r1, c1) && InGrid(r2, c2) && Peers(r1, c1, r2, c2) && b[r1][c1] != 0
      ensures b[r1][c1] != b[r2][c2]
    {
    }
  }

  /** No digit can go into (0, 0) of the dead-end grid. */
  lemma DeadEndHasNoCandidate()
    ensures forall v | 1 <= v <= 9 :: !CanPlace(DeadEndSeeds(), 0, 0, v)
  {
    var b := DeadEndSeeds();
    forall v | 1 <= v <= 9
      ensures !CanPlace(b, 0, 0, v)
    {
      if v <= 4 {
        assert b[0][v] == v;
      } else if v <= 8 {
        assert b[v - 4][0] == v;
      } else {
        assert BoxAt(b, 0, 0, 1, 1) == 9;
      }
    }
  }

  /** The nine draws that seed the dead-end grid, in the order they are drawn. */
  function DeadEndPicks(): seq<Pick> {
    [Pick(0, 1, 1), Pick(0, 2, 2), Pick(0, 3, 3), Pick(0, 4, 4),
     Pick(1, 0, 5), Pick(2, 0, 6), Pick(3, 0, 7), Pick(4, 0, 8), Pick(1, 1, 9)]
  }

  /** Draws under which seeding builds the dead-end grid: the nine picks, each
      accepted at its first draw, then only (0, 1, 1), whose cell is filled by then,
      so that the last two seeds run out of retries and are dropped. */
  function DeadEndDraws(): seq<Pick> {
    DeadEndPicks() + seq(SeedCount * (MaxAttempts + 1) - 9, k => Pick(0, 1, 1))
  }

  /** The position of the dead-end given at (r, c) among the nine picks; 9 for the
      other cells. */
  function PickIndex(r: int, c: int): int {
    if r == 0 && 1 <= c <= 4 then c - 1
    else if c == 0 && 1 <= r <= 4 then r + 3
    else if r == 1 && c == 1 then 8
    else 9
  }

  /** The grid after the first `k` of the nine picks are placed on the empty grid. */
  function DeadEndAfter(k: int): (b: Board)
    ensures Shaped(b)
  {
    seq(9, r requires 0 <= r < 9 => seq(9, c requires 0 <= c < 9 =>
      if PickIndex(r, c) < k then DeadEndGiven(r, c) else 0))
  }

  /** Under DeadEndDraws the seeding step builds the dead-end grid, so generating
      with these draws reaches a grid with no solution: by GenerateSudoku's
      contract the solver then fails and the grid that is carved is that one. */
  lemma SeedingReachesDeadEnd()
    ensures DrawsSuffice(DeadEndDraws())
    ensures Seeded(EmptyGrid(), DeadEndDraws(), SeedCount).0 == DeadEndSeeds()
    ensures forall s :: !IsCompletion(s, Seeded(EmptyGrid(), DeadEndDraws(), SeedCount).0)
  {
    DeadEndDrawsFit();
    SeededDeadEnd(EmptyGrid(), DeadEndDraws());
    SeedsCanLeaveNoSolution();
  }

  lemma DeadEndDrawsFit()
    ensures DrawsSuffice(DeadEndDraws()) && |DeadEndDraws()| == SeedCount * (MaxAttempts + 1)
    ensures forall k | 0 <= k < 9 :: DeadEndDraws()[k] == DeadEndPicks()[k]
    ensures forall k | 9 <= k < |DeadEndDraws()| :: DeadEndDraws()[k] == Pick(0, 1, 1)
  {
    var d := DeadEndDraws();
    forall k | 0 <= k < |d|
      ensures DrawInRange(d[k])
    {
      if k < 9 {
        assert d[k] == DeadEndPicks()[k];
      }
    }
  }

  lemma SeededDeadEnd(e: Board, d: seq<Pick>)
    requires e == EmptyGrid() && d == DeadEndDraws()
    ensures DrawsSuffice(d) && Seeded(e, d, SeedCount).0 == DeadEndSeeds()
  {
    DeadEndDrawsFit();
    var b := DeadEndSeeds();
    SeededPicks(e, d, 9);
    BoardExt(DeadEndAfter(9), b);
    assert b[0][1] == 1;
    assert Seeded(e, d, 10) == SeedOnce(b, d, 9);
    SeedOnceSkips(b, d, 9);
    assert Seeded(e, d, 11) == SeedOnce(b, d, 110);
    SeedOnceSkips(b, d, 110);
  }

  /** Each of the first nine seeds takes its pick at the first draw. */
  lemma {:induction false} SeededPicks(e: Board, d: seq<Pick>, k: int)
    requires e == EmptyGrid() && d == DeadEndDraws() && 0 <= k <= 9
    ensures DrawsSuffice(d) && Seeded(e, d, k) == (DeadEndAfter(k), k)
  {
    DeadEndDrawsFit();
    if k == 0 {
      BoardExt(e, DeadEndAfter(0));
    } else {
      SeededPicks(e, d, k - 1);
      var b := DeadEndAfter(k - 1);
      DeadEndPickStep(k - 1);
      SeedOnceTakesFirst(b, d, k - 1, 0);
    }
  }

  /** Pick `k` is acceptable on the grid holding the picks before it, and placing it
      gives the grid holding the first k + 1 picks. */
  lemma DeadEndPickStep(k: int)
    requires 0 <= k < 9
    ensures var p := DeadEndPicks()[k];
      DrawInRange(p) && Acceptable(DeadEndAfter(k), p) &&
      Place(DeadEndAfter(k), p.row, p.col, p.num) == DeadEndAfter(k + 1)
  {
    var p := DeadEndPicks()[k];
    PicksAtTheirCells();
    DeadEndConflictFree();
    SubGridCanPlace(DeadEndAfter(k), DeadEndSeeds(), p.row, p.col);
    DeadEndPlaceNext(k);
  }

  lemma DeadEndPlaceNext(k: int)
    requires 0 <= k < 9
    ensures var p := DeadEndPicks()[k];
      InGrid(p.row, p.col) && Place(DeadEndAfter(k), p.row, p.col, p.num) == DeadEndAfter(k + 1)
  {
    var p := DeadEndPicks()[k];
    var b, b' := DeadEndAfter(k), DeadEndAfter(k + 1);
    PicksAtTheirCells();
    forall r, c | InGrid(r, c)
      ensures Place(b, p.row, p.col, p.num)[r][c] == b'[r][c]
    {
      if PickIndex(r, c) == k {
        assert DeadEndPicks()[k] == Pick(r, c, DeadEndGiven(r, c));
      }
    }
    BoardExt(Place(b, p.row, p.col, p.num), b');
  }

  /** Pick `k` is the dead-end given at the cell whose position is `k`. */
  lemma PicksAtTheirCells()
    ensures forall k | 0 <= k < 9 :: var p := DeadEndPicks()[k];
      InGrid(p.row, p.col) && PickIndex(p.row, p.col) == k && p.num == DeadEndGiven(p.row, p.col)
    ensures forall r, c | InGrid(r, c) && PickIndex(r, c) < 9 ::
      DeadEndPicks()[PickIndex(r, c)] == Pick(r, c, DeadEndGiven(r, c))
  {
  }

  /** A digit of a grid in play fits into any grid that holds only some of that
      grid's values and leaves the digit's cell empty. */
  lemma SubGridCanPlace(sub: Board, full: Board, r: int, c: int)
    requires Proper(full) && Shaped(sub) && InGrid(r, c) && full[r][c] != 0 && sub[r][c] == 0
    requires forall r', c' | InGrid(r', c') :: sub[r'][c'] == 0 || sub[r'][c'] == full[r'][c']
    ensures CanPlace(sub, r, c, full[r][c])
  {
    CanPlaceIffNoPeerHolds(sub, r, c, full[r][c]);
    forall r', c' | InGrid(r', c') && Peers(r, c, r', c')
      ensures sub[r'][c'] != full[r][c]
    {
    }
  }
}
