/** The puzzle engine of sudoku/utils.py: the placement check, the complete-grid
    validator, the backtracking solver and the generator. A grid that the engine
    changes in place is a 9x9 `array2<int>`; `Cells` reads it as a `Board`. */
module SudokuEngine {
  import opened SudokuRules

  const GridSize := 9
  const SubgridSize := 3

  /** Seeds placed before solving, and the retry budget of each seed. */
  const SeedCount := 11
  const MaxAttempts := 100

  /** DIFFICULTY_LEVELS: inclusive ranges of the number of empty cells. */
  const DifficultyLevels: map<string, (int, int)> :=
    map["easy" := (25, 35), "medium" := (35, 45), "hard" := (45, 55), "ex-hard" := (55, 60)]

  /** Every difficulty range is non-empty and asks for between 0 and 81 empty cells,
      so any count drawn from it is carved exactly (see GenerateSudoku). */
  lemma DifficultyRangesFitGrid()
    ensures forall name | name in DifficultyLevels ::
              0 <= DifficultyLevels[name].0 <= DifficultyLevels[name].1 <= 81
  {
  }

  predicate Is9x9(g: array2<int>) {
    g.Length0 == 9 && g.Length1 == 9
  }

  ghost function Cells(g: array2<int>): (b: Board)
    reads g
    requires Is9x9(g)
    ensures Shaped(b)
    ensures forall r, c | InGrid(r, c) :: b[r][c] == g[r, c]
  {
    seq(9, r reads g requires 0 <= r < 9 => seq(9, c reads g requires 0 <= c < 9 => g[r, c]))
  }

  // ---------------------------------------------------------------------------
  // is_valid

  /** Whether `num` may go at (row, col): it must not already be in the row, the
      column or the 3x3 box. Reads the grid and changes nothing. */
  method IsValid(g: array2<int>, row: int, col: int, num: int) returns (ok: bool)
    requires Is9x9(g) && InGrid(row, col)
    ensures ok == CanPlace(Cells(g), row, col, num)
  {
    ghost var b := Cells(g);
    for i := 0 to GridSize
      invariant forall k | 0 <= k < i :: b[row][k] != num
    {
      if g[row, i] == num {
        return false;
      }
    }
    for i := 0 to GridSize
      invariant forall k | 0 <= k < i :: b[k][col] != num
    {
      if g[i, col] == num {
        return false;
      }
    }
    var startRow := SubgridSize * (row / SubgridSize);
    var startCol := SubgridSize * (col / SubgridSize);
    for i := 0 to SubgridSize
      invariant forall a, d | 0 <= a < i && 0 <= d < 3 :: BoxAt(b, row, col, a, d) != num
    {
      for j := 0 to SubgridSize
        invariant forall a, d | 0 <= a < i && 0 <= d < 3 :: BoxAt(b, row, col, a, d) != num
        invariant forall d | 0 <= d < j :: BoxAt(b, row, col, i, d) != num
      {
        if g[startRow + i, startCol + j] == num {
          assert BoxAt(b, row, col, i, j) == num;
          return false;
        }
      }
    }
    return true;
  }

  // ---------------------------------------------------------------------------
  // is_valid_complete_grid

  /** Whether `grid` is a legal finished Sudoku: 9 rows of 9 cells, every cell in 1..9,
      and every row, column and 3x3 box free of repeats. */
  method IsValidCompleteGrid(grid: seq<seq<int>>) returns (ok: bool)
    ensures ok == ValidSolution(grid)
  {
    // Structural validation
    if |grid| != GridSize {
      return false;
    }
    for r := 0 to GridSize
      invariant forall k | 0 <= k < r :: |grid[k]| == 9
    {
      if |grid[r]| != GridSize {
        return false;
      }
    }
    // Value range validation
    for r := 0 to GridSize
      invariant forall k, c | 0 <= k < r && 0 <= c < 9 :: 1 <= grid[k][c] <= 9
    {
      for c := 0 to GridSize
        invariant forall k, c' | 0 <= k < r && 0 <= c' < 9 :: 1 <= grid[k][c'] <= 9
        invariant forall c' | 0 <= c' < c :: 1 <= grid[r][c'] <= 9
      {
        if !(1 <= grid[r][c] <= 9) {
          return false;
        }
      }
    }
    // Row uniqueness
    for r := 0 to GridSize
      invariant forall k | 0 <= k < r :: Distinct(grid[k])
    {
      DistinctIffCard(grid[r]);
      if |Elems(grid[r])| != GridSize {
        assert !GroupsDistinct(grid);
        ConflictFreeIffGroupsDistinct(grid);
        return false;
      }
    }
    // Column uniqueness
    for col := 0 to GridSize
      invariant forall k | 0 <= k < col :: Distinct(Column(grid, k))
    {
      var column := seq(GridSize, r requires 0 <= r < GridSize => grid[r][col]);
      assert column == Column(grid, col);
      DistinctIffCard(column);
      if |Elems(column)| != GridSize {
        assert !GroupsDistinct(grid);
        ConflictFreeIffGroupsDistinct(grid);
        return false;
      }
    }
    // Box uniqueness, box origins at rows and columns 0, 3, 6
    var boxRow := 0;
    ghost var bi := 0;
    while boxRow < GridSize
      invariant 0 <= bi <= 3 && boxRow == 3 * bi
      invariant forall k | 0 <= k < 3 * bi :: Distinct(BoxCells(grid, 3 * (k / 3), 3 * (k % 3)))
    {
      var boxCol := 0;
      ghost var bj := 0;
      while boxCol < GridSize
        invariant 0 <= bj <= 3 && boxCol == 3 * bj
        invariant forall k | 0 <= k < 3 * bi + bj :: Distinct(BoxCells(grid, 3 * (k / 3), 3 * (k % 3)))
      {
        var box := CollectBox(grid, boxRow, boxCol);
        DistinctIffCard(box);
        ghost var k := 3 * bi + bj;
        assert k / 3 == bi && k % 3 == bj;
        if |Elems(box)| != GridSize {
          assert !GroupsDistinct(grid);
          ConflictFreeIffGroupsDistinct(grid);
          return false;
        }
        boxCol := boxCol + SubgridSize;
        bj := bj + 1;
      }
      boxRow := boxRow + SubgridSize;
      bi := bi + 1;
    }
    ConflictFreeIffGroupsDistinct(grid);
    return true;
  }

  /** The 9 values of the box with top-left cell (boxRow, boxCol), row by row. */
  method CollectBox(grid: seq<seq<int>>, boxRow: int, boxCol: int) returns (box: seq<int>)
    requires Shaped(grid) && 0 <= boxRow <= 6 && 0 <= boxCol <= 6
    ensures box == BoxCells(grid, boxRow, boxCol)
  {
    box := [];
    for r := boxRow to boxRow + SubgridSize
      invariant |box| == 3 * (r - boxRow)
      invariant forall k | 0 <= k < |box| :: box[k] == grid[boxRow + k / 3][boxCol + k % 3]
    {
      for c := boxCol to boxCol + SubgridSize
        invariant |box| == 3 * (r - boxRow) + (c - boxCol)
        invariant forall k | 0 <= k < |box| :: box[k] == grid[boxRow + k / 3][boxCol + k % 3]
      {
        box := box + [grid[r][c]];
      }
    }
  }

  // ---------------------------------------------------------------------------
  // solve_sudoku

  /** Backtracking search: fill the first empty cell in row-major order with the
      smallest digit that leads to a solution. Filled cells are never touched; on
      failure the grid is exactly as it was; failure means the puzzle has no solution. */
  method Solve(g: array2<int>) returns (solved: bool)
    requires Is9x9(g)
    modifies g
    ensures Extends(Cells(g), old(Cells(g)))
    ensures !solved ==> Cells(g) == old(Cells(g))
    ensures solved ==> Zeros(Cells(g)) == {}
    ensures solved && Proper(old(Cells(g))) ==> ValidSolution(Cells(g))
    ensures !solved ==> forall s :: !IsCompletion(s, old(Cells(g)))
    decreases Zeros(Cells(g)), 1
  {
    ghost var b := Cells(g);
    for row := 0 to GridSize
      invariant Cells(g) == b
      invariant forall r, c | 0 <= r < row && 0 <= c < 9 :: b[r][c] != 0
    {
      for col := 0 to GridSize
        invariant Cells(g) == b
        invariant forall r, c | 0 <= r < row && 0 <= c < 9 :: b[r][c] != 0
        invariant forall c | 0 <= c < col :: b[row][c] != 0
      {
        if g[row, col] == 0 {
          solved := TryDigits(g, row, col);
          return;
        }
      }
    }
    assert Zeros(b) == {};
    return true;
  }

  /** The candidate loop of solve_sudoku at the empty cell (row, col): digits 1..9 in
      ascending order, each placed where IsValid allows it and then solved recursively;
      a failed branch puts the 0 back. */
  method TryDigits(g: array2<int>, row: int, col: int) returns (solved: bool)
    requires Is9x9(g) && InGrid(row, col) && g[row, col] == 0
    modifies g
    ensures Extends(Cells(g), old(Cells(g)))
    ensures !solved ==> Cells(g) == old(Cells(g))
    ensures solved ==> Zeros(Cells(g)) == {}
    ensures solved && Proper(old(Cells(g))) ==> ValidSolution(Cells(g))
    ensures !solved ==> forall s :: !IsCompletion(s, old(Cells(g)))
    decreases Zeros(Cells(g)), 0
  {
    ghost var b := Cells(g);
    for num := 1 to GridSize + 1
      invariant Cells(g) == b
      invariant forall s | IsCompletion(s, b) :: s[row][col] >= num
    {
      var ok := IsValid(g, row, col, num);
      if ok {
        g[row, col] := num;
        ghost var placed := Place(b, row, col, num);
        BoardExt(Cells(g), placed);
        PlaceFillsZero(b, row, col, num);
        solved := Solve(g);
        if solved {
          PlaceThenExtend(b, row, col, num, Cells(g));
          return;
        }
        g[row, col] := 0;
        BoardExt(Cells(g), b);
        forall s | IsCompletion(s, b) && s[row][col] == num
          ensures false
        {
          assert IsCompletion(s, placed);
        }
      } else {
        forall s | IsCompletion(s, b) && s[row][col] == num
          ensures false
        {
          CompletionValueFits(s, b, row, col);
        }
      }
    }
    forall s | IsCompletion(s, b)
      ensures false
    {
      CompletionValueFits(s, b, row, col);
    }
    return false;
  }

  // ---------------------------------------------------------------------------
  // generate_sudoku

  /** One draw of random.randint for (row, col, num). */
  datatype Pick = Pick(row: int, col: int, num: int)

  predicate DrawInRange(p: Pick) {
    InGrid(p.row, p.col) && 1 <= p.num <= 9
  }

  /** Enough in-range draws for every seed and every retry. */
  predicate DrawsSuffice(draws: seq<Pick>) {
    |draws| >= SeedCount * (MaxAttempts + 1) &&
    forall k | 0 <= k < |draws| :: DrawInRange(draws[k])
  }

  /** A shuffle of the 81 coordinates: 81 distinct cells of the grid. */
  predicate IsCellOrder(order: seq<Cell>) {
    |order| == 81 && Distinct(order) && forall k | 0 <= k < |order| :: InGrid(order[k].0, order[k].1)
  }

  /** Python's slice s[:n], including negative and too-large n. */
  function SlicePrefix<T>(s: seq<T>, n: int): seq<T> {
    if n >= |s| then s
    else if n >= 0 then s[..n]
    else if |s| + n >= 0 then s[..|s| + n]
    else []
  }

  /** A draw the seeding loop stops at: the cell is empty and IsValid allows the digit. */
  predicate Acceptable(b: Board, p: Pick)
    requires Shaped(b) && DrawInRange(p)
  {
    b[p.row][p.col] == 0 && CanPlace(b, p.row, p.col, p.num)
  }

  /** One seed from attempt `a` on, its first draw being draws[next]: the grid after
      the seed and the index of the next unused draw. Draw `next + a` is looked at
      with `a` retries spent; once the retries reach MaxAttempts the seed is dropped,
      even when that last draw would have been acceptable. */
  function Attempt(b: Board, draws: seq<Pick>, next: int, a: int): (r: (Board, int))
    requires Shaped(b) && DrawsSuffice(draws) && 0 <= next && 0 <= a <= MaxAttempts
    requires next + MaxAttempts < |draws|
    ensures Shaped(r.0) && next + a < r.1 <= next + MaxAttempts + 1
    decreases MaxAttempts - a
  {
    if a == MaxAttempts then (b, next + a + 1)
    else
      var p := draws[next + a];
      if Acceptable(b, p) then (Place(b, p.row, p.col, p.num), next + a + 1)
      else Attempt(b, draws, next, a + 1)
  }

  /** One iteration of the seeding loop, starting at draw `next`. */
  function SeedOnce(b: Board, draws: seq<Pick>, next: int): (r: (Board, int))
    requires Shaped(b) && DrawsSuffice(draws) && 0 <= next && next + MaxAttempts < |draws|
    ensures Shaped(r.0) && next < r.1 <= next + MaxAttempts + 1
  {
    Attempt(b, draws, next, 0)
  }

  /** After `n` of the seeds, the draws left cover one more seed. */
  lemma DrawBudget(n: int, used: int)
    requires 0 <= n < SeedCount && 0 <= used <= n * (MaxAttempts + 1)
    ensures used + MaxAttempts < SeedCount * (MaxAttempts + 1)
    ensures used + MaxAttempts + 1 <= (n + 1) * (MaxAttempts + 1)
  {
    assert n * (MaxAttempts + 1) <= (SeedCount - 1) * (MaxAttempts + 1);
    assert (n + 1) * (MaxAttempts + 1) == n * (MaxAttempts + 1) + MaxAttempts + 1;
  }

  /** The grid after the first `n` seeds, and the number of draws they used. */
  function Seeded(b: Board, draws: seq<Pick>, n: int): (r: (Board, int))
    requires Shaped(b) && DrawsSuffice(draws) && 0 <= n <= SeedCount
    ensures Shaped(r.0) && 0 <= r.1 <= n * (MaxAttempts + 1)
  {
    if n == 0 then (b, 0)
    else
      var prev := Seeded(b, draws, n - 1);
      DrawBudget(n - 1, prev.1);
      SeedOnce(prev.0, draws, prev.1)
  }

  /** The seeding step: SeedCount times, draw (row, col, num) and redraw while the
      cell is filled or IsValid refuses the digit, at most MaxAttempts times; place
      the digit unless the retries ran out. */
  method SeedGrid(g: array2<int>, draws: seq<Pick>)
    requires Is9x9(g) && Proper(Cells(g)) && DrawsSuffice(draws)
    modifies g
    ensures Cells(g) == Seeded(old(Cells(g)), draws, SeedCount).0
    ensures Proper(Cells(g)) && Extends(Cells(g), old(Cells(g)))
    ensures NonZeros(old(Cells(g))) <= NonZeros(Cells(g))
    ensures |NonZeros(Cells(g))| <= |NonZeros(old(Cells(g)))| + SeedCount
  {
    ghost var b0 := Cells(g);
    var next := 0;
    for seed := 0 to SeedCount
      invariant Cells(g) == Seeded(b0, draws, seed).0 && next == Seeded(b0, draws, seed).1
    {
      ghost var prev := Seeded(b0, draws, seed);
      DrawBudget(seed, next);
      next := PlantSeed(g, draws, next);
      assert Seeded(b0, draws, seed + 1) == SeedOnce(prev.0, draws, prev.1);
    }
    SeededKeepsProper(b0, draws, SeedCount);
    SeededCount(b0, draws, SeedCount);
    ExtendsKeepsGivens(Cells(g), b0);
  }

  /** One iteration of the seeding loop, its first draw being draws[next]: returns
      the index of the next unused draw. */
  method PlantSeed(g: array2<int>, draws: seq<Pick>, next: int) returns (next': int)
    requires Is9x9(g) && DrawsSuffice(draws) && 0 <= next && next + MaxAttempts < |draws|
    modifies g
    ensures Cells(g) == SeedOnce(old(Cells(g)), draws, next).0
    ensures next' == SeedOnce(old(Cells(g)), draws, next).1
  {
    ghost var b := Cells(g);
    var pick, placed;
    pick, next', placed := DrawSeed(g, b, draws, next);
    if placed {
      g[pick.row, pick.col] := pick.num;
      BoardExt(Cells(g), Place(b, pick.row, pick.col, pick.num));
    }
  }

  /** The redraw loop of one seed: draw (row, col, num), redrawing while IsValid
      refuses the digit or the cell is filled, at most MaxAttempts times. `placed`
      says whether the seed is kept, with `pick` its last draw. */
  method DrawSeed(g: array2<int>, ghost b: Board, draws: seq<Pick>, next: int)
    returns (pick: Pick, next': int, placed: bool)
    requires Is9x9(g) && b == Cells(g)
    requires DrawsSuffice(draws) && 0 <= next && next + MaxAttempts < |draws|
    ensures DrawInRange(pick) && (placed ==> Acceptable(b, pick))
    ensures SeedOnce(b, draws, next) == (if placed then Place(b, pick.row, pick.col, pick.num) else b, next')
  {
    var attempts := 0;
    pick := draws[next];
    var valid := IsValid(g, pick.row, pick.col, pick.num);
    while (!valid || g[pick.row, pick.col] != 0) && attempts < MaxAttempts
      invariant 0 <= attempts <= MaxAttempts && pick == draws[next + attempts]
      invariant valid == CanPlace(b, pick.row, pick.col, pick.num)
      invariant SeedOnce(b, draws, next) == Attempt(b, draws, next, attempts)
    {
      AttemptRefused(b, draws, next, attempts, valid && g[pick.row, pick.col] == 0);
      attempts := attempts + 1;
      pick := draws[next + attempts];
      valid := IsValid(g, pick.row, pick.col, pick.num);
    }
    placed := attempts < MaxAttempts;
    next' := next + attempts + 1;
    AttemptEnds(b, draws, next, attempts, valid && g[pick.row, pick.col] == 0);
  }

  /** A refused draw hands the seed on to the next draw; `accepted` is the seeding
      loop's own test of the draw. It is a parameter, pinned to `Acceptable`, only so
      that the loop's proof need not unfold `Acceptable` (which keeps it cheap). */
  lemma AttemptRefused(b: Board, draws: seq<Pick>, next: int, a: int, accepted: bool)
    requires Shaped(b) && DrawsSuffice(draws) && 0 <= next && next + MaxAttempts < |draws|
    requires 0 <= a < MaxAttempts && accepted == Acceptable(b, draws[next + a]) && !accepted
    ensures Attempt(b, draws, next, a) == Attempt(b, draws, next, a + 1)
  {
  }

  /** Where the redraw loop stops, the seed ends: with the digit placed when the
      retries are not used up (the draw then being acceptable), unchanged otherwise.
      `accepted` is pinned to `Acceptable` as in `AttemptRefused`, for the same reason. */
  lemma AttemptEnds(b: Board, draws: seq<Pick>, next: int, a: int, accepted: bool)
    requires Shaped(b) && DrawsSuffice(draws) && 0 <= next && next + MaxAttempts < |draws|
    requires 0 <= a <= MaxAttempts
    requires a < MaxAttempts ==> accepted == Acceptable(b, draws[next + a]) && accepted
    ensures var p := draws[next + a];
      Attempt(b, draws, next, a) == (if a < MaxAttempts then Place(b, p.row, p.col, p.num) else b, next + a + 1)
  {
  }

  /** A seed takes the first acceptable draw among its first MaxAttempts draws. */
  lemma {:induction false} SeedOnceTakesFirst(b: Board, draws: seq<Pick>, next: int, a: int)
    requires Shaped(b) && DrawsSuffice(draws) && 0 <= next && next + MaxAttempts < |draws|
    requires 0 <= a < MaxAttempts && Acceptable(b, draws[next + a])
    requires forall k | next <= k < next + a :: !Acceptable(b, draws[k])
    ensures SeedOnce(b, draws, next) ==
              (Place(b, draws[next + a].row, draws[next + a].col, draws[next + a].num), next + a + 1)
  {
    AttemptFrom(b, draws, next, 0, a);
  }

  lemma {:induction false} AttemptFrom(b: Board, draws: seq<Pick>, next: int, x: int, a: int)
    requires Shaped(b) && DrawsSuffice(draws) && 0 <= next && next + MaxAttempts < |draws|
    requires 0 <= x <= a < MaxAttempts && Acceptable(b, draws[next + a])
    requires forall k | next + x <= k < next + a :: !Acceptable(b, draws[k])
    ensures Attempt(b, draws, next, x) ==
              (Place(b, draws[next + a].row, draws[next + a].col, draws[next + a].num), next + a + 1)
    decreases a - x
  {
    if x < a {
      AttemptFrom(b, draws, next, x + 1, a);
    }
  }

  /** A seed whose first MaxAttempts draws are all refused is dropped, whatever its
      last draw is, and uses MaxAttempts + 1 draws. */
  lemma SeedOnceSkips(b: Board, draws: seq<Pick>, next: int)
    requires Shaped(b) && DrawsSuffice(draws) && 0 <= next && next + MaxAttempts < |draws|
    requires forall k | next <= k < next + MaxAttempts :: !Acceptable(b, draws[k])
    ensures SeedOnce(b, draws, next) == (b, next + MaxAttempts + 1)
  {
    AttemptSkips(b, draws, next, 0);
  }

  lemma {:induction false} AttemptSkips(b: Board, draws: seq<Pick>, next: int, x: int)
    requires Shaped(b) && DrawsSuffice(draws) && 0 <= next && next + MaxAttempts < |draws|
    requires 0 <= x <= MaxAttempts
    requires forall k | next + x <= k < next + MaxAttempts :: !Acceptable(b, draws[k])
    ensures Attempt(b, draws, next, x) == (b, next + MaxAttempts + 1)
    decreases MaxAttempts - x
  {
    if x < MaxAttempts {
      AttemptSkips(b, draws, next, x + 1);
    }
  }

  /** A seed keeps the grid in play and keeps every filled cell. */
  lemma {:induction false} AttemptKeepsProper(b: Board, draws: seq<Pick>, next: int, a: int)
    requires Proper(b) && DrawsSuffice(draws) && 0 <= next && 0 <= a <= MaxAttempts
    requires next + MaxAttempts < |draws|
    ensures Proper(Attempt(b, draws, next, a).0) && Extends(Attempt(b, draws, next, a).0, b)
    decreases MaxAttempts - a
  {
    if a < MaxAttempts {
      var p := draws[next + a];
      if Acceptable(b, p) {
        PlaceStep(b, p.row, p.col, p.num);
      } else {
        AttemptKeepsProper(b, draws, next, a + 1);
      }
    }
  }

  /** A seed fills at most one more cell. */
  lemma {:induction false} AttemptCount(b: Board, draws: seq<Pick>, next: int, a: int)
    requires Shaped(b) && DrawsSuffice(draws) && 0 <= next && 0 <= a <= MaxAttempts
    requires next + MaxAttempts < |draws|
    ensures |NonZeros(Attempt(b, draws, next, a).0)| <= |NonZeros(b)| + 1
    decreases MaxAttempts - a
  {
    if a < MaxAttempts {
      var p := draws[next + a];
      if Acceptable(b, p) {
        PlaceFillsZero(b, p.row, p.col, p.num);
      } else {
        AttemptCount(b, draws, next, a + 1);
      }
    }
  }

  /** Seeding keeps the grid in play and keeps every filled cell. */
  lemma {:induction false} SeededKeepsProper(b: Board, draws: seq<Pick>, n: int)
    requires Proper(b) && DrawsSuffice(draws) && 0 <= n <= SeedCount
    ensures Proper(Seeded(b, draws, n).0) && Extends(Seeded(b, draws, n).0, b)
  {
    if n > 0 {
      SeededKeepsProper(b, draws, n - 1);
      SeededStep(b, draws, n);
      ExtendsTrans(Seeded(b, draws, n).0, Seeded(b, draws, n - 1).0, b);
    }
  }

  /** Seeding adds at most one filled cell per seed. */
  lemma {:induction false} SeededCount(b: Board, draws: seq<Pick>, n: int)
    requires Shaped(b) && DrawsSuffice(draws) && 0 <= n <= SeedCount
    ensures |NonZeros(Seeded(b, draws, n).0)| <= |NonZeros(b)| + n
    decreases n
  {
    if n > 0 {
      SeededCount(b, draws, n - 1);
      SeededCountStep(b, draws, n, |NonZeros(b)| + n - 1);
    }
  }

  /** Seed number `n` keeps the grid in play and keeps every filled cell. */
  lemma SeededStep(b: Board, draws: seq<Pick>, n: int)
    requires Shaped(b) && DrawsSuffice(draws) && 0 < n <= SeedCount
    requires Proper(Seeded(b, draws, n - 1).0)
    ensures Proper(Seeded(b, draws, n).0) && Extends(Seeded(b, draws, n).0, Seeded(b, draws, n - 1).0)
  {
    var prev := Seeded(b, draws, n - 1);
    DrawBudget(n - 1, prev.1);
    AttemptKeepsProper(prev.0, draws, prev.1, 0);
  }

  /** Seed number `n` fills at most one more cell. */
  lemma SeededCountStep(b: Board, draws: seq<Pick>, n: int, bound: int)
    requires Shaped(b) && DrawsSuffice(draws) && 0 < n <= SeedCount
    requires |NonZeros(Seeded(b, draws, n - 1).0)| <= bound
    ensures |NonZeros(Seeded(b, draws, n).0)| <= bound + 1
  {
    var prev := Seeded(b, draws, n - 1);
    DrawBudget(n - 1, prev.1);
    AttemptCount(prev.0, draws, prev.1, 0);
  }

  /** The carving step: empty the first `emptyCells` cells of the shuffled order. */
  method CarveGrid(g: array2<int>, order: seq<Cell>, emptyCells: int)
    requires Is9x9(g) && forall k | 0 <= k < |order| :: InGrid(order[k].0, order[k].1)
    modifies g
    ensures Cells(g) == Carved(old(Cells(g)), SlicePrefix(order, emptyCells))
  {
    ghost var b := Cells(g);
    var targets := SlicePrefix(order, emptyCells);
    BoardExt(b, Carved(b, targets[..0]));
    for k := 0 to |targets|
      invariant Cells(g) == Carved(b, targets[..k])
    {
      var (r, c) := targets[k];
      g[r, c] := 0;
      assert targets[..k + 1] == targets[..k] + [(r, c)];
      BoardExt(Cells(g), Carved(b, targets[..k + 1]));
    }
    assert targets[..|targets|] == targets;
  }

  /** The grid generate_sudoku starts from: every cell empty. */
  function EmptyGrid(): (b: Board)
    ensures Shaped(b) && forall r, c | InGrid(r, c) :: b[r][c] == 0
  {
    seq(9, r => seq(9, c => 0))
  }

  /** generate_sudoku with its randomness made explicit: `draws` are the seeding
      draws in order and `order` is the shuffled list of coordinates. The ghost
      results expose the grid just before carving and whether the solver succeeded
      (the source ignores that result). */
  method GenerateSudoku(emptyCells: int, draws: seq<Pick>, order: seq<Cell>)
    returns (grid: array2<int>, ghost beforeCarve: Board, ghost solved: bool)
    requires DrawsSuffice(draws) && IsCellOrder(order)
    ensures fresh(grid) && Is9x9(grid)
    ensures Proper(Cells(grid))
    ensures Shaped(beforeCarve) && Cells(grid) == Carved(beforeCarve, SlicePrefix(order, emptyCells))
    ensures solved ==> ValidSolution(beforeCarve) && IsCompletion(beforeCarve, Cells(grid))
    ensures solved && 0 <= emptyCells <= 81 ==> |Zeros(Cells(grid))| == emptyCells
    ensures !solved ==> Proper(beforeCarve) && |NonZeros(beforeCarve)| <= SeedCount
    ensures !solved ==> forall s :: !IsCompletion(s, beforeCarve)
    ensures Extends(beforeCarve, Seeded(EmptyGrid(), draws, SeedCount).0)
    ensures solved ==> IsCompletion(beforeCarve, Seeded(EmptyGrid(), draws, SeedCount).0)
    ensures !solved ==> beforeCarve == Seeded(EmptyGrid(), draws, SeedCount).0
  {
    grid := new int[GridSize, GridSize]((r, c) => 0);
    BoardExt(Cells(grid), EmptyGrid());
    assert NonZeros(Cells(grid)) == {};
    SeedGrid(grid, draws);
    solved := Solve(grid);
    beforeCarve := Cells(grid);
    CarveGrid(grid, order, emptyCells);
    CarvedPuzzle(beforeCarve, order, emptyCells, solved);
  }

  /** What carving a grid in play at `order[:emptyCells]` gives, and, for a full valid
      grid, that it completes the puzzle with exactly `emptyCells` empty cells. */
  lemma CarvedPuzzle(before: Board, order: seq<Cell>, emptyCells: int, solved: bool)
    requires Proper(before) && IsCellOrder(order)
    requires solved ==> ValidSolution(before) && Zeros(before) == {}
    ensures Proper(Carved(before, SlicePrefix(order, emptyCells)))
    ensures solved ==> IsCompletion(before, Carved(before, SlicePrefix(order, emptyCells)))
    ensures solved && 0 <= emptyCells <= 81 ==> |Zeros(Carved(before, SlicePrefix(order, emptyCells)))| == emptyCells
  {
    var targets := SlicePrefix(order, emptyCells);
    CarvedKeepsProper(before, targets);
    if solved {
      CarvedFromSolution(before, targets);
      if 0 <= emptyCells <= 81 {
        assert targets == order[..emptyCells];
        DistinctPrefix(order, emptyCells);
        CarveCount(before, targets);
      }
    }
  }

  lemma DistinctPrefix<T>(s: seq<T>, n: int)
    requires Distinct(s) && 0 <= n <= |s|
    ensures Distinct(s[..n])
  {
  }
}
