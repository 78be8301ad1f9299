/** Properties of the grading in check_puzzle: the cell counts add up, the flags say
    what the counts say, each status letter means what its name says, and the
    alternative-solution block accepts exactly the valid completions of the puzzle
    once its condition is corrected (and only the stored solution as written). */
module GradingFacts {
  import opened SudokuRules
  import opened PuzzleCheck

  function Total(c: CellStats): nat {
    c.correct + c.wrong + c.empty + c.prefilled
  }

  /** Every one of the first k cells has exactly one status. */
  lemma {:induction false} CountsAddUp(st: seq<seq<Status>>, k: int)
    requires StatusShaped(st) && 0 <= k <= 81
    ensures Total(TallyOf(st, k).stats) == k
  {
    if k == 0 {
      EmptyTally(st);
    } else {
      CountsAddUp(st, k - 1);
      var i, j := (k - 1) / 9, (k - 1) % 9;
      assert 9 * i + j + 1 == k;
      CountStep(st, Correct, i, j);
      CountStep(st, Wrong, i, j);
      CountStep(st, NotAttempted, i, j);
      CountStep(st, Prefilled, i, j);
    }
  }

  /** The four cell_stats counters add up to the 81 cells of the grid. */
  lemma GradedCountsAddUp(puzzle: Board, solution: Board, post: Post)
    requires Shaped(puzzle) && Shaped(solution)
    ensures Total(Graded(puzzle, solution, post).stats) == 81
  {
    CountsAddUp(StatusGrid(puzzle, solution, post), 81);
  }

  lemma EmptyIffNoCell(st: seq<seq<Status>>, s: Status)
    requires StatusShaped(st)
    ensures |CellsWith(st, s, 81)| == 0 <==> forall i, j | 0 <= i < 9 && 0 <= j < 9 :: st[i][j] != s
  {
    if exists i, j | 0 <= i < 9 && 0 <= j < 9 :: st[i][j] == s {
      var i, j :| 0 <= i < 9 && 0 <= j < 9 && st[i][j] == s;
      assert (i, j) in CellsWith(st, s, 81);
    }
  }

  /** `correct` stays set exactly when no cell is W or N, `grid_complete` exactly
      when no cell is N, and the error sets are empty exactly when `correct` holds. */
  lemma GradedFlags(puzzle: Board, solution: Board, post: Post)
    requires Shaped(puzzle) && Shaped(solution)
    ensures var g := Graded(puzzle, solution, post);
      && (g.correct <==> g.stats.wrong == 0 && g.stats.empty == 0)
      && (g.gridComplete <==> g.stats.empty == 0)
      && (g.errorRows == {} <==> g.correct)
      && (g.errorCols == {} <==> g.correct)
      && (g.errorBoxes == {} <==> g.correct)
  {
    var st := StatusGrid(puzzle, solution, post);
    EmptyIffNoCell(st, Wrong);
    EmptyIffNoCell(st, NotAttempted);
    if !NoneFlagged(st, 81) {
      var i, j :| 0 <= i < 9 && 0 <= j < 9 && Flagged(st[i][j]);
      assert i in ErrorRowsOf(st, 81);
      assert j in ErrorColsOf(st, 81);
      assert BoxIndex(i, j) in ErrorBoxesOf(st, 81);
    }
  }

  /** With the inputs accepted, the status letter of an empty cell says what was
      entered: N exactly when nothing was (and input_grid records 0); otherwise the
      entry is a number 1..9, C when it is the stored solution's and W when not. A
      pre-filled cell is P and keeps the puzzle's number. */
  lemma StatusMeaning(puzzle: Board, solution: Board, post: Post, i: int, j: int)
    requires Shaped(puzzle) && Shaped(solution) && InGrid(i, j) && InputsValid(puzzle, post)
    ensures var g := Graded(puzzle, solution, post);
      && (g.status[i][j] == Prefilled <==> puzzle[i][j] != 0)
      && (puzzle[i][j] != 0 ==> g.inputGrid[i][j] == puzzle[i][j])
      && (g.status[i][j] == NotAttempted <==> puzzle[i][j] == 0 && Submitted(post, i, j) == "")
      && (g.status[i][j] == NotAttempted ==> g.inputGrid[i][j] == 0)
      && (g.status[i][j] in {Correct, Wrong} ==> 1 <= g.inputGrid[i][j] <= 9)
      && (g.status[i][j] == Correct <==>
            puzzle[i][j] == 0 && Submitted(post, i, j) != "" && g.inputGrid[i][j] == solution[i][j])
  {
  }

  /** For a stored solution that completes the puzzle, the answer is graded correct
      exactly when input_grid is that solution. */
  lemma GradedCorrectIffSolution(puzzle: Board, solution: Board, post: Post)
    requires Shaped(puzzle) && IsCompletion(solution, puzzle) && InputsValid(puzzle, post)
    ensures var g := Graded(puzzle, solution, post);
      g.correct <==> g.inputGrid == solution
  {
    var g := Graded(puzzle, solution, post);
    var st := g.status;
    if g.correct {
      forall i | 0 <= i < 9 ensures g.inputGrid[i] == solution[i] {
        forall j | 0 <= j < 9 ensures g.inputGrid[i][j] == solution[i][j] {
          StatusMeaning(puzzle, solution, post, i, j);
          assert !Flagged(st[i][j]);
        }
      }
    }
    if g.inputGrid == solution {
      forall i, j | 0 <= i < 9 && 0 <= j < 9 ensures !Flagged(st[i][j]) {
        StatusMeaning(puzzle, solution, post, i, j);
      }
    }
  }

  /** input_grid keeps every pre-filled number; with the inputs accepted, its
      empty cells are exactly the N cells. */
  lemma EntriesKeepGivens(puzzle: Board, solution: Board, post: Post)
    requires Shaped(puzzle) && Shaped(solution) && InputsValid(puzzle, post)
    ensures var g := Graded(puzzle, solution, post);
      && Extends(g.inputGrid, puzzle)
      && forall i, j | 0 <= i < 9 && 0 <= j < 9 :: g.inputGrid[i][j] == 0 <==> g.status[i][j] == NotAttempted
  {
    var g := Graded(puzzle, solution, post);
    forall i, j | 0 <= i < 9 && 0 <= j < 9
      ensures puzzle[i][j] != 0 ==> g.inputGrid[i][j] == puzzle[i][j]
      ensures g.inputGrid[i][j] == 0 <==> g.status[i][j] == NotAttempted
    {
      StatusMeaning(puzzle, solution, post, i, j);
    }
  }

  /** An accepted answer is complete when it is a valid grid. */
  lemma CompletionHasNoGaps(puzzle: Board, solution: Board, post: Post)
    requires Shaped(puzzle) && Shaped(solution) && InputsValid(puzzle, post)
    requires ValidSolution(Graded(puzzle, solution, post).inputGrid)
    ensures Graded(puzzle, solution, post).gridComplete
  {
    var g := Graded(puzzle, solution, post);
    EntriesKeepGivens(puzzle, solution, post);
    assert forall i, j | 0 <= i < 9 && 0 <= j < 9 :: g.inputGrid[i][j] != 0;
  }

  /** The alternative-solution block keeps cell_stats in step with the rewritten
      user_input_status: no W is left, and C, N and P count the cells with those
      letters. */
  lemma AcceptedCounts(puzzle: Board, solution: Board, post: Post)
    requires Shaped(puzzle) && Shaped(solution)
    ensures var a := Accepted(Graded(puzzle, solution, post));
      && StatusShaped(a.status)
      && a.stats == CellStats(|CellsWith(a.status, Correct, 81)|, |CellsWith(a.status, Wrong, 81)|,
                              |CellsWith(a.status, NotAttempted, 81)|, |CellsWith(a.status, Prefilled, 81)|)
      && CellsWith(a.status, Wrong, 81) == {}
  {
    var st := StatusGrid(puzzle, solution, post);
    PromotedCells(st);
    PromotedKeepsOthers(st);
  }

  lemma PromotedCells(st: seq<seq<Status>>)
    requires StatusShaped(st)
    ensures StatusShaped(Promote(st))
    ensures CellsWith(Promote(st), Correct, 81) == CellsWith(st, Correct, 81) + CellsWith(st, Wrong, 81)
    ensures CellsWith(st, Correct, 81) !! CellsWith(st, Wrong, 81)
    ensures CellsWith(Promote(st), Wrong, 81) == {}
  {
    var pg := Promote(st);
    assert forall i, j | 0 <= i < 9 && 0 <= j < 9 :: pg[i][j] == Promoted(st[i][j]);
  }

  lemma PromotedKeepsOthers(st: seq<seq<Status>>)
    requires StatusShaped(st)
    ensures StatusShaped(Promote(st))
    ensures CellsWith(Promote(st), NotAttempted, 81) == CellsWith(st, NotAttempted, 81)
    ensures CellsWith(Promote(st), Prefilled, 81) == CellsWith(st, Prefilled, 81)
  {
    var pg := Promote(st);
    assert forall i, j | 0 <= i < 9 && 0 <= j < 9 :: pg[i][j] == Promoted(st[i][j]);
  }

  /** With the corrected condition, and a stored solution that completes the
      puzzle, the check accepts an answer exactly when it is a valid completion of
      the puzzle, and reports an alternative solution exactly when that completion
      is not the stored one. */
  lemma CorrectedVerdict(puzzle: Board, solution: Board, post: Post)
    requires Shaped(puzzle) && IsCompletion(solution, puzzle) && InputsValid(puzzle, post)
    ensures var g := Graded(puzzle, solution, post);
      && (Finish(g).correct <==> IsCompletion(g.inputGrid, puzzle))
      && (Finish(g).alternativeFound <==> IsCompletion(g.inputGrid, puzzle) && g.inputGrid != solution)
  {
    var g := Graded(puzzle, solution, post);
    EntriesKeepGivens(puzzle, solution, post);
    GradedCorrectIffSolution(puzzle, solution, post);
    if ValidSolution(g.inputGrid) {
      CompletionHasNoGaps(puzzle, solution, post);
    }
  }

  /** As written, the block fires only when there is no W cell, so it rewrites
      nothing: it only raises the alternative-solution flag. */
  lemma AsWrittenRewritesNothing(puzzle: Board, solution: Board, post: Post)
    requires Shaped(puzzle) && Shaped(solution)
    requires AlternativeCheckAsWritten(Graded(puzzle, solution, post))
    ensures var g := Graded(puzzle, solution, post);
      Accepted(g) == g.(alternativeFound := true)
  {
    var g := Graded(puzzle, solution, post);
    var st := g.status;
    GradedFlags(puzzle, solution, post);
    EmptyIffNoCell(st, Wrong);
    forall i | 0 <= i < 9 ensures Promote(st)[i] == st[i] {
      assert forall j | 0 <= j < 9 :: st[i][j] != Wrong;
    }
  }

  /** As written, with a stored solution that completes the puzzle, the check
      accepts an answer only when it is the stored solution, and it is then that
      very answer it reports as an alternative solution. */
  lemma AsWrittenVerdict(puzzle: Board, solution: Board, post: Post)
    requires Shaped(puzzle) && IsCompletion(solution, puzzle) && InputsValid(puzzle, post)
    ensures var g := Graded(puzzle, solution, post);
      && (FinishAsWritten(g).correct <==> g.inputGrid == solution)
      && (FinishAsWritten(g).alternativeFound <==> g.inputGrid == solution)
  {
    var g := Graded(puzzle, solution, post);
    GradedCorrectIffSolution(puzzle, solution, post);
    if g.inputGrid == solution {
      CompletionHasNoGaps(puzzle, solution, post);
    }
  }

  // ---------------------------------------------------------------------------
  // A puzzle with two completions, on which the two conditions part ways

  /** A completed grid built by shifting the row 1..9 (rows 0, 3, 6, 1, 4, 7, 2, 5, 8
      start with 1, 2, ..., 9). */
  function Pattern(): (b: Board)
    ensures Shaped(b)
  {
    seq(9, r => seq(9, c => (3 * (r % 3) + r / 3 + c) % 9 + 1))
  }

  /** Exchanges the digits 1 and 2. */
  function Swap12(v: int): int {
    if v == 1 then 2 else if v == 2 then 1 else v
  }

  /** Pattern() with the digits 1 and 2 exchanged. */
  function Swapped(): (b: Board)
    ensures Shaped(b)
  {
    seq(9, r requires 0 <= r < 9 => seq(9, c requires 0 <= c < 9 => Swap12(Pattern()[r][c])))
  }

  /** Pattern() with every 1 and 2 blanked out: 18 empty cells. */
  function TwoWayPuzzle(): (b: Board)
    ensures Shaped(b)
  {
    seq(9, r requires 0 <= r < 9 => seq(9, c requires 0 <= c < 9 => if Pattern()[r][c] <= 2 then 0 else Pattern()[r][c]))
  }

  function AllCells(): set<Cell> {
    set r, c | 0 <= r < 9 && 0 <= c < 9 :: (r, c)
  }

  /** The form of a player who fills in Swapped(): "2" where Pattern() has 1, "1"
      where it has 2. */
  function SwappedPost(): Post {
    map p | p in AllCells() && Pattern()[p.0][p.1] <= 2 :: if Pattern()[p.0][p.1] == 1 then "2" else "1"
  }

  lemma ModDiffers(x: int, y: int)
    requires 0 <= x && 0 <= y && x != y && -9 < x - y < 9
    ensures x % 9 != y % 9
  {
  }

  lemma PatternValid()
    ensures ValidSolution(Pattern())
  {
    var b := Pattern();
    forall r1, c1, r2, c2 | 0 <= r1 < 9 && 0 <= c1 < 9 && 0 <= r2 < 9 && 0 <= c2 < 9 && Peers(r1, c1, r2, c2)
      ensures b[r1][c1] != b[r2][c2]
    {
      var x1, x2 := 3 * (r1 % 3) + r1 / 3 + c1, 3 * (r2 % 3) + r2 / 3 + c2;
      ModDiffers(x1, x2);
    }
  }

  /** Renaming the digits 1 and 2 keeps a grid a valid solution. */
  lemma SwappedValid()
    ensures ValidSolution(Swapped())
  {
    PatternValid();
    var a, b := Pattern(), Swapped();
    forall r1, c1, r2, c2 | 0 <= r1 < 9 && 0 <= c1 < 9 && 0 <= r2 < 9 && 0 <= c2 < 9 && Peers(r1, c1, r2, c2)
      ensures b[r1][c1] != b[r2][c2]
    {
      assert a[r1][c1] != a[r2][c2];
    }
  }

  /** Both grids complete TwoWayPuzzle(). */
  lemma TwoCompletions()
    ensures IsCompletion(Pattern(), TwoWayPuzzle()) && IsCompletion(Swapped(), TwoWayPuzzle())
    ensures Swapped() != Pattern()
  {
    PatternValid();
    SwappedValid();
    assert Swapped()[0][0] != Pattern()[0][0];
  }

  /** The entry SwappedPost() gives for one cell. */
  lemma SwappedEntry(i: int, j: int)
    requires InGrid(i, j)
    ensures TwoWayPuzzle()[i][j] == 0 ==> !Rejected(Submitted(SwappedPost(), i, j))
    ensures CellEntry(TwoWayPuzzle(), SwappedPost(), i, j) == Swapped()[i][j]
  {
    var v := Pattern()[i][j];
    assert 1 <= v <= 9;
    if v <= 2 {
      assert (i, j) in AllCells();
      var s := Submitted(SwappedPost(), i, j);
      assert s == (if v == 1 then "2" else "1");
      assert DecimalValue(s) == Swap12(v);
    }
  }

  /** On TwoWayPuzzle(), with Pattern() stored as the solution, a player who enters
      the other completion Swapped() is graded wrong by the block as written and
      accepted, as an alternative solution, by the corrected one. */
  lemma AsWrittenRejectsSecondCompletion()
    ensures var g := Graded(TwoWayPuzzle(), Pattern(), SwappedPost());
      && IsCompletion(Pattern(), TwoWayPuzzle())
      && InputsValid(TwoWayPuzzle(), SwappedPost())
      && g.inputGrid == Swapped()
      && IsCompletion(g.inputGrid, TwoWayPuzzle())
      && g.inputGrid != Pattern()
      && !FinishAsWritten(g).correct
      && Finish(g).correct && Finish(g).alternativeFound
  {
    var puzzle, post := TwoWayPuzzle(), SwappedPost();
    TwoCompletions();
    forall i, j | 0 <= i < 9 && 0 <= j < 9
      ensures puzzle[i][j] == 0 ==> !Rejected(Submitted(post, i, j))
      ensures CellEntry(puzzle, post, i, j) == Swapped()[i][j]
    {
      SwappedEntry(i, j);
    }
    var g := Graded(puzzle, Pattern(), post);
    forall i | 0 <= i < 9 ensures g.inputGrid[i] == Swapped()[i] {
    }
    AsWrittenVerdict(puzzle, Pattern(), post);
    CorrectedVerdict(puzzle, Pattern(), post);
  }
}
