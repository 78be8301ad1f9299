/** The answer-grading loop of check_puzzle in sudoku/views.py: the submitted form
    fields are validated, every cell is classified as pre-filled (P), correct (C),
    wrong (W) or not attempted (N), the classes are counted, and the rows, columns
    and boxes holding W or N cells are collected. The session, the database and
    the rendering around it are not modelled; the form is a map from (row, column)
    to the submitted string. */
module PuzzleCheck {
  import opened SudokuRules
  import SudokuEngine

  /** The status letters "P", "C", "W" and "N". */
  datatype Status = Prefilled | Correct | Wrong | NotAttempted

  /** The cell_stats dictionary. */
  datatype CellStats = CellStats(correct: nat, wrong: nat, empty: nat, prefilled: nat)

  /** The state check_puzzle has built when the grading loop and the
      alternative-solution block are done. */
  datatype Grading = Grading(
    inputGrid: Board,
    status: seq<seq<Status>>,
    stats: CellStats,
    errorRows: set<int>,
    errorCols: set<int>,
    errorBoxes: set<int>,
    correct: bool,
    gridComplete: bool,
    alternativeFound: bool)

  datatype Result<T, E> = Success(value: T) | Failure(error: E)

  /** The submitted form: cell_i_j is the key (i, j). */
  type Post = map<Cell, string>

  /** request.POST.get("cell_i_j", "") */
  function Submitted(post: Post, i: int, j: int): string {
    if (i, j) in post then post[(i, j)] else ""
  }

  predicate AllDigits(s: string) {
    forall k | 0 <= k < |s| :: '0' <= s[k] <= '9'
  }

  /** str.isdigit(), for ASCII digits. */
  predicate IsDigitString(s: string) {
    |s| > 0 && AllDigits(s)
  }

  /** int(s) for a string of decimal digits; leading zeros are allowed. */
  function DecimalValue(s: string): nat
    requires AllDigits(s)
  {
    if |s| == 0 then 0 else 10 * DecimalValue(s[..|s| - 1]) + (s[|s| - 1] as int - '0' as int)
  }

  /** The input check of lines 1011-1015: a non-empty entry that is not a digit string
      with value 1..9. */
  predicate Rejected(s: string) {
    s != "" && (!IsDigitString(s) || DecimalValue(s) < 1 || DecimalValue(s) > 9)
  }

  lemma {:induction false} ZeroValue(s: string)
    requires AllDigits(s)
    ensures DecimalValue(s) == 0 <==> forall k | 0 <= k < |s| :: s[k] == '0'
  {
    if |s| > 0 {
      var t := s[..|s| - 1];
      ZeroValue(t);
      assert forall k | 0 <= k < |t| :: t[k] == s[k];
    }
  }

  /** A digit string passes the input check exactly when it is one digit 1..9 after
      any number of leading zeros ("7", "07" and "0007" all stand for 7). */
  lemma {:induction false} AcceptedDigitStrings(s: string)
    requires IsDigitString(s)
    ensures 1 <= DecimalValue(s) <= 9 <==>
              '1' <= s[|s| - 1] <= '9' && forall k | 0 <= k < |s| - 1 :: s[k] == '0'
  {
    var t := s[..|s| - 1];
    ZeroValue(t);
    assert forall k | 0 <= k < |t| :: t[k] == s[k];
  }

  /** Every empty cell of the puzzle has an acceptable entry (no validation error). */
  predicate InputsValid(puzzle: Board, post: Post)
    requires Shaped(puzzle)
  {
    forall i, j | 0 <= i < 9 && 0 <= j < 9 :: puzzle[i][j] == 0 ==> !Rejected(Submitted(post, i, j))
  }

  /** validation_errors holds exactly the empty cells of the puzzle with a rejected
      entry, each with the entry that was refused. */
  predicate ReportsInvalidInputs(errors: map<Cell, string>, puzzle: Board, post: Post)
    requires Shaped(puzzle)
  {
    && (forall i, j | 0 <= i < 9 && 0 <= j < 9 ::
          (i, j) in errors <==> puzzle[i][j] == 0 && Rejected(Submitted(post, i, j)))
    && (forall p | p in errors :: InGrid(p.0, p.1) && errors[p] == Submitted(post, p.0, p.1))
  }

  /** The validation loop: pre-filled cells are skipped; every other cell's entry is
      checked. The message text is not modelled, only the refused entry. */
  method ValidateInputs(puzzle: Board, post: Post) returns (errors: map<Cell, string>)
    requires Shaped(puzzle)
    ensures ReportsInvalidInputs(errors, puzzle, post)
  {
    errors := map[];
    for i := 0 to 9
      invariant forall p | p in errors :: InGrid(p.0, p.1) && p.0 < i && errors[p] == Submitted(post, p.0, p.1)
      invariant forall i', j | 0 <= i' < i && 0 <= j < 9 ::
                  (i', j) in errors <==> puzzle[i'][j] == 0 && Rejected(Submitted(post, i', j))
    {
      for j := 0 to 9
        invariant forall p | p in errors :: InGrid(p.0, p.1) && (p.0 < i || (p.0 == i && p.1 < j)) && errors[p] == Submitted(post, p.0, p.1)
        invariant forall i', j' | 0 <= i' < i && 0 <= j' < 9 ::
                    (i', j') in errors <==> puzzle[i'][j'] == 0 && Rejected(Submitted(post, i', j'))
        invariant forall j' | 0 <= j' < j ::
                    (i, j') in errors <==> puzzle[i][j'] == 0 && Rejected(Submitted(post, i, j'))
      {
        var userValue := Submitted(post, i, j);
        if puzzle[i][j] != 0 {
          continue;
        }
        if userValue != "" && (!IsDigitString(userValue) || DecimalValue(userValue) < 1 || DecimalValue(userValue) > 9) {
          errors := errors[(i, j) := userValue];
        }
      }
    }
  }

  // ---------------------------------------------------------------------------
  // Specification of the grading loop

  predicate StatusShaped(st: seq<seq<Status>>) {
    |st| == 9 && forall i | 0 <= i < 9 :: |st[i]| == 9
  }

  /** The status of one cell. */
  function CellStatus(puzzle: Board, solution: Board, post: Post, i: int, j: int): Status
    requires Shaped(puzzle) && Shaped(solution) && InGrid(i, j)
  {
    var v := Submitted(post, i, j);
    if puzzle[i][j] != 0 then Prefilled
    else if v != "" && IsDigitString(v) then
      (if DecimalValue(v) == solution[i][j] then Correct else Wrong)
    else NotAttempted
  }

  /** The value input_grid records for one cell. */
  function CellEntry(puzzle: Board, post: Post, i: int, j: int): int
    requires Shaped(puzzle) && InGrid(i, j)
  {
    var v := Submitted(post, i, j);
    if puzzle[i][j] != 0 then puzzle[i][j]
    else if v != "" && IsDigitString(v) then DecimalValue(v)
    else 0
  }

  function StatusGrid(puzzle: Board, solution: Board, post: Post): (st: seq<seq<Status>>)
    requires Shaped(puzzle) && Shaped(solution)
    ensures StatusShaped(st)
    ensures forall i, j | 0 <= i < 9 && 0 <= j < 9 :: st[i][j] == CellStatus(puzzle, solution, post, i, j)
  {
    seq(9, i requires 0 <= i < 9 => seq(9, j requires 0 <= j < 9 => CellStatus(puzzle, solution, post, i, j)))
  }

  function EntryGrid(puzzle: Board, post: Post): (b: Board)
    requires Shaped(puzzle)
    ensures Shaped(b)
    ensures forall i, j | 0 <= i < 9 && 0 <= j < 9 :: b[i][j] == CellEntry(puzzle, post, i, j)
  {
    seq(9, i requires 0 <= i < 9 => seq(9, j requires 0 <= j < 9 => CellEntry(puzzle, post, i, j)))
  }

  /** The cells with status `s` among the first `k` cells in row-major order. */
  function CellsWith(st: seq<seq<Status>>, s: Status, k: int): set<Cell>
    requires StatusShaped(st)
  {
    set i, j | 0 <= i < 9 && 0 <= j < 9 && 9 * i + j < k && st[i][j] == s :: (i, j)
  }

  /** The statuses that put a cell's row, column and box among the errors. */
  predicate Flagged(s: Status) {
    s == Wrong || s == NotAttempted
  }

  /** The rows of the W and N cells among the first `k` cells. */
  function ErrorRowsOf(st: seq<seq<Status>>, k: int): set<int>
    requires StatusShaped(st)
  {
    set i, j | 0 <= i < 9 && 0 <= j < 9 && 9 * i + j < k && Flagged(st[i][j]) :: i
  }

  /** The columns of the W and N cells among the first `k` cells. */
  function ErrorColsOf(st: seq<seq<Status>>, k: int): set<int>
    requires StatusShaped(st)
  {
    set i, j | 0 <= i < 9 && 0 <= j < 9 && 9 * i + j < k && Flagged(st[i][j]) :: j
  }

  /** The boxes of the W and N cells among the first `k` cells. */
  function ErrorBoxesOf(st: seq<seq<Status>>, k: int): set<int>
    requires StatusShaped(st)
  {
    set i, j | 0 <= i < 9 && 0 <= j < 9 && 9 * i + j < k && Flagged(st[i][j]) :: BoxIndex(i, j)
  }

  /** None of the first `k` cells is W or N. */
  predicate NoneFlagged(st: seq<seq<Status>>, k: int)
    requires StatusShaped(st)
  {
    forall i, j | 0 <= i < 9 && 0 <= j < 9 && 9 * i + j < k :: !Flagged(st[i][j])
  }

  /** None of the first `k` cells is N. */
  predicate NoneMissing(st: seq<seq<Status>>, k: int)
    requires StatusShaped(st)
  {
    forall i, j | 0 <= i < 9 && 0 <= j < 9 && 9 * i + j < k :: st[i][j] != NotAttempted
  }

  /** The counters, error sets and flags of the grading loop. */
  datatype Tally = Tally(
    stats: CellStats,
    errorRows: set<int>,
    errorCols: set<int>,
    errorBoxes: set<int>,
    correct: bool,
    gridComplete: bool)

  /** The tally over the first `k` cells in row-major order: every count is the
      number of cells with that status, the error sets are the rows, columns and
      boxes of the W and N cells, `correct` says there is no W or N cell and
      `gridComplete` that there is no N cell. */
  function TallyOf(st: seq<seq<Status>>, k: int): Tally
    requires StatusShaped(st)
  {
    Tally(
      CellStats(|CellsWith(st, Correct, k)|, |CellsWith(st, Wrong, k)|,
                |CellsWith(st, NotAttempted, k)|, |CellsWith(st, Prefilled, k)|),
      ErrorRowsOf(st, k), ErrorColsOf(st, k), ErrorBoxesOf(st, k),
      NoneFlagged(st, k), NoneMissing(st, k))
  }

  /** What the grading loop computes. */
  function Graded(puzzle: Board, solution: Board, post: Post): Grading
    requires Shaped(puzzle) && Shaped(solution)
  {
    var st := StatusGrid(puzzle, solution, post);
    var t := TallyOf(st, 81);
    Grading(EntryGrid(puzzle, post), st, t.stats, t.errorRows, t.errorCols, t.errorBoxes,
            t.correct, t.gridComplete, false)
  }

  /** How one cell with status `s` at (i, j) changes the tally. */
  function Record(t: Tally, s: Status, i: int, j: int): Tally
    requires InGrid(i, j)
  {
    match s
    case Prefilled => t.(stats := t.stats.(prefilled := t.stats.prefilled + 1))
    case Correct => t.(stats := t.stats.(correct := t.stats.correct + 1))
    case Wrong =>
      t.(stats := t.stats.(wrong := t.stats.wrong + 1),
         errorRows := t.errorRows + {i}, errorCols := t.errorCols + {j},
         errorBoxes := t.errorBoxes + {BoxIndex(i, j)}, correct := false)
    case NotAttempted =>
      t.(stats := t.stats.(empty := t.stats.empty + 1),
         errorRows := t.errorRows + {i}, errorCols := t.errorCols + {j},
         errorBoxes := t.errorBoxes + {BoxIndex(i, j)}, correct := false, gridComplete := false)
  }

  lemma TallyStep(st: seq<seq<Status>>, i: int, j: int)
    requires StatusShaped(st) && InGrid(i, j)
    ensures TallyOf(st, 9 * i + j + 1) == Record(TallyOf(st, 9 * i + j), st[i][j], i, j)
  {
    StatsStep(st, i, j);
    ErrorSetsStep(st, i, j);
    VerdictStep(st, i, j);
  }

  lemma StatsStep(st: seq<seq<Status>>, i: int, j: int)
    requires StatusShaped(st) && InGrid(i, j)
    ensures TallyOf(st, 9 * i + j + 1).stats == Record(TallyOf(st, 9 * i + j), st[i][j], i, j).stats
  {
    CountStep(st, Correct, i, j);
    CountStep(st, Wrong, i, j);
    CountStep(st, NotAttempted, i, j);
    CountStep(st, Prefilled, i, j);
  }

  lemma ErrorSetsStep(st: seq<seq<Status>>, i: int, j: int)
    requires StatusShaped(st) && InGrid(i, j)
    ensures TallyOf(st, 9 * i + j + 1).errorRows == Record(TallyOf(st, 9 * i + j), st[i][j], i, j).errorRows
    ensures TallyOf(st, 9 * i + j + 1).errorCols == Record(TallyOf(st, 9 * i + j), st[i][j], i, j).errorCols
    ensures TallyOf(st, 9 * i + j + 1).errorBoxes == Record(TallyOf(st, 9 * i + j), st[i][j], i, j).errorBoxes
  {
    FlaggedStep(st, i, j);
  }

  lemma VerdictStep(st: seq<seq<Status>>, i: int, j: int)
    requires StatusShaped(st) && InGrid(i, j)
    ensures TallyOf(st, 9 * i + j + 1).correct == Record(TallyOf(st, 9 * i + j), st[i][j], i, j).correct
    ensures TallyOf(st, 9 * i + j + 1).gridComplete == Record(TallyOf(st, 9 * i + j), st[i][j], i, j).gridComplete
  {
    FlagStep(st, i, j);
  }

  /** The tallies of the first 0, 1, ..., 81 cells: the first is the loop's starting
      tally and each one is the one before with the next cell counted. */
  lemma Tallies(st: seq<seq<Status>>) returns (tallies: seq<Tally>)
    requires StatusShaped(st)
    ensures |tallies| == 82
    ensures tallies[0] == Tally(CellStats(0, 0, 0, 0), {}, {}, {}, true, true)
    ensures tallies[81] == TallyOf(st, 81)
    ensures forall i, j | 0 <= i < 9 && 0 <= j < 9 :: tallies[9 * i + j + 1] == Record(tallies[9 * i + j], st[i][j], i, j)
  {
    tallies := seq(82, k requires 0 <= k < 82 => TallyOf(st, k));
    EmptyTally(st);
    forall i, j | 0 <= i < 9 && 0 <= j < 9
      ensures tallies[9 * i + j + 1] == Record(tallies[9 * i + j], st[i][j], i, j)
    {
      TallyStep(st, i, j);
    }
  }

  /** Moving on from cell k = 9 * i + j clears `correct` exactly at a W or N cell and
      `gridComplete` exactly at an N cell. */
  lemma FlagStep(st: seq<seq<Status>>, i: int, j: int)
    requires StatusShaped(st) && InGrid(i, j)
    ensures NoneFlagged(st, 9 * i + j + 1) <==> NoneFlagged(st, 9 * i + j) && !Flagged(st[i][j])
    ensures NoneMissing(st, 9 * i + j + 1) <==> NoneMissing(st, 9 * i + j) && st[i][j] != NotAttempted
  {
    var k := 9 * i + j;
    forall i', j' | 0 <= i' < 9 && 0 <= j' < 9 && 9 * i' + j' == k
      ensures st[i'][j'] == st[i][j]
    {
      assert i' == i;
    }
  }

  /** Moving on from cell k = 9 * i + j raises the count of its status by one and
      leaves the other counts alone. */
  lemma CountStep(st: seq<seq<Status>>, s: Status, i: int, j: int)
    requires StatusShaped(st) && InGrid(i, j)
    ensures |CellsWith(st, s, 9 * i + j + 1)| ==
              |CellsWith(st, s, 9 * i + j)| + (if st[i][j] == s then 1 else 0)
  {
    CellsWithStep(st, s, i, j);
  }

  /** Moving on from a W or N cell adds its row, column and box to the error sets. */
  lemma FlaggedStep(st: seq<seq<Status>>, i: int, j: int)
    requires StatusShaped(st) && InGrid(i, j)
    ensures ErrorRowsOf(st, 9 * i + j + 1) == ErrorRowsOf(st, 9 * i + j) + (if Flagged(st[i][j]) then {i} else {})
    ensures ErrorColsOf(st, 9 * i + j + 1) == ErrorColsOf(st, 9 * i + j) + (if Flagged(st[i][j]) then {j} else {})
    ensures ErrorBoxesOf(st, 9 * i + j + 1) ==
              ErrorBoxesOf(st, 9 * i + j) + (if Flagged(st[i][j]) then {BoxIndex(i, j)} else {})
  {
    FlaggedRowStep(st, i, j);
    FlaggedColStep(st, i, j);
    FlaggedBoxStep(st, i, j);
  }

  lemma FlaggedRowStep(st: seq<seq<Status>>, i: int, j: int)
    requires StatusShaped(st) && InGrid(i, j)
    ensures ErrorRowsOf(st, 9 * i + j + 1) == ErrorRowsOf(st, 9 * i + j) + (if Flagged(st[i][j]) then {i} else {})
  {
    var k := 9 * i + j;
    forall r | r in ErrorRowsOf(st, k + 1) ensures r in ErrorRowsOf(st, k) || (r == i && Flagged(st[i][j])) {
      var i', j' :| 0 <= i' < 9 && 0 <= j' < 9 && 9 * i' + j' < k + 1 && Flagged(st[i'][j']) && r == i';
      if 9 * i' + j' == k { assert i' == i; }
    }
  }

  lemma FlaggedColStep(st: seq<seq<Status>>, i: int, j: int)
    requires StatusShaped(st) && InGrid(i, j)
    ensures ErrorColsOf(st, 9 * i + j + 1) == ErrorColsOf(st, 9 * i + j) + (if Flagged(st[i][j]) then {j} else {})
  {
    var k := 9 * i + j;
    forall c | c in ErrorColsOf(st, k + 1) ensures c in ErrorColsOf(st, k) || (c == j && Flagged(st[i][j])) {
      var i', j' :| 0 <= i' < 9 && 0 <= j' < 9 && 9 * i' + j' < k + 1 && Flagged(st[i'][j']) && c == j';
      if 9 * i' + j' == k { assert i' == i; }
    }
  }

  lemma FlaggedBoxStep(st: seq<seq<Status>>, i: int, j: int)
    requires StatusShaped(st) && InGrid(i, j)
    ensures ErrorBoxesOf(st, 9 * i + j + 1) ==
              ErrorBoxesOf(st, 9 * i + j) + (if Flagged(st[i][j]) then {BoxIndex(i, j)} else {})
  {
    var k := 9 * i + j;
    forall b | b in ErrorBoxesOf(st, k + 1) ensures b in ErrorBoxesOf(st, k) || (b == BoxIndex(i, j) && Flagged(st[i][j])) {
      var i', j' :| 0 <= i' < 9 && 0 <= j' < 9 && 9 * i' + j' < k + 1 && Flagged(st[i'][j']) && b == BoxIndex(i', j');
      if 9 * i' + j' == k { assert i' == i; }
    }
  }


  /** Moving on from cell k = 9 * i + j adds that cell to the set of its status only. */
  lemma CellsWithStep(st: seq<seq<Status>>, s: Status, i: int, j: int)
    requires StatusShaped(st) && InGrid(i, j)
    ensures (i, j) !in CellsWith(st, s, 9 * i + j)
    ensures CellsWith(st, s, 9 * i + j + 1) ==
              CellsWith(st, s, 9 * i + j) + (if st[i][j] == s then {(i, j)} else {})
  {
    var k := 9 * i + j;
    forall p | p in CellsWith(st, s, k + 1)
      ensures p in CellsWith(st, s, k) || (p == (i, j) && st[i][j] == s)
    {
      if 9 * p.0 + p.1 == k {
        assert p.0 == i;
      }
    }
  }

  // ---------------------------------------------------------------------------
  // The grading loop

  /** One pass of the inner loop body: the value input_grid records for cell (i, j),
      the status letter it gets, and the tally with that cell counted. */
  method GradeCell(puzzle: Board, solution: Board, post: Post, i: int, j: int, t: Tally)
    returns (value: int, status: Status, t': Tally)
    requires Shaped(puzzle) && Shaped(solution) && InGrid(i, j)
    ensures value == CellEntry(puzzle, post, i, j)
    ensures status == CellStatus(puzzle, solution, post, i, j)
    ensures t' == Record(t, status, i, j)
  {
    var userValue := Submitted(post, i, j);
    var boxIndex := (i / 3) * 3 + j / 3;
    t' := t;
    if puzzle[i][j] == 0 {
      if userValue != "" && IsDigitString(userValue) {
        var userInt := DecimalValue(userValue);
        value := userInt;
        if userInt == solution[i][j] {
          status := Correct;
          t' := t'.(stats := t'.stats.(correct := t'.stats.correct + 1));
        } else {
          status := Wrong;
          t' := t'.(correct := false, stats := t'.stats.(wrong := t'.stats.wrong + 1));
          t' := t'.(errorRows := t'.errorRows + {i}, errorCols := t'.errorCols + {j},
                    errorBoxes := t'.errorBoxes + {boxIndex});
        }
      } else {
        value := 0;
        status := NotAttempted;
        t' := t'.(correct := false, gridComplete := false, stats := t'.stats.(empty := t'.stats.empty + 1));
        t' := t'.(errorRows := t'.errorRows + {i}, errorCols := t'.errorCols + {j},
                  errorBoxes := t'.errorBoxes + {boxIndex});
      }
    } else {
      value := puzzle[i][j];
      status := Prefilled;
      t' := t'.(stats := t'.stats.(prefilled := t'.stats.prefilled + 1));
    }
  }

  /** The inner loop of check_puzzle over the cells of row i: the row of input_grid,
      the row of user_input_status, and the tally with the row counted. `st` is the
      status grid of the whole check, given cell by cell. */
  method GradeRow(puzzle: Board, solution: Board, post: Post,
                  ghost entries: Board, ghost st: seq<seq<Status>>, ghost tallies: seq<Tally>, i: int, t: Tally)
    returns (row: seq<int>, statusRow: seq<Status>, t': Tally)
    requires Shaped(puzzle) && Shaped(solution) && Shaped(entries) && StatusShaped(st) && 0 <= i < 9
    requires forall j | 0 <= j < 9 :: entries[i][j] == CellEntry(puzzle, post, i, j)
    requires forall j | 0 <= j < 9 :: st[i][j] == CellStatus(puzzle, solution, post, i, j)
    requires |tallies| == 82 && t == tallies[9 * i]
    requires forall j | 0 <= j < 9 :: tallies[9 * i + j + 1] == Record(tallies[9 * i + j], st[i][j], i, j)
    ensures row == entries[i]
    ensures statusRow == st[i]
    ensures t' == tallies[9 * i + 9]
  {
    row, statusRow, t' := [], [], t;
    for j := 0 to 9
      invariant row == entries[i][..j]
      invariant statusRow == st[i][..j]
      invariant t' == tallies[9 * i + j]
    {
      var value, status, next := GradeCell(puzzle, solution, post, i, j, t');
      PrefixSnoc(entries[i], j, value);
      PrefixSnoc(st[i], j, status);
      row := row + [value];
      statusRow := statusRow + [status];
      t' := next;
    }
    assert row == entries[i] && statusRow == st[i];
  }

  /** The per-cell loop of check_puzzle: input_grid and user_input_status are built
      row by row while cell_stats, the error sets and the two flags (kept together
      in a Tally) are updated cell by cell. */
  method Grade(puzzle: Board, solution: Board, post: Post) returns (g: Grading)
    requires Shaped(puzzle) && Shaped(solution)
    ensures g == Graded(puzzle, solution, post)
  {
    ghost var st := StatusGrid(puzzle, solution, post);
    ghost var entries := EntryGrid(puzzle, post);
    var inputGrid: Board := [];
    var userInputStatus: seq<seq<Status>> := [];
    var t := Tally(CellStats(0, 0, 0, 0), {}, {}, {}, true, true);
    ghost var tallies := Tallies(st);
    for i := 0 to 9
      invariant inputGrid == entries[..i] && userInputStatus == st[..i]
      invariant t == tallies[9 * i]
    {
      var row, statusRow;
      row, statusRow, t := GradeRow(puzzle, solution, post, entries, st, tallies, i, t);
      assert 9 * (i + 1) == 9 * i + 9;
      PrefixSnoc(entries, i, row);
      PrefixSnoc(st, i, statusRow);
      inputGrid := inputGrid + [row];
      userInputStatus := userInputStatus + [statusRow];
    }
    assert inputGrid == entries && userInputStatus == st;
    g := Grading(inputGrid, userInputStatus, t.stats, t.errorRows, t.errorCols, t.errorBoxes,
                 t.correct, t.gridComplete, false);
  }

  lemma PrefixSnoc<T>(s: seq<T>, j: int, x: T)
    requires 0 <= j < |s| && s[j] == x
    ensures s[..j + 1] == s[..j] + [x]
  {
  }

  /** Before any cell is counted, the counts are zero, the error sets empty and both
      flags set. */
  lemma EmptyTally(st: seq<seq<Status>>)
    requires StatusShaped(st)
    ensures TallyOf(st, 0) == Tally(CellStats(0, 0, 0, 0), {}, {}, {}, true, true)
  {
    forall s ensures CellsWith(st, s, 0) == {} {
    }
  }
  // ---------------------------------------------------------------------------
  // The alternative-solution block and the whole check

  /** The W-to-C rewrite of one status letter. */
  function Promoted(s: Status): Status {
    if s == Wrong then Correct else s
  }

  /** user_input_status with every W turned into C. */
  function Promote(st: seq<seq<Status>>): (r: seq<seq<Status>>)
    ensures |r| == |st| && forall i | 0 <= i < |st| :: |r[i]| == |st[i]|
  {
    seq(|st|, i requires 0 <= i < |st| => seq(|st[i]|, j requires 0 <= j < |st[i]| => Promoted(st[i][j])))
  }

  /** The state after the alternative-solution block has run: no W cell is left, the
      wrong count moves into the correct count, the error sets are emptied and the
      answer is accepted as an alternative solution. */
  function Accepted(g: Grading): Grading {
    g.(status := Promote(g.status),
       stats := g.stats.(correct := g.stats.correct + g.stats.wrong, wrong := 0),
       errorRows := {}, errorCols := {}, errorBoxes := {},
       correct := true, alternativeFound := true)
  }

  /** The body of the alternative-solution block: the W cells are rewritten in place
      row by row, then the counters, sets and flags are reset. */
  method AcceptAlternative(g: Grading) returns (r: Grading)
    ensures r == Accepted(g)
  {
    var status := g.status;
    for i := 0 to |status|
      invariant |status| == |g.status|
      invariant forall i' | 0 <= i' < |status| :: |status[i']| == |g.status[i']|
      invariant forall i' | 0 <= i' < i :: status[i'] == Promote(g.status)[i']
      invariant forall i' | i <= i' < |status| :: status[i'] == g.status[i']
    {
      for j := 0 to |status[i]|
        invariant |status| == |g.status|
        invariant forall i' | 0 <= i' < |status| :: |status[i']| == |g.status[i']|
        invariant forall i' | 0 <= i' < i :: status[i'] == Promote(g.status)[i']
        invariant forall i' | i < i' < |status| :: status[i'] == g.status[i']
        invariant forall j' | 0 <= j' < j :: status[i][j'] == Promoted(g.status[i][j'])
        invariant forall j' | j <= j' < |status[i]| :: status[i][j'] == g.status[i][j']
      {
        if status[i][j] == Wrong {
          status := status[i := status[i][j := Correct]];
        }
      }
      assert status[i] == Promote(g.status)[i];
    }
    assert status == Promote(g.status);
    var stats := g.stats.(correct := g.stats.correct + g.stats.wrong);
    stats := stats.(wrong := 0);
    r := g.(status := status, stats := stats, errorRows := {}, errorCols := {}, errorBoxes := {},
            correct := true, alternativeFound := true);
  }

  /** The condition of the alternative-solution block as written: it requires
      `correct`, i.e. that no cell is W or N. */
  predicate AlternativeCheckAsWritten(g: Grading) {
    g.correct && g.gridComplete && ValidSolution(g.inputGrid)
  }

  /** The condition as evidently intended: the answer is complete, not identical to
      the stored solution, and a valid completed grid in its own right. */
  predicate AlternativeCheck(g: Grading) {
    !g.correct && g.gridComplete && ValidSolution(g.inputGrid)
  }

  /** The outcome of the check with the block as written. */
  function FinishAsWritten(g: Grading): Grading {
    if AlternativeCheckAsWritten(g) then Accepted(g) else g
  }

  /** The outcome of the check with the corrected block. */
  function Finish(g: Grading): Grading {
    if AlternativeCheck(g) then Accepted(g) else g
  }

  /** The validation errors are empty exactly when every entry is acceptable. */
  lemma NoErrorsIffInputsValid(errors: map<Cell, string>, puzzle: Board, post: Post)
    requires Shaped(puzzle) && ReportsInvalidInputs(errors, puzzle, post)
    ensures |errors| == 0 <==> InputsValid(puzzle, post)
  {
    if |errors| != 0 {
      var p :| p in errors;
      assert InGrid(p.0, p.1);
    }
  }

  /** check_puzzle from the input validation to the end of the alternative-solution
      block, with the corrected condition: this is the intended behaviour, not the
      code as written, whose ending is `FinishAsWritten`. The form is refused with the validation
      errors when an entry is not acceptable; otherwise the answer is graded. */
  method CheckPuzzleCorrected(puzzle: Board, solution: Board, post: Post)
    returns (result: Result<Grading, map<Cell, string>>)
    requires Shaped(puzzle) && Shaped(solution)
    ensures result.Failure? <==> !InputsValid(puzzle, post)
    ensures result.Failure? ==> ReportsInvalidInputs(result.error, puzzle, post)
    ensures result.Success? ==> result.value == Finish(Graded(puzzle, solution, post))
  {
    var errors := ValidateInputs(puzzle, post);
    NoErrorsIffInputsValid(errors, puzzle, post);
    if |errors| > 0 {
      return Failure(errors);
    }
    var g := Grade(puzzle, solution, post);
    if !g.correct && g.gridComplete {
      var valid := SudokuEngine.IsValidCompleteGrid(g.inputGrid);
      if valid {
        g := AcceptAlternative(g);
      }
    }
    return Success(g);
  }
}
