/** The rules of Sudoku on a 9x9 grid of integers, 0 meaning an empty cell.
    These definitions are the specification that the engine (module SudokuEngine)
    and the answer checker (module PuzzleCheck) are proved against. */
module SudokuRules {

  /** A grid as a list of rows; the engine's grids have 9 rows of 9 cells. */
  type Board = seq<seq<int>>

  /** A (row, column) coordinate. */
  type Cell = (int, int)

  predicate InGrid(r: int, c: int) {
    0 <= r < 9 && 0 <= c < 9
  }

  predicate Shaped(b: Board) {
    |b| == 9 && forall r | 0 <= r < 9 :: |b[r]| == 9
  }

  /** The box holding (r, c), numbered 0..8 row by row. */
  function BoxIndex(r: int, c: int): (k: int)
    requires InGrid(r, c)
    ensures 0 <= k < 9
    ensures k / 3 == r / 3 && k % 3 == c / 3
  {
    (r / 3) * 3 + c / 3
  }

  predicate SameBox(r1: int, c1: int, r2: int, c2: int) {
    r1 / 3 == r2 / 3 && c1 / 3 == c2 / 3
  }

  /** Two different cells that share a row, a column or a box. */
  predicate Peers(r1: int, c1: int, r2: int, c2: int) {
    (r1 != r2 || c1 != c2) && (r1 == r2 || c1 == c2 || SameBox(r1, c1, r2, c2))
  }

  /** No filled cell holds the same value as one of its peers. */
  predicate ConflictFree(b: Board)
    requires Shaped(b)
  {
    forall r1, c1, r2, c2 {:trigger Peers(r1, c1, r2, c2)} | 0 <= r1 < 9 && 0 <= c1 < 9 && 0 <= r2 < 9 && 0 <= c2 < 9 && Peers(r1, c1, r2, c2) && b[r1][c1] != 0 ::
      b[r1][c1] != b[r2][c2]
  }

  /** Every cell holds a value in lo..hi. */
  predicate ValuesIn(b: Board, lo: int, hi: int)
    requires Shaped(b)
  {
    forall r, c | 0 <= r < 9 && 0 <= c < 9 :: lo <= b[r][c] <= hi
  }

  /** A legal completed Sudoku solution: 9x9, digits 1..9, no two peers equal. */
  predicate ValidSolution(b: Board) {
    Shaped(b) && ValuesIn(b, 1, 9) && ConflictFree(b)
  }

  /** A grid in play: 9x9, values 0..9, and the filled cells do not conflict. */
  predicate Proper(b: Board) {
    Shaped(b) && ValuesIn(b, 0, 9) && ConflictFree(b)
  }

  /** `num` occurs neither in row `row`, nor in column `col`, nor in the box whose
      top-left cell is (3 * (row / 3), 3 * (col / 3)). */
  predicate CanPlace(b: Board, row: int, col: int, num: int)
    requires Shaped(b) && InGrid(row, col)
  {
    && (forall i | 0 <= i < 9 :: b[row][i] != num)
    && (forall i | 0 <= i < 9 :: b[i][col] != num)
    && (forall i, j | 0 <= i < 3 && 0 <= j < 3 :: BoxAt(b, row, col, i, j) != num)
  }

  /** The cell at offset (i, j) from the top-left cell of the box holding (row, col). */
  function BoxAt(b: Board, row: int, col: int, i: int, j: int): int
    requires Shaped(b) && InGrid(row, col) && 0 <= i < 3 && 0 <= j < 3
  {
    b[3 * (row / 3) + i][3 * (col / 3) + j]
  }

  function Place(b: Board, r: int, c: int, n: int): Board
    requires Shaped(b) && InGrid(r, c)
  {
    b[r := b[r][c := n]]
  }

  function Zeros(b: Board): set<Cell>
    requires Shaped(b)
  {
    set r, c | 0 <= r < 9 && 0 <= c < 9 && b[r][c] == 0 :: (r, c)
  }

  function NonZeros(b: Board): set<Cell>
    requires Shaped(b)
  {
    set r, c | 0 <= r < 9 && 0 <= c < 9 && b[r][c] != 0 :: (r, c)
  }

  /** `s` keeps every filled cell of `b`. */
  predicate Extends(s: Board, b: Board)
    requires Shaped(s) && Shaped(b)
  {
    forall r, c | 0 <= r < 9 && 0 <= c < 9 && b[r][c] != 0 :: s[r][c] == b[r][c]
  }

  lemma ExtendsTrans(a: Board, b: Board, c: Board)
    requires Shaped(a) && Shaped(b) && Shaped(c) && Extends(a, b) && Extends(b, c)
    ensures Extends(a, c)
  {
  }

  /** A grid that extends `b` has every cell filled that `b` has filled. */
  lemma ExtendsKeepsGivens(s: Board, b: Board)
    requires Shaped(s) && Shaped(b) && Extends(s, b)
    ensures NonZeros(b) <= NonZeros(s)
  {
  }

  /** `s` is a solution of the puzzle `b`. */
  predicate IsCompletion(s: Board, b: Board)
    requires Shaped(b)
  {
    ValidSolution(s) && Extends(s, b)
  }

  /** `b` with every listed cell emptied. */
  function Carved(b: Board, cells: seq<Cell>): Board
    requires Shaped(b)
  {
    seq(9, r requires 0 <= r < 9 => seq(9, c requires 0 <= c < 9 => if (r, c) in cells then 0 else b[r][c]))
  }

  // Groups, as the complete-grid validator collects them.

  function Column(b: Board, col: int): seq<int>
    requires Shaped(b) && 0 <= col < 9
  {
    seq(9, r requires 0 <= r < 9 => b[r][col])
  }

  /** The 9 cells of the box with top-left cell (br, bc), row by row. */
  function BoxCells(b: Board, br: int, bc: int): seq<int>
    requires Shaped(b) && 0 <= br <= 6 && 0 <= bc <= 6
  {
    seq(9, k requires 0 <= k < 9 => b[br + k / 3][bc + k % 3])
  }

  predicate Distinct<T(==)>(s: seq<T>) {
    forall i, j | 0 <= i < j < |s| :: s[i] != s[j]
  }

  /** Each of the 9 rows, 9 columns and 9 boxes holds 9 distinct values. */
  predicate GroupsDistinct(b: Board)
    requires Shaped(b)
  {
    forall k | 0 <= k < 9 :: Distinct(b[k]) && Distinct(Column(b, k)) && Distinct(BoxCells(b, 3 * (k / 3), 3 * (k % 3)))
  }

  function Elems<T>(s: seq<T>): set<T> {
    set x | x in s
  }

  // ---------------------------------------------------------------------------
  // Lemmas

  /** Two cells get the same box number exactly when they lie in the same box. */
  lemma BoxIndexIdentifiesBox(r1: int, c1: int, r2: int, c2: int)
    requires InGrid(r1, c1) && InGrid(r2, c2)
    ensures BoxIndex(r1, c1) == BoxIndex(r2, c2) <==> SameBox(r1, c1, r2, c2)
  {
    var k1, k2 := BoxIndex(r1, c1), BoxIndex(r2, c2);
    if k1 == k2 {
      assert r1 / 3 == k1 / 3 == r2 / 3;
      assert c1 / 3 == k1 % 3 == c2 / 3;
    }
  }

  lemma BoardExt(a: Board, b: Board)
    requires Shaped(a) && Shaped(b)
    requires forall r, c | InGrid(r, c) :: a[r][c] == b[r][c]
    ensures a == b
  {
    forall r | 0 <= r < 9
      ensures a[r] == b[r]
    {
      assert forall c | 0 <= c < 9 :: a[r][c] == b[r][c];
    }
  }

  /** `CanPlace` holds exactly when `num` is not in the cell itself and not in any peer of it. */
  lemma CanPlaceIffNoPeerHolds(b: Board, row: int, col: int, num: int)
    requires Shaped(b) && InGrid(row, col)
    ensures CanPlace(b, row, col, num) <==>
              b[row][col] != num &&
              forall r, c | InGrid(r, c) && Peers(row, col, r, c) :: b[r][c] != num
  {
    var br, bc := 3 * (row / 3), 3 * (col / 3);
    if CanPlace(b, row, col, num) {
      forall r, c | InGrid(r, c) && Peers(row, col, r, c)
        ensures b[r][c] != num
      {
        if r != row && c != col {
          assert BoxAt(b, row, col, r - br, c - bc) == b[r][c];
        }
      }
    } else {
      if !(forall i | 0 <= i < 9 :: b[row][i] != num) {
        var i :| 0 <= i < 9 && b[row][i] == num;
        assert i == col || Peers(row, col, row, i);
      } else if !(forall i | 0 <= i < 9 :: b[i][col] != num) {
        var i :| 0 <= i < 9 && b[i][col] == num;
        assert i == row || Peers(row, col, i, col);
      } else {
        var i, j :| 0 <= i < 3 && 0 <= j < 3 && BoxAt(b, row, col, i, j) == num;
        assert (br + i == row && bc + j == col) || Peers(row, col, br + i, bc + j);
      }
    }
  }

  /** Placing a digit where `CanPlace` holds keeps a grid free of conflicts. */
  lemma PlaceKeepsConflictFree(b: Board, r: int, c: int, n: int)
    requires Shaped(b) && InGrid(r, c) && ConflictFree(b)
    requires b[r][c] == 0 && CanPlace(b, r, c, n)
    ensures ConflictFree(Place(b, r, c, n))
  {
    CanPlaceIffNoPeerHolds(b, r, c, n);
    var p := Place(b, r, c, n);
    forall r1, c1, r2, c2 | InGrid(r1, c1) && InGrid(r2, c2) && Peers(r1, c1, r2, c2) && p[r1][c1] != 0
      ensures p[r1][c1] != p[r2][c2]
    {
      if (r1, c1) == (r, c) {
        assert Peers(r, c, r2, c2);
      } else if (r2, c2) == (r, c) {
        assert Peers(r, c, r1, c1);
      } else {
        assert p[r1][c1] == b[r1][c1] && p[r2][c2] == b[r2][c2];
      }
    }
  }

  /** Whatever value a solution gives an empty cell of the puzzle, `CanPlace` allows it there. */
  lemma CompletionValueFits(s: Board, b: Board, r: int, c: int)
    requires Shaped(b) && InGrid(r, c) && IsCompletion(s, b) && b[r][c] == 0
    ensures 1 <= s[r][c] <= 9 && CanPlace(b, r, c, s[r][c])
  {
    var v := s[r][c];
    forall r2, c2 | InGrid(r2, c2) && Peers(r, c, r2, c2)
      ensures b[r2][c2] != v
    {
      if b[r2][c2] != 0 {
        assert s[r2][c2] == b[r2][c2];
      }
    }
    CanPlaceIffNoPeerHolds(b, r, c, v);
  }

  /** Filling an empty cell removes exactly that cell from the empty ones. */
  lemma PlaceFillsZero(b: Board, r: int, c: int, n: int)
    requires Shaped(b) && InGrid(r, c) && b[r][c] == 0 && n != 0
    ensures Zeros(Place(b, r, c, n)) == Zeros(b) - {(r, c)}
    ensures NonZeros(Place(b, r, c, n)) == NonZeros(b) + {(r, c)}
  {
    var p := Place(b, r, c, n);
    assert forall r1, c1 | InGrid(r1, c1) :: p[r1][c1] == if (r1, c1) == (r, c) then n else b[r1][c1];
  }

  /** A sequence has as many distinct elements as entries exactly when no entry repeats. */
  lemma {:induction false} DistinctIffCard<T>(s: seq<T>)
    ensures |Elems(s)| <= |s|
    ensures |Elems(s)| == |s| <==> Distinct(s)
  {
    if s != [] {
      var t := s[1..];
      DistinctIffCard(t);
      assert s == [s[0]] + t;
      assert Elems(s) == {s[0]} + Elems(t);
      if s[0] in t {
        assert Elems(s) == Elems(t);
        var j :| 0 <= j < |t| && t[j] == s[0];
        assert s[j + 1] == s[0];
      } else {
        assert s[0] !in Elems(t);
        DistinctCons(s);
      }
    }
  }

  /** A non-empty sequence whose head does not recur has no repeats exactly when its
      tail has none. */
  lemma DistinctCons<T>(s: seq<T>)
    requires s != [] && s[0] !in s[1..]
    ensures Distinct(s) <==> Distinct(s[1..])
  {
    var t := s[1..];
    if Distinct(t) {
      forall i, j | 0 <= i < j < |s|
        ensures s[i] != s[j]
      {
        if i == 0 {
          assert s[j] == t[j - 1];
        } else {
          assert s[i] == t[i - 1] && s[j] == t[j - 1];
        }
      }
    } else {
      var i, j :| 0 <= i < j < |t| && t[i] == t[j];
      assert s[i + 1] == s[j + 1];
    }
  }

  /** The cell-pair definition of a legal grid and the validator's one (27 groups of
      9 distinct values) agree. */
  lemma ConflictFreeIffGroupsDistinct(b: Board)
    requires Shaped(b) && ValuesIn(b, 1, 9)
    ensures ConflictFree(b) <==> GroupsDistinct(b)
  {
    if ConflictFree(b) {
      forall k | 0 <= k < 9
        ensures Distinct(b[k]) && Distinct(Column(b, k)) && Distinct(BoxCells(b, 3 * (k / 3), 3 * (k % 3)))
      {
        ConflictFreeGroups(b, k);
      }
    } else {
      var r1, c1, r2, c2 :| InGrid(r1, c1) && InGrid(r2, c2) && Peers(r1, c1, r2, c2) && b[r1][c1] != 0 && b[r1][c1] == b[r2][c2];
      ConflictShowsInGroup(b, r1, c1, r2, c2);
    }
  }

  lemma ConflictFreeGroups(b: Board, k: int)
    requires Shaped(b) && ValuesIn(b, 1, 9) && ConflictFree(b) && 0 <= k < 9
    ensures Distinct(b[k]) && Distinct(Column(b, k)) && Distinct(BoxCells(b, 3 * (k / 3), 3 * (k % 3)))
  {
    RowDistinct(b, k);
    ColumnDistinct(b, k);
    BoxDistinct(b, 3 * (k / 3), 3 * (k % 3));
  }

  lemma RowDistinct(b: Board, k: int)
    requires Shaped(b) && ValuesIn(b, 1, 9) && ConflictFree(b) && 0 <= k < 9
    ensures Distinct(b[k])
  {
    forall i, j | 0 <= i < j < 9
      ensures b[k][i] != b[k][j]
    {
      assert Peers(k, i, k, j);
    }
  }

  lemma ColumnDistinct(b: Board, k: int)
    requires Shaped(b) && ValuesIn(b, 1, 9) && ConflictFree(b) && 0 <= k < 9
    ensures Distinct(Column(b, k))
  {
    forall i, j | 0 <= i < j < 9
      ensures Column(b, k)[i] != Column(b, k)[j]
    {
      assert Peers(i, k, j, k);
    }
  }

  lemma BoxDistinct(b: Board, br: int, bc: int)
    requires Shaped(b) && ValuesIn(b, 1, 9) && ConflictFree(b)
    requires br in {0, 3, 6} && bc in {0, 3, 6}
    ensures Distinct(BoxCells(b, br, bc))
  {
    var box := BoxCells(b, br, bc);
    forall i, j | 0 <= i < j < 9
      ensures box[i] != box[j]
    {
      BoxPairDiffers(b, br, bc, i, j);
    }
  }

  lemma BoxPairDiffers(b: Board, br: int, bc: int, i: int, j: int)
    requires Shaped(b) && ValuesIn(b, 1, 9) && ConflictFree(b)
    requires br in {0, 3, 6} && bc in {0, 3, 6} && 0 <= i < j < 9
    ensures b[br + i / 3][bc + i % 3] != b[br + j / 3][bc + j % 3]
  {
    BoxOffset(br, i);
    BoxOffset(bc, i);
    BoxOffset(br, j);
    BoxOffset(bc, j);
    assert Peers(br + i / 3, bc + i % 3, br + j / 3, bc + j % 3);
  }

  /** Offset i of a box whose top-left coordinate is `base` stays in that box. */
  lemma BoxOffset(base: int, i: int)
    requires base in {0, 3, 6} && 0 <= i < 9
    ensures 0 <= i / 3 < 3 && 0 <= i % 3 < 3 && i == 3 * (i / 3) + i % 3
    ensures (base + i / 3) / 3 == base / 3 && (base + i % 3) / 3 == base / 3
  {
  }

  lemma ConflictShowsInGroup(b: Board, r1: int, c1: int, r2: int, c2: int)
    requires Shaped(b) && InGrid(r1, c1) && InGrid(r2, c2) && Peers(r1, c1, r2, c2)
    requires b[r1][c1] == b[r2][c2]
    ensures !GroupsDistinct(b)
  {
    if r1 == r2 {
      var i, j := if c1 < c2 then c1 else c2, if c1 < c2 then c2 else c1;
      assert b[r1][i] == b[r1][j];
      assert !Distinct(b[r1]);
    } else if c1 == c2 {
      var col := Column(b, c1);
      var i, j := if r1 < r2 then r1 else r2, if r1 < r2 then r2 else r1;
      assert col[i] == col[j];
      assert !Distinct(col);
    } else {
      var k := BoxIndex(r1, c1);
      BoxConflict(b, r1, c1, r2, c2);
      assert !Distinct(BoxCells(b, 3 * (k / 3), 3 * (k % 3)));
    }
  }

  lemma BoxConflict(b: Board, r1: int, c1: int, r2: int, c2: int)
    requires Shaped(b) && InGrid(r1, c1) && InGrid(r2, c2) && Peers(r1, c1, r2, c2) && SameBox(r1, c1, r2, c2)
    requires b[r1][c1] == b[r2][c2]
    ensures !Distinct(BoxCells(b, 3 * (r1 / 3), 3 * (c1 / 3)))
  {
    var br, bc := 3 * (r1 / 3), 3 * (c1 / 3);
    var box := BoxCells(b, br, bc);
    var a1, a2, d1, d2 := r1 - br, r2 - br, c1 - bc, c2 - bc;
    assert 0 <= a1 < 3 && 0 <= a2 < 3 && 0 <= d1 < 3 && 0 <= d2 < 3;
    var i1, i2 := 3 * a1 + d1, 3 * a2 + d2;
    assert i1 / 3 == a1 && i1 % 3 == d1;
    assert i2 / 3 == a2 && i2 % 3 == d2;
    assert box[i1] == b[r1][c1];
    assert box[i2] == b[r2][c2];
    if i1 < i2 { assert box[i1] == box[i2]; } else { assert box[i2] == box[i1]; }
  }

  /** Emptying cells keeps a grid in play. */
  lemma CarvedKeepsProper(b: Board, cells: seq<Cell>)
    requires Proper(b)
    ensures Proper(Carved(b, cells))
  {
    var p := Carved(b, cells);
    forall r1, c1, r2, c2 | InGrid(r1, c1) && InGrid(r2, c2) && Peers(r1, c1, r2, c2) && p[r1][c1] != 0
      ensures p[r1][c1] != p[r2][c2]
    {
      assert p[r1][c1] == b[r1][c1];
      assert p[r2][c2] == 0 || p[r2][c2] == b[r2][c2];
    }
  }

  /** A solution with cells emptied is a puzzle that the solution solves. */
  lemma CarvedFromSolution(b: Board, cells: seq<Cell>)
    requires ValidSolution(b)
    ensures IsCompletion(b, Carved(b, cells))
  {
  }

  /** Emptying distinct cells of a full grid leaves exactly those cells empty. */
  lemma CarveCount(b: Board, cells: seq<Cell>)
    requires Shaped(b) && Zeros(b) == {} && Distinct(cells)
    requires forall k | 0 <= k < |cells| :: InGrid(cells[k].0, cells[k].1)
    ensures Zeros(Carved(b, cells)) == Elems(cells)
    ensures |Zeros(Carved(b, cells))| == |cells|
  {
    var p := Carved(b, cells);
    forall r, c | InGrid(r, c)
      ensures p[r][c] == 0 <==> (r, c) in cells
    {
      if (r, c) !in cells {
        assert (r, c) !in Zeros(b);
      }
    }
    assert Zeros(p) == Elems(cells);
    DistinctIffCard(cells);
  }

  /** Placing a digit where `CanPlace` holds, into an empty cell of a grid in play,
      gives a grid in play that keeps every filled cell and has one more filled cell. */
  lemma PlaceStep(b: Board, r: int, c: int, n: int)
    requires Proper(b) && InGrid(r, c) && b[r][c] == 0 && CanPlace(b, r, c, n) && 1 <= n <= 9
    ensures Proper(Place(b, r, c, n)) && Extends(Place(b, r, c, n), b)
    ensures (r, c) !in NonZeros(b) && NonZeros(Place(b, r, c, n)) == NonZeros(b) + {(r, c)}
  {
    PlaceKeepsConflictFree(b, r, c, n);
    PlaceFillsZero(b, r, c, n);
  }

  /** Whatever extends the grid with a digit placed where `CanPlace` allows it extends
      the grid itself, and is a solution when that placement keeps a grid in play. */
  lemma PlaceThenExtend(b: Board, r: int, c: int, n: int, s: Board)
    requires Shaped(b) && InGrid(r, c) && b[r][c] == 0 && CanPlace(b, r, c, n) && 1 <= n <= 9
    requires Shaped(s) && Extends(s, Place(b, r, c, n))
    requires Proper(Place(b, r, c, n)) ==> ValidSolution(s)
    ensures Extends(s, b)
    ensures Proper(b) ==> ValidSolution(s)
  {
    var p := Place(b, r, c, n);
    forall r1, c1 | InGrid(r1, c1) && b[r1][c1] != 0
      ensures s[r1][c1] == b[r1][c1]
    {
      assert p[r1][c1] == b[r1][c1];
    }
    if Proper(b) {
      PlaceStep(b, r, c, n);
    }
  }
}
