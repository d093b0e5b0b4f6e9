/** The constraint checks and the backtracking solver of the program, over the
    mutable 9x9 grid (an `array2<int>`, 0 = empty).

    Each read-only check is a loop method proved equal to a predicate of
    module Board. The solver `SolveSudoku` works in place; it is proved equal
    to the ghost function `Solve`, the same depth-first search written as a
    function, and what the search promises (it only fills empty cells, it
    keeps a consistent grid consistent, it finds a solution whenever one
    exists, the solution it finds is the first in digit order) is proved as
    lemmas about `Solve`. */
module SudokuSolver {
  import opened Board

  // ------------------------------------------------------ membership tests

  method IsPresentInCol(col: int, num: int, g: array2<int>) returns (found: bool)
    requires IsGrid(g) && 0 <= col < N
    ensures found <==> exists row :: 0 <= row < N && g[row, col] == num
    ensures found == InCol(Cells(g), col, num)
  {
    for row := 0 to N
      invariant forall r :: 0 <= r < row ==> g[r, col] != num
    {
      if g[row, col] == num {
        assert Col(Cells(g), col)[row] == num;
        return true;
      }
    }
    return false;
  }

  method IsPresentInRow(row: int, num: int, g: array2<int>) returns (found: bool)
    requires IsGrid(g) && 0 <= row < N
    ensures found <==> exists col :: 0 <= col < N && g[row, col] == num
    ensures found == InRow(Cells(g), row, num)
  {
    for col := 0 to N
      invariant forall c :: 0 <= c < col ==> g[row, c] != num
    {
      if g[row, col] == num {
        assert Cells(g)[row][col] == num;
        return true;
      }
    }
    return false;
  }

  method IsPresentInBox(boxStartRow: int, boxStartCol: int, num: int, g: array2<int>)
    returns (found: bool)
    requires IsGrid(g) && 0 <= boxStartRow <= N - 3 && 0 <= boxStartCol <= N - 3
    ensures found <==> exists i, j :: boxStartRow <= i < boxStartRow + 3 &&
                                      boxStartCol <= j < boxStartCol + 3 && g[i, j] == num
    ensures found == InBox(Cells(g), boxStartRow, boxStartCol, num)
  {
    InBoxMeaning(Cells(g), boxStartRow, boxStartCol, num);
    for row := 0 to 3
      invariant forall i, j :: (boxStartRow <= i < boxStartRow + row &&
                                boxStartCol <= j < boxStartCol + 3) ==> g[i, j] != num
    {
      ghost var i := boxStartRow + row;
      for col := 0 to 3
        invariant forall j :: boxStartCol <= j < boxStartCol + col ==> g[i, j] != num
      {
        if g[row + boxStartRow, col + boxStartCol] == num {
          assert Cells(g)[row + boxStartRow][col + boxStartCol] == num;
          return true;
        }
      }
    }
    return false;
  }

  method IsValidPlace(row: int, col: int, num: int, g: array2<int>) returns (valid: bool)
    requires IsGrid(g) && 0 <= row < N && 0 <= col < N
    ensures valid == ValidPlace(Cells(g), row, col, num)
  {
    var inRow := IsPresentInRow(row, num, g);
    if inRow {
      return false;
    }
    var inCol := IsPresentInCol(col, num, g);
    if inCol {
      return false;
    }
    var inBox := IsPresentInBox(row - row % 3, col - col % 3, num, g);
    return !inBox;
  }

  // ------------------------------------------------------ first empty cell

  /** The first empty cell at or after (i, j) in row-major order. */
  function FirstEmptyFrom(b: Board, i: int, j: int): (p: Option<(int, int)>)
    requires IsBoard(b) && 0 <= i <= N && 0 <= j <= N
    ensures p.None? <==>
      forall i', j' :: 0 <= i' < N && 0 <= j' < N && !Before(i', j', i, j) ==> b[i'][j'] != 0
    ensures p.Some? ==>
      && !Before(p.value.0, p.value.1, i, j)
      && 0 <= p.value.0 < N && 0 <= p.value.1 < N && b[p.value.0][p.value.1] == 0
      && forall i', j' :: (0 <= i' < N && 0 <= j' < N && !Before(i', j', i, j) &&
                           Before(i', j', p.value.0, p.value.1)) ==> b[i'][j'] != 0
    decreases N - i, N - j
  {
    if i == N then None
    else if j == N then FirstEmptyFrom(b, i + 1, 0)
    else if b[i][j] == 0 then Some((i, j))
    else FirstEmptyFrom(b, i, j + 1)
  }

  /** The first empty cell of b in row-major order, if any. */
  function FirstEmpty(b: Board): (p: Option<(int, int)>)
    requires IsBoard(b)
    ensures p.None? <==> NoEmpty(b)
    ensures p.Some? ==> IsFirstEmpty(b, p.value.0, p.value.1)
  {
    FirstEmptyFrom(b, 0, 0)
  }

  /** There is only one first empty cell. */
  lemma FirstEmptyUnique(b: Board, r: int, c: int)
    requires IsBoard(b) && IsFirstEmpty(b, r, c)
    ensures FirstEmpty(b) == Some((r, c))
  {
  }

  method FindEmptyPlace(g: array2<int>) returns (found: bool, row: int, col: int)
    requires IsGrid(g)
    ensures found <==> !NoEmpty(Cells(g))
    ensures found ==> IsFirstEmpty(Cells(g), row, col)
    ensures !found ==> row == N && col == N
  {
    row, col := 0, 0;
    while row < N
      invariant 0 <= row <= N && (row > 0 ==> col == N)
      invariant forall i, j :: 0 <= i < row && 0 <= j < N ==> g[i, j] != 0
    {
      col := 0;
      while col < N
        invariant 0 <= col <= N
        invariant forall j :: 0 <= j < col ==> g[row, j] != 0
      {
        if g[row, col] == 0 {
          return true, row, col;
        }
        col := col + 1;
      }
      row := row + 1;
    }
    return false, row, col;
  }

  // --------------------------------------------- the search, as a function

  /** The depth-first search: fill the first empty cell with the smallest digit
      that is a valid placement and whose board the search completes. */
  ghost function Solve(b: Board): (r: Option<Board>)
    requires IsBoard(b)
    ensures r.Some? ==> IsBoard(r.value) && Completes(b, r.value)
    ensures NoEmpty(b) ==> r == Some(b)
    decreases BoardZeros(b), 1, 0
  {
    match FirstEmpty(b)
    case None => Some(b)
    case Some((row, col)) => TryDigits(b, row, col, 1)
  }

  /** The search at empty cell (row, col), trying digits num..9 in increasing order. */
  ghost function TryDigits(b: Board, row: int, col: int, num: int): (r: Option<Board>)
    requires IsBoard(b) && 0 <= row < N && 0 <= col < N && b[row][col] == 0 && 1 <= num <= 10
    ensures r.Some? ==> IsBoard(r.value) && Completes(b, r.value)
    decreases BoardZeros(b), 0, 10 - num
  {
    if num > 9 then None
    else if ValidPlace(b, row, col, num) then
      PlaceDecreasesZeros(b, row, col, num);
      var s := Solve(Set(b, row, col, num));
      if s.Some? then s else TryDigits(b, row, col, num + 1)
    else TryDigits(b, row, col, num + 1)
  }

  // ---------------------------------------------------------- the solver

  /** Fills the empty cells of g in place; on failure every placement is undone. */
  method SolveSudoku(g: array2<int>) returns (ok: bool)
    requires IsGrid(g)
    modifies g
    ensures ok == Solve(old(Cells(g))).Some?
    ensures ok ==> Cells(g) == Solve(old(Cells(g))).value
    ensures !ok ==> Cells(g) == old(Cells(g))
    decreases BoardZeros(Cells(g))
  {
    ghost var b0 := Cells(g);
    var found, row, col := FindEmptyPlace(g);
    if !found {
      return true;
    }
    FirstEmptyUnique(b0, row, col);
    for num := 1 to 10
      invariant Cells(g) == b0
      invariant TryDigits(b0, row, col, num) == Solve(b0)
    {
      var valid := IsValidPlace(row, col, num, g);
      if valid {
        WriteCell(g, row, col, num);
        PlaceDecreasesZeros(b0, row, col, num);
        ok := SolveSudoku(g);
        if ok {
          return true;
        }
        WriteCell(g, row, col, 0);
        SetUndo(b0, row, col, num);
      }
    }
    return false;
  }

  // ------------------------------------------------- properties of Solve

  /** Soundness: on a consistent board every digit the search writes keeps it
      consistent, so what it returns is a solution. */
  lemma {:induction false} SolveSound(b: Board)
    requires IsBoard(b)
    ensures Solve(b).Some? && Consistent(b) ==> IsCompletion(b, Solve(b).value)
    decreases BoardZeros(b), 1, 0
  {
    match FirstEmpty(b)
    case None =>
    case Some((row, col)) => TryDigitsSound(b, row, col, 1);
  }

  lemma {:induction false} TryDigitsSound(b: Board, row: int, col: int, num: int)
    requires IsBoard(b) && 0 <= row < N && 0 <= col < N && b[row][col] == 0 && 1 <= num <= 10
    ensures TryDigits(b, row, col, num).Some? && Consistent(b) ==>
              IsCompletion(b, TryDigits(b, row, col, num).value)
    decreases BoardZeros(b), 0, 10 - num
  {
    if num <= 9 && Consistent(b) {
      if ValidPlace(b, row, col, num) {
        PlaceDecreasesZeros(b, row, col, num);
        PlaceKeepsConsistent(b, row, col, num);
        SolveSound(Set(b, row, col, num));
      }
      TryDigitsSound(b, row, col, num + 1);
    }
  }

  /** Completeness: if the board has a solution, the search succeeds. */
  lemma {:induction false} SolveComplete(b: Board)
    requires IsBoard(b)
    ensures HasCompletion(b) ==> Solve(b).Some?
    decreases BoardZeros(b), 1, 0
  {
    if HasCompletion(b) {
      var h :| IsCompletion(b, h);
      match FirstEmpty(b)
      case None =>
      case Some((row, col)) => TryDigitsComplete(b, row, col, 1, h);
    }
  }

  lemma {:induction false} TryDigitsComplete(b: Board, row: int, col: int, num: int, h: Board)
    requires IsBoard(b) && 0 <= row < N && 0 <= col < N && b[row][col] == 0 && 1 <= num <= 10
    requires IsCompletion(b, h) && num <= h[row][col]
    ensures TryDigits(b, row, col, num).Some?
    decreases BoardZeros(b), 0, 10 - num
  {
    CompletionDigitIsValid(b, h, row, col);
    if h[row][col] == num {
      PlaceDecreasesZeros(b, row, col, num);
      CompletionOfSet(b, h, row, col);
      SolveComplete(Set(b, row, col, num));
    } else {
      TryDigitsComplete(b, row, col, num + 1, h);
    }
  }

  /** On a consistent board the search succeeds exactly when a solution exists;
      when it fails no solution exists. */
  lemma SolveDecides(b: Board)
    requires IsBoard(b) && Consistent(b)
    ensures Solve(b).Some? <==> HasCompletion(b)
  {
    SolveComplete(b);
    SolveSound(b);
  }

  /** a and h agree on every cell before (i, j) in row-major order. */
  ghost predicate AgreeBefore(a: Board, h: Board, i: int, j: int)
    requires IsBoard(a) && IsBoard(h)
  {
    forall i', j' :: 0 <= i' < N && 0 <= j' < N && Before(i', j', i, j) ==> a[i'][j'] == h[i'][j']
  }

  /** The first cell where a and h differ is (i, j), and a holds the smaller value there. */
  ghost predicate LexLessAt(a: Board, h: Board, i: int, j: int)
    requires IsBoard(a) && IsBoard(h)
  {
    0 <= i < N && 0 <= j < N && a[i][j] < h[i][j] && AgreeBefore(a, h, i, j)
  }

  /** a comes before h in row-major lexicographic order. */
  ghost predicate LexLess(a: Board, h: Board)
    requires IsBoard(a) && IsBoard(h)
  {
    exists i, j :: LexLessAt(a, h, i, j)
  }

  /** Two solutions of b agree on the filled cells before the first empty one. */
  lemma FirstEmptyDecides(b: Board, x: Board, h: Board, row: int, col: int)
    requires IsBoard(b) && IsFirstEmpty(b, row, col)
    requires IsBoard(x) && IsBoard(h) && Completes(b, x) && Completes(b, h)
    requires x[row][col] < h[row][col]
    ensures LexLess(x, h)
  {
    assert LexLessAt(x, h, row, col);
  }

  /** Digits are tried in increasing order, so the solution found is the least
      of all solutions in row-major lexicographic order. */
  lemma {:induction false} SolveFindsLeast(b: Board, h: Board)
    requires IsBoard(b) && Solve(b).Some? && IsCompletion(b, h)
    ensures Solve(b).value == h || LexLess(Solve(b).value, h)
    decreases BoardZeros(b), 1, 0
  {
    match FirstEmpty(b)
    case None =>
      BoardExt(b, h);
    case Some((row, col)) =>
      TryDigitsFindsLeast(b, row, col, 1, h);
  }

  lemma {:induction false} TryDigitsFindsLeast(b: Board, row: int, col: int, num: int, h: Board)
    requires IsBoard(b) && IsFirstEmpty(b, row, col) && 1 <= num <= 10
    requires TryDigits(b, row, col, num).Some? && IsCompletion(b, h) && num <= h[row][col]
    ensures TryDigits(b, row, col, num).value == h || LexLess(TryDigits(b, row, col, num).value, h)
    decreases BoardZeros(b), 0, 10 - num
  {
    PlaceDecreasesZeros(b, row, col, num);
    var b' := Set(b, row, col, num);
    var r := TryDigits(b, row, col, num);
    if ValidPlace(b, row, col, num) && Solve(b').Some? {
      var x := Solve(b').value;
      assert r.value == x;
      if h[row][col] == num {
        CompletionOfSet(b, h, row, col);
        SolveFindsLeast(b', h);
      } else {
        FirstEmptyDecides(b, x, h, row, col);
      }
    } else {
      if h[row][col] == num {
        CompletionDigitIsValid(b, h, row, col);
        CompletionOfSet(b, h, row, col);
        SolveComplete(b');
      }
      assert r == TryDigits(b, row, col, num + 1);
      TryDigitsFindsLeast(b, row, col, num + 1, h);
    }
  }

  /** A grid without empty cells is accepted as it stands, even when its digits
      clash: the all-ones grid is inconsistent, yet the search returns it. */
  lemma SolveAcceptsClashingFullGrid()
    ensures var ones := seq(N, i => seq(N, j => 1));
      IsBoard(ones) && !Consistent(ones) && Solve(ones) == Some(ones)
  {
    var ones := seq(N, i => seq(N, j => 1));
    assert IsBoard(ones);
    DistinctTwice(ones[0], 0, 1);
  }

  // ------------------------------------------------------- whole-grid checks

  /** No cell holds a digit 1..9. */
  predicate NoDigit(b: Board)
    requires IsBoard(b)
  {
    forall i, j :: 0 <= i < N && 0 <= j < N ==> !(1 <= b[i][j] <= 9)
  }

  /** The check as the program has it: it returns false as soon as some row
      holds some digit, so it accepts only grids without any digit. */
  method CheckSudoku(g: array2<int>) returns (ok: bool)
    requires IsGrid(g)
    ensures ok == NoDigit(Cells(g))
  {
    for row := 0 to N
      invariant forall i, j :: 0 <= i < row && 0 <= j < N ==> !(1 <= g[i, j] <= N)
    {
      for num := 1 to N + 1
        invariant forall j :: 0 <= j < N ==> !(1 <= g[row, j] < num)
      {
        var present := IsPresentInRow(row, num, g);
        if present {
          return false;
        }
      }
    }
    for col := 0 to N {
      for num := 1 to N + 1 {
        var present := IsPresentInCol(col, num, g);
        if present {
          return false;
        }
      }
    }
    var startRow := 0;
    while startRow < N
      invariant 0 <= startRow <= N && startRow % 3 == 0
    {
      var startCol := 0;
      while startCol < N
        invariant 0 <= startCol <= N && startCol % 3 == 0
      {
        for num := 1 to N + 1 {
          var present := IsPresentInBox(startRow, startCol, num, g);
          if present {
            return false;
          }
        }
        startCol := startCol + 3;
      }
      startRow := startRow + 3;
    }
    return true;
  }

  /** A grid that holds any digit, in particular every solved grid, fails the
      check as written. */
  lemma CheckSudokuRejectsSolved(b: Board)
    requires IsBoard(b) && IsSolved(b)
    ensures !NoDigit(b)
  {
    assert 1 <= b[0][0] <= 9;
  }

  /** Every row, column and box holds every digit 1..9. */
  ghost predicate AllUnitsComplete(b: Board)
    requires IsBoard(b)
  {
    && (forall r :: 0 <= r < N ==> HasAllDigits(b[r]))
    && (forall c :: 0 <= c < N ==> HasAllDigits(Col(b, c)))
    && (forall br, bc :: IsBoxCorner(br, bc) ==> HasAllDigits(Box(b, br, bc)))
  }

  /** The check as its comments describe it: false as soon as some row, column
      or box lacks some digit. */
  method CheckSudokuIntended(g: array2<int>) returns (ok: bool)
    requires IsGrid(g)
    ensures ok == AllUnitsComplete(Cells(g))
  {
    ok := RowsComplete(g);
    if !ok {
      return false;
    }
    ok := ColumnsComplete(g);
    if !ok {
      return false;
    }
    ok := BoxesComplete(g);
  }

  /** The row pass of the intended check. */
  method RowsComplete(g: array2<int>) returns (ok: bool)
    requires IsGrid(g)
    ensures ok == forall r :: 0 <= r < N ==> HasAllDigits(Cells(g)[r])
  {
    ghost var b := Cells(g);
    for row := 0 to N
      invariant forall r :: 0 <= r < row ==> HasAllDigits(b[r])
    {
      for num := 1 to N + 1
        invariant forall d :: 1 <= d < num ==> d in b[row]
      {
        var present := IsPresentInRow(row, num, g);
        if !present {
          return false;
        }
      }
    }
    return true;
  }

  /** The column pass of the intended check. */
  method ColumnsComplete(g: array2<int>) returns (ok: bool)
    requires IsGrid(g)
    ensures ok == forall c :: 0 <= c < N ==> HasAllDigits(Col(Cells(g), c))
  {
    ghost var b := Cells(g);
    for col := 0 to N
      invariant forall c :: 0 <= c < col ==> HasAllDigits(Col(b, c))
    {
      for num := 1 to N + 1
        invariant forall d :: 1 <= d < num ==> d in Col(b, col)
      {
        var present := IsPresentInCol(col, num, g);
        if !present {
          return false;
        }
      }
    }
    return true;
  }

  /** The box pass of the intended check. */
  method BoxesComplete(g: array2<int>) returns (ok: bool)
    requires IsGrid(g)
    ensures ok == forall br, bc :: IsBoxCorner(br, bc) ==> HasAllDigits(Box(Cells(g), br, bc))
  {
    ghost var b := Cells(g);
    var startRow := 0;
    while startRow < N
      invariant 0 <= startRow <= N && startRow % 3 == 0
      invariant forall br, bc :: IsBoxCorner(br, bc) && br < startRow ==> HasAllDigits(Box(b, br, bc))
    {
      var startCol := 0;
      while startCol < N
        invariant 0 <= startCol <= N && startCol % 3 == 0
        invariant forall bc :: IsBoxCorner(startRow, bc) && bc < startCol ==> HasAllDigits(Box(b, startRow, bc))
      {
        for num := 1 to N + 1
          invariant forall d :: 1 <= d < num ==> d in Box(b, startRow, startCol)
        {
          var present := IsPresentInBox(startRow, startCol, num, g);
          if !present {
            return false;
          }
        }
        startCol := startCol + 3;
      }
      startRow := startRow + 3;
    }
    return true;
  }

  /** The intended check accepts exactly the solved grids: every cell a digit
      1..9 and no digit twice in a row, column or box. */
  lemma IntendedCheckIffSolved(b: Board)
    requires IsBoard(b)
    ensures AllUnitsComplete(b) <==> IsSolved(b)
  {
    if AllUnitsComplete(b) {
      forall r | 0 <= r < N ensures IsDigitPermutation(b[r]) {
        AllDigitsArePermutation(b[r]);
      }
      forall c | 0 <= c < N ensures IsDigitPermutation(Col(b, c)) {
        AllDigitsArePermutation(Col(b, c));
      }
      forall br, bc | IsBoxCorner(br, bc) ensures IsDigitPermutation(Box(b, br, bc)) {
        AllDigitsArePermutation(Box(b, br, bc));
      }
      PermutationUnitsSolved(b);
    }
    if IsSolved(b) {
      forall r | 0 <= r < N ensures HasAllDigits(b[r]) {
        SolvedUnit(b[r]);
      }
      forall c | 0 <= c < N ensures HasAllDigits(Col(b, c)) {
        SolvedUnit(Col(b, c));
      }
      forall br, bc | IsBoxCorner(br, bc) ensures HasAllDigits(Box(b, br, bc)) {
        SolvedUnit(Box(b, br, bc));
      }
    }
  }

  lemma PermutationUnitsSolved(b: Board)
    requires IsBoard(b)
    requires forall r :: 0 <= r < N ==> IsDigitPermutation(b[r])
    requires forall c :: 0 <= c < N ==> IsDigitPermutation(Col(b, c))
    requires forall br, bc :: IsBoxCorner(br, bc) ==> IsDigitPermutation(Box(b, br, bc))
    ensures IsSolved(b)
  {
  }

  lemma SolvedUnit(s: seq<int>)
    requires |s| == N && (forall k :: 0 <= k < N ==> 1 <= s[k] <= 9) && Distinct(s)
    ensures HasAllDigits(s)
  {
    PermutationHasAllDigits(s);
  }

  /** On a consistent grid, a grid the solver fills passes the intended check. */
  lemma SolvedGridPassesIntendedCheck(b: Board)
    requires IsBoard(b) && IsDigitBoard(b) && Consistent(b) && Solve(b).Some?
    ensures AllUnitsComplete(Solve(b).value)
  {
    var x := Solve(b).value;
    SolveSound(b);
    assert IsSolved(x);
    IntendedCheckIffSolved(x);
  }
}
