/** The 9x9 sudoku board as a value: its three kinds of unit (row, column and
    3x3 box), the membership tests the solver is built from, and the notions of
    consistency and completion that its contracts are stated in. The mutable
    grid of the program is an `array2<int>`; `Cells` reads it as a `Board`. */
module Board {

  /** Side of the board. */
  const N: int := 9

  datatype Option<T> = None | Some(value: T)

  /** Nine rows of nine cells; 0 marks an empty cell. */
  type Board = seq<seq<int>>

  predicate IsBoard(b: Board) {
    |b| == N && forall i :: 0 <= i < N ==> |b[i]| == N
  }

  predicate IsGrid(g: array2<int>) {
    g.Length0 == N && g.Length1 == N
  }

  /** The board a grid currently holds. */
  ghost function Cells(g: array2<int>): (b: Board)
    requires IsGrid(g)
    reads g
    ensures IsBoard(b)
    ensures forall i, j :: 0 <= i < N && 0 <= j < N ==> b[i][j] == g[i, j]
  {
    seq(N, i requires 0 <= i < N reads g => seq(N, j requires 0 <= j < N reads g => g[i, j]))
  }

  /** Two boards that agree on every cell are equal. */
  lemma BoardExt(a: Board, b: Board)
    requires IsBoard(a) && IsBoard(b)
    requires forall i, j :: 0 <= i < N && 0 <= j < N ==> a[i][j] == b[i][j]
    ensures a == b
  {
    forall i | 0 <= i < N ensures a[i] == b[i] {
      assert forall j :: 0 <= j < N ==> a[i][j] == b[i][j];
    }
  }

  /** (i, j) comes strictly before (r, c) in row-major order. */
  predicate Before(i: int, j: int, r: int, c: int) {
    i < r || (i == r && j < c)
  }

  /** Every cell before (r, c) in row-major order is filled. */
  predicate NoEmptyBefore(b: Board, r: int, c: int)
    requires IsBoard(b)
  {
    forall i, j :: 0 <= i < N && 0 <= j < N && Before(i, j, r, c) ==> b[i][j] != 0
  }

  /** (r, c) is the first empty cell of b in row-major order. */
  predicate IsFirstEmpty(b: Board, r: int, c: int)
    requires IsBoard(b)
  {
    0 <= r < N && 0 <= c < N && b[r][c] == 0 && NoEmptyBefore(b, r, c)
  }

  // ---------------------------------------------------------------- units

  /** Column c, top to bottom. */
  function Col(b: Board, c: int): seq<int>
    requires IsBoard(b) && 0 <= c < N
  {
    seq(N, i requires 0 <= i < N => b[i][c])
  }

  /** The 3x3 box whose top-left cell is (br, bc), read row by row. */
  function Box(b: Board, br: int, bc: int): seq<int>
    requires IsBoard(b) && 0 <= br <= N - 3 && 0 <= bc <= N - 3
  {
    seq(N, t requires 0 <= t < N => b[br + t / 3][bc + t % 3])
  }

  /** Top-left row (or column) of the box holding row (or column) i. */
  function BoxStart(i: int): int {
    i - i % 3
  }

  lemma BoxStartIsCorner(r: int, c: int)
    requires 0 <= r < N && 0 <= c < N
    ensures IsBoxCorner(BoxStart(r), BoxStart(c))
  {
  }

  predicate InRow(b: Board, r: int, n: int)
    requires IsBoard(b) && 0 <= r < N
  {
    n in b[r]
  }

  predicate InCol(b: Board, c: int, n: int)
    requires IsBoard(b) && 0 <= c < N
  {
    n in Col(b, c)
  }

  predicate InBox(b: Board, br: int, bc: int, n: int)
    requires IsBoard(b) && 0 <= br <= N - 3 && 0 <= bc <= N - 3
  {
    n in Box(b, br, bc)
  }

  /** Offset t of a box splits into a row offset t / 3 and a column offset t % 3. */
  lemma Offset3(a: int, c: int)
    requires 0 <= a < 3 && 0 <= c < 3
    ensures (3 * a + c) / 3 == a && (3 * a + c) % 3 == c
  {
  }

  lemma InBoxMeaning(b: Board, br: int, bc: int, n: int)
    requires IsBoard(b) && 0 <= br <= N - 3 && 0 <= bc <= N - 3
    ensures InBox(b, br, bc, n) <==>
      exists i, j :: br <= i < br + 3 && bc <= j < bc + 3 && b[i][j] == n
  {
    if InBox(b, br, bc, n) {
      var t :| 0 <= t < N && Box(b, br, bc)[t] == n;
      var q, m := t / 3, t % 3;
      assert 0 <= q < 3 && 0 <= m < 3;
      assert b[br + q][bc + m] == n;
    }
    if exists i, j :: br <= i < br + 3 && bc <= j < bc + 3 && b[i][j] == n {
      var i, j :| br <= i < br + 3 && bc <= j < bc + 3 && b[i][j] == n;
      Offset3(i - br, j - bc);
      assert Box(b, br, bc)[3 * (i - br) + (j - bc)] == n;
    }
  }

  /** n may go in (r, c): it is in neither the row, the column nor the box of r, c. */
  predicate ValidPlace(b: Board, r: int, c: int, n: int)
    requires IsBoard(b) && 0 <= r < N && 0 <= c < N
  {
    !InRow(b, r, n) && !InCol(b, c, n) && !InBox(b, BoxStart(r), BoxStart(c), n)
  }

  // ------------------------------------------------- consistency, completion

  /** No non-zero value occurs twice. */
  predicate Distinct(s: seq<int>) {
    forall k1, k2 :: 0 <= k1 < k2 < |s| && s[k1] != 0 ==> s[k1] != s[k2]
  }

  predicate IsBoxCorner(br: int, bc: int) {
    0 <= br <= N - 3 && 0 <= bc <= N - 3 && br % 3 == 0 && bc % 3 == 0
  }

  /** No row, column or box holds the same non-zero digit twice. */
  ghost predicate Consistent(b: Board)
    requires IsBoard(b)
  {
    && (forall r :: 0 <= r < N ==> Distinct(b[r]))
    && (forall c :: 0 <= c < N ==> Distinct(Col(b, c)))
    && (forall br, bc :: IsBoxCorner(br, bc) ==> Distinct(Box(b, br, bc)))
  }

  /** b with cell (r, c) set to n. */
  function Set(b: Board, r: int, c: int, n: int): (b': Board)
    requires IsBoard(b) && 0 <= r < N && 0 <= c < N
    ensures IsBoard(b')
  {
    b[r := b[r][c := n]]
  }

  /** grid[r][c] = v: writing one cell of a grid changes its board in that cell only. */
  method WriteCell(g: array2<int>, r: int, c: int, v: int)
    requires IsGrid(g) && 0 <= r < N && 0 <= c < N
    modifies g
    ensures Cells(g) == Set(old(Cells(g)), r, c, v)
  {
    ghost var b := Cells(g);
    g[r, c] := v;
    BoardExt(Cells(g), Set(b, r, c, v));
  }

  /** Putting back the value a cell had undoes a placement there. */
  lemma SetUndo(b: Board, r: int, c: int, n: int)
    requires IsBoard(b) && 0 <= r < N && 0 <= c < N
    ensures Set(Set(b, r, c, n), r, c, b[r][c]) == b
  {
    assert Set(Set(b, r, c, n), r, c, b[r][c])[r] == b[r];
  }

  /** h keeps every non-zero cell of b and holds a digit 1..9 where b is empty. */
  predicate Completes(b: Board, h: Board)
    requires IsBoard(b) && IsBoard(h)
  {
    forall i, j :: 0 <= i < N && 0 <= j < N ==>
      if b[i][j] != 0 then h[i][j] == b[i][j] else 1 <= h[i][j] <= 9
  }

  /** h is a solution of the puzzle b. */
  ghost predicate IsCompletion(b: Board, h: Board)
    requires IsBoard(b)
  {
    IsBoard(h) && Completes(b, h) && Consistent(h)
  }

  ghost predicate HasCompletion(b: Board)
    requires IsBoard(b)
  {
    exists h :: IsCompletion(b, h)
  }

  /** Every non-zero cell of a agrees with h (a is h with some cells blanked). */
  predicate Within(a: Board, h: Board)
    requires IsBoard(a) && IsBoard(h)
  {
    forall i, j :: 0 <= i < N && 0 <= j < N ==> a[i][j] == 0 || a[i][j] == h[i][j]
  }

  /** Every cell holds a digit 1..9 and no unit holds a digit twice. */
  ghost predicate IsSolved(b: Board)
    requires IsBoard(b)
  {
    (forall i, j :: 0 <= i < N && 0 <= j < N ==> 1 <= b[i][j] <= 9) && Consistent(b)
  }

  /** Every cell holds 0 (empty) or a digit 1..9. */
  predicate IsDigitBoard(b: Board)
    requires IsBoard(b)
  {
    forall i, j :: 0 <= i < N && 0 <= j < N ==> 0 <= b[i][j] <= 9
  }

  predicate NoEmpty(b: Board)
    requires IsBoard(b)
  {
    forall i, j :: 0 <= i < N && 0 <= j < N ==> b[i][j] != 0
  }

  // ------------------------------------------------------------ counting

  /** Number of zero entries. */
  function Zeros(s: seq<int>): (z: nat)
    ensures z <= |s|
  {
    if s == [] then 0 else Zeros(s[..|s| - 1]) + (if s[|s| - 1] == 0 then 1 else 0)
  }

  /** Number of zero cells of a board (of any list of rows). */
  function BoardZeros(b: seq<seq<int>>): nat {
    if b == [] then 0 else BoardZeros(b[..|b| - 1]) + Zeros(b[|b| - 1])
  }

  lemma {:induction false} ZerosAppend(a: seq<int>, b: seq<int>)
    ensures Zeros(a + b) == Zeros(a) + Zeros(b)
  {
    if b != [] {
      ZerosAppend(a, b[..|b| - 1]);
      assert (a + b)[..|a + b| - 1] == a + b[..|b| - 1];
    } else {
      assert a + b == a;
    }
  }

  lemma {:induction false} ZerosAll(s: seq<int>)
    ensures Zeros(s) == |s| <==> forall k :: 0 <= k < |s| ==> s[k] == 0
  {
    if s != [] {
      var p := s[..|s| - 1];
      ZerosAll(p);
      assert forall k :: 0 <= k < |p| ==> p[k] == s[k];
    }
  }

  /** Overwriting one entry changes the count by at most one, as expected. */
  lemma {:induction false} ZerosUpdate(s: seq<int>, k: int, v: int)
    requires 0 <= k < |s|
    ensures Zeros(s[k := v]) + (if s[k] == 0 then 1 else 0)
         == Zeros(s) + (if v == 0 then 1 else 0)
  {
    var n := |s| - 1;
    if k < n {
      ZerosUpdate(s[..n], k, v);
      assert s[k := v][..n] == s[..n][k := v];
    } else {
      assert s[k := v][..n] == s[..n];
    }
  }

  lemma {:induction false} BoardZerosUpdate(b: seq<seq<int>>, r: int, row: seq<int>)
    requires 0 <= r < |b|
    ensures BoardZeros(b[r := row]) + Zeros(b[r]) == BoardZeros(b) + Zeros(row)
  {
    var n := |b| - 1;
    if r < n {
      BoardZerosUpdate(b[..n], r, row);
      assert b[r := row][..n] == b[..n][r := row];
    } else {
      assert b[r := row][..n] == b[..n];
    }
  }

  /** Filling an empty cell with a non-zero value removes exactly one empty cell. */
  lemma PlaceDecreasesZeros(b: Board, r: int, c: int, n: int)
    requires IsBoard(b) && 0 <= r < N && 0 <= c < N && b[r][c] == 0 && n != 0
    ensures BoardZeros(Set(b, r, c, n)) + 1 == BoardZeros(b)
  {
    ZerosUpdate(b[r], c, n);
    BoardZerosUpdate(b, r, b[r][c := n]);
  }

  // ------------------------------------------------- placement and units

  lemma ColOfSet(b: Board, r: int, c: int, n: int, c': int)
    requires IsBoard(b) && 0 <= r < N && 0 <= c < N && 0 <= c' < N
    ensures Col(Set(b, r, c, n), c') == if c' == c then Col(b, c)[r := n] else Col(b, c')
  {
  }

  /** Position t of the box at (br, bc) is cell (r, c) exactly when (r, c)
      lies in that box and t is its offset there. */
  lemma BoxIndex(br: int, bc: int, r: int, c: int, t: int)
    requires IsBoxCorner(br, bc) && 0 <= r < N && 0 <= c < N && 0 <= t < N
    ensures (br + t / 3 == r && bc + t % 3 == c) <==>
            (br == BoxStart(r) && bc == BoxStart(c) && t == (r - br) * 3 + (c - bc))
  {
    var q, m := t / 3, t % 3;
    assert t == 3 * q + m && 0 <= q < 3 && 0 <= m < 3;
    assert br == 0 || br == 3 || br == 6;
    assert bc == 0 || bc == 3 || bc == 6;
  }

  lemma BoxOfSet(b: Board, r: int, c: int, n: int, br: int, bc: int)
    requires IsBoard(b) && 0 <= r < N && 0 <= c < N && IsBoxCorner(br, bc)
    ensures br == BoxStart(r) && bc == BoxStart(c) ==>
              Box(Set(b, r, c, n), br, bc) == Box(b, br, bc)[(r - br) * 3 + (c - bc) := n]
    ensures !(br == BoxStart(r) && bc == BoxStart(c)) ==>
              Box(Set(b, r, c, n), br, bc) == Box(b, br, bc)
  {
    var t0 := (r - br) * 3 + (c - bc);
    var inBox := br == BoxStart(r) && bc == BoxStart(c);
    forall t | 0 <= t < N
      ensures Box(Set(b, r, c, n), br, bc)[t] == if inBox && t == t0 then n else Box(b, br, bc)[t]
    {
      BoxIndex(br, bc, r, c, t);
    }
    if inBox {
      assert 0 <= t0 < N by { BoxIndex(br, bc, r, c, 0); }
    }
  }

  lemma DistinctUpdate(s: seq<int>, k: int, n: int)
    requires 0 <= k < |s| && Distinct(s) && n !in s
    ensures Distinct(s[k := n])
  {
  }

  /** A value that occurs twice is not allowed by Distinct. */
  lemma DistinctTwice(s: seq<int>, k1: int, k2: int)
    requires 0 <= k1 < |s| && 0 <= k2 < |s| && k1 != k2 && s[k1] == s[k2] && s[k1] != 0
    ensures !Distinct(s)
  {
    if k1 < k2 {
      assert s[k1] == s[k2];
    } else {
      assert s[k2] == s[k1];
    }
  }

  /** A valid placement keeps a consistent board consistent (the forward half of PlaceValidIff). */
  lemma PlaceKeepsConsistent(b: Board, r: int, c: int, n: int)
    requires IsBoard(b) && 0 <= r < N && 0 <= c < N
    requires Consistent(b) && ValidPlace(b, r, c, n)
    ensures Consistent(Set(b, r, c, n))
  {
    var b' := Set(b, r, c, n);
    forall r' | 0 <= r' < N ensures Distinct(b'[r']) {
      if r' == r { DistinctUpdate(b[r], c, n); }
    }
    forall c' | 0 <= c' < N ensures Distinct(Col(b', c')) {
      ColOfSet(b, r, c, n, c');
      if c' == c { DistinctUpdate(Col(b, c), r, n); }
    }
    forall br, bc | IsBoxCorner(br, bc) ensures Distinct(Box(b', br, bc)) {
      BoxOfSet(b, r, c, n, br, bc);
      if br == BoxStart(r) && bc == BoxStart(c) {
        DistinctUpdate(Box(b, br, bc), (r - br) * 3 + (c - bc), n);
      }
    }
  }

  /** Writing a digit into an empty cell keeps the board consistent only if the
      placement was valid (the backward half of PlaceValidIff). */
  lemma ConsistentPlaceIsValid(b: Board, r: int, c: int, n: int)
    requires IsBoard(b) && 0 <= r < N && 0 <= c < N
    requires b[r][c] == 0 && n != 0 && Consistent(Set(b, r, c, n))
    ensures ValidPlace(b, r, c, n)
  {
    var b' := Set(b, r, c, n);
    BoxStartIsCorner(r, c);
    assert Distinct(b'[r]) && Distinct(Col(b', c));
    assert Distinct(Box(b', BoxStart(r), BoxStart(c)));
    PlacedNotInRow(b, r, c, n);
    PlacedNotInCol(b, r, c, n);
    PlacedNotInBox(b, r, c, n);
  }

  lemma PlacedNotInRow(b: Board, r: int, c: int, n: int)
    requires IsBoard(b) && 0 <= r < N && 0 <= c < N
    requires b[r][c] == 0 && n != 0 && Distinct(Set(b, r, c, n)[r])
    ensures !InRow(b, r, n)
  {
    if InRow(b, r, n) {
      var c' :| 0 <= c' < N && b[r][c'] == n;
      DistinctTwice(Set(b, r, c, n)[r], c, c');
      assert false;
    }
  }

  lemma PlacedNotInCol(b: Board, r: int, c: int, n: int)
    requires IsBoard(b) && 0 <= r < N && 0 <= c < N
    requires b[r][c] == 0 && n != 0 && Distinct(Col(Set(b, r, c, n), c))
    ensures !InCol(b, c, n)
  {
    if InCol(b, c, n) {
      var r' :| 0 <= r' < N && Col(b, c)[r'] == n;
      ColOfSet(b, r, c, n, c);
      DistinctTwice(Col(Set(b, r, c, n), c), r, r');
      assert false;
    }
  }

  lemma PlacedNotInBox(b: Board, r: int, c: int, n: int)
    requires IsBoard(b) && 0 <= r < N && 0 <= c < N
    requires b[r][c] == 0 && n != 0 && Distinct(Box(Set(b, r, c, n), BoxStart(r), BoxStart(c)))
    ensures !InBox(b, BoxStart(r), BoxStart(c), n)
  {
    var br, bc := BoxStart(r), BoxStart(c);
    if InBox(b, br, bc, n) {
      var t' :| 0 <= t' < N && Box(b, br, bc)[t'] == n;
      BoxOfSet(b, r, c, n, br, bc);
      DistinctTwice(Box(Set(b, r, c, n), br, bc), (r - br) * 3 + (c - bc), t');
      assert false;
    }
  }

  /** On a consistent board, a non-zero digit may be written into an empty cell
      without breaking consistency exactly when ValidPlace allows it. */
  lemma PlaceValidIff(b: Board, r: int, c: int, n: int)
    requires IsBoard(b) && 0 <= r < N && 0 <= c < N
    requires Consistent(b) && b[r][c] == 0 && n != 0
    ensures ValidPlace(b, r, c, n) <==> Consistent(Set(b, r, c, n))
  {
    if ValidPlace(b, r, c, n) {
      PlaceKeepsConsistent(b, r, c, n);
    }
    if Consistent(Set(b, r, c, n)) {
      ConsistentPlaceIsValid(b, r, c, n);
    }
  }

  lemma DistinctWithin(s: seq<int>, t: seq<int>)
    requires |s| == |t| && Distinct(t)
    requires forall k :: 0 <= k < |s| ==> s[k] == 0 || s[k] == t[k]
    ensures Distinct(s)
  {
  }

  /** Blanking cells of a consistent board leaves it consistent. */
  lemma ConsistentWithin(a: Board, h: Board)
    requires IsBoard(a) && IsBoard(h) && Within(a, h) && Consistent(h)
    ensures Consistent(a)
  {
    forall r | 0 <= r < N ensures Distinct(a[r]) {
      DistinctWithin(a[r], h[r]);
    }
    forall c | 0 <= c < N ensures Distinct(Col(a, c)) {
      DistinctWithin(Col(a, c), Col(h, c));
    }
    forall br, bc | IsBoxCorner(br, bc) ensures Distinct(Box(a, br, bc)) {
      DistinctWithin(Box(a, br, bc), Box(h, br, bc));
    }
  }

  /** In a solution, the digit of a cell empty in the puzzle is a valid placement. */
  lemma CompletionDigitIsValid(b: Board, h: Board, r: int, c: int)
    requires IsBoard(b) && 0 <= r < N && 0 <= c < N
    requires IsCompletion(b, h) && b[r][c] == 0
    ensures 1 <= h[r][c] <= 9 && ValidPlace(b, r, c, h[r][c])
  {
    var b' := Set(b, r, c, h[r][c]);
    ConsistentWithin(b', h);
    ConsistentPlaceIsValid(b, r, c, h[r][c]);
  }

  /** A solution of a puzzle that holds digit n at an empty cell (r, c) is also a
      solution of the puzzle with n written there. */
  lemma CompletionOfSet(b: Board, h: Board, r: int, c: int)
    requires IsBoard(b) && 0 <= r < N && 0 <= c < N
    requires IsCompletion(b, h) && b[r][c] == 0
    ensures IsCompletion(Set(b, r, c, h[r][c]), h)
  {
  }

  // -------------------------------------------------- digit permutations

  /** The set of entries of a sequence. */
  function Elems(s: seq<int>): set<int> {
    set x | x in s
  }

  const Digits: set<int> := {1, 2, 3, 4, 5, 6, 7, 8, 9}

  /** s holds each of the digits 1..9 exactly once. */
  predicate IsDigitPermutation(s: seq<int>) {
    && |s| == N
    && (forall k :: 0 <= k < |s| ==> 1 <= s[k] <= 9)
    && (forall k1, k2 :: 0 <= k1 < k2 < |s| ==> s[k1] != s[k2])
  }

  /** Each digit 1..9 occurs in s. */
  predicate HasAllDigits(s: seq<int>) {
    forall d :: 1 <= d <= 9 ==> d in s
  }

  lemma {:induction false} ElemsCard(s: seq<int>)
    ensures |Elems(s)| <= |s|
    ensures (forall k1, k2 :: 0 <= k1 < k2 < |s| ==> s[k1] != s[k2]) ==> |Elems(s)| == |s|
  {
    if s != [] {
      var p, x := s[..|s| - 1], s[|s| - 1];
      ElemsCard(p);
      assert s == p + [x];
      assert Elems(s) == Elems(p) + {x};
      if forall k1, k2 :: 0 <= k1 < k2 < |s| ==> s[k1] != s[k2] {
        assert x !in Elems(p);
      }
    }
  }

  lemma SubsetCard(a: set<int>, b: set<int>)
    requires a <= b
    ensures |a| <= |b|
    ensures |a| == |b| ==> a == b
  {
    assert b == a + (b - a);
  }

  lemma DigitsCard()
    ensures |Digits| == 9
    ensures forall d :: d in Digits <==> 1 <= d <= 9
  {
  }

  /** Dropping an entry that occurs again elsewhere keeps the set of entries. */
  lemma ElemsWithoutDuplicate(s: seq<int>, k1: int, k2: int)
    requires 0 <= k1 < k2 < |s| && s[k1] == s[k2]
    ensures Elems(s) == Elems(s[..k2] + s[k2 + 1..])
  {
    var t := s[..k2] + s[k2 + 1..];
    forall x | x in Elems(s) ensures x in Elems(t) {
      var k :| 0 <= k < |s| && s[k] == x;
      if k < k2 { assert t[k] == x; }
      else if k == k2 { assert t[k1] == x; }
      else { assert t[k - 1] == x; }
    }
    forall x | x in Elems(t) ensures x in Elems(s) {
      var k :| 0 <= k < |t| && t[k] == x;
      if k < k2 { assert s[k] == x; } else { assert s[k + 1] == x; }
    }
  }

  /** Nine cells that hold every digit hold nine different digits. */
  lemma AllDigitsArePermutation(s: seq<int>)
    requires |s| == N && HasAllDigits(s)
    ensures IsDigitPermutation(s)
  {
    DigitsCard();
    ElemsCard(s);
    assert Digits <= Elems(s);
    SubsetCard(Digits, Elems(s));
    forall k | 0 <= k < |s| ensures 1 <= s[k] <= 9 {
      assert s[k] in Elems(s);
    }
    forall k1, k2 | 0 <= k1 < k2 < |s| ensures s[k1] != s[k2] {
      if s[k1] == s[k2] {
        var t := s[..k2] + s[k2 + 1..];
        ElemsWithoutDuplicate(s, k1, k2);
        ElemsCard(t);
        assert false;
      }
    }
  }

  /** Nine different digits are all the digits. */
  lemma PermutationHasAllDigits(s: seq<int>)
    requires IsDigitPermutation(s)
    ensures HasAllDigits(s)
  {
    DigitsCard();
    ElemsCard(s);
    assert Elems(s) <= Digits;
    SubsetCard(Elems(s), Digits);
    forall d | 1 <= d <= 9 ensures d in s {
      assert d in Elems(s);
    }
  }

  /** Nine cells hold every digit exactly when they hold nine different digits. */
  lemma AllDigitsIffPermutation(s: seq<int>)
    requires |s| == N
    ensures HasAllDigits(s) <==> IsDigitPermutation(s)
  {
    if HasAllDigits(s) { AllDigitsArePermutation(s); }
    if IsDigitPermutation(s) { PermutationHasAllDigits(s); }
  }

  /** Nine cells one of which is empty miss some digit. */
  lemma MissingDigit(s: seq<int>, k: int)
    requires |s| == N && 0 <= k < N && s[k] == 0
    ensures exists d :: 1 <= d <= 9 && d !in s
  {
    if forall d :: 1 <= d <= 9 ==> d in s {
      AllDigitsIffPermutation(s);
      assert false;
    }
  }
}
