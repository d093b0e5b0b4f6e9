/** The genetic-algorithm helpers of the program: the 81-gene genome and its
    conversion to and from the grid, the initializer (diagonal boxes seeded from
    shuffled digits, the other cells filled row by row), the gene-swap mutator
    and the cut-point crossover.

    A genome is an `array<int>` of 81 genes, gene i*9+j standing for cell
    (i, j). Every random choice of the program is a parameter: a shuffled
    digit list is a sequence the caller supplies, a coin flip is a `bool`, and
    a call of `rand()` is a natural number the caller supplies. */
module Genome {
  import opened Board
  import opened SudokuSolver

  /** Number of genes: one per cell. */
  const Genes: int := 81

  // ------------------------------------------------- genome <-> board values

  /** The board a genome stands for: cell (i, j) is gene i*9+j. */
  function BoardOf(s: seq<int>): (b: Board)
    requires |s| == Genes
    ensures IsBoard(b)
  {
    seq(N, i requires 0 <= i < N => seq(N, j requires 0 <= j < N => s[i * 9 + j]))
  }

  /** The genome of a board, row by row. */
  function Flatten(b: Board): (s: seq<int>)
    requires IsBoard(b)
    ensures |s| == Genes
  {
    seq(Genes, k requires 0 <= k < Genes => b[k / 9][k % 9])
  }

  /** Converting a board to a genome and back gives the board again. */
  lemma BoardOfFlatten(b: Board)
    requires IsBoard(b)
    ensures BoardOf(Flatten(b)) == b
  {
    var b' := BoardOf(Flatten(b));
    forall i, j | 0 <= i < N && 0 <= j < N ensures b'[i][j] == b[i][j] {
      var k := i * 9 + j;
      assert k / 9 == i && k % 9 == j;
    }
    BoardExt(b', b);
  }

  /** Converting a genome to a board and back gives the genome again. */
  lemma FlattenBoardOf(s: seq<int>)
    requires |s| == Genes
    ensures Flatten(BoardOf(s)) == s
  {
    var s' := Flatten(BoardOf(s));
    forall k | 0 <= k < Genes ensures s'[k] == s[k] {
      assert (k / 9) * 9 + k % 9 == k;
    }
  }

  /** Row k of the board of s is the k-th run of nine genes. */
  lemma BoardOfRow(s: seq<int>, k: int)
    requires |s| == Genes && 0 <= k < N
    ensures BoardOf(s)[k] == s[9 * k .. 9 * k + 9]
  {
  }

  /** Adding row k to the rows before it adds the zeros of genes 9k..9k+8. */
  lemma GenomeZerosStep(s: seq<int>, k: int)
    requires |s| == Genes && 0 <= k < N
    ensures BoardZeros(BoardOf(s)[..k + 1]) == BoardZeros(BoardOf(s)[..k]) + Zeros(s[9 * k .. 9 * k + 9])
    ensures Zeros(s[..9 * k + 9]) == Zeros(s[..9 * k]) + Zeros(s[9 * k .. 9 * k + 9])
  {
    var b := BoardOf(s);
    BoardOfRow(s, k);
    assert b[..k + 1][..k] == b[..k];
    assert s[..9 * k + 9] == s[..9 * k] + s[9 * k .. 9 * k + 9];
    ZerosAppend(s[..9 * k], s[9 * k .. 9 * k + 9]);
  }

  /** A genome has as many zero genes as its board has empty cells. */
  lemma GenomeZeros(s: seq<int>)
    requires |s| == Genes
    ensures BoardZeros(BoardOf(s)) == Zeros(s)
  {
    for k := 0 to N
      invariant BoardZeros(BoardOf(s)[..k]) == Zeros(s[..9 * k])
    {
      GenomeZerosStep(s, k);
    }
    assert BoardOf(s)[..N] == BoardOf(s);
    assert s[..9 * N] == s;
  }

  // ------------------------------------------------------ grid <-> genome

  method GenomeToGrid(genome: array<int>, g: array2<int>)
    requires genome.Length == Genes && IsGrid(g)
    modifies g
    ensures forall i, j :: 0 <= i < N && 0 <= j < N ==> g[i, j] == genome[i * 9 + j]
    ensures Cells(g) == BoardOf(genome[..])
  {
    for i := 0 to N
      invariant forall i', j :: 0 <= i' < i && 0 <= j < N ==> g[i', j] == genome[i' * 9 + j]
    {
      for j := 0 to N
        invariant forall i', j' :: 0 <= i' < i && 0 <= j' < N ==> g[i', j'] == genome[i' * 9 + j']
        invariant forall j' :: 0 <= j' < j ==> g[i, j'] == genome[i * 9 + j']
      {
        g[i, j] := genome[i * N + j];
      }
    }
    BoardExt(Cells(g), BoardOf(genome[..]));
  }

  /** The copy of the grid into the genome at the end of the initializer. */
  method GridToGenome(g: array2<int>, genome: array<int>)
    requires genome.Length == Genes && IsGrid(g)
    modifies genome
    ensures forall i, j :: 0 <= i < N && 0 <= j < N ==> genome[i * 9 + j] == g[i, j]
    ensures genome[..] == Flatten(Cells(g))
  {
    for i := 0 to N
      invariant forall k :: 0 <= k < i * 9 ==> genome[k] == g[k / 9, k % 9]
    {
      for j := 0 to N
        invariant forall k :: 0 <= k < i * 9 + j ==> genome[k] == g[k / 9, k % 9]
      {
        genome[i * N + j] := g[i, j];
        assert (i * 9 + j) / 9 == i && (i * 9 + j) % 9 == j;
      }
    }
    forall i, j | 0 <= i < N && 0 <= j < N ensures genome[i * 9 + j] == g[i, j] {
      var k := i * 9 + j;
      assert k / 9 == i && k % 9 == j;
    }
  }

  /** Number of empty cells of the grid. The program calls countZeros without
      defining it in the files modelled here; this is the assumed meaning. */
  method CountZeros(g: array2<int>) returns (count: nat)
    requires IsGrid(g)
    ensures count == BoardZeros(Cells(g))
  {
    ghost var b := Cells(g);
    count := 0;
    for i := 0 to N
      invariant count == BoardZeros(b[..i])
    {
      ghost var row := b[i];
      for j := 0 to N
        invariant count == BoardZeros(b[..i]) + Zeros(row[..j])
      {
        assert row[..j + 1][..j] == row[..j];
        if g[i, j] == 0 {
          count := count + 1;
        }
      }
      assert row[..N] == row;
      assert b[..i + 1][..i] == b[..i];
    }
    assert b[..N] == b;
  }

  // --------------------------------------------------------- initializer

  /** The all-empty board. */
  function EmptyBoard(): (b: Board)
    ensures IsBoard(b)
  {
    seq(N, i => seq(N, j => 0))
  }

  /** b with the box whose corner is (3k, 3k) laid out, row by row, from
      orders[k], for k = 0, 1, 2. */
  function Seeded(b: Board, orders: seq<seq<int>>): (b': Board)
    requires IsBoard(b) && |orders| == 3 && forall k :: 0 <= k < 3 ==> |orders[k]| == N
    ensures IsBoard(b')
  {
    seq(N, i requires 0 <= i < N =>
      seq(N, j requires 0 <= j < N =>
        if i / 3 == j / 3 then orders[i / 3][(i % 3) * 3 + j % 3] else b[i][j]))
  }

  method ClearGrid(g: array2<int>)
    requires IsGrid(g)
    modifies g
    ensures Cells(g) == EmptyBoard()
  {
    for i := 0 to N
      invariant forall i', j :: 0 <= i' < i && 0 <= j < N ==> g[i', j] == 0
    {
      for j := 0 to N
        invariant forall i', j' :: 0 <= i' < i && 0 <= j' < N ==> g[i', j'] == 0
        invariant forall j' :: 0 <= j' < j ==> g[i, j'] == 0
      {
        g[i, j] := 0;
      }
    }
    BoardExt(Cells(g), EmptyBoard());
  }

  /** Lays out each shuffled digit list in its diagonal box. */
  method SeedDiagonalBoxes(g: array2<int>, boxValues: seq<seq<int>>)
    requires IsGrid(g) && |boxValues| == 3 && forall k :: 0 <= k < 3 ==> |boxValues[k]| == N
    modifies g
    ensures Cells(g) == Seeded(old(Cells(g)), boxValues)
  {
    ghost var b0 := Cells(g);
    for box := 0 to 3
      invariant forall i, j :: 0 <= i < N && 0 <= j < N ==>
        Cells(g)[i][j] == if i / 3 == j / 3 && i / 3 < box then Seeded(b0, boxValues)[i][j] else b0[i][j]
    {
      for row := 0 to 3
        invariant forall i, j :: 0 <= i < N && 0 <= j < N ==>
          Cells(g)[i][j] == if i / 3 == j / 3 && (i / 3 < box || (i / 3 == box && i % 3 < row))
                     then Seeded(b0, boxValues)[i][j] else b0[i][j]
      {
        for col := 0 to 3
          invariant forall i, j :: 0 <= i < N && 0 <= j < N ==>
            Cells(g)[i][j] == if i / 3 == j / 3 && (i / 3 < box || (i / 3 == box && i % 3 < row) ||
                                              (i / 3 == box && i % 3 == row && j % 3 < col))
                       then Seeded(b0, boxValues)[i][j] else b0[i][j]
        {
          WriteCell(g, box * 3 + row, col + box * 3, boxValues[box][row * 3 + col]);
        }
      }
    }
    BoardExt(Cells(g), Seeded(b0, boxValues));
  }

  /** The first index from i on whose entry of order is not in row, if any. */
  function FirstAbsentFrom(row: seq<int>, order: seq<int>, i: nat): (r: Option<int>)
    requires i <= |order|
    ensures r.Some? ==> r.value in order[i..] && r.value !in row
    ensures r.None? ==> forall k :: i <= k < |order| ==> order[k] in row
    decreases |order| - i
  {
    if i == |order| then None
    else if order[i] !in row then Some(order[i])
    else FirstAbsentFrom(row, order, i + 1)
  }

  /** A row after the filling loop has handled columns 0..c-1: each empty cell
      got the first value of its own shuffled list that was not yet in the row. */
  function FillRowUpTo(row: seq<int>, orders: seq<seq<int>>, c: nat): (r: seq<int>)
    requires |row| == N && |orders| == N && c <= N
    ensures |r| == N
  {
    if c == 0 then row
    else
      var cur := FillRowUpTo(row, orders, c - 1);
      if cur[c - 1] == 0 then
        match FirstAbsentFrom(cur, orders[c - 1], 0)
        case Some(v) => cur[c - 1 := v]
        case None => cur
      else cur
  }

  function FillRow(row: seq<int>, orders: seq<seq<int>>): seq<int>
    requires |row| == N && |orders| == N
  {
    FillRowUpTo(row, orders, N)
  }

  /** One shuffled list of nine values per cell. */
  predicate IsOrderGrid(orders: seq<seq<seq<int>>>) {
    && |orders| == N
    && (forall r :: 0 <= r < N ==> |orders[r]| == N)
    && (forall r, c :: 0 <= r < N && 0 <= c < N ==> |orders[r][c]| == N)
  }

  /** The board after fillRemainingCells: rows are filled independently. */
  function FillAll(b: Board, orders: seq<seq<seq<int>>>): (b': Board)
    requires IsBoard(b) && |orders| == N && forall r :: 0 <= r < N ==> |orders[r]| == N
    ensures IsBoard(b')
  {
    seq(N, r requires 0 <= r < N => FillRow(b[r], orders[r]))
  }

  /** Fills every empty cell with the first value of that cell's shuffled list
      that is not yet in its row; a cell whose list is exhausted stays 0. */
  method FillRemainingCells(g: array2<int>, randomValues: seq<seq<seq<int>>>)
    requires IsGrid(g) && IsOrderGrid(randomValues)
    modifies g
    ensures Cells(g) == FillAll(old(Cells(g)), randomValues)
  {
    ghost var b0 := Cells(g);
    ghost var b1 := FillAll(b0, randomValues);
    for row := 0 to N
      invariant forall i :: 0 <= i < N ==> Cells(g)[i] == if i < row then b1[i] else b0[i]
    {
      for col := 0 to N
        invariant forall i :: 0 <= i < N && i != row ==> Cells(g)[i] == if i < row then b1[i] else b0[i]
        invariant Cells(g)[row] == FillRowUpTo(b0[row], randomValues[row], col)
      {
        ghost var cur := FillRowUpTo(b0[row], randomValues[row], col);
        ghost var before := Cells(g);
        if g[row, col] == 0 {
          var order := randomValues[row][col];
          var i := 0;
          while i < N
            invariant 0 <= i <= N
            invariant Cells(g) == before
            invariant FirstAbsentFrom(cur, order, i) == FirstAbsentFrom(cur, order, 0)
          {
            var present := IsPresentInRow(row, order[i], g);
            if !present {
              WriteCell(g, row, col, order[i]);
              break;
            }
            i := i + 1;
          }
        }
      }
    }
    assert forall i :: 0 <= i < N ==> Cells(g)[i] == b1[i];
  }

  /** The initializer: an empty grid, the diagonal boxes seeded, the rest filled
      row by row, and the grid copied into the genome. */
  method Initializer(genome: array<int>, g: array2<int>,
                     boxValues: seq<seq<int>>, randomValues: seq<seq<seq<int>>>)
    requires genome.Length == Genes && IsGrid(g)
    requires |boxValues| == 3 && forall k :: 0 <= k < 3 ==> |boxValues[k]| == N
    requires IsOrderGrid(randomValues)
    modifies genome, g
    ensures Cells(g) == FillAll(Seeded(EmptyBoard(), boxValues), randomValues)
    ensures genome[..] == Flatten(Cells(g))
  {
    ClearGrid(g);
    SeedDiagonalBoxes(g, boxValues);
    FillRemainingCells(g, randomValues);
    GridToGenome(g, genome);
  }

  // ---------------------------------------------------- initializer facts

  /** Offset t of the diagonal box k is cell (3k + t/3, 3k + t%3), which lies
      in that box at row offset t/3 and column offset t%3. */
  lemma DiagonalCell(k: int, t: int)
    requires 0 <= k < 3 && 0 <= t < N
    ensures 0 <= 3 * k + t / 3 < N && 0 <= 3 * k + t % 3 < N
    ensures (3 * k + t / 3) / 3 == k && (3 * k + t % 3) / 3 == k
    ensures ((3 * k + t / 3) % 3) * 3 + (3 * k + t % 3) % 3 == t
  {
    var q, m := t / 3, t % 3;
    assert t == 3 * q + m && 0 <= q < 3 && 0 <= m < 3;
    assert k == 0 || k == 1 || k == 2;
  }

  /** Seeding lays each list out in its diagonal box and changes no other cell. */
  lemma SeededBoxes(b: Board, orders: seq<seq<int>>)
    requires IsBoard(b) && |orders| == 3 && forall k :: 0 <= k < 3 ==> |orders[k]| == N
    ensures forall k :: 0 <= k < 3 ==> Box(Seeded(b, orders), 3 * k, 3 * k) == orders[k]
    ensures forall i, j :: 0 <= i < N && 0 <= j < N && i / 3 != j / 3 ==> Seeded(b, orders)[i][j] == b[i][j]
  {
    var b' := Seeded(b, orders);
    forall k | 0 <= k < 3 ensures Box(b', 3 * k, 3 * k) == orders[k] {
      forall t | 0 <= t < N ensures Box(b', 3 * k, 3 * k)[t] == orders[k][t] {
        DiagonalCell(k, t);
      }
    }
  }

  /** What the filling loop keeps true of a row, column by column: the given
      cells stay, the row never holds a non-zero value twice, and every cell
      handled so far is non-empty, provided each shuffled list holds all nine
      digits and the row started without a repeated digit. */
  lemma {:induction false} FillRowUpToFacts(row: seq<int>, orders: seq<seq<int>>, c: nat)
    requires |row| == N && |orders| == N && c <= N
    requires Distinct(row) && forall k :: 0 <= k < N ==> 0 <= row[k] <= 9
    requires forall k :: 0 <= k < N ==> IsDigitPermutation(orders[k])
    ensures Distinct(FillRowUpTo(row, orders, c))
    ensures forall k :: 0 <= k < N ==> 0 <= FillRowUpTo(row, orders, c)[k] <= 9
    ensures forall k :: 0 <= k < c ==> FillRowUpTo(row, orders, c)[k] != 0
    ensures forall k :: 0 <= k < N && (row[k] != 0 || c <= k) ==> FillRowUpTo(row, orders, c)[k] == row[k]
  {
    if c > 0 {
      FillRowUpToFacts(row, orders, c - 1);
      var cur := FillRowUpTo(row, orders, c - 1);
      if cur[c - 1] == 0 {
        MissingDigit(cur, c - 1);
        var d :| 1 <= d <= 9 && d !in cur;
        PermutationHasAllDigits(orders[c - 1]);
        assert d in orders[c - 1];
        var o := FirstAbsentFrom(cur, orders[c - 1], 0);
        DistinctUpdate(cur, c - 1, o.value);
      }
    }
  }

  /** The filling writes only empty cells, and each value it writes was not yet
      in the row at the moment of writing. */
  lemma FillRowWritesFreshValues(row: seq<int>, orders: seq<seq<int>>, c: nat)
    requires |row| == N && |orders| == N && c < N
    ensures var cur := FillRowUpTo(row, orders, c);
            FillRowUpTo(row, orders, c + 1)[c] != cur[c] ==>
              cur[c] == 0 && FillRowUpTo(row, orders, c + 1)[c] !in cur
    ensures forall k :: 0 <= k < N && k != c ==>
              FillRowUpTo(row, orders, c + 1)[k] == FillRowUpTo(row, orders, c)[k]
  {
  }

  /** fillRemainingCells never overwrites a cell that was already filled. */
  lemma {:induction false} FillRowKeepsGivens(row: seq<int>, orders: seq<seq<int>>, c: nat)
    requires |row| == N && |orders| == N && c <= N
    ensures forall k :: 0 <= k < N && row[k] != 0 ==> FillRowUpTo(row, orders, c)[k] == row[k]
  {
    if c > 0 {
      FillRowKeepsGivens(row, orders, c - 1);
      FillRowWritesFreshValues(row, orders, c - 1);
    }
  }

  /** A row of the seeded board: the three cells of its diagonal box from the
      box's list, zeros elsewhere. */
  lemma SeededRow(boxValues: seq<seq<int>>, r: int)
    requires |boxValues| == 3 && forall k :: 0 <= k < 3 ==> |boxValues[k]| == N && IsDigitPermutation(boxValues[k])
    requires 0 <= r < N
    ensures Distinct(Seeded(EmptyBoard(), boxValues)[r])
    ensures forall k :: 0 <= k < N ==> 0 <= Seeded(EmptyBoard(), boxValues)[r][k] <= 9
  {
    var s := Seeded(EmptyBoard(), boxValues)[r];
    forall k1, k2 | 0 <= k1 < k2 < N && s[k1] != 0 ensures s[k1] != s[k2] {
      if s[k2] != 0 {
        assert k1 / 3 == r / 3 && k2 / 3 == r / 3;
        assert (r % 3) * 3 + k1 % 3 < (r % 3) * 3 + k2 % 3;
      }
    }
  }

  /** With every list a shuffle of 1..9, every row of the initial board is
      a permutation of 1..9. */
  lemma InitialRows(boxValues: seq<seq<int>>, randomValues: seq<seq<seq<int>>>)
    requires |boxValues| == 3 && forall k :: 0 <= k < 3 ==> |boxValues[k]| == N && IsDigitPermutation(boxValues[k])
    requires IsOrderGrid(randomValues)
    requires forall r, c :: 0 <= r < N && 0 <= c < N ==> IsDigitPermutation(randomValues[r][c])
    ensures forall r :: 0 <= r < N ==>
              IsDigitPermutation(FillAll(Seeded(EmptyBoard(), boxValues), randomValues)[r])
  {
    var sb := Seeded(EmptyBoard(), boxValues);
    forall r | 0 <= r < N ensures IsDigitPermutation(FillAll(sb, randomValues)[r]) {
      SeededRow(boxValues, r);
      FillRowUpToFacts(sb[r], randomValues[r], N);
    }
  }

  /** Cell t of diagonal box k keeps its seeded value through the filling. */
  lemma DiagonalCellKept(boxValues: seq<seq<int>>, randomValues: seq<seq<seq<int>>>, k: int, t: int)
    requires |boxValues| == 3 && forall k :: 0 <= k < 3 ==> |boxValues[k]| == N && IsDigitPermutation(boxValues[k])
    requires IsOrderGrid(randomValues)
    requires 0 <= k < 3 && 0 <= t < N
    ensures Box(FillAll(Seeded(EmptyBoard(), boxValues), randomValues), 3 * k, 3 * k)[t] == boxValues[k][t]
  {
    var sb := Seeded(EmptyBoard(), boxValues);
    var i, j := 3 * k + t / 3, 3 * k + t % 3;
    DiagonalCell(k, t);
    assert sb[i][j] == boxValues[k][t];
    FillRowKeepsGivens(sb[i], randomValues[i], N);
  }

  /** The filling keeps the seeded diagonal boxes: each is still laid out from its list. */
  lemma InitialBoxes(boxValues: seq<seq<int>>, randomValues: seq<seq<seq<int>>>)
    requires |boxValues| == 3 && forall k :: 0 <= k < 3 ==> |boxValues[k]| == N && IsDigitPermutation(boxValues[k])
    requires IsOrderGrid(randomValues)
    ensures forall k :: 0 <= k < 3 ==>
              Box(FillAll(Seeded(EmptyBoard(), boxValues), randomValues), 3 * k, 3 * k) == boxValues[k]
  {
    forall k | 0 <= k < 3
      ensures Box(FillAll(Seeded(EmptyBoard(), boxValues), randomValues), 3 * k, 3 * k) == boxValues[k]
    {
      forall t | 0 <= t < N
        ensures Box(FillAll(Seeded(EmptyBoard(), boxValues), randomValues), 3 * k, 3 * k)[t] == boxValues[k][t]
      {
        DiagonalCellKept(boxValues, randomValues, k, t);
      }
    }
  }

  /** With every list a shuffle of 1..9, the initial board has each row a
      permutation of 1..9 and each diagonal box laid out from its list. */
  lemma InitialBoard(boxValues: seq<seq<int>>, randomValues: seq<seq<seq<int>>>)
    requires |boxValues| == 3 && forall k :: 0 <= k < 3 ==> |boxValues[k]| == N && IsDigitPermutation(boxValues[k])
    requires IsOrderGrid(randomValues)
    requires forall r, c :: 0 <= r < N && 0 <= c < N ==> IsDigitPermutation(randomValues[r][c])
    ensures forall r :: 0 <= r < N ==>
              IsDigitPermutation(FillAll(Seeded(EmptyBoard(), boxValues), randomValues)[r])
    ensures forall k :: 0 <= k < 3 ==>
              IsDigitPermutation(Box(FillAll(Seeded(EmptyBoard(), boxValues), randomValues), 3 * k, 3 * k))
  {
    InitialRows(boxValues, randomValues);
    InitialBoxes(boxValues, randomValues);
  }

  // --------------------------------------------------------------- mutator

  /** s with the entries at p and q exchanged. */
  function Swap(s: seq<int>, p: int, q: int): (t: seq<int>)
    requires 0 <= p < |s| && 0 <= q < |s|
    ensures |t| == |s|
  {
    s[p := s[q]][q := s[p]]
  }

  /** A swap keeps the multiset of genes: the mutator moves digits, it never
      changes how often each occurs. */
  lemma SwapKeepsGenes(s: seq<int>, p: int, q: int)
    requires 0 <= p < |s| && 0 <= q < |s|
    ensures multiset(Swap(s, p, q)) == multiset(s)
  {
    var t := s[p := s[q]];
    assert multiset(t) == multiset(s) - multiset{s[p]} + multiset{s[q]};
    assert multiset(t[q := s[p]]) == multiset(t) - multiset{t[q]} + multiset{s[p]};
  }

  /** Swapping twice at the same positions undoes the swap. */
  lemma SwapInvolution(s: seq<int>, p: int, q: int)
    requires 0 <= p < |s| && 0 <= q < |s|
    ensures Swap(Swap(s, p, q), p, q) == s
  {
  }

  /** Exactly the two chosen genes change places; every other gene keeps its value. */
  lemma SwapMeaning(s: seq<int>, p: int, q: int)
    requires 0 <= p < |s| && 0 <= q < |s|
    ensures Swap(s, p, q)[p] == s[q] && Swap(s, p, q)[q] == s[p]
    ensures forall k :: 0 <= k < |s| && k != p && k != q ==> Swap(s, p, q)[k] == s[k]
  {
  }

  /** Some draw from i on gives a position other than pos1. */
  predicate HasOtherDraw(pos1: int, draws: seq<nat>, i: nat) {
    exists k :: i <= k < |draws| && draws[k] % Genes != pos1
  }

  /** The second position: the first draw from i on that differs from pos1. */
  function Redraw(pos1: int, draws: seq<nat>, i: nat): (pos2: int)
    requires HasOtherDraw(pos1, draws, i)
    ensures 0 <= pos2 < Genes && pos2 != pos1
    ensures exists k :: i <= k < |draws| && pos2 == draws[k] % Genes
    decreases |draws| - i
  {
    if draws[i] % Genes != pos1 then draws[i] % Genes
    else
      assert HasOtherDraw(pos1, draws, i + 1) by {
        var k :| i <= k < |draws| && draws[k] % Genes != pos1;
        assert i + 1 <= k;
      }
      Redraw(pos1, draws, i + 1)
  }

  /** The mutator: on a successful coin flip, swaps the genes at two distinct
      positions drawn at random and reports one mutation. `flip` is the coin,
      `draw1` the first `rand()` call, `draws2` the calls for the second
      position, repeated while it equals the first. */
  method Mutator(genome: array<int>, flip: bool, draw1: nat, draws2: seq<nat>) returns (nMutations: int)
    requires genome.Length == Genes
    requires flip ==> HasOtherDraw(draw1 % Genes, draws2, 0)
    modifies genome
    ensures flip ==> (nMutations == 1 &&
      genome[..] == Swap(old(genome[..]), draw1 % Genes, Redraw(draw1 % Genes, draws2, 0)))
    ensures !flip ==> nMutations == 0 && genome[..] == old(genome[..])
  {
    nMutations := 0;
    if flip {
      var pos1 := draw1 % Genes;
      var k := 0;
      var pos2 := draws2[0] % Genes;
      while pos2 == pos1
        invariant 0 <= k < |draws2| && pos2 == draws2[k] % Genes
        invariant HasOtherDraw(pos1, draws2, k)
        invariant Redraw(pos1, draws2, k) == Redraw(pos1, draws2, 0)
        decreases |draws2| - k
      {
        ghost var w :| k <= w < |draws2| && draws2[w] % Genes != pos1;
        assert HasOtherDraw(pos1, draws2, k + 1) by { assert k + 1 <= w; }
        k := k + 1;
        pos2 := draws2[k] % Genes;
      }
      var tmp := genome[pos1];
      genome[pos1] := genome[pos2];
      genome[pos2] := tmp;
      nMutations := nMutations + 1;
    }
  }

  // ------------------------------------------------------------- crossover

  /** Genes before the cut from a, the rest from b. */
  function Splice(a: seq<int>, b: seq<int>, cut: int): (t: seq<int>)
    requires |a| == Genes && |b| == Genes
    ensures |t| == Genes
  {
    seq(Genes, i requires 0 <= i < Genes => if i < cut then a[i] else b[i])
  }

  /** The cut of a two-child crossover: the end of row 3 or of row 6. */
  function TwoChildCut(draw: nat): (cut: int)
    ensures cut == 27 || cut == 54
    ensures cut % 9 == 0
  {
    ((draw % 2) + 1) * 3 * N
  }

  /** The cut of a one-child crossover: any gene index. */
  function OneChildCut(draw: nat): (cut: int)
    ensures 0 <= cut < Genes
  {
    draw % (N * N)
  }

  /** A cut at a row boundary gives a child whose every row is a whole row of
      one parent: the first cut/9 rows of a, the others of b. */
  lemma SpliceRows(a: seq<int>, b: seq<int>, cut: int)
    requires |a| == Genes && |b| == Genes && cut % 9 == 0
    ensures forall r :: 0 <= r < N ==>
      BoardOf(Splice(a, b, cut))[r] == if r < cut / 9 then BoardOf(a)[r] else BoardOf(b)[r]
  {
    forall r, j | 0 <= r < N && 0 <= j < N
      ensures BoardOf(Splice(a, b, cut))[r][j] == if r < cut / 9 then BoardOf(a)[r][j] else BoardOf(b)[r][j]
    {
      assert r * 9 + j < cut <==> r < cut / 9;
    }
  }

  /** Two sequences that at each position hold the two values of a and b, in
      either order, hold together exactly the genes of a and b. */
  lemma {:induction false} PairwiseExchange(a: seq<int>, b: seq<int>, x: seq<int>, y: seq<int>)
    requires |a| == |b| == |x| == |y|
    requires forall i :: 0 <= i < |a| ==> (x[i] == a[i] && y[i] == b[i]) || (x[i] == b[i] && y[i] == a[i])
    ensures multiset(x) + multiset(y) == multiset(a) + multiset(b)
  {
    if a != [] {
      var n := |a| - 1;
      PairwiseExchange(a[..n], b[..n], x[..n], y[..n]);
      MultisetSnoc(a);
      MultisetSnoc(b);
      MultisetSnoc(x);
      MultisetSnoc(y);
      assert multiset{x[n]} + multiset{y[n]} == multiset{a[n]} + multiset{b[n]};
      calc {
        multiset(x) + multiset(y);
        (multiset(x[..n]) + multiset(y[..n])) + (multiset{x[n]} + multiset{y[n]});
        (multiset(a[..n]) + multiset(b[..n])) + (multiset{a[n]} + multiset{b[n]});
        multiset(a) + multiset(b);
      }
    }
  }

  /** The genes of a non-empty sequence are those of all but its last, plus the last. */
  lemma MultisetSnoc(s: seq<int>)
    requires s != []
    ensures multiset(s) == multiset(s[..|s| - 1]) + multiset{s[|s| - 1]}
  {
    assert s == s[..|s| - 1] + [s[|s| - 1]];
  }

  /** The two children of a crossover together hold exactly the genes of the
      two parents. */
  lemma SpliceKeepsGenes(a: seq<int>, b: seq<int>, cut: int)
    requires |a| == Genes && |b| == Genes
    ensures multiset(Splice(a, b, cut)) + multiset(Splice(b, a, cut)) == multiset(a) + multiset(b)
  {
    PairwiseExchange(a, b, Splice(a, b, cut), Splice(b, a, cut));
  }

  /** A two-child crossover of parents whose rows are permutations of 1..9
      gives children whose rows are too. */
  lemma CrossoverKeepsRowPermutations(a: seq<int>, b: seq<int>, draw: nat)
    requires |a| == Genes && |b| == Genes
    requires forall r :: 0 <= r < N ==> IsDigitPermutation(BoardOf(a)[r])
    requires forall r :: 0 <= r < N ==> IsDigitPermutation(BoardOf(b)[r])
    ensures forall r :: 0 <= r < N ==> IsDigitPermutation(BoardOf(Splice(a, b, TwoChildCut(draw)))[r])
    ensures forall r :: 0 <= r < N ==> IsDigitPermutation(BoardOf(Splice(b, a, TwoChildCut(draw)))[r])
  {
    SpliceRows(a, b, TwoChildCut(draw));
    SpliceRows(b, a, TwoChildCut(draw));
  }

  /** The crossover: with two children, both are spliced from the parents at a
      row boundary (the second mirrored); with only the first child, it is
      spliced at any gene index; with no first child nothing is produced.
      `draw` is the `rand()` call that picks the cut. */
  method Crossover(p1: array<int>, p2: array<int>, c1: array?<int>, c2: array?<int>, draw: nat)
    returns (n: int)
    requires p1.Length == Genes && p2.Length == Genes
    requires c1 != null ==> c1.Length == Genes && c1 != p1 && c1 != p2
    requires c2 != null ==> c2.Length == Genes && c2 != p1 && c2 != p2 && c2 != c1
    modifies c1, c2
    ensures c1 != null && c2 != null ==>
      n == 2 && c1[..] == Splice(p1[..], p2[..], TwoChildCut(draw))
             && c2[..] == Splice(p2[..], p1[..], TwoChildCut(draw))
    ensures c1 != null && c2 == null ==> n == 1 && c1[..] == Splice(p1[..], p2[..], OneChildCut(draw))
    ensures c1 == null ==> n == 0 && (c2 != null ==> c2[..] == old(c2[..]))
  {
    if c1 != null && c2 != null {
      var cut := ((draw % 2) + 1) * 3 * N;
      for i := 0 to N * N
        invariant forall k :: 0 <= k < i ==> c1[k] == Splice(p1[..], p2[..], cut)[k]
        invariant forall k :: 0 <= k < i ==> c2[k] == Splice(p2[..], p1[..], cut)[k]
      {
        if i < cut {
          c1[i] := p1[i];
          c2[i] := p2[i];
        } else {
          c1[i] := p2[i];
          c2[i] := p1[i];
        }
      }
      return 2;
    } else if c1 != null {
      var cut := draw % (N * N);
      for i := 0 to N * N
        invariant forall k :: 0 <= k < i ==> c1[k] == Splice(p1[..], p2[..], cut)[k]
      {
        if i < cut {
          c1[i] := p1[i];
        } else {
          c1[i] := p2[i];
        }
      }
      return 1;
    } else {
      return 0;
    }
  }
}
