/** The clue remover run on the best genome the genetic algorithm found: it
    blanks genes one at a time and keeps a blank as long as the backtracking
    solver still solves the grid, until more than 55 cells are empty.

    `Reduce` is the search as a ghost function on genome values; the method
    `BacktrackRemoveNumbers` is proved equal to it. Because a blank is kept
    whenever the solver succeeds, from a solvable grid the remover simply
    blanks the first non-zero genes in index order (`ReduceSolvable`), and
    from a full solved grid the puzzle it leaves has two solutions
    (`ReducedFullGridNotUnique`): acceptance is solvability, not uniqueness. */
module ClueRemover {
  import opened Board
  import opened SudokuSolver
  import opened Genome

  /** The remover stops once more than this many cells are empty. */
  const MaxZeros: int := 55

  /** t is s with some genes set to 0 and the others unchanged. */
  predicate Erases(s: seq<int>, t: seq<int>) {
    |t| == |s| && forall k :: 0 <= k < |s| ==> t[k] == s[k] || t[k] == 0
  }

  lemma ErasesTrans(s: seq<int>, t: seq<int>, u: seq<int>)
    requires Erases(s, t) && Erases(t, u)
    ensures Erases(s, u)
  {
  }

  // ------------------------------------------------------------ the search

  /** The result of backtrackRemoveNumbers on genome s: Some(the genome it
      leaves) when it returns true, None when it returns false. What the
      result satisfies is stated by `ReduceBlanks` and `ReduceAccepted`. */
  ghost function Reduce(s: seq<int>): (r: Option<seq<int>>)
    requires |s| == Genes
    ensures r.Some? ==> |r.value| == Genes
    decreases Genes - Zeros(s), 1
  {
    if Zeros(s) > MaxZeros then Some(s) else ReduceFrom(s, 0)
  }

  /** The loop of backtrackRemoveNumbers from gene i on: the first non-zero
      gene whose blanking the solver accepts and from which the recursive
      search succeeds decides the result. */
  ghost function ReduceFrom(s: seq<int>, i: int): (r: Option<seq<int>>)
    requires |s| == Genes && 0 <= i <= Genes
    ensures r.Some? ==> |r.value| == Genes
    decreases Genes - Zeros(s), 0, Genes - i
  {
    if i == Genes then None
    else if s[i] != 0 && Solve(BoardOf(s[i := 0])).Some? &&
            (ZerosUpdate(s, i, 0); Reduce(s[i := 0]).Some?)
    then Reduce(s[i := 0])
    else ReduceFrom(s, i + 1)
  }

  /** A successful removal only blanks genes and leaves more than 55 of them zero. */
  lemma {:induction false} ReduceBlanks(s: seq<int>)
    requires |s| == Genes
    ensures Reduce(s).Some? ==> Erases(s, Reduce(s).value) && Zeros(Reduce(s).value) > MaxZeros
    decreases Genes - Zeros(s), 1
  {
    if Zeros(s) <= MaxZeros {
      ReduceFromBlanks(s, 0);
    }
  }

  lemma {:induction false} ReduceFromBlanks(s: seq<int>, i: int)
    requires |s| == Genes && 0 <= i <= Genes
    ensures ReduceFrom(s, i).Some? ==>
      Erases(s, ReduceFrom(s, i).value) && Zeros(ReduceFrom(s, i).value) > MaxZeros
    decreases Genes - Zeros(s), 0, Genes - i
  {
    if i < Genes {
      if ReduceFrom(s, i) == ReduceFrom(s, i + 1) {
        ReduceFromBlanks(s, i + 1);
      } else {
        BlankStepBlanks(s, i);
      }
    }
  }

  /** The step of `ReduceFromBlanks` where gene i is blanked and the search
      goes on from there. */
  lemma {:induction false} BlankStepBlanks(s: seq<int>, i: int)
    requires |s| == Genes && 0 <= i < Genes
    requires ReduceFrom(s, i) != ReduceFrom(s, i + 1)
    ensures ReduceFrom(s, i).Some? ==>
      Erases(s, ReduceFrom(s, i).value) && Zeros(ReduceFrom(s, i).value) > MaxZeros
    decreases Genes - Zeros(s), 0, 0
  {
    var s' := s[i := 0];
    assert ReduceFrom(s, i) == Reduce(s');
    ZerosUpdate(s, i, 0);
    ReduceBlanks(s');
    if Reduce(s').Some? {
      assert Erases(s, s');
      ErasesTrans(s, s', Reduce(s').value);
    }
  }

  /** A successful removal hands back the genome it was given (already more
      than 55 zeros) or one that the solver solves. */
  lemma {:induction false} ReduceAccepted(s: seq<int>)
    requires |s| == Genes
    ensures Reduce(s).Some? ==> Reduce(s).value == s || Solve(BoardOf(Reduce(s).value)).Some?
    decreases Genes - Zeros(s), 1
  {
    if Zeros(s) <= MaxZeros {
      ReduceFromAccepted(s, 0);
    }
  }

  lemma {:induction false} ReduceFromAccepted(s: seq<int>, i: int)
    requires |s| == Genes && 0 <= i <= Genes
    ensures ReduceFrom(s, i).Some? ==> Solve(BoardOf(ReduceFrom(s, i).value)).Some?
    decreases Genes - Zeros(s), 0, Genes - i
  {
    if i < Genes {
      if ReduceFrom(s, i) == ReduceFrom(s, i + 1) {
        ReduceFromAccepted(s, i + 1);
      } else {
        BlankStepAccepted(s, i);
      }
    }
  }

  /** The step of `ReduceFromAccepted` where gene i is blanked: the solver has
      accepted the blanked genome, so whichever genome the search then returns
      is one it solves. */
  lemma {:induction false} BlankStepAccepted(s: seq<int>, i: int)
    requires |s| == Genes && 0 <= i < Genes
    requires ReduceFrom(s, i) != ReduceFrom(s, i + 1)
    ensures ReduceFrom(s, i).Some? ==> Solve(BoardOf(ReduceFrom(s, i).value)).Some?
    decreases Genes - Zeros(s), 0, 0
  {
    var s' := s[i := 0];
    assert ReduceFrom(s, i) == Reduce(s') && Solve(BoardOf(s')).Some?;
    ZerosUpdate(s, i, 0);
    ReduceAccepted(s');
  }

  /** backtrackRemoveNumbers: loads the genome into the grid, succeeds at once
      when more than 55 cells are empty, and otherwise tries each non-zero
      gene in turn (`TryBlank`) until one leads to success. */
  method BacktrackRemoveNumbers(genome: array<int>, g: array2<int>) returns (r: bool)
    requires genome.Length == Genes && IsGrid(g)
    modifies genome, g
    ensures r == Reduce(old(genome[..])).Some?
    ensures r ==> genome[..] == Reduce(old(genome[..])).value
    ensures !r ==> genome[..] == old(genome[..])
    decreases Genes - Zeros(genome[..]), 1
  {
    ghost var s0 := genome[..];
    GenomeToGrid(genome, g);
    var zeros := CountZeros(g);
    GenomeZeros(s0);
    if zeros > MaxZeros {
      return true;
    }
    for i := 0 to N * N
      invariant genome[..] == s0
      invariant ReduceFrom(s0, i) == Reduce(s0)
    {
      if genome[i] != 0 {
        var done := TryBlank(genome, g, i);
        if done {
          return true;
        }
      }
    }
    return false;
  }

  /** One pass of the loop of backtrackRemoveNumbers on a non-zero gene i:
      blank it, and keep it blank if the solver solves the grid and the
      recursive search then succeeds; otherwise put the original value back. */
  method TryBlank(genome: array<int>, g: array2<int>, i: int) returns (done: bool)
    requires genome.Length == Genes && IsGrid(g) && 0 <= i < Genes && genome[i] != 0
    modifies genome, g
    ensures done == (Solve(BoardOf(old(genome[..])[i := 0])).Some? && Reduce(old(genome[..])[i := 0]).Some?)
    ensures done ==> genome[..] == Reduce(old(genome[..])[i := 0]).value
    ensures !done ==> genome[..] == old(genome[..])
    decreases Genes - Zeros(genome[..]), 0
  {
    ghost var s0 := genome[..];
    var originalValue := genome[i];
    genome[i] := 0;
    assert genome[..] == s0[i := 0];
    ZerosUpdate(s0, i, 0);
    GenomeToGrid(genome, g);
    var solved := SolveSudoku(g);
    if solved {
      var ok := BacktrackRemoveNumbers(genome, g);
      if ok {
        return true;
      }
    }
    genome[i] := originalValue;
    assert genome[..] == s0;
    return false;
  }

  /** removeNumbers: runs the search on a copy of the best genome and puts the
      copy back only when the search succeeded. */
  method RemoveNumbers(bestGenome: array<int>, g: array2<int>)
    requires bestGenome.Length == Genes && IsGrid(g)
    modifies bestGenome, g
    ensures Reduce(old(bestGenome[..])).Some? ==> bestGenome[..] == Reduce(old(bestGenome[..])).value
    ensures Reduce(old(bestGenome[..])).None? ==> bestGenome[..] == old(bestGenome[..])
  {
    var bestGenomeCopy := new int[Genes];
    forall k | 0 <= k < Genes {
      bestGenomeCopy[k] := bestGenome[k];
    }
    ghost var s0 := bestGenome[..];
    assert bestGenomeCopy[..] == s0;
    GenomeToGrid(bestGenomeCopy, g);
    var ok := BacktrackRemoveNumbers(bestGenomeCopy, g);
    assert ok ==> bestGenomeCopy[..] == Reduce(s0).value;
    if ok {
      forall k | 0 <= k < Genes {
        bestGenome[k] := bestGenomeCopy[k];
      }
      assert bestGenome[..] == bestGenomeCopy[..];
      assert bestGenome[..] == Reduce(s0).value;
      assert s0 == old(bestGenome[..]);
    }
  }

  // ------------------------------------------- reference: blank in order

  /** The first non-zero entry of s at or after i. */
  function FirstNonZero(s: seq<int>, i: int): (k: int)
    requires 0 <= i <= |s| && exists k :: i <= k < |s| && s[k] != 0
    ensures i <= k < |s| && s[k] != 0
    ensures forall j :: i <= j < k ==> s[j] == 0
    decreases |s| - i
  {
    if s[i] != 0 then i
    else
      assert exists k :: i + 1 <= k < |s| && s[k] != 0 by {
        var k :| i <= k < |s| && s[k] != 0;
        assert k != i;
      }
      FirstNonZero(s, i + 1)
  }

  /** s with its first non-zero genes blanked, in index order, until more
      than 55 genes are zero. */
  function BlankInOrder(s: seq<int>): (t: seq<int>)
    requires |s| == Genes
    ensures |t| == Genes
    decreases Genes - Zeros(s)
  {
    ZerosAll(s);
    if Zeros(s) > MaxZeros then s
    else
      var i := FirstNonZero(s, 0);
      ZerosUpdate(s, i, 0);
      BlankInOrder(s[i := 0])
  }

  /** t is s with the genes below m blanked and the others kept. */
  predicate BlanksPrefix(s: seq<int>, t: seq<int>, m: int) {
    && 0 <= m <= |s| && |t| == |s|
    && (forall k :: 0 <= k < m ==> t[k] == 0)
    && (forall k :: m <= k < |s| ==> t[k] == s[k])
  }

  /** Blanking in order leaves exactly 56 empty cells when it has anything to
      do, and what it blanks is a prefix: below some index every gene is 0,
      from there on every gene is the original one. */
  lemma {:induction false} BlankInOrderShape(s: seq<int>)
    requires |s| == Genes
    ensures Zeros(s) <= MaxZeros ==> Zeros(BlankInOrder(s)) == MaxZeros + 1
    ensures exists m :: BlanksPrefix(s, BlankInOrder(s), m)
    decreases Genes - Zeros(s)
  {
    ZerosAll(s);
    if Zeros(s) > MaxZeros {
      assert BlanksPrefix(s, BlankInOrder(s), 0);
    } else {
      var i := FirstNonZero(s, 0);
      var s' := s[i := 0];
      ZerosUpdate(s, i, 0);
      BlankInOrderShape(s');
      var t := BlankInOrder(s');
      assert t == BlankInOrder(s);
      if Zeros(s') > MaxZeros {
        assert t == s';
      }
      var m' :| BlanksPrefix(s', t, m');
      var m := if m' < i + 1 then i + 1 else m';
      forall k | 0 <= k < m ensures t[k] == 0 {
        if m' <= k {
          assert k <= i && s'[k] == 0;
        }
      }
      assert BlanksPrefix(s, t, m);
    }
  }

  /** Blanking a non-zero gene of a solvable grid whose genes are digits keeps
      the same solution. */
  lemma BlankKeepsCompletion(s: seq<int>, i: int, h: Board)
    requires |s| == Genes && 0 <= i < Genes && 1 <= s[i] <= 9
    requires IsCompletion(BoardOf(s), h)
    ensures IsCompletion(BoardOf(s[i := 0]), h)
  {
    var b, b' := BoardOf(s), BoardOf(s[i := 0]);
    forall r, c | 0 <= r < N && 0 <= c < N
      ensures if b'[r][c] != 0 then h[r][c] == b'[r][c] else 1 <= h[r][c] <= 9
    {
      if r * 9 + c == i {
        assert b[r][c] == s[i];
      }
    }
  }

  /** The loop skips zero genes. */
  lemma {:induction false} ReduceFromSkipsZeros(s: seq<int>, i: int, j: int)
    requires |s| == Genes && 0 <= i <= j <= Genes
    requires forall k :: i <= k < j ==> s[k] == 0
    ensures ReduceFrom(s, i) == ReduceFrom(s, j)
    decreases j - i
  {
    if i < j {
      ReduceFromSkipsZeros(s, i + 1, j);
    }
  }

  /** From a solvable grid of digits the remover always succeeds, and since
      every blank leaves the grid solvable it blanks the first non-zero genes
      in index order. */
  lemma {:induction false} ReduceSolvable(s: seq<int>)
    requires |s| == Genes && forall k :: 0 <= k < Genes ==> 0 <= s[k] <= 9
    requires HasCompletion(BoardOf(s))
    ensures Reduce(s) == Some(BlankInOrder(s))
    decreases Genes - Zeros(s)
  {
    ZerosAll(s);
    if Zeros(s) <= MaxZeros {
      var i := FirstNonZero(s, 0);
      var s' := s[i := 0];
      var h :| IsCompletion(BoardOf(s), h);
      BlankKeepsCompletion(s, i, h);
      SolveComplete(BoardOf(s'));
      ZerosUpdate(s, i, 0);
      ReduceSolvable(s');
      ReduceFromSkipsZeros(s, 0, i);
    }
  }

  // ------------------------------------------- the puzzle is not unique

  /** A sequence with no zero entry counts no zeros. */
  lemma {:induction false} NoZeros(s: seq<int>)
    requires forall k :: 0 <= k < |s| ==> s[k] != 0
    ensures Zeros(s) == 0
  {
    if s != [] {
      NoZeros(s[..|s| - 1]);
    }
  }

  /** A re-indexing of a sequence without repeated non-zero values has none either. */
  lemma DistinctReindexed(s: seq<int>, t: seq<int>, f: int -> int)
    requires |s| == |t| && Distinct(s)
    requires forall k :: 0 <= k < |t| ==> 0 <= f(k) < |s| && t[k] == s[f(k)]
    requires forall k1, k2 :: 0 <= k1 < k2 < |t| ==> f(k1) != f(k2)
    ensures Distinct(t)
  {
    forall k1, k2 | 0 <= k1 < k2 < |t| && t[k1] != 0 ensures t[k1] != t[k2] {
      if t[k1] == t[k2] {
        DistinctTwice(s, f(k1), f(k2));
      }
    }
  }

  /** h with its first two rows exchanged. */
  function SwapTopRows(h: Board): (h': Board)
    requires IsBoard(h)
    ensures IsBoard(h')
  {
    h[0 := h[1]][1 := h[0]]
  }

  /** Exchanging the first two rows of a solution gives a different solution
      of any puzzle whose first two rows are empty. */
  lemma SwapTopRowsCompletes(b: Board, h: Board)
    requires IsBoard(b) && IsCompletion(b, h)
    requires forall j :: 0 <= j < N ==> b[0][j] == 0 && b[1][j] == 0
    ensures IsCompletion(b, SwapTopRows(h))
    ensures SwapTopRows(h) != h
  {
    var h' := SwapTopRows(h);
    forall c | 0 <= c < N ensures Distinct(Col(h', c)) {
      DistinctReindexed(Col(h, c), Col(h', c), k => if k == 0 then 1 else if k == 1 then 0 else k);
    }
    forall br, bc | IsBoxCorner(br, bc) ensures Distinct(Box(h', br, bc)) {
      if br == 0 {
        DistinctReindexed(Box(h, br, bc), Box(h', br, bc),
          t => if t < 3 then t + 3 else if t < 6 then t - 3 else t);
      } else {
        assert Box(h', br, bc) == Box(h, br, bc);
      }
    }
    assert Col(h, 0)[0] == h[0][0] && Col(h, 0)[1] == h[1][0];
    assert h[0][0] != h[1][0];
    assert h'[0][0] != h[0][0];
  }

  /** From a genome without zeros, blanking in order empties exactly the
      first 56 genes: rows 0 to 5 and the first two cells of row 6. */
  lemma FullGenomeBlanksFirst56(s: seq<int>)
    requires |s| == Genes && forall k :: 0 <= k < Genes ==> s[k] != 0
    ensures BlanksPrefix(s, BlankInOrder(s), MaxZeros + 1)
  {
    NoZeros(s);
    var t := BlankInOrder(s);
    BlankInOrderShape(s);
    var m :| BlanksPrefix(s, t, m);
    ZerosAppend(t[..m], t[m..]);
    assert t == t[..m] + t[m..];
    ZerosAll(t[..m]);
    NoZeros(t[m..]);
  }

  /** From a full solved grid the remover leaves a puzzle with at least two
      solutions: it blanks the first 56 cells, so rows 0 and 1 are empty and
      can be exchanged in any solution. */
  lemma ReducedFullGridNotUnique(s: seq<int>)
    requires |s| == Genes && IsSolved(BoardOf(s))
    ensures Reduce(s) == Some(BlankInOrder(s))
    ensures exists h1, h2 ::
      (h1 != h2 && IsCompletion(BoardOf(BlankInOrder(s)), h1) && IsCompletion(BoardOf(BlankInOrder(s)), h2))
  {
    var b := BoardOf(s);
    forall k | 0 <= k < Genes ensures 1 <= s[k] <= 9 {
      assert b[k / 9][k % 9] == s[k];
    }
    assert IsCompletion(b, b);
    ReduceSolvable(s);
    var t := BlankInOrder(s);
    FullGenomeBlanksFirst56(s);
    var bt := BoardOf(t);
    forall i, j | 0 <= i < N && 0 <= j < N ensures bt[i][j] == 0 || bt[i][j] == b[i][j] {
    }
    forall j | 0 <= j < N ensures bt[0][j] == 0 && bt[1][j] == 0 {
      assert t[j] == 0 && t[9 + j] == 0;
    }
    assert IsCompletion(bt, b);
    SwapTopRowsCompletes(bt, b);
  }
}
