/** `solveSudoku` of `sudoku/sudoku.cc`, and why its answer is right for every puzzle. */
module SolvePuzzle {
  import opened Torus
  import opened DancingLinks
  import opened ExactCover
  import opened Search
  import opened SolverSteps
  import opened Sudoku
  import opened Encoding
  import opened SudokuSolver

  const NO_SOLUTION := "NoSolution"

  function Digits(s: string): (b: seq<int>)
    ensures |b| == |s|
  {
    seq(|s|, i requires 0 <= i < |s| => s[i] as int - '0' as int)
  }

  lemma EncodedLabelled(b: seq<int>, m: Matrix, t: seq<Node>, s: Shape, labels: seq<Move>)
    requires |b| == CELLS && RowsNamed(m, t, s, labels) && Exact(b, labels)
    ensures Labelled(m, t, labels, CELLS)
  {
    forall r | 0 <= r < |m.rows|
      ensures RowLabelled(m, t, r, labels[r]) && labels[r].cell < CELLS
    {
      var w, l := m.rows[r], labels[r];
      assert RowNamed(m, t, s, l, r) && Candidate(b, l);
      forall k | 0 <= k < 4
        ensures Names(NamesOf(l)[k], l) && (k == 0 ==> NamesOf(l)[k] < 100) && (k > 0 ==> NamesOf(l)[k] >= 100)
      {
        NameParts(ROWS, Unit(ROWS, l.cell), l.val);
        NameParts(COLS, Unit(COLS, l.cell), l.val);
        NameParts(BOXES, Unit(BOXES, l.cell), l.val);
      }
      assert t[w[0]].name < 100 && t[w[1]].name >= 100;
    }
  }

  ghost predicate DistinctMoves(m: Matrix, labels: seq<Move>, ns: seq<nat>)
    requires AllCells(m, ns) && |labels| == |m.rows|
  {
    forall i, j :: 0 <= i < j < |ns| ==> labels[m.rowOf[ns[i]]].cell != labels[m.rowOf[ns[j]]].cell
  }

  /** Moves into different cells do not overwrite each other. */
  lemma {:induction false} FilledAt(m: Matrix, labels: seq<Move>, b: seq<int>, ns: seq<nat>)
    requires AllCells(m, ns) && |labels| == |m.rows| && (forall i :: 0 <= i < |labels| ==> labels[i].cell < |b|)
    requires DistinctMoves(m, labels, ns)
    ensures var g := Filled(m, labels, b, ns);
      && (forall k :: 0 <= k < |ns| ==> var l := labels[m.rowOf[ns[k]]]; g[l.cell] == l.val)
      && (forall i :: 0 <= i < |b| && (forall k :: 0 <= k < |ns| ==> labels[m.rowOf[ns[k]]].cell != i) ==> g[i] == b[i])
  {
    if ns != [] {
      var ks, n := ns[..|ns| - 1], |ns| - 1;
      FilledAt(m, labels, b, ks);
      var h, g := Filled(m, labels, b, ks), Filled(m, labels, b, ns);
      forall i | 0 <= i < |b| && (forall k :: 0 <= k < |ns| ==> labels[m.rowOf[ns[k]]].cell != i)
        ensures g[i] == b[i]
      {
        assert labels[m.rowOf[ns[n]]].cell != i;
        assert forall k :: 0 <= k < |ks| ==> ks[k] == ns[k];
        assert h[i] == b[i];
      }
      forall k | 0 <= k < |ks|
        ensures var l := labels[m.rowOf[ns[k]]]; g[l.cell] == l.val
      {
        assert ks[k] == ns[k];
        assert labels[m.rowOf[ns[k]]].cell != labels[m.rowOf[ns[n]]].cell;
      }
    }
  }

  /** The board that a solution of the encoding leaves is a legal completion of the puzzle. */
  lemma SolutionCompletes(b: seq<int>, m: Matrix, st: State, columns: seq<int>, labels: seq<Move>, ns: seq<nat>)
    requires Encodes(b, m, st, columns, labels) && MatrixOk(m, st.t) && Solves(m, st, ns)
    requires |labels| == |m.rows| && forall i :: 0 <= i < |labels| ==> labels[i].cell < |b|
    ensures Completes(Filled(m, labels, b, ns), b)
  {
    hide WellFormed, MatrixOk, IsCover, HeadsNamed, RowsNamed, Completes, Wanted;
    var R := RowsOf(m, ns);
    CoversAreByName(b, m, st, columns, labels, R);
    MovesDiffer(b, m, labels, ns);
    FilledAt(m, labels, b, ns);
    var g := Filled(m, labels, b, ns);
    assert Plays(g, b, labels, R) by {
      forall i | 0 <= i < CELLS && b[i] != 0
        ensures g[i] == b[i]
      {
        assert forall k :: 0 <= k < |ns| ==> Candidate(b, labels[m.rowOf[ns[k]]]);
      }
      forall r | r in R
        ensures r < |labels| && g[labels[r].cell] == labels[r].val
      {
        var k :| 0 <= k < |ns| && m.rowOf[ns[k]] == r;
      }
    }
    CoverCompletes(g, b, labels, R);
  }

  lemma MovesDiffer(b: seq<int>, m: Matrix, labels: seq<Move>, ns: seq<nat>)
    requires Puzzle(b) && Exact(b, labels) && AllCells(m, ns) && DistinctRows(m, ns) && |labels| == |m.rows|
    requires CoversNames(b, labels, RowsOf(m, ns))
    ensures DistinctMoves(m, labels, ns)
  {
    hide Used;
    var R := RowsOf(m, ns);
    forall i, j | 0 <= i < j < |ns|
      ensures labels[m.rowOf[ns[i]]].cell != labels[m.rowOf[ns[j]]].cell
    {
      var r, r' := m.rowOf[ns[i]], m.rowOf[ns[j]];
      assert r in R && r' in R && r != r';
      var n := labels[r].cell;
      CellInNames(labels[r], n);
      CellInNames(labels[r'], n);
      assert Wanted(b, n);
      assert NamedOnce(labels, R, n);
    }
  }

  /** Without an exact cover the puzzle has no completion. */
  lemma UnsolvablePuzzle(b: seq<int>, m: Matrix, st: State, columns: seq<int>, labels: seq<Move>, g: seq<int>)
    requires Encodes(b, m, st, columns, labels) && MatrixOk(m, st.t) && Unsolvable(Stands(m, st))
    ensures !Completes(g, b)
  {
    hide WellFormed, MatrixOk, IsCover, HeadsNamed, RowsNamed, Legal, Wanted, CoversNames;
    if Completes(g, b) {
      CompletionCovers(g, b, labels);
      CoversAreByName(b, m, st, columns, labels, RowsPlayed(g, labels));
    }
  }

  /**
    The completed grid as 81 digits if the puzzle consists of digits and has a legal completion,
    and `NoSolution` otherwise.
  */
  method SolveSudoku(puzzle: string) returns (result: string)
    requires |puzzle| == CELLS
    ensures Puzzle(Digits(puzzle)) && (exists g :: Completes(g, Digits(puzzle))) ==>
      |result| == CELLS && Completes(Digits(result), Digits(puzzle))
    ensures !(Puzzle(Digits(puzzle)) && exists g :: Completes(g, Digits(puzzle))) ==> result == NO_SOLUTION
  {
    result := NO_SOLUTION;
    var board := new int[CELLS](_ => 0);
    var valid := true;
    ghost var b := Digits(puzzle);
    for i := 0 to CELLS
      invariant forall k :: 0 <= k < i ==> board[k] == b[k]
      invariant valid <==> forall k :: 0 <= k < i ==> 0 <= b[k] <= 9
    {
      board[i] := puzzle[i] as int - '0' as int;
      valid := valid && 0 <= board[i] <= 9;
    }
    if valid {
      assert board[..] == b;
      var solved := SolveBoard(board);
      if solved {
        result := Render(board);
      }
    }
  }

  method SolveBoard(board: array<int>) returns (solved: bool)
    requires board.Length == CELLS && Puzzle(board[..])
    modifies board
    ensures solved ==> Completes(board[..], old(board[..]))
    ensures !solved ==> forall g :: !Completes(g, old(board[..]))
  {
    ghost var b := board[..];
    hide WellFormed, Completes, Unsolvable;
    var s := new SudokuSolver(board);
    ghost var st := State(s.T(), s.shape);
    GoodMatrix(s.m, st);
    EncodedLabelled(b, s.m, st.t, st.s, s.labels);
    solved := s.Solve(st);
    if solved {
      assert s.stack[0..] == s.stack;
      SolutionCompletes(b, s.m, st, s.columns[..], s.labels, s.stack);
    } else {
      forall g
        ensures !Completes(g, b)
      {
        UnsolvablePuzzle(b, s.m, st, s.columns[..], s.labels, g);
      }
    }
  }

  method Render(board: array<int>) returns (result: string)
    requires board.Length == CELLS && forall i :: 0 <= i < CELLS ==> 1 <= board[i] <= 9
    ensures Digits(result) == board[..]
  {
    result := "";
    for i := 0 to CELLS
      invariant |result| == i && forall k :: 0 <= k < i ==> result[k] as int - '0' as int == board[k]
    {
      result := result + [(board[i] + '0' as int) as char];
    }
  }
}
