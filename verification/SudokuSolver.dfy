/** `SudokuSolver` of `sudoku/sudoku.cc`: the node array, `cover`, `uncover`, `get_min_column` and `solve`. */
module SudokuSolver {
  import opened Torus
  import opened DancingLinks
  import opened ExactCover
  import opened Search
  import opened SolverSteps
  import opened Sudoku
  import opened Building
  import opened Encoding

  const MAX_NODES := 1 + 81 * 4 + 9 * 9 * 9 * 4

  // ----- what a row of the matrix means on the board

  ghost predicate Names(name: nat, l: Move) {
    if name < 100 then name == l.cell else name % 10 == l.val
  }

  ghost predicate RowLabelled(m: Matrix, t: seq<Node>, r: nat, l: Move)
    requires r < |m.rows|
  {
    && (forall k :: 0 <= k < |m.rows[r]| ==> m.rows[r][k] < |t| && Names(t[m.rows[r][k]].name, l))
    && (exists k :: 0 <= k < |m.rows[r]| && t[m.rows[r][k]].name < 100)
    && (exists k :: 0 <= k < |m.rows[r]| && t[m.rows[r][k]].name >= 100)
  }

  /** Every row names one cell, below `cells`, and one value. */
  ghost predicate Labelled(m: Matrix, t: seq<Node>, labels: seq<Move>, cells: nat) {
    |labels| == |m.rows| && forall r :: 0 <= r < |m.rows| ==> RowLabelled(m, t, r, labels[r]) && labels[r].cell < cells
  }

  lemma SameLabelled(m: Matrix, t: seq<Node>, t': seq<Node>, labels: seq<Move>, cells: nat)
    requires Labelled(m, t, labels, cells) && SameLabels(t, t')
    ensures Labelled(m, t', labels, cells)
  {
    forall r | 0 <= r < |m.rows|
      ensures RowLabelled(m, t', r, labels[r])
    {
      assert RowLabelled(m, t, r, labels[r]);
    }
  }

  ghost function RowsOf(m: Matrix, ns: seq<nat>): (r: set<nat>)
    requires AllCells(m, ns)
  {
    set i | 0 <= i < |ns| :: m.rowOf[ns[i]]
  }

  /** The board once the moves of the nodes `ns` are made. */
  ghost function Filled(m: Matrix, labels: seq<Move>, b: seq<int>, ns: seq<nat>): (r: seq<int>)
    requires AllCells(m, ns) && |labels| == |m.rows| && forall i :: 0 <= i < |labels| ==> labels[i].cell < |b|
    ensures |r| == |b|
  {
    if ns == [] then b else
      var l := labels[m.rowOf[ns[|ns| - 1]]];
      Filled(m, labels, b, ns[..|ns| - 1])[l.cell := l.val]
  }

  lemma RowTour(m: Matrix, n: nat, q: nat)
    requires IsCell(m, n) && q < |m.rows[m.rowOf[n]]|
    ensures var ns := [n] + Rest(m, n); var w := m.rows[m.rowOf[n]]; var k := m.posOf[n];
      |ns| == |w| && ns[q] == w[if k + q < |w| then k + q else k + q - |w|]
  {
  }

  /** A tour of the row passes the cell name and a value name, and no other. */
  lemma RowNames(m: Matrix, t: seq<Node>, n: nat, l: Move)
    requires IsCell(m, n) && RowLabelled(m, t, m.rowOf[n], l)
    ensures var ns := [n] + Rest(m, n);
      && (forall q :: 0 <= q < |ns| ==> ns[q] < |t| && Names(t[ns[q]].name, l))
      && (exists q :: 0 <= q < |ns| && t[ns[q]].name < 100)
      && (exists q :: 0 <= q < |ns| && t[ns[q]].name >= 100)
  {
    hide Rest, Names;
    var w, k, ns := m.rows[m.rowOf[n]], m.posOf[n], [n] + Rest(m, n);
    RowTour(m, n, 0);
    forall q | 0 <= q < |ns|
      ensures ns[q] < |t| && Names(t[ns[q]].name, l)
    {
      RowTour(m, n, q);
    }
    var a :| 0 <= a < |w| && t[w[a]].name < 100;
    RowTour(m, n, if a >= k then a - k else a - k + |w|);
    var b :| 0 <= b < |w| && t[w[b]].name >= 100;
    RowTour(m, n, if b >= k then b - k else b - k + |w|);
  }

  ghost predicate IsMin(t: seq<Node>, heads: seq<nat>, k: nat)
  {
    && k < |heads| && (forall i :: 0 <= i < |heads| ==> heads[i] < |t|)
    && (forall i :: 0 <= i < k ==> t[heads[i]].size > 1 && t[heads[i]].size > t[heads[k]].size)
    && (t[heads[k]].size <= 1 || forall i :: k < i < |heads| ==> t[heads[i]].size >= t[heads[k]].size)
  }

  // ----- what the search finds

  ghost predicate DistinctRows(m: Matrix, ns: seq<nat>)
    requires AllCells(m, ns)
  {
    forall i, j :: 0 <= i < j < |ns| ==> m.rowOf[ns[i]] != m.rowOf[ns[j]]
  }

  /** The rows of the nodes `ns` cover every linked column exactly once. */
  ghost predicate Solves(m: Matrix, st: State, ns: seq<nat>)
    requires MatrixOk(m, st.t)
  {
    AllCells(m, ns) && DistinctRows(m, ns) && IsCover(Stands(m, st), RowsOf(m, ns))
  }

  ghost predicate Unsolvable(p: Problem) {
    forall R :: !IsCover(p, R)
  }

  lemma NothingLeft(m: Matrix, st: State)
    requires Good(m, st) && st.s.heads == []
    ensures Solves(m, st, [])
  {
    assert RowsOf(m, []) == {};
  }

  /** Nodes of the column being branched on are linked. */
  lemma ColumnActive(m: Matrix, st: State, c: nat, i: nat)
    requires Good(m, st) && c in st.s.heads && c < |st.s.lists| && i < |st.s.lists[c]|
    ensures var n := st.s.lists[c][i]; Active(st.t, st.s, n) && IsCell(m, n) && st.t[n].col == c
  {
    assert ColumnOk(st.t, c, st.s.lists[c]);
  }

  /** Taking the row of `n` leaves the problem without the columns of that row. */
  lemma TakenStands(m: Matrix, st: State, n: nat)
    requires Good(m, st) && Active(st.t, st.s, n) && IsCell(m, n)
    ensures var st' := Taken(m, st, n, |Rest(m, n)|); MatrixOk(m, st.t) && MatrixOk(m, st'.t)
    ensures var st' := Taken(m, st, n, |Rest(m, n)|); var p := Stands(m, st); var r := m.rowOf[n];
      && Sound(p) && r in p.rows && r < |p.cols| && p.cols[r] != {}
      && Stands(m, st') == Reduced(p, p.cols[r])
  {
    hide WellFormed, MatrixOk, Active, IsCell, Rest, Taken, Reduced, Stands, CoverAll, TakenColumns, Coverable;
    GoodMatrix(m, st);
    GoodMatrix(m, Taken(m, st, n, |Rest(m, n)|));
    TakenEnds(m, st, n);
    TakingReduces(m, st, n);
  }

  /** A solution after taking the row of `n`, together with that row, is a solution. */
  lemma TakenSolves(m: Matrix, st: State, st': State, n: nat, ns: seq<nat>)
    requires Good(m, st) && Active(st.t, st.s, n) && IsCell(m, n)
    requires st' == Taken(m, st, n, |Rest(m, n)|) && MatrixOk(m, st'.t) && Solves(m, st', ns)
    ensures MatrixOk(m, st.t) && Solves(m, st, [n] + ns)
  {
    hide WellFormed, MatrixOk, Active, Rest, Taken, Reduced, Stands, IsCover, Sound, RowsOf, DistinctRows;
    TakenStands(m, st, n);
    ExtendCover(Stands(m, st), m.rowOf[n], RowsOf(m, ns));
    RowsOfCons(m, n, ns);
  }

  lemma RowsOfCons(m: Matrix, n: nat, ns: seq<nat>)
    requires IsCell(m, n) && AllCells(m, ns) && DistinctRows(m, ns)
    ensures AllCells(m, [n] + ns) && RowsOf(m, [n] + ns) == RowsOf(m, ns) + {m.rowOf[n]}
    ensures m.rowOf[n] !in RowsOf(m, ns) ==> DistinctRows(m, [n] + ns)
  {
    var xs := [n] + ns;
    assert xs[0] == n && forall i :: 0 <= i < |ns| ==> xs[i + 1] == ns[i];
    assert forall i :: 0 <= i < |ns| ==> m.rowOf[ns[i]] == m.rowOf[xs[i + 1]];
  }

  ghost predicate TakenUnsolvable(m: Matrix, st: State, n: nat)
    requires Good(m, st) && Active(st.t, st.s, n) && IsCell(m, n)
  {
    hide WellFormed, Rest;
    GoodMatrix(m, Taken(m, st, n, |Rest(m, n)|));
    Unsolvable(Stands(m, Taken(m, st, n, |Rest(m, n)|)))
  }

  /** None of the rows of the first `i` nodes of `v` is part of a solution. */
  ghost predicate NoRowLeads(m: Matrix, st: State, v: seq<nat>, i: nat)
    requires Good(m, st)
  {
    i <= |v| && forall q :: 0 <= q < i ==> Active(st.t, st.s, v[q]) && IsCell(m, v[q]) && TakenUnsolvable(m, st, v[q])
  }

  /** If no row through column `c` leads to a solution there is none. */
  lemma NoRowNoCover(m: Matrix, st: State, c: nat, R: set<nat>)
    requires Good(m, st) && MatrixOk(m, st.t) && c in st.s.heads && c < |st.s.lists|
    requires NoRowLeads(m, st, st.s.lists[c], |st.s.lists[c]|)
    ensures !IsCover(Stands(m, st), R)
  {
    var p := Stands(m, st);
    StandsSound(m, st);
    if IsCover(p, R) {
      var r := CoverUsesColumn(p, c, R);
      var k :| 0 <= k < |m.rows[r]| && c == st.t[m.rows[r][k]].col;
      var n := m.rows[r][k];
      assert Active(st.t, st.s, n);
      assert m.rowOf[n] == r by {
        assert RowOk(m, st.t, r);
      }
      assert st.s.lists[c][IndexOf(st.s.lists[c], n)] == n;
      TakenStands(m, st, n);
      ShrinkCover(p, r, R);
    }
  }

  /** The torus after one placement is added to it. */
  lemma CandidateKeeps(m: Matrix, t: seq<Node>, s: Shape, columns: seq<int>, labels: seq<Move>, l: Move)
    requires WellFormed(m, t, s) && HeadsNamed(t, s, columns) && RowsNamed(m, t, s, labels)
    requires HasColumns(columns, l) && l.cell < CELLS && 1 <= l.val <= 9
    ensures InRange(t) && |s.lists| == |t| && forall k :: 0 <= k < 4 ==> Headers(columns, l)[k] < |t|
    ensures var t' := Joined(AddCells(t, Headers(columns, l), NamesOf(l)), |t|);
      var s' := WithCells(s, Headers(columns, l));
      WellFormed(WithRow(m), t', s') && HeadsNamed(t', s', columns) && RowsNamed(WithRow(m), t', s', labels + [l])
  {
    hide WellFormed, HeadsNamed, InRange, MatrixOk, NamesOf, RowsNamed, Distinct, AddCells, Joined, ColumnsOk;
    var cs := Headers(columns, l);
    assert |s.lists| == |t| by {
      AddColumnsLength(m, t, s);
    }
    WellFormedParts(m, t, s);
    HeadersOf(t, s, columns, l);
    AddRowKeeps(m, t, s, cs, NamesOf(l));
    var t', s' := Joined(AddCells(t, cs, NamesOf(l)), |t|), WithCells(s, cs);
    NamedRow(m, t, s, t', s', columns, labels, l, cs);
    KeptHeads(t, t', s, s', columns);
  }

  lemma AddColumnsLength(m: Matrix, t: seq<Node>, s: Shape)
    requires WellFormed(m, t, s)
    ensures |s.lists| == |t|
  {
  }

  lemma EmptyTorus(t: seq<Node>, columns: seq<int>)
    requires t == [Node(0, 0, 0, 0, 0, 0, 0)] && |columns| == 400 && forall n :: 0 <= n < 400 ==> columns[n] == NULL
    ensures WellFormed(Matrix([], [0], [0]), t, Shape([], [[]])) && HeadsNamed(t, Shape([], [[]]), columns)
  {
    assert [ROOT] + [] == [ROOT];
    assert InH(t, [ROOT], 0);
  }

  ghost predicate UsedBefore(b: seq<int>, j: nat, kind: nat, u: nat, v: int)
    requires |b| == CELLS && j <= CELLS
  {
    exists i :: 0 <= i < j && Unit(kind, i) == u && b[i] == v
  }

  /** `flags[u][v]` says whether value `v` is given in unit `u` among the first `j` cells. */
  ghost predicate Flags(b: seq<int>, j: nat, flags: array2<bool>, kind: nat)
    requires |b| == CELLS && j <= CELLS
    reads flags
  {
    && flags.Length0 == CELLS && flags.Length1 == 10
    && forall u, v :: 0 <= u <= 8 && 0 <= v <= 9 ==> (flags[u, v] <==> UsedBefore(b, j, kind, u, v))
  }

  lemma WellFormedParts(m: Matrix, t: seq<Node>, s: Shape)
    requires WellFormed(m, t, s)
    ensures |t| > 0 && InRange(t) && MatrixOk(m, t) && ColumnsOk(t, s) && HeadsOk(t, s)
  {
  }

  class SudokuSolver {
    const nodes: array<Node>
    const columns: array<int>
    const inout: array<int>
    var cur: nat
    var stack: seq<nat>
    ghost var m: Matrix
    ghost var shape: Shape
    ghost var labels: seq<Move>

    /** Encodes the board: `columns` and `labels` name the columns and rows of the torus. */
    constructor (board: array<int>)
      requires board.Length == CELLS && Puzzle(board[..])
      ensures fresh(nodes) && fresh(columns) && inout == board && stack == []
      ensures cur <= nodes.Length && Encodes(board[..], m, State(T(), shape), columns[..], labels)
    {
      nodes := new Node[MAX_NODES](_ => Node(0, 0, 0, 0, 0, 0, 0));
      columns := new int[400](_ => NULL);
      inout := board;
      cur, stack := 0, [];
      m, shape, labels := Matrix([], [0], [0]), Shape([], [[]]), [];
      new;
      hide Encodes;
      Encode();
    }

    /** The body of the constructor of the source: the root, the columns, the rows. */
    method Encode()
      requires inout.Length == CELLS && Puzzle(inout[..]) && cur == 0 && nodes.Length == MAX_NODES
      requires columns.Length == 400 && forall n :: 0 <= n < 400 ==> columns[n] == NULL
      requires m == Matrix([], [0], [0]) && shape == Shape([], [[]]) && labels == []
      requires inout != columns
      modifies this`cur, this`m, this`shape, this`labels, nodes, columns
      ensures cur <= nodes.Length && Encodes(inout[..], m, State(T(), shape), columns[..], labels)
      ensures inout[..] == old(inout[..])
    {
      hide WellFormed, HeadsNamed, LabelsUpto, Wanted, Flags, Exact;
      nodes[cur] := Node(cur, cur, cur, cur, cur, 0, 0);
      cur := cur + 1;
      EmptyTorus(T(), columns[..]);
      var rows, cols, boxes := MarkUsed();
      AppendCellColumns();
      AppendUnitColumns(rows, cols, boxes);
      AllColumns(inout[..], columns[..]);
      AddRows(rows, cols, boxes);
      LabelsExact(inout[..], labels);
    }

    /** The nodes in use. */
    ghost function T(): (t: seq<Node>)
      reads this, nodes
      requires cur <= nodes.Length
    {
      nodes[..cur]
    }

    /** The column to branch on: the first with at most one row, else the first among the shortest. */
    method GetMinColumn(ghost s: Shape) returns (c: nat)
      requires cur <= nodes.Length && WellFormed(m, T(), s) && s.heads != []
      ensures exists k :: 0 <= k < |s.heads| && IsMin(T(), s.heads, k) && s.heads[k] == c
    {
      hide WellFormed;
      ghost var w := [ROOT] + s.heads;
      HeadWalk(m, T(), s, 0);
      c := nodes[ROOT].right;
      ghost var k := 0;
      var minSize := nodes[c].size;
      if minSize > 1 {
        HeadWalk(m, T(), s, 1);
        var cc := nodes[c].right;
        ghost var i := 1;
        while cc != ROOT
          invariant 0 <= k < i <= |s.heads| && c == s.heads[k] && cc == (s.heads + [ROOT])[i]
          invariant minSize == T()[c].size > 1
          invariant forall a :: 0 <= a < k ==> T()[s.heads[a]].size > minSize
          invariant forall a :: k < a < i ==> T()[s.heads[a]].size >= minSize
          decreases |s.heads| - i
        {
          HeadWalk(m, T(), s, i + 1);
          if minSize > nodes[cc].size {
            c, k := cc, i;
            minSize := nodes[cc].size;
            if minSize <= 1 {
              break;
            }
          }
          cc := nodes[cc].right;
          i := i + 1;
        }
      }
      assert IsMin(T(), s.heads, k);
    }

    /** The walk of `solve` along the row of `n` for its cell and its value. */
    method Decode(n: nat, ghost l: Move) returns (cell: int, val: int)
      requires cur <= nodes.Length && MatrixOk(m, T()) && IsCell(m, n) && RowLabelled(m, T(), m.rowOf[n], l)
      ensures cell == l.cell && val == l.val
    {
      hide MatrixOk, Rest, IsCell, RowLabelled;
      cell, val := -1, -1;
      var x := n;
      ghost var ns := [n] + Rest(m, n);
      ghost var p := 0;
      RowNames(m, T(), n, l);
      while cell == -1 || val == -1
        invariant 0 <= p <= |ns| && x == (ns + [n])[p]
        invariant if cell == -1 then forall q :: 0 <= q < p ==> T()[ns[q]].name >= 100 else cell == l.cell
        invariant if val == -1 then forall q :: 0 <= q < p ==> T()[ns[q]].name < 100 else val == l.val
        decreases |ns| - p
      {
        if nodes[x].name < 100 {
          cell := nodes[x].name;
        } else {
          val := nodes[x].name % 10;
        }
        RowWalk(m, T(), n, p);
        x := nodes[x].right;
        p := p + 1;
      }
    }

    /** The base case of `solve`: write the moves on the stack to the board. */
    method Fill()
      requires cur <= nodes.Length && MatrixOk(m, T()) && Labelled(m, T(), labels, inout.Length) && AllCells(m, stack)
      modifies inout
      ensures inout[..] == Filled(m, labels, old(inout[..]), stack)
    {
      hide MatrixOk, RowLabelled;
      ghost var b := inout[..];
      for i := 0 to |stack|
        invariant AllCells(m, stack[..i]) && inout[..] == Filled(m, labels, b, stack[..i])
        invariant nodes[..] == old(nodes[..])
      {
        var cell, val := Decode(stack[i], labels[m.rowOf[stack[i]]]);
        inout[cell] := val;
        assert stack[..i + 1][..i] == stack[..i];
      }
      assert stack[..|stack|] == stack;
    }

    /**
      Success leaves on the stack rows that cover every column exactly once, and the board filled with
      their moves; failure means that there are no such rows, and everything is as it was.
    */
    method Solve(ghost st: State) returns (ok: bool)
      requires cur <= nodes.Length && Good(m, st) && T() == st.t && AllCells(m, stack)
      requires Labelled(m, st.t, labels, inout.Length)
      modifies nodes, inout, this`stack
      ensures MatrixOk(m, st.t)
      ensures ok ==> old(stack) <= stack && Solves(m, st, stack[|old(stack)|..])
      ensures ok ==> AllCells(m, stack) && inout[..] == Filled(m, labels, old(inout[..]), stack)
      ensures !ok ==> T() == st.t && stack == old(stack) && inout[..] == old(inout[..]) && Unsolvable(Stands(m, st))
      decreases Elements(st.s.heads), 2
    {
      GoodMatrix(m, st);
      HeadWalk(m, st.t, st.s, 0);
      if nodes[ROOT].left == ROOT {
        Fill();
        NothingLeft(m, st);
        assert stack[|old(stack)|..] == [];
        return true;
      }
      var col := GetMinColumn(st.s);
      HeadsAreReady(m, st.t, st.s, col);
      Cover(col, st.s);
      ok := TryRows(col, st);
      if !ok {
        Uncover(col, st.t, st.s);
        forall R
          ensures !IsCover(Stands(m, st), R)
        {
          NoRowNoCover(m, st, col, R);
        }
      }
    }

    /** The loop of `solve` over the rows of the covered column `col`. */
    method TryRows(col: nat, ghost st: State) returns (ok: bool)
      requires cur <= nodes.Length && Ready(m, st.t, st.s, col) && MatrixOk(m, st.t)
      requires cur == |st.t| && T() == Covered(m, st.t, st.s, col)
      requires AllCells(m, stack) && Labelled(m, st.t, labels, inout.Length)
      modifies nodes, inout, this`stack
      ensures ok ==> old(stack) <= stack && Solves(m, st, stack[|old(stack)|..])
      ensures ok ==> AllCells(m, stack) && inout[..] == Filled(m, labels, old(inout[..]), stack)
      ensures !ok ==> T() == Covered(m, st.t, st.s, col) && stack == old(stack) && inout[..] == old(inout[..])
      ensures !ok ==> NoRowLeads(m, st, st.s.lists[col], |st.s.lists[col]|)
      decreases Elements(st.s.heads), 1
    {
      hide WellFormed, MatrixOk, Active, Rest, Taken, RowLabelled, Solves, Stands, Elements, IsCell, ColumnOk,
        Covered, TakenUnsolvable;
      ghost var v := st.s.lists[col];
      CoveredWalk(m, st.t, st.s, col);
      ColumnWalk(T(), col, v, 0);
      ColumnDistinct(T(), col, v);
      var row := nodes[col].down;
      ghost var i := 0;
      while row != col
        invariant 0 <= i <= |v| && row == (v + [col])[i]
        invariant T() == Covered(m, st.t, st.s, col) && stack == old(stack) && inout[..] == old(inout[..])
        invariant NoRowLeads(m, st, v, i)
        decreases |v| - i
      {
        ColumnActive(m, st, col, i);
        TakenFirst(m, st, row);
        ok := TryRow(row, st);
        if ok {
          return;
        }
        ColumnWalk(T(), col, v, i + 1);
        row := nodes[row].down;
        i := i + 1;
      }
      ok := false;
    }

    /** The body of that loop: take the row, search on, and put it back if that fails. */
    method TryRow(row: nat, ghost st: State) returns (ok: bool)
      requires cur <= nodes.Length && cur == |st.t| && Good(m, st) && Active(st.t, st.s, row) && IsCell(m, row)
      requires T() == Taken(m, st, row, 0).t && MatrixOk(m, st.t)
      requires AllCells(m, stack) && Labelled(m, st.t, labels, inout.Length)
      modifies nodes, inout, this`stack
      ensures ok ==> old(stack) <= stack && Solves(m, st, stack[|old(stack)|..])
      ensures ok ==> AllCells(m, stack) && inout[..] == Filled(m, labels, old(inout[..]), stack)
      ensures !ok ==> T() == old(T()) && stack == old(stack) && inout[..] == old(inout[..])
      ensures !ok ==> TakenUnsolvable(m, st, row)
      decreases Elements(st.s.heads), 0
    {
      hide WellFormed, MatrixOk, Active, Rest, Taken, RowLabelled, Solves, Stands, Elements, IsCell;
      TakenShrinks(m, st, row);
      ghost var st' := Taken(m, st, row, |Rest(m, row)|);
      SameLabelled(m, st.t, st'.t, labels, inout.Length);
      ghost var k := |stack|;
      stack := stack + [row];
      TakeRow(row, st);
      ok := Solve(st');
      if ok {
        assert stack[k..] == [row] + stack[k + 1..];
        TakenSolves(m, st, st', row, stack[k + 1..]);
      } else {
        stack := stack[..|stack| - 1];
        ReleaseRow(row, st);
      }
    }

    method Cover(c: nat, ghost s: Shape)
      requires cur <= nodes.Length && Ready(m, T(), s, c)
      modifies nodes
      ensures T() == Covered(m, old(T()), s, c)
    {
      hide WellFormed, InRange, MatrixOk, ColumnOk, Rest, UnlinkH, During, Covered;
      ghost var t, v := T(), s.lists[c];
      UnlinkHeaderOf(c);
      CoverEnds(m, t, s, c);
      DuringWalk(m, t, s, c, 0, 0);
      ColumnWalk(T(), c, v, 0);
      ColumnDistinct(T(), c, v);
      var row := nodes[c].down;
      ghost var i := 0;
      while row != c
        invariant 0 <= i <= |v| && row == (v + [c])[i]
        invariant T() == During(m, t, s, c, i, 0)
        decreases |v| - i
      {
        CoverRow(row, t, s, c, i);
        DuringWalk(m, t, s, c, i + 1, 0);
        ColumnWalk(T(), c, v, i + 1);
        row := nodes[row].down;
        i := i + 1;
      }
    }

    method UnlinkHeaderOf(c: nat)
      requires cur <= nodes.Length && c < cur && InRange(T())
      modifies nodes
      ensures T() == UnlinkH(old(T()), c)
    {
      nodes[nodes[c].right] := nodes[nodes[c].right].(left := nodes[c].left);
      nodes[nodes[c].left] := nodes[nodes[c].left].(right := nodes[c].right);
    }

    /** The inner loop of `cover`: unlink the other nodes of `row`. */
    method CoverRow(row: nat, ghost t: seq<Node>, ghost s: Shape, ghost c: nat, ghost i: nat)
      requires cur <= nodes.Length && cur == |t| && Ready(m, t, s, c) && i < |s.lists[c]| && row == s.lists[c][i]
      requires T() == During(m, t, s, c, i, 0)
      modifies nodes
      ensures T() == During(m, t, s, c, i + 1, 0)
    {
      hide WellFormed, InRange, MatrixOk, ColumnOk, Rest, During, UnlinkV, RelinkV;
      ghost var rest := Rest(m, row);
      DuringWalk(m, t, s, c, i, 0);
      RowWalk(m, T(), row, 0);
      RestElements(m, T(), row, row);
      var j := nodes[row].right;
      ghost var p := 0;
      while j != row
        invariant 0 <= p <= |rest| && j == (rest + [row])[p]
        invariant T() == During(m, t, s, c, i, p)
        decreases |rest| - p
      {
        InnerStep(m, t, s, c, i, p);
        Unlink(j);
        DuringWalk(m, t, s, c, i, p + 1);
        RowWalk(m, T(), row, p + 1);
        j := nodes[j].right;
        p := p + 1;
      }
      RowBoundary(m, t, s, c, i);
    }

    method Uncover(c: nat, ghost t: seq<Node>, ghost s: Shape)
      requires cur <= nodes.Length && cur == |t| && Ready(m, t, s, c) && T() == Covered(m, t, s, c)
      modifies nodes
      ensures T() == t
    {
      hide WellFormed, InRange, MatrixOk, ColumnOk, Rest, UnlinkH, RelinkH, During, Covered;
      ghost var v := s.lists[c];
      CoverEnds(m, t, s, c);
      DuringWalk(m, t, s, c, |v|, 0);
      ColumnWalk(T(), c, v, |v|);
      ColumnDistinct(T(), c, v);
      var row := nodes[c].up;
      ghost var i := |v|;
      while row != c
        invariant 0 <= i <= |v| && row == ([c] + v)[i]
        invariant T() == During(m, t, s, c, i, 0)
        decreases i
      {
        i := i - 1;
        UncoverRow(row, t, s, c, i);
        DuringWalk(m, t, s, c, i, 0);
        ColumnWalk(T(), c, v, i);
        row := nodes[row].up;
      }
      RelinkHeaderOf(c);
    }

    method RelinkHeaderOf(c: nat)
      requires cur <= nodes.Length && c < cur && InRange(T())
      modifies nodes
      ensures T() == RelinkH(old(T()), c)
    {
      nodes[nodes[c].right] := nodes[nodes[c].right].(left := c);
      nodes[nodes[c].left] := nodes[nodes[c].left].(right := c);
    }

    /** The inner loop of `uncover`: put the other nodes of `row` back. */
    method UncoverRow(row: nat, ghost t: seq<Node>, ghost s: Shape, ghost c: nat, ghost i: nat)
      requires cur <= nodes.Length && cur == |t| && Ready(m, t, s, c) && i < |s.lists[c]| && row == s.lists[c][i]
      requires T() == During(m, t, s, c, i + 1, 0)
      modifies nodes
      ensures T() == During(m, t, s, c, i, 0)
    {
      hide WellFormed, InRange, MatrixOk, ColumnOk, Rest, During, UnlinkV, RelinkV;
      ghost var rest := Rest(m, row);
      RowBoundary(m, t, s, c, i);
      DuringWalk(m, t, s, c, i, |rest|);
      RowWalk(m, T(), row, |rest|);
      RestElements(m, T(), row, row);
      var j := nodes[row].left;
      ghost var p := |rest|;
      while j != row
        invariant 0 <= p <= |rest| && j == ([row] + rest)[p]
        invariant T() == During(m, t, s, c, i, p)
        decreases p
      {
        p := p - 1;
        InnerStep(m, t, s, c, i, p);
        Relink(j);
        DuringWalk(m, t, s, c, i, p);
        RowWalk(m, T(), row, p);
        j := nodes[j].left;
      }
    }

    /** The loop of `solve` that covers the other columns of `row`. */
    method TakeRow(row: nat, ghost st: State)
      requires cur <= nodes.Length && cur == |st.t| && Good(m, st) && Active(st.t, st.s, row) && IsCell(m, row)
      requires T() == Taken(m, st, row, 0).t
      modifies nodes
      ensures T() == Taken(m, st, row, |Rest(m, row)|).t
    {
      hide WellFormed, InRange, MatrixOk, Active, IsCell, Ready, Rest, Taken, Covered;
      ghost var rest := Rest(m, row);
      GoodMatrix(m, Taken(m, st, row, 0));
      RowWalk(m, T(), row, 0);
      RestElements(m, T(), row, row);
      var j := nodes[row].right;
      ghost var p := 0;
      while j != row
        invariant 0 <= p <= |rest| && j == (rest + [row])[p]
        invariant T() == Taken(m, st, row, p).t
        decreases |rest| - p
      {
        TakenStep(m, st, row, p);
        Cover(nodes[j].col, Taken(m, st, row, p).s);
        GoodMatrix(m, Taken(m, st, row, p + 1));
        RowWalk(m, T(), row, p + 1);
        j := nodes[j].right;
        p := p + 1;
      }
    }

    /** The loop of `solve` that uncovers them again, leftwards. */
    method ReleaseRow(row: nat, ghost st: State)
      requires cur <= nodes.Length && cur == |st.t| && Good(m, st) && Active(st.t, st.s, row) && IsCell(m, row)
      requires T() == Taken(m, st, row, |Rest(m, row)|).t
      modifies nodes
      ensures T() == Taken(m, st, row, 0).t
    {
      hide WellFormed, InRange, MatrixOk, Active, IsCell, Ready, Rest, Taken, Covered;
      ghost var rest := Rest(m, row);
      GoodMatrix(m, Taken(m, st, row, |rest|));
      RowWalk(m, T(), row, |rest|);
      RestElements(m, T(), row, row);
      var j := nodes[row].left;
      ghost var p := |rest|;
      while j != row
        invariant 0 <= p <= |rest| && j == ([row] + rest)[p]
        invariant T() == Taken(m, st, row, p).t
        decreases p
      {
        p := p - 1;
        TakenStep(m, st, row, p);
        ghost var a := Taken(m, st, row, p);
        Uncover(nodes[j].col, a.t, a.s);
        GoodMatrix(m, a);
        RowWalk(m, T(), row, p);
        j := nodes[j].left;
      }
    }

    method Unlink(j: nat)
      requires cur <= nodes.Length && j < cur && InRange(T())
      modifies nodes
      ensures T() == UnlinkV(old(T()), j)
    {
      ghost var t0 := T();
      nodes[nodes[j].down] := nodes[nodes[j].down].(up := nodes[j].up);
      ghost var t1 := T();
      assert t1 == SetUp(t0, t0[j].down, t0[j].up);
      nodes[nodes[j].up] := nodes[nodes[j].up].(down := nodes[j].down);
      ghost var t2 := T();
      assert t2 == SetDown(t1, t1[j].up, t1[j].down);
      nodes[nodes[j].col] := nodes[nodes[j].col].(size := nodes[nodes[j].col].size - 1);
    }

    method Relink(j: nat)
      requires cur <= nodes.Length && j < cur && InRange(T())
      modifies nodes
      ensures T() == RelinkV(old(T()), j)
    {
      ghost var t0 := T();
      nodes[nodes[j].col] := nodes[nodes[j].col].(size := nodes[nodes[j].col].size + 1);
      ghost var t1 := T();
      assert t1 == AddSize(t0, t0[j].col, 1);
      nodes[nodes[j].down] := nodes[nodes[j].down].(up := j);
      ghost var t2 := T();
      assert t2 == SetUp(t1, t1[j].down, j);
      nodes[nodes[j].up] := nodes[nodes[j].up].(down := j);
    }

    // ----- building

    /** The torus is well formed, and `columns` and `labels` describe it. */
    ghost predicate Built()
      reads this, nodes, columns
    {
      && cur <= nodes.Length && columns.Length == 400 && nodes.Length == MAX_NODES
      && WellFormed(m, T(), shape) && HeadsNamed(T(), shape, columns[..]) && RowsNamed(m, T(), shape, labels)
    }

    method PutNodeLeft(o: nat, x: nat)
      requires cur <= nodes.Length && InRange(T()) && o < cur && x < cur
      modifies nodes
      ensures T() == PutLeft(old(T()), o, x)
    {
      nodes[x] := nodes[x].(left := nodes[o].left);
      nodes[x] := nodes[x].(right := o);
      nodes[nodes[o].left] := nodes[nodes[o].left].(right := x);
      nodes[o] := nodes[o].(left := x);
    }

    method PutNodeUp(o: nat, x: nat)
      requires cur <= nodes.Length && InRange(T()) && o < cur && x < cur
      modifies nodes
      ensures T() == PutUp(old(T()), o, x)
    {
      assert nodes[o].up < cur;
      hide InRange, SameRows;
      ghost var t0 := T();
      nodes[x] := nodes[x].(up := nodes[o].up);
      ghost var t1 := T();
      assert t1 == SetUp(t0, x, t0[o].up);
      nodes[x] := nodes[x].(down := o);
      ghost var t2 := T();
      assert t2 == SetDown(t1, x, o);
      PutLastDown(o, x);
      ghost var t3 := T();
      nodes[o] := nodes[o].(up := x);
      ghost var t4 := T();
      assert t4 == SetUp(t3, o, x);
      nodes[o] := nodes[o].(size := nodes[o].size + 1);
      ghost var t5 := T();
      assert t5 == AddSize(t4, o, 1);
      nodes[x] := nodes[x].(col := o);
    }

    /** The statement of `put_up` that links the last node of the column to the new one. */
    method PutLastDown(o: nat, x: nat)
      requires cur <= nodes.Length && InRange(T()) && o < cur && x < cur
      modifies nodes
      ensures T() == SetDown(old(T()), old(T())[o].up, x)
    {
      nodes[nodes[o].up] := nodes[nodes[o].up].(down := x);
    }

    method AppendNamedColumn(n: nat)
      requires Built() && cur < nodes.Length && n < 400 && columns[n] == NULL && m.rows == []
      modifies this`cur, this`m, this`shape, nodes, columns
      ensures Built() && m.rows == [] && cur == old(cur) + 1
      ensures columns[..] == old(columns[..])[n := old(cur)]
    {
      hide WellFormed, HeadsNamed, InRange, PutLeft, ColumnsOk;
      ghost var t, s := T(), shape;
      assert |t| > 0 && InRange(t) && ColumnsOk(t, s) by {
        WellFormedParts(m, t, s);
      }
      AppendColumnKeeps(m, t, s, n);
      nodes[cur] := Node(cur, cur, cur, cur, cur, n, 0);
      cur := cur + 1;
      assert T() == NewNode(t, |t|, n);
      PutNodeLeft(ROOT, cur - 1);
      columns[n] := cur - 1;
      m, shape := WithNode(m), WithColumn(s);
      NamedColumn(t, T(), s, old(columns[..]), n);
    }

    method NewRow(n: nat)
      requires cur < nodes.Length && columns.Length == 400 && n < 400 && 0 <= columns[n] < cur && InRange(T())
      modifies this`cur, nodes
      ensures cur == old(cur) + 1 && cur <= nodes.Length && T() == AddCell(old(T()), columns[n], n)
    {
      ghost var t := T();
      nodes[cur] := Node(cur, cur, cur, cur, columns[n], n, 0);
      cur := cur + 1;
      assert T() == NewNode(t, columns[n], n);
      PutNodeUp(nodes[cur - 1].col, cur - 1);
    }

    /** The four `new_row` calls of one placement. */
    method NewRows(ns: seq<nat>, ghost cs: seq<nat>)
      requires cur + 4 <= nodes.Length && columns.Length == 400 && InRange(T()) && |ns| == |cs| == 4
      requires forall k :: 0 <= k < 4 ==> ns[k] < 400 && cs[k] < cur && columns[ns[k]] == cs[k]
      modifies this`cur, nodes
      ensures cur == old(cur) + 4 && cur <= nodes.Length && T() == AddCells(old(T()), cs, ns)
    {
      hide InRange, AddCell;
      ghost var t := T();
      assert cs[..4] == cs && ns[..4] == ns;
      for k := 0 to 4
        invariant cur == |t| + k && cur <= nodes.Length
        invariant T() == AddCells(t, cs[..k], ns[..k])
      {
        NewRow(ns[k]);
        AddCellsSnoc(t, cs, ns, k);
      }
    }

    /** The three `put_left` calls of one placement. */
    method JoinNodes(n: nat)
      requires cur <= nodes.Length && InRange(T()) && n + 4 == cur
      modifies nodes
      ensures T() == Joined(old(T()), n)
    {
      hide InRange, PutLeft;
      PutNodeLeft(n, n + 1);
      PutNodeLeft(n, n + 2);
      PutNodeLeft(n, n + 3);
    }

    /** `new_row` and `put_left` for one placement: a row of four nodes. */
    method AddCandidate(cell: nat, val: nat)
      requires Built() && cur + 4 <= nodes.Length && cell < CELLS && 1 <= val <= 9
      requires HasColumns(columns[..], Move(cell, val))
      modifies this`cur, this`m, this`shape, this`labels, nodes
      ensures Built() && cur == old(cur) + 4 && labels == old(labels) + [Move(cell, val)]
    {
      hide WellFormed, HeadsNamed, InRange, Headers, NamesOf, RowsNamed, AddCells, Joined, WithCells;
      ghost var l := Move(cell, val);
      ghost var cs := Headers(columns[..], l);
      CandidateKeeps(m, T(), shape, columns[..], labels, l);
      NewRows(NamesOf(Move(cell, val)), cs);
      JoinNodes(cur - 4);
      m, shape, labels := WithRow(m), WithCells(shape, cs), labels + [l];
    }

    method MarkUsed() returns (rows: array2<bool>, cols: array2<bool>, boxes: array2<bool>)
      requires inout.Length == CELLS && Puzzle(inout[..])
      ensures fresh(rows) && fresh(cols) && fresh(boxes)
      ensures Flags(inout[..], CELLS, rows, ROWS) && Flags(inout[..], CELLS, cols, COLS)
        && Flags(inout[..], CELLS, boxes, BOXES)
    {
      rows := new bool[CELLS, 10]((_, _) => false);
      cols := new bool[CELLS, 10]((_, _) => false);
      boxes := new bool[CELLS, 10]((_, _) => false);
      ghost var b := inout[..];
      for i := 0 to CELLS
        invariant Flags(b, i, rows, ROWS) && Flags(b, i, cols, COLS) && Flags(b, i, boxes, BOXES)
      {
        var row, col, val := i / 9, i % 9, inout[i];
        var box := row / 3 * 3 + col / 3;
        MarkOne(rows, row, val, b, i, ROWS);
        MarkOne(cols, col, val, b, i, COLS);
        MarkOne(boxes, box, val, b, i, BOXES);
      }
    }

    static method MarkOne(flags: array2<bool>, u: nat, v: int, ghost b: seq<int>, ghost i: nat, ghost kind: nat)
      requires Puzzle(b) && i < CELLS && u == Unit(kind, i) && v == b[i] && Flags(b, i, flags, kind)
      modifies flags
      ensures Flags(b, i + 1, flags, kind)
    {
      UnitBound(kind, i);
      flags[u, v] := true;
    }

    method AppendCellColumns()
      requires Built() && cur == 1 && m.rows == [] && labels == [] && inout.Length == CELLS && Puzzle(inout[..])
      requires forall n :: 0 <= n < 400 ==> columns[n] == NULL
      modifies this`cur, this`m, this`shape, nodes, columns
      ensures Built() && m.rows == [] && cur <= 1 + CELLS && ColumnsUpto(inout[..], columns[..], 1, 0)
    {
      ghost var b := inout[..];
      for i := 0 to CELLS
        invariant Built() && m.rows == [] && cur <= 1 + i && inout[..] == b
        invariant forall n :: 0 <= n < 400 ==> (columns[n] != NULL <==> n < i && b[n] == 0)
      {
        if inout[i] == 0 {
          AppendNamedColumn(i);
        }
      }
    }

    /** The three columns of unit number `u` and value `v`, and so on through all pairs. */
    method AppendUnitColumns(rows: array2<bool>, cols: array2<bool>, boxes: array2<bool>)
      requires Built() && cur <= 1 + CELLS && m.rows == [] && labels == [] && inout.Length == CELLS && Puzzle(inout[..])
      requires Flags(inout[..], CELLS, rows, ROWS) && Flags(inout[..], CELLS, cols, COLS)
        && Flags(inout[..], CELLS, boxes, BOXES)
      requires ColumnsUpto(inout[..], columns[..], 1, 0)
      modifies this`cur, this`m, this`shape, nodes, columns
      ensures Built() && m.rows == [] && cur <= 1 + 4 * CELLS && ColumnsUpto(inout[..], columns[..], 91, 0)
    {
      hide ColumnsUpto, Flags, WellFormed, HeadsNamed;
      ghost var b := inout[..];
      for i := 0 to 9
        invariant Built() && m.rows == [] && cur <= 1 + CELLS + 27 * i && inout[..] == b
        invariant Flags(b, CELLS, rows, ROWS) && Flags(b, CELLS, cols, COLS) && Flags(b, CELLS, boxes, BOXES)
        invariant ColumnsUpto(b, columns[..], 10 * i + 1, 0)
      {
        for v := 1 to 10
          invariant Built() && m.rows == [] && cur <= 1 + CELLS + 27 * i + 3 * (v - 1) && inout[..] == b
          invariant Flags(b, CELLS, rows, ROWS) && Flags(b, CELLS, cols, COLS) && Flags(b, CELLS, boxes, BOXES)
          invariant ColumnsUpto(b, columns[..], 10 * i + v, 0)
          invariant v == 10 ==> ColumnsUpto(b, columns[..], 10 * (i + 1) + 1, 0)
        {
          AppendUnless(rows, ROWS, i, v);
          AppendUnless(cols, COLS, i, v);
          AppendUnless(boxes, BOXES, i, v);
          NextPair(b, columns[..], i, v);
        }
      }
    }

    method AppendUnless(used: array2<bool>, kind: nat, u: nat, v: nat)
      requires Built() && cur < nodes.Length && m.rows == [] && labels == [] && inout.Length == CELLS
        && Puzzle(inout[..])
      requires ROWS <= kind <= BOXES && u <= 8 && 1 <= v <= 9
      requires Flags(inout[..], CELLS, used, kind) && ColumnsUpto(inout[..], columns[..], 10 * u + v, kind - 1)
      modifies this`cur, this`m, this`shape, nodes, columns
      ensures Built() && m.rows == [] && cur <= old(cur) + 1
      ensures inout[..] == old(inout[..]) && ColumnsUpto(inout[..], columns[..], 10 * u + v, kind)
    {
      ghost var b, n, before := inout[..], Name(kind, u, v), columns[..];
      NameParts(kind, u, v);
      assert used[u, v] <==> Used(b, kind, u, v);
      assert columns[n] == NULL;
      if !used[u, v] {
        AppendNamedColumn(Name(kind, u, v));
      }
      NextKind(b, before, columns[..], u, v, kind);
    }

    method AddRows(rows: array2<bool>, cols: array2<bool>, boxes: array2<bool>)
      requires Built() && cur <= 1 + 4 * CELLS && labels == [] && inout.Length == CELLS && Puzzle(inout[..])
      requires Flags(inout[..], CELLS, rows, ROWS) && Flags(inout[..], CELLS, cols, COLS)
        && Flags(inout[..], CELLS, boxes, BOXES)
      requires forall n :: 0 <= n < 400 ==> (columns[n] != NULL <==> Wanted(inout[..], n))
      modifies this`cur, this`m, this`shape, this`labels, nodes
      ensures Built() && LabelsUpto(inout[..], labels, 10 * CELLS + 1)
      ensures columns[..] == old(columns[..]) && inout[..] == old(inout[..])
    {
      hide Flags, WellFormed, HeadsNamed, LabelsUpto, Wanted;
      ghost var b := inout[..];
      LabelsStart(b);
      for i := 0 to CELLS
        invariant Built() && cur <= 1 + 4 * CELLS + 36 * i && inout[..] == b && columns[..] == old(columns[..])
        invariant Flags(b, CELLS, rows, ROWS) && Flags(b, CELLS, cols, COLS) && Flags(b, CELLS, boxes, BOXES)
        invariant LabelsUpto(b, labels, 10 * i + 1)
      {
        if inout[i] == 0 {
          for v := 1 to 10
            invariant Built() && cur <= 1 + 4 * CELLS + 36 * i + 4 * (v - 1) && inout[..] == b
              && columns[..] == old(columns[..])
            invariant Flags(b, CELLS, rows, ROWS) && Flags(b, CELLS, cols, COLS) && Flags(b, CELLS, boxes, BOXES)
            invariant LabelsUpto(b, labels, 10 * i + v)
          {
            AddIfFree(rows, cols, boxes, i, v);
          }
          SkipLabels(b, labels, i, 10 * i + 10);
        } else {
          SkipLabels(b, labels, i, 10 * i + 1);
        }
      }
    }

    method AddIfFree(rows: array2<bool>, cols: array2<bool>, boxes: array2<bool>, i: nat, v: nat)
      requires Built() && cur + 4 <= nodes.Length && inout.Length == CELLS && Puzzle(inout[..])
      requires i < CELLS && inout[i] == 0 && 1 <= v <= 9
      requires Flags(inout[..], CELLS, rows, ROWS) && Flags(inout[..], CELLS, cols, COLS)
        && Flags(inout[..], CELLS, boxes, BOXES)
      requires forall n :: 0 <= n < 400 ==> (columns[n] != NULL <==> Wanted(inout[..], n))
      requires LabelsUpto(inout[..], labels, 10 * i + v)
      modifies this`cur, this`m, this`shape, this`labels, nodes
      ensures Built() && cur <= old(cur) + 4 && LabelsUpto(inout[..], labels, 10 * i + v + 1)
      ensures columns[..] == old(columns[..]) && inout[..] == old(inout[..])
    {
      hide WellFormed, LabelsUpto, Wanted;
      ghost var b, l := inout[..], Move(i, v);
      var row, col := i / 9, i % 9;
      var box := row / 3 * 3 + col / 3;
      assert rows[row, v] <==> Used(b, ROWS, Unit(ROWS, i), v);
      assert cols[col, v] <==> Used(b, COLS, Unit(COLS, i), v);
      assert boxes[box, v] <==> Used(b, BOXES, Unit(BOXES, i), v);
      NextLabel(b, labels, i, v);
      if !(rows[row, v] || cols[col, v] || boxes[box, v]) {
        CandidateWanted(b, l);
        AddCandidate(i, v);
      }
    }
  }
}
