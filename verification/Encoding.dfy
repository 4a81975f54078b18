/** The torus that encodes a Sudoku board, and what its exact covers are. */
module Encoding {
  import opened Torus
  import opened DancingLinks
  import opened ExactCover
  import opened Search
  import opened Building
  import opened Sudoku

  const NULL := -1

  /** `columns` finds every linked header by its name. */
  ghost predicate HeadsNamed(t: seq<Node>, s: Shape, columns: seq<int>) {
    && |columns| == 400
    && (forall n :: 0 <= n < 400 && columns[n] != NULL ==>
          0 <= columns[n] < |t| && columns[n] in s.heads && t[columns[n]].name == n)
    && (forall h :: h in s.heads ==> h < |t| && t[h].name < 400 && columns[t[h].name] == h)
  }

  /** Row `r` has one linked node in the column of each of its four names. */
  ghost predicate RowNamed(m: Matrix, t: seq<Node>, s: Shape, l: Move, r: nat)
    requires r < |m.rows|
  {
    && |m.rows[r]| == 4
    && forall k :: 0 <= k < 4 ==> var n := m.rows[r][k];
      && n < |t| && t[n].col < |t| && Active(t, s, n)
      && t[n].name == NamesOf(l)[k] && t[t[n].col].name == NamesOf(l)[k]
  }

  ghost predicate RowsNamed(m: Matrix, t: seq<Node>, s: Shape, labels: seq<Move>) {
    |labels| == |m.rows| && forall r :: 0 <= r < |m.rows| ==> RowNamed(m, t, s, labels[r], r)
  }

  /** The torus has a column for each wanted name and a row for each candidate of `b`. */
  ghost predicate Encodes(b: seq<int>, m: Matrix, st: State, columns: seq<int>, labels: seq<Move>) {
    && Puzzle(b) && Good(m, st) && HeadsNamed(st.t, st.s, columns) && RowsNamed(m, st.t, st.s, labels)
    && (forall n :: 0 <= n < 400 ==> (columns[n] != NULL <==> Wanted(b, n)))
    && Exact(b, labels)
  }

  /** Row `r` lies in the column of header `h` exactly if it has that column's name. */
  lemma ColumnByName(m: Matrix, st: State, columns: seq<int>, labels: seq<Move>, h: nat, r: nat)
    requires MatrixOk(m, st.t) && HeadsNamed(st.t, st.s, columns) && RowsNamed(m, st.t, st.s, labels)
    requires h in st.s.heads && r < |m.rows|
    ensures h in ColumnSet(m, st.t, r) <==> st.t[h].name in NamesOf(labels[r])
  {
    var w := m.rows[r];
    assert RowNamed(m, st.t, st.s, labels[r], r);
    if h in ColumnSet(m, st.t, r) {
      var k :| 0 <= k < |w| && h == st.t[w[k]].col;
      assert NamesOf(labels[r])[k] == st.t[h].name;
    }
    if st.t[h].name in NamesOf(labels[r]) {
      var k :| 0 <= k < 4 && NamesOf(labels[r])[k] == st.t[h].name;
      assert st.t[w[k]].col in st.s.heads;
      assert st.t[w[k]].col == h;
    }
  }

  lemma SameOnce(p: Problem, labels: seq<Move>, R: set<nat>, h: nat, n: nat)
    requires |p.cols| == |labels| && forall r :: 0 <= r < |labels| ==> (h in p.cols[r] <==> n in NamesOf(labels[r]))
    ensures CoversOnce(p, R, h) <==> NamedOnce(labels, R, n)
  {
    hide NamesOf;
    if CoversOnce(p, R, h) {
      var r :| r in R && r < |p.cols| && h in p.cols[r] && forall r' :: r' in R && r' < |p.cols| && h in p.cols[r'] ==>
        r' == r;
      assert n in NamesOf(labels[r]);
    }
    if NamedOnce(labels, R, n) {
      var r :| r in R && r < |labels| && n in NamesOf(labels[r]) &&
        forall r' :: r' in R && r' < |labels| && n in NamesOf(labels[r']) ==> r' == r;
      assert h in p.cols[r];
    }
  }

  lemma OnceByName(m: Matrix, st: State, columns: seq<int>, labels: seq<Move>, R: set<nat>, h: nat)
    requires MatrixOk(m, st.t) && HeadsNamed(st.t, st.s, columns) && RowsNamed(m, st.t, st.s, labels)
    requires h in st.s.heads && h < |st.t|
    ensures CoversOnce(Stands(m, st), R, h) <==> NamedOnce(labels, R, st.t[h].name)
  {
    hide MatrixOk, HeadsNamed, RowNamed, NamesOf;
    forall r: nat | r < |m.rows|
      ensures h in ColumnSet(m, st.t, r) <==> st.t[h].name in NamesOf(labels[r])
    {
      ColumnByName(m, st, columns, labels, h, r);
    }
    SameOnce(Stands(m, st), labels, R, h, st.t[h].name);
  }

  /** Exact covers of the torus are exact covers by name. */
  lemma CoversAreByName(b: seq<int>, m: Matrix, st: State, columns: seq<int>, labels: seq<Move>, R: set<nat>)
    requires Encodes(b, m, st, columns, labels) && MatrixOk(m, st.t)
    ensures IsCover(Stands(m, st), R) <==> CoversNames(b, labels, R)
  {
    hide WellFormed;
    var p := Stands(m, st);
    assert forall r :: r in p.rows <==> 0 <= r < |labels| by {
      forall r | 0 <= r < |m.rows|
        ensures RowActive(m, st.t, st.s, r)
      {
        assert RowNamed(m, st.t, st.s, labels[r], r);
      }
    }
    forall h | h in st.s.heads
      ensures st.t[h].name < 400 && Wanted(b, st.t[h].name)
      ensures CoversOnce(p, R, h) <==> NamedOnce(labels, R, st.t[h].name)
    {
      OnceByName(m, st, columns, labels, R, h);
    }
    forall n | 0 <= n < 400 && Wanted(b, n)
      ensures columns[n] in p.heads && (CoversOnce(p, R, columns[n]) <==> NamedOnce(labels, R, n))
    {
      OnceByName(m, st, columns, labels, R, columns[n]);
    }
  }

  // ----- adding columns and rows

  lemma NamedColumn(t: seq<Node>, t': seq<Node>, s: Shape, columns: seq<int>, n: nat)
    requires ColumnsOk(t, s) && HeadsNamed(t, s, columns) && n < 400 && columns[n] == NULL
    requires SameLabels(NewNode(t, |t|, n), t')
    ensures HeadsNamed(t', WithColumn(s), columns[n := |t|])
  {
    var u := NewNode(t, |t|, n);
    assert u[|t|].name == n && forall i :: 0 <= i < |t| ==> u[i] == t[i];
  }

  lemma KeptHeads(t: seq<Node>, t': seq<Node>, s: Shape, s': Shape, columns: seq<int>)
    requires HeadsNamed(t, s, columns) && RowsExtended(t, t') && s'.heads == s.heads
    ensures HeadsNamed(t', s', columns)
  {
  }

  lemma NamedRow(m: Matrix, t: seq<Node>, s: Shape, t': seq<Node>, s': Shape, columns: seq<int>, labels: seq<Move>,
                 l: Move, cs: seq<nat>)
    requires MatrixOk(m, t) && InRange(t) && HeadsNamed(t, s, columns) && RowsNamed(m, t, s, labels)
    requires CellsAdded(t, s, t', s', cs, NamesOf(l))
    requires forall k :: 0 <= k < 4 ==> cs[k] < |t| && t[cs[k]].name == NamesOf(l)[k]
    ensures RowsNamed(WithRow(m), t', s', labels + [l])
  {
    var m', labels' := WithRow(m), labels + [l];
    forall r | 0 <= r < |m.rows|
      ensures RowNamed(m', t', s', labels'[r], r)
    {
      assert RowNamed(m, t, s, labels[r], r);
      assert m'.rows[r] == m.rows[r];
    }
    assert RowNamed(m', t', s', l, |m.rows|) by {
      assert m'.rows[|m.rows|] == Four(|t|);
      forall k | 0 <= k < 4
        ensures var n := Four(|t|)[k];
          n < |t'| && t'[n].col == cs[k] && t'[n].name == NamesOf(l)[k] && Active(t', s', n)
      {
        assert Four(|t|)[k] == |t| + k;
      }
    }
  }

  ghost predicate HasColumns(columns: seq<int>, l: Move) {
    |columns| == 400 && forall k :: 0 <= k < 4 ==> NamesOf(l)[k] < 400 && columns[NamesOf(l)[k]] >= 0
  }

  /** The headers of the four columns of a move. */
  ghost function Headers(columns: seq<int>, l: Move): (cs: seq<nat>)
    requires HasColumns(columns, l)
    ensures |cs| == 4 && forall k :: 0 <= k < 4 ==> cs[k] == columns[NamesOf(l)[k]]
  {
    seq(4, k requires 0 <= k < 4 => columns[NamesOf(l)[k]])
  }

  lemma HeadersOf(t: seq<Node>, s: Shape, columns: seq<int>, l: Move)
    requires HeadsNamed(t, s, columns) && HasColumns(columns, l) && l.cell < CELLS && 1 <= l.val <= 9
    ensures var cs := Headers(columns, l);
      Distinct(cs) && forall k :: 0 <= k < 4 ==> cs[k] in s.heads && cs[k] < |t| && t[cs[k]].name == NamesOf(l)[k]
  {
    var cs := Headers(columns, l);
    UnitBound(ROWS, l.cell);
    UnitBound(COLS, l.cell);
    UnitBound(BOXES, l.cell);
    forall i, j | 0 <= i < j < 4
      ensures NamesOf(l)[i] != NamesOf(l)[j]
    {
    }
  }

  // ----- how far the constructor got

  /** The name `n` comes before, or is, the `kind`-th name of the pair numbered `rank`. */
  predicate Due(n: nat, rank: nat, kind: nat) {
    n < 100 || n % 100 < rank || (n % 100 == rank && n / 100 <= kind)
  }

  ghost predicate ColumnsUpto(b: seq<int>, columns: seq<int>, rank: nat, kind: nat)
    requires |b| == CELLS
  {
    |columns| == 400 && forall n :: 0 <= n < 400 ==> (columns[n] != NULL <==> Wanted(b, n) && Due(n, rank, kind))
  }

  lemma NextPair(b: seq<int>, columns: seq<int>, u: nat, v: nat)
    requires |b| == CELLS && ColumnsUpto(b, columns, 10 * u + v, BOXES)
    ensures ColumnsUpto(b, columns, 10 * u + v + 1, 0)
    ensures v == 9 ==> ColumnsUpto(b, columns, 10 * (u + 1) + 1, 0)
  {
  }

  lemma NextKind(b: seq<int>, columns: seq<int>, columns': seq<int>, u: nat, v: nat, kind: nat)
    requires |b| == CELLS && ROWS <= kind <= BOXES && u <= 8 && 1 <= v <= 9
    requires ColumnsUpto(b, columns, 10 * u + v, kind - 1) && |columns'| == 400
    requires forall n :: 0 <= n < 400 && n != Name(kind, u, v) ==> columns'[n] == columns[n]
    requires columns'[Name(kind, u, v)] != NULL <==> !Used(b, kind, u, v)
    ensures ColumnsUpto(b, columns', 10 * u + v, kind)
    ensures columns[Name(kind, u, v)] == NULL
  {
    NameParts(kind, u, v);
    forall n | 0 <= n < 400
      ensures columns'[n] != NULL <==> Wanted(b, n) && Due(n, 10 * u + v, kind)
    {
      if n >= 100 && n % 100 == 10 * u + v && n / 100 == kind {
        assert n == Name(kind, u, v);
      }
    }
  }

  lemma AllColumns(b: seq<int>, columns: seq<int>)
    requires |b| == CELLS && ColumnsUpto(b, columns, 91, 0)
    ensures forall n :: 0 <= n < 400 ==> (columns[n] != NULL <==> Wanted(b, n))
  {
  }

  function Rank(l: Move): (k: nat) {
    10 * l.cell + l.val
  }

  /** The labels are the candidates below `k`, in order. */
  ghost predicate LabelsUpto(b: seq<int>, labels: seq<Move>, k: nat)
    requires |b| == CELLS
  {
    && (forall r :: 0 <= r < |labels| ==> Candidate(b, labels[r]) && Rank(labels[r]) < k)
    && (forall r, r' :: 0 <= r < r' < |labels| ==> Rank(labels[r]) < Rank(labels[r']))
    && (forall l :: Candidate(b, l) && Rank(l) < k ==> l in labels)
  }

  lemma LabelsStart(b: seq<int>)
    requires |b| == CELLS
    ensures LabelsUpto(b, [], 1)
  {
  }

  lemma NextLabel(b: seq<int>, labels: seq<Move>, i: nat, v: nat)
    requires |b| == CELLS && i < CELLS && 1 <= v <= 9 && LabelsUpto(b, labels, 10 * i + v)
    ensures Candidate(b, Move(i, v)) ==> LabelsUpto(b, labels + [Move(i, v)], 10 * i + v + 1)
    ensures !Candidate(b, Move(i, v)) ==> LabelsUpto(b, labels, 10 * i + v + 1)
  {
    hide Used;
    forall l | Candidate(b, l) && Rank(l) == 10 * i + v
      ensures l == Move(i, v)
    {
    }
  }

  lemma SkipLabels(b: seq<int>, labels: seq<Move>, i: nat, k: nat)
    requires |b| == CELLS && LabelsUpto(b, labels, k) && 10 * i <= k <= 10 * i + 10
    requires k == 10 * i + 10 || (i < CELLS && b[i] != 0)
    ensures LabelsUpto(b, labels, 10 * (i + 1) + 1)
  {
    hide Candidate;
    forall l | Candidate(b, l) && Rank(l) < 10 * (i + 1) + 1
      ensures l in labels
    {
      CandidateRange(b, l);
      assert Rank(l) < k;
    }
  }

  lemma CandidateRange(b: seq<int>, l: Move)
    requires |b| == CELLS && Candidate(b, l)
    ensures l.cell < CELLS && b[l.cell] == 0 && 1 <= l.val <= 9
  {
  }

  lemma LabelsExact(b: seq<int>, labels: seq<Move>)
    requires |b| == CELLS && LabelsUpto(b, labels, 10 * CELLS + 1)
    ensures Exact(b, labels)
  {
  }

  lemma CandidateWanted(b: seq<int>, l: Move)
    requires |b| == CELLS && Candidate(b, l)
    ensures forall k :: 0 <= k < 4 ==> NamesOf(l)[k] < 400 && Wanted(b, NamesOf(l)[k])
  {
    hide Used;
    UnitBound(ROWS, l.cell);
    UnitBound(COLS, l.cell);
    UnitBound(BOXES, l.cell);
    NameParts(ROWS, Unit(ROWS, l.cell), l.val);
    NameParts(COLS, Unit(COLS, l.cell), l.val);
    NameParts(BOXES, Unit(BOXES, l.cell), l.val);
  }
}
