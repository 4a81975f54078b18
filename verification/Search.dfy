/**
  The link between the torus and the exact-cover problem it stands for: covering a column reduces
  the problem by that column, covering the columns of a row reduces it by that row.
*/
module Search {
  import opened Torus
  import opened DancingLinks
  import opened ExactCover

  datatype State = State(t: seq<Node>, s: Shape)

  ghost predicate Good(m: Matrix, st: State) {
    WellFormed(m, st.t, st.s)
  }

  ghost function ColumnSet(m: Matrix, t: seq<Node>, r: nat): (cs: set<nat>)
    requires MatrixOk(m, t) && r < |m.rows|
  {
    assert RowOk(m, t, r);
    set k | 0 <= k < |m.rows[r]| :: t[m.rows[r][k]].col
  }

  /** The exact-cover problem that the linked part of the torus stands for. */
  ghost function Stands(m: Matrix, st: State): (p: Problem)
    requires MatrixOk(m, st.t)
  {
    Problem(set c | c in st.s.heads,
            set r | 0 <= r < |m.rows| && RowActive(m, st.t, st.s, r),
            seq(|m.rows|, r requires 0 <= r < |m.rows| => ColumnSet(m, st.t, r)))
  }

  lemma StandsSound(m: Matrix, st: State)
    requires Good(m, st)
    ensures Sound(Stands(m, st))
  {
    var p := Stands(m, st);
    forall r | r in p.rows
      ensures p.cols[r] <= p.heads
    {
      assert RowOk(m, st.t, r);
      forall c | c in p.cols[r]
        ensures c in p.heads
      {
        var k :| 0 <= k < |m.rows[r]| && c == st.t[m.rows[r][k]].col;
        assert Active(st.t, st.s, m.rows[r][k]);
      }
    }
  }

  ghost predicate SameLabels(t: seq<Node>, t': seq<Node>) {
    |t'| == |t| && forall i :: 0 <= i < |t| ==> t'[i].col == t[i].col && t'[i].name == t[i].name
  }

  ghost function Cover(m: Matrix, st: State, c: nat): (st': State)
    requires Good(m, st) && c in st.s.heads
    ensures Good(m, st') && SameLabels(st.t, st'.t)
    ensures forall d :: d in st'.s.heads <==> d in st.s.heads && d != c
  {
    CoverKeepsWellFormed(m, st.t, st.s, c);
    CoverRemovable(m, st.t, st.s, c);
    UnlinkHeader(m, st.t, st.s, c);
    HeadsDropped(st.t, st.s, c);
    State(Covered(m, st.t, st.s, c), CoveredShape(m, st.t, st.s, c))
  }

  lemma MeetsIsInColumnSet(m: Matrix, st: State, c: nat, r: nat)
    requires Good(m, st) && c in st.s.heads && r < |m.rows| && RowActive(m, st.t, st.s, r)
    ensures Meets(m, st.s, c, r) <==> c in ColumnSet(m, st.t, r)
  {
    assert RowOk(m, st.t, r);
    assert ColumnOk(st.t, c, st.s.lists[c]);
    if Meets(m, st.s, c, r) {
      var n :| n in st.s.lists[c] && IsCell(m, n) && m.rowOf[n] == r;
      assert st.t[m.rows[r][m.posOf[n]]].col == c;
    }
    if c in ColumnSet(m, st.t, r) {
      var k :| 0 <= k < |m.rows[r]| && c == st.t[m.rows[r][k]].col;
      assert Active(st.t, st.s, m.rows[r][k]);
    }
  }

  lemma SameColumnSet(m: Matrix, t: seq<Node>, t': seq<Node>, r: nat)
    requires MatrixOk(m, t) && MatrixOk(m, t') && SameLabels(t, t') && r < |m.rows|
    ensures ColumnSet(m, t', r) == ColumnSet(m, t, r)
  {
    assert RowOk(m, t, r);
  }

  lemma CoverRowActive(m: Matrix, st: State, c: nat, r: nat)
    requires Good(m, st) && c in st.s.heads && r < |m.rows|
    ensures RowActive(m, Cover(m, st, c).t, Cover(m, st, c).s, r) <==>
      RowActive(m, st.t, st.s, r) && c !in ColumnSet(m, st.t, r)
  {
    var st' := Cover(m, st, c);
    assert RowOk(m, st.t, r);
    forall k | 0 <= k < |m.rows[r]|
      ensures Active(st'.t, st'.s, m.rows[r][k]) <==> Active(st.t, st.s, m.rows[r][k]) && !Meets(m, st.s, c, r)
    {
      CoverActive(m, st.t, st.s, c, m.rows[r][k]);
    }
    if RowActive(m, st.t, st.s, r) {
      MeetsIsInColumnSet(m, st, c, r);
    }
    assert |m.rows[r]| > 0;
    assert RowActive(m, st'.t, st'.s, r) ==> Active(st'.t, st'.s, m.rows[r][0]);
  }

  /** Covering a column reduces the problem by that column. */
  lemma CoverReduces(m: Matrix, st: State, c: nat)
    requires Good(m, st) && c in st.s.heads
    ensures Sound(Stands(m, st)) && Stands(m, Cover(m, st, c)) == Reduced(Stands(m, st), {c})
  {
    StandsSound(m, st);
    var st', p := Cover(m, st, c), Stands(m, st);
    var p', q := Stands(m, st'), Reduced(p, {c});
    forall r | 0 <= r < |m.rows|
      ensures p'.cols[r] == p.cols[r]
      ensures r in p'.rows <==> r in q.rows
    {
      SameColumnSet(m, st.t, st'.t, r);
      CoverRowActive(m, st, c, r);
    }
    assert p'.rows == q.rows;
    assert p'.cols == q.cols;
    assert p'.heads == q.heads;
  }

  // ----- covering several columns

  ghost predicate Coverable(st: State, cs: seq<nat>) {
    Distinct(cs) && forall k :: 0 <= k < |cs| ==> cs[k] in st.s.heads
  }

  ghost function CoverAll(m: Matrix, st: State, cs: seq<nat>): (st': State)
    requires Good(m, st) && Coverable(st, cs)
    ensures Good(m, st') && SameLabels(st.t, st'.t)
    ensures forall d :: d in st'.s.heads <==> d in st.s.heads && d !in cs
  {
    hide WellFormed;
    if cs == [] then st else
      var ks, c := cs[..|cs| - 1], cs[|cs| - 1];
      assert forall d :: d in cs <==> d in ks || d == c;
      Cover(m, CoverAll(m, st, ks), c)
  }

  ghost function Elements(cs: seq<nat>): (r: set<nat>) {
    set c | c in cs
  }

  lemma ReducedStep(p: Problem, q: Problem, cs: seq<nat>)
    requires Sound(p) && cs != [] && q == Reduced(p, Elements(cs[..|cs| - 1]))
    ensures Reduced(q, {cs[|cs| - 1]}) == Reduced(p, Elements(cs))
  {
    ReducedTwice(p, Elements(cs[..|cs| - 1]), {cs[|cs| - 1]});
    assert Elements(cs[..|cs| - 1]) + {cs[|cs| - 1]} == Elements(cs);
  }

  lemma ReducedByNothing(p: Problem)
    requires Sound(p)
    ensures Reduced(p, Elements([])) == p
  {
    var q := Reduced(p, Elements([]));
    assert p.heads == q.heads && p.rows == q.rows;
  }

  /** Covering several columns reduces the problem by all of them. */
  lemma {:induction false} CoverAllReduces(m: Matrix, st: State, cs: seq<nat>)
    requires Good(m, st) && Coverable(st, cs)
    ensures Sound(Stands(m, st)) && Stands(m, CoverAll(m, st, cs)) == Reduced(Stands(m, st), Elements(cs))
  {
    StandsSound(m, st);
    if cs == [] {
      ReducedByNothing(Stands(m, st));
    } else {
      var st' := CoverAll(m, st, cs[..|cs| - 1]);
      CoverAllReduces(m, st, cs[..|cs| - 1]);
      CoverReduces(m, st', cs[|cs| - 1]);
      ReducedStep(Stands(m, st), Stands(m, st'), cs);
    }
  }

  /** Undo `cover` for each of the columns `cs`, last first, starting from the node array `t`. */
  ghost function UncoverAll(m: Matrix, st: State, cs: seq<nat>, t: seq<Node>): (r: seq<Node>)
    requires Good(m, st) && Coverable(st, cs) && t == CoverAll(m, st, cs).t
    decreases |cs|
  {
    if cs == [] then t else
      var p := CoverAll(m, st, cs[..|cs| - 1]);
      UncoverUndoesCover(m, p.t, p.s, cs[|cs| - 1]);
      UncoverAll(m, st, cs[..|cs| - 1], Uncovered(m, t, p.s.lists[cs[|cs| - 1]], cs[|cs| - 1]))
  }

  /** Uncovering in the reverse order undoes any sequence of covers. */
  lemma {:induction false} UncoverAllUndoesCoverAll(m: Matrix, st: State, cs: seq<nat>)
    requires Good(m, st) && Coverable(st, cs)
    ensures UncoverAll(m, st, cs, CoverAll(m, st, cs).t) == st.t
  {
    if cs != [] {
      var p := CoverAll(m, st, cs[..|cs| - 1]);
      UncoverUndoesCover(m, p.t, p.s, cs[|cs| - 1]);
      UncoverAllUndoesCoverAll(m, st, cs[..|cs| - 1]);
    }
  }

  // ----- taking a row

  /** The columns of the nodes `ns`. */
  ghost function ColumnsOf(t: seq<Node>, ns: seq<nat>): (cs: seq<nat>)
    requires forall i :: 0 <= i < |ns| ==> ns[i] < |t|
    ensures |cs| == |ns| && forall i :: 0 <= i < |ns| ==> cs[i] == t[ns[i]].col
  {
    seq(|ns|, i requires 0 <= i < |ns| => t[ns[i]].col)
  }

  /** The columns `solve` covers to take the row of `n`: first its own, then the others rightwards. */
  ghost function TakenColumns(m: Matrix, st: State, n: nat): (cs: seq<nat>)
    requires Good(m, st) && Active(st.t, st.s, n)
  {
    RestInRange(m, st.t, n);
    ColumnsOf(st.t, [n] + Rest(m, n))
  }

  lemma RestInRange(m: Matrix, t: seq<Node>, n: nat)
    requires MatrixOk(m, t) && IsCell(m, n)
    ensures forall i :: 0 <= i < |Rest(m, n)| ==> Rest(m, n)[i] < |t|
  {
    assert RowOk(m, t, m.rowOf[n]);
  }

  lemma TakenCoverable(m: Matrix, st: State, n: nat)
    requires Good(m, st) && Active(st.t, st.s, n)
    ensures Coverable(st, TakenColumns(m, st, n))
    ensures Elements(TakenColumns(m, st, n)) == ColumnSet(m, st.t, m.rowOf[n])
  {
    var ns, cs := [n] + Rest(m, n), TakenColumns(m, st, n);
    var r := m.rowOf[n];
    RestDistinct(m, st.t, n);
    RestElements(m, st.t, n, n);
    assert RowOk(m, st.t, r);
    forall i | 0 <= i < |ns|
      ensures IsCell(m, ns[i]) && m.rowOf[ns[i]] == r && cs[i] in st.s.heads
    {
      if i > 0 {
        assert ns[i] in Rest(m, n);
        RestElements(m, st.t, n, ns[i]);
      }
      assert Active(st.t, st.s, m.rows[r][m.posOf[ns[i]]]);
    }
    forall i, j | 0 <= i < j < |ns|
      ensures cs[i] != cs[j]
    {
      assert ns[i] != ns[j] by {
        if i > 0 {
          assert ns[i] == Rest(m, n)[i - 1] && ns[j] == Rest(m, n)[j - 1];
        } else {
          assert ns[j] in Rest(m, n);
        }
      }
      SameRowSameColumn(m, st.t, ns[i], ns[j]);
    }
    forall c | c in ColumnSet(m, st.t, r)
      ensures c in cs
    {
      var k :| 0 <= k < |m.rows[r]| && c == st.t[m.rows[r][k]].col;
      var x := m.rows[r][k];
      RestElements(m, st.t, n, x);
      assert x in ns;
      assert cs[IndexOf(ns, x)] == c;
    }
    forall c | c in cs
      ensures c in ColumnSet(m, st.t, r)
    {
      var i := IndexOf(cs, c);
      assert m.rows[r][m.posOf[ns[i]]] == ns[i];
    }
  }

  lemma ActiveRow(m: Matrix, st: State, n: nat)
    requires Good(m, st) && Active(st.t, st.s, n)
    ensures var p := Stands(m, st); var r := m.rowOf[n];
      r in p.rows && r < |p.cols| && p.cols[r] == ColumnSet(m, st.t, r) && st.t[n].col in p.cols[r]
  {
    assert RowActive(m, st.t, st.s, m.rowOf[n]);
    assert m.rows[m.rowOf[n]][m.posOf[n]] == n;
  }

  /** Taking the row of `n` reduces the problem by exactly the columns of that row. */
  lemma TakingReduces(m: Matrix, st: State, n: nat)
    requires Good(m, st) && Active(st.t, st.s, n)
    ensures Coverable(st, TakenColumns(m, st, n))
    ensures var p := Stands(m, st); var r := m.rowOf[n];
      && Sound(p) && r in p.rows && p.cols[r] != {}
      && Stands(m, CoverAll(m, st, TakenColumns(m, st, n))) == Reduced(p, p.cols[r])
  {
    hide WellFormed, MatrixOk;
    TakenCoverable(m, st, n);
    ActiveRow(m, st, n);
    CoverAllReduces(m, st, TakenColumns(m, st, n));
  }
}
