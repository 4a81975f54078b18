/** The node arrays that the loops of `cover`, `uncover` and `solve` pass through, step by step. */
module SolverSteps {
  import opened Torus
  import opened DancingLinks
  import opened ExactCover
  import opened Search

  // ----- walking along rings

  lemma ColumnWalk(t: seq<Node>, c: nat, v: seq<nat>, i: nat)
    requires ColumnOk(t, c, v) && i <= |v|
    ensures var x := (v + [c])[i]; x < |t| && t[x].up == ([c] + v)[i]
    ensures var x := ([c] + v)[i]; x < |t| && t[x].down == (v + [c])[i]
  {
    var w := [c] + v;
    assert InV(t, w, i);
    assert InV(t, w, if i < |v| then i + 1 else 0);
  }

  lemma HeadWalk(m: Matrix, t: seq<Node>, s: Shape, i: nat)
    requires WellFormed(m, t, s) && i <= |s.heads|
    ensures var x := ([ROOT] + s.heads)[i]; x < |t| && t[x].right == (s.heads + [ROOT])[i]
    ensures forall k :: 0 <= k < |s.heads| ==> s.heads[k] < |t| && s.heads[k] != ROOT
    ensures t[ROOT].left == ROOT <==> s.heads == []
  {
    var w := [ROOT] + s.heads;
    assert InH(t, w, i) && InH(t, w, 0);
    forall k | 0 <= k < |s.heads|
      ensures s.heads[k] < |t| && s.heads[k] != ROOT
    {
      assert w[0] == ROOT && w[k + 1] == s.heads[k] && InH(t, w, k + 1);
    }
  }

  lemma RowWalk(m: Matrix, t: seq<Node>, n: nat, p: nat)
    requires MatrixOk(m, t) && IsCell(m, n) && p <= |Rest(m, n)|
    ensures var x := (Rest(m, n) + [n])[p]; x < |t| && t[x].left == ([n] + Rest(m, n))[p]
    ensures var x := ([n] + Rest(m, n))[p]; x < |t| && t[x].right == (Rest(m, n) + [n])[p]
  {
    var w, k := m.rows[m.rowOf[n]], m.posOf[n];
    assert RowOk(m, t, m.rowOf[n]);
    var a := if k + p < |w| then k + p else k + p - |w|;
    assert InH(t, w, a);
    assert ([n] + Rest(m, n))[p] == w[a];
    var b := if k + p + 1 < |w| then k + p + 1 else k + p + 1 - |w|;
    assert InH(t, w, b);
    assert (Rest(m, n) + [n])[p] == w[b];
  }

  // ----- the states cover and uncover pass through

  /** Column `c` of a well-formed torus may be covered. */
  ghost predicate Ready(m: Matrix, t: seq<Node>, s: Shape, c: nat) {
    && InRange(t) && c < |t| && |s.lists| == |t| && c in s.heads && AllCells(m, s.lists[c])
    && WellFormed(m, t, s)
  }

  lemma HeadsAreReady(m: Matrix, t: seq<Node>, s: Shape, c: nat)
    requires WellFormed(m, t, s) && c in s.heads
    ensures Ready(m, t, s, c)
  {
    CoverRemovable(m, t, s, c);
  }

  /** The node array when the first `i` rows of the column of `c` are out, and `p` nodes of the next. */
  ghost function During(m: Matrix, t: seq<Node>, s: Shape, c: nat, i: nat, p: nat): (r: seq<Node>)
    requires Ready(m, t, s, c) && i <= |s.lists[c]|
    requires if i < |s.lists[c]| then p <= |Rest(m, s.lists[c][i])| else p == 0
    ensures InRange(r) && |r| == |t|
  {
    VisitedInRange(m, t, s, c, i, p);
    Unlinked(UnlinkH(t, c), Visited(m, s.lists[c], i, p))
  }

  ghost function Visited(m: Matrix, v: seq<nat>, i: nat, p: nat): (r: seq<nat>)
    requires i <= |v| && AllCells(m, v) && if i < |v| then p <= |Rest(m, v[i])| else p == 0
  {
    Order(m, v[..i]) + if i < |v| then Rest(m, v[i])[..p] else []
  }

  lemma VisitedPrefix(m: Matrix, v: seq<nat>, i: nat, p: nat)
    requires i <= |v| && AllCells(m, v) && if i < |v| then p <= |Rest(m, v[i])| else p == 0
    ensures Visited(m, v, i, p) <= Order(m, v)
  {
    if i < |v| {
      OrderPrefix(m, v, i);
    } else {
      assert v[..i] == v;
    }
  }

  lemma VisitedInRange(m: Matrix, t: seq<Node>, s: Shape, c: nat, i: nat, p: nat)
    requires Ready(m, t, s, c) && i <= |s.lists[c]|
    requires if i < |s.lists[c]| then p <= |Rest(m, s.lists[c][i])| else p == 0
    ensures forall k :: 0 <= k < |Visited(m, s.lists[c], i, p)| ==> Visited(m, s.lists[c], i, p)[k] < |t|
  {
    VisitedPrefix(m, s.lists[c], i, p);
    DuringCover(m, t, s, c, Visited(m, s.lists[c], i, p));
  }

  lemma VisitedSteps(m: Matrix, v: seq<nat>, i: nat, p: nat)
    requires i < |v| && AllCells(m, v) && p < |Rest(m, v[i])|
    ensures Visited(m, v, i, p + 1) == Visited(m, v, i, p) + [Rest(m, v[i])[p]]
  {
  }

  lemma VisitedRow(m: Matrix, v: seq<nat>, i: nat)
    requires i < |v| && AllCells(m, v)
    ensures Visited(m, v, i, |Rest(m, v[i])|) == Visited(m, v, i + 1, 0)
  {
    assert v[..i + 1][..i] == v[..i] && v[..i + 1][i] == v[i];
  }

  lemma UnlinkedSnoc(t: seq<Node>, js: seq<nat>, j: nat)
    requires InRange(t) && j < |t| && forall k :: 0 <= k < |js| ==> js[k] < |t|
    ensures Unlinked(t, js + [j]) == UnlinkV(Unlinked(t, js), j)
  {
    assert (js + [j])[..|js|] == js;
  }

  /** One step of the inner loops: `cover` unlinks the next node of the row, `uncover` puts it back. */
  lemma InnerStep(m: Matrix, t: seq<Node>, s: Shape, c: nat, i: nat, p: nat)
    requires Ready(m, t, s, c) && i < |s.lists[c]|
    requires p < |Rest(m, s.lists[c][i])|
    ensures var j := Rest(m, s.lists[c][i])[p]; var d := During(m, t, s, c, i, p);
      var d' := During(m, t, s, c, i, p + 1);
      j < |t| && d' == UnlinkV(d, j) && d == RelinkV(d', j)
  {
    hide WellFormed, InRange, MatrixOk, ColumnOk, ColumnsOk, UnlinkV, UnlinkH, RelinkV, Rest;
    var v, j := s.lists[c], Rest(m, s.lists[c][i])[p];
    var t1, js := UnlinkH(t, c), Visited(m, v, i, p + 1);
    VisitedSteps(m, v, i, p);
    VisitedPrefix(m, v, i, p + 1);
    VisitedInRange(m, t, s, c, i, p);
    VisitedInRange(m, t, s, c, i, p + 1);
    DuringCover(m, t, s, c, js);
    UnlinkHeader(m, t, s, c);
    assert js[|js| - 1] == j && js[..|js| - 1] == Visited(m, v, i, p);
    UnlinkedSnoc(t1, Visited(m, v, i, p), j);
    LastUnlinked(t1, s, c, js);
  }

  lemma RowBoundary(m: Matrix, t: seq<Node>, s: Shape, c: nat, i: nat)
    requires Ready(m, t, s, c) && i < |s.lists[c]|
    ensures During(m, t, s, c, i, |Rest(m, s.lists[c][i])|) == During(m, t, s, c, i + 1, 0)
  {
    VisitedRow(m, s.lists[c], i);
  }

  lemma CoverEnds(m: Matrix, t: seq<Node>, s: Shape, c: nat)
    requires Ready(m, t, s, c)
    ensures During(m, t, s, c, 0, 0) == UnlinkH(t, c)
    ensures During(m, t, s, c, |s.lists[c]|, 0) == Covered(m, t, s, c)
    ensures RelinkH(UnlinkH(t, c), c) == t
  {
    hide WellFormed, InRange, UnlinkH, RelinkH;
    assert s.lists[c][..|s.lists[c]|] == s.lists[c];
    assert Visited(m, s.lists[c], |s.lists[c]|, 0) == Order(m, s.lists[c]);
    UnlinkHeader(m, t, s, c);
    RelinkUndoesUnlinkH(t, c);
  }

  lemma DuringWalk(m: Matrix, t: seq<Node>, s: Shape, c: nat, i: nat, p: nat)
    requires Ready(m, t, s, c) && i <= |s.lists[c]|
    requires if i < |s.lists[c]| then p <= |Rest(m, s.lists[c][i])| else p == 0
    ensures MatrixOk(m, During(m, t, s, c, i, p)) && ColumnOk(During(m, t, s, c, i, p), c, s.lists[c])
  {
    hide WellFormed, InRange, MatrixOk, ColumnOk, ColumnsOk, UnlinkV, UnlinkH, Rest;
    VisitedPrefix(m, s.lists[c], i, p);
    DuringCover(m, t, s, c, Visited(m, s.lists[c], i, p));
  }

  /** The covered column still lists its rows. */
  lemma CoveredWalk(m: Matrix, t: seq<Node>, s: Shape, c: nat)
    requires Ready(m, t, s, c)
    ensures ColumnOk(Covered(m, t, s, c), c, s.lists[c]) && |Covered(m, t, s, c)| == |t|
  {
    hide WellFormed, InRange, During, ColumnOk, Covered;
    CoverEnds(m, t, s, c);
    DuringWalk(m, t, s, c, |s.lists[c]|, 0);
  }

  lemma GoodMatrix(m: Matrix, st: State)
    requires Good(m, st)
    ensures MatrixOk(m, st.t)
  {
  }

  // ----- taking a row, column by column

  /** The state after the columns of the first `p` other nodes of the row of `n` are covered, and its own column. */
  ghost function Taken(m: Matrix, st: State, n: nat, p: nat): (st': State)
    requires Good(m, st) && Active(st.t, st.s, n) && IsCell(m, n) && p <= |Rest(m, n)|
    ensures Good(m, st') && SameLabels(st.t, st'.t)
  {
    hide WellFormed, Rest;
    TakenCoverable(m, st, n);
    CoverAll(m, st, TakenColumns(m, st, n)[..p + 1])
  }

  lemma CoverableReady(m: Matrix, st: State, cs: seq<nat>, p: nat)
    requires Good(m, st) && Coverable(st, cs) && p < |cs| && Coverable(st, cs[..p]) && Coverable(st, cs[..p + 1])
    ensures var st' := CoverAll(m, st, cs[..p]);
      Ready(m, st'.t, st'.s, cs[p]) && CoverAll(m, st, cs[..p + 1]).t == Covered(m, st'.t, st'.s, cs[p])
  {
    hide WellFormed;
    var st' := CoverAll(m, st, cs[..p]);
    assert cs[p] in st'.s.heads;
    HeadsAreReady(m, st'.t, st'.s, cs[p]);
    assert cs[..p + 1][..p] == cs[..p] && cs[..p + 1][p] == cs[p];
  }

  /** One step of the loops of `solve` over a row: the next column is ready to be covered, or was covered last. */
  lemma TakenStep(m: Matrix, st: State, n: nat, p: nat)
    requires Good(m, st) && Active(st.t, st.s, n) && IsCell(m, n) && p < |Rest(m, n)|
    ensures var a := Taken(m, st, n, p); var j := Rest(m, n)[p];
      && j < |st.t| && a.t[j].col == st.t[j].col
      && Ready(m, a.t, a.s, st.t[j].col)
      && Taken(m, st, n, p + 1).t == Covered(m, a.t, a.s, st.t[j].col)
  {
    hide WellFormed, Rest, Ready;
    TakenCoverable(m, st, n);
    GoodMatrix(m, st);
    RestInRange(m, st.t, n);
    assert ([n] + Rest(m, n))[p + 1] == Rest(m, n)[p];
    CoverableReady(m, st, TakenColumns(m, st, n), p + 1);
  }

  lemma CoverAllOne(m: Matrix, st: State, c: nat)
    requires Good(m, st) && c in st.s.heads
    ensures Coverable(st, [c]) && CoverAll(m, st, [c]) == Search.Cover(m, st, c)
  {
    hide WellFormed;
    assert [c][..0] == [];
  }

  lemma TakenEnds(m: Matrix, st: State, n: nat)
    requires Good(m, st) && Active(st.t, st.s, n) && IsCell(m, n)
    ensures Taken(m, st, n, 0) == Search.Cover(m, st, st.t[n].col)
    ensures Coverable(st, TakenColumns(m, st, n))
    ensures Taken(m, st, n, |Rest(m, n)|) == CoverAll(m, st, TakenColumns(m, st, n))
  {
    hide WellFormed, Rest;
    TakenCoverable(m, st, n);
    var cs := TakenColumns(m, st, n);
    assert cs[..1] == [st.t[n].col];
    CoverAllOne(m, st, st.t[n].col);
    assert cs[..|cs|] == cs;
  }

  lemma TakenFirst(m: Matrix, st: State, n: nat)
    requires Good(m, st) && Active(st.t, st.s, n) && IsCell(m, n)
    ensures Taken(m, st, n, 0).t == Covered(m, st.t, st.s, st.t[n].col)
  {
    hide WellFormed, Rest, Taken, CoverAll, TakenColumns, Coverable;
    TakenEnds(m, st, n);
  }

  /** Fewer headers are linked once a row is taken. */
  lemma TakenShrinks(m: Matrix, st: State, n: nat)
    requires Good(m, st) && Active(st.t, st.s, n) && IsCell(m, n)
    ensures Elements(Taken(m, st, n, |Rest(m, n)|).s.heads) < Elements(st.s.heads)
  {
    hide WellFormed, Rest;
    TakenCoverable(m, st, n);
    var cs := TakenColumns(m, st, n);
    assert cs[..|Rest(m, n)| + 1] == cs;
    assert cs[0] == st.t[n].col;
    assert st.t[n].col in Elements(st.s.heads) && st.t[n].col !in CoverAll(m, st, cs).s.heads;
  }
}
