/**
  Building the torus: `new_column`, `append_column`, `new_row`, `put_left` and `put_up` of
  `sudoku/sudoku.cc` on the node array, and the proof that adding columns and rows keeps it well formed.
*/
module Building {
  import opened Torus
  import opened DancingLinks
  import opened Search

  /** A fresh node linked to itself. */
  ghost function NewNode(t: seq<Node>, col: nat, name: nat): (r: seq<Node>)
    ensures |r| == |t| + 1 && (InRange(t) && col <= |t| ==> InRange(r))
  {
    t + [Node(|t|, |t|, |t|, |t|, col, name, 0)]
  }

  ghost function PutLeft(t: seq<Node>, o: nat, x: nat): (r: seq<Node>)
    requires InRange(t) && o < |t| && x < |t|
    ensures InRange(r) && |r| == |t|
  {
    var t1 := SetLeft(t, x, t[o].left);
    var t2 := SetRight(t1, x, o);
    var t3 := SetRight(t2, t2[o].left, x);
    SetLeft(t3, o, x)
  }

  ghost function PutUp(t: seq<Node>, o: nat, x: nat): (r: seq<Node>)
    requires InRange(t) && o < |t| && x < |t|
    ensures InRange(r) && |r| == |t|
  {
    var t1 := SetUp(t, x, t[o].up);
    var t2 := SetDown(t1, x, o);
    var t3 := SetDown(t2, t2[o].up, x);
    var t4 := AddSize(SetUp(t3, o, x), o, 1);
    t4[x := t4[x].(col := o)]
  }

  /** What `put_left` writes when `w` is the ring of its first argument. */
  ghost predicate PutsLeft(t: seq<Node>, t': seq<Node>, w: seq<nat>, x: nat) {
    && |t'| == |t| && |w| > 0
    && forall i :: 0 <= i < |t| ==>
      t'[i] == t[i].(left := if i == x then w[|w| - 1] else if i == w[0] then x else t[i].left,
                     right := if i == x then w[0] else if i == w[|w| - 1] then x else t[i].right)
  }

  ghost predicate PutsUp(t: seq<Node>, t': seq<Node>, w: seq<nat>, x: nat) {
    && |t'| == |t| && |w| > 0
    && forall i :: 0 <= i < |t| ==>
      t'[i] == t[i].(up := if i == x then w[|w| - 1] else if i == w[0] then x else t[i].up,
                     down := if i == x then w[0] else if i == w[|w| - 1] then x else t[i].down,
                     size := if i == w[0] then t[i].size + 1 else t[i].size,
                     col := if i == x then w[0] else t[i].col)
  }

  lemma PutLeftEffect(t: seq<Node>, w: seq<nat>, x: nat)
    requires InRange(t) && RingH(t, w) && x < |t| && x !in w
    ensures w[0] < |t| && PutsLeft(t, PutLeft(t, w[0], x), w, x)
  {
    assert InH(t, w, 0) && InH(t, w, |w| - 1);
  }

  lemma PutUpEffect(t: seq<Node>, w: seq<nat>, x: nat)
    requires InRange(t) && RingV(t, w) && x < |t| && x !in w
    ensures w[0] < |t| && PutsUp(t, PutUp(t, w[0], x), w, x)
  {
    assert InV(t, w, 0) && InV(t, w, |w| - 1);
  }

  /** `put_left` appends the node to the ring. */
  lemma PutLeftRing(t: seq<Node>, t': seq<Node>, w: seq<nat>, x: nat)
    requires RingH(t, w) && x < |t| && x !in w && PutsLeft(t, t', w, x)
    ensures RingH(t', w + [x])
  {
    var y := w + [x];
    forall i | 0 <= i < |y|
      ensures InH(t', y, i)
    {
      if i < |w| {
        assert InH(t, w, i);
      } else {
        assert InH(t, w, 0);
      }
    }
  }

  /** `put_up` appends the node to the column. */
  lemma PutUpRing(t: seq<Node>, t': seq<Node>, w: seq<nat>, x: nat)
    requires RingV(t, w) && x < |t| && x !in w && PutsUp(t, t', w, x)
    ensures RingV(t', w + [x])
  {
    var y := w + [x];
    forall i | 0 <= i < |y|
      ensures InV(t', y, i)
    {
      if i < |w| {
        assert InV(t, w, i);
      } else {
        assert InV(t, w, 0);
      }
    }
  }

  // ----- a fresh node

  ghost function WithNode(m: Matrix): (r: Matrix) {
    Matrix(m.rows, m.rowOf + [0], m.posOf + [0])
  }

  ghost function WithList(s: Shape): (r: Shape) {
    Shape(s.heads, s.lists + [[]])
  }

  lemma NewNodeRings(t: seq<Node>, w: seq<nat>, col: nat, name: nat)
    ensures RingH(t, w) ==> RingH(NewNode(t, col, name), w)
    ensures RingV(t, w) ==> RingV(NewNode(t, col, name), w)
    ensures RingH(NewNode(t, col, name), [|t|]) && RingV(NewNode(t, col, name), [|t|])
  {
    var t' := NewNode(t, col, name);
    assert forall i :: 0 <= i < |t| ==> t'[i] == t[i];
    if RingH(t, w) {
      forall i | 0 <= i < |w|
        ensures InH(t', w, i)
      {
        assert InH(t, w, i);
      }
    }
    if RingV(t, w) {
      forall i | 0 <= i < |w|
        ensures InV(t', w, i)
      {
        assert InV(t, w, i);
      }
    }
  }

  lemma NewNodeMatrix(m: Matrix, t: seq<Node>, col: nat, name: nat)
    requires MatrixOk(m, t)
    ensures MatrixOk(WithNode(m), NewNode(t, col, name))
    ensures forall n :: 0 <= n < |t| ==> (IsCell(WithNode(m), n) <==> IsCell(m, n))
    ensures !IsCell(WithNode(m), |t|)
  {
    var m', t' := WithNode(m), NewNode(t, col, name);
    forall r | 0 <= r < |m.rows|
      ensures RowOk(m', t', r)
    {
      assert RowOk(m, t, r);
      NewNodeRings(t, m.rows[r], col, name);
    }
    assert |m.rows| > 0 ==> RowOk(m, t, 0);
  }

  lemma NewNodeColumns(t: seq<Node>, s: Shape, col: nat, name: nat)
    requires ColumnsOk(t, s)
    ensures ColumnsOk(NewNode(t, col, name), WithList(s))
    ensures forall n: nat :: Active(NewNode(t, col, name), WithList(s), n) <==> Active(t, s, n)
  {
    var t', s' := NewNode(t, col, name), WithList(s);
    forall c | c in s.heads
      ensures ColumnOk(t', c, s'.lists[c])
    {
      assert ColumnOk(t, c, s.lists[c]);
      NewNodeRings(t, [c] + s.lists[c], col, name);
    }
    assert t'[|t|].col == col;
  }

  lemma NewNodeKeeps(m: Matrix, t: seq<Node>, s: Shape, col: nat, name: nat)
    requires WellFormed(m, t, s) && col <= |t|
    ensures WellFormed(WithNode(m), NewNode(t, col, name), WithList(s))
  {
    var m', t', s' := WithNode(m), NewNode(t, col, name), WithList(s);
    NewNodeMatrix(m, t, col, name);
    NewNodeColumns(t, s, col, name);
    NewNodeRings(t, [ROOT] + s.heads, col, name);
    forall n: nat | Active(t', s', n)
      ensures IsCell(m', n) && RowActive(m', t', s', m'.rowOf[n])
    {
      assert Active(t, s, n);
    }
  }

  // ----- append_column

  ghost function AppendColumn(t: seq<Node>, name: nat): (r: seq<Node>)
    requires InRange(t) && |t| > 0
    ensures InRange(r) && |r| == |t| + 1
  {
    PutLeft(NewNode(t, |t|, name), ROOT, |t|)
  }

  ghost function WithColumn(s: Shape): (r: Shape) {
    Shape(s.heads + [|s.lists|], s.lists + [[]])
  }

  lemma AppendColumnKeeps(m: Matrix, t: seq<Node>, s: Shape, name: nat)
    requires WellFormed(m, t, s)
    ensures WellFormed(WithNode(m), AppendColumn(t, name), WithColumn(s))
    ensures SameLabels(NewNode(t, |t|, name), AppendColumn(t, name))
  {
    var x, t1, m', t', s' := |t|, NewNode(t, |t|, name), WithNode(m), AppendColumn(t, name), WithColumn(s);
    NewNodeKeeps(m, t, s, |t|, name);
    NewNodeColumns(t, s, |t|, name);
    NewNodeRings(t1, [], 0, 0);
    NewNodeRings(t, [], |t|, name);
    var w := [ROOT] + s.heads;
    assert x !in w by {
      assert forall i :: 0 <= i < |w| ==> InH(t, w, i);
    }
    PutLeftEffect(t1, w, x);
    PutLeftRing(t1, t', w, x);
    assert w + [x] == [ROOT] + s'.heads;
    SameColumnsOk(t1, t', WithList(s));
    assert ColumnOk(t', x, []) by {
      assert RingV(t1, [x]);
      assert [x] + [] == [x];
      assert InV(t1, [x], 0);
      assert InV(t', [x], 0);
    }
    assert ColumnsOk(t', s');
    forall i | 0 <= i < |w|
      ensures w[i] < |t| && t[w[i]].col == w[i]
    {
      assert i > 0 ==> w[i] in s.heads;
    }
    MatrixKept(m', t1, t');
    forall n: nat | Active(t', s', n)
      ensures IsCell(m', n) && RowActive(m', t', s', m'.rowOf[n])
    {
      assert Active(t1, WithList(s), n);
    }
  }

  // ----- new_row

  ghost function AddCell(t: seq<Node>, c: nat, name: nat): (r: seq<Node>)
    requires InRange(t) && c < |t|
    ensures InRange(r) && |r| == |t| + 1
  {
    PutUp(NewNode(t, c, name), c, |t|)
  }

  ghost function WithCell(s: Shape, c: nat): (r: Shape)
    requires c < |s.lists|
  {
    Shape(s.heads, s.lists[c := s.lists[c] + [|s.lists|]] + [[]])
  }

  ghost predicate RowsExtended(t: seq<Node>, t': seq<Node>) {
    |t| <= |t'| && forall i :: 0 <= i < |t| ==>
      t'[i].left == t[i].left && t'[i].right == t[i].right && t'[i].col == t[i].col && t'[i].name == t[i].name
  }

  ghost predicate VerticalOk(t: seq<Node>, s: Shape) {
    InRange(t) && HeadsOk(t, s) && ColumnsOk(t, s)
  }

  lemma OtherColumn(t: seq<Node>, t': seq<Node>, c: nat, v: seq<nat>, d: nat, x: seq<nat>)
    requires ColumnOk(t, c, v) && ColumnOk(t, d, x) && c != d && |t| - 1 !in x && d != |t| - 1
    requires PutsUp(t, t', [c] + v, |t| - 1)
    ensures ColumnOk(t', d, x)
  {
    var w, y := [c] + v, [d] + x;
    forall i | 0 <= i < |y|
      ensures InV(t', y, i) && t'[y[i]].col == d && (i == 0 ==> t'[y[i]].size == t[y[i]].size)
    {
      assert InV(t, y, i);
      assert t[y[i]].col == d;
      assert t[w[|w| - 1]].col == c;
      assert y[i] != |t| - 1 by {
        assert i > 0 ==> y[i] == x[i - 1];
      }
    }
    assert y[0] == d && forall i :: 0 <= i < |x| ==> x[i] == y[i + 1];
  }

  lemma OwnColumn(t: seq<Node>, t': seq<Node>, c: nat, v: seq<nat>)
    requires ColumnOk(t, c, v) && |t| - 1 !in [c] + v && PutsUp(t, t', [c] + v, |t| - 1)
    ensures ColumnOk(t', c, v + [|t| - 1])
  {
    PutUpRing(t, t', [c] + v, |t| - 1);
    assert [c] + v + [|t| - 1] == [c] + (v + [|t| - 1]);
  }

  /** `new_row` puts a fresh node at the bottom of its column, linked to itself sideways. */
  lemma AddCellKeeps(t: seq<Node>, s: Shape, c: nat, name: nat)
    requires VerticalOk(t, s) && c in s.heads
    ensures c < |t| && c < |s.lists|
    ensures var t' := AddCell(t, c, name);
      && VerticalOk(t', WithCell(s, c)) && RowsExtended(t, t') && RingH(t', [|t|])
      && t'[|t|].col == c && t'[|t|].name == name
  {
    var x, t1, t', s1, s' := |t|, NewNode(t, c, name), AddCell(t, c, name), WithList(s), WithCell(s, c);
    var w := [c] + s.lists[c];
    NewNodeColumns(t, s, c, name);
    NewNodeRings(t, [ROOT] + s.heads, c, name);
    assert ColumnOk(t, c, s.lists[c]);
    assert x !in w by {
      assert forall i :: 0 <= i < |w| ==> InV(t, w, i);
    }
    PutUpEffect(t1, w, x);
    OwnColumn(t1, t', c, s.lists[c]);
    forall d | d in s.heads && d != c
      ensures ColumnOk(t', d, s'.lists[d])
    {
      assert ColumnOk(t, d, s.lists[d]);
      OtherColumn(t1, t', c, s.lists[c], d, s.lists[d]);
    }
    SameRowsRing(t1, t', [ROOT] + s.heads);
    SameRowsRing(t1, t', [x]);
  }

  lemma AddCellActive(t: seq<Node>, t': seq<Node>, s: Shape, c: nat, n: nat)
    requires ColumnsOk(t, s) && c in s.heads && c < |t| && |t'| == |t| + 1 && RowsExtended(t, t') && t'[|t|].col == c
    ensures Active(t', WithCell(s, c), n) <==> Active(t, s, n) || n == |t|
  {
    var s' := WithCell(s, c);
    assert ColumnOk(t, c, s.lists[c]);
    assert |t| in s'.lists[c] by {
      assert s'.lists[c][|s.lists[c]|] == |t|;
    }
  }

  // ----- a whole row

  /** The four `put_left`-ed nodes of one candidate: `n`, `n + 1`, `n + 2`, `n + 3`. */
  ghost function Four(n: nat): (w: seq<nat>) {
    [n, n + 1, n + 2, n + 3]
  }

  /** `put_left(n, x)` on the ring `w` of `n` disturbs no node outside `w` and `x`. */
  lemma JoinStep(t: seq<Node>, w: seq<nat>, x: nat)
    requires InRange(t) && RingH(t, w) && RingH(t, [x]) && x !in w
    ensures w[0] < |t| && x < |t|
    ensures var t' := PutLeft(t, w[0], x);
      && RingH(t', w + [x]) && SameColumns(t, t')
      && forall i :: 0 <= i < |t| && i !in w && i != x ==> t'[i] == t[i]
  {
    assert InH(t, [x], 0) && InH(t, w, 0);
    assert w[|w| - 1] in w && w[0] in w;
    PutLeftEffect(t, w, x);
    PutLeftRing(t, PutLeft(t, w[0], x), w, x);
  }

  ghost function Joined(t: seq<Node>, n: nat): (r: seq<Node>)
    requires InRange(t) && n + 3 < |t|
    ensures InRange(r) && |r| == |t|
  {
    PutLeft(PutLeft(PutLeft(t, n, n + 1), n, n + 2), n, n + 3)
  }

  lemma JoinRow(t: seq<Node>, n: nat)
    requires InRange(t) && n + 4 == |t| && SelfLinked(t, n)
    ensures RingH(Joined(t, n), Four(n)) && SameColumns(t, Joined(t, n))
    ensures forall i :: 0 <= i < |t| && !(n <= i < n + 4) ==> Joined(t, n)[i] == t[i]
  {
    hide InRange, PutLeft;
    var t1 := PutLeft(t, n, n + 1);
    var t2 := PutLeft(t1, n, n + 2);
    JoinStep(t, [n], n + 1);
    assert [n] + [n + 1] == [n, n + 1];
    SameRowsRing(t, t1, [n + 2]);
    SameRowsRing(t, t1, [n + 3]);
    JoinStep(t1, [n, n + 1], n + 2);
    assert [n, n + 1] + [n + 2] == [n, n + 1, n + 2];
    SameRowsRing(t1, t2, [n + 3]);
    JoinStep(t2, [n, n + 1, n + 2], n + 3);
    assert [n, n + 1, n + 2] + [n + 3] == Four(n);
  }

  ghost function AddCells(t: seq<Node>, cs: seq<nat>, names: seq<nat>): (r: seq<Node>)
    requires InRange(t) && |cs| == |names| && forall i :: 0 <= i < |cs| ==> cs[i] < |t|
    ensures InRange(r) && |r| == |t| + |cs|
  {
    if cs == [] then t else
      AddCell(AddCells(t, cs[..|cs| - 1], names[..|cs| - 1]), cs[|cs| - 1], names[|cs| - 1])
  }

  lemma AddCellsSnoc(t: seq<Node>, cs: seq<nat>, names: seq<nat>, k: nat)
    requires InRange(t) && |cs| == |names| && (forall i :: 0 <= i < |cs| ==> cs[i] < |t|) && k < |cs|
    ensures AddCells(t, cs[..k + 1], names[..k + 1]) == AddCell(AddCells(t, cs[..k], names[..k]), cs[k], names[k])
  {
    hide InRange, AddCell;
    assert cs[..k + 1][..k] == cs[..k] && names[..k + 1][..k] == names[..k];
  }

  ghost function WithCells(s: Shape, cs: seq<nat>): (r: Shape)
    requires forall i :: 0 <= i < |cs| ==> cs[i] < |s.lists|
    ensures |r.lists| == |s.lists| + |cs| && r.heads == s.heads
  {
    if cs == [] then s else WithCell(WithCells(s, cs[..|cs| - 1]), cs[|cs| - 1])
  }

  ghost predicate CellsAdded(t: seq<Node>, s: Shape, t': seq<Node>, s': Shape, cs: seq<nat>, names: seq<nat>) {
    && |cs| == |names| && |t'| == |t| + |cs| && RowsExtended(t, t')
    && (forall i :: 0 <= i < |cs| ==> t'[|t| + i].col == cs[i] && t'[|t| + i].name == names[i])
    && (forall n: nat :: Active(t', s', n) <==> Active(t, s, n) || |t| <= n < |t| + |cs|)
  }

  ghost predicate SelfLinked(t: seq<Node>, from: nat) {
    forall i :: from <= i < |t| ==> RingH(t, [i])
  }

  /** After several `new_row`s the columns are well formed and every new node is linked to itself sideways. */
  lemma {:induction false} AddCellsKeep(t: seq<Node>, s: Shape, cs: seq<nat>, names: seq<nat>)
    requires VerticalOk(t, s) && |cs| == |names| && forall i :: 0 <= i < |cs| ==> cs[i] in s.heads && cs[i] < |t|
    requires |s.lists| == |t|
    ensures var t' := AddCells(t, cs, names); var s' := WithCells(s, cs);
      VerticalOk(t', s') && CellsAdded(t, s, t', s', cs, names) && SelfLinked(t', |t|)
  {
    if cs != [] {
      hide InRange, HeadsOk, ColumnsOk, Active, SelfLinked, CellsAdded;
      var k := |cs| - 1;
      AddCellsKeep(t, s, cs[..k], names[..k]);
      AddCellAdded(t, s, AddCells(t, cs[..k], names[..k]), WithCells(s, cs[..k]), cs, names);
    }
  }

  lemma AddCellAdded(t: seq<Node>, s: Shape, t1: seq<Node>, s1: Shape, cs: seq<nat>, names: seq<nat>)
    requires |cs| == |names| && cs != [] && VerticalOk(t1, s1) && |s1.lists| == |t1|
    requires CellsAdded(t, s, t1, s1, cs[..|cs| - 1], names[..|cs| - 1]) && SelfLinked(t1, |t|)
    requires cs[|cs| - 1] in s1.heads && cs[|cs| - 1] < |t1|
    ensures var t' := AddCell(t1, cs[|cs| - 1], names[|cs| - 1]); var s' := WithCell(s1, cs[|cs| - 1]);
      VerticalOk(t', s') && CellsAdded(t, s, t', s', cs, names) && SelfLinked(t', |t|)
  {
    hide InRange, HeadsOk, AddCell, WithCell, Active, RingH;
    var c, k := cs[|cs| - 1], |cs| - 1;
    var t', s' := AddCell(t1, c, names[k]), WithCell(s1, c);
    AddCellKeeps(t1, s1, c, names[k]);
    forall n: nat
      ensures Active(t', s', n) <==> Active(t, s, n) || |t| <= n < |t| + |cs|
    {
      AddCellActive(t1, t', s1, c, n);
    }
    forall i | |t| <= i < |t1|
      ensures RingH(t', [i])
    {
      RingExtended(t1, t', i);
    }
  }

  lemma RingExtended(t: seq<Node>, t': seq<Node>, x: nat)
    requires RingH(t, [x]) && RowsExtended(t, t')
    ensures RingH(t', [x])
  {
    assert InH(t, [x], 0);
    assert InH(t', [x], 0);
  }

  ghost function WithRow(m: Matrix): (r: Matrix) {
    Matrix(m.rows + [Four(|m.rowOf|)], m.rowOf + seq(4, _ => |m.rows|), m.posOf + [0, 1, 2, 3])
  }

  lemma NewRowOk(m: Matrix, t: seq<Node>, t': seq<Node>)
    requires MatrixOk(m, t) && |t'| == |t| + 4 && RowsExtended(t, t') && RingH(t', Four(|t|))
    requires forall i :: |t| <= i < |t'| ==> t'[i].col < |t|
    requires forall i, j :: |t| <= i < j < |t'| ==> t'[i].col != t'[j].col
    ensures MatrixOk(WithRow(m), t')
  {
    var m' := WithRow(m);
    forall r | 0 <= r < |m.rows|
      ensures RowOk(m', t', r)
    {
      assert RowOk(m, t, r) && m'.rows[r] == m.rows[r];
      forall i | 0 <= i < |m.rows[r]|
        ensures InH(t', m.rows[r], i)
      {
        assert InH(t, m.rows[r], i);
      }
    }
    assert RowOk(m', t', |m.rows|);
  }

  /** Adding a row of four nodes in four different linked columns keeps the torus well formed. */
  lemma AddRowKeeps(m: Matrix, t: seq<Node>, s: Shape, cs: seq<nat>, names: seq<nat>)
    requires WellFormed(m, t, s) && |cs| == |names| == 4 && Distinct(cs)
    requires forall i :: 0 <= i < |cs| ==> cs[i] in s.heads && cs[i] < |t|
    ensures |s.lists| == |t|
    ensures var t' := Joined(AddCells(t, cs, names), |t|); var s' := WithCells(s, cs);
      WellFormed(WithRow(m), t', s') && CellsAdded(t, s, t', s', cs, names)
  {
    hide ColumnOk, AddCells, WithCells, Active, Joined, RowOk, RingH, InRange;
    var t1, s' := AddCells(t, cs, names), WithCells(s, cs);
    var m', t' := WithRow(m), Joined(t1, |t|);
    AddCellsKeep(t, s, cs, names);
    JoinRow(t1, |t|);
    JoinedKeeps(t, s, t1, t', s', cs, names);
    assert forall i :: |t| <= i < |t'| ==> t'[i].col == cs[i - |t|];
    NewRowOk(m, t, t');
    RowsWholeAdded(m, t, s, t', s');
  }

  lemma JoinedKeeps(t: seq<Node>, s: Shape, t1: seq<Node>, t': seq<Node>, s': Shape, cs: seq<nat>, names: seq<nat>)
    requires HeadsOk(t, s) && CellsAdded(t, s, t1, s', cs, names) && SameColumns(t1, t') && s'.heads == s.heads
    requires HeadsOk(t1, s') && ColumnsOk(t1, s')
    requires forall i :: 0 <= i < |t| ==> t'[i] == t1[i]
    ensures CellsAdded(t, s, t', s', cs, names) && ColumnsOk(t', s') && HeadsOk(t', s')
  {
    SameColumnsOk(t1, t', s');
    var w := [ROOT] + s.heads;
    forall i | 0 <= i < |w|
      ensures w[i] < |t|
    {
      assert InH(t, w, i);
    }
    SameRowsRing(t1, t', w);
    forall n: nat
      ensures Active(t', s', n) <==> Active(t1, s', n)
    {
    }
  }

  lemma RowsWholeAdded(m: Matrix, t: seq<Node>, s: Shape, t': seq<Node>, s': Shape)
    requires MatrixOk(m, t) && RowsWhole(m, t, s) && |t'| == |t| + 4
    requires forall n: nat :: Active(t', s', n) <==> Active(t, s, n) || |t| <= n < |t| + 4
    ensures RowsWhole(WithRow(m), t', s')
  {
    var m' := WithRow(m);
    forall n: nat | Active(t', s', n)
      ensures IsCell(m', n) && RowActive(m', t', s', m'.rowOf[n])
    {
      if n >= |t| {
        assert m'.rowOf[n] == |m.rows| && m'.posOf[n] == n - |t|;
        assert forall k :: 0 <= k < 4 ==> Active(t', s', Four(|t|)[k]);
      } else {
        assert IsCell(m, n) && m'.rows[m.rowOf[n]] == m.rows[m.rowOf[n]];
      }
    }
  }
}
