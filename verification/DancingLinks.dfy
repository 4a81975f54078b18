/**
  `cover` and `uncover` of `sudoku/sudoku.cc` as functions on the node array of a sparse matrix,
  and the proof that they keep the torus well formed and undo each other exactly.
*/
module DancingLinks {
  import opened Torus

  /** The rows of the sparse matrix, each a list of nodes, with the place of every node in them. */
  datatype Matrix = Matrix(rows: seq<seq<nat>>, rowOf: seq<nat>, posOf: seq<nat>)

  /** What is linked: the headers in the header ring and, for each of them, its column from top to bottom. */
  datatype Shape = Shape(heads: seq<nat>, lists: seq<seq<nat>>)

  // ----- well-formed matrices and tori

  ghost predicate IsCell(m: Matrix, n: nat) {
    && n < |m.rowOf| && n < |m.posOf| && m.rowOf[n] < |m.rows|
    && m.posOf[n] < |m.rows[m.rowOf[n]]| && m.rows[m.rowOf[n]][m.posOf[n]] == n
  }

  ghost predicate RowOk(m: Matrix, t: seq<Node>, r: nat)
    requires r < |m.rows|
  {
    && RingH(t, m.rows[r])
    && (forall k :: 0 <= k < |m.rows[r]| ==>
          var n := m.rows[r][k]; n < |t| && IsCell(m, n) && m.rowOf[n] == r && m.posOf[n] == k && t[n].col != n)
    && (forall k, l :: 0 <= k < l < |m.rows[r]| ==> t[m.rows[r][k]].col != t[m.rows[r][l]].col)
  }

  ghost predicate MatrixOk(m: Matrix, t: seq<Node>) {
    |m.rowOf| == |t| && |m.posOf| == |t| && forall r :: 0 <= r < |m.rows| ==> RowOk(m, t, r)
  }

  /** Column `c` is the vertical ring of its header and the nodes `v`, and its size is right. */
  ghost predicate ColumnOk(t: seq<Node>, c: nat, v: seq<nat>) {
    && c < |t| && t[c].col == c && t[c].size == |v|
    && RingV(t, [c] + v)
    && forall i :: 0 <= i < |v| ==> v[i] < |t| && t[v[i]].col == c
  }

  ghost predicate ColumnsOk(t: seq<Node>, s: Shape) {
    |s.lists| == |t| && forall c :: c in s.heads ==> c < |t| && ColumnOk(t, c, s.lists[c])
  }

  ghost predicate HeadsOk(t: seq<Node>, s: Shape) {
    RingH(t, [ROOT] + s.heads) && |t| > 0 && t[ROOT].col == ROOT
  }

  /** Node `n` stands in a linked column. */
  ghost predicate Active(t: seq<Node>, s: Shape, n: nat) {
    n < |t| && t[n].col < |s.lists| && t[n].col in s.heads && n in s.lists[t[n].col]
  }

  ghost predicate RowActive(m: Matrix, t: seq<Node>, s: Shape, r: nat)
    requires r < |m.rows|
  {
    forall k :: 0 <= k < |m.rows[r]| ==> Active(t, s, m.rows[r][k])
  }

  /** A row is in the linked columns with all its nodes or not at all. */
  ghost predicate RowsWhole(m: Matrix, t: seq<Node>, s: Shape) {
    forall n: nat :: Active(t, s, n) ==> IsCell(m, n) && RowActive(m, t, s, m.rowOf[n])
  }

  ghost predicate WellFormed(m: Matrix, t: seq<Node>, s: Shape) {
    |t| > 0 && InRange(t) && MatrixOk(m, t) && HeadsOk(t, s) && ColumnsOk(t, s) && RowsWhole(m, t, s)
  }

  // ----- cover and uncover

  /** The other nodes of the row of `n`, rightwards from `n`. */
  ghost function Rest(m: Matrix, n: nat): (r: seq<nat>)
    requires IsCell(m, n)
  {
    m.rows[m.rowOf[n]][m.posOf[n] + 1..] + m.rows[m.rowOf[n]][..m.posOf[n]]
  }

  ghost predicate AllCells(m: Matrix, v: seq<nat>) {
    forall i :: 0 <= i < |v| ==> IsCell(m, v[i])
  }

  /** The nodes in the order in which `cover` unlinks them when the column lists `v`. */
  ghost function Order(m: Matrix, v: seq<nat>): (r: seq<nat>)
    requires AllCells(m, v)
  {
    if v == [] then [] else Order(m, v[..|v| - 1]) + Rest(m, v[|v| - 1])
  }

  ghost function Unlinked(t: seq<Node>, js: seq<nat>): (r: seq<Node>)
    requires InRange(t) && forall k :: 0 <= k < |js| ==> js[k] < |t|
    ensures InRange(r) && SameRows(t, r)
  {
    if js == [] then t else UnlinkV(Unlinked(t, js[..|js| - 1]), js[|js| - 1])
  }

  ghost function Relinked(t: seq<Node>, js: seq<nat>): (r: seq<Node>)
    requires InRange(t) && forall k :: 0 <= k < |js| ==> js[k] < |t|
    ensures InRange(r) && SameRows(t, r)
    decreases |js|
  {
    if js == [] then t else Relinked(RelinkV(t, js[|js| - 1]), js[..|js| - 1])
  }

  ghost function IndexOf(v: seq<nat>, x: nat): (k: nat)
    requires x in v
    ensures k < |v| && v[k] == x
  {
    if v[0] == x then 0 else 1 + IndexOf(v[1..], x)
  }

  ghost function Drop(v: seq<nat>, x: nat): (r: seq<nat>) {
    if x in v then Without(v, IndexOf(v, x)) else v
  }

  /** The columns once the nodes `js` are out of them. */
  ghost function DropAll(t: seq<Node>, s: Shape, js: seq<nat>): (r: Shape)
    requires InRange(t) && |s.lists| == |t| && forall k :: 0 <= k < |js| ==> js[k] < |t|
    ensures |r.lists| == |t| && r.heads == s.heads
  {
    if js == [] then s else
      var p := DropAll(t, s, js[..|js| - 1]);
      var c := t[js[|js| - 1]].col;
      Shape(p.heads, p.lists[c := Drop(p.lists[c], js[|js| - 1])])
  }

  // ----- unlinking a sequence of nodes

  lemma DropElements(v: seq<nat>, x: nat)
    requires Distinct(v)
    ensures Distinct(Drop(v, x))
    ensures forall y :: y in Drop(v, x) <==> y in v && y != x
  {
    if x in v {
      var k := IndexOf(v, x);
      WithoutDistinct(v, k);
      forall y | y in v && y != x
        ensures y in Drop(v, x)
      {
        var i := IndexOf(v, y);
        assert Drop(v, x)[if i < k then i else i - 1] == y;
      }
    }
  }

  lemma WithoutTail(c: nat, v: seq<nat>, k: nat)
    requires k < |v|
    ensures ([c] + v)[k + 1] == v[k] && Without([c] + v, k + 1) == [c] + Without(v, k)
  {
  }

  /** Unlinking a node of one column leaves that column without it. */
  lemma UnlinkOwnColumn(t: seq<Node>, t': seq<Node>, c: nat, v: seq<nat>, k: nat)
    requires ColumnOk(t, c, v) && k < |v| && UnlinksV(t, t', v[k])
    ensures ColumnOk(t', c, Without(v, k))
  {
    WithoutTail(c, v, k);
    UnlinkRingV(t, t', [c] + v, k + 1);
  }

  /** ... and every other column as it was. */
  lemma UnlinkOtherColumn(t: seq<Node>, t': seq<Node>, c: nat, v: seq<nat>, d: nat, x: seq<nat>, j: nat)
    requires ColumnOk(t, c, v) && ColumnOk(t, d, x) && c != d && j in v && j < |t| && UnlinksV(t, t', j)
    ensures ColumnOk(t', d, x)
  {
    var w, y, k := [c] + v, [d] + x, IndexOf(v, j);
    assert w[k + 1] == j;
    assert InV(t, w, k + 1);
    forall i | 0 <= i < |y|
      ensures InV(t', y, i)
    {
      assert InV(t, y, i);
      assert t[y[i]].col == d;
    }
  }

  lemma UnlinkColumns(t: seq<Node>, t': seq<Node>, s: Shape, j: nat)
    requires ColumnsOk(t, s) && Active(t, s, j) && UnlinksV(t, t', j)
    ensures var c := t[j].col; ColumnsOk(t', Shape(s.heads, s.lists[c := Drop(s.lists[c], j)]))
  {
    var c := t[j].col;
    UnlinkOwnColumn(t, t', c, s.lists[c], IndexOf(s.lists[c], j));
    forall d | d in s.heads && d != c
      ensures ColumnOk(t', d, s.lists[d])
    {
      UnlinkOtherColumn(t, t', c, s.lists[c], d, s.lists[d], j);
    }
  }

  lemma ColumnDistinct(t: seq<Node>, c: nat, v: seq<nat>)
    requires ColumnOk(t, c, v)
    ensures Distinct(v) && c !in v
  {
    var w := [c] + v;
    assert w[0] == c && forall i :: 0 <= i < |v| ==> v[i] == w[i + 1];
  }

  lemma ColumnLinked(t: seq<Node>, c: nat, v: seq<nat>, j: nat)
    requires InRange(t) && ColumnOk(t, c, v) && j in v
    ensures t[j].down != j && t[j].up != j && LinkedV(t, j)
  {
    var w, k := [c] + v, IndexOf(v, j);
    assert w[k + 1] == j;
    RingLinkedV(t, w, k + 1);
    assert InV(t, w, k + 1);
    assert w[0] == c != j;
  }

  /** The nodes `js` are distinct, linked, and none of them is in column `c`. */
  ghost predicate Removable(t: seq<Node>, s: Shape, c: nat, js: seq<nat>) {
    Distinct(js) && forall k :: 0 <= k < |js| ==> Active(t, s, js[k]) && t[js[k]].col != c
  }

  /** `s'` is `s` without the nodes `js`, and column `c` lost nothing. */
  ghost predicate Dropped(s: Shape, s': Shape, c: nat, js: seq<nat>) {
    && s'.heads == s.heads && |s'.lists| == |s.lists| && c < |s.lists|
    && s'.lists[c] == s.lists[c]
    && forall d, n :: 0 <= d < |s.lists| && d in s.heads ==> (n in s'.lists[d] <==> n in s.lists[d] && n !in js)
  }

  lemma DroppedStep(t: seq<Node>, s: Shape, s': Shape, c: nat, ks: seq<nat>, j: nat)
    requires ColumnsOk(t, s') && Dropped(s, s', c, ks) && Active(t, s, j) && j !in ks && t[j].col != c
    ensures var e := t[j].col;
      Active(t, s', j) && Dropped(s, Shape(s'.heads, s'.lists[e := Drop(s'.lists[e], j)]), c, ks + [j])
  {
    var e := t[j].col;
    ColumnDistinct(t, e, s'.lists[e]);
    DropElements(s'.lists[e], j);
    var s'' := Shape(s'.heads, s'.lists[e := Drop(s'.lists[e], j)]);
    forall d, n | 0 <= d < |s.lists| && d in s.heads
      ensures n in s''.lists[d] <==> n in s.lists[d] && n !in ks + [j]
    {
      assert n in ks + [j] <==> n in ks || n == j;
      assert ColumnOk(t, d, s'.lists[d]);
    }
    assert s''.heads == s.heads && |s''.lists| == |s.lists| && c < |s.lists|;
    assert s''.lists[c] == s.lists[c];
    assert Dropped(s, s'', c, ks + [j]);
  }

  lemma {:induction false} UnlinkedColumns(t: seq<Node>, s: Shape, c: nat, js: seq<nat>)
    requires InRange(t) && ColumnsOk(t, s) && c in s.heads && Removable(t, s, c, js)
    ensures ColumnsOk(Unlinked(t, js), DropAll(t, s, js))
    ensures Dropped(s, DropAll(t, s, js), c, js)
  {
    if js != [] {
      var ks, j := js[..|js| - 1], js[|js| - 1];
      assert js == ks + [j];
      UnlinkedColumns(t, s, c, ks);
      var t', s' := Unlinked(t, ks), DropAll(t, s, ks);
      DroppedStep(t', s, s', c, ks, j);
      ColumnLinked(t', t[j].col, s'.lists[t[j].col], j);
      UnlinkEffectV(t', j);
      UnlinkColumns(t', UnlinkV(t', j), s', j);
    }
  }

  // ----- the nodes that cover visits

  /** The nodes visited from the columns `v`, as a set: every other node of the rows through `v`. */
  lemma {:induction false} OrderElements(m: Matrix, t: seq<Node>, v: seq<nat>, j: nat)
    requires MatrixOk(m, t) && AllCells(m, v)
    ensures j in Order(m, v) <==> IsCell(m, j) && exists i :: 0 <= i < |v| && m.rowOf[v[i]] == m.rowOf[j] && v[i] != j
  {
    if v != [] {
      var n := v[|v| - 1];
      OrderElements(m, t, v[..|v| - 1], j);
      RestElements(m, t, n, j);
      if IsCell(m, j) && exists i :: 0 <= i < |v| && m.rowOf[v[i]] == m.rowOf[j] && v[i] != j {
        var i :| 0 <= i < |v| && m.rowOf[v[i]] == m.rowOf[j] && v[i] != j;
        assert i < |v| - 1 ==> v[..|v| - 1][i] == v[i];
      }
    }
  }

  lemma RestElements(m: Matrix, t: seq<Node>, n: nat, j: nat)
    requires MatrixOk(m, t) && IsCell(m, n)
    ensures j in Rest(m, n) <==> IsCell(m, j) && m.rowOf[n] == m.rowOf[j] && n != j
  {
    var w, k := m.rows[m.rowOf[n]], m.posOf[n];
    assert RowOk(m, t, m.rowOf[n]);
    if j in Rest(m, n) {
      var i := IndexOf(Rest(m, n), j);
      assert j == w[if i < |w| - k - 1 then k + 1 + i else i - (|w| - k - 1)];
    }
    if IsCell(m, j) && m.rowOf[n] == m.rowOf[j] && n != j {
      var p := m.posOf[j];
      assert p != k;
      assert Rest(m, n)[if p > k then p - k - 1 else |w| - k - 1 + p] == j;
    }
  }

  lemma RestDistinct(m: Matrix, t: seq<Node>, n: nat)
    requires MatrixOk(m, t) && IsCell(m, n)
    ensures Distinct(Rest(m, n))
  {
    assert RowOk(m, t, m.rowOf[n]);
  }

  lemma DistinctConcat(a: seq<nat>, b: seq<nat>)
    requires Distinct(a) && Distinct(b) && forall x :: x in a ==> x !in b
    ensures Distinct(a + b)
  {
    var c := a + b;
    forall i, j | 0 <= i < j < |c|
      ensures c[i] != c[j]
    {
      if i < |a| <= j {
        assert c[i] in a && c[j] in b;
      }
    }
  }

  /** Nodes of one column stand in different rows, so no node is visited twice. */
  lemma {:induction false} OrderDistinct(m: Matrix, t: seq<Node>, c: nat, v: seq<nat>)
    requires MatrixOk(m, t) && AllCells(m, v) && ColumnOkRows(m, t, c, v)
    ensures Distinct(Order(m, v))
  {
    if v != [] {
      var n, v' := v[|v| - 1], v[..|v| - 1];
      OrderDistinct(m, t, c, v');
      RestDistinct(m, t, n);
      forall j | j in Order(m, v') && j in Rest(m, n)
        ensures false
      {
        OrderElements(m, t, v', j);
        RestElements(m, t, n, j);
      }
      DistinctConcat(Order(m, v'), Rest(m, n));
    }
  }

  ghost predicate ColumnOkRows(m: Matrix, t: seq<Node>, c: nat, v: seq<nat>)
    requires AllCells(m, v)
  {
    && (forall i :: 0 <= i < |v| ==> v[i] < |t| && t[v[i]].col == c)
    && (forall i, j :: 0 <= i < j < |v| ==> m.rowOf[v[i]] != m.rowOf[v[j]])
  }

  lemma {:induction false} OrderPrefix(m: Matrix, v: seq<nat>, i: nat)
    requires AllCells(m, v) && i < |v|
    ensures Order(m, v[..i]) + Rest(m, v[i]) <= Order(m, v)
  {
    var v' := v[..|v| - 1];
    if i < |v| - 1 {
      OrderPrefix(m, v', i);
      assert v'[..i] == v[..i] && v'[i] == v[i];
    }
  }

  /** The rows of a linked column are whole, so everything `cover` visits is linked in another linked column. */
  lemma CoverRemovable(m: Matrix, t: seq<Node>, s: Shape, c: nat)
    requires WellFormed(m, t, s) && c in s.heads
    ensures AllCells(m, s.lists[c]) && Removable(t, s, c, Order(m, s.lists[c]))
  {
    var v := s.lists[c];
    assert ColumnOk(t, c, v);
    ColumnDistinct(t, c, v);
    forall i | 0 <= i < |v|
      ensures Active(t, s, v[i]) && IsCell(m, v[i]) && RowActive(m, t, s, m.rowOf[v[i]])
    {
      assert t[v[i]].col == c;
    }
    forall i, j | 0 <= i < j < |v|
      ensures m.rowOf[v[i]] != m.rowOf[v[j]]
    {
      SameRowSameColumn(m, t, v[i], v[j]);
    }
    OrderDistinct(m, t, c, v);
    var js := Order(m, v);
    forall k | 0 <= k < |js|
      ensures Active(t, s, js[k]) && t[js[k]].col != c
    {
      var j := js[k];
      assert j in js;
      OrderElements(m, t, v, j);
      var i :| 0 <= i < |v| && m.rowOf[v[i]] == m.rowOf[j] && v[i] != j;
      SameRowSameColumn(m, t, v[i], j);
      assert Active(t, s, m.rows[m.rowOf[v[i]]][m.posOf[j]]);
    }
  }

  /** Two nodes of the same row and the same column are the same node. */
  lemma SameRowSameColumn(m: Matrix, t: seq<Node>, a: nat, b: nat)
    requires MatrixOk(m, t) && IsCell(m, a) && IsCell(m, b) && a != b
    ensures t[a].col == t[b].col ==> m.rowOf[a] != m.rowOf[b]
  {
    assert RowOk(m, t, m.rowOf[a]);
  }

  /** The node array after `cover(c)`. */
  ghost function Covered(m: Matrix, t: seq<Node>, s: Shape, c: nat): (r: seq<Node>)
    requires WellFormed(m, t, s) && c in s.heads
  {
    CoverRemovable(m, t, s, c);
    Unlinked(UnlinkH(t, c), Order(m, s.lists[c]))
  }

  /** The node array after `uncover(c)` when `v` is the column of `c`. */
  ghost function Uncovered(m: Matrix, t: seq<Node>, v: seq<nat>, c: nat): (r: seq<Node>)
    requires InRange(t) && c < |t| && |m.rowOf| == |t| && AllCells(m, v)
    requires forall k :: 0 <= k < |Order(m, v)| ==> Order(m, v)[k] < |t|
  {
    RelinkH(Relinked(t, Order(m, v)), c)
  }

  /** What is linked after `cover(c)`: the other headers, and the rows that do not meet column `c`. */
  ghost function CoveredShape(m: Matrix, t: seq<Node>, s: Shape, c: nat): (r: Shape)
    requires WellFormed(m, t, s) && c in s.heads
  {
    CoverRemovable(m, t, s, c);
    Shape(Drop(s.heads, c), DropAll(UnlinkH(t, c), s, Order(m, s.lists[c])).lists)
  }

  ghost predicate SameColumns(t: seq<Node>, t': seq<Node>) {
    |t'| == |t| && forall i :: 0 <= i < |t| ==> t'[i] == t[i].(left := t'[i].left, right := t'[i].right)
  }

  lemma SameColumnsOk(t: seq<Node>, t': seq<Node>, s: Shape)
    requires ColumnsOk(t, s) && SameColumns(t, t')
    ensures ColumnsOk(t', s)
  {
    forall c | c in s.heads
      ensures ColumnOk(t', c, s.lists[c])
    {
      var w := [c] + s.lists[c];
      forall i | 0 <= i < |w|
        ensures InV(t', w, i)
      {
        assert InV(t, w, i);
      }
    }
  }

  lemma SameRowsRing(t: seq<Node>, t': seq<Node>, w: seq<nat>)
    requires RingH(t, w) && |t'| == |t|
    requires forall i :: 0 <= i < |w| && w[i] < |t| ==> t'[w[i]].left == t[w[i]].left && t'[w[i]].right == t[w[i]].right
    ensures RingH(t', w)
  {
    forall i | 0 <= i < |w|
      ensures InH(t', w, i)
    {
      assert InH(t, w, i);
    }
  }

  /** The row rings survive any change to the links of headers. */
  lemma MatrixKept(m: Matrix, t: seq<Node>, t': seq<Node>)
    requires MatrixOk(m, t) && |t'| == |t| && forall i :: 0 <= i < |t| ==> t'[i].col == t[i].col
    requires forall i :: 0 <= i < |t| && t[i].col != i ==> t'[i].left == t[i].left && t'[i].right == t[i].right
    ensures MatrixOk(m, t')
  {
    forall r | 0 <= r < |m.rows|
      ensures RowOk(m, t', r)
    {
      assert RowOk(m, t, r);
      SameRowsRing(t, t', m.rows[r]);
    }
  }

  /** Taking the header of `c` out of the header ring disturbs neither the rows nor the columns. */
  lemma UnlinkHeader(m: Matrix, t: seq<Node>, s: Shape, c: nat)
    requires WellFormed(m, t, s) && c in s.heads
    ensures var t' := UnlinkH(t, c);
      && LinkedH(t, c) && SameColumns(t, t') && MatrixOk(m, t') && ColumnsOk(t', s)
      && HeadsOk(t', Shape(Drop(s.heads, c), s.lists))
  {
    var w, k, t' := [ROOT] + s.heads, IndexOf(s.heads, c), UnlinkH(t, c);
    WithoutTail(ROOT, s.heads, k);
    RingLinkedH(t, w, k + 1);
    assert InH(t, w, k + 1) && w[0] == ROOT != c;
    UnlinkEffectH(t, c);
    UnlinkRingH(t, t', w, k + 1);
    SameColumnsOk(t, t', s);
    forall i | 0 <= i < |w|
      ensures w[i] < |t| && t[w[i]].col == w[i]
    {
      assert i > 0 ==> w[i] in s.heads;
    }
    MatrixKept(m, t, t');
  }

  lemma RemovablePrefix(t: seq<Node>, t': seq<Node>, s: Shape, c: nat, js: seq<nat>, ks: seq<nat>)
    requires Removable(t, s, c, js) && ks <= js && SameColumns(t, t')
    ensures Removable(t', s, c, ks)
  {
    assert forall k :: 0 <= k < |ks| ==> ks[k] == js[k];
  }

  /** In the middle of `cover(c)`, after the nodes `ks`, all columns are still rings and that of `c` is untouched. */
  lemma DuringCover(m: Matrix, t: seq<Node>, s: Shape, c: nat, ks: seq<nat>)
    requires WellFormed(m, t, s) && c in s.heads && AllCells(m, s.lists[c]) && ks <= Order(m, s.lists[c])
    ensures Removable(UnlinkH(t, c), s, c, ks)
    ensures var t' := Unlinked(UnlinkH(t, c), ks);
      MatrixOk(m, t') && ColumnOk(t', c, s.lists[c]) && ColumnsOk(t', DropAll(UnlinkH(t, c), s, ks))
    ensures Dropped(s, DropAll(UnlinkH(t, c), s, ks), c, ks)
  {
    var t1 := UnlinkH(t, c);
    CoverRemovable(m, t, s, c);
    UnlinkHeader(m, t, s, c);
    RemovablePrefix(t, t1, s, c, Order(m, s.lists[c]), ks);
    UnlinkedColumns(t1, s, c, ks);
    MatrixKept(m, t1, Unlinked(t1, ks));
  }

  lemma {:induction false} RelinkedUnlinked(t: seq<Node>, s: Shape, c: nat, js: seq<nat>)
    requires InRange(t) && ColumnsOk(t, s) && c in s.heads && Removable(t, s, c, js)
    ensures Relinked(Unlinked(t, js), js) == t
  {
    if js != [] {
      var ks, j := js[..|js| - 1], js[|js| - 1];
      LastUnlinked(t, s, c, js);
      RelinkedUnlinked(t, s, c, ks);
    }
  }

  /** The node unlinked last can be put back. */
  lemma LastUnlinked(t: seq<Node>, s: Shape, c: nat, js: seq<nat>)
    requires InRange(t) && ColumnsOk(t, s) && c in s.heads && Removable(t, s, c, js) && js != []
    ensures RelinkV(Unlinked(t, js), js[|js| - 1]) == Unlinked(t, js[..|js| - 1])
  {
    var ks, j := js[..|js| - 1], js[|js| - 1];
    UnlinkedColumns(t, s, c, ks);
    var t', s' := Unlinked(t, ks), DropAll(t, s, ks);
    DroppedStep(t', s, s', c, ks, j);
    ColumnLinked(t', t[j].col, s'.lists[t[j].col], j);
    RelinkUndoesUnlinkV(t', j);
  }

  /** `uncover(c)` after `cover(c)` restores every link and every size. */
  lemma UncoverUndoesCover(m: Matrix, t: seq<Node>, s: Shape, c: nat)
    requires WellFormed(m, t, s) && c in s.heads
    ensures var t' := Covered(m, t, s, c); var v := s.lists[c];
      && InRange(t') && |t'| == |t| && AllCells(m, v)
      && (forall k :: 0 <= k < |Order(m, v)| ==> Order(m, v)[k] < |t|)
      && Uncovered(m, t', v, c) == t
  {
    CoverRemovable(m, t, s, c);
    var js := Order(m, s.lists[c]);
    DuringCover(m, t, s, c, js);
    UnlinkHeader(m, t, s, c);
    RelinkedUnlinked(UnlinkH(t, c), s, c, js);
    RelinkUndoesUnlinkH(t, c);
  }

  /** Row `r` has a node in the list of column `c`. */
  ghost predicate Meets(m: Matrix, s: Shape, c: nat, r: nat) {
    c < |s.lists| && exists n :: n in s.lists[c] && IsCell(m, n) && m.rowOf[n] == r
  }

  lemma CoverVisits(m: Matrix, t: seq<Node>, s: Shape, c: nat, n: nat)
    requires WellFormed(m, t, s) && c in s.heads && Active(t, s, n) && AllCells(m, s.lists[c])
    ensures (n in Order(m, s.lists[c]) || t[n].col == c) <==> Meets(m, s, c, m.rowOf[n])
  {
    var v := s.lists[c];
    OrderElements(m, t, v, n);
    assert ColumnOk(t, c, v);
    if Meets(m, s, c, m.rowOf[n]) {
      var x :| x in v && IsCell(m, x) && m.rowOf[x] == m.rowOf[n];
      assert v[IndexOf(v, x)] == x;
    }
  }

  lemma ActiveDropped(t: seq<Node>, t': seq<Node>, s: Shape, s1: Shape, heads: seq<nat>, c: nat, js: seq<nat>, n: nat)
    requires |t'| == |t| && |s.lists| == |t| && Dropped(s, s1, c, js) && (n < |t| ==> t'[n].col == t[n].col)
    requires forall d :: d in heads <==> d in s.heads && d != c
    ensures Active(t', Shape(heads, s1.lists), n) <==> Active(t, s, n) && n !in js && t[n].col != c
  {
  }

  /** A node is still linked after `cover(c)` exactly if its row does not meet column `c`. */
  lemma CoverActive(m: Matrix, t: seq<Node>, s: Shape, c: nat, n: nat)
    requires WellFormed(m, t, s) && c in s.heads
    ensures Active(Covered(m, t, s, c), CoveredShape(m, t, s, c), n) <==>
      Active(t, s, n) && !Meets(m, s, c, m.rowOf[n])
  {
    CoverRemovable(m, t, s, c);
    var t1, js := UnlinkH(t, c), Order(m, s.lists[c]);
    DuringCover(m, t, s, c, js);
    HeadsDropped(t, s, c);
    UnlinkHeader(m, t, s, c);
    ActiveDropped(t, Unlinked(t1, js), s, DropAll(t1, s, js), Drop(s.heads, c), c, js, n);
    if Active(t, s, n) {
      CoverVisits(m, t, s, c, n);
    }
  }

  lemma HeadsDropped(t: seq<Node>, s: Shape, c: nat)
    requires HeadsOk(t, s)
    ensures forall d :: d in Drop(s.heads, c) <==> d in s.heads && d != c
    ensures Distinct(Drop(s.heads, c))
  {
    var w := [ROOT] + s.heads;
    assert forall i :: 0 <= i < |s.heads| ==> s.heads[i] == w[i + 1];
    DropElements(s.heads, c);
  }

  /** `cover(c)` keeps the torus well formed. */
  lemma CoverKeepsWellFormed(m: Matrix, t: seq<Node>, s: Shape, c: nat)
    requires WellFormed(m, t, s) && c in s.heads
    ensures WellFormed(m, Covered(m, t, s, c), CoveredShape(m, t, s, c))
  {
    CoverRemovable(m, t, s, c);
    var t', s' := Covered(m, t, s, c), CoveredShape(m, t, s, c);
    UnlinkHeader(m, t, s, c);
    DuringCover(m, t, s, c, Order(m, s.lists[c]));
    HeadsDropped(t, s, c);
    SameRowsRing(UnlinkH(t, c), t', [ROOT] + s'.heads);
    forall n: nat | Active(t', s', n)
      ensures IsCell(m, n) && RowActive(m, t', s', m.rowOf[n])
    {
      CoverActive(m, t, s, c, n);
      assert RowOk(m, t, m.rowOf[n]);
      forall k | 0 <= k < |m.rows[m.rowOf[n]]|
        ensures Active(t', s', m.rows[m.rowOf[n]][k])
      {
        CoverActive(m, t, s, c, m.rows[m.rowOf[n]][k]);
      }
    }
  }
}
