/**
  The four-way linked torus of `sudoku/sudoku.cc`: nodes, the elementary unlink and relink steps of
  `cover` and `uncover`, and what they do to the rings the nodes are linked in. A pointer is an
  index into the node array; the whole array is the value the lemmas speak about.
*/
module Torus {

  datatype Node = Node(left: nat, right: nat, up: nat, down: nat, col: nat, name: nat, size: int)

  const ROOT := 0

  /** Every pointer points into the array. */
  ghost predicate InRange(t: seq<Node>) {
    forall i :: 0 <= i < |t| ==>
      t[i].left < |t| && t[i].right < |t| && t[i].up < |t| && t[i].down < |t| && t[i].col < |t|
  }

  /** Everything but the vertical links and the column sizes is the same in both. */
  ghost predicate SameRows(t: seq<Node>, t': seq<Node>) {
    |t| == |t'| && forall i :: 0 <= i < |t| ==>
      t'[i].left == t[i].left && t'[i].right == t[i].right && t'[i].col == t[i].col && t'[i].name == t[i].name
  }

  // ----- elementary steps

  ghost function SetLeft(t: seq<Node>, i: nat, x: nat): (r: seq<Node>)
    requires InRange(t) && i < |t| && x < |t|
    ensures InRange(r) && |r| == |t|
  {
    t[i := t[i].(left := x)]
  }

  ghost function SetRight(t: seq<Node>, i: nat, x: nat): (r: seq<Node>)
    requires InRange(t) && i < |t| && x < |t|
    ensures InRange(r) && |r| == |t|
  {
    t[i := t[i].(right := x)]
  }

  ghost function SetUp(t: seq<Node>, i: nat, x: nat): (r: seq<Node>)
    requires InRange(t) && i < |t| && x < |t|
    ensures InRange(r) && SameRows(t, r)
  {
    t[i := t[i].(up := x)]
  }

  ghost function SetDown(t: seq<Node>, i: nat, x: nat): (r: seq<Node>)
    requires InRange(t) && i < |t| && x < |t|
    ensures InRange(r) && SameRows(t, r)
  {
    t[i := t[i].(down := x)]
  }

  ghost function AddSize(t: seq<Node>, i: nat, d: int): (r: seq<Node>)
    requires InRange(t) && i < |t|
    ensures InRange(r) && SameRows(t, r)
  {
    t[i := t[i].(size := t[i].size + d)]
  }

  /** The body of the inner loop of `cover`: take `j` out of its column. */
  ghost function UnlinkV(t: seq<Node>, j: nat): (r: seq<Node>)
    requires InRange(t) && j < |t|
    ensures InRange(r) && SameRows(t, r)
  {
    var t1 := SetUp(t, t[j].down, t[j].up);
    var t2 := SetDown(t1, t1[j].up, t1[j].down);
    AddSize(t2, t2[j].col, -1)
  }

  /** The body of the inner loop of `uncover`: put `j` back into its column. */
  ghost function RelinkV(t: seq<Node>, j: nat): (r: seq<Node>)
    requires InRange(t) && j < |t|
    ensures InRange(r) && SameRows(t, r)
  {
    var t1 := AddSize(t, t[j].col, 1);
    var t2 := SetUp(t1, t1[j].down, j);
    SetDown(t2, t2[j].up, j)
  }

  /** The first two statements of `cover`: take the header `c` out of the header ring. */
  ghost function UnlinkH(t: seq<Node>, c: nat): (r: seq<Node>)
    requires InRange(t) && c < |t|
    ensures InRange(r) && |r| == |t|
  {
    var t1 := SetLeft(t, t[c].right, t[c].left);
    SetRight(t1, t1[c].left, t1[c].right)
  }

  /** The last two statements of `uncover`. */
  ghost function RelinkH(t: seq<Node>, c: nat): (r: seq<Node>)
    requires InRange(t) && c < |t|
    ensures InRange(r) && |r| == |t|
  {
    var t1 := SetLeft(t, t[c].right, c);
    SetRight(t1, t1[c].left, c)
  }

  /** `j` is linked: its vertical neighbours point back at it. */
  ghost predicate LinkedV(t: seq<Node>, j: nat)
    requires InRange(t) && j < |t|
  {
    t[t[j].down].up == j && t[t[j].up].down == j
  }

  ghost predicate LinkedH(t: seq<Node>, c: nat)
    requires InRange(t) && c < |t|
  {
    t[t[c].right].left == c && t[t[c].left].right == c
  }

  lemma RelinkUndoesUnlinkV(t: seq<Node>, j: nat)
    requires InRange(t) && j < |t| && LinkedV(t, j)
    ensures RelinkV(UnlinkV(t, j), j) == t
  {
    var t1 := SetUp(t, t[j].down, t[j].up);
    var t2 := SetDown(t1, t1[j].up, t1[j].down);
    SizeBack(t2, t2[j].col);
    LinksBack(t, j);
    hide SetUp, SetDown;
  }

  lemma SizeBack(t: seq<Node>, c: nat)
    requires InRange(t) && c < |t|
    ensures AddSize(AddSize(t, c, -1), c, 1) == t
  {
  }

  lemma LinksBack(t: seq<Node>, j: nat)
    requires InRange(t) && j < |t| && LinkedV(t, j)
    ensures var t1 := SetUp(t, t[j].down, t[j].up); var t2 := SetDown(t1, t1[j].up, t1[j].down);
      var t3 := SetUp(t2, t2[j].down, j); SetDown(t3, t3[j].up, j) == t
  {
  }

  lemma RelinkUndoesUnlinkH(t: seq<Node>, c: nat)
    requires InRange(t) && c < |t| && LinkedH(t, c)
    ensures RelinkH(UnlinkH(t, c), c) == t
  {
  }

  // ----- rings

  ghost predicate Distinct(w: seq<nat>) {
    forall i, j :: 0 <= i < j < |w| ==> w[i] != w[j]
  }

  ghost function Next(w: seq<nat>, i: nat): (r: nat)
    requires i < |w|
  {
    if i + 1 < |w| then w[i + 1] else w[0]
  }

  ghost function Prev(w: seq<nat>, i: nat): (r: nat)
    requires i < |w|
  {
    if i > 0 then w[i - 1] else w[|w| - 1]
  }

  ghost predicate InV(t: seq<Node>, w: seq<nat>, i: nat) {
    i < |w| && w[i] < |t| && t[w[i]].down == Next(w, i) && t[w[i]].up == Prev(w, i)
  }

  ghost predicate InH(t: seq<Node>, w: seq<nat>, i: nat) {
    i < |w| && w[i] < |t| && t[w[i]].right == Next(w, i) && t[w[i]].left == Prev(w, i)
  }

  /** `w` lists a closed ring of vertical links. */
  ghost predicate RingV(t: seq<Node>, w: seq<nat>) {
    |w| > 0 && Distinct(w) && forall i :: 0 <= i < |w| ==> InV(t, w, i)
  }

  /** `w` lists a closed ring of horizontal links. */
  ghost predicate RingH(t: seq<Node>, w: seq<nat>) {
    |w| > 0 && Distinct(w) && forall i :: 0 <= i < |w| ==> InH(t, w, i)
  }

  ghost function Without(w: seq<nat>, k: nat): (r: seq<nat>)
    requires k < |w|
    ensures |r| == |w| - 1
    ensures forall i :: 0 <= i < |r| ==> r[i] == if i < k then w[i] else w[i + 1]
  {
    w[..k] + w[k + 1..]
  }

  lemma RingLinkedV(t: seq<Node>, w: seq<nat>, k: nat)
    requires InRange(t) && RingV(t, w) && k < |w|
    ensures w[k] < |t| && LinkedV(t, w[k])
  {
    assert InV(t, w, k);
    assert InV(t, w, if k + 1 < |w| then k + 1 else 0);
    assert InV(t, w, if k > 0 then k - 1 else |w| - 1);
  }

  lemma RingLinkedH(t: seq<Node>, w: seq<nat>, k: nat)
    requires InRange(t) && RingH(t, w) && k < |w|
    ensures w[k] < |t| && LinkedH(t, w[k])
  {
    assert InH(t, w, k);
    assert InH(t, w, if k + 1 < |w| then k + 1 else 0);
    assert InH(t, w, if k > 0 then k - 1 else |w| - 1);
  }

  /** What unlinking writes: only the neighbours of `j` and the size of its column change. */
  ghost predicate UnlinksV(t: seq<Node>, t': seq<Node>, j: nat)
    requires j < |t|
  {
    |t'| == |t| && forall i :: 0 <= i < |t| ==>
      t'[i] == t[i].(up := if i == t[j].down then t[j].up else t[i].up,
                     down := if i == t[j].up then t[j].down else t[i].down,
                     size := if i == t[j].col then t[i].size - 1 else t[i].size)
  }

  ghost predicate UnlinksH(t: seq<Node>, t': seq<Node>, c: nat)
    requires c < |t|
  {
    |t'| == |t| && forall i :: 0 <= i < |t| ==>
      t'[i] == t[i].(left := if i == t[c].right then t[c].left else t[i].left,
                     right := if i == t[c].left then t[c].right else t[i].right)
  }

  lemma UnlinkEffectV(t: seq<Node>, j: nat)
    requires InRange(t) && j < |t| && t[j].down != j && t[j].up != j
    ensures UnlinksV(t, UnlinkV(t, j), j)
  {
  }

  lemma UnlinkEffectH(t: seq<Node>, c: nat)
    requires InRange(t) && c < |t| && t[c].right != c && t[c].left != c
    ensures UnlinksH(t, UnlinkH(t, c), c)
  {
  }

  /** Next and Prev of a ring that lost its k-th member. */
  lemma WithoutRing(w: seq<nat>, k: nat, i: nat)
    requires Distinct(w) && 0 < k < |w| && i < |w| - 1
    ensures var x := Without(w, k); var i' := if i < k then i else i + 1;
      && Next(x, i) == (if x[i] == Prev(w, k) then Next(w, k) else Next(w, i'))
      && Prev(x, i) == (if x[i] == Next(w, k) then Prev(w, k) else Prev(w, i'))
  {
  }

  lemma WithoutDistinct(w: seq<nat>, k: nat)
    requires Distinct(w) && k < |w|
    ensures Distinct(Without(w, k)) && w[k] !in Without(w, k)
  {
  }

  /** Unlinking a node leaves the ring without it. */
  lemma UnlinkRingV(t: seq<Node>, t': seq<Node>, w: seq<nat>, k: nat)
    requires RingV(t, w) && 0 < k < |w| && w[k] < |t| && UnlinksV(t, t', w[k])
    ensures RingV(t', Without(w, k))
  {
    var x := Without(w, k);
    WithoutDistinct(w, k);
    assert InV(t, w, k);
    forall i | 0 <= i < |x|
      ensures InV(t', x, i)
    {
      WithoutRing(w, k, i);
      assert InV(t, w, if i < k then i else i + 1);
    }
  }

  lemma UnlinkRingH(t: seq<Node>, t': seq<Node>, w: seq<nat>, k: nat)
    requires RingH(t, w) && 0 < k < |w| && w[k] < |t| && UnlinksH(t, t', w[k])
    ensures RingH(t', Without(w, k))
  {
    var x := Without(w, k);
    WithoutDistinct(w, k);
    assert InH(t, w, k);
    forall i | 0 <= i < |x|
      ensures InH(t', x, i)
    {
      WithoutRing(w, k, i);
      assert InH(t, w, if i < k then i else i + 1);
    }
  }
}
