/**
  The rules of Sudoku and the exact-cover encoding that `sudoku/sudoku.cc` chooses: one column per
  empty cell and one per value that a row, column or box still lacks; one row per placement that no
  given forbids.
*/
module Sudoku {

  const CELLS := 81
  const ROWS := 1
  const COLS := 2
  const BOXES := 3

  /** Put `val` into `cell`. */
  datatype Move = Move(cell: nat, val: nat)

  /** The row, column or box of a cell. */
  function Unit(kind: nat, i: nat): (u: nat) {
    if kind == ROWS then i / 9 else if kind == COLS then i % 9 else i / 9 / 3 * 3 + i % 9 / 3
  }

  /** Zero marks an empty cell. */
  predicate Puzzle(b: seq<int>) {
    |b| == CELLS && forall i :: 0 <= i < CELLS ==> 0 <= b[i] <= 9
  }

  /** No row, column or box holds a value twice. */
  ghost predicate Legal(g: seq<int>)
    requires |g| == CELLS
  {
    forall kind, i, j :: ROWS <= kind <= BOXES && 0 <= i < j < CELLS && Unit(kind, i) == Unit(kind, j) ==> g[i] != g[j]
  }

  ghost predicate Completes(g: seq<int>, b: seq<int>) {
    && |g| == CELLS && |b| == CELLS
    && (forall i :: 0 <= i < CELLS ==> 1 <= g[i] <= 9 && (b[i] != 0 ==> g[i] == b[i]))
    && Legal(g)
  }

  // ----- the encoding

  /** Value `v` is given in unit `u`. */
  ghost predicate Used(b: seq<int>, kind: nat, u: nat, v: int)
    requires |b| == CELLS
  {
    exists i :: 0 <= i < CELLS && Unit(kind, i) == u && b[i] == v
  }

  function Name(kind: nat, u: nat, v: nat): (n: nat) {
    100 * kind + 10 * u + v
  }

  /** The names of the columns that exist. */
  ghost predicate Wanted(b: seq<int>, n: nat)
    requires |b| == CELLS
  {
    if n < 100 then n < CELLS && b[n] == 0
    else n < 400 && n % 100 / 10 <= 8 && n % 10 >= 1 && !Used(b, n / 100, n % 100 / 10, n % 10)
  }

  ghost predicate Candidate(b: seq<int>, l: Move)
    requires |b| == CELLS
  {
    && l.cell < CELLS && b[l.cell] == 0 && 1 <= l.val <= 9
    && !Used(b, ROWS, Unit(ROWS, l.cell), l.val)
    && !Used(b, COLS, Unit(COLS, l.cell), l.val)
    && !Used(b, BOXES, Unit(BOXES, l.cell), l.val)
  }

  function NamesOf(l: Move): (ns: seq<nat>)
    ensures |ns| == 4
  {
    [l.cell, Name(ROWS, Unit(ROWS, l.cell), l.val), Name(COLS, Unit(COLS, l.cell), l.val),
      Name(BOXES, Unit(BOXES, l.cell), l.val)]
  }

  /** The rows are the placements that no given forbids, each once. */
  ghost predicate Exact(b: seq<int>, labels: seq<Move>)
    requires |b| == CELLS
  {
    && (forall r :: 0 <= r < |labels| ==> Candidate(b, labels[r]))
    && (forall r, r' :: 0 <= r < r' < |labels| ==> labels[r] != labels[r'])
    && (forall l :: Candidate(b, l) ==> l in labels)
  }

  ghost predicate NamedOnce(labels: seq<Move>, R: set<nat>, n: nat) {
    exists r :: r in R && r < |labels| && n in NamesOf(labels[r]) &&
      forall r' :: r' in R && r' < |labels| && n in NamesOf(labels[r']) ==> r' == r
  }

  /** The rows `R` cover each column, by its name, exactly once. */
  ghost predicate CoversNames(b: seq<int>, labels: seq<Move>, R: set<nat>)
    requires |b| == CELLS
  {
    (forall r :: r in R ==> r < |labels|) && forall n :: 0 <= n < 400 && Wanted(b, n) ==> NamedOnce(labels, R, n)
  }

  lemma UnitBound(kind: nat, i: nat)
    requires i < CELLS
    ensures Unit(kind, i) <= 8
  {
  }

  /** A name tells its kind, unit and value. */
  lemma NameParts(kind: nat, u: nat, v: nat)
    requires ROWS <= kind <= BOXES && u <= 8 && 1 <= v <= 9
    ensures var n := Name(kind, u, v); 100 <= n < 400 && n / 100 == kind && n % 100 / 10 == u && n % 10 == v
  {
  }

  lemma NameInNames(l: Move, kind: nat, u: nat, v: nat)
    requires l.cell < CELLS && 1 <= l.val <= 9 && ROWS <= kind <= BOXES && u <= 8 && 1 <= v <= 9
    ensures Name(kind, u, v) in NamesOf(l) <==> Unit(kind, l.cell) == u && l.val == v
  {
    UnitBound(ROWS, l.cell);
    UnitBound(COLS, l.cell);
    UnitBound(BOXES, l.cell);
  }

  lemma CellInNames(l: Move, i: nat)
    requires l.cell < CELLS && i < CELLS
    ensures i in NamesOf(l) <==> l.cell == i
  {
  }

  // ----- nine cells, nine values

  /** The k-th cell of a unit. */
  ghost function Cell(kind: nat, u: nat, k: nat): (i: nat) {
    if kind == ROWS then 9 * u + k else if kind == COLS then 9 * k + u
    else (u / 3 * 3 + k / 3) * 9 + u % 3 * 3 + k % 3
  }

  ghost function Place(kind: nat, i: nat): (k: nat) {
    if kind == ROWS then i % 9 else if kind == COLS then i / 9 else i / 9 % 3 * 3 + i % 9 % 3
  }

  lemma Split9(a: nat, b: nat)
    requires b < 9
    ensures (9 * a + b) / 9 == a && (9 * a + b) % 9 == b
  {
  }

  lemma Split3(a: nat, b: nat)
    requires b < 3
    ensures (a * 3 + b) / 3 == a && (a * 3 + b) % 3 == b
  {
  }

  lemma CellPlace(kind: nat, u: nat, k: nat)
    requires ROWS <= kind <= BOXES && u <= 8 && k <= 8
    ensures Cell(kind, u, k) < CELLS && Unit(kind, Cell(kind, u, k)) == u && Place(kind, Cell(kind, u, k)) == k
  {
    if kind == ROWS {
      Split9(u, k);
    } else if kind == COLS {
      Split9(k, u);
    } else {
      var r, c := u / 3 * 3 + k / 3, u % 3 * 3 + k % 3;
      Split9(r, c);
      Split3(u / 3, k / 3);
      Split3(u % 3, k % 3);
      assert Cell(kind, u, k) == 9 * r + c;
    }
  }

  lemma PlaceCell(kind: nat, i: nat)
    requires ROWS <= kind <= BOXES && i < CELLS
    ensures Unit(kind, i) <= 8 && Place(kind, i) <= 8 && Cell(kind, Unit(kind, i), Place(kind, i)) == i
  {
    if kind == BOXES {
      var r, c := i / 9, i % 9;
      Split3(r / 3, c / 3);
      Split3(r % 3, c % 3);
    }
  }

  /** The values of a unit, cell by cell. */
  ghost function Values(g: seq<int>, kind: nat, u: nat): (f: seq<int>)
    requires |g| == CELLS && ROWS <= kind <= BOXES && u <= 8
    ensures |f| == 9
  {
    seq(9, k requires 0 <= k < 9 => CellPlace(kind, u, k); g[Cell(kind, u, k)])
  }

  ghost predicate NoRepeat(f: seq<int>) {
    forall i, j :: 0 <= i < j < |f| ==> f[i] != f[j]
  }

  lemma ValuesAt(g: seq<int>, kind: nat, i: nat)
    requires |g| == CELLS && ROWS <= kind <= BOXES && i < CELLS
    ensures Unit(kind, i) <= 8 && Place(kind, i) <= 8 && Values(g, kind, Unit(kind, i))[Place(kind, i)] == g[i]
  {
    PlaceCell(kind, i);
  }

  /** The distinct elements of a sequence are as many as its length exactly if nothing repeats. */
  lemma {:induction false} CountDistinct(f: seq<int>)
    ensures |set x | x in f| <= |f|
    ensures |set x | x in f| == |f| <==> NoRepeat(f)
  {
    var S := set x | x in f;
    if f == [] {
      assert S == {};
    } else {
      var h, x := f[..|f| - 1], f[|f| - 1];
      CountDistinct(h);
      var H := set y | y in h;
      assert f == h + [x];
      assert S == H + {x};
      if x in h {
        assert S == H;
        var i :| 0 <= i < |h| && h[i] == x;
        assert !(f[i] != f[|f| - 1]);
      } else {
        assert |S| == |H| + 1;
        assert NoRepeat(h) ==> NoRepeat(f);
        assert NoRepeat(f) ==> NoRepeat(h) by {
          assert forall i :: 0 <= i < |h| ==> h[i] == f[i];
        }
      }
    }
  }

  ghost function Upto(n: nat): (r: set<int>)
    ensures |r| == n && forall v :: v in r <==> 1 <= v <= n
  {
    if n == 0 then {} else Upto(n - 1) + {n}
  }

  lemma ValuesUpto(n: nat, S: set<int>)
    requires forall x :: x in S ==> 1 <= x <= n
    ensures |S| <= n && (|S| == n <==> forall v :: 1 <= v <= n ==> v in S)
  {
    var D := Upto(n);
    assert S <= D;
    assert D == S + (D - S);
    assert |D - S| == 0 <==> D - S == {};
  }

  /** Nine cells with values 1 to 9: nothing repeats exactly if every value occurs. */
  lemma Pigeonhole(f: seq<int>)
    requires |f| == 9 && forall k :: 0 <= k < 9 ==> 1 <= f[k] <= 9
    ensures NoRepeat(f) <==> forall v :: 1 <= v <= 9 ==> v in f
  {
    var S := set x | x in f;
    CountDistinct(f);
    ValuesUpto(9, S);
    assert forall v :: v in S <==> v in f;
  }

  /** Every value occurs in every unit. */
  ghost predicate AllOccur(g: seq<int>)
    requires |g| == CELLS
  {
    forall kind, u, v :: ROWS <= kind <= BOXES && 0 <= u <= 8 && 1 <= v <= 9 ==> Used(g, kind, u, v)
  }

  lemma UsedIsValue(g: seq<int>, kind: nat, u: nat, v: int)
    requires |g| == CELLS && ROWS <= kind <= BOXES && u <= 8
    ensures Used(g, kind, u, v) <==> v in Values(g, kind, u)
  {
    var f := Values(g, kind, u);
    if Used(g, kind, u, v) {
      var i :| 0 <= i < CELLS && Unit(kind, i) == u && g[i] == v;
      ValuesAt(g, kind, i);
    }
    if v in f {
      var k :| 0 <= k < 9 && f[k] == v;
      CellPlace(kind, u, k);
      assert Unit(kind, Cell(kind, u, k)) == u;
    }
  }

  /** A grid of values 1 to 9 is legal exactly if every value occurs in every unit. */
  lemma LegalIffAllOccur(g: seq<int>)
    requires |g| == CELLS && forall i :: 0 <= i < CELLS ==> 1 <= g[i] <= 9
    ensures Legal(g) <==> AllOccur(g)
  {
    hide Unit;
    if Legal(g) {
      forall kind, u, v | ROWS <= kind <= BOXES && 0 <= u <= 8 && 1 <= v <= 9
        ensures Used(g, kind, u, v)
      {
        LegalOccurs(g, kind, u, v);
      }
    }
    if AllOccur(g) {
      forall kind, i, j | ROWS <= kind <= BOXES && 0 <= i < j < CELLS && Unit(kind, i) == Unit(kind, j)
        ensures g[i] != g[j]
      {
        OccurDiffer(g, kind, i, j);
      }
    }
  }

  lemma ValuesRange(g: seq<int>, kind: nat, u: nat)
    requires |g| == CELLS && (forall i :: 0 <= i < CELLS ==> 1 <= g[i] <= 9) && ROWS <= kind <= BOXES && u <= 8
    ensures forall k :: 0 <= k < 9 ==> 1 <= Values(g, kind, u)[k] <= 9
  {
    forall k | 0 <= k < 9
      ensures 1 <= Values(g, kind, u)[k] <= 9
    {
      CellPlace(kind, u, k);
    }
  }

  lemma LegalOccurs(g: seq<int>, kind: nat, u: nat, v: int)
    requires |g| == CELLS && (forall i :: 0 <= i < CELLS ==> 1 <= g[i] <= 9) && Legal(g)
    requires ROWS <= kind <= BOXES && u <= 8 && 1 <= v <= 9
    ensures Used(g, kind, u, v)
  {
    hide Unit, Values, Used, Legal;
    LegalUnit(g, kind, u);
    ValuesRange(g, kind, u);
    Pigeonhole(Values(g, kind, u));
    UsedIsValue(g, kind, u, v);
  }

  lemma OccurDiffer(g: seq<int>, kind: nat, i: nat, j: nat)
    requires |g| == CELLS && (forall i :: 0 <= i < CELLS ==> 1 <= g[i] <= 9) && AllOccur(g)
    requires ROWS <= kind <= BOXES && i < j < CELLS && Unit(kind, i) == Unit(kind, j)
    ensures g[i] != g[j]
  {
    hide Unit, Values, Used, Cell, Place;
    var u := Unit(kind, i);
    ValuesAt(g, kind, i);
    ValuesAt(g, kind, j);
    forall v | 1 <= v <= 9
      ensures v in Values(g, kind, u)
    {
      UsedIsValue(g, kind, u, v);
    }
    ValuesRange(g, kind, u);
    Pigeonhole(Values(g, kind, u));
    PlaceCell(kind, i);
    PlaceCell(kind, j);
  }

  lemma LegalUnit(g: seq<int>, kind: nat, u: nat)
    requires |g| == CELLS && Legal(g) && ROWS <= kind <= BOXES && u <= 8
    ensures NoRepeat(Values(g, kind, u))
  {
    var f := Values(g, kind, u);
    forall k, l | 0 <= k < l < 9
      ensures f[k] != f[l]
    {
      CellPlace(kind, u, k);
      CellPlace(kind, u, l);
      var i, j := Cell(kind, u, k), Cell(kind, u, l);
      assert Unit(kind, i) == Unit(kind, j);
      assert i != j;
    }
  }

  // ----- the encoding is right

  /** The board `g` holds the givens of `b` and the moves of the rows `R`. */
  ghost predicate Plays(g: seq<int>, b: seq<int>, labels: seq<Move>, R: set<nat>) {
    && |g| == CELLS && |b| == CELLS
    && (forall i :: 0 <= i < CELLS && b[i] != 0 ==> g[i] == b[i])
    && (forall r :: r in R && r < |labels| && labels[r].cell < CELLS ==> g[labels[r].cell] == labels[r].val)
  }

  lemma PlayedValue(g: seq<int>, b: seq<int>, labels: seq<Move>, R: set<nat>, i: nat)
    requires Puzzle(b) && Exact(b, labels) && CoversNames(b, labels, R) && Plays(g, b, labels, R) && i < CELLS
    ensures 1 <= g[i] <= 9
  {
    if b[i] == 0 {
      assert Wanted(b, i);
      assert NamedOnce(labels, R, i);
      var r :| r in R && r < |labels| && i in NamesOf(labels[r]);
      CellInNames(labels[r], i);
    }
  }

  lemma PlayedUnit(g: seq<int>, b: seq<int>, labels: seq<Move>, R: set<nat>, kind: nat, u: nat, v: nat)
    requires Puzzle(b) && Exact(b, labels) && CoversNames(b, labels, R) && Plays(g, b, labels, R)
    requires ROWS <= kind <= BOXES && u <= 8 && 1 <= v <= 9
    ensures Used(g, kind, u, v)
  {
    if Used(b, kind, u, v) {
      var i :| 0 <= i < CELLS && Unit(kind, i) == u && b[i] == v;
      assert g[i] == v;
    } else {
      var n := Name(kind, u, v);
      NameParts(kind, u, v);
      assert Wanted(b, n);
      assert NamedOnce(labels, R, n);
      var r :| r in R && r < |labels| && n in NamesOf(labels[r]);
      NameInNames(labels[r], kind, u, v);
      assert Unit(kind, labels[r].cell) == u;
    }
  }

  /**
    An exact cover plays a legal completion. Nothing is asked of the givens: if two givens clash, some
    unit has more values to place than empty cells, and no cover exists.
  */
  lemma CoverCompletes(g: seq<int>, b: seq<int>, labels: seq<Move>, R: set<nat>)
    requires Puzzle(b) && Exact(b, labels) && CoversNames(b, labels, R) && Plays(g, b, labels, R)
    ensures Completes(g, b)
  {
    forall i | 0 <= i < CELLS
      ensures 1 <= g[i] <= 9
    {
      PlayedValue(g, b, labels, R, i);
    }
    forall kind, u, v | ROWS <= kind <= BOXES && 0 <= u <= 8 && 1 <= v <= 9
      ensures Used(g, kind, u, v)
    {
      PlayedUnit(g, b, labels, R, kind, u, v);
    }
    LegalIffAllOccur(g);
  }

  /** The rows whose move the grid `g` makes. */
  ghost function RowsPlayed(g: seq<int>, labels: seq<Move>): (R: set<nat>)
    requires |g| == CELLS
  {
    set r: nat | r < |labels| && labels[r].cell < CELLS && g[labels[r].cell] == labels[r].val
  }

  /** A completion only makes moves that no given forbids. */
  lemma CompletionIsCandidate(g: seq<int>, b: seq<int>, i: nat)
    requires Puzzle(b) && Completes(g, b) && i < CELLS && b[i] == 0
    ensures Candidate(b, Move(i, g[i]))
  {
    forall kind | ROWS <= kind <= BOXES
      ensures !Used(b, kind, Unit(kind, i), g[i])
    {
      forall j | 0 <= j < CELLS && Unit(kind, j) == Unit(kind, i)
        ensures b[j] != g[i]
      {
        assert j != i ==> g[j] != g[i];
      }
    }
  }

  lemma RowOfMove(g: seq<int>, b: seq<int>, labels: seq<Move>, i: nat) returns (r: nat)
    requires Puzzle(b) && Exact(b, labels) && Completes(g, b) && i < CELLS && b[i] == 0
    ensures r in RowsPlayed(g, labels) && r < |labels| && labels[r] == Move(i, g[i])
  {
    CompletionIsCandidate(g, b, i);
    assert Move(i, g[i]) in labels;
    r :| 0 <= r < |labels| && labels[r] == Move(i, g[i]);
  }

  lemma PlayedOnceInCell(g: seq<int>, b: seq<int>, labels: seq<Move>, i: nat)
    requires Puzzle(b) && Exact(b, labels) && Completes(g, b) && i < CELLS && b[i] == 0
    ensures NamedOnce(labels, RowsPlayed(g, labels), i)
  {
    var r := RowOfMove(g, b, labels, i);
    CellInNames(labels[r], i);
    forall r' | r' in RowsPlayed(g, labels) && r' < |labels| && i in NamesOf(labels[r'])
      ensures r' == r
    {
      CellInNames(labels[r'], i);
      assert labels[r'] == labels[r];
    }
  }

  lemma PlayedOnceInUnit(g: seq<int>, b: seq<int>, labels: seq<Move>, kind: nat, u: nat, v: nat)
    requires Puzzle(b) && Exact(b, labels) && Completes(g, b)
    requires ROWS <= kind <= BOXES && u <= 8 && 1 <= v <= 9 && !Used(b, kind, u, v)
    ensures NamedOnce(labels, RowsPlayed(g, labels), Name(kind, u, v))
  {
    LegalIffAllOccur(g);
    assert Used(g, kind, u, v);
    var i :| 0 <= i < CELLS && Unit(kind, i) == u && g[i] == v;
    assert b[i] == 0;
    var r := RowOfMove(g, b, labels, i);
    NameInNames(labels[r], kind, u, v);
    forall r' | r' in RowsPlayed(g, labels) && r' < |labels| && Name(kind, u, v) in NamesOf(labels[r'])
      ensures r' == r
    {
      NameInNames(labels[r'], kind, u, v);
      assert Unit(kind, labels[r'].cell) == Unit(kind, i);
      assert labels[r'].cell == i;
      assert labels[r'] == labels[r];
    }
  }

  /** Every legal completion is an exact cover. */
  lemma CompletionCovers(g: seq<int>, b: seq<int>, labels: seq<Move>)
    requires Puzzle(b) && Exact(b, labels) && Completes(g, b)
    ensures CoversNames(b, labels, RowsPlayed(g, labels))
  {
    var R := RowsPlayed(g, labels);
    forall n | 0 <= n < 400 && Wanted(b, n)
      ensures NamedOnce(labels, R, n)
    {
      if n < 100 {
        PlayedOnceInCell(g, b, labels, n);
      } else {
        var kind, u, v := n / 100, n % 100 / 10, n % 10;
        assert n == Name(kind, u, v);
        PlayedOnceInUnit(g, b, labels, kind, u, v);
      }
    }
  }
}
