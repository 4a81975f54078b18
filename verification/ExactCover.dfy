/** The exact-cover problem itself, on plain sets, and the step by which Algorithm X splits it. */
module ExactCover {

  /** Columns to cover, rows that may be used, and the columns of every row. */
  datatype Problem = Problem(heads: set<nat>, rows: set<nat>, cols: seq<set<nat>>)

  /** Rows only lie in columns that are still to be covered. */
  ghost predicate Sound(p: Problem) {
    forall r :: r in p.rows ==> r < |p.cols| && p.cols[r] <= p.heads
  }

  ghost predicate CoversOnce(p: Problem, R: set<nat>, c: nat) {
    exists r :: r in R && r < |p.cols| && c in p.cols[r] &&
      forall r' :: r' in R && r' < |p.cols| && c in p.cols[r'] ==> r' == r
  }

  /** `R` covers every column exactly once. */
  ghost predicate IsCover(p: Problem, R: set<nat>) {
    R <= p.rows && forall c :: c in p.heads ==> CoversOnce(p, R, c)
  }

  /** The problem without the columns `C` and without the rows that meet them. */
  ghost function Reduced(p: Problem, C: set<nat>): (q: Problem)
    requires Sound(p)
    ensures Sound(q)
  {
    Problem(p.heads - C, (set r | r in p.rows && p.cols[r] !! C), p.cols)
  }

  /** Row `r` together with a cover of what it leaves is a cover. */
  lemma ExtendCover(p: Problem, r: nat, R: set<nat>)
    requires Sound(p) && r in p.rows && p.cols[r] != {} && IsCover(Reduced(p, p.cols[r]), R)
    ensures r !in R && IsCover(p, R + {r})
  {
    var q := Reduced(p, p.cols[r]);
    forall c | c in p.heads
      ensures CoversOnce(p, R + {r}, c)
    {
      if c in p.cols[r] {
        assert forall r' :: r' in R + {r} && c in p.cols[r'] ==> r' == r;
      } else {
        assert CoversOnce(q, R, c);
        var x :| x in R && x < |q.cols| && c in q.cols[x] &&
          forall r' :: r' in R && r' < |q.cols| && c in q.cols[r'] ==> r' == x;
        assert forall r' :: r' in R + {r} && r' < |p.cols| && c in p.cols[r'] ==> r' == x;
      }
    }
  }

  /** A cover that uses row `r` leaves a cover of what remains. */
  lemma ShrinkCover(p: Problem, r: nat, R: set<nat>)
    requires Sound(p) && IsCover(p, R) && r in R
    ensures IsCover(Reduced(p, p.cols[r]), R - {r})
  {
    var q := Reduced(p, p.cols[r]);
    forall x | x in R - {r}
      ensures p.cols[x] !! p.cols[r]
    {
      forall c | c in p.cols[x]
        ensures c !in p.cols[r]
      {
        assert CoversOnce(p, R, c);
      }
    }
    forall c | c in q.heads
      ensures CoversOnce(q, R - {r}, c)
    {
      assert CoversOnce(p, R, c);
      var x :| x in R && x < |p.cols| && c in p.cols[x] &&
        forall r' :: r' in R && r' < |p.cols| && c in p.cols[r'] ==> r' == x;
      assert x in R - {r};
    }
  }

  /** Every cover uses some row through the column `c`. */
  lemma CoverUsesColumn(p: Problem, c: nat, R: set<nat>) returns (r: nat)
    requires Sound(p) && IsCover(p, R) && c in p.heads
    ensures r in R && r in p.rows && c in p.cols[r]
  {
    assert CoversOnce(p, R, c);
    r :| r in R && r < |p.cols| && c in p.cols[r];
  }

  lemma ReducedTwice(p: Problem, C: set<nat>, D: set<nat>)
    requires Sound(p)
    ensures Reduced(Reduced(p, C), D) == Reduced(p, C + D)
  {
    assert forall r :: r in p.rows ==> (p.cols[r] !! C && p.cols[r] !! D <==> p.cols[r] !! C + D);
  }
}
