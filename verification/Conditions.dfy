/**
  Condition variables as the monitors of `muduo/base` use them. A step is what a thread does between
  taking the mutex and releasing it or waiting. Threads may be woken spuriously, and a thread that
  comes late may take the mutex before one that was signalled.
*/
module Conditions {

  /** A condition variable: threads that wait, and threads woken but not back in the mutex yet. */
  datatype Condition = Condition(waiting: set<nat>, woken: set<nat>)

  const IDLE := Condition({}, {})

  predicate Uses(c: Condition, t: nat) {
    t in c.waiting || t in c.woken
  }

  ghost predicate Sound(c: Condition) {
    c.waiting !! c.woken
  }

  /** While somebody waits, there are at least as many woken threads as things to be had: no wakeup is lost. */
  ghost predicate NoneLost(c: Condition, available: int) {
    Sound(c) && (c.waiting != {} ==> available <= |c.woken|)
  }

  function Wait(c: Condition, t: nat): (r: Condition) {
    Condition(c.waiting + {t}, c.woken - {t})
  }

  function Wake(c: Condition, t: nat): (r: Condition) {
    Condition(c.waiting - {t}, c.woken + {t})
  }

  function WakeAll(c: Condition): (r: Condition) {
    Condition({}, c.woken + c.waiting)
  }

  function Leave(c: Condition, t: nat): (r: Condition) {
    Condition(c.waiting, c.woken - {t})
  }

  /** One waiting thread, any one, is woken if there is one. */
  ghost predicate Signalled(c: Condition, r: Condition) {
    if c.waiting == {} then r == c else exists t :: t in c.waiting && r == Wake(c, t)
  }

  /** `notify`. */
  method Notify(c: Condition) returns (r: Condition)
    ensures Signalled(c, r)
  {
    r := c;
    if c.waiting != {} {
      var t :| t in c.waiting;
      r := Wake(c, t);
    }
  }

  /** One more thing to be had, and one thread woken for it. */
  lemma NotifyKeeps(c: Condition, r: Condition, available: int)
    requires NoneLost(c, available) && Signalled(c, r)
    ensures NoneLost(r, available + 1) && r.waiting <= c.waiting && forall u :: Uses(r, u) <==> Uses(c, u)
  {
    if c.waiting != {} {
      var t :| t in c.waiting && r == Wake(c, t);
      assert |c.woken + {t}| == |c.woken| + 1;
    }
  }

  /** A woken thread takes one thing. */
  lemma LeaveKeeps(c: Condition, t: nat, available: int)
    requires NoneLost(c, available) && t in c.woken
    ensures NoneLost(Leave(c, t), available - 1) && !Uses(Leave(c, t), t)
  {
    assert c.woken == (c.woken - {t}) + {t};
  }

  lemma NotUsed(c: Condition, t: nat)
    requires !Uses(c, t)
    ensures Leave(c, t) == c
  {
    assert c.woken - {t} == c.woken;
  }

  /** A thread that was not woken takes one thing before those that were. */
  lemma BargeKeeps(c: Condition, available: int)
    requires NoneLost(c, available)
    ensures NoneLost(c, available - 1)
  {
  }

  /** A thread that finds nothing waits. */
  lemma WaitKeeps(c: Condition, t: nat, available: int)
    requires NoneLost(c, available) && available <= 0
    ensures NoneLost(Wait(c, t), available)
  {
  }

  /** With nobody waiting, nothing can be lost. */
  lemma LessOrMore(c: Condition, available: int, other: int)
    requires NoneLost(c, available) && c.waiting == {}
    ensures NoneLost(c, other)
  {
  }

  /** After `notifyAll` nobody waits, whatever there is to be had. */
  lemma WakeAllKeeps(c: Condition, available: int, any: int)
    requires NoneLost(c, available)
    ensures NoneLost(WakeAll(c), any) && WakeAll(c).waiting == {} && forall u :: Uses(WakeAll(c), u) <==> Uses(c, u)
  {
  }

  /** A spurious wakeup. */
  lemma WakeKeeps(c: Condition, t: nat, available: int)
    requires NoneLost(c, available) && t in c.waiting
    ensures NoneLost(Wake(c, t), available) && Wake(c, t).waiting <= c.waiting
    ensures forall u :: Uses(Wake(c, t), u) <==> Uses(c, u)
  {
    assert |c.woken + {t}| == |c.woken| + 1;
  }
}
