/** The task queue of `muduo/base/ThreadPool.cc` as a monitor with two conditions and a stop flag. */
module ThreadPool {
  import opened Conditions

  /** Tasks are numbers. `Start` of `run` and `take`, and their return from `wait`. */
  datatype Event = Run(t: nat, task: nat) | RunAgain(t: nat) | Take(t: nat) | TakeAgain(t: nat)
    | SpuriousRun(t: nat) | SpuriousTake(t: nat) | Stop

  class ThreadPool {
    const maxQueueSize: nat       // 0: no bound
    var queue: seq<nat>
    var running: bool
    var notEmpty: Condition
    var notFull: Condition
    var holding: map<nat, nat>
    ghost var accepted: seq<nat>
    ghost var taken: seq<nat>
    ghost var handled: seq<Event>

    constructor (max: nat)
      ensures Valid() && running && maxQueueSize == max && accepted == [] && handled == []
    {
      maxQueueSize, queue, running, notEmpty, notFull, holding := max, [], true, IDLE, IDLE, map[];
      accepted, taken, handled := [], [], [];
    }

    predicate IsFull()
      reads this
    {
      maxQueueSize > 0 && |queue| >= maxQueueSize
    }

    ghost function Free(): (n: int)
      reads this
    {
      maxQueueSize - |queue|
    }

    /**
      Tasks are taken in the order in which they were accepted, within the bound; while the pool runs no
      wakeup is lost; once it is stopped nobody waits.
    */
    ghost predicate Valid()
      reads this
    {
      && taken + queue == accepted && (maxQueueSize > 0 ==> |queue| <= maxQueueSize)
      && NoneLost(notEmpty, |queue|) && NoneLost(notFull, Free())
      && (maxQueueSize == 0 ==> notFull.waiting == {})
      && (!running ==> notEmpty.waiting == {} && notFull.waiting == {})
      && forall t :: Uses(notFull, t) ==> t in holding
    }

    /** A taken task makes room for one thread, if there is a bound. */
    ghost predicate FullSignalled(was: Condition, taken: bool)
      reads this
    {
      if taken && maxQueueSize > 0 then Signalled(was, notFull) else notFull == was
    }

    /** `run` with worker threads, from the lock to its end, or to its wait. */
    method RunSection(t: nat, task: nat, again: bool)
      requires Valid() && t in holding && holding[t] == task
        && (if again then t in notFull.woken else !Uses(notFull, t))
      modifies this`queue, this`notEmpty, this`notFull, this`accepted
      ensures Valid()
      ensures running && !old(IsFull()) ==>
        && queue == old(queue) + [task] && accepted == old(accepted) + [task] && Signalled(old(notEmpty), notEmpty)
      ensures !running || old(IsFull()) ==>
        queue == old(queue) && accepted == old(accepted) && notEmpty == old(notEmpty)
      ensures notFull == if running && old(IsFull()) then Wait(old(notFull), t) else Leave(old(notFull), t)
    {
      hide NoneLost, Wake, Signalled, Leave;
      if IsFull() && running {
        WaitKeeps(notFull, t, Free());
        notFull := Wait(notFull, t);
      } else {
        LeaveFull(t, again);
        if running {
          PushTask(task);
        } else {
          LessOrMore(notFull, Free() - 1, Free());
        }
      }
    }

    /** A thread that need not wait any more, woken or not. */
    method LeaveFull(t: nat, again: bool)
      requires NoneLost(notFull, Free()) && (if again then t in notFull.woken else !Uses(notFull, t))
      modifies this`notFull
      ensures NoneLost(notFull, Free() - 1) && notFull == Leave(old(notFull), t) && !Uses(notFull, t)
      ensures notFull.waiting == old(notFull).waiting && forall u :: Uses(notFull, u) ==> old(Uses(notFull, u))
    {
      hide NoneLost, Wake, Signalled;
      if again {
        LeaveKeeps(notFull, t, Free());
        notFull := Leave(notFull, t);
      } else {
        BargeKeeps(notFull, Free());
        NotUsed(notFull, t);
      }
    }

    method PushTask(task: nat)
      requires taken + queue == accepted && NoneLost(notEmpty, |queue|)
      modifies this`queue, this`notEmpty, this`accepted
      ensures queue == old(queue) + [task] && accepted == old(accepted) + [task] && taken + queue == accepted
      ensures NoneLost(notEmpty, |queue|) && Signalled(old(notEmpty), notEmpty)
    {
      hide NoneLost, Wake, Signalled;
      var before := notEmpty;
      notEmpty := Notify(notEmpty);
      NotifyKeeps(before, notEmpty, |queue|);
      queue := queue + [task];
      accepted := accepted + [task];
      assert taken + queue == (taken + old(queue)) + [task];
    }

    /** `take` from the lock to its end, or to its wait; no task comes back only from a stopped pool. */
    method TakeSection(t: nat, again: bool) returns (task: seq<nat>)
      requires Valid() && (if again then t in notEmpty.woken else !Uses(notEmpty, t))
      modifies this`queue, this`notEmpty, this`notFull, this`taken
      ensures Valid() && taken == old(taken) + task && accepted == old(accepted)
      ensures old(queue) != [] ==> task == [old(queue)[0]] && queue == old(queue)[1..]
      ensures old(queue) == [] ==> task == [] && queue == []
      ensures notEmpty == if old(queue) == [] && running then Wait(old(notEmpty), t) else Leave(old(notEmpty), t)
      ensures FullSignalled(old(notFull), old(queue) != [])
    {
      hide NoneLost, Wake, Signalled;
      task := [];
      if |queue| == 0 && running {
        WaitKeeps(notEmpty, t, 0);
        notEmpty := Wait(notEmpty, t);
        return;
      }
      if again {
        LeaveKeeps(notEmpty, t, |queue|);
        notEmpty := Leave(notEmpty, t);
      } else {
        BargeKeeps(notEmpty, |queue|);
        NotUsed(notEmpty, t);
      }
      if |queue| > 0 {
        task := [queue[0]];
        TakeFront();
      } else {
        LessOrMore(notEmpty, -1, 0);
      }
    }

    method TakeFront()
      requires queue != [] && taken + queue == accepted && NoneLost(notFull, Free())
      requires maxQueueSize == 0 || !running ==> notFull.waiting == {}
      modifies this`queue, this`notFull, this`taken
      ensures queue == old(queue)[1..] && taken == old(taken) + [old(queue)[0]] && taken + queue == accepted
      ensures NoneLost(notFull, Free()) && notFull.waiting <= old(notFull).waiting && FullSignalled(old(notFull), true)
      ensures forall u :: Uses(notFull, u) <==> old(Uses(notFull, u))
    {
      hide NoneLost, Wake, Signalled;
      assert queue == [queue[0]] + queue[1..];
      taken := taken + [queue[0]];
      queue := queue[1..];
      assert old(taken) + old(queue) == taken + queue;
      if maxQueueSize > 0 {
        var before := notFull;
        notFull := Notify(notFull);
        NotifyKeeps(before, notFull, maxQueueSize - |old(queue)|);
      } else {
        LessOrMore(notFull, old(Free()), Free());
      }
    }

    /** `stop` wakes everybody, and nobody waits again. */
    method StopPool()
      requires Valid()
      modifies this`running, this`notEmpty, this`notFull
      ensures Valid() && !running && notEmpty == WakeAll(old(notEmpty)) && notFull == WakeAll(old(notFull))
      ensures notEmpty.waiting == {} && notFull.waiting == {}
    {
      hide NoneLost;
      WakeAllKeeps(notEmpty, |queue|, |queue|);
      WakeAllKeeps(notFull, Free(), Free());
      running := false;
      notEmpty := WakeAll(notEmpty);
      notFull := WakeAll(notFull);
    }

    predicate Enabled(e: Event)
      reads this
    {
      match e
      case Run(t, _) => !Uses(notFull, t)
      case RunAgain(t) => t in notFull.woken
      case Take(t) => !Uses(notEmpty, t)
      case TakeAgain(t) => t in notEmpty.woken
      case SpuriousRun(t) => t in notFull.waiting
      case SpuriousTake(t) => t in notEmpty.waiting
      case Stop => true
    }

    /** What an event adds to the queue, and what it takes out. */
    ghost function AddedBy(e: Event): (x: seq<nat>)
      reads this
    {
      if IsFull() || !running then []
      else match e
        case Run(_, task) => [task]
        case RunAgain(t) => if t in holding then [holding[t]] else []
        case _ => []
    }

    ghost function TakenBy(e: Event): (x: seq<nat>)
      reads this
    {
      if (e.Take? || e.TakeAgain?) && queue != [] then [queue[0]] else []
    }

    ghost method Note(e: Event)
      requires Valid()
      modifies this`handled
      ensures Valid() && handled == old(handled) + [e]
    {
      handled := handled + [e];
    }

    /** What each event does: a stopped pool accepts nothing, but gives out what it has. */
    method Handle(e: Event)
      requires Valid() && Enabled(e)
      modifies this
      ensures Valid() && accepted == old(accepted) + old(AddedBy(e)) && taken == old(taken) + old(TakenBy(e))
      ensures running == (old(running) && !e.Stop?)
      ensures e.Run? || e.RunAgain? ==>
        && notFull == (if running && old(IsFull()) then Wait(old(notFull), e.t) else Leave(old(notFull), e.t))
        && if old(AddedBy(e)) != [] then Signalled(old(notEmpty), notEmpty) else notEmpty == old(notEmpty)
      ensures e.Take? || e.TakeAgain? ==>
        && notEmpty ==
          (if old(queue) == [] && running then Wait(old(notEmpty), e.t) else Leave(old(notEmpty), e.t))
        && FullSignalled(old(notFull), old(queue) != [])
      ensures e.SpuriousRun? ==> notFull == Wake(old(notFull), e.t) && notEmpty == old(notEmpty)
      ensures e.SpuriousTake? ==> notEmpty == Wake(old(notEmpty), e.t) && notFull == old(notFull)
      ensures e.Stop? ==> notEmpty == WakeAll(old(notEmpty)) && notFull == WakeAll(old(notFull))
      ensures holding == if e.Run? then old(holding)[e.t := e.task] else old(holding)
      ensures handled == old(handled) + [e]
    {
      hide NoneLost, Wake, Signalled;
      Note(e);
      match e
      case Run(t, task) =>
        holding := holding[t := task];
        RunSection(t, task, false);
      case RunAgain(t) => RunSection(t, holding[t], true);
      case Take(t) => var _ := TakeSection(t, false);
      case TakeAgain(t) => var _ := TakeSection(t, true);
      case SpuriousRun(t) =>
        WakeKeeps(notFull, t, Free());
        notFull := Wake(notFull, t);
      case SpuriousTake(t) =>
        WakeKeeps(notEmpty, t, |queue|);
        notEmpty := Wake(notEmpty, t);
      case Stop => StopPool();
    }

    /** Every schedule, as long as its events can happen; once the pool is stopped nobody waits at any later time. */
    method RunAll(events: seq<Event>) returns (n: nat)
      requires Valid()
      modifies this
      ensures Valid() && old(accepted) <= accepted && old(taken) <= taken
      ensures !old(running) ==> !running && notEmpty.waiting == {} && notFull.waiting == {}
      ensures n <= |events| && handled == old(handled) + events[..n] && (n < |events| ==> !Enabled(events[n]))
    {
      hide Enabled, NoneLost;
      n := 0;
      while n < |events| && Enabled(events[n])
        invariant n <= |events| && handled == old(handled) + events[..n]
        invariant Valid() && old(accepted) <= accepted && old(taken) <= taken && (!old(running) ==> !running)
      {
        Handle(events[n]);
        n := n + 1;
      }
    }
  }
}
