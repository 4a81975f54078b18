/** `muduo/base/BoundedBlockingQueue.h` as a monitor with two conditions. */
module BoundedBlockingQueue {
  import opened Conditions

  datatype Event<T> = Put(t: nat, x: T) | PutAgain(t: nat) | Take(t: nat) | TakeAgain(t: nat) | SpuriousPut(t: nat)
    | SpuriousTake(t: nat)

  lemma FrontTaken<T>(takes: seq<T>, queue: seq<T>)
    requires queue != []
    ensures (takes + [queue[0]]) + queue[1..] == takes + queue
  {
    assert queue == [queue[0]] + queue[1..];
  }

  class BoundedBlockingQueue<T> {
    const capacity: nat
    var queue: seq<T>
    var notEmpty: Condition
    var notFull: Condition
    var holding: map<nat, T>      // what waiting producers want to put
    ghost var puts: seq<T>        // all elements put, in order
    ghost var takes: seq<T>       // all elements taken, in order
    ghost var handled: seq<Event<T>>

    constructor (maxSize: nat)
      ensures Valid() && capacity == maxSize && puts == [] && handled == []
    {
      capacity, queue, notEmpty, notFull, holding := maxSize, [], IDLE, IDLE, map[];
      puts, takes, handled := [], [], [];
    }

    /** First in, first out, within capacity; and no wakeup is lost on either side. */
    ghost predicate Valid()
      reads this
    {
      && takes + queue == puts && |queue| <= capacity
      && NoneLost(notEmpty, |queue|) && NoneLost(notFull, capacity - |queue|)
      && forall t :: Uses(notFull, t) ==> t in holding
    }

    /** `put` from the lock to its end, or to its wait. */
    method PutSection(t: nat, x: T, again: bool)
      requires Valid() && t in holding && holding[t] == x && (if again then t in notFull.woken else !Uses(notFull, t))
      modifies this`queue, this`notEmpty, this`notFull, this`puts
      ensures Valid()
      ensures |old(queue)| < capacity ==>
        && queue == old(queue) + [x] && puts == old(puts) + [x]
        && notFull == Leave(old(notFull), t) && Signalled(old(notEmpty), notEmpty)
      ensures |old(queue)| == capacity ==>
        queue == old(queue) && puts == old(puts) && notFull == Wait(old(notFull), t) && notEmpty == old(notEmpty)
    {
      hide NoneLost, Wake, Signalled;
      if |queue| == capacity {
        WaitKeeps(notFull, t, 0);
        notFull := Wait(notFull, t);
      } else {
        if again {
          LeaveKeeps(notFull, t, capacity - |queue|);
          notFull := Leave(notFull, t);
        } else {
          BargeKeeps(notFull, capacity - |queue|);
          NotUsed(notFull, t);
        }
        var before := notEmpty;
        notEmpty := Notify(notEmpty);
        NotifyKeeps(before, notEmpty, |queue|);
        queue := queue + [x];
        puts := puts + [x];
        assert takes + queue == (takes + old(queue)) + [x];
      }
    }

    /** `take` from the lock to its end, or to its wait. */
    method TakeSection(t: nat, again: bool) returns (front: seq<T>)
      requires Valid() && (if again then t in notEmpty.woken else !Uses(notEmpty, t))
      modifies this`queue, this`notEmpty, this`notFull, this`takes
      ensures Valid()
      ensures old(queue) != [] ==>
        && front == [old(queue)[0]] && queue == old(queue)[1..]
        && notEmpty == Leave(old(notEmpty), t) && Signalled(old(notFull), notFull)
      ensures old(queue) == [] ==>
        front == [] && queue == [] && notEmpty == Wait(old(notEmpty), t) && notFull == old(notFull)
      ensures takes == old(takes) + front && puts == old(puts)
    {
      hide NoneLost, Wake, Signalled;
      if |queue| == 0 {
        WaitKeeps(notEmpty, t, 0);
        notEmpty := Wait(notEmpty, t);
        front := [];
      } else {
        if again {
          LeaveKeeps(notEmpty, t, |queue|);
          notEmpty := Leave(notEmpty, t);
        } else {
          BargeKeeps(notEmpty, |queue|);
          NotUsed(notEmpty, t);
        }
        front := [queue[0]];
        queue := queue[1..];
        takes := takes + front;
        FrontTaken(old(takes), old(queue));
        var before := notFull;
        notFull := Notify(notFull);
        NotifyKeeps(before, notFull, capacity - |old(queue)|);
      }
    }

    predicate Enabled(e: Event<T>)
      reads this
    {
      match e
      case Put(t, _) => !Uses(notFull, t)
      case PutAgain(t) => t in notFull.woken
      case Take(t) => !Uses(notEmpty, t)
      case TakeAgain(t) => t in notEmpty.woken
      case SpuriousPut(t) => t in notFull.waiting
      case SpuriousTake(t) => t in notEmpty.waiting
    }

    /** What an event puts into the queue, and what it takes out. */
    ghost function PutBy(e: Event<T>): (x: seq<T>)
      reads this
    {
      if |queue| >= capacity then []
      else match e
        case Put(_, x) => [x]
        case PutAgain(t) => if t in holding then [holding[t]] else []
        case _ => []
    }

    ghost function TakenBy(e: Event<T>): (x: seq<T>)
      reads this
    {
      if (e.Take? || e.TakeAgain?) && queue != [] then [queue[0]] else []
    }

    ghost method Note(e: Event<T>)
      requires Valid()
      modifies this`handled
      ensures Valid() && handled == old(handled) + [e]
    {
      handled := handled + [e];
    }

    /**
      What each event does. A producer that finds the queue full waits with its element, a consumer that finds it
      empty waits, and whoever succeeds signals one thread of the other side.
    */
    method Handle(e: Event<T>)
      requires Valid() && Enabled(e)
      modifies this
      ensures Valid() && puts == old(puts) + old(PutBy(e)) && takes == old(takes) + old(TakenBy(e))
      ensures e.Put? || e.PutAgain? ==>
        if |old(queue)| == capacity then notFull == Wait(old(notFull), e.t) && notEmpty == old(notEmpty)
        else notFull == Leave(old(notFull), e.t) && Signalled(old(notEmpty), notEmpty)
      ensures e.Take? || e.TakeAgain? ==>
        if old(queue) == [] then notEmpty == Wait(old(notEmpty), e.t) && notFull == old(notFull)
        else notEmpty == Leave(old(notEmpty), e.t) && Signalled(old(notFull), notFull)
      ensures e.SpuriousPut? ==> notFull == Wake(old(notFull), e.t) && notEmpty == old(notEmpty)
      ensures e.SpuriousTake? ==> notEmpty == Wake(old(notEmpty), e.t) && notFull == old(notFull)
      ensures holding == if e.Put? then old(holding)[e.t := e.x] else old(holding)
      ensures handled == old(handled) + [e]
    {
      hide NoneLost, Wake, Signalled;
      Note(e);
      match e
      case Put(t, x) =>
        holding := holding[t := x];
        PutSection(t, x, false);
      case PutAgain(t) => PutSection(t, holding[t], true);
      case Take(t) => var _ := TakeSection(t, false);
      case TakeAgain(t) => var _ := TakeSection(t, true);
      case SpuriousPut(t) =>
        WakeKeeps(notFull, t, capacity - |queue|);
        notFull := Wake(notFull, t);
      case SpuriousTake(t) =>
        WakeKeeps(notEmpty, t, |queue|);
        notEmpty := Wake(notEmpty, t);
    }

    /** Every schedule of any number of producers and consumers: the events happen as long as they can. */
    method Run(events: seq<Event<T>>) returns (n: nat)
      requires Valid()
      modifies this
      ensures Valid() && old(puts) <= puts && old(takes) <= takes
      ensures n <= |events| && handled == old(handled) + events[..n] && (n < |events| ==> !Enabled(events[n]))
    {
      hide Valid, Enabled;
      n := 0;
      while n < |events| && Enabled(events[n])
        invariant n <= |events| && handled == old(handled) + events[..n]
        invariant Valid() && old(puts) <= puts && old(takes) <= takes
      {
        Handle(events[n]);
        n := n + 1;
      }
    }
  }
}
