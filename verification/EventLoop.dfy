/**
  Pending functors and the eventfd of `EventLoop` (`muduo/net/EventLoop.cc`), as the steps of the loop
  thread and of any number of other threads. A functor is a number; the eventfd is its counter.
*/
module EventLoop {

  /** Where the loop thread is: outside `loop()`, blocked in `poll`, in channel handlers, in `doPendingFunctors`. */
  datatype Place = NotStarted | Polling | Handling | Calling | Stopped

  datatype Event =
    | OtherPush(functor: nat)         // queueInLoop of another thread, up to the unlock
    | OtherWakeup                     // its wakeup()
    | OtherQuit                       // quit() of another thread, before its wakeup()
    | LoopPush(functor: nat)          // queueInLoop of the loop thread
    | LoopQuit                        // quit() of the loop thread
    | StartLoop
    | PollReturns
    | ReadEventfd
    | StartFunctors
    | RunFunctor
    | EndFunctors

  class EventLoop {
    var place: Place
    var pendingFunctors: seq<nat>
    var functors: seq<nat>            // the local vector of doPendingFunctors, what is left of it
    var callingPendingFunctors: bool
    var eventfdActive: bool           // reported by poll and not yet handled
    var quit: bool
    var counter: nat                  // of the eventfd
    var wakeupsOwed: nat              // threads between their push, or their quit, and their write
    ghost var pushed: seq<nat>        // all functors in push order
    ghost var ran: seq<nat>           // all functors run
    ghost var first: bool             // the first poll has not returned yet
    ghost var foreign: nat            // pushes and quits of other threads
    ghost var handled: seq<Event>

    constructor ()
      ensures Valid() && place == NotStarted && pushed == [] && pendingFunctors == [] && counter == 0
        && wakeupsOwed == 0
      ensures first && foreign == 0 && handled == []
    {
      place, pendingFunctors, functors, callingPendingFunctors, quit := NotStarted, [], [], false, false;
      eventfdActive, counter, wakeupsOwed, pushed, ran, first, foreign := false, 0, 0, [], [], true, 0;
      handled := [];
    }

    /**
      Functors run in push order and each at most once; and `poll` never blocks on a queued functor or
      a `quit`: then the eventfd is readable or a thread still has to write it. Only the first `poll` may
      find functors that nobody announced; until it returns, the wakeups written or owed are as many as
      the pushes and quits of other threads.
    */
    ghost predicate Valid()
      reads this
    {
      && ran + functors + pendingFunctors == pushed
      && (callingPendingFunctors <==> place == Calling)
      && (functors != [] ==> place == Calling)
      && (place == Polling && quit ==> counter > 0 || wakeupsOwed > 0)
      && (place == Polling && !first && pendingFunctors != [] ==> counter > 0 || wakeupsOwed > 0)
      && (place == Calling && pendingFunctors != [] ==> counter > 0 || wakeupsOwed > 0)
      && (place == NotStarted ==> first) && (first ==> place == NotStarted || place == Polling)
      && (first ==> counter + wakeupsOwed == foreign)
    }

    method PushOnly(functor: nat)
      requires Valid()
      modifies this`pendingFunctors, this`pushed
      ensures pendingFunctors == old(pendingFunctors) + [functor] && pushed == old(pushed) + [functor]
      ensures ran + functors + pendingFunctors == pushed
    {
      pendingFunctors := pendingFunctors + [functor];
      pushed := pushed + [functor];
      assert ran + functors + (old(pendingFunctors) + [functor]) == (ran + functors + old(pendingFunctors)) + [functor];
    }

    /** `queueInLoop`, first half, in another thread: `isInLoopThread()` is false, so it will write the eventfd. */
    method QueueFromOther(functor: nat)
      requires Valid()
      modifies this`pendingFunctors, this`pushed, this`wakeupsOwed, this`foreign
      ensures Valid() && pushed == old(pushed) + [functor] && pendingFunctors == old(pendingFunctors) + [functor]
      ensures wakeupsOwed == old(wakeupsOwed) + 1 && foreign == old(foreign) + 1
    {
      PushOnly(functor);
      wakeupsOwed, foreign := wakeupsOwed + 1, foreign + 1;
    }

    method WakeupFromOther()
      requires Valid() && wakeupsOwed > 0
      modifies this`wakeupsOwed, this`counter
      ensures Valid() && counter == old(counter) + 1 && wakeupsOwed == old(wakeupsOwed) - 1
    {
      wakeupsOwed := wakeupsOwed - 1;
      counter := counter + 1;
    }

    /** `queueInLoop` in the loop thread: it writes the eventfd only while functors are being called. */
    method QueueFromLoop(functor: nat)
      requires Valid() && (place == NotStarted || place == Handling || place == Calling)
      modifies this`pendingFunctors, this`pushed, this`counter
      ensures Valid() && pushed == old(pushed) + [functor] && pendingFunctors == old(pendingFunctors) + [functor]
      ensures counter == old(counter) + if place == Calling then 1 else 0
    {
      PushOnly(functor);
      if callingPendingFunctors {
        counter := counter + 1;
      }
    }

    method QuitFromOther()
      requires Valid()
      modifies this`quit, this`wakeupsOwed, this`foreign
      ensures Valid() && quit && wakeupsOwed == old(wakeupsOwed) + 1 && foreign == old(foreign) + 1
    {
      quit := true;
      wakeupsOwed, foreign := wakeupsOwed + 1, foreign + 1;
    }

    method QuitFromLoop()
      requires Valid() && (place == NotStarted || place == Handling || place == Calling)
      modifies this`quit
      ensures Valid() && quit
    {
      quit := true;
    }

    /** `loop()` up to its first `poll`; a `quit` before it is forgotten. */
    method Start()
      requires Valid() && place == NotStarted
      modifies this`place, this`quit
      ensures Valid() && place == Polling && !quit
    {
      quit := false;
      place := Polling;
    }

    /** `poll` returns, for whatever reason; it reports the eventfd if that is readable. */
    method ReturnFromPoll()
      requires Valid() && place == Polling
      modifies this`place, this`eventfdActive, this`first
      ensures Valid() && place == Handling && (eventfdActive <==> counter > 0) && !first
    {
      place := Handling;
      eventfdActive := counter > 0;
      first := false;
    }

    /** `handleRead`: reading the eventfd clears it, whatever was added since `poll` returned. */
    method HandleRead()
      requires Valid() && place == Handling && eventfdActive
      modifies this`counter, this`eventfdActive
      ensures Valid() && counter == 0 && !eventfdActive
    {
      counter := 0;
      eventfdActive := false;
    }

    /** `doPendingFunctors` up to the unlock: everything queued is taken. */
    method SwapFunctors()
      requires Valid() && place == Handling && !eventfdActive
      modifies this`place, this`callingPendingFunctors, this`functors, this`pendingFunctors
      ensures Valid() && place == Calling && functors == old(pendingFunctors) && pendingFunctors == []
    {
      callingPendingFunctors := true;
      place := Calling;
      functors, pendingFunctors := pendingFunctors, [];
      assert ran + [] + old(pendingFunctors) == ran + old(pendingFunctors) + [];
    }

    method RunNext()
      requires Valid() && place == Calling && functors != []
      modifies this`functors, this`ran
      ensures Valid() && ran == old(ran) + [old(functors)[0]] && functors == old(functors)[1..]
    {
      ran := ran + [functors[0]];
      functors := functors[1..];
      assert old(functors) == [old(functors)[0]] + functors;
      assert old(ran) + old(functors) == ran + functors;
    }

    /** The end of `doPendingFunctors` and the test of the loop. */
    method EndCalling()
      requires Valid() && place == Calling && functors == []
      modifies this`place, this`callingPendingFunctors
      ensures Valid() && place == if quit then Stopped else Polling
    {
      callingPendingFunctors := false;
      place := if quit then Stopped else Polling;
    }

    predicate Enabled(event: Event)
      reads this
    {
      match event
      case OtherWakeup => wakeupsOwed > 0
      case LoopPush(_) => place == NotStarted || place == Handling || place == Calling
      case LoopQuit => place == NotStarted || place == Handling || place == Calling
      case StartLoop => place == NotStarted
      case PollReturns => place == Polling
      case ReadEventfd => place == Handling && eventfdActive
      case StartFunctors => place == Handling && !eventfdActive
      case RunFunctor => place == Calling && functors != []
      case EndFunctors => place == Calling && functors == []
      case _ => true
    }

    ghost function PlaceAfter(event: Event): (p: Place)
      reads this
    {
      match event
      case StartLoop => Polling
      case PollReturns => Handling
      case StartFunctors => Calling
      case EndFunctors => if quit then Stopped else Polling
      case _ => place
    }

    ghost function CounterAfter(event: Event): (n: nat)
      reads this
    {
      match event
      case OtherWakeup => counter + 1
      case LoopPush(_) => if place == Calling then counter + 1 else counter
      case ReadEventfd => 0
      case _ => counter
    }

    ghost method Note(event: Event)
      requires Valid()
      modifies this`handled
      ensures Valid() && handled == old(handled) + [event]
    {
      handled := handled + [event];
    }

    /** What each event does. */
    method Handle(event: Event)
      requires Valid() && Enabled(event)
      modifies this
      ensures Valid() && place == old(PlaceAfter(event)) && counter == old(CounterAfter(event))
      ensures pushed == old(pushed) + if event.OtherPush? || event.LoopPush? then [event.functor] else []
      ensures ran == old(ran) + if event.RunFunctor? then [old(functors)[0]] else []
      ensures functors == if event.StartFunctors? then old(pendingFunctors)
        else if event.RunFunctor? then old(functors)[1..] else old(functors)
      ensures quit == (event.OtherQuit? || event.LoopQuit? || (old(quit) && !event.StartLoop?))
      ensures wakeupsOwed == old(wakeupsOwed) +
        if event.OtherPush? || event.OtherQuit? then 1 else if event.OtherWakeup? then -1 else 0
      ensures eventfdActive == if event.PollReturns? then old(counter) > 0
        else old(eventfdActive) && !event.ReadEventfd?
      ensures foreign == old(foreign) + (if event.OtherPush? || event.OtherQuit? then 1 else 0)
      ensures (first <==> old(first) && !event.PollReturns?) && handled == old(handled) + [event]
    {
      hide Valid;
      Note(event);
      match event
      case OtherPush(f) => QueueFromOther(f);
      case OtherWakeup => WakeupFromOther();
      case OtherQuit => QuitFromOther();
      case LoopPush(f) => QueueFromLoop(f);
      case LoopQuit => QuitFromLoop();
      case StartLoop => Start();
      case PollReturns => ReturnFromPoll();
      case ReadEventfd => HandleRead();
      case StartFunctors => SwapFunctors();
      case RunFunctor => RunNext();
      case EndFunctors => EndCalling();
    }

    /** One round of `loop()`: whatever was queued before it is run, in order, and the eventfd is cleared. */
    method Iteration()
      requires Valid() && place == Polling
      modifies this`place, this`eventfdActive, this`first, this`counter, this`callingPendingFunctors, this`functors,
        this`pendingFunctors, this`ran
      ensures Valid() && ran == old(ran) + old(pendingFunctors) && pendingFunctors == [] && counter == 0
      ensures place == if quit then Stopped else Polling
    {
      ReturnFromPoll();
      if eventfdActive {
        HandleRead();
      }
      SwapFunctors();
      while functors != []
        invariant Valid() && place == Calling && pendingFunctors == [] && counter == 0
        invariant ran + functors == old(ran) + old(pendingFunctors)
        decreases |functors|
      {
        RunNext();
      }
      EndCalling();
    }

    /** Every interleaving of the threads: the events happen as long as they can. */
    method Run(events: seq<Event>) returns (n: nat)
      requires Valid()
      modifies this
      ensures Valid() && old(pushed) <= pushed && old(ran) <= ran
      ensures n <= |events| && handled == old(handled) + events[..n] && (n < |events| ==> !Enabled(events[n]))
    {
      hide Valid, Enabled;
      n := 0;
      while n < |events| && Enabled(events[n])
        invariant n <= |events| && handled == old(handled) + events[..n]
        invariant Valid() && old(pushed) <= pushed && old(ran) <= ran
      {
        Handle(events[n]);
        n := n + 1;
      }
    }
  }

  /**
    When the loop blocks in `poll` on functors that nothing will announce: exactly at the first poll, if
    something is pending and no other thread has pushed or quit. A `quit` is always announced.
  */
  lemma UnannouncedExactly(loop: EventLoop)
    requires loop.Valid() && loop.place == Polling
    ensures loop.pendingFunctors != [] && loop.counter == 0 && loop.wakeupsOwed == 0 <==>
            loop.first && loop.pendingFunctors != [] && loop.foreign == 0
    ensures loop.quit ==> loop.counter > 0 || loop.wakeupsOwed > 0
  {
  }

  /** There is such a poll: what the loop thread queues before `loop()` waits for the poll timeout. */
  method EarlyFunctorWaits(functor: nat) returns (loop: EventLoop)
    ensures fresh(loop) && loop.place == Polling && loop.pendingFunctors == [functor] && loop.counter == 0
      && loop.wakeupsOwed == 0
  {
    loop := new EventLoop();
    loop.QueueFromLoop(functor);
    loop.Start();
  }

  /** With a push of another thread before it, the same functor is announced. */
  method EarlyFunctorAnnounced(other: nat, functor: nat) returns (loop: EventLoop)
    ensures fresh(loop) && loop.place == Polling && loop.pendingFunctors == [other, functor] && loop.counter > 0
  {
    loop := new EventLoop();
    loop.QueueFromOther(other);
    loop.WakeupFromOther();
    loop.QueueFromLoop(functor);
    loop.Start();
  }
}
