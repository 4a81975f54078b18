/**
  The output path and the shutdown of `TcpConnection` (`muduo/net/TcpConnection.cc`). Every method is
  one atomic step; the socket's answers to `write` are arguments; functors given to the loop from
  other threads wait in `tasks` and run in order.
*/
module TcpConnection {

  /** The connection never looks into the bytes it carries. */
  type byte = int

  datatype State = Connecting | Connected | Disconnecting | Disconnected

  /** What `write` returned: a count, or an error. */
  datatype Written = Wrote(n: nat) | WouldBlock | BrokenPipe | ConnectionReset | OtherError

  /** Functors queued for the loop thread. */
  datatype Task = SendInLoopTask(message: seq<byte>) | ShutdownInLoopTask | ForceCloseInLoopTask

  /** A message given to `sendInLoop` on an open connection, and whether it was dropped because the peer is gone. */
  datatype Given = Given(message: seq<byte>, dropped: bool)

  ghost function Kept(given: seq<Given>): (bytes: seq<byte>) {
    if given == [] then [] else
      Kept(given[..|given| - 1]) + if given[|given| - 1].dropped then [] else given[|given| - 1].message
  }

  /** What the socket took, followed by what is buffered while the connection is open, is what was kept. */
  ghost predicate Accounts(sent: seq<byte>, output: seq<byte>, given: seq<Given>, open: bool) {
    sent <= Kept(given) && (open ==> sent + output == Kept(given))
  }

  lemma KeptSnoc(given: seq<Given>, g: Given)
    ensures Kept(given + [g]) == Kept(given) + if g.dropped then [] else g.message
  {
    assert (given + [g])[..|given|] == given;
  }

  /** A call of `write`: the bytes it was given, and its answer. */
  datatype Attempt = Attempt(offered: seq<byte>, answer: Written)

  ghost function Accepted(a: Attempt): (bytes: seq<byte>) {
    if a.answer.Wrote? && a.answer.n <= |a.offered| then a.offered[..a.answer.n] else []
  }

  /** What the socket took: of every call as many bytes as it said, in order. */
  ghost function Taken(attempts: seq<Attempt>): (bytes: seq<byte>) {
    if attempts == [] then [] else Taken(attempts[..|attempts| - 1]) + Accepted(attempts[|attempts| - 1])
  }

  lemma TakenSnoc(attempts: seq<Attempt>, a: Attempt)
    ensures Taken(attempts + [a]) == Taken(attempts) + Accepted(a)
  {
    assert (attempts + [a])[..|attempts|] == attempts;
  }

  datatype Event =
    | Established
    | Send(message: seq<byte>, inLoop: bool, w: Written)
    | Shutdown(inLoop: bool)
    | ForceClose
    | ForceCloseWithDelay
    | RunTask(w: Written)
    | Writable(w: Written)
    | PeerClosed
    | Destroyed

  /** An answer the kernel can give: no more than was asked for, and nothing but errors once writing is shut down. */
  predicate Possible(w: Written, len: nat, shut: bool) {
    w.Wrote? ==> w.n <= len && (shut ==> w.n == 0)
  }

  class TcpConnection {
    var state: State
    var output: seq<byte>
    var writing: bool
    var tasks: seq<Task>
    const highWaterMark: nat
    ghost var sent: seq<byte>           // bytes the socket took
    ghost var attempts: seq<Attempt>    // calls of write, in order
    ghost var given: seq<Given>         // messages given to sendInLoop, in order
    var shut: bool                      // shutdownWrite was called on the socket
    ghost var lostAtShutdown: nat       // bytes that were buffered when an open connection was shut down
    ghost var shutdownAsked: bool       // shutdownInLoop has run
    ghost var writeCompletes: nat       // queued write-complete callbacks
    ghost var highWaters: seq<nat>      // arguments of the queued high-water callbacks
    ghost var handled: seq<Event>

    constructor (mark: nat)
      ensures Valid() && state == Connecting && given == [] && attempts == [] && handled == []
      ensures highWaterMark == mark
    {
      state, output, writing, tasks, highWaterMark := Connecting, [], false, [], mark;
      sent, given, attempts, shut, shutdownAsked, lostAtShutdown := [], [], [], false, false, 0;
      writeCompletes, highWaters, handled := 0, [], [];
    }

    /**
      What the socket took is what its answers say. Until the connection is closed: what the socket took
      followed by what is buffered is what was promised; write interest is on exactly when something is
      buffered; writing was shut down only with nothing buffered, and a shutdown that was asked for is done or
      waits for buffered bytes.
    */
    ghost predicate Valid()
      reads this
    {
      && Accounts(sent, output, given, state != Disconnected) && sent == Taken(attempts)
      && (if state == Disconnected then !writing else writing <==> output != [])
      && (shut ==> state == Disconnecting || state == Disconnected)
      && lostAtShutdown == 0
      && (shutdownAsked ==> state == Disconnecting || state == Disconnected)
      && (shutdownAsked && state == Disconnecting ==> shut || output != [])
      && (state == Connecting ==> output == [] && tasks == [])
      && (ShutdownInLoopTask in tasks ==> state == Disconnecting || state == Disconnected)
    }

    /** Nothing is taken back, and a closed connection stays closed. */
    ghost predicate Grows(oldSent: seq<byte>, oldGiven: seq<Given>, oldState: State)
      reads this
    {
      oldSent <= sent && oldGiven <= given
        && (oldState == Disconnected ==> state == Disconnected && sent == oldSent && given == oldGiven)
    }

    method SendInLoop(message: seq<byte>, w: Written)
      requires Valid() && Possible(w, |message|, shut) && state != Connecting
      modifies this`output, this`writing, this`sent, this`given, this`attempts, this`writeCompletes, this`highWaters
      ensures Valid() && Grows(old(sent), old(given), old(state))
      ensures state != Disconnected ==>
        && Sent(message, w, old(output), old(given), old(attempts))
        && Notified(message, w, old(output), old(writeCompletes), old(highWaters))
      ensures state == Disconnected ==> unchanged(this)
    {
      if state != Disconnected {
        SendOpen(message, w);
      }
    }

    method SendOpen(message: seq<byte>, w: Written)
      requires Valid() && Possible(w, |message|, shut) && state != Connecting && state != Disconnected
      modifies this`output, this`writing, this`sent, this`given, this`attempts, this`writeCompletes, this`highWaters
      ensures Valid() && Sent(message, w, old(output), old(given), old(attempts))
      ensures Notified(message, w, old(output), old(writeCompletes), old(highWaters)) && old(sent) <= sent
    {
      hide Accounts, Taken;
      var nwrote := 0;
      var faultError := false;
      if !writing && |output| == 0 {
        nwrote, faultError := WriteNow(message, w);
        TakenSnoc(old(attempts), Attempt(message, w));
      }
      given := given + [Given(message, faultError)];
      if !faultError {
        AccountsSent(old(sent), old(output), old(given), message, nwrote);
        Enqueue(message[nwrote..]);
        assert sent == old(sent) + message[..nwrote];
      } else {
        assert sent == old(sent);
        AccountsDropped(old(sent), old(output), old(given), message);
      }
    }

    /**
      `sendInLoop` on an open connection: with nothing buffered the message is offered to the socket, and it is
      dropped if the peer is gone; otherwise it waits.
    */
    ghost predicate Sent(message: seq<byte>, w: Written, was: seq<byte>, oldGiven: seq<Given>,
        oldAttempts: seq<Attempt>)
      reads this
    {
      && given == oldGiven + [Given(message, was == [] && (w == BrokenPipe || w == ConnectionReset))]
      && attempts == oldAttempts + if was == [] then [Attempt(message, w)] else []
    }

    /** Nothing is offered to the socket, and nothing given or taken back. */
    ghost predicate Quiet(oldAttempts: seq<Attempt>, oldGiven: seq<Given>, was: seq<byte>, completes: nat,
        waters: seq<nat>)
      reads this
    {
      attempts == oldAttempts && given == oldGiven && output == was && writeCompletes == completes
        && highWaters == waters
    }

    /** Its callbacks: the whole message was taken at once; the buffer grew from below the mark to the mark or over. */
    ghost predicate Notified(message: seq<byte>, w: Written, was: seq<byte>, completes: nat, waters: seq<nat>)
      reads this
    {
      && writeCompletes == completes + (if was == [] && w == Wrote(|message|) then 1 else 0)
      && highWaters == waters + if |was| < highWaterMark <= |output| && |output| > |was| then [|output|] else []
    }

    /** The direct write of `sendInLoop`. */
    method WriteNow(message: seq<byte>, w: Written) returns (nwrote: nat, faultError: bool)
      requires w.Wrote? ==> w.n <= |message|
      modifies this`sent, this`attempts, this`writeCompletes
      ensures attempts == old(attempts) + [Attempt(message, w)]
      ensures nwrote == (if w.Wrote? then w.n else 0) && (faultError <==> w == BrokenPipe || w == ConnectionReset)
      ensures sent == old(sent) + message[..nwrote]
      ensures writeCompletes == old(writeCompletes) + if w == Wrote(|message|) then 1 else 0
    {
      nwrote, faultError := 0, false;
      attempts := attempts + [Attempt(message, w)];
      match w {
        case Wrote(n) =>
          nwrote := n;
          sent := sent + message[..n];
          if |message| - n == 0 {
            writeCompletes := writeCompletes + 1;
          }
        case WouldBlock =>
        case BrokenPipe => faultError := true;
        case ConnectionReset => faultError := true;
        case OtherError =>
      }
    }

    /** The rest of `sendInLoop`: what could not be written waits in the output buffer. */
    method Enqueue(rest: seq<byte>)
      requires writing <==> output != []
      modifies this`output, this`writing, this`highWaters
      ensures output == old(output) + rest && (writing <==> output != [])
      ensures highWaters == old(highWaters) + if |old(output)| < highWaterMark <= |output|
        && |output| > |old(output)| then [|output|] else []
    {
      if |rest| > 0 {
        var oldLen := |output|;
        if oldLen + |rest| >= highWaterMark && oldLen < highWaterMark {
          highWaters := highWaters + [oldLen + |rest|];
        }
        output := output + rest;
        if !writing {
          writing := true;
        }
      }
    }

    method HandleWrite(w: Written)
      requires Valid() && Possible(w, |output|, shut)
      modifies this`output, this`writing, this`sent, this`attempts, this`shut, this`shutdownAsked,
        this`lostAtShutdown, this`writeCompletes
      ensures Valid() && given == old(given)
      ensures attempts == old(attempts) + if old(writing) then [Attempt(old(output), w)] else []
      ensures old(writing) && w.Wrote? ==> sent == old(sent) + old(output)[..w.n] && output == old(output)[w.n..]
      ensures !(old(writing) && w.Wrote?) ==> sent == old(sent) && output == old(output)
      ensures old(state) == Disconnected ==> shut == old(shut)
      ensures writeCompletes == old(writeCompletes) + if old(output) != [] && output == [] then 1 else 0
      ensures shut <==> old(shut) || (old(output) != [] && output == [] && state == Disconnecting)
    {
      hide Accounts, Taken;
      if writing {
        TakenSnoc(attempts, Attempt(output, w));
        attempts := attempts + [Attempt(output, w)];
        if w.Wrote? && w.n > 0 {
          AccountsWritten(sent, output, given, w.n);
          sent := sent + output[..w.n];
          output := output[w.n..];
          if |output| == 0 {
            writing := false;
            writeCompletes := writeCompletes + 1;
            if state == Disconnecting {
              ShutdownInLoop();
            }
          }
        }
      }
    }

    /** Until the connection is closed, `shutdownWrite` happens only with nothing buffered. */
    method ShutdownInLoop()
      requires state == Disconnecting || state == Disconnected
      requires state == Disconnecting ==> (writing <==> output != [])
      modifies this`shut, this`shutdownAsked, this`lostAtShutdown
      ensures shutdownAsked && (shut <==> old(shut) || !writing) && lostAtShutdown == old(lostAtShutdown)
    {
      shutdownAsked := true;
      if !writing {
        shut := true;
        lostAtShutdown := lostAtShutdown + if state == Disconnected then 0 else |output|;
      }
    }

    method ShutdownConnection(inLoop: bool)
      requires Valid()
      modifies this`state, this`tasks, this`shut, this`shutdownAsked, this`lostAtShutdown
      ensures Valid() && state == if old(state) == Connected then Disconnecting else old(state)
      ensures old(state) == Connected && inLoop ==> shutdownAsked && (shut <==> output == []) && tasks == old(tasks)
      ensures old(state) == Connected && !inLoop ==> tasks == old(tasks) + [ShutdownInLoopTask] && shut == old(shut)
      ensures old(state) != Connected ==> unchanged(this)
    {
      if state == Connected {
        state := Disconnecting;
        if inLoop {
          ShutdownInLoop();
        } else {
          tasks := tasks + [ShutdownInLoopTask];
        }
      }
    }

    /** `forceClose`, also the timer that `forceCloseWithDelay` starts. */
    method ForceCloseConnection()
      requires Valid()
      modifies this`state, this`tasks
      ensures Valid() && state == (if old(state) == Connected then Disconnecting else old(state))
      ensures tasks == old(tasks) + if state == Disconnecting then [ForceCloseInLoopTask] else []
    {
      if state == Connected || state == Disconnecting {
        state := Disconnecting;
        tasks := tasks + [ForceCloseInLoopTask];
      }
    }

    method HandleClose()
      requires Valid() && (state == Connected || state == Disconnecting)
      modifies this`state, this`writing
      ensures Valid() && state == Disconnected && !writing
    {
      hide Taken, Kept;
      state := Disconnected;
      writing := false;
    }

    /** The loop runs the first queued functor. */
    method RunFirstTask(w: Written)
      requires Valid() && tasks != []
      requires tasks[0].SendInLoopTask? ==> Possible(w, |tasks[0].message|, shut)
      modifies this
      ensures Valid() && tasks == old(tasks)[1..] && Grows(old(sent), old(given), old(state)) && handled == old(handled)
      ensures old(tasks)[0] == ForceCloseInLoopTask && old(state) != Connecting ==>
        state == Disconnected && sent == old(sent)
      ensures old(tasks)[0] == ShutdownInLoopTask ==>
        shutdownAsked && (shut <==> old(shut) || !writing) && writing == old(writing)
      ensures old(tasks)[0].SendInLoopTask? && state != Disconnected ==>
        && Sent(old(tasks)[0].message, w, old(output), old(given), old(attempts))
        && Notified(old(tasks)[0].message, w, old(output), old(writeCompletes), old(highWaters))
      ensures !(old(tasks)[0].SendInLoopTask? && state != Disconnected) ==>
        Quiet(old(attempts), old(given), old(output), old(writeCompletes), old(highWaters))
      ensures state != old(state) ==> old(tasks)[0] == ForceCloseInLoopTask
      ensures old(tasks)[0] != ShutdownInLoopTask ==> shut == old(shut)
    {
      hide Accounts, Taken;
      var task := tasks[0];
      tasks := tasks[1..];
      match task
      case SendInLoopTask(message) => SendInLoop(message, w);
      case ShutdownInLoopTask => ShutdownInLoop();
      case ForceCloseInLoopTask =>
        if state == Connected || state == Disconnecting {
          HandleClose();
        }
    }

    method SendMessage(message: seq<byte>, inLoop: bool, w: Written)
      requires Valid() && Possible(w, |message|, shut)
      modifies this
      ensures Valid() && state == old(state) && Grows(old(sent), old(given), old(state)) && handled == old(handled)
      ensures shut == old(shut) && (inLoop ==> tasks == old(tasks))
      ensures old(state) == Connected && inLoop ==>
        && Sent(message, w, old(output), old(given), old(attempts))
        && Notified(message, w, old(output), old(writeCompletes), old(highWaters))
      ensures old(state) == Connected && !inLoop ==>
        && tasks == old(tasks) + [SendInLoopTask(message)]
        && Quiet(old(attempts), old(given), old(output), old(writeCompletes), old(highWaters))
      ensures old(state) != Connected ==> unchanged(this)
    {
      hide Accounts, Taken;
      if state == Connected {
        if inLoop {
          SendInLoop(message, w);
        } else {
          tasks := tasks + [SendInLoopTask(message)];
        }
      }
    }

    /** Whether the event can happen now, with the answer it carries. */
    predicate Enabled(event: Event)
      reads this
    {
      match event
      case Established => state == Connecting
      case Send(message, inLoop, w) => Possible(w, |message|, shut)
      case RunTask(w) => tasks != [] && (tasks[0].SendInLoopTask? ==> Possible(w, |tasks[0].message|, shut))
      case Writable(w) => Possible(w, |output|, shut)
      case PeerClosed => state == Connected || state == Disconnecting
      case Destroyed => state != Connecting
      case _ => true
    }

    /** The call of `write` that an event makes. */
    ghost function Tried(event: Event): (a: seq<Attempt>)
      reads this
    {
      match event
      case Send(message, inLoop, w) =>
        if state == Connected && inLoop && output == [] then [Attempt(message, w)] else []
      case RunTask(w) =>
        if tasks != [] && tasks[0].SendInLoopTask? && state != Disconnected && output == []
        then [Attempt(tasks[0].message, w)] else []
      case Writable(w) => if writing then [Attempt(output, w)] else []
      case _ => []
    }

    /** The message that an event gives to `sendInLoop` on an open connection. */
    ghost function GivenBy(event: Event): (g: seq<Given>)
      reads this
    {
      var gone := match event
        case Send(_, _, w) => output == [] && (w == BrokenPipe || w == ConnectionReset)
        case RunTask(w) => output == [] && (w == BrokenPipe || w == ConnectionReset)
        case _ => false;
      match event
      case Send(message, inLoop, w) => if state == Connected && inLoop then [Given(message, gone)] else []
      case RunTask(w) =>
        if tasks != [] && tasks[0].SendInLoopTask? && state != Disconnected then [Given(tasks[0].message, gone)] else []
      case _ => []
    }

    ghost function StateAfter(event: Event): (s: State)
      reads this
    {
      match event
      case Established => Connected
      case Shutdown(_) => if state == Connected then Disconnecting else state
      case ForceClose => if state == Connected then Disconnecting else state
      case ForceCloseWithDelay => if state == Connected then Disconnecting else state
      case RunTask(_) => if tasks != [] && tasks[0] == ForceCloseInLoopTask then Disconnected else state
      case PeerClosed => Disconnected
      case Destroyed => if state == Connected then Disconnected else state
      case _ => state
    }

    ghost function TasksAfter(event: Event): (t: seq<Task>)
      reads this
    {
      match event
      case Send(message, inLoop, _) =>
        tasks + if state == Connected && !inLoop then [SendInLoopTask(message)] else []
      case Shutdown(inLoop) => tasks + if state == Connected && !inLoop then [ShutdownInLoopTask] else []
      case ForceClose => tasks + if state == Connected || state == Disconnecting then [ForceCloseInLoopTask] else []
      case RunTask(_) => if tasks != [] then tasks[1..] else []
      case _ => tasks
    }

    /** Writing is shut down when nothing is buffered, or at the moment when nothing is left of it. */
    ghost predicate ShutAfter(event: Event)
      reads this
    {
      shut || match event
        case Shutdown(inLoop) => state == Connected && inLoop && !writing
        case RunTask(_) => tasks != [] && tasks[0] == ShutdownInLoopTask && !writing
        case Writable(w) => writing && state == Disconnecting && w == Wrote(|output|)
        case _ => false
    }

    ghost method Note(event: Event)
      requires Valid()
      modifies this`handled
      ensures Valid() && handled == old(handled) + [event]
    {
      handled := handled + [event];
    }

    /**
      What each event does: its call of `write`, the message it gives, the new state and tasks. A write-complete
      callback is queued exactly if the socket took all that it was offered, a high-water callback exactly if the
      buffer grew from below the mark to the mark or over it.
    */
    method Handle(event: Event)
      requires Valid() && Enabled(event)
      modifies this
      ensures Valid() && Grows(old(sent), old(given), old(state))
      ensures attempts == old(attempts) + old(Tried(event)) && given == old(given) + old(GivenBy(event))
      ensures state == old(StateAfter(event)) && tasks == old(TasksAfter(event)) && shut == old(ShutAfter(event))
      ensures state == Disconnected ==> output == old(output)
      ensures writeCompletes == old(writeCompletes) + Completed(old(Tried(event)))
      ensures highWaters == old(highWaters) + if |old(output)| < highWaterMark <= |output|
        && |output| > |old(output)| then [|output|] else []
      ensures handled == old(handled) + [event]
    {
      hide Accounts, Taken;
      Note(event);
      match event
      case Send(message, inLoop, w) => SendMessage(message, inLoop, w);
      case RunTask(w) => RunFirstTask(w);
      case Writable(w) => HandleWrite(w);
      case _ => ChangeState(event);
    }

    /** The events that neither give nor write anything. */
    method ChangeState(event: Event)
      requires Valid() && Enabled(event) && !event.Send? && !event.RunTask? && !event.Writable?
      modifies this`state, this`writing, this`tasks, this`shut, this`shutdownAsked, this`lostAtShutdown
      ensures Valid() && Grows(old(sent), old(given), old(state))
      ensures state == old(StateAfter(event)) && tasks == old(TasksAfter(event)) && shut == old(ShutAfter(event))
    {
      hide Accounts, Taken;
      match event
      case Established => state := Connected;
      case Shutdown(inLoop) => ShutdownConnection(inLoop);
      case ForceClose => ForceCloseConnection();
      case ForceCloseWithDelay =>
        if state == Connected {
          state := Disconnecting;
        }
      case PeerClosed => HandleClose();
      case Destroyed =>
        if state == Connected {
          HandleClose();
        }
    }

    /**
      Any run: whatever can happen, in any order, with any answers of the socket, as long as it can. The calls of
      `write` are those of the events, each with the answer that came with its event.
    */
    method Run(events: seq<Event>) returns (n: nat, ghost tried: seq<seq<Attempt>>)
      requires Valid()
      modifies this
      ensures Valid() && Grows(old(sent), old(given), old(state))
      ensures n <= |events| && handled == old(handled) + events[..n] && (n < |events| ==> !Enabled(events[n]))
      ensures attempts == old(attempts) + Joined(tried) && sent == Taken(attempts) && Answered(events[..n], tried)
    {
      hide Valid, Enabled, Taken, Joined, Answered;
      n, tried := 0, [];
      NothingTried(old(attempts));
      while n < |events| && Enabled(events[n])
        invariant n <= |events| && handled == old(handled) + events[..n]
        invariant Valid() && Grows(old(sent), old(given), old(state))
        invariant attempts == old(attempts) + Joined(tried) && Answered(events[..n], tried)
      {
        ghost var a := Tried(events[n]);
        TriedOnce(events[n]);
        AnsweredSnoc(old(attempts), events[..n], tried, events[n], a);
        assert events[..n + 1] == events[..n] + [events[n]];
        Handle(events[n]);
        tried := tried + [a];
        n := n + 1;
      }
      TakenIsSent();
    }

    lemma TakenIsSent()
      requires Valid()
      ensures sent == Taken(attempts)
    {
    }

    lemma TriedOnce(event: Event)
      ensures OneAnswer(event, Tried(event))
    {
    }
  }

  /** Whether a call of `write` took all that it was offered. */
  ghost function Completed(a: seq<Attempt>): (n: nat) {
    if |a| == 1 && a[0].answer == Wrote(|a[0].offered|) then 1 else 0
  }

  ghost function Joined(tried: seq<seq<Attempt>>): (a: seq<Attempt>) {
    if tried == [] then [] else Joined(tried[..|tried| - 1]) + tried[|tried| - 1]
  }

  /** An event calls `write` at most once and gets the answer that it carries. */
  ghost predicate OneAnswer(event: Event, a: seq<Attempt>) {
    a == [] ||
    (|a| == 1 && match event
      case Send(_, _, w) => a[0].answer == w
      case RunTask(w) => a[0].answer == w
      case Writable(w) => a[0].answer == w
      case _ => false)
  }

  ghost predicate Answered(happened: seq<Event>, tried: seq<seq<Attempt>>) {
    |happened| == |tried| && forall i :: 0 <= i < |happened| ==> OneAnswer(happened[i], tried[i])
  }

  lemma NothingTried(attempts: seq<Attempt>)
    ensures attempts + Joined([]) == attempts && Answered([], [])
  {
  }

  lemma AnsweredSnoc(attempts: seq<Attempt>, happened: seq<Event>, tried: seq<seq<Attempt>>, event: Event,
      a: seq<Attempt>)
    requires Answered(happened, tried) && OneAnswer(event, a)
    ensures Answered(happened + [event], tried + [a])
    ensures attempts + Joined(tried) + a == attempts + Joined(tried + [a])
  {
    assert (tried + [a])[..|tried|] == tried;
  }

  lemma JoinParts(a: seq<byte>, b: seq<byte>, x: seq<byte>, n: nat)
    requires n <= |x| && (n == 0 || b == [])
    ensures (a + x[..n]) + (b + x[n..]) == (a + b) + x
  {
    if n == 0 {
      assert x[..n] == [] && x[n..] == x;
      assert a + x[..n] == a;
      assert a + (b + x) == (a + b) + x;
    } else {
      assert b + x[n..] == x[n..] && a + b == a;
      assert x[..n] + x[n..] == x;
      assert (a + x[..n]) + x[n..] == a + (x[..n] + x[n..]);
    }
  }

  lemma AccountsSent(sent: seq<byte>, output: seq<byte>, given: seq<Given>, message: seq<byte>, n: nat)
    requires Accounts(sent, output, given, true) && n <= |message| && (n > 0 ==> output == [])
    ensures Accounts(sent + message[..n], output + message[n..], given + [Given(message, false)], true)
  {
    hide Kept;
    KeptSnoc(given, Given(message, false));
    JoinParts(sent, output, message, n);
  }

  lemma AccountsWritten(sent: seq<byte>, output: seq<byte>, given: seq<Given>, n: nat)
    requires Accounts(sent, output, given, true) && n <= |output|
    ensures Accounts(sent + output[..n], output[n..], given, true)
  {
    hide Kept;
    assert (sent + output[..n]) + output[n..] == sent + output;
  }

  lemma AccountsDropped(sent: seq<byte>, output: seq<byte>, given: seq<Given>, message: seq<byte>)
    requires Accounts(sent, output, given, true)
    ensures Accounts(sent, output, given + [Given(message, true)], true)
  {
    KeptSnoc(given, Given(message, true));
  }
}
