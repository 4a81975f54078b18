/**
  `TimerQueue` of `muduo/net/TimerQueue.cc`: the two indexes over one set of timers, the batch of
  expired timers whose callbacks add and cancel timers, and the timerfd that must wake the loop.

  Timers live at addresses; the allocator may hand out the address of a freed timer again. A callback
  is the list of `addTimer` and `cancel` calls it makes. One clock serves `Timestamp::now()` and the timerfd.
*/
module TimerQueue {

  datatype Timer = Timer(expiration: int, delta: nat, repeat: bool, sequence: nat)

  /** An element of `timers_`, ordered by time and then by address. */
  datatype Entry = Entry(when: int, addr: nat)

  /** An element of `activeTimers_`, and what a `TimerId` holds. */
  datatype Id = Id(addr: nat, sequence: nat)

  datatype Timerfd = Idle | Armed(deadline: int, at: int) | Fired

  /**
    What happens during a callback: it adds a timer at an address, or cancels an id, at some instant;
    or another thread creates a timer, which is inserted later.
  */
  datatype Action =
    | Add(addr: nat, when: int, delta: nat, repeat: bool, at: int)
    | Cancel(id: Id)
    | CreateElsewhere(addr: nat, when: int, delta: nat, repeat: bool)

  /** What can happen to the queue between wakeups, and a wakeup. */
  datatype Event =
    | Create(addr: nat, when: int, delta: nat, repeat: bool)
    | InsertInLoop(addr: nat, at: int)
    | CancelId(id: Id)
    | Clock(clock: int)
    | Readable(now: int, at: int, script: seq<seq<Action>>)

  predicate Less(a: Entry, b: Entry) {
    a.when < b.when || (a.when == b.when && a.addr < b.addr)
  }

  ghost predicate IsFirst(ts: set<Entry>, e: Entry) {
    e in ts && forall f :: f in ts && f != e ==> Less(e, f)
  }

  /** In the order of `timers_`. */
  ghost predicate Ordered(es: seq<Entry>) {
    forall i, j :: 0 <= i < j < |es| ==> Less(es[i], es[j])
  }

  // ----- the invariants

  /** `timers_` and `activeTimers_` hold the same live timers, under their current expirations. */
  ghost predicate SameTimers(heap: map<nat, Timer>, timers: set<Entry>, active: set<Id>) {
    && (forall e :: e in timers ==>
      e.addr in heap && heap[e.addr].expiration == e.when && Id(e.addr, heap[e.addr].sequence) in active)
    && (forall i :: i in active ==>
      i.addr in heap && heap[i.addr].sequence == i.sequence && Entry(heap[i.addr].expiration, i.addr) in timers)
  }

  ghost predicate Queued(timers: set<Entry>, a: nat) {
    exists e :: e in timers && e.addr == a
  }

  ghost predicate InBatch(batch: seq<Entry>, a: nat) {
    exists i :: 0 <= i < |batch| && batch[i].addr == a
  }

  /** Every live timer waits for insertion, is queued, or is in the running batch; never two of these. */
  ghost predicate Owned(heap: map<nat, Timer>, timers: set<Entry>, batch: seq<Entry>, pending: set<nat>) {
    && (forall a :: a in heap <==> a in pending || Queued(timers, a) || InBatch(batch, a))
    && (forall a :: a in pending ==> !Queued(timers, a) && !InBatch(batch, a))
    && (forall a :: InBatch(batch, a) ==> !Queued(timers, a))
    && (forall i, j :: 0 <= i < j < |batch| ==> batch[i].addr != batch[j].addr)
  }

  ghost predicate LiveSequence(heap: map<nat, Timer>, n: nat) {
    exists a :: a in heap && heap[a].sequence == n
  }

  /** Each timer ever created is live or was freed, and no sequence number is used twice. */
  ghost predicate Conserved(heap: map<nat, Timer>, created: nat, freed: set<nat>) {
    && (forall a, b :: a in heap && b in heap && a != b ==> heap[a].sequence != heap[b].sequence)
    && (forall a :: a in heap ==> heap[a].sequence !in freed)
    && (forall n: nat :: 1 <= n <= created <==> n in freed || LiveSequence(heap, n))
  }

  /** A cancelled timer that is still live is in the running batch and will be freed with it. */
  ghost predicate CancelledGone(heap: map<nat, Timer>, batch: seq<Entry>, canceling: set<Id>, cancelled: set<nat>) {
    forall a :: a in heap && heap[a].sequence in cancelled ==> InBatch(batch, a) && Id(a, heap[a].sequence) in canceling
  }

  /** In the running batch, the cancelled timers are those marked. */
  ghost predicate Marked(heap: map<nat, Timer>, batch: seq<Entry>, canceling: set<Id>, cancelled: set<nat>) {
    forall k :: 0 <= k < |batch| && batch[k].addr in heap ==>
      var a := batch[k].addr; heap[a].sequence in cancelled <==> Id(a, heap[a].sequence) in canceling
  }

  /** The ids that the actions cancel. */
  ghost function Asked(actions: seq<Action>): (ids: set<Id>)
    ensures forall id :: id in ids <==> Cancel(id) in actions
  {
    set x | x in actions && x.Cancel? :: x.id
  }

  /** The ids that the first `n` callbacks cancel. */
  ghost function AskedBy(script: seq<seq<Action>>, n: nat): (ids: set<Id>) {
    if n == 0 then {} else AskedBy(script, n - 1) + if n <= |script| then Asked(script[n - 1]) else {}
  }

  lemma {:induction false} AskedByMeans(script: seq<seq<Action>>, n: nat, id: Id)
    ensures id in AskedBy(script, n) <==> exists k :: 0 <= k < n && k < |script| && Cancel(id) in script[k]
  {
    if n > 0 {
      AskedByMeans(script, n - 1, id);
      if n <= |script| && Cancel(id) in script[n - 1] {
        assert id in Asked(script[n - 1]);
      }
    }
  }

  lemma AskedByNone(script: seq<seq<Action>>)
    ensures AskedBy(script, 0) == {}
  {
  }

  lemma AskedByNext(script: seq<seq<Action>>, k: nat)
    ensures AskedBy(script, k + 1) == AskedBy(script, k) + Asked(if k < |script| then script[k] else [])
  {
    assert Asked([]) == {};
  }

  /** What of the queue a callback can change and a later batch can see. */
  datatype Snapshot =
    Snapshot(heap: map<nat, Timer>, pending: set<nat>, created: nat, freed: set<nat>, cancelled: set<nat>)

  ghost function Created(p: Snapshot, addr: nat, when: int, delta: nat, repeat: bool): (q: Snapshot) {
    p.(heap := p.heap[addr := Timer(when, delta, repeat, p.created + 1)], created := p.created + 1)
  }

  /** What one action does: which timers there are, which wait for insertion, which are freed or cancelled. */
  ghost function ActOn(p: Snapshot, batch: seq<Entry>, action: Action): (q: Snapshot) {
    match action
    case Add(addr, when, delta, repeat, _) =>
      if addr in p.heap then p else Created(p, addr, when, delta, repeat)
    case CreateElsewhere(addr, when, delta, repeat) =>
      if addr in p.heap then p
      else Created(p, addr, when, delta, repeat).(pending := p.pending + {addr})
    case Cancel(id) =>
      if id.addr !in p.heap || p.heap[id.addr].sequence != id.sequence || id.addr in p.pending then p
      else if InBatch(batch, id.addr) then p.(cancelled := p.cancelled + {id.sequence})
      else
        var cancelled := p.cancelled + {id.sequence};
        p.(heap := p.heap - {id.addr}, freed := p.freed + {id.sequence}, cancelled := cancelled)
  }

  ghost function ActAll(p: Snapshot, batch: seq<Entry>, actions: seq<Action>): (q: Snapshot) {
    if actions == [] then p else ActOn(ActAll(p, batch, actions[..|actions| - 1]), batch, actions[|actions| - 1])
  }

  lemma ActAllSnoc(p: Snapshot, batch: seq<Entry>, actions: seq<Action>, action: Action)
    ensures ActAll(p, batch, actions + [action]) == ActOn(ActAll(p, batch, actions), batch, action)
  {
    assert (actions + [action])[..|actions|] == actions;
  }

  lemma {:induction false} ActAllConcat(p: Snapshot, batch: seq<Entry>, a: seq<Action>, b: seq<Action>)
    ensures ActAll(p, batch, a + b) == ActAll(ActAll(p, batch, a), batch, b)
  {
    if b == [] {
      assert a + b == a;
    } else {
      ActAllConcat(p, batch, a, b[..|b| - 1]);
      assert (a + b)[..|a + b| - 1] == a + b[..|b| - 1];
    }
  }

  lemma ActNothing(p: Snapshot, batch: seq<Entry>, script: seq<seq<Action>>)
    ensures ActAll(p, batch, ActionsOf(script, 0)) == p
  {
  }

  /** What the first `n` callbacks do, one after the other. */
  ghost function ActionsOf(script: seq<seq<Action>>, n: nat): (actions: seq<Action>) {
    if n == 0 then [] else ActionsOf(script, n - 1) + if n <= |script| then script[n - 1] else []
  }

  /**
    A timer that the `i`-th action adds, at an address that is free then, has a number above all earlier
    ones; unless a later action cancels it, it is there at the end as it was added, and inserted.
  */
  lemma {:induction false} AddedStays(p: Snapshot, batch: seq<Entry>, actions: seq<Action>, i: nat)
    requires i < |actions| && actions[i].Add? && actions[i].addr !in ActAll(p, batch, actions[..i]).heap
    requires p.pending <= p.heap.Keys && forall k :: 0 <= k < |batch| ==> batch[k].addr in p.heap
    ensures var add, n := actions[i], ActAll(p, batch, actions[..i]).created + 1;
      var q := ActAll(p, batch, actions);
      Cancel(Id(add.addr, n)) !in actions[i + 1..] ==>
        && add.addr in q.heap && q.heap[add.addr] == Timer(add.when, add.delta, add.repeat, n)
        && add.addr !in q.pending && !InBatch(batch, add.addr) && n > p.created
    decreases |actions|
  {
    hide ActOn;
    ActKeepsShape(p, batch, actions[..i]);
    var k := |actions| - 1;
    var was, add := ActAll(p, batch, actions[..k]), actions[i];
    if i < k {
      var later, j := actions[i + 1..], k - i - 1;
      assert later[j] == actions[i + 1 + j];
      assert actions[..k][..i] == actions[..i] && actions[..k][i + 1..] == later[..j];
      AddedStays(p, batch, actions[..k], i);
      TimerKept(was, batch, actions[k], add.addr);
    } else {
      AddActs(was, batch, add.addr, add.when, add.delta, add.repeat, add.at);
      NotInBatch(batch, was.heap, add.addr);
    }
  }

  /** A timer that another thread creates meanwhile waits for its insertion, whatever is cancelled. */
  lemma {:induction false} ElsewhereStays(p: Snapshot, batch: seq<Entry>, actions: seq<Action>, i: nat)
    requires i < |actions| && actions[i].CreateElsewhere?
    requires actions[i].addr !in ActAll(p, batch, actions[..i]).heap
    ensures var create, n := actions[i], ActAll(p, batch, actions[..i]).created + 1;
      var q := ActAll(p, batch, actions);
      && create.addr in q.heap && q.heap[create.addr] == Timer(create.when, create.delta, create.repeat, n)
      && create.addr in q.pending
    decreases |actions|
  {
    hide ActOn;
    var k := |actions| - 1;
    var was, create := ActAll(p, batch, actions[..k]), actions[i];
    if i < k {
      assert actions[..k][..i] == actions[..i];
      ElsewhereStays(p, batch, actions[..k], i);
      PendingKept(was, batch, actions[k], create.addr);
    } else {
      AddActs(was, batch, create.addr, create.when, create.delta, create.repeat, 0);
    }
  }

  lemma PendingKept(p: Snapshot, batch: seq<Entry>, action: Action, a: nat)
    ensures var q := ActOn(p, batch, action);
      a in p.heap && a in p.pending ==> a in q.heap && q.heap[a] == p.heap[a] && a in q.pending
  {
    hide InBatch;
  }

  lemma NotInBatch(batch: seq<Entry>, heap: map<nat, Timer>, a: nat)
    requires a !in heap && forall k :: 0 <= k < |batch| ==> batch[k].addr in heap
    ensures !InBatch(batch, a)
  {
  }

  /** An action that does not cancel a timer leaves it where it is. */
  lemma TimerKept(p: Snapshot, batch: seq<Entry>, action: Action, a: nat)
    ensures var q := ActOn(p, batch, action);
      a in p.heap && a !in p.pending && action != Cancel(Id(a, p.heap[a].sequence)) ==>
        a in q.heap && q.heap[a] == p.heap[a] && a !in q.pending
  {
    hide InBatch;
  }

  /** The timers of the batch stay, and what waits for insertion is there. */
  lemma {:induction false} ActKeepsShape(p: Snapshot, batch: seq<Entry>, actions: seq<Action>)
    requires p.pending <= p.heap.Keys && forall k :: 0 <= k < |batch| ==> batch[k].addr in p.heap
    ensures var q := ActAll(p, batch, actions);
      && q.pending <= q.heap.Keys && q.created >= p.created
      && forall k :: 0 <= k < |batch| ==> batch[k].addr in q.heap
  {
    if actions != [] {
      ActKeepsShape(p, batch, actions[..|actions| - 1]);
    }
  }

  /** What `reset` does with one timer of the batch. */
  ghost function ResetTimer(p: Snapshot, e: Entry, now: int): (q: Snapshot) {
    if e.addr !in p.heap then p
    else
      var t := p.heap[e.addr];
      if t.repeat && t.sequence !in p.cancelled then p.(heap := p.heap[e.addr := t.(expiration := now + t.delta)])
      else p.(heap := p.heap - {e.addr}, freed := p.freed + {t.sequence})
  }

  ghost function ResetAll(p: Snapshot, expired: seq<Entry>, now: int): (q: Snapshot) {
    if expired == [] then p else ResetTimer(ResetAll(p, expired[..|expired| - 1], now), expired[|expired| - 1], now)
  }

  /** A wakeup: the callbacks of the batch, and `reset`. */
  ghost function Woken(p: Snapshot, expired: seq<Entry>, script: seq<seq<Action>>, now: int): (q: Snapshot) {
    ResetAll(ActAll(p, expired, ActionsOf(script, |expired|)), expired, now)
  }

  lemma {:induction false} ResetOthers(p: Snapshot, expired: seq<Entry>, now: int, a: nat)
    requires !InBatch(expired, a)
    ensures var q := ResetAll(p, expired, now);
      && (a in q.heap <==> a in p.heap) && (a in p.heap ==> q.heap[a] == p.heap[a])
      && q.pending == p.pending && q.cancelled == p.cancelled
  {
    if expired != [] {
      var k := |expired| - 1;
      assert expired[k].addr != a;
      assert !InBatch(expired[..k], a) by {
        assert forall i :: 0 <= i < k ==> expired[..k][i] == expired[i];
      }
      ResetOthers(p, expired[..k], now, a);
    }
  }

  /** So it is over a whole wakeup: what a callback adds and no later one cancels is there afterwards, and inserted. */
  lemma AddedInBatch(p: Snapshot, expired: seq<Entry>, actions: seq<Action>, i: nat, now: int)
    requires i < |actions| && actions[i].Add? && actions[i].addr !in ActAll(p, expired, actions[..i]).heap
    requires p.pending <= p.heap.Keys && forall k :: 0 <= k < |expired| ==> expired[k].addr in p.heap
    ensures var add, n := actions[i], ActAll(p, expired, actions[..i]).created + 1;
      var q := ResetAll(ActAll(p, expired, actions), expired, now);
      Cancel(Id(add.addr, n)) !in actions[i + 1..] ==>
        && add.addr in q.heap && q.heap[add.addr] == Timer(add.when, add.delta, add.repeat, n)
        && add.addr !in q.pending && n > p.created
  {
    AddedStays(p, expired, actions, i);
    if !InBatch(expired, actions[i].addr) {
      ResetOthers(ActAll(p, expired, actions), expired, now, actions[i].addr);
    }
  }

  /**
    From `p` to `q` the ids in `asked` were cancelled: an inserted timer among them is cancelled, and freed
    unless it is in the running batch; every other timer is as it was.
  */
  ghost predicate Follows(p: Snapshot, q: Snapshot, batch: seq<Entry>, asked: set<Id>) {
    && p.freed <= q.freed && p.cancelled <= q.cancelled
    && forall a :: a in p.heap ==>
      var t := p.heap[a];
      var hit := a !in p.pending && Id(a, t.sequence) in asked;
      if hit && !InBatch(batch, a) then t.sequence in q.freed && t.sequence in q.cancelled
      else
        && a in q.heap && q.heap[a] == t && (a in q.pending <==> a in p.pending)
        && (t.sequence in q.cancelled <==> t.sequence in p.cancelled || hit)
  }

  lemma FollowsChain(p: Snapshot, q: Snapshot, r: Snapshot, batch: seq<Entry>, asked: set<Id>, more: set<Id>)
    requires Follows(p, q, batch, asked) && Follows(q, r, batch, more)
    ensures Follows(p, r, batch, asked + more)
  {
    hide InBatch;
  }

  lemma FollowsItself(p: Snapshot, batch: seq<Entry>)
    ensures Follows(p, p, batch, {})
  {
  }

  lemma FollowsCreated(p: Snapshot, q: Snapshot, batch: seq<Entry>, addr: nat)
    requires addr !in p.heap && p.freed == q.freed && p.cancelled == q.cancelled
    requires forall a :: a in p.heap ==> a in q.heap && q.heap[a] == p.heap[a]
    requires forall a :: a != addr ==> (a in q.pending <==> a in p.pending)
    ensures Follows(p, q, batch, {})
  {
  }

  lemma FollowsCancelled(p: Snapshot, q: Snapshot, active: set<Id>, batch: seq<Entry>, id: Id)
    requires forall a :: a in p.heap ==>
      (Id(a, p.heap[a].sequence) in active <==> a !in p.pending && !InBatch(batch, a))
    requires forall a :: a in p.pending ==> !InBatch(batch, a)
    requires forall a, b :: a in p.heap && b in p.heap && a != b ==> p.heap[a].sequence != p.heap[b].sequence
    requires id in active ==> id.addr in p.heap && p.heap[id.addr].sequence == id.sequence
    requires q.pending == p.pending
    requires id in active ==> q.heap == p.heap - {id.addr} && q.freed == p.freed + {id.sequence}
    requires id !in active ==> q.heap == p.heap && q.freed == p.freed
    requires
      var running := InBatch(batch, id.addr) && id.addr in p.heap && p.heap[id.addr].sequence == id.sequence;
      q.cancelled == p.cancelled + if id in active || running then {id.sequence} else {}
    ensures Follows(p, q, batch, {id})
  {
    hide InBatch;
  }

  lemma AddActs(p: Snapshot, batch: seq<Entry>, addr: nat, when: int, delta: nat, repeat: bool, at: int)
    ensures ActOn(p, batch, Add(addr, when, delta, repeat, at)) ==
      if addr in p.heap then p else Created(p, addr, when, delta, repeat)
    ensures ActOn(p, batch, CreateElsewhere(addr, when, delta, repeat)) ==
      if addr in p.heap then p else Created(p, addr, when, delta, repeat).(pending := p.pending + {addr})
  {
  }

  lemma CancelActs(p: Snapshot, q: Snapshot, active: set<Id>, batch: seq<Entry>, id: Id)
    requires forall a :: a in p.heap ==>
      (Id(a, p.heap[a].sequence) in active <==> a !in p.pending && !InBatch(batch, a))
    requires forall a :: a in p.pending ==> !InBatch(batch, a)
    requires id in active ==> id.addr in p.heap && p.heap[id.addr].sequence == id.sequence
    requires q.pending == p.pending && q.created == p.created
    requires id in active ==> q.heap == p.heap - {id.addr} && q.freed == p.freed + {id.sequence}
    requires id !in active ==> q.heap == p.heap && q.freed == p.freed
    requires
      var running := InBatch(batch, id.addr) && id.addr in p.heap && p.heap[id.addr].sequence == id.sequence;
      q.cancelled == p.cancelled + if id in active || running then {id.sequence} else {}
    ensures q == ActOn(p, batch, Cancel(id))
  {
    hide InBatch;
  }

  lemma FollowsBatch(p: Snapshot, q: Snapshot, batch: seq<Entry>, asked: set<Id>)
    requires Follows(p, q, batch, asked) && forall k :: 0 <= k < |batch| ==> batch[k].addr in p.heap
    ensures forall k :: 0 <= k < |batch| ==> batch[k].addr in q.heap && q.heap[batch[k].addr] == p.heap[batch[k].addr]
  {
    forall k | 0 <= k < |batch|
      ensures batch[k].addr in q.heap && q.heap[batch[k].addr] == p.heap[batch[k].addr]
    {
      BatchMember(batch, k);
    }
  }

  /**
    A wakeup at `now` brings every timer of `p` where it belongs, `asked` being the ids that its callbacks
    cancel. A due timer is queued again if it repeats and is not cancelled, and freed if not; another
    inserted timer that is cancelled is freed; the rest is untouched. Only inserted timers can be cancelled.
  */
  ghost predicate Settled(p: Snapshot, q: Snapshot, timers: set<Entry>, expired: seq<Entry>, asked: set<Id>, now: int) {
    forall a :: a in p.heap ==>
      var t := p.heap[a];
      var hit := a !in p.pending && Id(a, t.sequence) in asked;
      && (t.sequence in q.cancelled <==> hit)
      && if Entry(t.expiration, a) in expired then
           if t.repeat && !hit
           then a in q.heap && q.heap[a] == t.(expiration := now + t.delta) && Entry(now + t.delta, a) in timers
           else t.sequence in q.freed
         else if hit then t.sequence in q.freed
         else
           && a in q.heap && q.heap[a] == t && (a in q.pending <==> a in p.pending)
           && (a !in p.pending ==> Entry(t.expiration, a) in timers)
  }

  /**
    No call of a timer that was cancelled before the batch of the call began; `before[k]` is what was cancelled
    by then.
  */
  ghost predicate NoLateCalls(ran: seq<nat>, before: seq<set<nat>>, cancelled: set<nat>) {
    |before| == |ran| && forall k :: 0 <= k < |ran| ==> ran[k] !in before[k] && before[k] <= cancelled
  }

  /** The timerfd wakes the loop for a timer that expires at `when`, at the latest 100 us after it was armed. */
  predicate Wakes(fd: Timerfd, when: int) {
    fd.Fired? || (fd.Armed? && fd.deadline <= if when > fd.at + 100 then when else fd.at + 100)
  }

  /** `howMuchTimeFromNow` and `resetTimerfd`: at least 100 microseconds from now. */
  function ResetTimerfd(expiration: int, now: int): (fd: Timerfd)
    ensures Wakes(fd, expiration)
  {
    var microseconds := expiration - now;
    Armed(now + (if microseconds < 100 then 100 else microseconds), now)
  }

  lemma WakesLater(fd: Timerfd, when: int, later: int)
    requires Wakes(fd, when) && when <= later
    ensures Wakes(fd, later)
  {
  }

  method First(ts: set<Entry>) returns (e: Entry)
    requires ts != {}
    ensures IsFirst(ts, e)
  {
    e :| e in ts;
    var rest := ts - {e};
    while rest != {}
      invariant rest <= ts && e in ts && e !in rest
      invariant forall f :: f in ts && f !in rest && f != e ==> Less(e, f)
      decreases rest
    {
      var f :| f in rest;
      if Less(f, e) {
        e := f;
      }
      rest := rest - {f};
    }
  }

  /** The elements up to `now`, as `std::copy` takes them from the ordered set. */
  method UpTo(ts: set<Entry>, now: int) returns (es: seq<Entry>)
    ensures Ordered(es) && forall e :: e in es <==> e in ts && e.when <= now
  {
    es := [];
    var left := set e | e in ts && e.when <= now;
    while left != {}
      invariant left <= ts && Ordered(es)
      invariant forall e :: e in ts && e.when <= now <==> e in left || e in es
      invariant forall e, f :: e in es && f in left ==> Less(e, f)
      decreases left
    {
      var e := First(left);
      es := es + [e];
      left := left - {e};
    }
  }

  /** Both indexes have the same size, as the source asserts at each step. */
  lemma {:induction false} SameSize(heap: map<nat, Timer>, timers: set<Entry>, active: set<Id>)
    requires SameTimers(heap, timers, active)
    ensures |timers| == |active|
    decreases |active|
  {
    assert forall e :: e in timers ==> Id(e.addr, heap[e.addr].sequence) in active;
    if id :| id in active {
      Erased(heap, timers, active, id);
      var e := Entry(heap[id.addr].expiration, id.addr);
      SameSize(heap - {id.addr}, timers - {e}, active - {id});
      assert timers == (timers - {e}) + {e} && active == (active - {id}) + {id};
    }
  }

  // ----- one index operation

  lemma Inserted(heap: map<nat, Timer>, timers: set<Entry>, active: set<Id>, a: nat)
    requires SameTimers(heap, timers, active) && a in heap && !Queued(timers, a)
    ensures SameTimers(heap, timers + {Entry(heap[a].expiration, a)}, active + {Id(a, heap[a].sequence)})
    ensures Entry(heap[a].expiration, a) !in timers && Id(a, heap[a].sequence) !in active
  {
  }

  lemma InsertedOwned(heap: map<nat, Timer>, timers: set<Entry>, batch: seq<Entry>, pending: set<nat>, a: nat)
    requires Owned(heap, timers, batch, pending) && a in pending
    ensures a in heap && !Queued(timers, a)
    ensures Owned(heap, timers + {Entry(heap[a].expiration, a)}, batch, pending - {a})
  {
    var e := Entry(heap[a].expiration, a);
    var timers' := timers + {e};
    forall b
      ensures Queued(timers', b) <==> Queued(timers, b) || b == a
    {
      if b == a {
        assert e in timers' && e.addr == b;
      }
      if Queued(timers, b) {
        var f :| f in timers && f.addr == b;
        assert f in timers';
      }
    }
  }

  lemma ErasedOwned(heap: map<nat, Timer>, timers: set<Entry>, active: set<Id>, batch: seq<Entry>, pending: set<nat>,
                    id: Id)
    requires SameTimers(heap, timers, active) && Owned(heap, timers, batch, pending) && id in active
    ensures Owned(heap - {id.addr}, timers - {Entry(heap[id.addr].expiration, id.addr)}, batch, pending)
    ensures !InBatch(batch, id.addr)
  {
    var e := Entry(heap[id.addr].expiration, id.addr);
    var timers' := timers - {e};
    assert e in timers && e.addr == id.addr;
    assert Queued(timers, id.addr);
    forall b
      ensures Queued(timers', b) <==> Queued(timers, b) && b != id.addr
    {
      if Queued(timers, b) && b != id.addr {
        var f :| f in timers && f.addr == b;
        assert f in timers';
      }
    }
  }

  lemma Erased(heap: map<nat, Timer>, timers: set<Entry>, active: set<Id>, id: Id)
    requires SameTimers(heap, timers, active) && id in active
    ensures SameTimers(heap - {id.addr}, timers - {Entry(heap[id.addr].expiration, id.addr)}, active - {id})
    ensures id.addr in heap && Entry(heap[id.addr].expiration, id.addr) in timers
      && heap[id.addr].sequence == id.sequence
  {
  }

  class TimerQueue {
    var heap: map<nat, Timer>
    var timers: set<Entry>
    var active: set<Id>
    var canceling: set<Id>
    var calling: bool
    var created: nat
    var fd: Timerfd
    ghost var batch: seq<Entry>    // expired timers whose batch is running
    ghost var batchNow: int
    var pending: set<nat>          // created, but `addTimerInLoop` has not run yet
    ghost var freed: set<nat>      // sequence numbers of deleted timers
    ghost var cancelled: set<nat>  // sequence numbers cancelled while queued or in the running batch
    ghost var ran: seq<nat>        // sequence numbers in the order in which callbacks ran
    ghost var before: seq<set<nat>>  // for each call, what was cancelled when its batch began
    ghost var handled: seq<Event>

    constructor ()
      ensures Valid() && !calling && heap == map[] && timers == {} && active == {} && pending == {}
      ensures created == 0 && ran == [] && cancelled == freed == {} && handled == []
    {
      heap, timers, active, canceling, calling, created, fd := map[], {}, {}, {}, false, 0, Idle;
      batch, batchNow, pending, freed, cancelled, ran, before, handled := [], 0, {}, {}, {}, [], [], [];
    }

    ghost predicate Consistent()
      reads this`heap, this`timers, this`active, this`batch, this`pending, this`created, this`freed
      reads this`canceling, this`cancelled, this`ran, this`before
    {
      Sound() && Marked(heap, batch, canceling, cancelled)
    }

    ghost predicate Sound()
      reads this`heap, this`timers, this`active, this`batch, this`pending, this`created, this`freed
      reads this`canceling, this`cancelled, this`ran, this`before
    {
      && SameTimers(heap, timers, active) && Owned(heap, timers, batch, pending) && Conserved(heap, created, freed)
      && CancelledGone(heap, batch, canceling, cancelled)
      && NoLateCalls(ran, before, cancelled)
      && (forall n :: n in cancelled ==> n <= created)
      && (forall k :: 0 <= k < |batch| ==> batch[k].addr in heap && heap[batch[k].addr].expiration == batch[k].when)
    }

    ghost function Now(): (s: Snapshot)
      reads this
    {
      Snapshot(heap, pending, created, freed, cancelled)
    }

    /** Holds whenever the loop is not inside `reset`. */
    ghost predicate Valid()
      reads this
    {
      && Consistent()
      && (!calling ==> batch == [] && forall e :: e in timers ==> Wakes(fd, e.when))
      && (calling ==> batchNow > 0 && forall e :: e in timers && e.when <= batchNow ==> Wakes(fd, e.when))
    }

    /** `new Timer` in `addTimer`: the allocator picks any address that is not in use. */
    method NewTimer(addr: nat, when: int, delta: nat, repeat: bool) returns (id: Id)
      requires Valid() && addr !in heap
      modifies this`heap, this`created, this`pending
      ensures Valid() && heap == old(heap)[addr := Timer(when, delta, repeat, id.sequence)] && id.addr == addr
      ensures id.sequence == created == old(created) + 1 && pending == old(pending) + {addr}
      ensures id.sequence !in freed && id.sequence !in cancelled && id !in active
    {
      hide SameTimers, Owned, Conserved, Wakes;
      assert created + 1 !in freed by {
        Sequences(heap, created, freed);
      }
      created := created + 1;
      id := Id(addr, created);
      heap := heap[addr := Timer(when, delta, repeat, created)];
      pending := pending + {addr};
      CreatedKeeps(old(heap), heap, old(created), freed, addr);
      CreatedOwned(old(heap), heap, timers, active, batch, old(pending), addr);
    }

    method Insert(addr: nat) returns (earliestChanged: bool)
      requires Consistent() && addr in pending
      modifies this`timers, this`active, this`pending
      ensures Consistent() && addr in heap && pending == old(pending) - {addr}
      ensures timers == old(timers) + {Entry(heap[addr].expiration, addr)}
        && active == old(active) + {Id(addr, heap[addr].sequence)}
      ensures earliestChanged <==> forall e :: e in old(timers) ==> heap[addr].expiration < e.when
    {
      hide SameTimers, Owned, Conserved, CancelledGone;
      assert addr in heap by {
        InsertedOwned(heap, timers, batch, pending, addr);
      }
      earliestChanged := timers == {};
      if timers != {} {
        var e := First(timers);
        earliestChanged := heap[addr].expiration < e.when;
      }
      InsertedOwned(heap, timers, batch, pending, addr);
      Inserted(heap, timers, active, addr);
      timers := timers + {Entry(heap[addr].expiration, addr)};
      active := active + {Id(addr, heap[addr].sequence)};
      pending := pending - {addr};
    }

    method AddTimerInLoop(addr: nat, now: int)
      requires Valid() && addr in pending
      modifies this`timers, this`active, this`pending, this`fd
      ensures Valid() && addr in heap && pending == old(pending) - {addr}
      ensures timers == old(timers) + {Entry(heap[addr].expiration, addr)}
        && active == old(active) + {Id(addr, heap[addr].sequence)}
    {
      hide SameTimers, Owned, Conserved, CancelledGone;
      var earliestChanged := Insert(addr);
      if earliestChanged {
        fd := ResetTimerfd(heap[addr].expiration, now);
      }
    }

    /** The id is that of a timer of the running batch. */
    ghost predicate Running(id: Id)
      reads this
    {
      InBatch(batch, id.addr) && id.addr in heap && heap[id.addr].sequence == id.sequence
    }

    /**
      Cancelling an id frees its timer if that is queued, and otherwise touches no timer. It takes effect
      exactly if the timer is queued or in the running batch: a timer not inserted yet is not cancelled.
    */
    method CancelInLoop(id: Id)
      requires Valid()
      modifies this`heap, this`timers, this`active, this`canceling, this`freed, this`cancelled
      ensures Valid()
      ensures id in old(active) ==>
        && heap == old(heap) - {id.addr} && timers == old(timers) - {Entry(old(heap)[id.addr].expiration, id.addr)}
        && active == old(active) - {id} && freed == old(freed) + {id.sequence} && id.sequence in cancelled
      ensures id !in old(active) ==>
        heap == old(heap) && timers == old(timers) && active == old(active) && freed == old(freed)
      ensures cancelled == old(cancelled) + if id in old(active) || Running(id) then {id.sequence} else {}
      ensures canceling == old(canceling) + if id !in old(active) && calling then {id} else {}
      ensures forall a :: a in old(heap) && old(heap)[a].sequence != id.sequence ==>
        a in heap && heap[a] == old(heap)[a]
    {
      hide SameTimers, Owned, Conserved, Wakes;
      Sequences(heap, created, freed);
      if id in active {
        EraseAndDelete(id);
      } else if calling {
        canceling := canceling + {id};
        if Running(id) {
          cancelled := cancelled + {id.sequence};
        }
      }
    }

    /** The timers with expiration up to `now`, in order, out of both indexes. */
    method GetExpired(now: int) returns (expired: seq<Entry>)
      requires Consistent() && batch == []
      modifies this`timers, this`active, this`batch
      ensures Sound() && batch == expired && Ordered(expired)
      ensures forall e :: e in expired <==> e in old(timers) && e.when <= now
      ensures timers == old(timers) - set e | e in expired
    {
      hide SameTimers, Owned, Conserved, CancelledGone, InBatch;
      expired := UpTo(timers, now);
      EntriesLive(heap, timers, active);
      var gone := set i | i in active && Entry(heap[i.addr].expiration, i.addr) in expired;
      Expired(heap, timers, active, pending, expired, gone);
      NothingCancelled(heap, canceling, cancelled, expired);
      timers := timers - (set e | e in expired);
      active := active - gone;
      batch := expired;
    }

    /**
      A callback that adds and cancels timers, any of them, its own included: what it cancels is
      cancelled if it was inserted, and the timers of the batch are not freed under it.
    */
    method RunCallback(actions: seq<Action>)
      requires Valid() && calling
      modifies this`heap, this`timers, this`active, this`canceling, this`created, this`fd, this`pending
      modifies this`freed, this`cancelled
      ensures Valid() && Follows(old(Now()), Now(), batch, Asked(actions))
      ensures Now() == ActAll(old(Now()), batch, actions)
    {
      hide Consistent, Wakes, Follows, ActOn;
      FollowsItself(Now(), batch);
      assert Asked(actions[..0]) == {};
      for i := 0 to |actions|
        invariant Valid() && Follows(old(Now()), Now(), batch, Asked(actions[..i]))
        invariant Now() == ActAll(old(Now()), batch, actions[..i])
      {
        ActAllSnoc(old(Now()), batch, actions[..i], actions[i]);
        assert actions[..i + 1] == actions[..i] + [actions[i]];
        assert Asked(actions[..i + 1]) == Asked(actions[..i]) + Asked([actions[i]]);
        ghost var was := Now();
        Act(actions[i]);
        FollowsChain(old(Now()), was, Now(), batch, Asked(actions[..i]), Asked([actions[i]]));
      }
      assert actions[..|actions|] == actions;
    }

    method Act(action: Action)
      requires Valid()
      modifies this`heap, this`timers, this`active, this`canceling, this`created, this`fd, this`pending
      modifies this`freed, this`cancelled
      ensures Valid() && Follows(old(Now()), Now(), batch, Asked([action])) && Now() == ActOn(old(Now()), batch, action)
    {
      hide Conserved, Wakes, CancelledGone, Marked, SameTimers, Owned, InBatch, NoLateCalls, Follows, ActOn;
      FollowsItself(Now(), batch);
      assert !action.Cancel? ==> Asked([action]) == {};
      WhereTimersAre(heap, timers, active, batch, pending);
      match action
      case Add(addr, when, delta, repeat, at) =>
        AddActs(Now(), batch, addr, when, delta, repeat, at);
        if addr !in heap {
          AddTimer(addr, when, delta, repeat, at);
          FollowsCreated(old(Now()), Now(), batch, addr);
        }
      case Cancel(id) =>
        Sequences(heap, created, freed);
        CancelInLoop(id);
        FollowsCancelled(old(Now()), Now(), old(active), batch, id);
        CancelActs(old(Now()), Now(), old(active), batch, id);
        assert Asked([action]) == {id};
      case CreateElsewhere(addr, when, delta, repeat) =>
        AddActs(Now(), batch, addr, when, delta, repeat, 0);
        if addr !in heap {
          var _ := NewTimer(addr, when, delta, repeat);
          FollowsCreated(old(Now()), Now(), batch, addr);
        }
    }

    /** `addTimer` in the loop thread: created and inserted at once. */
    method AddTimer(addr: nat, when: int, delta: nat, repeat: bool, at: int)
      requires Valid() && addr !in heap
      modifies this`heap, this`timers, this`active, this`created, this`fd, this`pending
      ensures Valid() && Now() == Created(old(Now()), addr, when, delta, repeat)
      ensures timers == old(timers) + {Entry(when, addr)}
    {
      hide Valid;
      WhatIsLive(this);
      var _ := NewTimer(addr, when, delta, repeat);
      AddTimerInLoop(addr, at);
      assert pending == old(pending);
    }

    /** The body of the loop of `reset`: restart the first timer of the batch, or delete it. */
    method ResetOne(e: Entry, now: int)
      requires Consistent() && batch != [] && e == batch[0] && e.addr in heap
      modifies this`heap, this`timers, this`active, this`batch, this`pending, this`freed
      ensures Consistent() && batch == old(batch)[1..] && pending == old(pending)
      ensures var a := e.addr; var t := old(heap)[a];
        if t.repeat && t.sequence !in cancelled
        then heap == old(heap)[a := t.(expiration := now + t.delta)]
          && timers == old(timers) + {Entry(now + t.delta, a)} && freed == old(freed)
        else heap == old(heap) - {a} && timers == old(timers) && freed == old(freed) + {t.sequence}
      ensures Now() == ResetTimer(old(Now()), e, now)
    {
      hide Sound, Marked;
      MarkedFirst(heap, batch, canceling, cancelled);
      if heap[e.addr].repeat && Id(e.addr, heap[e.addr].sequence) !in canceling {
        RestartOne(e, now);
      } else {
        DeleteOne(e);
      }
    }

    method RestartOne(e: Entry, now: int)
      requires Consistent() && batch != [] && e == batch[0] && e.addr in heap
      requires Id(e.addr, heap[e.addr].sequence) !in canceling
      modifies this`heap, this`timers, this`active, this`batch, this`pending
      ensures Consistent() && batch == old(batch)[1..] && pending == old(pending)
      ensures var t := old(heap)[e.addr];
        && heap == old(heap)[e.addr := t.(expiration := now + t.delta)]
        && timers == old(timers) + {Entry(now + t.delta, e.addr)}
    {
      hide SameTimers, Owned, Conserved, CancelledGone, Marked, NoLateCalls, InBatch;
      var a := e.addr;
      var t := heap[a];
      BatchDistinct(heap, timers, batch, pending);
      BatchMember(batch, 0);
      Restarted(heap, timers, active, batch, pending, now + t.delta);
      heap := heap[a := t.(expiration := now + t.delta)];
      CancelledPopped(old(heap), heap, batch, canceling, cancelled);
      MarkedPopped(old(heap), heap, batch, canceling, cancelled);
      RestartKeeps(old(heap), heap, created, freed);
      batch, pending := batch[1..], pending + {a};
      var _ := Insert(a);
    }

    method DeleteOne(e: Entry)
      requires Consistent() && batch != [] && e == batch[0] && e.addr in heap
      modifies this`heap, this`batch, this`freed
      ensures Consistent() && batch == old(batch)[1..]
      ensures heap == old(heap) - {e.addr} && freed == old(freed) + {old(heap)[e.addr].sequence}
    {
      hide SameTimers, Owned, Conserved, CancelledGone, Marked, NoLateCalls, InBatch;
      var a := e.addr;
      var t := heap[a];
      BatchDistinct(heap, timers, batch, pending);
      Deleted(heap, timers, active, batch, pending);
      FreedKeeps(heap, created, freed, a);
      heap, freed := heap - {a}, freed + {t.sequence};
      CancelledPopped(old(heap), heap, batch, canceling, cancelled);
      MarkedPopped(old(heap), heap, batch, canceling, cancelled);
      batch := batch[1..];
    }

    /** `reset`: the batch, and then the timerfd for the earliest timer. */
    method Reset(expired: seq<Entry>, now: int, at: int)
      requires Consistent() && batch == expired && !calling && now > 0
      requires forall e :: e in timers && e.when <= 0 ==> Wakes(fd, e.when)
      modifies this`heap, this`timers, this`active, this`batch, this`pending, this`freed, this`fd
      ensures Valid() && old(freed) <= freed && pending == old(pending)
      ensures BatchReset(old(heap), Now(), timers, expired, |expired|, now)
      ensures Now() == ResetAll(old(Now()), expired, now)
      ensures timers == {} ==> fd == old(fd)
      ensures forall e :: IsFirst(timers, e) ==> fd == if e.when > 0 then ResetTimerfd(e.when, at) else old(fd)
    {
      hide Consistent, Wakes, BatchReset, ResetAll, ResetTimerfd;
      ResetBatch(expired, now);
      if timers != {} {
        var e := First(timers);
        if e.when > 0 {
          fd := ResetTimerfd(e.when, at);
        }
        forall f | f in timers
          ensures Wakes(fd, f.when)
        {
          WakesLater(fd, e.when, f.when);
        }
      }
    }

    /** The loop of `reset`. */
    method ResetBatch(expired: seq<Entry>, now: int)
      requires Consistent() && batch == expired && now > 0
      modifies this`heap, this`timers, this`active, this`batch, this`pending, this`freed
      ensures Consistent() && batch == [] && old(freed) <= freed && pending == old(pending)
      ensures forall e :: e in timers && e.when <= 0 ==> e in old(timers)
      ensures BatchReset(old(heap), Now(), timers, expired, |expired|, now)
      ensures Now() == ResetAll(old(Now()), expired, now)
    {
      hide Consistent, BatchReset, ResetTimer;
      BatchFacts(this);
      ResetStarts(Now(), timers, expired, now);
      for i := 0 to |expired|
        invariant Consistent() && batch == expired[i..] && old(freed) <= freed && pending == old(pending)
        invariant forall e :: e in timers && e.when <= 0 ==> e in old(timers)
        invariant BatchReset(old(heap), Now(), timers, expired, i, now)
        invariant Now() == ResetAll(old(Now()), expired[..i], now)
      {
        assert expired[..i + 1][..i] == expired[..i];
        assert batch[0] == expired[i] && expired[i..][1..] == expired[i + 1..];
        ghost var r, was := Now(), timers;
        ResetLive(old(heap), r, was, expired, i, now);
        ResetOne(expired[i], now);
        ResetNext(old(heap), r, Now(), was, timers, expired, i, now);
      }
      assert expired[..|expired|] == expired;
    }

    /**
      One wakeup: the batch is exactly the timers expired at `now`, in order; each is called once, in its
      place, whatever the callbacks cancel; none of them was cancelled before. `script[k]` is what the
      k-th callback does; after it, those timers are still called in this batch that stand later in it,
      also if it cancels them. What a callback cancels is cancelled exactly if it was inserted: a queued timer
      is freed at once, a timer of the batch after it, and any other is untouched.
    */
    method HandleRead(now: int, at: int, script: seq<seq<Action>>) returns (ghost expired: seq<Entry>)
      requires Valid() && !calling && now > 0
      modifies this
      ensures Valid() && !calling && old(cancelled) <= cancelled && handled == old(handled)
      ensures Ordered(expired) && forall e :: e in expired <==> e in old(timers) && e.when <= now
      ensures |ran| == |old(ran)| + |expired| && old(ran) <= ran
      ensures forall k :: 0 <= k < |expired| ==>
        && expired[k].addr in old(heap) && ran[|old(ran)| + k] == old(heap)[expired[k].addr].sequence
        && ran[|old(ran)| + k] !in old(cancelled)
      ensures before == old(before) + seq(|expired|, _ => old(cancelled))
      ensures forall k, n :: 0 <= k < |expired| ==>
        (n in ran[|old(ran)| + k + 1..] <==> LaterInBatch(old(heap), expired, k, n))
      ensures Settled(old(Now()), Now(), timers, expired, AskedBy(script, |expired|), now)
      ensures Now() == Woken(old(Now()), expired, script, now)
    {
      hide Sound, Consistent, InBatch, Wakes, NoLateCalls, Follows, ActAll, ResetAll, Settled;
      var entries := BeginBatch(now);
      expired := entries;
      ghost var p := Now();
      ghost var called := RunBatch(entries, script);
      FollowsMore(p, Now(), expired, AskedBy(script, |expired|));
      EndBatch(entries, now, at, p, AskedBy(script, |expired|));
      CalledLater(p.heap, expired, old(ran), called);
    }

    /** `handleRead` after the last callback: every timer there was at `p` is where it belongs. */
    method EndBatch(entries: seq<Entry>, now: int, at: int, ghost p: Snapshot, ghost asked: set<Id>)
      requires Valid() && calling && batch == entries && now > 0 && Follows(p, Now(), entries, asked)
      requires forall a :: a in p.heap ==> p.heap[a].sequence !in p.cancelled
      requires forall a :: a in p.heap ==> (InBatch(entries, a) <==> Entry(p.heap[a].expiration, a) in entries)
      requires forall a :: a in p.pending ==> !InBatch(entries, a)
      modifies this`heap, this`timers, this`active, this`batch, this`pending, this`freed, this`fd, this`calling
      ensures Valid() && !calling && Now() == ResetAll(old(Now()), entries, now)
      ensures Settled(p, Now(), timers, entries, asked, now)
    {
      hide IsFirst, ResetTimerfd, SameTimers, Owned, Conserved, CancelledGone, Marked, InBatch, Wakes, NoLateCalls,
        Follows, ResetAll, Settled;
      ghost var q := Now();
      calling := false;
      Reset(entries, now, at);
      NoneInBatch();
      WhereTimersAre(heap, timers, active, batch, pending);
      BatchSettles(p, q, Now(), timers, entries, asked, now);
    }

    /** `handleRead` up to the first callback. */
    method BeginBatch(now: int) returns (expired: seq<Entry>)
      requires Valid() && !calling && now > 0
      modifies this`fd, this`timers, this`active, this`batch, this`calling, this`canceling, this`batchNow
      ensures Valid() && calling && batchNow == now && batch == expired && canceling == {} && Ordered(expired)
      ensures forall a :: a in heap ==> heap[a].sequence !in cancelled
      ensures forall e :: e in expired <==> e in old(timers) && e.when <= now
      ensures timers == old(timers) - set e | e in expired
      ensures forall k :: 0 <= k < |expired| ==> expired[k].addr in heap
      ensures forall a :: a in heap ==> (InBatch(expired, a) <==> Entry(heap[a].expiration, a) in expired)
      ensures forall a :: a in pending ==> !InBatch(expired, a)
      ensures fd == if old(fd).Fired? then Idle else old(fd)
    {
      hide SameTimers, Owned, Conserved, CancelledGone, Marked, InBatch, Wakes, NoLateCalls;
      NothingCancelled(heap, canceling, cancelled, []);
      if fd.Fired? {
        fd := Idle;
      }
      expired := GetExpired(now);
      calling, batchNow := true, now;
      canceling := {};
      StillNothingCancelled(heap, cancelled, expired);
      DueInBatch(heap, expired);
      BatchDistinct(heap, timers, batch, pending);
    }

    /** The callbacks of the batch, in order: each timer is called in its place, cancelled or not. */
    method RunBatch(expired: seq<Entry>, script: seq<seq<Action>>) returns (ghost called: seq<nat>)
      requires Valid() && calling && batch == expired
      requires forall a :: a in heap ==> heap[a].sequence !in cancelled
      requires forall k :: 0 <= k < |expired| ==> expired[k].addr in heap
      modifies this`heap, this`timers, this`active, this`canceling, this`created, this`fd, this`pending
      modifies this`freed, this`cancelled, this`ran, this`before
      ensures Valid() && ran == old(ran) + called && |called| == |expired|
      ensures before == old(before) + seq(|expired|, _ => old(cancelled))
      ensures forall k :: 0 <= k < |expired| ==>
        expired[k].addr in old(heap) && called[k] == old(heap)[expired[k].addr].sequence
      ensures Follows(old(Now()), Now(), expired, AskedBy(script, |expired|))
      ensures Now() == ActAll(old(Now()), expired, ActionsOf(script, |expired|))
    {
      hide Valid, Follows, AskedBy, Asked, ActAll;
      assert ActAll(Now(), expired, ActionsOf(script, 0)) == Now() by {
        ActNothing(Now(), expired, script);
      }
      ghost var p := Now();
      FollowsItself(p, expired);
      AskedByNone(script);
      called := [];
      for k := 0 to |expired|
        invariant Valid() && ran == old(ran) + called && |called| == k && p.cancelled <= cancelled
        invariant before == old(before) + seq(k, _ => p.cancelled)
        invariant forall i :: 0 <= i < k ==> called[i] == p.heap[expired[i].addr].sequence
        invariant Follows(p, Now(), expired, AskedBy(script, k)) && Now() == ActAll(p, expired, ActionsOf(script, k))
      {
        AskedByNext(script, k);
        ActAllConcat(p, expired, ActionsOf(script, k), if k < |script| then script[k] else []);
        RunOne(expired, k, if k < |script| then script[k] else [], p, AskedBy(script, k));
        called := called + [p.heap[expired[k].addr].sequence];
        assert seq(k + 1, _ => p.cancelled) == seq(k, _ => p.cancelled) + [p.cancelled];
      }
    }

    /** The call of one timer of the batch that began at `p`, and what its callback does. */
    method RunOne(expired: seq<Entry>, k: nat, actions: seq<Action>, ghost p: Snapshot, ghost asked: set<Id>)
      requires Valid() && calling && batch == expired && k < |expired| && Follows(p, Now(), expired, asked)
      requires forall i :: 0 <= i < |expired| ==> expired[i].addr in p.heap
      requires p.heap[expired[k].addr].sequence !in p.cancelled && p.cancelled <= cancelled
      modifies this`heap, this`timers, this`active, this`canceling, this`created, this`fd, this`pending
      modifies this`freed, this`cancelled, this`ran, this`before
      ensures Valid() && ran == old(ran) + [p.heap[expired[k].addr].sequence] && p.cancelled <= cancelled
      ensures before == old(before) + [p.cancelled]
      ensures Follows(p, Now(), expired, asked + Asked(actions)) && Now() == ActAll(old(Now()), expired, actions)
    {
      hide Valid, Follows, Asked, ActAll;
      FollowsBatch(p, Now(), expired, asked);
      CallTimer(expired[k], p.cancelled);
      ghost var was := Now();
      RunCallback(actions);
      FollowsMore(was, Now(), expired, Asked(actions));
      FollowsChain(p, was, Now(), expired, asked, Asked(actions));
    }

    /** The call of a timer of the batch, where `known` is what was cancelled when the batch began. */
    method CallTimer(e: Entry, ghost known: set<nat>)
      requires Valid() && e.addr in heap && heap[e.addr].sequence !in known && known <= cancelled
      modifies this`ran, this`before
      ensures Valid() && ran == old(ran) + [heap[e.addr].sequence] && before == old(before) + [known]
    {
      hide SameTimers, Owned, Conserved, CancelledGone, Marked, InBatch, Wakes;
      ran, before := ran + [heap[e.addr].sequence], before + [known];
    }

    /** The kernel makes the timerfd readable once its deadline has passed. */
    method Tick(clock: int)
      requires Valid()
      modifies this`fd
      ensures Valid() && fd == if old(fd).Armed? && clock >= old(fd).deadline then Fired else old(fd)
    {
      if fd.Armed? && clock >= fd.deadline {
        fd := Fired;
      }
    }

    /** One wakeup, in terms of the queue alone. */
    method Wakeup(now: int, at: int, script: seq<seq<Action>>)
      requires Valid() && !calling && now > 0
      modifies this
      ensures Valid() && !calling && old(cancelled) <= cancelled && old(ran) <= ran && handled == old(handled)
      ensures forall k :: |old(ran)| <= k < |ran| ==> ran[k] !in old(cancelled)
      ensures exists expired ::
        && Ordered(expired) && (forall e :: e in expired <==> e in old(timers) && e.when <= now)
        && |ran| == |old(ran)| + |expired| && Now() == Woken(old(Now()), expired, script, now)
      ensures forall a :: a in old(heap) ==>
        var n := old(heap)[a].sequence;
        n in cancelled <==> a !in old(pending) && Id(a, n) in AskedBy(script, |ran| - |old(ran)|)
    {
      hide Consistent, Wakes, AskedBy, Woken, InBatch;
      NoneInBatch();
      WhatIsLive(this);
      ghost var expired := HandleRead(now, at, script);
      forall k | |old(ran)| <= k < |ran|
        ensures ran[k] !in old(cancelled)
      {
        assert expired[k - |old(ran)|] in expired;
      }
    }

    ghost method Note(event: Event)
      requires Valid() && !calling
      modifies this`handled
      ensures Valid() && handled == old(handled) + [event]
    {
      handled := handled + [event];
    }

    method Handle(event: Event)
      requires Valid() && !calling
      modifies this
      ensures Valid() && !calling && old(cancelled) <= cancelled && old(ran) <= ran
      ensures forall k :: |old(ran)| <= k < |ran| ==> ran[k] !in old(cancelled)
      ensures !event.Readable? ==> ran == old(ran)
      ensures handled == old(handled) + [event]
      ensures event.Create? ==>
        Now() == ActOn(old(Now()), [], CreateElsewhere(event.addr, event.when, event.delta, event.repeat))
      ensures event.InsertInLoop? ==> Now() == old(Now()).(pending := old(pending) - {event.addr})
      ensures event.CancelId? ==> Now() == ActOn(old(Now()), [], Cancel(event.id))
      ensures event.Clock? ==>
        Now() == old(Now()) && fd == if old(fd).Armed? && event.clock >= old(fd).deadline then Fired else old(fd)
      ensures event.Readable? && event.now > 0 ==>
        exists expired :: Ordered(expired) && (forall e :: e in expired <==> e in old(timers) && e.when <= event.now)
          && |ran| == |old(ran)| + |expired| && Now() == Woken(old(Now()), expired, event.script, event.now)
      ensures event.Readable? && event.now > 0 ==>
        forall a :: a in old(heap) ==>
          var n := old(heap)[a].sequence;
          n in cancelled <==> a !in old(pending) && Id(a, n) in AskedBy(event.script, |ran| - |old(ran)|)
    {
      hide Follows, ResetTimerfd, Consistent, Wakes, AskedBy, Woken, InBatch;
      NoneInBatch();
      WhatIsLive(this);
      Note(event);
      match event
      case Create(addr, when, delta, repeat) =>
        if addr !in heap {
          var _ := NewTimer(addr, when, delta, repeat);
        }
      case InsertInLoop(addr, at) =>
        if addr in pending {
          AddTimerInLoop(addr, at);
        }
      case CancelId(id) =>
        CancelInLoop(id);
      case Clock(clock) =>
        Tick(clock);
      case Readable(now, at, script) =>
        if now > 0 {
          Wakeup(now, at, script);
        }
    }

    /**
      Over any run of creations, insertions, cancellations, clock ticks and wakeups, in any order: the
      invariants hold throughout, and nothing that was cancelled before the run is called in it. By
      `NoLateCalls`, nothing is ever called in a batch that began after it was cancelled.
    */
    method Run(events: seq<Event>)
      requires Valid() && !calling
      modifies this
      ensures Valid() && !calling && old(cancelled) <= cancelled && old(ran) <= ran
      ensures forall k :: |old(ran)| <= k < |ran| ==> ran[k] !in old(cancelled)
      ensures handled == old(handled) + events
    {
      hide Valid;
      for i := 0 to |events|
        invariant handled == old(handled) + events[..i]
        invariant Valid() && !calling && old(cancelled) <= cancelled && old(ran) <= ran
        invariant forall k :: |old(ran)| <= k < |ran| ==> ran[k] !in old(cancelled)
      {
        Handle(events[i]);
      }
    }

    /** The branch of `cancelInLoop` for a queued timer. */
    method EraseAndDelete(id: Id)
      requires Valid() && id in active
      modifies this`heap, this`timers, this`active, this`freed, this`cancelled
      ensures Valid() && id.addr in old(heap) && old(heap)[id.addr].sequence == id.sequence
      ensures heap == old(heap) - {id.addr} && timers == old(timers) - {Entry(old(heap)[id.addr].expiration, id.addr)}
      ensures active == old(active) - {id} && freed == old(freed) + {id.sequence}
        && cancelled == old(cancelled) + {id.sequence}
    {
      hide SameTimers, Owned, Conserved, Wakes, CancelledGone;
      Erased(heap, timers, active, id);
      ErasedOwned(heap, timers, active, batch, pending, id);
      CancelledErased(heap, created, freed, batch, canceling, cancelled, id.addr);
      BatchKept(heap, batch, id.addr);
      Sequences(heap, created, freed);
      FreedKeeps(heap, created, freed, id.addr);
      timers := timers - {Entry(heap[id.addr].expiration, id.addr)};
      heap := heap - {id.addr};
      active := active - {id};
      freed := freed + {id.sequence};
      cancelled := cancelled + {id.sequence};
    }
  }

  lemma InOrder(es: seq<Entry>, a: Entry, b: Entry)
    requires Ordered(es) && (forall e :: e in es <==> e == a || e == b) && (a == b || Less(a, b))
    ensures es == if a == b then [a] else [a, b]
  {
    assert a in es && b in es;
    var i :| 0 <= i < |es| && es[i] == a;
    var j :| 0 <= j < |es| && es[j] == b;
    forall k | 0 <= k < |es|
      ensures es[k] in es && (k == i || k == j)
    {
    }
    assert es[0] in es && es[|es| - 1] in es;
    assert |es| > 1 ==> es[1] in es;
  }

  lemma SettledFacts(p: Snapshot, q: Snapshot, timers: set<Entry>, expired: seq<Entry>, asked: set<Id>, now: int,
                     a: nat)
    requires Settled(p, q, timers, expired, asked, now) && a in p.heap && a !in p.pending
    ensures var t := p.heap[a];
      && (t.sequence in q.cancelled <==> Id(a, t.sequence) in asked)
      && (t.sequence in q.cancelled || (Entry(t.expiration, a) in expired && !t.repeat) ==> t.sequence in q.freed)
  {
  }

  /** A queue with one timer, or two. */
  method NewQueue(repeat: bool, two: bool) returns (q: TimerQueue)
    ensures fresh(q) && q.Valid() && !q.calling && q.pending == {} && q.ran == []
    ensures q.heap == map[1 := Timer(10, 5, repeat, 1)] + if two then map[2 := Timer(20, 5, repeat, 2)] else map[]
    ensures q.timers == if two then {Entry(10, 1), Entry(20, 2)} else {Entry(10, 1)}
  {
    hide TimerQueue.Valid;
    q := new TimerQueue();
    q.AddTimer(1, 10, 5, repeat, 0);
    if two {
      q.AddTimer(2, 20, 5, repeat, 0);
    }
  }

  /** Two due timers, and the first callback cancels the second: it is called all the same, and then freed. */
  method CancelledInBatch() returns (q: TimerQueue)
    ensures fresh(q) && q.Valid() && q.ran == [1, 2] && 2 in q.cancelled && 2 in q.freed
  {
    hide TimerQueue.Valid, Settled, Ordered, Woken, LaterInBatch;
    q := NewQueue(true, true);
    ghost var p := q.Now();
    var second := Id(2, 2);
    var script := [[Cancel(second)]];
    ghost var expired := q.HandleRead(30, 30, script);
    InOrder(expired, Entry(10, 1), Entry(20, 2));
    assert script[0][0] == Cancel(second);
    AskedByMeans(script, 2, second);
    SettledFacts(p, q.Now(), q.timers, expired, AskedBy(script, 2), 30, 2);
    assert q.ran == [1, 2];
  }

  /**
    After a wakeup, as `HandleRead` leaves the queue: every timer that a callback of the batch added at a free
    address, and no later action cancelled, is queued with its time, interval and a number above all earlier ones.
  */
  lemma AddedIsQueued(q: TimerQueue, p: Snapshot, expired: seq<Entry>, script: seq<seq<Action>>, now: int, i: nat)
    requires q.Valid() && !q.calling && q.Now() == Woken(p, expired, script, now)
    requires p.pending <= p.heap.Keys && forall k :: 0 <= k < |expired| ==> expired[k].addr in p.heap
    requires var actions := ActionsOf(script, |expired|);
      && i < |actions| && actions[i].Add? && actions[i].addr !in ActAll(p, expired, actions[..i]).heap
      && Cancel(Id(actions[i].addr, ActAll(p, expired, actions[..i]).created + 1)) !in actions[i + 1..]
    ensures var add := ActionsOf(script, |expired|)[i];
      && Entry(add.when, add.addr) in q.timers && add.addr in q.heap && q.heap[add.addr].sequence > p.created
      && q.heap[add.addr] == Timer(add.when, add.delta, add.repeat, q.heap[add.addr].sequence)
  {
    hide TimerQueue.Valid, ActAll, ResetAll, ActionsOf;
    AddedInBatch(p, expired, ActionsOf(script, |expired|), i, now);
    NoneInBatch();
    NotCalling(q);
    WhatIsLive(q);
  }

  /** A timer that a callback adds is in the queue after the wakeup. */
  method AddedByCallback() returns (q: TimerQueue)
    ensures fresh(q) && q.Valid() && q.ran == [1] && Entry(40, 2) in q.timers
  {
    hide TimerQueue.Valid, Settled, Ordered, ActAll, ResetAll, LaterInBatch;
    q := NewQueue(false, false);
    ghost var p := q.Now();
    var actions := [Add(2, 40, 0, false, 30)];
    ghost var expired := q.HandleRead(30, 30, [actions]);
    InOrder(expired, Entry(10, 1), Entry(10, 1));
    OneScript(p, expired, actions);
    AddedIsQueued(q, p, expired, [actions], 30, 0);
    assert q.ran == [1];
  }

  lemma OneScript(p: Snapshot, expired: seq<Entry>, actions: seq<Action>)
    requires |expired| == 1 && |actions| == 1
    ensures ActionsOf([actions], 1) == actions && ActAll(p, expired, actions[..0]) == p && actions[1..] == []
  {
    assert actions[..0] == [];
  }

  lemma NotCalling(q: TimerQueue)
    requires q.Valid() && !q.calling
    ensures q.batch == []
  {
  }

  /** A timer that is cancelled before it is inserted is not cancelled, and is called. */
  method CancelledTooEarly() returns (q: TimerQueue)
    ensures fresh(q) && q.Valid() && q.ran == [1] && 1 !in q.cancelled
  {
    hide TimerQueue.Valid, Settled, Ordered, TimerQueue.Running;
    q := new TimerQueue();
    var id := q.NewTimer(1, 10, 5, false);
    NothingRunning(q, id);
    q.CancelInLoop(id);
    q.AddTimerInLoop(1, 0);
    assert q.timers == {Entry(10, 1)};
    ghost var p := q.Now();
    ghost var expired := q.HandleRead(30, 30, []);
    InOrder(expired, Entry(10, 1), Entry(10, 1));
    AskedByMeans([], 1, id);
    SettledFacts(p, q.Now(), q.timers, expired, AskedBy([], 1), 30, 1);
    assert q.ran == [1];
  }

  lemma BatchFacts(q: TimerQueue)
    requires q.Consistent()
    ensures forall k :: 0 <= k < |q.batch| ==> q.batch[k].addr in q.heap
    ensures forall i, j :: 0 <= i < j < |q.batch| ==> q.batch[i].addr != q.batch[j].addr
  {
    hide SameTimers, Conserved, CancelledGone, Marked, NoLateCalls, InBatch;
    BatchDistinct(q.heap, q.timers, q.batch, q.pending);
  }

  /** The queue is determined by the timers there are: exactly those that are inserted are in it, under their times. */
  lemma WhatIsLive(q: TimerQueue)
    requires q.Valid()
    ensures forall a :: a in q.heap ==>
      (Id(a, q.heap[a].sequence) in q.active <==> a !in q.pending && !InBatch(q.batch, a))
    ensures forall a :: a in q.pending ==> a in q.heap && !InBatch(q.batch, a)
    ensures forall i :: i in q.active ==> i.addr in q.heap && q.heap[i.addr].sequence == i.sequence
    ensures forall e :: e in q.timers <==>
      e.addr in q.heap && q.heap[e.addr].expiration == e.when && e.addr !in q.pending && !InBatch(q.batch, e.addr)
  {
    hide Conserved, CancelledGone, Marked, NoLateCalls, InBatch, Wakes;
    WhereTimersAre(q.heap, q.timers, q.active, q.batch, q.pending);
    EntriesLive(q.heap, q.timers, q.active);
    forall e | e in q.timers
      ensures e.addr !in q.pending && !InBatch(q.batch, e.addr)
    {
      assert Queued(q.timers, e.addr);
    }
  }

  lemma NothingRunning(q: TimerQueue, id: Id)
    requires q.Valid() && !q.calling
    ensures !q.Running(id)
  {
  }

  lemma NoneInBatch()
    ensures forall a :: !InBatch([], a)
  {
  }

  /** The timer with the number `n` stands after the `k`-th in the batch. */
  ghost predicate LaterInBatch(heap: map<nat, Timer>, expired: seq<Entry>, k: nat, n: nat) {
    exists j :: k < j < |expired| && expired[j].addr in heap && heap[expired[j].addr].sequence == n
  }

  lemma CalledLater(heap: map<nat, Timer>, expired: seq<Entry>, ran: seq<nat>, called: seq<nat>)
    requires |called| == |expired|
    requires forall k :: 0 <= k < |expired| ==> expired[k].addr in heap && called[k] == heap[expired[k].addr].sequence
    ensures forall k, n :: 0 <= k < |expired| ==>
      (n in (ran + called)[|ran| + k + 1..] <==> LaterInBatch(heap, expired, k, n))
  {
    forall k, n | 0 <= k < |expired|
      ensures n in (ran + called)[|ran| + k + 1..] <==> LaterInBatch(heap, expired, k, n)
    {
      var rest := called[k + 1..];
      assert (ran + called)[|ran| + k + 1..] == rest;
      if LaterInBatch(heap, expired, k, n) {
        var j :| k < j < |expired| && heap[expired[j].addr].sequence == n;
        assert rest[j - k - 1] == n;
      }
      if n in rest {
        var i :| 0 <= i < |rest| && rest[i] == n;
        assert called[i + k + 1] == n;
      }
    }
  }

  lemma FollowsMore(p: Snapshot, q: Snapshot, batch: seq<Entry>, asked: set<Id>)
    requires Follows(p, q, batch, asked)
    ensures p.cancelled <= q.cancelled
  {
  }

  lemma DueInBatch(heap: map<nat, Timer>, batch: seq<Entry>)
    requires forall k :: 0 <= k < |batch| ==> batch[k].addr in heap && heap[batch[k].addr].expiration == batch[k].when
    ensures forall a :: a in heap ==> (InBatch(batch, a) <==> Entry(heap[a].expiration, a) in batch)
  {
    forall a | a in heap
      ensures InBatch(batch, a) <==> Entry(heap[a].expiration, a) in batch
    {
      if InBatch(batch, a) {
        var k :| 0 <= k < |batch| && batch[k].addr == a;
        assert batch[k] == Entry(heap[a].expiration, a);
      }
    }
  }

  /** The callbacks and then `reset`: every timer is where it belongs. */
  lemma BatchSettles(p: Snapshot, q: Snapshot, r: Snapshot, timers: set<Entry>, expired: seq<Entry>, asked: set<Id>,
                     now: int)
    requires forall a :: a in p.heap ==> p.heap[a].sequence !in p.cancelled
    requires forall a :: a in p.heap ==> (InBatch(expired, a) <==> Entry(p.heap[a].expiration, a) in expired)
    requires forall a :: a in p.pending ==> !InBatch(expired, a)
    requires Follows(p, q, expired, asked) && q.freed <= r.freed && r.pending == q.pending && r.cancelled == q.cancelled
    requires BatchReset(q.heap, r, timers, expired, |expired|, now)
    requires forall a :: a in r.heap && a !in r.pending ==> Entry(r.heap[a].expiration, a) in timers
    ensures Settled(p, r, timers, expired, asked, now)
  {
    forall a | a in p.heap && InBatch(expired, a)
      ensures IsReset(q.heap, r, timers, Entry(p.heap[a].expiration, a), now)
    {
      var k :| 0 <= k < |expired| && expired[k] == Entry(p.heap[a].expiration, a);
    }
    hide InBatch;
  }

  /** What `reset` does with the timer `e` of a batch: a repeating one that was not cancelled is queued again. */
  ghost predicate IsReset(was: map<nat, Timer>, r: Snapshot, timers: set<Entry>, e: Entry, now: int) {
    e.addr in was &&
    var t := was[e.addr];
    if t.repeat && t.sequence !in r.cancelled
    then e.addr in r.heap && r.heap[e.addr] == t.(expiration := now + t.delta) && Entry(now + t.delta, e.addr) in timers
    else e.addr !in r.heap && t.sequence in r.freed
  }

  /** The first `i` timers of a batch are reset, and no other timer is touched. */
  ghost predicate BatchReset(was: map<nat, Timer>, r: Snapshot, timers: set<Entry>, expired: seq<Entry>, i: nat,
                             now: int) {
    && i <= |expired|
    && (forall k :: 0 <= k < i ==> IsReset(was, r, timers, expired[k], now))
    && (forall k :: i <= k < |expired| ==>
          var a := expired[k].addr; a in was && a in r.heap && r.heap[a] == was[a])
    && (forall a :: a in was && !InBatch(expired, a) ==> a in r.heap && r.heap[a] == was[a])
  }

  lemma ResetStarts(r: Snapshot, timers: set<Entry>, expired: seq<Entry>, now: int)
    requires forall k :: 0 <= k < |expired| ==> expired[k].addr in r.heap
    ensures BatchReset(r.heap, r, timers, expired, 0, now)
  {
  }

  lemma ResetLive(was: map<nat, Timer>, r: Snapshot, timers: set<Entry>, expired: seq<Entry>, i: nat, now: int)
    requires BatchReset(was, r, timers, expired, i, now) && i < |expired|
    ensures var a := expired[i].addr; a in was && a in r.heap && r.heap[a] == was[a]
  {
  }

  lemma ResetNext(was: map<nat, Timer>, r: Snapshot, r': Snapshot, timers: set<Entry>, timers': set<Entry>,
                  expired: seq<Entry>, i: nat, now: int)
    requires BatchReset(was, r, timers, expired, i, now) && i < |expired| && expired[i].addr in r.heap
    requires forall k, j :: 0 <= k < j < |expired| ==> expired[k].addr != expired[j].addr
    requires r'.cancelled == r.cancelled
    requires var a := expired[i].addr; var t := r.heap[a];
      if t.repeat && t.sequence !in r.cancelled
      then
        && r'.heap == r.heap[a := t.(expiration := now + t.delta)] && timers' == timers + {Entry(now + t.delta, a)}
        && r'.freed == r.freed
      else r'.heap == r.heap - {a} && timers' == timers && r'.freed == r.freed + {t.sequence}
    ensures BatchReset(was, r', timers', expired, i + 1, now)
  {
    BatchMember(expired, i);
  }

  lemma MarkedFirst(heap: map<nat, Timer>, batch: seq<Entry>, canceling: set<Id>, cancelled: set<nat>)
    requires Marked(heap, batch, canceling, cancelled) && batch != [] && batch[0].addr in heap
    ensures var a := batch[0].addr; heap[a].sequence in cancelled <==> Id(a, heap[a].sequence) in canceling
  {
  }

  lemma MarkedPopped(heap: map<nat, Timer>, heap': map<nat, Timer>, batch: seq<Entry>, canceling: set<Id>,
                     cancelled: set<nat>)
    requires Marked(heap, batch, canceling, cancelled) && batch != []
    requires forall a :: a in heap' ==> a in heap && heap'[a].sequence == heap[a].sequence
    ensures Marked(heap', batch[1..], canceling, cancelled)
  {
  }

  lemma BatchMember(batch: seq<Entry>, k: nat)
    requires k < |batch|
    ensures InBatch(batch, batch[k].addr)
  {
  }

  /** A live timer is waiting, queued or in the batch, and only a queued one is active. */
  lemma WhereTimersAre(heap: map<nat, Timer>, timers: set<Entry>, active: set<Id>, batch: seq<Entry>, pending: set<nat>)
    requires SameTimers(heap, timers, active) && Owned(heap, timers, batch, pending)
    ensures forall a :: a in heap ==> (Id(a, heap[a].sequence) in active <==> a !in pending && !InBatch(batch, a))
    ensures forall a :: a in pending ==> !InBatch(batch, a) && a in heap
    ensures forall i :: i in active ==> i.addr in heap && heap[i.addr].sequence == i.sequence
    ensures forall a :: a in heap && a !in pending && !InBatch(batch, a) ==> Entry(heap[a].expiration, a) in timers
  {
    forall a | a in heap
      ensures Id(a, heap[a].sequence) in active <==> a !in pending && !InBatch(batch, a)
      ensures a !in pending && !InBatch(batch, a) ==> Entry(heap[a].expiration, a) in timers
    {
      if Id(a, heap[a].sequence) in active {
        var e := Entry(heap[a].expiration, a);
        assert e in timers && e.addr == a;
        assert Queued(timers, a);
      }
      if a !in pending && !InBatch(batch, a) {
        assert Queued(timers, a);
      }
    }
  }

  /** Taking the expired timers out of both indexes. */
  lemma Expired(heap: map<nat, Timer>, timers: set<Entry>, active: set<Id>, pending: set<nat>, expired: seq<Entry>,
                gone: set<Id>)
    requires SameTimers(heap, timers, active) && Owned(heap, timers, [], pending) && Ordered(expired)
    requires forall e :: e in expired ==> e in timers
    requires forall i :: i in gone <==> i in active && Entry(heap[i.addr].expiration, i.addr) in expired
    ensures var timers' := timers - (set e | e in expired);
      SameTimers(heap, timers', active - gone) && Owned(heap, timers', expired, pending)
  {
    var timers' := timers - (set e | e in expired);
    forall i, j | 0 <= i < j < |expired|
      ensures expired[i].addr != expired[j].addr
    {
      assert expired[i] in expired && expired[j] in expired;
    }
    forall a
      ensures Queued(timers, a) <==> Queued(timers', a) || InBatch(expired, a)
      ensures InBatch(expired, a) ==> !Queued(timers', a)
    {
      if Queued(timers, a) {
        var e :| e in timers && e.addr == a;
        if e in expired {
          var k :| 0 <= k < |expired| && expired[k] == e;
          assert expired[k].addr == a;
        } else {
          assert e in timers' && e.addr == a;
        }
      }
      if InBatch(expired, a) {
        var k :| 0 <= k < |expired| && expired[k].addr == a;
        assert expired[k] in expired;
        assert expired[k] in timers && expired[k].addr == a;
      }
    }
  }

  lemma PoppedBatch(batch: seq<Entry>, a: nat)
    requires batch != [] && forall i, j :: 0 <= i < j < |batch| ==> batch[i].addr != batch[j].addr
    ensures InBatch(batch[1..], a) <==> InBatch(batch, a) && a != batch[0].addr
  {
    if InBatch(batch, a) && a != batch[0].addr {
      var i :| 0 <= i < |batch| && batch[i].addr == a;
      assert batch[1..][i - 1].addr == a;
    }
    if InBatch(batch[1..], a) {
      var i :| 0 <= i < |batch[1..]| && batch[1..][i].addr == a;
      assert batch[i + 1].addr == a;
    }
  }

  /** The first timer of the batch leaves it, restarted with a new expiration and waiting for insertion. */
  lemma Restarted(heap: map<nat, Timer>, timers: set<Entry>, active: set<Id>, batch: seq<Entry>, pending: set<nat>,
                  when: int)
    requires SameTimers(heap, timers, active) && Owned(heap, timers, batch, pending) && batch != []
      && batch[0].addr in heap
    ensures var a := batch[0].addr; var heap' := heap[a := heap[a].(expiration := when)];
      SameTimers(heap', timers, active) && Owned(heap', timers, batch[1..], pending + {a})
  {
    var a := batch[0].addr;
    var heap' := heap[a := heap[a].(expiration := when)];
    assert InBatch(batch, a);
    forall b
      ensures InBatch(batch[1..], b) <==> InBatch(batch, b) && b != a
    {
      PoppedBatch(batch, b);
    }
    assert forall e :: e in timers ==> Queued(timers, e.addr);
    assert forall i :: i in active ==> Entry(heap[i.addr].expiration, i.addr) in timers;
  }

  /** ... or is deleted. */
  lemma Deleted(heap: map<nat, Timer>, timers: set<Entry>, active: set<Id>, batch: seq<Entry>, pending: set<nat>)
    requires SameTimers(heap, timers, active) && Owned(heap, timers, batch, pending) && batch != []
    ensures var heap' := heap - {batch[0].addr};
      SameTimers(heap', timers, active) && Owned(heap', timers, batch[1..], pending)
  {
    var a := batch[0].addr;
    assert InBatch(batch, a);
    forall b
      ensures InBatch(batch[1..], b) <==> InBatch(batch, b) && b != a
    {
      PoppedBatch(batch, b);
    }
    assert forall e :: e in timers ==> Queued(timers, e.addr);
    assert forall i :: i in active ==> Entry(heap[i.addr].expiration, i.addr) in timers;
  }

  lemma CancelledPopped(heap: map<nat, Timer>, heap': map<nat, Timer>, batch: seq<Entry>, canceling: set<Id>,
                        cancelled: set<nat>)
    requires CancelledGone(heap, batch, canceling, cancelled) && batch != []
    requires forall i, j :: 0 <= i < j < |batch| ==> batch[i].addr != batch[j].addr
    requires forall a :: a in heap' ==> a in heap && heap'[a].sequence == heap[a].sequence
    requires var a := batch[0].addr; a in heap' ==> Id(a, heap'[a].sequence) !in canceling
    ensures CancelledGone(heap', batch[1..], canceling, cancelled)
  {
    forall a | a in heap' && heap'[a].sequence in cancelled
      ensures InBatch(batch[1..], a)
    {
      PoppedBatch(batch, a);
    }
  }

  lemma RestartKeeps(heap: map<nat, Timer>, heap': map<nat, Timer>, created: nat, freed: set<nat>)
    requires Conserved(heap, created, freed) && heap'.Keys == heap.Keys
    requires forall a :: a in heap ==> heap'[a].sequence == heap[a].sequence
    ensures Conserved(heap', created, freed)
  {
    forall n: nat
      ensures LiveSequence(heap', n) <==> LiveSequence(heap, n)
    {
      if LiveSequence(heap, n) {
        var a :| a in heap && heap[a].sequence == n;
        assert a in heap' && heap'[a].sequence == n;
      }
    }
  }

  lemma BatchDistinct(heap: map<nat, Timer>, timers: set<Entry>, batch: seq<Entry>, pending: set<nat>)
    requires Owned(heap, timers, batch, pending)
    ensures forall i, j :: 0 <= i < j < |batch| ==> batch[i].addr != batch[j].addr
    ensures forall a :: a in pending ==> !InBatch(batch, a)
  {
  }

  lemma CancelledErased(heap: map<nat, Timer>, created: nat, freed: set<nat>, batch: seq<Entry>, canceling: set<Id>,
                        cancelled: set<nat>, addr: nat)
    requires CancelledGone(heap, batch, canceling, cancelled) && Conserved(heap, created, freed) && addr in heap
    ensures CancelledGone(heap - {addr}, batch, canceling, cancelled + {heap[addr].sequence})
  {
  }

  lemma BatchKept(heap: map<nat, Timer>, batch: seq<Entry>, addr: nat)
    requires !InBatch(batch, addr)
    ensures forall k :: 0 <= k < |batch| ==> batch[k].addr != addr
  {
  }

  lemma EntriesLive(heap: map<nat, Timer>, timers: set<Entry>, active: set<Id>)
    requires SameTimers(heap, timers, active)
    ensures forall e :: e in timers ==> e.addr in heap && heap[e.addr].expiration == e.when
    ensures forall i :: i in active ==> i.addr in heap
  {
  }

  lemma NothingCancelled(heap: map<nat, Timer>, canceling: set<Id>, cancelled: set<nat>, expired: seq<Entry>)
    requires CancelledGone(heap, [], canceling, cancelled)
    ensures CancelledGone(heap, expired, canceling, cancelled)
    ensures forall a :: a in heap ==> heap[a].sequence !in cancelled
  {
  }

  lemma StillNothingCancelled(heap: map<nat, Timer>, cancelled: set<nat>, batch: seq<Entry>)
    requires forall a :: a in heap ==> heap[a].sequence !in cancelled
    ensures CancelledGone(heap, batch, {}, cancelled) && Marked(heap, batch, {}, cancelled)
  {
  }

  lemma Sequences(heap: map<nat, Timer>, created: nat, freed: set<nat>)
    requires Conserved(heap, created, freed)
    ensures created + 1 !in freed
    ensures forall a :: a in heap ==> heap[a].sequence !in freed && 1 <= heap[a].sequence <= created
    ensures forall a, b :: a in heap && b in heap && a != b ==> heap[a].sequence != heap[b].sequence
  {
    assert forall a :: a in heap ==> LiveSequence(heap, heap[a].sequence);
  }

  lemma CreatedOwned(heap: map<nat, Timer>, heap': map<nat, Timer>, timers: set<Entry>, active: set<Id>,
                     batch: seq<Entry>, pending: set<nat>, addr: nat)
    requires SameTimers(heap, timers, active) && Owned(heap, timers, batch, pending) && addr !in heap && addr in heap'
    requires heap' == heap[addr := heap'[addr]]
    ensures SameTimers(heap', timers, active) && Owned(heap', timers, batch, pending + {addr})
    ensures forall i :: i in active ==> i.addr != addr
  {
  }

  lemma CreatedKeeps(heap: map<nat, Timer>, heap': map<nat, Timer>, created: nat, freed: set<nat>, addr: nat)
    requires Conserved(heap, created, freed) && addr !in heap && addr in heap'
    requires heap' == heap[addr := heap'[addr]] && heap'[addr].sequence == created + 1
    ensures Conserved(heap', created + 1, freed)
  {
    forall n: nat
      ensures LiveSequence(heap', n) <==> LiveSequence(heap, n) || n == created + 1
    {
      assert heap'[addr].sequence == created + 1;
      if LiveSequence(heap, n) {
        var a :| a in heap && heap[a].sequence == n;
        assert a in heap' && heap'[a].sequence == n;
      }
    }
    assert forall a :: a in heap ==> LiveSequence(heap, heap[a].sequence);
    assert !(1 <= created + 1 <= created);
  }

  lemma FreedKeeps(heap: map<nat, Timer>, created: nat, freed: set<nat>, addr: nat)
    requires Conserved(heap, created, freed) && addr in heap
    ensures Conserved(heap - {addr}, created, freed + {heap[addr].sequence})
  {
    var heap', freed' := heap - {addr}, freed + {heap[addr].sequence};
    assert LiveSequence(heap, heap[addr].sequence);
    forall n: nat
      ensures LiveSequence(heap', n) <==> LiveSequence(heap, n) && n != heap[addr].sequence
    {
      if LiveSequence(heap, n) && n != heap[addr].sequence {
        var a :| a in heap && heap[a].sequence == n;
        assert a in heap' && heap'[a].sequence == n;
      }
    }
  }
}
