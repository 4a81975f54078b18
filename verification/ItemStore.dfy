/**
  The item store of the memcached server (`memcached/server/MemcacheServer.cc`): what the six update
  policies do to one map from keys to items, and what compare-and-swap numbers mean over any run.
*/
module ItemStore {

  /** A stored item. The value includes its CRLF; an item does not change once it is stored. */
  datatype Item = Item(key: string, flags: nat, relExptime: int, value: string, cas: nat)

  const LONGEST_KEY := 250

  datatype Policy = Set | Add | Replace | Append | Prepend | Cas

  datatype Store = Store(items: map<string, Item>, cas: nat)

  datatype Stored = Stored(store: Store, ok: bool, existed: bool)

  predicate EndsWithCRLF(v: string) {
    |v| >= 2 && v[|v| - 2] == '\r' && v[|v| - 1] == '\n'
  }

  function WithoutCRLF(v: string): (r: string)
    requires |v| >= 2
  {
    v[..|v| - 2]
  }

  /** The item that goes into the map, before it gets its number. */
  function Merged(stored: Item, item: Item, policy: Policy): (r: Item)
    requires |item.value| >= 2 && |stored.value| >= 2
  {
    match policy
    case Append => Item(item.key, stored.flags, stored.relExptime, WithoutCRLF(stored.value) + item.value, 0)
    case Prepend => Item(item.key, stored.flags, stored.relExptime, WithoutCRLF(item.value) + stored.value, 0)
    case _ => item
  }

  /** Whether an update goes through. */
  predicate Accepts(s: Store, item: Item, policy: Policy) {
    match policy
    case Set => true
    case Add => item.key !in s.items
    case Cas => item.key in s.items && s.items[item.key].cas == item.cas
    case _ => item.key in s.items
  }

  /** `storeItem` on one map: an accepted item gets the next number. */
  function StoreItem(s: Store, item: Item, policy: Policy): (r: Stored)
    requires |item.value| >= 2 && WellStored(s)
  {
    if Accepts(s, item, policy) then
      var merged := if item.key in s.items then Merged(s.items[item.key], item, policy) else item;
      Stored(Store(s.items[item.key := merged.(cas := s.cas + 1)], s.cas + 1), true, item.key in s.items)
    else Stored(s, false, item.key in s.items)
  }

  function DeleteItem(s: Store, key: string): (r: Store) {
    Store(s.items - {key}, s.cas)
  }

  /** Every item is stored under its key, ends in CRLF, and has a number that was handed out. */
  predicate WellStored(s: Store) {
    forall k :: k in s.items ==> s.items[k].key == k && EndsWithCRLF(s.items[k].value) && 1 <= s.items[k].cas <= s.cas
  }

  lemma StoreKeepsWellStored(s: Store, item: Item, policy: Policy)
    requires WellStored(s) && EndsWithCRLF(item.value)
    ensures WellStored(StoreItem(s, item, policy).store)
  {
  }

  // ----- compare-and-swap numbers over whole runs

  datatype Op = StoreOp(item: Item, policy: Policy) | DeleteOp(key: string)

  ghost predicate GoodOp(op: Op) {
    op.StoreOp? ==> EndsWithCRLF(op.item.value)
  }

  /** The store together with which item every number was given to. */
  datatype History = History(store: Store, given: map<nat, Item>)

  ghost predicate Recorded(h: History) {
    && WellStored(h.store)
    && (forall n: nat :: n in h.given <==> 1 <= n <= h.store.cas)
    && (forall n :: n in h.given ==> h.given[n].cas == n)
    && (forall k :: k in h.store.items ==> h.given[h.store.items[k].cas] == h.store.items[k])
  }

  ghost function Apply(h: History, op: Op): (r: History)
    requires Recorded(h) && GoodOp(op)
    ensures Recorded(r) && h.store.cas <= r.store.cas
    ensures forall n :: n in h.given ==> n in r.given && r.given[n] == h.given[n]
  {
    match op
    case StoreOp(item, policy) =>
      var s := StoreItem(h.store, item, policy).store;
      StoreKeepsWellStored(h.store, item, policy);
      History(s, if s.cas > h.store.cas then h.given[s.cas := s.items[item.key]] else h.given)
    case DeleteOp(key) => History(DeleteItem(h.store, key), h.given)
  }

  ghost function Replay(h: History, ops: seq<Op>): (r: History)
    requires Recorded(h) && forall i :: 0 <= i < |ops| ==> GoodOp(ops[i])
    ensures Recorded(r)
  {
    if ops == [] then h else Apply(Replay(h, ops[..|ops| - 1]), ops[|ops| - 1])
  }

  /** The server as it starts. */
  const EMPTY := History(Store(map[], 0), map[])

  lemma RecordedFromStart(ops: seq<Op>)
    requires forall i :: 0 <= i < |ops| ==> GoodOp(ops[i])
    ensures Recorded(EMPTY) && Recorded(Replay(EMPTY, ops))
  {
  }

  /** A number, once given to an item, is never given to another. */
  lemma {:induction false} NumbersAreNeverReused(h: History, ops: seq<Op>)
    requires Recorded(h) && forall i :: 0 <= i < |ops| ==> GoodOp(ops[i])
    ensures forall n :: n in h.given ==> n in Replay(h, ops).given && Replay(h, ops).given[n] == h.given[n]
  {
    if ops != [] {
      NumbersAreNeverReused(h, ops[..|ops| - 1]);
    }
  }

  /**
    After any run that follows the handing out of number `n`, a compare-and-swap with `n` goes through
    exactly if the item under its key is the very item that got `n`; whatever was deleted and added
    again in between.
  */
  lemma CasMeansSameItem(h: History, ops: seq<Op>, item: Item, n: nat)
    requires Recorded(h) && (forall i :: 0 <= i < |ops| ==> GoodOp(ops[i])) && n in h.given && item.cas == n
    ensures var s := Replay(h, ops).store;
      Accepts(s, item, Cas) <==> item.key in s.items && s.items[item.key] == h.given[n]
  {
    NumbersAreNeverReused(h, ops);
  }

  /** So it is over every run of the server: `ops` up to the moment when `n` is known, and `more` after it. */
  lemma CasFromStart(ops: seq<Op>, more: seq<Op>, item: Item)
    requires (forall i :: 0 <= i < |ops| ==> GoodOp(ops[i])) && forall i :: 0 <= i < |more| ==> GoodOp(more[i])
    requires Recorded(EMPTY) && 1 <= item.cas <= Replay(EMPTY, ops).store.cas
    ensures var h := Replay(EMPTY, ops); var s := Replay(h, more).store;
      && item.cas in h.given
      && (Accepts(s, item, Cas) <==> item.key in s.items && s.items[item.key] == h.given[item.cas])
  {
    RecordedFromStart(ops);
    CasMeansSameItem(Replay(EMPTY, ops), more, item, item.cas);
  }
}
