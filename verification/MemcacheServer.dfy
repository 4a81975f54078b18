/** `Item` of `memcached/server/Item.cc`: a key and a value received piece by piece into one block. */
module ItemBuffers {
  import opened ItemStore

  class ItemBuffer {
    var keylen: nat
    const valuelen: nat
    var receivedBytes: nat
    const data: array<char>

    /** The key is in place, and the value, CRLF included, still to come. */
    constructor (key: string, valuelen: nat)
      requires valuelen >= 2
      ensures Valid() && fresh(data) && this.valuelen == valuelen && Key() == key && Received() == []
        && data.Length == |key| + valuelen
    {
      keylen, this.valuelen, receivedBytes := |key|, valuelen, 0;
      data := new char[|key| + valuelen];
      new;
      CopyIn(key);
    }

    predicate Valid()
      reads this
    {
      keylen <= receivedBytes <= keylen + valuelen <= data.Length && valuelen >= 2
    }

    function NeededBytes(): (n: int)
      reads this
    {
      keylen + valuelen - receivedBytes
    }

    ghost function Key(): (k: string)
      requires Valid()
      reads this, data
    {
      data[..keylen]
    }

    /** The part of the value that has arrived. */
    ghost function Received(): (v: string)
      requires Valid()
      reads this, data
    {
      data[keylen..receivedBytes]
    }

    method CopyIn(s: string)
      requires receivedBytes + |s| <= data.Length
      modifies this`receivedBytes, data
      ensures receivedBytes == old(receivedBytes) + |s| && data[..receivedBytes] == old(data[..receivedBytes]) + s
    {
      for i := 0 to |s|
        invariant receivedBytes == old(receivedBytes)
        invariant data[..receivedBytes + i] == old(data[..receivedBytes]) + s[..i]
      {
        data[receivedBytes + i] := s[i];
      }
      receivedBytes := receivedBytes + |s|;
    }

    method Append(s: string)
      requires Valid() && |s| <= NeededBytes()
      modifies this`receivedBytes, data
      ensures Valid() && Key() == old(Key()) && Received() == old(Received()) + s
        && NeededBytes() == old(NeededBytes()) - |s|
    {
      CopyIn(s);
      assert data[..receivedBytes][..keylen] == data[..keylen];
      assert data[..receivedBytes][keylen..] == data[keylen..receivedBytes];
    }

    /** A lookup key is put into a block made for the longest one. */
    method ResetKey(k: string)
      requires Valid() && |k| <= LONGEST_KEY && data.Length >= LONGEST_KEY + valuelen
      modifies this, data
      ensures Valid() && Key() == k && Received() == []
    {
      keylen := |k|;
      receivedBytes := 0;
      CopyIn(k);
    }

    method HasCRLF() returns (b: bool)
      requires Valid()
      ensures b <==> NeededBytes() == 0 && EndsWithCRLF(Received())
    {
      b := receivedBytes == keylen + valuelen && data[keylen + valuelen - 2] == '\r'
        && data[keylen + valuelen - 1] == '\n';
    }
  }
}

/** The sharded map of `memcached/server/MemcacheServer.cc`; each method is one critical section. */
module MemcacheServer {
  import opened ItemStore
  import opened ItemBuffers

  const SHARDS := 4096

  datatype Option<T> = None | Some(value: T)

  /** The items are those of the one map, each in the shard of its key and nowhere else. */
  ghost predicate Holds(hash: string -> nat, shards: seq<set<Item>>, items: map<string, Item>) {
    && |shards| == SHARDS
    && (forall i, x :: 0 <= i < SHARDS && x in shards[i] ==>
          hash(x.key) % SHARDS == i && x.key in items && items[x.key] == x)
    && (forall k :: k in items ==> items[k].key == k && items[k] in shards[hash(k) % SHARDS])
  }

  lemma FindHolds(hash: string -> nat, shards: seq<set<Item>>, items: map<string, Item>, key: string)
    requires Holds(hash, shards, items)
    ensures var i := hash(key) % SHARDS;
      && (key in items ==> items[key] in shards[i] && items[key].key == key)
      && forall x :: x in shards[i] && x.key == key ==> key in items && items[key] == x
  {
  }

  lemma EraseHolds(hash: string -> nat, shards: seq<set<Item>>, items: map<string, Item>, key: string)
    requires Holds(hash, shards, items) && key in items
    ensures var i := hash(key) % SHARDS; Holds(hash, shards[i := shards[i] - {items[key]}], items - {key})
  {
  }

  lemma InsertHolds(hash: string -> nat, shards: seq<set<Item>>, items: map<string, Item>, item: Item)
    requires Holds(hash, shards, items) && item.key !in items
    ensures var i := hash(item.key) % SHARDS; Holds(hash, shards[i := shards[i] + {item}], items[item.key := item])
  {
  }

  class MemcacheServer {
    const hash: string -> nat
    const shards: array<set<Item>>
    var gCas: nat
    ghost var view: Store       // the one map that the shards stand for

    constructor (h: string -> nat)
      ensures Valid() && fresh(shards) && hash == h && view == Store(map[], 0)
    {
      hash := h;
      shards := new set<Item>[SHARDS](_ => {});
      gCas := 0;
      view := Store(map[], 0);
    }

    ghost predicate Valid()
      reads this, shards
    {
      shards.Length == SHARDS && gCas == view.cas && WellStored(view) && Holds(hash, shards[..], view.items)
    }

    method Find(i: nat, key: string) returns (r: Option<Item>)
      requires Valid() && i == hash(key) % SHARDS
      ensures r == if key in view.items then Some(view.items[key]) else None
      ensures r.Some? ==> EndsWithCRLF(r.value.value)
    {
      hide Holds;
      FindHolds(hash, shards[..], view.items, key);
      if x :| x in shards[i] && x.key == key {
        r := Some(x);
      } else {
        r := None;
      }
    }

    /** Erase the item under the key, if there is one, and insert the new item with the next number. */
    method Put(i: nat, it: Option<Item>, item: Item)
      requires Valid() && i == hash(item.key) % SHARDS && EndsWithCRLF(item.value)
      requires it == if item.key in view.items then Some(view.items[item.key]) else None
      modifies this`gCas, this`view, shards
      ensures Valid() && view == Store(old(view).items[item.key := item.(cas := old(view).cas + 1)], old(view).cas + 1)
    {
      hide Holds;
      gCas := gCas + 1;
      var numbered := item.(cas := gCas);
      ghost var rest := view.items - {item.key};
      if it.Some? {
        EraseHolds(hash, shards[..], view.items, item.key);
        ghost var before := shards[..];
        shards[i] := shards[i] - {it.value};
        assert shards[..] == before[i := before[i] - {it.value}];
      } else {
        assert rest == view.items;
      }
      InsertHolds(hash, shards[..], rest, numbered);
      ghost var before := shards[..];
      shards[i] := shards[i] + {numbered};
      assert shards[..] == before[i := before[i] + {numbered}];
      assert rest[item.key := numbered] == view.items[item.key := numbered];
      view := Store(view.items[item.key := numbered], view.cas + 1);
    }

    /** The value of an append or a prepend, received into a new item. */
    method Concatenate(key: string, first: string, second: string) returns (v: string)
      requires |first| + |second| >= 2
      ensures v == first + second
    {
      var b := new ItemBuffer(key, |first| + |second|);
      b.Append(first);
      b.Append(second);
      assert b.NeededBytes() == 0;
      v := b.data[b.keylen..b.receivedBytes];
    }

    /** The sharded store does to the one map what `ItemStore.StoreItem` says. */
    method StoreItem(item: Item, policy: Policy) returns (ok: bool, existed: bool)
      requires Valid() && EndsWithCRLF(item.value)
      modifies this`gCas, this`view, shards
      ensures Valid() && Stored(view, ok, existed) == ItemStore.StoreItem(old(view), item, policy)
    {
      hide Valid, WellStored;
      var i := hash(item.key) % SHARDS;
      var it := Find(i, item.key);
      existed := it.Some?;
      ok := true;
      match policy
      case Set => Put(i, it, item);
      case Add =>
        if existed {
          ok := false;
        } else {
          Put(i, it, item);
        }
      case Replace =>
        if existed {
          Put(i, it, item);
        } else {
          ok := false;
        }
      case Append =>
        if existed {
          var v := Concatenate(item.key, WithoutCRLF(it.value.value), item.value);
          Put(i, it, Item(item.key, it.value.flags, it.value.relExptime, v, 0));
        } else {
          ok := false;
        }
      case Prepend =>
        if existed {
          var v := Concatenate(item.key, WithoutCRLF(item.value), it.value.value);
          Put(i, it, Item(item.key, it.value.flags, it.value.relExptime, v, 0));
        } else {
          ok := false;
        }
      case Cas =>
        if existed && it.value.cas == item.cas {
          Put(i, it, item);
        } else {
          ok := false;
        }
    }

    method GetItem(key: string) returns (r: Option<Item>)
      requires Valid()
      ensures r == if key in view.items then Some(view.items[key]) else None
    {
      r := Find(hash(key) % SHARDS, key);
    }

    method DeleteItem(key: string) returns (deleted: bool)
      requires Valid()
      modifies this`view, shards
      ensures Valid() && view == ItemStore.DeleteItem(old(view), key) && (deleted <==> key in old(view).items)
    {
      var i := hash(key) % SHARDS;
      var it := Find(i, key);
      deleted := it.Some?;
      if it.Some? {
        EraseHolds(hash, shards[..], view.items, key);
        ghost var before := shards[..];
        shards[i] := shards[i] - {it.value};
        assert shards[..] == before[i := before[i] - {it.value}];
      } else {
        assert view.items - {key} == view.items;
      }
      view := Store(view.items - {key}, view.cas);
    }
  }
}
