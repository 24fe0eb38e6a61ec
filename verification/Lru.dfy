/**
  The fixed-size least-recently-used cache (package golang-lru).

  The eviction list holds the entries, the most recently used first; the items
  map finds an entry by its key.  Every operation is specified on the list of
  entries alone.
 */
module Lru {
  import opened Common

  datatype Entry<K, V> = Entry(key: K, value: V)

  // ----------------------------------------------- the cache as a plain list

  function Find<K(==), V>(c: seq<Entry<K, V>>, key: K): Option<V> {
    if c == [] then None
    else if c[0].key == key then Some(c[0].value)
    else Find(c[1..], key)
  }

  function Without<K(==), V>(c: seq<Entry<K, V>>, key: K): (r: seq<Entry<K, V>>)
    ensures |r| <= |c|
  {
    if c == [] then []
    else if c[0].key == key then Without(c[1..], key)
    else [c[0]] + Without(c[1..], key)
  }

  // The entry becomes the most recent one.
  function Used<K(==), V>(c: seq<Entry<K, V>>, key: K, value: V): seq<Entry<K, V>> {
    [Entry(key, value)] + Without(c, key)
  }

  function AfterGet<K(==), V>(c: seq<Entry<K, V>>, key: K): seq<Entry<K, V>> {
    var found := Find(c, key);
    if found.Some? then Used(c, key, found.value) else c
  }

  // Adding may push out the least recent entry.
  function AfterAdd<K(==), V>(c: seq<Entry<K, V>>, key: K, value: V, size: nat): seq<Entry<K, V>> {
    var u := Used(c, key, value);
    if |u| > size then u[..size] else u
  }

  ghost predicate DistinctKeys<K(!new), V(!new)>(c: seq<Entry<K, V>>) {
    forall i, j :: 0 <= i < j < |c| ==> c[i].key != c[j].key
  }

  lemma {:induction false} FindIs<K(!new), V(!new)>(c: seq<Entry<K, V>>, i: nat)
    requires DistinctKeys(c) && i < |c|
    ensures Find(c, c[i].key) == Some(c[i].value)
  {
    if i > 0 {
      assert c[0].key != c[i].key;
      assert forall a, b :: 0 <= a < b < |c[1..]| ==> c[1..][a].key == c[a + 1].key && c[1..][b].key == c[b + 1].key;
      FindIs(c[1..], i - 1);
    }
  }

  lemma {:induction false} FindNone<K(!new), V(!new)>(c: seq<Entry<K, V>>, key: K)
    requires forall i :: 0 <= i < |c| ==> c[i].key != key
    ensures Find(c, key) == None && Without(c, key) == c
  {
    if c != [] {
      FindNone(c[1..], key);
    }
  }

  // What is left without a key, entry by entry.
  lemma {:induction false} WithoutIs<K(!new), V(!new)>(c: seq<Entry<K, V>>, i: nat)
    requires DistinctKeys(c) && i < |c|
    ensures Without(c, c[i].key) == c[..i] + c[i + 1..]
  {
    if i == 0 {
      FindNone(c[1..], c[0].key);
    } else {
      assert c[1..][i - 1] == c[i];
      assert DistinctKeys(c[1..]);
      WithoutIs(c[1..], i - 1);
      assert c[..i] == [c[0]] + c[1..][..i - 1];
    }
  }

  lemma {:induction false} WithoutMember<K(!new), V(!new)>(c: seq<Entry<K, V>>, key: K, e: Entry<K, V>)
    ensures e in Without(c, key) <==> e in c && e.key != key
  {
    if c != [] {
      WithoutMember(c[1..], key, e);
      assert e in c <==> e == c[0] || e in c[1..];
    }
  }

  lemma WithoutDistinct<K(!new), V(!new)>(c: seq<Entry<K, V>>, key: K)
    requires DistinctKeys(c)
    ensures DistinctKeys(Without(c, key))
  {
    if i :| 0 <= i < |c| && c[i].key == key {
      WithoutIs(c, i);
    } else {
      FindNone(c, key);
    }
  }

  // Nothing appears in the cache that was not there or has just been added,
  // and what has been added is there.
  lemma AfterAddMembers<K(!new), V(!new)>(c: seq<Entry<K, V>>, key: K, value: V, size: nat)
    requires size > 0
    ensures Entry(key, value) in AfterAdd(c, key, value, size)
    ensures forall e :: e in AfterAdd(c, key, value, size) ==> e == Entry(key, value) || e in c
  {
    assert AfterAdd(c, key, value, size)[0] == Entry(key, value);
    forall e | e in AfterAdd(c, key, value, size)
      ensures e == Entry(key, value) || e in c
    {
      WithoutMember(c, key, e);
    }
  }

  lemma {:induction false} FindMember<K(!new), V(!new)>(c: seq<Entry<K, V>>, key: K)
    ensures Find(c, key).Some? ==> Entry(key, Find(c, key).value) in c
  {
    if c != [] && c[0].key != key {
      FindMember(c[1..], key);
    }
  }

  lemma AfterGetMembers<K(!new), V(!new)>(c: seq<Entry<K, V>>, key: K)
    ensures forall e :: e in AfterGet(c, key) ==> e in c
  {
    FindMember(c, key);
    forall e | e in AfterGet(c, key)
      ensures e in c
    {
      WithoutMember(c, key, e);
    }
  }

  // ------------------------------------------------- map and list in step

  // Map and list hold the same entries, one per key.
  ghost predicate InStep<K(!new), V(!new)>(c: seq<Entry<K, V>>, items: map<K, Entry<K, V>>) {
    && DistinctKeys(c)
    && (forall e :: e in c ==> e.key in items && items[e.key] == e)
    && (forall k :: k in items ==> items[k].key == k && items[k] in c)
  }

  lemma Lookup<K(!new), V(!new)>(c: seq<Entry<K, V>>, items: map<K, Entry<K, V>>, key: K)
    requires InStep(c, items)
    ensures Find(c, key) == if key in items then Some(items[key].value) else None
    ensures key !in items ==> Without(c, key) == c
    ensures key in items ==> |Without(c, key)| == |c| - 1
  {
    if key in items {
      var i :| 0 <= i < |c| && c[i] == items[key];
      FindIs(c, i);
      WithoutIs(c, i);
    } else {
      FindNone(c, key);
    }
  }

  lemma InStepWithout<K(!new), V(!new)>(c: seq<Entry<K, V>>, items: map<K, Entry<K, V>>, key: K)
    requires InStep(c, items)
    ensures InStep(Without(c, key), items - {key})
  {
    WithoutDistinct(c, key);
    forall e
      ensures e in Without(c, key) <==> e in c && e.key != key
    {
      WithoutMember(c, key, e);
    }
  }

  lemma InStepPush<K(!new), V(!new)>(c: seq<Entry<K, V>>, items: map<K, Entry<K, V>>, key: K, value: V)
    requires InStep(c, items) && key !in items
    ensures InStep([Entry(key, value)] + c, items[key := Entry(key, value)])
  {
    var c' := [Entry(key, value)] + c;
    forall i, j | 0 <= i < j < |c'|
      ensures c'[i].key != c'[j].key
    {
      assert c'[j] in c;
      assert i > 0 ==> c'[i] == c[i - 1] && c'[j] == c[j - 1];
    }
  }

  lemma InStepUsed<K(!new), V(!new)>(c: seq<Entry<K, V>>, items: map<K, Entry<K, V>>, key: K, value: V)
    requires InStep(c, items)
    ensures InStep(Used(c, key, value), items[key := Entry(key, value)])
  {
    InStepWithout(c, items, key);
    InStepPush(Without(c, key), items - {key}, key, value);
    assert (items - {key})[key := Entry(key, value)] == items[key := Entry(key, value)];
  }

  lemma InStepDropLast<K(!new), V(!new)>(c: seq<Entry<K, V>>, items: map<K, Entry<K, V>>)
    requires InStep(c, items) && c != []
    ensures InStep(c[..|c| - 1], items - {c[|c| - 1].key})
  {
    var n := |c| - 1;
    WithoutIs(c, n);
    assert c[..n] + c[n + 1..] == c[..n];
    InStepWithout(c, items, c[n].key);
  }

  // ------------------------------------------------------------- the object

  class Cache<K(!new, ==), V(!new)> {
    const size: nat
    var evictList: seq<Entry<K, V>>
    var items: map<K, Entry<K, V>>

    ghost predicate Valid()
      reads this
    {
      0 < size && |evictList| <= size && InStep(evictList, items)
    }

    constructor (size: nat)
      requires size > 0
      ensures Valid() && evictList == [] && this.size == size
    {
      this.size, evictList, items := size, [], map[];
    }

    // MoveToFront, and the new value of the entry.
    method MoveToFront(key: K, value: V)
      requires Valid() && key in items
      modifies this
      ensures Valid() && evictList == Used(old(evictList), key, value)
    {
      Lookup(evictList, items, key);
      InStepUsed(evictList, items, key, value);
      evictList := [Entry(key, value)] + Without(evictList, key);
      items := items[key := Entry(key, value)];
    }

    method Get(key: K) returns (r: Option<V>)
      requires Valid()
      modifies this
      ensures Valid() && evictList == AfterGet(old(evictList), key)
      ensures r == Find(old(evictList), key)
    {
      Lookup(evictList, items, key);
      if key in items {
        r := Some(items[key].value);
        MoveToFront(key, r.value);
      } else {
        r := None;
      }
    }

    method Add(key: K, value: V)
      requires Valid()
      modifies this
      ensures Valid() && evictList == AfterAdd(old(evictList), key, value, size)
    {
      Lookup(evictList, items, key);
      hide InStep, Without;
      if key in items {
        MoveToFront(key, value);
        return;
      }
      InStepPush(evictList, items, key, value);
      evictList := [Entry(key, value)] + evictList;
      items := items[key := Entry(key, value)];
      if |evictList| > size {
        RemoveOldest();
      }
    }

    // On any cache, the empty one and one that has just outgrown its size included.
    method RemoveOldest()
      requires InStep(evictList, items)
      modifies this
      ensures InStep(evictList, items)
      ensures evictList == if old(evictList) == [] then [] else old(evictList)[..|old(evictList)| - 1]
    {
      if evictList == [] { return; }
      InStepDropLast(evictList, items);
      var last := evictList[|evictList| - 1];
      evictList := evictList[..|evictList| - 1];
      items := items - {last.key};
    }

    method Remove(key: K)
      requires Valid()
      modifies this
      ensures Valid() && evictList == Without(old(evictList), key)
    {
      Lookup(evictList, items, key);
      InStepWithout(evictList, items, key);
      if key in items {
        evictList := Without(evictList, key);
        items := items - {key};
      }
    }

    method Purge()
      requires Valid()
      modifies this
      ensures Valid() && evictList == []
    {
      evictList, items := [], map[];
    }
  }
}
