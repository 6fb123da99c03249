/** The dictionary-backed key/value store that the source's test suite puts
    in place of Redis (tests.py, class `MockingRedis`). Keys are whole-second
    timestamps and values are comma-joined domain lists. A Python dict keeps
    its keys in insertion order, which `get_first_key` exposes; `order` holds
    that order. */
module Store {
  import opened Wrappers
  import opened Sequences

  /** `dict.get(key)`: the stored value, or `None` for a missing key. */
  function Lookup(m: map<int, string>, key: int): (r: Option<string>)
    ensures r.Some? <==> key in m
    ensures r.Some? ==> r.value == m[key]
  {
    if key in m then Some(m[key]) else None
  }

  /** The values `mget(keys)` answers with, as a function of the table. */
  function Lookups(m: map<int, string>, keys: seq<int>): (r: seq<Option<string>>)
    ensures |r| == |keys|
    ensures forall i :: 0 <= i < |keys| ==> r[i] == Lookup(m, keys[i])
  {
    if |keys| == 0 then []
    else Lookups(m, keys[..|keys| - 1]) + [Lookup(m, keys[|keys| - 1])]
  }

  /** The table after `dict.update(items)`: the items are applied in order. */
  function Updated(m: map<int, string>, items: seq<(int, string)>): map<int, string>
    decreases |items|
  {
    if |items| == 0 then m
    else Updated(m[items[0].0 := items[0].1], items[1..])
  }

  /** The keys `dict.update(items)` adds to the table, in the order they are
      inserted; keys already present keep their place. */
  function NewKeys(m: map<int, string>, items: seq<(int, string)>): seq<int>
    decreases |items|
  {
    if |items| == 0 then []
    else
      var k := items[0].0;
      (if k in m then [] else [k]) + NewKeys(m[k := items[0].1], items[1..])
  }

  /** The keys of a list of items. */
  function ItemKeys(items: seq<(int, string)>): set<int>
  {
    set i | 0 <= i < |items| :: items[i].0
  }

  /** Items as given by a dict: every key appears once. */
  predicate DistinctKeys(items: seq<(int, string)>)
  {
    forall i, j :: 0 <= i < j < |items| ==> items[i].0 != items[j].0
  }

  lemma ItemKeysCons(items: seq<(int, string)>)
    requires |items| > 0
    ensures ItemKeys(items) == {items[0].0} + ItemKeys(items[1..])
  {
    forall x | x in ItemKeys(items) ensures x == items[0].0 || x in ItemKeys(items[1..]) {
      var i :| 0 <= i < |items| && items[i].0 == x;
      if i > 0 { assert items[1..][i - 1] == items[i]; }
    }
    forall x | x in ItemKeys(items[1..]) ensures x in ItemKeys(items) {
      var i :| 0 <= i < |items[1..]| && items[1..][i].0 == x;
      assert items[i + 1].0 == x;
    }
  }

  /** `update` adds the items' keys and keeps every other key with its
      previous value. */
  lemma {:induction false} UpdatedFrame(m: map<int, string>, items: seq<(int, string)>)
    ensures Updated(m, items).Keys == m.Keys + ItemKeys(items)
    ensures forall k :: k in m && k !in ItemKeys(items) ==> Updated(m, items)[k] == m[k]
    decreases |items|
  {
    if |items| > 0 {
      UpdatedFrame(m[items[0].0 := items[0].1], items[1..]);
      ItemKeysCons(items);
    }
  }

  /** The keys `update` inserts are exactly the items' keys that were
      missing, each listed once, and the table grows by their number. */
  lemma {:induction false} NewKeysAreFresh(m: map<int, string>, items: seq<(int, string)>)
    ensures forall k :: k in NewKeys(m, items) <==> k in ItemKeys(items) && k !in m
    ensures Distinct(NewKeys(m, items))
    ensures |Updated(m, items)| == |m| + |NewKeys(m, items)|
    decreases |items|
  {
    if |items| > 0 {
      var k := items[0].0;
      var m' := m[k := items[0].1];
      NewKeysAreFresh(m', items[1..]);
      ItemKeysCons(items);
      var head: seq<int> := if k in m then [] else [k];
      assert NewKeys(m, items) == head + NewKeys(m', items[1..]);
      if k !in m {
        assert |m'| == |m| + 1;
      }
    }
  }

  /** With distinct keys (a dict), every key of the items ends up with its
      item's value: `update` overwrites what was there. */
  lemma {:induction false} UpdatedOverwrites(m: map<int, string>, items: seq<(int, string)>)
    requires DistinctKeys(items)
    ensures forall i :: 0 <= i < |items| ==>
      items[i].0 in Updated(m, items) && Updated(m, items)[items[i].0] == items[i].1
    decreases |items|
  {
    if |items| > 0 {
      var m' := m[items[0].0 := items[0].1];
      UpdatedOverwrites(m', items[1..]);
      UpdatedFrame(m', items[1..]);
      ItemKeysCons(items);
      forall i | 0 < i < |items|
        ensures items[i].0 in Updated(m, items) && Updated(m, items)[items[i].0] == items[i].1
      {
        assert items[1..][i - 1] == items[i];
      }
    }
  }

  class MockingRedis {
    /** The dict `save_redis`. */
    var saveRedis: map<int, string>
    /** The insertion order of the dict's keys. */
    var order: seq<int>

    ghost predicate Valid()
      reads this
    {
      Distinct(order)
      && (forall k :: k in saveRedis <==> k in order)
    }

    /** `__init__`: an empty store. */
    constructor ()
      ensures Valid()
      ensures saveRedis == map[] && order == []
    {
      saveRedis := map[];
      order := [];
    }

    /** `get(key)`. */
    method Get(key: int) returns (v: Option<string>)
      ensures v == Lookup(saveRedis, key)
    {
      if key in saveRedis {
        v := Some(saveRedis[key]);
      } else {
        v := None;
      }
    }

    /** `get_first_key`: the earliest-inserted key; `None` where the source
        raises `IndexError` on an empty store. */
    method GetFirstKey() returns (first: Option<int>)
      requires Valid()
      ensures first.None? <==> saveRedis == map[]
      ensures first.Some? ==> first.value in saveRedis && |order| > 0 && first.value == order[0]
    {
      assert Valid();
      assert forall x :: x in saveRedis <==> x in order;
      if |order| == 0 {
        assert forall x :: x in saveRedis ==> x in order;
        assert saveRedis.Keys == {};
        first := None;
      } else {
        assert order[0] in order;
        first := Some(order[0]);
      }
    }

    /** `mset(items)`: `save_redis.update(items)`. */
    method Mset(items: seq<(int, string)>)
      requires Valid()
      modifies this
      ensures Valid()
      ensures saveRedis == Updated(old(saveRedis), items)
      ensures order == old(order) + NewKeys(old(saveRedis), items)
    {
      var i := 0;
      while i < |items|
        invariant 0 <= i <= |items|
        invariant Valid()
        invariant Updated(old(saveRedis), items) == Updated(saveRedis, items[i..])
        invariant old(order) + NewKeys(old(saveRedis), items) == order + NewKeys(saveRedis, items[i..])
      {
        var (k, v) := items[i];
        assert items[i..][1..] == items[i + 1..];
        if k !in saveRedis {
          order := order + [k];
        }
        saveRedis := saveRedis[k := v];
        i := i + 1;
      }
    }

    /** `mget(keys)`: one answer per key, in the same order. */
    method Mget(keys: seq<int>) returns (vals: seq<Option<string>>)
      ensures vals == Lookups(saveRedis, keys)
    {
      vals := [];
      var i := 0;
      while i < |keys|
        invariant 0 <= i <= |keys|
        invariant vals == Lookups(saveRedis, keys[..i])
      {
        assert keys[..i + 1][..i] == keys[..i];
        vals := vals + [Lookup(saveRedis, keys[i])];
        i := i + 1;
      }
      assert keys[..i] == keys;
    }

    /** `__len__`: the number of stored keys. */
    method Len() returns (n: nat)
      requires Valid()
      ensures n == |saveRedis| && n == |order|
    {
      n := |order|;
      DistinctKeysCount(saveRedis, order);
    }
  }

  /** A table whose keys are exactly the elements of a duplicate-free list
      has as many keys as the list has elements. */
  lemma {:induction false} DistinctKeysCount(m: map<int, string>, order: seq<int>)
    requires Distinct(order)
    requires forall k :: k in m <==> k in order
    ensures |m| == |order|
    decreases |order|
  {
    if |order| == 0 {
      assert m.Keys == {};
    } else {
      var k := order[|order| - 1];
      var rest := order[..|order| - 1];
      var m' := map x | x in m && x != k :: m[x];
      assert forall x :: x in m' <==> x in rest;
      DistinctKeysCount(m', rest);
      assert m.Keys == m'.Keys + {k};
    }
  }
}
