/** Python's `defaultdict(list)`, as `find_duplicates` uses it: lists are
    only ever appended to, and `items()` visits the keys in the order they
    were first appended to. */
module ListDicts {
  import opened FileSystem

  /** The state of a `defaultdict(list)`: its keys in insertion order and
      the list stored under each key. */
  datatype ListDict<K(==, !new), V> = ListDict(keys: seq<K>, lists: map<K, seq<V>>)
  {
    /** Each key is listed once, and the listed keys are exactly the keys
        that hold a list. */
    ghost predicate Valid() {
      && Distinct(keys)
      && (forall k :: k in lists <==> k in keys)
    }

    /** `d[k]`: the stored list, or the empty list a missing key starts with. */
    function Get(k: K): seq<V> {
      if k in lists then lists[k] else []
    }

    /** `d[k].append(v)`: the list under `k` grows by `v` at its end, a new
        key goes to the end of the key order, and nothing else changes. */
    function Append(k: K, v: V): (d: ListDict<K, V>)
      requires Valid()
      ensures d.Valid()
      ensures d.Get(k) == Get(k) + [v]
      ensures forall k' :: k' != k ==> d.Get(k') == Get(k')
      ensures d.keys == if k in lists then keys else keys + [k]
    {
      if k in lists then ListDict(keys, lists[k := lists[k] + [v]])
      else ListDict(keys + [k], lists[k := [v]])
    }
  }

  /** `defaultdict(list)`: nothing stored yet. */
  function Empty<K(==, !new), V>(): (d: ListDict<K, V>)
    ensures d.Valid()
    ensures d.keys == [] && d.lists == map[]
    ensures forall k :: d.Get(k) == []
  {
    ListDict([], map[])
  }

  /** The dictionary that appending each pair `(k, v)` of `items`, in order,
      to an empty `defaultdict(list)` leaves behind. Every stored list is
      non-empty, since a key only appears by being appended to. */
  function GroupBy<K(==, !new), V>(items: seq<(K, V)>): (d: ListDict<K, V>)
    ensures d.Valid()
    ensures forall k :: k in d.lists ==> d.lists[k] != []
  {
    if items == [] then Empty()
    else
      var last := items[|items| - 1];
      GroupBy(items[..|items| - 1]).Append(last.0, last.1)
  }

  /** Appending one more pair is one more `Append`. */
  lemma GroupBySnoc<K(!new), V>(items: seq<(K, V)>, k: K, v: V)
    ensures GroupBy(items + [(k, v)]) == GroupBy(items).Append(k, v)
  {
    assert (items + [(k, v)])[..|items|] == items;
  }
}
