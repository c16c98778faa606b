/**
 * A Python `dict` with string keys: a finite map that remembers the order in
 * which its keys were first inserted. Assigning to a key that is already
 * present replaces the value and keeps the key where it was.
 */
module OrderedDict {
  import opened Wrappers

  datatype Dict<V> = Dict(keys: seq<string>, items: map<string, V>) {

    /** Every key is listed once, and the listed keys are exactly the map's keys. */
    ghost predicate Valid() {
      && (forall i, j :: 0 <= i < j < |keys| ==> keys[i] != keys[j])
      && (forall k :: k in items <==> k in keys)
    }

    /** `d.get(k)` */
    function Get(k: string): Option<V> {
      if k in items then Some(items[k]) else None
    }

    /** `d[k] = v` */
    function Put(k: string, v: V): (d: Dict<V>)
      ensures Valid() ==> d.Valid()
      ensures d.Get(k) == Some(v)
      ensures forall k' :: k' != k ==> d.Get(k') == Get(k')
      ensures k in items ==> d.keys == keys
      ensures k !in items ==> d.keys == keys + [k]
    {
      Dict(if k in items then keys else keys + [k], items[k := v])
    }
  }

  /** The empty dict `{}`. */
  function Empty<V>(): (d: Dict<V>)
    ensures d.Valid()
    ensures forall k :: d.Get(k) == None
  {
    Dict([], map[])
  }

  /** Assigning the same key twice leaves no trace of the first value. */
  lemma PutTwice<V>(d: Dict<V>, k: string, a: V, b: V)
    ensures d.Put(k, a).Put(k, b) == d.Put(k, b)
  {
  }

  /** In a valid dict, the number of entries is the number of listed keys. */
  lemma SizeIsKeyCount<V>(d: Dict<V>)
    requires d.Valid()
    ensures |d.items| == |d.keys|
  {
    assert d.items.Keys == set k | k in d.keys;
    DistinctCount(d.keys);
  }

  /** A sequence without repetitions has as many distinct elements as positions. */
  lemma {:induction false} DistinctCount(s: seq<string>)
    requires forall i, j :: 0 <= i < j < |s| ==> s[i] != s[j]
    ensures |set k | k in s| == |s|
  {
    if s != [] {
      var init := s[..|s| - 1];
      DistinctCount(init);
      assert (set k | k in s) == (set k | k in init) + {s[|s| - 1]};
      assert s[|s| - 1] !in init;
    }
  }
}
