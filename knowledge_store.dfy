/**
 * The in-memory table of the knowledge base: entry ID to entry record, kept
 * in insertion order like the Python dict behind it.
 */
module KnowledgeStore {
  import opened Wrappers
  import opened Clock
  import opened Text
  import opened OrderedDict

  /** An entry record. `C` is the caller's structured content. */
  datatype Entry<C> = Entry(topic: string, content: C, createdAt: Instant, lastModified: Instant)

  /** A search result: the entry's fields together with its `id`. */
  datatype Hit<C> = Hit(id: string, entry: Entry<C>)

  /** The ID an entry added to `topic` at clock reading `t` receives: `{topic}_{stamp}`. */
  function EntryId(topic: string, t: Instant): string {
    topic + "_" + Stamp(t)
  }

  /** In `a + [sep] + s` with no `sep` in `s`, the separator after `a` is the last one. */
  lemma LastSeparator(a: string, s: string, sep: char)
    requires sep !in s
    ensures (a + [sep] + s)[|a|] == sep
    ensures forall k :: |a| < k < |a| + 1 + |s| ==> (a + [sep] + s)[k] != sep
  {
  }

  /**
   * Cutting at the last separator: when neither tail contains `sep`, equal
   * joins have equal heads and equal tails.
   */
  lemma SplitAtLastSeparator(a: string, s: string, b: string, t: string, sep: char)
    requires sep !in s && sep !in t
    requires a + [sep] + s == b + [sep] + t
    ensures a == b && s == t
  {
    var w := a + [sep] + s;
    LastSeparator(a, s, sep);
    LastSeparator(b, t, sep);
    assert |a| == |b|;
    assert a == w[..|a|] == b;
    assert s == w[|a| + 1..] == t;
  }

  /**
   * Two adds name the same entry exactly when they are for the same topic
   * and fall within the same second.
   */
  lemma EntryIdCollision(a: string, t: Instant, b: string, u: Instant)
    ensures EntryId(a, t) == EntryId(b, u) <==> a == b && t.second == u.second
  {
    if EntryId(a, t) == EntryId(b, u) {
      assert '_' !in Stamp(t) && '_' !in Stamp(u) by {
        assert forall i :: 0 <= i < |Stamp(t)| ==> IsDigit(Stamp(t)[i]);
        assert forall i :: 0 <= i < |Stamp(u)| ==> IsDigit(Stamp(u)[i]);
      }
      SplitAtLastSeparator(a, Stamp(t), b, Stamp(u), '_');
      DigitsInjective(t.second, u.second);
    }
  }

  /** `query.lower() in str(content).lower()`, with `str` supplied as `render`. */
  predicate Matches<C>(query: string, render: C -> string, content: C) {
    Contains(Lower(render(content)), Lower(query))
  }

  /** The entries under `keys` whose content matches `query`, in the order of `keys`. */
  function Found<C>(keys: seq<string>, items: map<string, Entry<C>>, query: string, render: C -> string): seq<Hit<C>>
    requires forall k :: k in keys ==> k in items
  {
    if keys == [] then []
    else
      var k := keys[|keys| - 1];
      Found(keys[..|keys| - 1], items, query, render)
        + (if Matches(query, render, items[k].content) then [Hit(k, items[k])] else [])
  }

  /** A hit is found exactly when it pairs a listed key with its entry and that entry matches. */
  lemma {:induction false} FoundMembership<C>(keys: seq<string>, items: map<string, Entry<C>>, query: string, render: C -> string, h: Hit<C>)
    requires forall k :: k in keys ==> k in items
    ensures h in Found(keys, items, query, render) <==>
              h.id in keys && h.entry == items[h.id] && Matches(query, render, h.entry.content)
  {
    if keys != [] {
      var init := keys[..|keys| - 1];
      assert keys == init + [keys[|keys| - 1]];
      FoundMembership(init, items, query, render, h);
    }
  }

  /** Search returns at most one hit per entry. */
  lemma {:induction false} FoundLength<C>(keys: seq<string>, items: map<string, Entry<C>>, query: string, render: C -> string)
    requires forall k :: k in keys ==> k in items
    ensures |Found(keys, items, query, render)| <= |keys|
  {
    if keys != [] {
      FoundLength(keys[..|keys| - 1], items, query, render);
    }
  }

  /** The position of `k` in `keys`. */
  function IndexOf(keys: seq<string>, k: string): (i: nat)
    requires k in keys
    ensures i < |keys| && keys[i] == k
  {
    if keys[0] == k then 0 else 1 + IndexOf(keys[1..], k)
  }

  /** The hits `r` name keys of `keys`, each later hit under a later key. */
  ghost predicate InKeyOrder<C>(keys: seq<string>, r: seq<Hit<C>>) {
    forall i, j :: 0 <= i < j < |r| ==>
      r[i].id in keys && r[j].id in keys && IndexOf(keys, r[i].id) < IndexOf(keys, r[j].id)
  }

  /** Hits come in the insertion order of their keys. */
  lemma {:induction false} FoundInKeyOrder<C>(keys: seq<string>, items: map<string, Entry<C>>, query: string, render: C -> string)
    requires forall k :: k in keys ==> k in items
    requires forall i, j :: 0 <= i < j < |keys| ==> keys[i] != keys[j]
    ensures InKeyOrder(keys, Found(keys, items, query, render))
  {
    if keys != [] {
      var n := |keys| - 1;
      var init := keys[..n];
      var last := keys[n];
      var r0 := Found(init, items, query, render);
      var r := Found(keys, items, query, render);
      FoundInKeyOrder(init, items, query, render);
      forall h | h in r0
        ensures h.id in init
      {
        FoundMembership(init, items, query, render, h);
      }
      forall x | x in init
        ensures IndexOf(keys, x) == IndexOf(init, x) && IndexOf(keys, x) < n
      {
        assert keys[IndexOf(init, x)] == x;
      }
      assert IndexOf(keys, last) == n;
      forall i, j | 0 <= i < j < |r|
        ensures r[i].id in keys && r[j].id in keys && IndexOf(keys, r[i].id) < IndexOf(keys, r[j].id)
      {
        assert r[i] == r0[i] && r[i] in r0;
        if j < |r0| {
          assert r[j] == r0[j] && r[j] in r0;
          assert IndexOf(init, r0[i].id) < IndexOf(init, r0[j].id);
        } else {
          assert r[j].id == last;
        }
      }
    }
  }

  /** Upper- and lower-case letters in the query select the same entries. */
  lemma {:induction false} FoundIgnoresQueryCase<C>(keys: seq<string>, items: map<string, Entry<C>>, query: string, render: C -> string)
    requires forall k :: k in keys ==> k in items
    ensures Found(keys, items, query, render) == Found(keys, items, Lower(query), render)
  {
    LowerIdempotent(query);
    if keys != [] {
      FoundIgnoresQueryCase(keys[..|keys| - 1], items, query, render);
    }
  }

  /**
   * Entry timestamps read from a clock that never runs backwards: every entry
   * was created no later than it was last modified, and neither lies after `now`.
   */
  ghost predicate Chronological<C>(d: Dict<Entry<C>>, now: Instant) {
    forall k :: k in d.items ==>
      NotAfter(d.items[k].createdAt, d.items[k].lastModified) && NotAfter(d.items[k].lastModified, now)
  }

  /** `add_entry` keeps the table chronological when its three clock reads are in order. */
  lemma AddKeepsChronological<C>(d: Dict<Entry<C>>, now: Instant, topic: string, content: C, t0: Instant, t1: Instant, t2: Instant)
    requires Chronological(d, now)
    requires NotAfter(now, t0) && NotAfter(t0, t1) && NotAfter(t1, t2)
    ensures Chronological(d.Put(EntryId(topic, t0), Entry(topic, content, t1, t2)), t2)
  {
  }

  /** `update_entry` keeps the table chronological when its clock read is not earlier than the last one. */
  lemma UpdateKeepsChronological<C>(d: Dict<Entry<C>>, now: Instant, id: string, content: C, t: Instant)
    requires Chronological(d, now)
    requires id in d.items
    requires NotAfter(now, t)
    ensures Chronological(d.Put(id, d.items[id].(content := content, lastModified := t)), t)
  {
  }

  /**
   * The ID collision: a second add to the same topic within the same second
   * writes to the first add's key, so the table does not grow and only the
   * second record survives.
   */
  lemma SameSecondAddsCollide<C>(d: Dict<Entry<C>>, topic: string, first: Entry<C>, second: Entry<C>, t: Instant, u: Instant)
    requires d.Valid()
    requires t.second == u.second
    ensures EntryId(topic, u) == EntryId(topic, t)
    ensures var once := d.Put(EntryId(topic, t), first);
      var twice := once.Put(EntryId(topic, u), second);
      && |twice.keys| == |once.keys|
      && twice == d.Put(EntryId(topic, t), second)
  {
  }

  /** The knowledge base's in-memory `entries` table. */
  class KnowledgeBase<C> {
    var entries: Dict<Entry<C>>

    ghost predicate Valid()
      reads this
    {
      entries.Valid()
    }

    constructor ()
      ensures Valid()
      ensures entries == Empty()
    {
      entries := Empty();
    }

    /**
     * `add_entry`: `idClock`, `createdClock` and `modifiedClock` are the three
     * clock reads, in the order the source takes them.
     */
    method AddEntry(topic: string, content: C, idClock: Instant, createdClock: Instant, modifiedClock: Instant)
      returns (id: string)
      requires Valid()
      modifies this
      ensures Valid()
      ensures id == EntryId(topic, idClock)
      ensures entries == old(entries).Put(id, Entry(topic, content, createdClock, modifiedClock))
      ensures entries.Get(id) == Some(Entry(topic, content, createdClock, modifiedClock))
    {
      id := EntryId(topic, idClock);
      entries := entries.Put(id, Entry(topic, content, createdClock, modifiedClock));
    }

    /** `get_entry`: a lookup that changes nothing. */
    method GetEntry(id: string) returns (r: Option<Entry<C>>)
      ensures r == None <==> id !in entries.items
      ensures r != None ==> r.value == entries.items[id]
    {
      r := if id in entries.items then Some(entries.items[id]) else None;
    }

    /** `update_entry`: replaces the content and the modification time of a known entry. */
    method UpdateEntry(id: string, content: C, now: Instant) returns (ok: bool)
      requires Valid()
      modifies this
      ensures Valid()
      ensures ok <==> id in old(entries.items)
      ensures !ok ==> entries == old(entries)
      ensures ok ==> entries == old(entries).Put(id, old(entries.items[id]).(content := content, lastModified := now))
      ensures ok ==> entries.keys == old(entries.keys)
      ensures ok ==> && entries.items[id].topic == old(entries.items[id].topic)
                     && entries.items[id].createdAt == old(entries.items[id].createdAt)
                     && entries.items[id].content == content
                     && entries.items[id].lastModified == now
    {
      if id !in entries.items {
        return false;
      }
      var e := entries.items[id];
      entries := entries.Put(id, e.(content := content, lastModified := now));
      ok := true;
    }

    /**
     * `search`: scans the entries in insertion order and keeps those whose
     * rendered content contains the query, ignoring case. `render` is `str`.
     */
    method Search(query: string, render: C -> string) returns (results: seq<Hit<C>>)
      requires Valid()
      ensures results == Found(entries.keys, entries.items, query, render)
      ensures |results| <= |entries.items|
    {
      var q := Lower(query);
      results := [];
      for i := 0 to |entries.keys|
        invariant results == Found(entries.keys[..i], entries.items, query, render)
      {
        var id := entries.keys[i];
        var entry := entries.items[id];
        if Contains(Lower(render(entry.content)), q) {
          results := results + [Hit(id, entry)];
        }
        assert entries.keys[..i + 1][..i] == entries.keys[..i];
      }
      assert entries.keys[..|entries.keys|] == entries.keys;
      FoundLength(entries.keys, entries.items, query, render);
      SizeIsKeyCount(entries);
    }
  }
}
