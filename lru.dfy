/**
 * Model of kcache/cache/lru/lru.go: a bounded least-recently-used store whose
 * entries may carry an absolute deadline.
 *
 * The recency list (`container/list` in the source) is the sequence
 * `nodeList` of (key, value, deadline) entries, most recently used first;
 * `items` indexes the entries by key, and `Valid()` keeps the two in step.
 * The pure functions `Put` and `Access` say what `AddWithExpire` and `Get` do
 * to the list; the class's methods are proved against them. The clock is the
 * parameter `now`, durations are integers, and the `onEvicted` callback is
 * recorded as the ghost log `evictions` of the (key, value) pairs it is
 * called with.
 */
module Lru {
  import opened Optional
  import opened Sequences

  /** An entry of the store: a key, its value and its deadline (None: never expires). */
  datatype Entry<V> = Entry(key: string, value: V, deadline: Option<int>)

  /** What `Get` does to the entries, as a value: the value found, the new entries, the entry dropped. */
  datatype GetOutcome<V> = GetOutcome(value: Option<V>, entries: seq<Entry<V>>, dropped: Option<Entry<V>>)

  /** What `AddWithExpire` does to the entries, as a value. */
  datatype AddOutcome<V> = AddOutcome(entries: seq<Entry<V>>, result: bool, dropped: Option<Entry<V>>)

  /** An entry is expired only when the clock is strictly after its deadline. */
  function IsExpired<V>(e: Entry<V>, now: int): (expired: bool)
    ensures e.deadline.None? ==> !expired
    ensures e.deadline.Some? ==> (expired <==> now > e.deadline.value)
  {
    e.deadline.Some? && now > e.deadline.value
  }

  /**
   * The deadline `AddWithExpire` gives an entry: the explicit TTL when it is
   * positive, else the store's default when that is positive, else none.
   */
  function Deadline(now: int, expire: int, defaultExpire: int): (d: Option<int>)
    ensures d.None? <==> expire <= 0 && defaultExpire <= 0
    ensures d.Some? ==> d.value > now
    ensures expire > 0 ==> d == Some(now + expire)
    ensures expire <= 0 && defaultExpire > 0 ==> d == Some(now + defaultExpire)
  {
    if expire > 0 then Some(now + expire)
    else if defaultExpire > 0 then Some(now + defaultExpire)
    else None
  }

  /**
   * An entry gets a deadline later than the time it is added, so it is live
   * then; with an explicit TTL it stays live up to and including `now +
   * expire` and is expired from the next instant on; without one, the
   * store's positive default plays the same part. An entry without a
   * deadline is never expired.
   */
  lemma LiveUntilDeadline<V>(key: string, value: V, now: int, expire: int, defaultExpire: int, t: int)
    ensures var e := Entry(key, value, Deadline(now, expire, defaultExpire));
            (t <= now ==> !IsExpired(e, t)) &&
            (expire > 0 ==> (IsExpired(e, t) <==> t > now + expire)) &&
            (expire <= 0 && defaultExpire > 0 ==> (IsExpired(e, t) <==> t > now + defaultExpire)) &&
            (expire <= 0 && defaultExpire <= 0 ==> !IsExpired(e, t))
  {
  }

  /** The number of entries a store of capacity `size` can hold after a completed add. */
  function Capacity(size: int): (n: nat)
  {
    if size < 0 then 0 else size
  }

  /** The keys the entries carry. */
  function KeysOf<V>(es: seq<Entry<V>>): (keys: set<string>)
  {
    set i | 0 <= i < |es| :: es[i].key
  }

  ghost predicate DistinctKeys<V>(es: seq<Entry<V>>)
  {
    forall i, j :: 0 <= i < j < |es| ==> es[i].key != es[j].key
  }

  /** The position of `key` in the entries, as the index map `items` finds its node. */
  function Find<V>(es: seq<Entry<V>>, key: string): (r: Option<nat>)
    ensures r.None? <==> key !in KeysOf(es)
    ensures r.Some? ==> r.value < |es| && es[r.value].key == key
    ensures r.Some? ==> forall i :: 0 <= i < r.value ==> es[i].key != key
  {
    if es == [] then None
    else if es[0].key == key then Some(0)
    else
      match Find(es[1..], key)
      case None => assert KeysOf(es) == {es[0].key} + KeysOf(es[1..]); None
      case Some(i) => Some(i + 1)
  }

  /** The list's `MoveToFront`: the element at `i` goes first, the others keep their order. */
  function MoveToFront<T>(s: seq<T>, i: nat): (r: seq<T>)
    requires i < |s|
    ensures |r| == |s| && r[0] == s[i] && multiset(r) == multiset(s)
  {
    RemoveAtMultiset(s, i);
    assert s[i..i + 1] == [s[i]];
    [s[i]] + RemoveAt(s, i)
  }

  /** The entries after removing the one with `key`, if there is one. */
  function RemoveKey<V>(es: seq<Entry<V>>, key: string): (r: seq<Entry<V>>)
    ensures key !in KeysOf(es) ==> r == es
    ensures |r| == if key in KeysOf(es) then |es| - 1 else |es|
    ensures multiset(r) <= multiset(es)
  {
    match Find(es, key)
    case None => es
    case Some(i) =>
      RemoveAtMultiset(es, i);
      RemoveAt(es, i)
  }

  /** The callback invocations for removing `e`: one when a callback is set, none otherwise. */
  function Fired<V>(onEvicted: bool, e: Entry<V>): (calls: seq<(string, V)>)
  {
    if onEvicted then [(e.key, e.value)] else []
  }

  /** The callback invocations for an optional dropped entry. */
  function FiredFor<V>(onEvicted: bool, dropped: Option<Entry<V>>): (calls: seq<(string, V)>)
  {
    match dropped
    case None => []
    case Some(e) => Fired(onEvicted, e)
  }

  /**
   * `AddWithExpire` on the entries: an existing key is replaced in place and
   * moved to the front (result true, nothing dropped); a new key is pushed to
   * the front and, when that makes the list longer than `size`, the back
   * entry is dropped and the result is true.
   */
  function Put<V>(es: seq<Entry<V>>, e: Entry<V>, size: int): (r: AddOutcome<V>)
    requires DistinctKeys(es)
    ensures DistinctKeys(r.entries)
    ensures |es| <= Capacity(size) ==> |r.entries| <= Capacity(size)
    ensures |es| <= Capacity(size) ==> (e.key in KeysOf(r.entries) <==> size >= 1)
    ensures size >= 1 && |es| <= Capacity(size) ==> r.entries[0] == e
    ensures e.key in KeysOf(es) ==> r.result && r.dropped.None? && |r.entries| == |es|
    ensures e.key in KeysOf(es) ==> KeysOf(r.entries) == KeysOf(es) && r.entries[1..] == RemoveKey(es, e.key)
    ensures e.key !in KeysOf(es) ==> r.result == (|es| >= size)
    ensures e.key !in KeysOf(es) && r.result ==>
              r.dropped == Some(([e] + es)[|es|]) && [e] + es == r.entries + [r.dropped.value]
    ensures e.key !in KeysOf(es) && !r.result ==> r.dropped.None? && r.entries == [e] + es
  {
    match Find(es, e.key)
    case Some(i) =>
      RemoveAtDistinct(es, i);
      DistinctPush(RemoveAt(es, i), e);
      assert ([e] + RemoveAt(es, i))[0] == e;
      assert ([e] + RemoveAt(es, i))[1..] == RemoveAt(es, i);
      AddOutcome([e] + RemoveAt(es, i), true, None)
    case None =>
      var pushed := [e] + es;
      assert DistinctKeys(pushed) by {
        forall j | 1 <= j < |pushed| ensures pushed[j].key != e.key {
          assert pushed[j] == es[j - 1];
        }
      }
      if |pushed| > size then
        assert pushed == pushed[..|es|] + [pushed[|es|]];
        assert |es| > 0 ==> pushed[..|es|][0] == e;
        AddOutcome(pushed[..|es|], true, Some(pushed[|es|]))
      else
        AddOutcome(pushed, false, None)
  }

  /**
   * `Get` on the entries: a missing key changes nothing; an expired entry is
   * removed (and reported to the callback) and not returned; a live entry is
   * returned and promoted, the others keeping their relative order.
   */
  function Access<V>(es: seq<Entry<V>>, key: string, now: int): (r: GetOutcome<V>)
    requires DistinctKeys(es)
    ensures DistinctKeys(r.entries) && |r.entries| <= |es|
    ensures key !in KeysOf(es) ==> r == GetOutcome(None, es, None)
    ensures key in KeysOf(es) ==>
              var i := Find(es, key).value;
              if IsExpired(es[i], now) then
                r.value.None? && r.dropped == Some(es[i]) && r.entries == RemoveAt(es, i) &&
                KeysOf(r.entries) == KeysOf(es) - {key}
              else
                r.value == Some(es[i].value) && r.dropped.None? && |r.entries| == |es| &&
                r.entries[0] == es[i] && r.entries[1..] == RemoveAt(es, i) &&
                KeysOf(r.entries) == KeysOf(es)
  {
    match Find(es, key)
    case None => GetOutcome(None, es, None)
    case Some(i) =>
      if IsExpired(es[i], now) then
        RemoveAtDistinct(es, i);
        GetOutcome(None, RemoveAt(es, i), Some(es[i]))
      else
        MoveToFrontKeepsOthers(es, i);
        GetOutcome(Some(es[i].value), MoveToFront(es, i), None)
  }

  lemma PutExisting<V>(es: seq<Entry<V>>, e: Entry<V>, size: int, i: nat)
    requires DistinctKeys(es) && i < |es| && es[i].key == e.key
    ensures Put(es, e, size) == AddOutcome([e] + RemoveAt(es, i), true, None)
  {
    FindDistinct(es, i);
  }

  lemma PutNew<V>(es: seq<Entry<V>>, e: Entry<V>, size: int)
    requires DistinctKeys(es) && e.key !in KeysOf(es)
    ensures Put(es, e, size) ==
      if |es| + 1 > size then AddOutcome(([e] + es)[..|es|], true, Some(([e] + es)[|es|]))
      else AddOutcome([e] + es, false, None)
  {
  }

  /** Removing one entry keeps the other keys, in order, and only them. */
  lemma RemoveAtDistinct<V>(es: seq<Entry<V>>, i: nat)
    requires i < |es| && DistinctKeys(es)
    ensures DistinctKeys(RemoveAt(es, i))
    ensures KeysOf(RemoveAt(es, i)) == KeysOf(es) - {es[i].key}
    ensures |RemoveAt(es, i)| == |es| - 1
  {
    var r := RemoveAt(es, i);
    RemoveAtIndex(es, i);
    forall k | k in KeysOf(es) - {es[i].key} ensures k in KeysOf(r) {
      var j :| 0 <= j < |es| && es[j].key == k;
      assert j != i;
      assert r[if j < i then j else j - 1] == es[j];
    }
  }

  /** In a list without duplicate keys, the entry at `i` is the one `Find` reaches. */
  lemma FindDistinct<V>(es: seq<Entry<V>>, i: nat)
    requires i < |es| && DistinctKeys(es)
    ensures Find(es, es[i].key) == Some(i)
  {
  }

  /** Promotion to the front keeps the keys and the relative order of every other entry. */
  lemma MoveToFrontKeepsOthers<V>(es: seq<Entry<V>>, i: nat)
    requires i < |es| && DistinctKeys(es)
    ensures DistinctKeys(MoveToFront(es, i)) && KeysOf(MoveToFront(es, i)) == KeysOf(es)
    ensures MoveToFront(es, i)[0] == es[i] && MoveToFront(es, i)[1..] == RemoveAt(es, i)
  {
    RemoveAtDistinct(es, i);
    DistinctPush(RemoveAt(es, i), es[i]);
    assert es[i].key in KeysOf(es);
    assert MoveToFront(es, i)[1..] == RemoveAt(es, i);
  }

  /** Promoting the entry at `i` and then overwriting the front puts the new entry before all the others. */
  lemma MoveToFrontThenSet<T>(s: seq<T>, i: nat, x: T)
    requires i < |s|
    ensures MoveToFront(s, i)[0 := x] == [x] + RemoveAt(s, i)
  {
    assert MoveToFront(s, i)[1..] == RemoveAt(s, i);
  }

  /** Replacing the front entry by one with the same key keeps the keys distinct. */
  lemma ReplaceFront<V>(es: seq<Entry<V>>, e: Entry<V>)
    requires es != [] && DistinctKeys(es) && es[0].key == e.key
    ensures DistinctKeys(es[0 := e])
  {
    var r := es[0 := e];
    assert forall j :: 0 <= j < |r| ==> r[j].key == es[j].key;
  }

  /** Removal is idempotent: after removing a key it is absent, and removing it again changes nothing. */
  lemma RemoveKeyIdempotent<V>(es: seq<Entry<V>>, key: string)
    requires DistinctKeys(es)
    ensures key !in KeysOf(RemoveKey(es, key))
    ensures DistinctKeys(RemoveKey(es, key))
    ensures KeysOf(RemoveKey(es, key)) == KeysOf(es) - {key}
    ensures RemoveKey(RemoveKey(es, key), key) == RemoveKey(es, key)
  {
    match Find(es, key)
    case None =>
    case Some(i) => RemoveAtDistinct(es, i);
  }

  /** Pushing an entry with a new key keeps the keys distinct and adds that key. */
  lemma DistinctPush<V>(es: seq<Entry<V>>, e: Entry<V>)
    requires DistinctKeys(es) && e.key !in KeysOf(es)
    ensures DistinctKeys([e] + es) && KeysOf([e] + es) == {e.key} + KeysOf(es)
  {
    var r := [e] + es;
    assert forall j :: 1 <= j <= |es| ==> r[j] == es[j - 1];
    assert r[0] == e;
    forall k | k in KeysOf(es) ensures k in KeysOf(r) {
      var j :| 0 <= j < |es| && es[j].key == k;
      assert r[j + 1].key == k;
    }
    forall k | k in KeysOf(r) ensures k == e.key || k in KeysOf(es) {
      var j :| 0 <= j < |r| && r[j].key == k;
      if j > 0 {
        assert es[j - 1].key == k;
      }
    }
  }

  /**
   * The index invariant between the recency list and `items`: no key is
   * listed twice, `items` has exactly the listed keys, and each key maps to
   * the entry the list holds for it.
   */
  ghost predicate Indexes<V>(items: map<string, Entry<V>>, es: seq<Entry<V>>)
  {
    DistinctKeys(es) && items.Keys == KeysOf(es) &&
    forall e :: e in es ==> e.key in items && items[e.key] == e
  }

  /** The index is determined by the list: two maps indexing the same list are equal. */
  lemma IndexesUnique<V>(m1: map<string, Entry<V>>, m2: map<string, Entry<V>>, es: seq<Entry<V>>)
    requires Indexes(m1, es) && Indexes(m2, es)
    ensures m1 == m2
  {
    forall k | k in m1 ensures m2[k] == m1[k] {
      var i :| 0 <= i < |es| && es[i].key == k;
    }
  }

  /** Unlinking an entry and deleting its key keeps the index invariant. */
  lemma IndexesRemoveAt<V>(items: map<string, Entry<V>>, es: seq<Entry<V>>, i: nat)
    requires Indexes(items, es) && i < |es|
    ensures Indexes(items - {es[i].key}, RemoveAt(es, i))
  {
    RemoveAtDistinct(es, i);
    RemoveAtMultiset(es, i);
    var r := RemoveAt(es, i);
    forall x | x in r ensures x.key != es[i].key {
      var j :| 0 <= j < |r| && r[j] == x;
      assert r[j].key in KeysOf(r);
    }
  }

  /** Promoting an entry leaves the index as it is. */
  lemma IndexesMoveToFront<V>(items: map<string, Entry<V>>, es: seq<Entry<V>>, i: nat)
    requires Indexes(items, es) && i < |es|
    ensures Indexes(items, MoveToFront(es, i))
  {
    var m := MoveToFront(es, i);
    MoveToFrontKeepsOthers(es, i);
    RemoveAtMultiset(es, i);
    assert multiset(m) == multiset(es);
    forall x | x in m ensures x.key in items && items[x.key] == x {
      assert x in multiset(es);
    }
  }

  /** Pushing an entry with a new key and indexing it keeps the index invariant. */
  lemma IndexesPush<V>(items: map<string, Entry<V>>, es: seq<Entry<V>>, e: Entry<V>)
    requires Indexes(items, es) && e.key !in items
    ensures Indexes(items[e.key := e], [e] + es)
  {
    DistinctPush(es, e);
  }

  /** Two lists whose keys agree position by position have the same key set. */
  lemma SameKeys<V>(es: seq<Entry<V>>, r: seq<Entry<V>>)
    requires |r| == |es| && forall j :: 0 <= j < |r| ==> r[j].key == es[j].key
    ensures KeysOf(r) == KeysOf(es)
  {
    forall k | k in KeysOf(es) ensures k in KeysOf(r) {
      var j :| 0 <= j < |es| && es[j].key == k;
      assert r[j].key == k;
    }
  }

  /** Overwriting the front entry with one under the same key, in the list and in the index, keeps the invariant. */
  lemma IndexesSetFront<V>(items: map<string, Entry<V>>, es: seq<Entry<V>>, e: Entry<V>)
    requires Indexes(items, es) && es != [] && es[0].key == e.key
    ensures Indexes(items[e.key := e], es[0 := e])
  {
    ReplaceFront(es, e);
    SameKeys(es, es[0 := e]);
    SetFrontEntries(items, es, e);
  }

  /** The entry part of `IndexesSetFront`: every listed entry is what the updated index holds for its key. */
  lemma SetFrontEntries<V>(items: map<string, Entry<V>>, es: seq<Entry<V>>, e: Entry<V>)
    requires DistinctKeys(es) && es != [] && es[0].key == e.key
    requires forall x :: x in es ==> x.key in items && items[x.key] == x
    ensures forall x :: x in es[0 := e] ==> x.key in items[e.key := e] && items[e.key := e][x.key] == x
  {
    var r := es[0 := e];
    var m := items[e.key := e];
    forall x | x in r ensures x.key in m && m[x.key] == x {
      var j :| 0 <= j < |r| && r[j] == x;
      if j != 0 {
        assert es[j] == x && es[j] in es && x.key != e.key;
      }
    }
  }

  /** The store. `nodeList` is the recency list, most recently used first. */
  class Cache<V> {
    const size: int
    var nodeList: seq<Entry<V>>
    var items: map<string, Entry<V>>
    var expire: int
    const onEvicted: bool

    /** The (key, value) pairs the `onEvicted` callback has been called with, in order. */
    ghost var evictions: seq<(string, V)>

    /** The state between operations: the index invariant, and the list within capacity. */
    ghost predicate Valid()
      reads this
    {
      Indexes(items, nodeList) && |nodeList| <= Capacity(size)
    }

    /** The source's `NewWithExpire`. */
    constructor (size: int, expire: int, onEvicted: bool)
      ensures Valid()
      ensures this.size == size && this.expire == expire && this.onEvicted == onEvicted
      ensures nodeList == [] && evictions == []
    {
      this.size := size;
      this.expire := expire;
      this.onEvicted := onEvicted;
      nodeList := [];
      items := map[];
      evictions := [];
    }

    /** The source's `removeElement`: unlink the entry, drop its index entry, fire the callback. */
    method RemoveElement(i: nat)
      requires Indexes(items, nodeList) && i < |nodeList|
      modifies this
      ensures Indexes(items, nodeList) && expire == old(expire)
      ensures nodeList == RemoveAt(old(nodeList), i)
      ensures evictions == old(evictions) + Fired(onEvicted, old(nodeList)[i])
    {
      var kv := nodeList[i];
      IndexesRemoveAt(items, nodeList, i);
      nodeList := RemoveAt(nodeList, i);
      items := items - {kv.key};
      if onEvicted {
        evictions := evictions + [(kv.key, kv.value)];
      }
    }

    /** The source's `removeOldest`: remove the back of the list, if any. */
    method RemoveOldest()
      requires Indexes(items, nodeList)
      modifies this
      ensures Indexes(items, nodeList) && expire == old(expire)
      ensures old(nodeList) == [] ==> nodeList == [] && evictions == old(evictions)
      ensures old(nodeList) != [] ==>
                nodeList == old(nodeList)[..|old(nodeList)| - 1] &&
                evictions == old(evictions) + Fired(onEvicted, old(nodeList)[|old(nodeList)| - 1])
    {
      if |nodeList| > 0 {
        RemoveElement(|nodeList| - 1);
      }
    }

    /** The source's `Remove`: true exactly when the key was present; the callback fires once for it. */
    method Remove(key: string) returns (removed: bool)
      requires Valid()
      modifies this
      ensures Valid() && expire == old(expire)
      ensures removed <==> key in KeysOf(old(nodeList))
      ensures nodeList == RemoveKey(old(nodeList), key)
      ensures removed ==> evictions == old(evictions) + Fired(onEvicted, old(items)[key])
      ensures !removed ==> evictions == old(evictions)
    {
      if key in items {
        RemoveElement(Find(nodeList, key).value);
        return true;
      }
      return false;
    }

    /** The list's `MoveToFront`: the entry goes first, every other entry keeps its relative order. */
    method MoveElementToFront(i: nat)
      requires Valid() && i < |nodeList|
      modifies this`nodeList
      ensures Valid()
      ensures nodeList == MoveToFront(old(nodeList), i)
    {
      IndexesMoveToFront(items, nodeList, i);
      nodeList := MoveToFront(nodeList, i);
    }

    /**
     * The source's `Get`: a live entry is returned and promoted to the front;
     * an expired one is removed as by `Remove` and reported missing.
     */
    method Get(key: string, now: int) returns (value: Option<V>)
      requires Valid()
      modifies this
      ensures Valid() && expire == old(expire)
      ensures var g := Access(old(nodeList), key, now);
              value == g.value && nodeList == g.entries &&
              evictions == old(evictions) + FiredFor(onEvicted, g.dropped)
    {
      if key in items {
        ghost var es := nodeList;
        var i := Find(nodeList, key).value;
        var kv := items[key];
        assert es[i] in es && kv == es[i];
        if IsExpired(kv, now) {
          assert Access(es, key, now) == GetOutcome(None, RemoveAt(es, i), Some(kv));
          var _ := Remove(key);
          return None;
        }
        assert Access(es, key, now) == GetOutcome(Some(kv.value), MoveToFront(es, i), None);
        MoveElementToFront(i);
        return Some(kv.value);
      }
      assert Access(nodeList, key, now) == GetOutcome(None, nodeList, None);
      return None;
    }

    /** The update branch of `AddWithExpire`: promote the entry, then overwrite its value and deadline. */
    method Refresh(i: nat, e: Entry<V>)
      requires Valid() && i < |nodeList| && nodeList[i].key == e.key
      modifies this
      ensures Valid() && expire == old(expire) && evictions == old(evictions)
      ensures nodeList == [e] + RemoveAt(old(nodeList), i)
    {
      MoveElementToFront(i);
      IndexesSetFront(items, nodeList, e);
      MoveToFrontThenSet(old(nodeList), i, e);
      nodeList := nodeList[0 := e];
      items := items[e.key := e];
    }

    /** The push branch of `AddWithExpire`: a new entry at the front, indexed under its key. */
    method PushFront(e: Entry<V>)
      requires Valid() && e.key !in KeysOf(nodeList)
      modifies this
      ensures Indexes(items, nodeList) && expire == old(expire) && evictions == old(evictions)
      ensures nodeList == [e] + old(nodeList)
    {
      IndexesPush(items, nodeList, e);
      nodeList := [e] + nodeList;
      items := items[e.key := e];
    }

    /**
     * The source's `AddWithExpire`. The result is true when the back entry was
     * dropped, and also whenever the key was already present.
     */
    method AddWithExpire(key: string, value: V, expire: int, now: int) returns (result: bool)
      requires Valid()
      modifies this
      ensures Valid() && this.expire == old(this.expire)
      ensures var r := Put(old(nodeList), Entry(key, value, Deadline(now, expire, old(this.expire))), size);
              nodeList == r.entries && result == r.result &&
              evictions == old(evictions) + FiredFor(onEvicted, r.dropped)
    {
      var deadline := Deadline(now, expire, this.expire);
      var e := Entry(key, value, deadline);
      if key in items {
        var i := Find(nodeList, key).value;
        PutExisting(nodeList, e, size, i);
        Refresh(i, e);
        return true;
      }
      PutNew(nodeList, e, size);
      PushFront(e);
      result := |nodeList| > size;
      if result {
        RemoveOldest();
      }
    }

    /** The source's `Add`: `AddWithExpire` with no explicit TTL, so the store's default applies. */
    method Add(key: string, value: V, now: int) returns (result: bool)
      requires Valid()
      modifies this
      ensures Valid() && expire == old(expire)
      ensures var r := Put(old(nodeList), Entry(key, value, Deadline(now, 0, old(expire))), size);
              nodeList == r.entries && result == r.result &&
              evictions == old(evictions) + FiredFor(onEvicted, r.dropped)
    {
      result := AddWithExpire(key, value, 0, now);
    }

    /** The source's `SetDefaultExpire`: only the default for later adds changes. */
    method SetDefaultExpire(expire: int)
      requires Valid()
      modifies this`expire
      ensures Valid() && this.expire == expire
      ensures nodeList == old(nodeList) && items == old(items)
    {
      this.expire := expire;
    }
  }

  /** The source's `NewWithExpire`. */
  method NewWithExpire<V>(size: int, expire: int, onEvicted: bool) returns (c: Cache<V>)
    ensures fresh(c) && c.Valid()
    ensures c.size == size && c.expire == expire && c.onEvicted == onEvicted
    ensures c.nodeList == [] && c.evictions == []
  {
    c := new Cache(size, expire, onEvicted);
  }

  /** The source's `New`: a store with no default TTL. */
  method New<V>(size: int, onEvicted: bool) returns (c: Cache<V>)
    ensures fresh(c) && c.Valid()
    ensures c.size == size && c.expire == 0 && c.onEvicted == onEvicted
    ensures c.nodeList == [] && c.evictions == []
  {
    c := NewWithExpire(size, 0, onEvicted);
  }
}
