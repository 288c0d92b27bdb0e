/**
 * Verified scenarios of the store on concrete values: eviction of the
 * least recently used key, promotion by a read, and lazy expiry.
 */
module LruScenarios {
  import opened Optional
  import Lru
  import Sequences

  /** Reading a key that is not stored misses and leaves the list as it is. */
  method ReadMissing<V>(cache: Lru.Cache<V>, key: string, now: int) returns (v: Option<V>)
    requires cache.Valid() && key !in Lru.KeysOf(cache.nodeList)
    modifies cache
    ensures cache.Valid() && v == None && cache.nodeList == old(cache.nodeList)
  {
    v := cache.Get(key, now);
  }

  /** Reading the older of two live entries returns its value and swaps the two. */
  method ReadBack<V>(cache: Lru.Cache<V>, now: int) returns (v: Option<V>)
    requires cache.Valid() && |cache.nodeList| == 2
    requires !Lru.IsExpired(cache.nodeList[1], now)
    modifies cache
    ensures cache.Valid() && v == Some(old(cache.nodeList[1].value))
    ensures cache.nodeList == [old(cache.nodeList[1]), old(cache.nodeList[0])]
  {
    var x, y := cache.nodeList[0], cache.nodeList[1];
    assert x.key != y.key;
    assert Lru.Find(cache.nodeList, y.key) == Some(1);
    v := cache.Get(y.key, now);
    assert Sequences.RemoveAt([x, y], 1) == [x];
  }

  /** Capacity 2; add A, then B: B is the most recently used. */
  method AddTwo() returns (cache: Lru.Cache<int>)
    ensures fresh(cache) && cache.Valid() && cache.size == 2 && cache.expire == 0 && !cache.onEvicted
    ensures cache.nodeList == [Lru.Entry("B", 2, None), Lru.Entry("A", 1, None)]
  {
    cache := Lru.New<int>(2, false);
    var _ := cache.Add("A", 1, 0);
    assert cache.nodeList == [Lru.Entry("A", 1, None)];
    var _ := cache.Add("B", 2, 0);
  }

  /** Capacity 2; add A, B, C: adding C evicts A, the least recently used. */
  method AddThree() returns (cache: Lru.Cache<int>, evicted: bool)
    ensures fresh(cache) && cache.Valid() && evicted
    ensures cache.nodeList == [Lru.Entry("C", 3, None), Lru.Entry("B", 2, None)]
  {
    cache := AddTwo();
    evicted := cache.Add("C", 3, 0);
  }

  /** After `AddThree`, A is gone and B and C are found. */
  method LeastRecentlyUsedEvicted() returns (a: Option<int>, b: Option<int>, c: Option<int>, evicted: bool)
    ensures evicted
    ensures a == None && b == Some(2) && c == Some(3)
  {
    var cache;
    cache, evicted := AddThree();
    a := ReadMissing(cache, "A", 0);
    b := ReadBack(cache, 0);
    c := ReadBack(cache, 0);
  }

  /** Capacity 2; add A, B; read A: the read moves A to the front. */
  method ReadFirst() returns (cache: Lru.Cache<int>, first: Option<int>)
    ensures fresh(cache) && cache.Valid() && cache.size == 2 && cache.expire == 0 && !cache.onEvicted
    ensures first == Some(1) && cache.nodeList == [Lru.Entry("A", 1, None), Lru.Entry("B", 2, None)]
  {
    cache := AddTwo();
    assert Lru.Find(cache.nodeList, "A") == Some(1);
    first := cache.Get("A", 0);
  }

  /** Capacity 2; add A, B; read A; add C: B is evicted, because the read promoted A. */
  method ReadThenAdd() returns (cache: Lru.Cache<int>, first: Option<int>)
    ensures fresh(cache) && cache.Valid() && first == Some(1)
    ensures cache.nodeList == [Lru.Entry("C", 3, None), Lru.Entry("A", 1, None)]
  {
    cache, first := ReadFirst();
    var _ := cache.Add("C", 3, 0);
  }

  /** After `ReadThenAdd`, B is gone and A and C are found. */
  method ReadPromotes() returns (a: Option<int>, b: Option<int>, c: Option<int>)
    ensures a == Some(1) && b == None && c == Some(3)
  {
    var cache, _ := ReadThenAdd();
    b := ReadMissing(cache, "B", 0);
    a := ReadBack(cache, 0);
    c := ReadBack(cache, 0);
  }

  /**
   * A TTL of 100 from time 0: a read at time 0 finds the entry; a read at
   * time 150 finds it expired, removes it and reports it to the callback.
   */
  method ExpiresAfterTtl() returns (early: Option<int>, late: Option<int>, ghost evictions: seq<(string, int)>)
    ensures early == Some(7) && late == None
    ensures evictions == [("x", 7)]
  {
    var cache := Lru.New<int>(10, true);
    var _ := cache.AddWithExpire("x", 7, 100, 0);
    assert cache.nodeList == [Lru.Entry("x", 7, Some(100))];
    early := cache.Get("x", 0);
    late := cache.Get("x", 150);
    evictions := cache.evictions;
  }

  /** Re-adding a present key replaces its value, returns true and evicts nothing. */
  method UpdateReturnsTrue() returns (result: bool, value: Option<int>, ghost evictions: seq<(string, int)>)
    ensures result && value == Some(5) && evictions == []
  {
    var cache := Lru.New<int>(1, true);
    var _ := cache.Add("k", 4, 0);
    result := cache.Add("k", 5, 0);
    assert cache.nodeList == [Lru.Entry("k", 5, None)];
    value := cache.Get("k", 0);
    evictions := cache.evictions;
  }

  /**
   * Removing the same key twice: the first call reports whether it was there
   * and fires the callback at most once; the second reports false and
   * changes nothing more.
   */
  method RemoveTwice<V>(cache: Lru.Cache<V>, key: string) returns (first: bool, second: bool)
    requires cache.Valid()
    modifies cache
    ensures cache.Valid()
    ensures first <==> key in Lru.KeysOf(old(cache.nodeList))
    ensures !second
    ensures cache.nodeList == Lru.RemoveKey(old(cache.nodeList), key)
    ensures cache.evictions == old(cache.evictions) +
              if first then Lru.Fired(cache.onEvicted, old(cache.items)[key]) else []
  {
    first := cache.Remove(key);
    Lru.RemoveKeyIdempotent(old(cache.nodeList), key);
    second := cache.Remove(key);
  }
}
