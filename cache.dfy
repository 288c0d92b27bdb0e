/**
 * Model of kcache/cache/cache.go: the wrapper a group keeps around its LRU
 * store. The store is created on first write (or when a default TTL is set)
 * and never replaced afterwards; a read before that reports a miss and
 * creates nothing. The wrapper's mutex is not modelled: every operation is a
 * sequential method.
 */
module SafeCache {
  import opened Optional
  import Lru

  /** The cached value type: an immutable byte string. Its zero value is the empty view. */
  datatype ByteView = ByteView(bytes: seq<bv8>)

  const EmptyView := ByteView([])

  class Cache {
    const size: int
    var lru: Lru.Cache?<ByteView>

    /** Once created, the store is valid, has the wrapper's capacity and has no eviction callback. */
    ghost predicate Valid()
      reads this, lru
    {
      lru != null ==> lru.Valid() && lru.size == size && !lru.onEvicted
    }

    /** The stored entries, most recently used first: none before the store exists. */
    function Entries(): (es: seq<Lru.Entry<ByteView>>)
      reads this, lru
    {
      if lru == null then [] else lru.nodeList
    }

    /** The default TTL later adds use: 0 (none) until the store exists. */
    function DefaultExpire(): (expire: int)
      reads this, lru
    {
      if lru == null then 0 else lru.expire
    }

    constructor (size: int)
      ensures Valid() && this.size == size && lru == null
    {
      this.size := size;
      lru := null;
    }

    /**
     * The source's `addWithExpire`: create the store if needed (capacity
     * `size`, no default TTL, no callback), then add to it.
     */
    method AddWithExpire(key: string, value: ByteView, expire: int, now: int)
      requires Valid()
      modifies this, lru
      ensures Valid() && lru != null
      ensures old(lru) != null ==> lru == old(lru)
      ensures old(lru) == null ==> fresh(lru)
      ensures DefaultExpire() == old(DefaultExpire())
      ensures Entries() ==
              Lru.Put(old(Entries()), Lru.Entry(key, value, Lru.Deadline(now, expire, old(DefaultExpire()))), size).entries
    {
      if lru == null {
        lru := Lru.New(size, false);
      }
      var _ := lru.AddWithExpire(key, value, expire, now);
    }

    /** The source's `add`: as `AddWithExpire` with no explicit TTL, so the store's default applies. */
    method Add(key: string, value: ByteView, now: int)
      requires Valid()
      modifies this, lru
      ensures Valid() && lru != null
      ensures old(lru) != null ==> lru == old(lru)
      ensures old(lru) == null ==> fresh(lru)
      ensures DefaultExpire() == old(DefaultExpire())
      ensures Entries() ==
              Lru.Put(old(Entries()), Lru.Entry(key, value, Lru.Deadline(now, 0, old(DefaultExpire()))), size).entries
    {
      if lru == null {
        lru := Lru.New(size, false);
      }
      var _ := lru.Add(key, value, now);
    }

    /**
     * The source's `setDefaultExpire`: create the store with that default TTL,
     * or change only the default of the existing one.
     */
    method SetDefaultExpire(expire: int)
      requires Valid()
      modifies this, lru
      ensures Valid() && lru != null
      ensures old(lru) != null ==> lru == old(lru)
      ensures old(lru) == null ==> fresh(lru)
      ensures DefaultExpire() == expire && Entries() == old(Entries())
    {
      if lru == null {
        lru := Lru.NewWithExpire(size, expire, false);
        return;
      }
      lru.SetDefaultExpire(expire);
    }

    /**
     * The source's `get`: a miss (the empty view) when there is no store, and
     * then nothing is created; otherwise exactly what the store's `Get` does.
     */
    method Get(key: string, now: int) returns (value: ByteView, ok: bool)
      requires Valid()
      modifies lru
      ensures Valid() && lru == old(lru)
      ensures old(lru) == null ==> value == EmptyView && !ok
      ensures old(lru) != null ==>
                var g := Lru.Access(old(lru.nodeList), key, now);
                ok == g.value.Some? && value == (if ok then g.value.value else EmptyView) &&
                lru.nodeList == g.entries && lru.expire == old(lru.expire)
    {
      if lru == null {
        return EmptyView, false;
      }
      var v := lru.Get(key, now);
      if v.Some? {
        return v.value, true;
      }
      return EmptyView, false;
    }
  }

  /** A store whose default TTL is set first keeps that default for every later add: the store is never rebuilt. */
  method SetThenAdd(size: int, expire: int, key: string, value: ByteView, now: int) returns (c: Cache)
    ensures c.Valid() && c.lru != null && c.DefaultExpire() == expire
    ensures c.Entries() == Lru.Put([], Lru.Entry(key, value, Lru.Deadline(now, 0, expire)), size).entries
  {
    c := new Cache(size);
    c.SetDefaultExpire(expire);
    c.Add(key, value, now);
  }
}
