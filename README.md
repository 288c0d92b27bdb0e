# kcache core in Dafny

This project models the local core of kcache, a cache node that keeps a
bounded store and shards keys over peer nodes. It covers four pieces.

- **The TTL-aware LRU store** (`lru.dfy`, module `Lru`).
  - Its entries are `(key, value, deadline)` triples, held most recently used first.
  - `Get` promotes a live entry and lazily drops an expired one.
  - `AddWithExpire` computes a deadline. It then replaces an existing entry, or pushes a new one and drops the back entry when the store is over capacity.
  - The class `Lru.Cache` keeps the recency list `nodeList` and the key index `items` in step (`Valid`).
  - Its methods are proved against the value-level functions `Put` and `Access`, and the list and index lemmas are proved about those functions.
  - The eviction callback is recorded as a ghost log of the `(key, value)` pairs it is called with.
- **The lazy store wrapper** (`cache.dfy`, module `SafeCache`).
  - The store is created on the first write, or when a default TTL is set, and is never replaced afterwards.
  - A read before that reports a miss and creates nothing.
- **The consistent-hash ring** (`consistent_hash.dfy`, module `ConsistentHashing`).
  - Each peer is placed `replicas` times, at `hash(itoa(i) + peer)`.
  - `Add` appends and maps the points, then sorts.
  - `Delete` splices out the first occurrence of each point. It stops at the first replica whose point has no map entry.
  - `Get` binary-searches for the first point at or above the key's hash and wraps around to the first point.
  - The pure functions `PlacePeers`, `DeletePeers`, `Search` and `Successor` specify these operations. The class `ConsistentHash` is proved against them.
- **The peer pool** (`http.dfy`, module `HttpPool`).
  - The path routing of `ServeHTTP`, as a function from a path to a panic, an error status with its body, or the served value.
  - `ResetPeers`, `AddPeers` and `RemovePeers`, which maintain the ring and the peer-to-getter map.
  - `PickPeer`, which never selects the node itself.

`optional.dfy` holds the `Option` and `Result` types. `sequences.dfy` holds
slice splicing (`append(s[:i], s[i+1:]...)`), which both the LRU list and
the ring use. `lru_scenarios.dfy` holds verified scenarios of the store on
concrete values: eviction, promotion by a read, expiry, update and removal.

Three behaviours of the code are worth knowing; the model keeps all three as written.

- **Update result.** The comment at kcache/cache/lru/lru.go:86 says the result of `AddWithExpire` tells whether `removeOldest` fired. Re-adding a present key returns `true` without evicting anything (kcache/cache/lru/lru.go:101). `Lru.Put` and `LruScenarios.UpdateReturnsTrue` state that.
- **Stale ring points.** `Delete` stops at the first replica whose point has no map entry (kcache/cache/consistenthash.go:47-49). Suppose the first points of two peers collide, and the second peer has a later replica whose point no deleted replica hits. Then deleting both peers leaves that point on the ring, still mapped to the second peer.
  - `ConsistentHashing.CollisionLeavesStalePoint` proves this for two replicas.
  - With one replica each, the shared point is listed twice and owned by the second peer. Deleting both peers leaves one copy on the ring with no map entry. `ConsistentHashing.OneReplicaCollisionUnmapsPoint` proves this.
  - So `RemovePeers` can leave a ring point whose peer no longer has a getter. `PickPeer` can then answer `ok` with no getter (`HttpPool.HTTPPool.PickPeer`).
- **Deleting an unknown peer.** `Delete` looks points up by value and never checks their owner (kcache/cache/consistenthash.go:47-55). A peer that was never added, but whose first point collides with a mapped peer's point, removes that point. `ConsistentHashing.UnknownPeerDeletesColliding` proves this.

## Model

| member | source | states |
|---|---|---|
| Lru.Deadline | kcache/cache/lru/lru.go:88-95 | No deadline exactly when neither the explicit TTL nor the default is positive. A deadline is always after `now`. A positive explicit TTL gives `now + expire`; otherwise a positive default gives `now + defaultExpire`. |
| Lru.IsExpired | kcache/cache/lru/lru.go:41-46 | An entry without a deadline is never expired. One with a deadline is expired exactly when the clock is strictly after it. |
| Lru.LiveUntilDeadline | kcache/cache/lru/lru.go:41-46 | A freshly added entry is live at its insertion time. With a TTL it expires exactly when the clock passes `now + ttl`. Without a TTL, a positive default plays the same part. Without a deadline it never expires. |
| Lru.Find | kcache/cache/lru/lru.go:49 | The index lookup finds a key exactly when it is in the list, at its first position. |
| Lru.Put | kcache/cache/lru/lru.go:87-117 | Keys stay distinct and the list stays within capacity. The added entry goes to the front. An existing key gives `true`, drops nothing, keeps the key set, and leaves the other entries in their order behind it. A new key gives `true` exactly when the list was full, and then exactly the back entry is dropped. Otherwise the entry is just pushed. |
| Lru.Access | kcache/cache/lru/lru.go:48-60 | A missing key changes nothing. An expired entry is removed, reported dropped and yields no value. A live entry yields its value, moves to the front and leaves the other entries in their order. |
| Sequences.RemoveAt | kcache/cache/consistenthash.go:59 | Splicing out one element shortens the sequence by one. |
| Lru.MoveToFront | kcache/cache/lru/lru.go:56 | The element moved to the front is first, the length is kept, and the elements are a permutation of the old ones. |
| Lru.RemoveKey | kcache/cache/lru/lru.go:78-84 | An absent key leaves the entries unchanged. A present key shortens them by one, and only entries that were there remain. |
| Lru.RemoveAtDistinct | kcache/cache/lru/lru.go:62-69 | Unlinking one entry keeps the keys distinct and removes exactly that key. |
| Lru.MoveToFrontKeepsOthers | kcache/cache/lru/lru.go:56 | Moving to the front keeps the key set. The moved entry is first and the others keep their relative order. |
| Lru.MoveToFrontThenSet | kcache/cache/lru/lru.go:98-100 | Promoting an entry and then overwriting it gives the new entry followed by the rest in order. |
| Lru.RemoveKeyIdempotent | kcache/cache/lru/lru.go:78-84 | After a removal the key is absent and the other keys remain. Removing it again changes nothing. |
| Lru.DistinctPush | kcache/cache/lru/lru.go:104-110 | Pushing an absent key keeps the keys distinct and adds exactly that key. |
| Lru.IndexesUnique | kcache/cache/lru/lru.go:19-25 | The key index is determined by the list. |
| Lru.IndexesRemoveAt | kcache/cache/lru/lru.go:62-69 | Unlinking an entry and deleting its key from the index keeps index and list consistent. |
| Lru.IndexesMoveToFront | kcache/cache/lru/lru.go:56 | Reordering the list keeps the index consistent. |
| Lru.IndexesPush | kcache/cache/lru/lru.go:104-110 | Pushing a new entry and indexing it keeps index and list consistent. |
| Lru.IndexesSetFront | kcache/cache/lru/lru.go:99-100 | Overwriting the front entry in place keeps index and list consistent. |
| Lru.Cache.constructor | kcache/cache/lru/lru.go:31-39 | A new store is empty, consistent, and has the given capacity, default TTL and callback. |
| Lru.Cache.RemoveElement | kcache/cache/lru/lru.go:62-69 | Unlinks exactly the given entry, deletes its key and fires the callback once for it. |
| Lru.Cache.RemoveOldest | kcache/cache/lru/lru.go:71-76 | Removes the back entry with one callback, and does nothing on an empty list. |
| Lru.Cache.Remove | kcache/cache/lru/lru.go:78-84 | Returns `true` exactly when the key was present. Removes it and fires the callback once for it, or fires nothing. |
| Lru.Cache.MoveElementToFront | kcache/cache/lru/lru.go:56 | The list becomes `MoveToFront` of the old list and stays consistent. |
| Lru.Cache.Get | kcache/cache/lru/lru.go:48-60 | The value, the new list and the callbacks fired are those of `Access` at time `now`. The default TTL is unchanged. |
| Lru.Cache.Refresh | kcache/cache/lru/lru.go:97-102 | The updated entry goes to the front and the others keep their order. No callback fires. |
| Lru.Cache.PushFront | kcache/cache/lru/lru.go:104-110 | A new entry is prepended and indexed. |
| Lru.Cache.AddWithExpire | kcache/cache/lru/lru.go:87-117 | The new list and the result are those of `Put` with the computed deadline. A callback fires exactly for the dropped entry. The store stays within capacity. |
| Lru.Cache.Add | kcache/cache/lru/lru.go:119-121 | As `AddWithExpire` with TTL 0, so the store's default TTL applies. |
| Lru.Cache.SetDefaultExpire | kcache/cache/lru/lru.go:123-125 | Changes only the default TTL. Entries, order and deadlines are untouched. |
| Lru.NewWithExpire | kcache/cache/lru/lru.go:31-39 | A fresh empty store with the given capacity, default TTL and callback. |
| Lru.New | kcache/cache/lru/lru.go:27-29 | A fresh empty store with no default TTL. |
| LruScenarios.ReadMissing | kcache/cache/lru/lru.go:59 | Reading an absent key misses and leaves the list unchanged. |
| LruScenarios.ReadBack | kcache/cache/lru/lru.go:56-57 | Reading the older of two live entries returns its value and swaps the two. |
| LruScenarios.AddTwo | kcache/cache/lru/lru.go:104-110 | With capacity 2, adding A then B gives the list B, A. |
| LruScenarios.AddThree | kcache/cache/lru/lru.go:112-116 | Adding C to a full store of capacity 2 evicts A, the least recently used, and returns `true`. |
| LruScenarios.LeastRecentlyUsedEvicted | kcache/cache/lru/lru.go:48-60 | After adding A, B and C at capacity 2, A is not found and B and C are found. |
| LruScenarios.ReadFirst | kcache/cache/lru/lru.go:56 | Reading A moves it ahead of B. |
| LruScenarios.ReadThenAdd | kcache/cache/lru/lru.go:112-116 | After the read, adding C evicts B rather than A. |
| LruScenarios.ReadPromotes | kcache/cache/lru/lru.go:48-57 | After reading A and adding C, A and C are found and B is not. |
| LruScenarios.ExpiresAfterTtl | kcache/cache/lru/lru.go:41-54 | An entry with TTL 100 is found at time 0. At time 150 it is missing, and the callback fired once for it. |
| LruScenarios.UpdateReturnsTrue | kcache/cache/lru/lru.go:97-102 | Re-adding a present key returns `true`, stores the new value and evicts nothing. |
| LruScenarios.RemoveTwice | kcache/cache/lru/lru.go:78-84 | The first `Remove` reports presence and fires at most one callback. The second returns `false` and changes nothing. |
| SafeCache.Cache.constructor | kcache/cache/cache.go:11-15 | A new wrapper has its capacity and no store. |
| SafeCache.Cache.AddWithExpire | kcache/cache/cache.go:17-25 | Creates the store when missing, with no default TTL and no callback, and never replaces an existing one. The entries become `Put` of the old entries. |
| SafeCache.Cache.Add | kcache/cache/cache.go:27-35 | As `AddWithExpire` with TTL 0, using the store's default TTL. |
| SafeCache.Cache.SetDefaultExpire | kcache/cache/cache.go:37-46 | Creates the store with that default TTL, or changes only the default of the existing store. Entries are unchanged. |
| SafeCache.Cache.Get | kcache/cache/cache.go:48-60 | With no store: the empty view, a miss, and nothing created. Otherwise exactly the store's `Get`, with its promotion and lazy expiry. |
| SafeCache.SetThenAdd | kcache/cache/cache.go:27-46 | A default TTL set before the first add applies to that add, because the store is never rebuilt. |
| ConsistentHashing.Itoa | kcache/cache/consistenthash.go:34 | The decimal rendering is a non-empty string of digits, with a leading '0' only for 0. |
| ConsistentHashing.AtoiItoa | kcache/cache/consistenthash.go:34 | Reading a rendered index back gives the index. |
| ConsistentHashing.ItoaInjective | kcache/cache/consistenthash.go:34 | Distinct replica indices render differently. |
| ConsistentHashing.SortInts | kcache/cache/consistenthash.go:39 | The sort's result is ascending and a permutation of its input. |
| ConsistentHashing.SortedUnique | kcache/cache/consistenthash.go:39 | A sorted permutation is unique, so the ring's list is determined by its points. |
| ConsistentHashing.SortedRemoveAt | kcache/cache/consistenthash.go:59 | Splicing a point out of a sorted list keeps it sorted. |
| ConsistentHashing.PointHash | kcache/cache/consistenthash.go:34 | A replica's point is the hash of its decimal index followed by the peer's name, so it is a 32-bit value. |
| ConsistentHashing.ReplicaPoints | kcache/cache/consistenthash.go:33-37 | A peer contributes one point per replica index. |
| ConsistentHashing.PointOwner | kcache/cache/consistenthash.go:32-37 | Every added point is the hash of some listed peer at some replica index. |
| ConsistentHashing.PointsCount | kcache/cache/consistenthash.go:31-40 | The peers contribute `len(peers) * replicas` points, duplicates included. |
| ConsistentHashing.PlaceReplicas | kcache/cache/consistenthash.go:33-37 | The inner loop of `Add` as a function on the ring value. Its effect is stated by `PlaceReplicasKeys` and `PlaceReplicasMap`. |
| ConsistentHashing.PlacePeers | kcache/cache/consistenthash.go:32-38 | The outer loop of `Add` as a function on the ring value. Its effect is stated by `PlacePeersKeys`, `PlacePeersMap`, `AddMapsEveryReplica` and `PlacePeersLastWriter`. |
| ConsistentHashing.PlaceReplicasKeys | kcache/cache/consistenthash.go:33-37 | The replica loop appends exactly the peer's points, in order. |
| ConsistentHashing.PlaceReplicasMap | kcache/cache/consistenthash.go:33-37 | After the replica loop, every point of the peer maps to it and every other mapping is unchanged. |
| ConsistentHashing.PlacePeersKeys | kcache/cache/consistenthash.go:32-38 | `Add` appends exactly the points of all peers, in order. |
| ConsistentHashing.PlacePeersMap | kcache/cache/consistenthash.go:32-38 | After `Add`, exactly the old and the new points are mapped, and old mappings not overwritten are kept. |
| ConsistentHashing.AddMapsEveryReplica | kcache/cache/consistenthash.go:33-37 | After `Add`, every replica point of every added peer is mapped. |
| ConsistentHashing.AddCount | kcache/cache/consistenthash.go:31-40 | `Add` grows the list by exactly `len(peers) * replicas`. |
| ConsistentHashing.PlacePeersLastWriter | kcache/cache/consistenthash.go:36 | On a collision the last peer written at a point owns it. |
| ConsistentHashing.PeerOf | kcache/cache/consistenthash.go:32-37 | Every added point belongs to the replica points of some listed peer. |
| ConsistentHashing.FirstIndex | kcache/cache/consistenthash.go:52-58 | The search loop stops at the first occurrence of the point. |
| ConsistentHashing.IndexOf | kcache/cache/consistenthash.go:52-58 | The loop returns the first occurrence of the point, or the default 0 when the point is absent. |
| ConsistentHashing.Unplace | kcache/cache/consistenthash.go:59-60 | One processed replica: the point leaves the map, no other entry does, and the list loses one element. |
| ConsistentHashing.UnplaceEffect | kcache/cache/consistenthash.go:59-60 | Removing a mapped point takes exactly one occurrence off the list and its entry off the map. It keeps the list sorted and every mapped point listed. |
| ConsistentHashing.DeleteReplicas | kcache/cache/consistenthash.go:44-61 | Deleting one peer's replicas, with the early exit, keeps every mapped point listed. |
| ConsistentHashing.DeletePeers | kcache/cache/consistenthash.go:42-63 | Deleting peers keeps every mapped point listed. |
| ConsistentHashing.DeletePeersBalance | kcache/cache/consistenthash.go:42-63 | `Delete` keeps the list sorted, only removes points and map entries, and removes as many points as map entries. |
| ConsistentHashing.DeleteUnknown | kcache/cache/consistenthash.go:47-49 | Deleting peers whose first point is unmapped changes nothing. A never-added peer qualifies unless its first point collides with a mapped one. |
| ConsistentHashing.UnknownPeerDeletesColliding | kcache/cache/consistenthash.go:47-55 | A never-added peer whose first point collides with a mapped peer's point removes that point from the list and the map. |
| ConsistentHashing.DeleteReplicasRemoves | kcache/cache/consistenthash.go:44-61 | When a peer's points are distinct and all mapped, deleting it removes exactly those points from the list and the map. |
| ConsistentHashing.DeletePeersRemoves | kcache/cache/consistenthash.go:42-63 | The same, for a batch of peers whose points are all distinct and mapped. |
| ConsistentHashing.AddedCovered | kcache/cache/consistenthash.go:31-40 | After `Add`, every mapped point is listed, and the list is the old points plus the new ones. |
| ConsistentHashing.AddThenDelete | kcache/cache/consistenthash.go:31-63 | When the new points are distinct and not already on the ring, `Add` then `Delete` of the same peers restores the ring exactly. |
| ConsistentHashing.ThreePeersScenario | kcache/cache/consistenthash_test.go:8-21 | With 5 replicas and three peers, `Add` gives 15 points and `Delete` leaves none, whenever the 15 points are distinct. |
| ConsistentHashing.CollisionLeavesStalePoint | kcache/cache/consistenthash.go:47-49 | With two replicas, the first points of two peers colliding, and their other points distinct from each other and from the shared one: `Delete` of both leaves the second peer's other point on the ring, mapped to it. |
| ConsistentHashing.OneReplicaCollisionUnmapsPoint | kcache/cache/consistenthash.go:31-60 | With one replica and colliding points, `Add` lists the point twice and maps it to the second peer. `Delete` of both then leaves one copy on the ring with no map entry. |
| ConsistentHashing.Search | kcache/cache/consistenthash.go:71-73 | The binary search returns an index within its range. |
| ConsistentHashing.FirstAtLeast | kcache/cache/consistenthash.go:71-73 | The reference answer: every earlier point is below the hash, and the point found, if any, is at or above it. |
| ConsistentHashing.SearchFindsFirst | kcache/cache/consistenthash.go:71-73 | On a sorted list the binary search returns the least index whose point is at or above the hash. |
| ConsistentHashing.WrapIndex | kcache/cache/consistenthash.go:75 | `idx % len` is the index itself, or 0 past the end. |
| ConsistentHashing.Successor | kcache/cache/consistenthash.go:70-75 | The owning point's index is on the ring. |
| ConsistentHashing.Lookup | kcache/cache/consistenthash.go:75 | The map read gives the mapped peer for a mapped point. The result is always "" or a mapped peer. |
| ConsistentHashing.ConsistentHash.constructor | kcache/cache/consistenthash.go:19-29 | A new ring is empty and has the given replica count and hash. |
| ConsistentHashing.ConsistentHash.Add | kcache/cache/consistenthash.go:31-40 | The list is the sorted old points plus the new ones, and the map is that of `PlacePeers`. The ring stays sorted and every mapped point stays listed. |
| ConsistentHashing.ConsistentHash.Delete | kcache/cache/consistenthash.go:42-63 | The ring becomes `DeletePeers` of the old ring and stays sorted and consistent. |
| ConsistentHashing.ConsistentHash.DeleteReplicasOf | kcache/cache/consistenthash.go:44-61 | One peer's replica loop, with its early exit, gives `DeleteReplicas`. |
| ConsistentHashing.ConsistentHash.RemovePoint | kcache/cache/consistenthash.go:52-60 | Finding a point, splicing it out and deleting its map entry gives `Unplace`. |
| ConsistentHashing.ConsistentHash.Get | kcache/cache/consistenthash.go:65-76 | "" on an empty ring. On a sorted ring, the peer mapped at the first point at or above the key's hash, wrapping to the first point. Always "" or a mapped peer. |
| HttpPool.GetterOf | kcache/cache/http.go:133 | The map read has a getter exactly when the map exists and has an entry for the peer, and then it is that entry. |
| HttpPool.HasPrefix | kcache/cache/http.go:43 | The path has the prefix exactly when it is the prefix followed by the rest of the path. |
| HttpPool.FirstSlash | kcache/cache/http.go:49 | The position of the first '/', or the length when there is none. |
| HttpPool.SplitN2 | kcache/cache/http.go:49 | Splitting at the first '/' gives one part exactly when there is no '/'. Otherwise it gives a part without '/' and a rest, which joined by '/' are the input. |
| HttpPool.FirstSlashJoin | kcache/cache/http.go:49 | In `name + "/" + key` with no '/' in the name, the first '/' is the joining one. |
| HttpPool.SplitJoin | kcache/cache/http.go:49-56 | Splitting `name + "/" + key` gives back the name and the key, including any '/' in the key. |
| HttpPool.ServeHTTP | kcache/cache/http.go:42-68 | Panics exactly when the path lacks the base path. Answers 400 "bad request" exactly when no '/' follows the base path. |
| HttpPool.RouteRequest | kcache/cache/http.go:49-68 | `basePath + name + "/" + key` is routed to group `name` with `key`. It gives 404 "no such group: name" for an unknown group, 500 with the error text when the group's `Get` fails, and the value otherwise. |
| HttpPool.RoutedPath | kcache/cache/http.go:49-56 | Every path past the 400 check has the form `basePath + name + "/" + key`, with no '/' in the name. |
| HttpPool.PutGetters | kcache/cache/http.go:88-90 | The loop registers exactly the listed peers, each at `peer + basePath`, and keeps every other getter. |
| HttpPool.DropGetters | kcache/cache/http.go:122-124 | The loop removes exactly the listed peers' getters and keeps the others unchanged. |
| HttpPool.HTTPPool.constructor | kcache/cache/http.go:31-36 | A new pool has the default base path "/_kcache/", no ring and no getters. |
| HttpPool.HTTPPool.ResetPeers | kcache/cache/http.go:81-91 | A fresh ring with 50 replicas holding exactly the points of `ps`, each mapped. Getters exist for exactly the peers in `ps`, each at `peer + basePath`. |
| HttpPool.HTTPPool.AddPeers | kcache/cache/http.go:94-109 | Creates the ring and the map when missing and adds `ps` to the existing ring. Registers getters for `ps` and keeps the other getters. |
| HttpPool.HTTPPool.RemovePeers | kcache/cache/http.go:112-125 | No-op without a ring. Otherwise the ring becomes `DeletePeers` and exactly the getters of `ps` are dropped. |
| HttpPool.HTTPPool.PickPeer | kcache/cache/http.go:127-136 | `ok` exactly when the ring's owner is non-empty and not this node. The getter is then the map entry for that owner, otherwise nil. Requires the ring to exist. |
| HttpPool.HTTPPool.PickNeverSelf | kcache/cache/http.go:131 | The picked getter is never this node's own getter. A returned getter targets the owner of the key. |
| HttpPool.ResetRing | kcache/cache/http.go:85-86 | The ring `ResetPeers` builds holds exactly the points of the new peers, each mapped. |
| HttpPool.ResetThenPick | kcache/cache/http.go:81-136 | After `ResetPeers` that includes this node, `PickPeer` never hands out this node's getter. |

## Left out

- Locking: the `sync.Mutex` in cache.go and http.go is not modelled. Every operation is a sequential method.
- Logging: `HTTPPool.Log` and the log calls in `ServeHTTP` and `PickPeer` print only and are not modelled.
- Time: `time.Now()` is the parameter `now`, and durations and deadlines are integers.
- Eviction callback: `onEvicted` is a flag plus a ghost log of the `(key, value)` pairs it would receive. What the callback itself does is not modelled.
- Recency list: the `container/list` internals and the sharing of `*list.Element` between `items` and the list are not modelled.
  - The list is a sequence of entries. The index maps a key to its entry, not to a list node.
  - An in-place update of an entry's fields is modelled as replacing that entry in both.
- Hash function: CRC32 and the `nil` default of `NewConsistentHash` are not modelled. The ring's hash is a `string -> u32` parameter, and the `[]byte` conversion is left implicit.
- Strings: Go strings are byte sequences, while the model uses `seq<char>`. `HasPrefix` and the slicing and split after it (kcache/cache/http.go:43-49) cut at the prefix just matched, and `/` is ASCII, so the routing is the same. The hash of `[]byte(...)` (kcache/cache/consistenthash.go:34, 45 and 70) is the `string -> u32` parameter.
- `strconv.Itoa`: it is a concrete decimal rendering defined in the model.
- `sort.Ints`: it is an insertion sort specified as sorted and a permutation, and the library's algorithm is not modelled.
- `sort.Search`: it is a recursive function that halves as the library does.
- ConsistentHashing.IndexOf: the source's fallback index 0 for a point missing from the list cannot be reached. The ring invariant lists every mapped point, and `Delete` only searches for mapped points.
- ConsistentHashing.ConsistentHash.Get: the ensures that names the owning point holds only on a sorted list. Every valid ring is sorted.
- ConsistentHashing.ThreePeersScenario: it assumes the 15 points are distinct rather than computing CRC32 values.
- ConsistentHashing.CollisionLeavesStalePoint: shown for two peers with 2 replicas each, not for the 50 the pool uses.
- HttpPool.ServeHTTP: the `proto.Marshal` failure path (500 with its error), the header write and the body write are not modelled (kcache/cache/http.go:70-77). The trailing newline `http.Error` adds to a body is not modelled either.
- HttpPool.ServeHTTP: `GetGroup` and `Group.Get` are function parameters. The group registry and `Group` are not part of this model.
- HttpPool.HTTPPool.PickPeer: a getter is its base URL. A missing map entry, which the source returns as a nil `*httpGetter` inside a non-nil interface, is `None`.
- The pool's hash is given to its constructor. The source always passes `nil`, which selects CRC32.
- `httpGetter.Get` (kcache/cache/http.go:146-168): network I/O, URL escaping and protobuf decoding are left out.
- `ByteView`: a byte sequence. Its methods are not part of this model.
- kcache/main.go, kcache/cache/manager.go and kcache/cache/kcache_test.go are not part of this model. They hold process wiring, a field-setting constructor, and tests of `Group`.
