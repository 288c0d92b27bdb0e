/**
 * Model of kcache/cache/http.go: the HTTP pool that registers remote peers
 * on a consistent-hash ring, picks the peer that owns a key, and routes an
 * incoming request path to a group lookup. The pool's mutex, its logging and
 * the writes to the response are not modelled; the peer getters' network
 * access is not part of this model (a getter is just its base URL).
 */
module HttpPool {
  import opened Optional
  import opened ConsistentHashing

  const DefaultBasePath := "/_kcache/"
  const DefaultReplicas := 50

  const StatusBadRequest := 400
  const StatusNotFound := 404
  const StatusInternalServerError := 500

  /** A client for one remote peer: requests go to `baseURL`. */
  datatype HttpGetter = HttpGetter(baseURL: string)

  /** The result of `PickPeer`: `getter` is `None` where the source returns a nil getter. */
  datatype Pick = Pick(getter: Option<HttpGetter>, ok: bool)

  /** What serving a request does: panic, answer with an error status and body, or send a value. */
  datatype Response<V> = Panicked(message: string) | Failed(status: int, body: string) | Served(value: V)

  /** The set of peers the getter map has an entry for; a nil map has none. */
  function Registered(getters: Option<map<string, HttpGetter>>): (peers: set<string>)
  {
    if getters.None? then {} else getters.value.Keys
  }

  /** A Go map read: nil for a missing peer or a nil map. */
  function GetterOf(getters: Option<map<string, HttpGetter>>, peer: string): (g: Option<HttpGetter>)
    ensures g.Some? <==> getters.Some? && peer in getters.value
    ensures g.Some? ==> g.value == getters.value[peer]
  {
    if getters.Some? && peer in getters.value then Some(getters.value[peer]) else None
  }

  // ---------------------------------------------------------------- request paths

  /** `strings.HasPrefix`: `s` is `prefix` followed by the rest of `s`. */
  function HasPrefix(s: string, prefix: string): (b: bool)
    ensures b <==> |prefix| <= |s| && s == prefix + s[|prefix|..]
  {
    |prefix| <= |s| && s[..|prefix|] == prefix
  }

  /** The position of the first '/' in `s`, or `|s|` when there is none. */
  function FirstSlash(s: string): (i: nat)
    ensures i <= |s| && '/' !in s[..i]
    ensures i < |s| ==> s[i] == '/'
  {
    if s == [] then 0
    else if s[0] == '/' then 0
    else
      var i := 1 + FirstSlash(s[1..]);
      assert s[..i] == [s[0]] + s[1..][..i - 1];
      i
  }

  /**
   * `strings.SplitN(s, "/", 2)`: the whole string when it holds no '/', else
   * the part before the first '/' and everything after it.
   */
  function SplitN2(s: string): (parts: seq<string>)
    ensures 1 <= |parts| <= 2
    ensures |parts| == 1 <==> '/' !in s
    ensures |parts| == 1 ==> parts[0] == s
    ensures |parts| == 2 ==> '/' !in parts[0] && parts[0] + "/" + parts[1] == s
  {
    var i := FirstSlash(s);
    if i == |s| then
      assert s[..i] == s;
      [s]
    else
      assert s == s[..i] + "/" + s[i + 1..];
      [s[..i], s[i + 1..]]
  }

  /** In a name without '/' joined to a key by '/', the first '/' is the joining one. */
  lemma {:induction false} FirstSlashJoin(name: string, key: string)
    requires '/' !in name
    ensures FirstSlash(name + "/" + key) == |name|
  {
    if name != [] {
      assert (name + "/" + key)[1..] == name[1..] + "/" + key;
      FirstSlashJoin(name[1..], key);
    }
  }

  /** Splitting a name without '/' joined to any key by '/' gives back the name and the key. */
  lemma SplitJoin(name: string, key: string)
    requires '/' !in name
    ensures SplitN2(name + "/" + key) == [name, key]
  {
    var s := name + "/" + key;
    FirstSlashJoin(name, key);
    assert s[..|name|] == name && s[|name| + 1..] == key;
  }

  /**
   * The path handling of `ServeHTTP`: panic without the pool's prefix; 400
   * when what follows the prefix has no '/'; otherwise split into group name
   * and key, 404 for an unknown group, 500 with the error text when the
   * group's `Get` fails, and the value otherwise. `getGroup` and `groupGet`
   * stand for the group registry and `Group.Get`, which are not part of this
   * model; encoding the value is left out.
   */
  function ServeHTTP<G, V>(basePath: string, path: string,
                           getGroup: string -> Option<G>, groupGet: (G, string) -> Result<V>): (resp: Response<V>)
    ensures resp.Panicked? <==> !HasPrefix(path, basePath)
    ensures resp == Failed(StatusBadRequest, "bad request") <==>
              HasPrefix(path, basePath) && '/' !in path[|basePath|..]
  {
    if !HasPrefix(path, basePath) then Panicked("HTTPPool serving unexpected path: " + path)
    else
      var parts := SplitN2(path[|basePath|..]);
      if |parts| != 2 then Failed(StatusBadRequest, "bad request")
      else
        var groupName := parts[0];
        var key := parts[1];
        match getGroup(groupName)
        case None => Failed(StatusNotFound, "no such group: " + groupName)
        case Some(group) =>
          match groupGet(group, key)
          case Err(message) => Failed(StatusInternalServerError, message)
          case Ok(view) => Served(view)
  }

  /**
   * A request for `basePath + name + "/" + key` reaches group `name` (which
   * may be empty) with exactly `key`, '/'s included: 404 when the group is
   * unknown, 500 with its error text when its `Get` fails, its value otherwise.
   */
  lemma RouteRequest<G, V>(basePath: string, name: string, key: string,
                           getGroup: string -> Option<G>, groupGet: (G, string) -> Result<V>)
    requires '/' !in name
    ensures var resp := ServeHTTP(basePath, basePath + name + "/" + key, getGroup, groupGet);
            (getGroup(name).None? ==> resp == Failed(StatusNotFound, "no such group: " + name)) &&
            (getGroup(name).Some? && groupGet(getGroup(name).value, key).Err? ==>
               resp == Failed(StatusInternalServerError, groupGet(getGroup(name).value, key).message)) &&
            (getGroup(name).Some? && groupGet(getGroup(name).value, key).Ok? ==>
               resp == Served(groupGet(getGroup(name).value, key).value))
  {
    var path := basePath + name + "/" + key;
    assert path[..|basePath|] == basePath;
    assert path[|basePath|..] == name + "/" + key;
    SplitJoin(name, key);
  }

  /** Conversely, every request that gets past the 400 check names a group and a key it is routed with. */
  lemma RoutedPath<G, V>(basePath: string, path: string,
                         getGroup: string -> Option<G>, groupGet: (G, string) -> Result<V>)
    returns (name: string, key: string)
    requires HasPrefix(path, basePath) && '/' in path[|basePath|..]
    ensures '/' !in name && path == basePath + name + "/" + key
  {
    var rest := path[|basePath|..];
    var parts := SplitN2(rest);
    name, key := parts[0], parts[1];
    assert path == path[..|basePath|] + rest;
  }

  // ---------------------------------------------------------------- the getter map

  /**
   * The loop `ResetPeers` and `AddPeers` share: register a getter at
   * `peer + basePath` for each listed peer, overwriting any there was, and
   * keep every other entry.
   */
  method PutGetters(getters: map<string, HttpGetter>, ps: seq<string>, basePath: string)
    returns (r: map<string, HttpGetter>)
    ensures r.Keys == getters.Keys + set p | p in ps
    ensures forall p :: p in r ==> r[p] == if p in ps then HttpGetter(p + basePath) else getters[p]
  {
    r := getters;
    var i := 0;
    while i < |ps|
      invariant i <= |ps|
      invariant r.Keys == getters.Keys + set p | p in ps[..i]
      invariant forall p :: p in r ==> r[p] == if p in ps[..i] then HttpGetter(p + basePath) else getters[p]
    {
      assert ps[..i + 1] == ps[..i] + [ps[i]];
      r := r[ps[i] := HttpGetter(ps[i] + basePath)];
      i := i + 1;
    }
    assert ps[..i] == ps;
  }

  /** The loop of `RemovePeers`: delete the getter of each listed peer and keep every other entry. */
  method DropGetters(getters: map<string, HttpGetter>, ps: seq<string>) returns (r: map<string, HttpGetter>)
    ensures r.Keys == getters.Keys - set p | p in ps
    ensures forall p :: p in r ==> r[p] == getters[p]
  {
    r := getters;
    var i := 0;
    while i < |ps|
      invariant i <= |ps|
      invariant r.Keys == getters.Keys - set p | p in ps[..i]
      invariant forall p :: p in r ==> p in getters && r[p] == getters[p]
    {
      assert ps[..i + 1] == ps[..i] + [ps[i]];
      r := r - {ps[i]};
      i := i + 1;
    }
    assert ps[..i] == ps;
  }

  // ---------------------------------------------------------------- the pool

  /** The source's `HTTPPool`. `hash` is the ring's hash function (the source uses CRC32, not part of this model). */
  class HTTPPool {
    const self: string
    const basePath: string
    const hash: string -> u32
    var peers: ConsistentHash?
    var httpGetters: Option<map<string, HttpGetter>>

    /**
     * The ring and the getter map are created together; the ring is valid,
     * uses 50 replicas and the pool's hash; each getter targets its peer's
     * address followed by the base path.
     */
    ghost predicate Valid()
      reads this, peers
    {
      (peers == null <==> httpGetters.None?) &&
      (peers != null ==> peers.Valid() && peers.replicas == DefaultReplicas && peers.hash == hash) &&
      (httpGetters.Some? ==> forall p :: p in httpGetters.value ==> httpGetters.value[p] == HttpGetter(p + basePath))
    }

    /** The source's `NewHTTPPool`: the default base path, no ring and no getters yet. */
    constructor (self: string, hash: string -> u32)
      ensures Valid()
      ensures this.self == self && this.hash == hash && basePath == DefaultBasePath
      ensures peers == null && httpGetters == None
    {
      this.self := self;
      this.hash := hash;
      basePath := DefaultBasePath;
      peers := null;
      httpGetters := None;
    }

    /**
     * The source's `ResetPeers`: a fresh ring holding exactly the points of
     * `ps`, and a getter for exactly the peers in `ps`.
     */
    method ResetPeers(ps: seq<string>)
      requires Valid()
      modifies this
      ensures Valid() && peers != null && fresh(peers)
      ensures var a := PlacePeers(Ring([], map[]), hash, peers.replicas, ps);
              peers.keys == SortInts(a.keys) && peers.hashMap == a.hashMap
      ensures multiset(peers.keys) == multiset(Points(hash, peers.replicas, ps))
      ensures peers.hashMap.Keys == Elems(Points(hash, peers.replicas, ps))
      ensures Registered(httpGetters) == set p | p in ps
    {
      peers := new ConsistentHash(DefaultReplicas, hash);
      peers.Add(ps);
      ResetRing(hash, peers.replicas, ps);
      var getters := PutGetters(map[], ps, basePath);
      httpGetters := Some(getters);
    }

    /**
     * The source's `AddPeers`: create the ring and the getter map when
     * missing, add the points of `ps` to the ring, and register a getter for
     * each peer in `ps`; every other getter stays.
     */
    method AddPeers(ps: seq<string>)
      requires Valid()
      modifies this, peers
      ensures Valid() && peers != null
      ensures old(peers) != null ==> peers == old(peers)
      ensures old(peers) == null ==> fresh(peers)
      ensures var before := if old(peers) == null then Ring([], map[]) else old(peers.State());
              var a := PlacePeers(before, hash, peers.replicas, ps);
              peers.keys == SortInts(a.keys) && peers.hashMap == a.hashMap
      ensures Registered(httpGetters) == Registered(old(httpGetters)) + set p | p in ps
      ensures forall p :: p in Registered(old(httpGetters)) ==> GetterOf(httpGetters, p) == GetterOf(old(httpGetters), p)
    {
      if peers == null {
        peers := new ConsistentHash(DefaultReplicas, hash);
      }
      peers.Add(ps);
      if httpGetters.None? {
        httpGetters := Some(map[]);
      }
      var getters := PutGetters(httpGetters.value, ps, basePath);
      httpGetters := Some(getters);
    }

    /**
     * The source's `RemovePeers`: nothing without a ring or a getter map;
     * otherwise delete `ps` from the ring and drop exactly their getters.
     */
    method RemovePeers(ps: seq<string>)
      requires Valid()
      modifies this, peers
      ensures Valid() && peers == old(peers)
      ensures old(peers) == null ==> httpGetters == old(httpGetters)
      ensures old(peers) != null ==>
                peers.State() == DeletePeers(old(peers.State()), hash, peers.replicas, ps) &&
                Registered(httpGetters) == Registered(old(httpGetters)) - set p | p in ps
    {
      if peers == null || httpGetters.None? {
        return;
      }
      peers.Delete(ps);
      var getters := DropGetters(httpGetters.value, ps);
      httpGetters := Some(getters);
    }

    /**
     * The source's `PickPeer`: the getter of the ring's owner of `key` when
     * that owner is a peer other than this node, else no peer. The source
     * reads the ring without a nil check, so the ring must exist.
     */
    function PickPeer(key: string): (r: Pick)
      requires peers != null
      reads this, peers
      ensures r.ok <==> peers.Get(key) != "" && peers.Get(key) != self
      ensures r.ok ==> peers.Get(key) in peers.hashMap.Values && r.getter == GetterOf(httpGetters, peers.Get(key))
      ensures !r.ok ==> r.getter.None?
    {
      var peer := peers.Get(key);
      if peer != "" && peer != self then Pick(GetterOf(httpGetters, peer), true)
      else Pick(None, false)
    }

    /**
     * `PickPeer` never selects this node: whatever it returns is not the
     * getter this node's own address would have, and a returned getter
     * targets the owner of `key` on the ring.
     */
    lemma PickNeverSelf(key: string)
      requires Valid() && peers != null
      ensures var r := PickPeer(key);
              r.getter != Some(HttpGetter(self + basePath)) &&
              (r.getter.Some? ==> r.ok && r.getter.value.baseURL == peers.Get(key) + basePath)
    {
      AppendCancel(peers.Get(key), self, basePath);
    }
  }

  /** Two strings followed by the same suffix are equal only when they are. */
  lemma AppendCancel(a: string, b: string, c: string)
    ensures a + c == b + c ==> a == b
  {
    if a + c == b + c {
      assert a == (a + c)[..|a|];
      assert b == (b + c)[..|b|];
    }
  }

  /** The ring `ResetPeers` builds holds exactly the points of the new peers, each mapped. */
  lemma ResetRing(hash: string -> u32, replicas: int, ps: seq<string>)
    ensures var a := PlacePeers(Ring([], map[]), hash, replicas, ps);
            multiset(SortInts(a.keys)) == multiset(Points(hash, replicas, ps)) &&
            a.hashMap.Keys == Elems(Points(hash, replicas, ps))
  {
    var empty := Ring([], map[]);
    var a := PlacePeers(empty, hash, replicas, ps);
    var pts := Points(hash, replicas, ps);
    PlacePeersKeys(empty, hash, replicas, ps);
    assert a.keys == pts;
    PlacePeersMap(empty, hash, replicas, ps);
    assert forall k :: k in a.hashMap <==> k in pts;
  }

  /**
   * After `ResetPeers(ps)` with `self` among `ps`, picking never hands out
   * this node's getter even though it is registered.
   */
  method ResetThenPick(self: string, hash: string -> u32, ps: seq<string>, key: string) returns (pick: Pick)
    requires self in ps
    ensures pick.getter != Some(HttpGetter(self + DefaultBasePath))
  {
    var pool := new HTTPPool(self, hash);
    pool.ResetPeers(ps);
    pick := pool.PickPeer(key);
    pool.PickNeverSelf(key);
  }
}
