/**
 * Model of kcache/cache/consistenthash.go: a ring of virtual points. Each
 * peer is placed `replicas` times, at the hash of its decimal replica index
 * followed by its name; `keys` holds the points in ascending order and
 * `hashMap` maps a point to the peer placed there.
 *
 * The hash function is a parameter of the ring (a 32-bit value of a string);
 * the decimal rendering of replica indices is defined here, and the library
 * sort is the function `SortInts`, specified as sorted and a permutation.
 */
module ConsistentHashing {
  import opened Sequences

  newtype u32 = x: int | 0 <= x < 0x1_0000_0000

  /** The ring as a value: the point list and the point-to-peer map. */
  datatype Ring = Ring(keys: seq<int>, hashMap: map<int, string>)

  // ---------------------------------------------------------------- decimal rendering

  function Digit(d: nat): (c: char)
    requires d < 10
    ensures IsDigit(c)
  {
    "0123456789"[d]
  }

  predicate IsDigit(c: char)
  {
    '0' <= c <= '9'
  }

  ghost predicate AllDigits(s: string)
  {
    forall i :: 0 <= i < |s| ==> IsDigit(s[i])
  }

  /** `strconv.Itoa` on a non-negative index: its decimal digits, without leading zeros. */
  function Itoa(n: nat): (s: string)
    ensures |s| >= 1 && AllDigits(s)
    ensures s[0] == '0' <==> n == 0
    decreases n
  {
    if n < 10 then [Digit(n)] else Itoa(n / 10) + [Digit(n % 10)]
  }

  /** The value of a string of decimal digits, read left to right. */
  function Atoi(s: string): (n: nat)
    requires AllDigits(s)
  {
    if s == [] then 0
    else Atoi(s[..|s| - 1]) * 10 + DigitValue(s[|s| - 1])
  }

  function DigitValue(c: char): (n: nat)
    requires IsDigit(c)
  {
    c as int - '0' as int
  }

  /** The rendering is faithful: reading the digits back gives the index. */
  lemma {:induction false} AtoiItoa(n: nat)
    ensures Atoi(Itoa(n)) == n
    decreases n
  {
    if n >= 10 {
      AtoiItoa(n / 10);
      var s := Itoa(n);
      assert s[..|s| - 1] == Itoa(n / 10);
    }
  }

  /** Distinct indices render differently, so one peer's replica names never coincide. */
  lemma ItoaInjective(a: nat, b: nat)
    requires Itoa(a) == Itoa(b)
    ensures a == b
  {
    AtoiItoa(a);
    AtoiItoa(b);
  }

  // ---------------------------------------------------------------- sorting

  ghost predicate Sorted(s: seq<int>)
  {
    forall a, b :: 0 <= a < b < |s| ==> s[a] <= s[b]
  }

  /** Prepending a lower bound to a sorted sequence keeps it sorted. */
  lemma SortedCons(a: int, t: seq<int>)
    requires Sorted(t) && forall e :: e in t ==> a <= e
    ensures Sorted([a] + t)
  {
    var r := [a] + t;
    forall i, j | 0 <= i < j < |r| ensures r[i] <= r[j] {
      assert r[j] == t[j - 1];
      if i == 0 {
        assert t[j - 1] in t;
      } else {
        assert r[i] == t[i - 1];
      }
    }
  }

  function Insert(x: int, s: seq<int>): (r: seq<int>)
    requires Sorted(s)
    ensures Sorted(r) && multiset(r) == multiset(s) + multiset{x}
  {
    if s == [] || x <= s[0] then
      SortedCons(x, s);
      [x] + s
    else
      assert s == [s[0]] + s[1..];
      var t := Insert(x, s[1..]);
      InsertBound(x, s, t);
      [s[0]] + t
  }

  lemma InsertBound(x: int, s: seq<int>, t: seq<int>)
    requires Sorted(s) && s != [] && s[0] < x
    requires Sorted(t) && multiset(t) == multiset(s[1..]) + multiset{x}
    ensures Sorted([s[0]] + t)
  {
    forall e | e in t ensures s[0] <= e {
      assert e in multiset(t);
      if e != x {
        assert e in multiset(s[1..]);
        var k :| 0 <= k < |s[1..]| && s[1..][k] == e;
        assert s[k + 1] == e;
      }
    }
    SortedCons(s[0], t);
  }

  /** `sort.Ints`: the same values in ascending order. */
  function SortInts(s: seq<int>): (r: seq<int>)
    ensures Sorted(r) && multiset(r) == multiset(s)
  {
    if s == [] then []
    else
      assert s == [s[0]] + s[1..];
      Insert(s[0], SortInts(s[1..]))
  }

  /** A sorted sequence is determined by its elements: any sort gives the result `sort.Ints` gives. */
  lemma {:induction false} SortedUnique(a: seq<int>, b: seq<int>)
    requires Sorted(a) && Sorted(b) && multiset(a) == multiset(b)
    ensures a == b
    decreases |a|
  {
    if a != [] {
      assert |b| == |a| by { assert |multiset(a)| == |multiset(b)|; }
      SortedHeads(a, b);
      MultisetTail(a, b);
      SortedTail(a);
      SortedTail(b);
      SortedUnique(a[1..], b[1..]);
      assert a == [a[0]] + a[1..] && b == [b[0]] + b[1..];
    }
  }

  /** Two sorted sequences with the same elements start with the same, least, element. */
  lemma SortedHeads(a: seq<int>, b: seq<int>)
    requires Sorted(a) && Sorted(b) && multiset(a) == multiset(b) && a != [] && b != []
    ensures a[0] == b[0]
  {
    assert a[0] in multiset(b) && b[0] in multiset(a);
    var i :| 0 <= i < |b| && b[i] == a[0];
    var j :| 0 <= j < |a| && a[j] == b[0];
    assert b[0] <= b[i] && a[0] <= a[j];
  }

  lemma SortedTail(a: seq<int>)
    requires Sorted(a) && a != []
    ensures Sorted(a[1..])
  {
    forall i, j | 0 <= i < j < |a| - 1 ensures a[1..][i] <= a[1..][j] {
      assert a[1..][i] == a[i + 1] && a[1..][j] == a[j + 1];
    }
  }

  lemma MultisetTail(a: seq<int>, b: seq<int>)
    requires a != [] && b != [] && a[0] == b[0] && multiset(a) == multiset(b)
    ensures multiset(a[1..]) == multiset(b[1..])
  {
    assert a == [a[0]] + a[1..] && b == [b[0]] + b[1..];
    assert multiset(a) == multiset([a[0]]) + multiset(a[1..]);
    assert multiset(b) == multiset([b[0]]) + multiset(b[1..]);
    assert multiset(a[1..]) == multiset(a) - multiset([a[0]]);
    assert multiset(b[1..]) == multiset(b) - multiset([b[0]]);
  }

  lemma SortedRemoveAt(s: seq<int>, i: nat)
    requires Sorted(s) && i < |s|
    ensures Sorted(RemoveAt(s, i))
  {
    RemoveAtIndex(s, i);
  }

  // ---------------------------------------------------------------- placing peers

  /** The number of times each peer is placed: a non-positive `replicas` places none. */
  function Reps(replicas: int): (n: nat)
  {
    if replicas < 0 then 0 else replicas
  }

  /** The point of replica `i` of `peer`: the hash of the index's digits followed by the name. */
  function PointHash(hash: string -> u32, i: nat, peer: string): (p: int)
    ensures 0 <= p < 0x1_0000_0000
  {
    hash(Itoa(i) + peer) as int
  }

  /** The points of replicas `i`, `i + 1`, ... of `peer`, in the order the inner loop visits them. */
  function ReplicaPoints(hash: string -> u32, replicas: int, peer: string, i: nat): (ps: seq<int>)
    ensures |ps| == if i < replicas then replicas - i else 0
    decreases replicas - i
  {
    if i < replicas then [PointHash(hash, i, peer)] + ReplicaPoints(hash, replicas, peer, i + 1) else []
  }

  /** The points of all `peers`, in the order `Add` appends them. */
  function Points(hash: string -> u32, replicas: int, peers: seq<string>): (ps: seq<int>)
  {
    if peers == [] then [] else ReplicaPoints(hash, replicas, peers[0], 0) + Points(hash, replicas, peers[1..])
  }

  /** Each point of `peers` is a replica point of one of them. */
  lemma {:induction false} PointOwner(hash: string -> u32, replicas: int, peers: seq<string>, p: int)
    returns (peer: string, i: nat)
    requires p in Points(hash, replicas, peers)
    ensures peer in peers && i < replicas && p == PointHash(hash, i, peer)
  {
    var rp := ReplicaPoints(hash, replicas, peers[0], 0);
    if p in rp {
      peer := peers[0];
      i := ReplicaIndex(hash, replicas, peers[0], 0, p);
    } else {
      peer, i := PointOwner(hash, replicas, peers[1..], p);
    }
  }

  lemma {:induction false} ReplicaIndex(hash: string -> u32, replicas: int, peer: string, j: nat, p: int)
    returns (i: nat)
    requires p in ReplicaPoints(hash, replicas, peer, j)
    ensures j <= i < replicas && p == PointHash(hash, i, peer)
    decreases replicas - j
  {
    if p == PointHash(hash, j, peer) {
      i := j;
    } else {
      i := ReplicaIndex(hash, replicas, peer, j + 1, p);
    }
  }

  /** Replica `i` of a listed peer is among the points placed for the list. */
  lemma {:induction false} PointOfPeer(hash: string -> u32, replicas: int, peers: seq<string>, k: nat, i: nat)
    requires k < |peers| && i < replicas
    ensures PointHash(hash, i, peers[k]) in Points(hash, replicas, peers)
  {
    if k == 0 {
      ReplicaPointIn(hash, replicas, peers[0], 0, i);
    } else {
      PointOfPeer(hash, replicas, peers[1..], k - 1, i);
    }
  }

  lemma {:induction false} ReplicaPointIn(hash: string -> u32, replicas: int, peer: string, j: nat, i: nat)
    requires j <= i < replicas
    ensures PointHash(hash, i, peer) in ReplicaPoints(hash, replicas, peer, j)
    decreases i - j
  {
    if j < i {
      ReplicaPointIn(hash, replicas, peer, j + 1, i);
    }
  }

  /** `Add` places exactly `replicas` points per listed peer, duplicates included. */
  lemma {:induction false} PointsCount(hash: string -> u32, replicas: int, peers: seq<string>)
    ensures |Points(hash, replicas, peers)| == |peers| * Reps(replicas)
  {
    if peers != [] {
      PointsCount(hash, replicas, peers[1..]);
      assert |peers| * Reps(replicas) == Reps(replicas) + (|peers| - 1) * Reps(replicas);
    }
  }

  /** The inner loop of `Add`, from replica `i` on: append the point and map it to the peer. */
  function PlaceReplicas(r: Ring, hash: string -> u32, replicas: int, peer: string, i: nat): (a: Ring)
    decreases replicas - i
  {
    if i < replicas then
      var h := PointHash(hash, i, peer);
      PlaceReplicas(Ring(r.keys + [h], r.hashMap[h := peer]), hash, replicas, peer, i + 1)
    else r
  }

  /** The outer loop of `Add`, before the final sort. */
  function PlacePeers(r: Ring, hash: string -> u32, replicas: int, peers: seq<string>): (a: Ring)
    decreases |peers|
  {
    if peers == [] then r
    else PlacePeers(PlaceReplicas(r, hash, replicas, peers[0], 0), hash, replicas, peers[1..])
  }

  lemma {:induction false} PlaceReplicasKeys(r: Ring, hash: string -> u32, replicas: int, peer: string, i: nat)
    ensures PlaceReplicas(r, hash, replicas, peer, i).keys == r.keys + ReplicaPoints(hash, replicas, peer, i)
    decreases replicas - i
  {
    if i < replicas {
      var h := PointHash(hash, i, peer);
      var r1 := Ring(r.keys + [h], r.hashMap[h := peer]);
      var rest := ReplicaPoints(hash, replicas, peer, i + 1);
      assert PlaceReplicas(r, hash, replicas, peer, i) == PlaceReplicas(r1, hash, replicas, peer, i + 1);
      assert ReplicaPoints(hash, replicas, peer, i) == [h] + rest;
      PlaceReplicasKeys(r1, hash, replicas, peer, i + 1);
      assert r.keys + [h] + rest == r.keys + ([h] + rest);
    }
  }

  /** After the inner loop of `Add`, the map has an entry for the old points and the new ones, and only those. */
  lemma {:induction false} PlaceReplicasDomain(r: Ring, hash: string -> u32, replicas: int, peer: string, i: nat)
    ensures forall k :: k in PlaceReplicas(r, hash, replicas, peer, i).hashMap <==>
                        k in r.hashMap || k in ReplicaPoints(hash, replicas, peer, i)
    decreases replicas - i
  {
    if i < replicas {
      var h := PointHash(hash, i, peer);
      var r1 := Ring(r.keys + [h], r.hashMap[h := peer]);
      assert PlaceReplicas(r, hash, replicas, peer, i) == PlaceReplicas(r1, hash, replicas, peer, i + 1);
      assert ReplicaPoints(hash, replicas, peer, i) == [h] + ReplicaPoints(hash, replicas, peer, i + 1);
      PlaceReplicasDomain(r1, hash, replicas, peer, i + 1);
    }
  }

  /** The peer's own points are mapped to it, and every other entry is unchanged. */
  lemma {:induction false} PlaceReplicasValues(r: Ring, hash: string -> u32, replicas: int, peer: string, i: nat, k: int)
    requires k in PlaceReplicas(r, hash, replicas, peer, i).hashMap
    ensures var a := PlaceReplicas(r, hash, replicas, peer, i);
            (k in ReplicaPoints(hash, replicas, peer, i) ==> a.hashMap[k] == peer) &&
            (k !in ReplicaPoints(hash, replicas, peer, i) ==> k in r.hashMap && a.hashMap[k] == r.hashMap[k])
    decreases replicas - i
  {
    PlaceReplicasDomain(r, hash, replicas, peer, i);
    if i < replicas {
      var h := PointHash(hash, i, peer);
      var r1 := Ring(r.keys + [h], r.hashMap[h := peer]);
      assert PlaceReplicas(r, hash, replicas, peer, i) == PlaceReplicas(r1, hash, replicas, peer, i + 1);
      assert ReplicaPoints(hash, replicas, peer, i) == [h] + ReplicaPoints(hash, replicas, peer, i + 1);
      PlaceReplicasValues(r1, hash, replicas, peer, i + 1, k);
    }
  }

  lemma PlaceReplicasMap(r: Ring, hash: string -> u32, replicas: int, peer: string, i: nat)
    ensures var a := PlaceReplicas(r, hash, replicas, peer, i);
            var ps := ReplicaPoints(hash, replicas, peer, i);
            (forall k :: k in a.hashMap <==> k in r.hashMap || k in ps) &&
            (forall k :: k in ps ==> a.hashMap[k] == peer) &&
            (forall k :: k in r.hashMap && k !in ps ==> a.hashMap[k] == r.hashMap[k])
  {
    PlaceReplicasDomain(r, hash, replicas, peer, i);
    forall k | k in PlaceReplicas(r, hash, replicas, peer, i).hashMap {
      PlaceReplicasValues(r, hash, replicas, peer, i, k);
    }
  }

  /** `Add` appends the points of `peers`, in loop order, to the point list. */
  lemma {:induction false} PlacePeersKeys(r: Ring, hash: string -> u32, replicas: int, peers: seq<string>)
    ensures PlacePeers(r, hash, replicas, peers).keys == r.keys + Points(hash, replicas, peers)
    decreases |peers|
  {
    if peers != [] {
      PlaceReplicasKeys(r, hash, replicas, peers[0], 0);
      PlacePeersKeys(PlaceReplicas(r, hash, replicas, peers[0], 0), hash, replicas, peers[1..]);
      assert r.keys + ReplicaPoints(hash, replicas, peers[0], 0) + Points(hash, replicas, peers[1..]) ==
             r.keys + Points(hash, replicas, peers);
    }
  }

  /**
   * After `Add`, the map has an entry exactly for the old points and the new
   * ones, and an old entry no new point hits keeps its peer.
   */
  lemma {:induction false} PlacePeersMap(r: Ring, hash: string -> u32, replicas: int, peers: seq<string>)
    ensures var a := PlacePeers(r, hash, replicas, peers);
            var ps := Points(hash, replicas, peers);
            (forall k :: k in a.hashMap <==> k in r.hashMap || k in ps) &&
            (forall k :: k in r.hashMap && k !in ps ==> a.hashMap[k] == r.hashMap[k])
    decreases |peers|
  {
    if peers != [] {
      var r1 := PlaceReplicas(r, hash, replicas, peers[0], 0);
      PlaceReplicasMap(r, hash, replicas, peers[0], 0);
      PlacePeersMap(r1, hash, replicas, peers[1..]);
    }
  }

  /** Every replica of every added peer has a map entry after `Add`. */
  lemma AddMapsEveryReplica(r: Ring, hash: string -> u32, replicas: int, peers: seq<string>, k: nat, i: nat)
    requires k < |peers| && i < replicas
    ensures PointHash(hash, i, peers[k]) in PlacePeers(r, hash, replicas, peers).hashMap
  {
    PointOfPeer(hash, replicas, peers, k, i);
    PlacePeersMap(r, hash, replicas, peers);
  }

  /** `Add` grows the sorted point list by exactly `replicas` points per listed peer. */
  lemma AddCount(r: Ring, hash: string -> u32, replicas: int, peers: seq<string>)
    ensures |SortInts(PlacePeers(r, hash, replicas, peers).keys)| == |r.keys| + |peers| * Reps(replicas)
  {
    var a := PlacePeers(r, hash, replicas, peers);
    PlacePeersKeys(r, hash, replicas, peers);
    PointsCount(hash, replicas, peers);
    assert |multiset(SortInts(a.keys))| == |multiset(a.keys)|;
  }

  /**
   * Last writer wins: a point that several replicas share belongs, after
   * `Add`, to the last listed peer that placed it.
   */
  lemma {:induction false} PlacePeersLastWriter(r: Ring, hash: string -> u32, replicas: int, peers: seq<string>, j: nat, k: int)
    requires j < |peers| && k in ReplicaPoints(hash, replicas, peers[j], 0)
    requires forall l :: j < l < |peers| ==> k !in ReplicaPoints(hash, replicas, peers[l], 0)
    ensures k in PlacePeers(r, hash, replicas, peers).hashMap && PlacePeers(r, hash, replicas, peers).hashMap[k] == peers[j]
    decreases |peers|
  {
    PlacePeersMap(r, hash, replicas, peers);
    var r1 := PlaceReplicas(r, hash, replicas, peers[0], 0);
    PlaceReplicasMap(r, hash, replicas, peers[0], 0);
    if j == 0 {
      assert k !in Points(hash, replicas, peers[1..]) by {
        if k in Points(hash, replicas, peers[1..]) {
          var l := PeerOf(hash, replicas, peers[1..], k);
          assert k in ReplicaPoints(hash, replicas, peers[l + 1], 0);
          assert false;
        }
      }
      PlacePeersMap(r1, hash, replicas, peers[1..]);
    } else {
      PlacePeersLastWriter(r1, hash, replicas, peers[1..], j - 1, k);
    }
  }

  /** The position, in the list, of a peer that placed a given point. */
  lemma {:induction false} PeerOf(hash: string -> u32, replicas: int, peers: seq<string>, k: int) returns (l: nat)
    requires k in Points(hash, replicas, peers)
    ensures l < |peers| && k in ReplicaPoints(hash, replicas, peers[l], 0)
  {
    if k in ReplicaPoints(hash, replicas, peers[0], 0) {
      l := 0;
    } else {
      var l' := PeerOf(hash, replicas, peers[1..], k);
      l := l' + 1;
    }
  }

  // ---------------------------------------------------------------- removing peers

  /** Every mapped point is on the list (the list may hold points the map has lost). */
  ghost predicate Covered(r: Ring)
  {
    forall k :: k in r.hashMap ==> k in r.keys
  }

  /** The index the search loop of `Delete` stops at: the first occurrence of `h`. */
  function FirstIndex(keys: seq<int>, h: int): (idx: nat)
    requires h in keys
    ensures idx < |keys| && keys[idx] == h
    ensures forall k :: 0 <= k < idx ==> keys[k] != h
  {
    if keys[0] == h then 0 else 1 + FirstIndex(keys[1..], h)
  }

  /**
   * The search loop of `Delete`: the index of the first occurrence of `h`,
   * or 0 (the variable's initial value) when there is none.
   */
  method IndexOf(keys: seq<int>, h: int) returns (idx: nat)
    ensures h in keys ==> idx == FirstIndex(keys, h)
    ensures h !in keys ==> idx == 0
  {
    idx := 0;
    var j := 0;
    while j < |keys|
      invariant j <= |keys| && idx == 0
      invariant forall k :: 0 <= k < j ==> keys[k] != h
    {
      if keys[j] == h {
        idx := j;
        break;
      }
      j := j + 1;
    }
  }

  /** One processed replica: splice out the first occurrence of its point and delete its map entry. */
  function Unplace(r: Ring, h: int): (u: Ring)
    requires Covered(r) && h in r.hashMap
    ensures h !in u.hashMap && u.hashMap.Keys == r.hashMap.Keys - {h} && |u.keys| == |r.keys| - 1
  {
    Ring(RemoveAt(r.keys, FirstIndex(r.keys, h)), r.hashMap - {h})
  }

  /** Unplacing removes one occurrence of the point from the list and its one map entry, and keeps the ring covered. */
  lemma UnplaceEffect(r: Ring, h: int)
    requires Covered(r) && h in r.hashMap
    ensures var u := Unplace(r, h);
            Covered(u) &&
            multiset(u.keys) == multiset(r.keys) - multiset{h} &&
            u.hashMap == r.hashMap - {h} &&
            |u.keys| == |r.keys| - 1 && |u.hashMap| == |r.hashMap| - 1 &&
            (Sorted(r.keys) ==> Sorted(u.keys))
  {
    var i := FirstIndex(r.keys, h);
    var u := Unplace(r, h);
    RemoveAtMultiset(r.keys, i);
    forall k | k in u.hashMap ensures k in u.keys {
      assert k in multiset(r.keys) && k != h;
      assert k in multiset(u.keys);
    }
    assert u.hashMap.Keys == r.hashMap.Keys - {h};
    if Sorted(r.keys) {
      SortedRemoveAt(r.keys, i);
    }
  }

  /**
   * The inner loop of `Delete`, from replica `i` on. It breaks at the first
   * replica whose point has no map entry, leaving that replica and every later
   * one untouched.
   */
  function DeleteReplicas(r: Ring, hash: string -> u32, replicas: int, peer: string, i: nat): (d: Ring)
    requires Covered(r)
    ensures Covered(d)
    decreases replicas - i
  {
    if i < replicas then
      var h := PointHash(hash, i, peer);
      if h !in r.hashMap then r
      else
        UnplaceEffect(r, h);
        DeleteReplicas(Unplace(r, h), hash, replicas, peer, i + 1)
    else r
  }

  /** The outer loop of `Delete`. */
  function DeletePeers(r: Ring, hash: string -> u32, replicas: int, peers: seq<string>): (d: Ring)
    requires Covered(r)
    ensures Covered(d)
    decreases |peers|
  {
    if peers == [] then r
    else DeletePeers(DeleteReplicas(r, hash, replicas, peers[0], 0), hash, replicas, peers[1..])
  }

  /** Deleting keeps the list sorted. */
  lemma {:induction false} DeleteReplicasSorted(r: Ring, hash: string -> u32, replicas: int, peer: string, i: nat)
    requires Covered(r) && Sorted(r.keys)
    ensures Sorted(DeleteReplicas(r, hash, replicas, peer, i).keys)
    decreases replicas - i
  {
    if i < replicas {
      var h := PointHash(hash, i, peer);
      if h in r.hashMap {
        UnplaceEffect(r, h);
        DeleteReplicasSorted(Unplace(r, h), hash, replicas, peer, i + 1);
      }
    }
  }

  /** Deleting only removes list points and map entries. */
  lemma {:induction false} DeleteReplicasShrinks(r: Ring, hash: string -> u32, replicas: int, peer: string, i: nat)
    requires Covered(r)
    ensures var d := DeleteReplicas(r, hash, replicas, peer, i);
            d.hashMap.Keys <= r.hashMap.Keys && multiset(d.keys) <= multiset(r.keys)
    decreases replicas - i
  {
    if i < replicas {
      var h := PointHash(hash, i, peer);
      if h in r.hashMap {
        UnplaceEffect(r, h);
        var u := Unplace(r, h);
        DeleteReplicasShrinks(u, hash, replicas, peer, i + 1);
        ShrinksTrans(DeleteReplicas(u, hash, replicas, peer, i + 1), u, r);
      }
    }
  }

  /** Shrinking is transitive. */
  lemma ShrinksTrans(d: Ring, u: Ring, r: Ring)
    requires d.hashMap.Keys <= u.hashMap.Keys && multiset(d.keys) <= multiset(u.keys)
    requires u.hashMap.Keys <= r.hashMap.Keys && multiset(u.keys) <= multiset(r.keys)
    ensures d.hashMap.Keys <= r.hashMap.Keys && multiset(d.keys) <= multiset(r.keys)
  {
  }

  /** Deleting removes as many list points as map entries: each processed replica takes one of each. */
  lemma {:induction false} DeleteReplicasCount(r: Ring, hash: string -> u32, replicas: int, peer: string, i: nat)
    requires Covered(r)
    ensures var d := DeleteReplicas(r, hash, replicas, peer, i);
            |r.keys| - |d.keys| == |r.hashMap| - |d.hashMap|
    decreases replicas - i
  {
    if i < replicas {
      var h := PointHash(hash, i, peer);
      if h in r.hashMap {
        UnplaceEffect(r, h);
        var u := Unplace(r, h);
        DeleteReplicasCount(u, hash, replicas, peer, i + 1);
        assert DeleteReplicas(r, hash, replicas, peer, i) == DeleteReplicas(u, hash, replicas, peer, i + 1);
      }
    }
  }

  /**
   * Deleting peers keeps the list sorted, only removes map entries, and
   * removes as many list points as map entries.
   */
  lemma {:induction false} DeletePeersBalance(r: Ring, hash: string -> u32, replicas: int, peers: seq<string>)
    requires Covered(r)
    ensures var d := DeletePeers(r, hash, replicas, peers);
            (Sorted(r.keys) ==> Sorted(d.keys)) &&
            d.hashMap.Keys <= r.hashMap.Keys &&
            multiset(d.keys) <= multiset(r.keys) &&
            |r.keys| - |d.keys| == |r.hashMap| - |d.hashMap|
    decreases |peers|
  {
    if peers != [] {
      DeleteReplicasShrinks(r, hash, replicas, peers[0], 0);
      DeleteReplicasCount(r, hash, replicas, peers[0], 0);
      if Sorted(r.keys) {
        DeleteReplicasSorted(r, hash, replicas, peers[0], 0);
      }
      DeletePeersBalance(DeleteReplicas(r, hash, replicas, peers[0], 0), hash, replicas, peers[1..]);
    }
  }

  /**
   * Deleting peers whose first replica point has no map entry changes nothing.
   * A peer never added qualifies unless its first point collides with a mapped
   * one (see `UnknownPeerDeletesColliding`).
   */
  lemma {:induction false} DeleteUnknown(r: Ring, hash: string -> u32, replicas: int, peers: seq<string>)
    requires Covered(r)
    requires forall p :: p in peers ==> PointHash(hash, 0, p) !in r.hashMap
    ensures DeletePeers(r, hash, replicas, peers) == r
    decreases |peers|
  {
    if peers != [] {
      assert DeleteReplicas(r, hash, replicas, peers[0], 0) == r;
      DeleteUnknown(r, hash, replicas, peers[1..]);
    }
  }

  // ---------------------------------------------------------------- add, then delete

  ghost predicate NoDuplicates(s: seq<int>)
  {
    forall a, b :: 0 <= a < b < |s| ==> s[a] != s[b]
  }

  function Elems(s: seq<int>): (e: set<int>)
  {
    set x | x in s
  }

  /** A duplicate-free concatenation splits into duplicate-free, disjoint halves. */
  lemma NoDuplicatesSplit(s: seq<int>, t: seq<int>)
    requires NoDuplicates(s + t)
    ensures NoDuplicates(s) && NoDuplicates(t) && Elems(s) !! Elems(t)
  {
    var st := s + t;
    forall a, b | 0 <= a < b < |t| ensures t[a] != t[b] {
      assert st[|s| + a] == t[a] && st[|s| + b] == t[b];
    }
    forall a, b | 0 <= a < |s| && 0 <= b < |t| ensures s[a] != t[b] {
      assert st[a] == s[a] && st[|s| + b] == t[b];
    }
    forall a, b | 0 <= a < b < |s| ensures s[a] != s[b] {
      assert st[a] == s[a] && st[b] == s[b];
    }
  }

  lemma ElemsCons(h: int, t: seq<int>)
    ensures Elems([h] + t) == {h} + Elems(t)
    ensures multiset([h] + t) == multiset{h} + multiset(t)
  {
    assert forall x :: x in [h] + t <==> x == h || x in t;
  }

  lemma ElemsConcat(s: seq<int>, t: seq<int>)
    ensures Elems(s + t) == Elems(s) + Elems(t)
  {
    assert forall x :: x in s + t <==> x in s || x in t;
  }

  /** Taking away two multisets one after the other takes away their sum. */
  lemma MultisetStep(a: multiset<int>, b: multiset<int>, c: multiset<int>)
    ensures (a - b) - c == a - (b + c)
  {
    assert forall x :: ((a - b) - c)[x] == (a - (b + c))[x];
  }

  lemma MapStep(m: map<int, string>, s: set<int>, t: set<int>)
    ensures (m - s) - t == m - (s + t)
  {
  }

  /**
   * When the replica points from `i` on are distinct and all mapped, the inner
   * loop of `Delete` processes every one of them: each takes one occurrence
   * off the list and its entry out of the map.
   */
  lemma {:induction false} DeleteReplicasRemoves(r: Ring, hash: string -> u32, replicas: int, peer: string, i: nat)
    requires Covered(r)
    requires NoDuplicates(ReplicaPoints(hash, replicas, peer, i))
    requires forall p :: p in ReplicaPoints(hash, replicas, peer, i) ==> p in r.hashMap
    ensures var d := DeleteReplicas(r, hash, replicas, peer, i);
            var ps := ReplicaPoints(hash, replicas, peer, i);
            multiset(d.keys) == multiset(r.keys) - multiset(ps) &&
            d.hashMap == r.hashMap - Elems(ps)
    decreases replicas - i
  {
    var ps := ReplicaPoints(hash, replicas, peer, i);
    if i < replicas {
      var h := PointHash(hash, i, peer);
      var rest := ReplicaPoints(hash, replicas, peer, i + 1);
      assert ps == [h] + rest;
      NoDuplicatesSplit([h], rest);
      ElemsCons(h, rest);
      assert h in ps;
      UnplaceEffect(r, h);
      var u := Unplace(r, h);
      forall p | p in rest ensures p in u.hashMap {
        assert p in ps && p in Elems(rest) && p !in Elems([h]);
      }
      DeleteReplicasRemoves(u, hash, replicas, peer, i + 1);
      MultisetStep(multiset(r.keys), multiset{h}, multiset(rest));
      MapStep(r.hashMap, {h}, Elems(rest));
    } else {
      assert ps == [];
      assert Elems(ps) == {};
    }
  }

  /** The same for the outer loop, over all peers' points. */
  lemma {:induction false} DeletePeersRemoves(r: Ring, hash: string -> u32, replicas: int, peers: seq<string>)
    requires Covered(r)
    requires NoDuplicates(Points(hash, replicas, peers))
    requires forall p :: p in Points(hash, replicas, peers) ==> p in r.hashMap
    ensures var d := DeletePeers(r, hash, replicas, peers);
            var ps := Points(hash, replicas, peers);
            multiset(d.keys) == multiset(r.keys) - multiset(ps) &&
            d.hashMap == r.hashMap - Elems(ps)
    decreases |peers|
  {
    var ps := Points(hash, replicas, peers);
    if peers != [] {
      var first := ReplicaPoints(hash, replicas, peers[0], 0);
      var rest := Points(hash, replicas, peers[1..]);
      assert ps == first + rest;
      NoDuplicatesSplit(first, rest);
      ElemsConcat(first, rest);
      forall p | p in first ensures p in r.hashMap {
        assert p in ps;
      }
      DeleteReplicasRemoves(r, hash, replicas, peers[0], 0);
      var r1 := DeleteReplicas(r, hash, replicas, peers[0], 0);
      forall p | p in rest ensures p in r1.hashMap {
        assert p in ps && p in Elems(rest) && p !in Elems(first);
      }
      DeletePeersRemoves(r1, hash, replicas, peers[1..]);
      MultisetStep(multiset(r.keys), multiset(first), multiset(rest));
      MapStep(r.hashMap, Elems(first), Elems(rest));
    } else {
      assert ps == [];
      assert Elems(ps) == {};
    }
  }

  /** Points added to a covered ring, sorted, keep it covered. */
  lemma AddedCovered(r: Ring, hash: string -> u32, replicas: int, peers: seq<string>)
    requires Covered(r)
    ensures var a := PlacePeers(r, hash, replicas, peers);
            var added := Ring(SortInts(a.keys), a.hashMap);
            Covered(added) &&
            multiset(added.keys) == multiset(r.keys) + multiset(Points(hash, replicas, peers))
  {
    var ps := Points(hash, replicas, peers);
    var a := PlacePeers(r, hash, replicas, peers);
    PlacePeersKeys(r, hash, replicas, peers);
    PlacePeersMap(r, hash, replicas, peers);
    var sorted := SortInts(a.keys);
    forall k | k in a.hashMap ensures k in sorted {
      assert k in multiset(a.keys);
    }
  }

  /** Removing again the keys an update added, none of which was there before, restores the map. */
  lemma MapRestore(m: map<int, string>, a: map<int, string>, s: set<int>)
    requires forall k :: k in a <==> k in m || k in s
    requires forall k :: k in m && k !in s ==> a[k] == m[k]
    requires forall k :: k in s ==> k !in m
    ensures a - s == m
  {
    forall k ensures k in a - s <==> k in m {
    }
    forall k | k in m ensures (a - s)[k] == m[k] {
    }
  }

  lemma MultisetCancel(a: multiset<int>, b: multiset<int>)
    ensures (a + b) - b == a
  {
    assert forall x :: ((a + b) - b)[x] == a[x];
  }

  /**
   * Round trip: when the peers' points are distinct and none is mapped yet,
   * `Add(peers)` followed by `Delete(peers)` gives back the ring it started from.
   */
  lemma AddThenDelete(r: Ring, hash: string -> u32, replicas: int, peers: seq<string>)
    requires Sorted(r.keys) && Covered(r)
    requires NoDuplicates(Points(hash, replicas, peers))
    requires forall p :: p in Points(hash, replicas, peers) ==> p !in r.hashMap
    ensures var a := PlacePeers(r, hash, replicas, peers);
            var added := Ring(SortInts(a.keys), a.hashMap);
            Covered(added) && DeletePeers(added, hash, replicas, peers) == r
  {
    var ps := Points(hash, replicas, peers);
    var a := PlacePeers(r, hash, replicas, peers);
    var added := Ring(SortInts(a.keys), a.hashMap);
    AddedCovered(r, hash, replicas, peers);
    PlacePeersMap(r, hash, replicas, peers);
    DeletePeersRemoves(added, hash, replicas, peers);
    DeletePeersBalance(added, hash, replicas, peers);
    var d := DeletePeers(added, hash, replicas, peers);
    MultisetCancel(multiset(r.keys), multiset(ps));
    SortedUnique(d.keys, r.keys);
    MapRestore(r.hashMap, a.hashMap, Elems(ps));
  }

  /**
   * The scenario of the package's test: five replicas of three peers whose
   * fifteen points are distinct. `Add` leaves fifteen points; `Delete` of the
   * same peers leaves none.
   */
  lemma ThreePeersScenario(hash: string -> u32)
    requires NoDuplicates(Points(hash, 5, ["aaa", "bbb", "ccc"]))
    ensures var a := PlacePeers(Ring([], map[]), hash, 5, ["aaa", "bbb", "ccc"]);
            var added := Ring(SortInts(a.keys), a.hashMap);
            |added.keys| == 15 && Covered(added) &&
            DeletePeers(added, hash, 5, ["aaa", "bbb", "ccc"]).keys == []
  {
    var peers := ["aaa", "bbb", "ccc"];
    PlacePeersKeys(Ring([], map[]), hash, 5, peers);
    PointsCount(hash, 5, peers);
    var a := PlacePeers(Ring([], map[]), hash, 5, peers);
    assert |multiset(SortInts(a.keys))| == |multiset(a.keys)|;
    AddThenDelete(Ring([], map[]), hash, 5, peers);
  }

  /**
   * Why the early exit matters: when replica 0 of `a` and replica 0 of `b`
   * share a point (a hash collision) and the other points differ, deleting
   * both peers unmaps the shared point while processing `a`; processing `b`
   * then finds its replica 0 unmapped and stops, so `b`'s replica 1 stays on
   * the ring, still mapped to `b`.
   */
  lemma CollisionLeavesStalePoint(hash: string -> u32, a: string, b: string)
    requires PointHash(hash, 0, a) == PointHash(hash, 0, b)
    requires PointHash(hash, 1, a) != PointHash(hash, 0, a) && PointHash(hash, 1, b) != PointHash(hash, 0, a)
    requires PointHash(hash, 1, a) != PointHash(hash, 1, b)
    ensures var added := PlacePeers(Ring([], map[]), hash, 2, [a, b]);
            var ring := Ring(SortInts(added.keys), added.hashMap);
            Covered(ring) &&
            var d := DeletePeers(ring, hash, 2, [a, b]);
            PointHash(hash, 1, b) in d.hashMap && d.hashMap[PointHash(hash, 1, b)] == b
  {
    AddCollidingPair(hash, a, b);
    AddedCovered(Ring([], map[]), hash, 2, [a, b]);
    var added := PlacePeers(Ring([], map[]), hash, 2, [a, b]);
    DeleteCollidingPair(Ring(SortInts(added.keys), added.hashMap), hash, a, b);
  }

  /**
   * With one replica the shared point is listed twice and mapped to `b`.
   * Deleting `a` unmaps it and splices one copy out; deleting `b` then finds
   * it unmapped and stops, so one copy stays on the ring with no map entry.
   */
  lemma OneReplicaCollisionUnmapsPoint(hash: string -> u32, a: string, b: string)
    requires PointHash(hash, 0, a) == PointHash(hash, 0, b)
    ensures var h := PointHash(hash, 0, a);
            var added := PlacePeers(Ring([], map[]), hash, 1, [a, b]);
            var ring := Ring(SortInts(added.keys), added.hashMap);
            added == Ring([h, h], map[h := b]) && Covered(ring) &&
            DeletePeers(ring, hash, 1, [a, b]) == Ring([h], map[])
  {
    var h := PointHash(hash, 0, a);
    AddOneReplicaPair(hash, a, b);
    SortTwin(h);
    DeleteOneReplicaPair(hash, a, b);
  }

  /** Adding the pair with one replica each: the shared point twice, owned by `b`. */
  lemma AddOneReplicaPair(hash: string -> u32, a: string, b: string)
    requires PointHash(hash, 0, a) == PointHash(hash, 0, b)
    ensures var h := PointHash(hash, 0, a);
            PlacePeers(Ring([], map[]), hash, 1, [a, b]) == Ring([h, h], map[h := b])
  {
    var h := PointHash(hash, 0, a);
    var ra := Ring([h], map[h := a]);
    assert PlaceReplicas(Ring([], map[]), hash, 1, a, 0) == PlaceReplicas(ra, hash, 1, a, 1) == ra;
    var rb := Ring([h, h], map[h := b]);
    assert PlaceReplicas(ra, hash, 1, b, 0) == PlaceReplicas(rb, hash, 1, b, 1) == rb;
    assert [a, b][1..] == [b];
    assert PlacePeers(Ring([], map[]), hash, 1, [a, b]) == PlacePeers(ra, hash, 1, [b]) == PlacePeers(rb, hash, 1, []);
  }

  /** A list of two equal points is already sorted. */
  lemma SortTwin(h: int)
    ensures SortInts([h, h]) == [h, h]
  {
    assert [h, h][1..] == [h];
    assert SortInts([h]) == [h];
  }

  /** Deleting the pair from the ring with the shared point listed twice and owned by `b`. */
  lemma DeleteOneReplicaPair(hash: string -> u32, a: string, b: string)
    requires PointHash(hash, 0, a) == PointHash(hash, 0, b)
    ensures var h := PointHash(hash, 0, a);
            var ring := Ring([h, h], map[h := b]);
            Covered(ring) && DeletePeers(ring, hash, 1, [a, b]) == Ring([h], map[])
  {
    var h := PointHash(hash, 0, a);
    var ring := Ring([h, h], map[h := b]);
    assert Covered(ring);
    assert FirstIndex(ring.keys, h) == 0;
    var left := Unplace(ring, h);
    assert left.keys == [h] && left.hashMap == map[];
    assert DeleteReplicas(ring, hash, 1, a, 0) == DeleteReplicas(left, hash, 1, a, 1) == left;
    assert DeleteReplicas(left, hash, 1, b, 0) == left;
    assert [a, b][1..] == [b];
    assert DeletePeers(ring, hash, 1, [a, b]) == DeletePeers(left, hash, 1, [b]) == DeletePeers(left, hash, 1, []);
  }

  /** Adding the colliding pair: the shared point is listed twice and belongs to `b`, the last writer. */
  lemma AddCollidingPair(hash: string -> u32, a: string, b: string)
    ensures var h0, a1, b1 := PointHash(hash, 0, a), PointHash(hash, 1, a), PointHash(hash, 1, b);
            PlacePeers(Ring([], map[]), hash, 2, [a, b]) ==
            Ring([h0, a1, PointHash(hash, 0, b), b1], map[h0 := a, a1 := a][PointHash(hash, 0, b) := b][b1 := b])
  {
    var h0, a1, b0, b1 := PointHash(hash, 0, a), PointHash(hash, 1, a), PointHash(hash, 0, b), PointHash(hash, 1, b);
    var ra := Ring([h0, a1], map[h0 := a, a1 := a]);
    assert PlaceReplicas(Ring([], map[]), hash, 2, a, 0) == PlaceReplicas(Ring([h0], map[h0 := a]), hash, 2, a, 1) == ra;
    var rb := Ring([h0, a1, b0, b1], ra.hashMap[b0 := b][b1 := b]);
    assert PlaceReplicas(ra, hash, 2, b, 0) == PlaceReplicas(Ring([h0, a1, b0], ra.hashMap[b0 := b]), hash, 2, b, 1) == rb;
    assert [a, b][1..] == [b];
    assert PlacePeers(Ring([], map[]), hash, 2, [a, b]) == PlacePeers(ra, hash, 2, [b]) == PlacePeers(rb, hash, 2, []);
  }

  /** Deleting the colliding pair from a ring mapping exactly their points. */
  lemma DeleteCollidingPair(ring: Ring, hash: string -> u32, a: string, b: string)
    requires PointHash(hash, 0, a) == PointHash(hash, 0, b)
    requires PointHash(hash, 1, a) != PointHash(hash, 0, a) && PointHash(hash, 1, b) != PointHash(hash, 0, a)
    requires PointHash(hash, 1, a) != PointHash(hash, 1, b)
    requires Covered(ring)
    requires ring.hashMap == map[PointHash(hash, 0, a) := a, PointHash(hash, 1, a) := a]
                               [PointHash(hash, 0, b) := b][PointHash(hash, 1, b) := b]
    ensures var d := DeletePeers(ring, hash, 2, [a, b]);
            PointHash(hash, 1, b) in d.hashMap && d.hashMap[PointHash(hash, 1, b)] == b
  {
    var h0, a1, b1 := PointHash(hash, 0, a), PointHash(hash, 1, a), PointHash(hash, 1, b);
    UnplaceEffect(ring, h0);
    var r1 := Unplace(ring, h0);
    assert a1 in r1.hashMap;
    UnplaceEffect(r1, a1);
    var r2 := Unplace(r1, a1);
    assert h0 !in r2.hashMap && b1 in r2.hashMap && r2.hashMap[b1] == b;
    assert DeleteReplicas(r2, hash, 2, a, 2) == r2;
    assert DeleteReplicas(r1, hash, 2, a, 1) == r2;
    assert DeleteReplicas(ring, hash, 2, a, 0) == r2;
    assert DeleteReplicas(r2, hash, 2, b, 0) == r2;
    assert [a, b][1..] == [b];
    assert DeletePeers(r2, hash, 2, [b]) == DeletePeers(r2, hash, 2, []);
    assert DeletePeers(ring, hash, 2, [a, b]) == DeletePeers(r2, hash, 2, [b]);
  }

  /**
   * `Delete` looks points up by value, not by owner: a peer `c` that was never
   * added, whose first point collides with the point of a mapped peer `a`,
   * removes `a`'s point from the list and from the map.
   */
  lemma UnknownPeerDeletesColliding(hash: string -> u32, a: string, c: string)
    requires c != a && PointHash(hash, 0, c) == PointHash(hash, 0, a)
    ensures var ring := Ring([PointHash(hash, 0, a)], map[PointHash(hash, 0, a) := a]);
            Covered(ring) && c !in ring.hashMap.Values &&
            DeletePeers(ring, hash, 1, [c]) == Ring([], map[])
  {
    var h := PointHash(hash, 0, a);
    var ring := Ring([h], map[h := a]);
    assert Covered(ring);
    assert FirstIndex(ring.keys, h) == 0;
    var empty := Unplace(ring, h);
    assert empty.keys == [] && empty.hashMap == map[];
    assert DeleteReplicas(ring, hash, 1, c, 0) == DeleteReplicas(empty, hash, 1, c, 1) == empty;
    assert DeletePeers(ring, hash, 1, [c]) == DeletePeers(empty, hash, 1, []);
  }

  // ---------------------------------------------------------------- lookup

  /** `sort.Search(n, f)` with `f(i) = keys[i] >= h`, on the range `[i, j)`, halving as the library does. */
  function Search(keys: seq<int>, h: int, i: nat, j: nat): (r: nat)
    requires i <= j <= |keys|
    ensures i <= r <= j
    decreases j - i
  {
    if i < j then
      var mid := (i + j) / 2;
      if !(keys[mid] >= h) then Search(keys, h, mid + 1, j) else Search(keys, h, i, mid)
    else i
  }

  /** The reference answer: the least index whose point is at least `h`, or `|keys|` when none is. */
  function FirstAtLeast(keys: seq<int>, h: int): (j: nat)
    ensures j <= |keys|
    ensures forall k :: 0 <= k < j ==> keys[k] < h
    ensures j < |keys| ==> keys[j] >= h
  {
    if keys == [] || keys[0] >= h then 0 else 1 + FirstAtLeast(keys[1..], h)
  }

  /** On a sorted list the binary search finds the reference answer. */
  lemma {:induction false} SearchFindsFirst(keys: seq<int>, h: int, i: nat, j: nat)
    requires Sorted(keys) && i <= j <= |keys|
    requires forall k :: 0 <= k < i ==> keys[k] < h
    requires forall k :: j <= k < |keys| ==> keys[k] >= h
    ensures Search(keys, h, i, j) == FirstAtLeast(keys, h)
    decreases j - i
  {
    if i < j {
      var mid := (i + j) / 2;
      if !(keys[mid] >= h) {
        SearchFindsFirst(keys, h, mid + 1, j);
      } else {
        SearchFindsFirst(keys, h, i, mid);
      }
    }
  }

  lemma SearchSorted(keys: seq<int>, h: int)
    ensures Sorted(keys) ==> Search(keys, h, 0, |keys|) == FirstAtLeast(keys, h)
  {
    if Sorted(keys) {
      SearchFindsFirst(keys, h, 0, |keys|);
    }
  }

  /** `idx % len` on a search result: the index itself, or 0 past the end. */
  lemma WrapIndex(idx: nat, n: nat)
    requires 0 < n && idx <= n
    ensures idx % n == if idx == n then 0 else idx
  {
  }

  /** The point that owns `h`: the first one at or after it, wrapping to the first point of the ring. */
  function Successor(keys: seq<int>, h: int): (j: nat)
    requires keys != []
    ensures j < |keys|
  {
    var f := FirstAtLeast(keys, h);
    if f == |keys| then 0 else f
  }

  /** A Go map read: the zero value "" for a missing point. */
  function Lookup(m: map<int, string>, k: int): (owner: string)
    ensures k in m ==> owner == m[k]
    ensures owner == "" || owner in m.Values
  {
    if k in m then m[k] else ""
  }

  /** The source's `ConsistentHash`. `hash` is the caller's function; CRC32 is not part of this model. */
  class ConsistentHash {
    const hash: string -> u32
    const replicas: int
    var keys: seq<int>
    var hashMap: map<int, string>

    function State(): (r: Ring)
      reads this
    {
      Ring(keys, hashMap)
    }

    /** The ring's invariant: the points are sorted and every mapped point is on the list. */
    ghost predicate Valid()
      reads this
    {
      Sorted(keys) && Covered(State())
    }

    /** The source's `NewConsistentHash`: an empty ring. */
    constructor (replicas: int, hash: string -> u32)
      ensures Valid() && this.replicas == replicas && this.hash == hash
      ensures keys == [] && hashMap == map[]
    {
      this.hash := hash;
      this.replicas := replicas;
      keys := [];
      hashMap := map[];
    }

    /** The source's `Add`: append and map every replica point of every peer, then sort. */
    method Add(peers: seq<string>)
      requires Valid()
      modifies this
      ensures Valid()
      ensures var a := PlacePeers(old(State()), hash, replicas, peers);
              keys == SortInts(a.keys) && hashMap == a.hashMap
    {
      var pi := 0;
      while pi < |peers|
        invariant pi <= |peers|
        invariant Covered(State())
        invariant PlacePeers(State(), hash, replicas, peers[pi..]) == PlacePeers(old(State()), hash, replicas, peers)
      {
        var key := peers[pi];
        assert peers[pi..] == [key] + peers[pi + 1..];
        var i := 0;
        while i < replicas
          invariant Covered(State())
          invariant PlacePeers(PlaceReplicas(State(), hash, replicas, key, i), hash, replicas, peers[pi + 1..]) ==
                    PlacePeers(old(State()), hash, replicas, peers)
          decreases replicas - i
        {
          var h := PointHash(hash, i, key);
          keys := keys + [h];
          hashMap := hashMap[h := key];
          i := i + 1;
        }
        pi := pi + 1;
      }
      var unsorted := keys;
      keys := SortInts(keys);
      assert forall k :: k in unsorted ==> k in multiset(keys);
    }

    /**
     * The source's `Delete`: for each peer, and each replica until the first
     * whose point has no map entry, splice the first occurrence of the point
     * out of the list and delete its map entry.
     */
    method Delete(peers: seq<string>)
      requires Valid()
      modifies this
      ensures Valid()
      ensures State() == DeletePeers(old(State()), hash, replicas, peers)
    {
      var pi := 0;
      while pi < |peers|
        invariant pi <= |peers|
        invariant Valid()
        invariant DeletePeers(State(), hash, replicas, peers[pi..]) == DeletePeers(old(State()), hash, replicas, peers)
      {
        assert peers[pi..] == [peers[pi]] + peers[pi + 1..];
        DeleteReplicasOf(peers[pi]);
        pi := pi + 1;
      }
    }

    /** The body of the inner loop of `Delete`: find the point's first occurrence, splice it out, delete its entry. */
    method RemovePoint(h: int)
      requires Valid() && h in hashMap
      modifies this
      ensures Valid() && State() == Unplace(old(State()), h)
    {
      var idx := IndexOf(keys, h);
      UnplaceEffect(State(), h);
      keys := RemoveAt(keys, idx);
      hashMap := hashMap - {h};
    }

    /** The inner loop of `Delete`, for one peer. */
    method DeleteReplicasOf(key: string)
      requires Valid()
      modifies this
      ensures Valid()
      ensures State() == DeleteReplicas(old(State()), hash, replicas, key, 0)
    {
      var i := 0;
      while i < replicas
        invariant Valid()
        invariant DeleteReplicas(State(), hash, replicas, key, i) == DeleteReplicas(old(State()), hash, replicas, key, 0)
        decreases replicas - i
      {
        var h := PointHash(hash, i, key);
        if h !in hashMap {
          assert DeleteReplicas(State(), hash, replicas, key, i) == State();
          break;
        }
        ghost var before := State();
        RemovePoint(h);
        assert DeleteReplicas(before, hash, replicas, key, i) == DeleteReplicas(State(), hash, replicas, key, i + 1);
        i := i + 1;
      }
    }

    /**
     * The source's `Get`: "" on an empty ring; otherwise the peer mapped at
     * the first point at or after the key's hash, wrapping around to the first
     * point. The binary search finds that point whenever the list is sorted.
     */
    function Get(key: string): (owner: string)
      reads this
      ensures keys == [] ==> owner == ""
      ensures keys != [] && Sorted(keys) ==> owner == Lookup(hashMap, keys[Successor(keys, hash(key) as int)])
      ensures owner == "" || owner in hashMap.Values
    {
      if |keys| == 0 then ""
      else
        var h := hash(key) as int;
        var idx := Search(keys, h, 0, |keys|);
        SearchSorted(keys, h);
        WrapIndex(idx, |keys|);
        Lookup(hashMap, keys[idx % |keys|])
    }
  }
}
