/** The hash ring: virtual nodes in a sorted array, lookup by binary search with wraparound, and
    the walk that collects replicas. */
module Ring {
  import opened Bytes
  import opened RecordLog
  import opened RingSpec

  datatype NodeInfo = NodeInfo(nodeID: NodeId, address: Bytes, raftAddr: Bytes, isLeader: bool)

  const DEFAULT_REPLICAS: nat := 150

  predicate Sorted(s: seq<uint32>) { forall i, j :: 0 <= i < j < |s| ==> s[i] <= s[j] }

  // ---------- sorting ----------

  function Insert(s: seq<uint32>, x: uint32): seq<uint32> {
    if s == [] then [x]
    else if s[|s| - 1] <= x then s + [x]
    else Insert(s[..|s| - 1], x) + [s[|s| - 1]]
  }

  lemma {:induction false} InsertAdds(s: seq<uint32>, x: uint32)
    ensures multiset(Insert(s, x)) == multiset(s) + multiset{x}
  {
    if s != [] && s[|s| - 1] > x {
      InsertAdds(s[..|s| - 1], x);
      assert s == s[..|s| - 1] + [s[|s| - 1]];
    }
  }

  lemma {:induction false} InsertSorted(s: seq<uint32>, x: uint32)
    requires Sorted(s)
    ensures Sorted(Insert(s, x))
  {
    if s != [] && s[|s| - 1] > x {
      var init, last := s[..|s| - 1], s[|s| - 1];
      InsertSorted(init, x);
      InsertAdds(init, x);
      AtMost(Insert(init, x), init, x, last);
    }
  }

  lemma {:induction false} AtMost(r: seq<uint32>, s: seq<uint32>, x: uint32, last: uint32)
    requires multiset(r) == multiset(s) + multiset{x} && x <= last
    requires forall i :: 0 <= i < |s| ==> s[i] <= last
    ensures forall i :: 0 <= i < |r| ==> r[i] <= last
  {
    forall i | 0 <= i < |r| ensures r[i] <= last {
      assert r[i] in multiset(r);
      assert r[i] == x || r[i] in multiset(s);
    }
  }

  function Sort(s: seq<uint32>): seq<uint32> {
    if s == [] then [] else Insert(Sort(s[..|s| - 1]), s[|s| - 1])
  }

  lemma {:induction false} SortSorts(s: seq<uint32>)
    ensures Sorted(Sort(s)) && multiset(Sort(s)) == multiset(s)
  {
    if s != [] {
      SortSorts(s[..|s| - 1]);
      InsertSorted(Sort(s[..|s| - 1]), s[|s| - 1]);
      InsertAdds(Sort(s[..|s| - 1]), s[|s| - 1]);
      assert s == s[..|s| - 1] + [s[|s| - 1]];
    }
  }

  // ---------- the virtual nodes of a ring ----------

  /** The first `r` virtual node hashes of a node. */
  function Vnodes(h: HashFn, r: nat, id: NodeId): (s: seq<uint32>)
    ensures |s| == r && forall i :: 0 <= i < r ==> s[i] == VHash(h, id, i)
  {
    if r == 0 then [] else Vnodes(h, r - 1, id) + [VHash(h, id, r - 1)]
  }

  function AllVnodes(h: HashFn, r: nat, order: seq<NodeId>): seq<uint32> {
    if order == [] then [] else AllVnodes(h, r, order[..|order| - 1]) + Vnodes(h, r, order[|order| - 1])
  }

  /** The nodes not yet chosen that have a virtual node at `x`. */
  ghost function Waiting(h: HashFn, r: nat, nodes: set<NodeId>, seen: set<NodeId>, x: uint32): set<NodeId> {
    set n | n in nodes && n !in seen && Owns(h, r, n, x)
  }

  lemma {:induction false} OwnsVnode(h: HashFn, r: nat, id: NodeId, x: uint32)
    ensures Owns(h, r, id, x) <==> x in Vnodes(h, r, id)
  {
  }

  /** A hash occurs on the ring at least as often as there are nodes that have it. */
  lemma {:induction false} WaitingBound(h: HashFn, r: nat, order: seq<NodeId>, x: uint32)
    requires Spread(order, SetOf(order))
    ensures |Waiting(h, r, SetOf(order), {}, x)| <= multiset(AllVnodes(h, r, order))[x]
  {
    if order == [] {
      assert Waiting(h, r, SetOf(order), {}, x) == {};
    } else {
      var init, id := order[..|order| - 1], order[|order| - 1];
      WaitingBound(h, r, init, x);
      assert SetOf(order) == SetOf(init) + {id};
      WaitingGrows(h, r, SetOf(init), id, x);
      VnodeCount(h, r, id, x);
    }
  }

  lemma {:induction false} WaitingGrows(h: HashFn, r: nat, nodes: set<NodeId>, id: NodeId, x: uint32)
    ensures |Waiting(h, r, nodes + {id}, {}, x)| <= |Waiting(h, r, nodes, {}, x)| + if Owns(h, r, id, x) then 1 else 0
  {
    var before, after := Waiting(h, r, nodes, {}, x), Waiting(h, r, nodes + {id}, {}, x);
    assert after == before + if Owns(h, r, id, x) then {id} else {};
  }

  lemma {:induction false} VnodeCount(h: HashFn, r: nat, id: NodeId, x: uint32)
    ensures multiset(Vnodes(h, r, id))[x] >= if Owns(h, r, id, x) then 1 else 0
  {
    OwnsVnode(h, r, id, x);
    assert x in Vnodes(h, r, id) <==> x in multiset(Vnodes(h, r, id));
  }

  /** The ring holds exactly the virtual nodes of its nodes. */
  lemma {:induction false} RingHashes(h: HashFn, r: nat, order: seq<NodeId>, x: uint32)
    ensures x in AllVnodes(h, r, order) <==> exists n :: n in order && Owns(h, r, n, x)
  {
    if order != [] {
      var init, id := order[..|order| - 1], order[|order| - 1];
      RingHashes(h, r, init, x);
      OwnsVnode(h, r, id, x);
      assert forall n :: n in order <==> n in init || n == id;
    }
  }

  /** The sorted array belongs to this set of nodes, visited in some order when it was built. */
  ghost predicate RingOf(h: HashFn, r: nat, keys: seq<uint32>, nodes: set<NodeId>, order: seq<NodeId>) {
    && SetOf(order) == nodes && Spread(order, nodes)
    && Sorted(keys) && multiset(keys) == multiset(AllVnodes(h, r, order))
  }

  lemma {:induction false} OnRing(h: HashFn, r: nat, keys: seq<uint32>, nodes: set<NodeId>, order: seq<NodeId>,
                                  x: uint32)
    requires RingOf(h, r, keys, nodes, order)
    ensures x in keys <==> exists n :: n in nodes && Owns(h, r, n, x)
  {
    RingHashes(h, r, order, x);
    assert x in keys <==> x in multiset(keys);
    assert x in AllVnodes(h, r, order) <==> x in multiset(AllVnodes(h, r, order));
    assert forall n :: n in order <==> n in nodes;
  }

  lemma {:induction false} RingNotEmpty(h: HashFn, r: nat, keys: seq<uint32>, nodes: set<NodeId>, order: seq<NodeId>)
    requires RingOf(h, r, keys, nodes, order) && r > 0 && nodes != {}
    ensures keys != []
  {
    var n :| n in nodes;
    OnRing(h, r, keys, nodes, order, VHash(h, n, 0));
    assert Owns(h, r, n, VHash(h, n, 0));
  }

  /** The hash at the wrapped lower bound is the successor of the key's hash. */
  lemma {:induction false} LowerBoundIsSuccessor(h: HashFn, r: nat, keys: seq<uint32>, nodes: set<NodeId>,
                                                 order: seq<NodeId>, from: uint32, idx: nat)
    requires RingOf(h, r, keys, nodes, order) && keys != []
    requires IsLowerBound(keys, from, idx)
    ensures IsSuccessor(h, r, nodes, from, keys[Wrap(idx, |keys|)])
  {
    var t := keys[Wrap(idx, |keys|)];
    OnRing(h, r, keys, nodes, order, t);
    forall n, x: uint32 | n in nodes && Owns(h, r, n, x)
      ensures if t >= from then x < from || t <= x else t <= x < from
    {
      OnRing(h, r, keys, nodes, order, x);
      var i :| 0 <= i < |keys| && keys[i] == x;
    }
  }

  ghost predicate IsLowerBound(keys: seq<uint32>, from: uint32, idx: nat) {
    && idx <= |keys|
    && (forall i :: 0 <= i < idx ==> keys[i] < from)
    && forall i :: idx <= i < |keys| ==> keys[i] >= from
  }

  function Wrap(idx: nat, n: nat): nat { if idx >= n then 0 else idx }

  // ---------- the walk ----------

  /** The hash the walk sees after `t` steps from `start`. */
  function At(keys: seq<uint32>, start: nat, t: nat): uint32
    requires start < |keys| && t < |keys|
  {
    if start + t < |keys| then keys[start + t] else keys[start + t - |keys|]
  }

  /** The hashes still ahead of the walk after `t` steps. */
  function Ahead(keys: seq<uint32>, start: nat, t: nat): (s: seq<uint32>)
    requires start < |keys| && t <= |keys|
    ensures |s| == |keys| - t
    ensures forall i :: 0 <= i < |s| ==> s[i] == At(keys, start, t + i)
  {
    (keys[start..] + keys[..start])[t..]
  }

  lemma {:induction false} AheadStep(keys: seq<uint32>, start: nat, t: nat)
    requires start < |keys| && t < |keys|
    ensures multiset(Ahead(keys, start, t)) == multiset{At(keys, start, t)} + multiset(Ahead(keys, start, t + 1))
  {
    var s := Ahead(keys, start, t);
    assert s == [s[0]] + s[1..];
    assert s[1..] == Ahead(keys, start, t + 1);
  }

  lemma {:induction false} AheadAll(keys: seq<uint32>, start: nat)
    requires start < |keys|
    ensures multiset(Ahead(keys, start, 0)) == multiset(keys)
  {
    Split(keys, start);
    var turned := keys[start..] + keys[..start];
    assert turned[0..] == turned;
  }

  /** From the wrapped lower bound on, distances never shrink during one sweep. */
  lemma {:induction false} DistancesGrow(keys: seq<uint32>, from: uint32, idx: nat, t: nat, u: nat)
    requires Sorted(keys) && keys != [] && IsLowerBound(keys, from, idx) && t <= u < |keys|
    ensures var start := Wrap(idx, |keys|); Dist(from, At(keys, start, t)) <= Dist(from, At(keys, start, u))
  {
  }

  /** What the walk knows after `t` steps: the nodes not chosen yet are covered by the hashes still
      ahead, and the chosen ones are the nearest, in order. */
  ghost predicate Walked(h: HashFn, r: nat, keys: seq<uint32>, nodes: set<NodeId>, from: uint32, idx: nat, t: nat,
                         ids: seq<NodeId>)
    requires r > 0 && keys != []
  {
    var start := Wrap(idx, |keys|);
    && t <= |keys| && Spread(ids, nodes) && ByDistance(h, r, from, ids)
    && (forall x :: |Waiting(h, r, nodes, SetOf(ids), x)| <= multiset(Ahead(keys, start, t))[x])
    && (t > 0 ==> forall i :: 0 <= i < |ids| ==> NodeDist(h, r, ids[i], from) <= Dist(from, At(keys, start, t - 1)))
    && (t == 0 ==> ids == [])
    && (t > 0 ==> ids != [])
  }

  lemma {:induction false} WalkStarts(h: HashFn, r: nat, keys: seq<uint32>, nodes: set<NodeId>, order: seq<NodeId>,
                                      from: uint32, idx: nat)
    requires r > 0 && RingOf(h, r, keys, nodes, order) && keys != [] && IsLowerBound(keys, from, idx)
    ensures Walked(h, r, keys, nodes, from, idx, 0, [])
  {
    AheadAll(keys, Wrap(idx, |keys|));
    forall x ensures |Waiting(h, r, nodes, SetOf([]), x)| <= multiset(keys)[x] {
      assert SetOf([]) == {};
      WaitingBound(h, r, order, x);
    }
  }

  /** A node not chosen yet has its nearest virtual node still ahead. */
  lemma {:induction false} StillAhead(h: HashFn, r: nat, keys: seq<uint32>, nodes: set<NodeId>, from: uint32,
                                      idx: nat, t: nat, ids: seq<NodeId>, m: NodeId)
    requires r > 0 && keys != [] && Sorted(keys) && IsLowerBound(keys, from, idx)
    requires Walked(h, r, keys, nodes, from, idx, t, ids) && m in nodes && m !in ids
    ensures t < |keys| && Dist(from, At(keys, Wrap(idx, |keys|), t)) <= NodeDist(h, r, m, from)
  {
    hide NodeDist, Ahead, Dist;
    var start := Wrap(idx, |keys|);
    var x := NodeDistIsLeast(h, r, m, from);
    assert m in Waiting(h, r, nodes, SetOf(ids), x);
    assert |Waiting(h, r, nodes, SetOf(ids), x)| >= 1;
    assert x in multiset(Ahead(keys, start, t));
    var i :| 0 <= i < |Ahead(keys, start, t)| && Ahead(keys, start, t)[i] == x;
    DistancesGrow(keys, from, idx, t, t + i);
  }

  /** One step that finds a node. */
  lemma {:induction false} StepFinds(h: HashFn, r: nat, keys: seq<uint32>, nodes: set<NodeId>, from: uint32, idx: nat,
                                     t: nat, ids: seq<NodeId>, p: NodeId)
    requires r > 0 && keys != [] && Sorted(keys) && IsLowerBound(keys, from, idx) && t < |keys|
    requires Walked(h, r, keys, nodes, from, idx, t, ids)
    requires p in Waiting(h, r, nodes, SetOf(ids), At(keys, Wrap(idx, |keys|), t))
    ensures Walked(h, r, keys, nodes, from, idx, t + 1, ids + [p])
  {
    hide NodeDist, Ahead;
    var start := Wrap(idx, |keys|);
    var x := NodeDistIsLeast(h, r, p, from);
    assert p !in ids;
    StillAhead(h, r, keys, nodes, from, idx, t, ids, p);
    if t > 0 { DistancesGrow(keys, from, idx, t - 1, t); }
    AheadStep(keys, start, t);
    assert SetOf(ids + [p]) == SetOf(ids) + {p};
    forall y ensures |Waiting(h, r, nodes, SetOf(ids + [p]), y)| <= multiset(Ahead(keys, start, t + 1))[y] {
      OneFewer(h, r, nodes, SetOf(ids), p, y);
      assert |Waiting(h, r, nodes, SetOf(ids), y)| <= multiset(Ahead(keys, start, t))[y];
    }
  }

  lemma {:induction false} OneFewer(h: HashFn, r: nat, nodes: set<NodeId>, seen: set<NodeId>, p: NodeId, y: uint32)
    ensures |Waiting(h, r, nodes, seen + {p}, y)| ==
      |Waiting(h, r, nodes, seen, y)| - if p in Waiting(h, r, nodes, seen, y) then 1 else 0
  {
    assert Waiting(h, r, nodes, seen + {p}, y) == Waiting(h, r, nodes, seen, y) - {p};
  }

  /** One step at a hash all of whose nodes are already chosen. */
  lemma {:induction false} StepPasses(h: HashFn, r: nat, keys: seq<uint32>, nodes: set<NodeId>, from: uint32,
                                      idx: nat, t: nat, ids: seq<NodeId>)
    requires r > 0 && keys != [] && Sorted(keys) && IsLowerBound(keys, from, idx) && t < |keys|
    requires Walked(h, r, keys, nodes, from, idx, t, ids) && ids != []
    requires Waiting(h, r, nodes, SetOf(ids), At(keys, Wrap(idx, |keys|), t)) == {}
    ensures Walked(h, r, keys, nodes, from, idx, t + 1, ids)
  {
    var start := Wrap(idx, |keys|);
    if t > 0 { DistancesGrow(keys, from, idx, t - 1, t); }
    AheadStep(keys, start, t);
    forall y ensures |Waiting(h, r, nodes, SetOf(ids), y)| <= multiset(Ahead(keys, start, t + 1))[y] {
      assert |Waiting(h, r, nodes, SetOf(ids), y)| <= multiset(Ahead(keys, start, t))[y];
    }
  }

  /** Once enough nodes are chosen they are the nearest ones; before that the sweep is not over. */
  lemma {:induction false} WalkDone(h: HashFn, r: nat, keys: seq<uint32>, nodes: set<NodeId>, from: uint32, idx: nat,
                                    t: nat, ids: seq<NodeId>, n: nat)
    requires r > 0 && keys != [] && Sorted(keys) && IsLowerBound(keys, from, idx)
    requires Walked(h, r, keys, nodes, from, idx, t, ids)
    ensures |ids| < |nodes| ==> t < |keys|
    ensures |ids| == Min(n, |nodes|) ==> IsNearest(h, r, nodes, from, n, ids)
  {
    SpreadSize(ids, nodes);
    if |ids| < |nodes| {
      SubsetSize(nodes, SetOf(ids));
      var m :| m in nodes && m !in SetOf(ids);
      StillAhead(h, r, keys, nodes, from, idx, t, ids, m);
    }
    forall i, m | 0 <= i < |ids| && m in nodes && m !in ids
      ensures NodeDist(h, r, ids[i], from) <= NodeDist(h, r, m, from)
    {
      StillAhead(h, r, keys, nodes, from, idx, t, ids, m);
      if t > 0 { DistancesGrow(keys, from, idx, t - 1, t); }
    }
  }

  lemma {:induction false} SubsetSize(a: set<NodeId>, b: set<NodeId>)
    ensures a <= b ==> |a| <= |b|
  {
    if a <= b && a != {} {
      var x :| x in a;
      SubsetSize(a - {x}, b - {x});
    }
  }

  class HashRing {
    var nodes: map<NodeId, NodeInfo>
    var sortedKeys: seq<uint32>
    const replicas: nat
    const hash: HashFn
    /** The order in which the last rebuild visited the nodes. */
    ghost var order: seq<NodeId>

    ghost predicate Valid()
      reads this
    {
      && replicas > 0 && RingOf(hash, replicas, sortedKeys, nodes.Keys, order)
      && forall id :: id in nodes ==> nodes[id].nodeID == id
    }

    constructor (replicas: int, hash: HashFn)
      ensures Valid() && nodes == map[] && this.hash == hash
      ensures this.replicas == if replicas <= 0 then 150 else replicas
    {
      this.replicas := if replicas <= 0 then DEFAULT_REPLICAS else replicas;
      this.hash := hash;
      nodes, sortedKeys, order := map[], [], [];
    }

    method AddNode(nodeID: NodeId, address: Bytes, raftAddr: Bytes)
      requires Valid()
      modifies this
      ensures Valid()
      ensures nodes == if nodeID in old(nodes) then old(nodes)
                       else old(nodes)[nodeID := NodeInfo(nodeID, address, raftAddr, false)]
    {
      if nodeID in nodes {
        return;
      }
      nodes := nodes[nodeID := NodeInfo(nodeID, address, raftAddr, false)];
      RebuildSortedKeys();
    }

    method RemoveNode(nodeID: NodeId)
      requires Valid()
      modifies this
      ensures Valid() && nodes == old(nodes) - {nodeID}
    {
      if nodeID !in nodes {
        assert nodes - {nodeID} == nodes;
        return;
      }
      nodes := nodes - {nodeID};
      RebuildSortedKeys();
    }

    /** Hashes the virtual nodes of all nodes, in whatever order they come, and sorts them. */
    method RebuildSortedKeys()
      modifies this`sortedKeys, this`order
      ensures RingOf(hash, replicas, sortedKeys, nodes.Keys, order)
    {
      hide AllVnodes, Vnodes, Sort, Sorted;
      var hashes: seq<uint32> := [];
      ghost var visited: seq<NodeId> := [];
      var rest := nodes.Keys;
      NothingVisited(hash, replicas, nodes.Keys);
      while rest != {}
        invariant rest <= nodes.Keys && SetOf(visited) == nodes.Keys - rest && Spread(visited, nodes.Keys)
        invariant hashes == AllVnodes(hash, replicas, visited)
        decreases |rest|
      {
        var nodeID :| nodeID in rest;
        var more := HashVnodes(nodeID);
        Visit(hash, replicas, visited, nodeID, nodes.Keys);
        hashes := hashes + more;
        visited := visited + [nodeID];
        rest := rest - {nodeID};
      }
      sortedKeys := Sort(hashes);
      SortSorts(hashes);
      order := visited;
    }

    method HashVnodes(nodeID: NodeId) returns (hashes: seq<uint32>)
      ensures hashes == Vnodes(hash, replicas, nodeID)
    {
      hashes := [];
      for i := 0 to replicas
        invariant hashes == Vnodes(hash, i, nodeID)
      {
        hashes := hashes + [VHash(hash, nodeID, i)];
      }
    }

    /** Lower bound by binary search. */
    method Search(from: uint32) returns (idx: nat)
      requires Sorted(sortedKeys)
      ensures IsLowerBound(sortedKeys, from, idx)
    {
      var lo, hi := 0, |sortedKeys|;
      while lo < hi
        invariant 0 <= lo <= hi <= |sortedKeys|
        invariant forall i :: 0 <= i < lo ==> sortedKeys[i] < from
        invariant forall i :: hi <= i < |sortedKeys| ==> sortedKeys[i] >= from
      {
        var mid := (lo + hi) / 2;
        if sortedKeys[mid] >= from {
          hi := mid;
        } else {
          lo := mid + 1;
        }
      }
      idx := lo;
    }

    /** Scans the nodes, in any order, for one outside `seen` with a virtual node at `target`. */
    method FindNode(target: uint32, seen: set<NodeId>) returns (found: Option<NodeId>)
      ensures found.Some? ==> found.value in nodes && found.value in Waiting(hash, replicas, nodes.Keys, seen, target)
      ensures found.None? ==> Waiting(hash, replicas, nodes.Keys, seen, target) == {}
    {
      var rest := nodes.Keys;
      while rest != {}
        invariant rest <= nodes.Keys
        invariant Waiting(hash, replicas, nodes.Keys, seen, target) <= rest
        decreases |rest|
      {
        var nodeID :| nodeID in rest;
        if nodeID !in seen {
          for i := 0 to replicas
            invariant forall k :: 0 <= k < i ==> VHash(hash, nodeID, k) != target
          {
            if VHash(hash, nodeID, i) == target {
              return Some(nodeID);
            }
          }
        }
        rest := rest - {nodeID};
      }
      found := None;
    }

    /** The node for a key: one of its owners, all of which have the successor hash. An empty ring
        is the only error, and the scan never fails. */
    method GetNode(key: Bytes) returns (node: Option<NodeInfo>)
      requires Valid()
      ensures node == None <==> nodes == map[]
      ensures node.Some? ==>
        && node.value.nodeID in Owners(hash, replicas, nodes.Keys, hash(key))
        && node.value == nodes[node.value.nodeID]
        && HasNearestLabel(hash, replicas, nodes.Keys, hash(key), node.value.nodeID)
    {
      hide HasNearestLabel;
      node := None;
      if |nodes| == 0 {
        return;
      }
      var keyHash := hash(key);
      RingNotEmpty(hash, replicas, sortedKeys, nodes.Keys, order);
      var idx := Search(keyHash);
      LowerBoundIsSuccessor(hash, replicas, sortedKeys, nodes.Keys, order, keyHash, idx);
      if idx >= |sortedKeys| {
        idx := 0;
      }
      var targetHash := sortedKeys[idx];
      var found := FindNode(targetHash, {});
      ghost var owner :| owner in nodes.Keys && Owns(hash, replicas, owner, targetHash);
      assert owner in Waiting(hash, replicas, nodes.Keys, {}, targetHash);
      OwnersHaveSuccessor(hash, replicas, nodes.Keys, keyHash, targetHash, found.value);
      OwnersExact(hash, replicas, nodes.Keys, keyHash, found.value);
      node := Some(nodes[found.value]);
    }

    /** The replicas of a key: the nearest nodes clockwise, nearest first, as many as asked for and
        present. Holds for any n, collisions included, and takes at most one sweep. */
    method GetReplicas(key: Bytes, n: nat) returns (infos: Option<seq<NodeInfo>>, ghost ids: seq<NodeId>)
      requires Valid()
      ensures infos == None <==> nodes == map[]
      ensures infos.Some? ==>
        && IsNearest(hash, replicas, nodes.Keys, hash(key), n, ids)
        && |infos.value| == |ids| == (if n < |nodes| then n else |nodes|)
        && forall i :: 0 <= i < |ids| ==> ids[i] in nodes && infos.value[i] == nodes[ids[i]]
    {
      hide Sweep, Walked, IsNearest, RingOf, Sorted, NodeDist, Waiting, IsLowerBound, At, Spread, SetOf, Owns, Owners;
      hide HasNearestLabel, Unlisted, Dist, Ahead, AllVnodes, ByDistance, Chosen, Turn;
      infos, ids := None, [];
      if |nodes| == 0 {
        return;
      }
      var want := if n > |nodes| then |nodes| else n;
      var keyHash := hash(key);
      RingFacts(hash, replicas, sortedKeys, nodes.Keys, order);
      var bound := Search(keyHash);
      var idx := if bound >= |sortedKeys| then 0 else bound;
      ghost var start, t := idx, 0;
      StartSweep(hash, replicas, sortedKeys, nodes.Keys, order, keyHash, bound);
      var chosen: seq<NodeInfo> := [];
      NoneChosen(nodes);
      FirstTurn(start, |sortedKeys|);
      var seen: set<NodeId> := SetOf([]);
      while |chosen| < want
        invariant |chosen| == |ids| <= want && seen == SetOf(ids) && Chosen(chosen, ids, nodes)
        invariant Walked(hash, replicas, sortedKeys, nodes.Keys, keyHash, bound, t, ids)
        invariant idx < |sortedKeys| && idx == Turn(start, t, |sortedKeys|)
        decreases |sortedKeys| - t
      {
        SweepGoesOn(hash, replicas, sortedKeys, nodes.Keys, order, keyHash, bound, t, ids);
        Position(sortedKeys, start, t);
        var targetHash := sortedKeys[idx];
        var found := FindNode(targetHash, seen);
        SweepStep(hash, replicas, sortedKeys, nodes.Keys, order, keyHash, bound, t, ids, found);
        if found.Some? {
          ChooseOne(chosen, ids, nodes, found.value);
          chosen := chosen + [nodes[found.value]];
          seen := seen + {found.value};
          ids := ids + [found.value];
        }
        NextTurn(start, t, |sortedKeys|);
        idx := (idx + 1) % |sortedKeys|;
        t := t + 1;
        // The guard against a fruitless sweep fires only while no replica is chosen: never.
        if |chosen| == 0 {
          assert false;
        }
      }
      SweepEnds(hash, replicas, sortedKeys, nodes.Keys, order, keyHash, bound, t, ids, n);
      ChosenNodes(chosen, ids, nodes);
      infos := Some(chosen);
    }
  }

  ghost predicate Chosen(infos: seq<NodeInfo>, ids: seq<NodeId>, nodes: map<NodeId, NodeInfo>) {
    |infos| == |ids| && forall i :: 0 <= i < |ids| ==> ids[i] in nodes && infos[i] == nodes[ids[i]]
  }

  lemma {:induction false} NoneChosen(nodes: map<NodeId, NodeInfo>)
    ensures Chosen([], [], nodes)
  {
  }

  lemma {:induction false} ChooseOne(infos: seq<NodeInfo>, ids: seq<NodeId>, nodes: map<NodeId, NodeInfo>, id: NodeId)
    requires Chosen(infos, ids, nodes) && id in nodes
    ensures Chosen(infos + [nodes[id]], ids + [id], nodes)
  {
  }

  lemma {:induction false} ChosenNodes(infos: seq<NodeInfo>, ids: seq<NodeId>, nodes: map<NodeId, NodeInfo>)
    requires Chosen(infos, ids, nodes)
    ensures |infos| == |ids| && forall i :: 0 <= i < |ids| ==> ids[i] in nodes && infos[i] == nodes[ids[i]]
  {
  }

  /** A walk over this ring for a key with hash `from`. */
  ghost predicate Sweep(h: HashFn, r: nat, keys: seq<uint32>, nodes: set<NodeId>, order: seq<NodeId>, from: uint32,
                        idx: nat)
  {
    r > 0 && RingOf(h, r, keys, nodes, order) && keys != [] && IsLowerBound(keys, from, idx)
  }

  lemma {:induction false} StartSweep(h: HashFn, r: nat, keys: seq<uint32>, nodes: set<NodeId>, order: seq<NodeId>,
                                      from: uint32, idx: nat)
    requires r > 0 && RingOf(h, r, keys, nodes, order) && keys != [] && IsLowerBound(keys, from, idx)
    ensures Sweep(h, r, keys, nodes, order, from, idx) && Walked(h, r, keys, nodes, from, idx, 0, [])
  {
    WalkStarts(h, r, keys, nodes, order, from, idx);
  }

  lemma {:induction false} SweepGoesOn(h: HashFn, r: nat, keys: seq<uint32>, nodes: set<NodeId>, order: seq<NodeId>,
                                       from: uint32, idx: nat, t: nat, ids: seq<NodeId>)
    requires Sweep(h, r, keys, nodes, order, from, idx) && Walked(h, r, keys, nodes, from, idx, t, ids)
    ensures |ids| < |nodes| ==> t < |keys|
  {
    WalkDone(h, r, keys, nodes, from, idx, t, ids, 0);
  }

  /** One step of the sweep: whatever node the scan finds at this hash is chosen next, and the
      first step always finds one. */
  lemma {:induction false} SweepStep(h: HashFn, r: nat, keys: seq<uint32>, nodes: set<NodeId>, order: seq<NodeId>,
                                     from: uint32, idx: nat, t: nat, ids: seq<NodeId>, found: Option<NodeId>)
    requires Sweep(h, r, keys, nodes, order, from, idx) && Walked(h, r, keys, nodes, from, idx, t, ids) && t < |keys|
    requires var here := Waiting(h, r, nodes, SetOf(ids), At(keys, Wrap(idx, |keys|), t));
      if found.Some? then found.value in here else here == {}
    ensures var next := if found.Some? then ids + [found.value] else ids;
      && Walked(h, r, keys, nodes, from, idx, t + 1, next) && next != []
      && SetOf(next) == SetOf(ids) + if found.Some? then {found.value} else {}
  {
    hide Walked, Waiting, At, NodeDist;
    FirstStepFinds(h, r, keys, nodes, order, from, idx, t, ids);
    if found.Some? {
      StepFinds(h, r, keys, nodes, from, idx, t, ids, found.value);
    } else {
      StepPasses(h, r, keys, nodes, from, idx, t, ids);
    }
  }

  lemma {:induction false} SweepEnds(h: HashFn, r: nat, keys: seq<uint32>, nodes: set<NodeId>, order: seq<NodeId>,
                                     from: uint32, idx: nat, t: nat, ids: seq<NodeId>, n: nat)
    requires Sweep(h, r, keys, nodes, order, from, idx) && Walked(h, r, keys, nodes, from, idx, t, ids)
    requires |ids| == Min(n, |nodes|)
    ensures IsNearest(h, r, nodes, from, n, ids)
  {
    WalkDone(h, r, keys, nodes, from, idx, t, ids, n);
  }

  lemma {:induction false} RingFacts(h: HashFn, r: nat, keys: seq<uint32>, nodes: set<NodeId>, order: seq<NodeId>)
    requires RingOf(h, r, keys, nodes, order) && r > 0 && nodes != {}
    ensures keys != [] && Sorted(keys)
  {
    RingNotEmpty(h, r, keys, nodes, order);
  }

  /** Where a walk that began at `start` is after `t` steps. */
  function Turn(start: nat, t: nat, n: nat): int { if start + t < n then start + t else start + t - n }

  lemma {:induction false} Position(keys: seq<uint32>, start: nat, t: nat)
    requires start < |keys| && t < |keys|
    ensures 0 <= Turn(start, t, |keys|) < |keys| && keys[Turn(start, t, |keys|)] == At(keys, start, t)
  {
  }

  lemma {:induction false} FirstTurn(start: nat, n: nat)
    requires start < n
    ensures Turn(start, 0, n) == start
  {
  }

  lemma {:induction false} NextTurn(start: nat, t: nat, n: nat)
    requires start < n && t < n
    ensures (Turn(start, t, n) + 1) % n == Turn(start, t + 1, n)
  {
    var next := Turn(start, t, n) + 1;
    if next == n { assert next % n == 0; } else { assert next % n == next; }
  }

  lemma {:induction false} NothingVisited(h: HashFn, r: nat, nodes: set<NodeId>)
    ensures AllVnodes(h, r, []) == [] && SetOf([]) == {} && Spread([], nodes)
  {
  }

  lemma {:induction false} Visit(h: HashFn, r: nat, visited: seq<NodeId>, id: NodeId, nodes: set<NodeId>)
    requires Spread(visited, nodes) && id in nodes && id !in SetOf(visited)
    ensures Spread(visited + [id], nodes) && SetOf(visited + [id]) == SetOf(visited) + {id}
    ensures AllVnodes(h, r, visited + [id]) == AllVnodes(h, r, visited) + Vnodes(h, r, id)
  {
    assert (visited + [id])[..|visited|] == visited;
    assert forall i :: 0 <= i < |visited| ==> visited[i] in SetOf(visited);
  }

  /** The first hash of the walk always yields a node. */
  lemma {:induction false} FirstStepFinds(h: HashFn, r: nat, keys: seq<uint32>, nodes: set<NodeId>,
                                          order: seq<NodeId>, from: uint32, idx: nat, t: nat, ids: seq<NodeId>)
    requires r > 0 && RingOf(h, r, keys, nodes, order) && keys != [] && t < |keys|
    requires Walked(h, r, keys, nodes, from, idx, t, ids)
    ensures ids == [] ==> Waiting(h, r, nodes, SetOf(ids), At(keys, Wrap(idx, |keys|), t)) != {}
  {
    if ids == [] {
      var here := At(keys, Wrap(idx, |keys|), t);
      OnRing(h, r, keys, nodes, order, here);
      var n :| n in nodes && Owns(h, r, n, here);
      assert n in Waiting(h, r, nodes, SetOf(ids), here);
    }
  }
}
