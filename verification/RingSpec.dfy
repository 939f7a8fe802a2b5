/** Consistent hashing without the data structure: which nodes a key may go to is decided by the
    clockwise distance from the key's hash to each node's nearest virtual node. */
module RingSpec {
  import opened Bytes

  type NodeId = Bytes
  type HashFn = Bytes -> uint32

  // ---------- virtual nodes ----------

  /** The label `nodeID:replica` that is hashed for a virtual node. */
  function Label(id: NodeId, replica: nat): Bytes { id + [58] + Decimal(replica) }

  /** Labels are unambiguous, for node IDs that contain colons and digits too. */
  lemma {:induction false} LabelInjective(a: NodeId, i: nat, b: NodeId, j: nat)
    requires Label(a, i) == Label(b, j)
    ensures a == b && i == j
  {
    var s, t := Label(a, i), Label(b, j);
    var m, n := |s| - |Decimal(i)| - 1, |t| - |Decimal(j)| - 1;
    assert s[m] == 58 && t[n] == 58;
    assert forall k :: m < k < |s| ==> s[k] == Decimal(i)[k - m - 1];
    assert forall k :: n < k < |t| ==> t[k] == Decimal(j)[k - n - 1];
    assert m == n;
    assert a == s[..m] == t[..n] == b;
    assert Decimal(i) == s[m + 1..] == t[n + 1..] == Decimal(j);
    DecimalInjective(i, j);
  }

  function VHash(h: HashFn, id: NodeId, i: nat): uint32 { h(Label(id, i)) }

  /** The node has a virtual node at `x`. */
  ghost predicate Owns(h: HashFn, r: nat, id: NodeId, x: uint32) {
    exists i :: 0 <= i < r && VHash(h, id, i) == x
  }

  /** The virtual nodes of a node are the hashes of its ID, a colon and the digits of each number
      below `r`. */
  lemma {:induction false} OwnsExact(h: HashFn, r: nat, id: NodeId, x: uint32)
    ensures Owns(h, r, id, x) <==> exists i: nat, d :: i < r && IsNumeral(d, i) && h(id + [58] + d) == x
  {
    if Owns(h, r, id, x) {
      var i :| 0 <= i < r && VHash(h, id, i) == x;
      DecimalExact(i, Decimal(i));
    }
    if i: nat, d :| i < r && IsNumeral(d, i) && h(id + [58] + d) == x {
      DecimalExact(i, d);
      assert VHash(h, id, i) == x;
    }
  }

  /** No hash belongs to virtual nodes of two different nodes. */
  ghost predicate NoCollisions(h: HashFn, r: nat, nodes: set<NodeId>) {
    forall a, b, x: uint32 :: a in nodes && b in nodes && Owns(h, r, a, x) && Owns(h, r, b, x) ==> a == b
  }

  /** In terms of the labels: equal hashes belong to labels of the same node. */
  lemma {:induction false} NoCollisionsExact(h: HashFn, r: nat, nodes: set<NodeId>)
    ensures NoCollisions(h, r, nodes) <==>
      forall a, b, i: nat, j: nat, d, e ::
        a in nodes && b in nodes && i < r && j < r && IsNumeral(d, i) && IsNumeral(e, j) ==>
        h(a + [58] + d) == h(b + [58] + e) ==> a == b
  {
    hide Owns, IsNumeral;
    forall a, b, i: nat, j: nat, d, e |
        a in nodes && b in nodes && i < r && j < r && IsNumeral(d, i) && IsNumeral(e, j) &&
        h(a + [58] + d) == h(b + [58] + e)
      ensures Owns(h, r, a, h(a + [58] + d)) && Owns(h, r, b, h(a + [58] + d))
    {
      OwnsExact(h, r, a, h(a + [58] + d));
      OwnsExact(h, r, b, h(b + [58] + e));
    }
    forall a, b, x: uint32 | a in nodes && b in nodes && Owns(h, r, a, x) && Owns(h, r, b, x)
      ensures exists i: nat, j: nat, d, e ::
        i < r && j < r && IsNumeral(d, i) && IsNumeral(e, j) && h(a + [58] + d) == h(b + [58] + e)
    {
      OwnsExact(h, r, a, x);
      OwnsExact(h, r, b, x);
    }
  }

  // ---------- distances ----------

  /** How far clockwise `x` is from `from` on the 32-bit ring. */
  function Dist(from: uint32, x: uint32): nat { if x >= from then x - from else x + U32 - from }

  lemma {:induction false} DistExact(from: uint32, x: uint32)
    ensures Dist(from, x) == (x - from) % 0x1_0000_0000
  {
  }

  lemma {:induction false} DistInjective(from: uint32, x: uint32, y: uint32)
    requires Dist(from, x) == Dist(from, y)
    ensures x == y
  {
  }

  /** The distance to the node's nearest virtual node. */
  function NodeDist(h: HashFn, r: nat, id: NodeId, from: uint32): nat
    requires r > 0
  {
    var d := Dist(from, VHash(h, id, r - 1));
    if r == 1 then d
    else
      var rest := NodeDist(h, r - 1, id, from);
      if d < rest then d else rest
  }

  lemma {:induction false} NodeDistIsLeast(h: HashFn, r: nat, id: NodeId, from: uint32) returns (x: uint32)
    requires r > 0
    ensures Owns(h, r, id, x) && Dist(from, x) == NodeDist(h, r, id, from)
    ensures forall y: uint32 :: Owns(h, r, id, y) ==> NodeDist(h, r, id, from) <= Dist(from, y)
  {
    x := VHash(h, id, r - 1);
    if r > 1 {
      var x' := NodeDistIsLeast(h, r - 1, id, from);
      forall y: uint32 | Owns(h, r, id, y) ensures y == x || Owns(h, r - 1, id, y) {
        var i :| 0 <= i < r && VHash(h, id, i) == y;
      }
      if Dist(from, x) >= Dist(from, x') {
        x := x';
      }
    }
  }

  /** The nodes a key with hash `from` may be routed to: those nearest clockwise. More than one
      only when virtual nodes of different nodes collide. */
  ghost function Owners(h: HashFn, r: nat, nodes: set<NodeId>, from: uint32): set<NodeId>
    requires r > 0
  {
    set n | n in nodes && forall m :: m in nodes ==> NodeDist(h, r, n, from) <= NodeDist(h, r, m, from)
  }

  /** `t` is the smallest hash on the ring that is at least `from`, or the smallest of all when
      there is none. */
  ghost predicate IsSuccessor(h: HashFn, r: nat, nodes: set<NodeId>, from: uint32, t: uint32) {
    && (exists n :: n in nodes && Owns(h, r, n, t))
    && forall n, x: uint32 :: n in nodes && Owns(h, r, n, x) ==> if t >= from then x < from || t <= x else t <= x < from
  }

  /** The two descriptions agree: a node is an owner exactly if it has the successor hash. */
  lemma {:induction false} OwnersHaveSuccessor(h: HashFn, r: nat, nodes: set<NodeId>, from: uint32, t: uint32,
                                               id: NodeId)
    requires r > 0 && IsSuccessor(h, r, nodes, from, t) && id in nodes
    ensures id in Owners(h, r, nodes, from) <==> Owns(h, r, id, t)
  {
    var o :| o in nodes && Owns(h, r, o, t);
    forall m | m in nodes ensures Dist(from, t) <= NodeDist(h, r, m, from) {
      var x := NodeDistIsLeast(h, r, m, from);
    }
    var x := NodeDistIsLeast(h, r, id, from);
    var y := NodeDistIsLeast(h, r, o, from);
    assert NodeDist(h, r, o, from) == Dist(from, t);
    if id in Owners(h, r, nodes, from) {
      assert NodeDist(h, r, id, from) <= NodeDist(h, r, o, from);
      DistInjective(from, x, t);
    }
  }

  /** One of the labels `id:i` is, by its hash, clockwise at least as near as all labels of `others`. */
  ghost predicate HasNearestLabel(h: HashFn, r: nat, others: set<NodeId>, from: uint32, id: NodeId) {
    exists i: nat, d ::
      && i < r && IsNumeral(d, i)
      && forall m, j: nat, e :: m in others && j < r && IsNumeral(e, j) ==>
           (h(id + [58] + d) - from) % 0x1_0000_0000 <= (h(m + [58] + e) - from) % 0x1_0000_0000
  }

  /** The owners of a key are the nodes with a label nearest to it among all labels of all nodes. */
  lemma {:induction false} OwnersExact(h: HashFn, r: nat, nodes: set<NodeId>, from: uint32, id: NodeId)
    requires r > 0
    ensures id in Owners(h, r, nodes, from) <==> id in nodes && HasNearestLabel(h, r, nodes, from, id)
  {
    hide NodeDist, HasNearestLabel;
    NearestOf(h, r, nodes, from, id);
  }

  /** The distance to a node is that to its nearest label. */
  lemma {:induction false} NearestLabel(h: HashFn, r: nat, id: NodeId, from: uint32) returns (i: nat, d: Bytes)
    requires r > 0
    ensures i < r && IsNumeral(d, i) && NodeDist(h, r, id, from) == (h(id + [58] + d) - from) % 0x1_0000_0000
  {
    var x := NodeDistIsLeast(h, r, id, from);
    OwnsExact(h, r, id, x);
    i, d :| i < r && IsNumeral(d, i) && h(id + [58] + d) == x;
    DistExact(from, x);
  }

  lemma {:induction false} LabelNotNearer(h: HashFn, r: nat, id: NodeId, from: uint32, i: nat, d: Bytes)
    requires i < r && IsNumeral(d, i)
    ensures NodeDist(h, r, id, from) <= (h(id + [58] + d) - from) % 0x1_0000_0000
  {
    var x := NodeDistIsLeast(h, r, id, from);
    OwnsExact(h, r, id, h(id + [58] + d));
    DistExact(from, h(id + [58] + d));
  }

  lemma {:induction false} Only(s: set<NodeId>, x: NodeId)
    ensures s - {x} == {} && s != {} ==> s == {x}
  {
    if s - {x} == {} && s != {} {
      var y :| y in s;
      assert forall z :: z in s ==> z == x || z in s - {x};
    }
  }

  lemma {:induction false} OwnersExist(h: HashFn, r: nat, nodes: set<NodeId>, from: uint32) returns (n: NodeId)
    requires r > 0 && nodes != {}
    ensures n in Owners(h, r, nodes, from)
  {
    n :| n in nodes;
    Only(nodes, n);
    if nodes - {n} != {} {
      var o := OwnersExist(h, r, nodes - {n}, from);
      assert forall m :: m in nodes ==> m == n || m in nodes - {n};
      if NodeDist(h, r, o, from) < NodeDist(h, r, n, from) {
        n := o;
      }
    }
  }

  lemma {:induction false} DistinctDistances(h: HashFn, r: nat, nodes: set<NodeId>, from: uint32, a: NodeId, b: NodeId)
    requires r > 0 && NoCollisions(h, r, nodes) && a in nodes && b in nodes
    requires NodeDist(h, r, a, from) == NodeDist(h, r, b, from)
    ensures a == b
  {
    var x := NodeDistIsLeast(h, r, a, from);
    var y := NodeDistIsLeast(h, r, b, from);
    DistInjective(from, x, y);
  }

  /** Without collisions every key has exactly one owner. */
  lemma {:induction false} SingleOwner(h: HashFn, r: nat, nodes: set<NodeId>, from: uint32) returns (n: NodeId)
    requires r > 0 && nodes != {} && NoCollisions(h, r, nodes)
    ensures Owners(h, r, nodes, from) == {n}
  {
    n := OwnersExist(h, r, nodes, from);
    forall m | m in Owners(h, r, nodes, from) ensures m == n {
      DistinctDistances(h, r, nodes, from, m, n);
    }
  }

  // ---------- minimal disruption ----------

  /** Adding a node, exactly: with `t` the old successor of the key's hash, the new node takes the
      key over if one of its virtual nodes lies strictly before `t` on the way clockwise, joins the
      owners if it has one at `t` itself, and otherwise changes nothing. */
  lemma {:induction false} AddDisruption(h: HashFn, r: nat, nodes: set<NodeId>, x: NodeId, from: uint32, t: uint32)
    requires r > 0 && x !in nodes && IsSuccessor(h, r, nodes, from, t)
    ensures var before, after := Owners(h, r, nodes, from), Owners(h, r, nodes + {x}, from);
      after == if exists y: uint32 :: Owns(h, r, x, y) && Dist(from, y) < Dist(from, t) then {x}
               else if Owns(h, r, x, t) then before + {x}
               else before
  {
    hide NodeDist;
    var before, after := Owners(h, r, nodes, from), Owners(h, r, nodes + {x}, from);
    var o :| o in nodes && Owns(h, r, o, t);
    OwnersHaveSuccessor(h, r, nodes, from, t, o);
    var z := NodeDistIsLeast(h, r, o, from);
    SuccessorOfOwner(h, r, nodes, from, t, o, z);
    var y := NodeDistIsLeast(h, r, x, from);
    assert NodeDist(h, r, o, from) == Dist(from, t);
    assert forall n :: n in before <==> n in nodes && NodeDist(h, r, n, from) == Dist(from, t);
    if Dist(from, y) < Dist(from, t) {
      assert after == {x};
    } else {
      assert forall n :: n in after <==> n in nodes + {x} && NodeDist(h, r, n, from) == Dist(from, t);
      if Owns(h, r, x, t) {
        assert NodeDist(h, r, x, from) == Dist(from, t);
      } else if Dist(from, y) == Dist(from, t) {
        DistInjective(from, y, t);
      }
    }
  }

  /** An owner's nearest virtual node is the successor. */
  lemma {:induction false} SuccessorOfOwner(h: HashFn, r: nat, nodes: set<NodeId>, from: uint32, t: uint32, o: NodeId,
                                            z: uint32)
    requires r > 0 && IsSuccessor(h, r, nodes, from, t) && o in nodes && Owns(h, r, o, t)
    requires Owns(h, r, o, z) && forall y: uint32 :: Owns(h, r, o, y) ==> Dist(from, z) <= Dist(from, y)
    ensures z == t
  {
    assert Dist(from, t) <= Dist(from, z);
    DistInjective(from, z, t);
  }

  /** Removing a node: unless it was a key's only owner, the key keeps exactly its other owners. */
  lemma {:induction false} RemoveDisruption(h: HashFn, r: nat, nodes: set<NodeId>, x: NodeId, from: uint32)
    requires r > 0 && Owners(h, r, nodes, from) != {x} && nodes != {}
    ensures Owners(h, r, nodes - {x}, from) == Owners(h, r, nodes, from) - {x}
  {
    var before, after := Owners(h, r, nodes, from), Owners(h, r, nodes - {x}, from);
    var any := OwnersExist(h, r, nodes, from);
    Only(before, x);
    var o :| o in before - {x};
    assert o in nodes - {x};
    forall n | n in after ensures n in before {
      assert NodeDist(h, r, n, from) <= NodeDist(h, r, o, from);
    }
  }

  // ---------- replicas ----------

  function Min(a: nat, b: nat): nat { if a < b then a else b }

  /** `ids` lists the n nearest nodes, nearest first; ties may be broken either way. */
  ghost predicate IsNearest(h: HashFn, r: nat, nodes: set<NodeId>, from: uint32, n: nat, ids: seq<NodeId>)
    requires r > 0
  {
    && |ids| == Min(n, |nodes|)
    && Spread(ids, nodes)
    && (forall i, j :: 0 <= i < j < |ids| ==> NodeDist(h, r, ids[i], from) <= NodeDist(h, r, ids[j], from))
    && forall i, m :: 0 <= i < |ids| && m in nodes && m !in ids ==>
         NodeDist(h, r, ids[i], from) <= NodeDist(h, r, m, from)
  }

  /** Distinct nodes of the ring. */
  predicate Spread(ids: seq<NodeId>, nodes: set<NodeId>) {
    && (forall i, j :: 0 <= i < j < |ids| ==> ids[i] != ids[j])
    && forall i :: 0 <= i < |ids| ==> ids[i] in nodes
  }

  function Unlisted(nodes: set<NodeId>, ids: seq<NodeId>): set<NodeId> { set m | m in nodes && m !in ids }

  function SetOf(ids: seq<NodeId>): set<NodeId> { set x | x in ids }

  lemma {:induction false} SpreadSize(ids: seq<NodeId>, nodes: set<NodeId>)
    requires Spread(ids, nodes)
    ensures |SetOf(ids)| == |ids| <= |nodes|
    ensures |ids| == |nodes| ==> SetOf(ids) == nodes
  {
    if ids == [] {
      assert SetOf(ids) == {};
    } else {
      var init, last := ids[..|ids| - 1], ids[|ids| - 1];
      assert SetOf(ids) == SetOf(init) + {last};
      SpreadSize(init, nodes - {last});
    }
  }

  /** A list of nearest nodes in terms of the labels: as many distinct nodes as asked for and
      present, each with a label at least as near as all labels of nodes not listed before it. */
  lemma {:induction false} NearestExact(h: HashFn, r: nat, nodes: set<NodeId>, from: uint32, n: nat, ids: seq<NodeId>)
    requires r > 0
    ensures IsNearest(h, r, nodes, from, n, ids) <==>
      && |ids| == (if n < |nodes| then n else |nodes|)
      && (forall i :: 0 <= i < |ids| ==> ids[i] in nodes && ids[i] !in ids[..i])
      && forall i :: 0 <= i < |ids| ==> HasNearestLabel(h, r, Unlisted(nodes, ids[..i]), from, ids[i])
  {
    hide NodeDist, IsNearest, HasNearestLabel;
    NearestByDistance(h, r, nodes, from, n, ids);
    forall i | 0 <= i < |ids|
      ensures HasNearestLabel(h, r, Unlisted(nodes, ids[..i]), from, ids[i]) <==>
        forall m :: m in nodes && m !in ids[..i] ==> NodeDist(h, r, ids[i], from) <= NodeDist(h, r, m, from)
    {
      var others := Unlisted(nodes, ids[..i]);
      NearestOf(h, r, others, from, ids[i]);
    }
  }

  lemma {:induction false} NearestOf(h: HashFn, r: nat, others: set<NodeId>, from: uint32, id: NodeId)
    requires r > 0
    ensures HasNearestLabel(h, r, others, from, id) <==>
      forall m :: m in others ==> NodeDist(h, r, id, from) <= NodeDist(h, r, m, from)
  {
    hide NodeDist, IsNumeral;
    if forall m :: m in others ==> NodeDist(h, r, id, from) <= NodeDist(h, r, m, from) {
      var i, d := NearestLabel(h, r, id, from);
      forall m, j: nat, e | m in others && j < r && IsNumeral(e, j)
        ensures (h(id + [58] + d) - from) % 0x1_0000_0000 <= (h(m + [58] + e) - from) % 0x1_0000_0000
      {
        LabelNotNearer(h, r, m, from, j, e);
      }
    }
    if HasNearestLabel(h, r, others, from, id) {
      var i: nat, d :| i < r && IsNumeral(d, i) && forall m, j: nat, e :: m in others && j < r && IsNumeral(e, j) ==>
        (h(id + [58] + d) - from) % 0x1_0000_0000 <= (h(m + [58] + e) - from) % 0x1_0000_0000;
      LabelNotNearer(h, r, id, from, i, d);
      forall m | m in others ensures NodeDist(h, r, id, from) <= NodeDist(h, r, m, from) {
        var j, e := NearestLabel(h, r, m, from);
      }
    }
  }

  lemma {:induction false} NearestByDistance(h: HashFn, r: nat, nodes: set<NodeId>, from: uint32, n: nat,
                                             ids: seq<NodeId>)
    requires r > 0
    ensures IsNearest(h, r, nodes, from, n, ids) <==>
      && |ids| == (if n < |nodes| then n else |nodes|)
      && (forall i :: 0 <= i < |ids| ==> ids[i] in nodes && ids[i] !in ids[..i])
      && forall i :: 0 <= i < |ids| ==>
           forall m :: m in nodes && m !in ids[..i] ==> NodeDist(h, r, ids[i], from) <= NodeDist(h, r, m, from)
  {
    hide NodeDist;
    forall i, j | 0 <= i < j < |ids| ensures ids[j] in ids[..i] <==> exists q :: 0 <= q < i && ids[q] == ids[j] {
    }
  }

  /** A longer replica list starts with the shorter one's choices. */
  lemma {:induction false} NearestPrefix(h: HashFn, r: nat, nodes: set<NodeId>, from: uint32, n: nat, ids: seq<NodeId>)
    requires r > 0 && IsNearest(h, r, nodes, from, n + 1, ids)
    ensures IsNearest(h, r, nodes, from, n, ids[..Min(n, |nodes|)])
  {
    var k := Min(n, |nodes|);
    forall i, m | 0 <= i < k && m in nodes && m !in ids[..k]
      ensures NodeDist(h, r, ids[i], from) <= NodeDist(h, r, m, from)
    {
      if m in ids {
        var j :| 0 <= j < |ids| && ids[j] == m;
        assert forall q :: 0 <= q < k ==> ids[..k][q] == ids[q];
        assert j >= k;
      }
    }
  }

  /** The first replica is an owner of the key. */
  lemma {:induction false} NearestHead(h: HashFn, r: nat, nodes: set<NodeId>, from: uint32, n: nat, ids: seq<NodeId>)
    requires r > 0 && n > 0 && nodes != {} && IsNearest(h, r, nodes, from, n, ids)
    ensures ids != [] && ids[0] in Owners(h, r, nodes, from)
  {
    assert |nodes| > 0;
    forall m | m in nodes ensures NodeDist(h, r, ids[0], from) <= NodeDist(h, r, m, from) {
      if m in ids {
        var j :| 0 <= j < |ids| && ids[j] == m;
      }
    }
  }

  /** Without collisions there is only one correct answer. */
  lemma {:induction false} NearestUnique(h: HashFn, r: nat, nodes: set<NodeId>, from: uint32, n: nat, a: seq<NodeId>,
                                         b: seq<NodeId>)
    requires r > 0 && NoCollisions(h, r, nodes)
    requires IsNearest(h, r, nodes, from, n, a) && IsNearest(h, r, nodes, from, n, b)
    ensures a == b
  {
    var i := 0;
    while i < |a|
      invariant i <= |a| && a[..i] == b[..i]
    {
      NearestAgree(h, r, nodes, from, n, a, b, i);
      i := i + 1;
    }
    assert a[..|a|] == a && b[..|b|] == b;
  }

  lemma {:induction false} NearestAgree(h: HashFn, r: nat, nodes: set<NodeId>, from: uint32, n: nat, a: seq<NodeId>,
                                        b: seq<NodeId>, i: nat)
    requires r > 0 && NoCollisions(h, r, nodes) && i < |a|
    requires IsNearest(h, r, nodes, from, n, a) && IsNearest(h, r, nodes, from, n, b)
    requires a[..i] == b[..i]
    ensures a[i] == b[i]
  {
    NotNearer(h, r, nodes, from, n, a, b, i);
    NotNearer(h, r, nodes, from, n, b, a, i);
    DistinctDistances(h, r, nodes, from, a[i], b[i]);
  }

  lemma {:induction false} NotNearer(h: HashFn, r: nat, nodes: set<NodeId>, from: uint32, n: nat, a: seq<NodeId>,
                                     b: seq<NodeId>, i: nat)
    requires r > 0 && i < |a| == |b|
    requires IsNearest(h, r, nodes, from, n, a) && IsNearest(h, r, nodes, from, n, b)
    requires a[..i] == b[..i]
    ensures NodeDist(h, r, a[i], from) <= NodeDist(h, r, b[i], from)
  {
    hide NodeDist;
    if b[i] in a {
      var j :| 0 <= j < |a| && a[j] == b[i];
      SamePrefix(a, b, i);
      assert j >= i;
    }
  }

  lemma {:induction false} SamePrefix(a: seq<NodeId>, b: seq<NodeId>, i: nat)
    requires i <= |a| && i <= |b| && a[..i] == b[..i]
    ensures forall q :: 0 <= q < i ==> a[q] == b[q]
  {
    assert forall q :: 0 <= q < i ==> a[q] == a[..i][q] && b[q] == b[..i][q];
  }

  // ---------- stability of the replica walk ----------

  function Except(ids: seq<NodeId>, x: NodeId): seq<NodeId> {
    if ids == [] then []
    else
      var rest := Except(ids[..|ids| - 1], x);
      if ids[|ids| - 1] == x then rest else rest + [ids[|ids| - 1]]
  }

  ghost predicate ByDistance(h: HashFn, r: nat, from: uint32, ids: seq<NodeId>)
    requires r > 0
  {
    forall i, j :: 0 <= i < j < |ids| ==> NodeDist(h, r, ids[i], from) <= NodeDist(h, r, ids[j], from)
  }

  lemma {:induction false} ExceptMembers(ids: seq<NodeId>, x: NodeId)
    ensures forall m :: m in Except(ids, x) <==> m in ids && m != x
  {
    if ids != [] {
      ExceptMembers(ids[..|ids| - 1], x);
      assert forall m :: m in ids <==> m in ids[..|ids| - 1] || m == ids[|ids| - 1];
    }
  }

  lemma {:induction false} ExceptSpread(ids: seq<NodeId>, nodes: set<NodeId>, x: NodeId)
    requires Spread(ids, nodes)
    ensures Spread(Except(ids, x), nodes - {x})
    ensures |Except(ids, x)| == if x in ids then |ids| - 1 else |ids|
  {
    if ids != [] {
      var init := ids[..|ids| - 1];
      ExceptSpread(init, nodes, x);
      ExceptMembers(init, x);
      assert forall m :: m in ids <==> m in init || m == ids[|ids| - 1];
      assert forall i :: 0 <= i < |Except(init, x)| ==> Except(init, x)[i] in init;
    }
  }

  lemma {:induction false} ExceptByDistance(h: HashFn, r: nat, from: uint32, ids: seq<NodeId>, x: NodeId)
    requires r > 0 && ByDistance(h, r, from, ids)
    ensures ByDistance(h, r, from, Except(ids, x))
  {
    hide NodeDist;
    if ids != [] {
      var init, last := ids[..|ids| - 1], ids[|ids| - 1];
      ExceptByDistance(h, r, from, init, x);
      ExceptMembers(init, x);
      var rest := Except(init, x);
      forall i | 0 <= i < |rest| ensures NodeDist(h, r, rest[i], from) <= NodeDist(h, r, last, from) {
        assert rest[i] in init;
        var p :| 0 <= p < |init| && init[p] == rest[i];
        assert ids[p] == rest[i];
      }
    }
  }

  /** Removing a node: the old list of n+1 without it, cut to n, is a correct list of n. */
  lemma {:induction false} NearestAfterRemoval(h: HashFn, r: nat, nodes: set<NodeId>, from: uint32, n: nat,
                                               ids: seq<NodeId>, x: NodeId)
    requires r > 0 && x in nodes && IsNearest(h, r, nodes, from, n + 1, ids)
    ensures var rest := Except(ids, x);
      IsNearest(h, r, nodes - {x}, from, n, rest[..Min(n, |rest|)])
  {
    hide NodeDist, Except;
    var rest := Except(ids, x);
    var k := Min(n, |rest|);
    RemovalSize(nodes, ids, x);
    ExceptSpread(ids, nodes, x);
    ExceptByDistance(h, r, from, ids, x);
    forall i, m | 0 <= i < k && m in nodes - {x} && m !in rest[..k]
      ensures NodeDist(h, r, rest[i], from) <= NodeDist(h, r, m, from)
    {
      StillNearest(h, r, nodes, from, n, ids, x, k, i, m);
    }
  }

  lemma {:induction false} RemovalSize(nodes: set<NodeId>, ids: seq<NodeId>, x: NodeId)
    requires x in nodes && Spread(ids, nodes)
    ensures |nodes - {x}| == |nodes| - 1 && (|ids| == |nodes| ==> x in ids)
  {
    SpreadSize(ids, nodes);
    if |ids| == |nodes| { assert x in SetOf(ids); }
  }

  lemma {:induction false} StillNearest(h: HashFn, r: nat, nodes: set<NodeId>, from: uint32, n: nat,
                                        ids: seq<NodeId>, x: NodeId, k: nat, i: nat, m: NodeId)
    requires r > 0 && IsNearest(h, r, nodes, from, n + 1, ids)
    requires i < k <= |Except(ids, x)| && m in nodes && m != x && m !in Except(ids, x)[..k]
    ensures NodeDist(h, r, Except(ids, x)[i], from) <= NodeDist(h, r, m, from)
  {
    hide NodeDist, Except;
    var rest := Except(ids, x);
    ExceptMembers(ids, x);
    assert rest[i] in rest;
    if m in ids {
      ExceptByDistance(h, r, from, ids, x);
      Beyond(rest, k, m, i, h, r, from);
    } else {
      var p :| 0 <= p < |ids| && ids[p] == rest[i];
    }
  }

  lemma {:induction false} Beyond(rest: seq<NodeId>, k: nat, m: NodeId, i: nat, h: HashFn, r: nat, from: uint32)
    requires r > 0 && ByDistance(h, r, from, rest) && i < k <= |rest| && m in rest && m !in rest[..k]
    ensures NodeDist(h, r, rest[i], from) <= NodeDist(h, r, m, from)
  {
    var j :| 0 <= j < |rest| && rest[j] == m;
    assert forall q :: 0 <= q < k ==> rest[..k][q] == rest[q];
  }

  /** Replica-walk stability: without collisions, removing a node takes it out of every replica
      list, moves the next node in, and changes nothing else. */
  lemma {:induction false} WalkStability(h: HashFn, r: nat, nodes: set<NodeId>, from: uint32, n: nat, x: NodeId,
                                         before: seq<NodeId>, after: seq<NodeId>)
    requires r > 0 && NoCollisions(h, r, nodes) && x in nodes
    requires IsNearest(h, r, nodes, from, n + 1, before) && IsNearest(h, r, nodes - {x}, from, n, after)
    ensures after == Except(before, x)[..Min(n, |Except(before, x)|)]
  {
    NearestAfterRemoval(h, r, nodes, from, n, before, x);
    assert NoCollisions(h, r, nodes - {x});
    NearestUnique(h, r, nodes - {x}, from, n, after, Except(before, x)[..Min(n, |Except(before, x)|)]);
  }

  // ---------- one hop ----------

  /** The servers that a request for a key passes through: each one takes some owner of the key for
      its target, and forwards the request unless that is the server itself. */
  ghost predicate IsRoute(h: HashFn, r: nat, nodes: set<NodeId>, from: uint32, route: seq<NodeId>)
    requires r > 0
  {
    && route != [] && (forall i :: 0 <= i < |route| ==> route[i] in nodes)
    && forall i :: 0 < i < |route| ==> route[i] in Owners(h, r, nodes, from) && route[i] != route[i - 1]
  }

  /** Every request ends after at most one hop, whatever owners the servers pick, if and only if
      only one node has a virtual node at the successor hash of the key. */
  lemma {:induction false} OneHopExact(h: HashFn, r: nat, nodes: set<NodeId>, from: uint32, t: uint32)
    requires r > 0 && IsSuccessor(h, r, nodes, from, t)
    ensures (forall route :: IsRoute(h, r, nodes, from, route) ==> |route| <= 2) <==>
      forall a, b :: a in nodes && b in nodes && Owns(h, r, a, t) && Owns(h, r, b, t) ==> a == b
  {
    forall route | IsRoute(h, r, nodes, from, route) && |route| > 2
      ensures exists a, b :: a in nodes && b in nodes && Owns(h, r, a, t) && Owns(h, r, b, t) && a != b
    {
      OwnersHaveSuccessor(h, r, nodes, from, t, route[1]);
      OwnersHaveSuccessor(h, r, nodes, from, t, route[2]);
    }
    forall a, b | a in nodes && b in nodes && Owns(h, r, a, t) && Owns(h, r, b, t) && a != b
      ensures exists route :: IsRoute(h, r, nodes, from, route) && |route| > 2
    {
      var route := EndlessForwarding(h, r, nodes, from, t, a, b, 3);
    }
  }

  /** Two servers whose virtual nodes collide there can forward a request between them for ever. */
  lemma {:induction false} EndlessForwarding(h: HashFn, r: nat, nodes: set<NodeId>, from: uint32, t: uint32,
                                             a: NodeId, b: NodeId, n: nat) returns (route: seq<NodeId>)
    requires r > 0 && IsSuccessor(h, r, nodes, from, t) && n > 0
    requires a in nodes && b in nodes && Owns(h, r, a, t) && Owns(h, r, b, t) && a != b
    ensures IsRoute(h, r, nodes, from, route) && |route| == n
  {
    hide Owners, Owns, IsSuccessor, NodeDist;
    OwnersHaveSuccessor(h, r, nodes, from, t, a);
    OwnersHaveSuccessor(h, r, nodes, from, t, b);
    route := seq(n, i => if i % 2 == 0 then a else b);
  }
}
