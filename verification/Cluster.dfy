/** Sharded request routing: every server routes by its own ring, forwards what it does not own,
    and writes through the replicated log. */
module Routing {
  import opened Bytes
  import opened RecordLog
  import opened Segments
  import opened RingSpec
  import opened Ring
  import opened Replication

  datatype WriteReply = Success | KeyEmpty | NoTarget | NoLeader | NotLeader | ApplyFailed | ForwardFailed

  /** `Miss(true)` is a response that is not found and carries an error text. */
  datatype ReadReply = Hit(value: Bytes) | Miss(error: bool)

  /** How Raft behaves towards one write: whether it commits a proposal in time, and whether a server
      that is not the leader knows who is. */
  datatype Raft = Raft(commits: bool, leaderKnown: bool)

  datatype Event =
    | PutAt(at: NodeId, key: Bytes, value: Bytes, raft: Raft)
    | DeleteAt(at: NodeId, key: Bytes, raft: Raft)
    | GetAt(at: NodeId, key: Bytes)
    | Advance(node: NodeId)
    | Elect(leaders: set<NodeId>)
    | LateCommit(entry: Option<LogEntry>)

  /** Recorded positions in the log only move forward. */
  ghost predicate Advances(before: map<Bytes, nat>, after: map<Bytes, nat>) {
    forall k :: k in before ==> k in after && before[k] <= after[k]
  }

  function OneMoreApplied(applied: map<NodeId, nat>, node: NodeId, length: nat): map<NodeId, nat> {
    if node in applied && applied[node] < length then applied[node := applied[node] + 1] else applied
  }

  function PutEntry(key: Bytes, value: Bytes): LogEntry { LogEntry("PUT", key, value) }
  function DeleteEntry(key: Bytes): LogEntry { LogEntry("DELETE", key, []) }

  /** The log, how far each server has applied it, and who leads. */
  datatype Moment = Moment(log: seq<Option<LogEntry>>, applied: map<NodeId, nat>, leaders: set<NodeId>)

  /** The log only grows, and no server forgets what it has applied. */
  ghost predicate Progress(s: Moment, s': Moment) { s.log <= s'.log && Advances(s.applied, s'.applied) }

  /** Whether the entry succeeds when it is applied on top of the log: a put of a key always does, a
      deletion if the key is present. */
  predicate Succeeds(log: seq<Option<LogEntry>>, entry: LogEntry) {
    entry.operation == "PUT" || entry.key in ApplyLog(map[], log)
  }

  lemma {:induction false} SucceedsExactly(log: seq<Option<LogEntry>>, entry: LogEntry)
    requires entry.key != [] && (entry.operation == "PUT" || entry.operation == "DELETE")
    ensures Respond(ApplyLog(map[], log), Some(entry)) == Applied <==> Succeeds(log, entry)
  {
    hide ApplyLog;
  }

  lemma {:induction false} LastEntryStored(before: seq<Option<LogEntry>>, entry: LogEntry, log: seq<Option<LogEntry>>)
    requires entry.key != [] && (entry.operation == "PUT" || entry.operation == "DELETE")
    requires log == before + [Some(entry)]
    ensures log[..|log|] == log
    ensures Lookup(ApplyLog(map[], log), entry.key) == if entry.operation == "PUT" then Some(entry.value) else None
  {
    assert log[..|log| - 1] == before && log[..|log|] == log;
  }

  /** The node a key belongs to, on a ring where that is one node. */
  ghost function OwnerOf(h: HashFn, r: nat, nodes: set<NodeId>, key: Bytes): NodeId {
    if o :| r > 0 && Owners(h, r, nodes, h(key)) == {o} then o else key
  }

  lemma {:induction false} OwnerOfKey(h: HashFn, r: nat, nodes: set<NodeId>, key: Bytes)
    requires r > 0 && nodes != {} && NoCollisions(h, r, nodes)
    ensures Owners(h, r, nodes, h(key)) == {OwnerOf(h, r, nodes, key)}
    ensures OwnerOf(h, r, nodes, key) in nodes
  {
    var o := SingleOwner(h, r, nodes, h(key));
    assert OwnerOf(h, r, nodes, key) in Owners(h, r, nodes, h(key));
  }

  /** A valid ring of these nodes. */
  ghost predicate BuiltFor(ring: HashRing, nodes: set<NodeId>, hash: HashFn, replicas: nat)
    reads ring
  {
    ring.Valid() && ring.nodes.Keys == nodes && ring.hash == hash && ring.replicas == replicas
  }

  class Cluster {
    /** Each server's ring, built in that server's own order. */
    const rings: map<NodeId, HashRing>
    const hash: HashFn
    const replicas: nat
    /** The committed Raft log and how much of it each server has applied. */
    var log: seq<Option<LogEntry>>
    var applied: map<NodeId, nat>
    /** The servers that take themselves for the leader. */
    var leaders: set<NodeId>
    /** For each key, the length of the log that some client has already seen reflected. */
    ghost var floor: map<Bytes, nat>

    ghost predicate Valid()
      reads this, rings.Values
    {
      Uniform() && Tracked()
    }

    /** A cluster of servers that know the same nodes starts out valid, with nothing committed. */
    constructor (rings: map<NodeId, HashRing>, hash: HashFn, replicas: nat)
      requires rings != map[] && replicas > 0 && NoCollisions(hash, replicas, rings.Keys)
      requires forall s :: s in rings ==> BuiltFor(rings[s], rings.Keys, hash, replicas)
      ensures Valid() && this.rings == rings && this.hash == hash && this.replicas == replicas
      ensures log == [] && applied == (map s | s in rings :: 0) && leaders == {}
    {
      hide NoCollisions, OwnerOf, ApplyLog, BuiltFor;
      this.rings, this.hash, this.replicas := rings, hash, replicas;
      log, applied, leaders, floor := [], map s | s in rings :: 0, {}, map[];
      new;
      StartsUniform();
    }

    lemma {:induction false} StartsUniform()
      requires rings != map[] && replicas > 0 && NoCollisions(hash, replicas, rings.Keys)
      requires forall s :: s in rings ==> BuiltFor(rings[s], rings.Keys, hash, replicas)
      ensures Uniform()
    {
      hide NoCollisions, OwnerOf, ApplyLog, RingOf;
      assert rings.Keys != {};
    }

    /** All servers know the same nodes, and no virtual nodes of different nodes collide. */
    ghost predicate Uniform()
      reads rings.Values
    {
      && rings.Keys != {} && replicas > 0 && NoCollisions(hash, replicas, rings.Keys)
      && forall s :: s in rings ==> RoutesAlike(s)
    }

    /** No server is ahead of the log, and what clients have seen of a key is applied at its owner. */
    ghost predicate Tracked()
      reads this
    {
      && applied.Keys == rings.Keys && (forall s :: s in applied ==> applied[s] <= |log|)
      && forall k :: k in floor ==> FloorApplied(k, floor[k])
    }

    ghost predicate FloorApplied(key: Bytes, n: nat)
      reads this
    {
      Owner(key) in applied && n <= applied[Owner(key)]
    }

    ghost predicate RoutesAlike(s: NodeId)
      reads rings.Values
    {
      s in rings && BuiltFor(rings[s], rings.Keys, hash, replicas)
    }

    ghost function Owner(key: Bytes): NodeId { OwnerOf(hash, replicas, rings.Keys, key) }

    ghost function Hops(at: NodeId, key: Bytes): nat { if at == Owner(key) then 0 else 1 }

    /** What a server's storage holds: the entries it has applied, from the start. */
    function Store(at: NodeId): Contents
      requires at in applied && applied[at] <= |log|
      reads this
    {
      ApplyLog(map[], log[..applied[at]])
    }

    method GetTargetNode(at: NodeId, key: Bytes) returns (target: Option<NodeId>)
      requires Valid() && at in rings
      ensures target == Some(Owner(key)) && Owner(key) in rings
    {
      hide Uniform, Tracked, Owners, OwnerOf, RingOf;
      AgreeOnOwner(at, key);
      var node := rings[at].GetNode(key);
      if node.None? {
        return None;
      }
      target := Some(node.value.nodeID);
    }

    /** Every server's ring gives a key the same single owner, in whatever order it was built. */
    lemma {:induction false} AgreeOnOwner(at: NodeId, key: Bytes)
      requires Uniform() && at in rings
      ensures Owner(key) in rings && rings[at].Valid() && rings[at].nodes != map[]
      ensures Owners(rings[at].hash, rings[at].replicas, rings[at].nodes.Keys, rings[at].hash(key)) == {Owner(key)}
    {
      hide Owners, OwnerOf, NoCollisions, RingOf;
      assert RoutesAlike(at);
      OwnerOfKey(hash, replicas, rings.Keys, key);
      assert rings[at].nodes.Keys != {};
    }

    /** Proposes an entry to Raft and waits for its reply. Proposing may fail, and a failed proposal
        may still be committed later; on success everything up to the entry is applied here. */
    method ApplyLogEntry(at: NodeId, entry: LogEntry, raft: Raft) returns (ok: bool)
      requires Valid() && at in rings && at == Owner(entry.key) && entry.key != []
      requires entry.operation == "PUT" || entry.operation == "DELETE"
      modifies this
      ensures Valid() && Progress(old(Now()), Now()) && Advances(old(floor), floor)
      ensures Now() == Written(old(Now()), at, entry, raft)
      ensures ok <==> at in leaders && raft.commits && Succeeds(old(log), entry)
      ensures ok ==> Acknowledged(entry)
    {
      hide Uniform, RoutesAlike, ApplyLog, OwnerOf, Respond, Succeeds;
      if at !in leaders {
        return false;
      }
      if !raft.commits {
        return false;
      }
      SucceedsExactly(log, entry);
      var response := CommitAndApply(at, entry);
      if response != Applied {
        return false;
      }
      Seen(entry.key);
      ok := true;
    }

    /** Raft commits the entry and this server applies the log up to it. */
    method CommitAndApply(at: NodeId, entry: LogEntry) returns (response: Response)
      requires Valid() && at in rings
      modifies this`log, this`applied
      ensures Valid() && Progress(old(Now()), Now())
      ensures log == old(log) + [Some(entry)] && applied == old(applied)[at := |log|]
      ensures response == Respond(ApplyLog(map[], old(log)), Some(entry)) && log[..|log| - 1] == old(log)
    {
      hide Uniform, NoCollisions, OwnerOf, Respond, ApplyLog;
      response := Respond(ApplyLog(map[], log), Some(entry));
      log := log + [Some(entry)];
      applied := applied[at := |log|];
    }

    /** Some client has seen all that the key's owner has applied. */
    ghost method Seen(key: Bytes)
      requires Valid() && Owner(key) in applied
      modifies this`floor
      ensures Valid() && floor == old(floor)[key := applied[Owner(key)]] && Advances(old(floor), floor)
    {
      hide Uniform, NoCollisions, OwnerOf;
      floor := floor[key := applied[Owner(key)]];
    }

    /** The cluster after a write: committed and applied at the owner if the owner leads and Raft
        commits it, and otherwise as before. */
    ghost function Written(s: Moment, at: NodeId, entry: LogEntry, raft: Raft): Moment {
      if at in rings && entry.key != [] && Owner(entry.key) in s.leaders && raft.commits
      then Moment(s.log + [Some(entry)], s.applied[Owner(entry.key) := |s.log| + 1], s.leaders)
      else s
    }

    /** The entry is the last one committed, was applied without an error, and counts as seen from
        now on. */
    ghost predicate Acknowledged(entry: LogEntry)
      reads this
    {
      && log != [] && log[|log| - 1] == Some(entry)
      && Respond(ApplyLog(map[], log[..|log| - 1]), Some(entry)) == Applied
      && entry.key in floor && floor[entry.key] == |log|
    }

    /** A write that arrives at server `at`. Its own recursion through forwarding ends because the
        server it forwards to owns the key. */
    method Write(at: NodeId, entry: LogEntry, raft: Raft) returns (r: WriteReply, hops: nat)
      requires Valid() && at in rings
      requires entry.operation == "PUT" || entry.operation == "DELETE"
      modifies this
      ensures Valid() && Progress(old(Now()), Now()) && Advances(old(floor), floor)
      ensures Now() == Written(old(Now()), at, entry, raft)
      ensures r == Success ==> Acknowledged(entry)
      ensures r ==
        if entry.key == [] then KeyEmpty
        else if Owner(entry.key) in leaders && raft.commits && Succeeds(old(log), entry) then Success
        else if at != Owner(entry.key) then ForwardFailed
        else if at in leaders then ApplyFailed
        else if raft.leaderKnown then NotLeader
        else NoLeader
      ensures hops == if entry.key == [] then 0 else Hops(at, entry.key)
      decreases Hops(at, entry.key), 1
    {
      hide NoCollisions, RoutesAlike, ApplyLog, OwnerOf, Succeeds;
      r, hops := NoTarget, 0;
      if entry.key == [] {
        r := KeyEmpty;
        return;
      }
      var target := GetTargetNode(at, entry.key);
      if target.None? {
        return;
      }
      if target.value != at {
        r, hops := ForwardWrite(target.value, entry, raft);
        return;
      }
      if at !in leaders {
        r := if raft.leaderKnown then NotLeader else NoLeader;
        return;
      }
      var ok := ApplyLogEntry(at, entry, raft);
      r := if ok then Success else ApplyFailed;
    }

    /** Hands the request to the owner's server and reports any error as a failed forward. */
    method ForwardWrite(target: NodeId, entry: LogEntry, raft: Raft) returns (r: WriteReply, hops: nat)
      requires Valid() && target == Owner(entry.key) && target in rings && entry.key != []
      requires entry.operation == "PUT" || entry.operation == "DELETE"
      modifies this
      ensures Valid() && Progress(old(Now()), Now()) && Advances(old(floor), floor)
      ensures Now() == Written(old(Now()), target, entry, raft)
      ensures r == Success ==> Acknowledged(entry)
      ensures r == if target in leaders && raft.commits && Succeeds(old(log), entry) then Success else ForwardFailed
      ensures hops == 1
      decreases Hops(target, entry.key), 2
    {
      hide NoCollisions, RoutesAlike, ApplyLog, OwnerOf, Succeeds;
      r, hops := Write(target, entry, raft);
      hops := hops + 1;
      if r != Success {
        r := ForwardFailed;
      }
    }

    /** A put succeeds exactly if the key is not empty, its owner leads and Raft commits; then the
        owner's store holds the value. */
    method Put(at: NodeId, key: Bytes, value: Bytes, raft: Raft) returns (r: WriteReply, hops: nat)
      requires Valid() && at in rings
      modifies this
      ensures Valid() && Progress(old(Now()), Now()) && Advances(old(floor), floor)
      ensures Now() == Written(old(Now()), at, LogEntry("PUT", key, value), raft)
      ensures r == Success <==> key != [] && Owner(key) in leaders && raft.commits
      ensures r == Success ==> log == old(log) + [Some(LogEntry("PUT", key, value))] && Stored(key) == Some(value)
      ensures r == Success ==> Acknowledged(PutEntry(key, value))
      ensures r == KeyEmpty <==> key == []
      ensures hops <= 1
    {
      hide NoCollisions, RoutesAlike, ApplyLog, OwnerOf, Uniform;
      r, hops := Write(at, PutEntry(key, value), raft);
      if r == Success { LastEntryStored(old(log), LogEntry("PUT", key, value), log); }
    }

    /** A deletion succeeds exactly if, besides, the key is present; then the owner's store does not
        have it any more. */
    method Delete(at: NodeId, key: Bytes, raft: Raft) returns (r: WriteReply, hops: nat)
      requires Valid() && at in rings
      modifies this
      ensures Valid() && Progress(old(Now()), Now()) && Advances(old(floor), floor)
      ensures Now() == Written(old(Now()), at, LogEntry("DELETE", key, []), raft)
      ensures r == Success <==>
        key != [] && Owner(key) in leaders && raft.commits && key in ApplyLog(map[], old(log))
      ensures r == Success ==> log == old(log) + [Some(LogEntry("DELETE", key, []))] && Stored(key) == None
      ensures r == Success ==> Acknowledged(DeleteEntry(key))
      ensures r == KeyEmpty <==> key == []
      ensures hops <= 1
    {
      hide NoCollisions, RoutesAlike, ApplyLog, OwnerOf, Uniform;
      r, hops := Write(at, DeleteEntry(key), raft);
      if r == Success { LastEntryStored(old(log), LogEntry("DELETE", key, []), log); }
    }

    /** What the store of the key's owner has under the key. */
    ghost function Stored(key: Bytes): Option<Bytes>
      reads this
    {
      if Owner(key) in applied && applied[Owner(key)] <= |log| then Lookup(Store(Owner(key)), key) else None
    }

    /** What the owner's store answers for a key. */
    ghost predicate Answers(r: ReadReply, key: Bytes)
      reads this
    {
      && Owner(key) in applied && applied[Owner(key)] <= |log|
      && match Lookup(Store(Owner(key)), key) case Some(v) => r == Hit(v) case None => r.Miss?
    }

    /** Clients have seen everything the owner has applied. */
    ghost predicate SeenAtOwner(key: Bytes)
      reads this
    {
      Owner(key) in applied && key in floor && floor[key] == applied[Owner(key)]
    }

    /** A read that arrives at server `at` is answered from the store of the key's owner, at a
        point of the log no older than anything a client has seen of the key. */
    method Get(at: NodeId, key: Bytes) returns (r: ReadReply, hops: nat)
      requires Valid() && at in rings
      modifies this`floor
      ensures Valid() && Advances(old(floor), floor)
      ensures key == [] ==> r == Miss(true)
      ensures key != [] ==> Answers(r, key) && SeenAtOwner(key) && r != Miss(at == Owner(key))
      ensures hops == if key == [] then 0 else Hops(at, key)
      decreases Hops(at, key), 1
    {
      hide NoCollisions, RoutesAlike, ApplyLog, OwnerOf;
      r, hops := Miss(true), 0;
      if key == [] {
        return;
      }
      var target := GetTargetNode(at, key);
      if target.None? {
        return;
      }
      if target.value != at {
        r, hops := ForwardGet(target.value, key);
        return;
      }
      var found := Lookup(Store(at), key);
      floor := floor[key := applied[at]];
      r := match found case Some(v) => Hit(v) case None => Miss(false);
    }

    /** A miss at the owner comes back with an error text: the text the forwarding server compares
        with is not the one the client reports. */
    method ForwardGet(target: NodeId, key: Bytes) returns (r: ReadReply, hops: nat)
      requires Valid() && target == Owner(key) && target in rings && key != []
      modifies this`floor
      ensures Valid() && Advances(old(floor), floor)
      ensures Answers(r, key) && SeenAtOwner(key) && r != Miss(false)
      ensures hops == 1
      decreases Hops(target, key), 2
    {
      hide NoCollisions, RoutesAlike, ApplyLog, OwnerOf;
      r, hops := Get(target, key);
      hops := hops + 1;
      if r.Miss? {
        r := Miss(true);
      }
    }

    // ---------- the rest of the cluster ----------

    /** A server applies the next entry of the log, if there is one. */
    method ApplyNext(node: NodeId)
      requires Valid()
      modifies this`applied
      ensures Valid() && Progress(old(Now()), Now())
      ensures applied == OneMoreApplied(old(applied), node, |log|)
    {
      hide Uniform, OwnerOf, NoCollisions;
      if node in applied && applied[node] < |log| {
        applied := applied[node := applied[node] + 1];
      }
    }

    /** An entry is committed that nobody was told about. */
    method CommitLate(entry: Option<LogEntry>)
      requires Valid()
      modifies this`log
      ensures Valid() && log == old(log) + [entry]
    {
      hide Uniform, OwnerOf, NoCollisions;
      log := log + [entry];
    }

    /** What an event does to log, applied positions and leaders. */
    ghost predicate Moves(s: Moment, e: Event, s': Moment) {
      match e
      case PutAt(at, key, value, raft) => s' == Written(s, at, LogEntry("PUT", key, value), raft)
      case DeleteAt(at, key, raft) => s' == Written(s, at, LogEntry("DELETE", key, []), raft)
      case GetAt(_, _) => s' == s
      case Advance(node) =>
        && s'.log == s.log && s'.leaders == s.leaders && s'.applied.Keys == s.applied.Keys
        && forall n :: n in s.applied ==>
             s'.applied[n] == if n == node && s.applied[n] < |s.log| then s.applied[n] + 1 else s.applied[n]
      case Elect(now) => s' == s.(leaders := now)
      case LateCommit(entry) => s' == s.(log := s.log + [entry])
    }

    /** The cluster went through these moments, one event at a time. */
    ghost predicate Follows(history: seq<Moment>, events: seq<Event>) {
      |history| == |events| + 1 && forall i :: 0 <= i < |events| ==> Moves(history[i], events[i], history[i + 1])
    }

    lemma {:induction false} OneMoreMoment(history: seq<Moment>, events: seq<Event>, i: nat, s: Moment)
      requires i < |events| && Follows(history, events[..i]) && Moves(history[i], events[i], s)
      ensures Follows(history + [s], events[..i + 1])
    {
      hide Moves;
      var all, done := history + [s], events[..i + 1];
      forall j | 0 <= j <= i ensures Moves(all[j], done[j], all[j + 1]) {
        if j < i {
          assert Moves(history[j], events[..i][j], history[j + 1]);
        }
      }
    }

    lemma {:induction false} NoEvents(history: seq<Moment>, events: seq<Event>)
      requires |history| == 1
      ensures Follows(history, events[..0])
    {
    }

    /** One step of the cluster: a client request, a server applying its next entry, a change of
        leaders, or the commit of an entry nobody was told about. */
    method Do(e: Event)
      requires Valid()
      modifies this
      ensures Valid() && Progress(old(Now()), Now()) && Advances(old(floor), floor)
      ensures Moves(old(Now()), e, Now())
    {
      hide Uniform, Tracked, ApplyLog, OwnerOf, Acknowledged;
      match e {
        case PutAt(at, key, value, raft) =>
          if at in rings { var r, hops := Put(at, key, value, raft); }
        case DeleteAt(at, key, raft) =>
          if at in rings { var r, hops := Delete(at, key, raft); }
        case GetAt(at, key) =>
          if at in rings { var r, hops := Get(at, key); }
        case Advance(node) => ApplyNext(node);
        case Elect(now) => Elected(now);
        case LateCommit(entry) => CommitLate(entry);
      }
    }

    method Elected(now: set<NodeId>)
      requires Valid()
      modifies this`leaders
      ensures Valid() && leaders == now
    {
      hide Uniform, OwnerOf, NoCollisions;
      leaders := now;
    }

    ghost function Now(): Moment
      reads this
    {
      Moment(log, applied, leaders)
    }

    method RunEvents(events: seq<Event>) returns (ghost history: seq<Moment>)
      requires Valid()
      modifies this
      ensures Valid() && Progress(old(Now()), Now()) && Advances(old(floor), floor)
      ensures Follows(history, events) && history[0] == old(Now()) && history[|events|] == Now()
    {
      hide Uniform, Tracked, ApplyLog, OwnerOf, Moves, Follows;
      history := [Now()];
      NoEvents(history, events);
      for i := 0 to |events|
        invariant Valid() && Progress(old(Now()), Now()) && Advances(old(floor), floor)
        invariant Follows(history, events[..i]) && |history| == i + 1
        invariant history[0] == old(Now()) && history[i] == Now()
      {
        Do(events[i]);
        OneMoreMoment(history, events, i, Now());
        history := history + [Now()];
      }
      assert events[..|events|] == events;
    }

    /** Single-copy visibility over every run: once a write of a key was acknowledged at any server,
        then whatever else happens, a read of the key at any server returns what that write or a
        later one in the log decided. */
    method ReadAfterWrite(at: NodeId, entry: LogEntry, raft: Raft, events: seq<Event>, reader: NodeId)
      returns (w: WriteReply, r: ReadReply, ghost history: seq<Moment>, ghost i: nat, ghost j: nat)
      requires Valid() && at in rings && reader in rings
      requires entry.operation == "PUT" || entry.operation == "DELETE"
      modifies this
      ensures Valid() && Progress(old(Now()), Now()) && Advances(old(floor), floor)
      ensures Follows(history, events) && history[|events|] == Now()
      ensures history[0] == Written(old(Now()), at, entry, raft)
      ensures w == Success <==>
        entry.key != [] && Owner(entry.key) in old(leaders) && raft.commits && Succeeds(old(log), entry)
      ensures w == Success ==> i == |old(log)| && Reflects(r, log, entry, i, j)
    {
      hide Uniform, Tracked, ApplyLog, OwnerOf, Lookup, Reflects, Follows, Succeeds, Moves;
      var hops;
      w, hops := Write(at, entry, raft);
      i, j := if log == [] then 0 else |log| - 1, 0;
      ghost var acked := w == Success;
      history := RunEvents(events);
      assert acked ==> entry.key in floor && floor[entry.key] >= i + 1 && i < |log| && log[i] == Some(entry);
      r, hops := Get(reader, entry.key);
      if acked {
        j := AnswerReflects(log, applied[Owner(entry.key)], i, entry, r);
      }
    }

    /** A put, any events, a read: once the put was acknowledged, the read finds its value, or what
        a later entry of the log about the key says. */
    method PutThenGet(at: NodeId, key: Bytes, value: Bytes, raft: Raft, events: seq<Event>, reader: NodeId)
      returns (w: WriteReply, r: ReadReply, ghost history: seq<Moment>, ghost j: nat)
      requires Valid() && at in rings && reader in rings
      modifies this
      ensures Valid() && old(log) <= log && Follows(history, events) && history[|events|] == Now()
      ensures w == Success <==> key != [] && Owner(key) in old(leaders) && raft.commits
      ensures w == Success ==>
        && old(log) + [Some(LogEntry("PUT", key, value))] <= log
        && (if j == |old(log)| then r == Hit(value) else j > |old(log)| && Says(log, j, key, r))
    {
      hide Uniform, Tracked, ApplyLog, OwnerOf, Lookup, Follows, Moves;
      ghost var i;
      w, r, history, i, j := ReadAfterWrite(at, PutEntry(key, value), raft, events, reader);
    }

    /** The same for a deletion: the read finds nothing, or what a later entry about the key says. */
    method DeleteThenGet(at: NodeId, key: Bytes, raft: Raft, events: seq<Event>, reader: NodeId)
      returns (w: WriteReply, r: ReadReply, ghost history: seq<Moment>, ghost j: nat)
      requires Valid() && at in rings && reader in rings
      modifies this
      ensures Valid() && old(log) <= log && Follows(history, events) && history[|events|] == Now()
      ensures w == Success <==>
        key != [] && Owner(key) in old(leaders) && raft.commits && key in ApplyLog(map[], old(log))
      ensures w == Success ==>
        && old(log) + [Some(LogEntry("DELETE", key, []))] <= log
        && (if j == |old(log)| then r.Miss? else j > |old(log)| && Says(log, j, key, r))
    {
      hide Uniform, Tracked, ApplyLog, OwnerOf, Lookup, Follows, Moves;
      ghost var i;
      w, r, history, i, j := ReadAfterWrite(at, DeleteEntry(key), raft, events, reader);
    }
  }

  /** A key's value in a prefix of the log that reaches past a write of the key is decided by that
      write or a later one. */
  lemma {:induction false} ReflectsWrite(log: seq<Option<LogEntry>>, n: nat, i: nat, k: Bytes) returns (j: nat)
    requires i < n <= |log| && Touches(log[i], k)
    ensures i <= j < n && Touches(log[j], k)
    ensures Lookup(ApplyLog(map[], log[..n]), k) == Decided(log[j])
  {
    var last := LastTouch(log[..n], k);
    LogPointwise(map[], log[..n], k);
    assert log[..n][i] == log[i];
    j := last;
  }

  /** The reply is what entry `j` says of the key. */
  ghost predicate Says(log: seq<Option<LogEntry>>, j: nat, key: Bytes, r: ReadReply) {
    && j < |log| && log[j].Some? && log[j].value.key == key
    && if log[j].value.operation == "PUT" then r == Hit(log[j].value.value)
       else log[j].value.operation == "DELETE" && r.Miss?
  }

  /** The reply is what the entry `j` decided, and `j` is the acknowledged write at `i` or later. */
  ghost predicate Reflects(r: ReadReply, log: seq<Option<LogEntry>>, entry: LogEntry, i: nat, j: nat) {
    i <= j && i < |log| && log[i] == Some(entry) && Says(log, j, entry.key, r)
  }

  lemma {:induction false} AnswerReflects(log: seq<Option<LogEntry>>, n: nat, i: nat, entry: LogEntry,
                                          r: ReadReply) returns (j: nat)
    requires i < n <= |log| && log[i] == Some(entry) && Touches(Some(entry), entry.key)
    requires match Lookup(ApplyLog(map[], log[..n]), entry.key) case Some(v) => r == Hit(v) case None => r.Miss?
    ensures Reflects(r, log, entry, i, j)
  {
    j := ReflectsWrite(log, n, i, entry.key);
  }
}
