/** State machine replication: applying the committed log to the storage engine, on several
    nodes and again after a restart. */
module Replication {
  import opened Bytes
  import opened RecordLog
  import opened FileNames
  import opened Segments
  import opened Recovery
  import opened Merge
  import opened Crash
  import opened Directory
  import opened Engine
  import opened Compaction
  import Storage

  datatype LogEntry = LogEntry(operation: string, key: Bytes, value: Bytes)

  /** A committed Raft entry; `data` is None when the bytes do not decode as a log entry. */
  datatype Log = Log(index: nat, data: Option<LogEntry>)

  datatype Response = Applied | Undecodable | PutFailed | DeleteFailed | UnknownOperation

  // ---------- the deterministic apply function ----------

  function Respond(m: Contents, e: Option<LogEntry>): Response {
    match e
    case None => Undecodable
    case Some(LogEntry(op, k, _)) =>
      if op == "PUT" then (if k == [] then PutFailed else Applied)
      else if op == "DELETE" then (if k == [] || k !in m then DeleteFailed else Applied)
      else UnknownOperation
  }

  /** The map after an entry; an entry that is answered with an error changes nothing. */
  function ApplyEntry(m: Contents, e: Option<LogEntry>): (m': Contents)
    ensures Respond(m, e) != Applied ==> m' == m
  {
    match e
    case None => m
    case Some(LogEntry(op, k, v)) =>
      if k == [] then m
      else if op == "PUT" then m[k := v]
      else if op == "DELETE" then m - {k}
      else m
  }

  function ApplyLog(m: Contents, es: seq<Option<LogEntry>>): Contents {
    if es == [] then m else ApplyEntry(ApplyLog(m, es[..|es| - 1]), es[|es| - 1])
  }

  function Responses(m: Contents, es: seq<Option<LogEntry>>): seq<Response> {
    if es == [] then []
    else Responses(m, es[..|es| - 1]) + [Respond(ApplyLog(m, es[..|es| - 1]), es[|es| - 1])]
  }

  function Data(logs: seq<Log>): (es: seq<Option<LogEntry>>)
    ensures |es| == |logs| && forall i :: 0 <= i < |logs| ==> es[i] == logs[i].data
  {
    if logs == [] then [] else Data(logs[..|logs| - 1]) + [logs[|logs| - 1].data]
  }

  /** The Raft index of the last entry that was applied without an error. */
  function LastApplied(m: Contents, logs: seq<Log>, index: nat): nat {
    if logs == [] then index
    else
      var init, last := logs[..|logs| - 1], logs[|logs| - 1];
      if Respond(ApplyLog(m, Data(init)), last.data) == Applied then last.index else LastApplied(m, init, index)
  }

  class FSM {
    const api: Storage.API
    var index: nat

    constructor (api: Storage.API)
      ensures this.api == api && index == 0
    {
      this.api, index := api, 0;
    }

    ghost function Footprint(): set<object> { {this, api, api.compactor, api.bc, api.bc.dataDir} }

    /** Applies one entry. A put fails only for the empty key, a deletion for that and for a missing
        key; an entry that fails changes nothing, and the index moves only when one succeeds. */
    method Apply(log: Log) returns (r: Response)
      requires api.Valid()
      modifies this, api.bc, api.bc.dataDir
      ensures api.Valid() && r == Respond(old(api.Model()), log.data)
      ensures api.Model() == ApplyEntry(old(api.Model()), log.data)
      ensures index == if r == Applied then log.index else old(index)
      ensures r ==
        if log.data.None? then Undecodable
        else if log.data.value.operation == "PUT" then
          if log.data.value.key == [] then PutFailed else Applied
        else if log.data.value.operation == "DELETE" then
          if log.data.value.key == [] || log.data.value.key !in old(api.Model()) then DeleteFailed else Applied
        else UnknownOperation
      ensures api.Model() ==
        if r != Applied then old(api.Model())
        else if log.data.value.operation == "PUT" then old(api.Model())[log.data.value.key := log.data.value.value]
        else old(api.Model()) - {log.data.value.key}
      ensures old(api.bc.segs) != [] && api.bc.segs != []
      ensures Storage.SpanOf(api.bc.segs) ==
        StepSpan(Storage.SpanOf(old(api.bc.segs)), old(api.Model()), Commit(log), api.bc.maxFileSize)
    {
      hide ContentsOf, Consistent, Storage.SpanOf, Storage.NextSpan, CrashSafe, Contiguous, Flatten, Fits, DiskUsage;
      NotEmpty(api.bc.segs, api.bc.dataDir.files, api.bc.keyDir, api.bc.currentFileID, api.bc.currentOffset);
      if log.data.None? {
        return Undecodable;
      }
      var entry := log.data.value;
      if entry.operation == "PUT" {
        var put := api.Put(entry.key, entry.value);
        if put != Storage.Done {
          return PutFailed;
        }
      } else if entry.operation == "DELETE" {
        var deleted := api.Delete(entry.key);
        if deleted != Storage.Done {
          return DeleteFailed;
        }
      } else {
        return UnknownOperation;
      }
      index := log.index;
      r := Applied;
    }

    /** The state comes back from the data files, so a snapshot restores nothing. */
    method Restore()
    {
    }

    method GetLastIndex() returns (i: nat)
      ensures i == index
    {
      i := index;
    }
  }

  // ---------- replicas ----------

  /** What a node does: apply the next committed entry, or compact its own files. */
  datatype Step = Commit(log: Log) | Compact

  function Commits(steps: seq<Step>): seq<Log> {
    if steps == [] then []
    else
      var init, last := Commits(steps[..|steps| - 1]), steps[|steps| - 1];
      if last.Commit? then init + [last.log] else init
  }

  lemma {:induction false} CommitsExact(steps: seq<Step>, log: Log)
    ensures Commits([]) == []
    ensures Commits(steps + [Commit(log)]) == Commits(steps) + [log] && Commits(steps + [Compact]) == Commits(steps)
  {
    assert (steps + [Commit(log)])[..|steps|] == steps && (steps + [Compact])[..|steps|] == steps;
  }

  /** How a step moves the data files: as the request to the storage API that it stands for. */
  ghost function StepSpan(x: Storage.Span, m: Contents, step: Step, limit: nat): Storage.Span {
    match step
    case Compact => Storage.NextSpan(x, m, Storage.Request.Compact, limit)
    case Commit(Log(_, Some(LogEntry(op, k, v)))) =>
      if op == "PUT" then Storage.NextSpan(x, m, Storage.Put(k, v), limit)
      else if op == "DELETE" then Storage.NextSpan(x, m, Storage.Delete(k), limit)
      else x
    case Commit(_) => x
  }

  ghost function StepsSpan(x: Storage.Span, m: Contents, steps: seq<Step>, limit: nat): Storage.Span {
    if steps == [] then x
    else
      var init := steps[..|steps| - 1];
      StepSpan(StepsSpan(x, m, init, limit), ApplyLog(m, Data(Commits(init))), steps[|steps| - 1], limit)
  }

  /** The reply to an entry is decided by the map that the entries before it leave. */
  lemma {:induction false} ResponsesAt(m: Contents, es: seq<Option<LogEntry>>, i: nat)
    requires i < |es|
    ensures |Responses(m, es)| == |es| && Responses(m, es)[i] == Respond(ApplyLog(m, es[..i]), es[i])
  {
    if i < |es| - 1 {
      ResponsesAt(m, es[..|es| - 1], i);
      assert es[..|es| - 1][..i] == es[..i];
    } else if i > 0 {
      ResponsesAt(m, es[..|es| - 1], i - 1);
    }
  }

  /** The index is that of the last entry which was answered without an error. */
  lemma {:induction false} LastAppliedExact(m: Contents, logs: seq<Log>, index: nat) returns (i: int)
    ensures -1 <= i < |logs| && |Responses(m, Data(logs))| == |logs|
    ensures i >= 0 ==> Responses(m, Data(logs))[i] == Applied
    ensures forall j :: i < j < |logs| ==> Responses(m, Data(logs))[j] != Applied
    ensures LastApplied(m, logs, index) == if i >= 0 then logs[i].index else index
  {
    hide Respond, ApplyLog, Responses, LastApplied, Data, Commits;
    if logs == [] {
      StartReplica(m, index);
      CommitsExact([], Log(0, None));
      i := -1;
    } else {
      var init, last := logs[..|logs| - 1], logs[|logs| - 1];
      assert logs == init + [last];
      i := LastAppliedExact(m, init, index);
      CommitsSnoc(m, init, last, index);
      if Respond(ApplyLog(m, Data(init)), last.data) == Applied {
        i := |logs| - 1;
      }
    }
  }

  lemma {:induction false} CommitsSnoc(m: Contents, logs: seq<Log>, log: Log, index: nat)
    ensures Data(logs + [log]) == Data(logs) + [log.data]
    ensures ApplyLog(m, Data(logs + [log])) == ApplyEntry(ApplyLog(m, Data(logs)), log.data)
    ensures Responses(m, Data(logs + [log])) == Responses(m, Data(logs)) + [Respond(ApplyLog(m, Data(logs)), log.data)]
    ensures LastApplied(m, logs + [log], index) ==
      if Respond(ApplyLog(m, Data(logs)), log.data) == Applied then log.index else LastApplied(m, logs, index)
  {
    assert (logs + [log])[..|logs|] == logs;
    assert (Data(logs) + [log.data])[..|logs|] == Data(logs);
  }

  /** A node's map, replies and last index are functions of the committed entries alone: of no
      file limit, rotation or compaction. Only its files follow all its steps. */
  method RunReplica(f: FSM, steps: seq<Step>) returns (rs: seq<Response>)
    requires f.api.Valid()
    modifies f, f.api.compactor, f.api.bc, f.api.bc.dataDir
    ensures f.api.Valid()
    ensures f.api.Model() == ApplyLog(old(f.api.Model()), Data(Commits(steps)))
    ensures rs == Responses(old(f.api.Model()), Data(Commits(steps)))
    ensures f.index == LastApplied(old(f.api.Model()), Commits(steps), old(f.index))
    ensures old(f.api.bc.segs) != [] && f.api.bc.segs != []
    ensures Storage.SpanOf(f.api.bc.segs) ==
      StepsSpan(Storage.SpanOf(old(f.api.bc.segs)), old(f.api.Model()), steps, f.api.bc.maxFileSize)
  {
    hide ContentsOf, Consistent, ApplyEntry, Respond, Data, Storage.SpanOf, CrashSafe, Contiguous, Flatten;
    hide Fits, DiskUsage;
    hide StepSpan, StepsSpan, Storage.NextSpan, Commits, ApplyLog, Responses, LastApplied;
    NotEmpty(f.api.bc.segs, f.api.bc.dataDir.files, f.api.bc.keyDir, f.api.bc.currentFileID, f.api.bc.currentOffset);
    ghost var m, index, x := f.api.Model(), f.index, Storage.SpanOf(f.api.bc.segs);
    StartReplica(m, index);
    StepsSpanSnoc(x, m, [], Compact, f.api.bc.maxFileSize);
    rs := [];
    assert steps[..0] == [];
    var i := 0;
    while i < |steps|
      invariant i <= |steps| && f.api.Valid()
      invariant f.api.Model() == ApplyLog(m, Data(Commits(steps[..i])))
      invariant rs == Responses(m, Data(Commits(steps[..i])))
      invariant f.index == LastApplied(m, Commits(steps[..i]), index)
      invariant f.api.bc.segs != []
      invariant Storage.SpanOf(f.api.bc.segs) == StepsSpan(x, m, steps[..i], f.api.bc.maxFileSize)
      decreases |steps| - i
    {
      assert steps[..i + 1][..i] == steps[..i];
      StepsSpanSnoc(x, m, steps[..i], steps[i], f.api.bc.maxFileSize);
      assert steps[..i] + [steps[i]] == steps[..i + 1];
      match steps[i] {
        case Commit(log) =>
          CommitsExact(steps[..i], log);
          CommitsSnoc(m, Commits(steps[..i]), log, index);
          var r := f.Apply(log);
          rs := rs + [r];
        case Compact =>
          CommitsExact(steps[..i], Log(0, None));
          CompactSpan(Storage.SpanOf(f.api.bc.segs), f.api.Model(), f.api.bc.maxFileSize);
          f.api.Compact();
      }
      i := i + 1;
    }
    assert steps[..|steps|] == steps;
  }

  lemma {:induction false} StepsSpanSnoc(x: Storage.Span, m: Contents, steps: seq<Step>, step: Step, limit: nat)
    ensures StepsSpan(x, m, [], limit) == x
    ensures StepsSpan(x, m, steps + [step], limit) ==
      StepSpan(StepsSpan(x, m, steps, limit), ApplyLog(m, Data(Commits(steps))), step, limit)
  {
    assert (steps + [step])[..|steps|] == steps;
  }

  lemma {:induction false} CompactSpan(x: Storage.Span, m: Contents, limit: nat)
    ensures StepSpan(x, m, Compact, limit) == Storage.NextSpan(x, m, Storage.Request.Compact, limit)
  {
  }

  lemma {:induction false} StartReplica(m: Contents, index: nat)
    ensures ApplyLog(m, Data(Commits([]))) == m && Responses(m, Data(Commits([]))) == []
    ensures LastApplied(m, Commits([]), index) == index
  {
  }

  /** Two nodes that start from the same map and commit the same entries, each with its own file
      limit, layout and compactions, give every entry the same reply and end with the same map. */
  method ReplicasAgree(a: FSM, b: FSM, atA: seq<Step>, atB: seq<Step>) returns (ra: seq<Response>, rb: seq<Response>)
    requires a.api.Valid() && b.api.Valid() && a.Footprint() !! b.Footprint()
    requires a.api.Model() == b.api.Model() && a.index == b.index && Commits(atA) == Commits(atB)
    modifies a, a.api.compactor, a.api.bc, a.api.bc.dataDir
    modifies b, b.api.compactor, b.api.bc, b.api.bc.dataDir
    ensures a.api.Valid() && b.api.Valid()
    ensures ra == rb == Responses(old(a.api.Model()), Data(Commits(atA)))
    ensures a.api.Model() == b.api.Model() == ApplyLog(old(a.api.Model()), Data(Commits(atA)))
    ensures a.index == b.index == LastApplied(old(a.api.Model()), Commits(atA), old(a.index))
  {
    hide ContentsOf, Consistent, ApplyLog, Responses, LastApplied, Commits, Data;
    ra := RunReplica(a, atA);
    rb := RunReplica(b, atB);
  }

  // ---------- replay ----------

  /** The entry decides the key's value. */
  predicate Touches(e: Option<LogEntry>, k: Bytes) {
    e.Some? && e.value.key == k && k != [] && (e.value.operation == "PUT" || e.value.operation == "DELETE")
  }

  function LastTouch(es: seq<Option<LogEntry>>, k: Bytes): (i: int)
    ensures -1 <= i < |es| && (i >= 0 ==> Touches(es[i], k)) && forall j :: i < j < |es| ==> !Touches(es[j], k)
  {
    if es == [] then -1
    else if Touches(es[|es| - 1], k) then |es| - 1
    else LastTouch(es[..|es| - 1], k)
  }

  /** What a key holds when `e` was the last entry to decide it. */
  function Decided(e: Option<LogEntry>): Option<Bytes> {
    if e.Some? && e.value.operation == "PUT" then Some(e.value.value) else None
  }

  function Lookup(m: Contents, k: Bytes): Option<Bytes> { if k in m then Some(m[k]) else None }

  /** After any log a key holds what the last entry that touches it says, or what it held before. */
  lemma {:induction false} LogPointwise(m: Contents, es: seq<Option<LogEntry>>, k: Bytes)
    ensures var i := LastTouch(es, k);
      Lookup(ApplyLog(m, es), k) == if i >= 0 then Decided(es[i]) else Lookup(m, k)
  {
    if es != [] { LogPointwise(m, es[..|es| - 1], k); }
  }

  /** The same in plain words: the last PUT or DELETE of a key decides what it holds. */
  lemma {:induction false} LogByLast(m: Contents, es: seq<Option<LogEntry>>, k: Bytes) returns (i: int)
    requires k != []
    ensures -1 <= i < |es|
    ensures i >= 0 ==> es[i].Some? && es[i].value.key == k && es[i].value.operation in {"PUT", "DELETE"}
    ensures forall j :: i < j < |es| && es[j].Some? && es[j].value.key == k ==>
      es[j].value.operation !in {"PUT", "DELETE"}
    ensures k in ApplyLog(m, es) <==> if i >= 0 then es[i].value.operation == "PUT" else k in m
    ensures k in ApplyLog(m, es) ==> ApplyLog(m, es)[k] == if i >= 0 then es[i].value.value else m[k]
  {
    hide ApplyLog;
    i := LastTouch(es, k);
    LogPointwise(m, es, k);
  }

  lemma {:induction false} SameLookups(a: Contents, b: Contents)
    requires forall k :: Lookup(a, k) == Lookup(b, k)
    ensures a == b
  {
    forall k ensures k in a <==> k in b { assert Lookup(a, k) == Lookup(b, k); }
    forall k | k in a ensures a[k] == b[k] { assert Lookup(a, k) == Lookup(b, k); }
  }

  lemma {:induction false} ApplyLogConcat(m: Contents, a: seq<Option<LogEntry>>, b: seq<Option<LogEntry>>)
    ensures ApplyLog(m, a + b) == ApplyLog(ApplyLog(m, a), b)
  {
    if b == [] {
      Neutral(a);
    } else {
      ApplyLogConcat(m, a, b[..|b| - 1]);
      TakeAcross(a, b, |b| - 1);
    }
  }

  lemma {:induction false} UntouchedSlice(log: seq<Option<LogEntry>>, s: nat, e: nat, k: Bytes)
    requires s <= e <= |log| && LastTouch(log[s..], k) == -1
    ensures LastTouch(log[s..e], k) == -1
  {
    assert forall j :: 0 <= j < e - s ==> log[s..e][j] == log[s..][j];
  }

  /** Entries drawn from a log touch no key that the log does not touch. */
  lemma {:induction false} DrawnUntouched(es: seq<Option<LogEntry>>, log: seq<Option<LogEntry>>, k: Bytes)
    requires (forall e :: e in es ==> e in log) && LastTouch(log, k) == -1
    ensures LastTouch(es, k) == -1
  {
    assert forall e :: e in log ==> !Touches(e, k);
    assert forall i :: 0 <= i < |es| ==> es[i] in es;
  }

  /** Replay converges: a store that has applied the first `n` entries, then any entries of the log
      from `s` on, in any order and number, and then the whole log from `s`, holds exactly what
      applying the log once would give. Interrupted replays are such entries. */
  lemma {:induction false} ReplayConverges(m: Contents, log: seq<Option<LogEntry>>, s: nat, n: nat,
                                            es: seq<Option<LogEntry>>)
    requires s <= n <= |log| && forall e :: e in es ==> e in log[s..]
    ensures ApplyLog(ApplyLog(ApplyLog(m, log[..n]), es), log[s..]) == ApplyLog(m, log)
  {
    hide ApplyLog, LastTouch;
    var before := ApplyLog(m, log[..n]);
    var store, base := ApplyLog(before, es), ApplyLog(m, log[..s]);
    Split(log, s);
    ApplyLogConcat(m, log[..s], log[s..]);
    assert log[..n] == log[..s] + log[s..n];
    ApplyLogConcat(m, log[..s], log[s..n]);
    forall k ensures Lookup(ApplyLog(store, log[s..]), k) == Lookup(ApplyLog(base, log[s..]), k) {
      LogPointwise(store, log[s..], k);
      LogPointwise(base, log[s..], k);
      if LastTouch(log[s..], k) == -1 {
        DrawnUntouched(es, log[s..], k);
        LogPointwise(before, es, k);
        UntouchedSlice(log, s, n, k);
        LogPointwise(base, log[s..n], k);
      }
    }
    SameLookups(ApplyLog(store, log[s..]), ApplyLog(base, log[s..]));
  }

  /** A restart: the node reopens its own files and Raft hands it the log again from entry `s`, at
      first in interrupted attempts, `tries`. With no tombstone on disk it ends where an
      uninterrupted node would be; with one, it does not come up. */
  method RestartAndReplay(f: FSM, ghost m: Contents, logs: seq<Log>, s: nat, ghost n: nat, tries: seq<Step>)
    returns (f': FSM?)
    requires f.api.Valid() && s <= n <= |logs|
    requires f.api.Model() == ApplyLog(m, Data(logs)[..n])
    requires NamesInOrder(f.api.bc.dataDir.files) && Sound(f.api.bc.segs)
    requires forall e :: e in Data(Commits(tries)) ==> e in Data(logs)[s..]
    modifies f.api.bc.dataDir
    ensures f' == null <==> old(HasTombstone(Flatten(f.api.bc.segs)))
    ensures f' != null ==> fresh(f') && fresh(f'.api.bc) && f'.api.bc.dataDir == f.api.bc.dataDir
    ensures f' != null ==> f'.api.Valid() && f'.api.Model() == ApplyLog(m, Data(logs))
    ensures f' != null ==> var now := ApplyLog(old(f.api.Model()), Data(Commits(tries)));
      f'.index == LastApplied(now, logs[s..], LastApplied(old(f.api.Model()), Commits(tries), 0))
  {
    hide ContentsOf, Consistent, Flatten, HasTombstone, NamesInOrder, Sound, ApplyLog, Commits, Data;
    hide Responses, LastApplied;
    var bc := Bitcask.Restart(f.api.bc);
    if bc == null {
      return null;
    }
    assert Bitcask.SameEngine(bc, f.api.bc);
    var compactor := new Compactor(bc);
    var api := new Storage.API(bc, compactor);
    f' := new FSM(api);
    f'.Restore();
    var rs := RunReplica(f', tries);
    var steps := CommitAll(logs[s..]);
    rs := RunReplica(f', steps);
    DataSuffix(logs, s);
    ReplayConverges(m, Data(logs), s, n, Data(Commits(tries)));
  }

  method CommitAll(logs: seq<Log>) returns (steps: seq<Step>)
    ensures Commits(steps) == logs
  {
    steps := [];
    assert logs[..0] == [];
    for i := 0 to |logs|
      invariant Commits(steps) == logs[..i]
    {
      assert (steps + [Commit(logs[i])])[..|steps|] == steps;
      steps := steps + [Commit(logs[i])];
    }
    assert logs[..|logs|] == logs;
  }

  lemma {:induction false} DataSuffix(logs: seq<Log>, s: nat)
    requires s <= |logs|
    ensures Data(logs[s..]) == Data(logs)[s..]
  {
  }
}
