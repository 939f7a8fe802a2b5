/** The storage API against a plain map: what each request answers, what it does to the map, and
    how it moves the data files. */
module Storage {
  import opened Bytes
  import opened RecordLog
  import opened FileNames
  import opened Segments
  import opened Recovery
  import opened Merge
  import opened Crash
  import opened Directory
  import opened Engine
  import opened Compaction

  datatype Request = Put(key: Bytes, value: Bytes) | Get(key: Bytes) | Delete(key: Bytes) | Compact
  datatype Reply = Done | Value(value: Bytes) | KeyNotFound | EmptyKey | ReadError

  // ---------- the abstract store ----------

  /** The map after a request. */
  function Next(m: Contents, q: Request): Contents {
    match q
    case Put(k, v) => if k == [] then m else m[k := v]
    case Delete(k) => if k == [] then m else m - {k}
    case _ => m
  }

  /** The reply to a request. A value comes back as its sizes in the record header have it. */
  function ReplyTo(m: Contents, q: Request): Reply {
    match q
    case Put(k, _) => if k == [] then EmptyKey else Done
    case Get(k) => if k == [] then EmptyKey else if k in m then Value(Truncated(k, m[k])) else KeyNotFound
    case Delete(k) => if k == [] then EmptyKey else if k in m then Done else KeyNotFound
    case Compact => Done
  }

  function After(m: Contents, qs: seq<Request>): Contents {
    if qs == [] then m else Next(After(m, qs[..|qs| - 1]), qs[|qs| - 1])
  }

  function Replies(m: Contents, qs: seq<Request>): (rs: seq<Reply>)
    ensures |rs| == |qs|
  {
    if qs == [] then []
    else Replies(m, qs[..|qs| - 1]) + [ReplyTo(After(m, qs[..|qs| - 1]), qs[|qs| - 1])]
  }

  /** What a run leaves under a key is decided by the last request that writes the key: its value
      after a put, and nothing after a deletion. */
  lemma {:induction false} AfterByLast(m: Contents, qs: seq<Request>, k: Bytes) returns (i: int)
    ensures -1 <= i < |qs|
    ensures i >= 0 ==> k != [] && (qs[i].Put? || qs[i].Delete?) && qs[i].key == k
    ensures forall j :: i < j < |qs| && (qs[j].Put? || qs[j].Delete?) && qs[j].key == k ==> k == []
    ensures k in After(m, qs) <==> if i >= 0 then qs[i].Put? else k in m
    ensures k in After(m, qs) ==> After(m, qs)[k] == if i >= 0 then qs[i].value else m[k]
  {
    if qs == [] {
      i := -1;
    } else {
      var last := qs[|qs| - 1];
      if k != [] && (last.Put? || last.Delete?) && last.key == k {
        i := |qs| - 1;
      } else {
        i := AfterByLast(m, qs[..|qs| - 1], k);
      }
    }
  }

  lemma {:induction false} ReplyAt(m: Contents, qs: seq<Request>, i: nat)
    requires i < |qs|
    ensures Replies(m, qs)[i] == ReplyTo(After(m, qs[..i]), qs[i])
  {
    if i < |qs| - 1 {
      ReplyAt(m, qs[..|qs| - 1], i);
      assert qs[..|qs| - 1][..i] == qs[..i];
    }
  }

  /** The reply to request `i` of a run, from the requests alone: `j` is the last one before it that
      writes its key. A read answers with that value, for keys and values shorter than 2^32 bytes. */
  lemma {:induction false} RepliesByLast(m: Contents, qs: seq<Request>, i: nat) returns (j: int)
    requires i < |qs| && !qs[i].Compact?
    ensures -1 <= j < i
    ensures j >= 0 ==> (qs[j].Put? || qs[j].Delete?) && qs[j].key == qs[i].key
    ensures forall l :: j < l < i && (qs[l].Put? || qs[l].Delete?) && qs[l].key == qs[i].key ==> qs[i].key == []
    ensures qs[i].key == [] ==> Replies(m, qs)[i] == EmptyKey
    ensures qs[i].key != [] && qs[i].Put? ==> Replies(m, qs)[i] == Done
    ensures var present := if j >= 0 then qs[j].Put? else qs[i].key in m;
      qs[i].key != [] && !qs[i].Put? ==>
        if !present then Replies(m, qs)[i] == KeyNotFound
        else if qs[i].Delete? then Replies(m, qs)[i] == Done
        else
          var v := if j >= 0 then qs[j].value else m[qs[i].key];
          |qs[i].key| < 0x1_0000_0000 ==> (Replies(m, qs)[i] == Value(v) <==> |v| < 0x1_0000_0000)
  {
    hide Truncated, After, Replies;
    ReplyAt(m, qs, i);
    j := AfterByLast(m, qs[..i], qs[i].key);
    if qs[i].key in After(m, qs[..i]) { TruncatedExact(qs[i].key, After(m, qs[..i])[qs[i].key]); }
  }

  lemma {:induction false} CompactReply(m: Contents, qs: seq<Request>, i: nat)
    requires i < |qs| && qs[i].Compact?
    ensures Replies(m, qs)[i] == Done
  {
    ReplyAt(m, qs, i);
  }

  // ---------- the data files in outline ----------

  /** The first and last file ID, the length of the last file, and whether a tombstone is on disk. */
  datatype Span = Span(first: nat, last: nat, offset: nat, deleted: bool)

  function SpanOf(segs: seq<Segment>): Span
    requires segs != []
  {
    var s := segs[|segs| - 1];
    Span(segs[0].id, s.id, Length(s.recs), HasTombstone(Flatten(segs)))
  }

  /** How a request moves the data files: a put past the limit begins a new file, and a compaction
      leaves one file with the live records unless there is only file 0. */
  ghost function NextSpan(x: Span, m: Contents, q: Request, limit: nat): Span {
    match q
    case Put(k, v) =>
      if k == [] then x
      else if x.offset > limit then Span(x.first, x.last + 1, 8 + |k| + |v|, x.deleted)
      else x.(offset := x.offset + 8 + |k| + |v|)
    case Delete(k) => if k == [] || k !in m then x else x.(offset := x.offset + 8 + |k|, deleted := true)
    case Get(_) => x
    case Compact => if x.last == 0 then x else Span(x.last + 1, x.last + 1, LiveBytes(m), false)
  }

  ghost function SpanAfter(x: Span, m: Contents, qs: seq<Request>, limit: nat): Span {
    if qs == [] then x
    else
      var init := qs[..|qs| - 1];
      NextSpan(SpanAfter(x, m, init, limit), After(m, init), qs[|qs| - 1], limit)
  }

  /** The bytes a request may append to the data files: a header of 8 bytes, the key and the value. */
  function RequestBytes(q: Request): nat {
    match q
    case Put(k, v) => 8 + |k| + |v|
    case Delete(k) => 8 + |k|
    case _ => 0
  }

  function RecordBytes(qs: seq<Request>): nat {
    if qs == [] then 0 else RecordBytes(qs[..|qs| - 1]) + RequestBytes(qs[|qs| - 1])
  }

  lemma {:induction false} RecordBytesExact(qs: seq<Request>, q: Request)
    ensures RecordBytes([]) == 0
    ensures RecordBytes(qs + [q]) == RecordBytes(qs) +
      if q.Put? then 8 + |q.key| + |q.value| else if q.Delete? then 8 + |q.key| else 0
  {
    assert (qs + [q])[..|qs|] == qs;
  }

  /** The record of a put is shorter than 2^32 bytes. */
  predicate FitsFormat(q: Request) { q.Put? ==> 8 + |q.key| + |q.value| < U32 }

  lemma {:induction false} RotatedSpan(segs: seq<Segment>, id: nat)
    requires segs != []
    ensures var out := segs + [Segment(id, [])];
      && SpanOf(out) == Span(segs[0].id, id, 0, SpanOf(segs).deleted) && Flatten(out) == Flatten(segs)
      && DiskUsage(out) == DiskUsage(segs)
  {
    AppendSegmentEffect(segs, id);
    DiskUsageSnoc(segs, Segment(id, []));
  }

  lemma {:induction false} AppendedSpan(segs: seq<Segment>, r: Record)
    requires segs != []
    ensures var x := SpanOf(segs);
      SpanOf(AppendRecord(segs, r)) == x.(offset := x.offset + Size(r), deleted := x.deleted || r.Tombstone?)
    ensures Fits(Flatten(segs)) && (r.Put? ==> Size(r) < U32) ==> Fits(Flatten(AppendRecord(segs, r)))
    ensures DiskUsage(AppendRecord(segs, r)) == DiskUsage(segs) + Size(r)
  {
    hide Flatten, ContentsOf, Length, HasTombstone, Fits, DiskUsage;
    var init, s := segs[..|segs| - 1], segs[|segs| - 1];
    AppendRecordContents(segs, r);
    assert segs == init + [s];
    DiskUsageSnoc(init, s);
    DiskUsageSnoc(init, Segment(s.id, s.recs + [r]));
    OneMoreRecord(Flatten(segs), r);
    OneMoreRecord(s.recs, r);
  }

  lemma {:induction false} OneMoreRecord(rs: seq<Record>, r: Record)
    ensures Length(rs + [r]) == Length(rs) + Size(r)
    ensures HasTombstone(rs + [r]) <==> HasTombstone(rs) || r.Tombstone?
    ensures Fits(rs) && (r.Put? ==> Size(r) < U32) ==> Fits(rs + [r])
  {
    TombstoneConcat(rs, [r]);
    LengthConcat(rs, [r]);
    assert Length([r]) == Size(r) + Length([]) == Size(r);
    assert forall x :: x in rs + [r] <==> x in rs || x == r;
  }

  lemma {:induction false} PutSpan(segs: seq<Segment>, files: Files, kd: KeyDir, id: nat, offset: nat, m: Contents,
                                   q: Request, limit: nat)
    requires Consistent(segs, files, kd, id, offset) && q.Put? && q.key != []
    ensures var base := if offset > limit then segs + [Segment(id + 1, [])] else segs;
      var out := AppendRecord(base, RecordLog.Put(q.key, q.value));
      && SpanOf(out) == NextSpan(SpanOf(segs), m, q, limit)
      && (Fits(Flatten(segs)) && FitsFormat(q) ==> Fits(Flatten(out)))
      && DiskUsage(out) == DiskUsage(segs) + RequestBytes(q)
  {
    hide Flatten, HasTombstone, Fits, Length, DiskUsage;
    RotatedSpan(segs, id + 1);
    AppendedSpan(segs, RecordLog.Put(q.key, q.value));
    AppendedSpan(segs + [Segment(id + 1, [])], RecordLog.Put(q.key, q.value));
  }

  lemma {:induction false} SpanStays(x: Span, m: Contents, q: Request, limit: nat)
    requires q.Put? && q.key == []
    ensures NextSpan(x, m, q, limit) == x
  {
  }

  lemma {:induction false} MergedSpan(before: seq<Segment>, merged: nat, recs: seq<Record>)
    requires IsMerge(recs, ContentsOf(before))
    ensures SpanOf([Segment(merged, recs)]) == Span(merged, merged, LiveBytes(ContentsOf(before)), false)
    ensures Fits(Flatten(before)) ==> Fits(Flatten([Segment(merged, recs)]))
    ensures DiskUsage([Segment(merged, recs)]) <= DiskUsage(before)
  {
    hide ContentsOf, HasTombstone, DiskUsage, Length, LiveBytes, Live, LivePuts, DistinctKeys, EncodeAll, Flatten;
    var m := ContentsOf(before);
    MergeBytes(recs, m);
    MergedFile(merged, recs, m);
    OneFile(merged, recs);
    MergeReclaims(before, recs);
    LoggedRecords(before, recs);
  }

  lemma {:induction false} OneFile(merged: nat, recs: seq<Record>)
    ensures var log := [Segment(merged, recs)]; Flatten(log) == recs && DiskUsage(log) == Length(recs)
  {
    var s := Segment(merged, recs);
    LastSegment([], s);
    DiskUsageSnoc([], s);
    assert [] + [s] == [s];
    Neutral(recs);
  }

  lemma {:induction false} LoggedRecords(before: seq<Segment>, recs: seq<Record>)
    requires LivePuts(recs, ContentsOf(before))
    ensures forall r :: r in recs ==> r in Flatten(before)
  {
    ContentsLogged(Flatten(before));
    forall r | r in recs ensures r in Flatten(before) {
      assert r == RecordLog.Put(r.key, ContentsOf(before)[r.key]);
    }
  }

  // ---------- the engine behind it ----------

  class API {
    const bc: Bitcask
    const compactor: Compactor

    ghost predicate Valid()
      reads this, compactor, bc, bc.dataDir
    {
      compactor.bc == bc && !compactor.active && bc.Valid()
    }

    ghost function Model(): Contents
      reads bc
    {
      bc.Model()
    }

    constructor (bc: Bitcask, compactor: Compactor)
      ensures this.bc == bc && this.compactor == compactor
    {
      this.bc, this.compactor := bc, compactor;
    }

    /** The files have moved from `before` as the request moves them, with a crash at any instant
        safe. `n` is where the trace stood before. */
    twostate predicate Served(q: Request)
      reads bc, bc.dataDir
    {
      && old(bc.segs) != [] && bc.segs != []
      && Model() == Next(old(Model()), q)
      && SpanOf(bc.segs) == NextSpan(SpanOf(old(bc.segs)), old(Model()), q, bc.maxFileSize)
      && (old(Contiguous(bc.segs)) ==> Contiguous(bc.segs))
      && (Fits(Flatten(old(bc.segs))) && FitsFormat(q) ==> Fits(Flatten(bc.segs)))
      && DiskUsage(bc.segs) <= DiskUsage(old(bc.segs)) + RequestBytes(q)
      && old(bc.dataDir.trace) <= bc.dataDir.trace
      && CrashSafe(bc.dataDir.trace[|old(bc.dataDir.trace)|..], old(bc.segs), bc.segs)
    }

    method Put(key: Bytes, value: Bytes) returns (r: Reply)
      requires Valid()
      modifies bc, bc.dataDir
      ensures Valid() && r == ReplyTo(old(Model()), Request.Put(key, value))
      ensures Served(Request.Put(key, value))
    {
      hide ContentsOf, Consistent, Contiguous, CrashSafe, SpanOf, Fits, Flatten, AppendRecord;
      hide NextSpan, AppendSteps, FullySynced, DiskUsage;
      NotEmpty(bc.segs, bc.dataDir.files, bc.keyDir, bc.currentFileID, bc.currentOffset);
      if key == [] {
        SpanStays(SpanOf(bc.segs), Model(), Request.Put(key, value), bc.maxFileSize);
        NothingHappened(bc.dataDir.trace[|bc.dataDir.trace|..], bc.segs);
        return EmptyKey;
      }
      PutSpan(bc.segs, bc.dataDir.files, bc.keyDir, bc.currentFileID, bc.currentOffset, Model(),
              Request.Put(key, value), bc.maxFileSize);
      bc.Put(key, value);
      r := Done;
    }

    method Get(key: Bytes) returns (r: Reply)
      requires Valid()
      ensures r == ReplyTo(Model(), Request.Get(key))
    {
      hide ContentsOf, Consistent, Contiguous, Truncated;
      if key == [] {
        return EmptyKey;
      }
      var got := bc.Get(key);
      r := match got case Found(v) => Value(v) case NotFound => KeyNotFound case ReadFailed => ReadError;
    }

    method Delete(key: Bytes) returns (r: Reply)
      requires Valid()
      modifies bc, bc.dataDir
      ensures Valid() && r == ReplyTo(old(Model()), Request.Delete(key))
      ensures Served(Request.Delete(key))
    {
      hide ContentsOf, Consistent, Contiguous, CrashSafe, SpanOf, Fits, Flatten, AppendRecord, DiskUsage;
      NotEmpty(bc.segs, bc.dataDir.files, bc.keyDir, bc.currentFileID, bc.currentOffset);
      if key == [] {
        NothingHappened(bc.dataDir.trace[|bc.dataDir.trace|..], bc.segs);
        return EmptyKey;
      }
      AppendedSpan(bc.segs, Tombstone(key));
      var found := bc.Delete(key);
      r := if found then Done else KeyNotFound;
    }

    method Compact()
      requires Valid()
      modifies compactor, bc, bc.dataDir
      ensures Valid() && Served(Request.Compact)
    {
      hide ContentsOf, Contiguous, CrashSafe, Fits, Flatten, FilesOf, Replay, Length, Ids, HasTombstone, DiskUsage;
      ghost var before := bc.segs;
      var ok, recs := compactor.Compact();
      if before[|before| - 1].id > 0 { MergedSpan(before, before[|before| - 1].id + 1, recs); }
    }
  }
}
