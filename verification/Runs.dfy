/** Whole runs of the storage API against a plain map, from an empty directory and through any
    number of crashes. */
module Runs {
  import opened Bytes
  import opened RecordLog
  import opened FileNames
  import opened Segments
  import opened Recovery
  import opened Merge
  import opened Crash
  import opened Directory
  import opened Engine
  import opened Compaction
  import opened Storage

  // ---------- the history of a run ----------

  /** `marks[i]` is where request `i` begins in the trace and `logs[i]` the log at that point. Every
      log is the one on disk and holds what the map holds; in between a crash is safe. */
  ghost predicate SafeRun(trace: seq<Snapshot>, marks: seq<nat>, logs: seq<seq<Segment>>, m: Contents,
                          qs: seq<Request>)
  {
    && |marks| == |logs| == |qs| + 1 && marks[|qs|] == |trace|
    && (forall i :: 0 <= i <= |qs| ==> Recorded(trace, marks[i], logs[i], After(m, qs[..i])))
    && (forall i :: 0 <= i < |qs| ==> SafeRequest(trace, marks, logs, i))
  }

  /** At instant `n` the log is on disk, all of it durable, and holds what the map holds. */
  ghost predicate Recorded(trace: seq<Snapshot>, n: nat, log: seq<Segment>, m: Contents) {
    && n <= |trace| && ContentsOf(log) == m && Ascending(Ids(log))
    && (n > 0 ==> trace[n - 1] == Snapshot(FilesOf(log), FullySynced(FilesOf(log))))
  }

  /** The log after each request spans the files that the requests so far determine, and holds no
      more bytes than they wrote. */
  ghost predicate Placed(logs: seq<seq<Segment>>, m: Contents, qs: seq<Request>, limit: nat) {
    && |logs| == |qs| + 1 && logs[0] != []
    && forall i :: 0 <= i <= |qs| ==> PlacedAt(logs[0], logs[i], m, qs[..i], limit)
  }

  ghost predicate PlacedAt(first: seq<Segment>, log: seq<Segment>, m: Contents, qs: seq<Request>, limit: nat)
    requires first != []
  {
    && log != [] && SpanOf(log) == SpanAfter(SpanOf(first), m, qs, limit)
    && DiskUsage(log) <= DiskUsage(first) + RecordBytes(qs)
  }

  lemma {:induction false} OneMorePlaced(logs: seq<seq<Segment>>, m: Contents, qs: seq<Request>, i: nat, limit: nat,
                                          log: seq<Segment>)
    requires i < |qs| && Placed(logs, m, qs[..i], limit) && PlacedAt(logs[0], log, m, qs[..i + 1], limit)
    ensures Placed(logs + [log], m, qs[..i + 1], limit)
  {
    hide SpanOf, SpanAfter, DiskUsage, RecordBytes;
    var done := qs[..i + 1];
    assert done[..i + 1] == done;
    forall j | 0 <= j <= i + 1 ensures PlacedAt(logs[0], (logs + [log])[j], m, done[..j], limit) {
      if j <= i {
        assert done[..j] == qs[..i][..j];
        assert PlacedAt(logs[0], logs[j], m, qs[..i][..j], limit);
      }
    }
  }

  ghost predicate SafeRequest(trace: seq<Snapshot>, marks: seq<nat>, logs: seq<seq<Segment>>, i: nat)
    requires i + 1 < |marks| && |logs| == |marks|
  {
    && marks[i] <= marks[i + 1] <= |trace|
    && CrashSafe(trace[marks[i]..marks[i + 1]], logs[i], logs[i + 1])
  }

  lemma {:induction false} OneMoreServed(trace: seq<Snapshot>, marks: seq<nat>, logs: seq<seq<Segment>>, m: Contents,
                                         qs: seq<Request>, i: nat, now: seq<Snapshot>, log: seq<Segment>)
    requires i < |qs| && SafeRun(trace, marks, logs, m, qs[..i]) && trace <= now
    requires CrashSafe(now[|trace|..], logs[i], log) && Recorded(now, |now|, log, After(m, qs[..i + 1]))
    ensures SafeRun(now, marks + [|now|], logs + [log], m, qs[..i + 1])
  {
    hide CrashSafe, After, ContentsOf, FilesOf, Ids, Ascending, FullySynced;
    var ms, ls, done := marks + [|now|], logs + [log], qs[..i + 1];
    assert now[|trace|..] == now[|trace|..|now|];
    assert done[..i + 1] == done;
    forall j | 0 <= j <= i + 1 ensures Recorded(now, ms[j], ls[j], After(m, done[..j])) {
      if j <= i {
        assert done[..j] == qs[..i][..j];
        assert Recorded(trace, marks[j], logs[j], After(m, qs[..i][..j]));
      }
    }
    forall j | 0 <= j <= i ensures SafeRequest(now, ms, ls, j) {
      if j < i {
        assert SafeRequest(trace, marks, logs, j);
        assert now[ms[j]..ms[j + 1]] == trace[marks[j]..marks[j + 1]];
      }
    }
  }

  // ---------- runs ----------

  /** One request. */
  method Serve(api: API, q: Request) returns (r: Reply)
    requires api.Valid()
    modifies api.compactor, api.bc, api.bc.dataDir
    ensures api.Valid() && r == ReplyTo(old(api.Model()), q) && api.Served(q)
  {
    hide ContentsOf, Consistent, Contiguous, CrashSafe, Fits, Flatten, SpanOf, Truncated;
    NotEmpty(api.bc.segs, api.bc.dataDir.files, api.bc.keyDir, api.bc.currentFileID, api.bc.currentOffset);
    r := Done;
    match q {
      case Put(k, v) => r := api.Put(k, v);
      case Get(k) => {
        r := api.Get(k);
        NothingHappened(api.bc.dataDir.trace[|api.bc.dataDir.trace|..], api.bc.segs);
      }
      case Delete(k) => r := api.Delete(k);
      case Compact => api.Compact();
    }
  }

  /** Any sequence of requests on a valid engine, whatever its file limit and the state of its
      files: every reply is the one the abstract map gives, the files are where the requests put
      them, and a crash at any instant is safe. */
  method Run(api: API, qs: seq<Request>) returns (rs: seq<Reply>, ghost marks: seq<nat>, ghost logs: seq<seq<Segment>>)
    requires api.Valid()
    modifies api.compactor, api.bc, api.bc.dataDir
    ensures api.Valid() && rs == Replies(old(api.Model()), qs) && api.Model() == After(old(api.Model()), qs)
    ensures SafeRun(api.bc.dataDir.trace, marks, logs, old(api.Model()), qs)
    ensures old(api.bc.dataDir.trace) <= api.bc.dataDir.trace
    ensures marks[0] == |old(api.bc.dataDir.trace)| && logs[0] == old(api.bc.segs) && logs[|qs|] == api.bc.segs
    ensures old(api.bc.segs) != [] && api.bc.segs != []
    ensures SpanOf(api.bc.segs) == SpanAfter(SpanOf(old(api.bc.segs)), old(api.Model()), qs, api.bc.maxFileSize)
    ensures Placed(logs, old(api.Model()), qs, api.bc.maxFileSize)
    ensures old(Contiguous(api.bc.segs)) ==> Contiguous(api.bc.segs)
    ensures Fits(Flatten(old(api.bc.segs))) && (forall q :: q in qs ==> FitsFormat(q)) ==> Fits(Flatten(api.bc.segs))
  {
    hide ContentsOf, Consistent, Contiguous, CrashSafe, SafeRun, Recorded, Fits, Flatten, SpanOf, NextSpan;
    hide ReplyTo, Next, FitsFormat, DiskUsage, Placed, SpanAfter, RecordBytes;
    rs := [];
    ghost var m := api.Model();
    NotEmpty(api.bc.segs, api.bc.dataDir.files, api.bc.keyDir, api.bc.currentFileID, api.bc.currentOffset);
    assert qs[..0] == [];
    NowRecorded(api);
    marks, logs := [|api.bc.dataDir.trace|], [api.bc.segs];
    NothingServed(api.bc.dataDir.trace, marks, logs, m);
    NothingPlaced(logs, m, api.bc.maxFileSize);
    var i := 0;
    while i < |qs|
      invariant i <= |qs| && api.Valid() && api.bc.segs != [] && |marks| == |logs| == i + 1 && logs[0] != []
      invariant api.Model() == After(m, qs[..i]) && rs == Replies(m, qs[..i])
      invariant PlacedAt(logs[0], api.bc.segs, m, qs[..i], api.bc.maxFileSize)
      invariant Placed(logs, m, qs[..i], api.bc.maxFileSize)
      invariant old(Contiguous(api.bc.segs)) ==> Contiguous(api.bc.segs)
      invariant Fits(Flatten(old(api.bc.segs))) && (forall q :: q in qs ==> FitsFormat(q)) ==>
        Fits(Flatten(api.bc.segs))
      invariant SafeRun(api.bc.dataDir.trace, marks, logs, m, qs[..i])
      invariant old(api.bc.dataDir.trace) <= api.bc.dataDir.trace
      invariant marks[0] == |old(api.bc.dataDir.trace)| && logs[0] == old(api.bc.segs) && logs[i] == api.bc.segs
      decreases |qs| - i
    {
      assert qs[..i + 1][..i] == qs[..i] && qs[i] in qs;
      ghost var trace := api.bc.dataDir.trace;
      var r := Serve(api, qs[i]);
      NowRecorded(api);
      NextPlace(logs[0], m, qs, i, logs[i], api.bc.segs, api.bc.maxFileSize);
      OneMorePlaced(logs, m, qs, i, api.bc.maxFileSize, api.bc.segs);
      OneMoreServed(trace, marks, logs, m, qs, i, api.bc.dataDir.trace, api.bc.segs);
      marks, logs := marks + [|api.bc.dataDir.trace|], logs + [api.bc.segs];
      rs := rs + [r];
      i := i + 1;
    }
    assert qs[..|qs|] == qs;
  }

  lemma {:induction false} NextPlace(first: seq<Segment>, m: Contents, qs: seq<Request>, i: nat, log: seq<Segment>,
                                      now: seq<Segment>, limit: nat)
    requires i < |qs| && first != [] && PlacedAt(first, log, m, qs[..i], limit) && now != []
    requires SpanOf(now) == NextSpan(SpanOf(log), After(m, qs[..i]), qs[i], limit)
    requires DiskUsage(now) <= DiskUsage(log) + RequestBytes(qs[i])
    ensures PlacedAt(first, now, m, qs[..i + 1], limit)
  {
    hide SpanOf, DiskUsage, NextSpan, After, RequestBytes;
    var done := qs[..i + 1];
    assert done[..|done| - 1] == qs[..i] && done[|done| - 1] == qs[i];
  }

  lemma {:induction false} NothingPlaced(logs: seq<seq<Segment>>, m: Contents, limit: nat)
    requires |logs| == 1 && logs[0] != []
    ensures Placed(logs, m, [], limit) && PlacedAt(logs[0], logs[0], m, [], limit)
  {
    hide DiskUsage, SpanOf;
    var none: seq<Request> := [];
    assert none[..0] == none;
  }

  lemma {:induction false} NowRecorded(api: API)
    requires api.Valid()
    ensures Recorded(api.bc.dataDir.trace, |api.bc.dataDir.trace|, api.bc.segs, api.Model())
  {
  }

  lemma {:induction false} NothingServed(trace: seq<Snapshot>, marks: seq<nat>, logs: seq<seq<Segment>>, m: Contents)
    requires |marks| == |logs| == 1 && marks[0] == |trace| && Recorded(trace, |trace|, logs[0], m)
    ensures SafeRun(trace, marks, logs, m, [])
  {
    hide Recorded;
    var none: seq<Request> := [];
    assert none[..0] == none;
  }

  // ---------- from an empty directory ----------

  /** Opens an empty directory, serves any requests, closes it and opens it again. Every reply is
      the abstract map's and a crash at any instant is safe. If the requests leave file IDs with
      equally many digits and every put is shorter than 2^32 bytes, nothing of the run is lost
      unless a deletion has not been compacted away since; then opening fails, if the log is within
      the limits of the file format, as it is when the requests write fewer than 2^32-1 bytes. */
  method RunFromEmpty(dir: DataDir, qs: seq<Request>)
    returns (rs: seq<Reply>, again: Bitcask?, ghost marks: seq<nat>, ghost logs: seq<seq<Segment>>)
    requires dir.files == map[] && dir.synced == map[] && dir.trace == []
    modifies dir
    ensures rs == Replies(map[], qs) && SafeRun(dir.trace, marks, logs, map[], qs)
    ensures marks[0] == 1 && logs[0] == [Segment(0, [])] && dir.files == FilesOf(logs[|qs|])
    ensures logs[|qs|] != [] && SpanOf(logs[|qs|]) == SpanAfter(Span(0, 0, 0, false), map[], qs, MAX_FILE_SIZE)
    ensures again != null ==> fresh(again) && again.dataDir == dir
    ensures var x := SpanAfter(Span(0, 0, 0, false), map[], qs, MAX_FILE_SIZE);
      |Decimal(x.first)| == |Decimal(x.last)| ==>
        && ((forall q :: q in qs ==> FitsFormat(q)) && !x.deleted ==>
              again != null && again.Valid() && again.Model() == After(map[], qs))
        && (x.deleted && (Sound(logs[|qs|]) || RecordBytes(qs) < 0xFFFF_FFFF) ==> again == null)
    ensures SpanAfter(Span(0, 0, 0, false), map[], qs, MAX_FILE_SIZE).last < 10 && RecordBytes(qs) < 0xFFFF_FFFF ==>
      TameRun(logs)
  {
    hide ContentsOf, Consistent, Contiguous, NamesInOrder, RecordsFit, Sound, Flatten, HasTombstone, Decimal, SafeRun;
    hide FilesOf, Fits, Recovery.Recover, SpanAfter, OnDisk, DiskUsage, Placed, RecordBytes, TameRun;
    StartEmpty(dir.files);
    var bc := Bitcask.Open(dir);
    var compactor := new Compactor(bc);
    var api := new API(bc, compactor);
    rs, marks, logs := Run(api, qs);
    ghost var segs := bc.segs;
    NamesOfRun(segs, dir.files, bc.keyDir, bc.currentFileID, bc.currentOffset);
    SmallRun(dir.trace, marks, logs, qs);
    again := Bitcask.Restart(bc);
  }

  lemma {:induction false} NamesOfRun(segs: seq<Segment>, files: Files, kd: KeyDir, id: nat, offset: nat)
    requires Consistent(segs, files, kd, id, offset) && Contiguous(segs)
    ensures segs != [] && files == FilesOf(segs)
    ensures |Decimal(segs[0].id)| == |Decimal(segs[|segs| - 1].id)| ==> NamesInOrder(files)
    ensures Fits(Flatten(segs)) && !HasTombstone(Flatten(segs)) ==> Sound(segs)
  {
    hide Decimal, FilesOf, NamesInOrder, Flatten, Sound;
    ContiguousNames(segs);
    if Fits(Flatten(segs)) && !HasTombstone(Flatten(segs)) { PutsSound(segs); }
  }

  /** A run that writes fewer than 2^32-1 bytes stays within the limits of the file format, and as
      long as all its file IDs have one digit the names of the files sort as the IDs do. */
  lemma {:induction false} SmallRun(trace: seq<Snapshot>, marks: seq<nat>, logs: seq<seq<Segment>>, qs: seq<Request>)
    requires SafeRun(trace, marks, logs, map[], qs) && Placed(logs, map[], qs, MAX_FILE_SIZE)
    requires logs[0] == [Segment(0, [])]
    ensures RecordBytes(qs) < 0xFFFF_FFFF ==> Sound(logs[|qs|])
    ensures SpanAfter(Span(0, 0, 0, false), map[], qs, MAX_FILE_SIZE).last < 10 && RecordBytes(qs) < 0xFFFF_FFFF ==>
      TameRun(logs)
  {
    hide SpanAfter, DiskUsage, Sound, RecordBytes, FilesOf, Tame, CrashSafe, ContentsOf, After, SafeRequest;
    hide Ids, Decimal;
    EmptyLogSpan();
    if RecordBytes(qs) < 0xFFFF_FFFF {
      forall i | 0 <= i <= |qs| ensures Sound(logs[i]) {
        assert PlacedAt(logs[0], logs[i], map[], qs[..i], MAX_FILE_SIZE);
        RecordBytesGrow(qs, i);
        SmallDiskSound(logs[i]);
      }
      if SpanAfter(Span(0, 0, 0, false), map[], qs, MAX_FILE_SIZE).last < 10 {
        forall i | 0 <= i <= |qs| ensures forall f :: f in FilesOf(logs[i]) ==> f < 10 {
          assert PlacedAt(logs[0], logs[i], map[], qs[..i], MAX_FILE_SIZE);
          assert Recorded(trace, marks[i], logs[i], After(map[], qs[..i]));
          SpanGrows(Span(0, 0, 0, false), map[], qs, i, MAX_FILE_SIZE);
          LastIsLargestId(logs[i]);
        }
        forall i, j | 0 <= i <= |qs| && 0 <= j <= |qs| ensures Tame(logs[i], logs[j]) {
          OneDigitTame(logs[i], logs[j]);
        }
      }
    }
  }

  lemma {:induction false} OneDigitTame(a: seq<Segment>, b: seq<Segment>)
    requires Sound(a) && Sound(b)
    requires (forall f :: f in FilesOf(a) ==> f < 10) && forall f :: f in FilesOf(b) ==> f < 10
    ensures Tame(a, b)
  {
    hide FilesOf, Sound;
    SameWidthListing(FilesOf(a).Keys + FilesOf(b).Keys);
  }

  lemma {:induction false} EmptyLogSpan()
    ensures SpanOf([Segment(0, [])]) == Span(0, 0, 0, false) && DiskUsage([Segment(0, [])]) == 0
  {
    OneEmptySegment();
    DiskUsageSnoc([], Segment(0, []));
    assert [] + [Segment(0, [])] == [Segment(0, [])];
  }

  lemma {:induction false} LastIsLargestId(log: seq<Segment>)
    requires log != [] && Ascending(Ids(log))
    ensures forall f :: f in FilesOf(log) ==> f <= SpanOf(log).last
  {
    hide FilesOf, Flatten;
    FileIds(log);
    var ids := Ids(log);
    assert forall i :: 0 <= i < |ids| ==> ids[i] <= ids[|ids| - 1];
  }

  lemma {:induction false} RecordBytesGrow(qs: seq<Request>, i: nat)
    requires i <= |qs|
    ensures RecordBytes(qs[..i]) <= RecordBytes(qs)
  {
    if i < |qs| {
      RecordBytesGrow(qs[..|qs| - 1], i);
      assert qs[..|qs| - 1][..i] == qs[..i];
    } else {
      assert qs[..i] == qs;
    }
  }

  lemma {:induction false} SpanGrows(x: Span, m: Contents, qs: seq<Request>, i: nat, limit: nat)
    requires i <= |qs|
    ensures SpanAfter(x, m, qs[..i], limit).last <= SpanAfter(x, m, qs, limit).last
  {
    if i < |qs| {
      SpanGrows(x, m, qs[..|qs| - 1], i, limit);
      assert qs[..|qs| - 1][..i] == qs[..i];
    } else {
      assert qs[..i] == qs;
    }
  }

  lemma {:induction false} PutsSound(segs: seq<Segment>)
    requires Fits(Flatten(segs)) && !HasTombstone(Flatten(segs))
    ensures Sound(segs)
  {
    hide Flatten, Delimited;
    forall i | 0 <= i < |segs| ensures Delimited(segs[i].recs, 0) && Fits(segs[i].recs) {
      forall r | r in segs[i].recs ensures r.Put? && Size(r) < U32 {
        FlattenMembers(segs, r);
        assert segs[i] in segs;
      }
      PutsDelimited(segs[i].recs, 0);
    }
  }

  lemma {:induction false} StartEmpty(files: Files)
    requires files == map[]
    ensures Recovery.Recover(files) == Some(map[]) && NamesInOrder(files) && RecordsFit(files)
    ensures OnDisk(map[0 := []]) == [Segment(0, [])] && ContentsOf([Segment(0, [])]) == map[]
    ensures Contiguous([Segment(0, [])]) && SpanOf([Segment(0, [])]) == Span(0, 0, 0, false)
    ensures Fits(Flatten([Segment(0, [])])) && FullySynced(files) == map[]
  {
    hide Recovery.Recover, Listing, IsListing, Consistent, OnDisk;
    EmptyDirectory();
    assert files.Keys == {};
    OneEmptySegment();
  }

  lemma {:induction false} OneEmptySegment()
    ensures ContentsOf([Segment(0, [])]) == map[] && Flatten([Segment(0, [])]) == []
  {
    LastSegment([], Segment(0, []));
    assert [] + [Segment(0, [])] == [Segment(0, [])];
  }

  // ---------- through crashes ----------

  /** All logs of a run are within the limits of the file format, and the names of their files sort
      as the IDs do. */
  ghost predicate TameRun(logs: seq<seq<Segment>>) {
    && (forall i :: 0 <= i < |logs| ==> Tame(logs[i], logs[i]))
    && (forall i :: 0 <= i < |logs| - 1 ==> Tame(logs[i], logs[i + 1]))
  }

  /** The life of one process: a run of requests, cut short after instant `t` by a crash that left
      the files `img`. */
  datatype Life = Life(qs: seq<Request>, trace: seq<Snapshot>, marks: seq<nat>, logs: seq<seq<Segment>>, t: nat,
                       img: Files)

  ghost predicate Crashed(l: Life, log: seq<Segment>) {
    && SafeRun(l.trace, l.marks, l.logs, ContentsOf(log), l.qs) && l.logs[0] == log
    && 0 < l.marks[0] <= l.t + 1 <= |l.trace| && TameRun(l.logs) && CrashImage(l.trace[l.t], l.img)
  }

  /** The first `i` requests are those that took effect: all that were answered before the crash,
      and none that had not begun. */
  ghost predicate TookEffect(l: Life, i: nat) {
    && i <= |l.qs| < |l.marks|
    && (forall j :: 0 <= j <= |l.qs| && l.marks[j] <= l.t + 1 ==> j <= i)
    && (i > 0 ==> l.marks[i - 1] <= l.t + 1)
  }

  lemma {:induction false} LastMark(marks: seq<nat>, n: nat) returns (i: nat)
    requires marks != [] && marks[0] <= n
    ensures i < |marks| && marks[i] <= n && forall j :: i < j < |marks| ==> n < marks[j]
  {
    i := |marks| - 1;
    if marks[i] > n {
      i := LastMark(marks[..i], n);
    }
  }

  /** A crash at any instant of a run: opening is refused, or serves the map after some first
      requests, with every answered one among them. */
  lemma {:induction false} CrashDuringRun(l: Life, log: seq<Segment>) returns (i: nat)
    requires Crashed(l, log)
    ensures TookEffect(l, i) && NamesInOrder(l.img) && RecordsFit(l.img)
    ensures i <= |l.qs| < |l.marks| && forall j :: 0 <= j <= |l.qs| && l.marks[j] <= l.t + 1 ==> j <= i
    ensures i > 0 ==> l.marks[i - 1] <= l.t + 1
    ensures Reopen(l.img) in {Refused, Serves(After(ContentsOf(log), l.qs[..i]))}
  {
    hide Reopen, NamesInOrder, RecordsFit, ContentsOf, Tame, CrashImage, FilesOf, After, Ids, FullySynced;
    var n, m := l.t + 1, ContentsOf(log);
    var k := LastMark(l.marks, n);
    i := k;
    assert Recorded(l.trace, l.marks[k], l.logs[k], After(m, l.qs[..k]));
    if k > 0 { assert SafeRequest(l.trace, l.marks, l.logs, k - 1); }
    if l.marks[k] == n {
      DurableCrash(l.trace[l.t], l.img, l.logs[k]);
    } else {
      assert SafeRequest(l.trace, l.marks, l.logs, k);
      assert Recorded(l.trace, l.marks[k + 1], l.logs[k + 1], After(m, l.qs[..k + 1]));
      var served := l.trace[l.marks[k]..l.marks[k + 1]];
      assert served[l.t - l.marks[k]] == l.trace[l.t];
      assert SafeImage(l.img, l.logs[k], l.logs[k + 1]);
      if Reopen(l.img) == Serves(ContentsOf(l.logs[k + 1])) { i := k + 1; }
    }
  }

  lemma {:induction false} DurableCrash(s: Snapshot, img: Files, log: seq<Segment>)
    requires s == Snapshot(FilesOf(log), FullySynced(FilesOf(log))) && CrashImage(s, img)
    requires Ascending(Ids(log)) && Tame(log, log)
    ensures NamesInOrder(img) && RecordsFit(img) && Reopen(img) in {Refused, Serves(ContentsOf(log))}
  {
    hide Reopen, FilesOf, Ids, ContentsOf, RecordsFit, FullySynced, Sound, Listing, IsListing, CrashImage;
    assert FilesOf(log).Keys + FilesOf(log).Keys == FilesOf(log).Keys;
    SettledCrash(s, img, log);
  }

  /** The log that the next process finds; an empty directory gets its first file. */
  ghost function NextLog(img: Files): seq<Segment> { OnDisk(if img == map[] then map[0 := []] else img) }

  lemma {:induction false} NextLogServes(img: Files)
    requires Recover(img).Some? && RecordsFit(img)
    ensures Reopen(img) == Serves(ContentsOf(NextLog(img)))
  {
    hide Recover, Reopen, OnDisk, ContentsOf, RecordsFit;
    OpenedServes(img);
    if img == map[] {
      EmptyDirectory();
      OneEmptySegment();
      NothingToServe(img);
    }
  }

  lemma {:induction false} NothingToServe(img: Files)
    requires img == map[] && Recover(img) == Some(map[])
    ensures Reopen(img) == Serves(map[])
  {
    assert Reopen(img).Serves? && Reopen(img).contents == map[];
  }

  /** One process after another, each opening what the crash of the one before has left. */
  ghost predicate Lives(log: seq<Segment>, ls: seq<Life>)
    decreases |ls|
  {
    ls != [] ==> Crashed(ls[0], log) && Recover(ls[0].img).Some? && Lives(NextLog(ls[0].img), ls[1..])
  }

  ghost function LastLog(log: seq<Segment>, ls: seq<Life>): seq<Segment>
    decreases |ls|
  {
    if ls == [] then log else LastLog(NextLog(ls[0].img), ls[1..])
  }

  ghost predicate AllTookEffect(ls: seq<Life>, done: seq<nat>) {
    |done| == |ls| && forall j :: 0 <= j < |ls| ==> TookEffect(ls[j], done[j])
  }

  /** The map after the first `done[j]` requests of each process in turn. */
  ghost function AfterLives(m: Contents, ls: seq<Life>, done: seq<nat>): Contents
    requires AllTookEffect(ls, done)
    decreases |ls|
  {
    if ls == [] then m
    else
      assert AllTookEffect(ls[1..], done[1..]) by {
        assert forall j :: 0 <= j < |ls| - 1 ==> ls[1..][j] == ls[j + 1] && done[1..][j] == done[j + 1];
      }
      AfterLives(After(m, ls[0].qs[..done[0]]), ls[1..], done[1..])
  }

  /** Any number of crashes, each at any instant and leaving any unsynced bytes it likes: as long as
      the directory opens again, it holds what the requests that took effect have written, and all
      answered requests did. */
  lemma {:induction false} ThroughCrashes(log: seq<Segment>, ls: seq<Life>) returns (done: seq<nat>)
    requires Lives(log, ls)
    ensures AllTookEffect(ls, done)
    ensures ContentsOf(LastLog(log, ls)) == AfterLives(ContentsOf(log), ls, done)
    decreases |ls|
  {
    hide ContentsOf, Recover, NextLog, Crashed, After, TookEffect, AllTookEffect, AfterLives;
    if ls == [] {
      done := [];
      NoLife(ContentsOf(log), ls);
    } else {
      var i := FirstCrash(log, ls[0]);
      var rest := ThroughCrashes(NextLog(ls[0].img), ls[1..]);
      done := [i] + rest;
      OneMoreLife(ContentsOf(log), ls, i, rest);
    }
  }

  lemma {:induction false} FirstCrash(log: seq<Segment>, l: Life) returns (i: nat)
    requires Crashed(l, log) && Recover(l.img).Some?
    ensures TookEffect(l, i) && ContentsOf(NextLog(l.img)) == After(ContentsOf(log), l.qs[..i])
  {
    hide ContentsOf, Recover, Reopen, NextLog, Crashed, After, RecordsFit, NamesInOrder;
    i := CrashDuringRun(l, log);
    RefusedExactly(l.img);
    NextLogServes(l.img);
  }

  lemma {:induction false} NoLife(m: Contents, ls: seq<Life>)
    requires ls == []
    ensures AllTookEffect(ls, []) && AfterLives(m, ls, []) == m
  {
  }

  lemma {:induction false} OneMoreLife(m: Contents, ls: seq<Life>, i: nat, rest: seq<nat>)
    requires ls != [] && TookEffect(ls[0], i) && AllTookEffect(ls[1..], rest)
    ensures AllTookEffect(ls, [i] + rest)
    ensures AfterLives(m, ls, [i] + rest) == AfterLives(After(m, ls[0].qs[..i]), ls[1..], rest)
  {
    hide After, TookEffect;
    var done := [i] + rest;
    forall j | 0 <= j < |ls| ensures TookEffect(ls[j], done[j]) {
      if j > 0 { assert ls[j] == ls[1..][j - 1] && done[j] == rest[j - 1]; }
    }
    assert done[1..] == rest;
  }

  lemma {:induction false} RefusedExactly(files: Files)
    ensures Reopen(files) == Refused <==> Recover(files) == None
  {
  }

  lemma {:induction false} CrashedThere(l: Life, log: seq<Segment>)
    requires SafeRun(l.trace, l.marks, l.logs, ContentsOf(log), l.qs) && l.logs[0] == log && l.marks[0] > 0
    ensures l.marks[0] <= l.t + 1 <= |l.trace| && CrashImage(l.trace[l.t], l.img) && TameRun(l.logs) ==> Crashed(l, log)
  {
  }

  /** Serves requests until a crash at instant `t` leaves `img`, then opens what is left. If the run
      is tame and the directory opens, the new engine is in a valid state on the very log above. */
  method ServeAndCrash(api: API, qs: seq<Request>, img: Files, ghost t: nat)
    returns (again: Bitcask?, ghost l: Life, ghost i: nat)
    requires api.Valid() && api.bc.dataDir.trace != []
    modifies api.compactor, api.bc, api.bc.dataDir
    ensures l.qs == qs && l.t == t && l.img == img && l.trace == api.bc.dataDir.trace
    ensures SafeRun(l.trace, l.marks, l.logs, old(api.Model()), qs)
    ensures l.marks[0] == |old(api.bc.dataDir.trace)| && l.logs[0] == old(api.bc.segs)
    ensures |old(api.bc.dataDir.trace)| <= t + 1 <= |l.trace| && CrashImage(l.trace[t], img) && TameRun(l.logs) ==>
      Crashed(l, old(api.bc.segs))
    ensures again == null <==> Recover(img) == None
    ensures again != null ==> fresh(again) && fresh(again.dataDir) && again.dataDir.trace != []
    ensures Crashed(l, old(api.bc.segs)) ==> TookEffect(l, i)
    ensures Crashed(l, old(api.bc.segs)) && again != null ==>
      again.Valid() && again.segs == NextLog(img) && again.Model() == After(old(api.Model()), qs[..i])
  {
    hide ContentsOf, Recover, Reopen, OnDisk, Crashed, After, RecordsFit, NamesInOrder, SafeRun, SpanAfter;
    hide Consistent, SpanOf;
    ghost var log := api.bc.segs;
    var rs;
    ghost var marks, logs;
    rs, marks, logs := Run(api, qs);
    l := Life(qs, api.bc.dataDir.trace, marks, logs, t, img);
    CrashedThere(l, log);
    var dir := new DataDir.Surviving(img);
    again := Bitcask.Open(dir);
    i := 0;
    if Crashed(l, log) {
      i := CrashDuringRun(l, log);
      RefusedExactly(img);
      if again != null { NextLogServes(img); }
    }
  }
}
