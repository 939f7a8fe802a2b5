/** Garbage collection: the live records are copied into one new file, which then replaces all
    the others. */
module Compaction {
  import opened Bytes
  import opened RecordLog
  import opened FileNames
  import opened Segments
  import opened Merge
  import opened Crash
  import opened Directory
  import opened Engine

  class Compactor {
    const bc: Bitcask
    var active: bool

    constructor (bc: Bitcask)
      ensures this.bc == bc && !active
    {
      this.bc, active := bc, false;
    }

    /** Opens the file, seeks and reads `size` bytes. A missing file or a read at its end gives
        None; a short read leaves the rest of the buffer zero. */
    method ReadExtent(loc: Loc) returns (record: Option<Bytes>)
      ensures forall r :: Holds(bc.dataDir.files, loc, r) ==> record == Some(Encode(r))
    {
      if loc.fileID !in bc.dataDir.files {
        return None;
      }
      var file := bc.dataDir.files[loc.fileID];
      if loc.offset >= |file| {
        return None;
      }
      if loc.offset + loc.size <= |file| {
        record := Some(file[loc.offset..loc.offset + loc.size]);
      } else {
        record := Some(file[loc.offset..] + seq(loc.offset + loc.size - |file|, _ => 0));
      }
    }

    /** The copying has written `recs` to the merged file, on top of the unchanged directory `before`. */
    ghost predicate Copying(before: Files, merged: nat, recs: seq<Record>, n: nat)
      reads bc, bc.dataDir
    {
      && bc.dataDir.files == before[merged := EncodeAll(recs)]
      && bc.dataDir.synced == FullySynced(before)[merged := 0]
      && n <= |bc.dataDir.trace| && MergingSteps(bc.dataDir.trace[n..], before, merged, recs)
    }

    /** Copies the records of all keys, in whatever order the index yields them. */
    method CopyLive(merged: nat, ghost before: Files, ghost m: Contents, ghost n: nat)
      returns (newKeyDir: KeyDir, newOffset: nat, ghost recs: seq<Record>)
      requires merged !in before && Locates(before, bc.keyDir, m) && Copying(before, merged, [], n)
      modifies bc.dataDir
      ensures IsMerge(recs, m) && Copying(before, merged, recs, n) && old(bc.dataDir.trace) <= bc.dataDir.trace
      ensures newKeyDir == IndexFile(map[], merged, Layout(recs, 0, false)) && newOffset == Length(recs)
    {
      hide IndexFile, Layout, Length, EncodeAll, Encode, MergingSteps;
      newKeyDir, newOffset, recs := map[], 0, [];
      StartCopy(merged);
      var rest := bc.keyDir.Keys;
      while rest != {}
        invariant rest <= bc.keyDir.Keys && Copying(before, merged, recs, n)
        invariant old(bc.dataDir.trace) <= bc.dataDir.trace
        invariant MergedSoFar(recs, m, rest)
        invariant newKeyDir == IndexFile(map[], merged, Layout(recs, 0, false)) && newOffset == Length(recs)
        decreases |rest|
      {
        var key :| key in rest;
        var location := bc.keyDir[key];
        ghost var r := Put(key, m[key]);
        ElsewhereHolds(before, merged, EncodeAll(recs), location, r);
        var record := ReadExtent(location);
        if record.Some? {
          WriteMerged(merged, record.value, before, recs, r, n);
          newKeyDir := newKeyDir[key := Loc(merged, newOffset, location.size)];
          newOffset := newOffset + location.size;
          NextMerged(recs, m, rest, key, merged);
          recs := recs + [r];
        }
        rest := rest - {key};
      }
    }

    method WriteMerged(merged: nat, record: Bytes, ghost before: Files, ghost recs: seq<Record>, ghost r: Record,
                       ghost n: nat)
      requires merged !in before && Copying(before, merged, recs, n) && record == Encode(r)
      modifies bc.dataDir
      ensures Copying(before, merged, recs + [r], n) && old(bc.dataDir.trace) <= bc.dataDir.trace
    {
      ghost var trace := bc.dataDir.trace;
      bc.dataDir.Write(merged, record);
      EncodeAllSnoc(recs, r);
      Overwrite(before, merged, EncodeAll(recs), EncodeAll(recs) + record);
      assert bc.dataDir.trace[n..] == trace[n..] + [bc.dataDir.Now()];
      MergingGrows(trace[n..], bc.dataDir.Now(), before, merged, recs, r);
    }

    /** Removes every listed file older than the merged one. */
    method RemoveOld(entries: seq<nat>, merged: nat, ghost before: Files, ghost recs: seq<Record>, ghost n: nat)
      requires forall i :: 0 <= i < |entries| ==> entries[i] < merged
      requires Replacing(before, entries, merged, recs, 0, n)
      modifies bc.dataDir
      ensures Replacing(before, entries, merged, recs, |entries|, n) && old(bc.dataDir.trace) <= bc.dataDir.trace
    {
      var i := 0;
      while i < |entries|
        invariant i <= |entries| && Replacing(before, entries, merged, recs, i, n)
        invariant old(bc.dataDir.trace) <= bc.dataDir.trace
      {
        if entries[i] < merged {
          ghost var trace := bc.dataDir.trace;
          bc.dataDir.Remove(entries[i]);
          OneLess(before, entries, merged, EncodeAll(recs), i);
          assert RemovingStep(bc.dataDir.Now(), before, entries, merged, recs, i + 1);
          assert bc.dataDir.trace[n..] == trace[n..] + [bc.dataDir.Now()];
        }
        i := i + 1;
      }
    }

    /** The merged file is durable and the first `j` listed files are gone. */
    ghost predicate Replacing(before: Files, entries: seq<nat>, merged: nat, recs: seq<Record>, j: nat, n: nat)
      reads bc, bc.dataDir
    {
      && RemovingStep(bc.dataDir.Now(), before, entries, merged, recs, j)
      && n < |bc.dataDir.trace| && CompactSteps(bc.dataDir.trace[n..], before, entries, merged, recs)
      && bc.dataDir.trace[|bc.dataDir.trace| - 1] == bc.dataDir.Now()
    }

    /** The state after a compaction that had something to do. */
    ghost predicate Compacted(before: seq<Segment>, merged: nat, recs: seq<Record>, n: nat)
      reads bc, bc.dataDir
    {
      && IsMerge(recs, ContentsOf(before)) && bc.segs == [Segment(merged, recs)]
      && bc.dataDir.files == map[merged := EncodeAll(recs)]
      && bc.currentOffset == Length(recs) == Length(Live(Flatten(before))) <= DiskUsage(before)
      && n < |bc.dataDir.trace| && bc.dataDir.trace[n].files == FilesOf(before)[merged := []]
      && bc.dataDir.Settled()
      && CompactSteps(bc.dataDir.trace[n..], FilesOf(before), Listing(FilesOf(before).Keys), merged, recs)
    }

    /** Merges all data files into a new one. Every key is copied, nothing changes for readers,
        and a directory whose largest ID is 0 is left alone. */
    method Compact() returns (ok: bool, ghost recs: seq<Record>)
      requires bc.Valid()
      modifies this, bc, bc.dataDir
      ensures ok == !old(active) && active == old(active)
      ensures bc.Valid() && bc.Model() == old(bc.Model())
      ensures !ok || old(bc.currentFileID) == 0 ==>
        && bc.segs == old(bc.segs) && bc.currentFileID == old(bc.currentFileID)
        && bc.dataDir.files == old(bc.dataDir.files) && bc.dataDir.trace == old(bc.dataDir.trace)
      ensures old(Contiguous(bc.segs)) ==> Contiguous(bc.segs)
      ensures old(bc.dataDir.trace) <= bc.dataDir.trace
      ensures CrashSafe(bc.dataDir.trace[|old(bc.dataDir.trace)|..], old(bc.segs), bc.segs)
      ensures ok && old(bc.currentFileID) > 0 ==>
        Compacted(old(bc.segs), old(bc.currentFileID) + 1, recs, |old(bc.dataDir.trace)|)
    {
      hide Compacted, Consistent, Contiguous, ContentsOf, MaxId, FullySynced, CrashSafe;
      recs := [];
      NothingHappened(bc.dataDir.trace[|bc.dataDir.trace|..], bc.segs);
      if active {
        return false, recs;
      }
      active := true;
      var entries := bc.dataDir.ReadDir();
      var maxFileID := LargestID(entries);
      LargestIsCurrent(bc.segs, bc.dataDir.files, bc.keyDir, bc.currentFileID, bc.currentOffset);
      if maxFileID > 0 {
        recs := MergeInto(maxFileID + 1, entries);
      }
      active := false;
      ok := true;
    }

    method LargestID(entries: seq<nat>) returns (maxFileID: nat)
      ensures maxFileID == MaxId(entries)
    {
      maxFileID := 0;
      assert entries[..0] == [];
      var i := 0;
      while i < |entries|
        invariant i <= |entries| && maxFileID == MaxId(entries[..i])
      {
        assert entries[..i + 1][..i] == entries[..i];
        if entries[i] > maxFileID {
          maxFileID := entries[i];
        }
        i := i + 1;
      }
      assert entries[..|entries|] == entries;
    }

    method MergeInto(merged: nat, entries: seq<nat>) returns (ghost recs: seq<Record>)
      requires bc.Valid() && merged == bc.currentFileID + 1
      requires entries == Listing(bc.dataDir.files.Keys)
      modifies bc, bc.dataDir
      ensures bc.Valid() && bc.Model() == old(bc.Model())
      ensures Compacted(old(bc.segs), merged, recs, |old(bc.dataDir.trace)|) && Contiguous(bc.segs)
      ensures old(bc.dataDir.trace) <= bc.dataDir.trace
      ensures CrashSafe(bc.dataDir.trace[|old(bc.dataDir.trace)|..], old(bc.segs), bc.segs)
    {
      hide FilesOf, Replay, Flatten, ContentsOf, EncodeAll, Length, Ids, ApplyAll, Listing, IsListing;
      hide IsMerge, CompactSteps, MergingSteps, Live, DiskUsage, Locates, CrashSafe, IndexFile, Layout;
      hide FullySynced, Contiguous, Without, RemovingStep, Consistent, Compacted;
      ghost var before, files, n := bc.segs, bc.dataDir.files, |bc.dataDir.trace|;
      OlderThanMerged(before, files, bc.keyDir, bc.currentFileID, bc.currentOffset);
      var newKeyDir, newOffset;
      newKeyDir, newOffset, recs := WriteMergedFile(merged, entries, ContentsOf(before));
      if bc.currentFile.Some? && bc.currentFileID != merged {
        bc.currentFile := None;
      }
      RemoveOld(entries, merged, files, recs, n);
      OnlyMerged(files, entries, merged, recs, n);
      SwitchTo(merged, newKeyDir, newOffset, ContentsOf(before), recs);
      IsCompacted(before, merged, recs, n);
      CompactedSafe(before, merged, recs, n);
    }

    lemma {:induction false} IsCompacted(before: seq<Segment>, merged: nat, recs: seq<Record>, n: nat)
      requires IsMerge(recs, ContentsOf(before)) && bc.segs == [Segment(merged, recs)]
      requires bc.dataDir.files == map[merged := EncodeAll(recs)] && bc.dataDir.Settled()
      requires bc.currentOffset == Length(recs)
      requires n < |bc.dataDir.trace| && bc.dataDir.trace[n].files == FilesOf(before)[merged := []]
      requires CompactSteps(bc.dataDir.trace[n..], FilesOf(before), Listing(FilesOf(before).Keys), merged, recs)
      ensures Compacted(before, merged, recs, n)
    {
      hide FilesOf, Flatten, ContentsOf, EncodeAll, Length, Listing, IsListing, IsMerge, CompactSteps, Live, DiskUsage;
      MergeReclaims(before, recs);
    }

    lemma {:induction false} OnlyMerged(before: Files, entries: seq<nat>, merged: nat, recs: seq<Record>, n: nat)
      requires entries == Listing(before.Keys) && Replacing(before, entries, merged, recs, |entries|, n)
      ensures bc.dataDir.files == map[merged := EncodeAll(recs)] && bc.dataDir.Settled()
    {
      hide EncodeAll, CompactSteps, Listing, IsListing;
      NothingElseLeft(before, entries, merged, EncodeAll(recs));
    }

    lemma {:induction false} CompactedSafe(before: seq<Segment>, merged: nat, recs: seq<Record>, n: nat)
      requires Compacted(before, merged, recs, n) && InOrder(before) && before != [] && before[|before| - 1].id < merged
      ensures CrashSafe(bc.dataDir.trace[n..], before, [Segment(merged, recs)])
    {
      hide CompactSteps, CrashSafe, FilesOf, Ids, ContentsOf, Listing, IsMerge;
      var recent := bc.dataDir.trace[n..];
      assert recent[|recent| - 1] == bc.dataDir.trace[|bc.dataDir.trace| - 1];
      CompactSafe(recent, before, merged, recs);
    }

    /** Creates the merged file, copies all live records into it and syncs it. */
    method WriteMergedFile(merged: nat, entries: seq<nat>, ghost m: Contents)
      returns (newKeyDir: KeyDir, newOffset: nat, ghost recs: seq<Record>)
      requires merged !in bc.dataDir.files && Locates(bc.dataDir.files, bc.keyDir, m) && bc.dataDir.Settled()
      modifies bc.dataDir
      ensures IsMerge(recs, m) && newKeyDir == IndexFile(map[], merged, Layout(recs, 0, false))
      ensures newOffset == Length(recs)
      ensures Replacing(old(bc.dataDir.files), entries, merged, recs, 0, |old(bc.dataDir.trace)|)
      ensures old(bc.dataDir.trace) < bc.dataDir.trace
      ensures bc.dataDir.trace[|old(bc.dataDir.trace)|].files == old(bc.dataDir.files)[merged := []]
    {
      hide EncodeAll, Length, IsMerge, CompactSteps, MergingSteps, Locates, IndexFile, Layout, FullySynced, Without;
      hide RemovingStep;
      ghost var files, n := bc.dataDir.files, |bc.dataDir.trace|;
      bc.dataDir.Create(merged);
      StartMerge(bc.dataDir.trace[n..], bc.dataDir.Now(), files, merged);
      newKeyDir, newOffset, recs := CopyLive(merged, files, m, n);
      SyncMerged(merged, entries, files, recs, n);
    }

    /** Replaces index, file and append position by those of the merged file. */
    method SwitchTo(merged: nat, newKeyDir: KeyDir, newOffset: nat, ghost m: Contents, ghost recs: seq<Record>)
      requires IsMerge(recs, m) && newKeyDir == IndexFile(map[], merged, Layout(recs, 0, false))
      requires newOffset == Length(recs)
      requires bc.dataDir.files == map[merged := EncodeAll(recs)] && bc.dataDir.Settled()
      modifies bc, bc.dataDir
      ensures bc.Valid() && bc.Model() == m && Contiguous(bc.segs) && bc.segs == [Segment(merged, recs)]
      ensures bc.currentOffset == Length(recs)
      ensures bc.dataDir.files == old(bc.dataDir.files) && bc.dataDir.trace == old(bc.dataDir.trace)
    {
      hide IsMerge, ContentsOf, Length, EncodeAll, IndexFile, Layout, Consistent;
      bc.keyDir := newKeyDir;
      bc.currentFileID := merged;
      bc.currentOffset := newOffset;
      bc.OpenCurrentFile();
      bc.segs := [Segment(merged, recs)];
      MergedLog(merged, recs, m);
    }

    method SyncMerged(merged: nat, ghost entries: seq<nat>, ghost before: Files, ghost recs: seq<Record>, ghost n: nat)
      requires merged !in before && Copying(before, merged, recs, n)
      modifies bc.dataDir
      ensures Replacing(before, entries, merged, recs, 0, n) && old(bc.dataDir.trace) <= bc.dataDir.trace
    {
      ghost var trace := bc.dataDir.trace;
      bc.dataDir.Sync(merged);
      SyncedFile(before, merged, EncodeAll(recs));
      assert Without(before, entries[..0]) == before;
      assert RemovingStep(bc.dataDir.Now(), before, entries, merged, recs, 0);
      assert bc.dataDir.trace[n..] == trace[n..] + [bc.dataDir.Now()];
    }
  }

  // ---------- the instants of a compaction ----------

  ghost predicate MergingSteps(trace: seq<Snapshot>, before: Files, merged: nat, recs: seq<Record>) {
    forall s :: s in trace ==> exists j: nat :: MergingStep(s, before, merged, recs, j)
  }

  lemma {:induction false} MergingGrows(trace: seq<Snapshot>, now: Snapshot, before: Files, merged: nat,
                                        recs: seq<Record>, r: Record)
    requires MergingSteps(trace, before, merged, recs)
    requires now.files == before[merged := EncodeAll(recs + [r])] && now.synced == FullySynced(before)[merged := 0]
    requires merged !in before
    ensures MergingSteps(trace + [now], before, merged, recs + [r])
  {
    forall s | s in trace + [now] ensures exists j: nat :: MergingStep(s, before, merged, recs + [r], j) {
      if s in trace {
        var j: nat :| MergingStep(s, before, merged, recs, j);
        TakeWithin(recs, [r], j);
        assert MergingStep(s, before, merged, recs + [r], j);
      } else {
        assert (recs + [r])[..|recs| + 1] == recs + [r];
        assert MergingStep(now, before, merged, recs + [r], |recs| + 1);
      }
    }
  }

  lemma {:induction false} StartMerge(trace: seq<Snapshot>, now: Snapshot, before: Files, merged: nat)
    requires trace == [now] && merged !in before
    requires now.files == before[merged := []] && now.synced == FullySynced(before)[merged := 0]
    ensures MergingSteps(trace, before, merged, []) && EncodeAll([]) == []
  {
    var none: seq<Record> := [];
    assert none[..0] == none;
    assert MergingStep(now, before, merged, [], 0);
  }

  lemma {:induction false} OneLess(before: Files, entries: seq<nat>, merged: nat, b: Bytes, i: nat)
    requires i < |entries| && entries[i] < merged
    ensures var now := Without(before, entries[..i])[merged := b];
      && now - {entries[i]} == Without(before, entries[..i + 1])[merged := b]
      && FullySynced(now) - {entries[i]} == FullySynced(now - {entries[i]})
  {
    assert entries[..i + 1] == entries[..i] + [entries[i]];
  }

  // ---------- the merged log ----------

  ghost predicate MergedSoFar(recs: seq<Record>, m: Contents, rest: set<Bytes>) {
    && LivePuts(recs, m) && DistinctKeys(recs)
    && (forall k :: k in m && k !in rest ==> Put(k, m[k]) in recs)
    && (forall r :: r in recs ==> r.key !in rest)
  }

  lemma {:induction false} StartCopy(merged: nat)
    ensures IndexFile(map[], merged, Layout([], 0, false)) == map[] && Length([]) == 0
  {
  }

  lemma {:induction false} NextMerged(recs: seq<Record>, m: Contents, rest: set<Bytes>, key: Bytes, merged: nat)
    requires MergedSoFar(recs, m, rest) && key in rest && key in m
    ensures var r := Put(key, m[key]);
      && MergedSoFar(recs + [r], m, rest - {key})
      && Length(recs + [r]) == Length(recs) + Size(r)
      && IndexFile(map[], merged, Layout(recs + [r], 0, false))
         == IndexFile(map[], merged, Layout(recs, 0, false))[key := Loc(merged, Length(recs), Size(r))]
  {
    hide IndexFile, Layout, EncodeAll, Encode;
    var r := Put(key, m[key]);
    EncodeAllSnoc(recs, r);
    IndexFileSnoc(map[], merged, recs, r);
    assert forall s :: s in recs + [r] <==> s in recs || s == r;
    assert forall i :: 0 <= i < |recs| ==> recs[i] in recs;
  }

  lemma {:induction false} ElsewhereHolds(before: Files, merged: nat, b: Bytes, loc: Loc, r: Record)
    requires Holds(before, loc, r) && merged !in before
    ensures Holds(before[merged := b], loc, r)
  {
  }

  lemma {:induction false} OlderThanMerged(segs: seq<Segment>, files: Files, kd: KeyDir, id: nat, offset: nat)
    requires Consistent(segs, files, kd, id, offset)
    ensures id + 1 !in files && Locates(files, kd, ContentsOf(segs))
    ensures InOrder(segs) && segs != [] && segs[|segs| - 1].id == id && files == FilesOf(segs)
    ensures forall f :: f in files ==> f <= id
    ensures forall i :: 0 <= i < |Listing(files.Keys)| ==> Listing(files.Keys)[i] <= id
  {
    FileIds(segs);
    AscendingDistinct(segs);
    ReplayLocates(segs);
    var ids, l := Ids(segs), Listing(files.Keys);
    assert forall i :: 0 <= i < |ids| ==> ids[i] <= ids[|ids| - 1];
    assert forall i :: 0 <= i < |l| ==> l[i] in l;
  }

  lemma {:induction false} LargestIsCurrent(segs: seq<Segment>, files: Files, kd: KeyDir, id: nat, offset: nat)
    requires Consistent(segs, files, kd, id, offset)
    ensures MaxId(Listing(files.Keys)) == id
  {
    OlderThanMerged(segs, files, kd, id, offset);
    FileIds(segs);
    var l := Listing(files.Keys);
    assert Ids(segs)[|segs| - 1] == id;
    assert id in l;
    MaxIdBounds(l);
  }

  lemma {:induction false} NothingElseLeft(before: Files, entries: seq<nat>, merged: nat, b: Bytes)
    requires entries == Listing(before.Keys)
    ensures Without(before, entries[..|entries|])[merged := b] == map[merged := b]
  {
    assert entries[..|entries|] == entries;
  }

  /** The single merged file is a consistent log with the old contents. */
  lemma {:induction false} MergedLog(merged: nat, recs: seq<Record>, m: Contents)
    requires IsMerge(recs, m)
    ensures var log := [Segment(merged, recs)];
      var kd := IndexFile(map[], merged, Layout(recs, 0, false));
      && Consistent(log, map[merged := EncodeAll(recs)], kd, merged, Length(recs))
      && ContentsOf(log) == m && !HasTombstone(Flatten(log))
  {
    var s := Segment(merged, recs);
    LastSegment([], s);
    assert [] + [s] == [s] && [s][..0] == [];
    Neutral(recs);
    assert Ids([s]) == Ids([]) + [merged];
    MergeRestores(map[], recs, m);
  }
}
