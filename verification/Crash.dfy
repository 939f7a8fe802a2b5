/** What a crash can leave in the data directory, and what reopening makes of it. */
module Crash {
  import opened Bytes
  import opened RecordLog
  import opened FileNames
  import opened Segments
  import opened Recovery
  import opened Merge

  /** A directory at one instant: the bytes written to each file and how many of them a sync has
      made durable. */
  datatype Snapshot = Snapshot(files: Files, synced: map<nat, nat>)

  /** A crash keeps every synced byte and may cut the rest of a file anywhere. */
  ghost predicate CrashImage(s: Snapshot, img: Files) {
    && img.Keys == s.files.Keys
    && forall f :: f in img ==>
         && |img[f]| <= |s.files[f]| && img[f] == s.files[f][..|img[f]|]
         && (f in s.synced ==> s.synced[f] <= |img[f]|)
  }

  /** A crash may cut any file anywhere behind what is durable of it. */
  lemma {:induction false} AnyCutSurvives(s: Snapshot, f: nat, n: nat)
    requires f in s.files && n <= |s.files[f]| && (f in s.synced ==> s.synced[f] <= n)
    requires forall g :: g in s.files && g in s.synced ==> s.synced[g] <= |s.files[g]|
    ensures CrashImage(s, s.files[f := s.files[f][..n]])
  {
    var img := s.files[f := s.files[f][..n]];
    forall g | g in img ensures |img[g]| <= |s.files[g]| && img[g] == s.files[g][..|img[g]|] {
      if g != f { assert s.files[g][..|s.files[g]|] == s.files[g]; }
    }
  }

  function FullySynced(files: Files): map<nat, nat> { map f | f in files :: |files[f]| }

  // ---------- unparsable files ----------

  lemma {:induction false} UnparsableFails(files: Files, listing: seq<nat>, f: nat)
    requires forall id :: id in listing ==> id in files
    requires f in listing && Scan(files[f]) == None
    ensures RecoverFiles(files, listing) == None
  {
    var n := |listing| - 1;
    if listing[n] != f {
      assert f in listing[..n] by { var i :| 0 <= i <= n && listing[i] == f; assert listing[..n][i] == f; }
      UnparsableFails(files, listing[..n], f);
    }
  }

  lemma {:induction false} UnparsableReopen(files: Files, f: nat)
    requires f in files && Scan(files[f]) == None
    ensures Reopen(files) == Refused
  {
    UnparsableFails(files, Listing(files.Keys), f);
  }

  // ---------- a crash in Put or Delete ----------

  /** The directory with the first `c` bytes of the record `r` appended to its last file. */
  function Appended(segs: seq<Segment>, r: Record, c: nat): Files
    requires segs != [] && c <= Size(r)
  {
    var s := segs[|segs| - 1];
    FilesOf(segs)[s.id := EncodeAll(s.recs) + Encode(r)[..c]]
  }

  lemma {:induction false} TornAppendFails(segs: seq<Segment>, r: Record, c: nat)
    requires segs != [] && Sound(AppendRecord(segs, r)) && 0 < c <= Size(r) && (r.Put? ==> c < Size(r))
    ensures Reopen(Appended(segs, r, c)) == Refused
  {
    var s := segs[|segs| - 1];
    SoundAppended(segs, r, c);
    TornFileRejected(s.recs, r, c);
    UnparsableReopen(Appended(segs, r, c), s.id);
  }

  /** Put and Delete are atomic under a crash at any byte of the record: nothing of it, all of a
      put, or a failure to open. No torn record is ever taken for data. */
  lemma {:induction false} AppendCrash(segs: seq<Segment>, r: Record, c: nat)
    requires segs != [] && Ascending(Ids(segs)) && NamesInOrder(FilesOf(segs))
    requires Sound(AppendRecord(segs, r)) && c <= Size(r)
    ensures Reopen(Appended(segs, r, c)) ==
      if HasTombstone(Flatten(segs)) then Refused
      else if c == 0 then Serves(ContentsOf(segs))
      else if c == Size(r) && r.Put? then Serves(ContentsOf(segs)[r.key := r.value])
      else Refused
  {
    hide Reopen, FilesOf, Flatten, ContentsOf, EncodeAll, Encode, HasTombstone, NamesInOrder, Ids, Sound;
    var s, out := segs[|segs| - 1], AppendRecord(segs, r);
    SoundAppended(segs, r, 0);
    AppendRecordFiles(segs, r);
    if c == 0 {
      Neutral(EncodeAll(s.recs));
      assert Appended(segs, r, c) == FilesOf(segs);
      ReopenInOrder(segs);
    } else if c == Size(r) && r.Put? {
      Neutral(Encode(r));
      assert Encode(r)[..c] == Encode(r);
      assert Appended(segs, r, c) == FilesOf(out);
      assert FilesOf(out).Keys == FilesOf(segs).Keys;
      AppendRecordContents(segs, r);
      OnePutAdded(Flatten(segs), r);
      SameKeysInOrder(FilesOf(segs), FilesOf(out));
      ReopenInOrder(out);
    } else {
      TornAppendFails(segs, r, c);
    }
  }

  lemma {:induction false} OnePutAdded(rs: seq<Record>, r: Record)
    requires r.Put?
    ensures HasTombstone(rs + [r]) <==> HasTombstone(rs)
  {
    TombstoneConcat(rs, [r]);
  }

  lemma {:induction false} SameKeysInOrder(a: Files, b: Files)
    requires a.Keys == b.Keys && NamesInOrder(a)
    ensures NamesInOrder(b)
  {
  }

  lemma {:induction false} SoundAppended(segs: seq<Segment>, r: Record, c: nat)
    requires segs != [] && Sound(AppendRecord(segs, r)) && c <= Size(r)
    ensures Sound(segs) && HeaderExact(r) && Delimited(segs[|segs| - 1].recs, c)
  {
    hide Delimited, Fits;
    var n, out := |segs| - 1, AppendRecord(segs, r);
    LastSound(segs[n].recs, r, 0);
    LastSound(segs[n].recs, r, c);
    forall i | 0 <= i < |segs| ensures Delimited(segs[i].recs, 0) && Fits(segs[i].recs) {
      if i < n { assert out[i] == segs[i]; }
    }
  }

  lemma {:induction false} LastSound(rs: seq<Record>, r: Record, c: nat)
    requires Delimited(rs + [r], 0) && Fits(rs + [r]) && c <= Size(r)
    ensures Delimited(rs, c) && Fits(rs) && HeaderExact(r)
  {
    DelimitedPrefix(rs + [r], |rs|, c);
    Drop(rs, [r]);
    assert (rs + [r])[|rs|] == r;
  }

  /** An instant while `r` is being appended to the log `base`: the last file has grown by some
      prefix of the record, and everything older is durable. */
  ghost predicate AppendStep(s: Snapshot, base: seq<Segment>, r: Record, c: nat)
    requires base != []
  {
    && c <= Size(r) && s.files == Appended(base, r, c)
    && forall f :: f in FilesOf(base) ==> f in s.synced && s.synced[f] >= |FilesOf(base)[f]|
  }

  ghost predicate AppendSteps(trace: seq<Snapshot>, base: seq<Segment>, r: Record)
    requires base != []
  {
    forall s :: s in trace ==> exists c :: AppendStep(s, base, r, c)
  }

  lemma {:induction false} AppendedKeys(base: seq<Segment>, r: Record, c: nat)
    requires base != [] && c <= Size(r)
    ensures Appended(base, r, c).Keys == FilesOf(base).Keys
    ensures FilesOf(base)[base[|base| - 1].id] == EncodeAll(base[|base| - 1].recs)
  {
  }

  /** Whatever a crash at such an instant leaves is the old directory with some prefix of the record. */
  lemma {:induction false} AppendStepImage(s: Snapshot, base: seq<Segment>, r: Record, c: nat,
                                           img: Files) returns (n: nat)
    requires base != [] && AppendStep(s, base, r, c) && CrashImage(s, img)
    ensures n <= c && img == Appended(base, r, n)
  {
    var last := base[|base| - 1];
    var files, b := FilesOf(base), EncodeAll(last.recs);
    AppendedKeys(base, r, c);
    n := |img[last.id]| - |b|;
    TakeAcross(b, Encode(r)[..c], n);
    Prefix(Encode(r), c, 0, n);
    forall f | f in img ensures img[f] == Appended(base, r, n)[f] {
      if f != last.id {
        assert s.files[f] == files[f];
        assert files[f][..|files[f]|] == files[f];
      }
    }
  }

  /** Put and Delete are atomic at every instant of their execution: any crash leaves a directory
      that serves the old map, that serves the new map, or that fails to open. */
  lemma {:induction false} AppendAtomic(s: Snapshot, base: seq<Segment>, r: Record, c: nat, img: Files)
    requires base != [] && AppendStep(s, base, r, c) && CrashImage(s, img)
    requires Ascending(Ids(base)) && NamesInOrder(FilesOf(base)) && Sound(AppendRecord(base, r))
    ensures Reopen(img) in {Refused, Serves(ContentsOf(base)), Serves(ContentsOf(AppendRecord(base, r)))}
    ensures s.synced == FullySynced(s.files) && c == Size(r) && r.Put? && !HasTombstone(Flatten(base)) ==>
      Reopen(img) == Serves(ContentsOf(AppendRecord(base, r)))
    ensures NamesInOrder(img) && RecordsFit(img)
  {
    hide Reopen, FilesOf, Flatten, ContentsOf, EncodeAll, Encode, HasTombstone, NamesInOrder, RecordsFit, Sound, Ids;
    var n := AppendStepImage(s, base, r, c, img);
    AppendCrash(base, r, n);
    AppendRecordContents(base, r);
    AppendedKeys(base, r, c);
    AppendedKeys(base, r, n);
    SameKeysInOrder(FilesOf(base), img);
    AppendedFits(base, r, n);
  }

  lemma {:induction false} AppendedFits(base: seq<Segment>, r: Record, n: nat)
    requires base != [] && n <= Size(r) && Ascending(Ids(base)) && Sound(AppendRecord(base, r))
    ensures RecordsFit(Appended(base, r, n))
  {
    hide RecordsFit, Sound, FilesOf, Ascending, Encode, EncodeAll;
    var img, out, last := Appended(base, r, n), AppendRecord(base, r), base[|base| - 1];
    AppendRecordFiles(base, r);
    AscendingDistinct(out);
    forall f | f in img ensures f in FilesOf(out) && img[f] <= FilesOf(out)[f] {
      if f == last.id { Longer(EncodeAll(last.recs), Encode(r), n); }
    }
    CutsFit(out, img);
  }

  lemma {:induction false} Longer<T>(a: seq<T>, b: seq<T>, n: nat)
    requires n <= |b|
    ensures a + b[..n] <= a + b
  {
  }

  // ---------- a crash in Compact ----------

  /** The directory while the merged file is being written. */
  function Merging(segs: seq<Segment>, merged: nat, recs: seq<Record>, c: nat): Files
    requires c <= Length(recs)
  {
    FilesOf(segs)[merged := EncodeAll(recs)[..c]]
  }

  /** The directory while the old files are being removed. */
  function Removing(segs: seq<Segment>, merged: nat, recs: seq<Record>, j: nat): Files
    requires j <= |segs|
  {
    FilesOf(segs[j..] + [Segment(merged, recs)])
  }

  predicate AtBoundary(recs: seq<Record>, c: nat) {
    exists j :: 0 <= j <= |recs| && Length(recs[..j]) == c
  }

  lemma {:induction false} LengthMonotone(recs: seq<Record>, i: nat, j: nat)
    requires i < j <= |recs|
    ensures Length(recs[..i]) + Size(recs[i]) <= Length(recs[..j])
  {
    assert recs[..j] == recs[..i] + recs[i..j];
    LengthConcat(recs[..i], recs[i..j]);
    assert recs[i..j][0] == recs[i];
  }

  lemma {:induction false} InsideIsNoBoundary(recs: seq<Record>, j: nat, n: nat)
    requires j < |recs| && 0 < n < Size(recs[j])
    ensures !AtBoundary(recs, Length(recs[..j]) + n)
  {
    forall i | 0 <= i <= |recs| ensures Length(recs[..i]) != Length(recs[..j]) + n {
      if i > j { LengthMonotone(recs, j, i); }
      if i < j { LengthMonotone(recs, i, j); }
    }
  }

  /** The hypotheses of the compaction theorems: IDs rise to the merged one, names sort the same
      way, and the log is within the limits of the file format. */
  ghost predicate Compactable(segs: seq<Segment>, merged: nat, recs: seq<Record>) {
    && Ascending(Ids(segs) + [merged])
    && Ascending(Listing(FilesOf(segs).Keys + {merged}))
    && Sound(segs) && IsMerge(recs, ContentsOf(segs))
  }

  /** What a compaction writes is within the limits if the log is. */
  lemma {:induction false} MergeSound(segs: seq<Segment>, recs: seq<Record>)
    requires Sound(segs) && LivePuts(recs, ContentsOf(segs))
    ensures Delimited(recs, 0) && Fits(recs) && !HasTombstone(recs)
  {
    hide ContentsOf, Sound;
    SoundContents(segs);
    forall r | r in recs ensures r.Put? && HeaderExact(r) && Size(r) < U32 {
      assert r == Put(r.key, ContentsOf(segs)[r.key]);
    }
    PutsDelimited(recs, 0);
  }

  lemma {:induction false} PrefixFits(recs: seq<Record>, j: nat)
    requires Delimited(recs, 0) && Fits(recs) && j <= |recs|
    ensures Delimited(recs[..j], 0) && Fits(recs[..j])
  {
    DelimitedPrefix(recs, j, 0);
    assert forall r :: r in recs[..j] ==> r in recs;
  }

  lemma {:induction false} RemainderInOrder(segs: seq<Segment>, merged: nat, j: nat, recs: seq<Record>)
    requires j <= |segs| && Sound(segs) && Delimited(recs, 0) && Fits(recs)
    requires Ascending(Ids(segs) + [merged]) && Ascending(Listing(FilesOf(segs).Keys + {merged}))
    ensures var rest := segs[j..] + [Segment(merged, recs)];
      Ascending(Ids(rest)) && NamesInOrder(FilesOf(rest)) && Sound(rest)
  {
    hide FilesOf, Listing, IsListing, Delimited, Fits, NamesInOrder, Ids, Ascending;
    var rest, keys := segs[j..] + [Segment(merged, recs)], FilesOf(segs).Keys + {merged};
    RemainingIds(segs, merged, j, recs);
    FileIds(segs);
    FileIds(rest);
    FewerKeysInOrder(FilesOf(rest), keys);
  }

  lemma {:induction false} RemainingIds(segs: seq<Segment>, merged: nat, j: nat, recs: seq<Record>)
    requires j <= |segs| && Ascending(Ids(segs) + [merged])
    ensures var rest := Ids(segs[j..] + [Segment(merged, recs)]);
      Ascending(rest) && forall f :: f in rest ==> f in Ids(segs) || f == merged
  {
    assert Ids(segs[j..] + [Segment(merged, recs)]) == (Ids(segs) + [merged])[j..];
  }

  /** Stopping while the merged file is written, after any number of its bytes: the old map, or
      a failure to open; the failure exactly when the cut tears a record or a tombstone is on disk. */
  lemma {:induction false} CrashWhileMerging(segs: seq<Segment>, merged: nat, recs: seq<Record>, c: nat)
    requires Compactable(segs, merged, recs) && c <= Length(recs)
    ensures Reopen(Merging(segs, merged, recs, c)) ==
      if HasTombstone(Flatten(segs)) || !AtBoundary(recs, c) then Refused else Serves(ContentsOf(segs))
  {
    var j, n := CutPoint(recs, c);
    MergeSound(segs, recs);
    if n > 0 {
      CrashInsideRecord(segs, merged, recs, c, j, n);
    } else {
      Neutral(EncodeAll(recs[..j]));
      CrashBetweenRecords(segs, merged, recs, c, j);
    }
  }

  lemma {:induction false} CrashInsideRecord(segs: seq<Segment>, merged: nat, recs: seq<Record>, c: nat, j: nat, n: nat)
    requires Delimited(recs, 0) && c <= Length(recs)
    requires j < |recs| && 0 < n < Size(recs[j]) && c == Length(recs[..j]) + n
    requires EncodeAll(recs)[..c] == EncodeAll(recs[..j]) + Encode(recs[j])[..n]
    ensures Reopen(Merging(segs, merged, recs, c)) ==
      if HasTombstone(Flatten(segs)) || !AtBoundary(recs, c) then Refused else Serves(ContentsOf(segs))
  {
    InsideIsNoBoundary(recs, j, n);
    ScanOfCut(recs, j, n);
    UnparsableReopen(Merging(segs, merged, recs, c), merged);
  }

  lemma {:induction false} CrashBetweenRecords(segs: seq<Segment>, merged: nat, recs: seq<Record>, c: nat, j: nat)
    requires Compactable(segs, merged, recs) && c <= Length(recs)
    requires j <= |recs| && Length(recs[..j]) == c && EncodeAll(recs)[..c] == EncodeAll(recs[..j])
    ensures Reopen(Merging(segs, merged, recs, c)) ==
      if HasTombstone(Flatten(segs)) || !AtBoundary(recs, c) then Refused else Serves(ContentsOf(segs))
  {
    PartialMerge(segs, merged, recs, j);
  }

  lemma {:induction false} LengthOfPrefix(recs: seq<Record>, j: nat)
    requires j <= |recs|
    ensures Length(recs[..j]) <= Length(recs) && (j < |recs| ==> Length(recs[..j]) + Size(recs[j]) <= Length(recs))
  {
    assert recs[..|recs|] == recs;
    if j < |recs| { LengthMonotone(recs, j, |recs|); }
  }

  lemma {:induction false} PartialMerge(segs: seq<Segment>, merged: nat, recs: seq<Record>, j: nat)
    requires Compactable(segs, merged, recs) && j <= |recs|
    ensures Reopen(FilesOf(segs)[merged := EncodeAll(recs[..j])]) ==
      if HasTombstone(Flatten(segs)) then Refused else Serves(ContentsOf(segs))
  {
    var done, m := recs[..j], ContentsOf(segs);
    var all := segs + [Segment(merged, done)];
    MergeSound(segs, recs);
    PrefixFits(recs, j);
    assert segs[0..] == segs;
    RemainderInOrder(segs, merged, 0, done);
    LastSegment(segs, Segment(merged, done));
    ReopenInOrder(all);
    LivePrefix(recs, m, j);
    TombstoneConcat(Flatten(segs), done);
    ApplyConcat(map[], Flatten(segs), done);
    RewriteKeepsContents(done, m);
  }

  lemma {:induction false} FlattenConcat(a: seq<Segment>, b: seq<Segment>)
    ensures Flatten(a + b) == Flatten(a) + Flatten(b)
  {
    if b == [] {
      Neutral(a);
      Neutral(Flatten(a));
    } else {
      var init, s := b[..|b| - 1], b[|b| - 1];
      FlattenConcat(a, init);
      Assoc(a, init, [s]);
      assert b == init + [s];
      LastSegment(a + init, s);
      Assoc(Flatten(a), Flatten(init), s.recs);
    }
  }

  /** Stopping after the sync, with any prefix of the old files removed: the old map, or a
      failure to open exactly when a file that holds a tombstone is still there. */
  lemma {:induction false} CrashWhileRemoving(segs: seq<Segment>, merged: nat, recs: seq<Record>, j: nat)
    requires Compactable(segs, merged, recs) && j <= |segs|
    ensures Reopen(Removing(segs, merged, recs, j)) ==
      if HasTombstone(Flatten(segs[j..])) then Refused else Serves(ContentsOf(segs))
  {
    var kept := Flatten(segs[j..]);
    var rest := segs[j..] + [Segment(merged, recs)];
    MergeSound(segs, recs);
    RemainderInOrder(segs, merged, j, recs);
    LastSegment(segs[j..], Segment(merged, recs));
    ReopenInOrder(rest);
    LivePrefix(recs, ContentsOf(segs), |recs|);
    assert recs[..|recs|] == recs;
    TombstoneConcat(kept, recs);
    Split(segs, j);
    FlattenConcat(segs[..j], segs[j..]);
    if !HasTombstone(kept) {
      MergeOverRemainder(Flatten(segs[..j]), kept, recs);
    }
  }

  /** What is left of a directory after removing the files in `l`. */
  function Without(files: Files, l: seq<nat>): Files { files - set x | x in l }

  /** An instant while the merged file is being written: `j` records of it are, none need be durable. */
  ghost predicate MergingStep(s: Snapshot, before: Files, merged: nat, recs: seq<Record>, j: nat) {
    && j <= |recs| && s.files == before[merged := EncodeAll(recs[..j])]
    && forall f :: f in before ==> f in s.synced && s.synced[f] >= |before[f]|
  }

  /** An instant after the sync: the merged file is durable and the first `j` listed files are gone. */
  ghost predicate RemovingStep(s: Snapshot, before: Files, listing: seq<nat>, merged: nat, recs: seq<Record>, j: nat) {
    && j <= |listing| && s.files == Without(before, listing[..j])[merged := EncodeAll(recs)]
    && s.synced == FullySynced(s.files)
  }

  ghost predicate CompactStep(s: Snapshot, before: Files, listing: seq<nat>, merged: nat, recs: seq<Record>) {
    || (exists j: nat :: MergingStep(s, before, merged, recs, j))
    || (exists j: nat :: RemovingStep(s, before, listing, merged, recs, j))
  }

  lemma {:induction false} EncodePrefix(recs: seq<Record>, j: nat, n: nat)
    requires j <= |recs| && n <= Length(recs[..j])
    ensures n <= Length(recs) && EncodeAll(recs)[..n] == EncodeAll(recs[..j])[..n]
  {
    Split(recs, j);
    EncodeAllConcat(recs[..j], recs[j..]);
    TakeWithin(EncodeAll(recs[..j]), EncodeAll(recs[j..]), n);
    LengthOfPrefix(recs, j);
  }

  lemma {:induction false} MergingImage(s: Snapshot, segs: seq<Segment>, merged: nat, recs: seq<Record>, j: nat,
                                        img: Files) returns (n: nat)
    requires MergingStep(s, FilesOf(segs), merged, recs, j) && CrashImage(s, img) && merged !in FilesOf(segs)
    ensures n <= Length(recs) && img == Merging(segs, merged, recs, n)
    ensures s.synced == FullySynced(s.files) ==> AtBoundary(recs, n)
  {
    var before := FilesOf(segs);
    n := |img[merged]|;
    EncodePrefix(recs, j, n);
    forall f | f in img ensures img[f] == Merging(segs, merged, recs, n)[f] {
      if f != merged { assert before[f][..|before[f]|] == before[f]; }
    }
    if s.synced == FullySynced(s.files) {
      assert Length(recs[..j]) == n;
    }
  }

  lemma {:induction false} RemovingImage(s: Snapshot, img: Files)
    requires s.synced == FullySynced(s.files) && CrashImage(s, img)
    ensures img == s.files
  {
    forall f | f in img ensures img[f] == s.files[f] {
      assert s.files[f][..|s.files[f]|] == s.files[f];
    }
  }

  lemma {:induction false} FilesAfterRemoval(segs: seq<Segment>, j: nat)
    requires j <= |segs| && DistinctIds(segs)
    ensures Without(FilesOf(segs), Ids(segs)[..j]) == FilesOf(segs[j..])
  {
    if j == |segs| {
      RemoveAll(segs);
      assert Ids(segs)[..j] == Ids(segs);
      assert segs[j..] == [];
    } else {
      hide FilesOf, Ids, Without, EncodeAll;
      var init, s := segs[..|segs| - 1], segs[|segs| - 1];
      FilesAfterRemoval(init, j);
      LastSegment(init[j..], s);
      DropSnoc(segs, j);
      KeepLast(segs, j);
    }
  }

  lemma {:induction false} RemoveAll(segs: seq<Segment>)
    ensures Without(FilesOf(segs), Ids(segs)) == FilesOf([])
  {
    FileIds(segs);
  }

  lemma {:induction false} KeepLast(segs: seq<Segment>, j: nat)
    requires j < |segs| && DistinctIds(segs)
    ensures var init, s := segs[..|segs| - 1], segs[|segs| - 1];
      Without(FilesOf(segs), Ids(segs)[..j]) == Without(FilesOf(init), Ids(init)[..j])[s.id := EncodeAll(s.recs)]
  {
    var init, s, ids := segs[..|segs| - 1], segs[|segs| - 1], Ids(segs)[..j];
    assert ids == Ids(init)[..j];
    assert s.id !in ids;
  }

  lemma {:induction false} OldNamesInOrder(segs: seq<Segment>, merged: nat)
    requires Ascending(Ids(segs) + [merged]) && Ascending(Listing(FilesOf(segs).Keys + {merged}))
    ensures Listing(FilesOf(segs).Keys) == Ids(segs) && DistinctIds(segs) && merged !in FilesOf(segs)
  {
    var ids := Ids(segs);
    assert (ids + [merged])[..|segs|] == ids;
    assert merged !in ids by { assert (ids + [merged])[|segs|] == merged; }
    FileIds(segs);
    AscendingListing(FilesOf(segs).Keys + {merged});
    AscendingListing(FilesOf(segs).Keys);
    ListingIsIds(segs);
  }

  /** Compaction is crash-consistent at every instant: whatever a crash leaves behind, reopening
      serves exactly the map from before or fails; it never serves another map. */
  lemma {:induction false} CompactAtomic(s: Snapshot, segs: seq<Segment>, merged: nat, recs: seq<Record>, img: Files)
    requires Compactable(segs, merged, recs)
    requires CompactStep(s, FilesOf(segs), Listing(FilesOf(segs).Keys), merged, recs) && CrashImage(s, img)
    ensures Reopen(img) in {Refused, Serves(ContentsOf(segs))}
    ensures !HasTombstone(Flatten(segs)) && s.synced == FullySynced(s.files) ==> Reopen(img) == Serves(ContentsOf(segs))
    ensures NamesInOrder(img) && RecordsFit(img)
  {
    hide Reopen, FilesOf, Flatten, ContentsOf, EncodeAll, Length, Ids, HasTombstone, AtBoundary, RecordsFit;
    hide NamesInOrder;
    OldNamesInOrder(segs, merged);
    if j: nat :| MergingStep(s, FilesOf(segs), merged, recs, j) {
      var n := MergingImage(s, segs, merged, recs, j, img);
      CrashWhileMerging(segs, merged, recs, n);
      CompactionFits(segs, merged, recs, img);
    } else {
      var j: nat :| RemovingStep(s, FilesOf(segs), Ids(segs), merged, recs, j);
      RemovingImage(s, img);
      FilesAfterRemoval(segs, j);
      LastSegment(segs[j..], Segment(merged, recs));
      CrashWhileRemoving(segs, merged, recs, j);
      TombstoneSuffix(segs, j);
      CompactionFits(segs, merged, recs, img);
    }
  }

  /** All files a compaction can leave are old ones, or a part of the merged one. */
  lemma {:induction false} CompactionFits(segs: seq<Segment>, merged: nat, recs: seq<Record>, img: Files)
    requires Compactable(segs, merged, recs)
    requires img.Keys <= FilesOf(segs).Keys + {merged}
    requires forall f :: f in img && f != merged ==> img[f] == FilesOf(segs)[f]
    requires merged in img ==> img[merged] <= EncodeAll(recs)
    ensures NamesInOrder(img) && RecordsFit(img)
  {
    hide FilesOf, EncodeAll, ContentsOf, Listing, IsListing, RecordsFit, Ascending, Delimited, Fits;
    var all := segs + [Segment(merged, recs)];
    MergeSound(segs, recs);
    LastSegment(segs, Segment(merged, recs));
    assert Ids(all) == Ids(segs) + [merged];
    AscendingDistinct(all);
    CutsFit(all, img);
    FewerKeysInOrder(img, FilesOf(segs).Keys + {merged});
  }

  lemma {:induction false} TombstoneSuffix(segs: seq<Segment>, j: nat)
    requires j <= |segs|
    ensures HasTombstone(Flatten(segs[j..])) ==> HasTombstone(Flatten(segs))
  {
    Split(segs, j);
    FlattenConcat(segs[..j], segs[j..]);
    TombstoneConcat(Flatten(segs[..j]), Flatten(segs[j..]));
  }

  ghost predicate CompactSteps(trace: seq<Snapshot>, before: Files, entries: seq<nat>, merged: nat, recs: seq<Record>) {
    forall s :: s in trace ==> CompactStep(s, before, entries, merged, recs)
  }

  // ---------- crash safety of a stretch of execution ----------

  /** The two logs are within the limits of the file format, and the names of their files sort as
      the IDs do. */
  ghost predicate Tame(a: seq<Segment>, b: seq<Segment>) {
    Sound(a) && Sound(b) && Ascending(Listing(FilesOf(a).Keys + FilesOf(b).Keys))
  }

  /** Opening these files is refused or serves the contents of one of the two logs; and if they
      open, the engine is in a valid state. */
  ghost predicate SafeImage(img: Files, a: seq<Segment>, b: seq<Segment>) {
    && NamesInOrder(img) && RecordsFit(img)
    && Reopen(img) in {Refused, Serves(ContentsOf(a)), Serves(ContentsOf(b))}
  }

  /** Opening these files is refused exactly if the log holds a tombstone, and otherwise serves its
      contents. */
  ghost predicate Durably(img: Files, log: seq<Segment>) {
    && NamesInOrder(img) && RecordsFit(img)
    && Reopen(img) == if HasTombstone(Flatten(log)) then Refused else Serves(ContentsOf(log))
  }

  /** While the log goes from `a` to `b` a crash leaves the contents of `a` or `b`, or a directory
      that is refused; from the last instant on it leaves those of `b`, unless a tombstone is on disk. */
  ghost predicate CrashSafe(trace: seq<Snapshot>, a: seq<Segment>, b: seq<Segment>) {
    Tame(a, b) ==> forall s, img :: s in trace && CrashImage(s, img) ==>
      SafeImage(img, a, b) && (s == trace[|trace| - 1] ==> Durably(img, b))
  }

  lemma {:induction false} NothingHappened(trace: seq<Snapshot>, a: seq<Segment>)
    requires trace == []
    ensures CrashSafe(trace, a, a)
  {
  }

  lemma {:induction false} FewerKeysInOrder(a: Files, keys: set<nat>)
    requires a.Keys <= keys && Ascending(Listing(keys))
    ensures NamesInOrder(a)
  {
    AscendingListing(keys);
    AscendingListing(a.Keys);
  }

  /** A crash at an instant where everything is durable. */
  lemma {:induction false} SettledCrash(s: Snapshot, img: Files, log: seq<Segment>)
    requires s.files == FilesOf(log) && s.synced == FullySynced(s.files) && CrashImage(s, img)
    requires Ascending(Ids(log)) && NamesInOrder(FilesOf(log)) && Sound(log)
    ensures Durably(img, log)
  {
    hide Reopen, FilesOf, ContentsOf, CrashImage, Ascending, HasTombstone, Sound, RecordsFit, FullySynced;
    RemovingImage(s, img);
    ReopenInOrder(log);
    AscendingDistinct(log);
    CutsFit(log, img);
  }

  /** Appending a record is crash safe. */
  lemma {:induction false} AppendSafe(trace: seq<Snapshot>, a: seq<Segment>, base: seq<Segment>, r: Record)
    requires base != [] && Ascending(Ids(base)) && AppendSteps(trace, base, r)
    requires trace != [] && trace[|trace| - 1].files == FilesOf(AppendRecord(base, r))
    requires trace[|trace| - 1].synced == FullySynced(trace[|trace| - 1].files)
    requires ContentsOf(base) == ContentsOf(a)
    ensures CrashSafe(trace, a, AppendRecord(base, r))
  {
    hide Reopen, FilesOf, ContentsOf, CrashImage, AppendStep, NamesInOrder, Ids, Sound, AppendRecord, FullySynced;
    hide Ascending, Durably, HasTombstone, Flatten, Listing, IsListing, RecordsFit;
    var out, last := AppendRecord(base, r), trace[|trace| - 1];
    if Tame(a, out) {
      AppendRecordFiles(base, r);
      SameIds(base, r);
      FewerKeysInOrder(FilesOf(out), FilesOf(a).Keys + FilesOf(out).Keys);
      SameKeysInOrder(FilesOf(out), FilesOf(base));
      forall s, img | s in trace && CrashImage(s, img)
        ensures SafeImage(img, a, out) && (s == last ==> Durably(img, out))
      {
        var c :| AppendStep(s, base, r, c);
        AppendAtomic(s, base, r, c, img);
        if s == last { SettledCrash(s, img, out); }
      }
    }
  }

  lemma {:induction false} SameIds(base: seq<Segment>, r: Record)
    requires base != []
    ensures Ids(AppendRecord(base, r)) == Ids(base)
  {
  }

  /** Compacting is crash safe, and never serves another map. */
  lemma {:induction false} CompactSafe(trace: seq<Snapshot>, before: seq<Segment>, merged: nat, recs: seq<Record>)
    requires Ascending(Ids(before)) && before != [] && before[|before| - 1].id < merged
    requires IsMerge(recs, ContentsOf(before))
    requires trace != [] && trace[|trace| - 1].files == map[merged := EncodeAll(recs)]
    requires trace[|trace| - 1].synced == FullySynced(trace[|trace| - 1].files)
    requires CompactSteps(trace, FilesOf(before), Listing(FilesOf(before).Keys), merged, recs)
    ensures CrashSafe(trace, before, [Segment(merged, recs)])
  {
    hide Reopen, FilesOf, ContentsOf, CrashImage, CompactStep, EncodeAll, Compactable, NamesInOrder, Ids, Sound;
    hide Ascending, Durably, HasTombstone, Flatten, Listing, IsListing, RecordsFit, FullySynced, IsMerge;
    var out, last := [Segment(merged, recs)], trace[|trace| - 1];
    if Tame(before, out) {
      TameCompaction(before, merged, recs);
      MergedFile(merged, recs, ContentsOf(before));
      FewerKeysInOrder(FilesOf(out), FilesOf(before).Keys + FilesOf(out).Keys);
      forall s, img | s in trace && CrashImage(s, img)
        ensures SafeImage(img, before, out) && (s == last ==> Durably(img, out))
      {
        CompactAtomic(s, before, merged, recs, img);
        if s == last { SettledCrash(s, img, out); }
      }
    }
  }

  /** The merged file alone holds the contents again. */
  lemma {:induction false} MergedFile(merged: nat, recs: seq<Record>, m: Contents)
    requires IsMerge(recs, m)
    ensures var log := [Segment(merged, recs)];
      && FilesOf(log) == map[merged := EncodeAll(recs)] && Ids(log) == [merged] && Ascending(Ids(log))
      && ContentsOf(log) == m && !HasTombstone(Flatten(log))
  {
    hide EncodeAll, ApplyAll, HasTombstone;
    var s := Segment(merged, recs);
    LastSegment([], s);
    assert [] + [s] == [s];
    Neutral(recs);
    LivePrefix(recs, m, |recs|);
    assert recs[..|recs|] == recs;
    MergeRestores(map[], recs, m);
  }

  lemma {:induction false} TameCompaction(before: seq<Segment>, merged: nat, recs: seq<Record>)
    requires Ascending(Ids(before)) && before != [] && before[|before| - 1].id < merged
    requires IsMerge(recs, ContentsOf(before)) && Tame(before, [Segment(merged, recs)])
    ensures Compactable(before, merged, recs)
  {
    hide FilesOf, ContentsOf, EncodeAll, IsMerge, Ids, Listing, IsListing, Sound, HasTombstone, Flatten;
    LastIdLargest(before, merged);
    MergedFile(merged, recs, ContentsOf(before));
    assert FilesOf([Segment(merged, recs)]).Keys == {merged};
  }

  lemma {:induction false} LastIdLargest(segs: seq<Segment>, merged: nat)
    requires Ascending(Ids(segs)) && segs != [] && segs[|segs| - 1].id < merged
    ensures Ascending(Ids(segs) + [merged]) && merged !in Ids(segs)
  {
    var ids := Ids(segs);
    assert ids[|ids| - 1] < merged;
    assert forall i :: 0 <= i < |ids| ==> ids[i] <= ids[|ids| - 1];
  }
}
