/** Opening an existing directory: what the recovery scan rebuilds from the files, in the order
    the directory lists them, and when that is what the engine had before it stopped. */
module Recovery {
  import opened Bytes
  import opened RecordLog
  import opened FileNames
  import opened Segments

  /** The scan over the files in listing order; None when some file does not parse. */
  function RecoverFiles(files: Files, listing: seq<nat>): Option<KeyDir>
    requires forall id :: id in listing ==> id in files
  {
    if listing == [] then Some(map[])
    else
      var id := listing[|listing| - 1];
      match RecoverFiles(files, listing[..|listing| - 1])
      case None => None
      case Some(kd) =>
        match ParsedLayout(files[id])
        case None => None
        case Some(es) => Some(IndexFile(kd, id, es))
  }

  ghost function Recover(files: Files): Option<KeyDir> {
    RecoverFiles(files, Listing(files.Keys))
  }

  /** What opening a directory comes to: an error, an engine that cannot read some value it has
      indexed, or an engine that serves a key/value map. */
  datatype Outcome = Refused | Unreadable | Serves(contents: Contents)

  ghost function Reopen(files: Files): Outcome {
    match Recover(files)
    case None => Refused
    case Some(kd) =>
      if forall k :: k in kd ==> ReadAt(files, kd[k]).Some?
      then Serves(map k | k in kd :: ReadAt(files, kd[k]).value)
      else Unreadable
  }

  /** The limits of the file format: true sizes in all headers, fewer than 2^32-1 bytes behind a
      tombstone in its file, and puts shorter than 2^32 bytes. The files may have any length. */
  ghost predicate Sound(segs: seq<Segment>) {
    forall i :: 0 <= i < |segs| ==> Delimited(segs[i].recs, 0) && Fits(segs[i].recs)
  }

  /** Every record that the parser finds in these files is shorter than 2^32 bytes. */
  ghost predicate RecordsFit(files: Files) {
    forall f :: f in files && Scan(files[f]).Some? ==> Fits(Scan(files[f]).value)
  }

  // ---------- recovery replays the log ----------

  lemma {:induction false} TombstoneConcat(a: seq<Record>, b: seq<Record>)
    ensures HasTombstone(a + b) <==> HasTombstone(a) || HasTombstone(b)
  {
    assert forall r :: r in a + b <==> r in a || r in b;
  }

  lemma {:induction false} RecoverStored(files: Files, segs: seq<Segment>)
    requires Stores(files, segs) && Sound(segs)
    requires forall id :: id in Ids(segs) ==> id in files
    ensures RecoverFiles(files, Ids(segs)) ==
      if HasTombstone(Flatten(segs)) then None else Some(Replay(segs))
  {
    if segs != [] {
      var init, s := segs[..|segs| - 1], segs[|segs| - 1];
      assert Ids(segs)[..|segs| - 1] == Ids(init);
      RecoverStored(files, init);
      TombstoneConcat(Flatten(init), s.recs);
      ScanOfFile(s.recs);
    }
  }

  lemma {:induction false} FlattenMembers(segs: seq<Segment>, r: Record)
    ensures r in Flatten(segs) <==> exists s :: s in segs && r in s.recs
  {
    if segs != [] {
      var init, last := segs[..|segs| - 1], segs[|segs| - 1];
      FlattenMembers(init, r);
      assert forall s :: s in segs <==> s in init || s == last;
    }
  }

  /** Every current value was written by some put. */
  lemma {:induction false} ContentsLogged(rs: seq<Record>)
    ensures forall k :: k in ApplyAll(map[], rs) ==> Put(k, ApplyAll(map[], rs)[k]) in rs
  {
    if rs != [] {
      var init, r := rs[..|rs| - 1], rs[|rs| - 1];
      ContentsLogged(init);
      assert forall s :: s in rs <==> s in init || s == r;
    }
  }

  lemma {:induction false} SoundContents(segs: seq<Segment>)
    requires Sound(segs)
    ensures forall k :: k in ContentsOf(segs) ==> Size(Put(k, ContentsOf(segs)[k])) < U32
  {
    hide Flatten, ApplyAll, Delimited;
    ContentsLogged(Flatten(segs));
    forall k | k in ContentsOf(segs) ensures Size(Put(k, ContentsOf(segs)[k])) < U32 {
      var r := Put(k, ContentsOf(segs)[k]);
      FlattenMembers(segs, r);
      var s :| s in segs && r in s.recs;
    }
  }

  lemma {:induction false} LocatedReads(files: Files, kd: KeyDir, m: Contents)
    requires Locates(files, kd, m) && forall k :: k in m ==> Size(Put(k, m[k])) < U32
    ensures forall k :: k in kd ==> ReadAt(files, kd[k]) == Some(m[k])
  {
    forall k | k in kd ensures ReadAt(files, kd[k]) == Some(m[k]) {
      assert Holds(files, kd[k], Put(k, m[k]));
      ReadAtExact(files, kd[k], Put(k, m[k]));
      assert Size(Put(k, m[k])) < U32;
      TruncatedExact(k, m[k]);
    }
  }

  lemma {:induction false} RecoverListed(segs: seq<Segment>)
    requires DistinctIds(segs) && Sound(segs)
    requires Listing(FilesOf(segs).Keys) == Ids(segs)
    ensures Recover(FilesOf(segs)) == if HasTombstone(Flatten(segs)) then None else Some(Replay(segs))
  {
    FileIds(segs);
    FilesStore(segs);
    RecoverStored(FilesOf(segs), segs);
  }

  lemma {:induction false} ReopenLocated(files: Files, kd: KeyDir, m: Contents)
    requires Recover(files) == Some(kd) && Locates(files, kd, m)
    requires forall k :: k in m ==> Size(Put(k, m[k])) < U32
    ensures Reopen(files) == Serves(m)
  {
    LocatedReads(files, kd, m);
    var read := map k | k in kd :: ReadAt(files, kd[k]).value;
    assert read == m;
  }

  /** If the directory lists its files in the order of `segs`, opening it fails exactly when some
      file holds a tombstone, and otherwise serves the contents of that log. */
  lemma {:induction false} ReopenListed(segs: seq<Segment>)
    requires DistinctIds(segs) && Sound(segs)
    requires Listing(FilesOf(segs).Keys) == Ids(segs)
    ensures Reopen(FilesOf(segs)) == if HasTombstone(Flatten(segs)) then Refused else Serves(ContentsOf(segs))
  {
    RecoverListed(segs);
    if !HasTombstone(Flatten(segs)) {
      ReplayLocates(segs);
      SoundContents(segs);
      ReopenLocated(FilesOf(segs), Replay(segs), ContentsOf(segs));
    }
  }

  // ---------- name order and ID order ----------

  /** The directory lists its files in ID order. */
  ghost predicate NamesInOrder(files: Files) { Ascending(Listing(files.Keys)) }

  lemma {:induction false} ListingIsIds(segs: seq<Segment>)
    requires Ascending(Ids(segs)) && NamesInOrder(FilesOf(segs))
    ensures Listing(FilesOf(segs).Keys) == Ids(segs) && DistinctIds(segs)
  {
    FileIds(segs);
    var ids, keys := Ids(segs), FilesOf(segs).Keys;
    AscendingListing(keys);
    assert forall i :: 0 <= i < |ids| ==> ids[i] in ids;
    ListingUnique(Listing(keys), ids, keys);
    forall i, j | 0 <= i < j < |segs| ensures segs[i].id != segs[j].id {
      assert ids[i] < ids[j];
    }
  }

  /** Reopening a directory whose names sort as its IDs do: the engine's own index comes back,
      location by location, unless a tombstone is on disk, which makes opening fail. */
  lemma {:induction false} ReopenInOrder(segs: seq<Segment>)
    requires Ascending(Ids(segs)) && NamesInOrder(FilesOf(segs)) && Sound(segs)
    ensures Recover(FilesOf(segs)) == if HasTombstone(Flatten(segs)) then None else Some(Replay(segs))
    ensures Reopen(FilesOf(segs)) == if HasTombstone(Flatten(segs)) then Refused else Serves(ContentsOf(segs))
  {
    ListingIsIds(segs);
    RecoverListed(segs);
    ReopenListed(segs);
  }

  // ---------- what the files of an opened directory hold ----------

  /** The log that the files of a parsable directory hold, by listing order. */
  ghost function Decode(files: Files, listing: seq<nat>): seq<Segment>
    requires forall id :: id in listing ==> id in files
  {
    if listing == [] then []
    else
      var id := listing[|listing| - 1];
      var recs := Scan(files[id]);
      Decode(files, listing[..|listing| - 1]) + [Segment(id, if recs.Some? then recs.value else [])]
  }

  ghost function OnDisk(files: Files): seq<Segment> { Decode(files, Listing(files.Keys)) }

  lemma {:induction false} DecodeStores(files: Files, l: seq<nat>)
    requires forall id :: id in l ==> id in files
    requires RecoverFiles(files, l).Some? && RecordsFit(files)
    ensures var segs := Decode(files, l);
      Ids(segs) == l && Stores(files, segs) && Sound(segs) && !HasTombstone(Flatten(segs))
  {
    hide Scan, EncodeAll, Flatten, HasTombstone, IndexFile, Layout, Delimited, Fits, Sound, Parseable, Stores;
    if l == [] {
      NoTombstone();
    } else {
      var init, id := l[..|l| - 1], l[|l| - 1];
      DecodeStores(files, init);
      ScanInverse(files[id]);
      PutsDelimited(Scan(files[id]).value, 0);
      StoresSnoc(files, Decode(files, init), Segment(id, Scan(files[id]).value));
    }
  }

  lemma {:induction false} PutsDelimited(rs: seq<Record>, more: nat)
    requires Parseable(rs)
    ensures Delimited(rs, more)
  {
    assert forall i :: 0 <= i < |rs| ==> rs[i] in rs;
  }

  lemma {:induction false} NoTombstone()
    ensures !HasTombstone(Flatten([])) && Sound([]) && forall files :: Stores(files, [])
  {
  }

  lemma {:induction false} StoresSnoc(files: Files, segs: seq<Segment>, s: Segment)
    requires Stores(files, segs) && s.id in files && files[s.id] == EncodeAll(s.recs)
    requires !HasTombstone(Flatten(segs)) && forall r :: r in s.recs ==> r.Put?
    requires Sound(segs) && Delimited(s.recs, 0) && Fits(s.recs)
    ensures Stores(files, segs + [s]) && Sound(segs + [s]) && !HasTombstone(Flatten(segs + [s]))
    ensures Ids(segs + [s]) == Ids(segs) + [s.id]
  {
    hide EncodeAll, Flatten, Delimited, Fits, Scan, HasTombstone;
    HasNone(s.recs);
    LastSegment(segs, s);
    TombstoneConcat(Flatten(segs), s.recs);
    assert (segs + [s])[..|segs|] == segs;
  }

  lemma {:induction false} HasNone(rs: seq<Record>)
    requires forall r :: r in rs ==> r.Put?
    ensures !HasTombstone(rs)
  {
  }

  lemma {:induction false} StoredFiles(files: Files, segs: seq<Segment>)
    requires DistinctIds(segs) && Stores(files, segs) && forall f :: f in files <==> f in Ids(segs)
    ensures FilesOf(segs) == files
  {
    FileIds(segs);
    FilesStore(segs);
    forall f | f in files ensures FilesOf(segs)[f] == files[f] {
      var i :| 0 <= i < |segs| && Ids(segs)[i] == f;
      assert segs[i].id == f;
    }
  }

  /** Within the limits of the format a parsable directory is the encoding of the log it decodes
      to, whatever the order of its names, and an engine that opens it can read every key. */
  lemma {:induction false} OpenedServes(files: Files)
    requires Recover(files).Some? && RecordsFit(files)
    ensures var log := OnDisk(files);
      && FilesOf(log) == files && Sound(log) && !HasTombstone(Flatten(log))
      && Reopen(files) == Serves(ContentsOf(log))
  {
    hide FilesOf, Flatten, ContentsOf, Reopen, Recover, Decode, HasTombstone, Sound;
    var l := Listing(files.Keys);
    var log := OnDisk(files);
    DecodedListing(files);
    StoredFiles(files, log);
    ReopenListed(log);
  }

  lemma {:induction false} DecodedListing(files: Files)
    requires Recover(files).Some? && RecordsFit(files)
    ensures var log := OnDisk(files);
      && Ids(log) == Listing(files.Keys) && Stores(files, log) && Sound(log) && !HasTombstone(Flatten(log))
      && DistinctIds(log) && forall f :: f in files <==> f in Ids(log)
  {
    hide Flatten, Decode, HasTombstone;
    var l := Listing(files.Keys);
    DecodeStores(files, l);
    forall i, j | 0 <= i < j < |l| ensures l[i] != l[j] { NameOrderTotal(l[i], l[j]); }
  }

  /** Whatever a cut leaves of the files of a log fits the limits again. */
  lemma {:induction false} CutsFit(segs: seq<Segment>, img: Files)
    requires DistinctIds(segs) && Sound(segs)
    requires forall f :: f in img ==> f in FilesOf(segs) && img[f] <= FilesOf(segs)[f]
    ensures RecordsFit(img)
  {
    hide FilesOf, Scan, Delimited;
    FileIds(segs);
    forall f | f in img && Scan(img[f]).Some? ensures Fits(Scan(img[f]).value) {
      var s := SegmentOf(segs, f);
      StoredSegment(segs, s);
      CutFits(s.recs, img[f]);
    }
  }

  lemma {:induction false} CutFits(recs: seq<Record>, b: Bytes)
    requires Delimited(recs, 0) && Fits(recs) && b <= EncodeAll(recs) && Scan(b).Some?
    ensures Fits(Scan(b).value)
  {
    hide Scan, Delimited;
    var j, n := CutPoint(recs, |b|);
    ScanOfCut(recs, j, n);
    assert b == EncodeAll(recs)[..|b|];
    assert forall r :: r in recs[..j] ==> r in recs;
  }

  // ---------- and when the names are out of order ----------

  predicate Mentions(s: Segment, k: Bytes) { exists r :: r in s.recs && r.key == k }

  /** The location the segment's last record of `k` has. */
  function Within(s: Segment): KeyDir { IndexFile(map[], s.id, Layout(s.recs, 0, false)) }

  lemma {:induction false} IndexPuts(kd: KeyDir, id: nat, rs: seq<Record>, k: Bytes)
    requires !HasTombstone(rs)
    ensures var one := IndexFile(map[], id, Layout(rs, 0, false));
      && (k in one <==> Mentions(Segment(id, rs), k))
      && (k in one ==> one[k].fileID == id)
      && (k in IndexFile(kd, id, Layout(rs, 0, false)) <==> k in kd || k in one)
      && (k in IndexFile(kd, id, Layout(rs, 0, false)) ==>
            IndexFile(kd, id, Layout(rs, 0, false))[k] == if k in one then one[k] else kd[k])
  {
    if rs != [] {
      var init, r := rs[..|rs| - 1], rs[|rs| - 1];
      assert rs == init + [r];
      assert r in rs && r.Put? && forall x :: x in rs <==> x in init || x == r;
      IndexPuts(kd, id, init, k);
      IndexFileSnoc(kd, id, init, r);
      IndexFileSnoc(map[], id, init, r);
    }
  }

  /** Without tombstones a key is indexed where the last segment that mentions it has it. */
  lemma {:induction false} ReplayLast(segs: seq<Segment>, k: Bytes) returns (i: int)
    requires !HasTombstone(Flatten(segs))
    ensures -1 <= i < |segs| && forall j :: i < j < |segs| ==> !Mentions(segs[j], k)
    ensures k in Replay(segs) <==> i >= 0
    ensures i >= 0 ==> Mentions(segs[i], k) && k in Within(segs[i])
    ensures i >= 0 ==> Within(segs[i])[k].fileID == segs[i].id && Replay(segs)[k] == Within(segs[i])[k]
  {
    if segs == [] {
      i := -1;
    } else {
      var init, s := segs[..|segs| - 1], segs[|segs| - 1];
      TombstoneConcat(Flatten(init), s.recs);
      IndexPuts(Replay(init), s.id, s.recs, k);
      if Mentions(s, k) {
        i := |segs| - 1;
      } else {
        i := ReplayLast(init, k);
      }
    }
  }

  ghost predicate SameSegments(a: seq<Segment>, b: seq<Segment>) {
    forall s :: s in a <==> s in b
  }

  /** No file listed after the newest file of a key holds a record of that key. */
  ghost predicate NewestListedLast(listed: seq<Segment>, kd: KeyDir) {
    forall k, p, q :: k in kd && 0 <= p < q < |listed| && listed[p].id == kd[k].fileID ==> !Mentions(listed[q], k)
  }

  lemma {:induction false} SameTombstones(a: seq<Segment>, b: seq<Segment>)
    requires SameSegments(a, b)
    ensures HasTombstone(Flatten(a)) <==> HasTombstone(Flatten(b))
  {
    forall r ensures r in Flatten(a) <==> r in Flatten(b) {
      FlattenMembers(a, r);
      FlattenMembers(b, r);
    }
  }

  lemma {:induction false} IdDetermines(segs: seq<Segment>, s: Segment, t: Segment)
    requires DistinctIds(segs) && s in segs && t in segs && s.id == t.id
    ensures s == t
  {
    var i :| 0 <= i < |segs| && segs[i] == s;
    var j :| 0 <= j < |segs| && segs[j] == t;
    assert i == j;
  }

  /** The exact condition, file names in any order: the scan over `listed` rebuilds the index of
      the log `segs` if and only if no file listed after a key's newest file holds that key. */
  lemma {:induction false} ReorderExact(segs: seq<Segment>, listed: seq<Segment>)
    requires DistinctIds(segs) && DistinctIds(listed) && SameSegments(segs, listed)
    requires !HasTombstone(Flatten(segs))
    ensures Replay(listed) == Replay(segs) <==> NewestListedLast(listed, Replay(segs))
  {
    SameTombstones(segs, listed);
    var kd, kd' := Replay(segs), Replay(listed);
    forall k ensures k in kd <==> k in kd' {
      var i := ReplayLast(segs, k);
      var j := ReplayLast(listed, k);
      if i >= 0 { assert segs[i] in listed; }
      if j >= 0 { assert listed[j] in segs; }
    }
    if kd' == kd {
      forall k, p, q | k in kd && 0 <= p < q < |listed| && listed[p].id == kd[k].fileID
        ensures !Mentions(listed[q], k)
      {
        var j := ReplayLast(listed, k);
        assert j == p;
      }
    }
    if NewestListedLast(listed, kd) {
      forall k | k in kd ensures kd'[k] == kd[k] {
        var i := ReplayLast(segs, k);
        var j := ReplayLast(listed, k);
        assert segs[i] in listed;
        var p :| 0 <= p < |listed| && listed[p] == segs[i];
        assert p <= j;
        assert j == p;
      }
    }
  }

  /** The segments of a directory in the order it lists them. */
  ghost function Listed(segs: seq<Segment>): (listed: seq<Segment>)
    requires DistinctIds(segs)
    ensures Ids(listed) == Listing(FilesOf(segs).Keys)
    ensures SameSegments(segs, listed) && DistinctIds(listed) && FilesOf(listed) == FilesOf(segs)
  {
    FileIds(segs);
    var l := Listing(FilesOf(segs).Keys);
    assert forall i :: 0 <= i < |l| ==> l[i] in l;
    var listed := seq(|l|, i requires 0 <= i < |l| => SegmentOf(segs, l[i]));
    ListedProperties(segs, l, listed);
    listed
  }

  ghost function SegmentOf(segs: seq<Segment>, id: nat): (s: Segment)
    requires id in Ids(segs)
    ensures s in segs && s.id == id
  {
    var i :| 0 <= i < |segs| && Ids(segs)[i] == id;
    assert segs[i] in segs;
    var s :| s in segs && s.id == id;
    s
  }

  lemma {:induction false} ListedProperties(segs: seq<Segment>, l: seq<nat>, listed: seq<Segment>)
    requires DistinctIds(segs) && IsListing(l, FilesOf(segs).Keys) && |listed| == |l|
    requires forall i :: 0 <= i < |l| ==> listed[i] in segs && listed[i].id == l[i]
    ensures Ids(listed) == l
    ensures SameSegments(segs, listed) && DistinctIds(listed) && FilesOf(listed) == FilesOf(segs)
  {
    FileIds(segs);
    forall s | s in segs ensures s in listed {
      var j :| 0 <= j < |segs| && segs[j] == s;
      assert Ids(segs)[j] == s.id;
      assert s.id in l;
      var i :| 0 <= i < |l| && l[i] == s.id;
      IdDetermines(segs, s, listed[i]);
    }
    forall i, j | 0 <= i < j < |listed| ensures listed[i].id != listed[j].id {
      NameOrderTotal(l[i], l[j]);
    }
    SameFiles(segs, listed);
  }

  lemma {:induction false} SameFiles(a: seq<Segment>, b: seq<Segment>)
    requires DistinctIds(a) && DistinctIds(b) && SameSegments(a, b)
    ensures FilesOf(a) == FilesOf(b)
  {
    hide FilesOf, EncodeAll, DistinctIds;
    forall f | f in FilesOf(a) ensures f in FilesOf(b) && FilesOf(a)[f] == FilesOf(b)[f] {
      FileIds(a);
      var s := SegmentOf(a, f);
      StoredSegment(a, s);
      StoredSegment(b, s);
    }
    forall f | f in FilesOf(b) ensures f in FilesOf(a) {
      FileIds(b);
      var s := SegmentOf(b, f);
      StoredSegment(a, s);
    }
  }

  lemma {:induction false} StoredSegment(segs: seq<Segment>, s: Segment)
    requires DistinctIds(segs) && s in segs
    ensures s.id in FilesOf(segs) && FilesOf(segs)[s.id] == EncodeAll(s.recs)
  {
    hide FilesOf, EncodeAll;
    FilesStore(segs);
  }

  /** Reopening any tombstone-free directory gives back the engine's index if and only if, for
      every live key, no older file sorts by name after the key's newest file and holds the key. */
  lemma {:induction false} ReopenExact(segs: seq<Segment>)
    requires Ascending(Ids(segs)) && Sound(segs) && !HasTombstone(Flatten(segs))
    requires DistinctIds(segs)
    ensures Recover(FilesOf(segs)) == Some(Replay(segs)) <==> NewestListedLast(Listed(segs), Replay(segs))
  {
    var listed := Listed(segs);
    SameTombstones(segs, listed);
    forall i | 0 <= i < |listed| ensures Delimited(listed[i].recs, 0) && Fits(listed[i].recs) {
      assert listed[i] in segs;
    }
    RecoverListed(listed);
    ReorderExact(segs, listed);
  }

  /** Two files are enough: with IDs 9 and 10 the older value of a key comes back. */
  lemma {:induction false} TenBeforeNine(k: Bytes, older: Bytes, newer: Bytes)
    requires older != newer && |k| < 1000 && |older| < 1000 && |newer| < 1000
    ensures var segs := [Segment(9, [Put(k, older)]), Segment(10, [Put(k, newer)])];
      && ContentsOf(segs) == map[k := newer]
      && Reopen(FilesOf(segs)) == Serves(map[k := older])
  {
    hide FilesOf, Flatten, ContentsOf, Reopen, Listing, Replay, NameLess, HasTombstone;
    var a, b := Segment(9, [Put(k, older)]), Segment(10, [Put(k, newer)]);
    TwoFiles(a, b, k, older, newer);
    TwoFiles(b, a, k, newer, older);
    SameFiles([a, b], [b, a]);
    FileIds([b, a]);
    assert [b, a][..1] == [b] && [b][..0] == [] && Ids([b, a]) == Ids([b]) + [9] && Ids([b]) == Ids([]) + [10];
    TenListedFirst(FilesOf([b, a]).Keys);
    ReopenListed([b, a]);
  }

  lemma {:induction false} TenListedFirst(ids: set<nat>)
    requires forall x :: x in ids <==> x in [10, 9]
    ensures Listing(ids) == [10, 9]
  {
    NameOrderExact(9, 10);
    assert |Decimal(9)| == 1 && |Decimal(10)| == |Decimal(1)| + 1 == 2;
    assert DropDigits(10, 1) == DropDigits(1, 0) == 1;
    NameOrderTotal(9, 10);
    ListingUnique(Listing(ids), [10, 9], ids);
  }

  lemma {:induction false} TwoFiles(a: Segment, b: Segment, k: Bytes, v: Bytes, w: Bytes)
    requires a.recs == [Put(k, v)] && b.recs == [Put(k, w)]
    ensures ContentsOf([a, b]) == map[k := w] && !HasTombstone(Flatten([a, b]))
  {
    LastSegment([], a);
    LastSegment([a], b);
    assert [a, b] == [a] + [b] && [a] == [] + [a];
    Neutral([Put(k, v)]);
    assert Flatten([a, b]) == [Put(k, v)] + [Put(k, w)];
    ApplySnoc(map[], [], Put(k, v));
    ApplySnoc(map[], [Put(k, v)], Put(k, w));
    assert [] + [Put(k, v)] == [Put(k, v)];
  }
}
