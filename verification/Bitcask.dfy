/** The storage engine: an append-only log in numbered files and an in-memory index over it. */
module Engine {
  import opened Bytes
  import opened RecordLog
  import opened FileNames
  import opened Segments
  import opened Recovery
  import opened Crash
  import opened Directory

  const MAX_FILE_SIZE: nat := 100 * 1024 * 1024

  datatype GetResult = Found(value: Bytes) | NotFound | ReadFailed

  class Bitcask {
    var keyDir: KeyDir
    const dataDir: DataDir
    var currentFileID: nat
    /** The file that the open append handle names. */
    var currentFile: Option<nat>
    var currentOffset: nat
    const maxFileSize: nat

    /** The records of each data file, in ID order. */
    ghost var segs: seq<Segment>

    /** The index is the replay of the log, the files are its encoding, and the append position
        is the end of the file with the largest ID. */
    ghost predicate Valid()
      reads this, dataDir
    {
      && Consistent(segs, dataDir.files, keyDir, currentFileID, currentOffset)
      && currentFile == Some(currentFileID) && dataDir.Settled()
    }

    ghost function Model(): Contents
      reads this
    {
      ContentsOf(segs)
    }

    constructor (dir: DataDir, maxFileSize: nat)
      ensures keyDir == map[] && dataDir == dir && this.maxFileSize == maxFileSize
    {
      keyDir, dataDir, this.maxFileSize := map[], dir, maxFileSize;
      currentFileID, currentFile, currentOffset := 0, None, 0;
      segs := [];
    }

    // ---------- opening ----------

    /** Parses one data file into the index. The file position and the recorded offset advance
        separately, the offset by sizes computed in 32 bits. */
    method ReadDataFile(id: nat) returns (ok: bool)
      requires id in dataDir.files
      modifies this`keyDir
      ensures ok == ParsedLayout(dataDir.files[id]).Some?
      ensures ok ==> keyDir == IndexFile(old(keyDir), id, ParsedLayout(dataDir.files[id]).value)
    {
      hide Scan, ReadRecord, IndexFile, Layout, LengthAs, FromLittleEndian;
      var file := dataDir.files[id];
      var pos, offset := 0, 0;
      ghost var done: seq<Record> := [];
      StartScan(file, old(keyDir), id);
      while pos != |file|
        invariant pos <= |file| && offset == LengthAs(done, true)
        invariant Scan(file) == Append(done, Scan(file[pos..]))
        invariant keyDir == IndexFile(old(keyDir), id, Layout(done, 0, true))
        decreases |file| - pos
      {
        ghost var start := pos;
        UnreadableScan(file, start);
        if |file| - pos < 8 {
          return false;
        }
        var keySize, valueSize := ReadLE32(file[pos..pos + 4]), ReadLE32(file[pos + 4..pos + 8]);
        pos := pos + 8;
        if |file| - pos < keySize {
          return false;
        }
        var key := file[pos..pos + keySize];
        pos := pos + keySize;
        if |file| - pos < valueSize {
          return false;
        }
        var value := file[pos..pos + valueSize];
        pos := pos + valueSize;
        var recordSize := (8 + keySize + valueSize) % U32;
        ghost var r := RecordLog.Put(key, value);
        ReadsRecord(file, start, r);
        AppendThen(done, r, Scan(file[pos..]));
        LayoutSnoc(done, r, 0, true);
        LengthSnoc(done, r, true);
        IndexSnoc(old(keyDir), id, Layout(done, 0, true), Entry(r, offset, recordSize));
        keyDir := keyDir[key := Loc(id, offset, recordSize)];
        offset := offset + recordSize;
        done := done + [r];
      }
      EndScan(file, done);
      ok := true;
    }

    /** Scans every data file in listing order and finds the largest ID. */
    method Recover() returns (ok: bool)
      requires keyDir == map[]
      modifies this`keyDir, this`currentFileID
      ensures ok == Recovery.Recover(dataDir.files).Some?
      ensures ok ==> Some(keyDir) == Recovery.Recover(dataDir.files)
      ensures ok ==> currentFileID == MaxId(Listing(dataDir.files.Keys))
    {
      hide Scan, IndexFile, ParsedLayout, IsListing;
      var entries := dataDir.ReadDir();
      ListingMembers(dataDir.files.Keys);
      var maxFileID := 0;
      var i := 0;
      assert entries[..0] == [];
      while i < |entries|
        invariant i <= |entries|
        invariant RecoverFiles(dataDir.files, entries[..i]) == Some(keyDir)
        invariant maxFileID == MaxId(entries[..i])
      {
        var fileID := entries[i];
        if fileID > maxFileID {
          maxFileID := fileID;
        }
        assert entries[..i + 1][..i] == entries[..i];
        var read := ReadDataFile(fileID);
        if !read {
          RecoverPrefix(dataDir.files, entries, i + 1);
          return false;
        }
        i := i + 1;
      }
      assert entries[..|entries|] == entries;
      currentFileID := maxFileID;
      ok := true;
    }

    /** Opens a data directory; null stands for the error `NewBitcask` returns. Opening only ever
        adds an empty file, and only to an empty directory. If the names sort as the IDs do and every
        record is shorter than 2^32 bytes, the engine starts in a valid state with what the disk holds. */
    static method Open(dir: DataDir) returns (bc: Bitcask?)
      modifies dir
      ensures bc == null <==> Recovery.Recover(old(dir.files)) == None
      ensures bc == null ==> dir.files == old(dir.files) && dir.trace == old(dir.trace)
      ensures bc != null ==>
        && fresh(bc) && bc.dataDir == dir && bc.maxFileSize == MAX_FILE_SIZE == 104857600
        && Some(bc.keyDir) == Recovery.Recover(old(dir.files))
        && bc.currentFileID == MaxId(Listing(old(dir.files).Keys))
        && bc.currentFileID in dir.files && bc.currentOffset == |dir.files[bc.currentFileID]|
        && dir.files == (if old(dir.files) == map[] then map[0 := []] else old(dir.files))
        && dir.trace == if old(dir.files) == map[] then old(dir.trace) + [dir.Now()] else old(dir.trace)
      ensures bc != null && old(dir.Settled()) && NamesInOrder(old(dir.files)) && RecordsFit(old(dir.files)) ==>
        bc.Valid() && bc.segs == OnDisk(dir.files)
    {
      hide RecoverFiles, FilesOf, Replay, Ascending, Ids, Length, Decode, MaxId, Listing, IsListing;
      bc := new Bitcask(dir, MAX_FILE_SIZE);
      var ok := bc.Recover();
      if !ok {
        return null;
      }
      ghost var files := dir.files;
      LargestListed(files);
      bc.OpenCurrentFile();
      if NamesInOrder(files) && RecordsFit(files) {
        OpenConsistent(files);
        bc.segs := OnDisk(dir.files);
      }
    }

    /** Closing and opening again. Where the file names sort as the IDs do, the same index, file
        and append position come back, except that a tombstone on disk makes opening fail. */
    static method Restart(bc: Bitcask) returns (again: Bitcask?)
      requires bc.Valid()
      modifies bc.dataDir
      ensures bc.dataDir.files == old(bc.dataDir.files)
      ensures again == null <==> Recovery.Recover(bc.dataDir.files) == None
      ensures NamesInOrder(bc.dataDir.files) && Sound(bc.segs) ==>
        (again == null <==> HasTombstone(Flatten(bc.segs))) && (again != null ==> SameEngine(again, bc))
      ensures again != null ==> fresh(again) && again.dataDir == bc.dataDir
      ensures bc.dataDir.trace == old(bc.dataDir.trace)
    {
      hide Recovery.Recover, FilesOf, Replay, Flatten, ContentsOf, HasTombstone, Length, Ids, OnDisk, MaxId, IsListing;
      hide RecordsFit, NamesInOrder, Sound;
      NotEmpty(bc.segs, bc.dataDir.files, bc.keyDir, bc.currentFileID, bc.currentOffset);
      if NamesInOrder(bc.dataDir.files) && Sound(bc.segs) {
        DiskIsLog(bc.segs, bc.dataDir.files, bc.keyDir, bc.currentFileID, bc.currentOffset);
      }
      again := Open(bc.dataDir);
    }

    static ghost predicate SameEngine(a: Bitcask, b: Bitcask)
      reads a, b, a.dataDir
    {
      && a.dataDir == b.dataDir && a.Valid() && a.segs == b.segs && a.keyDir == b.keyDir
      && a.currentFileID == b.currentFileID && a.currentOffset == b.currentOffset && a.Model() == b.Model()
    }

    // ---------- writing ----------

    method OpenCurrentFile()
      modifies this`currentFile, this`currentOffset, dataDir
      ensures currentFileID in dataDir.files
      ensures currentFile == Some(currentFileID) && currentOffset == |dataDir.files[currentFileID]|
      ensures currentFileID in old(dataDir.files) ==>
        && dataDir.files == old(dataDir.files) && dataDir.synced == old(dataDir.synced)
        && dataDir.trace == old(dataDir.trace)
      ensures currentFileID !in old(dataDir.files) ==>
        && dataDir.files == old(dataDir.files)[currentFileID := []]
        && dataDir.synced == old(dataDir.synced)[currentFileID := 0]
        && dataDir.trace == old(dataDir.trace) + [dataDir.Now()]
    {
      if currentFileID !in dataDir.files {
        dataDir.Create(currentFileID);
      }
      currentFile := Some(currentFileID);
      currentOffset := |dataDir.files[currentFileID]|;
    }

    /** Opens an empty file under an ID no file has had. */
    method RotateFile()
      requires Valid()
      modifies this, dataDir
      ensures Valid() && currentFileID == old(currentFileID) + 1 && currentFileID !in old(dataDir.files)
      ensures currentOffset == 0 && segs == old(segs) + [Segment(currentFileID, [])]
      ensures keyDir == old(keyDir) && Model() == old(Model())
      ensures dataDir.trace == old(dataDir.trace) + [dataDir.Now()]
      ensures old(Contiguous(segs)) ==> Contiguous(segs)
    {
      hide FilesOf, Replay, Flatten, ContentsOf, EncodeAll, Length, Ids, ApplyAll, AppendRecord, Contiguous;
      RotationEffect(segs, dataDir.files, keyDir, currentFileID, currentOffset);
      if Contiguous(segs) { RotationContiguous(segs, currentFileID + 1); }
      currentFileID := currentFileID + 1;
      OpenCurrentFile();
      segs := segs + [Segment(currentFileID, [])];
    }

    /** The engine has written the first `c` bytes of `r` behind the log `base`; `n` is where the
        directory's trace stood before. */
    ghost predicate Appending(base: seq<Segment>, r: Record, c: nat, n: nat)
      reads this, dataDir
    {
      && base != [] && c <= Size(r) && currentFile == Some(base[|base| - 1].id)
      && dataDir.files == Appended(base, r, c) && dataDir.synced == FullySynced(FilesOf(base))
      && n <= |dataDir.trace| && AppendSteps(dataDir.trace[n..], base, r)
    }

    /** The engine has written and synced all of `r`. */
    ghost predicate Written(base: seq<Segment>, r: Record, n: nat)
      reads this, dataDir
    {
      && base != [] && dataDir.files == FilesOf(AppendRecord(base, r)) && dataDir.Settled()
      && n < |dataDir.trace| && AppendSteps(dataDir.trace[n..], base, r)
      && dataDir.trace[|dataDir.trace| - 1] == dataDir.Now()
    }

    /** One write on the open handle. */
    method WriteCurrent(piece: Bytes, ghost base: seq<Segment>, ghost r: Record, ghost c: nat, ghost n: nat)
      requires Appending(base, r, c, n)
      requires c + |piece| <= Size(r) && Encode(r)[c..c + |piece|] == piece
      modifies dataDir
      ensures Appending(base, r, c + |piece|, n) && old(dataDir.trace) <= dataDir.trace
    {
      AppendedKeys(base, r, c);
      ghost var before := dataDir.trace;
      dataDir.Write(currentFile.value, piece);
      MoreWritten(base, r, c, piece);
      assert AppendStep(dataDir.Now(), base, r, c + |piece|);
      assert dataDir.trace[n..] == before[n..] + [dataDir.Now()];
    }

    method SyncCurrent(ghost base: seq<Segment>, ghost r: Record, ghost n: nat)
      requires Appending(base, r, Size(r), n)
      modifies dataDir
      ensures Written(base, r, n) && old(dataDir.trace) <= dataDir.trace
    {
      AppendedKeys(base, r, Size(r));
      ghost var before := dataDir.trace;
      dataDir.Sync(currentFile.value);
      AllWritten(base, r);
      assert AppendStep(dataDir.Now(), base, r, Size(r));
      assert dataDir.trace[n..] == before[n..] + [dataDir.Now()];
    }

    /** Stores a key-value pair. The file is rotated first when the append position is past the
        limit, so a put starts at most at `maxFileSize`. */
    method Put(key: Bytes, value: Bytes)
      requires Valid()
      modifies this, dataDir
      ensures Valid() && Model() == old(Model())[key := value]
      ensures var rotated := old(currentOffset) > maxFileSize;
        var base := if rotated then old(segs) + [Segment(old(currentFileID) + 1, [])] else old(segs);
        && segs == AppendRecord(base, RecordLog.Put(key, value))
        && (rotated ==> currentFileID !in old(dataDir.files))
        && old(dataDir.trace) < dataDir.trace && dataDir.trace[|dataDir.trace| - 1] == dataDir.Now()
        && AppendSteps(dataDir.trace[|old(dataDir.trace)|..], base, RecordLog.Put(key, value))
      ensures CrashSafe(dataDir.trace[|old(dataDir.trace)|..], old(segs), segs)
      ensures key in keyDir && keyDir[key].offset <= maxFileSize
      ensures old(Contiguous(segs)) ==> Contiguous(segs)
    {
      hide Consistent, Contiguous, AppendRecord, AppendSteps, CrashSafe, ContentsOf, FullySynced;
      ghost var n := |dataDir.trace|;
      if currentOffset > maxFileSize {
        RotateFile();
      }
      PutRecord(key, value, old(segs), n);
    }

    method PutRecord(key: Bytes, value: Bytes, ghost a: seq<Segment>, ghost n: nat)
      requires Valid() && n <= |dataDir.trace| && ContentsOf(a) == Model()
      requires dataDir.trace[n..] == [] || dataDir.trace[n..] == [dataDir.Now()]
      modifies this, dataDir
      ensures Valid() && Model() == old(Model())[key := value]
      ensures segs == AppendRecord(old(segs), RecordLog.Put(key, value))
      ensures keyDir == old(keyDir)[key := Loc(currentFileID, old(currentOffset), 8 + |key| + |value|)]
      ensures currentFileID == old(currentFileID)
      ensures n < |dataDir.trace| && AppendSteps(dataDir.trace[n..], old(segs), RecordLog.Put(key, value))
      ensures old(dataDir.trace) <= dataDir.trace && dataDir.trace[|dataDir.trace| - 1] == dataDir.Now()
      ensures CrashSafe(dataDir.trace[n..], a, segs)
      ensures old(Contiguous(segs)) ==> Contiguous(segs)
    {
      hide FilesOf, Replay, Flatten, ContentsOf, EncodeAll, Length, Ids, ApplyAll, AppendRecord, AppendSteps;
      hide CrashSafe, Contiguous, FullySynced;
      ghost var base, r := segs, RecordLog.Put(key, value);
      AppendEffect(base, dataDir.files, keyDir, currentFileID, currentOffset, r);
      var offset := currentOffset;
      StartAppend(r, n);
      WritePut(key, value, base, n);
      WrittenSafe(a, base, r, n);
      var recordSize := 8 + |key| + |value|;
      keyDir := keyDir[key := Loc(currentFileID, offset, recordSize)];
      currentOffset := currentOffset + recordSize;
      segs := AppendRecord(base, r);
      if Contiguous(base) { AppendContiguous(base, r); }
    }

    lemma {:induction false} WrittenSafe(a: seq<Segment>, base: seq<Segment>, r: Record, n: nat)
      requires Written(base, r, n) && InOrder(base) && ContentsOf(base) == ContentsOf(a)
      ensures CrashSafe(dataDir.trace[n..], a, AppendRecord(base, r))
    {
      hide AppendSteps, CrashSafe, FilesOf, AppendRecord, Ids, ContentsOf, FullySynced;
      var recent := dataDir.trace[n..];
      assert recent[|recent| - 1] == dataDir.trace[|dataDir.trace| - 1];
      AppendSafe(recent, a, base, r);
    }

    /** The bytes of a put: sizes, key and value, then a sync. */
    method WritePut(key: Bytes, value: Bytes, ghost base: seq<Segment>, ghost n: nat)
      requires Appending(base, RecordLog.Put(key, value), 0, n)
      modifies dataDir
      ensures Written(base, RecordLog.Put(key, value), n) && old(dataDir.trace) <= dataDir.trace
    {
      hide Appended, AppendSteps, Encode, EncodeAll, FilesOf, FullySynced, LE32;
      ghost var r := RecordLog.Put(key, value);
      EncodedPieces(r);
      WriteCurrent(LE32(|key| % U32), base, r, 0, n);
      WriteCurrent(LE32(|value| % U32), base, r, 4, n);
      WriteCurrent(key, base, r, 8, n);
      WriteCurrent(value, base, r, 8 + |key|, n);
      SyncCurrent(base, r, n);
    }

    /** The bytes of a tombstone: sizes and key, then a sync. */
    method WriteTombstone(key: Bytes, ghost base: seq<Segment>, ghost n: nat)
      requires Appending(base, Tombstone(key), 0, n)
      modifies dataDir
      ensures Written(base, Tombstone(key), n) && old(dataDir.trace) <= dataDir.trace
    {
      hide Appended, AppendSteps, Encode, EncodeAll, FilesOf, FullySynced, LE32;
      ghost var r := Tombstone(key);
      EncodedPieces(r);
      WriteCurrent(LE32(|key| % U32), base, r, 0, n);
      WriteCurrent(LE32(TOMBSTONE), base, r, 4, n);
      WriteCurrent(key, base, r, 8, n);
      SyncCurrent(base, r, n);
    }

    /** At the end of the log with at most a rotation since instant `n`, appending can start. */
    lemma {:induction false} StartAppend(r: Record, n: nat)
      requires Valid() && n <= |dataDir.trace|
      requires dataDir.trace[n..] == [] || dataDir.trace[n..] == [dataDir.Now()]
      ensures Appending(segs, r, 0, n)
    {
      AppendRecordFiles(segs, r);
      Neutral(EncodeAll(segs[|segs| - 1].recs));
      assert Appended(segs, r, 0) == FilesOf(segs);
      assert AppendStep(dataDir.Now(), segs, r, 0);
    }

    // ---------- reading ----------

    /** Reads a value back from its file: the current value of the key, as its sizes in the record
        header have it. */
    method Get(key: Bytes) returns (r: GetResult)
      requires Valid()
      ensures r == if key in Model() then Found(Truncated(key, Model()[key])) else NotFound
    {
      hide FilesOf, Replay, Flatten, ContentsOf, EncodeAll, Length, Ids, ApplyAll, AppendRecord, Truncated;
      AscendingDistinct(segs);
      ReplayLocates(segs);
      if key !in keyDir {
        return NotFound;
      }
      var loc := keyDir[key];
      assert Holds(FilesOf(segs), loc, RecordLog.Put(key, Model()[key]));
      ReadAtExact(FilesOf(segs), loc, RecordLog.Put(key, Model()[key]));
      r := ReadFrom(loc);
    }

    method ReadFrom(loc: Loc) returns (r: GetResult)
      ensures r == match ReadAt(dataDir.files, loc) case None => ReadFailed case Some(v) => Found(v)
    {
      if loc.fileID !in dataDir.files {
        return ReadFailed;
      }
      var file, pos := dataDir.files[loc.fileID], loc.offset;
      if |file| < pos + 4 {
        return ReadFailed;
      }
      var keySize := ReadLE32(file[pos..pos + 4]);
      pos := pos + 4;
      if |file| < pos + 4 {
        return ReadFailed;
      }
      var valueSize := ReadLE32(file[pos..pos + 4]);
      pos := pos + 4 + keySize;
      if valueSize > 0 && |file| < pos + valueSize {
        return ReadFailed;
      }
      r := Found(if valueSize == 0 then [] else file[pos..pos + valueSize]);
    }

    // ---------- deleting ----------

    /** Writes a tombstone for a key that is indexed; there is no rotation here. */
    method Delete(key: Bytes) returns (found: bool)
      requires Valid()
      modifies this, dataDir
      ensures Valid() && found == (key in old(Model())) && Model() == old(Model()) - {key}
      ensures !found ==> segs == old(segs) && dataDir.files == old(dataDir.files) && dataDir.trace == old(dataDir.trace)
      ensures found ==>
        && segs == AppendRecord(old(segs), Tombstone(key))
        && old(dataDir.trace) < dataDir.trace && dataDir.trace[|dataDir.trace| - 1] == dataDir.Now()
        && AppendSteps(dataDir.trace[|old(dataDir.trace)|..], old(segs), Tombstone(key))
      ensures CrashSafe(dataDir.trace[|old(dataDir.trace)|..], old(segs), segs)
      ensures old(Contiguous(segs)) ==> Contiguous(segs)
    {
      hide FilesOf, Replay, Flatten, ContentsOf, EncodeAll, Length, Ids, ApplyAll, AppendRecord, Contiguous;
      hide AppendSteps, CrashSafe, FullySynced, Encode;
      AscendingDistinct(segs);
      ReplayLocates(segs);
      if key !in keyDir {
        assert Model() - {key} == Model();
        NothingHappened(dataDir.trace[|dataDir.trace|..], segs);
        return false;
      }
      ghost var base, r, n := segs, Tombstone(key), |dataDir.trace|;
      AppendEffect(base, dataDir.files, keyDir, currentFileID, currentOffset, r);
      StartAppend(r, n);
      WriteTombstone(key, base, n);
      WrittenSafe(base, base, r, n);
      keyDir := keyDir - {key};
      var recordSize := 8 + |key|;
      currentOffset := currentOffset + recordSize;
      segs := AppendRecord(base, r);
      if Contiguous(base) { AppendContiguous(base, r); }
      found := true;
    }
  }

  // ---------- what a directory holds ----------

  function MaxId(ids: seq<nat>): nat {
    if ids == [] then 0
    else
      var m := MaxId(ids[..|ids| - 1]);
      if ids[|ids| - 1] > m then ids[|ids| - 1] else m
  }

  lemma {:induction false} RecoverPrefix(files: Files, l: seq<nat>, i: nat)
    requires forall id :: id in l ==> id in files
    requires i <= |l| && RecoverFiles(files, l[..i]) == None
    ensures RecoverFiles(files, l) == None
    decreases |l|
  {
    if i < |l| {
      assert l[..|l| - 1][..i] == l[..i];
      RecoverPrefix(files, l[..|l| - 1], i);
    } else {
      assert l[..i] == l;
    }
  }

  lemma {:induction false} ListingMembers(ids: set<nat>)
    ensures forall id :: id in Listing(ids) <==> id in ids
  {
  }

  lemma {:induction false} MaxIdBounds(ids: seq<nat>)
    ensures forall id :: id in ids ==> id <= MaxId(ids)
    ensures ids != [] ==> MaxId(ids) in ids
  {
    if ids != [] {
      var init := ids[..|ids| - 1];
      MaxIdBounds(init);
      assert forall id :: id in ids <==> id in init || id == ids[|ids| - 1];
    }
  }

  lemma {:induction false} EmptyListing()
    ensures Listing({}) == []
  {
    assert IsListing([], {});
    ListingUnique(Listing({}), [], {});
  }

  lemma {:induction false} LargestListed(files: Files)
    ensures files == map[] ==> MaxId(Listing(files.Keys)) == 0
    ensures files != map[] ==> MaxId(Listing(files.Keys)) in files
  {
    var l := Listing(files.Keys);
    MaxIdBounds(l);
    if files == map[] {
      assert files.Keys == {};
      EmptyListing();
    } else {
      var f :| f in files;
      assert f in l;
    }
  }

  /** After a successful scan of a directory whose names are in order, index, ID and offset fit
      the log on disk; for an empty directory once its first file is created. */
  lemma {:induction false} OpenConsistent(files: Files)
    requires Recovery.Recover(files).Some? && NamesInOrder(files) && RecordsFit(files)
    ensures var id := MaxId(Listing(files.Keys)); var kd := Recovery.Recover(files).value;
      var after := if files == map[] then map[0 := []] else files;
      && id in after && Consistent(OnDisk(after), after, kd, id, |after[id]|)
      && (files == map[] ==> FullySynced(after) == FullySynced(files)[0 := 0])
  {
    hide Recovery.Recover, OnDisk, Consistent, RecordsFit, NamesInOrder, IsListing, MaxId;
    if files == map[] {
      EmptyDirectory();
      LargestListed(files);
      SyncedFile(files, 0, []);
    } else {
      DecodedConsistent(files);
    }
  }

  lemma {:induction false} DecodedConsistent(files: Files)
    requires Recovery.Recover(files).Some? && NamesInOrder(files) && RecordsFit(files) && files != map[]
    ensures var id := MaxId(Listing(files.Keys));
      id in files && Consistent(OnDisk(files), files, Recovery.Recover(files).value, id, |files[id]|)
  {
    hide Scan, EncodeAll, Flatten, FilesOf, Replay, Decode, Sound, RecordsFit, HasTombstone, IsListing;
    var segs := OnDisk(files);
    DecodedListing(files);
    StoredFiles(files, segs);
    RecoverStored(files, segs);
    LargestListed(files);
    LastIsLargest(Listing(files.Keys));
  }

  lemma {:induction false} LastIsLargest(l: seq<nat>)
    requires Ascending(l) && l != []
    ensures MaxId(l) == l[|l| - 1]
  {
    MaxIdBounds(l);
    var i :| 0 <= i < |l| && l[i] == MaxId(l);
    assert l[|l| - 1] in l;
  }

  lemma {:induction false} EmptyDirectory()
    ensures Listing({}) == []
    ensures Recovery.Recover(map[]) == Some(map[])
    ensures OnDisk(map[0 := []]) == [Segment(0, [])]
    ensures Consistent(OnDisk(map[0 := []]), map[0 := []], map[], 0, 0)
  {
    var none: Files, one: Files := map[], map[0 := []];
    assert none.Keys == {};
    EmptyListing();
    assert IsListing([0], one.Keys) by { NameOrderTotal(0, 0); }
    ListingUnique(Listing(one.Keys), [0], one.Keys);
    OneEmptyFile(one);
  }

  lemma {:induction false} OneEmptyFile(one: Files)
    requires one == map[0 := []]
    ensures Decode(one, [0]) == [Segment(0, [])]
    ensures Consistent([Segment(0, [])], one, map[], 0, 0)
  {
    hide Consistent, Scan, EncodeAll, Replay, FilesOf, Layout;
    var none: seq<Segment> := [];
    OneEmptyLog(none, one);
    EmptyScan();
    assert [0][..0] == [];
    assert Decode(one, []) == none;
    assert none + [Segment(0, [])] == [Segment(0, [])];
  }

  lemma {:induction false} EmptyScan()
    ensures Scan([]) == Some([])
  {
  }

  lemma {:induction false} OneEmptyLog(none: seq<Segment>, one: Files)
    requires none == [] && one == map[0 := []]
    ensures Consistent(none + [Segment(0, [])], one, map[], 0, 0)
  {
    hide Ascending;
    var s := Segment(0, []);
    LastSegment(none, s);
    assert Replay(none) == map[] && FilesOf(none) == map[];
    OneId(none + [s]);
  }

  lemma {:induction false} OneId(segs: seq<Segment>)
    requires |segs| == 1
    ensures Ascending(Ids(segs))
  {
  }

  /** The log of a tombstone-free directory is the one its engine kept. */
  lemma {:induction false} DecodeUnique(files: Files, segs: seq<Segment>)
    requires Stores(files, segs) && Sound(segs) && !HasTombstone(Flatten(segs))
    requires forall id :: id in Ids(segs) ==> id in files
    ensures Decode(files, Ids(segs)) == segs
  {
    hide Scan, EncodeAll, Flatten, HasTombstone, Length;
    if segs != [] {
      var init, s := segs[..|segs| - 1], segs[|segs| - 1];
      assert segs == init + [s];
      assert Ids(segs)[..|segs| - 1] == Ids(init);
      LastSegment(init, s);
      TombstoneConcat(Flatten(init), s.recs);
      DecodeUnique(files, init);
      ScanOfFile(s.recs);
    }
  }

  lemma {:induction false} NotEmpty(segs: seq<Segment>, files: Files, kd: KeyDir, id: nat, offset: nat)
    requires Consistent(segs, files, kd, id, offset)
    ensures files != map[] && segs != []
  {
    assert id in files;
  }

  lemma {:induction false} DiskIsLog(segs: seq<Segment>, files: Files, kd: KeyDir, id: nat, offset: nat)
    requires Consistent(segs, files, kd, id, offset) && NamesInOrder(files) && Sound(segs)
    ensures Recovery.Recover(files) == if HasTombstone(Flatten(segs)) then None else Some(kd)
    ensures !HasTombstone(Flatten(segs)) ==> OnDisk(files) == segs
    ensures RecordsFit(files)
  {
    hide FilesOf, EncodeAll, Flatten, Replay, Sound, RecordsFit, HasTombstone, Decode, Recovery.Recover, Reopen;
    FileIds(segs);
    ListingIsIds(segs);
    FilesStore(segs);
    ReopenInOrder(segs);
    CutsFit(segs, files);
    if !HasTombstone(Flatten(segs)) {
      DecodeUnique(files, segs);
    }
  }

  // ---------- parsing steps ----------

  lemma {:induction false} StartScan(file: Bytes, kd: KeyDir, id: nat)
    ensures Append([], Scan(file[0..])) == Scan(file) && LengthAs([], true) == 0
    ensures IndexFile(kd, id, Layout([], 0, true)) == kd
  {
    assert file[0..] == file;
    if Scan(file).Some? { Neutral(Scan(file).value); }
  }

  lemma {:induction false} EndScan(file: Bytes, done: seq<Record>)
    ensures Append(done, Scan(file[|file|..])) == Some(done)
  {
    assert file[|file|..] == [];
    Neutral(done);
  }

  /** Too few bytes for the sizes, or for the key and value they announce. */
  lemma {:induction false} UnreadableScan(file: Bytes, pos: nat)
    requires pos < |file|
    ensures |file| - pos < 8 ==> Scan(file[pos..]) == None
    ensures |file| - pos >= 8 &&
            |file| - pos < 8 + ReadLE32(file[pos..pos + 4]) + ReadLE32(file[pos + 4..pos + 8]) ==>
              Scan(file[pos..]) == None
  {
    if |file| - pos >= 8 { Slices(file, pos); }
  }

  lemma {:induction false} AppendThen(done: seq<Record>, r: Record, rest: Option<seq<Record>>)
    ensures Append(done, Then(r, rest)) == Append(done + [r], rest)
  {
    if rest.Some? { Assoc(done, [r], rest.value); }
  }

  lemma {:induction false} Slices(file: Bytes, pos: nat)
    requires pos + 8 <= |file|
    ensures file[pos..][..4] == file[pos..pos + 4] && file[pos..][4..8] == file[pos + 4..pos + 8]
  {
  }

  lemma {:induction false} ReadsRecord(file: Bytes, pos: nat, r: Record)
    requires r.Put? && pos + Size(r) <= |file|
    requires ReadLE32(file[pos..pos + 4]) == |r.key| && ReadLE32(file[pos + 4..pos + 8]) == |r.value|
    requires file[pos + 8..pos + 8 + |r.key|] == r.key
    requires file[pos + 8 + |r.key|..pos + Size(r)] == r.value
    ensures Scan(file[pos..]) == Then(r, Scan(file[pos + Size(r)..]))
  {
    var b, n := file[pos..], 8 + |r.key|;
    Slices(file, pos);
    assert b[8..n] == r.key && b[n..n + |r.value|] == r.value;
    assert ReadRecord(b) == Some(r);
    assert b[Size(r)..] == file[pos + Size(r)..];
  }

  // ---------- what the steps do to the log ----------

  /** The IDs of a log rise strictly. */
  ghost predicate InOrder(segs: seq<Segment>) { Ascending(Ids(segs)) }

  /** Files, index and append position belong to the log `segs`. */
  ghost predicate Consistent(segs: seq<Segment>, files: Files, kd: KeyDir, id: nat, offset: nat) {
    && segs != [] && InOrder(segs)
    && files == FilesOf(segs) && kd == Replay(segs)
    && id == segs[|segs| - 1].id && offset == Length(segs[|segs| - 1].recs)
  }

  /** File IDs without gaps: what rotation and compaction leave behind. */
  ghost predicate Contiguous(segs: seq<Segment>) {
    segs != [] && forall i :: 0 <= i < |segs| ==> segs[i].id == segs[0].id + i
  }

  lemma {:induction false} RotationContiguous(segs: seq<Segment>, id: nat)
    requires Contiguous(segs) && id == segs[|segs| - 1].id + 1
    ensures Contiguous(segs + [Segment(id, [])])
  {
  }

  lemma {:induction false} AppendContiguous(segs: seq<Segment>, r: Record)
    requires Contiguous(segs)
    ensures Contiguous(AppendRecord(segs, r))
  {
  }

  /** Of the directories the engine leaves behind, exactly those whose first and last ID have the
      same number of digits are listed in ID order. */
  lemma {:induction false} ContiguousNames(segs: seq<Segment>)
    requires Contiguous(segs)
    ensures NamesInOrder(FilesOf(segs)) <==> |Decimal(segs[0].id)| == |Decimal(segs[|segs| - 1].id)|
  {
    var lo, hi, ids := segs[0].id, segs[|segs| - 1].id, FilesOf(segs).Keys;
    FileIds(segs);
    forall f ensures f in ids <==> lo <= f <= hi {
      if f in ids {
        var i :| 0 <= i < |segs| && Ids(segs)[i] == f;
        assert segs[i].id == f;
      }
      if lo <= f <= hi {
        assert Ids(segs)[f - lo] == segs[f - lo].id == f;
      }
    }
    ContiguousListing(lo, hi, ids);
  }

  lemma {:induction false} AscendingSnoc(ids: seq<nat>, id: nat)
    requires Ascending(ids) && ids != [] && ids[|ids| - 1] < id
    ensures Ascending(ids + [id]) && id !in ids
  {
  }

  lemma {:induction false} RotationEffect(segs: seq<Segment>, files: Files, kd: KeyDir, id: nat, offset: nat)
    requires Consistent(segs, files, kd, id, offset)
    ensures id + 1 !in files && FullySynced(files[id + 1 := []]) == FullySynced(files)[id + 1 := 0]
    ensures Consistent(segs + [Segment(id + 1, [])], files[id + 1 := []], kd, id + 1, 0)
    ensures ContentsOf(segs + [Segment(id + 1, [])]) == ContentsOf(segs)
  {
    var out := segs + [Segment(id + 1, [])];
    FileIds(segs);
    AscendingSnoc(Ids(segs), id + 1);
    assert out[..|segs|] == segs && Ids(out) == Ids(segs) + [id + 1];
    AppendSegmentEffect(segs, id + 1);
    SyncedFile(files, id + 1, []);
  }

  lemma {:induction false} SyncedFile(files: Files, id: nat, b: Bytes)
    ensures FullySynced(files[id := b]) == FullySynced(files)[id := |b|]
  {
  }

  lemma {:induction false} MoreWritten(base: seq<Segment>, r: Record, c: nat, piece: Bytes)
    requires base != [] && c + |piece| <= Size(r) && Encode(r)[c..c + |piece|] == piece
    ensures var id := base[|base| - 1].id; var files := Appended(base, r, c);
      files[id := files[id] + piece] == Appended(base, r, c + |piece|)
  {
    var b, e := EncodeAll(base[|base| - 1].recs), Encode(r);
    Assoc(b, e[..c], piece);
    assert e[..c] + e[c..c + |piece|] == e[..c + |piece|];
  }

  lemma {:induction false} AllWritten(base: seq<Segment>, r: Record)
    requires base != []
    ensures Appended(base, r, Size(r)) == FilesOf(AppendRecord(base, r))
    ensures var out := AppendRecord(base, r); var id := base[|base| - 1].id;
      id in FilesOf(out) && FullySynced(FilesOf(base))[id := |FilesOf(out)[id]|] == FullySynced(FilesOf(out))
  {
    AppendRecordFiles(base, r);
    assert Encode(r)[..Size(r)] == Encode(r);
    SyncedFile(FilesOf(base), base[|base| - 1].id, EncodeAll(base[|base| - 1].recs) + Encode(r));
  }

  /** Appending keeps the IDs and moves index, contents and append position as the code does. */
  lemma {:induction false} AppendEffect(base: seq<Segment>, files: Files, kd: KeyDir, id: nat, offset: nat, r: Record)
    requires Consistent(base, files, kd, id, offset)
    ensures var out := AppendRecord(base, r);
      && Consistent(out, FilesOf(out), IndexEntry(kd, id, Entry(r, offset, Size(r))), id, offset + Size(r))
      && ContentsOf(out) == ApplyRecord(ContentsOf(base), r)
  {
    AppendRecordIndex(base, r);
    AppendRecordContents(base, r);
    EncodeAllSnoc(base[|base| - 1].recs, r);
  }
}
