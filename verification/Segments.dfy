/** A data directory as a list of segments, one per data file, each a list of records: the
    index, the key/value contents and the bytes on disk are all functions of it. */
module Segments {
  import opened Bytes
  import opened RecordLog
  import opened FileNames

  datatype Loc = Loc(fileID: nat, offset: nat, size: nat)
  type KeyDir = map<Bytes, Loc>
  type Contents = map<Bytes, Bytes>
  type Files = map<nat, Bytes>

  datatype Segment = Segment(id: nat, recs: seq<Record>)

  // ---------- the index ----------

  /** The effect of one record on the index: a put sets the location, a tombstone removes it. */
  function IndexEntry(kd: KeyDir, id: nat, e: Entry): KeyDir {
    if e.rec.Put? then kd[e.rec.key := Loc(id, e.offset, e.size)] else kd - {e.rec.key}
  }

  function IndexFile(kd: KeyDir, id: nat, es: seq<Entry>): KeyDir {
    if es == [] then kd
    else IndexEntry(IndexFile(kd, id, es[..|es| - 1]), id, es[|es| - 1])
  }

  /** The index as the replay of all files in the given order. */
  function Replay(segs: seq<Segment>): KeyDir {
    if segs == [] then map[]
    else
      var s := segs[|segs| - 1];
      IndexFile(Replay(segs[..|segs| - 1]), s.id, Layout(s.recs, 0, false))
  }

  // ---------- the contents ----------

  function ApplyRecord(m: Contents, r: Record): Contents {
    if r.Put? then m[r.key := r.value] else m - {r.key}
  }

  function ApplyAll(m: Contents, rs: seq<Record>): Contents {
    if rs == [] then m else ApplyRecord(ApplyAll(m, rs[..|rs| - 1]), rs[|rs| - 1])
  }

  function Flatten(segs: seq<Segment>): seq<Record> {
    if segs == [] then [] else Flatten(segs[..|segs| - 1]) + segs[|segs| - 1].recs
  }

  function ContentsOf(segs: seq<Segment>): Contents { ApplyAll(map[], Flatten(segs)) }

  // ---------- the disk ----------

  function FilesOf(segs: seq<Segment>): Files {
    if segs == [] then map[]
    else FilesOf(segs[..|segs| - 1])[segs[|segs| - 1].id := EncodeAll(segs[|segs| - 1].recs)]
  }

  function Ids(segs: seq<Segment>): (ids: seq<nat>)
    ensures |ids| == |segs| && forall i :: 0 <= i < |segs| ==> ids[i] == segs[i].id
  {
    if segs == [] then [] else Ids(segs[..|segs| - 1]) + [segs[|segs| - 1].id]
  }

  predicate DistinctIds(segs: seq<Segment>) {
    forall i, j :: 0 <= i < j < |segs| ==> segs[i].id != segs[j].id
  }

  lemma {:induction false} AscendingDistinct(segs: seq<Segment>)
    requires Ascending(Ids(segs))
    ensures DistinctIds(segs)
  {
    forall i, j | 0 <= i < j < |segs| ensures segs[i].id != segs[j].id {
      assert Ids(segs)[i] < Ids(segs)[j];
    }
  }

  lemma {:induction false} FileIds(segs: seq<Segment>)
    ensures forall f :: f in FilesOf(segs) <==> f in Ids(segs)
  {
    if segs != [] {
      var init := segs[..|segs| - 1];
      FileIds(init);
      assert Ids(segs) == Ids(init) + [segs[|segs| - 1].id];
    }
  }

  /** The records of `segs` are what its files hold. */
  ghost predicate Stores(files: Files, segs: seq<Segment>) {
    forall i :: 0 <= i < |segs| ==> segs[i].id in files && files[segs[i].id] == EncodeAll(segs[i].recs)
  }

  lemma {:induction false} FilesStore(segs: seq<Segment>)
    requires DistinctIds(segs)
    ensures Stores(FilesOf(segs), segs)
  {
    if segs != [] {
      var init, s := segs[..|segs| - 1], segs[|segs| - 1];
      hide EncodeAll;
      FilesStore(init);
      assert FilesOf(segs) == FilesOf(init)[s.id := EncodeAll(s.recs)];
    }
  }

  // ---------- appending ----------

  /** The directory after one more record in the last file. */
  function AppendRecord(segs: seq<Segment>, r: Record): (out: seq<Segment>)
    requires segs != []
    ensures |out| == |segs| && Ids(out) == Ids(segs)
  {
    var s := segs[|segs| - 1];
    segs[..|segs| - 1] + [Segment(s.id, s.recs + [r])]
  }

  lemma {:induction false} LastSegment(init: seq<Segment>, s: Segment)
    ensures Replay(init + [s]) == IndexFile(Replay(init), s.id, Layout(s.recs, 0, false))
    ensures Flatten(init + [s]) == Flatten(init) + s.recs
    ensures FilesOf(init + [s]) == FilesOf(init)[s.id := EncodeAll(s.recs)]
  {
    assert (init + [s])[..|init|] == init;
  }

  lemma {:induction false} AppendRecordFiles(segs: seq<Segment>, r: Record)
    requires segs != []
    ensures var s := segs[|segs| - 1];
      && s.id in FilesOf(segs) && FilesOf(segs)[s.id] == EncodeAll(s.recs)
      && FilesOf(AppendRecord(segs, r)) == FilesOf(segs)[s.id := EncodeAll(s.recs) + Encode(r)]
  {
    var init, s := segs[..|segs| - 1], segs[|segs| - 1];
    LastSegment(init, Segment(s.id, s.recs + [r]));
    EncodeAllSnoc(s.recs, r);
    Overwrite(FilesOf(init), s.id, EncodeAll(s.recs), EncodeAll(s.recs) + Encode(r));
  }

  lemma {:induction false} Overwrite(files: Files, id: nat, a: Bytes, b: Bytes)
    ensures files[id := a][id := b] == files[id := b]
  {
  }

  lemma {:induction false} IndexFileSnoc(kd: KeyDir, id: nat, rs: seq<Record>, r: Record)
    ensures IndexFile(kd, id, Layout(rs + [r], 0, false))
         == IndexEntry(IndexFile(kd, id, Layout(rs, 0, false)), id, Entry(r, Length(rs), Size(r)))
  {
    LayoutSnoc(rs, r, 0, false);
    LengthAsWritten(rs);
    IndexSnoc(kd, id, Layout(rs, 0, false), Entry(r, Length(rs), Size(r)));
  }

  lemma {:induction false} AppendRecordIndex(segs: seq<Segment>, r: Record)
    requires segs != []
    ensures var s := segs[|segs| - 1];
      Replay(AppendRecord(segs, r)) == IndexEntry(Replay(segs), s.id, Entry(r, Length(s.recs), Size(r)))
  {
    var init, s := segs[..|segs| - 1], segs[|segs| - 1];
    LastSegment(init, Segment(s.id, s.recs + [r]));
    IndexFileSnoc(Replay(init), s.id, s.recs, r);
  }

  lemma {:induction false} AppendRecordContents(segs: seq<Segment>, r: Record)
    requires segs != []
    ensures Flatten(AppendRecord(segs, r)) == Flatten(segs) + [r]
    ensures ContentsOf(AppendRecord(segs, r)) == ApplyRecord(ContentsOf(segs), r)
  {
    var init, s := segs[..|segs| - 1], segs[|segs| - 1];
    LastSegment(init, Segment(s.id, s.recs + [r]));
    Assoc(Flatten(init), s.recs, [r]);
    ApplySnoc(map[], Flatten(segs), r);
  }

  lemma {:induction false} IndexSnoc(kd: KeyDir, id: nat, es: seq<Entry>, e: Entry)
    ensures IndexFile(kd, id, es + [e]) == IndexEntry(IndexFile(kd, id, es), id, e)
  {
    assert (es + [e])[..|es|] == es;
  }

  lemma {:induction false} ApplySnoc(m: Contents, rs: seq<Record>, r: Record)
    ensures ApplyAll(m, rs + [r]) == ApplyRecord(ApplyAll(m, rs), r)
  {
    assert (rs + [r])[..|rs|] == rs;
  }

  /** A key holds what its last record says: the value of a put, and nothing after a tombstone. */
  lemma {:induction false} ContentsByLast(m: Contents, rs: seq<Record>, k: Bytes) returns (i: int)
    ensures -1 <= i < |rs| && forall j :: i < j < |rs| ==> rs[j].key != k
    ensures i >= 0 ==> rs[i].key == k
    ensures k in ApplyAll(m, rs) <==> if i >= 0 then rs[i].Put? else k in m
    ensures k in ApplyAll(m, rs) ==> ApplyAll(m, rs)[k] == if i >= 0 then rs[i].value else m[k]
  {
    if rs == [] {
      i := -1;
    } else if rs[|rs| - 1].key == k {
      i := |rs| - 1;
    } else {
      i := ContentsByLast(m, rs[..|rs| - 1], k);
    }
  }

  lemma {:induction false} ApplyConcat(m: Contents, a: seq<Record>, b: seq<Record>)
    ensures ApplyAll(m, a + b) == ApplyAll(ApplyAll(m, a), b)
  {
    if b == [] {
      Neutral(a);
    } else {
      ApplyConcat(m, a, b[..|b| - 1]);
      TakeAcross(a, b, |b| - 1);
    }
  }

  /** The order of a record's bytes: two sizes, the key and, for a put, the value. */
  lemma {:induction false} EncodedPieces(r: Record)
    ensures var e := Encode(r); var vs := if r.Put? then |r.value| % U32 else TOMBSTONE;
      && e[0..4] == LE32(|r.key| % U32) && e[4..8] == LE32(vs) && e[8..8 + |r.key|] == r.key
      && e[8 + |r.key|..Size(r)] == if r.Put? then r.value else []
  {
    var vs := if r.Put? then |r.value| % U32 else TOMBSTONE;
    var v := if r.Put? then r.value else [];
    Neutral(r.key);
    assert Payload(r) == r.key + v;
    ThreeParts(LE32(|r.key| % U32), LE32(vs), Payload(r));
    Neutral(Encode(r));
    FourParts(Header(r), r.key, v, []);
  }

  /** The directory after a rotation. */
  lemma {:induction false} AppendSegmentEffect(segs: seq<Segment>, id: nat)
    ensures var out := segs + [Segment(id, [])];
      && FilesOf(out) == FilesOf(segs)[id := []]
      && Replay(out) == Replay(segs)
      && Flatten(out) == Flatten(segs)
      && ContentsOf(out) == ContentsOf(segs)
  {
    LastSegment(segs, Segment(id, []));
    Neutral(Flatten(segs));
  }

  // ---------- the index points at the log ----------

  /** `loc` is the exact extent of the encoding of `r`. */
  predicate Holds(files: Files, loc: Loc, r: Record) {
    && loc.fileID in files
    && loc.size == Size(r)
    && loc.offset + loc.size <= |files[loc.fileID]|
    && files[loc.fileID][loc.offset..loc.offset + loc.size] == Encode(r)
  }

  ghost predicate Locates(files: Files, kd: KeyDir, m: Contents) {
    && kd.Keys == m.Keys
    && forall k :: k in kd ==> Holds(files, kd[k], Put(k, m[k]))
  }

  lemma {:induction false} AppendKeepsHolds(files: Files, id: nat, more: Bytes, loc: Loc, r: Record)
    requires Holds(files, loc, r) && id in files
    ensures Holds(files[id := files[id] + more], loc, r)
  {
    if loc.fileID == id {
      Prefix(files[id] + more, |files[id]|, loc.offset, loc.offset + loc.size);
      Drop(files[id], more);
    }
  }

  lemma {:induction false} AppendHolds(files: Files, id: nat, r: Record)
    requires id in files
    ensures Holds(files[id := files[id] + Encode(r)], Loc(id, |files[id]|, Size(r)), r)
  {
    var b := files[id] + Encode(r);
    Drop(files[id], Encode(r));
    assert b[|files[id]|..|files[id]| + Size(r)] == b[|files[id]|..];
  }

  /** For every directory the index has exactly the live keys, and each location is the exact
      extent of the encoding of the key with its current value. */
  lemma {:induction false} ReplayLocates(segs: seq<Segment>)
    requires DistinctIds(segs)
    ensures Locates(FilesOf(segs), Replay(segs), ContentsOf(segs))
    decreases |segs|, if segs == [] then 0 else |segs[|segs| - 1].recs|
  {
    if segs != [] {
      var init, s := segs[..|segs| - 1], segs[|segs| - 1];
      if s.recs == [] {
        ReplayLocates(init);
        SegmentKeepsLocates(init, s.id);
        assert segs == init + [Segment(s.id, [])];
      } else {
        var n := |s.recs| - 1;
        var before := init + [Segment(s.id, s.recs[..n])];
        LastRecord(segs, before, n);
        ReplayLocates(before);
        AppendRecordFiles(before, s.recs[n]);
        AppendRecordIndex(before, s.recs[n]);
        AppendRecordContents(before, s.recs[n]);
        RecordKeepsLocates(FilesOf(before), Replay(before), ContentsOf(before), s.id, s.recs[n]);
      }
    }
  }

  lemma {:induction false} LastRecord(segs: seq<Segment>, before: seq<Segment>, n: nat)
    requires segs != [] && |segs[|segs| - 1].recs| == n + 1
    requires before == segs[..|segs| - 1] + [Segment(segs[|segs| - 1].id, segs[|segs| - 1].recs[..n])]
    ensures segs == AppendRecord(before, segs[|segs| - 1].recs[n])
  {
    var s := segs[|segs| - 1];
    assert s.recs == s.recs[..n] + [s.recs[n]];
    assert before[..|before| - 1] == segs[..|segs| - 1];
  }

  lemma {:induction false} SegmentKeepsLocates(segs: seq<Segment>, id: nat)
    requires Locates(FilesOf(segs), Replay(segs), ContentsOf(segs))
    requires forall i :: 0 <= i < |segs| ==> segs[i].id != id
    ensures var out := segs + [Segment(id, [])]; Locates(FilesOf(out), Replay(out), ContentsOf(out))
  {
    AppendSegmentEffect(segs, id);
    FileIds(segs);
    assert id !in Ids(segs);
    FreshFileKeepsLocates(FilesOf(segs), Replay(segs), ContentsOf(segs), id);
  }

  lemma {:induction false} FreshFileKeepsLocates(files: Files, kd: KeyDir, m: Contents, id: nat)
    requires Locates(files, kd, m) && id !in files
    ensures Locates(files[id := []], kd, m)
  {
    forall k | k in kd ensures Holds(files[id := []], kd[k], Put(k, m[k])) {
      assert Holds(files, kd[k], Put(k, m[k]));
    }
  }

  lemma {:induction false} RecordKeepsLocates(files: Files, kd: KeyDir, m: Contents, id: nat, r: Record)
    requires Locates(files, kd, m) && id in files
    ensures Locates(files[id := files[id] + Encode(r)],
                    IndexEntry(kd, id, Entry(r, |files[id]|, Size(r))), ApplyRecord(m, r))
  {
    var files' := files[id := files[id] + Encode(r)];
    var kd', m' := IndexEntry(kd, id, Entry(r, |files[id]|, Size(r))), ApplyRecord(m, r);
    forall k | k in kd' ensures Holds(files', kd'[k], Put(k, m'[k])) {
      if k == r.key {
        AppendHolds(files, id, r);
      } else {
        assert k in kd && Holds(files, kd[k], Put(k, m[k]));
        AppendKeepsHolds(files, id, Encode(r), kd[k], Put(k, m[k]));
      }
    }
  }

  // ---------- reading a value back ----------

  /** What `Get` reads at an offset: both sizes, then `valueSize` bytes after skipping the key.
      A read of no bytes succeeds wherever the seek has gone. */
  function ReadValue(b: Bytes, offset: nat): Option<Bytes> {
    if |b| < offset + 8 then None
    else
      var keySize := ReadLE32(b[offset..offset + 4]);
      var valueSize := ReadLE32(b[offset + 4..offset + 8]);
      var start := offset + 8 + keySize;
      if valueSize == 0 then Some([])
      else if |b| < start + valueSize then None
      else Some(b[start..start + valueSize])
  }

  function ReadAt(files: Files, loc: Loc): Option<Bytes> {
    if loc.fileID in files then ReadValue(files[loc.fileID], loc.offset) else None
  }

  /** What reading back a pair gives: key and value sizes are the ones in the header, truncated to
      32 bits, and the value is looked for right behind a key of that size. */
  function Truncated(k: Bytes, v: Bytes): (r: Bytes)
    ensures |r| == |v| % U32
  {
    var start := |k| % U32;
    ModSmaller(|k|);
    ModSmaller(|v|);
    (k + v)[start..start + |v| % U32]
  }

  /** The value comes back if and only if it is shorter than 2^32 bytes and the bytes at the place
      where it is looked for are its own, as they are for every key shorter than that. */
  lemma {:induction false} TruncatedExact(k: Bytes, v: Bytes)
    ensures Truncated(k, v) == v <==> |v| < U32 && v <= (k + v)[|k| % U32..]
    ensures |k| < U32 ==> v <= (k + v)[|k| % U32..]
  {
    ModSmaller(|k|);
    ModSmaller(|v|);
    var start, both := |k| % U32, k + v;
    if |v| < U32 {
      SmallMod(|v|);
      assert both[start..start + |v|] == both[start..][..|v|];
      if v <= both[start..] { assert both[start..][..|v|] == v; }
    }
    if |k| < U32 {
      SmallMod(|k|);
      Drop(k, v);
    }
  }

  /** A located put always reads back, as its sizes in the header have it. */
  lemma {:induction false} ReadAtExact(files: Files, loc: Loc, r: Record)
    requires Holds(files, loc, r) && r.Put?
    ensures ReadAt(files, loc) == Some(Truncated(r.key, r.value))
  {
    hide Encode, LE32, FromLittleEndian;
    var e := files[loc.fileID][loc.offset..loc.offset + loc.size];
    ReadSizes(|r.key| % U32, |r.value| % U32, Payload(r));
    EncodedWindow(r);
    ReadWindow(files[loc.fileID], loc.offset, e, r);
  }

  lemma {:induction false} EncodedWindow(r: Record)
    requires r.Put?
    ensures Encode(r) == Sizes(|r.key| % U32, |r.value| % U32) + Payload(r)
    ensures var start := 8 + |r.key| % U32; var end := start + |r.value| % U32;
      end <= Size(r) && Encode(r)[start..end] == Truncated(r.key, r.value)
  {
    ModSmaller(|r.key|);
    ModSmaller(|r.value|);
    Behind(Header(r), r.key + r.value, |r.key| % U32, |r.key| % U32 + |r.value| % U32);
  }

  lemma {:induction false} Behind<T>(a: seq<T>, b: seq<T>, lo: nat, hi: nat)
    requires lo <= hi <= |b|
    ensures (a + b)[|a| + lo..|a| + hi] == b[lo..hi]
  {
  }

  lemma {:induction false} ReadWindow(b: Bytes, offset: nat, e: Bytes, r: Record)
    requires r.Put? && offset + Size(r) <= |b| && e == b[offset..offset + Size(r)]
    requires ReadLE32(e[..4]) == |r.key| % U32 && ReadLE32(e[4..8]) == |r.value| % U32
    requires var start := 8 + |r.key| % U32; var end := start + |r.value| % U32;
      end <= Size(r) && e[start..end] == Truncated(r.key, r.value)
    ensures ReadValue(b, offset) == Some(Truncated(r.key, r.value))
  {
    hide FromLittleEndian, Truncated;
    var start := 8 + |r.key| % U32;
    Window(b, offset, Size(r), 0, 4);
    Window(b, offset, Size(r), 4, 8);
    Window(b, offset, Size(r), start, start + |r.value| % U32);
    if |r.value| % U32 == 0 { assert Truncated(r.key, r.value) == []; }
  }

  lemma {:induction false} Window<T>(b: seq<T>, offset: nat, size: nat, lo: nat, hi: nat)
    requires offset + size <= |b| && lo <= hi <= size
    ensures b[offset..offset + size][lo..hi] == b[offset + lo..offset + hi]
  {
    var w := b[offset..offset + size];
    forall i | 0 <= i < hi - lo ensures w[lo..hi][i] == b[offset + lo..offset + hi][i] {
      assert w[lo..hi][i] == w[lo + i] == b[offset + lo + i];
    }
  }
}
