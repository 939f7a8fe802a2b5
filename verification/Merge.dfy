/** The record list a compaction writes: which lists are merges of a key/value map, what they
    do to the contents, and how many bytes they take. */
module Merge {
  import opened Bytes
  import opened RecordLog
  import opened Segments
  import opened Recovery

  /** Every record is a put of a live key with its current value. */
  ghost predicate LivePuts(recs: seq<Record>, m: Contents) {
    forall r :: r in recs ==> r.Put? && r.key in m && m[r.key] == r.value
  }

  predicate DistinctKeys(recs: seq<Record>) {
    forall i, j :: 0 <= i < j < |recs| ==> recs[i].key != recs[j].key
  }

  /** Exactly one record for each live key, in any order. */
  ghost predicate IsMerge(recs: seq<Record>, m: Contents) {
    && LivePuts(recs, m)
    && DistinctKeys(recs)
    && forall k :: k in m ==> Put(k, m[k]) in recs
  }

  // ---------- contents ----------

  lemma {:induction false} ApplyLive(x: Contents, recs: seq<Record>, m: Contents)
    requires LivePuts(recs, m)
    ensures forall k :: k in ApplyAll(x, recs) <==> k in x || (k in m && Put(k, m[k]) in recs)
    ensures forall k :: k in ApplyAll(x, recs) ==>
      ApplyAll(x, recs)[k] == if k in m && Put(k, m[k]) in recs then m[k] else x[k]
  {
    if recs != [] {
      var init, r := recs[..|recs| - 1], recs[|recs| - 1];
      assert r in recs && forall s :: s in recs <==> s in init || s == r;
      ApplyLive(x, init, m);
    }
  }

  /** Records that repeat current values change nothing. */
  lemma {:induction false} RewriteKeepsContents(recs: seq<Record>, m: Contents)
    requires LivePuts(recs, m)
    ensures ApplyAll(m, recs) == m
  {
    ApplyLive(m, recs, m);
  }

  /** A merge on top of any subset of the live keys, with whatever values, gives the live map. */
  lemma {:induction false} MergeRestores(x: Contents, recs: seq<Record>, m: Contents)
    requires x.Keys <= m.Keys && IsMerge(recs, m)
    ensures ApplyAll(x, recs) == m
  {
    ApplyLive(x, recs, m);
  }

  lemma {:induction false} PutsGrow(x: Contents, rs: seq<Record>)
    requires !HasTombstone(rs)
    ensures forall k :: k in ApplyAll(x, rs) <==> k in x || exists r :: r in rs && r.key == k
  {
    if rs != [] {
      var init, r := rs[..|rs| - 1], rs[|rs| - 1];
      assert r in rs && forall s :: s in rs <==> s in init || s == r;
      PutsGrow(x, init);
    }
  }

  /** Old files that survive without a tombstone mention live keys only, so the merged file on
      top of them gives the live map again. */
  lemma {:induction false} MergeOverRemainder(dropped: seq<Record>, kept: seq<Record>, recs: seq<Record>)
    requires !HasTombstone(kept)
    requires IsMerge(recs, ApplyAll(map[], dropped + kept))
    ensures ApplyAll(map[], kept + recs) == ApplyAll(map[], dropped + kept)
  {
    var m := ApplyAll(map[], dropped + kept);
    ApplyConcat(map[], dropped, kept);
    ApplyConcat(map[], kept, recs);
    PutsGrow(ApplyAll(map[], dropped), kept);
    PutsGrow(map[], kept);
    MergeRestores(ApplyAll(map[], kept), recs, m);
  }

  lemma {:induction false} LivePrefix(recs: seq<Record>, m: Contents, j: nat)
    requires LivePuts(recs, m) && j <= |recs|
    ensures LivePuts(recs[..j], m) && !HasTombstone(recs[..j])
  {
    assert forall r :: r in recs[..j] ==> r in recs;
  }

  // ---------- space ----------

  predicate MentionsKey(rs: seq<Record>, k: Bytes) { exists r :: r in rs && r.key == k }

  /** The records of a log that are still live: the puts no later record of the key supersedes. */
  function Live(rs: seq<Record>): seq<Record> {
    if rs == [] then []
    else if rs[0].Put? && !MentionsKey(rs[1..], rs[0].key) then [rs[0]] + Live(rs[1..])
    else Live(rs[1..])
  }

  lemma {:induction false} LiveIsShorter(rs: seq<Record>)
    ensures Length(Live(rs)) <= Length(rs)
  {
    if rs != [] {
      LiveIsShorter(rs[1..]);
      assert ([rs[0]] + Live(rs[1..]))[1..] == Live(rs[1..]);
    }
  }

  lemma {:induction false} OneRecord(r: Record)
    ensures ApplyAll(map[], [r]) == if r.Put? then map[r.key := r.value] else map[]
  {
    var empty: Contents := map[];
    assert empty - {r.key} == empty;
    assert [r][..0] == [];
    assert ApplyAll(empty, [r]) == ApplyRecord(ApplyAll(empty, []), r);
  }

  /** A record in front of a log matters only for its own key, and only if the log never mentions it. */
  lemma {:induction false} ConsContents(r: Record, rest: seq<Record>, k: Bytes)
    ensures var m, m0 := ApplyAll(map[], [r] + rest), ApplyAll(map[], rest);
      if r.Put? && r.key == k && !MentionsKey(rest, k) then k !in m0 && k in m && m[k] == r.value
      else (k in m <==> k in m0) && (k in m ==> m[k] == m0[k])
  {
    OneRecord(r);
    ApplyConcat(map[], [r], rest);
    ApplyPointwise(ApplyAll(map[], [r]), rest);
  }

  /** The live records are themselves a merge of the contents. */
  lemma {:induction false} LiveIsMerge(rs: seq<Record>)
    ensures IsMerge(Live(rs), ApplyAll(map[], rs))
    ensures forall r :: r in Live(rs) ==> r in rs
  {
    if rs != [] {
      var r, rest := rs[0], rs[1..];
      LiveIsMerge(rest);
      assert rs == [r] + rest;
      if r.Put? && !MentionsKey(rest, r.key) {
        LiveCons(r, rest);
      } else {
        SupersededRecord(r, rest);
      }
    }
  }

  lemma {:induction false} SupersededRecord(r: Record, rest: seq<Record>)
    requires r.Tombstone? || MentionsKey(rest, r.key)
    ensures ApplyAll(map[], [r] + rest) == ApplyAll(map[], rest)
  {
    forall k { ConsContents(r, rest, k); }
  }

  lemma {:induction false} LiveCons(r: Record, rest: seq<Record>)
    requires IsMerge(Live(rest), ApplyAll(map[], rest)) && forall s :: s in Live(rest) ==> s in rest
    requires r.Put? && !MentionsKey(rest, r.key)
    ensures IsMerge([r] + Live(rest), ApplyAll(map[], [r] + rest))
  {
    hide Live, ApplyAll;
    var live, all, m, m0 := Live(rest), [r] + Live(rest), ApplyAll(map[], [r] + rest), ApplyAll(map[], rest);
    forall s | s in all ensures s.Put? && s.key in m && m[s.key] == s.value {
      ConsContents(r, rest, s.key);
      assert s == r || s in live;
    }
    forall i, j | 0 <= i < j < |all| ensures all[i].key != all[j].key {
      assert all[j] == live[j - 1] && live[j - 1] in rest;
      if i > 0 { assert all[i] == live[i - 1]; }
    }
    forall k | k in m ensures Put(k, m[k]) in all {
      ConsContents(r, rest, k);
      assert k in m0 ==> Put(k, m0[k]) in live;
    }
  }

  /** Keys that a log mentions end up the same whatever the log starts from; others are kept. */
  lemma {:induction false} ApplyPointwise(x: Contents, rs: seq<Record>)
    ensures forall k :: MentionsKey(rs, k) ==>
      && (k in ApplyAll(x, rs) <==> k in ApplyAll(map[], rs))
      && (k in ApplyAll(x, rs) ==> ApplyAll(x, rs)[k] == ApplyAll(map[], rs)[k])
    ensures forall k :: !MentionsKey(rs, k) ==>
      && k !in ApplyAll(map[], rs)
      && (k in ApplyAll(x, rs) <==> k in x)
      && (k in x ==> ApplyAll(x, rs)[k] == x[k])
  {
    if rs != [] {
      var init, r := rs[..|rs| - 1], rs[|rs| - 1];
      ApplyPointwise(x, init);
      assert forall s :: s in rs <==> s in init || s == r;
      assert forall k :: MentionsKey(rs, k) <==> MentionsKey(init, k) || k == r.key;
    }
  }

  /** All merges of a map take the same number of bytes. */
  lemma {:induction false} MergeLength(a: seq<Record>, b: seq<Record>)
    requires DistinctKeys(a) && DistinctKeys(b)
    requires forall r :: r in a <==> r in b
    ensures Length(a) == Length(b)
  {
    hide DistinctKeys;
    if a == [] {
      assert forall i :: 0 <= i < |b| ==> b[i] in b;
    } else {
      var r := a[0];
      assert r in b;
      var i :| 0 <= i < |b| && b[i] == r;
      var rest := b[..i] + b[i + 1..];
      forall s ensures s in a[1..] <==> s in rest { RestMembers(a, b, i, s); }
      RestDistinct(b, i);
      RestDistinct(a, 0);
      assert a[..0] + a[1..] == a[1..];
      MergeLength(a[1..], rest);
      LengthWithout(b, i);
    }
  }

  lemma {:induction false} RestDistinct(b: seq<Record>, i: nat)
    requires DistinctKeys(b) && i < |b|
    ensures DistinctKeys(b[..i] + b[i + 1..])
  {
  }

  lemma {:induction false} LengthWithout(b: seq<Record>, i: nat)
    requires i < |b|
    ensures Length(b) == Size(b[i]) + Length(b[..i] + b[i + 1..])
  {
    SplitAt(b, i);
    LengthConcat(b[..i], [b[i]] + b[i + 1..]);
    Cons(b[i], b[i + 1..]);
    LengthConcat(b[..i], b[i + 1..]);
  }

  lemma {:induction false} RestMembers(a: seq<Record>, b: seq<Record>, i: nat, s: Record)
    requires DistinctKeys(a) && DistinctKeys(b) && a != [] && i < |b| && b[i] == a[0]
    requires forall r :: r in a <==> r in b
    ensures s in a[1..] <==> s in b[..i] + b[i + 1..]
  {
    assert s in a <==> s in a[1..] || s == a[0];
    SplitAt(b, i);
    assert s in b <==> s in b[..i] + b[i + 1..] || s == b[i];
    assert a[0] !in a[1..];
    assert forall j :: 0 <= j < |b| && j != i ==> b[j] != b[i];
    assert b[i] !in b[..i] + b[i + 1..];
  }

  function DiskUsage(segs: seq<Segment>): nat {
    if segs == [] then 0 else DiskUsage(segs[..|segs| - 1]) + Length(segs[|segs| - 1].recs)
  }

  lemma {:induction false} FlattenLength(segs: seq<Segment>)
    ensures Length(Flatten(segs)) == DiskUsage(segs)
  {
    if segs != [] {
      FlattenLength(segs[..|segs| - 1]);
      LengthConcat(Flatten(segs[..|segs| - 1]), segs[|segs| - 1].recs);
    }
  }

  /** A directory of fewer than 2^32-1 bytes in all is within the limits of the file format. */
  lemma {:induction false} SmallDiskSound(segs: seq<Segment>)
    requires DiskUsage(segs) < 0xFFFF_FFFF
    ensures Sound(segs)
  {
    forall i | 0 <= i < |segs| ensures Delimited(segs[i].recs, 0) && Fits(segs[i].recs) {
      FileWithin(segs, i);
      SmallFileSound(segs[i].recs);
    }
  }

  lemma {:induction false} FileWithin(segs: seq<Segment>, i: nat)
    requires i < |segs|
    ensures Length(segs[i].recs) <= DiskUsage(segs)
  {
    if i < |segs| - 1 { FileWithin(segs[..|segs| - 1], i); }
  }

  lemma {:induction false} SmallFileSound(rs: seq<Record>)
    requires Length(rs) < 0xFFFF_FFFF
    ensures Delimited(rs, 0) && Fits(rs)
  {
    forall i | 0 <= i < |rs|
      ensures Size(rs[i]) < 0xFFFF_FFFF && Length(rs[i + 1..]) < 0xFFFF_FFFF
    {
      SplitAt(rs, i);
      LengthConcat(rs[..i], [rs[i]] + rs[i + 1..]);
      Cons(rs[i], rs[i + 1..]);
    }
  }

  lemma {:induction false} DiskUsageSnoc(segs: seq<Segment>, s: Segment)
    ensures DiskUsage(segs + [s]) == DiskUsage(segs) + Length(s.recs) && DiskUsage([]) == 0
  {
    assert (segs + [s])[..|segs|] == segs;
  }

  /** A compaction keeps exactly the bytes of the live records and never writes more than the
      old files held. */
  lemma {:induction false} MergeReclaims(segs: seq<Segment>, recs: seq<Record>)
    requires IsMerge(recs, ContentsOf(segs))
    ensures Length(recs) == Length(Live(Flatten(segs))) <= DiskUsage(segs)
  {
    var rs, m := Flatten(segs), ContentsOf(segs);
    LiveIsMerge(rs);
    LiveIsShorter(rs);
    FlattenLength(segs);
    forall r ensures r in recs <==> r in Live(rs) {
      assert r in recs ==> r == Put(r.key, m[r.key]);
      assert r in Live(rs) ==> r == Put(r.key, m[r.key]);
    }
    MergeLength(recs, Live(rs));
  }

  /** The bytes that one record for each key takes. */
  ghost function LiveBytes(m: Contents): nat
    decreases |m.Keys|
  {
    if m == map[] then 0
    else
      var k :| k in m;
      assert |(m - {k}).Keys| < |m.Keys| by { assert (m - {k}).Keys == m.Keys - {k}; }
      Size(Put(k, m[k])) + LiveBytes(m - {k})
  }

  /** Every merge of a map takes that many. */
  lemma {:induction false} MergeBytes(recs: seq<Record>, m: Contents)
    requires IsMerge(recs, m)
    ensures Length(recs) == LiveBytes(m)
  {
    hide LiveBytes;
    var one := SomeMerge(m);
    forall r ensures r in recs <==> r in one {
      assert r in recs ==> r == Put(r.key, m[r.key]);
      assert r in one ==> r == Put(r.key, m[r.key]);
    }
    MergeLength(recs, one);
  }

  lemma {:induction false} SomeMerge(m: Contents) returns (recs: seq<Record>)
    ensures IsMerge(recs, m) && Length(recs) == LiveBytes(m)
    decreases |m.Keys|
  {
    hide IsMerge, LiveBytes, Length, Encode;
    if m == map[] {
      recs := [];
      NoneLive(m);
    } else {
      var k := OneLive(m);
      assert (m - {k}).Keys == m.Keys - {k};
      var rest := SomeMerge(m - {k});
      recs := [Put(k, m[k])] + rest;
      Cons(Put(k, m[k]), rest);
      ConsMerge(rest, m, k);
    }
  }

  lemma {:induction false} NoneLive(m: Contents)
    requires m == map[]
    ensures IsMerge([], m) && Length([]) == LiveBytes(m)
  {
  }

  lemma {:induction false} OneLive(m: Contents) returns (k: Bytes)
    requires m != map[]
    ensures k in m && LiveBytes(m) == Size(Put(k, m[k])) + LiveBytes(m - {k})
  {
    k :| k in m && LiveBytes(m) == Size(Put(k, m[k])) + LiveBytes(m - {k});
  }

  lemma {:induction false} ConsMerge(rest: seq<Record>, m: Contents, k: Bytes)
    requires k in m && IsMerge(rest, m - {k})
    ensures IsMerge([Put(k, m[k])] + rest, m)
  {
    var recs := [Put(k, m[k])] + rest;
    assert forall r :: r in recs <==> r in rest || r == Put(k, m[k]);
    forall i, j | 0 <= i < j < |recs| ensures recs[i].key != recs[j].key {
      assert recs[j] == rest[j - 1] && rest[j - 1] in rest;
      if i > 0 { assert recs[i] == rest[i - 1]; }
    }
    forall x | x in m ensures Put(x, m[x]) in recs {
      if x != k { assert Put(x, (m - {k})[x]) in rest; }
    }
  }
}
