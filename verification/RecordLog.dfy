/** The record format of a data file: what `Put` and `Delete` append, and what the recovery
    parser makes of a file's bytes. */
module RecordLog {
  import opened Bytes

  datatype Option<+T> = None | Some(value: T)

  datatype Record = Put(key: Bytes, value: Bytes) | Tombstone(key: Bytes)

  const TOMBSTONE: uint32 := 0xFFFF_FFFF

  // ---------- the writer ----------

  function Payload(r: Record): Bytes {
    match r
    case Put(k, v) => k + v
    case Tombstone(k) => k
  }

  function Sizes(keySize: uint32, valueSize: uint32): (h: Bytes)
    ensures |h| == 8
  {
    LE32(keySize) + LE32(valueSize)
  }

  /** Both sizes are truncated to 32 bits on the way to the file. */
  function Header(r: Record): (h: Bytes)
    ensures |h| == 8
  {
    Sizes(|r.key| % U32, if r.Put? then |r.value| % U32 else TOMBSTONE)
  }

  function Encode(r: Record): (b: Bytes)
    ensures |b| == Size(r)
  {
    Header(r) + Payload(r)
  }

  /** The record size as the writer computes it, without truncation. */
  function Size(r: Record): nat {
    match r
    case Put(k, v) => 8 + |k| + |v|
    case Tombstone(k) => 8 + |k|
  }

  function Length(rs: seq<Record>): nat {
    if rs == [] then 0 else Size(rs[0]) + Length(rs[1..])
  }

  function EncodeAll(rs: seq<Record>): (b: Bytes)
    ensures |b| == Length(rs)
  {
    if rs == [] then [] else Encode(rs[0]) + EncodeAll(rs[1..])
  }

  lemma {:induction false} EncodeAllConcat(a: seq<Record>, b: seq<Record>)
    ensures EncodeAll(a + b) == EncodeAll(a) + EncodeAll(b)
  {
    if a == [] {
      assert a + b == b;
    } else {
      assert (a + b)[1..] == a[1..] + b;
      EncodeAllConcat(a[1..], b);
    }
  }

  lemma {:induction false} EncodeAllCons(r: Record, rs: seq<Record>)
    ensures EncodeAll([r] + rs) == Encode(r) + EncodeAll(rs)
  {
    Drop([r], rs);
  }

  lemma {:induction false} EncodeAllSnoc(a: seq<Record>, r: Record)
    ensures EncodeAll(a + [r]) == EncodeAll(a) + Encode(r)
  {
    EncodeAllConcat(a, [r]);
    assert EncodeAll([r]) == Encode(r) + EncodeAll([]);
  }

  /** A put byte by byte: both sizes modulo 2^32, least significant byte first, key and value. */
  lemma {:induction false} PutBytes(k: Bytes, v: Bytes)
    ensures var m, n := |k| % 0x1_0000_0000, |v| % 0x1_0000_0000;
      Encode(Put(k, v)) == [m % 256, m / 256 % 256, m / 65536 % 256, m / 16777216,
                            n % 256, n / 256 % 256, n / 65536 % 256, n / 16777216] + k + v
  {
    hide LE32;
    LE32Bytes(|k| % U32);
    LE32Bytes(|v| % U32);
    Assoc(Header(Put(k, v)), k, v);
  }

  /** A tombstone byte by byte: the size of the key, four times 255, and the key. */
  lemma {:induction false} TombstoneBytes(k: Bytes)
    ensures var m := |k| % 0x1_0000_0000;
      Encode(Tombstone(k)) == [m % 256, m / 256 % 256, m / 65536 % 256, m / 16777216, 255, 255, 255, 255] + k
  {
    hide LE32;
    LE32Bytes(|k| % U32);
    LE32Bytes(TOMBSTONE);
  }

  // ---------- the recovery parser ----------

  /** One record at the head of `b`, or None when a read hits the end of the file. The tombstone
      marker is read like any other value size. */
  function ReadRecord(b: Bytes): Option<Record> {
    if |b| < 8 then None
    else
      var keySize := ReadLE32(b[..4]);
      var valueSize := ReadLE32(b[4..8]);
      if |b| < 8 + keySize + valueSize then None
      else Some(Put(b[8..8 + keySize], b[8 + keySize..8 + keySize + valueSize]))
  }

  function Then(r: Record, rest: Option<seq<Record>>): Option<seq<Record>> {
    match rest
    case None => None
    case Some(rs) => Some([r] + rs)
  }

  /** All the records of a file, or None when one of the reads fails. */
  function Scan(b: Bytes): Option<seq<Record>>
    decreases |b|
  {
    if b == [] then Some([])
    else
      match ReadRecord(b)
      case None => None
      case Some(r) => Then(r, Scan(b[Size(r)..]))
  }

  // ---------- records with their place in the file ----------

  datatype Entry = Entry(rec: Record, offset: nat, size: nat)

  /** The writer computes a record's size in 64 bits, the parser in 32. */
  function SizeAs(r: Record, wrapped: bool): nat {
    if wrapped then Size(r) % U32 else Size(r)
  }

  /** Each record with the offset and size that the writer (`wrapped` false) or the parser
      (`wrapped` true) puts in the index. */
  function Layout(rs: seq<Record>, offset: nat, wrapped: bool): (es: seq<Entry>)
    ensures |es| == |rs|
  {
    if rs == [] then []
    else
      var size := SizeAs(rs[0], wrapped);
      [Entry(rs[0], offset, size)] + Layout(rs[1..], offset + size, wrapped)
  }

  function LengthAs(rs: seq<Record>, wrapped: bool): nat {
    if rs == [] then 0 else SizeAs(rs[0], wrapped) + LengthAs(rs[1..], wrapped)
  }

  lemma {:induction false} LengthAsWritten(rs: seq<Record>)
    ensures LengthAs(rs, false) == Length(rs)
  {
    if rs != [] { LengthAsWritten(rs[1..]); }
  }

  lemma {:induction false} LengthSnoc(rs: seq<Record>, r: Record, wrapped: bool)
    ensures LengthAs(rs + [r], wrapped) == LengthAs(rs, wrapped) + SizeAs(r, wrapped)
  {
    if rs == [] {
      assert rs + [r] == [r];
    } else {
      assert (rs + [r])[1..] == rs[1..] + [r];
      LengthSnoc(rs[1..], r, wrapped);
    }
  }

  lemma {:induction false} LayoutSnoc(rs: seq<Record>, r: Record, offset: nat, wrapped: bool)
    ensures Layout(rs + [r], offset, wrapped)
         == Layout(rs, offset, wrapped) + [Entry(r, offset + LengthAs(rs, wrapped), SizeAs(r, wrapped))]
  {
    if rs == [] {
      assert rs + [r] == [r];
    } else {
      assert (rs + [r])[1..] == rs[1..] + [r];
      LayoutSnoc(rs[1..], r, offset + SizeAs(rs[0], wrapped), wrapped);
    }
  }

  // ---------- printer and parser undo each other ----------

  /** The header states the true sizes. */
  predicate HeaderExact(r: Record) { |r.key| < U32 && (r.Put? ==> |r.value| < U32) }

  lemma {:induction false} ReadSizes(keySize: uint32, valueSize: uint32, rest: Bytes)
    ensures var b := Sizes(keySize, valueSize) + rest;
      ReadLE32(b[..4]) == keySize && ReadLE32(b[4..8]) == valueSize && b[8..] == rest
  {
    ReadLE32Inverse(keySize);
    ReadLE32Inverse(valueSize);
    ThreeParts(LE32(keySize), LE32(valueSize), rest);
  }

  lemma {:induction false} EncodedSizes(r: Record, rest: Bytes)
    requires HeaderExact(r)
    ensures var b := Encode(r) + rest;
      ReadLE32(b[..4]) == |r.key| && ReadLE32(b[4..8]) == if r.Put? then |r.value| else TOMBSTONE
  {
    SmallMod(|r.key|);
    if r.Put? { SmallMod(|r.value|); }
    ReadSizes(|r.key|, if r.Put? then |r.value| else TOMBSTONE, Payload(r) + rest);
    Assoc(Header(r), Payload(r), rest);
  }

  lemma {:induction false} EncodedFields(r: Record, rest: Bytes)
    requires r.Put?
    ensures var b := Encode(r) + rest; var n := 8 + |r.key|;
      b[8..n] == r.key && b[n..n + |r.value|] == r.value
  {
    FourParts(Header(r), r.key, r.value, rest);
  }

  lemma {:induction false} ReadRecordOfEncode(r: Record, rest: Bytes)
    requires r.Put? && HeaderExact(r)
    ensures ReadRecord(Encode(r) + rest) == Some(r)
  {
    EncodedSizes(r, rest);
    EncodedFields(r, rest);
  }

  lemma {:induction false} EncodeOfReadRecord(b: Bytes)
    requires ReadRecord(b).Some?
    ensures var r := ReadRecord(b).value;
      r.Put? && HeaderExact(r) && Size(r) <= |b| && b[..Size(r)] == Encode(r)
  {
    var r := ReadRecord(b).value;
    LE32Inverse(b[..4]);
    LE32Inverse(b[4..8]);
    SmallMod(|r.key|);
    SmallMod(|r.value|);
    Rejoin(b, 4, 8, 8 + |r.key|, Size(r));
  }

  /** Whatever the parser accepts is, byte for byte, the encoding of the records it reports. */
  lemma {:induction false} ScanInverse(b: Bytes)
    requires Scan(b).Some?
    ensures EncodeAll(Scan(b).value) == b
    ensures forall r :: r in Scan(b).value ==> r.Put? && HeaderExact(r)
    decreases |b|
  {
    if b != [] {
      var r := ReadRecord(b).value;
      EncodeOfReadRecord(b);
      ScanInverse(b[Size(r)..]);
      EncodeAllCons(r, Scan(b[Size(r)..]).value);
      Split(b, Size(r));
    }
  }

  predicate Parseable(rs: seq<Record>) {
    forall r :: r in rs ==> r.Put? && HeaderExact(r)
  }

  function Append(rs: seq<Record>, rest: Option<seq<Record>>): Option<seq<Record>> {
    match rest
    case None => None
    case Some(more) => Some(rs + more)
  }

  /** Puts parse back, and parsing goes on with whatever follows them. */
  lemma {:induction false} ScanOfEncode(rs: seq<Record>, tail: Bytes)
    requires Parseable(rs)
    ensures Scan(EncodeAll(rs) + tail) == Append(rs, Scan(tail))
  {
    if rs == [] {
      assert [] + tail == tail;
      if Scan(tail).Some? { assert [] + Scan(tail).value == Scan(tail).value; }
    } else {
      var r, after := rs[0], EncodeAll(rs[1..]) + tail;
      assert r in rs;
      Assoc(Encode(r), EncodeAll(rs[1..]), tail);
      ReadRecordOfEncode(r, after);
      Drop(Encode(r), after);
      ScanOfEncode(rs[1..], tail);
      if Scan(tail).Some? { Uncons(rs, Scan(tail).value); }
    }
  }

  /** The parser's index entries for a file. */
  function ParsedLayout(b: Bytes): Option<seq<Entry>> {
    match Scan(b)
    case None => None
    case Some(rs) => Some(Layout(rs, 0, true))
  }

  /** Parsing a list of encoded puts gives that list with the writer's offsets and sizes if and
      only if each record is shorter than 2^32 bytes. */
  lemma {:induction false} RoundTripExact(rs: seq<Record>)
    requires forall r :: r in rs ==> r.Put?
    ensures ParsedLayout(EncodeAll(rs)) == Some(Layout(rs, 0, false)) <==> forall r :: r in rs ==> Size(r) < U32
  {
    var b := EncodeAll(rs);
    if forall r :: r in rs ==> Size(r) < U32 {
      ScanOfEncode(rs, []);
      Neutral(b);
      Neutral(rs);
      LayoutsAgree(rs, 0);
    } else if ParsedLayout(b) == Some(Layout(rs, 0, false)) {
      forall i | 0 <= i < |rs| ensures Size(rs[i]) < U32 {
        LayoutSize(Scan(b).value, 0, true, i);
        LayoutSize(rs, 0, false, i);
      }
    }
  }

  lemma {:induction false} LayoutSize(rs: seq<Record>, offset: nat, wrapped: bool, i: nat)
    requires i < |rs|
    ensures Layout(rs, offset, wrapped)[i].size == SizeAs(rs[i], wrapped)
  {
    if i > 0 { LayoutSize(rs[1..], offset + SizeAs(rs[0], wrapped), wrapped, i - 1); }
  }

  lemma {:induction false} LayoutsAgree(rs: seq<Record>, offset: nat)
    requires forall r :: r in rs ==> r.Put? && Size(r) < U32
    ensures Layout(rs, offset, true) == Layout(rs, offset, false)
  {
    if rs != [] {
      assert rs[0] in rs;
      LayoutsAgree(rs[1..], offset + Size(rs[0]));
    }
  }

  // ---------- what the parser rejects ----------

  /** A record cut short is an error, never data; a tombstone is one even when complete. */
  lemma {:induction false} TornRecordRejected(r: Record, n: nat)
    requires HeaderExact(r)
    requires 0 < n <= Size(r) && (r.Put? ==> n < Size(r))
    ensures Scan(Encode(r)[..n]) == None
  {
    TornRecordUnreadable(r, n);
  }

  lemma {:induction false} TornRecordUnreadable(r: Record, n: nat)
    requires HeaderExact(r) && n <= Size(r) && (r.Put? ==> n < Size(r))
    ensures ReadRecord(Encode(r)[..n]) == None
  {
    if n >= 8 {
      EncodedSizes(r, []);
      Neutral(Encode(r));
      Prefix(Encode(r), n, 0, 4);
      Prefix(Encode(r), n, 4, 8);
    }
  }

  /** A tombstone makes the parser ask for 2^32-1 value bytes, so it is an error unless that many
      bytes follow it. */
  lemma {:induction false} TombstoneRejected(k: Bytes, tail: Bytes)
    requires |k| < U32 && |tail| < TOMBSTONE
    ensures Scan(Encode(Tombstone(k)) + tail) == None
  {
    TombstoneUnreadable(k, tail);
    var b := Encode(Tombstone(k)) + tail;
    assert |b| >= 8;
  }

  lemma {:induction false} TombstoneUnreadable(k: Bytes, tail: Bytes)
    requires |k| < U32 && |tail| < TOMBSTONE
    ensures ReadRecord(Encode(Tombstone(k)) + tail) == None
  {
    EncodedSizes(Tombstone(k), tail);
  }

  predicate HasTombstone(rs: seq<Record>) { exists r :: r in rs && r.Tombstone? }

  lemma {:induction false} FirstTombstone(rs: seq<Record>) returns (i: nat)
    requires HasTombstone(rs)
    ensures i < |rs| && rs[i].Tombstone? && !HasTombstone(rs[..i])
  {
    if rs[0].Tombstone? {
      i := 0;
    } else {
      var r :| r in rs && r.Tombstone?;
      assert r in rs[1..];
      var j := FirstTombstone(rs[1..]);
      i := j + 1;
      assert rs[..i] == [rs[0]] + rs[1..][..j];
    }
  }

  /** Every header states the true sizes, and fewer than the 2^32-1 bytes a tombstone asks for
      follow one, counting `more` bytes behind the records. */
  predicate Delimited(rs: seq<Record>, more: nat) {
    forall i :: 0 <= i < |rs| ==> HeaderExact(rs[i]) && (rs[i].Tombstone? ==> Length(rs[i + 1..]) + more < TOMBSTONE)
  }

  /** Every put is shorter than 2^32 bytes. */
  predicate Fits(rs: seq<Record>) { forall r :: r in rs && r.Put? ==> Size(r) < U32 }

  lemma {:induction false} TombstoneWithin(puts: seq<Record>, t: Record, rest: seq<Record>, tail: Bytes)
    requires Parseable(puts) && t.Tombstone? && |t.key| < U32
    requires Length(rest) + |tail| < TOMBSTONE
    ensures Scan(EncodeAll(puts + ([t] + rest)) + tail) == None
  {
    var after := EncodeAll([t] + rest);
    EncodeAllConcat(puts, [t] + rest);
    EncodeAllCons(t, rest);
    Assoc(EncodeAll(puts), after, tail);
    Assoc(Encode(t), EncodeAll(rest), tail);
    TombstoneRejected(t.key, EncodeAll(rest) + tail);
    ScanOfEncode(puts, after + tail);
  }

  /** Within these limits one tombstone anywhere in a file makes it unparsable; a file of puts, of
      any length, parses as far as its tail does. */
  lemma {:induction false} ScanWithTail(rs: seq<Record>, tail: Bytes)
    requires Delimited(rs, |tail|)
    ensures Scan(EncodeAll(rs) + tail) == if HasTombstone(rs) then None else Append(rs, Scan(tail))
  {
    if HasTombstone(rs) {
      var i := FirstTombstone(rs);
      SplitAt(rs, i);
      PutsBefore(rs, i, |tail|);
      TombstoneWithin(rs[..i], rs[i], rs[i + 1..], tail);
    } else {
      assert rs[..|rs|] == rs;
      PutsBefore(rs, |rs|, |tail|);
      ScanOfEncode(rs, tail);
    }
  }

  lemma {:induction false} PutsBefore(rs: seq<Record>, i: nat, more: nat)
    requires i <= |rs| && !HasTombstone(rs[..i]) && Delimited(rs, more)
    ensures Parseable(rs[..i])
  {
    forall r | r in rs[..i] ensures r.Put? && HeaderExact(r) {
      var j :| 0 <= j < i && rs[..i][j] == r;
      assert rs[j] == r;
    }
  }

  /** A file parses if and only if it holds no tombstone, with the writer's layout if every record
      is shorter than 2^32 bytes. */
  lemma {:induction false} ScanOfFile(rs: seq<Record>)
    requires Delimited(rs, 0)
    ensures Scan(EncodeAll(rs)) == if HasTombstone(rs) then None else Some(rs)
    ensures !HasTombstone(rs) && Fits(rs) ==> ParsedLayout(EncodeAll(rs)) == Some(Layout(rs, 0, false))
  {
    ScanWithTail(rs, []);
    Neutral(EncodeAll(rs));
    Neutral(rs);
    if !HasTombstone(rs) && Fits(rs) { LayoutsAgree(rs, 0); }
  }

  /** A file that ends in a torn record does not parse. */
  lemma {:induction false} TornFileRejected(rs: seq<Record>, r: Record, n: nat)
    requires HeaderExact(r) && 0 < n <= Size(r) && (r.Put? ==> n < Size(r))
    requires Delimited(rs, n)
    ensures Scan(EncodeAll(rs) + Encode(r)[..n]) == None
  {
    ScanWithTail(rs, Encode(r)[..n]);
    TornRecordRejected(r, n);
  }

  /** A put torn anywhere is rejected if and only if its header states the true sizes; otherwise
      some proper part of it is taken for a whole record. */
  lemma {:induction false} TornPutExact(r: Record)
    requires r.Put?
    ensures (forall n :: 0 < n < Size(r) ==> Scan(Encode(r)[..n]) == None) <==> HeaderExact(r)
  {
    if HeaderExact(r) {
      forall n | 0 < n < Size(r) ensures Scan(Encode(r)[..n]) == None { TornRecordRejected(r, n); }
    } else {
      TruncatedHeaderParses(r);
    }
  }

  lemma {:induction false} TruncatedHeaderParses(r: Record)
    requires r.Put? && !HeaderExact(r)
    ensures var n := 8 + |r.key| % U32 + |r.value| % U32;
      n < Size(r) && Scan(Encode(r)[..n]).Some?
  {
    hide FromLittleEndian, LE32;
    var n := 8 + |r.key| % U32 + |r.value| % U32;
    ModSmaller(|r.key|);
    ModSmaller(|r.value|);
    ReadSizes(|r.key| % U32, |r.value| % U32, Payload(r));
    var b := Encode(r)[..n];
    Prefix(Encode(r), n, 0, 4);
    Prefix(Encode(r), n, 4, 8);
    assert b[..4] == Encode(r)[..4];
    OneRecordFile(b);
  }

  lemma {:induction false} ModSmaller(n: nat)
    ensures n % U32 <= n && (n >= U32 ==> n % U32 < n)
  {
  }

  lemma {:induction false} OneRecordFile(b: Bytes)
    requires ReadRecord(b).Some? && Size(ReadRecord(b).value) == |b|
    ensures Scan(b).Some?
  {
    assert b[|b|..] == [];
  }

  /** A cut of a record list falls between two records or inside one. */
  lemma {:induction false} CutPoint(recs: seq<Record>, c: nat) returns (j: nat, n: nat)
    requires c <= Length(recs)
    ensures j <= |recs| && c == Length(recs[..j]) + n && (n > 0 ==> j < |recs| && n < Size(recs[j]))
    ensures EncodeAll(recs)[..c] == EncodeAll(recs[..j]) + if n > 0 then Encode(recs[j])[..n] else []
  {
    hide Encode, Size;
    if recs == [] || c < Size(recs[0]) {
      j, n := 0, c;
      assert recs[..0] == [];
      if n > 0 { TakeWithin(Encode(recs[0]), EncodeAll(recs[1..]), n); }
    } else {
      var j', n' := CutPoint(recs[1..], c - Size(recs[0]));
      j, n := j' + 1, n';
      TakeCons(recs, j');
      TakeAcross(Encode(recs[0]), EncodeAll(recs[1..]), c - Size(recs[0]));
      Cons(recs[0], recs[1..][..j']);
      Assoc(Encode(recs[0]), EncodeAll(recs[1..][..j']), if n > 0 then Encode(recs[j])[..n] else []);
    }
  }

  lemma {:induction false} Cons(r: Record, rs: seq<Record>)
    ensures EncodeAll([r] + rs) == Encode(r) + EncodeAll(rs) && Length([r] + rs) == Size(r) + Length(rs)
  {
    assert ([r] + rs)[1..] == rs;
  }

  /** Every cut of a file: what is left of it parses if and only if the cut falls between two
      records and no tombstone is left, and then it yields the records in front of the cut. */
  lemma {:induction false} ScanOfCut(rs: seq<Record>, j: nat, n: nat)
    requires Delimited(rs, 0) && j <= |rs| && (n > 0 ==> j < |rs| && n < Size(rs[j]))
    ensures var cut := EncodeAll(rs[..j]) + if n > 0 then Encode(rs[j])[..n] else [];
      Scan(cut) == if n > 0 || HasTombstone(rs[..j]) then None else Some(rs[..j])
  {
    DelimitedPrefix(rs, j, n);
    if n > 0 {
      TornFileRejected(rs[..j], rs[j], n);
    } else {
      Neutral(EncodeAll(rs[..j]));
      ScanOfFile(rs[..j]);
    }
  }

  lemma {:induction false} LengthConcat(a: seq<Record>, b: seq<Record>)
    ensures Length(a + b) == Length(a) + Length(b)
  {
    if a == [] {
      Neutral(b);
    } else {
      assert (a + b)[1..] == a[1..] + b;
      LengthConcat(a[1..], b);
    }
  }

  lemma {:induction false} DelimitedPrefix(rs: seq<Record>, j: nat, n: nat)
    requires Delimited(rs, 0) && j <= |rs| && (n > 0 ==> j < |rs| && n <= Size(rs[j]))
    ensures Delimited(rs[..j], n)
  {
    var front := rs[..j];
    forall i | 0 <= i < |front|
      ensures HeaderExact(front[i]) && (front[i].Tombstone? ==> Length(front[i + 1..]) + n < TOMBSTONE)
    {
      assert front[i] == rs[i];
      assert rs[i + 1..] == front[i + 1..] + rs[j..];
      LengthConcat(front[i + 1..], rs[j..]);
    }
  }
}
