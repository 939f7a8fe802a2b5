/** The data directory: the file operations the engine uses, with a ghost account of what is
    durable and of every state the directory has gone through. */
module Directory {
  import opened Bytes
  import opened FileNames
  import opened Segments
  import opened Crash

  class DataDir {
    var files: Files
    /** How many bytes of each file a sync has made durable. */
    ghost var synced: map<nat, nat>
    /** The directory after each operation so far, oldest first. */
    ghost var trace: seq<Snapshot>

    constructor ()
      ensures files == map[] && synced == map[] && trace == []
    {
      files, synced, trace := map[], map[], [];
    }

    /** The directory a process finds after a crash: what is there is on disk. */
    constructor Surviving(img: Files)
      ensures files == img && Settled() && trace == [Now()]
    {
      files, synced, trace := img, FullySynced(img), [Snapshot(img, FullySynced(img))];
    }

    ghost function Now(): Snapshot
      reads this
    {
      Snapshot(files, synced)
    }

    /** Everything written is on disk, and the trace, once begun, ends here. */
    ghost predicate Settled()
      reads this
    {
      synced == FullySynced(files) && (trace != [] ==> trace[|trace| - 1] == Now())
    }

    /** Creates a file or truncates it to nothing. */
    method Create(id: nat)
      modifies this
      ensures files == old(files)[id := []] && synced == old(synced)[id := 0]
      ensures trace == old(trace) + [Now()]
    {
      files, synced := files[id := []], synced[id := 0];
      trace := trace + [Snapshot(files, synced)];
    }

    method Write(id: nat, data: Bytes)
      requires id in files
      modifies this
      ensures files == old(files)[id := old(files)[id] + data] && synced == old(synced)
      ensures trace == old(trace) + [Now()]
    {
      files := files[id := files[id] + data];
      trace := trace + [Snapshot(files, synced)];
    }

    method Sync(id: nat)
      requires id in files
      modifies this
      ensures files == old(files) && synced == old(synced)[id := |files[id]|]
      ensures trace == old(trace) + [Now()]
    {
      synced := synced[id := |files[id]|];
      trace := trace + [Snapshot(files, synced)];
    }

    method Remove(id: nat)
      modifies this
      ensures files == old(files) - {id} && synced == old(synced) - {id}
      ensures trace == old(trace) + [Now()]
    {
      files, synced := files - {id}, synced - {id};
      trace := trace + [Snapshot(files, synced)];
    }

    /** The data files, sorted by name. */
    method ReadDir() returns (entries: seq<nat>)
      ensures entries == Listing(files.Keys)
    {
      entries := [];
      var rest := files.Keys;
      while rest != {}
        invariant forall i, j :: 0 <= i < j < |entries| ==> NameLess(entries[i], entries[j])
        invariant forall i, x :: 0 <= i < |entries| && x in rest ==> NameLess(entries[i], x)
        invariant forall x :: x in files.Keys <==> x in entries || x in rest
        decreases |rest|
      {
        ghost var f := FirstByName(rest);
        var first :| first in rest && forall y :: y in rest && y != first ==> NameLess(first, y);
        entries, rest := entries + [first], rest - {first};
      }
      ListingUnique(entries, Listing(files.Keys), files.Keys);
    }
  }
}
