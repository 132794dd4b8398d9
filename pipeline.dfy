/**
 * The two entry points of the repair script as they act on the host: the scan
 * with its checkpoint short-circuit, the repair loop that updates the index in
 * place, and the script's main sequence that runs one after the other.
 */
module Pipeline {
  import opened Wrappers
  import opened PathNames
  import opened ArchiveNames
  import opened Corruption
  import opened Storage
  import opened Scan
  import opened Repair

  /** `check_corrupt_images`: an existing checkpoint is returned as it is, with
      nothing scanned and nothing written; otherwise the manifest is scanned and
      a successful result is saved as the checkpoint before it is returned. An
      unrecognised verification error escapes, and no checkpoint is written. */
  method CheckCorruptImages(host: Host, baseDir: string, items: seq<Item>, verify: string -> Verdict, rows: seq<Row>)
    returns (r: Result<Snapshot, ScanError>)
    requires host.checkpoint.Some? ==> WellFormed(host.checkpoint.value)
    modifies host
    ensures r.Ok? ==> WellFormed(r.value)
    ensures old(host.checkpoint).Some? ==> r == Ok(old(host.checkpoint).value) && host.State() == old(host.State())
    ensures old(host.checkpoint).None? ==> r == ScanPaths(FullPaths(baseDir, items), verify, rows)
    ensures old(host.checkpoint).None? && r.Ok? ==> host.State() == old(host.State()).(checkpoint := Some(r.value))
    ensures old(host.checkpoint).None? && r.Err? ==> host.State() == old(host.State())
  {
    if host.checkpoint.Some? {
      return Ok(host.checkpoint.value);
    }
    r := ScanManifest(baseDir, items, verify, rows);
    if r.Ok? {
      host.SaveCheckpoint(r.value);
    }
  }

  /** Running the scan phase a second time without deleting the checkpoint
      returns what the first run returned, and the checkpoint then holds it. */
  method CheckCorruptImagesTwice(host: Host, baseDir: string, items: seq<Item>, verify: string -> Verdict, rows: seq<Row>)
    returns (first: Result<Snapshot, ScanError>, second: Result<Snapshot, ScanError>)
    requires host.checkpoint.Some? ==> WellFormed(host.checkpoint.value)
    modifies host
    ensures first.Ok? ==> second == first && host.checkpoint == Some(first.value)
  {
    first := CheckCorruptImages(host, baseDir, items, verify, rows);
    second := CheckCorruptImages(host, baseDir, items, verify, rows);
  }

  /** The body of `fix_corrupt_images`'s loop over the dict's items, for partition `p`. */
  method RepairPartition(index: CorruptionIndex, host: Host, p: nat, fetch: string -> Fetched, writable: string -> bool)
    requires index.Valid() && p in index.parts
    modifies index, host
    ensures index.Valid()
    ensures Progress(index.Value(), host.State()) == RepairPart(Progress(old(index.Value()), old(host.State())), p, fetch, writable)
  {
    if index.parts[p].fixed {
      return;
    }
    var url, tmp := ArchiveUrl(p), TempPath(p);
    var fetched := fetch(url);
    host.Download(url, tmp, !fetched.FetchFailed?);
    if !fetched.Zip? {
      return;
    }
    var members := fetched.members;
    var images := index.parts[p].images;
    ghost var files0 := old(host.files);
    ghost var afterDownload := host.State();
    var ok := true;
    var j := 0;
    while j < |images| && ok
      invariant 0 <= j <= |images|
      invariant host.State() == afterDownload.(files := host.files)
      invariant index.Value() == old(index.Value())
      invariant ok ==> WriteBack(host.files, images[j..], members, writable) == WriteBack(files0, images, members, writable)
      invariant !ok ==> Extraction(false, host.files) == WriteBack(files0, images, members, writable)
      decreases |images| - j, ok
    {
      var e := images[j];
      if !writable(e.fullPath) || e.filename !in members {
        ok := false;
      } else {
        host.WriteFile(e.fullPath, members[e.filename]);
        assert images[j..][1..] == images[j + 1..];
        j := j + 1;
      }
    }
    if !ok {
      return;
    }
    host.RemoveScratch(tmp);
    index.MarkFixed(p);
    host.SaveCheckpoint(index.Value());
  }

  /** `fix_corrupt_images`: visits the partitions in insertion order and
      updates the index and the host as RepairFrom describes; returns the same
      index object. */
  method FixCorruptImages(index: CorruptionIndex, host: Host, fetch: string -> Fetched, writable: string -> bool)
    returns (r: CorruptionIndex)
    requires index.Valid()
    modifies index, host
    ensures r == index && index.Valid()
    ensures Progress(index.Value(), host.State()) ==
      RepairFrom(Progress(old(index.Value()), old(host.State())), old(index.order), fetch, writable)
  {
    ghost var keys := index.order;
    ghost var goal := RepairFrom(Progress(index.Value(), host.State()), keys, fetch, writable);
    for i := 0 to |index.order|
      invariant index.Valid() && index.order == keys
      invariant AllKeys(index.Value(), keys[i..])
      invariant RepairFrom(Progress(index.Value(), host.State()), keys[i..], fetch, writable) == goal
    {
      var p := index.order[i];
      assert keys[i..][0] == p && keys[i..][1..] == keys[i + 1..];
      RepairFromStep(Progress(index.Value(), host.State()), keys[i..], fetch, writable);
      RepairPartition(index, host, p, fetch, writable);
    }
    r := index;
  }

  /** The script's main block without its summary printout: scan (or load the
      checkpoint), then repair the resulting index in place. */
  method RunRepair(host: Host, baseDir: string, items: seq<Item>, verify: string -> Verdict, rows: seq<Row>,
                   fetch: string -> Fetched, writable: string -> bool)
    returns (r: Result<CorruptionIndex, ScanError>)
    requires host.checkpoint.Some? ==> WellFormed(host.checkpoint.value)
    modifies host
    ensures r.Ok? ==> fresh(r.value) && r.value.Valid()
    ensures old(host.checkpoint).Some? ==>
      && r.Ok?
      && Progress(r.value.Value(), host.State()) ==
         RepairFrom(Progress(old(host.checkpoint).value, old(host.State())), old(host.checkpoint).value.order, fetch, writable)
    ensures old(host.checkpoint).None? ==> (r.Err? <==> ScanPaths(FullPaths(baseDir, items), verify, rows).Err?)
    ensures old(host.checkpoint).None? && r.Err? ==> host.State() == old(host.State())
    ensures old(host.checkpoint).None? && r.Ok? ==>
      var s := ScanPaths(FullPaths(baseDir, items), verify, rows).value;
      Progress(r.value.Value(), host.State()) ==
        RepairFrom(Progress(s, old(host.State()).(checkpoint := Some(s))), s.order, fetch, writable)
  {
    var scanned := CheckCorruptImages(host, baseDir, items, verify, rows);
    if scanned.Err? {
      return Err(scanned.error);
    }
    var index := new CorruptionIndex(scanned.value);
    var fixed := FixCorruptImages(index, host, fetch, writable);
    return Ok(fixed);
  }
}
