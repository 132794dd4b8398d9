/**
 * Phase two of the repair script, `fix_corrupt_images`: for each partition not
 * yet fixed, download its archive, copy every listed file out of it over the
 * corrupt copy, and only when all of that succeeded delete the archive, set
 * `fixed` and rewrite the checkpoint. Any failure leaves the partition unfixed
 * and moves on to the next one.
 */
module Repair {
  import opened Wrappers
  import opened PathNames
  import opened ArchiveNames
  import opened Corruption
  import opened Storage
  import opened SeqFacts

  /** What the downloader and `zipfile.ZipFile` make of a partition's URL: the
      download exits non-zero; it succeeds but the file is not a readable zip;
      or it yields an archive with these members. */
  datatype Fetched = FetchFailed | Unreadable | Zip(members: map<string, Bytes>)

  /** The result of the extraction loop: whether every entry was copied, and the files afterwards. */
  datatype Extraction = Extraction(ok: bool, files: map<string, Bytes>)

  /** The index and the host together, as the repair loop leaves them. */
  datatype Progress = Progress(index: Snapshot, world: World)

  /** An entry can be restored: its directory can be made and its path opened
      for writing, and the archive has a member of that name. */
  predicate Restorable(e: Entry, members: map<string, Bytes>, writable: string -> bool) {
    writable(e.fullPath) && e.filename in members
  }

  /** The `with zipfile.ZipFile(temp_zip)` block of `fix_corrupt_images`: copy
      each listed member over its full path, in order, stopping at the first
      entry that cannot be restored. */
  function WriteBack(files: map<string, Bytes>, images: seq<Entry>, members: map<string, Bytes>,
                     writable: string -> bool): Extraction
    decreases |images|
  {
    if images == [] then Extraction(true, files)
    else if !Restorable(images[0], members, writable) then Extraction(false, files)
    else WriteBack(files[images[0].fullPath := members[images[0].filename]], images[1..], members, writable)
  }

  /** A partition's repair succeeds: the archive downloaded, opened, and held
      every listed file, and every destination was writable. */
  predicate Succeeds(images: seq<Entry>, fetched: Fetched, writable: string -> bool) {
    fetched.Zip? && forall e :: e in images ==> Restorable(e, fetched.members, writable)
  }

  /** One iteration of `fix_corrupt_images`'s loop over the dict's items, for partition `p`. */
  function RepairPart(st: Progress, p: nat, fetch: string -> Fetched, writable: string -> bool): (r: Progress)
    requires p in st.index.parts
    ensures r.index.order == st.index.order && r.index.parts.Keys == st.index.parts.Keys
    ensures forall q :: q in st.index.parts ==> r.index.parts[q].images == st.index.parts[q].images
  {
    var ix, w := st.index, st.world;
    if ix.parts[p].fixed then st
    else
      var url, tmp := ArchiveUrl(p), TempPath(p);
      var w1 := w.(fetchLog := w.fetchLog + [url]);
      match fetch(url)
      case FetchFailed => Progress(ix, w1)
      case Unreadable => Progress(ix, w1.(scratch := w1.scratch + {tmp}))
      case Zip(members) =>
        var x := WriteBack(w.files, ix.parts[p].images, members, writable);
        if !x.ok then Progress(ix, w1.(files := x.files, scratch := w1.scratch + {tmp}))
        else
          var ix' := SetFixed(ix, p);
          Progress(ix', w1.(files := x.files, scratch := w1.scratch - {tmp}, checkpoint := Some(ix')))
  }

  predicate AllKeys(ix: Snapshot, ks: seq<nat>) {
    forall i :: 0 <= i < |ks| ==> ks[i] in ix.parts
  }

  /** `fix_corrupt_images`'s loop over the dict's items, visiting the keys `ks` in order. */
  function RepairFrom(st: Progress, ks: seq<nat>, fetch: string -> Fetched, writable: string -> bool): (r: Progress)
    requires AllKeys(st.index, ks)
    ensures r.index.order == st.index.order && r.index.parts.Keys == st.index.parts.Keys
    ensures forall q :: q in st.index.parts ==> r.index.parts[q].images == st.index.parts[q].images
    decreases |ks|
  {
    if ks == [] then st
    else RepairFrom(RepairPart(st, ks[0], fetch, writable), ks[1..], fetch, writable)
  }

  /** One step of the loop: repair the first key, then the rest. */
  lemma RepairFromStep(st: Progress, ks: seq<nat>, fetch: string -> Fetched, writable: string -> bool)
    requires AllKeys(st.index, ks) && ks != []
    ensures AllKeys(RepairPart(st, ks[0], fetch, writable).index, ks[1..])
    ensures RepairFrom(st, ks, fetch, writable) == RepairFrom(RepairPart(st, ks[0], fetch, writable), ks[1..], fetch, writable)
  {
  }

  /** The extraction succeeds exactly when every entry can be restored. */
  lemma {:induction false} WriteBackOkIff(files: map<string, Bytes>, images: seq<Entry>, members: map<string, Bytes>,
                                          writable: string -> bool)
    ensures WriteBack(files, images, members, writable).ok <==> forall e :: e in images ==> Restorable(e, members, writable)
    decreases |images|
  {
    if images != [] && Restorable(images[0], members, writable) {
      var e := images[0];
      WriteBackOkIff(files[e.fullPath := members[e.filename]], images[1..], members, writable);
      assert forall x :: x in images <==> x == e || x in images[1..];
    }
  }

  predicate Untouched(path: string, images: seq<Entry>) {
    forall i :: 0 <= i < |images| ==> images[i].fullPath != path
  }

  /** Whatever happens, the extraction touches no file outside the listed paths. */
  lemma {:induction false} WriteBackFrame(files: map<string, Bytes>, images: seq<Entry>, members: map<string, Bytes>,
                                          writable: string -> bool, path: string)
    requires Untouched(path, images)
    ensures path in WriteBack(files, images, members, writable).files <==> path in files
    ensures path in files ==> WriteBack(files, images, members, writable).files[path] == files[path]
    decreases |images|
  {
    if images != [] && Restorable(images[0], members, writable) {
      var e := images[0];
      assert forall i :: 0 <= i < |images| - 1 ==> images[1..][i] == images[i + 1];
      WriteBackFrame(files[e.fullPath := members[e.filename]], images[1..], members, writable, path);
    }
  }

  /** A failed extraction: entries before the first one that cannot be restored
      are written, in order, and nothing from that entry on is. */
  lemma {:induction false} WriteBackStopsAt(files: map<string, Bytes>, images: seq<Entry>, members: map<string, Bytes>,
                                            writable: string -> bool, k: nat)
    requires k < |images| && !Restorable(images[k], members, writable)
    requires forall i :: 0 <= i < k ==> Restorable(images[i], members, writable)
    ensures WriteBack(files, images, members, writable) == Extraction(false, WriteBack(files, images[..k], members, writable).files)
    decreases k
  {
    if k > 0 {
      var e := images[0];
      var files' := files[e.fullPath := members[e.filename]];
      assert images[..k][1..] == images[1..][..k - 1];
      WriteBackStopsAt(files', images[1..], members, writable, k - 1);
    }
  }

  /** Entries that share a full path share a file name (true of scanned entries,
      whose file name is the path's base name). */
  predicate NamesAgree(images: seq<Entry>) {
    forall i, j :: 0 <= i < |images| && 0 <= j < |images| && images[i].fullPath == images[j].fullPath ==>
      images[i].filename == images[j].filename
  }

  /** A successful extraction leaves every listed path holding the archive member of its name. */
  lemma {:induction false} WriteBackRestores(files: map<string, Bytes>, images: seq<Entry>, members: map<string, Bytes>,
                                             writable: string -> bool)
    requires NamesAgree(images)
    requires WriteBack(files, images, members, writable).ok
    ensures forall e :: e in images ==>
      && Restorable(e, members, writable)
      && e.fullPath in WriteBack(files, images, members, writable).files
      && WriteBack(files, images, members, writable).files[e.fullPath] == members[e.filename]
    decreases |images|
  {
    WriteBackOkIff(files, images, members, writable);
    if images != [] {
      var e, rest := images[0], images[1..];
      var files' := files[e.fullPath := members[e.filename]];
      assert forall i :: 0 <= i < |rest| ==> rest[i] == images[i + 1];
      assert NamesAgree(rest);
      WriteBackRestores(files', rest, members, writable);
      var r := WriteBack(files, images, members, writable).files;
      if Untouched(e.fullPath, rest) {
        WriteBackFrame(files', rest, members, writable, e.fullPath);
      } else {
        var i :| 0 <= i < |rest| && rest[i].fullPath == e.fullPath;
        assert images[i + 1] == rest[i];
      }
      assert forall x :: x in images ==> x == e || x in rest;
    }
  }

  /** A partition already fixed is skipped: its attempt downloads nothing and
      changes neither the index, the files, the scratch directory nor the checkpoint. */
  lemma RepairPartSkips(st: Progress, p: nat, fetch: string -> Fetched, writable: string -> bool)
    requires p in st.index.parts && st.index.parts[p].fixed
    ensures RepairPart(st, p, fetch, writable) == st
  {
  }

  /** One step fixes partition `p` exactly when its repair succeeds, and no other flag moves. */
  lemma RepairPartFixed(st: Progress, p: nat, q: nat, fetch: string -> Fetched, writable: string -> bool)
    requires p in st.index.parts && q in st.index.parts
    ensures RepairPart(st, p, fetch, writable).index.parts[q].fixed <==>
      st.index.parts[q].fixed || (q == p && Succeeds(st.index.parts[p].images, fetch(ArchiveUrl(p)), writable))
  {
    var fetched := fetch(ArchiveUrl(p));
    if !st.index.parts[p].fixed && fetched.Zip? {
      WriteBackOkIff(st.world.files, st.index.parts[p].images, fetched.members, writable);
    }
  }

  /** After the loop over `ks`, a partition is fixed exactly when it was fixed
      before, or it is one of `ks` and its repair succeeds: `fixed` only moves
      from false to true, and only on full success. */
  lemma {:induction false} RepairFixedIff(st: Progress, ks: seq<nat>, q: nat, fetch: string -> Fetched, writable: string -> bool)
    requires AllKeys(st.index, ks) && q in st.index.parts
    ensures RepairFrom(st, ks, fetch, writable).index.parts[q].fixed <==>
      st.index.parts[q].fixed || (q in ks && Succeeds(st.index.parts[q].images, fetch(ArchiveUrl(q)), writable))
    decreases |ks|
  {
    if ks != [] {
      var st' := RepairPart(st, ks[0], fetch, writable);
      RepairPartFixed(st, ks[0], q, fetch, writable);
      RepairFixedIff(st', ks[1..], q, fetch, writable);
      assert q in ks <==> q == ks[0] || q in ks[1..];
    }
  }

  /** The repair leaves the key order, the key set and every `images` list as
      they were, and never clears a `fixed` flag. */
  lemma RepairOnlySetsFlags(st: Progress, ks: seq<nat>, fetch: string -> Fetched, writable: string -> bool)
    requires AllKeys(st.index, ks)
    ensures RepairFrom(st, ks, fetch, writable).index.order == st.index.order
    ensures RepairFrom(st, ks, fetch, writable).index.parts.Keys == st.index.parts.Keys
    ensures forall q :: q in st.index.parts ==>
      && RepairFrom(st, ks, fetch, writable).index.parts[q].images == st.index.parts[q].images
      && (st.index.parts[q].fixed ==> RepairFrom(st, ks, fetch, writable).index.parts[q].fixed)
  {
    forall q | q in st.index.parts
      ensures st.index.parts[q].fixed ==> RepairFrom(st, ks, fetch, writable).index.parts[q].fixed
    {
      RepairFixedIff(st, ks, q, fetch, writable);
    }
  }

  /** The URLs the loop hands to the downloader: one per key not yet fixed, in key order. */
  function PendingUrls(ix: Snapshot, ks: seq<nat>): seq<string>
    requires AllKeys(ix, ks)
  {
    if ks == [] then []
    else (if ix.parts[ks[0]].fixed then [] else [ArchiveUrl(ks[0])]) + PendingUrls(ix, ks[1..])
  }

  lemma {:induction false} PendingUrlsFrame(a: Snapshot, b: Snapshot, ks: seq<nat>)
    requires AllKeys(a, ks) && AllKeys(b, ks)
    requires forall i :: 0 <= i < |ks| ==> a.parts[ks[i]].fixed == b.parts[ks[i]].fixed
    ensures PendingUrls(a, ks) == PendingUrls(b, ks)
    decreases |ks|
  {
    if ks != [] {
      PendingUrlsFrame(a, b, ks[1..]);
    }
  }

  /** Over distinct keys, the downloader is called exactly for the partitions
      not already fixed, once each, in key order. */
  lemma {:induction false} RepairFetchLog(st: Progress, ks: seq<nat>, fetch: string -> Fetched, writable: string -> bool)
    requires AllKeys(st.index, ks) && Distinct(ks)
    ensures RepairFrom(st, ks, fetch, writable).world.fetchLog == st.world.fetchLog + PendingUrls(st.index, ks)
    decreases |ks|
  {
    if ks != [] {
      var p := ks[0];
      var st' := RepairPart(st, p, fetch, writable);
      forall i | 0 <= i < |ks[1..]| ensures st.index.parts[ks[1..][i]].fixed == st'.index.parts[ks[1..][i]].fixed {
        assert ks[1..][i] == ks[i + 1] != p;
        RepairPartFixed(st, p, ks[i + 1], fetch, writable);
      }
      PendingUrlsFrame(st.index, st'.index, ks[1..]);
      RepairFetchLog(st', ks[1..], fetch, writable);
      var here := if st.index.parts[p].fixed then [] else [ArchiveUrl(p)];
      assert st'.world.fetchLog == st.world.fetchLog + here;
      Regroup(RepairFrom(st, ks, fetch, writable).world.fetchLog, st'.world.fetchLog, st.world.fetchLog,
              here, PendingUrls(st.index, ks[1..]));
    }
  }

  /** A partition already fixed is never downloaded again; every other one in
      `ks` is. */
  lemma {:induction false} PendingUrlsSkipFixed(ix: Snapshot, ks: seq<nat>, q: nat)
    requires AllKeys(ix, ks) && q in ks
    ensures ArchiveUrl(q) in PendingUrls(ix, ks) <==> !ix.parts[q].fixed
    decreases |ks|
  {
    var p := ks[0];
    if p != q {
      ArchiveNameInjective(p, q);
      PendingUrlsSkipFixed(ix, ks[1..], q);
    } else if q in ks[1..] {
      PendingUrlsSkipFixed(ix, ks[1..], q);
    } else {
      PendingUrlsAvoid(ix, ks[1..], q);
    }
  }

  lemma {:induction false} PendingUrlsAvoid(ix: Snapshot, ks: seq<nat>, q: nat)
    requires AllKeys(ix, ks) && q !in ks
    ensures ArchiveUrl(q) !in PendingUrls(ix, ks)
    decreases |ks|
  {
    if ks != [] {
      ArchiveNameInjective(ks[0], q);
      PendingUrlsAvoid(ix, ks[1..], q);
    }
  }

  /** The partitions whose flag went from false to true between two indexes. */
  function NewlyFixed(a: Snapshot, b: Snapshot): set<nat> {
    set q | q in a.parts && q in b.parts && !a.parts[q].fixed && b.parts[q].fixed
  }

  /** A step either leaves index and checkpoint alone, or fixes exactly its own
      partition and saves the new index as the checkpoint. */
  lemma RepairPartCheckpoint(st: Progress, p: nat, fetch: string -> Fetched, writable: string -> bool)
    requires p in st.index.parts
    ensures RepairPart(st, p, fetch, writable).index == st.index ==>
      RepairPart(st, p, fetch, writable).world.checkpoint == st.world.checkpoint
    ensures RepairPart(st, p, fetch, writable).index != st.index ==>
      && RepairPart(st, p, fetch, writable).world.checkpoint == Some(RepairPart(st, p, fetch, writable).index)
      && p in NewlyFixed(st.index, RepairPart(st, p, fetch, writable).index)
  {
  }

  /** After the loop, the checkpoint holds the final index if any partition was
      fixed in this run; otherwise neither the index nor the checkpoint changed.
      (The code saves only after a success, never after a failure.) */
  lemma {:induction false} RepairCheckpoint(st: Progress, ks: seq<nat>, fetch: string -> Fetched, writable: string -> bool)
    requires AllKeys(st.index, ks)
    ensures NewlyFixed(st.index, RepairFrom(st, ks, fetch, writable).index) != {} ==>
      RepairFrom(st, ks, fetch, writable).world.checkpoint == Some(RepairFrom(st, ks, fetch, writable).index)
    ensures NewlyFixed(st.index, RepairFrom(st, ks, fetch, writable).index) == {} ==>
      && RepairFrom(st, ks, fetch, writable).world.checkpoint == st.world.checkpoint
      && RepairFrom(st, ks, fetch, writable).index == st.index
    decreases |ks|
  {
    if ks != [] {
      var p := ks[0];
      var st' := RepairPart(st, p, fetch, writable);
      var r := RepairFrom(st, ks, fetch, writable);
      assert r == RepairFrom(st', ks[1..], fetch, writable);
      RepairPartCheckpoint(st, p, fetch, writable);
      RepairCheckpoint(st', ks[1..], fetch, writable);
      if st'.index != st.index {
        RepairFixedIff(st', ks[1..], p, fetch, writable);
        assert p in NewlyFixed(st.index, r.index);
      }
    }
  }

  /** A path listed by no partition that is still unfixed keeps its contents. */
  lemma {:induction false} RepairFilesFrame(st: Progress, ks: seq<nat>, path: string, fetch: string -> Fetched, writable: string -> bool)
    requires AllKeys(st.index, ks)
    requires forall i :: 0 <= i < |ks| ==> st.index.parts[ks[i]].fixed || Untouched(path, st.index.parts[ks[i]].images)
    ensures path in RepairFrom(st, ks, fetch, writable).world.files <==> path in st.world.files
    ensures path in st.world.files ==> RepairFrom(st, ks, fetch, writable).world.files[path] == st.world.files[path]
    decreases |ks|
  {
    if ks != [] {
      var p := ks[0];
      var st' := RepairPart(st, p, fetch, writable);
      var fetched := fetch(ArchiveUrl(p));
      if !st.index.parts[p].fixed && fetched.Zip? {
        WriteBackFrame(st.world.files, st.index.parts[p].images, fetched.members, writable, path);
      }
      forall i | 0 <= i < |ks[1..]|
        ensures st'.index.parts[ks[1..][i]].fixed || Untouched(path, st'.index.parts[ks[1..][i]].images)
      {
        assert ks[1..][i] == ks[i + 1];
        RepairPartFixed(st, p, ks[i + 1], fetch, writable);
      }
      RepairFilesFrame(st', ks[1..], path, fetch, writable);
    }
  }

  lemma CoherentNamesAgree(ix: Snapshot, q: nat)
    requires Coherent(ix) && q in ix.parts
    ensures NamesAgree(ix.parts[q].images)
  {
    var images := ix.parts[q].images;
    forall i, j | 0 <= i < |images| && 0 <= j < |images| && images[i].fullPath == images[j].fullPath
      ensures images[i].filename == images[j].filename
    {
      assert images[i] in images && images[j] in images;
    }
  }

  lemma CoherentKept(a: Snapshot, b: Snapshot)
    requires Coherent(a)
    requires b.parts.Keys == a.parts.Keys
    requires forall q :: q in a.parts ==> b.parts[q].images == a.parts[q].images
    ensures Coherent(b)
  {
  }

  /** Every partition fixed in this run was restored from its own archive:
      each listed path holds the archive member of its name when the loop ends
      (no other partition lists the same path, so nothing later overwrites it). */
  lemma {:induction false} RepairRestores(st: Progress, ks: seq<nat>, q: nat, fetch: string -> Fetched, writable: string -> bool)
    requires AllKeys(st.index, ks) && Distinct(ks) && Coherent(st.index)
    requires q in st.index.parts && q in NewlyFixed(st.index, RepairFrom(st, ks, fetch, writable).index)
    ensures fetch(ArchiveUrl(q)).Zip?
    ensures forall e :: e in st.index.parts[q].images ==>
      && e.filename in fetch(ArchiveUrl(q)).members
      && e.fullPath in RepairFrom(st, ks, fetch, writable).world.files
      && RepairFrom(st, ks, fetch, writable).world.files[e.fullPath] == fetch(ArchiveUrl(q)).members[e.filename]
    decreases |ks|
  {
    var r := RepairFrom(st, ks, fetch, writable);
    RepairFixedIff(st, ks, q, fetch, writable);
    assert ks != [];
    var p := ks[0];
    var st' := RepairPart(st, p, fetch, writable);
    assert r == RepairFrom(st', ks[1..], fetch, writable);
    RepairPartFixed(st, p, q, fetch, writable);
    CoherentKept(st.index, st'.index);
    var images := st.index.parts[q].images;
    if p == q {
      RepairPartRestores(st, q, fetch, writable);
      forall e | e in images
        ensures e.fullPath in r.world.files && r.world.files[e.fullPath] == fetch(ArchiveUrl(q)).members[e.filename]
      {
        LaterStepsKeep(st', ks[1..], q, e, fetch, writable);
      }
    } else {
      assert q in NewlyFixed(st'.index, r.index);
      RepairRestores(st', ks[1..], q, fetch, writable);
    }
  }

  /** The step that fixes `q` leaves each of its listed paths holding the archive member of its name. */
  lemma RepairPartRestores(st: Progress, q: nat, fetch: string -> Fetched, writable: string -> bool)
    requires Coherent(st.index) && q in st.index.parts
    requires !st.index.parts[q].fixed && RepairPart(st, q, fetch, writable).index.parts[q].fixed
    ensures fetch(ArchiveUrl(q)).Zip?
    ensures forall e :: e in st.index.parts[q].images ==>
      && e.filename in fetch(ArchiveUrl(q)).members
      && e.fullPath in RepairPart(st, q, fetch, writable).world.files
      && RepairPart(st, q, fetch, writable).world.files[e.fullPath] == fetch(ArchiveUrl(q)).members[e.filename]
  {
    var images, members := st.index.parts[q].images, fetch(ArchiveUrl(q)).members;
    WriteBackOkIff(st.world.files, images, members, writable);
    CoherentNamesAgree(st.index, q);
    WriteBackRestores(st.world.files, images, members, writable);
  }

  /** Steps for other partitions of a coherent index leave `q`'s listed paths alone. */
  lemma LaterStepsKeep(st: Progress, ks: seq<nat>, q: nat, e: Entry, fetch: string -> Fetched, writable: string -> bool)
    requires AllKeys(st.index, ks) && Coherent(st.index) && q in st.index.parts && q !in ks
    requires e in st.index.parts[q].images
    ensures e.fullPath in RepairFrom(st, ks, fetch, writable).world.files <==> e.fullPath in st.world.files
    ensures e.fullPath in st.world.files ==> RepairFrom(st, ks, fetch, writable).world.files[e.fullPath] == st.world.files[e.fullPath]
  {
    forall i | 0 <= i < |ks|
      ensures st.index.parts[ks[i]].fixed || Untouched(e.fullPath, st.index.parts[ks[i]].images)
    {
      var k := ks[i];
      forall j | 0 <= j < |st.index.parts[k].images| ensures st.index.parts[k].images[j].fullPath != e.fullPath {
        assert st.index.parts[k].images[j] in st.index.parts[k].images;
      }
    }
    RepairFilesFrame(st, ks, e.fullPath, fetch, writable);
  }

  /** The loop only adds or removes the scratch archives of the partitions it visits. */
  lemma {:induction false} RepairScratchFrame(st: Progress, ks: seq<nat>, name: string, fetch: string -> Fetched, writable: string -> bool)
    requires AllKeys(st.index, ks)
    requires forall i :: 0 <= i < |ks| ==> TempPath(ks[i]) != name
    ensures name in RepairFrom(st, ks, fetch, writable).world.scratch <==> name in st.world.scratch
    decreases |ks|
  {
    if ks != [] {
      RepairScratchFrame(RepairPart(st, ks[0], fetch, writable), ks[1..], name, fetch, writable);
    }
  }

  /** Over distinct keys, the archive of every partition fixed in this run is
      gone from the scratch directory when the loop ends. */
  lemma {:induction false} RepairRemovesArchive(st: Progress, ks: seq<nat>, q: nat, fetch: string -> Fetched, writable: string -> bool)
    requires AllKeys(st.index, ks) && Distinct(ks)
    requires q in st.index.parts && q in NewlyFixed(st.index, RepairFrom(st, ks, fetch, writable).index)
    ensures TempPath(q) !in RepairFrom(st, ks, fetch, writable).world.scratch
    decreases |ks|
  {
    var r := RepairFrom(st, ks, fetch, writable);
    RepairFixedIff(st, ks, q, fetch, writable);
    var p := ks[0];
    var st' := RepairPart(st, p, fetch, writable);
    assert r == RepairFrom(st', ks[1..], fetch, writable);
    RepairPartFixed(st, p, q, fetch, writable);
    if p == q {
      var fetched := fetch(ArchiveUrl(q));
      WriteBackOkIff(st.world.files, st.index.parts[q].images, fetched.members, writable);
      forall i | 0 <= i < |ks[1..]| ensures TempPath(ks[1..][i]) != TempPath(q) {
        assert ks[1..][i] == ks[i + 1] != q;
        ArchiveNameInjective(ks[i + 1], q);
      }
      RepairScratchFrame(st', ks[1..], TempPath(q), fetch, writable);
    } else {
      assert q in NewlyFixed(st'.index, r.index);
      RepairRemovesArchive(st', ks[1..], q, fetch, writable);
    }
  }

  /** Splitting the loop: running it over `a` and then, from where it stopped,
      over `b` ends exactly where one uninterrupted run over `a + b` ends. */
  lemma {:induction false} RepairFromConcat(st: Progress, a: seq<nat>, b: seq<nat>, fetch: string -> Fetched, writable: string -> bool)
    requires AllKeys(st.index, a + b)
    ensures AllKeys(st.index, a) && AllKeys(RepairFrom(st, a, fetch, writable).index, b)
    ensures RepairFrom(st, a + b, fetch, writable) == RepairFrom(RepairFrom(st, a, fetch, writable), b, fetch, writable)
    decreases |a|
  {
    assert forall i :: 0 <= i < |a| ==> a[i] == (a + b)[i];
    assert forall i :: 0 <= i < |b| ==> b[i] == (a + b)[|a| + i];
    if a == [] {
      assert a + b == b;
    } else {
      assert (a + b)[0] == a[0] && (a + b)[1..] == a[1..] + b;
      RepairFromStep(st, a + b, fetch, writable);
      RepairFromConcat(RepairPart(st, a[0], fetch, writable), a[1..], b, fetch, writable);
    }
  }

  /** A second run with the same downloads and the same writable paths leaves
      the index as the first run left it: what was fixed is skipped, and what
      failed fails again with its `images` list unchanged, not duplicated. */
  lemma RerunStable(st: Progress, ks: seq<nat>, fetch: string -> Fetched, writable: string -> bool)
    requires AllKeys(st.index, ks)
    ensures AllKeys(RepairFrom(st, ks, fetch, writable).index, ks)
    ensures RepairFrom(RepairFrom(st, ks, fetch, writable), ks, fetch, writable).index == RepairFrom(st, ks, fetch, writable).index
  {
    var once := RepairFrom(st, ks, fetch, writable);
    var twice := RepairFrom(once, ks, fetch, writable);
    RepairOnlySetsFlags(st, ks, fetch, writable);
    RepairOnlySetsFlags(once, ks, fetch, writable);
    forall q | q in twice.index.parts
      ensures twice.index.parts[q] == once.index.parts[q]
    {
      RepairFixedIff(st, ks, q, fetch, writable);
      RepairFixedIff(once, ks, q, fetch, writable);
    }
    assert twice.index.parts == once.index.parts;
  }

  /** A rerun after an interruption: the script reloads the index saved so far
      (whatever the host now holds) and loops over every key again from the
      first. It ends with the same index as a run that was never interrupted:
      partitions fixed before the interruption are skipped, and those that
      failed are tried again and fail again. */
  lemma RepairResume(st: Progress, a: seq<nat>, b: seq<nat>, w: World, fetch: string -> Fetched, writable: string -> bool)
    requires AllKeys(st.index, a + b)
    ensures AllKeys(st.index, a) && AllKeys(RepairFrom(st, a, fetch, writable).index, a + b)
    ensures RepairFrom(Progress(RepairFrom(st, a, fetch, writable).index, w), a + b, fetch, writable).index
         == RepairFrom(st, a + b, fetch, writable).index
  {
    assert forall i :: 0 <= i < |a| ==> a[i] == (a + b)[i];
    var mid := RepairFrom(st, a, fetch, writable).index;
    var again := RepairFrom(Progress(mid, w), a + b, fetch, writable).index;
    var once := RepairFrom(st, a + b, fetch, writable).index;
    RepairOnlySetsFlags(st, a, fetch, writable);
    RepairOnlySetsFlags(Progress(mid, w), a + b, fetch, writable);
    RepairOnlySetsFlags(st, a + b, fetch, writable);
    forall q | q in once.parts
      ensures again.parts[q] == once.parts[q]
    {
      RepairFixedIff(st, a, q, fetch, writable);
      RepairFixedIff(Progress(mid, w), a + b, q, fetch, writable);
      RepairFixedIff(st, a + b, q, fetch, writable);
      assert q in a ==> q in a + b;
    }
    assert again.parts == once.parts;
  }
}
