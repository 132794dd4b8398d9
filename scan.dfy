/**
 * Phase one of the repair script, `check_corrupt_images`: verify every image
 * the manifest lists, resolve each corrupt one to the partition that owns it
 * through the metadata table, and group the corrupt files by partition.
 */
module Scan {
  import opened Wrappers
  import opened PathNames
  import opened Corruption
  import opened SeqFacts

  /** What `Image.open(p).verify()` does for one file: returns normally, raises
      one of IOError, SyntaxError, FileNotFoundError, or raises anything else. */
  datatype Verdict = Healthy | Recognised | Unrecognised

  /** One row of the metadata table: `image_name` and its `part_id`. */
  datatype Row = Row(imageName: string, partId: nat)

  /** One record of the evaluation manifest; only its `image_path` list is used. */
  datatype Item = Item(imagePath: seq<string>)

  /** The exception that escapes the scan: an unrecognised verification error. */
  datatype ScanError = UnrecognisedError(fullPath: string)

  /** `df[df['image_name'] == name]['part_id'].iloc[0]`: the partition of the
      first row with that name, or nothing when no row has it. */
  function Lookup(rows: seq<Row>, name: string): (r: Option<nat>)
    ensures r.None? <==> forall i :: 0 <= i < |rows| ==> rows[i].imageName != name
  {
    if rows == [] then None
    else if rows[0].imageName == name then Some(rows[0].partId)
    else Lookup(rows[1..], name)
  }

  /** A hit is the `part_id` of the first row carrying the name. */
  lemma {:induction false} LookupFirstMatch(rows: seq<Row>, name: string, i: nat)
    requires i < |rows| && rows[i].imageName == name
    requires forall j :: 0 <= j < i ==> rows[j].imageName != name
    ensures Lookup(rows, name) == Some(rows[i].partId)
  {
    if i > 0 {
      assert rows[1..][i - 1] == rows[i];
      LookupFirstMatch(rows[1..], name, i - 1);
    }
  }

  /** The manifest's image paths joined onto the dataset root, in manifest order. */
  function JoinAll(baseDir: string, ps: seq<string>): seq<string> {
    seq(|ps|, k requires 0 <= k < |ps| => Join(baseDir, ps[k]))
  }

  function FullPaths(baseDir: string, items: seq<Item>): seq<string> {
    if items == [] then [] else JoinAll(baseDir, items[0].imagePath) + FullPaths(baseDir, items[1..])
  }

  /** File `fp` is corrupt in a recognised way and its name resolves to partition `p`. */
  predicate Resolves(fp: string, p: nat, verify: string -> Verdict, rows: seq<Row>) {
    verify(fp) == Recognised && Lookup(rows, Name(fp)) == Some(p)
  }

  /** The effect of one iteration of the inner loop on the index. */
  function Visit(s: Snapshot, fp: string, verify: string -> Verdict, rows: seq<Row>): (r: Result<Snapshot, ScanError>)
    requires WellFormed(s)
    ensures r.Ok? ==> WellFormed(r.value)
  {
    match verify(fp)
    case Healthy => Ok(s)
    case Unrecognised => Err(UnrecognisedError(fp))
    case Recognised =>
      match Lookup(rows, Name(fp))
      case None => Ok(s)
      case Some(p) => Ok(Append(s, p, Entry(fp, Name(fp))))
  }

  /** Scanning the remaining `paths` starting from the index built so far. */
  function ScanFrom(s: Snapshot, paths: seq<string>, verify: string -> Verdict, rows: seq<Row>): (r: Result<Snapshot, ScanError>)
    requires WellFormed(s)
    ensures r.Ok? ==> WellFormed(r.value)
    decreases |paths|
  {
    if paths == [] then Ok(s)
    else
      match Visit(s, paths[0], verify, rows)
      case Err(e) => Err(e)
      case Ok(s') => ScanFrom(s', paths[1..], verify, rows)
  }

  /** The scan of a sequence of full paths, from an empty dict. */
  function ScanPaths(paths: seq<string>, verify: string -> Verdict, rows: seq<Row>): Result<Snapshot, ScanError> {
    ScanFrom(Empty, paths, verify, rows)
  }

  /** Reference definition: the entries partition `p` should hold, in manifest order. */
  function EntriesFor(paths: seq<string>, p: nat, verify: string -> Verdict, rows: seq<Row>): seq<Entry> {
    if paths == [] then []
    else (if Resolves(paths[0], p, verify, rows) then [Entry(paths[0], Name(paths[0]))] else [])
         + EntriesFor(paths[1..], p, verify, rows)
  }

  predicate NoUnrecognised(paths: seq<string>, verify: string -> Verdict) {
    forall i :: 0 <= i < |paths| ==> verify(paths[i]) != Unrecognised
  }

  /** Scanning fails exactly when some file raises an unrecognised error, and it
      reports the first such file. */
  lemma {:induction false} ScanFromFailsIff(s: Snapshot, paths: seq<string>, verify: string -> Verdict, rows: seq<Row>)
    requires WellFormed(s)
    ensures ScanFrom(s, paths, verify, rows).Ok? <==> NoUnrecognised(paths, verify)
    ensures ScanFrom(s, paths, verify, rows).Err? ==>
      exists i :: 0 <= i < |paths| && ScanFrom(s, paths, verify, rows).error == UnrecognisedError(paths[i])
               && verify(paths[i]) == Unrecognised && NoUnrecognised(paths[..i], verify)
    decreases |paths|
  {
    if paths != [] {
      var v := Visit(s, paths[0], verify, rows);
      if v.Err? {
        assert NoUnrecognised(paths[..0], verify);
      } else {
        var tail := paths[1..];
        ScanFromFailsIff(v.value, tail, verify, rows);
        assert forall i :: 0 <= i < |tail| ==> tail[i] == paths[i + 1];
        if ScanFrom(s, paths, verify, rows).Err? {
          var i :| 0 <= i < |tail| && ScanFrom(v.value, tail, verify, rows).error == UnrecognisedError(tail[i])
                   && verify(tail[i]) == Unrecognised && NoUnrecognised(tail[..i], verify);
          assert forall k :: 0 <= k < i + 1 ==> paths[..i + 1][k] == paths[k];
          assert forall k :: 1 <= k < i + 1 ==> paths[k] == tail[..i][k - 1];
        }
      }
    }
  }

  /** The scan fails exactly when some file raises an unrecognised error, and it
      reports the first such file; no index is produced then. */
  lemma ScanFailsIff(paths: seq<string>, verify: string -> Verdict, rows: seq<Row>)
    ensures ScanPaths(paths, verify, rows).Ok? <==> NoUnrecognised(paths, verify)
    ensures ScanPaths(paths, verify, rows).Err? ==>
      exists i :: 0 <= i < |paths| && ScanPaths(paths, verify, rows).error == UnrecognisedError(paths[i])
               && verify(paths[i]) == Unrecognised && NoUnrecognised(paths[..i], verify)
  {
    ScanFromFailsIff(Empty, paths, verify, rows);
  }

  /** The entries a partition holds, none when it is absent. */
  function ImagesOf(s: Snapshot, p: nat): seq<Entry> {
    if p in s.parts then s.parts[p].images else []
  }

  /** A partition's flag, false when it is absent. */
  predicate FixedOf(s: Snapshot, p: nat) {
    p in s.parts && s.parts[p].fixed
  }

  /** Scanning `paths` adds partition `p` to an index exactly when some file resolves to it. */
  lemma {:induction false} ScanFromKeys(s: Snapshot, paths: seq<string>, p: nat, verify: string -> Verdict, rows: seq<Row>, r: Snapshot)
    requires WellFormed(s)
    requires ScanFrom(s, paths, verify, rows) == Ok(r)
    ensures p in r.parts <==> p in s.parts || EntriesFor(paths, p, verify, rows) != []
    decreases |paths|
  {
    if paths == [] {
    } else {
      var v := Visit(s, paths[0], verify, rows);
      assert v.Ok? && ScanFrom(v.value, paths[1..], verify, rows) == Ok(r);
      var here := VisitGroups(s, paths[0], p, verify, rows);
      ScanFromKeys(v.value, paths[1..], p, verify, rows, r);
    }
  }

  /** What scanning `paths` adds to partition `p`: exactly the entries that
      resolve to it, appended after what it held. */
  lemma {:induction false} ScanFromImages(s: Snapshot, paths: seq<string>, p: nat, verify: string -> Verdict, rows: seq<Row>, r: Snapshot)
    requires WellFormed(s)
    requires ScanFrom(s, paths, verify, rows) == Ok(r)
    ensures ImagesOf(r, p) == ImagesOf(s, p) + EntriesFor(paths, p, verify, rows)
    decreases |paths|
  {
    if paths == [] {
      assert ImagesOf(s, p) + [] == ImagesOf(s, p);
    } else {
      var v := Visit(s, paths[0], verify, rows);
      assert v.Ok? && ScanFrom(v.value, paths[1..], verify, rows) == Ok(r);
      var here := VisitGroups(s, paths[0], p, verify, rows);
      ScanFromImages(v.value, paths[1..], p, verify, rows, r);
      Regroup(ImagesOf(r, p), ImagesOf(v.value, p), ImagesOf(s, p), here, EntriesFor(paths[1..], p, verify, rows));
    }
  }

  /** Scanning keeps the flag of a partition the index held, and a new
      partition starts unfixed. */
  lemma {:induction false} ScanFromFlag(s: Snapshot, paths: seq<string>, p: nat, verify: string -> Verdict, rows: seq<Row>, r: Snapshot)
    requires WellFormed(s)
    requires ScanFrom(s, paths, verify, rows) == Ok(r)
    ensures FixedOf(r, p) == FixedOf(s, p)
    decreases |paths|
  {
    if paths == [] {
    } else {
      var v := Visit(s, paths[0], verify, rows);
      assert v.Ok? && ScanFrom(v.value, paths[1..], verify, rows) == Ok(r);
      var here := VisitGroups(s, paths[0], p, verify, rows);
      ScanFromFlag(v.value, paths[1..], p, verify, rows, r);
    }
  }

  /** What one visit does to partition `p`: it gains the entry for `fp` exactly
      when `fp` resolves to `p`, and is otherwise unchanged. */
  lemma {:induction false} VisitGroups(s: Snapshot, fp: string, p: nat, verify: string -> Verdict, rows: seq<Row>)
    returns (here: seq<Entry>)
    requires WellFormed(s) && Visit(s, fp, verify, rows).Ok?
    ensures here == if Resolves(fp, p, verify, rows) then [Entry(fp, Name(fp))] else []
    ensures p in Visit(s, fp, verify, rows).value.parts <==> p in s.parts || here != []
    ensures ImagesOf(Visit(s, fp, verify, rows).value, p) == ImagesOf(s, p) + here
    ensures FixedOf(Visit(s, fp, verify, rows).value, p) == FixedOf(s, p)
  {
    here := if Resolves(fp, p, verify, rows) then [Entry(fp, Name(fp))] else [];
    if verify(fp) == Recognised && Lookup(rows, Name(fp)).Some? {
      var q := Lookup(rows, Name(fp)).value;
      if q != p {
        assert ImagesOf(s, p) + [] == ImagesOf(s, p);
      }
    } else {
      assert ImagesOf(s, p) + [] == ImagesOf(s, p);
    }
  }

  /** A successful scan holds exactly the partitions that some corrupt,
      resolvable file maps to; each one unfixed and listing exactly that
      partition's corrupt files, in manifest order. */
  lemma ScanGroups(paths: seq<string>, verify: string -> Verdict, rows: seq<Row>)
    requires ScanPaths(paths, verify, rows).Ok?
    ensures forall p :: p in ScanPaths(paths, verify, rows).value.parts <==> EntriesFor(paths, p, verify, rows) != []
    ensures forall p :: p in ScanPaths(paths, verify, rows).value.parts ==>
      ScanPaths(paths, verify, rows).value.parts[p] == PartState(EntriesFor(paths, p, verify, rows), false)
  {
    var r := ScanPaths(paths, verify, rows).value;
    forall p ensures p in r.parts <==> EntriesFor(paths, p, verify, rows) != []
      ensures p in r.parts ==> r.parts[p] == PartState(EntriesFor(paths, p, verify, rows), false)
    {
      ScanFromKeys(Empty, paths, p, verify, rows, r);
      ScanFromImages(Empty, paths, p, verify, rows, r);
      ScanFromFlag(Empty, paths, p, verify, rows, r);
      assert [] + EntriesFor(paths, p, verify, rows) == EntriesFor(paths, p, verify, rows);
    }
  }

  /** Every entry of `EntriesFor(paths, p)` is a listed, corrupt file whose name
      resolves to `p`, recorded under its own base name. */
  lemma {:induction false} EntriesForSound(paths: seq<string>, p: nat, verify: string -> Verdict, rows: seq<Row>)
    ensures forall e :: e in EntriesFor(paths, p, verify, rows) ==>
      e.fullPath in paths && e.filename == Name(e.fullPath) && Resolves(e.fullPath, p, verify, rows)
  {
    if paths != [] {
      EntriesForSound(paths[1..], p, verify, rows);
      assert forall x :: x in paths[1..] ==> x in paths;
    }
  }

  /** Every listed file that is corrupt and resolves to `p` has an entry in `EntriesFor(paths, p)`. */
  lemma {:induction false} EntriesForComplete(paths: seq<string>, p: nat, verify: string -> Verdict, rows: seq<Row>)
    ensures forall i :: 0 <= i < |paths| && Resolves(paths[i], p, verify, rows) ==>
      Entry(paths[i], Name(paths[i])) in EntriesFor(paths, p, verify, rows)
  {
    if paths != [] {
      EntriesForComplete(paths[1..], p, verify, rows);
      forall i | 1 <= i < |paths| && Resolves(paths[i], p, verify, rows)
        ensures Entry(paths[i], Name(paths[i])) in EntriesFor(paths, p, verify, rows)
      {
        assert paths[1..][i - 1] == paths[i];
      }
    }
  }

  /** A successful scan records only files that failed verification in a
      recognised way (never a healthy one) and whose name has a metadata match
      (never a resolver miss), each under the partition of its first matching
      row and under its own base name. */
  lemma {:induction false} ScanSound(paths: seq<string>, verify: string -> Verdict, rows: seq<Row>)
    requires ScanPaths(paths, verify, rows).Ok?
    ensures forall p, e :: p in ScanPaths(paths, verify, rows).value.parts && e in ScanPaths(paths, verify, rows).value.parts[p].images ==>
      e.fullPath in paths && e.filename == Name(e.fullPath) && verify(e.fullPath) == Recognised && Lookup(rows, e.filename) == Some(p)
  {
    var s := ScanPaths(paths, verify, rows).value;
    ScanGroups(paths, verify, rows);
    forall p, e | p in s.parts && e in s.parts[p].images
      ensures e.fullPath in paths && e.filename == Name(e.fullPath) && verify(e.fullPath) == Recognised && Lookup(rows, e.filename) == Some(p)
    {
      EntriesForSound(paths, p, verify, rows);
    }
  }

  /** Every listed file that fails verification in a recognised way and whose
      name resolves is recorded under its partition. */
  lemma {:induction false} ScanComplete(paths: seq<string>, verify: string -> Verdict, rows: seq<Row>)
    requires ScanPaths(paths, verify, rows).Ok?
    ensures forall i, p :: 0 <= i < |paths| && Resolves(paths[i], p, verify, rows) ==>
      p in ScanPaths(paths, verify, rows).value.parts && Entry(paths[i], Name(paths[i])) in ScanPaths(paths, verify, rows).value.parts[p].images
  {
    var s := ScanPaths(paths, verify, rows).value;
    ScanGroups(paths, verify, rows);
    forall i, p | 0 <= i < |paths| && Resolves(paths[i], p, verify, rows)
      ensures p in s.parts && Entry(paths[i], Name(paths[i])) in s.parts[p].images
    {
      EntriesForComplete(paths, p, verify, rows);
    }
  }

  /** A scanned index is coherent: since a file's partition is a function of its
      base name, a full path never lands in two partitions. */
  lemma {:induction false} ScanCoherent(paths: seq<string>, verify: string -> Verdict, rows: seq<Row>)
    requires ScanPaths(paths, verify, rows).Ok?
    ensures Coherent(ScanPaths(paths, verify, rows).value)
  {
    ScanSound(paths, verify, rows);
    DisjointByOwner(ScanPaths(paths, verify, rows).value, name => Lookup(rows, name));
  }

  /** An index whose every entry's partition is a function of its base name
      never lists one full path under two partitions. */
  lemma {:induction false} DisjointByOwner(s: Snapshot, owner: string -> Option<nat>)
    requires forall p, e :: p in s.parts && e in s.parts[p].images ==> owner(e.filename) == Some(p)
    requires NamedByPath(s)
    ensures PathsDisjoint(s)
  {
  }

  /** The two nested loops of `check_corrupt_images` (over the manifest's
      records, then over each record's `image_path` list), building the
      dict in place; they compute the scan of the manifest's joined paths. */
  method ScanManifest(baseDir: string, items: seq<Item>, verify: string -> Verdict, rows: seq<Row>)
    returns (r: Result<Snapshot, ScanError>)
    ensures r == ScanPaths(FullPaths(baseDir, items), verify, rows)
  {
    ghost var goal := ScanPaths(FullPaths(baseDir, items), verify, rows);
    var index := Empty;
    for i := 0 to |items|
      invariant WellFormed(index)
      invariant ScanFrom(index, FullPaths(baseDir, items[i..]), verify, rows) == goal
    {
      assert items[i..][0] == items[i] && items[i..][1..] == items[i + 1..];
      ScanFromConcat(index, JoinAll(baseDir, items[i].imagePath), FullPaths(baseDir, items[i + 1..]), verify, rows);
      var result := ScanImagePaths(baseDir, items[i].imagePath, index, verify, rows);
      if result.Err? {
        return result;
      }
      index := result.value;
    }
    r := Ok(index);
  }

  /** The inner loop over one item's `image_path` list: verify each file and,
      for a corrupt one whose name resolves, create its partition if absent
      and append the entry to it. */
  method ScanImagePaths(baseDir: string, ps: seq<string>, index: Snapshot, verify: string -> Verdict, rows: seq<Row>)
    returns (r: Result<Snapshot, ScanError>)
    requires WellFormed(index)
    ensures r == ScanFrom(index, JoinAll(baseDir, ps), verify, rows)
  {
    ghost var goal := ScanFrom(index, JoinAll(baseDir, ps), verify, rows);
    var order, parts := index.order, index.parts;
    assert ps[0..] == ps;
    for j := 0 to |ps|
      invariant WellFormed(Snapshot(order, parts))
      invariant ScanFrom(Snapshot(order, parts), JoinAll(baseDir, ps[j..]), verify, rows) == goal
    {
      var fullPath := Join(baseDir, ps[j]);
      ghost var s0 := Snapshot(order, parts);
      ScanStep(s0, baseDir, ps, j, verify, rows);
      var v := verify(fullPath);
      if v == Unrecognised {
        return Err(UnrecognisedError(fullPath));
      }
      if v == Recognised {
        var filename := Name(fullPath);
        var found := Lookup(rows, filename);
        if found.Some? {
          var partId := found.value;
          if partId !in parts {
            parts := parts[partId := PartState([], false)];
            order := order + [partId];
          }
          var e := Entry(fullPath, filename);
          parts := parts[partId := parts[partId].(images := parts[partId].images + [e])];
          CreateThenAppend(s0, partId, e);
        }
      }
    }
    assert JoinAll(baseDir, ps[|ps|..]) == [];
    r := Ok(Snapshot(order, parts));
  }

  /** Creating a missing partition empty and then appending to it is `Append`. */
  lemma CreateThenAppend(s: Snapshot, p: nat, e: Entry)
    requires WellFormed(s)
    ensures var order := if p in s.parts then s.order else s.order + [p];
            var parts := if p in s.parts then s.parts else s.parts[p := PartState([], false)];
            Append(s, p, e) == Snapshot(order, parts[p := parts[p].(images := parts[p].images + [e])])
  {
    if p !in s.parts {
      assert [] + [e] == [e];
    }
  }

  /** Scanning a concatenation is scanning the first part, then the second from its result. */
  lemma {:induction false} ScanFromConcat(s: Snapshot, a: seq<string>, b: seq<string>, verify: string -> Verdict, rows: seq<Row>)
    requires WellFormed(s)
    ensures ScanFrom(s, a, verify, rows).Err? ==> ScanFrom(s, a + b, verify, rows) == ScanFrom(s, a, verify, rows)
    ensures ScanFrom(s, a, verify, rows).Ok? ==>
      ScanFrom(s, a + b, verify, rows) == ScanFrom(ScanFrom(s, a, verify, rows).value, b, verify, rows)
    decreases |a|
  {
    if a == [] {
      assert a + b == b;
    } else {
      assert (a + b)[0] == a[0] && (a + b)[1..] == a[1..] + b;
      var v := Visit(s, a[0], verify, rows);
      if v.Ok? {
        ScanFromConcat(v.value, a[1..], b, verify, rows);
      }
    }
  }

  /** One iteration of the inner loop is one Visit followed by the rest of the scan. */
  lemma {:induction false} ScanStep(s: Snapshot, baseDir: string, ps: seq<string>, j: nat,
                                    verify: string -> Verdict, rows: seq<Row>)
    requires WellFormed(s) && j < |ps|
    ensures ScanFrom(s, JoinAll(baseDir, ps[j..]), verify, rows) ==
      if Visit(s, Join(baseDir, ps[j]), verify, rows).Err? then Visit(s, Join(baseDir, ps[j]), verify, rows)
      else ScanFrom(Visit(s, Join(baseDir, ps[j]), verify, rows).value, JoinAll(baseDir, ps[j + 1..]), verify, rows)
  {
    var rest := JoinAll(baseDir, ps[j..]);
    assert rest[0] == Join(baseDir, ps[j]);
    assert rest[1..] == JoinAll(baseDir, ps[j + 1..]);
  }

  /** A three-file manifest: a healthy image, a corrupt one whose name the
      metadata places in partition 5, and a corrupt one the metadata does not
      know. Only the second is recorded, under partition 5, unfixed. */
  lemma ScanExample(verify: string -> Verdict, rows: seq<Row>)
    requires verify("r/img1.png") == Healthy && verify("r/img2.png") == Recognised && verify("r/img3.png") == Recognised
    requires rows == [Row("img2.png", 5)]
    ensures ScanPaths(["r/img1.png", "r/img2.png", "r/img3.png"], verify, rows)
         == Ok(Snapshot([5], map[5 := PartState([Entry("r/img2.png", "img2.png")], false)]))
  {
    ExampleLookups(rows);
    var paths := ["r/img1.png", "r/img2.png", "r/img3.png"];
    var s1 := Append(Empty, 5, Entry("r/img2.png", "img2.png"));
    assert Visit(Empty, paths[0], verify, rows) == Ok(Empty);
    assert Visit(Empty, paths[1], verify, rows) == Ok(s1);
    assert Visit(s1, paths[2], verify, rows) == Ok(s1);
    assert ScanFrom(s1, paths[3..], verify, rows) == Ok(s1);
    assert ScanFrom(s1, paths[2..], verify, rows) == Ok(s1);
    assert ScanFrom(Empty, paths[1..], verify, rows) == Ok(s1);
    assert s1 == Snapshot([5], map[5 := PartState([Entry("r/img2.png", "img2.png")], false)]);
  }

  /** How the metadata of `ScanExample` resolves its two corrupt files. */
  lemma ExampleLookups(rows: seq<Row>)
    requires rows == [Row("img2.png", 5)]
    ensures Name("r/img2.png") == "img2.png" && Lookup(rows, "img2.png") == Some(5)
    ensures Name("r/img3.png") == "img3.png" && Lookup(rows, "img3.png") == None
  {
    assert "r/img2.png" == "r/" + "img2.png";
    NameOfPlain("r/", "img2.png");
    assert "r/img3.png" == "r/" + "img3.png";
    NameOfPlain("r/", "img3.png");
    assert "img3.png"[3] != "img2.png"[3];
  }
}
