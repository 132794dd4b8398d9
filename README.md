# Dataset repair pipeline

This project models `repair_dataset.py`, the script that repairs corrupt images in a local copy of an image-preference dataset. The script runs in two phases over one mutable index. The index maps a partition number to the list of corrupt `(full_path, filename)` entries in that partition and a `fixed` flag.

- **Scan** (`check_corrupt_images`). If the checkpoint file exists, the scan returns its contents and does nothing else. Otherwise it verifies every image path of every manifest record, joined onto the dataset root. A file counts as corrupt when verification raises one of the recognised errors (I/O, syntax, missing file). Any other error escapes. A corrupt file's base name is looked up in the metadata table, and the first matching row gives its partition. A file with no match is only warned about. Entries are grouped by partition in manifest order, and a new partition starts unfixed. A successful scan is written to the checkpoint.
- **Repair** (`fix_corrupt_images`). Partitions are visited in insertion order, and fixed ones are skipped. For each other partition the loop does the following:
  - downloads `part-NNNNNN.zip` (the partition number padded with zeros to six digits) into `./tmp`;
  - copies each listed file out of the archive over its full path;
  - only when all of that succeeded, deletes the archive, sets `fixed` and rewrites the checkpoint.

  Any failure leaves the partition unfixed, and the loop moves on to the next one.

Modules:
- `PathNames`: `os.path.join` and `Path(...).name`.
- `ArchiveNames`: the archive name, its URL and scratch path, and parsing the name back.
- `Corruption`: the index as a value (`Snapshot`) and as the object updated in place (`CorruptionIndex`).
- `Storage`: the host, meaning the files, the scratch directory, the checkpoint and the downloader log.
- `Scan`: the scan as the specification function `ScanPaths` and as the nested loops `ScanManifest`/`ScanImagePaths`.
- `Repair`: the repair as the specification functions `RepairPart`/`RepairFrom`, with their lemmas.
- `Pipeline`: the two entry points and the main sequence, as methods on the host and the index. Each is proved equal to its specification function: `CheckCorruptImages` to `ScanPaths` with the checkpoint short-circuit, `RepairPartition` to `RepairPart`, `FixCorruptImages` and `RunRepair` to `RepairFrom`.

Image verification, the metadata table, the downloader with the zip reader, and writability of a destination are parameters:
- `verify: string -> Verdict`;
- `rows: seq<Row>`;
- `fetch: string -> Fetched`;
- `writable: string -> bool`.

The checkpoint is rewritten only after a success (lines 103-107 sit inside the `try`, after the extraction). `Repair.RepairCheckpoint` proves that a run which fixes nothing leaves it as it was.

## Model

| member | source | states |
|---|---|---|
| PathNames.Join | repair_dataset.py:33 | `os.path.join(base_dir, img_path)` with two POSIX arguments (meaning stated by `PathNames.JoinShape`) |
| PathNames.JoinShape | repair_dataset.py:33 | the joined path ends with the relative path, after a separator unless nothing precedes it; the prefix is the base, with a separator added exactly when the base is non-empty and does not already end in one; an absolute relative path replaces the base |
| PathNames.Name | repair_dataset.py:38 | `Path(full_path).name`: the result holds no separator, is never `.`, and is no longer than the path |
| PathNames.SegmentIsSuffix | repair_dataset.py:38 | the last path segment is a suffix of the path, preceded by a separator unless it is the whole path |
| PathNames.NameAfterSeparator | repair_dataset.py:33-38 | a non-empty base name is unchanged by prefixing a directory that ends in a separator |
| PathNames.NameOfJoin | repair_dataset.py:33-38 | the base name of `os.path.join(base_dir, img_path)` depends only on `img_path`, whatever the dataset root |
| PathNames.NameOfPlain | repair_dataset.py:38 | the base name of a directory followed by a plain file name is that file name |
| ArchiveNames.Padded | repair_dataset.py:75 | `{part_id:06}`: only digits, at least six of them |
| ArchiveNames.ArchiveName | repair_dataset.py:75-77 | `part-{part_id:06}.zip` (meaning stated by `ArchiveNames.ParseArchiveNameRoundTrip` and `ArchiveNames.ArchiveNameInjective`) |
| ArchiveNames.ArchiveUrl | repair_dataset.py:73-76 | the download URL: the fixed mirror and dataset directory followed by the archive name |
| ArchiveNames.TempPath | repair_dataset.py:77 | the scratch path `./tmp/` followed by the archive name |
| ArchiveNames.Digits | repair_dataset.py:75 | the decimal numeral of a partition is non-empty, all digits, and has no leading zero unless the number is 0 |
| ArchiveNames.PaddedValue | repair_dataset.py:75 | `{part_id:06}` reads back as `part_id`; it is exactly six characters unless the numeral is longer, and a longer field carries no padding zero |
| ArchiveNames.ParseArchiveNameRoundTrip | repair_dataset.py:73-77 | parsing `part-NNNNNN.zip` gives back the partition number it was built from |
| ArchiveNames.ArchiveNameInjective | repair_dataset.py:73-77 | distinct partitions never share an archive name, a scratch path or a download URL |
| ArchiveNames.ArchiveNameOfFive | repair_dataset.py:75 | partition 5 downloads `part-000005.zip` |
| ArchiveNames.ArchiveNameOfSevenDigits | repair_dataset.py:75 | a seven-digit partition number is used unpadded: `part-1234567.zip` |
| Corruption.Append | repair_dataset.py:42-50 | appending keeps the index well formed; a new key goes last in the order and its partition starts unfixed holding only the entry; an existing partition gains the entry at the end and keeps its flag; every other partition is unchanged |
| Corruption.SetFixed | repair_dataset.py:103 | the value of the dict after `fixed` is set on one partition (proved to move only that flag in `Repair.RepairPartFixed`) |
| Corruption.CorruptionIndex.MarkFixed | repair_dataset.py:103 | setting `fixed` in place changes that one flag and nothing else |
| Storage.Host.SaveCheckpoint | repair_dataset.py:55-56 | writing the checkpoint replaces its contents and changes nothing else on the host |
| Storage.Host.WriteFile | repair_dataset.py:96-97 | writing a restored file creates or overwrites that one path |
| Storage.Host.Download | repair_dataset.py:81-83 | the URL is appended to the downloader log; on exit 0 the archive is added to `./tmp`, otherwise `./tmp` is unchanged |
| Storage.Host.RemoveScratch | repair_dataset.py:100 | deleting the archive removes it from the scratch directory and changes nothing else |
| Scan.Lookup | repair_dataset.py:39-41 | the lookup misses exactly when no metadata row has the name |
| Scan.LookupFirstMatch | repair_dataset.py:39-41 | on a hit, the partition is the `part_id` of the first row with that name |
| Scan.FullPaths | repair_dataset.py:31-33 | the joined image paths of every manifest record, in manifest order (scanned record by record per `Scan.ScanFromConcat`) |
| Scan.ScanFrom | repair_dataset.py:31-52 | the scan of the remaining paths from the index built so far; a successful result stays well formed |
| Scan.ScanPaths | repair_dataset.py:22-52 | the scan from an empty dict (its meaning is stated by `Scan.ScanGroups`, `Scan.ScanSound`, `Scan.ScanComplete` and `Scan.ScanFailsIff`) |
| Scan.Visit | repair_dataset.py:34-52 | verifying and recording one file keeps the index well formed |
| Scan.ScanFromFailsIff | repair_dataset.py:34-37 | from any index, the scan fails exactly when some file raises an unrecognised error, and it reports the first such file |
| Scan.ScanFailsIff | repair_dataset.py:34-37 | the scan returns no index exactly when some file raises an unrecognised error, and the error names the first such file |
| Scan.ScanFromKeys | repair_dataset.py:42-46 | scanning adds a partition exactly when some listed corrupt file resolves to it |
| Scan.ScanFromImages | repair_dataset.py:47-50 | scanning appends to each partition exactly the entries resolving to it, in manifest order, after what it held |
| Scan.ScanFromFlag | repair_dataset.py:43-46 | scanning keeps an existing `fixed` flag, and a new partition starts unfixed |
| Scan.VisitGroups | repair_dataset.py:34-50 | one file adds its entry to partition `p` exactly when it is corrupt and resolves to `p`, and leaves `p` otherwise unchanged |
| Scan.ScanGroups | repair_dataset.py:31-50 | a fresh scan holds exactly the partitions some corrupt, resolvable file maps to, each unfixed and listing exactly its files in manifest order |
| Scan.EntriesForSound | repair_dataset.py:38-50 | every grouped entry is a listed, corrupt file resolving to that partition, recorded under its base name |
| Scan.EntriesForComplete | repair_dataset.py:38-50 | every listed corrupt file resolving to a partition is among that partition's entries |
| Scan.ScanSound | repair_dataset.py:31-52 | a scanned index never holds a healthy file or a resolver miss; each entry sits under the partition of its first matching row, with its own base name |
| Scan.ScanComplete | repair_dataset.py:31-50 | every listed file that is corrupt and resolvable is recorded under its partition |
| Scan.ScanCoherent | repair_dataset.py:38-50 | a scanned index records every entry under its base name and never lists one full path in two partitions |
| Scan.DisjointByOwner | repair_dataset.py:38-41 | when a file's partition is a function of its base name, no full path is listed under two partitions |
| Scan.ScanManifest | repair_dataset.py:31-52 | the nested loops that build the dict in place return exactly the scan of the manifest's joined paths, or its error |
| Scan.ScanImagePaths | repair_dataset.py:32-52 | the inner loop over one record's paths (create if absent, then append) computes the scan of those paths from the index so far |
| Scan.CreateThenAppend | repair_dataset.py:42-50 | creating a missing partition empty and unfixed, then appending to it, is the same as appending |
| Scan.ScanFromConcat | repair_dataset.py:31-32 | scanning the paths of several records is scanning them record by record |
| Scan.ScanExample | repair_dataset.py:31-52 | a healthy file, a corrupt file resolving to 5 and a corrupt resolver miss give exactly `{5: {images: [img2.png], fixed: false}}` |
| Repair.RepairPart | repair_dataset.py:66-111 | one partition's attempt never changes the key order, the key set or any `images` list |
| Repair.RepairFrom | repair_dataset.py:66-113 | the whole loop never changes the key order, the key set or any `images` list |
| Repair.WriteBack | repair_dataset.py:86-97 | the extraction loop, stopping at the first entry that cannot be restored (meaning stated by `Repair.WriteBackOkIff`, `Repair.WriteBackStopsAt`, `Repair.WriteBackFrame` and `Repair.WriteBackRestores`) |
| Repair.WriteBackOkIff | repair_dataset.py:86-97 | the extraction succeeds exactly when every listed file is in the archive and its destination is writable |
| Repair.WriteBackStopsAt | repair_dataset.py:87-97 | when entry k is the first that cannot be restored, the extraction fails and leaves the files exactly as writing entries 0..k-1 left them; nothing from entry k on is written |
| Repair.WriteBackFrame | repair_dataset.py:86-97 | whatever happens, the extraction touches no path outside the partition's list |
| Repair.WriteBackRestores | repair_dataset.py:87-97 | after a successful extraction, every listed path holds the archive member of its name |
| Repair.RepairPartSkips | repair_dataset.py:67-68 | the attempt on a partition already fixed changes nothing: no download, and index, files, scratch directory and checkpoint as they were |
| Repair.RepairPartFixed | repair_dataset.py:67-111 | one attempt sets its own partition's flag exactly when download, archive and every write succeed, and moves no other flag |
| Repair.RepairFixedIff | repair_dataset.py:66-111 | after the loop, a partition is fixed exactly when it was fixed before, or it was visited and its repair fully succeeded |
| Repair.RepairOnlySetsFlags | repair_dataset.py:61-113 | the repair keeps key order, key set and every `images` list, and never clears a `fixed` flag |
| Repair.RepairFetchLog | repair_dataset.py:66-83 | the downloader is called exactly once for each partition not already fixed, in insertion order, and for no other |
| Repair.PendingUrlsSkipFixed | repair_dataset.py:67-68 | a partition's archive is requested exactly when it is not already fixed |
| Repair.RepairPartCheckpoint | repair_dataset.py:103-107 | an attempt either leaves index and checkpoint alone, or fixes its own partition and saves the new index |
| Repair.RepairCheckpoint | repair_dataset.py:103-111 | after the loop, the checkpoint holds the final index when anything was fixed; otherwise index and checkpoint are unchanged |
| Repair.RepairFilesFrame | repair_dataset.py:86-97 | a path that no unfixed partition lists keeps its contents through the loop |
| Repair.RepairPartRestores | repair_dataset.py:86-103 | the attempt that fixes a partition leaves each listed path holding the archive member of its name |
| Repair.LaterStepsKeep | repair_dataset.py:66-111 | attempts for other partitions of a coherent index leave a partition's listed paths alone |
| Repair.RepairRestores | repair_dataset.py:86-103 | every partition fixed in the run came from a zip holding every listed name, and each listed path ends holding that member |
| Repair.RepairScratchFrame | repair_dataset.py:77-100 | the loop only adds or removes the scratch archives of the partitions it visits |
| Repair.RepairRemovesArchive | repair_dataset.py:99-100 | the scratch archive of every partition fixed in the run is gone when the loop ends |
| Repair.RepairFromConcat | repair_dataset.py:66-111 | the loop over `a + b` is the loop over `a` followed by the loop over `b` from where it stopped |
| Repair.RepairResume | repair_dataset.py:66-68 | a rerun after an interruption loops over every key from the first, skipping the partitions already fixed, starting from the index left after the first keys (the index saved so far, since `Repair.RepairCheckpoint` shows the checkpoint equals it whenever the run started with the two equal) and in any state of the disk; with the same download and write outcomes, it ends with the same index as a run that was never interrupted |
| Repair.RerunStable | repair_dataset.py:66-111 | a second run with the same downloads leaves the index as the first run left it: fixed partitions skipped, failed ones still unfixed with their lists not duplicated |
| Pipeline.CheckCorruptImages | repair_dataset.py:15-58 | an existing checkpoint is returned as it is and nothing changes; otherwise the result is the scan, a success is saved as the checkpoint, and a failure changes nothing |
| Pipeline.CheckCorruptImagesTwice | repair_dataset.py:18-20 | a second scan without deleting the checkpoint returns what the first returned, and the checkpoint holds it |
| Pipeline.RepairPartition | repair_dataset.py:67-111 | the loop body for one partition updates the index in place and the host exactly as `RepairPart` describes |
| Pipeline.FixCorruptImages | repair_dataset.py:61-113 | the loop over the dict updates index and host exactly as `RepairFrom` over the insertion order describes, and returns the same index object |
| Pipeline.RunRepair | repair_dataset.py:118-126 | with a checkpoint, the final index and host are the repair loop run over the checkpoint's keys; without one, the run fails exactly when the scan fails and then changes nothing, and otherwise the final index and host are the repair loop run over the scanned index with the scan saved as the checkpoint |

## Left out
- Image decoding (`PIL.Image.verify`) is the oracle `verify`: it returns a healthy, recognised-error or other-error verdict per full path.
- The metadata parquet file is the row sequence `rows`. A missing or unreadable table, which aborts the script, is not modelled.
- Reading the manifest JSON, and a missing or malformed manifest, are not modelled: the manifest is the list `items` of image-path lists.
- A checkpoint file that exists but cannot be parsed is not modelled. The checkpoint is `Option<Snapshot>`.
- JSON encoding is not modelled. Keys become strings after a round-trip and `int()` converts them back; the model keeps partition keys as `nat` throughout.
- `part_id` is assumed non-negative (`nat`). A negative id would be formatted as `-00005`, which the model does not capture.
- `aria2c` and `zipfile` are the oracle `fetch`. It returns a failed download, an unreadable archive, or the archive's members. A partial file left in `./tmp` by a failed download (later resumed by `-c`) is not modelled.
- `os.makedirs` and writability are the oracle `writable` for each destination. A write that fails after the file was opened and truncated is not modelled: a destination is either written whole or not touched.
- `os.remove` of the archive is assumed to succeed.
- `Storage.Host.SaveCheckpoint`: checkpoint writes are assumed to succeed, both when the scan saves its result (lines 55-56) and when the repair loop saves after a success (lines 106-107). In the source, a failing write at lines 55-56 escapes `check_corrupt_images` with no result. A failing write at lines 106-107 is caught at line 109 after `fixed` was already set, so the partition stays fixed in memory while the checkpoint is stale or truncated. `Repair.RepairCheckpoint` and `Pipeline.CheckCorruptImages` do not cover either failure.
- `os.makedirs('./tmp')` is not modelled.
- Progress bars, warnings, error messages and the final summary printout are not modelled (lines 52, 110, 129-134).
- `Pipeline.CheckCorruptImages`: verification is a pure parameter, so the model cannot express that no verification is performed under the short-circuit. It states only that the result and the host are those of the checkpoint.
- `PathNames.Join` and `PathNames.Name` cover POSIX paths only: `os.path.join` with two arguments, and `Path.name` computed on the string (trailing separators and `.` components skipped). Windows path rules are not modelled.
- `Repair.RepairRestores`: this requires a coherent index, meaning no full path under two partitions. `Scan.ScanCoherent` proves that for a fresh scan. A hand-edited checkpoint that breaks it is not covered.
