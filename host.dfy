/**
 * The machine the repair script runs on, reduced to what the script touches:
 * the dataset's files, the archives lying in the scratch directory `./tmp`,
 * the checkpoint file `corrupt_images.json`, and the URLs handed to the
 * downloader, in the order they were requested.
 */
module Storage {
  import opened Wrappers
  import opened Corruption

  type Bytes = seq<bv8>

  datatype World = World(files: map<string, Bytes>, scratch: set<string>, checkpoint: Option<Snapshot>, fetchLog: seq<string>)

  class Host {
    var files: map<string, Bytes>
    var scratch: set<string>
    var checkpoint: Option<Snapshot>
    var fetchLog: seq<string>

    function State(): World
      reads this
    {
      World(files, scratch, checkpoint, fetchLog)
    }

    constructor (w: World)
      ensures State() == w
    {
      files, scratch, checkpoint, fetchLog := w.files, w.scratch, w.checkpoint, w.fetchLog;
    }

    /** `json.dump(index, open(output_json_path, 'w'))`. */
    method SaveCheckpoint(s: Snapshot)
      modifies this
      ensures State() == old(State()).(checkpoint := Some(s))
    {
      checkpoint := Some(s);
    }

    /** `open(path, 'wb').write(data)`: creates or overwrites one file. */
    method WriteFile(path: string, data: Bytes)
      modifies this
      ensures State() == old(State()).(files := old(files)[path := data])
    {
      files := files[path := data];
    }

    /** Running the downloader for `url`: recorded in the log; when it exits 0
        the archive `name` is present in the scratch directory. */
    method Download(url: string, name: string, succeeded: bool)
      modifies this
      ensures State() == old(State()).(fetchLog := old(fetchLog) + [url],
                                       scratch := if succeeded then old(scratch) + {name} else old(scratch))
    {
      fetchLog := fetchLog + [url];
      if succeeded {
        scratch := scratch + {name};
      }
    }

    /** `os.remove(name)` on a scratch archive. */
    method RemoveScratch(name: string)
      modifies this
      ensures State() == old(State()).(scratch := old(scratch) - {name})
    {
      scratch := scratch - {name};
    }
  }
}
