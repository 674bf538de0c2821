/** The outside world the sync loop talks to: the HTTP client (`reqwest::get`
    followed by `.bytes()`) and the filesystem (`fs::create_dir_all`,
    `fs::write`). Both are objects whose state the loop changes in place; what
    each call returns is decided by an oracle fixed when the object is made, so
    the model holds for every possible network and disk behaviour. */
module Environment {
  import opened Wrappers

  type Bytes = seq<bv8>

  /** A directory, as the list of its path components from the root. */
  type Dir = seq<string>

  /** Where a file lives: its directory and its file name. */
  datatype FileKey = FileKey(dir: Dir, name: string)

  /** Why a network or filesystem call failed (the `Box<dyn Error>` the
      source propagates with `?`). */
  datatype Failure = Failure(reason: string)

  /** A call made to the filesystem, as recorded in its log. */
  datatype FsCall = MakeDirs(dir: Dir) | WriteTo(key: FileKey)

  /** The directories `create_dir_all(dir)` makes sure exist: `dir` and each
      of its non-empty leading parts. */
  function Ancestors(dir: Dir): (r: set<Dir>)
    ensures forall d :: d in r <==> 1 <= |d| <= |dir| && d == dir[..|d|]
  {
    set i | 1 <= i <= |dir| :: dir[..i]
  }

  /** The HTTP client. Answers a GET of `url` with `respond(k, url)`, where `k`
      is the number of earlier requests: a server that fails, succeeds or
      changes its answer at any point can be described this way. */
  class Network {
    const respond: (nat, string) -> Result<Bytes, Failure>
    /** Every URL requested so far, in order. */
    var requested: seq<string>

    constructor (respond: (nat, string) -> Result<Bytes, Failure>)
      ensures this.respond == respond && requested == []
    {
      this.respond := respond;
      requested := [];
    }

    /** `reqwest::get(url).await?.bytes().await?`: one request, whose body or
        failure is the oracle's answer. */
    method Get(url: string) returns (r: Result<Bytes, Failure>)
      modifies this
      ensures requested == old(requested) + [url]
      ensures r == respond(|old(requested)|, url)
    {
      r := respond(|requested|, url);
      requested := requested + [url];
    }
  }

  /** The filesystem: the files as a map from location to contents, the set of
      directories, and a log of every call. Call number `k` fails with `f` when
      `fault(k, call) == Some(f)`. */
  class FileSystem {
    const fault: (nat, FsCall) -> Option<Failure>
    var files: map<FileKey, Bytes>
    var dirs: set<Dir>
    var calls: seq<FsCall>

    constructor (fault: (nat, FsCall) -> Option<Failure>, files: map<FileKey, Bytes>, dirs: set<Dir>)
      ensures this.fault == fault && this.files == files && this.dirs == dirs && calls == []
    {
      this.fault := fault;
      this.files := files;
      this.dirs := dirs;
      calls := [];
    }

    /** `fs::create_dir_all(dir)`: on success `dir` and all its ancestors
        exist; on failure nothing changes. Files are never touched. */
    method CreateDirAll(dir: Dir) returns (r: Result<(), Failure>)
      modifies this
      ensures calls == old(calls) + [MakeDirs(dir)]
      ensures files == old(files)
      ensures r.Ok? <==> fault(|old(calls)|, MakeDirs(dir)).None?
      ensures r.Err? ==> r.error == fault(|old(calls)|, MakeDirs(dir)).value && dirs == old(dirs)
      ensures r.Ok? ==> dirs == old(dirs) + Ancestors(dir)
    {
      var outcome := fault(|calls|, MakeDirs(dir));
      calls := calls + [MakeDirs(dir)];
      if outcome.Some? {
        r := Err(outcome.value);
      } else {
        dirs := dirs + Ancestors(dir);
        r := Ok(());
      }
    }

    /** `fs::write(key, data)`: on success the file at `key` holds exactly
        `data`, whatever it held before, and no other file changes; on failure
        no file changes. */
    method Write(key: FileKey, data: Bytes) returns (r: Result<(), Failure>)
      modifies this
      ensures calls == old(calls) + [WriteTo(key)]
      ensures dirs == old(dirs)
      ensures r.Ok? <==> fault(|old(calls)|, WriteTo(key)).None?
      ensures r.Err? ==> r.error == fault(|old(calls)|, WriteTo(key)).value && files == old(files)
      ensures r.Ok? ==> files == old(files)[key := data]
    {
      var outcome := fault(|calls|, WriteTo(key));
      calls := calls + [WriteTo(key)];
      if outcome.Some? {
        r := Err(outcome.value);
      } else {
        files := files[key := data];
        r := Ok(());
      }
    }
  }
}
