/** The body of `main`: parse the categories, take the manifest, and walk it
    once, downloading and writing every selected emoji, counting completed
    writes, and stopping at the first download or write error. */
module Sync {
  import opened Wrappers
  import opened Categories
  import opened Environment
  import opened Emojis

  /** A snapshot of the outside world: the requests made so far, the
      filesystem's call log, its files and its directories. */
  datatype World = World(requested: seq<string>, calls: seq<FsCall>, files: map<FileKey, Bytes>, dirs: set<Dir>)

  /** Where a run stands: the world, the `emojis_downloaded` counter, and the
      error that stopped it, if any. */
  datatype Progress = Progress(world: World, downloaded: nat, error: Option<Failure>)

  function Snapshot(net: Network, fs: FileSystem): World
    reads net, fs
  {
    World(net.requested, fs.calls, fs.files, fs.dirs)
  }

  function Lookup(files: map<FileKey, Bytes>, key: FileKey): Option<Bytes>
  {
    if key in files then Some(files[key]) else None
  }

  /** The URLs of `es`, in order. */
  function Urls(es: seq<Emoji>): seq<string>
    decreases |es|
  {
    if es == [] then [] else [es[0].staticUrl] + Urls(es[1..])
  }

  /** The files `es` are written to, in order. */
  function Targets(naming: Emoji -> FileKey, es: seq<Emoji>): seq<FileKey>
    decreases |es|
  {
    if es == [] then [] else [naming(es[0])] + Targets(naming, es[1..])
  }

  /** The naming rule of the loop: `Target` with the working directory
      fixed. */
  function TargetIn(currentDir: Dir): Emoji -> FileKey
  {
    e => Target(currentDir, e)
  }

  /** One pass of the loop body for a selected emoji, which `naming` sends
      to a file: download its URL (an error stops the run), make the file's
      directory (the outcome is ignored), write the bytes to the file (an
      error stops the run). */
  function Step(naming: Emoji -> FileKey, respond: (nat, string) -> Result<Bytes, Failure>,
                fault: (nat, FsCall) -> Option<Failure>, e: Emoji, w: World): (World, Option<Failure>)
  {
    var afterGet := w.(requested := w.requested + [e.staticUrl]);
    match respond(|w.requested|, e.staticUrl)
    case Err(f) => (afterGet, Some(f))
    case Ok(bytes) =>
      var key := naming(e);
      var dir := key.dir;
      var made := fault(|w.calls|, MakeDirs(dir)).None?;
      var afterWrite := afterGet.(calls := w.calls + [MakeDirs(dir)] + [WriteTo(key)],
                                  dirs := if made then w.dirs + Ancestors(dir) else w.dirs);
      match fault(|w.calls| + 1, WriteTo(key))
      case Some(f) => (afterWrite, Some(f))
      case None => (afterWrite.(files := w.files[key := bytes]), None)
  }

  /** The loop over the selected emojis, from world `w` with the counter at
      `downloaded`. The counter grows by one per completed emoji: by all of
      them when nothing fails, and by fewer than all when the run stops. */
  function Drive(naming: Emoji -> FileKey, respond: (nat, string) -> Result<Bytes, Failure>,
                 fault: (nat, FsCall) -> Option<Failure>, selected: seq<Emoji>,
                 w: World, downloaded: nat): (p: Progress)
    ensures downloaded <= p.downloaded <= downloaded + |selected|
    ensures p.error.None? <==> p.downloaded == downloaded + |selected|
    decreases |selected|
  {
    if selected == [] then Progress(w, downloaded, None)
    else
      var (next, error) := Step(naming, respond, fault, selected[0], w);
      if error.Some? then Progress(next, downloaded, error)
      else Drive(naming, respond, fault, selected[1..], next, downloaded + 1)
  }

  /** How the loop's view of the selection moves on by one manifest entry. */
  lemma SelectedAt(manifest: seq<Emoji>, categories: seq<string>, i: nat)
    requires i < |manifest|
    ensures var here := if manifest[i].category in categories then [manifest[i]] else [];
            Selected(manifest[i..], categories) == here + Selected(manifest[i + 1..], categories)
            && Selected(manifest[..i + 1], categories) == Selected(manifest[..i], categories) + here
  {
    assert manifest[i..][1..] == manifest[i + 1..];
    assert manifest[..i + 1] == manifest[..i] + [manifest[i]];
    SelectedAppend(manifest[..i], [manifest[i]], categories);
    assert [manifest[i]][1..] == [];
  }

  /** `Step` once the download has succeeded: the world after the directory
      creation and the write, and the write's outcome as the step's error. */
  lemma StepAfterDownload(naming: Emoji -> FileKey, respond: (nat, string) -> Result<Bytes, Failure>,
                          fault: (nat, FsCall) -> Option<Failure>, e: Emoji, w: World, bytes: Bytes)
    requires respond(|w.requested|, e.staticUrl) == Ok(bytes)
    ensures var key := naming(e);
            var dir := key.dir;
            var writeFault := fault(|w.calls| + 1, WriteTo(key));
            Step(naming, respond, fault, e, w)
            == (World(w.requested + [e.staticUrl], w.calls + [MakeDirs(dir)] + [WriteTo(key)],
                      if writeFault.None? then w.files[key := bytes] else w.files,
                      if fault(|w.calls|, MakeDirs(dir)).None? then w.dirs + Ancestors(dir) else w.dirs),
                writeFault)
  {
  }

  /** `Drive` on a list that starts with `e`: one `Step`, then the rest. */
  lemma DriveCons(naming: Emoji -> FileKey, respond: (nat, string) -> Result<Bytes, Failure>,
                  fault: (nat, FsCall) -> Option<Failure>, e: Emoji, rest: seq<Emoji>,
                  w: World, downloaded: nat)
    ensures var (next, error) := Step(naming, respond, fault, e, w);
            Drive(naming, respond, fault, [e] + rest, w, downloaded)
            == if error.Some? then Progress(next, downloaded, error)
               else Drive(naming, respond, fault, rest, next, downloaded + 1)
  {
    assert ([e] + rest)[0] == e && ([e] + rest)[1..] == rest;
  }

  /** The body of the loop for an emoji that passed the category test:
      download, derive the file name, create the category directory (its
      outcome is dropped), write. Returns the error that the source's `?`
      would propagate. */
  method SaveEmoji(currentDir: Dir, emoji: Emoji, net: Network, fs: FileSystem)
    returns (error: Option<Failure>)
    modifies net, fs
    ensures (Snapshot(net, fs), error) == Step(TargetIn(currentDir), net.respond, fs.fault, emoji, old(Snapshot(net, fs)))
  {
    ghost var before := Snapshot(net, fs);
    var url := emoji.staticUrl;
    var picBytes := net.Get(url);
    if picBytes.Err? {
      return Some(picBytes.error);
    }
    var name := emoji.shortcode;
    // `split` yields at least one piece, so `ok_or(".png")` never fails
    var fileType := FileType(url).value;
    var path := currentDir + [emoji.category];
    var _ := fs.CreateDirAll(path);
    var filePath := FileKey(path, FileName(name, fileType));
    assert filePath == TargetIn(currentDir)(emoji);
    var written := fs.Write(filePath, picBytes.value);
    StepAfterDownload(TargetIn(currentDir), net.respond, fs.fault, emoji, before, picBytes.value);
    error := if written.Err? then Some(written.error) else None;
  }

  /** The `for emoji in emojis` loop of `main`. Returns the counter and the
      run's outcome; the world ends as `Drive` over the selected emojis says. */
  method Run(currentDir: Dir, manifest: seq<Emoji>, categories: seq<string>, net: Network, fs: FileSystem)
    returns (downloaded: nat, result: Result<(), Failure>)
    modifies net, fs
    ensures var p := Drive(TargetIn(currentDir), net.respond, fs.fault, Selected(manifest, categories),
                           World(old(net.requested), old(fs.calls), old(fs.files), old(fs.dirs)), 0);
            Snapshot(net, fs) == p.world && downloaded == p.downloaded
            && result == (if p.error.None? then Ok(()) else Err(p.error.value))
    ensures result.Ok? ==> downloaded == |Selected(manifest, categories)|
  {
    ghost var final := Drive(TargetIn(currentDir), net.respond, fs.fault, Selected(manifest, categories), Snapshot(net, fs), 0);
    downloaded := 0;
    var i := 0;
    while i < |manifest|
      invariant 0 <= i <= |manifest|
      invariant downloaded == |Selected(manifest[..i], categories)|
      invariant final == Drive(TargetIn(currentDir), net.respond, fs.fault, Selected(manifest[i..], categories), Snapshot(net, fs), downloaded)
    {
      var emoji := manifest[i];
      SelectedAt(manifest, categories, i);
      if emoji.category !in categories {
        assert [] + Selected(manifest[i + 1..], categories) == Selected(manifest[i + 1..], categories);
        i := i + 1;
        continue;
      }
      DriveCons(TargetIn(currentDir), net.respond, fs.fault, emoji, Selected(manifest[i + 1..], categories), Snapshot(net, fs), downloaded);
      var error := SaveEmoji(currentDir, emoji, net, fs);
      if error.Some? {
        return downloaded, Err(error.value);
      }
      downloaded := downloaded + 1;
      i := i + 1;
    }
    assert manifest[..i] == manifest;
    result := Ok(());
  }

  /** `main` after argument parsing: `categoriesArg` is the `--categories`
      text, `manifest` the decoded answer of the instance's
      `/api/v1/custom_emojis` endpoint, `currentDir` the answer of
      `env::current_dir()`. A failed manifest fetch or working-directory
      lookup ends the run before any download or filesystem call. */
  method Sync(categoriesArg: string, manifest: Result<seq<Emoji>, Failure>, currentDir: Result<Dir, Failure>,
              net: Network, fs: FileSystem)
    returns (downloaded: nat, result: Result<(), Failure>)
    modifies net, fs
    ensures manifest.Err? ==> result == Err(manifest.error) && downloaded == 0 && unchanged(net, fs)
    ensures manifest.Ok? && currentDir.Err? ==> result == Err(currentDir.error) && downloaded == 0 && unchanged(net, fs)
    ensures manifest.Ok? && currentDir.Ok? ==>
      var p := Drive(TargetIn(currentDir.value), net.respond, fs.fault,
                     Selected(manifest.value, FromStr(categoriesArg).value.value),
                     World(old(net.requested), old(fs.calls), old(fs.files), old(fs.dirs)), 0);
      Snapshot(net, fs) == p.world && downloaded == p.downloaded
      && result == (if p.error.None? then Ok(()) else Err(p.error.value))
  {
    var args := FromStr(categoriesArg);
    var categories := args.value.value;
    downloaded := 0;
    if manifest.Err? {
      return 0, Err(manifest.error);
    }
    if currentDir.Err? {
      return 0, Err(currentDir.error);
    }
    downloaded, result := Run(currentDir.value, manifest.value, categories, net, fs);
  }
}
