/** What the sync loop guarantees, stated over its specification `Drive`
    (which `Sync.Run` is proved to follow). Throughout, `w` is the world before
    the loop, `n` the counter, and `k` the number of emojis written. */
module SyncProperties {
  import opened Wrappers
  import opened Environment
  import opened Emojis
  import opened Categories
  import opened Sync

  /** What one `Step` does to the request log and the files. */
  lemma StepEffect(naming: Emoji -> FileKey, respond: (nat, string) -> Result<Bytes, Failure>,
                   fault: (nat, FsCall) -> Option<Failure>, e: Emoji, w: World)
    ensures var (next, error) := Step(naming, respond, fault, e, w);
            var got := respond(|w.requested|, e.staticUrl);
            var key := naming(e);
            next.requested == w.requested + [e.staticUrl]
            && (error.None? <==> got.Ok? && fault(|w.calls| + 1, WriteTo(key)).None?)
            && (error.None? ==> next.files == w.files[key := got.value])
            && (error.Some? ==> next.files == w.files)
            && (got.Ok? ==> |next.calls| == |w.calls| + 2 && next.calls[|w.calls| + 1] == WriteTo(key))
            && (got.Ok? && error.Some? ==> fault(|w.calls| + 1, WriteTo(key)) == error)
            && (got.Err? ==> error == Some(got.error))
  {
  }

  /** The emojis whose URLs were requested are the first ones of the
      selection, in order, each once: the `k` written, plus the one that
      failed if the run stopped. Nothing after that is requested. */
  lemma {:induction false} DriveRequests(naming: Emoji -> FileKey, respond: (nat, string) -> Result<Bytes, Failure>,
                                         fault: (nat, FsCall) -> Option<Failure>, selected: seq<Emoji>,
                                         w: World, n: nat)
    ensures var p := Drive(naming, respond, fault, selected, w, n);
            var attempted := p.downloaded - n + (if p.error.Some? then 1 else 0);
            attempted <= |selected| && p.world.requested == w.requested + Urls(selected[..attempted])
    decreases |selected|
  {
    var p := Drive(naming, respond, fault, selected, w, n);
    if selected != [] {
      var (next, error) := Step(naming, respond, fault, selected[0], w);
      StepEffect(naming, respond, fault, selected[0], w);
      if error.Some? {
        assert Urls(selected[..1]) == [selected[0].staticUrl];
      } else {
        DriveRequests(naming, respond, fault, selected[1..], next, n + 1);
        assert p == Drive(naming, respond, fault, selected[1..], next, n + 1);
        var attempted := p.downloaded - n + (if p.error.Some? then 1 else 0);
        assert 1 <= attempted <= |selected|;
        assert selected[..attempted][1..] == selected[1..][..attempted - 1];
        assert Urls(selected[..attempted]) == [selected[0].staticUrl] + Urls(selected[1..][..attempted - 1]);
      }
    }
  }

  /** The run `p` was stopped by emoji `e`, whose download was request
      number `index`: the download failed with the reported error, or it
      succeeded and the write to `e`'s target, the last filesystem call,
      failed with it. */
  predicate StoppedBy(naming: Emoji -> FileKey, respond: (nat, string) -> Result<Bytes, Failure>,
                      fault: (nat, FsCall) -> Option<Failure>, e: Emoji, index: nat, p: Progress)
  {
    var got := respond(index, e.staticUrl);
    var key := naming(e);
    p.error.Some?
    && (got == Err(p.error.value)
        || (got.Ok? && |p.world.calls| > 0 && p.world.calls[|p.world.calls| - 1] == WriteTo(key)
            && fault(|p.world.calls| - 1, WriteTo(key)) == p.error))
  }

  /** When the run stops, it stops at the selected emoji right after the `k`
      written, and that emoji's download or write is what failed. */
  lemma {:induction false} DriveAbort(naming: Emoji -> FileKey, respond: (nat, string) -> Result<Bytes, Failure>,
                                      fault: (nat, FsCall) -> Option<Failure>, selected: seq<Emoji>,
                                      w: World, n: nat)
    ensures var p := Drive(naming, respond, fault, selected, w, n);
            var k := p.downloaded - n;
            p.error.Some? ==>
              k < |selected| && StoppedBy(naming, respond, fault, selected[k], |w.requested| + k, p)
    decreases |selected|
  {
    var p := Drive(naming, respond, fault, selected, w, n);
    if selected != [] && p.error.Some? {
      var (next, error) := Step(naming, respond, fault, selected[0], w);
      StepEffect(naming, respond, fault, selected[0], w);
      if error.None? {
        var rest := selected[1..];
        DriveAbort(naming, respond, fault, rest, next, n + 1);
        assert p == Drive(naming, respond, fault, rest, next, n + 1);
        var k := p.downloaded - n;
        assert rest[k - 1] == selected[k];
        assert |next.requested| + (k - 1) == |w.requested| + k;
      } else {
        assert p == Progress(next, n, error);
      }
    }
  }

  /** Only the targets of the `k` written emojis can differ from before:
      every other location holds what it held (or stays absent). */
  lemma {:induction false} DriveFrame(naming: Emoji -> FileKey, respond: (nat, string) -> Result<Bytes, Failure>,
                                      fault: (nat, FsCall) -> Option<Failure>, selected: seq<Emoji>,
                                      w: World, n: nat, key: FileKey)
    ensures var p := Drive(naming, respond, fault, selected, w, n);
            key !in Targets(naming, selected[..p.downloaded - n])
            ==> Lookup(p.world.files, key) == Lookup(w.files, key)
    decreases |selected|
  {
    var p := Drive(naming, respond, fault, selected, w, n);
    if selected != [] {
      var (next, error) := Step(naming, respond, fault, selected[0], w);
      StepEffect(naming, respond, fault, selected[0], w);
      if error.None? {
        DriveFrame(naming, respond, fault, selected[1..], next, n + 1, key);
        assert p == Drive(naming, respond, fault, selected[1..], next, n + 1);
        var k := p.downloaded - n;
        assert 1 <= k <= |selected|;
        assert selected[..k][1..] == selected[1..][..k - 1];
        assert Targets(naming, selected[..k])
            == [naming(selected[0])] + Targets(naming, selected[1..][..k - 1]);
      }
    }
  }

  /** The file at `key` exists and holds the bytes of the download `got`. */
  predicate HoldsDownload(files: map<FileKey, Bytes>, key: FileKey, got: Result<Bytes, Failure>)
  {
    key in files && got == Ok(files[key])
  }

  /** Last write wins: a written emoji whose target no later written emoji
      shares leaves that file holding exactly the bytes its own download
      (request number `|w.requested| + j`) returned. */
  lemma {:induction false} DriveLastWriteWins(naming: Emoji -> FileKey, respond: (nat, string) -> Result<Bytes, Failure>,
                                              fault: (nat, FsCall) -> Option<Failure>, selected: seq<Emoji>,
                                              w: World, n: nat, j: nat)
    requires j < Drive(naming, respond, fault, selected, w, n).downloaded - n
    requires naming(selected[j])
             !in Targets(naming, selected[j + 1..Drive(naming, respond, fault, selected, w, n).downloaded - n])
    ensures HoldsDownload(Drive(naming, respond, fault, selected, w, n).world.files, naming(selected[j]),
                          respond(|w.requested| + j, selected[j].staticUrl))
    decreases |selected|
  {
    var p := Drive(naming, respond, fault, selected, w, n);
    var k := p.downloaded - n;
    var (next, error) := Step(naming, respond, fault, selected[0], w);
    StepEffect(naming, respond, fault, selected[0], w);
    var rest := selected[1..];
    assert p == Drive(naming, respond, fault, rest, next, n + 1);
    var key := naming(selected[j]);
    if j == 0 {
      assert selected[1..k] == rest[..k - 1];
      DriveFrame(naming, respond, fault, rest, next, n + 1, key);
      assert Lookup(next.files, key) == Some(respond(|w.requested|, selected[0].staticUrl).value);
    } else {
      assert rest[j - 1] == selected[j];
      assert rest[j..k - 1] == selected[j + 1..k];
      assert |next.requested| + (j - 1) == |w.requested| + j;
      DriveLastWriteWins(naming, respond, fault, rest, next, n + 1, j - 1);
    }
  }

  /** The outcome of `create_dir_all` is dropped: two runs whose filesystems
      answer every write alike, but directory creation differently, make the
      same requests and calls, write the same files, count the same and stop
      with the same error. Only the set of directories can differ. */
  lemma {:induction false} MakeDirsOutcomeIgnored(naming: Emoji -> FileKey, respond: (nat, string) -> Result<Bytes, Failure>,
                                                  fault1: (nat, FsCall) -> Option<Failure>,
                                                  fault2: (nat, FsCall) -> Option<Failure>,
                                                  selected: seq<Emoji>, w1: World, w2: World, n: nat)
    requires forall i: nat, key: FileKey :: fault1(i, WriteTo(key)) == fault2(i, WriteTo(key))
    requires w1.requested == w2.requested && w1.calls == w2.calls && w1.files == w2.files
    ensures var p1 := Drive(naming, respond, fault1, selected, w1, n);
            var p2 := Drive(naming, respond, fault2, selected, w2, n);
            p1.downloaded == p2.downloaded && p1.error == p2.error
            && p1.world.requested == p2.world.requested && p1.world.calls == p2.world.calls
            && p1.world.files == p2.world.files
    decreases |selected|
  {
    if selected != [] {
      var (next1, error1) := Step(naming, respond, fault1, selected[0], w1);
      var (next2, error2) := Step(naming, respond, fault2, selected[0], w2);
      assert fault1(|w1.calls| + 1, WriteTo(naming(selected[0])))
          == fault2(|w2.calls| + 1, WriteTo(naming(selected[0])));
      if error1.None? {
        MakeDirsOutcomeIgnored(naming, respond, fault1, fault2, selected[1..], next1, next2, n + 1);
      }
    }
  }

  /** A manifest of `blob` (category `fun`, a `.png` URL) then `wave`
      (category `other`) run with `--categories fun`, when the `blob` download
      and its write succeed: one request, one file `fun/blob.png` holding the
      downloaded bytes, counter 1, no error. */
  lemma FunScenario(currentDir: Dir, respond: (nat, string) -> Result<Bytes, Failure>,
                    fault: (nat, FsCall) -> Option<Failure>, w: World, blob: Emoji, wave: Emoji,
                    base: string, bytes: Bytes)
    requires blob == Emoji("blob", base + ".png", "fun")
    requires wave.category == "other"
    requires respond(|w.requested|, blob.staticUrl) == Ok(bytes)
    requires fault(|w.calls| + 1, WriteTo(FileKey(currentDir + ["fun"], "blob.png"))).None?
    ensures var p := Drive(TargetIn(currentDir), respond, fault, Selected([blob, wave], FromStr("fun").value.value), w, 0);
            p.downloaded == 1 && p.error.None?
            && p.world.requested == w.requested + [blob.staticUrl]
            && p.world.files == w.files[FileKey(currentDir + ["fun"], "blob.png") := bytes]
  {
    var naming := TargetIn(currentDir);
    var key := FileKey(currentDir + ["fun"], "blob.png");
    SelectOneCategory(blob, wave);
    TargetOfPngUrl(currentDir, blob, base);
    assert naming(blob) == key;
    StepEffect(naming, respond, fault, blob, w);
    var (next, error) := Step(naming, respond, fault, blob, w);
    assert error.None?;
    DriveCons(naming, respond, fault, blob, [], w, 0);
    assert [blob] + [] == [blob];
  }
}
