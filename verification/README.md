# mastoyoink, modelled in Dafny

mastoyoink is a small command-line tool that downloads the custom emojis of a
Mastodon instance. It reads the instance's emoji manifest
(`/api/v1/custom_emojis`), keeps the emojis whose category is one of the
comma-separated `--categories`, and saves each one as
`<working dir>/<category>/<shortcode>.<extension>`, counting the files it
wrote. The first failed download or failed write ends the run.

This project models the whole of `src/main.rs`:

- `categories.dfy` — `Categories::from_str`: the `--categories` text is
  split at every `,`, empty pieces included, and parsing never fails.
  `Split`/`Join` are the splitting rule and its inverse.
- `emojis.dfy` — the per-emoji decisions: the category test
  (`Selected`), the extension taken from the URL (`FileType`, the last
  `.`-separated piece of the whole URL), and the file the emoji is written
  to (`Target`).
- `environment.dfy` — the outside world as two objects whose state the run
  changes: a `Network` whose answers come from an oracle `respond(k, url)`
  (`k` counts earlier requests) and which logs every request, and a
  `FileSystem` holding a map from file keys to bytes and a set of
  directories, whose calls can fail as an oracle `fault(k, call)` decides.
- `sync.dfy` — the loop of `main` as a method (`Run`) over those objects,
  proved to follow a pure specification (`Step` for one emoji, `Drive` for
  the loop), and `main` itself after argument parsing (`Sync`).
- `sync_properties.dfy` — what the loop guarantees, proved over `Drive`:
  which URLs are requested and in what order, why a run stops, which files
  change, last write wins, and that the ignored result of
  `create_dir_all` cannot change the outcome. These lemmas take the naming
  rule as a parameter `naming`; `Sync.Run` uses `TargetIn(currentDir)`,
  which sends an emoji to `Target`.

The code and the behaviour one might read into the tool's description
differ in places; the model follows the code:

- there is no retry, no concurrency and no per-emoji error isolation: the
  emojis are handled one after another and the first `?` error ends the run
  (`src/main.rs:67`, `src/main.rs:75`);
- there is no `.png` default in effect: `split` always yields a piece, so
  `ok_or(".png")` never takes its error branch, and a URL without a `.`
  becomes its own extension (`FileTypeWithoutDot`);
- the result of `fs::create_dir_all` is discarded, so a failure there is
  not reported; the write that follows decides (`MakeDirsOutcomeIgnored`).

## Model

| member | source | states |
|---|---|---|
| Categories.Split | src/main.rs:18-23 | splitting at a separator gives one more piece than there are separators, and no piece contains the separator |
| Categories.JoinSplit | src/main.rs:18-23 | joining the pieces back with the separator gives the original text |
| Categories.SplitJoin | src/main.rs:18-23 | any non-empty list of separator-free pieces is recovered by splitting its join, so the split is the only such decomposition |
| Categories.SplitWithoutSep | src/main.rs:18-23 | a text without the separator splits into itself alone |
| Categories.SplitAfterPiece | src/main.rs:18-23 | a separator-free piece followed by the separator splits off as the first piece |
| Categories.FromStr | src/main.rs:17-26 | parsing never fails; there are exactly (number of commas + 1) categories, none contains a comma, and joining them with commas gives the argument back |
| Categories.FromStrEmpty | src/main.rs:17-26 | an empty argument yields one empty category |
| Categories.FromStrTrailingComma | src/main.rs:17-26 | `"a,"` yields `"a"` and an empty category |
| Categories.FromStrDoubleComma | src/main.rs:17-26 | `"fun,,blobs"` yields `"fun"`, `""`, `"blobs"` |
| Emojis.Selected | src/main.rs:61-64 | the selection is never longer than the manifest |
| Emojis.SelectedMembers | src/main.rs:61-64 | an emoji is selected if and only if it is in the manifest and its category is exactly one of the categories |
| Emojis.SelectedMultiplicity | src/main.rs:61-64 | each selected emoji is kept as many times as it occurs in the manifest, and an emoji of another category not at all |
| Emojis.SelectedAppend | src/main.rs:61-64 | selection distributes over concatenation, so the manifest order is kept |
| Emojis.EmptyArgumentSelectsUncategorisedOnly | src/main.rs:62 | with an empty `--categories`, exactly the emojis with an empty category are selected |
| Emojis.SelectOneCategory | src/main.rs:61-64 | with `--categories fun`, a `fun` emoji is kept and an `other` one skipped |
| Emojis.LastPieceUnique | src/main.rs:70 | the last piece of a text after a separator is uniquely determined |
| Emojis.SplitLastIsLastPiece | src/main.rs:70 | the last piece of the split is the suffix after the last separator, or the whole text when there is none |
| Emojis.OccurrencesOfMember | src/main.rs:70 | a text that holds the separator counts it at least once |
| Emojis.OccurrencesOfNonMember | src/main.rs:70 | a text without the separator has no occurrence of it |
| Emojis.FileType | src/main.rs:70 | the extension lookup always succeeds: the `.png` error branch is unreachable |
| Emojis.FileTypeIsLastPiece | src/main.rs:70 | the extension contains no `.` and is the suffix of the URL after its last `.`, or the whole URL when it has none |
| Emojis.FileTypeWithoutDot | src/main.rs:70 | a URL without `.` is its own extension, not `png` |
| Emojis.FileTypeOfFileName | src/main.rs:70-74 | the extension of `<shortcode>.<ext>` is `ext` whenever `ext` has no `.` |
| Emojis.FileNameSplits | src/main.rs:74 | two file names `<shortcode>.<ext>` with dot-free extensions are equal only when shortcode and extension are |
| Emojis.TargetCollision | src/main.rs:70-74 | two emojis go to the same file if and only if they have the same category, the same shortcode and the same extension |
| Emojis.TargetOfPngUrl | src/main.rs:70-74 | an emoji whose URL ends in `.png` is written to `<dir>/<category>/<shortcode>.png` |
| Environment.Network.Get | src/main.rs:67 | a download is logged, in order, and answered by the oracle for that request number |
| Environment.FileSystem.CreateDirAll | src/main.rs:73 | making a directory leaves the files alone; on success the directory and all its ancestors exist, on failure nothing changes but the call log |
| Environment.FileSystem.Write | src/main.rs:75 | a successful write replaces the file's contents with the bytes and touches no other file or directory; a failed one changes no file |
| Sync.Drive | src/main.rs:59-79 | the counter grows by at most the number of selected emojis, and reaches it exactly when the run ends without error |
| Sync.SelectedAt | src/main.rs:61-64 | advancing the loop by one manifest entry adds that entry to the selection seen so far exactly when its category is selected |
| Sync.SaveEmoji | src/main.rs:66-77 | one loop body changes the network and the filesystem exactly as `Step` says: download, directory creation with its outcome dropped, write to the target, and the error `?` would propagate |
| Sync.Run | src/main.rs:59-79 | the loop leaves the world, the counter and the outcome as `Drive` over the selected emojis says; on success the counter equals the number of selected emojis |
| Sync.Sync | src/main.rs:50-83 | a failed manifest fetch or working-directory lookup ends the run with that error, no download and no filesystem change; otherwise the run is `Drive` over the emojis selected by the parsed categories |
| SyncProperties.StepEffect | src/main.rs:66-77 | one step requests the URL, then either fails with the download's error, or makes the directory and writes, failing exactly when the write does; on success the target holds the downloaded bytes |
| SyncProperties.DriveRequests | src/main.rs:61-77 | the requested URLs are those of the first selected emojis in order, each once: the ones counted plus the one that failed, and none after it |
| SyncProperties.DriveAbort | src/main.rs:67-75 | a run that stops was stopped by the selected emoji right after the counted ones: its download failed, or its write, the last filesystem call, failed with the reported error |
| SyncProperties.DriveFrame | src/main.rs:72-75 | a file that is not the target of any written emoji keeps its contents |
| SyncProperties.DriveLastWriteWins | src/main.rs:72-75 | a written emoji's file holds its downloaded bytes at the end unless a later written emoji has the same target |
| SyncProperties.MakeDirsOutcomeIgnored | src/main.rs:73 | whether directory creation succeeds changes neither the counter, the error, the requests, the call log nor the files |
| SyncProperties.FunScenario | src/main.rs:61-77 | with categories `fun`, a manifest of a `fun` emoji and an `other` one downloads only the first, counts 1 and writes `<dir>/fun/blob.png` |

## Left out

- The manifest fetch and JSON decoding (`src/main.rs:52-55`): `Sync.Sync` takes the decoded manifest, or the error that ended the fetch, as a parameter; the manifest request is not in the network's request log.
- Command-line parsing with clap (`src/main.rs:29-40`, `src/main.rs:51`): `Sync.Sync` takes the `--categories` text; `--instance` is only used to build the manifest URL.
- `env::current_dir()` (`src/main.rs:58`) is a parameter, with its possible error.
- The two stages of a download (`get` then `bytes`, `src/main.rs:67`) are merged into one oracle answer; both end the run the same way.
- Printing (`src/main.rs:78`, `src/main.rs:81`) and the async runtime: the run is sequential and has no output besides its result and counter.
- Real path semantics: a directory is a list of components and `Path::join` is appending one; a category that is empty, absolute or contains `/`, and a file name containing `/` (an extension taken from a URL whose last `.` is in the host) are not resolved the way the operating system would.
- Real filesystem effects: a `create_dir_all` that fails halfway, a failed write that truncates the file, and a write failing because its directory is missing are all left to the `fault` oracle, which may or may not fail them.
- Emojis.Selected: its own contract only bounds the length; membership, order and multiplicity are stated by `SelectedMembers`, `SelectedAppend` and `SelectedMultiplicity`.
- Emojis.FileType: its own contract only says the lookup succeeds; what the extension is, is stated by `FileTypeIsLastPiece` and `FileTypeWithoutDot`.
