/** One manifest entry and what the sync loop derives from it: whether it is
    selected, the file extension taken from its URL, and the file it is
    written to. */
module Emojis {
  import opened Wrappers
  import opened Categories
  import opened Environment

  /** An entry of the `/api/v1/custom_emojis` manifest (the source's `Emoji`
      record; unknown JSON fields are dropped when it is decoded). */
  datatype Emoji = Emoji(shortcode: string, staticUrl: string, category: string)

  /** The loop's test: an emoji is processed iff its category is, character
      for character, one of the requested names. */
  predicate IsSelected(e: Emoji, categories: seq<string>)
  {
    e.category in categories
  }

  /** The emojis the loop does not skip, in manifest order. */
  function Selected(manifest: seq<Emoji>, categories: seq<string>): (r: seq<Emoji>)
    ensures |r| <= |manifest|
    decreases |manifest|
  {
    if manifest == [] then []
    else (if IsSelected(manifest[0], categories) then [manifest[0]] else [])
         + Selected(manifest[1..], categories)
  }

  /** An emoji is selected iff it is in the manifest and its category was
      requested. */
  lemma {:induction false} SelectedMembers(manifest: seq<Emoji>, categories: seq<string>, e: Emoji)
    ensures e in Selected(manifest, categories) <==> e in manifest && e.category in categories
    decreases |manifest|
  {
    if manifest != [] {
      SelectedMembers(manifest[1..], categories, e);
      assert manifest == [manifest[0]] + manifest[1..];
    }
  }

  /** Duplicates are each kept: a selected emoji occurs as often in the
      selection as in the manifest, any other not at all. */
  lemma {:induction false} SelectedMultiplicity(manifest: seq<Emoji>, categories: seq<string>, e: Emoji)
    ensures multiset(Selected(manifest, categories))[e]
         == if e.category in categories then multiset(manifest)[e] else 0
    decreases |manifest|
  {
    if manifest != [] {
      SelectedMultiplicity(manifest[1..], categories, e);
      assert manifest == [manifest[0]] + manifest[1..];
    }
  }

  /** Selection keeps manifest order: selecting from two consecutive parts of
      the manifest gives the two selections one after the other. */
  lemma {:induction false} SelectedAppend(a: seq<Emoji>, b: seq<Emoji>, categories: seq<string>)
    ensures Selected(a + b, categories) == Selected(a, categories) + Selected(b, categories)
    decreases |a|
  {
    if a == [] {
      assert a + b == b;
    } else {
      SelectedAppend(a[1..], b, categories);
      assert (a + b)[0] == a[0];
      assert (a + b)[1..] == a[1..] + b;
    }
  }

  /** `x` is the part of `s` after its last `sep`, or all of `s` when `s` has
      no `sep`: a suffix of `s` without `sep` that is all of `s` or comes
      right after a `sep`. */
  predicate IsLastPiece(x: string, s: string, sep: char)
  {
    |x| <= |s| && x == s[|s| - |x|..] && sep !in x
    && (|x| < |s| ==> s[|s| - |x| - 1] == sep)
  }

  /** At most one string is the last piece of `s`. */
  lemma LastPieceUnique(x: string, y: string, s: string, sep: char)
    requires IsLastPiece(x, s, sep) && IsLastPiece(y, s, sep)
    ensures x == y
  {
  }

  /** The last piece `Split` yields is the text after the last separator. */
  lemma {:induction false} SplitLastIsLastPiece(s: string, sep: char)
    ensures IsLastPiece(Split(s, sep)[|Split(s, sep)| - 1], s, sep)
    decreases |s|
  {
    if s != [] {
      var rest := Split(s[1..], sep);
      SplitLastIsLastPiece(s[1..], sep);
      var x := rest[|rest| - 1];
      if s[0] != sep && |rest| == 1 {
        assert Split(s, sep) == [[s[0]] + rest[0]];
        if |x| < |s[1..]| {
          OccurrencesOfMember(s[1..], sep, |s[1..]| - |x| - 1);
          assert false;
        }
        assert s == [s[0]] + s[1..];
      } else {
        assert Split(s, sep)[|Split(s, sep)| - 1] == x;
        assert s[|s| - |x|..] == s[1..][|s[1..]| - |x|..];
        if s[0] != sep && |x| == |s[1..]| {
          assert x == s[1..];
          OccurrencesOfNonMember(s[1..], sep);
          assert false;
        }
      }
    }
  }

  /** A separator that occurs in `s` is counted by `Occurrences`. */
  lemma {:induction false} OccurrencesOfMember(s: string, c: char, i: nat)
    requires i < |s| && s[i] == c
    ensures Occurrences(s, c) > 0
    decreases i
  {
    if i > 0 {
      OccurrencesOfMember(s[1..], c, i - 1);
    }
  }

  /** A character that does not occur is counted zero times. */
  lemma {:induction false} OccurrencesOfNonMember(s: string, c: char)
    requires c !in s
    ensures Occurrences(s, c) == 0
    decreases |s|
  {
    if s != [] {
      OccurrencesOfNonMember(s[1..], c);
    }
  }

  /** `Iterator::last`. */
  function Last(parts: seq<string>): Option<string>
  {
    if parts == [] then None else Some(parts[|parts| - 1])
  }

  /** `url.split(".").last().ok_or(".png")`: the extension of the file the
      emoji is saved as. `split` always yields at least one piece, so the
      `.png` error never occurs. */
  function FileType(url: string): (r: Result<string, string>)
    ensures r.Ok?
  {
    match Last(Split(url, '.'))
    case None => Err(".png")
    case Some(piece) => Ok(piece)
  }

  /** The extension is the text after the last `.` of the whole URL (query
      string and host included), and the whole URL when it has no `.`; it
      never contains a `.`. */
  lemma FileTypeIsLastPiece(url: string)
    ensures IsLastPiece(FileType(url).value, url, '.')
    ensures '.' !in FileType(url).value
  {
    SplitLastIsLastPiece(url, '.');
  }

  /** A URL without a `.` is its own extension (there is no `png` default). */
  lemma FileTypeWithoutDot(url: string)
    requires '.' !in url
    ensures FileType(url) == Ok(url)
  {
    FileTypeIsLastPiece(url);
  }

  /** `String::from(name).add(".").add(file_type)`. */
  function FileName(shortcode: string, ext: string): string
  {
    shortcode + "." + ext
  }

  /** The extension can be read back from the file name. */
  lemma FileTypeOfFileName(shortcode: string, ext: string)
    requires '.' !in ext
    ensures FileType(FileName(shortcode, ext)) == Ok(ext)
  {
    var name := FileName(shortcode, ext);
    assert ext == name[|name| - |ext|..];
    assert IsLastPiece(ext, name, '.');
    FileTypeIsLastPiece(name);
    LastPieceUnique(ext, FileType(name).value, name, '.');
  }

  /** Where the loop writes the emoji: the directory `current_dir/<category>`,
      the file `<shortcode>.<extension>`. */
  function Target(currentDir: Dir, e: Emoji): FileKey
  {
    FileKey(currentDir + [e.category], FileName(e.shortcode, FileType(e.staticUrl).value))
  }

  /** Two emojis go to the same file iff they agree on category, shortcode
      and extension: these are exactly the collisions where a later write
      replaces an earlier one. */
  lemma TargetCollision(currentDir: Dir, e1: Emoji, e2: Emoji)
    ensures Target(currentDir, e1) == Target(currentDir, e2)
        <==> e1.category == e2.category && e1.shortcode == e2.shortcode
             && FileType(e1.staticUrl) == FileType(e2.staticUrl)
  {
    if Target(currentDir, e1) == Target(currentDir, e2) {
      assert (currentDir + [e1.category])[|currentDir|] == e1.category;
      assert (currentDir + [e2.category])[|currentDir|] == e2.category;
      var x1, x2 := FileType(e1.staticUrl).value, FileType(e2.staticUrl).value;
      FileNameSplits(e1.shortcode, x1, e2.shortcode, x2);
    }
  }

  /** A file name determines the shortcode and the extension it was made
      from, when the extensions have no `.` (as `FileType`'s never do). */
  lemma FileNameSplits(shortcode1: string, ext1: string, shortcode2: string, ext2: string)
    requires '.' !in ext1 && '.' !in ext2
    requires FileName(shortcode1, ext1) == FileName(shortcode2, ext2)
    ensures shortcode1 == shortcode2 && ext1 == ext2
  {
    FileTypeOfFileName(shortcode1, ext1);
    FileTypeOfFileName(shortcode2, ext2);
    var name := FileName(shortcode1, ext1);
    assert shortcode1 == name[..|shortcode1|];
    assert shortcode2 == name[..|shortcode2|];
  }

  /** A manifest of two emojis, one in category `fun` and one in `other`,
      filtered by `--categories fun`: only the first is selected. */
  lemma SelectOneCategory(blob: Emoji, wave: Emoji)
    requires blob.category == "fun" && wave.category == "other"
    ensures Selected([blob, wave], FromStr("fun").value.value) == [blob]
  {
    SplitWithoutSep("fun", ',');
    var categories := FromStr("fun").value.value;
    assert categories == ["fun"];
    assert [blob, wave][1..] == [wave];
    assert [wave][1..] == [];
  }

  /** An emoji whose URL ends in `.png` is written as `<shortcode>.png` in
      its category's directory, e.g. `blob` of `fun` to `fun/blob.png`,
      whatever dots come earlier in the URL. */
  lemma TargetOfPngUrl(currentDir: Dir, e: Emoji, base: string)
    requires e.staticUrl == base + ".png"
    ensures Target(currentDir, e) == FileKey(currentDir + [e.category], e.shortcode + ".png")
  {
    FileTypeOfFileName(base, "png");
    assert FileName(base, "png") == e.staticUrl;
  }

  /** `--categories ""` requests only the empty category name: a manifest
      whose entries all have a category selects nothing. */
  lemma EmptyArgumentSelectsUncategorisedOnly(manifest: seq<Emoji>, e: Emoji)
    ensures e in Selected(manifest, FromStr("").value.value) <==> e in manifest && e.category == ""
  {
    SplitWithoutSep("", ',');
    SelectedMembers(manifest, FromStr("").value.value, e);
  }
}
