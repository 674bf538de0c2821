/** The `--categories` argument: `Categories::from_str` splits the text on `,`,
    keeps empty pieces as they are and never fails. */
module Categories {
  import opened Wrappers

  /** The parsed category list (the `value` field of the source's struct). */
  datatype Categories = Categories(value: seq<string>)

  /** `from_str` declares `io::Error` as its error type but never produces one. */
  datatype ParseError = ParseError

  /** `str::split` with a one-character pattern: the pieces between occurrences
      of `sep`, left to right, empty pieces included. There is always one more
      piece than there are separators, and no piece holds a separator. */
  function Split(s: string, sep: char): (parts: seq<string>)
    ensures |parts| == Occurrences(s, sep) + 1
    ensures forall i :: 0 <= i < |parts| ==> sep !in parts[i]
    decreases |s|
  {
    if s == [] then [[]]
    else
      var rest := Split(s[1..], sep);
      if s[0] == sep then [[]] + rest
      else [[s[0]] + rest[0]] + rest[1..]
  }

  /** The number of times `c` occurs in `s`. */
  function Occurrences(s: string, c: char): nat
    decreases |s|
  {
    if s == [] then 0 else (if s[0] == c then 1 else 0) + Occurrences(s[1..], c)
  }

  /** `Occurrences` is the multiplicity of `c` in the multiset of `s`. */
  lemma {:induction false} OccurrencesIsMultiplicity(s: string, c: char)
    ensures Occurrences(s, c) == multiset(s)[c]
    decreases |s|
  {
    if s != [] {
      OccurrencesIsMultiplicity(s[1..], c);
      assert s == [s[0]] + s[1..];
    }
  }

  /** The inverse of `Split`: the pieces with `sep` between consecutive ones. */
  function Join(parts: seq<string>, sep: char): string
  {
    if parts == [] then []
    else if |parts| == 1 then parts[0]
    else parts[0] + [sep] + Join(parts[1..], sep)
  }

  /** `Categories::from_str`. */
  function FromStr(s: string): (r: Result<Categories, ParseError>)
    ensures r.Ok?
    ensures |r.value.value| == multiset(s)[','] + 1
    ensures |r.value.value| == Occurrences(s, ',') + 1
    ensures forall i :: 0 <= i < |r.value.value| ==> ',' !in r.value.value[i]
    ensures Join(r.value.value, ',') == s
  {
    JoinSplit(s, ',');
    OccurrencesIsMultiplicity(s, ',');
    Ok(Categories(Split(s, ',')))
  }

  /** Joining the pieces of `s` gives back `s`, in order. */
  lemma {:induction false} JoinSplit(s: string, sep: char)
    ensures Join(Split(s, sep), sep) == s
    decreases |s|
  {
    if s != [] {
      var rest := Split(s[1..], sep);
      JoinSplit(s[1..], sep);
      assert s == [s[0]] + s[1..];
      if s[0] == sep {
        JoinCons([], rest, sep);
      } else if |rest| == 1 {
        assert Split(s, sep) == [[s[0]] + rest[0]];
      } else {
        JoinCons(rest[0], rest[1..], sep);
        JoinCons([s[0]] + rest[0], rest[1..], sep);
        assert [rest[0]] + rest[1..] == rest;
      }
    }
  }

  /** `Join` on a list of two or more pieces. */
  lemma JoinCons(p: string, ps: seq<string>, sep: char)
    requires |ps| >= 1
    ensures Join([p] + ps, sep) == p + [sep] + Join(ps, sep)
  {
    assert ([p] + ps)[1..] == ps;
  }

  /** A piece without a separator splits to itself alone. */
  lemma {:induction false} SplitWithoutSep(p: string, sep: char)
    requires sep !in p
    ensures Split(p, sep) == [p]
    decreases |p|
  {
    if p != [] {
      SplitWithoutSep(p[1..], sep);
      assert p == [p[0]] + p[1..];
    }
  }

  /** A separator after a separator-free piece ends exactly that piece. */
  lemma {:induction false} SplitAfterPiece(p: string, sep: char, rest: string)
    requires sep !in p
    ensures Split(p + [sep] + rest, sep) == [p] + Split(rest, sep)
    decreases |p|
  {
    var s := p + [sep] + rest;
    if p == [] {
      assert s[1..] == rest;
    } else {
      assert s[1..] == p[1..] + [sep] + rest;
      SplitAfterPiece(p[1..], sep, rest);
      assert [p[0]] + p[1..] == p;
    }
  }

  /** The other round trip: separator-free pieces (at least one, as `Split`
      always returns) are recovered from their join. So `FromStr` is the only
      list of comma-free names whose join is the argument. */
  lemma {:induction false} SplitJoin(parts: seq<string>, sep: char)
    requires |parts| >= 1
    requires forall i :: 0 <= i < |parts| ==> sep !in parts[i]
    ensures Split(Join(parts, sep), sep) == parts
    decreases |parts|
  {
    if |parts| == 1 {
      SplitWithoutSep(parts[0], sep);
    } else {
      SplitJoin(parts[1..], sep);
      SplitAfterPiece(parts[0], sep, Join(parts[1..], sep));
      assert [parts[0]] + parts[1..] == parts;
    }
  }

  /** Empty input parses to one empty name, not to an empty list. */
  lemma FromStrEmpty()
    ensures FromStr("").value.value == [""]
  {
    SplitWithoutSep("", ',');
  }

  /** A trailing comma adds an empty name. */
  lemma FromStrTrailingComma()
    ensures FromStr("a,").value.value == ["a", ""]
  {
    SplitAfterPiece("a", ',', "");
    SplitWithoutSep("", ',');
    assert "a" + [','] + "" == "a,";
  }

  /** Two commas in a row give an empty name between the others. */
  lemma FromStrDoubleComma()
    ensures FromStr("fun,,blobs").value.value == ["fun", "", "blobs"]
  {
    SplitWithoutSep("blobs", ',');
    SplitAfterPiece("", ',', "blobs");
    assert "" + [','] + "blobs" == ",blobs";
    assert Split(",blobs", ',') == ["", "blobs"];
    SplitAfterPiece("fun", ',', ",blobs");
    assert "fun" + [','] + ",blobs" == "fun,,blobs";
    assert Split("fun,,blobs", ',') == ["fun", "", "blobs"];
  }
}
