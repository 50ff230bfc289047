/** `ParseRepoID` of githubmetrics/parse.go: split an `"owner/repo"` string on `/` and
    accept it only when there are exactly two parts and neither is empty. `Split` models
    Go's `strings.Split` with a one-character separator; `Join` is its inverse,
    `strings.Join`. */
module RepoId {
  import opened Results

  const Separator: char := '/'

  /** The message of the error `ParseRepoID` returns on a malformed input. */
  const FormatError: string := "incorrect repository format. expected \"<owner>/<repo>\""

  /** Number of occurrences of `c` in `s`. */
  function Occurrences(s: string, c: char): nat
  {
    if s == [] then 0
    else (if s[0] == c then 1 else 0) + Occurrences(s[1..], c)
  }

  /** Go's `strings.Split(s, string(sep))`: the maximal separator-free pieces of `s`, one more
      than there are separators, so that `Split("", sep) == [""]`. */
  function Split(s: string, sep: char): (parts: seq<string>)
    ensures |parts| == Occurrences(s, sep) + 1
    ensures forall i :: 0 <= i < |parts| ==> sep !in parts[i]
    decreases |s|
  {
    if s == [] then [[]]
    else
      var rest := Split(s[1..], sep);
      if s[0] == sep then [[]] + rest
      else [[s[0]] + rest[0]] + rest[1..]
  }

  /** Go's `strings.Join(parts, string(sep))` for a non-empty list of parts. */
  function Join(parts: seq<string>, sep: char): string
    requires |parts| >= 1
  {
    if |parts| == 1 then parts[0]
    else parts[0] + [sep] + Join(parts[1..], sep)
  }

  /** Joining the pieces of a split gives back the original string. */
  lemma {:induction false} JoinSplit(s: string, sep: char)
    ensures Join(Split(s, sep), sep) == s
    decreases |s|
  {
    if s != [] {
      var rest := Split(s[1..], sep);
      JoinSplit(s[1..], sep);
      if s[0] == sep {
        assert ([[]] + rest)[1..] == rest;
      } else if |rest| > 1 {
        assert ([[s[0]] + rest[0]] + rest[1..])[1..] == rest[1..];
        assert s == [s[0]] + s[1..];
      } else {
        assert s == [s[0]] + s[1..];
      }
    }
  }

  lemma {:induction false} SplitSeparatorFree(s: string, sep: char)
    requires sep !in s
    ensures Split(s, sep) == [s]
    decreases |s|
  {
    if s != [] {
      SplitSeparatorFree(s[1..], sep);
      assert [s[0]] + s[1..] == s;
    }
  }

  lemma {:induction false} SplitAfterPiece(p: string, sep: char, t: string)
    requires sep !in p
    ensures Split(p + [sep] + t, sep) == [p] + Split(t, sep)
    decreases |p|
  {
    var s := p + [sep] + t;
    if p == [] {
      assert s[1..] == t;
    } else {
      assert s[1..] == p[1..] + [sep] + t;
      SplitAfterPiece(p[1..], sep, t);
      assert [p[0]] + p[1..] == p;
    }
  }

  /** Splitting a join of separator-free pieces gives back the pieces. */
  lemma {:induction false} SplitJoin(parts: seq<string>, sep: char)
    requires |parts| >= 1
    requires forall i :: 0 <= i < |parts| ==> sep !in parts[i]
    ensures Split(Join(parts, sep), sep) == parts
    decreases |parts|
  {
    if |parts| == 1 {
      SplitSeparatorFree(parts[0], sep);
    } else {
      SplitJoin(parts[1..], sep);
      SplitAfterPiece(parts[0], sep, Join(parts[1..], sep));
      assert [parts[0]] + parts[1..] == parts;
    }
  }

  /** The accepted inputs, stated without `Split`: exactly one `/`, neither first nor last. */
  predicate WellFormed(s: string)
  {
    Occurrences(s, Separator) == 1 && s[0] != Separator && s[|s| - 1] != Separator
  }

  /** The three results of the Go function: `err` is `None` for Go's `nil`. */
  datatype Parsed = Parsed(owner: string, repo: string, err: Option<string>)

  function ParseRepoID(str: string): (r: Parsed)
    ensures r.err.None? <==> WellFormed(str)
    ensures r.err.None? ==>
      && r.owner + [Separator] + r.repo == str
      && r.owner != [] && r.repo != []
      && Separator !in r.owner && Separator !in r.repo
    ensures r.err.Some? ==> r.owner == [] && r.repo == [] && r.err.value == FormatError
  {
    var parts := Split(str, Separator);
    JoinSplit(str, Separator);
    if |parts| != 2 || parts[0] == [] || parts[1] == [] then
      Parsed([], [], Some(FormatError))
    else
      assert Join(parts[1..], Separator) == parts[1];
      assert str == parts[0] + [Separator] + parts[1];
      assert str[0] == parts[0][0];
      assert str[|str| - 1] == parts[1][|parts[1]| - 1];
      Parsed(parts[0], parts[1], None)
  }

  /** Formatting any valid owner and repository as `owner/repo` parses back to them. */
  lemma FormatThenParse(owner: string, repo: string)
    requires owner != [] && repo != []
    requires Separator !in owner && Separator !in repo
    ensures ParseRepoID(owner + [Separator] + repo) == Parsed(owner, repo, None)
  {
    var parts := [owner, repo];
    assert Join(parts[1..], Separator) == repo;
    SplitJoin(parts, Separator);
  }

  /** The inputs the source rejects: no separator, an empty piece, or a second separator. */
  lemma RejectedInputs()
    ensures ParseRepoID("") == Parsed([], [], Some(FormatError))
    ensures ParseRepoID("/") == Parsed([], [], Some(FormatError))
    ensures ParseRepoID("a/") == Parsed([], [], Some(FormatError))
    ensures ParseRepoID("/b") == Parsed([], [], Some(FormatError))
    ensures ParseRepoID("a/b/c") == Parsed([], [], Some(FormatError))
  {
  }
}
