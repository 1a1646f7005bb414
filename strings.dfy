/** The string operations the collection index relies on: glob prefixes, Ruby's
    `downcase` and Ruby's `split` with a one-character separator. */
module Strings {
  import opened Wrappers

  /** `s` is matched by the glob pattern `prefix*`. */
  predicate HasPrefix(s: string, prefix: string) {
    prefix <= s
  }

  predicate IsUpper(c: char) {
    'A' <= c <= 'Z'
  }

  function LowerChar(c: char): char {
    if IsUpper(c) then (c as int + 32) as char else c
  }

  /** Ruby's `String#downcase` on ASCII letters; every other character is kept. */
  function Downcase(s: string): (r: string)
    ensures |r| == |s|
    ensures forall i :: 0 <= i < |s| ==> r[i] == LowerChar(s[i])
    ensures forall i :: 0 <= i < |r| ==> !IsUpper(r[i])
  {
    if s == [] then [] else [LowerChar(s[0])] + Downcase(s[1..])
  }

  /** Lowercasing twice is lowercasing once. */
  lemma DowncaseIdempotent(s: string)
    ensures Downcase(Downcase(s)) == Downcase(s)
  {
  }

  /** Every field of `s` between occurrences of `sep`, empty fields included. */
  function SplitAll(s: string, sep: char): (r: seq<string>)
    ensures |r| >= 1
    ensures forall i :: 0 <= i < |r| ==> sep !in r[i]
    ensures sep !in s ==> r == [s]
    decreases |s|
  {
    if s == [] then [""]
    else
      var rest := SplitAll(s[1..], sep);
      if s[0] == sep then [""] + rest
      else
        assert sep !in s ==> rest == [s[1..]] && [s[0]] + s[1..] == s;
        [[s[0]] + rest[0]] + rest[1..]
  }

  /** Removes the empty fields at the end, as Ruby's `split` does without a limit. */
  function DropTrailingEmpty(fields: seq<string>): (r: seq<string>)
    ensures r <= fields
    ensures r == [] || r[|r| - 1] != ""
    ensures forall i :: |r| <= i < |fields| ==> fields[i] == ""
  {
    if fields != [] && fields[|fields| - 1] == "" then DropTrailingEmpty(fields[..|fields| - 1])
    else fields
  }

  /** Ruby's `s.split(sep)` for a one-character separator other than a space: the fields
      of `s`, none containing `sep`, with the empty fields at the end removed. */
  function Split(s: string, sep: char): (r: seq<string>)
    ensures forall i :: 0 <= i < |r| ==> sep !in r[i]
    ensures r == [] || r[|r| - 1] != ""
    ensures r <= SplitAll(s, sep)
    ensures forall i :: |r| <= i < |SplitAll(s, sep)| ==> SplitAll(s, sep)[i] == ""
  {
    DropTrailingEmpty(SplitAll(s, sep))
  }

  /** A separator cuts the fields of the two sides apart. */
  lemma {:induction false} SplitAllConcat(x: string, y: string, sep: char)
    ensures SplitAll(x + [sep] + y, sep) == SplitAll(x, sep) + SplitAll(y, sep)
    decreases |x|
  {
    if x == [] {
      assert x + [sep] + y == [sep] + y;
      assert ([sep] + y)[1..] == y;
    } else {
      var s := x + [sep] + y;
      assert s[0] == x[0];
      assert s[1..] == x[1..] + [sep] + y;
      SplitAllConcat(x[1..], y, sep);
    }
  }

  /** A separator at the end adds only an empty field, which `split` drops again. */
  lemma SplitTrailingSeparator(s: string, sep: char)
    ensures Split(s + [sep], sep) == Split(s, sep)
  {
    var fields := SplitAll(s, sep);
    assert s + [sep] == s + [sep] + "" by {}
    SplitAllConcat(s, "", sep);
    assert SplitAll(s + [sep], sep) == fields + [""];
    assert (fields + [""])[..|fields|] == fields;
  }

  /** The last field of `p + sep + j` is `j` whenever `j` is a non-empty field. */
  lemma LastFieldAfterSeparator(p: string, j: string, sep: char)
    requires j != [] && sep !in j
    ensures var fields := Split(p + [sep] + j, sep); fields != [] && fields[|fields| - 1] == j
  {
    SplitAllConcat(p, j, sep);
    var fields := SplitAll(p + [sep] + j, sep);
    assert fields[|fields| - 1] == j;
    assert DropTrailingEmpty(fields) == fields;
  }
}
