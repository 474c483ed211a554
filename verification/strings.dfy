/** The two functions of Go's `strings` package the issuer relies on:
    `strings.Cut` (split around the first separator) and `strings.CutPrefix`.
    Every separator the source passes is a single character (`=` or `:`), so
    the separator is a `char` here. */
module Strings {

  /** The three results of `strings.Cut(s, sep)`. */
  datatype Split = Split(before: string, after: string, found: bool)

  /** The two results of `strings.CutPrefix(s, prefix)`. */
  datatype Trim = Trim(after: string, found: bool)

  /** Splits `s` around the FIRST occurrence of `sep`. When `sep` does not
      occur, the whole of `s` is `before` and `after` is empty. */
  function Cut(s: string, sep: char): (r: Split)
    ensures r.found ==> s == r.before + [sep] + r.after && sep !in r.before
    ensures !r.found ==> r.before == s && r.after == "" && sep !in s
  {
    if s == "" then Split("", "", false)
    else if s[0] == sep then Split("", s[1..], true)
    else
      var rest := Cut(s[1..], sep);
      Split([s[0]] + rest.before, rest.after, rest.found)
  }

  /** Removes `prefix` from the front of `s` when it is there; otherwise
      returns `s` unchanged. */
  function CutPrefix(s: string, prefix: string): (r: Trim)
    ensures r.found <==> prefix <= s
    ensures r.found ==> s == prefix + r.after
    ensures !r.found ==> r.after == s
  {
    if prefix <= s then Trim(s[|prefix|..], true) else Trim(s, false)
  }

  /** Cut is determined by the first separator: any string written as a
      separator-free part, the separator and a rest is cut exactly there,
      whatever the rest contains. */
  lemma {:induction false} CutAtFirst(before: string, sep: char, after: string)
    requires sep !in before
    ensures Cut(before + [sep] + after, sep) == Split(before, after, true)
  {
    var s := before + [sep] + after;
    if before == "" {
      assert s == [sep] + after;
    } else {
      assert s[0] == before[0];
      assert s[1..] == before[1..] + [sep] + after;
      CutAtFirst(before[1..], sep, after);
      assert [before[0]] + before[1..] == before;
    }
  }

  /** A string without the separator is not cut at all. */
  lemma {:induction false} CutAbsent(s: string, sep: char)
    requires sep !in s
    ensures Cut(s, sep) == Split(s, "", false)
  {
    if s != "" {
      assert s[0] in s;
      assert forall c :: c in s[1..] ==> c in s;
      CutAbsent(s[1..], sep);
      assert [s[0]] + s[1..] == s;
    }
  }

  /** CutPrefix gives back exactly the text that follows the prefix. */
  lemma CutPrefixOf(prefix: string, rest: string)
    ensures CutPrefix(prefix + rest, prefix) == Trim(rest, true)
  {
    assert prefix <= prefix + rest;
    assert (prefix + rest)[|prefix|..] == rest;
  }
}
