/**
 * The handful of C string routines the request parser leans on, stated on
 * Dafny strings: `strpbrk`/`strchr` (first occurrence of a character from a
 * set), `strcasecmp` (ASCII case-insensitive equality) and the NUL-terminated
 * view a `char *` into a buffer gives.
 */
module CText {
  import opened Wrappers

  const NUL: char := '\0'

  /** Index of the first character of `s` that belongs to `cs`, as
      `strpbrk(s, cs)` (or `strchr` for a one-character set) finds it. */
  function FirstIndex(s: string, cs: set<char>): (r: Option<nat>)
    ensures r.Some? ==> r.value < |s| && s[r.value] in cs
    ensures r.Some? ==> forall k :: 0 <= k < r.value ==> s[k] !in cs
    ensures r.None? ==> forall k :: 0 <= k < |s| ==> s[k] !in cs
  {
    if |s| == 0 then None
    else if s[0] in cs then Some(0)
    else
      match FirstIndex(s[1..], cs)
      case None => None
      case Some(i) => Some(i + 1)
  }

  /** `tolower` in the C locale: only ASCII upper-case letters change. */
  function Lower(ch: char): char {
    if 'A' <= ch <= 'Z' then (ch as int + 32) as char else ch
  }

  /** Two characters equal but for the case of an ASCII letter. */
  predicate SameIgnoringCase(x: char, y: char) {
    || x == y
    || ('A' <= x <= 'Z' && y as int == x as int + 32)
    || ('A' <= y <= 'Z' && x as int == y as int + 32)
  }

  /** `strcasecmp(a, b) == 0` for strings that hold no NUL: both fold to the
      same lower case. */
  predicate EqualsIgnoreCase(a: string, b: string) {
    |a| == |b| && forall i :: 0 <= i < |a| ==> Lower(a[i]) == Lower(b[i])
  }

  /** Folding to lower case identifies exactly the strings of the same
      length that differ at most in the case of ASCII letters. */
  lemma EqualsIgnoreCaseMeans(a: string, b: string)
    ensures EqualsIgnoreCase(a, b) <==> |a| == |b| && forall i :: 0 <= i < |a| ==> SameIgnoringCase(a[i], b[i])
  {
    forall x: char, y: char ensures Lower(x) == Lower(y) <==> SameIgnoringCase(x, y) {
    }
  }

  /** The C string a `char *` pointing at `s[0]` denotes: everything up to the
      first NUL (or all of `s` when it holds none). */
  function UntilNul(s: string): (r: string)
    ensures |r| <= |s| && r == s[..|r|]
    ensures NUL !in r
    ensures |r| < |s| ==> s[|r|] == NUL
  {
    match FirstIndex(s, {NUL})
    case None => s
    case Some(i) => s[..i]
  }

  /** A NUL at position `e` ends the C string no later than `e`: cutting `s`
      there does not change the string it denotes. */
  lemma UntilNulCut(s: string, e: nat)
    requires e < |s| && s[e] == NUL
    ensures UntilNul(s) == UntilNul(s[..e])
  {
  }
}
