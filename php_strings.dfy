/**
 * The PHP string built-ins the package relies on, stated over Dafny strings:
 * `empty`, `implode`, `rtrim` with a character list of one, `trim` with its
 * default character list, `basename` with a suffix, and Laravel's `Str::endsWith`.
 */
module PhpStrings {

  /** PHP's `empty` on a string: true for "" and also for "0". */
  predicate IsEmpty(s: string) {
    s == "" || s == "0"
  }

  /** Laravel's `Str::endsWith`: an empty needle never matches. */
  predicate EndsWith(haystack: string, needle: string) {
    needle != "" && |needle| <= |haystack| && haystack[|haystack| - |needle|..] == needle
  }

  /** `implode(sep, parts)`: the parts in order with `sep` between neighbours. */
  function Implode(sep: string, parts: seq<string>): string
    decreases |parts|
  {
    if |parts| == 0 then ""
    else if |parts| == 1 then parts[0]
    else Implode(sep, parts[..|parts| - 1]) + sep + parts[|parts| - 1]
  }

  /** Joining two non-empty runs of parts puts exactly one separator at the seam. */
  lemma {:induction false} ImplodeAppend(sep: string, a: seq<string>, b: seq<string>)
    requires a != [] && b != []
    ensures Implode(sep, a + b) == Implode(sep, a) + sep + Implode(sep, b)
    decreases |b|
  {
    if |b| == 1 {
      assert (a + b)[..|a + b| - 1] == a;
    } else {
      var b' := b[..|b| - 1];
      assert (a + b)[..|a + b| - 1] == a + b';
      ImplodeAppend(sep, a, b');
    }
  }

  /** The first character of an implosion is the first character of the first part. */
  lemma {:induction false} ImplodeStartsWith(sep: string, parts: seq<string>)
    requires parts != [] && parts[0] != ""
    ensures Implode(sep, parts) != "" && Implode(sep, parts)[0] == parts[0][0]
    decreases |parts|
  {
    if |parts| > 1 {
      ImplodeStartsWith(sep, parts[..|parts| - 1]);
    }
  }

  /** `rtrim(s, c)`: removes every trailing occurrence of `c`. */
  function RTrim(s: string, c: char): (r: string)
    ensures |r| <= |s| && r == s[..|r|]
    ensures forall i :: |r| <= i < |s| ==> s[i] == c
    ensures r == "" || r[|r| - 1] != c
    decreases |s|
  {
    if s != "" && s[|s| - 1] == c then RTrim(s[..|s| - 1], c) else s
  }

  /** The characters PHP's `trim` strips when given no character list. */
  const TrimmedChars: set<char> := {' ', '\t', '\n', '\r', '\0', '\U{000B}'}

  /** Left half of `trim`. */
  function TrimStart(s: string): (r: string)
    ensures |r| <= |s| && r == s[|s| - |r|..]
    ensures forall i :: 0 <= i < |s| - |r| ==> s[i] in TrimmedChars
    ensures r == "" || r[0] !in TrimmedChars
    decreases |s|
  {
    if s != "" && s[0] in TrimmedChars then TrimStart(s[1..]) else s
  }

  /** Right half of `trim`. */
  function TrimEnd(s: string): (r: string)
    ensures |r| <= |s| && r == s[..|r|]
    ensures forall i :: |r| <= i < |s| ==> s[i] in TrimmedChars
    ensures r == "" || r[|r| - 1] !in TrimmedChars
    decreases |s|
  {
    if s != "" && s[|s| - 1] in TrimmedChars then TrimEnd(s[..|s| - 1]) else s
  }

  /** `trim(s)`: strips the default whitespace characters from both ends. */
  function Trim(s: string): string {
    TrimEnd(TrimStart(s))
  }

  /** A text that neither starts nor ends with whitespace survives `trim` of it
      followed by one newline unchanged, without the newline. */
  lemma TrimDropsFinalNewline(s: string)
    requires s != "" && s[0] !in TrimmedChars && s[|s| - 1] !in TrimmedChars
    ensures Trim(s + "\n") == s
  {
    var t := s + "\n";
    assert TrimStart(t) == t;
    assert t[..|t| - 1] == s;
    assert TrimEnd(t) == TrimEnd(s);
  }

  /** `basename(file, suffix)` on a bare file name: the suffix is cut off only
      when the name ends with it and is strictly longer than it. */
  function Basename(file: string, suffix: string): string {
    if |suffix| < |file| && file[|file| - |suffix|..] == suffix
    then file[..|file| - |suffix|]
    else file
  }

  /** Appending the suffix to a non-empty base and taking the base name again
      gives the base back. */
  lemma BasenameOfSuffixed(base: string, suffix: string)
    requires base != ""
    ensures Basename(base + suffix, suffix) == base
  {
    var f := base + suffix;
    assert f[|f| - |suffix|..] == suffix;
    assert f[..|f| - |suffix|] == base;
  }
}
