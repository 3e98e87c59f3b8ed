/** Sequence-of-char stand-ins for the few Arduino `String` and C-string
    operations the NMEA engine relies on: `indexOf(char, from)`,
    `indexOf(String)`, `toUpperCase()` and the conversion of a NUL-terminated
    `char` buffer into a `String`. */
module Text {

  /** First position at or after `from` holding `c`, or -1 when there is none
      (Arduino's `String::indexOf(char, fromIndex)`, which also answers -1
      when `fromIndex` is past the end). */
  function IndexOfFrom(s: string, c: char, from: nat): (r: int)
    ensures r == -1 || (from <= r < |s| && s[r] == c)
    ensures forall j :: from <= j < |s| && (r == -1 || j < r) ==> s[j] != c
    decreases |s| - from
  {
    if from >= |s| then -1
    else if s[from] == c then from
    else IndexOfFrom(s, c, from + 1)
  }

  /** `needle` occurs in `hay` starting at position `i`. */
  predicate OccursAt(hay: string, needle: string, i: nat)
  {
    i + |needle| <= |hay| && hay[i..i + |needle|] == needle
  }

  /** First occurrence of `needle` in `hay` at or after `i`, or -1. */
  function FindFrom(hay: string, needle: string, i: nat): (r: int)
    ensures r == -1 || (i <= r && OccursAt(hay, needle, r))
    ensures r == -1 ==> forall j: nat :: i <= j ==> !OccursAt(hay, needle, j)
    ensures r != -1 ==> forall j: nat :: i <= j < r ==> !OccursAt(hay, needle, j)
    decreases |hay| - i
  {
    if i + |needle| > |hay| then -1
    else if hay[i..i + |needle|] == needle then i
    else FindFrom(hay, needle, i + 1)
  }

  /** Arduino's `String::indexOf(String)`: -1 on an empty receiver, otherwise
      the first match as `strstr` finds it. */
  function Find(hay: string, needle: string): (r: int)
    ensures r >= 0 <==> |hay| > 0 && exists j: nat :: OccursAt(hay, needle, j)
    ensures r >= 0 ==> OccursAt(hay, needle, r)
    ensures r >= -1 && forall j: nat :: j < r ==> !OccursAt(hay, needle, j)
  {
    if |hay| == 0 then -1 else FindFrom(hay, needle, 0)
  }

  /** Arduino's `String::toUpperCase()`: `toupper` on every character, which
      in the C locale maps only 'a'..'z'. */
  function Upper(s: string): (r: string)
    ensures |r| == |s|
    ensures forall i :: 0 <= i < |s| ==> ('a' <= s[i] <= 'z' ==> r[i] as int == s[i] as int - 32)
    ensures forall i :: 0 <= i < |s| ==> (!('a' <= s[i] <= 'z') ==> r[i] == s[i])
  {
    seq(|s|, i requires 0 <= i < |s| =>
      if 'a' <= s[i] <= 'z' then (s[i] as int - 32) as char else s[i])
  }

  /** The `String` built from a NUL-terminated `char` buffer: every character
      before the first '\0'. */
  function CString(buf: seq<char>): (r: string)
    requires '\0' in buf
    ensures '\0' !in r
    ensures |r| < |buf| && r == buf[..|r|] && buf[|r|] == '\0'
  {
    buf[..IndexOfFrom(buf, '\0', 0)]
  }
}
