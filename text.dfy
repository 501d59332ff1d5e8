/**
 * The string primitives the link decoder relies on, modelled on ordinal
 * (code-point) comparison: ASCII-only lower-casing, the .NET whitespace
 * set, ordinal IndexOf, Path.GetExtension and the unchecked cast to a
 * 32-bit int.
 */
module Text {

  /** Lower-cases ASCII letters and leaves every other character alone. */
  function LowerChar(c: char): char {
    if 'A' <= c <= 'Z' then (c as int + 32) as char else c
  }

  function Lower(s: string): (r: string)
    ensures |r| == |s|
    ensures forall i :: 0 <= i < |s| ==> r[i] == LowerChar(s[i])
  {
    seq(|s|, i requires 0 <= i < |s| => LowerChar(s[i]))
  }

  /** Char.IsWhiteSpace: the Unicode space, line and paragraph separators plus U+0009..U+000D and U+0085. */
  predicate IsWhiteSpace(c: char) {
    var n := c as int;
    (0x09 <= n <= 0x0D) || n == 0x20 || n == 0x85 || n == 0xA0 || n == 0x1680 ||
    (0x2000 <= n <= 0x200A) || n == 0x2028 || n == 0x2029 || n == 0x202F ||
    n == 0x205F || n == 0x3000
  }

  /** String.IsNullOrWhiteSpace for a non-null string: empty or all whitespace. */
  predicate IsBlank(s: string) {
    forall i :: 0 <= i < |s| ==> IsWhiteSpace(s[i])
  }

  predicate OccursAt(s: string, pattern: string, i: int) {
    0 <= i && i + |pattern| <= |s| && s[i..i + |pattern|] == pattern
  }

  /**
   * Ordinal String.IndexOf(pattern, start): the first position at or after
   * `start` where `pattern` occurs, or -1.
   */
  function IndexOf(s: string, pattern: string, start: nat): (r: int)
    requires start <= |s|
    ensures r == -1 || (start <= r && OccursAt(s, pattern, r))
    ensures forall i :: start <= i && (r == -1 || i < r) ==> !OccursAt(s, pattern, i)
    decreases |s| - start
  {
    if OccursAt(s, pattern, start) then start
    else if start == |s| then -1
    else IndexOf(s, pattern, start + 1)
  }

  /** Ordinal String.Contains. */
  predicate Contains(s: string, pattern: string) {
    IndexOf(s, pattern, 0) >= 0
  }

  /** The first occurrence found by IndexOf is the only one that can come first. */
  lemma IndexOfIsFirst(s: string, pattern: string, start: nat, k: nat)
    requires start <= k <= |s|
    requires OccursAt(s, pattern, k)
    requires forall i :: start <= i < k ==> !OccursAt(s, pattern, i)
    ensures IndexOf(s, pattern, start) == k
  {
  }

  lemma IndexOfAbsent(s: string, pattern: string, start: nat)
    requires start <= |s|
    requires forall i :: start <= i <= |s| ==> !OccursAt(s, pattern, i)
    ensures IndexOf(s, pattern, start) == -1
  {
  }

  /** An occurrence inside the right operand of a concatenation is an occurrence in the whole. */
  lemma OccursAtShift(a: string, s: string, pattern: string, j: nat)
    ensures OccursAt(a + s, pattern, |a| + j) <==> OccursAt(s, pattern, j)
  {
    if OccursAt(s, pattern, j) {
      assert (a + s)[|a| + j..|a| + j + |pattern|] == s[j..j + |pattern|];
    }
    if OccursAt(a + s, pattern, |a| + j) {
      assert (a + s)[|a| + j..|a| + j + |pattern|] == s[j..j + |pattern|];
    }
  }

  predicate IsDirectorySeparator(c: char) {
    c == '\\' || c == '/' || c == ':'
  }

  /**
   * Path.GetExtension scanning backwards from position `i`: the text from the
   * last '.' to the end, "" when that '.' is the last character, and "" when
   * a directory or volume separator comes first.
   */
  function ExtensionFrom(path: string, i: nat): (ext: string)
    requires i <= |path|
    ensures ext == "" || (|ext| <= |path| && ext == path[|path| - |ext|..])
    decreases i
  {
    if i == 0 then ""
    else if path[i - 1] == '.' then (if i == |path| then "" else path[i - 1..])
    else if IsDirectorySeparator(path[i - 1]) then ""
    else ExtensionFrom(path, i - 1)
  }

  function Extension(path: string): string {
    ExtensionFrom(path, |path|)
  }

  /** The last four characters are ".lnk", ignoring ASCII case. */
  predicate HasLnkSuffix(path: string) {
    |path| >= 4 && Lower(path[|path| - 4..]) == ".lnk"
  }

  /** The name with its four-character extension removed. */
  function StripLnk(path: string): (r: string)
    requires |path| >= 4
    ensures |r| == |path| - 4 && path == r + path[|path| - 4..]
  {
    path[..|path| - 4]
  }

  /**
   * Path.GetExtension(file).ToLower() == ".lnk" holds exactly when the
   * name ends in ".lnk" in any case.
   */
  lemma {:induction false} ExtensionIsLnk(path: string)
    ensures Lower(Extension(path)) == ".lnk" <==> HasLnkSuffix(path)
  {
    var ext := Extension(path);
    if Lower(ext) == ".lnk" {
      assert |ext| == 4;
      assert ext == path[|path| - 4..];
    }
    if HasLnkSuffix(path) {
      var n := |path|;
      var tail := path[n - 4..];
      assert Lower(tail)[0] == '.' && Lower(tail)[1] == 'l' && Lower(tail)[2] == 'n' && Lower(tail)[3] == 'k';
      assert path[n - 4] == tail[0] && path[n - 3] == tail[1] && path[n - 2] == tail[2] && path[n - 1] == tail[3];
      assert path[n - 1] != '.' && !IsDirectorySeparator(path[n - 1]);
      assert path[n - 2] != '.' && !IsDirectorySeparator(path[n - 2]);
      assert path[n - 3] != '.' && !IsDirectorySeparator(path[n - 3]);
      assert path[n - 4] == '.';
      assert ExtensionFrom(path, n) == ExtensionFrom(path, n - 1);
      assert ExtensionFrom(path, n - 1) == ExtensionFrom(path, n - 2);
      assert ExtensionFrom(path, n - 2) == ExtensionFrom(path, n - 3);
      assert ExtensionFrom(path, n - 3) == tail;
    }
  }

  /** C#'s unchecked (int) cast of a long: the 32-bit two's-complement value congruent to x. */
  function ToInt32(x: int): (r: int)
    ensures -0x8000_0000 <= r < 0x8000_0000
    ensures (x - r) % 0x1_0000_0000 == 0
    ensures -0x8000_0000 <= x < 0x8000_0000 ==> r == x
  {
    var m := x % 0x1_0000_0000;
    if m < 0x8000_0000 then m else m - 0x1_0000_0000
  }
}
