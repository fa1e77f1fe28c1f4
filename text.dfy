/** Character classes and searches over strings, as the "C" locale and the
    ECMAScript regular-expression grammar define them for narrow characters. */
module Text {
  /** `[[:alnum:]]` in the "C" locale. */
  predicate IsAlnum(c: char) {
    'a' <= c <= 'z' || 'A' <= c <= 'Z' || '0' <= c <= '9'
  }

  /** `[[:digit:]]` in the "C" locale. */
  predicate IsDigit(c: char) {
    '0' <= c <= '9'
  }

  /** The characters the ECMAScript `.` does not match: for narrow characters,
      line feed and carriage return. */
  predicate IsLineTerminator(c: char) {
    c == '\n' || c == '\r'
  }

  predicate StartsWith(s: string, prefix: string) {
    |prefix| <= |s| && s[..|prefix|] == prefix
  }

  /** `std::tolower` in the "C" locale: only the ASCII capitals change. */
  function ToLower(c: char): (r: char)
    ensures !('A' <= r <= 'Z')
    ensures r != c <==> 'A' <= c <= 'Z'
    ensures 'A' <= c <= 'Z' ==> r as int - c as int == 'a' as int - 'A' as int
  {
    if 'A' <= c <= 'Z' then (c as int - 'A' as int + 'a' as int) as char else c
  }

  /** The first position at or after `from` that holds `c`, or `|s|` when there is none.
      This is how a greedy `[^c]+` ends: at the first `c`. */
  function FindFrom(s: string, c: char, from: nat): (i: nat)
    requires from <= |s|
    ensures from <= i <= |s|
    ensures i < |s| ==> s[i] == c
    ensures forall k :: from <= k < i ==> s[k] != c
    decreases |s| - from
  {
    if from == |s| || s[from] == c then from else FindFrom(s, c, from + 1)
  }
}
