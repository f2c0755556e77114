/** C string idioms shared by the tools: prefix and suffix tests, character
    classes of the C locale, and searches from the end of a string. */
module Text {

  const PATH_MAX: nat := 4096

  datatype Option<+T> = None | Some(value: T)

  predicate HasPrefix(s: string, prefix: string) {
    |prefix| <= |s| && s[..|prefix|] == prefix
  }

  predicate HasSuffix(s: string, suffix: string) {
    |suffix| <= |s| && s[|s| - |suffix|..] == suffix
  }

  lemma PrefixIsHead(s: string, t: string)
    ensures HasPrefix(s, t) <==> exists rest: string :: s == t + rest
  {
    if HasPrefix(s, t) { assert s == t + s[|t|..]; }
  }

  lemma SuffixIsTail(s: string, t: string)
    ensures HasSuffix(s, t) <==> exists base: string :: s == base + t
  {
    if HasSuffix(s, t) { assert s == s[..|s| - |t|] + t; }
  }

  predicate IsDigit(c: char) { '0' <= c <= '9' }

  predicate IsLower(c: char) { 'a' <= c <= 'z' }

  predicate IsUpper(c: char) { 'A' <= c <= 'Z' }

  predicate IsAlnum(c: char) { IsLower(c) || IsUpper(c) || IsDigit(c) }

  predicate IsSpace(c: char) { c == ' ' || '\t' <= c <= '\r' }

  /** The classes by code, as in ASCII. */
  lemma ClassesByCode(c: char)
    ensures IsAlnum(c) <==> 48 <= c as int <= 57 || 65 <= c as int <= 90 || 97 <= c as int <= 122
    ensures IsDigit(c) <==> 48 <= c as int <= 57
    ensures IsLower(c) <==> 97 <= c as int <= 122
    ensures IsSpace(c) <==> c as int in {9, 10, 11, 12, 13, 32}
  {
  }

  predicate HasDigit(s: string) {
    exists k :: 0 <= k < |s| && IsDigit(s[k])
  }

  lemma HasDigitIs(s: string)
    ensures HasDigit(s) <==> exists c :: c in s && IsDigit(c)
  {
    if HasDigit(s) {
      var k :| 0 <= k < |s| && IsDigit(s[k]);
      assert s[k] in s;
    }
  }

  predicate AllDigits(s: string) {
    forall k :: 0 <= k < |s| ==> IsDigit(s[k])
  }

  /** How many digits the string starts with. */
  function DigitRun(s: string): (n: nat)
    ensures n <= |s|
    ensures AllDigits(s[..n])
    ensures n < |s| ==> !IsDigit(s[n])
  {
    if s == [] || !IsDigit(s[0]) then 0 else
      var n := DigitRun(s[1..]);
      assert s[..n + 1] == [s[0]] + s[1..][..n];
      n + 1
  }

  /** strrchr: the last position of `c`, or -1. */
  function LastIndexOf(s: string, c: char): (r: int)
    ensures -1 <= r < |s|
    ensures r >= 0 ==> s[r] == c
    ensures forall k :: r < k < |s| ==> s[k] != c
  {
    if s == [] then -1
    else if s[|s| - 1] == c then |s| - 1
    else LastIndexOf(s[..|s| - 1], c)
  }

  /** A string cut to fit a buffer of `size` characters. */
  function Fit(s: string, size: nat): (r: string)
    requires size > 0
    ensures r <= s && |r| < size && (|s| < size ==> r == s)
  {
    if |s| < size then s else s[..size - 1]
  }

  lemma LastIndexIs(s: string, c: char, r: int)
    requires 0 <= r < |s| && s[r] == c && forall k :: r < k < |s| ==> s[k] != c
    ensures LastIndexOf(s, c) == r
  {
  }
}
