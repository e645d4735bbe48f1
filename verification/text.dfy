/**
 * String vocabulary shared by the codec, the prop extraction and the naming
 * helpers: prefix and suffix tests, the JavaScript whitespace set used by
 * `String.prototype.trim` and `Number(...)`, and ASCII case mapping.
 */
module Text {

  predicate StartsWith(s: string, p: string) {
    |p| <= |s| && s[..|p|] == p
  }

  predicate EndsWith(s: string, p: string) {
    |p| <= |s| && s[|s| - |p|..] == p
  }

  /** The WhiteSpace and LineTerminator code points of ECMAScript. */
  predicate IsJsWhitespace(c: char) {
    var n := c as int;
    || (0x09 <= n <= 0x0D) || n == 0x20 || n == 0xA0 || n == 0x1680
    || (0x2000 <= n <= 0x200A) || n == 0x2028 || n == 0x2029
    || n == 0x202F || n == 0x205F || n == 0x3000 || n == 0xFEFF
  }

  /** Every character is whitespace; the empty string is blank. */
  predicate IsBlank(s: string) {
    forall i :: 0 <= i < |s| ==> IsJsWhitespace(s[i])
  }

  predicate IsLowerAscii(c: char) {
    'a' <= c <= 'z'
  }

  predicate IsUpperAscii(c: char) {
    'A' <= c <= 'Z'
  }

  function UpperAscii(c: char): (u: char)
    requires IsLowerAscii(c)
    ensures IsUpperAscii(u)
  {
    (c as int - 32) as char
  }

  /** ASCII lower-casing of one character; every other character is kept. */
  function LowerChar(c: char): (l: char)
    ensures !IsUpperAscii(l)
    ensures !IsUpperAscii(c) ==> l == c
  {
    if IsUpperAscii(c) then (c as int + 32) as char else c
  }

  /** ASCII lower-casing, as the DOM applies it to HTML attribute names. */
  function LowerAscii(s: string): (r: string)
    ensures |r| == |s|
    ensures forall i :: 0 <= i < |s| ==> r[i] == LowerChar(s[i])
  {
    if s == [] then [] else [LowerChar(s[0])] + LowerAscii(s[1..])
  }

  predicate HasNoUpperAscii(s: string) {
    forall i :: 0 <= i < |s| ==> !IsUpperAscii(s[i])
  }

  lemma LowerAsciiFixesLowerText(s: string)
    requires HasNoUpperAscii(s)
    ensures LowerAscii(s) == s
  {
  }

  /** Number of leading whitespace characters. */
  function LeadingBlanks(s: string): (n: nat)
    ensures n <= |s|
    ensures IsBlank(s[..n])
    ensures n < |s| ==> !IsJsWhitespace(s[n])
  {
    if s == [] || !IsJsWhitespace(s[0]) then 0
    else
      var m := LeadingBlanks(s[1..]);
      assert s[1..][..m] == s[1..m + 1];
      m + 1
  }

  /** Number of trailing whitespace characters. */
  function TrailingBlanks(s: string): (n: nat)
    ensures n <= |s|
    ensures IsBlank(s[|s| - n..])
    ensures n < |s| ==> !IsJsWhitespace(s[|s| - n - 1])
  {
    if s == [] || !IsJsWhitespace(s[|s| - 1]) then 0
    else
      var m := TrailingBlanks(s[..|s| - 1]);
      assert s[..|s| - 1][|s| - 1 - m..] == s[|s| - 1 - m..|s| - 1];
      m + 1
  }

  /**
   * `String.prototype.trim`: the longest infix that neither starts nor ends
   * with whitespace, obtained by removing only whitespace at both ends.
   */
  function Trim(s: string): (r: string)
    ensures exists i, j :: 0 <= i <= j <= |s| && r == s[i..j] && IsBlank(s[..i]) && IsBlank(s[j..])
    ensures r != [] ==> !IsJsWhitespace(r[0]) && !IsJsWhitespace(r[|r| - 1])
    ensures IsBlank(s) <==> r == []
  {
    var i := LeadingBlanks(s);
    var k := TrailingBlanks(s);
    if i == |s| then
      TrimAllBlank(s);
      []
    else
      TrimSomeText(s, i, k);
      s[i..|s| - k]
  }

  lemma TrimAllBlank(s: string)
    requires LeadingBlanks(s) == |s|
    ensures IsBlank(s)
    ensures IsBlank(s[..|s|]) && IsBlank(s[|s|..]) && s[|s|..|s|] == []
  {
    assert s[..|s|] == s;
  }

  lemma TrimSomeText(s: string, i: nat, k: nat)
    requires i == LeadingBlanks(s) < |s|
    requires k == TrailingBlanks(s)
    ensures i < |s| - k
    ensures !IsBlank(s)
    ensures IsBlank(s[..i]) && IsBlank(s[|s| - k..])
    ensures !IsJsWhitespace(s[i]) && !IsJsWhitespace(s[|s| - k - 1])
  {
    var w := s[i];
    assert !IsJsWhitespace(w);
  }

  /** Trimming an already trimmed name changes nothing. */
  lemma TrimIdempotent(s: string)
    ensures Trim(Trim(s)) == Trim(s)
  {
    var t := Trim(s);
    if t != [] {
      assert LeadingBlanks(t) == 0;
      assert TrailingBlanks(t) == 0;
    }
  }
}
