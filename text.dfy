/** String helpers the components rely on: JavaScript's `String.prototype.trim`,
    which removes leading and trailing white space and line terminators. */
module Text {

  /** The characters `trim` strips: the ECMAScript WhiteSpace and LineTerminator
      code points (tab, vertical tab, form feed, space, no-break space, the byte
      order mark, the Unicode space separators, LF, CR, LS and PS). */
  predicate IsWhitespace(c: char) {
    || c == '\t' || c == '\n' || c == '\U{B}' || c == '\U{C}' || c == '\r'
    || c == ' ' || c == '\U{A0}' || c == '\U{1680}'
    || ('\U{2000}' <= c <= '\U{200A}')
    || c == '\U{2028}' || c == '\U{2029}' || c == '\U{202F}' || c == '\U{205F}'
    || c == '\U{3000}' || c == '\U{FEFF}'
  }

  /** True of the empty string and of strings made only of white space. */
  predicate IsBlank(s: string) {
    forall i :: 0 <= i < |s| ==> IsWhitespace(s[i])
  }

  /** The number of white-space characters `s` starts with: everything before
      that index is white, the character at it (if any) is not. */
  function LeadingBlank(s: string): (n: nat)
    ensures n <= |s|
    ensures forall i :: 0 <= i < n ==> IsWhitespace(s[i])
    ensures n < |s| ==> !IsWhitespace(s[n])
  {
    if s != [] && IsWhitespace(s[0]) then 1 + LeadingBlank(s[1..]) else 0
  }

  /** The index where the white space `s` ends with begins: everything from
      there on is white, the character before it (if any) is not. */
  function TrailingBlankStart(s: string): (n: nat)
    ensures n <= |s|
    ensures forall i :: n <= i < |s| ==> IsWhitespace(s[i])
    ensures 0 < n ==> !IsWhitespace(s[n - 1])
  {
    if s != [] && IsWhitespace(s[|s| - 1]) then TrailingBlankStart(s[..|s| - 1]) else |s|
  }

  /** JavaScript's `s.trim()`: the part of `s` between its leading and its
      trailing white space; empty exactly when `s` is blank. */
  function Trim(s: string): (r: string)
    ensures |r| <= |s|
    ensures r == [] <==> IsBlank(s)
    ensures r != [] ==> !IsWhitespace(r[0]) && !IsWhitespace(r[|r| - 1])
    ensures exists a, b :: 0 <= a <= b <= |s| && r == s[a..b] && IsBlank(s[..a]) && IsBlank(s[b..])
  {
    var start, end := LeadingBlank(s), TrailingBlankStart(s);
    if start < end then
      assert IsBlank(s[..start]) && IsBlank(s[end..]);
      s[start..end]
    else
      assert IsBlank(s[..start]) && IsBlank(s[start..]) && s[start..start] == [];
      []
  }

  /** A trimmed string is left alone by a second `trim`. */
  lemma TrimIdempotent(s: string)
    ensures Trim(Trim(s)) == Trim(s)
  {
    var r := Trim(s);
    if r != [] {
      assert LeadingBlank(r) == 0;
      assert TrailingBlankStart(r) == |r|;
    }
  }
}
