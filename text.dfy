/** The two string operations the handlers apply to page text: String.prototype.trim and toLowerCase. */
module Text {

  /** The code points String.prototype.trim strips: ECMAScript's WhiteSpace
      (tab, vertical tab, form feed, space, no-break space, the byte order mark
      and the Unicode space separators) and LineTerminator (LF, CR, LS, PS). */
  predicate IsJsWhitespace(c: char)
  {
    c == '\t' || c == '\n' || c == '\U{B}' || c == '\U{C}' || c == '\r' || c == ' '
    || c == '\U{A0}' || c == '\U{1680}' || ('\U{2000}' <= c <= '\U{200A}')
    || c == '\U{2028}' || c == '\U{2029}' || c == '\U{202F}' || c == '\U{205F}'
    || c == '\U{3000}' || c == '\U{FEFF}'
  }

  /** How many whitespace characters s starts with. */
  function LeadingWhitespace(s: string): (n: nat)
    ensures n <= |s|
    ensures forall i :: 0 <= i < n ==> IsJsWhitespace(s[i])
    ensures n < |s| ==> !IsJsWhitespace(s[n])
  {
    if s != [] && IsJsWhitespace(s[0]) then 1 + LeadingWhitespace(s[1..]) else 0
  }

  /** The length of s without its trailing whitespace. */
  function EndOfContent(s: string): (n: nat)
    ensures n <= |s|
    ensures forall i :: n <= i < |s| ==> IsJsWhitespace(s[i])
    ensures 0 < n ==> !IsJsWhitespace(s[n - 1])
  {
    if s != [] && IsJsWhitespace(s[|s| - 1]) then EndOfContent(s[..|s| - 1]) else |s|
  }

  /** `value.trim()`: s without its leading and trailing whitespace. The result neither
      starts nor ends with whitespace, and it is empty exactly when s is all whitespace. */
  function Trim(s: string): (r: string)
    ensures |r| <= |s|
    ensures r == [] || (!IsJsWhitespace(r[0]) && !IsJsWhitespace(r[|r| - 1]))
    ensures r == [] <==> forall i :: 0 <= i < |s| ==> IsJsWhitespace(s[i])
  {
    var lead := LeadingWhitespace(s);
    var rest := s[lead..];
    var n := EndOfContent(rest);
    assert n > 0 ==> rest[n - 1] == s[lead + n - 1];
    assert lead < |s| ==> rest[0] == s[lead];
    rest[..n]
  }

  /** The `filled` rule of checkInputValue, `value.trim() !== ''`: the value holds a
      character that is not whitespace. */
  predicate IsFilled(value: string)
    ensures IsFilled(value) <==> exists i :: 0 <= i < |value| && !IsJsWhitespace(value[i])
  {
    Trim(value) != ""
  }

  /** Lower-casing of one character, over ASCII: A-Z map to a-z, everything else is kept. */
  function LowerChar(c: char): char
  {
    if 'A' <= c <= 'Z' then (c as int + 32) as char else c
  }

  /** `toLowerCase()`, character by character. */
  function ToLower(s: string): (r: string)
    ensures |r| == |s| && forall i :: 0 <= i < |s| ==> r[i] == LowerChar(s[i])
    ensures forall i :: 0 <= i < |s| ==> !('A' <= r[i] <= 'Z')
  {
    if s == [] then [] else [LowerChar(s[0])] + ToLower(s[1..])
  }
}
