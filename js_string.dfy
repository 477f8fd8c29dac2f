/**
 * Models of the two JavaScript string built-ins that `normalizeText` relies on:
 * the `\s` class of regular expressions and `String.prototype.toLowerCase`.
 * A string is a sequence of Unicode characters.
 */
module JsString {

  /**
   * The characters `\s` matches: the WhiteSpace code points of section 12.2 of
   * ECMA-262 (tab, vertical tab, form feed, space, no-break space, the zero-width
   * no-break space U+FEFF and the other space separators of category Zs) and the
   * LineTerminator code points of section 12.3 (LF, CR, U+2028, U+2029).
   */
  predicate IsWhitespace(c: char) {
    c == '\t' || c == '\U{000B}' || c == '\U{000C}' || c == ' ' || c == '\U{00A0}'
    || c == '\U{FEFF}' || c == '\U{1680}' || ('\U{2000}' <= c <= '\U{200A}')
    || c == '\U{202F}' || c == '\U{205F}' || c == '\U{3000}'
    || c == '\n' || c == '\r' || c == '\U{2028}' || c == '\U{2029}'
  }

  predicate IsAsciiUpper(c: char) {
    'A' <= c <= 'Z'
  }

  /**
   * The capital letters whose lower-case form this model knows: ASCII `A`-`Z`
   * and the Latin-1 capitals U+00C0 to U+00DE except the multiplication sign U+00D7.
   */
  predicate IsUpper(c: char) {
    IsAsciiUpper(c) || ('\U{00C0}' <= c <= '\U{00DE}' && c != '\U{00D7}')
  }

  /** The lower-case form of one character; each known capital lies 0x20 below its small letter. */
  function ToLowerChar(c: char): (r: char)
    ensures !IsUpper(r)
    ensures IsWhitespace(r) == IsWhitespace(c)
    ensures IsUpper(c) ==> r != c
    ensures !IsUpper(c) ==> r == c
  {
    if IsUpper(c) then (c as int + 0x20) as char else c
  }

  /** `s.toLowerCase()`, character by character. */
  function ToLowerCase(s: string): string {
    if s == [] then [] else [ToLowerChar(s[0])] + ToLowerCase(s[1..])
  }

  /** Lowercasing keeps the length and lowers each character in place; no capital is left. */
  lemma {:induction false} ToLowerCaseAt(s: string)
    ensures |ToLowerCase(s)| == |s|
    ensures forall i :: 0 <= i < |s| ==> ToLowerCase(s)[i] == ToLowerChar(s[i])
    ensures forall i :: 0 <= i < |s| ==> !IsUpper(ToLowerCase(s)[i])
  {
    if s != [] {
      ToLowerCaseAt(s[1..]);
    }
  }
}
