/** Characters, strings and the line-addressed document the tag scanner reads.
    Lines hold no character above U+FFFF, so that one `char` is one UTF-16
    code unit of the editor's line text and string indices are the editor's
    column numbers. */
module Text {

  datatype Option<T> = None | Some(value: T)

  /** The editor buffer: its lines, without line terminators. `lineCount` is `|doc|`. */
  type Document = seq<string>

  /** The regular-expression class `\w`: ASCII letters, digits and underscore. */
  predicate IsWordChar(c: char) {
    ('a' <= c <= 'z') || ('A' <= c <= 'Z') || ('0' <= c <= '9') || c == '_'
  }

  /** The regular-expression class `\s`: white space and line terminators
      (tab, LF, VT, FF, CR, space, NBSP, the Unicode space separators,
      LS, PS and the byte-order mark). */
  predicate IsSpace(c: char) {
    c == '\t' || c == '\n' || c == '\U{000B}' || c == '\U{000C}' || c == '\r' ||
    c == ' ' || c == '\U{00A0}' || c == '\U{1680}' ||
    ('\U{2000}' <= c <= '\U{200A}') ||
    c == '\U{2028}' || c == '\U{2029}' || c == '\U{202F}' || c == '\U{205F}' ||
    c == '\U{3000}' || c == '\U{FEFF}'
  }

  /** Lower-casing of one ASCII character; every other character is kept. */
  function LowerChar(c: char): (r: char)
    ensures 'A' <= c <= 'Z' ==> 'a' <= r <= 'z' && r as int - c as int == 32
    ensures !('A' <= c <= 'Z') ==> r == c
  {
    if 'A' <= c <= 'Z' then (c as int + 32) as char else c
  }

  /** Lower-casing of a string made of ASCII characters. Tag names are runs of
      `\w` characters, on which full Unicode lower-casing agrees with this. */
  function Lower(s: string): (r: string)
    ensures |r| == |s|
    ensures forall i :: 0 <= i < |s| ==> r[i] == LowerChar(s[i])
  {
    seq(|s|, i requires 0 <= i < |s| => LowerChar(s[i]))
  }

  /** Character-wise comparison in which upper- and lower-case ASCII letters agree. */
  predicate EqualIgnoringCase(a: string, b: string) {
    |a| == |b| && forall i :: 0 <= i < |a| ==> LowerChar(a[i]) == LowerChar(b[i])
  }
}
