/** The characters that JavaScript's `\s` matches and `trim` removes: white space
    and line terminators in the sense of ECMA-262, sections 12.2 and 12.3. */
module Whitespace {

  predicate IsSpace(c: char) {
    || c == ' ' || '\t' <= c <= '\r' || c == '\U{00A0}' || c == '\U{1680}' || '\U{2000}' <= c <= '\U{200A}'
    || c == '\U{2028}' || c == '\U{2029}' || c == '\U{202F}' || c == '\U{205F}' || c == '\U{3000}' || c == '\U{FEFF}'
  }

  /** Tab, line feed, vertical tab, form feed, carriage return, blank, no-break space, the space separators,
      the line and paragraph separators and the byte order mark. */
  const SPACES := "\t\n\U{B}\U{C}\r \U{A0}\U{1680}\U{2028}\U{2029}\U{202F}\U{205F}\U{3000}\U{FEFF}"

  lemma SpacesAre(c: char)
    ensures IsSpace(c) <==> c in SPACES || '\U{2000}' <= c <= '\U{200A}'
  {
  }

  predicate OnlySpace(s: string) {
    forall i :: 0 <= i < |s| ==> IsSpace(s[i])
  }
}
