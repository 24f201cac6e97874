/** Character classes the ingestion code tests for. */
module CharClass {

  /** Whitespace as Python's `str.isspace()` and the Unicode `\s` of `re`
      understand it: the code points with bidirectional class WS, B or S, or
      general category Zs. */
  predicate IsWs(c: char) {
    || ('\t' <= c <= '\r')
    || ('\U{1C}' <= c <= '\U{1F}')
    || c == ' '
    || c == '\U{85}'
    || c == '\U{A0}'
    || c == '\U{1680}'
    || ('\U{2000}' <= c <= '\U{200A}')
    || c == '\U{2028}'
    || c == '\U{2029}'
    || c == '\U{202F}'
    || c == '\U{205F}'
    || c == '\U{3000}'
  }

  /** The class `[,\s]` the free-text parser splits on. */
  predicate IsDelim(c: char) {
    c == ',' || IsWs(c)
  }

  /** The two characters of `strip("'\"")`. */
  predicate IsQuote(c: char) {
    c == '\'' || c == '"'
  }

  /** The class `[0-9a-zA-Z]` the column-name normaliser keeps. */
  predicate IsAsciiAlnum(c: char) {
    ('0' <= c <= '9') || ('a' <= c <= 'z') || ('A' <= c <= 'Z')
  }

  /** What a normalised column name is made of. */
  predicate IsLowerAlnum(c: char) {
    ('0' <= c <= '9') || ('a' <= c <= 'z')
  }

  /** `str.lower()` restricted to ASCII, the only characters left once the
      normaliser has deleted everything outside `[0-9a-zA-Z]`. */
  function ToLowerAscii(c: char): (r: char)
    ensures IsAsciiAlnum(c) ==> IsLowerAlnum(r)
    ensures IsLowerAlnum(c) ==> r == c
    ensures ('A' <= c <= 'Z') ==> r as int == c as int + 32
  {
    if 'A' <= c <= 'Z' then (c as int - 'A' as int + 'a' as int) as char else c
  }
}
