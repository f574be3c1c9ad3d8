/**
 * The character classes of Python's `re` module for `str` patterns, as far as
 * the identifier scanner and the year resolver use them: `\d`, `\s` and the
 * word characters that decide `\b`.
 */
module RegexClasses {

  /** `\d`: ASCII digits and Thai digits (U+0E50..U+0E59). */
  predicate IsDigit(c: char) {
    ('0' <= c <= '9') || ('\U{0E50}' <= c <= '\U{0E59}')
  }

  /** `\s`: exactly the characters for which Python's `str.isspace()` holds. */
  predicate IsSpace(c: char) {
    || c == ' '
    || ('\t' <= c <= '\r')
    || ('\U{1C}' <= c <= '\U{1F}')
    || c == '\U{85}' || c == '\U{A0}' || c == '\U{1680}'
    || ('\U{2000}' <= c <= '\U{200A}')
    || c == '\U{2028}' || c == '\U{2029}' || c == '\U{202F}'
    || c == '\U{205F}' || c == '\U{3000}'
  }

  /** Letters of the Thai block (categories Lo and Lm); its combining marks are not letters. */
  predicate IsThaiLetter(c: char) {
    ('\U{0E01}' <= c <= '\U{0E30}') || c == '\U{0E32}' || c == '\U{0E33}'
    || ('\U{0E40}' <= c <= '\U{0E46}')
  }

  /** `\w`, which decides where `\b` holds. */
  predicate IsWord(c: char) {
    ('a' <= c <= 'z') || ('A' <= c <= 'Z') || c == '_' || IsDigit(c) || IsThaiLetter(c)
  }

  /** Characters that `re.sub(r"[\s-]", "", ...)` deletes. */
  predicate IsSeparator(c: char) {
    IsSpace(c) || c == '-'
  }

  predicate AllDigits(s: string) {
    forall i :: 0 <= i < |s| ==> IsDigit(s[i])
  }
}
