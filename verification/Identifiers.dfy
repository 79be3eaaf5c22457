/** Stable identifiers and trimmed text, as all parsers require them. */
module Identifiers {
  import opened Text

  predicate IsSafeChar(c: char) {
    IsAlphanumeric(c) || c == '.' || c == '_' || c == ':' || c == '-'
  }

  predicate IsAlphanumeric(c: char) {
    IsLetter(c) || IsDigit(c)
  }

  /** `^[A-Za-z0-9][A-Za-z0-9._:-]{0,255}$` */
  predicate SafeId(s: string) {
    1 <= |s| <= 256 && IsAlphanumeric(s[0]) && forall i :: 0 <= i < |s| ==> IsSafeChar(s[i])
  }

  /** Not empty, and without white space at either end. */
  predicate IsTrimmedText(s: string) {
    s != "" && !IsSpace(s[0]) && !IsSpace(s[|s| - 1])
  }
}
