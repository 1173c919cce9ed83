/**
 * Character classes of Python's `re` module and `str` methods, as the text
 * pipeline uses them. Whitespace is Python's exact `str.isspace` set (the
 * same set `\s` matches in a `str` pattern and `str.strip()` removes);
 * letters, digits and word characters are the ASCII ones.
 */
module Chars {

  /** Python `str.isspace()`, equivalently `\s` in a `str` regex. */
  predicate IsSpace(c: char) {
    || c == ' ' || c == '\t' || c == '\n' || c == '\r'
    || c == '\U{0B}' || c == '\U{0C}'
    || ('\U{1C}' <= c <= '\U{1F}')
    || c == '\U{85}' || c == '\U{A0}' || c == '\U{1680}'
    || ('\U{2000}' <= c <= '\U{200A}')
    || c == '\U{2028}' || c == '\U{2029}' || c == '\U{202F}' || c == '\U{205F}'
    || c == '\U{3000}'
  }

  /** `\d` restricted to ASCII digits. */
  predicate IsDigit(c: char) {
    '0' <= c <= '9'
  }

  predicate IsLowerLetter(c: char) {
    'a' <= c <= 'z'
  }

  predicate IsUpperLetter(c: char) {
    'A' <= c <= 'Z'
  }

  /** `\w` restricted to ASCII: letters, digits and underscore. */
  predicate IsWord(c: char) {
    IsLowerLetter(c) || IsUpperLetter(c) || IsDigit(c) || c == '_'
  }

  /** `str.lower()` on one character, ASCII letters only. */
  function LowerChar(c: char): (r: char)
    ensures IsUpperLetter(c) ==> IsLowerLetter(r)
    ensures !IsUpperLetter(c) ==> r == c
    ensures IsWord(r) <==> IsWord(c)
    ensures IsSpace(r) <==> IsSpace(c)
  {
    if IsUpperLetter(c) then (c as int + 32) as char else c
  }

  /** The characters `clean_text` keeps: `[a-z0-9\s+./-]`. */
  predicate IsCleanChar(c: char) {
    IsLowerLetter(c) || IsDigit(c) || IsSpace(c) || c == '+' || c == '.' || c == '/' || c == '-'
  }

  /**
   * The character classes the regular expressions of the pipeline repeat
   * with `+`, `*` or `{n,}`.
   */
  datatype CharClass =
    | Blank       // [ \t]
    | Newline     // \n
    | Space       // \s
    | NonSpace    // \S
    | Word        // \w
    | EmailChar   // [\w\.-]
    | PhoneChar   // [\d\s().-]

  predicate InClass(c: char, cls: CharClass) {
    match cls
    case Blank => c == ' ' || c == '\t'
    case Newline => c == '\n'
    case Space => IsSpace(c)
    case NonSpace => !IsSpace(c)
    case Word => IsWord(c)
    case EmailChar => IsWord(c) || c == '.' || c == '-'
    case PhoneChar => IsDigit(c) || IsSpace(c) || c == '(' || c == ')' || c == '.' || c == '-'
  }
}
