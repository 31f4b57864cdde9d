/**
 The characters that one atom of a simple regular expression stands for: the sets as ASCII and the
 documentation of the expressions have them, and the tests of the matcher, which decide these sets.
 */
module CharClasses {

  // ---- The sets, by code ----

  predicate Digit(c: char) {
    0x30 <= c as int <= 0x39
  }

  predicate Letter(c: char) {
    0x41 <= c as int <= 0x5A || 0x61 <= c as int <= 0x7A
  }

  /** Tab, line feed, vertical tab, form feed, carriage return and space. */
  predicate Space(c: char) {
    9 <= c as int <= 13 || c as int == 32
  }

  /** The characters of ASCII that print, without letters, digits and the space. */
  predicate Punctuation(c: char) {
    0x21 <= c as int <= 0x7E && !Digit(c) && !Letter(c)
  }

  predicate WordChar(c: char) {
    Letter(c) || Digit(c) || c as int == 0x5F
  }

  /** The letters that are an escape: ten classes and characters that have a name. */
  predicate EscapeLetter(c: char) {
    c in {'D', 'S', 'W', 'd', 's', 'w', 'f', 'n', 'r', 't', 'v'}
  }

  /** The characters that stand for themselves behind a backslash only, or not at all. */
  predicate Meta(c: char) {
    c in {'$', '(', ')', '*', '+', '?', '[', '\\', ']', '^', '{', '|', '}'}
  }

  /** c is in the class of the atom p or \p. */
  predicate InClass(escaped: bool, p: char, c: char) {
    if !escaped then if p == '.' then c as int != 10 else c == p
    else if p == 'd' then Digit(c)
    else if p == 'D' then !Digit(c)
    else if p == 's' then Space(c)
    else if p == 'S' then !Space(c)
    else if p == 'w' then WordChar(c)
    else if p == 'W' then !WordChar(c)
    else if p == 't' then c as int == 9
    else if p == 'n' then c as int == 10
    else if p == 'v' then c as int == 11
    else if p == 'f' then c as int == 12
    else if p == 'r' then c as int == 13
    else Punctuation(p) && c == p
  }

  // ---- The tests ----

  predicate IsAsciiDigit(c: char): (b: bool)
    ensures b <==> Digit(c)
  {
    '0' <= c <= '9'
  }

  predicate IsAsciiPunct(c: char): (b: bool)
    ensures b <==> Punctuation(c)
  {
    c in {'^', '-', '!', '"', '#', '$', '%', '&', '\'', '(', ')', '*', '+', ',', '.', '/', ':', ';', '<', '=', '>', '?',
          '@', '[', '\\', ']', '_', '`', '{', '|', '}', '~'}
  }

  predicate IsRepeat(c: char) {
    c in {'?', '*', '+'}
  }

  predicate IsAsciiWhiteSpace(c: char): (b: bool)
    ensures b <==> Space(c)
  {
    c in {' ', '\U{000C}', '\n', '\r', '\t', '\U{000B}'}
  }

  predicate IsAsciiWordChar(c: char): (b: bool)
    ensures b <==> WordChar(c)
  {
    'a' <= c <= 'z' || 'A' <= c <= 'Z' || '0' <= c <= '9' || c == '_'
  }

  predicate IsValidEscape(c: char): (b: bool)
    ensures b <==> Punctuation(c) || EscapeLetter(c)
  {
    IsAsciiPunct(c) || c in {'d', 'D', 'f', 'n', 'r', 's', 'S', 't', 'v', 'w', 'W'}
  }

  /** The characters behind which no repetition may stand: anchors and repetitions. */
  predicate NotRepeatable(c: char) {
    c in {'^', '$', '?', '*', '+'}
  }

  predicate IsUnsupported(c: char) {
    c in {'(', ')', '[', ']', '{', '}', '|'}
  }

  predicate AtomMatchesChar(escaped: bool, p: char, c: char): (b: bool)
    ensures b <==> InClass(escaped, p, c)
  {
    if escaped then
      match p
      case 'd' => IsAsciiDigit(c)
      case 'D' => !IsAsciiDigit(c)
      case 'f' => c == '\U{000C}'
      case 'n' => c == '\n'
      case 'r' => c == '\r'
      case 's' => IsAsciiWhiteSpace(c)
      case 'S' => !IsAsciiWhiteSpace(c)
      case 't' => c == '\t'
      case 'v' => c == '\U{000B}'
      case 'w' => IsAsciiWordChar(c)
      case 'W' => !IsAsciiWordChar(c)
      case _ => IsAsciiPunct(p) && p == c
    else
      (p == '.' && c != '\n') || p == c
  }

  // ---- What they mean together ----

  lemma MetaIff(c: char)
    ensures Meta(c) <==> c == '\\' || NotRepeatable(c) || IsUnsupported(c)
  {
  }
}
