/**
 * The Unicode character classes that the generator's regular expressions use
 * (\p{P}, \p{Z}, \p{L}, \p{N}, \s) and Character.toUpperCase. They are given
 * exactly for the Basic Latin and Latin-1 blocks and for the Unicode space
 * separators; of the other blocks only the two upper-case letters that
 * Latin-1 letters map to are letters, and every other character is treated
 * as belonging to none of the letter, digit or punctuation classes.
 */
module CharClasses {

  /** \p{P}: punctuation. */
  predicate IsPunctuation(c: char)
  {
    c in {'!', '"', '#', '%', '&', '\'', '(', ')', '*', ',', '-', '.', '/', ':', ';', '?', '@',
          '[', '\\', ']', '_', '{', '}'}
    || c in {'\U{00A1}', '\U{00A7}', '\U{00AB}', '\U{00B6}', '\U{00B7}', '\U{00BB}', '\U{00BF}'}
  }

  /** \p{Z}: space, line and paragraph separators. */
  predicate IsSpaceSeparator(c: char)
  {
    c in {' ', '\U{00A0}', '\U{1680}', '\U{2028}', '\U{2029}', '\U{202F}', '\U{205F}', '\U{3000}'}
    || ('\U{2000}' <= c <= '\U{200A}')
  }

  /** Java's \s without UNICODE_CHARACTER_CLASS: [ \t\n\x0B\f\r]. */
  predicate IsWhitespace(c: char)
  {
    c in {' ', '\t', '\n', '\U{000B}', '\U{000C}', '\r'}
  }

  /** \p{L}: letters. */
  predicate IsLetter(c: char)
  {
    ('A' <= c <= 'Z') || ('a' <= c <= 'z')
    || c in {'\U{00AA}', '\U{00B5}', '\U{00BA}'}
    || ('\U{00C0}' <= c <= '\U{00FF}' && c != '\U{00D7}' && c != '\U{00F7}')
    || c in {'\U{0178}', '\U{039C}'}
  }

  /** \p{N}: numbers (decimal digits and the Latin-1 superscripts and fractions). */
  predicate IsNumber(c: char)
  {
    ('0' <= c <= '9')
    || c in {'\U{00B2}', '\U{00B3}', '\U{00B9}', '\U{00BC}', '\U{00BD}', '\U{00BE}'}
  }

  /** The small letters of Basic Latin and Latin-1 that have a capital 32 code points below. */
  predicate IsSmallLatin(c: char)
  {
    ('a' <= c <= 'z') || ('\U{00E0}' <= c <= '\U{00FE}' && c != '\U{00F7}')
  }

  /** The capital letters of Basic Latin and Latin-1, sharp s excepted. */
  predicate IsCapitalLatin(c: char)
  {
    ('A' <= c <= 'Z') || ('\U{00C0}' <= c <= '\U{00DE}' && c != '\U{00D7}')
  }

  /**
   * Character.toUpperCase(char) on the modelled blocks: the Latin small
   * letters move 32 code points down, except that the micro sign becomes
   * Greek capital mu, y with diaeresis becomes its capital in Latin
   * Extended-A, and sharp s has no single-character capital and stays.
   */
  function ToUpperCase(c: char): (u: char)
    ensures IsLetter(c) <==> IsLetter(u)
    ensures IsSmallLatin(c) ==> u as int == c as int - 32 && IsCapitalLatin(u)
    ensures c == '\U{00B5}' ==> u == '\U{039C}'
    ensures c == '\U{00FF}' ==> u == '\U{0178}'
    ensures !IsSmallLatin(c) && c != '\U{00B5}' && c != '\U{00FF}' ==> u == c
  {
    if IsSmallLatin(c) then (c as int - 32) as char
    else if c == '\U{00B5}' then '\U{039C}'
    else if c == '\U{00FF}' then '\U{0178}'
    else c
  }
}
