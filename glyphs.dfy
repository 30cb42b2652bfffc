/** The seven-segment glyph table of the clock's display driver.

    `CharToSegment` gives, for each character, the raw segment byte sent to
    the display; characters without an entry are blank. `IsCodeBCompatible`
    says which characters the MAX7219's built-in Code-B font can show
    (digits, '-', 'E', 'H', 'L', 'P' and blank).

    The table values are written in hexadecimal here; only byte values are
    stated, not which physical segment a bit lights. */
module Glyphs {

  /** C's `uint8_t`. */
  type uint8 = x: int | 0 <= x < 256

  /** The characters that have their own `case` in the table: the digits,
      the letters in both cases, and '-', '_', '=' and the space. */
  predicate Listed(c: char)
  {
    IsDigit(c) || IsUpper(c) || IsLower(c) || c == '-' || c == '_' || c == '=' || c == ' '
  }

  /** The Code-B font of the MAX7219: the ten digits, '-', 'E', 'H', 'L', 'P'
      and blank, upper case only. */
  const CodeBFont: set<char> := {
    '0', '1', '2', '3', '4', '5', '6', '7', '8', '9',
    '-', 'E', 'H', 'L', 'P', ' '
  }

  predicate IsDigit(c: char) { '0' <= c <= '9' }

  predicate IsLower(c: char) { 'a' <= c <= 'z' }

  predicate IsUpper(c: char) { 'A' <= c <= 'Z' }

  /** ASCII upper-casing: letters a-z move to A-Z, everything else stays. */
  function ToUpper(c: char): char
  {
    if IsLower(c) then (c as int - 32) as char else c
  }

  /** ASCII lower-casing: letters A-Z move to a-z, everything else stays. */
  function ToLower(c: char): char
  {
    if IsUpper(c) then (c as int + 32) as char else c
  }

  /** Upper- and lower-casing undo each other on letters and leave every
      other character alone. */
  lemma CaseRoundTrip(c: char)
    ensures IsLower(c) ==> IsUpper(ToUpper(c)) && ToLower(ToUpper(c)) == c
    ensures IsUpper(c) ==> IsLower(ToLower(c)) && ToUpper(ToLower(c)) == c
    ensures !IsLower(c) && !IsUpper(c) ==> ToUpper(c) == c && ToLower(c) == c
  {
  }

  /** `charToSegment`: the segment byte for `c`, 0 (blank) when `c` has no
      entry. */
  function CharToSegment(c: char): (r: uint8)
    ensures !Listed(c) ==> r == 0
  {
    match c
    case '0' => 0x7E
    case '1' => 0x30
    case '2' => 0xDA
    case '3' => 0xF2
    case '4' => 0xB6
    case '5' => 0xE6
    case '6' => 0xEE
    case '7' => 0x32
    case '8' => 0xFE
    case '9' => 0xF6
    case 'A' | 'a' => 0xF6
    case 'B' | 'b' => 0xEE
    case 'C' | 'c' => 0xCC
    case 'D' | 'd' => 0xF8
    case 'E' | 'e' => 0xCE
    case 'F' | 'f' => 0xC6
    case 'G' | 'g' => 0xFC
    case 'H' | 'h' => 0xB6
    case 'I' | 'i' => 0x30
    case 'J' | 'j' => 0x78
    case 'K' | 'k' => 0xB6
    case 'L' | 'l' => 0x4C
    case 'M' | 'm' => 0xF6
    case 'N' | 'n' => 0xB0
    case 'O' | 'o' => 0xF8
    case 'P' | 'p' => 0xD6
    case 'Q' | 'q' => 0xF6
    case 'R' | 'r' => 0x90
    case 'S' | 's' => 0xE6
    case 'T' | 't' => 0x4E
    case 'U' | 'u' => 0x78
    case 'V' | 'v' => 0x78
    case 'W' | 'w' => 0x7E
    case 'X' | 'x' => 0xB6
    case 'Y' | 'y' => 0xF4
    case 'Z' | 'z' => 0xDA
    case '-' => 0x02
    case '_' => 0x08
    case '=' => 0x12
    case ' ' => 0x00
    case _ => 0x00
  }

  /** `isCodeBCompatible`. */
  predicate IsCodeBCompatible(value: char): (b: bool)
    ensures b ==> Listed(value)
  {
    ('0' <= value <= '9')
    || value == '-'
    || value == 'E' || value == 'H' || value == 'L' || value == 'P'
    || value == ' '
  }

  /** Each upper-case letter is one of the 26 letter characters. */
  lemma UpperCases(c: char)
    requires IsUpper(c)
    ensures c == 'A' || c == 'B' || c == 'C' || c == 'D' || c == 'E' || c == 'F'
         || c == 'G' || c == 'H' || c == 'I' || c == 'J' || c == 'K' || c == 'L'
         || c == 'M' || c == 'N' || c == 'O' || c == 'P' || c == 'Q' || c == 'R'
         || c == 'S' || c == 'T' || c == 'U' || c == 'V' || c == 'W' || c == 'X'
         || c == 'Y' || c == 'Z'
  {
  }

  /** A character without an entry falls through to the default: blank. */
  lemma UnlistedIsBlank(c: char)
    requires !Listed(c)
    ensures CharToSegment(c) == 0
  {
  }

  /** The table is blank exactly for the space and for characters it does
      not list; every other listed character lights at least one segment. */
  lemma BlankExactly(c: char)
    ensures CharToSegment(c) == 0 <==> (c == ' ' || !Listed(c))
  {
  }

  /** The letters A to E and their lower-case forms share patterns. */
  lemma CasesAgreeAE(c: char)
    requires 'A' <= c <= 'E'
    ensures CharToSegment(ToLower(c)) == CharToSegment(c)
  {
    UpperCases(c);
    if c == 'A' {
      assert ToLower(c) == 'a';
    } else if c == 'B' {
      assert ToLower(c) == 'b';
    } else if c == 'C' {
      assert ToLower(c) == 'c';
    } else if c == 'D' {
      assert ToLower(c) == 'd';
    } else if c == 'E' {
      assert ToLower(c) == 'e';
    }
  }

  /** The letters F to J and their lower-case forms share patterns. */
  lemma CasesAgreeFJ(c: char)
    requires 'F' <= c <= 'J'
    ensures CharToSegment(ToLower(c)) == CharToSegment(c)
  {
    UpperCases(c);
    if c == 'F' {
      assert ToLower(c) == 'f';
    } else if c == 'G' {
      assert ToLower(c) == 'g';
    } else if c == 'H' {
      assert ToLower(c) == 'h';
    } else if c == 'I' {
      assert ToLower(c) == 'i';
    } else if c == 'J' {
      assert ToLower(c) == 'j';
    }
  }

  /** The letters K to N and their lower-case forms share patterns. */
  lemma CasesAgreeKN(c: char)
    requires 'K' <= c <= 'N'
    ensures CharToSegment(ToLower(c)) == CharToSegment(c)
  {
    UpperCases(c);
    if c == 'K' {
      assert ToLower(c) == 'k';
    } else if c == 'L' {
      assert ToLower(c) == 'l';
    } else if c == 'M' {
      assert ToLower(c) == 'm';
    } else if c == 'N' {
      assert ToLower(c) == 'n';
    }
  }

  /** The letters O to Q and their lower-case forms share patterns. */
  lemma CasesAgreeOQ(c: char)
    requires 'O' <= c <= 'Q'
    ensures CharToSegment(ToLower(c)) == CharToSegment(c)
  {
    UpperCases(c);
    if c == 'O' {
      assert ToLower(c) == 'o';
    } else if c == 'P' {
      assert ToLower(c) == 'p';
    } else if c == 'Q' {
      assert ToLower(c) == 'q';
    }
  }

  /** The letters R to T and their lower-case forms share patterns. */
  lemma CasesAgreeRT(c: char)
    requires 'R' <= c <= 'T'
    ensures CharToSegment(ToLower(c)) == CharToSegment(c)
  {
    UpperCases(c);
    if c == 'R' {
      assert ToLower(c) == 'r';
    } else if c == 'S' {
      assert ToLower(c) == 's';
    } else if c == 'T' {
      assert ToLower(c) == 't';
    }
  }

  /** The letters U to W and their lower-case forms share patterns. */
  lemma CasesAgreeUW(c: char)
    requires 'U' <= c <= 'W'
    ensures CharToSegment(ToLower(c)) == CharToSegment(c)
  {
    UpperCases(c);
    if c == 'U' {
      assert ToLower(c) == 'u';
    } else if c == 'V' {
      assert ToLower(c) == 'v';
    } else if c == 'W' {
      assert ToLower(c) == 'w';
    }
  }

  /** The letters X to Z and their lower-case forms share patterns. */
  lemma CasesAgreeXZ(c: char)
    requires 'X' <= c <= 'Z'
    ensures CharToSegment(ToLower(c)) == CharToSegment(c)
  {
    UpperCases(c);
    if c == 'X' {
      assert ToLower(c) == 'x';
    } else if c == 'Y' {
      assert ToLower(c) == 'y';
    } else if c == 'Z' {
      assert ToLower(c) == 'z';
    }
  }

  /** An upper-case letter and its lower-case form share a pattern. */
  lemma LetterCasesAgree(c: char)
    requires IsUpper(c)
    ensures CharToSegment(ToLower(c)) == CharToSegment(c)
  {
    if c <= 'E' {
      CasesAgreeAE(c);
    } else if c <= 'J' {
      CasesAgreeFJ(c);
    } else if c <= 'N' {
      CasesAgreeKN(c);
    } else if c <= 'Q' {
      CasesAgreeOQ(c);
    } else if c <= 'T' {
      CasesAgreeRT(c);
    } else if c <= 'W' {
      CasesAgreeUW(c);
    } else {
      CasesAgreeXZ(c);
    }
  }

  /** Letters are looked up without regard to case: upper- and lower-casing
      a character never changes its pattern. */
  lemma CaseInsensitive(c: char)
    ensures CharToSegment(ToUpper(c)) == CharToSegment(c)
    ensures CharToSegment(ToLower(c)) == CharToSegment(c)
  {
    if IsUpper(c) {
      LetterCasesAgree(c);
    } else if IsLower(c) {
      LetterCasesAgree(ToUpper(c));
      CaseRoundTrip(c);
    }
  }

  /** The letters drawn with another letter's pattern: K and X as H, M as
      A, V as U. */
  lemma LetterAliases()
    ensures CharToSegment('K') == CharToSegment('H') == CharToSegment('X')
    ensures CharToSegment('M') == CharToSegment('A')
    ensures CharToSegment('V') == CharToSegment('U')
  {
  }

  /** The letters drawn with a digit's pattern: S as 5, W as 0, Z as 2. */
  lemma DigitAliases()
    ensures CharToSegment('S') == CharToSegment('5')
    ensures CharToSegment('W') == CharToSegment('0')
    ensures CharToSegment('Z') == CharToSegment('2')
  {
  }

  /** No two digits share a pattern, so a shown digit can be read back. */
  lemma DigitsDistinct(x: char, y: char)
    requires IsDigit(x) && IsDigit(y)
    requires CharToSegment(x) == CharToSegment(y)
    ensures x == y
  {
  }

  /** The predicate accepts exactly the Code-B font, and is case-sensitive:
      'e', 'h', 'l' and 'p' are rejected though the raw table draws them. */
  lemma CodeBExactly(c: char)
    ensures IsCodeBCompatible(c) <==> c in CodeBFont
    ensures !IsCodeBCompatible('e') && !IsCodeBCompatible('h')
    ensures !IsCodeBCompatible('l') && !IsCodeBCompatible('p')
  {
  }

  /** Every Code-B character has its own entry in the raw table, so the two
      display modes agree on which of these characters are blank. */
  lemma CodeBListed(c: char)
    requires IsCodeBCompatible(c)
    ensures Listed(c)
    ensures CharToSegment(c) == 0 <==> c == ' '
  {
  }
}
