/**
 * The font table of the .MSG format (`char_table` in Formats/MSG.py):
 * which byte draws which glyph, and its inverse, which the encoder uses to
 * turn text back into bytes.
 *
 * A glyph is either one printable character or a named token that the text
 * form writes in angle brackets, such as `<CIRCLE>`.  Bytes that draw a
 * run of consecutive letters or digits are written as ranges; the other
 * entries are listed one by one, in the groups of the source table.
 */
module Font {
  import opened Bytes
  import opened Wrappers

  /** Glyphs that have no character of their own and print as `<NAME>`. */
  datatype Token =
    | LCorner | Dot | Zaire | Yen | RCorner
    | Circle | Triangle | Cross | Square | L1 | L2 | R1 | R2
    | Ellipsis | Hand | Alpha | Omega

  datatype Glyph = Char(c: char) | Tok(t: Token)

  function TokenName(t: Token): string
  {
    match t
    case LCorner => "LCORNER"   case Dot => "DOT"         case Zaire => "ZAIRE"
    case Yen => "YEN"           case RCorner => "RCORNER" case Circle => "CIRCLE"
    case Triangle => "TRIANGLE" case Cross => "CROSS"     case Square => "SQUARE"
    case L1 => "L1"             case L2 => "L2"           case R1 => "R1"
    case R2 => "R2"             case Ellipsis => "..."    case Hand => "HAND"
    case Alpha => "ALPHA"       case Omega => "OMEGA"
  }

  /** The string the table stores for a glyph. */
  function Text(g: Glyph): (s: string)
    ensures g.Char? <==> |s| == 1
  {
    match g
    case Char(c) => [c]
    case Tok(t) => "<" + TokenName(t) + ">"
  }

  /** The character `k` places after `base`. */
  function Shift(base: char, k: int): char
    requires 0 <= k < 26 && base as int + k < 0xD800
  {
    (base as int + k) as char
  }

  /** `char_table[b]`, or None when the byte has no entry. */
  function CharTable(b: Byte): Option<Glyph>
  {
    if b <= 0x09 then Some(Char(Shift('0', b)))
    else if 0x15 <= b <= 0x28 then Some(Char(Shift('A', b - 0x15)))
    else if 0x2A <= b <= 0x2F then Some(Char(Shift('U', b - 0x2A)))
    else if 0x30 <= b <= 0x3D then Some(Char(Shift('a', b - 0x30)))
    else if 0x3F <= b <= 0x4A then Some(Char(Shift('o', b - 0x3F)))
    else Special(b)
  }

  /** The entries of the table outside the runs of digits and letters. */
  function Special(b: Byte): Option<Glyph>
  {
    match b
    // Symbols
    case 0x0A => Some(Char('ç'))  case 0x0B => Some(Char('ß'))  case 0x0C => Some(Char('\''))
    case 0x0D => Some(Char('!'))  case 0x0E => Some(Char('?'))  case 0x0F => Some(Tok(LCorner))
    case 0x10 => Some(Tok(Dot))   case 0x11 => Some(Char('('))  case 0x12 => Some(Char(')'))
    case 0x13 => Some(Char(':'))
    case 0x4B => Some(Char('&'))  case 0x4C => Some(Tok(Zaire)) case 0x4D => Some(Tok(Yen))
    case 0x4E => Some(Char('/'))  case 0x4F => Some(Char(' '))  case 0x50 => Some(Tok(RCorner))
    case 0x51 => Some(Char('~'))  case 0x52 => Some(Char('-'))
    // Buttons
    case 0x54 => Some(Tok(Circle)) case 0x55 => Some(Tok(Triangle)) case 0x56 => Some(Tok(Cross))
    case 0x57 => Some(Tok(Square)) case 0x58 => Some(Tok(L1))       case 0x59 => Some(Tok(L2))
    case 0x5A => Some(Tok(R1))     case 0x5B => Some(Tok(R2))
    // Other symbols
    case 0x5C => Some(Char(','))  case 0x5D => Some(Char('\\')) case 0x5E => Some(Char('.'))
    case 0x5F => Some(Tok(Ellipsis)) case 0x60 => Some(Tok(Hand)) case 0x61 => Some(Char('+'))
    case 0x62 => Some(Char('%'))
    // Letters with accents
    case 0x63 => Some(Char('Ä'))  case 0x64 => Some(Char('À'))  case 0x65 => Some(Char('Â'))
    case 0x66 => Some(Char('È'))  case 0x67 => Some(Char('Ê'))  case 0x69 => Some(Char('É'))
    case 0x6A => Some(Char('Ï'))  case 0x6B => Some(Char('Ì'))  case 0x6C => Some(Char('Ö'))
    case 0x6D => Some(Char('Ô'))  case 0x6E => Some(Char('Ü'))  case 0x6F => Some(Char('Ù'))
    case 0x70 => Some(Char('Û'))  case 0x71 => Some(Char('Ç'))  case 0x72 => Some(Char('ä'))
    case 0x73 => Some(Char('à'))  case 0x74 => Some(Char('â'))  case 0x75 => Some(Char('è'))
    case 0x76 => Some(Char('ê'))  case 0x77 => Some(Char('é'))  case 0x78 => Some(Char('ï'))
    case 0x79 => Some(Char('î'))  case 0x7A => Some(Char('ö'))  case 0x7B => Some(Char('ô'))
    case 0x7C => Some(Char('ü'))  case 0x7E => Some(Char('ù'))  case 0x7F => Some(Char('û'))
    case 0x80 => Some(Tok(Alpha)) case 0x81 => Some(Tok(Omega)) case 0x82 => Some(Char(';'))
    case 0x83 => Some(Char('='))
    // Not drawn by the font, but part of the table
    case 0x86 => Some(Char('\n'))
    case _ => None
  }

  /** The byte whose table entry is the one-character string `[c]`. */
  function CharCode(c: char): Option<Byte>
  {
    var n := c as int;
    if 0x30 <= n <= 0x39 then Some(n - 0x30 + 0x00)         // '0'..'9'
    else if 0x41 <= n <= 0x54 then Some(n - 0x41 + 0x15)    // 'A'..'T'
    else if 0x55 <= n <= 0x5A then Some(n - 0x55 + 0x2A)    // 'U'..'Z'
    else if 0x61 <= n <= 0x6E then Some(n - 0x61 + 0x30)    // 'a'..'n'
    else if 0x6F <= n <= 0x7A then Some(n - 0x6F + 0x3F)    // 'o'..'z'
    else SpecialCode(n)
  }

  /** The inverse of `Special` on characters, by code point. */
  function SpecialCode(n: int): Option<Byte>
  {
    match n
    case 0xE7 => Some(0x0A) /* ç */  case 0xDF => Some(0x0B) /* ß */  case 0x27 => Some(0x0C) /* ' */
    case 0x21 => Some(0x0D) /* ! */  case 0x3F => Some(0x0E) /* ? */  case 0x28 => Some(0x11) /* ( */
    case 0x29 => Some(0x12) /* ) */  case 0x3A => Some(0x13) /* : */  case 0x26 => Some(0x4B) /* & */
    case 0x2F => Some(0x4E) /* / */  case 0x20 => Some(0x4F) /* space */
    case 0x7E => Some(0x51) /* ~ */  case 0x2D => Some(0x52) /* - */  case 0x2C => Some(0x5C) /* , */
    case 0x5C => Some(0x5D) /* backslash */
    case 0x2E => Some(0x5E) /* . */  case 0x2B => Some(0x61) /* + */  case 0x25 => Some(0x62) /* % */
    case 0xC4 => Some(0x63) /* Ä */  case 0xC0 => Some(0x64) /* À */  case 0xC2 => Some(0x65) /* Â */
    case 0xC8 => Some(0x66) /* È */  case 0xCA => Some(0x67) /* Ê */  case 0xC9 => Some(0x69) /* É */
    case 0xCF => Some(0x6A) /* Ï */  case 0xCC => Some(0x6B) /* Ì */  case 0xD6 => Some(0x6C) /* Ö */
    case 0xD4 => Some(0x6D) /* Ô */  case 0xDC => Some(0x6E) /* Ü */  case 0xD9 => Some(0x6F) /* Ù */
    case 0xDB => Some(0x70) /* Û */  case 0xC7 => Some(0x71) /* Ç */  case 0xE4 => Some(0x72) /* ä */
    case 0xE0 => Some(0x73) /* à */  case 0xE2 => Some(0x74) /* â */  case 0xE8 => Some(0x75) /* è */
    case 0xEA => Some(0x76) /* ê */  case 0xE9 => Some(0x77) /* é */  case 0xEF => Some(0x78) /* ï */
    case 0xEE => Some(0x79) /* î */  case 0xF6 => Some(0x7A) /* ö */  case 0xF4 => Some(0x7B) /* ô */
    case 0xFC => Some(0x7C) /* ü */  case 0xF9 => Some(0x7E) /* ù */  case 0xFB => Some(0x7F) /* û */
    case 0x3B => Some(0x82) /* ; */  case 0x3D => Some(0x83) /* = */  case 0x0A => Some(0x86) /* newline */
    case _ => None
  }

  function TokenCode(t: Token): Byte
  {
    match t
    case LCorner => 0x0F  case Dot => 0x10       case Zaire => 0x4C  case Yen => 0x4D
    case RCorner => 0x50  case Circle => 0x54    case Triangle => 0x55
    case Cross => 0x56    case Square => 0x57    case L1 => 0x58     case L2 => 0x59
    case R1 => 0x5A       case R2 => 0x5B        case Ellipsis => 0x5F
    case Hand => 0x60     case Alpha => 0x80     case Omega => 0x81
  }

  /** The token written `<name>`, if there is one. */
  function TokenNamed(name: string): Option<Token>
  {
    match name
    case "LCORNER" => Some(LCorner)   case "DOT" => Some(Dot)       case "ZAIRE" => Some(Zaire)
    case "YEN" => Some(Yen)           case "RCORNER" => Some(RCorner)
    case "CIRCLE" => Some(Circle)     case "TRIANGLE" => Some(Triangle)
    case "CROSS" => Some(Cross)       case "SQUARE" => Some(Square)
    case "L1" => Some(L1)             case "L2" => Some(L2)         case "R1" => Some(R1)
    case "R2" => Some(R2)             case "..." => Some(Ellipsis)  case "HAND" => Some(Hand)
    case "ALPHA" => Some(Alpha)       case "OMEGA" => Some(Omega)
    case _ => None
  }

  /**
   * `inverse_char_table.get(s)`: the byte whose table entry is the string
   * `s`.  The source builds this dictionary by swapping the keys and the
   * values of the table; `InverseOfTable` and `TableOfInverse` prove that
   * this function is that dictionary.
   */
  function Inverse(s: string): Option<Byte>
  {
    if |s| == 1 then CharCode(s[0])
    else if 2 <= |s| && s[0] == '<' && s[|s| - 1] == '>' then
      match TokenNamed(s[1..|s| - 1])
      case Some(t) => Some(TokenCode(t))
      case None => None
    else None
  }

  /** The byte an entry's glyph is stored under, by glyph. */
  function GlyphCode(g: Glyph): Option<Byte>
  {
    match g
    case Char(c) => CharCode(c)
    case Tok(t) => Some(TokenCode(t))
  }

  predicate CodedBack(b: Byte)
  {
    CharTable(b).Some? ==> GlyphCode(CharTable(b).value) == Some(b)
  }

  predicate DecodedBack(c: char)
  {
    CharCode(c).Some? ==> CharTable(CharCode(c).value) == Some(Char(c))
  }

  // The table is checked entry by entry, a group at a time.

  lemma CodedBackDigitsAndLetters(b: Byte)
    requires b <= 0x09 || 0x15 <= b <= 0x28 || 0x2A <= b <= 0x3D || 0x3F <= b <= 0x4A
    ensures CodedBack(b)
  {
  }

  lemma CodedBackSymbols()
    ensures forall b: Byte :: 0x0A <= b <= 0x14 ==> CodedBack(b)
  {
  }

  lemma CodedBackButtons()
    ensures forall b: Byte :: 0x4B <= b <= 0x62 ==> CodedBack(b)
  {
  }

  lemma CodedBackCapitals()
    ensures forall b: Byte :: 0x63 <= b <= 0x71 ==> CodedBack(b)
  {
  }

  lemma CodedBackSmall()
    ensures forall b: Byte :: 0x72 <= b <= 0x7F ==> CodedBack(b)
  {
  }

  lemma CodedBackLast()
    ensures forall b: Byte :: 0x80 <= b ==> CodedBack(b)
  {
  }

  lemma CodedBackAll(b: Byte)
    ensures CodedBack(b)
  {
    if b <= 0x09 || 0x15 <= b <= 0x28 || 0x2A <= b <= 0x3D || 0x3F <= b <= 0x4A {
      CodedBackDigitsAndLetters(b);
    } else if b <= 0x14 {
      CodedBackSymbols();
    } else if b <= 0x62 {
      CodedBackButtons();
    } else if b <= 0x71 {
      CodedBackCapitals();
    } else if b <= 0x7F {
      CodedBackSmall();
    } else {
      CodedBackLast();
    }
  }

  lemma DecodedBackAscii()
    ensures forall c: char :: c as int < 0x30 ==> DecodedBack(c)
  {
  }

  lemma DecodedBackDigitsAndLetters(c: char)
    requires 0x30 <= c as int <= 0x39 || 0x41 <= c as int <= 0x5A || 0x61 <= c as int <= 0x7A
    ensures DecodedBack(c)
  {
  }

  lemma DecodedBackPunctuation()
    ensures forall c: char ::
      (0x3A <= c as int <= 0x40 || 0x5B <= c as int <= 0x60 || 0x7B <= c as int < 0x80) ==> DecodedBack(c)
  {
  }

  lemma DecodedBackCapitals()
    ensures forall c: char :: 0x80 <= c as int < 0xD0 ==> DecodedBack(c)
  {
  }

  lemma DecodedBackCapitalsHigh()
    ensures forall c: char :: 0xD0 <= c as int < 0xE0 ==> DecodedBack(c)
  {
  }

  lemma DecodedBackSmall()
    ensures forall c: char :: 0xE0 <= c as int < 0xF0 ==> DecodedBack(c)
  {
  }

  lemma DecodedBackSmallHigh()
    ensures forall c: char :: 0xF0 <= c as int ==> DecodedBack(c)
  {
  }

  lemma DecodedBackAll(c: char)
    ensures DecodedBack(c)
  {
    var n := c as int;
    if 0x30 <= n <= 0x39 || 0x41 <= n <= 0x5A || 0x61 <= n <= 0x7A {
      DecodedBackDigitsAndLetters(c);
    } else if n < 0x30 {
      DecodedBackAscii();
    } else if n < 0x80 {
      DecodedBackPunctuation();
    } else if n < 0xD0 {
      DecodedBackCapitals();
    } else if n < 0xE0 {
      DecodedBackCapitalsHigh();
    } else if n < 0xF0 {
      DecodedBackSmall();
    } else {
      DecodedBackSmallHigh();
    }
  }

  lemma TokenNamesInvert(t: Token)
    ensures TokenNamed(TokenName(t)) == Some(t)
  {
  }

  lemma TokenCodesInvert(t: Token)
    ensures CharTable(TokenCode(t)) == Some(Tok(t))
  {
  }

  lemma TokenNamedIsName(name: string)
    requires TokenNamed(name).Some?
    ensures TokenName(TokenNamed(name).value) == name
  {
  }

  /** Every entry of the table is found again by the inverse dictionary. */
  lemma InverseOfTable(b: Byte)
    requires CharTable(b).Some?
    ensures Inverse(Text(CharTable(b).value)) == Some(b)
  {
    CodedBackAll(b);
    var g := CharTable(b).value;
    if g.Tok? {
      TokenNamesInvert(g.t);
      var s := Text(g);
      assert s[1..|s| - 1] == TokenName(g.t);
    }
  }

  /** Everything the inverse dictionary returns is an entry of the table. */
  lemma TableOfInverse(s: string)
    requires Inverse(s).Some?
    ensures CharTable(Inverse(s).value).Some?
    ensures Text(CharTable(Inverse(s).value).value) == s
  {
    if |s| == 1 {
      var c := s[0];
      DecodedBackAll(c);
      assert s == [c];
    } else {
      var name := s[1..|s| - 1];
      var t := TokenNamed(name).value;
      TokenNamedIsName(name);
      TokenCodesInvert(t);
      assert s == "<" + name + ">";
    }
  }

  /** Two bytes never share an entry, so the inverse dictionary loses nothing. */
  lemma TableInjective(a: Byte, b: Byte)
    requires CharTable(a).Some? && CharTable(b).Some?
    requires Text(CharTable(a).value) == Text(CharTable(b).value)
    ensures a == b
  {
    InverseOfTable(a);
    InverseOfTable(b);
  }
}
