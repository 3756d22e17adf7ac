/** The PETSCII code table and the character class a chat message is
    filtered to before it reaches a Commodore 64 terminal. */
module PetsciiCodes {
  import opened JsString

  /** The named entries of the code table. */
  datatype Code =
    // colours
    | White | Red | Green | Blue | Orange | Black | Pink
    | DarkGrey | Grey | LightGreen | LightBlue | LightGrey | Purple | Yellow | Cyan
    // cursor control
    | CursorDown | CursorRight | CursorUp | CursorLeft
    // display control
    | ReverseOn | ReverseOff | Clear | Home | Delete | Return
    // special and frame characters
    | UpUnderscore | CardPic01 | CardPic02 | CardPic03 | Circle | EmptyCircle | Heart
    | RoundTopLeft | RoundTopRight | RoundBottomLeft | RoundBottomRight

  predicate IsColour(k: Code)
  {
    k.White? || k.Red? || k.Green? || k.Blue? || k.Orange? || k.Black? || k.Pink?
    || k.DarkGrey? || k.Grey? || k.LightGreen? || k.LightBlue? || k.LightGrey?
    || k.Purple? || k.Yellow? || k.Cyan?
  }

  /** The glyph entries: playing-card, circle, heart and rounded-frame
      pictures, which share their codes with lower-case letters. */
  predicate IsGlyph(k: Code)
  {
    k.CardPic01? || k.CardPic02? || k.CardPic03? || k.Circle? || k.EmptyCircle?
    || k.Heart? || k.RoundTopLeft? || k.RoundTopRight? || k.RoundBottomLeft?
    || k.RoundBottomRight?
  }

  /** The code unit of each entry, as the table writes it. */
  function CodeValue(k: Code): (n: nat)
    ensures n < 256
  {
    match k
    case White => 5
    case Red => 28
    case Green => 30
    case Blue => 31
    case Orange => 129
    case Black => 144
    case Pink => 150
    case DarkGrey => 151
    case Grey => 152
    case LightGreen => 153
    case LightBlue => 154
    case LightGrey => 155
    case Purple => 156
    case Yellow => 158
    case Cyan => 159
    case CursorDown => 17
    case CursorRight => 29
    case CursorUp => 91
    case CursorLeft => 157
    case ReverseOn => 18
    case ReverseOff => 146
    case Clear => 147
    case Home => 19
    case Delete => 20
    case Return => 13
    case UpUnderscore => 163
    case CardPic01 => 97
    case CardPic02 => 120
    case CardPic03 => 122
    case Circle => 113
    case EmptyCircle => 119
    case Heart => 115
    case RoundTopLeft => 117
    case RoundTopRight => 105
    case RoundBottomLeft => 106
    case RoundBottomRight => 107
  }

  /** `String.fromCharCode(CodeValue(k))`: every entry is a single code
      unit that fits in one transmitted byte. */
  function Char(k: Code): (c: char)
    ensures c as int == CodeValue(k) && c as int < 256
  {
    CodeValue(k) as char
  }

  /** The one-code-unit string of an entry. */
  function Str(k: Code): (s: string)
    ensures |s| == 1 && s[0] == Char(k)
  {
    [Char(k)]
  }

  /** The punctuation of the allowed class:
      `, . - _ : ; ! ? * ~ $ & # @ ( ) { } + = < > [ ] ' / " %`. */
  predicate IsPunctuation(c: char)
  {
    c == ',' || c == '.' || c == '-' || c == '_' || c == ':' || c == ';'
    || c == '!' || c == '?' || c == '*' || c == '~' || c == '$' || c == '&'
    || c == '#' || c == '@' || c == '(' || c == ')' || c == '{' || c == '}'
    || c == '+' || c == '=' || c == '<' || c == '>' || c == '[' || c == ']'
    || c == '\'' || c == '/' || c == '"' || c == '%'
  }

  /** Membership in the character class of the allowed-characters
      pattern: space, digits, both letter cases and the punctuation above. */
  predicate IsAllowed(c: char)
  {
    c == ' ' || ('0' <= c <= '9') || ('a' <= c <= 'z') || ('A' <= c <= 'Z')
    || IsPunctuation(c)
  }

  /** The class holds only printable ASCII, so in particular no tab, CR,
      line feed or non-ASCII code unit. */
  lemma AllowedIsPrintableAscii(c: char)
    requires IsAllowed(c)
    ensures 32 <= c as int < 127
    ensures c != '\t' && c != '\r' && c != '\n'
  {
  }

  /** Space is the only whitespace code unit in the class. */
  lemma AllowedWhitespaceIsSpace(c: char)
    requires IsAllowed(c)
    ensures IsWhitespace(c) <==> c == ' '
  {
  }

  /** Lower-casing maps the class into itself, and the class holds the
      `.` of an ellipsis and the space used to join matches. */
  lemma AllowedClosedUnderLower(c: char)
    ensures IsAllowed(c) ==> IsAllowed(LowerChar(c))
    ensures IsAllowed('.') && IsAllowed(' ')
    ensures IsAllowed(c) && 'A' <= c <= 'Z' ==> IsAllowed(LowerChar(c)) && LowerChar(c) != c
  {
  }

  /** Exactly which table entries a sanitised message can contain: the
      cursor-up entry and the glyph entries lie in the allowed class, every
      colour, display-control and other cursor entry lies outside it. */
  lemma TableAgainstClass(k: Code)
    ensures IsAllowed(Char(k)) <==> k.CursorUp? || IsGlyph(k)
  {
    if k.CursorUp? || IsGlyph(k) {
      GlyphsInClass(k);
    } else {
      ControlsOutsideClass(k);
    }
  }

  lemma GlyphsInClass(k: Code)
    requires k.CursorUp? || IsGlyph(k)
    ensures IsAllowed(Char(k))
  {
    if !k.CursorUp? {
      GlyphCodesAreLetters(k);
    }
  }

  /** The glyph entries use the codes of lower-case letters. */
  lemma GlyphCodesAreLetters(k: Code)
    requires IsGlyph(k)
    ensures 'a' as int <= CodeValue(k) <= 'z' as int
  {
  }

  /** Every entry that is neither a glyph nor cursor-up has a code outside
      the class: below the space, or above the ASCII range, or not a
      letter, digit or punctuation mark. */
  lemma ControlsOutsideClass(k: Code)
    requires !k.CursorUp? && !IsGlyph(k)
    ensures !IsAllowed(Char(k))
  {
    ControlCodesOutsideAscii(k);
    if IsAllowed(Char(k)) {
      AllowedIsPrintableAscii(Char(k));
    }
  }

  /** The colour, cursor and display-control entries use codes below the
      space or above the ASCII range. */
  lemma ControlCodesOutsideAscii(k: Code)
    requires !k.CursorUp? && !IsGlyph(k)
    ensures CodeValue(k) < 32 || 127 <= CodeValue(k)
  {
  }

  /** As written, CURSOR_UP is code 91, which is the `[` of the allowed
      class, so a sanitised message can carry the cursor-up entry. */
  lemma CursorUpAsWritten()
    ensures Char(CursorUp) == '['
    ensures IsAllowed(Char(CursorUp))
  {
  }

  /** The PETSCII cursor-up control is 145 (hexadecimal 91). */
  function CursorUpCorrected(): (c: char)
    ensures c as int == 0x91
    ensures !IsAllowed(c)
    ensures c as int < 256
  {
    145 as char
  }

  /** With the corrected cursor-up value, no cursor control can come out of
      the sanitiser: every cursor entry is outside the allowed class. */
  lemma CursorControlsOutsideClass(k: Code)
    requires k.CursorDown? || k.CursorRight? || k.CursorUp? || k.CursorLeft?
    ensures !IsAllowed(if k.CursorUp? then CursorUpCorrected() else Char(k))
  {
  }
}
