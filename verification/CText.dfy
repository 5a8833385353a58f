/** C strings as byte sequences: a `Text` is the content before the terminating NUL. */
module CText {

  type Byte = b: int | 0 <= b < 256

  type Text = seq<Byte>

  const NUL: Byte := 0x00
  const BACKSPACE: Byte := 0x08
  const TAB: Byte := 0x09
  const LF: Byte := 0x0A
  const FORM_FEED: Byte := 0x0C
  const CR: Byte := 0x0D
  const SPACE: Byte := 0x20
  const QUOTE: Byte := 0x22
  const APOSTROPHE: Byte := 0x27
  const PLUS: Byte := 0x2B
  const COMMA: Byte := 0x2C
  const MINUS: Byte := 0x2D
  const DOT: Byte := 0x2E
  const SLASH: Byte := 0x2F
  const STAR: Byte := 0x2A
  const DIGIT_0: Byte := 0x30
  const DIGIT_7: Byte := 0x37
  const DIGIT_9: Byte := 0x39
  const COLON: Byte := 0x3A
  const UPPER_A: Byte := 0x41
  const UPPER_E: Byte := 0x45
  const UPPER_F: Byte := 0x46
  const LEFT_BRACKET: Byte := 0x5B
  const BACKSLASH: Byte := 0x5C
  const RIGHT_BRACKET: Byte := 0x5D
  const LOWER_A: Byte := 0x61
  const LOWER_B: Byte := 0x62
  const LOWER_E: Byte := 0x65
  const LOWER_F: Byte := 0x66
  const LOWER_N: Byte := 0x6E
  const LOWER_R: Byte := 0x72
  const LOWER_T: Byte := 0x74
  const LOWER_U: Byte := 0x75
  const LEFT_BRACE: Byte := 0x7B
  const RIGHT_BRACE: Byte := 0x7D

  /** The bytes of an ASCII text. */
  function Ascii(w: string): (s: Text)
    requires forall i :: 0 <= i < |w| ==> w[i] as int < 128
    ensures |s| == |w| && forall i :: 0 <= i < |s| ==> s[i] == w[i] as int
  {
    seq<Byte>(|w|, i requires 0 <= i < |w| => w[i] as int)
  }

  /** The characters that have names here. */
  lemma NamedCharacters()
    ensures [NUL, BACKSPACE, FORM_FEED] == [0, 8, 12]
    ensures [TAB, LF, CR, SPACE, QUOTE, APOSTROPHE] == Ascii("\t\n\r \"'")
    ensures [PLUS, COMMA, MINUS, DOT, SLASH, STAR, COLON] == Ascii("+,-./*:")
    ensures [DIGIT_0, DIGIT_7, DIGIT_9, UPPER_A, UPPER_E, UPPER_F] == Ascii("079AEF")
    ensures [LEFT_BRACKET, BACKSLASH, RIGHT_BRACKET, LEFT_BRACE, RIGHT_BRACE] == Ascii("[\\]{}")
    ensures [LOWER_A, LOWER_B, LOWER_E, LOWER_F, LOWER_N, LOWER_R, LOWER_T, LOWER_U] == Ascii("abefnrtu")
  {
  }

  /** No NUL inside: the bytes are one C string. */
  predicate NulFree(s: Text) {
    forall i :: 0 <= i < |s| ==> s[i] != NUL
  }

  predicate StartsWith(s: Text, c: Byte) {
    |s| > 0 && s[0] == c
  }

  predicate IsDigit(c: Byte) {
    DIGIT_0 <= c <= DIGIT_9
  }

  predicate StartsWithDigit(s: Text) {
    |s| > 0 && IsDigit(s[0])
  }

  /** Each q written twice. */
  function Doubled(z: Text, q: Byte): Text {
    if z == [] then []
    else (if z[0] == q then [q, q] else [z[0]]) + Doubled(z[1..], q)
  }

  function Min(a: nat, b: nat): nat {
    if a < b then a else b
  }
}
