/** What the parser and the printer of cJSON/cJSON.c compute, as functions on texts. */
module JsonSpec {
  import opened CText
  import opened Options

  /** A JSON value.  A number is the exact decimal `mantissa * 10^exponent`. */
  datatype Json =
    | Null
    | False
    | True
    | Number(mantissa: int, exponent: int)
    | String(text: Text)
    | Array(items: seq<Json>)
    | Object(members: seq<Member>)

  datatype Member = Member(name: Text, value: Json)

  /** `Fail` is the parser's null result.  `Outside` marks a string literal whose two passes, the one
      that counts and the one that writes, end at different places, or pass the end of the text: a
      lone final backslash, or `\u` whose four characters reach over the end that was counted. */
  datatype Parse<+T> = Ok(value: T, rest: Text) | Fail | Outside

  // ----- tokens -----

  /** `skip`: every byte up to 32 counts as white space. */
  function Skip(s: Text): (r: Text)
    ensures |r| <= |s|
    ensures r != [] ==> r[0] > 32
  {
    if s != [] && s[0] <= 32 then Skip(s[1..]) else s
  }

  predicate HasPrefix(s: Text, w: Text) {
    |w| <= |s| && s[..|w|] == w
  }

  const NULL_TEXT: Text := [0x6E, 0x75, 0x6C, 0x6C]
  const FALSE_TEXT: Text := [0x66, 0x61, 0x6C, 0x73, 0x65]
  const TRUE_TEXT: Text := [0x74, 0x72, 0x75, 0x65]

  predicate IsHex(c: Byte) {
    DIGIT_0 <= c <= DIGIT_9 || UPPER_A <= c <= UPPER_F || LOWER_A <= c <= LOWER_F
  }

  function HexValue(c: Byte): (v: nat)
    requires IsHex(c)
    ensures v < 16
  {
    if DIGIT_0 <= c <= DIGIT_9 then c - DIGIT_0
    else if UPPER_A <= c <= UPPER_F then 10 + c - UPPER_A
    else 10 + c - LOWER_A
  }

  /** The hexadecimal digits, in both cases. */
  lemma HexDigits(c: Byte)
    ensures IsHex(c) <==> c as char in "0123456789abcdefABCDEF"
    ensures IsHex(c) ==> "0123456789abcdef"[HexValue(c)] == c as char || "0123456789ABCDEF"[HexValue(c)] == c as char
  {
  }

  predicate IsHex4(s: Text) {
    |s| >= 4 && IsHex(s[0]) && IsHex(s[1]) && IsHex(s[2]) && IsHex(s[3])
  }

  /** Four hexadecimal digits, each shifted in by four bits. */
  function Hex4(s: Text): (h: nat)
    requires IsHex4(s)
    ensures h < 0x10000
  {
    ((HexValue(s[0]) * 16 + HexValue(s[1])) * 16 + HexValue(s[2])) * 16 + HexValue(s[3])
  }

  /** `parse_hex4`: zero if one of the four is not a hexadecimal digit. */
  function ParseHex4(s: Text): (h: nat)
    requires |s| >= 4
    ensures h < 0x10000
  {
    if IsHex4(s) then Hex4(s) else 0
  }

  predicate IsHighSurrogate(u: nat) { 0xD800 <= u <= 0xDBFF }

  predicate IsLowSurrogate(u: nat) { 0xDC00 <= u <= 0xDFFF }

  /** The code point of a surrogate pair, by the bit operations of the source:
      ten low bits of each half, above 0x10000. */
  function PairValue(u: nat, v: nat): nat {
    0x10000 + (u % 0x400) * 0x400 + v % 0x400
  }

  /** The UTF-8 form of a code point (section 3 of RFC 3629). */
  function Utf8(u: nat): (r: Text)
    requires u < 0x110000
    ensures 1 <= |r| <= 4
    ensures |r| <= 3 <==> u < 0x10000
  {
    if u < 0x80 then [u]
    else if u < 0x800 then [0xC0 + u / 0x40, 0x80 + u % 0x40]
    else if u < 0x10000 then [0xE0 + u / 0x1000, 0x80 + u / 0x40 % 0x40, 0x80 + u % 0x40]
    else [0xF0 + u / 0x40000, 0x80 + u / 0x1000 % 0x40, 0x80 + u / 0x40 % 0x40, 0x80 + u % 0x40]
  }

  /** The character a two-character escape stands for; other characters stand for themselves. */
  function Unescape(c: Byte): Byte {
    if c == LOWER_B then BACKSPACE
    else if c == LOWER_F then FORM_FEED
    else if c == LOWER_N then LF
    else if c == LOWER_R then CR
    else if c == LOWER_T then TAB
    else c
  }

  /** One step of the string loop at a `\u` escape: the bytes written and the characters read.
      A zero, a wrong digit or an unpaired surrogate writes nothing; a high surrogate followed by a `\u`
      escape that is not a low surrogate swallows that escape too. */
  function UnicodeStep(s: Text): (r: Parse<Text>)
    requires |s| >= 2
    ensures r.Ok? ==> |r.rest| <= |s| - 6 && |r.value| <= 4
    ensures r.Ok? && |s| - |r.rest| < 12 ==> |r.value| <= 3
    ensures r.Ok? ==> r.rest == s[|s| - |r.rest|..]
    ensures r.Ok? ==> |r.rest| == |s| - 6 || |r.rest| == |s| - 12
  {
    if |s| < 6 then Outside else
    var u := ParseHex4(s[2..]);
    if IsLowSurrogate(u) || u == 0 then Ok([], s[6..])
    else if !IsHighSurrogate(u) then Ok(Utf8(u), s[6..])
    else if !HasPrefix(s[6..], [BACKSLASH, LOWER_U]) then Ok([], s[6..])
    else if |s| < 12 then Outside
    else
      var v := ParseHex4(s[8..]);
      if !IsLowSurrogate(v) then Ok([], s[12..])
      else Ok(Utf8(PairValue(u, v)), s[12..])
  }

  /** One step of the string loop away from the closing quote. */
  function CharStep(s: Text): (r: Parse<Text>)
    requires s != []
    ensures !r.Fail?
    ensures r.Ok? ==> |r.rest| < |s|
    ensures r.Ok? ==> r.rest == s[|s| - |r.rest|..]
  {
    if s[0] != BACKSLASH then Ok([s[0]], s[1..])
    else if |s| < 2 then Outside
    else if s[1] == LOWER_U then UnicodeStep(s)
    else Ok([Unescape(s[1])], s[2..])
  }

  /** Where the counting pass of `parse_string` stops, from just after the opening quote: at a quote
      that is not part of an escape, or at the end of the text, which a lone backslash carries it past. */
  function Stop(s: Text): (n: nat)
    ensures n <= |s| + 1
    ensures n < |s| ==> s[n] == QUOTE
    decreases |s|
  {
    if s == [] || s[0] == QUOTE then 0
    else if s[0] != BACKSLASH then 1 + Stop(s[1..])
    else if |s| < 2 then 2
    else 2 + Stop(s[2..])
  }

  /** The writing pass, up to the quote or the end of the text. */
  function WrittenBody(s: Text): (r: Parse<Text>)
    ensures !r.Fail?
    ensures r.Ok? ==> |r.rest| <= |s| && r.rest == s[|s| - |r.rest|..]
    ensures r.Ok? && r.rest != [] ==> r.rest[0] == QUOTE
    decreases |s|
  {
    if s == [] || s[0] == QUOTE then Ok([], s)
    else
      var c := CharStep(s);
      if !c.Ok? then Outside else
      var t := WrittenBody(c.rest);
      if t.Ok? then Ok(c.value + t.value, t.rest) else Outside
  }

  /** Both passes of `parse_string`, from just after the opening quote; they may end, without a
      closing quote, at the end of the text. */
  function StringBody(s: Text): (r: Parse<Text>)
    ensures !r.Fail?
    ensures r.Ok? ==> |r.rest| <= |s|
  {
    var w := WrittenBody(s);
    if w.Ok? && Stop(s) + |w.rest| == |s| then Ok(w.value, if w.rest == [] then [] else w.rest[1..])
    else Outside
  }

  function ParseString(s: Text): (r: Parse<Text>)
    ensures r.Ok? ==> |r.rest| < |s|
  {
    if StartsWith(s, QUOTE) then StringBody(s[1..]) else Fail
  }

  /** The digits at the front of s, appended to acc. */
  function TakeDigits(s: Text, acc: nat): (r: (nat, Text))
    ensures |r.1| <= |s|
    ensures StartsWithDigit(s) ==> |r.1| < |s|
    ensures !StartsWithDigit(r.1)
  {
    if StartsWithDigit(s) then TakeDigits(s[1..], acc * 10 + (s[0] - DIGIT_0)) else (acc, s)
  }

  /** The integer part: one optional zero, then digits if the next one is not zero. */
  function TakeInteger(s: Text): (r: (nat, Text))
    ensures |r.1| <= |s|
    ensures StartsWithDigit(s) ==> |r.1| < |s|
  {
    var s1 := if StartsWith(s, DIGIT_0) then s[1..] else s;
    if StartsWithDigit(s1) && s1[0] != DIGIT_0 then TakeDigits(s1, 0) else (0, s1)
  }

  function TakeFraction(n: nat, s: Text): (r: (nat, Text))
    ensures |r.1| <= |s|
  {
    if StartsWith(s, DOT) && StartsWithDigit(s[1..]) then TakeDigits(s[1..], n) else (n, s)
  }

  /** The number of digits a fraction contributes. */
  function FractionDigits(s: Text, rest: Text): int {
    if |rest| < |s| then |s| - 1 - |rest| else 0
  }

  function TakeSigned(s: Text): (r: (int, Text))
    ensures |r.1| <= |s|
  {
    if StartsWith(s, PLUS) then TakeDigits(s[1..], 0)
    else if StartsWith(s, MINUS) then var d := TakeDigits(s[1..], 0); var n: int := d.0; (-n, d.1)
    else TakeDigits(s, 0)
  }

  function TakeExponent(s: Text): (r: (int, Text))
    ensures |r.1| <= |s|
  {
    if StartsWith(s, LOWER_E) || StartsWith(s, UPPER_E) then TakeSigned(s[1..]) else (0, s)
  }

  /** `parse_number`, with the product `n * 10^(scale + subscale)` kept as a decimal. */
  function ParseNumber(s: Text): (r: Parse<Json>)
    ensures r.Ok? && (StartsWith(s, MINUS) || StartsWithDigit(s) ==> |r.rest| < |s|)
  {
    var negative := StartsWith(s, MINUS);
    var i := TakeInteger(if negative then s[1..] else s);
    var f := TakeFraction(i.0, i.1);
    var e := TakeExponent(f.1);
    var n: int := f.0;
    Ok(Number(if negative then -n else n, e.0 - FractionDigits(i.1, f.1)), e.1)
  }

  // ----- the recursive descent -----

  function ParseValue(s: Text): (r: Parse<Json>)
    ensures r.Ok? ==> |r.rest| < |s|
    decreases |s|, 1
  {
    if HasPrefix(s, NULL_TEXT) then Ok(Null, s[4..])
    else if HasPrefix(s, FALSE_TEXT) then Ok(False, s[5..])
    else if HasPrefix(s, TRUE_TEXT) then Ok(True, s[4..])
    else if StartsWith(s, QUOTE) then
      var t := ParseString(s);
      if t.Ok? then Ok(String(t.value), t.rest) else if t.Fail? then Fail else Outside
    else if StartsWith(s, MINUS) || StartsWithDigit(s) then ParseNumber(s)
    else if StartsWith(s, LEFT_BRACKET) then ParseArray(s)
    else if StartsWith(s, LEFT_BRACE) then ParseObject(s)
    else Fail
  }

  function ParseArray(s: Text): (r: Parse<Json>)
    ensures r.Ok? ==> |r.rest| < |s|
    decreases |s|, 0
  {
    if !StartsWith(s, LEFT_BRACKET) then Fail else
    var t := Skip(s[1..]);
    if StartsWith(t, RIGHT_BRACKET) then Ok(Array([]), t[1..]) else
    var items := ParseItems(t);
    if items.Ok? then Ok(Array(items.value), items.rest) else if items.Fail? then Fail else Outside
  }

  function ParseObject(s: Text): (r: Parse<Json>)
    ensures r.Ok? ==> |r.rest| < |s|
    decreases |s|, 0
  {
    if !StartsWith(s, LEFT_BRACE) then Fail else
    var t := Skip(s[1..]);
    if StartsWith(t, RIGHT_BRACE) then Ok(Object([]), t[1..]) else
    var members := ParseMembers(t);
    if members.Ok? then Ok(Object(members.value), members.rest)
    else if members.Fail? then Fail else Outside
  }

  /** The items of an array up to and including the closing bracket. */
  function ParseItems(s: Text): (r: Parse<seq<Json>>)
    ensures r.Ok? ==> |r.rest| < |s| && |r.value| > 0
    decreases |s|, 2
  {
    var v := ParseValue(Skip(s));
    if v.Fail? then Fail else if v.Outside? then Outside else
    var t := Skip(v.rest);
    if StartsWith(t, RIGHT_BRACKET) then Ok([v.value], t[1..])
    else if !StartsWith(t, COMMA) then Fail
    else
      var more := ParseItems(t[1..]);
      if more.Ok? then Ok([v.value] + more.value, more.rest) else more
  }

  /** The members of an object up to and including the closing brace. */
  function ParseMembers(s: Text): (r: Parse<seq<Member>>)
    ensures r.Ok? ==> |r.rest| < |s| && |r.value| > 0
    decreases |s|, 2
  {
    var name := ParseString(Skip(s));
    if name.Fail? then Fail else if name.Outside? then Outside else
    var t := Skip(name.rest);
    if !StartsWith(t, COLON) then Fail else
    var v := ParseValue(Skip(t[1..]));
    if v.Fail? then Fail else if v.Outside? then Outside else
    var u := Skip(v.rest);
    if StartsWith(u, RIGHT_BRACE) then Ok([Member(name.value, v.value)], u[1..])
    else if !StartsWith(u, COMMA) then Fail
    else
      var more := ParseMembers(u[1..]);
      if more.Ok? then Ok([Member(name.value, v.value)] + more.value, more.rest) else more
  }

  /** `cJSON_ParseWithOpts` with `require_null_terminated`: white space may surround the value,
      nothing else may follow it. */
  function ParseDocument(s: Text): Parse<Json> {
    var v := ParseValue(Skip(s));
    if v.Ok? && Skip(v.rest) != [] then Fail else v
  }

  // ----- the printer -----

  /** The characters `sprintf` writes for `%d`. */
  function Digits(n: nat): (r: Text)
    ensures |r| > 0
    ensures forall i :: 0 <= i < |r| ==> IsDigit(r[i])
    ensures n > 0 ==> r[0] != DIGIT_0
  {
    if n < 10 then [DIGIT_0 + n] else Digits(n / 10) + [DIGIT_0 + n % 10]
  }

  function IntText(n: int): (r: Text)
    ensures |r| > 0
  {
    if n < 0 then [MINUS] + Digits(-n) else Digits(n)
  }

  function HexDigit(n: nat): (c: Byte)
    requires n < 16
    ensures IsHex(c) && HexValue(c) == n
  {
    if n < 10 then DIGIT_0 + n else LOWER_A + (n - 10)
  }

  /** What `print_string_ptr` writes for one character. */
  function EscapeChar(c: Byte): (r: Text)
    ensures |r| > 0
  {
    if c > 31 && c != QUOTE && c != BACKSLASH then [c]
    else if c == BACKSLASH || c == QUOTE then [BACKSLASH, c]
    else if c == BACKSPACE then [BACKSLASH, LOWER_B]
    else if c == FORM_FEED then [BACKSLASH, LOWER_F]
    else if c == LF then [BACKSLASH, LOWER_N]
    else if c == CR then [BACKSLASH, LOWER_R]
    else if c == TAB then [BACKSLASH, LOWER_T]
    else [BACKSLASH, LOWER_U, DIGIT_0, DIGIT_0, HexDigit(c / 16), HexDigit(c % 16)]
  }

  function EscapeAll(s: Text): Text {
    if s == [] then [] else EscapeChar(s[0]) + EscapeAll(s[1..])
  }

  function PrintString(s: Text): Text {
    [QUOTE] + EscapeAll(s) + [QUOTE]
  }

  /** What `print_string_ptr` renders: nothing at all for a null pointer. */
  function PrintPtr(s: Option<Text>): Text {
    if s.Some? then PrintString(s.value) else []
  }

  function Tabs(n: int): Text {
    if n <= 0 then [] else [TAB] + Tabs(n - 1)
  }

  /** A new line indented by n tabs, in formatted mode only. */
  function Break(n: int, fmt: bool): Text {
    if fmt then [LF] + Tabs(n) else []
  }

  /** The text that `print_value` renders; `depth` only matters when `fmt` is set. */
  function PrintValue(j: Json, depth: nat, fmt: bool): Text
    decreases j, 0
  {
    match j
    case Null => NULL_TEXT
    case False => FALSE_TEXT
    case True => TRUE_TEXT
    case Number(m, _) => IntText(m)
    case String(s) => PrintString(s)
    case Array(items) =>
      if items == [] then [LEFT_BRACKET, RIGHT_BRACKET]
      else [LEFT_BRACKET] + PrintItems(items, depth + 1, fmt)
    case Object(members) =>
      if members == [] then [LEFT_BRACE] + Break(depth - 1, fmt) + [RIGHT_BRACE]
      else [LEFT_BRACE] + Break(depth + 1, fmt) + PrintMembers(members, depth + 1, fmt)
  }

  function PrintItems(items: seq<Json>, depth: nat, fmt: bool): Text
    requires items != []
    decreases items, 1
  {
    PrintValue(items[0], depth, fmt)
    + if |items| == 1 then [RIGHT_BRACKET]
      else [COMMA] + (if fmt then [SPACE] else []) + PrintItems(items[1..], depth, fmt)
  }

  function PrintMembers(members: seq<Member>, depth: nat, fmt: bool): Text
    requires members != []
    requires depth > 0
    decreases members, 1
  {
    PrintString(members[0].name) + [COLON] + (if fmt then [TAB] else [])
    + PrintValue(members[0].value, depth, fmt)
    + if |members| == 1 then Break(depth - 1, fmt) + [RIGHT_BRACE]
      else [COMMA] + Break(depth, fmt) + PrintMembers(members[1..], depth, fmt)
  }

  const INT_MIN := -0x8000_0000
  const INT_MAX := 0x7FFF_FFFF

  /** The values whose rendering is modelled: 32-bit integers, and C strings for text. */
  predicate Printable(j: Json)
    decreases j, 0
  {
    match j
    case Number(m, e) => e == 0 && INT_MIN <= m <= INT_MAX
    case String(s) => NulFree(s)
    case Array(items) => forall i :: 0 <= i < |items| ==> Printable(items[i])
    case Object(members) =>
      forall i :: 0 <= i < |members| ==> NulFree(members[i].name) && Printable(members[i].value)
    case _ => true
  }
}
