/** String literals as section 7 of RFC 8259 defines them, and the text they denote. */
module JsonLiteral {
  import opened CText
  import opened JsonSpec
  import opened JsonRoundTrip

  /** One `char` of the grammar: an unescaped code point, a two-character escape, or `\u` with
      four hexadecimal digits. */
  datatype RawChar =
    | Plain(point: nat)
    | Escape(letter: Byte)
    | Unicode(digits: Text)

  predicate ValidChar(c: RawChar) {
    match c
    case Plain(p) => 0x20 <= p < 0x110000 && p != 0x22 && p != 0x5C && !(0xD800 <= p <= 0xDFFF)
    case Escape(l) =>
      l in {QUOTE, BACKSLASH, SLASH, LOWER_B, LOWER_F, LOWER_N, LOWER_R, LOWER_T}
    case Unicode(d) => |d| == 4 && IsHex4(d)
  }

  type Char = c: RawChar | ValidChar(c) witness Escape(SLASH)

  function CharText(c: Char): Text {
    match c
    case Plain(p) => Utf8(p)
    case Escape(l) => [BACKSLASH, l]
    case Unicode(d) => [BACKSLASH, LOWER_U] + d
  }

  predicate IsHigh(c: Char) {
    c.Unicode? && IsHighSurrogate(Hex4(c.digits))
  }

  predicate IsLow(c: Char) {
    c.Unicode? && IsLowSurrogate(Hex4(c.digits))
  }

  /** No character is `\u0000`, and surrogates come in high-low pairs. */
  predicate WellFormed(l: seq<Char>) {
    l == [] ||
    (&& !IsLow(l[0])
     && (l[0].Unicode? ==> Hex4(l[0].digits) != 0)
     && (IsHigh(l[0]) ==> |l| > 1 && IsLow(l[1]))
     && WellFormed(if IsHigh(l[0]) then l[2..] else l[1..]))
  }

  function LiteralText(l: seq<Char>): Text {
    if l == [] then [] else CharText(l[0]) + LiteralText(l[1..])
  }

  /** The code point a non-surrogate character denotes. */
  function PointOf(c: Char): (p: nat)
    ensures p < 0x110000
  {
    match c
    case Plain(p) => p
    case Escape(l) =>
      if l == LOWER_B then 8 else if l == LOWER_F then 12 else if l == LOWER_N then 10
      else if l == LOWER_R then 13 else if l == LOWER_T then 9 else l
    case Unicode(d) => Hex4(d)
  }

  /** The code points a literal denotes (section 7 of RFC 8259): a surrogate pair denotes one
      code point, ten bits from each half counted from 0xD800 and 0xDC00. */
  function Denoted(l: seq<Char>): (r: seq<nat>)
    requires WellFormed(l)
    ensures forall i :: 0 <= i < |r| ==> r[i] < 0x110000
  {
    if l == [] then []
    else if IsHigh(l[0]) then
      [0x10000 + (Hex4(l[0].digits) - 0xD800) * 0x400 + (Hex4(l[1].digits) - 0xDC00)] + Denoted(l[2..])
    else [PointOf(l[0])] + Denoted(l[1..])
  }

  function Utf8All(points: seq<nat>): Text
    requires forall i :: 0 <= i < |points| ==> points[i] < 0x110000
  {
    if points == [] then [] else Utf8(points[0]) + Utf8All(points[1..])
  }

  // ----- UTF-8 can be read back -----

  /** The six bits of a continuation byte; -1 stands for any other byte. */
  function TailBits(c: Byte): int {
    if 0x80 <= c <= 0xBF then c - 0x80 else -1
  }

  /** Reads one code point by the leading-byte table of section 3 of RFC 3629; -1 if there is none. */
  function DecodeUtf8(s: Text): (int, Text) {
    if s == [] then (-1, s) else
    var lead: int := s[0];
    if lead < 0x80 then (lead, s[1..])
    else if 0xC0 <= lead < 0xE0 && |s| >= 2 && TailBits(s[1]) >= 0 then
      ((lead - 0xC0) * 0x40 + TailBits(s[1]), s[2..])
    else if 0xE0 <= lead < 0xF0 && |s| >= 3 && TailBits(s[1]) >= 0 && TailBits(s[2]) >= 0 then
      (((lead - 0xE0) * 0x40 + TailBits(s[1])) * 0x40 + TailBits(s[2]), s[3..])
    else if 0xF0 <= lead < 0xF8 && |s| >= 4 && TailBits(s[1]) >= 0 && TailBits(s[2]) >= 0 && TailBits(s[3]) >= 0 then
      ((((lead - 0xF0) * 0x40 + TailBits(s[1])) * 0x40 + TailBits(s[2])) * 0x40 + TailBits(s[3]), s[4..])
    else (-1, s)
  }

  lemma Utf8Decodes(u: nat, t: Text)
    requires u < 0x110000
    ensures DecodeUtf8(Utf8(u) + t) == (u, t)
  {
    var s := Utf8(u) + t;
    assert s[|Utf8(u)|..] == t;
    var v := u / 0x40;
    assert u == v * 0x40 + u % 0x40;
    if u >= 0x800 {
      SplitSix(u);
      if u >= 0x10000 {
        SplitSix(v);
      }
    }
  }

  lemma SplitSix(u: nat)
    ensures u / 0x1000 == u / 0x40 / 0x40 && u / 0x40000 == u / 0x1000 / 0x40
    ensures u / 0x40 == u / 0x1000 * 0x40 + u / 0x40 % 0x40
    ensures u / 0x1000 == u / 0x40000 * 0x40 + u / 0x1000 % 0x40
  {
  }

  // ----- the parser on literals -----

  predicate IsPlainByte(c: Byte) {
    c != QUOTE && c != BACKSLASH
  }

  lemma {:induction false} PlainRun(w: Text, t: Text)
    requires forall i :: 0 <= i < |w| ==> IsPlainByte(w[i])
    requires StringBody(t).Ok?
    ensures StringBody(w + t) == Ok(w + StringBody(t).value, StringBody(t).rest)
    decreases |w|
  {
    hide StringBody, Stop;
    if w == [] {
      assert w + t == t;
      assert w + StringBody(t).value == StringBody(t).value;
    } else {
      PlainRun(w[1..], t);
      var u := w[1..] + t;
      assert w + t == [w[0]] + u;
      assert ([w[0]] + u)[1..] == u;
      StopPlain([w[0]], u);
      BodyStep(w + t, [w[0]], u);
      assert w + StringBody(t).value == [w[0]] + (w[1..] + StringBody(t).value);
    }
  }

  lemma PlainBytes(p: nat)
    requires ValidChar(Plain(p))
    ensures forall i :: 0 <= i < |Utf8(p)| ==> IsPlainByte(Utf8(p)[i])
  {
  }

  lemma EscapeStep(l: Byte, t: Text)
    requires ValidChar(Escape(l)) && StringBody(t).Ok?
    ensures StringBody([BACKSLASH, l] + t) == Ok(Utf8(PointOf(Escape(l))) + StringBody(t).value, StringBody(t).rest)
  {
    hide StringBody, Stop;
    var s := [BACKSLASH, l] + t;
    assert s[2..] == t;
    assert CharStep(s) == Ok([Unescape(l)], t);
    StopEscape([BACKSLASH, l], t);
    BodyStep(s, [Unescape(l)], t);
  }

  lemma Hex4Prefix(d: Text, t: Text)
    requires IsHex4(d) && |d| == 4
    ensures IsHex4(d + t) && Hex4(d + t) == Hex4(d)
  {
  }

  lemma UnicodeEscapeStep(d: Text, t: Text)
    requires ValidChar(Unicode(d)) && Hex4(d) != 0
    requires !IsHighSurrogate(Hex4(d)) && !IsLowSurrogate(Hex4(d))
    ensures CharStep([BACKSLASH, LOWER_U] + d + t) == Ok(Utf8(Hex4(d)), t)
  {
    hide Utf8, Hex4;
    var s := [BACKSLASH, LOWER_U] + d + t;
    assert s[2..] == d + t && s[6..] == t;
    Hex4Prefix(d, t);
  }

  lemma SurrogateStep(d: Text, e: Text, t: Text)
    requires ValidChar(Unicode(d)) && ValidChar(Unicode(e))
    requires IsHighSurrogate(Hex4(d)) && IsLowSurrogate(Hex4(e))
    ensures CharStep([BACKSLASH, LOWER_U] + d + [BACKSLASH, LOWER_U] + e + t)
         == Ok(Utf8(0x10000 + (Hex4(d) - 0xD800) * 0x400 + (Hex4(e) - 0xDC00)), t)
  {
    hide Utf8, Hex4;
    var s := [BACKSLASH, LOWER_U] + d + [BACKSLASH, LOWER_U] + e + t;
    assert s[2..] == d + ([BACKSLASH, LOWER_U] + e + t);
    Hex4Prefix(d, [BACKSLASH, LOWER_U] + e + t);
    Hex4Prefix(e, t);
    assert s[6..] == [BACKSLASH, LOWER_U] + e + t;
    assert s[6..][..2] == [BACKSLASH, LOWER_U];
    assert s[8..] == e + t && s[12..] == t;
  }

  /** For every well-formed literal, the string loop yields the UTF-8 form of the denoted text
      and stops just after the closing quote. */
  lemma {:induction false} LiteralParsed(l: seq<Char>, t: Text)
    requires WellFormed(l)
    ensures StringBody(LiteralText(l) + [QUOTE] + t) == Ok(Utf8All(Denoted(l)), t)
    decreases |l|
  {
    hide StringBody, CharStep, Utf8, Hex4, CharText, PointOf, LiteralText, Utf8All;
    if l == [] {
      BodyEnds(t);
      NoText(t);
    } else if IsHigh(l[0]) {
      var more := LiteralText(l[2..]) + [QUOTE] + t;
      LiteralParsed(l[2..], t);
      LiteralFront(l, t);
      assert l[1..][1..] == l[2..] && l[1..][0] == l[1];
      LiteralFront(l[1..], t);
      Grouped(CharText(l[0]), CharText(l[1]), more);
      PairParsed(l[0], l[1], more);
      Utf8Cons(Denoted(l)[0], Denoted(l[2..]));
    } else {
      LiteralParsed(l[1..], t);
      LiteralFront(l, t);
      CharParsed(l[0], LiteralText(l[1..]) + [QUOTE] + t);
      Utf8Cons(PointOf(l[0]), Denoted(l[1..]));
    }
  }

  lemma NoText(t: Text)
    ensures LiteralText([]) + [QUOTE] + t == [QUOTE] + t && Utf8All([]) == []
  {
  }

  lemma LiteralFront(l: seq<Char>, t: Text)
    requires l != []
    ensures LiteralText(l) + [QUOTE] + t == CharText(l[0]) + (LiteralText(l[1..]) + [QUOTE] + t)
  {
    hide CharText;
    assert LiteralText(l) == CharText(l[0]) + LiteralText(l[1..]);
  }

  lemma Grouped(a: Text, b: Text, c: Text)
    ensures a + (b + c) == a + b + c
  {
  }

  lemma PairStop(c: Char, d: Char, t: Text)
    requires c.Unicode? && d.Unicode?
    ensures Stop(CharText(c) + CharText(d) + t) == 12 + Stop(t)
  {
    hide Stop;
    StopHex(CharText(d), t);
    StopHex(CharText(c), CharText(d) + t);
    Grouped(CharText(c), CharText(d), t);
  }

  lemma PairParsed(c: Char, d: Char, t: Text)
    requires IsHigh(c) && IsLow(d) && StringBody(t).Ok?
    ensures var p := 0x10000 + (Hex4(c.digits) - 0xD800) * 0x400 + (Hex4(d.digits) - 0xDC00);
      StringBody(CharText(c) + CharText(d) + t) == Ok(Utf8(p) + StringBody(t).value, StringBody(t).rest)
  {
    hide StringBody, CharStep, Utf8, Stop;
    var s := CharText(c) + CharText(d) + t;
    PairStop(c, d, t);
    assert s == [BACKSLASH, LOWER_U] + c.digits + [BACKSLASH, LOWER_U] + d.digits + t;
    SurrogateStep(c.digits, d.digits, t);
    BodyStep(s, Utf8(0x10000 + (Hex4(c.digits) - 0xD800) * 0x400 + (Hex4(d.digits) - 0xDC00)), t);
  }

  /** `parse_string` on a whole literal. */
  lemma LiteralDecoded(l: seq<Char>, t: Text)
    requires WellFormed(l)
    ensures ParseString([QUOTE] + LiteralText(l) + [QUOTE] + t) == Ok(Utf8All(Denoted(l)), t)
  {
    hide StringBody, WellFormed, LiteralText, Utf8All, Denoted;
    LiteralParsed(l, t);
    assert ([QUOTE] + LiteralText(l) + [QUOTE] + t)[1..] == LiteralText(l) + [QUOTE] + t;
  }

  lemma Utf8Cons(p: nat, points: seq<nat>)
    requires p < 0x110000 && forall i :: 0 <= i < |points| ==> points[i] < 0x110000
    ensures Utf8All([p] + points) == Utf8(p) + Utf8All(points)
  {
    assert ([p] + points)[1..] == points;
  }

  lemma CharParsed(c: Char, t: Text)
    requires !IsHigh(c) && !IsLow(c) && (c.Unicode? ==> Hex4(c.digits) != 0)
    requires StringBody(t).Ok?
    ensures StringBody(CharText(c) + t) == Ok(Utf8(PointOf(c)) + StringBody(t).value, StringBody(t).rest)
  {
    hide StringBody, CharStep, Utf8, Hex4, Stop;
    match c {
      case Plain(p) =>
        PlainBytes(p);
        PlainRun(Utf8(p), t);
      case Escape(l) =>
        EscapeStep(l, t);
      case Unicode(d) =>
        UnicodeEscapeStep(d, t);
        StopHex([BACKSLASH, LOWER_U] + d, t);
        BodyStep([BACKSLASH, LOWER_U] + d + t, Utf8(Hex4(d)), t);
    }
  }
}
