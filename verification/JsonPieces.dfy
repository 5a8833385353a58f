/** The string literals that the parser reads, character by character as it takes them apart: those of
    the standard and the escapes it is lenient about. */
module JsonPieces {
  import opened CText
  import opened JsonSpec
  import opened JsonRoundTrip

  /** One turn of the string loop: a plain byte, a backslash and a letter, `\u` and four characters, or
      two of these in a row of which the first is a high surrogate. */
  datatype Piece =
    | Plain(c: Byte)
    | Short(letter: Byte)
    | Unit(digits: Text)
    | Pair(high: Text, low: Text)

  predicate HighUnit(d: Text) {
    IsHex4(d) && 0xD800 <= Hex4(d) < 0xDC00
  }

  predicate LowUnit(d: Text) {
    IsHex4(d) && 0xDC00 <= Hex4(d) < 0xE000
  }

  predicate ValidPiece(p: Piece) {
    match p
    case Plain(c) => c != QUOTE && c != BACKSLASH
    case Short(l) => l != LOWER_U
    case Unit(d) => |d| == 4
    case Pair(h, l) => |h| == |l| == 4 && HighUnit(h)
  }

  function PieceText(p: Piece): Text {
    match p
    case Plain(c) => [c]
    case Short(l) => [BACKSLASH, l]
    case Unit(d) => [BACKSLASH, LOWER_U] + d
    case Pair(h, l) => [BACKSLASH, LOWER_U] + h + [BACKSLASH, LOWER_U] + l
  }

  /** What a piece stands for.  Four characters that are no hexadecimal number, zero, and surrogates
      without their other half stand for nothing. */
  function PieceValue(p: Piece): Text
    requires ValidPiece(p)
  {
    match p
    case Plain(c) => [c]
    case Short(l) =>
      [if l == LOWER_B then 8 else if l == LOWER_T then 9 else if l == LOWER_N then 10
       else if l == LOWER_F then 12 else if l == LOWER_R then 13 else l]
    case Unit(d) => if !IsHex4(d) || Hex4(d) == 0 || HighUnit(d) || LowUnit(d) then [] else Utf8(Hex4(d))
    case Pair(h, l) =>
      if LowUnit(l) then Utf8(0x10000 + (Hex4(h) - 0xD800) * 0x400 + (Hex4(l) - 0xDC00)) else []
  }

  /** A high surrogate on its own is not followed by another `\u`. */
  predicate ValidPieces(ps: seq<Piece>) {
    ps == [] ||
    (&& ValidPiece(ps[0]) && ValidPieces(ps[1..])
     && (ps[0].Unit? && HighUnit(ps[0].digits) && |ps| > 1 ==> !ps[1].Unit? && !ps[1].Pair?))
  }

  function PiecesText(ps: seq<Piece>): Text {
    if ps == [] then [] else PieceText(ps[0]) + PiecesText(ps[1..])
  }

  function PiecesValue(ps: seq<Piece>): Text
    requires ValidPieces(ps)
  {
    if ps == [] then [] else PieceValue(ps[0]) + PiecesValue(ps[1..])
  }

  /** The counting pass goes over exactly this text: plain bytes, and backslashes with the byte behind
      them. */
  predicate Countable(b: Text)
    decreases |b|
  {
    b == [] ||
    if b[0] == BACKSLASH then |b| >= 2 && Countable(b[2..]) else b[0] != QUOTE && Countable(b[1..])
  }

  /** A literal; without its closing quote only the end of the text can follow it. */
  datatype Literal = Literal(pieces: seq<Piece>, closed: bool)

  predicate ValidLiteral(l: Literal) {
    ValidPieces(l.pieces) && Countable(PiecesText(l.pieces))
  }

  function LiteralText(l: Literal): Text {
    [QUOTE] + PiecesText(l.pieces) + if l.closed then [QUOTE] else []
  }

  // ----- literals are read -----

  predicate EndsBody(u: Text) {
    u == [] || u[0] == QUOTE
  }

  lemma {:induction false} StopCountable(b: Text, u: Text)
    requires Countable(b) && EndsBody(u)
    ensures Stop(b + u) == |b|
    decreases |b|
  {
    if b == [] {
      assert b + u == u;
    } else if b[0] == BACKSLASH {
      assert (b + u)[2..] == b[2..] + u;
      StopCountable(b[2..], u);
    } else {
      assert (b + u)[1..] == b[1..] + u;
      StopCountable(b[1..], u);
    }
  }

  lemma Prefix4(d: Text, t: Text)
    requires |d| == 4
    ensures IsHex4(d + t) == IsHex4(d) && (IsHex4(d) ==> Hex4(d + t) == Hex4(d))
  {
  }

  lemma UnitRead(d: Text, t: Text)
    requires |d| == 4 && (HighUnit(d) ==> !HasPrefix(t, [BACKSLASH, LOWER_U]))
    ensures UnicodeStep([BACKSLASH, LOWER_U] + d + t) == Ok(PieceValue(Unit(d)), t)
  {
    hide Utf8, Hex4;
    var s := [BACKSLASH, LOWER_U] + d + t;
    assert s[2..] == d + t && s[6..] == t;
    Prefix4(d, t);
  }

  lemma PairRead(h: Text, l: Text, t: Text)
    requires ValidPiece(Pair(h, l))
    ensures UnicodeStep([BACKSLASH, LOWER_U] + h + [BACKSLASH, LOWER_U] + l + t) == Ok(PieceValue(Pair(h, l)), t)
  {
    hide Utf8, Hex4;
    var s := [BACKSLASH, LOWER_U] + h + [BACKSLASH, LOWER_U] + l + t;
    assert s[2..] == h + ([BACKSLASH, LOWER_U] + l + t);
    assert s[6..] == [BACKSLASH, LOWER_U] + (l + t) && s[8..] == l + t && s[12..] == t;
    PrefixOf([BACKSLASH, LOWER_U], l + t);
    Prefix4(h, [BACKSLASH, LOWER_U] + l + t);
    Prefix4(l, t);
  }

  lemma PieceRead(p: Piece, t: Text)
    requires ValidPiece(p) && (p.Unit? && HighUnit(p.digits) ==> !HasPrefix(t, [BACKSLASH, LOWER_U]))
    ensures CharStep(PieceText(p) + t) == Ok(PieceValue(p), t) && (PieceText(p) + t)[0] != QUOTE
  {
    hide UnicodeStep, Hex4, Utf8;
    var s := PieceText(p) + t;
    match p {
      case Plain(c) => assert s[1..] == t;
      case Short(l) => assert s[2..] == t;
      case Unit(d) => UnitRead(d, t);
      case Pair(h, l) => PairRead(h, l, t);
    }
  }

  /** Only a Unit or a Pair starts with `\u`. */
  lemma PieceStart(p: Piece, t: Text)
    requires ValidPiece(p)
    ensures HasPrefix(PieceText(p) + t, [BACKSLASH, LOWER_U]) <==> p.Unit? || p.Pair?
  {
    var s := PieceText(p) + t;
    if |s| >= 2 { assert s[..2] == [s[0], s[1]]; }
  }

  lemma {:induction false} PiecesRead(ps: seq<Piece>, u: Text)
    requires ValidPieces(ps) && EndsBody(u)
    ensures WrittenBody(PiecesText(ps) + u) == Ok(PiecesValue(ps), u)
    decreases |ps|
  {
    hide CharStep, PieceText, PieceValue, ValidPiece, HasPrefix, WrittenBody;
    if ps == [] {
      assert [] + u == u;
      BodyStops(u);
    } else {
      var (p, t) := (ps[0], PiecesText(ps[1..]) + u);
      assert PiecesText(ps) + u == PieceText(p) + t;
      PiecesRead(ps[1..], u);
      NextPiece(ps[1..], u);
      PieceRead(p, t);
      WrittenStep(PieceText(p) + t);
    }
  }

  lemma BodyStops(u: Text)
    requires EndsBody(u)
    ensures WrittenBody(u) == Ok([], u) && !HasPrefix(u, [BACKSLASH, LOWER_U])
  {
    FirstOf(u, [BACKSLASH, LOWER_U]);
  }

  lemma NextPiece(ps: seq<Piece>, u: Text)
    requires ValidPieces(ps) && EndsBody(u)
    ensures HasPrefix(PiecesText(ps) + u, [BACKSLASH, LOWER_U]) <==> ps != [] && (ps[0].Unit? || ps[0].Pair?)
  {
    hide PieceText, HasPrefix, ValidPiece;
    if ps == [] {
      assert PiecesText(ps) + u == u;
      BodyStops(u);
    } else {
      assert PiecesText(ps) + u == PieceText(ps[0]) + (PiecesText(ps[1..]) + u);
      PieceStart(ps[0], PiecesText(ps[1..]) + u);
    }
  }

  /** A literal is read up to its end, as what its pieces stand for. */
  lemma LiteralRead(l: Literal, t: Text)
    requires ValidLiteral(l) && (l.closed || t == [])
    ensures ParseString(LiteralText(l) + t) == Ok(PiecesValue(l.pieces), t)
    ensures StartsWith(LiteralText(l) + t, QUOTE)
  {
    hide WrittenBody, Stop, PiecesText, PiecesValue, ValidPieces, Countable;
    var b := PiecesText(l.pieces);
    var u := (if l.closed then [QUOTE] else []) + t;
    assert (LiteralText(l) + t)[1..] == b + u;
    PiecesRead(l.pieces, u);
    StopCountable(b, u);
    if l.closed { assert u[1..] == t; }
  }

  // ----- nothing else is read -----

  lemma {:induction false} CountableFound(s: Text)
    requires Stop(s) <= |s|
    ensures Countable(s[..Stop(s)]) && EndsBody(s[Stop(s)..])
    decreases |s|
  {
    var n := Stop(s);
    if s != [] && s[0] != QUOTE {
      var k := if s[0] == BACKSLASH then 2 else 1;
      CountableFound(s[k..]);
      assert s[..n][k..] == s[k..][..n - k] && s[n..] == s[k..][n - k..];
    }
  }

  lemma UnicodeFound(s: Text) returns (p: Piece)
    requires |s| >= 2 && s[0] == BACKSLASH && s[1] == LOWER_U && UnicodeStep(s).Ok?
    ensures ValidPiece(p) && s == PieceText(p) + UnicodeStep(s).rest
    ensures p.Unit? && HighUnit(p.digits) ==> !HasPrefix(UnicodeStep(s).rest, [BACKSLASH, LOWER_U])
  {
    hide Utf8, Hex4;
    var d := s[2..6];
    assert s[2..] == d + s[6..];
    Prefix4(d, s[6..]);
    if HighUnit(d) && HasPrefix(s[6..], [BACKSLASH, LOWER_U]) {
      var l := s[8..12];
      assert s[6..][..2] == [BACKSLASH, LOWER_U] && s[6..8] == s[6..][..2];
      assert s == s[..2] + d + s[6..8] + l + s[12..];
      assert s[..2] == [BACKSLASH, LOWER_U];
      p := Pair(d, l);
    } else {
      p := Unit(d);
      assert s == [s[0], s[1]] + d + s[6..];
    }
  }

  lemma PieceFound(s: Text) returns (p: Piece)
    requires s != [] && s[0] != QUOTE && CharStep(s).Ok?
    ensures ValidPiece(p) && s == PieceText(p) + CharStep(s).rest
    ensures p.Unit? && HighUnit(p.digits) ==> !HasPrefix(CharStep(s).rest, [BACKSLASH, LOWER_U])
  {
    hide UnicodeStep, HasPrefix;
    if s[0] != BACKSLASH {
      p := Plain(s[0]);
      assert s == [s[0]] + s[1..];
    } else if s[1] == LOWER_U {
      p := UnicodeFound(s);
    } else {
      p := Short(s[1]);
      assert s == [s[0], s[1]] + s[2..];
    }
  }

  lemma {:induction false} PiecesFound(s: Text) returns (ps: seq<Piece>)
    requires WrittenBody(s).Ok?
    ensures ValidPieces(ps) && s == PiecesText(ps) + WrittenBody(s).rest
    decreases |s|
  {
    hide CharStep, PieceText, PiecesText, ValidPiece, ValidPieces, HighUnit, HasPrefix, WrittenBody;
    if EndsBody(s) {
      BodyStops(s);
      NoPieces(s);
      ps := [];
    } else {
      WrittenStep(s);
      var t := CharStep(s).rest;
      var p := PieceFound(s);
      var more := PiecesFound(t);
      RestEnds(t);
      NextPiece(more, WrittenBody(t).rest);
      PiecesFront(p, more, WrittenBody(t).rest);
      ps := [p] + more;
    }
  }

  lemma PiecesFront(p: Piece, ps: seq<Piece>, r: Text)
    requires ValidPiece(p) && ValidPieces(ps)
    requires p.Unit? && HighUnit(p.digits) && ps != [] ==> !ps[0].Unit? && !ps[0].Pair?
    ensures ValidPieces([p] + ps) && PiecesText([p] + ps) + r == PieceText(p) + (PiecesText(ps) + r)
  {
    hide PieceText, ValidPiece, HighUnit;
    assert ([p] + ps)[1..] == ps;
  }

  lemma NoPieces(s: Text)
    ensures ValidPieces([]) && PiecesText([]) + s == s
  {
  }

  lemma RestEnds(s: Text)
    requires WrittenBody(s).Ok?
    ensures EndsBody(WrittenBody(s).rest)
  {
  }

  lemma BodyFound(b: Text) returns (ps: seq<Piece>, u: Text)
    requires StringBody(b).Ok?
    ensures ValidPieces(ps) && Countable(PiecesText(ps)) && b == PiecesText(ps) + u && EndsBody(u)
    ensures StringBody(b).rest == if u == [] then [] else u[1..]
  {
    hide WrittenBody, Stop, PiecesText, ValidPieces, Countable;
    u := WrittenBody(b).rest;
    ps := PiecesFound(b);
    RestEnds(b);
    CountableFound(b);
    FrontOf(PiecesText(ps), u);
  }

  lemma FrontOf(p: Text, u: Text)
    ensures (p + u)[..|p + u| - |u|] == p
  {
  }

  /** Whatever is read as a string literal is the text of one. */
  lemma LiteralFound(s: Text) returns (l: Literal)
    requires ParseString(s).Ok?
    ensures ValidLiteral(l) && s == LiteralText(l) + ParseString(s).rest
    ensures ParseString(s) == Ok(PiecesValue(l.pieces), ParseString(s).rest)
    ensures l.closed || ParseString(s).rest == []
  {
    hide StringBody, PiecesText, PiecesValue, ValidPieces, Countable;
    var ps, u := BodyFound(s[1..]);
    l := Literal(ps, u != []);
    LiteralJoined(s, l, u);
    LiteralRead(l, ParseString(s).rest);
  }

  lemma LiteralJoined(s: Text, l: Literal, u: Text)
    requires StartsWith(s, QUOTE) && EndsBody(u) && s[1..] == PiecesText(l.pieces) + u && l.closed == (u != [])
    ensures s == LiteralText(l) + if u == [] then [] else u[1..]
  {
    hide PiecesText;
    assert s == [QUOTE] + (PiecesText(l.pieces) + u);
    if u != [] { assert u == [QUOTE] + u[1..]; }
  }
}
