/** The parser accepts nothing but the texts of the grammar: what it reads is the text of a value, and
    the answer is what that value denotes. */
module JsonAccept {
  import opened CText
  import opened JsonSpec
  import opened JsonGrammar
  import N = JsonNumeral
  import P = JsonPieces

  /** v is what the parser has read of s, leaving t. */
  ghost predicate Reads(v: Node, s: Text, t: Text) {
    Valid(v) && Ends(v, t) && s == NodeText(v) + t
  }

  // ----- white space -----

  /** The white space that is skipped. */
  lemma {:induction false} WhiteFound(s: Text) returns (w: Text)
    ensures White(w) && s == w + Skip(s)
    decreases |s|
  {
    w := [];
    if s != [] && s[0] <= 32 {
      var more := WhiteFound(s[1..]);
      w := [s[0]] + more;
    }
  }

  // ----- values -----

  lemma WordFound(s: Text, w: Text, j: Json) returns (v: Node)
    requires j in {Null, False, True} && w == WordText(j) && HasPrefix(s, w)
    ensures Reads(v, s, s[|w|..])
  {
    v := Word(j);
    assert s == w + s[|w|..];
  }

  /** Whatever is read as a value is the text of one. */
  lemma {:induction false} ValueFound(s: Text) returns (v: Node)
    requires ParseValue(s).Ok?
    ensures Reads(v, s, ParseValue(s).rest)
    decreases |s|, 1
  {
    hide HasPrefix, ParseString, ParseNumber, ParseArray, ParseObject, Reads, WordText;
    WordBytes(Null);
    WordBytes(False);
    WordBytes(True);
    if HasPrefix(s, NULL_TEXT) {
      v := WordFound(s, NULL_TEXT, Null);
    } else if HasPrefix(s, FALSE_TEXT) {
      v := WordFound(s, FALSE_TEXT, False);
    } else if HasPrefix(s, TRUE_TEXT) {
      v := WordFound(s, TRUE_TEXT, True);
    } else if StartsWith(s, QUOTE) {
      v := StringFound(s);
    } else if StartsWith(s, MINUS) || StartsWithDigit(s) {
      v := NumberFound(s);
    } else if StartsWith(s, LEFT_BRACKET) {
      v := ArrayFound(s);
    } else {
      v := ObjectFound(s);
    }
  }

  lemma StringFound(s: Text) returns (v: Node)
    requires ParseString(s).Ok?
    ensures Reads(v, s, ParseString(s).rest)
  {
    hide ParseString, P.LiteralText, P.ValidLiteral, P.PiecesValue;
    var l := P.LiteralFound(s);
    v := Literal(Raw(l));
  }

  lemma NumberFound(s: Text) returns (v: Node)
    requires StartsWith(s, MINUS) || StartsWithDigit(s)
    ensures Reads(v, s, ParseNumber(s).rest)
  {
    hide ParseNumber, N.NumeralText, N.ValidNumeral, N.NumeralValue, N.NumeralEnds;
    var n := N.NumeralFound(s);
    v := Numeric(n);
  }

  /** A value and the white space around it, in front of a separating character. */
  lemma {:induction false} SpacedFound(s: Text, c: Byte) returns (x: Spaced)
    requires ParseValue(Skip(s)).Ok? && StartsWith(Skip(ParseValue(Skip(s)).rest), c)
    ensures ValidSpaced(x) && s == SpacedText(x) + Skip(ParseValue(Skip(s)).rest)
    decreases |s|, 2
  {
    hide ParseValue, Skip, NodeText, Valid, White, N.NumeralEnds;
    var t := ParseValue(Skip(s)).rest;
    var before := WhiteFound(s);
    var after := WhiteFound(t);
    SkipShorter(s);
    var v := ValueFound(Skip(s));
    x := Spaced(before, v, after);
    assert s == before + (NodeText(v) + (after + Skip(t)));
  }

  lemma SkipShorter(s: Text)
    ensures |Skip(s)| <= |s|
  {
  }

  lemma {:induction false} ArrayFound(s: Text) returns (v: Node)
    requires ParseArray(s).Ok?
    ensures Reads(v, s, ParseArray(s).rest)
    decreases |s|, 0
  {
    hide ParseItems, Skip, ItemsText, White, ValidSpaced;
    var t := Skip(s[1..]);
    assert s == [LEFT_BRACKET] + s[1..];
    if StartsWith(t, RIGHT_BRACKET) {
      var w := WhiteFound(s[1..]);
      v := List(w, []);
      assert t == [RIGHT_BRACKET] + t[1..];
    } else {
      ItemsSkipped(s[1..]);
      var items := ItemsFound(s[1..]);
      NoWhite();
      v := List([], items);
    }
  }

  lemma NoWhite()
    ensures White([])
  {
  }

  /** The items from here on, each one ended by a comma or the closing bracket. */
  lemma {:induction false} ItemsFound(s: Text) returns (items: seq<Spaced>)
    requires ParseItems(s).Ok?
    ensures items != [] && (forall i :: 0 <= i < |items| ==> ValidSpaced(items[i]))
    ensures s == ItemsText(items) + ParseItems(s).rest
    decreases |s|, 3
  {
    hide ParseValue, Skip, SpacedText, ValidSpaced;
    var u := Skip(ParseValue(Skip(s)).rest);
    if StartsWith(u, RIGHT_BRACKET) {
      var x := SpacedFound(s, RIGHT_BRACKET);
      items := [x];
      assert u == [RIGHT_BRACKET] + u[1..];
    } else {
      var x := SpacedFound(s, COMMA);
      SkipShorter(s);
      SkipShorter(ParseValue(Skip(s)).rest);
      var more := ItemsFound(u[1..]);
      items := [x] + more;
      assert u == [COMMA] + u[1..] && items[1..] == more;
    }
  }

  lemma {:induction false} ObjectFound(s: Text) returns (v: Node)
    requires ParseObject(s).Ok?
    ensures Reads(v, s, ParseObject(s).rest)
    decreases |s|, 0
  {
    hide ParseMembers, Skip, EntriesText, White, ValidEntry;
    var t := Skip(s[1..]);
    assert s == [LEFT_BRACE] + s[1..];
    if StartsWith(t, RIGHT_BRACE) {
      var w := WhiteFound(s[1..]);
      v := Table(w, []);
      assert t == [RIGHT_BRACE] + t[1..];
    } else {
      MembersSkipped(s[1..]);
      var es := MembersFound(s[1..]);
      NoWhite();
      v := Table([], es);
    }
  }

  /** The text of a member up to its colon. */
  function NameText(before: Text, name: Quoted, after: Text): Text {
    before + QuotedText(name) + after + [COLON]
  }

  lemma NameFound(s: Text) returns (before: Text, name: Quoted, after: Text)
    requires ParseString(Skip(s)).Ok? && StartsWith(Skip(ParseString(Skip(s)).rest), COLON)
    ensures White(before) && ValidQuoted(name) && HasEnd(name) && White(after)
    ensures s == NameText(before, name, after) + Skip(ParseString(Skip(s)).rest)[1..]
  {
    hide ParseString, Skip, P.LiteralText, P.ValidLiteral, P.PiecesValue, White;
    var t := ParseString(Skip(s)).rest;
    before := WhiteFound(s);
    after := WhiteFound(t);
    var l := P.LiteralFound(Skip(s));
    name := Raw(l);
    SkipShorter(t);
    assert Skip(t) == [COLON] + Skip(t)[1..];
    assert s == before + (P.LiteralText(l) + (after + ([COLON] + Skip(t)[1..])));
  }

  lemma {:induction false} EntryFound(s: Text, c: Byte) returns (e: Entry)
    requires ParseString(Skip(s)).Ok? && StartsWith(Skip(ParseString(Skip(s)).rest), COLON)
    requires var v := ParseValue(Skip(Skip(ParseString(Skip(s)).rest)[1..]));
      v.Ok? && StartsWith(Skip(v.rest), c)
    ensures ValidEntry(e)
    ensures s == EntryText(e) + Skip(ParseValue(Skip(Skip(ParseString(Skip(s)).rest)[1..])).rest)
    decreases |s|, 4
  {
    hide ParseString, ParseValue, Skip, SpacedText, ValidSpaced, White, QuotedText, ValidQuoted;
    var q := Skip(ParseString(Skip(s)).rest)[1..];
    var before, name, after := NameFound(s);
    SkipShorter(s);
    SkipShorter(ParseString(Skip(s)).rest);
    var x := SpacedFound(q, c);
    e := Entry(before, name, after, x);
    assert s == NameText(before, name, after) + (SpacedText(x) + Skip(ParseValue(Skip(q)).rest));
  }

  /** The members from here on, each one ended by a comma or the closing brace. */
  lemma {:induction false} MembersFound(s: Text) returns (es: seq<Entry>)
    requires ParseMembers(s).Ok?
    ensures es != [] && (forall i :: 0 <= i < |es| ==> ValidEntry(es[i]))
    ensures s == EntriesText(es) + ParseMembers(s).rest
    decreases |s|, 5
  {
    hide ParseString, ParseValue, Skip, EntryText, ValidEntry;
    var q := Skip(ParseString(Skip(s)).rest)[1..];
    var u := Skip(ParseValue(Skip(q)).rest);
    if StartsWith(u, RIGHT_BRACE) {
      var e := EntryFound(s, RIGHT_BRACE);
      es := [e];
      assert u == [RIGHT_BRACE] + u[1..];
    } else {
      var e := EntryFound(s, COMMA);
      SkipShorter(s);
      SkipShorter(ParseString(Skip(s)).rest);
      SkipShorter(q);
      SkipShorter(ParseValue(Skip(q)).rest);
      var more := MembersFound(u[1..]);
      es := [e] + more;
      assert u == [COMMA] + u[1..] && es[1..] == more;
    }
  }

  // ----- exactly the grammar -----

  /** The parser answers with a value and the text behind it exactly if the text begins with a text of
      the grammar that denotes this value and ends there. */
  lemma AcceptedExactly(s: Text, j: Json, t: Text)
    ensures ParseValue(s) == Ok(j, t) <==> exists v :: Reads(v, s, t) && Denoted(v) == j
  {
    hide ParseValue, Valid, Denoted, NodeText, Ends;
    if ParseValue(s) == Ok(j, t) {
      var v := ValueFound(s);
      NodeParsed(v, t);
    }
    forall v | Reads(v, s, t) && Denoted(v) == j ensures ParseValue(s) == Ok(j, t) {
      NodeParsed(v, t);
    }
  }

  ghost predicate ReadsAll(x: Spaced, s: Text) {
    Document(x) && s == SpacedText(x)
  }

  /** `cJSON_ParseWithOpts` with the check for trailing text accepts exactly the texts of the grammar. */
  lemma DocumentsExactly(s: Text, j: Json)
    ensures ParseDocument(s).Ok? && ParseDocument(s).value == j
       <==> exists x :: ReadsAll(x, s) && Denoted(x.node) == j
  {
    hide ParseDocument, Valid, Denoted, SpacedText;
    if ParseDocument(s).Ok? {
      var x := DocumentFound(s);
      TextParsed(x);
    }
    forall x | ReadsAll(x, s) ensures ParseDocument(s).Ok? && ParseDocument(s).value == Denoted(x.node) {
      TextParsed(x);
    }
  }

  lemma DocumentFound(s: Text) returns (x: Spaced)
    requires ParseDocument(s).Ok?
    ensures ReadsAll(x, s)
  {
    hide ParseValue, Valid, NodeText, Skip, White, N.NumeralEnds;
    var t := ParseValue(Skip(s)).rest;
    var before := WhiteFound(s);
    var after := WhiteFound(t);
    var v := ValueFound(Skip(s));
    assert after + [] == after;
    x := Spaced(before, v, t);
  }
}
