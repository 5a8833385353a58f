/** The grammar of the texts that the parser accepts: the JSON texts of RFC 8259, and the looser white
    space, numbers and string literals it takes as well.  Every text of it is read as the value it
    denotes. */
module JsonGrammar {
  import opened CText
  import opened JsonSpec
  import opened JsonRoundTrip
  import L = JsonLiteral
  import M = JsonMinify
  import N = JsonNumeral
  import P = JsonPieces

  // ----- the grammar -----

  /** What the parser skips between tokens. */
  predicate White(w: Text) {
    forall i :: 0 <= i < |w| ==> w[i] <= 32
  }

  /** White space of the standard (section 2 of RFC 8259). */
  predicate Blank(w: Text) {
    forall i :: 0 <= i < |w| ==> w[i] as char in {' ', '\t', '\n', '\r'}
  }

  /** A string literal of the standard, or one given by the pieces the parser takes it apart into. */
  datatype Quoted = Standard(chars: seq<L.Char>) | Raw(literal: P.Literal)

  /** A value, with the white space around its parts. */
  datatype Node =
    | Word(json: Json)
    | Numeric(numeral: N.Numeral)
    | Literal(quoted: Quoted)
    | List(empty: Text, items: seq<Spaced>)
    | Table(empty: Text, entries: seq<Entry>)

  datatype Spaced = Spaced(before: Text, node: Node, after: Text)

  /** A member: its name between white space, a colon, its value between white space. */
  datatype Entry = Entry(before: Text, name: Quoted, after: Text, value: Spaced)

  predicate ValidQuoted(q: Quoted) {
    match q
    case Standard(l) => L.WellFormed(l)
    case Raw(l) => P.ValidLiteral(l)
  }

  predicate HasEnd(q: Quoted) {
    q.Raw? ==> q.literal.closed
  }

  predicate ClosedNode(v: Node) {
    v.Literal? ==> HasEnd(v.quoted)
  }

  predicate Valid(v: Node)
    decreases v, 0
  {
    match v
    case Word(j) => j in {Null, False, True}
    case Numeric(n) => N.ValidNumeral(n)
    case Literal(q) => ValidQuoted(q)
    case List(w, items) => White(w) && (forall i :: 0 <= i < |items| ==> ValidSpaced(items[i]))
    case Table(w, es) => White(w) && (forall i :: 0 <= i < |es| ==> ValidEntry(es[i]))
  }

  /** A value inside another one: its literals are closed. */
  predicate ValidSpaced(x: Spaced)
    decreases x, 1
  {
    White(x.before) && Valid(x.node) && ClosedNode(x.node) && White(x.after)
  }

  predicate ValidEntry(e: Entry)
    decreases e, 2
  {
    White(e.before) && ValidQuoted(e.name) && HasEnd(e.name) && White(e.after) && ValidSpaced(e.value)
  }

  /** A whole text; nothing follows a literal that is left open. */
  predicate Document(x: Spaced) {
    White(x.before) && Valid(x.node) && White(x.after) && (ClosedNode(x.node) || x.after == [])
  }

  /** What is written with the means of the standard alone. */
  predicate StandardNode(v: Node)
    decreases v, 0
  {
    match v
    case Word(j) => j in {Null, False, True}
    case Numeric(n) => N.StandardNumeral(n)
    case Literal(q) => ValidQuoted(q) && q.Standard?
    case List(w, items) => Blank(w) && (forall i :: 0 <= i < |items| ==> StandardText(items[i]))
    case Table(w, es) => Blank(w) && (forall i :: 0 <= i < |es| ==> StandardEntry(es[i]))
  }

  predicate StandardText(x: Spaced)
    decreases x, 1
  {
    Blank(x.before) && StandardNode(x.node) && Blank(x.after)
  }

  predicate StandardEntry(e: Entry)
    decreases e, 2
  {
    Blank(e.before) && ValidQuoted(e.name) && e.name.Standard? && Blank(e.after) && StandardText(e.value)
  }

  // ----- the text of a value -----

  function QuotedText(q: Quoted): Text {
    match q
    case Standard(l) => [QUOTE] + L.LiteralText(l) + [QUOTE]
    case Raw(l) => P.LiteralText(l)
  }

  function WordText(j: Json): Text {
    Ascii(if j == Null then "null" else if j == False then "false" else "true")
  }

  function NodeText(v: Node): Text
    decreases v, 0
  {
    match v
    case Word(j) => WordText(j)
    case Numeric(n) => N.NumeralText(n)
    case Literal(q) => QuotedText(q)
    case List(w, items) => [LEFT_BRACKET] + (if items == [] then w + [RIGHT_BRACKET] else ItemsText(items))
    case Table(w, es) => [LEFT_BRACE] + (if es == [] then w + [RIGHT_BRACE] else EntriesText(es))
  }

  function SpacedText(x: Spaced): Text
    decreases x, 1
  {
    x.before + NodeText(x.node) + x.after
  }

  function ItemsText(items: seq<Spaced>): Text
    requires items != []
    decreases items, 2
  {
    SpacedText(items[0]) + (if |items| == 1 then [RIGHT_BRACKET] else [COMMA] + ItemsText(items[1..]))
  }

  function EntryText(e: Entry): Text
    decreases e, 2
  {
    e.before + QuotedText(e.name) + e.after + [COLON] + SpacedText(e.value)
  }

  function EntriesText(es: seq<Entry>): Text
    requires es != []
    decreases es, 3
  {
    EntryText(es[0]) + (if |es| == 1 then [RIGHT_BRACE] else [COMMA] + EntriesText(es[1..]))
  }

  // ----- the value of a text -----

  function QuotedValue(q: Quoted): Text
    requires ValidQuoted(q)
  {
    match q
    case Standard(l) => L.Utf8All(L.Denoted(l))
    case Raw(l) => P.PiecesValue(l.pieces)
  }

  function Denoted(v: Node): Json
    requires Valid(v)
    decreases v, 0
  {
    match v
    case Word(j) => j
    case Numeric(n) => N.NumeralValue(n)
    case Literal(q) => String(QuotedValue(q))
    case List(_, items) => Array(DenotedItems(items))
    case Table(_, es) => Object(DenotedEntries(es))
  }

  function SpacedValue(x: Spaced): Json
    requires ValidSpaced(x)
    decreases x, 1
  {
    Denoted(x.node)
  }

  function DenotedItems(items: seq<Spaced>): seq<Json>
    requires forall i :: 0 <= i < |items| ==> ValidSpaced(items[i])
    decreases items, 2
  {
    if items == [] then [] else [SpacedValue(items[0])] + DenotedItems(items[1..])
  }

  function DenotedEntry(e: Entry): Member
    requires ValidEntry(e)
    decreases e, 2
  {
    Member(QuotedValue(e.name), SpacedValue(e.value))
  }

  function DenotedEntries(es: seq<Entry>): seq<Member>
    requires forall i :: 0 <= i < |es| ==> ValidEntry(es[i])
    decreases es, 3
  {
    if es == [] then [] else [DenotedEntry(es[0])] + DenotedEntries(es[1..])
  }

  // ----- white space -----

  lemma {:induction false} WhiteSkipped(w: Text, t: Text)
    requires White(w) && t != [] && t[0] > 32
    ensures Skip(w + t) == t
    decreases |w|
  {
    if w == [] {
      assert w + t == t;
    } else {
      assert (w + t)[1..] == w[1..] + t;
      WhiteSkipped(w[1..], t);
    }
  }

  lemma {:induction false} WhiteToEnd(w: Text)
    requires White(w)
    ensures Skip(w) == []
    decreases |w|
  {
    if w != [] { WhiteToEnd(w[1..]); }
  }

  /** White space and a separating character end a number. */
  lemma WhiteEndsNumber(w: Text, c: Byte, t: Text)
    requires White(w) && c in {COMMA, COLON, RIGHT_BRACKET, RIGHT_BRACE}
    ensures NumberEnds(w + ([c] + t)) && Skip(w + ([c] + t)) == [c] + t
  {
    WhiteSkipped(w, [c] + t);
    assert w != [] ==> (w + ([c] + t))[0] == w[0];
    assert w == [] ==> w + ([c] + t) == [c] + t;
  }

  lemma NodeStart(v: Node)
    requires Valid(v)
    ensures ValueStart(NodeText(v))
  {
    hide L.LiteralText, L.WellFormed, P.PiecesText, P.ValidLiteral;
    hide ItemsText, EntriesText, N.FractionText, N.ExponentText;
    match v {
      case Word(j) => WordBytes(j);
      case Numeric(n) => if !n.negative { assert N.NumeralText(n)[0] == n.whole[0]; }
      case _ =>
    }
  }

  // ----- values -----

  /** The text behind a value could not be read as more of it. */
  predicate Ends(v: Node, t: Text) {
    && (v.Numeric? ==> N.NumeralEnds(v.numeral, t))
    && (ClosedNode(v) || t == [])
  }

  lemma QuotedRead(q: Quoted, t: Text)
    requires ValidQuoted(q) && (HasEnd(q) || t == [])
    ensures ParseString(QuotedText(q) + t) == Ok(QuotedValue(q), t)
    ensures StartsWith(QuotedText(q) + t, QUOTE)
  {
    hide ParseString, L.LiteralText, L.WellFormed, L.Utf8All, L.Denoted, P.PiecesText, P.PiecesValue, P.ValidLiteral;
    match q {
      case Standard(l) => L.LiteralDecoded(l, t);
      case Raw(l) => P.LiteralRead(l, t);
    }
  }

  lemma WordBytes(j: Json)
    ensures WordText(j) == if j == Null then NULL_TEXT else if j == False then FALSE_TEXT else TRUE_TEXT
  {
  }

  lemma WordParsed(j: Json, t: Text)
    requires j in {Null, False, True}
    ensures ParseValue(WordText(j) + t) == Ok(j, t)
  {
    hide ParseValue;
    WordBytes(j);
    DispatchWord(WordText(j), t);
  }

  lemma NumeralParsed(n: N.Numeral, t: Text)
    requires N.ValidNumeral(n) && N.NumeralEnds(n, t)
    ensures ParseValue(N.NumeralText(n) + t) == Ok(N.NumeralValue(n), t)
  {
    hide ParseValue, ParseNumber, N.NumeralText, N.NumeralValue, N.NumeralEnds;
    N.NumeralRead(n, t);
    DispatchOther(N.NumeralText(n) + t);
  }

  lemma LiteralParsed(q: Quoted, t: Text)
    requires ValidQuoted(q) && (HasEnd(q) || t == [])
    ensures ParseValue(QuotedText(q) + t) == Ok(String(QuotedValue(q)), t)
  {
    hide ParseValue, ParseString, QuotedText, QuotedValue, ValidQuoted;
    QuotedRead(q, t);
    DispatchOther(QuotedText(q) + t);
  }

  /** The parser reads a value of the grammar as what it denotes and stops at its end. */
  lemma {:induction false} NodeParsed(v: Node, t: Text)
    requires Valid(v) && Ends(v, t)
    ensures ParseValue(NodeText(v) + t) == Ok(Denoted(v), t)
    decreases v, 0
  {
    hide ParseValue, N.ValidNumeral, N.NumeralEnds, QuotedText, N.NumeralValue, QuotedValue, ItemsText, EntriesText;
    hide ValidQuoted, WordText, N.NumeralText;
    match v {
      case Word(j) => WordParsed(j, t);
      case Numeric(n) => NumeralParsed(n, t);
      case Literal(q) => LiteralParsed(q, t);
      case List(w, items) => ListParsed(w, items, t);
      case Table(w, es) => TableParsed(w, es, t);
    }
  }

  lemma {:induction false} ListParsed(w: Text, items: seq<Spaced>, t: Text)
    requires White(w) && (forall i :: 0 <= i < |items| ==> ValidSpaced(items[i]))
    ensures ParseValue(NodeText(List(w, items)) + t) == Ok(Array(DenotedItems(items)), t)
    decreases items, 3
  {
    hide ParseValue, ParseItems, ItemsText, DenotedItems, Skip, ValidSpaced, White;
    var s := NodeText(List(w, items)) + t;
    if items == [] {
      assert s[1..] == w + ([RIGHT_BRACKET] + t);
      WhiteSkipped(w, [RIGHT_BRACKET] + t);
      ArrayEmpty(s, t);
      NothingDenoted();
    } else {
      var p := ItemsText(items) + t;
      assert s[1..] == p;
      ItemsParsed(items, p, t);
      SkipItems(items, p, t);
      ArrayStep(s, Skip(p), DenotedItems(items), t);
    }
  }

  lemma NothingDenoted()
    ensures DenotedItems([]) == [] && DenotedEntries([]) == []
  {
  }

  /** The items read from behind their leading white space, too. */
  lemma SkipItems(items: seq<Spaced>, p: Text, t: Text)
    requires items != [] && ValidSpaced(items[0]) && p == ItemsText(items) + t
    ensures ParseItems(Skip(p)) == ParseItems(p) && !StartsWith(Skip(p), RIGHT_BRACKET)
  {
    hide ParseValue, NodeText, Valid;
    var x := items[0];
    var more := if |items| == 1 then [RIGHT_BRACKET] else [COMMA] + ItemsText(items[1..]);
    assert p == x.before + (NodeText(x.node) + (x.after + more + t));
    NodeStart(x.node);
    WhiteSkipped(x.before, NodeText(x.node) + (x.after + more + t));
    ItemsSkipped(p);
  }

  lemma ItemsSkipped(p: Text)
    ensures ParseItems(Skip(p)) == ParseItems(p)
  {
    hide ParseValue;
    assert Skip(Skip(p)) == Skip(p);
  }

  lemma MembersSkipped(p: Text)
    ensures ParseMembers(Skip(p)) == ParseMembers(p)
  {
    hide ParseValue, ParseString;
    assert Skip(Skip(p)) == Skip(p);
  }

  /** A value between white space, before a separating character. */
  lemma {:induction false} SpacedParsed(x: Spaced, c: Byte, t: Text, s: Text)
    requires ValidSpaced(x) && c in {COMMA, RIGHT_BRACKET, RIGHT_BRACE}
    requires s == SpacedText(x) + ([c] + t)
    ensures ParseValue(Skip(s)) == Ok(SpacedValue(x), x.after + ([c] + t))
    ensures Skip(x.after + ([c] + t)) == [c] + t
    decreases x, 0
  {
    hide ParseValue, NodeText, Valid, Denoted, Skip, White, NumberEnds, N.NumeralEnds;
    var u := x.after + ([c] + t);
    WhiteEndsNumber(x.after, c, t);
    NumberEndsAll(x.node, u);
    NodeParsed(x.node, u);
    NodeStart(x.node);
    assert s == x.before + (NodeText(x.node) + u);
    WhiteSkipped(x.before, NodeText(x.node) + u);
  }

  lemma {:induction false} ItemsParsed(items: seq<Spaced>, s: Text, t: Text)
    requires items != [] && (forall i :: 0 <= i < |items| ==> ValidSpaced(items[i]))
    requires s == ItemsText(items) + t
    ensures ParseItems(s) == Ok(DenotedItems(items), t)
    decreases items, 2
  {
    hide ParseValue, ParseItems, Skip, SpacedText, ValidSpaced, SpacedValue;
    var x := items[0];
    if |items| == 1 {
      assert s == SpacedText(x) + ([RIGHT_BRACKET] + t);
      SpacedParsed(x, RIGHT_BRACKET, t, s);
      ItemsLast(s, SpacedValue(x), x.after + ([RIGHT_BRACKET] + t), t);
      NothingDenoted();
      assert items[1..] == [] && DenotedItems(items) == [SpacedValue(x)];
    } else {
      var q := ItemsText(items[1..]) + t;
      assert s == SpacedText(x) + ([COMMA] + q);
      SpacedParsed(x, COMMA, q, s);
      ItemsParsed(items[1..], q, t);
      ItemsMore(s, SpacedValue(x), x.after + ([COMMA] + q), q, DenotedItems(items[1..]), t);
    }
  }

  lemma {:induction false} TableParsed(w: Text, es: seq<Entry>, t: Text)
    requires White(w) && (forall i :: 0 <= i < |es| ==> ValidEntry(es[i]))
    ensures ParseValue(NodeText(Table(w, es)) + t) == Ok(Object(DenotedEntries(es)), t)
    decreases es, 4
  {
    hide ParseValue, ParseMembers, EntriesText, DenotedEntries, Skip, ValidEntry, White;
    var s := NodeText(Table(w, es)) + t;
    if es == [] {
      assert s[1..] == w + ([RIGHT_BRACE] + t);
      WhiteSkipped(w, [RIGHT_BRACE] + t);
      ObjectEmpty(s, t);
      NothingDenoted();
    } else {
      var p := EntriesText(es) + t;
      assert s[1..] == p;
      EntriesParsed(es, p, t);
      SkipEntries(es, p, t);
      ObjectStep(s, Skip(p), DenotedEntries(es), t);
    }
  }

  lemma QuotedStart(q: Quoted)
    ensures StartsWith(QuotedText(q), QUOTE)
  {
    hide L.LiteralText, P.PiecesText;
  }

  lemma SkipEntries(es: seq<Entry>, p: Text, t: Text)
    requires es != [] && ValidEntry(es[0]) && p == EntriesText(es) + t
    ensures ParseMembers(Skip(p)) == ParseMembers(p) && !StartsWith(Skip(p), RIGHT_BRACE)
  {
    hide ParseValue, ParseString, Valid, SpacedText, QuotedText, White, ValidQuoted, Skip;
    var e := es[0];
    QuotedStart(e.name);
    var more := if |es| == 1 then [RIGHT_BRACE] else [COMMA] + EntriesText(es[1..]);
    var q := e.after + [COLON] + SpacedText(e.value) + more + t;
    assert p == e.before + (QuotedText(e.name) + q);
    WhiteSkipped(e.before, QuotedText(e.name) + q);
    MembersSkipped(p);
  }

  /** A member before a separating character. */
  lemma {:induction false} EntryParsed(e: Entry, c: Byte, t: Text, s: Text)
    requires ValidEntry(e) && c in {COMMA, RIGHT_BRACE}
    requires s == EntryText(e) + ([c] + t)
    ensures MemberAt(s, DenotedEntry(e), e.value.after + ([c] + t))
    ensures Skip(e.value.after + ([c] + t)) == [c] + t
    decreases e, 1
  {
    hide ParseValue, ParseString, SpacedText, ValidSpaced, SpacedValue, Skip, White;
    hide QuotedText, QuotedValue, ValidQuoted, NumberEnds;
    var v := SpacedText(e.value) + ([c] + t);
    var q := e.after + ([COLON] + v);
    assert s == e.before + (QuotedText(e.name) + q);
    QuotedRead(e.name, q);
    WhiteSkipped(e.before, QuotedText(e.name) + q);
    WhiteEndsNumber(e.after, COLON, v);
    assert ([COLON] + v)[1..] == v;
    SpacedParsed(e.value, c, t, v);
  }

  lemma {:induction false} EntriesParsed(es: seq<Entry>, s: Text, t: Text)
    requires es != [] && (forall i :: 0 <= i < |es| ==> ValidEntry(es[i]))
    requires s == EntriesText(es) + t
    ensures ParseMembers(s) == Ok(DenotedEntries(es), t)
    decreases es, 3
  {
    hide ParseValue, ParseMembers, Skip, EntryText, ValidEntry, DenotedEntry, MemberAt;
    var e := es[0];
    if |es| == 1 {
      assert s == EntryText(e) + ([RIGHT_BRACE] + t);
      EntryParsed(e, RIGHT_BRACE, t, s);
      MembersLast(s, DenotedEntry(e), e.value.after + ([RIGHT_BRACE] + t), t);
      NothingDenoted();
      assert es[1..] == [] && DenotedEntries(es) == [DenotedEntry(e)];
    } else {
      var q := EntriesText(es[1..]) + t;
      assert s == EntryText(e) + ([COMMA] + q);
      EntryParsed(e, COMMA, q, s);
      EntriesParsed(es[1..], q, t);
      MembersMore(s, DenotedEntry(e), e.value.after + ([COMMA] + q), q, DenotedEntries(es[1..]), t);
    }
  }

  lemma NumberEndsAll(v: Node, t: Text)
    requires NumberEnds(t) && ClosedNode(v)
    ensures Ends(v, t)
  {
  }

  // ----- documents -----

  /** Every text of the grammar is accepted as the value it denotes. */
  lemma TextParsed(x: Spaced)
    requires Document(x)
    ensures ParseDocument(SpacedText(x)) == Ok(Denoted(x.node), x.after)
  {
    hide ParseValue, NodeText, Valid, Denoted, White, NumberEnds, Skip, N.NumeralEnds;
    var s := SpacedText(x);
    WhiteNumberEnds(x.after);
    DocumentEnds(x);
    NodeParsed(x.node, x.after);
    NodeStart(x.node);
    assert s == x.before + (NodeText(x.node) + x.after);
    WhiteSkipped(x.before, NodeText(x.node) + x.after);
    WhiteToEnd(x.after);
  }

  lemma WhiteNumberEnds(w: Text)
    requires White(w)
    ensures NumberEnds(w)
  {
  }

  lemma DocumentEnds(x: Spaced)
    requires Document(x) && NumberEnds(x.after)
    ensures Ends(x.node, x.after)
  {
  }

  /** The texts of the standard are among them, and none is left open. */
  lemma StandardDocument(x: Spaced)
    requires StandardText(x)
    ensures Document(x) && ClosedNode(x.node)
  {
    hide N.ValidNumeral, N.StandardNumeral, ValidQuoted;
    StandardSpaced(x);
  }

  lemma {:induction false} StandardSpaced(x: Spaced)
    requires StandardText(x)
    ensures ValidSpaced(x)
    decreases x
  {
    hide ValidQuoted;
    match x.node {
      case List(w, items) =>
        forall i | 0 <= i < |items| ensures ValidSpaced(items[i]) { StandardSpaced(items[i]); }
      case Table(w, es) =>
        forall i | 0 <= i < |es| ensures ValidEntry(es[i]) {
          assert StandardEntry(es[i]);
          StandardSpaced(es[i].value);
        }
      case _ =>
    }
  }

  // ----- minified documents -----

  lemma {:induction false} LiteralCounted(l: seq<L.Char>, t: Text)
    ensures Stop(L.LiteralText(l) + ([QUOTE] + t)) == |L.LiteralText(l)|
    decreases |l|
  {
    hide L.CharText;
    var u := [QUOTE] + t;
    if l == [] {
      assert [] + u == u;
    } else {
      LiteralCounted(l[1..], t);
      CharCounted(l[0], L.LiteralText(l[1..]) + u);
      assert L.LiteralText(l) + u == L.CharText(l[0]) + (L.LiteralText(l[1..]) + u);
    }
  }

  lemma CharCounted(c: L.Char, t: Text)
    ensures Stop(L.CharText(c) + t) == |L.CharText(c)| + Stop(t)
  {
    hide Stop;
    match c {
      case Plain(p) => StopPlain(Utf8(p), t);
      case Escape(l) => StopEscape([BACKSLASH, l], t);
      case Unicode(d) => StopHex([BACKSLASH, LOWER_U] + d, t);
    }
  }

  lemma RawCounted(l: P.Literal, t: Text)
    requires P.ValidLiteral(l) && l.closed
    ensures Stop((P.LiteralText(l) + t)[1..]) == |P.PiecesText(l.pieces)|
  {
    hide Stop, P.PiecesText, P.ValidPieces, P.Countable;
    P.StopCountable(P.PiecesText(l.pieces), [QUOTE] + t);
    assert (P.LiteralText(l) + t)[1..] == P.PiecesText(l.pieces) + ([QUOTE] + t);
  }

  lemma StandardCounted(l: seq<L.Char>, t: Text)
    ensures Stop((QuotedText(Standard(l)) + t)[1..]) == |L.LiteralText(l)|
  {
    hide Stop, L.LiteralText;
    LiteralCounted(l, t);
    assert (QuotedText(Standard(l)) + t)[1..] == L.LiteralText(l) + ([QUOTE] + t);
  }

  lemma QuotedCounted(q: Quoted, t: Text)
    requires ValidQuoted(q) && HasEnd(q)
    ensures StartsWith(QuotedText(q) + t, QUOTE) && Stop((QuotedText(q) + t)[1..]) < |QuotedText(q) + t| - 1
  {
    hide Stop, L.LiteralText, L.WellFormed, P.PiecesText, P.ValidLiteral;
    match q {
      case Standard(l) => StandardCounted(l, t);
      case Raw(l) => RawCounted(l, t);
    }
  }

  /** A literal of the grammar is closed by its own quote. */
  lemma NotLeftOpen(x: Spaced)
    requires Valid(x.node) && ClosedNode(x.node) && Skip(SpacedText(x)) == NodeText(x.node) + x.after
    ensures !M.LeftOpen(SpacedText(x))
  {
    hide Skip, Stop, ValidQuoted, QuotedText, ItemsText, EntriesText, SpacedText, N.FractionText, N.ExponentText;
    match x.node {
      case Literal(q) => QuotedCounted(q, x.after);
      case Word(j) => WordBytes(j);
      case Numeric(n) => if !n.negative { assert N.NumeralText(n)[0] == n.whole[0]; }
      case _ =>
    }
  }

  /** And still is after `cJSON_Minify`, if its literals are closed. */
  lemma TextMinified(x: Spaced)
    requires Document(x) && ClosedNode(x.node)
    ensures var m := M.Minify(SpacedText(x));
      ParseDocument(m).Ok? && ParseDocument(m).value == Denoted(x.node) && M.Minify(m) == m
  {
    hide ParseDocument, NodeText, Valid, Denoted, White, M.Minify, Skip, M.LeftOpen;
    var s := SpacedText(x);
    TextParsed(x);
    NodeStart(x.node);
    assert s == x.before + (NodeText(x.node) + x.after);
    WhiteSkipped(x.before, NodeText(x.node) + x.after);
    NotLeftOpen(x);
    M.DocumentMinified(s);
  }
}
