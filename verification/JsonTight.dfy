/** `cJSON_Minify` takes the white space out of a text and nothing else; and the layout of formatted
    output. */
module JsonTight {
  import opened CText
  import opened JsonSpec
  import opened JsonGrammar
  import opened JsonMinify
  import JsonComments
  import JsonRoundTrip
  import N = JsonNumeral
  import P = JsonPieces

  // ----- the text without its white space -----

  /** Blanks, tabs, carriage returns and line feeds removed; the parser also skips other bytes up to 32,
      and these stay. */
  function Unspaced(w: Text): Text {
    if w == [] then []
    else (if w[0] as char in {' ', '\t', '\r', '\n'} then [] else [w[0]]) + Unspaced(w[1..])
  }

  function Tight(v: Node): Node
    decreases v, 0
  {
    match v
    case List(w, items) => List(Unspaced(w), TightItems(items))
    case Table(w, es) => Table(Unspaced(w), TightEntries(es))
    case _ => v
  }

  function TightSpaced(x: Spaced): Spaced
    decreases x, 1
  {
    Spaced(Unspaced(x.before), Tight(x.node), Unspaced(x.after))
  }

  function TightItems(items: seq<Spaced>): (r: seq<Spaced>)
    ensures |r| == |items|
    decreases items, 2
  {
    if items == [] then [] else [TightSpaced(items[0])] + TightItems(items[1..])
  }

  function TightEntry(e: Entry): Entry
    decreases e, 2
  {
    Entry(Unspaced(e.before), e.name, Unspaced(e.after), TightSpaced(e.value))
  }

  function TightEntries(es: seq<Entry>): (r: seq<Entry>)
    ensures |r| == |es|
    decreases es, 3
  {
    if es == [] then [] else [TightEntry(es[0])] + TightEntries(es[1..])
  }

  // ----- pieces of clean text -----

  /** s is clean, and minified to m. */
  predicate Becomes(s: Text, m: Text) {
    Clean(s) && Minify(s) == m
  }

  lemma Together(s: Text, m: Text, t: Text, n: Text)
    requires Becomes(s, m) && Becomes(t, n)
    ensures Becomes(s + t, m + n)
  {
    hide Clean, Minify;
    JsonComments.MinifyAppend(s, t);
  }

  lemma {:induction false} WhiteBecomes(w: Text)
    requires White(w)
    ensures Becomes(w, Unspaced(w))
    decreases |w|
  {
    if w != [] {
      WhiteBecomes(w[1..]);
      NoComment(w);
    }
  }

  lemma SolidBecomes(w: Text)
    requires forall i :: 0 <= i < |w| ==> IsSolid(w[i])
    ensures Becomes(w, w)
  {
    CleanEmpty();
    SolidRun(w, []);
    assert w + [] == w;
  }

  lemma LiteralBecomes(s: Text)
    requires StartsWith(s, QUOTE) && Stop(s[1..]) == |s| - 2
    ensures Becomes(s, s)
  {
    hide Stop;
    CleanEmpty();
    var b := s[1..];
    LiteralCopied(b);
    NoComment(s);
    assert b[|b|..] == [] && b[..|b| - 1] + ([QUOTE] + []) == b;
    assert [QUOTE] + b == s;
  }

  lemma QuotedBecomes(q: Quoted)
    requires ValidQuoted(q) && HasEnd(q)
    ensures Becomes(QuotedText(q), QuotedText(q))
  {
    hide Stop, Becomes, P.PiecesText, P.ValidPieces, P.Countable;
    var s := QuotedText(q);
    assert s + [] == s;
    QuotedStart(q);
    match q {
      case Standard(l) => StandardCounted(l, []);
      case Raw(l) => RawCounted(l, []);
    }
    LiteralBecomes(s);
  }

  lemma NumeralBecomes(n: N.Numeral)
    requires N.ValidNumeral(n)
    ensures Becomes(N.NumeralText(n), N.NumeralText(n))
  {
    hide N.FractionText, N.ExponentText, NumberBytes, IsSolid;
    PartBytes(n);
    NumberPieces(N.SignText(n), n.whole, N.FractionText(n), N.ExponentText(n));
    BytesSolid(N.NumeralText(n));
    SolidBecomes(N.NumeralText(n));
  }

  lemma PartBytes(n: N.Numeral)
    requires N.ValidNumeral(n)
    ensures NumberBytes(n.whole) && NumberBytes(N.FractionText(n)) && NumberBytes(N.ExponentText(n))
  {
  }

  lemma BytesSolid(d: Text)
    requires NumberBytes(d)
    ensures forall i :: 0 <= i < |d| ==> IsSolid(d[i])
  {
  }

  lemma WordBecomes(j: Json)
    requires j in {Null, False, True}
    ensures Becomes(WordText(j), WordText(j))
  {
    WordBytes(j);
    SolidBecomes(WordText(j));
  }

  lemma PunctBecomes(c: Byte)
    requires c in {COMMA, COLON, LEFT_BRACKET, RIGHT_BRACKET, LEFT_BRACE, RIGHT_BRACE}
    ensures Becomes([c], [c])
  {
    SolidBecomes([c]);
  }

  // ----- values -----

  lemma {:induction false} NodeBecomes(v: Node)
    requires Valid(v) && ClosedNode(v)
    ensures Becomes(NodeText(v), NodeText(Tight(v)))
    decreases v, 0
  {
    hide Becomes, ItemsText, EntriesText, N.NumeralText, WordText, QuotedText, ValidQuoted, N.ValidNumeral;
    match v {
      case Word(j) => WordBecomes(j);
      case Numeric(n) => NumeralBecomes(n);
      case Literal(q) => QuotedBecomes(q);
      case List(w, items) =>
        PunctBecomes(LEFT_BRACKET);
        if items == [] {
          WhiteBecomes(w);
          PunctBecomes(RIGHT_BRACKET);
          Together(w, Unspaced(w), [RIGHT_BRACKET], [RIGHT_BRACKET]);
          Together([LEFT_BRACKET], [LEFT_BRACKET], w + [RIGHT_BRACKET], Unspaced(w) + [RIGHT_BRACKET]);
        } else {
          ItemsBecome(items);
          Together([LEFT_BRACKET], [LEFT_BRACKET], ItemsText(items), ItemsText(TightItems(items)));
        }
      case Table(w, es) =>
        PunctBecomes(LEFT_BRACE);
        if es == [] {
          WhiteBecomes(w);
          PunctBecomes(RIGHT_BRACE);
          Together(w, Unspaced(w), [RIGHT_BRACE], [RIGHT_BRACE]);
          Together([LEFT_BRACE], [LEFT_BRACE], w + [RIGHT_BRACE], Unspaced(w) + [RIGHT_BRACE]);
        } else {
          EntriesBecome(es);
          Together([LEFT_BRACE], [LEFT_BRACE], EntriesText(es), EntriesText(TightEntries(es)));
        }
    }
  }

  lemma {:induction false} SpacedBecomes(x: Spaced)
    requires White(x.before) && Valid(x.node) && ClosedNode(x.node) && White(x.after)
    ensures Becomes(SpacedText(x), SpacedText(TightSpaced(x)))
    decreases x, 1
  {
    hide Becomes, NodeText, Valid, White, Unspaced;
    var (w, m, u) := (x.before, NodeText(x.node), x.after);
    WhiteBecomes(w);
    NodeBecomes(x.node);
    WhiteBecomes(u);
    Together(w, Unspaced(w), m, NodeText(Tight(x.node)));
    Together(w + m, Unspaced(w) + NodeText(Tight(x.node)), u, Unspaced(u));
  }

  lemma {:induction false} ItemsBecome(items: seq<Spaced>)
    requires items != [] && (forall i :: 0 <= i < |items| ==> ValidSpaced(items[i]))
    ensures Becomes(ItemsText(items), ItemsText(TightItems(items)))
    decreases items, 2
  {
    hide Becomes, SpacedText, Valid, White, TightSpaced;
    var (x, tight) := (items[0], TightItems(items));
    SpacedBecomes(x);
    assert tight[0] == TightSpaced(x) && tight[1..] == TightItems(items[1..]);
    if |items| == 1 {
      PunctBecomes(RIGHT_BRACKET);
      Together(SpacedText(x), SpacedText(tight[0]), [RIGHT_BRACKET], [RIGHT_BRACKET]);
    } else {
      var (more, less) := (ItemsText(items[1..]), ItemsText(tight[1..]));
      ItemsBecome(items[1..]);
      PunctBecomes(COMMA);
      Together([COMMA], [COMMA], more, less);
      Together(SpacedText(x), SpacedText(tight[0]), [COMMA] + more, [COMMA] + less);
    }
  }

  lemma {:induction false} EntryBecomes(e: Entry)
    requires ValidEntry(e)
    ensures Becomes(EntryText(e), EntryText(TightEntry(e)))
    decreases e, 2
  {
    hide Becomes, SpacedText, Valid, White, Unspaced, QuotedText, ValidQuoted, TightSpaced;
    var (w, q, u) := (e.before, QuotedText(e.name), e.after);
    WhiteBecomes(w);
    QuotedBecomes(e.name);
    WhiteBecomes(u);
    PunctBecomes(COLON);
    SpacedBecomes(e.value);
    Together(w, Unspaced(w), q, q);
    Together(w + q, Unspaced(w) + q, u, Unspaced(u));
    Together(w + q + u, Unspaced(w) + q + Unspaced(u), [COLON], [COLON]);
    Together(w + q + u + [COLON], Unspaced(w) + q + Unspaced(u) + [COLON],
             SpacedText(e.value), SpacedText(TightSpaced(e.value)));
  }

  lemma {:induction false} EntriesBecome(es: seq<Entry>)
    requires es != [] && (forall i :: 0 <= i < |es| ==> ValidEntry(es[i]))
    ensures Becomes(EntriesText(es), EntriesText(TightEntries(es)))
    decreases es, 3
  {
    hide Becomes, EntryText, ValidEntry, TightEntry;
    var (e, tight) := (es[0], TightEntries(es));
    EntryBecomes(e);
    assert tight[0] == TightEntry(e) && tight[1..] == TightEntries(es[1..]);
    if |es| == 1 {
      PunctBecomes(RIGHT_BRACE);
      Together(EntryText(e), EntryText(tight[0]), [RIGHT_BRACE], [RIGHT_BRACE]);
    } else {
      var (more, less) := (EntriesText(es[1..]), EntriesText(tight[1..]));
      EntriesBecome(es[1..]);
      PunctBecomes(COMMA);
      Together([COMMA], [COMMA], more, less);
      Together(EntryText(e), EntryText(tight[0]), [COMMA] + more, [COMMA] + less);
    }
  }

  // ----- documents -----

  /** Minifying a text of the grammar whose literals are closed takes the four kinds of white space out of
      every place between its tokens, and leaves everything else. */
  lemma MinifiedIsTight(x: Spaced)
    requires Document(x) && ClosedNode(x.node)
    ensures Minify(SpacedText(x)) == SpacedText(TightSpaced(x))
  {
    hide Minify, Clean, Valid, White, SpacedText, TightSpaced;
    SpacedBecomes(x);
  }

  lemma {:induction false} BlankUnspaced(w: Text)
    requires Blank(w)
    ensures Unspaced(w) == []
    decreases |w|
  {
    if w != [] { BlankUnspaced(w[1..]); }
  }

  /** No white space at all between the tokens. */
  predicate Spaceless(v: Node)
    decreases v, 0
  {
    match v
    case List(w, items) => w == [] && (forall i :: 0 <= i < |items| ==> SpacelessText(items[i]))
    case Table(w, es) => w == [] && (forall i :: 0 <= i < |es| ==> SpacelessEntry(es[i]))
    case _ => true
  }

  predicate SpacelessText(x: Spaced)
    decreases x, 1
  {
    x.before == [] && Spaceless(x.node) && x.after == []
  }

  predicate SpacelessEntry(e: Entry)
    decreases e, 2
  {
    e.before == [] && e.after == [] && SpacelessText(e.value)
  }

  lemma {:induction false} TightItemsAt(items: seq<Spaced>, i: nat)
    requires i < |items|
    ensures TightItems(items)[i] == TightSpaced(items[i])
    decreases i
  {
    if i > 0 { TightItemsAt(items[1..], i - 1); }
  }

  lemma {:induction false} TightEntriesAt(es: seq<Entry>, i: nat)
    requires i < |es|
    ensures TightEntries(es)[i] == TightEntry(es[i])
    decreases i
  {
    if i > 0 { TightEntriesAt(es[1..], i - 1); }
  }

  lemma {:induction false} StandardSpaceless(x: Spaced)
    requires StandardText(x)
    ensures SpacelessText(TightSpaced(x))
    decreases x
  {
    hide ValidQuoted, N.StandardNumeral, Unspaced;
    BlankUnspaced(x.before);
    BlankUnspaced(x.after);
    match x.node {
      case List(w, items) =>
        BlankUnspaced(w);
        forall i | 0 <= i < |items| ensures SpacelessText(TightItems(items)[i]) {
          StandardSpaceless(items[i]);
          TightItemsAt(items, i);
        }
        assert Tight(x.node) == List([], TightItems(items));
        assert Spaceless(Tight(x.node));
      case Table(w, es) =>
        BlankUnspaced(w);
        forall i | 0 <= i < |es| ensures SpacelessEntry(TightEntries(es)[i]) {
          assert StandardEntry(es[i]);
          BlankUnspaced(es[i].before);
          BlankUnspaced(es[i].after);
          StandardSpaceless(es[i].value);
          TightEntriesAt(es, i);
        }
        assert Tight(x.node) == Table([], TightEntries(es));
        assert Spaceless(Tight(x.node));
      case _ =>
    }
  }

  /** A JSON text of the standard is left without any white space between its tokens. */
  lemma StandardMinified(x: Spaced)
    requires StandardText(x)
    ensures Minify(SpacedText(x)) == SpacedText(TightSpaced(x)) && SpacelessText(TightSpaced(x))
  {
    hide Minify, SpacedText, TightSpaced, StandardText, SpacelessText;
    StandardDocument(x);
    MinifiedIsTight(x);
    StandardSpaceless(x);
  }

  // ----- formatted output -----

  /** An indented line begins with a line feed and one tab for each level. */
  lemma BreakBytes(n: int)
    ensures Break(n, true) == [10] + TabBytes(n) && Break(n, false) == []
  {
    TabsAre(n);
  }

  function TabBytes(n: int): Text {
    seq<Byte>(if n > 0 then n else 0, _ => 9)
  }

  lemma {:induction false} TabsAre(n: int)
    ensures Tabs(n) == TabBytes(n)
    decreases n
  {
    if n > 0 {
      TabsAre(n - 1);
      assert TabBytes(n) == [9] + TabBytes(n - 1);
    }
  }

  /** Each character of a printed string, between the quotes: as it is, behind a backslash, or as the
      letter of its escape. */
  lemma EscapesPrinted(c: Byte)
    ensures EscapeChar(c) == [c] <==> c >= 32 && c != 34 && c != 92
    ensures c in [34, 92] ==> EscapeChar(c) == [92, c]
    ensures EscapeChar(8) == [92, 98] && EscapeChar(9) == [92, 116] && EscapeChar(10) == [92, 110]
    ensures EscapeChar(12) == [92, 102] && EscapeChar(13) == [92, 114]
  {
  }

  /** Any other control character becomes `\u00` and two digits, letters in lower case. */
  lemma ControlPrinted(c: Byte)
    requires c < 32 && c !in [8, 9, 10, 12, 13]
    ensures |EscapeChar(c)| == 6 && EscapeChar(c)[..4] == [92, 117, 48, 48]
    ensures EscapeChar(c)[4] as char == "0123456789abcdef"[c / 16]
    ensures EscapeChar(c)[5] as char == "0123456789abcdef"[c % 16]
  {
    LowerDigit(c / 16);
    LowerDigit(c % 16);
    hide HexDigit;
  }

  lemma LowerDigit(n: nat)
    requires n < 16
    ensures HexDigit(n) as char == "0123456789abcdef"[n]
  {
  }

  /** A printed number has no leading zero; that its digits give the number is `IntRoundTrip`. */
  lemma NoLeadingZero(m: int)
    ensures m == 0 ==> IntText(m) == [48]
    ensures m > 0 ==> 49 <= IntText(m)[0] <= 57
    ensures m < 0 ==> |IntText(m)| > 1 && IntText(m)[0] == 45 && 49 <= IntText(m)[1] <= 57
  {
    assert m < 0 ==> IntText(m)[1..] == Digits(-m);
  }

  /** The brackets around the items and the braces around the members.  The closing brace of an empty
      object is indented less than one level, by the formula the source has for it. */
  lemma ContainerLayout(j: Json, depth: nat, fmt: bool)
    ensures j.Array? ==>
      PrintValue(j, depth, fmt)
        == Ascii("[") + if j.items == [] then Ascii("]") else PrintItems(j.items, depth + 1, fmt)
    ensures j.Object? ==>
      PrintValue(j, depth, fmt)
        == Ascii("{") + if j.members == [] then Break(depth - 1, fmt) + Ascii("}")
                        else Break(depth + 1, fmt) + PrintMembers(j.members, depth + 1, fmt)
  {
    hide PrintItems, PrintMembers, Break;
    assert Ascii("[") == [LEFT_BRACKET] && Ascii("]") == [RIGHT_BRACKET];
    assert Ascii("{") == [LEFT_BRACE] && Ascii("}") == [RIGHT_BRACE];
    if j.Object? && j.members == [] {
      var b := Break(depth - 1, fmt);
      assert [LEFT_BRACE] + b + [RIGHT_BRACE] == [LEFT_BRACE] + (b + [RIGHT_BRACE]);
    }
  }

  /** The layout of arrays: the items in one line, with a comma between them and in formatted mode a
      space behind it. */
  lemma ItemLayout(items: seq<Json>, depth: nat, fmt: bool)
    requires items != []
    ensures PrintItems(items, depth, fmt) == PrintValue(items[0], depth, fmt)
      + if |items| == 1 then Ascii("]") else Ascii(if fmt then ", " else ",") + PrintItems(items[1..], depth, fmt)
  {
    hide PrintValue;
    if |items| > 1 {
      assert Ascii(if fmt then ", " else ",") == [COMMA] + (if fmt then [SPACE] else []);
    }
  }

  /** The layout of objects: in formatted mode each member stands in a line of its own, indented by its
      depth, with a tab behind the colon. */
  lemma MemberLayout(members: seq<Member>, depth: nat, fmt: bool)
    requires members != [] && depth > 0
    ensures PrintMembers(members, depth, fmt)
      == PrintString(members[0].name) + Ascii(if fmt then ":\t" else ":") + PrintValue(members[0].value, depth, fmt)
         + (if |members| == 1 then Break(depth - 1, fmt) + Ascii("}")
            else Ascii(",") + Break(depth, fmt) + PrintMembers(members[1..], depth, fmt))
  {
    hide PrintValue, PrintString, PrintMembers, Break;
    assert Ascii(if fmt then ":\t" else ":") == [COLON] + (if fmt then [TAB] else []);
    assert Ascii("}") == [RIGHT_BRACE] && Ascii(",") == [COMMA];
    MemberPrints(members, depth, fmt);
  }

  lemma MemberPrints(members: seq<Member>, depth: nat, fmt: bool)
    requires members != [] && depth > 0
    ensures PrintMembers(members, depth, fmt)
      == PrintString(members[0].name) + ([COLON] + (if fmt then [TAB] else []))
         + PrintValue(members[0].value, depth, fmt)
         + (if |members| == 1 then Break(depth - 1, fmt) + [RIGHT_BRACE]
            else [COMMA] + Break(depth, fmt) + PrintMembers(members[1..], depth, fmt))
  {
    hide PrintValue, PrintString, Break;
    Regrouped(PrintString(members[0].name), [COLON], if fmt then [TAB] else []);
  }

  lemma Regrouped(a: Text, b: Text, c: Text)
    ensures a + b + c == a + (b + c)
  {
  }

  // ----- minified formatted output -----

  lemma BreakBecomes(n: int, fmt: bool)
    ensures Becomes(Break(n, fmt), [])
  {
    hide Becomes;
    BreakBytes(n);
    var w := Break(n, fmt);
    WhiteBecomes(w);
    BlankUnspaced(w);
  }

  lemma StringBecomes(s: Text)
    requires NulFree(s)
    ensures Becomes(PrintString(s), PrintString(s))
  {
    hide Becomes, Stop;
    EscapedCounted(s);
    assert PrintString(s)[1..] == EscapeAll(s) + [QUOTE];
    LiteralBecomes(PrintString(s));
  }

  lemma {:induction false} EscapedCounted(s: Text)
    requires NulFree(s)
    ensures Stop(EscapeAll(s) + [QUOTE]) == |EscapeAll(s)|
    decreases |s|
  {
    hide Stop, EscapeChar;
    if s == [] {
      QuoteStops();
    } else {
      var t := EscapeAll(s[1..]) + [QUOTE];
      EscapedCounted(s[1..]);
      JsonRoundTrip.EscapeCharStep(s[0], t);
      assert EscapeAll(s) + [QUOTE] == EscapeChar(s[0]) + t;
    }
  }

  lemma QuoteStops()
    ensures Stop([] + [QUOTE]) == 0
  {
  }

  lemma IntBecomes(m: int)
    ensures Becomes(IntText(m), IntText(m))
  {
    SolidBecomes(IntText(m));
  }

  /** Minifying what cJSON_Print writes gives what cJSON_PrintUnformatted writes. */
  lemma {:induction false} FormattedMinified(j: Json, depth: nat)
    requires Printable(j)
    ensures Becomes(PrintValue(j, depth, true), PrintValue(j, 0, false))
    decreases j, 0
  {
    hide Becomes, PrintString, IntText, PrintItems, PrintMembers, Break, NulFree;
    match j {
      case Null => WordBytes(j); WordBecomes(j);
      case False => WordBytes(j); WordBecomes(j);
      case True => WordBytes(j); WordBecomes(j);
      case Number(m, _) => IntBecomes(m);
      case String(s) => StringBecomes(s);
      case Array(items) =>
        if items == [] {
          BothBecome(LEFT_BRACKET, RIGHT_BRACKET);
        } else {
          ItemsMinified(items, depth + 1);
          PunctBecomes(LEFT_BRACKET);
          Together([LEFT_BRACKET], [LEFT_BRACKET], PrintItems(items, depth + 1, true), PrintItems(items, 1, false));
        }
      case Object(members) =>
        ObjectMinified(members, depth);
    }
  }

  lemma BothBecome(c: Byte, d: Byte)
    requires c in {LEFT_BRACKET, LEFT_BRACE} && d in {RIGHT_BRACKET, RIGHT_BRACE}
    ensures Becomes([c, d], [c, d])
  {
    SolidBecomes([c, d]);
  }

  lemma {:induction false} ItemsMinified(items: seq<Json>, depth: nat)
    requires items != [] && (forall i :: 0 <= i < |items| ==> Printable(items[i]))
    ensures Becomes(PrintItems(items, depth, true), PrintItems(items, 1, false))
    decreases items, 1
  {
    hide Becomes, PrintValue, Printable;
    var (p, q) := (PrintValue(items[0], depth, true), PrintValue(items[0], 1, false));
    FormattedMinified(items[0], depth);
    AnyDepth(items[0], 1);
    if |items| == 1 {
      PunctBecomes(RIGHT_BRACKET);
      Together(p, q, [RIGHT_BRACKET], [RIGHT_BRACKET]);
    } else {
      var (more, less) := (PrintItems(items[1..], depth, true), PrintItems(items[1..], 1, false));
      ItemsMinified(items[1..], depth);
      PunctBecomes(COMMA);
      WhiteBecomes([SPACE]);
      BlankUnspaced([SPACE]);
      Together([COMMA], [COMMA], [SPACE], []);
      Together([COMMA] + [SPACE], [COMMA] + [], more, less);
      Together(p, q, [COMMA] + [SPACE] + more, [COMMA] + [] + less);
    }
  }

  lemma {:induction false} ObjectMinified(members: seq<Member>, depth: nat)
    requires forall i :: 0 <= i < |members| ==> NulFree(members[i].name) && Printable(members[i].value)
    ensures Becomes(PrintValue(Object(members), depth, true), PrintValue(Object(members), 0, false))
    decreases members, 2
  {
    hide Becomes, PrintMembers, Break, Printable, NulFree;
    PunctBecomes(LEFT_BRACE);
    NoBreak();
    if members == [] {
      BreakBecomes(depth - 1, true);
      PunctBecomes(RIGHT_BRACE);
      Together([LEFT_BRACE], [LEFT_BRACE], Break(depth - 1, true), []);
      Together([LEFT_BRACE] + Break(depth - 1, true), [LEFT_BRACE] + [], [RIGHT_BRACE], [RIGHT_BRACE]);
    } else {
      BreakBecomes(depth + 1, true);
      MembersMinified(members, depth + 1);
      Together([LEFT_BRACE], [LEFT_BRACE], Break(depth + 1, true), []);
      Together([LEFT_BRACE] + Break(depth + 1, true), [LEFT_BRACE] + [],
               PrintMembers(members, depth + 1, true), PrintMembers(members, 1, false));
    }
  }

  lemma NoBreak()
    ensures forall n: int :: Break(n, false) == []
  {
  }

  lemma {:induction false} MembersMinified(members: seq<Member>, depth: nat)
    requires members != [] && depth > 0
    requires forall i :: 0 <= i < |members| ==> NulFree(members[i].name) && Printable(members[i].value)
    ensures Becomes(PrintMembers(members, depth, true), PrintMembers(members, 1, false))
    decreases members, 1
  {
    hide Becomes, PrintValue, PrintString, Break, Printable, NulFree;
    NoBreak();
    var (n, v) := (PrintString(members[0].name), members[0].value);
    var (p, q) := (PrintValue(v, depth, true), PrintValue(v, 1, false));
    MemberMinified(members[0], depth);
    var (m, k) := (n + [COLON] + [TAB] + p, n + [COLON] + [] + q);
    if |members| == 1 {
      BreakBecomes(depth - 1, true);
      PunctBecomes(RIGHT_BRACE);
      Together(Break(depth - 1, true), [], [RIGHT_BRACE], [RIGHT_BRACE]);
      Together(m, k, Break(depth - 1, true) + [RIGHT_BRACE], [] + [RIGHT_BRACE]);
    } else {
      var (more, less) := (PrintMembers(members[1..], depth, true), PrintMembers(members[1..], 1, false));
      MembersMinified(members[1..], depth);
      BreakBecomes(depth, true);
      PunctBecomes(COMMA);
      Together([COMMA], [COMMA], Break(depth, true), []);
      Together([COMMA] + Break(depth, true), [COMMA] + [], more, less);
      Together(m, k, [COMMA] + Break(depth, true) + more, [COMMA] + [] + less);
    }
  }

  lemma {:induction false} MemberMinified(m: Member, depth: nat)
    requires NulFree(m.name) && Printable(m.value)
    ensures Becomes(PrintString(m.name) + [COLON] + [TAB] + PrintValue(m.value, depth, true),
                    PrintString(m.name) + [COLON] + [] + PrintValue(m.value, 1, false))
    decreases m, 1
  {
    hide Becomes, PrintValue, PrintString, Printable, NulFree;
    var n := PrintString(m.name);
    StringBecomes(m.name);
    PunctBecomes(COLON);
    WhiteBecomes([TAB]);
    BlankUnspaced([TAB]);
    FormattedMinified(m.value, depth);
    AnyDepth(m.value, 1);
    Together(n, n, [COLON], [COLON]);
    Together(n + [COLON], n + [COLON], [TAB], []);
    Together(n + [COLON] + [TAB], n + [COLON] + [],
             PrintValue(m.value, depth, true), PrintValue(m.value, 0, false));
  }

  /** Unformatted output does not depend on the depth. */
  lemma {:induction false} AnyDepth(j: Json, depth: nat)
    ensures PrintValue(j, depth, false) == PrintValue(j, 0, false)
    decreases j, 0
  {
    match j {
      case Array(items) => if items != [] { ItemsAnyDepth(items, depth + 1); }
      case Object(members) => if members != [] { MembersAnyDepth(members, depth + 1); }
      case _ =>
    }
  }

  lemma {:induction false} ItemsAnyDepth(items: seq<Json>, depth: nat)
    requires items != []
    ensures PrintItems(items, depth, false) == PrintItems(items, 1, false)
    decreases items, 1
  {
    hide PrintValue;
    AnyDepth(items[0], depth);
    AnyDepth(items[0], 1);
    if |items| > 1 { ItemsAnyDepth(items[1..], depth); }
  }

  lemma {:induction false} MembersAnyDepth(members: seq<Member>, depth: nat)
    requires members != [] && depth > 0
    ensures PrintMembers(members, depth, false) == PrintMembers(members, 1, false)
    decreases members, 1
  {
    hide PrintValue, PrintString;
    AnyDepth(members[0].value, depth);
    AnyDepth(members[0].value, 1);
    if |members| > 1 { MembersAnyDepth(members[1..], depth); }
  }
}
