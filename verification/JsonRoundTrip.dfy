/** Parsing what the printer rendered gives the same value back and stops at its end. */
module JsonRoundTrip {
  import opened CText
  import opened JsonSpec

  /** No byte of `s` can extend a number that ends just before it. */
  predicate NumberEnds(s: Text) {
    s == [] || !(IsDigit(s[0]) || s[0] in {DOT, LOWER_E, UPPER_E, PLUS, MINUS})
  }

  // ----- strings -----

  // How far the counting pass goes over each kind of character.

  lemma {:induction false} StopPlain(w: Text, t: Text)
    requires forall i :: 0 <= i < |w| ==> w[i] != QUOTE && w[i] != BACKSLASH
    ensures Stop(w + t) == |w| + Stop(t)
    decreases |w|
  {
    if w == [] {
      assert w + t == t;
    } else {
      assert (w + t)[1..] == w[1..] + t;
      StopPlain(w[1..], t);
    }
  }

  lemma StopEscape(a: Text, t: Text)
    requires |a| == 2 && a[0] == BACKSLASH
    ensures Stop(a + t) == 2 + Stop(t)
  {
    assert (a + t)[2..] == t;
  }

  lemma StopHex(h: Text, t: Text)
    requires |h| == 6 && h[0] == BACKSLASH
    requires forall i :: 2 <= i < 6 ==> h[i] != QUOTE && h[i] != BACKSLASH
    ensures Stop(h + t) == 6 + Stop(t)
  {
    hide Stop;
    var (a, d) := (h[..2], h[2..]);
    StopPlain(d, t);
    StopEscape(a, d + t);
    assert h + t == a + (d + t);
  }

  /** One turn of the writing pass. */
  lemma WrittenStep(s: Text)
    requires s != []
    ensures WrittenBody(s) ==
      if s[0] == QUOTE then Ok([], s)
      else if !CharStep(s).Ok? then Outside
      else if !WrittenBody(CharStep(s).rest).Ok? then Outside
      else Ok(CharStep(s).value + WrittenBody(CharStep(s).rest).value, WrittenBody(CharStep(s).rest).rest)
  {
    hide CharStep;
  }

  /** A character that both passes go over alike, in front of a literal body that is read. */
  lemma BodyStep(s: Text, w: Text, t: Text)
    requires s != [] && s[0] != QUOTE && CharStep(s) == Ok(w, t)
    requires Stop(s) == |s| - |t| + Stop(t) && StringBody(t).Ok?
    ensures StringBody(s) == Ok(w + StringBody(t).value, StringBody(t).rest)
  {
    hide CharStep, WrittenBody, Stop;
    WrittenStep(s);
  }

  lemma BodyEnds(t: Text)
    ensures StringBody([QUOTE] + t) == Ok([], t)
  {
    assert ([QUOTE] + t)[1..] == t;
  }

  lemma EscapeCharStep(c: Byte, t: Text)
    requires c != NUL
    ensures EscapeChar(c)[0] != QUOTE
    ensures CharStep(EscapeChar(c) + t) == Ok([c], t)
    ensures Stop(EscapeChar(c) + t) == |EscapeChar(c)| + Stop(t)
  {
    hide Stop;
    var e := EscapeChar(c);
    var s := e + t;
    assert s[|e|..] == t;
    if |e| == 6 {
      assert s[2..][..4] == e[2..];
      assert Hex4(s[2..]) == c;
      StopHex(e, t);
    } else if |e| == 2 {
      StopEscape(e, t);
    } else {
      StopPlain(e, t);
    }
  }

  lemma {:induction false} StringRoundTrip(s: Text, t: Text)
    requires NulFree(s)
    ensures StringBody(EscapeAll(s) + [QUOTE] + t) == Ok(s, t)
    decreases |s|
  {
    hide CharStep, EscapeChar, StringBody, Stop;
    var r := EscapeAll(s) + [QUOTE] + t;
    if s == [] {
      assert r == [QUOTE] + t;
      BodyEnds(t);
    } else {
      var more := EscapeAll(s[1..]) + [QUOTE] + t;
      assert r == EscapeChar(s[0]) + more;
      EscapeCharStep(s[0], more);
      StringRoundTrip(s[1..], t);
      BodyStep(r, [s[0]], more);
      assert [s[0]] + s[1..] == s;
    }
  }

  lemma PrintStringRoundTrip(s: Text, t: Text)
    requires NulFree(s)
    ensures ParseString(PrintString(s) + t) == Ok(s, t)
  {
    hide StringBody;
    StringRoundTrip(s, t);
    assert (PrintString(s) + t)[1..] == EscapeAll(s) + [QUOTE] + t;
    assert StartsWith(PrintString(s) + t, QUOTE);
  }

  // ----- numbers -----

  lemma {:induction false} DigitsRoundTrip(n: nat, t: Text)
    ensures TakeDigits(Digits(n) + t, 0) == TakeDigits(t, n)
    decreases n
  {
    if n < 10 {
      assert ([DIGIT_0 + n] + t)[1..] == t;
    } else {
      var d: Byte := DIGIT_0 + n % 10;
      DigitsRoundTrip(n / 10, [d] + t);
      assert Digits(n) + t == Digits(n / 10) + ([d] + t);
      assert ([d] + t)[1..] == t;
    }
  }

  lemma NaturalRoundTrip(n: nat, t: Text)
    requires NumberEnds(t)
    ensures TakeInteger(Digits(n) + t) == (n, t)
  {
    DigitsRoundTrip(n, t);
    if n == 0 {
      assert (Digits(0) + t)[1..] == t;
    }
  }

  lemma IntRoundTrip(m: int, t: Text)
    requires NumberEnds(t)
    ensures ParseNumber(IntText(m) + t) == Ok(Number(m, 0), t)
  {
    hide TakeInteger, Digits;
    var n := if m < 0 then -m else m;
    NaturalRoundTrip(n, t);
    if m < 0 {
      assert (IntText(m) + t)[1..] == Digits(n) + t;
    }
  }

  // ----- values -----

  lemma {:induction false} SkipTabs(n: int, t: Text)
    requires t != [] && t[0] > 32
    ensures Skip(Tabs(n) + t) == t
    decreases n
  {
    if n <= 0 {
      assert Tabs(n) + t == t;
    } else {
      assert (Tabs(n) + t)[1..] == Tabs(n - 1) + t;
      SkipTabs(n - 1, t);
    }
  }

  lemma SkipBreak(n: int, fmt: bool, t: Text)
    requires t != [] && t[0] > 32
    ensures Skip(Break(n, fmt) + t) == t
  {
    if fmt {
      SkipTabs(n, t);
      assert (Break(n, fmt) + t)[1..] == Tabs(n) + t;
    } else {
      assert Break(n, fmt) + t == t;
    }
  }

  /** The first character of a rendered value is not white space and closes nothing. */
  predicate ValueStart(s: Text) {
    s != [] && s[0] > 32 && s[0] != RIGHT_BRACKET && s[0] != RIGHT_BRACE
  }

  lemma PrintStart(j: Json, depth: nat, fmt: bool)
    ensures ValueStart(PrintValue(j, depth, fmt))
  {
    if j.Number? {
      var n := if j.mantissa < 0 then -j.mantissa else j.mantissa;
      assert IsDigit(Digits(n)[0]);
    }
  }

  // `parse_value` chooses by the first character.

  lemma PrefixOf(w: Text, t: Text)
    ensures HasPrefix(w + t, w)
  {
    assert (w + t)[..|w|] == w;
  }

  lemma FirstOf(s: Text, w: Text)
    requires w != []
    ensures HasPrefix(s, w) ==> s != [] && s[0] == w[0]
  {
    assert |w| <= |s| ==> s[0] == s[..|w|][0];
  }

  lemma DispatchWord(w: Text, t: Text)
    requires w in {NULL_TEXT, FALSE_TEXT, TRUE_TEXT}
    ensures ParseValue(w + t) == Ok(if w == NULL_TEXT then Null else if w == FALSE_TEXT then False else True, t)
  {
    hide HasPrefix, ParseString, ParseNumber, ParseArray, ParseObject;
    var s := w + t;
    PrefixOf(w, t);
    assert s[|w|..] == t;
    FirstOf(s, NULL_TEXT);
    FirstOf(s, FALSE_TEXT);
  }

  lemma NoWord(s: Text)
    requires s != [] && s[0] !in {NULL_TEXT[0], FALSE_TEXT[0], TRUE_TEXT[0]}
    ensures !HasPrefix(s, NULL_TEXT) && !HasPrefix(s, FALSE_TEXT) && !HasPrefix(s, TRUE_TEXT)
  {
    FirstOf(s, NULL_TEXT);
    FirstOf(s, FALSE_TEXT);
    FirstOf(s, TRUE_TEXT);
  }

  lemma DispatchOther(s: Text)
    requires s != []
    ensures s[0] == QUOTE ==> var t := ParseString(s);
              ParseValue(s) == if t.Ok? then Ok(String(t.value), t.rest) else if t.Fail? then Fail else Outside
    ensures s[0] == MINUS || IsDigit(s[0]) ==> ParseValue(s) == ParseNumber(s)
    ensures s[0] == LEFT_BRACKET ==> ParseValue(s) == ParseArray(s)
    ensures s[0] == LEFT_BRACE ==> ParseValue(s) == ParseObject(s)
  {
    hide HasPrefix, ParseString, ParseNumber, ParseArray, ParseObject;
    if s[0] in {QUOTE, MINUS, LEFT_BRACKET, LEFT_BRACE} || IsDigit(s[0]) {
      NoWord(s);
    }
  }

  lemma NumberRoundTrip(m: int, t: Text)
    requires NumberEnds(t)
    ensures ParseValue(IntText(m) + t) == Ok(Number(m, 0), t)
  {
    hide ParseValue, ParseNumber, NumberEnds;
    IntRoundTrip(m, t);
    DispatchOther(IntText(m) + t);
  }

  lemma TextRoundTrip(x: Text, t: Text)
    requires NulFree(x)
    ensures ParseValue(PrintString(x) + t) == Ok(String(x), t)
  {
    hide ParseValue, ParseString, NulFree;
    PrintStringRoundTrip(x, t);
    DispatchOther(PrintString(x) + t);
  }

  // One step of each list parser.

  lemma ArrayStep(s: Text, u: Text, items: seq<Json>, t: Text)
    requires StartsWith(s, LEFT_BRACKET) && Skip(s[1..]) == u
    requires !StartsWith(u, RIGHT_BRACKET) && ParseItems(u) == Ok(items, t)
    ensures ParseValue(s) == Ok(Array(items), t)
  {
    hide ParseValue, ParseItems;
    DispatchOther(s);
  }

  lemma ArrayEmpty(s: Text, t: Text)
    requires StartsWith(s, LEFT_BRACKET) && Skip(s[1..]) == [RIGHT_BRACKET] + t
    ensures ParseValue(s) == Ok(Array([]), t)
  {
    hide ParseValue, ParseItems;
    DispatchOther(s);
    assert ([RIGHT_BRACKET] + t)[1..] == t;
  }

  lemma ItemsLast(s: Text, v: Json, u: Text, t: Text)
    requires ParseValue(Skip(s)) == Ok(v, u) && Skip(u) == [RIGHT_BRACKET] + t
    ensures ParseItems(s) == Ok([v], t)
  {
    hide ParseValue, Skip;
    assert ([RIGHT_BRACKET] + t)[1..] == t;
  }

  lemma ItemsMore(s: Text, v: Json, u: Text, q: Text, more: seq<Json>, t: Text)
    requires ParseValue(Skip(s)) == Ok(v, u) && Skip(u) == [COMMA] + q
    requires ParseItems(q) == Ok(more, t)
    ensures ParseItems(s) == Ok([v] + more, t)
  {
    hide ParseValue, Skip;
    assert ([COMMA] + q)[1..] == q;
  }

  lemma ObjectStep(s: Text, u: Text, members: seq<Member>, t: Text)
    requires StartsWith(s, LEFT_BRACE) && Skip(s[1..]) == u
    requires !StartsWith(u, RIGHT_BRACE) && ParseMembers(u) == Ok(members, t)
    ensures ParseValue(s) == Ok(Object(members), t)
  {
    hide ParseValue, ParseMembers;
    DispatchOther(s);
  }

  lemma ObjectEmpty(s: Text, t: Text)
    requires StartsWith(s, LEFT_BRACE) && Skip(s[1..]) == [RIGHT_BRACE] + t
    ensures ParseValue(s) == Ok(Object([]), t)
  {
    hide ParseValue, ParseMembers;
    DispatchOther(s);
    assert ([RIGHT_BRACE] + t)[1..] == t;
  }

  /** `s` starts with a member: its name, a colon and its value, leaving u. */
  predicate MemberAt(s: Text, m: Member, u: Text) {
    var name := ParseString(Skip(s));
    name.Ok? && name.value == m.name && StartsWith(Skip(name.rest), COLON)
    && ParseValue(Skip(Skip(name.rest)[1..])) == Ok(m.value, u)
  }

  lemma MembersLast(s: Text, m: Member, u: Text, t: Text)
    requires MemberAt(s, m, u) && Skip(u) == [RIGHT_BRACE] + t
    ensures ParseMembers(s) == Ok([m], t)
  {
    hide ParseValue, ParseString, Skip;
    assert ([RIGHT_BRACE] + t)[1..] == t;
  }

  lemma MembersMore(s: Text, m: Member, u: Text, q: Text, more: seq<Member>, t: Text)
    requires MemberAt(s, m, u) && Skip(u) == [COMMA] + q
    requires ParseMembers(q) == Ok(more, t)
    ensures ParseMembers(s) == Ok([m] + more, t)
  {
    hide ParseValue, ParseString, Skip;
    assert ([COMMA] + q)[1..] == q;
  }

  // ----- the round trip -----

  /** In both modes and at every depth, `parse_value` on the rendered text rebuilds the value
      and stops exactly where the text ends, if what follows cannot extend a number. */
  lemma {:induction false} ValueRoundTrip(j: Json, depth: nat, fmt: bool, t: Text)
    requires Printable(j) && NumberEnds(t)
    ensures ParseValue(PrintValue(j, depth, fmt) + t) == Ok(j, t)
    decreases j, 0
  {
    hide ParseValue, PrintString, IntText, NumberEnds, PrintItems, PrintMembers;
    match j {
      case Null => DispatchWord(NULL_TEXT, t);
      case False => DispatchWord(FALSE_TEXT, t);
      case True => DispatchWord(TRUE_TEXT, t);
      case Number(m, e) => NumberRoundTrip(m, t);
      case String(x) => TextRoundTrip(x, t);
      case Array(items) => ArrayRoundTrip(items, depth, fmt, t);
      case Object(members) => ObjectRoundTrip(members, depth, fmt, t);
    }
  }

  lemma {:induction false} ArrayRoundTrip(items: seq<Json>, depth: nat, fmt: bool, t: Text)
    requires forall i :: 0 <= i < |items| ==> Printable(items[i])
    ensures ParseValue(PrintValue(Array(items), depth, fmt) + t) == Ok(Array(items), t)
    decreases items, 2
  {
    hide ParseValue, PrintItems, Printable;
    var s := PrintValue(Array(items), depth, fmt) + t;
    if items == [] {
      assert s[1..] == [RIGHT_BRACKET] + t;
      ArrayEmpty(s, t);
    } else {
      var p := PrintItems(items, depth + 1, fmt) + t;
      assert s[1..] == p;
      PrintItemsStart(items, depth + 1, fmt);
      ItemsRoundTrip(items, depth + 1, fmt, p, t);
      ArrayStep(s, p, items, t);
    }
  }

  lemma {:induction false} ObjectRoundTrip(members: seq<Member>, depth: nat, fmt: bool, t: Text)
    requires forall i :: 0 <= i < |members| ==> NulFree(members[i].name) && Printable(members[i].value)
    ensures ParseValue(PrintValue(Object(members), depth, fmt) + t) == Ok(Object(members), t)
    decreases members, 2
  {
    hide ParseValue, PrintMembers, Printable, Break, Skip, NulFree;
    var s := PrintValue(Object(members), depth, fmt) + t;
    if members == [] {
      var u := [RIGHT_BRACE] + t;
      assert s[1..] == Break(depth - 1, fmt) + u;
      SkipBreak(depth - 1, fmt, u);
      ObjectEmpty(s, t);
    } else {
      var p := PrintMembers(members, depth + 1, fmt) + t;
      assert s[1..] == Break(depth + 1, fmt) + p;
      PrintMembersStart(members, depth + 1, fmt);
      SkipBreak(depth + 1, fmt, p);
      SkipBreak(0, false, p);
      assert Break(0, false) + p == p by { NoBreak(0, p); }
      MembersRoundTrip(members, depth + 1, fmt, p, t);
      ObjectStep(s, p, members, t);
    }
  }

  lemma NoBreak(n: int, t: Text)
    ensures Break(n, false) + t == t
  {
  }

  lemma PrintItemsStart(items: seq<Json>, depth: nat, fmt: bool)
    requires items != []
    ensures ValueStart(PrintItems(items, depth, fmt))
  {
    PrintStart(items[0], depth, fmt);
  }

  lemma PrintMembersStart(members: seq<Member>, depth: nat, fmt: bool)
    requires members != [] && depth > 0
    ensures StartsWith(PrintMembers(members, depth, fmt), QUOTE)
  {
    PrintStringStart(members[0].name);
  }

  lemma PrintStringStart(x: Text)
    ensures StartsWith(PrintString(x), QUOTE)
  {
  }

  lemma {:induction false} ItemsRoundTrip(items: seq<Json>, depth: nat, fmt: bool, s: Text, t: Text)
    requires items != [] && (forall i :: 0 <= i < |items| ==> Printable(items[i]))
    requires Skip(s) == PrintItems(items, depth, fmt) + t
    ensures ParseItems(s) == Ok(items, t)
    decreases items, 1
  {
    hide ParseValue, PrintValue, Printable, ParseItems;
    var p := PrintValue(items[0], depth, fmt);
    if |items| == 1 {
      var u := [RIGHT_BRACKET] + t;
      assert Skip(s) == p + u;
      ValueRoundTrip(items[0], depth, fmt, u);
      ItemsLast(s, items[0], u, t);
      assert [items[0]] == items;
    } else {
      var more := PrintItems(items[1..], depth, fmt) + t;
      var q := (if fmt then [SPACE] else []) + more;
      var u := [COMMA] + q;
      assert Skip(s) == p + u;
      ValueRoundTrip(items[0], depth, fmt, u);
      PrintItemsStart(items[1..], depth, fmt);
      SkipSpace(fmt, SPACE, more);
      ItemsRoundTrip(items[1..], depth, fmt, q, t);
      ItemsMore(s, items[0], u, q, items[1..], t);
      assert [items[0]] + items[1..] == items;
    }
  }

  lemma SkipSpace(present: bool, c: Byte, t: Text)
    requires c <= 32 && t != [] && t[0] > 32
    ensures Skip((if present then [c] else []) + t) == t
  {
    if present {
      assert ([c] + t)[1..] == t;
    } else {
      assert [] + t == t;
    }
  }

  lemma {:induction false} MembersRoundTrip(members: seq<Member>, depth: nat, fmt: bool, s: Text, t: Text)
    requires members != [] && depth > 0
    requires forall i :: 0 <= i < |members| ==> NulFree(members[i].name) && Printable(members[i].value)
    requires Skip(s) == PrintMembers(members, depth, fmt) + t
    ensures ParseMembers(s) == Ok(members, t)
    decreases members, 1
  {
    hide ParseValue, PrintValue, Printable, PrintString, ParseMembers, Break, Skip, MemberAt, NulFree;
    var m := members[0];
    if |members| == 1 {
      var end := Break(depth - 1, fmt) + ([RIGHT_BRACE] + t);
      assert Skip(s) == PrintedMember(m, depth, fmt) + end;
      EndOfMember(depth - 1, fmt, [RIGHT_BRACE] + t);
      MemberRoundTrip(m, depth, fmt, s, end);
      MembersLast(s, m, end, t);
      assert [m] == members;
    } else {
      var more := PrintMembers(members[1..], depth, fmt) + t;
      var q := Break(depth, fmt) + more;
      assert Skip(s) == PrintedMember(m, depth, fmt) + ([COMMA] + q);
      MemberRoundTrip(m, depth, fmt, s, [COMMA] + q);
      PrintMembersStart(members[1..], depth, fmt);
      SkipBreak(depth, fmt, more);
      MembersRoundTrip(members[1..], depth, fmt, q, t);
      SkipComma(q);
      MembersMore(s, m, [COMMA] + q, q, members[1..], t);
      assert [m] + members[1..] == members;
    }
  }

  lemma SkipComma(q: Text)
    ensures Skip([COMMA] + q) == [COMMA] + q
  {
  }

  lemma EndOfMember(n: int, fmt: bool, t: Text)
    requires StartsWith(t, RIGHT_BRACE)
    ensures Skip(Break(n, fmt) + t) == t && NumberEnds(Break(n, fmt) + t)
  {
    hide Skip;
    SkipBreak(n, fmt, t);
  }

  function PrintedMember(m: Member, depth: nat, fmt: bool): Text {
    PrintString(m.name) + [COLON] + (if fmt then [TAB] else []) + PrintValue(m.value, depth, fmt)
  }

  lemma {:induction false} MemberRoundTrip(m: Member, depth: nat, fmt: bool, s: Text, end: Text)
    requires NulFree(m.name) && Printable(m.value) && NumberEnds(end)
    requires Skip(s) == PrintedMember(m, depth, fmt) + end
    ensures MemberAt(s, m, end)
    decreases m, 1
  {
    hide ParseValue, PrintValue, Printable, PrintString, ParseString, NumberEnds, NulFree;
    var v := PrintValue(m.value, depth, fmt) + end;
    var u := (if fmt then [TAB] else []) + v;
    assert Skip(s) == PrintString(m.name) + ([COLON] + u);
    PrintStringRoundTrip(m.name, [COLON] + u);
    assert ([COLON] + u)[1..] == u;
    PrintStart(m.value, depth, fmt);
    SkipSpace(fmt, TAB, v);
    ValueRoundTrip(m.value, depth, fmt, end);
  }

  /** `cJSON_Parse` after `cJSON_Print` or `cJSON_PrintUnformatted`, requiring the whole text. */
  lemma DocumentRoundTrip(j: Json, fmt: bool)
    requires Printable(j)
    ensures ParseDocument(PrintValue(j, 0, fmt)) == Ok(j, [])
  {
    hide ParseValue, PrintValue, Printable;
    ValueRoundTrip(j, 0, fmt, []);
    PrintStart(j, 0, fmt);
    assert PrintValue(j, 0, fmt) + [] == PrintValue(j, 0, fmt);
  }
}
