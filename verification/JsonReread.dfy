/** What the parser makes of a printed node tree.  A missing name or string value is rendered as
    nothing at all, so the text of a tree that has one is not always a JSON text. */
module JsonReread {
  import opened CText
  import JsonSpec
  import opened JsonNode
  import opened JsonTree
  import opened JsonPrint
  import JsonRoundTrip
  import opened Options

  /** A string node without a string, which is rendered as nothing. */
  predicate Lacking(c: Content) {
    c.item.kind % 256 == TYPE_STRING && c.item.valuestring == None
  }

  /** The one array with such an item that can still be read: it looks empty. */
  predicate Hollow(c: Content) {
    c.item.kind % 256 == TYPE_ARRAY && |c.kids| == 1 && Lacking(c.kids[0])
  }

  /** The printed tree can be read back. */
  predicate Legible(c: Content)
    decreases c
  {
    && !Lacking(c)
    && (c.item.kind % 256 == TYPE_ARRAY && !Hollow(c) ==>
         forall i :: 0 <= i < |c.kids| ==> Legible(c.kids[i]))
    && (c.item.kind % 256 == TYPE_OBJECT ==>
         forall i :: 0 <= i < |c.kids| ==> c.kids[i].item.name.Some? && Legible(c.kids[i]))
  }

  /** The value that is read back. */
  function Reread(c: Content): Json
    requires Legible(c)
    decreases c, 1
  {
    if c.item.kind % 256 == TYPE_ARRAY then
      JsonSpec.Array(if Hollow(c) then [] else RereadItems(c.kids))
    else if c.item.kind % 256 == TYPE_OBJECT then
      JsonSpec.Object(RereadMembers(c.kids))
    else JsonOf(c)
  }

  function RereadItems(cs: seq<Content>): (r: seq<Json>)
    requires forall i :: 0 <= i < |cs| ==> Legible(cs[i])
    ensures |r| == |cs|
    ensures forall i :: 0 <= i < |cs| ==> r[i] == Reread(cs[i])
    decreases cs, 0
  {
    if cs == [] then [] else RereadItems(cs[..|cs| - 1]) + [Reread(cs[|cs| - 1])]
  }

  function RereadMembers(cs: seq<Content>): (r: seq<Member>)
    requires forall i :: 0 <= i < |cs| ==> cs[i].item.name.Some? && Legible(cs[i])
    ensures |r| == |cs|
    ensures forall i :: 0 <= i < |cs| ==> r[i] == JsonSpec.Member(cs[i].item.name.value, Reread(cs[i]))
    decreases cs, 0
  {
    if cs == [] then []
    else
      var c := cs[|cs| - 1];
      RereadMembers(cs[..|cs| - 1]) + [JsonSpec.Member(c.item.name.value, Reread(c))]
  }

  /** Every string node has a value and every member a name. */
  predicate Named(c: Content)
    decreases c
  {
    && !Lacking(c)
    && (c.item.kind % 256 == TYPE_ARRAY ==> forall i :: 0 <= i < |c.kids| ==> Named(c.kids[i]))
    && (c.item.kind % 256 == TYPE_OBJECT ==>
         forall i :: 0 <= i < |c.kids| ==> c.kids[i].item.name.Some? && Named(c.kids[i]))
  }

  /** Exactly the trees without a missing name or string are read back as the value they stand for. */
  lemma {:induction false} NamedExactly(c: Content)
    ensures Named(c) <==> Legible(c) && Reread(c) == JsonOf(c)
    decreases c
  {
    forall i | 0 <= i < |c.kids|
      ensures Named(c.kids[i]) <==> Legible(c.kids[i]) && Reread(c.kids[i]) == JsonOf(c.kids[i])
      ensures ItemsOf(c.kids)[i] == JsonOf(c.kids[i])
      ensures MembersOf(c.kids)[i] == JsonSpec.Member(TextOf(c.kids[i].item.name), JsonOf(c.kids[i]))
    {
      NamedExactly(c.kids[i]);
      ItemsAt(c.kids, i);
      MembersAt(c.kids, i);
    }
    if Hollow(c) {
      assert |ItemsOf(c.kids)| == 1;
    } else if Legible(c) && c.item.kind % 256 == TYPE_ARRAY {
      NamedItems(c);
    } else if Legible(c) && c.item.kind % 256 == TYPE_OBJECT {
      NamedMembers(c);
    }
  }

  lemma NamedItems(c: Content)
    requires Legible(c) && c.item.kind % 256 == TYPE_ARRAY && !Hollow(c)
    requires forall i :: 0 <= i < |c.kids| ==>
      (Named(c.kids[i]) <==> Reread(c.kids[i]) == JsonOf(c.kids[i])) && ItemsOf(c.kids)[i] == JsonOf(c.kids[i])
    ensures Named(c) <==> Reread(c) == JsonOf(c)
  {
    hide RereadItems, ItemsOf, Lacking;
    var (xs, ys) := (RereadItems(c.kids), ItemsOf(c.kids));
    if Named(c) {
      assert xs == ys;
    }
    if xs == ys {
      forall i | 0 <= i < |c.kids| ensures Named(c.kids[i]) { assert xs[i] == ys[i]; }
    }
  }

  lemma NamedMembers(c: Content)
    requires Legible(c) && c.item.kind % 256 == TYPE_OBJECT
    requires forall i :: 0 <= i < |c.kids| ==>
      && (Named(c.kids[i]) <==> Reread(c.kids[i]) == JsonOf(c.kids[i]))
      && MembersOf(c.kids)[i] == JsonSpec.Member(TextOf(c.kids[i].item.name), JsonOf(c.kids[i]))
    ensures Named(c) <==> Reread(c) == JsonOf(c)
  {
    hide RereadMembers, MembersOf, Lacking;
    var (xs, ys) := (RereadMembers(c.kids), MembersOf(c.kids));
    if Named(c) {
      assert xs == ys;
    }
    if xs == ys {
      forall i | 0 <= i < |c.kids| ensures Named(c.kids[i]) { assert xs[i] == ys[i]; }
    }
  }

  lemma {:induction false} JoinedItemsPrint(items: seq<Json>, texts: seq<Text>, depth: nat, fmt: bool)
    requires |texts| == |items| > 0
    requires forall i :: 0 <= i < |items| ==> texts[i] == JsonSpec.PrintValue(items[i], depth, fmt)
    ensures JoinedItems(texts, fmt) == JsonSpec.PrintItems(items, depth, fmt)
    decreases |items|
  {
    hide JsonSpec.PrintValue;
    if |items| > 1 {
      JoinedItemsPrint(items[1..], texts[1..], depth, fmt);
    }
  }

  lemma IndentBreak(p: Text, n: int, fmt: bool, q: Text)
    ensures p + (if fmt then [LF] else []) + (Indent(n, fmt) + q) == p + JsonSpec.Break(n, fmt) + q
  {
  }

  lemma {:induction false} JoinedMembersPrint(members: seq<Member>, names: seq<Text>, values: seq<Text>,
                                              depth: nat, fmt: bool)
    requires |names| == |values| == |members| > 0 && depth > 0
    requires forall i :: 0 <= i < |members| ==> names[i] == JsonSpec.PrintString(members[i].name)
    requires forall i :: 0 <= i < |members| ==> values[i] == JsonSpec.PrintValue(members[i].value, depth, fmt)
    ensures JoinedMembers(names, values, depth, fmt) == Indent(depth, fmt) + JsonSpec.PrintMembers(members, depth, fmt)
    decreases |members|
  {
    hide JsonSpec.PrintValue, JsonSpec.PrintString, JsonSpec.PrintMembers, JsonSpec.Break, Indent, MemberText;
    var (last, m) := (|members| == 1, MemberText(names[0], values[0], fmt));
    var rest := JoinedMembers(names[1..], values[1..], depth, fmt);
    PrintMembersFront(members, depth, fmt);
    if last {
      assert rest == Indent(depth - 1, fmt) + [RIGHT_BRACE];
      IndentBreak(m + [], depth - 1, fmt, [RIGHT_BRACE]);
      MemberEndAssoc(m, true, fmt, rest);
    } else {
      JoinedMembersPrint(members[1..], names[1..], values[1..], depth, fmt);
      var more := JsonSpec.PrintMembers(members[1..], depth, fmt);
      IndentBreak(m + [COMMA], depth, fmt, more);
      MemberEndAssoc(m, false, fmt, rest);
    }
    IndentAssoc(Indent(depth, fmt), m, MemberEnd(last, fmt), rest);
  }

  lemma MemberEndAssoc(m: Text, last: bool, fmt: bool, rest: Text)
    ensures m + MemberEnd(last, fmt) + rest == m + (if last then [] else [COMMA]) + (if fmt then [LF] else []) + rest
  {
  }

  lemma PrintMembersFront(members: seq<Member>, depth: nat, fmt: bool)
    requires members != [] && depth > 0
    ensures var value := JsonSpec.PrintValue(members[0].value, depth, fmt);
      var m := MemberText(JsonSpec.PrintString(members[0].name), value, fmt);
      JsonSpec.PrintMembers(members, depth, fmt) ==
        if |members| == 1 then m + [] + JsonSpec.Break(depth - 1, fmt) + [RIGHT_BRACE]
        else m + [COMMA] + JsonSpec.Break(depth, fmt) + JsonSpec.PrintMembers(members[1..], depth, fmt)
  {
    hide JsonSpec.PrintValue, JsonSpec.PrintString, JsonSpec.Break;
  }

  // ----- legible trees -----

  lemma {:induction false} RereadPrintable(c: Content)
    requires Renderable(c) && Legible(c)
    ensures JsonSpec.Printable(Reread(c))
    decreases c
  {
    hide NulFree, RereadItems, RereadMembers;
    if c.item.kind % 256 == TYPE_OBJECT || (c.item.kind % 256 == TYPE_ARRAY && !Hollow(c)) {
      forall i | 0 <= i < |c.kids| ensures JsonSpec.Printable(Reread(c.kids[i])) {
        RereadPrintable(c.kids[i]);
      }
    }
  }

  /** The text of a legible tree is the specification's rendering of the value that is read back. */
  lemma {:induction false} NodePrints(c: Content, depth: nat, fmt: bool)
    requires Renderable(c) && Legible(c)
    ensures PrintNode(c, depth, fmt) == JsonSpec.PrintValue(Reread(c), depth, fmt)
    decreases c, 0
  {
    hide NulFree, JsonSpec.PrintString, JsonSpec.IntText, JsonSpec.PrintItems, JsonSpec.PrintMembers, JsonSpec.Break;
    hide JoinedItems, ObjectBody, RereadItems, RereadMembers, PrintedKids, PrintedNames;
    if c.item.kind % 256 == TYPE_ARRAY && c.kids != [] {
      ArrayPrints(c, depth, fmt);
    } else if c.item.kind % 256 == TYPE_OBJECT && c.kids != [] {
      ObjectPrints(c, depth, fmt);
    }
  }

  lemma {:induction false} ArrayPrints(c: Content, depth: nat, fmt: bool)
    requires Renderable(c) && Legible(c) && c.item.kind % 256 == TYPE_ARRAY && c.kids != []
    ensures PrintNode(c, depth, fmt) == JsonSpec.PrintValue(Reread(c), depth, fmt)
    decreases c.kids
  {
    hide NulFree, RereadItems, PrintedKids, JsonSpec.PrintItems;
    var texts := PrintedKids(c.kids, depth + 1, fmt);
    if Hollow(c) {
      assert texts[0] == [];
      assert [LEFT_BRACKET] + JoinedItems(texts, fmt) == [LEFT_BRACKET, RIGHT_BRACKET];
    } else {
      var items := RereadItems(c.kids);
      forall i | 0 <= i < |c.kids| ensures texts[i] == JsonSpec.PrintValue(items[i], depth + 1, fmt) {
        NodePrints(c.kids[i], depth + 1, fmt);
      }
      JoinedItemsPrint(items, texts, depth + 1, fmt);
    }
  }

  lemma {:induction false} MembersPrint(c: Content, depth: nat, fmt: bool)
    requires Renderable(c) && Legible(c) && c.item.kind % 256 == TYPE_OBJECT
    ensures forall i :: 0 <= i < |c.kids| ==>
      && PrintedNames(c.kids)[i] == JsonSpec.PrintString(RereadMembers(c.kids)[i].name)
      && PrintedKids(c.kids, depth, fmt)[i] == JsonSpec.PrintValue(RereadMembers(c.kids)[i].value, depth, fmt)
    decreases c.kids, 0
  {
    hide NulFree, RereadMembers, PrintedNames, PrintedKids, JsonSpec.PrintString, JsonSpec.PrintValue, PrintNode;
    forall i | 0 <= i < |c.kids|
      ensures PrintNode(c.kids[i], depth, fmt) == JsonSpec.PrintValue(Reread(c.kids[i]), depth, fmt)
    {
      NodePrints(c.kids[i], depth, fmt);
    }
  }

  lemma {:induction false} ObjectPrints(c: Content, depth: nat, fmt: bool)
    requires Renderable(c) && Legible(c) && c.item.kind % 256 == TYPE_OBJECT && c.kids != []
    ensures PrintNode(c, depth, fmt) == JsonSpec.PrintValue(Reread(c), depth, fmt)
    decreases c.kids, 1
  {
    hide Renderable;
    hide NulFree, JsonSpec.PrintMembers, JoinedMembers, RereadMembers, JsonSpec.Tabs, PrintedNames, PrintedKids;
    hide JsonSpec.PrintString;
    var (xs, ys) := (PrintedNames(c.kids), PrintedKids(c.kids, depth + 1, fmt));
    var members := RereadMembers(c.kids);
    MembersPrint(c, depth + 1, fmt);
    JoinedMembersPrint(members, xs, ys, depth + 1, fmt);
    IndentBreak([LEFT_BRACE], depth + 1, fmt, JsonSpec.PrintMembers(members, depth + 1, fmt));
  }

  // ----- what follows a value -----

  /** The next character, white space aside, is one at which no value starts. */
  predicate Stops(t: Text) {
    var u := JsonSpec.Skip(t);
    u == [] || u[0] in {COMMA, RIGHT_BRACKET, RIGHT_BRACE}
  }

  lemma StopsNumber(t: Text)
    requires Stops(t)
    ensures JsonRoundTrip.NumberEnds(t)
  {
  }

  lemma NoValue(u: Text)
    requires u == [] || u[0] in {COMMA, RIGHT_BRACKET, RIGHT_BRACE}
    ensures JsonSpec.ParseValue(u) == JsonSpec.Fail
  {
    JsonRoundTrip.FirstOf(u, JsonSpec.NULL_TEXT);
    JsonRoundTrip.FirstOf(u, JsonSpec.FALSE_TEXT);
    JsonRoundTrip.FirstOf(u, JsonSpec.TRUE_TEXT);
  }

  lemma SkipTwice(s: Text)
    ensures JsonSpec.Skip(JsonSpec.Skip(s)) == JsonSpec.Skip(s)
  {
  }

  lemma SkipVisible(s: Text, t: Text)
    requires s != [] && s[0] > 32
    ensures JsonSpec.Skip(s + t) == s + t
  {
  }

  lemma SkipOne(present: bool, c: Byte, t: Text)
    requires c <= 32
    ensures JsonSpec.Skip((if present then [c] else []) + t) == JsonSpec.Skip(t)
  {
    if present {
      assert ([c] + t)[1..] == t;
    } else {
      assert [] + t == t;
    }
  }

  lemma {:induction false} SkipIndent(n: int, fmt: bool, t: Text)
    ensures JsonSpec.Skip(Indent(n, fmt) + t) == JsonSpec.Skip(t)
    decreases n
  {
    if fmt && n > 0 {
      assert (Indent(n, fmt) + t)[1..] == Indent(n - 1, fmt) + t;
      SkipIndent(n - 1, fmt, t);
    } else {
      assert Indent(n, fmt) + t == t;
    }
  }

  lemma NodeStart(c: Content, depth: nat, fmt: bool)
    requires Renderable(c) && !Lacking(c)
    ensures JsonRoundTrip.ValueStart(PrintNode(c, depth, fmt))
  {
    if c.item.kind % 256 == TYPE_NUMBER {
      JsonRoundTrip.PrintStart(JsonSpec.Number(c.item.valueint, 0), depth, fmt);
    }
  }

  // ----- what cannot be read -----

  lemma ItemsFailNow(s: Text)
    requires JsonSpec.ParseValue(JsonSpec.Skip(s)) == JsonSpec.Fail
    ensures JsonSpec.ParseItems(s) == JsonSpec.Fail
  {
    hide JsonSpec.ParseValue, JsonSpec.Skip;
  }

  lemma ItemsFailLater(s: Text, v: Json, q: Text)
    requires JsonSpec.ParseValue(JsonSpec.Skip(s)) == JsonSpec.Ok(v, [COMMA] + q)
    requires JsonSpec.ParseItems(q) == JsonSpec.Fail
    ensures JsonSpec.ParseItems(s) == JsonSpec.Fail
  {
    hide JsonSpec.ParseValue;
    assert ([COMMA] + q)[1..] == q;
  }

  lemma ArrayFailStep(s: Text)
    requires StartsWith(s, LEFT_BRACKET) && !StartsWith(JsonSpec.Skip(s[1..]), RIGHT_BRACKET)
    requires JsonSpec.ParseItems(JsonSpec.Skip(s[1..])) == JsonSpec.Fail
    ensures JsonSpec.ParseValue(s) == JsonSpec.Fail
  {
    hide JsonSpec.ParseValue, JsonSpec.ParseItems, JsonSpec.Skip;
    JsonRoundTrip.DispatchOther(s);
  }

  lemma ObjectFailStep(s: Text)
    requires StartsWith(s, LEFT_BRACE) && !StartsWith(JsonSpec.Skip(s[1..]), RIGHT_BRACE)
    requires JsonSpec.ParseMembers(JsonSpec.Skip(s[1..])) == JsonSpec.Fail
    ensures JsonSpec.ParseValue(s) == JsonSpec.Fail
  {
    hide JsonSpec.ParseValue, JsonSpec.ParseMembers, JsonSpec.Skip;
    JsonRoundTrip.DispatchOther(s);
  }

  lemma FirstByte(c: Byte, p: Text, t: Text)
    ensures StartsWith([c] + p + t, c) && ([c] + p + t)[1..] == p + t
  {
  }

  lemma BehindFirst(c: Byte, p: Text, q: Text, t: Text)
    ensures StartsWith([c] + p + q + t, c) && ([c] + p + q + t)[1..] == p + (q + t)
  {
    assert [c] + p + q == [c] + (p + q);
    FirstByte(c, p + q, t);
  }

  lemma MembersFailName(s: Text)
    requires JsonSpec.ParseString(JsonSpec.Skip(s)) == JsonSpec.Fail
    ensures JsonSpec.ParseMembers(s) == JsonSpec.Fail
  {
    hide JsonSpec.ParseString, JsonSpec.ParseValue, JsonSpec.Skip;
  }

  lemma MembersFailValue(s: Text, name: Text, q: Text)
    requires JsonSpec.ParseString(JsonSpec.Skip(s)) == JsonSpec.Ok(name, [COLON] + q)
    requires JsonSpec.ParseValue(JsonSpec.Skip(q)) == JsonSpec.Fail
    ensures JsonSpec.ParseMembers(s) == JsonSpec.Fail
  {
    hide JsonSpec.ParseString, JsonSpec.ParseValue;
    assert ([COLON] + q)[1..] == q;
  }

  lemma MembersFailLater(s: Text, name: Text, q: Text, v: Json, r: Text)
    requires JsonSpec.ParseString(JsonSpec.Skip(s)) == JsonSpec.Ok(name, [COLON] + q)
    requires JsonSpec.ParseValue(JsonSpec.Skip(q)) == JsonSpec.Ok(v, [COMMA] + r)
    requires JsonSpec.ParseMembers(r) == JsonSpec.Fail
    ensures JsonSpec.ParseMembers(s) == JsonSpec.Fail
  {
    hide JsonSpec.ParseString, JsonSpec.ParseValue;
    assert ([COLON] + q)[1..] == q && ([COMMA] + r)[1..] == r;
  }

  /** Reading a printed tree, wherever it stands: legible or not, and what comes back. */
  lemma {:induction false} NodeReread(c: Content, depth: nat, fmt: bool, t: Text)
    requires Renderable(c) && Stops(t)
    ensures JsonSpec.ParseValue(JsonSpec.Skip(PrintNode(c, depth, fmt) + t))
         == if Legible(c) then JsonSpec.Ok(Reread(c), t) else JsonSpec.Fail
    decreases c, 2
  {
    hide JsonSpec.ParseValue, PrintNode, Renderable, JsonSpec.Skip, NulFree, JsonOf;
    if Lacking(c) {
      NothingPrinted(c, depth, fmt);
      assert [] + t == t;
      NoValue(JsonSpec.Skip(t));
    } else {
      NodeStart(c, depth, fmt);
      SkipVisible(PrintNode(c, depth, fmt), t);
      if Legible(c) {
        RereadPrintable(c);
        NodePrints(c, depth, fmt);
        StopsNumber(t);
        JsonRoundTrip.ValueRoundTrip(Reread(c), depth, fmt, t);
      } else if c.item.kind % 256 == TYPE_ARRAY {
        ArrayFails(c, depth, fmt, t);
      } else {
        ObjectFails(c, depth, fmt, t);
      }
    }
  }

  lemma NothingPrinted(c: Content, depth: nat, fmt: bool)
    requires Lacking(c)
    ensures PrintNode(c, depth, fmt) == []
  {
  }

  lemma {:induction false} ArrayFails(c: Content, depth: nat, fmt: bool, t: Text)
    requires Renderable(c) && !Legible(c) && c.item.kind % 256 == TYPE_ARRAY
    ensures JsonSpec.ParseValue(PrintNode(c, depth, fmt) + t) == JsonSpec.Fail
    decreases c, 1
  {
    hide JsonSpec.ParseValue, JsonSpec.ParseItems, JsonSpec.Skip, JoinedItems, NulFree, PrintedKids, PrintNode;
    var i :| 0 <= i < |c.kids| && !Legible(c.kids[i]);
    var p := JoinedItems(PrintedKids(c.kids, depth + 1, fmt), fmt) + t;
    ArrayText(c, depth, fmt);
    FirstByte(LEFT_BRACKET, JoinedItems(PrintedKids(c.kids, depth + 1, fmt), fmt), t);
    ItemsStart(c, depth + 1, fmt, t);
    SkipTwice(p);
    ItemsFail(c.kids, depth + 1, fmt, i, JsonSpec.Skip(p), t);
    ArrayFailStep(PrintNode(c, depth, fmt) + t);
  }

  /** An array that is not read as empty does not look empty. */
  lemma ItemsStart(c: Content, depth: nat, fmt: bool, t: Text)
    requires Renderable(c) && c.item.kind % 256 == TYPE_ARRAY && c.kids != [] && !Hollow(c)
    ensures !StartsWith(JsonSpec.Skip(JoinedItems(PrintedKids(c.kids, depth, fmt), fmt) + t), RIGHT_BRACKET)
  {
    hide PrintNode, NulFree, PrintedKids;
    var texts := PrintedKids(c.kids, depth, fmt);
    if Lacking(c.kids[0]) {
      NothingPrinted(c.kids[0], depth, fmt);
      assert JoinedItems(texts, fmt)[0] == COMMA;
    } else {
      NodeStart(c.kids[0], depth, fmt);
      assert JoinedItems(texts, fmt)[0] == texts[0][0];
    }
    SkipVisible(JoinedItems(texts, fmt), t);
  }

  lemma {:induction false} ItemsFail(cs: seq<Content>, depth: nat, fmt: bool, i: nat, s: Text, t: Text)
    requires i < |cs| && !Legible(cs[i])
    requires forall k :: 0 <= k < |cs| ==> Renderable(cs[k])
    requires JsonSpec.Skip(s) == JsonSpec.Skip(JoinedItems(PrintedKids(cs, depth, fmt), fmt) + t)
    ensures JsonSpec.ParseItems(s) == JsonSpec.Fail
    decreases cs, 3
  {
    hide JsonSpec.ParseValue, PrintNode, Renderable, JsonSpec.Skip, JsonSpec.ParseItems, Legible, PrintedKids;
    var texts := PrintedKids(cs, depth, fmt);
    if |cs| == 1 {
      var u := [RIGHT_BRACKET] + t;
      assert JoinedItems(texts, fmt) + t == texts[0] + u;
      VisibleStops(RIGHT_BRACKET, t);
      NodeReread(cs[0], depth, fmt, u);
      ItemsFailNow(s);
    } else {
      var space: Text := if fmt then [SPACE] else [];
      var more := JoinedItems(texts[1..], fmt) + t;
      var q := space + more;
      assert JoinedItems(texts, fmt) + t == texts[0] + ([COMMA] + q);
      VisibleStops(COMMA, q);
      NodeReread(cs[0], depth, fmt, [COMMA] + q);
      if !Legible(cs[0]) {
        ItemsFailNow(s);
      } else {
        assert texts[1..] == PrintedKids(cs[1..], depth, fmt);
        SkipOne(fmt, SPACE, more);
        ItemsFail(cs[1..], depth, fmt, i - 1, q, t);
        ItemsFailLater(s, Reread(cs[0]), q);
      }
    }
  }

  lemma VisibleStops(c: Byte, t: Text)
    requires c in {COMMA, RIGHT_BRACKET, RIGHT_BRACE}
    ensures Stops([c] + t)
  {
  }

  lemma {:induction false} ObjectFails(c: Content, depth: nat, fmt: bool, t: Text)
    requires Renderable(c) && !Legible(c) && c.item.kind % 256 == TYPE_OBJECT
    ensures JsonSpec.ParseValue(PrintNode(c, depth, fmt) + t) == JsonSpec.Fail
    decreases c, 1
  {
    hide JsonSpec.ParseValue, JsonSpec.ParseMembers, JsonSpec.Skip, JoinedMembers, NulFree, PrintedKids, PrintedNames;
    hide PrintNode;
    var i :| 0 <= i < |c.kids| && (c.kids[i].item.name.None? || !Legible(c.kids[i]));
    var body := JoinedMembers(PrintedNames(c.kids), PrintedKids(c.kids, depth + 1, fmt), depth + 1, fmt) + t;
    var s := PrintNode(c, depth, fmt) + t;
    ObjectShape(c, depth, fmt, t);
    SkipOne(fmt, LF, body);
    MembersStart(c.kids, depth + 1, fmt, t);
    SkipTwice(body);
    MembersFail(c.kids, depth + 1, fmt, i, JsonSpec.Skip(body), t);
    ObjectFailStep(s);
  }

  lemma ObjectShape(c: Content, depth: nat, fmt: bool, t: Text)
    requires c.item.kind % 256 == TYPE_OBJECT && c.kids != []
    ensures var s := PrintNode(c, depth, fmt) + t;
      && StartsWith(s, LEFT_BRACE)
      && s[1..] == (if fmt then [LF] else [])
                   + (JoinedMembers(PrintedNames(c.kids), PrintedKids(c.kids, depth + 1, fmt), depth + 1, fmt) + t)
  {
    hide PrintNode, JoinedMembers, PrintedNames, PrintedKids;
    ObjectText(c, depth, fmt);
    var members := JoinedMembers(PrintedNames(c.kids), PrintedKids(c.kids, depth + 1, fmt), depth + 1, fmt);
    var line: Text := if fmt then [LF] else [];
    BehindFirst(LEFT_BRACE, line, members, t);
  }

  /** The text of the members from the value of the first one on. */
  function AfterName(cs: seq<Content>, depth: nat, fmt: bool, t: Text): Text
    requires cs != []
  {
    PrintNode(cs[0], depth, fmt) + BehindValue(cs, depth, fmt, t)
  }

  function BehindValue(cs: seq<Content>, depth: nat, fmt: bool, t: Text): Text
    requires cs != []
  {
    MemberEnd(|cs| == 1, fmt)
    + (JoinedMembers(PrintedNames(cs[1..]), PrintedKids(cs[1..], depth, fmt), depth, fmt) + t)
  }

  /** The members without the indentation of the first one. */
  lemma MembersFront(cs: seq<Content>, depth: nat, fmt: bool, t: Text)
    requires cs != []
    ensures JsonSpec.Skip(JoinedMembers(PrintedNames(cs), PrintedKids(cs, depth, fmt), depth, fmt) + t)
         == JsonSpec.Skip(JsonSpec.PrintPtr(cs[0].item.name)
              + ([COLON] + ((if fmt then [TAB] else []) + AfterName(cs, depth, fmt, t))))
  {
    hide PrintedNames, PrintedKids, Indent, JsonSpec.Skip, PrintNode, JsonSpec.PrintPtr, MemberEnd;
    var (xs, ys) := (PrintedNames(cs), PrintedKids(cs, depth, fmt));
    assert xs[1..] == PrintedNames(cs[1..]) && ys[1..] == PrintedKids(cs[1..], depth, fmt);
    var tab: Text := if fmt then [TAB] else [];
    var rest := JoinedMembers(xs[1..], ys[1..], depth, fmt);
    Regrouped(Indent(depth, fmt), xs[0], tab, ys[0], MemberEnd(|cs| == 1, fmt), rest, t);
    SkipIndent(depth, fmt, xs[0] + ([COLON] + (tab + AfterName(cs, depth, fmt, t))));
  }

  lemma Regrouped(i: Text, x: Text, tab: Text, y: Text, end: Text, rest: Text, t: Text)
    ensures i + (x + [COLON] + tab + y) + end + rest + t
         == i + (x + ([COLON] + (tab + (y + (end + (rest + t))))))
  {
    var m := x + [COLON] + tab + y;
    assert i + m + end + rest + t == i + (m + (end + (rest + t)));
    assert m + (end + (rest + t)) == x + ([COLON] + (tab + (y + (end + (rest + t)))));
  }

  lemma MembersStart(cs: seq<Content>, depth: nat, fmt: bool, t: Text)
    requires cs != []
    ensures !StartsWith(
      JsonSpec.Skip(JoinedMembers(PrintedNames(cs), PrintedKids(cs, depth, fmt), depth, fmt) + t), RIGHT_BRACE)
  {
    MembersFront(cs, depth, fmt, t);
    hide JoinedMembers, PrintedNames, PrintedKids, AfterName;
    var x := JsonSpec.PrintPtr(cs[0].item.name);
    var z := [COLON] + ((if fmt then [TAB] else []) + AfterName(cs, depth, fmt, t));
    if x == [] {
      assert x + z == z;
    }
    SkipVisible(x + z, []);
    assert x + z + [] == x + z;
  }

  lemma AfterStops(cs: seq<Content>, depth: nat, fmt: bool, t: Text)
    requires cs != []
    ensures Stops(BehindValue(cs, depth, fmt, t))
  {
    hide PrintedNames, PrintedKids, Indent;
    var w := BehindValue(cs, depth, fmt, t);
    if |cs| == 1 {
      assert cs[1..] == [];
      var end := [RIGHT_BRACE] + t;
      assert w == (if fmt then [LF] else []) + (Indent(depth - 1, fmt) + end);
      SkipOne(fmt, LF, Indent(depth - 1, fmt) + end);
      SkipIndent(depth - 1, fmt, end);
    } else {
      assert w[0] == COMMA;
    }
  }

  lemma {:induction false} MembersFail(cs: seq<Content>, depth: nat, fmt: bool, i: nat, s: Text, t: Text)
    requires i < |cs| && (cs[i].item.name.None? || !Legible(cs[i]))
    requires forall k :: 0 <= k < |cs| ==> Renderable(cs[k]) && NulFree(TextOf(cs[k].item.name))
    requires JsonSpec.Skip(s)
          == JsonSpec.Skip(JoinedMembers(PrintedNames(cs), PrintedKids(cs, depth, fmt), depth, fmt) + t)
    ensures JsonSpec.ParseMembers(s) == JsonSpec.Fail
    decreases cs, 3
  {
    hide JsonSpec.ParseValue, JsonSpec.ParseString, PrintNode, Renderable, JsonSpec.Skip, JsonSpec.ParseMembers;
    hide Legible, PrintedKids, PrintedNames, JoinedMembers, NulFree, BehindValue, JsonSpec.PrintString;
    MembersFront(cs, depth, fmt, t);
    var v := AfterName(cs, depth, fmt, t);
    var q := (if fmt then [TAB] else []) + v;
    if cs[0].item.name.None? {
      NoName(q);
      MembersFailName(s);
    } else {
      var name := cs[0].item.name.value;
      NameRead(name, q);
      SkipOne(fmt, TAB, v);
      AfterStops(cs, depth, fmt, t);
      NodeReread(cs[0], depth, fmt, BehindValue(cs, depth, fmt, t));
      if !Legible(cs[0]) {
        MembersFailValue(s, name, q);
      } else {
        var r := NextStart(cs, depth, fmt, t);
        MembersFail(cs[1..], depth, fmt, i - 1, r, t);
        MembersFailLater(s, name, q, Reread(cs[0]), r);
      }
    }
  }

  /** Where the next member starts. */
  lemma NextStart(cs: seq<Content>, depth: nat, fmt: bool, t: Text) returns (r: Text)
    requires |cs| > 1
    ensures BehindValue(cs, depth, fmt, t) == [COMMA] + r
    ensures JsonSpec.Skip(r)
         == JsonSpec.Skip(JoinedMembers(PrintedNames(cs[1..]), PrintedKids(cs[1..], depth, fmt), depth, fmt) + t)
  {
    hide JoinedMembers, PrintedNames, PrintedKids;
    var more := JoinedMembers(PrintedNames(cs[1..]), PrintedKids(cs[1..], depth, fmt), depth, fmt) + t;
    r := (if fmt then [LF] else []) + more;
    SkipOne(fmt, LF, more);
  }

  lemma NoName(q: Text)
    ensures JsonSpec.ParseString(JsonSpec.Skip([] + ([COLON] + q))) == JsonSpec.Fail
  {
    assert [] + ([COLON] + q) == [COLON] + q;
  }

  lemma NameRead(name: Text, q: Text)
    requires NulFree(name)
    ensures JsonSpec.ParseString(JsonSpec.Skip(JsonSpec.PrintString(name) + ([COLON] + q)))
         == JsonSpec.Ok(name, [COLON] + q)
  {
    hide NulFree;
    JsonRoundTrip.PrintStringStart(name);
    SkipVisible(JsonSpec.PrintString(name), [COLON] + q);
    JsonRoundTrip.PrintStringRoundTrip(name, [COLON] + q);
  }

  // ----- whole documents -----

  /** `cJSON_Parse` after `cJSON_Print`, formatted or not, with or without the check for trailing
      text: the tree comes back exactly if it is legible, and otherwise there is no tree. */
  lemma RereadExactly(c: Content, fmt: bool)
    requires Renderable(c)
    ensures var r := if Legible(c) then JsonSpec.Ok(Reread(c), []) else JsonSpec.Fail;
      && JsonSpec.ParseDocument(PrintNode(c, 0, fmt)) == r
      && JsonSpec.ParseValue(JsonSpec.Skip(PrintNode(c, 0, fmt))) == r
  {
    hide JsonSpec.ParseValue, PrintNode, Renderable, Legible;
    NodeReread(c, 0, fmt, []);
    assert PrintNode(c, 0, fmt) + [] == PrintNode(c, 0, fmt);
  }

  /** Any node with a child under an object that has no name: a fresh item appended to it, say. */
  lemma NamelessMember(c: Content, i: nat, fmt: bool)
    requires Renderable(c) && c.item.kind % 256 == TYPE_OBJECT && i < |c.kids| && c.kids[i].item.name == None
    ensures JsonSpec.ParseDocument(PrintNode(c, 0, fmt)) == JsonSpec.Fail
  {
    RereadExactly(c, fmt);
  }

  /** An object with one nameless null child is printed as an object without a name in it, which
      the parser refuses. */
  lemma NamelessNull()
    ensures var zero := Decimal(0, 0);
      var child := Content(Item(TYPE_NULL, 0, zero, None, None), []);
      var c := Content(Item(TYPE_OBJECT, 0, zero, None, None), [child]);
      && Renderable(c)
      && PrintNode(c, 0, false) == [LEFT_BRACE, COLON] + JsonSpec.NULL_TEXT + [RIGHT_BRACE]
      && JsonSpec.ParseDocument(PrintNode(c, 0, false)) == JsonSpec.Fail
  {
    var child := Content(Item(TYPE_NULL, 0, Decimal(0, 0), None, None), []);
    var c := Content(Item(TYPE_OBJECT, 0, Decimal(0, 0), None, None), [child]);
    assert Renderable(child);
    OneMember([], JsonSpec.NULL_TEXT);
    assert PrintedNames(c.kids) == [[]] && PrintedKids(c.kids, 1, false) == [JsonSpec.NULL_TEXT];
    NamelessMember(c, 0, false);
  }

  lemma OneMember(x: Text, y: Text)
    ensures ObjectBody([x], [y], 1, false) == [LEFT_BRACE] + x + [COLON] + y + [RIGHT_BRACE]
  {
    assert [x][1..] == [] && [y][1..] == [];
    assert JoinedMembers([], [], 1, false) == [RIGHT_BRACE];
    assert JoinedMembers([x], [y], 1, false) == x + [COLON] + y + [RIGHT_BRACE];
  }
}
