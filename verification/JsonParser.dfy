/** `parse_value` and its helpers, building the node tree of cJSON/cJSON.c. */
module JsonParser {
  import opened CText
  import JsonSpec
  import opened JsonNode
  import opened JsonTree
  import opened JsonPrint
  import JsonPrinter
  import JsonReread
  import JsonStringBuffers
  import opened Options

  // ----- scanning -----

  /** `skip`: moves past white space, which is every byte up to 32. */
  method SkipFrom(text: Text, start: nat) returns (pos: nat)
    requires start <= |text|
    ensures start <= pos <= |text| && text[pos..] == JsonSpec.Skip(text[start..])
  {
    pos := start;
    while pos < |text| && text[pos] <= 32
      invariant start <= pos <= |text| && JsonSpec.Skip(text[pos..]) == JsonSpec.Skip(text[start..])
    {
      assert text[pos..][1..] == text[pos + 1..];
      pos := pos + 1;
    }
  }

  /** The word stands at this position, which is what `strncmp` tests. */
  predicate WordAt(text: Text, pos: nat, w: Text) {
    pos + |w| <= |text| && text[pos..pos + |w|] == w
  }

  lemma WordAtIsPrefix(text: Text, pos: nat, w: Text)
    requires pos <= |text|
    ensures WordAt(text, pos, w) <==> JsonSpec.HasPrefix(text[pos..], w)
  {
    if pos + |w| <= |text| {
      assert text[pos..][..|w|] == text[pos..pos + |w|];
    }
  }

  predicate CharAt(text: Text, pos: nat, c: Byte) {
    pos < |text| && text[pos] == c
  }

  predicate DigitAt(text: Text, pos: nat) {
    pos < |text| && IsDigit(text[pos])
  }

  /** A digit loop of `parse_number`. */
  method ScanDigits(text: Text, start: nat, n0: nat) returns (n: nat, pos: nat)
    requires start <= |text|
    ensures start <= pos <= |text| && JsonSpec.TakeDigits(text[start..], n0) == (n, text[pos..])
  {
    n, pos := n0, start;
    while DigitAt(text, pos)
      invariant start <= pos <= |text|
      invariant JsonSpec.TakeDigits(text[pos..], n) == JsonSpec.TakeDigits(text[start..], n0)
      decreases |text| - pos
    {
      assert text[pos..][1..] == text[pos + 1..];
      n := n * 10 + (text[pos] - DIGIT_0);
      pos := pos + 1;
    }
  }

  method ScanExponent(text: Text, start: nat) returns (subscale: int, pos: nat)
    requires start <= |text|
    ensures start <= pos <= |text| && JsonSpec.TakeExponent(text[start..]) == (subscale, text[pos..])
  {
    hide JsonSpec.TakeDigits;
    subscale, pos := 0, start;
    if CharAt(text, pos, LOWER_E) || CharAt(text, pos, UPPER_E) {
      assert text[start..][1..] == text[start + 1..];
      pos := pos + 1;
      var signsubscale: int := 1;
      if CharAt(text, pos, PLUS) {
        assert text[pos..][1..] == text[pos + 1..];
        pos := pos + 1;
      } else if CharAt(text, pos, MINUS) {
        assert text[pos..][1..] == text[pos + 1..];
        signsubscale, pos := -1, pos + 1;
      }
      var n;
      n, pos := ScanDigits(text, pos, 0);
      subscale := signsubscale * n;
    }
  }

  method ScanInteger(text: Text, start: nat) returns (n: nat, pos: nat)
    requires start <= |text|
    ensures start <= pos <= |text| && JsonSpec.TakeInteger(text[start..]) == (n, text[pos..])
  {
    hide JsonSpec.TakeDigits;
    n, pos := 0, start;
    if CharAt(text, pos, DIGIT_0) {
      assert text[pos..][1..] == text[pos + 1..];
      pos := pos + 1;
    }
    if DigitAt(text, pos) && text[pos] != DIGIT_0 {
      n, pos := ScanDigits(text, pos, 0);
    }
  }

  method ScanFraction(text: Text, start: nat, n0: nat) returns (n: nat, pos: nat)
    requires start <= |text|
    ensures start <= pos <= |text| && JsonSpec.TakeFraction(n0, text[start..]) == (n, text[pos..])
  {
    hide JsonSpec.TakeDigits;
    n, pos := n0, start;
    if CharAt(text, pos, DOT) {
      assert text[pos..][1..] == text[pos + 1..];
      if DigitAt(text, pos + 1) {
        n, pos := ScanDigits(text, pos + 1, n);
      }
    }
  }

  lemma {:induction false} PowerOfTenPositive(k: nat)
    ensures JsonPrinter.PowerOfTen(k) > 0
  {
    if k > 0 { PowerOfTenPositive(k - 1); }
  }

  /** `(int)n`: the decimal cut off towards zero. */
  function Truncated(d: Decimal): int {
    if d.exponent >= 0 then d.mantissa * JsonPrinter.PowerOfTen(d.exponent)
    else
      PowerOfTenPositive(-d.exponent);
      if d.mantissa >= 0 then d.mantissa / JsonPrinter.PowerOfTen(-d.exponent)
      else -(-d.mantissa / JsonPrinter.PowerOfTen(-d.exponent))
  }

  /** The whole number is the decimal itself or the next one towards zero. */
  lemma TruncatesTowardsZero(d: Decimal)
    ensures d.exponent >= 0 ==> Truncated(d) == d.mantissa * JsonPrinter.PowerOfTen(d.exponent)
    ensures d.exponent < 0 ==>
      var (v, p) := (Truncated(d), JsonPrinter.PowerOfTen(-d.exponent));
      if d.mantissa >= 0 then 0 <= v * p <= d.mantissa < v * p + p else v * p - p < d.mantissa <= v * p <= 0
  {
    if d.exponent < 0 {
      var p := JsonPrinter.PowerOfTen(-d.exponent);
      PowerOfTenPositive(-d.exponent);
      DividedDown(if d.mantissa >= 0 then d.mantissa else -d.mantissa, p);
      Negated(-d.mantissa / p, p);
    }
  }

  lemma DividedDown(m: nat, p: nat)
    requires p > 0
    ensures 0 <= m / p * p <= m < m / p * p + p
  {
  }

  lemma Negated(v: int, p: int)
    ensures -v * p == -(v * p)
  {
  }

  /** `parse_number`. */
  method ParseNumberAt(item: CJson, text: Text, start: nat) returns (pos: nat)
    requires start <= |text|
    modifies item`kind, item`valueint, item`valuedouble
    ensures start <= pos <= |text| && item.kind == TYPE_NUMBER && item.valueint == Truncated(item.valuedouble)
    ensures JsonSpec.ParseNumber(text[start..])
         == JsonSpec.Ok(JsonSpec.Number(item.valuedouble.mantissa, item.valuedouble.exponent), text[pos..])
  {
    hide JsonSpec.TakeInteger, JsonSpec.TakeFraction, JsonSpec.TakeExponent, Truncated;
    var sign: int := 1;
    pos := start;
    if CharAt(text, pos, MINUS) {
      assert text[pos..][1..] == text[pos + 1..];
      sign, pos := -1, pos + 1;
    }
    var n, p1 := ScanInteger(text, pos);
    var m, p2 := ScanFraction(text, p1, n);
    var width: int := p2 - p1;
    var scale: int := if width > 0 then 1 - width else 0;
    var subscale;
    subscale, pos := ScanExponent(text, p2);
    item.valuedouble := Decimal(sign * m, scale + subscale);
    item.valueint := Truncated(item.valuedouble);
    item.kind := TYPE_NUMBER;
  }

  // ----- strings -----

  /** `parse_string`, storing the decoded text as the node's string value. */
  method ParseStringInto(item: CJson, text: Text, start: nat) returns (ok: bool, pos: nat)
    requires start <= |text| && !JsonSpec.ParseString(text[start..]).Outside?
    modifies item`kind, item`valuestring
    ensures ok <==> JsonSpec.ParseString(text[start..]).Ok?
    ensures ok ==> start < pos <= |text| && item.kind == TYPE_STRING && item.valuestring.Some?
    ensures ok ==> JsonSpec.ParseString(text[start..]) == JsonSpec.Ok(item.valuestring.value, text[pos..])
  {
    hide JsonSpec.ParseString;
    var out, n;
    ok, pos, out, n := JsonStringBuffers.ParseStringAt(text, start);
    if ok {
      item.valuestring := Some(out[..n]);
      item.kind := TYPE_STRING;
    }
  }

  // ----- the list loops, as continuations of the specification -----

  /** What the array loop still has to do at a position where white space has been skipped. */
  function AfterItem(s: Text): JsonSpec.Parse<seq<Json>> {
    if StartsWith(s, RIGHT_BRACKET) then JsonSpec.Ok([], s[1..])
    else if StartsWith(s, COMMA) then JsonSpec.ParseItems(s[1..])
    else JsonSpec.Fail
  }

  function AfterMember(s: Text): JsonSpec.Parse<seq<Member>> {
    if StartsWith(s, RIGHT_BRACE) then JsonSpec.Ok([], s[1..])
    else if StartsWith(s, COMMA) then JsonSpec.ParseMembers(s[1..])
    else JsonSpec.Fail
  }

  function Prepend<T>(vs: seq<T>, r: JsonSpec.Parse<seq<T>>): JsonSpec.Parse<seq<T>> {
    if r.Ok? then JsonSpec.Ok(vs + r.value, r.rest) else r
  }

  lemma PrependTwice<T>(vs: seq<T>, ws: seq<T>, r: JsonSpec.Parse<seq<T>>)
    ensures Prepend(vs, Prepend(ws, r)) == Prepend(vs + ws, r)
  {
    if r.Ok? { assert vs + (ws + r.value) == vs + ws + r.value; }
  }

  lemma ItemsUnfold(s: Text)
    ensures var v := JsonSpec.ParseValue(JsonSpec.Skip(s));
      JsonSpec.ParseItems(s) ==
        if v.Ok? then Prepend([v.value], AfterItem(JsonSpec.Skip(v.rest)))
        else if v.Fail? then JsonSpec.Fail else JsonSpec.Outside
  {
    hide JsonSpec.ParseValue, JsonSpec.Skip;
    var v := JsonSpec.ParseValue(JsonSpec.Skip(s));
    if v.Ok? { assert [v.value] + [] == [v.value]; }
  }

  function MemberName(s: Text): JsonSpec.Parse<Text> {
    JsonSpec.ParseString(JsonSpec.Skip(s))
  }

  /** The text of a member's value, after its name and colon. */
  function MemberTail(s: Text): JsonSpec.Parse<()> {
    if MemberName(s).Outside? then JsonSpec.Outside
    else if MemberName(s).Fail? then JsonSpec.Fail
    else
      var t := JsonSpec.Skip(MemberName(s).rest);
      if StartsWith(t, COLON) then JsonSpec.Ok((), t[1..]) else JsonSpec.Fail
  }

  function MemberValue(s: Text): JsonSpec.Parse<Json> {
    if MemberTail(s).Outside? then JsonSpec.Outside
    else if MemberTail(s).Fail? then JsonSpec.Fail
    else JsonSpec.ParseValue(JsonSpec.Skip(MemberTail(s).rest))
  }

  lemma MembersUnfold(s: Text)
    ensures MemberValue(s).Ok? ==> MemberName(s).Ok?
    ensures var v := MemberValue(s);
      JsonSpec.ParseMembers(s) ==
        if v.Ok? then Prepend([JsonSpec.Member(MemberName(s).value, v.value)], AfterMember(JsonSpec.Skip(v.rest)))
        else if v.Fail? then JsonSpec.Fail else JsonSpec.Outside
  {
    hide JsonSpec.ParseValue, JsonSpec.ParseString, JsonSpec.Skip;
    if MemberValue(s).Ok? {
      var m := JsonSpec.Member(MemberName(s).value, MemberValue(s).value);
      assert [m] + [] == [m];
    }
  }

  // ----- new children -----

  /** A new node, linked behind the last child of its parent, or as its first child. */
  method AddChild(parent: CJson, last: CJson?, ghost ts: seq<Tree>) returns (node: CJson)
    requires WellLinked(ts, parent.child) && last == RootAt(ts, |ts| - 1)
    requires parent !in NodesOf(ts)
    requires forall n :: n in NodesOf(ts) ==> allocated(n)
    modifies parent`child, (if last == null then {} else {last})`next
    ensures fresh(node) && node.child == null && node.kind == 0 && node.valueint == 0
    ensures node.valuestring == None && node.name == None
    ensures WellLinked(ts + [Tree(node, [])], parent.child)
    ensures node !in NodesOf(ts) && node != parent && Apart(ts)
  {
    hide WellLinked, NodesOf, Apart;
    NoKids();
    LinkedApart(ts, parent.child);
    node := new CJson();
    AppendChild(parent, last, node, ts, Tree(node, []));
  }

  /** Giving the last child its own children keeps the list well linked. */
  lemma LastFilled(ts: seq<Tree>, node: CJson, kids: seq<Tree>, first: CJson?)
    requires Strung(ts + [Tree(node, [])], first) && Backed(ts + [Tree(node, [])])
    requires Apart(ts) && Family(Tree(node, kids)) !! NodesOf(ts) && node !in NodesOf(kids)
    requires forall i :: 0 <= i < |ts| ==> WellLinked(ts[i].kids, ts[i].node.child)
    requires WellLinked(kids, node.child)
    ensures WellLinked(ts + [Tree(node, kids)], first)
    ensures NodesOf(ts + [Tree(node, kids)]) == NodesOf(ts) + Family(Tree(node, kids))
  {
    hide WellLinked, Apart, NodesOf, Family;
    ApartSnoc(ts, Tree(node, kids));
    SameRoots(ts, node, kids, first);
    LinkedSnoc(ts, Tree(node, kids), first);
  }

  lemma SameRoots(ts: seq<Tree>, node: CJson, kids: seq<Tree>, first: CJson?)
    requires Strung(ts + [Tree(node, [])], first) && Backed(ts + [Tree(node, [])])
    ensures Strung(ts + [Tree(node, kids)], first) && Backed(ts + [Tree(node, kids)])
  {
    var (a, b) := (ts + [Tree(node, [])], ts + [Tree(node, kids)]);
    assert forall i :: 0 <= i < |a| ==> a[i].node == b[i].node;
  }

  // ----- the recursive descent -----

  lemma ItemsSnoc(ts: seq<Tree>, t: Tree)
    ensures ItemsOf(ContentsOf(ts + [t])) == ItemsOf(ContentsOf(ts)) + [JsonOf(ContentOf(t))]
  {
    hide ContentOf, JsonOf;
    ContentsSnoc(ts, t);
    var (cs, c) := (ContentsOf(ts), ContentOf(t));
    assert (cs + [c])[..|cs|] == cs;
  }

  lemma MembersSnoc(ts: seq<Tree>, t: Tree)
    ensures MembersOf(ContentsOf(ts + [t]))
         == MembersOf(ContentsOf(ts)) + [JsonSpec.Member(TextOf(t.node.name), JsonOf(ContentOf(t)))]
  {
    hide JsonOf;
    ContentsSnoc(ts, t);
    var (cs, c) := (ContentsOf(ts), ContentOf(t));
    assert (cs + [c])[..|cs|] == cs;
  }

  /** What the parser builds: no string and no member name is missing, both number fields agree, and a
      true node has the number 1. */
  predicate Parsed(c: Content)
    decreases c
  {
    && c.item.kind <= TYPE_OBJECT
    && (c.item.kind == TYPE_TRUE ==> c.item.valueint == 1)
    && (c.item.kind == TYPE_NUMBER ==> c.item.valueint == Truncated(c.item.valuedouble))
    && (c.item.kind == TYPE_STRING ==> c.item.valuestring.Some?)
    && (c.item.kind == TYPE_ARRAY ==> forall i :: 0 <= i < |c.kids| ==> Parsed(c.kids[i]))
    && (c.item.kind == TYPE_OBJECT ==>
         forall i :: 0 <= i < |c.kids| ==> c.kids[i].item.name.Some? && Parsed(c.kids[i]))
  }

  predicate AllParsed(cs: seq<Content>, named: bool) {
    forall i :: 0 <= i < |cs| ==> Parsed(cs[i]) && (named ==> cs[i].item.name.Some?)
  }

  lemma ParsedSnoc(ts: seq<Tree>, t: Tree, named: bool)
    requires AllParsed(ContentsOf(ts), named) && Parsed(ContentOf(t)) && (named ==> t.node.name.Some?)
    ensures AllParsed(ContentsOf(ts + [t]), named)
  {
    hide ContentsOf, Parsed;
    ContentsSnoc(ts, t);
  }

  lemma {:induction false} ParsedNamed(c: Content)
    requires Parsed(c)
    ensures JsonReread.Named(c)
    decreases c
  {
    if c.item.kind == TYPE_ARRAY || c.item.kind == TYPE_OBJECT {
      forall i | 0 <= i < |c.kids| ensures JsonReread.Named(c.kids[i]) { ParsedNamed(c.kids[i]); }
    }
  }

  /** Trees the parser builds can be printed wherever their value can. */
  lemma {:induction false} ParsedRenderable(c: Content)
    requires Parsed(c) && JsonSpec.Printable(JsonOf(c))
    ensures Renderable(c)
    decreases c
  {
    hide NulFree;
    if c.item.kind == TYPE_ARRAY {
      forall i | 0 <= i < |c.kids| ensures Renderable(c.kids[i]) {
        ItemsAt(c.kids, i);
        ParsedRenderable(c.kids[i]);
      }
    } else if c.item.kind == TYPE_OBJECT {
      forall i | 0 <= i < |c.kids| ensures Renderable(c.kids[i]) && NulFree(TextOf(c.kids[i].item.name)) {
        MembersAt(c.kids, i);
        ParsedRenderable(c.kids[i]);
      }
    }
  }

  /** The node, with the kids found under it, stands for the value v. */
  ghost predicate Stands(item: CJson, kids: seq<Tree>, v: Json)
    reads item, NodesOf(kids)
  {
    && JsonOf(ContentOf(Tree(item, kids))) == v && Parsed(ContentOf(Tree(item, kids)))
    && WellLinked(kids, item.child) && item !in NodesOf(kids)
  }

  /** `parse_value`.  The node's links to its siblings and its name are left alone. */
  method ParseValue(item: CJson, text: Text, start: nat) returns (ok: bool, pos: nat, ghost kids: seq<Tree>)
    requires start <= |text| && !JsonSpec.ParseValue(text[start..]).Outside?
    requires item.child == null
    modifies item`kind, item`child, item`valuestring, item`valueint, item`valuedouble
    ensures ok <==> JsonSpec.ParseValue(text[start..]).Ok?
    ensures ok ==> var v := JsonSpec.ParseValue(text[start..]);
      start < pos <= |text| && text[pos..] == v.rest && Stands(item, kids, v.value)
    ensures fresh(NodesOf(kids)) && forall n :: n in NodesOf(kids) ==> allocated(n)
    decreases |text| - start, 1
  {
    hide JsonSpec.HasPrefix, JsonSpec.ParseString, JsonSpec.ParseNumber;
    hide JsonSpec.ParseArray, JsonSpec.ParseObject, WellLinked;
    WordAtIsPrefix(text, start, JsonSpec.NULL_TEXT);
    WordAtIsPrefix(text, start, JsonSpec.FALSE_TEXT);
    WordAtIsPrefix(text, start, JsonSpec.TRUE_TEXT);
    NoKids();
    kids := [];
    if WordAt(text, start, JsonSpec.NULL_TEXT) {
      item.kind := TYPE_NULL;
      assert text[start..][4..] == text[start + 4..];
      return true, start + 4, kids;
    }
    if WordAt(text, start, JsonSpec.FALSE_TEXT) {
      item.kind := TYPE_FALSE;
      assert text[start..][5..] == text[start + 5..];
      return true, start + 5, kids;
    }
    if WordAt(text, start, JsonSpec.TRUE_TEXT) {
      item.kind := TYPE_TRUE;
      item.valueint := 1;
      assert text[start..][4..] == text[start + 4..];
      return true, start + 4, kids;
    }
    if CharAt(text, start, QUOTE) {
      ok, pos := ParseStringInto(item, text, start);
    } else if CharAt(text, start, MINUS) || DigitAt(text, start) {
      pos := ParseNumberAt(item, text, start);
      ok := true;
    } else if CharAt(text, start, LEFT_BRACKET) {
      ok, pos, kids := ParseArray(item, text, start);
    } else if CharAt(text, start, LEFT_BRACE) {
      ok, pos, kids := ParseObject(item, text, start);
    } else {
      ok, pos := false, start;
    }
  }

  /** A value with the white space around it, as both child loops read it. */
  method ParseSpacedValue(item: CJson, text: Text, start: nat)
    returns (ok: bool, pos: nat, ghost kids: seq<Tree>)
    requires start <= |text| && !JsonSpec.ParseValue(JsonSpec.Skip(text[start..])).Outside?
    requires item.child == null
    modifies item`kind, item`child, item`valuestring, item`valueint, item`valuedouble
    ensures ok <==> JsonSpec.ParseValue(JsonSpec.Skip(text[start..])).Ok?
    ensures ok ==> var v := JsonSpec.ParseValue(JsonSpec.Skip(text[start..]));
      start < pos <= |text| && text[pos..] == JsonSpec.Skip(v.rest) && Stands(item, kids, v.value)
    ensures fresh(NodesOf(kids)) && forall n :: n in NodesOf(kids) ==> allocated(n)
    decreases |text| - start, 2
  {
    hide JsonSpec.ParseValue, JsonSpec.Skip, Stands;
    var p := SkipFrom(text, start);
    ok, pos, kids := ParseValue(item, text, p);
    if ok {
      pos := SkipFrom(text, pos);
    }
  }

  /** One child of an array: linked, then parsed, with the white space around it skipped. */
  method ParseItem(parent: CJson, last: CJson?, text: Text, start: nat, ghost ts: seq<Tree>)
    returns (ok: bool, child: CJson, pos: nat, ghost t: Tree)
    requires start <= |text| && !JsonSpec.ParseValue(JsonSpec.Skip(text[start..])).Outside?
    requires WellLinked(ts, parent.child) && last == RootAt(ts, |ts| - 1)
    requires parent !in NodesOf(ts) && forall n :: n in NodesOf(ts) ==> allocated(n)
    modifies parent`child, (if last == null then {} else {last})`next
    ensures ok <==> JsonSpec.ParseValue(JsonSpec.Skip(text[start..])).Ok?
    ensures fresh(Family(t)) && forall n :: n in Family(t) ==> allocated(n)
    ensures ok ==> var v := JsonSpec.ParseValue(JsonSpec.Skip(text[start..]));
      start < pos <= |text| && text[pos..] == JsonSpec.Skip(v.rest)
      && t.node == child && JsonOf(ContentOf(t)) == v.value && Parsed(ContentOf(t))
      && WellLinked(ts + [t], parent.child)
      && NodesOf(ts + [t]) == NodesOf(ts) + Family(t)
    decreases |text| - start, 3
  {
    hide JsonSpec.ParseValue, JsonSpec.Skip, WellLinked, ContentOf, JsonOf, NodesOf, Apart, Parsed;
    child := AddChild(parent, last, ts);
    LinkedParts(ts, Tree(child, []), parent.child);
    ghost var kids;
    ok, pos, kids := ParseSpacedValue(child, text, start);
    t := Tree(child, kids);
    if ok {
      LastFilled(ts, child, kids, parent.child);
    }
  }

  lemma LinkedParts(ts: seq<Tree>, t: Tree, first: CJson?)
    requires WellLinked(ts + [t], first)
    ensures Strung(ts + [t], first) && Backed(ts + [t])
    ensures forall i :: 0 <= i < |ts| ==> WellLinked(ts[i].kids, ts[i].node.child)
  {
    hide Strung, Backed, Apart;
    var all := ts + [t];
    forall i | 0 <= i < |ts| ensures WellLinked(ts[i].kids, ts[i].node.child) {
      assert all[i] == ts[i];
    }
  }

  // ----- arrays -----

  /** `parse_array`. */
  method ParseArray(item: CJson, text: Text, start: nat) returns (ok: bool, pos: nat, ghost kids: seq<Tree>)
    requires start <= |text| && !JsonSpec.ParseArray(text[start..]).Outside?
    requires item.child == null
    modifies item`kind, item`child
    ensures ok <==> JsonSpec.ParseArray(text[start..]).Ok?
    ensures ok ==> var v := JsonSpec.ParseArray(text[start..]);
      start < pos <= |text| && text[pos..] == v.rest && Stands(item, kids, v.value)
    ensures fresh(NodesOf(kids)) && forall n :: n in NodesOf(kids) ==> allocated(n)
    decreases |text| - start, 0
  {
    hide JsonSpec.Skip, JsonSpec.ParseItems, WellLinked, ContentsOf, ItemsOf, NodesOf, Stands, AllParsed;
    kids := [];
    NothingBuilt(item);
    if !CharAt(text, start, LEFT_BRACKET) { return false, start, kids; }
    assert text[start..][1..] == text[start + 1..];
    item.kind := TYPE_ARRAY;
    pos := SkipFrom(text, start + 1);
    if CharAt(text, pos, RIGHT_BRACKET) {
      assert text[pos..][1..] == text[pos + 1..];
      ArrayStands(item, kids);
      return true, pos + 1, kids;
    }
    ok, pos, kids := ParseItems(item, text, pos);
    if ok { ArrayStands(item, kids); }
  }

  lemma ArrayStands(item: CJson, kids: seq<Tree>)
    requires item.kind == TYPE_ARRAY && WellLinked(kids, item.child) && item !in NodesOf(kids)
    requires AllParsed(ContentsOf(kids), false)
    ensures Stands(item, kids, JsonSpec.Array(ItemsOf(ContentsOf(kids))))
  {
    hide WellLinked, NodesOf, ItemsOf, ContentsOf;
  }

  lemma ObjectStands(item: CJson, kids: seq<Tree>)
    requires item.kind == TYPE_OBJECT && WellLinked(kids, item.child) && item !in NodesOf(kids)
    requires AllParsed(ContentsOf(kids), true)
    ensures Stands(item, kids, JsonSpec.Object(MembersOf(ContentsOf(kids))))
  {
    hide WellLinked, NodesOf, MembersOf, ContentsOf;
  }

  /** The state shared by every turn of the child loop: the children so far are well linked under
      `item`, `last` is the last of them, and nothing else was touched. */
  ghost predicate Building(item: CJson, kids: seq<Tree>, last: CJson?)
    reads item, NodesOf(kids)
  {
    WellLinked(kids, item.child) && last == RootAt(kids, |kids| - 1) && item !in NodesOf(kids)
  }

  lemma NothingBuilt(item: CJson)
    requires item.child == null
    ensures Building(item, [], null) && NodesOf([]) == {}
    ensures WellLinked([], item.child)
    ensures ItemsOf(ContentsOf([])) == [] && MembersOf(ContentsOf([])) == []
    ensures AllParsed(ContentsOf([]), false) && AllParsed(ContentsOf([]), true)
  {
    NoKids();
  }

  lemma PrependNothing<T>(r: JsonSpec.Parse<seq<T>>)
    ensures Prepend([], r) == r
  {
    if r.Ok? { assert [] + r.value == r.value; }
  }

  /** One turn of the child loop of `parse_array`, from the text after the bracket or comma. */
  method NextItem(item: CJson, last: CJson?, text: Text, start: nat, ghost kids: seq<Tree>,
                  ghost all: JsonSpec.Parse<seq<Json>>)
    returns (ok: bool, child: CJson, pos: nat, ghost more: seq<Tree>)
    requires start <= |text| && Building(item, kids, last) && forall n :: n in NodesOf(kids) ==> allocated(n)
    requires !all.Outside? && all == Prepend(ItemsOf(ContentsOf(kids)), JsonSpec.ParseItems(text[start..]))
    requires AllParsed(ContentsOf(kids), false)
    modifies item`child, (if last == null then {} else {last})`next
    ensures !ok ==> !all.Ok?
    ensures forall n :: n in NodesOf(more) ==> allocated(n)
    ensures fresh(NodesOf(more) - NodesOf(kids))
    ensures ok ==> start < pos <= |text| && Building(item, more, child)
    ensures ok ==> all == Prepend(ItemsOf(ContentsOf(more)), AfterItem(text[pos..]))
    ensures ok ==> AllParsed(ContentsOf(more), false)
    decreases |text| - start, 4
  {
    hide JsonSpec.ParseValue, JsonSpec.ParseItems, JsonSpec.Skip, WellLinked, ContentsOf, ItemsOf, NodesOf, AfterItem;
    hide ContentOf, JsonOf, Parsed, AllParsed;
    ItemsUnfold(text[start..]);
    more := kids;
    ghost var t;
    ghost var vals := ItemsOf(ContentsOf(kids));
    ok, child, pos, t := ParseItem(item, last, text, start, kids);
    if ok {
      ItemsSnoc(kids, t);
      ParsedSnoc(kids, t, false);
      PrependTwice(vals, [JsonOf(ContentOf(t))], AfterItem(text[pos..]));
      more := kids + [t];
    }
  }

  /** The child loop of `parse_array`, from the first child to the closing bracket. */
  method ParseItems(item: CJson, text: Text, start: nat) returns (ok: bool, pos: nat, ghost kids: seq<Tree>)
    requires start <= |text| && !JsonSpec.ParseItems(text[start..]).Outside?
    requires item.child == null
    modifies item`child
    ensures ok <==> JsonSpec.ParseItems(text[start..]).Ok?
    ensures ok ==> var v := JsonSpec.ParseItems(text[start..]);
      start < pos <= |text| && text[pos..] == v.rest && ItemsOf(ContentsOf(kids)) == v.value
      && AllParsed(ContentsOf(kids), false) && WellLinked(kids, item.child) && item !in NodesOf(kids)
    ensures fresh(NodesOf(kids)) && forall n :: n in NodesOf(kids) ==> allocated(n)
    decreases |text| - start, 5
  {
    hide JsonSpec.ParseItems, WellLinked, ContentsOf, ItemsOf, NodesOf, AllParsed;
    NothingBuilt(item);
    kids := [];
    ghost var all := JsonSpec.ParseItems(text[start..]);
    PrependNothing(all);
    var child;
    ok, child, pos, kids := NextItem(item, null, text, start, kids, all);
    if !ok { return; }
    while CharAt(text, pos, COMMA)
      invariant start < pos <= |text| && Building(item, kids, child)
      invariant fresh(NodesOf(kids)) && forall n :: n in NodesOf(kids) ==> allocated(n)
      invariant all == Prepend(ItemsOf(ContentsOf(kids)), AfterItem(text[pos..]))
      invariant AllParsed(ContentsOf(kids), false)
      decreases |text| - pos
    {
      assert text[pos..][1..] == text[pos + 1..];
      ok, child, pos, kids := NextItem(item, child, text, pos + 1, kids, all);
      if !ok { return; }
    }
    ok := CharAt(text, pos, RIGHT_BRACKET);
    if ok {
      assert text[pos..][1..] == text[pos + 1..];
      pos := pos + 1;
    }
  }

  // ----- objects -----

  /** The name of a member between white space, moved from the string field to the name field, and the
      colon behind it. */
  method ParseName(child: CJson, text: Text, start: nat) returns (ok: bool, pos: nat)
    requires start <= |text| && !MemberName(text[start..]).Outside?
    modifies child`kind, child`valuestring, child`name
    ensures ok <==> MemberTail(text[start..]).Ok?
    ensures ok ==> start < pos <= |text| && text[pos..] == MemberTail(text[start..]).rest
    ensures ok ==> child.valuestring == None && child.name == Some(MemberName(text[start..]).value)
  {
    hide JsonSpec.ParseString, JsonSpec.Skip;
    var p := SkipFrom(text, start);
    ok, pos := ParseStringInto(child, text, p);
    if !ok { return; }
    p := SkipFrom(text, pos);
    child.name := child.valuestring;
    child.valuestring := None;
    if !CharAt(text, p, COLON) { return false, p; }
    assert text[p..][1..] == text[p + 1..];
    pos := p + 1;
  }

  /** One member of an object: a linked child, its name, the colon and its value. */
  method ParseMember(parent: CJson, last: CJson?, text: Text, start: nat, ghost ts: seq<Tree>)
    returns (ok: bool, child: CJson, pos: nat, ghost t: Tree)
    requires start <= |text| && !MemberValue(text[start..]).Outside?
    requires WellLinked(ts, parent.child) && last == RootAt(ts, |ts| - 1)
    requires parent !in NodesOf(ts) && forall n :: n in NodesOf(ts) ==> allocated(n)
    modifies parent`child, (if last == null then {} else {last})`next
    ensures ok <==> MemberValue(text[start..]).Ok?
    ensures fresh(Family(t)) && forall n :: n in Family(t) ==> allocated(n)
    ensures ok ==> start < pos <= |text| && text[pos..] == JsonSpec.Skip(MemberValue(text[start..]).rest)
    ensures ok ==> t.node == child && WellLinked(ts + [t], parent.child)
                   && NodesOf(ts + [t]) == NodesOf(ts) + Family(t)
    ensures ok ==> child.name == Some(MemberName(text[start..]).value)
                   && JsonOf(ContentOf(t)) == MemberValue(text[start..]).value && Parsed(ContentOf(t))
    decreases |text| - start, 3
  {
    hide JsonSpec.ParseValue, JsonSpec.Skip, WellLinked, ContentOf, JsonOf, NodesOf, Apart, MemberName, Parsed;
    child := AddChild(parent, last, ts);
    LinkedParts(ts, Tree(child, []), parent.child);
    NoKids();
    t := Tree(child, []);
    ok, pos := ParseName(child, text, start);
    if !ok { return; }
    ghost var kids;
    ok, pos, kids := ParseSpacedValue(child, text, pos);
    t := Tree(child, kids);
    if ok {
      LastFilled(ts, child, kids, parent.child);
    }
  }

  /** One turn of the child loop of `parse_object`, from the text after the brace or comma. */
  method NextMember(item: CJson, last: CJson?, text: Text, start: nat, ghost kids: seq<Tree>,
                    ghost all: JsonSpec.Parse<seq<Member>>)
    returns (ok: bool, child: CJson, pos: nat, ghost more: seq<Tree>)
    requires start <= |text| && Building(item, kids, last) && forall n :: n in NodesOf(kids) ==> allocated(n)
    requires !all.Outside? && all == Prepend(MembersOf(ContentsOf(kids)), JsonSpec.ParseMembers(text[start..]))
    requires AllParsed(ContentsOf(kids), true)
    modifies item`child, (if last == null then {} else {last})`next
    ensures !ok ==> !all.Ok?
    ensures forall n :: n in NodesOf(more) ==> allocated(n)
    ensures fresh(NodesOf(more) - NodesOf(kids))
    ensures ok ==> start < pos <= |text| && Building(item, more, child)
    ensures ok ==> all == Prepend(MembersOf(ContentsOf(more)), AfterMember(text[pos..]))
    ensures ok ==> AllParsed(ContentsOf(more), true)
    decreases |text| - start, 4
  {
    hide JsonSpec.ParseMembers, JsonSpec.Skip, WellLinked, ContentsOf, MembersOf, NodesOf, AfterMember;
    hide ContentOf, JsonOf, MemberValue, MemberName, Parsed, AllParsed;
    MembersUnfold(text[start..]);
    more := kids;
    ghost var t;
    ghost var vals := MembersOf(ContentsOf(kids));
    ok, child, pos, t := ParseMember(item, last, text, start, kids);
    if ok {
      MembersSnoc(kids, t);
      ParsedSnoc(kids, t, true);
      PrependTwice(vals, [JsonSpec.Member(TextOf(t.node.name), JsonOf(ContentOf(t)))], AfterMember(text[pos..]));
      more := kids + [t];
    }
  }

  /** The child loop of `parse_object`, from the first child to the closing brace. */
  method ParseMembers(item: CJson, text: Text, start: nat) returns (ok: bool, pos: nat, ghost kids: seq<Tree>)
    requires start <= |text| && !JsonSpec.ParseMembers(text[start..]).Outside?
    requires item.child == null
    modifies item`child
    ensures ok <==> JsonSpec.ParseMembers(text[start..]).Ok?
    ensures ok ==> var v := JsonSpec.ParseMembers(text[start..]);
      start < pos <= |text| && text[pos..] == v.rest && MembersOf(ContentsOf(kids)) == v.value
      && AllParsed(ContentsOf(kids), true) && WellLinked(kids, item.child) && item !in NodesOf(kids)
    ensures fresh(NodesOf(kids)) && forall n :: n in NodesOf(kids) ==> allocated(n)
    decreases |text| - start, 5
  {
    hide JsonSpec.ParseMembers, WellLinked, ContentsOf, MembersOf, NodesOf, AllParsed;
    NothingBuilt(item);
    kids := [];
    ghost var all := JsonSpec.ParseMembers(text[start..]);
    PrependNothing(all);
    var child;
    ok, child, pos, kids := NextMember(item, null, text, start, kids, all);
    if !ok { return; }
    while CharAt(text, pos, COMMA)
      invariant start < pos <= |text| && Building(item, kids, child)
      invariant fresh(NodesOf(kids)) && forall n :: n in NodesOf(kids) ==> allocated(n)
      invariant all == Prepend(MembersOf(ContentsOf(kids)), AfterMember(text[pos..]))
      invariant AllParsed(ContentsOf(kids), true)
      decreases |text| - pos
    {
      assert text[pos..][1..] == text[pos + 1..];
      ok, child, pos, kids := NextMember(item, child, text, pos + 1, kids, all);
      if !ok { return; }
    }
    ok := CharAt(text, pos, RIGHT_BRACE);
    if ok {
      assert text[pos..][1..] == text[pos + 1..];
      pos := pos + 1;
    }
  }

  /** `parse_object`. */
  method ParseObject(item: CJson, text: Text, start: nat) returns (ok: bool, pos: nat, ghost kids: seq<Tree>)
    requires start <= |text| && !JsonSpec.ParseObject(text[start..]).Outside?
    requires item.child == null
    modifies item`kind, item`child
    ensures ok <==> JsonSpec.ParseObject(text[start..]).Ok?
    ensures ok ==> var v := JsonSpec.ParseObject(text[start..]);
      start < pos <= |text| && text[pos..] == v.rest && Stands(item, kids, v.value)
    ensures fresh(NodesOf(kids)) && forall n :: n in NodesOf(kids) ==> allocated(n)
    decreases |text| - start, 0
  {
    hide JsonSpec.Skip, JsonSpec.ParseMembers, WellLinked, ContentsOf, MembersOf, NodesOf, Stands, AllParsed;
    kids := [];
    NothingBuilt(item);
    if !CharAt(text, start, LEFT_BRACE) { return false, start, kids; }
    assert text[start..][1..] == text[start + 1..];
    item.kind := TYPE_OBJECT;
    pos := SkipFrom(text, start + 1);
    if CharAt(text, pos, RIGHT_BRACE) {
      assert text[pos..][1..] == text[pos + 1..];
      ObjectStands(item, kids);
      return true, pos + 1, kids;
    }
    ok, pos, kids := ParseMembers(item, text, pos);
    if ok { ObjectStands(item, kids); }
  }

  // ----- whole documents -----

  /** What `cJSON_ParseWithOpts` makes of a text. */
  function ParseWith(s: Text, requireEnd: bool): JsonSpec.Parse<Json> {
    if requireEnd then JsonSpec.ParseDocument(s) else JsonSpec.ParseValue(JsonSpec.Skip(s))
  }

  /** `cJSON_ParseWithOpts`: a tree of new nodes, or null. */
  method ParseWithOpts(text: Text, requireEnd: bool) returns (c: CJson?, end: nat, ghost t: Tree)
    requires !JsonSpec.ParseValue(JsonSpec.Skip(text)).Outside?
    ensures fresh(Family(t)) && forall n :: n in Family(t) ==> allocated(n)
    ensures c != null <==> ParseWith(text, requireEnd).Ok?
    ensures c != null ==> var v := JsonSpec.ParseValue(JsonSpec.Skip(text));
      t.node == c && Unlinked(c) && c.name == None
      && JsonOf(ContentOf(t)) == v.value && Parsed(ContentOf(t))
      && WellLinked(t.kids, c.child) && c !in NodesOf(t.kids)
      && end <= |text| && text[end..] == if requireEnd then JsonSpec.Skip(v.rest) else v.rest
  {
    hide JsonSpec.ParseValue, JsonSpec.Skip, WellLinked, ContentOf, JsonOf, NodesOf, Parsed;
    NoKids();
    var root := new CJson();
    t := Tree(root, []);
    assert text[0..] == text;
    var p := SkipFrom(text, 0);
    var ok; ghost var kids;
    ok, end, kids := ParseValue(root, text, p);
    if !ok { return null, end, t; }
    t := Tree(root, kids);
    if requireEnd {
      end := SkipFrom(text, end);
      if end < |text| { return null, end, t; }
    }
    c := root;
  }

  /** Printing a tree and parsing the text, formatted or not, with or without the check for trailing
      text: new nodes exactly if the printed tree is legible, of the value it stood for exactly if no
      string and no member name was missing.  The tree that was printed is left as it was. */
  method PrintThenParse(item: CJson, fmt: bool, requireEnd: bool, ghost t: Tree)
    returns (copy: CJson?, ghost u: Tree)
    requires JsonPrinter.CanPrint(item, t)
    requires forall n :: n in Family(t) ==> allocated(n)
    ensures fresh(Family(u))
    ensures copy != null <==> JsonReread.Legible(ContentOf(t))
    ensures copy != null ==>
      u.node == copy && WellLinked(u.kids, copy.child) && copy !in NodesOf(u.kids)
    ensures copy != null ==> JsonOf(ContentOf(u)) == JsonReread.Reread(ContentOf(t))
    ensures copy != null && JsonOf(ContentOf(u)) == JsonOf(ContentOf(t)) <==> JsonReread.Named(ContentOf(t))
  {
    hide JsonSpec.ParseValue, JsonSpec.Skip, PrintNode, WellLinked, ContentOf, JsonOf, NodesOf;
    hide JsonReread.Legible, JsonReread.Named, JsonReread.Reread, Renderable;
    ghost var c := ContentOf(t);
    ghost var s := PrintNode(c, 0, fmt);
    JsonPrinter.CanPrintNulFree(item, t, 0, fmt);
    var out := JsonPrinter.PrintValue(item, 0, fmt, t);
    var n := StrLen(out, s);
    JsonReread.RereadExactly(c, fmt);
    JsonReread.NamedExactly(c);
    var end;
    copy, end, u := ParseWithOpts(out[..n], requireEnd);
  }

  /** A text whose value can be printed, parsed, printed and parsed again: the second tree has the value
      of the first. */
  method ParsePrintParse(text: Text, fmt: bool, requireEnd: bool)
    returns (c: CJson?, copy: CJson?, ghost t: Tree, ghost u: Tree)
    requires !JsonSpec.ParseValue(JsonSpec.Skip(text)).Outside?
    requires ParseWith(text, requireEnd).Ok? ==> JsonSpec.Printable(ParseWith(text, requireEnd).value)
    ensures c != null <==> ParseWith(text, requireEnd).Ok?
    ensures c != null ==>
      copy != null && t.node == c && u.node == copy && fresh(Family(t)) && fresh(Family(u))
      && JsonOf(ContentOf(t)) == JsonOf(ContentOf(u)) == ParseWith(text, requireEnd).value
  {
    hide JsonSpec.ParseValue, JsonSpec.Skip, WellLinked, Unrolled, ContentOf, JsonOf, NodesOf, Parsed, Renderable;
    hide JsonReread.Legible, JsonReread.Named, JsonReread.Reread;
    var end;
    c, end, t := ParseWithOpts(text, requireEnd);
    u, copy := t, null;
    if c == null { return; }
    ParsedRenderable(ContentOf(t));
    ParsedNamed(ContentOf(t));
    LinkedUnrolled(t.kids, c.child);
    copy, u := PrintThenParse(c, fmt, requireEnd, t);
  }

  lemma {:induction false} LinkedUnrolled(ts: seq<Tree>, first: CJson?)
    requires WellLinked(ts, first)
    ensures Unrolled(ts, first)
    decreases ts
  {
    hide Strung, Backed, Apart;
    forall i | 0 <= i < |ts| ensures Unrolled(ts[i].kids, ts[i].node.child) {
      LinkedUnrolled(ts[i].kids, ts[i].node.child);
    }
  }
}
