/** The value a node tree stands for, and `print_value`, `print_array` and `print_object` on it. */
module JsonPrint {
  import opened CText
  import JsonSpec
  import opened JsonNode
  import opened JsonTree
  import opened Options

  type Json = JsonSpec.Json
  type Member = JsonSpec.Member

  function TextOf(s: Option<Text>): Text {
    if s.Some? then s.value else []
  }

  /** The JSON value of a tree, by `type & 255`. */
  function JsonOf(c: Content): Json
    decreases c, 1
  {
    var kind := c.item.kind % 256;
    if kind == TYPE_FALSE then JsonSpec.False
    else if kind == TYPE_TRUE then JsonSpec.True
    else if kind == TYPE_NUMBER then JsonSpec.Number(c.item.valuedouble.mantissa, c.item.valuedouble.exponent)
    else if kind == TYPE_STRING then JsonSpec.String(TextOf(c.item.valuestring))
    else if kind == TYPE_ARRAY then JsonSpec.Array(ItemsOf(c.kids))
    else if kind == TYPE_OBJECT then JsonSpec.Object(MembersOf(c.kids))
    else JsonSpec.Null
  }

  function ItemsOf(cs: seq<Content>): (r: seq<Json>)
    ensures |r| == |cs|
    decreases cs, 0
  {
    if cs == [] then [] else ItemsOf(cs[..|cs| - 1]) + [JsonOf(cs[|cs| - 1])]
  }

  function MembersOf(cs: seq<Content>): (r: seq<Member>)
    ensures |r| == |cs|
    decreases cs, 0
  {
    if cs == [] then []
    else
      var c := cs[|cs| - 1];
      MembersOf(cs[..|cs| - 1]) + [JsonSpec.Member(TextOf(c.item.name), JsonOf(c))]
  }

  lemma {:induction false} ItemsAt(cs: seq<Content>, i: nat)
    requires i < |cs|
    ensures ItemsOf(cs)[i] == JsonOf(cs[i])
    decreases |cs|
  {
    if i < |cs| - 1 { ItemsAt(cs[..|cs| - 1], i); }
  }

  lemma {:induction false} MembersAt(cs: seq<Content>, i: nat)
    requires i < |cs|
    ensures MembersOf(cs)[i] == JsonSpec.Member(TextOf(cs[i].item.name), JsonOf(cs[i]))
    decreases |cs|
  {
    if i < |cs| - 1 { MembersAt(cs[..|cs| - 1], i); }
  }

  /** The trees whose rendering is modelled: known kinds, C strings for text, and numbers that are
      32-bit integers stored in both number fields.  Any name and any string value may be missing. */
  predicate Renderable(c: Content)
    decreases c
  {
    var kind := c.item.kind % 256;
    && kind <= TYPE_OBJECT
    && (kind == TYPE_NUMBER ==>
         c.item.valuedouble == Decimal(c.item.valueint, 0)
         && JsonSpec.INT_MIN <= c.item.valueint <= JsonSpec.INT_MAX)
    && (kind == TYPE_STRING ==> NulFree(TextOf(c.item.valuestring)))
    && (kind == TYPE_OBJECT ==> forall i :: 0 <= i < |c.kids| ==> NulFree(TextOf(c.kids[i].item.name)))
    && (kind == TYPE_ARRAY || kind == TYPE_OBJECT ==> forall i :: 0 <= i < |c.kids| ==> Renderable(c.kids[i]))
  }

  // ----- the text of a node tree -----

  /** The rendered entries with their separators and the closing bracket. */
  function JoinedItems(texts: seq<Text>, fmt: bool): Text
    requires texts != []
    decreases |texts|
  {
    texts[0]
    + if |texts| == 1 then [RIGHT_BRACKET]
      else [COMMA] + (if fmt then [SPACE] else []) + JoinedItems(texts[1..], fmt)
  }

  function Indent(n: int, fmt: bool): Text {
    if fmt then JsonSpec.Tabs(n) else []
  }

  /** One rendered member up to and including its value. */
  function MemberText(name: Text, value: Text, fmt: bool): Text {
    name + [COLON] + (if fmt then [TAB] else []) + value
  }

  /** What follows a member: a comma unless it is the last, and a new line in formatted mode. */
  function MemberEnd(last: bool, fmt: bool): Text {
    (if last then [] else [COMMA]) + (if fmt then [LF] else [])
  }

  /** The members from here on, each with its indentation, and the closing brace. */
  function JoinedMembers(names: seq<Text>, values: seq<Text>, depth: int, fmt: bool): Text
    requires |names| == |values|
    decreases |names|
  {
    if names == [] then Indent(depth - 1, fmt) + [RIGHT_BRACE]
    else
      Indent(depth, fmt) + MemberText(names[0], values[0], fmt) + MemberEnd(|names| == 1, fmt)
      + JoinedMembers(names[1..], values[1..], depth, fmt)
  }

  function ObjectBody(names: seq<Text>, values: seq<Text>, depth: int, fmt: bool): Text
    requires |names| == |values|
  {
    [LEFT_BRACE] + (if fmt then [LF] else []) + JoinedMembers(names, values, depth, fmt)
  }

  /** What `print_value` renders for a node tree, missing names and string values included. */
  function PrintNode(c: Content, depth: nat, fmt: bool): Text
    decreases c, 1
  {
    var kind := c.item.kind % 256;
    if kind == TYPE_FALSE then JsonSpec.FALSE_TEXT
    else if kind == TYPE_TRUE then JsonSpec.TRUE_TEXT
    else if kind == TYPE_NUMBER then JsonSpec.IntText(c.item.valueint)
    else if kind == TYPE_STRING then JsonSpec.PrintPtr(c.item.valuestring)
    else if kind == TYPE_ARRAY then
      if c.kids == [] then [LEFT_BRACKET, RIGHT_BRACKET]
      else [LEFT_BRACKET] + JoinedItems(PrintedKids(c.kids, depth + 1, fmt), fmt)
    else if kind == TYPE_OBJECT then
      if c.kids == [] then [LEFT_BRACE] + JsonSpec.Break(depth - 1, fmt) + [RIGHT_BRACE]
      else ObjectBody(PrintedNames(c.kids), PrintedKids(c.kids, depth + 1, fmt), depth + 1, fmt)
    else JsonSpec.NULL_TEXT
  }

  function PrintedKids(cs: seq<Content>, depth: nat, fmt: bool): (r: seq<Text>)
    ensures |r| == |cs|
    ensures forall i :: 0 <= i < |cs| ==> r[i] == PrintNode(cs[i], depth, fmt)
    decreases cs, 0
  {
    if cs == [] then []
    else PrintedKids(cs[..|cs| - 1], depth, fmt) + [PrintNode(cs[|cs| - 1], depth, fmt)]
  }

  function PrintedNames(cs: seq<Content>): (r: seq<Text>)
    ensures |r| == |cs|
    ensures forall i :: 0 <= i < |cs| ==> r[i] == JsonSpec.PrintPtr(cs[i].item.name)
  {
    if cs == [] then []
    else PrintedNames(cs[..|cs| - 1]) + [JsonSpec.PrintPtr(cs[|cs| - 1].item.name)]
  }

  lemma ArrayText(c: Content, depth: nat, fmt: bool)
    requires c.item.kind % 256 == TYPE_ARRAY
    ensures PrintNode(c, depth, fmt) ==
      if c.kids == [] then [LEFT_BRACKET, RIGHT_BRACKET]
      else [LEFT_BRACKET] + JoinedItems(PrintedKids(c.kids, depth + 1, fmt), fmt)
  {
  }

  lemma ObjectText(c: Content, depth: nat, fmt: bool)
    requires c.item.kind % 256 == TYPE_OBJECT
    ensures PrintNode(c, depth, fmt) ==
      if c.kids == [] then [LEFT_BRACE] + JsonSpec.Break(depth - 1, fmt) + [RIGHT_BRACE]
      else ObjectBody(PrintedNames(c.kids), PrintedKids(c.kids, depth + 1, fmt), depth + 1, fmt)
  {
  }

  lemma IndentAssoc(a: Text, b: Text, c: Text, d: Text)
    ensures a + b + c + d == a + (b + c + d)
  {
  }

  // ----- buffers -----

  /** The buffer holds the C string s. */
  ghost predicate Holds(out: array<Byte>, s: Text)
    reads out
  {
    |s| < out.Length && out[..|s|] == s && out[|s|] == NUL
  }

  /** Copies a C string to the write cursor, with its terminator, and moves the cursor onto that. */
  method StrCpy(out: array<Byte>, w0: nat, entry: array<Byte>, ghost s: Text) returns (w: nat)
    requires Holds(entry, s) && NulFree(s) && out != entry && w0 + |s| < out.Length
    modifies out
    ensures w == w0 + |s| && out[..w] == old(out[..w0]) + s && out[w] == NUL
  {
    var i := 0;
    while entry[i] != NUL
      invariant 0 <= i <= |s| && Holds(entry, s)
      invariant out[..w0 + i] == old(out[..w0]) + s[..i]
      decreases |s| - i
    {
      assert i < |s| ==> entry[i] == entry[..|s|][i];
      out[w0 + i] := entry[i];
      assert s[..i + 1] == s[..i] + [s[i]];
      i := i + 1;
    }
    assert s[..i] == s;
    out[w0 + i] := NUL;
    w := w0 + i;
  }

  /** `strlen`. */
  method StrLen(entry: array<Byte>, ghost s: Text) returns (n: nat)
    requires Holds(entry, s) && NulFree(s)
    ensures n == |s|
  {
    n := 0;
    while entry[n] != NUL
      invariant 0 <= n <= |s|
      decreases |s| - n
    {
      HeldByte(entry, s, n);
      n := n + 1;
    }
    HeldByte(entry, s, n);
  }

  lemma HeldByte(entry: array<Byte>, s: Text, i: nat)
    requires Holds(entry, s) && i <= |s|
    ensures entry[i] == if i < |s| then s[i] else NUL
  {
    if i < |s| { assert entry[..|s|][i] == s[i]; }
  }

  /** `cJSON_strdup`, and `sprintf` into a buffer of the given size. */
  method Render(s: Text, size: nat) returns (out: array<Byte>)
    requires |s| < size
    ensures fresh(out) && Holds(out, s)
  {
    out := new Byte[size];
    for i := 0 to |s|
      invariant out[..i] == s[..i]
    {
      out[i] := s[i];
      assert s[..i + 1] == s[..i] + [s[i]];
    }
    assert s[..|s|] == s;
    out[|s|] := NUL;
  }

  // ----- no NUL is ever rendered -----

  lemma NulFreeJoin(s: Text, t: Text)
    requires NulFree(s) && NulFree(t)
    ensures NulFree(s + t)
  {
  }

  lemma {:induction false} EscapedNulFree(s: Text)
    requires NulFree(s)
    ensures NulFree(JsonSpec.EscapeAll(s))
    decreases |s|
  {
    if s != [] {
      EscapedNulFree(s[1..]);
      NulFreeJoin(JsonSpec.EscapeChar(s[0]), JsonSpec.EscapeAll(s[1..]));
    }
  }

  lemma PrintedNulFree(s: Option<Text>)
    requires NulFree(TextOf(s))
    ensures NulFree(JsonSpec.PrintPtr(s))
  {
    EscapedNulFree(TextOf(s));
  }

  lemma {:induction false} TabsNulFree(n: int)
    ensures NulFree(JsonSpec.Tabs(n))
    decreases n
  {
    if n > 0 { TabsNulFree(n - 1); }
  }

  lemma IntTextNulFree(m: int)
    ensures NulFree(JsonSpec.IntText(m))
  {
  }

  lemma {:induction false} ItemsNulFree(texts: seq<Text>, fmt: bool)
    requires texts != [] && (forall i :: 0 <= i < |texts| ==> NulFree(texts[i]))
    ensures NulFree(JoinedItems(texts, fmt))
    decreases |texts|
  {
    if |texts| > 1 { ItemsNulFree(texts[1..], fmt); }
  }

  lemma {:induction false} MembersNulFree(names: seq<Text>, values: seq<Text>, depth: int, fmt: bool)
    requires |names| == |values|
    requires forall i :: 0 <= i < |names| ==> NulFree(names[i]) && NulFree(values[i])
    ensures NulFree(JoinedMembers(names, values, depth, fmt))
    decreases |names|
  {
    TabsNulFree(depth);
    TabsNulFree(depth - 1);
    if names != [] {
      var m := Indent(depth, fmt) + MemberText(names[0], values[0], fmt) + MemberEnd(|names| == 1, fmt);
      assert NulFree(m);
      MembersNulFree(names[1..], values[1..], depth, fmt);
      NulFreeJoin(m, JoinedMembers(names[1..], values[1..], depth, fmt));
    }
  }

  /** The rendered text is one C string. */
  lemma {:induction false} NodeNulFree(c: Content, depth: nat, fmt: bool)
    requires Renderable(c)
    ensures NulFree(PrintNode(c, depth, fmt))
    decreases c, 2
  {
    hide NulFree, JsonSpec.PrintPtr, JsonSpec.IntText, JsonSpec.Tabs;
    hide JoinedItems, JoinedMembers, PrintedKids, PrintedNames;
    WordsNulFree();
    var kind := c.item.kind % 256;
    if kind == TYPE_NUMBER {
      IntTextNulFree(c.item.valueint);
    } else if kind == TYPE_STRING {
      PrintedNulFree(c.item.valuestring);
    } else if kind == TYPE_ARRAY && c.kids != [] {
      KidsNulFree(c, depth + 1, fmt);
      ItemsNulFree(PrintedKids(c.kids, depth + 1, fmt), fmt);
      NulFreeJoin([LEFT_BRACKET], JoinedItems(PrintedKids(c.kids, depth + 1, fmt), fmt));
    } else if kind == TYPE_OBJECT {
      ObjectNulFree(c, depth, fmt);
    }
  }

  lemma {:induction false} KidsNulFree(c: Content, depth: nat, fmt: bool)
    requires Renderable(c) && (c.item.kind % 256 == TYPE_ARRAY || c.item.kind % 256 == TYPE_OBJECT)
    ensures forall i :: 0 <= i < |c.kids| ==> NulFree(PrintedKids(c.kids, depth, fmt)[i])
    decreases c, 0
  {
    hide NulFree, PrintNode, PrintedKids;
    forall i | 0 <= i < |c.kids| ensures NulFree(PrintedKids(c.kids, depth, fmt)[i]) {
      NodeNulFree(c.kids[i], depth, fmt);
    }
  }

  lemma {:induction false} ObjectNulFree(c: Content, depth: nat, fmt: bool)
    requires Renderable(c) && c.item.kind % 256 == TYPE_OBJECT
    ensures NulFree(PrintNode(c, depth, fmt))
    decreases c, 1
  {
    hide NulFree, JsonSpec.PrintPtr, JoinedMembers, JsonSpec.Tabs, PrintedKids, PrintedNames;
    WordsNulFree();
    var line: Text := [LEFT_BRACE] + (if fmt then [LF] else []);
    NulFreeJoin([LEFT_BRACE], if fmt then [LF] else []);
    if c.kids == [] {
      TabsNulFree(depth - 1);
      NulFreeJoin([LF], JsonSpec.Tabs(depth - 1));
      NulFreeJoin([LEFT_BRACE], JsonSpec.Break(depth - 1, fmt));
      NulFreeJoin([LEFT_BRACE] + JsonSpec.Break(depth - 1, fmt), [RIGHT_BRACE]);
    } else {
      var (xs, ys) := (PrintedNames(c.kids), PrintedKids(c.kids, depth + 1, fmt));
      KidsNulFree(c, depth + 1, fmt);
      forall i | 0 <= i < |c.kids| ensures NulFree(xs[i]) { PrintedNulFree(c.kids[i].item.name); }
      MembersNulFree(xs, ys, depth + 1, fmt);
      NulFreeJoin(line, JoinedMembers(xs, ys, depth + 1, fmt));
    }
  }

  lemma WordsNulFree()
    ensures NulFree(JsonSpec.NULL_TEXT) && NulFree(JsonSpec.FALSE_TEXT) && NulFree(JsonSpec.TRUE_TEXT)
    ensures NulFree([LEFT_BRACKET]) && NulFree([LEFT_BRACE]) && NulFree([RIGHT_BRACE])
    ensures NulFree([LEFT_BRACKET, RIGHT_BRACKET]) && NulFree([LF]) && NulFree([])
  {
  }
}
