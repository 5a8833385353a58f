/** `print_value` and its two list printers: the children are rendered first, the lengths of the
    results are added up, and the output is composed in a buffer of that size. */
module JsonPrinter {
  import opened CText
  import JsonSpec
  import opened JsonNode
  import opened JsonTree
  import opened JsonPrint
  import JsonStringBuffers

  /** The array of rendered entries. */
  ghost predicate HoldsAll(entries: seq<array<Byte>>, texts: seq<Text>)
    reads entries
  {
    && |entries| == |texts|
    && (forall i :: 0 <= i < |texts| ==> Holds(entries[i], texts[i]) && NulFree(texts[i]))
  }

  // ----- arrays -----

  /** The length added up for the entries: each one's own, two bytes more, and a third in formatted
      mode. */
  function ArrayReserve(texts: seq<Text>, fmt: bool): nat
    decreases |texts|
  {
    if texts == [] then 0
    else ArrayReserve(texts[..|texts| - 1], fmt) + |texts[|texts| - 1]| + 2 + (if fmt then 1 else 0)
  }

  lemma ArrayReserveSnoc(texts: seq<Text>, x: Text, fmt: bool)
    ensures ArrayReserve(texts + [x], fmt) == ArrayReserve(texts, fmt) + |x| + 2 + (if fmt then 1 else 0)
  {
    assert (texts + [x])[..|texts|] == texts;
  }

  lemma {:induction false} ArrayReserveFront(texts: seq<Text>, fmt: bool)
    requires texts != []
    ensures ArrayReserve(texts, fmt) == |texts[0]| + 2 + (if fmt then 1 else 0) + ArrayReserve(texts[1..], fmt)
    decreases |texts|
  {
    var n := |texts| - 1;
    if n > 0 {
      var init := texts[..n];
      ArrayReserveFront(init, fmt);
      assert init[1..] == texts[1..][..n - 1];
    }
  }

  /** Composing the entries never needs more than was added up for them. */
  lemma {:induction false} JoinedItemsFit(texts: seq<Text>, fmt: bool)
    requires texts != []
    ensures |JoinedItems(texts, fmt)| <= ArrayReserve(texts, fmt)
    decreases |texts|
  {
    ArrayReserveFront(texts, fmt);
    if |texts| > 1 {
      JoinedItemsFit(texts[1..], fmt);
    }
  }

  /** One turn of the composing loop of `print_array`. */
  method ComposeItem(out: array<Byte>, w0: nat, entry: array<Byte>, ghost s: Text, last: bool, fmt: bool)
    returns (w: nat)
    requires Holds(entry, s) && NulFree(s) && out != entry
    requires w0 + |s| + (if last then 0 else if fmt then 2 else 1) < out.Length
    modifies out
    ensures w == w0 + |s| + (if last then 0 else if fmt then 2 else 1)
    ensures out[..w] == old(out[..w0]) + s
                        + (if last then [] else [COMMA] + (if fmt then [SPACE] else []))
  {
    w := StrCpy(out, w0, entry, s);
    if !last {
      out[w] := COMMA;
      w := w + 1;
      if fmt {
        out[w] := SPACE;
        w := w + 1;
      }
      out[w] := NUL;
    }
  }

  /** The composing loop of `print_array`. */
  method ComposeArray(entries: seq<array<Byte>>, len: nat, fmt: bool, ghost texts: seq<Text>)
    returns (out: array<Byte>)
    requires entries != [] && HoldsAll(entries, texts) && len == 5 + ArrayReserve(texts, fmt)
    ensures fresh(out) && Holds(out, [LEFT_BRACKET] + JoinedItems(texts, fmt))
  {
    hide JoinedItems, ArrayReserve, Holds;
    JoinedItemsFit(texts, fmt);
    JoinedItemsNonempty(texts, fmt);
    ghost var all := [LEFT_BRACKET] + JoinedItems(texts, fmt);
    out := new Byte[len];
    out[0] := LEFT_BRACKET;
    var w := 1;
    out[w] := NUL;
    var i := 0;
    assert texts[0..] == texts;
    assert out[..1] == [LEFT_BRACKET];
    while i < |entries|
      invariant 0 <= i <= |entries| && 0 <= w < |all| < out.Length
      invariant HoldsAll(entries, texts)
      invariant i < |entries| ==> out[..w] + JoinedItems(texts[i..], fmt) == all
      invariant i == |entries| ==> out[..w] + [RIGHT_BRACKET] == all
    {
      JoinedItemsTurn(out[..w], texts, i, fmt);
      w := ComposeItem(out, w, entries[i], texts[i], i == |entries| - 1, fmt);
      i := i + 1;
    }
    out[w] := RIGHT_BRACKET;
    out[w + 1] := NUL;
    HoldsText(out, all);
  }

  lemma HoldsText(out: array<Byte>, s: Text)
    requires |s| < out.Length && out[..|s|] == s && out[|s|] == NUL
    ensures Holds(out, s)
  {
  }

  lemma JoinedItemsTurn(p: Text, texts: seq<Text>, i: nat, fmt: bool)
    requires i < |texts|
    ensures var all := p + JoinedItems(texts[i..], fmt);
      if i == |texts| - 1 then p + texts[i] + [] + [RIGHT_BRACKET] == all
      else
        var q := p + texts[i] + ([COMMA] + (if fmt then [SPACE] else []));
        && q + JoinedItems(texts[i + 1..], fmt) == all
        && |JoinedItems(texts[i + 1..], fmt)| > 0
  {
    if i < |texts| - 1 {
      assert texts[i..][1..] == texts[i + 1..];
      JoinedItemsNonempty(texts[i + 1..], fmt);
    }
  }

  lemma JoinedItemsNonempty(texts: seq<Text>, fmt: bool)
    requires texts != []
    ensures |JoinedItems(texts, fmt)| > 0
  {
  }

  // ----- objects -----

  /** The length added up for one member: its value's and its name's, two bytes more, and in formatted
      mode another two and the indentation. */
  function MemberReserve(name: Text, value: Text, depth: nat, fmt: bool): nat {
    |value| + |name| + 2 + (if fmt then 2 + depth else 0)
  }

  function ObjectReserve(names: seq<Text>, values: seq<Text>, depth: nat, fmt: bool): nat
    requires |names| == |values|
    decreases |names|
  {
    if names == [] then 0
    else
      var n := |names| - 1;
      ObjectReserve(names[..n], values[..n], depth, fmt) + MemberReserve(names[n], values[n], depth, fmt)
  }

  lemma ObjectReserveSnoc(names: seq<Text>, values: seq<Text>, x: Text, y: Text, depth: nat, fmt: bool)
    requires |names| == |values|
    ensures ObjectReserve(names + [x], values + [y], depth, fmt)
         == ObjectReserve(names, values, depth, fmt) + MemberReserve(x, y, depth, fmt)
  {
    assert (names + [x])[..|names|] == names && (values + [y])[..|names|] == values;
  }

  lemma {:induction false} ObjectReserveFront(names: seq<Text>, values: seq<Text>, depth: nat, fmt: bool)
    requires |names| == |values| > 0
    ensures ObjectReserve(names, values, depth, fmt)
         == MemberReserve(names[0], values[0], depth, fmt) + ObjectReserve(names[1..], values[1..], depth, fmt)
    decreases |names|
  {
    hide MemberReserve;
    var n := |names| - 1;
    if n > 0 {
      ObjectReserveFront(names[..n], values[..n], depth, fmt);
      assert names[..n][1..] == names[1..][..n - 1] && values[..n][1..] == values[1..][..n - 1];
    }
  }

  lemma {:induction false} TabsLength(n: int)
    ensures |JsonSpec.Tabs(n)| == if n <= 0 then 0 else n
    decreases n
  {
    if n > 0 { TabsLength(n - 1); }
  }

  /** `7 + depth` and the members' lengths cover the braces, the indentation and the terminator. */
  lemma {:induction false} JoinedMembersFit(names: seq<Text>, values: seq<Text>, depth: nat, fmt: bool)
    requires |names| == |values|
    ensures |JoinedMembers(names, values, depth, fmt)|
         <= ObjectReserve(names, values, depth, fmt) + 1 + (if fmt then depth else 0)
    decreases |names|
  {
    TabsLength(depth);
    TabsLength(depth - 1);
    if names != [] {
      ObjectReserveFront(names, values, depth, fmt);
      JoinedMembersFit(names[1..], values[1..], depth, fmt);
    }
  }

  /** Writes the indentation, one tab for each level. */
  method WriteTabs(out: array<Byte>, w0: nat, n: int) returns (w: nat)
    requires w0 + |JsonSpec.Tabs(n)| <= out.Length
    modifies out
    ensures w == w0 + |JsonSpec.Tabs(n)| && out[..w] == old(out[..w0]) + JsonSpec.Tabs(n)
  {
    TabsLength(n);
    w := w0;
    var j := 0;
    while j < n
      invariant 0 <= j && (n < 0 ==> j == 0) && (n >= 0 ==> j <= n) && w == w0 + j
      invariant out[..w] + JsonSpec.Tabs(n - j) == old(out[..w0]) + JsonSpec.Tabs(n)
    {
      out[w] := TAB;
      w := w + 1;
      j := j + 1;
    }
    assert JsonSpec.Tabs(n - j) == [];
  }

  /** Writes one byte at the cursor and moves it on. */
  method Put(out: array<Byte>, w0: nat, c: Byte) returns (w: nat)
    requires w0 < out.Length
    modifies out
    ensures w == w0 + 1 && out[..w] == old(out[..w0]) + [c]
  {
    out[w0] := c;
    w := w0 + 1;
  }

  /** The name, the colon and the value of one member. */
  method WriteMember(out: array<Byte>, w0: nat, name: array<Byte>, value: array<Byte>,
                     ghost x: Text, ghost y: Text, fmt: bool) returns (w: nat)
    requires Holds(name, x) && NulFree(x) && Holds(value, y) && NulFree(y) && out != name && out != value
    requires w0 + |MemberText(x, y, fmt)| < out.Length
    modifies out
    ensures w == w0 + |MemberText(x, y, fmt)|
    ensures out[..w] == old(out[..w0]) + MemberText(x, y, fmt)
  {
    hide NulFree;
    w := StrCpy(out, w0, name, x);
    w := Put(out, w, COLON);
    ghost var tab: Text := if fmt then [TAB] else [];
    if fmt { w := Put(out, w, TAB); }
    assert out[..w] == old(out[..w0]) + x + [COLON] + tab;
    w := StrCpy(out, w, value, y);
  }

  /** One turn of the composing loop of `print_object`. */
  method ComposeMember(out: array<Byte>, w0: nat, name: array<Byte>, value: array<Byte>,
                       ghost x: Text, ghost y: Text, last: bool, depth: nat, fmt: bool) returns (w: nat)
    requires Holds(name, x) && NulFree(x) && Holds(value, y) && NulFree(y) && out != name && out != value
    requires w0 + |Indent(depth, fmt) + MemberText(x, y, fmt) + MemberEnd(last, fmt)| < out.Length
    modifies out
    ensures w == w0 + |Indent(depth, fmt) + MemberText(x, y, fmt) + MemberEnd(last, fmt)|
    ensures out[..w] == old(out[..w0]) + (Indent(depth, fmt) + MemberText(x, y, fmt) + MemberEnd(last, fmt))
  {
    hide JsonSpec.Tabs, MemberText, NulFree;
    w := w0;
    if fmt { w := WriteTabs(out, w, depth); }
    assert out[..w] == old(out[..w0]) + Indent(depth, fmt);
    w := WriteMember(out, w, name, value, x, y, fmt);
    ghost var p := out[..w];
    if !last { w := Put(out, w, COMMA); }
    if fmt { w := Put(out, w, LF); }
    assert out[..w] == p + MemberEnd(last, fmt);
    out[w] := NUL;
    hide *;
    IndentAssoc(old(out[..w0]), Indent(depth, fmt), MemberText(x, y, fmt), MemberEnd(last, fmt));
  }

  lemma MembersTurn(p: Text, names: seq<Text>, values: seq<Text>, i: nat, depth: nat, fmt: bool)
    requires i < |names| == |values|
    ensures var piece := Indent(depth, fmt) + MemberText(names[i], values[i], fmt) + MemberEnd(i == |names| - 1, fmt);
      && p + JoinedMembers(names[i..], values[i..], depth, fmt)
         == p + piece + JoinedMembers(names[i + 1..], values[i + 1..], depth, fmt)
      && |JoinedMembers(names[i + 1..], values[i + 1..], depth, fmt)| > 0
  {
    hide Indent, MemberText, MemberEnd;
    assert names[i..][1..] == names[i + 1..] && values[i..][1..] == values[i + 1..];
    JoinedMembersNonempty(names[i + 1..], values[i + 1..], depth, fmt);
  }

  lemma JoinedMembersNonempty(names: seq<Text>, values: seq<Text>, depth: int, fmt: bool)
    requires |names| == |values|
    ensures |JoinedMembers(names, values, depth, fmt)| > 0
    decreases |names|
  {
    if names != [] { JoinedMembersNonempty(names[1..], values[1..], depth, fmt); }
  }

  lemma JoinedMembersDone(depth: int, fmt: bool)
    ensures JoinedMembers([], [], depth, fmt) == Indent(depth - 1, fmt) + [RIGHT_BRACE]
  {
  }

  /** The composing loop of `print_object`; `depth` has already been incremented. */
  method ComposeObject(names: seq<array<Byte>>, entries: seq<array<Byte>>, len: nat, depth: nat, fmt: bool,
                       ghost xs: seq<Text>, ghost ys: seq<Text>) returns (out: array<Byte>)
    requires |names| == |entries| && HoldsAll(names, xs) && HoldsAll(entries, ys)
    requires len == 7 + (if fmt then depth else 0) + ObjectReserve(xs, ys, depth, fmt)
    ensures fresh(out)
    ensures Holds(out, ObjectBody(xs, ys, depth, fmt))
  {
    hide JoinedMembers, ObjectReserve, MemberText, MemberEnd, Holds, NulFree, JsonSpec.Tabs;
    JoinedMembersFit(xs, ys, depth, fmt);
    JoinedMembersNonempty(xs, ys, depth, fmt);
    ghost var all := ObjectBody(xs, ys, depth, fmt);
    out := new Byte[len];
    var w := Put(out, 0, LEFT_BRACE);
    if fmt { w := Put(out, w, LF); }
    out[w] := NUL;
    var i := 0;
    assert xs[0..] == xs && ys[0..] == ys;
    while i < |names|
      invariant 0 <= i <= |names| && 0 <= w < |all| < out.Length
      invariant HoldsAll(names, xs) && HoldsAll(entries, ys)
      invariant out[..w] + JoinedMembers(xs[i..], ys[i..], depth, fmt) == all
    {
      MembersTurn(out[..w], xs, ys, i, depth, fmt);
      w := ComposeMember(out, w, names[i], entries[i], xs[i], ys[i], i == |names| - 1, depth, fmt);
      i := i + 1;
    }
    assert xs[i..] == [] && ys[i..] == [];
    JoinedMembersDone(depth, fmt);
    w := CloseObject(out, w, depth, fmt);
    HoldsText(out, all);
  }

  /** The indentation and the brace behind the last member. */
  method CloseObject(out: array<Byte>, w0: nat, depth: nat, fmt: bool) returns (w: nat)
    requires w0 + |Indent(depth - 1, fmt) + [RIGHT_BRACE]| < out.Length
    modifies out
    ensures w == w0 + |Indent(depth - 1, fmt) + [RIGHT_BRACE]| && out[w] == NUL
    ensures out[..w] == old(out[..w0]) + (Indent(depth - 1, fmt) + [RIGHT_BRACE])
  {
    hide JsonSpec.Tabs;
    w := w0;
    if fmt { w := WriteTabs(out, w, depth - 1); }
    w := Put(out, w, RIGHT_BRACE);
    out[w] := NUL;
  }

  // ----- the recursive printer -----

  /** Everything `print_value` needs to know of a tree. */
  ghost predicate CanPrint(item: CJson, t: Tree)
    reads Family(t)
  {
    t.node == item && Unrolled(t.kids, item.child) && Renderable(ContentOf(t))
  }

  /** Counts the children of a node along their `next` links. */
  method CountChildren(item: CJson, ghost t: Tree) returns (n: nat)
    requires t.node == item && Unrolled(t.kids, item.child)
    ensures n == |t.kids|
  {
    n := 0;
    var child := item.child;
    while child != null
      invariant 0 <= n <= |t.kids| && child == RootAt(t.kids, n)
      decreases |t.kids| - n
    {
      n := n + 1;
      child := child.next;
    }
  }

  lemma {:induction false} ContentsAt(ts: seq<Tree>, i: nat)
    requires i < |ts|
    ensures ContentsOf(ts)[i] == ContentOf(ts[i])
    decreases |ts|
  {
    if i < |ts| - 1 { ContentsAt(ts[..|ts| - 1], i); }
  }

  /** The children of a printable array or object are printable, and so are their names. */
  lemma KidCanPrint(item: CJson, t: Tree, i: nat)
    requires CanPrint(item, t) && i < |t.kids|
    requires item.kind % 256 == TYPE_ARRAY || item.kind % 256 == TYPE_OBJECT
    ensures CanPrint(t.kids[i].node, t.kids[i])
    ensures ContentOf(t).kids[i] == ContentOf(t.kids[i])
    ensures item.kind % 256 == TYPE_OBJECT ==> NulFree(TextOf(t.kids[i].node.name))
  {
    hide NulFree;
    ContentsAt(t.kids, i);
  }

  /** `print_value`. */
  method PrintValue(item: CJson, depth: nat, fmt: bool, ghost t: Tree) returns (out: array<Byte>)
    requires CanPrint(item, t)
    requires forall n :: n in Family(t) ==> allocated(n)
    ensures fresh(out) && Holds(out, PrintNode(ContentOf(t), depth, fmt))
    decreases t, 3
  {
    hide NulFree, JsonSpec.PrintPtr, JsonSpec.IntText, JoinedItems, JoinedMembers, PrintedKids, PrintedNames;
    var kind := item.kind % 256;
    if kind == TYPE_NULL {
      out := Render(JsonSpec.NULL_TEXT, 5);
    } else if kind == TYPE_FALSE {
      out := Render(JsonSpec.FALSE_TEXT, 6);
    } else if kind == TYPE_TRUE {
      out := Render(JsonSpec.TRUE_TEXT, 5);
    } else if kind == TYPE_NUMBER {
      IntTextFits(item.valueint);
      out := Render(JsonSpec.IntText(item.valueint), 21);
    } else if kind == TYPE_STRING {
      out := JsonStringBuffers.PrintStringPtr(item.valuestring);
      HoldsAllOf(out, JsonSpec.PrintPtr(item.valuestring));
    } else if kind == TYPE_ARRAY {
      out := PrintArray(item, depth, fmt, t);
    } else {
      out := PrintObject(item, depth, fmt, t);
    }
  }

  lemma HoldsAllOf(out: array<Byte>, s: Text)
    requires out[..] == s + [NUL]
    ensures Holds(out, s)
  {
    assert |out[..]| == |s| + 1;
    assert out[..|s|] == out[..][..|s|];
    assert out[|s|] == out[..][|s|];
  }

  /** A rendered 32-bit integer and its terminator fit the 21 bytes reserved for them. */
  lemma IntTextFits(m: int)
    requires JsonSpec.INT_MIN <= m <= JsonSpec.INT_MAX
    ensures |JsonSpec.IntText(m)| <= 11
  {
    DigitsLength(if m < 0 then -m else m, 10);
  }

  function PowerOfTen(k: nat): nat {
    if k == 0 then 1 else 10 * PowerOfTen(k - 1)
  }

  lemma {:induction false} DigitsLength(n: nat, k: nat)
    requires 0 < k && n < PowerOfTen(k)
    ensures |JsonSpec.Digits(n)| <= k
    decreases k
  {
    if n >= 10 {
      DigitsLength(n / 10, k - 1);
    }
  }

  /** `print_array`. */
  method PrintArray(item: CJson, depth: nat, fmt: bool, ghost t: Tree) returns (out: array<Byte>)
    requires CanPrint(item, t) && item.kind % 256 == TYPE_ARRAY
    requires forall n :: n in Family(t) ==> allocated(n)
    ensures fresh(out) && Holds(out, PrintNode(ContentOf(t), depth, fmt))
    decreases t, 2
  {
    hide PrintNode, ArrayReserve, Holds, Renderable;
    ghost var c := ContentOf(t);
    ArrayText(c, depth, fmt);
    var numentries := CountChildren(item, t);
    if numentries == 0 {
      out := Render([LEFT_BRACKET, RIGHT_BRACKET], 3);
    } else {
      var entries, len := PrintEntries(item, depth + 1, fmt, t, c);
      out := ComposeArray(entries, len, fmt, PrintedKids(c.kids, depth + 1, fmt));
    }
  }

  /** One child of an array or object: rendered, and measured with `strlen`. */
  method PrintEntry(item: CJson, child: CJson, depth: nat, fmt: bool, ghost t: Tree, ghost c: Content, ghost i: nat)
    returns (ret: array<Byte>, n: nat)
    requires CanPrint(item, t) && ContentOf(t) == c
    requires item.kind % 256 == TYPE_ARRAY || item.kind % 256 == TYPE_OBJECT
    requires i < |t.kids| == |c.kids| && child == t.kids[i].node
    requires forall n :: n in Family(t) ==> allocated(n)
    ensures fresh(ret) && Holds(ret, PrintedKids(c.kids, depth, fmt)[i])
    ensures NulFree(PrintedKids(c.kids, depth, fmt)[i]) && n == |PrintedKids(c.kids, depth, fmt)[i]|
    decreases t, 0
  {
    hide CanPrint, Holds, NulFree, ContentOf, PrintNode;
    FamilyWithin(t.kids, i);
    assert Family(t.kids[i]) <= Family(t);
    KidCanPrint(item, t, i);
    CanPrintNulFree(child, t.kids[i], depth, fmt);
    ghost var s := PrintNode(c.kids[i], depth, fmt);
    ret := PrintValue(child, depth, fmt, t.kids[i]);
    n := StrLen(ret, s);
  }

  /** The collecting loop of `print_array`. */
  method PrintEntries(item: CJson, depth: nat, fmt: bool, ghost t: Tree, ghost c: Content)
    returns (entries: seq<array<Byte>>, len: nat)
    requires CanPrint(item, t) && ContentOf(t) == c && item.kind % 256 == TYPE_ARRAY
    requires forall n :: n in Family(t) ==> allocated(n)
    ensures HoldsAll(entries, PrintedKids(c.kids, depth, fmt))
    ensures len == 5 + ArrayReserve(PrintedKids(c.kids, depth, fmt), fmt)
    decreases t, 1
  {
    hide ArrayReserve, CanPrint, Holds, NulFree, ContentOf, PrintedKids, Family, Unrolled;
    ghost var texts := PrintedKids(c.kids, depth, fmt);
    entries, len := [], 5;
    ghost var i := 0;
    CanPrintList(item, t);
    EmptyReserve(fmt);
    var child := item.child;
    while child != null
      invariant 0 <= i <= |t.kids| == |texts| && child == RootAt(t.kids, i)
      invariant HoldsAll(entries, texts[..i]) && len == 5 + ArrayReserve(texts[..i], fmt)
      decreases |t.kids| - i
    {
      var ret, n := PrintEntry(item, child, depth, fmt, t, c, i);
      entries := entries + [ret];
      len := len + n + 2 + (if fmt then 1 else 0);
      assert texts[..i + 1] == texts[..i] + [texts[i]];
      ArrayReserveSnoc(texts[..i], texts[i], fmt);
      CanPrintList(item, t);
      i := i + 1;
      child := child.next;
    }
    assert texts[..i] == texts;
  }

  lemma EmptyReserve(fmt: bool)
    ensures ArrayReserve([], fmt) == 0
  {
  }

  lemma CanPrintList(item: CJson, t: Tree)
    requires CanPrint(item, t)
    ensures t.node == item && Strung(t.kids, item.child) && |ContentOf(t).kids| == |t.kids|
  {
  }

  lemma CanPrintNulFree(item: CJson, t: Tree, depth: nat, fmt: bool)
    requires CanPrint(item, t)
    ensures NulFree(PrintNode(ContentOf(t), depth, fmt))
  {
    NodeNulFree(ContentOf(t), depth, fmt);
  }

  /** `print_object`. */
  method PrintObject(item: CJson, depth: nat, fmt: bool, ghost t: Tree) returns (out: array<Byte>)
    requires CanPrint(item, t) && item.kind % 256 == TYPE_OBJECT
    requires forall n :: n in Family(t) ==> allocated(n)
    ensures fresh(out) && Holds(out, PrintNode(ContentOf(t), depth, fmt))
    decreases t, 2
  {
    hide PrintNode, ObjectBody, ObjectReserve, Holds, Renderable, PrintedNames, PrintedKids, JsonSpec.Break, Unrolled;
    ghost var c := ContentOf(t);
    ObjectText(c, depth, fmt);
    var numentries := CountChildren(item, t);
    if numentries == 0 {
      out := PrintEmptyObject(depth, fmt);
    } else {
      ghost var xs, ys := PrintedNames(c.kids), PrintedKids(c.kids, depth + 1, fmt);
      var names, entries, len := PrintMembers(item, depth + 1, fmt, t, c);
      out := ComposeObject(names, entries, len, depth + 1, fmt, xs, ys);
    }
    assert ContentOf(t) == c;
  }

  /** The empty object has its own reservation, `depth+4` bytes in formatted mode, which leaves a
      byte to spare below the top level. */
  method PrintEmptyObject(depth: nat, fmt: bool) returns (out: array<Byte>)
    ensures fresh(out)
    ensures Holds(out, [LEFT_BRACE] + JsonSpec.Break(depth - 1, fmt) + [RIGHT_BRACE])
  {
    hide JsonSpec.Tabs;
    TabsLength(depth - 1);
    out := new Byte[if fmt then depth + 4 else 3];
    var w := Put(out, 0, LEFT_BRACE);
    if fmt {
      w := Put(out, w, LF);
      w := WriteTabs(out, w, depth - 1);
    }
    assert out[..w] == [LEFT_BRACE] + JsonSpec.Break(depth - 1, fmt);
    w := Put(out, w, RIGHT_BRACE);
    out[w] := NUL;
  }

  /** The name of one child of an object, rendered and measured. */
  method PrintName(child: CJson, ghost s: Text) returns (str: array<Byte>, m: nat)
    requires NulFree(TextOf(child.name)) && s == JsonSpec.PrintPtr(child.name)
    ensures fresh(str) && Holds(str, s) && NulFree(s) && m == |s|
  {
    hide NulFree, Holds;
    PrintedNulFree(child.name);
    str := JsonStringBuffers.PrintStringPtr(child.name);
    HoldsAllOf(str, s);
    m := StrLen(str, s);
  }

  /** The collecting loop of `print_object`. */
  method PrintMembers(item: CJson, depth: nat, fmt: bool, ghost t: Tree, ghost c: Content)
    returns (names: seq<array<Byte>>, entries: seq<array<Byte>>, len: nat)
    requires CanPrint(item, t) && ContentOf(t) == c && item.kind % 256 == TYPE_OBJECT
    requires forall n :: n in Family(t) ==> allocated(n)
    ensures HoldsAll(names, PrintedNames(c.kids)) && HoldsAll(entries, PrintedKids(c.kids, depth, fmt))
    ensures len == 7 + (if fmt then depth else 0)
                   + ObjectReserve(PrintedNames(c.kids), PrintedKids(c.kids, depth, fmt), depth, fmt)
    decreases t, 1
  {
    hide ObjectReserve, CanPrint, Holds, NulFree, ContentOf, PrintedKids, PrintedNames, Family, Unrolled;
    hide JsonSpec.PrintPtr;
    ghost var xs, ys := PrintedNames(c.kids), PrintedKids(c.kids, depth, fmt);
    names, entries, len := [], [], 7 + (if fmt then depth else 0);
    ghost var i := 0;
    CanPrintList(item, t);
    EmptyObjectReserve(depth, fmt);
    var child := item.child;
    while child != null
      invariant 0 <= i <= |t.kids| == |xs| == |ys| && child == RootAt(t.kids, i)
      invariant HoldsAll(names, xs[..i]) && HoldsAll(entries, ys[..i])
      invariant len == 7 + (if fmt then depth else 0) + ObjectReserve(xs[..i], ys[..i], depth, fmt)
      decreases |t.kids| - i
    {
      KidName(item, t, c, i);
      var str, m := PrintName(child, xs[i]);
      var ret, n := PrintEntry(item, child, depth, fmt, t, c, i);
      names, entries := names + [str], entries + [ret];
      len := len + n + m + 2 + (if fmt then 2 + depth else 0);
      assert xs[..i + 1] == xs[..i] + [xs[i]] && ys[..i + 1] == ys[..i] + [ys[i]];
      ObjectReserveSnoc(xs[..i], ys[..i], xs[i], ys[i], depth, fmt);
      CanPrintList(item, t);
      i := i + 1;
      child := child.next;
    }
    assert xs[..i] == xs && ys[..i] == ys;
  }

  lemma KidName(item: CJson, t: Tree, c: Content, i: nat)
    requires CanPrint(item, t) && ContentOf(t) == c && item.kind % 256 == TYPE_OBJECT && i < |t.kids|
    ensures NulFree(TextOf(t.kids[i].node.name))
    ensures PrintedNames(c.kids)[i] == JsonSpec.PrintPtr(t.kids[i].node.name)
  {
    KidCanPrint(item, t, i);
  }

  lemma EmptyObjectReserve(depth: nat, fmt: bool)
    ensures ObjectReserve([], [], depth, fmt) == 0
  {
  }
}
