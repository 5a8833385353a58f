/** Trees of cJSON nodes, and `cJSON_Duplicate`.

    A ghost `Tree` names the nodes found by following `child` and `next`.
 */
module JsonTree {
  import opened CText
  import opened JsonNode
  import opened Options

  datatype Tree = Tree(node: CJson, kids: seq<Tree>)

  function RootAt(ts: seq<Tree>, i: int): CJson? {
    if 0 <= i < |ts| then ts[i].node else null
  }

  function NodesOf(ts: seq<Tree>): (r: set<CJson>)
    ensures forall i :: 0 <= i < |ts| ==> ts[i].node in r
    ensures forall i :: 0 <= i < |ts| ==> NodesOf(ts[i].kids) <= r
    decreases ts
  {
    if ts == [] then {} else
    var (init, last) := (ts[..|ts| - 1], ts[|ts| - 1]);
    var (front, below) := (NodesOf(init), NodesOf(last.kids));
    assert forall i :: 0 <= i < |ts| - 1 ==>
      ts[i] == init[i] && ts[i].node in front && NodesOf(ts[i].kids) <= front;
    front + {last.node} + below
  }

  function Family(t: Tree): set<CJson> {
    {t.node} + NodesOf(t.kids)
  }

  ghost predicate Strung(ts: seq<Tree>, first: CJson?)
    reads NodesOf(ts)`next
  {
    && first == RootAt(ts, 0)
    && (forall i {:trigger ts[i].node.next} :: 0 <= i < |ts| ==> ts[i].node.next == RootAt(ts, i + 1))
  }

  ghost predicate Backed(ts: seq<Tree>)
    reads NodesOf(ts)`prev
  {
    forall i {:trigger ts[i].node.prev} :: 0 <= i < |ts| ==> ts[i].node.prev == RootAt(ts, i - 1)
  }

  /** Following `child` and `next` from `first` visits exactly these trees. */
  ghost predicate Unrolled(ts: seq<Tree>, first: CJson?)
    reads NodesOf(ts)`next, NodesOf(ts)`child
    decreases ts
  {
    && Strung(ts, first)
    && (forall i :: 0 <= i < |ts| ==> Unrolled(ts[i].kids, ts[i].node.child))
  }

  /** No node occurs twice among these trees. */
  predicate Apart(ts: seq<Tree>) {
    && (forall i, j :: 0 <= i < j < |ts| ==> Family(ts[i]) !! Family(ts[j]))
    && (forall i :: 0 <= i < |ts| ==> ts[i].node !in NodesOf(ts[i].kids))
  }

  /** Well-formed child lists at every level: the head has no predecessor, `next` and `prev` are
      inverse, and no node occurs twice. */
  ghost predicate WellLinked(ts: seq<Tree>, first: CJson?)
    reads NodesOf(ts)`next, NodesOf(ts)`prev, NodesOf(ts)`child
    decreases ts
  {
    && Strung(ts, first)
    && Backed(ts)
    && (forall i :: 0 <= i < |ts| ==> WellLinked(ts[i].kids, ts[i].node.child))
    && Apart(ts)
  }

  /** The fields of a node that `cJSON_Duplicate` copies. */
  datatype Item = Item(kind: nat, valueint: int, valuedouble: Decimal, valuestring: Option<Text>, name: Option<Text>)

  datatype Content = Content(item: Item, kids: seq<Content>)

  ghost function ItemOf(n: CJson): Item
    reads n`kind, n`valueint, n`valuedouble, n`valuestring, n`name
  {
    Item(n.kind, n.valueint, n.valuedouble, n.valuestring, n.name)
  }

  ghost function ContentOf(t: Tree): Content
    reads Family(t)`kind, Family(t)`valueint, Family(t)`valuedouble, Family(t)`valuestring, Family(t)`name
    decreases t, 1
  {
    Content(ItemOf(t.node), ContentsOf(t.kids))
  }

  ghost function ContentsOf(ts: seq<Tree>): (r: seq<Content>)
    reads NodesOf(ts)`kind, NodesOf(ts)`valueint, NodesOf(ts)`valuedouble, NodesOf(ts)`valuestring, NodesOf(ts)`name
    ensures |r| == |ts|
    decreases ts, 0
  {
    if ts == [] then []
    else ContentsOf(ts[..|ts| - 1]) + [ContentOf(ts[|ts| - 1])]
  }

  // ----- building a child list at its end -----

  lemma FamilyWithin(ts: seq<Tree>, i: nat)
    requires i < |ts|
    ensures Family(ts[i]) <= NodesOf(ts)
  {
  }

  lemma {:induction false} PrefixWithin(ts: seq<Tree>, i: nat)
    requires i <= |ts|
    ensures NodesOf(ts[..i]) <= NodesOf(ts)
    decreases |ts|
  {
    if i == |ts| {
      assert ts[..i] == ts;
    } else {
      var init := ts[..|ts| - 1];
      assert init[..i] == ts[..i];
      PrefixWithin(init, i);
    }
  }

  lemma ApartSnoc(ts: seq<Tree>, t: Tree)
    requires Apart(ts) && Family(t) !! NodesOf(ts) && t.node !in NodesOf(t.kids)
    ensures Apart(ts + [t])
    ensures NodesOf(ts + [t]) == NodesOf(ts) + Family(t)
  {
    var all := ts + [t];
    assert all[..|ts|] == ts;
    ApartFromLast(ts, t);
  }

  lemma ApartFromLast(ts: seq<Tree>, t: Tree)
    requires Apart(ts) && Family(t) !! NodesOf(ts) && t.node !in NodesOf(t.kids)
    ensures Apart(ts + [t])
  {
    hide Family, NodesOf;
    var all := ts + [t];
    forall i, j | 0 <= i < j < |all| ensures Family(all[i]) !! Family(all[j]) {
      assert all[i] == ts[i];
      if j == |ts| {
        FamilyWithin(ts, i);
      } else {
        assert all[j] == ts[j];
      }
    }
    forall i | 0 <= i < |all| ensures all[i].node !in NodesOf(all[i].kids) {
      assert i < |ts| ==> all[i] == ts[i];
    }
  }

  /** Linking a new last child, as the loops of `cJSON_Duplicate`, `parse_array` and
      `parse_object` do: `last` is the current last child, or null. */
  method AppendChild(parent: CJson, last: CJson?, item: CJson, ghost ts: seq<Tree>, ghost t: Tree)
    requires WellLinked(ts, parent.child) && last == RootAt(ts, |ts| - 1)
    requires t.node == item && WellLinked(t.kids, item.child) && Unlinked(item)
    requires item !in NodesOf(t.kids) && Family(t) !! NodesOf(ts)
    requires parent !in NodesOf(ts) + Family(t)
    modifies parent`child, (if last == null then {} else {last})`next, item`prev
    ensures WellLinked(ts + [t], parent.child)
  {
    hide Apart, NodesOf, Family;
    ApartSnoc(ts, t);
    LinksOutside(parent, ts, t);
    if last != null {
      last.next := item;
      item.prev := last;
    } else {
      parent.child := item;
    }
    ghost var all := ts + [t];
    StrungSnoc(ts, t, parent.child);
    BackedSnoc(ts, t);
    LinkedSnoc(ts, t, parent.child);
  }

  lemma StrungSnoc(ts: seq<Tree>, t: Tree, first: CJson?)
    requires first == RootAt(ts + [t], 0) && t.node.next == null
    requires ts != [] ==> ts[|ts| - 1].node.next == t.node
    requires forall i {:trigger ts[i].node.next} :: 0 <= i < |ts| - 1 ==> ts[i].node.next == RootAt(ts, i + 1)
    ensures Strung(ts + [t], first)
  {
  }

  lemma BackedSnoc(ts: seq<Tree>, t: Tree)
    requires Backed(ts) && t.node.prev == RootAt(ts, |ts| - 1)
    ensures Backed(ts + [t])
  {
  }

  lemma LinkedSnoc(ts: seq<Tree>, t: Tree, first: CJson?)
    requires Strung(ts + [t], first) && Backed(ts + [t]) && Apart(ts + [t])
    requires forall i :: 0 <= i < |ts| ==> WellLinked(ts[i].kids, ts[i].node.child)
    requires WellLinked(t.kids, t.node.child)
    ensures WellLinked(ts + [t], first)
  {
    hide Strung, Backed, Apart;
    var all := ts + [t];
    forall i | 0 <= i < |all| ensures WellLinked(all[i].kids, all[i].node.child) {
      assert i < |ts| ==> all[i] == ts[i];
    }
  }

  /** The three nodes whose links change lie outside every grandchild list. */
  lemma LinksOutside(parent: CJson, ts: seq<Tree>, t: Tree)
    requires Apart(ts) && Family(t) !! NodesOf(ts) && t.node !in NodesOf(t.kids)
    requires parent !in NodesOf(ts) + Family(t)
    ensures t.node !in NodesOf(ts) && NodesOf(t.kids) !! NodesOf(ts)
    ensures parent !in NodesOf(t.kids) && parent != t.node && t.node !in NodesOf(t.kids)
    ensures forall i :: 0 <= i < |ts| ==> ts[i].node != parent && ts[i].node != t.node
    ensures forall i :: 0 <= i < |ts| ==> NodesOf(ts[i].kids) <= NodesOf(ts)
    ensures forall i :: 0 <= i < |ts| ==> t.node !in NodesOf(ts[i].kids) && parent !in NodesOf(ts[i].kids)
    ensures forall i, j :: 0 <= i < |ts| && 0 <= j < |ts| ==> ts[j].node !in NodesOf(ts[i].kids)
    ensures forall i, j :: 0 <= i < j < |ts| ==> ts[i].node != ts[j].node
    ensures forall i :: 0 <= i < |ts| ==> ts[i].node !in NodesOf(t.kids)
  {
    hide NodesOf;
    KidsOutside(ts);
  }

  /** Among trees that are apart no root occurs twice or below a root. */
  lemma KidsOutside(ts: seq<Tree>)
    requires Apart(ts)
    ensures forall i, j :: 0 <= i < |ts| && 0 <= j < |ts| ==> ts[j].node !in NodesOf(ts[i].kids)
    ensures forall i, j :: 0 <= i < j < |ts| ==> ts[i].node != ts[j].node
  {
    hide NodesOf;
    forall i, j | 0 <= i < |ts| && 0 <= j < |ts| ensures ts[j].node !in NodesOf(ts[i].kids) {
      if i < j {
        assert Family(ts[i]) !! Family(ts[j]);
      } else if j < i {
        assert Family(ts[j]) !! Family(ts[i]);
      }
    }
    forall i, j | 0 <= i < j < |ts| ensures ts[i].node != ts[j].node {
      assert Family(ts[i]) !! Family(ts[j]);
    }
  }

  // ----- cJSON_Duplicate -----

  /** The node type with its reference flag cleared. */
  function ClearReference(kind: nat): nat {
    if kind / IS_REFERENCE % 2 == 1 then kind - IS_REFERENCE else kind
  }

  /** Bit 8 is cleared and no other bit. */
  lemma ReferenceCleared(kind: nat)
    ensures ClearReference(kind) == kind / 512 * 512 + kind % 256
  {
  }

  function ClearedItem(item: Item): Item {
    item.(kind := ClearReference(item.kind))
  }

  /** The same tree with every reference flag cleared. */
  function Cleared(c: Content): Content
    decreases c, 1
  {
    Content(ClearedItem(c.item), ClearedAll(c.kids))
  }

  function ClearedAll(cs: seq<Content>): seq<Content>
    decreases cs, 0
  {
    if cs == [] then [] else ClearedAll(cs[..|cs| - 1]) + [Cleared(cs[|cs| - 1])]
  }

  lemma ContentsSnoc(ts: seq<Tree>, t: Tree)
    ensures ContentsOf(ts + [t]) == ContentsOf(ts) + [ContentOf(t)]
  {
    assert (ts + [t])[..|ts|] == ts;
  }

  lemma ClearedSnoc(cs: seq<Content>, c: Content)
    ensures ClearedAll(cs + [c]) == ClearedAll(cs) + [Cleared(c)]
  {
    assert (cs + [c])[..|cs|] == cs;
  }

  lemma CopiedSnoc(copies: seq<Tree>, v: Tree, kids: seq<Tree>, i: nat)
    requires i < |kids| && ContentsOf(copies) == ClearedAll(ContentsOf(kids[..i]))
    requires ContentOf(v) == Cleared(ContentOf(kids[i]))
    ensures ContentsOf(copies + [v]) == ClearedAll(ContentsOf(kids[..i + 1]))
  {
    hide ContentsOf, ClearedAll, ContentOf, Cleared;
    ContentsSnoc(copies, v);
    ContentsSnoc(kids[..i], kids[i]);
    ClearedSnoc(ContentsOf(kids[..i]), ContentOf(kids[i]));
    assert kids[..i + 1] == kids[..i] + [kids[i]];
  }

  lemma LinkedApart(ts: seq<Tree>, first: CJson?)
    requires WellLinked(ts, first)
    ensures Apart(ts)
  {
  }

  lemma NoKids()
    ensures NodesOf([]) == {} && Apart([]) && ContentsOf([]) == [] && ClearedAll([]) == []
    ensures WellLinked([], null)
  {
  }

  /** `cJSON_Duplicate` when memory does not run out.  The source may share nodes between
      subtrees (references do); the copy never does.  Nothing that existed before is changed. */
  method Duplicate(item: CJson?, recurse: bool, ghost t: Tree) returns (copy: CJson?, ghost u: Tree)
    requires item != null ==> t.node == item && Unrolled(t.kids, item.child)
    requires forall n :: n in Family(t) ==> allocated(n)
    ensures item == null <==> copy == null
    ensures copy != null ==>
      u.node == copy && fresh(Family(u)) && (forall n :: n in Family(u) ==> allocated(n)) && Unlinked(copy)
      && copy !in NodesOf(u.kids) && WellLinked(u.kids, copy.child)
    ensures copy != null && recurse ==> ContentOf(u) == Cleared(ContentOf(t))
    ensures copy != null && !recurse ==> u.kids == [] && ItemOf(copy) == ClearedItem(ItemOf(item))
    decreases t
  {
    hide WellLinked, Apart, NodesOf, ContentsOf, ClearedAll;
    if item == null { return null, t; }
    var newitem := new CJson();
    assert newitem !in Family(t);
    newitem.kind := ClearReference(item.kind);
    newitem.valueint, newitem.valuedouble := item.valueint, item.valuedouble;
    newitem.valuestring, newitem.name := item.valuestring, item.name;
    NoKids();
    copy, u := newitem, Tree(newitem, []);
    if !recurse { return; }
    ghost var copies := DuplicateKids(item, newitem, t);
    u := Tree(newitem, copies);
  }

  /** The child loop of `cJSON_Duplicate`. */
  method DuplicateKids(item: CJson, newitem: CJson, ghost t: Tree) returns (ghost copies: seq<Tree>)
    requires t.node == item && Unrolled(t.kids, item.child)
    requires newitem.child == null && newitem !in Family(t)
    requires forall n :: n in Family(t) ==> allocated(n)
    modifies newitem`child
    ensures WellLinked(copies, newitem.child) && fresh(NodesOf(copies))
    ensures forall n :: n in NodesOf(copies) ==> allocated(n)
    ensures ContentsOf(copies) == ClearedAll(ContentsOf(t.kids))
    decreases t, 0
  {
    hide WellLinked, Apart, NodesOf, ContentsOf, ContentOf, ClearedAll, Cleared, ItemOf, ClearedItem;
    NoKids();
    copies := [];
    ghost var i := 0;
    var cptr := item.child;
    var nptr: CJson? := null;
    while cptr != null
      invariant 0 <= i <= |t.kids| && cptr == RootAt(t.kids, i)
      invariant |copies| == i && nptr == RootAt(copies, i - 1)
      invariant WellLinked(copies, newitem.child) && fresh(NodesOf(copies))
      invariant forall n :: n in NodesOf(copies) ==> allocated(n)
      invariant ContentsOf(copies) == ClearedAll(ContentsOf(t.kids[..i]))
      decreases |t.kids| - i
    {
      ghost var kid := t.kids[i];
      FamilyWithin(t.kids, i);
      PrefixWithin(t.kids, i);
      var newchild; ghost var v;
      newchild, v := Duplicate(cptr, true, kid);
      LinkedApart(copies, newitem.child);
      ApartSnoc(copies, v);
      AppendChild(newitem, nptr, newchild, copies, v);
      nptr := newchild;
      CopiedSnoc(copies, v, t.kids, i);
      copies := copies + [v];
      i := i + 1;
      cptr := cptr.next;
    }
    assert t.kids[..i] == t.kids;
  }
}
