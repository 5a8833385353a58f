/** The cJSON node and the doubly linked list of children under it. */
module JsonNode {
  import opened CText
  import opened Options

  /** The exact value of a parsed number, `mantissa * 10^exponent`. */
  datatype Decimal = Decimal(mantissa: int, exponent: int)

  const TYPE_FALSE := 0
  const TYPE_TRUE := 1
  const TYPE_NULL := 2
  const TYPE_NUMBER := 3
  const TYPE_STRING := 4
  const TYPE_ARRAY := 5
  const TYPE_OBJECT := 6
  const IS_REFERENCE := 256

  class CJson {
    var next: CJson?
    var prev: CJson?
    var child: CJson?
    var kind: nat                   // the field `type`
    var valuestring: Option<Text>
    var valueint: int
    var valuedouble: Decimal
    var name: Option<Text>          // the field `string`

    /** `cJSON_New_Item`: a node of zero bytes. */
    constructor ()
      ensures next == null && prev == null && child == null
      ensures kind == 0 && valueint == 0 && valuedouble == Decimal(0, 0)
      ensures valuestring == None && name == None
    {
      next, prev, child := null, null, null;
      kind, valueint, valuedouble := 0, 0, Decimal(0, 0);
      valuestring, name := None, None;
    }
  }

  function NodeAt(items: seq<CJson>, i: int): CJson? {
    if 0 <= i < |items| then items[i] else null
  }

  /** `first` heads a well-formed list of exactly these nodes: its head has no predecessor, `next`
      and `prev` are inverse, and no node occurs twice, so the list ends. */
  ghost predicate Chain(items: seq<CJson>, first: CJson?)
    reads items
  {
    && first == NodeAt(items, 0)
    && Forward(items)
    && Backward(items)
    && Distinct(items)
  }

  ghost predicate Forward(items: seq<CJson>)
    reads items
  {
    forall i {:trigger items[i].next} :: 0 <= i < |items| ==> items[i].next == NodeAt(items, i + 1)
  }

  ghost predicate Backward(items: seq<CJson>)
    reads items
  {
    forall i {:trigger items[i].prev} :: 0 <= i < |items| ==> items[i].prev == NodeAt(items, i - 1)
  }

  ghost predicate Distinct(items: seq<CJson>) {
    forall i, j :: 0 <= i < j < |items| ==> items[i] != items[j]
  }

  /** A node in no list. */
  ghost predicate Unlinked(item: CJson)
    reads item
  {
    item.next == null && item.prev == null
  }

  /** The children of `list` are `items`, and `list` is not one of them. */
  ghost predicate Children(list: CJson, items: seq<CJson>)
    reads list, items
  {
    Chain(items, list.child) && list !in items
  }

  /** `cJSON_AddItemToArray`: appends. */
  method AddItemToArray(list: CJson, item: CJson?, ghost items: seq<CJson>)
    requires Children(list, items)
    requires item != null ==> Unlinked(item) && item !in items && item != list
    modifies list`child, items, item
    ensures item == null ==> Children(list, items)
    ensures item != null ==> Children(list, items + [item])
  {
    var c := list.child;
    if item == null { return; }
    if c == null {
      list.child := item;
    } else {
      ghost var i := 0;
      while c != null && c.next != null
        invariant 0 <= i < |items| && c == items[i]
        decreases |items| - i
      {
        c := c.next;
        i := i + 1;
      }
      c.next := item;
      item.prev := c;
    }
  }

  /** The loop shared by the indexed operations: walks to the node at `which`, counting down. */
  method FindAt(list: CJson, which: int, ghost items: seq<CJson>) returns (c: CJson?)
    requires Children(list, items)
    ensures c == NodeAt(items, if which < 0 then 0 else which)
  {
    c := list.child;
    var w := which;
    ghost var i := 0;
    while c != null && w > 0
      invariant 0 <= i <= |items| && c == NodeAt(items, i)
      invariant c != null ==> i + w == which || which < 0
      invariant which < 0 ==> i == 0 && w == which
      invariant which >= 0 ==> w >= 0 && i + w == which
      decreases |items| - i
    {
      c := c.next;
      w := w - 1;
      i := i + 1;
    }
  }

  function Clamp(which: int): nat {
    if which < 0 then 0 else which
  }

  function RemovedAt<T>(s: seq<T>, i: nat): seq<T> {
    if i < |s| then s[..i] + s[i + 1..] else s
  }

  function UpdatedAt<T>(s: seq<T>, i: nat, x: T): seq<T> {
    if i < |s| then s[i := x] else s
  }

  /** `cJSON_DetachItemFromArray`: removes the node at `which` (0 if negative) and returns it
      unlinked, or returns null if there is none. */
  method DetachItemFromArray(list: CJson, which: int, ghost items: seq<CJson>) returns (c: CJson?)
    requires Children(list, items)
    modifies list`child, items
    ensures c == NodeAt(items, Clamp(which))
    ensures c != null ==> Unlinked(c)
    ensures Children(list, RemovedAt(items, Clamp(which)))
  {
    c := FindAt(list, which, items);
    if c == null { return null; }
    ghost var i := Clamp(which);
    assert c == items[i];
    assert forall k :: 0 <= k < |items| && k != i ==> items[k] != items[i];
    if c.prev != null { c.prev.next := c.next; }
    if c.next != null { c.next.prev := c.prev; }
    if c == list.child { list.child := c.next; }
    c.prev, c.next := null, null;
    assert Bypassed(items, i);
    BypassedIsChain(items, i, list.child);
  }

  /** The list with the links of its neighbours led around position i. */
  ghost predicate Bypassed(items: seq<CJson>, i: nat)
    reads items
  {
    && (forall k {:trigger items[k].next} :: 0 <= k < |items| && k != i ==>
         items[k].next == NodeAt(items, if k == i - 1 then k + 2 else k + 1))
    && (forall k {:trigger items[k].prev} :: 0 <= k < |items| && k != i ==>
         items[k].prev == NodeAt(items, if k == i + 1 then k - 2 else k - 1))
  }

  lemma RemovedIndex(items: seq<CJson>, i: nat, k: int)
    requires i < |items|
    ensures NodeAt(RemovedAt(items, i), k) == NodeAt(items, if k < i then k else k + 1)
  {
  }

  lemma BypassedForward(items: seq<CJson>, i: nat)
    requires i < |items| && Bypassed(items, i)
    ensures Forward(RemovedAt(items, i))
  {
    var left := RemovedAt(items, i);
    forall k | 0 <= k < |left| ensures left[k].next == NodeAt(left, k + 1) {
      RemovedIndex(items, i, k);
      RemovedIndex(items, i, k + 1);
    }
  }

  lemma BypassedBackward(items: seq<CJson>, i: nat)
    requires i < |items| && Bypassed(items, i)
    ensures Backward(RemovedAt(items, i))
  {
    var left := RemovedAt(items, i);
    forall k | 0 <= k < |left| ensures left[k].prev == NodeAt(left, k - 1) {
      RemovedIndex(items, i, k);
      RemovedIndex(items, i, k - 1);
    }
  }

  lemma BypassedIsChain(items: seq<CJson>, i: nat, first: CJson?)
    requires i < |items| && Distinct(items) && Bypassed(items, i)
    requires first == if i == 0 then NodeAt(items, 1) else items[0]
    ensures Chain(RemovedAt(items, i), first)
  {
    hide Forward, Backward, Bypassed;
    BypassedForward(items, i);
    BypassedBackward(items, i);
    RemovedIndex(items, i, 0);
    var left := RemovedAt(items, i);
    forall j, k | 0 <= j < k < |left| ensures left[j] != left[k] {
      RemovedIndex(items, i, j);
      RemovedIndex(items, i, k);
    }
  }

  /** `cJSON_ReplaceItemInArray`: puts a fresh unlinked node in the place of the one at `which`;
      the old node is unlinked before it is deleted. */
  method ReplaceItemInArray(list: CJson, which: int, newitem: CJson, ghost items: seq<CJson>)
    returns (ghost c: CJson?)
    requires Children(list, items)
    requires Unlinked(newitem) && newitem !in items && newitem != list
    modifies list`child, items, newitem
    ensures c == NodeAt(items, Clamp(which))
    ensures if c != null then Unlinked(c) else Unlinked(newitem)
    ensures Children(list, UpdatedAt(items, Clamp(which), newitem))
  {
    var d := FindAt(list, which, items);
    c := d;
    if d == null { return; }
    ghost var i := Clamp(which);
    assert d == items[i];
    newitem.next := d.next;
    newitem.prev := d.prev;
    if newitem.next != null { newitem.next.prev := newitem; }
    if d == list.child { list.child := newitem; } else { newitem.prev.next := newitem; }
    d.next, d.prev := null, null;
    ReplacedIsChain(items, i, newitem, list.child);
  }

  /** The list with the links of the neighbours of position i, and those of x, exchanged for x. */
  lemma ReplacedIsChain(items: seq<CJson>, i: nat, x: CJson, first: CJson?)
    requires i < |items| && x !in items && Distinct(items)
    requires first == if i == 0 then x else items[0]
    requires x.next == NodeAt(items, i + 1) && x.prev == NodeAt(items, i - 1)
    requires forall k {:trigger items[k].next} :: 0 <= k < |items| && k != i ==>
      items[k].next == if k == i - 1 then x else NodeAt(items, k + 1)
    requires forall k {:trigger items[k].prev} :: 0 <= k < |items| && k != i ==>
      items[k].prev == if k == i + 1 then x else NodeAt(items, k - 1)
    ensures Chain(items[i := x], first)
  {
    var list := items[i := x];
    forall k | 0 <= k < |list|
      ensures list[k].next == NodeAt(list, k + 1) && list[k].prev == NodeAt(list, k - 1)
    {
    }
  }

  // ----- runs of list operations -----

  datatype ListOp = Append(item: CJson) | Detach(which: int) | Replace(which: int, newitem: CJson)

  /** What an operation does to the abstract sequence of children. */
  function Applied(items: seq<CJson>, op: ListOp): seq<CJson> {
    match op
    case Append(x) => items + [x]
    case Detach(w) => RemovedAt(items, Clamp(w))
    case Replace(w, x) => UpdatedAt(items, Clamp(w), x)
  }

  function AppliedAll(items: seq<CJson>, ops: seq<ListOp>): seq<CJson>
    decreases |ops|
  {
    if ops == [] then items else AppliedAll(Applied(items, ops[0]), ops[1..])
  }

  /** The nodes an operation brings in. */
  function Brought(op: ListOp): set<CJson> {
    match op
    case Append(x) => {x}
    case Detach(_) => {}
    case Replace(_, x) => {x}
  }

  function BroughtAll(ops: seq<ListOp>): set<CJson>
    decreases |ops|
  {
    if ops == [] then {} else Brought(ops[0]) + BroughtAll(ops[1..])
  }

  /** The node that a replacement deletes. */
  function Freed(items: seq<CJson>, op: ListOp): set<CJson> {
    if op.Replace? && Clamp(op.which) < |items| then {items[Clamp(op.which)]} else {}
  }

  /** Each operation brings a node that is not in the list at that step and has not been deleted; a
      node that was detached before may come back. */
  predicate Available(list: CJson, items: seq<CJson>, freed: set<CJson>, ops: seq<ListOp>)
    decreases |ops|
  {
    ops == []
    || ((forall x :: x in Brought(ops[0]) ==> x !in items && x !in freed && x != list)
        && Available(list, Applied(items, ops[0]), freed + Freed(items, ops[0]), ops[1..]))
  }

  /** One operation through the dispatching caller; whatever it leaves outside the list is unlinked. */
  method ApplyOp(list: CJson, op: ListOp, ghost items: seq<CJson>)
    requires Children(list, items)
    requires forall x :: x in Brought(op) ==> Unlinked(x) && x !in items && x != list
    modifies list`child, items, Brought(op)
    ensures Children(list, Applied(items, op))
    ensures forall x :: (x in items || x in Brought(op)) && x !in Applied(items, op) ==> Unlinked(x)
  {
    match op {
      case Append(x) =>
        AddItemToArray(list, x, items);
        assert forall y :: y in items ==> y in items + [x];
      case Detach(w) =>
        var c := DetachItemFromArray(list, w, items);
        OnlyRemoved(items, Clamp(w));
      case Replace(w, x) =>
        ghost var c := ReplaceItemInArray(list, w, x, items);
        OnlyReplaced(items, Clamp(w), x);
    }
  }

  lemma OnlyRemoved(items: seq<CJson>, i: nat)
    ensures forall x :: x in items && x !in RemovedAt(items, i) ==> i < |items| && x == items[i]
  {
    forall k | 0 <= k < |items| && k != i ensures items[k] in RemovedAt(items, i) {
      assert RemovedAt(items, i)[if k < i || i >= |items| then k else k - 1] == items[k];
    }
  }

  lemma OnlyReplaced(items: seq<CJson>, i: nat, y: CJson)
    ensures forall x :: x in items && x !in UpdatedAt(items, i, y) ==> i < |items| && x == items[i]
    ensures i < |items| ==> y in UpdatedAt(items, i, y)
  {
    forall k | 0 <= k < |items| && k != i ensures items[k] in UpdatedAt(items, i, y) {
      assert UpdatedAt(items, i, y)[k] == items[k];
    }
    if i < |items| { assert UpdatedAt(items, i, y)[i] == y; }
  }

  lemma AppliedNodes(items: seq<CJson>, op: ListOp, x: CJson)
    requires x in Applied(items, op)
    ensures x in items || x in Brought(op)
  {
  }

  /** Every run of the three operations, each on a node outside the list, keeps the child list well
      formed and acts on the abstract sequence as append, remove-at and update-at. */
  method RunListOps(list: CJson, ops: seq<ListOp>, ghost items: seq<CJson>, ghost freed: set<CJson>)
    requires Children(list, items) && Available(list, items, freed, ops)
    requires forall x :: x in BroughtAll(ops) ==> allocated(x)
    requires forall x :: x in BroughtAll(ops) && x !in items && x !in freed ==> Unlinked(x)
    modifies list`child, items, BroughtAll(ops)
    ensures Children(list, AppliedAll(items, ops))
    decreases |ops|
  {
    hide Children, Applied, Brought, Freed;
    if ops != [] {
      ghost var items' := Applied(items, ops[0]);
      forall x | x in items' ensures x in items || x in Brought(ops[0]) {
        AppliedNodes(items, ops[0], x);
      }
      ghost var freed' := freed + Freed(items, ops[0]);
      ApplyOp(list, ops[0], items);
      assert forall x :: x in BroughtAll(ops[1..]) && x !in items' && x !in freed' ==> Unlinked(x);
      RunListOps(list, ops[1..], items', freed');
    }
  }
}
