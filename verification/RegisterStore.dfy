/** The simple store behind data/map.c: one cell per register of a well, except that the registers
    kept in flash 1 are one cell for all wells. */
module RegisterStore {

  type Word = w: int | 0 <= w < 0x10000

  const WELLS: nat := 8
  const REGISTERS: nat := 10000
  const FLASH1_SIZE: nat := 300

  /** `ram_x_map_type`. */
  datatype Kind = Null | Ram | Flash1 | Flash2 | Sys

  /** `ram_x_map_rw`. */
  datatype Access = ReadOnly | ReadWrite

  /** What the map files fix: for each well, the kind and access of its registers, which of them are
      recorded, and which external addresses stand for a register. */
  datatype Layout = Layout(xMax: nat, kind: seq<seq<Kind>>, access: seq<seq<Access>>, record: seq<seq<bool>>,
                           mapped: seq<seq<bool>>)

  ghost predicate GoodLayout(l: Layout) {
    && |l.kind| == |l.access| == |l.record| == |l.mapped| == WELLS
    && (forall w :: 0 <= w < WELLS ==>
         |l.kind[w]| == |l.access[w]| == |l.record[w]| == l.xMax && |l.mapped[w]| == REGISTERS)
    && (forall w, x :: 0 <= w < WELLS && 0 <= x < l.xMax && l.kind[w][x] == Flash1 ==> x < FLASH1_SIZE)
  }

  datatype Cell = Shared(addr: nat) | Own(well: nat, addr: nat)

  type Store = map<Cell, Word>

  predicate InRange(l: Layout, w: nat, x: nat) {
    w < WELLS && x < l.xMax
  }

  /** The cell behind register x of the well with index w. */
  function CellOf(l: Layout, w: nat, x: nat): Cell
    requires GoodLayout(l) && InRange(l, w, x)
  {
    if l.kind[w][x] == Flash1 then Shared(x) else Own(w, x)
  }

  /** Every register has its cell. */
  ghost predicate Complete(l: Layout, s: Store)
    requires GoodLayout(l)
  {
    forall w, x :: InRange(l, w, x) ==> CellOf(l, w, x) in s
  }

  function Value(l: Layout, s: Store, w: nat, x: nat): Word
    requires GoodLayout(l) && Complete(l, s) && InRange(l, w, x)
  {
    s[CellOf(l, w, x)]
  }

  /** Writing consecutive registers. */
  function Put(l: Layout, s: Store, w: nat, x: nat, data: seq<Word>): (r: Store)
    requires GoodLayout(l) && Complete(l, s) && w < WELLS && x + |data| <= l.xMax
    ensures Complete(l, r)
    decreases |data|
  {
    if data == [] then s
    else
      var n := |data| - 1;
      Put(l, s, w, x, data[..n])[CellOf(l, w, x + n) := data[n]]
  }

  /** A write changes exactly the written registers: those of the well itself, and those that both
      wells keep in flash 1. */
  lemma {:induction false} PutValue(l: Layout, s: Store, w: nat, x: nat, data: seq<Word>, v: nat, y: nat)
    requires GoodLayout(l) && Complete(l, s) && w < WELLS && x + |data| <= l.xMax && InRange(l, v, y)
    ensures Value(l, Put(l, s, w, x, data), v, y) ==
      if x <= y < x + |data| && (v == w || l.kind[w][y] == Flash1 == l.kind[v][y]) then data[y - x]
      else Value(l, s, v, y)
    decreases |data|
  {
    if data != [] {
      PutValue(l, s, w, x, data[..|data| - 1], v, y);
    }
  }

  function Values(l: Layout, s: Store, w: nat, x: nat, n: nat): (r: seq<Word>)
    requires GoodLayout(l) && Complete(l, s) && w < WELLS && x + n <= l.xMax
    ensures |r| == n && forall k :: 0 <= k < n ==> r[k] == Value(l, s, w, x + k)
  {
    seq<Word>(n, k requires 0 <= k < n => Value(l, s, w, x + k))
  }

  /** Reading back what was written to a well gives it back. */
  lemma PutThenGet(l: Layout, s: Store, w: nat, x: nat, data: seq<Word>)
    requires GoodLayout(l) && Complete(l, s) && w < WELLS && x + |data| <= l.xMax
    ensures Values(l, Put(l, s, w, x, data), w, x, |data|) == data
  {
    forall k | 0 <= k < |data| ensures Value(l, Put(l, s, w, x, data), w, x + k) == data[k] {
      PutValue(l, s, w, x, data, w, x + k);
    }
  }

  /** Without flash 1 registers in the range, the other wells see nothing of a write. */
  lemma OtherWellsUntouched(l: Layout, s: Store, w: nat, x: nat, data: seq<Word>, v: nat, y: nat)
    requires GoodLayout(l) && Complete(l, s) && w < WELLS && x + |data| <= l.xMax && InRange(l, v, y) && v != w
    requires forall k :: x <= k < x + |data| ==> l.kind[w][k] != Flash1
    ensures Value(l, Put(l, s, w, x, data), v, y) == Value(l, s, v, y)
  {
    PutValue(l, s, w, x, data, v, y);
  }

  // ----- runs of register calls -----

  datatype Op = Read(well: int, addr: int, len: int) | Write(well: int, addr: int, data: seq<Word>)

  /** The result of a call: -1, or 0 with the words read. */
  datatype Reply = Refused | Done(words: seq<Word>)

  /** The argument check of every register call; wells are numbered from 1. */
  predicate Accepts(well: int, addr: int, len: int, limit: nat) {
    1 <= well <= WELLS && addr >= 0 && len >= 1 && addr + len <= limit
  }

  function Length(op: Op): int {
    if op.Read? then op.len else |op.data|
  }

  predicate Allowed(l: Layout, op: Op) {
    Accepts(op.well, op.addr, Length(op), l.xMax)
  }

  function SimpleStep(l: Layout, s: Store, op: Op): (r: (Store, Reply))
    requires GoodLayout(l) && Complete(l, s)
    ensures Complete(l, r.0)
  {
    if !Allowed(l, op) then (s, Refused)
    else if op.Read? then (s, Done(Values(l, s, op.well - 1, op.addr, op.len)))
    else (Put(l, s, op.well - 1, op.addr, op.data), Done([]))
  }

  /** A run on the simple store. */
  function SimpleRun(l: Layout, s: Store, ops: seq<Op>): (r: (Store, seq<Reply>))
    requires GoodLayout(l) && Complete(l, s)
    ensures Complete(l, r.0) && |r.1| == |ops|
    decreases |ops|
  {
    if ops == [] then (s, [])
    else
      var before := SimpleRun(l, s, ops[..|ops| - 1]);
      var last := SimpleStep(l, before.0, ops[|ops| - 1]);
      (last.0, before.1 + [last.1])
  }
}
