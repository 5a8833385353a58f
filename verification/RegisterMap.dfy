/** The register calls of data/map.c over the memory they share, against the simple store. */
module RegisterMap {
  import opened RegisterExternal
  import opened RegisterLoader
  import opened RegisterStore

  class RegisterMap {
    const layout: Layout
    const ramX: array2<Word>
    const ramY: array2<Word>
    const flash1: array<Word>
    const flash2: array2<Word>
    ghost var store: Store

    ghost predicate Shapes() {
      && GoodLayout(layout)
      && ramX.Length0 == flash2.Length0 == ramY.Length0 == WELLS
      && ramX.Length1 == flash2.Length1 == layout.xMax
      && ramY.Length1 == REGISTERS && flash1.Length == FLASH1_SIZE
      && ramX != flash2 && ramX != ramY && flash2 != ramY
    }

    /** The memory as the loader leaves it: the tables of the eight wells, and flash 1. */
    constructor (tables: seq<Tables>, xMax: nat, common: seq<Word>)
      requires AllUsable(tables, xMax) && |common| == FLASH1_SIZE
      ensures Valid() && layout == LayoutOf(tables, xMax)
      ensures forall w: nat :: w < WELLS ==> GoodRow(layout, w, Row(w)) && Row(w) == tables[w].ramY
    {
      UsableShape(tables, xMax);
      layout := LayoutOf(tables, xMax);
      ramX := new Word[WELLS, xMax]((w, x) requires 0 <= w < WELLS && 0 <= x < xMax => tables[w].ramX[x]);
      ramY := new Word[WELLS, REGISTERS]((w, y) requires 0 <= w < WELLS && 0 <= y < REGISTERS => tables[w].ramY[y]);
      flash1 := new Word[FLASH1_SIZE](x requires 0 <= x < FLASH1_SIZE => common[x]);
      flash2 := new Word[WELLS, xMax]((w, x) requires 0 <= w < WELLS && 0 <= x < xMax => tables[w].flash2[x]);
      store := StoreOf(tables, xMax, common);
      new;
      hide LayoutOf, StoreOf, AllUsable, CellWord;
      HoldsTables(tables, xMax, common);
      forall w: nat | w < WELLS ensures GoodRow(layout, w, Row(w)) && Row(w) == tables[w].ramY {
        assert Row(w) == tables[w].ramY;
      }
    }

    /** Memory filled from the tables holds their store. */
    lemma HoldsTables(tables: seq<Tables>, xMax: nat, common: seq<Word>)
      requires AllUsable(tables, xMax) && |common| == FLASH1_SIZE && layout == LayoutOf(tables, xMax) && Shapes()
      requires store == StoreOf(tables, xMax, common) && flash1[..] == common
      requires forall w, x :: 0 <= w < WELLS && 0 <= x < xMax ==> ramX[w, x] == tables[w].ramX[x]
      requires forall w, x :: 0 <= w < WELLS && 0 <= x < xMax ==> flash2[w, x] == tables[w].flash2[x]
      ensures Valid()
    {
      hide StoreOf;
      StoreHolds(tables, xMax, common);
      forall w: nat, x: nat | InRange(layout, w, x) && layout.kind[w][x] != Sys
        ensures Held(w, x) == Value(layout, store, w, x)
      {
        assert Value(layout, store, w, x) == CellWord(tables, xMax, common, CellOf(layout, w, x));
        assert layout.kind[w] == tables[w].kind;
      }
    }

    /** What `zigbee_read_registers` finds for a register. */
    function Held(w: nat, x: nat): Word
      requires Shapes() && InRange(layout, w, x)
      reads ramX, flash1, flash2
    {
      match layout.kind[w][x]
      case Flash1 => flash1[x]
      case Flash2 => flash2[w, x]
      case _ => ramX[w, x]
    }

    /** The memory holds the store, for every register that is not a function. */
    ghost predicate Valid()
      reads this, ramX, flash1, flash2
    {
      && Shapes() && Complete(layout, store)
      && forall w: nat, x: nat :: InRange(layout, w, x) && layout.kind[w][x] != Sys ==>
           Held(w, x) == Value(layout, store, w, x)
    }

    ghost predicate NoFunctions(w: nat, x: nat, n: nat)
      requires GoodLayout(layout) && w < WELLS && x + n <= layout.xMax
    {
      forall k :: x <= k < x + n ==> layout.kind[w][k] != Sys
    }

    /** `zigbee_read_registers`. */
    method ZigbeeRead(buf: array<Word>, len: int, well: int, addr: int) returns (rc: int)
      requires Valid() && (len >= 1 ==> buf.Length >= len)
      requires buf != flash1
      requires Accepts(well, addr, len, layout.xMax) ==> NoFunctions(well - 1, addr, len)
      modifies buf
      ensures rc == if Accepts(well, addr, len, layout.xMax) then 0 else -1
      ensures rc == 0 <==> 1 <= well <= 8 && 0 <= addr && 1 <= len && addr + len <= layout.xMax
      ensures rc == 0 ==> buf[..len] == Values(layout, store, well - 1, addr, len)
      ensures rc == -1 ==> buf[..] == old(buf[..])
    {
      if well > WELLS || well < 1 || addr < 0 || len < 1 { return -1; }
      var j := addr + len;
      if j > layout.xMax { return -1; }
      var w := well - 1;
      var i := addr;
      var b := 0;
      while i < j
        invariant addr <= i <= j && b == i - addr
        invariant forall k :: 0 <= k < b ==> buf[k] == Value(layout, store, w, addr + k)
      {
        match layout.kind[w][i] {
          case Null => buf[b] := ramX[w, i];
          case Ram => buf[b] := ramX[w, i];
          case Flash1 => buf[b] := flash1[i];
          case Flash2 => buf[b] := flash2[w, i];
          case Sys => assert false;
        }
        assert buf[b] == Held(w, i);
        b := b + 1;
        i := i + 1;
      }
      return 0;
    }

    /** One turn of the write loop. */
    method WriteOne(w: nat, i: nat, v: Word)
      requires Valid() && InRange(layout, w, i) && layout.kind[w][i] != Sys
      modifies this`store, ramX, flash1, flash2
      ensures Valid() && store == old(store)[CellOf(layout, w, i) := v]
    {
      match layout.kind[w][i] {
        case Null => ramX[w, i] := v;
        case Ram => ramX[w, i] := v;
        case Flash1 =>
          flash1[i] := v;
          ramX[w, i] := v;
        case Flash2 =>
          flash2[w, i] := v;
          ramX[w, i] := v;
        case Sys => assert false;
      }
      store := store[CellOf(layout, w, i) := v];
    }

    /** `zigbee_write_registers`. */
    method ZigbeeWrite(buf: array<Word>, len: int, well: int, addr: int) returns (rc: int)
      requires Valid() && (len >= 1 ==> buf.Length >= len)
      requires buf != flash1
      requires Accepts(well, addr, len, layout.xMax) ==> NoFunctions(well - 1, addr, len)
      modifies this`store, ramX, flash1, flash2
      ensures Valid()
      ensures rc == if Accepts(well, addr, len, layout.xMax) then 0 else -1
      ensures rc == 0 <==> 1 <= well <= 8 && 0 <= addr && 1 <= len && addr + len <= layout.xMax
      ensures rc == 0 ==> store == Put(layout, old(store), well - 1, addr, buf[..len])
      ensures rc == -1 ==> store == old(store) && unchanged(ramX) && unchanged(flash1) && unchanged(flash2)
    {
      if well > WELLS || well < 1 || addr < 0 || len < 1 { return -1; }
      var j := addr + len;
      if j > layout.xMax { return -1; }
      var w := well - 1;
      var i := addr;
      var b := 0;
      while i < j
        invariant addr <= i <= j && b == i - addr && Valid()
        invariant store == Put(layout, old(store), w, addr, buf[..b])
      {
        assert buf[..b + 1][..b] == buf[..b];
        WriteOne(w, i, buf[b]);
        b := b + 1;
        i := i + 1;
      }
      return 0;
    }

    // ----- the external space -----

    ghost function Row(w: nat): (r: seq<Word>)
      requires Shapes() && w < WELLS
      reads ramY
      ensures |r| == REGISTERS && forall i :: 0 <= i < REGISTERS ==> r[i] == ramY[w, i]
    {
      seq<Word>(REGISTERS, i requires 0 <= i < REGISTERS reads ramY => ramY[w, i])
    }

    /** What a call on the well with index w can see and change. */
    ghost function Outside(w: nat, used: nat): Outer
      requires Shapes() && w < WELLS
      reads this, ramY
    {
      Outer(store, Row(w), used)
    }

    /** No address of the range leads a read or a write to a function. */
    ghost predicate NoFunctionsBehind(w: nat, addr: nat, n: nat)
      requires Shapes() && w < WELLS && addr + n <= REGISTERS && GoodRow(layout, w, Row(w))
      reads ramY
    {
      forall i :: addr <= i < addr + n && layout.mapped[w][i] ==> layout.kind[w][ramY[w, i]] != Sys
    }

    /** One address of an external read. */
    method ModbusReadOne(well: nat, i: nat) returns (v: Word)
      requires Valid() && 1 <= well <= WELLS && i < REGISTERS
      requires GoodRow(layout, well - 1, Row(well - 1)) && NoFunctionsBehind(well - 1, i, 1)
      ensures v == ReadAt(layout, well - 1, Outside(well - 1, 0), i)
    {
      var w := well - 1;
      v := ramY[w, i];
      if layout.mapped[w][i] {
        var cell := new Word[1];
        var ok := ZigbeeRead(cell, 1, well, v);
        v := cell[0];
      }
    }

    /** `map_modbus_read_registers`. */
    method ModbusRead(buf: array<Word>, len: int, well: int, addr: int, bigL: bool) returns (rc: int)
      requires Valid() && (len >= 1 ==> buf.Length >= len)
      requires buf != flash1
      requires Accepts(well, addr, len, REGISTERS) ==>
        (GoodRow(layout, well - 1, Row(well - 1)) && NoFunctionsBehind(well - 1, addr, len))
      modifies buf
      ensures rc == if Accepts(well, addr, len, REGISTERS) then 0 else -1
      ensures rc == 0 <==> 1 <= well <= 8 && 0 <= addr && 1 <= len && addr + len <= 10000
      ensures rc == 0 ==> forall k :: 0 <= k < len ==>
        buf[k] == Ordered(ReadAt(layout, well - 1, Outside(well - 1, 0), addr + k), bigL)
      ensures rc == 0 ==> forall k :: 0 <= k < len ==>
        var word := ramY[well - 1, addr + k];
        var v := if layout.mapped[well - 1][addr + k] then Value(layout, store, well - 1, word) else word;
        if bigL then buf[k] % 256 == v / 256 && buf[k] / 256 == v % 256 else buf[k] == v
      ensures rc == -1 ==> buf[..] == old(buf[..])
    {
      if well > WELLS || well < 1 || addr < 0 || len < 1 { return -1; }
      var j := addr + len;
      if j > REGISTERS { return -1; }
      var w := well - 1;
      var i := addr;
      var b := 0;
      while i < j
        invariant addr <= i <= j && b == i - addr
        invariant forall k :: 0 <= k < b ==>
          buf[k] == Ordered(ReadAt(layout, w, Outside(w, 0), addr + k), bigL)
      {
        var rc := ModbusReadOne(well, i);
        if bigL { rc := rc % 256 * 256 + rc / 256; }
        buf[b] := rc;
        b := b + 1;
        i := i + 1;
      }
      hide Ordered;
      forall k | 0 <= k < len
        ensures var word := ramY[w, addr + k];
          var v := if layout.mapped[w][addr + k] then Value(layout, store, w, word) else word;
          if bigL then buf[k] % 256 == v / 256 && buf[k] / 256 == v % 256 else buf[k] == v
      {
        OrderedBytes(ReadAt(layout, w, Outside(w, 0), addr + k), bigL);
      }
      return 0;
    }

    /** Stores one word in the row of a well. */
    method SetRow(w: nat, i: nat, v: Word)
      requires Shapes() && w < WELLS && i < REGISTERS
      modifies ramY
      ensures Row(w) == old(Row(w))[i := v]
      ensures forall u, k :: 0 <= u < WELLS && 0 <= k < REGISTERS && u != w ==> ramY[u, k] == old(ramY[u, k])
    {
      ramY[w, i] := v;
    }

    /** One turn of the loop of `map_modbus_write_registers`: whether the word was used. */
    method ModbusWriteOne(well: nat, i: nat, v: Word, ghost b: nat) returns (taken: bool)
      requires Valid() && 1 <= well <= WELLS && i < REGISTERS
      requires GoodRow(layout, well - 1, Row(well - 1)) && NoFunctionsBehind(well - 1, i, 1)
      modifies this`store, ramX, flash1, flash2, ramY
      ensures Valid() && taken == Writable(layout, well - 1, old(Row(well - 1)), i)
      ensures Outside(well - 1, if taken then b + 1 else b)
           == WriteTurn(layout, well - 1, old(Outside(well - 1, b)), i, v)
      ensures var w := well - 1;
        forall k :: 0 <= k < REGISTERS && layout.mapped[w][k] ==> ramY[w, k] == old(ramY[w, k])
      ensures forall u, k :: 0 <= u < WELLS && 0 <= k < REGISTERS && u != well - 1 ==> ramY[u, k] == old(ramY[u, k])
    {
      var w := well - 1;
      if !layout.mapped[w][i] {
        SetRow(w, i, v);
        return true;
      }
      if layout.access[w][ramY[w, i]] != ReadWrite { return false; }
      var cell := new Word[1];
      cell[0] := v;
      var rc := ZigbeeWrite(cell, 1, well, ramY[w, i]);
      assert cell[..1] == [v];
      PutOne(layout, old(store), w, old(ramY[w, i]), v);
      assert Row(w) == old(Row(w));
      return true;
    }

    /** A word of the buffer, as both write functions take it. */
    method WordFrom(buf: array<Word>, k: nat, bigL: bool) returns (rc: Word)
      requires k < buf.Length
      ensures rc == Ordered(buf[k], bigL)
      ensures if bigL then rc % 256 == buf[k] / 256 && rc / 256 == buf[k] % 256 else rc == buf[k]
    {
      rc := buf[k];
      if bigL { rc := buf[k] % 256 * 256 + buf[k] / 256; }
    }

    /** `map_modbus_write_registers`. */
    method ModbusWrite(buf: array<Word>, len: int, well: int, addr: int, bigL: bool) returns (rc: int)
      requires Valid() && (len >= 1 ==> buf.Length >= len)
      requires buf != flash1
      requires Accepts(well, addr, len, REGISTERS) ==>
        (GoodRow(layout, well - 1, Row(well - 1)) && NoFunctionsBehind(well - 1, addr, len))
      modifies this`store, ramX, flash1, flash2, ramY
      ensures Valid()
      ensures rc == if Accepts(well, addr, len, REGISTERS) then 0 else -1
      ensures rc == 0 <==> 1 <= well <= 8 && 0 <= addr && 1 <= len && addr + len <= 10000
      ensures rc == 0 ==> var e := WriteAll(layout, well - 1, old(Outside(well - 1, 0)), addr, len, buf[..len], bigL);
        store == e.store && Row(well - 1) == e.row
      ensures forall u, k :: 0 <= u < WELLS && 0 <= k < REGISTERS && u != well - 1 ==> ramY[u, k] == old(ramY[u, k])
      ensures rc == -1 ==>
        store == old(store) && unchanged(ramX) && unchanged(flash1) && unchanged(flash2) && unchanged(ramY)
    {
      hide WriteTurn, WriteAll, Writable, ReadAt, Ordered;
      if well > WELLS || well < 1 || addr < 0 || len < 1 { return -1; }
      var j := addr + len;
      if j > REGISTERS { return -1; }
      var w := well - 1;
      var i := addr;
      var b := 0;
      assert Outside(w, 0) == WriteAll(layout, w, old(Outside(w, 0)), addr, 0, buf[..len], bigL) by {
        NothingWritten(layout, w, old(Outside(w, 0)), addr, buf[..len], bigL);
      }
      while i < j
        invariant addr <= i <= j && 0 <= b <= i - addr && Valid()
        invariant GoodRow(layout, w, Row(w))
        invariant forall k :: 0 <= k < REGISTERS && layout.mapped[w][k] ==> ramY[w, k] == old(ramY[w, k])
        invariant Outside(w, b) == WriteAll(layout, w, old(Outside(w, 0)), addr, i - addr, buf[..len], bigL)
        invariant forall u, k :: 0 <= u < WELLS && 0 <= k < REGISTERS && u != w ==> ramY[u, k] == old(ramY[u, k])
      {
        LastTurn(layout, w, old(Outside(w, 0)), addr, i - addr + 1, buf[..len], bigL);
        var rc := WordFrom(buf, b, bigL);
        assert rc == Ordered(buf[..len][b], bigL);
        var taken := ModbusWriteOne(well, i, rc, b);
        i := i + 1;
        if !taken { continue; }
        b := b + 1;
      }
      return 0;
    }

    /** An external write of a fully writable range, each register of it reached once, then a read of
        the range in the same byte order. */
    method ModbusWriteThenRead(buf: array<Word>, len: nat, well: int, addr: int, bigL: bool) returns (back: array<Word>)
      requires Valid() && buf.Length >= len && buf != flash1 && Accepts(well, addr, len, REGISTERS)
      requires GoodRow(layout, well - 1, Row(well - 1)) && NoFunctionsBehind(well - 1, addr, len)
      requires AllWritable(layout, well - 1, Row(well - 1), addr, len)
      requires Distinct(layout, well - 1, Row(well - 1), addr, len)
      modifies this`store, ramX, flash1, flash2, ramY
      ensures fresh(back) && back[..] == buf[..len]
    {
      hide WriteAll, ReadAt, Ordered, Distinct, AllWritable, Writable;
      var w := well - 1;
      ghost var e := Outside(w, 0);
      WriteKeepsMap(layout, w, e, addr, len, buf[..len], bigL);
      var rc := ModbusWrite(buf, len, well, addr, bigL);
      back := new Word[len];
      rc := ModbusRead(back, len, well, addr, bigL);
      forall k | 0 <= k < len ensures back[k] == buf[k] {
        ReadBack(layout, w, e, addr, len, buf[..len], bigL, k);
        SameOutside(layout, w, Outside(w, 0), WriteAll(layout, w, e, addr, len, buf[..len], bigL), addr + k);
      }
    }

    /** `map_modbus_write_data_registers`: the words of recorded registers are packed into the row from
        addr on.  The record flags are taken from the first register of the well on. */
    method ModbusWriteData(buf: array<Word>, len: int, well: int, addr: int, bigL: bool) returns (rc: int)
      requires Shapes() && (len >= 1 ==> buf.Length >= len) && len <= layout.xMax
      modifies ramY
      ensures rc == if Accepts(well, addr, len, REGISTERS) then 0 else -1
      ensures rc == 0 <==> 1 <= well <= 8 && 0 <= addr && 1 <= len && addr + len <= 10000
      ensures rc == -1 ==> unchanged(ramY)
      ensures rc == 0 ==> var data := Recorded(layout.record[well - 1], AllOrdered(buf[..len], bigL));
        Row(well - 1) == Packed(old(Row(well - 1)), addr, data)
      ensures forall u, k :: 0 <= u < WELLS && 0 <= k < REGISTERS && u != well - 1 ==> ramY[u, k] == old(ramY[u, k])
    {
      hide Recorded, Ordered;
      if well > WELLS || well < 1 || addr < 0 || len < 1 { return -1; }
      var j := addr + len;
      if j > REGISTERS { return -1; }
      var w := well - 1;
      var i, k, m := addr, 0, 0;
      NothingRecorded(layout.record[w]);
      ghost var row := Row(w);
      ghost var words := AllOrdered(buf[..len], bigL);
      assert Packed(row, addr, []) == row;
      hide Packed;
      while i < j
        invariant addr <= i <= j && k == i - addr && 0 <= m <= k
        invariant m == |Recorded(layout.record[w], words[..k])|
        invariant Row(w) == Packed(row, addr, Recorded(layout.record[w], words[..k]))
        invariant forall u, n :: 0 <= u < WELLS && 0 <= n < REGISTERS && u != w ==> ramY[u, n] == old(ramY[u, n])
      {
        var rc := WordFrom(buf, k, bigL);
        RecordedMore(layout.record[w], words, k);
        ghost var data := Recorded(layout.record[w], words[..k]);
        if layout.record[w][k] {
          PackedMore(row, addr, data, rc);
          SetRow(w, m + addr, rc);
          m := m + 1;
        }
        i := i + 1;
        k := k + 1;
      }
      assert words[..k] == words;
      return 0;
    }

    // ----- runs -----

    /** One internal call of a run. */
    method Call(op: Op) returns (reply: Reply)
      requires Valid() && (Allowed(layout, op) ==> NoFunctions(op.well - 1, op.addr, Length(op)))
      modifies this`store, ramX, flash1, flash2
      ensures Valid() && (store, reply) == SimpleStep(layout, old(store), op)
    {
      hide Put;
      reply := Refused;
      match op {
        case Read(well, addr, len) =>
          var buf := new Word[if len > 0 then len else 0];
          var rc := ZigbeeRead(buf, len, well, addr);
          if rc == 0 { reply := Done(buf[..len]); }
        case Write(well, addr, data) =>
          var buf := new Word[|data|](i requires 0 <= i < |data| => data[i]);
          assert buf[..|data|] == data;
          var rc := ZigbeeWrite(buf, |data|, well, addr);
          if rc == 0 { reply := Done([]); }
      }
    }

    /** Every run of register calls answers as the simple store does. */
    method Calls(ops: seq<Op>) returns (replies: seq<Reply>)
      requires Valid()
      requires forall k :: 0 <= k < |ops| && Allowed(layout, ops[k]) ==>
        NoFunctions(ops[k].well - 1, ops[k].addr, Length(ops[k]))
      modifies this`store, ramX, flash1, flash2
      ensures Valid() && (store, replies) == SimpleRun(layout, old(store), ops)
    {
      hide SimpleStep;
      replies := [];
      var i := 0;
      while i < |ops|
        invariant 0 <= i <= |ops| && Valid()
        invariant (store, replies) == SimpleRun(layout, old(store), ops[..i])
      {
        assert ops[..i + 1][..i] == ops[..i];
        var reply := Call(ops[i]);
        replies := replies + [reply];
        i := i + 1;
      }
      assert ops[..i] == ops;
    }
  }

  /** `map_init`: the loaded tables, and the memory filled from them. */
  method MapInit(s: Sources, xMax: nat) returns (map0: RegisterMap)
    requires Loadable(s, xMax)
    ensures fresh(map0) && map0.Valid() && AllUsable(InitTables(s, xMax), xMax)
    ensures map0.layout == LayoutOf(InitTables(s, xMax), xMax)
    ensures forall w: nat :: w < WELLS ==>
      GoodRow(map0.layout, w, map0.Row(w)) && map0.Row(w) == InitTables(s, xMax)[w].ramY
  {
    hide AllUsable, LayoutOf, InitTables;
    InitUsable(s, xMax);
    map0 := new RegisterMap(InitTables(s, xMax), xMax, CommonTables(s, xMax).flash1);
  }

  lemma SameOutside(l: Layout, w: nat, e: Outer, f: Outer, i: nat)
    requires Good(l, w, e) && Good(l, w, f) && e.store == f.store && e.row == f.row && i < REGISTERS
    ensures ReadAt(l, w, e, i) == ReadAt(l, w, f, i)
  {
  }

  lemma PackedMore(row: seq<Word>, addr: nat, data: seq<Word>, v: Word)
    requires addr + |data| < |row|
    ensures Packed(row, addr, data)[addr + |data| := v] == Packed(row, addr, data + [v])
  {
  }

  lemma PutOne(l: Layout, s: Store, w: nat, x: nat, v: Word)
    requires GoodLayout(l) && Complete(l, s) && InRange(l, w, x)
    ensures Put(l, s, w, x, [v]) == s[CellOf(l, w, x) := v]
  {
    assert Put(l, s, w, x, [v][..0]) == s;
  }
}
