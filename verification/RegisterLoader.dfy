/** Loading the map files of data/map.c: `ram_map_flash1_value_init` on the parsed lines of one file, for
    the tables of one well, and the passes of `map_init` over all wells. */
module RegisterLoader {
  import opened Options
  import opened RegisterStore

  /** A parsed line: one register, or a range of them (`x0~x1,y0~y1,...`). */
  datatype Entry = Entry(x0: Word, x1: Word, y0: Word, y1: Word, isRange: bool, value: Word, kind: Kind,
                         record: bool, access: Access)

  /** The registers a line sets: count of them from x, seen from outside from y on. */
  datatype Block = Block(x: nat, y: nat, count: nat, value: Word, kind: Kind, record: bool, access: Access)

  /** External addresses are counted from 40001. */
  function External(y: Word): nat {
    if y < 40001 then 0 else y - 40001
  }

  /** Ranges without a second element are skipped. */
  predicate Skipped(e: Entry) {
    e.isRange && (External(e.y1) <= External(e.y0) || e.x1 <= e.x0)
  }

  function BlockOf(e: Entry): Block {
    var count := if e.isRange && e.x1 >= e.x0 then e.x1 - e.x0 + 1 else 1;
    Block(e.x0, External(e.y0), count, e.value, e.kind, e.record, e.access)
  }

  /** The tables of a well, with the flash areas its registers use. */
  datatype Tables = Tables(ramX: seq<Word>, kind: seq<Kind>, record: seq<bool>, access: seq<Access>,
                           ramY: seq<Word>, mapped: seq<bool>, flash1: seq<Word>, flash2: seq<Word>)

  predicate Sized(t: Tables, xMax: nat) {
    && |t.ramX| == |t.kind| == |t.record| == |t.access| == |t.flash2| == xMax
    && |t.ramY| == |t.mapped| == REGISTERS && |t.flash1| == FLASH1_SIZE
  }

  /** Which flash areas are new and take the default values. */
  datatype NewFlash = NewFlash(flash1: bool, flash2: bool)

  predicate ToFlash1(b: Block, isNew: NewFlash) {
    isNew.flash1 && (b.kind == Sys || b.kind == Flash1)
  }

  predicate ToFlash2(b: Block, isNew: NewFlash) {
    !ToFlash1(b, isNew) && isNew.flash2 && (b.kind == Sys || b.kind == Flash2)
  }

  /** The registers and addresses of the block exist. */
  predicate Fits(b: Block, xMax: nat, isNew: NewFlash) {
    && b.x + b.count <= xMax < 0x10000 && b.y + b.count <= REGISTERS
    && (b.kind == Flash1 || ToFlash1(b, isNew) ==> b.x + b.count <= FLASH1_SIZE)
  }

  /** A stretch of a table set to one value. */
  function Painted<T>(s: seq<T>, x: nat, count: nat, v: T): (r: seq<T>)
    ensures |r| == |s| && forall i :: 0 <= i < |r| ==> r[i] == if x <= i < x + count then v else s[i]
  {
    seq(|s|, i requires 0 <= i < |s| => if x <= i < x + count then v else s[i])
  }

  /** A stretch of external addresses that stand for consecutive registers. */
  function Numbered(s: seq<Word>, y: nat, count: nat, x: nat): (r: seq<Word>)
    requires x + count < 0x10000
    ensures |r| == |s| && forall i :: 0 <= i < |r| ==> r[i] == if y <= i < y + count then x + (i - y) else s[i]
  {
    seq<Word>(|s|, i requires 0 <= i < |s| => if y <= i < y + count then x + (i - y) else s[i])
  }

  /** What one line does to the tables. */
  function Apply(t: Tables, b: Block, isNew: NewFlash): Tables
    requires b.x + b.count < 0x10000
  {
    Tables(
      Painted(t.ramX, b.x, b.count, b.value),
      Painted(t.kind, b.x, b.count, b.kind),
      Painted(t.record, b.x, b.count, b.record),
      Painted(t.access, b.x, b.count, b.access),
      Numbered(t.ramY, b.y, b.count, b.x),
      Painted(t.mapped, b.y, b.count, true),
      if ToFlash1(b, isNew) then Painted(t.flash1, b.x, b.count, b.value) else t.flash1,
      if ToFlash2(b, isNew) then Painted(t.flash2, b.x, b.count, b.value) else t.flash2)
  }

  predicate AllFit(es: seq<Entry>, xMax: nat, isNew: NewFlash) {
    forall k :: 0 <= k < |es| && !Skipped(es[k]) ==> Fits(BlockOf(es[k]), xMax, isNew)
  }

  /** What a file does to the tables. */
  function Loaded(t: Tables, es: seq<Entry>, xMax: nat, isNew: NewFlash): (r: Tables)
    requires Sized(t, xMax) && AllFit(es, xMax, isNew)
    ensures Sized(r, xMax)
    decreases |es|
  {
    if es == [] then t
    else
      var before := Loaded(t, es[..|es| - 1], xMax, isNew);
      var e := es[|es| - 1];
      if Skipped(e) then before else Apply(before, BlockOf(e), isNew)
  }

  // ----- the last line wins -----

  predicate CoversRegister(e: Entry, x: nat) {
    !Skipped(e) && BlockOf(e).x <= x < BlockOf(e).x + BlockOf(e).count
  }

  predicate CoversAddress(e: Entry, y: nat) {
    !Skipped(e) && BlockOf(e).y <= y < BlockOf(e).y + BlockOf(e).count
  }

  /** The registers and the external addresses a line names.  Addresses are written from 40001 on, and
      a smaller one stands for the first; a range needs two registers and two addresses at least, and
      the registers say how long it is. */
  lemma NamedByLine(e: Entry, i: nat)
    ensures CoversRegister(e, i) <==>
      if e.isRange then e.x0 < e.x1 && e.y0 < e.y1 && 40001 < e.y1 && e.x0 <= i <= e.x1 else i == e.x0
    ensures CoversAddress(e, i) <==>
      var first := if e.y0 <= 40001 then 0 else e.y0 - 40001;
      if e.isRange then e.x0 < e.x1 && e.y0 < e.y1 && 40001 < e.y1 && first <= i <= first + (e.x1 - e.x0)
      else i == first
  {
  }

  /** The last line that sets a register. */
  function RegisterLine(es: seq<Entry>, x: nat): Option<Entry> {
    if es == [] then None
    else if CoversRegister(es[|es| - 1], x) then Some(es[|es| - 1])
    else RegisterLine(es[..|es| - 1], x)
  }

  /** The last line that maps an external address. */
  function AddressLine(es: seq<Entry>, y: nat): Option<Entry> {
    if es == [] then None
    else if CoversAddress(es[|es| - 1], y) then Some(es[|es| - 1])
    else AddressLine(es[..|es| - 1], y)
  }

  /** After loading, the last line that names a register fixes everything about it. */
  lemma {:induction false} RegisterLoaded(t: Tables, es: seq<Entry>, xMax: nat, isNew: NewFlash, x: nat)
    requires Sized(t, xMax) && AllFit(es, xMax, isNew) && x < xMax
    ensures var (r, last) := (Loaded(t, es, xMax, isNew), RegisterLine(es, x));
      if last.None? then
        (r.ramX[x], r.kind[x], r.record[x], r.access[x]) == (t.ramX[x], t.kind[x], t.record[x], t.access[x])
      else
        (r.ramX[x], r.kind[x], r.record[x], r.access[x])
          == (last.value.value, last.value.kind, last.value.record, last.value.access)
    decreases |es|
  {
    if es != [] { RegisterLoaded(t, es[..|es| - 1], xMax, isNew, x); }
  }

  predicate CoversFlash(e: Entry, isNew: NewFlash, second: bool, x: nat) {
    CoversRegister(e, x) && if second then ToFlash2(BlockOf(e), isNew) else ToFlash1(BlockOf(e), isNew)
  }

  /** The last line that writes a word of the first or the second flash area. */
  function FlashLine(es: seq<Entry>, isNew: NewFlash, second: bool, x: nat): Option<Entry> {
    if es == [] then None
    else if CoversFlash(es[|es| - 1], isNew, second, x) then Some(es[|es| - 1])
    else FlashLine(es[..|es| - 1], isNew, second, x)
  }

  /** After loading, a flash word holds the default of the last line that goes to its area, even if a
      later line names the register with another kind, and is untouched if there is none. */
  lemma {:induction false} FlashLoaded(t: Tables, es: seq<Entry>, xMax: nat, isNew: NewFlash, second: bool, x: nat)
    requires Sized(t, xMax) && AllFit(es, xMax, isNew) && x < if second then xMax else FLASH1_SIZE
    ensures var (r, last) := (Loaded(t, es, xMax, isNew), FlashLine(es, isNew, second, x));
      (if second then r.flash2[x] else r.flash1[x])
        == if last.Some? then last.value.value else if second then t.flash2[x] else t.flash1[x]
    decreases |es|
  {
    if es != [] { FlashLoaded(t, es[..|es| - 1], xMax, isNew, second, x); }
  }

  /** After loading, the last line that names an external address decides its register. */
  lemma {:induction false} AddressLoaded(t: Tables, es: seq<Entry>, xMax: nat, isNew: NewFlash, y: nat)
    requires Sized(t, xMax) && AllFit(es, xMax, isNew) && y < REGISTERS
    ensures var (r, last) := (Loaded(t, es, xMax, isNew), AddressLine(es, y));
      if last.None? then (r.mapped[y], r.ramY[y]) == (t.mapped[y], t.ramY[y])
      else
        var (x0, y0) := (last.value.x0, last.value.y0);
        r.mapped[y] && r.ramY[y] == x0 + (if y0 <= 40001 then y else 40001 + y - y0) && r.ramY[y] < xMax
    decreases |es|
  {
    if es != [] { AddressLoaded(t, es[..|es| - 1], xMax, isNew, y); }
  }

  /** Tables in which every mapped address leads to a register, and flash 1 registers have room. */
  predicate Usable(t: Tables, xMax: nat) {
    && Sized(t, xMax)
    && (forall y :: 0 <= y < REGISTERS && t.mapped[y] ==> t.ramY[y] < xMax)
    && (forall x :: 0 <= x < xMax && t.kind[x] == Flash1 ==> x < FLASH1_SIZE)
  }

  /** Loading a file keeps the tables usable by the register calls. */
  lemma {:induction false} LoadedUsable(t: Tables, es: seq<Entry>, xMax: nat, isNew: NewFlash)
    requires Usable(t, xMax) && AllFit(es, xMax, isNew)
    ensures Usable(Loaded(t, es, xMax, isNew), xMax)
    decreases |es|
  {
    if es != [] { LoadedUsable(t, es[..|es| - 1], xMax, isNew); }
  }

  // ----- the loop, in place -----

  lemma PaintMore<T>(s: seq<T>, x: nat, c: nat, v: T)
    requires x + c < |s|
    ensures Painted(s, x, c + 1, v) == Painted(s, x, c, v)[x + c := v]
  {
  }

  lemma NumberMore(s: seq<Word>, y: nat, c: nat, x: nat)
    requires y + c < |s| && x + c + 1 < 0x10000
    ensures Numbered(s, y, c + 1, x) == Numbered(s, y, c, x)[y + c := x + c]
  {
  }

  /** A line grows by one register. */
  lemma ApplyMore(t: Tables, b: Block, c: nat, xMax: nat, isNew: NewFlash)
    requires Fits(b, xMax, isNew) && c < b.count && Sized(Apply(t, b.(count := c), isNew), xMax)
    ensures var (r, i, j) := (Apply(t, b.(count := c), isNew), b.x + c, b.y + c);
      Apply(t, b.(count := c + 1), isNew) == Tables(
        r.ramX[i := b.value], r.kind[i := b.kind], r.record[i := b.record], r.access[i := b.access],
        r.ramY[j := i], r.mapped[j := true],
        if ToFlash1(b, isNew) then r.flash1[i := b.value] else r.flash1,
        if ToFlash2(b, isNew) then r.flash2[i := b.value] else r.flash2)
  {
    hide Painted, Numbered;
    PaintMore(t.ramX, b.x, c, b.value);
    PaintMore(t.kind, b.x, c, b.kind);
    PaintMore(t.record, b.x, c, b.record);
    PaintMore(t.access, b.x, c, b.access);
    NumberMore(t.ramY, b.y, c, b.x);
    PaintMore(t.mapped, b.y, c, true);
    if ToFlash1(b, isNew) { PaintMore(t.flash1, b.x, c, b.value); }
    if ToFlash2(b, isNew) { PaintMore(t.flash2, b.x, c, b.value); }
  }

  class WellTables {
    const ramX: array<Word>
    const kind: array<Kind>
    const record: array<bool>
    const access: array<Access>
    const ramY: array<Word>
    const mapped: array<bool>
    const flash1: array<Word>
    const flash2: array<Word>

    ghost predicate Apart() {
      && ramX != ramY && ramX != flash1 && ramX != flash2 && ramY != flash1 && ramY != flash2 && flash1 != flash2
      && record != mapped
    }

    /** Cleared memory, and the words of the flash areas. */
    constructor (xMax: nat, flash1: seq<Word>, flash2: seq<Word>)
      ensures Apart() && Now() == Cleared(xMax, flash1, flash2)
      ensures fresh(ramX) && fresh(kind) && fresh(record) && fresh(access)
      ensures fresh(ramY) && fresh(mapped) && fresh(this.flash1) && fresh(this.flash2)
    {
      ramX := new Word[xMax](_ => 0xFFFF);
      kind := new Kind[xMax](_ => Null);
      record := new bool[xMax](_ => false);
      access := new Access[xMax](_ => ReadOnly);
      ramY := new Word[REGISTERS](_ => 0xFFFF);
      mapped := new bool[REGISTERS](_ => false);
      this.flash1 := new Word[|flash1|](i requires 0 <= i < |flash1| => flash1[i]);
      this.flash2 := new Word[|flash2|](i requires 0 <= i < |flash2| => flash2[i]);
    }

    ghost function Now(): Tables
      reads ramX, kind, record, access, ramY, mapped, flash1, flash2
    {
      Tables(ramX[..], kind[..], record[..], access[..], ramY[..], mapped[..], flash1[..], flash2[..])
    }

    /** One register of a line. */
    method SetOne(b: Block, c: nat, xMax: nat, isNew: NewFlash, ghost t: Tables)
      requires Apart() && Sized(Now(), xMax) && Fits(b, xMax, isNew) && c < b.count
      requires Now() == Apply(t, b.(count := c), isNew)
      modifies ramX, kind, record, access, ramY, mapped, flash1, flash2
      ensures Now() == Apply(t, b.(count := c + 1), isNew)
    {
      hide Apply;
      var i, j := b.x + c, b.y + c;
      ghost var r := Now();
      ApplyMore(t, b, c, xMax, isNew);
      ramX[i] := b.value;
      kind[i] := b.kind;
      record[i] := b.record;
      access[i] := b.access;
      ramY[j] := i;
      mapped[j] := true;
      if (b.kind == Sys || b.kind == Flash1) && isNew.flash1 {
        flash1[i] := b.value;
      } else if (b.kind == Sys || b.kind == Flash2) && isNew.flash2 {
        flash2[i] := b.value;
      }
      assert ramX[..] == r.ramX[i := b.value] && ramY[..] == r.ramY[j := i] && mapped[..] == r.mapped[j := true];
      assert kind[..] == r.kind[i := b.kind] && record[..] == r.record[i := b.record];
      assert access[..] == r.access[i := b.access];
      assert flash1[..] == if ToFlash1(b, isNew) then r.flash1[i := b.value] else r.flash1;
      assert flash2[..] == if ToFlash2(b, isNew) then r.flash2[i := b.value] else r.flash2;
    }

    /** The line loop. */
    method LoadLines(es: seq<Entry>, xMax: nat, isNew: NewFlash)
      requires Apart() && Sized(Now(), xMax) && AllFit(es, xMax, isNew)
      modifies ramX, kind, record, access, ramY, mapped, flash1, flash2
      ensures Now() == Loaded(old(Now()), es, xMax, isNew)
    {
      hide Apply;
      var k := 0;
      while k < |es|
        invariant 0 <= k <= |es| && Now() == Loaded(old(Now()), es[..k], xMax, isNew)
      {
        assert es[..k + 1][..k] == es[..k];
        var e := es[k];
        k := k + 1;
        if Skipped(e) { continue; }
        var b := BlockOf(e);
        ghost var t := Now();
        var c := 0;
        NothingPainted(t, b, isNew);
        while c < b.count
          invariant 0 <= c <= b.count && Now() == Apply(t, b.(count := c), isNew) && Sized(Now(), xMax)
        {
          SetOne(b, c, xMax, isNew, t);
          c := c + 1;
        }
        assert b.(count := c) == b;
      }
      assert es[..k] == es;
    }
  }

  lemma NothingPainted(t: Tables, b: Block, isNew: NewFlash)
    requires b.x < 0x10000
    ensures Apply(t, b.(count := 0), isNew) == t
  {
  }

  // ----- all wells -----

  predicate AllUsable(tables: seq<Tables>, xMax: nat) {
    |tables| == WELLS && forall w {:trigger tables[w]} :: 0 <= w < WELLS ==> Usable(tables[w], xMax)
  }

  /** The tables of every well have their sizes, and what they map is there. */
  lemma UsableShape(tables: seq<Tables>, xMax: nat)
    requires AllUsable(tables, xMax)
    ensures |tables| == WELLS && forall w {:trigger tables[w]} :: 0 <= w < WELLS ==> Sized(tables[w], xMax)
    ensures forall w, y :: 0 <= w < WELLS && 0 <= y < REGISTERS && tables[w].mapped[y] ==> tables[w].ramY[y] < xMax
    ensures forall w, x :: 0 <= w < WELLS && 0 <= x < xMax && tables[w].kind[x] == Flash1 ==> x < FLASH1_SIZE
  {
  }

  /** What the loaded tables fix for the register calls. */
  function LayoutOf(tables: seq<Tables>, xMax: nat): (l: Layout)
    requires AllUsable(tables, xMax)
    ensures GoodLayout(l) && l.xMax == xMax
    ensures forall w {:trigger tables[w]} :: 0 <= w < WELLS ==>
      l.kind[w] == tables[w].kind && l.mapped[w] == tables[w].mapped
  {
    UsableShape(tables, xMax);
    Layout(xMax,
      seq(WELLS, w requires 0 <= w < WELLS => tables[w].kind),
      seq(WELLS, w requires 0 <= w < WELLS => tables[w].access),
      seq(WELLS, w requires 0 <= w < WELLS => tables[w].record),
      seq(WELLS, w requires 0 <= w < WELLS => tables[w].mapped))
  }

  /** The word the loaded tables give a cell. */
  function CellWord(tables: seq<Tables>, xMax: nat, common: seq<Word>, c: Cell): Word
    requires AllUsable(tables, xMax) && |common| == FLASH1_SIZE
  {
    UsableShape(tables, xMax);
    match c
    case Shared(x) => if x < FLASH1_SIZE then common[x] else 0
    case Own(w, x) =>
      if w >= WELLS || x >= xMax then 0
      else if tables[w].kind[x] == Flash2 then tables[w].flash2[x] else tables[w].ramX[x]
  }

  ghost function StoreOf(tables: seq<Tables>, xMax: nat, common: seq<Word>): Store
    requires AllUsable(tables, xMax) && |common| == FLASH1_SIZE
  {
    var l := LayoutOf(tables, xMax);
    var cells := set w: nat, x: nat | w < WELLS && x < xMax :: CellOf(l, w, x);
    map c | c in cells :: CellWord(tables, xMax, common, c)
  }

  lemma StoreHolds(tables: seq<Tables>, xMax: nat, common: seq<Word>)
    requires AllUsable(tables, xMax) && |common| == FLASH1_SIZE
    ensures var (l, s) := (LayoutOf(tables, xMax), StoreOf(tables, xMax, common));
      Complete(l, s)
      && forall w, x :: InRange(l, w, x) ==> Value(l, s, w, x) == CellWord(tables, xMax, common, CellOf(l, w, x))
  {
    hide LayoutOf, CellWord, AllUsable;
  }

  // ----- from cleared memory to loaded tables -----

  /** A well as `ram_flash_create` leaves it: nothing is mapped, and the flash areas hold what their
      files held. */
  function Cleared(xMax: nat, flash1: seq<Word>, flash2: seq<Word>): (t: Tables)
    ensures |t.ramX| == |t.kind| == |t.record| == |t.access| == xMax && |t.mapped| == |t.ramY| == REGISTERS
    ensures forall x :: 0 <= x < xMax ==>
      (t.ramX[x], t.kind[x], t.record[x], t.access[x]) == (0xFFFF, Null, false, ReadOnly)
    ensures forall y :: 0 <= y < REGISTERS ==> (t.mapped[y], t.ramY[y]) == (false, 0xFFFF)
  {
    Tables(
      seq<Word>(xMax, _ => 0xFFFF), seq(xMax, _ => Null), seq(xMax, _ => false), seq(xMax, _ => ReadOnly),
      seq<Word>(REGISTERS, _ => 0xFFFF), seq(REGISTERS, _ => false), flash1, flash2)
  }

  function Spliced<T>(s: seq<T>, t: seq<T>): (r: seq<T>)
    requires FLASH1_SIZE <= |s| == |t|
    ensures |r| == |s| && forall i :: 0 <= i < |r| ==> r[i] == if i < FLASH1_SIZE then s[i] else t[i]
  {
    s[..FLASH1_SIZE] + t[FLASH1_SIZE..]
  }

  /** What the first well's tables leave in another well: the common registers and the whole map, and
      the flash 2 words if that area is new. */
  function Copied(first: Tables, own: Tables, xMax: nat, isNew: NewFlash): Tables
    requires Sized(first, xMax) && Sized(own, xMax) && FLASH1_SIZE <= xMax
  {
    Tables(
      Spliced(first.ramX, own.ramX), Spliced(first.kind, own.kind), Spliced(first.record, own.record),
      Spliced(first.access, own.access), first.ramY, first.mapped, first.flash1,
      if isNew.flash2 then Spliced(first.flash2, own.flash2) else own.flash2)
  }

  /** The parsed map files and the flash areas that `map_init` starts from.  The type of a well whose
      map file was not found is reset to 1. */
  datatype Sources = Sources(common: seq<Entry>, wells: seq<seq<Entry>>, unknown: seq<bool>,
                             flash1: seq<Word>, flash2: seq<seq<Word>>, isNew: NewFlash)

  /** The flash 1 area belongs to all wells and takes defaults from the common file only. */
  predicate Loadable(s: Sources, xMax: nat) {
    && |s.wells| == |s.unknown| == |s.flash2| == WELLS && |s.flash1| == FLASH1_SIZE <= xMax
    && (forall w {:trigger s.flash2[w]} :: 0 <= w < WELLS ==> |s.flash2[w]| == xMax)
    && AllFit(s.common, xMax, s.isNew)
    && (forall w {:trigger s.wells[w]} :: 0 <= w < WELLS ==> AllFit(s.wells[w], xMax, s.isNew.(flash1 := false)))
  }

  function CommonTables(s: Sources, xMax: nat): (t: Tables)
    requires Loadable(s, xMax)
    ensures Sized(t, xMax)
  {
    Loaded(Cleared(xMax, s.flash1, s.flash2[0]), s.common, xMax, s.isNew)
  }

  /** A well before its own file is read. */
  function Prepared(s: Sources, xMax: nat, w: nat): (t: Tables)
    requires Loadable(s, xMax) && w < WELLS
    ensures Sized(t, xMax)
  {
    var t := CommonTables(s, xMax);
    var c := if w == 0 then t else Copied(t, Cleared(xMax, s.flash1, s.flash2[w]), xMax, s.isNew);
    if s.unknown[w] then c.(flash2 := c.flash2[0 := 1]) else c
  }

  /** `map_init`: the common file into the first well, its tables copied to the others, then the file of
      each well over them. */
  function InitTables(s: Sources, xMax: nat): (tables: seq<Tables>)
    requires Loadable(s, xMax)
    ensures |tables| == WELLS
    ensures forall w {:trigger tables[w]} :: 0 <= w < WELLS ==>
      tables[w] == Loaded(Prepared(s, xMax, w), s.wells[w], xMax, s.isNew.(flash1 := false))
  {
    seq(WELLS, w requires 0 <= w < WELLS =>
      Loaded(Prepared(s, xMax, w), s.wells[w], xMax, s.isNew.(flash1 := false)))
  }

  lemma PreparedUsable(s: Sources, xMax: nat, w: nat)
    requires Loadable(s, xMax) && w < WELLS
    ensures Usable(Prepared(s, xMax, w), xMax)
  {
    hide Loaded;
    LoadedUsable(Cleared(xMax, s.flash1, s.flash2[0]), s.common, xMax, s.isNew);
  }

  /** The tables that `map_init` builds can be used by the register calls. */
  lemma InitUsable(s: Sources, xMax: nat)
    requires Loadable(s, xMax)
    ensures AllUsable(InitTables(s, xMax), xMax)
  {
    hide InitTables, Prepared, Usable, Loaded;
    var tables := InitTables(s, xMax);
    forall w {:trigger tables[w]} | 0 <= w < WELLS ensures Usable(tables[w], xMax) {
      PreparedUsable(s, xMax, w);
      LoadedUsable(Prepared(s, xMax, w), s.wells[w], xMax, s.isNew.(flash1 := false));
    }
  }

  /** After `map_init` the last line of the well's own file that names a register fixes everything about
      it; if there is none, the last line of the common file does, in another well than the first only
      for the common registers; any other register is as it was cleared. */
  lemma InitRegister(s: Sources, xMax: nat, w: nat, x: nat)
    requires Loadable(s, xMax) && w < WELLS && x < xMax
    ensures var r := InitTables(s, xMax)[w];
      var (own, common) := (RegisterLine(s.wells[w], x), RegisterLine(s.common, x));
      Sized(r, xMax) && (r.ramX[x], r.kind[x], r.record[x], r.access[x]) ==
        if own.Some? then (own.value.value, own.value.kind, own.value.record, own.value.access)
        else if common.Some? && (w == 0 || x < FLASH1_SIZE) then
          (common.value.value, common.value.kind, common.value.record, common.value.access)
        else (0xFFFF, Null, false, ReadOnly)
  {
    hide Loaded, RegisterLine;
    RegisterLoaded(Prepared(s, xMax, w), s.wells[w], xMax, s.isNew.(flash1 := false), x);
    RegisterLoaded(Cleared(xMax, s.flash1, s.flash2[0]), s.common, xMax, s.isNew, x);
  }

  /** An external address stands for the register of the last line of the well's own file that names it,
      else of the common file, else for a word of its own. */
  lemma InitAddress(s: Sources, xMax: nat, w: nat, y: nat)
    requires Loadable(s, xMax) && w < WELLS && y < REGISTERS
    ensures var r := InitTables(s, xMax)[w];
      var (own, common) := (AddressLine(s.wells[w], y), AddressLine(s.common, y));
      var last := if own.Some? then own else common;
      Sized(r, xMax) && r.mapped[y] == last.Some?
      && r.ramY[y] ==
           if last.None? then 0xFFFF
           else last.value.x0 + if last.value.y0 <= 40001 then y else 40001 + y - last.value.y0
  {
    hide Loaded, AddressLine;
    AddressLoaded(Prepared(s, xMax, w), s.wells[w], xMax, s.isNew.(flash1 := false), y);
    AddressLoaded(Cleared(xMax, s.flash1, s.flash2[0]), s.common, xMax, s.isNew, y);
  }
}
