/** The external register space of data/map.c: addresses that hold a word of their own or stand for
    a register of the well. */
module RegisterExternal {
  import opened Options
  import opened RegisterStore

  /** The word as the other byte order sees it, on a little-endian machine. */
  function Ordered(v: Word, bigL: bool): Word {
    if bigL then v % 256 * 256 + v / 256 else v
  }

  function AllOrdered(s: seq<Word>, bigL: bool): (r: seq<Word>)
    ensures |r| == |s| && forall k :: 0 <= k < |s| ==> r[k] == Ordered(s[k], bigL)
  {
    seq<Word>(|s|, k requires 0 <= k < |s| => Ordered(s[k], bigL))
  }

  lemma OrderedTwice(v: Word, bigL: bool)
    ensures Ordered(Ordered(v, bigL), bigL) == v
  {
  }

  /** The `ram_y` words of one well: a register number where the address is mapped. */
  ghost predicate GoodRow(l: Layout, w: nat, row: seq<Word>)
    requires GoodLayout(l) && w < WELLS
  {
    |row| == REGISTERS && forall i :: 0 <= i < REGISTERS && l.mapped[w][i] ==> row[i] < l.xMax
  }

  /** The store, the well's row, and how much of the input buffer has been used. */
  datatype Outer = Outer(store: Store, row: seq<Word>, used: nat)

  ghost predicate Good(l: Layout, w: nat, e: Outer) {
    GoodLayout(l) && w < WELLS && Complete(l, e.store) && GoodRow(l, w, e.row)
  }

  predicate Writable(l: Layout, w: nat, row: seq<Word>, i: nat)
    requires GoodLayout(l) && w < WELLS && GoodRow(l, w, row) && i < REGISTERS
  {
    !l.mapped[w][i] || l.access[w][row[i]] == ReadWrite
  }

  /** One turn of `map_modbus_write_registers`; the word is not used up where the register is not
      marked read-write. */
  function WriteTurn(l: Layout, w: nat, e: Outer, i: nat, v: Word): (r: Outer)
    requires Good(l, w, e) && i < REGISTERS
    ensures Good(l, w, r) && e.used <= r.used <= e.used + 1
  {
    if !Writable(l, w, e.row, i) then e
    else if l.mapped[w][i] then e.(store := e.store[CellOf(l, w, e.row[i]) := v], used := e.used + 1)
    else e.(row := e.row[i := v], used := e.used + 1)
  }

  function WriteAll(l: Layout, w: nat, e: Outer, addr: nat, n: nat, buf: seq<Word>, bigL: bool): (r: Outer)
    requires Good(l, w, e) && addr + n <= REGISTERS && n <= |buf| && e.used == 0
    ensures Good(l, w, r) && r.used <= n
    decreases n
  {
    if n == 0 then e
    else
      var before := WriteAll(l, w, e, addr, n - 1, buf, bigL);
      WriteTurn(l, w, before, addr + n - 1, Ordered(buf[before.used], bigL))
  }

  function ReadAt(l: Layout, w: nat, e: Outer, i: nat): Word
    requires Good(l, w, e) && i < REGISTERS
  {
    if l.mapped[w][i] then Value(l, e.store, w, e.row[i]) else e.row[i]
  }

  /** How many of the first k addresses take a word. */
  function Taken(l: Layout, w: nat, row: seq<Word>, addr: nat, k: nat): (r: nat)
    requires GoodLayout(l) && w < WELLS && GoodRow(l, w, row) && addr + k <= REGISTERS
    ensures r <= k
  {
    if k == 0 then 0
    else Taken(l, w, row, addr, k - 1) + if Writable(l, w, row, addr + k - 1) then 1 else 0
  }

  /** A write to this address reaches a register. */
  predicate Takes(l: Layout, w: nat, row: seq<Word>, i: nat)
    requires GoodLayout(l) && w < WELLS && GoodRow(l, w, row) && i < REGISTERS
  {
    l.mapped[w][i] && Writable(l, w, row, i)
  }

  /** No two writable addresses of the range stand for the same register. */
  ghost predicate Distinct(l: Layout, w: nat, row: seq<Word>, addr: nat, n: nat)
    requires GoodLayout(l) && w < WELLS && GoodRow(l, w, row) && addr + n <= REGISTERS
  {
    forall i, j :: addr <= i < j < addr + n && Takes(l, w, row, i) && Takes(l, w, row, j) ==> row[i] != row[j]
  }

  /** Mapped addresses keep their register, and the words used are those of the writable addresses. */
  lemma {:induction false} WriteKeepsMap(l: Layout, w: nat, e: Outer, addr: nat, n: nat, buf: seq<Word>, bigL: bool)
    requires Good(l, w, e) && addr + n <= REGISTERS && n <= |buf| && e.used == 0
    ensures var r := WriteAll(l, w, e, addr, n, buf, bigL);
      (forall i :: 0 <= i < REGISTERS && (l.mapped[w][i] || !(addr <= i < addr + n)) ==> r.row[i] == e.row[i])
      && r.used == Taken(l, w, e.row, addr, n)
    decreases n
  {
    if n > 0 { WriteKeepsMap(l, w, e, addr, n - 1, buf, bigL); }
  }

  /** Two addresses that a read or a write cannot tell apart. */
  predicate SamePlace(l: Layout, w: nat, row: seq<Word>, i: nat, j: nat)
    requires GoodLayout(l) && w < WELLS && GoodRow(l, w, row) && i < REGISTERS && j < REGISTERS
  {
    i == j || (l.mapped[w][i] && l.mapped[w][j] && row[i] == row[j])
  }

  /** The last of the first n addresses whose word reaches the place of address j. */
  function LastWriter(l: Layout, w: nat, row: seq<Word>, addr: nat, n: nat, j: nat): (r: Option<nat>)
    requires GoodLayout(l) && w < WELLS && GoodRow(l, w, row) && addr + n <= REGISTERS && j < REGISTERS
    ensures r.Some? ==> r.value < n
  {
    if n == 0 then None
    else if Writable(l, w, row, addr + n - 1) && SamePlace(l, w, row, addr + n - 1, j) then Some(n - 1)
    else LastWriter(l, w, row, addr, n - 1, j)
  }

  /** What an external write leaves at every address: the word of the last writable address of the
      range that stands for the same place, and what was there if there is none. */
  lemma {:induction false} WrittenValue(l: Layout, w: nat, e: Outer, addr: nat, n: nat, buf: seq<Word>, bigL: bool,
                                        j: nat)
    requires Good(l, w, e) && addr + n <= REGISTERS && n <= |buf| && e.used == 0 && j < REGISTERS
    ensures ReadAt(l, w, WriteAll(l, w, e, addr, n, buf, bigL), j) ==
      var m := LastWriter(l, w, e.row, addr, n, j);
      if m.Some? then Ordered(buf[Taken(l, w, e.row, addr, m.value)], bigL) else ReadAt(l, w, e, j)
    decreases n
  {
    hide WriteAll, WriteTurn, ReadAt, Ordered;
    if n == 0 {
      NothingWritten(l, w, e, addr, buf, bigL);
    } else {
      WrittenValue(l, w, e, addr, n - 1, buf, bigL, j);
      WriteKeepsMap(l, w, e, addr, n - 1, buf, bigL);
      LastTurn(l, w, e, addr, n, buf, bigL);
      var before := WriteAll(l, w, e, addr, n - 1, buf, bigL);
      TurnSeen(l, w, before, addr + n - 1, Ordered(buf[before.used], bigL), j);
      SamePlaces(l, w, e.row, before.row, addr + n - 1, j);
    }
  }

  /** The map is all that decides which addresses are one place, and which are writable. */
  lemma SamePlaces(l: Layout, w: nat, row: seq<Word>, later: seq<Word>, i: nat, j: nat)
    requires GoodLayout(l) && w < WELLS && GoodRow(l, w, row) && GoodRow(l, w, later)
    requires i < REGISTERS && j < REGISTERS
    requires forall k :: 0 <= k < REGISTERS && l.mapped[w][k] ==> later[k] == row[k]
    ensures SamePlace(l, w, later, i, j) == SamePlace(l, w, row, i, j)
    ensures Writable(l, w, later, i) == Writable(l, w, row, i)
  {
  }

  lemma NothingWritten(l: Layout, w: nat, e: Outer, addr: nat, buf: seq<Word>, bigL: bool)
    requires Good(l, w, e) && addr <= REGISTERS && e.used == 0
    ensures WriteAll(l, w, e, addr, 0, buf, bigL) == e
  {
  }

  lemma LastTurn(l: Layout, w: nat, e: Outer, addr: nat, n: nat, buf: seq<Word>, bigL: bool)
    requires Good(l, w, e) && addr + n <= REGISTERS && 0 < n <= |buf| && e.used == 0
    ensures var before := WriteAll(l, w, e, addr, n - 1, buf, bigL);
      WriteAll(l, w, e, addr, n, buf, bigL) == WriteTurn(l, w, before, addr + n - 1, Ordered(buf[before.used], bigL))
  {
  }

  /** A turn at a writable address changes exactly the addresses that are the same place. */
  lemma TurnSeen(l: Layout, w: nat, e: Outer, i: nat, v: Word, j: nat)
    requires Good(l, w, e) && i < REGISTERS && j < REGISTERS
    ensures ReadAt(l, w, WriteTurn(l, w, e, i, v), j) ==
      if Writable(l, w, e.row, i) && SamePlace(l, w, e.row, i, j) then v else ReadAt(l, w, e, j)
  {
  }

  /** Address addr + k is the last one to write its place, as no later one stands for its register. */
  lemma {:induction false} LastOfPlace(l: Layout, w: nat, row: seq<Word>, addr: nat, n: nat, m: nat, k: nat)
    requires GoodLayout(l) && w < WELLS && GoodRow(l, w, row) && addr + n <= REGISTERS && k < m <= n
    requires Writable(l, w, row, addr + k)
    requires forall i :: addr + k < i < addr + n && l.mapped[w][addr + k] && l.mapped[w][i] ==> row[i] != row[addr + k]
    ensures LastWriter(l, w, row, addr, m, addr + k) == Some(k)
    decreases m
  {
    hide Writable;
    if k < m - 1 { LastOfPlace(l, w, row, addr, n, m - 1, k); }
  }

  /** The words used before an address are as many as there are addresses before it that are not
      mapped or whose register is marked read-write. */
  lemma {:induction false} TakenCounts(l: Layout, w: nat, row: seq<Word>, addr: nat, k: nat)
    requires GoodLayout(l) && w < WELLS && GoodRow(l, w, row) && addr + k <= REGISTERS
    ensures Taken(l, w, row, addr, k)
         == |set i | addr <= i < addr + k && (!l.mapped[w][i] || l.access[w][row[i]] == ReadWrite)|
    decreases k
  {
    if k > 0 {
      TakenCounts(l, w, row, addr, k - 1);
      var m := addr + k - 1;
      var before := set i | addr <= i < m && (!l.mapped[w][i] || l.access[w][row[i]] == ReadWrite);
      var all := set i | addr <= i < addr + k && (!l.mapped[w][i] || l.access[w][row[i]] == ReadWrite);
      assert m !in before;
      assert all == if Writable(l, w, row, m) then before + {m} else before;
    }
  }

  lemma OrderedBytes(v: Word, bigL: bool)
    ensures var r := Ordered(v, bigL);
      if bigL then r % 256 == v / 256 && r / 256 == v % 256 else r == v
  {
  }

  /** The word that a writable address holds after an external write, if no later address of the range
      stands for its register: one of the buffer, with its bytes exchanged in the other byte order. */
  lemma WordWritten(l: Layout, w: nat, e: Outer, addr: nat, n: nat, buf: seq<Word>, bigL: bool, k: nat)
    requires Good(l, w, e) && addr + n <= REGISTERS && n <= |buf| && e.used == 0 && k < n
    requires !l.mapped[w][addr + k] || l.access[w][e.row[addr + k]] == ReadWrite
    requires forall i :: addr + k < i < addr + n && l.mapped[w][addr + k] && l.mapped[w][i] ==>
      e.row[i] != e.row[addr + k]
    ensures var r := WriteAll(l, w, e, addr, n, buf, bigL);
      var u := |set i | addr <= i < addr + k && (!l.mapped[w][i] || l.access[w][e.row[i]] == ReadWrite)|;
      var v := if l.mapped[w][addr + k] then Value(l, r.store, w, e.row[addr + k]) else r.row[addr + k];
      u <= k && if bigL then v % 256 == buf[u] / 256 && v / 256 == buf[u] % 256 else v == buf[u]
  {
    hide WriteAll, Ordered, LastWriter, Taken;
    WrittenValue(l, w, e, addr, n, buf, bigL, addr + k);
    LastOfPlace(l, w, e.row, addr, n, n, k);
    TakenCounts(l, w, e.row, addr, k);
    WriteKeepsMap(l, w, e, addr, n, buf, bigL);
    OrderedBytes(buf[Taken(l, w, e.row, addr, k)], bigL);
  }

  /** No external write changes a register of the well that is not marked read-write. */
  lemma {:induction false} RegisterKept(l: Layout, w: nat, e: Outer, addr: nat, n: nat, buf: seq<Word>, bigL: bool,
                                        x: nat)
    requires Good(l, w, e) && addr + n <= REGISTERS && n <= |buf| && e.used == 0
    requires x < l.xMax && l.access[w][x] != ReadWrite
    ensures Value(l, WriteAll(l, w, e, addr, n, buf, bigL).store, w, x) == Value(l, e.store, w, x)
    decreases n
  {
    if n > 0 { RegisterKept(l, w, e, addr, n - 1, buf, bigL, x); }
  }

  /** Another well sees an external write only in flash 1 registers that both wells keep there and
      that the written well may write. */
  lemma {:induction false} OtherWellKept(l: Layout, w: nat, e: Outer, addr: nat, n: nat, buf: seq<Word>, bigL: bool,
                                         v: nat, x: nat)
    requires Good(l, w, e) && addr + n <= REGISTERS && n <= |buf| && e.used == 0
    requires v != w && InRange(l, v, x)
    requires l.kind[v][x] != Flash1 || l.kind[w][x] != Flash1 || l.access[w][x] != ReadWrite
    ensures Value(l, WriteAll(l, w, e, addr, n, buf, bigL).store, v, x) == Value(l, e.store, v, x)
    decreases n
  {
    if n > 0 { OtherWellKept(l, w, e, addr, n - 1, buf, bigL, v, x); }
  }

  ghost predicate AllWritable(l: Layout, w: nat, row: seq<Word>, addr: nat, n: nat)
    requires GoodLayout(l) && w < WELLS && GoodRow(l, w, row) && addr + n <= REGISTERS
  {
    forall i :: addr <= i < addr + n ==> Writable(l, w, row, i)
  }

  lemma {:induction false} TakenAll(l: Layout, w: nat, row: seq<Word>, addr: nat, n: nat, k: nat)
    requires GoodLayout(l) && w < WELLS && GoodRow(l, w, row) && addr + n <= REGISTERS && k <= n
    requires AllWritable(l, w, row, addr, n)
    ensures Taken(l, w, row, addr, k) == k
    decreases k
  {
    if k > 0 { TakenAll(l, w, row, addr, n, k - 1); }
  }

  /** Writing a range and reading it in the same byte order gives the words back, if every address of
      it is writable and no two stand for one register. */
  lemma ReadBack(l: Layout, w: nat, e: Outer, addr: nat, n: nat, buf: seq<Word>, bigL: bool, k: nat)
    requires Good(l, w, e) && addr + n <= REGISTERS && n <= |buf| && e.used == 0 && k < n
    requires Distinct(l, w, e.row, addr, n) && AllWritable(l, w, e.row, addr, n)
    ensures Ordered(ReadAt(l, w, WriteAll(l, w, e, addr, n, buf, bigL), addr + k), bigL) == buf[k]
  {
    hide WriteAll, ReadAt, LastWriter, Ordered, Writable, Taken;
    WrittenValue(l, w, e, addr, n, buf, bigL, addr + k);
    forall i | addr + k < i < addr + n && l.mapped[w][addr + k] && l.mapped[w][i]
      ensures e.row[i] != e.row[addr + k]
    {
      assert Takes(l, w, e.row, addr + k) && Takes(l, w, e.row, i);
    }
    LastOfPlace(l, w, e.row, addr, n, n, k);
    TakenAll(l, w, e.row, addr, n, k);
    OrderedTwice(buf[k], bigL);
  }

  ghost predicate ReadsBack(l: Layout, w: nat, e: Outer, addr: nat, n: nat, buf: seq<Word>, bigL: bool)
    requires Good(l, w, e) && addr + n <= REGISTERS && n <= |buf| && e.used == 0
  {
    forall k :: 0 <= k < n ==> Ordered(ReadAt(l, w, WriteAll(l, w, e, addr, n, buf, bigL), addr + k), bigL) == buf[k]
  }

  /** A read-only address of the range keeps its word, so one of any two different words is not read
      back from it. */
  lemma ReadOnlyShows(l: Layout, w: nat, e: Outer, addr: nat, n: nat, bigL: bool, k: nat, x: seq<Word>, y: seq<Word>)
    requires Good(l, w, e) && addr + n <= REGISTERS && n == |x| == |y| && e.used == 0 && k < n
    requires !Writable(l, w, e.row, addr + k) && x[k] != y[k]
    ensures !ReadsBack(l, w, e, addr, n, x, bigL) || !ReadsBack(l, w, e, addr, n, y, bigL)
  {
    hide WriteAll, ReadAt, Ordered, LastWriter;
    NoWriter(l, w, e.row, addr, n, addr + k);
    WrittenValue(l, w, e, addr, n, x, bigL, addr + k);
    WrittenValue(l, w, e, addr, n, y, bigL, addr + k);
  }

  lemma {:induction false} NoWriter(l: Layout, w: nat, row: seq<Word>, addr: nat, n: nat, j: nat)
    requires GoodLayout(l) && w < WELLS && GoodRow(l, w, row) && addr + n <= REGISTERS && j < REGISTERS
    requires !Writable(l, w, row, j)
    ensures LastWriter(l, w, row, addr, n, j) == None
    decreases n
  {
    if n > 0 { NoWriter(l, w, row, addr, n - 1, j); }
  }

  /** Two addresses for one register cannot read back two different words. */
  lemma SharedShows(l: Layout, w: nat, e: Outer, addr: nat, n: nat, buf: seq<Word>, bigL: bool, i: nat, j: nat)
    requires Good(l, w, e) && addr + n <= REGISTERS && n == |buf| && e.used == 0 && i < n && j < n
    requires l.mapped[w][addr + i] && l.mapped[w][addr + j] && e.row[addr + i] == e.row[addr + j]
    requires buf[i] != buf[j]
    ensures !ReadsBack(l, w, e, addr, n, buf, bigL)
  {
    hide WriteAll, Ordered;
    WriteKeepsMap(l, w, e, addr, n, buf, bigL);
  }

  lemma FullyWritable(l: Layout, w: nat, row: seq<Word>, addr: nat, n: nat)
    requires GoodLayout(l) && w < WELLS && GoodRow(l, w, row) && addr + n <= REGISTERS
    ensures AllWritable(l, w, row, addr, n) && Distinct(l, w, row, addr, n)
        <==> (&& (forall i :: addr <= i < addr + n && l.mapped[w][i] ==> l.access[w][row[i]] == ReadWrite)
              && (forall i, j :: addr <= i < j < addr + n && l.mapped[w][i] && l.mapped[w][j] ==> row[i] != row[j]))
  {
    if AllWritable(l, w, row, addr, n) && Distinct(l, w, row, addr, n) {
      forall i | addr <= i < addr + n && l.mapped[w][i] ensures l.access[w][row[i]] == ReadWrite {
        assert Writable(l, w, row, i);
      }
      forall i, j | addr <= i < j < addr + n && l.mapped[w][i] && l.mapped[w][j] ensures row[i] != row[j] {
        assert Takes(l, w, row, i) && Takes(l, w, row, j);
      }
    }
  }

  /** Whatever is written to a range is read back in the same byte order, exactly if every address of
      it is writable and no two stand for one register. */
  lemma ReadsBackExactly(l: Layout, w: nat, e: Outer, addr: nat, n: nat, bigL: bool)
    requires Good(l, w, e) && addr + n <= REGISTERS && e.used == 0
    ensures (forall buf: seq<Word> :: |buf| == n ==> ReadsBack(l, w, e, addr, n, buf, bigL))
        <==> (&& (forall i :: addr <= i < addr + n && l.mapped[w][i] ==> l.access[w][e.row[i]] == ReadWrite)
              && (forall i, j :: addr <= i < j < addr + n && l.mapped[w][i] && l.mapped[w][j] ==> e.row[i] != e.row[j]))
  {
    hide WriteAll, ReadAt, Ordered;
    FullyWritable(l, w, e.row, addr, n);
    var zeros: seq<Word> := seq<Word>(n, _ => 0);
    if !AllWritable(l, w, e.row, addr, n) {
      var i :| addr <= i < addr + n && !Writable(l, w, e.row, i);
      ReadOnlyShows(l, w, e, addr, n, bigL, i - addr, zeros, zeros[i - addr := 1]);
    } else if !Distinct(l, w, e.row, addr, n) {
      var i, j :| addr <= i < j < addr + n && Takes(l, w, e.row, i) && Takes(l, w, e.row, j) && e.row[i] == e.row[j];
      SharedShows(l, w, e, addr, n, zeros[j - addr := 1], bigL, i - addr, j - addr);
    } else {
      forall buf: seq<Word> | |buf| == n ensures ReadsBack(l, w, e, addr, n, buf, bigL) {
        forall k | 0 <= k < n
          ensures Ordered(ReadAt(l, w, WriteAll(l, w, e, addr, n, buf, bigL), addr + k), bigL) == buf[k]
        {
          ReadBack(l, w, e, addr, n, buf, bigL, k);
        }
      }
    }
  }

  // ----- recorded data -----

  /** The words of buf whose register is recorded, in order. */
  function Recorded(flags: seq<bool>, buf: seq<Word>): (r: seq<Word>)
    requires |buf| <= |flags|
    ensures |r| <= |buf|
    decreases |buf|
  {
    if buf == [] then []
    else
      var n := |buf| - 1;
      Recorded(flags, buf[..n]) + if flags[n] then [buf[n]] else []
  }

  lemma NothingRecorded(flags: seq<bool>)
    ensures Recorded(flags, []) == []
  {
  }

  lemma RecordedMore(flags: seq<bool>, buf: seq<Word>, k: nat)
    requires k < |buf| <= |flags|
    ensures Recorded(flags, buf[..k + 1]) == Recorded(flags, buf[..k]) + if flags[k] then [buf[k]] else []
  {
    assert buf[..k + 1][..k] == buf[..k];
  }

  /** A recorded word goes to the place that the number of recorded words before it gives. */
  lemma {:induction false} RecordedAt(flags: seq<bool>, buf: seq<Word>, k: nat)
    requires |buf| <= |flags| && k < |buf| && flags[k]
    ensures var p := |Recorded(flags, buf[..k])|;
      p < |Recorded(flags, buf)| && Recorded(flags, buf)[p] == buf[k]
    decreases |buf|
  {
    var n := |buf| - 1;
    if k < n {
      assert buf[..n][..k] == buf[..k];
      RecordedAt(flags, buf[..n], k);
    }
  }

  // ----- recorded data and the map -----

  /** A row with the recorded words packed into it from addr on. */
  function Packed(row: seq<Word>, addr: nat, data: seq<Word>): (r: seq<Word>)
    requires addr + |data| <= |row|
    ensures |r| == |row|
  {
    row[..addr] + data + row[addr + |data|..]
  }

  /** How many of the first n registers are recorded. */
  function RecordedCount(flags: seq<bool>, n: nat): (k: nat)
    requires n <= |flags|
    ensures k <= n
  {
    if n == 0 then 0 else RecordedCount(flags, n - 1) + if flags[n - 1] then 1 else 0
  }

  lemma {:induction false} RecordedLength(flags: seq<bool>, buf: seq<Word>)
    requires |buf| <= |flags|
    ensures |Recorded(flags, buf)| == RecordedCount(flags, |buf|)
    decreases |buf|
  {
    if buf != [] { RecordedLength(flags, buf[..|buf| - 1]); }
  }

  lemma {:induction false} RecordedSame(flags: seq<bool>, buf: seq<Word>, v: Word)
    requires |buf| <= |flags| && forall k :: 0 <= k < |buf| ==> buf[k] == v
    ensures forall k :: 0 <= k < |Recorded(flags, buf)| ==> Recorded(flags, buf)[k] == v
    decreases |buf|
  {
    if buf != [] { RecordedSame(flags, buf[..|buf| - 1], v); }
  }

  /** What an address holds after recorded data have been packed: of a recorded register, the word of
      the buffer, with its bytes exchanged in the other byte order, behind as many others as there are
      recorded registers before it; and behind the data and before addr, what it held. */
  lemma DataPacked(flags: seq<bool>, row: seq<Word>, addr: nat, buf: seq<Word>, bigL: bool, k: nat)
    requires |buf| <= |flags| && addr + |buf| <= |row| && k < |buf|
    ensures var after := Packed(row, addr, Recorded(flags, AllOrdered(buf, bigL)));
      var p := addr + |set i | 0 <= i < k && flags[i]|;
      p < |row| && (flags[k] ==>
        if bigL then after[p] % 256 == buf[k] / 256 && after[p] / 256 == buf[k] % 256 else after[p] == buf[k])
    ensures forall i :: 0 <= i < |row| && !(addr <= i < addr + |set j | 0 <= j < |buf| && flags[j]|) ==>
      Packed(row, addr, Recorded(flags, AllOrdered(buf, bigL)))[i] == row[i]
  {
    hide Ordered, Recorded, Packed;
    var words := AllOrdered(buf, bigL);
    var data := Recorded(flags, words);
    RecordedPlace(flags, words, k);
    OrderedBytes(buf[k], bigL);
    forall i | 0 <= i < |row|
      ensures Packed(row, addr, data)[i] == if addr <= i < addr + |data| then data[i - addr] else row[i]
    {
      PackedAt(row, addr, data, i);
    }
  }

  lemma PackedAt(row: seq<Word>, addr: nat, data: seq<Word>, i: nat)
    requires addr + |data| <= |row| && i < |row|
    ensures Packed(row, addr, data)[i] == if addr <= i < addr + |data| then data[i - addr] else row[i]
  {
  }

  lemma RecordedPlace(flags: seq<bool>, words: seq<Word>, k: nat)
    requires |words| <= |flags| && k < |words|
    ensures var (p, data) := (|set i | 0 <= i < k && flags[i]|, Recorded(flags, words));
      p <= k && (flags[k] ==> p < |data| && data[p] == words[k])
    ensures |Recorded(flags, words)| == |set i | 0 <= i < |words| && flags[i]|
  {
    hide Recorded, RecordedCount;
    RecordedLength(flags, words);
    RecordedLength(flags, words[..k]);
    CountedFlags(flags, k);
    CountedFlags(flags, |words|);
    if flags[k] { RecordedAt(flags, words, k); }
  }

  lemma {:induction false} CountedFlags(flags: seq<bool>, n: nat)
    requires n <= |flags|
    ensures RecordedCount(flags, n) == |set i | 0 <= i < n && flags[i]|
    decreases n
  {
    if n > 0 {
      CountedFlags(flags, n - 1);
      var before := set i | 0 <= i < n - 1 && flags[i];
      assert (set i | 0 <= i < n && flags[i]) == if flags[n - 1] then before + {n - 1} else before;
    }
  }

  /** Every mapped address still stands for its register. */
  predicate MapKept(mapped: seq<bool>, row: seq<Word>, after: seq<Word>)
    requires |row| == |after| == |mapped|
  {
    forall i :: 0 <= i < |mapped| && mapped[i] ==> after[i] == row[i]
  }

  predicate NoneMapped(mapped: seq<bool>, addr: nat, n: nat)
    requires addr + n <= |mapped|
  {
    forall i :: addr <= i < addr + n ==> !mapped[i]
  }

  predicate DataKeepsMap(flags: seq<bool>, mapped: seq<bool>, row: seq<Word>, addr: nat, words: seq<Word>)
    requires |row| == |mapped| && |words| <= |flags| && addr + |words| <= |row|
  {
    MapKept(mapped, row, Packed(row, addr, Recorded(flags, words)))
  }

  /** Recorded data are written whether an address is mapped or not.  The map survives all data of a
      length exactly if no mapped address lies where the words are packed. */
  lemma DataKeepsMapExactly(flags: seq<bool>, mapped: seq<bool>, row: seq<Word>, addr: nat, n: nat)
    requires |row| == |mapped| && n <= |flags| && addr + n <= |row|
    ensures (forall words: seq<Word> :: |words| == n ==> DataKeepsMap(flags, mapped, row, addr, words))
        <==> NoneMapped(mapped, addr, RecordedCount(flags, n))
  {
    hide Recorded;
    if NoneMapped(mapped, addr, RecordedCount(flags, n)) {
      forall words: seq<Word> | |words| == n ensures DataKeepsMap(flags, mapped, row, addr, words) {
        RecordedLength(flags, words);
      }
    } else {
      var i :| addr <= i < addr + RecordedCount(flags, n) && mapped[i];
      var v: Word := if row[i] == 0 then 1 else 0;
      var words: seq<Word> := seq<Word>(n, _ => v);
      RecordedLength(flags, words);
      RecordedSame(flags, words, v);
      assert Packed(row, addr, Recorded(flags, words))[i] == v;
      assert !DataKeepsMap(flags, mapped, row, addr, words);
    }
  }
}
