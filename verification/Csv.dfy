/** CSV as sqlite/shell.c writes and reads it: `output_csv`, `csv_read_one_field` and the row loop
    of `.import`, as functions on texts. */
module Csv {
  import opened CText
  import opened Options

  /** The columns bound for one INSERT; None is NULL. */
  type Row = seq<Option<Text>>

  // ----- the writer -----

  /** The table `needCsvQuote`. */
  predicate NeedCsvQuote(b: Byte) {
    b <= SPACE || b == QUOTE || b == APOSTROPHE || b >= 0x7F
  }

  predicate MustQuote(z: Text, sep: Byte) {
    z == [] || exists i :: 0 <= i < |z| && (NeedCsvQuote(z[i]) || z[i] == sep)
  }

  function FieldText(z: Text, sep: Byte): Text {
    if MustQuote(z, sep) then [QUOTE] + Doubled(z, QUOTE) + [QUOTE] else z
  }

  /** The fields of a row, with the separator between them. */
  function RowText(row: seq<Text>, sep: Byte): Text {
    if row == [] then []
    else FieldText(row[0], sep) + (if |row| > 1 then [sep] else []) + RowText(row[1..], sep)
  }

  function TableText(rows: seq<seq<Text>>, sep: Byte, newline: Text): Text {
    if rows == [] then []
    else RowText(rows[0], sep) + newline + TableText(rows[1..], sep, newline)
  }

  // ----- the reader -----

  const EOF: int := -1

  /** The character `fgetc` delivers next. */
  function Peek(s: Text): int {
    if s == [] then EOF else s[0]
  }

  function Advance(s: Text): Text {
    if s == [] then [] else s[1..]
  }

  /** The text of one field, the character that ended it, and the input that remains. */
  datatype Field = Field(value: Text, term: int, rest: Text) | NoField

  function DropCR(z: Text): Text {
    if z != [] && z[|z| - 1] == CR then z[..|z| - 1] else z
  }

  function UnquotedBody(s: Text, cSep: int, acc: Text): (f: Field)
    ensures f.Field? && |f.rest| <= |s| && (f.term != EOF ==> |f.rest| < |s|)
    decreases |s|
  {
    var c := Peek(s);
    if c == LF then Field(DropCR(acc), c, Advance(s))
    else if c == EOF || c == cSep then Field(acc, c, Advance(s))
    else UnquotedBody(s[1..], cSep, acc + [c])
  }

  /** One turn of the unquoted branch. */
  lemma UnquotedTurn(s: Text, cSep: int, acc: Text)
    ensures var c := Peek(s);
      UnquotedBody(s, cSep, acc) ==
        if c == LF then Field(DropCR(acc), c, Advance(s))
        else if c == EOF || c == cSep then Field(acc, c, Advance(s))
        else UnquotedBody(Advance(s), cSep, acc + [c])
  {
  }

  /** What ends a quoted field: a quote followed by a separator, a line end or the end of input. */
  predicate Closes(c: int, pc: int, ppc: int, cSep: int) {
    || (c == cSep && pc == QUOTE)
    || (c == LF && pc == QUOTE)
    || (c == LF && pc == CR && ppc == QUOTE)
    || (c == EOF && pc == QUOTE)
  }

  /** What stands before the last double quote: the closing quote of a field, and a carriage return
      kept after it, are dropped. */
  function BeforeLastQuote(z: Text): (r: Text)
    ensures |r| <= |z|
  {
    if z == [] then []
    else if z[|z| - 1] == QUOTE then z[..|z| - 1]
    else BeforeLastQuote(z[..|z| - 1])
  }

  /** The quoted branch; pc and ppc are the last two characters kept. */
  function QuotedBody(s: Text, cSep: int, acc: Text, pc: int, ppc: int): (f: Field)
    ensures f.Field? && |f.rest| <= |s| && (f.term != EOF ==> |f.rest| < |s|)
    decreases |s|
  {
    var c := Peek(s);
    if c == QUOTE && pc == QUOTE then QuotedBody(s[1..], cSep, acc, 0, ppc)
    else if Closes(c, pc, ppc, cSep) then Field(BeforeLastQuote(acc), c, Advance(s))
    else if c == EOF then Field(acc, EOF, [])
    else QuotedBody(s[1..], cSep, acc + [c], c, pc)
  }

  /** `csv_read_one_field`. */
  function ReadField(s: Text, cSep: int): (f: Field)
    ensures f.NoField? <==> s == []
    ensures f.Field? ==> |f.rest| <= |s| && (f.term != EOF ==> |f.rest| < |s|)
  {
    if s == [] then NoField
    else if s[0] == QUOTE then QuotedBody(s[1..], cSep, [], 0, 0)
    else UnquotedBody(s, cSep, [])
  }

  // ----- the import loop -----

  /** A C string ends at its first NUL. */
  function CString(z: Text): Text {
    if z == [] || z[0] == NUL then [] else [z[0]] + CString(z[1..])
  }

  lemma {:induction false} CutAtNul(z: Text, more: Text)
    requires NulFree(z)
    ensures CString(z + [0] + more) == z
    decreases |z|
  {
    if z == [] {
      assert z + [0] + more == [0] + more;
    } else {
      CutAtNul(z[1..], more);
      assert (z + [0] + more)[1..] == z[1..] + [0] + more;
    }
  }

  /** What `sqlite3_bind_text` binds for a field that was read, or for the null pointer. */
  function Bound(f: Field): Option<Text> {
    if f.Field? then Some(CString(f.value)) else None
  }

  function TermOf(f: Field): int { if f.Field? then f.term else EOF }

  function RestOf(f: Field): Text { if f.Field? then f.rest else [] }

  /** The cells read for a row, the value of i after the loop, and where the reader stands. */
  datatype RowRead = RowRead(cells: Row, count: int, term: int, rest: Text)

  function Nulls(n: nat): (r: Row)
    ensures |r| == n && forall k :: 0 <= k < n ==> r[k] == None
  {
    seq(n, _ => None)
  }

  /** The loop over the columns, from column i on.  On a row with too few fields the source binds
      NULL from the column it has just bound, not from the one after it. */
  function ReadRow(s: Text, cSep: int, nCol: nat, i: nat): (r: RowRead)
    requires i < nCol
    ensures |r.rest| <= |s| && (r.term != EOF ==> |r.rest| < |s|)
    ensures r.count >= nCol ==> |r.cells| == nCol - i
    decreases nCol - i
  {
    var f := ReadField(s, cSep);
    if f.NoField? && i == 0 then RowRead([], 0, EOF, [])
    else if i == nCol - 1 then RowRead([Bound(f)], nCol, TermOf(f), RestOf(f))
    else if TermOf(f) != cSep then RowRead(Nulls(nCol - i), nCol + 2, TermOf(f), RestOf(f))
    else
      var r := ReadRow(RestOf(f), cSep, nCol, i + 1);
      RowRead([Bound(f)] + r.cells, r.count, r.term, r.rest)
  }

  /** Fields beyond the last column are read and ignored. */
  function SkipExtras(s: Text, cSep: int): (r: (int, Text))
    requires cSep != EOF
    ensures |r.1| <= |s| && (r.0 != EOF ==> |r.1| < |s|)
    decreases |s|
  {
    var f := ReadField(s, cSep);
    if f.Field? && f.term == cSep then SkipExtras(f.rest, cSep) else (TermOf(f), RestOf(f))
  }

  function RowEnd(r: RowRead, cSep: int): (e: (int, Text))
    requires cSep != EOF
    ensures |e.1| <= |r.rest| && (e.0 != EOF ==> |e.1| < |r.rest| || r.term != EOF)
  {
    if r.term == cSep then SkipExtras(r.rest, cSep) else (r.term, r.rest)
  }

  function Inserted(r: RowRead, nCol: nat): seq<Row> {
    if r.count >= nCol then [r.cells] else []
  }

  /** The rows that `.import` inserts. */
  function ImportRows(s: Text, cSep: int, nCol: nat): seq<Row>
    requires cSep != EOF && nCol > 0
    decreases |s|
  {
    var r := ReadRow(s, cSep, nCol, 0);
    var e := RowEnd(r, cSep);
    if e.0 == EOF then Inserted(r, nCol) else Inserted(r, nCol) + ImportRows(e.1, cSep, nCol)
  }

  // ----- whether the import ends -----

  /** Between two turns: at the start of a row, in the loop over surplus fields, or done. */
  datatype Place = RowStart(rest: Text) | Surplus(rest: Text) | Finished

  /** One turn of the row loop, or of the loop that it may enter for surplus fields. */
  function Turn(p: Place, cSep: int, nCol: nat): Place
    requires nCol > 0
  {
    match p
    case RowStart(s) => var r := ReadRow(s, cSep, nCol, 0); Onward(r.term, r.rest, cSep)
    case Surplus(s) => var f := ReadField(s, cSep); Onward(TermOf(f), RestOf(f), cSep)
    case Finished => Finished
  }

  /** Both loops ask for the separator first, and for the end of the input last. */
  function Onward(term: int, rest: Text, cSep: int): Place {
    if term == cSep then Surplus(rest) else if term == EOF then Finished else RowStart(rest)
  }

  function Turns(p: Place, cSep: int, nCol: nat, n: nat): Place
    requires nCol > 0
    decreases n
  {
    if n == 0 then p else Turns(Turn(p, cSep, nCol), cSep, nCol, n - 1)
  }

  ghost predicate Ends(p: Place, cSep: int, nCol: nat)
    requires nCol > 0
  {
    exists n: nat :: Turns(p, cSep, nCol, n) == Finished
  }

  /** A separator that equals EOF keeps the loop over surplus fields going at the end of the input. */
  lemma {:induction false} NeverFinished(p: Place, nCol: nat, n: nat)
    requires nCol > 0 && p != Finished
    ensures Turns(p, EOF, nCol, n) != Finished
    decreases n
  {
    hide ReadRow, ReadField;
    if n > 0 { NeverFinished(Turn(p, EOF, nCol), nCol, n - 1); }
  }

  function RestAt(p: Place): nat {
    match p
    case RowStart(s) => |s|
    case Surplus(s) => |s|
    case Finished => 0
  }

  /** With any other separator every turn uses up input. */
  lemma {:induction false} FinishesAtLast(p: Place, cSep: int, nCol: nat, n: nat)
    requires nCol > 0 && cSep != EOF && n > RestAt(p)
    ensures Turns(p, cSep, nCol, n) == Finished
    decreases n
  {
    hide ReadRow, ReadField;
    var q := Turn(p, cSep, nCol);
    if n == 1 {
      assert Turns(q, cSep, nCol, 0) == q;
    } else if q == Finished {
      StaysFinished(cSep, nCol, n - 1);
    } else {
      FinishesAtLast(q, cSep, nCol, n - 1);
    }
  }

  lemma {:induction false} StaysFinished(cSep: int, nCol: nat, n: nat)
    requires nCol > 0
    ensures Turns(Finished, cSep, nCol, n) == Finished
    decreases n
  {
    if n > 0 { StaysFinished(cSep, nCol, n - 1); }
  }

  /** The import of a file ends exactly if the separator is not EOF. */
  lemma ImportEnds(s: Text, cSep: int, nCol: nat)
    requires nCol > 0
    ensures Ends(RowStart(s), cSep, nCol) <==> cSep != EOF
  {
    if cSep == EOF {
      forall n: nat ensures Turns(RowStart(s), cSep, nCol, n) != Finished {
        NeverFinished(RowStart(s), nCol, n);
      }
    } else {
      FinishesAtLast(RowStart(s), cSep, nCol, |s| + 1);
    }
  }

  /** The import ends, having inserted exactly these rows. */
  ghost predicate ImportGives(s: Text, cSep: int, nCol: nat, rows: seq<Row>)
    requires nCol > 0
  {
    ImportEnds(s, cSep, nCol);
    Ends(RowStart(s), cSep, nCol) && ImportRows(s, cSep, nCol) == rows
  }

  // ----- reading back one field -----

  predicate GoodSeparator(sep: Byte) {
    sep != QUOTE && sep != CR && sep != LF && sep != NUL
  }

  predicate IsNewline(nl: Text) {
    nl == [LF] || nl == [CR, LF]
  }

  lemma {:induction false} UnquotedRun(z: Text, cSep: int, acc: Text, t: Text)
    requires forall i :: 0 <= i < |z| ==> z[i] != LF && z[i] != cSep
    ensures UnquotedBody(z + t, cSep, acc) == UnquotedBody(t, cSep, acc + z)
    decreases |z|
  {
    if z == [] {
      assert z + t == t && acc + z == acc;
    } else {
      UnquotedRun(z[1..], cSep, acc + [z[0]], t);
      assert (z + t)[1..] == z[1..] + t;
      assert acc + [z[0]] + z[1..] == acc + z;
    }
  }

  /** No pending quote: the reader is inside the quoted text. */
  predicate Inside(pc: int, ppc: int) {
    pc != QUOTE && !(pc == CR && ppc == QUOTE)
  }

  lemma {:induction false} QuotedRun(z: Text, cSep: int, acc: Text, pc: int, ppc: int, t: Text)
    requires Inside(pc, ppc) && cSep != QUOTE && cSep != EOF
    ensures exists p, q ::
      Inside(p, q) && QuotedBody(Doubled(z, QUOTE) + t, cSep, acc, pc, ppc) == QuotedBody(t, cSep, acc + z, p, q)
    decreases |z|
  {
    if z == [] {
      assert Doubled(z, QUOTE) + t == t && acc + z == acc;
    } else {
      var u := Doubled(z[1..], QUOTE) + t;
      assert acc + [z[0]] + z[1..] == acc + z;
      if z[0] == QUOTE {
        assert Doubled(z, QUOTE) + t == [QUOTE, QUOTE] + u;
        QuotedTwice(u, cSep, acc, pc, ppc);
        QuotedRun(z[1..], cSep, acc + [QUOTE], 0, pc, t);
      } else {
        assert Doubled(z, QUOTE) + t == [z[0]] + u;
        QuotedPlain(z[0], u, cSep, acc, pc, ppc);
        QuotedRun(z[1..], cSep, acc + [z[0]], z[0], pc, t);
      }
    }
  }

  lemma QuotedTwice(u: Text, cSep: int, acc: Text, pc: int, ppc: int)
    requires Inside(pc, ppc) && cSep != QUOTE && cSep != EOF
    ensures QuotedBody([QUOTE, QUOTE] + u, cSep, acc, pc, ppc) == QuotedBody(u, cSep, acc + [QUOTE], 0, pc)
  {
    var s := [QUOTE, QUOTE] + u;
    assert s[1..] == [QUOTE] + u && ([QUOTE] + u)[1..] == u;
    assert QuotedBody(s, cSep, acc, pc, ppc) == QuotedBody([QUOTE] + u, cSep, acc + [QUOTE], QUOTE, pc);
  }

  lemma QuotedPlain(c: Byte, u: Text, cSep: int, acc: Text, pc: int, ppc: int)
    requires Inside(pc, ppc) && c != QUOTE && cSep != QUOTE && cSep != EOF
    ensures QuotedBody([c] + u, cSep, acc, pc, ppc) == QuotedBody(u, cSep, acc + [c], c, pc)
  {
    assert ([c] + u)[1..] == u;
  }

  /** The closing quote, then the character that ends the field. */
  lemma QuotedClose(c: Byte, u: Text, cSep: int, acc: Text, pc: int, ppc: int)
    requires Inside(pc, ppc) && cSep != QUOTE && cSep != EOF && c != QUOTE
    requires c == cSep || c == LF
    ensures QuotedBody([QUOTE] + ([c] + u), cSep, acc, pc, ppc) == Field(acc, c, u)
  {
    var s := [QUOTE] + ([c] + u);
    assert s[1..] == [c] + u && ([c] + u)[1..] == u;
    assert QuotedBody(s, cSep, acc, pc, ppc) == QuotedBody([c] + u, cSep, acc + [QUOTE], QUOTE, pc);
    assert (acc + [QUOTE])[..|acc|] == acc;
  }

  lemma QuotedCloseCRLF(u: Text, cSep: int, acc: Text, pc: int, ppc: int)
    requires Inside(pc, ppc) && cSep != QUOTE && cSep != EOF && cSep != CR && cSep != LF
    ensures QuotedBody([QUOTE] + ([CR, LF] + u), cSep, acc, pc, ppc) == Field(acc, LF, u)
  {
    var s := [QUOTE] + ([CR, LF] + u);
    var (a, b) := (acc + [QUOTE], acc + [QUOTE] + [CR]);
    assert s[1..] == [CR, LF] + u && ([CR, LF] + u)[1..] == [LF] + u && ([LF] + u)[1..] == u;
    assert QuotedBody(s, cSep, acc, pc, ppc) == QuotedBody([CR, LF] + u, cSep, a, QUOTE, pc);
    assert QuotedBody([CR, LF] + u, cSep, a, QUOTE, pc) == QuotedBody([LF] + u, cSep, b, CR, QUOTE);
    assert b[..|a|] == a && a[..|acc|] == acc;
    assert BeforeLastQuote(b) == BeforeLastQuote(a) == acc;
  }

  /** The closing quote at the end of the input. */
  lemma QuotedCloseEOF(cSep: int, acc: Text, pc: int, ppc: int)
    requires Inside(pc, ppc) && cSep != EOF
    ensures QuotedBody([QUOTE], cSep, acc, pc, ppc) == Field(acc, EOF, [])
  {
    assert QuotedBody([QUOTE], cSep, acc, pc, ppc) == QuotedBody([], cSep, acc + [QUOTE], QUOTE, pc);
    assert (acc + [QUOTE])[..|acc|] == acc;
  }

  /** How a row ends: with either line end, or with the input when the last line end is missing. */
  predicate RowEnds(t: Text, term: int, rest: Text) {
    || (t == [LF] + rest && term == LF)
    || (t == [CR, LF] + rest && term == LF)
    || (t == [] && rest == [] && term == EOF)
  }

  /** What may follow a field: its separator, or the end of its row. */
  predicate Follows(t: Text, cSep: int, term: int, rest: Text) {
    RowEnds(t, term, rest) || (0 <= cSep < 256 && t == [cSep] + rest && term == cSep)
  }

  lemma QuotedEnd(cSep: int, acc: Text, pc: int, ppc: int, t: Text, term: int, rest: Text)
    requires cSep != QUOTE && cSep != EOF && cSep != CR && cSep != LF
    requires Inside(pc, ppc) && Follows(t, cSep, term, rest)
    ensures QuotedBody([QUOTE] + t, cSep, acc, pc, ppc) == Field(acc, term, rest)
  {
    hide QuotedBody;
    if t == [] {
      assert [QUOTE] + t == [QUOTE];
      QuotedCloseEOF(cSep, acc, pc, ppc);
    } else if t == [CR, LF] + rest {
      QuotedCloseCRLF(rest, cSep, acc, pc, ppc);
    } else {
      assert t == [t[0]] + rest;
      QuotedClose(t[0], rest, cSep, acc, pc, ppc);
    }
  }

  lemma QuotedFieldBack(z: Text, cSep: int, t: Text, term: int, rest: Text)
    requires cSep != QUOTE && cSep != EOF && cSep != CR && cSep != LF && Follows(t, cSep, term, rest)
    ensures ReadField([QUOTE] + Doubled(z, QUOTE) + [QUOTE] + t, cSep) == Field(z, term, rest)
  {
    hide QuotedBody, Doubled, Follows;
    var s := [QUOTE] + Doubled(z, QUOTE) + [QUOTE] + t;
    assert s[1..] == Doubled(z, QUOTE) + ([QUOTE] + t);
    QuotedRun(z, cSep, [], 0, 0, [QUOTE] + t);
    assert [] + z == z;
    var p, q :| Inside(p, q) && QuotedBody(s[1..], cSep, [], 0, 0) == QuotedBody([QUOTE] + t, cSep, z, p, q);
    QuotedEnd(cSep, z, p, q, t, term, rest);
  }

  lemma PlainFieldBack(z: Text, sep: Byte, cSep: int, t: Text, term: int, rest: Text)
    requires !MustQuote(z, sep) && (cSep == sep || cSep < EOF) && cSep != CR && cSep != LF
    requires Follows(t, cSep, term, rest)
    ensures ReadField(z + t, cSep) == Field(z, term, rest)
  {
    assert z[0] != QUOTE && z[|z| - 1] != CR;
    assert [] + z == z;
    if t == [CR, LF] + rest {
      assert z + t == (z + [CR]) + ([LF] + rest);
      UnquotedRun(z + [CR], cSep, [], [LF] + rest);
      assert [] + (z + [CR]) == z + [CR] && (z + [CR])[..|z|] == z;
      assert ([LF] + rest)[1..] == rest;
    } else {
      UnquotedRun(z, cSep, [], t);
      assert Advance(t) == rest;
    }
  }

  /** Whatever a field contains, it is read back from what was written for it. */
  lemma FieldRoundTrip(z: Text, sep: Byte, cSep: int, t: Text, term: int, rest: Text)
    requires GoodSeparator(sep) && (cSep == sep || cSep < EOF) && Follows(t, cSep, term, rest)
    ensures ReadField(FieldText(z, sep) + t, cSep) == Field(z, term, rest)
  {
    hide Doubled, ReadField;
    if MustQuote(z, sep) {
      QuotedFieldBack(z, cSep, t, term, rest);
    } else {
      PlainFieldBack(z, sep, cSep, t, term, rest);
    }
  }

  /** A field is written as it is exactly if it is not empty and all its characters are visible ASCII
      other than the double quote, the single quote and the separator. */
  lemma WrittenBare(z: Text, sep: Byte)
    ensures FieldText(z, sep) == z <==> z != [] && forall c :: c in z ==> 33 <= c <= 126 && c !in [34, 39, sep as int]
  {
    hide Doubled;
    if MustQuote(z, sep) && z != [] {
      DoubledLength(z);
      var i :| 0 <= i < |z| && (NeedCsvQuote(z[i]) || z[i] == sep);
      assert z[i] in z;
    }
  }

  lemma {:induction false} DoubledLength(z: Text)
    ensures |Doubled(z, QUOTE)| >= |z|
  {
    if z != [] { DoubledLength(z[1..]); }
  }

  /** A single double quote inside a quoted field is kept if the character after it does not make it
      the closing quote. */
  lemma UnescapedKept(z: Text, c: Byte, y: Text, cSep: int, t: Text, term: int, rest: Text)
    requires cSep != QUOTE && cSep != EOF && cSep != CR && cSep != LF && Follows(t, cSep, term, rest)
    requires c != QUOTE && c != CR && c != LF && c != cSep
    ensures ReadField([QUOTE] + Doubled(z, QUOTE) + [QUOTE, c] + Doubled(y, QUOTE) + [QUOTE] + t, cSep)
         == Field(z + [QUOTE, c] + y, term, rest)
  {
    hide QuotedBody, Doubled, Follows;
    var s := [QUOTE] + Doubled(z, QUOTE) + [QUOTE, c] + Doubled(y, QUOTE) + [QUOTE] + t;
    var more := Doubled(y, QUOTE) + ([QUOTE] + t);
    assert s[1..] == Doubled(z, QUOTE) + ([QUOTE, c] + more);
    QuotedRun(z, cSep, [], 0, 0, [QUOTE, c] + more);
    assert [] + z == z;
    var p, q :| Inside(p, q) && QuotedBody(s[1..], cSep, [], 0, 0) == QuotedBody([QUOTE, c] + more, cSep, z, p, q);
    UnescapedStep(c, more, cSep, z, p, q);
    QuotedRun(y, cSep, z + [QUOTE, c], c, QUOTE, [QUOTE] + t);
    var p', q' :| Inside(p', q')
      && QuotedBody(more, cSep, z + [QUOTE, c], c, QUOTE) == QuotedBody([QUOTE] + t, cSep, z + [QUOTE, c] + y, p', q');
    QuotedEnd(cSep, z + [QUOTE, c] + y, p', q', t, term, rest);
  }

  lemma UnescapedStep(c: Byte, u: Text, cSep: int, acc: Text, pc: int, ppc: int)
    requires Inside(pc, ppc) && cSep != QUOTE && cSep != EOF
    requires c != QUOTE && c != LF && c != cSep
    ensures QuotedBody([QUOTE, c] + u, cSep, acc, pc, ppc) == QuotedBody(u, cSep, acc + [QUOTE, c], c, QUOTE)
  {
    var s := [QUOTE, c] + u;
    assert s[1..] == [c] + u && ([c] + u)[1..] == u;
    assert QuotedBody(s, cSep, acc, pc, ppc) == QuotedBody([c] + u, cSep, acc + [QUOTE], QUOTE, pc);
    assert acc + [QUOTE] + [c] == acc + [QUOTE, c];
  }

  /** A quoted field whose closing quote is missing is read to the end of the input. */
  lemma LeftOpen(z: Text, cSep: int)
    requires cSep != QUOTE && cSep != EOF
    ensures ReadField([QUOTE] + Doubled(z, QUOTE), cSep) == Field(z, EOF, [])
  {
    var s := [QUOTE] + Doubled(z, QUOTE);
    assert s[1..] == Doubled(z, QUOTE) + [];
    QuotedRun(z, cSep, [], 0, 0, []);
    assert [] + z == z;
  }
}
