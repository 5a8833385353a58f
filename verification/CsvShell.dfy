/** The CSV writer and reader of sqlite/shell.c as they run: a stream that is appended to, and a
    reader object whose fields change with every character. */
module CsvShell {
  import opened CText
  import opened Csv
  import CsvRoundTrip
  import opened Options

  /** The fields of `callback_data` that CSV output uses. */
  class CsvOutput {
    var out: Text
    const separator: Byte
    const newline: Text

    constructor (separator: Byte, newline: Text)
      ensures this.separator == separator && this.newline == newline && out == []
    {
      this.separator, this.newline := separator, newline;
      out := [];
    }

    /** `output_csv`. */
    method OutputCsv(z: Text, bSep: bool)
      modifies this`out
      ensures out == old(out) + FieldText(z, separator) + (if bSep then [separator] else [])
    {
      var i := 0;
      while i < |z|
        invariant 0 <= i <= |z| && !exists k :: 0 <= k < i && (NeedCsvQuote(z[k]) || z[k] == separator)
      {
        if NeedCsvQuote(z[i]) || z[i] == separator {
          i := 0;
          break;
        }
        i := i + 1;
      }
      if i == 0 {
        OutputQuoted(z);
      } else {
        out := out + z;
      }
      if bSep {
        out := out + [separator];
      }
    }

    /** The quoted branch of `output_csv`. */
    method OutputQuoted(z: Text)
      modifies this`out
      ensures out == old(out) + ([QUOTE] + Doubled(z, QUOTE) + [QUOTE])
    {
      out := out + [QUOTE];
      var i := 0;
      while i < |z|
        invariant 0 <= i <= |z| && out + Doubled(z[i..], QUOTE) == old(out) + [QUOTE] + Doubled(z, QUOTE)
      {
        ghost var before := out;
        if z[i] == QUOTE { out := out + [QUOTE]; }
        out := out + [z[i]];
        assert z[i..][1..] == z[i + 1..];
        assert out + Doubled(z[i + 1..], QUOTE) == before + Doubled(z[i..], QUOTE);
        i := i + 1;
      }
      assert out + Doubled(z[i..], QUOTE) == out;
      out := out + [QUOTE];
      assert old(out) + [QUOTE] + Doubled(z, QUOTE) + [QUOTE] == old(out) + ([QUOTE] + Doubled(z, QUOTE) + [QUOTE]);
    }

    /** A result row in `MODE_Csv`. */
    method OutputRow(azArg: seq<Text>)
      modifies this`out
      ensures out == old(out) + (RowText(azArg, separator) + newline)
    {
      hide FieldText;
      var i := 0;
      while i < |azArg|
        invariant 0 <= i <= |azArg| && out + RowText(azArg[i..], separator) == old(out) + RowText(azArg, separator)
      {
        RowTextFront(out, azArg, i, separator);
        OutputCsv(azArg[i], i < |azArg| - 1);
        i := i + 1;
      }
      assert RowText(azArg[i..], separator) == [] && out + [] == out;
      out := out + newline;
      assert old(out) + RowText(azArg, separator) + newline == old(out) + (RowText(azArg, separator) + newline);
    }

    /** Every row of a query result, in order. */
    method OutputRows(rows: seq<seq<Text>>)
      modifies this`out
      ensures out == old(out) + TableText(rows, separator, newline)
    {
      hide RowText;
      var i := 0;
      while i < |rows|
        invariant 0 <= i <= |rows|
        invariant out + TableText(rows[i..], separator, newline) == old(out) + TableText(rows, separator, newline)
      {
        TableTextFront(out, rows, i, separator, newline);
        OutputRow(rows[i]);
        i := i + 1;
      }
      assert TableText(rows[i..], separator, newline) == [] && out + [] == out;
    }
  }

  lemma RowTextFront(p: Text, row: seq<Text>, i: nat, sep: Byte)
    requires i < |row|
    ensures p + RowText(row[i..], sep)
         == p + FieldText(row[i], sep) + (if i < |row| - 1 then [sep] else []) + RowText(row[i + 1..], sep)
  {
    hide FieldText;
    assert row[i..][1..] == row[i + 1..];
    var (a, b, c) := (FieldText(row[i], sep), if i < |row| - 1 then [sep] else [], RowText(row[i + 1..], sep));
    CsvRoundTrip.JoinedAfter(p, a, b, c);
    assert a + b + c == a + (b + c);
  }

  lemma TableTextFront(p: Text, rows: seq<seq<Text>>, i: nat, sep: Byte, nl: Text)
    requires i < |rows|
    ensures p + TableText(rows[i..], sep, nl)
         == p + (RowText(rows[i], sep) + nl) + TableText(rows[i + 1..], sep, nl)
  {
    hide RowText;
    assert rows[i..][1..] == rows[i + 1..];
    var (a, b) := (RowText(rows[i], sep) + nl, TableText(rows[i + 1..], sep, nl));
    assert p + (a + b) == p + a + b;
  }

  /** The line feeds in a text. */
  function LineFeeds(s: Text): nat {
    if s == [] then 0 else LineFeeds(s[..|s| - 1]) + (if s[|s| - 1] == LF then 1 else 0)
  }

  lemma LastTwo(acc: Text, c: Byte)
    ensures var s := acc + [c];
      s[|acc|] == c && (acc != [] ==> s[|acc| - 1] == acc[|acc| - 1])
  {
  }

  /** One character of a quoted field. */
  lemma QuotedTurn(s: Text, cSep: int, acc: Text, pc: int, ppc: int)
    requires cSep != EOF
    ensures var c := Peek(s);
      QuotedBody(s, cSep, acc, pc, ppc) ==
        if c == QUOTE && pc == QUOTE then QuotedBody(Advance(s), cSep, acc, 0, ppc)
        else if Closes(c, pc, ppc, cSep) then Field(BeforeLastQuote(acc), c, Advance(s))
        else if c == EOF then Field(acc, EOF, Advance(s))
        else QuotedBody(Advance(s), cSep, acc + [c], c, pc)
  {
  }

  /** `CSVReader`; `nAlloc` is the length of z, and the stream is a text and a position in it. */
  class CsvReader {
    const input: Text
    const cSeparator: int
    var pos: nat
    var z: array<Byte>
    var n: nat
    var nLine: nat
    var cTerm: int

    ghost predicate Valid()
      reads this
    {
      pos <= |input| && n < z.Length && cSeparator != EOF
    }

    function Rest(): Text
      requires pos <= |input|
      reads this`pos
    {
      input[pos..]
    }

    /** The current line number counts the line feeds consumed. */
    ghost predicate LineCounted()
      requires pos <= |input|
      reads this`pos, this`nLine
    {
      nLine == 1 + LineFeeds(input[..pos])
    }

    /** `memset`, the settings of `.import`, and the first `csv_append_char`. */
    constructor (input: Text, cSeparator: int)
      requires cSeparator != EOF
      ensures this.input == input && this.cSeparator == cSeparator
      ensures Valid() && fresh(z) && Rest() == input && LineCounted()
    {
      this.input, this.cSeparator := input, cSeparator;
      pos, n, nLine, cTerm := 0, 0, 1, 0;
      z := new Byte[0];
      new;
      AppendChar(NUL);
    }

    /** `csv_append_char`. */
    method AppendChar(c: Byte)
      requires n <= z.Length
      modifies this`z, this`n, z
      ensures n == old(n) + 1 && n < z.Length && z[..n] == old(z[..n]) + [c]
      ensures z == old(z) || fresh(z)
    {
      if n + 1 >= z.Length {
        var larger := new Byte[z.Length + z.Length + 100];
        forall i | 0 <= i < n { larger[i] := z[i]; }
        assert larger[..n] == z[..n];
        z := larger;
      }
      z[n] := c;
      n := n + 1;
    }

    /** `fgetc`: the next character of the stream, or EOF, which it never passes. */
    method GetChar() returns (c: int)
      requires pos <= |input|
      modifies this`pos
      ensures pos <= |input| && c == Peek(old(Rest())) && Rest() == Advance(old(Rest()))
      ensures EOF <= c < 256
      ensures c == EOF ==> pos == old(pos)
      ensures c != EOF ==> pos == old(pos) + 1
      ensures LineFeeds(input[..pos]) == LineFeeds(input[..old(pos)]) + (if c == LF then 1 else 0)
    {
      if pos == |input| { return EOF; }
      c := input[pos];
      assert input[..pos + 1][..pos] == input[..pos];
      pos := pos + 1;
    }

    /** `csv_read_one_field`: the next field, or false at the end of the input. */
    method ReadOneField() returns (ok: bool)
      requires Valid() && LineCounted()
      modifies this, z
      ensures Valid() && LineCounted() && (z == old(z) || fresh(z))
      ensures var f := ReadField(old(Rest()), cSeparator);
        ok == f.Field? && cTerm == TermOf(f) && Rest() == RestOf(f)
        && (ok ==> z[..n] == f.value && z[n] == NUL)
    {
      hide LineFeeds, QuotedBody, UnquotedBody;
      n := 0;
      var c := GetChar();
      if c == EOF {
        cTerm := EOF;
        return false;
      }
      assert z[..0] == [];
      if c == QUOTE {
        ReadQuoted();
      } else {
        assert old(Rest()) == [c] + Rest();
        ReadUnquoted(c);
      }
      z[n] := NUL;
      ok := true;
    }

    /** The quoted branch, after the opening quote. */
    method ReadQuoted()
      requires Valid() && LineCounted() && n == 0
      modifies this, z
      ensures Valid() && LineCounted() && (z == old(z) || fresh(z))
      ensures QuotedBody(old(Rest()), cSeparator, [], 0, 0) == Field(z[..n], cTerm, Rest())
    {
      hide LineFeeds, QuotedBody, BeforeLastQuote, Peek, Advance;
      var pc, ppc := 0, 0;
      ghost var goal := QuotedBody(Rest(), cSeparator, [], 0, 0);
      assert z[..0] == [];
      while true
        invariant Valid() && LineCounted() && (z == old(z) || fresh(z))
        invariant QuotedBody(Rest(), cSeparator, z[..n], pc, ppc) == goal
        invariant pc == QUOTE ==> n > 0 && z[n - 1] == QUOTE
        invariant pc == CR && ppc == QUOTE ==> n > 1 && z[n - 2] == QUOTE
        decreases |input| - pos
      {
        QuotedTurn(Rest(), cSeparator, z[..n], pc, ppc);
        var c := GetChar();
        if c == LF { nLine := nLine + 1; }
        if c == QUOTE && pc == QUOTE {
          pc := 0;
          continue;
        }
        if Closes(c, pc, ppc, cSeparator) {
          ChopToQuote();
          cTerm := c;
          return;
        }
        if c == EOF {
          cTerm := EOF;
          return;
        }
        LastTwo(z[..n], c);
        AppendChar(c);
        assert z[n - 1] == z[..n][n - 1] && (n > 1 ==> z[n - 2] == z[..n][n - 2]);
        ppc := pc;
        pc := c;
      }
    }

    /** Cuts the field back to its last double quote, which is dropped too. */
    method ChopToQuote()
      requires n <= z.Length && exists k :: 0 <= k < n && z[k] == QUOTE
      modifies this`n
      ensures n < old(n) && z[..n] == BeforeLastQuote(z[..old(n)])
    {
      assert z[..n][..n - 1] == z[..n - 1];
      n := n - 1;
      while z[n] != QUOTE
        invariant n < old(n) && BeforeLastQuote(z[..n + 1]) == BeforeLastQuote(z[..old(n)])
        invariant exists k :: 0 <= k <= n && z[k] == QUOTE
        decreases n
      {
        assert z[..n + 1][..n] == z[..n];
        n := n - 1;
      }
      assert z[..n + 1][..n] == z[..n];
    }

    /** The unquoted branch; c is the character already read. */
    method ReadUnquoted(first: Byte)
      requires Valid() && n == 0 && pos > 0 && input[pos - 1] == first
      requires nLine + (if first == LF then 1 else 0) == 1 + LineFeeds(input[..pos])
      modifies this, z
      ensures Valid() && LineCounted() && (z == old(z) || fresh(z))
      ensures UnquotedBody([first] + old(Rest()), cSeparator, []) == Field(z[..n], cTerm, Rest())
    {
      hide LineFeeds, UnquotedBody;
      var c: int := first;
      ghost var goal := UnquotedBody([first] + Rest(), cSeparator, []);
      ghost var s := [first] + Rest();
      assert z[..0] == [];
      while c != EOF && c != cSeparator && c != LF
        invariant Valid() && (z == old(z) || fresh(z)) && EOF <= c < 256
        invariant c == Peek(s) && Rest() == Advance(s)
        invariant UnquotedBody(s, cSeparator, z[..n]) == goal
        invariant nLine + (if c == LF then 1 else 0) == 1 + LineFeeds(input[..pos])
        decreases |s|
      {
        UnquotedTurn(s, cSeparator, z[..n]);
        AppendChar(c);
        s := Rest();
        c := GetChar();
      }
      UnquotedTurn(s, cSeparator, z[..n]);
      if c == LF {
        nLine := nLine + 1;
        if n > 0 && z[n - 1] == CR {
          assert z[..n][..n - 1] == z[..n - 1];
          n := n - 1;
        }
      }
      cTerm := c;
    }

    /** One turn of the column loop of `.import`: binds column i and returns the next i, or says that
        the input had ended before the row. */
    method ReadColumn(bound: array<Option<Text>>, i: nat, ghost goal: RowRead) returns (ended: bool, next: nat)
      requires Valid() && LineCounted() && i < bound.Length
      requires goal == Ahead(bound[..i], ReadRow(Rest(), cSeparator, bound.Length, i))
      modifies this, z, bound
      ensures Valid() && LineCounted() && (z == old(z) || fresh(z)) && i <= next
      ensures ended ==> next == 0 && goal == RowRead([], 0, EOF, []) && cTerm == EOF && Rest() == []
      ensures !ended && next < bound.Length ==>
        (i < next && goal == Ahead(bound[..next], ReadRow(Rest(), cSeparator, bound.Length, next)))
      ensures !ended && next >= bound.Length ==> goal == RowRead(bound[..], next, cTerm, Rest())
    {
      hide ReadField, ReadRow, LineFeeds, CString;
      ghost var done := bound[..i];
      ColumnTurn(done, Rest(), cSeparator, bound.Length, i);
      ghost var f := ReadField(Rest(), cSeparator);
      var ok := ReadOneField();
      if !ok && i == 0 { return true, 0; }
      bound[i] := if ok then Some(CString(z[..n])) else None;
      assert bound[i] == Bound(f);
      assert bound[..i + 1] == done + [Bound(f)];
      ended, next := false, i;
      if i < bound.Length - 1 && cTerm != cSeparator {
        next := BindNulls(bound, i + 1);
        assert bound[..] == done + Nulls(bound.Length - |done|);
      } else if i == bound.Length - 1 {
        assert bound[..] == bound[..i + 1];
      }
      next := next + 1;
    }

    /** The column loop of `.import`, filling the statement's parameters. */
    method ReadColumns(bound: array<Option<Text>>) returns (i: nat)
      requires Valid() && LineCounted() && bound.Length > 0
      modifies this, z, bound
      ensures Valid() && LineCounted() && (z == old(z) || fresh(z))
      ensures var r := ReadRow(old(Rest()), cSeparator, bound.Length, 0);
        i == r.count && cTerm == r.term && Rest() == r.rest && (i >= bound.Length ==> bound[..] == r.cells)
    {
      hide ReadRow, LineFeeds;
      ghost var goal := ReadRow(Rest(), cSeparator, bound.Length, 0);
      i := 0;
      while i < bound.Length
        invariant Valid() && LineCounted() && (z == old(z) || fresh(z))
        invariant i < bound.Length ==> goal == Ahead(bound[..i], ReadRow(Rest(), cSeparator, bound.Length, i))
        invariant i >= bound.Length ==> goal == RowRead(bound[..], i, cTerm, Rest())
        decreases bound.Length - i
      {
        var ended;
        ended, i := ReadColumn(bound, i, goal);
        if ended { break; }
      }
    }

    /** Binds NULL to every parameter from the given one on; parameters are numbered from 1. */
    method BindNulls(bound: array<Option<Text>>, start: nat) returns (i: nat)
      requires 0 < start <= bound.Length
      modifies bound
      ensures i == bound.Length + 1
      ensures bound[..] == old(bound[..start - 1]) + Nulls(bound.Length - start + 1)
    {
      i := start;
      while i <= bound.Length
        invariant start <= i <= bound.Length + 1
        invariant bound[..start - 1] == old(bound[..start - 1])
        invariant forall k :: start - 1 <= k < i - 1 ==> bound[k] == None
      {
        bound[i - 1] := None;
        i := i + 1;
      }
    }

    /** The row loop of `.import`: the rows it inserts, in order. */
    method Import(nCol: nat) returns (rows: seq<Row>)
      requires Valid() && LineCounted() && nCol > 0
      modifies this, z
      ensures rows == ImportRows(old(Rest()), cSeparator, nCol)
      ensures Valid() && LineCounted() && cTerm == EOF
    {
      hide ReadField, ReadRow, ImportRows, LineFeeds, SkipExtras;
      rows := [];
      var bound := new Option<Text>[nCol];
      ghost var goal := ImportRows(Rest(), cSeparator, nCol);
      var more := true;
      while more
        invariant Valid() && LineCounted() && (z == old(z) || fresh(z))
        invariant more ==> goal == rows + ImportRows(Rest(), cSeparator, nCol)
        invariant !more ==> goal == rows && cTerm == EOF
        decreases more, |Rest()|
      {
        ImportTurn(rows, Rest(), cSeparator, nCol);
        ghost var r := ReadRow(Rest(), cSeparator, nCol, 0);
        var i := ReadColumns(bound);
        if cTerm == cSeparator {
          SkipFields();
        }
        if i >= nCol {
          rows := rows + [bound[..]];
        }
        more := cTerm != EOF;
      }
    }

    /** Reads and drops fields until one does not end at a separator. */
    method SkipFields()
      requires Valid() && LineCounted()
      modifies this, z
      ensures Valid() && LineCounted() && (z == old(z) || fresh(z))
      ensures (cTerm, Rest()) == SkipExtras(old(Rest()), cSeparator)
    {
      hide ReadField, LineFeeds;
      ghost var goal := SkipExtras(Rest(), cSeparator);
      var more := true;
      while more
        invariant Valid() && LineCounted() && (z == old(z) || fresh(z))
        invariant goal == if more then SkipExtras(Rest(), cSeparator) else (cTerm, Rest())
        decreases more, |Rest()|
      {
        var ok := ReadOneField();
        more := cTerm == cSeparator;
      }
    }
  }

  function Ahead(done: Row, r: RowRead): RowRead {
    r.(cells := done + r.cells)
  }

  /** One column of the column loop. */
  lemma ColumnTurn(done: Row, s: Text, cSep: int, nCol: nat, i: nat)
    requires cSep != EOF && i < nCol && |done| == i
    ensures var f := ReadField(s, cSep);
      Ahead(done, ReadRow(s, cSep, nCol, i)) ==
        if f.NoField? && i == 0 then RowRead([], 0, EOF, [])
        else if i == nCol - 1 then RowRead(done + [Bound(f)], nCol, TermOf(f), RestOf(f))
        else if TermOf(f) != cSep then RowRead(done + Nulls(nCol - i), nCol + 2, TermOf(f), RestOf(f))
        else Ahead(done + [Bound(f)], ReadRow(RestOf(f), cSep, nCol, i + 1))
  {
    hide ReadField;
    var f := ReadField(s, cSep);
    if f.Field? && i < nCol - 1 && f.term == cSep {
      var r := ReadRow(RestOf(f), cSep, nCol, i + 1);
      assert done + ([Bound(f)] + r.cells) == done + [Bound(f)] + r.cells;
    }
  }

  lemma ImportTurn(rows: seq<Row>, s: Text, cSep: int, nCol: nat)
    requires cSep != EOF && nCol > 0
    ensures var r := ReadRow(s, cSep, nCol, 0);
      var e := RowEnd(r, cSep);
      rows + ImportRows(s, cSep, nCol) ==
        if e.0 == EOF then rows + Inserted(r, nCol) else rows + Inserted(r, nCol) + ImportRows(e.1, cSep, nCol)
  {
    hide ReadRow;
    var r := ReadRow(s, cSep, nCol, 0);
    var e := RowEnd(r, cSep);
    if e.0 != EOF {
      assert rows + (Inserted(r, nCol) + ImportRows(e.1, cSep, nCol))
          == rows + Inserted(r, nCol) + ImportRows(e.1, cSep, nCol);
    }
  }

  /** A table written with `.mode csv` and read back with `.import`, into as many columns. */
  method ExportThenImport(rows: seq<seq<Text>>, sep: Byte, newline: Text, nCol: nat) returns (back: seq<Row>)
    requires GoodSeparator(sep) && IsNewline(newline) && nCol > 0 && CsvRoundTrip.Rectangular(rows, nCol)
    ensures back == CsvRoundTrip.AllSomes(rows)
  {
    hide ImportRows, TableText;
    var p := new CsvOutput(sep, newline);
    p.OutputRows(rows);
    assert p.out == TableText(rows, sep, newline);
    var sCsv := new CsvReader(p.out, sep);
    back := sCsv.Import(nCol);
    CsvRoundTrip.TableRoundTrip(rows, sep, false, nCol, newline);
  }
}
