/** Reading back the CSV that was written: what `.import` inserts for every table. */
module CsvRoundTrip {
  import opened CText
  import opened Csv
  import opened Options

  /** What `.import` makes of a row in a table of n columns: fields beyond the last are dropped; of
      too few fields, all but the last are kept and the rest is NULL. */
  function Fitted(row: seq<Text>, n: nat): (r: Row)
    requires n > 0 && row != []
    ensures |r| == n
  {
    if |row| >= n then Somes(row[..n]) else Somes(row[..|row| - 1]) + Nulls(n - |row| + 1)
  }

  function Somes(row: seq<Text>): (r: Row)
    ensures |r| == |row| && forall k :: 0 <= k < |r| ==> r[k] == Some(row[k])
  {
    seq(|row|, k requires 0 <= k < |row| => Some(row[k]))
  }

  lemma {:induction false} WholeCString(z: Text)
    requires NulFree(z)
    ensures CString(z) == z
  {
    if z != [] { WholeCString(z[1..]); }
  }

  lemma RowFront(row: seq<Text>, sep: Byte, t: Text)
    requires row != []
    ensures |row| == 1 ==> RowText(row, sep) + t == FieldText(row[0], sep) + t
    ensures |row| > 1 ==> RowText(row, sep) + t == FieldText(row[0], sep) + ([sep] + (RowText(row[1..], sep) + t))
  {
    hide FieldText;
    var (f, more) := (FieldText(row[0], sep), RowText(row[1..], sep));
    JoinedAfter(f, if |row| > 1 then [sep] else [], more, t);
    if |row| == 1 {
      assert more == [] && [] + ([] + t) == t;
    }
  }

  lemma JoinedAfter(a: Text, b: Text, c: Text, d: Text)
    ensures a + b + c + d == a + (b + (c + d))
  {
    assert a + b + c + d == (a + b) + (c + d);
    assert (a + b) + (c + d) == a + (b + (c + d));
  }

  predicate Plain(row: seq<Text>) {
    row != [] && forall k :: 0 <= k < |row| ==> NulFree(row[k])
  }

  /** Where the reader stands after the first n columns of a row. */
  function AfterColumns(row: seq<Text>, n: nat, sep: Byte, cSep: int, t: Text, term: int, rest: Text): (int, Text)
    requires n > 0
  {
    if |row| <= n then (term, rest) else (cSep, RowText(row[n..], sep) + t)
  }

  /** The row loop on a written row, from column i on. */
  lemma {:induction false} RowBack(row: seq<Text>, sep: Byte, cSep: int, nCol: nat, i: nat,
                                   t: Text, term: int, rest: Text)
    requires GoodSeparator(sep) && RowEnds(t, term, rest) && Plain(row) && i < nCol
    requires cSep == sep || (cSep < EOF && |row| == 1)
    ensures var r := ReadRow(RowText(row, sep) + t, cSep, nCol, i);
      r.cells == Fitted(row, nCol - i) && r.count >= nCol
      && (r.term, r.rest) == AfterColumns(row, nCol - i, sep, cSep, t, term, rest)
    decreases |row|
  {
    hide FieldText, RowText, ReadField, NulFree;
    var s := RowText(row, sep) + t;
    RowFront(row, sep, t);
    WholeCString(row[0]);
    var n := nCol - i;
    if |row| == 1 {
      FieldRoundTrip(row[0], sep, cSep, t, term, rest);
      assert ReadField(s, cSep) == Field(row[0], term, rest);
      if n == 1 {
        assert Fitted(row, n) == [Some(row[0])];
      } else {
        assert Fitted(row, n) == Nulls(n);
      }
    } else {
      var more := RowText(row[1..], sep) + t;
      FieldRoundTrip(row[0], sep, cSep, [sep] + more, cSep, more);
      assert ReadField(s, cSep) == Field(row[0], cSep, more);
      if n == 1 {
        assert Fitted(row, n) == [Some(row[0])];
      } else {
        RowBack(row[1..], sep, cSep, nCol, i + 1, t, term, rest);
        FittedFront(row, n);
        assert |row| > n ==> row[1..][n - 1..] == row[n..];
      }
    }
  }

  lemma FittedFront(row: seq<Text>, n: nat)
    requires |row| > 1 && n > 1
    ensures Fitted(row, n) == [Some(row[0])] + Fitted(row[1..], n - 1)
  {
  }

  lemma {:induction false} ExtrasSkipped(row: seq<Text>, sep: Byte, t: Text, term: int, rest: Text)
    requires GoodSeparator(sep) && RowEnds(t, term, rest) && Plain(row)
    ensures SkipExtras(RowText(row, sep) + t, sep) == (term, rest)
    decreases |row|
  {
    hide FieldText, RowText, ReadField, NulFree;
    RowFront(row, sep, t);
    if |row| == 1 {
      FieldRoundTrip(row[0], sep, sep, t, term, rest);
    } else {
      var more := RowText(row[1..], sep) + t;
      FieldRoundTrip(row[0], sep, sep, [sep] + more, sep, more);
      ExtrasSkipped(row[1..], sep, t, term, rest);
    }
  }

  function AllFitted(rows: seq<seq<Text>>, n: nat): (r: seq<Row>)
    requires n > 0 && AllPlain(rows)
    ensures |r| == |rows| && forall k :: 0 <= k < |r| ==> r[k] == Fitted(rows[k], n)
  {
    seq(|rows|, k requires 0 <= k < |rows| => Fitted(rows[k], n))
  }

  predicate AllPlain(rows: seq<seq<Text>>) {
    forall k :: 0 <= k < |rows| ==> Plain(rows[k])
  }

  lemma AllFittedFront(rows: seq<seq<Text>>, n: nat)
    requires rows != [] && AllPlain(rows) && n > 0
    ensures Plain(rows[0]) && AllPlain(rows[1..])
    ensures AllFitted(rows, n) == [Fitted(rows[0], n)] + AllFitted(rows[1..], n)
  {
    hide Fitted;
  }

  /** A written table whose last line end is missing. */
  function UnendedText(rows: seq<seq<Text>>, sep: Byte, nl: Text): Text {
    if rows == [] then []
    else if |rows| == 1 then RowText(rows[0], sep)
    else RowText(rows[0], sep) + nl + UnendedText(rows[1..], sep, nl)
  }

  lemma {:induction false} LastEndMissing(rows: seq<seq<Text>>, sep: Byte, nl: Text)
    requires rows != []
    ensures TableText(rows, sep, nl) == UnendedText(rows, sep, nl) + nl
    decreases |rows|
  {
    hide RowText;
    var row := RowText(rows[0], sep);
    if |rows| == 1 {
      assert row + nl + [] == row + nl;
    } else {
      var more := UnendedText(rows[1..], sep, nl);
      LastEndMissing(rows[1..], sep, nl);
      assert row + nl + (more + nl) == row + nl + more + nl;
    }
  }

  /** Every written table is imported row by row, each row fitted to the columns, whether or not its
      last line has its end. */
  lemma {:induction false} TableBack(rows: seq<seq<Text>>, sep: Byte, cSep: int, nCol: nat, nl: Text)
    requires GoodSeparator(sep) && IsNewline(nl) && nCol > 0
    requires AllPlain(rows)
    requires cSep == sep || (cSep < EOF && forall k :: 0 <= k < |rows| ==> |rows[k]| == 1)
    ensures ImportRows(TableText(rows, sep, nl), cSep, nCol) == AllFitted(rows, nCol)
    ensures ImportRows(UnendedText(rows, sep, nl), cSep, nCol) == AllFitted(rows, nCol)
    decreases |rows|
  {
    hide RowText, ReadRow, Plain, AllPlain, Fitted, ImportRows, RowEnds;
    if rows == [] {
      EmptyInput(cSep, nCol);
    } else {
      AllFittedFront(rows, nCol);
      TableBack(rows[1..], sep, cSep, nCol, nl);
      FrontRow(rows[0], sep, cSep, nCol, nl, TableText(rows[1..], sep, nl));
      if |rows| == 1 {
        LastRow(rows[0], sep, cSep, nCol);
      } else {
        FrontRow(rows[0], sep, cSep, nCol, nl, UnendedText(rows[1..], sep, nl));
      }
    }
  }

  lemma FrontRow(row: seq<Text>, sep: Byte, cSep: int, nCol: nat, nl: Text, rest: Text)
    requires GoodSeparator(sep) && IsNewline(nl) && Plain(row) && nCol > 0
    requires cSep == sep || (cSep < EOF && |row| == 1)
    ensures ImportRows(RowText(row, sep) + nl + rest, cSep, nCol)
         == [Fitted(row, nCol)] + ImportRows(rest, cSep, nCol)
  {
    hide RowText, Plain, Fitted, ImportRows;
    assert RowText(row, sep) + nl + rest == RowText(row, sep) + (nl + rest);
    OneRow(row, sep, cSep, nCol, nl + rest, LF, rest);
  }

  lemma LastRow(row: seq<Text>, sep: Byte, cSep: int, nCol: nat)
    requires GoodSeparator(sep) && Plain(row) && nCol > 0
    requires cSep == sep || (cSep < EOF && |row| == 1)
    ensures ImportRows(RowText(row, sep), cSep, nCol) == [Fitted(row, nCol)]
  {
    hide RowText, Plain, Fitted, ImportRows;
    assert RowText(row, sep) + [] == RowText(row, sep);
    OneRow(row, sep, cSep, nCol, [], EOF, []);
  }

  lemma EmptyInput(cSep: int, nCol: nat)
    requires cSep != EOF && nCol > 0
    ensures ImportRows([], cSep, nCol) == []
  {
  }

  /** One row, and the rows behind its end if the input goes on. */
  lemma OneRow(row: seq<Text>, sep: Byte, cSep: int, nCol: nat, t: Text, term: int, rest: Text)
    requires GoodSeparator(sep) && RowEnds(t, term, rest) && Plain(row) && nCol > 0
    requires cSep == sep || (cSep < EOF && |row| == 1)
    ensures ImportRows(RowText(row, sep) + t, cSep, nCol)
         == [Fitted(row, nCol)] + (if term == EOF then [] else ImportRows(rest, cSep, nCol))
  {
    hide RowText, ReadRow, Plain, Fitted, SkipExtras;
    RowBack(row, sep, cSep, nCol, 0, t, term, rest);
    if |row| > nCol {
      assert Plain(row[nCol..]) by { PlainTail(row, nCol); }
      ExtrasSkipped(row[nCol..], sep, t, term, rest);
    }
  }

  lemma PlainTail(row: seq<Text>, n: nat)
    requires Plain(row) && n < |row|
    ensures Plain(row[n..])
  {
  }

  // ----- exactly when a table comes back -----

  /** The separator as the reader compares it: a `char` widened to `int`. */
  function SeparatorCode(sep: Byte, charIsSigned: bool): int {
    if charIsSigned && sep >= 128 then sep - 256 else sep
  }

  /** With a separator that no input character equals, rows of two or more columns are all NULL. */
  lemma {:induction false} NoSeparatorFound(s: Text, cSep: int, nCol: nat)
    requires cSep < EOF && nCol > 1
    ensures forall k :: 0 <= k < |ImportRows(s, cSep, nCol)| ==> ImportRows(s, cSep, nCol)[k] == Nulls(nCol)
    decreases |s|
  {
    hide ReadField, Nulls;
    TermInRange(s, cSep);
    var e := RowEnd(ReadRow(s, cSep, nCol, 0), cSep);
    if e.0 != EOF {
      NoSeparatorFound(e.1, cSep, nCol);
    }
  }

  lemma {:induction false} TermInRange(s: Text, cSep: int)
    requires cSep < EOF
    ensures TermOf(ReadField(s, cSep)) >= EOF
  {
    if s != [] {
      if s[0] == QUOTE { QuotedTerm(s[1..], cSep, [], 0, 0); } else { UnquotedTerm(s, cSep, []); }
    }
  }

  lemma {:induction false} QuotedTerm(s: Text, cSep: int, acc: Text, pc: int, ppc: int)
    ensures QuotedBody(s, cSep, acc, pc, ppc).term >= EOF
    decreases |s|
  {
    var c := Peek(s);
    if c == QUOTE && pc == QUOTE {
      QuotedTerm(s[1..], cSep, acc, 0, ppc);
    } else if !Closes(c, pc, ppc, cSep) && c != EOF {
      QuotedTerm(s[1..], cSep, acc + [c], c, pc);
    }
  }

  lemma {:induction false} UnquotedTerm(s: Text, cSep: int, acc: Text)
    ensures UnquotedBody(s, cSep, acc).term >= EOF
    decreases |s|
  {
    var c := Peek(s);
    if c != LF && c != EOF && c != cSep { UnquotedTerm(s[1..], cSep, acc + [c]); }
  }

  predicate Rectangular(rows: seq<seq<Text>>, n: nat) {
    forall k :: 0 <= k < |rows| ==> |rows[k]| == n && Plain(rows[k])
  }

  function AllSomes(rows: seq<seq<Text>>): (r: seq<Row>)
    ensures |r| == |rows| && forall k :: 0 <= k < |r| ==> r[k] == Somes(rows[k])
  {
    seq(|rows|, k requires 0 <= k < |rows| => Somes(rows[k]))
  }

  /** Writing a table and importing it gives the same rows and fields, whatever the fields contain
      and whether or not the last line keeps its end, exactly if the separator is compared as the
      unsigned character it was written as, or is not EOF and was never written. */
  lemma TableRoundTrip(rows: seq<seq<Text>>, sep: Byte, charIsSigned: bool, nCol: nat, nl: Text)
    requires GoodSeparator(sep) && IsNewline(nl) && nCol > 0 && Rectangular(rows, nCol)
    ensures var cSep := SeparatorCode(sep, charIsSigned);
      var back := !charIsSigned || sep < 128 || (sep != 0xFF && (nCol == 1 || rows == []));
      && (ImportGives(TableText(rows, sep, nl), cSep, nCol, AllSomes(rows)) <==> back)
      && (ImportGives(UnendedText(rows, sep, nl), cSep, nCol, AllSomes(rows)) <==> back)
  {
    hide ImportRows, TableText, UnendedText, Ends;
    var cSep := SeparatorCode(sep, charIsSigned);
    if cSep != EOF && (cSep == sep || nCol == 1 || rows == []) {
      TableBack(rows, sep, cSep, nCol, nl);
      RowsKept(rows, nCol);
    }
    TextRoundTrip(TableText(rows, sep, nl), rows, sep, charIsSigned, nCol);
    TextRoundTrip(UnendedText(rows, sep, nl), rows, sep, charIsSigned, nCol);
  }

  lemma RowsKept(rows: seq<seq<Text>>, nCol: nat)
    requires nCol > 0 && Rectangular(rows, nCol)
    ensures AllFitted(rows, nCol) == AllSomes(rows)
  {
    hide NulFree;
    forall k | 0 <= k < |rows| ensures AllFitted(rows, nCol)[k] == AllSomes(rows)[k] {
      assert rows[k][..nCol] == rows[k];
    }
  }

  lemma TextRoundTrip(s: Text, rows: seq<seq<Text>>, sep: Byte, charIsSigned: bool, nCol: nat)
    requires nCol > 0 && Rectangular(rows, nCol)
    requires var cSep := SeparatorCode(sep, charIsSigned);
      cSep != EOF && (cSep == sep || nCol == 1 || rows == []) ==> ImportRows(s, cSep, nCol) == AllSomes(rows)
    ensures ImportGives(s, SeparatorCode(sep, charIsSigned), nCol, AllSomes(rows))
        <==> !charIsSigned || sep < 128 || (sep != 0xFF && (nCol == 1 || rows == []))
  {
    hide ImportRows, Ends;
    var cSep := SeparatorCode(sep, charIsSigned);
    ImportEnds(s, cSep, nCol);
    if cSep < EOF && nCol != 1 && rows != [] {
      NoSeparatorFound(s, cSep, nCol);
      assert AllSomes(rows)[0][0] == Some(rows[0][0]);
    }
  }

  /** With the separator recognised, a table of rows of any lengths comes back exactly if every row
      has as many fields as the table has columns. */
  lemma RaggedRoundTrip(rows: seq<seq<Text>>, sep: Byte, nCol: nat, nl: Text)
    requires GoodSeparator(sep) && IsNewline(nl) && nCol > 0
    requires AllPlain(rows)
    ensures ImportRows(TableText(rows, sep, nl), sep, nCol) == AllSomes(rows) <==> Rectangular(rows, nCol)
    ensures ImportRows(UnendedText(rows, sep, nl), sep, nCol) == AllSomes(rows) <==> Rectangular(rows, nCol)
  {
    hide ImportRows, TableText, UnendedText, NulFree;
    TableBack(rows, sep, sep, nCol, nl);
    if Rectangular(rows, nCol) {
      RowsKept(rows, nCol);
    } else {
      var k :| 0 <= k < |rows| && |rows[k]| != nCol;
      assert |AllFitted(rows, nCol)[k]| == nCol && |AllSomes(rows)[k]| != nCol;
    }
  }
}
