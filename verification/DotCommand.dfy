/** The argument list of a dot command, as `do_meta_command` of sqlite/shell.c splits it in place. */
module DotCommand {
  import opened CText
  import opened Quoting

  /** `isspace` in the C locale. */
  predicate IsSpace(c: Byte) {
    c == SPACE || TAB <= c <= CR
  }

  function SkipSpaces(s: Text): (r: Text)
    ensures |r| <= |s| && (r != [] ==> !IsSpace(r[0]))
  {
    if s != [] && IsSpace(s[0]) then SkipSpaces(s[1..]) else s
  }

  /** How far a quoted argument reaches; a backslash protects the next character inside double quotes. */
  function QuotedLength(s: Text, delim: Byte): (n: nat)
    ensures n <= |s| && (n < |s| ==> s[n] == delim)
    decreases |s|
  {
    if s == [] || s[0] == delim then 0
    else if s[0] == BACKSLASH && delim == QUOTE && |s| > 1 then 2 + QuotedLength(s[2..], delim)
    else 1 + QuotedLength(s[1..], delim)
  }

  function BareLength(s: Text): (n: nat)
    ensures n <= |s|
  {
    if s == [] || IsSpace(s[0]) then 0 else 1 + BareLength(s[1..])
  }

  /** An argument as it stands in the line, and whether its backslashes are resolved. */
  datatype Token = Token(text: Text, escapes: bool)

  predicate Whole(t: Token) {
    t.escapes ==> Complete(t.text)
  }

  function Meaning(t: Token): Text
    requires Whole(t)
  {
    if t.escapes then Resolve(t.text) else t.text
  }

  predicate IsDelimiter(c: Byte) {
    c == APOSTROPHE || c == QUOTE
  }

  /** Where the first argument of s starts, and its length in the line. */
  function TokenSpan(s: Text): (r: (nat, nat))
    requires s != []
    ensures r.0 <= 1 && r.0 + r.1 <= |s|
  {
    if IsDelimiter(s[0]) then (1, QuotedLength(s[1..], s[0])) else (0, BareLength(s))
  }

  function FirstToken(s: Text): Token
    requires s != []
  {
    var (a, n) := TokenSpan(s);
    Token(s[a..a + n], s[0] != APOSTROPHE)
  }

  /** The text after the first argument and the character that ended it. */
  function AfterToken(s: Text): (r: Text)
    requires s != []
    ensures r == [] || |r| < |s|
  {
    var (a, n) := TokenSpan(s);
    if a + n < |s| then s[a + n + 1..] else []
  }

  /** The arguments of a line, at most `room` of them. */
  function Tokens(s: Text, room: nat): (r: seq<Token>)
    ensures |r| <= room
    decreases room
  {
    var t := SkipSpaces(s);
    if t == [] || room == 0 then []
    else [FirstToken(t)] + Tokens(AfterToken(t), room - 1)
  }

  // ----- arguments written by output_c_string come back -----

  lemma EscapeScanned(c: Byte, t: Text)
    requires t != []
    ensures QuotedLength(EscapeC(c) + t, QUOTE) == |EscapeC(c)| + QuotedLength(t, QUOTE)
  {
    var s := EscapeC(c) + t;
    if EscapeC(c) == [c] {
      PlainCharacter(c);
      assert s[1..] == t;
    } else if |EscapeC(c)| == 2 {
      assert s[2..] == t;
    } else {
      DigitsScanned(EscapeC(c)[1], DIGIT_0 + c / 8 % 8, DIGIT_0 + c % 8, t);
    }
  }

  lemma DigitsScanned(x: Byte, a: Byte, b: Byte, t: Text)
    requires IsOctal(a) && IsOctal(b)
    ensures QuotedLength([BACKSLASH, x, a, b] + t, QUOTE) == 4 + QuotedLength(t, QUOTE)
  {
    hide QuotedLength;
    var s := [BACKSLASH, x, a, b] + t;
    assert s[4..] == t && s[0..] == s;
    QuotedTurn(s, 0, QUOTE);
    QuotedTurn(s, 2, QUOTE);
    QuotedTurn(s, 3, QUOTE);
  }

  lemma {:induction false} BodyScanned(x: Text, t: Text)
    ensures QuotedLength(EscapedBody(x) + ([QUOTE] + t), QUOTE) == |EscapedBody(x)|
    decreases |x|
  {
    hide EscapeC;
    if x == [] {
      assert EscapedBody(x) + ([QUOTE] + t) == [QUOTE] + t;
    } else {
      BodyScanned(x[1..], t);
      var more := EscapedBody(x[1..]) + ([QUOTE] + t);
      assert EscapedBody(x) + ([QUOTE] + t) == EscapeC(x[0]) + more;
      EscapeScanned(x[0], more);
    }
  }

  /** A row in `MODE_Tcl` with the separator of that mode, a space, and its line feed. */
  function TclRow(row: seq<Text>): Text {
    if row == [] then [LF]
    else [QUOTE] + EscapedBody(row[0]) + [QUOTE] + (if |row| > 1 then [SPACE] else []) + TclRow(row[1..])
  }

  /** The loop that writes a row in `MODE_Tcl`. */
  method OutputTclRow(row: seq<Text>) returns (out: Text)
    ensures out == TclRow(row)
  {
    hide EscapedBody;
    out := [];
    var i := 0;
    assert row[0..] == row;
    while i < |row|
      invariant 0 <= i <= |row| && out + TclRow(row[i..]) == TclRow(row)
    {
      TclRowMore(out, row, i);
      var z := OutputCString(row[i]);
      out := out + z;
      if i < |row| - 1 { out := out + [SPACE]; }
      i := i + 1;
    }
    assert row[i..] == [];
    out := out + [LF];
  }

  lemma TclRowMore(p: Text, row: seq<Text>, i: nat)
    requires i < |row|
    ensures p + TclRow(row[i..])
         == p + ([QUOTE] + EscapedBody(row[i]) + [QUOTE]) + (if i < |row| - 1 then [SPACE] else [])
            + TclRow(row[i + 1..])
  {
    hide EscapedBody;
    assert row[i..][1..] == row[i + 1..];
  }

  lemma FirstOfRow(x: Text, t: Text)
    ensures var s := [QUOTE] + EscapedBody(x) + [QUOTE] + t;
      FirstToken(s) == Token(EscapedBody(x), true) && AfterToken(s) == t && SkipSpaces(s) == s
  {
    hide EscapedBody;
    var s := [QUOTE] + EscapedBody(x) + [QUOTE] + t;
    assert s[1..] == EscapedBody(x) + ([QUOTE] + t);
    BodyScanned(x, t);
    var n := |EscapedBody(x)|;
    assert TokenSpan(s) == (1, n);
    assert s[1..1 + n] == EscapedBody(x);
    assert s[n + 2..] == t;
  }

  /** A row written in Tcl mode and read as the arguments of a command gives the row back, whatever
      bytes its fields contain. */
  lemma {:induction false} TclRowRoundTrip(row: seq<Text>, room: nat)
    requires |row| <= room && forall k :: 0 <= k < |row| ==> NulFree(row[k])
    ensures var ts := Tokens(TclRow(row), room);
      |ts| == |row| && forall k :: 0 <= k < |row| ==> Whole(ts[k]) && Meaning(ts[k]) == row[k]
    decreases |row|
  {
    hide TclRow, Tokens, Complete, Resolve, EscapedBody, NulFree;
    if row == [] {
      NoTokens(room);
    } else {
      CStringRoundTrip(row[0]);
      TclRowFront(row, room);
      TclRowRoundTrip(row[1..], room - 1);
    }
  }

  lemma NoTokens(room: nat)
    ensures Tokens(TclRow([]), room) == []
  {
  }

  lemma TclRowFront(row: seq<Text>, room: nat)
    requires row != [] && room > 0
    ensures Tokens(TclRow(row), room) == [Token(EscapedBody(row[0]), true)] + Tokens(TclRow(row[1..]), room - 1)
  {
    hide EscapedBody, FirstToken, AfterToken, SkipSpaces;
    var t := (if |row| > 1 then [SPACE] else []) + TclRow(row[1..]);
    var s := [QUOTE] + EscapedBody(row[0]) + [QUOTE] + t;
    assert TclRow(row) == s;
    FirstOfRow(row[0], t);
    SpaceSkipped(row);
    assert Tokens(t, room - 1) == Tokens(TclRow(row[1..]), room - 1);
  }

  lemma SpaceSkipped(row: seq<Text>)
    requires row != []
    ensures SkipSpaces((if |row| > 1 then [SPACE] else []) + TclRow(row[1..])) == SkipSpaces(TclRow(row[1..]))
  {
    var t := TclRow(row[1..]);
    if |row| > 1 {
      assert ([SPACE] + t)[1..] == t;
    } else {
      assert [] + t == t;
    }
  }

  // ----- splitting in place -----

  lemma QuotedTurn(s: Text, k: nat, delim: Byte)
    requires k <= |s|
    ensures QuotedLength(s[k..], delim) ==
      if k == |s| || s[k] == delim then 0
      else if s[k] == BACKSLASH && delim == QUOTE && k + 1 < |s| then 2 + QuotedLength(s[k + 2..], delim)
      else 1 + QuotedLength(s[k + 1..], delim)
  {
    if k < |s| { assert s[k..][1..] == s[k + 1..]; }
    if k + 1 < |s| { assert s[k..][2..] == s[k + 2..]; }
  }

  /** The loop that finds the end of a quoted argument. */
  method ScanQuoted(zLine: array<Byte>, start: nat, delim: Byte, ghost s: Text) returns (i: nat)
    requires StringAt(zLine, start, s) && NulFree(s) && delim != NUL
    ensures i == start + QuotedLength(s, delim)
  {
    hide StringAt, QuotedLength;
    i := start;
    ghost var k := 0;
    assert s[0..] == s;
    HoldsByte(zLine, start, s, 0);
    while zLine[i] != NUL && zLine[i] != delim
      invariant 0 <= k <= |s| && i == start + k
      invariant zLine[i] == if k < |s| then s[k] else NUL
      invariant k + QuotedLength(s[k..], delim) == QuotedLength(s, delim)
      decreases |s| - k
    {
      QuotedTurn(s, k, delim);
      HoldsByte(zLine, start, s, k + 1);
      if zLine[i] == BACKSLASH && delim == QUOTE && zLine[i + 1] != NUL {
        HoldsByte(zLine, start, s, k + 2);
        i, k := i + 1, k + 1;
      }
      i, k := i + 1, k + 1;
    }
    QuotedTurn(s, k, delim);
  }

  lemma BareTurn(s: Text, k: nat)
    requires k <= |s|
    ensures BareLength(s[k..]) == if k == |s| || IsSpace(s[k]) then 0 else 1 + BareLength(s[k + 1..])
  {
    if k < |s| { assert s[k..][1..] == s[k + 1..]; }
  }

  /** The loop that finds the end of a bare argument. */
  method ScanBare(zLine: array<Byte>, start: nat, ghost s: Text) returns (i: nat)
    requires StringAt(zLine, start, s) && NulFree(s)
    ensures i == start + BareLength(s)
  {
    hide StringAt, BareLength;
    i := start;
    ghost var k := 0;
    assert s[0..] == s;
    HoldsByte(zLine, start, s, 0);
    while zLine[i] != NUL && !IsSpace(zLine[i])
      invariant 0 <= k <= |s| && i == start + k
      invariant zLine[i] == if k < |s| then s[k] else NUL
      invariant k + BareLength(s[k..]) == BareLength(s)
      decreases |s| - k
    {
      BareTurn(s, k);
      HoldsByte(zLine, start, s, k + 1);
      i, k := i + 1, k + 1;
    }
    BareTurn(s, k);
  }

  lemma BlankTurn(s: Text, k: nat)
    requires k <= |s|
    ensures SkipSpaces(s[k..]) == if k < |s| && IsSpace(s[k]) then SkipSpaces(s[k + 1..]) else s[k..]
  {
    if k < |s| { assert s[k..][1..] == s[k + 1..]; }
  }

  /** Moves to the first character that is not white space. */
  method SkipBlanks(zLine: array<Byte>, start: nat, ghost s: Text) returns (i: nat)
    requires StringAt(zLine, start, s)
    ensures i == start + |s| - |SkipSpaces(s)| && StringAt(zLine, i, SkipSpaces(s))
  {
    hide StringAt, SkipSpaces;
    i := start;
    ghost var k := 0;
    assert s[0..] == s;
    HoldsByte(zLine, start, s, 0);
    while IsSpace(zLine[i])
      invariant 0 <= k <= |s| && i == start + k
      invariant zLine[i] == if k < |s| then s[k] else NUL
      invariant SkipSpaces(s[k..]) == SkipSpaces(s)
      decreases |s| - k
    {
      BlankTurn(s, k);
      HoldsByte(zLine, start, s, k + 1);
      i, k := i + 1, k + 1;
    }
    BlankTurn(s, k);
    HoldsAt(zLine, start, s, k);
  }

  // ----- the argument list -----

  predicate AllWhole(ts: seq<Token>) {
    forall k :: 0 <= k < |ts| ==> Whole(ts[k])
  }

  function Meanings(ts: seq<Token>): (r: seq<Text>)
    requires AllWhole(ts)
    ensures |r| == |ts| && forall k :: 0 <= k < |r| ==> r[k] == Meaning(ts[k])
  {
    seq(|ts|, k requires 0 <= k < |ts| => Meaning(ts[k]))
  }

  /** Ends an argument with a terminator in the place of the character behind it, unless the line ended
      there. */
  method CutToken(zLine: array<Byte>, start: nat, n: nat, ghost s: Text) returns (next: nat)
    requires StringAt(zLine, start, s) && NulFree(s) && n <= |s|
    modifies zLine
    ensures next == if n < |s| then start + n + 1 else start + n
    ensures StringAt(zLine, start, s[..n]) && StringAt(zLine, next, if n < |s| then s[n + 1..] else [])
    ensures zLine[..start] == old(zLine[..start])
  {
    HoldsAt(zLine, start, s, n);
    HoldsPrefix(zLine, start, s, n);
    next := start + n;
    if zLine[next] != NUL {
      HoldsAt(zLine, start, s, n + 1);
      zLine[next] := NUL;
      next := next + 1;
    }
  }

  /** One turn of the argument loop: where the argument starts, and where the next one is sought. */
  method SplitToken(zLine: array<Byte>, i: nat, ghost r: Text) returns (start: nat, next: nat)
    requires StringAt(zLine, i, r) && NulFree(r) && r != [] && Whole(FirstToken(r))
    modifies zLine
    ensures StringAt(zLine, start, Meaning(FirstToken(r))) && StringAt(zLine, next, AfterToken(r))
    ensures i <= start && start + |Meaning(FirstToken(r))| < next + (if AfterToken(r) == [] then 1 else 0)
    ensures zLine[..i] == old(zLine[..i])
  {
    hide StringAt, QuotedLength, BareLength, Complete, Resolve;
    HoldsByte(zLine, i, r, 0);
    start := i;
    var escapes, end := true, i;
    if IsDelimiter(zLine[i]) {
      HoldsAt(zLine, i, r, 1);
      TailNulFree(r, 1);
      start, escapes := i + 1, zLine[i] == QUOTE;
      end := ScanQuoted(zLine, start, zLine[i], r[1..]);
    } else {
      end := ScanBare(zLine, start, r);
    }
    ghost var s := r[start - i..];
    ghost var n := end - start;
    assert start == i ==> s == r;
    HoldsByte(zLine, start, s, n);
    next := CutToken(zLine, start, end - start, s);
    TokenParts(r, start - i, n);
    assert zLine[..i] == old(zLine[..i]);
    if escapes {
      HeadNulFree(s, n);
      Resolving(zLine, i, start, next, s[..n], AfterToken(r));
    }
  }

  lemma HeadNulFree(s: Text, n: nat)
    requires NulFree(s) && n <= |s|
    ensures NulFree(s[..n])
  {
  }

  lemma TokenParts(r: Text, a: nat, n: nat)
    requires r != [] && TokenSpan(r) == (a, n)
    ensures FirstToken(r).text == r[a..][..n]
    ensures AfterToken(r) == if n < |r[a..]| then r[a..][n + 1..] else []
  {
    hide TokenSpan;
    assert r[a..][..n] == r[a..a + n];
    if n < |r[a..]| { assert r[a..][n + 1..] == r[a + n + 1..]; }
  }

  /** `StringAt`, for the contents of a buffer or of a part of it. */
  predicate HeldIn(p: Text, at: nat, s: Text) {
    at + |s| < |p| && p[at..at + |s|] == s && p[at + |s|] == NUL
  }

  lemma HeldTail(z: array<Byte>, k: nat, at: nat, s: Text)
    requires k <= at && k <= z.Length
    ensures StringAt(z, at, s) <==> HeldIn(z[k..], at - k, s)
  {
    if at + |s| < z.Length {
      assert z[k..][at - k..at - k + |s|] == z[at..at + |s|];
    }
  }

  lemma HeldHead(z: array<Byte>, k: nat, at: nat, s: Text)
    requires at + |s| < k <= z.Length
    ensures StringAt(z, at, s) <==> HeldIn(z[..k], at, s)
  {
    assert z[..k][at..at + |s|] == z[at..at + |s|];
  }

  /** Resolving an argument leaves the rest of the line alone. */
  method Resolving(zLine: array<Byte>, ghost i: nat, start: nat, ghost next: nat, ghost s: Text, ghost rest: Text)
    requires StringAt(zLine, start, s) && NulFree(s) && Complete(s) && i <= start
    requires StringAt(zLine, next, rest) && start + |s| <= next
    modifies zLine
    ensures StringAt(zLine, start, Resolve(s)) && StringAt(zLine, next, rest)
    ensures zLine[..i] == old(zLine[..i])
  {
    hide Resolve, Complete, StringAt, HeldIn;
    HoldsByte(zLine, start, s, 0);
    HeldTail(zLine, start + |s|, next, rest);
    ghost var head := zLine[..start];
    ResolveBackslashes(zLine, start, s);
    HeldTail(zLine, start + |s|, next, rest);
    assert zLine[..i] == head[..i];
  }

  /** The arguments found so far stand before a position of the line. */
  ghost predicate Placed(p: Text, azArg: seq<nat>, args: seq<Text>) {
    |azArg| == |args| && forall k :: 0 <= k < |args| ==> HeldIn(p, azArg[k], args[k])
  }

  lemma PlacedMore(p: Text, lim: nat, azArg: seq<nat>, args: seq<Text>, start: nat, arg: Text)
    requires lim <= |p| && Placed(p[..lim], azArg, args) && HeldIn(p, start, arg)
    ensures Placed(p, azArg + [start], args + [arg])
  {
    hide HeldIn;
    PlacedWiden(p, lim, azArg, args);
  }

  lemma MeaningsSnoc(ts: seq<Token>, t: Token)
    requires AllWhole(ts) && Whole(t)
    ensures AllWhole(ts + [t]) && Meanings(ts + [t]) == Meanings(ts) + [Meaning(t)]
  {
    hide Whole, Meaning;
  }

  const ARGUMENTS: nat := 50

  /** The bytes of the line that earlier arguments may occupy. */
  function Limit(i: nat, r: Text): nat {
    if r == [] then i + 1 else i
  }

  lemma TokensTurn(all: seq<Token>, done: seq<Token>, r: Text, room: nat)
    requires all == done + Tokens(r, room) && AllWhole(all)
    ensures AllWhole(done)
    ensures var t := SkipSpaces(r);
      if t == [] || room == 0 then all == done
      else Whole(FirstToken(t)) && all == done + [FirstToken(t)] + Tokens(AfterToken(t), room - 1)
  {
    hide FirstToken, AfterToken, Whole;
    var t := SkipSpaces(r);
    forall k | 0 <= k < |done| ensures Whole(done[k]) {
      assert done[k] == all[k];
    }
    if t != [] && room > 0 {
      assert all[|done|] == FirstToken(t);
    }
  }

  lemma LimitReached(z: array<Byte>, i: nat, r: Text)
    requires StringAt(z, i, r)
    ensures Limit(i, r) <= z.Length
  {
  }

  /** The argument loop of `do_meta_command`: every argument is a C string in the line itself. */
  method SplitLine(zLine: array<Byte>, ghost s: Text) returns (azArg: array<nat>, nArg: nat)
    requires StringAt(zLine, 0, s) && NulFree(s) && s != []
    requires AllWhole(Tokens(s[1..], ARGUMENTS))
    modifies zLine
    ensures fresh(azArg) && azArg.Length == ARGUMENTS && nArg == |Tokens(s[1..], ARGUMENTS)|
    ensures Placed(zLine[..], azArg[..nArg], Meanings(Tokens(s[1..], ARGUMENTS)))
  {
    hide StringAt, HeldIn, Placed, Tokens, AllWhole, NulFree, Meanings, SkipSpaces;
    azArg := new nat[ARGUMENTS];
    nArg := 0;
    var i: nat := 1;
    HoldsAt(zLine, 0, s, 1);
    TailNulFree(s, 1);
    ghost var r := s[1..];
    ghost var all := Tokens(r, ARGUMENTS);
    ghost var done: seq<Token> := [];
    ghost var lim := Limit(i, r);
    assert all == done + Tokens(r, ARGUMENTS);
    TokensTurn(all, done, r, ARGUMENTS);
    LimitReached(zLine, i, r);
    NothingPlaced(zLine[..lim], azArg[..0]);
    HoldsByte(zLine, i, r, 0);
    while zLine[i] != NUL && nArg < ARGUMENTS
      invariant StringAt(zLine, i, r) && NulFree(r) && lim == Limit(i, r) <= zLine.Length && i < zLine.Length
      invariant zLine[i] == NUL <==> r == []
      invariant nArg <= ARGUMENTS && |done| == nArg && AllWhole(done)
      invariant all == done + Tokens(r, ARGUMENTS - nArg)
      invariant Placed(zLine[..lim], azArg[..nArg], Meanings(done))
      decreases |r|
    {
      TokensTurn(all, done, r, ARGUMENTS - nArg);
      RestNulFree(r);
      HoldsByte(zLine, i, r, 0);
      ghost var t := SkipSpaces(r);
      i := SkipBlanks(zLine, i, r);
      HoldsByte(zLine, i, t, 0);
      if zLine[i] == NUL { break; }
      var start;
      start, i := PlaceToken(zLine, i, t, lim, azArg[..nArg], Meanings(done));
      AfterNulFree(t);
      r, lim := AfterToken(t), Limit(i, AfterToken(t));
      MeaningsSnoc(done, FirstToken(t));
      done := done + [FirstToken(t)];
      ghost var args := azArg[..nArg];
      azArg[nArg] := start;
      nArg := nArg + 1;
      assert azArg[..nArg] == args + [start];
    }
    TokensTurn(all, done, r, ARGUMENTS - nArg);
    assert zLine[..][..lim] == zLine[..lim];
    PlacedWiden(zLine[..], lim, azArg[..nArg], Meanings(done));
  }

  /** `SplitToken`, with the earlier arguments left where they are. */
  method PlaceToken(zLine: array<Byte>, i: nat, ghost t: Text, ghost lim: nat, ghost azArg: seq<nat>,
                    ghost args: seq<Text>)
    returns (start: nat, next: nat)
    requires StringAt(zLine, i, t) && NulFree(t) && t != [] && Whole(FirstToken(t))
    requires lim <= i < zLine.Length && Placed(zLine[..lim], azArg, args)
    modifies zLine
    ensures next < zLine.Length && (zLine[next] == NUL <==> AfterToken(t) == [])
    ensures Limit(next, AfterToken(t)) <= zLine.Length
    ensures StringAt(zLine, next, AfterToken(t))
    ensures Placed(zLine[..Limit(next, AfterToken(t))], azArg + [start], args + [Meaning(FirstToken(t))])
  {
    hide StringAt, HeldIn, Placed, Meaning, FirstToken, AfterToken, Whole;
    ghost var head := zLine[..i];
    assert head[..lim] == zLine[..lim];
    start, next := SplitToken(zLine, i, t);
    ghost var arg := Meaning(FirstToken(t));
    ghost var end := Limit(next, AfterToken(t));
    AfterNulFree(t);
    LimitReached(zLine, next, AfterToken(t));
    HoldsByte(zLine, next, AfterToken(t), 0);
    HeldHead(zLine, end, start, arg);
    assert zLine[..end][..lim] == head[..lim] by {
      assert zLine[..i][..lim] == zLine[..lim] == zLine[..end][..lim];
    }
    PlacedMore(zLine[..end], lim, azArg, args, start, arg);
  }

  lemma PlacedWiden(p: Text, lim: nat, azArg: seq<nat>, args: seq<Text>)
    requires lim <= |p| && Placed(p[..lim], azArg, args)
    ensures Placed(p, azArg, args)
  {
    forall k | 0 <= k < |args| ensures HeldIn(p, azArg[k], args[k]) {
      assert p[..lim][azArg[k]..azArg[k] + |args[k]|] == p[azArg[k]..azArg[k] + |args[k]|];
    }
  }

  lemma AfterNulFree(t: Text)
    requires NulFree(t) && t != []
    ensures NulFree(AfterToken(t))
  {
  }

  lemma RestNulFree(r: Text)
    requires NulFree(r)
    ensures NulFree(SkipSpaces(r))
  {
    if r != [] && IsSpace(r[0]) { RestNulFree(r[1..]); }
  }

  lemma NothingPlaced(p: Text, azArg: seq<nat>)
    requires azArg == []
    ensures Placed(p, azArg, []) && AllWhole([]) && Meanings([]) == []
  {
  }
}
