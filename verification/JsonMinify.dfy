/** `cJSON_Minify` keeps the parsed value of every document and is idempotent on documents. */
module JsonMinify {
  import opened CText
  import opened JsonSpec
  import opened JsonRoundTrip

  predicate IsBlank(c: Byte) {
    c == SPACE || c == TAB || c == CR || c == LF
  }

  /** From the first slash of `//` to the end of the line. */
  function LineEnd(s: Text): (r: Text)
    ensures |r| <= |s|
  {
    if s != [] && s[0] != LF then LineEnd(s[1..]) else s
  }

  /** From the first slash of a block comment to just after its end.  The search for the end
      starts at that slash. */
  function BlockEnd(s: Text): (r: Text)
    ensures |r| <= |s|
  {
    if s == [] then [] else if HasPrefix(s, [STAR, SLASH]) then s[2..] else BlockEnd(s[1..])
  }

  /** What `cJSON_Minify` leaves of the text from here on, outside string literals. */
  function Minify(s: Text): (r: Text)
    ensures |r| <= |s|
    decreases |s|
  {
    if s == [] then []
    else if IsBlank(s[0]) then Minify(s[1..])
    else if HasPrefix(s, [SLASH, SLASH]) then Minify(LineEnd(s[1..]))
    else if HasPrefix(s, [SLASH, STAR]) then Minify(BlockEnd(s[1..]))
    else if s[0] == QUOTE then [QUOTE] + MinifyString(s[1..])
    else [s[0]] + Minify(s[1..])
  }

  /** The same from inside a string literal. */
  function MinifyString(s: Text): (r: Text)
    ensures |r| <= |s|
    decreases |s|
  {
    if s == [] then []
    else if s[0] == QUOTE then [QUOTE] + Minify(s[1..])
    else if s[0] == BACKSLASH && |s| >= 2 then s[..2] + MinifyString(s[2..])
    else [s[0]] + MinifyString(s[1..])
  }

  // ----- comment-free text with closed literals -----

  predicate Clean(s: Text)
    decreases |s|
  {
    s == [] ||
    if s[0] == QUOTE then CleanString(s[1..]) else s[0] != SLASH && Clean(s[1..])
  }

  predicate CleanString(s: Text)
    decreases |s|
  {
    s != [] &&
    if s[0] == QUOTE then Clean(s[1..])
    else if s[0] == BACKSLASH then |s| >= 2 && CleanString(s[2..])
    else CleanString(s[1..])
  }

  lemma NoComment(s: Text)
    requires s != [] && s[0] != SLASH
    ensures !HasPrefix(s, [SLASH, SLASH]) && !HasPrefix(s, [SLASH, STAR])
  {
    FirstOf(s, [SLASH, SLASH]);
    FirstOf(s, [SLASH, STAR]);
  }

  lemma {:induction false} MinifyIdempotent(s: Text)
    requires Clean(s)
    ensures Clean(Minify(s)) && Minify(Minify(s)) == Minify(s)
    decreases |s|
  {
    hide HasPrefix, CleanString, MinifyString;
    if s != [] {
      NoComment(s);
      var m := Minify(s);
      if IsBlank(s[0]) {
        MinifyIdempotent(s[1..]);
      } else {
        NoComment(m);
        if s[0] == QUOTE {
          assert m[1..] == MinifyString(s[1..]);
          MinifyStringIdempotent(s[1..]);
        } else {
          assert m[1..] == Minify(s[1..]);
          MinifyIdempotent(s[1..]);
        }
      }
    }
  }

  lemma {:induction false} MinifyStringIdempotent(s: Text)
    requires CleanString(s)
    ensures CleanString(MinifyString(s)) && MinifyString(MinifyString(s)) == MinifyString(s)
    decreases |s|
  {
    hide Clean, Minify;
    var m := MinifyString(s);
    if s[0] == QUOTE {
      assert m[1..] == Minify(s[1..]);
      MinifyIdempotent(s[1..]);
    } else if s[0] == BACKSLASH {
      assert m[2..] == MinifyString(s[2..]) && m[..2] == s[..2];
      MinifyStringIdempotent(s[2..]);
    } else {
      assert m[1..] == MinifyString(s[1..]);
      MinifyStringIdempotent(s[1..]);
    }
  }

  // ----- tokens -----

  predicate IsSolid(c: Byte) {
    !IsBlank(c) && c != SLASH && c != QUOTE
  }

  lemma SolidStep(c: Byte, t: Text)
    requires IsSolid(c) && Clean(t)
    ensures Clean([c] + t) && Minify([c] + t) == [c] + Minify(t)
  {
    hide HasPrefix, CleanString, MinifyString;
    assert ([c] + t)[1..] == t;
    NoComment([c] + t);
  }

  lemma {:induction false} SolidRun(w: Text, t: Text)
    requires forall i :: 0 <= i < |w| ==> IsSolid(w[i])
    requires Clean(t)
    ensures Clean(w + t) && Minify(w + t) == w + Minify(t)
    decreases |w|
  {
    hide Clean, Minify, IsSolid;
    if w == [] {
      assert w + t == t && w + Minify(t) == Minify(t);
    } else {
      SolidRun(w[1..], t);
      SolidStep(w[0], w[1..] + t);
      OneFirst(w, t);
      OneFirst(w, Minify(t));
    }
  }

  lemma OneFirst(w: Text, t: Text)
    requires w != []
    ensures w == [w[0]] + w[1..] && w + t == [w[0]] + (w[1..] + t) && (w + t)[1..] == w[1..] + t
  {
  }

  /** A token at the front of clean text stays at the front. */
  lemma MinifyFirst(s: Text)
    requires Clean(s) && s != [] && s[0] > 32
    ensures Minify(s) != [] && Minify(s)[0] == s[0]
  {
    hide HasPrefix;
    NoComment(s);
  }

  lemma {:induction false} SkipMinified(s: Text)
    requires Clean(Skip(s))
    ensures Clean(s) && Skip(Minify(s)) == Minify(Skip(s))
    decreases |s|
  {
    hide HasPrefix;
    if s != [] && s[0] <= 32 {
      SkipMinified(s[1..]);
      NoComment(s);
      if !IsBlank(s[0]) {
        assert Minify(s)[1..] == Minify(s[1..]);
      }
    } else if s != [] {
      MinifyFirst(s);
    }
  }

  /** White space and a closing or separating character end a number. */
  lemma SkipEndsNumber(s: Text)
    requires Skip(s) == [] || Skip(s)[0] in {COMMA, RIGHT_BRACKET, RIGHT_BRACE}
    ensures NumberEnds(s)
  {
  }

  // ----- numbers -----

  predicate IsNumberByte(c: Byte) {
    IsDigit(c) || c in {DOT, LOWER_E, UPPER_E, PLUS, MINUS}
  }

  predicate NumberBytes(d: Text) {
    forall i :: 0 <= i < |d| ==> IsNumberByte(d[i])
  }

  lemma NumberBytesJoin(d: Text, e: Text)
    requires NumberBytes(d) && NumberBytes(e)
    ensures NumberBytes(d + e)
  {
  }

  // Each part of a number is a prefix d of its text, and is read the same before any u that
  // cannot extend it.

  lemma {:induction false} DigitsLocal(s: Text, acc: nat, u: Text) returns (d: Text)
    requires !StartsWithDigit(u)
    ensures s == d + TakeDigits(s, acc).1 && NumberBytes(d)
    ensures TakeDigits(d + u, acc) == (TakeDigits(s, acc).0, u)
    ensures d == [] || IsDigit(d[0])
    decreases |s|
  {
    hide NumberBytes;
    if StartsWithDigit(s) {
      var c := s[0];
      var e := DigitsLocal(s[1..], acc * 10 + (c - DIGIT_0), u);
      d := [c] + e;
      OneByte(c);
      NumberBytesJoin([c], e);
      OneFirst(d, u);
      assert s == d + TakeDigits(s, acc).1;
    } else {
      d := [];
      assert d + u == u && d + s == s;
      NoBytes();
    }
  }

  lemma OneByte(c: Byte)
    requires IsNumberByte(c)
    ensures NumberBytes([c])
  {
  }

  lemma NoBytes()
    ensures NumberBytes([])
  {
  }

  lemma IntegerLocal(s: Text, u: Text) returns (d: Text)
    requires !StartsWithDigit(u)
    ensures s == d + TakeInteger(s).1 && NumberBytes(d)
    ensures TakeInteger(d + u) == (TakeInteger(s).0, u)
    ensures d == [] || IsDigit(d[0])
  {
    hide NumberBytes, Nonzero;
    if StartsWith(s, DIGIT_0) {
      var e := NonzeroLocal(s[1..], u);
      d := [DIGIT_0] + e;
      OneByte(DIGIT_0);
      NumberBytesJoin([DIGIT_0], e);
      OneFirst(d, u);
      IntegerParts(d + u);
      IntegerParts(s);
      assert s == d + TakeInteger(s).1;
    } else {
      d := NonzeroLocal(s, u);
      IntegerParts(s);
      assert d == [] ==> d + u == u;
      assert d != [] ==> (d + u)[0] == d[0] == s[0];
      IntegerParts(d + u);
    }
  }

  /** The digits of an integer part behind its optional zero. */
  function Nonzero(s: Text): (nat, Text) {
    if StartsWithDigit(s) && s[0] != DIGIT_0 then TakeDigits(s, 0) else (0, s)
  }

  lemma IntegerParts(s: Text)
    ensures TakeInteger(s) == Nonzero(if StartsWith(s, DIGIT_0) then s[1..] else s)
  {
    hide TakeDigits;
  }

  lemma NonzeroLocal(s: Text, u: Text) returns (d: Text)
    requires !StartsWithDigit(u)
    ensures s == d + Nonzero(s).1 && NumberBytes(d)
    ensures Nonzero(d + u) == (Nonzero(s).0, u)
    ensures d == [] || (IsDigit(d[0]) && s != [] && d[0] == s[0])
  {
    hide TakeDigits, NumberBytes;
    if StartsWithDigit(s) && s[0] != DIGIT_0 {
      d := DigitsLocal(s, 0, u);
      FirstDigit(s, d, TakeDigits(s, 0).1);
      assert (d + u)[0] == d[0];
    } else {
      d := [];
      NoBytes();
      assert d + u == u && d + s == s;
    }
  }

  lemma FirstDigit(s: Text, e: Text, r: Text)
    requires s == e + r && s != [] && |r| < |s|
    ensures e != [] && e[0] == s[0]
  {
  }

  lemma FractionLocal(n: nat, s: Text, u: Text) returns (d: Text)
    requires !StartsWithDigit(u) && !StartsWith(u, DOT)
    ensures s == d + TakeFraction(n, s).1 && NumberBytes(d)
    ensures TakeFraction(n, d + u) == (TakeFraction(n, s).0, u)
    ensures d == [] || d[0] == DOT
  {
    hide TakeDigits, NumberBytes;
    NoBytes();
    if StartsWith(s, DOT) && StartsWithDigit(s[1..]) {
      var e := DigitsLocal(s[1..], n, u);
      FirstDigit(s[1..], e, TakeDigits(s[1..], n).1);
      d := [DOT] + e;
      OneByte(DOT);
      NumberBytesJoin([DOT], e);
      assert (d + u)[1..] == e + u;
      assert s == [DOT] + s[1..];
    } else {
      d := [];
      assert d + u == u && d + s == s;
    }
  }

  lemma SignedLocal(s: Text, u: Text) returns (d: Text)
    requires NumberEnds(u)
    ensures s == d + TakeSigned(s).1 && NumberBytes(d)
    ensures TakeSigned(d + u) == (TakeSigned(s).0, u)
  {
    hide TakeDigits, NumberBytes;
    if StartsWith(s, PLUS) || StartsWith(s, MINUS) {
      var e := DigitsLocal(s[1..], 0, u);
      d := [s[0]] + e;
      OneByte(s[0]);
      NumberBytesJoin([s[0]], e);
      assert (d + u)[1..] == e + u;
      assert s == [s[0]] + s[1..];
    } else {
      d := DigitsLocal(s, 0, u);
      assert d != [] ==> (d + u)[0] == d[0];
      assert d == [] ==> d + u == u;
    }
  }

  lemma ExponentLocal(s: Text, u: Text) returns (d: Text)
    requires NumberEnds(u)
    ensures s == d + TakeExponent(s).1 && NumberBytes(d)
    ensures TakeExponent(d + u) == (TakeExponent(s).0, u)
    ensures d == [] || d[0] == LOWER_E || d[0] == UPPER_E
  {
    hide TakeSigned, NumberBytes;
    if StartsWith(s, LOWER_E) || StartsWith(s, UPPER_E) {
      var e := SignedLocal(s[1..], u);
      d := [s[0]] + e;
      OneByte(s[0]);
      NumberBytesJoin([s[0]], e);
      assert (d + u)[1..] == e + u;
      assert s == [s[0]] + s[1..];
    } else {
      d := [];
      NoBytes();
      assert d + u == u && d + s == s;
    }
  }

  lemma NumberLocal(s: Text, u: Text) returns (d: Text)
    requires NumberEnds(u)
    ensures var r := ParseNumber(s);
      s == d + r.rest && NumberBytes(d) && ParseNumber(d + u) == Ok(r.value, u)
  {
    hide TakeInteger, TakeFraction, TakeExponent, NumberBytes, ParseNumber, FractionDigits;
    var sign: Text := if StartsWith(s, MINUS) then [MINUS] else [];
    var s0 := if StartsWith(s, MINUS) then s[1..] else s;
    assert s == sign + s0;
    var i := TakeInteger(s0);
    var f := TakeFraction(i.0, i.1);
    var e3 := ExponentLocal(f.1, u);
    assert !StartsWithDigit(e3 + u) && !StartsWith(e3 + u, DOT);
    var e2 := FractionLocal(i.0, i.1, e3 + u);
    assert !StartsWithDigit(e2 + (e3 + u));
    var e1 := IntegerLocal(s0, e2 + (e3 + u));
    d := sign + (e1 + (e2 + e3));
    var v := e1 + (e2 + (e3 + u));
    JoinParts(sign, e1, e2, e3, TakeExponent(f.1).1);
    JoinParts(sign, e1, e2, e3, u);
    NumberPieces(sign, e1, e2, e3);
    assert !StartsWith(s0, MINUS) || sign == [MINUS];
    assert sign == [] ==> !StartsWith(v, MINUS);
    NumberAt(sign, s0);
    NumberAt(sign, v);
    FractionSame(e2, f.1, e3 + u);
  }

  lemma NumberPieces(sign: Text, a: Text, b: Text, c: Text)
    requires sign == [] || sign == [MINUS]
    requires NumberBytes(a) && NumberBytes(b) && NumberBytes(c)
    ensures NumberBytes(sign + (a + (b + c)))
  {
    hide NumberBytes;
    OneByte(MINUS);
    NoBytes();
    NumberBytesJoin(b, c);
    NumberBytesJoin(a, b + c);
    NumberBytesJoin(sign, a + (b + c));
  }

  /** `parse_number` behind its sign. */
  lemma NumberAt(sign: Text, v: Text)
    requires sign == [MINUS] || (sign == [] && !StartsWith(v, MINUS))
    ensures var i := TakeInteger(v);
      var f := TakeFraction(i.0, i.1);
      var e := TakeExponent(f.1);
      var n: int := f.0;
      ParseNumber(sign + v) == Ok(Number(if sign == [] then n else -n, e.0 - FractionDigits(i.1, f.1)), e.1)
  {
    hide TakeInteger, TakeFraction, TakeExponent, FractionDigits;
    assert sign == [] ==> sign + v == v;
    assert sign != [] ==> (sign + v)[1..] == v;
  }

  lemma FractionSame(d: Text, r: Text, u: Text)
    ensures FractionDigits(d + r, r) == FractionDigits(d + u, u)
  {
  }

  lemma JoinParts(a: Text, b: Text, c: Text, d: Text, e: Text)
    ensures a + (b + (c + d)) + e == a + (b + (c + (d + e)))
  {
  }

  // ----- string literals -----

  /** One step of the string loop on `k + t` is the same step on `k + u`, if t and u agree on
      whether another `\u` escape follows. */
  lemma CharLocal(k: Text, t: Text, u: Text)
    requires k != [] && CharStep(k + t).Ok? && CharStep(k + t).rest == t
    requires HasPrefix(u, [BACKSLASH, LOWER_U]) <==> HasPrefix(t, [BACKSLASH, LOWER_U])
    ensures CharStep(k + u) == Ok(CharStep(k + t).value, u)
  {
    var (s, v) := (k + t, k + u);
    assert s[|k|..] == t && v[|k|..] == u;
    if k[0] == BACKSLASH && |k| >= 2 && k[1] == LOWER_U {
      UnicodeLocal(k, t, u);
    }
  }

  lemma UnicodeLocal(k: Text, t: Text, u: Text)
    requires |k| >= 2 && UnicodeStep(k + t).Ok? && UnicodeStep(k + t).rest == t
    requires HasPrefix(u, [BACKSLASH, LOWER_U]) <==> HasPrefix(t, [BACKSLASH, LOWER_U])
    ensures UnicodeStep(k + u) == Ok(UnicodeStep(k + t).value, u)
  {
    hide Utf8, ParseHex4;
    var (s, v) := (k + t, k + u);
    assert |k| == 6 || |k| == 12;
    SameHex(s[2..], v[2..]);
    if |k| == 6 {
      assert s[6..] == t && v[6..] == u;
    } else {
      assert s[12..] == t && v[12..] == u;
      SameHex(s[8..], v[8..]);
      SamePrefix(s[6..], v[6..]);
    }
  }

  lemma SameHex(s: Text, v: Text)
    requires |s| >= 4 && |v| >= 4 && s[..4] == v[..4]
    ensures ParseHex4(s) == ParseHex4(v)
  {
    assert forall i :: 0 <= i < 4 ==> s[i] == s[..4][i] == v[..4][i] == v[i];
  }

  lemma SamePrefix(s: Text, v: Text)
    requires |s| >= 2 && |v| >= 2 && s[..2] == v[..2]
    ensures HasPrefix(s, [BACKSLASH, LOWER_U]) == HasPrefix(v, [BACKSLASH, LOWER_U])
  {
  }

  /** The literal whose body starts here has its closing quote. */
  predicate Shut(s: Text) {
    Stop(s) < |s|
  }

  /** The string loop of `cJSON_Minify` goes over a literal as the counting pass of the parser does,
      and copies it. */
  lemma {:induction false} LiteralCopied(s: Text)
    requires Shut(s)
    ensures var n := Stop(s);
      MinifyString(s) == s[..n] + ([QUOTE] + Minify(s[n + 1..])) && (CleanString(s) <==> Clean(s[n + 1..]))
    decreases |s|
  {
    hide Clean, Minify, CleanString, MinifyString;
    var n := Stop(s);
    if s[0] == QUOTE {
      QuoteCopied(s);
      assert s[..0] + ([QUOTE] + Minify(s[1..])) == [QUOTE] + Minify(s[1..]);
    } else {
      var k := if s[0] == BACKSLASH then 2 else 1;
      LiteralCopied(s[k..]);
      OneCopied(s, k);
      assert s[k..][n - k + 1..] == s[n + 1..];
      Rejoined(s, [QUOTE] + Minify(s[n + 1..]), k, n);
    }
  }

  lemma QuoteCopied(s: Text)
    requires StartsWith(s, QUOTE)
    ensures MinifyString(s) == [QUOTE] + Minify(s[1..]) && CleanString(s) == Clean(s[1..])
  {
    hide Clean, Minify;
  }

  lemma OneCopied(s: Text, k: nat)
    requires s != [] && s[0] != QUOTE && k == (if s[0] == BACKSLASH then 2 else 1) && k <= |s|
    ensures MinifyString(s) == s[..k] + MinifyString(s[k..]) && CleanString(s) == CleanString(s[k..])
  {
    hide Clean, Minify;
  }

  /** A literal without its closing quote is not clean text. */
  lemma {:induction false} OpenNotClean(s: Text)
    requires !Shut(s)
    ensures !CleanString(s)
    decreases |s|
  {
    hide Clean;
    if s != [] && s[0] == BACKSLASH {
      if |s| >= 2 { OpenNotClean(s[2..]); }
    } else if s != [] {
      OpenNotClean(s[1..]);
    }
  }

  lemma ShutValue(s: Text)
    requires ParseValue(s).Ok? && ParseValue(s).rest != [] && StartsWith(s, QUOTE)
    ensures Shut(s[1..])
  {
    hide ParseString, ParseValue, Shut;
    DispatchOther(s);
    ShutName(s);
  }

  lemma ShutName(s: Text)
    requires ParseString(s).Ok? && ParseString(s).rest != []
    ensures Shut(s[1..])
  {
  }

  // A closed literal is read the same before any text.

  lemma {:induction false} StopLocal(s: Text, u: Text)
    requires Shut(s) && StartsWith(u, QUOTE)
    ensures Stop(s[..Stop(s)] + u) == Stop(s)
    decreases |s|
  {
    var n := Stop(s);
    if s[0] == QUOTE {
      assert s[..0] + u == u;
    } else {
      var k := if s[0] == BACKSLASH then 2 else 1;
      StopLocal(s[k..], u);
      Rejoined(s, u, k, n);
      StopOne(s[..k], s[k..][..n - k] + u);
    }
  }

  lemma StopOne(k: Text, t: Text)
    requires if |k| == 1 then k[0] != QUOTE && k[0] != BACKSLASH else |k| == 2 && k[0] == BACKSLASH
    ensures Stop(k + t) == |k| + Stop(t)
  {
    hide Stop;
    if |k| == 1 { StopPlain(k, t); } else { StopEscape(k, t); }
  }

  /** The text of the writing pass with something else behind its closing quote. */
  function Before(s: Text, u: Text): Text
    requires WrittenBody(s).Ok?
  {
    s[..|s| - |WrittenBody(s).rest|] + u
  }

  lemma {:induction false} WrittenLocal(s: Text, u: Text)
    requires WrittenBody(s).Ok? && WrittenBody(s).rest != [] && StartsWith(u, QUOTE)
    ensures WrittenBody(Before(s, u)) == Ok(WrittenBody(s).value, u)
    decreases |s|
  {
    hide CharStep, WrittenBody, HasPrefix, Before;
    WrittenStep(s);
    if s[0] == QUOTE {
      NothingBefore(s, u);
      WrittenStep(u);
    } else {
      var c := CharStep(s);
      var k := |s| - |c.rest|;
      var more := Before(c.rest, u);
      WrittenLocal(c.rest, u);
      BeforeTail(s, u);
      CharLocal(s[..k], c.rest, more);
      WrittenStep(s[..k] + more);
    }
  }

  lemma NothingBefore(s: Text, u: Text)
    requires StartsWith(s, QUOTE)
    ensures WrittenBody(s).Ok? && Before(s, u) == u
  {
    assert s[..0] + u == u;
  }

  lemma BeforeTail(s: Text, u: Text)
    requires s != [] && s[0] != QUOTE && StartsWith(u, QUOTE) && CharStep(s).Ok?
    requires WrittenBody(CharStep(s).rest).Ok? && WrittenBody(CharStep(s).rest).rest != []
    ensures var t := CharStep(s).rest;
      && WrittenBody(s).Ok? && s == s[..|s| - |t|] + t
      && Before(s, u) == s[..|s| - |t|] + Before(t, u)
      && (HasPrefix(Before(t, u), [BACKSLASH, LOWER_U]) <==> HasPrefix(t, [BACKSLASH, LOWER_U]))
  {
    hide CharStep, WrittenBody, HasPrefix;
    WrittenStep(s);
    var (t, w) := (CharStep(s).rest, WrittenBody(CharStep(s).rest).rest);
    Rejoined(s, u, |s| - |t|, |s| - |w|);
    SameLookahead(t, Before(t, u), |t| - |w|);
  }

  lemma Rejoined(s: Text, u: Text, k: nat, n: nat)
    requires k <= n <= |s|
    ensures s == s[..k] + s[k..] && s[..n] + u == s[..k] + (s[k..][..n - k] + u)
  {
  }

  /** Before a quote no `\u` begins or is cut. */
  lemma SameLookahead(t: Text, u: Text, n: nat)
    requires n < |t| && n < |u| && t[..n] == u[..n] && t[n] == u[n] == QUOTE
    ensures HasPrefix(u, [BACKSLASH, LOWER_U]) <==> HasPrefix(t, [BACKSLASH, LOWER_U])
  {
    assert forall i :: 0 <= i < n ==> t[i] == t[..n][i] == u[..n][i] == u[i];
    assert |t| >= 2 ==> t[..2] == [t[0], t[1]];
    assert |u| >= 2 ==> u[..2] == [u[0], u[1]];
  }

  lemma BodyMinified(s: Text)
    requires StringBody(s).Ok? && Shut(s) && Clean(StringBody(s).rest)
    ensures CleanString(s)
    ensures StringBody(MinifyString(s)) == Ok(StringBody(s).value, Minify(StringBody(s).rest))
  {
    hide WrittenBody, Stop, Clean, CleanString, Minify, MinifyString;
    var n := Stop(s);
    var u := [QUOTE] + Minify(s[n + 1..]);
    assert s[n..][1..] == s[n + 1..];
    LiteralCopied(s);
    StopLocal(s, u);
    WrittenLocal(s, u);
    assert u[1..] == Minify(s[n + 1..]);
  }

  lemma StringMinified(s: Text)
    requires ParseString(s).Ok? && Shut(s[1..]) && Clean(ParseString(s).rest)
    ensures Clean(s)
    ensures ParseString(Minify(s)) == Ok(ParseString(s).value, Minify(ParseString(s).rest))
  {
    hide StringBody, CleanString, MinifyString, HasPrefix, Shut;
    BodyMinified(s[1..]);
    NoComment(s);
    assert Minify(s)[1..] == MinifyString(s[1..]);
  }

  // ----- values -----

  lemma WordMinified(w: Text, t: Text)
    requires w in {NULL_TEXT, FALSE_TEXT, TRUE_TEXT} && Clean(t)
    ensures Clean(w + t) && ParseValue(w + t).Ok?
    ensures ParseValue(Minify(w + t)) == Ok(ParseValue(w + t).value, Minify(t))
  {
    hide ParseValue, Clean, Minify;
    SolidRun(w, t);
    DispatchWord(w, t);
    DispatchWord(w, Minify(t));
  }

  lemma NumberMinified(s: Text)
    requires StartsWith(s, MINUS) || StartsWithDigit(s)
    requires var t := ParseNumber(s).rest; Clean(t) && NumberEnds(Minify(t))
    ensures Clean(s)
    ensures ParseValue(Minify(s)) == Ok(ParseNumber(s).value, Minify(ParseNumber(s).rest))
  {
    hide ParseValue, ParseNumber, Clean, Minify;
    var t := ParseNumber(s).rest;
    var d := NumberLocal(s, Minify(t));
    SolidRun(d, t);
    DispatchOther(d + Minify(t));
  }

  lemma TextMinified(s: Text)
    requires StartsWith(s, QUOTE) && ParseString(s).Ok? && Shut(s[1..]) && Clean(ParseString(s).rest)
    ensures Clean(s)
    ensures ParseValue(Minify(s)) == Ok(String(ParseString(s).value), Minify(ParseString(s).rest))
  {
    hide ParseValue, ParseString, Clean, Minify;
    StringMinified(s);
    MinifyFirst(s);
    DispatchOther(Minify(s));
  }

  /** A punctuation character and what follows it. */
  lemma PunctMinified(c: Byte, t: Text)
    requires c in {COMMA, COLON, LEFT_BRACKET, RIGHT_BRACKET, LEFT_BRACE, RIGHT_BRACE}
    requires Clean(t)
    ensures Clean([c] + t) && Minify([c] + t) == [c] + Minify(t)
  {
    hide Clean, Minify;
    SolidRun([c], t);
  }

  /** White space before a separator or a closing character disappears or stays white space. */
  lemma SeparatorMinified(s: Text, c: Byte, t: Text)
    requires c in {COMMA, COLON, RIGHT_BRACKET, RIGHT_BRACE}
    requires Skip(s) == [c] + t && Clean(t)
    ensures Clean(s) && Skip(Minify(s)) == [c] + Minify(t)
    ensures c != COLON ==> NumberEnds(Minify(s))
  {
    hide Clean, Minify, Skip;
    PunctMinified(c, t);
    SkipMinified(s);
    if c != COLON {
      SkipEndsNumber(Minify(s));
    }
  }

  /** The value parsed from clean text is parsed from the minified text too, and the parser
      stops at the corresponding place. */
  lemma {:induction false} ValueMinified(s: Text)
    requires ParseValue(s).Ok? && Clean(ParseValue(s).rest) && NumberEnds(Minify(ParseValue(s).rest))
    requires StartsWith(s, QUOTE) ==> Shut(s[1..])
    ensures Clean(s)
    ensures ParseValue(Minify(s)) == Ok(ParseValue(s).value, Minify(ParseValue(s).rest))
    decreases |s|, 2
  {
    hide ParseString, ParseNumber, ParseArray, ParseObject, Clean, Minify, NumberEnds, Shut;
    if exists w :: w in [NULL_TEXT, FALSE_TEXT, TRUE_TEXT] && HasPrefix(s, w) {
      var w :| w in [NULL_TEXT, FALSE_TEXT, TRUE_TEXT] && HasPrefix(s, w);
      assert s == w + s[|w|..];
      DispatchWord(w, s[|w|..]);
      WordMinified(w, s[|w|..]);
    } else {
      assert !HasPrefix(s, NULL_TEXT) && !HasPrefix(s, FALSE_TEXT) && !HasPrefix(s, TRUE_TEXT);
      OtherMinified(s);
    }
  }

  lemma {:induction false} OtherMinified(s: Text)
    requires !HasPrefix(s, NULL_TEXT) && !HasPrefix(s, FALSE_TEXT) && !HasPrefix(s, TRUE_TEXT)
    requires ParseValue(s).Ok? && Clean(ParseValue(s).rest) && NumberEnds(Minify(ParseValue(s).rest))
    requires StartsWith(s, QUOTE) ==> Shut(s[1..])
    ensures Clean(s)
    ensures ParseValue(Minify(s)) == Ok(ParseValue(s).value, Minify(ParseValue(s).rest))
    decreases |s|, 1
  {
    hide ParseString, ParseNumber, ParseArray, ParseObject, Clean, Minify, NumberEnds, HasPrefix, Shut;
    if StartsWith(s, QUOTE) {
      TextMinified(s);
    } else if StartsWith(s, MINUS) || StartsWithDigit(s) {
      NumberMinified(s);
    } else if StartsWith(s, LEFT_BRACKET) {
      ArrayMinified(s);
    } else {
      ObjectMinified(s);
    }
  }

  /** An opening bracket or brace and the skipped white space after it. */
  lemma OpenMinified(c: Byte, s: Text)
    requires c in {LEFT_BRACKET, LEFT_BRACE} && StartsWith(s, c) && Clean(Skip(s[1..]))
    ensures Clean(s) && StartsWith(Minify(s), c)
    ensures Skip(Minify(s)[1..]) == Minify(Skip(s[1..]))
  {
    hide Clean, Minify, Skip;
    SkipMinified(s[1..]);
    assert s == [c] + s[1..];
    PunctMinified(c, s[1..]);
    assert Minify(s)[1..] == Minify(s[1..]);
  }

  lemma {:induction false} ArrayMinified(s: Text)
    requires ParseArray(s).Ok? && Clean(ParseArray(s).rest)
    ensures Clean(s)
    ensures ParseValue(Minify(s)) == Ok(ParseArray(s).value, Minify(ParseArray(s).rest))
    decreases |s|, 0
  {
    hide ParseValue, ParseItems, Clean, Minify, Skip;
    var t := Skip(s[1..]);
    if StartsWith(t, RIGHT_BRACKET) {
      assert t == [RIGHT_BRACKET] + t[1..];
      PunctMinified(RIGHT_BRACKET, t[1..]);
      OpenMinified(LEFT_BRACKET, s);
      ArrayEmpty(Minify(s), Minify(t[1..]));
    } else {
      ItemsMinified(t);
      OpenMinified(LEFT_BRACKET, s);
      StartKept(t, RIGHT_BRACKET);
      ArrayStep(Minify(s), Minify(t), ParseItems(t).value, Minify(ParseItems(t).rest));
    }
  }

  /** `t` is what `Skip` returned. */
  lemma StartKept(t: Text, c: Byte)
    requires Clean(t) && !StartsWith(t, c) && (t != [] ==> t[0] > 32)
    ensures !StartsWith(Minify(t), c)
  {
    hide Clean, Minify;
    if t != [] {
      MinifyFirst(t);
    } else {
      assert |Minify(t)| <= 0;
    }
  }

  lemma {:induction false} ItemsMinified(s: Text)
    requires ParseItems(s).Ok? && Clean(ParseItems(s).rest)
    ensures Clean(s)
    ensures ParseItems(Minify(s)) == Ok(ParseItems(s).value, Minify(ParseItems(s).rest))
    decreases |s|, 3
  {
    hide ParseValue, Clean, Minify, Skip, NumberEnds, Shut;
    var v := ParseValue(Skip(s));
    var t := Skip(v.rest);
    if StartsWith(Skip(s), QUOTE) { ShutValue(Skip(s)); }
    if StartsWith(t, RIGHT_BRACKET) {
      assert t == [RIGHT_BRACKET] + t[1..];
      SeparatorMinified(v.rest, RIGHT_BRACKET, t[1..]);
      ValueMinified(Skip(s));
      SkipMinified(s);
      ItemsLast(Minify(s), v.value, Minify(v.rest), Minify(t[1..]));
    } else {
      var q := t[1..];
      ItemsMinified(q);
      assert t == [COMMA] + q;
      SeparatorMinified(v.rest, COMMA, q);
      ValueMinified(Skip(s));
      SkipMinified(s);
      var more := ParseItems(q);
      ItemsMore(Minify(s), v.value, Minify(v.rest), Minify(q), more.value, Minify(more.rest));
    }
  }

  lemma {:induction false} ObjectMinified(s: Text)
    requires ParseObject(s).Ok? && Clean(ParseObject(s).rest)
    ensures Clean(s)
    ensures ParseValue(Minify(s)) == Ok(ParseObject(s).value, Minify(ParseObject(s).rest))
    decreases |s|, 0
  {
    hide ParseValue, ParseMembers, Clean, Minify, Skip;
    var t := Skip(s[1..]);
    if StartsWith(t, RIGHT_BRACE) {
      assert t == [RIGHT_BRACE] + t[1..];
      PunctMinified(RIGHT_BRACE, t[1..]);
      OpenMinified(LEFT_BRACE, s);
      ObjectEmpty(Minify(s), Minify(t[1..]));
    } else {
      MembersMinified(t);
      OpenMinified(LEFT_BRACE, s);
      StartKept(t, RIGHT_BRACE);
      ObjectStep(Minify(s), Minify(t), ParseMembers(t).value, Minify(ParseMembers(t).rest));
    }
  }

  lemma {:induction false} MemberMinified(s: Text, m: Member, u: Text)
    requires MemberAt(s, m, u) && Clean(u) && NumberEnds(Minify(u)) && u != []
    ensures Clean(s) && MemberAt(Minify(s), m, Minify(u))
    decreases |s|, 3
  {
    hide ParseValue, ParseString, Clean, Minify, Skip, NumberEnds, Shut;
    var name := ParseString(Skip(s));
    var t := Skip(name.rest);
    ShutName(Skip(s));
    if StartsWith(Skip(t[1..]), QUOTE) { ShutValue(Skip(t[1..])); }
    ValueMinified(Skip(t[1..]));
    SkipMinified(t[1..]);
    assert t == [COLON] + t[1..];
    SeparatorMinified(name.rest, COLON, t[1..]);
    StringMinified(Skip(s));
    SkipMinified(s);
    assert ([COLON] + Minify(t[1..]))[1..] == Minify(t[1..]);
  }

  lemma {:induction false} MembersMinified(s: Text)
    requires ParseMembers(s).Ok? && Clean(ParseMembers(s).rest)
    ensures Clean(s)
    ensures ParseMembers(Minify(s)) == Ok(ParseMembers(s).value, Minify(ParseMembers(s).rest))
    decreases |s|, 4
  {
    hide ParseValue, ParseString, Clean, Minify, Skip, NumberEnds;
    var name := ParseString(Skip(s));
    var v := ParseValue(Skip(Skip(name.rest)[1..]));
    var m := Member(name.value, v.value);
    assert MemberAt(s, m, v.rest);
    var t := Skip(v.rest);
    if StartsWith(t, RIGHT_BRACE) {
      assert t == [RIGHT_BRACE] + t[1..];
      SeparatorMinified(v.rest, RIGHT_BRACE, t[1..]);
      MemberMinified(s, m, v.rest);
      MembersLast(Minify(s), m, Minify(v.rest), Minify(t[1..]));
    } else {
      var q := t[1..];
      MembersMinified(q);
      assert t == [COMMA] + q;
      SeparatorMinified(v.rest, COMMA, q);
      MemberMinified(s, m, v.rest);
      var more := ParseMembers(q);
      MembersMore(Minify(s), m, Minify(v.rest), Minify(q), more.value, Minify(more.rest));
    }
  }

  /** The text is one string literal whose closing quote is missing; the parser accepts it. */
  predicate LeftOpen(s: Text) {
    StartsWith(Skip(s), QUOTE) && !Shut(Skip(s)[1..])
  }

  /** Every document the parser accepts up to its end, unless it is a literal left open, is free of
      comments and open literals, still parses to the same value after `cJSON_Minify`, and is not
      changed by a second one. */
  lemma DocumentMinified(s: Text)
    requires ParseDocument(s).Ok?
    ensures Clean(s) <==> !LeftOpen(s)
    ensures !LeftOpen(s) ==>
      ParseDocument(Minify(s)).Ok? && ParseDocument(Minify(s)).value == ParseDocument(s).value
      && Minify(Minify(s)) == Minify(s)
  {
    hide ParseValue, Clean, Minify, Skip, NumberEnds, Shut;
    if LeftOpen(s) {
      OpenDocument(s);
    } else {
      var v := ParseValue(Skip(s));
      CleanEmpty();
      SkipMinified(v.rest);
      SkipEndsNumber(Minify(v.rest));
      ValueMinified(Skip(s));
      SkipMinified(s);
      MinifyIdempotent(s);
    }
  }

  lemma OpenDocument(s: Text)
    requires ParseValue(Skip(s)).Ok? && LeftOpen(s)
    ensures !Clean(s)
  {
    hide ParseValue, ParseString, Shut, CleanString, Clean;
    var t := Skip(s);
    DispatchOther(t);
    OpenLiteral(t);
    SkipClean(s);
  }

  lemma OpenLiteral(t: Text)
    requires StartsWith(t, QUOTE) && !Shut(t[1..])
    ensures !Clean(t)
  {
    hide CleanString, Shut;
    OpenNotClean(t[1..]);
  }

  lemma {:induction false} SkipClean(s: Text)
    ensures Clean(s) ==> Clean(Skip(s))
    decreases |s|
  {
    if s != [] && s[0] <= 32 { SkipClean(s[1..]); }
  }

  lemma CleanEmpty()
    ensures Clean([]) && Minify([]) == []
  {
  }
}
