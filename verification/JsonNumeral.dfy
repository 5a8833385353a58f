/** The numbers that the parser reads: those of section 6 of RFC 8259 and the looser forms it also
    accepts, each with the decimal it denotes. */
module JsonNumeral {
  import opened CText
  import opened JsonSpec
  import opened Options
  import JsonMinify

  // ----- the grammar -----

  predicate AllDigits(d: Text) {
    forall i :: 0 <= i < |d| ==> IsDigit(d[i])
  }

  datatype Exponent = Exponent(letter: Byte, sign: Option<Byte>, digits: Text)

  /** A number; an empty fraction is one that is not there. */
  datatype Numeral = Numeral(negative: bool, whole: Text, fraction: Text, exponent: Option<Exponent>)

  predicate ValidExponent(e: Exponent) {
    e.letter in {LOWER_E, UPPER_E} && (e.sign.Some? ==> e.sign.value in {PLUS, MINUS}) && AllDigits(e.digits)
  }

  /** The digits before the fraction: one zero may lead, but not two. */
  predicate ValidWhole(d: Text) {
    AllDigits(d) && (|d| > 1 && d[0] == DIGIT_0 ==> d[1] != DIGIT_0)
  }

  /** What the parser takes for a number: behind a minus sign the digits before the fraction may be
      missing, and behind the letter of an exponent its digits may be. */
  predicate ValidNumeral(n: Numeral) {
    && ValidWhole(n.whole) && (n.whole == [] ==> n.negative) && AllDigits(n.fraction)
    && (n.exponent.Some? ==> ValidExponent(n.exponent.value))
  }

  /** The numbers of the standard. */
  predicate StandardNumeral(n: Numeral) {
    && ValidNumeral(n) && n.whole != [] && (|n.whole| > 1 ==> n.whole[0] != DIGIT_0)
    && (n.exponent.Some? ==> n.exponent.value.digits != [])
  }

  function FractionText(n: Numeral): Text {
    if n.fraction == [] then [] else [DOT] + n.fraction
  }

  function SignedText(e: Exponent): Text {
    (if e.sign.Some? then [e.sign.value] else []) + e.digits
  }

  function ExponentText(n: Numeral): Text {
    if n.exponent.None? then [] else [n.exponent.value.letter] + SignedText(n.exponent.value)
  }

  function SignText(n: Numeral): Text {
    if n.negative then [MINUS] else []
  }

  function NumeralText(n: Numeral): Text {
    SignText(n) + (n.whole + (FractionText(n) + ExponentText(n)))
  }

  // ----- the value -----

  /** The number a digit string denotes in decimal. */
  function DecimalValue(d: Text): nat
    requires AllDigits(d)
  {
    if d == [] then 0 else DecimalValue(d[..|d| - 1]) * 10 + (d[|d| - 1] - DIGIT_0)
  }

  function ExponentValue(n: Numeral): int
    requires ValidNumeral(n)
  {
    if n.exponent.None? then 0
    else
      var e := n.exponent.value;
      var k: int := DecimalValue(e.digits);
      if e.sign == Some(MINUS) then -k else k
  }

  /** All digits as one number, scaled by the exponent less the number of fraction digits. */
  function NumeralValue(n: Numeral): Json
    requires ValidNumeral(n)
  {
    var m: int := DecimalValue(n.whole + n.fraction);
    Number(if n.negative then -m else m, ExponentValue(n) - |n.fraction|)
  }

  // ----- where a number ends -----

  /** Behind these digits u does not go on with more of them. */
  predicate WholeEnds(d: Text, u: Text) {
    StartsWithDigit(u) ==> d == [DIGIT_0] && u[0] == DIGIT_0
  }

  predicate FractionEnds(d: Text, u: Text) {
    if d == [] then !(StartsWith(u, DOT) && StartsWithDigit(u[1..])) else !StartsWithDigit(u)
  }

  predicate ExponentEnds(e: Exponent, u: Text) {
    !StartsWithDigit(u) && (SignedText(e) == [] ==> !StartsWith(u, PLUS) && !StartsWith(u, MINUS))
  }

  /** The text behind a number could not be read as more of it. */
  predicate NumeralEnds(n: Numeral, t: Text) {
    if n.exponent.Some? then ExponentEnds(n.exponent.value, t)
    else
      && !StartsWith(t, LOWER_E) && !StartsWith(t, UPPER_E) && FractionEnds(n.fraction, t)
      && (n.fraction == [] ==> WholeEnds(n.whole, t))
  }

  // ----- numbers are read -----

  /** Taking digits behind p continues its decimal value. */
  lemma {:induction false} DigitsTaken(p: Text, d: Text, u: Text)
    requires AllDigits(p) && AllDigits(d) && !StartsWithDigit(u)
    ensures TakeDigits(d + u, DecimalValue(p)) == (DecimalValue(p + d), u)
    decreases |d|
  {
    if d == [] {
      assert d + u == u && p + d == p;
    } else {
      var q := p + [d[0]];
      assert q[..|p|] == p;
      assert (d + u)[1..] == d[1..] + u;
      assert q + d[1..] == p + d;
      DigitsTaken(q, d[1..], u);
    }
  }

  lemma NothingDecimal()
    ensures DecimalValue([]) == 0 && DecimalValue([DIGIT_0]) == 0
  {
    assert [DIGIT_0][..0] == [];
  }

  lemma WholeTaken(d: Text, u: Text)
    requires ValidWhole(d) && WholeEnds(d, u)
    ensures TakeInteger(d + u) == (DecimalValue(d), u)
  {
    hide TakeDigits, DecimalValue;
    NothingDecimal();
    if d == [] {
      assert d + u == u;
    } else if d[0] == DIGIT_0 {
      assert (d + u)[1..] == d[1..] + u;
      if |d| == 1 {
        assert d[1..] + u == u && d == [DIGIT_0];
      } else {
        DigitsTaken([DIGIT_0], d[1..], u);
        assert [DIGIT_0] + d[1..] == d;
      }
    } else {
      DigitsTaken([], d, u);
      assert [] + d == d;
    }
  }

  lemma FractionTaken(n: Numeral, u: Text)
    requires ValidNumeral(n) && FractionEnds(n.fraction, u)
    ensures TakeFraction(DecimalValue(n.whole), FractionText(n) + u) == (DecimalValue(n.whole + n.fraction), u)
    ensures FractionDigits(FractionText(n) + u, u) == |n.fraction|
  {
    hide TakeDigits, DecimalValue;
    if n.fraction == [] {
      assert [] + u == u && n.whole + n.fraction == n.whole;
    } else {
      assert ([DOT] + n.fraction + u)[1..] == n.fraction + u;
      DigitsTaken(n.whole, n.fraction, u);
    }
  }

  lemma SignedTaken(e: Exponent, u: Text)
    requires ValidExponent(e) && ExponentEnds(e, u)
    ensures var k: int := DecimalValue(e.digits);
      TakeSigned(SignedText(e) + u) == (if e.sign == Some(MINUS) then -k else k, u)
  {
    hide TakeDigits, DecimalValue;
    NothingDecimal();
    DigitsTaken([], e.digits, u);
    assert [] + e.digits == e.digits;
    if e.sign.Some? {
      assert ([e.sign.value] + e.digits + u)[1..] == e.digits + u;
    } else {
      assert SignedText(e) + u == e.digits + u;
      if e.digits == [] { assert e.digits + u == u; }
    }
  }

  lemma ExponentTaken(n: Numeral, u: Text)
    requires ValidNumeral(n) && NumeralEnds(n, u)
    ensures TakeExponent(ExponentText(n) + u) == (ExponentValue(n), u)
  {
    hide TakeSigned, DecimalValue, SignedText;
    if n.exponent.None? {
      assert [] + u == u;
    } else {
      var e := n.exponent.value;
      SignedTaken(e, u);
      assert ([e.letter] + SignedText(e) + u)[1..] == SignedText(e) + u;
    }
  }

  /** What stands behind the whole digits and behind the fraction ends them. */
  lemma PartsEnd(n: Numeral, t: Text)
    requires ValidNumeral(n) && NumeralEnds(n, t)
    ensures FractionEnds(n.fraction, ExponentText(n) + t)
    ensures WholeEnds(n.whole, FractionText(n) + (ExponentText(n) + t))
  {
    hide SignedText;
    if n.exponent.None? {
      assert [] + t == t;
    }
    if n.fraction == [] {
      assert [] + (ExponentText(n) + t) == ExponentText(n) + t;
    }
  }

  /** A number is read up to where it ends, as the decimal it denotes. */
  lemma NumeralRead(n: Numeral, t: Text)
    requires ValidNumeral(n) && NumeralEnds(n, t)
    ensures ParseNumber(NumeralText(n) + t) == Ok(NumeralValue(n), t)
    ensures StartsWith(NumeralText(n) + t, MINUS) || StartsWithDigit(NumeralText(n) + t)
  {
    hide ParseNumber, TakeInteger, TakeFraction, TakeExponent, DecimalValue, FractionDigits, ExponentValue;
    hide FractionText, ExponentText, NumeralEnds, WholeEnds, FractionEnds;
    var e := ExponentText(n) + t;
    var f := FractionText(n) + e;
    var v := n.whole + f;
    PartsEnd(n, t);
    ExponentTaken(n, t);
    FractionTaken(n, e);
    WholeTaken(n.whole, f);
    JsonMinify.JoinParts(SignText(n), n.whole, FractionText(n), ExponentText(n), t);
    assert n.whole != [] ==> v[0] == n.whole[0];
    JsonMinify.NumberAt(SignText(n), v);
  }

  // ----- nothing else is read -----

  lemma {:induction false} DigitsFound(s: Text, acc: nat) returns (d: Text)
    ensures AllDigits(d) && (d == [] <==> !StartsWithDigit(s)) && (d != [] ==> d[0] == s[0])
    ensures s == d + TakeDigits(s, acc).1 && !StartsWithDigit(TakeDigits(s, acc).1)
    decreases |s|
  {
    if StartsWithDigit(s) {
      var e := DigitsFound(s[1..], acc * 10 + (s[0] - DIGIT_0));
      d := [s[0]] + e;
    } else {
      d := [];
    }
  }

  lemma WholeFound(s: Text) returns (d: Text)
    ensures ValidWhole(d) && (d == [] ==> !StartsWithDigit(s))
    ensures s == d + TakeInteger(s).1 && WholeEnds(d, TakeInteger(s).1)
  {
    hide TakeDigits;
    if StartsWith(s, DIGIT_0) {
      var e: Text := [];
      if StartsWithDigit(s[1..]) && s[1] != DIGIT_0 { e := DigitsFound(s[1..], 0); }
      d := [DIGIT_0] + e;
    } else {
      d := DigitsFound(s, 0);
    }
  }

  lemma FractionFound(n: nat, s: Text) returns (d: Text)
    ensures AllDigits(d) && FractionEnds(d, TakeFraction(n, s).1)
    ensures s == (if d == [] then [] else [DOT] + d) + TakeFraction(n, s).1
  {
    hide TakeDigits;
    d := [];
    if StartsWith(s, DOT) && StartsWithDigit(s[1..]) {
      d := DigitsFound(s[1..], n);
    }
  }

  lemma SignedFound(s: Text, letter: Byte) returns (e: Exponent)
    requires letter in {LOWER_E, UPPER_E}
    ensures ValidExponent(e) && e.letter == letter
    ensures s == SignedText(e) + TakeSigned(s).1 && ExponentEnds(e, TakeSigned(s).1)
  {
    hide TakeDigits;
    if StartsWith(s, PLUS) || StartsWith(s, MINUS) {
      var d := DigitsFound(s[1..], 0);
      e := Exponent(letter, Some(s[0]), d);
    } else {
      var d := DigitsFound(s, 0);
      e := Exponent(letter, None, d);
      assert SignedText(e) == d;
    }
  }

  lemma ExponentFound(s: Text) returns (e: Option<Exponent>)
    ensures e.Some? ==> ValidExponent(e.value) && ExponentEnds(e.value, TakeExponent(s).1)
    ensures var t := TakeExponent(s).1;
      if e.None? then s == t && !StartsWith(s, LOWER_E) && !StartsWith(s, UPPER_E)
      else s == [e.value.letter] + SignedText(e.value) + t
  {
    hide TakeSigned, SignedText, ExponentEnds;
    e := None;
    if StartsWith(s, LOWER_E) || StartsWith(s, UPPER_E) {
      var x := SignedFound(s[1..], s[0]);
      e := Some(x);
      assert s == [s[0]] + s[1..];
    }
  }

  /** Whatever is read as a number is the text of one, and ends where that ends. */
  lemma NumeralFound(s: Text) returns (n: Numeral)
    requires StartsWith(s, MINUS) || StartsWithDigit(s)
    ensures ValidNumeral(n)
    ensures var r := ParseNumber(s);
      r == Ok(NumeralValue(n), r.rest) && s == NumeralText(n) + r.rest && NumeralEnds(n, r.rest)
  {
    hide ParseNumber, TakeInteger, TakeFraction, TakeExponent, NumeralValue;
    hide WholeEnds, FractionEnds, ExponentEnds, ValidWhole, SignedText;
    var negative := StartsWith(s, MINUS);
    var v := if negative then s[1..] else s;
    var whole := WholeFound(v);
    var i := TakeInteger(v);
    var fraction := FractionFound(i.0, i.1);
    var f := TakeFraction(i.0, i.1);
    var e := ExponentFound(f.1);
    var t := TakeExponent(f.1).1;
    n := Numeral(negative, whole, fraction, e);
    assert s == SignText(n) + v && i.1 == FractionText(n) + f.1 && f.1 == ExponentText(n) + t;
    JsonMinify.JoinParts(SignText(n), whole, FractionText(n), ExponentText(n), t);
    NumeralRead(n, t);
  }
}
