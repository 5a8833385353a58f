/** The two-pass loops of `print_string_ptr` and `parse_string`: the first pass counts the bytes
    the second one writes. */
module JsonStringBuffers {
  import opened CText
  import opened JsonSpec
  import opened Options

  // ----- print_string_ptr -----

  /** The bytes the counting pass adds for one character. */
  lemma EscapeLength(c: Byte)
    ensures |EscapeChar(c)| ==
      if c in {QUOTE, BACKSLASH, BACKSPACE, FORM_FEED, LF, CR, TAB} then 2 else if c < 32 then 6 else 1
  {
  }

  /** The counting pass. */
  method CountEscaped(str: Text) returns (len: nat)
    ensures len == |EscapeAll(str)|
  {
    hide EscapeChar;
    len := 0;
    var ptr := 0;
    while ptr < |str|
      invariant 0 <= ptr <= |str|
      invariant len + |EscapeAll(str[ptr..])| == |EscapeAll(str)|
    {
      var token := str[ptr];
      EscapeLength(token);
      assert str[ptr..][1..] == str[ptr + 1..];
      len := len + 1;
      if token in {QUOTE, BACKSLASH, BACKSPACE, FORM_FEED, LF, CR, TAB} {
        len := len + 1;
      } else if token < 32 {
        len := len + 5;
      }
      ptr := ptr + 1;
    }
  }

  /** The body of the writing pass: one character, escaped if it must be. */
  method WriteEscaped(out: array<Byte>, w0: nat, c: Byte) returns (w: nat)
    requires w0 + |EscapeChar(c)| <= out.Length
    modifies out
    ensures w == w0 + |EscapeChar(c)|
    ensures out[..w] == old(out[..w0]) + EscapeChar(c)
  {
    w := w0;
    if c > 31 && c != QUOTE && c != BACKSLASH {
      out[w] := c;
      w := w + 1;
    } else {
      out[w] := BACKSLASH;
      w := w + 1;
      if c == BACKSLASH { out[w] := BACKSLASH; w := w + 1; }
      else if c == QUOTE { out[w] := QUOTE; w := w + 1; }
      else if c == BACKSPACE { out[w] := LOWER_B; w := w + 1; }
      else if c == FORM_FEED { out[w] := LOWER_F; w := w + 1; }
      else if c == LF { out[w] := LOWER_N; w := w + 1; }
      else if c == CR { out[w] := LOWER_R; w := w + 1; }
      else if c == TAB { out[w] := LOWER_T; w := w + 1; }
      else {
        out[w], out[w + 1], out[w + 2] := LOWER_U, DIGIT_0, DIGIT_0;
        out[w + 3], out[w + 4] := HexDigit(c / 16), HexDigit(c % 16);
        w := w + 5;
      }
    }
  }

  /** `print_string_ptr`: the buffer is exactly as long as what is written into it, and for a null
      pointer it holds the terminator alone. */
  method PrintStringPtr(s: Option<Text>) returns (out: array<Byte>)
    ensures fresh(out) && out[..] == PrintPtr(s) + [NUL]
  {
    if s == None {
      out := new Byte[1];
      out[0] := NUL;
    } else {
      out := PrintLiteral(s.value);
    }
  }

  /** The two passes over a string that is there. */
  method PrintLiteral(str: Text) returns (out: array<Byte>)
    ensures fresh(out) && out[..] == PrintString(str) + [NUL]
  {
    hide EscapeChar;
    var len := CountEscaped(str);
    out := new Byte[len + 3];
    out[0] := QUOTE;
    var w := 1;
    var ptr := 0;
    assert str[0..] == str;
    while ptr < |str|
      invariant 0 <= ptr <= |str| && w + |EscapeAll(str[ptr..])| == len + 1
      invariant 0 <= w <= out.Length && out[..w] + EscapeAll(str[ptr..]) == [QUOTE] + EscapeAll(str)
    {
      assert str[ptr..][1..] == str[ptr + 1..];
      assert str[ptr..][0] == str[ptr];
      w := WriteEscaped(out, w, str[ptr]);
      ptr := ptr + 1;
    }
    assert str[ptr..] == [] && out[..w] == [QUOTE] + EscapeAll(str);
    out[w] := QUOTE;
    out[w + 1] := NUL;
    assert out[..] == out[..w] + [QUOTE] + [NUL];
  }

  // ----- parse_string -----

  /** What the counting pass of `parse_string` counts: one for each character and each
      backslash escape; the digits of a `\u` escape count on their own. */
  function CountedLength(s: Text): nat
    decreases |s|
  {
    if s == [] || s[0] == QUOTE then 0
    else if s[0] == BACKSLASH then 1 + CountedLength(if |s| >= 2 then s[2..] else [])
    else 1 + CountedLength(s[1..])
  }

  /** Turns of the counting pass that start p characters behind s and reach position k of it: they end
      at k or one behind it, and each has gone over at most two characters. */
  lemma {:induction false} CountedOver(s: Text, p: nat, k: nat) returns (q: nat, n: nat)
    requires p <= |s| && k <= |s| && p <= k + 1 && k <= p + Stop(s[p..]) <= |s|
    ensures q <= 1 && k + q <= |s| && p + Stop(s[p..]) == k + q + Stop(s[k + q..])
    ensures CountedLength(s[p..]) == n + CountedLength(s[k + q..]) && 2 * n >= k + q - p
    ensures p < k && s[p] != BACKSLASH && k == p + 1 ==> q == 0
    ensures p >= k ==> q == p - k
    decreases |s| - p
  {
    hide Stop, CountedLength;
    if p >= k {
      q, n := p - k, 0;
    } else {
      CountedTurn(s, p);
      var m;
      q, m := CountedOver(s, if s[p] == BACKSLASH then p + 2 else p + 1, k);
      n := m + 1;
    }
  }

  lemma CountedTurn(s: Text, p: nat)
    requires p < |s| && 0 < Stop(s[p..]) <= |s| - p
    ensures var step := if s[p] == BACKSLASH then 2 else 1;
      && p + step <= |s| && Stop(s[p..]) == step + Stop(s[p + step..])
      && CountedLength(s[p..]) == 1 + CountedLength(s[p + step..])
  {
    var step := if s[p] == BACKSLASH then 2 else 1;
    if p + step <= |s| {
      assert s[p..][step..] == s[p + step..];
    }
  }

  /** No turn of the writing pass writes more than half of the characters it reads, but one that
      reads a single character. */
  lemma StepWritten(s: Text)
    requires s != [] && CharStep(s).Ok?
    ensures var k := |s| - |CharStep(s).rest|;
      if s[0] != BACKSLASH then k == 1 && |CharStep(s).value| == 1 else k >= 2 && 2 * |CharStep(s).value| <= k
  {
    hide Utf8, ParseHex4;
  }

  lemma WrittenTurn(s: Text, p: Text)
    requires s != [] && s[0] != QUOTE && WrittenBody(s).Ok?
    ensures var c := CharStep(s);
      && c.Ok? && WrittenBody(c.rest).Ok? && WrittenBody(c.rest).rest == WrittenBody(s).rest
      && p + WrittenBody(s).value == (p + c.value) + WrittenBody(c.rest).value
      && |p| + |c.value| <= |p + WrittenBody(s).value|
  {
    hide CharStep;
  }

  lemma NothingWritten(s: Text, p: Text)
    requires s == [] || s[0] == QUOTE
    ensures WrittenBody(s) == Ok([], s) && p + WrittenBody(s).value == p
  {
  }

  /** The writing pass never writes more than the counting pass counted, even where the two take the
      characters of an escape apart differently and the counting pass is one character ahead. */
  lemma {:induction false} WrittenFits(s: Text, p: nat)
    requires WrittenBody(s).Ok? && p <= 1 && p <= |s|
    requires |s| - |WrittenBody(s).rest| <= p + Stop(s[p..]) <= |s|
    ensures |WrittenBody(s).value| <= p + CountedLength(s[p..])
    decreases |s|
  {
    hide CharStep, WrittenBody, Stop, CountedLength;
    if s == [] || s[0] == QUOTE {
      NothingWritten(s, []);
    } else {
      WrittenTurn(s, []);
      var t := CharStep(s).rest;
      var k := |s| - |t|;
      StepWritten(s);
      var q, n := CountedOver(s, p, k);
      assert s[k + q..] == t[q..];
      WrittenFits(t, q);
    }
  }

  /** So the decoded string, with its terminator, fits the buffer that was reserved. */
  lemma BodyFits(s: Text)
    requires StringBody(s).Ok?
    ensures |StringBody(s).value| <= CountedLength(s)
    ensures Stop(s) <= |s|
  {
    hide WrittenBody, Stop, CountedLength;
    assert s[0..] == s;
    WrittenFits(s, 0);
  }

  /** The counting pass. */
  method CountBody(text: Text, start: nat) returns (len: nat)
    requires start <= |text| && Stop(text[start..]) <= |text| - start
    ensures len == CountedLength(text[start..])
  {
    len := 0;
    var ptr := start;
    while ptr < |text| && text[ptr] != QUOTE
      invariant start <= ptr <= |text| && Stop(text[ptr..]) <= |text| - ptr
      invariant len + CountedLength(text[ptr..]) == CountedLength(text[start..])
      decreases |text| - ptr
    {
      assert text[ptr..][1..] == text[ptr + 1..];
      assert ptr + 2 <= |text| ==> text[ptr..][2..] == text[ptr + 2..];
      len := len + 1;
      var c := text[ptr];
      ptr := ptr + 1;
      if c == BACKSLASH { ptr := ptr + 1; }
    }
  }

  const FIRST_BYTE_MARK: seq<Byte> := [0x00, 0x00, 0xC0, 0xE0, 0xF0]

  /** The UTF-8 writer: moves the cursor past the character, fills it in backwards by falling
      through the cases of the length, and moves the cursor past it again.  On the values that
      occur `(uc | 0x80) & 0xBF` is `0x80 + uc % 0x40` and `uc >> 6` is `uc / 0x40`. */
  method WriteUtf8(out: array<Byte>, w0: nat, point: nat) returns (w: nat)
    requires point < 0x110000 && w0 + |Utf8(point)| <= out.Length
    modifies out
    ensures w == w0 + |Utf8(point)|
    ensures out[..w] == old(out[..w0]) + Utf8(point)
  {
    hide Utf8;
    Utf8Shifted(point);
    var uc: nat := point;
    var len := if uc < 0x80 then 1 else if uc < 0x800 then 2 else if uc < 0x10000 then 3 else 4;
    assert |Utf8(point)| == len;
    w := w0 + len;
    if len >= 4 { w := w - 1; out[w] := 0x80 + uc % 0x40; uc := uc / 0x40; }
    if len >= 3 { w := w - 1; out[w] := 0x80 + uc % 0x40; uc := uc / 0x40; }
    if len >= 2 { w := w - 1; out[w] := 0x80 + uc % 0x40; uc := uc / 0x40; }
    w := w - 1;
    out[w] := uc + FIRST_BYTE_MARK[len];
    w := w + len;
    assert out[..w0] == old(out[..w0]);
    assert out[..w] == out[..w0] + out[w0..w];
    assert forall i :: 0 <= i < len ==> out[w0 + i] == Utf8(point)[i];
    assert out[w0..w] == Utf8(point);
  }

  /** The bytes of the UTF-8 form, by repeated shifts of six bits. */
  lemma Utf8Shifted(u: nat)
    requires u < 0x110000
    ensures Utf8(u) ==
      if u < 0x80 then [u]
      else if u < 0x800 then [u / 0x40 + 0xC0, 0x80 + u % 0x40]
      else if u < 0x10000 then [u / 0x40 / 0x40 + 0xE0, 0x80 + u / 0x40 % 0x40, 0x80 + u % 0x40]
      else [u / 0x40 / 0x40 / 0x40 + 0xF0, 0x80 + u / 0x40 / 0x40 % 0x40, 0x80 + u / 0x40 % 0x40, 0x80 + u % 0x40]
  {
    assert u / 0x40 / 0x40 == u / 0x1000 && u / 0x1000 / 0x40 == u / 0x40000;
  }

  /** The body of the writing pass: decodes the character or escape at ptr0. */
  method DecodeChar(text: Text, ptr0: nat, out: array<Byte>, w0: nat) returns (ptr: nat, w: nat)
    requires ptr0 < |text| && CharStep(text[ptr0..]).Ok?
    requires w0 + |CharStep(text[ptr0..]).value| <= out.Length
    modifies out
    ensures ptr0 < ptr <= |text| && CharStep(text[ptr0..]).rest == text[ptr..]
    ensures w == w0 + |CharStep(text[ptr0..]).value|
    ensures out[..w] == old(out[..w0]) + CharStep(text[ptr0..]).value
  {
    hide UnicodeStep;
    ptr, w := ptr0, w0;
    assert text[ptr0..][1..] == text[ptr0 + 1..];
    if text[ptr] != BACKSLASH {
      out[w] := text[ptr];
      ptr, w := ptr + 1, w + 1;
    } else {
      assert text[ptr0..][2..] == text[ptr0 + 2..];
      ptr := ptr + 1;
      if text[ptr] == LOWER_B { out[w] := BACKSPACE; w := w + 1; }
      else if text[ptr] == LOWER_F { out[w] := FORM_FEED; w := w + 1; }
      else if text[ptr] == LOWER_N { out[w] := LF; w := w + 1; }
      else if text[ptr] == LOWER_R { out[w] := CR; w := w + 1; }
      else if text[ptr] == LOWER_T { out[w] := TAB; w := w + 1; }
      else if text[ptr] == LOWER_U { ptr, w := DecodeUnicode(text, ptr, out, w); }
      else { out[w] := text[ptr]; w := w + 1; }
      ptr := ptr + 1;
    }
  }

  /** The `\u` case: on return ptr is at the last digit that was read. */
  method DecodeUnicode(text: Text, ptr0: nat, out: array<Byte>, w0: nat) returns (ptr: nat, w: nat)
    requires 0 < ptr0 < |text| && UnicodeStep(text[ptr0 - 1..]).Ok?
    requires w0 + |UnicodeStep(text[ptr0 - 1..]).value| <= out.Length
    modifies out
    ensures ptr0 < ptr < |text| && UnicodeStep(text[ptr0 - 1..]).rest == text[ptr + 1..]
    ensures w == w0 + |UnicodeStep(text[ptr0 - 1..]).value|
    ensures out[..w] == old(out[..w0]) + UnicodeStep(text[ptr0 - 1..]).value
  {
    hide Utf8, ParseHex4;
    ghost var s := text[ptr0 - 1..];
    assert s[2..] == text[ptr0 + 1..] && s[6..] == text[ptr0 + 5..];
    ptr, w := ptr0, w0;
    var uc := ParseHex4(text[ptr + 1..]);
    ptr := ptr + 4;
    if IsLowSurrogate(uc) || uc == 0 {
      return;
    }
    if IsHighSurrogate(uc) {
      HasEscape(text, ptr + 1);
      if ptr + 2 >= |text| || text[ptr + 1] != BACKSLASH || text[ptr + 2] != LOWER_U {
        return;
      }
      assert s[8..] == text[ptr + 3..] && s[12..] == text[ptr + 7..];
      var uc2 := ParseHex4(text[ptr + 3..]);
      ptr := ptr + 6;
      if !IsLowSurrogate(uc2) {
        return;
      }
      uc := PairValue(uc, uc2);
    }
    w := WriteUtf8(out, w, uc);
  }

  lemma HasEscape(text: Text, i: nat)
    requires i <= |text|
    ensures HasPrefix(text[i..], [BACKSLASH, LOWER_U]) <==>
      i + 1 < |text| && text[i] == BACKSLASH && text[i + 1] == LOWER_U
  {
    if i + 1 < |text| {
      assert text[i..][..2] == [text[i], text[i + 1]];
    }
  }

  /** The writing pass. */
  method WriteBody(text: Text, start: nat, out: array<Byte>) returns (ptr: nat, w: nat)
    requires start <= |text| && WrittenBody(text[start..]).Ok?
    requires |WrittenBody(text[start..]).value| < out.Length
    modifies out
    ensures var b := WrittenBody(text[start..]);
      && start <= ptr <= |text| && text[ptr..] == b.rest
      && w == |b.value| && out[..w] == b.value
  {
    hide CharStep, WrittenBody;
    ghost var body := WrittenBody(text[start..]);
    ptr, w := start, 0;
    while ptr < |text| && text[ptr] != QUOTE
      invariant start <= ptr <= |text| && WrittenBody(text[ptr..]).Ok?
      invariant WrittenBody(text[ptr..]).rest == body.rest
      invariant 0 <= w <= out.Length && out[..w] + WrittenBody(text[ptr..]).value == body.value
      decreases |text| - ptr
    {
      WrittenTurn(text[ptr..], out[..w]);
      ptr, w := DecodeChar(text, ptr, out, w);
    }
    NothingWritten(text[ptr..], out[..w]);
  }

  lemma BodyAt(text: Text, start: nat)
    requires start < |text| && text[start] == QUOTE && !ParseString(text[start..]).Outside?
    ensures var (r, b) := (ParseString(text[start..]), WrittenBody(text[start + 1..]));
      && r.Ok? && b.Ok? && r.value == b.value && r.rest == if b.rest == [] then [] else b.rest[1..]
    ensures var s := text[start + 1..];
      Stop(s) <= |s| && |WrittenBody(s).value| <= CountedLength(s)
  {
    hide WrittenBody, Stop, CountedLength;
    assert text[start..][1..] == text[start + 1..];
    BodyFits(text[start + 1..]);
  }

  /** `parse_string` on a literal on whose end both passes agree: the buffer of counted length plus one
      receives the decoded text and its terminator, and every write lies inside it. */
  method ParseStringAt(text: Text, start: nat) returns (ok: bool, pos: nat, out: array<Byte>, w: nat)
    requires start <= |text| && !ParseString(text[start..]).Outside?
    ensures ok <==> ParseString(text[start..]).Ok?
    ensures ok ==> start < pos <= |text| && ParseString(text[start..]).rest == text[pos..]
    ensures ok ==> var v := ParseString(text[start..]).value;
      fresh(out) && w == |v| < out.Length && out[..w] == v && out[w] == NUL
  {
    hide CountedLength, Stop, WrittenBody, StringBody;
    if start == |text| || text[start] != QUOTE {
      out := new Byte[0];
      return false, start, out, 0;
    }
    hide ParseString;
    BodyAt(text, start);
    var len := CountBody(text, start + 1);
    out := new Byte[len + 1];
    pos, w := WriteBody(text, start + 1, out);
    out[w] := NUL;
    if pos < |text| {
      assert text[pos..][1..] == text[pos + 1..];
      pos := pos + 1;
    }
    ok := true;
  }
}
