/** C and SQL quoting in sqlite/shell.c: `output_c_string`, `resolve_backslashes` and
    `output_quoted_string`. */
module Quoting {
  import opened CText

  // ----- C quoting -----

  /** `isprint` in the C locale. */
  predicate IsPrint(c: Byte) {
    SPACE <= c < 0x7F
  }

  predicate IsOctal(c: Byte) {
    DIGIT_0 <= c <= DIGIT_7
  }

  /** What `output_c_string` writes for one character. */
  function EscapeC(c: Byte): Text {
    if c == BACKSLASH then [BACKSLASH, BACKSLASH]
    else if c == QUOTE then [BACKSLASH, QUOTE]
    else if c == TAB then [BACKSLASH, LOWER_T]
    else if c == LF then [BACKSLASH, LOWER_N]
    else if c == CR then [BACKSLASH, LOWER_R]
    else if !IsPrint(c) then [BACKSLASH, DIGIT_0 + c / 64, DIGIT_0 + c / 8 % 8, DIGIT_0 + c % 8]
    else [c]
  }

  /** Visible ASCII is written as it is, except that a double quote and a backslash get a backslash; a
      tab, a line feed and a carriage return become `\t`, `\n` and `\r`. */
  lemma EscapesWritten(c: Byte)
    ensures EscapeC(c) == [c] <==> 32 <= c <= 126 && c != 34 && c != 92
    ensures c in [34, 92] ==> EscapeC(c) == [92, c]
    ensures EscapeC(9) == [92, 116] && EscapeC(10) == [92, 110] && EscapeC(13) == [92, 114]
  {
  }

  /** Any other character is written as three octal digits. */
  lemma OctalWritten(c: Byte)
    requires (c < 32 && c !in [9, 10, 13]) || c > 126
    ensures var e := EscapeC(c);
      |e| == 4 && e[0] == 92 && forall i :: 1 <= i < 4 ==> 48 <= e[i] <= 55
    ensures var e := EscapeC(c);
      c as int == 64 * (e[1] as int - 48) + 8 * (e[2] as int - 48) + (e[3] as int - 48)
  {
  }

  function EscapedBody(s: Text): Text {
    if s == [] then [] else EscapeC(s[0]) + EscapedBody(s[1..])
  }

  /** `output_c_string`. */
  method OutputCString(z: Text) returns (out: Text)
    ensures out == [QUOTE] + EscapedBody(z) + [QUOTE]
  {
    hide EscapeC;
    out := [QUOTE];
    var i := 0;
    while i < |z|
      invariant 0 <= i <= |z| && out + EscapedBody(z[i..]) == [QUOTE] + EscapedBody(z)
    {
      var c := z[i];
      assert z[i..][1..] == z[i + 1..];
      assert out + EscapedBody(z[i..]) == out + EscapeC(c) + EscapedBody(z[i + 1..]);
      var e := WriteEscape(c);
      out := out + e;
      i := i + 1;
    }
    assert out + EscapedBody(z[i..]) == out;
    out := out + [QUOTE];
  }

  /** One turn of its loop. */
  method WriteEscape(c: Byte) returns (out: Text)
    ensures out == EscapeC(c)
  {
    if c == BACKSLASH {
      out := [c, c];
    } else if c == QUOTE {
      out := [BACKSLASH, QUOTE];
    } else if c == TAB {
      out := [BACKSLASH, LOWER_T];
    } else if c == LF {
      out := [BACKSLASH, LOWER_N];
    } else if c == CR {
      out := [BACKSLASH, LOWER_R];
    } else if !IsPrint(c) {
      out := [BACKSLASH, DIGIT_0 + c / 64, DIGIT_0 + c / 8 % 8, DIGIT_0 + c % 8];
    } else {
      out := [c];
    }
  }

  // ----- removing backslashes -----

  /** The octal digits at the front of s, at most n of them, added to the value so far. */
  function Octal(s: Text, v: nat, n: nat): (nat, Text) {
    if n > 0 && s != [] && IsOctal(s[0]) then Octal(s[1..], v * 8 + (s[0] - DIGIT_0), n - 1) else (v, s)
  }

  /** The character an escape stands for, kept in a `char`, and the text after it. */
  function Unescape(s: Text): (r: (Byte, Text))
    requires |s| > 1 && s[0] == BACKSLASH
    ensures |r.1| < |s|
  {
    var c := s[1];
    if c == LOWER_N then (LF, s[2..])
    else if c == LOWER_T then (TAB, s[2..])
    else if c == LOWER_R then (CR, s[2..])
    else if IsOctal(c) then
      OctalShrinks(s[2..], c - DIGIT_0, 2);
      var (v, rest) := Octal(s[2..], c - DIGIT_0, 2);
      (v % 256, rest)
    else (c, s[2..])
  }

  /** What a backslash and a character that is not an octal digit stand for. */
  lemma LettersResolved(c: Byte, t: Text)
    requires !(48 <= c <= 55)
    ensures Unescape([92, c] + t)
         == (match c as char case 'n' => 10 case 't' => 9 case 'r' => 13 case _ => c, t)
  {
    assert ([92, c] + t)[2..] == t;
  }

  lemma {:induction false} OctalShrinks(s: Text, v: nat, n: nat)
    ensures |Octal(s, v, n).1| <= |s| <= |Octal(s, v, n).1| + n
    ensures Octal(s, v, n).1 == s[|s| - |Octal(s, v, n).1|..]
    decreases n
  {
    if n > 0 && s != [] && IsOctal(s[0]) {
      OctalShrinks(s[1..], v * 8 + (s[0] - DIGIT_0), n - 1);
    }
  }

  /** No escape is cut short by the end of the text. */
  predicate Complete(s: Text)
    decreases |s|
  {
    if s == [] then true
    else if s[0] != BACKSLASH then Complete(s[1..])
    else |s| > 1 && Complete(Unescape(s).1)
  }

  /** What `resolve_backslashes` leaves of a text. */
  function Resolve(s: Text): (r: Text)
    requires Complete(s)
    ensures |r| <= |s|
    decreases |s|
  {
    if s == [] then []
    else if s[0] != BACKSLASH then [s[0]] + Resolve(s[1..])
    else [Unescape(s).0] + Resolve(Unescape(s).1)
  }

  lemma EscapeUndone(c: Byte, t: Text)
    requires c != NUL && EscapeC(c) != [c]
    ensures |EscapeC(c)| > 1 && EscapeC(c)[0] == BACKSLASH && Unescape(EscapeC(c) + t) == (c, t)
  {
    var s := EscapeC(c) + t;
    if !IsPrint(c) && c != TAB && c != LF && c != CR {
      OctalUndone(c, t);
      assert s[2..] == [DIGIT_0 + c / 8 % 8, DIGIT_0 + c % 8] + t;
    } else {
      assert s[2..] == t;
    }
  }

  lemma OctalUndone(c: Byte, t: Text)
    ensures Octal([DIGIT_0 + c / 8 % 8, DIGIT_0 + c % 8] + t, c / 64, 2) == (c, t)
  {
    var (a, b) := (DIGIT_0 + c / 8 % 8, DIGIT_0 + c % 8);
    assert ([a, b] + t)[1..] == [b] + t && ([b] + t)[1..] == t;
    assert Octal(t, c, 0) == (c, t);
    assert (c / 64 * 8 + c / 8 % 8) * 8 + c % 8 == c;
    assert Octal([b] + t, c / 64 * 8 + c / 8 % 8, 1) == Octal(t, c, 0);
  }

  /** The body that `output_c_string` writes has no dangling escape and resolves to the string. */
  lemma {:induction false} CStringRoundTrip(s: Text)
    requires NulFree(s)
    ensures Complete(EscapedBody(s)) && Resolve(EscapedBody(s)) == s
  {
    hide EscapeC, Unescape;
    if s != [] {
      CStringRoundTrip(s[1..]);
      var t := EscapedBody(s[1..]);
      if EscapeC(s[0]) == [s[0]] {
        PlainCharacter(s[0]);
        assert ([s[0]] + t)[1..] == t;
      } else {
        EscapeUndone(s[0], t);
      }
    }
  }

  lemma PlainCharacter(c: Byte)
    requires EscapeC(c) == [c]
    ensures c != BACKSLASH && c != QUOTE
  {
  }

  /** The part of the array that holds a C string and its terminator. */
  ghost predicate StringAt(z: array<Byte>, at: nat, s: Text)
    reads z
  {
    at + |s| < z.Length && z[at..at + |s|] == s && z[at + |s|] == NUL
  }

  lemma HoldsAt(z: array<Byte>, at: nat, s: Text, k: nat)
    requires StringAt(z, at, s) && k <= |s|
    ensures StringAt(z, at + k, s[k..]) && z[at + k] == if k < |s| then s[k] else NUL
  {
    assert z[at + k..at + |s|] == z[at..at + |s|][k..];
    if k < |s| { assert z[at + k] == z[at..at + |s|][k]; }
  }

  lemma HoldsByte(z: array<Byte>, at: nat, s: Text, k: nat)
    requires StringAt(z, at, s) && k <= |s|
    ensures at + |s| < z.Length && z[at + k] == if k < |s| then s[k] else NUL
  {
    HoldsAt(z, at, s, k);
  }

  /** The character at the front of a text, or the one its escape stands for. */
  function Front(s: Text): (r: (Byte, Text))
    requires s != [] && Complete(s)
    ensures |r.1| < |s| && Complete(r.1)
  {
    if s[0] != BACKSLASH then (s[0], s[1..]) else Unescape(s)
  }

  lemma TailNulFree(s: Text, k: nat)
    requires NulFree(s) && k <= |s|
    ensures NulFree(s[k..])
  {
  }

  lemma ResolveFront(s: Text)
    requires s != [] && Complete(s)
    ensures Resolve(s) == [Front(s).0] + Resolve(Front(s).1)
  {
    hide Unescape;
  }

  /** Reading one character in the loop of `resolve_backslashes`. */
  method ReadCharacter(z: array<Byte>, at: nat, ghost s: Text) returns (c: Byte, next: nat)
    requires StringAt(z, at, s) && NulFree(s) && s != [] && Complete(s)
    ensures at < next <= at + |s| && (c, s[next - at..]) == Front(s)
  {
    var i := at;
    HoldsAt(z, at, s, 0);
    c := z[i];
    if c == BACKSLASH {
      i := i + 1;
      HoldsAt(z, at, s, 1);
      c := z[i];
      if c == LOWER_N {
        c := LF;
      } else if c == LOWER_T {
        c := TAB;
      } else if c == LOWER_R {
        c := CR;
      } else if c == BACKSLASH {
        c := BACKSLASH;
      } else if IsOctal(c) {
        c, i := ReadOctal(z, at, s);
      }
    }
    next := i + 1;
  }

  /** Its octal branch: the value, and where its last digit stands. */
  method ReadOctal(z: array<Byte>, at: nat, ghost s: Text) returns (c: Byte, i: nat)
    requires StringAt(z, at, s) && NulFree(s) && |s| > 1 && s[0] == BACKSLASH && IsOctal(s[1])
    ensures at < i < at + |s|
    ensures Octal(s[2..], s[1] - DIGIT_0, 2).0 % 256 == c
    ensures Octal(s[2..], s[1] - DIGIT_0, 2).1 == s[i + 1 - at..]
  {
    hide Octal, StringAt;
    HoldsAt(z, at, s, 1);
    HoldsAt(z, at, s, 2);
    i := at + 1;
    c := z[i] - DIGIT_0;
    OctalDigit(s, 2, c, 2);
    if IsOctal(z[i + 1]) {
      HoldsAt(z, at, s, 3);
      i := i + 1;
      c := c * 8 + (z[i] - DIGIT_0);
      OctalDigit(s, 3, c, 1);
      if IsOctal(z[i + 1]) {
        i := i + 1;
        OctalDigit(s, 4, c * 8 + (s[3] - DIGIT_0), 0);
        c := (c * 8 + (z[i] - DIGIT_0)) % 256;
      }
    }
  }

  lemma OctalDigit(s: Text, k: nat, v: nat, n: nat)
    requires k <= |s|
    ensures Octal(s[k..], v, n) ==
      if n > 0 && k < |s| && IsOctal(s[k]) then Octal(s[k + 1..], v * 8 + (s[k] - DIGIT_0), n - 1) else (v, s[k..])
  {
    if k < |s| { assert s[k..][1..] == s[k + 1..]; }
  }

  /** Skips the front of the string that needs no change: everything before the first backslash. */
  method SkipToBackslash(z: array<Byte>, at: nat, ghost s: Text) returns (start: nat)
    requires StringAt(z, at, s) && NulFree(s) && Complete(s)
    ensures at <= start <= at + |s| && Complete(s[start - at..]) && z[at..start] == s[..start - at]
    ensures s[..start - at] + Resolve(s[start - at..]) == Resolve(s)
  {
    hide StringAt, Complete, Resolve;
    start := at;
    ghost var k := 0;
    HoldsByte(z, at, s, 0);
    assert s[0..] == s && s[..0] + Resolve(s) == Resolve(s);
    while z[start] != NUL && z[start] != BACKSLASH
      invariant 0 <= k <= |s| && start == at + k && Complete(s[k..])
      invariant z[start] == if k < |s| then s[k] else NUL
      invariant s[..k] + Resolve(s[k..]) == Resolve(s)
      decreases |s| - k
    {
      PlainFront(s, k);
      HoldsByte(z, at, s, k + 1);
      start, k := start + 1, k + 1;
    }
    HoldsPrefix(z, at, s, k);
  }

  lemma HoldsPrefix(z: array<Byte>, at: nat, s: Text, k: nat)
    requires StringAt(z, at, s) && k <= |s|
    ensures at + |s| < z.Length && z[at..at + k] == s[..k]
  {
    assert z[at..at + k] == z[at..at + |s|][..k];
  }

  lemma PlainFront(s: Text, k: nat)
    requires k < |s| && s[k] != BACKSLASH && Complete(s[k..])
    ensures Complete(s[k + 1..])
    ensures s[..k] + Resolve(s[k..]) == s[..k + 1] + Resolve(s[k + 1..])
  {
    assert s[k..][1..] == s[k + 1..];
    assert s[..k] + ([s[k]] + Resolve(s[k + 1..])) == s[..k + 1] + Resolve(s[k + 1..]);
  }

  /** Stores a resolved character in front of the text still to be read, which stays as it is. */
  method WriteBehind(z: array<Byte>, at: nat, j: nat, c: Byte, i: nat, ghost r: Text)
    requires at <= j < i && StringAt(z, i, r)
    modifies z
    ensures z[at..j + 1] == old(z[at..j]) + [c] && StringAt(z, i, r)
    ensures z[..at] == old(z[..at]) && z[i + |r|..] == old(z[i + |r|..])
  {
    z[j] := c;
  }

  /** One turn of the loop of `resolve_backslashes`. */
  method ResolveTurn(z: array<Byte>, at: nat, i: nat, j: nat, ghost r: Text) returns (next: nat, ghost rest: Text)
    requires at <= j <= i && StringAt(z, i, r) && NulFree(r) && Complete(r) && r != []
    modifies z
    ensures j < next && |rest| < |r| && next + |rest| == i + |r|
    ensures StringAt(z, next, rest) && NulFree(rest) && Complete(rest)
    ensures z[at..j + 1] + Resolve(rest) == old(z[at..j]) + Resolve(r)
    ensures z[..at] == old(z[..at]) && z[i + |r|..] == old(z[i + |r|..])
  {
    hide Front, Complete, Resolve, StringAt;
    var c;
    c, next := ReadCharacter(z, i, r);
    ResolveFront(r);
    HoldsAt(z, i, r, next - i);
    TailNulFree(r, next - i);
    rest := r[next - i..];
    WriteBehind(z, at, j, c, next, rest);
    OneMore(old(z[at..j]), c, Resolve(rest));
  }

  /** `resolve_backslashes`, in place on the C string at a position of the buffer. */
  method ResolveBackslashes(z: array<Byte>, at: nat, ghost s: Text)
    requires StringAt(z, at, s) && NulFree(s) && Complete(s)
    modifies z
    ensures StringAt(z, at, Resolve(s))
    ensures z[..at] == old(z[..at]) && z[at + |s|..] == old(z[at + |s|..])
  {
    hide Front, Complete, Resolve, StringAt;
    var i := SkipToBackslash(z, at, s);
    var j := i;
    HoldsAt(z, at, s, i - at);
    ghost var r := s[i - at..];
    ghost var end := at + |s|;
    TailNulFree(s, i - at);
    while z[i] != NUL
      invariant at <= j <= i && i + |r| == end && NulFree(r) && Complete(r)
      invariant StringAt(z, i, r)
      invariant z[at..j] + Resolve(r) == Resolve(s)
      invariant z[..at] == old(z[..at]) && z[end..] == old(z[end..])
      decreases |r|
    {
      HoldsAt(z, i, r, 0);
      i, r := ResolveTurn(z, at, i, j, r);
      j := j + 1;
    }
    HoldsAt(z, i, r, 0);
    assert r == [];
    NothingToResolve();
    assert z[at..j] + [] == z[at..j];
    Terminate(z, at, j, i, Resolve(s));
  }

  /** Terminates the result if it is shorter than the string it replaces. */
  method Terminate(z: array<Byte>, at: nat, j: nat, i: nat, ghost s: Text)
    requires at <= j <= i && StringAt(z, i, []) && z[at..j] == s
    modifies z
    ensures StringAt(z, at, s) && z[..at] == old(z[..at]) && z[i..] == old(z[i..])
  {
    if j < i { z[j] := NUL; }
  }

  lemma OneMore(p: Text, c: Byte, q: Text)
    ensures p + [c] + q == p + ([c] + q)
  {
  }

  lemma NothingToResolve()
    ensures Complete([]) && Resolve([]) == []
  {
  }

  // ----- SQL quoting -----

  lemma {:induction false} DoubledPlain(a: Text, b: Text, q: Byte)
    requires q !in a
    ensures Doubled(a + b, q) == a + Doubled(b, q)
  {
    if a == [] {
      assert a + b == b && a + Doubled(b, q) == Doubled(b, q);
    } else {
      DoubledPlain(a[1..], b, q);
      assert (a + b)[1..] == a[1..] + b;
      assert [a[0]] + (a[1..] + Doubled(b, q)) == a + Doubled(b, q);
    }
  }

  /** The position of the next single quote, or the end. */
  method FindQuote(z: Text, start: nat) returns (i: nat)
    requires start <= |z|
    ensures start <= i <= |z| && APOSTROPHE !in z[start..i] && (i < |z| ==> z[i] == APOSTROPHE)
  {
    i := start;
    while i < |z| && z[i] != APOSTROPHE
      invariant start <= i <= |z| && APOSTROPHE !in z[start..i]
    {
      i := i + 1;
    }
  }

  /** Writing what stands before the next quote, and that quote twice, keeps to the doubled text. */
  lemma ChunkWritten(out: Text, z: Text, start: nat, i: nat)
    requires start <= i < |z| && z[i] == APOSTROPHE && APOSTROPHE !in z[start..i]
    ensures out + Doubled(z[start..], APOSTROPHE)
         == out + z[start..i] + [APOSTROPHE, APOSTROPHE] + Doubled(z[i + 1..], APOSTROPHE)
  {
    var (a, b) := (z[start..i], Doubled(z[i + 1..], APOSTROPHE));
    assert z[start..] == a + z[i..] && z[i..][1..] == z[i + 1..];
    DoubledPlain(a, z[i..], APOSTROPHE);
    assert out + (a + ([APOSTROPHE, APOSTROPHE] + b)) == out + a + [APOSTROPHE, APOSTROPHE] + b;
  }

  lemma LastChunk(z: Text, start: nat)
    requires start <= |z| && APOSTROPHE !in z[start..]
    ensures Doubled(z[start..], APOSTROPHE) == z[start..]
  {
    DoubledPlain(z[start..], [], APOSTROPHE);
    assert z[start..] + [] == z[start..];
  }

  /** `output_quoted_string`: the chunks it writes are the string with every single quote doubled,
      between single quotes. */
  method OutputQuotedString(z: Text) returns (out: Text)
    ensures out == [APOSTROPHE] + Doubled(z, APOSTROPHE) + [APOSTROPHE]
  {
    hide Doubled;
    assert z[0..] == z && z[..|z|] == z;
    var first := FindQuote(z, 0);
    out := [APOSTROPHE];
    if first == |z| {
      LastChunk(z, 0);
      out := out + z;
    } else {
      var p := 0;
      while p < |z|
        invariant p <= |z|
        invariant out + Doubled(z[p..], APOSTROPHE) == [APOSTROPHE] + Doubled(z, APOSTROPHE)
      {
        var i := FindQuote(z, p);
        if i < |z| {
          ChunkWritten(out, z, p, i);
        }
        if i == p {
          assert out + z[p..i] == out;
          out := out + [APOSTROPHE, APOSTROPHE];
          p := p + 1;
        } else if i < |z| {
          out := out + z[p..i] + [APOSTROPHE, APOSTROPHE];
          p := i + 1;
        } else {
          LastChunk(z, p);
          out := out + z[p..];
          p := |z|;
          LastChunk(z, p);
          assert out + z[p..] == out;
        }
      }
      LastChunk(z, p);
      assert out + z[p..] == out;
    }
    out := out + [APOSTROPHE];
  }

  /** The value of an SQL string literal, from after its opening quote, and the text after it: a
      quote inside is written twice. */
  function ReadLiteral(s: Text, q: Byte): (Text, Text)
    decreases |s|
  {
    if s == [] then ([], [])
    else if s[0] != q then
      var r := ReadLiteral(s[1..], q);
      ([s[0]] + r.0, r.1)
    else if |s| > 1 && s[1] == q then
      var r := ReadLiteral(s[2..], q);
      ([q] + r.0, r.1)
    else ([], s[1..])
  }

  /** The literal that `output_quoted_string` writes denotes the string, wherever it is written. */
  lemma {:induction false} SqlRoundTrip(z: Text, q: Byte, t: Text)
    requires !StartsWith(t, q)
    ensures ReadLiteral(Doubled(z, q) + [q] + t, q) == (z, t)
    decreases |z|
  {
    var s := Doubled(z, q) + [q] + t;
    if z == [] {
      assert s == [q] + t && s[1..] == t;
    } else {
      var u := Doubled(z[1..], q) + [q] + t;
      SqlRoundTrip(z[1..], q, t);
      assert [z[0]] + z[1..] == z;
      if z[0] == q {
        assert s == [q, q] + u && s[2..] == u;
      } else {
        assert s == [z[0]] + u && s[1..] == u;
      }
    }
  }
}
