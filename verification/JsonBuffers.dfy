/** The loops of cJSON/cJSON.c that fill or compact a character buffer. */
module JsonBuffers {
  import opened CText
  import opened JsonSpec
  import opened JsonMinify
  import opened JsonRoundTrip

  // ----- cJSON_Minify -----

  predicate HasBlockEnd(s: Text) {
    s != [] && (HasPrefix(s, [STAR, SLASH]) || HasBlockEnd(s[1..]))
  }

  /** Every string literal and every block comment is closed. */
  predicate Closed(s: Text)
    decreases |s|
  {
    if s == [] then true
    else if IsBlank(s[0]) then Closed(s[1..])
    else if HasPrefix(s, [SLASH, SLASH]) then Closed(LineEnd(s[1..]))
    else if HasPrefix(s, [SLASH, STAR]) then HasBlockEnd(s[1..]) && Closed(BlockEnd(s[1..]))
    else if s[0] == QUOTE then ClosedString(s[1..])
    else Closed(s[1..])
  }

  predicate ClosedString(s: Text)
    decreases |s|
  {
    s != [] &&
    if s[0] == QUOTE then Closed(s[1..])
    else if s[0] == BACKSLASH then |s| >= 2 && ClosedString(s[2..])
    else ClosedString(s[1..])
  }

  lemma {:induction false} CleanIsClosed(s: Text)
    requires Clean(s)
    ensures Closed(s)
    decreases |s|
  {
    hide HasPrefix, CleanString, ClosedString;
    if s != [] {
      NoComment(s);
      if s[0] == QUOTE {
        CleanStringIsClosed(s[1..]);
      } else {
        CleanIsClosed(s[1..]);
      }
    }
  }

  lemma {:induction false} CleanStringIsClosed(s: Text)
    requires CleanString(s)
    ensures ClosedString(s)
    decreases |s|
  {
    hide Clean, Closed;
    if s[0] == QUOTE {
      CleanIsClosed(s[1..]);
    } else if s[0] == BACKSLASH {
      CleanStringIsClosed(s[2..]);
    } else {
      CleanStringIsClosed(s[1..]);
    }
  }

  // Documents meet this condition unless they are a literal left open.

  lemma {:induction false} ClosedStringShut(s: Text)
    requires ClosedString(s)
    ensures Shut(s)
    decreases |s|
  {
    hide Closed;
    if s[0] == BACKSLASH {
      ClosedStringShut(s[2..]);
    } else if s[0] != QUOTE {
      ClosedStringShut(s[1..]);
    }
  }

  lemma {:induction false} ClosedSkip(s: Text)
    requires Closed(s)
    ensures Closed(Skip(s))
    decreases |s|
  {
    hide HasPrefix, ClosedString;
    if s != [] && s[0] <= 32 {
      NoComment(s);
      ClosedSkip(s[1..]);
    }
  }

  lemma LiteralNotClosed(s: Text)
    requires StartsWith(s, QUOTE) && Closed(s)
    ensures Shut(s[1..])
  {
    hide HasPrefix, ClosedString, Shut;
    NoComment(s);
    ClosedStringShut(s[1..]);
  }

  /** A document that the parser accepts up to its end may be given to `cJSON_Minify` exactly if it is
      not a literal left open. */
  lemma DocumentClosed(s: Text)
    requires ParseDocument(s).Ok?
    ensures Closed(s) <==> !LeftOpen(s)
  {
    hide ParseDocument, Closed, Clean, Skip, Shut;
    DocumentMinified(s);
    if !LeftOpen(s) {
      CleanIsClosed(s);
    } else if Closed(s) {
      ClosedSkip(s);
      LiteralNotClosed(Skip(s));
    }
  }

  /** The smallest such document: a single quote, which the parser accepts as the empty string. */
  lemma QuoteLeftOpen()
    ensures ParseDocument([QUOTE]) == Ok(String([]), []) && LeftOpen([QUOTE]) && !Closed([QUOTE])
  {
    assert [QUOTE][1..] == [];
    DispatchOther([QUOTE]);
    DocumentClosed([QUOTE]);
  }

  /** Reading position r and writing position w while the string of length n that fills the
      front of `full` is compacted: nothing from r on has changed, and w has not passed r. */
  ghost predicate Cursors(json: array<Byte>, full: seq<Byte>, n: nat, r: nat, w: nat)
    reads json
  {
    && w <= r <= n < |full| == json.Length
    && full[n] == NUL
    && (forall i :: 0 <= i < n ==> full[i] != NUL)
    && (forall i :: r <= i < |full| ==> json[i] == full[i])
  }

  /** Copies one byte down to the write cursor and moves both cursors. */
  method CopyByte(json: array<Byte>, ghost full: seq<Byte>, ghost n: nat, r: nat, w: nat)
    requires Cursors(json, full, n, r, w) && r < n
    modifies json
    ensures Cursors(json, full, n, r + 1, w + 1)
    ensures json[..w + 1] == old(json[..w]) + [full[r]]
  {
    json[w] := json[r];
  }

  /** One turn of the string loop on the text from r to n. */
  lemma StringTurn(full: seq<Byte>, n: nat, r: nat)
    requires r < n <= |full| && full[r] != QUOTE && ClosedString(full[r..n])
    ensures full[r] == BACKSLASH ==>
              (r + 2 <= n && ClosedString(full[r + 2..n])
               && MinifyString(full[r..n]) == [full[r]] + ([full[r + 1]] + MinifyString(full[r + 2..n])))
    ensures full[r] != BACKSLASH ==>
              (ClosedString(full[r + 1..n])
               && MinifyString(full[r..n]) == [full[r]] + MinifyString(full[r + 1..n]))
  {
    hide Minify, Closed;
    var s := full[r..n];
    assert s[1..] == full[r + 1..n];
    if s[0] == BACKSLASH {
      assert s[2..] == full[r + 2..n];
      assert s[..2] == [s[0]] + [s[1]];
      assert s[..2] + MinifyString(s[2..]) == [s[0]] + ([s[1]] + MinifyString(s[2..]));
    }
  }

  lemma QuoteTurn(full: seq<Byte>, n: nat, r: nat)
    requires r < n <= |full| && full[r] == QUOTE && ClosedString(full[r..n])
    ensures Closed(full[r + 1..n])
    ensures MinifyString(full[r..n]) == [full[r]] + Minify(full[r + 1..n])
  {
    hide Minify, Closed;
    assert full[r..n][1..] == full[r + 1..n];
  }

  lemma Move(p: Text, c: Byte, q: Text)
    ensures (p + [c]) + q == p + ([c] + q)
  {
  }

  /** The body of the string loop: copies one character, with its backslash if it has one. */
  method CopyChar(json: array<Byte>, ghost full: seq<Byte>, ghost n: nat, r0: nat, w0: nat)
    returns (r: nat, w: nat)
    requires Cursors(json, full, n, r0, w0) && r0 < n && full[r0] != QUOTE
    requires ClosedString(full[r0..n])
    modifies json
    ensures r0 < r < n && Cursors(json, full, n, r, w) && ClosedString(full[r..n])
    ensures json[..w] + MinifyString(full[r..n]) == old(json[..w0]) + MinifyString(full[r0..n])
  {
    hide MinifyString, ClosedString;
    r, w := r0, w0;
    StringTurn(full, n, r);
    ghost var p := json[..w];
    if json[r] == BACKSLASH {
      CopyByte(json, full, n, r, w);
      r, w := r + 1, w + 1;
      Move(p, full[r - 1], [full[r]] + MinifyString(full[r + 1..n]));
      p := p + [full[r - 1]];
    }
    CopyByte(json, full, n, r, w);
    r, w := r + 1, w + 1;
    Move(p, full[r - 1], MinifyString(full[r..n]));
    ClosedNonempty(full[r..n]);
  }

  /** The string branch: copies the literal that starts at r0, quotes included. */
  method CopyString(json: array<Byte>, ghost full: seq<Byte>, ghost n: nat, r0: nat, w0: nat)
    returns (r: nat, w: nat)
    requires Cursors(json, full, n, r0, w0) && r0 < n && full[r0] == QUOTE
    requires ClosedString(full[r0 + 1..n])
    modifies json
    ensures Cursors(json, full, n, r, w) && r > r0 && Closed(full[r..n])
    ensures json[..w] + Minify(full[r..n]) == old(json[..w0]) + ([QUOTE] + MinifyString(full[r0 + 1..n]))
  {
    hide Minify, MinifyString, Closed, ClosedString;
    CopyByte(json, full, n, r0, w0);
    r, w := r0 + 1, w0 + 1;
    ghost var all := old(json[..w0]) + ([QUOTE] + MinifyString(full[r0 + 1..n]));
    Move(old(json[..w0]), QUOTE, MinifyString(full[r0 + 1..n]));
    ClosedNonempty(full[r..n]);
    while json[r] != NUL && json[r] != QUOTE
      invariant r0 < r < n && w <= r && Cursors(json, full, n, r, w)
      invariant ClosedString(full[r..n]) && json[..w] + MinifyString(full[r..n]) == all
      decreases n - r
    {
      r, w := CopyChar(json, full, n, r, w);
    }
    QuoteTurn(full, n, r);
    Move(json[..w], full[r], Minify(full[r + 1..n]));
    CopyByte(json, full, n, r, w);
    r, w := r + 1, w + 1;
  }

  lemma ClosedNonempty(s: Text)
    ensures ClosedString(s) ==> s != []
  {
  }

  /** The inner loop of the `//` branch. */
  method SkipLine(json: array<Byte>, ghost full: seq<Byte>, ghost n: nat, r0: nat, ghost w: nat)
    returns (r: nat)
    requires Cursors(json, full, n, r0, w)
    ensures r0 <= r <= n && full[r..n] == LineEnd(full[r0..n])
  {
    r := r0;
    while json[r] != NUL && json[r] != LF
      invariant r0 <= r <= n && LineEnd(full[r..n]) == LineEnd(full[r0..n])
      decreases n - r
    {
      assert full[r..n][1..] == full[r + 1..n];
      r := r + 1;
    }
    if r < n { assert full[r..n][0] == LF; }
  }

  /** The inner loop of the block comment branch, and the two characters it ends with. */
  method SkipBlock(json: array<Byte>, ghost full: seq<Byte>, ghost n: nat, r0: nat, ghost w: nat)
    returns (r: nat)
    requires Cursors(json, full, n, r0, w) && HasBlockEnd(full[r0..n])
    ensures r0 <= r <= n && full[r..n] == BlockEnd(full[r0..n])
  {
    hide HasPrefix;
    r := r0;
    while json[r] != NUL && !(json[r] == STAR && json[r + 1] == SLASH)
      invariant r0 <= r < n
      invariant HasBlockEnd(full[r..n]) && BlockEnd(full[r..n]) == BlockEnd(full[r0..n])
      decreases n - r
    {
      PairAt(full, n, r, STAR, SLASH);
      assert full[r..n][1..] == full[r + 1..n];
      r := r + 1;
    }
    PairAt(full, n, r, STAR, SLASH);
    assert full[r..n][2..] == full[r + 2..n];
    r := r + 2;
  }

  lemma PairAt(full: seq<Byte>, n: nat, r: nat, a: Byte, b: Byte)
    requires r < n < |full| && full[n] == NUL && b != NUL
    ensures HasPrefix(full[r..n], [a, b]) <==> full[r] == a && full[r + 1] == b
  {
    if r + 1 < n {
      assert full[r..n][..2] == [full[r], full[r + 1]];
    }
  }

  /** What the outer loop does at a character that starts neither a comment nor a literal. */
  lemma PlainTurn(full: seq<Byte>, n: nat, r: nat)
    requires r < n < |full| && full[n] == NUL && Closed(full[r..n])
    ensures IsBlank(full[r]) ==> (Closed(full[r + 1..n]) && Minify(full[r..n]) == Minify(full[r + 1..n]))
    ensures !IsBlank(full[r]) && full[r] != QUOTE && !(full[r] == SLASH && full[r + 1] in {SLASH, STAR}) ==>
              (Closed(full[r + 1..n]) && Minify(full[r..n]) == [full[r]] + Minify(full[r + 1..n]))
  {
    hide HasPrefix;
    assert full[r..n][1..] == full[r + 1..n];
    PairAt(full, n, r, SLASH, SLASH);
    PairAt(full, n, r, SLASH, STAR);
  }

  lemma TokenTurn(full: seq<Byte>, n: nat, r: nat)
    requires r < n < |full| && full[n] == NUL && Closed(full[r..n]) && !IsBlank(full[r])
    ensures full[r] == SLASH && full[r + 1] == SLASH ==>
              (Closed(LineEnd(full[r + 1..n])) && Minify(full[r..n]) == Minify(LineEnd(full[r + 1..n])))
    ensures full[r] == SLASH && full[r + 1] == STAR ==>
              (HasBlockEnd(full[r + 1..n]) && Closed(BlockEnd(full[r + 1..n]))
               && Minify(full[r..n]) == Minify(BlockEnd(full[r + 1..n])))
    ensures full[r] == QUOTE ==>
              (ClosedString(full[r + 1..n]) && Minify(full[r..n]) == [QUOTE] + MinifyString(full[r + 1..n]))
  {
    hide HasPrefix, LineEnd, BlockEnd;
    assert full[r..n][1..] == full[r + 1..n];
    PairAt(full, n, r, SLASH, SLASH);
    PairAt(full, n, r, SLASH, STAR);
  }

  /** `cJSON_Minify` on the string of length n at the front of the buffer.  The write position
      never passes the read position, and nothing behind the old terminator changes. */
  method MinifyInPlace(json: array<Byte>, ghost n: nat)
    requires n < json.Length && json[n] == NUL && NulFree(json[..n]) && Closed(json[..n])
    modifies json
    ensures var m := Minify(old(json[..n]));
      json[..|m|] == m && json[|m|] == NUL && json[n + 1..] == old(json[n + 1..])
  {
    hide Minify, Closed, LineEnd, BlockEnd;
    ghost var full := json[..];
    assert json[..n] == full[0..n];
    var r, w := 0, 0;
    while json[r] != NUL
      invariant 0 <= w <= r <= n && Cursors(json, full, n, r, w) && Closed(full[r..n])
      invariant json[..w] + Minify(full[r..n]) == Minify(full[0..n])
      decreases n - r
    {
      r, w := MinifyTurn(json, full, n, r, w);
    }
    EmptyMinify();
    assert full[r..n] == [];
    assert json[..w] + [] == json[..w];
    json[w] := NUL;
  }

  lemma EmptyMinify()
    ensures Minify([]) == []
  {
  }

  /** The body of the outer loop. */
  method MinifyTurn(json: array<Byte>, ghost full: seq<Byte>, ghost n: nat, r0: nat, w0: nat)
    returns (r: nat, w: nat)
    requires Cursors(json, full, n, r0, w0) && r0 < n && Closed(full[r0..n])
    modifies json
    ensures Cursors(json, full, n, r, w) && r > r0 && Closed(full[r..n])
    ensures json[..w] + Minify(full[r..n]) == old(json[..w0]) + Minify(full[r0..n])
  {
    hide Minify, MinifyString, Closed, ClosedString, LineEnd, BlockEnd, HasBlockEnd;
    r, w := r0, w0;
    PlainTurn(full, n, r);
    if !IsBlank(json[r]) { TokenTurn(full, n, r); }
    if IsBlank(json[r]) {
      r := r + 1;
    } else if json[r] == SLASH && json[r + 1] == SLASH {
      r := SkipLine(json, full, n, r + 1, w);
    } else if json[r] == SLASH && json[r + 1] == STAR {
      r := SkipBlock(json, full, n, r + 1, w);
    } else if json[r] == QUOTE {
      r, w := CopyString(json, full, n, r, w);
    } else {
      Move(json[..w], json[r], Minify(full[r + 1..n]));
      CopyByte(json, full, n, r, w);
      r, w := r + 1, w + 1;
    }
  }
}
