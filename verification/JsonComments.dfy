/** What `cJSON_Minify` is for: comments between the tokens of a document disappear, and what is
    left parses as the document without them. */
module JsonComments {
  import opened CText
  import opened JsonSpec
  import opened JsonBuffers
  import opened JsonMinify
  import G = JsonGrammar

  /** A line comment with its line feed. */
  predicate IsLineComment(k: Text) {
    && |k| >= 3 && k[0] == SLASH && k[1] == SLASH && k[|k| - 1] == LF
    && (forall i :: 2 <= i < |k| - 1 ==> k[i] != LF)
  }

  /** A line comment that ends with the text. */
  predicate IsLastComment(k: Text) {
    |k| >= 2 && k[0] == SLASH && k[1] == SLASH && forall i :: 2 <= i < |k| ==> k[i] != LF
  }

  /** A block comment: the first `*` and `/` in a row behind its opening slash are its last two
      characters.  A slash, a star and a slash are one, because the source lets the two ends overlap. */
  predicate IsBlockComment(k: Text) {
    && |k| >= 3 && k[0] == SLASH && k[1] == STAR && k[|k| - 2] == STAR && k[|k| - 1] == SLASH
    && (forall i :: 1 <= i < |k| - 2 ==> !(k[i] == STAR && k[i + 1] == SLASH))
  }

  /** A piece of a document and what was inserted behind it. */
  datatype Part = Part(code: Text, comment: Text)

  /** The piece has no slash and no open quote outside its literals, so a comment behind it is one. */
  predicate Commentable(p: Part, last: bool) {
    && Clean(p.code)
    && (p.comment == [] || IsLineComment(p.comment) || IsBlockComment(p.comment) || (last && IsLastComment(p.comment)))
  }

  function Commented(ps: seq<Part>): Text {
    if ps == [] then [] else ps[0].code + ps[0].comment + Commented(ps[1..])
  }

  function Uncommented(ps: seq<Part>): Text {
    if ps == [] then [] else ps[0].code + Uncommented(ps[1..])
  }

  // ----- clean text in front -----

  lemma {:induction false} MinifyAppend(a: Text, b: Text)
    requires Clean(a)
    ensures Minify(a + b) == Minify(a) + Minify(b)
    ensures Clean(b) ==> Clean(a + b)
    decreases |a|
  {
    hide HasPrefix, CleanString, MinifyString;
    if a == [] {
      assert a + b == b && Minify(a) + Minify(b) == Minify(b);
    } else {
      var s := a + b;
      assert s[0] == a[0] && s[1..] == a[1..] + b;
      NoComment(s);
      NoComment(a);
      if a[0] == QUOTE {
        MinifyStringAppend(a[1..], b);
        assert [QUOTE] + MinifyString(a[1..]) + Minify(b) == [QUOTE] + (MinifyString(a[1..]) + Minify(b));
      } else {
        MinifyAppend(a[1..], b);
        assert [a[0]] + Minify(a[1..]) + Minify(b) == [a[0]] + (Minify(a[1..]) + Minify(b));
      }
    }
  }

  lemma {:induction false} MinifyStringAppend(a: Text, b: Text)
    requires CleanString(a)
    ensures MinifyString(a + b) == MinifyString(a) + Minify(b)
    ensures Clean(b) ==> CleanString(a + b)
    decreases |a|
  {
    hide Clean, Minify;
    var s := a + b;
    assert s[0] == a[0] && s[1..] == a[1..] + b;
    if a[0] == QUOTE {
      MinifyAppend(a[1..], b);
      assert [QUOTE] + Minify(a[1..]) + Minify(b) == [QUOTE] + (Minify(a[1..]) + Minify(b));
    } else if a[0] == BACKSLASH {
      assert s[..2] == a[..2] && s[2..] == a[2..] + b;
      MinifyStringAppend(a[2..], b);
      assert a[..2] + MinifyString(a[2..]) + Minify(b) == a[..2] + (MinifyString(a[2..]) + Minify(b));
    } else {
      MinifyStringAppend(a[1..], b);
      assert [a[0]] + MinifyString(a[1..]) + Minify(b) == [a[0]] + (MinifyString(a[1..]) + Minify(b));
    }
  }

  // ----- comments -----

  /** The line loop stops at the first line feed. */
  lemma {:induction false} LineSkipped(k: Text, b: Text)
    requires forall i :: 0 <= i < |k| ==> k[i] != LF
    ensures LineEnd(k + ([LF] + b)) == [LF] + b
    decreases |k|
  {
    var s := k + ([LF] + b);
    if k == [] {
      assert s == [LF] + b;
    } else {
      assert s[1..] == k[1..] + ([LF] + b);
      LineSkipped(k[1..], b);
    }
  }

  /** The block loop stops behind the first `*` and `/` in a row. */
  lemma {:induction false} BlockSkipped(k: Text, b: Text)
    requires |k| >= 2 && k[|k| - 2] == STAR && k[|k| - 1] == SLASH
    requires forall i :: 0 <= i < |k| - 2 ==> !(k[i] == STAR && k[i + 1] == SLASH)
    ensures BlockEnd(k + b) == b
    decreases |k|
  {
    var s := k + b;
    assert s[..2] == [k[0], k[1]];
    if |k| == 2 {
      assert s[2..] == b;
    } else {
      assert s[1..] == k[1..] + b;
      BlockSkipped(k[1..], b);
    }
  }

  lemma LineCommentDropped(k: Text, b: Text)
    requires IsLineComment(k)
    ensures Minify(k + b) == Minify(b)
  {
    hide LineEnd, BlockEnd;
    var s := k + b;
    var line := k[1..|k| - 1];
    assert s[..2] == [SLASH, SLASH];
    assert s[1..] == line + ([LF] + b);
    LineSkipped(line, b);
    assert ([LF] + b)[1..] == b;
  }

  lemma {:induction false} LineToEnd(k: Text)
    requires forall i :: 0 <= i < |k| ==> k[i] != LF
    ensures LineEnd(k) == []
    decreases |k|
  {
    if k != [] { LineToEnd(k[1..]); }
  }

  lemma LastCommentDropped(k: Text)
    requires IsLastComment(k)
    ensures Minify(k) == Minify([])
  {
    hide LineEnd, BlockEnd;
    assert k[..2] == [SLASH, SLASH];
    LineToEnd(k[1..]);
  }

  lemma BlockCommentDropped(k: Text, b: Text)
    requires IsBlockComment(k)
    ensures Minify(k + b) == Minify(b)
  {
    hide LineEnd, BlockEnd;
    var s := k + b;
    assert s[..2] == [SLASH, STAR];
    assert s[1..] == k[1..] + b;
    BlockSkipped(k[1..], b);
  }

  // ----- commented documents -----

  lemma {:induction false} CommentsDropped(ps: seq<Part>)
    requires forall i :: 0 <= i < |ps| ==> Commentable(ps[i], i == |ps| - 1)
    ensures Minify(Commented(ps)) == Minify(Uncommented(ps))
    ensures Clean(Uncommented(ps))
    decreases |ps|
  {
    hide Minify, Clean, IsLineComment, IsBlockComment, IsLastComment;
    if ps == [] {
      CleanEmpty();
    } else {
      var (p, rest) := (ps[0], Commented(ps[1..]));
      CommentsDropped(ps[1..]);
      MinifyAppend(p.code, Uncommented(ps[1..]));
      MinifyAppend(p.code, p.comment + rest);
      assert p.code + p.comment + rest == p.code + (p.comment + rest);
      if p.comment == [] {
        assert p.comment + rest == rest;
      } else if IsLineComment(p.comment) {
        LineCommentDropped(p.comment, rest);
      } else if IsBlockComment(p.comment) {
        BlockCommentDropped(p.comment, rest);
      } else {
        assert p.comment + rest == p.comment;
        LastCommentDropped(p.comment);
      }
    }
  }

  /** Line and block comments anywhere between the tokens of an accepted document leave the result of
      `cJSON_Minify` as it is without them: it parses to the value of the document, and a second
      call changes nothing. */
  lemma CommentedMinified(ps: seq<Part>)
    requires forall i :: 0 <= i < |ps| ==> Commentable(ps[i], i == |ps| - 1)
    requires ParseDocument(Uncommented(ps)).Ok?
    ensures var m := Minify(Commented(ps));
      && m == Minify(Uncommented(ps)) && Minify(m) == m
      && ParseDocument(m).Ok? && ParseDocument(m).value == ParseDocument(Uncommented(ps)).value
  {
    hide Minify, Clean, ParseDocument, LeftOpen;
    CommentsDropped(ps);
    DocumentMinified(Uncommented(ps));
  }

  /** So a JSON text with comments in it minifies to a text of the value it denotes. */
  lemma CommentedText(ps: seq<Part>, x: G.Spaced)
    requires forall i :: 0 <= i < |ps| ==> Commentable(ps[i], i == |ps| - 1)
    requires G.Document(x) && G.ClosedNode(x.node) && Uncommented(ps) == G.SpacedText(x)
    ensures var m := Minify(Commented(ps));
      ParseDocument(m).Ok? && ParseDocument(m).value == G.Denoted(x.node)
  {
    hide Minify, Clean, ParseDocument, Commentable, G.Document, G.SpacedText;
    G.TextParsed(x);
    CommentedMinified(ps);
  }

  // ----- the loop in place -----

  lemma {:induction false} ClosedAppend(a: Text, b: Text)
    requires Clean(a)
    ensures Closed(a + b) == Closed(b)
    decreases |a|
  {
    hide HasPrefix, CleanString, ClosedString;
    if a == [] {
      assert a + b == b;
    } else {
      assert (a + b)[0] == a[0] && (a + b)[1..] == a[1..] + b;
      NoComment(a + b);
      if a[0] == QUOTE {
        ClosedStringAppend(a[1..], b);
      } else {
        ClosedAppend(a[1..], b);
      }
    }
  }

  lemma {:induction false} ClosedStringAppend(a: Text, b: Text)
    requires CleanString(a)
    ensures ClosedString(a + b) == Closed(b)
    decreases |a|
  {
    hide Clean, Closed;
    var s := a + b;
    assert s[0] == a[0] && s[1..] == a[1..] + b;
    if a[0] == QUOTE {
      ClosedAppend(a[1..], b);
    } else if a[0] == BACKSLASH {
      assert s[2..] == a[2..] + b;
      ClosedStringAppend(a[2..], b);
    } else {
      ClosedStringAppend(a[1..], b);
    }
  }

  lemma {:induction false} BlockHasEnd(k: Text, b: Text)
    requires |k| >= 2 && k[|k| - 2] == STAR && k[|k| - 1] == SLASH
    ensures HasBlockEnd(k + b)
    decreases |k|
  {
    if |k| == 2 {
      assert (k + b)[..2] == [STAR, SLASH];
    } else {
      assert (k + b)[1..] == k[1..] + b;
      BlockHasEnd(k[1..], b);
    }
  }

  lemma BlockCommentClosed(k: Text, b: Text)
    requires Closed(b) && IsBlockComment(k)
    ensures Closed(k + b)
  {
    hide LineEnd, BlockEnd, HasBlockEnd;
    assert (k + b)[1..] == k[1..] + b && (k + b)[..2] == [SLASH, STAR];
    BlockSkipped(k[1..], b);
    BlockHasEnd(k[1..], b);
  }

  lemma LineCommentClosed(k: Text, b: Text)
    requires Closed(b) && IsLineComment(k)
    ensures Closed(k + b)
  {
    hide LineEnd, BlockEnd, HasBlockEnd;
    var line := k[1..|k| - 1];
    assert (k + b)[..2] == [SLASH, SLASH] && (k + b)[1..] == line + ([LF] + b);
    LineSkipped(line, b);
    assert ([LF] + b)[1..] == b;
  }

  lemma LastCommentClosed(k: Text)
    requires IsLastComment(k)
    ensures Closed(k)
  {
    hide LineEnd, BlockEnd, HasBlockEnd;
    assert k[..2] == [SLASH, SLASH];
    LineToEnd(k[1..]);
  }

  /** A commented document may be given to `cJSON_Minify`: its literals and block comments are closed. */
  lemma {:induction false} CommentedClosed(ps: seq<Part>)
    requires forall i :: 0 <= i < |ps| ==> Commentable(ps[i], i == |ps| - 1)
    ensures Closed(Commented(ps))
    decreases |ps|
  {
    hide Closed, Clean, IsLineComment, IsBlockComment, IsLastComment;
    if ps == [] {
      NothingClosed();
    } else {
      var (p, rest) := (ps[0], Commented(ps[1..]));
      CommentedClosed(ps[1..]);
      ClosedAppend(p.code, p.comment + rest);
      assert p.code + p.comment + rest == p.code + (p.comment + rest);
      if p.comment == [] {
        assert p.comment + rest == rest;
      } else if IsLineComment(p.comment) {
        LineCommentClosed(p.comment, rest);
      } else if IsBlockComment(p.comment) {
        BlockCommentClosed(p.comment, rest);
      } else {
        assert p.comment + rest == p.comment;
        LastCommentClosed(p.comment);
      }
    }
  }

  lemma NothingClosed()
    ensures Closed([])
  {
  }
}
