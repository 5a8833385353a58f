/** The arguments of a dot command as a user writes them: the line that is split into them. */
module DotArguments {
  import opened CText
  import opened DotCommand

  /** A bare word, or a text between single or double quotes. */
  datatype Argument = Bare(text: Text) | Single(text: Text) | Double(text: Text)

  /** White space of the C locale. */
  predicate Blank(c: Byte) {
    c == 32 || 9 <= c <= 13
  }

  predicate White(w: Text) {
    forall i :: 0 <= i < |w| ==> Blank(w[i])
  }

  /** Every double quote stands behind a backslash, and no backslash stands alone at the end. */
  predicate Protected(t: Text)
    decreases |t|
  {
    if t == [] then true
    else if t[0] == 92 then |t| > 1 && Protected(t[2..])
    else t[0] != 34 && Protected(t[1..])
  }

  predicate ValidArgument(a: Argument) {
    match a
    case Bare(t) => t != [] && t[0] != 34 && t[0] != 39 && forall i :: 0 <= i < |t| ==> !Blank(t[i])
    case Single(t) => forall i :: 0 <= i < |t| ==> t[i] != 39
    case Double(t) => Protected(t)
  }

  function ArgumentText(a: Argument): Text {
    match a
    case Bare(t) => t
    case Single(t) => [39] + t + [39]
    case Double(t) => [34] + t + [34]
  }

  /** An argument and the white space before it. */
  datatype Placement = Placement(before: Text, arg: Argument)

  function LineText(ps: seq<Placement>, tail: Text): Text {
    if ps == [] then tail else ps[0].before + ArgumentText(ps[0].arg) + LineText(ps[1..], tail)
  }

  /** White space stands between the arguments; it may only be missing behind a closing quote. */
  predicate ValidLine(ps: seq<Placement>, tail: Text) {
    && White(tail)
    && (forall k :: 0 <= k < |ps| ==> White(ps[k].before) && ValidArgument(ps[k].arg))
    && (forall k :: 0 < k < |ps| && ps[k - 1].arg.Bare? ==> ps[k].before != [])
  }

  lemma {:induction false} WhiteSkipped(w: Text, t: Text)
    requires White(w)
    ensures SkipSpaces(w + t) == SkipSpaces(t)
    decreases |w|
  {
    if w == [] {
      assert w + t == t;
    } else {
      assert (w + t)[1..] == w[1..] + t;
      WhiteSkipped(w[1..], t);
    }
  }

  lemma {:induction false} BareFound(t: Text, u: Text)
    requires forall i :: 0 <= i < |t| ==> !Blank(t[i])
    requires u != [] ==> Blank(u[0])
    ensures BareLength(t + u) == |t|
    decreases |t|
  {
    if t == [] {
      assert t + u == u;
    } else {
      assert (t + u)[1..] == t[1..] + u;
      BareFound(t[1..], u);
    }
  }

  lemma {:induction false} SingleFound(t: Text, u: Text)
    requires forall i :: 0 <= i < |t| ==> t[i] != 39
    ensures QuotedLength(t + ([39] + u), 39) == |t|
    decreases |t|
  {
    var s := t + ([39] + u);
    if t == [] {
      assert s[0] == 39;
    } else {
      assert s[1..] == t[1..] + ([39] + u);
      SingleFound(t[1..], u);
    }
  }

  lemma {:induction false} DoubleFound(t: Text, u: Text)
    requires Protected(t)
    ensures QuotedLength(t + ([34] + u), 34) == |t|
    decreases |t|
  {
    var s := t + ([34] + u);
    if t == [] {
      assert s[0] == 34;
    } else if t[0] == 92 {
      assert s[2..] == t[2..] + ([34] + u);
      DoubleFound(t[2..], u);
    } else {
      assert s[1..] == t[1..] + ([34] + u);
      DoubleFound(t[1..], u);
    }
  }

  lemma ArgumentFound(a: Argument, u: Text)
    requires ValidArgument(a) && (a.Bare? && u != [] ==> Blank(u[0]))
    ensures var s := ArgumentText(a) + u;
      && s != [] && SkipSpaces(s) == s && FirstToken(s) == Token(a.text, !a.Single?)
      && SkipSpaces(AfterToken(s)) == SkipSpaces(u)
  {
    hide QuotedLength, BareLength;
    var (t, s) := (a.text, ArgumentText(a) + u);
    match a {
      case Bare(_) =>
        BareFound(t, u);
        assert s[0..|t|] == t;
        if u != [] { assert s[|t| + 1..] == u[1..]; }
      case Single(_) =>
        SingleFound(t, u);
        QuotedFound(t, 39, u);
      case Double(_) =>
        DoubleFound(t, u);
        QuotedFound(t, 34, u);
    }
  }

  lemma QuotedFound(t: Text, q: Byte, u: Text)
    requires q in [34, 39] && QuotedLength(t + ([q] + u), q) == |t|
    ensures var s := [q] + t + [q] + u;
      && SkipSpaces(s) == s && FirstToken(s) == Token(t, q != 39) && AfterToken(s) == u
  {
    hide QuotedLength;
    Enclosed(t, q, u);
  }

  lemma Enclosed(t: Text, q: Byte, u: Text)
    ensures var s := [q] + t + [q] + u;
      s[0] == q && s[1..] == t + ([q] + u) && s[1..1 + |t|] == t && s[|t| + 2..] == u
  {
  }

  lemma TokensBehind(s: Text, t: Text, room: nat)
    requires SkipSpaces(s) == SkipSpaces(t)
    ensures Tokens(s, room) == Tokens(t, room)
  {
  }

  /** A line splits into its arguments, in order and up to the room for them; all but those between
      single quotes have their backslashes resolved. */
  lemma {:induction false} ArgumentsFound(ps: seq<Placement>, tail: Text, room: nat)
    requires ValidLine(ps, tail)
    ensures var ts := Tokens(LineText(ps, tail), room);
      |ts| == Min(|ps|, room)
      && forall k :: 0 <= k < |ts| ==> ts[k] == Token(ps[k].arg.text, !ps[k].arg.Single?)
    decreases |ps|
  {
    hide ArgumentText, ValidArgument, FirstToken, AfterToken, SkipSpaces;
    if ps == [] {
      WhiteSkipped(tail, []);
      assert tail + [] == tail;
      NothingLeft();
    } else if room > 0 {
      var (w, a, more) := (ps[0].before, ps[0].arg, LineText(ps[1..], tail));
      var s := ArgumentText(a) + more;
      assert LineText(ps, tail) == w + s;
      WhiteSkipped(w, s);
      LineGoesOn(ps, tail);
      ArgumentFound(a, more);
      TokensBehind(AfterToken(s), more, room - 1);
      ArgumentsFound(ps[1..], tail, room - 1);
    }
  }

  lemma NothingLeft()
    ensures SkipSpaces([]) == []
  {
  }

  /** What follows a bare argument starts with white space. */
  lemma LineGoesOn(ps: seq<Placement>, tail: Text)
    requires ps != [] && ValidLine(ps, tail)
    ensures var more := LineText(ps[1..], tail);
      ValidLine(ps[1..], tail) && (ps[0].arg.Bare? && more != [] ==> Blank(more[0]))
  {
    if |ps| > 1 && ps[0].arg.Bare? {
      assert ps[1].before != [];
      assert LineText(ps[1..], tail)[0] == ps[1].before[0];
    }
  }
}
