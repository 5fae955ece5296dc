/** What the SQL splitter does, said in characters: what it strips, where it cuts, and what it returns. */
module SqlPlain {
  import opened Wrappers
  import opened SqlText
  import opened SqlRunner
  import opened SqlLaws

  // ---- White space ----

  /** The code points of Python's white space. */
  const WHITE_SPACE: set<int> :=
    {9, 10, 11, 12, 13, 28, 29, 30, 31, 32, 0x85, 0xa0, 0x1680,
     0x2000, 0x2001, 0x2002, 0x2003, 0x2004, 0x2005, 0x2006, 0x2007, 0x2008, 0x2009, 0x200a,
     0x2028, 0x2029, 0x202f, 0x205f, 0x3000}

  ghost predicate White(s: string) {
    forall i :: 0 <= i < |s| ==> s[i] as int in WHITE_SPACE
  }

  /** The text is the middle of a piece whose white space at both ends has been taken off, all of it and
      nothing else. */
  ghost predicate IsMiddle(t: string, piece: string) {
    && (exists w: string, v: string :: White(w) && White(v) && piece == w + t + v)
    && (t != [] ==> t[0] as int !in WHITE_SPACE && t[|t| - 1] as int !in WHITE_SPACE)
  }

  lemma {:induction false} SpaceIsWhite(s: string)
    ensures AllSpace(s) <==> White(s)
  {
    forall i | 0 <= i < |s| ensures IsSpace(s[i]) <==> s[i] as int in WHITE_SPACE {
    }
  }

  lemma {:induction false} StripIsMiddle(s: string)
    ensures IsMiddle(Strip(s), s)
  {
    var w, v := StripSplits(s);
    SpaceIsWhite(w);
    SpaceIsWhite(v);
    hide WHITE_SPACE;
    var t := Strip(s);
    if t != [] {
      assert IsSpace(t[0]) <==> t[0] as int in WHITE_SPACE by {
        SpaceIsWhite([t[0]]);
        assert [t[0]][0] == t[0];
      }
      assert IsSpace(t[|t| - 1]) <==> t[|t| - 1] as int in WHITE_SPACE by {
        SpaceIsWhite([t[|t| - 1]]);
        assert [t[|t| - 1]][0] == t[|t| - 1];
      }
    }
  }

  /** A visible ASCII character of a text lies inside its stripped middle. */
  lemma {:induction false} VisibleIsKept(s: string, i: nat)
    requires i < |s| && 0x21 <= s[i] as int <= 0x7e
    ensures exists a: nat, b: nat :: a <= i < b <= |s| && Strip(s) == s[a..b]
  {
    StripIsMiddle(s);
    var t := Strip(s);
    var w: string, v: string :| White(w) && White(v) && s == w + t + v;
    assert forall j :: 0 <= j < |w| ==> s[j] == w[j];
    assert forall j :: 0 <= j < |v| ==> s[|w| + |t| + j] == v[j];
    assert s[|w|..|w| + |t|] == t;
  }

  // ---- What is returned ----

  /** The filter's verdict on a piece. */
  ghost predicate HasCode(piece: string) {
    !OnlySpaceAndPyComments(Strip(piece))
  }

  predicate Kept1(piece: string) {
    IsKept(Strip(piece))
  }

  lemma {:induction false} StatementsAt(pieces: seq<string>)
    ensures var at := Positions(pieces, Kept1);
            |Statements(pieces)| == |at|
            && forall k :: 0 <= k < |at| ==> Statements(pieces)[k] == Strip(pieces[at[k]])
  {
    if pieces != [] {
      var n := |pieces| - 1;
      StatementsAt(pieces[..n]);
      hide Statements, Strip, IsKept;
      StatementsAppend(pieces[..n], pieces[n]);
      assert pieces == pieces[..n] + [pieces[n]];
    } else {
      assert Statements(pieces) == [];
    }
  }

  /** The statements returned are the pieces between the delimiters that are more than white space and
      comments, all of them, in order, each without the white space at its ends. */
  lemma {:induction false} StatementsAreMiddles(sql: string)
    ensures var pieces := Pieces(Normal, [], sql);
            var at := Positions(pieces, Kept1);
            && (forall i :: 0 <= i < |pieces| ==> (i in at <==> HasCode(pieces[i])))
            && |Split(sql)| == |at|
            && forall k :: 0 <= k < |at| ==> Split(sql)[k] != [] && IsMiddle(Split(sql)[k], pieces[at[k]])
  {
    var pieces := Pieces(Normal, [], sql);
    StatementsAt(pieces);
    var at := Positions(pieces, Kept1);
    forall i | 0 <= i < |pieces| ensures Kept1(pieces[i]) <==> HasCode(pieces[i]) {
      FilterIsExact(Strip(pieces[i]));
    }
    forall k | 0 <= k < |at| ensures Split(sql)[k] != [] && IsMiddle(Split(sql)[k], pieces[at[k]]) {
      StripIsMiddle(pieces[at[k]]);
      KeptIsNotEmpty(Strip(pieces[at[k]]));
    }
  }

  // ---- Where a text stands ----

  ghost predicate HasText(s: string, pattern: string) {
    exists k :: OccursAt(s, pattern, k)
  }

  /** Without a quote, "--" and the start mark of a block comment a text stays ordinary. */
  lemma {:induction false} PlainTextIsOrdinary(t: string)
    requires '\'' !in t && !HasText(t, "--") && !HasText(t, "/*")
    ensures ModeAfter(Normal, t).Ordinary()
    ensures ModeAfter(Normal, t) == Minus ==> t != [] && t[|t| - 1] == '-'
    ensures ModeAfter(Normal, t) == Slash ==> t != [] && t[|t| - 1] == '/'
  {
    if t != [] {
      var n := |t| - 1;
      forall pattern, k | OccursAt(t[..n], pattern, k) ensures OccursAt(t, pattern, k) {
        assert t[..n][k..k + |pattern|] == t[k..k + |pattern|];
      }
      PlainTextIsOrdinary(t[..n]);
      assert t == t[..n] + [t[n]];
      ModeAppend(Normal, t[..n], [t[n]]);
      ConsumeOne(ModeAfter(Normal, t[..n]), t[n]);
      if n > 0 {
        assert t[n - 1..n + 1] == [t[n - 1], t[n]];
        assert t[..n][n - 1] == t[n - 1];
        assert !OccursAt(t, "--", n - 1) && !OccursAt(t, "/*", n - 1);
      }
    }
  }

  /** Behind ordinary text a quote opens a literal, which only a quote ends. */
  lemma {:induction false} QuoteOpensLiteral(p: string, t: string)
    requires ModeAfter(Normal, p).Ordinary() && '\'' !in t
    ensures ModeAfter(Normal, p + "'" + t) == Str
    ensures ModeAfter(Normal, p + "'" + t + "'") == Normal
  {
    ModeAppend(Normal, p, "'");
    ConsumeOne(ModeAfter(Normal, p), '\'');
    ModeAppend(Normal, p + "'", t);
    LiteralStays(t);
    ModeAppend(Normal, p + "'" + t, "'");
    ConsumeOne(Str, '\'');
  }

  lemma {:induction false} LiteralStays(t: string)
    requires '\'' !in t
    ensures ModeAfter(Str, t) == Str
  {
    if t != [] {
      LiteralStays(t[1..]);
    }
  }

  /** Behind ordinary text "--" opens a comment, which only a line feed ends. */
  lemma {:induction false} DashesOpenComment(p: string, t: string)
    requires ModeAfter(Normal, p).Ordinary() && '\n' !in t
    ensures ModeAfter(Normal, p + "--" + t) == Line
    ensures ModeAfter(Normal, p + "--" + t + "\n") == Normal
  {
    var m := ModeAfter(Normal, p);
    ModeAppend(Normal, p, "--");
    assert "--" == ['-'] + ['-'];
    ModeAppend(m, ['-'], ['-']);
    ConsumeOne(m, '-');
    ConsumeOne(Step(m, '-'), '-');
    ModeAppend(Normal, p + "--", t);
    LineStays(t);
    ModeAppend(Normal, p + "--" + t, "\n");
    ConsumeOne(Line, '\n');
  }

  /** Behind ordinary text a start mark opens a block comment, which only an end mark ends. */
  lemma {:induction false} MarkOpensBlock(p: string, t: string)
    requires ModeAfter(Normal, p).Ordinary() && !HasText(t, "*/")
    ensures ModeAfter(Normal, p + "/*" + t) == Block || ModeAfter(Normal, p + "/*" + t) == Star
    ensures ModeAfter(Normal, p + "/*" + t + "*/") == Normal
  {
    var m := ModeAfter(Normal, p);
    ModeAppend(Normal, p, "/*");
    assert "/*" == ['/'] + ['*'];
    ModeAppend(m, ['/'], ['*']);
    ConsumeOne(m, '/');
    ConsumeOne(Slash, '*');
    ModeAppend(Normal, p + "/*", t);
    PairIsText(t);
    BlockStays(Block, t);
    BlockCloses(p + "/*" + t);
  }

  lemma {:induction false} PairIsText(t: string)
    ensures HasPair(t) ==> HasText(t, "*/")
  {
    if k :| PairAt(t, k) {
      assert t[k..k + 2] == [t[k], t[k + 1]];
      assert OccursAt(t, "*/", k);
    }
  }

  lemma {:induction false} BlockCloses(s: string)
    requires ModeAfter(Normal, s) == Block || ModeAfter(Normal, s) == Star
    ensures ModeAfter(Normal, s + "*/") == Normal
  {
    var m := ModeAfter(Normal, s);
    ModeAppend(Normal, s, "*/");
    assert "*/" == ['*'] + ['/'];
    ModeAppend(m, ['*'], ['/']);
    ConsumeOne(m, '*');
    ConsumeOne(Star, '/');
  }

  // ---- Line breaks ----

  const LINE_BREAKS: set<int> := {10, 11, 12, 13, 28, 29, 30, 0x85, 0x2028, 0x2029}

  /** Which characters end a comment for the filter: the text behind it then counts as code. */
  lemma {:induction false} BreaksEndComments(c: char)
    ensures IsKept("--a" + [c] + "b") <==> c as int in LINE_BREAKS
  {
    var s := "--a" + [c] + "b";
    FilterIsExact(s);
    assert !IsSpace('-') && StartsComment(s);
    BreakPosition(c);
    if IsLineBreak(c) {
      assert AfterBreak(s) == "b";
    } else {
      assert AfterBreak(s) == [];
    }
  }

  lemma {:induction false} BreakPosition(c: char)
    ensures FirstBreak("--a" + [c] + "b") == if IsLineBreak(c) then 3 else 5
  {
    var s := "--a" + [c] + "b";
    var k := FirstBreak(s);
    assert s[0] == '-' && s[1] == '-' && s[2] == 'a' && s[3] == c && s[4] == 'b' && |s| == 5;
  }

  // ---- An example ----

  const EXAMPLE := " \tSELECT 1 ;\n -- x"

  /** White space goes, the comment behind the delimiter is dropped. */
  lemma {:induction false} ExampleSplits()
    ensures Split(EXAMPLE) == ["SELECT 1"]
  {
    hide IsKept, Statements, Strip, OnlySpaceAndPyComments, Pieces, Block1;
    ExamplePieces();
    HeadBlock();
    TailBlock();
    StatementsOfTwo(" \tSELECT 1 ", "\n -- x");
  }

  lemma {:induction false} ExamplePieces()
    ensures Pieces(Normal, [], EXAMPLE) == [" \tSELECT 1 ", "\n -- x"]
  {
    var head, tail := " \tSELECT 1 ", "\n -- x";
    hide Pieces;
    assert EXAMPLE == head + (";" + tail);
    TailIsOnePiece();
    NoMarks(head, ";" + tail);
    CutOff(head, tail);
  }

  lemma {:induction false} CutOff(current: string, rest: string)
    ensures Pieces(Normal, current, ";" + rest) == [current] + Pieces(Normal, [], rest)
  {
    assert (";" + rest)[1..] == rest;
  }

  lemma {:induction false} StatementsOfTwo(a: string, b: string)
    ensures Statements([a, b]) == Block1(a) + Block1(b)
  {
    hide Block1;
    assert [a, b][1..] == [b] && [b][1..] == [];
    assert Statements([b]) == Block1(b) + Statements([]);
  }

  /** A stretch without any mark stays in the piece. */
  lemma {:induction false} NoMarks(t: string, rest: string)
    requires forall i :: 0 <= i < |t| ==> t[i] !in "-/*';"
    ensures Pieces(Normal, [], t + rest) == Pieces(Normal, t, rest)
  {
    UnmarkedStays(t);
    Consume(Normal, [], t, rest);
    assert [] + t == t;
  }

  lemma {:induction false} UnmarkedStays(t: string)
    requires forall i :: 0 <= i < |t| ==> t[i] !in "-/*';"
    ensures NoDelimiter(Normal, t) && ModeAfter(Normal, t) == Normal
  {
    if t != [] {
      UnmarkedStays(t[1..]);
    }
  }

  lemma {:induction false} TailIsOnePiece()
    ensures Pieces(Normal, [], "\n -- x") == ["\n -- x"]
  {
    NoMarks("\n ", "-- x");
    assert "-- x" == "-- x" + [];
    assert "-- x"[..2] == "--";
    LineCommentMode(Normal, "-- x", false);
    Consume(Normal, "\n ", "-- x", []);
    assert "\n " + "-- x" == "\n -- x";
    assert Pieces(Line, "\n -- x", []) == ["\n -- x"];
  }

  lemma {:induction false} HeadBlock()
    ensures Block1(" \tSELECT 1 ") == ["SELECT 1"]
  {
    var w, t, v := " \t", "SELECT 1", " ";
    assert AllSpace(w) && AllSpace(v) && Trimmed(t);
    assert " \tSELECT 1 " == w + t + v;
    StripDrops(w, t, v);
    FilterIsExact(t);
    assert !IsSpace(t[0]) && !StartsComment(t);
    hide Strip, IsKept;
  }

  lemma {:induction false} TailBlock()
    ensures Block1("\n -- x") == []
  {
    var w, t: string, v := "\n ", "-- x", [];
    assert AllSpace(w) && AllSpace(v) && Trimmed(t);
    assert "\n -- x" == w + t + v;
    StripDrops(w, t, v);
    FilterIsExact(t);
    OneComment();
    hide Strip, IsKept, OnlySpaceAndPyComments;
  }

  lemma {:induction false} OneComment()
    ensures OnlySpaceAndPyComments("-- x")
  {
    var t := "-- x";
    var k := FirstBreak(t);
    assert t[0] == '-' && t[1] == '-' && t[2] == ' ' && t[3] == 'x' && |t| == 4;
    assert AfterBreak(t) == [];
  }
}
