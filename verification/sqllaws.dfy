/** What the SQL splitter promises: where it cuts, that cutting loses nothing, that its output can be
    joined and split again, and which blocks its filter drops. */
module SqlLaws {
  import opened SqlText
  import opened SqlRunner

  // ---- The cuts ----

  /** Position k of the text rebuilt from these pieces is one of the cuts. */
  ghost predicate IsCut(pieces: seq<string>, k: int)
    decreases |pieces|
  {
    |pieces| > 1 && (k == |pieces[0]| || IsCut(pieces[1..], k - |pieces[0]| - 1))
  }

  lemma {:induction false} CutsAreNotNegative(pieces: seq<string>, k: int)
    requires k < 0
    ensures !IsCut(pieces, k)
    decreases |pieces|
  {
    if |pieces| > 1 {
      CutsAreNotNegative(pieces[1..], k - |pieces[0]| - 1);
    }
  }

  lemma {:induction false} CutsFrom(m: Mode, current: string, s: string, k: nat)
    requires k < |s|
    ensures IsCut(Pieces(m, current, s), |current| + k) <==> IsDelimiter(m, s, k)
    decreases |s|
  {
    var cut := s[0] == ';' && m.Ordinary();
    if cut {
      var rest := Pieces(Normal, [], s[1..]);
      assert ([current] + rest)[1..] == rest;
      if k == 0 {
        assert s[..0] == [];
      } else {
        assert s[..k][1..] == s[1..][..k - 1];
        CutsFrom(Normal, [], s[1..], k - 1);
      }
    } else if k == 0 {
      assert s[..0] == [];
      NoCutInside(Step(m, s[0]), current + [s[0]], s[1..], |current|);
    } else {
      assert s[..k][1..] == s[1..][..k - 1];
      CutsFrom(Step(m, s[0]), current + [s[0]], s[1..], k - 1);
    }
  }

  lemma {:induction false} NoCutInside(m: Mode, current: string, s: string, k: nat)
    requires k < |current|
    ensures !IsCut(Pieces(m, current, s), k)
    decreases |s|
  {
    if s == [] {
    } else if s[0] == ';' && m.Ordinary() {
      var rest := Pieces(Normal, [], s[1..]);
      assert ([current] + rest)[1..] == rest;
      CutsAreNotNegative(rest, k - |current| - 1);
    } else {
      NoCutInside(Step(m, s[0]), current + [s[0]], s[1..], k);
    }
  }

  lemma {:induction false} PiecesJoin(m: Mode, current: string, s: string)
    ensures Join(Pieces(m, current, s), ";") == current + s
    decreases |s|
  {
    if s == [] {
    } else if s[0] == ';' && m.Ordinary() {
      var rest := Pieces(Normal, [], s[1..]);
      PiecesJoin(Normal, [], s[1..]);
      assert ([current] + rest)[1..] == rest;
      assert ";" == [s[0]];
      assert s == [s[0]] + s[1..];
      assert current + ";" + s[1..] == current + s;
    } else {
      PiecesJoin(Step(m, s[0]), current + [s[0]], s[1..]);
    }
  }

  /** A ';' is a delimiter exactly when the automaton is in ordinary text there, and cutting loses
      nothing: the raw pieces joined by ';' are the input. */
  lemma {:induction false} CutsAreExact(sql: string)
    ensures forall k :: 0 <= k < |sql| ==> (IsCut(Pieces(Normal, [], sql), k) <==> IsDelimiter(Normal, sql, k))
    ensures Join(Pieces(Normal, [], sql), ";") == sql
  {
    forall k | 0 <= k < |sql|
      ensures IsCut(Pieces(Normal, [], sql), k) <==> IsDelimiter(Normal, sql, k)
    {
      CutsFrom(Normal, [], sql, k);
    }
    PiecesJoin(Normal, [], sql);
  }

  // ---- Splitting again ----

  /** After a line feed a reader of this text is in ordinary text again. */
  predicate Closed(t: string) {
    ModeAfter(Normal, t).Ordinary() || ModeAfter(Normal, t) == Line
  }

  ghost predicate GoodStatement(t: string) {
    Trimmed(t) && IsKept(t) && NoDelimiter(Normal, t)
  }

  /** Statements that can be joined: only the last one may be left open. */
  ghost predicate GoodList(ts: seq<string>) {
    (forall i :: 0 <= i < |ts| ==> GoodStatement(ts[i])) && (forall i :: 0 <= i < |ts| - 1 ==> Closed(ts[i]))
  }

  /** A piece no ';' of which is a delimiter, closed when it is followed by one. */
  ghost predicate GoodPieces(ps: seq<string>) {
    && (forall i :: 0 <= i < |ps| ==> NoDelimiter(Normal, ps[i]))
    && (forall i :: 0 <= i < |ps| - 1 ==> ModeAfter(Normal, ps[i]).Ordinary())
  }

  lemma {:induction false} PiecesAreGood(m: Mode, current: string, s: string)
    requires NoDelimiter(Normal, current) && ModeAfter(Normal, current) == m
    ensures GoodPieces(Pieces(m, current, s))
    decreases |s|
  {
    if s == [] {
    } else if s[0] == ';' && m.Ordinary() {
      PiecesAreGood(Normal, [], s[1..]);
    } else {
      ModeAppend(Normal, current, [s[0]]);
      ConsumeOne(m, s[0]);
      PiecesAreGood(Step(m, s[0]), current + [s[0]], s[1..]);
    }
  }

  lemma {:induction false} SpacesKeepNormal(w: string)
    requires AllSpace(w)
    ensures ModeAfter(Normal, w) == Normal && NoDelimiter(Normal, w)
  {
    if w != [] {
      SpacesKeepNormal(w[1..]);
    }
  }

  lemma {:induction false} SpacesKeepOpen(m: Mode, v: string)
    requires AllSpace(v) && (m == Block || m == Star || m == Str)
    ensures !ModeAfter(m, v).Ordinary()
    decreases |v|
  {
    if v != [] {
      SpacesKeepOpen(Step(m, v[0]), v[1..]);
    }
  }

  lemma {:induction false} StripKeepsGood(p: string)
    requires NoDelimiter(Normal, p)
    ensures Trimmed(Strip(p)) && NoDelimiter(Normal, Strip(p))
    ensures ModeAfter(Normal, p).Ordinary() ==> Closed(Strip(p))
  {
    var w, v := StripSplits(p);
    var t := Strip(p);
    assert p == w + (t + v);
    ModeAppend(Normal, w, t + v);
    SpacesKeepNormal(w);
    ModeAppend(Normal, t, v);
    var end := ModeAfter(Normal, t);
    if end == Block || end == Star || end == Str {
      SpacesKeepOpen(end, v);
    }
  }

  lemma {:induction false} StatementsAreGood(ps: seq<string>)
    requires GoodPieces(ps)
    ensures GoodList(Statements(ps))
    decreases |ps|
  {
    if ps != [] {
      StatementsAreGood(ps[1..]);
      StripKeepsGood(ps[0]);
      var rest := Statements(ps[1..]);
      if |ps| == 1 {
        assert rest == [];
      } else {
        assert ModeAfter(Normal, ps[0]).Ordinary();
      }
    }
  }

  lemma {:induction false} KeptIsNotEmpty(t: string)
    requires IsKept(t)
    ensures t != []
  {
  }

  lemma {:induction false} OnePiece(w: string, t: string, v: string)
    requires AllSpace(w) && AllSpace(v) && GoodStatement(t)
    ensures Block1(w + t + v) == [t]
  {
    KeptIsNotEmpty(t);
    StripDrops(w, t, v);
  }

  /** Reading "t, line feed, ';', line feed" behind white space finishes the piece of t. */
  lemma {:induction false} ReadClosed(w: string, t: string, rest: string)
    requires GoodStatement(t) && Closed(t)
    ensures Pieces(Normal, w, t + "\n;\n" + rest) == [w + t + "\n"] + Pieces(Normal, "\n", rest)
  {
    var tail := ";\n" + rest;
    assert t + "\n;\n" + rest == t + ("\n" + tail);
    Consume(Normal, w, t, "\n" + tail);
    var m := ModeAfter(Normal, t);
    ConsumeOne(m, '\n');
    Consume(m, w + t, "\n", tail);
    assert Step(m, '\n') == Normal;
    assert tail[0] == ';' && tail[1..] == "\n" + rest;
    ConsumeOne(Normal, '\n');
    Consume(Normal, [], "\n", rest);
    assert [] + "\n" == "\n";
  }

  lemma {:induction false} ResplitFrom(ts: seq<string>, w: string)
    requires GoodList(ts) && AllSpace(w)
    ensures Statements(Pieces(Normal, w, Join(ts, "\n;\n"))) == ts
    decreases |ts|
  {
    if ts == [] {
      StripSpace(w);
      assert Statements([w]) == Block1(w) + Statements([w][1..]);
    } else if |ts| == 1 {
      var t := ts[0];
      assert GoodStatement(t);
      assert t + [] == t;
      Consume(Normal, w, t, []);
      OnePiece(w, t, []);
      assert w + t + [] == w + t;
      assert Statements([w + t]) == Block1(w + t) + Statements([w + t][1..]);
    } else {
      var t := ts[0];
      assert GoodStatement(t) && Closed(t);
      var rest := Join(ts[1..], "\n;\n");
      assert GoodList(ts[1..]) by {
        assert forall i :: 0 <= i < |ts[1..]| ==> ts[1..][i] == ts[i + 1];
      }
      ReadClosed(w, t, rest);
      OnePiece(w, t, "\n");
      ResplitFrom(ts[1..], "\n");
      var pieces := Pieces(Normal, "\n", rest);
      assert ([w + t + "\n"] + pieces)[1..] == pieces;
      assert ts == [t] + ts[1..];
    }
  }

  /** Splitting again: joining the returned statements with a ';' on its own line and splitting the
      result gives the same statements back, for every input, also when statements end in line
      comments or the last one is left open. */
  lemma {:induction false} ResplitRoundTrip(sql: string)
    ensures Split(Join(Split(sql), "\n;\n")) == Split(sql)
  {
    PiecesAreGood(Normal, [], sql);
    StatementsAreGood(Pieces(Normal, [], sql));
    ResplitFrom(Split(sql), []);
  }

  // ---- The filter ----

  /** The text after the first line feed, empty when there is none. */
  function AfterLine(s: string): (r: string)
    ensures |r| <= |s| && (s != [] ==> |r| < |s|)
  {
    if s == [] then [] else if s[0] == '\n' then s[1..] else AfterLine(s[1..])
  }

  /** The text before the first line feed. */
  function LineText(s: string): (r: string)
    ensures '\n' !in r
    ensures s == r || s == r + "\n" + AfterLine(s)
    ensures AfterLine(s) != [] ==> s == r + "\n" + AfterLine(s)
  {
    if s == [] || s[0] == '\n' then []
    else
      assert s == [s[0]] + s[1..];
      [s[0]] + LineText(s[1..])
  }

  predicate StartsComment(s: string) {
    |s| >= 2 && s[0] == '-' && s[1] == '-'
  }

  /** Token by token, the text is nothing but white space and line comments as the scanner reads them,
      to the next line feed. */
  predicate OnlySpaceAndLineComments(s: string)
    decreases |s|
  {
    if s == [] then true
    else if IsSpace(s[0]) then OnlySpaceAndLineComments(s[1..])
    else StartsComment(s) && OnlySpaceAndLineComments(AfterLine(s))
  }

  /** The text behind the first line break of any kind, empty when there is none. */
  function AfterBreak(s: string): (r: string)
    ensures |r| <= |s| && (s != [] ==> |r| < |s|)
  {
    var k := FirstBreak(s);
    if k == |s| then [] else s[k + 1..]
  }

  /** The same with comments that end at any of Python's line breaks. */
  predicate OnlySpaceAndPyComments(s: string)
    decreases |s|
  {
    if s == [] then true
    else if IsSpace(s[0]) then OnlySpaceAndPyComments(s[1..])
    else StartsComment(s) && OnlySpaceAndPyComments(AfterBreak(s))
  }

  lemma {:induction false} LeadingSpaceInLine(c: char, line: string)
    requires IsSpace(c)
    ensures IsCodeLine([c] + line) <==> IsCodeLine(line)
  {
  }

  lemma {:induction false} RStripKeeps(s: string, i: nat)
    requires i < |s| && !IsSpace(s[i])
    ensures i < |RStrip(s)|
  {
    if IsSpace(s[|s| - 1]) {
      RStripKeeps(s[..|s| - 1], i);
    }
  }

  lemma {:induction false} RStripPrefix(s: string)
    ensures RStrip(s) <= s
  {
    if s != [] && IsSpace(s[|s| - 1]) {
      RStripPrefix(s[..|s| - 1]);
    }
  }

  lemma {:induction false} CodeLineByStart(line: string)
    requires line != [] && !IsSpace(line[0])
    ensures IsCodeLine(line) <==> !StartsComment(line)
  {
    var t := RStrip(line);
    RStripKeeps(line, 0);
    if |line| >= 2 && line[1] == '-' {
      RStripKeeps(line, 1);
    }
    RStripPrefix(line);
    if |t| >= 2 {
      assert t[..2] == [t[0], t[1]];
    }
  }

  lemma {:induction false} BlankLine()
    ensures !IsCodeLine([])
  {
  }

  lemma {:induction false} KeptCons(line: string, lines: seq<string>)
    ensures AnyCode([line] + lines) <==> IsCodeLine(line) || AnyCode(lines)
  {
  }

  lemma {:induction false} SingleLine(c: string)
    requires FirstBreak(c) == |c|
    ensures IsKept(c) <==> IsCodeLine(c)
  {
    BlankLine();
    if c != [] {
      assert SplitLines(c) == [c] + [];
      KeptCons(c, []);
    }
  }

  /** One step of splitlines: the first line, and the rest behind its break. */
  lemma {:induction false} FirstLine(s: string, k: nat)
    requires k == FirstBreak(s) < |s|
    ensures s[k] == '\r' && k + 1 < |s| && s[k + 1] == '\n' ==>
              (IsKept(s) <==> IsCodeLine(s[..k]) || IsKept(s[k + 2..]))
    ensures !(s[k] == '\r' && k + 1 < |s| && s[k + 1] == '\n') ==>
              (IsKept(s) <==> IsCodeLine(s[..k]) || IsKept(s[k + 1..]))
  {
  }

  /** A white-space character in front does not change whether a block is kept. */
  lemma {:induction false} LeadingSpace(s: string)
    requires s != [] && IsSpace(s[0])
    ensures IsKept(s) <==> IsKept(s[1..])
  {
    hide SplitLines, IsKept, IsCodeLine;
    var k, r := FirstBreak(s), s[1..];
    BlankLine();
    if k == 0 {
      FirstLine(s, 0);
      assert s[..0] == [];
      if s[0] == '\r' && 1 < |s| && s[1] == '\n' {
        FirstLine(r, 0);
        assert r[..0] == [] && r[1..] == s[2..];
      }
    } else if k == |s| {
      assert s == [s[0]] + r;
      LeadingSpaceInLine(s[0], r);
      SingleLine(s);
      SingleLine(r);
    } else {
      assert FirstBreak(r) == k - 1;
      assert s[..k] == [s[0]] + r[..k - 1];
      LeadingSpaceInLine(s[0], r[..k - 1]);
      FirstLine(s, k);
      FirstLine(r, k - 1);
      assert r[k..] == s[k + 1..];
      if k + 1 < |s| {
        assert r[k + 1..] == s[k + 2..];
      }
    }
  }

  /** A text that does not start with white space is kept when its first line is a code line, or the
      text behind that line is kept. */
  lemma {:induction false} KeptByFirstLine(s: string)
    requires s != [] && !IsSpace(s[0])
    ensures IsKept(s) <==> !StartsComment(s) || IsKept(AfterBreak(s))
  {
    var k := FirstBreak(s);
    var line := s[..k];
    assert k > 0 && line[0] == s[0];
    CodeLineByStart(line);
    if k >= 2 {
      assert line[1] == s[1];
    }
    hide SplitLines, IsKept, IsCodeLine;
    SingleLine([]);
    BlankLine();
    if k == |s| {
      assert s[..k] == s;
      SingleLine(s);
    } else {
      FirstLine(s, k);
      if s[k] == '\r' && k + 1 < |s| && s[k + 1] == '\n' {
        LeadingSpace(s[k + 1..]);
        assert s[k + 1..][1..] == s[k + 2..];
      }
    }
  }

  /** The line-based filter, exactly, for every text: a block is dropped if and only if it consists of
      white space and comments that run from "--" to the next line break of any kind. */
  lemma {:induction false} FilterIsExact(s: string)
    ensures !IsKept(s) <==> OnlySpaceAndPyComments(s)
    decreases |s|
  {
    if s == [] {
    } else if IsSpace(s[0]) {
      LeadingSpace(s);
      FilterIsExact(s[1..]);
    } else {
      KeptByFirstLine(s);
      FilterIsExact(AfterBreak(s));
    }
  }

  // ---- The filter and the scanner's comments ----

  /** The scanner's end of a line is the first line feed, behind any other breaks. */
  lemma {:induction false} AfterLineByBreak(s: string)
    ensures var k := FirstBreak(s);
            AfterLine(s) == if k < |s| && s[k] != '\n' then AfterLine(AfterBreak(s)) else AfterBreak(s)
  {
    if s != [] && !IsLineBreak(s[0]) {
      AfterLineByBreak(s[1..]);
    }
  }

  lemma {:induction false} SkipToLine(s: string)
    requires OnlySpaceAndPyComments(s)
    ensures OnlySpaceAndPyComments(AfterLine(s))
    decreases |s|
  {
    if s == [] || s[0] == '\n' {
    } else if IsSpace(s[0]) {
      SkipToLine(s[1..]);
    } else {
      AfterLineByBreak(s);
      SkipToLine(AfterBreak(s));
    }
  }

  lemma {:induction false} PyCommentsAreLineComments(s: string)
    requires OnlySpaceAndPyComments(s)
    ensures OnlySpaceAndLineComments(s)
    decreases |s|
  {
    if s == [] {
    } else if IsSpace(s[0]) {
      PyCommentsAreLineComments(s[1..]);
    } else {
      AfterLineByBreak(s);
      SkipToLine(AfterBreak(s));
      PyCommentsAreLineComments(AfterLine(s));
    }
  }

  /** Whatever the filter drops is comment-only for the scanner too, whose comments end at line feeds. */
  lemma {:induction false} DroppedIsCommentOnly(s: string)
    requires !IsKept(s)
    ensures OnlySpaceAndLineComments(s)
  {
    FilterIsExact(s);
    PyCommentsAreLineComments(s);
  }

  lemma {:induction false} SameCommentsByLineFeed(s: string)
    requires forall i :: 0 <= i < |s| ==> IsLineBreak(s[i]) ==> s[i] == '\n'
    ensures OnlySpaceAndPyComments(s) <==> OnlySpaceAndLineComments(s)
    decreases |s|
  {
    if s == [] {
    } else if IsSpace(s[0]) {
      SameCommentsByLineFeed(s[1..]);
    } else {
      AfterLineByBreak(s);
      SameCommentsByLineFeed(AfterBreak(s));
    }
  }

  /** With line feeds as the only line breaks the line-based filter is the token-based one: a block is
      dropped exactly when it consists of white space and the scanner's line comments. */
  lemma {:induction false} FilterIsTokenBased(s: string)
    requires forall i :: 0 <= i < |s| ==> IsLineBreak(s[i]) ==> s[i] == '\n'
    ensures !IsKept(s) <==> OnlySpaceAndLineComments(s)
  {
    FilterIsExact(s);
    SameCommentsByLineFeed(s);
  }

  /** A comment with a Unicode line separator, which reading a file leaves in place. */
  const SEPARATED := "--a\U{2028}b"

  lemma {:induction false} SeparatedIsComment()
    ensures OnlySpaceAndLineComments(SEPARATED) && !OnlySpaceAndPyComments(SEPARATED)
  {
    var s := SEPARATED;
    assert AfterLine(s) == [] by {
      assert s[1..][1..][1..][1..][1..] == [];
    }
    assert AfterBreak(s) == "b" by {
      assert s[1..][1..][1..][1..] == "b";
    }
  }

  /** With other line breaks it is not: the scanner ends a comment at a line feed only, the filter sees a
      second line behind the separator, and a block that is one comment is returned as a statement. */
  lemma {:induction false} FilterDiffersOnLineSeparator()
    ensures OnlySpaceAndLineComments(SEPARATED)
    ensures Split(SEPARATED) == [SEPARATED]
  {
    hide IsKept, OnlySpaceAndLineComments, OnlySpaceAndPyComments;
    var s := SEPARATED;
    SeparatedIsComment();
    FilterIsExact(s);
    LineCommentMode(Normal, s, false);
    assert s + [] == s && [] + s == s;
    Consume(Normal, [], s, []);
    StripDrops([], s, []);
    assert Statements([s]) == Block1(s) + Statements([s][1..]);
  }

  lemma {:induction false} LineTextPrefix(s: string)
    requires |s| >= 2 && s[0] != '\n' && s[1] != '\n'
    ensures |LineText(s)| >= 2 && LineText(s)[..2] == s[..2]
  {
  }

  /** The automaton never leaves ordinary text and line comments in a text of that kind. */
  lemma {:induction false} DroppedHasNoQuotedText(s: string, k: nat)
    requires OnlySpaceAndLineComments(s) && k <= |s|
    ensures var m := ModeAfter(Normal, s[..k]); m == Normal || m == Minus || m == Line
    decreases |s|
  {
    if k == 0 || s == [] {
      assert s[..k] == [];
    } else if IsSpace(s[0]) {
      assert s[..k] == [s[0]] + s[1..][..k - 1];
      ModeAppend(Normal, [s[0]], s[1..][..k - 1]);
      ConsumeOne(Normal, s[0]);
      DroppedHasNoQuotedText(s[1..], k - 1);
    } else {
      var c, y := LineText(s), AfterLine(s);
      LineTextPrefix(s);
      assert c[0] == c[..2][0] == '-' && c[1] == c[..2][1] == '-';
      if k <= |c| {
        assert s[..k] == c[..k];
        if k == 1 {
          assert c[..1] == ['-'];
          ConsumeOne(Normal, '-');
        } else {
          assert c[..k][..2] == "--";
          LineCommentMode(Normal, c[..k], false);
        }
      } else {
        assert s == c + "\n" + y;
        assert s[..k] == (c + "\n") + y[..k - |c| - 1];
        LineCommentMode(Normal, c + "\n", true);
        ModeAppend(Normal, c + "\n", y[..k - |c| - 1]);
        DroppedHasNoQuotedText(y, k - |c| - 1);
      }
    }
  }

  /** A block is never dropped because of "--" inside a string literal or a block comment: wherever the
      automaton is inside one, the block is kept. */
  lemma {:induction false} QuotedTextIsKept(s: string, k: nat)
    requires k <= |s|
    requires var m := ModeAfter(Normal, s[..k]); m == Str || m == Block || m == Star
    ensures IsKept(s)
  {
    if !IsKept(s) {
      DroppedIsCommentOnly(s);
      DroppedHasNoQuotedText(s, k);
    }
  }
}
