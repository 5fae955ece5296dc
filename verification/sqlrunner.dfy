/** The SQL statement splitter of the Flink jobs (flink/jobs/flink_lib/sql_runner.py). */
module SqlRunner {
  import opened SqlText

  // ---- The lexical automaton ----

  /** Where a left-to-right reader of one character at a time is: in ordinary text (Minus and Slash
      remember a '-' or '/' just read there), in a line comment, in a block comment (Star remembers
      a '*' just read there), or in a string literal. */
  datatype Mode = Normal | Minus | Slash | Line | Block | Star | Str {
    predicate Ordinary() {
      Normal? || Minus? || Slash?
    }
  }

  /** One character. Quotes simply toggle, so a doubled quote leaves and re-enters the literal; block
      comments do not nest. */
  function Step(m: Mode, c: char): Mode {
    match m
    case Line => if c == '\n' then Normal else Line
    case Block => if c == '*' then Star else Block
    case Star => if c == '/' then Normal else if c == '*' then Star else Block
    case Str => if c == '\'' then Normal else Str
    case _ =>
      if c == '-' then (if m.Minus? then Line else Minus)
      else if c == '/' then Slash
      else if c == '*' && m.Slash? then Block
      else if c == '\'' then Str
      else Normal
  }

  function ModeAfter(m: Mode, s: string): Mode
    decreases |s|
  {
    if s == [] then m else ModeAfter(Step(m, s[0]), s[1..])
  }

  /** The ';' at position k separates statements. */
  predicate IsDelimiter(m: Mode, s: string, k: nat)
    requires k < |s|
  {
    s[k] == ';' && ModeAfter(m, s[..k]).Ordinary()
  }

  /** The text cut at every delimiter; current is the piece read so far. */
  function Pieces(m: Mode, current: string, s: string): (ps: seq<string>)
    ensures ps != []
    decreases |s|
  {
    if s == [] then [current]
    else if s[0] == ';' && m.Ordinary() then [current] + Pieces(Normal, [], s[1..])
    else Pieces(Step(m, s[0]), current + [s[0]], s[1..])
  }

  // ---- The filter on blocks ----

  predicate IsCodeLine(line: string) {
    Strip(line) != [] && !StartsWith(Strip(line), "--")
  }

  predicate AnyCode(lines: seq<string>) {
    lines != [] && (IsCodeLine(lines[0]) || AnyCode(lines[1..]))
  }

  /** The block has a line that is neither blank nor starts with "--". */
  predicate IsKept(block: string) {
    AnyCode(SplitLines(block))
  }

  function Block1(piece: string): seq<string> {
    if IsKept(Strip(piece)) then [Strip(piece)] else []
  }

  function Statements(pieces: seq<string>): seq<string> {
    if pieces == [] then [] else Block1(pieces[0]) + Statements(pieces[1..])
  }

  /** What the splitter is to return. */
  function Split(sql: string): seq<string> {
    Statements(Pieces(Normal, [], sql))
  }

  // ---- Reading a stretch without a delimiter ----

  ghost predicate NoDelimiter(m: Mode, s: string)
    decreases |s|
  {
    s == [] || (!(s[0] == ';' && m.Ordinary()) && NoDelimiter(Step(m, s[0]), s[1..]))
  }

  lemma {:induction false} ModeAppend(m: Mode, a: string, b: string)
    ensures ModeAfter(m, a + b) == ModeAfter(ModeAfter(m, a), b)
    ensures NoDelimiter(m, a + b) <==> NoDelimiter(m, a) && NoDelimiter(ModeAfter(m, a), b)
    decreases |a|
  {
    if a == [] {
      assert a + b == b;
    } else {
      assert (a + b)[1..] == a[1..] + b;
      ModeAppend(Step(m, a[0]), a[1..], b);
    }
  }

  lemma {:induction false} Consume(m: Mode, current: string, t: string, rest: string)
    requires NoDelimiter(m, t)
    ensures Pieces(m, current, t + rest) == Pieces(ModeAfter(m, t), current + t, rest)
    decreases |t|
  {
    if t == [] {
      assert t + rest == rest && current + t == current;
    } else {
      assert (t + rest)[1..] == t[1..] + rest;
      Consume(Step(m, t[0]), current + [t[0]], t[1..], rest);
      assert current + [t[0]] + t[1..] == current + t;
    }
  }

  /** A single character that is no delimiter. */
  lemma {:induction false} ConsumeOne(m: Mode, c: char)
    ensures ModeAfter(m, [c]) == Step(m, c)
    ensures NoDelimiter(m, [c]) <==> !(c == ';' && m.Ordinary())
  {
  }

  /** Inside a line comment nothing happens before the line feed. */
  lemma {:induction false} LineStays(t: string)
    requires '\n' !in t
    ensures ModeAfter(Line, t) == Line && NoDelimiter(Line, t)
  {
    if t != [] {
      LineStays(t[1..]);
    }
  }

  /** The end mark of a block comment stands at k. */
  predicate PairAt(s: string, k: int) {
    0 <= k < |s| - 1 && s[k] == '*' && s[k + 1] == '/'
  }

  ghost predicate HasPair(s: string) {
    exists k :: PairAt(s, k)
  }

  /** Inside a block comment nothing happens before the first end mark. */
  lemma {:induction false} BlockStays(m: Mode, t: string)
    requires m == Block || m == Star
    requires !HasPair(t) && (m == Star && t != [] ==> t[0] != '/')
    ensures ModeAfter(m, t) == Block || ModeAfter(m, t) == Star
    ensures NoDelimiter(m, t)
    decreases |t|
  {
    if t != [] {
      forall k ensures !PairAt(t[1..], k) {
        assert !PairAt(t, k + 1);
      }
      assert !PairAt(t, 0);
      BlockStays(Step(m, t[0]), t[1..]);
    }
  }

  // ---- The scanner ----

  /** What the scanner knows at the head of its loop: the pieces are those finished plus what the
      automaton makes of the rest, the automaton is in ordinary text, and a '-' or '/' it remembers
      does not open a comment with the next character. */
  ghost predicate AtHead(sql: string, i: nat, m: Mode, done: seq<string>, current: string) {
    && i <= |sql| + 1
    && Pieces(Normal, [], sql) == done + Pieces(m, current, Drop(sql, i))
    && (i < |sql| ==> m.Ordinary() && (m == Minus ==> sql[i] != '-') && (m == Slash ==> sql[i] != '*'))
  }

  ghost predicate Head(sql: string, i: nat, done: seq<string>, current: string) {
    exists m :: AtHead(sql, i, m, done, current)
  }

  /** Everything has been read: the pieces are those finished and the current one. */
  ghost predicate AtEnd(sql: string, done: seq<string>, current: string) {
    Pieces(Normal, [], sql) == done + [current]
  }

  lemma {:induction false} SkipTo(sql: string, i: nat, j: nat, m: Mode, done: seq<string>, current: string)
    requires AtHead(sql, i, m, done, current)
    requires i < |sql| && i <= j
    requires NoDelimiter(m, Slice(sql, i, j))
    ensures Pieces(Normal, [], sql)
            == done + Pieces(ModeAfter(m, Slice(sql, i, j)), current + Slice(sql, i, j), Drop(sql, j))
  {
    assert Drop(sql, i) == Slice(sql, i, j) + Drop(sql, j);
    Consume(m, current, Slice(sql, i, j), Drop(sql, j));
  }

  lemma {:induction false} SkipToEnd(sql: string, i: nat, m: Mode, done: seq<string>, current: string)
    requires AtHead(sql, i, m, done, current)
    requires i < |sql| && NoDelimiter(m, sql[i..])
    ensures AtEnd(sql, done, current + sql[i..])
  {
    assert Slice(sql, i, |sql|) == sql[i..] && Drop(sql, |sql|) == [];
    SkipTo(sql, i, |sql|, m, done, current);
  }

  lemma {:induction false} LineCommentMode(m: Mode, t: string, closed: bool)
    requires m.Ordinary() && m != Minus
    requires |t| >= 2 && t[..2] == "--"
    requires '\n' !in if closed then t[..|t| - 1] else t
    requires closed ==> t[|t| - 1] == '\n'
    ensures NoDelimiter(m, t)
    ensures ModeAfter(m, t) == if closed then Normal else Line
  {
    assert t == ['-'] + (['-'] + t[2..]);
    ConsumeOne(m, '-');
    ConsumeOne(Minus, '-');
    ModeAppend(m, ['-'], ['-'] + t[2..]);
    ModeAppend(Minus, ['-'], t[2..]);
    if closed {
      assert |t| > 2 && t[2..] == t[2..|t| - 1] + ['\n'];
      LineStays(t[2..|t| - 1]);
      ModeAppend(Line, t[2..|t| - 1], ['\n']);
      ConsumeOne(Line, '\n');
    } else {
      LineStays(t[2..]);
    }
  }

  lemma {:induction false} BlockCommentMode(m: Mode, t: string, closed: bool)
    requires m.Ordinary()
    requires |t| >= 2 && t[..2] == "/*"
    requires closed ==> |t| >= 4 && t[|t| - 2..] == "*/" && !HasPair(t[2..|t| - 2] + ['*'])
    requires !closed ==> !HasPair(t[2..])
    ensures NoDelimiter(m, t)
    ensures closed ==> ModeAfter(m, t) == Normal
  {
    assert t == ['/'] + (['*'] + t[2..]);
    ConsumeOne(m, '/');
    ConsumeOne(Slash, '*');
    ModeAppend(m, ['/'], ['*'] + t[2..]);
    ModeAppend(Slash, ['*'], t[2..]);
    if closed {
      var body := t[2..|t| - 2] + ['*'];
      assert t[|t| - 2] == '*' && t[|t| - 1] == '/';
      assert t[2..] == body + ['/'];
      BlockStays(Block, body);
      ModeAppend(Block, body, ['/']);
      ModeAppend(Block, t[2..|t| - 2], ['*']);
      BlockEndsInStar(t[2..|t| - 2]);
      ConsumeOne(Star, '/');
    } else {
      BlockStays(Block, t[2..]);
    }
  }

  lemma {:induction false} BlockEndsInStar(t: string)
    requires !HasPair(t + ['*'])
    ensures ModeAfter(Block, t + ['*']) == Star
  {
    forall k ensures !PairAt(t, k) {
      assert !PairAt(t + ['*'], k);
    }
    BlockStays(Block, t);
    ModeAppend(Block, t, ['*']);
    ConsumeOne(ModeAfter(Block, t), '*');
  }

  lemma {:induction false} StringModeStep(m: Mode, t: string, c: char)
    requires NoDelimiter(m, t) && ModeAfter(m, t) == Str
    ensures NoDelimiter(m, t + [c])
    ensures ModeAfter(m, t + [c]) == if c == '\'' then Normal else Str
    ensures c == '\'' ==> NoDelimiter(m, t + [c, c]) && ModeAfter(m, t + [c, c]) == Str
  {
    ModeAppend(m, t, [c]);
    ConsumeOne(Str, c);
    if c == '\'' {
      assert t + [c, c] == t + [c] + [c];
      ModeAppend(m, t + [c], [c]);
      ConsumeOne(Normal, c);
    }
  }

  lemma {:induction false} StatementsAppend(pieces: seq<string>, piece: string)
    ensures Statements(pieces + [piece]) == Statements(pieces) + Block1(piece)
  {
    if pieces == [] {
      assert pieces + [piece] == [piece];
    } else {
      assert (pieces + [piece])[1..] == pieces[1..] + [piece];
      StatementsAppend(pieces[1..], piece);
    }
  }

  /** The automaton has read sql[i..j] without a delimiter and is inside the literal that starts at i. */
  ghost predicate InString(sql: string, i: nat, j: nat, m: Mode) {
    i < j <= |sql| && NoDelimiter(m, sql[i..j]) && ModeAfter(m, sql[i..j]) == Str
  }

  /** The automaton reads the slice up to and including position j without a delimiter, and is back in
      ordinary text unless the literal is open at the end of the text. */
  ghost predicate StringEndsAt(sql: string, i: nat, j: nat, m: Mode) {
    && i < j <= |sql|
    && NoDelimiter(m, Slice(sql, i, j + 1))
    && (j < |sql| ==> ModeAfter(m, Slice(sql, i, j + 1)) == Normal)
  }

  lemma {:induction false} StringStarts(sql: string, i: nat, m: Mode)
    requires i < |sql| && sql[i] == '\'' && m.Ordinary()
    ensures InString(sql, i, i + 1, m)
  {
  }

  lemma {:induction false} StringGoesOn(sql: string, i: nat, j: nat, m: Mode)
    requires InString(sql, i, j, m)
    ensures j == |sql| ==> StringEndsAt(sql, i, j, m)
    ensures j < |sql| && sql[j] != '\'' ==> InString(sql, i, j + 1, m)
    ensures j < |sql| && sql[j] == '\'' ==> StringEndsAt(sql, i, j, m)
    ensures j + 1 < |sql| && sql[j] == sql[j + 1] == '\'' ==> InString(sql, i, j + 2, m)
  {
    if j == |sql| {
      assert Slice(sql, i, j + 1) == sql[i..j];
    } else {
      StringModeStep(m, sql[i..j], sql[j]);
      assert sql[i..j + 1] == sql[i..j] + [sql[j]];
      if j + 1 < |sql| && sql[j] == sql[j + 1] == '\'' {
        assert sql[i..j + 2] == sql[i..j] + [sql[j], sql[j]];
      }
    }
  }

  /** The string-literal loop: j runs to the closing quote, or to the end. */
  method ScanString(sql: string, i: nat, ghost m: Mode) returns (j: nat)
    requires i < |sql| && sql[i] == '\'' && m.Ordinary()
    ensures StringEndsAt(sql, i, j, m)
  {
    StringStarts(sql, i, m);
    hide NoDelimiter, ModeAfter, Slice;
    j := i + 1;
    while j < |sql|
      invariant InString(sql, i, j, m)
    {
      StringGoesOn(sql, i, j, m);
      if sql[j] == '\'' && (j + 1 >= |sql| || sql[j + 1] != '\'') {
        return;
      }
      j := j + if sql[j] != '\'' then 1 else 2;
    }
    StringGoesOn(sql, i, j, m);
  }

  /** A comment that starts at i: to the end of its line, or to its end mark. */
  method ScanComment(sql: string, i: nat, buf: string, ghost done: seq<string>)
    returns (next: nat, text: string, open: bool)
    requires Head(sql, i, done, buf) && i + 1 < |sql|
    requires (sql[i] == '-' && sql[i + 1] == '-') || (sql[i] == '/' && sql[i + 1] == '*')
    ensures if open then AtEnd(sql, done, text) else i < next && Head(sql, next, done, text)
  {
    ghost var m :| AtHead(sql, i, m, done, buf);
    hide AtHead, AtEnd, ModeAfter, NoDelimiter, Step, Find, Slice;
    if sql[i] == '-' {
      var end := Find(sql, "\n", i);
      LineCommentStep(sql, i, m, done, buf, end);
      if end == -1 {
        return |sql|, buf + sql[i..], true;
      }
      return end + 1, buf + sql[i..end + 1], false;
    }
    var end := Find(sql, "*/", i + 2);
    BlockCommentStep(sql, i, m, done, buf, end);
    if end == -1 {
      return |sql|, buf + sql[i..], true;
    }
    return end + 2, buf + sql[i..end + 2], false;
  }

  /** One step of the scanner that is not a delimiter: a whole comment, a whole string literal, or a
      single character; open tells that a comment ran to the end of the text. */
  method ScanToken(sql: string, i: nat, buf: string, ghost done: seq<string>)
    returns (next: nat, text: string, open: bool)
    requires Head(sql, i, done, buf) && i < |sql| && sql[i] != ';'
    ensures if open then AtEnd(sql, done, text) else i < next && Head(sql, next, done, text)
  {
    ghost var m :| AtHead(sql, i, m, done, buf);
    HeadFacts(sql, i, m, done, buf);
    hide AtHead, AtEnd, ModeAfter, NoDelimiter, Step, Slice, StringEndsAt;
    var n := |sql|;
    var ch := sql[i];
    if (ch == '-' && i + 1 < n && sql[i + 1] == '-') || (ch == '/' && i + 1 < n && sql[i + 1] == '*') {
      next, text, open := ScanComment(sql, i, buf, done);
      return;
    }
    if ch == '\'' {
      var j := ScanString(sql, i, m);
      StringStep(sql, i, m, done, buf, j);
      return j + 1, buf + Slice(sql, i, j + 1), false;
    }
    PlainStep(sql, i, m, done, buf);
    return i + 1, buf + [ch], false;
  }

  /** split_statements. The skip-ahead scanner computes exactly what the automaton prescribes; it
      terminates although its index may end one past the length. */
  method SplitStatements(sql: string) returns (stmts: seq<string>)
    ensures stmts == Split(sql)
  {
    stmts := [];
    var buf: string := [];
    var i: nat := 0;
    ghost var done: seq<string> := [];
    assert AtHead(sql, i, Normal, done, buf) && Statements(done) == [];
    hide AtHead, AtEnd, Pieces, Split, Statements, Block1;
    while i < |sql|
      invariant Head(sql, i, done, buf)
      invariant stmts == Statements(done)
      decreases |sql| + 1 - i
    {
      HeadInRange(sql, i, done, buf);
      if sql[i] == ';' {
        DelimiterStep(sql, i, done, buf);
        StatementsAppend(done, buf);
        stmts := Flush(stmts, buf);
        done := done + [buf];
        buf := [];
        i := i + 1;
        continue;
      }
      var open: bool;
      i, buf, open := ScanToken(sql, i, buf, done);
      if open {
        break;
      }
      HeadInRange(sql, i, done, buf);
    }
    if Head(sql, i, done, buf) && i >= |sql| {
      EndFacts(sql, i, done, buf);
    }
    Finish(sql, done, buf);
    stmts := Flush(stmts, buf);
  }

  lemma {:induction false} HeadInRange(sql: string, i: nat, done: seq<string>, current: string)
    requires Head(sql, i, done, current)
    ensures i <= |sql| + 1
  {
  }

  /** Strips a finished block and appends it unless it is blank or made of comment lines. */
  method Flush(stmts: seq<string>, buf: string) returns (r: seq<string>)
    ensures r == stmts + Block1(buf)
  {
    var stmt := Strip(buf);
    r := if IsKept(stmt) then stmts + [stmt] else stmts;
  }

  lemma {:induction false} HeadFacts(sql: string, i: nat, m: Mode, done: seq<string>, current: string)
    requires AtHead(sql, i, m, done, current) && i < |sql|
    ensures m.Ordinary() && (m == Minus ==> sql[i] != '-') && (m == Slash ==> sql[i] != '*')
  {
  }

  lemma {:induction false} EndFacts(sql: string, i: nat, done: seq<string>, current: string)
    requires Head(sql, i, done, current) && i >= |sql|
    ensures AtEnd(sql, done, current)
  {
  }

  lemma {:induction false} Finish(sql: string, done: seq<string>, current: string)
    requires AtEnd(sql, done, current)
    ensures Split(sql) == Statements(done) + Block1(current)
  {
    StatementsAppend(done, current);
  }

  lemma {:induction false} LineCommentStep(sql: string, i: nat, m: Mode, done: seq<string>, current: string, end: int)
    requires AtHead(sql, i, m, done, current)
    requires i + 1 < |sql| && sql[i] == '-' && sql[i + 1] == '-' && end == Find(sql, "\n", i)
    ensures end == -1 ==> AtEnd(sql, done, current + sql[i..])
    ensures end != -1 ==> AtHead(sql, end + 1, Normal, done, current + sql[i..end + 1])
  {
    LineText(sql, i, end);
    assert sql[i..i + 2] == [sql[i], sql[i + 1]] == "--";
    hide Step, ModeAfter, NoDelimiter, Find, OccursAt;
    HeadFacts(sql, i, m, done, current);
    if end == -1 {
      assert sql[i..][..2] == sql[i..i + 2];
      LineCommentMode(m, sql[i..], false);
      SkipToEnd(sql, i, m, done, current);
    } else {
      var t := sql[i..end + 1];
      assert t[..2] == sql[i..i + 2] && t[..|t| - 1] == sql[i..end];
      LineCommentMode(m, t, true);
      SkipTo(sql, i, end + 1, m, done, current);
    }
  }

  lemma {:induction false} LineText(sql: string, i: nat, end: int)
    requires i + 1 < |sql| && sql[i] == '-' && sql[i + 1] == '-' && end == Find(sql, "\n", i)
    ensures end == -1 ==> '\n' !in sql[i..]
    ensures end != -1 ==> i + 2 <= end < |sql| && sql[end] == '\n' && '\n' !in sql[i..end]
  {
    forall k | i <= k < |sql| ensures sql[k] == '\n' <==> OccursAt(sql, "\n", k) {
      assert sql[k..k + 1] == [sql[k]];
    }
    hide OccursAt;
    var t := sql[i..if end == -1 then |sql| else end];
    forall k | 0 <= k < |t| ensures t[k] != '\n' {
      assert t[k] == sql[i + k];
      assert !OccursAt(sql, "\n", i + k);
    }
    if end == -1 {
      assert t == sql[i..];
    }
  }

  lemma {:induction false} BlockCommentStep(sql: string, i: nat, m: Mode, done: seq<string>, current: string, end: int)
    requires AtHead(sql, i, m, done, current)
    requires i + 1 < |sql| && sql[i] == '/' && sql[i + 1] == '*' && end == Find(sql, "*/", i + 2)
    ensures end == -1 ==> AtEnd(sql, done, current + sql[i..])
    ensures end != -1 ==> AtHead(sql, end + 2, Normal, done, current + sql[i..end + 2])
  {
    hide Step, ModeAfter, NoDelimiter, HasPair, Find;
    BlockBody(sql, i, end);
    HeadFacts(sql, i, m, done, current);
    if end == -1 {
      BlockCommentMode(m, sql[i..], false);
      SkipToEnd(sql, i, m, done, current);
    } else {
      BlockCommentMode(m, sql[i..end + 2], true);
      SkipTo(sql, i, end + 2, m, done, current);
    }
  }

  /** Between the start mark and the first end mark there is no end mark, not even one that shares
      its '*' with the one found. */
  lemma {:induction false} NoPairBefore(sql: string, from: nat, end: int)
    requires from <= |sql| && end == Find(sql, "*/", from)
    ensures end == -1 ==> !HasPair(sql[from..])
    ensures end != -1 ==> !HasPair(sql[from..end + 1])
  {
    var body := sql[from..if end == -1 then |sql| else end + 1];
    forall k ensures !PairAt(body, k) {
      if PairAt(body, k) {
        assert sql[from + k..from + k + 2] == [body[k], body[k + 1]];
        assert OccursAt(sql, "*/", from + k);
      }
    }
    if end == -1 {
      assert body == sql[from..];
    }
  }

  lemma {:induction false} BlockBody(sql: string, i: nat, end: int)
    requires i + 1 < |sql| && sql[i] == '/' && sql[i + 1] == '*' && end == Find(sql, "*/", i + 2)
    ensures end == -1 ==> var t := sql[i..]; t[..2] == "/*" && !HasPair(t[2..])
    ensures end != -1 ==> var t := sql[i..end + 2];
                          |t| >= 4 && t[..2] == "/*" && t[|t| - 2..] == "*/" && !HasPair(t[2..|t| - 2] + ['*'])
  {
    NoPairBefore(sql, i + 2, end);
    assert sql[i..i + 2] == [sql[i], sql[i + 1]] == "/*";
    if end == -1 {
      assert sql[i..][..2] == sql[i..i + 2] && sql[i..][2..] == sql[i + 2..];
    } else {
      hide HasPair, Find;
      ClosedBlock(sql, i, end);
    }
  }

  lemma {:induction false} ClosedBlock(sql: string, i: nat, end: nat)
    requires i + 2 <= end && OccursAt(sql, "*/", end)
    ensures var t := sql[i..end + 2];
            t[..2] == sql[i..i + 2] && t[|t| - 2..] == "*/" && t[2..|t| - 2] + ['*'] == sql[i + 2..end + 1]
  {
    var t := sql[i..end + 2];
    assert sql[end..end + 2] == "*/";
    assert t[|t| - 2..] == sql[end..end + 2];
    assert sql[end] == sql[end..end + 2][0] == '*';
    var inner := t[2..|t| - 2];
    assert |inner| == end - i - 2;
    assert forall k :: 0 <= k < |inner| ==> inner[k] == t[k + 2] == sql[i + 2 + k];
    assert inner == sql[i + 2..end];
    assert sql[i + 2..end + 1] == sql[i + 2..end] + [sql[end]];
  }

  lemma {:induction false} StringStep(sql: string, i: nat, m: Mode, done: seq<string>, current: string, j: nat)
    requires AtHead(sql, i, m, done, current)
    requires StringEndsAt(sql, i, j, m)
    ensures i < j <= |sql|
    ensures AtHead(sql, j + 1, ModeAfter(m, Slice(sql, i, j + 1)), done, current + Slice(sql, i, j + 1))
  {
    SkipTo(sql, i, j + 1, m, done, current);
  }

  lemma {:induction false} DelimiterStep(sql: string, i: nat, done: seq<string>, current: string)
    requires Head(sql, i, done, current)
    requires i < |sql| && sql[i] == ';'
    ensures Head(sql, i + 1, done + [current], [])
  {
    var m :| AtHead(sql, i, m, done, current);
    var rest := Drop(sql, i);
    assert rest[0] == ';' && rest[1..] == Drop(sql, i + 1);
    assert done + ([current] + Pieces(Normal, [], rest[1..])) == done + [current] + Pieces(Normal, [], rest[1..]);
    assert AtHead(sql, i + 1, Normal, done + [current], []);
  }

  lemma {:induction false} PlainStep(sql: string, i: nat, m: Mode, done: seq<string>, current: string)
    requires AtHead(sql, i, m, done, current)
    requires i < |sql| && sql[i] != ';' && sql[i] != '\''
    requires !(sql[i] == '-' && i + 1 < |sql| && sql[i + 1] == '-')
    requires !(sql[i] == '/' && i + 1 < |sql| && sql[i + 1] == '*')
    ensures AtHead(sql, i + 1, Step(m, sql[i]), done, current + [sql[i]])
  {
  }
}
