/** The Python string operations the SQL splitter uses. */
module SqlText {

  /** str.isspace for one character. */
  predicate IsSpace(c: char) {
    var k := c as int;
    0x09 <= k <= 0x0d || 0x1c <= k <= 0x20 || k == 0x85 || k == 0xa0 || k == 0x1680
    || 0x2000 <= k <= 0x200a || k == 0x2028 || k == 0x2029 || k == 0x202f || k == 0x205f || k == 0x3000
  }

  /** The characters str.splitlines breaks at. */
  predicate IsLineBreak(c: char) {
    var k := c as int;
    0x0a <= k <= 0x0d || 0x1c <= k <= 0x1e || k == 0x85 || k == 0x2028 || k == 0x2029
  }

  ghost predicate AllSpace(s: string) {
    forall i :: 0 <= i < |s| ==> IsSpace(s[i])
  }

  function LStrip(s: string): string {
    if s == [] || !IsSpace(s[0]) then s else LStrip(s[1..])
  }

  function RStrip(s: string): string {
    if s == [] || !IsSpace(s[|s| - 1]) then s else RStrip(s[..|s| - 1])
  }

  function Strip(s: string): string {
    RStrip(LStrip(s))
  }

  predicate StartsWith(s: string, prefix: string) {
    |prefix| <= |s| && s[..|prefix|] == prefix
  }

  predicate OccursAt(s: string, pattern: string, k: int) {
    0 <= k && k + |pattern| <= |s| && s[k..k + |pattern|] == pattern
  }

  /** s.find(pattern, start) for a non-empty pattern. */
  function Find(s: string, pattern: string, start: nat): (r: int)
    requires pattern != []
    ensures r == -1 ==> forall k :: start <= k ==> !OccursAt(s, pattern, k)
    ensures r != -1 ==> start <= r && OccursAt(s, pattern, r) && forall k :: start <= k < r ==> !OccursAt(s, pattern, k)
    decreases |s| - start
  {
    if start + |pattern| > |s| then -1
    else if OccursAt(s, pattern, start) then start
    else Find(s, pattern, start + 1)
  }

  /** s[lo:hi] with Python's clamping of the upper end. */
  function Slice(s: string, lo: nat, hi: nat): string
    requires lo <= hi && lo <= |s|
  {
    if hi <= |s| then s[lo..hi] else s[lo..]
  }

  /** s[lo:] with Python's clamping. */
  function Drop(s: string, lo: nat): string {
    if lo <= |s| then s[lo..] else []
  }

  /** The index of the first line break, |s| when there is none. */
  function FirstBreak(s: string): (k: nat)
    ensures k <= |s|
    ensures forall i :: 0 <= i < k ==> !IsLineBreak(s[i])
    ensures k < |s| ==> IsLineBreak(s[k])
  {
    if s == [] || IsLineBreak(s[0]) then 0 else 1 + FirstBreak(s[1..])
  }

  /** str.splitlines: "\r\n" counts as one break, and a final break opens no further line. */
  function SplitLines(s: string): seq<string>
    decreases |s|
  {
    if s == [] then []
    else
      var k := FirstBreak(s);
      if k == |s| then [s]
      else if s[k] == '\r' && k + 1 < |s| && s[k + 1] == '\n' then [s[..k]] + SplitLines(s[k + 2..])
      else [s[..k]] + SplitLines(s[k + 1..])
  }

  function Join(parts: seq<string>, separator: string): string {
    if parts == [] then []
    else if |parts| == 1 then parts[0]
    else parts[0] + separator + Join(parts[1..], separator)
  }

  // ---- strip ----

  predicate Trimmed(s: string) {
    s != [] ==> !IsSpace(s[0]) && !IsSpace(s[|s| - 1])
  }

  lemma {:induction false} LStripSplits(s: string)
    ensures exists w: string :: AllSpace(w) && s == w + LStrip(s)
    ensures LStrip(s) != [] ==> !IsSpace(LStrip(s)[0])
  {
    if s == [] || !IsSpace(s[0]) {
      assert AllSpace([]) && s == [] + LStrip(s);
    } else {
      LStripSplits(s[1..]);
      var w: string :| AllSpace(w) && s[1..] == w + LStrip(s[1..]);
      assert AllSpace([s[0]] + w) && s == [s[0]] + w + LStrip(s);
    }
  }

  lemma {:induction false} RStripSplits(s: string)
    ensures exists v: string :: AllSpace(v) && s == RStrip(s) + v
    ensures RStrip(s) != [] ==> !IsSpace(RStrip(s)[|RStrip(s)| - 1])
  {
    if s == [] || !IsSpace(s[|s| - 1]) {
      assert AllSpace([]) && s == RStrip(s) + [];
    } else {
      var n := |s| - 1;
      RStripSplits(s[..n]);
      var v: string :| AllSpace(v) && s[..n] == RStrip(s[..n]) + v;
      assert AllSpace(v + [s[n]]) && s == RStrip(s) + (v + [s[n]]);
    }
  }

  /** Stripping cuts a text into white space, a trimmed middle, and white space. */
  lemma {:induction false} StripSplits(s: string) returns (w: string, v: string)
    ensures AllSpace(w) && AllSpace(v) && s == w + Strip(s) + v && Trimmed(Strip(s))
  {
    LStripSplits(s);
    RStripSplits(LStrip(s));
    w :| AllSpace(w) && s == w + LStrip(s);
    v :| AllSpace(v) && LStrip(s) == Strip(s) + v;
  }

  lemma {:induction false} LStripDrops(w: string, t: string)
    requires AllSpace(w) && (t != [] ==> !IsSpace(t[0]))
    ensures LStrip(w + t) == t
  {
    if w == [] {
      assert w + t == t;
    } else {
      assert (w + t)[1..] == w[1..] + t;
      LStripDrops(w[1..], t);
    }
  }

  lemma {:induction false} RStripDrops(t: string, v: string)
    requires AllSpace(v) && (t != [] ==> !IsSpace(t[|t| - 1]))
    ensures RStrip(t + v) == t
  {
    if v == [] {
      assert t + v == t;
    } else {
      assert (t + v)[..|t + v| - 1] == t + v[..|v| - 1];
      RStripDrops(t, v[..|v| - 1]);
    }
  }

  lemma {:induction false} StripDrops(w: string, t: string, v: string)
    requires AllSpace(w) && AllSpace(v) && Trimmed(t) && t != []
    ensures Strip(w + t + v) == t
  {
    assert w + t + v == w + (t + v);
    LStripDrops(w, t + v);
    RStripDrops(t, v);
  }

  lemma {:induction false} StripSpace(w: string)
    requires AllSpace(w)
    ensures Strip(w) == []
  {
    assert w + [] == w;
    LStripDrops(w, []);
  }
}
