/** String helpers the script leans on: `str.strip`, `str.split()`, `str.splitlines`,
    `"\n".join`, `in` on strings, `startswith`.  Whitespace is a fixed ASCII set
    (space, tab, line feed, vertical tab, form feed, carriage return) and lines are
    split on line feed only. */
module Text {
  import opened Results

  /** The whitespace set used by strip, split and the `\s` regex class. */
  predicate IsSpace(c: char) {
    c == ' ' || c == '\t' || c == '\n' || c == '\r' || c == '\U{0B}' || c == '\U{0C}'
  }

  predicate AllSpace(s: string) {
    forall i :: 0 <= i < |s| ==> IsSpace(s[i])
  }

  predicate NoSpace(s: string) {
    forall i :: 0 <= i < |s| ==> !IsSpace(s[i])
  }

  predicate StartsWith(s: string, prefix: string) {
    |prefix| <= |s| && s[..|prefix|] == prefix
  }

  predicate EndsWith(s: string, suffix: string) {
    |suffix| <= |s| && s[|s| - |suffix|..] == suffix
  }

  // ---------------------------------------------------------------------------
  // Trimming (`str.lstrip`, `str.rstrip`, `str.strip`, with or without a char set)
  // ---------------------------------------------------------------------------

  /** Drops the longest prefix whose characters all satisfy `drop`. */
  function TrimStart(s: string, drop: char -> bool): (r: string)
    ensures |r| <= |s| && r == s[|s| - |r|..]
    ensures r == [] || !drop(r[0])
    ensures forall i :: 0 <= i < |s| - |r| ==> drop(s[i])
    decreases |s|
  {
    if s != [] && drop(s[0]) then TrimStart(s[1..], drop) else s
  }

  /** Drops the longest suffix whose characters all satisfy `drop`. */
  function TrimEnd(s: string, drop: char -> bool): (r: string)
    ensures |r| <= |s| && r == s[..|r|]
    ensures r == [] || !drop(r[|r| - 1])
    ensures forall i :: |r| <= i < |s| ==> drop(s[i])
    decreases |s|
  {
    if s != [] && drop(s[|s| - 1]) then TrimEnd(s[..|s| - 1], drop) else s
  }

  /** Drops matching characters from both ends, as `str.strip(chars)` does. */
  function Trim(s: string, drop: char -> bool): (r: string)
    ensures r == [] || (!drop(r[0]) && !drop(r[|r| - 1]))
    ensures |r| <= |s|
  {
    var t := TrimStart(s, drop);
    var r := TrimEnd(t, drop);
    assert r == [] || r[0] == t[0];
    r
  }

  function LStrip(s: string): string { TrimStart(s, IsSpace) }

  function RStrip(s: string): string { TrimEnd(s, IsSpace) }

  function Strip(s: string): string { Trim(s, IsSpace) }

  /** Trimming the end of `a + b` touches `a` only when `b` trims to nothing. */
  lemma {:induction false} TrimEndAppend(a: string, b: string, drop: char -> bool)
    ensures TrimEnd(a + b, drop) ==
              if TrimEnd(b, drop) == [] then TrimEnd(a, drop) else a + TrimEnd(b, drop)
    decreases |b|
  {
    if b == [] {
      assert a + b == a;
    } else if drop(b[|b| - 1]) {
      assert (a + b)[..|a + b| - 1] == a + b[..|b| - 1];
      TrimEndAppend(a, b[..|b| - 1], drop);
    } else {
      assert (a + b)[|a + b| - 1] == b[|b| - 1];
    }
  }

  /** A prefix made only of dropped characters disappears under TrimStart. */
  lemma {:induction false} TrimStartDropped(a: string, b: string, drop: char -> bool)
    requires forall i :: 0 <= i < |a| ==> drop(a[i])
    ensures TrimStart(a + b, drop) == TrimStart(b, drop)
    decreases |a|
  {
    if a != [] {
      assert (a + b)[1..] == a[1..] + b;
      TrimStartDropped(a[1..], b, drop);
    } else {
      assert a + b == b;
    }
  }

  /** Once TrimStart of `a` keeps something, whatever follows `a` is kept too. */
  lemma {:induction false} TrimStartKept(a: string, b: string, drop: char -> bool)
    requires TrimStart(a, drop) != []
    ensures TrimStart(a + b, drop) == TrimStart(a, drop) + b
    decreases |a|
  {
    var ab := a + b;
    assert ab[0] == a[0];
    if drop(a[0]) {
      assert TrimStart(a, drop) == TrimStart(a[1..], drop);
      assert TrimStart(ab, drop) == TrimStart(a[1..] + b, drop) by {
        assert ab[1..] == a[1..] + b;
      }
      TrimStartKept(a[1..], b, drop);
    } else {
      assert TrimStart(ab, drop) == ab;
    }
  }

  /** The three pieces of `a + b + c`, recovered by slicing. */
  lemma Pieces3<T>(a: seq<T>, b: seq<T>, c: seq<T>)
    ensures var s := a + b + c;
            && s[..|a|] == a && s[|a|..|a| + |b|] == b && s[|a| + |b|..] == c
            && (|b| > 0 ==> s[|a|] == b[0] && s[|a| + |b| - 1] == b[|b| - 1])
  {
  }

  /** TrimStart of a string starting with a kept character is the identity. */
  lemma TrimStartKeeps(s: string, drop: char -> bool)
    requires s == [] || !drop(s[0])
    ensures TrimStart(s, drop) == s
  {
  }

  /** TrimEnd of a string ending in a kept character is the identity. */
  lemma TrimEndKeeps(s: string, drop: char -> bool)
    requires s == [] || !drop(s[|s| - 1])
    ensures TrimEnd(s, drop) == s
  {
  }

  /** Trimming whitespace from the end of all-whitespace text leaves nothing. */
  lemma {:induction false} SpacesTrimToNothing(w: string)
    requires AllSpace(w)
    ensures TrimEnd(w, IsSpace) == []
    decreases |w|
  {
    if w != [] {
      SpacesTrimToNothing(w[..|w| - 1]);
    }
  }

  /** A line starting and ending in non-space characters is its own strip. */
  lemma StripUnpadded(line: string)
    requires line != [] && !IsSpace(line[0]) && !IsSpace(line[|line| - 1])
    ensures Strip(line) == line
  {
    TrimEndKeeps(line, IsSpace);
  }

  // ---------------------------------------------------------------------------
  // Searching
  // ---------------------------------------------------------------------------

  /** Index of the first `c` in `s`, as `str.find` (None for -1). */
  function Find(s: string, c: char): (r: Option<nat>)
    ensures r.None? <==> c !in s
    ensures r.Some? ==> r.value < |s| && s[r.value] == c && c !in s[..r.value]
    decreases |s|
  {
    if s == [] then None
    else if s[0] == c then Some(0)
    else match Find(s[1..], c)
      case None => None
      case Some(i) =>
        assert s[..i + 1] == [s[0]] + s[1..][..i];
        Some(i + 1)
  }

  /** The first occurrence is the only index before which `c` does not occur. */
  lemma {:induction false} FindIs(s: string, c: char, k: nat)
    requires k < |s| && s[k] == c && c !in s[..k]
    ensures Find(s, c) == Some(k)
    decreases k
  {
    if k > 0 {
      assert s[0] == s[..k][0];
      assert s[1..][..k - 1] == s[..k][1..];
      FindIs(s[1..], c, k - 1);
    }
  }

  /** Find never reports an index inside a prefix that lacks `c`. */
  lemma {:induction false} FindAfterPrefix(s: string, c: char, m: nat)
    requires m <= |s| && c !in s[..m]
    ensures Find(s, c).Some? ==> Find(s, c).value >= m
    decreases m
  {
    if m > 0 {
      assert s[0] == s[..m][0];
      assert s[1..][..m - 1] == s[..m][1..];
      FindAfterPrefix(s[1..], c, m - 1);
    }
  }

  /** Index of the last `c` in `s`, as `str.rfind` (None for -1). */
  function FindLast(s: string, c: char): (r: Option<nat>)
    ensures r.None? <==> c !in s
    ensures r.Some? ==> r.value < |s| && s[r.value] == c && c !in s[r.value + 1..]
    decreases |s|
  {
    if s == [] then None
    else if s[|s| - 1] == c then Some(|s| - 1)
    else
      var r := FindLast(s[..|s| - 1], c);
      assert s == s[..|s| - 1] + [s[|s| - 1]];
      assert r.Some? ==> s[r.value + 1..] == s[..|s| - 1][r.value + 1..] + [s[|s| - 1]];
      r
  }

  /** The last occurrence is the only index after which `c` does not occur. */
  lemma {:induction false} FindLastIs(s: string, c: char, k: nat)
    requires k < |s| && s[k] == c && c !in s[k + 1..]
    ensures FindLast(s, c) == Some(k)
    decreases |s| - k
  {
    if k < |s| - 1 {
      var init := s[..|s| - 1];
      assert s[|s| - 1] == s[k + 1..][|s| - k - 2];
      assert init[k + 1..] == s[k + 1..][..|s| - k - 2];
      FindLastIs(init, c, k);
    }
  }

  /** `sub` occurs in `s` starting at index `i`. */
  predicate OccursAt(s: string, sub: string, i: int) {
    0 <= i && i + |sub| <= |s| && s[i..i + |sub|] == sub
  }

  /** Python's `sub in s`. */
  function Contains(s: string, sub: string): bool
    decreases |s|
  {
    StartsWith(s, sub) || (|s| > 0 && Contains(s[1..], sub))
  }

  lemma {:induction false} ContainsFromOccurrence(s: string, sub: string, i: int)
    requires OccursAt(s, sub, i)
    ensures Contains(s, sub)
    decreases i
  {
    if i > 0 {
      assert s[1..][i - 1..i - 1 + |sub|] == s[i..i + |sub|];
      ContainsFromOccurrence(s[1..], sub, i - 1);
    } else {
      assert StartsWith(s, sub);
    }
  }

  lemma {:induction false} OccurrenceFromContains(s: string, sub: string) returns (i: int)
    requires Contains(s, sub)
    ensures OccursAt(s, sub, i)
    decreases |s|
  {
    if StartsWith(s, sub) {
      i := 0;
    } else {
      var j := OccurrenceFromContains(s[1..], sub);
      assert s[1..][j..j + |sub|] == s[j + 1..j + 1 + |sub|];
      i := j + 1;
    }
  }

  // ---------------------------------------------------------------------------
  // Splitting on a separator and joining (`str.split(sep)` / `sep.join`)
  // ---------------------------------------------------------------------------

  function SplitOn(s: string, d: char): (r: seq<string>)
    ensures |r| >= 1
    ensures forall i :: 0 <= i < |r| ==> d !in r[i]
    decreases |s|
  {
    match Find(s, d)
    case None => [s]
    case Some(i) => [s[..i]] + SplitOn(s[i + 1..], d)
  }

  function Join(parts: seq<string>, d: char): string
    decreases |parts|
  {
    if |parts| == 0 then []
    else if |parts| == 1 then parts[0]
    else parts[0] + [d] + Join(parts[1..], d)
  }

  /** Join of a piece followed by at least one more piece. */
  lemma JoinCons(p: string, rest: seq<string>, d: char)
    requires |rest| >= 1
    ensures Join([p] + rest, d) == p + [d] + Join(rest, d)
  {
    assert ([p] + rest)[1..] == rest;
  }

  /** Joining the pieces of a split gives back the original string. */
  lemma {:induction false} JoinSplitOn(s: string, d: char)
    ensures Join(SplitOn(s, d), d) == s
    decreases |s|
  {
    match Find(s, d)
    case None =>
    case Some(i) =>
      var rest := SplitOn(s[i + 1..], d);
      assert SplitOn(s, d) == [s[..i]] + rest;
      JoinSplitOn(s[i + 1..], d);
      JoinCons(s[..i], rest, d);
      assert s == s[..i] + [d] + s[i + 1..];
  }

  /** Splitting a join of separator-free pieces gives back the pieces. */
  lemma {:induction false} SplitOnJoin(parts: seq<string>, d: char)
    requires |parts| >= 1
    requires forall i :: 0 <= i < |parts| ==> d !in parts[i]
    ensures SplitOn(Join(parts, d), d) == parts
    decreases |parts|
  {
    if |parts| == 1 {
      assert d !in parts[0];
    } else {
      var p := parts[0];
      var rest := Join(parts[1..], d);
      var s := p + [d] + rest;
      assert s[..|p|] == p;
      FindIs(s, d, |p|);
      assert s[|p| + 1..] == rest;
      SplitOnJoin(parts[1..], d);
    }
  }

  // ---------------------------------------------------------------------------
  // Lines (`str.splitlines` with line feed as the only line break)
  // ---------------------------------------------------------------------------

  function DropFinalNewline(s: string): string {
    if |s| > 0 && s[|s| - 1] == '\n' then s[..|s| - 1] else s
  }

  /** `s.splitlines()`: no lines for the empty string, no empty last line for a
      string ending in a line feed. */
  function SplitLines(s: string): (lines: seq<string>)
    ensures lines == [] <==> s == []
    ensures forall i :: 0 <= i < |lines| ==> '\n' !in lines[i]
  {
    if s == [] then [] else SplitOn(DropFinalNewline(s), '\n')
  }

  /** Everything before the first line feed. */
  function FirstLine(s: string): string {
    match Find(s, '\n')
    case None => s
    case Some(k) => s[..k]
  }

  /** Everything after the first line feed (empty when there is none). */
  function AfterFirstLine(s: string): string {
    match Find(s, '\n')
    case None => []
    case Some(k) => s[k + 1..]
  }

  /** Joining the lines undoes the split up to one final line feed. */
  lemma SplitLinesJoin(s: string)
    ensures Join(SplitLines(s), '\n') == DropFinalNewline(s)
  {
    if s != [] {
      JoinSplitOn(DropFinalNewline(s), '\n');
    }
  }

  /** The first line of `s.splitlines()` is FirstLine, and the other lines join
      back to the text after the first line feed. */
  lemma SplitLinesShape(s: string)
    ensures SplitLines(s) == [] <==> s == []
    ensures s != [] ==> SplitLines(s)[0] == FirstLine(s)
    ensures s != [] ==>
              Join(SplitLines(s)[1..], '\n') == DropFinalNewline(AfterFirstLine(s))
  {
    if s != [] {
      var d := DropFinalNewline(s);
      match Find(s, '\n')
      case None =>
        assert d == s;
      case Some(k) =>
        if k == |s| - 1 {
          assert d == s[..k];
          assert Find(d, '\n') == None;
        } else {
          SplitLinesAtBreak(s, k);
        }
    }
  }

  /** SplitLinesShape for a string whose first line feed is not its last character. */
  lemma SplitLinesAtBreak(s: string, k: nat)
    requires Find(s, '\n') == Some(k) && k < |s| - 1
    ensures SplitLines(s)[0] == s[..k]
    ensures Join(SplitLines(s)[1..], '\n') == DropFinalNewline(s[k + 1..])
  {
    var d := DropFinalNewline(s);
    DropFinalNewlineKeeps(s, k);
    var rest := SplitOn(d[k + 1..], '\n');
    SplitOnAt(d, k);
    assert SplitLines(s) == [d[..k]] + rest;
    assert SplitLines(s)[1..] == rest;
    JoinSplitOn(d[k + 1..], '\n');
  }

  /** Dropping a final line feed leaves the first `k + 1` characters alone and
      commutes with taking the suffix after them. */
  lemma DropFinalNewlineKeeps(s: string, k: nat)
    requires k < |s| - 1
    ensures var d := DropFinalNewline(s);
            && k < |d| && d[..k + 1] == s[..k + 1]
            && d[k + 1..] == DropFinalNewline(s[k + 1..])
  {
    var t := s[k + 1..];
    assert |t| > 0 && t[|t| - 1] == s[|s| - 1];
    if s[|s| - 1] == '\n' {
      assert s[..|s| - 1][k + 1..] == t[..|t| - 1];
    }
  }

  /** The split of a string at its first separator, at index `k`. */
  lemma SplitOnAt(d: string, k: nat)
    requires k < |d| && d[k] == '\n' && '\n' !in d[..k]
    ensures SplitOn(d, '\n') == [d[..k]] + SplitOn(d[k + 1..], '\n')
  {
    FindIs(d, '\n', k);
  }

  /** The first line of a string that starts with a line-free header is that header. */
  lemma FirstLineOfHeaded(h: string, rest: string)
    requires '\n' !in h
    ensures FirstLine(h + "\n" + rest) == h
    ensures AfterFirstLine(h + "\n" + rest) == rest
  {
    var s := h + "\n" + rest;
    assert s[..|h|] == h;
    FindIs(s, '\n', |h|);
    assert s[|h| + 1..] == rest;
  }

  // ---------------------------------------------------------------------------
  // Words (`str.split()` with no separator)
  // ---------------------------------------------------------------------------

  /** Length of the leading run of non-whitespace characters. */
  function WordSpan(s: string): (n: nat)
    ensures n <= |s|
    ensures forall i :: 0 <= i < n ==> !IsSpace(s[i])
    ensures n < |s| ==> IsSpace(s[n])
    decreases |s|
  {
    if s != [] && !IsSpace(s[0]) then 1 + WordSpan(s[1..]) else 0
  }

  /** `s.split()`: the maximal runs of non-whitespace characters, in order;
      there are none exactly when the text is blank. */
  function Words(s: string): (ws: seq<string>)
    ensures ws == [] <==> AllSpace(s)
    decreases |s|
  {
    var t := LStrip(s);
    assert t == [] <==> AllSpace(s) by {
      if t != [] {
        assert !IsSpace(s[|s| - |t|]);
      }
    }
    if t == [] then []
    else
      var n := WordSpan(t);
      [t[..n]] + Words(t[n..])
  }

  /** Every word is a non-empty run without whitespace. */
  lemma {:induction false} WordsAreTokens(s: string)
    ensures forall i :: 0 <= i < |Words(s)| ==> Words(s)[i] != [] && NoSpace(Words(s)[i])
    decreases |s|
  {
    var t := LStrip(s);
    if t != [] {
      var n := WordSpan(t);
      var w := t[..n];
      assert w != [] && NoSpace(w) by {
        assert !IsSpace(t[0]);
      }
      var rest := Words(t[n..]);
      WordsAreTokens(t[n..]);
      assert Words(s) == [w] + rest;
      forall i | 0 <= i < |Words(s)|
        ensures Words(s)[i] != [] && NoSpace(Words(s)[i])
      {
        if i > 0 {
          assert Words(s)[i] == rest[i - 1];
        }
      }
    }
  }

  /** `word_count`: the number of whitespace-delimited tokens. */
  function WordCount(s: string): (n: nat)
    ensures n == 0 <==> AllSpace(s)
  {
    |Words(s)|
  }

  /** WordSpan stops at the same place when more text follows a finished word. */
  lemma {:induction false} WordSpanAppend(a: string, b: string)
    requires WordSpan(a) < |a| || (b != [] && IsSpace(b[0]))
    ensures WordSpan(a + b) == WordSpan(a)
    decreases |a|
  {
    if a != [] && !IsSpace(a[0]) {
      assert (a + b)[1..] == a[1..] + b;
      WordSpanAppend(a[1..], b);
    } else if a == [] {
      assert a + b == b;
    }
  }

  /** Leading whitespace does not change the words. */
  lemma WordsAfterSpaces(a: string, b: string)
    requires AllSpace(a)
    ensures Words(a + b) == Words(b)
  {
    TrimStartDropped(a, b, IsSpace);
  }

  /** Words of a string whose LStrip is non-empty: the first token, then the rest. */
  lemma WordsStep(s: string)
    requires LStrip(s) != []
    ensures var t := LStrip(s);
            Words(s) == [t[..WordSpan(t)]] + Words(t[WordSpan(t)..])
  {
  }

  /** Slicing `t + u` at an index inside `t`. */
  lemma SliceAppend(t: string, u: string, n: nat)
    requires n <= |t|
    ensures (t + u)[..n] == t[..n]
    ensures (t + u)[n..] == t[n..] + u
  {
  }

  /** One step of WordsSplit: the first token of `a` is also the first token of
      `a + u` when `u` starts with whitespace, and `u` stays behind it. */
  lemma WordsSplitStep(a: string, u: string)
    requires u != [] && IsSpace(u[0]) && LStrip(a) != []
    ensures var t := LStrip(a);
            var n := WordSpan(t);
            && Words(a + u) == [t[..n]] + Words(t[n..] + u)
            && Words(a) == [t[..n]] + Words(t[n..])
  {
    var t := LStrip(a);
    TrimStartKept(a, u, IsSpace);
    var n := WordSpan(t);
    WordSpanAppend(t, u);
    SliceAppend(t, u, n);
    WordsStep(a + u);
    WordsStep(a);
  }

  lemma SeqAssoc<T>(x: seq<T>, y: seq<T>, z: seq<T>)
    ensures x + (y + z) == (x + y) + z
  {
  }

  /** Base case of WordsSplit: `a` holds no word. */
  lemma WordsSplitSpaces(a: string, u: string)
    requires u != [] && IsSpace(u[0]) && LStrip(a) == []
    ensures Words(a + u) == Words(a) + Words(u[1..])
  {
    assert AllSpace(a) by {
      assert forall i :: 0 <= i < |a| - |LStrip(a)| ==> IsSpace(a[i]);
    }
    var c, rest := [u[0]], u[1..];
    assert u == c + rest;
    assert AllSpace(c);
    WordsAfterSpaces(a, u);
    WordsAfterSpaces(c, rest);
    assert Words(a) == [];
  }

  /** Splitting `a + u`, where `u` starts with whitespace, gives the words of `a`
      followed by the words of the rest of `u`. */
  lemma {:induction false} WordsSplit(a: string, u: string)
    requires u != [] && IsSpace(u[0])
    ensures Words(a + u) == Words(a) + Words(u[1..])
    decreases |a|
  {
    if LStrip(a) == [] {
      WordsSplitSpaces(a, u);
    } else {
      var t := LStrip(a);
      var n := WordSpan(t);
      var w, tail := t[..n], t[n..];
      WordsSplitStep(a, u);
      WordsSplit(tail, u);
      calc {
        Words(a + u);
        [w] + Words(tail + u);
        [w] + (Words(tail) + Words(u[1..]));
        { SeqAssoc([w], Words(tail), Words(u[1..])); }
        ([w] + Words(tail)) + Words(u[1..]);
        Words(a) + Words(u[1..]);
      }
    }
  }

  /** Words of text that one whitespace character separates into two parts are
      the words of each part, concatenated. */
  lemma WordsAppend(a: string, c: char, b: string)
    requires IsSpace(c)
    ensures Words(a + [c] + b) == Words(a) + Words(b)
  {
    assert a + [c] + b == a + ([c] + b);
    assert ([c] + b)[1..] == b;
    WordsSplit(a, [c] + b);
  }

  /** word_count is additive over whitespace-separated blocks. */
  lemma WordCountAppend(a: string, c: char, b: string)
    requires IsSpace(c)
    ensures WordCount(a + [c] + b) == WordCount(a) + WordCount(b)
  {
    WordsAppend(a, c, b);
  }

  /** A single token is its own word list. */
  lemma WordsOfToken(w: string)
    requires w != [] && NoSpace(w)
    ensures Words(w) == [w]
  {
    assert LStrip(w) == w;
    assert WordSpan(w) == |w| by {
      if WordSpan(w) < |w| {
        assert IsSpace(w[WordSpan(w)]);
        assert false;
      }
    }
    assert w[..|w|] == w;
    assert Words(w[|w|..]) == [] by {
      assert w[|w|..] == [];
      assert LStrip([]) == [];
    }
  }

  /** Splitting tokens joined by single spaces gives back the tokens. */
  lemma {:induction false} WordsJoin(ws: seq<string>)
    requires forall i :: 0 <= i < |ws| ==> ws[i] != [] && NoSpace(ws[i])
    ensures Words(Join(ws, ' ')) == ws
    decreases |ws|
  {
    if |ws| == 0 {
    } else if |ws| == 1 {
      WordsOfToken(ws[0]);
    } else {
      var tail := ws[1..];
      assert ws == [ws[0]] + tail;
      assert forall i :: 0 <= i < |tail| ==> tail[i] == ws[i + 1];
      WordsJoin(tail);
      WordsOfToken(ws[0]);
      var rest := Join(tail, ' ');
      assert Join(ws, ' ') == ws[0] + [' '] + rest;
      WordsAppend(ws[0], ' ', rest);
    }
  }
}
