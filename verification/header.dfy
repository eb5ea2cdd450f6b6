/** The LAPC header line `[LAPC v1 | source: <label> | ratio: <o>/<c> (wc-w proxy;
    ~<x>:1)]` and `ensure_header_and_ratio`, which puts it on the first line of a
    compressed document. The two-decimal rendering of `o / c` is a parameter
    (`decimal`), since float formatting is not modelled. */
module Header {
  import opened Results
  import opened Text
  import opened Numerals

  /** What a first line must start with to count as an existing header. */
  const Tag: string := "[LAPC v1"

  function HeaderPrefix(source: string): string {
    "[LAPC v1 | source: " + source + " | ratio: "
  }

  /** What follows the denominator in the header line. */
  function RatioTail(original: nat, compressed: nat, decimal: (nat, nat) -> string): string {
    " (wc-w proxy; ~" + decimal(original, compressed) + ":1)]"
  }

  /** `[LAPC v1 | source: {source} | ratio: {ratio}]`. */
  function HeaderLine(source: string, original: nat, compressed: nat,
                      decimal: (nat, nat) -> string): (h: string)
    ensures StartsWith(h, Tag)
    ensures |h| > 0 && h[|h| - 1] == ']'
  {
    var p := HeaderPrefix(source);
    var h := p + (NatToString(original) + ("/" + (NatToString(compressed)
               + RatioTail(original, compressed, decimal))));
    assert p[..|Tag|] == Tag;
    assert h[..|Tag|] == p[..|Tag|];
    h
  }

  /** Reads the numerator and denominator back out of a header for the source label `source`. */
  function ParseRatio(source: string, s: string): Option<(nat, nat)> {
    var p := HeaderPrefix(source);
    if !StartsWith(s, p) then None
    else match ReadNat(s[|p|..])
      case None => None
      case Some((o, rest)) =>
        if rest == [] || rest[0] != '/' then None
        else match ReadNat(rest[1..])
          case None => None
          case Some((c, _)) => Some((o, c))
  }

  lemma ParseRatioShape(p: string, source: string, o: nat, c: nat, q: string)
    requires p == HeaderPrefix(source)
    requires q == [] || !IsDigit(q[0])
    ensures ParseRatio(source, p + (NatToString(o) + ("/" + (NatToString(c) + q)))) == Some((o, c))
  {
    var a := NatToString(o);
    var b := NatToString(c);
    var rest := "/" + (b + q);
    var s := p + (a + rest);
    assert s[..|p|] == p;
    assert s[|p|..] == a + rest;
    ReadNatToString(o, rest);
    assert rest[1..] == b + q;
    ReadNatToString(c, q);
  }

  /** A rendered header, followed by anything, reads back as its two numbers. */
  lemma ParseRatioOfHeader(source: string, o: nat, c: nat, decimal: (nat, nat) -> string,
                           tail: string)
    ensures ParseRatio(source, HeaderLine(source, o, c, decimal) + tail) == Some((o, c))
  {
    var p := HeaderPrefix(source);
    var a := NatToString(o);
    var b := NatToString(c);
    var t := RatioTail(o, c, decimal);
    assert HeaderLine(source, o, c, decimal) == p + (a + ("/" + (b + t)));
    var q := t + tail;
    assert (p + (a + ("/" + (b + t)))) + tail == p + (a + ("/" + (b + q)));
    ParseRatioShape(p, source, o, c, q);
  }

  /** `max(1, word_count(doc))`: the ratio denominator. */
  function CompressedWords(doc: string): (n: nat)
    ensures n >= 1
    ensures AllSpace(doc) ==> n == 1
    ensures !AllSpace(doc) ==> n == |Words(doc)|
    ensures WordCount(doc) >= 1 ==> n == WordCount(doc)
  {
    if WordCount(doc) < 1 then 1 else WordCount(doc)
  }

  predicate IsHeaderLine(line: string) {
    StartsWith(line, Tag)
  }

  /** The document body as the normalisation leaves it: trailing whitespace removed,
      then a single line feed, or nothing at all if only whitespace was left. */
  function Trailer(x: string): string {
    var t := RStrip(x);
    if t == [] then [] else t + "\n"
  }

  /** The script's steps with the header `h` already built: split into lines,
      replace or prepend, join, strip trailing whitespace, add one line feed. */
  function Rehead(doc: string, h: string): (r: string)
    ensures |r| >= 1 && r[|r| - 1] == '\n'
    ensures |r| == 1 || !IsSpace(r[|r| - 2])
  {
    var lines := SplitLines(doc);
    var headed := if |lines| > 0 && IsHeaderLine(lines[0]) then [h] + lines[1..]
                  else [h, ""] + lines;
    RStrip(Join(headed, '\n')) + "\n"
  }

  /** Stripping the end of a join that starts with a line ending in a visible
      character never reaches into that line. */
  lemma RStripJoinHead(h: string, rest: seq<string>)
    requires |h| > 0 && !IsSpace(h[|h| - 1])
    ensures var t := RStrip(Join(rest, '\n'));
            RStrip(Join([h] + rest, '\n')) == h + (if t == [] then [] else "\n" + t)
  {
    if rest != [] {
      var j := Join(rest, '\n');
      var hn := h + "\n";
      assert Join([h] + rest, '\n') == hn + j by {
        JoinCons(h, rest, '\n');
      }
      assert TrimEnd(hn, IsSpace) == h by {
        assert TrimEnd("\n", IsSpace) == [] by {
          assert "\n"[..0] == [];
        }
        TrimEndAppend(h, "\n", IsSpace);
        TrimEndKeeps(h, IsSpace);
      }
      var t := TrimEnd(j, IsSpace);
      assert TrimEnd(hn + j, IsSpace) == if t == [] then h else hn + t by {
        TrimEndAppend(hn, j, IsSpace);
      }
      if t != [] {
        assert hn + t == h + ("\n" + t);
      }
    } else {
      assert [h] + rest == [h];
      TrimEndKeeps(h, IsSpace);
    }
  }

  lemma RStripDropFinalNewline(s: string)
    ensures RStrip(DropFinalNewline(s)) == RStrip(s)
  {
    if |s| > 0 && s[|s| - 1] == '\n' {
      assert s == s[..|s| - 1] + "\n";
      TrimEndAppend(s[..|s| - 1], "\n", IsSpace);
    }
  }

  lemma ReheadEmpty(h: string)
    requires |h| > 0 && !IsSpace(h[|h| - 1])
    ensures Rehead([], h) == h + "\n"
  {
    assert [h, ""] + SplitLines([]) == [h] + [""];
    RStripJoinHead(h, [""]);
  }

  /** Appending the final line feed to the stripped body. */
  lemma CloseBody(h: string, t: string)
    ensures (h + (if t == [] then [] else "\n" + t)) + "\n" ==
              h + "\n" + (if t == [] then [] else t + "\n")
  {
  }

  lemma ReheadReplaces(doc: string, h: string)
    requires |h| > 0 && !IsSpace(h[|h| - 1])
    requires IsHeaderLine(FirstLine(doc))
    ensures Rehead(doc, h) == h + "\n" + Trailer(AfterFirstLine(doc))
  {
    var lines := SplitLines(doc);
    assert FirstLine([]) == [];
    SplitLinesShape(doc);
    assert |lines| > 0 && IsHeaderLine(lines[0]);
    var after := AfterFirstLine(doc);
    var j := Join(lines[1..], '\n');
    assert j == DropFinalNewline(after);
    RStripDropFinalNewline(after);
    var t := RStrip(after);
    assert RStrip(j) == t;
    RStripJoinHead(h, lines[1..]);
    assert Rehead(doc, h) == RStrip(Join([h] + lines[1..], '\n')) + "\n";
    CloseBody(h, t);
  }

  lemma PrependedBody(doc: string)
    requires doc != []
    ensures RStrip(Join([""] + SplitLines(doc), '\n')) ==
              if RStrip(doc) == [] then [] else "\n" + RStrip(doc)
  {
    var lines := SplitLines(doc);
    SplitLinesShape(doc);
    SplitLinesJoin(doc);
    RStripDropFinalNewline(doc);
    JoinCons("", lines, '\n');
    var d := DropFinalNewline(doc);
    assert Join([""] + lines, '\n') == "\n" + d;
    TrimEndAppend("\n", d, IsSpace);
  }

  lemma ReheadPrepends(doc: string, h: string)
    requires |h| > 0 && !IsSpace(h[|h| - 1])
    requires !IsHeaderLine(FirstLine(doc))
    ensures Rehead(doc, h) == h + "\n" + (if Trailer(doc) == [] then [] else "\n" + Trailer(doc))
  {
    if doc == [] {
      ReheadEmpty(h);
    } else {
      var u := PrependedLines(doc, h);
      CloseBody(h, u);
      var t := RStrip(doc);
      if t != [] {
        assert u + "\n" == "\n" + (t + "\n");
      }
    }
  }

  /** Rehead of a non-empty document without a header, before the final line
      feed is added back. */
  lemma PrependedLines(doc: string, h: string) returns (u: string)
    requires |h| > 0 && !IsSpace(h[|h| - 1])
    requires doc != [] && !IsHeaderLine(FirstLine(doc))
    ensures u == if RStrip(doc) == [] then [] else "\n" + RStrip(doc)
    ensures Rehead(doc, h) == (h + (if u == [] then [] else "\n" + u)) + "\n"
  {
    var lines := SplitLines(doc);
    var body := [""] + lines;
    var x := RStrip(Join([h] + body, '\n'));
    assert Rehead(doc, h) == x + "\n" by {
      SplitLinesShape(doc);
      assert !(|lines| > 0 && IsHeaderLine(lines[0]));
      assert [h, ""] + lines == [h] + body;
    }
    var t := RStrip(doc);
    u := if t == [] then [] else "\n" + t;
    assert x == h + (if u == [] then [] else "\n" + u) by {
      PrependedBody(doc);
      RStripJoinHead(h, body);
    }
  }

  /** What `ensure_header_and_ratio` produces once the header text is known. */
  function Reheaded(doc: string, h: string): string {
    if IsHeaderLine(FirstLine(doc)) then h + "\n" + Trailer(AfterFirstLine(doc))
    else h + "\n" + (if Trailer(doc) == [] then [] else "\n" + Trailer(doc))
  }

  /** What Rehead does, stated on the document rather than on its lines: an
      existing header line is replaced and the rest kept; otherwise the header
      and a blank line go in front. Either way the text after the header loses
      its trailing whitespace and ends in one line feed. */
  lemma ReheadShape(doc: string, h: string)
    requires |h| > 0 && !IsSpace(h[|h| - 1])
    ensures Rehead(doc, h) == Reheaded(doc, h)
  {
    if IsHeaderLine(FirstLine(doc)) {
      ReheadReplaces(doc, h);
    } else {
      ReheadPrepends(doc, h);
    }
  }

  /** Reheaded is the header, a line feed and a cleanly ending body. */
  lemma ReheadedBody(doc: string, h: string) returns (u: string)
    ensures EndsClean(u) && Reheaded(doc, h) == h + "\n" + u
  {
    if IsHeaderLine(FirstLine(doc)) {
      u := Trailer(AfterFirstLine(doc));
      TrailerEnds(AfterFirstLine(doc));
    } else {
      var u0 := Trailer(doc);
      TrailerEnds(doc);
      u := if u0 == [] then [] else "\n" + u0;
      SeparatedEnds(u0);
    }
  }

  lemma SeparatedEnds(u: string)
    requires EndsClean(u)
    ensures EndsClean(if u == [] then [] else "\n" + u)
  {
    if u != [] {
      var v := "\n" + u;
      assert v[|v| - 1] == u[|u| - 1] && v[|v| - 2] == u[|u| - 2];
    }
  }

  /** A body that is empty or ends in a visible character and a line feed. */
  predicate EndsClean(u: string) {
    u == [] || (|u| >= 2 && u[|u| - 1] == '\n' && !IsSpace(u[|u| - 2]))
  }

  lemma TrailerEnds(x: string)
    ensures EndsClean(Trailer(x))
  {
    var t := RStrip(x);
    if t != [] {
      var u := t + "\n";
      assert u[|u| - 2] == t[|t| - 1];
    }
  }

  lemma CleanEnd(h: string, u: string)
    requires |h| > 0 && !IsSpace(h[|h| - 1])
    requires EndsClean(u)
    ensures var r := h + "\n" + u;
            |r| >= 2 && r[|r| - 1] == '\n' && !IsSpace(r[|r| - 2]) && r == h + ("\n" + u)
  {
    var r := h + "\n" + u;
    if u == [] {
      assert r[|r| - 2] == h[|h| - 1];
    } else {
      assert r[|r| - 1] == u[|u| - 1] && r[|r| - 2] == u[|u| - 2];
    }
  }

  /** The three promises of the header step, about Reheaded. */
  lemma ReheadedFacts(doc: string, source: string, original: nat, compressed: nat,
                      decimal: (nat, nat) -> string)
    ensures var r := Reheaded(doc, HeaderLine(source, original, compressed, decimal));
            && ParseRatio(source, r) == Some((original, compressed))
            && IsHeaderLine(FirstLine(r))
            && |r| >= 2 && r[|r| - 1] == '\n' && !IsSpace(r[|r| - 2])
  {
    var h := HeaderLine(source, original, compressed, decimal);
    var tail := HeadedEnds(doc, h);
    ParseRatioOfHeader(source, original, compressed, decimal, tail);
  }

  /** For any header line `h` ending in a visible character, Reheaded starts
      with `h`, has a header as its first line, and ends cleanly. */
  lemma HeadedEnds(doc: string, h: string) returns (tail: string)
    requires StartsWith(h, Tag) && |h| > 0 && !IsSpace(h[|h| - 1])
    ensures var r := Reheaded(doc, h);
            && r == h + tail
            && IsHeaderLine(FirstLine(r))
            && |r| >= 2 && r[|r| - 1] == '\n' && !IsSpace(r[|r| - 2])
  {
    var u := ReheadedBody(doc, h);
    CleanEnd(h, u);
    tail := "\n" + u;
    FirstLineStartsWithTag(h, tail);
  }

  /** `ensure_header_and_ratio(doc, source_label, original_words)`. */
  function EnsureHeaderAndRatio(doc: string, source: string, original: nat,
                                decimal: (nat, nat) -> string): (r: string)
    ensures |r| >= 2 && r[|r| - 1] == '\n' && !IsSpace(r[|r| - 2])
    ensures IsHeaderLine(FirstLine(r))
    ensures ParseRatio(source, r) == Some((original, CompressedWords(doc)))
    ensures r == Reheaded(doc, HeaderLine(source, original, CompressedWords(doc), decimal))
  {
    var h := HeaderLine(source, original, CompressedWords(doc), decimal);
    ReheadShape(doc, h);
    ReheadedFacts(doc, source, original, CompressedWords(doc), decimal);
    Rehead(doc, h)
  }

  /** The first line of anything that starts with a header starts with the tag. */
  lemma FirstLineStartsWithTag(h: string, rest: string)
    requires StartsWith(h, Tag)
    ensures IsHeaderLine(FirstLine(h + rest))
  {
    var s := h + rest;
    assert s[..|Tag|] == Tag;
    assert '\n' !in Tag;
    FindAfterPrefix(s, '\n', |Tag|);
    match Find(s, '\n')
    case None =>
    case Some(k) =>
      assert s[..k][..|Tag|] == Tag;
  }
}
