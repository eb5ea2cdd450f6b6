/** `parse_json_block`: a model reply is trimmed, unwrapped from a Markdown code
    fence, parsed strictly, and on failure parsed again from the span between the
    first `{` and the last `}`.  The JSON decoder itself is the parameter `parse`:
    None is a decoding error. */
module JsonBlock {
  import opened Results
  import opened Text
  import opened Json

  const Fence: string := "```"

  /** `json.JSONDecodeError`, carrying the document that failed to decode. */
  datatype DecodeError = DecodeError(doc: string)

  /** `re.sub(r"^```(?:json)?\s*", "", text)` on a text that opens with a fence:
      the fence, an optional `json` tag and the whitespace after them go. */
  function DropOpeningFence(text: string): (r: string)
    requires StartsWith(text, Fence)
    ensures |r| <= |text| - |Fence| && r == text[|text| - |r|..]
    ensures r == [] || !IsSpace(r[0])
  {
    var t := text[|Fence|..];
    LStrip(if StartsWith(t, "json") then t[4..] else t)
  }

  /** `re.sub(r"\s*```$", "", text)`: a closing fence at the very end, or just
      before a final line feed (where `$` also matches), goes with the
      whitespace before it. */
  function DropClosingFence(text: string): (r: string)
    ensures |r| <= |text|
    ensures EndsWith(text, Fence) ==> r == text[..|r|] && (r == [] || !IsSpace(r[|r| - 1]))
    ensures !EndsWith(text, Fence) && !EndsWith(text, Fence + "\n") ==> r == text
    ensures !EndsWith(text, Fence) && EndsWith(text, Fence + "\n") ==>
              |r| >= 1 && r[|r| - 1] == '\n' && (|r| == 1 || !IsSpace(r[|r| - 2])) && r[..|r| - 1] == text[..|r| - 1]
  {
    if EndsWith(text, Fence) then RStrip(text[..|text| - |Fence|])
    else if EndsWith(text, Fence + "\n") then RStrip(text[..|text| - |Fence| - 1]) + "\n"
    else text
  }

  /** The fence handling of `parse_json_block`, applied to the stripped reply:
      a text that opens with a fence loses at least the fence, and any other
      text is kept as it is. */
  function Unfence(text: string): (r: string)
    ensures !StartsWith(text, Fence) ==> r == text
    ensures StartsWith(text, Fence) ==> |r| <= |text| - |Fence|
  {
    if StartsWith(text, Fence) then DropClosingFence(DropOpeningFence(text)) else text
  }

  /** `re.search(r"\{.*\}", text, flags=re.DOTALL)`: the match as a half-open
      index range, from the first `{` to the last `}` after it. */
  function BraceSpan(text: string): (r: Option<(nat, nat)>)
    ensures r.Some? ==>
              var (s, e) := r.value;
              && s < e <= |text| && text[s] == '{' && text[e - 1] == '}'
  {
    match Find(text, '{')
    case None => None
    case Some(i) =>
      match FindLast(text, '}')
      case None => None
      case Some(j) => if i < j then Some((i, j + 1)) else None
  }

  /** The span starts at the first `{` and ends after the last `}`. */
  lemma BraceSpanExtreme(text: string)
    ensures BraceSpan(text).Some? ==>
              var (s, e) := BraceSpan(text).value;
              '{' !in text[..s] && '}' !in text[e..]
  {
  }

  /** There is no span exactly when no `{` comes before a `}`. */
  lemma BraceSpanNone(text: string)
    ensures BraceSpan(text).None? <==>
              !exists i, j :: 0 <= i < j < |text| && text[i] == '{' && text[j] == '}'
  {
    match Find(text, '{')
    case None =>
    case Some(i) =>
      match FindLast(text, '}')
      case None =>
      case Some(j) =>
        if j <= i {
          assert forall k :: 0 <= k < i ==> text[k] == text[..i][k];
          assert forall k :: j < k < |text| ==> text[k] == text[j + 1..][k - j - 1];
        }
  }

  /** `parse_json_block(raw)`. */
  function ParseJsonBlock(raw: string, parse: string -> Option<Value>): (r: Result<Value, DecodeError>)
    ensures var text := Unfence(Strip(raw));
            parse(text).Some? ==> r == Ok(parse(text).value)
    ensures var text := Unfence(Strip(raw));
            r.Ok? ==> exists i, j :: 0 <= i <= j <= |text| && parse(text[i..j]) == Some(r.value)
    ensures var text := Unfence(Strip(raw));
            parse(text).None? && BraceSpan(text).None? ==> r == Err(DecodeError(text))
    ensures var text := Unfence(Strip(raw));
            parse(text).None? && BraceSpan(text).Some? ==>
              var (s, e) := BraceSpan(text).value;
              r == (if parse(text[s..e]).Some? then Ok(parse(text[s..e]).value) else Err(DecodeError(text[s..e])))
    ensures var text := Unfence(Strip(raw));
            r.Err? ==>
              && parse(text).None?
              && (BraceSpan(text).None? ==> r.error == DecodeError(text))
              && (BraceSpan(text).Some? ==>
                    var (s, e) := BraceSpan(text).value;
                    r.error == DecodeError(text[s..e]) && parse(text[s..e]).None?)
  {
    var text := Unfence(Strip(raw));
    match parse(text)
    case Some(v) =>
      assert text[0..|text|] == text;
      Ok(v)
    case None =>
      match BraceSpan(text)
      case None => Err(DecodeError(text))
      case Some((s, e)) =>
        match parse(text[s..e])
        case Some(v) => Ok(v)
        case None => Err(DecodeError(text[s..e]))
  }

  /** The span from the first `{` to the last `}` of `pre + s + post` is `s`
      when the surrounding prose has no `{` before and no `}` after it. */
  lemma BraceSpanOf(pre: string, s: string, post: string)
    requires |s| >= 2 && s[0] == '{' && s[|s| - 1] == '}'
    requires '{' !in pre && '}' !in post
    ensures BraceSpan(pre + s + post) == Some((|pre|, |pre| + |s|))
  {
    var text := pre + s + post;
    var e := |pre| + |s|;
    Pieces3(pre, s, post);
    BraceSpanAt(text, |pre|, e);
  }

  /** The span runs from a `{` with none before it to a `}` with none after it. */
  lemma BraceSpanAt(text: string, i: nat, e: nat)
    requires i + 1 < e <= |text| && text[i] == '{' && text[e - 1] == '}'
    requires '{' !in text[..i] && '}' !in text[e..]
    ensures BraceSpan(text) == Some((i, e))
  {
    FindIs(text, '{', i);
    FindLastIs(text, '}', e - 1);
  }

  /** The opening fence, its tag and the whitespace after them are removed. */
  lemma DropOpeningFenceOf(tag: string, w1: string, rest: string)
    requires tag == "json" || tag == []
    requires AllSpace(w1)
    requires rest != [] && !IsSpace(rest[0])
    requires tag == [] ==> (w1 + rest)[0] != 'j'
    ensures DropOpeningFence(Fence + (tag + (w1 + rest))) == rest
  {
    var text := Fence + (tag + (w1 + rest));
    var t := tag + (w1 + rest);
    var u := w1 + rest;
    assert StartsWith(text, Fence) && text[|Fence|..] == t by {
      assert text[..|Fence|] == Fence;
    }
    assert (if StartsWith(t, "json") then t[4..] else t) == u by {
      if tag == "json" {
        assert t[..4] == tag;
        assert t[4..] == u;
      } else {
        assert t == u;
        if |t| >= 4 {
          assert t[..4][0] == t[0];
        }
      }
    }
    assert LStrip(u) == rest by {
      TrimStartDropped(w1, rest, IsSpace);
      TrimStartKeeps(rest, IsSpace);
    }
  }

  /** Whitespace and a closing fence at the very end are removed. */
  lemma DropClosingFenceOf(s: string, w2: string)
    requires AllSpace(w2)
    requires s != [] && !IsSpace(s[|s| - 1])
    ensures DropClosingFence(s + (w2 + Fence)) == s
  {
    var inner := s + (w2 + Fence);
    assert inner[|inner| - |Fence|..] == Fence;
    assert EndsWith(inner, Fence);
    var body := inner[..|inner| - |Fence|];
    assert body == s + w2;
    SpacesTrimToNothing(w2);
    TrimEndAppend(s, w2, IsSpace);
    TrimEndKeeps(s, IsSpace);
    assert RStrip(body) == s;
  }

  /** Wrapping `s` as a fenced block, with or without a `json` tag and with any
      whitespace inside the fences, unwraps to `s` again. Without a tag, the
      text after the fence must not start with `j`, or the tag pattern could
      eat part of it. */
  lemma UnfenceWrapped(tag: string, w1: string, s: string, w2: string)
    requires tag == "json" || tag == []
    requires AllSpace(w1) && AllSpace(w2)
    requires s != [] && !IsSpace(s[0]) && !IsSpace(s[|s| - 1])
    requires tag == [] ==> (w1 + s)[0] != 'j'
    ensures Unfence(Fence + tag + w1 + s + w2 + Fence) == s
  {
    var rest := s + (w2 + Fence);
    assert Fence + tag + w1 + s + w2 + Fence == Fence + (tag + (w1 + rest));
    assert (w1 + rest)[0] == (w1 + s)[0];
    DropOpeningFenceOf(tag, w1, rest);
    DropClosingFenceOf(s, w2);
    assert (Fence + (tag + (w1 + rest)))[..|Fence|] == Fence;
  }

  /** A reply that is a fenced JSON block decodes to what the decoder makes of
      the text inside the fences. */
  lemma FencedRoundTrip(p: string, tag: string, w1: string, s: string, w2: string, q: string,
                        parse: string -> Option<Value>, v: Value)
    requires AllSpace(p) && AllSpace(q) && AllSpace(w1) && AllSpace(w2)
    requires tag == "json" || tag == []
    requires s != [] && !IsSpace(s[0]) && !IsSpace(s[|s| - 1])
    requires tag == [] ==> (w1 + s)[0] != 'j'
    requires parse(s) == Some(v)
    ensures ParseJsonBlock(p + (Fence + tag + w1 + s + w2 + Fence) + q, parse) == Ok(v)
  {
    var block := Fence + tag + w1 + s + w2 + Fence;
    assert block[0] == '`' && block[|block| - 1] == '`';
    StripPadded(p, block, q);
    UnfenceWrapped(tag, w1, s, w2);
  }

  lemma StripPadded(p: string, x: string, q: string)
    requires AllSpace(p) && AllSpace(q)
    requires x != [] && !IsSpace(x[0]) && !IsSpace(x[|x| - 1])
    ensures Strip(p + x + q) == x
  {
    var y := x + q;
    assert p + x + q == p + y;
    TrimStartDropped(p, y, IsSpace);
    TrimStartKeeps(x, IsSpace);
    TrimStartKept(x, q, IsSpace);
    assert TrimStart(p + y, IsSpace) == y;
    TrimEndAppend(x, q, IsSpace);
    SpacesTrimToNothing(q);
    TrimEndKeeps(x, IsSpace);
    assert TrimEnd(y, IsSpace) == x;
  }

  /** When the strict parse of the stripped and unfenced reply fails, the
      reply decodes to what its text from the first `{` to the last `}` decodes
      to. */
  lemma FallbackToSpan(raw: string, parse: string -> Option<Value>, a: nat, e: nat, v: Value)
    requires var text := Unfence(Strip(raw));
             && a + 1 < e <= |text| && text[a] == '{' && text[e - 1] == '}'
             && '{' !in text[..a] && '}' !in text[e..]
    requires parse(Unfence(Strip(raw))) == None
    requires parse(Unfence(Strip(raw))[a..e]) == Some(v)
    ensures ParseJsonBlock(raw, parse) == Ok(v)
  {
    BraceSpanAt(Unfence(Strip(raw)), a, e);
  }

  /** A reply that wraps one JSON object in prose (no `{` before it, no `}`
      after it) decodes to that object once the strict parse fails. */
  lemma ProseRoundTrip(pre: string, s: string, post: string, parse: string -> Option<Value>, v: Value)
    requires |s| >= 2 && s[0] == '{' && s[|s| - 1] == '}'
    requires '{' !in pre && '}' !in post
    requires pre == [] || (!IsSpace(pre[0]) && pre[0] != '`')
    requires post == [] || !IsSpace(post[|post| - 1])
    requires parse(pre + s + post) == None
    requires parse(s) == Some(v)
    ensures ParseJsonBlock(pre + s + post, parse) == Ok(v)
  {
    var text := pre + s + post;
    assert text[0] == (if pre == [] then '{' else pre[0]);
    assert text[|text| - 1] == (if post == [] then '}' else post[|post| - 1]);
    StripUnpadded(text);
    assert text[..|Fence|][0] == text[0];
    assert Unfence(Strip(text)) == text;
    BraceSpanOf(pre, s, post);
    assert text[|pre|..|pre| + |s|] == s;
  }

  /** Without a `{` before a `}` (no braces at all, or only `}` … `{`), a text
      the decoder rejects fails with the decoder's own error on the whole text. */
  lemma NoSpanPropagates(raw: string, parse: string -> Option<Value>)
    requires parse(Unfence(Strip(raw))).None?
    requires var text := Unfence(Strip(raw));
             !exists i, j :: 0 <= i < j < |text| && text[i] == '{' && text[j] == '}'
    ensures ParseJsonBlock(raw, parse) == Err(DecodeError(Unfence(Strip(raw))))
  {
    BraceSpanNone(Unfence(Strip(raw)));
  }
}
