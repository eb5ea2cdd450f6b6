/** `extract_message_text` and the lookup `data["choices"][0]["message"]["content"]`
    that `call_openrouter` applies to a decoded chat-completion response. */
module Message {
  import opened Results
  import opened Json

  /** Why flattening failed: `"".join` met a part that is not a string. The index
      counts positions in the list of text parts. */
  datatype ExtractError = NonStringPart(index: nat)

  /** A list item contributes text when it is a dict whose "type" is "text". */
  predicate IsTextPart(item: Value) {
    item.Obj? && Get(item.fields, "type", Null) == Str("text")
  }

  /** `item.get("text", "")`. */
  function PartText(item: Value): Value
    requires IsTextPart(item)
  {
    Get(item.fields, "text", Str(""))
  }

  /** The `parts` list the loop builds: the text of every text part, in order. */
  function TextParts(items: seq<Value>): (parts: seq<Value>)
    ensures |parts| <= |items|
    ensures items != [] && IsTextPart(items[0]) ==> parts != [] && parts[0] == PartText(items[0])
    decreases |items|
  {
    if items == [] then []
    else (if IsTextPart(items[0]) then [PartText(items[0])] else []) + TextParts(items[1..])
  }

  /** A list without text parts yields no parts, and a list of text parts
      yields one part per item. */
  lemma {:induction false} TextPartsCount(items: seq<Value>)
    ensures (forall i :: 0 <= i < |items| ==> !IsTextPart(items[i])) ==> TextParts(items) == []
    ensures (forall i :: 0 <= i < |items| ==> IsTextPart(items[i])) ==> |TextParts(items)| == |items|
    decreases |items|
  {
    if items != [] {
      var tail := items[1..];
      assert forall i :: 0 <= i < |tail| ==> tail[i] == items[i + 1];
      TextPartsCount(tail);
    }
  }

  /** Every part is a string. */
  predicate AllStrings(parts: seq<Value>) {
    forall j :: 0 <= j < |parts| ==> parts[j].Str?
  }

  /** The first `n` parts are strings. */
  predicate StringsBefore(parts: seq<Value>, n: nat) {
    forall j :: 0 <= j < n && j < |parts| ==> parts[j].Str?
  }

  /** `"".join(parts)`: the concatenation, or the index of the first
      non-string. The join succeeds exactly when every part is a string. */
  function JoinParts(parts: seq<Value>): (r: Result<string, nat>)
    ensures r.Ok? <==> AllStrings(parts)
    ensures r.Err? ==> r.error < |parts| && !parts[r.error].Str?
    ensures r.Err? ==> StringsBefore(parts, r.error)
    decreases |parts|
  {
    if parts == [] then Ok([])
    else if !parts[0].Str? then Err(0)
    else
      assert forall i :: 1 <= i < |parts| ==> parts[i] == parts[1..][i - 1];
      match JoinParts(parts[1..])
      case Ok(s) => Ok(parts[0].s + s)
      case Err(i) => Err(i + 1)
  }

  /** The text of every text part in the list is a string. */
  predicate TextsAreStrings(items: seq<Value>) {
    forall i :: 0 <= i < |items| && IsTextPart(items[i]) ==> PartText(items[i]).Str?
  }

  /** `extract_message_text(content)`; `show` stands for `str(content)`. A
      list flattens without error exactly when the text of every text part is
      a string; the error names the first text part whose text is not. */
  function ExtractMessageText(content: Value, show: Value -> string): (r: Result<string, ExtractError>)
    ensures content.Str? ==> r == Ok(content.s)
    ensures !content.Str? && !content.Arr? ==> r == Ok(show(content))
    ensures content.Arr? ==> (r.Ok? <==> TextsAreStrings(content.items))
    ensures content.Arr? && r.Err? ==>
              var ps := TextParts(content.items);
              && r.error.index < |ps| && !ps[r.error.index].Str?
              && StringsBefore(ps, r.error.index)
  {
    if content.Str? then Ok(content.s)
    else if content.Arr? then
      TextPartsAreStrings(content.items);
      match JoinParts(TextParts(content.items))
      case Ok(s) => Ok(s)
      case Err(i) => Err(NonStringPart(i))
    else Ok(show(content))
  }

  lemma {:induction false} TextPartsAppend(a: seq<Value>, b: seq<Value>)
    ensures TextParts(a + b) == TextParts(a) + TextParts(b)
    decreases |a|
  {
    if a == [] {
      assert a + b == b;
    } else {
      var ab := a + b;
      var head := if IsTextPart(a[0]) then [PartText(a[0])] else [];
      assert TextParts(ab) == head + TextParts(a[1..] + b) by {
        assert ab[0] == a[0] && ab[1..] == a[1..] + b;
      }
      assert TextParts(a) == head + TextParts(a[1..]);
      TextPartsAppend(a[1..], b);
      assert head + (TextParts(a[1..]) + TextParts(b)) == (head + TextParts(a[1..])) + TextParts(b);
    }
  }

  /** The collected parts are exactly the texts of the text parts. */
  lemma {:induction false} TextPartsMembers(items: seq<Value>)
    ensures forall v :: v in TextParts(items) <==>
              exists i :: 0 <= i < |items| && IsTextPart(items[i]) && PartText(items[i]) == v
    decreases |items|
  {
    if items != [] {
      var tail := items[1..];
      TextPartsMembers(tail);
      var head := if IsTextPart(items[0]) then [PartText(items[0])] else [];
      assert TextParts(items) == head + TextParts(tail);
      forall v
        ensures v in TextParts(items) <==>
                exists i :: 0 <= i < |items| && IsTextPart(items[i]) && PartText(items[i]) == v
      {
        if v in TextParts(tail) {
          var k :| 0 <= k < |tail| && IsTextPart(tail[k]) && PartText(tail[k]) == v;
          assert items[k + 1] == tail[k];
        }
        if exists i :: 0 <= i < |items| && IsTextPart(items[i]) && PartText(items[i]) == v {
          var i :| 0 <= i < |items| && IsTextPart(items[i]) && PartText(items[i]) == v;
          if i > 0 {
            assert tail[i - 1] == items[i];
          }
        }
      }
    }
  }

  /** Every collected part is a string exactly when every text part's text is. */
  lemma TextPartsAreStrings(items: seq<Value>)
    ensures AllStrings(TextParts(items)) <==> TextsAreStrings(items)
  {
    TextPartsMembers(items);
    var ps := TextParts(items);
    if AllStrings(ps) {
      forall i | 0 <= i < |items| && IsTextPart(items[i])
        ensures PartText(items[i]).Str?
      {
        assert PartText(items[i]) in ps;
      }
    }
    if TextsAreStrings(items) {
      forall j | 0 <= j < |ps|
        ensures ps[j].Str?
      {
        assert ps[j] in ps;
      }
    }
  }

  /** How `"".join` of two lists combines: an error in the first wins, an error
      in the second is shifted past the first, and two texts concatenate. */
  function Combine(jx: Result<string, nat>, jy: Result<string, nat>, shift: nat): Result<string, nat> {
    if jx.Err? then jx
    else if jy.Err? then Err(shift + jy.error)
    else Ok(jx.value + jy.value)
  }

  lemma {:induction false} JoinPartsAppend(x: seq<Value>, y: seq<Value>)
    ensures JoinParts(x + y) == Combine(JoinParts(x), JoinParts(y), |x|)
    decreases |x|
  {
    if x == [] {
      assert x + y == y;
      if JoinParts(y).Ok? {
        assert [] + JoinParts(y).value == JoinParts(y).value;
      }
    } else {
      var xy := x + y;
      assert xy[0] == x[0] && xy[1..] == x[1..] + y;
      if x[0].Str? {
        JoinPartsAppend(x[1..], y);
        JoinStep(x[0].s, JoinParts(x[1..]), JoinParts(y), |x[1..]|);
      }
    }
  }

  lemma JoinStep(h: string, jx: Result<string, nat>, jy: Result<string, nat>, shift: nat)
    ensures var c := Combine(jx, jy, shift);
            var lifted := if jx.Ok? then Ok(h + jx.value) else Err(jx.error + 1);
            (if c.Ok? then Ok(h + c.value) else Err(c.error + 1)) == Combine(lifted, jy, shift + 1)
  {
    if jx.Ok? && jy.Ok? {
      assert h + (jx.value + jy.value) == (h + jx.value) + jy.value;
    }
  }

  /** The text parts and the joined result of a concatenated list, in terms of
      the halves. */
  lemma JoinedHalves(a: seq<Value>, b: seq<Value>)
    ensures TextParts(a + b) == TextParts(a) + TextParts(b)
    ensures var ja, jb := JoinParts(TextParts(a)), JoinParts(TextParts(b));
            var j := JoinParts(TextParts(a + b));
            j == Combine(ja, jb, |TextParts(a)|)
  {
    TextPartsAppend(a, b);
    JoinPartsAppend(TextParts(a), TextParts(b));
  }

  /** Flattening a list is flattening its halves and concatenating; an error in
      the first half wins, an error in the second is shifted past the first
      half's text parts. */
  lemma {:induction false} ExtractAppend(a: seq<Value>, b: seq<Value>, show: Value -> string)
    ensures var ra := ExtractMessageText(Arr(a), show);
            var rb := ExtractMessageText(Arr(b), show);
            var r := ExtractMessageText(Arr(a + b), show);
            && (ra.Err? ==> r == ra)
            && (ra.Ok? && rb.Err? ==> r == Err(NonStringPart(|TextParts(a)| + rb.error.index)))
            && (ra.Ok? && rb.Ok? ==> r == Ok(ra.value + rb.value))
  {
    var ja, jb := JoinParts(TextParts(a)), JoinParts(TextParts(b));
    var ra, rb, r := ExtractMessageText(Arr(a), show), ExtractMessageText(Arr(b), show),
                     ExtractMessageText(Arr(a + b), show);
    assert ra == Lift(ja) by { JoinedAsExtracted(a, show); }
    assert rb == Lift(jb) by { JoinedAsExtracted(b, show); }
    assert r == Lift(Combine(ja, jb, |TextParts(a)|)) by { ExtractHalves(a, b, show); }
    LiftCombine(ra, rb, r, ja, jb, |TextParts(a)|);
  }

  lemma LiftCombine(ra: Result<string, ExtractError>, rb: Result<string, ExtractError>,
                    r: Result<string, ExtractError>, ja: Result<string, nat>, jb: Result<string, nat>, n: nat)
    requires ra == Lift(ja) && rb == Lift(jb) && r == Lift(Combine(ja, jb, n))
    ensures ra.Err? ==> r == ra
    ensures ra.Ok? && rb.Err? ==> r == Err(NonStringPart(n + rb.error.index))
    ensures ra.Ok? && rb.Ok? ==> r == Ok(ra.value + rb.value)
  {
  }

  lemma ExtractHalves(a: seq<Value>, b: seq<Value>, show: Value -> string)
    ensures ExtractMessageText(Arr(a + b), show) ==
              Lift(Combine(JoinParts(TextParts(a)), JoinParts(TextParts(b)), |TextParts(a)|))
  {
    JoinedHalves(a, b);
    JoinedAsExtracted(a + b, show);
  }

  /** The error of `"".join` as ExtractMessageText reports it. */
  function Lift(j: Result<string, nat>): Result<string, ExtractError> {
    if j.Ok? then Ok(j.value) else Err(NonStringPart(j.error))
  }

  lemma JoinedAsExtracted(items: seq<Value>, show: Value -> string)
    ensures ExtractMessageText(Arr(items), show) == Lift(JoinParts(TextParts(items)))
  {
  }

  /** Items that are not text parts contribute nothing. */
  lemma IgnoresOtherItems(a: seq<Value>, x: Value, b: seq<Value>, show: Value -> string)
    requires !IsTextPart(x)
    ensures ExtractMessageText(Arr(a + [x] + b), show) == ExtractMessageText(Arr(a + b), show)
  {
    assert TextParts([x]) == [] by {
      assert forall i :: 0 <= i < |[x]| ==> !IsTextPart([x][i]);
    }
    TextPartsAppend(a + [x], b);
    TextPartsAppend(a, [x]);
    TextPartsAppend(a, b);
    assert TextParts(a + [x]) == TextParts(a);
    SamePartsSameText(a + [x] + b, a + b, show);
  }

  lemma SamePartsSameText(p: seq<Value>, q: seq<Value>, show: Value -> string)
    requires TextParts(p) == TextParts(q)
    ensures ExtractMessageText(Arr(p), show) == ExtractMessageText(Arr(q), show)
  {
    JoinedAsExtracted(p, show);
    JoinedAsExtracted(q, show);
  }

  /** A typed part carrying the string `s`. */
  function TextPart(s: string): Value {
    Obj(map["type" := Str("text"), "text" := Str(s)])
  }

  function TextPartsOf(ss: seq<string>): (items: seq<Value>)
    ensures |items| == |ss|
    decreases |ss|
  {
    if ss == [] then [] else [TextPart(ss[0])] + TextPartsOf(ss[1..])
  }

  function ConcatAll(ss: seq<string>): string
    decreases |ss|
  {
    if ss == [] then [] else ss[0] + ConcatAll(ss[1..])
  }

  /** Encoding strings as typed text parts and flattening gives their concatenation. */
  lemma {:induction false} ExtractTextParts(ss: seq<string>, show: Value -> string)
    ensures ExtractMessageText(Arr(TextPartsOf(ss)), show) == Ok(ConcatAll(ss))
    decreases |ss|
  {
    if ss != [] {
      var head := TextPart(ss[0]);
      assert IsTextPart(head) && PartText(head) == Str(ss[0]);
      assert TextParts([head]) == [Str(ss[0])] by {
        assert [head][1..] == [];
      }
      ExtractTextParts(ss[1..], show);
      ExtractAppend([head], TextPartsOf(ss[1..]), show);
      assert [head] + TextPartsOf(ss[1..]) == TextPartsOf(ss);
    }
  }

  /** `data["choices"][0]["message"]["content"]`; None stands for the KeyError,
      IndexError or TypeError any other shape raises. */
  function ResponseContent(data: Value): (r: Option<Value>)
    ensures r.Some? <==>
              && data.Obj? && "choices" in data.fields
              && data.fields["choices"].Arr? && |data.fields["choices"].items| > 0
              && data.fields["choices"].items[0].Obj?
              && "message" in data.fields["choices"].items[0].fields
              && data.fields["choices"].items[0].fields["message"].Obj?
              && "content" in data.fields["choices"].items[0].fields["message"].fields
    ensures r.Some? ==> r.value == data.fields["choices"].items[0].fields["message"].fields["content"]
  {
    if !data.Obj? || "choices" !in data.fields then None
    else
      var choices := data.fields["choices"];
      if !choices.Arr? || |choices.items| == 0 then None
      else
        var first := choices.items[0];
        if !first.Obj? || "message" !in first.fields then None
        else
          var message := first.fields["message"];
          if !message.Obj? || "content" !in message.fields then None
          else Some(message.fields["content"])
  }
}
