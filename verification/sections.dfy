/** `ensure_required_sections`: the four section markers every compressed document
    must contain. Only presence is checked; order and position are not. */
module Sections {
  import opened Text

  const Required: seq<string> := [
    "// Context frame",
    "// Tier 3 payload",
    "// Activation cues",
    "// Behavioral constraints"
  ]

  /** Pass, or the run-ending error naming the missing markers. */
  datatype Check = Pass | Missing(markers: seq<string>)

  /** `a` keeps some of the elements of `b`, in the same order. */
  ghost predicate IsSubsequence<T>(a: seq<T>, b: seq<T>)
    decreases |b|
  {
    if a == [] then true
    else if b == [] then false
    else (a[0] == b[0] && IsSubsequence(a[1..], b[1..])) || IsSubsequence(a, b[1..])
  }

  /** `[m for m in markers if m not in doc]`. */
  function MissingFrom(doc: string, markers: seq<string>): (r: seq<string>)
    ensures forall m :: m in r <==> m in markers && !Contains(doc, m)
    ensures IsSubsequence(r, markers)
    decreases |markers|
  {
    if markers == [] then []
    else
      var rest := MissingFrom(doc, markers[1..]);
      if Contains(doc, markers[0]) then rest else [markers[0]] + rest
  }

  /** `ensure_required_sections(doc)`. */
  function EnsureRequiredSections(doc: string): (r: Check)
    ensures r.Pass? <==> forall i :: 0 <= i < |Required| ==> Contains(doc, Required[i])
    ensures r.Missing? ==> r.markers != []
    ensures r.Missing? ==>
              (forall m :: m in r.markers <==> m in Required && !Contains(doc, m))
              && IsSubsequence(r.markers, Required)
  {
    var missing := MissingFrom(doc, Required);
    if missing != [] then
      Missing(missing)
    else
      assert forall i :: 0 <= i < |Required| ==> Contains(doc, Required[i]) by {
        forall i | 0 <= i < |Required|
          ensures Contains(doc, Required[i])
        {
          assert Required[i] in Required;
        }
      }
      Pass
  }

  /** A document lacking exactly one marker fails naming exactly that marker. */
  lemma {:induction false} OnlyMissingMarker(doc: string, k: nat)
    requires k < |Required|
    requires !Contains(doc, Required[k])
    requires forall i :: 0 <= i < |Required| && i != k ==> Contains(doc, Required[i])
    ensures EnsureRequiredSections(doc) == Missing([Required[k]])
  {
    var r := Required;
    assert MissingFrom(doc, r[4..]) == [];
    assert r[3..][1..] == r[4..];
    assert r[2..][1..] == r[3..];
    assert r[1..][1..] == r[2..];
    if k == 0 {
      assert Contains(doc, r[1]) && Contains(doc, r[2]) && Contains(doc, r[3]);
    } else if k == 1 {
      assert Contains(doc, r[0]) && Contains(doc, r[2]) && Contains(doc, r[3]);
    } else if k == 2 {
      assert Contains(doc, r[0]) && Contains(doc, r[1]) && Contains(doc, r[3]);
    } else {
      assert Contains(doc, r[0]) && Contains(doc, r[1]) && Contains(doc, r[2]);
    }
  }

  /** Presence survives putting text before or after the document. */
  lemma ContainsInContext(pre: string, doc: string, post: string, m: string)
    requires Contains(doc, m)
    ensures Contains(pre + doc + post, m)
  {
    var i := OccurrenceFromContains(doc, m);
    var s := pre + doc + post;
    assert s[|pre| + i..|pre| + i + |m|] == doc[i..i + |m|];
    ContainsFromOccurrence(s, m, |pre| + i);
  }

  lemma {:induction false} MissingFromPresence(x: string, y: string, markers: seq<string>)
    requires forall i :: 0 <= i < |markers| ==> (Contains(x, markers[i]) <==> Contains(y, markers[i]))
    ensures MissingFrom(x, markers) == MissingFrom(y, markers)
    decreases |markers|
  {
    if markers != [] {
      MissingFromPresence(x, y, markers[1..]);
    }
  }

  /** The verdict depends only on which markers occur, not on where or in what
      order: two documents with the same markers present get the same result. */
  lemma PresenceOnly(x: string, y: string)
    requires forall i :: 0 <= i < |Required| ==> (Contains(x, Required[i]) <==> Contains(y, Required[i]))
    ensures EnsureRequiredSections(x) == EnsureRequiredSections(y)
  {
    MissingFromPresence(x, y, Required);
  }
}
