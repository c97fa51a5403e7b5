/**
 * The rewrites of the text after the binding loop: unclaimed definitions
 * are put back (lines 136-140), orphaned markers are reverted (lines
 * 143-146) and the remaining definition placeholders are stripped (line
 * 149). The source runs each `replace` on the flat string, with a pattern
 * built from an id; the model reads it as a rewrite of exactly the spans
 * that are placeholders of that id. That reading is an abstraction of the
 * string search: it rests on every trema of the user's text being followed
 * by `T`, so that no id holds the `¨F` that opens and closes a frame, and
 * it is not proved here about `Flatten`.
 */
module Restore {
  import opened JsString
  import opened Tokens

  /** Line 138 for one id: every placeholder of `ref` becomes `wMatch`;
      every other span stays where it is. */
  function RestoreOne(spans: seq<Span>, ref: string, wMatch: string): (r: seq<Span>)
    ensures |r| == |spans|
    ensures forall i :: 0 <= i < |spans| && spans[i] != DefTok(ref) ==> r[i] == spans[i]
    ensures forall i :: 0 <= i < |spans| && spans[i] == DefTok(ref) ==> r[i] == Lit(wMatch)
    ensures DefTok(ref) !in r
  {
    seq(|spans|, i requires 0 <= i < |spans| => if spans[i] == DefTok(ref) then Lit(wMatch) else spans[i])
  }

  /** The loop of lines 136-140 over every id of `refs`. */
  function RestoreDefs(spans: seq<Span>, refs: map<string, Definition>): (r: seq<Span>)
    ensures |r| == |spans|
  {
    seq(|spans|, i requires 0 <= i < |spans| =>
      if spans[i].DefTok? && spans[i].ref in refs then Lit(refs[spans[i].ref].wMatch) else spans[i])
  }

  /** Each placeholder of a registered id becomes that id's whole match,
      every other span stays where it is, and no placeholder of a registered
      id is left. */
  lemma RestoreDefsMeaning(spans: seq<Span>, refs: map<string, Definition>)
    ensures var r := RestoreDefs(spans, refs);
      && (forall i :: 0 <= i < |spans| && !(spans[i].DefTok? && spans[i].ref in refs) ==> r[i] == spans[i])
      && (forall i :: 0 <= i < |spans| && spans[i].DefTok? && spans[i].ref in refs ==> r[i] == Lit(refs[spans[i].ref].wMatch))
      && (forall sp :: sp in r && sp.DefTok? ==> sp.ref !in refs)
  {
  }

  /** One more id restored: the order in which the loop visits the ids of
      `footRefs` does not matter. */
  lemma RestoreDefsStep(spans: seq<Span>, refs: map<string, Definition>, pending: set<string>, u: string)
    requires u in pending && u in refs
    ensures RestoreOne(RestoreDefs(spans, refs - pending), u, refs[u].wMatch) == RestoreDefs(spans, refs - (pending - {u}))
  {
  }

  /** Line 145 for one id: every marker placeholder of `oRef` becomes
      `[^oRef]`; every other span stays where it is. */
  function RevertOne(spans: seq<Span>, oRef: string): (r: seq<Span>)
    ensures |r| == |spans|
    ensures forall i :: 0 <= i < |spans| && spans[i] != MarkTok(oRef) ==> r[i] == spans[i]
    ensures forall i :: 0 <= i < |spans| && spans[i] == MarkTok(oRef) ==> r[i] == Lit("[^" + oRef + "]")
    ensures MarkTok(oRef) !in r
  {
    seq(|spans|, i requires 0 <= i < |spans| => if spans[i] == MarkTok(oRef) then Lit("[^" + oRef + "]") else spans[i])
  }

  /** Line 144: the id the search is built from, with `¨D` turned back into `$`. */
  function UnescapeRefs(os: seq<string>): (r: seq<string>)
    ensures |r| == |os| && forall i :: 0 <= i < |os| ==> r[i] == UnescapeDollar(os[i])
  {
    seq(|os|, i requires 0 <= i < |os| => UnescapeDollar(os[i]))
  }

  /** The loop of lines 143-146, with the searched ids `oRefs`. */
  function RevertSpans(spans: seq<Span>, oRefs: seq<string>): (r: seq<Span>)
    ensures |r| == |spans|
  {
    seq(|spans|, i requires 0 <= i < |spans| =>
      if spans[i].MarkTok? && spans[i].ref in oRefs then Lit("[^" + spans[i].ref + "]") else spans[i])
  }

  /** Each marker placeholder of a searched id becomes `[^id]`, every other
      span stays where it is, and no marker placeholder of a searched id is
      left. */
  lemma RevertSpansMeaning(spans: seq<Span>, oRefs: seq<string>)
    ensures var r := RevertSpans(spans, oRefs);
      && (forall i :: 0 <= i < |spans| && !(spans[i].MarkTok? && spans[i].ref in oRefs) ==> r[i] == spans[i])
      && (forall i :: 0 <= i < |spans| && spans[i].MarkTok? && spans[i].ref in oRefs ==> r[i] == Lit("[^" + spans[i].ref + "]"))
      && (forall sp :: sp in r && sp.MarkTok? ==> sp.ref !in oRefs)
  {
  }

  lemma RevertSpansStep(spans: seq<Span>, os: seq<string>, y: nat)
    requires y < |os|
    ensures RevertOne(RevertSpans(spans, UnescapeRefs(os[..y])), UnescapeDollar(os[y]))
         == RevertSpans(spans, UnescapeRefs(os[..y + 1]))
  {
    var a := UnescapeRefs(os[..y]);
    var b := UnescapeRefs(os[..y + 1]);
    assert b == a + [UnescapeDollar(os[y])];
  }

  /** Line 149: every definition placeholder left is deleted. */
  function StripDefs(spans: seq<Span>): seq<Span> {
    if spans == [] then []
    else (if spans[0].DefTok? then [] else [spans[0]]) + StripDefs(spans[1..])
  }

  /** The strip keeps every other span, in order, and leaves no definition placeholder. */
  lemma {:induction false} StripDefsMeaning(spans: seq<Span>)
    ensures forall sp :: sp in StripDefs(spans) <==> sp in spans && !sp.DefTok?
  {
    if spans != [] {
      StripDefsMeaning(spans[1..]);
      assert spans == [spans[0]] + spans[1..];
    }
  }

  lemma {:induction false} StripDefsAppend(a: seq<Span>, b: seq<Span>)
    ensures StripDefs(a + b) == StripDefs(a) + StripDefs(b)
  {
    if a == [] {
      assert a + b == b;
    } else {
      assert (a + b)[1..] == a[1..] + b;
      StripDefsAppend(a[1..], b);
    }
  }

  /** The restore of definitions leaves the marker placeholders, and their order, alone. */
  lemma {:induction false} RestoreKeepsMarkers(spans: seq<Span>, refs: map<string, Definition>)
    ensures MarkRefs(RestoreDefs(spans, refs)) == MarkRefs(spans)
  {
    if spans != [] {
      var n := |spans| - 1;
      var r := RestoreDefs(spans, refs);
      assert r[..n] == RestoreDefs(spans[..n], refs);
      RestoreKeepsMarkers(spans[..n], refs);
      assert r[n].MarkTok? <==> spans[n].MarkTok?;
    }
  }

  /** Every span the strip keeps comes out in its place: the spans kept
      before it, then the span itself, start the stripped text. */
  lemma StripDefsKeeps(spans: seq<Span>, i: nat)
    requires i < |spans| && !spans[i].DefTok?
    ensures StripDefs(spans[..i]) + [spans[i]] <= StripDefs(spans)
  {
    assert spans == spans[..i] + ([spans[i]] + spans[i + 1..]);
    StripDefsAppend(spans[..i], [spans[i]] + spans[i + 1..]);
    assert StripDefs([spans[i]] + spans[i + 1..]) == [spans[i]] + StripDefs(spans[i + 1..]) by {
      assert ([spans[i]] + spans[i + 1..])[1..] == spans[i + 1..];
    }
  }
}
