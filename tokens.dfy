/**
 * The text between the passes of the tokenizer. After the trema escape every
 * trema of the text is followed by `T`, so the placeholders the two scans
 * write (`¨F¨R¨S id ¨F¨R¨E` for a definition, `¨F¨M¨S id ¨F¨M¨E` for a
 * marker) can be told apart from the text around them: the text is kept as
 * a sequence of spans, and `Flatten` spells it out as the string the source
 * holds.
 */
module Tokens {
  import opened JsString
  import opened Scanner

  datatype Span = Lit(text: string) | DefTok(ref: string) | MarkTok(ref: string)

  /** What the definition callback stores under an id (lines 97-100). */
  datatype Definition = Definition(content: string, wMatch: string)

  /** `¨F¨<kind>¨S ref ¨F¨<kind>¨E`; the kind is `R` for definitions, `M` for markers. */
  function Frame(kind: char, ref: string): string {
    [Trema, 'F', Trema, kind, Trema, 'S'] + ref + [Trema, 'F', Trema, kind, Trema, 'E']
  }

  function DefPlaceholder(ref: string): string { Frame('R', ref) }

  function MarkPlaceholder(ref: string): string { Frame('M', ref) }

  function Spell(sp: Span): string {
    match sp
    case Lit(s) => s
    case DefTok(r) => DefPlaceholder(r)
    case MarkTok(r) => MarkPlaceholder(r)
  }

  /** The string the source holds for a sequence of spans. */
  function Flatten(spans: seq<Span>): string {
    if spans == [] then [] else Spell(spans[0]) + Flatten(spans[1..])
  }

  lemma {:induction false} FlattenAppend(a: seq<Span>, b: seq<Span>)
    ensures Flatten(a + b) == Flatten(a) + Flatten(b)
  {
    if a == [] {
      assert a + b == b;
    } else {
      assert (a + b)[1..] == a[1..] + b;
      FlattenAppend(a[1..], b);
    }
  }

  // ---------------------------------------------------------------------------
  // The definition callback (lines 95-103)

  /** The callback's return value for one piece of the definition scan. */
  function DefSpan(p: DefPiece): Span {
    match p
    case Plain(s) => Lit(s)
    case Def(id, _, _) => DefTok(EscapeDollar(id))
  }

  function DefSpans(ps: seq<DefPiece>): (r: seq<Span>)
    ensures |r| == |ps| && forall i :: 0 <= i < |ps| ==> r[i] == DefSpan(ps[i])
  {
    seq(|ps|, i requires 0 <= i < |ps| => DefSpan(ps[i]))
  }

  /** The i-th piece is a definition whose escaped id is `ref`. */
  predicate DefinesAt(ps: seq<DefPiece>, i: nat, ref: string)
    requires i < |ps|
  {
    ps[i].Def? && EscapeDollar(ps[i].id) == ref
  }

  /** `footRefs` after the callback has run for every piece, in order. */
  function DefTable(ps: seq<DefPiece>): map<string, Definition> {
    if ps == [] then map[]
    else
      var last := ps[|ps| - 1];
      var m := DefTable(ps[..|ps| - 1]);
      match last
      case Plain(_) => m
      case Def(id, content, whole) => m[EscapeDollar(id) := Definition(content, whole)]
  }

  /** One more piece of the definition scan. */
  lemma DefStep(ps: seq<DefPiece>, i: nat)
    requires i < |ps|
    ensures DefSpans(ps[..i + 1]) == DefSpans(ps[..i]) + [DefSpan(ps[i])]
    ensures DefTable(ps[..i + 1]) == match ps[i]
      case Plain(_) => DefTable(ps[..i])
      case Def(id, content, whole) => DefTable(ps[..i])[EscapeDollar(id) := Definition(content, whole)]
  {
    var q := ps[..i + 1];
    assert q[..i] == ps[..i] && q[i] == ps[i];
  }

  /** An id is registered exactly when some definition carries it. */
  lemma {:induction false} DefTableKeys(ps: seq<DefPiece>, ref: string)
    ensures ref in DefTable(ps) <==> exists i :: 0 <= i < |ps| && DefinesAt(ps, i, ref)
  {
    if ps != [] {
      var q := ps[..|ps| - 1];
      DefTableKeys(q, ref);
      forall i | 0 <= i < |q| ensures DefinesAt(q, i, ref) == DefinesAt(ps, i, ref) {
        assert q[i] == ps[i];
      }
      var n := |ps| - 1;
      assert (exists i :: 0 <= i < |ps| && DefinesAt(ps, i, ref))
         <==> (exists i :: 0 <= i < |q| && DefinesAt(q, i, ref)) || DefinesAt(ps, n, ref);
      assert ref in DefTable(ps) <==> ref in DefTable(q) || DefinesAt(ps, n, ref);
    }
  }

  /** Last write wins: an id holds the content and the whole match of the
      last definition that carries it. */
  lemma {:induction false} LastWriteWins(ps: seq<DefPiece>, i: nat, ref: string)
    requires i < |ps| && DefinesAt(ps, i, ref)
    requires forall j :: i < j < |ps| ==> !DefinesAt(ps, j, ref)
    ensures ref in DefTable(ps)
    ensures DefTable(ps)[ref] == Definition(ps[i].content, ps[i].whole)
  {
    var q := ps[..|ps| - 1];
    if i < |ps| - 1 {
      assert q[i] == ps[i];
      forall j | i < j < |q| ensures !DefinesAt(q, j, ref) {
        assert q[j] == ps[j] && !DefinesAt(ps, j, ref);
      }
      LastWriteWins(q, i, ref);
      assert !DefinesAt(ps, |ps| - 1, ref);
    }
  }

  // ---------------------------------------------------------------------------
  // The marker callback (lines 107-115), applied to the text between definitions

  function CiteSpan(p: MarkPiece): Span {
    match p
    case Chunk(s) => Lit(s)
    case Cite(id) => MarkTok(EscapeDollar(id))
  }

  function CiteSpans(ms: seq<MarkPiece>): (r: seq<Span>)
    ensures |r| == |ms| && forall i :: 0 <= i < |ms| ==> r[i] == CiteSpan(ms[i])
  {
    seq(|ms|, i requires 0 <= i < |ms| => CiteSpan(ms[i]))
  }

  /** The escaped ids the callback pushes, in the order of the markers. */
  function CiteIds(ms: seq<MarkPiece>): seq<string> {
    if ms == [] then []
    else
      var last := ms[|ms| - 1];
      CiteIds(ms[..|ms| - 1]) + (if last.Cite? then [EscapeDollar(last.id)] else [])
  }

  /** One more piece of the marker scan of a stretch. */
  lemma CiteStep(ms: seq<MarkPiece>, j: nat)
    requires j < |ms|
    ensures CiteSpans(ms[..j + 1]) == CiteSpans(ms[..j]) + [CiteSpan(ms[j])]
    ensures CiteIds(ms[..j + 1]) == CiteIds(ms[..j]) + (if ms[j].Cite? then [EscapeDollar(ms[j].id)] else [])
  {
    var q := ms[..j + 1];
    assert q[..j] == ms[..j] && q[j] == ms[j];
  }

  /** One span after the marker scan: text is cut at its markers, placeholders stay. */
  function Expand(sp: Span): seq<Span> {
    match sp
    case Lit(s) => CiteSpans(MarkPieces(s))
    case _ => [sp]
  }

  function ExpandIds(sp: Span): seq<string> {
    match sp
    case Lit(s) => CiteIds(MarkPieces(s))
    case _ => []
  }

  function MarkSpans(spans: seq<Span>): seq<Span> {
    if spans == [] then [] else MarkSpans(spans[..|spans| - 1]) + Expand(spans[|spans| - 1])
  }

  /** `footMarkers` after the marker scan. */
  function MarkIds(spans: seq<Span>): seq<string> {
    if spans == [] then [] else MarkIds(spans[..|spans| - 1]) + ExpandIds(spans[|spans| - 1])
  }

  /** One more span of the marker scan. */
  lemma MarkSpansStep(spans: seq<Span>, i: nat)
    requires i < |spans|
    ensures MarkSpans(spans[..i + 1]) == MarkSpans(spans[..i]) + Expand(spans[i])
    ensures MarkIds(spans[..i + 1]) == MarkIds(spans[..i]) + ExpandIds(spans[i])
  {
    var q := spans[..i + 1];
    assert q[..i] == spans[..i] && q[i] == spans[i];
  }

  /** The ids of the marker placeholders of a sequence of spans, in order. */
  function MarkRefs(spans: seq<Span>): seq<string> {
    if spans == [] then []
    else
      var last := spans[|spans| - 1];
      MarkRefs(spans[..|spans| - 1]) + (if last.MarkTok? then [last.ref] else [])
  }

  lemma {:induction false} MarkRefsAppend(a: seq<Span>, b: seq<Span>)
    ensures MarkRefs(a + b) == MarkRefs(a) + MarkRefs(b)
  {
    if b != [] {
      var c := a + b;
      assert c[..|c| - 1] == a + b[..|b| - 1];
      assert c[|c| - 1] == b[|b| - 1];
      MarkRefsAppend(a, b[..|b| - 1]);
    } else {
      assert a + b == a;
    }
  }

  lemma {:induction false} CiteSpansRefs(ms: seq<MarkPiece>)
    ensures MarkRefs(CiteSpans(ms)) == CiteIds(ms)
  {
    if ms != [] {
      var q := ms[..|ms| - 1];
      CiteSpansRefs(q);
      assert CiteSpans(ms) == CiteSpans(q) + [CiteSpan(ms[|ms| - 1])];
      MarkRefsAppend(CiteSpans(q), [CiteSpan(ms[|ms| - 1])]);
      assert MarkRefs([CiteSpan(ms[|ms| - 1])]) == (if ms[|ms| - 1].Cite? then [EscapeDollar(ms[|ms| - 1].id)] else []);
    }
  }

  /** The ids pushed onto `footMarkers` are exactly the ids of the marker
      placeholders left in the text, in the same order. */
  lemma {:induction false} MarkIdsAreRefs(spans: seq<Span>)
    requires forall i :: 0 <= i < |spans| ==> !spans[i].MarkTok?
    ensures MarkRefs(MarkSpans(spans)) == MarkIds(spans)
  {
    if spans != [] {
      var q := spans[..|spans| - 1];
      var last := spans[|spans| - 1];
      MarkIdsAreRefs(q);
      MarkRefsAppend(MarkSpans(q), Expand(last));
      match last
      case Lit(s) => CiteSpansRefs(MarkPieces(s));
      case DefTok(r) => assert MarkRefs([last]) == [];
    }
  }

  /** A marker placeholder id of the text marks a place where that placeholder sits. */
  lemma {:induction false} MarkRefsMember(spans: seq<Span>, ref: string) returns (k: nat)
    requires ref in MarkRefs(spans)
    ensures k < |spans| && spans[k] == MarkTok(ref)
  {
    var n := |spans| - 1;
    if spans[n] == MarkTok(ref) {
      k := n;
    } else {
      k := MarkRefsMember(spans[..n], ref);
    }
  }

  /** Every id pushed onto `footMarkers` is `$`-escaped, so it holds no `$`. */
  lemma {:induction false} CiteIdsNoDollar(ms: seq<MarkPiece>)
    ensures forall x :: x in CiteIds(ms) ==> '$' !in x
  {
    if ms != [] {
      var last := ms[|ms| - 1];
      CiteIdsNoDollar(ms[..|ms| - 1]);
      if last.Cite? {
        EscapeDollarNoDollar(last.id);
      }
    }
  }

  lemma {:induction false} MarkIdsNoDollar(spans: seq<Span>)
    ensures forall x :: x in MarkIds(spans) ==> '$' !in x
  {
    if spans != [] {
      MarkIdsNoDollar(spans[..|spans| - 1]);
      if spans[|spans| - 1].Lit? {
        CiteIdsNoDollar(MarkPieces(spans[|spans| - 1].text));
      }
    }
  }

  /** How many placeholders of the definition `ref` a sequence of spans holds. */
  function DefCount(spans: seq<Span>, ref: string): nat {
    if spans == [] then 0
    else DefCount(spans[..|spans| - 1], ref) + (if spans[|spans| - 1] == DefTok(ref) then 1 else 0)
  }

  lemma {:induction false} DefCountAppend(a: seq<Span>, b: seq<Span>, ref: string)
    ensures DefCount(a + b, ref) == DefCount(a, ref) + DefCount(b, ref)
  {
    if b != [] {
      var c := a + b;
      assert c[..|c| - 1] == a + b[..|b| - 1];
      DefCountAppend(a, b[..|b| - 1], ref);
    } else {
      assert a + b == a;
    }
  }

  lemma {:induction false} DefCountHolds(spans: seq<Span>, k: nat, ref: string)
    requires k < |spans| && spans[k] == DefTok(ref)
    ensures DefCount(spans, ref) >= 1
  {
    var n := |spans| - 1;
    if k < n {
      assert spans[..n][k] == spans[k];
      DefCountHolds(spans[..n], k, ref);
    }
  }

  /** The marker scan neither creates nor drops a definition placeholder. */
  lemma {:induction false} MarkSpansDefCount(spans: seq<Span>, ref: string)
    ensures DefCount(MarkSpans(spans), ref) == DefCount(spans, ref)
  {
    if spans != [] {
      var n := |spans| - 1;
      var q := spans[..n];
      MarkSpansDefCount(q, ref);
      DefCountAppend(MarkSpans(q), Expand(spans[n]), ref);
      match spans[n]
      case Lit(s) => CiteSpansNoDef(MarkPieces(s), ref);
      case DefTok(_) => assert DefCount([spans[n]], ref) == DefCount([], ref) + (if spans[n] == DefTok(ref) then 1 else 0);
      case MarkTok(_) => assert DefCount([spans[n]], ref) == 0;
    }
  }

  lemma {:induction false} CiteSpansNoDef(ms: seq<MarkPiece>, ref: string)
    ensures DefCount(CiteSpans(ms), ref) == 0
  {
    if ms != [] {
      var n := |ms| - 1;
      CiteSpansNoDef(ms[..n], ref);
      assert CiteSpans(ms) == CiteSpans(ms[..n]) + [CiteSpan(ms[n])];
      DefCountAppend(CiteSpans(ms[..n]), [CiteSpan(ms[n])], ref);
      assert DefCount([CiteSpan(ms[n])], ref) == 0;
    }
  }

  /** A span spells what a piece of the definition scan matched. */
  predicate SpellsPiece(sp: Span, p: DefPiece) {
    Flatten([sp]) == DefOriginal([p])
  }

  /** Spans that spell, one by one, the pieces of the definition scan spell the scanned text. */
  lemma {:induction false} FlattenPieces(spans: seq<Span>, ps: seq<DefPiece>)
    requires |spans| == |ps|
    requires forall i :: 0 <= i < |ps| ==> SpellsPiece(spans[i], ps[i])
    ensures Flatten(spans) == DefOriginal(ps)
  {
    if ps != [] {
      forall i | 0 <= i < |ps| - 1 ensures SpellsPiece(spans[1..][i], ps[1..][i]) {
        assert spans[1..][i] == spans[i + 1] && ps[1..][i] == ps[i + 1];
      }
      FlattenPieces(spans[1..], ps[1..]);
      assert SpellsPiece(spans[0], ps[0]);
      assert spans == [spans[0]] + spans[1..];
      FlattenAppend([spans[0]], spans[1..]);
      assert ps == [ps[0]] + ps[1..];
      DefOriginalAppend([ps[0]], ps[1..]);
    }
  }
}
