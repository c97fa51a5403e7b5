/**
 * The first filter, `tokenizeFootnotes` (lines 74-155), as a function of its
 * input text: every stage of the text and every table it leaves behind. The
 * lemmas state what the stages promise about each other.
 */
module Pipeline {
  import opened JsString
  import opened Scanner
  import opened Tokens
  import opened Binding
  import opened Restore

  /** The stages of one run of the filter on an unguarded call. */
  datatype Pass = Pass(
    escaped: string,              // after lines 87 and 90
    pieces: seq<DefPiece>,        // the matches of the definition pattern, line 95
    defSpans: seq<Span>,          // the text after line 95
    table: map<string, Definition>, // `footRefs` after line 95
    markSpans: seq<Span>,         // the text after line 107
    markers: seq<string>,         // `footMarkers` after line 107
    bound: Bound,                 // the tables after lines 119-133
    restored: seq<Span>,          // the text after lines 136-140
    reverted: seq<Span>,          // the text after lines 143-146
    stripped: seq<Span>,          // the text after line 149
    output: string)               // the text after line 152

  function Tokenization(text: string): Pass {
    var escaped := EscapeTrema(text + "~0");
    var pieces := DefPieces(escaped);
    var defSpans := DefSpans(pieces);
    var table := DefTable(pieces);
    var markSpans := MarkSpans(defSpans);
    var markers := MarkIds(defSpans);
    var bound := Bind(markers, table);
    var restored := RestoreDefs(markSpans, bound.refs);
    var reverted := RevertSpans(restored, UnescapeRefs(bound.orphans));
    var stripped := StripDefs(reverted);
    Pass(escaped, pieces, defSpans, table, markSpans, markers, bound, restored, reverted, stripped,
         ReplaceFirst(Flatten(stripped), "~0", ""))
  }

  // ---------------------------------------------------------------------------
  // The binding tables

  /** Every marker goes to exactly one of `footnotes` and `orphanedRefs`. */
  lemma BindingPartition(text: string)
    ensures var p := Tokenization(text);
      && |p.bound.footnotes| + |p.bound.orphans| == |p.markers|
      && multiset(Refs(p.bound.footnotes)) + multiset(p.bound.orphans) == multiset(p.markers)
  {
    var p := Tokenization(text);
    BindMeaning(p.markers, p.table);
    ClaimPartition(p.markers, p.table.Keys);
  }

  /** `footnotes` holds, in marker order, the first citation of every defined
      id; its ids are pairwise distinct; exactly the cited defined ids occur. */
  lemma FootnoteOrder(text: string)
    ensures var p := Tokenization(text);
      && Refs(p.bound.footnotes) == Claimed(p.markers, p.table.Keys)
      && (forall i, j :: 0 <= i < j < |p.bound.footnotes| ==> p.bound.footnotes[i].ref != p.bound.footnotes[j].ref)
      && (forall r :: r in Refs(p.bound.footnotes) <==> r in p.markers && r in p.table)
  {
    var p := Tokenization(text);
    BindMeaning(p.markers, p.table);
    ClaimedDistinct(p.markers, p.table.Keys);
    ClaimedExactly(p.markers, p.table.Keys);
    var rs := Refs(p.bound.footnotes);
    assert forall i :: 0 <= i < |rs| ==> rs[i] == p.bound.footnotes[i].ref;
  }

  /** An orphan is a marker whose id has no definition or is cited again. */
  lemma OrphanMeaning(text: string)
    ensures var p := Tokenization(text);
      forall r :: r in p.bound.orphans <==> r in p.markers && (r !in p.table || multiset(p.markers)[r] >= 2)
  {
    var p := Tokenization(text);
    BindMeaning(p.markers, p.table);
    UnclaimedExactly(p.markers, p.table.Keys);
  }

  /** The last definition that carries an id is the one the table keeps. */
  lemma {:induction false} LastDefinition(ps: seq<DefPiece>, ref: string) returns (i: nat)
    requires ref in DefTable(ps)
    ensures i < |ps| && DefinesAt(ps, i, ref) && (forall j :: i < j < |ps| ==> !DefinesAt(ps, j, ref))
    ensures DefTable(ps)[ref] == Definition(ps[i].content, ps[i].whole)
  {
    var n := |ps| - 1;
    if DefinesAt(ps, n, ref) {
      i := n;
    } else {
      var q := ps[..n];
      assert ref in DefTable(q);
      i := LastDefinition(q, ref);
      assert q[i] == ps[i];
      forall j | i < j < |ps| ensures !DefinesAt(ps, j, ref) {
        if j < n {
          assert q[j] == ps[j];
          assert !DefinesAt(q, j, ref);
        }
      }
    }
  }

  /** Last write wins: each footnote's content is that of the last definition
      of its id. */
  lemma FootnoteContent(text: string, k: nat)
    requires k < |Tokenization(text).bound.footnotes|
    ensures var p := Tokenization(text); var f := p.bound.footnotes[k];
      exists i :: 0 <= i < |p.pieces| && DefinesAt(p.pieces, i, f.ref)
        && (forall j :: i < j < |p.pieces| ==> !DefinesAt(p.pieces, j, f.ref))
        && f.content == p.pieces[i].content
  {
    var p := Tokenization(text);
    var f := p.bound.footnotes[k];
    BindMeaning(p.markers, p.table);
    assert f in p.bound.footnotes;
    var i := LastDefinition(p.pieces, f.ref);
  }

  // ---------------------------------------------------------------------------
  // The rewrites of the text

  /** Every placeholder of an uncited id is put back as the whole match of
      the last definition of that id, which is the one the table holds. */
  lemma UnclaimedRestored(text: string, k: nat)
    requires var p := Tokenization(text);
      k < |p.markSpans| && p.markSpans[k].DefTok? && p.markSpans[k].ref !in p.markers
    ensures var p := Tokenization(text);
      && p.markSpans[k].ref in p.table
      && p.restored[k] == Lit(p.table[p.markSpans[k].ref].wMatch)
  {
    var p := Tokenization(text);
    BindMeaning(p.markers, p.table);
    var r := p.markSpans[k].ref;
    assert r in p.table by { DefTokensRegistered(p.defSpans, p.pieces, k); }
  }

  /** When no id is defined twice, putting every definition back as its
      table entry spells the scanned text again: the callback of lines 95-103
      and the table it fills lose nothing between them. */
  lemma DefinitionsRestored(ps: seq<DefPiece>)
    requires forall i, j :: 0 <= i < j < |ps| && ps[i].Def? && ps[j].Def? ==> EscapeDollar(ps[i].id) != EscapeDollar(ps[j].id)
    ensures Flatten(RestoreDefs(DefSpans(ps), DefTable(ps))) == DefOriginal(ps)
  {
    var spans := RestoreDefs(DefSpans(ps), DefTable(ps));
    forall i | 0 <= i < |ps| ensures SpellsPiece(spans[i], ps[i]) {
      if ps[i].Def? {
        forall j | i < j < |ps| ensures !DefinesAt(ps, j, EscapeDollar(ps[i].id)) {
        }
      }
      RestoredPiece(ps, i);
    }
    FlattenPieces(spans, ps);
  }

  /** A piece comes back as it was matched unless a later definition
      carries its id. */
  lemma RestoredPiece(ps: seq<DefPiece>, i: nat)
    requires i < |ps|
    requires ps[i].Def? ==> forall j :: i < j < |ps| ==> !DefinesAt(ps, j, EscapeDollar(ps[i].id))
    ensures SpellsPiece(RestoreDefs(DefSpans(ps), DefTable(ps))[i], ps[i])
  {
    var d := DefSpans(ps);
    var restored := RestoreDefs(d, DefTable(ps));
    match ps[i]
    case Plain(s) =>
      assert restored[i] == Lit(s);
      LitSpellsPiece(s, ps[i]);
    case Def(id, _, w) =>
      LastWriteWins(ps, i, EscapeDollar(id));
      assert d[i] == DefTok(EscapeDollar(id));
      assert restored[i] == Lit(w);
      LitSpellsPiece(w, ps[i]);
  }

  lemma LitSpellsPiece(s: string, p: DefPiece)
    requires s == match p case Plain(x) => x case Def(_, _, w) => w
    ensures SpellsPiece(Lit(s), p)
  {
    assert [Lit(s)][1..] == [] && [p][1..] == [];
  }

  /** An id defined twice and never cited: line 138 puts both placeholders
      back as the whole match of the LAST definition, so the text of the
      earlier definition does not come back. */
  lemma RedefinedUncited(text: string, r: string, i: nat, j: nat)
    requires var p := Tokenization(text);
      && i < j < |p.pieces| && DefinesAt(p.pieces, i, r) && DefinesAt(p.pieces, j, r)
      && (forall y :: j < y < |p.pieces| ==> !DefinesAt(p.pieces, y, r))
      && r !in p.markers
    ensures var p := Tokenization(text);
      && DefCount(p.markSpans, r) >= 2
      && (forall k :: 0 <= k < |p.markSpans| && p.markSpans[k] == DefTok(r) ==> p.restored[k] == Lit(p.pieces[j].whole))
  {
    var p := Tokenization(text);
    RedefinedRestored(p.pieces, p.markers, r, i, j);
  }

  lemma RedefinedRestored(ps: seq<DefPiece>, markers: seq<string>, r: string, i: nat, j: nat)
    requires i < j < |ps| && DefinesAt(ps, i, r) && DefinesAt(ps, j, r)
    requires forall y :: j < y < |ps| ==> !DefinesAt(ps, y, r)
    requires r !in markers
    ensures DefCount(MarkSpans(DefSpans(ps)), r) >= 2
    ensures var ms := MarkSpans(DefSpans(ps));
      forall k :: 0 <= k < |ms| && ms[k] == DefTok(r) ==> RestoreDefs(ms, Bind(markers, DefTable(ps)).refs)[k] == Lit(ps[j].whole)
  {
    LastWriteWins(ps, j, r);
    BindMeaning(markers, DefTable(ps));
    var d := DefSpans(ps);
    assert d == d[..j] + d[j..];
    DefCountAppend(d[..j], d[j..], r);
    DefCountHolds(d[..j], i, r);
    DefCountHolds(d[j..], 0, r);
    MarkSpansDefCount(d, r);
  }

  /** A definition placeholder of the marked text comes from a registered definition. */
  lemma DefTokensRegistered(spans: seq<Span>, ps: seq<DefPiece>, k: nat)
    requires spans == DefSpans(ps) && k < |MarkSpans(spans)| && MarkSpans(spans)[k].DefTok?
    ensures MarkSpans(spans)[k].ref in DefTable(ps)
  {
    var r := MarkSpans(spans)[k].ref;
    var i := MarkSpansDefTok(spans, k);
    assert DefinesAt(ps, i, r);
    DefTableKeys(ps, r);
  }

  /** Where a definition placeholder of the marked text was before the marker scan. */
  lemma {:induction false} MarkSpansDefTok(spans: seq<Span>, k: nat) returns (i: nat)
    requires k < |MarkSpans(spans)| && MarkSpans(spans)[k].DefTok?
    ensures i < |spans| && spans[i] == MarkSpans(spans)[k]
  {
    var n := |spans| - 1;
    var q := spans[..n];
    var m := MarkSpans(q);
    if k < |m| {
      assert MarkSpans(spans)[k] == m[k];
      i := MarkSpansDefTok(q, k);
      assert q[i] == spans[i];
    } else {
      i := n;
      match spans[n]
      case Lit(s) =>
        assert false;
      case DefTok(_) =>
      case MarkTok(_) =>
    }
  }

  /** Line 149 leaves no definition placeholder: a claimed definition is deleted. */
  lemma NoDefinitionLeft(text: string)
    ensures forall sp :: sp in Tokenization(text).stripped ==> !sp.DefTok?
  {
    StripDefsMeaning(Tokenization(text).reverted);
  }

  /** An orphaned marker whose id held no `$` is put back as `[^id]`. */
  lemma OrphanReverted(text: string, k: nat)
    requires var p := Tokenization(text);
      && k < |p.markSpans| && p.markSpans[k].MarkTok? && p.markSpans[k].ref in p.bound.orphans
      && !Contains(p.markSpans[k].ref, [Trema, 'D'])
    ensures var p := Tokenization(text); p.reverted[k] == Lit("[^" + p.markSpans[k].ref + "]")
  {
    var p := Tokenization(text);
    var r := p.markSpans[k].ref;
    ReplaceAllAbsent(r, [Trema, 'D'], "$");
    var y :| 0 <= y < |p.bound.orphans| && p.bound.orphans[y] == r;
    assert UnescapeRefs(p.bound.orphans)[y] == r;
    assert p.restored[k] == p.markSpans[k];
  }

  /** A marker whose id held a `$` (escaped to `¨D`) is never put back, even
      when it is an orphan: the search of line 145 is built from the id with
      `$` restored, while the placeholder holds `¨D`. */
  lemma DollarMarkerKept(text: string, k: nat)
    requires var p := Tokenization(text);
      k < |p.markSpans| && p.markSpans[k].MarkTok? && Contains(p.markSpans[k].ref, [Trema, 'D'])
    ensures var p := Tokenization(text); p.reverted[k] == p.markSpans[k]
  {
    var p := Tokenization(text);
    var r := p.markSpans[k].ref;
    var os := UnescapeRefs(p.bound.orphans);
    var i: nat :| i <= |r| && OccursAt(r, [Trema, 'D'], i);
    forall y | 0 <= y < |os| ensures os[y] != r {
      UnescapeDollarClean(p.bound.orphans[y]);
      assert !OccursAt(os[y], [Trema, 'D'], i);
    }
    assert p.restored[k] == p.markSpans[k];
  }

  /** A footnote cited once keeps its marker placeholder to the end of the
      filter, where the second filter turns it into the anchor: neither the
      restore nor the revert nor the strip touches it. */
  lemma BoundMarkerKept(text: string, f: Footnote)
    requires var p := Tokenization(text); f in p.bound.footnotes && multiset(p.markers)[f.ref] == 1
    ensures MarkTok(f.ref) in Tokenization(text).stripped
  {
    var p := Tokenization(text);
    BindMeaning(p.markers, p.table);
    ClaimedCited(p.markers, p.table.Keys);
    var y :| 0 <= y < |p.bound.footnotes| && p.bound.footnotes[y] == f;
    assert Refs(p.bound.footnotes)[y] == f.ref;
    MarkerKept(p.pieces, p.table, f.ref);
  }

  /** A marker cited once whose id is registered survives the three rewrites. */
  lemma MarkerKept(ps: seq<DefPiece>, table: map<string, Definition>, ref: string)
    requires ref in table && multiset(MarkIds(DefSpans(ps)))[ref] == 1
    ensures var d := DefSpans(ps); var b := Bind(MarkIds(d), table);
      MarkTok(ref) in StripDefs(RevertSpans(RestoreDefs(MarkSpans(d), b.refs), UnescapeRefs(b.orphans)))
  {
    var d := DefSpans(ps);
    assert forall i :: 0 <= i < |d| ==> !d[i].MarkTok?;
    var markers := MarkIds(d);
    var b := Bind(markers, table);
    BindMeaning(markers, table);
    UnclaimedExactly(markers, table.Keys);
    MarkIdsNoDollar(d);
    MarkIdsAreRefs(d);
    var ms := MarkSpans(d);
    var k := MarkRefsMember(ms, ref);
    var os := UnescapeRefs(b.orphans);
    forall x | 0 <= x < |os| ensures os[x] != ref {
      if os[x] == ref {
        UnescapeDollarNoDollar(b.orphans[x]);
      }
    }
    MarkerPasses(ms, b.refs, os, k);
  }

  /** The three rewrites of lines 136-149 over any spans and tables: a marker
      placeholder whose id is not searched for as an orphan survives them. */
  lemma MarkerPasses(spans: seq<Span>, refs: map<string, Definition>, oRefs: seq<string>, k: nat)
    requires k < |spans| && spans[k].MarkTok? && spans[k].ref !in oRefs
    ensures spans[k] in StripDefs(RevertSpans(RestoreDefs(spans, refs), oRefs))
  {
    var w := RestoreDefs(spans, refs);
    RestoreDefsMeaning(spans, refs);
    var v := RevertSpans(w, oRefs);
    RevertSpansMeaning(w, oRefs);
    assert v[k] == spans[k];
    StripDefsMeaning(v);
  }

  /** The text around the footnote syntax survives the three rewrites in
      place and in order: a literal span of the marked text is the next span
      of the result after the spans kept before it. */
  lemma LiteralKept(text: string, k: nat)
    requires var p := Tokenization(text); k < |p.markSpans| && p.markSpans[k].Lit?
    ensures var p := Tokenization(text);
      && p.reverted[k] == p.markSpans[k]
      && StripDefs(p.reverted[..k]) + [p.markSpans[k]] <= p.stripped
  {
    var p := Tokenization(text);
    LiteralPasses(p.markSpans, p.bound.refs, UnescapeRefs(p.bound.orphans), k);
  }

  /** The three rewrites of lines 136-149 over any spans and tables: a literal
      span stays in place through the first two and in order through the strip. */
  lemma LiteralPasses(spans: seq<Span>, refs: map<string, Definition>, oRefs: seq<string>, k: nat)
    requires k < |spans| && spans[k].Lit?
    ensures var v := RevertSpans(RestoreDefs(spans, refs), oRefs);
      && v[k] == spans[k]
      && StripDefs(v[..k]) + [spans[k]] <= StripDefs(v)
  {
    var w := RestoreDefs(spans, refs);
    RestoreDefsMeaning(spans, refs);
    var v := RevertSpans(w, oRefs);
    RevertSpansMeaning(w, oRefs);
    assert w[k] == spans[k];
    StripDefsKeeps(v, k);
  }

  /** An id that is defined and cited twice (without `$`): its first citation
      binds, the second is an orphan, and the global revert of line 145 then
      turns every citation of the id back into `[^id]`, so that no marker
      placeholder of a footnote that is still in `footnotes` is left. */
  lemma DuplicateCitation(text: string, r: string)
    requires var p := Tokenization(text);
      r in p.table && multiset(p.markers)[r] >= 2 && !Contains(r, [Trema, 'D'])
    ensures var p := Tokenization(text);
      && r in Refs(p.bound.footnotes) && r in p.bound.orphans
      && (forall k :: 0 <= k < |p.markSpans| && p.markSpans[k] == MarkTok(r) ==> p.reverted[k] == Lit("[^" + r + "]"))
      && MarkTok(r) !in p.stripped
  {
    var p := Tokenization(text);
    FootnoteOrder(text);
    OrphanMeaning(text);
    assert r in p.markers;
    forall k | 0 <= k < |p.markSpans| && p.markSpans[k] == MarkTok(r) ensures p.reverted[k] == Lit("[^" + r + "]") {
      OrphanReverted(text, k);
    }
    forall k | 0 <= k < |p.reverted| ensures p.reverted[k] != MarkTok(r) {
      if p.markSpans[k] == MarkTok(r) {
        OrphanReverted(text, k);
      } else {
        assert p.restored[k] != MarkTok(r);
      }
    }
    StripDefsMeaning(p.reverted);
  }

  /** Appending the sentinel creates no `[^`. */
  lemma SentinelNoCaret(text: string)
    requires !Contains(text, "[^")
    ensures !Contains(text + "~0", "[^")
  {
    var t := text + "~0";
    forall i: nat | i <= |t| ensures !OccursAt(t, "[^", i) {
      if i + 2 <= |t| {
        if i + 2 <= |text| {
          assert t[i..i + 2] == text[i..i + 2];
          assert !OccursAt(text, "[^", i);
        } else {
          assert t[i..i + 2][1] == t[i + 1];
          assert t[i + 1] == '~' || t[i + 1] == '0';
        }
      }
    }
  }

  /** Both scans find nothing in a text without `[^`. */
  lemma NoCaretScans(e: string)
    requires !Contains(e, "[^")
    ensures DefPieces(e) == [Plain(e)] && DefTable(DefPieces(e)) == map[]
    ensures DefSpans(DefPieces(e)) == [Lit(e)]
    ensures MarkSpans([Lit(e)]) == [Lit(e)] && MarkIds([Lit(e)]) == []
  {
    ScanDefsNoCaret(e);
    assert e[0..] == e;
    assert DefTable([Plain(e)]) == DefTable([]);
    ScanMarksNoCaret(e);
    assert [Lit(e)][..0] == [];
    assert CiteSpans([Chunk(e)]) == [Lit(e)];
    assert CiteIds([Chunk(e)]) == [];
  }

  /** With empty tables, a text that is one literal span passes the rewrites
      of lines 136-149 unchanged, and that span spells the text itself. */
  lemma QuietRewrites(e: string)
    ensures StripDefs(RevertSpans(RestoreDefs([Lit(e)], Bind([], map[]).refs), UnescapeRefs(Bind([], map[]).orphans))) == [Lit(e)]
    ensures Flatten([Lit(e)]) == e
  {
    assert RestoreDefs([Lit(e)], map[]) == [Lit(e)];
    assert RevertSpans([Lit(e)], []) == [Lit(e)];
    assert [Lit(e)][1..] == [];
    assert Flatten([Lit(e)]) == e + Flatten([]);
  }

  /** A text without footnote syntax comes out as it went in, trema-escaped,
      and leaves all four tables empty. */
  lemma NoFootnoteSyntax(text: string)
    requires !Contains(text, "[^") && !Contains(text, "~0")
    ensures var p := Tokenization(text);
      && p.output == EscapeTrema(text)
      && p.bound == Bound([], map[], []) && p.markers == [] && p.table == map[]
  {
    var e := EscapeTrema(text + "~0");
    SentinelNoCaret(text);
    EscapeTremaKeepsAbsent(text + "~0", '[', '^');
    NoCaretScans(e);
    QuietRewrites(e);
    EscapeTremaAppend(text, "~0");
    ReplaceAllVoid("~0", [Trema], [Trema, 'T']);
    EscapeTremaKeepsAbsent(text, '~', '0');
    SentinelRoundTrip(EscapeTrema(text));
  }
}
