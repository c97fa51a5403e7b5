/**
 * The footnote extension for showdown: the module-level tables it shares
 * between its two filters (lines 63-66), the converter option that guards
 * it, and the two filters as methods that update those tables in place.
 */
module Footnotes {
  import opened JsString
  import opened Scanner
  import opened Tokens
  import opened Binding
  import opened Restore
  import opened Pipeline
  import opened Markup
  import opened Render

  class FootnoteExtension {
    var footnotes: seq<Footnote>
    var footRefs: map<string, Definition>
    var footMarkers: seq<string>
    var orphanedRefs: seq<string>
    /** The converter option `blockFootnotesExtension`. */
    var blocked: bool

    constructor ()
      ensures footnotes == [] && footRefs == map[] && footMarkers == [] && orphanedRefs == []
      ensures !blocked
    {
      footnotes, footRefs, footMarkers, orphanedRefs := [], map[], [], [];
      blocked := false;
    }

    /** Line 95: the definition callback, run once per match in text order,
        registers each definition and returns its placeholder. */
    method ScanDefinitions(t: string) returns (spans: seq<Span>)
      requires footRefs == map[]
      modifies this`footRefs
      ensures spans == DefSpans(DefPieces(t)) && footRefs == DefTable(DefPieces(t))
    {
      var ps := DefPieces(t);
      spans := [];
      var i := 0;
      while i < |ps|
        invariant 0 <= i <= |ps|
        invariant spans == DefSpans(ps[..i]) && footRefs == DefTable(ps[..i])
      {
        DefStep(ps, i);
        match ps[i] {
          case Plain(s) =>
            spans := spans + [Lit(s)];
          case Def(id, content, whole) =>
            var ref := EscapeDollar(id);
            footRefs := footRefs[ref := Definition(content, whole)];
            spans := spans + [DefTok(ref)];
        }
        i := i + 1;
      }
      assert ps[..i] == ps;
    }

    /** Line 107 on one stretch of text: the marker callback, run once per
        marker, pushes its escaped id onto `footMarkers`. */
    method ScanStretch(s: string) returns (cut: seq<Span>)
      modifies this`footMarkers
      ensures cut == CiteSpans(MarkPieces(s))
      ensures footMarkers == old(footMarkers) + CiteIds(MarkPieces(s))
    {
      var ms := MarkPieces(s);
      cut := [];
      var j := 0;
      while j < |ms|
        invariant 0 <= j <= |ms|
        invariant cut == CiteSpans(ms[..j])
        invariant footMarkers == old(footMarkers) + CiteIds(ms[..j])
      {
        CiteStep(ms, j);
        match ms[j] {
          case Chunk(c) =>
            cut := cut + [Lit(c)];
          case Cite(id) =>
            var ref := EscapeDollar(id);
            footMarkers := footMarkers + [ref];
            cut := cut + [MarkTok(ref)];
        }
        j := j + 1;
      }
      assert ms[..j] == ms;
    }

    /** Line 107: the marker scan of the text left between the definition
        placeholders. */
    method ScanMarkers(spans: seq<Span>) returns (out: seq<Span>)
      requires footMarkers == []
      modifies this`footMarkers
      ensures out == MarkSpans(spans) && footMarkers == MarkIds(spans)
    {
      out := [];
      var i := 0;
      while i < |spans|
        invariant 0 <= i <= |spans|
        invariant out == MarkSpans(spans[..i]) && footMarkers == MarkIds(spans[..i])
      {
        MarkSpansStep(spans, i);
        var piece: seq<Span>;
        if spans[i].Lit? {
          piece := ScanStretch(spans[i].text);
        } else {
          piece := [spans[i]];
        }
        assert piece == Expand(spans[i]);
        out := out + piece;
        i := i + 1;
      }
      assert spans[..i] == spans;
    }

    /** Lines 119-133: each marker in order claims its definition, which is
        then deleted, or becomes an orphan. */
    method BindMarkers()
      requires footnotes == [] && orphanedRefs == []
      modifies this`footnotes, this`footRefs, this`orphanedRefs
      ensures Bound(footnotes, footRefs, orphanedRefs) == Bind(footMarkers, old(footRefs))
    {
      var i := 0;
      while i < |footMarkers|
        invariant 0 <= i <= |footMarkers|
        invariant Bound(footnotes, footRefs, orphanedRefs) == Bind(footMarkers[..i], old(footRefs))
      {
        assert footMarkers[..i + 1][..i] == footMarkers[..i];
        var ref := footMarkers[i];
        if ref !in footRefs {
          orphanedRefs := orphanedRefs + [ref];
        } else {
          footnotes := footnotes + [Footnote(ref, footRefs[ref].content)];
          footRefs := footRefs - {ref};
        }
        i := i + 1;
      }
      assert footMarkers[..i] == footMarkers;
    }

    /** Lines 136-140: every definition still registered is put back; the ids
        may be visited in any order. */
    method RestoreDefinitions(spans: seq<Span>) returns (out: seq<Span>)
      ensures out == RestoreDefs(spans, footRefs)
    {
      var pending := footRefs.Keys;
      out := spans;
      assert footRefs - pending == map[];
      assert RestoreDefs(spans, map[]) == spans;
      while pending != {}
        invariant pending <= footRefs.Keys
        invariant out == RestoreDefs(spans, footRefs - pending)
        decreases |pending|
      {
        var u :| u in pending;
        RestoreDefsStep(spans, footRefs, pending, u);
        out := RestoreOne(out, u, footRefs[u].wMatch);
        pending := pending - {u};
      }
      assert footRefs - {} == footRefs;
    }

    /** Lines 143-146: every marker placeholder of an orphaned id is reverted. */
    method RestoreOrphans(spans: seq<Span>) returns (out: seq<Span>)
      ensures out == RevertSpans(spans, UnescapeRefs(orphanedRefs))
    {
      out := spans;
      assert RevertSpans(spans, UnescapeRefs(orphanedRefs[..0])) == spans;
      var y := 0;
      while y < |orphanedRefs|
        invariant 0 <= y <= |orphanedRefs|
        invariant out == RevertSpans(spans, UnescapeRefs(orphanedRefs[..y]))
      {
        var oRef := UnescapeDollar(orphanedRefs[y]);
        RevertSpansStep(spans, orphanedRefs, y);
        out := RevertOne(out, oRef);
        y := y + 1;
      }
      assert orphanedRefs[..y] == orphanedRefs;
    }

    /** The filter that runs before showdown (lines 74-155). Unless guarded,
        it starts from empty tables, so nothing carries over from an earlier
        document, and leaves the tables and the text that `Tokenization`
        describes. */
    method Tokenize(text: string) returns (r: string)
      modifies this`footnotes, this`footRefs, this`footMarkers, this`orphanedRefs
      ensures blocked == old(blocked)
      ensures old(blocked) ==> (r == text && footnotes == old(footnotes) && footRefs == old(footRefs)
        && footMarkers == old(footMarkers) && orphanedRefs == old(orphanedRefs))
      ensures !old(blocked) ==> (var p := Tokenization(text);
        && r == p.output && footnotes == p.bound.footnotes && footRefs == p.bound.refs
        && footMarkers == p.markers && orphanedRefs == p.bound.orphans)
    {
      if blocked {
        return text;
      }
      r := TokenizeAfresh(text);
    }

    /** Lines 80-152, past the guard: the reset of the four tables, then both
        scans and the rewrites. */
    method TokenizeAfresh(text: string) returns (r: string)
      modifies this`footnotes, this`footRefs, this`footMarkers, this`orphanedRefs
      ensures var p := Tokenization(text);
        && r == p.output && footnotes == p.bound.footnotes && footRefs == p.bound.refs
        && footMarkers == p.markers && orphanedRefs == p.bound.orphans
    {
      footnotes, footRefs, footMarkers, orphanedRefs := [], map[], [], [];
      var spans := ScanText(text);
      r := RewriteText(text, spans);
    }

    /** Lines 87-116: the sentinel, the trema escape and both scans. */
    method ScanText(text: string) returns (spans: seq<Span>)
      requires footRefs == map[] && footMarkers == []
      modifies this`footRefs, this`footMarkers
      ensures var p := Tokenization(text);
        spans == p.markSpans && footRefs == p.table && footMarkers == p.markers
    {
      ghost var p := Tokenization(text);
      var t := text + "~0";
      t := EscapeTrema(t);
      assert t == p.escaped;
      spans := ScanDefinitions(t);
      assert spans == p.defSpans && footRefs == p.table;
      spans := ScanMarkers(spans);
    }

    /** Lines 119-152: the binding loop and the rewrites that follow it. */
    method RewriteText(text: string, spans: seq<Span>) returns (r: string)
      requires footnotes == [] && orphanedRefs == []
      requires var p := Tokenization(text);
        spans == p.markSpans && footRefs == p.table && footMarkers == p.markers
      modifies this`footnotes, this`footRefs, this`orphanedRefs
      ensures var p := Tokenization(text);
        && r == p.output && footnotes == p.bound.footnotes && footRefs == p.bound.refs
        && orphanedRefs == p.bound.orphans
    {
      ghost var p := Tokenization(text);
      BindMarkers();
      assert Bound(footnotes, footRefs, orphanedRefs) == p.bound;
      var out := RestoreDefinitions(spans);
      assert out == p.restored;
      out := RestoreOrphans(out);
      assert out == p.reverted;
      out := StripDefs(out);
      r := ReplaceFirst(Flatten(out), "~0", "");
    }

    /** Lines 176-190, run with the guard option on: each footnote's first
        marker placeholder becomes its numbered anchor, and its rendered body
        is added to the footer. */
    method RenderFootnotes(text: string, makeHtml: (string, bool) -> string) returns (out: string, tpl: string)
      requires blocked
      ensures out == Substituted(text, footnotes)
      ensures tpl == FooterOpen + Items(footnotes, makeHtml)
    {
      var fns := footnotes;
      tpl := FooterOpen;
      out := text;
      var i := 0;
      assert Items(fns[..0], makeHtml) == [];
      assert tpl == FooterOpen + [];
      while i < |fns|
        invariant 0 <= i <= |fns|
        invariant out == Substituted(text, fns[..i])
        invariant tpl == FooterOpen + Items(fns[..i], makeHtml)
      {
        var n := i + 1;
        var ref := fns[i].ref;
        var mk := Numbered(MarkSupTemplate, n);
        out := ReplaceFirst(out, MarkPlaceholder(ref), mk);
        var ct := Trim(Dedent(fns[i].content));
        ct := makeHtml(ct + "\n" + Numbered(AnchorTemplate, n), blocked);
        var li := ReplaceFirst(Numbered(FooterLiTemplate, n), "%2", ct);
        LoopTurn(text, fns, makeHtml, i, out, li);
        Append3(FooterOpen, Items(fns[..i], makeHtml), li, "\n");
        tpl := tpl + li + "\n";
        i := i + 1;
      }
      assert fns[..i] == fns;
    }

    /** The filter that runs on showdown's output (lines 157-202). */
    method ReplaceTokensWithHtml(text: string, makeHtml: (string, bool) -> string) returns (r: string)
      modifies this`blocked
      ensures blocked == old(blocked)
      ensures r == if old(blocked) || footnotes == [] then text else Page(text, footnotes, makeHtml)
    {
      if blocked {
        return text;
      }
      if |footnotes| == 0 {
        return text;
      }
      blocked := true;
      var out, tpl := RenderFootnotes(text, makeHtml);
      blocked := false;
      tpl := tpl + "</ol>\n";
      tpl := tpl + "</div>\n";
      out := UnescapeTrema(out);
      PageAssembly(out, Items(footnotes, makeHtml));
      r := out + "\n" + tpl;
    }
  }

  /** What one turn of the loop of lines 176-190 computes from the templates:
      the anchor and the entry of footnote number i + 1. */
  lemma LoopTurn(text: string, fns: seq<Footnote>, makeHtml: (string, bool) -> string, i: nat, out: string, li: string)
    requires i < |fns|
    requires out == ReplaceFirst(Substituted(text, fns[..i]), MarkPlaceholder(fns[i].ref), Numbered(MarkSupTemplate, i + 1))
    requires li == ReplaceFirst(Numbered(FooterLiTemplate, i + 1), "%2",
      makeHtml(Trim(Dedent(fns[i].content)) + "\n" + Numbered(AnchorTemplate, i + 1), true))
    ensures out == Substituted(text, fns[..i + 1])
    ensures Items(fns[..i], makeHtml) + li + "\n" == Items(fns[..i + 1], makeHtml)
  {
    AnchorTurn(text, fns, i, out);
    var e := Entry(i + 1, fns[i], makeHtml);
    EntryTurn(fns[i], makeHtml, i + 1, li);
    ItemsStep(fns, makeHtml, i);
    Append2(Items(fns[..i], makeHtml), li, "\n");
  }

  /** The anchor one turn substitutes, from the template. */
  lemma AnchorTurn(text: string, fns: seq<Footnote>, i: nat, out: string)
    requires i < |fns|
    requires out == ReplaceFirst(Substituted(text, fns[..i]), MarkPlaceholder(fns[i].ref), Numbered(MarkSupTemplate, i + 1))
    ensures out == Substituted(text, fns[..i + 1])
  {
    SupShape(i + 1);
    SubstitutedStep(text, fns, i);
  }

  /** The entry one turn appends, from the templates. */
  lemma EntryTurn(f: Footnote, makeHtml: (string, bool) -> string, n: nat, li: string)
    requires li == ReplaceFirst(Numbered(FooterLiTemplate, n), "%2",
      makeHtml(Trim(Dedent(f.content)) + "\n" + Numbered(AnchorTemplate, n), true))
    ensures li + "\n" == Entry(n, f, makeHtml)
  {
    BackrefShape(n);
    ItemShape(n, makeHtml(BodyMarkdown(f) + "\n" + BackrefHtml(n), true));
  }

  lemma Append2(a: string, b: string, c: string)
    ensures a + b + c == a + (b + c)
  {
  }

  lemma Append3(a: string, b: string, c: string, d: string)
    ensures a + b + c + d == a + (b + c + d)
  {
  }

  lemma PageAssembly(out: string, items: string)
    ensures out + "\n" + (FooterOpen + items + "</ol>\n" + "</div>\n") == out + "\n" + FooterOpen + items + FooterClose
  {
  }
}
