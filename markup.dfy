/**
 * The HTML templates of the extension (lines 68-70 and 167-170, 194-195)
 * and what they become once their placeholders `%1` and `%2` are filled in.
 */
module Markup {
  import opened JsString

  // The literal text of the templates, cut at their placeholders.
  const SupFnref: string := "<sup id=\"fnref-"
  const SupHref: string := "\"><a href=\"#fn-"
  const SupTitle: string := "\" rel=\"footnote\"" + " title=\"go to footnote\">"
  const SupEnd: string := "</a></sup>"
  const LiId: string := "<li id=\"fn-"
  const LiBody: string := "\">"
  const LiEnd: string := "</li>"
  const BackHref: string := "<a href=\"#fnref-"
  const BackRest: string := "\" class=\"footnote-backref\"" + " title=\"return to article\">" + "&#8617;</a>"

  /** `<sup id="fnref-%1"><a href="#fn-%1" rel="footnote" title="go to footnote">%1</a></sup>` */
  const MarkSupTemplate: string := SupFnref + "%1" + SupHref + "%1" + SupTitle + "%1" + SupEnd
  /** `<li id="fn-%1">%2</li>` */
  const FooterLiTemplate: string := LiId + "%1" + LiBody + "%2" + LiEnd
  /** `<a href="#fnref-%1" class="footnote-backref" title="return to article">&#8617;</a>` */
  const AnchorTemplate: string := BackHref + "%1" + BackRest

  /** The head and the tail of the footer block. */
  const FooterOpen: string := "<div class=\"footnotes\">\n" + "<hr>\n" + "<ol>\n"
  const FooterClose: string := "</ol>\n" + "</div>\n"

  /** `template.replace(/%1/g, n.toString())`. */
  function Numbered(template: string, n: nat): string {
    ReplaceAll(template, "%1", NatToString(n))
  }

  /** The `<sup>` anchor of footnote `n`: its number as the id, the link and the text. */
  function SupHtml(n: nat): string {
    var d := NatToString(n);
    SupFnref + d + SupHref + d + SupTitle + d + SupEnd
  }

  /** The footer entry of footnote `n` with the rendered body `ct`. */
  function ItemHtml(n: nat, ct: string): string {
    LiId + NatToString(n) + LiBody + ct + LiEnd
  }

  /** The back-reference of footnote `n`, linking to its `<sup>` anchor. */
  function BackrefHtml(n: nat): string {
    BackHref + NatToString(n) + BackRest
  }

  /** Replacing the first `pat` after a stretch free of its first character. */
  lemma ReplaceAllAt(a: string, b: string, pat: string, rep: string)
    requires |pat| > 0 && pat[0] !in a
    ensures ReplaceAll(a + pat + b, pat, rep) == a + rep + ReplaceAll(b, pat, rep)
  {
    assert a + pat + b == a + (pat + b);
    ReplaceAllPrefix(a, pat + b, pat, rep);
    assert (pat + b)[..|pat|] == pat && (pat + b)[|pat|..] == b;
  }

  lemma NoPercent(n: nat)
    ensures '%' !in NatToString(n)
  {
    var d := NatToString(n);
    forall i | 0 <= i < |d| ensures d[i] != '%' {
      assert IsDigit(d[i]);
    }
  }

  /** No literal stretch of a template holds a `%`. */
  lemma PiecesFree()
    ensures '%' !in SupFnref && '%' !in SupHref && '%' !in SupTitle && '%' !in SupEnd
    ensures '%' !in LiId && '%' !in LiBody && '%' !in LiEnd && '%' !in BackHref && '%' !in BackRest
  {
    SupPiecesFree();
    LiPiecesFree();
    BackPiecesFree();
  }

  lemma SupPiecesFree()
    ensures '%' !in SupFnref && '%' !in SupHref && '%' !in SupTitle && '%' !in SupEnd
  {
  }

  lemma LiPiecesFree()
    ensures '%' !in LiId && '%' !in LiBody && '%' !in LiEnd
  {
  }

  lemma BackPiecesFree()
    ensures '%' !in BackHref && '%' !in BackRest
  {
  }

  lemma ReplaceThree(a: string, b: string, c: string, e: string, d: string)
    requires '%' !in a && '%' !in b && '%' !in c && '%' !in e
    ensures ReplaceAll(a + "%1" + b + "%1" + c + "%1" + e, "%1", d) == a + d + b + d + c + d + e
  {
    var q := "%1";
    var t3 := c + q + e;
    var t2 := b + q + t3;
    OneSlot(c, e, d);
    ReplaceAllAt(b, t3, q, d);
    ReplaceAllAt(a, t2, q, d);
    ThreeSlotsShape(a, b, c, e, q);
    ThreeSlotsShape(a, b, c, e, d);
  }

  lemma OneSlot(c: string, e: string, d: string)
    requires '%' !in c && '%' !in e
    ensures ReplaceAll(c + "%1" + e, "%1", d) == c + d + e
  {
    ReplaceAllAt(c, e, "%1", d);
    ReplaceAllVoid(e, "%1", d);
  }

  lemma ThreeSlotsShape(a: string, b: string, c: string, e: string, q: string)
    ensures a + q + b + q + c + q + e == a + q + (b + q + (c + q + e))
  {
  }

  /** The number goes into all three places of the `<sup>` template. */
  lemma SupShape(n: nat)
    ensures Numbered(MarkSupTemplate, n) == SupHtml(n)
  {
    PiecesFree();
    ReplaceThree(SupFnref, SupHref, SupTitle, SupEnd, NatToString(n));
  }

  /** The number goes into the link of the back-reference. */
  lemma BackrefShape(n: nat)
    ensures Numbered(AnchorTemplate, n) == BackrefHtml(n)
  {
    var d := NatToString(n);
    PiecesFree();
    ReplaceAllAt(BackHref, BackRest, "%1", d);
    ReplaceAllVoid(BackRest, "%1", d);
  }

  /** `%2` is not `%1`: the global number replace passes over it. */
  lemma SecondSlotKept(c: string, d: string)
    requires '%' !in c
    ensures ReplaceAll("%2" + c, "%1", d) == "%2" + c
  {
    var t := "%2" + c;
    assert t[..2] != "%1" by { assert t[..2][1] == '2'; }
    assert t[1..] == "2" + c;
    ReplaceAllVoid("2" + c, "%1", d);
    assert [t[0]] + ("2" + c) == t;
  }

  lemma NumberSlot(a: string, b: string, c: string, d: string)
    requires '%' !in a && '%' !in b && '%' !in c
    ensures ReplaceAll(a + "%1" + b + "%2" + c, "%1", d) == a + d + b + "%2" + c
  {
    var rest := b + ("%2" + c);
    assert a + "%1" + b + "%2" + c == a + "%1" + rest;
    ReplaceAllAt(a, rest, "%1", d);
    ReplaceAllPrefix(b, "%2" + c, "%1", d);
    SecondSlotKept(c, d);
    assert a + d + (b + ("%2" + c)) == a + d + b + "%2" + c;
  }

  lemma FillSlot(h: string, c: string, ct: string)
    requires '%' !in h
    ensures ReplaceFirst(h + "%2" + c, "%2", ct) == h + ct + c
  {
    var t := "%2" + c;
    assert h + "%2" + c == h + t;
    ReplaceFirstPrefix(h, t, "%2", ct);
    assert t[..2] == "%2" && t[2..] == c;
  }

  /** `footerLi.replace(/%1/g, n).replace('%2', ct)`: the number goes into the
      id and the body into the element, whatever the body holds. */
  lemma ItemShape(n: nat, ct: string)
    ensures ReplaceFirst(Numbered(FooterLiTemplate, n), "%2", ct) == ItemHtml(n, ct)
  {
    var d := NatToString(n);
    PiecesFree();
    NoPercent(n);
    NumberSlot(LiId, LiBody, LiEnd, d);
    var h := LiId + d + LiBody;
    assert '%' !in h;
    assert Numbered(FooterLiTemplate, n) == h + "%2" + LiEnd;
    FillSlot(h, LiEnd, ct);
  }
}
