/**
 * The second filter, `replaceTokensWithHtml` (lines 157-202), as a function
 * of showdown's output, the bound footnotes and the converter's renderer.
 */
module Render {
  import opened JsString
  import opened Tokens
  import opened Binding
  import opened Markup

  /** The markdown of a footnote body: up to three leading spaces of each
      line dropped, then trimmed (line 185). */
  function BodyMarkdown(f: Footnote): string {
    Trim(Dedent(f.content))
  }

  /** The text after the first `k` turns of the loop (line 182): the first
      placeholder of the i-th footnote's marker becomes anchor number i + 1. */
  function Substituted(text: string, fns: seq<Footnote>): string {
    if fns == [] then text
    else
      var n := |fns|;
      ReplaceFirst(Substituted(text, fns[..n - 1]), MarkPlaceholder(fns[n - 1].ref), SupHtml(n))
  }

  /** The footer entry of footnote number `n`, its body rendered by the
      converter with the guard option on (lines 174, 186, 189). */
  function Entry(n: nat, f: Footnote, makeHtml: (string, bool) -> string): string {
    ItemHtml(n, makeHtml(BodyMarkdown(f) + "\n" + BackrefHtml(n), true)) + "\n"
  }

  /** The footer entries, numbered from 1 in the order of `footnotes`. */
  function Items(fns: seq<Footnote>, makeHtml: (string, bool) -> string): string {
    if fns == [] then []
    else Items(fns[..|fns| - 1], makeHtml) + Entry(|fns|, fns[|fns| - 1], makeHtml)
  }

  /** The whole result on the path that has footnotes. */
  function Page(text: string, fns: seq<Footnote>, makeHtml: (string, bool) -> string): string {
    UnescapeTrema(Substituted(text, fns)) + "\n" + FooterOpen + Items(fns, makeHtml) + FooterClose
  }

  /** One more turn of the substitution loop. */
  lemma SubstitutedStep(text: string, fns: seq<Footnote>, i: nat)
    requires i < |fns|
    ensures Substituted(text, fns[..i + 1])
         == ReplaceFirst(Substituted(text, fns[..i]), MarkPlaceholder(fns[i].ref), SupHtml(i + 1))
  {
    var q := fns[..i + 1];
    assert q[..i] == fns[..i] && q[i] == fns[i];
  }

  /** One more entry of the footer. */
  lemma ItemsStep(fns: seq<Footnote>, makeHtml: (string, bool) -> string, i: nat)
    requires i < |fns|
    ensures Items(fns[..i + 1], makeHtml) == Items(fns[..i], makeHtml) + Entry(i + 1, fns[i], makeHtml)
  {
    var q := fns[..i + 1];
    assert q[..i] == fns[..i] && q[i] == fns[i];
  }

  /** The footer lists the footnotes in order: the entry of the k-th one, under
      the number k + 1, follows the entries of those before it. */
  lemma {:induction false} EntryInOrder(fns: seq<Footnote>, makeHtml: (string, bool) -> string, k: nat)
    requires k < |fns|
    ensures Items(fns[..k], makeHtml) + Entry(k + 1, fns[k], makeHtml) <= Items(fns, makeHtml)
  {
    ItemsStep(fns, makeHtml, k);
    ItemsPrefix(fns, makeHtml, k + 1);
  }

  /** The entries of the first j footnotes open the footer. */
  lemma {:induction false} ItemsPrefix(fns: seq<Footnote>, makeHtml: (string, bool) -> string, j: nat)
    requires j <= |fns|
    ensures Items(fns[..j], makeHtml) <= Items(fns, makeHtml)
    decreases |fns| - j
  {
    if j == |fns| {
      assert fns[..j] == fns;
    } else {
      var a := Items(fns[..j], makeHtml);
      var b := Items(fns[..j + 1], makeHtml);
      ItemsStep(fns, makeHtml, j);
      ItemsPrefix(fns, makeHtml, j + 1);
      PrefixTrans(a, b, Items(fns, makeHtml));
    }
  }

  lemma PrefixTrans(a: string, b: string, c: string)
    requires a <= b && b <= c
    ensures a <= c
  {
    assert c[..|a|] == b[..|a|];
  }

  /** Text that holds no placeholder of any footnote is left as it is by the
      substitution loop; anchors never create a placeholder. */
  lemma {:induction false} SubstitutedAbsent(text: string, fns: seq<Footnote>)
    requires forall i :: 0 <= i < |fns| ==> !Contains(text, MarkPlaceholder(fns[i].ref))
    ensures Substituted(text, fns) == text
  {
    if fns != [] {
      var n := |fns|;
      var q := fns[..n - 1];
      assert forall i :: 0 <= i < |q| ==> q[i] == fns[i];
      SubstitutedAbsent(text, q);
      ReplaceFirstAbsent(text, MarkPlaceholder(fns[n - 1].ref), SupHtml(n));
    }
  }

  /** One turn of the loop rewrites exactly the leftmost placeholder of its
      footnote's marker. */
  lemma SubstituteFirst(text: string, fns: seq<Footnote>, k: nat, j: nat)
    requires k < |fns|
    requires OccursAt(Substituted(text, fns[..k]), MarkPlaceholder(fns[k].ref), j)
    requires forall i: nat :: i < j ==> !OccursAt(Substituted(text, fns[..k]), MarkPlaceholder(fns[k].ref), i)
    ensures var s := Substituted(text, fns[..k]);
      Substituted(text, fns[..k + 1]) == s[..j] + SupHtml(k + 1) + s[j + |MarkPlaceholder(fns[k].ref)|..]
  {
    var s := Substituted(text, fns[..k]);
    assert fns[..k + 1][..k] == fns[..k];
    ReplaceFirstAt(s, MarkPlaceholder(fns[k].ref), SupHtml(k + 1), j);
  }
}
