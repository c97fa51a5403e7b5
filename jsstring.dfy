/**
 * The JavaScript string primitives the footnote extension relies on:
 * character classes of JavaScript regular expressions, literal global and
 * first-occurrence replacement (`String.prototype.replace`), the indentation
 * strip `/^ {0,3}/gm`, `trim()` and `Number.prototype.toString()`.
 */
module JsString {

  /** The private escape character (diaeresis, U+00A8) the extension uses. */
  const Trema: char := '\U{00A8}'

  /** Characters that end a line for `.` and for a multiline `^`. */
  predicate IsLineTerminator(c: char) {
    c == '\n' || c == '\r' || c == '\U{2028}' || c == '\U{2029}'
  }

  /** The class `\s` of JavaScript regular expressions; also what `trim()` removes. */
  predicate IsJsSpace(c: char) {
    || c == '\t' || c == '\U{000B}' || c == '\U{000C}' || c == ' '
    || c == '\U{00A0}' || c == '\U{1680}' || ('\U{2000}' <= c <= '\U{200A}')
    || c == '\U{202F}' || c == '\U{205F}' || c == '\U{3000}' || c == '\U{FEFF}'
    || IsLineTerminator(c)
  }

  /** `pat` occurs in `s` starting at index `i`. */
  predicate OccursAt(s: string, pat: string, i: nat) {
    i + |pat| <= |s| && s[i..i + |pat|] == pat
  }

  predicate Contains(s: string, pat: string) {
    exists i: nat | i <= |s| :: OccursAt(s, pat, i)
  }

  /** Replaces every non-overlapping occurrence of `pat`, scanning left to right;
      inserted text is not rescanned (a `replace` with a global pattern). */
  function ReplaceAll(s: string, pat: string, rep: string): string
    requires |pat| > 0
    decreases |s|
  {
    if |s| < |pat| then s
    else if s[..|pat|] == pat then rep + ReplaceAll(s[|pat|..], pat, rep)
    else [s[0]] + ReplaceAll(s[1..], pat, rep)
  }

  /** Replaces the first occurrence of `pat` only (a `replace` with a string
      pattern, or with a regular expression without the `g` flag). */
  function ReplaceFirst(s: string, pat: string, rep: string): string
    requires |pat| > 0
    decreases |s|
  {
    if |s| < |pat| then s
    else if s[..|pat|] == pat then rep + s[|pat|..]
    else [s[0]] + ReplaceFirst(s[1..], pat, rep)
  }

  lemma {:induction false} ReplaceAllVoid(s: string, pat: string, rep: string)
    requires |pat| > 0 && pat[0] !in s
    ensures ReplaceAll(s, pat, rep) == s
  {
    if |s| >= |pat| {
      assert s[..|pat|][0] == s[0];
      ReplaceAllVoid(s[1..], pat, rep);
    }
  }

  /** A prefix that cannot start an occurrence passes through replacement untouched. */
  lemma {:induction false} ReplaceAllPrefix(a: string, b: string, pat: string, rep: string)
    requires |pat| > 0 && pat[0] !in a
    ensures ReplaceAll(a + b, pat, rep) == a + ReplaceAll(b, pat, rep)
  {
    if a != [] {
      var s := a + b;
      assert a[0] in a && forall c :: c in a[1..] ==> c in a;
      if |s| < |pat| {
        assert |b| < |pat|;
        assert ReplaceAll(b, pat, rep) == b;
      } else {
        assert s[..|pat|][0] == a[0];
        assert s[1..] == a[1..] + b;
        ReplaceAllPrefix(a[1..], b, pat, rep);
        assert [a[0]] + (a[1..] + ReplaceAll(b, pat, rep)) == a + ReplaceAll(b, pat, rep);
      }
    } else {
      assert a + b == b;
      assert a + ReplaceAll(b, pat, rep) == ReplaceAll(b, pat, rep);
    }
  }

  lemma {:induction false} ReplaceFirstPrefix(a: string, b: string, pat: string, rep: string)
    requires |pat| > 0 && pat[0] !in a
    ensures ReplaceFirst(a + b, pat, rep) == a + ReplaceFirst(b, pat, rep)
  {
    if a != [] {
      var s := a + b;
      assert a[0] in a && forall c :: c in a[1..] ==> c in a;
      if |s| < |pat| {
        assert |b| < |pat|;
      } else {
        assert s[..|pat|][0] == a[0];
        assert s[1..] == a[1..] + b;
        ReplaceFirstPrefix(a[1..], b, pat, rep);
        assert [a[0]] + (a[1..] + ReplaceFirst(b, pat, rep)) == a + ReplaceFirst(b, pat, rep);
      }
    } else {
      assert a + b == b;
      assert a + ReplaceFirst(b, pat, rep) == ReplaceFirst(b, pat, rep);
    }
  }

  lemma OccursShift(s: string, pat: string, i: nat)
    requires |s| >= 1
    ensures OccursAt(s[1..], pat, i) == OccursAt(s, pat, i + 1)
  {
    if i + 1 + |pat| <= |s| {
      assert s[1..][i..i + |pat|] == s[i + 1..i + 1 + |pat|];
    }
  }

  /** A first-occurrence replacement that finds nothing returns its input. */
  lemma {:induction false} ReplaceFirstAbsent(s: string, pat: string, rep: string)
    requires |pat| > 0 && !Contains(s, pat)
    ensures ReplaceFirst(s, pat, rep) == s
  {
    if |s| >= |pat| {
      assert !OccursAt(s, pat, 0);
      forall i: nat ensures OccursAt(s[1..], pat, i) == OccursAt(s, pat, i + 1) {
        OccursShift(s, pat, i);
      }
      ReplaceFirstAbsent(s[1..], pat, rep);
    }
  }

  /** A global replacement that finds nothing returns its input. */
  lemma {:induction false} ReplaceAllAbsent(s: string, pat: string, rep: string)
    requires |pat| > 0 && !Contains(s, pat)
    ensures ReplaceAll(s, pat, rep) == s
  {
    if |s| >= |pat| {
      assert !OccursAt(s, pat, 0);
      forall i: nat ensures OccursAt(s[1..], pat, i) == OccursAt(s, pat, i + 1) {
        OccursShift(s, pat, i);
      }
      ReplaceAllAbsent(s[1..], pat, rep);
    }
  }

  /** A first-occurrence replacement rewrites exactly the leftmost occurrence. */
  lemma {:induction false} ReplaceFirstAt(s: string, pat: string, rep: string, i: nat)
    requires |pat| > 0 && OccursAt(s, pat, i)
    requires forall k: nat :: k < i ==> !OccursAt(s, pat, k)
    ensures ReplaceFirst(s, pat, rep) == s[..i] + rep + s[i + |pat|..]
  {
    if i == 0 {
      assert s[..|pat|] == pat;
    } else {
      ReplaceFirstSkip(s, pat, rep);
      var tail := s[1..];
      assert OccursAt(tail, pat, i - 1) && forall k: nat :: k < i - 1 ==> !OccursAt(tail, pat, k) by {
        OccursShift(s, pat, i - 1);
        forall k: nat | k < i - 1 ensures !OccursAt(tail, pat, k) {
          OccursShift(s, pat, k);
        }
      }
      ReplaceFirstAt(tail, pat, rep, i - 1);
      ConsSlices(s, i, i + |pat|, rep);
    }
  }

  /** A text that does not start with `pat` keeps its first character. */
  lemma ReplaceFirstSkip(s: string, pat: string, rep: string)
    requires |pat| > 0 && |s| >= 1 && !OccursAt(s, pat, 0)
    ensures ReplaceFirst(s, pat, rep) == [s[0]] + ReplaceFirst(s[1..], pat, rep)
  {
    if |s| < |pat| {
      assert |s[1..]| < |pat|;
      assert [s[0]] + s[1..] == s;
    }
  }

  lemma ConsSlices(s: string, i: nat, m: nat, rep: string)
    requires 1 <= i <= m <= |s|
    ensures [s[0]] + (s[1..][..i - 1] + rep + s[1..][m - 1..]) == s[..i] + rep + s[m..]
  {
    assert s[1..][..i - 1] == s[1..i];
    assert s[1..][m - 1..] == s[m..];
    assert [s[0]] + s[1..i] == s[..i];
  }

  // ---------------------------------------------------------------------------
  // The trema escape (line 90 on the way in, line 198 on the way out)

  function EscapeTrema(s: string): string {
    ReplaceAll(s, [Trema], [Trema, 'T'])
  }

  function UnescapeTrema(s: string): string {
    ReplaceAll(s, [Trema, 'T'], [Trema])
  }

  /** Every trema of `s` is followed by a `T`: the shape of escaped text. */
  predicate TremaEscaped(s: string) {
    forall i :: 0 <= i < |s| && s[i] == Trema ==> i + 1 < |s| && s[i + 1] == 'T'
  }

  lemma {:induction false} EscapeTremaCons(c: char, s: string)
    ensures EscapeTrema([c] + s) == (if c == Trema then [Trema, 'T'] else [c]) + EscapeTrema(s)
  {
    var t := [c] + s;
    assert t[..1] == [c];
    assert t[1..] == s;
  }

  lemma {:induction false} EscapeTremaAppend(a: string, b: string)
    ensures EscapeTrema(a + b) == EscapeTrema(a) + EscapeTrema(b)
  {
    if a != [] {
      var head: string := if a[0] == Trema then [Trema, 'T'] else [a[0]];
      assert a + b == [a[0]] + (a[1..] + b);
      assert a == [a[0]] + a[1..];
      EscapeTremaCons(a[0], a[1..] + b);
      EscapeTremaCons(a[0], a[1..]);
      EscapeTremaAppend(a[1..], b);
      assert head + (EscapeTrema(a[1..]) + EscapeTrema(b)) == (head + EscapeTrema(a[1..])) + EscapeTrema(b);
    } else {
      assert a + b == b;
      assert EscapeTrema(a) == [];
    }
  }

  lemma {:induction false} EscapeTremaShape(s: string)
    ensures TremaEscaped(EscapeTrema(s))
  {
    if s != [] {
      assert s == [s[0]] + s[1..];
      EscapeTremaCons(s[0], s[1..]);
      EscapeTremaShape(s[1..]);
    }
  }

  /** Escaping the trema on the way in and unescaping on the way out is lossless. */
  lemma {:induction false} TremaRoundTrip(s: string)
    ensures UnescapeTrema(EscapeTrema(s)) == s
  {
    if s != [] {
      assert s == [s[0]] + s[1..];
      EscapeTremaCons(s[0], s[1..]);
      var e := EscapeTrema(s[1..]);
      TremaRoundTrip(s[1..]);
      if s[0] == Trema {
        var t := [Trema, 'T'] + e;
        assert t[..2] == [Trema, 'T'] && t[2..] == e;
      } else {
        var t := [s[0]] + e;
        if |t| >= 2 {
          assert t[..2][0] == s[0];
        }
        assert t[1..] == e;
      }
    }
  }

  /** An occurrence of a two-character pattern free of tremas and `T`s in
      escaped text comes from an occurrence in the raw text. */
  lemma {:induction false} EscapedPairOrigin(s: string, x: char, y: char, i: nat)
    requires x !in {Trema, 'T'} && y !in {Trema, 'T'}
    requires OccursAt(EscapeTrema(s), [x, y], i)
    ensures Contains(s, [x, y])
  {
    assert s != [];
    assert s == [s[0]] + s[1..];
    EscapeTremaCons(s[0], s[1..]);
    var e := EscapeTrema(s[1..]);
    var head: string := if s[0] == Trema then [Trema, 'T'] else [s[0]];
    var t := head + e;
    assert t == EscapeTrema(s);
    PairAt(t, x, y, i);
    if i >= |head| {
      assert e[i - |head|..i - |head| + 2] == t[i..i + 2];
      EscapedPairOrigin(s[1..], x, y, i - |head|);
      var j: nat :| j <= |s[1..]| && OccursAt(s[1..], [x, y], j);
      assert s[j + 1..j + 3] == s[1..][j..j + 2];
      assert OccursAt(s, [x, y], j + 1);
    } else {
      assert s[0] != Trema && i == 0 && s[0] == x;
      assert s[1..] != [] && s[1..] == [s[1]] + s[2..];
      EscapeTremaCons(s[1], s[2..]);
      assert s[1] == y;
      assert s[0..2] == [x, y];
      assert OccursAt(s, [x, y], 0);
    }
  }

  lemma PairAt(t: string, x: char, y: char, i: nat)
    requires OccursAt(t, [x, y], i)
    ensures t[i] == x && t[i + 1] == y
  {
    var w := t[i..i + 2];
    assert w[0] == t[i] && w[1] == t[i + 1];
  }

  /** Escaping inserts only `T`s after tremas, so it creates no `~0` and no `[^`. */
  lemma EscapeTremaKeepsAbsent(s: string, x: char, y: char)
    requires x !in {Trema, 'T'} && y !in {Trema, 'T'}
    ensures Contains(EscapeTrema(s), [x, y]) ==> Contains(s, [x, y])
  {
    forall i: nat | OccursAt(EscapeTrema(s), [x, y], i) ensures Contains(s, [x, y]) {
      EscapedPairOrigin(s, x, y, i);
    }
  }

  // ---------------------------------------------------------------------------
  // The dollar escape of ids (lines 96, 109 on the way in, line 144 on the way out)

  function EscapeDollar(id: string): string {
    ReplaceAll(id, "$", [Trema, 'D'])
  }

  function UnescapeDollar(id: string): string {
    ReplaceAll(id, [Trema, 'D'], "$")
  }

  lemma {:induction false} EscapeDollarCons(c: char, s: string)
    ensures EscapeDollar([c] + s) == (if c == '$' then [Trema, 'D'] else [c]) + EscapeDollar(s)
  {
    var t := [c] + s;
    assert t[..1] == [c];
    assert t[1..] == s;
  }

  /** An id is left as it is by the dollar escape exactly when it holds no `$`. */
  lemma {:induction false} EscapeDollarIdentity(id: string)
    ensures EscapeDollar(id) == id <==> '$' !in id
  {
    if id != [] {
      assert id == [id[0]] + id[1..];
      EscapeDollarCons(id[0], id[1..]);
      EscapeDollarIdentity(id[1..]);
      if id[0] == '$' {
        var e := EscapeDollar(id[1..]);
        assert |EscapeDollar(id)| == |e| + 2;
        EscapeDollarLength(id[1..]);
      }
    }
  }

  lemma {:induction false} EscapeDollarLength(id: string)
    ensures |EscapeDollar(id)| >= |id|
  {
    if id != [] {
      assert id == [id[0]] + id[1..];
      EscapeDollarCons(id[0], id[1..]);
      EscapeDollarLength(id[1..]);
    }
  }

  /** No trema of `s` is directly followed by `D`. */
  predicate NoTremaD(s: string) {
    forall i :: 0 <= i < |s| - 1 && s[i] == Trema ==> s[i + 1] != 'D'
  }

  /** The dollar escape of an id round-trips when the id holds no `¨D` of its own,
      which is the case for every id cut from trema-escaped text. */
  lemma {:induction false} DollarRoundTrip(id: string)
    requires NoTremaD(id)
    ensures UnescapeDollar(EscapeDollar(id)) == id
  {
    if id != [] {
      var rest := id[1..];
      assert id == [id[0]] + rest;
      EscapeDollarCons(id[0], rest);
      assert NoTremaD(rest) by {
        forall i | 0 <= i < |rest| - 1 && rest[i] == Trema ensures rest[i + 1] != 'D' {
          assert id[i + 1] == rest[i];
        }
      }
      DollarRoundTrip(rest);
      var e := EscapeDollar(rest);
      if id[0] == '$' {
        var t := [Trema, 'D'] + e;
        assert t[..2] == [Trema, 'D'] && t[2..] == e;
      } else {
        var t := [id[0]] + e;
        assert t[1..] == e;
        if id[0] == Trema && rest != [] {
          assert rest == [rest[0]] + rest[1..];
          EscapeDollarCons(rest[0], rest[1..]);
          assert id[1] == rest[0] != 'D';
          assert e[0] != 'D';
        }
        if |t| >= 2 {
          assert t[..2] != [Trema, 'D'] by { assert t[..2][0] == id[0] && t[..2][1] == e[0]; }
        }
      }
    }
  }

  /** The first character of a dollar unescape is a `$` or the first character of its input. */
  lemma UnescapeDollarHead(s: string)
    requires UnescapeDollar(s) != []
    ensures s != [] && (UnescapeDollar(s)[0] == '$' || UnescapeDollar(s)[0] == s[0])
  {
  }

  /** The unescape leaves no `¨D`: every one it meets becomes `$`. */
  lemma {:induction false} UnescapeDollarClean(s: string)
    ensures forall i: nat :: !OccursAt(UnescapeDollar(s), [Trema, 'D'], i)
  {
    var pat := [Trema, 'D'];
    var r := UnescapeDollar(s);
    if |s| >= 2 {
      var skip := if s[..2] == pat then 2 else 1;
      var rest := s[skip..];
      UnescapeDollarClean(rest);
      var head: string := if skip == 2 then "$" else [s[0]];
      assert r == head + UnescapeDollar(rest);
      assert r[1..] == UnescapeDollar(rest);
      forall i: nat ensures !OccursAt(r, pat, i) {
        if i == 0 {
          if skip == 1 && s[0] == Trema && |r| >= 2 {
            assert s[1] != 'D' by { assert s[..2] == [s[0], s[1]]; }
            UnescapeDollarHead(rest);
            assert r[1] == UnescapeDollar(rest)[0];
            assert r[1] != 'D';
            assert r[..2] != pat;
          }
        } else {
          OccursShift(r, pat, i - 1);
        }
      }
    }
  }

  /** The dollar escape leaves no `$`. */
  lemma {:induction false} EscapeDollarNoDollar(id: string)
    ensures '$' !in EscapeDollar(id)
  {
    if id != [] {
      assert id == [id[0]] + id[1..];
      EscapeDollarCons(id[0], id[1..]);
      EscapeDollarNoDollar(id[1..]);
    }
  }

  /** An unescape that yields no `$` found no `¨D` to turn back: it returns its input. */
  lemma {:induction false} UnescapeDollarNoDollar(s: string)
    requires '$' !in UnescapeDollar(s)
    ensures UnescapeDollar(s) == s
  {
    if |s| >= 2 && s[..2] != [Trema, 'D'] {
      var u := UnescapeDollar(s[1..]);
      assert UnescapeDollar(s) == [s[0]] + u;
      assert '$' !in u by {
        forall x | 0 <= x < |u| ensures u[x] != '$' {
          assert UnescapeDollar(s)[x + 1] == u[x];
        }
      }
      UnescapeDollarNoDollar(s[1..]);
      assert s == [s[0]] + s[1..];
    }
  }

  /** Substrings of trema-escaped text carry no `¨D` of their own. */
  lemma EscapedSliceNoTremaD(t: string, lo: nat, hi: nat)
    requires TremaEscaped(t) && lo <= hi <= |t|
    ensures NoTremaD(t[lo..hi])
  {
    forall i | 0 <= i < hi - lo - 1 && t[lo..hi][i] == Trema ensures t[lo..hi][i + 1] != 'D' {
      assert t[lo + i] == Trema;
      assert t[lo + i + 1] == 'T';
    }
  }

  // ---------------------------------------------------------------------------
  // The sentinel `~0` (line 87 appends it, line 152 removes the first occurrence)

  /** Removing the first `~0` from `s + "~0"` gives back `s` whenever `s` has none. */
  lemma SentinelRoundTrip(s: string)
    requires !Contains(s, "~0")
    ensures ReplaceFirst(s + "~0", "~0", "") == s
  {
    var t := s + "~0";
    assert OccursAt(t, "~0", |s|) by { assert t[|s|..|s| + 2] == "~0"; }
    forall k: nat | k + 1 < |s| ensures OccursAt(t, "~0", k) == OccursAt(s, "~0", k) {
      assert s[k..k + 2] == t[k..k + 2];
    }
    assert t[|s|] == '~';
    ReplaceFirstAt(t, "~0", "", |s|);
    assert t[..|s|] == s;
  }

  // ---------------------------------------------------------------------------
  // `content.replace(/^ {0,3}/gm, '')` (line 185)

  /** Removes up to `budget` spaces here and up to three after each line terminator. */
  function DedentFrom(s: string, budget: nat): string
    decreases |s|
  {
    if s == [] then []
    else if s[0] == ' ' && budget > 0 then DedentFrom(s[1..], budget - 1)
    else [s[0]] + DedentFrom(s[1..], if IsLineTerminator(s[0]) then 3 else 0)
  }

  function Dedent(s: string): string {
    DedentFrom(s, 3)
  }

  /** No character is ever added by the strip. */
  lemma {:induction false} DedentShrinks(s: string, budget: nat)
    ensures |DedentFrom(s, budget)| <= |s|
    ensures multiset(DedentFrom(s, budget)) <= multiset(s)
  {
    if s != [] {
      assert s == [s[0]] + s[1..];
      DedentShrinks(s[1..], if s[0] == ' ' && budget > 0 then budget - 1 else if IsLineTerminator(s[0]) then 3 else 0);
    }
  }

  /** A line indented by k spaces keeps all but at most three of them. */
  lemma DedentIndent(k: nat, rest: string, budget: nat)
    requires budget <= 3
    requires rest == [] || rest[0] != ' '
    ensures DedentFrom(Spaces(k) + rest, budget)
         == Spaces(if k > budget then k - budget else 0) + DedentFrom(rest, if k > budget then 0 else budget - k)
  {
    if k > budget {
      DedentIndentKeep(k, rest, budget);
    } else {
      DedentIndentDrop(k, rest, budget);
      assert Spaces(0) + DedentFrom(rest, budget - k) == DedentFrom(rest, budget - k);
    }
  }

  /** All k spaces are dropped while the budget covers them. */
  lemma {:induction false} DedentIndentDrop(k: nat, rest: string, budget: nat)
    requires k <= budget
    ensures DedentFrom(Spaces(k) + rest, budget) == DedentFrom(rest, budget - k)
  {
    if k == 0 {
      assert Spaces(0) + rest == rest;
    } else {
      SpacesCons(k, rest);
      DedentSpace(Spaces(k - 1) + rest, budget);
      DedentIndentDrop(k - 1, rest, budget - 1);
    }
  }

  /** Once the budget is spent, the remaining spaces stay. */
  lemma {:induction false} DedentIndentKeep(k: nat, rest: string, budget: nat)
    requires k > budget
    ensures DedentFrom(Spaces(k) + rest, budget) == Spaces(k - budget) + DedentFrom(rest, 0)
  {
    if budget == 0 {
      DedentSpent(k, rest);
    } else {
      SpacesCons(k, rest);
      DedentSpace(Spaces(k - 1) + rest, budget);
      DedentIndentKeep(k - 1, rest, budget - 1);
    }
  }

  lemma {:induction false} DedentSpent(k: nat, rest: string)
    ensures DedentFrom(Spaces(k) + rest, 0) == Spaces(k) + DedentFrom(rest, 0)
  {
    if k == 0 {
      assert Spaces(0) + rest == rest;
    } else {
      SpacesCons(k, rest);
      DedentSpace(Spaces(k - 1) + rest, 0);
      DedentSpent(k - 1, rest);
      SpacesCons(k, DedentFrom(rest, 0));
    }
  }

  lemma SpacesCons(k: nat, rest: string)
    requires k > 0
    ensures Spaces(k) + rest == [' '] + (Spaces(k - 1) + rest)
  {
    assert Spaces(k) == [' '] + Spaces(k - 1);
  }

  /** A leading space is dropped while the budget lasts, and kept after. */
  lemma DedentSpace(tail: string, budget: nat)
    ensures DedentFrom([' '] + tail, budget)
         == if budget > 0 then DedentFrom(tail, budget - 1) else [' '] + DedentFrom(tail, 0)
  {
    var s := [' '] + tail;
    assert s[0] == ' ' && s[1..] == tail;
  }

  /** Text whose lines start without a space is left as it is. */
  lemma {:induction false} DedentNoIndent(s: string, budget: nat)
    requires s == [] || s[0] != ' ' || budget == 0
    requires forall i :: 0 <= i < |s| - 1 && IsLineTerminator(s[i]) ==> s[i + 1] != ' '
    ensures DedentFrom(s, budget) == s
  {
    if s != [] {
      var b := if IsLineTerminator(s[0]) then 3 else 0;
      assert forall i :: 0 <= i < |s[1..]| - 1 && IsLineTerminator(s[1..][i]) ==> s[1..][i + 1] != ' ' by {
        forall i | 0 <= i < |s[1..]| - 1 && IsLineTerminator(s[1..][i]) ensures s[1..][i + 1] != ' ' {
          assert s[i + 1] == s[1..][i];
        }
      }
      if |s| > 1 && b == 3 { assert s[1..][0] == s[1]; }
      DedentNoIndent(s[1..], b);
      assert s == [s[0]] + s[1..];
    }
  }

  function Spaces(k: nat): (r: string)
    ensures |r| == k && forall i :: 0 <= i < k ==> r[i] == ' '
  {
    if k == 0 then [] else [' '] + Spaces(k - 1)
  }

  // ---------------------------------------------------------------------------
  // `trim()` (line 185)

  function TrimStart(s: string): (r: string)
    ensures |r| <= |s| && r == s[|s| - |r|..]
    ensures forall i :: 0 <= i < |s| - |r| ==> IsJsSpace(s[i])
    ensures r == [] || !IsJsSpace(r[0])
  {
    if s == [] || !IsJsSpace(s[0]) then s else TrimStart(s[1..])
  }

  function TrimEnd(s: string): (r: string)
    ensures |r| <= |s| && r == s[..|r|]
    ensures forall i :: |r| <= i < |s| ==> IsJsSpace(s[i])
    ensures r == [] || !IsJsSpace(r[|r| - 1])
  {
    if s == [] || !IsJsSpace(s[|s| - 1]) then s else TrimEnd(s[..|s| - 1])
  }

  /** `trim()`: the result is the part of `s` between its leading and its trailing
      white space, and neither ends of it is white space. */
  function Trim(s: string): (r: string)
    ensures exists lo :: TrimmedAt(s, r, lo)
    ensures r == [] || (!IsJsSpace(r[0]) && !IsJsSpace(r[|r| - 1]))
  {
    var a := TrimStart(s);
    var r := TrimEnd(a);
    var lo := |s| - |a|;
    assert r == s[lo..lo + |r|];
    assert TrimmedAt(s, r, lo);
    r
  }

  /** `r` is the slice of `s` at `lo` and everything of `s` around it is white space. */
  predicate TrimmedAt(s: string, r: string, lo: nat) {
    && lo + |r| <= |s| && r == s[lo..lo + |r|]
    && (forall i :: 0 <= i < lo ==> IsJsSpace(s[i]))
    && (forall i :: lo + |r| <= i < |s| ==> IsJsSpace(s[i]))
  }

  // ---------------------------------------------------------------------------
  // `n.toString()` (lines 179, 186, 189)

  function DigitChar(d: nat): char
    requires d < 10
  {
    "0123456789"[d]
  }

  predicate IsDigit(c: char) {
    '0' <= c <= '9'
  }

  /** The decimal numeral of `n`, without leading zeros. */
  function NatToString(n: nat): (r: string)
    ensures |r| >= 1 && forall i :: 0 <= i < |r| ==> IsDigit(r[i])
  {
    if n < 10 then [DigitChar(n)] else NatToString(n / 10) + [DigitChar(n % 10)]
  }

  /** The value of a string of decimal digits. */
  function DecimalValue(s: string): nat
    requires forall i :: 0 <= i < |s| ==> IsDigit(s[i])
  {
    if s == [] then 0
    else
      assert IsDigit(s[|s| - 1]);
      10 * DecimalValue(s[..|s| - 1]) + (s[|s| - 1] as int - '0' as int) as nat
  }

  /** Reading the numeral back gives the number: numerals of distinct footnotes differ. */
  lemma {:induction false} NatToStringRoundTrip(n: nat)
    ensures DecimalValue(NatToString(n)) == n
  {
    if n >= 10 {
      NatToStringRoundTrip(n / 10);
      var s := NatToString(n);
      assert s[..|s| - 1] == NatToString(n / 10);
    }
  }
}
