/**
 * The two regular expressions of the tokenizer, written out as scanners with
 * the backtracking behaviour of JavaScript's engine:
 *
 *   definitions  /^ {0,3}\[\^(.+?)]:[ \t]?([\s\S]+?)(?=~0|\n {0,2}[\S]|^ {0,3}\[\^(.+?)]:)/gm
 *   markers      /\[\^(.+?)]/g
 *
 * and the global `replace` that drives each of them: try a match at every
 * position from left to right, and after a match go on where it ended.
 */
module Scanner {
  import opened JsString

  datatype Option<T> = None | Some(value: T)

  /** A multiline `^` holds at `p`. */
  predicate LineStartAt(t: string, p: nat)
    requires p <= |t|
  {
    p == 0 || IsLineTerminator(t[p - 1])
  }

  /** A space at `j`. */
  predicate SpaceAt(t: string, j: nat) {
    j < |t| && t[j] == ' '
  }

  /** The number of consecutive spaces starting at `i`. */
  function SpaceRun(t: string, i: nat): (k: nat)
    requires i <= |t|
    ensures i + k <= |t|
    ensures forall j :: i <= j < i + k ==> SpaceAt(t, j)
    ensures i + k == |t| || t[i + k] != ' '
    decreases |t| - i
  {
    if i < |t| && t[i] == ' ' then 1 + SpaceRun(t, i + 1) else 0
  }

  predicate NoTerminatorIn(t: string, lo: nat, hi: nat)
    requires lo <= hi <= |t|
  {
    forall k :: lo <= k < hi ==> !IsLineTerminator(t[k])
  }

  predicate ColonCloseAt(t: string, c: nat) {
    c + 2 <= |t| && t[c] == ']' && t[c + 1] == ':'
  }

  /** A `]:` at `c` closes a one-line id that starts at `lo`. */
  predicate ClosesId(t: string, lo: nat, c: nat) {
    lo <= c && ColonCloseAt(t, c) && NoTerminatorIn(t, lo, c)
  }

  /** The lazy `(.+?)]:`: the first `]:` at or after `j` such that the id
      `t[lo..]` before it stays on one line. */
  function NextIdClose(t: string, lo: nat, j: nat): (r: Option<nat>)
    requires lo < j <= |t| && NoTerminatorIn(t, lo, j - 1)
    ensures r.Some? ==> j <= r.value && ColonCloseAt(t, r.value) && NoTerminatorIn(t, lo, r.value)
    ensures r.Some? ==> forall c :: j <= c < r.value ==> !ColonCloseAt(t, c)
    ensures r.None? ==> forall c :: j <= c ==> !ClosesId(t, lo, c)
    decreases |t| - j
  {
    if IsLineTerminator(t[j - 1]) then None
    else if ColonCloseAt(t, j) then Some(j)
    else if j + 2 > |t| then None
    else NextIdClose(t, lo, j + 1)
  }

  /** `~0`: the sentinel appended before scanning. */
  predicate SentinelAt(t: string, e: nat) {
    e + 2 <= |t| && t[e] == '~' && t[e + 1] == '0'
  }

  /** `\n {0,2}[\S]`: a newline, at most two spaces, then a non-space. */
  predicate IndentedLineAt(t: string, e: nat)
    requires e <= |t|
  {
    && e < |t| && t[e] == '\n'
    && var m := SpaceRun(t, e + 1);
       m <= 2 && e + 1 + m < |t| && !IsJsSpace(t[e + 1 + m])
  }

  /** `^ {0,3}\[\^(.+?)]:`: the head of another definition. */
  predicate DefHeadAt(t: string, e: nat)
    requires e <= |t|
  {
    && LineStartAt(t, e)
    && var k := SpaceRun(t, e);
       && k <= 3 && e + k + 3 <= |t| && t[e + k] == '[' && t[e + k + 1] == '^'
       && NextIdClose(t, e + k + 2, e + k + 3).Some?
  }

  /** The lookahead that ends a definition's content. */
  predicate Lookahead(t: string, e: nat)
    requires e <= |t|
  {
    SentinelAt(t, e) || IndentedLineAt(t, e) || DefHeadAt(t, e)
  }

  /** The first position at or after `e` where the lookahead holds. */
  function NextLookahead(t: string, e: nat): (r: Option<nat>)
    requires e <= |t|
    ensures r.Some? ==> e <= r.value < |t| && Lookahead(t, r.value)
    ensures r.Some? ==> forall x :: e <= x < r.value ==> !Lookahead(t, x)
    ensures r.None? ==> forall x :: e <= x <= |t| ==> !Lookahead(t, x)
    decreases |t| - e
  {
    if e == |t| then None
    else if Lookahead(t, e) then Some(e)
    else NextLookahead(t, e + 1)
  }

  /** Where the content of a definition starts and ends. */
  datatype Body = Body(start: nat, end: nat)

  /** `[ \t]?([\s\S]+?)(?=…)` after the `]:` that ends at `q`: the optional
      blank is taken if the rest can still match, and the content is the
      shortest non-empty run that reaches the lookahead. */
  function BodyAt(t: string, q: nat): (r: Option<Body>)
    requires q <= |t|
    ensures r.Some? ==> q <= r.value.start <= q + 1 && r.value.start < r.value.end <= |t|
    ensures r.Some? ==> r.value.start == q + 1 ==> t[q] == ' ' || t[q] == '\t'
    ensures r.Some? ==> Lookahead(t, r.value.end)
    ensures r.Some? ==> forall x :: r.value.start < x < r.value.end ==> !Lookahead(t, x)
  {
    if q + 2 <= |t| && (t[q] == ' ' || t[q] == '\t') && NextLookahead(t, q + 2).Some? then
      Some(Body(q + 1, NextLookahead(t, q + 2).value))
    else if q + 1 <= |t| && NextLookahead(t, q + 1).Some? then
      Some(Body(q, NextLookahead(t, q + 1).value))
    else None
  }

  /** The body is found whenever the lookahead holds somewhere after its
      first character, and the blank is taken whenever the rest can still
      match after it. */
  lemma BodyAtChoice(t: string, q: nat)
    requires q <= |t|
    ensures (q < |t| && (t[q] == ' ' || t[q] == '\t') && exists x :: q + 2 <= x <= |t| && Lookahead(t, x))
      ==> BodyAt(t, q).Some? && BodyAt(t, q).value.start == q + 1
    ensures BodyAt(t, q).None? ==> forall x :: q + 1 <= x <= |t| ==> !Lookahead(t, x)
  {
  }

  datatype Tail = Tail(close: nat, body: Body)

  /** A `]:` at `c` that closes a one-line id from `lo` is not followed by
      a body. */
  predicate ClosesNoBody(t: string, lo: nat, c: nat) {
    ClosesId(t, lo, c) ==> BodyAt(t, c + 2).None?
  }

  /** The id of a definition ends at the first `]:` after which the rest of
      the pattern matches; otherwise the engine backtracks into a longer id. */
  function DefTail(t: string, lo: nat, j: nat): (r: Option<Tail>)
    requires lo < j <= |t| && NoTerminatorIn(t, lo, j - 1)
    ensures r.Some? ==> j <= r.value.close && ColonCloseAt(t, r.value.close)
    ensures r.Some? ==> NoTerminatorIn(t, lo, r.value.close)
    ensures r.Some? ==> BodyAt(t, r.value.close + 2) == Some(r.value.body)
    ensures r.Some? ==> forall c :: j <= c < r.value.close ==> ClosesNoBody(t, lo, c)
    ensures r.None? ==> forall c :: j <= c ==> ClosesNoBody(t, lo, c)
    decreases |t| - j
  {
    match NextIdClose(t, lo, j)
    case None => None
    case Some(c) =>
      match BodyAt(t, c + 2)
      case Some(b) => Some(Tail(c, b))
      case None => DefTail(t, lo, c + 1)
  }

  /** A definition matched at some position. */
  datatype DefMatch = DefMatch(indent: nat, id: string, gap: string, content: string, end: nat)

  /** What a match of the definition pattern at `p` is: the text it spells,
      at the start of a line, with the lookahead holding where it ends and
      nowhere inside its content. */
  predicate IsDefMatch(t: string, p: nat, m: DefMatch) {
    && SpellsMatch(t, p, m) && LineStartAt(t, p)
    && Lookahead(t, m.end)
    && (forall x :: m.end - |m.content| < x < m.end ==> !Lookahead(t, x))
  }

  /** The text from `p` spells the match `m`: up to three spaces, `[^`, a
      one-line id, `]:`, an optional blank and non-empty content. */
  predicate SpellsMatch(t: string, p: nat, m: DefMatch) {
    && p < m.end <= |t|
    && m.indent <= 3 && |m.id| >= 1 && |m.content| >= 1
    && (forall i :: 0 <= i < |m.id| ==> !IsLineTerminator(m.id[i]))
    && (m.gap == [] || m.gap == " " || m.gap == "\t")
    && t[p..m.end] == Spaces(m.indent) + "[^" + m.id + "]:" + m.gap + m.content
  }

  /** JavaScript's engine tries a shorter id first and, for the same id, the
      blank before the empty gap: `a` is tried before `b`. */
  predicate TriedBefore(a: DefMatch, b: DefMatch) {
    |a.id| < |b.id| || (|a.id| == |b.id| && |a.gap| > |b.gap|)
  }

  /** The definition pattern tried at position `p` of `t`: a match found
      there is a non-empty stretch of the text from `p`. */
  function DefMatchAt(t: string, p: nat): (r: Option<DefMatch>)
    requires p <= |t|
    ensures r.Some? ==> p < r.value.end <= |t|
  {
    if !LineStartAt(t, p) then None
    else
      var k := SpaceRun(t, p);
      if k > 3 || p + k + 3 > |t| || t[p + k] != '[' || t[p + k + 1] != '^' then None
      else DefMatchAfter(t, p, k)
  }

  /** The definition pattern at `p` once its `[^` has been seen after an
      indent of `k`: the id, gap and content the tail search finds. */
  function DefMatchAfter(t: string, p: nat, k: nat): (r: Option<DefMatch>)
    requires p + k + 3 <= |t|
    ensures r.Some? ==> p < r.value.end <= |t|
  {
    match DefTail(t, p + k + 2, p + k + 3)
    case None => None
    case Some(tl) => Some(MatchOf(t, p, k, tl))
  }

  /** What the scanner finds at `p` is a match of the definition pattern. */
  lemma DefMatchAtSound(t: string, p: nat)
    requires p <= |t|
    ensures DefMatchAt(t, p).Some? ==> IsDefMatch(t, p, DefMatchAt(t, p).value)
  {
    if DefMatchAt(t, p).Some? {
      var k, tl := DefMatchAtShape(t, p);
      BuildMatch(t, p, k, tl);
    }
  }

  /** Where a match the scanner finds at `p` comes from. */
  lemma DefMatchAtShape(t: string, p: nat) returns (k: nat, tl: Tail)
    requires p <= |t| && DefMatchAt(t, p).Some?
    ensures LineStartAt(t, p) && k == SpaceRun(t, p) && k <= 3
    ensures p + k + 3 <= |t| && t[p + k] == '[' && t[p + k + 1] == '^'
    ensures DefTail(t, p + k + 2, p + k + 3) == Some(tl)
    ensures p + k + 2 <= tl.close && tl.close + 2 <= tl.body.start <= tl.body.end <= |t|
    ensures DefMatchAt(t, p).value == MatchOf(t, p, k, tl)
  {
    k := SpaceRun(t, p);
    tl := TailOf(t, p, k);
  }

  /** The tail behind a match found after the `[^`. */
  lemma TailOf(t: string, p: nat, k: nat) returns (tl: Tail)
    requires p + k + 3 <= |t| && DefMatchAfter(t, p, k).Some?
    ensures DefTail(t, p + k + 2, p + k + 3) == Some(tl)
    ensures p + k + 2 <= tl.close && tl.close + 2 <= tl.body.start <= tl.body.end <= |t|
    ensures DefMatchAfter(t, p, k) == Some(MatchOf(t, p, k, tl))
  {
    tl := DefTail(t, p + k + 2, p + k + 3).value;
  }

  /** The match found after the `[^`, once its tail is known. */
  lemma AfterTail(t: string, p: nat, k: nat, tl: Tail)
    requires p + k + 3 <= |t| && DefTail(t, p + k + 2, p + k + 3) == Some(tl)
    ensures DefMatchAfter(t, p, k) == Some(MatchOf(t, p, k, tl))
  {
  }

  /** The scanner finds a match at `p`, and it is `m` or is tried before `m`. */
  predicate PicksAtOrBefore(t: string, p: nat, m: DefMatch)
    requires p <= |t|
  {
    var k := SpaceRun(t, p);
    && LineStartAt(t, p) && k <= 3 && p + k + 3 <= |t| && t[p + k] == '[' && t[p + k + 1] == '^'
    && DefTail(t, p + k + 2, p + k + 3).Some?
    && TailBefore(t, p, k, DefTail(t, p + k + 2, p + k + 3).value, m)
  }

  /** The match built from the tail `tl` is `m` or is tried before `m`. */
  predicate TailBefore(t: string, p: nat, k: nat, tl: Tail, m: DefMatch)
    requires p + k + 2 <= tl.close && tl.close + 2 <= tl.body.start <= tl.body.end <= |t|
  {
    var b := MatchOf(t, p, k, tl);
    b == m || TriedBefore(b, m)
  }

  /** The scanner finds a match whenever there is one, and the one it finds
      is tried before any other. */
  lemma DefMatchAtChoice(t: string, p: nat)
    requires p <= |t|
    ensures forall m :: IsDefMatch(t, p, m) ==> DefMatchAt(t, p).Some? && (DefMatchAt(t, p).value == m || TriedBefore(DefMatchAt(t, p).value, m))
  {
    forall m | IsDefMatch(t, p, m) ensures DefMatchAt(t, p).Some? && (DefMatchAt(t, p).value == m || TriedBefore(DefMatchAt(t, p).value, m)) {
      Choice(t, p, m);
      Picked(t, p, m);
    }
  }

  /** What the scanner's pick means for its result at `p`. */
  lemma Picked(t: string, p: nat, m: DefMatch)
    requires p <= |t| && PicksAtOrBefore(t, p, m)
    ensures DefMatchAt(t, p).Some? && (DefMatchAt(t, p).value == m || TriedBefore(DefMatchAt(t, p).value, m))
  {
    var k := SpaceRun(t, p);
    AfterTail(t, p, k, DefTail(t, p + k + 2, p + k + 3).value);
  }

  /** Any match at `p` is the scanner's own or is tried after it. */
  lemma Choice(t: string, p: nat, m: DefMatch)
    requires IsDefMatch(t, p, m)
    ensures PicksAtOrBefore(t, p, m)
  {
    var k, lo, c, q, g := MatchFields(t, p, m);
    BodyCompare(t, q, g, m.end);
    ChoiceFromFields(t, p, m, k, c, q, g);
  }

  lemma ChoiceFromFields(t: string, p: nat, m: DefMatch, k: nat, c: nat, q: nat, g: nat)
    requires p <= |t| && LineStartAt(t, p) && k == m.indent == SpaceRun(t, p) && k <= 3
    requires c == p + k + 2 + |m.id| && p + k + 3 <= c && q == c + 2 && g == |m.gap| && q + g <= m.end <= |t|
    requires t[p + k] == '[' && t[p + k + 1] == '^' && ColonCloseAt(t, c) && NoTerminatorIn(t, p + k + 2, c)
    requires m.id == t[p + k + 2..c] && m.gap == t[q..q + g] && m.content == t[q + g..m.end]
    requires BodyAt(t, q).Some?
    requires var bd := BodyAt(t, q).value; (g == 0 && bd.start == q + 1) || (bd.start == q + g && bd.end == m.end)
    ensures PicksAtOrBefore(t, p, m)
  {
    var tl := TailAt(t, p + k + 2, p + k + 3, c, q, g, m.end);
    ChoiceFromTail(t, p, m, k, tl, c, q, g);
  }

  lemma ChoiceFromTail(t: string, p: nat, m: DefMatch, k: nat, tl: Tail, c: nat, q: nat, g: nat)
    requires p <= |t| && LineStartAt(t, p) && k == m.indent == SpaceRun(t, p) && k <= 3
    requires p + k + 3 <= |t| && t[p + k] == '[' && t[p + k + 1] == '^'
    requires DefTail(t, p + k + 2, p + k + 3) == Some(tl)
    requires p + k + 2 <= tl.close <= c && tl.close + 2 <= tl.body.start <= tl.body.end <= |t|
    requires q == c + 2 && g == |m.gap| && q + g <= m.end <= |t|
    requires tl.close == c ==> (g == 0 && tl.body.start == q + 1) || (tl.body.start == q + g && tl.body.end == m.end)
    requires m.id == t[p + k + 2..c] && m.gap == t[q..q + g] && m.content == t[q + g..m.end]
    ensures PicksAtOrBefore(t, p, m)
  {
    Pack(t, p, m, k, tl, c, q, g);
    Assemble(t, p, m, k, tl);
  }

  /** The tail the scanner finds when a body matches after the `]:` at `c`. */
  lemma TailAt(t: string, lo: nat, j: nat, c: nat, q: nat, g: nat, e: nat) returns (tl: Tail)
    requires j == lo + 1 && j <= c && q == c + 2 && ColonCloseAt(t, c) && NoTerminatorIn(t, lo, c)
    requires q <= |t| && BodyAt(t, q).Some?
    requires var bd := BodyAt(t, q).value; (g == 0 && bd.start == q + 1) || (bd.start == q + g && bd.end == e)
    ensures DefTail(t, lo, j) == Some(tl) && lo + 1 <= tl.close <= c
    ensures tl.close + 2 <= tl.body.start <= tl.body.end <= |t|
    ensures tl.close == c ==> (g == 0 && tl.body.start == q + 1) || (tl.body.start == q + g && tl.body.end == e)
  {
    TailFound(t, lo, j, c);
    tl := DefTail(t, lo, j).value;
    TailBody(t, lo, j, tl);
  }

  lemma TailBody(t: string, lo: nat, j: nat, tl: Tail)
    requires lo < j <= |t| && NoTerminatorIn(t, lo, j - 1) && DefTail(t, lo, j) == Some(tl)
    ensures tl.close + 2 <= |t| && BodyAt(t, tl.close + 2) == Some(tl.body)
    ensures tl.close + 2 <= tl.body.start <= tl.body.end <= |t|
  {
  }

  /** The scanner's pick at `p`, once its tail is known. */
  lemma Assemble(t: string, p: nat, m: DefMatch, k: nat, tl: Tail)
    requires p <= |t| && LineStartAt(t, p) && k == SpaceRun(t, p) && k <= 3
    requires p + k + 3 <= |t| && t[p + k] == '[' && t[p + k + 1] == '^'
    requires DefTail(t, p + k + 2, p + k + 3) == Some(tl)
    requires p + k + 2 <= tl.close && tl.close + 2 <= tl.body.start <= tl.body.end <= |t|
    requires TailBefore(t, p, k, tl, m)
    ensures PicksAtOrBefore(t, p, m)
  {
  }

  /** The scanner's tail `tl`, with its `]:` at or before `c`, against the
      match `m` whose `]:` is at `c`. */
  lemma Pack(t: string, p: nat, m: DefMatch, k: nat, tl: Tail, c: nat, q: nat, g: nat)
    requires p + k + 2 <= tl.close <= c && tl.close + 2 <= tl.body.start <= tl.body.end <= |t|
    requires q == c + 2 && g == |m.gap| && q + g <= m.end <= |t| && m.indent == k
    requires tl.close == c ==> (g == 0 && tl.body.start == q + 1) || (tl.body.start == q + g && tl.body.end == m.end)
    requires m.id == t[p + k + 2..c] && m.gap == t[q..q + g] && m.content == t[q + g..m.end]
    ensures TailBefore(t, p, k, tl, m)
  {
    var b := MatchOf(t, p, k, tl);
    Compare(t, b, m, p + k + 2, tl.close, tl.body.start, tl.body.end, c, q, g);
  }

  /** The scanner's match `b`, with its `]:` at `cl` and its content from
      `s` to `e`, against the match `m` with its `]:` at `c`. */
  lemma Compare(t: string, b: DefMatch, m: DefMatch, lo: nat, cl: nat, s: nat, e: nat, c: nat, q: nat, g: nat)
    requires lo <= cl <= c && cl + 2 <= s <= e <= |t| && q == c + 2 && g == |m.gap| && q + g <= m.end <= |t|
    requires cl == c ==> (g == 0 && s == q + 1) || (s == q + g && e == m.end)
    requires b.indent == m.indent && b.id == t[lo..cl] && b.gap == t[cl + 2..s] && b.content == t[s..e] && b.end == e
    requires m.id == t[lo..c] && m.gap == t[q..q + g] && m.content == t[q + g..m.end]
    ensures b == m || TriedBefore(b, m)
  {
    if cl < c {
      assert |b.id| < |m.id|;
    } else if s != q + g {
      assert |b.id| == |m.id| && |b.gap| > |m.gap|;
    } else {
      assert b.id == m.id && b.gap == m.gap && b.content == m.content && b.end == m.end;
    }
  }

  /** A `]:` after which the body matches bounds the `]:` the scanner keeps. */
  lemma TailFound(t: string, lo: nat, j: nat, c: nat)
    requires j == lo + 1 && j <= c && ColonCloseAt(t, c) && NoTerminatorIn(t, lo, c) && BodyAt(t, c + 2).Some?
    ensures DefTail(t, lo, j).Some? && DefTail(t, lo, j).value.close <= c
  {
    assert !ClosesNoBody(t, lo, c);
  }

  /** A body with gap `g` ending at `e` after `q` against the body the
      scanner finds there: the scanner takes the blank whenever it can. */
  lemma BodyCompare(t: string, q: nat, g: nat, e: nat)
    requires q + g < e <= |t| && g <= 1 && (g == 1 ==> t[q] == ' ' || t[q] == '\t')
    requires Lookahead(t, e) && forall x :: q + g < x < e ==> !Lookahead(t, x)
    ensures BodyAt(t, q).Some?
    ensures var bd := BodyAt(t, q).value;
      (g == 0 && bd.start == q + 1) || (bd.start == q + g && bd.end == e)
  {
    BodyAtChoice(t, q);
    if g == 1 {
      assert q + 2 <= e;
    }
  }

  /** What a match at `p` spells, piece by piece: its id runs from `lo` to
      the `]:` at `c`, its gap and content follow `q`. */
  lemma MatchFields(t: string, p: nat, m: DefMatch) returns (k: nat, lo: nat, c: nat, q: nat, g: nat)
    requires SpellsMatch(t, p, m)
    ensures k == m.indent == SpaceRun(t, p) && lo == p + k + 2 && c == lo + |m.id| && q == c + 2 && g == |m.gap|
    ensures p + k + 3 <= c && q + g + 1 <= m.end && g <= 1 && (g == 1 ==> t[q] == ' ' || t[q] == '\t')
    ensures t[p + k] == '[' && t[p + k + 1] == '^' && ColonCloseAt(t, c)
    ensures NoTerminatorIn(t, lo, c) && m.id == t[lo..c]
    ensures m.gap == t[q..q + g] && m.content == t[q + g..m.end] && m.end - |m.content| == q + g
  {
    k, g := m.indent, |m.gap|;
    lo := p + k + 2;
    c := lo + |m.id|;
    q := c + 2;
    MatchSlices(t, p, m);
    assert t[p + k] == t[p + k..lo][0];
    assert t[p + k + 1] == t[p + k..lo][1];
    assert t[c] == t[c..q][0] && t[c + 1] == t[c..q][1];
    if g == 1 {
      assert t[q] == m.gap[0];
    }
    forall x | lo <= x < c ensures !IsLineTerminator(t[x]) {
      assert t[x] == m.id[x - lo];
    }
    SpaceRunIs(t, p, k);
  }

  /** The text of a match at `p`, cut into its pieces. */
  lemma MatchSlices(t: string, p: nat, m: DefMatch)
    requires SpellsMatch(t, p, m)
    ensures var k, lo := m.indent, p + m.indent + 2;
      var c := lo + |m.id|;
      var q := c + 2;
      && q + |m.gap| + |m.content| == m.end
      && t[p..p + k] == Spaces(k) && t[p + k..lo] == "[^" && m.id == t[lo..c] && t[c..q] == "]:"
      && m.gap == t[q..q + |m.gap|] && m.content == t[q + |m.gap|..m.end]
  {
    var k, g := m.indent, |m.gap|;
    var lo := p + k + 2;
    var c := lo + |m.id|;
    var q := c + 2;
    var sp := Spaces(k);
    var x4 := sp + "[^" + m.id + "]:";
    var x3 := sp + "[^" + m.id;
    var x2 := sp + "[^";
    SliceEq(t, p, m.end, x4 + m.gap, m.content);
    SliceEq(t, p, q + g, x4, m.gap);
    SliceEq(t, p, q, x3, "]:");
    SliceEq(t, p, c, x2, m.id);
    SliceEq(t, p, lo, sp, "[^");
  }

  lemma SliceEq(t: string, lo: nat, hi: nat, a: string, b: string)
    requires lo <= hi <= |t| && t[lo..hi] == a + b
    ensures lo + |a| <= hi && t[lo..lo + |a|] == a && t[lo + |a|..hi] == b
  {
    assert t[lo..lo + |a|] == t[lo..hi][..|a|];
    assert t[lo + |a|..hi] == t[lo..hi][|a|..];
  }

  lemma {:induction false} SpaceRunIs(t: string, p: nat, k: nat)
    requires p + k < |t| && t[p + k] != ' ' && t[p..p + k] == Spaces(k)
    ensures SpaceRun(t, p) == k
    decreases k
  {
    if k > 0 {
      assert t[p] == t[p..p + k][0];
      assert t[p + 1..p + k] == t[p..p + k][1..];
      SpaceRunIs(t, p + 1, k - 1);
    }
  }

  /** The match assembled from the pieces the scanner found: the indent,
      the id up to the `]:` at `tl.close`, the gap and the content. */
  function MatchOf(t: string, p: nat, k: nat, tl: Tail): DefMatch
    requires p + k + 2 <= tl.close && tl.close + 2 <= tl.body.start <= tl.body.end <= |t|
  {
    var c, cs, e := tl.close, tl.body.start, tl.body.end;
    DefMatch(k, t[p + k + 2..c], t[c + 2..cs], t[cs..e], e)
  }

  /** The pieces the scanner found form a match of the definition pattern. */
  lemma BuildMatch(t: string, p: nat, k: nat, tl: Tail)
    requires p <= |t| && LineStartAt(t, p) && k == SpaceRun(t, p) && k <= 3
    requires p + k + 3 <= |t| && t[p + k] == '[' && t[p + k + 1] == '^'
    requires DefTail(t, p + k + 2, p + k + 3) == Some(tl)
    ensures p < tl.body.end && IsDefMatch(t, p, MatchOf(t, p, k, tl))
  {
    MatchOfFields(t, p, k, tl);
    MatchOfText(t, p, k, tl);
  }

  /** What the pieces spell, apart from the lookahead. */
  lemma MatchOfText(t: string, p: nat, k: nat, tl: Tail)
    requires p <= |t| && k == SpaceRun(t, p) && p + k + 3 <= tl.close && ColonCloseAt(t, tl.close)
    requires tl.close + 2 <= tl.body.start <= tl.close + 3 && tl.body.start < tl.body.end <= |t|
    requires tl.body.start == tl.close + 3 ==> t[tl.close + 2] == ' ' || t[tl.close + 2] == '\t'
    requires t[p + k] == '[' && t[p + k + 1] == '^' && NoTerminatorIn(t, p + k + 2, tl.close)
    ensures var m := MatchOf(t, p, k, tl);
      t[p..m.end] == Spaces(k) + "[^" + m.id + "]:" + m.gap + m.content
  {
    MatchOfFields(t, p, k, tl);
    MatchText(t, p, k, tl.close, tl.body.start, tl.body.end);
  }

  /** The id, gap and content the scanner found have the pattern's shape. */
  lemma MatchOfFields(t: string, p: nat, k: nat, tl: Tail)
    requires p + k + 3 <= tl.close && ColonCloseAt(t, tl.close)
    requires tl.close + 2 <= tl.body.start <= tl.close + 3 && tl.body.start < tl.body.end <= |t|
    requires tl.body.start == tl.close + 3 ==> t[tl.close + 2] == ' ' || t[tl.close + 2] == '\t'
    requires NoTerminatorIn(t, p + k + 2, tl.close)
    ensures var m := MatchOf(t, p, k, tl);
      && |m.id| >= 1 && |m.content| >= 1 && (m.gap == [] || m.gap == " " || m.gap == "\t")
      && (forall i :: 0 <= i < |m.id| ==> !IsLineTerminator(m.id[i]))
  {
    var c, cs := tl.close, tl.body.start;
    assert cs == c + 3 ==> t[c + 2..cs] == [t[c + 2]];
  }

  lemma MatchText(t: string, p: nat, k: nat, c: nat, cs: nat, e: nat)
    requires p + k + 3 <= c && c + 2 <= cs <= e <= |t| && k == SpaceRun(t, p)
    requires t[p + k] == '[' && t[p + k + 1] == '^' && ColonCloseAt(t, c)
    ensures t[p..e] == Spaces(k) + "[^" + t[p + k + 2..c] + "]:" + t[c + 2..cs] + t[cs..e]
  {
    SliceChain(t, p, p + k, p + k + 2, c, c + 2, cs, e);
    SpacePrefix(t, p, k);
    assert t[p + k..p + k + 2] == "[^" by { assert t[p + k..p + k + 2] == [t[p + k], t[p + k + 1]]; }
    assert t[c..c + 2] == "]:" by { assert t[c..c + 2] == [t[c], t[c + 1]]; }
    Reassociate(Spaces(k), "[^", t[p + k + 2..c], "]:", t[c + 2..cs], t[cs..e]);
  }

  lemma SpacePrefix(t: string, p: nat, k: nat)
    requires p <= |t| && k == SpaceRun(t, p)
    ensures t[p..p + k] == Spaces(k)
  {
    forall j | 0 <= j < k ensures t[p..p + k][j] == Spaces(k)[j] {
      assert SpaceAt(t, p + j);
    }
  }

  lemma SliceChain(t: string, x0: nat, x1: nat, x2: nat, x3: nat, x4: nat, x5: nat, e: nat)
    requires x0 <= x1 <= x2 <= x3 <= x4 <= x5 <= e <= |t|
    ensures t[x0..e] == t[x0..x1] + (t[x1..x2] + (t[x2..x3] + (t[x3..x4] + (t[x4..x5] + t[x5..e]))))
  {
    SliceSplit(t, x4, x5, e);
    SliceSplit(t, x3, x4, e);
    SliceSplit(t, x2, x3, e);
    SliceSplit(t, x1, x2, e);
    SliceSplit(t, x0, x1, e);
  }

  lemma Reassociate(a: string, b: string, c: string, d: string, e: string, f: string)
    ensures a + (b + (c + (d + (e + f)))) == a + b + c + d + e + f
  {
  }

  lemma SliceSplit(t: string, a: nat, b: nat, c: nat)
    requires a <= b <= c <= |t|
    ensures t[a..c] == t[a..b] + t[b..c]
  {
  }

  /** A piece of the text after the definition scan: text kept as it is, or a
      cut-out definition with its raw id, its content and the whole match. */
  datatype DefPiece = Plain(text: string) | Def(id: string, content: string, whole: string)

  /** What the pieces spell when every definition is put back as its match. */
  function DefOriginal(ps: seq<DefPiece>): string {
    if ps == [] then []
    else (match ps[0] case Plain(s) => s case Def(_, _, w) => w) + DefOriginal(ps[1..])
  }

  lemma {:induction false} DefOriginalAppend(a: seq<DefPiece>, b: seq<DefPiece>)
    ensures DefOriginal(a + b) == DefOriginal(a) + DefOriginal(b)
  {
    if a == [] {
      assert a + b == b;
    } else {
      assert (a + b)[1..] == a[1..] + b;
      DefOriginalAppend(a[1..], b);
    }
  }

  lemma DefOriginalPair(a: string, id: string, content: string, w: string)
    ensures DefOriginal([Plain(a), Def(id, content, w)]) == a + w
  {
    var ps := [Plain(a), Def(id, content, w)];
    var last := [Def(id, content, w)];
    assert ps[1..] == last;
    assert last[1..] == [];
    assert DefOriginal(last) == w + DefOriginal([]);
    assert DefOriginal(ps) == a + DefOriginal(last);
  }

  lemma ScanDefsStep(t: string, start: nat, p: nat, e: nat, id: string, content: string, rest: seq<DefPiece>)
    requires start <= p <= e <= |t| && DefOriginal(rest) == t[e..]
    ensures DefOriginal([Plain(t[start..p]), Def(id, content, t[p..e])] + rest) == t[start..]
  {
    var head := [Plain(t[start..p]), Def(id, content, t[p..e])];
    DefOriginalPair(t[start..p], id, content, t[p..e]);
    DefOriginalAppend(head, rest);
    SliceSplit(t, start, p, |t|);
    SliceSplit(t, p, e, |t|);
  }

  /** The definition pattern tried at every position of `t`, from `0` to
      `|t|`: the global replace consults this table as it moves along. */
  function DefMatches(t: string): (r: seq<Option<DefMatch>>)
    ensures |r| == |t| + 1
    ensures forall y :: 0 <= y <= |t| ==> r[y] == DefMatchAt(t, y)
  {
    seq(|t| + 1, y requires 0 <= y <= |t| => DefMatchAt(t, y))
  }

  /** A table of matches over `t`: every match ends after its position and
      within the text. */
  predicate MatchTable(t: string, ms: seq<Option<DefMatch>>) {
    |ms| == |t| + 1 && forall y :: 0 <= y < |ms| && ms[y].Some? ==> y < ms[y].value.end <= |t|
  }

  lemma DefMatchesTable(t: string)
    ensures MatchTable(t, DefMatches(t))
  {
    var ms := DefMatches(t);
    forall y | 0 <= y < |ms| && ms[y].Some? ensures y < ms[y].value.end <= |t| {
      assert ms[y] == DefMatchAt(t, y);
    }
  }

  /** No match of the definition pattern starts in `[a, b)`. */
  predicate NoDefIn(ms: seq<Option<DefMatch>>, a: nat, b: nat)
    requires a <= b <= |ms|
  {
    forall y :: a <= y < b ==> ms[y].None?
  }

  /** The search of the global replace: the first position at or after `p`
      where the definition pattern matches. */
  function NextDef(ms: seq<Option<DefMatch>>, p: nat): (r: Option<nat>)
    requires p <= |ms|
    ensures r.Some? ==> p <= r.value < |ms| && ms[r.value].Some? && NoDefIn(ms, p, r.value)
    ensures r.None? ==> NoDefIn(ms, p, |ms|)
    decreases |ms| - p
  {
    if p == |ms| then None
    else if ms[p].Some? then Some(p)
    else NextDef(ms, p + 1)
  }

  /** The global replace with the definition pattern over the text from
      `start`, given the table `ms` of its matches: the pieces spell that
      text with every match put back, and they are exactly the matches the
      global replace finds, left to right. */
  function ScanDefsFrom(t: string, ms: seq<Option<DefMatch>>, start: nat): (r: seq<DefPiece>)
    requires start <= |t| && MatchTable(t, ms)
    ensures DefOriginal(r) == t[start..]
    ensures DefScanned(t, ms, start, r)
    decreases |t| - start
  {
    match NextDef(ms, start)
    case None =>
      assert DefOriginal([Plain(t[start..])]) == t[start..] + DefOriginal([]);
      ScanDefsEnd(t, ms, start);
      [Plain(t[start..])]
    case Some(p) =>
      var m := ms[p].value;
      var rest := ScanDefsFrom(t, ms, m.end);
      ScanDefsStep(t, start, p, m.end, m.id, m.content, rest);
      ScanDefsMatched(t, ms, start, p, rest);
      [Plain(t[start..p]), Def(m.id, m.content, t[p..m.end])] + rest
  }

  /** The pieces `ps`, laid over `t` from offset `o`, are what the global
      replace makes of it, given the table `ms` of matches: each `Def` is
      the match found at its offset, and no match is found at any offset
      inside a `Plain`. */
  predicate DefScanned(t: string, ms: seq<Option<DefMatch>>, o: nat, ps: seq<DefPiece>)
    requires o <= |t| && |ms| == |t| + 1
    decreases |ps|
  {
    if ps == [] then o == |t|
    else
      match ps[0]
      case Plain(x) =>
        && o + |x| <= |t| && t[o..o + |x|] == x
        && NoDefIn(ms, o, o + |x|)
        && DefScanned(t, ms, o + |x|, ps[1..])
      case Def(id, content, whole) =>
        && ms[o].Some?
        && var m := ms[o].value;
           && id == m.id && content == m.content && o <= m.end <= |t| && whole == t[o..m.end]
           && DefScanned(t, ms, m.end, ps[1..])
  }

  /** The end of the scan: the rest of the text is one piece. */
  lemma ScanDefsEnd(t: string, ms: seq<Option<DefMatch>>, start: nat)
    requires start <= |t| && |ms| == |t| + 1 && NoDefIn(ms, start, |ms|)
    ensures DefScanned(t, ms, start, [Plain(t[start..])])
  {
    var ps := [Plain(t[start..])];
    assert ps[0] == Plain(t[start..]) && ps[1..] == [];
  }

  /** One step of the scan that finds a match at `p`. */
  lemma ScanDefsMatched(t: string, ms: seq<Option<DefMatch>>, start: nat, p: nat, rest: seq<DefPiece>)
    requires start <= p < |t| && MatchTable(t, ms) && ms[p].Some? && NoDefIn(ms, start, p)
    requires DefScanned(t, ms, ms[p].value.end, rest)
    ensures var m := ms[p].value;
      DefScanned(t, ms, start, [Plain(t[start..p]), Def(m.id, m.content, t[p..m.end])] + rest)
  {
    var m := ms[p].value;
    var tail := [Def(m.id, m.content, t[p..m.end])] + rest;
    assert tail[0] == Def(m.id, m.content, t[p..m.end]) && tail[1..] == rest;
    var ps := [Plain(t[start..p])] + tail;
    assert ps[0] == Plain(t[start..p]) && ps[1..] == tail;
    assert [Plain(t[start..p]), Def(m.id, m.content, t[p..m.end])] + rest == ps;
  }

  /** The definition scan of a whole text: cutting definitions out loses
      nothing, and the pieces are exactly the matches the global replace
      finds, left to right: every `Def` is what `DefMatchAt` finds at its
      offset, and `DefMatchAt` finds nothing inside a `Plain`. */
  function DefPieces(t: string): (r: seq<DefPiece>)
    ensures DefOriginal(r) == t
    ensures DefScanned(t, DefMatches(t), 0, r)
  {
    DefMatchesTable(t);
    ScanDefsFrom(t, DefMatches(t), 0)
  }

  /** A text with no `[^` holds no definition. */
  lemma ScanDefsNoCaret(t: string)
    requires !Contains(t, "[^")
    ensures DefPieces(t) == [Plain(t)]
  {
    var ms := DefMatches(t);
    forall y | 0 <= y < |ms| ensures ms[y].None? {
      NoCaretNoMatch(t, y);
    }
    DefMatchesTable(t);
    NextDefNone(ms, 0);
    assert t[0..] == t;
  }

  lemma {:induction false} NextDefNone(ms: seq<Option<DefMatch>>, p: nat)
    requires p <= |ms| && forall y :: p <= y < |ms| ==> ms[y].None?
    ensures NextDef(ms, p).None?
    decreases |ms| - p
  {
    if p < |ms| {
      NextDefNone(ms, p + 1);
    }
  }

  lemma NoCaretNoMatch(t: string, p: nat)
    requires p <= |t| && !Contains(t, "[^")
    ensures DefMatchAt(t, p).None?
  {
    var k := SpaceRun(t, p);
    assert !OccursAt(t, "[^", p + k);
    if p + k + 2 <= |t| {
      assert t[p + k..p + k + 2] == [t[p + k], t[p + k + 1]];
    }
  }

  // ---------------------------------------------------------------------------
  // Markers

  /** The lazy `(.+?)]` of a marker: the first `]` at or after `j` with the id
      `s[lo..]` before it on one line. */
  function NextBracket(s: string, lo: nat, j: nat): (r: Option<nat>)
    requires lo < j <= |s| && NoTerminatorIn(s, lo, j - 1)
    ensures r.Some? ==> j <= r.value < |s| && s[r.value] == ']' && NoTerminatorIn(s, lo, r.value)
    ensures r.Some? ==> forall c :: j <= c < r.value ==> !BracketAt(s, c)
    ensures r.None? ==> forall c :: j <= c ==> !ClosesMarkerId(s, lo, c)
    decreases |s| - j
  {
    if IsLineTerminator(s[j - 1]) then None
    else if j < |s| && s[j] == ']' then Some(j)
    else if j == |s| then None
    else NextBracket(s, lo, j + 1)
  }

  /** A `]` at `c`. */
  predicate BracketAt(s: string, c: nat) {
    c < |s| && s[c] == ']'
  }

  /** A `]` at `c` closes a one-line id that starts at `lo`. */
  predicate ClosesMarkerId(s: string, lo: nat, c: nat) {
    lo <= c < |s| && s[c] == ']' && NoTerminatorIn(s, lo, c)
  }

  /** `[^`, a one-line id of at least one character, and `]` at `c`. */
  predicate IsMarker(s: string, i: nat, c: nat) {
    i + 3 <= c && i + 2 <= |s| && s[i] == '[' && s[i + 1] == '^' && ClosesMarkerId(s, i + 2, c)
  }

  /** The marker pattern tried at `i`: the index of its closing `]`, which is
      the first `]` after the id's first character; `None` exactly when no
      marker starts at `i`. */
  function MarkerAt(s: string, i: nat): (r: Option<nat>)
    requires i <= |s|
    ensures r.Some? ==> IsMarker(s, i, r.value)
    ensures r.Some? ==> forall c :: i + 3 <= c < r.value ==> !BracketAt(s, c)
    ensures r.None? ==> forall c :: !IsMarker(s, i, c)
  {
    if i + 3 <= |s| && s[i] == '[' && s[i + 1] == '^' then NextBracket(s, i + 2, i + 3) else None
  }

  /** A marker whose id holds no `]` after its first character is the one
      the pattern finds at `i`. */
  lemma MarkerAtFirst(s: string, i: nat, c: nat)
    requires i <= |s| && IsMarker(s, i, c)
    requires forall x :: i + 3 <= x < c ==> s[x] != ']'
    ensures MarkerAt(s, i) == Some(c)
  {
    var v := MarkerAt(s, i).value;
    if v < c {
      assert false;
    } else if v > c {
      assert BracketAt(s, c);
    }
  }

  /** A piece of text after the marker scan: text, or a marker with its raw id. */
  datatype MarkPiece = Chunk(text: string) | Cite(id: string)

  function MarkOriginal(ps: seq<MarkPiece>): string {
    if ps == [] then []
    else (match ps[0] case Chunk(s) => s case Cite(id) => "[^" + id + "]") + MarkOriginal(ps[1..])
  }

  lemma {:induction false} MarkOriginalAppend(a: seq<MarkPiece>, b: seq<MarkPiece>)
    ensures MarkOriginal(a + b) == MarkOriginal(a) + MarkOriginal(b)
  {
    if a == [] {
      assert a + b == b;
    } else {
      assert (a + b)[1..] == a[1..] + b;
      MarkOriginalAppend(a[1..], b);
    }
  }

  lemma MarkOriginalPair(a: string, id: string)
    ensures MarkOriginal([Chunk(a), Cite(id)]) == a + ("[^" + id + "]")
  {
    var ps := [Chunk(a), Cite(id)];
    var last := [Cite(id)];
    assert ps[1..] == last;
    assert last[1..] == [];
    assert MarkOriginal(last) == "[^" + id + "]" + MarkOriginal([]);
  }

  /** A marker found at `i` and closed at `j`, between the text before it and the rest. */
  lemma ScanMarksStep(s: string, start: nat, i: nat, j: nat, rest: seq<MarkPiece>)
    requires start <= i && i + 3 <= j < |s| && s[i] == '[' && s[i + 1] == '^' && s[j] == ']'
    requires MarkOriginal(rest) == s[j + 1..]
    ensures MarkOriginal([Chunk(s[start..i]), Cite(s[i + 2..j])] + rest) == s[start..]
  {
    var head := [Chunk(s[start..i]), Cite(s[i + 2..j])];
    MarkOriginalPair(s[start..i], s[i + 2..j]);
    MarkOriginalAppend(head, rest);
    MarkerSlice(s, i, j);
    SliceSplit(s, start, i, |s|);
    SliceSplit(s, i, j + 1, |s|);
  }

  lemma MarkerSlice(s: string, i: nat, j: nat)
    requires i + 3 <= j < |s| && s[i] == '[' && s[i + 1] == '^' && s[j] == ']'
    ensures s[i..j + 1] == "[^" + s[i + 2..j] + "]"
  {
    assert s[i..i + 2] == "[^" by { assert s[i..i + 2] == [s[i], s[i + 1]]; }
    assert s[j..j + 1] == "]";
    SliceSplit(s, i, i + 2, j + 1);
    SliceSplit(s, i + 2, j, j + 1);
  }

  /** The marker pattern tried at every position of `s`, from `0` to `|s|`:
      the global replace consults this table as it moves along. */
  function MarkerAts(s: string): (r: seq<Option<nat>>)
    ensures |r| == |s| + 1
    ensures forall y :: 0 <= y <= |s| ==> r[y] == MarkerAt(s, y)
  {
    seq(|s| + 1, y requires 0 <= y <= |s| => MarkerAt(s, y))
  }

  /** A table of markers over `s`: a marker at `y` is `[^`, an id of at
      least one character and its closing `]`. */
  predicate MarkerTable(s: string, ms: seq<Option<nat>>) {
    && |ms| == |s| + 1
    && forall y :: 0 <= y < |ms| && ms[y].Some? ==> y + 3 <= ms[y].value < |s| && s[y] == '[' && s[y + 1] == '^' && s[ms[y].value] == ']'
  }

  lemma MarkerAtsTable(s: string)
    ensures MarkerTable(s, MarkerAts(s))
  {
    var ms := MarkerAts(s);
    forall y | 0 <= y < |ms| && ms[y].Some?
      ensures y + 3 <= ms[y].value < |s| && s[y] == '[' && s[y + 1] == '^' && s[ms[y].value] == ']'
    {
      assert ms[y] == MarkerAt(s, y);
    }
  }

  /** No marker starts in `[a, b)`. */
  predicate NoMarkerIn(ms: seq<Option<nat>>, a: nat, b: nat)
    requires a <= b <= |ms|
  {
    forall y :: a <= y < b ==> ms[y].None?
  }

  /** The search of the global replace: the first position at or after `i`
      where a marker starts. */
  function NextMarker(ms: seq<Option<nat>>, i: nat): (r: Option<nat>)
    requires i <= |ms|
    ensures r.Some? ==> i <= r.value < |ms| && ms[r.value].Some? && NoMarkerIn(ms, i, r.value)
    ensures r.None? ==> NoMarkerIn(ms, i, |ms|)
    decreases |ms| - i
  {
    if i == |ms| then None
    else if ms[i].Some? then Some(i)
    else NextMarker(ms, i + 1)
  }

  /** The global replace with the marker pattern over the text from `start`,
      given the table `ms` of its markers: the chunks and the markers spell
      that text, and the markers are exactly the ones the global replace
      finds, left to right. */
  function ScanMarksFrom(s: string, ms: seq<Option<nat>>, start: nat): (r: seq<MarkPiece>)
    requires start <= |s| && MarkerTable(s, ms)
    ensures MarkOriginal(r) == s[start..]
    ensures MarkScanned(s, ms, start, r)
    decreases |s| - start
  {
    match NextMarker(ms, start)
    case None =>
      assert MarkOriginal([Chunk(s[start..])]) == s[start..] + MarkOriginal([]);
      ScanMarksEnd(s, ms, start);
      [Chunk(s[start..])]
    case Some(i) =>
      var j := ms[i].value;
      var rest := ScanMarksFrom(s, ms, j + 1);
      ScanMarksStep(s, start, i, j, rest);
      ScanMarksFound(s, ms, start, i, j, rest);
      [Chunk(s[start..i]), Cite(s[i + 2..j])] + rest
  }

  /** The pieces `ps`, laid over `s` from offset `o`, are what the global
      replace makes of it, given the table `ms` of markers: each `Cite` is
      the marker found at its offset, and no marker is found at any offset
      inside a `Chunk`. */
  predicate MarkScanned(s: string, ms: seq<Option<nat>>, o: nat, ps: seq<MarkPiece>)
    requires o <= |s| && |ms| == |s| + 1
    decreases |ps|
  {
    if ps == [] then o == |s|
    else
      match ps[0]
      case Chunk(x) =>
        && o + |x| <= |s| && s[o..o + |x|] == x
        && NoMarkerIn(ms, o, o + |x|)
        && MarkScanned(s, ms, o + |x|, ps[1..])
      case Cite(id) =>
        && ms[o].Some?
        && var j := ms[o].value;
           o + 2 <= j < |s| && id == s[o + 2..j] && MarkScanned(s, ms, j + 1, ps[1..])
  }

  /** The end of the scan: the rest of the text is one chunk. */
  lemma ScanMarksEnd(s: string, ms: seq<Option<nat>>, start: nat)
    requires start <= |s| && |ms| == |s| + 1 && NoMarkerIn(ms, start, |ms|)
    ensures MarkScanned(s, ms, start, [Chunk(s[start..])])
  {
    var ps := [Chunk(s[start..])];
    assert ps[0] == Chunk(s[start..]) && ps[1..] == [];
  }

  /** One step of the scan that finds a marker at `i`. */
  lemma ScanMarksFound(s: string, ms: seq<Option<nat>>, start: nat, i: nat, j: nat, rest: seq<MarkPiece>)
    requires start <= i && i + 3 <= j < |s| && |ms| == |s| + 1 && ms[i] == Some(j) && NoMarkerIn(ms, start, i)
    requires MarkScanned(s, ms, j + 1, rest)
    ensures MarkScanned(s, ms, start, [Chunk(s[start..i]), Cite(s[i + 2..j])] + rest)
  {
    var tail := [Cite(s[i + 2..j])] + rest;
    assert tail[0] == Cite(s[i + 2..j]) && tail[1..] == rest;
    var ps := [Chunk(s[start..i])] + tail;
    assert ps[0] == Chunk(s[start..i]) && ps[1..] == tail;
    assert [Chunk(s[start..i]), Cite(s[i + 2..j])] + rest == ps;
  }

  /** The marker scan of one stretch of text: replacing markers loses
      nothing, and the pieces are exactly the markers the global replace
      finds, left to right: every `Cite` is what `MarkerAt` finds at its
      offset, and `MarkerAt` finds nothing inside a `Chunk`. */
  function MarkPieces(s: string): (r: seq<MarkPiece>)
    ensures MarkOriginal(r) == s
    ensures MarkScanned(s, MarkerAts(s), 0, r)
  {
    MarkerAtsTable(s);
    ScanMarksFrom(s, MarkerAts(s), 0)
  }

  /** A text with no `[^` holds no marker. */
  lemma ScanMarksNoCaret(s: string)
    requires !Contains(s, "[^")
    ensures MarkPieces(s) == [Chunk(s)]
  {
    var ms := MarkerAts(s);
    forall y | 0 <= y < |ms| ensures ms[y].None? {
      NoCaretNoMarker(s, y);
    }
    MarkerAtsTable(s);
    NextMarkerNone(ms, 0);
    assert s[0..] == s;
  }

  lemma NoCaretNoMarker(s: string, i: nat)
    requires i <= |s| && !Contains(s, "[^")
    ensures MarkerAt(s, i).None?
  {
    if i + 2 <= |s| {
      assert !OccursAt(s, "[^", i);
      assert s[i..i + 2] == [s[i], s[i + 1]];
    }
  }

  lemma {:induction false} NextMarkerNone(ms: seq<Option<nat>>, i: nat)
    requires i <= |ms| && forall y :: i <= y < |ms| ==> ms[y].None?
    ensures NextMarker(ms, i).None?
    decreases |ms| - i
  {
    if i < |ms| {
      NextMarkerNone(ms, i + 1);
    }
  }
}
