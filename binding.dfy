/**
 * The loop that binds markers to definitions (lines 119-133): markers are
 * taken in order; a marker whose id is still registered claims that
 * definition, which is then deleted, and any other marker is an orphan.
 */
module Binding {
  import opened Tokens

  /** An entry of `footnotes` (lines 124-127). */
  datatype Footnote = Footnote(ref: string, content: string)

  /** `footnotes`, `footRefs` and `orphanedRefs` at some point of the loop. */
  datatype Bound = Bound(footnotes: seq<Footnote>, refs: map<string, Definition>, orphans: seq<string>)

  /** One turn of the loop (lines 120-132): the marker goes to exactly one of
      the two lists, and its id is no longer registered. */
  function BindStep(b: Bound, ref: string): (r: Bound)
    ensures |r.footnotes| + |r.orphans| == |b.footnotes| + |b.orphans| + 1
    ensures r.refs.Keys == b.refs.Keys - {ref}
  {
    if ref !in b.refs then Bound(b.footnotes, b.refs, b.orphans + [ref])
    else Bound(b.footnotes + [Footnote(ref, b.refs[ref].content)], b.refs - {ref}, b.orphans)
  }

  /** The state after the loop has run over `markers`, from the table `table`:
      every marker has gone to one of the two lists, and the table has only
      lost entries. */
  function Bind(markers: seq<string>, table: map<string, Definition>): (r: Bound)
    ensures |r.footnotes| + |r.orphans| == |markers|
    ensures r.refs.Keys <= table.Keys
  {
    if markers == [] then Bound([], table, [])
    else BindStep(Bind(markers[..|markers| - 1], table), markers[|markers| - 1])
  }

  function Refs(fs: seq<Footnote>): (r: seq<string>)
    ensures |r| == |fs| && forall i :: 0 <= i < |fs| ==> r[i] == fs[i].ref
  {
    seq(|fs|, i requires 0 <= i < |fs| => fs[i].ref)
  }

  // ---------------------------------------------------------------------------
  // The reference definition: which markers claim a definition

  /** The i-th marker is the first citation of a registered id. */
  predicate Claims(markers: seq<string>, keys: set<string>, i: nat)
    requires i < |markers|
  {
    markers[i] in keys && markers[i] !in markers[..i]
  }

  /** The ids of the claiming markers, in marker order. */
  function Claimed(markers: seq<string>, keys: set<string>): seq<string> {
    if markers == [] then []
    else
      var n := |markers| - 1;
      Claimed(markers[..n], keys) + (if Claims(markers, keys, n) then [markers[n]] else [])
  }

  /** The ids of all other markers, in marker order. */
  function Unclaimed(markers: seq<string>, keys: set<string>): seq<string> {
    if markers == [] then []
    else
      var n := |markers| - 1;
      Unclaimed(markers[..n], keys) + (if Claims(markers, keys, n) then [] else [markers[n]])
  }

  lemma PrefixClaims(markers: seq<string>, keys: set<string>, i: nat)
    requires i < |markers| - 1
    ensures Claims(markers[..|markers| - 1], keys, i) == Claims(markers, keys, i)
  {
    assert markers[..|markers| - 1][..i] == markers[..i];
  }

  /** The loop computes the reference definition: `footnotes` holds the first
      citation of every registered id in marker order, each with its table
      content; `orphanedRefs` holds every other marker; what stays in
      `footRefs` is the table without the cited ids. */
  lemma {:induction false} BindMeaning(markers: seq<string>, table: map<string, Definition>)
    ensures Refs(Bind(markers, table).footnotes) == Claimed(markers, table.Keys)
    ensures Bind(markers, table).orphans == Unclaimed(markers, table.Keys)
    ensures forall r :: r in Bind(markers, table).refs <==> r in table && r !in markers
    ensures forall r :: r in Bind(markers, table).refs ==> Bind(markers, table).refs[r] == table[r]
    ensures forall f :: f in Bind(markers, table).footnotes ==> f.ref in table && f.content == table[f.ref].content
  {
    if markers != [] {
      var n := |markers| - 1;
      var q := markers[..n];
      var last := markers[n];
      BindMeaning(q, table);
      var b := Bind(q, table);
      assert last in b.refs <==> Claims(markers, table.Keys, n) by {
        assert markers[..n] == q;
      }
      assert forall r :: r in markers <==> r in q || r == last by {
        assert markers == q + [last];
      }
      assert Refs(Bind(markers, table).footnotes) == Claimed(markers, table.Keys) by {
        if last in b.refs {
          assert Refs(b.footnotes + [Footnote(last, b.refs[last].content)]) == Refs(b.footnotes) + [last];
        }
      }
    }
  }

  // ---------------------------------------------------------------------------
  // Properties of the reference definition

  /** Every marker goes to exactly one of the two lists: the lengths add up
      and, counted with multiplicity, the two lists hold exactly the markers. */
  lemma {:induction false} ClaimPartition(markers: seq<string>, keys: set<string>)
    ensures |Claimed(markers, keys)| + |Unclaimed(markers, keys)| == |markers|
    ensures multiset(Claimed(markers, keys)) + multiset(Unclaimed(markers, keys)) == multiset(markers)
  {
    if markers != [] {
      var n := |markers| - 1;
      ClaimPartition(markers[..n], keys);
      ClaimLast(markers, keys);
      assert markers == markers[..n] + [markers[n]];
    }
  }

  /** The last marker goes to exactly one of the two lists. */
  lemma ClaimLast(markers: seq<string>, keys: set<string>)
    requires markers != []
    ensures var q, x := markers[..|markers| - 1], markers[|markers| - 1];
      && |Claimed(markers, keys)| + |Unclaimed(markers, keys)| == |Claimed(q, keys)| + |Unclaimed(q, keys)| + 1
      && multiset(Claimed(markers, keys)) + multiset(Unclaimed(markers, keys))
         == multiset(Claimed(q, keys)) + multiset(Unclaimed(q, keys)) + multiset{x}
  {
  }

  /** The claimed ids are among the markers. */
  lemma {:induction false} ClaimedCited(markers: seq<string>, keys: set<string>)
    ensures forall r :: r in Claimed(markers, keys) ==> r in markers && r in keys
  {
    if markers != [] {
      var n := |markers| - 1;
      ClaimedCited(markers[..n], keys);
      assert markers == markers[..n] + [markers[n]];
    }
  }

  /** One-to-one: no id is claimed twice. */
  lemma {:induction false} ClaimedDistinct(markers: seq<string>, keys: set<string>)
    ensures forall i, j :: 0 <= i < j < |Claimed(markers, keys)| ==> Claimed(markers, keys)[i] != Claimed(markers, keys)[j]
  {
    if markers != [] {
      var n := |markers| - 1;
      var q := markers[..n];
      ClaimedDistinct(q, keys);
      ClaimedCited(q, keys);
      var c := Claimed(q, keys);
      if Claims(markers, keys, n) {
        assert Claimed(markers, keys) == c + [markers[n]];
        assert markers[n] !in c;
      }
    }
  }

  /** Exactly the cited registered ids are claimed. */
  lemma {:induction false} ClaimedExactly(markers: seq<string>, keys: set<string>)
    ensures forall r :: r in Claimed(markers, keys) <==> r in markers && r in keys
  {
    if markers != [] {
      var n := |markers| - 1;
      var q := markers[..n];
      ClaimedExactly(q, keys);
      assert markers == q + [markers[n]];
    }
  }

  /** A marker stays an orphan exactly when its id is not registered or is
      cited more than once: a repeated citation finds its definition deleted. */
  lemma {:induction false} UnclaimedExactly(markers: seq<string>, keys: set<string>)
    ensures forall r :: r in Unclaimed(markers, keys) <==> r in markers && (r !in keys || multiset(markers)[r] >= 2)
  {
    if markers != [] {
      var n := |markers| - 1;
      var q := markers[..n];
      UnclaimedExactly(q, keys);
      assert markers == q + [markers[n]];
      assert multiset(markers) == multiset(q) + multiset{markers[n]};
      forall r ensures r in q <==> multiset(q)[r] >= 1 { }
    }
  }

  /** The orphans of a loop whose table was empty are all the markers. */
  lemma {:induction false} NothingClaimed(markers: seq<string>, keys: set<string>)
    requires forall i :: 0 <= i < |markers| ==> markers[i] !in keys
    ensures Claimed(markers, keys) == [] && Unclaimed(markers, keys) == markers
  {
    if markers != [] {
      var n := |markers| - 1;
      NothingClaimed(markers[..n], keys);
      assert markers == markers[..n] + [markers[n]];
    }
  }
}
