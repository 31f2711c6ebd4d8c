/**
 * `QueryFactory.parseQuery(line, flag)`: a query line becomes its set of
 * unique stems; the stems, sorted and joined with single spaces, form the
 * canonical key of the query map. A blank key or one already present leaves
 * the map alone; otherwise the key maps to the search results for the stems.
 * Stemming is a parameter.
 */
module Queries {
  import opened Strings
  import opened Ordered
  import opened InvertedIndex
  import opened Search

  /** The query map: canonical key -> results, iterated in key order. */
  type QueryMap = map<string, seq<QueryResult>>

  /** `String.join(" ", uniqueStems)` over the sorted stem set. */
  function CanonicalKey(stems: set<string>): string
  {
    Join(" ", SortedKeys(stems))
  }

  /** No stems give the empty key, and a single stem is its own key. */
  lemma KeyOfFewStems(stems: set<string>)
    ensures stems == {} ==> CanonicalKey(stems) == ""
    ensures |stems| == 1 ==> CanonicalKey(stems) in stems
  {
    var ks := SortedKeys(stems);
    if |ks| == 1 {
      assert ks[0] in stems;
    }
  }

  /** A stem as the stemmer produces it: a nonempty token without
      whitespace. */
  predicate PlainStem(w: string)
  {
    |w| > 0 && forall i :: 0 <= i < |w| ==> !IsWhitespace(w[i])
  }

  lemma PlainStemNoSpace(w: string)
    requires PlainStem(w)
    ensures ' ' !in w
  {
    assert IsWhitespace(' ');
    assert forall i :: 0 <= i < |w| ==> w[i] != ' ';
  }

  lemma {:induction false} JoinNonEmpty(parts: seq<string>)
    requires |parts| > 0 && |parts[0]| > 0
    ensures |Join(" ", parts)| > 0
  {
    if |parts| > 1 {
      assert Join(" ", parts) == parts[0] + " " + Join(" ", parts[1..]);
    }
  }

  /** The key can be split back into the sorted stems when no stem holds a
      space. */
  lemma KeySplits(stems: set<string>)
    requires |stems| > 0 && forall w :: w in stems ==> ' ' !in w
    ensures Split(CanonicalKey(stems), ' ') == SortedKeys(stems)
  {
    assert " " == [' '];
    SplitJoin(SortedKeys(stems), ' ');
  }

  lemma PlainStemsNoSpace(stems: set<string>)
    requires forall w :: w in stems ==> PlainStem(w)
    ensures forall w :: w in stems ==> ' ' !in w
  {
    forall w | w in stems
      ensures ' ' !in w
    {
      PlainStemNoSpace(w);
    }
  }

  /** Two sets of plain stems share a key only if they are the same set: the
      key identifies the query. */
  lemma KeyInjective(a: set<string>, b: set<string>)
    requires forall w :: w in a ==> PlainStem(w)
    requires forall w :: w in b ==> PlainStem(w)
    requires CanonicalKey(a) == CanonicalKey(b)
    ensures a == b
  {
    if |a| > 0 {
      assert SortedKeys(a)[0] in a;
      JoinNonEmpty(SortedKeys(a));
    }
    if |b| > 0 {
      assert SortedKeys(b)[0] in b;
      JoinNonEmpty(SortedKeys(b));
    }
    if |a| > 0 && |b| > 0 {
      PlainStemsNoSpace(a);
      PlainStemsNoSpace(b);
      KeySplits(a);
      KeySplits(b);
      assert SortedKeys(a) == SortedKeys(b);
      forall w
        ensures w in a <==> w in b
      {
        assert w in a <==> w in SortedKeys(a);
        assert w in b <==> w in SortedKeys(b);
      }
    }
  }

  /** `index.search(queries, flag)` of the factory's index, as a value. */
  type Searcher = (seq<string>, bool) -> seq<QueryResult>

  /** `parseQuery(line, flag)`, with `uniqueStems` standing for the stemmer
      and `search` for the search of the factory's index. */
  function ParseQuery(qm: QueryMap, line: string, exact: bool,
                      uniqueStems: string -> set<string>, search: Searcher): (r: QueryMap)
    ensures IsBlank(CanonicalKey(uniqueStems(line))) || CanonicalKey(uniqueStems(line)) in qm ==> r == qm
    ensures !IsBlank(CanonicalKey(uniqueStems(line))) && CanonicalKey(uniqueStems(line)) !in qm ==>
      r.Keys == qm.Keys + {CanonicalKey(uniqueStems(line))} &&
      r[CanonicalKey(uniqueStems(line))] == search(SortedKeys(uniqueStems(line)), exact)
    ensures r - {CanonicalKey(uniqueStems(line))} == qm - {CanonicalKey(uniqueStems(line))}
  {
    var stems := uniqueStems(line);
    var key := CanonicalKey(stems);
    if key !in qm && !IsBlank(key) then qm[key := search(SortedKeys(stems), exact)] else qm
  }

  /** With the index's own search, a new, non-blank key is bound to the
      sorted results for the sorted stems, exact or partial as the flag says. */
  lemma ParseQueryStoresResults(qm: QueryMap, idx: Index, line: string, exact: bool,
                                uniqueStems: string -> set<string>)
    requires Covered(idx)
    requires !IsBlank(CanonicalKey(uniqueStems(line))) && CanonicalKey(uniqueStems(line)) !in qm
    ensures ParseQuery(qm, line, exact, uniqueStems, (qs, e) => SearchIndex(idx, qs, e))[CanonicalKey(uniqueStems(line))]
      == SearchIndex(idx, SortedKeys(uniqueStems(line)), exact)
  {
  }

  /** Repeating a line changes nothing. */
  lemma ParseQueryIdempotent(qm: QueryMap, line: string, exact: bool,
                             uniqueStems: string -> set<string>, search: Searcher)
    ensures var once := ParseQuery(qm, line, exact, uniqueStems, search);
      ParseQuery(once, line, exact, uniqueStems, search) == once
  {
  }

  /** A later line with the same stems, in whatever order or repetition, is
      skipped: the first insertion wins, even when the flag differs. */
  lemma FirstInsertionWins(qm: QueryMap, first: string, later: string, exact: bool,
                           laterExact: bool, uniqueStems: string -> set<string>, search: Searcher)
    requires uniqueStems(first) == uniqueStems(later)
    ensures var once := ParseQuery(qm, first, exact, uniqueStems, search);
      ParseQuery(once, later, laterExact, uniqueStems, search) == once
  {
  }

  /** A line without stems has the empty key and is skipped. */
  lemma NoStemsSkipped(qm: QueryMap, line: string, exact: bool,
                       uniqueStems: string -> set<string>, search: Searcher)
    requires uniqueStems(line) == {}
    ensures ParseQuery(qm, line, exact, uniqueStems, search) == qm
  {
    assert SortedKeys(uniqueStems(line)) == [];
  }

  /** A line with plain stems whose key is new adds exactly one entry. */
  lemma NewStemsAdded(qm: QueryMap, line: string, exact: bool,
                      uniqueStems: string -> set<string>, search: Searcher)
    requires |uniqueStems(line)| > 0 && forall w :: w in uniqueStems(line) ==> PlainStem(w)
    requires forall k :: k in qm ==> k != CanonicalKey(uniqueStems(line))
    ensures |ParseQuery(qm, line, exact, uniqueStems, search)| == |qm| + 1
  {
    var stems := uniqueStems(line);
    var ks := SortedKeys(stems);
    assert ks[0] in stems;
    var key := CanonicalKey(stems);
    assert !IsBlank(key) by {
      if |ks| == 1 {
        assert key == ks[0];
      } else {
        assert key == ks[0] + " " + Join(" ", ks[1..]);
      }
      assert key[0] == ks[0][0];
      assert !IsWhitespace(ks[0][0]);
    }
  }
}
