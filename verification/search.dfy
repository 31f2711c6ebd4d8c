/**
 * Searching the inverted index (`exactSearch`, `partialSearch`, `helper`,
 * `search`) and the `QueryResult` records they produce. A search visits a
 * sequence of index words; every location of a visited word gets one result,
 * created on first sight, whose match count grows by that word's number of
 * positions there. The results are then sorted with `compareTo`.
 *
 * The score `matches / count[location]` is kept as the pair (matches, total)
 * and compared by cross-multiplication; `Score` gives its exact value.
 */
module Search {
  import opened Strings
  import opened Ordered
  import opened InvertedIndex

  /** One search hit: the location, the number of matching positions there,
      and the location's word count (the score's denominator). */
  datatype QueryResult = QueryResult(location: string, matches: nat, total: nat)

  /** `matches / count[location]` as an exact rational. */
  function Score(r: QueryResult): (s: real)
    requires r.total > 0
    ensures s * r.total as real == r.matches as real
    ensures s >= 0.0
  {
    r.matches as real / r.total as real
  }

  /** `a` scores strictly higher than `b`. */
  predicate ScoreAbove(a: QueryResult, b: QueryResult)
  {
    a.matches * b.total > b.matches * a.total
  }

  /** `a` and `b` score the same. */
  predicate ScoreSame(a: QueryResult, b: QueryResult)
  {
    a.matches * b.total == b.matches * a.total
  }

  /** `a.compareTo(b) < 0`: equal scores and match counts fall back to the
      case-insensitive location order, equal scores alone to the larger match
      count, and otherwise the larger score comes first. */
  predicate Before(a: QueryResult, b: QueryResult)
  {
    if ScoreSame(a, b) && b.matches == a.matches then LessIgnoreCase(a.location, b.location)
    else if ScoreSame(a, b) then b.matches < a.matches
    else ScoreAbove(a, b)
  }

  lemma MulPositive(x: real, y: real, k: real)
    requires k > 0.0
    ensures x < y <==> x * k < y * k
    ensures x == y <==> x * k == y * k
  {
  }

  /** The cross-multiplied comparisons agree with the exact scores. */
  lemma ScoreCompare(a: QueryResult, b: QueryResult)
    requires a.total > 0 && b.total > 0
    ensures ScoreAbove(a, b) <==> Score(a) > Score(b)
    ensures ScoreSame(a, b) <==> Score(a) == Score(b)
  {
    var x, y := Score(a), Score(b);
    var k := a.total as real * b.total as real;
    assert (a.matches * b.total) as real == x * k;
    assert (b.matches * a.total) as real == y * k;
    MulPositive(y, x, k);
    MulPositive(x, y, k);
  }

  /** The order `compareTo` defines, in terms of the scores: higher score
      first, then more matches, then the location ignoring case. */
  lemma BeforeByScore(a: QueryResult, b: QueryResult)
    requires a.total > 0 && b.total > 0
    ensures Before(a, b) <==>
      || Score(a) > Score(b)
      || (Score(a) == Score(b) && a.matches > b.matches)
      || (Score(a) == Score(b) && a.matches == b.matches && LessIgnoreCase(a.location, b.location))
  {
    ScoreCompare(a, b);
  }

  lemma MulLe(x: int, y: int, k: int)
    requires x <= y && k > 0
    ensures x * k <= y * k
  {
  }

  lemma MulLt(x: int, y: int, k: int)
    requires x < y && k > 0
    ensures x * k < y * k
  {
  }

  /** Cross-multiplied fractions with positive denominators compare
      transitively. */
  lemma CrossTransitive(am: int, at: int, bm: int, bt: int, cm: int, ct: int)
    requires at > 0 && bt > 0 && ct > 0
    requires am * bt <= bm * at && bm * ct <= cm * bt
    ensures am * ct <= cm * at
    ensures am * bt < bm * at || bm * ct < cm * bt ==> am * ct < cm * at
  {
    MulLe(am * bt, bm * at, ct);
    MulLe(bm * ct, cm * bt, at);
    assert am * ct * bt <= cm * at * bt;
    if am * ct > cm * at {
      MulLt(cm * at, am * ct, bt);
    }
    if am * bt < bm * at {
      MulLt(am * bt, bm * at, ct);
      if am * ct >= cm * at {
        MulLe(cm * at, am * ct, bt);
      }
    }
    if bm * ct < cm * bt {
      MulLt(bm * ct, cm * bt, at);
      if am * ct >= cm * at {
        MulLe(cm * at, am * ct, bt);
      }
    }
  }

  lemma BeforeIrreflexive(a: QueryResult)
    ensures !Before(a, a)
  {
    LessIrreflexive(Lower(a.location));
  }

  lemma BeforeAsymmetric(a: QueryResult, b: QueryResult)
    ensures !(Before(a, b) && Before(b, a))
  {
    LessAsymmetric(Lower(a.location), Lower(b.location));
  }

  /** If `a` comes before `c`, any `b` comes after `a` or before `c`: the
      comparison is a strict weak order once every denominator is positive. */
  lemma BeforeNegativelyTransitive(a: QueryResult, b: QueryResult, c: QueryResult)
    requires a.total > 0 && b.total > 0 && c.total > 0
    ensures Before(a, c) ==> Before(a, b) || Before(b, c)
  {
    if Before(a, c) && !Before(a, b) && !Before(b, c) {
      CrossTransitive(a.matches, a.total, b.matches, b.total, c.matches, c.total);
      assert ScoreSame(a, b) && ScoreSame(b, c) && ScoreSame(a, c);
      assert a.matches == b.matches == c.matches;
      var la, lb, lc := Lower(a.location), Lower(b.location), Lower(c.location);
      LessTotal(la, lb);
      LessTotal(lb, lc);
      LessIrreflexive(la);
      LessAsymmetric(la, lc);
      if Less(lc, lb) && Less(lb, la) {
        LessTransitive(lc, lb, la);
      }
      assert false;
    }
  }

  lemma BeforeTransitive(a: QueryResult, b: QueryResult, c: QueryResult)
    requires a.total > 0 && b.total > 0 && c.total > 0
    requires Before(a, b) && Before(b, c)
    ensures Before(a, c)
  {
    BeforeNegativelyTransitive(a, c, b);
    BeforeAsymmetric(b, c);
  }

  /** Two results neither of which sorts first agree on score, match count
      and case-folded location. */
  lemma BeforeTies(a: QueryResult, b: QueryResult)
    requires a.total > 0 && b.total > 0
    requires !Before(a, b) && !Before(b, a)
    ensures Score(a) == Score(b) && a.matches == b.matches && Lower(a.location) == Lower(b.location)
  {
    ScoreCompare(a, b);
    LessTotal(Lower(a.location), Lower(b.location));
  }

  predicate Positive(s: seq<QueryResult>)
  {
    forall i :: 0 <= i < |s| ==> s[i].total > 0
  }

  /** No result sorts before an earlier one. */
  predicate Sorted(s: seq<QueryResult>)
  {
    forall i, j :: 0 <= i < j < |s| ==> !Before(s[j], s[i])
  }

  predicate DistinctLocations(s: seq<QueryResult>)
  {
    forall i, j :: 0 <= i < j < |s| ==> s[i].location != s[j].location
  }

  /** `x` may go in front of a sorted list whose head does not sort before it. */
  lemma SortedCons(x: QueryResult, s: seq<QueryResult>)
    requires x.total > 0 && Positive(s) && Sorted(s)
    requires |s| > 0 ==> !Before(s[0], x)
    ensures Sorted([x] + s)
  {
    forall j | 0 < j < |s|
      ensures !Before(s[j], x)
    {
      BeforeNegativelyTransitive(s[j], s[0], x);
    }
  }

  /** `h` may go in front of a sorted list of elements none of which sorts
      before it. */
  lemma SortedHead(h: QueryResult, rest: seq<QueryResult>)
    requires Sorted(rest)
    requires forall j :: 0 <= j < |rest| ==> !Before(rest[j], h)
    ensures Sorted([h] + rest)
  {
  }

  /** Inserts `x` ahead of the first element that does not sort before it,
      so that among ties the earlier arrival stays first. */
  function Insert(x: QueryResult, s: seq<QueryResult>): (r: seq<QueryResult>)
    requires x.total > 0 && Positive(s) && Sorted(s)
    ensures Sorted(r) && Positive(r)
    ensures multiset(r) == multiset(s) + multiset{x}
    ensures forall i :: 0 <= i < |r| ==> r[i] == x || r[i] in s
    decreases |s|
  {
    if |s| == 0 then [x]
    else if !Before(s[0], x) then
      SortedCons(x, s);
      [x] + s
    else
      var rest := Insert(x, s[1..]);
      BeforeAsymmetric(s[0], x);
      forall j | 0 <= j < |rest|
        ensures rest[j] == x || exists k :: 1 <= k < |s| && s[k] == rest[j]
      {
        if rest[j] != x {
          var k :| 0 <= k < |s[1..]| && s[1..][k] == rest[j];
          assert s[k + 1] == rest[j];
        }
      }
      SortedHead(s[0], rest);
      assert s == [s[0]] + s[1..];
      [s[0]] + rest
  }

  /** Inserting a result for a new location keeps the locations distinct. */
  lemma {:induction false} InsertDistinct(x: QueryResult, s: seq<QueryResult>)
    requires x.total > 0 && Positive(s) && Sorted(s)
    requires DistinctLocations(s)
    requires forall i :: 0 <= i < |s| ==> s[i].location != x.location
    ensures DistinctLocations(Insert(x, s))
    decreases |s|
  {
    if |s| > 0 && Before(s[0], x) {
      var rest := Insert(x, s[1..]);
      InsertDistinct(x, s[1..]);
      assert Insert(x, s) == [s[0]] + rest;
      forall j | 0 <= j < |rest|
        ensures rest[j].location != s[0].location
      {
        if rest[j] != x {
          var k :| 0 <= k < |s[1..]| && s[1..][k] == rest[j];
          assert s[k + 1] == rest[j];
        }
      }
    }
  }

  /** Each element of a permutation of the tail sits at some index past the
      head. */
  lemma PermutedTail(s: seq<QueryResult>, rest: seq<QueryResult>)
    requires |s| > 0 && multiset(rest) == multiset(s[1..])
    ensures forall i :: 0 <= i < |rest| ==> rest[i] in s[1..]
  {
    forall i | 0 <= i < |rest|
      ensures rest[i] in s[1..]
    {
      assert rest[i] in multiset(rest);
    }
  }

  /** A stable sort by `compareTo`, as `Collections.sort` performs. */
  function Sort(s: seq<QueryResult>): (r: seq<QueryResult>)
    requires Positive(s)
    ensures Sorted(r) && Positive(r)
    ensures multiset(r) == multiset(s)
    decreases |s|
  {
    if |s| == 0 then []
    else
      var rest := Sort(s[1..]);
      assert s == [s[0]] + s[1..];
      PermutedTail(s, rest);
      Insert(s[0], rest)
  }

  /** Sorting results for distinct locations keeps them distinct. */
  lemma {:induction false} SortDistinct(s: seq<QueryResult>)
    requires Positive(s) && DistinctLocations(s)
    ensures DistinctLocations(Sort(s))
    decreases |s|
  {
    if |s| > 0 {
      var rest := Sort(s[1..]);
      SortDistinct(s[1..]);
      PermutedTail(s, rest);
      forall i | 0 <= i < |rest|
        ensures rest[i].location != s[0].location
      {
        var k :| 0 <= k < |s[1..]| && s[1..][k] == rest[i];
        assert s[k + 1] == rest[i];
      }
      InsertDistinct(s[0], rest);
    }
  }

  /** A sorted list of results has non-increasing scores. */
  lemma SortedScoresDescending(s: seq<QueryResult>)
    requires Sorted(s) && Positive(s)
    ensures forall i, j :: 0 <= i < j < |s| ==> Score(s[i]) >= Score(s[j])
  {
    forall i, j | 0 <= i < j < |s|
      ensures Score(s[i]) >= Score(s[j])
    {
      BeforeByScore(s[j], s[i]);
    }
  }

  /** A new `QueryResult(location)`: no matches yet; its score is taken
      against the location's count. */
  function Fresh(idx: Index, l: string): (r: QueryResult)
    ensures r.location == l && r.matches == 0
    ensures r.total > 0 ==> Score(r) == 0.0
    ensures Covered(idx) && (exists w :: ContainsLocation(idx, w, l)) ==> r.total > 0
  {
    QueryResult(l, 0, Count(idx, l))
  }

  /** `update(word)`: adds the word's number of positions at the result's
      location to its matches; the score follows from the new matches. */
  function Update(idx: Index, q: QueryResult, w: string): (r: QueryResult)
    requires ContainsLocation(idx, w, q.location)
    ensures r.location == q.location && r.total == q.total
    ensures r.matches == q.matches + PositionsSize(idx, w, q.location)
  {
    q.(matches := q.matches + |idx.words[w][q.location]|)
  }

  /** The two collections `helper` threads through a search: the results by
      location, and the list of results in order of first appearance. */
  datatype Acc = Acc(found: map<string, QueryResult>, order: seq<string>)

  /** Each found location appears once in the list, and its result is keyed
      by that location and scored against its count. */
  ghost predicate Wf(idx: Index, a: Acc)
  {
    && (forall l :: l in a.found <==> l in a.order)
    && DistinctStrings(a.order)
    && (forall l :: l in a.found ==> a.found[l].location == l && a.found[l].total == Count(idx, l))
  }

  /** The matches found so far at a location, zero before it is reached. */
  function MatchesAt(a: Acc, l: string): nat
  {
    if l in a.found then a.found[l].matches else 0
  }

  /** The body of the loop in `helper`, for one location of the word. */
  function Visit(idx: Index, a: Acc, w: string, l: string): (r: Acc)
    requires Wf(idx, a) && ContainsLocation(idx, w, l)
    ensures Wf(idx, r)
    ensures forall m :: m in r.found <==> m in a.found || m == l
    ensures forall m :: m in r.found ==>
      r.found[m].matches == MatchesAt(a, m) + (if m == l then PositionsSize(idx, w, l) else 0)
  {
    var b := if l in a.found then a else Acc(a.found[l := Fresh(idx, l)], a.order + [l]);
    Acc(b.found[l := Update(idx, b.found[l], w)], b.order)
  }

  /** The loop in `helper` over the given locations of one word. */
  function VisitAll(idx: Index, a: Acc, w: string, locs: seq<string>): (r: Acc)
    requires Wf(idx, a) && DistinctStrings(locs)
    requires forall l :: l in locs ==> ContainsLocation(idx, w, l)
    ensures Wf(idx, r)
    ensures forall m :: m in r.found <==> m in a.found || m in locs
    ensures forall m :: m in r.found ==>
      r.found[m].matches == MatchesAt(a, m) + (if m in locs then PositionsSize(idx, w, m) else 0)
    decreases |locs|
  {
    if |locs| == 0 then a
    else
      assert forall m :: m in locs <==> m == locs[0] || m in locs[1..];
      assert locs[0] !in locs[1..];
      VisitAll(idx, Visit(idx, a, w, locs[0]), w, locs[1..])
  }

  /** `helper(finalOutput, word, collectionOutput)`: every location of the
      word is reached and gains the word's positions there. */
  function Helper(idx: Index, a: Acc, w: string): (r: Acc)
    requires Wf(idx, a) && ContainsWord(idx, w)
    ensures Wf(idx, r)
    ensures forall m :: m in r.found <==> m in a.found || ContainsLocation(idx, w, m)
    ensures forall m :: m in r.found ==> r.found[m].matches == MatchesAt(a, m) + PositionsSize(idx, w, m)
  {
    var locs := SortedKeys(idx.words[w].Keys);
    SortedDistinct(locs);
    VisitAll(idx, a, w, locs)
  }

  /** Some visited word has the location. */
  ghost predicate Reached(idx: Index, visits: seq<string>, l: string)
    decreases |visits|
  {
    |visits| > 0 && (ContainsLocation(idx, visits[0], l) || Reached(idx, visits[1..], l))
  }

  /** The positions at `l` summed over the visits, a word counted once per
      visit. */
  function MatchSum(idx: Index, visits: seq<string>, l: string): nat
    decreases |visits|
  {
    if |visits| == 0 then 0 else PositionsSize(idx, visits[0], l) + MatchSum(idx, visits[1..], l)
  }

  lemma {:induction false} ReachedExists(idx: Index, visits: seq<string>, l: string)
    ensures Reached(idx, visits, l) <==> exists i :: 0 <= i < |visits| && ContainsLocation(idx, visits[i], l)
    decreases |visits|
  {
    if |visits| > 0 {
      ReachedExists(idx, visits[1..], l);
      if exists i :: 0 <= i < |visits| && ContainsLocation(idx, visits[i], l) {
        var i :| 0 <= i < |visits| && ContainsLocation(idx, visits[i], l);
        if i > 0 {
          assert visits[1..][i - 1] == visits[i];
        }
      }
      if Reached(idx, visits[1..], l) {
        var i :| 0 <= i < |visits[1..]| && ContainsLocation(idx, visits[1..][i], l);
        assert visits[i + 1] == visits[1..][i];
      }
    }
  }

  /** `helper` applied to each visit in turn. */
  function Collect(idx: Index, a: Acc, visits: seq<string>): (r: Acc)
    requires Wf(idx, a) && forall v :: v in visits ==> ContainsWord(idx, v)
    ensures Wf(idx, r)
    ensures forall m :: m in r.found <==> m in a.found || Reached(idx, visits, m)
    ensures forall m :: m in r.found ==> r.found[m].matches == MatchesAt(a, m) + MatchSum(idx, visits, m)
    decreases |visits|
  {
    if |visits| == 0 then a
    else
      assert forall v :: v in visits[1..] ==> v in visits;
      Collect(idx, Helper(idx, a, visits[0]), visits[1..])
  }

  /** `collectionOutput` before sorting: the results in order of first
      appearance. */
  function Listed(a: Acc): (r: seq<QueryResult>)
    requires forall l :: l in a.order ==> l in a.found
    ensures |r| == |a.order| && forall i :: 0 <= i < |r| ==> r[i] == a.found[a.order[i]]
  {
    seq(|a.order|, i requires 0 <= i < |a.order| => a.found[a.order[i]])
  }

  lemma {:induction false} ReachedCounted(idx: Index, visits: seq<string>, l: string)
    requires Covered(idx) && Reached(idx, visits, l)
    ensures l in idx.counts && idx.counts[l] > 0
    decreases |visits|
  {
    if !ContainsLocation(idx, visits[0], l) {
      ReachedCounted(idx, visits[1..], l);
    }
  }

  /** What a search over the given visits returns: one result per reached
      location, holding the positions summed over the visits and the
      location's count, sorted by `compareTo`. */
  function Run(idx: Index, visits: seq<string>): (r: seq<QueryResult>)
    requires Covered(idx) && forall v :: v in visits ==> ContainsWord(idx, v)
    ensures Sorted(r) && DistinctLocations(r)
    ensures forall i :: 0 <= i < |r| ==>
      && Reached(idx, visits, r[i].location)
      && r[i].matches == MatchSum(idx, visits, r[i].location)
      && r[i].total == Count(idx, r[i].location) > 0
    ensures forall l :: Reached(idx, visits, l) ==> exists i :: 0 <= i < |r| && r[i].location == l
  {
    var a := Collect(idx, Acc(map[], []), visits);
    var listed := Listed(a);
    forall i | 0 <= i < |listed|
      ensures listed[i].total > 0
    {
      ReachedCounted(idx, visits, a.order[i]);
    }
    assert DistinctLocations(listed);
    SortDistinct(listed);
    var r := Sort(listed);
    RunFacts(idx, visits, a, listed, r);
    r
  }

  lemma RunFacts(idx: Index, visits: seq<string>, a: Acc, listed: seq<QueryResult>, r: seq<QueryResult>)
    requires Covered(idx) && Wf(idx, a)
    requires forall m :: m in a.found <==> Reached(idx, visits, m)
    requires forall m :: m in a.found ==> a.found[m].matches == MatchSum(idx, visits, m)
    requires |listed| == |a.order| && forall i :: 0 <= i < |listed| ==> listed[i] == a.found[a.order[i]]
    requires multiset(r) == multiset(listed)
    ensures forall i :: 0 <= i < |r| ==>
      && Reached(idx, visits, r[i].location)
      && r[i].matches == MatchSum(idx, visits, r[i].location)
      && r[i].total == Count(idx, r[i].location) > 0
    ensures forall l :: Reached(idx, visits, l) ==> exists i :: 0 <= i < |r| && r[i].location == l
  {
    forall i | 0 <= i < |r|
      ensures Reached(idx, visits, r[i].location)
      ensures r[i].matches == MatchSum(idx, visits, r[i].location)
      ensures r[i].total == Count(idx, r[i].location) > 0
    {
      assert r[i] in multiset(listed);
      var j :| 0 <= j < |listed| && listed[j] == r[i];
      ReachedCounted(idx, visits, a.order[j]);
    }
    forall l | Reached(idx, visits, l)
      ensures exists i :: 0 <= i < |r| && r[i].location == l
    {
      var j :| 0 <= j < |a.order| && a.order[j] == l;
      assert listed[j] in multiset(r);
      var i :| 0 <= i < |r| && r[i] == listed[j];
    }
  }

  /** The query terms `exactSearch` passes to `helper`: those that are
      words of the index, in query order. */
  function ExactVisits(idx: Index, qs: seq<string>): (r: seq<string>)
    ensures forall v :: v in r <==> v in qs && ContainsWord(idx, v)
    ensures |r| <= |qs|
    decreases |qs|
  {
    if |qs| == 0 then []
    else (if ContainsWord(idx, qs[0]) then [qs[0]] else []) + ExactVisits(idx, qs[1..])
  }

  /** Skipping the terms that are not words changes nothing: such a term
      reaches no location and adds no positions. */
  lemma {:induction false} ExactVisitsSame(idx: Index, qs: seq<string>, l: string)
    ensures Reached(idx, ExactVisits(idx, qs), l) <==> Reached(idx, qs, l)
    ensures MatchSum(idx, ExactVisits(idx, qs), l) == MatchSum(idx, qs, l)
    decreases |qs|
  {
    if |qs| > 0 {
      ExactVisitsSame(idx, qs[1..], l);
      ConcatVisits(idx, if ContainsWord(idx, qs[0]) then [qs[0]] else [], ExactVisits(idx, qs[1..]), l);
    }
  }

  lemma {:induction false} ConcatVisits(idx: Index, a: seq<string>, b: seq<string>, l: string)
    ensures Reached(idx, a + b, l) <==> Reached(idx, a, l) || Reached(idx, b, l)
    ensures MatchSum(idx, a + b, l) == MatchSum(idx, a, l) + MatchSum(idx, b, l)
    decreases |a|
  {
    if |a| > 0 {
      assert (a + b)[1..] == a[1..] + b;
      ConcatVisits(idx, a[1..], b, l);
    } else {
      assert a + b == b;
    }
  }

  /** `exactSearch(queries)`: one result per location of any query term
      that is a word, matches summed over the terms, sorted. */
  function ExactSearch(idx: Index, qs: seq<string>): (r: seq<QueryResult>)
    requires Covered(idx)
    ensures Sorted(r) && DistinctLocations(r)
    ensures forall i :: 0 <= i < |r| ==>
      && Reached(idx, qs, r[i].location)
      && r[i].matches == MatchSum(idx, qs, r[i].location)
      && r[i].total == Count(idx, r[i].location) > 0
    ensures forall l :: Reached(idx, qs, l) ==> exists i :: 0 <= i < |r| && r[i].location == l
  {
    var vs := ExactVisits(idx, qs);
    forall l
      ensures Reached(idx, vs, l) <==> Reached(idx, qs, l)
      ensures MatchSum(idx, vs, l) == MatchSum(idx, qs, l)
    {
      ExactVisitsSame(idx, qs, l);
    }
    Run(idx, vs)
  }

  /** `index.tailMap(query).keySet()`: the keys not below the query, in
      order. */
  function TailKeys(ks: seq<string>, q: string): (r: seq<string>)
    decreases |ks|
  {
    if |ks| == 0 then []
    else (if Less(ks[0], q) then [] else [ks[0]]) + TailKeys(ks[1..], q)
  }

  /** The scan in `partialSearch`: keys starting with the query, stopping at
      the first one that does not. */
  function TakePrefixed(ks: seq<string>, q: string): (r: seq<string>)
    decreases |ks|
  {
    if |ks| == 0 || !HasPrefix(ks[0], q) then [] else [ks[0]] + TakePrefixed(ks[1..], q)
  }

  /** Every key having the query as a prefix, in order. */
  function Prefixed(ks: seq<string>, q: string): (r: seq<string>)
    ensures forall w :: w in r <==> w in ks && HasPrefix(w, q)
    ensures |r| <= |ks|
    decreases |ks|
  {
    if |ks| == 0 then []
    else
      var rest := Prefixed(ks[1..], q);
      assert forall w :: w in ks <==> w == ks[0] || w in ks[1..];
      (if HasPrefix(ks[0], q) then [ks[0]] else []) + rest
  }

  /** Filtering a strictly sorted sequence keeps it strictly sorted. */
  lemma {:induction false} PrefixedSorted(ks: seq<string>, q: string)
    requires StrictlySorted(ks)
    ensures StrictlySorted(Prefixed(ks, q))
    decreases |ks|
  {
    if |ks| > 0 {
      var rest := Prefixed(ks[1..], q);
      PrefixedSorted(ks[1..], q);
      forall j | 0 <= j < |rest|
        ensures Less(ks[0], rest[j])
      {
        assert rest[j] in ks[1..];
        var k :| 0 <= k < |ks[1..]| && ks[1..][k] == rest[j];
        assert ks[k + 1] == rest[j];
      }
    }
  }

  lemma {:induction false} TailKeysAll(ks: seq<string>, q: string)
    requires forall i :: 0 <= i < |ks| ==> !Less(ks[i], q)
    ensures TailKeys(ks, q) == ks
    decreases |ks|
  {
    if |ks| > 0 {
      TailKeysAll(ks[1..], q);
      assert ks == [ks[0]] + ks[1..];
    }
  }

  lemma {:induction false} PrefixedNone(ks: seq<string>, q: string)
    requires forall i :: 0 <= i < |ks| ==> !HasPrefix(ks[i], q)
    ensures Prefixed(ks, q) == []
    decreases |ks|
  {
    if |ks| > 0 {
      PrefixedNone(ks[1..], q);
    }
  }

  /** The tail scan with its early break visits exactly the sorted keys
      having the query as a prefix: those keys are contiguous, starting at
      the first key not below the query. */
  lemma {:induction false} ScanIsPrefixed(ks: seq<string>, q: string)
    requires StrictlySorted(ks)
    ensures TakePrefixed(TailKeys(ks, q), q) == Prefixed(ks, q)
    decreases |ks|
  {
    if |ks| > 0 {
      var rest := ks[1..];
      ScanIsPrefixed(rest, q);
      if Less(ks[0], q) {
        assert !HasPrefix(ks[0], q) by {
          if HasPrefix(ks[0], q) {
            PrefixNotLess(ks[0], q);
          }
        }
        assert TailKeys(ks, q) == TailKeys(rest, q);
        assert Prefixed(ks, q) == Prefixed(rest, q);
      } else {
        forall i | 0 <= i < |rest|
          ensures !Less(rest[i], q)
        {
          assert rest[i] == ks[i + 1];
          if Less(rest[i], q) {
            LessTransitive(ks[0], rest[i], q);
          }
        }
        TailKeysAll(rest, q);
        if !HasPrefix(ks[0], q) {
          forall i | 0 <= i < |rest|
            ensures !HasPrefix(rest[i], q)
          {
            assert rest[i] == ks[i + 1];
            if HasPrefix(rest[i], q) {
              PrefixBetween(ks[0], rest[i], q);
            }
          }
          PrefixedNone(rest, q);
        }
      }
    }
  }

  /** The words `partialSearch` visits for one query term. */
  function Scan(idx: Index, q: string): (r: seq<string>)
    ensures r == Prefixed(SortedKeys(idx.words.Keys), q)
    ensures StrictlySorted(r)
  {
    var ks := SortedKeys(idx.words.Keys);
    ScanIsPrefixed(ks, q);
    PrefixedSorted(ks, q);
    TakePrefixed(TailKeys(ks, q), q)
  }

  /** The words `partialSearch` visits, term after term; a word matching
      several terms is visited once for each. */
  function PartialVisits(idx: Index, qs: seq<string>): (r: seq<string>)
    ensures forall v :: v in r <==> ContainsWord(idx, v) && exists i :: 0 <= i < |qs| && HasPrefix(v, qs[i])
    decreases |qs|
  {
    if |qs| == 0 then []
    else
      assert forall v :: v in Scan(idx, qs[0]) <==> ContainsWord(idx, v) && HasPrefix(v, qs[0]);
      Scan(idx, qs[0]) + PartialVisits(idx, qs[1..])
  }

  /** Reference visits of a prefix search: for each term in turn, every
      index word starting with it. */
  function PrefixVisits(idx: Index, qs: seq<string>): (r: seq<string>)
    decreases |qs|
  {
    if |qs| == 0 then [] else Prefixed(SortedKeys(idx.words.Keys), qs[0]) + PrefixVisits(idx, qs[1..])
  }

  lemma {:induction false} PartialVisitsArePrefixVisits(idx: Index, qs: seq<string>)
    ensures PartialVisits(idx, qs) == PrefixVisits(idx, qs)
    ensures forall v :: v in PartialVisits(idx, qs) ==> ContainsWord(idx, v)
    decreases |qs|
  {
    if |qs| > 0 {
      PartialVisitsArePrefixVisits(idx, qs[1..]);
    }
  }

  /** How many of the terms are prefixes of `w`. */
  function PrefixCount(qs: seq<string>, w: string): (n: nat)
    ensures n <= |qs|
    decreases |qs|
  {
    if |qs| == 0 then 0 else (if HasPrefix(w, qs[0]) then 1 else 0) + PrefixCount(qs[1..], w)
  }

  lemma {:induction false} PrefixedOnce(ks: seq<string>, q: string, w: string)
    requires DistinctStrings(ks)
    ensures multiset(Prefixed(ks, q))[w] == if w in ks && HasPrefix(w, q) then 1 else 0
    decreases |ks|
  {
    if |ks| > 0 {
      assert forall v :: v in ks <==> v == ks[0] || v in ks[1..];
      assert ks[0] !in ks[1..];
      PrefixedOnce(ks[1..], q, w);
    }
  }

  /** A word is visited once per term it starts with: overlapping prefixes
      count its positions more than once. */
  lemma {:induction false} PrefixVisitsMultiplicity(idx: Index, qs: seq<string>, w: string)
    ensures multiset(PrefixVisits(idx, qs))[w] == if ContainsWord(idx, w) then PrefixCount(qs, w) else 0
    decreases |qs|
  {
    if |qs| > 0 {
      var ks := SortedKeys(idx.words.Keys);
      SortedDistinct(ks);
      PrefixedOnce(ks, qs[0], w);
      PrefixVisitsMultiplicity(idx, qs[1..], w);
    }
  }

  /** One term's scan reaches a location exactly when some word there starts
      with the term. */
  lemma TermReached(idx: Index, q: string, l: string)
    ensures Reached(idx, Prefixed(SortedKeys(idx.words.Keys), q), l) <==>
      exists w :: HasPrefix(w, q) && ContainsLocation(idx, w, l)
  {
    var p := Prefixed(SortedKeys(idx.words.Keys), q);
    ReachedExists(idx, p, l);
    if exists w :: HasPrefix(w, q) && ContainsLocation(idx, w, l) {
      var w :| HasPrefix(w, q) && ContainsLocation(idx, w, l);
      assert w in p;
      var i :| 0 <= i < |p| && p[i] == w;
    }
  }

  /** Some term prefixes a word at `l` exactly when the first term does or
      one of the rest does. */
  lemma TermsSplit(idx: Index, qs: seq<string>, l: string)
    requires |qs| > 0
    ensures (exists k, w :: 0 <= k < |qs| && HasPrefix(w, qs[k]) && ContainsLocation(idx, w, l)) <==>
      (exists w :: HasPrefix(w, qs[0]) && ContainsLocation(idx, w, l)) ||
      (exists k, w :: 0 <= k < |qs[1..]| && HasPrefix(w, qs[1..][k]) && ContainsLocation(idx, w, l))
  {
    if exists k, w :: 0 <= k < |qs| && HasPrefix(w, qs[k]) && ContainsLocation(idx, w, l) {
      var k, w :| 0 <= k < |qs| && HasPrefix(w, qs[k]) && ContainsLocation(idx, w, l);
      if k > 0 {
        assert qs[1..][k - 1] == qs[k];
      }
    }
    if exists k, w :: 0 <= k < |qs[1..]| && HasPrefix(w, qs[1..][k]) && ContainsLocation(idx, w, l) {
      var k, w :| 0 <= k < |qs[1..]| && HasPrefix(w, qs[1..][k]) && ContainsLocation(idx, w, l);
      assert qs[k + 1] == qs[1..][k];
    }
  }

  /** A prefix search reaches a location exactly when some index word at that
      location starts with some term. */
  lemma {:induction false} PrefixVisitsReached(idx: Index, qs: seq<string>, l: string)
    ensures Reached(idx, PrefixVisits(idx, qs), l) <==>
      exists k, w :: 0 <= k < |qs| && HasPrefix(w, qs[k]) && ContainsLocation(idx, w, l)
    decreases |qs|
  {
    if |qs| > 0 {
      var p := Prefixed(SortedKeys(idx.words.Keys), qs[0]);
      var rest := PrefixVisits(idx, qs[1..]);
      assert PrefixVisits(idx, qs) == p + rest;
      PrefixVisitsReached(idx, qs[1..], l);
      ConcatVisits(idx, p, rest, l);
      TermReached(idx, qs[0], l);
      TermsSplit(idx, qs, l);
    }
  }

  /** `partialSearch(queries)`: one result per location of any index word
      starting with a query term, matches summed over every (term, word)
      pair, sorted. */
  function PartialSearch(idx: Index, qs: seq<string>): (r: seq<QueryResult>)
    requires Covered(idx)
    ensures Sorted(r) && DistinctLocations(r)
    ensures forall i :: 0 <= i < |r| ==>
      && Reached(idx, PrefixVisits(idx, qs), r[i].location)
      && r[i].matches == MatchSum(idx, PrefixVisits(idx, qs), r[i].location)
      && r[i].total == Count(idx, r[i].location) > 0
    ensures forall l :: Reached(idx, PrefixVisits(idx, qs), l) ==> exists i :: 0 <= i < |r| && r[i].location == l
  {
    PartialVisitsArePrefixVisits(idx, qs);
    Run(idx, PartialVisits(idx, qs))
  }

  /** The words whose positions a search adds up: the terms themselves for
      an exact search, every word starting with a term for a partial one. */
  function SearchVisits(idx: Index, qs: seq<string>, exact: bool): seq<string>
  {
    if exact then qs else PrefixVisits(idx, qs)
  }

  /** `search(query, flag)`: exact when the flag is set, partial otherwise. */
  function SearchIndex(idx: Index, qs: seq<string>, exact: bool): (r: seq<QueryResult>)
    requires Covered(idx)
    ensures Sorted(r) && DistinctLocations(r)
    ensures forall i :: 0 <= i < |r| ==>
      && Reached(idx, SearchVisits(idx, qs, exact), r[i].location)
      && r[i].matches == MatchSum(idx, SearchVisits(idx, qs, exact), r[i].location)
      && r[i].total == Count(idx, r[i].location) > 0
    ensures forall l :: Reached(idx, SearchVisits(idx, qs, exact), l) ==>
      exists i :: 0 <= i < |r| && r[i].location == l
  {
    if exact then ExactSearch(idx, qs) else PartialSearch(idx, qs)
  }
}
