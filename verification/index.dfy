/**
 * The inverted index of `InvertedIndex.java`: word -> location -> set of
 * positions, plus the per-location word count used for scoring. The state is
 * a value; every mutator returns the new index.
 */
module InvertedIndex {

  datatype Index = Index(words: map<string, map<string, set<nat>>>, counts: map<string, nat>)

  /** The state built by the constructor: no words, no counts. */
  function Empty(): (r: Index)
    ensures forall w :: !ContainsWord(r, w)
    ensures forall l :: Count(r, l) == 0
  {
    Index(map[], map[])
  }

  /** `contains(word)`. */
  predicate ContainsWord(idx: Index, w: string)
  {
    w in idx.words
  }

  /** `contains(word, location)`: false, not an error, when the word is absent. */
  predicate ContainsLocation(idx: Index, w: string, l: string)
  {
    ContainsWord(idx, w) && l in idx.words[w]
  }

  /** `contains(word, location, position)`. */
  predicate ContainsPosition(idx: Index, w: string, l: string, p: nat)
  {
    ContainsLocation(idx, w, l) && p in idx.words[w][l]
  }

  /** `getWords()`. */
  function Words(idx: Index): (r: set<string>)
    ensures forall w :: w in r <==> ContainsWord(idx, w)
  {
    idx.words.Keys
  }

  /** `getLocations(word)`: the empty set for an absent word. */
  function Locations(idx: Index, w: string): (r: set<string>)
    ensures forall l :: l in r <==> ContainsLocation(idx, w, l)
    ensures !ContainsWord(idx, w) ==> r == {}
  {
    if ContainsWord(idx, w) then idx.words[w].Keys else {}
  }

  /** `getPositions(word, location)`: the empty set for an absent pair. */
  function Positions(idx: Index, w: string, l: string): (r: set<nat>)
    ensures forall p :: p in r <==> ContainsPosition(idx, w, l, p)
    ensures !ContainsLocation(idx, w, l) ==> r == {}
  {
    if ContainsLocation(idx, w, l) then idx.words[w][l] else {}
  }

  /** `wordsSize()`. */
  function WordsSize(idx: Index): (n: nat)
    ensures n == |Words(idx)|
    ensures n == 0 <==> forall w :: !ContainsWord(idx, w)
  {
    |Words(idx)|
  }

  /** `locationSize(word)`: zero for an absent word. */
  function LocationSize(idx: Index, w: string): (n: nat)
    ensures n == |Locations(idx, w)|
    ensures !ContainsWord(idx, w) ==> n == 0
    ensures n == 0 <==> forall l :: !ContainsLocation(idx, w, l)
  {
    |Locations(idx, w)|
  }

  /** `positionsSize(word, location)`: zero for an absent pair. */
  function PositionsSize(idx: Index, w: string, l: string): (n: nat)
    ensures n == |Positions(idx, w, l)|
    ensures !ContainsLocation(idx, w, l) ==> n == 0
    ensures n == 0 <==> forall p :: !ContainsPosition(idx, w, l, p)
  {
    |Positions(idx, w, l)|
  }

  /** `count.getOrDefault(location, 0)`. */
  function Count(idx: Index, l: string): nat
  {
    if l in idx.counts then idx.counts[l] else 0
  }

  /** `contains(word)` agrees with `getWords()`, which is then nonempty. */
  lemma ContainsWordAgrees(idx: Index, w: string)
    ensures ContainsWord(idx, w) <==> w in Words(idx)
    ensures ContainsWord(idx, w) ==> WordsSize(idx) > 0
  {
  }

  /** `contains(word, location)` is false, not an error, for an absent word,
      and otherwise agrees with `getLocations(word)`. */
  lemma ContainsLocationAgrees(idx: Index, w: string, l: string)
    ensures ContainsLocation(idx, w, l) <==> ContainsWord(idx, w) && l in Locations(idx, w)
    ensures ContainsLocation(idx, w, l) ==> LocationSize(idx, w) > 0
  {
  }

  /** `contains(word, location, position)` is false for an absent word or
      location, and otherwise agrees with `getPositions(word, location)`. */
  lemma ContainsPositionAgrees(idx: Index, w: string, l: string, p: nat)
    ensures ContainsPosition(idx, w, l, p) <==> ContainsLocation(idx, w, l) && p in Positions(idx, w, l)
    ensures ContainsPosition(idx, w, l, p) ==> PositionsSize(idx, w, l) > 0
  {
  }

  /** `add(word, location, position)`: records the position and bumps the
      location's count only when the position is new for (word, location). */
  function Add(idx: Index, w: string, l: string, p: nat): (r: Index)
    ensures ContainsPosition(r, w, l, p)
    ensures forall w', l', p' :: ContainsPosition(r, w', l', p') <==>
      ContainsPosition(idx, w', l', p') || (w' == w && l' == l && p' == p)
    ensures ContainsPosition(idx, w, l, p) ==> r == idx
    ensures !ContainsPosition(idx, w, l, p) ==>
      l in r.counts && r.counts[l] == Count(idx, l) + 1 && r.counts - {l} == idx.counts - {l}
    ensures r.words.Keys == idx.words.Keys + {w}
    ensures forall w' :: w' in idx.words ==> idx.words[w'].Keys <= r.words[w'].Keys
    ensures r.words[w].Keys == Locations(idx, w) + {l}
  {
    var locs := if w in idx.words then idx.words[w] else map[];
    var ps := if l in locs then locs[l] else {};
    var words := idx.words[w := locs[l := ps + {p}]];
    if p in ps then
      assert ps + {p} == ps;
      assert locs[l := ps + {p}] == locs;
      assert words == idx.words;
      idx
    else
      Index(words, idx.counts[l := Count(idx, l) + 1])
  }

  /** The (word, position) pairs recorded at a location. */
  ghost function Pairs(idx: Index, l: string): set<(string, nat)>
  {
    set w, p | w in idx.words && l in idx.words[w] && p in idx.words[w][l] :: (w, p)
  }

  lemma PairsMembership(idx: Index, l: string)
    ensures forall w, p: nat :: (w, p) in Pairs(idx, l) <==> ContainsPosition(idx, w, l, p)
  {
  }

  /** The count invariant: every location under any word has a positive count,
      and each count equals the number of distinct (word, position) pairs
      recorded at its location. */
  ghost predicate Consistent(idx: Index)
  {
    && (forall w, l :: w in idx.words && l in idx.words[w] ==> l in idx.counts)
    && (forall l :: l in idx.counts ==> idx.counts[l] == |Pairs(idx, l)| && idx.counts[l] > 0)
  }

  /** What searching needs: every indexed location has a positive count, so a
      score can be formed. */
  ghost predicate Covered(idx: Index)
  {
    forall w, l :: w in idx.words && l in idx.words[w] ==> l in idx.counts && idx.counts[l] > 0
  }

  lemma ConsistentCovered(idx: Index)
    requires Consistent(idx)
    ensures Covered(idx)
  {
  }

  lemma EmptyConsistent()
    ensures Consistent(Empty())
  {
  }

  lemma PairsAfterAdd(idx: Index, w: string, l: string, p: nat, l': string)
    ensures Pairs(Add(idx, w, l, p), l') == Pairs(idx, l') + (if l' == l then {(w, p)} else {})
  {
    var r := Add(idx, w, l, p);
    forall pair | pair in Pairs(r, l')
      ensures pair in Pairs(idx, l') + (if l' == l then {(w, p)} else {})
    {
      assert ContainsPosition(r, pair.0, l', pair.1);
    }
    forall pair | pair in Pairs(idx, l') + (if l' == l then {(w, p)} else {})
      ensures pair in Pairs(r, l')
    {
      assert ContainsPosition(r, pair.0, l', pair.1);
    }
  }

  /** A location with recorded pairs has a count. */
  lemma PairsLocated(idx: Index, l: string)
    requires Consistent(idx)
    ensures Pairs(idx, l) != {} ==> l in idx.counts
  {
    if Pairs(idx, l) != {} {
      var pair :| pair in Pairs(idx, l);
      assert pair.0 in idx.words && l in idx.words[pair.0];
    }
  }

  /** `add` preserves the count invariant. */
  lemma AddConsistent(idx: Index, w: string, l: string, p: nat)
    requires Consistent(idx)
    ensures Consistent(Add(idx, w, l, p))
  {
    var r := Add(idx, w, l, p);
    if !ContainsPosition(idx, w, l, p) {
      forall l' | l' in r.counts
        ensures r.counts[l'] == |Pairs(r, l')| && r.counts[l'] > 0
      {
        PairsAfterAdd(idx, w, l, p, l');
        if l' == l {
          assert (w, p) !in Pairs(idx, l);
          PairsLocated(idx, l);
        } else {
          assert l' in idx.counts;
        }
      }
      forall w', l' | w' in r.words && l' in r.words[w']
        ensures l' in r.counts
      {
        if !(w' == w && l' == l) {
          assert w' in idx.words && l' in idx.words[w'];
        }
      }
    }
  }

  /** Adds `ws[i]` at `loc`, position `start + i`, for every index i in order.
      Written from the back so that it follows a left-to-right loop. */
  function AddSeq(idx: Index, ws: seq<string>, loc: string, start: nat): (r: Index)
    ensures forall w, l, p: nat :: ContainsPosition(r, w, l, p) <==>
      ContainsPosition(idx, w, l, p) || (l == loc && start <= p < start + |ws| && ws[p - start] == w)
    decreases |ws|
  {
    if |ws| == 0 then idx
    else Add(AddSeq(idx, ws[..|ws| - 1], loc, start), ws[|ws| - 1], loc, start + |ws| - 1)
  }

  /** Bulk insertion keeps the count invariant. */
  lemma {:induction false} AddSeqConsistent(idx: Index, ws: seq<string>, loc: string, start: nat)
    requires Consistent(idx)
    ensures Consistent(AddSeq(idx, ws, loc, start))
    decreases |ws|
  {
    if |ws| > 0 {
      AddSeqConsistent(idx, ws[..|ws| - 1], loc, start);
      AddConsistent(AddSeq(idx, ws[..|ws| - 1], loc, start), ws[|ws| - 1], loc, start + |ws| - 1);
    }
  }

  /** When every position already recorded at `loc` lies below `start`, each
      of the |ws| insertions is new, so the location's count grows by exactly
      |ws| and no other count changes. */
  lemma {:induction false} AddSeqFreshCount(idx: Index, ws: seq<string>, loc: string, start: nat)
    requires forall w, p: nat :: ContainsPosition(idx, w, loc, p) ==> p < start
    ensures Count(AddSeq(idx, ws, loc, start), loc) == Count(idx, loc) + |ws|
    ensures AddSeq(idx, ws, loc, start).counts - {loc} == idx.counts - {loc}
    ensures |ws| > 0 ==> loc in AddSeq(idx, ws, loc, start).counts
    decreases |ws|
  {
    if |ws| > 0 {
      var prev := AddSeq(idx, ws[..|ws| - 1], loc, start);
      AddSeqFreshCount(idx, ws[..|ws| - 1], loc, start);
      assert !ContainsPosition(prev, ws[|ws| - 1], loc, start + |ws| - 1);
    }
  }

  /** `addAll(words, location)`: `words[i]` is added at position i, counting
      from 0. */
  method AddAll(idx: Index, ws: seq<string>, loc: string) returns (r: Index)
    ensures r == AddSeq(idx, ws, loc, 0)
    ensures forall i :: 0 <= i < |ws| ==> ContainsPosition(r, ws[i], loc, i)
    ensures forall w, l, p: nat :: ContainsPosition(r, w, l, p) <==>
      ContainsPosition(idx, w, l, p) || (l == loc && p < |ws| && ws[p] == w)
  {
    r := idx;
    var position := 0;
    while position < |ws|
      invariant position <= |ws|
      invariant r == AddSeq(idx, ws[..position], loc, 0)
    {
      assert ws[..position + 1][..position] == ws[..position];
      r := Add(r, ws[position], loc, position);
      position := position + 1;
    }
    assert ws[..position] == ws;
  }
}
