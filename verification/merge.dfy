/**
 * `InvertedIndex.addAll(InvertedIndex other)`: folds another index into this
 * one. Position sets are unioned word by word and location by location. The
 * count loop then asks whether each of the other index's locations is a WORD
 * key of the merged index: if not, the other index's count overwrites this
 * one; if so, the two counts are summed, and a location missing from this
 * index's counts makes the unboxing of `null` throw.
 */
module Merge {
  import opened Wrappers
  import opened Ordered
  import opened InvertedIndex

  /** The result of the merge: the new state, or the NullPointerException
      thrown by the count loop. */
  datatype Outcome = Merged(index: Index) | NullPointer

  /** The positions a location map records for `f`, empty when absent. */
  function Get(m: map<string, set<nat>>, f: string): set<nat>
  {
    if f in m then m[f] else {}
  }

  /** The inner loop over `local.index.get(word).keySet()`: a location new to
      this word takes the other position set, a known one is unioned. */
  function MergeLocations(mine: map<string, set<nat>>, theirs: map<string, set<nat>>, files: seq<string>)
    : (r: map<string, set<nat>>)
    requires forall f :: f in files ==> f in theirs
    ensures forall f :: f in r <==> f in mine || f in files
    ensures forall f :: f in r ==> r[f] == Get(mine, f) + (if f in files then theirs[f] else {})
    decreases |files|
  {
    if |files| == 0 then mine
    else
      var f := files[0];
      var next := if f !in mine then mine[f := theirs[f]] else mine[f := mine[f] + theirs[f]];
      var r := MergeLocations(next, theirs, files[1..]);
      assert forall g :: g in files <==> g == f || g in files[1..];
      r
  }

  /** One word's locations merged in the other map's key order. */
  function UnionLocations(mine: map<string, set<nat>>, theirs: map<string, set<nat>>): (r: map<string, set<nat>>)
    ensures forall f :: f in r <==> f in mine || f in theirs
    ensures forall f :: f in r ==> r[f] == Get(mine, f) + Get(theirs, f)
  {
    MergeLocations(mine, theirs, SortedKeys(theirs.Keys))
  }

  /** The outer loop over `local.index.keySet()`: a word new to this index
      takes the other location map, a known one is merged location by
      location. */
  function MergeWords(mine: map<string, map<string, set<nat>>>, theirs: map<string, map<string, set<nat>>>,
                      ws: seq<string>): (r: map<string, map<string, set<nat>>>)
    requires forall w :: w in ws ==> w in theirs
    requires DistinctStrings(ws)
    ensures forall w :: w in r <==> w in mine || w in ws
    ensures forall w :: w in r ==>
      r[w] == (if w !in ws then mine[w]
               else if w in mine then UnionLocations(mine[w], theirs[w])
               else theirs[w])
    decreases |ws|
  {
    if |ws| == 0 then mine
    else
      var w := ws[0];
      assert forall v :: v in ws <==> v == w || v in ws[1..];
      assert w !in ws[1..];
      var next := if w !in mine then mine[w := theirs[w]] else mine[w := UnionLocations(mine[w], theirs[w])];
      MergeWords(next, theirs, ws[1..])
  }

  /** `r` holds exactly the words, locations and positions of `a` and `b`
      together. */
  ghost predicate IsUnion(r: Index, a: Index, b: Index)
  {
    && (forall w :: ContainsWord(r, w) <==> ContainsWord(a, w) || ContainsWord(b, w))
    && (forall w, l :: ContainsLocation(r, w, l) <==> ContainsLocation(a, w, l) || ContainsLocation(b, w, l))
    && (forall w, l, p: nat :: ContainsPosition(r, w, l, p) <==> ContainsPosition(a, w, l, p) || ContainsPosition(b, w, l, p))
  }

  /** One word's entry after the word loop holds the union of both. */
  lemma MergedWordEntry(self: Index, other: Index, keys: seq<string>,
                        r: map<string, map<string, set<nat>>>, w: string)
    requires forall v :: v in keys <==> v in other.words
    requires DistinctStrings(keys)
    requires r == MergeWords(self.words, other.words, keys)
    ensures w in r <==> ContainsWord(self, w) || ContainsWord(other, w)
    ensures forall l :: (w in r && l in r[w]) <==> ContainsLocation(self, w, l) || ContainsLocation(other, w, l)
    ensures forall l, p: nat :: (w in r && l in r[w] && p in r[w][l]) <==>
      ContainsPosition(self, w, l, p) || ContainsPosition(other, w, l, p)
  {
    if w in r && w in keys && w in self.words {
      assert r[w] == UnionLocations(self.words[w], other.words[w]);
    }
  }

  /** The word loop of the merge, paired with the given counts. */
  function MergedWords(self: Index, other: Index, counts: map<string, nat>): (r: Index)
    ensures r.counts == counts
    ensures IsUnion(r, self, other)
  {
    var keys := SortedKeys(other.words.Keys);
    SortedDistinct(keys);
    var words := MergeWords(self.words, other.words, keys);
    forall w
      ensures w in words <==> ContainsWord(self, w) || ContainsWord(other, w)
      ensures forall l :: (w in words && l in words[w]) <==> ContainsLocation(self, w, l) || ContainsLocation(other, w, l)
      ensures forall l, p: nat :: (w in words && l in words[w] && p in words[w][l]) <==>
        ContainsPosition(self, w, l, p) || ContainsPosition(other, w, l, p)
    {
      MergedWordEntry(self, other, keys, words, w);
    }
    Index(words, counts)
  }

  /** The count loop exactly as written: the test is whether the location is
      a key of the merged WORD map. `None` is the NullPointerException of
      unboxing a missing count of this index. */
  function MergeCountsAsWritten(words: map<string, map<string, set<nat>>>, mine: map<string, nat>,
                                theirs: map<string, nat>, keys: seq<string>): (r: Option<map<string, nat>>)
    requires forall c :: c in keys ==> c in theirs
    requires DistinctStrings(keys)
    ensures r.None? <==> exists c :: c in keys && c in words && c !in mine
    ensures r.Some? ==> forall c :: c in r.value <==> c in mine || c in keys
    ensures r.Some? ==> forall c :: c in r.value ==>
      r.value[c] == (if c !in keys then mine[c]
                     else if c in words then mine[c] + theirs[c]
                     else theirs[c])
    decreases |keys|
  {
    if |keys| == 0 then Some(mine)
    else
      var c := keys[0];
      assert forall d :: d in keys <==> d == c || d in keys[1..];
      assert c !in keys[1..];
      if c !in words then
        MergeCountsAsWritten(words, mine[c := theirs[c]], theirs, keys[1..])
      else if c !in mine then
        None
      else
        MergeCountsAsWritten(words, mine[c := mine[c] + theirs[c]], theirs, keys[1..])
  }

  /** `addAll(other)` as written: positions are unioned; a location of the
      other index that is not a word key takes the other index's count, one
      that is a word key gets the sum, and throws if this index has no count
      for it. */
  function AddAllIndex(self: Index, other: Index): (r: Outcome)
    ensures r.NullPointer? <==>
      exists c :: c in other.counts && (c in self.words || c in other.words) && c !in self.counts
    ensures r.Merged? ==> IsUnion(r.index, self, other)
    ensures r.Merged? ==> forall c :: c in r.index.counts <==> c in self.counts || c in other.counts
    ensures r.Merged? ==> forall c :: c in other.counts ==>
      r.index.counts[c] == (if ContainsWord(r.index, c) then self.counts[c] + other.counts[c] else other.counts[c])
    ensures r.Merged? ==> forall c :: c in self.counts && c !in other.counts ==> r.index.counts[c] == self.counts[c]
  {
    var words := MergedWords(self, other, map[]).words;
    var keys := SortedKeys(other.counts.Keys);
    SortedDistinct(keys);
    assert forall c :: c in keys <==> c in other.counts;
    assert forall c :: c in words <==> c in self.words || c in other.words;
    match MergeCountsAsWritten(words, self.counts, other.counts, keys)
    case None => NullPointer
    case Some(counts) =>
      var r := MergedWords(self, other, counts);
      assert r.words == words;
      Merged(r)
  }

  /** The count loop with the evidently intended test `count.containsKey`:
      a location this index already counts is summed, a new one copied. */
  function MergeCounts(mine: map<string, nat>, theirs: map<string, nat>, keys: seq<string>): (r: map<string, nat>)
    requires forall c :: c in keys ==> c in theirs
    requires DistinctStrings(keys)
    ensures forall c :: c in r <==> c in mine || c in keys
    ensures forall c :: c in r ==>
      r[c] == (if c !in keys then mine[c] else if c in mine then mine[c] + theirs[c] else theirs[c])
    decreases |keys|
  {
    if |keys| == 0 then mine
    else
      var c := keys[0];
      assert forall d :: d in keys <==> d == c || d in keys[1..];
      assert c !in keys[1..];
      var next := if c in mine then mine[c := mine[c] + theirs[c]] else mine[c := theirs[c]];
      MergeCounts(next, theirs, keys[1..])
  }

  /** `addAll(other)` with the count test corrected: positions are unioned
      and every location's count is the sum of the two. */
  function AddAllIndexCorrected(self: Index, other: Index): (r: Index)
    ensures IsUnion(r, self, other)
    ensures forall c :: c in r.counts <==> c in self.counts || c in other.counts
    ensures forall c :: c in r.counts ==> r.counts[c] == Count(self, c) + Count(other, c)
  {
    var keys := SortedKeys(other.counts.Keys);
    SortedDistinct(keys);
    MergedWords(self, other, MergeCounts(self.counts, other.counts, keys))
  }

  /** Two indexes share no (word, position) pair at any location, as when
      they index different files. */
  ghost predicate PairDisjoint(a: Index, b: Index)
  {
    forall l :: Pairs(a, l) !! Pairs(b, l)
  }

  lemma PairsOfUnion(r: Index, a: Index, b: Index, l: string)
    requires IsUnion(r, a, b)
    ensures Pairs(r, l) == Pairs(a, l) + Pairs(b, l)
  {
    PairsMembership(r, l);
    PairsMembership(a, l);
    PairsMembership(b, l);
    forall pair | pair in Pairs(r, l)
      ensures pair in Pairs(a, l) + Pairs(b, l)
    {
      assert ContainsPosition(r, pair.0, l, pair.1);
    }
    forall pair | pair in Pairs(a, l) + Pairs(b, l)
      ensures pair in Pairs(r, l)
    {
      assert ContainsPosition(a, pair.0, l, pair.1) || ContainsPosition(b, pair.0, l, pair.1);
    }
  }

  /** Every location counted after the corrected merge holds the sum of two
      disjoint pair sets, so its count is the number of pairs there. */
  lemma MergedCountsMatch(self: Index, other: Index, l: string)
    requires Consistent(self) && Consistent(other)
    requires PairDisjoint(self, other)
    requires l in AddAllIndexCorrected(self, other).counts
    ensures AddAllIndexCorrected(self, other).counts[l] == |Pairs(AddAllIndexCorrected(self, other), l)|
    ensures AddAllIndexCorrected(self, other).counts[l] > 0
  {
    var r := AddAllIndexCorrected(self, other);
    PairsOfUnion(r, self, other, l);
    PairsLocated(self, l);
    PairsLocated(other, l);
    assert Pairs(self, l) !! Pairs(other, l);
  }

  /** The corrected merge keeps the count invariant when the two indexes
      record disjoint (word, position) pairs. */
  lemma MergeConsistent(self: Index, other: Index)
    requires Consistent(self) && Consistent(other)
    requires PairDisjoint(self, other)
    ensures Consistent(AddAllIndexCorrected(self, other))
  {
    var r := AddAllIndexCorrected(self, other);
    forall l | l in r.counts
      ensures r.counts[l] == |Pairs(r, l)| && r.counts[l] > 0
    {
      MergedCountsMatch(self, other, l);
    }
    forall w, l | w in r.words && l in r.words[w]
      ensures l in r.counts
    {
      assert ContainsLocation(r, w, l);
      if ContainsLocation(self, w, l) {
        assert l in self.counts;
      } else {
        assert l in other.counts;
      }
    }
  }

  /** This index records "dog" at position 1 of "f". */
  function DogAtF(): Index
  {
    Index(map["dog" := map["f" := {1}]], map["f" := 1])
  }

  /** That index records "cat" at position 2 of "f". */
  function CatAtF(): Index
  {
    Index(map["cat" := map["f" := {2}]], map["f" := 1])
  }

  lemma ExampleInputs()
    ensures Consistent(DogAtF()) && Consistent(CatAtF()) && PairDisjoint(DogAtF(), CatAtF())
    ensures Pairs(DogAtF(), "f") == {("dog", 1)} && Pairs(CatAtF(), "f") == {("cat", 2)}
  {
    var self, other := DogAtF(), CatAtF();
    PairsMembership(self, "f");
    PairsMembership(other, "f");
    assert ContainsPosition(self, "dog", "f", 1);
    assert ContainsPosition(other, "cat", "f", 2);
    assert Pairs(self, "f") == {("dog", 1)};
    assert Pairs(other, "f") == {("cat", 2)};
    assert self.counts.Keys == {"f"} && other.counts.Keys == {"f"};
    forall l
      ensures Pairs(self, l) !! Pairs(other, l)
    {
      PairsMembership(self, l);
      PairsMembership(other, l);
    }
  }

  /** A location both indexes count under different words, and that is not
      itself a word: the code as written overwrites this index's count with
      the other's instead of summing, so whenever the merge does not throw
      the merged count falls short of the pairs recorded there and the
      invariant breaks. */
  lemma AsWrittenUndercounts(self: Index, other: Index, c: string)
    requires Consistent(self) && Consistent(other) && PairDisjoint(self, other)
    requires c in self.counts && c in other.counts
    requires !ContainsWord(self, c) && !ContainsWord(other, c)
    requires AddAllIndex(self, other).Merged?
    ensures AddAllIndex(self, other).index.counts[c] == other.counts[c]
    ensures AddAllIndex(self, other).index.counts[c] < |Pairs(AddAllIndex(self, other).index, c)|
    ensures !Consistent(AddAllIndex(self, other).index)
  {
    var r := AddAllIndex(self, other);
    assert !ContainsWord(r.index, c);
    PairsOfUnion(r.index, self, other, c);
    assert Pairs(self, c) !! Pairs(other, c);
    assert |Pairs(r.index, c)| == self.counts[c] + other.counts[c];
  }

  /** The smallest instance: "dog" at f:1 here, "cat" at f:2 there, each
      index counting one word at f. The merge as written records one word at
      f where two are indexed. */
  lemma AsWrittenLosesCount(self: Index, other: Index)
    requires self == DogAtF() && other == CatAtF()
    ensures AddAllIndex(self, other).Merged?
    ensures AddAllIndex(self, other).index.counts["f"] == 1
    ensures |Pairs(AddAllIndex(self, other).index, "f")| == 2
  {
    ExampleInputs();
    assert forall d :: d in other.counts ==> d == "f";
    assert AddAllIndex(self, other).Merged?;
    AsWrittenUndercounts(self, other, "f");
    PairsOfUnion(AddAllIndex(self, other).index, self, other, "f");
  }

  /** A location that is also a word key, missing from this index's counts,
      makes the count loop throw. */
  lemma AsWrittenThrows()
    ensures var other := Index(map["a" := map["a" := {1}]], map["a" := 1]);
            Consistent(other) && AddAllIndex(Empty(), other) == NullPointer
  {
    var other := Index(map["a" := map["a" := {1}]], map["a" := 1]);
    PairsMembership(other, "a");
    assert Pairs(other, "a") == {("a", 1)} by {
      assert ContainsPosition(other, "a", "a", 1);
    }
  }

  /** When the other index brings only new locations that are not word keys
      (the multithreaded build merges one new file at a time), the code as
      written and the corrected merge agree. */
  lemma AsWrittenAgreesOnNewLocations(self: Index, other: Index)
    requires forall c :: c in other.counts ==> c !in self.counts && c !in self.words && c !in other.words
    ensures AddAllIndex(self, other) == Merged(AddAllIndexCorrected(self, other))
  {
    var a := AddAllIndex(self, other);
    var b := AddAllIndexCorrected(self, other);
    assert a.Merged?;
    assert a.index.words == b.words;
    assert a.index.counts == b.counts;
  }
}
