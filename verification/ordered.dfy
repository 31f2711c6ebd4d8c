/**
 * Iteration order of Java's sorted collections: a `TreeMap<String, _>` key set
 * or a `TreeSet<String>` iterates its strings in lexicographic order, and a
 * `TreeSet<Integer>` its integers in numeric order. These functions turn a
 * finite set into that sequence.
 */
module Ordered {
  import opened Strings

  predicate StrictlySorted(s: seq<string>)
  {
    forall i, j :: 0 <= i < j < |s| ==> Less(s[i], s[j])
  }

  predicate IsLeast(m: string, s: set<string>)
  {
    m in s && forall k :: k in s ==> k == m || Less(m, k)
  }

  lemma {:induction false} LeastExists(s: set<string>)
    requires s != {}
    ensures exists m :: IsLeast(m, s)
    decreases |s|
  {
    var x :| x in s;
    if s - {x} == {} {
      assert s == {x};
      assert IsLeast(x, s);
    } else {
      LeastExists(s - {x});
      var m :| IsLeast(m, s - {x});
      LessTotal(x, m);
      if Less(x, m) {
        forall k | k in s
          ensures k == x || Less(x, k)
        {
          if k != x {
            if k != m {
              LessTransitive(x, m, k);
            }
          }
        }
        assert IsLeast(x, s);
      } else {
        assert IsLeast(m, s);
      }
    }
  }

  lemma LeastUnique(s: set<string>)
    ensures forall a, b :: IsLeast(a, s) && IsLeast(b, s) ==> a == b
  {
    forall a, b | IsLeast(a, s) && IsLeast(b, s)
      ensures a == b
    {
      LessAsymmetric(a, b);
    }
  }

  /** The first string of `s` in lexicographic order. */
  function Least(s: set<string>): (m: string)
    requires s != {}
    ensures IsLeast(m, s)
  {
    LeastExists(s);
    LeastUnique(s);
    var m :| IsLeast(m, s);
    m
  }

  /** The strings of `s` in the order a `TreeSet<String>` iterates them. */
  function SortedKeys(s: set<string>): (r: seq<string>)
    ensures StrictlySorted(r)
    ensures forall k :: k in r <==> k in s
    ensures |r| == |s|
    decreases |s|
  {
    if s == {} then []
    else
      var m := Least(s);
      var rest := SortedKeys(s - {m});
      forall j | 0 <= j < |rest|
        ensures Less(m, rest[j])
      {
        assert rest[j] in rest;
      }
      [m] + rest
  }

  /** No string occurs twice. */
  predicate DistinctStrings(s: seq<string>)
  {
    forall i, j :: 0 <= i < j < |s| ==> s[i] != s[j]
  }

  /** A strictly sorted sequence has no repeated element. */
  lemma SortedDistinct(s: seq<string>)
    requires StrictlySorted(s)
    ensures forall i, j :: 0 <= i < |s| && 0 <= j < |s| && s[i] == s[j] ==> i == j
  {
    forall i, j | 0 <= i < |s| && 0 <= j < |s| && s[i] == s[j]
      ensures i == j
    {
      if i < j || j < i {
        LessIrreflexive(s[i]);
      }
    }
  }

  /** The two strictly sorted enumerations of one set coincide. */
  lemma {:induction false} SortedUnique(a: seq<string>, b: seq<string>)
    requires StrictlySorted(a) && StrictlySorted(b)
    requires forall k :: k in a <==> k in b
    ensures a == b
    decreases |a|
  {
    if |a| > 0 {
      assert a[0] in b;
    }
    if |b| > 0 {
      assert b[0] in a;
    }
    if |a| > 0 && |b| > 0 {
      if a[0] != b[0] {
        assert a[0] in b;
        assert b[0] in a;
        var i :| 0 <= i < |b| && b[i] == a[0];
        var j :| 0 <= j < |a| && a[j] == b[0];
        assert Less(b[0], a[0]) by {
          assert i > 0;
        }
        assert Less(a[0], b[0]) by {
          assert j > 0;
        }
        LessAsymmetric(a[0], b[0]);
      }
      SortedDistinct(a);
      SortedDistinct(b);
      forall k
        ensures k in a[1..] <==> k in b[1..]
      {
        if k in a[1..] {
          var i :| 1 <= i < |a| && a[i] == k;
          LessIrreflexive(a[0]);
          assert k in b;
          var j :| 0 <= j < |b| && b[j] == k;
          assert j != 0;
          assert b[1..][j - 1] == k;
        }
        if k in b[1..] {
          var i :| 1 <= i < |b| && b[i] == k;
          LessIrreflexive(b[0]);
          assert k in a;
          var j :| 0 <= j < |a| && a[j] == k;
          assert j != 0;
          assert a[1..][j - 1] == k;
        }
      }
      SortedUnique(a[1..], b[1..]);
      assert a == [a[0]] + a[1..];
      assert b == [b[0]] + b[1..];
    }
  }

  predicate NatsSorted(s: seq<nat>)
  {
    forall i, j :: 0 <= i < j < |s| ==> s[i] < s[j]
  }

  predicate IsLeastNat(m: nat, s: set<nat>)
  {
    m in s && forall k :: k in s ==> m <= k
  }

  lemma {:induction false} LeastNatExists(s: set<nat>)
    requires s != {}
    ensures exists m :: IsLeastNat(m, s)
    decreases |s|
  {
    var x :| x in s;
    if s - {x} == {} {
      assert s == {x};
      assert IsLeastNat(x, s);
    } else {
      LeastNatExists(s - {x});
      var m :| IsLeastNat(m, s - {x});
      var least := if x < m then x else m;
      forall k | k in s
        ensures least <= k
      {
        if k != x {
          assert k in s - {x};
        }
      }
      assert IsLeastNat(least, s);
    }
  }

  /** The positions of `s` in the order a `TreeSet<Integer>` iterates them. */
  function SortedNats(s: set<nat>): (r: seq<nat>)
    ensures NatsSorted(r)
    ensures forall k :: k in r <==> k in s
    ensures |r| == |s|
    decreases |s|
  {
    if s == {} then []
    else
      LeastNatExists(s);
      var m :| IsLeastNat(m, s);
      [m] + SortedNats(s - {m})
  }
}
