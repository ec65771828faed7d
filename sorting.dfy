/** Deterministic ordering of string keys: the lexicographic order that
    `sort.Strings` uses, an in-place sort over an array of strings, and a
    reference definition of "the keys of a map in ascending order". */
module Sorting {

  /** Strict lexicographic order, character by character; a proper prefix
      comes before every longer string that extends it. */
  predicate Less(a: string, b: string): (r: bool)
    ensures r ==> |b| > 0 && a != b
  {
    |b| > 0 && (|a| == 0 || a[0] < b[0] || (a[0] == b[0] && Less(a[1..], b[1..])))
  }

  /** `a` comes before `b` exactly when, at the first position where they
      differ, `a` has the smaller character or has already ended. */
  lemma {:induction false} LessFirstDifference(a: string, b: string)
    ensures Less(a, b) <==>
      exists k :: 0 <= k <= |a| && k < |b| && a[..k] == b[..k] && (k == |a| || a[k] < b[k])
  {
    if |b| == 0 {
    } else if |a| == 0 {
      assert a[..0] == b[..0];
    } else if a[0] < b[0] {
      assert a[..0] == b[..0];
    } else if a[0] > b[0] {
      forall k | 0 < k <= |a| && k < |b| ensures a[..k] != b[..k] {
        assert a[..k][0] != b[..k][0];
      }
    } else {
      LessFirstDifference(a[1..], b[1..]);
      if Less(a, b) {
        var k :| 0 <= k <= |a[1..]| && k < |b[1..]| && a[1..][..k] == b[1..][..k]
          && (k == |a[1..]| || a[1..][k] < b[1..][k]);
        assert a[..k + 1] == [a[0]] + a[1..][..k];
        assert b[..k + 1] == [b[0]] + b[1..][..k];
      }
      if exists k :: 0 <= k <= |a| && k < |b| && a[..k] == b[..k] && (k == |a| || a[k] < b[k]) {
        var k :| 0 <= k <= |a| && k < |b| && a[..k] == b[..k] && (k == |a| || a[k] < b[k]);
        assert k > 0;
        assert a[1..][..k - 1] == a[..k][1..] && b[1..][..k - 1] == b[..k][1..];
      }
    }
  }

  predicate LessEq(a: string, b: string)
  {
    a == b || Less(a, b)
  }

  lemma {:induction false} LessIrreflexive(a: string)
    ensures !Less(a, a)
  {
    if |a| > 0 {
      LessIrreflexive(a[1..]);
    }
  }

  lemma {:induction false} LessTransitive(a: string, b: string, c: string)
    requires Less(a, b) && Less(b, c)
    ensures Less(a, c)
  {
    if |a| > 0 && a[0] == b[0] && b[0] == c[0] {
      LessTransitive(a[1..], b[1..], c[1..]);
    }
  }

  /** Any two different strings are ordered one way or the other. */
  lemma {:induction false} LessTotal(a: string, b: string)
    requires a != b
    ensures Less(a, b) || Less(b, a)
  {
    if |a| > 0 && |b| > 0 && a[0] == b[0] {
      assert a == [a[0]] + a[1..] && b == [b[0]] + b[1..];
      LessTotal(a[1..], b[1..]);
    }
  }

  lemma LessAsymmetric(a: string, b: string)
    requires Less(a, b)
    ensures !Less(b, a)
  {
    if Less(b, a) {
      LessTransitive(a, b, a);
      LessIrreflexive(a);
    }
  }

  ghost predicate StrictlySorted(s: seq<string>)
  {
    forall i, j :: 0 <= i < j < |s| ==> Less(s[i], s[j])
  }

  ghost predicate AdjacentSorted(s: seq<string>)
  {
    forall i :: 0 < i < |s| ==> LessEq(s[i - 1], s[i])
  }

  ghost predicate Distinct(s: seq<string>)
  {
    forall i, j :: 0 <= i < j < |s| ==> s[i] != s[j]
  }

  lemma {:induction false} ChainLess(s: seq<string>, i: int, j: int)
    requires forall k :: 0 < k < |s| ==> Less(s[k - 1], s[k])
    requires 0 <= i < j < |s|
    ensures Less(s[i], s[j])
    decreases j - i
  {
    if i + 1 < j {
      ChainLess(s, i, j - 1);
      LessTransitive(s[i], s[j - 1], s[j]);
    }
  }

  /** A sequence without repetitions whose neighbours are in order is
      strictly sorted as a whole. */
  lemma DistinctAdjacentSorted(s: seq<string>)
    requires Distinct(s) && AdjacentSorted(s)
    ensures StrictlySorted(s)
  {
    assert forall k :: 0 < k < |s| ==> Less(s[k - 1], s[k]) by {
      forall k | 0 < k < |s| ensures Less(s[k - 1], s[k]) {
        assert s[k - 1] != s[k];
      }
    }
    forall i, j | 0 <= i < j < |s| ensures Less(s[i], s[j]) {
      ChainLess(s, i, j);
    }
  }

  /** A sequence repeats no element exactly when no element occurs twice
      in its multiset. */
  lemma {:induction false} DistinctMultiplicity(s: seq<string>)
    ensures Distinct(s) <==> forall x :: multiset(s)[x] <= 1
  {
    if s != [] {
      var t := s[1..];
      DistinctMultiplicity(t);
      assert s == [s[0]] + t;
      assert multiset(s) == multiset{s[0]} + multiset(t);
      if Distinct(s) {
        forall j | 0 <= j < |t| ensures t[j] != s[0] {
          assert t[j] == s[j + 1];
        }
        assert multiset(t)[s[0]] == 0;
        assert Distinct(t) by {
          forall i, j | 0 <= i < j < |t| ensures t[i] != t[j] {
            assert t[i] == s[i + 1] && t[j] == s[j + 1];
          }
        }
      }
      if forall x :: multiset(s)[x] <= 1 {
        assert multiset(t)[s[0]] == 0;
        assert forall x :: multiset(t)[x] <= multiset(s)[x];
        assert Distinct(t);
        forall i, j | 0 <= i < j < |s| ensures s[i] != s[j] {
          if i == 0 {
            assert s[j] == t[j - 1];
            assert s[j] in t;
          } else {
            assert s[i] == t[i - 1] && s[j] == t[j - 1];
          }
        }
      }
    }
  }

  lemma LessEqAntisymmetric(a: string, b: string)
    requires LessEq(a, b) && LessEq(b, a)
    ensures a == b
  {
    if a != b {
      LessAsymmetric(a, b);
    }
  }

  /** Two strictly sorted sequences over the same elements are equal: the
      ascending enumeration of a set of keys is unique. */
  lemma {:induction false} StrictlySortedUnique(s: seq<string>, t: seq<string>)
    requires StrictlySorted(s) && StrictlySorted(t)
    requires forall k :: k in s <==> k in t
    ensures s == t
    decreases |s|
  {
    assert s != [] ==> s[0] in t;
    assert t != [] ==> t[0] in s;
    if s != [] && t != [] {
      assert s[0] == t[0] by {
        assert t[0] in t && s[0] in s;
        var i :| 0 <= i < |s| && s[i] == t[0];
        var j :| 0 <= j < |t| && t[j] == s[0];
        assert LessEq(s[0], s[i]) && LessEq(t[0], t[j]);
        LessEqAntisymmetric(s[0], t[0]);
      }
      LessIrreflexive(s[0]);
      forall k ensures k in s[1..] <==> k in t[1..] {
        if k in s[1..] {
          var i :| 0 <= i < |s[1..]| && s[1..][i] == k;
          assert Less(s[0], s[i + 1]);
          assert k in t;
          var j :| 0 <= j < |t| && t[j] == k;
          assert j != 0;
          assert t[1..][j - 1] == k;
        }
        if k in t[1..] {
          var j :| 0 <= j < |t[1..]| && t[1..][j] == k;
          assert Less(t[0], t[j + 1]);
          assert k in s;
          var i :| 0 <= i < |s| && s[i] == k;
          assert i != 0;
          assert s[1..][i - 1] == k;
        }
      }
      StrictlySortedUnique(s[1..], t[1..]);
      assert s == [s[0]] + s[1..] && t == [t[0]] + t[1..];
    }
  }

  ghost predicate IsMinimum(m: string, keys: set<string>)
  {
    m in keys && forall k :: k in keys && k != m ==> Less(m, k)
  }

  lemma {:induction false} MinimumExists(keys: set<string>)
    requires keys != {}
    ensures exists m :: IsMinimum(m, keys)
    decreases |keys|
  {
    var x :| x in keys;
    if keys == {x} {
      assert IsMinimum(x, keys);
    } else {
      var rest := keys - {x};
      MinimumExists(rest);
      var m :| IsMinimum(m, rest);
      if Less(m, x) {
        assert IsMinimum(m, keys);
      } else {
        LessTotal(m, x);
        forall k | k in keys && k != x ensures Less(x, k) {
          if k != m {
            LessTransitive(x, m, k);
          }
        }
        assert IsMinimum(x, keys);
      }
    }
  }

  /** Reference definition: the keys in ascending order, built by taking
      the least remaining key again and again. */
  ghost function SortedKeys(keys: set<string>): (s: seq<string>)
    ensures |s| == |keys|
    ensures forall k :: k in s <==> k in keys
    decreases |keys|
  {
    if keys == {} then []
    else
      MinimumExists(keys);
      var m :| IsMinimum(m, keys);
      [m] + SortedKeys(keys - {m})
  }

  lemma {:induction false} SortedKeysSorted(keys: set<string>)
    ensures StrictlySorted(SortedKeys(keys))
    decreases |keys|
  {
    if keys != {} {
      var s := SortedKeys(keys);
      var m := s[0];
      assert IsMinimum(m, keys) && s[1..] == SortedKeys(keys - {m});
      SortedKeysSorted(keys - {m});
      forall i, j | 0 <= i < j < |s| ensures Less(s[i], s[j]) {
        if i == 0 {
          assert s[j] in s[1..];
        } else {
          assert s[i] == s[1..][i - 1] && s[j] == s[1..][j - 1];
        }
      }
    }
  }

  /** Ascending sort in place, as `sort.Strings` does: the result is
      ordered and a permutation of the input. */
  method SortStrings(a: array<string>)
    modifies a
    ensures AdjacentSorted(a[..])
    ensures multiset(a[..]) == old(multiset(a[..]))
  {
    var i := 0;
    while i < a.Length
      invariant 0 <= i <= a.Length
      invariant forall k :: 0 < k < i ==> LessEq(a[k - 1], a[k])
      invariant multiset(a[..]) == old(multiset(a[..]))
    {
      InsertIntoPrefix(a, i);
      i := i + 1;
    }
  }

  /** Moves `a[i]` left into the ordered prefix `a[..i]`, one swap at a time. */
  method InsertIntoPrefix(a: array<string>, i: nat)
    requires i < a.Length
    requires forall k :: 0 < k < i ==> LessEq(a[k - 1], a[k])
    modifies a
    ensures forall k :: 0 < k <= i ==> LessEq(a[k - 1], a[k])
    ensures multiset(a[..]) == old(multiset(a[..]))
  {
    var j := i;
    while j > 0 && Less(a[j], a[j - 1])
      invariant 0 <= j <= i
      invariant forall k :: 0 < k < j ==> LessEq(a[k - 1], a[k])
      invariant forall k :: j < k <= i ==> LessEq(a[k - 1], a[k])
      invariant 0 < j < i ==> LessEq(a[j - 1], a[j + 1])
      invariant multiset(a[..]) == old(multiset(a[..]))
    {
      SwapAdjacent(a, j);
      j := j - 1;
    }
    if j > 0 && a[j - 1] != a[j] {
      LessTotal(a[j - 1], a[j]);
    }
  }

  method SwapAdjacent(a: array<string>, j: nat)
    requires 0 < j < a.Length
    modifies a
    ensures a[j - 1] == old(a[j]) && a[j] == old(a[j - 1])
    ensures forall k :: 0 <= k < a.Length && k != j - 1 && k != j ==> a[k] == old(a[k])
    ensures multiset(a[..]) == old(multiset(a[..]))
  {
    a[j - 1], a[j] := a[j], a[j - 1];
  }
}
