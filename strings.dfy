/** The few operations of Go's `strings` package that the output stage
    uses, on strings as sequences of characters. */
module Strings {

  /** Position of the last occurrence of `c` in `s`, or -1 when `c` does
      not occur (`strings.LastIndex` with a one-character needle). */
  function LastIndex(s: string, c: char): (i: int)
    ensures -1 <= i < |s|
    ensures i == -1 <==> c !in s
    ensures 0 <= i ==> s[i] == c && c !in s[i + 1..]
  {
    if |s| == 0 then -1
    else if s[|s| - 1] == c then |s| - 1
    else
      assert s[..|s| - 1] + [s[|s| - 1]] == s;
      LastIndex(s[..|s| - 1], c)
  }

  /** `strings.HasPrefix`: `s` starts with `prefix`, character by character. */
  predicate HasPrefix(s: string, prefix: string): (r: bool)
    ensures r <==> |prefix| <= |s| && forall i :: 0 <= i < |prefix| ==> s[i] == prefix[i]
  {
    |prefix| <= |s| && s[..|prefix|] == prefix
  }

  /** `s` with every character of `bad` removed and the order of the
      others kept; `strings.Replace(s, c, "", -1)` is `Delete(s, {c})`. */
  function Delete(s: string, bad: set<char>): (r: string)
    ensures |r| <= |s|
    ensures forall x :: x in r <==> x in s && x !in bad
  {
    if s == [] then []
    else
      assert s == [s[0]] + s[1..];
      (if s[0] in bad then [] else [s[0]]) + Delete(s[1..], bad)
  }

  /** Every character outside `bad` keeps its number of occurrences; the
      characters of `bad` are all gone. */
  lemma {:induction false} DeleteCount(s: string, bad: set<char>, x: char)
    ensures multiset(Delete(s, bad))[x] == if x in bad then 0 else multiset(s)[x]
  {
    if s != [] {
      DeleteCount(s[1..], bad, x);
      var head := if s[0] in bad then [] else [s[0]];
      assert Delete(s, bad) == head + Delete(s[1..], bad);
      assert s == [s[0]] + s[1..];
    }
  }

  lemma {:induction false} DeleteAppend(s: string, t: string, bad: set<char>)
    ensures Delete(s + t, bad) == Delete(s, bad) + Delete(t, bad)
  {
    if s != [] {
      var head := if s[0] in bad then [] else [s[0]];
      assert (s + t)[0] == s[0] && (s + t)[1..] == s[1..] + t;
      calc {
        Delete(s + t, bad);
        head + Delete(s[1..] + t, bad);
        { DeleteAppend(s[1..], t, bad); }
        head + (Delete(s[1..], bad) + Delete(t, bad));
        (head + Delete(s[1..], bad)) + Delete(t, bad);
      }
    } else {
      assert s + t == t;
    }
  }

  /** Deleting one set of characters and then another is deleting both. */
  lemma {:induction false} DeleteTwice(s: string, a: set<char>, b: set<char>)
    ensures Delete(Delete(s, a), b) == Delete(s, a + b)
  {
    if s != [] {
      DeleteTwice(s[1..], a, b);
      var head := if s[0] in a then [] else [s[0]];
      DeleteAppend(head, Delete(s[1..], a), b);
      assert Delete(head, b) == if s[0] in a + b then [] else [s[0]];
    }
  }

  /** A string with no character of `bad` is left as it is. */
  lemma {:induction false} DeleteNothing(s: string, bad: set<char>)
    requires forall i :: 0 <= i < |s| ==> s[i] !in bad
    ensures Delete(s, bad) == s
  {
    if s != [] {
      DeleteNothing(s[1..], bad);
    }
  }

  /** Deleting is idempotent. */
  lemma DeleteIdempotent(s: string, bad: set<char>)
    ensures Delete(Delete(s, bad), bad) == Delete(s, bad)
  {
    DeleteTwice(s, bad, bad);
    assert bad + bad == bad;
  }
}
