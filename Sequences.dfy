/** Generic facts about sequences used to state list-order properties. */
module Sequences {

  /** `s` can be obtained from `t` by deleting elements, keeping the order. */
  predicate IsSubsequence<T(==)>(s: seq<T>, t: seq<T>)
    decreases |t|
  {
    if s == [] then true
    else if t == [] then false
    else (s[0] == t[0] && IsSubsequence(s[1..], t[1..])) || IsSubsequence(s, t[1..])
  }

  /** Every element of a subsequence occurs in the longer sequence. */
  lemma {:induction false} SubsequenceElements<T>(s: seq<T>, t: seq<T>, x: T)
    requires IsSubsequence(s, t) && x in s
    ensures x in t
    decreases |t|
  {
    if s[0] == t[0] && IsSubsequence(s[1..], t[1..]) {
      if x != s[0] {
        assert x in s[1..];
        SubsequenceElements(s[1..], t[1..], x);
      }
    } else {
      SubsequenceElements(s, t[1..], x);
    }
  }

  /** A subsequence of a sequence without repetitions has no repetitions either. */
  lemma {:induction false} SubsequenceNoDuplicates<T>(s: seq<T>, t: seq<T>)
    requires IsSubsequence(s, t) && NoDuplicates(t)
    ensures NoDuplicates(s)
    decreases |t|
  {
    if s != [] {
      if s[0] == t[0] && IsSubsequence(s[1..], t[1..]) {
        SubsequenceNoDuplicates(s[1..], t[1..]);
        forall j | 0 < j < |s| ensures s[0] != s[j] {
          assert s[j] == s[1..][j - 1];
          SubsequenceElements(s[1..], t[1..], s[j]);
          var m :| 0 <= m < |t[1..]| && t[1..][m] == s[j];
          assert t[m + 1] == s[j];
        }
      } else {
        SubsequenceNoDuplicates(s, t[1..]);
      }
    }
  }

  /** No element occurs twice. */
  predicate NoDuplicates<T(==)>(s: seq<T>) {
    forall i, j :: 0 <= i < j < |s| ==> s[i] != s[j]
  }

  /** The set of elements of a sequence. */
  function Elements<T>(s: seq<T>): set<T> {
    set x | x in s
  }

  /** A sequence without repetitions has as many elements as its length. */
  lemma {:induction false} NoDuplicatesCardinality<T>(s: seq<T>)
    requires NoDuplicates(s)
    ensures |Elements(s)| == |s|
    decreases |s|
  {
    if |s| > 0 {
      var rest := s[1..];
      assert NoDuplicates(rest) by {
        forall i, j | 0 <= i < j < |rest| ensures rest[i] != rest[j] {
          assert rest[i] == s[i + 1] && rest[j] == s[j + 1];
        }
      }
      NoDuplicatesCardinality(rest);
      assert Elements(s) == {s[0]} + Elements(rest) by {
        assert forall x :: x in s <==> x == s[0] || x in rest;
      }
      assert s[0] !in Elements(rest) by {
        forall j | 0 <= j < |rest| ensures rest[j] != s[0] {
          assert rest[j] == s[j + 1];
        }
      }
    }
  }
}
