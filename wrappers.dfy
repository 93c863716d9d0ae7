/** Small value types and sequence facts shared by the plugins. */
module Wrappers {

  datatype Option<+T> = None | Some(value: T)

  /** No element occurs twice. */
  predicate Distinct<T(==)>(s: seq<T>) {
    forall i, j :: 0 <= i < j < |s| ==> s[i] != s[j]
  }

  /** `List.RemoveAt(i)`: the sequence without its element at index i. */
  function RemoveAt<T>(s: seq<T>, i: nat): (r: seq<T>)
    requires i < |s|
    ensures |r| == |s| - 1
    ensures forall k :: 0 <= k < i ==> r[k] == s[k]
    ensures forall k :: i <= k < |r| ==> r[k] == s[k + 1]
  {
    s[..i] + s[i + 1..]
  }

  /** Removing the element at i takes exactly one copy of it out of the multiset. */
  lemma RemoveAtMultiset<T>(s: seq<T>, i: nat)
    requires i < |s|
    ensures multiset(RemoveAt(s, i)) + multiset{s[i]} == multiset(s)
  {
    assert s == s[..i] + [s[i]] + s[i + 1..];
  }

  /** `List.IndexOf(x)`: the position of the first occurrence of x. */
  function IndexOf<T(==)>(s: seq<T>, x: T): (r: nat)
    requires x in s
    ensures r < |s| && s[r] == x && x !in s[..r]
  {
    if s[0] == x then 0
    else
      var k := IndexOf(s[1..], x);
      assert s[1..][..k] == s[1..k + 1];
      k + 1
  }

  /** In a sequence without repetitions, an element's first occurrence is its only one. */
  lemma IndexOfDistinct<T>(s: seq<T>, i: nat)
    requires Distinct(s) && i < |s|
    ensures IndexOf(s, s[i]) == i
  {
  }

  /** An element met before position i is first met before i. */
  lemma IndexOfBefore<T>(s: seq<T>, x: T, i: nat)
    requires i <= |s| && x in s[..i]
    ensures IndexOf(s, x) < i
  {
    var r := IndexOf(s, x);
    var k :| 0 <= k < i && s[..i][k] == x;
    assert forall j :: 0 <= j < r ==> s[..r][j] == s[j];
    assert r <= k;
  }

  /** An element met at i and not before is first met at i. */
  lemma IndexOfAt<T>(s: seq<T>, i: nat)
    requires i < |s| && s[i] !in s[..i]
    ensures IndexOf(s, s[i]) == i
  {
    var r := IndexOf(s, s[i]);
    assert forall j :: 0 <= j < r ==> s[..r][j] == s[j];
    assert forall j :: 0 <= j < i ==> s[..i][j] == s[j];
  }

  /** Being free of repetitions is the same as every multiplicity being at most one. */
  lemma {:induction false} DistinctMultiset<T>(s: seq<T>)
    ensures Distinct(s) <==> forall x :: multiset(s)[x] <= 1
  {
    if s == [] {
    } else {
      var t := s[..|s| - 1];
      var last := s[|s| - 1];
      assert s == t + [last];
      DistinctMultiset(t);
      if Distinct(s) {
        assert Distinct(t);
        assert last !in t by {
          assert forall k :: 0 <= k < |t| ==> t[k] == s[k] != s[|s| - 1];
        }
        forall x ensures multiset(s)[x] <= 1 {
          assert multiset(s)[x] == multiset(t)[x] + (if x == last then 1 else 0);
        }
      }
      if forall x :: multiset(s)[x] <= 1 {
        forall x ensures multiset(t)[x] <= 1 {
          assert multiset(s)[x] == multiset(t)[x] + (if x == last then 1 else 0);
        }
        assert multiset(t)[last] == 0 by {
          assert multiset(s)[last] == multiset(t)[last] + 1;
        }
        forall i, j | 0 <= i < j < |s| ensures s[i] != s[j] {
          if j == |s| - 1 {
            assert s[i] in t;
          } else {
            assert t[i] == s[i] && t[j] == s[j];
          }
        }
      }
    }
  }
}
