/**
 * Nominations as two parallel lists, a map and the slot of the player who
 * nominated it at the same index, shared by the map chooser and the
 * nominations plugin.
 */
module Owned {
  import opened Wrappers

  /** The position of the last occurrence of x. */
  function LastIndexOf<T(==)>(s: seq<T>, x: T): (r: nat)
    requires x in s
    ensures r < |s| && s[r] == x
    ensures forall k :: r < k < |s| ==> s[k] != x
  {
    if s[|s| - 1] == x then |s| - 1
    else
      assert x in s[..|s| - 1] by {
        var k :| 0 <= k < |s| && s[k] == x;
        assert s[..|s| - 1][k] == x;
      }
      LastIndexOf(s[..|s| - 1], x)
  }

  /** Without repetitions the last occurrence is the first. */
  lemma LastIndexOfDistinct<T>(s: seq<T>, x: T)
    requires Distinct(s) && x in s
    ensures LastIndexOf(s, x) == IndexOf(s, x)
  {
    IndexOfDistinct(s, LastIndexOf(s, x));
  }

  /**
   * The disconnect cleanup: scanning the owners from the back, the first entry owned by the slot
   * (its last occurrence) is removed from both lists and the scan stops; the other entries keep
   * their order. A slot owning nothing leaves both lists as they are.
   */
  method RemoveOwned(maps: seq<string>, owners: seq<int>, slot: int)
    returns (keptMaps: seq<string>, keptOwners: seq<int>, removed: Option<string>)
    requires |maps| == |owners|
    ensures slot !in owners ==> removed == None && keptMaps == maps && keptOwners == owners
    ensures slot in owners ==>
              var i := LastIndexOf(owners, slot);
              removed == Some(maps[i]) && keptMaps == RemoveAt(maps, i) && keptOwners == RemoveAt(owners, i)
  {
    keptMaps, keptOwners, removed := maps, owners, None;
    var i := |owners|;
    while i > 0
      invariant 0 <= i <= |owners|
      invariant forall j :: i <= j < |owners| ==> owners[j] != slot
    {
      i := i - 1;
      if owners[i] == slot {
        removed := Some(maps[i]);
        keptMaps := RemoveAt(maps, i);
        keptOwners := RemoveAt(owners, i);
        return;
      }
    }
  }

  /** Removing an entry keeps a repetition-free list repetition-free, and the removed element is gone. */
  lemma RemoveAtDistinct<T>(s: seq<T>, i: nat)
    requires Distinct(s) && i < |s|
    ensures Distinct(RemoveAt(s, i))
    ensures s[i] !in RemoveAt(s, i)
    ensures forall x :: x in RemoveAt(s, i) ==> x in s
  {
    var r := RemoveAt(s, i);
    assert forall j :: 0 <= j < |r| ==> r[j] == s[if j < i then j else j + 1];
  }
}
