/** `ORDER BY created_at`: arranging row ids by their creation stamps, newest
    first (article lists) or oldest first (comment threads). SQL leaves the
    order of equal stamps open; this model breaks ties by id so that the
    result is a function of the rows, and its contracts promise only the
    order by stamp. */
module Ordering {

  /** Strict total order on the ids of `stamps`: by stamp in the requested
      direction, then by id. */
  predicate Precedes(stamps: map<nat, nat>, newestFirst: bool, a: nat, b: nat)
    requires a in stamps && b in stamps
  {
    if stamps[a] != stamps[b] then
      (if newestFirst then stamps[a] > stamps[b] else stamps[a] < stamps[b])
    else
      (if newestFirst then a > b else a < b)
  }

  /** `x` comes before every other id of `ks`. */
  predicate IsFirst(stamps: map<nat, nat>, newestFirst: bool, x: nat, ks: set<nat>)
    requires ks <= stamps.Keys
  {
    x in ks && forall y :: y in ks && y != x ==> Precedes(stamps, newestFirst, x, y)
  }

  /** Ids listed with non-increasing (newest first) or non-decreasing (oldest
      first) stamps. */
  ghost predicate SortedByStamp(stamps: map<nat, nat>, newestFirst: bool, ids: seq<nat>) {
    && (forall i :: 0 <= i < |ids| ==> ids[i] in stamps)
    && (forall i, j :: 0 <= i < j < |ids| ==>
          if newestFirst then stamps[ids[i]] >= stamps[ids[j]] else stamps[ids[i]] <= stamps[ids[j]])
  }

  /** An id stamped strictly later than every other listed id sits at the
      newest end of a sorted list: first when newest first, last when oldest
      first. */
  lemma LatestAtNewestEnd(stamps: map<nat, nat>, newestFirst: bool, ids: seq<nat>, top: nat)
    requires SortedByStamp(stamps, newestFirst, ids)
    requires top in ids
    requires forall i :: 0 <= i < |ids| && ids[i] != top ==> stamps[ids[i]] < stamps[top]
    ensures |ids| > 0
    ensures newestFirst ==> ids[0] == top
    ensures !newestFirst ==> ids[|ids| - 1] == top
  {
    var k :| 0 <= k < |ids| && ids[k] == top;
    var last := |ids| - 1;
    if newestFirst && 0 < k {
      assert stamps[ids[0]] >= stamps[ids[k]];
    }
    if !newestFirst && k < last {
      assert stamps[ids[k]] <= stamps[ids[last]];
    }
  }

  lemma {:induction false} FirstExists(stamps: map<nat, nat>, newestFirst: bool, ks: set<nat>)
    requires ks != {} && ks <= stamps.Keys
    ensures exists x :: IsFirst(stamps, newestFirst, x, ks)
    decreases ks
  {
    var x :| x in ks;
    if ks == {x} {
      assert IsFirst(stamps, newestFirst, x, ks);
    } else {
      var rest := ks - {x};
      FirstExists(stamps, newestFirst, rest);
      var y :| IsFirst(stamps, newestFirst, y, rest);
      var best := if Precedes(stamps, newestFirst, x, y) then x else y;
      forall z | z in ks && z != best ensures Precedes(stamps, newestFirst, best, z) {
        if z != x && z != y {
          assert z in rest;
        }
      }
      assert IsFirst(stamps, newestFirst, best, ks);
    }
  }

  /** The id that comes first; there is exactly one. */
  function First(stamps: map<nat, nat>, newestFirst: bool, ks: set<nat>): (x: nat)
    requires ks != {} && ks <= stamps.Keys
    ensures IsFirst(stamps, newestFirst, x, ks)
  {
    FirstExists(stamps, newestFirst, ks);
    var x :| IsFirst(stamps, newestFirst, x, ks);
    x
  }

  /** Putting the first id in front of the arranged rest keeps the order. */
  lemma PrependFirst(stamps: map<nat, nat>, newestFirst: bool, ks: set<nat>, x: nat, tail: seq<nat>)
    requires ks <= stamps.Keys && IsFirst(stamps, newestFirst, x, ks)
    requires multiset(tail) == multiset(ks - {x})
    requires SortedByStamp(stamps, newestFirst, tail)
    ensures multiset([x] + tail) == multiset(ks)
    ensures SortedByStamp(stamps, newestFirst, [x] + tail)
  {
    var ids := [x] + tail;
    assert multiset(ks - {x}) + multiset{x} == multiset(ks);
    forall j | 1 <= j < |ids|
      ensures if newestFirst then stamps[x] >= stamps[ids[j]] else stamps[x] <= stamps[ids[j]]
    {
      assert ids[j] == tail[j - 1];
      assert ids[j] in multiset(tail);
      assert Precedes(stamps, newestFirst, x, ids[j]);
    }
    forall i, j | 0 <= i < j < |ids|
      ensures if newestFirst then stamps[ids[i]] >= stamps[ids[j]] else stamps[ids[i]] <= stamps[ids[j]]
    {
      if i > 0 {
        assert ids[i] == tail[i - 1] && ids[j] == tail[j - 1];
      }
    }
  }

  /** The ids `ks` in stamp order, each exactly once. */
  function Arrange(stamps: map<nat, nat>, newestFirst: bool, ks: set<nat>): (ids: seq<nat>)
    requires ks <= stamps.Keys
    ensures multiset(ids) == multiset(ks)
    ensures SortedByStamp(stamps, newestFirst, ids)
    decreases ks
  {
    if ks == {} then []
    else
      var x := First(stamps, newestFirst, ks);
      var tail := Arrange(stamps, newestFirst, ks - {x});
      PrependFirst(stamps, newestFirst, ks, x, tail);
      [x] + tail
  }

  /** An arranged list holds the ids of `ks` and as many entries as `ks`. */
  lemma ArrangeMembers(stamps: map<nat, nat>, newestFirst: bool, ks: set<nat>)
    requires ks <= stamps.Keys
    ensures |Arrange(stamps, newestFirst, ks)| == |ks|
    ensures forall id :: id in Arrange(stamps, newestFirst, ks) <==> id in ks
  {
    var ids := Arrange(stamps, newestFirst, ks);
    assert |multiset(ids)| == |multiset(ks)|;
    forall id ensures id in ids <==> id in ks {
      assert id in ids <==> id in multiset(ids);
    }
  }
}
