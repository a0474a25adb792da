/**
 * `sort.Sort(utils.AlphabeticalOrder(apiObjects))` at the start of the diff
 * command. The comparator lives in a helper package outside this model, so
 * it is a parameter; the sort is an insertion sort, one of the orders
 * `sort.Sort` may produce when keys tie.
 */
module Ordering {
  import opened Resources

  /** What `sort.Interface.Less` must be for sorting to make sense. */
  ghost predicate StrictWeakOrder(less: (Object, Object) -> bool)
  {
    && (forall a, b :: less(a, b) ==> !less(b, a))
    && (forall a, b, c :: !less(a, b) && !less(b, c) ==> !less(a, c))
  }

  predicate SortedBy(s: seq<Object>, less: (Object, Object) -> bool)
  {
    forall i, j :: 0 <= i < j < |s| ==> !less(s[j], s[i])
  }

  function Insert(x: Object, s: seq<Object>, less: (Object, Object) -> bool): (r: seq<Object>)
    ensures multiset(r) == multiset(s) + multiset{x}
  {
    if s == [] || !less(s[0], x) then [x] + s
    else
      assert s == [s[0]] + s[1..];
      [s[0]] + Insert(x, s[1..], less)
  }

  function SortObjects(s: seq<Object>, less: (Object, Object) -> bool): (r: seq<Object>)
    ensures multiset(r) == multiset(s)
  {
    if s == [] then []
    else
      assert s == [s[0]] + s[1..];
      Insert(s[0], SortObjects(s[1..], less), less)
  }

  lemma {:induction false} InsertSorted(x: Object, s: seq<Object>, less: (Object, Object) -> bool)
    requires StrictWeakOrder(less) && SortedBy(s, less)
    ensures SortedBy(Insert(x, s, less), less)
    decreases |s|
  {
    if s == [] || !less(s[0], x) {
      var r := [x] + s;
      forall i, j | 0 <= i < j < |r|
        ensures !less(r[j], r[i])
      {
        if i == 0 && j > 1 {
          assert !less(r[j], s[0]);
        }
      }
    } else {
      InsertSorted(x, s[1..], less);
      var t := Insert(x, s[1..], less);
      var r := [s[0]] + t;
      assert multiset(t) == multiset(s[1..]) + multiset{x};
      forall j | 1 <= j < |r|
        ensures !less(r[j], s[0])
      {
        assert r[j] in multiset(t);
        if r[j] != x {
          assert r[j] in multiset(s[1..]);
          var k :| 0 <= k < |s[1..]| && s[1..][k] == r[j];
          assert s[k + 1] == r[j];
        }
      }
    }
  }

  /** The order the objects are visited in is sorted and a permutation of the input. */
  lemma {:induction false} SortObjectsSorted(s: seq<Object>, less: (Object, Object) -> bool)
    requires StrictWeakOrder(less)
    ensures SortedBy(SortObjects(s, less), less)
    ensures multiset(SortObjects(s, less)) == multiset(s)
    decreases |s|
  {
    if s != [] {
      SortObjectsSorted(s[1..], less);
      InsertSorted(s[0], SortObjects(s[1..], less), less);
    }
  }
}
