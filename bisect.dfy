/** `ordered_insert` (apps/mlat_server.py): insert a stamp into a sorted
    list at the position `bisect.bisect_right` returns, that is after every
    element that is not greater than it. */
module Bisect {
  import opened Stamps

  /** Where `bisect_right` puts `x` in a sorted list: one past the last
      element that `x` is not `<`, scanning from the right end.  On an
      unsorted list the library's binary search may answer differently. */
  function InsertionPoint(a: seq<Stamp>, x: Stamp): (p: nat)
    ensures p <= |a|
    ensures forall k :: p <= k < |a| ==> Less(x, a[k])
    ensures p > 0 ==> !Less(x, a[p - 1])
  {
    if |a| == 0 then 0
    else if Less(x, a[|a| - 1]) then InsertionPoint(a[..|a| - 1], x)
    else |a|
  }

  /** In a sorted list everything before the insertion point is not greater
      than `x`, so the point splits the list into "<= x" and "> x". */
  lemma InsertionPointSplits(a: seq<Stamp>, x: Stamp)
    requires Sorted(a)
    ensures forall k :: 0 <= k < InsertionPoint(a, x) ==> !Less(x, a[k])
  {
    var p := InsertionPoint(a, x);
    forall k | 0 <= k < p
      ensures !Less(x, a[k])
    {
      LessIsStrictOrder(a[k], a[p - 1], x);
    }
  }

  /** Any position that splits `a` into "not greater than x" and "greater
      than x" is the insertion point. */
  lemma {:induction false} InsertionPointUnique(a: seq<Stamp>, x: Stamp, q: nat)
    requires q <= |a|
    requires forall k :: 0 <= k < q ==> !Less(x, a[k])
    requires forall k :: q <= k < |a| ==> Less(x, a[k])
    ensures InsertionPoint(a, x) == q
  {
    if |a| > 0 && Less(x, a[|a| - 1]) {
      InsertionPointUnique(a[..|a| - 1], x, q);
    }
  }

  /** `bisect.bisect_right(a, x)`: the library's binary search, which only
      ever asks `x < a[mid]`. */
  method BisectRight(a: seq<Stamp>, x: Stamp) returns (lo: nat)
    requires Sorted(a)
    ensures lo == InsertionPoint(a, x)
    ensures forall k :: 0 <= k < lo ==> !Less(x, a[k])
    ensures forall k :: lo <= k < |a| ==> Less(x, a[k])
  {
    lo := 0;
    var hi := |a|;
    while lo < hi
      invariant 0 <= lo <= hi <= |a|
      invariant forall k :: 0 <= k < lo ==> !Less(x, a[k])
      invariant forall k :: hi <= k < |a| ==> Less(x, a[k])
    {
      var mid := (lo + hi) / 2;
      if Less(x, a[mid]) {
        forall k | mid <= k < |a|
          ensures Less(x, a[k])
        {
          LessIsStrictOrder(x, a[mid], a[k]);
        }
        hi := mid;
      } else {
        forall k | 0 <= k <= mid
          ensures !Less(x, a[k])
        {
          LessIsStrictOrder(a[k], a[mid], x);
        }
        lo := mid + 1;
      }
    }
    InsertionPointUnique(a, x, lo);
  }

  /** The list `ordered_insert(a, x)` leaves behind. */
  function OrderedInsert(a: seq<Stamp>, x: Stamp): (r: seq<Stamp>)
    ensures |r| == |a| + 1
    ensures multiset(r) == multiset(a) + multiset{x}
  {
    var p := InsertionPoint(a, x);
    assert a == a[..p] + a[p..];
    a[..p] + [x] + a[p..]
  }

  /** The new element sits at the bisect_right position: every element
      before it is not greater, every element after it is greater, so it
      comes after every element equal to it; the others keep their order. */
  lemma OrderedInsertPlacement(a: seq<Stamp>, x: Stamp)
    requires Sorted(a)
    ensures var p, r := InsertionPoint(a, x), OrderedInsert(a, x);
      && r[p] == x
      && (forall k :: 0 <= k < p ==> r[k] == a[k] && !Less(x, a[k]))
      && (forall k :: p < k < |r| ==> r[k] == a[k - 1] && Less(x, a[k - 1]))
  {
    var p, r := InsertionPoint(a, x), OrderedInsert(a, x);
    assert r == a[..p] + [x] + a[p..];
    InsertionPointSplits(a, x);
    forall k | 0 <= k < p
      ensures r[k] == a[k]
    {
    }
    forall k | p < k < |r|
      ensures r[k] == a[k - 1]
    {
    }
  }

  /** Inserting into a sorted list gives a sorted list. */
  lemma OrderedInsertSorted(a: seq<Stamp>, x: Stamp)
    requires Sorted(a)
    ensures Sorted(OrderedInsert(a, x))
  {
    var r := OrderedInsert(a, x);
    var p := InsertionPoint(a, x);
    OrderedInsertPlacement(a, x);
    forall i, j | 0 <= i < j < |r|
      ensures !Less(r[j], r[i])
    {
      if j < p {
        assert r[i] == a[i] && r[j] == a[j];
      } else if j == p {
        assert !Less(x, r[i]);
        LessIsStrictOrder(x, x, x);
        Trichotomy(x, r[i]);
      } else if i == p {
        assert Less(x, r[j]);
        Trichotomy(x, r[j]);
      } else if i < p {
        assert r[i] == a[i] && r[j] == a[j - 1];
      } else {
        assert r[i] == a[i - 1] && r[j] == a[j - 1];
      }
    }
  }
}
