/**
 * The `sort.Slice` call at the end of `handlerChirpsRetrieve`: the chirps
 * are ordered by `CreatedAt` with the comparison closure the handler passes,
 * newest first when the `sort` parameter is "desc" and oldest first for any
 * other value.
 */
module ChirpSort {
  import opened Store

  const Descending := "desc"

  /**
   * The handler's `less(i, j)` closure: `x` goes before `y` when it is
   * strictly later for "desc" and strictly earlier otherwise, so chirps
   * with equal creation times are never ordered.
   */
  predicate Less(x: Chirp, y: Chirp, sortOrder: string): (b: bool)
    ensures x.createdAt == y.createdAt ==> !b
    ensures b ==> (sortOrder == Descending <==> x.createdAt > y.createdAt)
    ensures x.createdAt != y.createdAt ==> (b <==> (sortOrder == Descending <==> x.createdAt > y.createdAt))
  {
    if sortOrder == Descending then x.createdAt > y.createdAt else x.createdAt < y.createdAt
  }

  /** What `sort.Slice` promises: no element is `Less` than one before it. */
  predicate Sorted(s: seq<Chirp>, sortOrder: string) {
    forall i, j :: 0 <= i < j < |s| ==> !Less(s[j], s[i], sortOrder)
  }

  /** "desc" gives non-increasing creation times; any other value non-decreasing ones. */
  lemma SortedMeaning(s: seq<Chirp>, sortOrder: string)
    ensures Sorted(s, sortOrder) <==>
      if sortOrder == Descending then forall i, j :: 0 <= i < j < |s| ==> s[i].createdAt >= s[j].createdAt
      else forall i, j :: 0 <= i < j < |s| ==> s[i].createdAt <= s[j].createdAt
  {
  }

  /**
   * Sorts `a` in place by the handler's closure: afterwards `a` is `Sorted`
   * and holds the same chirps. The order among chirps with equal creation
   * times is not specified (`sort.Slice` is not stable).
   */
  method SortSlice(a: array<Chirp>, sortOrder: string)
    modifies a
    ensures Sorted(a[..], sortOrder)
    ensures multiset(a[..]) == multiset(old(a[..]))
  {
    for i := 0 to a.Length
      invariant Sorted(a[..i], sortOrder)
      invariant multiset(a[..]) == multiset(old(a[..]))
    {
      Insert(a, i, sortOrder);
    }
    assert a[..] == a[..a.Length];
  }

  /**
   * One insertion step: moves `a[i]` left into the sorted `a[..i]` until
   * `a[..i + 1]` is sorted; the elements after `i` stay where they are.
   */
  method Insert(a: array<Chirp>, i: nat, sortOrder: string)
    requires i < a.Length && Sorted(a[..i], sortOrder)
    modifies a
    ensures Sorted(a[..i + 1], sortOrder)
    ensures multiset(a[..]) == multiset(old(a[..]))
    ensures forall k :: i < k < a.Length ==> a[k] == old(a[k])
  {
    var j := i;
    while 0 < j && Less(a[j], a[j - 1], sortOrder)
      invariant 0 <= j <= i
      invariant forall p, q :: 0 <= p < q <= i && p != j && q != j ==> !Less(a[q], a[p], sortOrder)
      invariant forall q :: j < q <= i ==> !Less(a[q], a[j], sortOrder)
      invariant multiset(a[..]) == multiset(old(a[..]))
      invariant forall k :: i < k < a.Length ==> a[k] == old(a[k])
    {
      Swap(a, j - 1, j);
      j := j - 1;
    }
  }

  /** Exchanges `a[p]` and `a[q]`; every other element stays where it is. */
  method Swap(a: array<Chirp>, p: nat, q: nat)
    requires p < a.Length && q < a.Length
    modifies a
    ensures a[p] == old(a[q]) && a[q] == old(a[p])
    ensures forall k :: 0 <= k < a.Length && k != p && k != q ==> a[k] == old(a[k])
    ensures multiset(a[..]) == multiset(old(a[..]))
  {
    a[p], a[q] := a[q], a[p];
  }
}
