/** `SliceSortF` and `SliceSort` of slice.go: sort a slice in place. The Go
    code hands the slice to the standard library's `sort.Sort`, whose
    algorithm is not part of this model; the model sorts by selection and
    is held to what `sort.Sort` promises: the slice ends up ordered by the
    comparison and holds the same elements. */
module SliceSorting {
  import opened Wrappers

  /** What `sort.Sort` needs of `Less`: a strict weak order, that is
      irreflexive, transitive, and with incomparability transitive too. */
  ghost predicate StrictWeakOrder<V(!new)>(cmp: (V, V) -> bool)
  {
    && (forall x :: !cmp(x, x))
    && (forall x, y, z :: cmp(x, y) && cmp(y, z) ==> cmp(x, z))
    && (forall x, y, z :: !cmp(x, y) && !cmp(y, x) && !cmp(y, z) && !cmp(z, y) ==> !cmp(x, z) && !cmp(z, x))
  }

  /** No element is less than one before it. */
  ghost predicate SortedBy<V>(s: seq<V>, cmp: (V, V) -> bool)
  {
    forall i, j | 0 <= i < j < |s| :: !cmp(s[j], s[i])
  }

  /** The first `n` slots hold their final elements: none of the later
      elements is less than any of them. */
  ghost predicate Placed<V>(s: seq<V>, n: int, cmp: (V, V) -> bool)
  {
    forall p, q | 0 <= p < n && p < q < |s| :: !cmp(s[q], s[p])
  }

  /** The index of a least element of `a[from..]`. */
  method MinIndex<V(!new)>(a: array<V>, from: int, cmp: (V, V) -> bool) returns (m: int)
    requires 0 <= from < a.Length && StrictWeakOrder(cmp)
    ensures from <= m < a.Length
    ensures forall t | from <= t < a.Length :: !cmp(a[t], a[m])
  {
    m := from;
    for k := from + 1 to a.Length
      invariant from <= m < k
      invariant forall t | from <= t < k :: !cmp(a[t], a[m])
    {
      if cmp(a[k], a[m]) {
        m := k;
      }
    }
  }

  /** Swapping a least remaining element into slot `n` places one more. */
  lemma PlaceNext<V>(s: seq<V>, n: int, m: int, cmp: (V, V) -> bool)
    requires 0 <= n <= m < |s| && Placed(s, n, cmp)
    requires forall t | n <= t < |s| :: !cmp(s[t], s[m])
    ensures Placed(s[n := s[m]][m := s[n]], n + 1, cmp)
  {
    var s' := s[n := s[m]][m := s[n]];
    forall p, q | 0 <= p < n + 1 && p < q < |s'|
      ensures !cmp(s'[q], s'[p])
    {
      if p < n {
        assert s'[p] == s[p];
        assert s'[q] == s[if q == n then m else if q == m then n else q];
      } else {
        assert s'[q] == s[if q == m then n else q];
      }
    }
  }

  /** `SliceSortF`: a nil comparison (`None`) leaves the slice alone;
      otherwise the slice is sorted by it in place. */
  method SliceSortF<V(!new)>(ss: array<V>, cmp: Option<(V, V) -> bool>)
    requires cmp.Some? ==> StrictWeakOrder(cmp.value)
    modifies ss
    ensures cmp.None? ==> ss[..] == old(ss[..])
    ensures cmp.Some? ==> SortedBy(ss[..], cmp.value)
    ensures multiset(ss[..]) == multiset(old(ss[..]))
  {
    if cmp.None? {
      return;
    }
    var less := cmp.value;
    for i := 0 to ss.Length
      invariant Placed(ss[..], i, less)
      invariant multiset(ss[..]) == multiset(old(ss[..]))
    {
      var m := MinIndex(ss, i, less);
      PlaceNext(ss[..], i, m, less);
      ss[i], ss[m] := ss[m], ss[i];
    }
  }

  /** Ascending order of integers. */
  predicate Ascending(s: seq<int>)
  {
    forall i, j | 0 <= i < j < |s| :: s[i] <= s[j]
  }

  function Less(x: int, y: int): bool
  {
    x < y
  }

  /** `SliceSort`: sort ascending with `<`. */
  method SliceSort(ss: array<int>)
    modifies ss
    ensures Ascending(ss[..])
    ensures multiset(ss[..]) == multiset(old(ss[..]))
  {
    SliceSortF(ss, Some(Less));
  }

  /** A sorted sequence starts with its least element. */
  lemma AscendingHead(s: seq<int>, x: int)
    requires Ascending(s) && x in multiset(s)
    ensures s[0] <= x
  {
    var i :| 0 <= i < |s| && s[i] == x;
  }

  /** Sorting integers has a single answer: two ascending sequences with
      the same elements are equal, so `SliceSort` leaves every permutation
      of the same input in the same state. */
  lemma {:induction false} AscendingUnique(a: seq<int>, b: seq<int>)
    requires Ascending(a) && Ascending(b) && multiset(a) == multiset(b)
    ensures a == b
    decreases |a|
  {
    if a != [] {
      assert |b| == |multiset(b)| == |multiset(a)| == |a|;
      assert a[0] in multiset(b) && b[0] in multiset(a);
      AscendingHead(b, a[0]);
      AscendingHead(a, b[0]);
      assert a[0] == b[0];
      assert a == [a[0]] + a[1..] && b == [b[0]] + b[1..];
      assert multiset(a) == multiset{a[0]} + multiset(a[1..]);
      assert multiset(b) == multiset{b[0]} + multiset(b[1..]);
      assert multiset(a[1..]) == multiset(a) - multiset{a[0]};
      assert multiset(b[1..]) == multiset(b) - multiset{b[0]};
      AscendingUnique(a[1..], b[1..]);
    } else {
      assert |b| == |multiset(b)| == 0;
    }
  }
}
