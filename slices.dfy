/** The slice helpers of slice.go. Go slices are sequences; where Go
    distinguishes a nil slice from an empty one and the helper tests for
    nil, the slice is an `Option`. Callbacks are total functions, and a
    callback that updates captured state is a fold over an explicit state.
    Go's zero value of the element type is passed in as `zero` where a
    helper produces it. */
module Slices {
  import opened Wrappers
  import Maps

  // ---------------------------------------------------------------------
  // Range (integers only)

  function Abs(x: int): nat
  {
    if x < 0 then -x else x
  }

  /** The step `Range` uses: the one given, else 1. */
  function StepOf(stepOpt: seq<int>): int
  {
    if |stepOpt| == 1 then stepOpt[0] else 1
  }

  /** `Range` returns nil when `stop` cannot be reached from `start`. */
  predicate Unreachable(start: int, stop: int, step: int)
  {
    start == stop || (start < stop && step < 0) || (start > stop && step > 0)
  }

  /** The number of elements `Range` produces: the ceiling of the
      distance over the step, plus one when the step divides the distance
      (so that `stop` itself is included). */
  function RangeSize(start: int, stop: int, step: int): int
    requires step != 0
  {
    var size := (Abs(stop - start) + Abs(step) - 1) / Abs(step);
    if size * step == stop - start then size + 1 else size
  }

  function RangeSpec(start: int, stop: int, step: int): seq<int>
    requires step != 0
  {
    if Unreachable(start, stop, step) then []
    else seq(RangeSize(start, stop, step), i => start + step * i)
  }

  /** `x` lies between `a` and `b`, both included, in either order. */
  predicate Between(a: int, x: int, b: int)
  {
    (a <= x <= b) || (b <= x <= a)
  }

  lemma MulAtLeast(k: int, d: int)
    requires k >= 1 && d > 0
    ensures k * d >= d
  {
  }

  lemma DivUnique(a: int, d: int, q: int, r: int)
    requires d > 0 && 0 <= r < d && a == q * d + r
    ensures a / d == q
  {
    var q', r' := a / d, a % d;
    assert a == d * q' + r';
    if q > q' {
      MulAtLeast(q - q', d);
    } else if q < q' {
      MulAtLeast(q' - q, d);
    }
  }

  lemma MulLe(a: int, b: int, d: int)
    requires d > 0 && a <= b
    ensures a * d <= b * d
  {
  }

  lemma MulSign(k: int, step: int)
    ensures k * step == if step < 0 then -(k * Abs(step)) else k * Abs(step)
  {
  }

  lemma CeilDiv(n: nat, d: int)
    requires d > 0
    ensures var size := (n + d - 1) / d;
            && (size * d == n ==> size == n / d)
            && (size * d != n ==> size == n / d + 1)
  {
    var q, r := n / d, n % d;
    assert n == q * d + r;
    if r == 0 {
      DivUnique(n + d - 1, d, q, d - 1);
    } else {
      DivUnique(n + d - 1, d, q + 1, r - 1);
      assert (q + 1) * d == q * d + d;
    }
  }

  /** The size is the distance over the step rounded down, plus one. */
  lemma {:induction false} RangeSizeIsFloorPlusOne(start: int, stop: int, step: int)
    requires step != 0 && !Unreachable(start, stop, step)
    ensures RangeSize(start, stop, step) == Abs(stop - start) / Abs(step) + 1
  {
    var n, d := Abs(stop - start), Abs(step);
    var size := (n + d - 1) / d;
    CeilDiv(n, d);
    MulSign(size, step);
    assert (size * step == stop - start) == (size * d == n);
  }

  lemma FloorBounds(n: nat, d: int)
    requires d > 0
    ensures (n / d) * d <= n < (n / d) * d + d
  {
    assert n == d * (n / d) + n % d;
  }

  /** The `i`-th step from `start` stays between `start` and `stop` for
      `i` up to the distance over the step, and the one after leaves. */
  lemma StepBetween(start: int, stop: int, step: int, i: int)
    requires step != 0 && !Unreachable(start, stop, step)
    requires 0 <= i <= Abs(stop - start) / Abs(step) + 1
    ensures Between(start, start + step * i, stop) <==> i <= Abs(stop - start) / Abs(step)
  {
    var n, d := Abs(stop - start), Abs(step);
    var q := n / d;
    FloorBounds(n, d);
    MulSign(i, step);
    if i <= q {
      MulLe(i, q, d);
    } else {
      assert i == q + 1;
      assert i * d == q * d + d;
    }
  }

  /** `Range(start, stop, step)` is the longest arithmetic progression from
      `start` in steps of `step` that stays between `start` and `stop`:
      it starts at `start`, every element stays in range, and one more step
      would leave it. Nothing is produced when `stop` is unreachable. */
  lemma {:induction false} RangeShape(start: int, stop: int, step: int)
    requires step != 0
    ensures var r := RangeSpec(start, stop, step);
            && (r == [] <==> Unreachable(start, stop, step))
            && (r != [] ==> r[0] == start && !Between(start, start + step * |r|, stop))
            && (forall i | 0 < i < |r| :: r[i] == r[i - 1] + step)
            && (forall i | 0 <= i < |r| :: Between(start, r[i], stop))
  {
    var r := RangeSpec(start, stop, step);
    if !Unreachable(start, stop, step) {
      RangeSizeIsFloorPlusOne(start, stop, step);
      forall i | 0 <= i < |r|
        ensures Between(start, r[i], stop)
      {
        StepBetween(start, stop, step, i);
      }
      forall i | 0 < i < |r|
        ensures r[i] == r[i - 1] + step
      {
        assert step * i == step * (i - 1) + step;
      }
      StepBetween(start, stop, step, |r|);
    }
  }

  /** `Range` over integers; a zero step is the Go panic. */
  method Range(start: int, stop: int, stepOpt: seq<int>) returns (res: seq<int>)
    requires StepOf(stepOpt) != 0
    ensures res == RangeSpec(start, stop, StepOf(stepOpt))
  {
    var step := 1;
    if |stepOpt| == 1 {
      step := stepOpt[0];
    }
    if start == stop || (start < stop && step < 0) || (start > stop && step > 0) {
      return [];
    }
    var size := (Abs(stop - start) + Abs(step) - 1) / Abs(step);
    if size * step == stop - start {
      size := size + 1;
    }
    ghost var spec := RangeSpec(start, stop, step);
    assert |spec| == size;
    var a := new int[size];
    for i := 0 to size
      invariant forall k | 0 <= k < i :: a[k] == spec[k]
    {
      a[i] := start + step * i;
    }
    res := a[..];
    assert res == spec;
  }

  // ---------------------------------------------------------------------
  // SliceWalk, SliceMap, SliceReduce

  /** The state after applying `action` to each index and element in
      order, starting from `s`. */
  function Walk<V, S>(list: seq<V>, action: (S, int, V) -> S, s: S): S
  {
    if list == [] then s
    else action(Walk(list[..|list| - 1], action, s), |list| - 1, list[|list| - 1])
  }

  /** `SliceWalk`: the Go action updates captured state; here it returns
      the new state. */
  method SliceWalk<V, S>(list: seq<V>, action: (S, int, V) -> S, s0: S) returns (s: S)
    ensures s == Walk(list, action, s0)
  {
    s := s0;
    for index := 0 to |list|
      invariant s == Walk(list[..index], action, s0)
    {
      assert list[..index + 1][..index] == list[..index];
      s := action(s, index, list[index]);
    }
    assert list[..|list|] == list;
  }

  /** An action that records its calls. */
  function Record<V>(log: seq<(int, V)>, i: int, v: V): seq<(int, V)>
  {
    log + [(i, v)]
  }

  /** The walk calls the action once per element, with its own index, in
      index order. */
  lemma {:induction false} WalkVisitsInOrder<V>(list: seq<V>)
    ensures Walk(list, Record, []) == seq(|list|, i requires 0 <= i < |list| => (i, list[i]))
  {
    if list != [] {
      WalkVisitsInOrder(list[..|list| - 1]);
    }
  }

  /** `SliceMap`: the callback applied to each index and element. */
  method SliceMap<V, V1>(list: seq<V>, callback: (int, V) -> V1) returns (result: seq<V1>)
    ensures |result| == |list|
    ensures forall i | 0 <= i < |list| :: result[i] == callback(i, list[i])
  {
    result := [];
    for i := 0 to |list|
      invariant |result| == i
      invariant forall k | 0 <= k < i :: result[k] == callback(k, list[k])
    {
      result := result + [callback(i, list[i])];
    }
  }

  /** Left fold: `callback(...callback(callback(init, l0), l1)..., ln)`. */
  function FoldLeft<V>(callback: (V, V) -> V, init: V, list: seq<V>): V
  {
    if list == [] then init
    else callback(FoldLeft(callback, init, list[..|list| - 1]), list[|list| - 1])
  }

  /** Reducing a concatenation reduces the second part starting from the
      reduction of the first. */
  lemma {:induction false} FoldLeftConcat<V>(callback: (V, V) -> V, init: V, a: seq<V>, b: seq<V>)
    ensures FoldLeft(callback, init, a + b) == FoldLeft(callback, FoldLeft(callback, init, a), b)
  {
    if b != [] {
      assert (a + b)[..|a + b| - 1] == a + b[..|b| - 1];
      FoldLeftConcat(callback, init, a, b[..|b| - 1]);
    } else {
      assert a + b == a;
    }
  }

  /** `SliceReduce`: start from the optional initial value (else the zero
      value) and fold the callback over the slice. */
  method SliceReduce<V>(list: seq<V>, callback: (V, V) -> V, zero: V, initValueOpt: seq<V>) returns (rst: V)
    ensures rst == FoldLeft(callback, if |initValueOpt| > 0 then initValueOpt[0] else zero, list)
  {
    rst := zero;
    if |initValueOpt| > 0 {
      rst := initValueOpt[0];
    }
    ghost var init := rst;
    for i := 0 to |list|
      invariant rst == FoldLeft(callback, init, list[..i])
    {
      assert list[..i + 1][..i] == list[..i];
      rst := callback(rst, list[i]);
    }
    assert list[..|list|] == list;
  }

  // ---------------------------------------------------------------------
  // Building maps from slices

  /** `i` is the last position before `n` holding `s[i]`. */
  ghost predicate LastBefore<V>(s: seq<V>, i: int, n: int)
    requires 0 <= i < n <= |s|
  {
    forall j | i < j < n :: s[j] != s[i]
  }

  /** `SliceCombine`: pair the first `min(|keys|, |values|)` keys with their
      values; a repeated key takes the value of its last occurrence. */
  method SliceCombine<K, V>(keys: seq<K>, values: seq<V>) returns (result: map<K, V>)
    ensures result.Keys == set i | 0 <= i < Min(|keys|, |values|) :: keys[i]
    ensures forall i | 0 <= i < Min(|keys|, |values|) && LastBefore(keys, i, Min(|keys|, |values|)) ::
              result[keys[i]] == values[i]
  {
    var size := |keys|;
    if |values| < size {
      size := |values|;
    }
    result := map[];
    for i := 0 to size
      invariant result.Keys == set k | 0 <= k < i :: keys[k]
      invariant forall k | 0 <= k < i && LastBefore(keys, k, i) :: result[keys[k]] == values[k]
    {
      result := result[keys[i] := values[i]];
    }
  }

  /** `SliceCountValues`: each distinct value with its number of occurrences. */
  method SliceCountValues<V>(list: seq<V>) returns (result: map<V, int>)
    ensures result.Keys == set v | v in list
    ensures forall v | v in result :: result[v] == multiset(list)[v]
  {
    result := map[];
    for i := 0 to |list|
      invariant result.Keys == set v | v in list[..i]
      invariant forall v | v in result :: result[v] == multiset(list[..i])[v]
    {
      assert list[..i + 1] == list[..i] + [list[i]];
      var v := list[i];
      result := result[v := (if v in result then result[v] else 0) + 1];
    }
    assert list[..|list|] == list;
  }

  /** What a `Slice2Map` key factory returns for one element. */
  datatype Entry<K, V1> = Entry(key: K, val: V1, skip: bool)

  /** The map built by storing each non-skipped entry in order. */
  function ToMap<V, K, V1>(ss: seq<V>, keyFactory: V -> Entry<K, V1>): map<K, V1>
  {
    if ss == [] then map[]
    else
      var m := ToMap(ss[..|ss| - 1], keyFactory);
      var e := keyFactory(ss[|ss| - 1]);
      if e.skip then m else m[e.key := e.val]
  }

  /** The keys are those of the non-skipped entries, and each key holds the
      value of the last non-skipped entry with that key. */
  lemma {:induction false} ToMapEntries<V, K, V1>(ss: seq<V>, keyFactory: V -> Entry<K, V1>)
    ensures forall k :: k in ToMap(ss, keyFactory) <==>
              exists i | 0 <= i < |ss| :: !keyFactory(ss[i]).skip && keyFactory(ss[i]).key == k
    ensures forall i | 0 <= i < |ss| && !keyFactory(ss[i]).skip &&
                       (forall j | i < j < |ss| :: keyFactory(ss[j]).skip || keyFactory(ss[j]).key != keyFactory(ss[i]).key) ::
              && keyFactory(ss[i]).key in ToMap(ss, keyFactory)
              && ToMap(ss, keyFactory)[keyFactory(ss[i]).key] == keyFactory(ss[i]).val
  {
    if ss != [] {
      var init := ss[..|ss| - 1];
      ToMapEntries(init, keyFactory);
      forall k
        ensures k in ToMap(ss, keyFactory) <==>
                exists i | 0 <= i < |ss| :: !keyFactory(ss[i]).skip && keyFactory(ss[i]).key == k
      {
        if k in ToMap(init, keyFactory) {
          var i :| 0 <= i < |init| && !keyFactory(init[i]).skip && keyFactory(init[i]).key == k;
          assert ss[i] == init[i];
        }
        if exists i | 0 <= i < |ss| :: !keyFactory(ss[i]).skip && keyFactory(ss[i]).key == k {
          var i :| 0 <= i < |ss| && !keyFactory(ss[i]).skip && keyFactory(ss[i]).key == k;
          if i < |init| {
            assert init[i] == ss[i];
          }
        }
      }
      forall i | 0 <= i < |ss| && !keyFactory(ss[i]).skip &&
                 (forall j | i < j < |ss| :: keyFactory(ss[j]).skip || keyFactory(ss[j]).key != keyFactory(ss[i]).key)
        ensures && keyFactory(ss[i]).key in ToMap(ss, keyFactory)
                && ToMap(ss, keyFactory)[keyFactory(ss[i]).key] == keyFactory(ss[i]).val
      {
        if i < |init| {
          assert init[i] == ss[i];
          assert forall j | i < j < |init| :: init[j] == ss[j];
        }
      }
    }
  }

  /** `Slice2Map`: store `key -> val` for every element the factory does
      not skip, later elements overwriting earlier ones. */
  method Slice2Map<V, K, V1>(ss: seq<V>, keyFactory: V -> Entry<K, V1>) returns (rst: map<K, V1>)
    ensures rst == ToMap(ss, keyFactory)
  {
    rst := map[];
    for i := 0 to |ss|
      invariant rst == ToMap(ss[..i], keyFactory)
    {
      assert ss[..i + 1][..i] == ss[..i];
      var e := keyFactory(ss[i]);
      if !e.skip {
        rst := rst[e.key := e.val];
      }
    }
    assert ss[..|ss|] == ss;
  }

  function AsKeyEntry<V>(v: V): Entry<V, bool>
  {
    Entry(v, true, false)
  }

  /** `SliceAsKey`: every element of the slice as a key mapped to `true`. */
  method SliceAsKey<V>(ss: seq<V>) returns (r: map<V, bool>)
    ensures r.Keys == set v | v in ss
    ensures forall v | v in r :: r[v]
  {
    r := Slice2Map(ss, AsKeyEntry);
    ToMapEntries(ss, AsKeyEntry);
    forall v | v in ss
      ensures v in r
    {
      var i :| 0 <= i < |ss| && ss[i] == v;
      assert AsKeyEntry(ss[i]).key == v;
    }
    forall v | v in r
      ensures r[v]
    {
      var i :| 0 <= i < |ss| && AsKeyEntry(ss[i]).key == v;
      var last := LastWith(ss, i);
      assert AsKeyEntry(ss[last]).key == v;
    }
  }

  /** The last position holding the same element as position `i`. */
  lemma LastWith<V>(s: seq<V>, i: int) returns (last: int)
    requires 0 <= i < |s|
    ensures i <= last < |s| && s[last] == s[i]
    ensures forall j | last < j < |s| :: s[j] != s[i]
    decreases |s| - i
  {
    if exists j | i < j < |s| :: s[j] == s[i] {
      var j :| i < j < |s| && s[j] == s[i];
      last := LastWith(s, j);
    } else {
      last := i;
    }
  }

  /** `SliceFlip`: each distinct value mapped to the index of its last
      occurrence. */
  method SliceFlip<V>(list: seq<V>) returns (result: map<V, int>)
    ensures result.Keys == set v | v in list
    ensures forall v | v in result :: 0 <= result[v] < |list| && list[result[v]] == v
    ensures forall v | v in result :: forall j | result[v] < j < |list| :: list[j] != v
  {
    result := map[];
    for i := 0 to |list|
      invariant result.Keys == set v | v in list[..i]
      invariant forall v | v in result :: 0 <= result[v] < i && list[result[v]] == v
      invariant forall v | v in result :: forall j | result[v] < j < i :: list[j] != v
    {
      result := result[list[i] := i];
    }
    assert list[..|list|] == list;
  }

  // ---------------------------------------------------------------------
  // SliceDiff and SliceIntersect

  /** `v` occurs in none of the slices `bs`. */
  ghost predicate InNone<V>(v: V, bs: seq<seq<V>>)
  {
    forall t | 0 <= t < |bs| :: v !in bs[t]
  }

  /** The inner loop of `SliceDiff`: delete each element of `s` from `bm`,
      stopping as soon as `bm` is empty (`emptied`). Either way no key of
      `bm` that occurs in `s` is left. */
  method DeleteAll<V(==)>(bm: map<V, ()>, s: seq<V>) returns (rest: map<V, ()>, emptied: bool)
    ensures rest.Keys == bm.Keys - set v | v in s
    ensures emptied ==> rest == map[]
  {
    rest := bm;
    for k := 0 to |s|
      invariant rest.Keys == bm.Keys - set v | v in s[..k]
    {
      assert s[..k + 1] == s[..k] + [s[k]];
      rest := rest - {s[k]};
      if |rest| == 0 {
        assert rest.Keys == {};
        return rest, true;
      }
    }
    assert s[..|s|] == s;
    emptied := false;
  }

  /** `SliceDiff`: each distinct element of `xs` that occurs in none of
      `bs`, in an unspecified order; nothing once every element of `xs`
      has been deleted. */
  method SliceDiff<V(==)>(xs: seq<V>, bs: seq<seq<V>>) returns (r: seq<V>)
    ensures forall v :: v in r <==> v in xs && InNone(v, bs)
    ensures Maps.NoDuplicates(r)
  {
    var bm: map<V, ()> := map[];
    for i := 0 to |xs|
      invariant bm.Keys == set v | v in xs[..i]
    {
      bm := bm[xs[i] := ()];
    }
    assert xs[..|xs|] == xs;
    for j := 0 to |bs|
      invariant forall v :: v in bm <==> v in xs && InNone(v, bs[..j])
    {
      var emptied;
      ghost var before := bm;
      bm, emptied := DeleteAll(bm, bs[j]);
      forall v
        ensures v in bm <==> v in xs && InNone(v, bs[..j + 1])
      {
        assert forall t | 0 <= t < j :: bs[..j + 1][t] == bs[..j][t];
        assert bs[..j + 1][j] == bs[j];
      }
      if emptied {
        assert forall v | v in xs :: !InNone(v, bs[..j + 1]);
        forall v | v in xs
          ensures !InNone(v, bs)
        {
          var t :| 0 <= t < j + 1 && v in bs[..j + 1][t];
          assert bs[t] == bs[..j + 1][t];
        }
        return [];
      }
    }
    assert bs[..|bs|] == bs;
    r := Maps.MapKeys(bm);
  }

  /** The total number of occurrences of `v` in all slices of `bs`. */
  function Occurrences<V(==)>(bs: seq<seq<V>>, v: V): nat
  {
    if bs == [] then 0 else Occurrences(bs[..|bs| - 1], v) + multiset(bs[|bs| - 1])[v]
  }

  /** The counter slice.go keeps for `v`: 1 for being in `sa`, plus one per
      occurrence in any slice of `sb`. */
  function IntersectCount<V(==)>(sa: seq<V>, sb: seq<seq<V>>, v: V): nat
  {
    (if v in sa then 1 else 0) + Occurrences(sb, v)
  }

  /** `SliceIntersect` as written: the values whose counter exceeds 1
      (the `int8` counter is unbounded here). */
  method SliceIntersect<V(==)>(sa: seq<V>, sb: seq<seq<V>>) returns (result: seq<V>)
    ensures forall v :: v in result <==> IntersectCount(sa, sb, v) > 1
    ensures Maps.NoDuplicates(result)
  {
    var freq: map<V, int> := map[];
    for i := 0 to |sa|
      invariant freq.Keys == set v | v in sa[..i]
      invariant forall v | v in freq :: freq[v] == 1
    {
      freq := freq[sa[i] := 1];
    }
    assert sa[..|sa|] == sa;
    assert sb[..0] == [];
    for j := 0 to |sb|
      invariant forall v :: v in freq <==> IntersectCount(sa, sb[..j], v) > 0
      invariant forall v | v in freq :: freq[v] == IntersectCount(sa, sb[..j], v)
    {
      assert sb[..j + 1][..j] == sb[..j];
      for k := 0 to |sb[j]|
        invariant forall v :: v in freq <==> IntersectCount(sa, sb[..j], v) + multiset(sb[j][..k])[v] > 0
        invariant forall v | v in freq :: freq[v] == IntersectCount(sa, sb[..j], v) + multiset(sb[j][..k])[v]
      {
        assert sb[j][..k + 1] == sb[j][..k] + [sb[j][k]];
        var v := sb[j][k];
        freq := freq[v := (if v in freq then freq[v] else 0) + 1];
      }
      assert sb[j][..|sb[j]|] == sb[j];
    }
    assert sb[..|sb|] == sb;
    result := [];
    var rest := freq.Keys;
    while rest != {}
      invariant rest <= freq.Keys
      invariant forall v :: v in result <==> v in freq && v !in rest && freq[v] > 1
      invariant forall v :: v in freq && freq[v] > 1 <==> IntersectCount(sa, sb, v) > 1
      invariant Maps.NoDuplicates(result)
      decreases rest
    {
      var k :| k in rest;
      if freq[k] > 1 {
        Maps.AppendFresh(result, k);
        result := result + [k];
      }
      rest := rest - {k};
    }
    forall v
      ensures v in result <==> IntersectCount(sa, sb, v) > 1
    {
      assert v in result <==> v in freq && freq[v] > 1;
    }
  }

  /** As written, a value repeated inside `sb` is reported although it is
      not in `sa`: with `sa = [1]` and `sb = [[2, 2]]` the result holds 2. */
  lemma IntersectReportsValueMissingFromSa()
    ensures 2 !in [1] && IntersectCount([1], [[2, 2]], 2) > 1
  {
    assert [[2, 2]][..0] == [];
    assert multiset([2, 2])[2] == 2;
  }

  /** Intersection as intended: each distinct value of `sa` that occurs in
      every slice of `sb`. */
  method SliceIntersectCorrected<V(==)>(sa: seq<V>, sb: seq<seq<V>>) returns (result: seq<V>)
    ensures forall v :: v in result <==> v in sa && forall t | 0 <= t < |sb| :: v in sb[t]
    ensures Maps.NoDuplicates(result)
  {
    var common: map<V, ()> := map[];
    for i := 0 to |sa|
      invariant common.Keys == set v | v in sa[..i]
    {
      common := common[sa[i] := ()];
    }
    assert sa[..|sa|] == sa;
    for j := 0 to |sb|
      invariant forall v :: v in common <==> v in sa && forall t | 0 <= t < j :: v in sb[t]
    {
      common := map v | v in common && v in sb[j] :: ();
    }
    result := Maps.MapKeys(common);
  }

  // ---------------------------------------------------------------------
  // Building slices

  /** `SliceFill`: `start` zero values followed by `size` copies of `v`.
      A negative `size` is the Go panic, and so is a negative `start`
      (the first write would be out of range). */
  method SliceFill<V>(start: int, size: int, v: V, zero: V) returns (r: seq<V>)
    requires start >= 0 && size >= 0
    ensures |r| == start + size
    ensures forall i | 0 <= i < start :: r[i] == zero
    ensures forall i | start <= i < start + size :: r[i] == v
  {
    var result := new V[start + size](_ => zero);
    for i := start to start + size
      invariant forall k | 0 <= k < start :: result[k] == zero
      invariant forall k | start <= k < i :: result[k] == v
    {
      result[i] := v;
    }
    r := result[..];
  }

  /** The elements of `list` whose index and value `keep` accepts, in order. */
  function FilterIndexed<V>(list: seq<V>, keep: (int, V) -> bool): seq<V>
  {
    if list == [] then []
    else if keep(|list| - 1, list[|list| - 1]) then FilterIndexed(list[..|list| - 1], keep) + [list[|list| - 1]]
    else FilterIndexed(list[..|list| - 1], keep)
  }

  /** The filter returns exactly the accepted elements: each one it returns
      was accepted at some index, each accepted one is returned, and it
      returns no more elements than the input has (with the same multiplicity
      bound). */
  lemma {:induction false} FilterIndexedSound<V>(list: seq<V>, keep: (int, V) -> bool)
    ensures forall x | x in FilterIndexed(list, keep) :: exists i | 0 <= i < |list| :: list[i] == x && keep(i, x)
    ensures forall i | 0 <= i < |list| && keep(i, list[i]) :: list[i] in FilterIndexed(list, keep)
    ensures multiset(FilterIndexed(list, keep)) <= multiset(list)
  {
    if list != [] {
      var init := list[..|list| - 1];
      FilterIndexedSound(init, keep);
      assert list == init + [list[|list| - 1]];
      forall x | x in FilterIndexed(list, keep)
        ensures exists i | 0 <= i < |list| :: list[i] == x && keep(i, x)
      {
        if x in FilterIndexed(init, keep) {
          var i :| 0 <= i < |init| && init[i] == x && keep(i, x);
          assert list[i] == x;
        }
      }
      forall i | 0 <= i < |list| && keep(i, list[i])
        ensures list[i] in FilterIndexed(list, keep)
      {
        if i < |init| {
          assert init[i] == list[i];
        }
      }
    }
  }

  /** A filter that accepts everything returns the list unchanged. */
  lemma {:induction false} FilterIndexedAll<V>(list: seq<V>, keep: (int, V) -> bool)
    requires forall i | 0 <= i < |list| :: keep(i, list[i])
    ensures FilterIndexed(list, keep) == list
  {
    if list != [] {
      var init := list[..|list| - 1];
      assert forall i | 0 <= i < |init| :: init[i] == list[i];
      FilterIndexedAll(init, keep);
    }
  }

  /** `SliceFilterF`. */
  method SliceFilterF<V>(list: seq<V>, keepFunc: (int, V) -> bool) returns (res: seq<V>)
    ensures res == FilterIndexed(list, keepFunc)
  {
    res := [];
    for i := 0 to |list|
      invariant res == FilterIndexed(list[..i], keepFunc)
    {
      assert list[..i + 1][..i] == list[..i];
      if keepFunc(i, list[i]) {
        res := res + [list[i]];
      }
    }
    assert list[..|list|] == list;
  }

  /** The keep function `SliceFilter` hands to `SliceFilterF`: `keepMap[v]`,
      where a missing key reads as `false`. */
  function KeepIn<V>(m: map<V, bool>): (int, V) -> bool
  {
    (i: int, v: V) => v in m && m[v]
  }

  /** `SliceFilter`: nil `keepMap` gives nil; otherwise the elements that
      `keepMap` maps to `true`, in order and with their repetitions. */
  method SliceFilter<V>(list: seq<V>, keepMap: Option<map<V, bool>>) returns (r: Option<seq<V>>)
    ensures r.None? <==> keepMap.None?
    ensures r.Some? ==> r.value == FilterIndexed(list, KeepIn(keepMap.value))
    ensures r.Some? ==> forall x | x in r.value :: x in list && x in keepMap.value && keepMap.value[x]
    ensures r.Some? ==> forall x | x in list && x in keepMap.value && keepMap.value[x] :: x in r.value
  {
    if keepMap.None? {
      return None;
    }
    var m := keepMap.value;
    var keep := KeepIn(m);
    var res := SliceFilterF(list, keep);
    FilterIndexedSound(list, keep);
    forall x | x in list && x in m && m[x]
      ensures x in res
    {
      var i :| 0 <= i < |list| && list[i] == x;
      assert keep(i, list[i]);
    }
    r := Some(res);
  }

  /** Concatenation of the slices in argument order. */
  function Flatten<V>(ss: seq<seq<V>>): seq<V>
  {
    if ss == [] then [] else Flatten(ss[..|ss| - 1]) + ss[|ss| - 1]
  }

  function TotalLength<V>(ss: seq<seq<V>>): nat
  {
    if ss == [] then 0 else TotalLength(ss[..|ss| - 1]) + |ss[|ss| - 1]|
  }

  /** The merged length is the `size` slice.go sums up front, and merging
      distributes over splitting the argument list. */
  lemma {:induction false} FlattenLaws<V>(ss: seq<seq<V>>, tt: seq<seq<V>>)
    ensures |Flatten(ss)| == TotalLength(ss)
    ensures Flatten(ss + tt) == Flatten(ss) + Flatten(tt)
  {
    if tt == [] {
      assert ss + tt == ss;
      if ss != [] {
        FlattenLaws(ss[..|ss| - 1], []);
      }
    } else {
      assert (ss + tt)[..|ss + tt| - 1] == ss + tt[..|tt| - 1];
      FlattenLaws(ss, tt[..|tt| - 1]);
    }
  }

  /** `SliceMerge`. */
  method SliceMerge<V>(ss: seq<seq<V>>) returns (result: seq<V>)
    ensures result == Flatten(ss)
  {
    result := [];
    for i := 0 to |ss|
      invariant result == Flatten(ss[..i])
    {
      assert ss[..i + 1][..i] == ss[..i];
      result := result + ss[i];
    }
    assert ss[..|ss|] == ss;
  }

  /** `n` copies of `v`. */
  function Repeat<V>(v: V, n: nat): (r: seq<V>)
    ensures |r| == n && forall i | 0 <= i < n :: r[i] == v
  {
    if n == 0 then [] else Repeat(v, n - 1) + [v]
  }

  /** `SlicePad`: pad to `|wantLength|` elements with the given value (else
      the zero value), on the left when `wantLength` is negative and on the
      right otherwise; a list already that long is copied as it is. */
  method SlicePad<V>(list: seq<V>, wantLength: int, zero: V, valOpt: seq<V>) returns (data: seq<V>)
    ensures |data| == Max(Abs(wantLength), |list|)
    ensures var v := if |valOpt| == 1 then valOpt[0] else zero;
            if wantLength < 0 then data == Repeat(v, |data| - |list|) + list
            else data == list + Repeat(v, |data| - |list|)
  {
    var v := zero;
    if |valOpt| == 1 {
      v := valOpt[0];
    }
    var padLeftSize, padRightSize := 0, 0;
    if wantLength < 0 {
      if -wantLength > |list| {
        padLeftSize := -wantLength - |list|;
      }
    } else {
      if wantLength > |list| {
        padRightSize := wantLength - |list|;
      }
    }
    data := [];
    for i := 0 to padLeftSize
      invariant data == Repeat(v, i)
    {
      data := data + [v];
    }
    data := data + list;
    for i := 0 to padRightSize
      invariant data == Repeat(v, padLeftSize) + list + Repeat(v, i)
    {
      data := data + [v];
    }
    assert data == Repeat(v, padLeftSize) + list + Repeat(v, padRightSize);
    if wantLength < 0 {
      assert data == Repeat(v, padLeftSize) + list;
    } else {
      assert Repeat(v, padLeftSize) == [];
    }
  }

  /** The elements of `list` in reverse order. */
  function Reverse<V>(list: seq<V>): (r: seq<V>)
    ensures |r| == |list|
    ensures forall i | 0 <= i < |list| :: r[i] == list[|list| - 1 - i]
  {
    if list == [] then [] else [list[|list| - 1]] + Reverse(list[..|list| - 1])
  }

  /** Reversing twice gives the list back. */
  lemma ReverseInvolution<V>(list: seq<V>)
    ensures Reverse(Reverse(list)) == list
  {
    var r := Reverse(Reverse(list));
    assert forall i | 0 <= i < |list| :: r[i] == Reverse(list)[|list| - 1 - i];
  }

  /** `SliceReverse`: nil stays nil. */
  method SliceReverse<V>(list: Option<seq<V>>) returns (r: Option<seq<V>>)
    ensures r.None? <==> list.None?
    ensures r.Some? ==> r.value == Reverse(list.value)
  {
    if list.None? {
      return None;
    }
    var l := list.value;
    var rst := [];
    var i := |l| - 1;
    while i >= 0
      invariant -1 <= i < |l|
      invariant |rst| == |l| - 1 - i
      invariant forall k | 0 <= k < |rst| :: rst[k] == l[|l| - 1 - k]
    {
      rst := rst + [l[i]];
      i := i - 1;
    }
    return Some(rst);
  }

  /** The first occurrence of each value of `list`, in order. */
  function Dedup<V(==)>(list: seq<V>): seq<V>
  {
    if list == [] then []
    else if list[|list| - 1] in list[..|list| - 1] then Dedup(list[..|list| - 1])
    else Dedup(list[..|list| - 1]) + [list[|list| - 1]]
  }

  /** The position of the first occurrence of `v`. */
  function FirstIndex<V(==)>(list: seq<V>, v: V): (i: nat)
    requires v in list
    ensures i < |list| && list[i] == v && v !in list[..i]
  {
    if list[0] == v then 0
    else assert list == [list[0]] + list[1..]; 1 + FirstIndex(list[1..], v)
  }

  lemma FirstIndexPrefix<V>(list: seq<V>, n: nat, v: V)
    requires n <= |list| && v in list[..n]
    ensures FirstIndex(list[..n], v) == FirstIndex(list, v)
  {
    var a, b := FirstIndex(list[..n], v), FirstIndex(list, v);
    assert list[..n][..a] == list[..a];
  }

  /** The deduplicated list has no duplicates, holds the same values, and
      lists them in the order of their first occurrences. */
  lemma {:induction false} DedupProperties<V>(list: seq<V>)
    ensures Maps.NoDuplicates(Dedup(list))
    ensures forall v :: v in Dedup(list) <==> v in list
    ensures forall i, j | 0 <= i < j < |Dedup(list)| ::
              FirstIndex(list, Dedup(list)[i]) < FirstIndex(list, Dedup(list)[j])
  {
    if list != [] {
      var init, x := list[..|list| - 1], list[|list| - 1];
      DedupProperties(init);
      assert list == init + [x];
      var d := Dedup(list);
      forall v | v in init
        ensures FirstIndex(init, v) == FirstIndex(list, v)
      {
        FirstIndexPrefix(list, |list| - 1, v);
      }
      if x !in init {
        assert FirstIndex(list, x) == |list| - 1;
        forall i, j | 0 <= i < j < |d|
          ensures FirstIndex(list, d[i]) < FirstIndex(list, d[j])
        {
          assert d[i] == Dedup(init)[i];
          if j < |d| - 1 {
            assert d[j] == Dedup(init)[j];
          }
        }
      }
    }
  }

  /** `SliceUnique`: nil stays nil; otherwise the first occurrence of each
      value, in order. */
  method SliceUnique<V(==)>(list: Option<seq<V>>) returns (r: Option<seq<V>>)
    ensures r.None? <==> list.None?
    ensures r.Some? ==> r.value == Dedup(list.value)
  {
    if list.None? {
      return None;
    }
    var l := list.value;
    var tmp: map<V, ()> := map[];
    var rst := [];
    for i := 0 to |l|
      invariant rst == Dedup(l[..i])
      invariant tmp.Keys == set v | v in l[..i]
    {
      assert l[..i + 1] == l[..i] + [l[i]];
      if l[i] !in tmp {
        tmp := tmp[l[i] := ()];
        rst := rst + [l[i]];
      }
    }
    assert l[..|l|] == l;
    return Some(rst);
  }

  /** What a `SliceConvert` convertor returns for one element. */
  datatype Converted<V1, E> = Converted(data: V1, skip: bool, err: Option<E>)

  /** The converted values of the elements that are not skipped, in order. */
  function ConvertAll<V, V1, E>(ss: seq<V>, convertor: V -> Converted<V1, E>): seq<V1>
  {
    if ss == [] then []
    else
      var c := convertor(ss[|ss| - 1]);
      ConvertAll(ss[..|ss| - 1], convertor) + (if c.skip then [] else [c.data])
  }

  /** Converting keeps no more elements than there are, and with nothing
      skipped it converts every one. */
  lemma {:induction false} ConvertAllLength<V, V1, E>(ss: seq<V>, convertor: V -> Converted<V1, E>)
    ensures |ConvertAll(ss, convertor)| <= |ss|
    ensures (forall i | 0 <= i < |ss| :: !convertor(ss[i]).skip) ==> |ConvertAll(ss, convertor)| == |ss|
  {
    if ss != [] {
      ConvertAllLength(ss[..|ss| - 1], convertor);
      assert forall i | 0 <= i < |ss| - 1 :: ss[..|ss| - 1][i] == ss[i];
    }
  }

  /** `SliceConvert`: the first convertor error, if any (Go returns it with
      a nil slice), else the converted non-skipped elements in order. */
  method SliceConvert<V, V1, E>(ss: seq<V>, convertor: V -> Converted<V1, E>) returns (r: Result<seq<V1>, E>)
    ensures r.Err? <==> exists i | 0 <= i < |ss| :: convertor(ss[i]).err.Some?
    ensures r.Err? ==> exists i | 0 <= i < |ss| :: convertor(ss[i]).err == Some(r.error)
                         && forall j | 0 <= j < i :: convertor(ss[j]).err.None?
    ensures r.Ok? ==> r.value == ConvertAll(ss, convertor)
  {
    var converted := [];
    for i := 0 to |ss|
      invariant forall j | 0 <= j < i :: convertor(ss[j]).err.None?
      invariant converted == ConvertAll(ss[..i], convertor)
    {
      assert ss[..i + 1][..i] == ss[..i];
      var c := convertor(ss[i]);
      if c.err.Some? {
        return Err(c.err.value);
      }
      if !c.skip {
        converted := converted + [c.data];
      }
    }
    assert ss[..|ss|] == ss;
    return Ok(converted);
  }

  // ---------------------------------------------------------------------
  // Searching

  /** `SliceExistF`: the index of the first match, or `(0, false)`. */
  method SliceExistF<V>(ss: seq<V>, compareFunc: V -> bool) returns (index: int, found: bool)
    ensures found <==> exists i | 0 <= i < |ss| :: compareFunc(ss[i])
    ensures found ==> 0 <= index < |ss| && compareFunc(ss[index])
                      && forall j | 0 <= j < index :: !compareFunc(ss[j])
    ensures !found ==> index == 0
  {
    for i := 0 to |ss|
      invariant forall j | 0 <= j < i :: !compareFunc(ss[j])
    {
      if compareFunc(ss[i]) {
        return i, true;
      }
    }
    return 0, false;
  }

  /** `SliceExist`: the index of the first element equal to `data`. */
  method SliceExist<V(==)>(ss: seq<V>, data: V) returns (index: int, found: bool)
    ensures found <==> data in ss
    ensures found ==> 0 <= index < |ss| && ss[index] == data && data !in ss[..index]
    ensures !found ==> index == 0
  {
    index, found := SliceExistF(ss, (v: V) => v == data);
  }
}
