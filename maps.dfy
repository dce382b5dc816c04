/** The map helpers of map.go. Go's `range` over a map visits the keys in
    an unspecified order; every loop here picks the next key with `:|`, so
    each contract holds whatever order the runtime chooses. A Go map is a
    reference; only `MapMerge` depends on that and uses `MapRef`. */
module Maps {
  import opened Wrappers

  /** `s` lists no element twice. */
  ghost predicate NoDuplicates<T>(s: seq<T>)
  {
    forall i, j | 0 <= i < j < |s| :: s[i] != s[j]
  }

  /** Appending an element that is not yet listed keeps the listing free of
      duplicates. */
  lemma AppendFresh<T>(s: seq<T>, x: T)
    requires NoDuplicates(s) && x !in s
    ensures NoDuplicates(s + [x])
  {
  }

  /** The number of keys of `m` mapped to `v`. */
  ghost function KeysWith<K, V>(m: map<K, V>, keys: set<K>, v: V): nat
  {
    |set k | k in keys && k in m && m[k] == v|
  }

  /** Visiting one more key adds one to the count of its own value and
      leaves every other count alone. */
  lemma KeysWithStep<K, V>(m: map<K, V>, seen: set<K>, t: K)
    requires t in m && t !in seen
    ensures forall v :: KeysWith(m, seen + {t}, v) == KeysWith(m, seen, v) + (if m[t] == v then 1 else 0)
  {
    forall v
      ensures KeysWith(m, seen + {t}, v) == KeysWith(m, seen, v) + (if m[t] == v then 1 else 0)
    {
      var before := set k | k in seen && k in m && m[k] == v;
      var after := set k | k in seen + {t} && k in m && m[k] == v;
      if m[t] == v {
        assert after == before + {t};
      } else {
        assert after == before;
      }
    }
  }

  /** `MapKeys`: every key of `m`, each exactly once. */
  method MapKeys<T, V>(m: map<T, V>) returns (out: seq<T>)
    ensures forall t :: t in out <==> t in m
    ensures NoDuplicates(out)
    ensures |out| == |m|
  {
    out := [];
    var rest := m.Keys;
    ghost var seen: set<T> := {};
    while rest != {}
      invariant rest !! seen && rest + seen == m.Keys
      invariant forall t :: t in out <==> t in seen
      invariant NoDuplicates(out)
      invariant |out| == |seen|
      decreases rest
    {
      var t :| t in rest;
      AppendFresh(out, t);
      out := out + [t];
      rest := rest - {t};
      seen := seen + {t};
    }
  }

  /** `MapValues`: the values of `m`, each as often as keys map to it. */
  method MapValues<K, V>(m: map<K, V>) returns (res: seq<V>)
    ensures forall v :: multiset(res)[v] == KeysWith(m, m.Keys, v)
    ensures |res| == |m|
  {
    res := [];
    var rest := m.Keys;
    ghost var seen: set<K> := {};
    while rest != {}
      invariant rest !! seen && rest + seen == m.Keys
      invariant forall v :: multiset(res)[v] == KeysWith(m, seen, v)
      invariant |res| == |seen|
      decreases rest
    {
      var k :| k in rest;
      KeysWithStep(m, seen, k);
      res := res + [m[k]];
      rest := rest - {k};
      seen := seen + {k};
    }
  }

  /** What a convertor callback returns: the converted value, whether to
      skip the entry, and the error if there is one. */
  datatype Conversion<V1, E> = Conversion(data: V1, skip: bool, err: Option<E>)

  /** `MapConvertF`: convert every value; fail with some convertor error if
      any key errs (which one depends on iteration order), otherwise keep the
      converted values of the entries that are not skipped. */
  method MapConvertF<K, V, V1, E>(m: map<K, V>, convertor: (K, V) -> Conversion<V1, E>)
    returns (r: Result<map<K, V1>, E>)
    ensures r.Err? <==> exists k | k in m :: convertor(k, m[k]).err.Some?
    ensures r.Err? ==> exists k | k in m :: convertor(k, m[k]).err == Some(r.error)
    ensures r.Ok? ==> r.value.Keys == set k | k in m && !convertor(k, m[k]).skip
    ensures r.Ok? ==> forall k | k in r.value :: r.value[k] == convertor(k, m[k]).data
  {
    var out: map<K, V1> := map[];
    var rest := m.Keys;
    while rest != {}
      invariant rest <= m.Keys
      invariant forall k | k in m && k !in rest :: convertor(k, m[k]).err.None?
      invariant out.Keys == set k | k in m && k !in rest && !convertor(k, m[k]).skip
      invariant forall k | k in out :: out[k] == convertor(k, m[k]).data
      decreases rest
    {
      var k :| k in rest;
      var c := convertor(k, m[k]);
      if c.err.Some? {
        return Err(c.err.value);
      }
      rest := rest - {k};
      if !c.skip {
        out := out[k := c.data];
      }
    }
    return Ok(out);
  }

  /** `MapConvertBool`: the same keys, every value `true`. */
  method MapConvertBool<K, V>(m: map<K, V>) returns (data: map<K, bool>)
    ensures data.Keys == m.Keys
    ensures forall k | k in data :: data[k]
  {
    var r: Result<map<K, bool>, string> := MapConvertF(m, (k: K, v: V) => Conversion(true, false, None));
    data := r.value;
  }

  /** `MapCompareF` (a nil map reads as empty, so nil is not modelled apart
      from the empty map): the keys only in `a`, the keys only in `b`, and
      the keys in both whose values `isSame` does not equate; every recorded
      value is `true`. */
  method MapCompareF<K, T>(a: map<K, T>, b: map<K, T>, isSame: (T, T) -> bool)
    returns (justA: map<K, bool>, justB: map<K, bool>, bothButNotEqual: map<K, bool>)
    ensures justA.Keys == a.Keys - b.Keys
    ensures justB.Keys == b.Keys - a.Keys
    ensures bothButNotEqual.Keys == set k | k in a && k in b && !isSame(a[k], b[k])
    ensures forall k | k in justA :: justA[k]
    ensures forall k | k in justB :: justB[k]
    ensures forall k | k in bothButNotEqual :: bothButNotEqual[k]
  {
    justA, justB, bothButNotEqual := map[], map[], map[];
    var rest := a.Keys;
    while rest != {}
      invariant rest <= a.Keys
      invariant justA.Keys == (a.Keys - rest) - b.Keys
      invariant bothButNotEqual.Keys == set k | k in a && k !in rest && k in b && !isSame(a[k], b[k])
      invariant forall k | k in justA :: justA[k]
      invariant forall k | k in bothButNotEqual :: bothButNotEqual[k]
      decreases rest
    {
      var k :| k in rest;
      if k !in b {
        justA := justA[k := true];
      } else if !isSame(a[k], b[k]) {
        bothButNotEqual := bothButNotEqual[k := true];
      }
      rest := rest - {k};
    }
    rest := b.Keys;
    while rest != {}
      invariant rest <= b.Keys
      invariant justB.Keys == (b.Keys - rest) - a.Keys
      invariant forall k | k in justB :: justB[k]
      decreases rest
    {
      var k :| k in rest;
      if k !in a {
        justB := justB[k := true];
      }
      rest := rest - {k};
    }
  }

  /** A Go map value: a reference to mutable contents, so that one map can
      be updated in place and seen through every reference to it. */
  class MapRef<K(==), V> {
    var contents: map<K, V>

    constructor (contents: map<K, V>)
      ensures this.contents == contents
    {
      this.contents := contents;
    }

    /** `dest[k] = v`. */
    method Put(k: K, v: V)
      modifies this
      ensures contents == old(contents)[k := v]
    {
      contents := contents[k := v];
    }
  }

  /** The entries of `a` overridden by those of `b`: the result of merging. */
  function Merged<K, V>(a: map<K, V>, b: map<K, V>): (r: map<K, V>)
    ensures r.Keys == a.Keys + b.Keys
    ensures forall k | k in b :: r[k] == b[k]
    ensures forall k | k in a && k !in b :: r[k] == a[k]
  {
    a + b
  }

  /** The `for k, v := range src { dest[k] = v }` loop of `MapMerge`. */
  method PutAll<K, V>(dest: MapRef<K, V>, src: map<K, V>)
    modifies dest
    ensures dest.contents == Merged(old(dest.contents), src)
  {
    ghost var base := dest.contents;
    var rest := src.Keys;
    while rest != {}
      invariant rest <= src.Keys
      invariant dest.contents == base + map k | k in src && k !in rest :: src[k]
      decreases rest
    {
      var k :| k in rest;
      dest.Put(k, src[k]);
      rest := rest - {k};
    }
    assert dest.contents == base + src;
  }

  /** `MapMerge`: merge `b` over `a` (`null` is a nil `a`). With `inPlace`
      and a non-nil `a` the merge updates and returns `a` itself; otherwise
      it builds a new map and leaves `a` alone. */
  method MapMerge<K, V>(a: MapRef?<K, V>, b: map<K, V>, inPlace: bool) returns (dest: MapRef<K, V>)
    modifies if inPlace && a != null then {a} else {}
    ensures dest.contents == Merged(if a == null then map[] else old(a.contents), b)
    ensures inPlace && a != null ==> dest == a
    ensures !inPlace || a == null ==> fresh(dest)
  {
    var d := a;
    if !inPlace {
      d := new MapRef(map[]);
      if a != null {
        PutAll(d, a.contents);
        assert d.contents == a.contents;
      }
    }
    if d == null {
      d := new MapRef(map[]);
    }
    dest := d;
    PutAll(dest, b);
  }

  /** `MapShallowCopy`: nil gives nil; otherwise the entries the keep
      function accepts, none at all when no keep function is given (the
      condition is `keepFunc != nil && keepFunc(k, v)`). A keep function is
      used only when exactly one is passed; `None` stands for a nil one. */
  method MapShallowCopy<K, V>(origin: Option<map<K, V>>, keepFuncOpt: seq<Option<(K, V) -> bool>>)
    returns (r: Option<map<K, V>>)
    ensures r.None? <==> origin.None?
    ensures r.Some? ==> r.value.Keys <= origin.value.Keys
    ensures r.Some? ==> forall k | k in r.value :: r.value[k] == origin.value[k]
    ensures r.Some? ==> forall k | k in origin.value ::
              (k in r.value <==> |keepFuncOpt| == 1 && keepFuncOpt[0].Some? && keepFuncOpt[0].value(k, origin.value[k]))
  {
    if origin.None? {
      return None;
    }
    var o := origin.value;
    var keepFunc: Option<(K, V) -> bool> := None;
    if |keepFuncOpt| == 1 {
      keepFunc := keepFuncOpt[0];
    }
    var m: map<K, V> := map[];
    var rest := o.Keys;
    while rest != {}
      invariant rest <= o.Keys
      invariant m.Keys == set k | k in o && k !in rest && keepFunc.Some? && keepFunc.value(k, o[k])
      invariant forall k | k in m :: m[k] == o[k]
      decreases rest
    {
      var k :| k in rest;
      if keepFunc.Some? && keepFunc.value(k, o[k]) {
        m := m[k := o[k]];
      }
      rest := rest - {k};
    }
    return Some(m);
  }

  /** `MapFilterF`: `MapShallowCopy` with the one keep function; `None`
      is a nil one, which keeps nothing. */
  method MapFilterF<K, V>(origin: Option<map<K, V>>, keepFunc: Option<(K, V) -> bool>) returns (r: Option<map<K, V>>)
    ensures r.None? <==> origin.None?
    ensures r.Some? && keepFunc.None? ==> r.value == map[]
    ensures r.Some? && keepFunc.Some? ==>
              r.value == map k | k in origin.value && keepFunc.value(k, origin.value[k]) :: origin.value[k]
  {
    r := MapShallowCopy(origin, [keepFunc]);
  }

  /** `MapFilter`: keep the entries whose key `keepMap` maps to `true`
      (a missing key reads as `false`). */
  method MapFilter<K, V>(origin: Option<map<K, V>>, keepMap: map<K, bool>) returns (r: Option<map<K, V>>)
    ensures r.None? <==> origin.None?
    ensures r.Some? ==> r.value.Keys == set k | k in origin.value && k in keepMap && keepMap[k]
    ensures r.Some? ==> forall k | k in r.value :: r.value[k] == origin.value[k]
  {
    r := MapFilterF(origin, Some((k: K, v: V) => k in keepMap && keepMap[k]));
  }
}
