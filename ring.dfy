/** The fixed-capacity ring of ring.go: a buffer of `capacity` slots that
    keeps the most recent pushes in push order, overwriting the oldest one
    once it is full. */
module RingBuffer {
  import opened Wrappers

  /** The last `min(|h|, capacity)` elements of the push history `h`:
      what a ring of that capacity holds after pushing `h` in order. */
  function Window<V>(h: seq<V>, capacity: nat): (r: seq<V>)
    ensures |r| == Min(|h|, capacity)
  {
    h[|h| - Min(|h|, capacity)..]
  }

  /** One more push appends to the window, and drops its oldest element
      once the window is as long as the capacity. */
  lemma WindowPush<V>(h: seq<V>, capacity: nat, x: V)
    requires capacity >= 1
    ensures Window(h + [x], capacity)
            == if |Window(h, capacity)| == capacity then Window(h, capacity)[1..] + [x]
               else Window(h, capacity) + [x]
  {
    if |h| < capacity {
      assert Window(h, capacity) == h[0..] == h;
      assert Window(h + [x], capacity) == (h + [x])[0..] == h + [x];
    } else {
      var a := |h| - capacity;
      assert Window(h, capacity) == h[a..];
      assert Window(h + [x], capacity) == (h + [x])[a + 1..] == h[a + 1..] + [x];
      assert h[a + 1..] == h[a..][1..];
    }
  }

  /** The elements of `s` that `filter` keeps, in order; `None` is the nil
      filter, which keeps everything. */
  function Keep<V>(s: seq<V>, filter: Option<V -> bool>): seq<V>
  {
    if s == [] then []
    else if filter.None? || filter.value(s[|s| - 1]) then Keep(s[..|s| - 1], filter) + [s[|s| - 1]]
    else Keep(s[..|s| - 1], filter)
  }

  /** Filtering one more element appends it exactly when the filter keeps it. */
  lemma KeepAppend<V>(s: seq<V>, x: V, filter: Option<V -> bool>)
    ensures Keep(s + [x], filter)
            == if filter.None? || filter.value(x) then Keep(s, filter) + [x] else Keep(s, filter)
  {
    assert (s + [x])[..|s|] == s;
  }

  /** The nil filter returns the whole sequence. */
  lemma {:induction false} KeepAll<V>(s: seq<V>)
    ensures Keep(s, None) == s
  {
    if s != [] {
      KeepAll(s[..|s| - 1]);
    }
  }

  /** A filter keeps exactly the elements it accepts: everything returned
      passes it, and every accepted element is returned. */
  lemma {:induction false} KeepSound<V>(s: seq<V>, f: V -> bool)
    ensures forall v | v in Keep(s, Some(f)) :: v in s && f(v)
    ensures forall v | v in s && f(v) :: v in Keep(s, Some(f))
    ensures |Keep(s, Some(f))| <= |s|
  {
    if s != [] {
      KeepSound(s[..|s| - 1], f);
      assert s == s[..|s| - 1] + [s[|s| - 1]];
    }
  }

  /** A filter that rejects everything returns nothing, as the Go test
      with `func(int) bool { return false }` expects. */
  lemma {:induction false} KeepNone<V>(s: seq<V>)
    ensures Keep(s, Some((v: V) => false)) == []
  {
    if s != [] {
      KeepNone(s[..|s| - 1]);
    }
  }

  /** The slot of logical index `i` in a buffer of `c` slots, for the
      indexes the ring computes (`0 <= i < 2c`). */
  function Slot(i: int, c: int): int
  {
    if i < c then i else i - c
  }

  /** `Slot` is the `i % c` of the Go code. */
  lemma ModWrap(i: int, c: int)
    requires 0 < c && 0 <= i < 2 * c
    ensures i % c == Slot(i, c)
  {
    if i >= c {
      assert i == c * 1 + (i - c);
    }
  }

  /** The `size` elements of the circular buffer `slots` starting at slot
      `begin` and wrapping past the end. */
  function Unroll<V>(slots: seq<V>, begin: int, size: int): (r: seq<V>)
    requires 0 <= begin < |slots| && 0 <= size <= |slots|
    ensures |r| == size
  {
    seq(size, k requires 0 <= k < size => slots[Slot(begin + k, |slots|)])
  }

  /** Reading one more element extends the unrolled sequence by one. */
  lemma UnrollExtend<V>(slots: seq<V>, begin: int, n: int)
    requires 0 <= begin < |slots| && 0 <= n < |slots|
    ensures Unroll(slots, begin, n + 1) == Unroll(slots, begin, n) + [slots[Slot(begin + n, |slots|)]]
  {
  }

  /** Reading and filtering one more element of the buffer. */
  lemma KeepNext<V>(slots: seq<V>, begin: int, n: int, filter: Option<V -> bool>)
    requires 0 <= begin < |slots| && 0 <= n < |slots|
    ensures var e := slots[Slot(begin + n, |slots|)];
            Keep(Unroll(slots, begin, n + 1), filter)
            == if filter.None? || filter.value(e) then Keep(Unroll(slots, begin, n), filter) + [e]
               else Keep(Unroll(slots, begin, n), filter)
  {
    UnrollExtend(slots, begin, n);
    KeepAppend(Unroll(slots, begin, n), slots[Slot(begin + n, |slots|)], filter);
  }

  /** Writing the slot after the last element of a ring that started at
      slot 0 appends. */
  lemma UnrollAppend<V>(slots: seq<V>, size: int, x: V)
    requires 0 <= size < |slots|
    ensures Unroll(slots[size := x], 0, size + 1) == Unroll(slots, 0, size) + [x]
  {
    var r, r' := Unroll(slots, 0, size) + [x], Unroll(slots[size := x], 0, size + 1);
    forall k | 0 <= k <= size
      ensures r'[k] == r[k]
    {
      assert r'[k] == slots[size := x][Slot(k, |slots|)];
      if k < size {
        assert r[k] == Unroll(slots, 0, size)[k] == slots[Slot(k, |slots|)];
      }
    }
  }

  /** Overwriting the oldest slot of a full buffer and starting one slot
      later drops the oldest element and appends `x`. */
  lemma UnrollOverwrite<V>(slots: seq<V>, begin: int, x: V)
    requires 0 <= begin < |slots|
    ensures Unroll(slots[begin := x], Slot(begin + 1, |slots|), |slots|)
            == Unroll(slots, begin, |slots|)[1..] + [x]
  {
    var c := |slots|;
    var r, r' := Unroll(slots, begin, c)[1..] + [x], Unroll(slots[begin := x], Slot(begin + 1, c), c);
    forall k | 0 <= k < c
      ensures r'[k] == r[k]
    {
      assert r'[k] == slots[begin := x][Slot(Slot(begin + 1, c) + k, c)];
      if k < c - 1 {
        assert r[k] == Unroll(slots, begin, c)[k + 1] == slots[Slot(begin + k + 1, c)];
      }
    }
  }

  class Ring<V(0)> {
    const capacity: int
    var begin: int
    var size: int
    const elements: array<V>
    /** Every value pushed so far, oldest first. */
    ghost var history: seq<V>

    /** The held elements in push order, read out of the slots. */
    ghost function Contents(): seq<V>
      reads this, elements
      requires 1 <= capacity == elements.Length && 0 <= begin < capacity && 0 <= size <= capacity
    {
      Unroll(elements[..], begin, size)
    }

    /** The slots from `begin` on, wrapping around, hold the last pushes;
        `begin` stays 0 until the ring is full. */
    ghost predicate Valid()
      reads this, elements
    {
      && 1 <= capacity == elements.Length
      && 0 <= begin < capacity && 0 <= size <= capacity
      && (size < capacity ==> begin == 0)
      && Contents() == Window(history, capacity)
    }

    /** `NewRing`: the Go code panics on a capacity below one. */
    constructor (capacity: int)
      requires capacity >= 1
      ensures Valid() && fresh(elements)
      ensures this.capacity == capacity && history == [] && size == 0
    {
      this.capacity := capacity;
      begin := 0;
      size := 0;
      elements := new V[capacity];
      history := [];
    }

    /** `Push`: append `data`; a full ring overwrites its oldest slot and
        moves `begin` past it. */
    method Push(data: V)
      requires Valid()
      modifies this, elements
      ensures Valid()
      ensures history == old(history) + [data]
      ensures Contents() == if old(size) == capacity then old(Contents())[1..] + [data]
                            else old(Contents()) + [data]
      ensures size == Min(old(size) + 1, capacity)
    {
      ghost var slots, start := elements[..], begin;
      WindowPush(history, capacity, data);
      if capacity == size {
        UnrollOverwrite(slots, begin, data);
        elements[begin] := data;
        assert elements[..] == slots[start := data];
        ModWrap(begin + 1, capacity);
        begin := begin + 1;
        begin := begin % capacity;
        assert Contents() == Unroll(slots[start := data], Slot(start + 1, capacity), capacity);
      } else {
        UnrollAppend(slots, size, data);
        elements[begin + size] := data;
        assert elements[..] == slots[size := data];
        size := size + 1;
        assert Contents() == Unroll(slots[size - 1 := data], 0, size);
      }
      history := history + [data];
    }

    /** `Elements`: the held elements in push order that `filter` keeps
        (`None` is a nil filter, which keeps all). */
    method Elements(filter: Option<V -> bool>) returns (r: seq<V>)
      requires Valid()
      ensures r == Keep(Contents(), filter)
    {
      ghost var slots := elements[..];
      r := [];
      for n := 0 to size
        invariant r == Keep(Unroll(slots, begin, n), filter)
      {
        var i := begin + n;
        ModWrap(i, capacity);
        var ele := elements[i % capacity];
        KeepNext(slots, begin, n, filter);
        if filter.None? || filter.value(ele) {
          r := r + [ele];
        }
      }
    }

    /** `First`: the slot at `begin`, and whether the ring holds anything;
        when it does, that slot is the oldest held element. */
    method First() returns (v: V, ok: bool)
      requires Valid()
      ensures ok == (size != 0) && v == elements[begin]
      ensures ok ==> v == Contents()[0] && v == history[|history| - size]
    {
      v, ok := elements[begin], size != 0;
      if ok {
        assert Contents()[0] == elements[..][Slot(begin, capacity)];
        assert Window(history, capacity)[0] == history[|history| - size];
      }
    }

    /** `Last`: the most recently pushed element, if there is one. */
    method Last() returns (v: V, ok: bool)
      requires Valid()
      ensures ok == (size != 0)
      ensures !ok ==> v == elements[begin]
      ensures ok ==> v == Contents()[size - 1] && v == history[|history| - 1]
    {
      if size == 0 {
        // No push has happened, so every slot still holds its initial
        // value, which stands for Go's zero value.
        return elements[begin], false;
      }
      var last := begin + size - 1;
      ModWrap(last, capacity);
      v, ok := elements[last % capacity], true;
      assert v == Contents()[size - 1];
      assert Window(history, capacity)[size - 1] == history[|history| - 1];
    }

    /** `Size`: the number of held elements, the smaller of the number of
        pushes and the capacity. */
    method Size() returns (n: int)
      requires Valid()
      ensures n == |Contents()| == Min(|history|, capacity)
    {
      return size;
    }
  }
}
