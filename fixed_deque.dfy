/** FixedDeque: a double-ended queue of fixed capacity stored in one array of
    capacity + 1 slots. The extra slot is a sentinel, so head == tail means
    empty and the deque is full at capacity elements. Cursors are slot numbers
    (see module Ring). */
module FixedDeques {
  import opened Wrappers
  import opened Ring
  import opened SizeHelper

  /** A `ptrdiff_t` difference of two slot addresses only measures objects below this
      size, so the storage of a deque is never larger. */
  const PtrDiffLimit: int := 0x8000_0000_0000_0000

  /** The shifting loop of insert: `while (from != it) _move(--to, *--from)`
      with `to` starting n slots past end(). Afterwards logical positions
      before `it` (index k) still hold c[..k], positions k + n up to
      size + n hold c[k..], and `from` is back at `it`. */
  method OpenGap<T>(a: array<T>, l: Layout, it: nat, n: nat, ghost c: seq<T>) returns (from: nat)
    requires l.Valid() && InRange(l, it) && Holds(a, l, c) && Size(l) + n < l.slots
    modifies a
    ensures from == it
    ensures forall x {:trigger Slot(l, x)} :: 0 <= x < Index(l, it) ==> a[Slot(l, x)] == c[x]
    ensures forall x {:trigger Slot(l, x)} :: Index(l, it) + n <= x < Size(l) + n ==> a[Slot(l, x)] == c[x - n]
  {
    ghost var k := Index(l, it);
    ghost var size := Size(l);
    SizeIsIndexOfTail(l);
    AdvanceIndex(l, l.tail, n);
    var to: nat := Advance(l.slots, l.tail, n);
    from := l.tail;
    ghost var j := size;
    while from != it
      invariant k <= j <= size && from < l.slots && to < l.slots
      invariant Index(l, from) == j && Index(l, to) == j + n
      invariant forall x {:trigger Slot(l, x)} :: 0 <= x < j ==> a[Slot(l, x)] == c[x]
      invariant forall x {:trigger Slot(l, x)} :: j + n <= x < size + n ==> a[Slot(l, x)] == c[x - n]
      decreases j
    {
      if j == k {
        IndexInjective(l, from, it);
      }
      RetreatIndex(l, to, 1);
      RetreatIndex(l, from, 1);
      to := Retreat(l.slots, to, 1);
      from := Retreat(l.slots, from, 1);
      SlotOfIndex(l, to);
      SlotOfIndex(l, from);
      label Step:
      a[to] := a[from];
      forall x | 0 <= x < j - 1
        ensures a[Slot(l, x)] == c[x]
      {
        assert a[Slot(l, x)] == old@Step(a[Slot(l, x)]);
      }
      forall x | j - 1 + n <= x < size + n
        ensures a[Slot(l, x)] == c[x - n]
      {
        if x == j - 1 + n {
          assert a[Slot(l, x)] == old@Step(a[Slot(l, j - 1)]);
        } else {
          assert a[Slot(l, x)] == old@Step(a[Slot(l, x)]);
        }
      }
      j := j - 1;
    }
  }

  /** The copying loop of range insert: `while (first != last)
      _move(from++, *first++)`. Logical positions [k, k + |items|) (k the
      index of `from`) receive the items in order; every other position is
      untouched. */
  method FillGap<T>(a: array<T>, l: Layout, from: nat, items: seq<T>)
    requires l.Valid() && a.Length == l.slots && from < l.slots
    requires Index(l, from) + |items| < l.slots
    modifies a
    ensures forall x {:trigger Slot(l, x)} :: Index(l, from) <= x < Index(l, from) + |items| ==>
      a[Slot(l, x)] == items[x - Index(l, from)]
    ensures forall x {:trigger Slot(l, x)} :: 0 <= x < l.slots && !(Index(l, from) <= x < Index(l, from) + |items|) ==>
      a[Slot(l, x)] == old(a[Slot(l, x)])
  {
    ghost var k := Index(l, from);
    var v: nat := from;
    var i := 0;
    while i < |items|
      invariant 0 <= i <= |items| && v < l.slots && Index(l, v) == k + i
      invariant forall x {:trigger Slot(l, x)} :: k <= x < k + i ==> a[Slot(l, x)] == items[x - k]
      invariant forall x {:trigger Slot(l, x)} :: 0 <= x < l.slots && !(k <= x < k + i) ==> a[Slot(l, x)] == old(a[Slot(l, x)])
    {
      SlotOfIndex(l, v);
      AdvanceIndex(l, v, 1);
      a[v] := items[i];
      v := Advance(l.slots, v, 1);
      i := i + 1;
    }
  }

  /** The shifting loop of erase: `while (from != end()) *to++ = *from++`
      with `to` at logical index i and `from` at j >= i. Afterwards positions
      before i still hold c[..i] and positions i up to size - (j - i) hold
      c[j..]. */
  method CloseGap<T>(a: array<T>, l: Layout, to: nat, from: nat, ghost c: seq<T>)
    requires l.Valid() && InRange(l, to) && InRange(l, from) && Holds(a, l, c)
    requires Index(l, to) <= Index(l, from)
    modifies a
    ensures forall x {:trigger Slot(l, x)} :: 0 <= x < Index(l, to) ==> a[Slot(l, x)] == c[x]
    ensures forall x {:trigger Slot(l, x)} :: Index(l, to) <= x < Size(l) - (Index(l, from) - Index(l, to)) ==>
      a[Slot(l, x)] == c[x + (Index(l, from) - Index(l, to))]
  {
    ghost var i, j, size := Index(l, to), Index(l, from), Size(l);
    ghost var sh := j - i;
    SizeIsIndexOfTail(l);
    var t: nat, f: nat := to, from;
    ghost var d := i;
    while f != l.tail
      invariant i <= d && d + sh <= size && t < l.slots && f < l.slots
      invariant Index(l, t) == d && Index(l, f) == d + sh
      invariant forall x {:trigger Slot(l, x)} :: 0 <= x < i ==> a[Slot(l, x)] == c[x]
      invariant forall x {:trigger Slot(l, x)} :: d <= x < size ==> a[Slot(l, x)] == c[x]
      invariant forall x {:trigger Slot(l, x)} :: i <= x < d ==> a[Slot(l, x)] == c[x + sh]
      decreases size - d
    {
      if d + sh == size {
        IndexInjective(l, f, l.tail);
      }
      SlotOfIndex(l, t);
      SlotOfIndex(l, f);
      label Step:
      a[t] := a[f];
      forall x | 0 <= x < i
        ensures a[Slot(l, x)] == c[x]
      {
        assert a[Slot(l, x)] == old@Step(a[Slot(l, x)]);
      }
      forall x | d + 1 <= x < size
        ensures a[Slot(l, x)] == c[x]
      {
        assert a[Slot(l, x)] == old@Step(a[Slot(l, x)]);
      }
      forall x | i <= x < d + 1
        ensures a[Slot(l, x)] == c[x + sh]
      {
        if x == d {
          assert a[Slot(l, x)] == old@Step(a[Slot(l, d + sh)]);
        } else {
          assert a[Slot(l, x)] == old@Step(a[Slot(l, x)]);
        }
      }
      AdvanceIndex(l, t, 1);
      AdvanceIndex(l, f, 1);
      t := Advance(l.slots, t, 1);
      f := Advance(l.slots, f, 1);
      d := d + 1;
    }
  }

  /** The slots of layout l in array a hold the elements c, front first. */
  ghost predicate Holds<T>(a: array<T>, l: Layout, c: seq<T>)
    requires l.Valid()
    reads a
  {
    && a.Length == l.slots
    && |c| == Size(l)
    && forall i {:trigger Slot(l, i)} :: 0 <= i < |c| ==> c[i] == a[Slot(l, i)]
  }

  /** insert(it, v) once there is room: opens a one-slot gap at `it` and
      puts v into it, so the slots of l (grown by one at the tail) hold v
      inserted before the element `it` designated. */
  method InsertOne<T>(a: array<T>, l: Layout, it: nat, v: T, ghost c: seq<T>) returns (from: nat)
    requires l.Valid() && InRange(l, it) && Holds(a, l, c) && Size(l) + 1 < l.slots
    modifies a
    ensures from == it
    ensures Holds(a, l.(tail := Advance(l.slots, l.tail, 1)), c[..Index(l, it)] + [v] + c[Index(l, it)..])
  {
    ghost var k := Index(l, it);
    SizeIsIndexOfTail(l);
    from := OpenGap(a, l, it, 1, c);
    SlotOfIndex(l, from);
    label Opened:
    a[from] := v;
    GrowTail(l, 1);
    ghost var l' := l.(tail := Advance(l.slots, l.tail, 1));
    ghost var c' := c[..k] + [v] + c[k..];
    forall x | 0 <= x < |c'|
      ensures c'[x] == a[Slot(l', x)]
    {
      assert Slot(l', x) == Slot(l, x);
      if x < k {
        assert c'[x] == c[x] == old@Opened(a[Slot(l, x)]);
      } else if x > k {
        assert c'[x] == c[x - 1] == old@Opened(a[Slot(l, x)]);
      }
    }
  }

  /** insert(it, first, last) once there is room: opens an n-slot gap at
      `it` and copies the items into it. */
  method InsertGap<T>(a: array<T>, l: Layout, it: nat, items: seq<T>, ghost c: seq<T>) returns (from: nat)
    requires l.Valid() && InRange(l, it) && Holds(a, l, c) && Size(l) + |items| < l.slots
    modifies a
    ensures from == it
    ensures Holds(a, l.(tail := Advance(l.slots, l.tail, |items|)), c[..Index(l, it)] + items + c[Index(l, it)..])
  {
    var n := |items|;
    ghost var k := Index(l, it);
    SizeIsIndexOfTail(l);
    from := OpenGap(a, l, it, n, c);
    label Opened:
    FillGap(a, l, from, items);
    GrowTail(l, n);
    ghost var l' := l.(tail := Advance(l.slots, l.tail, n));
    ghost var c' := c[..k] + items + c[k..];
    forall x | 0 <= x < |c'|
      ensures c'[x] == a[Slot(l', x)]
    {
      assert Slot(l', x) == Slot(l, x);
      if x < k {
        assert c'[x] == c[x] == old@Opened(a[Slot(l, x)]);
      } else if x < k + n {
        assert c'[x] == items[x - k];
      } else {
        assert c'[x] == c[x - n] == old@Opened(a[Slot(l, x)]);
      }
    }
  }

  /** The shifting part of erase: removes the elements from `to` up to
      `from` by moving the rest down, so the slots of l (shrunk at the tail
      by the number removed) hold c without them. */
  method RemoveGap<T>(a: array<T>, l: Layout, to: nat, from: nat, ghost c: seq<T>)
    requires l.Valid() && InRange(l, to) && InRange(l, from) && Holds(a, l, c)
    requires Index(l, to) <= Index(l, from)
    modifies a
    ensures Holds(a, l.(tail := Retreat(l.slots, l.tail, Index(l, from) - Index(l, to))),
            c[..Index(l, to)] + c[Index(l, from)..])
  {
    ghost var i, j := Index(l, to), Index(l, from);
    ghost var n := j - i;
    SizeIsIndexOfTail(l);
    CloseGap(a, l, to, from, c);
    ShrinkTail(l, n);
    ghost var l' := l.(tail := Retreat(l.slots, l.tail, n));
    ghost var c' := c[..i] + c[j..];
    forall x | 0 <= x < |c'|
      ensures c'[x] == a[Slot(l', x)]
    {
      assert Slot(l', x) == Slot(l, x);
      if x < i {
        assert c'[x] == c[x];
      } else {
        assert c'[x] == c[x + n];
      }
    }
  }

  class FixedDeque<T(0)> {
    /** The storage, _storage_begin up to _storage_end. */
    var data: array<T>
    /** _begin and _end as slot numbers. */
    var head: nat
    var tail: nat
    /** The abstract value: the live elements, front first. */
    ghost var Contents: seq<T>

    function Shape(): Layout
      reads this
    {
      Layout(data.Length, head, tail)
    }

    ghost predicate Valid()
      reads this, data
    {
      && Shape().Valid()
      && data.Length <= PtrDiffLimit
      && |Contents| == Ring.Size(Shape())
      && forall i :: 0 <= i < |Contents| ==> Contents[i] == data[Advance(data.Length, head, i)]
    }

    /** The representation invariant, stated for the current layout. */
    lemma HoldsFromValid()
      requires Valid()
      ensures Holds(data, Shape(), Contents)
    {
      forall i | 0 <= i < |Contents|
        ensures Contents[i] == data[Slot(Shape(), i)]
      {
      }
    }

    /** _max_size(): the capacity, one less than the number of slots. */
    function Capacity(): nat
      reads this
      requires 1 <= data.Length
    {
      data.Length - 1
    }

    /** FixedDeque(n): allocates n + 1 slots, begin = end = storage start. */
    constructor (n: nat)
      requires n < PtrDiffLimit
      ensures Valid() && fresh(data)
      ensures Capacity() == n && Contents == [] && head == 0 && tail == 0
    {
      data := new T[n + 1];
      head, tail := 0, 0;
      Contents := [];
    }

    /** size(). */
    function Size(): (n: nat)
      reads this, data
      requires Valid()
      ensures n == |Contents| && n <= Capacity()
    {
      Ring.Size(Shape())
    }

    /** empty(): begin == end. */
    function Empty(): (b: bool)
      reads this, data
      requires Valid()
      ensures b <==> Contents == []
    {
      head == tail
    }

    /** begin(). */
    function Begin(): (u: nat)
      reads this, data
      requires Valid()
      ensures InRange(Shape(), u) && Index(Shape(), u) == 0
    {
      SlotOfIndex(Shape(), head);
      head
    }

    /** end(). */
    function End(): (u: nat)
      reads this, data
      requires Valid()
      ensures InRange(Shape(), u) && Index(Shape(), u) == |Contents|
    {
      SizeIsIndexOfTail(Shape());
      tail
    }

    /** operator[](i): element i lives at slot (head + i) mod (capacity + 1);
        the index is not checked. */
    function Get(i: nat): (x: T)
      reads this, data
      requires Valid() && i < |Contents|
      ensures x == Contents[i]
    {
      data[Advance(data.Length, head, i)]
    }

    /** at(i): operator[] with a bounds check. */
    function At(i: nat): (r: Result<T>)
      reads this, data
      requires Valid()
      ensures r.Failure? <==> i >= |Contents|
      ensures r.Failure? ==> r.error == OutOfRange
      ensures r.Success? ==> r.value == Contents[i]
    {
      if i >= Size() then Failure(OutOfRange) else Success(Get(i))
    }

    /** front(): *begin; undefined on an empty deque. */
    function Front(): (x: T)
      reads this, data
      requires Valid() && Contents != []
      ensures x == Contents[0]
    {
      data[head]
    }

    /** back(): *(end() - 1); undefined on an empty deque. */
    function Back(): (x: T)
      reads this, data
      requires Valid() && Contents != []
      ensures x == Contents[|Contents| - 1]
    {
      data[Retreat(data.Length, tail, 1)]
    }

    /** push_back(v): throws when full; otherwise v becomes the last element. */
    method PushBack(v: T) returns (r: Outcome)
      requires Valid()
      modifies this, data
      ensures Valid() && data == old(data) && head == old(head)
      ensures old(|Contents|) == Capacity() ==>
        r == Fail(OutOfRange) && Contents == old(Contents) && tail == old(tail)
      ensures old(|Contents|) < Capacity() ==>
        r == Pass && Contents == old(Contents) + [v] && tail == Advance(data.Length, old(tail), 1)
    {
      if Size() == Capacity() {
        return Fail(OutOfRange);
      }
      var l := Shape();
      SizeIsIndexOfTail(l);
      data[tail] := v;
      if tail == data.Length - 1 {
        tail := 0;
      } else {
        tail := tail + 1;
      }
      GrowTail(l, 1);
      Contents := Contents + [v];
      r := Pass;
    }

    /** pop_back(): throws when empty; otherwise drops the last element. */
    method PopBack() returns (r: Outcome)
      requires Valid()
      modifies this
      ensures Valid() && data == old(data) && head == old(head)
      ensures old(Contents) == [] ==> r == Fail(OutOfRange) && Contents == old(Contents) && tail == old(tail)
      ensures old(Contents) != [] ==>
        r == Pass && Contents == old(Contents)[..old(|Contents|) - 1] && tail == Retreat(data.Length, old(tail), 1)
    {
      if head == tail {
        return Fail(OutOfRange);
      }
      var l := Shape();
      if tail == 0 {
        tail := data.Length - 1;
      } else {
        tail := tail - 1;
      }
      ShrinkTail(l, 1);
      Contents := Contents[..|Contents| - 1];
      r := Pass;
    }

    /** push_front(v): throws when full; otherwise v becomes element 0. */
    method PushFront(v: T) returns (r: Outcome)
      requires Valid()
      modifies this, data
      ensures Valid() && data == old(data) && tail == old(tail)
      ensures old(|Contents|) == Capacity() ==>
        r == Fail(OutOfRange) && Contents == old(Contents) && head == old(head)
      ensures old(|Contents|) < Capacity() ==>
        r == Pass && Contents == [v] + old(Contents) && head == Retreat(data.Length, old(head), 1)
    {
      if Size() == Capacity() {
        return Fail(OutOfRange);
      }
      var l := Shape();
      GrowHead(l, 1);
      if head == 0 {
        head := data.Length - 1;
      } else {
        head := head - 1;
      }
      data[head] := v;
      Contents := [v] + Contents;
      r := Pass;
    }

    /** pop_front(): throws when empty; otherwise drops element 0. */
    method PopFront() returns (r: Outcome)
      requires Valid()
      modifies this
      ensures Valid() && data == old(data) && tail == old(tail)
      ensures old(Contents) == [] ==> r == Fail(OutOfRange) && Contents == old(Contents) && head == old(head)
      ensures old(Contents) != [] ==>
        r == Pass && Contents == old(Contents)[1..] && head == Advance(data.Length, old(head), 1)
    {
      if head == tail {
        return Fail(OutOfRange);
      }
      var l := Shape();
      ShrinkHead(l, 1);
      if head == data.Length - 1 {
        head := 0;
      } else {
        head := head + 1;
      }
      Contents := Contents[1..];
      r := Pass;
    }

    /** insert(it, v): throws when full; otherwise shifts the elements from
        `it` to the end one slot towards the tail, puts v at `it` and returns
        `it`, which now designates v. */
    method Insert(it: nat, v: T) returns (r: Result<nat>)
      requires Valid() && InRange(Shape(), it)
      modifies this, data
      ensures Valid() && data == old(data) && head == old(head)
      ensures old(|Contents|) + 1 > Capacity() ==>
        r == Failure(OutOfRange) && Contents == old(Contents) && tail == old(tail)
      ensures old(|Contents|) + 1 <= Capacity() ==>
        var k := Index(old(Shape()), it);
        && r == Success(it) && Index(Shape(), it) == k
        && Contents == old(Contents)[..k] + [v] + old(Contents)[k..]
    {
      if Size() + 1 > Capacity() {
        return Failure(OutOfRange);
      }
      var l := Shape();
      HoldsFromValid();
      ghost var k := Index(l, it);
      var from := InsertOne(data, l, it, v, Contents);
      tail := Advance(data.Length, tail, 1);
      Contents := Contents[..k] + [v] + Contents[k..];
      forall x | 0 <= x < |Contents|
        ensures Contents[x] == data[Advance(data.Length, head, x)]
      {
        assert Advance(data.Length, head, x) == Slot(Shape(), x);
      }
      r := Success(from);
    }

    /** insert(it, first, last): throws when the n = |items| new elements do
        not fit; otherwise shifts the elements from `it` to the end n slots
        towards the tail, copies the range into the gap and returns `it`, the
        position of the first inserted element. */
    method InsertRange(it: nat, items: seq<T>) returns (r: Result<nat>)
      requires Valid() && InRange(Shape(), it)
      modifies this, data
      ensures Valid() && data == old(data) && head == old(head)
      ensures old(|Contents|) + |items| > Capacity() ==>
        r == Failure(OutOfRange) && Contents == old(Contents) && tail == old(tail)
      ensures old(|Contents|) + |items| <= Capacity() ==>
        var k := Index(old(Shape()), it);
        && r == Success(it) && Index(Shape(), it) == k
        && Contents == old(Contents)[..k] + items + old(Contents)[k..]
    {
      var n := |items|;
      if Size() + n > Capacity() {
        return Failure(OutOfRange);
      }
      var l := Shape();
      HoldsFromValid();
      ghost var k := Index(l, it);
      var from := InsertGap(data, l, it, items, Contents);
      tail := Advance(data.Length, tail, n);
      Contents := Contents[..k] + items + Contents[k..];
      forall x | 0 <= x < |Contents|
        ensures Contents[x] == data[Advance(data.Length, head, x)]
      {
        assert Advance(data.Length, head, x) == Slot(Shape(), x);
      }
      r := Success(from);
    }

    /** erase(it): throws when empty; otherwise shifts the elements after `it`
        one slot towards the head, dropping the element at `it`, and returns
        `it`, which now designates the element that followed. */
    method Erase(it: nat) returns (r: Result<nat>)
      requires Valid() && InRange(Shape(), it)
      requires Contents != [] ==> Index(Shape(), it) < |Contents|
      modifies this, data
      ensures Valid() && data == old(data) && head == old(head)
      ensures old(Contents) == [] ==>
        r == Failure(OutOfRange) && Contents == old(Contents) && tail == old(tail)
      ensures old(Contents) != [] ==>
        var k := Index(old(Shape()), it);
        && r == Success(it) && Index(Shape(), it) == k
        && Contents == old(Contents)[..k] + old(Contents)[k + 1..]
    {
      if head == tail {
        return Failure(OutOfRange);
      }
      var l := Shape();
      HoldsFromValid();
      ghost var k := Index(l, it);
      SizeIsIndexOfTail(l);
      AdvanceIndex(l, it, 1);
      RemoveGap(data, l, it, Advance(data.Length, it, 1), Contents);
      tail := Retreat(data.Length, tail, 1);
      Contents := Contents[..k] + Contents[k + 1..];
      forall x | 0 <= x < |Contents|
        ensures Contents[x] == data[Advance(data.Length, head, x)]
      {
        assert Advance(data.Length, head, x) == Slot(Shape(), x);
      }
      r := Success(it);
    }

    /** erase(first, last): n = last - first, taken as a size_t (so a reversed
        pair wraps to a huge n); throws when n exceeds the size; otherwise
        shifts the elements from `last` on down to `first` and returns
        `first`. */
    method EraseRange(first: nat, last: nat) returns (r: Result<nat>)
      requires Valid() && InRange(Shape(), first) && InRange(Shape(), last)
      modifies this, data
      ensures Valid() && data == old(data) && head == old(head)
      ensures var i, j := Index(old(Shape()), first), Index(old(Shape()), last);
        && (j < i ==> r == Failure(OutOfRange) && Contents == old(Contents) && tail == old(tail))
        && (i <= j ==>
              && r == Success(first) && Index(Shape(), first) == i
              && Contents == old(Contents)[..i] + old(Contents)[j..])
    {
      var l := Shape();
      DiffAgreesWithIndex(l, last, first);
      var n := ToSizeT(Diff(l, last, first));
      if Size() < n {
        return Failure(OutOfRange);
      }
      HoldsFromValid();
      ghost var i := Index(l, first);
      ghost var j := Index(l, last);
      assert n == j - i;
      RemoveGap(data, l, first, last, Contents);
      tail := Retreat(data.Length, tail, n);
      Contents := Contents[..i] + Contents[j..];
      forall x | 0 <= x < |Contents|
        ensures Contents[x] == data[Advance(data.Length, head, x)]
      {
        assert Advance(data.Length, head, x) == Slot(Shape(), x);
      }
      r := Success(first);
    }

    /** resize(n, value): throws when n exceeds the capacity; appends copies
        of value when growing, drops elements from the back when shrinking. */
    method Resize(n: nat, value: T) returns (r: Outcome)
      requires Valid()
      modifies this, data
      ensures Valid() && data == old(data) && head == old(head)
      ensures n > old(|Contents|) && n > Capacity() ==>
        r == Fail(OutOfRange) && Contents == old(Contents) && tail == old(tail)
      ensures n <= old(|Contents|) || n <= Capacity() ==>
        && r == Pass
        && Contents == if n <= old(|Contents|) then old(Contents)[..n]
                       else old(Contents) + seq(n - old(|Contents|), _ => value)
    {
      var size := Size();
      var l := Shape();
      var L := data.Length;
      ghost var c0 := Contents;
      if n > size {
        if n > Capacity() {
          return Fail(OutOfRange);
        }
        SizeIsIndexOfTail(l);
        var newElems := n - size;
        HoldsFromValid();
        FillGap(data, l, tail, seq(newElems, _ => value));
        tail := Advance(L, tail, newElems);
        GrowTail(l, newElems);
        Contents := c0 + seq(newElems, _ => value);
      } else if n < size {
        var delElems := size - n;
        tail := Retreat(L, tail, delElems);
        ShrinkTail(l, delElems);
        Contents := c0[..n];
      }
      forall x | 0 <= x < |Contents|
        ensures Contents[x] == data[Advance(data.Length, head, x)]
      {
        assert Advance(data.Length, head, x) == Slot(l, x);
        if x < size {
          assert data[Slot(l, x)] == c0[x];
        }
      }
      r := Pass;
    }

    /** clear(): drops every element and puts begin and end back at the start
        of the storage. */
    method Clear()
      requires Valid()
      modifies this
      ensures Valid() && data == old(data)
      ensures Contents == [] && head == 0 && tail == 0
    {
      head, tail := 0, 0;
      Contents := [];
    }
  }
}
