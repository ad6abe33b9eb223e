/** The iterators of IgushArray.

    The composite iterator is a segment number and a cursor into that
    segment. The segment cursor is a FixedDeque cursor; the Ring module
    proves that such cursors compare and subtract as their logical offsets
    in the deque do, so here the cursor is that offset. The array an iterator
    belongs to (its `_ia`) is passed as its segments and segment size.

    OneValueIterator is a counting iterator that yields one value n times;
    `assign(n, v)` and `insert(it, n, v)` hand a pair of them to the range
    overloads. */
module IgushIterators {
  import opened Sizing
  import opened Segments

  /** `_vec_it` as a segment number, `_deq_it` as an offset in that segment. */
  datatype Iter = Iter(vec: nat, off: nat)

  /** The element index an iterator stands for. */
  function Pos<T>(segs: seq<seq<T>>, it: Iter): nat
    requires it.vec < |segs|
  {
    |Flatten(segs[..it.vec])| + it.off
  }

  /** A valid iterator: its cursor lies between its segment's begin and end,
      and the end of a segment is only used for the last one (the one that
      holds `end()`). */
  ghost predicate Normal<T>(segs: seq<seq<T>>, it: Iter)
  {
    && it.vec < |segs|
    && it.off <= |segs[it.vec]|
    && (it.off == |segs[it.vec]| ==> it.vec == |segs| - 1)
  }

  /** A valid iterator stands for an index no larger than the size; it is
      on an element exactly when that index is below the size. */
  lemma PosBound<T>(segs: seq<seq<T>>, it: Iter)
    requires Normal(segs, it)
    ensures Pos(segs, it) <= |Flatten(segs)|
    ensures Pos(segs, it) < |Flatten(segs)| <==> it.off < |segs[it.vec]|
  {
    var last := |segs| - 1;
    assert segs[..|segs|] == segs;
    PrefixGrows(segs, it.vec, |segs|);
    if it.off == |segs[it.vec]| {
      FlattenPrefixStep(segs, last);
    }
  }

  /** begin(): the first segment's begin. */
  function Begin<T>(segs: seq<seq<T>>, ds: nat): (it: Iter)
    requires Shaped(segs, ds)
    ensures Normal(segs, it) && Pos(segs, it) == 0
  {
    Iter(0, 0)
  }

  /** end(): the last segment's end. */
  function End<T>(segs: seq<seq<T>>, ds: nat): (it: Iter)
    requires Shaped(segs, ds)
    ensures Normal(segs, it) && Pos(segs, it) == |Flatten(segs)|
  {
    var last := |segs| - 1;
    FlattenPrefixStep(segs, last);
    assert segs[..last + 1] == segs;
    Iter(last, |segs[last]|)
  }

  /** Two valid iterators at the same index are the same iterator. */
  lemma NormalUnique<T>(segs: seq<seq<T>>, a: Iter, b: Iter)
    requires Normal(segs, a) && Normal(segs, b) && Pos(segs, a) == Pos(segs, b)
    ensures a == b
  {
    if a.vec < b.vec {
      PrefixGrows(segs, a.vec, b.vec);
    } else if a.vec > b.vec {
      PrefixGrows(segs, b.vec, a.vec);
    }
  }

  /** The valid iterator at index p. */
  function At<T>(segs: seq<seq<T>>, ds: nat, p: nat): (it: Iter)
    requires Shaped(segs, ds) && p <= |Flatten(segs)|
    ensures Normal(segs, it) && Pos(segs, it) == p
  {
    if p == |Flatten(segs)| then End(segs, ds)
    else
      var k := p / ds;
      Route(segs, ds, p);
      PrefixLength(segs, ds, k);
      Iter(k, p - k * ds)
  }

  /** operator==: same segment and same cursor. */
  predicate Equal(a: Iter, b: Iter) {
    a.vec == b.vec && a.off == b.off
  }

  /** operator<: lexicographic on (segment, cursor). */
  predicate Less(a: Iter, b: Iter) {
    a.vec < b.vec || (a.vec == b.vec && a.off < b.off)
  }

  /** operator>: lexicographic on (segment, cursor). */
  predicate Greater(a: Iter, b: Iter) {
    a.vec > b.vec || (a.vec == b.vec && a.off > b.off)
  }

  /** operator<= and operator>=: the strict test or equality. */
  predicate LessEq(a: Iter, b: Iter) {
    Less(a, b) || Equal(a, b)
  }

  predicate GreaterEq(a: Iter, b: Iter) {
    Greater(a, b) || Equal(a, b)
  }

  /** On valid iterators the comparisons order them as their indices. */
  lemma ComparisonsAgree<T>(segs: seq<seq<T>>, a: Iter, b: Iter)
    requires Normal(segs, a) && Normal(segs, b)
    ensures Equal(a, b) <==> Pos(segs, a) == Pos(segs, b)
    ensures Less(a, b) <==> Pos(segs, a) < Pos(segs, b)
    ensures Greater(a, b) <==> Pos(segs, a) > Pos(segs, b)
    ensures LessEq(a, b) <==> Pos(segs, a) <= Pos(segs, b)
    ensures GreaterEq(a, b) <==> Pos(segs, a) >= Pos(segs, b)
  {
    if Pos(segs, a) == Pos(segs, b) {
      NormalUnique(segs, a, b);
    }
    if a.vec < b.vec {
      PrefixGrows(segs, a.vec, b.vec);
    } else if a.vec > b.vec {
      PrefixGrows(segs, b.vec, a.vec);
    }
  }

  /** operator++: step the cursor; at the end of a segment other than the
      last, move to the next segment's begin. */
  function Incr<T>(segs: seq<seq<T>>, ds: nat, it: Iter): (r: Iter)
    requires Shaped(segs, ds) && Normal(segs, it) && Pos(segs, it) < |Flatten(segs)|
    ensures Normal(segs, r) && Pos(segs, r) == Pos(segs, it) + 1
  {
    PosBound(segs, it);
    var off := it.off + 1;
    if off == |segs[it.vec]| && it.vec < |segs| - 1 then
      FlattenPrefixStep(segs, it.vec);
      Iter(it.vec + 1, 0)
    else
      Iter(it.vec, off)
  }

  /** operator--: at a segment's begin other than the first, move to the
      previous segment's end; then step the cursor back. */
  function Decr<T>(segs: seq<seq<T>>, ds: nat, it: Iter): (r: Iter)
    requires Shaped(segs, ds) && Normal(segs, it) && 0 < Pos(segs, it)
    ensures Normal(segs, r) && Pos(segs, r) + 1 == Pos(segs, it)
  {
    if it.off == 0 && it.vec != 0 then
      FlattenPrefixStep(segs, it.vec - 1);
      Iter(it.vec - 1, |segs[it.vec - 1]| - 1)
    else
      Iter(it.vec, it.off - 1)
  }

  /** The arithmetic of the forward jump: rest elements ahead of a segment's
      begin, take rest / ds whole segments but stop at the last one; what is
      left is below ds unless the last segment was reached. */
  lemma JumpForwardArith(vec: nat, rest: nat, ds: nat, last: nat)
    requires 1 <= ds && vec <= last
    ensures var j := if vec + rest / ds >= last + 1 then last - vec else rest / ds;
      && vec + j <= last
      && j * ds <= rest
      && (vec + j < last ==> rest - j * ds < ds)
  {
    var q := rest / ds;
    assert rest == q * ds + rest % ds;
    var j := if vec + q >= last + 1 then last - vec else q;
    MulMonotone(j, q, ds);
  }

  /** The tail of operator+= once it has moved to the next segment's begin:
      from the begin of segment vec, rest elements ahead. */
  function JumpForward<T>(segs: seq<seq<T>>, ds: nat, vec: nat, rest: nat): (r: Iter)
    requires Shaped(segs, ds) && vec < |segs|
    requires |Flatten(segs[..vec])| + rest <= |Flatten(segs)|
    ensures Normal(segs, r) && Pos(segs, r) == |Flatten(segs[..vec])| + rest
  {
    var jump := rest / ds;
    var j := if vec + jump >= |segs| then |segs| - vec - 1 else jump;
    var off := rest - j * ds;
    JumpForwardLands(segs, ds, vec, rest, j, off);
    Iter(vec + j, off)
  }

  /** The forward jump lands where it should. */
  lemma JumpForwardLands<T>(segs: seq<seq<T>>, ds: nat, vec: nat, rest: nat, j: nat, off: int)
    requires Shaped(segs, ds) && vec < |segs|
    requires |Flatten(segs[..vec])| + rest <= |Flatten(segs)|
    requires j == (if vec + rest / ds >= |segs| then |segs| - vec - 1 else rest / ds)
    requires off == rest - j * ds
    ensures vec + j < |segs| && 0 <= off
    ensures Normal(segs, Iter(vec + j, off)) && Pos(segs, Iter(vec + j, off)) == |Flatten(segs[..vec])| + rest
  {
    JumpForwardArith(vec, rest, ds, |segs| - 1);
    PrefixRun(segs, ds, vec, j);
    JumpLands(segs, ds, vec, rest, j, off);
  }

  /** Landing off elements into segment vec + j, where the segments from
      vec up to it hold rest - off elements, reaches index
      |Flatten(segs[..vec])| + rest; the iterator is valid when off stays
      below ds except in the last segment. */
  lemma JumpLands<T>(segs: seq<seq<T>>, ds: nat, vec: nat, rest: nat, j: nat, off: nat)
    requires Shaped(segs, ds) && vec + j < |segs|
    requires |Flatten(segs[..vec])| + rest <= |Flatten(segs)|
    requires |Flatten(segs[..vec + j])| + off == |Flatten(segs[..vec])| + rest
    requires vec + j < |segs| - 1 ==> off < ds
    ensures Normal(segs, Iter(vec + j, off)) && Pos(segs, Iter(vec + j, off)) == |Flatten(segs[..vec])| + rest
  {
    var last := |segs| - 1;
    if vec + j == last {
      FlattenPrefixStep(segs, last);
      assert segs[..last + 1] == segs;
    }
  }

  /** The arithmetic of the backward jump: rest elements back from a
      segment's last slot, take rest / ds whole segments but stop at the
      first one; what is left is below ds. */
  lemma JumpBackwardArith(vec: nat, rest: nat, ds: nat)
    requires 1 <= ds && rest < vec * ds + ds
    ensures var j := if vec < rest / ds then vec else rest / ds;
      && j <= vec
      && j * ds <= rest < j * ds + ds
  {
    var q := rest / ds;
    assert rest == q * ds + rest % ds;
    if vec < q {
      MulMonotone(vec + 1, q, ds);
    }
  }

  /** The tail of operator-= once it has moved to the previous segment's
      last slot: from the last slot of segment vec (not the last segment),
      rest elements back. */
  function JumpBackward<T>(segs: seq<seq<T>>, ds: nat, vec: nat, rest: nat): (r: Iter)
    requires Shaped(segs, ds) && vec < |segs| - 1
    requires rest < |Flatten(segs[..vec])| + ds
    ensures Normal(segs, r) && Pos(segs, r) == |Flatten(segs[..vec])| + ds - 1 - rest
  {
    PrefixLength(segs, ds, vec);
    JumpBackwardArith(vec, rest, ds);
    var jump := rest / ds;
    var j := if vec < jump then vec else jump;
    var v := vec - j;
    PrefixRun(segs, ds, v, j);
    Iter(v, |segs[v]| - 1 - (rest - j * ds))
  }

  /** operator+=: zero leaves the iterator, a negative step goes back; a
      step that reaches the end of the segment (when it is not the last)
      moves to the next segment's begin and jumps whole segments, never past
      the last; the rest is added to the cursor. */
  function Plus<T>(segs: seq<seq<T>>, ds: nat, it: Iter, incr: int): (r: Iter)
    requires Shaped(segs, ds) && Normal(segs, it)
    requires 0 <= Pos(segs, it) + incr <= |Flatten(segs)|
    ensures Normal(segs, r) && Pos(segs, r) == Pos(segs, it) + incr
    decreases if incr < 0 then 1 else 0
  {
    if incr == 0 then it
    else if incr < 0 then Minus(segs, ds, it, -incr)
    else
      var toEnd := |segs[it.vec]| - it.off;
      if incr >= toEnd && it.vec != |segs| - 1 then
        FlattenPrefixStep(segs, it.vec);
        JumpForward(segs, ds, it.vec + 1, incr - toEnd)
      else
        PosBound(segs, it);
        FlattenPrefixStep(segs, it.vec);
        assert segs[..|segs|] == segs;
        Iter(it.vec, it.off + incr)
  }

  /** operator-=: zero leaves the iterator, a negative step goes forward; a
      step past the segment's begin moves to the previous segment's last
      slot and jumps whole segments, never before the first; the rest is
      taken off the cursor. */
  function Minus<T>(segs: seq<seq<T>>, ds: nat, it: Iter, decr: int): (r: Iter)
    requires Shaped(segs, ds) && Normal(segs, it)
    requires 0 <= Pos(segs, it) - decr <= |Flatten(segs)|
    ensures Normal(segs, r) && Pos(segs, r) == Pos(segs, it) - decr
    decreases if decr < 0 then 1 else 0
  {
    if decr == 0 then it
    else if decr < 0 then Plus(segs, ds, it, -decr)
    else if decr > it.off then
      FlattenPrefixStep(segs, it.vec - 1);
      JumpBackward(segs, ds, it.vec - 1, decr - (it.off + 1))
    else
      Iter(it.vec, it.off - decr)
  }

  /** operator- between iterators: negated when the left one is smaller;
      across segments, the whole segments between plus the two partial
      ones; within one segment, the cursor difference. */
  function Diff<T>(segs: seq<seq<T>>, ds: nat, a: Iter, b: Iter): (d: int)
    requires Shaped(segs, ds) && Normal(segs, a) && Normal(segs, b)
    ensures d == Pos(segs, a) - Pos(segs, b)
    decreases if Less(a, b) then 1 else 0
  {
    if Less(a, b) then -Diff(segs, ds, b, a)
    else if a.vec > b.vec then
      FlattenPrefixStep(segs, b.vec);
      PrefixRun(segs, ds, b.vec + 1, a.vec - b.vec - 1);
      (a.vec - b.vec - 1) * ds + a.off + (|segs[b.vec]| - b.off)
    else
      a.off - b.off
  }

  /** operator*: the element under the cursor. */
  function Deref<T>(segs: seq<seq<T>>, it: Iter): (v: T)
    requires Normal(segs, it) && Pos(segs, it) < |Flatten(segs)|
    ensures v == Flatten(segs)[Pos(segs, it)]
  {
    PosBound(segs, it);
    FlattenAt(segs, it.vec, it.off);
    segs[it.vec][it.off]
  }

  /** begin() + k, the iterator insert and erase return, is the valid
      iterator at index k. */
  lemma BeginPlus<T>(segs: seq<seq<T>>, ds: nat, k: nat)
    requires Shaped(segs, ds) && k <= |Flatten(segs)|
    ensures Plus(segs, ds, Begin(segs, ds), k) == At(segs, ds, k)
  {
    NormalUnique(segs, Plus(segs, ds, Begin(segs, ds), k), At(segs, ds, k));
  }

  /** OneValueIterator: a count and the value it repeats. */
  datatype OneValue<T> = OneValue(n: nat, value: T)

  function OneIncr<T>(it: OneValue<T>): OneValue<T> {
    it.(n := it.n + 1)
  }

  function OneDecr<T>(it: OneValue<T>): OneValue<T>
    requires 1 <= it.n
  {
    it.(n := it.n - 1)
  }

  function OnePlus<T>(it: OneValue<T>, incr: int): OneValue<T>
    requires 0 <= it.n + incr
  {
    it.(n := it.n + incr)
  }

  function OneMinus<T>(it: OneValue<T>, decr: int): OneValue<T>
    requires 0 <= it.n - decr
  {
    it.(n := it.n - decr)
  }

  function OneDiff<T>(a: OneValue<T>, b: OneValue<T>): int {
    a.n - b.n
  }

  function OneDeref<T>(it: OneValue<T>): T {
    it.value
  }

  predicate OneEqual<T>(a: OneValue<T>, b: OneValue<T>) {
    a.n == b.n
  }

  predicate OneLess<T>(a: OneValue<T>, b: OneValue<T>) {
    a.n < b.n
  }

  /** The values a walk `while (first != last) *first++` reads: one copy of
      first's value per step from first's count up to last's. */
  function OneRange<T>(first: OneValue<T>, last: OneValue<T>): (s: seq<T>)
    requires first.n <= last.n
    ensures |s| == OneDiff(last, first)
    ensures forall i :: 0 <= i < |s| ==> s[i] == first.value
    decreases last.n - first.n
  {
    if OneEqual(first, last) then []
    else [OneDeref(first)] + OneRange(OneIncr(first), last)
  }

  /** `OneValueIterator(0, v)` to `OneValueIterator(n, v)` is n copies of v,
      and its length as a random-access range (`last - first`) is n. */
  lemma OneRangeIsCopies<T>(n: nat, v: T)
    ensures OneRange(OneValue(0, v), OneValue(n, v)) == seq(n, _ => v)
    ensures OneDiff(OneValue(n, v), OneValue(0, v)) == n
  {
  }

  /** Stepping a OneValueIterator forward and back, or by k and back by k,
      returns it; its difference is additive. */
  lemma OneStepsInverse<T>(it: OneValue<T>, k: nat)
    ensures OneDecr(OneIncr(it)) == it
    ensures OneMinus(OnePlus(it, k), k) == it
    ensures OneDiff(OnePlus(it, k), it) == k
  {
  }
}
