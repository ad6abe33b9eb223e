/** Slot arithmetic of a FixedDeque: a circular buffer of `slots` cells
    (capacity + 1, one cell is the sentinel), whose live elements run from
    slot `head` (the deque's _begin) up to, not including, slot `tail` (_end),
    wrapping around the end of the storage. A cursor (FixedDequeIterator) is a
    slot number; this module gives its wrap-aware arithmetic and comparisons. */
module Ring {

  /** The positions of the deque inside its storage. */
  datatype Layout = Layout(slots: nat, head: nat, tail: nat)
  {
    predicate Valid() {
      1 <= slots && head < slots && tail < slots
    }
  }

  /** `u += k` / `++u` / _increase_end / _decrease_begin: step forward with
      one wrap. Offsets are restricted to [0, slots). */
  function Advance(slots: nat, u: nat, k: nat): (r: nat)
    requires u < slots && k < slots
    ensures r < slots
  {
    if u + k > slots - 1 then u + k - slots else u + k
  }

  /** `u -= k` / `--u` / _decrease_end / _increase_begin: step backward with
      one wrap. */
  function Retreat(slots: nat, u: nat, k: nat): (r: nat)
    requires u < slots && k < slots
    ensures r < slots
  {
    if u - k < 0 then u - k + slots else u - k
  }

  /** size(): the number of live elements, `_end - _begin` corrected by one
      storage length when negative. */
  function Size(l: Layout): (n: nat)
    requires l.Valid()
    ensures n < l.slots
  {
    if l.tail - l.head < 0 then l.tail - l.head + l.slots else l.tail - l.head
  }

  /** operator[](i): the slot holding logical element i. */
  function Slot(l: Layout, i: nat): (u: nat)
    requires l.Valid() && i < l.slots
    ensures u < l.slots
    ensures Index(l, u) == i
  {
    Advance(l.slots, l.head, i)
  }

  /** The logical index of slot u: its distance from `head` going forward,
      (u - head) mod slots. */
  ghost function Index(l: Layout, u: nat): nat
    requires l.Valid() && u < l.slots
  {
    if u >= l.head then u - l.head else u + l.slots - l.head
  }

  /** A cursor of this deque: a slot in [begin(), end()]. */
  ghost predicate InRange(l: Layout, u: nat)
    requires l.Valid()
  {
    u < l.slots && Index(l, u) <= Size(l)
  }

  /** _special_lower(u1, u2): the storage has wrapped (head past tail) and u1
      lies in the upper, wrapped-around run while u2 lies in the lower one, so
      u1 is logically before u2 although its slot number is larger. */
  predicate SpecialLower(l: Layout, u1: nat, u2: nat) {
    u1 >= l.head && l.head > l.tail && l.tail >= u2
  }

  /** operator<. */
  predicate Less(l: Layout, u1: nat, u2: nat) {
    if SpecialLower(l, u1, u2) then true
    else if SpecialLower(l, u2, u1) then false
    else u1 < u2
  }

  /** operator>. */
  predicate Greater(l: Layout, u1: nat, u2: nat) {
    if SpecialLower(l, u1, u2) then false
    else if SpecialLower(l, u2, u1) then true
    else u1 > u2
  }

  /** operator-(cursor): the signed distance u1 - u2. */
  function Diff(l: Layout, u1: nat, u2: nat): int {
    var res := u1 - u2;
    if SpecialLower(l, u1, u2) then res - l.slots
    else if SpecialLower(l, u2, u1) then res + l.slots
    else res
  }

  /** The wrap-around steps are addition and subtraction modulo the
      number of slots. */
  lemma AdvanceRetreatAreModular(slots: nat, u: nat, k: nat)
    requires u < slots && k < slots
    ensures Advance(slots, u, k) == (u + k) % slots
    ensures Retreat(slots, u, k) == (u - k) % slots
  {
    ModuloOneWrap(u + k, slots);
    ModuloOneWrap(u - k, slots);
  }

  /** Within one wrap of [0, m), x mod m is x corrected by at most one m. */
  lemma ModuloOneWrap(x: int, m: int)
    requires 0 < m && -m <= x < 2 * m
    ensures x % m == if x < 0 then x + m else if x >= m then x - m else x
  {
    var q, r := x / m, x % m;
    assert x == q * m + r && 0 <= r < m;
    if q == -1 {
      assert x == r - m;
    } else if q == 1 {
      assert x == r + m;
    }
  }

  /** The size is the distance from `head` to `tail` modulo the number of
      slots, and the logical index of a slot is its distance from `head`. */
  lemma SizeAndIndexAreModular(l: Layout, u: nat)
    requires l.Valid() && u < l.slots
    ensures (l.head + Size(l)) % l.slots == l.tail
    ensures Index(l, u) == (u - l.head) % l.slots
  {
    assert Index(l, u) == Retreat(l.slots, u, l.head);
    AdvanceRetreatAreModular(l.slots, u, l.head);
    assert Advance(l.slots, l.head, Size(l)) == l.tail;
    AdvanceRetreatAreModular(l.slots, l.head, Size(l));
  }

  /** Logical index and slot are inverse to each other. */
  lemma SlotOfIndex(l: Layout, u: nat)
    requires l.Valid() && u < l.slots
    ensures Slot(l, Index(l, u)) == u
  {
  }

  /** Distinct slots have distinct logical indices. */
  lemma IndexInjective(l: Layout, u: nat, v: nat)
    requires l.Valid() && u < l.slots && v < l.slots && Index(l, u) == Index(l, v)
    ensures u == v
  {
  }

  /** The size is the logical index of end(). */
  lemma SizeIsIndexOfTail(l: Layout)
    requires l.Valid()
    ensures Size(l) == Index(l, l.tail)
  {
  }

  /** For two cursors of one deque, operator< agrees with logical order, even
      when the storage has wrapped. */
  lemma LessAgreesWithIndex(l: Layout, u1: nat, u2: nat)
    requires l.Valid() && InRange(l, u1) && InRange(l, u2)
    ensures Less(l, u1, u2) <==> Index(l, u1) < Index(l, u2)
  {
  }

  /** operator> agrees with logical order. */
  lemma GreaterAgreesWithIndex(l: Layout, u1: nat, u2: nat)
    requires l.Valid() && InRange(l, u1) && InRange(l, u2)
    ensures Greater(l, u1, u2) <==> Index(l, u1) > Index(l, u2)
  {
  }

  /** operator- gives the difference of logical indices. */
  lemma DiffAgreesWithIndex(l: Layout, u1: nat, u2: nat)
    requires l.Valid() && InRange(l, u1) && InRange(l, u2)
    ensures Diff(l, u1, u2) == Index(l, u1) - Index(l, u2)
  {
  }

  /** operator== (equal slots) agrees with equal logical indices. */
  lemma EqualAgreesWithIndex(l: Layout, u1: nat, u2: nat)
    requires l.Valid() && InRange(l, u1) && InRange(l, u2)
    ensures u1 == u2 <==> Index(l, u1) == Index(l, u2)
  {
    SlotOfIndex(l, u1);
    SlotOfIndex(l, u2);
  }

  /** Moving a cursor forward by k stays a cursor k places further on. */
  lemma AdvanceIndex(l: Layout, u: nat, k: nat)
    requires l.Valid() && u < l.slots && Index(l, u) + k < l.slots
    ensures Index(l, Advance(l.slots, u, k)) == Index(l, u) + k
  {
  }

  /** Moving a cursor backward by k stays a cursor k places earlier. */
  lemma RetreatIndex(l: Layout, u: nat, k: nat)
    requires l.Valid() && u < l.slots && k <= Index(l, u)
    ensures Index(l, Retreat(l.slots, u, k)) == Index(l, u) - k
  {
  }

  /** Moving `tail` forward by k (push_back, _increase_end) adds k elements
      and keeps every live slot. */
  lemma GrowTail(l: Layout, k: nat)
    requires l.Valid() && Size(l) + k < l.slots
    ensures Size(l.(tail := Advance(l.slots, l.tail, k))) == Size(l) + k
  {
  }

  /** Moving `tail` backward by k (pop_back, _decrease_end) drops the last k
      elements. */
  lemma ShrinkTail(l: Layout, k: nat)
    requires l.Valid() && k <= Size(l)
    ensures Size(l.(tail := Retreat(l.slots, l.tail, k))) == Size(l) - k
  {
  }

  /** Moving `head` forward by k (pop_front) drops the first k elements: the
      remaining ones keep their slots. */
  lemma ShrinkHead(l: Layout, k: nat)
    requires l.Valid() && k <= Size(l)
    ensures var l' := l.(head := Advance(l.slots, l.head, k));
      && Size(l') == Size(l) - k
      && forall i :: 0 <= i < l.slots - k ==> Slot(l', i) == Slot(l, i + k)
  {
  }

  /** Moving `head` backward by k (push_front) adds k elements in front: the
      old ones keep their slots, k places further on. */
  lemma GrowHead(l: Layout, k: nat)
    requires l.Valid() && Size(l) + k < l.slots
    ensures var l' := l.(head := Retreat(l.slots, l.head, k));
      && Size(l') == Size(l) + k
      && forall i :: k <= i < l.slots ==> Slot(l', i) == Slot(l, i - k)
  {
  }
}
