/** data_size(first, last): the length of an iterator range, used to size an
    array before it is filled. Iterators are modelled as positions in the
    sequence they walk, so a range [first, last) holds last - first items. */
module SizeHelper {

  /** size_t arithmetic is modulo 2^64. */
  const SizeTModulus: int := 0x1_0000_0000_0000_0000

  /** The conversion of a difference_type into size_type. */
  function ToSizeT(d: int): (n: nat)
    requires -SizeTModulus < d < SizeTModulus
    ensures n < SizeTModulus
    ensures n % SizeTModulus == d % SizeTModulus
    ensures 0 <= d ==> n == d
  {
    if d < 0 then d + SizeTModulus else d
  }

  /** The iterator_category tag that selects an overload of size_helper. */
  datatype Category = RandomAccess | Input

  /** size_helper for random-access iterators: `last - first`, returned as
      a size_t. A reversed range wraps around. */
  function RandomAccessSize(first: nat, last: nat): (n: nat)
    requires last - first < SizeTModulus && first - last < SizeTModulus
    ensures n < SizeTModulus
    ensures first <= last ==> n == last - first
    ensures last < first ==> n == SizeTModulus - (first - last)
  {
    ToSizeT(last - first)
  }

  /** size_helper for input iterators: counts the increments of a copy of
      `first` until it compares equal to `last`. The caller's iterators are
      passed by value and are not moved. */
  method InputSize(first: nat, last: nat) returns (n: nat)
    requires first <= last
    ensures n == last - first
  {
    var it := first;
    n := 0;
    while it != last
      invariant first <= it <= last
      invariant n == it - first
      decreases last - it
    {
      it := it + 1;
      n := n + 1;
    }
  }

  /** data_size(first, last): dispatch on the iterator category. Both
      overloads give the length of the range. */
  method DataSize(category: Category, first: nat, last: nat) returns (n: nat)
    requires first <= last < SizeTModulus
    ensures n == last - first
  {
    match category
    case RandomAccess =>
      n := RandomAccessSize(first, last);
    case Input =>
      n := InputSize(first, last);
  }

  /** An empty range has size 0 on the random-access path; InputSize's
      ensures gives the same on the input path. */
  lemma EmptyRangeHasSizeZero(p: nat)
    requires p < SizeTModulus
    ensures RandomAccessSize(p, p) == 0
  {
  }
}
