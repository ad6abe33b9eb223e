# IgushArray in Dafny

A model of IgushArray, a random-access sequence container that supports
O(1) indexing and O(√N) insert and erase, and of FixedDeque, the
fixed-capacity circular deque it is built from.

**FixedDeque** (`src/fixed_deque.h`)
- It stores its elements in an array of `capacity + 1` slots. One slot stays free, so `_begin == _end` means empty.
- It pushes and pops at both ends, and it inserts and erases by shifting the tail.
- Its cursor is a slot number with wrap-aware `+=`, `-=`, `<`, `>` and `-`.
- The class `FixedDeques.FixedDeque` keeps the array, the slot numbers `head` and `tail` (`_begin`, `_end`) and a ghost `Contents` sequence.
- The shifting loops are methods over the array, proved against `Contents`.
- The slot arithmetic and the wrap tie-break (`_special_lower`) are pure functions in module `Ring`. Lemmas there show that the cursor comparisons and the difference agree with logical indices.

**IgushArray** (`src/igush_array.h`)
- It keeps a vector of segments of `deqSize` elements each. Every segment except the last is full, and the last is non-empty unless it is the only one.
- The class `IgushArrays.IgushArray` holds the vector as a field `segs: seq<seq<T>>`, with one sequence per FixedDeque. Its methods reassign that field.
- Its value is the concatenation `Flatten(segs)` (module `Segments`).
- `Valid()` is the shape invariant, plus the requirement that the three sizes are the ones `_reserve` computes (module `Sizing`).
- The cascade loops of single insert and erase, and the loops of range insert and range erase, are methods with loop invariants. Each is proved to produce the expected splice of the old elements.
- The composite iterator is a pair (segment, offset) in module `IgushIterators`. Its `++`, `--`, `+=`, `-=`, difference and comparisons are proved to move and compare by logical index.

**data_size** (`src/size_helper.h`)
- The range length, computed either as `last - first` or by counting steps. Both paths are proved to give the length.

Iterators over input ranges are modelled as the sequence they walk (`items`), on the assumption that the walk can be repeated (multi-pass). An iterator category tag selects which `data_size` overload runs.

Three behaviours of the code are modelled as written:
- In IgushArray, `resize`, `assign` and `insert` under mode `NO` grow the vector past the planned capacity when the new size exceeds `capacity()`.
- IgushArray's `erase(first, last)` returns `first` and changes nothing for an empty or reversed range.
- The rebuild test of `resize` and `assign`, `(n > _capacity && reserve_mode) == IF_NEEDED || reserve_mode == YES`, is modelled literally over the enumerators' integer values. It is proved equal to "n exceeds the capacity and the mode is not NO, or the mode is YES".

## Model

| member | source | states |
|---|---|---|
| SizeHelper.RandomAccessSize | src/size_helper.h:23-27 | `last - first` as a size_t: the range length when first <= last, and wraps modulo 2^64 when the range is reversed |
| SizeHelper.InputSize | src/size_helper.h:29-37 | counting the increments of a copy of first until it reaches last gives exactly `last - first` |
| SizeHelper.DataSize | src/size_helper.h:17-21 | both overloads give the length of the range |
| SizeHelper.EmptyRangeHasSizeZero | src/size_helper.h:23-27 | an empty range has size 0 |
| Ring.Advance | src/fixed_deque.h:192-198 | a forward step of fewer than `slots` stays inside the storage |
| Ring.Retreat | src/fixed_deque.h:213-219 | a backward step of fewer than `slots` stays inside the storage |
| Ring.AdvanceRetreatAreModular | src/fixed_deque.h:192-219 | the one-wrap forward and backward steps are (u + k) mod slots and (u - k) mod slots |
| Ring.Size | src/fixed_deque.h:325-333 | size() is below the number of slots, so at most the capacity |
| Ring.SizeAndIndexAreModular | src/fixed_deque.h:325-333 | (head + size) mod slots is tail, and the logical index of a slot is (u - head) mod slots |
| Ring.SizeIsIndexOfTail | src/fixed_deque.h:325-333 | the size is the logical index of end() |
| Ring.Slot | src/fixed_deque.h:356-364 | operator[](i) reads the slot whose logical index is i |
| Ring.SlotOfIndex | src/fixed_deque.h:356-364 | slot and logical index are inverse |
| Ring.IndexInjective | src/fixed_deque.h:81-82 | distinct slots have distinct logical indices |
| Ring.LessAgreesWithIndex | src/fixed_deque.h:286-296 | for two cursors in [begin, end], operator< holds iff the first's logical index is smaller, even when the storage has wrapped |
| Ring.GreaterAgreesWithIndex | src/fixed_deque.h:298-308 | operator> holds iff the first's logical index is larger |
| Ring.DiffAgreesWithIndex | src/fixed_deque.h:273-284 | operator- between cursors is the difference of their logical indices |
| Ring.EqualAgreesWithIndex | src/fixed_deque.h:81-82 | equal slots iff equal logical indices |
| Ring.AdvanceIndex | src/fixed_deque.h:189-198 | `u += k` moves the logical index forward by k |
| Ring.RetreatIndex | src/fixed_deque.h:210-219 | `u -= k` moves the logical index back by k |
| Ring.GrowTail | src/fixed_deque.h:567-573 | _increase_end(k) adds k to the size |
| Ring.ShrinkTail | src/fixed_deque.h:583-589 | _decrease_end(k) takes k from the size |
| Ring.ShrinkHead | src/fixed_deque.h:575-581 | moving the head forward by k drops the first k elements, and every remaining element keeps its slot |
| Ring.GrowHead | src/fixed_deque.h:559-565 | moving the head back by k adds k places in front, and every old element keeps its slot, k places further on |
| FixedDeques.OpenGap | src/fixed_deque.h:454-457 | the shifting loop of insert: elements before `it` stay, and the elements from `it` on move n places towards the tail |
| FixedDeques.FillGap | src/fixed_deque.h:484-485 | the copying loop writes the items into consecutive slots from `from` and leaves every other slot alone |
| FixedDeques.CloseGap | src/fixed_deque.h:522-526 | the shifting loop of erase: elements before `to` stay, and the elements from `from` on move down to `to` |
| FixedDeques.InsertOne | src/fixed_deque.h:454-464 | with room for one more, the contents become prefix + [v] + suffix at the cursor's index |
| FixedDeques.InsertGap | src/fixed_deque.h:477-487 | with room for the items, the contents become prefix + items + suffix |
| FixedDeques.RemoveGap | src/fixed_deque.h:522-532 | the contents lose exactly the elements between the two cursors |
| FixedDeques.FixedDeque.HoldsFromValid | src/fixed_deque.h:356-364 | element i of the contents sits in slot (head + i) mod (capacity + 1) |
| FixedDeques.FixedDeque.constructor | src/fixed_deque.h:310-316 | a new deque has capacity n, no elements, and begin = end = storage start |
| FixedDeques.FixedDeque.Size | src/fixed_deque.h:325-333 | size() is the number of elements and never exceeds the capacity |
| FixedDeques.FixedDeque.Empty | src/fixed_deque.h:119-120 | empty() iff there are no elements |
| FixedDeques.FixedDeque.Begin | src/fixed_deque.h:124-125 | begin() is the cursor at logical index 0 |
| FixedDeques.FixedDeque.End | src/fixed_deque.h:128-129 | end() is the cursor at logical index size() |
| FixedDeques.FixedDeque.Get | src/fixed_deque.h:356-364 | operator[](i) is element i |
| FixedDeques.FixedDeque.At | src/fixed_deque.h:376-382 | at(i) fails with out_of_range iff i >= size(), and otherwise gives element i |
| FixedDeques.FixedDeque.Front | src/fixed_deque.h:147-148 | front() is element 0 |
| FixedDeques.FixedDeque.Back | src/fixed_deque.h:151-152 | back() is the last element |
| FixedDeques.FixedDeque.PushBack | src/fixed_deque.h:392-404 | fails and changes nothing when full; otherwise v is appended and the tail moves one slot with wrap |
| FixedDeques.FixedDeque.PopBack | src/fixed_deque.h:406-418 | fails and changes nothing when empty; otherwise exactly the last element goes |
| FixedDeques.FixedDeque.PushFront | src/fixed_deque.h:420-432 | fails and changes nothing when full; otherwise v becomes element 0 and the others follow in order |
| FixedDeques.FixedDeque.PopFront | src/fixed_deque.h:434-446 | fails and changes nothing when empty; otherwise exactly element 0 goes |
| FixedDeques.FixedDeque.Insert | src/fixed_deque.h:448-467 | fails when size() + 1 exceeds the capacity; otherwise the contents become prefix + [v] + suffix and the returned cursor designates v |
| FixedDeques.FixedDeque.InsertRange | src/fixed_deque.h:469-490 | fails when size() + n exceeds the capacity; otherwise the contents become prefix + items + suffix and the returned cursor is at the first inserted element |
| FixedDeques.FixedDeque.Erase | src/fixed_deque.h:492-513 | fails when empty; otherwise exactly the element at the cursor goes and the returned cursor keeps its index |
| FixedDeques.FixedDeque.EraseRange | src/fixed_deque.h:515-535 | a reversed pair wraps n to a huge size_t and fails; otherwise exactly [first, last) goes and the returned cursor is first |
| FixedDeques.FixedDeque.Resize | src/fixed_deque.h:335-354 | fails when n exceeds the capacity and the size; otherwise it pads with copies of value or truncates to n elements |
| FixedDeques.FixedDeque.Clear | src/fixed_deque.h:537-548 | no elements remain and begin = end = storage start |
| Sizing.IsqrtBounds | src/igush_array.h:878-880 | the segment size is the integer square root: Isqrt(n)² <= n < (Isqrt(n) + 1)² |
| Sizing.IsqrtUnique | src/igush_array.h:878-880 | that bound singles out one number, so Isqrt is the square root and nothing else |
| Sizing.CeilDiv | src/igush_array.h:881 | ceil(n / d) is the least multiple count: n <= q·d < n + d |
| Sizing.CeilDivStep | src/igush_array.h:822 | d more elements take one more segment |
| Sizing.ReserveSizes | src/igush_array.h:875-884 | the segment size and the segment count are at least 1 |
| Sizing.ReserveSizesFacts | src/igush_array.h:875-884 | capacity = vecSize·deqSize; deqSize is the square root of max(n, 1); the capacity holds max(n, 1) elements with less than one segment to spare |
| Sizing.ReserveHundred | src/igush_array.h:875-884 | reserving 100 gives ten segments of ten and capacity 100 |
| Sizing.ReserveSizesStable | src/igush_array.h:448-453 | reserving the capacity a reservation produced gives back the same three sizes, so a copy keeps its sizes |
| Sizing.RebuildAsWritten | src/igush_array.h:467 | the literal test over the enumerators' values holds iff (n > capacity and mode != NO) or mode == YES |
| Sizing.RebuildOnInsert | src/igush_array.h:642 | the rebuild test of range insert is the same condition as that of resize and assign |
| Segments.FlattenAt | src/igush_array.h:156-157 | offset i of segment k is element \|Flatten(segs[..k])\| + i of the array |
| Segments.SizeOfIsLength | src/igush_array.h:201-202 | on a shaped vector, `(segments - 1)·deqSize + size(last)` counts the elements |
| Segments.EmptyOfIsEmpty | src/igush_array.h:199-200 | on a shaped vector, empty() holds iff there are no elements |
| Segments.PrefixLength | src/igush_array.h:415-417 | on a shaped vector the segments before segment k hold k·deqSize elements |
| Segments.Route | src/igush_array.h:507-513 | element n is found in segment n / deqSize at offset n - (n / deqSize)·deqSize |
| Segments.Chop | src/igush_array.h:840-852 | the put-back layout (full segments, then the rest) is shaped and holds exactly the given elements |
| Segments.ChopCount | src/igush_array.h:822 | that layout takes ceil(\|s\| / deqSize) segments |
| Segments.ShapedIsChop | src/igush_array.h:199-202 | a shaped vector is determined by its elements: it is the canonical layout of its concatenation |
| Segments.CascadeStep | src/igush_array.h:617-622 | a segment that takes the carry at its front and gives up its back keeps the concatenation with the carry moved one segment on |
| Segments.InsertIntoSegment | src/igush_array.h:598-612 | the start of insert: x goes in at the offset, the back element is carried out, and the concatenation is the old one with x inserted |
| Segments.ShiftStep | src/igush_array.h:728-738 | a segment that gives up its last m elements and takes the incoming ones in front keeps the concatenation |
| Segments.ShrinkLast | src/igush_array.h:763-768 | after the erase cascade the vector is shaped, or is shaped once its empty last segment is dropped |
| IgushIterators.PosBound | src/igush_array.h:212-213 | a valid iterator's index is at most the size, and it is below the size iff it is on an element |
| IgushIterators.Begin | src/igush_array.h:208-209 | begin() is valid and stands for index 0 |
| IgushIterators.End | src/igush_array.h:212-213 | end() is valid and stands for index size() |
| IgushIterators.NormalUnique | src/igush_array.h:161-162 | two valid iterators at the same index are equal |
| IgushIterators.ComparisonsAgree | src/igush_array.h:161-172 | the lexicographic ==, <, >, <= and >= order valid iterators as their indices |
| IgushIterators.Incr | src/igush_array.h:363-371 | ++ keeps the iterator valid and moves its index up by one |
| IgushIterators.Decr | src/igush_array.h:386-395 | -- keeps the iterator valid and moves its index down by one |
| IgushIterators.JumpForward | src/igush_array.h:295-306 | the cross-segment jump of += lands on a valid iterator at the target index |
| IgushIterators.JumpForwardLands | src/igush_array.h:299-305 | the clamped segment count and the remaining offset give a valid position in the target segment |
| IgushIterators.JumpBackward | src/igush_array.h:333-344 | the cross-segment jump of -= lands on a valid iterator at the target index |
| IgushIterators.Plus | src/igush_array.h:287-320 | += k (k of either sign) gives a valid iterator at index + k |
| IgushIterators.Minus | src/igush_array.h:325-357 | -= k gives a valid iterator at index - k |
| IgushIterators.Diff | src/igush_array.h:409-420 | the difference of two valid iterators is the difference of their indices |
| IgushIterators.Deref | src/igush_array.h:156-157 | operator* is the element at the iterator's index |
| IgushIterators.BeginPlus | src/igush_array.h:626 | begin() + k is the valid iterator at index k |
| IgushIterators.OneRange | src/igush_array.h:83-87 | walking a OneValueIterator range reads `last - first` copies of its value |
| IgushIterators.OneRangeIsCopies | src/igush_array.h:240-241 | OneValueIterator(0, v) to OneValueIterator(n, v) is n copies of v and has length n |
| IgushIterators.OneStepsInverse | src/igush_array.h:65-84 | ++ then -- and += k then -= k give back the iterator; the difference after += k is k |
| IgushArrays.Lookup | src/igush_array.h:507-513 | operator[](n) is element n of the concatenation |
| IgushArrays.CheckedLookup | src/igush_array.h:523-529 | at(n) fails with out_of_range iff n >= size(), and otherwise gives element n |
| IgushArrays.OpenSlot | src/igush_array.h:594-612 | the first step of insert: segment lengths unchanged, and the concatenation plus the carried element is the old one with x inserted |
| IgushArrays.CarryThrough | src/igush_array.h:614-622 | the carry loop keeps every segment's length and moves the carry to the end of the concatenation |
| IgushArrays.InsertOneInPlace | src/igush_array.h:594-624 | the vector stays shaped, and its elements plus the final carry are the old elements with x inserted at the iterator's index |
| IgushArrays.EraseUndoesInsert | tests/igush_array_perf.h:136-140 | erasing the element just inserted at index p gives the old sequence back |
| IgushArrays.EraseCascade | src/igush_array.h:751-761 | the erase loop shortens only the last segment, by one, and the concatenation loses exactly the element at the iterator |
| IgushArrays.EraseLoop | src/igush_array.h:752-761 | the loop runs from the last segment down to the iterator's and leaves the invariant that the segments before the iterator's are untouched and the rest lack exactly the erased element |
| IgushArrays.EraseRound | src/igush_array.h:752-761 | one round of the erase loop keeps its invariant |
| IgushArrays.EraseFinish | src/igush_array.h:751-761 | at the end of the loop the concatenation lacks exactly the element at the iterator |
| IgushArrays.Overwrite | src/igush_array.h:932-948 | `_fill` overwrites the elements from the iterator with the items, keeps the shape and returns the iterator past them |
| IgushArrays.OverwriteOne | src/igush_array.h:937 | `*where = x` replaces exactly one element of the concatenation |
| IgushArrays.TruncateArith | src/igush_array.h:899-906 | the number of segments kept is between 1 and the number there are; the length the last kept one is cut to is between 0 and deqSize, within that segment when it is the old last one, and non-zero when more than one segment is kept |
| IgushArrays.TruncateFacts | src/igush_array.h:896-907 | keeping max(1, ceil(n / deqSize)) segments and cutting the last one leaves a shaped vector holding the first n elements |
| IgushArrays.Resized | src/igush_array.h:463-491 | the value resize(n, value) gives: length n, old element i below the old size, value above |
| IgushArrays.ResizedGrows | src/igush_array.h:472-474 | growing is appending n - size copies |
| IgushArrays.Spliced | src/igush_array.h:631-743 | the target of range insert: prefix, then the items, then the suffix |
| IgushArrays.CutChunks | src/igush_array.h:679-689 | the loop that fills new segments makes `count` full segments holding the items from `from` to `upto` |
| IgushArrays.DivMod | src/igush_array.h:673 | whole segments and remainder: q·ds + r = n with r < ds |
| IgushArrays.CutOverflow | src/igush_array.h:665-693 | the items fill the iterator's segment, then full segments, and fewer than a segment are left over |
| IgushArrays.OpenRangeOverflow | src/igush_array.h:658-694 | the overflow branch leaves a shaped vector that, with temp1 at the cursor, holds the target, and temp1 holds under two segments' worth |
| IgushArrays.OpenRangeFit | src/igush_array.h:695-707 | the branch where the items fit leaves the same kind of state |
| IgushArrays.SpillSegment | src/igush_array.h:709-724 | a temp1 of at least one segment's worth becomes a new full segment, leaving under one segment's worth |
| IgushArrays.ShiftThrough | src/igush_array.h:726-738 | the segment loop keeps the shape, and the concatenation plus what is left over is the target |
| IgushArrays.ShiftKeepsShape | src/igush_array.h:729-736 | a segment that takes as many elements in front as it gives up behind stays within the shape |
| IgushArrays.InsertInPlace | src/igush_array.h:652-740 | the in-place branch of range insert leaves a shaped vector whose elements, followed by the rest to push back, are the old ones with the items spliced in |
| IgushArrays.PullForward | src/igush_array.h:794-811 | the first loop of range erase keeps the shape, leaves the segments up to the range's end alone, and gathers `move` elements of the later ones in front of the rest |
| IgushArrays.PullDrop | src/igush_array.h:805-809 | a segment the loop empties is the last one, and it is removed |
| IgushArrays.PutBack | src/igush_array.h:840-852 | the last loop of range erase writes the saved elements as the canonical layout over the segments from `at` |
| IgushArrays.CeilDivRound | src/igush_array.h:844-850 | one segment of min(ds, r) elements leaves ceil((r - c) / ds) segments to write |
| IgushArrays.GapArith | src/igush_array.h:822-826 | `to_safe` segments fit between the range's first and last segments and are full when later segments remain |
| IgushArrays.CloseGap | src/igush_array.h:821-852 | removing the segments no longer needed and putting the saved elements back leaves a shaped vector holding them in place of the removed span |
| IgushArrays.StepBack | src/igush_array.h:789-792 | the normalised end of a non-empty range stands for the same index, has a non-zero offset, and is in first's segment or a later one |
| IgushArrays.EraseSpan | src/igush_array.h:779-852 | for a non-empty range the segments stay shaped and the concatenation loses exactly [first, last) |
| IgushArrays.EraseThrough | src/igush_array.h:794-852 | the pull, save, remove and put-back phases together remove exactly the range |
| IgushArrays.PullAndSave | src/igush_array.h:794-819 | after the pull loop and the saving of the kept elements, the untouched segments around the saved ones hold the elements without [first, last), and the saved ones fit the span the range covered, in whole segments when later segments remain |
| IgushArrays.EraseArith | src/igush_array.h:783-822 | the elements saved for putting back fit in the segments from first's to last's, and fill whole segments when later segments remain |
| IgushArrays.ClearedDisagrees | src/igush_array.h:868-872 | after clear() leaves no segments, size() is 0 but empty() is false, and the shape invariant is broken |
| IgushArrays.PushBackFacts | src/igush_array.h:569-578 | appending to the last segment, after a new one when it is full, keeps the shape and appends v |
| IgushArrays.IgushArray.Allocate | src/igush_array.h:875-894 | `_reserve(n)`: the sizes of ReserveSizes(n) and a vector of one empty segment |
| IgushArrays.IgushArray.constructor | src/igush_array.h:423-427 | an empty array sized for 0 |
| IgushArrays.IgushArray.Filled | src/igush_array.h:430-435 | n copies of value, sized for n |
| IgushArrays.IgushArray.FromRange | src/igush_array.h:438-445 | exactly the range's elements, sized for the range's length as data_size counts it |
| IgushArrays.IgushArray.Copy | src/igush_array.h:448-453 | the other array's elements and the same three sizes |
| IgushArrays.IgushArray.Size | src/igush_array.h:201-202 | size() is the number of elements |
| IgushArrays.IgushArray.Empty | src/igush_array.h:199-200 | empty() iff there are no elements |
| IgushArrays.IgushArray.Get | src/igush_array.h:507-513 | operator[](n) is element n |
| IgushArrays.IgushArray.At | src/igush_array.h:523-529 | at(n) fails with out_of_range iff n >= size(), and otherwise gives element n |
| IgushArrays.IgushArray.Front | src/igush_array.h:231-232 | front() is element 0 |
| IgushArrays.IgushArray.Back | src/igush_array.h:235-236 | back() is the last element |
| IgushArrays.IgushArray.BeginIter | src/igush_array.h:208-209 | begin() is valid at index 0 |
| IgushArrays.IgushArray.EndIter | src/igush_array.h:212-213 | end() is valid at index size() |
| IgushArrays.IgushArray.PushBack | src/igush_array.h:569-578 | v is appended, the shape is kept and the sizes do not change |
| IgushArrays.IgushArray.PopBack | src/igush_array.h:581-589 | on an empty array the segment deque's pop_back fails and nothing changes; otherwise exactly the last element goes and the shape is kept |
| IgushArrays.IgushArray.PushBackRange | src/igush_array.h:918-930 | the items are appended in order |
| IgushArrays.IgushArray.Insert | src/igush_array.h:592-627 | the elements become prefix + [x] + suffix at the iterator's index, the sizes are unchanged, and the result is a valid iterator at that index |
| IgushArrays.IgushArray.InsertRange | src/igush_array.h:631-743 | the elements become prefix + items + suffix; the sizes are ReserveSizes(size + n) when the rebuild test holds and unchanged otherwise; the result is at the old index |
| IgushArrays.IgushArray.InsertRebuilding | src/igush_array.h:642-651 | the rebuild branch: a new array sized for the total holds the spliced elements |
| IgushArrays.IgushArray.InsertKeeping | src/igush_array.h:652-741 | the in-place branch: the spliced elements, with the sizes unchanged |
| IgushArrays.IgushArray.InsertCopies | src/igush_array.h:249-250 | insert(it, n, value) splices in n copies of value, with the same sizing rule |
| IgushArrays.IgushArray.Erase | src/igush_array.h:746-771 | exactly the element at the iterator goes, the sizes are unchanged, and the result is a valid iterator at the same index |
| IgushArrays.IgushArray.EraseRange | src/igush_array.h:774-855 | first >= last changes nothing and returns first; otherwise exactly [first, last) goes and the result is at first's index |
| IgushArrays.IgushArray.InsertThenErase | tests/igush_array_perf.h:136-140 | insert(it, x) followed by erase at the returned iterator leaves the elements and sizes as they were |
| IgushArrays.IgushArray.InsertRangeThenEraseRange | src/igush_array.h:742 | a range insert followed by erasing from the returned iterator over n places leaves the elements as they were |
| IgushArrays.IgushArray.Fill | src/igush_array.h:932-948 | `_fill` overwrites the elements from the iterator with the items and returns the iterator past them |
| IgushArrays.IgushArray.DecreaseSize | src/igush_array.h:896-907 | the first n elements remain, shaped, with the sizes unchanged |
| IgushArrays.IgushArray.Swap | src/igush_array.h:857-865 | the two arrays exchange their segments and sizes |
| IgushArrays.IgushArray.CopyAssign | src/igush_array.h:197 | `operator=` swaps in a copy: this array gets the other's elements and sizes, and the other, when distinct, keeps its elements |
| IgushArrays.IgushArray.Rebuild | src/igush_array.h:645-650 | a fresh array reserved for n, filled by push_back and swapped in, holds the given elements with sizes ReserveSizes(n) |
| IgushArrays.IgushArray.Reserve | src/igush_array.h:494-504 | n <= capacity changes nothing; otherwise the same elements with sizes ReserveSizes(n) |
| IgushArrays.IgushArray.Resize | src/igush_array.h:462-491 | the elements become Resized(old, n, value); the sizes are ReserveSizes(n) when the rebuild test holds and unchanged otherwise |
| IgushArrays.IgushArray.Assign | src/igush_array.h:540-566 | the elements become exactly the range, with the same sizing rule |
| IgushArrays.IgushArray.AssignInPlace | src/igush_array.h:554-565 | the in-place branch: fill, then push back or truncate, gives exactly the range with the sizes unchanged |
| IgushArrays.IgushArray.AssignCopies | src/igush_array.h:240-241 | assign(n, value) gives n copies of value, with the same sizing rule |
| IgushArrays.IgushArray.ClearAsWritten | src/igush_array.h:867-872 | clear() as written: no segments remain |
| IgushArrays.IgushArray.Clear | src/igush_array.h:867-872 | clear() as intended: no elements, one empty segment, so empty() holds and the invariant is kept |

## Left out

- Allocation: `allocate`, `deallocate`, `construct`, `destroy`, `_destroy` and `_move`'s choice between constructing and assigning are not modelled. Each slot holds a plain value.
- Heap ownership: the `new` and `delete` of segments, `_delete_deques` and the destructors are not modelled. Each segment is its contents.
- The build that uses `std::deque` instead of FixedDeque for segments is not modelled.
- Floating point: the `sqrt`, `ceil` and `floor` calls over doubles are modelled as the exact integer square root (`Isqrt`) and integer division (`CeilDiv`, `/`). For large n, the double computation could round differently.
- Const iterators, reverse iterators, `operator->`, the conversion operators and `get_allocator` are not modelled.
- Iterator validity after a mutation is not modelled. Iterators are plain (segment, offset) values that each operation takes and returns.
- Exception safety: the model does not say what a throwing element copy would leave behind.
- IgushArray's segments are sequences, not FixedDeque objects. The model instead proves that every segment stays within `deqSize`. So the capacity checks of FixedDeque's `push_back`, `push_front` and `insert` never fire, and the throws of the segment deques are not modelled inside IgushArray.
- Element-by-element moves through `temp1`/`temp2` (`std::deque` pushes and pops) are modelled as moves of whole slices, with the same result.
- Ring.Advance: offsets are restricted to [0, slots). A negative or larger offset passed to a FixedDeque cursor's `+=` or `-=`, which wraps at most once, is not modelled.
- FixedDeques.FixedDeque.Resize: does not model the 32-bit `unsigned` truncation of the count of new or deleted elements when the difference is 2^32 or more.
- FixedDeques.FixedDeque.Erase: requires that the cursor is on an element when the deque is not empty. Erasing at `end()` of a non-empty deque reads past the elements in the source.
- FixedDeques.FixedDeque.constructor: requires a capacity below 2^63, the largest storage a `ptrdiff_t` difference can span. The `n + 1` allocation overflow is not modelled.
- IgushArrays.IgushArray.InsertCopies: does not model the truncation of n by the `int` parameter of OneValueIterator's constructor for n of 2^31 or more.
- IgushArrays.IgushArray.AssignCopies: does not model the truncation of n by the `int` parameter of OneValueIterator's constructor for n of 2^31 or more.
- IgushArrays.IgushArray.Filled: does not model the truncation of n by the `int` parameter of OneValueIterator's constructor (line 434). For n = 2^32 the source pushes nothing; for n = 2^31 it wraps to about 2^64 pushes. The model promises n copies for every n.
- IgushArrays.IgushArray.Resize: does not model the same truncation of the padding count n - size() (lines 474 and 487) when that count is 2^31 or more.
- Aliasing: values and ranges passed in are modelled as copies, independent of the array. The source takes `const T&` and OneValueIterator keeps a `const T&` (line 107). When such an argument refers to an element of the same array, the source reads it after elements have moved. The model does not capture this.
- FixedDeques.FixedDeque.Insert: assumes v does not alias an element of the deque. The shifting loop moves elements before v is read (fixed_deque.h:456-459).
- IgushArrays.IgushArray.Insert: assumes the value does not alias an element of the array. With `insert(begin(), a[1])` on a full segment, the source writes the shifted a[0], not a[1].
- IgushArrays.IgushArray.InsertRange: assumes the range does not walk elements of the same array.
- IgushArrays.IgushArray.InsertCopies: assumes the value does not alias an element of the array.
- IgushArrays.IgushArray.AssignCopies: assumes the value does not alias an element of the array. The source truncates (line 562) before the value is read.
- IgushArrays.IgushArray.Assign: assumes the range does not walk elements of the same array. The Input category stands for multi-pass iterators. A single-pass iterator such as `std::istream_iterator` is used up by the counting in `data_size` (size_helper.h:33) before `_push_back` reads it (lines 544, 551 and 559). The model does not capture this.
- IgushArrays.IgushArray.FromRange: the Input category stands for multi-pass iterators. A single-pass input range is used up by `data_size` before `_push_back` at lines 442-444 reads it. The model does not capture this.
- IgushArrays.IgushArray.Erase: requires that the iterator is on an element. `erase(end())` is undefined in the source.
- The erase loop of `erase(it)` decrements a vector iterator down to one before `begin()` when `it` is in the first segment. The model counts segments with an integer, and the loop stops at the iterator's segment.
- `capacity()` and `get_allocator()` are read as fields of the model and have no members of their own.
- size_t overflow of the total size (`size() + n`) is not modelled. Sizes are unbounded integers, and ranges are limited below 2^64 elements.
- IgushArrays.IgushArray.PopBack: the FixedDeque `pop_back` of an empty last segment leaves nothing changed, and its throw is modelled as a `Fail(OutOfRange)` outcome.

## Findings

| source | as written | input that shows it | evidently intended | confidence | as-written member | corrected member |
|---|---|---|---|---|---|---|
| src/igush_array.h:868-872 | `clear()` deletes every segment and resizes the vector to zero segments | any array, then `clear()`: `size()` gives 0 but `empty()` (line 200) is false, and a later `push_back` reads `_v->back()` of an empty vector | leave one empty segment, as `_reserve` does, so that `empty()` holds and the array stays usable | not executed | IgushArrays.IgushArray.ClearAsWritten, with IgushArrays.ClearedDisagrees | IgushArrays.IgushArray.Clear |
