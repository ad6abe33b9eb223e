/** IgushArray: a sequence container with O(1) access and O(sqrt N) insert
    and erase. The elements live in a vector of FixedDeque segments of
    `deqSize` slots each; every segment but the last is full. An insert
    pushes one element through the later segments (off the back of each,
    onto the front of the next), an erase pulls one back the other way.

    Each segment is modelled by its contents (the FixedDeque module models
    the ring buffer itself), so the vector is a `seq<seq<T>>` field that the
    methods reassign. */
module IgushArrays {
  import opened Wrappers
  import opened Sizing
  import opened Segments
  import opened IgushIterators
  import opened SizeHelper

  /** operator[](n) on the segment vector: segment n / ds, offset
      n - (n / ds) * ds in it. */
  function Lookup<T>(segs: seq<seq<T>>, ds: nat, n: nat): (v: T)
    requires Shaped(segs, ds) && n < |Flatten(segs)|
    ensures v == Flatten(segs)[n]
  {
    Route(segs, ds, n);
    var vecN := n / ds;
    segs[vecN][n - vecN * ds]
  }

  /** at(n) on the segment vector: the same route with both lookups checked,
      the vector's and the segment's; either one failing is out_of_range. */
  function CheckedLookup<T>(segs: seq<seq<T>>, ds: nat, n: nat): (r: Result<T>)
    requires Shaped(segs, ds)
    ensures n < |Flatten(segs)| ==> r == Success(Flatten(segs)[n])
    ensures |Flatten(segs)| <= n ==> r == Failure(OutOfRange)
  {
    var vecN := n / ds;
    if vecN >= |segs| then
      assert |Flatten(segs)| <= n by {
        if n < |Flatten(segs)| {
          Route(segs, ds, n);
        }
      }
      Failure(OutOfRange)
    else
      var off := n - vecN * ds;
      if off >= |segs[vecN]| then
        assert |Flatten(segs)| <= n by {
          if n < |Flatten(segs)| {
            Route(segs, ds, n);
          }
        }
        Failure(OutOfRange)
      else
        PrefixLength(segs, ds, vecN);
        FlattenAt(segs, vecN, off);
        Success(segs[vecN][off])
  }

  /** The first part of insert(it, val): val goes in at the iterator. When
      the iterator is end() nothing moves and val itself is carried on;
      otherwise the segment's back element is taken out to be carried on
      (a pop_back then push_back when the iterator is on that back element,
      a pop_back then insert otherwise). The segment keeps its length. */
  method OpenSlot<T>(segs: seq<seq<T>>, ds: nat, it: Iter, x: T) returns (v: seq<seq<T>>, carry: T)
    requires Shaped(segs, ds) && Normal(segs, it)
    ensures |v| == |segs| && forall j :: 0 <= j < |v| ==> |v[j]| == |segs[j]|
    ensures v[it.vec + 1..] == segs[it.vec + 1..]
    ensures Pos(segs, it) <= |Flatten(segs)|
    ensures Flatten(v[..it.vec + 1]) + [carry] + Flatten(v[it.vec + 1..])
              == Flatten(segs)[..Pos(segs, it)] + [x] + Flatten(segs)[Pos(segs, it)..]
  {
    PosBound(segs, it);
    ghost var p := Pos(segs, it);
    ghost var target := Flatten(segs)[..p] + [x] + Flatten(segs)[p..];
    var seg := segs[it.vec];
    if it.off == |seg| {
      v, carry := segs, x;
      assert Flatten(v[..it.vec + 1]) + [carry] + Flatten(v[it.vec + 1..]) == target by {
        assert v[..it.vec + 1] == v && v[it.vec + 1..] == [];
        assert Flatten(segs)[..p] == Flatten(segs) && Flatten(segs)[p..] == [];
      }
    } else if it.off == |seg| - 1 {
      var mid := seg[..|seg| - 1] + [x];
      v, carry := segs[it.vec := mid], seg[|seg| - 1];
      assert mid == seg[..it.off] + [x] + seg[it.off..|seg| - 1];
      InsertIntoSegment(segs, it.vec, it.off, x, mid, carry, v, p);
    } else {
      var mid := seg[..it.off] + [x] + seg[it.off..|seg| - 1];
      v, carry := segs[it.vec := mid], seg[|seg| - 1];
      InsertIntoSegment(segs, it.vec, it.off, x, mid, carry, v, p);
    }
  }

  /** The loop of insert(it, val): from segment k to the last, each segment
      takes the carried element at its front and hands its back element on
      (pop_back, then push_front). Segment lengths do not change; the
      element carried out of the last segment is returned. */
  method CarryThrough<T>(segs: seq<seq<T>>, ds: nat, k: nat, c: T) returns (v: seq<seq<T>>, carry: T)
    requires Shaped(segs, ds) && 1 <= k <= |segs|
    ensures |v| == |segs| && forall j :: 0 <= j < |v| ==> |v[j]| == |segs[j]|
    ensures v[..k] == segs[..k]
    ensures Flatten(v) + [carry] == Flatten(segs[..k]) + [c] + Flatten(segs[k..])
  {
    v, carry := segs, c;
    var i := k;
    while i < |v|
      invariant k <= i <= |v| == |segs|
      invariant forall j :: 0 <= j < |v| ==> |v[j]| == |segs[j]|
      invariant v[..k] == segs[..k]
      invariant Flatten(v[..i]) + [carry] + Flatten(v[i..]) == Flatten(segs[..k]) + [c] + Flatten(segs[k..])
    {
      var s := v[i];
      var next := s[|s| - 1];
      var u := v[i := [carry] + s[..|s| - 1]];
      assert Flatten(u[..i + 1]) + [next] + Flatten(u[i + 1..]) == Flatten(v[..i]) + [carry] + Flatten(v[i..]) by {
        CascadeStep(v, i, carry, u);
      }
      assert u[..k] == v[..k];
      v, carry, i := u, next, i + 1;
    }
    assert v[..i] == v && v[i..] == [];
    FlattenCut(v, k);
  }

  /** What the loop of erase(it) keeps, with segments k and on processed:
      the segments before k are untouched; the processed ones keep their
      lengths but the last, which lost one; temp2 holds the front element
      that segment k gave up (nothing before the first round); and the
      processed segments, after temp2, hold the old ones' elements, less
      the erased element once the iterator's segment first is processed. */
  ghost predicate EraseInv<T>(segs: seq<seq<T>>, v: seq<seq<T>>, k: nat, first: nat, off: nat, temp2: seq<T>)
  {
    && first <= k <= |v| == |segs|
    && first < |segs| && off < |segs[first]|
    && (forall j :: 0 <= j < k ==> v[j] == segs[j])
    && (k < |v| ==> |temp2| == 1)
    && (k == |v| ==> temp2 == [])
    && (forall j :: k <= j < |v| - 1 ==> |v[j]| == |segs[j]|)
    && (k < |v| ==> |Last(v)| + 1 == |Last(segs)|)
    && (first < k ==> temp2 + Flatten(v[k..]) == Flatten(segs[k..]))
    && (k == first ==> Flatten(v[k..]) == segs[k][..off] + segs[k][off + 1..] + Flatten(segs[k + 1..]))
  }

  /** The loop of erase(it): from the last segment down to the iterator's,
      each segment gives up its front element (the iterator's segment gives
      up the erased element instead) and, unless it is the last, takes at
      its back the element the segment after it gave up. temp2 holds nothing
      until the last segment has been processed. Every segment keeps its
      length but the last, which loses one. */
  method EraseCascade<T>(segs: seq<seq<T>>, ds: nat, it: Iter) returns (v: seq<seq<T>>)
    requires Shaped(segs, ds) && Normal(segs, it) && Pos(segs, it) < |Flatten(segs)|
    ensures |v| == |segs| && |Last(v)| + 1 == |Last(segs)|
    ensures forall j :: 0 <= j < |v| - 1 ==> |v[j]| == |segs[j]|
    ensures Flatten(v) == Flatten(segs)[..Pos(segs, it)] + Flatten(segs)[Pos(segs, it) + 1..]
  {
    PosBound(segs, it);
    var temp2;
    v, temp2 := EraseLoop(segs, ds, it.vec, it.off);
    EraseFinish(segs, v, it.vec, it.off, temp2, Pos(segs, it));
  }

  /** The loop of erase(it) itself, from the last segment down to segment
      first, whose element at off is erased. */
  method EraseLoop<T>(segs: seq<seq<T>>, ds: nat, first: nat, off: nat) returns (v: seq<seq<T>>, temp2: seq<T>)
    requires Shaped(segs, ds) && first < |segs| && off < |segs[first]|
    ensures EraseInv(segs, v, first, first, off, temp2)
  {
    v := segs;
    temp2 := [];
    var k: nat := |v|;
    EraseStart(segs, first, off);
    while k > first
      invariant EraseInv(segs, v, k, first, off, temp2)
    {
      v, temp2 := EraseRound(segs, ds, v, k, first, off, temp2);
      k := k - 1;
    }
  }

  /** Before the loop of erase(it) nothing has moved. */
  lemma EraseStart<T>(segs: seq<seq<T>>, first: nat, off: nat)
    requires first < |segs| && off < |segs[first]|
    ensures EraseInv(segs, segs, |segs|, first, off, [])
  {
    assert segs[|segs|..] == [];
  }

  /** One round of the loop of erase(it), on segment k: temp1 takes its
      front; the front (or, in the iterator's segment, the element at off)
      leaves it; temp2 goes onto its back unless it is the last segment. */
  method EraseRound<T>(segs: seq<seq<T>>, ds: nat, v: seq<seq<T>>, n: nat, first: nat, off: nat, temp2: seq<T>)
    returns (w: seq<seq<T>>, temp1: seq<T>)
    requires Shaped(segs, ds) && first < n && EraseInv(segs, v, n, first, off, temp2)
    ensures EraseInv(segs, w, n - 1, first, off, temp1)
  {
    var k := n - 1;
    var s := v[k];
    temp1 := [s[0]];
    var rest := if k == first then s[..off] + s[off + 1..] else s[1..];
    if k != |v| - 1 {
      rest := rest + temp2;
    }
    w := v[k := rest];
    EraseRoundFacts(segs, ds, v, n, first, off, temp2, rest, w);
  }

  /** A round of the loop of erase(it) keeps the loop's invariant. */
  lemma EraseRoundFacts<T>(segs: seq<seq<T>>, ds: nat, v: seq<seq<T>>, n: nat, first: nat, off: nat, temp2: seq<T>,
                           rest: seq<T>, w: seq<seq<T>>)
    requires Shaped(segs, ds) && first < n && EraseInv(segs, v, n, first, off, temp2)
    requires rest == (if n - 1 == first then v[n - 1][..off] + v[n - 1][off + 1..] else v[n - 1][1..])
                     + (if n - 1 != |v| - 1 then temp2 else [])
    requires w == v[n - 1 := rest]
    ensures v[n - 1] != [] && EraseInv(segs, w, n - 1, first, off, [v[n - 1][0]])
  {
    if n - 1 == first {
      EraseRoundAt(segs, ds, v, n, first, off, temp2, rest, w);
    } else {
      EraseRoundPass(segs, ds, v, n, first, off, temp2, rest, w);
    }
  }

  /** The round of the loop of erase(it) on the iterator's own segment. */
  lemma EraseRoundAt<T>(segs: seq<seq<T>>, ds: nat, v: seq<seq<T>>, n: nat, first: nat, off: nat, temp2: seq<T>,
                        rest: seq<T>, w: seq<seq<T>>)
    requires Shaped(segs, ds) && first == n - 1 && EraseInv(segs, v, n, first, off, temp2)
    requires rest == v[first][..off] + v[first][off + 1..] + (if first != |v| - 1 then temp2 else [])
    requires w == v[first := rest]
    ensures v[first] != [] && EraseInv(segs, w, first, first, off, [v[first][0]])
  {
    var k := first;
    assert v[k] == segs[k];
    if k < |segs| - 1 {
      assert |segs[k]| == ds;
    } else {
      assert temp2 == [];
    }
    assert forall j :: 0 <= j < k ==> w[j] == segs[j];
    assert forall j :: k <= j < |w| - 1 ==> |w[j]| == |segs[j]|;
    EraseAtStep(segs, v, k, off, temp2, w);
  }

  /** The round of the loop of erase(it) on a segment after the
      iterator's. */
  lemma EraseRoundPass<T>(segs: seq<seq<T>>, ds: nat, v: seq<seq<T>>, n: nat, first: nat, off: nat, temp2: seq<T>,
                          rest: seq<T>, w: seq<seq<T>>)
    requires Shaped(segs, ds) && first < n - 1 && EraseInv(segs, v, n, first, off, temp2)
    requires rest == v[n - 1][1..] + (if n - 1 != |v| - 1 then temp2 else [])
    requires w == v[n - 1 := rest]
    ensures v[n - 1] != [] && EraseInv(segs, w, n - 1, first, off, [v[n - 1][0]])
  {
    var k := n - 1;
    assert v[k] == segs[k];
    if k < |segs| - 1 {
      assert |segs[k]| == ds;
    } else {
      assert temp2 == [];
    }
    assert forall j :: 0 <= j < k ==> w[j] == segs[j];
    assert forall j :: k <= j < |w| - 1 ==> |w[j]| == |segs[j]|;
    ErasePassStep(segs, v, k, temp2, w);
  }

  /** One step of the erase cascade on a segment k after the iterator's:
      its front element goes to the segment before it. */
  lemma ErasePassStep<T>(segs: seq<seq<T>>, v: seq<seq<T>>, k: nat, t: seq<T>, w: seq<seq<T>>)
    requires k < |v| == |segs| && v[k] == segs[k] != []
    requires t + Flatten(v[k + 1..]) == Flatten(segs[k + 1..])
    requires w == v[k := segs[k][1..] + t]
    ensures [segs[k][0]] + Flatten(w[k..]) == Flatten(segs[k..])
  {
    ReplaceFrom(v, k, segs[k][1..] + t);
    FlattenFrom(segs, k);
    var s := segs[k];
    assert s == [s[0]] + s[1..];
  }

  /** The step of the erase cascade on the iterator's segment k: the
      element at offset off leaves it. */
  lemma EraseAtStep<T>(segs: seq<seq<T>>, v: seq<seq<T>>, k: nat, off: nat, t: seq<T>, w: seq<seq<T>>)
    requires k < |v| == |segs| && v[k] == segs[k] && off < |segs[k]|
    requires t + Flatten(v[k + 1..]) == Flatten(segs[k + 1..])
    requires w == v[k := segs[k][..off] + segs[k][off + 1..] + t]
    ensures Flatten(w[k..]) == segs[k][..off] + segs[k][off + 1..] + Flatten(segs[k + 1..])
  {
    ReplaceFrom(v, k, segs[k][..off] + segs[k][off + 1..] + t);
  }

  /** The end of the erase cascade: the segments before the iterator's are
      untouched and the rest hold their old elements less the erased one. */
  lemma EraseFinish<T>(segs: seq<seq<T>>, v: seq<seq<T>>, first: nat, off: nat, temp2: seq<T>, p: nat)
    requires EraseInv(segs, v, first, first, off, temp2) && p == |Flatten(segs[..first])| + off
    ensures |Last(v)| + 1 == |Last(segs)|
    ensures forall j :: 0 <= j < |v| - 1 ==> |v[j]| == |segs[j]|
    ensures p < |Flatten(segs)|
    ensures Flatten(v) == Flatten(segs)[..p] + Flatten(segs)[p + 1..]
  {
    assert v[..first] == segs[..first];
    EraseJoin(segs, v, first, off);
  }

  /** Gluing the untouched segments before the iterator's to the rest,
      which lacks the erased element. */
  lemma EraseJoin<T>(segs: seq<seq<T>>, v: seq<seq<T>>, first: nat, off: nat)
    requires first < |segs| && first <= |v| && off < |segs[first]| && v[..first] == segs[..first]
    requires Flatten(v[first..]) == segs[first][..off] + segs[first][off + 1..] + Flatten(segs[first + 1..])
    ensures |Flatten(segs[..first])| + off < |Flatten(segs)|
    ensures Flatten(v) == Flatten(segs)[..|Flatten(segs[..first])| + off] + Flatten(segs)[|Flatten(segs[..first])| + off + 1..]
  {
    var a, s, b := Flatten(segs[..first]), segs[first], Flatten(segs[first + 1..]);
    FlattenCut(v, first);
    FlattenSplit(segs, first);
    Excise(a, s, b, off, Flatten(segs), Flatten(v));
  }

  /** Erasing the element at index p of e with x inserted there gives e
      back: the round trip of insert(it, x) and erase at the iterator it
      returns. */
  lemma EraseUndoesInsert<T>(e: seq<T>, p: nat, x: T)
    requires p <= |e|
    ensures var s := e[..p] + [x] + e[p..]; p < |s| && s[..p] + s[p + 1..] == e
  {
  }

  /** Removing element off of s from a + s + b. */
  lemma Excise<T>(a: seq<T>, s: seq<T>, b: seq<T>, off: nat, e: seq<T>, f: seq<T>)
    requires off < |s| && e == a + s + b && f == a + (s[..off] + s[off + 1..] + b)
    ensures |a| + off < |e| && f == e[..|a| + off] + e[|a| + off + 1..]
  {
    Cut(a, s, b, off);
    Cut(a, s, b, off + 1);
  }

  /** Overwriting element p + i of e + ... with items[i] extends the
      overwritten stretch by one. */
  lemma OverwriteStep<T>(e: seq<T>, items: seq<T>, p: nat, i: nat)
    requires i < |items| && p + |items| <= |e|
    ensures (e[..p] + items[..i] + e[p + i..])[p + i := items[i]] == e[..p] + items[..i + 1] + e[p + i + 1..]
  {
    assert items[..i + 1] == items[..i] + [items[i]];
  }

  /** The loop of `_fill`: `*where++ = *first++` until the range runs
      out. Segment lengths do not change. */
  method Overwrite<T>(segs: seq<seq<T>>, ds: nat, where: Iter, items: seq<T>) returns (v: seq<seq<T>>, w: Iter)
    requires Shaped(segs, ds) && Normal(segs, where) && Pos(segs, where) + |items| <= |Flatten(segs)|
    ensures Shaped(v, ds) && Normal(v, w) && Pos(v, w) == Pos(segs, where) + |items|
    ensures Flatten(v) == Flatten(segs)[..Pos(segs, where)] + items + Flatten(segs)[Pos(segs, where) + |items|..]
  {
    ghost var e := Flatten(segs);
    ghost var p := Pos(segs, where);
    v, w := segs, where;
    var i := 0;
    while i < |items|
      invariant 0 <= i <= |items|
      invariant |v| == |segs| && forall j :: 0 <= j < |v| ==> |v[j]| == |segs[j]|
      invariant Shaped(v, ds) && Normal(v, w) && Pos(v, w) == p + i
      invariant Flatten(v) == e[..p] + items[..i] + e[p + i..]
    {
      var u := OverwriteOne(v, ds, w, items[i]);
      OverwriteStep(e, items, p, i);
      v := u;
      w := Incr(v, ds, w);
      i := i + 1;
    }
    assert items[..i] == items;
  }

  /** `*where = x` on the segment vector: one element of the concatenation
      changes; lengths and the iterator's position stay. */
  function OverwriteOne<T>(segs: seq<seq<T>>, ds: nat, where: Iter, x: T): (u: seq<seq<T>>)
    requires Shaped(segs, ds) && Normal(segs, where) && Pos(segs, where) < |Flatten(segs)|
    ensures |u| == |segs| && forall j :: 0 <= j < |u| ==> |u[j]| == |segs[j]|
    ensures Shaped(u, ds) && Normal(u, where) && Pos(u, where) == Pos(segs, where)
    ensures Flatten(u) == Flatten(segs)[Pos(segs, where) := x]
  {
    PosBound(segs, where);
    FlattenUpdateAt(segs, where.vec, where.off, x);
    var u := segs[where.vec := segs[where.vec][where.off := x]];
    assert u[..where.vec] == segs[..where.vec];
    SameLengthsShaped(segs, u, ds);
    u
  }

  /** The arithmetic of `_decrease_size(n)` on a vector of m full segments
      and a last one of L elements: it keeps vs = max(1, ceil(n / ds))
      segments, at most all of them, and the last kept one holds keep
      elements, no more than it had, and at least one unless it is the
      first. */
  lemma TruncateArith(n: nat, ds: nat, m: nat, L: nat, vs: nat, keep: int)
    requires 1 <= ds && L <= ds && n <= m * ds + L
    requires vs == (if CeilDiv(n, ds) == 0 then 1 else CeilDiv(n, ds))
    requires keep == n - (vs - 1) * ds
    ensures 1 <= vs <= m + 1 && 0 <= keep <= ds
    ensures vs - 1 == m ==> keep <= L
    ensures 1 < vs ==> 0 < keep
  {
    if n > 0 {
      assert (vs - 1) * ds < n;
      if vs > m + 1 {
        MulMonotone(m + 1, vs - 1, ds);
        assert false;
      }
    }
  }

  /** `_decrease_size(n)` keeps max(1, ceil(n / ds)) segments and cuts the
      last of them to `n - (vs - 1) * ds` elements: this leaves a shaped
      vector holding the first n elements. */
  lemma TruncateFacts<T>(segs: seq<seq<T>>, ds: nat, n: nat, vs: nat, keep: int)
    requires Shaped(segs, ds) && n <= |Flatten(segs)|
    requires vs == (if CeilDiv(n, ds) == 0 then 1 else CeilDiv(n, ds))
    requires keep == n - (vs - 1) * ds
    ensures 1 <= vs <= |segs| && 0 <= keep <= |segs[vs - 1]|
    ensures Shaped(segs[..vs][vs - 1 := segs[vs - 1][..keep]], ds)
    ensures Flatten(segs[..vs][vs - 1 := segs[vs - 1][..keep]]) == Flatten(segs)[..n]
  {
    var m := |segs| - 1;
    SizeOfIsLength(segs, ds);
    TruncateArith(n, ds, m, |segs[m]|, vs, keep);
    assert keep <= |segs[vs - 1]| by {
      if vs - 1 < m {
        assert |segs[vs - 1]| == ds;
      }
    }
    PrefixLength(segs, ds, vs - 1);
    TruncateSegs(segs, ds, vs, keep, n);
  }

  /** Cutting the vector after segment vs - 1 and that segment to keep
      elements leaves a shaped vector holding the elements before the cut. */
  lemma TruncateSegs<T>(segs: seq<seq<T>>, ds: nat, vs: nat, keep: nat, n: nat)
    requires Shaped(segs, ds) && 1 <= vs <= |segs| && keep <= |segs[vs - 1]|
    requires 1 < vs ==> 0 < keep
    requires n == |Flatten(segs[..vs - 1])| + keep && n <= |Flatten(segs)|
    ensures Shaped(segs[..vs][vs - 1 := segs[vs - 1][..keep]], ds)
    ensures Flatten(segs[..vs][vs - 1 := segs[vs - 1][..keep]]) == Flatten(segs)[..n]
  {
    TruncateShape(segs, ds, vs, keep);
    TruncateContent(segs, vs, keep, n);
  }

  lemma TruncateContent<T>(segs: seq<seq<T>>, vs: nat, keep: nat, n: nat)
    requires 1 <= vs <= |segs| && keep <= |segs[vs - 1]|
    requires n == |Flatten(segs[..vs - 1])| + keep
    ensures n <= |Flatten(segs)|
    ensures Flatten(segs[..vs][vs - 1 := segs[vs - 1][..keep]]) == Flatten(segs)[..n]
  {
    var p, x := segs[..vs], segs[vs - 1][..keep];
    var u := p[vs - 1 := x];
    FlattenAround(p, vs - 1, x, u);
    assert u[..vs] == u && p[..vs - 1] == segs[..vs - 1];
    FlattenSplit(segs, vs - 1);
    Cut(Flatten(segs[..vs - 1]), segs[vs - 1], Flatten(segs[vs..]), keep);
  }

  lemma TruncateShape<T>(segs: seq<seq<T>>, ds: nat, vs: nat, keep: nat)
    requires Shaped(segs, ds) && 1 <= vs <= |segs| && keep <= |segs[vs - 1]|
    requires 1 < vs ==> 0 < keep
    ensures Shaped(segs[..vs][vs - 1 := segs[vs - 1][..keep]], ds)
  {
    var u := segs[..vs][vs - 1 := segs[vs - 1][..keep]];
    assert forall j :: 0 <= j < vs - 1 ==> u[j] == segs[j];
  }

  /** The value resize(n, value) gives a sequence e: its first n elements
      when n is at most its length, otherwise e padded with copies of value
      up to length n. */
  function Resized<T>(e: seq<T>, n: nat, value: T): (r: seq<T>)
    ensures |r| == n
    ensures forall i :: 0 <= i < n ==> r[i] == if i < |e| then e[i] else value
  {
    if n <= |e| then e[..n] else e + seq(n - |e|, _ => value)
  }

  /** Growing, or resizing to the same length, pads with copies. */
  lemma ResizedGrows<T>(e: seq<T>, n: nat, value: T)
    requires |e| <= n
    ensures Resized(e, n, value) == e + seq(n - |e|, _ => value)
  {
    if n == |e| {
      assert e[..n] == e + seq(0, _ => value);
    }
  }

  /** The state range insert keeps between its phases: the segments
      before vec are settled, temp1 holds the elements still to be placed
      in front of segment vec, the vector is shaped, and when temp1 is not
      empty the segment before vec is full. Settled segments, temp1 and the
      rest spell out the target contents. */
  ghost predicate RangeState<T>(v: seq<seq<T>>, ds: nat, vec: nat, temp1: seq<T>, target: seq<T>)
  {
    && Shaped(v, ds) && 1 <= vec <= |v|
    && (temp1 != [] ==> |v[vec - 1]| == ds)
    && Flatten(v[..vec]) + temp1 + Flatten(v[vec..]) == target
  }

  /** The target of inserting items at index p of e. */
  function Spliced<T>(e: seq<T>, p: nat, items: seq<T>): (r: seq<T>)
    requires p <= |e|
    ensures |r| == |e| + |items|
    ensures r[..p] == e[..p] && r[p..p + |items|] == items && r[p + |items|..] == e[p..]
  {
    e[..p] + items + e[p..]
  }

  /** The loop of range insert that fills the inserted segments: count
      segments of ds elements each, taken from items starting at from. */
  method CutChunks<T>(items: seq<T>, from: nat, upto: nat, count: nat, ds: nat) returns (chunks: seq<seq<T>>)
    requires 1 <= ds && from + count * ds == upto <= |items|
    ensures |chunks| == count && Full(chunks, ds)
    ensures Flatten(chunks) == items[from..upto]
  {
    chunks := [];
    var used := from;
    var i := 0;
    while i < count
      invariant 0 <= i <= count && used == from + i * ds
      invariant |chunks| == i && Full(chunks, ds)
      invariant Flatten(chunks) == items[from..used]
    {
      ChunkStep(items, from, used, i, count, ds, chunks);
      chunks := chunks + [items[used..used + ds]];
      used := used + ds;
      i := i + 1;
    }
  }

  /** One round of CutChunks: the next ds items exist and make one more
      full segment. */
  lemma ChunkStep<T>(items: seq<T>, from: nat, used: nat, i: nat, count: nat, ds: nat, chunks: seq<seq<T>>)
    requires 1 <= ds && from + count * ds <= |items| && i < count && used == from + i * ds
    requires Full(chunks, ds) && Flatten(chunks) == items[from..used]
    ensures used + ds <= |items| && used + ds == from + (i + 1) * ds
    ensures Full(chunks + [items[used..used + ds]], ds)
    ensures Flatten(chunks + [items[used..used + ds]]) == items[from..used + ds]
  {
    MulMonotone(i + 1, count, ds);
    assert (i + 1) * ds == i * ds + ds;
    FlattenAppend(chunks, [items[used..used + ds]]);
    FlattenSingle(items[used..used + ds]);
    assert items[from..used + ds] == items[from..used] + items[used..used + ds];
  }

  /** Whole segments and the remainder: `n / ds` and `n % ds`. */
  method DivMod(n: nat, ds: nat) returns (q: nat, r: nat)
    requires 1 <= ds
    ensures q * ds + r == n && r < ds
  {
    q, r := n / ds, n % ds;
  }

  /** How range insert cuts the items when they overflow the iterator's
      segment: the first ones fill the segment up from `front` (the
      elements before the iterator), as many full segments as fit follow,
      and the last `rest` items, fewer than a segment, are left over. */
  method CutOverflow<T>(front: seq<T>, items: seq<T>, ds: nat) returns (filled: seq<T>, chunks: seq<seq<T>>, rest: nat)
    requires 1 <= ds && |front| <= ds && ds - |front| < |items|
    ensures filled == front + items[..ds - |front|] && Full(chunks, ds)
    ensures ds - |front| + rest <= |items| && rest < ds
    ensures Flatten(chunks) == items[ds - |front|..|items| - rest]
  {
    var capacityToEnd := ds - |front|;
    filled := front + items[..capacityToEnd];
    var insertVectors;
    insertVectors, rest := DivMod(|items| - capacityToEnd, ds);
    chunks := CutChunks(items, capacityToEnd, |items| - rest, insertVectors, ds);
  }

  /** Range insert when the items overflow the iterator's segment
      (`n > capacity_to_end`): the segment's elements from the iterator on
      go to temp1, the segment is filled up from the items, as many full
      segments of items as fit follow it, and the last items that do not
      fill a segment go to the front of temp1. */
  method OpenRangeOverflow<T>(segs: seq<seq<T>>, ds: nat, it: Iter, items: seq<T>, ghost target: seq<T>)
    returns (v: seq<seq<T>>, vec: nat, temp1: seq<T>)
    requires Shaped(segs, ds) && Normal(segs, it) && ds - it.off < |items|
    requires Pos(segs, it) <= |Flatten(segs)| && target == Spliced(Flatten(segs), Pos(segs, it), items)
    ensures RangeState(v, ds, vec, temp1, target) && |temp1| < 2 * ds
  {
    var filled, chunks, rest := CutOverflow(segs[it.vec][..it.off], items, ds);
    temp1 := items[|items| - rest..] + segs[it.vec][it.off..];
    v := segs[..it.vec] + ([filled] + chunks) + segs[it.vec + 1..];
    vec := it.vec + 1 + |chunks|;
    OverflowFacts(segs, ds, it, items, target, filled, chunks, rest, v, vec, temp1);
  }

  /** Why OpenRangeOverflow leaves a range-insert state. */
  lemma OverflowFacts<T>(segs: seq<seq<T>>, ds: nat, it: Iter, items: seq<T>, target: seq<T>,
                         filled: seq<T>, chunks: seq<seq<T>>, rest: nat,
                         v: seq<seq<T>>, vec: nat, temp1: seq<T>)
    requires Shaped(segs, ds) && Normal(segs, it) && ds - it.off < |items|
    requires Pos(segs, it) <= |Flatten(segs)| && target == Spliced(Flatten(segs), Pos(segs, it), items)
    requires filled == segs[it.vec][..it.off] + items[..ds - it.off]
    requires Full(chunks, ds) && ds - it.off + rest <= |items| && rest < ds
    requires Flatten(chunks) == items[ds - it.off..|items| - rest]
    requires temp1 == items[|items| - rest..] + segs[it.vec][it.off..]
    requires v == segs[..it.vec] + ([filled] + chunks) + segs[it.vec + 1..] && vec == it.vec + 1 + |chunks|
    ensures RangeState(v, ds, vec, temp1, target) && |temp1| < 2 * ds
  {
    var mid := [filled] + chunks;
    OverflowLengths(segs, ds, it, items, rest, filled, temp1);
    OverflowShape(segs, ds, it.vec, filled, chunks, v);
    var c := ds - it.off;
    var u := |items| - rest;
    Split3(items, c, u);
    OverflowContent(segs, it, items, items[..c], items[c..u], items[u..], filled, chunks, v, temp1);
  }

  /** The lengths in OverflowFacts: the filled segment is full and temp1
      holds under two segments' worth. */
  lemma OverflowLengths<T>(segs: seq<seq<T>>, ds: nat, it: Iter, items: seq<T>, rest: nat, filled: seq<T>, temp1: seq<T>)
    requires Shaped(segs, ds) && Normal(segs, it) && ds - it.off < |items| && rest < ds && rest <= |items|
    requires filled == segs[it.vec][..it.off] + items[..ds - it.off]
    requires temp1 == items[|items| - rest..] + segs[it.vec][it.off..]
    ensures |segs[it.vec]| <= ds && |filled| == ds && |temp1| < 2 * ds
  {
    if it.vec < |segs| - 1 {
      assert |segs[it.vec]| == ds;
    }
  }

  /** The shape half of OverflowFacts: a full segment and full chunks put in
      place of a full-sized segment k keep the vector shaped, and the last
      of them is full. */
  lemma OverflowShape<T>(segs: seq<seq<T>>, ds: nat, k: nat, filled: seq<T>, chunks: seq<seq<T>>, v: seq<seq<T>>)
    requires Shaped(segs, ds) && k < |segs| && |filled| == ds && Full(chunks, ds)
    requires v == segs[..k] + ([filled] + chunks) + segs[k + 1..]
    ensures Shaped(v, ds) && k + 1 + |chunks| <= |v| && |v[k + |chunks|]| == ds
  {
    var mid := [filled] + chunks;
    assert Full(mid, ds) by {
      forall j | 0 <= j < |mid|
        ensures |mid[j]| == ds
      {
        if j > 0 {
          assert mid[j] == chunks[j - 1];
        }
      }
    }
    ShapedSplice(segs, ds, k, mid);
    assert v[k + |chunks|] == mid[|mid| - 1];
  }

  lemma Split3<T>(s: seq<T>, i: nat, j: nat)
    requires i <= j <= |s|
    ensures s == s[..i] + s[i..j] + s[j..]
  {
  }

  /** The content half of OverflowFacts. */
  lemma OverflowContent<T>(segs: seq<seq<T>>, it: Iter, items: seq<T>, x: seq<T>, y: seq<T>, z: seq<T>,
                           filled: seq<T>, chunks: seq<seq<T>>, v: seq<seq<T>>, temp1: seq<T>)
    requires it.vec < |segs| && it.off <= |segs[it.vec]| && items == x + y + z
    requires filled == segs[it.vec][..it.off] + x && Flatten(chunks) == y
    requires temp1 == z + segs[it.vec][it.off..]
    requires v == segs[..it.vec] + ([filled] + chunks) + segs[it.vec + 1..]
    ensures Pos(segs, it) <= |Flatten(segs)|
    ensures Flatten(v[..it.vec + 1 + |chunks|]) + temp1 + Flatten(v[it.vec + 1 + |chunks|..])
              == Spliced(Flatten(segs), Pos(segs, it), items)
  {
    var seg := segs[it.vec];
    var a, b := Flatten(segs[..it.vec]), Flatten(segs[it.vec + 1..]);
    SpliceSegs(segs, it.vec, [filled] + chunks, v);
    FlattenAppend([filled], chunks);
    FlattenSingle(filled);
    FlattenSplit(segs, it.vec);
    SpliceParts(a, seg, b, it.off, x, y, z, Flatten(segs), Pos(segs, it), items,
                Flatten(v[..it.vec + 1 + |chunks|]) + temp1 + Flatten(v[it.vec + 1 + |chunks|..]));
  }

  /** Flattening a vector in which segment k was replaced by several. */
  lemma SpliceSegs<T>(segs: seq<seq<T>>, k: nat, mid: seq<seq<T>>, v: seq<seq<T>>)
    requires k < |segs| && v == segs[..k] + mid + segs[k + 1..]
    ensures Flatten(v[..k + |mid|]) == Flatten(segs[..k]) + Flatten(mid)
    ensures Flatten(v[k + |mid|..]) == Flatten(segs[k + 1..])
  {
    assert v[..k + |mid|] == segs[..k] + mid && v[k + |mid|..] == segs[k + 1..];
    FlattenAppend(segs[..k], mid);
  }

  /** The sequence algebra of OpenRangeOverflow: items cut in three parts
      x, y, z land as x and y after the kept front of the segment and z in
      front of its back. */
  lemma SpliceParts<T>(a: seq<T>, s: seq<T>, b: seq<T>, off: nat, x: seq<T>, y: seq<T>, z: seq<T>,
                       e: seq<T>, p: nat, items: seq<T>, r: seq<T>)
    requires off <= |s| && e == a + s + b && p == |a| + off && items == x + y + z
    requires r == a + (s[..off] + x + y) + (z + s[off..]) + b
    ensures p <= |e| && r == Spliced(e, p, items)
  {
    Cut(a, s, b, off);
  }

  /** Range insert when the items fit from the iterator to the end of its
      segment (`n <= capacity_to_end`): as many of the segment's back
      elements as the free slots cannot absorb go to temp1, then the items
      are inserted at the iterator. */
  method OpenRangeFit<T>(segs: seq<seq<T>>, ds: nat, it: Iter, items: seq<T>, ghost target: seq<T>)
    returns (v: seq<seq<T>>, vec: nat, temp1: seq<T>)
    requires Shaped(segs, ds) && Normal(segs, it) && |items| <= ds - it.off
    requires Pos(segs, it) <= |Flatten(segs)| && target == Spliced(Flatten(segs), Pos(segs, it), items)
    ensures RangeState(v, ds, vec, temp1, target) && |temp1| < 2 * ds
  {
    var seg := segs[it.vec];
    var emptyToEnd := ds - |seg|;
    temp1 := [];
    var kept := seg;
    if |items| > emptyToEnd {
      var cut := |items| - emptyToEnd;
      temp1 := seg[|seg| - cut..];
      kept := seg[..|seg| - cut];
    }
    v := segs[it.vec := kept[..it.off] + items + kept[it.off..]];
    vec := it.vec + 1;
    FitFacts(segs, ds, it, items, target, kept, v, temp1);
  }

  /** Why OpenRangeFit leaves a range-insert state. */
  lemma FitFacts<T>(segs: seq<seq<T>>, ds: nat, it: Iter, items: seq<T>, target: seq<T>,
                    kept: seq<T>, v: seq<seq<T>>, temp1: seq<T>)
    requires Shaped(segs, ds) && Normal(segs, it) && |items| <= ds - it.off
    requires Pos(segs, it) <= |Flatten(segs)| && target == Spliced(Flatten(segs), Pos(segs, it), items)
    requires kept + temp1 == segs[it.vec] && it.off <= |kept|
    requires temp1 == [] ==> |segs[it.vec]| + |items| <= ds
    requires temp1 != [] ==> |kept| + |items| == ds
    requires v == segs[it.vec := kept[..it.off] + items + kept[it.off..]]
    ensures RangeState(v, ds, it.vec + 1, temp1, target) && |temp1| < 2 * ds
  {
    var x := kept[..it.off] + items + kept[it.off..];
    assert Shaped(v, ds) by {
      assert |segs[it.vec]| <= ds && (it.vec < |segs| - 1 ==> |segs[it.vec]| == ds);
      FitShape(segs, ds, it.vec, x, v);
    }
    FitContent(segs, it, x, v, kept, temp1, items);
  }

  /** The shape half of FitFacts: a segment replaced by one no longer than
      ds, full unless it is the last, and non-empty when the old one was. */
  lemma FitShape<T>(segs: seq<seq<T>>, ds: nat, k: nat, x: seq<T>, v: seq<seq<T>>)
    requires Shaped(segs, ds) && k < |segs| && |x| <= ds && |segs[k]| <= |x|
    requires k < |segs| - 1 ==> |x| == ds
    requires v == segs[k := x]
    ensures Shaped(v, ds)
  {
    assert forall j :: 0 <= j < |v| && j != k ==> v[j] == segs[j];
  }

  /** Flattening after the fit case's segment replacement gives the
      spliced sequence. */
  lemma FitContent<T>(segs: seq<seq<T>>, it: Iter, x: seq<T>, v: seq<seq<T>>,
                      kept: seq<T>, temp1: seq<T>, items: seq<T>)
    requires it.vec < |segs| && it.off <= |kept| && kept + temp1 == segs[it.vec]
    requires x == kept[..it.off] + items + kept[it.off..] && v == segs[it.vec := x]
    requires Pos(segs, it) <= |Flatten(segs)|
    ensures Flatten(v[..it.vec + 1]) + temp1 + Flatten(v[it.vec + 1..])
              == Spliced(Flatten(segs), Pos(segs, it), items)
  {
    var a, b := Flatten(segs[..it.vec]), Flatten(segs[it.vec + 1..]);
    FlattenAround(segs, it.vec, x, v);
    FlattenSplit(segs, it.vec);
    FitAlgebra(Flatten(segs), Pos(segs, it), a, segs[it.vec], b, it.off, kept, temp1, items);
  }

  /** The content half of FitFacts: the segment cut in kept and temp1, the
      items put into kept at off. */
  lemma FitAlgebra<T>(e: seq<T>, p: nat, a: seq<T>, s: seq<T>, b: seq<T>, off: nat,
                      kept: seq<T>, temp1: seq<T>, items: seq<T>)
    requires e == a + s + b && p == |a| + off && s == kept + temp1 && off <= |kept|
    ensures p <= |e| && Spliced(e, p, items) == a + (kept[..off] + items + kept[off..]) + temp1 + b
  {
    Cut(a, s, b, off);
    assert s[..off] == kept[..off];
    assert s[off..] == kept[off..] + temp1;
  }

  /** `if (move >= _deq_size)`: a new segment holding the first ds elements
      of temp1 is put at vec. */
  method SpillSegment<T>(v: seq<seq<T>>, ds: nat, vec: nat, temp1: seq<T>, ghost target: seq<T>)
    returns (w: seq<seq<T>>, vec': nat, temp1': seq<T>)
    requires RangeState(v, ds, vec, temp1, target) && |temp1| < 2 * ds
    ensures RangeState(w, ds, vec', temp1', target) && |temp1'| < ds
  {
    w, vec', temp1' := v, vec, temp1;
    if |temp1| >= ds {
      w := v[..vec] + [temp1[..ds]] + v[vec..];
      temp1' := temp1[ds..];
      vec' := vec + 1;
      ShapedInsertFull(v, ds, vec, temp1[..ds]);
      assert w[..vec'] == v[..vec] + [temp1[..ds]] && w[vec'..] == v[vec..];
      FlattenAppend(v[..vec], [temp1[..ds]]);
      FlattenSingle(temp1[..ds]);
      assert temp1 == temp1[..ds] + temp1[ds..];
      assert w[vec' - 1] == temp1[..ds];
    }
  }

  /** The segment loop of range insert: every segment from vec on gives up
      its last `move` elements (fewer if it has fewer) to temp2 and takes
      temp1's `move` elements at its front; then temp1 and temp2 swap. What
      is left in temp1 at the end is returned for `_push_back`. */
  method ShiftThrough<T>(v: seq<seq<T>>, ds: nat, vec: nat, temp1: seq<T>, ghost target: seq<T>)
    returns (w: seq<seq<T>>, rest: seq<T>)
    requires RangeState(v, ds, vec, temp1, target) && |temp1| < ds
    ensures Shaped(w, ds) && Flatten(w) + rest == target
  {
    var move := |temp1|;
    w, rest := v, temp1;
    var k := vec;
    while k < |w|
      invariant vec <= k <= |w|
      invariant ShiftInv(w, ds, k, rest, move, target)
    {
      w, rest := ShiftOne(w, ds, k, rest, move, target);
      k := k + 1;
    }
    ShiftDone(w, ds, k, rest, move, target);
  }

  /** One round of the segment loop: segment k gives up its last `move`
      elements, or all it has, and takes the carried ones at its front. */
  method ShiftOne<T>(w: seq<seq<T>>, ds: nat, k: nat, rest: seq<T>, move: nat, ghost target: seq<T>)
    returns (u: seq<seq<T>>, temp2: seq<T>)
    requires ShiftInv(w, ds, k, rest, move, target) && k < |w| && move < ds
    ensures |u| == |w| && ShiftInv(u, ds, k + 1, temp2, move, target)
  {
    var s := w[k];
    var take := if move < |s| then move else |s|;
    temp2 := s[|s| - take..];
    u := w[k := rest + s[..|s| - take]];
    ShiftRound(w, ds, k, rest, move, target, take, u);
  }

  lemma ShiftDone<T>(w: seq<seq<T>>, ds: nat, k: nat, rest: seq<T>, move: nat, target: seq<T>)
    requires ShiftInv(w, ds, k, rest, move, target) && k >= |w|
    ensures Shaped(w, ds) && Flatten(w) + rest == target
  {
    assert w[..k] == w && w[k..] == [];
  }

  /** The invariant of the segment loop of range insert: the vector keeps
      its shape, the carried elements number `move` while segments remain,
      and the elements in order, carried ones at k, are the target. */
  ghost predicate ShiftInv<T>(w: seq<seq<T>>, ds: nat, k: nat, rest: seq<T>, move: nat, target: seq<T>)
  {
    && k <= |w| && Shaped(w, ds)
    && (k < |w| ==> |rest| == move)
    && Flatten(w[..k]) + rest + Flatten(w[k..]) == target
  }

  /** One round of the segment loop keeps its invariant. */
  lemma ShiftRound<T>(w: seq<seq<T>>, ds: nat, k: nat, rest: seq<T>, move: nat, target: seq<T>,
                      take: nat, u: seq<seq<T>>)
    requires ShiftInv(w, ds, k, rest, move, target) && k < |w| && move < ds
    requires take == (if move < |w[k]| then move else |w[k]|)
    requires u == w[k := rest + w[k][..|w[k]| - take]]
    ensures ShiftInv(u, ds, k + 1, w[k][|w[k]| - take..], move, target)
  {
    ShiftStep(w, k, rest, take, u);
    ShiftKeepsShape(w, ds, k, rest, take, u);
  }

  /** Segment k takes as many elements at its front as it gives up at its
      back, or becomes `move` long when it had fewer: the shape holds. */
  lemma ShiftKeepsShape<T>(w: seq<seq<T>>, ds: nat, k: nat, rest: seq<T>, take: nat, u: seq<seq<T>>)
    requires Shaped(w, ds) && k < |w| && |rest| < ds
    requires take == (if |rest| < |w[k]| then |rest| else |w[k]|)
    requires u == w[k := rest + w[k][..|w[k]| - take]]
    ensures Shaped(u, ds)
  {
    assert forall j :: 0 <= j < |u| && j != k ==> u[j] == w[j];
    if k < |w| - 1 {
      assert |w[k]| == ds;
    }
  }

  /** The in-place branch of range insert: one of the two opening cases,
      the spill of a full segment, and the shift through the later
      segments. The vector keeps its shape, and its contents followed by
      the elements left for `_push_back` are the old contents with the
      items spliced in at the iterator. */
  method InsertInPlace<T>(segs: seq<seq<T>>, ds: nat, it: Iter, items: seq<T>)
    returns (w: seq<seq<T>>, rest: seq<T>)
    requires Shaped(segs, ds) && Normal(segs, it)
    ensures Pos(segs, it) <= |Flatten(segs)|
    ensures Shaped(w, ds) && Flatten(w) + rest == Spliced(Flatten(segs), Pos(segs, it), items)
  {
    PosBound(segs, it);
    ghost var target := Spliced(Flatten(segs), Pos(segs, it), items);
    var v, vec, temp1;
    if |items| > ds - it.off {
      v, vec, temp1 := OpenRangeOverflow(segs, ds, it, items, target);
    } else {
      v, vec, temp1 := OpenRangeFit(segs, ds, it, items, target);
    }
    v, vec, temp1 := SpillSegment(v, ds, vec, temp1, target);
    w, rest := ShiftThrough(v, ds, vec, temp1, target);
  }

  /** The state of the first loop of erase(first, last) before it
      processes segment k - 1: segments before k are untouched, temp1 holds
      the front that segment k gave up, and temp1 followed by the processed
      segments are the old segments from k on. While a processed segment
      remains, temp1 holds exactly `move` elements. */
  ghost predicate PullInv<T>(segs: seq<seq<T>>, ds: nat, from: nat, move: nat,
                             w: seq<seq<T>>, k: nat, temp1: seq<T>)
  {
    && Shaped(segs, ds) && move < ds
    && from + 1 <= k <= |segs| && k <= |w| <= |segs|
    && (forall j :: 0 <= j < k ==> w[j] == segs[j])
    && temp1 + Flatten(w[k..]) == Flatten(segs[k..])
    && |temp1| <= move
    && (k < |w| ==> |temp1| == move)
    && Shaped(w, ds)
  }

  /** The first loop of erase(first, last): from the last segment down to
      the one after `from`, every segment gives up its first `move`
      elements (all of them if it has fewer), takes at its back what the
      segment after it gave up, and is removed when that leaves it empty.
      What segment from + 1 gave up is returned as temp1. */
  method PullForward<T>(segs: seq<seq<T>>, ds: nat, from: nat, move: nat) returns (w: seq<seq<T>>, temp1: seq<T>)
    requires Shaped(segs, ds) && from < |segs| && move < ds
    ensures Shaped(w, ds) && from < |w| <= |segs|
    ensures forall j :: 0 <= j <= from ==> w[j] == segs[j]
    ensures temp1 + Flatten(w[from + 1..]) == Flatten(segs[from + 1..])
    ensures |temp1| <= move && (from + 1 < |w| ==> |temp1| == move)
  {
    w, temp1 := segs, [];
    var k: nat := |segs|;
    assert w[k..] == [] && segs[k..] == [];
    while k > from + 1
      invariant PullInv(segs, ds, from, move, w, k, temp1)
    {
      w, temp1 := PullRound(segs, ds, from, move, w, k, temp1);
      k := k - 1;
    }
  }

  /** One round of PullForward, on segment k - 1. */
  method PullRound<T>(segs: seq<seq<T>>, ds: nat, from: nat, move: nat,
                      w: seq<seq<T>>, k: nat, temp1: seq<T>) returns (w': seq<seq<T>>, temp1': seq<T>)
    requires PullInv(segs, ds, from, move, w, k, temp1) && k > from + 1
    ensures PullInv(segs, ds, from, move, w', k - 1, temp1')
  {
    var s := w[k - 1];
    var take := if move < |s| then move else |s|;
    var give := if move < |temp1| then move else |temp1|;
    var temp2 := s[..take];
    var x := s[take..] + temp1[..give];
    assert temp1[..give] == temp1;
    PullStep(segs, w, k, s, take, temp1, x);
    if x == [] && |w| > 1 {
      w' := w[..k - 1];
      PullDrop(segs, ds, from, move, w, k, temp1, x, take);
    } else {
      w' := w[k - 1 := x];
      PullKeep(segs, ds, from, move, w, k, temp1, x, take);
    }
    temp1' := temp2;
  }

  /** The content of a round of PullForward. */
  lemma PullStep<T>(segs: seq<seq<T>>, w: seq<seq<T>>, k: nat, s: seq<T>, take: nat, temp1: seq<T>, x: seq<T>)
    requires 1 <= k <= |w| && k <= |segs| && w[k - 1] == segs[k - 1] == s && take <= |s|
    requires temp1 + Flatten(w[k..]) == Flatten(segs[k..]) && x == s[take..] + temp1
    ensures s[..take] + Flatten(w[k - 1 := x][k - 1..]) == Flatten(segs[k - 1..])
    ensures s[..take] + Flatten([x] + w[k..]) == Flatten(segs[k - 1..])
  {
    ReplaceFrom(w, k - 1, x);
    FlattenFrom(segs, k - 1);
    FlattenAppend([x], w[k..]);
    FlattenSingle(x);
    assert s == s[..take] + s[take..];
  }

  /** A round that empties its segment: it is the last one, and it goes. */
  lemma PullDrop<T>(segs: seq<seq<T>>, ds: nat, from: nat, move: nat,
                    w: seq<seq<T>>, k: nat, temp1: seq<T>, x: seq<T>, take: nat)
    requires PullInv(segs, ds, from, move, w, k, temp1) && k > from + 1
    requires take == (if move < |w[k - 1]| then move else |w[k - 1]|)
    requires x == w[k - 1][take..] + temp1 && x == []
    requires w[k - 1][..take] + Flatten([x] + w[k..]) == Flatten(segs[k - 1..])
    ensures PullInv(segs, ds, from, move, w[..k - 1], k - 1, w[k - 1][..take])
  {
    var s := w[k - 1];
    assert k == |w|;
    var v := w[..k - 1];
    assert v[k - 1..] == [] && w[k..] == [];
    assert [x] + w[k..] == [[]];
    FlattenSingle<T>([]);
    assert Shaped(v, ds) by {
      assert forall j :: 0 <= j < |v| ==> v[j] == segs[j];
      assert |Last(v)| == ds;
    }
  }

  /** A round that leaves its segment non-empty. */
  lemma PullKeep<T>(segs: seq<seq<T>>, ds: nat, from: nat, move: nat,
                    w: seq<seq<T>>, k: nat, temp1: seq<T>, x: seq<T>, take: nat)
    requires PullInv(segs, ds, from, move, w, k, temp1) && k > from + 1
    requires take == (if move < |w[k - 1]| then move else |w[k - 1]|)
    requires x == w[k - 1][take..] + temp1 && !(x == [] && |w| > 1)
    requires w[k - 1][..take] + Flatten(w[k - 1 := x][k - 1..]) == Flatten(segs[k - 1..])
    ensures PullInv(segs, ds, from, move, w[k - 1 := x], k - 1, w[k - 1][..take])
  {
    var s := w[k - 1];
    var v := w[k - 1 := x];
    assert |w| > 1;
    if k < |segs| {
      assert |s| == ds;
    } else {
      assert segs[k..] == [] && Flatten(w[k..]) == [];
    }
    assert |x| <= ds;
    assert k < |w| ==> |x| == ds;
    assert Shaped(v, ds) by {
      assert forall j :: 0 <= j < |v| && j != k - 1 ==> v[j] == w[j];
      if k - 1 < |v| - 1 {
        assert |v[k - 1]| == ds;
      } else {
        assert Last(v) == x;
      }
    }
    assert forall j :: 0 <= j < k - 1 ==> v[j] == segs[j];
    assert k - 1 < |v| ==> take == move;
  }

  /** The last loop of erase(first, last): the saved elements t are put
      back from segment `at` on, each segment cleared and refilled up to ds
      elements before the next is taken. The segments written are t's
      canonical layout. */
  method PutBack<T>(v: seq<seq<T>>, ds: nat, at: nat, t: seq<T>) returns (u: seq<seq<T>>)
    requires 1 <= ds && t != [] && at + CeilDiv(|t|, ds) <= |v|
    ensures |Chop(t, ds)| == CeilDiv(|t|, ds)
    ensures u == v[..at] + Chop(t, ds) + v[at + CeilDiv(|t|, ds)..]
  {
    u := v;
    var rest := t;
    var k := at;
    assert u[at..k] == [];
    while rest != []
      invariant PutInv(v, ds, at, t, u, k, rest)
      decreases |rest|
    {
      u, k, rest := PutRound(v, ds, at, t, u, k, rest);
    }
    PutDone(v, ds, at, t, u, k);
  }

  /** The state of PutBack's loop: segments before `at` and from k on are
      untouched, the segments written so far are full and hold t's front,
      and rest, t's back, still needs ceil(|rest| / ds) segments. */
  ghost predicate PutInv<T>(v: seq<seq<T>>, ds: nat, at: nat, t: seq<T>, u: seq<seq<T>>, k: nat, rest: seq<T>)
  {
    && 1 <= ds && t != []
    && at <= k && |u| == |v| && k + CeilDiv(|rest|, ds) == at + CeilDiv(|t|, ds) <= |v|
    && (forall j :: 0 <= j < at ==> u[j] == v[j])
    && (forall j :: k <= j < |v| ==> u[j] == v[j])
    && Flatten(u[at..k]) + rest == t
    && (rest != [] ==> Full(u[at..k], ds))
    && (rest == [] ==> Shaped(u[at..k], ds))
  }

  /** One round of PutBack: segment k is cleared and takes up to ds
      elements. */
  method PutRound<T>(v: seq<seq<T>>, ds: nat, at: nat, t: seq<T>, u: seq<seq<T>>, k: nat, rest: seq<T>)
    returns (u': seq<seq<T>>, k': nat, rest': seq<T>)
    requires PutInv(v, ds, at, t, u, k, rest) && rest != []
    ensures PutInv(v, ds, at, t, u', k', rest') && |rest'| < |rest|
  {
    var c := if ds < |rest| then ds else |rest|;
    var chunk := rest[..c];
    PutStep(v, ds, at, t, u, k, rest, c);
    u' := u[k := chunk];
    rest' := rest[c..];
    k' := k + 1;
  }

  /** Why a round of PutBack keeps its loop state. */
  lemma PutStep<T>(v: seq<seq<T>>, ds: nat, at: nat, t: seq<T>, u: seq<seq<T>>, k: nat, rest: seq<T>, c: nat)
    requires PutInv(v, ds, at, t, u, k, rest) && rest != []
    requires c == (if ds < |rest| then ds else |rest|)
    ensures PutInv(v, ds, at, t, u[k := rest[..c]], k + 1, rest[c..])
  {
    var w := u[k := rest[..c]];
    CeilDivRound(|rest|, ds, c);
    PutLayout(u, ds, at, k, rest, c);
    assert forall j :: 0 <= j < at ==> w[j] == v[j];
    assert forall j :: k + 1 <= j < |v| ==> w[j] == v[j];
  }

  /** One segment of min(ds, r) elements leaves ceil((r - c) / ds). */
  lemma CeilDivRound(r: nat, ds: nat, c: nat)
    requires 1 <= ds && 1 <= r && c == (if ds < r then ds else r)
    ensures CeilDiv(r, ds) == CeilDiv(r - c, ds) + 1
  {
    if r <= ds {
      CeilDivOne(r, ds);
      CeilDivZero(ds);
    } else {
      CeilDivStep(r - ds, ds);
    }
  }

  /** The segments PutBack has written, with one more. */
  lemma PutLayout<T>(u: seq<seq<T>>, ds: nat, at: nat, k: nat, rest: seq<T>, c: nat)
    requires 1 <= ds && at <= k < |u| && rest != [] && c == (if ds < |rest| then ds else |rest|)
    requires Full(u[at..k], ds)
    ensures Flatten(u[k := rest[..c]][at..k + 1]) + rest[c..] == Flatten(u[at..k]) + rest
    ensures rest[c..] != [] ==> Full(u[k := rest[..c]][at..k + 1], ds)
    ensures rest[c..] == [] ==> Shaped(u[k := rest[..c]][at..k + 1], ds)
  {
    WriteSlot(u, at, k, rest[..c]);
    FlattenAppend(u[at..k], [rest[..c]]);
    FlattenSingle(rest[..c]);
    assert rest == rest[..c] + rest[c..];
    if rest[c..] != [] {
      FullAppend(u[at..k], [rest[..c]], ds);
    } else {
      ShapedGlue(u[at..k], [rest[..c]], ds);
    }
  }

  /** PutBack's loop has written t's layout. */
  lemma PutDone<T>(v: seq<seq<T>>, ds: nat, at: nat, t: seq<T>, u: seq<seq<T>>, k: nat)
    requires PutInv(v, ds, at, t, u, k, [])
    ensures |Chop(t, ds)| == CeilDiv(|t|, ds)
    ensures u == v[..at] + Chop(t, ds) + v[at + CeilDiv(|t|, ds)..]
  {
    ChopCount(t, ds);
    CeilDivZero(ds);
    var mid := u[at..k];
    assert Flatten(mid) == t by {
      assert Flatten(mid) + [] == Flatten(mid);
    }
    ShapedIsChop(mid, ds);
    Reassemble(u, v, at, k, Chop(t, ds));
  }

  lemma WriteSlot<S>(u: seq<S>, at: nat, k: nat, x: S)
    requires at <= k < |u|
    ensures u[k := x][at..k + 1] == u[at..k] + [x]
  {
  }

  /** A sequence that agrees with v outside [at, k) and holds mid there. */
  lemma Reassemble<S>(u: seq<S>, v: seq<S>, at: nat, k: nat, mid: seq<S>)
    requires at <= k <= |u| == |v| && u[at..k] == mid
    requires forall j :: 0 <= j < at ==> u[j] == v[j]
    requires forall j :: k <= j < |v| ==> u[j] == v[j]
    ensures u == v[..at] + mid + v[k..]
  {
    assert u == u[..at] + u[at..k] + u[k..];
    assert u[..at] == v[..at] && u[k..] == v[k..];
  }

  /** The end of erase(first, last): segments `first_to_be_erased` =
      fv + ceil(|t| / ds) up to lv are deleted (when that would be every
      segment, the first of them is cleared and kept instead), and t, the
      saved elements, is put back from segment fv on. */
  method CloseGap<T>(w: seq<seq<T>>, ds: nat, fv: nat, lv: nat, t: seq<T>) returns (v: seq<seq<T>>)
    requires Shaped(w, ds) && fv <= lv < |w|
    requires |t| <= (lv - fv + 1) * ds
    requires lv + 1 < |w| ==> |t| == CeilDiv(|t|, ds) * ds
    ensures Shaped(v, ds) && Flatten(v) == Flatten(w[..fv]) + t + Flatten(w[lv + 1..])
  {
    var toSafe := CeilDiv(|t|, ds);
    GapArith(t, ds, fv, lv, |w|);
    var firstErased := fv + toSafe;
    var lastErased := lv + 1;
    var toDelete := lastErased - firstErased;
    var allVectors := toDelete >= |w|;
    if allVectors {
      v := w[..firstErased] + [[]] + w[lastErased..];
    } else {
      v := w[..firstErased] + w[lastErased..];
    }
    if t != [] {
      ghost var v0 := v;
      v := PutBack(v, ds, fv, t);
      Regions(w, fv, toSafe, lv + 1, Chop(t, ds), v0, v);
    }
    if allVectors {
      GapAll(w, ds, fv, lv, t, v);
    } else if t == [] {
      GapNone(w, ds, fv, lv, t, v);
    } else {
      GapSome(w, ds, fv, lv, t, v);
    }
  }

  /** Writing mid over the q segments kept after fv, once the segments up
      to `last` are gone, leaves mid between w's segments before fv and
      from `last` on. */
  lemma Regions<S>(w: seq<S>, fv: nat, q: nat, last: nat, mid: seq<S>, v0: seq<S>, v: seq<S>)
    requires fv + q <= last <= |w| && |mid| == q
    requires v0 == w[..fv + q] + w[last..] && v == v0[..fv] + mid + v0[fv + q..]
    ensures v == w[..fv] + mid + w[last..]
  {
    assert v0[..fv] == w[..fv];
    assert v0[fv + q..] == w[last..];
  }

  /** The arithmetic of `to_safe`: it counts the segments t needs, which
      fit between fv and lv; it is 0 exactly when t is empty; and when
      segments follow lv, t fills whole segments. */
  lemma GapArith<T>(t: seq<T>, ds: nat, fv: nat, lv: nat, size: nat)
    requires 1 <= ds && fv <= lv < size
    requires |t| <= (lv - fv + 1) * ds
    requires lv + 1 < size ==> |t| == CeilDiv(|t|, ds) * ds
    ensures CeilDiv(|t|, ds) <= lv - fv + 1
    ensures t == [] <==> CeilDiv(|t|, ds) == 0
    ensures t != [] ==> |Chop(t, ds)| == CeilDiv(|t|, ds)
    ensures t != [] && lv + 1 < size ==> Full(Chop(t, ds), ds)
  {
    var q := CeilDiv(|t|, ds);
    MulCancelLess(q, lv - fv + 2, ds);
    if t == [] {
      CeilDivZero(ds);
    } else {
      ChopCount(t, ds);
      if lv + 1 < size {
        ChopFull(t, ds, q);
      }
    }
  }

  /** CloseGap when every segment would go: one cleared segment stays. */
  lemma GapAll<T>(w: seq<seq<T>>, ds: nat, fv: nat, lv: nat, t: seq<T>, v: seq<seq<T>>)
    requires Shaped(w, ds) && fv <= lv < |w| && t == [] && fv == 0 && lv + 1 == |w|
    requires v == w[..fv] + [[]] + w[lv + 1..]
    ensures Shaped(v, ds) && Flatten(v) == Flatten(w[..fv]) + t + Flatten(w[lv + 1..])
  {
    assert v == [[]] && w[..fv] == [] && w[lv + 1..] == [];
    FlattenSingle<T>([]);
  }

  /** CloseGap with nothing to put back: the segments from fv to lv go. */
  lemma GapNone<T>(w: seq<seq<T>>, ds: nat, fv: nat, lv: nat, t: seq<T>, v: seq<seq<T>>)
    requires Shaped(w, ds) && fv <= lv < |w| && t == [] && (fv == 0 ==> lv + 1 < |w|)
    requires v == w[..fv] + w[lv + 1..]
    ensures Shaped(v, ds) && Flatten(v) == Flatten(w[..fv]) + t + Flatten(w[lv + 1..])
  {
    var pre, post := w[..fv], w[lv + 1..];
    FullPrefix(w, ds, fv);
    FlattenAppend(pre, post);
    if post != [] {
      ShapedSuffix(w, ds, lv + 1);
    }
    ShapedGlue(pre, post, ds);
  }

  /** CloseGap with elements to put back: their layout replaces the
      segments from fv to lv. */
  lemma GapSome<T>(w: seq<seq<T>>, ds: nat, fv: nat, lv: nat, t: seq<T>, v: seq<seq<T>>)
    requires Shaped(w, ds) && fv <= lv < |w| && t != []
    requires lv + 1 < |w| ==> Full(Chop(t, ds), ds)
    requires v == w[..fv] + Chop(t, ds) + w[lv + 1..]
    ensures Shaped(v, ds) && Flatten(v) == Flatten(w[..fv]) + t + Flatten(w[lv + 1..])
  {
    var pre, mid, post := w[..fv], Chop(t, ds), w[lv + 1..];
    FullPrefix(w, ds, fv);
    FlattenAppend(pre + mid, post);
    FlattenAppend(pre, mid);
    if post != [] {
      ShapedSuffix(w, ds, lv + 1);
      FullAppend(pre, mid, ds);
      ShapedGlue(pre + mid, post, ds);
    } else {
      assert v == pre + mid;
      ShapedGlue(pre, mid, ds);
    }
  }

  /** The in-place work of erase(first, last) for a non-empty range:
      `move`, the erased count modulo ds capped by what follows the range,
      is pulled forward through the segments after the range's last one;
      the elements of the range's first and last segments that stay are
      saved with what the segment after them gave up; and CloseGap drops
      the range's segments and puts the saved elements back. An iterator
      at the front of a segment is taken as the end of the segment before
      it. */
  method EraseSpan<T>(segs: seq<seq<T>>, ds: nat, first: Iter, last: Iter) returns (v: seq<seq<T>>)
    requires Shaped(segs, ds) && Normal(segs, first) && Normal(segs, last)
    requires Pos(segs, first) < Pos(segs, last)
    ensures Pos(segs, last) <= |Flatten(segs)|
    ensures Shaped(v, ds)
    ensures Flatten(v) == Flatten(segs)[..Pos(segs, first)] + Flatten(segs)[Pos(segs, last)..]
  {
    PosBound(segs, last);
    var n := Diff(segs, ds, last, first);
    var eraseVectors, eraseElements := DivMod(n, ds);
    var totalToEnd := Diff(segs, ds, End(segs, ds), last);
    var move := if eraseElements < totalToEnd then eraseElements else totalToEnd;
    var lv, lo := StepBack(segs, ds, first, last);
    v := EraseThrough(segs, ds, first, lv, lo, n, eraseVectors, eraseElements, move);
  }

  /** The moving part of erase(first, last), with the range's end given as
      segment lv and offset lo: the pull loop, the saved elements t, the
      removal of the segments no longer needed and the put-back. */
  method EraseThrough<T>(segs: seq<seq<T>>, ds: nat, first: Iter, lv: nat, lo: nat, n: nat,
                         eraseVectors: nat, eraseElements: nat, move: nat) returns (v: seq<seq<T>>)
    requires Shaped(segs, ds) && Normal(segs, first) && first.vec <= lv < |segs| && lo <= |segs[lv]|
    requires n == |Flatten(segs[..lv])| + lo - Pos(segs, first) && 0 < n
    requires eraseVectors * ds + eraseElements == n && eraseElements < ds
    requires move == (if eraseElements < |Flatten(segs)| - (|Flatten(segs[..lv])| + lo)
                      then eraseElements else |Flatten(segs)| - (|Flatten(segs[..lv])| + lo))
    requires |Flatten(segs[..lv])| + lo <= |Flatten(segs)|
    ensures Shaped(v, ds)
    ensures Flatten(v) == Flatten(segs)[..Pos(segs, first)] + Flatten(segs)[|Flatten(segs[..lv])| + lo..]
  {
    var w, t := PullAndSave(segs, ds, first, lv, lo, n, eraseVectors, eraseElements, move);
    v := CloseGap(w, ds, first.vec, lv, t);
  }

  /** The first two phases of erase(first, last): the pull loop, then the
      elements to keep from the range's first and last segments, followed
      by the pulled ones, saved as t. Around t, the segments outside the
      span from first.vec to lv hold the elements before and after the
      range; t fits that span, filling whole segments when later ones
      remain. */
  method PullAndSave<T>(segs: seq<seq<T>>, ds: nat, first: Iter, lv: nat, lo: nat, n: nat,
                        eraseVectors: nat, eraseElements: nat, move: nat) returns (w: seq<seq<T>>, t: seq<T>)
    requires Shaped(segs, ds) && Normal(segs, first) && first.vec <= lv < |segs| && lo <= |segs[lv]|
    requires n == |Flatten(segs[..lv])| + lo - Pos(segs, first) && 0 < n
    requires eraseVectors * ds + eraseElements == n && eraseElements < ds
    requires move == (if eraseElements < |Flatten(segs)| - (|Flatten(segs[..lv])| + lo)
                      then eraseElements else |Flatten(segs)| - (|Flatten(segs[..lv])| + lo))
    requires |Flatten(segs[..lv])| + lo <= |Flatten(segs)|
    ensures Shaped(w, ds) && first.vec <= lv < |w|
    ensures |t| <= (lv - first.vec + 1) * ds
    ensures lv + 1 < |w| ==> |t| == CeilDiv(|t|, ds) * ds
    ensures Flatten(w[..first.vec]) + t + Flatten(w[lv + 1..])
              == Flatten(segs)[..Pos(segs, first)] + Flatten(segs)[|Flatten(segs[..lv])| + lo..]
  {
    var taken;
    w, taken := PullForward(segs, ds, lv, move);
    t := segs[first.vec][..first.off] + segs[lv][lo..] + taken;
    ErasePulled(segs, ds, first, lv, lo, n, eraseVectors, eraseElements, move, w, taken, t,
                Pos(segs, first), |Flatten(segs[..lv])| + lo);
  }

  /** What EraseThrough needs after the pull loop: the saved elements t
      fit the segments from first.vec to lv (whole segments when later
      ones remain), and the segments outside that span around t hold the
      elements without those at p up to q. */
  lemma ErasePulled<T>(segs: seq<seq<T>>, ds: nat, first: Iter, lv: nat, lo: nat, n: nat,
                       eraseVectors: nat, eraseElements: nat, move: nat, w: seq<seq<T>>, taken: seq<T>,
                       t: seq<T>, p: nat, q: nat)
    requires Shaped(segs, ds) && Normal(segs, first) && first.vec <= lv < |segs| && lo <= |segs[lv]|
    requires n == |Flatten(segs[..lv])| + lo - Pos(segs, first) && 0 < n
    requires eraseVectors * ds + eraseElements == n && eraseElements < ds
    requires move == (if eraseElements < |Flatten(segs)| - (|Flatten(segs[..lv])| + lo)
                      then eraseElements else |Flatten(segs)| - (|Flatten(segs[..lv])| + lo))
    requires |Flatten(segs[..lv])| + lo <= |Flatten(segs)|
    requires Shaped(w, ds) && lv < |w| <= |segs|
    requires forall j :: 0 <= j <= lv ==> w[j] == segs[j]
    requires taken + Flatten(w[lv + 1..]) == Flatten(segs[lv + 1..])
    requires |taken| <= move && (lv + 1 < |w| ==> |taken| == move)
    requires t == segs[first.vec][..first.off] + segs[lv][lo..] + taken
    requires p == Pos(segs, first) && q == |Flatten(segs[..lv])| + lo
    ensures |t| <= (lv - first.vec + 1) * ds
    ensures lv + 1 < |w| ==> |t| == CeilDiv(|t|, ds) * ds
    ensures Flatten(w[..first.vec]) + t + Flatten(w[lv + 1..]) == Flatten(segs)[..p] + Flatten(segs)[q..]
  {
    assert w[first.vec] == segs[first.vec] && w[lv] == segs[lv];
    EraseSizes(segs, ds, first, lv, lo, n, eraseVectors, eraseElements, move, w, taken, t);
    EraseContent(segs, w, first.vec, first.off, lv, lo, taken, t, p, q);
  }

  /** `if (it_last._deq_it == (*it_last._vec_it)->begin())`: an iterator
      at the front of its segment is moved to the end of the segment before
      it, which lies at or after the range's first segment. The position
      is the same. */
  method StepBack<T>(segs: seq<seq<T>>, ds: nat, first: Iter, last: Iter) returns (lv: nat, lo: nat)
    requires Shaped(segs, ds) && Normal(segs, first) && Normal(segs, last)
    requires Pos(segs, first) < Pos(segs, last)
    ensures first.vec <= lv < |segs| && lo <= |segs[lv]| && |Flatten(segs[..lv])| + lo == Pos(segs, last)
    ensures 0 < lo
  {
    lv, lo := last.vec, last.off;
    if lo == 0 {
      LastAfterFirst(segs, first, last);
      lv := lv - 1;
      lo := |segs[lv]|;
      FlattenPrefixStep(segs, lv);
      assert |segs[lv]| == ds;
    } else if last.vec < first.vec {
      PrefixGrows(segs, last.vec, first.vec);
    }
  }

  /** An iterator at the front of its segment that lies after another is
      not in the first segment, nor before the other's. */
  lemma LastAfterFirst<T>(segs: seq<seq<T>>, first: Iter, last: Iter)
    requires Normal(segs, first) && Normal(segs, last) && last.off == 0
    requires Pos(segs, first) < Pos(segs, last)
    ensures first.vec < last.vec
  {
    if last.vec <= first.vec {
      PrefixMonotone(segs, last.vec, first.vec);
    }
  }

  /** The elements of erase(first, last) in terms of the segments: what
      precedes the range in its first segment, what follows it in its last,
      then what the segment after gave up and the rest. */
  lemma EraseContent<T>(segs: seq<seq<T>>, w: seq<seq<T>>, fv: nat, fo: nat, lv: nat, lo: nat, taken: seq<T>,
                        t: seq<T>, p: nat, q: nat)
    requires fv <= lv < |segs| && lv < |w| && fo <= |segs[fv]| && lo <= |segs[lv]|
    requires forall j :: 0 <= j <= lv ==> w[j] == segs[j]
    requires taken + Flatten(w[lv + 1..]) == Flatten(segs[lv + 1..])
    requires t == w[fv][..fo] + w[lv][lo..] + taken
    requires p == |Flatten(segs[..fv])| + fo && q == |Flatten(segs[..lv])| + lo && p <= q
    ensures p <= q <= |Flatten(segs)|
    ensures Flatten(w[..fv]) + t + Flatten(w[lv + 1..]) == Flatten(segs)[..p] + Flatten(segs)[q..]
  {
    PrefixAgree(w, segs, fv);
    FlattenSplit(segs, fv);
    FlattenSplit(segs, lv);
    var e := Flatten(segs);
    var x, sf := Flatten(segs[..fv]), segs[fv];
    var z, sl, b := Flatten(segs[..lv]), segs[lv], Flatten(segs[lv + 1..]);
    Cut(x, sf, Flatten(segs[fv + 1..]), fo);
    Cut(z, sl, b, lo);
    Regroup(x, sf[..fo], sl[lo..], taken, Flatten(w[lv + 1..]));
  }

  lemma PrefixAgree<S>(a: seq<S>, b: seq<S>, m: nat)
    requires m <= |a| && m <= |b| && forall j :: 0 <= j < m ==> a[j] == b[j]
    ensures a[..m] == b[..m]
  {
  }

  lemma Regroup<T>(x: seq<T>, f: seq<T>, l: seq<T>, t: seq<T>, y: seq<T>)
    ensures x + (f + l + t) + y == (x + f) + (l + (t + y))
  {
  }

  /** The counting of erase(first, last): the saved elements fit in the
      range's segments, and when segments follow the range they fill
      whole segments. */
  lemma EraseSizes<T>(segs: seq<seq<T>>, ds: nat, first: Iter, lv: nat, lo: nat, n: nat,
                      eraseVectors: nat, eraseElements: nat, move: nat, w: seq<seq<T>>, taken: seq<T>, t: seq<T>)
    requires Shaped(segs, ds) && Normal(segs, first) && first.vec <= lv < |segs| && lo <= |segs[lv]|
    requires n == |Flatten(segs[..lv])| + lo - Pos(segs, first) && 0 < n
    requires eraseVectors * ds + eraseElements == n && eraseElements < ds
    requires move == (if eraseElements < |Flatten(segs)| - (|Flatten(segs[..lv])| + lo)
                      then eraseElements else |Flatten(segs)| - (|Flatten(segs[..lv])| + lo))
    requires Shaped(w, ds) && lv < |w| <= |segs|
    requires taken + Flatten(w[lv + 1..]) == Flatten(segs[lv + 1..])
    requires |taken| <= move && (lv + 1 < |w| ==> |taken| == move)
    requires t == segs[first.vec][..first.off] + segs[lv][lo..] + taken
    ensures |t| <= (lv - first.vec + 1) * ds
    ensures lv + 1 < |w| ==> |t| == CeilDiv(|t|, ds) * ds
  {
    var fv, fo := first.vec, first.off;
    var a, bl, sl := |Flatten(segs[..fv])|, |Flatten(segs[..lv])|, |segs[lv]|;
    var laterLen := |Flatten(w[lv + 1..])|;
    EraseLengths(segs, ds, lv, w, taken);
    JoinLength(segs[fv], fo, segs[lv], lo, taken, t);
    SpanBound(segs, ds, fv, lv);
    EraseArith(ds, fv, lv, fo, lo, a, bl, sl, n, eraseVectors, eraseElements, move, |taken|,
               laterLen, |Flatten(segs)|, lv + 1 < |w|, |t|);
  }

  lemma JoinLength<T>(x: seq<T>, fo: nat, y: seq<T>, lo: nat, z: seq<T>, t: seq<T>)
    requires fo <= |x| && lo <= |y| && t == x[..fo] + y[lo..] + z
    ensures |t| == fo + (|y| - lo) + |z|
  {
  }

  /** The lengths erase(first, last) counts with: everything up to and
      through segment lv, what was taken from the later segments and what
      remains in them. */
  lemma EraseLengths<T>(segs: seq<seq<T>>, ds: nat, lv: nat, w: seq<seq<T>>, taken: seq<T>)
    requires Shaped(w, ds) && lv < |w| && lv < |segs|
    requires taken + Flatten(w[lv + 1..]) == Flatten(segs[lv + 1..])
    ensures |Flatten(segs[..lv + 1])| == |Flatten(segs[..lv])| + |segs[lv]|
    ensures |Flatten(segs)| == |Flatten(segs[..lv])| + |segs[lv]| + |taken| + |Flatten(w[lv + 1..])|
    ensures lv + 1 < |w| ==> 1 <= |Flatten(w[lv + 1..])|
  {
    FlattenPrefixStep(segs, lv);
    FlattenCut(segs, lv + 1);
    if lv + 1 < |w| {
      SuffixNotEmpty(w, ds, lv + 1);
    }
  }

  /** The segments of a shaped vector from j > 0 on, if any, hold an
      element: the last segment is not empty. */
  lemma SuffixNotEmpty<T>(w: seq<seq<T>>, ds: nat, j: nat)
    requires Shaped(w, ds) && 1 <= j < |w|
    ensures 1 <= |Flatten(w[j..])|
  {
    ShapedSuffix(w, ds, j);
    SizeOfIsLength(w[j..], ds);
  }

  /** The segments from fv through lv hold at most (lv - fv + 1) * ds
      elements, exactly that many when lv is not the last. */
  lemma SpanBound<T>(segs: seq<seq<T>>, ds: nat, fv: nat, lv: nat)
    requires Shaped(segs, ds) && fv <= lv < |segs|
    ensures |Flatten(segs[..lv + 1])| <= |Flatten(segs[..fv])| + (lv + 1 - fv) * ds
    ensures lv + 1 < |segs| ==> |Flatten(segs[..lv + 1])| == |Flatten(segs[..fv])| + (lv + 1 - fv) * ds
  {
    PrefixRun(segs, ds, fv, lv - fv);
    FlattenPrefixStep(segs, lv);
    assert (lv - fv) * ds + ds == (lv + 1 - fv) * ds;
  }

  /** The arithmetic behind EraseSizes, on the counts alone. */
  lemma EraseArith(ds: nat, fv: nat, lv: nat, fo: nat, lo: nat, a: nat, bl: nat, sl: nat, n: nat,
                   ev: nat, ee: nat, move: nat, taken: nat, laterLen: nat, total: nat, later: bool, tl: nat)
    requires 1 <= ds && fv <= lv && lo <= sl
    requires n == bl + lo - (a + fo) && 0 < n && ev * ds + ee == n && ee < ds
    requires move == (if ee < total - (bl + lo) then ee else total - (bl + lo))
    requires total == bl + sl + taken + laterLen && taken <= move
    requires bl + sl <= a + (lv + 1 - fv) * ds
    requires later ==> taken == move && 1 <= laterLen && bl + sl == a + (lv + 1 - fv) * ds
    requires tl == fo + (sl - lo) + taken
    ensures tl <= (lv - fv + 1) * ds
    ensures later ==> tl == CeilDiv(tl, ds) * ds
  {
    if later {
      assert move == ee;
      var k := lv + 1 - fv;
      assert fo + (sl - lo) + taken == k * ds - ev * ds;
      assert k * ds - ev * ds == (k - ev) * ds;
      if ev > k {
        MulMonotone(k + 1, ev, ds);
        assert false;
      }
      CeilDivExact(k - ev, ds);
    }
  }

  /** The state clear() as written leaves behind, a vector of no segments,
      breaks the shape invariant, and size() and empty() disagree on it:
      size() is 0 yet empty() is false. */
  lemma ClearedDisagrees<T>(ds: nat)
    ensures SizeOf<T>([], ds) == 0 && !EmptyOf<T>([]) && !Shaped<T>([], ds)
  {
  }

  /** insert(it, x) up to its final push_back: the slot opens in the
      iterator's segment and the displaced back elements are carried one
      segment on each; the last one carried out is returned. */
  method InsertOneInPlace<T>(segs: seq<seq<T>>, ds: nat, it: Iter, x: T) returns (w: seq<seq<T>>, carry: T)
    requires Shaped(segs, ds) && Normal(segs, it)
    ensures Pos(segs, it) <= |Flatten(segs)|
    ensures Shaped(w, ds)
    ensures Flatten(w) + [carry] == Flatten(segs)[..Pos(segs, it)] + [x] + Flatten(segs)[Pos(segs, it)..]
  {
    var v, temp2 := OpenSlot(segs, ds, it, x);
    SameLengthsShaped(segs, v, ds);
    w, carry := CarryThrough(v, ds, it.vec + 1, temp2);
    SameLengthsShaped(v, w, ds);
  }

  /** push_back on the segment vector: a full last segment is followed by
      a new empty one, then the last segment takes the element at its
      back. The shape holds and the element is appended. */
  lemma PushBackFacts<T>(segs: seq<seq<T>>, ds: nat, x: T, grown: seq<seq<T>>, u: seq<seq<T>>)
    requires Shaped(segs, ds)
    requires grown == if |segs[|segs| - 1]| == ds then segs + [[]] else segs
    requires u == grown[|grown| - 1 := grown[|grown| - 1] + [x]]
    ensures Shaped(u, ds) && Flatten(u) == Flatten(segs) + [x]
  {
    if |segs[|segs| - 1]| == ds {
      FlattenAppend(segs, [[]]);
      FlattenSingle<T>([]);
    }
    AppendToLast(grown, x, u);
    var last := |grown| - 1;
    assert forall j :: 0 <= j < last ==> u[j] == grown[j];
  }

  /** Appending to the last segment appends to the concatenation. */
  lemma AppendToLast<T>(grown: seq<seq<T>>, x: T, u: seq<seq<T>>)
    requires grown != [] && u == grown[|grown| - 1 := grown[|grown| - 1] + [x]]
    ensures Flatten(u) == Flatten(grown) + [x]
  {
    var last := |grown| - 1;
    FlattenSplit(grown, last);
    FlattenUpdate(grown, last, grown[last] + [x]);
    assert grown[last + 1..] == [];
  }

  class IgushArray<T> {
    /** `_v`, the vector of segments, each given by its contents. */
    var segs: seq<seq<T>>
    /** `_deq_size`, the capacity of every segment. */
    var deqSize: nat
    /** `_vec_size`, the number of segments `_reserve` planned for. */
    var vecSize: nat
    /** `_capacity`, `_vec_size * _deq_size`. */
    var capacity: nat

    /** The segment shape holds and the three sizes are the ones `_reserve`
        picks for the capacity. */
    ghost predicate Valid()
      reads this
    {
      && Shaped(segs, deqSize)
      && Sizes(deqSize, vecSize, capacity) == ReserveSizes(capacity)
    }

    /** The array's value: the segments' contents, front to back. */
    ghost function Elements(): seq<T>
      reads this
    {
      Flatten(segs)
    }

    ghost function SizesOf(): Sizes
      reads this
    {
      Sizes(deqSize, vecSize, capacity)
    }

    /** `_reserve(n)`: sizes from ReserveSizes and a vector holding one empty
        segment for `end()` to point into. */
    method Allocate(n: nat)
      modifies this
      ensures Valid() && SizesOf() == ReserveSizes(n) && segs == [[]]
      ensures Elements() == []
    {
      FlattenSingle<T>([]);
      var z := ReserveSizes(n);
      deqSize, vecSize, capacity := z.deqSize, z.vecSize, z.capacity;
      segs := [[]];
      ReserveSizesStable(n);
    }

    /** `IgushArray(a)`: an empty array sized for no elements. */
    constructor ()
      ensures Valid() && Elements() == [] && SizesOf() == ReserveSizes(0)
    {
      new;
      Allocate(0);
    }

    /** `IgushArray(n, value, a)`: sized for n, holding n copies of value. */
    constructor Filled(n: nat, value: T)
      ensures Valid() && Elements() == seq(n, _ => value) && SizesOf() == ReserveSizes(n)
    {
      new;
      Allocate(n);
      OneRangeIsCopies(n, value);
      PushBackRange(OneRange(OneValue(0, value), OneValue(n, value)));
    }

    /** `IgushArray(first, last, a)`: sized for the range's length, holding
        the range. */
    constructor FromRange(category: Category, items: seq<T>)
      requires |items| < SizeTModulus
      ensures Valid() && Elements() == items && SizesOf() == ReserveSizes(|items|)
    {
      new;
      var n := DataSize(category, 0, |items|);
      Allocate(n);
      PushBackRange(items);
    }

    /** `IgushArray(ia)`: reserves the other array's capacity, which gives
        back its segment size and count, and pushes its elements. */
    constructor Copy(other: IgushArray<T>)
      requires other.Valid()
      ensures Valid() && Elements() == other.Elements() && SizesOf() == other.SizesOf()
    {
      new;
      Allocate(other.capacity);
      PushBackRange(Flatten(other.segs));
    }

    /** size(). */
    function Size(): (n: nat)
      reads this
      requires Valid()
      ensures n == |Elements()|
    {
      SizeOfIsLength(segs, deqSize);
      SizeOf(segs, deqSize)
    }

    /** empty(). */
    function Empty(): (b: bool)
      reads this
      requires Valid()
      ensures b <==> Elements() == []
    {
      EmptyOfIsEmpty(segs, deqSize);
      EmptyOf(segs)
    }

    /** operator[](n). */
    function Get(n: nat): (v: T)
      reads this
      requires Valid() && n < |Elements()|
      ensures v == Elements()[n]
    {
      Lookup(segs, deqSize, n)
    }

    /** at(n). */
    function At(n: nat): (r: Result<T>)
      reads this
      requires Valid()
      ensures n < |Elements()| ==> r == Success(Elements()[n])
      ensures |Elements()| <= n ==> r == Failure(OutOfRange)
    {
      CheckedLookup(segs, deqSize, n)
    }

    /** front(): the first segment's front. */
    function Front(): (v: T)
      reads this
      requires Valid() && Elements() != []
      ensures v == Elements()[0]
    {
      EmptyOfIsEmpty(segs, deqSize);
      FlattenAt(segs, 0, 0);
      segs[0][0]
    }

    /** back(): the last segment's back. */
    function Back(): (v: T)
      reads this
      requires Valid() && Elements() != []
      ensures v == Elements()[|Elements()| - 1]
    {
      var last := |segs| - 1;
      EmptyOfIsEmpty(segs, deqSize);
      FlattenSplit(segs, last);
      assert segs[last + 1..] == [];
      segs[last][|segs[last]| - 1]
    }

    /** begin(). */
    function BeginIter(): (it: Iter)
      reads this
      requires Valid()
      ensures Normal(segs, it) && Pos(segs, it) == 0
    {
      IgushIterators.Begin(segs, deqSize)
    }

    /** end(). */
    function EndIter(): (it: Iter)
      reads this
      requires Valid()
      ensures Normal(segs, it) && Pos(segs, it) == |Elements()|
    {
      IgushIterators.End(segs, deqSize)
    }

    /** push_back(v): when the last segment is full a new empty one is
        appended first; v goes onto the back of the last segment. */
    method PushBack(v: T)
      requires Valid()
      modifies this
      ensures Valid() && SizesOf() == old(SizesOf())
      ensures Elements() == old(Elements()) + [v]
    {
      ghost var before := segs;
      if |segs[|segs| - 1]| == deqSize {
        segs := segs + [[]];
      }
      ghost var grown := segs;
      var last := |segs| - 1;
      segs := segs[last := segs[last] + [v]];
      PushBackFacts(before, deqSize, v, grown, segs);
    }

    /** pop_back(): the last segment drops its back element (a FixedDeque
        throws out_of_range when it is empty, which for a valid array means
        the array is empty); a last segment left empty is removed unless it
        is the only one. */
    method PopBack() returns (r: Outcome)
      requires Valid()
      modifies this
      ensures Valid() && SizesOf() == old(SizesOf())
      ensures old(Elements()) == [] ==> r == Fail(OutOfRange) && segs == old(segs)
      ensures old(Elements()) != [] ==> r == Pass && Elements() == old(Elements())[..|old(Elements())| - 1]
    {
      EmptyOfIsEmpty(segs, deqSize);
      var last := |segs| - 1;
      if segs[last] == [] {
        return Fail(OutOfRange);
      }
      ghost var e := Elements();
      var s := segs[last];
      FlattenSplit(segs, last);
      FlattenUpdate(segs, last, s[..|s| - 1]);
      assert segs[last + 1..] == [];
      segs := segs[last := s[..|s| - 1]];
      assert Elements() == e[..|e| - 1];
      if segs[last] == [] && |segs| > 1 {
        DropEmptyLast(segs);
        segs := segs[..last];
      }
      r := Pass;
    }

    /** `_push_back(first, last)` and `_push_back(first, n)`: push_back of
        every element of the range in turn. */
    method PushBackRange(items: seq<T>)
      requires Valid()
      modifies this
      ensures Valid() && SizesOf() == old(SizesOf())
      ensures Elements() == old(Elements()) + items
    {
      var i := 0;
      while i < |items|
        invariant 0 <= i <= |items|
        invariant Valid() && SizesOf() == old(SizesOf())
        invariant Elements() == old(Elements()) + items[..i]
      {
        PushBack(items[i]);
        assert items[..i + 1] == items[..i] + [items[i]];
        i := i + 1;
      }
      assert items[..i] == items;
    }

    /** insert(it, val): val goes in at the iterator and every later element
        moves one place back, one element per segment crossing into the next
        segment; the element pushed out of the last segment is push_back'ed.
        Returns begin() plus the iterator's old offset: an iterator to val. */
    method Insert(it: Iter, x: T) returns (r: Iter)
      requires Valid() && Normal(segs, it)
      modifies this
      ensures Valid() && SizesOf() == old(SizesOf())
      ensures Pos(old(segs), it) <= |old(Elements())|
      ensures Elements() == old(Elements())[..Pos(old(segs), it)] + [x] + old(Elements())[Pos(old(segs), it)..]
      ensures Normal(segs, r) && Pos(segs, r) == Pos(old(segs), it)
    {
      var result := Diff(segs, deqSize, it, BeginIter());
      var w, carry := InsertOneInPlace(segs, deqSize, it, x);
      segs := w;
      PushBack(carry);
      r := Plus(segs, deqSize, BeginIter(), result);
    }

    /** insert(it, first, last, mode): when the rebuild test passes, a new
        array sized for the total takes the elements before the iterator,
        the range and the elements after it, and is swapped in; otherwise
        the range goes in place (InsertInPlace) and what is left over is
        push_back'ed. Returns begin() plus the iterator's old offset: an
        iterator to the first inserted element. */
    method InsertRange(it: Iter, category: Category, items: seq<T>, mode: ReserveMode) returns (r: Iter)
      requires Valid() && Normal(segs, it) && |items| < SizeTModulus
      modifies this
      ensures Valid() && Pos(old(segs), it) <= |old(Elements())|
      ensures Elements() == Spliced(old(Elements()), Pos(old(segs), it), items)
      ensures RebuildOnInsert(|old(Elements())| + |items|, old(capacity), mode) ==>
                SizesOf() == ReserveSizes(|old(Elements())| + |items|)
      ensures !RebuildOnInsert(|old(Elements())| + |items|, old(capacity), mode) ==>
                SizesOf() == old(SizesOf())
      ensures Normal(segs, r) && Pos(segs, r) == Pos(old(segs), it)
    {
      var result := Diff(segs, deqSize, it, BeginIter());
      var n := DataSize(category, 0, |items|);
      var total := Size() + n;
      PosBound(segs, it);
      if RebuildOnInsert(total, capacity, mode) {
        InsertRebuilding(it, result, items, total);
      } else {
        InsertKeeping(it, items);
      }
      r := Plus(segs, deqSize, BeginIter(), result);
    }

    /** The rebuild branch of range insert: a new array sized for total
        takes the elements before index p, the items and the rest. */
    method InsertRebuilding(it: Iter, p: nat, items: seq<T>, total: nat)
      requires Valid() && Normal(segs, it) && p == Pos(segs, it)
      requires total == |Elements()| + |items|
      modifies this
      ensures Pos(old(segs), it) <= |old(Elements())|
      ensures Valid() && Elements() == Spliced(old(Elements()), Pos(old(segs), it), items)
      ensures SizesOf() == ReserveSizes(|old(Elements())| + |items|)
    {
      PosBound(segs, it);
      var e := Flatten(segs);
      Rebuild(total, e[..p] + items + e[p..]);
    }

    /** The in-place branch of range insert: InsertInPlace, then
        `_push_back` of what it leaves over. */
    method InsertKeeping(it: Iter, items: seq<T>)
      requires Valid() && Normal(segs, it)
      modifies this
      ensures Pos(old(segs), it) <= |old(Elements())|
      ensures Valid() && Elements() == Spliced(old(Elements()), Pos(old(segs), it), items)
      ensures SizesOf() == old(SizesOf())
    {
      var w, rest := InsertInPlace(segs, deqSize, it, items);
      segs := w;
      PushBackRange(rest);
    }

    /** insert(it, n, value, mode): the range overload over a pair of
        OneValueIterators. */
    method InsertCopies(it: Iter, n: nat, value: T, mode: ReserveMode) returns (r: Iter)
      requires Valid() && Normal(segs, it) && n < SizeTModulus
      modifies this
      ensures Valid() && Pos(old(segs), it) <= |old(Elements())|
      ensures Elements() == Spliced(old(Elements()), Pos(old(segs), it), seq(n, _ => value))
      ensures RebuildOnInsert(|old(Elements())| + n, old(capacity), mode) ==>
                SizesOf() == ReserveSizes(|old(Elements())| + n)
      ensures !RebuildOnInsert(|old(Elements())| + n, old(capacity), mode) ==>
                SizesOf() == old(SizesOf())
      ensures Normal(segs, r) && Pos(segs, r) == Pos(old(segs), it)
    {
      OneRangeIsCopies(n, value);
      r := InsertRange(it, RandomAccess, OneRange(OneValue(0, value), OneValue(n, value)), mode);
    }

    /** erase(it): the element at the iterator leaves and every later
        element moves one place forward, one element per segment crossing
        into the segment before; the last segment is removed when that
        leaves it empty and it is not the only one. Returns begin() plus the
        iterator's old offset: an iterator to the element after the erased
        one. */
    method Erase(it: Iter) returns (r: Iter)
      requires Valid() && Normal(segs, it) && Pos(segs, it) < |Elements()|
      modifies this
      ensures Valid() && SizesOf() == old(SizesOf())
      ensures Elements() == old(Elements())[..Pos(old(segs), it)] + old(Elements())[Pos(old(segs), it) + 1..]
      ensures Normal(segs, r) && Pos(segs, r) == Pos(old(segs), it)
    {
      var result := Diff(segs, deqSize, it, BeginIter());
      var v := EraseCascade(segs, deqSize, it);
      ShrinkLast(segs, v, deqSize);
      segs := v;
      if segs[|segs| - 1] == [] && |segs| > 1 {
        DropEmptyLast(segs);
        segs := segs[..|segs| - 1];
      }
      r := Plus(segs, deqSize, BeginIter(), result);
    }

    /** erase(first, last): an empty or reversed range changes nothing and
        returns first; otherwise the elements from first up to last leave
        (EraseSpan) and the result is begin() plus first's old offset: an
        iterator to the element after the erased ones. */
    method EraseRange(first: Iter, last: Iter) returns (r: Iter)
      requires Valid() && Normal(segs, first) && Normal(segs, last)
      modifies this
      ensures Valid() && SizesOf() == old(SizesOf())
      ensures Pos(old(segs), last) <= Pos(old(segs), first) ==> segs == old(segs) && r == first
      ensures Pos(old(segs), first) < Pos(old(segs), last) ==>
                && Pos(old(segs), last) <= |old(Elements())|
                && Elements() == old(Elements())[..Pos(old(segs), first)] + old(Elements())[Pos(old(segs), last)..]
                && Normal(segs, r) && Pos(segs, r) == Pos(old(segs), first)
    {
      ComparisonsAgree(segs, first, last);
      if GreaterEq(first, last) {
        return first;
      }
      var result := Diff(segs, deqSize, first, BeginIter());
      PosBound(segs, first);
      segs := EraseSpan(segs, deqSize, first, last);
      r := Plus(segs, deqSize, BeginIter(), result);
    }

    /** insert(it, x) followed by erase at the returned iterator leaves the
        array as it was. */
    method InsertThenErase(it: Iter, x: T)
      requires Valid() && Normal(segs, it)
      modifies this
      ensures Valid() && SizesOf() == old(SizesOf()) && Elements() == old(Elements())
    {
      ghost var e := Elements();
      ghost var p := Pos(segs, it);
      var r := Insert(it, x);
      r := Erase(r);
      EraseUndoesInsert(e, p, x);
    }

    /** A range insert followed by the erase of the inserted range, from the
        returned iterator to n places after it, leaves the elements as they
        were. */
    method InsertRangeThenEraseRange(it: Iter, category: Category, items: seq<T>, mode: ReserveMode)
      requires Valid() && Normal(segs, it) && |items| < SizeTModulus
      modifies this
      ensures Valid() && Elements() == old(Elements())
    {
      ghost var e := Elements();
      var first := InsertRange(it, category, items, mode);
      ghost var p := Pos(segs, first);
      var last := Plus(segs, deqSize, first, |items|);
      var r := EraseRange(first, last);
      assert Elements() == Spliced(e, p, items)[..p] + Spliced(e, p, items)[p + |items|..];
    }

    /** `_fill(where, first, last)` and `_fill(where, first, n)`: the range
        overwrites the elements from where on; returns where advanced past
        them. */
    method Fill(where: Iter, items: seq<T>) returns (r: Iter)
      requires Valid() && Normal(segs, where) && Pos(segs, where) + |items| <= |Elements()|
      modifies this
      ensures Valid() && SizesOf() == old(SizesOf())
      ensures Elements() == old(Elements())[..Pos(old(segs), where)] + items + old(Elements())[Pos(old(segs), where) + |items|..]
      ensures Normal(segs, r) && Pos(segs, r) == Pos(old(segs), where) + |items|
    {
      segs, r := Overwrite(segs, deqSize, where, items);
    }

    /** `_decrease_size(n)`: keep ceil(n / deqSize) segments (at least one)
        and resize the last to hold the rest of the first n elements. */
    method DecreaseSize(n: nat)
      requires Valid() && n <= |Elements()|
      modifies this
      ensures Valid() && SizesOf() == old(SizesOf())
      ensures Elements() == old(Elements())[..n]
    {
      var vs := CeilDiv(n, deqSize);
      if vs == 0 {
        vs := 1;
      }
      var keep := n - (vs - 1) * deqSize;
      TruncateFacts(segs, deqSize, n, vs, keep);
      segs := segs[..vs];
      segs := segs[vs - 1 := segs[vs - 1][..keep]];
    }

    /** swap(ia): the two arrays exchange their segments and sizes. */
    method Swap(other: IgushArray<T>)
      modifies this, other
      ensures segs == old(other.segs) && other.segs == old(segs)
      ensures SizesOf() == old(other.SizesOf()) && other.SizesOf() == old(SizesOf())
    {
      segs, other.segs := other.segs, segs;
      deqSize, other.deqSize := other.deqSize, deqSize;
      vecSize, other.vecSize := other.vecSize, vecSize;
      capacity, other.capacity := other.capacity, capacity;
    }

    /** `operator=(ia)`: a copy of ia is swapped in, so this array takes
        ia's elements and sizes, and ia, also when it is this array, keeps
        its elements. */
    method CopyAssign(other: IgushArray<T>)
      requires other.Valid()
      modifies this
      ensures Valid() && Elements() == old(other.Elements()) && SizesOf() == old(other.SizesOf())
      ensures other != this ==> other.Elements() == old(other.Elements())
    {
      var copy := new IgushArray<T>.Copy(other);
      Swap(copy);
    }

    /** The rebuild step of reserve, resize, assign and range insert:
        `IgushArray ia; ia._reserve(n);`, then `ia._push_back` of the new
        contents (one range after another, which pushes their
        concatenation), then `swap(ia)`. */
    method Rebuild(n: nat, items: seq<T>)
      modifies this
      ensures Valid() && Elements() == items && SizesOf() == ReserveSizes(n)
    {
      var ia := new IgushArray<T>();
      ia.Allocate(n);
      ia.PushBackRange(items);
      Swap(ia);
    }

    /** reserve(n): nothing when n fits the capacity; otherwise a new array
        sized for n takes the elements and is swapped in. */
    method Reserve(n: nat)
      requires Valid()
      modifies this
      ensures Valid() && Elements() == old(Elements())
      ensures n <= old(capacity) ==> segs == old(segs) && SizesOf() == old(SizesOf())
      ensures old(capacity) < n ==> SizesOf() == ReserveSizes(n)
    {
      if n <= capacity {
        return;
      }
      Rebuild(n, Flatten(segs));
    }

    /** resize(n, value, mode): when the rebuild test passes, a new array
        sized for n takes the first n elements (padded with value) and is
        swapped in; otherwise value is push_back'ed up to n elements, or the
        array is cut down to n. */
    method Resize(n: nat, value: T, mode: ReserveMode)
      requires Valid()
      modifies this
      ensures Valid() && Elements() == Resized(old(Elements()), n, value)
      ensures RebuildAsWritten(n, old(capacity), mode) ==> SizesOf() == ReserveSizes(n)
      ensures !RebuildAsWritten(n, old(capacity), mode) ==> SizesOf() == old(SizesOf())
    {
      ghost var e := Elements();
      var currentSize := Size();
      if RebuildAsWritten(n, capacity, mode) {
        if n >= currentSize {
          OneRangeIsCopies(n - currentSize, value);
          ResizedGrows(e, n, value);
          Rebuild(n, Flatten(segs) + OneRange(OneValue(0, value), OneValue(n - currentSize, value)));
        } else {
          Rebuild(n, Flatten(segs)[..n]);
        }
      } else {
        if n >= currentSize {
          OneRangeIsCopies(n - currentSize, value);
          PushBackRange(OneRange(OneValue(0, value), OneValue(n - currentSize, value)));
          ResizedGrows(e, n, value);
        } else {
          DecreaseSize(n);
        }
      }
    }

    /** assign(first, last, mode): when the rebuild test passes, a new array
        sized for the range takes it and is swapped in; otherwise the range
        overwrites the elements from begin() and the rest of it is
        push_back'ed, or the array is first cut down to the range's length. */
    method Assign(category: Category, items: seq<T>, mode: ReserveMode)
      requires Valid() && |items| < SizeTModulus
      modifies this
      ensures Valid() && Elements() == items
      ensures RebuildAsWritten(|items|, old(capacity), mode) ==> SizesOf() == ReserveSizes(|items|)
      ensures !RebuildAsWritten(|items|, old(capacity), mode) ==> SizesOf() == old(SizesOf())
    {
      var n := DataSize(category, 0, |items|);
      if RebuildAsWritten(n, capacity, mode) {
        Rebuild(n, items);
      } else {
        AssignInPlace(items);
      }
    }

    /** The in-place branch of assign: a range at least as long as the
        array overwrites every element and the rest is push_back'ed; a
        shorter one first cuts the array to its length (`_decrease_size`),
        then overwrites it. */
    method AssignInPlace(items: seq<T>)
      requires Valid()
      modifies this
      ensures Valid() && Elements() == items && SizesOf() == old(SizesOf())
    {
      var currentSize := Size();
      var n := |items|;
      if n >= currentSize {
        ghost var e := Elements();
        var _ := Fill(BeginIter(), items[..currentSize]);
        assert Elements() == items[..currentSize] by {
          assert e[..0] + items[..currentSize] + e[currentSize..] == items[..currentSize];
        }
        PushBackRange(items[currentSize..]);
        assert items[..currentSize] + items[currentSize..] == items;
      } else {
        DecreaseSize(n);
        ghost var e := Elements();
        var _ := Fill(BeginIter(), items);
        assert e[..0] + items + e[|items|..] == items;
      }
    }

    /** assign(n, value, mode): the range overload over a pair of
        OneValueIterators. */
    method AssignCopies(n: nat, value: T, mode: ReserveMode)
      requires Valid() && n < SizeTModulus
      modifies this
      ensures Valid() && Elements() == seq(n, _ => value)
      ensures RebuildAsWritten(n, old(capacity), mode) ==> SizesOf() == ReserveSizes(n)
      ensures !RebuildAsWritten(n, old(capacity), mode) ==> SizesOf() == old(SizesOf())
    {
      OneRangeIsCopies(n, value);
      Assign(RandomAccess, OneRange(OneValue(0, value), OneValue(n, value)), mode);
    }

    /** clear() as written: every segment is deleted and the vector is
        resized to zero segments, leaving none for end() to point into. */
    method ClearAsWritten()
      requires Valid()
      modifies this
      ensures segs == [] && SizesOf() == old(SizesOf())
    {
      segs := [];
    }

    /** clear() as intended: the array is left empty, with the one empty
        segment every empty array has. */
    method Clear()
      requires Valid()
      modifies this
      ensures Valid() && SizesOf() == old(SizesOf())
      ensures Elements() == [] && EmptyOf(segs)
    {
      segs := [[]];
      FlattenSingle<T>([]);
    }
  }
}
