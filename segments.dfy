/** The segment layer of IgushArray. The array owns a vector of FixedDeque
    segments; here each segment is its contents, so the vector is a
    `seq<seq<T>>`. The array's value is the concatenation of the segments.
    The shape invariant: every segment but the last holds exactly `deqSize`
    elements, the last holds at most `deqSize`, there is at least one
    segment, and the last is empty only when it is the only one. */
module Segments {
  import opened Sizing

  /** The concatenation of the segments, front first. */
  function Flatten<T>(segs: seq<seq<T>>): seq<T>
  {
    if segs == [] then [] else segs[0] + Flatten(segs[1..])
  }

  lemma {:induction false} FlattenAppend<T>(a: seq<seq<T>>, b: seq<seq<T>>)
    ensures Flatten(a + b) == Flatten(a) + Flatten(b)
  {
    if a == [] {
      assert a + b == b;
    } else {
      assert (a + b)[1..] == a[1..] + b;
      FlattenAppend(a[1..], b);
    }
  }

  lemma FlattenSingle<T>(s: seq<T>)
    ensures Flatten([s]) == s
  {
    assert [s][1..] == [];
  }

  /** Cutting the vector around segment k. */
  lemma FlattenSplit<T>(segs: seq<seq<T>>, k: nat)
    requires k < |segs|
    ensures Flatten(segs) == Flatten(segs[..k]) + segs[k] + Flatten(segs[k + 1..])
  {
    var rest := segs[k..];
    assert segs == segs[..k] + rest;
    FlattenAppend(segs[..k], rest);
    assert rest[0] == segs[k] && rest[1..] == segs[k + 1..];
    assert Flatten(rest) == segs[k] + Flatten(segs[k + 1..]);
  }

  /** The prefix of k + 1 segments extends the prefix of k by segment k. */
  lemma FlattenPrefixStep<T>(segs: seq<seq<T>>, k: nat)
    requires k < |segs|
    ensures Flatten(segs[..k + 1]) == Flatten(segs[..k]) + segs[k]
  {
    var p := segs[..k + 1];
    FlattenSplit(p, k);
    assert p[..k] == segs[..k];
    assert p[k + 1..] == [];
  }

  /** Offset i of segment k is element |Flatten(segs[..k])| + i of the
      concatenation. */
  lemma FlattenAt<T>(segs: seq<seq<T>>, k: nat, i: nat)
    requires k < |segs| && i < |segs[k]|
    ensures |Flatten(segs[..k])| + i < |Flatten(segs)|
    ensures Flatten(segs)[|Flatten(segs[..k])| + i] == segs[k][i]
  {
    FlattenSplit(segs, k);
  }

  /** Longer prefixes hold at least as many elements. */
  lemma {:induction false} PrefixMonotone<T>(segs: seq<seq<T>>, i: nat, j: nat)
    requires i <= j <= |segs|
    ensures |Flatten(segs[..i])| <= |Flatten(segs[..j])|
    decreases j - i
  {
    if i < j {
      FlattenPrefixStep(segs, i);
      PrefixMonotone(segs, i + 1, j);
    }
  }

  /** A prefix that reaches past segment i holds all of segment i. */
  lemma PrefixGrows<T>(segs: seq<seq<T>>, i: nat, j: nat)
    requires i < j <= |segs|
    ensures |Flatten(segs[..i])| + |segs[i]| <= |Flatten(segs[..j])|
  {
    FlattenPrefixStep(segs, i);
    PrefixMonotone(segs, i + 1, j);
  }

  /** Replacing segment k replaces its stretch of the concatenation. */
  lemma FlattenUpdate<T>(segs: seq<seq<T>>, k: nat, x: seq<T>)
    requires k < |segs|
    ensures Flatten(segs[k := x]) == Flatten(segs[..k]) + x + Flatten(segs[k + 1..])
  {
    var u := segs[k := x];
    FlattenSplit(u, k);
    assert u[..k] == segs[..k];
    assert u[k + 1..] == segs[k + 1..];
  }

  /** Overwriting offset j of segment k overwrites one element of the
      concatenation. */
  lemma FlattenUpdateAt<T>(segs: seq<seq<T>>, k: nat, j: nat, v: T)
    requires k < |segs| && j < |segs[k]|
    ensures |Flatten(segs[..k])| + j < |Flatten(segs)|
    ensures Flatten(segs[k := segs[k][j := v]]) == Flatten(segs)[|Flatten(segs[..k])| + j := v]
  {
    FlattenUpdate(segs, k, segs[k][j := v]);
    FlattenSplit(segs, k);
  }

  /** Flattening around a replaced segment k. */
  lemma FlattenAround<T>(segs: seq<seq<T>>, k: nat, x: seq<T>, v: seq<seq<T>>)
    requires k < |segs| && v == segs[k := x]
    ensures Flatten(v[..k + 1]) == Flatten(segs[..k]) + x
    ensures Flatten(v[k + 1..]) == Flatten(segs[k + 1..])
  {
    FlattenPrefixStep(v, k);
    assert v[..k] == segs[..k];
    assert v[k + 1..] == segs[k + 1..];
  }

  /** Putting a segment x in front of segment k. */
  lemma FlattenInsertSeg<T>(segs: seq<seq<T>>, k: nat, x: seq<T>)
    requires k <= |segs|
    ensures Flatten(segs[..k] + [x] + segs[k..]) == Flatten(segs[..k]) + x + Flatten(segs[k..])
  {
    FlattenAppend(segs[..k] + [x], segs[k..]);
    FlattenAppend(segs[..k], [x]);
    FlattenSingle(x);
  }

  /** The segments from k on: segment k, then the rest. */
  lemma FlattenFrom<T>(segs: seq<seq<T>>, k: nat)
    requires k < |segs|
    ensures Flatten(segs[k..]) == segs[k] + Flatten(segs[k + 1..])
  {
    assert segs[k..][1..] == segs[k + 1..];
  }

  /** The concatenation is the prefix before segment k followed by the
      segments from k on. */
  lemma FlattenCut<T>(segs: seq<seq<T>>, k: nat)
    requires k <= |segs|
    ensures Flatten(segs) == Flatten(segs[..k]) + Flatten(segs[k..])
  {
    assert segs == segs[..k] + segs[k..];
    FlattenAppend(segs[..k], segs[k..]);
  }

  /** Removing a last segment that is empty leaves the concatenation as it
      was. */
  lemma DropEmptyLast<T>(segs: seq<seq<T>>)
    requires segs != [] && Last(segs) == []
    ensures Flatten(segs[..|segs| - 1]) == Flatten(segs)
  {
    FlattenPrefixStep(segs, |segs| - 1);
    assert segs[..|segs|] == segs;
  }

  /** Cutting a + s + b at an offset i inside s. */
  lemma Cut<T>(a: seq<T>, s: seq<T>, b: seq<T>, i: nat)
    requires i <= |s|
    ensures (a + s + b)[..|a| + i] == a + s[..i]
    ensures (a + s + b)[|a| + i..] == s[i..] + b
  {
  }

  /** Two vectors whose segments have the same lengths have the same
      shape. */
  lemma SameLengthsShaped<T>(a: seq<seq<T>>, b: seq<seq<T>>, ds: nat)
    requires Shaped(a, ds) && |a| == |b|
    requires forall k :: 0 <= k < |a| ==> |a[k]| == |b[k]|
    ensures Shaped(b, ds)
  {
    assert |Last(a)| == |Last(b)|;
  }

  /** Replacing segment k changes the segments from k on accordingly. */
  lemma ReplaceFrom<T>(segs: seq<seq<T>>, k: nat, x: seq<T>)
    requires k < |segs|
    ensures Flatten(segs[k := x][k..]) == x + Flatten(segs[k + 1..])
  {
    FlattenFrom(segs[k := x], k);
    assert segs[k := x][k + 1..] == segs[k + 1..];
  }

  /** ShiftStep for a single element: segment k hands its back element on
      and takes the carried element c at its front. */
  lemma CascadeStep<T>(segs: seq<seq<T>>, k: nat, c: T, u: seq<seq<T>>)
    requires k < |segs| && segs[k] != []
    requires u == segs[k := [c] + segs[k][..|segs[k]| - 1]]
    ensures Flatten(u[..k + 1]) + [segs[k][|segs[k]| - 1]] + Flatten(u[k + 1..])
              == Flatten(segs[..k]) + [c] + Flatten(segs[k..])
  {
    ShiftStep(segs, k, [c], 1, u);
    assert segs[k][|segs[k]| - 1..] == [segs[k][|segs[k]| - 1]];
  }

  /** The start of the insert cascade: x goes in at offset off of segment
      k (u is the vector after that), whose back element is carried on. */
  lemma InsertIntoSegment<T>(segs: seq<seq<T>>, k: nat, off: nat, x: T, mid: seq<T>, carry: T,
                             u: seq<seq<T>>, p: nat)
    requires k < |segs| && off < |segs[k]| && p == |Flatten(segs[..k])| + off
    requires mid == segs[k][..off] + [x] + segs[k][off..|segs[k]| - 1] && carry == segs[k][|segs[k]| - 1]
    requires u == segs[k := mid]
    ensures p < |Flatten(segs)|
    ensures Flatten(u[..k + 1]) + [carry] + Flatten(u[k + 1..])
              == Flatten(segs)[..p] + [x] + Flatten(segs)[p..]
  {
    var s := segs[k];
    var a, b := Flatten(segs[..k]), Flatten(segs[k + 1..]);
    assert Flatten(u[..k + 1]) == a + (s[..off] + [x] + s[off..|s| - 1]) by {
      FlattenPrefixStep(u, k);
      assert u[..k] == segs[..k];
    }
    assert Flatten(u[k + 1..]) == b by {
      assert u[k + 1..] == segs[k + 1..];
    }
    FlattenSplit(segs, k);
    SpliceAlgebra(a, s, b, off, x);
  }

  /** The sequence algebra behind InsertIntoSegment. */
  lemma SpliceAlgebra<T>(a: seq<T>, s: seq<T>, b: seq<T>, off: nat, x: T)
    requires off < |s|
    ensures a + (s[..off] + [x] + s[off..|s| - 1]) + [s[|s| - 1]] + b
              == (a + s + b)[..|a| + off] + [x] + (a + s + b)[|a| + off..]
  {
    Cut(a, s, b, off);
    assert s[off..] == s[off..|s| - 1] + [s[|s| - 1]];
  }

  /** After an erase cascade every segment keeps its length but the last,
      which has lost one element: dropping that last segment when it is
      empty and not the only one restores the shape. */
  lemma ShrinkLast<T>(a: seq<seq<T>>, v: seq<seq<T>>, ds: nat)
    requires Shaped(a, ds) && |v| == |a|
    requires forall j :: 0 <= j < |v| - 1 ==> |v[j]| == |a[j]|
    requires |Last(v)| + 1 == |Last(a)|
    ensures Last(v) != [] || |v| == 1 ==> Shaped(v, ds)
    ensures Last(v) == [] && |v| > 1 ==> Shaped(v[..|v| - 1], ds)
  {
  }

  /** One step of a cascade that moves m elements: segment k hands its last
      m elements on and takes the carried elements t at its front. */
  lemma ShiftStep<T>(segs: seq<seq<T>>, k: nat, t: seq<T>, m: nat, u: seq<seq<T>>)
    requires k < |segs| && m <= |segs[k]|
    requires u == segs[k := t + segs[k][..|segs[k]| - m]]
    ensures Flatten(u[..k + 1]) + segs[k][|segs[k]| - m..] + Flatten(u[k + 1..])
              == Flatten(segs[..k]) + t + Flatten(segs[k..])
  {
    var s := segs[k];
    FlattenPrefixStep(u, k);
    assert u[..k] == segs[..k];
    assert u[k + 1..] == segs[k + 1..];
    FlattenFrom(segs, k);
    assert s == s[..|s| - m] + s[|s| - m..];
  }

  /** Every segment holds exactly ds elements. */
  ghost predicate Full<T>(segs: seq<seq<T>>, ds: nat)
  {
    forall k :: 0 <= k < |segs| ==> |segs[k]| == ds
  }

  lemma {:induction false} FullLength<T>(segs: seq<seq<T>>, ds: nat)
    requires Full(segs, ds)
    ensures |Flatten(segs)| == |segs| * ds
  {
    if segs != [] {
      FullLength(segs[1..], ds);
    }
  }

  function Last<T>(segs: seq<seq<T>>): seq<T>
    requires segs != []
  {
    segs[|segs| - 1]
  }

  /** The shape invariant of the segment vector. */
  ghost predicate Shaped<T>(segs: seq<seq<T>>, ds: nat)
  {
    && 1 <= ds
    && 1 <= |segs|
    && (forall k :: 0 <= k < |segs| - 1 ==> |segs[k]| == ds)
    && |Last(segs)| <= ds
    && (1 < |segs| ==> Last(segs) != [])
  }

  /** size(): `(|v| - 1) * deqSize + |v.back()|`, 0 when there are no
      segments. */
  function SizeOf<T>(segs: seq<seq<T>>, ds: nat): nat
  {
    if segs == [] then 0 else (|segs| - 1) * ds + |Last(segs)|
  }

  /** empty(): one segment, and that one empty. */
  predicate EmptyOf<T>(segs: seq<seq<T>>)
  {
    |segs| == 1 && segs[0] == []
  }

  /** The first k segments of a shaped vector, k not the last, are full and
      hold k * ds elements. */
  lemma PrefixLength<T>(segs: seq<seq<T>>, ds: nat, k: nat)
    requires Shaped(segs, ds) && k < |segs|
    ensures |Flatten(segs[..k])| == k * ds
  {
    FullLength(segs[..k], ds);
  }

  /** Segments v to v + j - 1 of a shaped vector are full (v + j is not past
      the last), so they hold j * ds elements. */
  lemma {:induction false} PrefixRun<T>(segs: seq<seq<T>>, ds: nat, v: nat, j: nat)
    requires Shaped(segs, ds) && v + j < |segs|
    ensures |Flatten(segs[..v + j])| == |Flatten(segs[..v])| + j * ds
  {
    if j > 0 {
      PrefixRun(segs, ds, v, j - 1);
      FlattenPrefixStep(segs, v + j - 1);
      assert (j - 1) * ds + ds == j * ds;
    }
  }

  /** On a shaped vector the size formula counts the elements. */
  lemma SizeOfIsLength<T>(segs: seq<seq<T>>, ds: nat)
    requires Shaped(segs, ds)
    ensures SizeOf(segs, ds) == |Flatten(segs)|
  {
    var k := |segs| - 1;
    FlattenSplit(segs, k);
    PrefixLength(segs, ds, k);
    assert segs[k + 1..] == [];
  }

  /** On a shaped vector the emptiness test holds exactly when there are no
      elements. */
  lemma EmptyOfIsEmpty<T>(segs: seq<seq<T>>, ds: nat)
    requires Shaped(segs, ds)
    ensures EmptyOf(segs) <==> Flatten(segs) == []
  {
    SizeOfIsLength(segs, ds);
    if |segs| > 1 {
      assert SizeOf(segs, ds) >= |Last(segs)| > 0;
    } else {
      FlattenSingle(segs[0]);
      assert segs == [segs[0]];
    }
  }

  /** The arithmetic of routing: with m full segments before a last one of
      L <= ds elements, index n lands at most in segment m, at an offset below
      ds, and below L when it lands in segment m. */
  lemma DivRoute(n: nat, ds: nat, m: nat, L: nat)
    requires 1 <= ds && L <= ds && n < m * ds + L
    ensures n / ds <= m && 0 <= n - (n / ds) * ds < ds
    ensures n / ds == m ==> n - m * ds < L
  {
    var k := n / ds;
    assert n == k * ds + n % ds;
    if k > m {
      MulMonotone(m + 1, k, ds);
      assert false;
    }
  }

  /** operator[](n): element n sits in segment n / ds at offset
      n - (n / ds) * ds. */
  lemma Route<T>(segs: seq<seq<T>>, ds: nat, n: nat)
    requires Shaped(segs, ds) && n < |Flatten(segs)|
    ensures n / ds < |segs| && n - (n / ds) * ds < |segs[n / ds]|
    ensures segs[n / ds][n - (n / ds) * ds] == Flatten(segs)[n]
  {
    var m := |segs| - 1;
    SizeOfIsLength(segs, ds);
    DivRoute(n, ds, m, |segs[m]|);
    var k := n / ds;
    var i := n - k * ds;
    PrefixLength(segs, ds, k);
    assert i < |segs[k]| by {
      if k < m {
        assert |segs[k]| == ds;
      }
    }
    FlattenAt(segs, k, i);
  }

  /** The canonical layout of s in segments of ds: full segments from the
      front, the remainder (possibly empty) last. */
  function Chop<T>(s: seq<T>, ds: nat): (segs: seq<seq<T>>)
    requires 1 <= ds
    ensures Shaped(segs, ds) && Flatten(segs) == s
    decreases |s|
  {
    if |s| <= ds then
      FlattenSingle(s);
      [s]
    else
      var rest := Chop(s[ds..], ds);
      var segs := [s[..ds]] + rest;
      assert segs[1..] == rest;
      assert s == s[..ds] + s[ds..];
      segs
  }

  /** A non-empty s takes ceil(|s| / ds) segments. */
  lemma {:induction false} ChopCount<T>(s: seq<T>, ds: nat)
    requires 1 <= ds && s != []
    ensures |Chop(s, ds)| == CeilDiv(|s|, ds)
    decreases |s|
  {
    if |s| <= ds {
      CeilDivOne(|s|, ds);
    } else {
      var rest := s[ds..];
      ChopCount(rest, ds);
      CeilDivStep(|rest|, ds);
    }
  }

  /** A non-empty s whose length is a multiple of ds is laid out in full
      segments only. */
  lemma {:induction false} ChopFull<T>(s: seq<T>, ds: nat, q: nat)
    requires 1 <= ds && |s| == q * ds && s != []
    ensures Full(Chop(s, ds), ds)
    decreases q
  {
    if |s| > ds {
      assert q >= 2;
      assert |s[ds..]| == (q - 1) * ds;
      ChopFull(s[ds..], ds, q - 1);
      var segs := Chop(s, ds);
      assert segs[1..] == Chop(s[ds..], ds);
      forall j | 0 <= j < |segs|
        ensures |segs[j]| == ds
      {
        if j > 0 {
          assert segs[j] == segs[1..][j - 1];
        }
      }
    } else {
      assert q == 1 by {
        if q == 0 {
        } else if q >= 2 {
          MulMonotone(2, q, ds);
        }
      }
    }
  }

  /** A shaped vector is the canonical layout of its own elements: the shape
      invariant and the segment size fix the segmentation completely. */
  lemma {:induction false} ShapedIsChop<T>(segs: seq<seq<T>>, ds: nat)
    requires Shaped(segs, ds)
    ensures segs == Chop(Flatten(segs), ds)
  {
    var s := Flatten(segs);
    if |segs| == 1 {
      FlattenSingle(segs[0]);
      assert segs == [segs[0]];
    } else {
      var tail := segs[1..];
      assert Shaped(tail, ds) by {
        assert Last(tail) == Last(segs);
        forall k | 0 <= k < |tail| - 1
          ensures |tail[k]| == ds
        {
          assert tail[k] == segs[k + 1];
        }
      }
      assert s == segs[0] + Flatten(tail);
      assert Flatten(tail) != [] by {
        SizeOfIsLength(tail, ds);
      }
      assert s[..ds] == segs[0] && s[ds..] == Flatten(tail);
      ShapedIsChop(tail, ds);
      assert segs == [segs[0]] + tail;
    }
  }

  /** Full segments followed by a shaped vector, or by nothing, are
      shaped. */
  lemma ShapedGlue<T>(x: seq<seq<T>>, y: seq<seq<T>>, ds: nat)
    requires 1 <= ds && Full(x, ds)
    requires Shaped(y, ds) || (y == [] && x != [])
    requires x != [] && y != [] ==> Last(y) != []
    ensures Shaped(x + y, ds)
  {
    var v := x + y;
    forall j | 0 <= j < |v| - 1
      ensures |v[j]| == ds
    {
      if j < |x| {
        assert v[j] == x[j];
      } else {
        assert v[j] == y[j - |x|];
      }
    }
    if y == [] {
      assert Last(v) == x[|x| - 1] && |x[|x| - 1]| == ds;
    } else {
      assert Last(v) == Last(y);
    }
  }

  /** The segments of a shaped vector from j on are shaped, and end in
      the same last segment, which is not empty when j > 0. */
  lemma ShapedSuffix<T>(segs: seq<seq<T>>, ds: nat, j: nat)
    requires Shaped(segs, ds) && j < |segs|
    ensures Shaped(segs[j..], ds) && Last(segs[j..]) == Last(segs)
    ensures 0 < j ==> Last(segs[j..]) != []
  {
    var v := segs[j..];
    assert Last(v) == Last(segs);
    assert forall i :: 0 <= i < |v| - 1 ==> v[i] == segs[j + i];
  }

  /** The segments of a shaped vector before j, j not past the last, are
      full. */
  lemma FullPrefix<T>(segs: seq<seq<T>>, ds: nat, j: nat)
    requires Shaped(segs, ds) && j < |segs|
    ensures Full(segs[..j], ds)
  {
    assert forall i :: 0 <= i < j ==> segs[..j][i] == segs[i];
  }

  lemma FullAppend<T>(x: seq<seq<T>>, y: seq<seq<T>>, ds: nat)
    requires Full(x, ds) && Full(y, ds)
    ensures Full(x + y, ds)
  {
    var v := x + y;
    forall j | 0 <= j < |v|
      ensures |v[j]| == ds
    {
      if j < |x| {
        assert v[j] == x[j];
      } else {
        assert v[j] == y[j - |x|];
      }
    }
  }

  /** Putting full segments in place of segment k keeps the shape. */
  lemma ShapedSplice<T>(segs: seq<seq<T>>, ds: nat, k: nat, mid: seq<seq<T>>)
    requires Shaped(segs, ds) && k < |segs| && mid != [] && Full(mid, ds)
    ensures Shaped(segs[..k] + mid + segs[k + 1..], ds)
  {
    var v := segs[..k] + mid + segs[k + 1..];
    forall j | 0 <= j < |v| - 1
      ensures |v[j]| == ds
    {
      if j < k {
        assert v[j] == segs[j];
      } else if j < k + |mid| {
        assert v[j] == mid[j - k];
      } else {
        assert v[j] == segs[j - |mid| + 1];
      }
    }
    if k + 1 < |segs| {
      assert Last(v) == Last(segs);
    } else {
      assert Last(v) == Last(mid);
    }
  }

  /** Putting a full segment after segment k - 1, itself full, keeps the
      shape. */
  lemma ShapedInsertFull<T>(segs: seq<seq<T>>, ds: nat, k: nat, x: seq<T>)
    requires Shaped(segs, ds) && 1 <= k <= |segs| && |segs[k - 1]| == ds && |x| == ds
    ensures Shaped(segs[..k] + [x] + segs[k..], ds)
  {
    var v := segs[..k] + [x] + segs[k..];
    forall j | 0 <= j < |v| - 1
      ensures |v[j]| == ds
    {
      if j < k {
        assert v[j] == segs[j];
      } else if j > k {
        assert v[j] == segs[j - 1];
      }
    }
    if k < |segs| {
      assert Last(v) == Last(segs);
    }
  }
}
