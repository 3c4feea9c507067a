/** The generic slice helpers `Map` and `Filter`, and what they compute. */
module Slices {
  import opened Subsequences

  /** The elements of `a` that satisfy `cb`, in their original order (built back to front,
      as the loop in `Filter` appends at the end). */
  function Filtered<T>(a: seq<T>, cb: T -> bool): (r: seq<T>)
    ensures |r| <= |a|
    ensures forall i :: 0 <= i < |r| ==> cb(r[i])
  {
    if a == [] then []
    else Filtered(a[..|a| - 1], cb) + (if cb(a[|a| - 1]) then [a[|a| - 1]] else [])
  }

  /** `r` is `a` with exactly the positions satisfying `cb` kept, in order. */
  ghost predicate KeepsExactly<T>(r: seq<T>, a: seq<T>, cb: T -> bool)
  {
    exists idx :: IsEmbedding(idx, r, a) && forall i :: 0 <= i < |a| ==> (cb(a[i]) <==> i in idx)
  }

  /** Map: a fresh slice of the same length holding `cb` of each element. */
  method Map<T(0)>(a: seq<T>, cb: T -> T) returns (b: seq<T>)
    ensures |b| == |a|
    ensures forall i :: 0 <= i < |a| ==> b[i] == cb(a[i])
  {
    var arr := new T[|a|];
    for i := 0 to |a|
      invariant forall k :: 0 <= k < i ==> arr[k] == cb(a[k])
    {
      arr[i] := cb(a[i]);
    }
    b := arr[..];
  }

  /** Filter: appends every element satisfying `cb` to an initially empty result. */
  method Filter<T>(a: seq<T>, cb: T -> bool) returns (results: seq<T>)
    ensures results == Filtered(a, cb)
  {
    results := [];
    for i := 0 to |a|
      invariant results == Filtered(a[..i], cb)
    {
      assert a[..i + 1][..i] == a[..i];
      if cb(a[i]) {
        results := results + [a[i]];
      }
    }
    assert a[..|a|] == a;
  }

  /** The positions of `a` whose element satisfies `cb`, in increasing order. */
  ghost function Kept<T>(a: seq<T>, cb: T -> bool): seq<int>
  {
    if a == [] then []
    else Kept(a[..|a| - 1], cb) + (if cb(a[|a| - 1]) then [|a| - 1] else [])
  }

  /** A selection for `a[..n]` that keeps `a[n]` as well is a selection for `a`. */
  lemma KeepsLast<T>(a: seq<T>, cb: T -> bool, idx0: seq<int>, r0: seq<T>)
    requires a != [] && cb(a[|a| - 1])
    requires IsEmbedding(idx0, r0, a[..|a| - 1])
    requires forall i :: 0 <= i < |a| - 1 ==> (cb(a[i]) <==> i in idx0)
    ensures IsEmbedding(idx0 + [|a| - 1], r0 + [a[|a| - 1]], a)
    ensures forall i :: 0 <= i < |a| ==> (cb(a[i]) <==> i in idx0 + [|a| - 1])
  {
  }

  /** A selection for `a[..n]` that drops `a[n]` is a selection for `a`. */
  lemma DropsLast<T>(a: seq<T>, cb: T -> bool, idx0: seq<int>, r0: seq<T>)
    requires a != [] && !cb(a[|a| - 1])
    requires IsEmbedding(idx0, r0, a[..|a| - 1])
    requires forall i :: 0 <= i < |a| - 1 ==> (cb(a[i]) <==> i in idx0)
    ensures IsEmbedding(idx0, r0, a)
    ensures forall i :: 0 <= i < |a| ==> (cb(a[i]) <==> i in idx0)
  {
  }

  /** `Kept` embeds the filtered result into `a`, and holds a position exactly when its
      element satisfies `cb`. */
  lemma {:induction false} KeptSelects<T>(a: seq<T>, cb: T -> bool)
    ensures IsEmbedding(Kept(a, cb), Filtered(a, cb), a)
    ensures forall i :: 0 <= i < |a| ==> (cb(a[i]) <==> i in Kept(a, cb))
  {
    if a != [] {
      var p := a[..|a| - 1];
      KeptSelects(p, cb);
      assert forall i :: 0 <= i < |a| - 1 ==> a[i] == p[i];
      if cb(a[|a| - 1]) {
        KeepsLast(a, cb, Kept(p, cb), Filtered(p, cb));
      } else {
        DropsLast(a, cb, Kept(p, cb), Filtered(p, cb));
      }
    }
  }

  /** The result of filtering keeps exactly the positions of `a` whose element satisfies `cb`,
      in their original order; in particular it is a subsequence of `a`. */
  lemma FilterKeepsExactly<T>(a: seq<T>, cb: T -> bool)
    ensures KeepsExactly(Filtered(a, cb), a, cb)
    ensures IsSubsequence(Filtered(a, cb), a)
  {
    KeptSelects(a, cb);
    var idx := Kept(a, cb);
    assert IsEmbedding(idx, Filtered(a, cb), a) && forall i :: 0 <= i < |a| ==> (cb(a[i]) <==> i in idx);
  }

  /** An element is kept if and only if it occurs in `a` and satisfies `cb`. */
  lemma {:induction false} FilterMembers<T>(a: seq<T>, cb: T -> bool, x: T)
    ensures x in Filtered(a, cb) <==> x in a && cb(x)
  {
    if a != [] {
      var n := |a| - 1;
      FilterMembers(a[..n], cb, x);
      assert a == a[..n] + [a[n]];
    }
  }

  /** Filtering a sequence whose elements all satisfy `cb` changes nothing. */
  lemma {:induction false} FilterKeepsAll<T>(a: seq<T>, cb: T -> bool)
    requires forall i :: 0 <= i < |a| ==> cb(a[i])
    ensures Filtered(a, cb) == a
  {
    if a != [] {
      var n := |a| - 1;
      FilterKeepsAll(a[..n], cb);
      assert a == a[..n] + [a[n]];
    }
  }

  /** Filtering twice with the same callback gives the result of filtering once. */
  lemma FilterIdempotent<T>(a: seq<T>, cb: T -> bool)
    ensures Filtered(Filtered(a, cb), cb) == Filtered(a, cb)
  {
    FilterKeepsAll(Filtered(a, cb), cb);
  }
}
