/** The block rotation that the option scanner uses to bring processed options in front of
    skipped operands without extra storage. */
module Rotation {

  /** Where the element at position `k` comes from when the adjacent runs `[first, last)` and
      `[last, top)` change places. */
  function Source(k: int, first: int, last: int, top: int): (j: int)
    requires first <= last <= top
    ensures first <= k < top <==> first <= j < top
  {
    if first <= k < first + (top - last) then k + (last - first)
    else if first + (top - last) <= k < top then k - (top - last)
    else k
  }

  /** `t` is `s` with the runs `[first, last)` and `[last, top)` in each other's place. */
  ghost predicate IsRotation<T>(s: seq<T>, t: seq<T>, first: nat, last: nat, top: nat)
    requires first <= last <= top <= |s|
  {
    |t| == |s| && forall k :: 0 <= k < |s| ==> t[k] == s[Source(k, first, last, top)]
  }

  /** The one sequence that `IsRotation` describes. */
  ghost function Rotated<T>(s: seq<T>, first: nat, last: nat, top: nat): (t: seq<T>)
    requires first <= last <= top <= |s|
    ensures IsRotation(s, t, first, last, top)
  {
    seq(|s|, k requires 0 <= k < |s| => s[Source(k, first, last, top)])
  }

  /** Swaps the runs `[p, p+len)` and `[q, q+len)` element by element. */
  method SwapRuns<T>(a: array<T>, p: nat, q: nat, len: nat)
    requires p + len <= q && q + len <= a.Length
    modifies a
    ensures Swapped(old(a[..]), a[..], p, q, len)
  {
    for i := 0 to len
      invariant forall k :: 0 <= k < a.Length ==> a[k] == old(a[Partner(k, p, q, i)])
    {
      var tem := a[p + i];
      a[p + i] := a[q + i];
      a[q + i] := tem;
    }
  }

  /** `s` still needs the runs of `[bottom, top)` rotated to become `target`. */
  ghost predicate Pending<T>(s: seq<T>, target: seq<T>, bottom: nat, middle: nat, top: nat) {
    bottom <= middle <= top <= |s| && IsRotation(s, target, bottom, middle, top)
  }

  /** Where the element at position `k` comes from when the runs `[p, p+len)` and `[q, q+len)` are swapped. */
  function Partner(k: int, p: int, q: int, len: int): int {
    if p <= k < p + len then k + (q - p) else if q <= k < q + len then k - (q - p) else k
  }

  /** `t` is `s` after `SwapRuns`. */
  ghost predicate Swapped<T>(s: seq<T>, t: seq<T>, p: nat, q: nat, len: nat) {
    && p + len <= q && q + len <= |s| == |t|
    && forall k :: 0 <= k < |s| ==> t[k] == s[Partner(k, p, q, len)]
  }

  /** Swapping the short lower run with the end of the upper one leaves a smaller rotation. */
  lemma LowerRunShort<T>(s: seq<T>, t: seq<T>, target: seq<T>, bottom: nat, middle: nat, top: nat, rest: nat)
    requires Pending(s, target, bottom, middle, top)
    requires rest == top - (middle - bottom) > middle
    requires Swapped(s, t, bottom, rest, middle - bottom)
    ensures Pending(t, target, bottom, middle, rest)
  {
  }

  /** Swapping the short upper run with the start of the lower one leaves a smaller rotation. */
  lemma UpperRunShort<T>(s: seq<T>, t: seq<T>, target: seq<T>, bottom: nat, middle: nat, top: nat, rest: nat)
    requires Pending(s, target, bottom, middle, top)
    requires rest == bottom + (top - middle) <= middle
    requires Swapped(s, t, bottom, middle, top - middle)
    ensures Pending(t, target, rest, middle, top)
  {
  }

  /** The in-place exchange: repeatedly swaps the shorter run into its final place. */
  method Exchange<T>(a: array<T>, first: nat, last: nat, optind: nat)
    requires first <= last <= optind <= a.Length
    modifies a
    ensures IsRotation(old(a[..]), a[..], first, last, optind)
  {
    var bottom, middle, top := first, last, optind;
    ghost var target := Rotated(a[..], first, last, optind);
    while top > middle && middle > bottom
      invariant first <= bottom <= middle <= top <= optind
      invariant Pending(a[..], target, bottom, middle, top)
      decreases top - bottom
    {
      ghost var before := a[..];
      if top - middle > middle - bottom {
        var len := middle - bottom;
        var rest := top - len;
        SwapRuns(a, bottom, rest, len);
        LowerRunShort(before, a[..], target, bottom, middle, top, rest);
        top := rest;
      } else {
        var len := top - middle;
        var rest := bottom + len;
        SwapRuns(a, bottom, middle, len);
        UpperRunShort(before, a[..], target, bottom, middle, top, rest);
        bottom := rest;
      }
    }
    EmptyRun(a[..], target, bottom, middle, top);
  }

  /** Rotating with an empty run changes nothing. */
  lemma EmptyRun<T>(s: seq<T>, target: seq<T>, bottom: nat, middle: nat, top: nat)
    requires Pending(s, target, bottom, middle, top)
    requires bottom == middle || middle == top
    ensures s == target
  {
    assert forall k :: 0 <= k < |s| ==> Source(k, bottom, middle, top) == k;
  }

  /** The same rotation said with concatenations. */
  lemma RotationSlices<T>(s: seq<T>, t: seq<T>, first: nat, last: nat, top: nat)
    requires first <= last <= top <= |s|
    requires IsRotation(s, t, first, last, top)
    ensures |t| == |s|
    ensures t[..first] == s[..first]
    ensures t[first..first + (top - last)] == s[last..top]
    ensures t[first + (top - last)..top] == s[first..last]
    ensures t[top..] == s[top..]
  {
  }
}
