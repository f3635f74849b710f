/**
  Python's `collections.deque(maxlen=cap)`: appending to a full deque
  discards the oldest element. Used for the per-motor feedback history
  and the per-motor plot series.
*/
module Bounded {

  /** The last `n` elements of `t` (all of `t` when it is shorter). */
  function LastN<T>(t: seq<T>, n: nat): (r: seq<T>)
    ensures |r| == if |t| <= n then |t| else n
  {
    if |t| <= n then t else t[|t| - n..]
  }

  /** `d.append(x)` on a deque `d` of capacity `cap`. */
  function Push<T>(s: seq<T>, x: T, cap: nat): (r: seq<T>)
    requires 0 < cap && |s| <= cap
    ensures |r| <= cap && |r| > 0 && r[|r| - 1] == x
  {
    if |s| < cap then s + [x] else s[1..] + [x]
  }

  /** Appending each of `xs` in order. */
  function PushAll<T>(s: seq<T>, xs: seq<T>, cap: nat): (r: seq<T>)
    requires 0 < cap && |s| <= cap
    ensures |r| <= cap
    decreases |xs|
  {
    if |xs| == 0 then s else PushAll(Push(s, xs[0], cap), xs[1..], cap)
  }

  /** One append keeps exactly the newest `cap` elements of the history. */
  lemma PushKeepsNewest<T>(s: seq<T>, x: T, cap: nat)
    requires 0 < cap && |s| <= cap
    ensures Push(s, x, cap) == LastN(s + [x], cap)
  {
    if |s| == cap {
      assert (s + [x])[|s + [x]| - cap..] == s[1..] + [x];
    }
  }

  /** Any number of appends keeps exactly the newest `cap` elements. */
  lemma {:induction false} PushAllKeepsNewest<T>(s: seq<T>, xs: seq<T>, cap: nat)
    requires 0 < cap && |s| <= cap
    ensures PushAll(s, xs, cap) == LastN(s + xs, cap)
    decreases |xs|
  {
    if |xs| == 0 {
      assert s + xs == s;
    } else {
      var s' := Push(s, xs[0], cap);
      PushKeepsNewest(s, xs[0], cap);
      PushAllKeepsNewest(s', xs[1..], cap);
      LastNOfLastN(s + [xs[0]], xs[1..], cap);
      assert s + [xs[0]] + xs[1..] == s + xs;
    }
  }

  /** Trimming before appending more does not change the newest `n`. */
  lemma LastNOfLastN<T>(t: seq<T>, u: seq<T>, n: nat)
    ensures LastN(LastN(t, n) + u, n) == LastN(t + u, n)
  {
    if |t| > n {
      var a := LastN(t, n) + u;
      var b := t + u;
      assert a == b[|t| - n..];
      assert a[|a| - n..] == b[|b| - n..];
    }
  }
}
