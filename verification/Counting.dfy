/** Places in a filtered sequence: an element that is kept comes after as many as were kept before it. */
module Counting {
  /** How many of the first `k` elements satisfy `p`. */
  function CountTo<T>(s: seq<T>, p: T -> bool, k: nat): nat
    requires k <= |s|
  {
    if k == 0 then 0 else CountTo(s, p, k - 1) + if p(s[k - 1]) then 1 else 0
  }

  lemma {:induction false} CountBehind<T>(s: seq<T>, p: T -> bool, k: nat)
    requires 0 < k <= |s|
    ensures CountTo(s, p, k) == (if p(s[0]) then 1 else 0) + CountTo(s[1..], p, k - 1)
    decreases k
  {
    if k > 1 {
      CountBehind(s, p, k - 1);
      assert s[1..][k - 2] == s[k - 1];
    }
  }

  /** `r` is the image under `f` of exactly the elements of `s` that satisfy `p`, in their order. */
  ghost predicate IsImage<T, U>(s: seq<T>, p: T -> bool, f: T -> U, r: seq<U>) {
    && |r| == CountTo(s, p, |s|)
    && forall k | 0 <= k < |s| && p(s[k]) :: var n := CountTo(s, p, k); n < |r| && r[n] == f(s[k])
  }

  /** One more element in front. */
  lemma ImageCons<T, U>(s: seq<T>, p: T -> bool, f: T -> U, r: seq<U>, rest: seq<U>)
    requires s != [] && IsImage(s[1..], p, f, rest) && r == (if p(s[0]) then [f(s[0])] else []) + rest
    ensures IsImage(s, p, f, r)
  {
    CountBehind(s, p, |s|);
    forall k | 0 <= k < |s| && p(s[k])
      ensures var n := CountTo(s, p, k); n < |r| && r[n] == f(s[k])
    {
      if k > 0 {
        CountBehind(s, p, k);
        assert s[1..][k - 1] == s[k];
      }
    }
  }

  /** The image of an image. */
  lemma ImageMap<T, U, V>(s: seq<T>, p: T -> bool, f: T -> U, r: seq<U>, g: U -> V, h: T -> V, t: seq<V>)
    requires IsImage(s, p, f, r) && |t| == |r| && (forall i | 0 <= i < |r| :: t[i] == g(r[i]))
    requires forall k | 0 <= k < |s| :: h(s[k]) == g(f(s[k]))
    ensures IsImage(s, p, h, t)
  {
  }
}
