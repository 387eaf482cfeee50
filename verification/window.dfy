/** The abstract behaviour of a bounded eviction buffer: it always holds the
    most recent values it was given, at most `n` of them, oldest first. */
module Window {

  /** The last `n` elements of `xs` (all of `xs` when it is shorter). */
  function Last<T>(xs: seq<T>, n: nat): (w: seq<T>)
    ensures |w| == if |xs| <= n then |xs| else n
    ensures w == xs[|xs| - |w|..]
  {
    if |xs| <= n then xs else xs[|xs| - n..]
  }

  /** Appending one value to a full window drops exactly the oldest one. */
  lemma LastFullAppend<T>(xs: seq<T>, x: T, n: nat)
    requires |xs| == n >= 1
    ensures Last(xs + [x], n) == xs[1..] + [x]
  {
    assert (xs + [x])[1..] == xs[1..] + [x];
  }

  /** Windowing is compatible with appending: trimming early to the last `n`
      values and trimming once at the end give the same window. */
  lemma LastOfLast<T>(a: seq<T>, b: seq<T>, n: nat)
    ensures Last(Last(a, n) + b, n) == Last(a + b, n)
  {
    if |a| > n {
      var k := |a| - n;
      assert a + b == a[..k] + (a[k..] + b);
      assert (a + b)[|a + b| - n..] == (a[k..] + b)[|a[k..] + b| - n..] by {
        assert |a + b| - n == k + (|a[k..] + b| - n);
      }
      if |a[k..] + b| <= n {
        assert |b| == 0;
        assert a[k..] + b == a[k..];
      }
    }
  }

  /** Sliding the window over a non-empty `xs` one value at a time: first
      over its head, then over the rest. */
  lemma WindowStep<T>(c: seq<T>, xs: seq<T>, n: nat)
    requires |xs| > 0
    ensures Last(Last(c + [xs[0]], n) + xs[1..], n) == Last(c + xs, n)
  {
    LastOfLast(c + [xs[0]], xs[1..], n);
    assert c + [xs[0]] + xs[1..] == c + xs;
  }
}
