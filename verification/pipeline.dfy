/** The pipeline of makePipeline/buffPipe/consumer, flattened into one
    sequential run: every submitted value passes the non-negative filter, then
    the divisible-by-three filter, then is pushed into the ring buffer; a
    ticker event drains the buffer and reports a non-empty snapshot. */
module Pipeline {
  import opened Window
  import opened Ring

  /** Go's `/` by a positive divisor: the quotient truncated towards zero
      (Dafny's `/` is Euclidean and rounds a negative quotient down). */
  function GoQuo(a: int, m: int): (q: int)
    requires m > 0
  {
    if a >= 0 then a / m else -((-a) / m)
  }

  /** Go's `%` by a positive divisor: what remains after the truncated
      quotient, so the remainder takes the sign of the dividend (Dafny's `%`
      is Euclidean and never negative). */
  function GoRem(a: int, m: int): (r: int)
    requires m > 0
    ensures a == m * GoQuo(a, m) + r
    ensures a >= 0 ==> 0 <= r < m
    ensures a < 0 ==> -m < r <= 0
  {
    if a >= 0 then a % m else -((-a) % m)
  }

  /** A positive multiple of `m` is at least `m`. */
  lemma MulAtLeast(m: int, k: int)
    requires m > 0 && k >= 1
    ensures m * k >= m
  {
  }

  /** Dafny's remainder is the unique `r` in [0, m) with x == m * q + r. */
  lemma ModUnique(x: int, m: int, q: int, r: int)
    requires m > 0 && 0 <= r < m && x == m * q + r
    ensures x % m == r
  {
    var q0, r0 := x / m, x % m;
    assert x == m * q0 + r0;
    if q > q0 {
      assert m * (q - q0) == m * q - m * q0;
      MulAtLeast(m, q - q0);
    } else if q < q0 {
      assert m * (q0 - q) == m * q0 - m * q;
      MulAtLeast(m, q0 - q);
    }
  }

  /** Truncated and Euclidean remainders agree on whether `m` divides `a`. */
  lemma GoRemZero(a: int, m: int)
    requires m > 0
    ensures GoRem(a, m) == 0 <==> a % m == 0
  {
    if a < 0 {
      if (-a) % m == 0 {
        var q := (-a) / m;
        ModUnique(a, m, -q, 0);
      }
      if a % m == 0 {
        var q := a / m;
        ModUnique(-a, m, -q, 0);
      }
    }
  }

  /** The first stage's test (notNegPipe): forward non-negative values. */
  predicate NotNeg(d: int) {
    d >= 0
  }

  /** The second stage's test (divThreePipe): forward non-zero multiples of
      three, with Go's remainder. */
  predicate DivThree(d: int) {
    GoRem(d, 3) == 0 && d != 0
  }

  /** The second stage forwards exactly the non-zero values `3 * k`. */
  lemma DivThreeMeaning(d: int)
    ensures DivThree(d) <==> d != 0 && d == 3 * (d / 3)
  {
  }

  /** A stage that forwards the values satisfying `keep` and silently drops
      the others, one at a time and in the order received. */
  function Filter(keep: int -> bool, xs: seq<int>): (ys: seq<int>)
    ensures |ys| <= |xs|
    ensures forall i :: 0 <= i < |ys| ==> keep(ys[i])
    decreases |xs|
  {
    if xs == [] then []
    else (if keep(xs[0]) then [xs[0]] else []) + Filter(keep, xs[1..])
  }

  /** Filtering a concatenation filters each part, preserving order. */
  lemma {:induction false} FilterAppend(keep: int -> bool, xs: seq<int>, ys: seq<int>)
    ensures Filter(keep, xs + ys) == Filter(keep, xs) + Filter(keep, ys)
    decreases |xs|
  {
    if xs == [] {
      assert xs + ys == ys;
    } else {
      assert (xs + ys)[1..] == xs[1..] + ys;
      FilterAppend(keep, xs[1..], ys);
    }
  }

  /** A stage forwards everything it receives exactly when every value
      passes its test. */
  lemma {:induction false} FilterKeepsAll(keep: int -> bool, xs: seq<int>)
    ensures Filter(keep, xs) == xs <==> forall i :: 0 <= i < |xs| ==> keep(xs[i])
    decreases |xs|
  {
    if xs != [] {
      FilterKeepsAll(keep, xs[1..]);
      if !keep(xs[0]) {
        assert |Filter(keep, xs)| < |xs|;
      }
    }
  }

  /** A value is forwarded exactly when it was received and passes the
      test. */
  lemma {:induction false} FilterMembers(keep: int -> bool, xs: seq<int>, x: int)
    ensures x in Filter(keep, xs) <==> x in xs && keep(x)
    decreases |xs|
  {
    if xs != [] {
      FilterMembers(keep, xs[1..], x);
      assert x in xs <==> x == xs[0] || x in xs[1..];
    }
  }

  /** Two stages in a row act as one stage testing both predicates. */
  lemma {:induction false} FilterFilter(a: int -> bool, b: int -> bool, both: int -> bool, xs: seq<int>)
    requires forall x :: both(x) == (a(x) && b(x))
    ensures Filter(b, Filter(a, xs)) == Filter(both, xs)
    decreases |xs|
  {
    if xs != [] {
      FilterFilter(a, b, both, xs[1..]);
      var head := if a(xs[0]) then [xs[0]] else [];
      FilterAppend(b, head, Filter(a, xs[1..]));
      if a(xs[0]) {
        assert head[1..] == [];
      }
    }
  }

  /** The values that reach buff.Push, in input order. */
  function Delivered(xs: seq<int>): (ys: seq<int>) {
    Filter(DivThree, Filter(NotNeg, xs))
  }

  /** The chain delivers exactly the positive multiples of three. */
  lemma DeliveredPositiveMultiples(xs: seq<int>)
    ensures Delivered(xs) == Filter(d => d > 0 && d % 3 == 0, xs)
  {
    forall d: int
      ensures (NotNeg(d) && DivThree(d)) == (d > 0 && d % 3 == 0)
    {
      GoRemZero(d, 3);
    }
    FilterFilter(NotNeg, DivThree, d => d > 0 && d % 3 == 0, xs);
  }

  /** What the pipeline sees from outside: a value on the input channel, or
      a tick of the consumer's ticker. */
  datatype Event = Submit(v: int) | Tick

  /** The state after a run: the snapshots printed so far and the buffer. */
  datatype Outcome = Outcome(printed: seq<seq<int>>, buff: RingBuff)

  /** One tick of the consumer: drain the buffer; report the snapshot only
      when it is non-empty. */
  function Flush(r: RingBuff): (o: Outcome)
    requires Valid(r)
    ensures Valid(o.buff) && o.buff.size == r.size && Contents(o.buff) == []
    ensures |o.printed| <= 1
    ensures o.printed == [] <==> Contents(r) == []
    ensures o.printed != [] ==> o.printed[0] == Contents(r)
  {
    var d := Get(r);
    if |d.values| > 0 then Outcome([d.values], d.rest) else Outcome([], d.rest)
  }

  /** The whole pipeline on a sequence of events, each value travelling all
      the way through before the next event. */
  function Run(r: RingBuff, events: seq<Event>): (o: Outcome)
    requires Valid(r) && r.size >= 1
    ensures Valid(o.buff) && o.buff.size == r.size
    ensures forall i :: 0 <= i < |o.printed| ==> 0 < |o.printed[i]| <= r.size
    decreases |events|
  {
    if events == [] then Outcome([], r)
    else match events[0]
      case Submit(v) =>
        var next := if NotNeg(v) && DivThree(v) then Push(r, v) else r;
        Run(next, events[1..])
      case Tick =>
        var f := Flush(r);
        var o := Run(f.buff, events[1..]);
        Outcome(f.printed + o.printed, o.buff)
  }

  /** The input lines as submissions. */
  function Submits(xs: seq<int>): (es: seq<Event>)
    ensures |es| == |xs|
    ensures forall i :: 0 <= i < |xs| ==> es[i] == Submit(xs[i])
  {
    seq(|xs|, i requires 0 <= i < |xs| => Submit(xs[i]))
  }

  /** Submitting `xs` prints nothing and leaves the buffer as if the
      delivered values had been pushed one by one. */
  lemma {:induction false} RunSubmits(r: RingBuff, xs: seq<int>, rest: seq<Event>)
    requires Valid(r) && r.size >= 1
    ensures Run(r, Submits(xs) + rest) == Run(PushAll(r, Delivered(xs)), rest)
    decreases |xs|
  {
    if xs == [] {
      assert Submits(xs) + rest == rest;
      assert Delivered(xs) == [];
    } else {
      var x := xs[0];
      assert (Submits(xs) + rest)[0] == Submit(x);
      assert (Submits(xs) + rest)[1..] == Submits(xs[1..]) + rest;
      var next := if NotNeg(x) && DivThree(x) then Push(r, x) else r;
      RunSubmits(next, xs[1..], rest);
      assert xs == [x] + xs[1..];
      FilterAppend(NotNeg, [x], xs[1..]);
      FilterAppend(DivThree, Filter(NotNeg, [x]), Filter(NotNeg, xs[1..]));
      if NotNeg(x) && DivThree(x) {
        assert Delivered(xs) == [x] + Delivered(xs[1..]);
        assert PushAll(r, Delivered(xs)) == PushAll(next, Delivered(xs[1..])) by {
          assert Delivered(xs)[1..] == Delivered(xs[1..]);
        }
      } else {
        assert Delivered(xs) == Delivered(xs[1..]);
      }
    }
  }

  /** Submitting `xs` to a new pipeline of capacity `n` and letting the
      ticker fire once prints the last `n` delivered values, or nothing when
      no value got through. */
  lemma SubmitThenTick(n: nat, xs: seq<int>)
    requires n >= 1
    ensures Run(NewRingBuff(n), Submits(xs) + [Tick]).printed
         == if Delivered(xs) == [] then [] else [Last(Delivered(xs), n)]
  {
    RunSubmits(NewRingBuff(n), xs, [Tick]);
    PushAllFromEmpty(n, Delivered(xs));
    var r := PushAll(NewRingBuff(n), Delivered(xs));
    assert Run(r, [Tick]).printed == Flush(r).printed + [];
  }

  /** A tick right after a tick prints nothing. */
  lemma TickTick(r: RingBuff, rest: seq<Event>)
    requires Valid(r) && r.size >= 1
    ensures Run(r, [Tick, Tick] + rest).printed == Run(r, [Tick] + rest).printed
  {
    // Not needed on every solver seed, but without these steps the proof
    // runs out of resource on some.
    assert ([Tick, Tick] + rest)[1..] == [Tick] + rest;
    var f := Flush(r);
    assert ([Tick] + rest)[1..] == rest;
    assert Run(f.buff, [Tick] + rest).printed == Run(f.buff, rest).printed;
  }

  /** No flush when nothing reached the buffer between two ticks: values
      submitted in between that both filters drop leave the second tick
      silent. */
  lemma {:induction false} QuietTick(r: RingBuff, xs: seq<int>, rest: seq<Event>)
    requires Valid(r) && r.size >= 1 && Delivered(xs) == []
    ensures Run(r, [Tick] + Submits(xs) + [Tick] + rest).printed
         == Run(r, [Tick] + rest).printed
  {
    var f := Flush(r);
    assert ([Tick] + Submits(xs) + [Tick] + rest)[1..] == Submits(xs) + ([Tick] + rest);
    assert ([Tick] + rest)[1..] == rest;
    RunSubmits(f.buff, xs, [Tick] + rest);
    assert PushAll(f.buff, Delivered(xs)) == f.buff;
    var g := Flush(f.buff);
    assert g.printed == [] && g.buff == f.buff;
    assert Run(f.buff, [Tick] + rest).printed == Run(f.buff, rest).printed;
  }

  /** Capacity 5, input 3, -3, 6, 9, 12, 15: one tick prints 3, 6, 9, 12, 15. */
  lemma ScenarioFive()
    ensures Run(NewRingBuff(5), Submits([3, -3, 6, 9, 12, 15]) + [Tick]).printed
         == [[3, 6, 9, 12, 15]]
  {
    var xs := [3, -3, 6, 9, 12, 15];
    SubmitThenTick(5, xs);
    DeliveredPositiveMultiples(xs);
    assert Delivered(xs) == [3, 6, 9, 12, 15];
    assert Last([3, 6, 9, 12, 15], 5) == [3, 6, 9, 12, 15];
  }

  /** Capacity 3, input 3, 6, 9, 12, 15, 18: one tick prints 12, 15, 18. */
  lemma ScenarioThree()
    ensures Run(NewRingBuff(3), Submits([3, 6, 9, 12, 15, 18]) + [Tick]).printed
         == [[12, 15, 18]]
  {
    var xs := [3, 6, 9, 12, 15, 18];
    SubmitThenTick(3, xs);
    DeliveredPositiveMultiples(xs);
    assert Delivered(xs) == xs;
    assert Last(xs, 3) == [12, 15, 18];
  }
}
