/** The ring buffer of main.go (RingBuff, NewRingBuff, Push, Get) as a value:
    each operation takes the buffer's state and returns the next one. The
    mutex is left out, so Push and Get are atomic steps. */
module Ring {
  import opened Window

  /** The RingBuff struct: `data` is the backing slice, `p` the index of the
      last occupied slot (-1 when the buffer is empty), `size` the capacity. */
  datatype RingBuff = RingBuff(data: seq<int>, p: int, size: int)

  /** What Get hands back: the snapshot (empty for Go's nil) and the buffer
      left behind. */
  datatype Drained = Drained(values: seq<int>, rest: RingBuff)

  /** The representation invariant: the slice spans the capacity and `p`
      points at an existing slot or is -1. */
  predicate Valid(r: RingBuff) {
    |r.data| == r.size && -1 <= r.p < r.size
  }

  /** The values the buffer holds, oldest first. */
  function Contents(r: RingBuff): (c: seq<int>)
    requires Valid(r)
    ensures |c| == r.p + 1 <= r.size
  {
    r.data[..r.p + 1]
  }

  /** True when the next Push evicts the oldest value. */
  predicate IsFull(r: RingBuff)
    requires Valid(r)
  {
    r.p == r.size - 1
  }

  /** NewRingBuff(n): a zeroed slice of length n and no occupied slot. A
      negative n makes Go's `make` panic, hence the `nat`. */
  function NewRingBuff(n: nat): (r: RingBuff)
    ensures Valid(r) && r.size == n && |r.data| == n
    ensures r.p == -1 && Contents(r) == []
    ensures forall i :: 0 <= i < n ==> r.data[i] == 0
  {
    RingBuff(seq(n, _ => 0), -1, n)
  }

  /** The shift loop of Push from iteration `i` on: every step copies slot `i`
      into slot `i - 1`. Started at 1 it moves everything one slot towards the
      front and leaves the last slot as it was. */
  function ShiftFrom(data: seq<int>, i: nat): (d: seq<int>)
    requires 1 <= i <= |data|
    ensures d == data[..i - 1] + data[i..] + [data[|data| - 1]]
    decreases |data| - i
  {
    if i < |data| then
      var next := data[i - 1 := data[i]];
      assert next[..i] == data[..i - 1] + [data[i]];
      assert next[i..] == data[i..];
      ShiftFrom(next, i + 1)
    else
      data
  }

  /** Push(el): when full, shift left (dropping data[0]) and step `p` back;
      then advance `p` and store `el` there. */
  function Push(r: RingBuff, el: int): (r': RingBuff)
    requires Valid(r) && r.size >= 1
    ensures Valid(r') && r'.size == r.size && r'.p >= 0
    ensures !IsFull(r) ==> r'.p == r.p + 1 && r'.data[..r.p + 1] == r.data[..r.p + 1]
    ensures !IsFull(r) ==> Contents(r') == Contents(r) + [el]
    ensures IsFull(r) ==> r'.p == r.p && Contents(r') == Contents(r)[1..] + [el]
  {
    var data := if r.p == r.size - 1 then ShiftFrom(r.data, 1) else r.data;
    var p := if r.p == r.size - 1 then r.p - 1 else r.p;
    RingBuff(data[p + 1 := el], p + 1, r.size)
  }

  /** Get: on an empty buffer returns nothing (Go's nil) and leaves the buffer
      alone; otherwise returns a copy of the occupied slots and marks the
      buffer empty. The slice itself is not cleared. */
  function Get(r: RingBuff): (d: Drained)
    requires Valid(r)
    ensures Valid(d.rest) && d.rest.size == r.size && d.rest.data == r.data
    ensures d.rest.p == -1 && Contents(d.rest) == []
    ensures d.values == Contents(r)
    ensures |d.values| > 0 <==> r.p >= 0
    ensures r.p < 0 ==> d.rest == r
  {
    if r.p < 0 then Drained([], r)
    else Drained(r.data[..r.p + 1], r.(p := -1))
  }

  /** The buffering stage: push every value, in order. */
  function PushAll(r: RingBuff, xs: seq<int>): (r': RingBuff)
    requires Valid(r) && r.size >= 1
    ensures Valid(r') && r'.size == r.size
    ensures |xs| > 0 ==> r'.p >= 0
    decreases |xs|
  {
    if xs == [] then r else PushAll(Push(r, xs[0]), xs[1..])
  }

  /** One Push is a step of the sliding window: the contents become the last
      `size` values of the old contents followed by `el`. */
  lemma PushWindow(r: RingBuff, el: int)
    requires Valid(r) && r.size >= 1
    ensures Contents(Push(r, el)) == Last(Contents(r) + [el], r.size)
  {
    // Dafny often finds this unaided; the hint keeps it within resources on
    // every solver seed.
    if IsFull(r) {
      LastFullAppend(Contents(r), el, r.size);
    }
  }

  /** Pushing a sequence keeps the last `size` values of the old contents
      followed by the sequence. */
  lemma {:induction false} PushAllWindow(r: RingBuff, xs: seq<int>)
    requires Valid(r) && r.size >= 1
    ensures Contents(PushAll(r, xs)) == Last(Contents(r) + xs, r.size)
    decreases |xs|
  {
    if xs == [] {
      assert Contents(r) + xs == Contents(r);
    } else {
      var r1 := Push(r, xs[0]);
      assert PushAll(r, xs) == PushAll(r1, xs[1..]);
      PushWindow(r, xs[0]);
      PushAllWindow(r1, xs[1..]);
      WindowStep(Contents(r), xs, r.size);
    }
  }

  /** After pushing `xs` into a new buffer it holds the last min(|xs|, n)
      values of `xs`, in order. */
  lemma PushAllFromEmpty(n: nat, xs: seq<int>)
    requires n >= 1
    ensures Contents(PushAll(NewRingBuff(n), xs)) == Last(xs, n)
    ensures |Contents(PushAll(NewRingBuff(n), xs))| == if |xs| <= n then |xs| else n
  {
    PushAllWindow(NewRingBuff(n), xs);
    assert [] + xs == xs;
  }

  /** Draining a new buffer after pushing more than `n` values yields the last
      `n` of them, in their original relative order. */
  lemma EvictionOrder(n: nat, xs: seq<int>)
    requires 1 <= n < |xs|
    ensures Get(PushAll(NewRingBuff(n), xs)).values == xs[|xs| - n..]
  {
    PushAllFromEmpty(n, xs);
  }

  /** Get empties the buffer: a second Get with no Push in between returns
      nothing and changes nothing. */
  lemma GetTwice(r: RingBuff)
    requires Valid(r)
    ensures Get(Get(r).rest).values == []
    ensures Get(Get(r).rest).rest == Get(r).rest
  {
  }

  /** After a drain the buffer behaves like a new one of the same size: the
      next Push leaves exactly that value. */
  lemma PushAfterGet(r: RingBuff, el: int)
    requires Valid(r) && r.size >= 1
    ensures Contents(Push(Get(r).rest, el)) == [el]
  {
  }
}
