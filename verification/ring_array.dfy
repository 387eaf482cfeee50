/** The same ring buffer in place, over a fixed array as the Go struct keeps it,
    with the shift and copy loops of main.go. Each method is proved to do
    exactly what the corresponding function of module Ring says. */
module RingArray {
  import Ring

  class RingBuffer {
    var data: array<int>
    var p: int
    const size: int

    /** The state as a Ring.RingBuff value. */
    ghost function Model(): Ring.RingBuff
      reads this, data
    {
      Ring.RingBuff(data[..], p, size)
    }

    ghost predicate Valid()
      reads this, data
    {
      Ring.Valid(Model())
    }

    /** NewRingBuff(n). */
    constructor (n: nat)
      ensures Valid() && Model() == Ring.NewRingBuff(n)
      ensures fresh(data)
    {
      data := new int[n](_ => 0);
      p := -1;
      size := n;
    }

    /** The shift loop of Push: slot i moves to slot i - 1, for i from 1. */
    method ShiftLeft()
      requires Valid() && size >= 1
      modifies data
      ensures data[..] == Ring.ShiftFrom(old(data[..]), 1)
    {
      ghost var before := data[..];
      var i := 1;
      while i < size
        invariant 1 <= i <= size
        invariant Ring.ShiftFrom(data[..], i) == Ring.ShiftFrom(before, 1)
      {
        ghost var cur := data[..];
        data[i - 1] := data[i];
        assert data[..] == cur[i - 1 := cur[i]];
        i := i + 1;
      }
    }

    /** Push(el), shifting in place when full. */
    method Push(el: int)
      requires Valid() && size >= 1
      modifies this, data
      ensures data == old(data) && Valid()
      ensures Model() == Ring.Push(old(Model()), el)
    {
      ghost var before := data[..];
      ghost var wasFull := p == size - 1;
      if p == size - 1 {
        ShiftLeft();
        p := p - 1;
      }
      ghost var shifted := data[..];
      assert shifted == if wasFull then Ring.ShiftFrom(before, 1) else before;
      p := p + 1;
      data[p] := el;
      assert data[..] == shifted[p := el];
    }

    /** Get: nothing when empty, else a copy of the occupied slots. */
    method Get() returns (res: seq<int>)
      requires Valid()
      modifies this
      ensures data == old(data) && Valid()
      ensures res == Ring.Get(old(Model())).values
      ensures Model() == Ring.Get(old(Model())).rest
    {
      if p < 0 {
        res := [];
        return;
      }
      var copy := new int[p + 1];
      var i := 0;
      while i <= p
        invariant 0 <= i <= p + 1
        invariant forall k :: 0 <= k < i ==> copy[k] == data[k]
        modifies copy
      {
        copy[i] := data[i];
        i := i + 1;
      }
      res := copy[..];
      p := -1;
    }
  }
}
