/**
 * The ring buffer behind the producer/consumer demo (bounded_buffer.c).
 *
 * A buffer of `length` records holds `count` of them, starting at slot
 * `first` and wrapping around the end of the array.  The semaphores that make
 * a producer wait for space and a consumer wait for an element become the
 * preconditions `count < length` and `count > 0`.
 */
module BoundedBuffers {

  /** One record: the producer's id, argument and result. */
  datatype BufferElem = BufferElem(id: int, arg: int, val: int)

  /** `EMPTY` in every field marks an unused slot. */
  const Empty: BufferElem := BufferElem(-1, -1, -1)

  class BoundedBuffer {
    const length: nat
    var first: int
    var count: int
    const buffer: array<BufferElem>

    /** The records in the buffer, oldest first. */
    ghost var Contents: seq<BufferElem>

    /** The position in the window, counted from `first`, of slot j. */
    function Offset(j: int): int
      reads this
    {
      OffsetFrom(first, j)
    }

    function OffsetFrom(f: int, j: int): int
    {
      if j >= f then j - f else j - f + length
    }

    /**
     * The window [first, first + count) taken modulo `length` holds Contents
     * in order, and every other slot holds Empty.
     */
    ghost predicate Valid()
      reads this, buffer
    {
      && buffer.Length == length
      && 0 <= first && (first < length || first == 0)
      && 0 <= count <= length
      && |Contents| == count
      && forall j :: 0 <= j < length ==>
           if Offset(j) < count then buffer[j] == Contents[Offset(j)] else buffer[j] == Empty
    }

    /** `new_bounded_buffer`: every slot EMPTY, `first` and `count` zero. */
    constructor (length: nat)
      ensures Valid() && fresh(buffer)
      ensures this.length == length && first == 0 && count == 0
      ensures Contents == []
      ensures forall j :: 0 <= j < length ==> buffer[j] == Empty
    {
      this.length := length;
      first, count := 0, 0;
      Contents := [];
      var a := new BufferElem[length];
      var i := 0;
      while i != length
        invariant 0 <= i <= length
        invariant forall j :: 0 <= j < i ==> a[j] == Empty
      {
        a[i] := Empty;
        i := i + 1;
      }
      buffer := a;
    }

    /** `bounded_buffer_add`: the element goes in after the last one. */
    method Add(elem: BufferElem)
      requires Valid() && count < length
      modifies this, buffer
      ensures Valid()
      ensures Contents == old(Contents) + [elem]
      ensures first == old(first) && count == old(count) + 1
    {
      var idx := (first + count) % length;
      WrapAround(first + count, length);
      assert Offset(idx) == count;
      ghost var oldBuffer := buffer[..];
      buffer[idx] := elem;
      count := count + 1;
      Contents := Contents + [elem];
      forall j | 0 <= j < length && j != idx
        ensures buffer[j] == oldBuffer[j] && Offset(j) != count - 1
      {
      }
    }

    /** `bounded_buffer_take`: the oldest element comes out and its slot is cleared. */
    method Take() returns (elem: BufferElem)
      requires Valid() && count > 0
      modifies this, buffer
      ensures Valid()
      ensures elem == old(Contents)[0] && Contents == old(Contents)[1..]
      ensures count == old(count) - 1 && first == (old(first) + 1) % length
    {
      elem := buffer[first];
      assert Offset(first) == 0;
      ghost var oldBuffer := buffer[..];
      ghost var oldFirst := first;
      buffer[first] := Empty;
      count := count - 1;
      WrapAround(first + 1, length);
      first := (first + 1) % length;
      Contents := Contents[1..];
      forall j | 0 <= j < length
        ensures Offset(j) == if j == oldFirst then length - 1 else OffsetFrom(oldFirst, j) - 1
      {
      }
      forall j | 0 <= j < length && j != oldFirst
        ensures buffer[j] == oldBuffer[j]
      {
      }
    }
  }

  /** Below 2L, taking the remainder by L subtracts L at most once. */
  lemma WrapAround(x: int, length: int)
    requires 0 <= x < 2 * length
    ensures x % length == if x < length then x else x - length
  {
    if x >= length {
      assert x == length + (x - length);
    }
  }

  /** Elements come out in the order they went in: a round of adds then takes returns them unchanged. */
  method AddThenTake(b: BoundedBuffer, xs: seq<BufferElem>) returns (ys: seq<BufferElem>)
    requires b.Valid() && b.count == 0 && |xs| <= b.length
    modifies b, b.buffer
    ensures b.Valid() && b.count == 0
    ensures ys == xs
  {
    var i := 0;
    while i < |xs|
      invariant 0 <= i <= |xs|
      invariant b.Valid() && b.Contents == xs[..i]
    {
      b.Add(xs[i]);
      i := i + 1;
    }
    ys := [];
    while |ys| < |xs|
      invariant b.Valid() && xs == ys + b.Contents
      decreases |xs| - |ys|
    {
      var e := b.Take();
      ys := ys + [e];
    }
  }
}
