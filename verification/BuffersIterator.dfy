/** The random access iterator over the bytes of a buffer sequence
    (include/asio/buffers_iterator.hpp). It keeps a buffer index with an offset, and a flat
    position beside them; every operation has to keep the three in step across empty buffers. */
module BuffersIterator {
  import opened Basics
  import opened Flat
  import opened Buffers

  // ---------- places ----------

  /** `current_` and `current_buffer_position_` */
  datatype Place = Place(current: nat, offset: nat)

  /** `pl` is where an iterator at flat position `p` has to be: at the end with offset 0, or
      strictly inside a non-empty buffer. */
  predicate IsPlace(sizes: seq<nat>, pl: Place, p: nat) {
    && pl.current <= |sizes|
    && (if pl.current == |sizes| then pl.offset == 0 else pl.offset < sizes[pl.current])
    && p == Before(sizes, pl.current) + pl.offset
  }

  predicate Earlier(a: Place, b: Place) {
    a.current < b.current || (a.current == b.current && a.offset < b.offset)
  }

  /** Flat positions order and identify places: there is one place to a position. */
  lemma PlaceOrder(sizes: seq<nat>, a: Place, p: nat, b: Place, q: nat)
    requires IsPlace(sizes, a, p) && IsPlace(sizes, b, q)
    ensures p < q <==> Earlier(a, b)
    ensures p == q <==> a == b
  {
    if a.current < b.current {
      BeforeMonotone(sizes, a.current + 1, b.current);
    } else if b.current < a.current {
      BeforeMonotone(sizes, b.current + 1, a.current);
    }
  }

  lemma EndPlace(sizes: seq<nat>, pl: Place, p: nat)
    requires IsPlace(sizes, pl, p)
    ensures p <= Before(sizes, |sizes|)
    ensures pl.current == |sizes| <==> p == Before(sizes, |sizes|)
  {
    PlaceOrder(sizes, pl, p, Place(|sizes|, 0), Before(sizes, |sizes|));
  }

  /** The byte at the place of position `p` is byte `p` of the flat view. */
  lemma PlaceReadsFlatView(bufs: seq<Buffer>, m: seq<Byte>, pl: Place, p: nat)
    requires ValidAll(bufs, m) && IsPlace(SizesOf(bufs), pl, p) && pl.current < |bufs|
    ensures p < |FlatView(bufs, m)|
    ensures m[bufs[pl.current].start + pl.offset] == FlatView(bufs, m)[p]
  {
    var a := bufs[pl.current].start + pl.offset;
    ReadFlatView(bufs, pl.current, pl.offset, 1, m);
    assert m[a] == m[a..a + 1][0] == FlatView(bufs, m)[p..p + 1][0];
  }

  // ---------- one step ----------

  /** The first non-empty buffer from `i` on, or the end. */
  function FirstNonEmpty(sizes: seq<nat>, i: nat): nat
    requires i <= |sizes|
    decreases |sizes| - i
  {
    if i == |sizes| || sizes[i] > 0 then i else FirstNonEmpty(sizes, i + 1)
  }

  /** The last non-empty buffer before `i`, or `i` if there is none. */
  function LastNonEmpty(sizes: seq<nat>, i: nat, j: nat): (k: nat)
    requires j <= i <= |sizes|
    ensures k == i || (k < j && sizes[k] > 0)
    decreases j
  {
    if j == 0 then i else if sizes[j - 1] > 0 then j - 1 else LastNonEmpty(sizes, i, j - 1)
  }

  function Next(sizes: seq<nat>, pl: Place): Place
    requires pl.current < |sizes|
  {
    if pl.offset + 1 != sizes[pl.current]
    then Place(pl.current, pl.offset + 1)
    else Place(FirstNonEmpty(sizes, pl.current + 1), 0)
  }

  function Previous(sizes: seq<nat>, pl: Place): Place
    requires pl.current <= |sizes|
  {
    if pl.offset != 0
    then Place(pl.current, pl.offset - 1)
    else
      var i := LastNonEmpty(sizes, pl.current, pl.current);
      if i == pl.current then pl else Place(i, sizes[i] - 1)
  }

  lemma {:induction false} FirstNonEmptyIsPlace(sizes: seq<nat>, i: nat)
    requires i <= |sizes|
    ensures IsPlace(sizes, Place(FirstNonEmpty(sizes, i), 0), Before(sizes, i))
    decreases |sizes| - i
  {
    if i < |sizes| && sizes[i] == 0 {
      FirstNonEmptyIsPlace(sizes, i + 1);
    }
  }

  lemma {:induction false} LastNonEmptyIsPlace(sizes: seq<nat>, i: nat, j: nat)
    requires j <= i <= |sizes| && Before(sizes, j) > 0
    ensures var k := LastNonEmpty(sizes, i, j);
            k < j && sizes[k] > 0 && IsPlace(sizes, Place(k, sizes[k] - 1), Before(sizes, j) - 1)
  {
    if sizes[j - 1] == 0 {
      LastNonEmptyIsPlace(sizes, i, j - 1);
    }
  }

  lemma NextIsPlace(sizes: seq<nat>, pl: Place, p: nat)
    requires IsPlace(sizes, pl, p) && pl.current < |sizes|
    ensures IsPlace(sizes, Next(sizes, pl), p + 1)
  {
    FirstNonEmptyIsPlace(sizes, pl.current + 1);
  }

  lemma PreviousIsPlace(sizes: seq<nat>, pl: Place, p: nat)
    requires IsPlace(sizes, pl, p) && p > 0
    ensures IsPlace(sizes, Previous(sizes, pl), p - 1)
  {
    if pl.offset == 0 {
      LastNonEmptyIsPlace(sizes, pl.current, pl.current);
    }
  }

  // ---------- many steps ----------

  /** `n` increments, or `-n` decrements. */
  function Steps(sizes: seq<nat>, pl: Place, p: nat, n: int): Place
    requires IsPlace(sizes, pl, p) && 0 <= p + n <= Before(sizes, |sizes|)
    decreases if n < 0 then -n else n
  {
    if n == 0 then pl
    else if n > 0 then
      EndPlace(sizes, pl, p);
      NextIsPlace(sizes, pl, p);
      Steps(sizes, Next(sizes, pl), p + 1, n - 1)
    else
      PreviousIsPlace(sizes, pl, p);
      Steps(sizes, Previous(sizes, pl), p - 1, n + 1)
  }

  lemma {:induction false} StepsIsPlace(sizes: seq<nat>, pl: Place, p: nat, n: int)
    requires IsPlace(sizes, pl, p) && 0 <= p + n <= Before(sizes, |sizes|)
    ensures IsPlace(sizes, Steps(sizes, pl, p, n), p + n)
    decreases if n < 0 then -n else n
  {
    if n > 0 {
      EndPlace(sizes, pl, p);
      NextIsPlace(sizes, pl, p);
      StepsIsPlace(sizes, Next(sizes, pl), p + 1, n - 1);
    } else if n < 0 {
      PreviousIsPlace(sizes, pl, p);
      StepsIsPlace(sizes, Previous(sizes, pl), p - 1, n + 1);
    }
  }

  /** `(it + m) + n` is `it + (m + n)`, whatever the signs. */
  lemma StepsCompose(sizes: seq<nat>, pl: Place, p: nat, m: int, n: int)
    requires IsPlace(sizes, pl, p)
    requires 0 <= p + m <= Before(sizes, |sizes|) && 0 <= p + m + n <= Before(sizes, |sizes|)
    ensures IsPlace(sizes, Steps(sizes, pl, p, m), p + m)
    ensures Steps(sizes, Steps(sizes, pl, p, m), p + m, n) == Steps(sizes, pl, p, m + n)
  {
    StepsIsPlace(sizes, pl, p, m);
    StepsIsPlace(sizes, Steps(sizes, pl, p, m), p + m, n);
    StepsIsPlace(sizes, pl, p, m + n);
    PlaceOrder(sizes, Steps(sizes, Steps(sizes, pl, p, m), p + m, n), p + m + n,
               Steps(sizes, pl, p, m + n), p + m + n);
  }

  /** `(it + n) - n` is `it`: decrements undo increments and the other way round. */
  lemma StepsReturn(sizes: seq<nat>, pl: Place, p: nat, n: int)
    requires IsPlace(sizes, pl, p) && 0 <= p + n <= Before(sizes, |sizes|)
    ensures IsPlace(sizes, Steps(sizes, pl, p, n), p + n) && p <= Before(sizes, |sizes|)
    ensures Steps(sizes, Steps(sizes, pl, p, n), p + n, -n) == pl
  {
    EndPlace(sizes, pl, p);
    StepsCompose(sizes, pl, p, n, -n);
  }

  // ---------- the iterator ----------

  class Iterator {
    const buffers: seq<Buffer>
    var current: nat
    var currentBuffer: Buffer
    var currentBufferPosition: nat
    var position: nat

    ghost function At(): Place
      reads this
    {
      Place(current, currentBufferPosition)
    }

    ghost function Sizes(): seq<nat> {
      SizesOf(buffers)
    }

    ghost predicate Valid()
      reads this
    {
      && IsPlace(Sizes(), At(), position)
      && (current < |buffers| ==> currentBuffer == buffers[current])
    }

    constructor Begin(buffers: seq<Buffer>)
      ensures Valid() && this.buffers == buffers && position == 0
    {
      this.buffers := buffers;
      current, currentBuffer, currentBufferPosition, position := 0, EMPTY, 0, 0;
      new;
      while current != |buffers|
        invariant current <= |buffers| && this.buffers == buffers
        invariant position == currentBufferPosition == 0 == Before(Sizes(), current)
        decreases |buffers| - current
      {
        currentBuffer := buffers[current];
        if currentBuffer.size > 0 {
          break;
        }
        current := current + 1;
      }
    }

    constructor End(buffers: seq<Buffer>)
      ensures Valid() && this.buffers == buffers && position == Total(buffers)
    {
      this.buffers := buffers;
      current, currentBuffer, currentBufferPosition, position := 0, EMPTY, 0, 0;
      new;
      while current != |buffers|
        invariant current <= |buffers| && this.buffers == buffers
        invariant currentBufferPosition == 0 && position == Before(Sizes(), current)
        decreases |buffers| - current
      {
        position := position + buffers[current].size;
        current := current + 1;
      }
    }

    constructor Copy(other: Iterator)
      requires other.Valid()
      ensures Valid() && buffers == other.buffers && position == other.position
      ensures At() == other.At() && currentBuffer == other.currentBuffer
    {
      buffers, current, currentBuffer := other.buffers, other.current, other.currentBuffer;
      currentBufferPosition, position := other.currentBufferPosition, other.position;
    }

    /** `operator*` */
    method Dereference(mem: array<Byte>) returns (b: Byte)
      requires Valid() && ValidAll(buffers, mem[..]) && position < Total(buffers)
      ensures b == FlatView(buffers, mem[..])[position]
    {
      EndPlace(Sizes(), At(), position);
      PlaceReadsFlatView(buffers, mem[..], At(), position);
      b := mem[currentBuffer.start + currentBufferPosition];
    }

    /** `operator==` */
    method Equal(other: Iterator) returns (r: bool)
      requires Valid() && other.Valid() && buffers == other.buffers
      ensures r <==> At() == other.At()
    {
      PlaceOrder(Sizes(), At(), position, other.At(), other.position);
      r := position == other.position;
    }

    /** `operator<` compares `distance_to` with 0. */
    method Less(other: Iterator) returns (r: bool)
      requires Valid() && other.Valid() && buffers == other.buffers
      ensures r <==> Earlier(At(), other.At())
    {
      PlaceOrder(Sizes(), At(), position, other.At(), other.position);
      var distance := DistanceTo(other);
      r := distance > 0;
    }

    /** The number of steps that leads from here to there. */
    method DistanceTo(other: Iterator) returns (d: int)
      requires Valid() && other.Valid() && buffers == other.buffers
      ensures d == other.position - position
      ensures 0 <= position + d <= Before(Sizes(), |Sizes()|)
      ensures Steps(Sizes(), At(), position, d) == other.At()
    {
      d := other.position - position;
      EndPlace(Sizes(), other.At(), other.position);
      StepsIsPlace(Sizes(), At(), position, d);
      PlaceOrder(Sizes(), other.At(), other.position, Steps(Sizes(), At(), position, d), other.position);
    }

    /** `operator++` */
    method Increment()
      requires Valid() && position < Total(buffers)
      modifies this
      ensures Valid() && position == old(position) + 1
      ensures old(current) < |buffers| && At() == Next(Sizes(), old(At()))
    {
      EndPlace(Sizes(), At(), position);
      assert current != |buffers|;
      ghost var start := current;
      position := position + 1;
      currentBufferPosition := currentBufferPosition + 1;
      if currentBufferPosition != currentBuffer.size {
        return;
      }
      current := current + 1;
      currentBufferPosition := 0;
      while current != |buffers|
        invariant start < current <= |buffers| && currentBufferPosition == 0
        invariant position == old(position) + 1 == Before(Sizes(), current)
        invariant FirstNonEmpty(Sizes(), current) == FirstNonEmpty(Sizes(), start + 1)
        decreases |buffers| - current
      {
        currentBuffer := buffers[current];
        if currentBuffer.size > 0 {
          return;
        }
        current := current + 1;
      }
    }

    /** `operator--` */
    method Decrement()
      requires Valid() && position > 0
      modifies this
      ensures Valid() && position == old(position) - 1
      ensures At() == Previous(Sizes(), old(At()))
    {
      PreviousIsPlace(Sizes(), At(), position);
      position := position - 1;
      if currentBufferPosition != 0 {
        currentBufferPosition := currentBufferPosition - 1;
        return;
      }
      LastNonEmptyIsPlace(Sizes(), current, current);
      var iter := current;
      while iter != 0
        invariant 0 <= iter <= current && Before(Sizes(), iter) == position + 1
        invariant position == old(position) - 1 && At() == old(At())
        invariant LastNonEmpty(Sizes(), current, iter) == LastNonEmpty(Sizes(), current, current)
      {
        iter := iter - 1;
        var buffer := buffers[iter];
        if buffer.size > 0 {
          current := iter;
          currentBuffer := buffer;
          currentBufferPosition := buffer.size - 1;
          return;
        }
      }
    }

    /** `operator+=`, for a distance that stays within the sequence. */
    method Advance(distance: int)
      requires Valid() && 0 <= position + distance <= Total(buffers)
      modifies this
      ensures Valid() && position == old(position) + distance
      ensures At() == Steps(Sizes(), old(At()), old(position), distance)
    {
      if distance > 0 {
        AdvanceForward(distance);
      } else if distance < 0 {
        AdvanceBackward(-distance);
      }
      StepsIsPlace(Sizes(), old(At()), old(position), distance);
      PlaceOrder(Sizes(), At(), position, Steps(Sizes(), old(At()), old(position), distance), position);
    }

    method AdvanceForward(distance: nat)
      requires Valid() && distance > 0 && position + distance <= Total(buffers)
      modifies this
      ensures Valid() && position == old(position) + distance
    {
      EndPlace(Sizes(), At(), position);
      assert current != |buffers|;
      var n := distance;
      while true
        invariant current < |buffers| && currentBuffer == buffers[current]
        invariant currentBufferPosition <= currentBuffer.size
        invariant position == Before(Sizes(), current) + currentBufferPosition
        invariant n >= 0 && position + n == old(position) + distance
        decreases |buffers| - current
      {
        var balance := currentBuffer.size - currentBufferPosition;
        if balance > n {
          position := position + n;
          currentBufferPosition := currentBufferPosition + n;
          return;
        }
        n := n - balance;
        position := position + balance;
        current := current + 1;
        if current == |buffers| {
          assert n == 0;
          currentBuffer := EMPTY;
          currentBufferPosition := 0;
          return;
        }
        currentBuffer := buffers[current];
        currentBufferPosition := 0;
      }
    }

    method AdvanceBackward(distance: nat)
      requires Valid() && distance > 0 && position >= distance
      modifies this
      ensures Valid() && position == old(position) - distance
    {
      var n := distance;
      while true
        invariant current <= |buffers|
        invariant if current == |buffers| then currentBufferPosition == 0
                  else currentBuffer == buffers[current] && currentBufferPosition <= currentBuffer.size
        invariant position == Before(Sizes(), current) + currentBufferPosition
        invariant n > 0 && position - n == old(position) - distance
        decreases current
      {
        if currentBufferPosition >= n {
          position := position - n;
          currentBufferPosition := currentBufferPosition - n;
          return;
        }
        n := n - currentBufferPosition;
        position := position - currentBufferPosition;
        // With `n` bytes still to go there is a non-empty buffer further back, so the early
        // exit for the first buffer is never taken.
        if current == 0 {
          assert false;
        }
        var iter := current;
        ghost var was := current;
        while iter != 0
          invariant 0 <= iter <= current == was && Before(Sizes(), iter) == position > 0
        {
          iter := iter - 1;
          var buffer := buffers[iter];
          if buffer.size > 0 {
            current := iter;
            currentBuffer := buffer;
            currentBufferPosition := buffer.size;
            break;
          }
        }
      }
    }

    /** `operator+`, and `operator-` with the distance negated: the iterator itself stays put. */
    method Plus(distance: int) returns (r: Iterator)
      requires Valid() && 0 <= position + distance <= Total(buffers)
      ensures fresh(r) && r.Valid() && r.buffers == buffers && r.position == position + distance
      ensures r.At() == Steps(Sizes(), At(), position, distance)
    {
      r := new Iterator.Copy(this);
      r.Advance(distance);
    }
  }

  /** `end - begin` is `buffer_size(buffers)`. */
  method EndMinusBegin(buffers: seq<Buffer>, ghost m: seq<Byte>) returns (distance: int, size: nat)
    requires ValidAll(buffers, m)
    ensures distance == size == |FlatView(buffers, m)|
  {
    var begin := new Iterator.Begin(buffers);
    var end := new Iterator.End(buffers);
    distance := begin.DistanceTo(end);
    size := BufferSize(buffers, m);
  }
}
