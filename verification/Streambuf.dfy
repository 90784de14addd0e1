/** The growable stream buffer (include/asio/basic_streambuf.hpp), with the parts of
    `std::streambuf` that call into it (sections 27.6.3.4.3 and 27.6.3.4.5 of ISO/IEC 14882:2011).
    One vector holds the input sequence and the room for output after it; positions are kept as
    offsets into the vector. */
module Streambuf {
  import opened Basics
  import opened Flat

  const DELTA: nat := 128

  datatype Outcome = Done | LengthError

  /** A buffer that is handed out: `n` bytes of the vector from `offset` on. */
  datatype Span = Span(offset: nat, n: nat)

  /** `vector::resize` */
  function Resized(s: seq<Byte>, n: nat): (r: seq<Byte>)
    ensures |r| == n
    ensures forall i :: |s| <= i < n ==> r[i] == 0
  {
    if n <= |s| then s[..n] else s + seq(n - |s|, _ => 0)
  }

  // ---------- what a user sees ----------

  /** The input sequence, and whatever bytes the writable area after it holds. `gap` is the
      number of bytes before the input sequence. */
  datatype Fifo = Fifo(input: seq<Byte>, area: seq<Byte>, gap: nat, maxSize: nat) {
    predicate Fits() {
      gap + |input| + |area| <= maxSize
    }

    /** The length of the vector in use. */
    function End(): nat {
      gap + |input| + |area|
    }
  }

  /** `memmove` of the input sequence to the front of the vector. */
  function Moved(buffer: seq<Byte>, gap: nat, size: nat): (r: seq<Byte>)
    requires gap + size <= |buffer|
    ensures |r| == |buffer|
  {
    Splice(buffer, 0, buffer[gap..gap + size])
  }

  /** What is left in the old place of the input sequence once it has been copied to the front. */
  function Shifted(input: seq<Byte>, gap: nat): (r: seq<Byte>)
    ensures |r| == |input|
    ensures gap == 0 ==> r == input
  {
    seq(|input|, i requires 0 <= i < |input| => if gap + i < |input| then input[gap + i] else input[i])
  }

  lemma MovedParts(buffer: seq<Byte>, gap: nat, size: nat, end: nat)
    requires gap + size <= end <= |buffer|
    ensures Moved(buffer, gap, size)[0..size] == buffer[gap..gap + size]
    ensures Moved(buffer, gap, size)[gap..gap + size] == Shifted(buffer[gap..gap + size], gap)
    ensures Moved(buffer, gap, size)[gap + size..end] == buffer[gap + size..end]
  {
    hide Splice, Shifted;
    SpliceWrites(buffer, 0, buffer[gap..gap + size]);
    SpliceKeeps(buffer, 0, buffer[gap..gap + size], gap + size, end);
    MovedLeaves(buffer, gap, size);
  }

  lemma MovedLeaves(buffer: seq<Byte>, gap: nat, size: nat)
    requires gap + size <= |buffer|
    ensures Moved(buffer, gap, size)[gap..gap + size] == Shifted(buffer[gap..gap + size], gap)
  {
    var input, moved := buffer[gap..gap + size], Moved(buffer, gap, size);
    SpliceIndex(buffer, 0, input);
    hide Moved, Splice;
    forall k | 0 <= k < size ensures moved[gap..gap + size][k] == Shifted(input, gap)[k] {
      assert moved[gap..gap + size][k] == moved[gap + k];
    }
  }

  lemma ResizedKeeps(s: seq<Byte>, from: nat, to: nat, n: nat)
    requires from <= to <= |s| && to <= n
    ensures Resized(s, n)[from..to] == s[from..to]
  {
  }

  // ---------- what the operations do to it ----------

  /** A throwing `prepare` has already moved the input sequence, and leaves the positions where
      they were: the user finds the shifted bytes. */
  ghost predicate PrepareSpec(f: Fifo, n: nat, outcome: Outcome, f': Fifo) {
    && f'.maxSize == f.maxSize
    && (outcome == LengthError <==> |f.input| + n > f.maxSize)
    && (outcome == LengthError ==> f' == f.(input := Shifted(f.input, f.gap)))
    && (outcome == Done && n <= |f.area| ==> f' == f)
    && (outcome == Done && n > |f.area| ==> MadeRoom(f, n, f'))
  }

  /** The input sequence is at the front, and what was before it has become room; if that does not
      do, the vector has grown to what is needed. */
  ghost predicate MadeRoom(f: Fifo, n: nat, f': Fifo) {
    f'.input == f.input && f'.gap == 0 && |f'.area| == Max(n, f.gap + |f.area|)
  }

  ghost predicate PutSpec(f: Fifo, c: Byte, outcome: Outcome, f': Fifo) {
    && f'.maxSize == f.maxSize
    && (outcome == LengthError <==> |f.input| == f.maxSize)
    && (outcome == LengthError ==> f' == f)
    && (outcome == Done ==> f'.input == f.input + [c])
    && (outcome == Done && f.area == [] ==>
          |f.input| < f.maxSize && f'.gap == 0 && 1 + |f'.area| == Max(Min(DELTA, f.maxSize - |f.input|), f.gap))
    && (f.area != [] ==> f' == f.(input := f.input + [c], area := f.area[1..]))
  }

  ghost predicate GetSpec(f: Fifo, c: Option<Byte>, f': Fifo) {
    if f.input == [] then c == None && f' == f
    else c == Some(f.input[0]) && f' == f.(input := f.input[1..], gap := f.gap + 1)
  }

  ghost predicate PeekSpec(f: Fifo, c: Option<Byte>, f': Fifo) {
    c == (if f.input == [] then None else Some(f.input[0])) && f' == f
  }

  ghost predicate FillSpec(f: Fifo, bytes: seq<Byte>, f': Fifo) {
    |bytes| <= |f.area| && f' == f.(area := bytes + f.area[|bytes|..])
  }

  ghost predicate CommitSpec(f: Fifo, n: nat, f': Fifo) {
    var k := Min(n, |f.area|);
    f' == f.(input := f.input + f.area[..k], area := f.area[k..])
  }

  ghost predicate ConsumeSpec(f: Fifo, n: nat, f': Fifo) {
    var k := Min(n, |f.input|);
    f' == f.(input := f.input[k..], gap := f.gap + k)
  }

  // ---------- the same on the vector ----------

  /** The view of a vector with the input sequence from `g` to `p` and the writable area up to `e`. */
  function ViewOf(buffer: seq<Byte>, g: nat, p: nat, e: nat, maxSize: nat): Fifo
    requires g <= p <= e <= |buffer|
  {
    Fifo(buffer[g..p], buffer[p..e], g, maxSize)
  }

  lemma FillView(buffer: seq<Byte>, g: nat, p: nat, e: nat, maxSize: nat, w: seq<Byte>)
    requires g <= p && p + |w| <= e <= |buffer|
    ensures FillSpec(ViewOf(buffer, g, p, e, maxSize), w, ViewOf(Splice(buffer, p, w), g, p, e, maxSize))
  {
    hide Splice;
    SpliceKeeps(buffer, p, w, g, p);
    SpliceWrites(buffer, p, w);
    SpliceKeeps(buffer, p, w, p + |w|, e);
    RangesJoin(Splice(buffer, p, w), p, p + |w|, e);
    RangeOfRange(buffer, p, e, |w|, e - p);
  }

  lemma CommitView(buffer: seq<Byte>, g: nat, p: nat, e: nat, maxSize: nat, n: nat)
    requires g <= p <= e <= |buffer|
    ensures CommitSpec(ViewOf(buffer, g, p, e, maxSize), n, ViewOf(buffer, g, p + Min(n, e - p), e, maxSize))
  {
    var k := Min(n, e - p);
    RangesJoin(buffer, g, p, p + k);
    RangeOfRange(buffer, p, e, 0, k);
    RangeOfRange(buffer, p, e, k, e - p);
  }

  lemma ConsumeView(buffer: seq<Byte>, g: nat, p: nat, e: nat, maxSize: nat, n: nat)
    requires g <= p <= e <= |buffer|
    ensures ConsumeSpec(ViewOf(buffer, g, p, e, maxSize), n, ViewOf(buffer, g + Min(n, p - g), p, e, maxSize))
  {
    RangeOfRange(buffer, g, p, Min(n, p - g), p - g);
  }

  /** One character stored is one filled in and committed. */
  lemma StoreView(buffer: seq<Byte>, g: nat, p: nat, e: nat, maxSize: nat, c: Byte)
    requires g <= p < e <= |buffer|
    ensures var f := ViewOf(buffer, g, p, e, maxSize);
            ViewOf(Splice(buffer, p, [c]), g, p + 1, e, maxSize) == f.(input := f.input + [c], area := f.area[1..])
  {
    FillView(buffer, g, p, e, maxSize, [c]);
    CommitView(Splice(buffer, p, [c]), g, p, e, maxSize, 1);
  }

  // ---------- whole runs ----------

  datatype Event =
    | Prepared(n: nat, outcome: Outcome)
    | Filled(bytes: seq<Byte>)
    | Committed(n: nat)
    | Consumed(n: nat)
    | Put(c: Byte, outcome: Outcome)
    | Got(got: Option<Byte>)
    | Peeked(got: Option<Byte>)

  ghost predicate Step(f: Fifo, e: Event, f': Fifo) {
    match e
    case Prepared(n, outcome) => PrepareSpec(f, n, outcome, f')
    case Filled(bytes) => FillSpec(f, bytes, f')
    case Committed(n) => CommitSpec(f, n, f')
    case Consumed(n) => ConsumeSpec(f, n, f')
    case Put(c, outcome) => PutSpec(f, c, outcome, f')
    case Got(c) => GetSpec(f, c, f')
    case Peeked(c) => PeekSpec(f, c, f')
  }

  /** The bytes that an event adds to the input sequence. */
  function Entering(f: Fifo, e: Event): seq<Byte> {
    match e
    case Committed(n) => f.area[..Min(n, |f.area|)]
    case Put(c, Done) => [c]
    case _ => []
  }

  /** The bytes that an event takes from the input sequence. */
  function Leaving(f: Fifo, e: Event): seq<Byte> {
    match e
    case Consumed(n) => f.input[..Min(n, |f.input|)]
    case Got(Some(c)) => [c]
    case _ => []
  }

  /** The guard a caller can check before a `prepare` that may fail. */
  predicate ThrowIsHarmless(gap: nat, size: nat) {
    gap == 0 || gap >= size
  }

  predicate Harmless(f: Fifo, e: Event) {
    e.Prepared? && e.outcome == LengthError ==> ThrowIsHarmless(f.gap, |f.input|)
  }

  datatype Run = Start(first: Fifo) | Then(before: Run, e: Event, now: Fifo) {
    function First(): Fifo {
      if Start? then first else before.First()
    }

    function Last(): Fifo {
      if Start? then first else now
    }

    ghost predicate Valid() {
      Then? ==> before.Valid() && Step(before.Last(), e, now)
    }

    predicate NoHarm() {
      Then? ==> before.NoHarm() && Harmless(before.Last(), e)
    }

    function Initial(): seq<Byte> {
      if Start? then first.input else before.Initial()
    }

    function Entered(): seq<Byte> {
      if Start? then [] else before.Entered() + Entering(before.Last(), e)
    }

    function Left(): seq<Byte> {
      if Start? then [] else before.Left() + Leaving(before.Last(), e)
    }
  }

  lemma StepConserves(f: Fifo, e: Event, f': Fifo)
    requires Step(f, e, f') && Harmless(f, e)
    ensures f.input + Entering(f, e) == Leaving(f, e) + f'.input
  {
    if e.Prepared? && e.outcome == LengthError {
      assert Shifted(f.input, f.gap) == f.input;
    }
  }

  lemma QueueAlgebra(first: seq<Byte>, entered: seq<Byte>, enters: seq<Byte>,
                     left: seq<Byte>, leaves: seq<Byte>, before: seq<Byte>, after: seq<Byte>)
    requires first + entered == left + before && before + enters == leaves + after
    ensures first + (entered + enters) == (left + leaves) + after
  {
    assert first + (entered + enters) == (first + entered) + enters;
    assert (left + before) + enters == left + (before + enters);
    assert left + (leaves + after) == (left + leaves) + after;
  }

  /** The stream buffer is a queue: over a run of any operations in any order, through all shifts
      and resizes, the bytes taken out followed by the bytes still in are the bytes that were in
      followed by the bytes put in. */
  lemma {:induction false} RunIsFifo(run: Run)
    requires run.Valid() && run.NoHarm()
    ensures run.Initial() + run.Entered() == run.Left() + run.Last().input
  {
    if run.Then? {
      var f := run.before.Last();
      RunIsFifo(run.before);
      StepConserves(f, run.e, run.now);
      QueueAlgebra(run.Initial(), run.before.Entered(), Entering(f, run.e),
                   run.before.Left(), Leaving(f, run.e), f.input, run.now.input);
    }
  }

  /** What was shown is what is taken next, and it was in front; nothing is shown exactly if there is
      nothing. */
  lemma PeekThenGet(run: Run)
    requires run.Valid() && run.Then? && run.e.Got? && run.before.Then? && run.before.e.Peeked?
    ensures run.e.got == run.before.e.got
    ensures var input := run.before.before.Last().input;
            if run.e.got.Some? then input == [run.e.got.value] + run.Last().input else input == run.Last().input == []
  {
  }

  lemma PrepareMeans(f: Fifo, n: nat, outcome: Outcome, f': Fifo)
    requires PrepareSpec(f, n, outcome, f')
    ensures outcome == LengthError <==> |f.input| + n > f.maxSize
    ensures outcome == Done ==> f'.input == f.input && |f'.area| >= n
  {
  }

  /** Bytes written into the buffer that `prepare(n)` returned enter in order on `commit`. */
  lemma PrepareFillCommit(f0: Fifo, n: nat, f1: Fifo, bytes: seq<Byte>, f2: Fifo, k: nat, f3: Fifo)
    requires PrepareSpec(f0, n, Done, f1) && FillSpec(f1, bytes, f2) && CommitSpec(f2, k, f3)
    requires k <= |bytes|
    ensures f3.input == f0.input + bytes[..k]
  {
  }

  /** The vector grows only when the area does not do, and then to what is needed: to the request of
      a `prepare`, and for a character by 128 bytes or by what is left of the maximum. */
  lemma StepGrows(f: Fifo, e: Event, f': Fifo)
    requires Step(f, e, f')
    ensures f'.maxSize == f.maxSize
    ensures f'.End() == match e
                        case Prepared(n, Done) => if n <= |f.area| then f.End() else Max(f.End(), |f.input| + n)
                        case Put(_, Done) =>
                          if f.area != [] then f.End()
                          else Max(f.End(), |f.input| + Min(128, Max(f.maxSize, |f.input|) - |f.input|))
                        case _ => f.End()
  {
  }

  /** How much is in, whatever throws; and when there is a throw: a character is refused exactly when
      the buffer is full, a `prepare` exactly when the request does not fit. */
  lemma {:induction false} RefusedIffFull(run: Run)
    requires run.Valid()
    ensures run.Last().maxSize == run.First().maxSize
    ensures |run.Last().input| + |run.Left()| == |run.Initial()| + |run.Entered()|
    ensures run.Then? ==>
      var size := |run.Initial()| + |run.before.Entered()| - |run.before.Left()|;
      && (run.e.Put? ==> (run.e.outcome == LengthError <==> size == run.First().maxSize))
      && (run.e.Prepared? ==> (run.e.outcome == LengthError <==> size + run.e.n > run.First().maxSize))
      && (run.e.Got? ==> (run.e.got.None? <==> size == 0))
  {
    if run.Then? {
      RefusedIffFull(run.before);
      StepGrows(run.before.Last(), run.e, run.now);
    }
  }

  // ---------- when a throw does harm ----------

  /** A throwing `prepare` keeps the input sequence exactly when the bytes it overwrote are equal
      to the ones that stood there. */
  lemma ThrowKeepsInput(input: seq<Byte>, gap: nat)
    ensures Shifted(input, gap) == input <==> forall i :: 0 <= i < |input| - gap ==> input[gap + i] == input[i]
  {
    if Shifted(input, gap) == input {
      forall i | 0 <= i < |input| - gap ensures input[gap + i] == input[i] {
        assert Shifted(input, gap)[i] == input[i];
      }
    }
  }

  /** Whatever the bytes are, a throw is harmless exactly when nothing precedes the input sequence
      or its old and new places do not overlap. */
  lemma ThrowHarmlessIff(gap: nat, size: nat)
    ensures ThrowIsHarmless(gap, size)
       <==> forall input {:trigger Shifted(input, gap)} :: |input| == size ==> Shifted(input, gap) == input
  {
    if !ThrowIsHarmless(gap, size) {
      var input: seq<Byte> := [0] + seq(size - 1, _ => 1);
      assert Shifted(input, gap)[0] == 1;
    }
  }

  lemma Extend(before: Run, e: Event, now: Fifo) returns (run: Run)
    requires before.Valid() && Step(before.Last(), e, now)
    ensures run == Then(before, e, now) && run.Valid() && run.First() == before.First() && run.Last() == now
    ensures run.Entered() == before.Entered() + Entering(before.Last(), e)
    ensures run.Left() == before.Left() + Leaving(before.Last(), e)
  {
    run := Then(before, e, now);
  }

  /** A new buffer with a maximum size of 4, filled by four characters of which one is consumed,
      holds 1, 2, 3. A `prepare` that fails turns that into 2, 3, 3. */
  lemma ThrowCanCorrupt(area: seq<Byte>) returns (run: Run)
    requires |area| == 4
    ensures run.Valid() && run.First() == Fifo([], area, 0, 4)
    ensures run.Entered() == [0, 1, 2, 3] && run.Left() == [0]
    ensures run.Then? && run.e == Prepared(2, LengthError)
    ensures run.before.Last().input == [1, 2, 3] && run.Last().input == [2, 3, 3]
  {
    var f0, f1, f2 := Fifo([], area, 0, 4), Fifo([0], area[1..], 0, 4), Fifo([0, 1], area[2..], 0, 4);
    var f3, f4 := Fifo([0, 1, 2], area[3..], 0, 4), Fifo([0, 1, 2, 3], [], 0, 4);
    var f5, f6 := Fifo([1, 2, 3], [], 1, 4), Fifo([2, 3, 3], [], 1, 4);
    assert Step(f0, Put(0, Done), f1) && Step(f1, Put(1, Done), f2) && Step(f2, Put(2, Done), f3);
    assert Step(f3, Put(3, Done), f4) && Step(f4, Consumed(1), f5);
    assert Shifted([1, 2, 3], 1) == [2, 3, 3];
    assert Step(f5, Prepared(2, LengthError), f6);
    run := Extend(Start(f0), Put(0, Done), f1);
    run := Extend(run, Put(1, Done), f2);
    run := Extend(run, Put(2, Done), f3);
    run := Extend(run, Put(3, Done), f4);
    run := Extend(run, Consumed(1), f5);
    run := Extend(run, Prepared(2, LengthError), f6);
  }

  // ---------- the class ----------

  class BasicStreambuf {
    const maxSize: nat
    var buffer: seq<Byte>
    var eback: nat
    var gptr: nat
    var egptr: nat
    var pptr: nat
    var epptr: nat

    ghost predicate Valid()
      reads this
    {
      && 0 == eback <= gptr <= egptr <= pptr <= epptr <= maxSize
      && |buffer| == if epptr > 1 then epptr else 1
    }

    ghost function View(): (f: Fifo)
      requires Valid()
      reads this
      ensures f.Fits()
    {
      ViewOf(buffer, gptr, pptr, epptr, maxSize)
    }

    constructor (maximumSize: nat)
      ensures Valid() && maxSize == maximumSize
      ensures View().input == [] && View().gap == 0 && |View().area| == Min(maximumSize, 128)
      ensures forall i :: 0 <= i < |View().area| ==> View().area[i] == 0
    {
      var pend := if maximumSize < DELTA then maximumSize else DELTA;
      maxSize := maximumSize;
      buffer := Resized([], Max(pend, 1));
      eback, gptr, egptr := 0, 0, 0;
      pptr, epptr := 0, pend;
    }

    method Size() returns (n: nat)
      requires Valid()
      ensures n == |View().input| <= maxSize
    {
      n := pptr - gptr;
    }

    /** `read_size_helper`: how much to read next. The vector's capacity is at least its length. */
    method ReadSizeHelper(capacity: nat, max: nat) returns (n: nat)
      requires Valid() && capacity >= |buffer|
      ensures n <= max && n <= maxSize - |View().input| && n <= Max(512, capacity - |View().input|)
      ensures n < max && n < maxSize - |View().input| ==> n >= 512 && n >= capacity - |View().input|
      ensures n == 0 <==> max == 0 || |View().input| == maxSize
      ensures forall outcome, f {:trigger PrepareSpec(View(), n, outcome, f)} ::
        PrepareSpec(View(), n, outcome, f) ==> outcome == Done
    {
      var size := pptr - gptr;
      n := Min(Max(512, capacity - size), Min(max, maxSize - size));
    }

    method Data() returns (bytes: seq<Byte>)
      requires Valid()
      ensures bytes == View().input
    {
      bytes := buffer[gptr..pptr];
    }

    /** `span` is the front of the writable area. */
    ghost predicate Writable(span: Span)
      requires Valid()
      reads this
    {
      && span.n <= |View().area| && span.offset + span.n <= |buffer|
      && buffer[..span.offset] == buffer[..gptr] + View().input
      && buffer[span.offset..span.offset + span.n] == View().area[..span.n]
    }

    /** `prepare`: on success the first `n` bytes of the writable area are handed out. */
    method Prepare(n: nat) returns (outcome: Outcome, span: Span)
      requires Valid()
      modifies this
      ensures Valid()
      ensures PrepareSpec(old(View()), n, outcome, View())
      ensures outcome == Done ==> span.n == n && Writable(span)
      ensures outcome == LengthError <==> |old(View()).input| + n > maxSize
      ensures outcome == Done ==> View().input == old(View()).input && |View().area| >= n
    {
      outcome := Reserve(n);
      span := Span(pptr, n);
      PrepareMeans(old(View()), n, outcome, View());
      hide PrepareSpec;
      if outcome == Done {
        RangeOfRange(buffer, pptr, epptr, 0, n);
        RangesJoin(buffer, 0, gptr, pptr);
      }
    }

    /** The user writes to the buffer that `prepare` handed out. */
    method Fill(span: Span, bytes: seq<Byte>)
      requires Valid() && Writable(span) && |bytes| <= span.n
      modifies `buffer
      ensures Valid()
      ensures FillSpec(old(View()), bytes, View())
    {
      hide Splice, FillSpec;
      assert span.offset == |buffer[..span.offset]| == pptr;
      FillView(buffer, gptr, pptr, epptr, maxSize, bytes);
      buffer := Splice(buffer, span.offset, bytes);
    }

    method Commit(n: nat)
      requires Valid()
      modifies this
      ensures Valid()
      ensures CommitSpec(old(View()), n, View())
      ensures var k := if n <= |old(View()).area| then n else |old(View()).area|;
              View().input == old(View()).input + old(View()).area[..k] && View().area == old(View()).area[k..]
    {
      var k := if pptr + n > epptr then epptr - pptr else n;
      hide ViewOf;
      CommitView(buffer, gptr, pptr, epptr, maxSize, n);
      pptr := pptr + k;
      egptr := pptr;
    }

    method Consume(n: nat)
      requires Valid()
      modifies this
      ensures Valid()
      ensures ConsumeSpec(old(View()), n, View())
      ensures View().input == (if n <= |old(View()).input| then old(View()).input[n..] else [])
      ensures View().area == old(View()).area
    {
      if egptr < pptr {
        eback, egptr := 0, pptr;
      }
      var k := if gptr + n > pptr then pptr - gptr else n;
      hide ViewOf;
      ConsumeView(buffer, gptr, pptr, epptr, maxSize, n);
      gptr := gptr + k;
    }

    // ---------- virtual functions of std::streambuf ----------

    /** `None` is `eof`. */
    method Underflow() returns (c: Option<Byte>)
      requires Valid()
      modifies this
      ensures Valid() && PeekSpec(old(View()), c, View())
      ensures c.Some? ==> gptr < egptr
    {
      if gptr < pptr {
        eback, egptr := 0, pptr;
        c := Some(buffer[gptr]);
      } else {
        c := None;
      }
    }

    method Overflow(c: Option<Byte>) returns (outcome: Outcome)
      requires Valid()
      modifies this
      ensures Valid()
      ensures c == None ==> outcome == Done && View() == old(View())
      ensures c.Some? ==> PutSpec(old(View()), c.value, outcome, View())
      ensures outcome == LengthError ==> View().gap == 0
    {
      hide Shifted;
      if c.Some? {
        if pptr == epptr {
          var size := pptr - gptr;
          if size < maxSize && maxSize - size < DELTA {
            outcome := Reserve(maxSize - size);
          } else {
            outcome := Reserve(DELTA);
          }
          if outcome == LengthError {
            return;
          }
        }
        Store(c.value);
      }
      outcome := Done;
    }

    /** `*pptr() = c; pbump(1)` */
    method Store(c: Byte)
      requires Valid() && pptr < epptr
      modifies `buffer, `pptr
      ensures Valid()
      ensures View() == old(View()).(input := old(View()).input + [c], area := old(View()).area[1..])
    {
      hide Splice;
      StoreView(buffer, gptr, pptr, epptr, maxSize, c);
      hide ViewOf;
      buffer := Splice(buffer, pptr, [c]);
      pptr := pptr + 1;
    }

    method Reserve(n: nat) returns (outcome: Outcome)
      requires Valid()
      modifies this
      ensures Valid()
      ensures PrepareSpec(old(View()), n, outcome, View())
    {
      hide Moved, Resized, Shifted;
      var gnext, pnext, pend := gptr, pptr, epptr;
      MovedParts(buffer, gptr, pptr - gptr, epptr);
      if n <= pend - pnext {
        return Done;
      }
      if gnext > 0 {
        pnext := pnext - gnext;
        buffer := Moved(buffer, gnext, pnext);
      }
      if n > pend - pnext {
        if n <= maxSize && pnext <= maxSize - n {
          pend := pnext + n;
          ResizedKeeps(buffer, 0, pnext, Max(pend, 1));
          buffer := Resized(buffer, Max(pend, 1));
        } else {
          return LengthError;
        }
      }
      eback, gptr, egptr := 0, 0, pnext;
      pptr, epptr := pnext, pend;
      return Done;
    }

    // ---------- the calls that std::streambuf makes ----------

    method Sgetc() returns (c: Option<Byte>)
      requires Valid()
      modifies this
      ensures Valid() && PeekSpec(old(View()), c, View())
    {
      if gptr < egptr {
        c := Some(buffer[gptr]);
      } else {
        c := Underflow();
      }
    }

    method Sbumpc() returns (c: Option<Byte>)
      requires Valid()
      modifies this
      ensures Valid()
      ensures GetSpec(old(View()), c, View())
      ensures if old(View()).input == [] then c == None && View() == old(View())
              else c == Some(old(View()).input[0]) && View().input == old(View()).input[1..]
    {
      if gptr < egptr {
        c := Some(buffer[gptr]);
        gptr := gptr + 1;
      } else {
        c := Underflow();
        if c.Some? {
          gptr := gptr + 1;
        }
      }
    }

    method Sputc(c: Byte) returns (outcome: Outcome)
      requires Valid()
      modifies this
      ensures Valid()
      ensures PutSpec(old(View()), c, outcome, View())
      ensures outcome == LengthError <==> |old(View()).input| == maxSize
      ensures View().input == if outcome == Done then old(View()).input + [c] else old(View()).input
    {
      if pptr < epptr {
        Store(c);
        outcome := Done;
      } else {
        outcome := Overflow(Some(c));
      }
    }
  }
}
