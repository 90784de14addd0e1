/** Buffers over memory (include/asio/buffer.hpp): a buffer is an address with a size, a buffer
    sequence is a list of them, and `buffer_copy` moves bytes from one sequence to another
    without regard to where their boundaries fall.

    Memory is one array of bytes and an address is an index into it, so any two buffers may or
    may not overlap, and a copy has to leave every byte outside its target alone. */
module Buffers {
  import opened Basics
  import opened Flat

  /** `mutable_buffer` and `const_buffer`. */
  datatype Buffer = Buffer(start: nat, size: nat) {

    predicate Valid(m: seq<Byte>) {
      start + size <= |m|
    }

    /** The bytes of the buffer when memory is `m`. */
    function Bytes(m: seq<Byte>): (r: seq<Byte>)
      requires Valid(m)
      ensures |r| == size
    {
      m[start..start + size]
    }

    predicate Covers(i: int) {
      start <= i < start + size
    }

    /** An empty buffer is apart from every other, wherever it points. */
    predicate Apart(other: Buffer) {
      size == 0 || other.size == 0 || start + size <= other.start || other.start + other.size <= start
    }

    /** `operator+`: the buffer without its first `k` bytes, or the null buffer. */
    function Plus(k: nat): Buffer {
      if k > size then EMPTY else Buffer(start + k, size - k)
    }

    /** `buffer(b, max_size_in_bytes)` */
    function Limit(max: nat): Buffer {
      Buffer(start, if size < max then size else max)
    }
  }

  const EMPTY := Buffer(0, 0)

  lemma PlusDrops(b: Buffer, k: nat, m: seq<Byte>)
    requires b.Valid(m)
    ensures b.Plus(k).Valid(m)
    ensures b.Plus(k).Bytes(m) == if k <= b.size then b.Bytes(m)[k..] else []
    ensures b.Plus(k).start == if k <= b.size then b.start + k else 0
  {
  }

  lemma LimitTakes(b: Buffer, max: nat, m: seq<Byte>)
    requires b.Valid(m)
    ensures b.Limit(max).Valid(m)
    ensures b.Limit(max).Bytes(m) == b.Bytes(m)[..Min(b.size, max)]
  {
  }

  /** To be apart is to have no byte in common. */
  lemma ApartIff(a: Buffer, b: Buffer)
    ensures a.Apart(b) <==> forall i :: !(a.Covers(i) && b.Covers(i))
  {
    if !a.Apart(b) {
      assert a.Covers(Max(a.start, b.start)) && b.Covers(Max(a.start, b.start));
    }
  }

  // ---------- buffer sequences ----------

  predicate ValidAll(bufs: seq<Buffer>, m: seq<Byte>) {
    forall i :: 0 <= i < |bufs| ==> bufs[i].Valid(m)
  }

  /** No byte is in two buffers of the sequence. */
  predicate PairwiseApart(bufs: seq<Buffer>) {
    forall i, j {:trigger bufs[i].Apart(bufs[j])} :: 0 <= i < j < |bufs| ==> bufs[i].Apart(bufs[j])
  }

  predicate AllApart(target: seq<Buffer>, source: seq<Buffer>) {
    forall i, j {:trigger target[i].Apart(source[j])} ::
      0 <= i < |target| && 0 <= j < |source| ==> target[i].Apart(source[j])
  }

  /** What `buffer_copy` demands of its arguments: buffers that exist, and no overlap with a target. */
  predicate Copyable(target: seq<Buffer>, source: seq<Buffer>, m: seq<Byte>) {
    && ValidAll(target, m) && ValidAll(source, m)
    && PairwiseApart(target) && AllApart(target, source)
  }

  /** `Copyable` excludes only what is shared: no byte of a target buffer is in another buffer. */
  lemma CopyableIff(target: seq<Buffer>, source: seq<Buffer>, m: seq<Byte>)
    requires ValidAll(target, m) && ValidAll(source, m)
    ensures Copyable(target, source, m)
       <==> && (forall i, j, k :: 0 <= i < j < |target| && target[i].Covers(k) ==> !target[j].Covers(k))
            && (forall i, j, k :: 0 <= i < |target| && 0 <= j < |source| && target[i].Covers(k) ==> !source[j].Covers(k))
  {
    forall i, j | 0 <= i < j < |target|
      ensures target[i].Apart(target[j]) <==> forall k :: target[i].Covers(k) ==> !target[j].Covers(k)
    {
      ApartIff(target[i], target[j]);
    }
    forall i, j | 0 <= i < |target| && 0 <= j < |source|
      ensures target[i].Apart(source[j]) <==> forall k :: target[i].Covers(k) ==> !source[j].Covers(k)
    {
      ApartIff(target[i], source[j]);
    }
  }

  function SizesOf(bufs: seq<Buffer>): (r: seq<nat>) {
    seq(|bufs|, i requires 0 <= i < |bufs| => bufs[i].size)
  }

  function Total(bufs: seq<Buffer>): nat {
    Before(SizesOf(bufs), |bufs|)
  }

  function Views(bufs: seq<Buffer>, m: seq<Byte>): (r: seq<seq<Byte>>)
    requires ValidAll(bufs, m)
    ensures Sizes(r) == SizesOf(bufs)
  {
    seq(|bufs|, i requires 0 <= i < |bufs| => bufs[i].Bytes(m))
  }

  /** The bytes of the sequence, in order, as one flat sequence. */
  function FlatView(bufs: seq<Buffer>, m: seq<Byte>): (r: seq<Byte>)
    requires ValidAll(bufs, m)
    ensures |r| == Total(bufs)
  {
    PrefixLength(Views(bufs, m), |bufs|);
    Flatten(Views(bufs, m))
  }

  /** `buffer_size` of a sequence. */
  method BufferSize(bufs: seq<Buffer>, ghost m: seq<Byte>) returns (total: nat)
    requires ValidAll(bufs, m)
    ensures total == |FlatView(bufs, m)|
  {
    total := 0;
    var i := 0;
    while i != |bufs|
      invariant 0 <= i <= |bufs|
      invariant total == Before(SizesOf(bufs), i)
    {
      total := total + bufs[i].size;
      i := i + 1;
    }
  }

  // ---------- what a copy does ----------

  predicate Uncovered(bufs: seq<Buffer>, i: int) {
    forall j {:trigger bufs[j].Covers(i)} :: 0 <= j < |bufs| ==> !bufs[j].Covers(i)
  }

  /** From memory `m` to memory `m'`, the first `n` bytes of the source, and only those, replaced
      the first `n` of the target; no byte outside the target changed. */
  ghost predicate Copied(target: seq<Buffer>, source: seq<Buffer>, n: nat, m: seq<Byte>, m': seq<Byte>)
    requires Copyable(target, source, m)
  {
    && |m'| == |m|
    && n <= Total(target) && n <= Total(source)
    && FlatView(target, m') == FlatView(source, m)[..n] + FlatView(target, m)[n..]
    && forall i {:trigger Uncovered(target, i)} :: 0 <= i < |m| && Uncovered(target, i) ==> m'[i] == m[i]
  }

  /** A copy never changes its source. */
  lemma SourceUnchanged(target: seq<Buffer>, source: seq<Buffer>, n: nat, m: seq<Byte>, m': seq<Byte>)
    requires Copyable(target, source, m) && Copied(target, source, n, m, m')
    ensures FlatView(source, m') == FlatView(source, m)
  {
    forall j | 0 <= j < |source| ensures source[j].Bytes(m') == source[j].Bytes(m) {
      forall i | source[j].Covers(i) ensures m'[i] == m[i] {
        assert Uncovered(target, i) by {
          forall t | 0 <= t < |target| ensures !target[t].Covers(i) {
            assert target[t].Apart(source[j]);
          }
        }
      }
    }
    assert Views(source, m') == Views(source, m);
  }

  lemma CopiedNothing(target: seq<Buffer>, source: seq<Buffer>, m: seq<Byte>)
    requires Copyable(target, source, m)
    ensures Copied(target, source, 0, m, m)
  {
  }

  /** What it means for a single byte: the target byte at a position of the flat view below `n` is the
      source byte at the same position, and above it is what it was. */
  lemma CopiedByte(target: seq<Buffer>, source: seq<Buffer>, n: nat, m: seq<Byte>, m': seq<Byte>, j: nat, o: nat)
    requires Copyable(target, source, m) && Copied(target, source, n, m, m')
    requires j < |target| && o < target[j].size
    ensures |m'| == |m| && target[j].start + o < |m|
    ensures forall i, p {:trigger source[i], m[p]} ::
      (0 <= i < |source| && source[i].Covers(p)
       && Before(SizesOf(target), j) + o == Before(SizesOf(source), i) + p - source[i].start < n) ==>
        m'[target[j].start + o] == m[p]
    ensures Before(SizesOf(target), j) + o >= n ==> m'[target[j].start + o] == m[target[j].start + o]
  {
    var at, b := Before(SizesOf(target), j) + o, target[j].start + o;
    ReadFlatView(target, j, o, 1, m');
    ReadFlatView(target, j, o, 1, m);
    assert m'[b] == m'[b..b + 1][0] == FlatView(target, m')[at..at + 1][0] == FlatView(target, m')[at];
    assert m[b] == m[b..b + 1][0] == FlatView(target, m)[at..at + 1][0] == FlatView(target, m)[at];
    forall i, p | 0 <= i < |source| && source[i].Covers(p) && at == Before(SizesOf(source), i) + p - source[i].start < n
      ensures m'[b] == m[p]
    {
      ReadFlatView(source, i, p - source[i].start, 1, m);
      assert m[p] == m[p..p + 1][0] == FlatView(source, m)[at..at + 1][0] == FlatView(source, m)[at];
    }
  }

  /** `Copied` says all there is to say: it leaves no choice about any byte of the new memory. */
  lemma CopiedIsUnique(target: seq<Buffer>, source: seq<Buffer>, n: nat, m: seq<Byte>, m1: seq<Byte>, m2: seq<Byte>)
    requires Copyable(target, source, m)
    requires Copied(target, source, n, m, m1) && Copied(target, source, n, m, m2)
    ensures m1 == m2
  {
    forall i | 0 <= i < |m| ensures m1[i] == m2[i] {
      if !Uncovered(target, i) {
        var j :| 0 <= j < |target| && target[j].Covers(i);
        ReadFlatView(target, j, i - target[j].start, 1, m1);
        ReadFlatView(target, j, i - target[j].start, 1, m2);
        assert m1[i..i + 1] == m2[i..i + 1];
        assert m1[i] == m1[i..i + 1][0] && m2[i] == m2[i..i + 1][0];
      }
    }
  }

  /** Overwriting memory inside target buffer `t` changes that buffer's view only. */
  lemma WriteUpdatesViews(bufs: seq<Buffer>, t: nat, off: nat, w: seq<Byte>, m: seq<Byte>)
    requires ValidAll(bufs, m) && PairwiseApart(bufs) && t < |bufs| && off + |w| <= bufs[t].size
    ensures var m' := Splice(m, bufs[t].start + off, w);
            Views(bufs, m') == Views(bufs, m)[t := Splice(bufs[t].Bytes(m), off, w)]
  {
    var m' := Splice(m, bufs[t].start + off, w);
    SpliceIndex(m, bufs[t].start + off, w);
    SpliceIndex(bufs[t].Bytes(m), off, w);
    forall j | 0 <= j < |bufs|
      ensures bufs[j].Bytes(m') == if j == t then Splice(bufs[t].Bytes(m), off, w) else bufs[j].Bytes(m)
    {
      assert j < t ==> bufs[j].Apart(bufs[t]);
      assert t < j ==> bufs[t].Apart(bufs[j]);
      forall k | 0 <= k < bufs[j].size
        ensures bufs[j].Bytes(m')[k] == if j == t then Splice(bufs[t].Bytes(m), off, w)[k] else bufs[j].Bytes(m)[k]
      {
        assert bufs[j].Bytes(m')[k] == m'[bufs[j].start + k];
        assert bufs[j].Bytes(m)[k] == m[bufs[j].start + k];
      }
    }
  }

  lemma WriteStaysInside(b: Buffer, off: nat, w: seq<Byte>, m: seq<Byte>, i: nat)
    requires b.Valid(m) && off + |w| <= b.size && i < |m| && !b.Covers(i)
    ensures Splice(m, b.start + off, w)[i] == m[i]
  {
  }

  /** Writing target buffer `t` at `toff` overwrites the flat view of the target. */
  lemma WriteUpdatesFlatView(target: seq<Buffer>, t: nat, toff: nat, w: seq<Byte>, m: seq<Byte>, m': seq<Byte>)
    requires ValidAll(target, m) && PairwiseApart(target) && t < |target| && toff + |w| <= target[t].size
    requires m' == Splice(m, target[t].start + toff, w)
    ensures Before(SizesOf(target), t) + toff + |w| <= Total(target)
    ensures FlatView(target, m') == Splice(FlatView(target, m), Before(SizesOf(target), t) + toff, w)
  {
    var v, v' := Views(target, m), Views(target, m');
    assert |v| == |v'| == |target| && v[t] == target[t].Bytes(m);
    assert FlatView(target, m) == Prefix(v, |target|) && FlatView(target, m') == Prefix(v', |target|);
    assert |FlatView(target, m)| == Total(target);
    hide Splice, Before, SizesOf, Views, FlatView, Prefix;
    WriteUpdatesViews(target, t, toff, w, m);
    SpliceInBlock(v, t, toff, w, |target|);
  }

  /** Reading source buffer `s` from `soff` on reads the flat view of the source. */
  lemma ReadFlatView(source: seq<Buffer>, s: nat, soff: nat, k: nat, m: seq<Byte>)
    requires ValidAll(source, m) && s < |source| && soff + k <= source[s].size
    ensures Before(SizesOf(source), s) + soff + k <= Total(source)
    ensures m[source[s].start + soff..source[s].start + soff + k]
         == FlatView(source, m)[Before(SizesOf(source), s) + soff..Before(SizesOf(source), s) + soff + k]
  {
    hide Before, SizesOf;
    assert |FlatView(source, m)| == Total(source);
    RangeOfRange(m, source[s].start, source[s].start + source[s].size, soff, soff + k);
    RangeInBlock(Views(source, m), s, soff, soff + k);
  }

  /** Copying `k` more bytes after the first `n` copies the first `n + k`. */
  lemma SpliceExtends(t: seq<Byte>, s: seq<Byte>, n: nat, k: nat)
    requires n + k <= |t| && n + k <= |s|
    ensures Splice(s[..n] + t[n..], n, s[n..n + k]) == s[..n + k] + t[n + k..]
  {
  }

  /** One step of a copy loop. `n` bytes have been copied, ending `toff` bytes into target buffer
      `t` and `soff` bytes into source buffer `s`; moving `k` more bytes between those two buffers
      makes it `n + k`. */
  lemma CopyStep(target: seq<Buffer>, source: seq<Buffer>, n: nat, m: seq<Byte>, m': seq<Byte>,
                 t: nat, toff: nat, s: nat, soff: nat, k: nat, m'': seq<Byte>)
    requires Copyable(target, source, m) && Copied(target, source, n, m, m')
    requires t < |target| && toff + k <= target[t].size && n == Before(SizesOf(target), t) + toff
    requires s < |source| && soff + k <= source[s].size && n == Before(SizesOf(source), s) + soff
    requires m'' == Splice(m', target[t].start + toff, m'[source[s].start + soff..source[s].start + soff + k])
    ensures Copied(target, source, n + k, m, m'')
  {
    hide Splice, FlatView, Views, SizesOf, Before;
    var w := m'[source[s].start + soff..source[s].start + soff + k];
    SourceUnchanged(target, source, n, m, m');
    ReadFlatView(source, s, soff, k, m');
    assert FlatView(target, m'') == FlatView(source, m)[..n + k] + FlatView(target, m)[n + k..] by {
      WriteUpdatesFlatView(target, t, toff, w, m', m'');
      SpliceExtends(FlatView(target, m), FlatView(source, m), n, k);
    }
    forall i | 0 <= i < |m| && Uncovered(target, i) ensures m''[i] == m[i] {
      assert !target[t].Covers(i);
      WriteStaysInside(target[t], toff, w, m', i);
    }
  }

  /** `off` bytes into buffer `i`, or at the end, are `n` bytes from the start. */
  predicate Cursor(sizes: seq<nat>, i: nat, off: nat, n: nat) {
    && i <= |sizes|
    && (if i == |sizes| then off == 0 else off <= sizes[i])
    && n == Before(sizes, i) + off
  }

  lemma CursorBound(sizes: seq<nat>, i: nat, off: nat, n: nat)
    requires Cursor(sizes, i, off, n)
    ensures n <= Before(sizes, |sizes|)
    ensures i == |sizes| ==> n == Before(sizes, |sizes|)
  {
    BeforeMonotone(sizes, i + if i < |sizes| then 1 else 0, |sizes|);
  }

  // ---------- the forms of buffer_copy ----------

  /** `memcpy` */
  method MemCpy(mem: array<Byte>, to: nat, from: nat, n: nat)
    requires to + n <= mem.Length && from + n <= mem.Length
    requires to + n <= from || from + n <= to
    modifies mem
    ensures mem[..] == Splice(old(mem[..]), to, old(mem[from..from + n]))
  {
    forall i | 0 <= i < n {
      mem[to + i] := mem[from + i];
    }
  }

  /** `buffer_copy(target, source)` of single buffers. */
  method CopySingle(mem: array<Byte>, target: Buffer, source: Buffer) returns (n: nat)
    requires target.Valid(mem[..]) && source.Valid(mem[..]) && target.Apart(source)
    modifies mem
    ensures n == Min(target.size, source.size)
    ensures mem[..] == Splice(old(mem[..]), target.start, old(mem[source.start..source.start + n]))
  {
    n := if target.size < source.size then target.size else source.size;
    MemCpy(mem, target.start, source.start, n);
  }

  /** `buffer_copy(target, source, max)` of single buffers. */
  method CopySingleLimited(mem: array<Byte>, target: Buffer, source: Buffer, max: nat) returns (n: nat)
    requires target.Valid(mem[..]) && source.Valid(mem[..]) && target.Apart(source)
    modifies mem
    ensures n == Min(Min(target.size, source.size), max)
    ensures mem[..] == Splice(old(mem[..]), target.start, old(mem[source.start..source.start + n]))
  {
    n := CopySingle(mem, target.Limit(max), source);
  }

  /** Many source buffers to one target. */
  method CopyManyToOne(mem: array<Byte>, target: Buffer, source: seq<Buffer>) returns (total: nat)
    requires Copyable([target], source, mem[..])
    modifies mem
    ensures total == Min(target.size, Total(source))
    ensures Copied([target], source, total, old(mem[..]), mem[..])
  {
    hide Splice, FlatView, Copied, Views;
    total := 0;
    var s := 0;
    var rest := target;
    assert Before(SizesOf([target]), 1) == target.size;
    CopiedNothing([target], source, mem[..]);
    while rest.size != 0 && s != |source|
      invariant 0 <= s <= |source| && total <= target.size
      invariant rest == target.Plus(total)
      invariant if rest.size == 0 then total <= Before(SizesOf(source), s) else total == Before(SizesOf(source), s)
      invariant Copied([target], source, total, old(mem[..]), mem[..])
    {
      assert [target][0].Apart(source[s]);
      ghost var m' := mem[..];
      var k := CopySingle(mem, rest, source[s]);
      CopyStep([target], source, total, old(mem[..]), m', 0, total, s, 0, k, mem[..]);
      total := total + k;
      rest := rest.Plus(k);
      s := s + 1;
    }
    BeforeMonotone(SizesOf(source), s, |source|);
  }

  /** One source buffer to many targets. */
  method CopyOneToMany(mem: array<Byte>, target: seq<Buffer>, source: Buffer) returns (total: nat)
    requires Copyable(target, [source], mem[..])
    modifies mem
    ensures total == Min(Total(target), source.size)
    ensures Copied(target, [source], total, old(mem[..]), mem[..])
  {
    hide Splice, FlatView, Copied, Views;
    total := 0;
    var t := 0;
    var rest := source;
    assert Before(SizesOf([source]), 1) == source.size;
    CopiedNothing(target, [source], mem[..]);
    while rest.size != 0 && t != |target|
      invariant 0 <= t <= |target| && total <= source.size
      invariant rest == source.Plus(total)
      invariant if rest.size == 0 then total <= Before(SizesOf(target), t) else total == Before(SizesOf(target), t)
      invariant Copied(target, [source], total, old(mem[..]), mem[..])
    {
      assert target[t].Apart([source][0]);
      ghost var m' := mem[..];
      var k := CopySingle(mem, target[t], rest);
      CopyStep(target, [source], total, old(mem[..]), m', t, 0, 0, total, k, mem[..]);
      total := total + k;
      rest := rest.Plus(k);
      t := t + 1;
    }
    BeforeMonotone(SizesOf(target), t, |target|);
  }

  /** Many source buffers to many targets. */
  method CopyManyToMany(mem: array<Byte>, target: seq<Buffer>, source: seq<Buffer>) returns (total: nat)
    requires Copyable(target, source, mem[..])
    modifies mem
    ensures total == Min(Total(target), Total(source))
    ensures Copied(target, source, total, old(mem[..]), mem[..])
  {
    hide Splice, FlatView, Copied, Views;
    total := 0;
    var t: nat, toff: nat := 0, 0;
    var s: nat, soff: nat := 0, 0;
    CopiedNothing(target, source, mem[..]);
    while t != |target| && s != |source|
      invariant Cursor(SizesOf(target), t, toff, total)
      invariant Cursor(SizesOf(source), s, soff, total)
      invariant Copied(target, source, total, old(mem[..]), mem[..])
      decreases |target| - t + |source| - s
    {
      var targetBuffer := target[t].Plus(toff);
      var sourceBuffer := source[s].Plus(soff);
      assert target[t].Apart(source[s]);
      ghost var m' := mem[..];
      var k := CopySingle(mem, targetBuffer, sourceBuffer);
      CopyStep(target, source, total, old(mem[..]), m', t, toff, s, soff, k, mem[..]);
      total := total + k;
      if k == targetBuffer.size {
        t, toff := t + 1, 0;
      } else {
        toff := toff + k;
      }
      if k == sourceBuffer.size {
        s, soff := s + 1, 0;
      } else {
        soff := soff + k;
      }
    }
    CursorBound(SizesOf(target), t, toff, total);
    CursorBound(SizesOf(source), s, soff, total);
  }

  /** At most `max` bytes, many source buffers to many targets. Every iteration finishes a buffer
      or reaches the limit, so there are no more iterations than there are buffers. */
  method CopyManyToManyLimited(mem: array<Byte>, target: seq<Buffer>, source: seq<Buffer>, max: nat)
    returns (total: nat, ghost iterations: nat)
    requires Copyable(target, source, mem[..])
    modifies mem
    ensures total == Min(Min(Total(target), Total(source)), max)
    ensures Copied(target, source, total, old(mem[..]), mem[..])
    ensures iterations <= |target| + |source|
  {
    hide Splice, FlatView, Copied, Views;
    total, iterations := 0, 0;
    var t: nat, toff: nat := 0, 0;
    var s: nat, soff: nat := 0, 0;
    CopiedNothing(target, source, mem[..]);
    while total != max && t != |target| && s != |source|
      invariant Cursor(SizesOf(target), t, toff, total)
      invariant Cursor(SizesOf(source), s, soff, total)
      invariant total <= max
      invariant Copied(target, source, total, old(mem[..]), mem[..])
      invariant iterations <= t + s + (if total == max && t < |target| && s < |source| then 1 else 0)
      decreases |target| - t + |source| - s, max - total
    {
      var targetBuffer := target[t].Plus(toff);
      var sourceBuffer := source[s].Plus(soff);
      assert target[t].Apart(source[s]);
      ghost var m' := mem[..];
      var k := CopySingleLimited(mem, targetBuffer, sourceBuffer, max - total);
      CopyStep(target, source, total, old(mem[..]), m', t, toff, s, soff, k, mem[..]);
      total := total + k;
      if k == targetBuffer.size {
        t, toff := t + 1, 0;
      } else {
        toff := toff + k;
      }
      if k == sourceBuffer.size {
        s, soff := s + 1, 0;
      } else {
        soff := soff + k;
      }
      iterations := iterations + 1;
    }
    CursorBound(SizesOf(target), t, toff, total);
    CursorBound(SizesOf(source), s, soff, total);
  }
}
