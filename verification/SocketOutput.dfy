/** The output half of the socket stream buffer (include/asio/basic_socket_streambuf.hpp), in
    buffered mode: characters gather in a put area of 512 bytes, and a loop of sends, each of which
    may take only part of what is left, empties it. */
module SocketOutput {
  import opened Basics
  import opened Flat

  const BUFFER_SIZE: nat := 512

  // ---------- the network ----------

  /** What the environment does when a send is started: whether the deadline has expired before,
      and how the send ends. */
  datatype Turn = DeadlineExpired | SendFailed | Sent(n: nat)

  /** The outcome of the `call`-th send, of `size` bytes. */
  type Network = (nat, nat) -> Turn

  /** A send that succeeds takes at least one byte. */
  ghost predicate Fair(net: Network) {
    forall call, size {:trigger net(call, size)} :: net(call, size).Sent? && size > 0 ==> 1 <= net(call, size).n <= size
  }

  ghost predicate Reliable(net: Network) {
    forall call, size {:trigger net(call, size)} :: net(call, size).Sent?
  }

  /** How many bytes leave in a series of sends, whether all do, and how many sends it takes. */
  datatype Series = Series(sent: nat, ok: bool, sends: nat)

  /** How the sends go that flush `size` bytes, from the `call`-th on. */
  ghost function Flush(net: Network, call: nat, size: nat): (r: Series)
    requires Fair(net)
    ensures r.sent <= size && (r.ok <==> r.sent == size)
    ensures Reliable(net) ==> r.ok
    ensures !r.ok ==> (r.sent == 0 <==> !net(call, size).Sent?)
    ensures size == 0 ==> r.sends == 0
    decreases size
  {
    if size == 0 then Series(0, true, 0)
    else
      match net(call, size)
      case Sent(n) => Onward(n, 1, Flush(net, call + 1, size - n))
      case _ => Series(0, false, 1)
  }

  /** A series that goes on after `sends` sends of `sent` bytes in all. */
  ghost function Onward(sent: nat, sends: nat, rest: Series): Series {
    Series(sent + rest.sent, rest.ok, sends + rest.sends)
  }

  lemma FlushUnfolds(net: Network, call: nat, size: nat)
    requires Fair(net) && size > 0
    ensures match net(call, size)
            case Sent(n) => 1 <= n <= size && Flush(net, call, size) == Onward(n, 1, Flush(net, call + 1, size - n))
            case _ => Flush(net, call, size) == Series(0, false, 1)
  {
  }

  // ---------- what the operations do ----------

  /** The bytes that have left, those still in the put area, and how many sends there have been. */
  datatype Output = Output(wire: seq<Byte>, pending: seq<Byte>, calls: nat)

  /** `overflow`: the network decides how the flush goes. On success everything pending is on the
      wire and `c`, if any, is pending. On failure the first `sent` pending bytes are on the wire,
      and all of them are still pending. */
  ghost predicate FlushSpec(net: Network, o: Output, c: Option<Byte>, ok: bool, sent: nat, o': Output)
    requires Fair(net)
  {
    && o.calls <= o'.calls && Series(sent, ok, o'.calls - o.calls) == Flush(net, o.calls, |o.pending|)
    && o'.wire == o.wire + o.pending[..sent]
    && (ok ==> sent == |o.pending| && o'.pending == if c.Some? then [c.value] else [])
    && (!ok ==> sent < |o.pending| && o'.pending == o.pending)
  }

  /** `sputc`: the character goes into the put area, if there is room. */
  ghost predicate PutSpec(net: Network, o: Output, c: Byte, ok: bool, sent: nat, o': Output)
    requires Fair(net)
  {
    if |o.pending| < BUFFER_SIZE then ok && sent == 0 && o' == o.(pending := o.pending + [c])
    else FlushSpec(net, o, Some(c), ok, sent, o')
  }

  // ---------- whole runs ----------

  /** `sent` is the number of bytes that the operation put on the wire. */
  datatype Event = Put(c: Byte, ok: bool, sent: nat) | Sync(ok: bool, sent: nat)

  ghost predicate Step(net: Network, o: Output, e: Event, o': Output)
    requires Fair(net)
  {
    match e
    case Put(c, ok, sent) => PutSpec(net, o, c, ok, sent, o')
    case Sync(ok, sent) => FlushSpec(net, o, None, ok, sent, o')
  }

  datatype Run = Start(first: Output) | Then(before: Run, e: Event, now: Output) {
    function Last(): Output {
      if Start? then first else now
    }

    function First(): Output {
      if Start? then first else before.First()
    }

    function Length(): nat {
      if Start? then 0 else before.Length() + 1
    }

    predicate OnlyPuts() {
      Then? ==> before.OnlyPuts() && e.Put?
    }

    /** A run against `net`. */
    ghost predicate Valid(net: Network)
      requires Fair(net)
    {
      Then? ==> before.Valid(net) && Step(net, before.Last(), e, now)
    }

    /** Every operation that failed did so at its first send. */
    ghost predicate FailsAtOnce(net: Network) {
      Then? ==>
        before.FailsAtOnce(net) && (!e.ok ==> !net(before.Last().calls, |before.Last().pending|).Sent?)
    }

    /** All bytes the stream was given: those it had at the start and those it accepted since. */
    function Accepted(): seq<Byte> {
      if Start? then first.wire + first.pending
      else before.Accepted() + if e.Put? && e.ok then [e.c] else []
    }

    /** The bytes that failing operations have sent, which will be sent again. */
    function Resent(): nat {
      if Start? then 0 else before.Resent() + if e.ok then 0 else e.sent
    }

    /** The accepted bytes that have left the put area. */
    function Delivered(): seq<Byte> {
      if Start? then first.wire
      else before.Delivered() + if e.ok then before.Last().pending[..Min(e.sent, |before.Last().pending|)] else []
    }
  }

  /** No byte is lost or reordered: what was accepted is what left the put area for good, and then
      what is in it. */
  lemma {:induction false} AcceptedIsDeliveredOrPending(net: Network, run: Run)
    requires Fair(net) && run.Valid(net)
    ensures run.Accepted() == run.Delivered() + run.Last().pending
  {
    if run.Then? {
      AcceptedIsDeliveredOrPending(net, run.before);
      var o := run.before.Last();
      if run.e.ok {
        assert o.pending[..run.e.sent] == if run.e.sent == 0 then [] else o.pending;
      }
    }
  }

  /** Every byte on the wire is accounted for. */
  lemma {:induction false} WireLength(net: Network, run: Run)
    requires Fair(net) && run.Valid(net)
    ensures |run.Last().wire| == |run.Delivered()| + run.Resent()
  {
    if run.Then? {
      WireLength(net, run.before);
    }
  }

  lemma {:induction false} NothingResent(net: Network, run: Run)
    requires Fair(net) && run.Valid(net)
    ensures run.Resent() == 0 <==> run.FailsAtOnce(net)
    ensures run.Resent() == 0 ==> run.Last().wire == run.Delivered()
  {
    if run.Then? {
      NothingResent(net, run.before);
    }
  }

  /** Exactly once: what is on the wire followed by what is pending is what was accepted, exactly if
      every operation that failed did so at its first send. */
  lemma ExactlyOnce(net: Network, run: Run)
    requires Fair(net) && run.Valid(net)
    ensures run.Last().wire + run.Last().pending == run.Accepted() <==> run.FailsAtOnce(net)
  {
    AcceptedIsDeliveredOrPending(net, run);
    WireLength(net, run);
    NothingResent(net, run);
    if run.Resent() > 0 {
      assert |run.Last().wire + run.Last().pending| > |run.Accepted()|;
    }
  }

  /** After a successful `sync` all of it is on the wire, exactly under the same condition. */
  lemma SyncDelivers(net: Network, run: Run)
    requires Fair(net) && run.Valid(net) && run.Then? && run.e.Sync? && run.e.ok
    ensures run.Last().pending == [] && (run.Last().wire == run.Accepted() <==> run.FailsAtOnce(net))
  {
    ExactlyOnce(net, run);
  }

  lemma {:induction false} ReliableNeverFails(net: Network, run: Run)
    requires Fair(net) && Reliable(net) && run.Valid(net)
    ensures run.FailsAtOnce(net) && (run.Then? ==> run.e.ok)
  {
    if run.Then? {
      ReliableNeverFails(net, run.before);
    }
  }

  /** A network without failures, however short its sends: exactly once, after every operation. */
  lemma ReliableIsExactlyOnce(net: Network, run: Run)
    requires Fair(net) && Reliable(net) && run.Valid(net)
    ensures run.Last().wire + run.Last().pending == run.Accepted()
  {
    ReliableNeverFails(net, run);
    ExactlyOnce(net, run);
  }

  /** Up to 512 characters are accepted without anything being sent. */
  lemma {:induction false} PutsGather(net: Network, run: Run)
    requires Fair(net) && run.Valid(net) && run.OnlyPuts() && run.First() == Output([], [], 0)
    requires run.Length() <= 512
    ensures run.Last() == Output([], run.Accepted(), 0) && |run.Accepted()| == run.Length()
  {
    if run.Then? {
      PutsGather(net, run.before);
    }
  }

  /** The next character has them all sent first. */
  lemma FullAreaFlushes(net: Network, run: Run, c: Byte, ok: bool, sent: nat, now: Output)
    requires Fair(net) && run.Valid(net) && run.OnlyPuts() && run.First() == Output([], [], 0)
    requires run.Length() == 512 && Step(net, run.Last(), Put(c, ok, sent), now)
    ensures Series(sent, ok, now.calls) == Flush(net, 0, 512) && now.calls > 0
    ensures ok ==> now.wire == run.Accepted() && now.pending == [c]
    ensures |run.Accepted()| == 512 && sent <= 512
    ensures !ok ==> now.wire == run.Accepted()[..sent] && now.pending == run.Accepted()
  {
    PutsGather(net, run);
    FlushUnfolds(net, 0, 512);
  }

  /** The first send takes one byte and the second fails. */
  const HICCUP: Network := (call: nat, size: nat) =>
    if call == 0 then Sent(1) else if call == 1 then SendFailed else Sent(size)

  lemma HiccupSeries()
    ensures Fair(HICCUP) && !HICCUP(1, 1).Sent?
    ensures Flush(HICCUP, 0, 2) == Series(1, false, 2) && Flush(HICCUP, 2, 2) == Series(2, true, 1)
  {
    assert Fair(HICCUP);
    assert Flush(HICCUP, 3, 0) == Series(0, true, 0);
    assert Flush(HICCUP, 2, 2) == Onward(2, 1, Flush(HICCUP, 3, 0));
    assert Flush(HICCUP, 1, 1) == Series(0, false, 1);
    assert Flush(HICCUP, 0, 2) == Onward(1, 1, Flush(HICCUP, 1, 1));
  }

  /** Two characters, a `sync` that fails half-way, and another that succeeds: the first character is
      on the wire twice. */
  lemma HiccupSendsTwice() returns (run: Run)
    ensures Fair(HICCUP) && run.Valid(HICCUP) && !run.FailsAtOnce(HICCUP)
    ensures run.Accepted() == [7, 8] && run.Last() == Output([7, 7, 8], [], 3)
  {
    HiccupSeries();
    hide Flush, HICCUP;
    var o0, o1, o2 := Output([], [], 0), Output([], [7], 0), Output([], [7, 8], 0);
    var o3, o4 := Output([7], [7, 8], 2), Output([7, 7, 8], [], 3);
    assert FlushSpec(HICCUP, o2, None, false, 1, o3);
    assert FlushSpec(HICCUP, o3, None, true, 2, o4);
    run := Then(Then(Start(o0), Put(7, true, 0), o1), Put(8, true, 0), o2);
    assert run.Valid(HICCUP) && run.Accepted() == [7, 8];
    run := Then(Then(run, Sync(false, 1), o3), Sync(true, 2), o4);
    ExactlyOnce(HICCUP, run);
  }

  // ---------- at least once ----------

  /** `a` comes out of `b` by leaving bytes out: byte `i` of `a` is byte `at[i]` of `b`. */
  ghost predicate Within(at: seq<nat>, a: seq<Byte>, b: seq<Byte>) {
    && |at| == |a|
    && (forall i :: 0 <= i < |a| ==> at[i] < |b| && b[at[i]] == a[i])
    && (forall i, j :: 0 <= i < j < |a| ==> at[i] < at[j])
  }

  lemma WithinLonger(at: seq<nat>, a: seq<Byte>, b: seq<Byte>, c: seq<Byte>)
    requires Within(at, a, b)
    ensures Within(at, a, b + c)
  {
  }

  lemma WithinBoth(at: seq<nat>, a: seq<Byte>, b: seq<Byte>, c: seq<Byte>) returns (at': seq<nat>)
    requires Within(at, a, b)
    ensures Within(at', a + c, b + c)
  {
    at' := at + seq(|c|, i => |b| + i);
  }

  lemma WithinItself(a: seq<Byte>) returns (at: seq<nat>)
    ensures Within(at, a, a)
  {
    at := seq(|a|, i => i);
  }

  lemma {:induction false} DeliveredIsOnWire(net: Network, run: Run) returns (at: seq<nat>)
    requires Fair(net) && run.Valid(net)
    ensures Within(at, run.Delivered(), run.Last().wire)
  {
    hide Within;
    if run.Start? {
      at := WithinItself(run.first.wire);
    } else {
      at := DeliveredIsOnWire(net, run.before);
      var o := run.before.Last();
      var w := o.pending[..run.e.sent];
      if run.e.ok {
        at := WithinBoth(at, run.before.Delivered(), o.wire, w);
        assert run.now.wire == o.wire + w;
      } else {
        WithinLonger(at, run.before.Delivered(), o.wire, w);
        assert run.Delivered() == run.before.Delivered();
      }
    }
  }

  /** Whatever fails, and however often, every accepted byte is on the wire or pending, in order. */
  lemma AtLeastOnce(net: Network, run: Run) returns (at: seq<nat>)
    requires Fair(net) && run.Valid(net)
    ensures Within(at, run.Accepted(), run.Last().wire + run.Last().pending)
  {
    at := DeliveredIsOnWire(net, run);
    AcceptedIsDeliveredOrPending(net, run);
    at := WithinBoth(at, run.Delivered(), run.Last().wire, run.Last().pending);
  }

  // ---------- the stream buffer ----------

  class SocketStreambuf {
    const putBuffer: array<Byte>
    var pbase: nat
    var pptr: nat
    var epptr: nat
    var failed: bool             // ec_
    var bytesTransferred: nat
    var calls: nat               // sends so far
    ghost var wire: seq<Byte>

    ghost predicate Valid()
      reads this
    {
      && putBuffer.Length == BUFFER_SIZE
      && 0 == pbase <= pptr <= epptr == BUFFER_SIZE
    }

    ghost function View(): Output
      requires Valid()
      reads this, putBuffer
    {
      Output(wire, putBuffer[pbase..pptr], calls)
    }

    constructor ()
      ensures Valid() && fresh(putBuffer) && View() == Output([], [], 0)
    {
      putBuffer := new Byte[BUFFER_SIZE];
      pbase, pptr, epptr := 0, 0, BUFFER_SIZE;
      failed, bytesTransferred, calls, wire := false, 0, 0, [];
    }

    /** `init_buffers`, as at the end of `overflow`. */
    method Setp()
      requires putBuffer.Length == BUFFER_SIZE
      modifies this`pbase, this`pptr, this`epptr
      ensures Valid() && pptr == pbase
    {
      pbase, pptr, epptr := 0, 0, BUFFER_SIZE;
    }

    /** The test of the deadline, `async_send` of the bytes from `from` to `pptr`, and the wait for
        its handler. Nothing is sent once the deadline has expired. */
    method Send(net: Network, from: nat)
      requires Valid() && Fair(net) && pbase <= from < pptr
      modifies this`failed, this`bytesTransferred, this`calls, this`wire
      ensures calls == old(calls) + 1
      ensures failed <==> !net(old(calls), pptr - from).Sent?
      ensures failed ==> wire == old(wire)
      ensures !failed ==> net(old(calls), pptr - from) == Sent(bytesTransferred)
      ensures !failed ==> wire == old(wire) + putBuffer[from..from + bytesTransferred]
    {
      var turn := net(calls, pptr - from);
      calls := calls + 1;
      failed := !turn.Sent?;
      if turn.Sent? {
        bytesTransferred := turn.n;
        wire := wire + putBuffer[from..from + bytesTransferred];
      }
    }

    /** The loop of `overflow`: sends until nothing is left or a send fails. */
    method SendAll(net: Network) returns (ok: bool, ghost sent: nat)
      requires Valid() && Fair(net)
      modifies this`failed, this`bytesTransferred, this`calls, this`wire
      ensures calls >= old(calls)
      ensures Series(sent, ok, calls - old(calls)) == Flush(net, old(calls), pptr - pbase)
      ensures wire == old(wire) + putBuffer[pbase..pptr][..sent]
      ensures !ok ==> failed
    {
      hide Flush, Fair;
      var from := pbase;
      sent := 0;
      while pptr - from > 0
        invariant pbase <= from <= pptr && sent == from - pbase && calls >= old(calls)
        invariant wire == old(wire) + putBuffer[pbase..from]
        invariant Flush(net, old(calls), pptr - pbase) == Onward(sent, calls - old(calls), Flush(net, calls, pptr - from))
      {
        FlushUnfolds(net, calls, pptr - from);
        Send(net, from);
        if failed {
          return false, sent;
        }
        RangesJoin(putBuffer[..], pbase, from, from + bytesTransferred);
        from := from + bytesTransferred;
        sent := sent + bytesTransferred;
      }
      ok := true;
    }

    /** `None` is `eof`. */
    method Overflow(net: Network, c: Option<Byte>) returns (ok: bool, ghost sent: nat)
      requires Valid() && Fair(net)
      modifies this, putBuffer
      ensures Valid() && FlushSpec(net, old(View()), c, ok, sent, View())
      ensures !ok ==> failed
    {
      ok, sent := SendAll(net);
      if !ok {
        return;
      }
      Setp();
      if c.Some? {
        putBuffer[pptr] := c.value;
        pptr := pptr + 1;
      }
    }

    method Sync(net: Network) returns (ok: bool, ghost sent: nat)
      requires Valid() && Fair(net)
      modifies this, putBuffer
      ensures Valid() && FlushSpec(net, old(View()), None, ok, sent, View())
    {
      ok, sent := Overflow(net, None);
    }

    /** `sputc` of `std::streambuf`. */
    method Sputc(net: Network, c: Byte) returns (ok: bool, ghost sent: nat)
      requires Valid() && Fair(net)
      modifies this, putBuffer
      ensures Valid() && PutSpec(net, old(View()), c, ok, sent, View())
    {
      if pptr < epptr {
        putBuffer[pptr] := c;
        pptr := pptr + 1;
        ok, sent := true, 0;
      } else {
        ok, sent := Overflow(net, Some(c));
      }
    }
  }
}
