/** Packets on the wire (npct/net/impl/JsonNetSession.tcc): four bytes of length, most significant
    first, and then the packet. The session reads whatever pieces the socket delivers and has to
    find the same packets however the stream is cut. */
module Framing {
  import opened Basics

  /** A byte, as the number it stands for. */
  type Octet = i: int | 0 <= i < 0x100

  const SIZE_HEADER_SIZE: nat := 4

  /** Whether `from_raw` makes a packet of these bytes, or throws. */
  type Parser = seq<Octet> -> bool

  /** `PacketBufferType`. `left` is `bytes_left`. */
  datatype State = State(awaitingData: bool, left: nat, total: nat, data: seq<Octet>)

  const FRESH := State(false, SIZE_HEADER_SIZE, 0, [])

  /** `ntoh` of the header. */
  function Length(header: seq<Octet>): nat
    requires |header| == SIZE_HEADER_SIZE
  {
    var a: int, b: int, c: int, d: int := header[0], header[1], header[2], header[3];
    a * 0x1000000 + b * 0x10000 + c * 0x100 + d
  }

  /** A packet is complete that does not parse. */
  predicate Stuck(parses: Parser, s: State) {
    s.awaitingData && s.left == 0 && !parses(s.data)
  }

  /** Only a packet of length 0 can be complete without having been emitted or having thrown. */
  predicate Valid(parses: Parser, s: State) {
    if s.awaitingData then s.left + |s.data| == s.total && (s.left == 0 ==> s.data == [] || Stuck(parses, s))
    else 0 < s.left && s.left + |s.data| == SIZE_HEADER_SIZE
  }

  /** What `commit` comes to. */
  datatype Outcome = Nothing | Packet(packet: seq<Octet>) | Throws

  /** A throw leaves everything as it was. */
  function Committed(parses: Parser, s: State): (State, Outcome)
    requires s.left == 0 && !s.awaitingData ==> |s.data| == SIZE_HEADER_SIZE
  {
    if s.left > 0 then (s, Nothing)
    else if s.awaitingData then (if parses(s.data) then (FRESH, Packet(s.data)) else (s, Throws))
    else (State(true, Length(s.data), Length(s.data), []), Nothing)
  }

  // ---------- a byte at a time ----------

  /** A packet buffer, what it has emitted, and whether it has thrown. */
  datatype Reader = Reader(state: State, emitted: seq<seq<Octet>>, thrown: bool) {

    /** A packet of length 0 that is complete comes out when the next byte arrives. */
    function Ripe(parses: Parser): Reader {
      if state.left == 0 && state.awaitingData && parses(state.data) then this.(state := FRESH, emitted := emitted + [state.data])
      else this
    }

    predicate Good(parses: Parser) {
      Valid(parses, state)
    }

    function After(committed: (State, Outcome)): Reader {
      match committed.1
      case Nothing => this.(state := committed.0)
      case Packet(packet) => this.(state := committed.0, emitted := emitted + [packet])
      case Throws => this.(state := committed.0, thrown := true)
    }
  }

  function Push(parses: Parser, r: Reader, b: Octet): (r': Reader)
    requires r.Good(parses)
    ensures r'.Good(parses)
  {
    if Stuck(parses, r.state) then r.(thrown := true)
    else
      var s := r.Ripe(parses).state;
      r.Ripe(parses).After(Committed(parses, s.(left := s.left - 1, data := s.data + [b])))
  }

  function Consume(parses: Parser, r: Reader, bytes: seq<Octet>): (r': Reader)
    requires r.Good(parses)
    ensures r'.Good(parses)
  {
    if bytes == [] then r else Push(parses, Consume(parses, r, bytes[..|bytes| - 1]), bytes[|bytes| - 1])
  }

  lemma {:induction false} ConsumeAppend(parses: Parser, r: Reader, a: seq<Octet>, b: seq<Octet>)
    requires r.Good(parses)
    ensures Consume(parses, r, a + b) == Consume(parses, Consume(parses, r, a), b)
    decreases |b|
  {
    hide Push;
    if b == [] {
      assert a + b == a;
    } else {
      assert (a + b)[..|a + b| - 1] == a + b[..|b| - 1];
      ConsumeAppend(parses, r, a, b[..|b| - 1]);
    }
  }

  lemma ConsumeCut(parses: Parser, r: Reader, bytes: seq<Octet>, a: nat, b: nat)
    requires r.Good(parses) && a <= b <= |bytes|
    ensures Consume(parses, r, bytes[..b]) == Consume(parses, Consume(parses, r, bytes[..a]), bytes[a..b])
  {
    hide Consume;
    ConsumeAppend(parses, r, bytes[..a], bytes[a..b]);
    assert bytes[..b] == bytes[..a] + bytes[a..b];
  }

  /** Feeding as many bytes as are wanted, or fewer, is feeding them one at a time. */
  lemma {:induction false} ConsumeWanted(parses: Parser, r: Reader, x: seq<Octet>)
    requires r.Good(parses) && 1 <= |x| <= r.state.left
    ensures Consume(parses, r, x)
         == r.After(Committed(parses, r.state.(left := r.state.left - |x|, data := r.state.data + x)))
    decreases |x|
  {
    var n := |x| - 1;
    var s := r.state;
    if n == 0 {
      assert Consume(parses, r, x[..0]) == r && x == [x[0]];
    } else {
      ConsumeWanted(parses, r, x[..n]);
      assert Consume(parses, r, x[..n]) == r.(state := s.(left := s.left - n, data := s.data + x[..n]));
      assert (s.data + x[..n]) + [x[n]] == s.data + x;
    }
  }

  lemma {:induction false} ConsumeRipe(parses: Parser, r: Reader, x: seq<Octet>)
    requires r.Good(parses) && x != []
    ensures Consume(parses, r.Ripe(parses), x) == Consume(parses, r, x)
    decreases |x|
  {
    if |x| > 1 {
      ConsumeRipe(parses, r, x[..|x| - 1]);
    } else {
      assert x[..0] == [];
    }
  }

  /** After a packet that does not parse nothing comes out any more, whatever arrives: every byte
      makes it throw again. */
  lemma {:induction false} StuckForEver(parses: Parser, r: Reader, bytes: seq<Octet>)
    requires r.Good(parses) && Stuck(parses, r.state)
    ensures Consume(parses, r, bytes) == if bytes == [] then r else r.(thrown := true)
  {
    if bytes != [] {
      StuckForEver(parses, r, bytes[..|bytes| - 1]);
    }
  }

  /** What one round of the read loop makes of a reader. */
  function Round(parses: Parser, r: Reader, x: seq<Octet>): Reader
    requires r.Good(parses) && |x| <= r.state.left
  {
    r.After(Committed(parses, r.state.(left := r.state.left - |x|, data := r.state.data + x)))
  }

  /** A round without a byte lets a packet of length 0 out, or throws. */
  lemma RoundOfNothing(parses: Parser, r: Reader)
    requires r.Good(parses) && r.state.left == 0
    ensures var r' := Round(parses, r, []);
            if Stuck(parses, r.state) then r' == r.(thrown := true)
            else r' == r.Ripe(parses) && r'.state.left > 0 && r'.thrown == r.thrown
  {
    assert r.state.data + [] == r.state.data;
  }

  lemma ThrowIsStuck(parses: Parser, r: Reader, x: seq<Octet>)
    requires r.Good(parses) && |x| <= r.state.left && !r.thrown
    ensures Round(parses, r, x).thrown ==> Stuck(parses, Round(parses, r, x).state)
  {
  }

  lemma RipeOnce(parses: Parser, r: Reader)
    requires r.Good(parses)
    ensures r.Ripe(parses).Good(parses) && r.Ripe(parses).Ripe(parses) == r.Ripe(parses)
    ensures Stuck(parses, r.Ripe(parses).state) ==> r.Ripe(parses) == r
  {
  }

  lemma RoundIsConsume(parses: Parser, r: Reader, x: seq<Octet>)
    requires r.Good(parses) && 1 <= |x| <= r.state.left
    ensures Round(parses, r, x) == Consume(parses, r, x)
  {
    ConsumeWanted(parses, r, x);
  }

  /** A round takes the bytes in, or else makes ripe what is there; if it throws, `rest` does not
      matter. */
  lemma RoundOnReader(parses: Parser, r: Reader, before: Reader, x: seq<Octet>, rest: seq<Octet>)
    requires r.Good(parses) && (before == r || before == r.Ripe(parses)) && before.Good(parses) && !before.thrown
    requires |x| <= before.state.left && (x == [] ==> before.state.left == 0 && rest != [])
    ensures var after := Round(parses, before, x);
            if after.thrown then after == Consume(parses, Consume(parses, r, x), rest)
            else if x != [] then after == Consume(parses, r, x)
            else after == r.Ripe(parses) && after.state.left > 0
  {
    RipeOnce(parses, r);
    assert Consume(parses, r, []) == r;
    hide *;
    if x == [] {
      RoundOfNothing(parses, before);
      if Stuck(parses, before.state) {
        StuckForEver(parses, before, rest);
      }
    } else {
      ConsumeRipe(parses, r, x);
      RoundIsConsume(parses, before, x);
      if Round(parses, before, x).thrown {
        ThrowIsStuck(parses, before, x);
        StuckForEver(parses, Round(parses, before, x), rest);
      }
    }
  }

  /** One round of the read loop. A throw ends it: then the rest of the chunk does not matter. */
  lemma LoopStep(parses: Parser, start: Reader, chunk: seq<Octet>, offset: nat, pushed: nat, before: Reader)
    requires start.Good(parses) && before.Good(parses) && !before.thrown && offset < |chunk|
    requires var r := Consume(parses, start, chunk[..offset]); before == r || before == r.Ripe(parses)
    requires pushed == Min(before.state.left, |chunk| - offset)
    ensures var after := Round(parses, before, chunk[offset..offset + pushed]);
            if after.thrown then after == Consume(parses, start, chunk)
            else if pushed > 0 then after == Consume(parses, start, chunk[..offset + pushed])
            else after == Consume(parses, start, chunk[..offset]).Ripe(parses) && after.state.left > 0
  {
    hide Push, Consume, Committed, Stuck, Round, Valid, Reader.Ripe;
    var r, end := Consume(parses, start, chunk[..offset]), offset + pushed;
    ConsumeCut(parses, start, chunk, offset, end);
    ConsumeCut(parses, start, chunk, end, |chunk|);
    assert chunk[..|chunk|] == chunk;
    RoundOnReader(parses, r, before, chunk[offset..end], chunk[end..|chunk|]);
  }

  // ---------- the cut does not matter ----------

  lemma {:induction false} EmittedAccumulates(parses: Parser, r: Reader, bytes: seq<Octet>)
    requires r.Good(parses)
    ensures var c := Consume(parses, Reader(r.state, [], false), bytes);
            Consume(parses, r, bytes) == Reader(c.state, r.emitted + c.emitted, r.thrown || c.thrown)
    decreases |bytes|
  {
    if bytes != [] {
      EmittedAccumulates(parses, r, bytes[..|bytes| - 1]);
    }
  }

  /** The packets that come out when the session reads one chunk after the other, and whether any
      of these reads throws. */
  function ReadChunks(parses: Parser, s: State, chunks: seq<seq<Octet>>): Reader
    requires Valid(parses, s)
    decreases |chunks|
  {
    if chunks == [] then Reader(s, [], false)
    else
      var first := Consume(parses, Reader(s, [], false), chunks[0]);
      var rest := ReadChunks(parses, first.state, chunks[1..]);
      Reader(rest.state, first.emitted + rest.emitted, first.thrown || rest.thrown)
  }

  function Joined(chunks: seq<seq<Octet>>): seq<Octet> {
    if chunks == [] then [] else chunks[0] + Joined(chunks[1..])
  }

  /** However the stream is cut, the session finds the same packets and ends in the same state, and
      it throws in one case exactly if it does in the other. */
  lemma {:induction false} CutDoesNotMatter(parses: Parser, s: State, chunks: seq<seq<Octet>>)
    requires Valid(parses, s)
    ensures ReadChunks(parses, s, chunks) == Consume(parses, Reader(s, [], false), Joined(chunks))
    decreases |chunks|
  {
    hide Push;
    if chunks != [] {
      var first := Consume(parses, Reader(s, [], false), chunks[0]);
      CutDoesNotMatter(parses, first.state, chunks[1..]);
      ConsumeAppend(parses, Reader(s, [], false), chunks[0], Joined(chunks[1..]));
      EmittedAccumulates(parses, first, Joined(chunks[1..]));
    }
  }

  // ---------- what was sent is what is found ----------

  predicate Sendable(packet: seq<Octet>) {
    |packet| < 0x1_0000_0000
  }

  function Header(n: nat): (h: seq<Octet>)
    requires n < 0x1_0000_0000
    ensures |h| == SIZE_HEADER_SIZE && Length(h) == n
  {
    var high, middle, low := n / 0x1000000, n / 0x10000, n / 0x100;
    assert n == low * 0x100 + n % 0x100 && low == middle * 0x100 + low % 0x100 && middle == high * 0x100 + middle % 0x100;
    [high, middle % 0x100, low % 0x100, n % 0x100]
  }

  function Framed(packets: seq<seq<Octet>>): seq<Octet>
    requires forall i :: 0 <= i < |packets| ==> Sendable(packets[i])
  {
    if packets == [] then []
    else
      var last := packets[|packets| - 1];
      assert Sendable(last);
      Framed(packets[..|packets| - 1]) + (Header(|last|) + last)
  }

  /** The first packet that does not parse, or the end. */
  function FirstBad(parses: Parser, packets: seq<seq<Octet>>): (n: nat)
    ensures n <= |packets| && (n < |packets| ==> !parses(packets[n]))
    ensures forall i :: 0 <= i < n ==> parses(packets[i])
    decreases |packets|
  {
    if packets == [] || !parses(packets[0]) then 0 else 1 + FirstBad(parses, packets[1..])
  }

  /** The place value of the header: each byte counts 256 times the next. */
  lemma HeaderPlaces(a: Octet, b: Octet, c: Octet, d: Octet)
    ensures Length([0, 0, 0, d]) == d
    ensures Length([a, b, c, d]) == 0x100 * Length([0, a, b, c]) + d
  {
  }

  lemma QuotientsOf(n: nat)
    ensures n / 0x100 / 0x100 == n / 0x10000 && n / 0x100 / 0x10000 == n / 0x1000000
    ensures n < 0x1_0000_0000 ==> n / 0x1000000 < 0x100
  {
  }

  /** And written: the last byte is the lowest digit to the base of 256, and the bytes before it are
      the last three of the header of the rest. */
  lemma HeaderOf(n: nat)
    requires n < 0x1_0000_0000
    ensures Header(n)[3] == n % 0x100 && Header(n)[..3] == Header(n / 0x100)[1..]
    ensures n < 0x100 ==> Header(n) == [0, 0, 0, n]
  {
    QuotientsOf(n);
    var h, h' := Header(n), Header(n / 0x100);
    assert h'[1] == h[0] && h'[2] == h[1] && h'[3] == h[2];
  }

  /** Between two packets: ready for a header, once a packet of length 0 has come out. */
  lemma ConsumeFrame(parses: Parser, r: Reader, packet: seq<Octet>)
    requires r.Good(parses) && r.Ripe(parses).state == FRESH && Sendable(packet)
    ensures var r', emitted := Consume(parses, r, Header(|packet|) + packet), r.Ripe(parses).emitted;
            if parses(packet) then
              && r'.Ripe(parses) == Reader(FRESH, emitted + [packet], r.thrown)
              && r'.emitted == (if packet == [] then emitted else emitted + [packet])
            else
              && Stuck(parses, r'.state) && r'.state.data == packet
              && r'.emitted == emitted && r'.thrown == (r.thrown || packet != [])
  {
    hide Push;
    var header := Header(|packet|);
    var r0 := r.Ripe(parses);
    ConsumeRipe(parses, r, header);
    ConsumeWanted(parses, r0, header);
    assert [] + header == header;
    var r1 := Consume(parses, r, header);
    assert r1 == Reader(State(true, |packet|, |packet|, []), r0.emitted, r.thrown);
    ConsumeAppend(parses, r, header, packet);
    if packet == [] {
      assert header + packet == header;
    } else {
      ConsumeWanted(parses, r1, packet);
      assert [] + packet == packet;
    }
  }

  /** The first `n` packets are found, and those after it are not, if there are any. */
  ghost predicate Found(parses: Parser, r: Reader, packets: seq<seq<Octet>>, n: nat)
    requires n <= |packets|
  {
    && r.Ripe(parses).emitted == packets[..n]
    && (r.emitted == packets <==> n == |packets| && (packets == [] || packets[n - 1] != []))
    && (n == |packets| ==> r.Ripe(parses).state == FRESH && !r.thrown)
    && (n < |packets| ==>
          && Stuck(parses, r.state) && r.state.data == packets[n] && r.emitted == packets[..n]
          && (r.thrown <==> packets[n] != [] || n + 1 < |packets|))
  }

  lemma FoundNext(parses: Parser, r: Reader, packets: seq<seq<Octet>>, last: seq<Octet>)
    requires r.Good(parses) && Found(parses, r, packets, |packets|) && Sendable(last)
    ensures Found(parses, Consume(parses, r, Header(|last|) + last), packets + [last],
                  if parses(last) then |packets| + 1 else |packets|)
  {
    hide Consume, Header;
    ConsumeFrame(parses, r, last);
    var all := packets + [last];
    assert all[..|packets|] == packets && all[..|packets| + 1] == all;
  }

  /** All packets come out, in order and unchanged, up to the first that does not parse, and none
      after it; except that a last one of length 0 stays inside until another byte arrives. */
  lemma {:induction false} FramesFound(parses: Parser, packets: seq<seq<Octet>>)
    requires forall i :: 0 <= i < |packets| ==> Sendable(packets[i])
    ensures Found(parses, Consume(parses, Reader(FRESH, [], false), Framed(packets)), packets, FirstBad(parses, packets))
    decreases |packets|
  {
    hide Push, Committed, Header;
    if packets != [] {
      var k := |packets| - 1;
      var last, start := packets[k], Reader(FRESH, [], false);
      var r, frame := Consume(parses, start, Framed(packets[..k])), Header(|last|) + last;
      FramesFound(parses, packets[..k]);
      FirstBadOfPrefix(parses, packets);
      ConsumeAppend(parses, start, Framed(packets[..k]), frame);
      assert packets == packets[..k] + [last];
      if FirstBad(parses, packets[..k]) < k {
        StuckForEver(parses, r, frame);
        assert packets[..k][..FirstBad(parses, packets[..k])] == packets[..FirstBad(parses, packets[..k])];
      } else {
        hide Found, Consume;
        FoundNext(parses, r, packets[..k], last);
      }
    }
  }

  lemma {:induction false} FirstBadOfPrefix(parses: Parser, packets: seq<seq<Octet>>)
    requires packets != []
    ensures var k := |packets| - 1;
            var n := FirstBad(parses, packets[..k]);
            FirstBad(parses, packets) == if n < k then n else if parses(packets[k]) then k + 1 else k
  {
    var k := |packets| - 1;
    var n, n' := FirstBad(parses, packets[..k]), FirstBad(parses, packets);
    assert forall i :: 0 <= i < n ==> packets[..k][i] == packets[i];
    assert n < k ==> packets[..k][n] == packets[n];
  }

  /** Two braces, with their length in front. */
  lemma BracesFound(parses: Parser)
    requires parses([0x7B, 0x7D])
    ensures Consume(parses, Reader(FRESH, [], false), [0, 0, 0, 2, 0x7B, 0x7D])
         == Reader(FRESH, [[0x7B, 0x7D]], false)
  {
    HeaderOf(2);
    ConsumeFrame(parses, Reader(FRESH, [], false), [0x7B, 0x7D]);
    assert Header(2) + [0x7B, 0x7D] == [0, 0, 0, 2, 0x7B, 0x7D];
  }

  /** A single packet of length 0 does not come out when it has arrived. */
  lemma EmptyPacketWaits(parses: Parser)
    requires parses([])
    ensures Sendable([]) && Consume(parses, Reader(FRESH, [], false), Framed([[]])).emitted == []
  {
    FramesFound(parses, [[]]);
    var r := Consume(parses, Reader(FRESH, [], false), Framed([[]]));
    assert FirstBad(parses, [[]]) == 1;
    assert r.Ripe(parses).emitted == [[]] && r.emitted != [[]];
  }

  // ---------- the packet buffer ----------

  class PacketBuffer {
    const parses: Parser
    var awaitingData: bool
    var bytesLeft: nat
    var totalBytes: nat
    var data: seq<Octet>

    ghost function View(): State
      reads this
    {
      State(awaitingData, bytesLeft, if awaitingData then totalBytes else 0, data)
    }

    constructor (parses: Parser)
      ensures View() == FRESH && this.parses == parses
    {
      this.parses := parses;
      awaitingData, bytesLeft, totalBytes, data := false, SIZE_HEADER_SIZE, 0, [];
    }

    method Feed(source: seq<Octet>) returns (pushed: nat)
      modifies this`bytesLeft, this`data
      ensures pushed == Min(old(bytesLeft), |source|)
      ensures View() == old(View()).(left := old(bytesLeft) - pushed, data := old(data) + source[..pushed])
    {
      pushed := Min(bytesLeft, |source|);
      bytesLeft := bytesLeft - pushed;
      data := data + source[..pushed];
    }

    method Commit() returns (outcome: Outcome)
      requires bytesLeft == 0 && !awaitingData ==> |data| == SIZE_HEADER_SIZE
      modifies this
      ensures (View(), outcome) == Committed(parses, old(View()))
    {
      outcome := Nothing;
      if bytesLeft == 0 {
        if !awaitingData {
          bytesLeft := Length(data);
          totalBytes := bytesLeft;
          awaitingData := true;
        } else {
          if !parses(data) {
            return Throws;
          }
          outcome := Packet(data);
          totalBytes, bytesLeft := SIZE_HEADER_SIZE, SIZE_HEADER_SIZE;
          awaitingData := false;
        }
        data := [];
      }
    }

    /** `handle_read_packet`, returning the packets that it emits and whether it throws. */
    method HandleReadPacket(chunk: seq<Octet>) returns (emitted: seq<seq<Octet>>, thrown: bool)
      requires Valid(parses, View())
      modifies this
      ensures Valid(parses, View())
      ensures Reader(View(), emitted, thrown) == Consume(parses, Reader(old(View()), [], false), chunk)
    {
      hide Push, Committed;
      emitted, thrown := [], false;
      var offset := 0;
      ghost var start := Reader(View(), [], false);
      assert chunk[..0] == [];
      while offset < |chunk|
        invariant 0 <= offset <= |chunk| && Valid(parses, View()) && !thrown
        invariant var r := Consume(parses, start, chunk[..offset]);
          || Reader(View(), emitted, false) == r
          || (offset < |chunk| && bytesLeft > 0 && Reader(View(), emitted, false) == r.Ripe(parses))
        decreases |chunk| - offset, if bytesLeft == 0 then 1 else 0
      {
        ghost var before := Reader(View(), emitted, false);
        var pushed := Feed(chunk[offset..]);
        var outcome := Commit();
        assert chunk[offset..][..pushed] == chunk[offset..offset + pushed];
        LoopStep(parses, start, chunk, offset, pushed, before);
        match outcome {
          case Throws =>
            thrown := true;
            return;
          case Packet(packet) =>
            emitted := emitted + [packet];
          case Nothing =>
        }
        offset := offset + pushed;
      }
      assert chunk[..offset] == chunk;
    }
  }
}
