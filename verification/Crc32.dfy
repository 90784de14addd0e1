/** The server's checksum (npct/coders/impl/algo/crc32/CRC32Coder.cc): CRC-32 a byte at a time with
    a table of 256 entries, which has to come to the same as the division bit by bit. */
module Crc32 {
  import opened Basics
  import opened Polynomials

  type Word = bv32

  const POLYNOMIAL: Word := 0xEDB88320
  const ONES: Word := 0xFFFFFFFF

  // ---------- words ----------

  function Xor(a: Word, b: Word): Word { a ^ b }
  function Half(a: Word): Word { a >> 1 }
  predicate Odd(a: Word) { a & 1 != 0 }
  function Upper(a: Word): Word { a >> 8 }
  function Low(a: Word): Byte { (a & 0xFF) as Byte }
  function Widen(b: Byte): Word { b as Word }

  lemma XorAssociates(a: Word, b: Word, c: Word)
    ensures Xor(Xor(a, b), c) == Xor(a, Xor(b, c))
  {
  }

  lemma XorCommutes(a: Word, b: Word)
    ensures Xor(a, b) == Xor(b, a)
  {
  }

  lemma XorCancels(a: Word, b: Word)
    ensures Xor(Xor(a, b), b) == a
  {
  }

  lemma HalfXor(a: Word, b: Word)
    ensures Half(Xor(a, b)) == Xor(Half(a), Half(b))
  {
  }

  lemma OddXor(a: Word, b: Word)
    requires !Odd(b)
    ensures Odd(Xor(a, b)) == Odd(a)
  {
  }

  // ---------- the shift register ----------

  function Shift(c: Word): Word {
    if Odd(c) then Xor(Half(c), POLYNOMIAL) else Half(c)
  }

  function Shifts(c: Word, n: nat): Word
    decreases n
  {
    if n == 0 then c else Shifts(Shift(c), n - 1)
  }

  /** The register after the message, eight shifts to a byte. */
  function Register(c: Word, message: seq<Byte>): Word {
    if message == [] then c
    else Shifts(Xor(Register(c, message[..|message| - 1]), Widen(message[|message| - 1])), 8)
  }

  function Checksum(message: seq<Byte>): Word {
    Xor(Register(ONES, message), ONES)
  }

  // ---------- one table look-up for eight shifts ----------

  /** The lowest `n` bits of `h` are 0. */
  predicate Clear(h: Word, n: nat)
    decreases n
  {
    n == 0 || (!Odd(h) && Clear(Half(h), n - 1))
  }

  function Down(h: Word, n: nat): Word
    decreases n
  {
    if n == 0 then h else Down(Half(h), n - 1)
  }

  lemma ShiftSplits(c: Word, h: Word)
    requires !Odd(h)
    ensures Shift(Xor(c, h)) == Xor(Shift(c), Half(h))
  {
    hide Xor, Half, Odd;
    OddXor(c, h);
    HalfXor(c, h);
    XorAssociates(Half(c), Half(h), POLYNOMIAL);
    XorCommutes(Half(h), POLYNOMIAL);
    XorAssociates(Half(c), POLYNOMIAL, Half(h));
  }

  /** Bits of `h` above the lowest `n` only travel; within `n` shifts they do not feed back. */
  lemma {:induction false} ShiftsSplit(c: Word, h: Word, n: nat)
    requires Clear(h, n)
    ensures Shifts(Xor(c, h), n) == Xor(Shifts(c, n), Down(h, n))
    decreases n
  {
    hide Xor, Half, Odd, Shift;
    if n > 0 {
      ShiftSplits(c, h);
      ShiftsSplit(Shift(c), Half(h), n - 1);
    }
  }

  function High(a: Word): Word { a & 0xFFFFFF00 }

  lemma LowAndHigh(a: Word)
    ensures Xor(Widen(Low(a)), High(a)) == a
  {
  }

  lemma UpperOfHigh(a: Word)
    ensures Half(Half(Half(Half(Half(Half(Half(Half(High(a))))))))) == Upper(a)
  {
  }

  lemma HighBits0To3(a: Word)
    ensures !Odd(High(a)) && !Odd(Half(High(a))) && !Odd(Half(Half(High(a)))) && !Odd(Half(Half(Half(High(a)))))
  {
  }

  lemma HighBits4To7(a: Word, h: Word)
    requires h == Half(Half(Half(Half(High(a)))))
    ensures !Odd(h) && !Odd(Half(h)) && !Odd(Half(Half(h))) && !Odd(Half(Half(Half(h))))
  {
  }

  lemma HighIsClear(a: Word)
    ensures Clear(High(a), 8) && Down(High(a), 8) == Upper(a)
  {
    var h := Half(Half(Half(Half(High(a)))));
    HighBits0To3(a);
    HighBits4To7(a, h);
    UpperOfHigh(a);
    hide Half, Odd, High, Upper;
    ClearFour(High(a), 4);
    ClearFour(h, 0);
  }

  lemma ClearFour(h: Word, n: nat)
    requires !Odd(h) && !Odd(Half(h)) && !Odd(Half(Half(h))) && !Odd(Half(Half(Half(h))))
    ensures Clear(h, 4 + n) == Clear(Half(Half(Half(Half(h)))), n)
    ensures Down(h, 4 + n) == Down(Half(Half(Half(Half(h)))), n)
  {
    hide Half, Odd;
    var h1 := Half(h); var h2 := Half(h1); var h3 := Half(h2);
    assert Clear(h2, 2 + n) == Clear(h3, 1 + n);
    assert Down(h2, 2 + n) == Down(h3, 1 + n) && Down(h1, 3 + n) == Down(h2, 2 + n);
  }

  /** The entry for byte `i`. */
  function Entry(i: Byte): Word {
    Shifts(Widen(i), 8)
  }

  /** One table look-up does what eight shifts do. */
  lemma TableStep(c: Word)
    ensures Shifts(c, 8) == Xor(Entry(Low(c)), Upper(c))
  {
    hide Xor, High, Low, Upper, Widen, Shifts, Clear, Down;
    HighIsClear(c);
    LowAndHigh(c);
    ShiftsSplit(Widen(Low(c)), High(c), 8);
  }

  lemma UpperUnchanged(c: Word, b: Byte)
    ensures Upper(Xor(c, Widen(b))) == Upper(c)
  {
  }

  lemma {:induction false} ShiftsAdd(c: Word, m: nat, n: nat)
    ensures Shifts(c, m + n) == Shifts(Shifts(c, m), n)
    decreases m
  {
    hide Shift;
    if m > 0 {
      ShiftsAdd(Shift(c), m - 1, n);
    }
  }

  // ---------- the checksum ----------

  lemma ByteOfInt(i: nat, b: Byte)
    requires i < 256 && b as int == i
    ensures b == i as Byte
  {
  }

  method Table() returns (table: array<Word>)
    ensures table.Length == 256
    ensures forall b: Byte {:trigger Entry(b)} :: table[b as int] == Entry(b)
  {
    hide Shift, Xor, Widen;
    table := new Word[256];
    for i := 0 to 256
      invariant forall b: Byte {:trigger Entry(b)} :: b as int < i ==> table[b as int] == Entry(b)
    {
      ghost var byte := i as Byte;
      var crc := Widen(i as Byte);
      for j := 0 to 8
        invariant crc == Shifts(Widen(byte), j)
        invariant forall b: Byte {:trigger Entry(b)} :: b as int < i ==> table[b as int] == Entry(b)
      {
        ShiftsAdd(Widen(byte), j, 1);
        assert Shifts(crc, 1) == Shifts(Shift(crc), 0);
        crc := Shift(crc);
      }
      table[i] := crc;
      forall b: Byte | b as int <= i ensures table[b as int] == Entry(b) {
        if b as int == i {
          ByteOfInt(i, b);
        }
      }
    }
  }

  /** `algo` */
  method Algo(buf: seq<Byte>) returns (crc: Word)
    ensures crc == Checksum(buf)
  {
    hide Shifts, Xor, Upper, Low, Widen, Entry;
    var table := Table();
    crc := ONES;
    var s := |buf| - 1;
    var next := 0;
    assert buf[..0] == [];
    while s != -1
      invariant -1 <= s < |buf| && next == |buf| - 1 - s
      invariant crc == Register(ONES, buf[..next])
      invariant forall b: Byte {:trigger Entry(b)} :: table[b as int] == Entry(b)
      decreases s
    {
      s := s - 1;
      ghost var done := buf[..next + 1];
      assert done[..|done| - 1] == buf[..next] && done[|done| - 1] == buf[next];
      var mixed := Xor(crc, Widen(buf[next]));
      TableStep(mixed);
      UpperUnchanged(crc, buf[next]);
      crc := Xor(table[Low(mixed) as int], Upper(crc));
      next := next + 1;
    }
    assert buf[..next] == buf;
    crc := Xor(crc, ONES);
  }

  // ---------- what the checksum detects ----------

  lemma ShiftInjective(a: Word, b: Word)
    requires Shift(a) == Shift(b)
    ensures a == b
  {
  }

  lemma {:induction false} ShiftsInjective(a: Word, b: Word, n: nat)
    requires Shifts(a, n) == Shifts(b, n)
    ensures a == b
    decreases n
  {
    hide Shift;
    if n > 0 {
      ShiftsInjective(Shift(a), Shift(b), n - 1);
      ShiftInjective(a, b);
    }
  }

  lemma XorInjective(a: Word, b: Word, c: Word)
    requires Xor(a, c) == Xor(b, c)
    ensures a == b
  {
    hide Xor;
    XorCancels(a, c);
    XorCancels(b, c);
  }

  // ---------- bit by bit ----------

  function Unit(bit: bool): Word { if bit then 1 else 0 }
  function Double(a: Word): Word { a << 1 }

  /** The register after a sequence of bits, one shift to a bit. */
  function Feed(c: Word, bits: seq<bool>): Word {
    if bits == [] then c
    else Shift(Xor(Feed(c, bits[..|bits| - 1]), Unit(bits[|bits| - 1])))
  }

  /** The bits of a byte in the order in which they are shifted out, lowest first. */
  function ByteBits(b: Byte): (r: seq<bool>)
    ensures |r| == 8
  {
    [b & 1 != 0, b & 2 != 0, b & 4 != 0, b & 8 != 0, b & 16 != 0, b & 32 != 0, b & 64 != 0, b & 128 != 0]
  }

  function BitsOf(message: seq<Byte>): (r: seq<bool>)
    ensures |r| == 8 * |message|
  {
    if message == [] then [] else BitsOf(message[..|message| - 1]) + ByteBits(message[|message| - 1])
  }

  /** Up to 32 bits as one word, the first bit lowest. */
  function WordOf(bits: seq<bool>): Word {
    if bits == [] then 0 else Xor(Unit(bits[0]), Double(WordOf(bits[1..])))
  }

  lemma {:induction false} FeedAppend(c: Word, m: seq<bool>, n: seq<bool>)
    ensures Feed(c, m + n) == Feed(Feed(c, m), n)
    decreases |n|
  {
    hide Shift, Xor, Unit;
    if n == [] {
      assert m + n == m;
    } else {
      var k := |n| - 1;
      assert (m + n)[..|m + n| - 1] == m + n[..k];
      FeedAppend(c, m, n[..k]);
    }
  }

  /** Once two registers differ, no common continuation makes them equal again. */
  lemma {:induction false} FeedInjective(a: Word, b: Word, bits: seq<bool>)
    requires Feed(a, bits) == Feed(b, bits)
    ensures a == b
    decreases |bits|
  {
    hide Shift, Xor, Unit;
    if bits != [] {
      var n := |bits| - 1;
      var ra, rb := Feed(a, bits[..n]), Feed(b, bits[..n]);
      ShiftInjective(Xor(ra, Unit(bits[n])), Xor(rb, Unit(bits[n])));
      XorInjective(ra, rb, Unit(bits[n]));
      FeedInjective(a, b, bits[..n]);
    }
  }

  // ---------- a window of bits as one word ----------

  lemma {:induction false} DownAdds(a: Word, m: nat, n: nat)
    ensures Down(a, m + n) == Down(Down(a, m), n)
    decreases m
  {
    hide Half;
    if m > 0 {
      DownAdds(Half(a), m - 1, n);
    }
  }

  lemma {:induction false} DownZero(n: nat)
    ensures Down(0, n) == 0
  {
    if n > 0 {
      DownZero(n - 1);
    }
  }

  lemma UpperHalves(a: Word)
    ensures Half(Half(Half(Half(Half(Half(Half(Half(a)))))))) == Upper(a)
  {
  }

  lemma DownEight(a: Word)
    ensures Down(a, 8) == Upper(a)
  {
    UpperHalves(a);
    hide Half, Upper;
    var h := Half(Half(Half(Half(a))));
    DownFour(a);
    DownFour(h);
    DownAdds(a, 4, 4);
  }

  lemma DownFour(a: Word)
    ensures Down(a, 4) == Half(Half(Half(Half(a))))
  {
    hide Half;
    var h1 := Half(a); var h2 := Half(h1);
    assert Down(h2, 2) == Down(Half(h2), 1) == Down(Half(Half(h2)), 0);
  }

  lemma UppersAndHalves(a: Word)
    requires Half(Half(Half(Half(Half(Half(Half(Upper(Upper(Upper(a)))))))))) == 0
    ensures a <= 0x7FFFFFFF
  {
  }

  lemma DownSeven(a: Word)
    ensures Down(a, 7) == Half(Half(Half(Half(Half(Half(Half(a)))))))
  {
    hide Half;
    DownFour(a);
    DownAdds(a, 4, 3);
    var h := Half(Half(Half(Half(a))));
    assert Down(h, 3) == Down(Half(h), 2) == Down(Half(Half(h)), 1) == Down(Half(Half(Half(h))), 0);
  }

  lemma TopIsLast(a: Word)
    requires Down(a, 31) == 0
    ensures a <= 0x7FFFFFFF
  {
    hide Half, Upper, Down;
    DownAdds(a, 8, 23);
    DownEight(a);
    DownAdds(Upper(a), 8, 15);
    DownEight(Upper(a));
    DownAdds(Upper(Upper(a)), 8, 7);
    DownEight(Upper(Upper(a)));
    DownSeven(Upper(Upper(Upper(a))));
    UppersAndHalves(a);
  }

  lemma HalfOfDouble(a: Word)
    requires a <= 0x7FFFFFFF
    ensures Half(Double(a)) == a
  {
  }

  lemma DoubleIsEven(bit: bool, a: Word)
    ensures !Odd(Double(a)) && Odd(Xor(Unit(bit), Double(a))) == bit
  {
  }

  lemma HalfIgnoresUnit(bit: bool, a: Word)
    ensures Half(Xor(Unit(bit), a)) == Half(a)
  {
  }

  /** The word of some bits with one bit before them: nothing is lost on the left. */
  lemma DoubleLosesNothing(bit: bool, a: Word)
    requires a <= 0x7FFFFFFF
    ensures Half(Double(a)) == a && !Odd(Double(a))
    ensures Half(Xor(Unit(bit), Double(a))) == a && Odd(Xor(Unit(bit), Double(a))) == bit
  {
    hide Half, Double, Odd, Xor, Unit;
    HalfOfDouble(a);
    DoubleIsEven(bit, a);
    HalfIgnoresUnit(bit, Double(a));
  }

  lemma {:induction false} WordIsNarrow(bits: seq<bool>)
    requires |bits| <= 32
    ensures Down(WordOf(bits), |bits|) == 0
    ensures |bits| <= 31 ==> WordOf(bits) <= 0x7FFFFFFF
  {
    hide Half, Xor, Unit, Double, Odd;
    if bits != [] {
      WordIsNarrow(bits[1..]);
      DoubleLosesNothing(bits[0], WordOf(bits[1..]));
    }
    if |bits| <= 31 {
      DownAdds(WordOf(bits), |bits|, 31 - |bits|);
      DownZero(31 - |bits|);
      TopIsLast(WordOf(bits));
    }
  }

  lemma {:induction false} WordInjective(x: seq<bool>, y: seq<bool>)
    requires |x| == |y| <= 32 && WordOf(x) == WordOf(y)
    ensures x == y
  {
    hide Half, Xor, Unit, Double, Odd;
    if x != [] {
      WordIsNarrow(x[1..]);
      WordIsNarrow(y[1..]);
      DoubleLosesNothing(x[0], WordOf(x[1..]));
      DoubleLosesNothing(y[0], WordOf(y[1..]));
      WordInjective(x[1..], y[1..]);
      assert x == [x[0]] + x[1..] && y == [y[0]] + y[1..];
    }
  }

  /** Up to 32 bits go into the register as one word. */
  lemma {:induction false} FeedOfWord(c: Word, bits: seq<bool>)
    requires |bits| <= 32
    ensures Feed(c, bits) == Shifts(Xor(c, WordOf(bits)), |bits|)
    decreases |bits|
  {
    hide Xor, Unit, Double, Half, Odd, Shift;
    if bits == [] {
      XorZero(c);
    } else {
      var rest := WordOf(bits[1..]);
      var first := Xor(c, Unit(bits[0]));
      WordIsNarrow(bits[1..]);
      DoubleLosesNothing(bits[0], rest);
      assert bits == [bits[0]] + bits[1..];
      FeedAppend(c, [bits[0]], bits[1..]);
      FeedOne(c, bits[0]);
      FeedOfWord(Shift(first), bits[1..]);
      ShiftSplits(first, Double(rest));
      XorAssociates(c, Unit(bits[0]), Double(rest));
    }
  }

  lemma XorZero(c: Word)
    ensures Xor(c, 0) == c
  {
  }

  lemma FeedOne(c: Word, bit: bool)
    ensures Feed(c, [bit]) == Shift(Xor(c, Unit(bit)))
  {
    assert [bit][..0] == [];
  }

  lemma EightUnits(b: Byte)
    ensures Xor(Unit(b & 1 != 0), Double(Xor(Unit(b & 2 != 0), Double(Xor(Unit(b & 4 != 0), Double(Xor(
              Unit(b & 8 != 0), Double(Xor(Unit(b & 16 != 0), Double(Xor(Unit(b & 32 != 0), Double(Xor(
              Unit(b & 64 != 0), Double(Xor(Unit(b & 128 != 0), Double(0)))))))))))))))) == Widen(b)
  {
  }

  lemma WordOfFour(bits: seq<bool>)
    requires |bits| >= 4
    ensures WordOf(bits) == Xor(Unit(bits[0]), Double(Xor(Unit(bits[1]), Double(Xor(
                              Unit(bits[2]), Double(Xor(Unit(bits[3]), Double(WordOf(bits[4..])))))))))
  {
    hide Xor, Unit, Double;
    assert bits[1..][1..] == bits[2..] && bits[2..][1..] == bits[3..] && bits[3..][1..] == bits[4..];
  }

  lemma WordOfByte(b: Byte)
    ensures WordOf(ByteBits(b)) == Widen(b)
  {
    EightUnits(b);
    hide Xor, Unit, Double, Widen;
    var bits := ByteBits(b);
    WordOfFour(bits);
    WordOfFour(bits[4..]);
    assert bits[4..][4..] == [];
  }

  /** A message is fed bit by bit, the lowest bit of each byte first. */
  lemma {:induction false} RegisterIsFeed(c: Word, message: seq<Byte>)
    ensures Register(c, message) == Feed(c, BitsOf(message))
  {
    hide Xor, Widen, Shifts, ByteBits, Feed, WordOf;
    if message == [] {
      FeedNone(c);
    } else {
      var n := |message| - 1;
      RegisterIsFeed(c, message[..n]);
      FeedAppend(c, BitsOf(message[..n]), ByteBits(message[n]));
      FeedOfWord(Feed(c, BitsOf(message[..n])), ByteBits(message[n]));
      WordOfByte(message[n]);
    }
  }

  lemma FeedNone(c: Word)
    ensures Feed(c, []) == c
  {
  }

  lemma ByteBitsInjective(a: Byte, b: Byte)
    requires ByteBits(a) == ByteBits(b)
    ensures a == b
  {
  }

  lemma {:induction false} BitsInjective(x: seq<Byte>, y: seq<Byte>)
    requires |x| == |y| && BitsOf(x) == BitsOf(y)
    ensures x == y
  {
    hide ByteBits;
    if x != [] {
      var n := |x| - 1;
      assert BitsOf(x)[..8 * n] == BitsOf(x[..n]) && BitsOf(y)[..8 * n] == BitsOf(y[..n]);
      assert BitsOf(x)[8 * n..] == ByteBits(x[n]) && BitsOf(y)[8 * n..] == ByteBits(y[n]);
      BitsInjective(x[..n], y[..n]);
      ByteBitsInjective(x[n], y[n]);
      assert x == x[..n] + [x[n]] && y == y[..n] + [y[n]];
    }
  }

  /** The bits of `x` and `y` differ only within 32 places from `s` on. */
  ghost predicate BurstAt(x: seq<bool>, y: seq<bool>, s: nat)
    requires |x| == |y|
  {
    forall p :: 0 <= p < |x| && x[p] != y[p] ==> s <= p < s + 32
  }

  lemma WindowInjective(r: Word, x: seq<bool>, y: seq<bool>)
    requires |x| == |y| <= 32 && Feed(r, x) == Feed(r, y)
    ensures x == y
  {
    hide Shifts, Xor, WordOf, Feed;
    FeedOfWord(r, x);
    FeedOfWord(r, y);
    ShiftsInjective(Xor(r, WordOf(x)), Xor(r, WordOf(y)), |x|);
    XorCommutes(r, WordOf(x));
    XorCommutes(r, WordOf(y));
    XorInjective(WordOf(x), WordOf(y), r);
    WordInjective(x, y);
  }

  lemma BurstChangesRegister(c: Word, x: seq<bool>, y: seq<bool>, s: nat)
    requires |x| == |y| && x != y && BurstAt(x, y, s)
    ensures Feed(c, x) != Feed(c, y)
  {
    hide Shifts, Xor, WordOf, Feed;
    var lo, hi := Min(s, |x|), Min(s + 32, |x|);
    var before, wx, wy, after := x[..lo], x[lo..hi], y[lo..hi], x[hi..];
    assert x == before + wx + after && y == before + wy + after;
    FeedAppend(c, before + wx, after);
    FeedAppend(c, before + wy, after);
    FeedAppend(c, before, wx);
    FeedAppend(c, before, wy);
    if Feed(c, x) == Feed(c, y) {
      var r := Feed(c, before);
      FeedInjective(Feed(r, wx), Feed(r, wy), after);
      WindowInjective(r, wx, wy);
    }
  }

  /** Every error within 32 consecutive bits, wherever they begin, changes the checksum. */
  lemma BurstDetected(x: seq<Byte>, y: seq<Byte>, s: nat)
    requires |x| == |y| && x != y && BurstAt(BitsOf(x), BitsOf(y), s)
    ensures Checksum(x) != Checksum(y)
  {
    hide Register, Feed, Xor, BitsOf, BurstAt;
    if BitsOf(x) == BitsOf(y) {
      BitsInjective(x, y);
    }
    BurstChangesRegister(ONES, BitsOf(x), BitsOf(y), s);
    RegisterIsFeed(ONES, x);
    RegisterIsFeed(ONES, y);
    if Checksum(x) == Checksum(y) {
      XorInjective(Register(ONES, x), Register(ONES, y), ONES);
    }
  }

  // ---------- what the checksum is ----------

  /** The generator, of degree 32. */
  const GENERATOR: Poly := {32, 26, 23, 22, 16, 12, 11, 10, 8, 7, 5, 4, 2, 1, 0}

  predicate BitAt(a: Word, i: nat) {
    Odd(Down(a, i))
  }

  predicate HasPower(a: Word, e: nat)
    requires e < 32
  {
    BitAt(a, 31 - e)
  }

  /** A register as a polynomial: its lowest bit is the coefficient of the highest power. */
  function PolyOf(a: Word): (r: Poly)
    ensures Below(r, 32)
  {
    set e: nat | e < 32 && HasPower(a, e)
  }

  predicate InDividend(bits: seq<bool>, e: nat) {
    e < |bits| + 32 && (e >= 32 && bits[|bits| + 31 - e]) != (e >= |bits|)
  }

  /** What is divided: the bits, the first with the highest power, and 32 zeros after them; then the
      first 32 coefficients of it all are complemented. */
  function Dividend(bits: seq<bool>): Poly {
    set e: nat | e < |bits| + 32 && InDividend(bits, e)
  }

  lemma DividendNext(bits: seq<bool>)
    requires bits != []
    ensures Dividend(bits) == Sum(X(Dividend(bits[..|bits| - 1])), If(bits[|bits| - 1], {32}))
  {
  }

  lemma BitOfXor(a: Word, b: Word)
    ensures Odd(Xor(a, b)) == (Odd(a) != Odd(b))
  {
  }

  lemma {:induction false} BitAtXor(a: Word, b: Word, i: nat)
    ensures BitAt(Xor(a, b), i) == (BitAt(a, i) != BitAt(b, i))
    decreases i
  {
    hide Xor, Half, Odd;
    if i == 0 {
      BitOfXor(a, b);
    } else {
      HalfXor(a, b);
      BitAtXor(Half(a), Half(b), i - 1);
    }
  }

  lemma PolyOfXor(a: Word, b: Word)
    ensures PolyOf(Xor(a, b)) == Sum(PolyOf(a), PolyOf(b))
  {
    hide BitAt, Xor;
    forall e: nat | e < 32
      ensures e in PolyOf(Xor(a, b)) <==> (e in PolyOf(a)) != (e in PolyOf(b))
    {
      BitAtXor(a, b, 31 - e);
    }
  }

  lemma NothingLeft(a: Word)
    ensures Upper(Upper(Upper(Upper(a)))) == 0 && !Odd(0)
  {
  }

  lemma NoBit32(a: Word)
    ensures !BitAt(a, 32)
  {
    hide Upper, Down, Half, Odd;
    DownEight(a);
    DownAdds(a, 8, 24);
    DownEight(Upper(a));
    DownAdds(Upper(a), 8, 16);
    DownEight(Upper(Upper(a)));
    DownAdds(Upper(Upper(a)), 8, 8);
    DownEight(Upper(Upper(Upper(a))));
    NothingLeft(a);
  }

  /** One place to the right is times x, without the power of 32. */
  lemma PolyOfHalf(a: Word)
    ensures PolyOf(Half(a)) == X(PolyOf(a)) - {32} && (32 in X(PolyOf(a)) <==> Odd(a))
  {
    NoBit32(a);
    hide Odd, Half;
    assert BitAt(a, 0) == Odd(a);
    forall e: nat | e < 32
      ensures e in PolyOf(Half(a)) <==> e in X(PolyOf(a))
    {
      assert BitAt(Half(a), 31 - e) == BitAt(a, 32 - e);
    }
  }

  lemma PolyOfUnit(bit: bool)
    ensures PolyOf(Unit(bit)) == If(bit, {31})
  {
    forall i: nat | 0 < i < 32
      ensures !BitAt(Unit(bit), i)
    {
      assert Half(Unit(bit)) == 0;
      DownZero(i - 1);
    }
    assert BitAt(Unit(bit), 0) == bit;
    hide BitAt;
  }

  /** The bits of `a` are the coefficients of `g` below the power of `n`. */
  predicate Matches(a: Word, g: Poly, n: nat)
    decreases n
  {
    n == 0 || (Odd(a) == (n - 1 in g) && Matches(Half(a), g, n - 1))
  }

  lemma {:induction false} MatchesAt(a: Word, g: Poly, n: nat, i: nat)
    requires Matches(a, g, n) && i < n
    ensures BitAt(a, i) <==> n - 1 - i in g
    decreases i
  {
    hide Odd, Half;
    if i > 0 {
      MatchesAt(Half(a), g, n - 1, i - 1);
    }
  }

  lemma PolyOfMatch(a: Word, g: Poly)
    requires Matches(a, g, 32)
    ensures PolyOf(a) == set e | e in g && e < 32
  {
    hide BitAt, Matches;
    forall e: nat | e < 32
      ensures e in PolyOf(a) <==> e in g
    {
      MatchesAt(a, g, 32, 31 - e);
    }
  }

  lemma MatchesFour(a: Word, b: Word, g: Poly, n: nat)
    requires Matches(b, g, n) && Half(Half(Half(Half(a)))) == b
    requires Odd(a) == (n + 3 in g) && Odd(Half(a)) == (n + 2 in g)
    requires Odd(Half(Half(a))) == (n + 1 in g) && Odd(Half(Half(Half(a)))) == (n in g)
    ensures Matches(a, g, n + 4)
  {
    hide Half, Odd;
    var h := Half(Half(a));
    assert Matches(Half(h), g, n + 1) && Matches(h, g, n + 2) && Matches(Half(a), g, n + 3);
  }

  lemma PolynomialMatches()
    ensures Matches(POLYNOMIAL, GENERATOR, 32)
  {
    assert Matches(0, GENERATOR, 0);
    hide Matches;
    MatchesFour(0xE, 0x0, GENERATOR, 0);
    MatchesFour(0xED, 0xE, GENERATOR, 4);
    MatchesFour(0xEDB, 0xED, GENERATOR, 8);
    MatchesFour(0xEDB8, 0xEDB, GENERATOR, 12);
    MatchesFour(0xEDB88, 0xEDB8, GENERATOR, 16);
    MatchesFour(0xEDB883, 0xEDB88, GENERATOR, 20);
    MatchesFour(0xEDB8832, 0xEDB883, GENERATOR, 24);
    MatchesFour(0xEDB88320, 0xEDB8832, GENERATOR, 28);
  }

  lemma PolyOfPolynomial()
    ensures PolyOf(POLYNOMIAL) == GENERATOR - {32}
  {
    PolynomialMatches();
    hide Matches;
    PolyOfMatch(POLYNOMIAL, GENERATOR);
  }

  lemma OnesMatch(g: Poly)
    requires forall e: nat :: e < 32 ==> e in g
    ensures Matches(0xFFFFFFFF, g, 32)
  {
    assert Matches(0, g, 0);
    hide Matches;
    MatchesFour(0xF, 0x0, g, 0);
    MatchesFour(0xFF, 0xF, g, 4);
    MatchesFour(0xFFF, 0xFF, g, 8);
    MatchesFour(0xFFFF, 0xFFF, g, 12);
    MatchesFour(0xFFFFF, 0xFFFF, g, 16);
    MatchesFour(0xFFFFFF, 0xFFFFF, g, 20);
    MatchesFour(0xFFFFFFF, 0xFFFFFF, g, 24);
    MatchesFour(0xFFFFFFFF, 0xFFFFFFF, g, 28);
  }

  lemma PolyOfOnes()
    ensures PolyOf(ONES) == AllBelow(32)
  {
    OnesMatch(AllBelow(32));
    hide Matches, PolyOf;
    PolyOfMatch(ONES, AllBelow(32));
  }

  /** One shift is times x modulo the generator. */
  lemma PolyOfShift(a: Word)
    ensures PolyOf(Shift(a)) == Sum(X(PolyOf(a)), If(Odd(a), GENERATOR))
  {
    PolyOfHalf(a);
    PolyOfPolynomial();
    PolyOfXor(Half(a), POLYNOMIAL);
    hide PolyOf, Half, Odd, Xor;
    assert 32 in GENERATOR;
  }

  /** One more bit brings one more bit of the quotient down. */
  lemma PolyOfFeed(c: Word, bit: bool, a: Poly, q: seq<bool>)
    requires a == Sum(Times(q, GENERATOR), PolyOf(c))
    ensures var first := Xor(c, Unit(bit));
            Sum(X(a), If(bit, {32})) == Sum(Times(q + [Odd(first)], GENERATOR), PolyOf(Shift(first)))
  {
    var first := Xor(c, Unit(bit));
    PolyOfShift(first);
    PolyOfXor(c, Unit(bit));
    PolyOfUnit(bit);
    hide PolyOf, Shift, Xor, Unit, Odd, GENERATOR, Sum;
    var g := If(Odd(first), GENERATOR);
    var t, r := Times(q, GENERATOR), PolyOf(c);
    XOfSum(t, r);
    XOfSum(r, If(bit, {31}));
    assert X(If(bit, {31})) == If(bit, {32});
    assert (q + [Odd(first)])[..|q|] == q;
    assert Times(q + [Odd(first)], GENERATOR) == Sum(X(t), g);
    SumCancels(X(t), X(r), If(bit, {32}), g);
  }

  lemma {:induction false} FeedDivides(bits: seq<bool>) returns (q: seq<bool>)
    ensures IsDivision(Dividend(bits), GENERATOR, 32, q, PolyOf(Feed(ONES, bits)))
  {
    hide PolyOf, Shift, Xor, Unit, Odd;
    if bits == [] {
      q := [];
      PolyOfOnes();
      assert Dividend([]) == AllBelow(32);
    } else {
      var n := |bits| - 1;
      q := FeedDivides(bits[..n]);
      var c := Feed(ONES, bits[..n]);
      DividendNext(bits);
      PolyOfFeed(c, bits[n], Dividend(bits[..n]), q);
      q := q + [Odd(Xor(c, Unit(bits[n])))];
    }
  }

  /** The checksum is the complement of the remainder of the message by the generator, as
      polynomials over GF(2); and there is but one remainder. */
  lemma ChecksumIsRemainder(message: seq<Byte>, r: Poly)
    ensures (exists q :: IsDivision(Dividend(BitsOf(message)), GENERATOR, 32, q, r))
       <==> r == PolyOf(Xor(Checksum(message), 0xFFFFFFFF))
  {
    hide BitsOf, Dividend, PolyOf, Register, Feed;
    var c := Register(ONES, message);
    XorCancels(c, ONES);
    RegisterIsFeed(ONES, message);
    var q := FeedDivides(BitsOf(message));
    assert PolyOf(Xor(Checksum(message), 0xFFFFFFFF)) == PolyOf(c);
    hide Xor, Checksum;
    if q' :| IsDivision(Dividend(BitsOf(message)), GENERATOR, 32, q', r) {
      assert 32 in GENERATOR;
      RemainderIsUnique(Dividend(BitsOf(message)), GENERATOR, 32, q, PolyOf(c), q', r);
    }
  }

  // ---------- known values ----------

  lemma EntryOf128()
    ensures Entry(128) == 0xEDB88320
  {
  }

  lemma RegisterNext(m: seq<Byte>, n: nat, b: Byte)
    requires n < |m| && m[n] == b
    ensures Register(ONES, m[..n + 1]) == Eight(Xor(Register(ONES, m[..n]), Widen(b)))
  {
    EightShifts(Xor(Register(ONES, m[..n]), Widen(b)));
    hide Xor, Widen, Shift;
    assert m[..n + 1][..n] == m[..n];
  }

  function Eight(c: Word): Word {
    Shift(Shift(Shift(Shift(Shift(Shift(Shift(Shift(c))))))))
  }

  lemma EightShifts(c: Word)
    ensures Shifts(c, 8) == Eight(c)
  {
    hide Shift;
    var d := Shift(Shift(Shift(Shift(c))));
    ShiftsAdd(c, 4, 4);
    assert Shifts(Shift(Shift(c)), 2) == d && Shifts(Shift(Shift(d)), 2) == Eight(c);
  }

  /** The digits from 1 to 9, and the register before the first and after each of them. */
  function Digits(): seq<Byte> {
    [0x31, 0x32, 0x33, 0x34, 0x35, 0x36, 0x37, 0x38, 0x39]
  }

  function Registers(): seq<Word> {
    [0xFFFFFFFF, 0x7C231048, 0xB0ACBB32, 0x77B79C2D, 0x641C1F5C,
     0x340AC5E3, 0xF68D2C9E, 0xAFFC9660, 0x651F2550, 0x340BC6D9]
  }

  lemma DigitStep(i: nat)
    requires i < 9
    ensures Eight(Xor(Registers()[i], Widen(Digits()[i]))) == Registers()[i + 1]
  {
  }

  lemma {:induction false} DigitsRegister(n: nat)
    requires n <= 9
    ensures Register(0xFFFFFFFF, Digits()[..n]) == Registers()[n]
  {
    if n == 0 {
      assert Digits()[..0] == [];
    } else {
      DigitsRegister(n - 1);
      DigitStep(n - 1);
      hide Eight, Xor, Widen, Register, Shifts, Digits, Registers;
      RegisterNext(Digits(), n - 1, Digits()[n - 1]);
    }
  }

  lemma LastXor()
    ensures Xor(0x340BC6D9, 0xFFFFFFFF) == 0xCBF43926 && Registers()[9] == 0x340BC6D9
  {
  }

  /** The check value of CRC-32. */
  lemma CheckValue()
    ensures Checksum(Digits()) == 0xCBF43926
    ensures Digits() == [0x31, 0x32, 0x33, 0x34, 0x35, 0x36, 0x37, 0x38, 0x39]
  {
    DigitsRegister(9);
    LastXor();
    hide Xor, Register, Registers;
    assert Digits()[..9] == Digits();
  }
}
