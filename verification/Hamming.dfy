/** The server's error-correcting coder (npct/coders/impl/algo/hamming), in its one configuration:
    Hamming (7,4) on 8-bit characters. Every four bits of the message travel in a byte of their
    own, with three parity bits; bit 7 of that byte is whatever the buffer held. */
module Hamming {

  import opened Basics

  const PACKET_BITS: nat := 7
  const INFO_BITS: nat := 4
  const PARITY_BITS: nat := 3

  // ---------- bits ----------

  function Mask(i: nat): Byte
    requires i < 8
  {
    if i == 0 then 1 else if i == 1 then 2 else if i == 2 then 4 else if i == 3 then 8
    else if i == 4 then 16 else if i == 5 then 32 else if i == 6 then 64 else 128
  }

  /** `getBit` */
  predicate Bit(b: Byte, i: nat)
    requires i < 8
  {
    b & Mask(i) != 0
  }

  /** `setBit` */
  function WithBit(b: Byte, i: nat, v: bool): Byte
    requires i < 8
  {
    if v then b | Mask(i) else b & !Mask(i)
  }

  lemma BitOfWithBit(b: Byte, i: nat, v: bool, j: nat)
    requires i < 8 && j < 8
    ensures Bit(WithBit(b, i, v), j) == if j == i then v else Bit(b, j)
  {
  }

  lemma WithBitBits(b: Byte, i: nat, v: bool)
    requires i < 8
    ensures forall j :: 0 <= j < 8 ==> Bit(WithBit(b, i, v), j) == if j == i then v else Bit(b, j)
  {
    forall j | 0 <= j < 8 ensures Bit(WithBit(b, i, v), j) == if j == i then v else Bit(b, j) {
      BitOfWithBit(b, i, v, j);
    }
  }

  lemma BitOfXor(a: Byte, b: Byte, i: nat)
    requires i < 8
    ensures Bit(a ^ b, i) == (Bit(a, i) != Bit(b, i))
  {
    assert (a ^ b) & Mask(i) == (a & Mask(i)) ^ (b & Mask(i)) by {
      XorMask(a, b, Mask(i));
    }
    OneBit(a, i);
    OneBit(b, i);
  }

  lemma XorMask(a: Byte, b: Byte, m: Byte)
    ensures (a ^ b) & m == (a & m) ^ (b & m)
  {
  }

  lemma OneBit(b: Byte, i: nat)
    requires i < 8
    ensures b & Mask(i) == if Bit(b, i) then Mask(i) else 0
  {
  }

  lemma SameBits(a: Byte, b: Byte)
    requires forall i :: 0 <= i < 8 ==> Bit(a, i) == Bit(b, i)
    ensures a == b
  {
    assert Bit(a, 0) == Bit(b, 0) && Bit(a, 1) == Bit(b, 1) && Bit(a, 2) == Bit(b, 2) && Bit(a, 3) == Bit(b, 3);
    assert Bit(a, 4) == Bit(b, 4) && Bit(a, 5) == Bit(b, 5) && Bit(a, 6) == Bit(b, 6) && Bit(a, 7) == Bit(b, 7);
  }

  /** `is_pow2` */
  predicate IsPow2(i: nat) {
    i == 1 || (i > 0 && i % 2 == 0 && IsPow2(i / 2))
  }

  lemma SmallPowers()
    ensures IsPow2(1) && IsPow2(2) && !IsPow2(3) && IsPow2(4) && !IsPow2(5) && !IsPow2(6) && !IsPow2(7)
  {
    assert !IsPow2(0);
  }

  // ---------- bits and numbers ----------

  function Digit(bit: bool): nat {
    if bit then 1 else 0
  }

  lemma ByteIsSum(b: Byte)
    ensures b as int == Digit(Bit(b, 0)) + 2 * Digit(Bit(b, 1)) + 4 * Digit(Bit(b, 2)) + 8 * Digit(Bit(b, 3))
                        + 16 * Digit(Bit(b, 4)) + 32 * Digit(Bit(b, 5)) + 64 * Digit(Bit(b, 6)) + 128 * Digit(Bit(b, 7))
  {
  }

  lemma DigitsOfSum(v: nat, d0: nat, d1: nat, d2: nat, d3: nat, d4: nat, d5: nat, d6: nat, d7: nat)
    requires d0 <= 1 && d1 <= 1 && d2 <= 1 && d3 <= 1 && d4 <= 1 && d5 <= 1 && d6 <= 1 && d7 <= 1
    requires v == d0 + 2 * d1 + 4 * d2 + 8 * d3 + 16 * d4 + 32 * d5 + 64 * d6 + 128 * d7
    ensures v % 2 == d0 && v / 2 % 2 == d1 && v / 4 % 2 == d2 && v / 8 % 2 == d3
    ensures v / 16 % 2 == d4 && v / 32 % 2 == d5 && v / 64 % 2 == d6 && v / 128 % 2 == d7
  {
    assert v / 2 == d1 + 2 * (d2 + 2 * d3 + 4 * d4 + 8 * d5 + 16 * d6 + 32 * d7);
    assert v / 4 == d2 + 2 * (d3 + 2 * d4 + 4 * d5 + 8 * d6 + 16 * d7);
    assert v / 8 == d3 + 2 * (d4 + 2 * d5 + 4 * d6 + 8 * d7);
    assert v / 16 == d4 + 2 * (d5 + 2 * d6 + 4 * d7);
    assert v / 32 == d5 + 2 * (d6 + 2 * d7);
    assert v / 64 == d6 + 2 * d7;
  }

  /** Bit `i` is the binary digit with the place value 2 to the power of `i`. */
  lemma BitIsDigit(b: Byte)
    ensures var v := b as int;
            && Digit(Bit(b, 0)) == v % 2 && Digit(Bit(b, 1)) == v / 2 % 2
            && Digit(Bit(b, 2)) == v / 4 % 2 && Digit(Bit(b, 3)) == v / 8 % 2
            && Digit(Bit(b, 4)) == v / 16 % 2 && Digit(Bit(b, 5)) == v / 32 % 2
            && Digit(Bit(b, 6)) == v / 64 % 2 && Digit(Bit(b, 7)) == v / 128 % 2
  {
    ByteIsSum(b);
    hide Bit;
    DigitsOfSum(b as int, Digit(Bit(b, 0)), Digit(Bit(b, 1)), Digit(Bit(b, 2)), Digit(Bit(b, 3)),
                Digit(Bit(b, 4)), Digit(Bit(b, 5)), Digit(Bit(b, 6)), Digit(Bit(b, 7)));
  }

  /** Without bit 7, and cut into halves. */
  lemma PartsOfByte(b: Byte)
    ensures var v := b as int;
            && v % 128 == Digit(Bit(b, 0)) + 2 * Digit(Bit(b, 1)) + 4 * Digit(Bit(b, 2)) + 8 * Digit(Bit(b, 3))
                          + 16 * Digit(Bit(b, 4)) + 32 * Digit(Bit(b, 5)) + 64 * Digit(Bit(b, 6))
            && v % 16 == Digit(Bit(b, 0)) + 2 * Digit(Bit(b, 1)) + 4 * Digit(Bit(b, 2)) + 8 * Digit(Bit(b, 3))
            && v / 16 == Digit(Bit(b, 4)) + 2 * Digit(Bit(b, 5)) + 4 * Digit(Bit(b, 6)) + 8 * Digit(Bit(b, 7))
  {
    ByteIsSum(b);
  }

  // ---------- one block ----------

  /** Position `i`, counted from 1, is under the parity bit at position `mask`. */
  predicate Covered(i: nat, mask: nat)
    requires mask > 0
  {
    i != mask && (i / mask) % 2 == 1
  }

  /** The parity of the covered positions below `n`. */
  function Parity(b: Byte, mask: nat, n: nat): bool
    requires mask > 0 && n <= 8
  {
    if n <= 1 then false else Parity(b, mask, n - 1) != (Bit(b, n - 2) && Covered(n - 1, mask))
  }

  function Xor3(x: bool, y: bool, z: bool): bool {
    (x != y) != z
  }

  lemma ParityBits(b: Byte)
    ensures Parity(b, 1, 8) == Xor3(Bit(b, 2), Bit(b, 4), Bit(b, 6))
    ensures Parity(b, 2, 8) == Xor3(Bit(b, 2), Bit(b, 5), Bit(b, 6))
    ensures Parity(b, 4, 8) == Xor3(Bit(b, 4), Bit(b, 5), Bit(b, 6))
  {
    forall m | m == 1 || m == 2 || m == 4
      ensures Parity(b, m, 8) == if m == 1 then Xor3(Bit(b, 2), Bit(b, 4), Bit(b, 6))
              else if m == 2 then Xor3(Bit(b, 2), Bit(b, 5), Bit(b, 6)) else Xor3(Bit(b, 4), Bit(b, 5), Bit(b, 6))
    {
      assert Parity(b, m, 2) == (Bit(b, 0) && Covered(1, m));
      assert Parity(b, m, 3) == (Parity(b, m, 2) != (Bit(b, 1) && Covered(2, m)));
      assert Parity(b, m, 4) == (Parity(b, m, 3) != (Bit(b, 2) && Covered(3, m)));
      assert Parity(b, m, 5) == (Parity(b, m, 4) != (Bit(b, 3) && Covered(4, m)));
      assert Parity(b, m, 6) == (Parity(b, m, 5) != (Bit(b, 4) && Covered(5, m)));
      assert Parity(b, m, 7) == (Parity(b, m, 6) != (Bit(b, 5) && Covered(6, m)));
    }
  }

  /** The bit of a block that carries information bit `q`. */
  function Slot(q: nat): (i: nat)
    requires q < 4
    ensures i < 7
  {
    if q == 0 then 2 else q + 3
  }

  /** The parity bits are right. */
  predicate IsCodeword(b: Byte) {
    && Bit(b, 0) == Xor3(Bit(b, 2), Bit(b, 4), Bit(b, 6))
    && Bit(b, 1) == Xor3(Bit(b, 2), Bit(b, 5), Bit(b, 6))
    && Bit(b, 3) == Xor3(Bit(b, 4), Bit(b, 5), Bit(b, 6))
  }

  /** `err_index`: the position, counted from 1, that the parity bits point at, or 0. */
  function Syndrome(b: Byte): (n: nat)
    ensures n < 8
  {
    (if Parity(b, 1, 8) != Bit(b, 0) then 1 else 0)
    + (if Parity(b, 2, 8) != Bit(b, 1) then 2 else 0)
    + (if Parity(b, 4, 8) != Bit(b, 3) then 4 else 0)
  }

  /** The block as `decode` corrects it: a parity bit at position 1 is left wrong. */
  function Corrected(b: Byte): Byte {
    var n := Syndrome(b);
    if n != 0 && n != 1 then WithBit(b, n - 1, !Bit(b, n - 1)) else b
  }

  function Flips(e: Byte): nat {
    (if Bit(e, 0) then 1 else 0) + (if Bit(e, 1) then 1 else 0) + (if Bit(e, 2) then 1 else 0)
    + (if Bit(e, 3) then 1 else 0) + (if Bit(e, 4) then 1 else 0) + (if Bit(e, 5) then 1 else 0)
    + (if Bit(e, 6) then 1 else 0)
  }

  predicate SameInfo(a: Byte, b: Byte) {
    Bit(a, 2) == Bit(b, 2) && Bit(a, 4) == Bit(b, 4) && Bit(a, 5) == Bit(b, 5) && Bit(a, 6) == Bit(b, 6)
  }

  /** The parity bits point at the error, whatever the codeword. */
  lemma SyndromeOfError(w: Byte, e: Byte)
    requires IsCodeword(w)
    ensures Syndrome(w ^ e) == Syndrome(e)
  {
    hide Bit, Parity;
    BitOfXor(w, e, 0); BitOfXor(w, e, 1); BitOfXor(w, e, 2); BitOfXor(w, e, 3);
    BitOfXor(w, e, 4); BitOfXor(w, e, 5); BitOfXor(w, e, 6);
    ParityBits(w ^ e);
    ParityBits(e);
  }

  lemma CorrectionOfError(w: Byte, e: Byte, i: nat)
    requires IsCodeword(w) && i < 7
    ensures Bit(Corrected(w ^ e), i) == (Bit(w, i) != Bit(Corrected(e), i))
  {
    SyndromeOfError(w, e);
    hide Bit, Mask, WithBit, Syndrome;
    var n := Syndrome(e);
    BitOfXor(w, e, i);
    if n > 1 {
      BitOfXor(w, e, n - 1);
      BitOfWithBit(w ^ e, n - 1, !Bit(w ^ e, n - 1), i);
      BitOfWithBit(e, n - 1, !Bit(e, n - 1), i);
    }
  }

  /** Correcting an error pattern leaves no information bit set exactly if it flips one bit at most. */
  lemma ErrorCorrection(e: Byte)
    ensures SameInfo(Corrected(e), 0) <==> Flips(e) <= 1
    ensures Flips(e) <= 1 ==> (Syndrome(e) != 0 <==> Flips(e) == 1)
  {
    ParityBits(e);
    assert !Bit(0, 2) && !Bit(0, 4) && !Bit(0, 5) && !Bit(0, 6);
    hide Bit, Mask, WithBit, Parity;
    var n := Syndrome(e);
    if n > 1 {
      BitOfWithBit(e, n - 1, !Bit(e, n - 1), 2);
      BitOfWithBit(e, n - 1, !Bit(e, n - 1), 4);
      BitOfWithBit(e, n - 1, !Bit(e, n - 1), 5);
      BitOfWithBit(e, n - 1, !Bit(e, n - 1), 6);
    }
  }

  /** A codeword that went through the channel with error pattern `e` is read correctly exactly if
      at most one of its seven bits was flipped, and then the error is noticed exactly if one was. */
  lemma BlockCorrection(w: Byte, e: Byte)
    requires IsCodeword(w)
    ensures SameInfo(Corrected(w ^ e), w) <==> Flips(e) <= 1
    ensures Flips(e) <= 1 ==> (Syndrome(w ^ e) != 0 <==> Flips(e) == 1)
  {
    assert !Bit(0, 2) && !Bit(0, 4) && !Bit(0, 5) && !Bit(0, 6);
    hide Bit, Corrected, Syndrome, Flips;
    SyndromeOfError(w, e);
    ErrorCorrection(e);
    CorrectionOfError(w, e, 2); CorrectionOfError(w, e, 4);
    CorrectionOfError(w, e, 5); CorrectionOfError(w, e, 6);
  }

  // ---------- messages ----------

  /** Bit `q` of half-byte `k` of the message, low half first. */
  function HalfBit(message: seq<Byte>, k: nat, q: nat): bool
    requires k < 2 * |message| && q < 4
  {
    Bit(message[k / 2], 4 * (k % 2) + q)
  }

  /** Block `b` carries half-byte `k` of the message. */
  predicate Carries(b: Byte, message: seq<Byte>, k: nat)
    requires k < 2 * |message|
  {
    forall q :: 0 <= q < 4 ==> Bit(b, Slot(q)) == HalfBit(message, k, q)
  }

  predicate IsEncoding(encoded: seq<Byte>, message: seq<Byte>) {
    && |encoded| == 2 * |message|
    && forall k :: 0 <= k < |encoded| ==> IsCodeword(encoded[k]) && Carries(encoded[k], message, k)
  }

  predicate IsDecoding(decoded: seq<Byte>, received: seq<Byte>) {
    && 2 * |decoded| == |received|
    && forall k :: 0 <= k < |received| ==> Carries(Corrected(received[k]), decoded, k)
  }

  /** The channel flips the bits that are set in `errors`. */
  function Flipped(encoded: seq<Byte>, errors: seq<Byte>): seq<Byte>
    requires |encoded| == |errors|
  {
    seq(|encoded|, i requires 0 <= i < |encoded| => encoded[i] ^ errors[i])
  }

  /** The number of blocks in which the decoder sees an error. */
  function Noticed(received: seq<Byte>, n: nat): nat
    requires n <= |received|
  {
    if n == 0 then 0 else Noticed(received, n - 1) + if Syndrome(received[n - 1]) != 0 then 1 else 0
  }

  /** The number of blocks with flipped bits. */
  function Damaged(errors: seq<Byte>, n: nat): nat
    requires n <= |errors|
  {
    if n == 0 then 0 else Damaged(errors, n - 1) + if Flips(errors[n - 1]) > 0 then 1 else 0
  }

  predicate SameHalf(a: seq<Byte>, b: seq<Byte>, k: nat)
    requires k < 2 * |a| && |a| == |b|
  {
    forall q :: 0 <= q < 4 ==> HalfBit(a, k, q) == HalfBit(b, k, q)
  }

  lemma CarriesSame(message: seq<Byte>, decoded: seq<Byte>, k: nat, b: Byte, c: Byte)
    requires |message| == |decoded| && k < 2 * |message|
    requires Carries(b, message, k) && Carries(c, decoded, k)
    ensures SameInfo(c, b) <==> SameHalf(decoded, message, k)
  {
    hide Bit, HalfBit;
    assert Slot(0) == 2 && Slot(1) == 4 && Slot(2) == 5 && Slot(3) == 6;
    if SameHalf(decoded, message, k) {
      assert forall q :: 0 <= q < 4 ==> Bit(c, Slot(q)) == Bit(b, Slot(q));
    }
  }

  lemma SameHalves(a: seq<Byte>, b: seq<Byte>)
    requires |a| == |b|
    ensures a == b <==> forall k :: 0 <= k < 2 * |a| ==> SameHalf(a, b, k)
  {
    if forall k :: 0 <= k < 2 * |a| ==> SameHalf(a, b, k) {
      forall i | 0 <= i < |a| ensures a[i] == b[i] {
        forall j | 0 <= j < 8 ensures Bit(a[i], j) == Bit(b[i], j) {
          assert SameHalf(a, b, 2 * i + j / 4);
          assert HalfBit(a, 2 * i + j / 4, j % 4) == HalfBit(b, 2 * i + j / 4, j % 4);
        }
        SameBits(a[i], b[i]);
      }
    }
  }

  /** The message comes back exactly if no block had more than one bit flipped. */
  lemma MessageCorrection(message: seq<Byte>, encoded: seq<Byte>, errors: seq<Byte>, decoded: seq<Byte>)
    requires IsEncoding(encoded, message) && |errors| == |encoded|
    requires IsDecoding(decoded, Flipped(encoded, errors))
    ensures decoded == message <==> forall k :: 0 <= k < |errors| ==> Flips(errors[k]) <= 1
  {
    hide Bit, Corrected, Flips, IsCodeword, Carries, SameInfo, SameHalf;
    forall k | 0 <= k < |errors|
      ensures Flips(errors[k]) <= 1 <==> SameHalf(decoded, message, k)
    {
      assert Flipped(encoded, errors)[k] == encoded[k] ^ errors[k];
      BlockCorrection(encoded[k], errors[k]);
      CarriesSame(message, decoded, k, encoded[k], Corrected(encoded[k] ^ errors[k]));
    }
    SameHalves(decoded, message);
  }

  /** And then the reported number of errors is the number of damaged blocks. */
  lemma {:induction false} ErrorCount(message: seq<Byte>, encoded: seq<Byte>, errors: seq<Byte>, n: nat)
    requires IsEncoding(encoded, message) && |errors| == |encoded| && n <= |errors|
    requires forall k :: 0 <= k < |errors| ==> Flips(errors[k]) <= 1
    ensures Noticed(Flipped(encoded, errors), n) == Damaged(errors, n)
  {
    hide Syndrome, Flips, IsCodeword, Carries;
    if n > 0 {
      ErrorCount(message, encoded, errors, n - 1);
      BlockCorrection(encoded[n - 1], errors[n - 1]);
    }
  }

  // ---------- blocks and numbers ----------

  /** Half-byte `k` of the message as a number, the low half of a byte first. */
  function HalfByte(message: seq<Byte>, k: nat): nat
    requires k < 2 * |message|
  {
    if k % 2 == 0 then message[k / 2] as int % 16 else message[k / 2] as int / 16
  }

  lemma HalfBits(message: seq<Byte>, k: nat)
    requires k < 2 * |message|
    ensures var b, low := message[k / 2], k % 2 == 0;
            && HalfBit(message, k, 0) == (if low then Bit(b, 0) else Bit(b, 4))
            && HalfBit(message, k, 1) == (if low then Bit(b, 1) else Bit(b, 5))
            && HalfBit(message, k, 2) == (if low then Bit(b, 2) else Bit(b, 6))
            && HalfBit(message, k, 3) == (if low then Bit(b, 3) else Bit(b, 7))
  {
    hide Bit;
  }

  lemma HalfByteIsSum(message: seq<Byte>, k: nat)
    requires k < 2 * |message|
    ensures HalfByte(message, k) == Digit(HalfBit(message, k, 0)) + 2 * Digit(HalfBit(message, k, 1))
                                    + 4 * Digit(HalfBit(message, k, 2)) + 8 * Digit(HalfBit(message, k, 3))
  {
    HalfBits(message, k);
    PartsOfByte(message[k / 2]);
    hide Bit, HalfBit, Digit;
  }

  /** What travels: the four digits of the half-byte at the places of 4, 16, 32 and 64, and at those
      of 1, 2 and 8 the parity of three of them each. Bit 7 is free. */
  lemma BlockValue(encoded: seq<Byte>, message: seq<Byte>, k: nat)
    requires IsEncoding(encoded, message) && k < |encoded|
    ensures var d0, d1 := Digit(HalfBit(message, k, 0)), Digit(HalfBit(message, k, 1));
            var d2, d3 := Digit(HalfBit(message, k, 2)), Digit(HalfBit(message, k, 3));
            && HalfByte(message, k) == d0 + 2 * d1 + 4 * d2 + 8 * d3
            && encoded[k] as int % 128 == (d0 + d1 + d3) % 2 + 2 * ((d0 + d2 + d3) % 2) + 4 * d0
                                          + 8 * ((d1 + d2 + d3) % 2) + 16 * d1 + 32 * d2 + 64 * d3
  {
    HalfByteIsSum(message, k);
    PartsOfByte(encoded[k]);
    hide Bit, HalfBit, HalfByte;
    assert Slot(0) == 2 && Slot(1) == 4 && Slot(2) == 5 && Slot(3) == 6;
    assert Carries(encoded[k], message, k) && IsCodeword(encoded[k]);
    assert Bit(encoded[k], Slot(0)) == HalfBit(message, k, 0) && Bit(encoded[k], Slot(1)) == HalfBit(message, k, 1);
    assert Bit(encoded[k], Slot(2)) == HalfBit(message, k, 2) && Bit(encoded[k], Slot(3)) == HalfBit(message, k, 3);
    ParityIsSum(HalfBit(message, k, 0), HalfBit(message, k, 1), HalfBit(message, k, 3));
    ParityIsSum(HalfBit(message, k, 0), HalfBit(message, k, 2), HalfBit(message, k, 3));
    ParityIsSum(HalfBit(message, k, 1), HalfBit(message, k, 2), HalfBit(message, k, 3));
  }

  lemma ParityIsSum(x: bool, y: bool, z: bool)
    ensures Digit(Xor3(x, y, z)) == (Digit(x) + Digit(y) + Digit(z)) % 2
  {
  }

  /** A decoded half-byte is made of the digits at the places of 4, 16, 32 and 64 of the block, once
      it is corrected. */
  lemma DecodedValue(decoded: seq<Byte>, received: seq<Byte>, k: nat)
    requires IsDecoding(decoded, received) && k < |received|
    ensures var v := Corrected(received[k]) as int;
            HalfByte(decoded, k) == v / 4 % 2 + 2 * (v / 16 % 2) + 4 * (v / 32 % 2) + 8 * (v / 64 % 2)
  {
    var b := Corrected(received[k]);
    HalfByteIsSum(decoded, k);
    BitIsDigit(b);
    hide Bit, HalfBit, HalfByte, Corrected;
    assert Carries(b, decoded, k);
    assert Slot(0) == 2 && Slot(1) == 4 && Slot(2) == 5 && Slot(3) == 6;
    assert Bit(b, Slot(0)) == HalfBit(decoded, k, 0) && Bit(b, Slot(1)) == HalfBit(decoded, k, 1);
    assert Bit(b, Slot(2)) == HalfBit(decoded, k, 2) && Bit(b, Slot(3)) == HalfBit(decoded, k, 3);
  }

  /** The error index is the position of a single flipped bit, counted from 1. */
  lemma SyndromeNamesBit(w: Byte)
    requires IsCodeword(w)
    ensures Syndrome(w) == 0
    ensures Syndrome(w ^ 1) == 1 && Syndrome(w ^ 2) == 2 && Syndrome(w ^ 4) == 3 && Syndrome(w ^ 8) == 4
    ensures Syndrome(w ^ 16) == 5 && Syndrome(w ^ 32) == 6 && Syndrome(w ^ 64) == 7
  {
    SyndromeOfError(w, 0);
    SyndromeOfError(w, 1); SyndromeOfError(w, 2); SyndromeOfError(w, 4); SyndromeOfError(w, 8);
    SyndromeOfError(w, 16); SyndromeOfError(w, 32); SyndromeOfError(w, 64);
    assert w ^ 0 == w;
    SmallSyndromes();
    hide Syndrome;
  }

  lemma SmallSyndromes()
    ensures Syndrome(0) == 0 && Syndrome(1) == 1 && Syndrome(2) == 2 && Syndrome(4) == 3 && Syndrome(8) == 4
    ensures Syndrome(16) == 5 && Syndrome(32) == 6 && Syndrome(64) == 7
  {
    ParityBits(0);
    ParityBits(1); ParityBits(2); ParityBits(4); ParityBits(8);
    ParityBits(16); ParityBits(32); ParityBits(64);
    hide Parity;
  }

  lemma FromInt(b: Byte, v: nat)
    requires v < 256 && b as int == v
    ensures b == v as Byte
  {
  }

  lemma SevenBits(b: Byte)
    requires !Bit(b, 7)
    ensures b as int < 128
  {
  }

  /** The letter "a", when bit 7 of the blocks is clear. */
  lemma LetterEncodes(encoded: seq<Byte>)
    requires IsEncoding(encoded, [0x61]) && forall k :: 0 <= k < |encoded| ==> !Bit(encoded[k], 7)
    ensures encoded == [0x07, 0x33]
  {
    BlockValue(encoded, [0x61], 0);
    BlockValue(encoded, [0x61], 1);
    SevenBits(encoded[0]);
    SevenBits(encoded[1]);
    LetterBits();
    assert forall q :: 0 <= q < 4 ==> HalfBit([0x61], 0, q) == Bit(0x61, q) && HalfBit([0x61], 1, q) == Bit(0x61, 4 + q);
    hide Bit, HalfBit;
    FromInt(encoded[0], 0x07);
    FromInt(encoded[1], 0x33);
  }

  lemma LetterBits()
    ensures Bit(0x61, 0) && !Bit(0x61, 1) && !Bit(0x61, 2) && !Bit(0x61, 3)
    ensures !Bit(0x61, 4) && Bit(0x61, 5) && Bit(0x61, 6) && !Bit(0x61, 7)
  {
  }

  lemma LetterCodewords()
    ensures IsEncoding([0x07, 0x33], [0x61])
  {
    var e: seq<Byte>, m: seq<Byte> := [0x07, 0x33], [0x61];
    forall k | 0 <= k < 2
      ensures IsCodeword(e[k]) && Carries(e[k], m, k)
    {
    }
  }

  /** And undamaged it is read without an error. */
  lemma LetterDecodes(decoded: seq<Byte>)
    requires IsDecoding(decoded, [0x07, 0x33])
    ensures decoded == [0x61] && Noticed([0x07, 0x33], 2) == 0
  {
    LetterCodewords();
    hide Bit, IsEncoding, IsDecoding;
    assert Flipped([0x07, 0x33], [0, 0]) == [0x07, 0x33];
    NoFlips();
    MessageCorrection([0x61], [0x07, 0x33], [0, 0], decoded);
    ErrorCount([0x61], [0x07, 0x33], [0, 0], 2);
    assert Damaged([0, 0], 1) == 0;
  }

  lemma NoFlips()
    ensures Flips(0) == 0
  {
  }

  // ---------- the coder ----------

  /** `calculateParityBit` */
  method CalculateParityBit(block: Byte, mask: nat) returns (parity: bool)
    requires mask > 0
    ensures parity == Parity(block, mask, 8)
  {
    parity := false;
    for i := 1 to PACKET_BITS + 1
      invariant parity == Parity(block, mask, i)
    {
      if Covered(i, mask) && Bit(block, i - 1) {
        parity := !parity;
      }
    }
  }

  /** `1 << r` */
  function ParityMask(r: nat): (mask: nat)
    requires r < PARITY_BITS
    ensures 0 < mask < 8
  {
    if r == 0 then 1 else if r == 1 then 2 else 4
  }

  /** `append_data`: the parity bits are set, the other bits stay. */
  method AppendData(initial: Byte) returns (block: Byte)
    ensures IsCodeword(block) && SameInfo(block, initial) && Bit(block, 7) == Bit(initial, 7)
  {
    hide Bit, WithBit, Parity;
    block := initial;
    for r := 0 to PARITY_BITS
      invariant SameInfo(block, initial) && Bit(block, 7) == Bit(initial, 7)
      invariant r > 0 ==> Bit(block, 0) == Xor3(Bit(block, 2), Bit(block, 4), Bit(block, 6))
      invariant r > 1 ==> Bit(block, 1) == Xor3(Bit(block, 2), Bit(block, 5), Bit(block, 6))
      invariant r > 2 ==> Bit(block, 3) == Xor3(Bit(block, 4), Bit(block, 5), Bit(block, 6))
    {
      var pBit := ParityMask(r) - 1;
      var parity := CalculateParityBit(block, ParityMask(r));
      ParityBits(block);
      WithBitBits(block, pBit, parity);
      block := WithBit(block, pBit, parity);
    }
  }

  /** The first `n` information bits of the block are those of half-byte `k`. */
  predicate Filled(block: Byte, message: seq<Byte>, k: nat, n: nat)
    requires k < 2 * |message| && n <= 4
  {
    forall q :: 0 <= q < n ==> Bit(block, Slot(q)) == HalfBit(message, k, q)
  }

  lemma FillNext(block: Byte, message: seq<Byte>, k: nat, n: nat, v: bool)
    requires k < 2 * |message| && n < 4 && Filled(block, message, k, n) && v == HalfBit(message, k, n)
    ensures Filled(WithBit(block, Slot(n), v), message, k, n + 1)
    ensures Bit(WithBit(block, Slot(n), v), 7) == Bit(block, 7)
  {
    hide Bit, WithBit, HalfBit;
    WithBitBits(block, Slot(n), v);
  }

  lemma FinishBlock(block: Byte, finished: Byte, message: seq<Byte>, k: nat)
    requires k < 2 * |message| && Filled(block, message, k, 4) && SameInfo(finished, block)
    ensures Carries(finished, message, k)
  {
    hide Bit, HalfBit;
    assert Slot(0) == 2 && Slot(1) == 4 && Slot(2) == 5 && Slot(3) == 6;
  }

  /** `written_info_bit_index` before the next information bit is looked for. */
  function Behind(n: nat): nat
    requires n <= 4
  {
    if n == 0 then 0 else Slot(n - 1) + 1
  }

  /** `while (w == 0 || is_pow2(w + 1)) ++w` */
  method SkipParity(behind: nat, ghost n: nat) returns (w: nat)
    requires n < 4 && behind == Behind(n)
    ensures w == Slot(n)
  {
    SmallPowers();
    w := behind;
    while w == 0 || IsPow2(w + 1)
      invariant Behind(n) <= w <= Slot(n)
      decreases 8 - w
    {
      w := w + 1;
    }
  }

  lemma HalfBitAt(message: seq<Byte>, i: nat, j: nat, k: nat, q: nat)
    requires i < |message| && j < 8 && q < 4 && 8 * i + j == 4 * k + q
    ensures k < 2 * |message| && HalfBit(message, k, q) == Bit(message[i], j)
  {
    assert k == 2 * i + j / 4 && k / 2 == i && 4 * (k % 2) + q == j;
  }

  /** The first `n` blocks are as they should be. */
  ghost predicate BlocksDone(result: seq<Byte>, message: seq<Byte>, n: nat, spare: bool)
    requires |result| == 2 * |message| && n <= |result|
  {
    forall k :: 0 <= k < n ==> IsCodeword(result[k]) && Carries(result[k], message, k) && Bit(result[k], 7) == spare
  }

  /** `encoded_size`, for blocks of one byte. */
  function EncodedSize(n: nat): nat {
    8 * n / INFO_BITS + if 8 * n % INFO_BITS != 0 then 1 else 0
  }

  /** `decoded_size`, for blocks of one byte. */
  function DecodedSize(n: nat): nat {
    n * INFO_BITS / 8
  }

  /** `encode`. `initial` is what the block buffer holds before anything is written to it; bit 7 of
      it ends up in every byte. `needed` is how far the writes go. They stay in the result unless
      the message is empty: then there is no room for the block that is written at the end. What
      is written outside the result is not modelled. */
  method Encode(message: seq<Byte>, initial: Byte) returns (result: array<Byte>, needed: nat)
    ensures result.Length == EncodedSize(|message|) && needed == Max(1, 2 * |message|)
    ensures needed <= result.Length <==> message != []
    ensures IsEncoding(result[..], message)
    ensures forall k :: 0 <= k < result.Length ==> Bit(result[k], 7) == Bit(initial, 7)
  {
    hide Bit, WithBit, IsCodeword, Carries, SameInfo, HalfBit;
    var infoIndex: nat, blockIndex: nat, writtenIndex: nat := 0, 0, 0;
    var block := initial;
    ghost var spare := Bit(initial, 7);
    result, needed := new Byte[EncodedSize(|message|)], 0;
    for i := 0 to |message|
      invariant infoIndex <= 4 && writtenIndex == Behind(infoIndex)
      invariant 8 * i == 4 * blockIndex + infoIndex && (i > 0 ==> infoIndex > 0)
      invariant result.Length == 2 * |message| && needed == blockIndex
      invariant message != [] ==> blockIndex < result.Length && Filled(block, message, blockIndex, infoIndex)
      invariant Bit(block, 7) == spare && blockIndex <= result.Length && BlocksDone(result[..], message, blockIndex, spare)
    {
      for j := 0 to 8
        invariant infoIndex <= 4 && writtenIndex == Behind(infoIndex)
        invariant 8 * i + j == 4 * blockIndex + infoIndex && (i + j > 0 ==> infoIndex > 0)
        invariant needed == blockIndex < result.Length == 2 * |message|
        invariant Filled(block, message, blockIndex, infoIndex)
        invariant Bit(block, 7) == spare && BlocksDone(result[..], message, blockIndex, spare)
      {
        if infoIndex >= INFO_BITS {
          ghost var before := block;
          block := AppendData(block);
          FinishBlock(before, block, message, blockIndex);
          needed := Max(needed, blockIndex + 1);
          result[blockIndex] := block;
          writtenIndex, infoIndex := 0, 0;
          blockIndex := blockIndex + 1;
        }
        HalfBitAt(message, i, j, blockIndex, infoIndex);
        writtenIndex := SkipParity(writtenIndex, infoIndex);
        FillNext(block, message, blockIndex, infoIndex, Bit(message[i], j));
        block := WithBit(block, writtenIndex, Bit(message[i], j));
        writtenIndex := writtenIndex + 1;
        infoIndex := infoIndex + 1;
      }
    }
    ghost var before := block;
    block := AppendData(block);
    needed := Max(needed, blockIndex + 1);
    if needed <= result.Length {
      FinishBlock(before, block, message, blockIndex);
      result[blockIndex] := block;
    }
  }

  method EncodeLetter() returns (result: array<Byte>)
    ensures result[..] == [0x07, 0x33]
  {
    var needed;
    result, needed := Encode([0x61], 0);
    assert !Bit(0, 7);
    hide Bit, IsEncoding;
    LetterEncodes(result[..]);
  }

  /** The empty message, on which the coder writes a byte that it has not allocated. */
  method EncodeNothing(initial: Byte) returns (result: array<Byte>, needed: nat)
    ensures result.Length == 0 && needed == 1
  {
    result, needed := Encode([], initial);
  }

  // ---------- the decoder ----------

  /** Bits before `n` of the result are those of the corrected blocks. */
  ghost predicate BitsDone(result: seq<Byte>, received: seq<Byte>, n: nat)
    requires 2 * |result| == |received| && n <= 8 * |result|
  {
    forall m :: 0 <= m < n ==> Bit(result[m / 8], m % 8) == Bit(Corrected(received[m / 4]), Slot(m % 4))
  }

  lemma NothingDone(result: seq<Byte>, received: seq<Byte>)
    requires 2 * |result| == |received|
    ensures BitsDone(result, received, 0)
  {
  }

  lemma BitsDoneDecodes(result: seq<Byte>, received: seq<Byte>)
    requires 2 * |result| == |received| && BitsDone(result, received, 8 * |result|)
    ensures IsDecoding(result, received)
  {
    hide Bit, Corrected;
    forall k | 0 <= k < |received| ensures Carries(Corrected(received[k]), result, k) {
      forall q | 0 <= q < 4 ensures Bit(Corrected(received[k]), Slot(q)) == HalfBit(result, k, q) {
        var m := 4 * k + q;
        assert m / 8 == k / 2 && m % 8 == 4 * (k % 2) + q && m / 4 == k && m % 4 == q;
        assert Bit(result[m / 8], m % 8) == Bit(Corrected(received[m / 4]), Slot(m % 4));
      }
    }
  }

  lemma BitsDoneNext(result: seq<Byte>, received: seq<Byte>, n: nat, v: bool)
    requires 2 * |result| == |received| && n < 8 * |result| && BitsDone(result, received, n)
    requires v == Bit(Corrected(received[n / 4]), Slot(n % 4))
    ensures BitsDone(result[n / 8 := WithBit(result[n / 8], n % 8, v)], received, n + 1)
  {
    hide Bit, WithBit, Corrected;
    WithBitBits(result[n / 8], n % 8, v);
    var result' := result[n / 8 := WithBit(result[n / 8], n % 8, v)];
    forall m | 0 <= m < n + 1
      ensures Bit(result'[m / 8], m % 8) == Bit(Corrected(received[m / 4]), Slot(m % 4))
    {
      if m < n {
        assert Bit(result[m / 8], m % 8) == Bit(Corrected(received[m / 4]), Slot(m % 4));
      }
    }
  }

  /** The number of information bits among the first `bit` bits of a block. */
  function InfoBefore(bit: nat): nat
    requires bit <= 7
  {
    if bit <= 2 then 0 else if bit <= 4 then 1 else bit - 3
  }

  lemma AllInfoBits()
    ensures InfoBefore(0) == 0 && InfoBefore(7) == 4
  {
  }

  /** The part of `decode` that finds `err_index`. */
  method ErrorIndex(block: Byte) returns (errIndex: nat)
    ensures errIndex == Syndrome(block)
  {
    hide Bit, Parity;
    errIndex := 0;
    for r := 0 to PARITY_BITS
      invariant errIndex == (if r > 0 && Parity(block, 1, 8) != Bit(block, 0) then 1 else 0)
                          + (if r > 1 && Parity(block, 2, 8) != Bit(block, 1) then 2 else 0)
                          + (if r > 2 && Parity(block, 4, 8) != Bit(block, 3) then 4 else 0)
    {
      var bit := ParityMask(r);
      var parity := CalculateParityBit(block, bit);
      if parity != Bit(block, bit - 1) {
        errIndex := errIndex + bit;
      }
    }
  }

  /** The part of `decode` that corrects a block. */
  method Correct(received: Byte) returns (block: Byte, noticed: bool)
    ensures block == Corrected(received) && (noticed <==> Syndrome(received) != 0)
  {
    hide Bit, WithBit, Syndrome;
    SmallPowers();
    block := received;
    var errIndex := ErrorIndex(block);
    noticed := errIndex != 0;
    // The source compares the index with the truth value of "it is a power of two".
    if errIndex != 0 && errIndex != (if IsPow2(errIndex) then 1 else 0) {
      block := WithBit(block, errIndex - 1, !Bit(block, errIndex - 1));
    }
  }

  /** Which bit of which block comes next, and how many bytes the bits so far need. */
  lemma NextInfoBit(i: nat, bit: nat)
    requires bit < 7
    ensures var n := 4 * i + InfoBefore(bit);
            && InfoBefore(bit + 1) == InfoBefore(bit) + (if IsPow2(bit + 1) then 0 else 1)
            && (!IsPow2(bit + 1) ==> n / 4 == i && Slot(n % 4) == bit)
            && Max((n + 7) / 8, n / 8 + 1) == (n + 8) / 8
  {
    SmallPowers();
  }

  /** `decode`, with `last_single_errors`. Two blocks make a byte. `needed` is how far the writes
      go: with an odd number of blocks, half a byte beyond the result. What is written there is not
      modelled; the other blocks are decoded in any case. */
  method Decode(received: seq<Byte>) returns (result: array<Byte>, needed: nat, lastSingleErrors: nat)
    ensures result.Length == DecodedSize(|received|) && needed == (|received| + 1) / 2
    ensures needed <= result.Length <==> |received| % 2 == 0
    ensures IsDecoding(result[..], received[..2 * result.Length])
    ensures |received| % 2 == 0 ==> IsDecoding(result[..], received)
    ensures lastSingleErrors == Noticed(received, |received|)
  {
    hide Bit, WithBit, Syndrome, Corrected, IsPow2, InfoBefore, Slot, BitsDone, Max;
    result, needed := new Byte[DecodedSize(|received|)](_ => 0), 0;
    ghost var paired := received[..2 * result.Length];
    var writtenBit := 0;
    lastSingleErrors := 0;
    NothingDone(result[..], paired);
    for i := 0 to |received|
      invariant result.Length == |received| / 2 && writtenBit == 4 * i && needed == (writtenBit + 7) / 8
      invariant BitsDone(result[..], paired, Min(writtenBit, 8 * result.Length))
      invariant lastSingleErrors == Noticed(received, i)
    {
      var block, noticed := Correct(received[i]);
      if noticed {
        lastSingleErrors := lastSingleErrors + 1;
      }
      AllInfoBits();
      for bit := 0 to PACKET_BITS
        invariant result.Length == |received| / 2 && writtenBit == 4 * i + InfoBefore(bit)
        invariant needed == (writtenBit + 7) / 8
        invariant BitsDone(result[..], paired, Min(writtenBit, 8 * result.Length))
      {
        NextInfoBit(i, bit);
        if !IsPow2(bit + 1) {
          needed := Max(needed, writtenBit / 8 + 1);
          if writtenBit / 8 < result.Length {
            BitsDoneNext(result[..], paired, writtenBit, Bit(block, bit));
            result[writtenBit / 8] := WithBit(result[writtenBit / 8], writtenBit % 8, Bit(block, bit));
          }
          writtenBit := writtenBit + 1;
        }
      }
    }
    BitsDoneDecodes(result[..], paired);
    assert |received| % 2 == 0 ==> paired == received;
  }

  /** A single block, on which the coder writes to a byte that it has not allocated. */
  method DecodeOneBlock(block: Byte) returns (result: array<Byte>, needed: nat)
    ensures result.Length == 0 && needed == 1
  {
    var errors;
    result, needed, errors := Decode([block]);
  }
}
