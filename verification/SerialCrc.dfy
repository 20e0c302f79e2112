// The CRC-16 of src/serialsource.c: polynomial x^16 + x^12 + x^5 + 1, most
// significant bit first, initial value 0, sent low byte first.

module SerialCrc {
  import opened Bits
  import Crc
  import opened CrcInC

  // 0x1021, most significant bit first
  const POLY: word := Zeros(3) + [true] + Zeros(6) + [true] + Zeros(4) + [true]

  lemma PolyIs0x1021()
    ensures ValueOf(Reverse(POLY)) == 0x1021
  {
    ValueOfShifted(3, []);
    ValueOfShifted(6, [true] + Zeros(3));
    ValueOfShifted(4, [true] + (Zeros(6) + ([true] + Zeros(3))));
    assert Zeros(3) + [] == Zeros(3);
    assert Reverse(POLY) == [true] + (Zeros(4) + ([true] + (Zeros(6) + ([true] + Zeros(3)))));
    assert Power2(4) == 16 && Power2(6) == 4 * Power2(4);
  }

  // crc_byte: crc ^ b << 8, then the do-while loop
  function CrcByte(crc: word, b: byte): word { Crc.CrcByte(POLY, MsbFirst, crc, b) }

  // crc_packet
  function CrcPacket(m: seq<byte>): word { Crc.CrcBytes(POLY, MsbFirst, Zeros(16), m) }

  // On numbers: the shift loop of the code with its constants.
  lemma CrcByteInC(crc: word, b: byte)
    ensures Number(CrcByte(crc, b)) == UpByte(Number(crc), 0x1021, b)
  {
    PolyIs0x1021();
    ByteIsUp(POLY, crc, b);
  }

  lemma CrcPacketInC(m: seq<byte>)
    ensures Number(CrcPacket(m)) == UpBytes(0, 0x1021, m)
  {
    PolyIs0x1021();
    assert Reverse(Zeros(16)) == Zeros(16);
    ValueOfZeros(16);
    BytesAreUp(POLY, Zeros(16), m);
  }

  // The value for the byte 01.
  lemma CheckValue()
    ensures Number(CrcPacket([0x01])) == 0x1021
  {
    hide XorNat, Number, CrcPacket, UpTimes;
    CrcPacketInC([0x01]);
    assert [0x01 as byte][1..] == [];
    XorNatZero(0x100);
    XorNatZero(0x1021);
    OneUp(0x100, 8);
    OneUp(0x200, 7);
    OneUp(0x400, 6);
    OneUp(0x800, 5);
    OneUp(0x1000, 4);
    OneUp(0x2000, 3);
    OneUp(0x4000, 2);
    LastUp(0x8000);
  }

  lemma OneUp(crc: nat, n: nat)
    requires crc < 0x8000 && n > 0
    ensures UpTimes(crc, 0x1021, n) == UpTimes(2 * crc, 0x1021, n - 1)
  {
    hide XorNat;
  }

  lemma LastUp(crc: nat)
    ensures UpTimes(crc, 0x1021, 1) == Up(crc, 0x1021)
  {
    hide Up;
  }

  function MessageBits(m: seq<byte>): (w: seq<bool>)
    ensures |w| == 8 * |m|
  {
    AllBits(MsbFirst, m)
  }

  lemma CrcPacketIsRun(m: seq<byte>)
    ensures CrcPacket(m) == Crc.Run(POLY, Zeros(16), MessageBits(m))
  {
    Crc.CrcBytesIsRun(POLY, MsbFirst, Zeros(16), m);
  }

  lemma CrcPacketOfMore(m: seq<byte>, b: byte)
    ensures CrcPacket(m + [b]) == CrcByte(CrcPacket(m), b)
  {
    assert (m + [b])[..|m|] == m;
  }

  // m(x) * x^16 == q(x) * (x^16 + x^12 + x^5 + 1) + rem(x)
  ghost predicate Divides(m: seq<byte>, q: seq<bool>, rem: word) {
    && |q| == 8 * |m|
    && MessageBits(m) + Zeros(16) == Xor(Crc.Times(POLY, q), Zeros(8 * |m|) + rem)
  }

  // crc_packet is the remainder of polynomial division: there is a quotient
  // for it, and for no other sixteen bits.
  lemma {:induction false} CrcIsRemainder(m: seq<byte>, rem: word)
    ensures (exists q :: Divides(m, q, rem)) <==> rem == CrcPacket(m)
  {
    CrcPacketIsRun(m);
    var w := MessageBits(m);
    assert Crc.Dividend(Zeros(16), w) == w + Zeros(16);
    if rem == CrcPacket(m) {
      var q := Crc.Division(POLY, Zeros(16), w);
      assert Divides(m, q, rem);
    }
    forall q | Divides(m, q, rem) ensures rem == CrcPacket(m) {
      Crc.RemainderUnique(POLY, Zeros(16), w, q, rem);
    }
  }

  // ----- The trailer

  // crc & 0xff and crc >> 8
  function Low(crc: word): byte { ByteOf(MsbFirst, crc[8..]) }
  function High(crc: word): byte { ByteOf(MsbFirst, crc[..8]) }

  // The two bytes after m in a frame.
  function Trailer(m: seq<byte>): seq<byte> { [Low(CrcPacket(m)), High(CrcPacket(m))] }

  // Low byte first.
  lemma TrailerInC(m: seq<byte>)
    ensures Number(CrcPacket(m)) == UpBytes(0, 0x1021, m)
    ensures Trailer(m) == [(UpBytes(0, 0x1021, m) % 0x100) as byte, (UpBytes(0, 0x1021, m) / 0x100) as byte]
  {
    hide Number, UpBytes, CrcPacket;
    CrcPacketInC(m);
    HalvesOfNumber(CrcPacket(m));
  }

  // lo | hi << 8
  function Join(lo: byte, hi: byte): word { ByteBits(MsbFirst, hi) + ByteBits(MsbFirst, lo) }

  // The test at the end of a frame: read_crc == computed_crc.
  predicate Checked(body: seq<byte>)
    requires |body| >= 2
  {
    var n := |body| - 2;
    Join(body[n], body[n + 1]) == CrcPacket(body[..n])
  }

  lemma JoinIsInverse(crc: word, lo: byte, hi: byte)
    ensures Join(lo, hi) == crc <==> lo == Low(crc) && hi == High(crc)
  {
    assert crc == crc[..8] + crc[8..];
    if Join(lo, hi) == crc {
      assert crc[..8] == ByteBits(MsbFirst, hi) && crc[8..] == ByteBits(MsbFirst, lo);
      ByteBitsInjective(MsbFirst, lo, Low(crc));
      ByteBitsInjective(MsbFirst, hi, High(crc));
    }
  }

  // Exactly one trailer is accepted after m: the one the sender computes.
  lemma {:induction false} CheckedIffTrailer(m: seq<byte>, lo: byte, hi: byte)
    ensures Checked(m + [lo, hi]) <==> [lo, hi] == Trailer(m)
  {
    hide CrcPacket, Join, Low, High;
    assert (m + [lo, hi])[..|m|] == m;
    JoinIsInverse(CrcPacket(m), lo, hi);
    assert [lo, hi][0] == lo && [lo, hi][1] == hi;
  }

  // ----- Error detection

  // Two bodies with one trailer that differ only inside some sixteen
  // consecutive bits under the CRC are never both accepted.
  lemma {:induction false} BurstsAreDetected(m: seq<byte>, n: seq<byte>, lo: byte, hi: byte, at: nat)
    requires Crc.DifferWithin(MessageBits(m), MessageBits(n), at)
    requires Checked(m + [lo, hi]) && Checked(n + [lo, hi])
    ensures m == n
  {
    CheckedIffTrailer(m, lo, hi);
    CheckedIffTrailer(n, lo, hi);
    JoinIsInverse(CrcPacket(m), lo, hi);
    JoinIsInverse(CrcPacket(n), lo, hi);
    Crc.BurstChangesCrc(POLY, MsbFirst, Zeros(16), m, n, at);
  }

  // In particular one or two adjacent wrong bytes are.
  lemma {:induction false} AdjacentBytesAreDetected(m: seq<byte>, n: seq<byte>, lo: byte, hi: byte, at: nat)
    requires |m| == |n|
    requires forall i :: 0 <= i < |m| && i != at && i != at + 1 ==> m[i] == n[i]
    requires Checked(m + [lo, hi]) && Checked(n + [lo, hi])
    ensures m == n
  {
    Crc.AdjacentBytesAreBurst(MsbFirst, m, n, at);
    BurstsAreDetected(m, n, lo, hi, 8 * at);
  }

  lemma PolyWeight()
    ensures Odd(POLY)
  {
    OddZeros(3);
    OddZeros(6);
    OddZeros(4);
    OddAppend(Zeros(3), [true]);
    OddAppend(Zeros(3) + [true], Zeros(6));
    OddAppend(Zeros(3) + [true] + Zeros(6), [true]);
    OddAppend(Zeros(3) + [true] + Zeros(6) + [true], Zeros(4));
    OddAppend(Zeros(3) + [true] + Zeros(6) + [true] + Zeros(4), [true]);
  }

  lemma CrcParity(m: seq<byte>)
    ensures Odd(CrcPacket(m)) == Odd(MessageBits(m))
  {
    CrcPacketIsRun(m);
    PolyWeight();
    OddZeros(16);
    Crc.RunParity(POLY, Zeros(16), MessageBits(m));
  }

  lemma CheckedHasEvenWeight(body: seq<byte>)
    requires |body| >= 2 && Checked(body)
    ensures !Odd(MessageBits(body))
  {
    hide AllBits, CrcPacket, ByteBits;
    var n := |body| - 2;
    var m, lo, hi := body[..n], body[n], body[n + 1];
    assert body == m + [lo, hi];
    CrcParity(m);
    AllBitsOfFrame(MsbFirst, m, lo, hi);
    OddAppend(ByteBits(MsbFirst, hi), ByteBits(MsbFirst, lo));
    OddAppend(ByteBits(MsbFirst, lo), ByteBits(MsbFirst, hi));
    OddAppend(MessageBits(m), ByteBits(MsbFirst, lo) + ByteBits(MsbFirst, hi));
  }

  // An odd number of wrong bits is always detected, wherever they are: in the
  // type, the payload or the trailer itself.
  lemma {:induction false} OddErrorsAreDetected(body: seq<byte>, damaged: seq<byte>)
    requires |damaged| == |body| >= 2
    requires Odd(Xor(MessageBits(body), MessageBits(damaged)))
    ensures !(Checked(body) && Checked(damaged))
  {
    hide AllBits, CrcPacket;
    OddXor(MessageBits(body), MessageBits(damaged));
    if Checked(body) && Checked(damaged) {
      CheckedHasEvenWeight(body);
      CheckedHasEvenWeight(damaged);
    }
  }

  // crc_packet is linear on messages of one length.
  lemma {:induction false} CrcPacketLinear(a: seq<byte>, b: seq<byte>, c: seq<byte>)
    requires |a| == |b| == |c|
    requires MessageBits(c) == Xor(MessageBits(a), MessageBits(b))
    ensures CrcPacket(c) == Xor(CrcPacket(a), CrcPacket(b))
  {
    hide CrcPacket;
    CrcPacketIsRun(a);
    CrcPacketIsRun(b);
    CrcPacketIsRun(c);
    assert Xor(Zeros(16), Zeros(16)) == Zeros(16);
    Crc.RunLinear(POLY, Zeros(16), Zeros(16), MessageBits(a), MessageBits(b));
  }
}
