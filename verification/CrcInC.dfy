// The two CRC loops on numbers, with the operators of C: what the registers
// of module Crc, which are strings of bits, stand for.

module CrcInC {
  import opened Bits
  import Crc

  // ----- Most significant bit first: src/serialsource.c

  // The number in a register whose first bit is the most significant.
  function Number(w: word): (n: nat)
    ensures n < 0x1_0000
  {
    WordBound(Reverse(w));
    ValueOf(Reverse(w))
  }

  lemma WordBound(w: word)
    ensures ValueOf(w) < 0x1_0000
  {
    Power2Of16();
  }

  lemma Power2Of16()
    ensures Power2(8) == 0x100 && Power2(15) == 0x8000 && Power2(16) == 0x1_0000
  {
    assert Power2(4) == 16 && Power2(8) == 16 * Power2(4) && Power2(12) == 16 * Power2(8);
  }

  // crc & 0x8000 ? crc << 1 ^ poly : crc << 1
  function Up(crc: nat, poly: nat): nat {
    if crc / 0x8000 % 2 == 1 then XorNat(2 * crc % 0x1_0000, poly) else 2 * crc % 0x1_0000
  }

  function UpTimes(crc: nat, poly: nat, n: nat): nat
    decreases n
  {
    if n == 0 then crc else UpTimes(Up(crc, poly), poly, n - 1)
  }

  // crc ^ b << 8, and eight turns of the loop
  function UpByte(crc: nat, poly: nat, b: byte): nat { UpTimes(XorNat(crc, 0x100 * b as nat), poly, 8) }

  function UpBytes(crc: nat, poly: nat, m: seq<byte>): nat
    decreases m
  {
    if m == [] then crc else UpBytes(UpByte(crc, poly, m[0]), poly, m[1..])
  }

  lemma NumberOfXor(a: word, b: word)
    ensures Number(Xor(a, b)) == XorNat(Number(a), Number(b))
  {
    assert Reverse(Xor(a, b)) == Xor(Reverse(a), Reverse(b));
    ValueOfXor(Reverse(a), Reverse(b));
  }

  lemma ShiftedUp(r: word)
    ensures Number(r[1..] + [false]) == 2 * Number(r) % 0x1_0000
    ensures r[0] <==> Number(r) / 0x8000 % 2 == 1
  {
    hide ValueOf, Power2;
    var low := Reverse(r)[..15];
    assert Reverse(r) == low + [r[0]];
    assert Reverse(r[1..] + [false]) == [false] + low;
    ValueOfAppend(low, [r[0]]);
    OneBit(r[0]);
    FirstBit([false] + low);
    assert ([false] + low)[1..] == low;
    Power2Of16();
    TopBit(ValueOf(low), if r[0] then 1 else 0);
  }

  lemma TopBit(low: nat, top: nat)
    requires low < 0x8000 && top < 2
    ensures 2 * (low + 0x8000 * top) % 0x1_0000 == 2 * low
    ensures (low + 0x8000 * top) / 0x8000 % 2 == top
  {}

  lemma OneBit(b: bool)
    ensures ValueOf([b]) == if b then 1 else 0
  {
    FirstBit([b]);
    NoBits();
    assert [b][1..] == [];
  }

  lemma ShiftIsUp(p: word, r: word)
    ensures Number(Crc.Shift(p, r)) == Up(Number(r), Number(p))
  {
    hide Number, XorNat;
    ShiftedUp(r);
    NumberOfXor(r[1..] + [false], p);
  }

  lemma {:induction false} ShiftsAreUp(p: word, r: word, n: nat)
    ensures Number(Crc.Shifts(p, r, n)) == UpTimes(Number(r), Number(p), n)
    decreases n
  {
    hide Number, Up, Crc.Shift;
    if n > 0 {
      ShiftIsUp(p, r);
      ShiftsAreUp(p, Crc.Shift(p, r), n - 1);
    }
  }

  lemma ByteUp(b: byte)
    ensures Number(ByteBits(MsbFirst, b) + Zeros(8)) == 0x100 * b as nat
  {
    var bits := ByteBits(MsbFirst, b);
    assert Reverse(bits + Zeros(8)) == Zeros(8) + Reverse(bits);
    ValueOfShifted(8, Reverse(bits));
    ByteBitsValue(b);
    Power2Of16();
  }

  lemma ByteIsUp(p: word, r: word, b: byte)
    ensures Number(Crc.CrcByte(p, MsbFirst, r, b)) == UpByte(Number(r), Number(p), b)
  {
    hide Number, Crc.Shifts, UpTimes, XorNat;
    var v := ByteBits(MsbFirst, b) + Zeros(8);
    ByteUp(b);
    NumberOfXor(r, v);
    ShiftsAreUp(p, Xor(r, v), 8);
  }

  lemma {:induction false} UpBytesOfMore(crc: nat, poly: nat, m: seq<byte>, b: byte)
    ensures UpBytes(crc, poly, m + [b]) == UpByte(UpBytes(crc, poly, m), poly, b)
    decreases m
  {
    hide UpByte;
    if m == [] {
      assert [b][1..] == [] && m + [b] == [b];
    } else {
      assert (m + [b])[1..] == m[1..] + [b];
      UpBytesOfMore(UpByte(crc, poly, m[0]), poly, m[1..], b);
    }
  }

  lemma {:induction false} BytesAreUp(p: word, r: word, m: seq<byte>)
    ensures Number(Crc.CrcBytes(p, MsbFirst, r, m)) == UpBytes(Number(r), Number(p), m)
  {
    hide Number, UpByte, Crc.CrcByte;
    if m != [] {
      var k := |m| - 1;
      BytesAreUp(p, r, m[..k]);
      ByteIsUp(p, Crc.CrcBytes(p, MsbFirst, r, m[..k]), m[k]);
      UpBytesOfMore(Number(r), Number(p), m[..k], m[k]);
      assert m == m[..k] + [m[k]];
    }
  }

  // ----- Least significant bit first: src/driver/GN1200.c

  // crc & 1 ? crc >> 1 ^ poly : crc >> 1
  function Down(crc: nat, poly: nat): nat { if crc % 2 == 1 then XorNat(crc / 2, poly) else crc / 2 }

  function DownTimes(crc: nat, poly: nat, n: nat): nat
    decreases n
  {
    if n == 0 then crc else DownTimes(Down(crc, poly), poly, n - 1)
  }

  // crc ^ b, and eight turns of the loop
  function DownByte(crc: nat, poly: nat, b: byte): nat { DownTimes(XorNat(crc, b as nat), poly, 8) }

  function DownBytes(crc: nat, poly: nat, m: seq<byte>): nat
    decreases m
  {
    if m == [] then crc else DownBytes(DownByte(crc, poly, m[0]), poly, m[1..])
  }

  lemma ShiftedDown(r: word)
    ensures ValueOf(r[1..] + [false]) == ValueOf(r) / 2
    ensures r[0] <==> ValueOf(r) % 2 == 1
  {
    hide ValueOf;
    FirstBit(r);
    ValueOfPadded(r[1..]);
  }

  lemma ShiftIsDown(p: word, r: word)
    ensures ValueOf(Crc.Shift(p, r)) == Down(ValueOf(r), ValueOf(p))
  {
    hide XorNat, ValueOf;
    ShiftedDown(r);
    ValueOfXor(r[1..] + [false], p);
  }

  lemma {:induction false} ShiftsAreDown(p: word, r: word, n: nat)
    ensures ValueOf(Crc.Shifts(p, r, n)) == DownTimes(ValueOf(r), ValueOf(p), n)
    decreases n
  {
    hide ValueOf, Down, Crc.Shift;
    if n > 0 {
      ShiftIsDown(p, r);
      ShiftsAreDown(p, Crc.Shift(p, r), n - 1);
    }
  }

  lemma ByteIsDown(p: word, r: word, b: byte)
    ensures ValueOf(Crc.CrcByte(p, LsbFirst, r, b)) == DownByte(ValueOf(r), ValueOf(p), b)
  {
    hide ValueOf, Crc.Shifts, DownTimes, XorNat;
    var v := ByteBits(LsbFirst, b) + Zeros(8);
    ByteBitsValue(b);
    ValueOfAppend(ByteBits(LsbFirst, b), Zeros(8));
    ValueOfZeros(8);
    ValueOfXor(r, v);
    ShiftsAreDown(p, Xor(r, v), 8);
  }

  lemma {:induction false} DownBytesOfMore(crc: nat, poly: nat, m: seq<byte>, b: byte)
    ensures DownBytes(crc, poly, m + [b]) == DownByte(DownBytes(crc, poly, m), poly, b)
    decreases m
  {
    hide DownByte;
    if m == [] {
      assert [b][1..] == [] && m + [b] == [b];
    } else {
      assert (m + [b])[1..] == m[1..] + [b];
      DownBytesOfMore(DownByte(crc, poly, m[0]), poly, m[1..], b);
    }
  }

  lemma {:induction false} BytesAreDown(p: word, r: word, m: seq<byte>)
    ensures ValueOf(Crc.CrcBytes(p, LsbFirst, r, m)) == DownBytes(ValueOf(r), ValueOf(p), m)
  {
    hide ValueOf, DownByte, Crc.CrcByte;
    if m != [] {
      var k := |m| - 1;
      BytesAreDown(p, r, m[..k]);
      ByteIsDown(p, Crc.CrcBytes(p, LsbFirst, r, m[..k]), m[k]);
      DownBytesOfMore(ValueOf(r), ValueOf(p), m[..k], m[k]);
      assert m == m[..k] + [m[k]];
    }
  }

  lemma TwoBytes(v: nat, low: nat, high: nat)
    requires low < 0x100 && v == low + Power2(8) * high
    ensures v % 0x100 == low && v / 0x100 == high
  {
    Power2Of16();
  }

  // The two halves of a register as bytes: crc & 0xff and crc >> 8.
  lemma HalvesOfNumber(w: word)
    ensures ByteOf(MsbFirst, w[8..]) as nat == Number(w) % 0x100
    ensures ByteOf(MsbFirst, w[..8]) as nat == Number(w) / 0x100
  {
    hide ByteBits, ByteOf, ValueOf;
    var low, high := Reverse(w[8..]), Reverse(w[..8]);
    assert Reverse(w) == low + high;
    ValueOfAppend(low, high);
    ByteOfValue(MsbFirst, w[8..]);
    ByteOfValue(MsbFirst, w[..8]);
    TwoBytes(Number(w), ValueOf(low), ValueOf(high));
  }

  lemma HalvesOfValue(w: word)
    ensures ByteOf(LsbFirst, w[..8]) as nat == ValueOf(w) % 0x100
    ensures ByteOf(LsbFirst, w[8..]) as nat == ValueOf(w) / 0x100
  {
    hide ByteBits, ByteOf, ValueOf;
    assert w == w[..8] + w[8..];
    ValueOfAppend(w[..8], w[8..]);
    ByteOfValue(LsbFirst, w[..8]);
    ByteOfValue(LsbFirst, w[8..]);
    TwoBytes(ValueOf(w), ValueOf(w[..8]), ValueOf(w[8..]));
  }

  lemma ByteOfValue(order: Order, w: seq<bool>)
    requires |w| == 8
    ensures ByteOf(order, w) as nat == ValueOf(if order.LsbFirst? then w else Reverse(w)) < 0x100
  {
    hide ByteBits, ByteOf;
    Power2Of16();
    ByteBitsValue(ByteOf(order, w));
  }
}
