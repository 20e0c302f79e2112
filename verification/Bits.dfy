// Bytes, and the bit strings that 16-bit registers and CRCs are made of.

module Bits {
  newtype byte = b: int | 0 <= b < 256

  // A uint16_t as its sixteen bits. The order (most or least significant bit
  // first) is the one in which the CRC at hand shifts bits out.
  type word = w: seq<bool> | |w| == 16 witness Zeros(16)

  function Zeros(n: nat): (z: seq<bool>)
    ensures |z| == n && forall i :: 0 <= i < n ==> !z[i]
  {
    seq(n, _ => false)
  }

  function Ones(n: nat): (z: seq<bool>)
    ensures |z| == n && forall i :: 0 <= i < n ==> z[i]
  {
    seq(n, _ => true)
  }

  // Bitwise exclusive or, which is addition of polynomials over GF(2).
  function Xor(a: seq<bool>, b: seq<bool>): (s: seq<bool>)
    requires |a| == |b|
    ensures |s| == |a| && forall i :: 0 <= i < |a| ==> s[i] == (a[i] != b[i])
  {
    seq(|a|, i requires 0 <= i < |a| => a[i] != b[i])
  }

  function Reverse<T>(a: seq<T>): (r: seq<T>)
    ensures |r| == |a| && forall i :: 0 <= i < |a| ==> r[i] == a[|a| - 1 - i]
  {
    seq(|a|, i requires 0 <= i < |a| => a[|a| - 1 - i])
  }

  // Whether an odd number of bits is set.
  function Odd(w: seq<bool>): bool {
    if w == [] then false else w[0] != Odd(w[1..])
  }

  lemma {:induction false} OddAppend(a: seq<bool>, b: seq<bool>)
    ensures Odd(a + b) == (Odd(a) != Odd(b))
  {
    if a == [] {
      assert a + b == b;
    } else {
      assert (a + b)[1..] == a[1..] + b;
      OddAppend(a[1..], b);
    }
  }

  lemma {:induction false} OddXor(a: seq<bool>, b: seq<bool>)
    requires |a| == |b|
    ensures Odd(Xor(a, b)) == (Odd(a) != Odd(b))
  {
    if a != [] {
      assert Xor(a, b)[1..] == Xor(a[1..], b[1..]);
      OddXor(a[1..], b[1..]);
    }
  }

  lemma {:induction false} OddZeros(n: nat)
    ensures !Odd(Zeros(n))
  {
    if n > 0 {
      assert Zeros(n)[1..] == Zeros(n - 1);
      OddZeros(n - 1);
    }
  }

  // ----- Numbers as bits

  function Power2(n: nat): (p: nat)
    ensures p > 0
  {
    if n == 0 then 1 else 2 * Power2(n - 1)
  }

  // The n low-order bits of v, least significant first.
  function LowBits(v: nat, n: nat): (w: seq<bool>)
    ensures |w| == n
  {
    if n == 0 then [] else [v % 2 == 1] + LowBits(v / 2, n - 1)
  }

  function ValueOf(w: seq<bool>): (v: nat)
    ensures v < Power2(|w|)
  {
    if w == [] then 0 else (if w[0] then 1 else 0) + 2 * ValueOf(w[1..])
  }

  lemma {:induction false} ValueOfShifted(n: nat, w: seq<bool>)
    ensures ValueOf(Zeros(n) + w) == Power2(n) * ValueOf(w)
    ensures ValueOf([true] + w) == 1 + 2 * ValueOf(w)
  {
    assert ([true] + w)[1..] == w;
    if n == 0 {
      assert Zeros(0) + w == w;
    } else {
      ValueOfShifted(n - 1, w);
      assert (Zeros(n) + w)[1..] == Zeros(n - 1) + w;
      Double(Power2(n - 1), ValueOf(w));
    }
  }

  lemma Double(a: nat, b: nat)
    ensures 2 * (a * b) == (2 * a) * b
  {}

  lemma {:induction false} ValueOfLowBits(v: nat, n: nat)
    requires v < Power2(n)
    ensures ValueOf(LowBits(v, n)) == v
  {
    if n > 0 {
      ValueOfLowBits(v / 2, n - 1);
      assert LowBits(v, n)[1..] == LowBits(v / 2, n - 1);
    }
  }

  lemma {:induction false} LowBitsOfValue(w: seq<bool>)
    ensures LowBits(ValueOf(w), |w|) == w
  {
    if w != [] {
      LowBitsOfValue(w[1..]);
      assert ValueOf(w) / 2 == ValueOf(w[1..]);
    }
  }

  lemma {:induction false} BitOf(v: nat, n: nat, k: nat)
    requires k < n
    ensures LowBits(v, n)[k] == (v / Power2(k) % 2 == 1)
  {
    if k > 0 {
      BitOf(v / 2, n - 1, k - 1);
      assert LowBits(v, n)[k] == LowBits(v / 2, n - 1)[k - 1];
      Halves(v, Power2(k - 1));
    } else {
      assert v / 1 == v;
    }
  }

  lemma Halves(v: nat, d: nat)
    requires d > 0
    ensures v / 2 / d == v / (2 * d)
  {
    var q, r := v / (2 * d), v % (2 * d);
    assert v == 2 * d * q + r;
    assert v / 2 == d * q + r / 2;
    assert 0 <= r / 2 < d;
    QuotientIs(v / 2, d, q, r / 2);
  }

  lemma QuotientIs(a: nat, d: nat, q: nat, r: nat)
    requires d > 0 && a == d * q + r && r < d
    ensures a / d == q
  {
    var k := a / d;
    assert a == d * k + a % d;
    if k < q {
      Apart(d, k, q);
    } else if q < k {
      Apart(d, q, k);
    }
  }

  lemma Apart(d: nat, a: nat, b: nat)
    requires a < b
    ensures d * a + d <= d * b
  {
    assert d * b == d * a + d * (b - a);
    assert d * (b - a) == d + d * (b - a - 1);
  }

  // ----- Exclusive or of numbers, as ^ in C

  function XorNat(a: nat, b: nat): nat
    decreases a + b
  {
    if a == 0 && b == 0 then 0 else (a + b) % 2 + 2 * XorNat(a / 2, b / 2)
  }

  lemma {:induction false} XorNatZero(a: nat)
    ensures XorNat(a, 0) == a == XorNat(0, a)
  {
    if a > 0 {
      XorNatZero(a / 2);
    }
  }

  lemma FirstBit(w: seq<bool>)
    requires w != []
    ensures ValueOf(w) == (if w[0] then 1 else 0) + 2 * ValueOf(w[1..])
  {}

  lemma NoBits()
    ensures ValueOf([]) == 0 == XorNat(0, 0)
  {}

  lemma {:induction false} ValueOfXor(a: seq<bool>, b: seq<bool>)
    requires |a| == |b|
    ensures ValueOf(Xor(a, b)) == XorNat(ValueOf(a), ValueOf(b))
  {
    if a == [] {
      NoBits();
    } else {
      hide ValueOf, XorNat;
      ValueOfXor(a[1..], b[1..]);
      assert Xor(a, b)[1..] == Xor(a[1..], b[1..]);
      FirstBit(a);
      FirstBit(b);
      FirstBit(Xor(a, b));
      XorNatOfMore(if a[0] then 1 else 0, ValueOf(a[1..]), if b[0] then 1 else 0, ValueOf(b[1..]));
    }
  }

  lemma XorNatOfMore(x: nat, a: nat, y: nat, b: nat)
    requires x < 2 && y < 2
    ensures XorNat(x + 2 * a, y + 2 * b) == (x + y) % 2 + 2 * XorNat(a, b)
  {
    assert (x + 2 * a) / 2 == a && (y + 2 * b) / 2 == b;
  }

  lemma TwiceSum(x: nat, a: nat, p: nat, b: nat)
    ensures x + 2 * (a + p * b) == (x + 2 * a) + (2 * p) * b
  {
    Double(p, b);
  }

  lemma {:induction false} ValueOfAppend(a: seq<bool>, b: seq<bool>)
    ensures ValueOf(a + b) == ValueOf(a) + Power2(|a|) * ValueOf(b)
  {
    if a == [] {
      assert a + b == b;
    } else {
      assert (a + b)[1..] == a[1..] + b;
      ValueOfAppend(a[1..], b);
      TwiceSum(if a[0] then 1 else 0, ValueOf(a[1..]), Power2(|a| - 1), ValueOf(b));
    }
  }

  lemma {:induction false} ValueOfPadded(w: seq<bool>)
    ensures ValueOf(w + [false]) == ValueOf(w)
  {
    if w == [] {
      FirstBit([false]);
      assert w + [false] == [false] && [false][1..] == [];
    } else {
      assert (w + [false])[1..] == w[1..] + [false];
      ValueOfPadded(w[1..]);
    }
  }

  lemma {:induction false} ValueOfZeros(n: nat)
    ensures ValueOf(Zeros(n)) == 0
  {
    if n > 0 {
      assert Zeros(n)[1..] == Zeros(n - 1);
      ValueOfZeros(n - 1);
    }
  }

  lemma {:induction false} ValueOfOnes(n: nat)
    ensures ValueOf(Ones(n)) == Power2(n) - 1
  {
    if n > 0 {
      assert Ones(n)[1..] == Ones(n - 1);
      ValueOfOnes(n - 1);
    }
  }

  // The order in which the bits of a byte go through a CRC register.
  datatype Order = MsbFirst | LsbFirst

  function ByteBits(order: Order, b: byte): (w: seq<bool>)
    ensures |w| == 8
  {
    if order.LsbFirst? then LowBits(b as nat, 8) else Reverse(LowBits(b as nat, 8))
  }

  lemma Power2Of8()
    ensures Power2(8) == 256
  {
    assert Power2(4) == 16;
  }

  function ByteOf(order: Order, w: seq<bool>): (b: byte)
    requires |w| == 8
    ensures ByteBits(order, b) == w
  {
    var low := if order.LsbFirst? then w else Reverse(w);
    Power2Of8();
    LowBitsOfValue(low);
    assert Reverse(Reverse(w)) == w;
    ValueOf(low) as byte
  }

  // The bits of a byte are its binary digits, in either order.
  lemma ByteBitsValue(b: byte)
    ensures ValueOf(ByteBits(LsbFirst, b)) == b as nat
    ensures ValueOf(Reverse(ByteBits(MsbFirst, b))) == b as nat
  {
    Power2Of8();
    ValueOfLowBits(b as nat, 8);
    assert Reverse(Reverse(LowBits(b as nat, 8))) == LowBits(b as nat, 8);
  }

  lemma ByteBitsInjective(order: Order, a: byte, b: byte)
    requires ByteBits(order, a) == ByteBits(order, b)
    ensures a == b
  {
    var v, w := LowBits(a as nat, 8), LowBits(b as nat, 8);
    assert v == Reverse(Reverse(v)) && w == Reverse(Reverse(w));
    Power2Of8();
    ValueOfLowBits(a as nat, 8);
    ValueOfLowBits(b as nat, 8);
  }

  // ----- Byte strings as bit strings

  function AllBits(order: Order, m: seq<byte>): (w: seq<bool>)
    ensures |w| == 8 * |m|
  {
    if m == [] then [] else AllBits(order, m[..|m| - 1]) + ByteBits(order, m[|m| - 1])
  }

  lemma AllBitsOfMore(order: Order, m: seq<byte>, b: byte)
    ensures AllBits(order, m + [b]) == AllBits(order, m) + ByteBits(order, b)
  {
    assert (m + [b])[..|m|] == m;
  }

  lemma AllBitsOfFrame(order: Order, m: seq<byte>, a: byte, b: byte)
    ensures AllBits(order, m + [a, b]) == AllBits(order, m) + (ByteBits(order, a) + ByteBits(order, b))
  {
    hide AllBits, ByteBits;
    assert m + [a, b] == (m + [a]) + [b];
    AllBitsOfMore(order, m + [a], b);
    AllBitsOfMore(order, m, a);
  }

  lemma AllBitsSplit(order: Order, m: seq<byte>, k: nat)
    requires |m| == k + 1
    ensures AllBits(order, m)[..8 * k] == AllBits(order, m[..k])
    ensures AllBits(order, m)[8 * k..] == ByteBits(order, m[k])
  {
    hide ByteBits;
    assert AllBits(order, m) == AllBits(order, m[..k]) + ByteBits(order, m[k]);
  }

  lemma {:induction false} AllBitsInjective(order: Order, m: seq<byte>, n: seq<byte>)
    requires AllBits(order, m) == AllBits(order, n)
    ensures m == n
  {
    hide AllBits, ByteBits;
    assert 8 * |m| == 8 * |n|;
    if m != [] {
      var k := |m| - 1;
      AllBitsSplit(order, m, k);
      AllBitsSplit(order, n, k);
      AllBitsInjective(order, m[..k], n[..k]);
      ByteBitsInjective(order, m[k], n[k]);
      assert m == m[..k] + [m[k]] && n == n[..k] + [n[k]];
    }
  }

  lemma {:induction false} BitsOfByte(order: Order, m: seq<byte>, k: nat)
    requires k < |m|
    ensures AllBits(order, m)[8 * k..8 * k + 8] == ByteBits(order, m[k])
  {
    hide AllBits, ByteBits;
    var last := |m| - 1;
    AllBitsSplit(order, m, last);
    if k < last {
      BitsOfByte(order, m[..last], k);
      assert AllBits(order, m)[8 * k..8 * k + 8] == AllBits(order, m)[..8 * last][8 * k..8 * k + 8];
    } else {
      assert AllBits(order, m)[8 * k..8 * k + 8] == AllBits(order, m)[8 * last..];
    }
  }

  lemma BitOfByte(order: Order, m: seq<byte>, i: nat)
    requires i < 8 * |m|
    ensures AllBits(order, m)[i] == ByteBits(order, m[i / 8])[i % 8]
  {
    hide AllBits, ByteBits;
    var k := i / 8;
    BitsOfByte(order, m, k);
    assert AllBits(order, m)[i] == AllBits(order, m)[8 * k..8 * k + 8][i - 8 * k];
  }

  // b ^ 0x20
  function Flip(b: byte): (f: byte)
    ensures f != b
  {
    if b / 32 % 2 == 1 then b - 32 else b + 32
  }

  // Flip changes bit 5 and no other, which is the exclusive or with 0x20.
  lemma FlipIsXor(b: byte)
    ensures var w := ByteBits(LsbFirst, b);
      ByteBits(LsbFirst, Flip(b)) == w[5 := !w[5]]
  {
    assert Power2(5) == 2 * Power2(4) == 32;
    if b / 32 % 2 == 1 {
      SetBit5((b - 32) as nat);
      assert LowBits(b as nat, 8)[5 := false] == LowBits((b - 32) as nat, 8);
    } else {
      SetBit5(b as nat);
    }
  }

  lemma SetBit5(v: nat)
    requires v / 32 % 2 == 0
    ensures LowBits(v + 32, 8) == LowBits(v, 8)[5 := true] && !LowBits(v, 8)[5]
  {
    assert Power2(5) == 2 * Power2(4) == 32;
    Bit5(v);
    AddPower(v, 5, 8);
  }

  lemma Bit5(v: nat)
    ensures LowBits(v, 8)[5] == (v / 32 % 2 == 1)
  {
    assert LowBits(v, 8)[5] == LowBits(v / 2, 7)[4] == LowBits(v / 2 / 2, 6)[3];
    assert LowBits(v / 2 / 2, 6)[3] == LowBits(v / 2 / 2 / 2, 5)[2] == LowBits(v / 2 / 2 / 2 / 2, 4)[1];
    assert LowBits(v / 2 / 2 / 2 / 2, 4)[1] == LowBits(v / 2 / 2 / 2 / 2 / 2, 3)[0];
    assert v / 2 / 2 / 2 / 2 / 2 == v / 32;
  }

  lemma {:induction false} AddPower(v: nat, a: nat, n: nat)
    requires a < n && !LowBits(v, n)[a]
    ensures LowBits(v + Power2(a), n) == LowBits(v, n)[a := true]
    decreases a
  {
    if a > 0 {
      assert LowBits(v, n)[1..] == LowBits(v / 2, n - 1);
      AddPower(v / 2, a - 1, n - 1);
      assert (v + Power2(a)) / 2 == v / 2 + Power2(a - 1);
    } else {
      assert (v + 1) / 2 == v / 2;
    }
  }

  lemma FlipFlip(b: byte)
    ensures Flip(Flip(b)) == b
  {}
}
