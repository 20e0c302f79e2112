// The theory of 16-bit cyclic redundancy checks, bit by bit. A CRC is given
// by the low sixteen coefficients p of its polynomial x^16 + p; registers and
// p are written in the order in which the register shifts.

module Crc {
  import opened Bits

  // Shift one place; add p when a one was shifted out.
  function Shift(p: word, r: word): word {
    var s := r[1..] + [false];
    if r[0] then Xor(s, p) else s
  }

  function Shifts(p: word, r: word, n: nat): word
    decreases n
  {
    if n == 0 then r else Shifts(p, Shift(p, r), n - 1)
  }

  // One message bit enters at the end where bits leave.
  function Step(p: word, r: word, bit: bool): word {
    var s := r[1..] + [false];
    if r[0] != bit then Xor(s, p) else s
  }

  function Run(p: word, r: word, w: seq<bool>): word
    decreases w
  {
    if w == [] then r else Run(p, Step(p, r, w[0]), w[1..])
  }

  lemma {:induction false} RunAppend(p: word, r: word, a: seq<bool>, b: seq<bool>)
    ensures Run(p, r, a + b) == Run(p, Run(p, r, a), b)
    decreases a
  {
    if a == [] {
      assert a + b == b;
    } else {
      assert (a + b)[1..] == a[1..] + b;
      RunAppend(p, Step(p, r, a[0]), a[1..], b);
    }
  }

  // ----- The byte form: xor a byte in at the outgoing end, then shift 8 times

  lemma ShiftIsStep(p: word, r: word, v: word)
    ensures Shift(p, Xor(r, v)) == Xor(Step(p, r, v[0]), v[1..] + [false])
  {}

  lemma {:induction false} ShiftsAreRun(p: word, r: word, w: seq<bool>)
    requires |w| <= 16
    ensures Shifts(p, Xor(r, w + Zeros(16 - |w|)), |w|) == Run(p, r, w)
    decreases w
  {
    if w == [] {
      assert Xor(r, Zeros(16)) == r;
    } else {
      var v := w + Zeros(16 - |w|);
      var v' := w[1..] + Zeros(16 - |w[1..]|);
      ShiftIsStep(p, r, v);
      assert v[1..] + [false] == v';
      ShiftsAreRun(p, Step(p, r, w[0]), w[1..]);
    }
  }

  // ----- Bursts

  // Two registers that are equal from bit j on after a step were equal from
  // bit j + 1 on before it, whatever bits were fed.
  lemma StepBackwards(p: word, r: word, r': word, b: bool, b': bool, j: nat)
    requires j < 16 && p[15]
    requires Step(p, r, b)[j..] == Step(p, r', b')[j..]
    ensures r[j + 1..] == r'[j + 1..]
  {
    var s, s' := Step(p, r, b), Step(p, r', b');
    assert s[15] == s[j..][15 - j] == s'[j..][15 - j] == s'[15];
    forall i | j + 1 <= i < 16 ensures r[i] == r'[i] {
      assert s[i - 1] == s[j..][i - 1 - j] == s'[j..][i - 1 - j] == s'[i - 1];
    }
  }

  lemma {:induction false} RunBackwards(p: word, r: word, r': word, w: seq<bool>, w': seq<bool>)
    requires p[15] && |w| == |w'| <= 16
    requires Run(p, r, w) == Run(p, r', w')
    ensures r[|w|..] == r'[|w|..]
    decreases w
  {
    if w != [] {
      var s, s' := Step(p, r, w[0]), Step(p, r', w'[0]);
      RunBackwards(p, s, s', w[1..], w'[1..]);
      StepBackwards(p, r, r', w[0], w'[0], |w| - 1);
    }
  }

  // Sixteen message bits or fewer, fed to one register, never collide.
  lemma {:induction false} ShortRunInjective(p: word, r: word, w: seq<bool>, w': seq<bool>)
    requires p[15] && |w| == |w'| <= 16
    requires Run(p, r, w) == Run(p, r, w')
    ensures w == w'
    decreases w
  {
    if w != [] {
      var s, s' := Step(p, r, w[0]), Step(p, r, w'[0]);
      RunBackwards(p, s, s', w[1..], w'[1..]);
      assert s[15] == s[|w| - 1..][16 - |w|] == s'[|w| - 1..][16 - |w|] == s'[15];
      assert w[0] == w'[0];
      ShortRunInjective(p, s, w[1..], w'[1..]);
      assert w == [w[0]] + w[1..] && w' == [w'[0]] + w'[1..];
    }
  }

  lemma StepInjective(p: word, r: word, r': word, b: bool)
    requires p[15] && Step(p, r, b) == Step(p, r', b)
    ensures r == r'
  {
    StepBackwards(p, r, r', b, b, 0);
    assert Step(p, r, b)[15] == Step(p, r', b)[15];
    assert r == [r[0]] + r[1..] && r' == [r'[0]] + r'[1..];
  }

  lemma {:induction false} RunInjective(p: word, r: word, r': word, w: seq<bool>)
    requires p[15] && Run(p, r, w) == Run(p, r', w)
    ensures r == r'
    decreases w
  {
    if w != [] {
      RunInjective(p, Step(p, r, w[0]), Step(p, r', w[0]), w[1..]);
      StepInjective(p, r, r', w[0]);
    }
  }

  // Two messages of one length that differ only inside a window of sixteen
  // bits have different CRCs, wherever the window lies.
  lemma BurstDetected(p: word, r: word, before: seq<bool>, w: seq<bool>, w': seq<bool>, after: seq<bool>)
    requires p[15] && |w| == |w'| <= 16
    requires Run(p, r, before + w + after) == Run(p, r, before + w' + after)
    ensures w == w'
  {
    RunAppend(p, r, before + w, after);
    RunAppend(p, r, before + w', after);
    RunInjective(p, Run(p, r, before + w), Run(p, r, before + w'), after);
    RunAppend(p, r, before, w);
    RunAppend(p, r, before, w');
    ShortRunInjective(p, Run(p, r, before), w, w');
  }

  // ----- Parity: x^16 + p is a multiple of x + 1 when p has odd weight

  lemma StepParity(p: word, r: word, b: bool)
    requires Odd(p)
    ensures Odd(Step(p, r, b)) == (Odd(r) != b)
  {
    var s := r[1..] + [false];
    OddAppend(r[1..], [false]);
    OddXor(s, p);
  }

  lemma {:induction false} RunParity(p: word, r: word, w: seq<bool>)
    requires Odd(p)
    ensures Odd(Run(p, r, w)) == (Odd(r) != Odd(w))
    decreases w
  {
    if w != [] {
      StepParity(p, r, w[0]);
      RunParity(p, Step(p, r, w[0]), w[1..]);
    }
  }

  // ----- Polynomial division over GF(2)

  // q(x) * (x^16 + p), leading coefficient first.
  function Times(p: word, q: seq<bool>): (w: seq<bool>)
    ensures |w| == |q| + 16
  {
    if q == [] then Zeros(16)
    else Xor(Leading(p, q[0], |q| - 1), [false] + Times(p, q[1..]))
  }

  // c * x^n * (x^16 + p)
  function Leading(p: word, c: bool, n: nat): (w: seq<bool>)
    ensures |w| == n + 17
  {
    if c then [true] + p + Zeros(n) else Zeros(n + 17)
  }

  // w(x) * x^16, with the register r added to its leading sixteen coefficients.
  function Dividend(r: word, w: seq<bool>): (d: seq<bool>)
    ensures |d| == |w| + 16
  {
    Xor(w + Zeros(16), r + Zeros(|w|))
  }

  // One step of the register is one step of long division.
  lemma DivideStep(p: word, r: word, w: seq<bool>)
    requires w != []
    ensures Dividend(r, w)
         == Xor(Leading(p, r[0] != w[0], |w| - 1), [false] + Dividend(Step(p, r, w[0]), w[1..]))
  {}

  lemma XorUnderLead(lead: seq<bool>, t: seq<bool>, u: seq<bool>)
    requires |lead| == |t| + 1 && |t| == |u|
    ensures Xor(Xor(lead, [false] + t), [false] + u) == Xor(lead, [false] + Xor(t, u))
  {}

  lemma TimesStep(p: word, q: seq<bool>, rest: seq<bool>)
    requires q != [] && |rest| == |q| + 15
    ensures Xor(Times(p, q), [false] + rest)
         == Xor(Leading(p, q[0], |q| - 1), [false] + Xor(Times(p, q[1..]), rest))
  {
    XorUnderLead(Leading(p, q[0], |q| - 1), Times(p, q[1..]), rest);
  }

  lemma ZerosStep(n: nat, r: word)
    ensures Zeros(n + 1) + r == [false] + (Zeros(n) + r)
  {}

  // The register is a remainder of the dividend: some quotient leaves it.
  lemma {:induction false} Division(p: word, r: word, w: seq<bool>) returns (q: seq<bool>)
    ensures |q| == |w|
    ensures Dividend(r, w) == Xor(Times(p, q), Zeros(|w|) + Run(p, r, w))
    decreases w
  {
    if w == [] {
      q := [];
      DivisionBase(p, r);
    } else {
      var s := Step(p, r, w[0]);
      var q' := Division(p, s, w[1..]);
      q := [r[0] != w[0]] + q';
      DivideStep(p, r, w);
      assert q[1..] == q';
      TimesStep(p, q, Zeros(|w| - 1) + Run(p, s, w[1..]));
      ZerosStep(|w| - 1, Run(p, s, w[1..]));
    }
  }

  lemma DivisionBase(p: word, r: word)
    ensures Dividend(r, []) == r == Xor(Times(p, []), Zeros(0) + r)
  {}

  lemma XorCancels(lead: seq<bool>, t: seq<bool>, u: seq<bool>)
    requires |lead| == |t| + 1 && |t| == |u|
    requires Xor(lead, [false] + t) == Xor(lead, [false] + u)
    ensures t == u
  {
    forall i | 0 <= i < |t| ensures t[i] == u[i] {
      assert Xor(lead, [false] + t)[i + 1] == Xor(lead, [false] + u)[i + 1];
    }
  }

  // It is the only one of degree below 16.
  lemma {:induction false} RemainderUnique(p: word, r: word, w: seq<bool>, q: seq<bool>, rem: word)
    requires |q| == |w|
    requires Dividend(r, w) == Xor(Times(p, q), Zeros(|w|) + rem)
    ensures rem == Run(p, r, w)
    decreases w
  {
    if w == [] {
      DivisionBase(p, r);
      DivisionBase(p, rem);
    } else {
      var s, n := Step(p, r, w[0]), |w| - 1;
      var rest := Zeros(n) + rem;
      var lead := Leading(p, r[0] != w[0], n);
      DivideStep(p, r, w);
      ZerosStep(n, rem);
      TimesStep(p, q, rest);
      assert lead[0] == Dividend(r, w)[0] == Leading(p, q[0], n)[0];
      XorCancels(lead, Dividend(s, w[1..]), Xor(Times(p, q[1..]), rest));
      RemainderUnique(p, s, w[1..], q[1..], rem);
    }
  }

  // ----- Residues

  // Feeding a register its own bits clears it, and no other sixteen bits do.
  lemma {:induction false} OwnBits(p: word, r: word, k: nat)
    requires k <= 16
    ensures Run(p, r[k..] + Zeros(k), r[k..]) == Zeros(16)
    decreases 16 - k
  {
    if k < 16 {
      var v := r[k..] + Zeros(k);
      assert Step(p, v, r[k]) == r[k + 1..] + Zeros(k + 1);
      assert r[k..][1..] == r[k + 1..];
      OwnBits(p, r, k + 1);
    }
  }

  lemma ResidueZero(p: word, r: word, w: word)
    requires p[15]
    ensures Run(p, r, w) == Zeros(16) <==> w == r
  {
    OwnBits(p, r, 0);
    assert r[0..] + Zeros(0) == r;
    if Run(p, r, w) == Zeros(16) {
      ShortRunInjective(p, r, w, r);
    }
  }

  // Bits of two messages that agree outside the window lo .. lo + 16.
  ghost predicate DifferWithin(a: seq<bool>, b: seq<bool>, lo: nat) {
    |a| == |b| && forall i :: 0 <= i < |a| && !(lo <= i < lo + 16) ==> a[i] == b[i]
  }

  lemma WindowDetected(p: word, r: word, a: seq<bool>, b: seq<bool>, lo: nat)
    requires p[15] && DifferWithin(a, b, lo)
    requires Run(p, r, a) == Run(p, r, b)
    ensures a == b
  {
    if lo < |a| {
      var hi := if lo + 16 <= |a| then lo + 16 else |a|;
      Pieces(a, lo, hi);
      Pieces(b, lo, hi);
      assert a[..lo] == b[..lo];
      assert a[hi..] == b[hi..];
      BurstDetected(p, r, a[..lo], a[lo..hi], b[lo..hi], a[hi..]);
    }
  }

  lemma Pieces(a: seq<bool>, lo: nat, hi: nat)
    requires lo <= hi <= |a|
    ensures a == a[..lo] + a[lo..hi] + a[hi..]
  {}

  // ----- Linearity

  lemma StepLinear(p: word, r: word, s: word, b: bool, c: bool)
    ensures Step(p, Xor(r, s), b != c) == Xor(Step(p, r, b), Step(p, s, c))
  {}

  lemma {:induction false} RunLinear(p: word, r: word, s: word, a: seq<bool>, b: seq<bool>)
    requires |a| == |b|
    ensures Run(p, Xor(r, s), Xor(a, b)) == Xor(Run(p, r, a), Run(p, s, b))
    decreases a
  {
    if a != [] {
      StepLinear(p, r, s, a[0], b[0]);
      assert Xor(a, b)[1..] == Xor(a[1..], b[1..]);
      RunLinear(p, Step(p, r, a[0]), Step(p, s, b[0]), a[1..], b[1..]);
    }
  }

  // ----- CRCs of byte strings

  // crc xor the byte at the outgoing end, then eight shifts.
  function CrcByte(p: word, order: Order, crc: word, b: byte): word {
    Shifts(p, Xor(crc, ByteBits(order, b) + Zeros(8)), 8)
  }

  function CrcBytes(p: word, order: Order, init: word, m: seq<byte>): word {
    if m == [] then init else CrcByte(p, order, CrcBytes(p, order, init, m[..|m| - 1]), m[|m| - 1])
  }

  // The byte loop computes the bit-serial register.
  lemma {:induction false} CrcBytesIsRun(p: word, order: Order, init: word, m: seq<byte>)
    ensures CrcBytes(p, order, init, m) == Run(p, init, AllBits(order, m))
  {
    if m != [] {
      var k := |m| - 1;
      CrcBytesIsRun(p, order, init, m[..k]);
      RunAppend(p, init, AllBits(order, m[..k]), ByteBits(order, m[k]));
      ShiftsAreRun(p, CrcBytes(p, order, init, m[..k]), ByteBits(order, m[k]));
    }
  }

  // A burst of at most sixteen bits, wherever it starts, changes the CRC.
  lemma BurstChangesCrc(p: word, order: Order, init: word, m: seq<byte>, n: seq<byte>, at: nat)
    requires p[15] && DifferWithin(AllBits(order, m), AllBits(order, n), at)
    requires CrcBytes(p, order, init, m) == CrcBytes(p, order, init, n)
    ensures m == n
  {
    CrcBytesIsRun(p, order, init, m);
    CrcBytesIsRun(p, order, init, n);
    WindowDetected(p, init, AllBits(order, m), AllBits(order, n), at);
    AllBitsInjective(order, m, n);
  }

  // One wrong byte or two adjacent ones are such a burst.
  lemma AdjacentBytesAreBurst(order: Order, m: seq<byte>, n: seq<byte>, at: nat)
    requires |m| == |n|
    requires forall i :: 0 <= i < |m| && i != at && i != at + 1 ==> m[i] == n[i]
    ensures DifferWithin(AllBits(order, m), AllBits(order, n), 8 * at)
  {
    hide AllBits, ByteBits;
    forall i | 0 <= i < 8 * |m| && !(8 * at <= i < 8 * at + 16)
      ensures AllBits(order, m)[i] == AllBits(order, n)[i]
    {
      BitOfByte(order, m, i);
      BitOfByte(order, n, i);
    }
  }
}
