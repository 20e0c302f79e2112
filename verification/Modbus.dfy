// src/driver/GN1200.c: the reflected Modbus CRC and the reply parser that
// rests on it.

module Modbus {
  import opened Bits
  import Crc
  import opened CrcInC
  import opened Sequences

  // 0xA001, least significant bit first
  const POLY: word := [true] + Zeros(12) + [true, false, true]

  const ONES: word := Ones(16) // 0xffff

  lemma PolyIs0xA001()
    ensures ValueOf(POLY) == 0xA001
  {
    ValueOfShifted(12, [true, false, true]);
    assert POLY == [true] + (Zeros(12) + [true, false, true]);
    assert Power2(4) == 16 && Power2(8) == 16 * Power2(4) && Power2(12) == 16 * Power2(8);
    assert ValueOf([true, false, true]) == 5 by {
      assert [true, false, true][1..] == [false, true] && [false, true][1..] == [true] && [true][1..] == [];
    }
  }

  // The byte is xor-ed into the low half, then eight right shifts follow.
  function Crc16(m: seq<byte>): word { Crc.CrcBytes(POLY, LsbFirst, ONES, m) }

  // On numbers: the loops of CRC16 with their constants.
  lemma Crc16InC(m: seq<byte>)
    ensures ValueOf(Crc16(m)) == DownBytes(0xffff, 0xA001, m)
  {
    PolyIs0xA001();
    ValueOfOnes(16);
    Power2Of16();
    BytesAreDown(POLY, ONES, m);
  }

  // The inner loop of CRC16
  method ShiftEight(crc: word) returns (r: word)
    ensures r == Crc.Shifts(POLY, crc, 8)
  {
    r := crc;
    var i := 0;
    while i < 8
      invariant 0 <= i <= 8
      invariant Crc.Shifts(POLY, r, 8 - i) == Crc.Shifts(POLY, crc, 8)
    {
      var flag := r[0];
      r := r[1..] + [false];
      if flag {
        r := Xor(r, POLY);
      }
      i := i + 1;
    }
  }

  method ComputeCrc16(m: seq<byte>) returns (crc: word)
    ensures crc == Crc16(m) && ValueOf(crc) == DownBytes(0xffff, 0xA001, m)
  {
    Crc16InC(m);
    crc := ONES;
    var k := 0;
    while k < |m|
      invariant k <= |m|
      invariant crc == Crc16(m[..k])
    {
      assert m[..k + 1][..k] == m[..k];
      crc := ShiftEight(Xor(crc, ByteBits(LsbFirst, m[k]) + Zeros(8)));
      k := k + 1;
    }
    assert m[..k] == m;
  }

  // crc & 0x00ff and crc >> 8 & 0x00ff
  function Low(crc: word): byte { ByteOf(LsbFirst, crc[..8]) }
  function High(crc: word): byte { ByteOf(LsbFirst, crc[8..]) }

  lemma HalvesOf(crc: word, lo: byte, hi: byte)
    ensures ByteBits(LsbFirst, lo) + ByteBits(LsbFirst, hi) == crc <==> lo == Low(crc) && hi == High(crc)
  {
    assert crc == crc[..8] + crc[8..];
    if ByteBits(LsbFirst, lo) + ByteBits(LsbFirst, hi) == crc {
      assert crc[..8] == ByteBits(LsbFirst, lo) && crc[8..] == ByteBits(LsbFirst, hi);
      ByteBitsInjective(LsbFirst, lo, Low(crc));
      ByteBitsInjective(LsbFirst, hi, High(crc));
    }
  }

  // Two bytes after m clear the register exactly if they are CRC16(m), low
  // byte first; so comparing the two bytes is testing for a zero residue.
  lemma {:induction false} ResidueIsZeroIffCrc(m: seq<byte>, lo: byte, hi: byte)
    ensures Crc16(m + [lo, hi]) == Zeros(16) <==> lo == Low(Crc16(m)) && hi == High(Crc16(m))
  {
    hide Crc.CrcBytes, AllBits, ByteBits;
    var w := ByteBits(LsbFirst, lo) + ByteBits(LsbFirst, hi);
    Crc.CrcBytesIsRun(POLY, LsbFirst, ONES, m);
    Crc.CrcBytesIsRun(POLY, LsbFirst, ONES, m + [lo, hi]);
    AllBitsOfFrame(LsbFirst, m, lo, hi);
    Crc.RunAppend(POLY, ONES, AllBits(LsbFirst, m), w);
    Crc.ResidueZero(POLY, Crc16(m), w);
    HalvesOf(Crc16(m), lo, hi);
  }

  // ----- ParsingReceiveValue

  const FRAME := 13

  // Header of a reply: address 1, function 3, eight data bytes.
  predicate HeaderAt(buf: seq<byte>, i: nat) {
    i + 2 < |buf| && buf[i] == 1 && buf[i + 1] == 3 && buf[i + 2] == 8
  }

  // The comparison of the two CRC bytes; a frame that runs past the end of
  // the buffer does not match.
  predicate CrcMatchesAt(buf: seq<byte>, i: nat) {
    && i + FRAME <= |buf|
    && buf[i + 11] == Low(Crc16(buf[i..i + 11]))
    && buf[i + 12] == High(Crc16(buf[i..i + 11]))
  }

  // The readings from position i on, and where the remainder starts, if the
  // remainder started at from so far. One byte after each frame is skipped.
  function Scan(buf: seq<byte>, i: nat, from: nat): (seq<seq<byte>>, nat)
    decreases |buf| - i
  {
    if i >= |buf| then ([], from)
    else if HeaderAt(buf, i) then
      if CrcMatchesAt(buf, i) then
        var (readings, rest) := Scan(buf, i + FRAME + 1, i + FRAME);
        ([buf[i + 5..i + 7]] + readings, rest)
      else ([], |buf|)
    else if i + 1 == |buf| then ([], |buf|)
    else Scan(buf, i + 1, from)
  }

  lemma ScanStep(buf: seq<byte>, i: nat, from: nat)
    requires i < |buf|
    ensures Scan(buf, i, from) ==
      if HeaderAt(buf, i) then
        if CrcMatchesAt(buf, i) then
          ([buf[i + 5..i + 7]] + Scan(buf, i + FRAME + 1, i + FRAME).0, Scan(buf, i + FRAME + 1, i + FRAME).1)
        else ([], |buf|)
      else if i + 1 == |buf| then ([], |buf|)
      else Scan(buf, i + 1, from)
  {}

  lemma ScanEnds(buf: seq<byte>, i: nat, from: nat)
    ensures i >= |buf| ==> Scan(buf, i, from) == ([], from)
  {}

  // remain: how many bytes at the end of the buffer are kept.
  method Parse(buf: seq<byte>, previous: nat) returns (readings: seq<seq<byte>>, remain: int)
    requires buf != []
    ensures readings == Scan(buf, 0, previous).0
    ensures remain == |buf| - Scan(buf, 0, previous).1
  {
    hide Scan, Crc16;
    readings := [];
    var i, remainSize := 0, previous;
    while i < |buf|
      invariant 0 <= i && 0 <= remainSize
      invariant readings + Scan(buf, i, remainSize).0 == Scan(buf, 0, previous).0
      invariant Scan(buf, i, remainSize).1 == Scan(buf, 0, previous).1
      decreases |buf| - i
    {
      ScanStep(buf, i, remainSize);
      if HeaderAt(buf, i) {
        var tlen := buf[i + 2] as int;
        var matches := false;
        if i + 5 + tlen <= |buf| {
          var crc := ComputeCrc16(buf[i..i + 3 + tlen]);
          matches := buf[i + 3 + tlen] == Low(crc) && buf[i + 4 + tlen] == High(crc);
        }
        if matches {
          Associative(readings, [buf[i + 5..i + 7]], Scan(buf, i + FRAME + 1, i + FRAME).0);
          readings := readings + [buf[i + 5..i + 7]];
          i := i + tlen + 5;
          remainSize := i;
        } else {
          i := |buf| - 1;
          remainSize := i + 1;
        }
      } else if i + 1 == |buf| {
        i := |buf| - 1;
        remainSize := i + 1;
      }
      i := i + 1;
      ScanEnds(buf, i, remainSize);
    }
    ScanEnds(buf, i, remainSize);
    remain := |buf| - remainSize;
  }

  // A reply as the device sends it: address 1, function 3, eight data bytes,
  // then the CRC of these eleven bytes, low byte first.
  predicate Genuine(frame: seq<byte>) {
    && |frame| == 13 && frame[..3] == [0x01, 0x03, 0x08]
    && var crc := DownBytes(0xffff, 0xA001, frame[..11]);
       frame[11] as nat == crc % 0x100 && frame[12] as nat == crc / 0x100
  }

  // The same as the header and a zero residue.
  lemma GenuineIsResidue(frame: seq<byte>)
    ensures Genuine(frame) <==> |frame| == FRAME && HeaderAt(frame, 0) && Crc16(frame) == Zeros(16)
  {
    if |frame| == FRAME {
      hide Crc16, DownBytes, ValueOf, ByteOf, Crc.CrcBytes;
      Crc16InC(frame[..11]);
      HalvesOfValue(Crc16(frame[..11]));
      ResidueIsZeroIffCrc(frame[..11], frame[11], frame[12]);
      assert frame == frame[..11] + [frame[11], frame[12]];
      assert frame[..3] == [frame[0], frame[1], frame[2]];
    }
  }

  lemma MatchIsResidue(buf: seq<byte>, i: nat)
    requires i + FRAME <= |buf|
    ensures CrcMatchesAt(buf, i) <==> Crc16(buf[i..i + FRAME]) == Zeros(16)
  {
    assert buf[i..i + FRAME] == buf[i..i + 11] + [buf[i + 11], buf[i + 12]];
    ResidueIsZeroIffCrc(buf[i..i + 11], buf[i + 11], buf[i + 12]);
  }

  // r is the reading of a genuine reply at position k.
  predicate TakenAt(buf: seq<byte>, k: int, r: seq<byte>) {
    0 <= k <= |buf| - FRAME && Genuine(buf[k..k + FRAME]) && r == buf[k + 5..k + 7]
  }

  // Whatever the buffer, every reading comes from thirteen consecutive bytes
  // with the header and a zero residue.
  lemma {:induction false} ReadingsAreGenuine(buf: seq<byte>, i: nat, from: nat)
    ensures forall r :: r in Scan(buf, i, from).0 ==>
      exists k :: TakenAt(buf, k, r)
    decreases |buf| - i
  {
    hide Genuine;
    if i < |buf| {
      if HeaderAt(buf, i) {
        if CrcMatchesAt(buf, i) {
          MatchIsTaken(buf, i);
          ReadingsAreGenuine(buf, i + FRAME + 1, i + FRAME);
        }
      } else if i + 1 < |buf| {
        ReadingsAreGenuine(buf, i + 1, from);
      }
    }
  }

  lemma MatchIsTaken(buf: seq<byte>, i: nat)
    requires HeaderAt(buf, i) && CrcMatchesAt(buf, i)
    ensures TakenAt(buf, i, buf[i + 5..i + 7])
  {
    hide Crc16, Low, High, Genuine;
    assert HeaderAt(buf[i..i + FRAME], 0);
    MatchIsResidue(buf, i);
    GenuineIsResidue(buf[i..i + FRAME]);
  }

  lemma {:induction false} NoRoomNoReading(buf: seq<byte>, i: nat, from: nat)
    requires i > |buf| - FRAME && i < |buf|
    ensures Scan(buf, i, from) == ([], |buf|)
    decreases |buf| - i
  {
    if i + 1 < |buf| && !HeaderAt(buf, i) {
      NoRoomNoReading(buf, i + 1, from);
    }
  }

  // A buffer of thirteen bytes yields its reading if it is genuine and
  // nothing otherwise, and nothing of it is kept.
  lemma SingleReply(frame: seq<byte>, previous: nat)
    requires |frame| == 13
    ensures Scan(frame, 0, previous) == (if Genuine(frame) then [frame[5..7]] else [], 13)
  {
    hide Genuine, Crc16, CrcMatchesAt;
    GenuineIsResidue(frame);
    MatchIsResidue(frame, 0);
    assert frame[0..FRAME] == frame;
    if HeaderAt(frame, 0) {
      if CrcMatchesAt(frame, 0) {
        assert [frame[5..7]] + [] == [frame[5..7]];
      }
    } else {
      NoRoomNoReading(frame, 1, previous);
    }
  }

  // No reading is taken from a reply with one or two adjacent bytes wrong,
  // header, data or CRC.
  lemma DamagedReplyRejected(frame: seq<byte>, damaged: seq<byte>, at: nat, previous: nat)
    requires Genuine(frame) && |damaged| == FRAME && damaged != frame
    requires forall i :: 0 <= i < FRAME && i != at && i != at + 1 ==> frame[i] == damaged[i]
    ensures Scan(damaged, 0, previous).0 == []
  {
    hide Genuine;
    GenuineIsResidue(frame);
    GenuineIsResidue(damaged);
    SingleReply(damaged, previous);
    if Genuine(damaged) {
      Crc.AdjacentBytesAreBurst(LsbFirst, frame, damaged, at);
      Crc.BurstChangesCrc(POLY, LsbFirst, ONES, frame, damaged, 8 * at);
    }
  }

  // From i to k, where no reply is taken: a header on the way ends the search.
  lemma {:induction false} ScanOver(buf: seq<byte>, i: nat, k: nat, from: nat)
    requires i <= k < |buf| && forall j :: i <= j < k ==> !(HeaderAt(buf, j) && CrcMatchesAt(buf, j))
    ensures Scan(buf, i, from)
         == if exists j :: i <= j < k && HeaderAt(buf, j) then ([], |buf|) else Scan(buf, k, from)
    decreases k - i
  {
    hide CrcMatchesAt;
    if i < k && !HeaderAt(buf, i) {
      ScanOver(buf, i + 1, k, from);
    }
  }

  lemma ReplyInside(before: seq<byte>, frame: seq<byte>, after: seq<byte>)
    requires Genuine(frame)
    ensures var buf, i := before + frame + after, |before|;
      HeaderAt(buf, i) && CrcMatchesAt(buf, i) && buf[i + 5..i + 7] == frame[5..7]
  {
    hide Crc16, CrcMatchesAt, Genuine;
    GenuineIsResidue(frame);
    var buf, i := before + frame + after, |before|;
    assert buf[i..i + FRAME] == frame;
    forall k | 0 <= k < FRAME ensures buf[i + k] == frame[k] {}
    MatchIsResidue(buf, i);
  }

  // Two replies in one buffer with a gap between them in which no third one is
  // taken: the second is read if and only if there is a gap, because the byte
  // after the first is skipped, and no header begins behind its first byte.
  lemma {:induction false} SecondReplyIff(a: seq<byte>, gap: seq<byte>, b: seq<byte>, previous: nat)
    requires Genuine(a) && Genuine(b)
    requires var buf := a + gap + b;
      forall j :: FRAME < j < FRAME + |gap| ==> !(HeaderAt(buf, j) && CrcMatchesAt(buf, j))
    ensures var buf := a + gap + b;
      var found := gap != [] && forall j :: FRAME < j < FRAME + |gap| ==> !HeaderAt(buf, j);
      Scan(buf, 0, previous) == (if found then [a[5..7], b[5..7]] else [a[5..7]], |buf|)
  {
    hide Crc16, CrcMatchesAt, Scan, Genuine, HeaderAt;
    GenuineIsResidue(a);
    GenuineIsResidue(b);
    var buf, second := a + gap + b, FRAME + |gap|;
    ReplyInside([], a, gap + b);
    ReplyInside(a + gap, b, []);
    assert [] + a + (gap + b) == buf && a + gap + b + [] == buf;
    ScanStep(buf, 0, previous);
    if gap == [] {
      NoRoomNoReading(buf, FRAME + 1, FRAME);
    } else {
      ScanOver(buf, FRAME + 1, second, FRAME);
      ScanStep(buf, second, FRAME);
      ScanEnds(buf, |buf| + 1, |buf|);
      assert [a[5..7]] + ([b[5..7]] + []) == [a[5..7], b[5..7]];
    }
    assert [a[5..7]] + [] == [a[5..7]];
  }
}
