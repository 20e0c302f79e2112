// The line as its bytes: what the encoder of module Framing writes and what
// its receiver hears of any bytes, in the constants of src/serialsource.c and
// without the steps of either.

module LineFormat {
  import opened Bits
  import opened CrcInC
  import opened Framing
  import opened Sequences
  import opened SerialCrc

  // ----- Frames

  function Escaped(m: seq<byte>): seq<byte> {
    if m == [] then []
    else (if m[0] == 0x7e then [0x7d, 0x5e] else if m[0] == 0x7d then [0x7d, 0x5d] else [m[0]]) + Escaped(m[1..])
  }

  // The number that the shift loop computes, low byte first.
  function CrcBytes(m: seq<byte>): (t: seq<byte>)
    ensures |t| == 2
  {
    TrailerInC(m);
    var crc := UpBytes(0, 0x1021, m);
    [(crc % 0x100) as byte, (crc / 0x100) as byte]
  }

  lemma EscapedFirst(b: byte, m: seq<byte>)
    ensures Escaped([b] + m) == StuffByte(b) + Escaped(m)
  {
    assert ([b] + m)[1..] == m;
  }

  lemma {:induction false} StuffIsEscaped(m: seq<byte>)
    ensures Stuff(m) == Escaped(m)
  {
    if m != [] {
      hide Stuff, Escaped, StuffByte;
      var first, rest := [m[0]], m[1..];
      assert m == first + rest;
      StuffAppend(first, rest);
      StuffOne(m[0]);
      StuffIsEscaped(rest);
      EscapedFirst(m[0], rest);
    } else {
      assert Stuff([]) == [] == Escaped([]);
    }
  }

  lemma StuffOne(b: byte)
    ensures Stuff([b]) == StuffByte(b)
  {
    assert [b][..0] == [] && [] + StuffByte(b) == StuffByte(b);
  }

  // The bytes of every frame.
  lemma {:induction false} FrameIs(m: seq<byte>)
    ensures Frame(m) == [0x7e] + Escaped(m + CrcBytes(m)) + [0x7e]
  {
    hide Stuff, Escaped, UpBytes, CrcPacket;
    TrailerInC(m);
    StuffIsEscaped(m + Trailer(m));
  }

  // ----- What lies between two sync bytes

  // The bytes that a stretch without sync bytes stands for, and whether it
  // ends in an escape byte that nothing follows.
  datatype Content = Content(bytes: seq<byte>, open: bool)

  function ContentOf(c: seq<byte>): Content {
    if c == [] then Content([], false)
    else
      var before, b := ContentOf(c[..|c| - 1]), c[|c| - 1];
      if before.open then Content(before.bytes + [Flip(b)], false)
      else if b == 0x7d then Content(before.bytes, true)
      else Content(before.bytes + [b], false)
  }

  // 4 to 127 bytes of which the last two are the CRC of the others
  predicate Intact(c: seq<byte>) {
    var s, n := ContentOf(c).bytes, |ContentOf(c).bytes|;
    !ContentOf(c).open && 4 <= n <= 127 && s[n - 2..] == CrcBytes(s[..n - 2])
  }

  // The sync byte at the end is lost: on a buffer that is just full, or as the
  // byte that was escaped.
  predicate SwallowsSync(c: seq<byte>) {
    var Content(s, open) := ContentOf(c);
    if open then |s| < 128 else |s| == 128
  }

  // What is delivered of the stretches between sync bytes; there is no sync
  // byte before the first and behind the last. Without listening the next
  // stretch is not heard.
  function Delivered(stretches: seq<seq<byte>>, listening: bool): seq<seq<byte>>
    requires stretches != []
    decreases stretches
  {
    if |stretches| == 1 then []
    else
      var c, later := stretches[0], stretches[1..];
      if !listening then Delivered(later, true)
      else
        var s := ContentOf(c).bytes;
        (if Intact(c) then [s[..|s| - 2]] else []) + Delivered(later, !SwallowsSync(c))
  }

  // ----- The receiver hears exactly that

  lemma Filling(c: seq<byte>)
    requires c != []
    ensures var before, b, now := ContentOf(c[..|c| - 1]), c[|c| - 1], ContentOf(c);
      && (before.open ==> now == Content(before.bytes + [Flip(b)], false))
      && (!before.open && b == ESCAPE_BYTE ==> now == Content(before.bytes, true))
      && (!before.open && b != ESCAPE_BYTE ==> now == Content(before.bytes + [b], false))
  {}

  lemma FeedLast(r: Receiver, c: seq<byte>)
    requires c != [] && Accept(Feed(r, c[..|c| - 1]), c[|c| - 1]) == []
    ensures Feed(r, c) == Step(Feed(r, c[..|c| - 1]), c[|c| - 1])
    ensures Heard(r, c) == Heard(r, c[..|c| - 1])
  {
    assert Heard(r, c[..|c| - 1]) + [] == Heard(r, c[..|c| - 1]);
  }

  lemma {:induction false} StretchFed(c: seq<byte>)
    requires SYNC_BYTE !in c
    ensures Heard(OPEN, c) == []
    ensures var Content(s, open) := ContentOf(c);
      if |s| < MTU || (|s| == MTU && !open) then Feed(OPEN, c) == Receiver(true, open, s)
      else !Feed(OPEN, c).inSync
  {
    if c == [] {
      assert Feed(OPEN, c) == OPEN;
    } else {
      hide Feed, Heard, ContentOf, Checked, Flip;
      StretchFed(c[..|c| - 1]);
      Filling(c);
      FeedLast(OPEN, c);
    }
  }

  lemma IntactIffChecked(c: seq<byte>)
    requires !ContentOf(c).open && 4 <= |ContentOf(c).bytes| <= 127
    ensures Intact(c) <==> Checked(ContentOf(c).bytes)
  {
    hide ContentOf, Checked, CrcBytes;
    var s := ContentOf(c).bytes;
    LastTwo(s);
    CheckedIffCrcBytes(s);
  }

  lemma LastTwo(s: seq<byte>)
    requires |s| >= 2
    ensures var n := |s| - 2; s == s[..n] + [s[n], s[n + 1]] && s[n..] == [s[n], s[n + 1]]
  {}

  lemma CrcBytesAreTrailer(m: seq<byte>)
    ensures CrcBytes(m) == Trailer(m)
  {
    hide UpBytes, Trailer;
    TrailerInC(m);
  }

  lemma CheckedIffCrcBytes(s: seq<byte>)
    requires |s| >= 2
    ensures Checked(s) <==> s[|s| - 2..] == CrcBytes(s[..|s| - 2])
  {
    hide Checked, CrcBytes, Trailer;
    var n := |s| - 2;
    LastTwo(s);
    CrcBytesAreTrailer(s[..n]);
    CheckedIffTrailer(s[..n], s[n], s[n + 1]);
  }

  // A stretch and the sync byte behind it.
  lemma StretchHeard(c: seq<byte>)
    requires SYNC_BYTE !in c
    ensures var s, end := ContentOf(c).bytes, Feed(OPEN, c + [SYNC_BYTE]);
      && (Intact(c) ==> |s| >= 4)
      && Heard(OPEN, c + [SYNC_BYTE]) == (if Intact(c) then [s[..|s| - 2]] else [])
      && if SwallowsSync(c) then !end.inSync else end == OPEN
  {
    hide Feed, Heard, ContentOf, Checked, CrcBytes;
    StretchFed(c);
    var r := Feed(OPEN, c);
    FeedTwo(OPEN, c, r, [SYNC_BYTE]);
    FeedOne(r, SYNC_BYTE);
    if !ContentOf(c).open && 4 <= |ContentOf(c).bytes| <= 127 {
      IntactIffChecked(c);
    }
  }

  lemma DeafStretch(r: Receiver, c: seq<byte>)
    requires SYNC_BYTE !in c && !r.inSync
    ensures Feed(r, c + [SYNC_BYTE]) == OPEN && Heard(r, c + [SYNC_BYTE]) == []
  {
    hide Feed, Heard;
    OutOfSyncIsDeaf(r, c);
    FeedTwo(r, c, r, [SYNC_BYTE]);
    FeedOne(r, SYNC_BYTE);
  }

  lemma {:induction false} StretchesHeard(r: Receiver, stretches: seq<seq<byte>>, listening: bool)
    requires stretches != [] && forall i :: 0 <= i < |stretches| ==> SYNC_BYTE !in stretches[i]
    requires if listening then r == OPEN else !r.inSync
    ensures Heard(r, Joined(stretches, SYNC_BYTE)) == Delivered(stretches, listening)
    decreases stretches
  {
    hide Feed, Heard, Intact, SwallowsSync;
    var c := stretches[0];
    if |stretches| == 1 {
      if listening {
        StretchFed(c);
      } else {
        OutOfSyncIsDeaf(r, c);
      }
    } else {
      var part := c + [SYNC_BYTE];
      if listening {
        StretchHeard(c);
      } else {
        DeafStretch(r, c);
      }
      var r' := Feed(r, part);
      FeedTwo(r, part, r', Joined(stretches[1..], SYNC_BYTE));
      StretchesHeard(r', stretches[1..], !listening || !SwallowsSync(c));
    }
  }

  // Whatever bytes arrive at a fresh receiver, it delivers the contents of
  // exactly those stretches between sync bytes that are intact, except those
  // whose opening sync byte was lost to the stretch before.
  lemma {:induction false} ReceiverDelivers(bytes: seq<byte>)
    ensures Heard(START, bytes) == Delivered(Columns(bytes, 0x7e), false)
  {
    hide Columns, Heard, Delivered;
    JoinedColumns(bytes, 0x7e);
    StretchesHeard(START, Columns(bytes, 0x7e), false);
  }

  // ----- Damaged frames

  // What stands before a stretch that closes all its escapes.
  lemma {:induction false} ContentAfter(a: seq<byte>, c: seq<byte>)
    requires !ContentOf(a).open
    ensures ContentOf(a + c) == Content(ContentOf(a).bytes + ContentOf(c).bytes, ContentOf(c).open)
  {
    if c == [] {
      assert a + c == a && ContentOf(a).bytes + [] == ContentOf(a).bytes;
    } else {
      var init, b := c[..|c| - 1], c[|c| - 1];
      assert (a + c)[..|a + c| - 1] == a + init;
      hide ContentOf, Flip;
      ContentAfter(a, init);
      Filling(a + c);
      Filling(c);
      var s, t := ContentOf(a).bytes, ContentOf(init).bytes;
      Associative(s, t, [b]);
      Associative(s, t, [Flip(b)]);
    }
  }

  lemma ContentOfOne(b: byte)
    ensures ContentOf(StuffByte(b)) == Content([b], false)
    ensures b != ESCAPE_BYTE ==> ContentOf([b]) == Content([b], false)
    ensures ContentOf([ESCAPE_BYTE, b]) == Content([Flip(b)], false)
  {
    FlipFlip(b);
    assert [b][..0] == [] && [ESCAPE_BYTE, b][..1] == [ESCAPE_BYTE] && [ESCAPE_BYTE][..0] == [];
    assert ContentOf([ESCAPE_BYTE]) == Content([], true);
    assert Special(b) ==> StuffByte(b)[..1] == [ESCAPE_BYTE] && StuffByte(b) == [ESCAPE_BYTE, Flip(b)];
    assert ContentOf([ESCAPE_BYTE, Flip(b)]) == Content([Flip(Flip(b))], false) by {
      assert [ESCAPE_BYTE, Flip(b)][..1] == [ESCAPE_BYTE];
    }
  }

  lemma {:induction false} ContentOfEscaped(m: seq<byte>)
    ensures ContentOf(Escaped(m)) == Content(m, false) && SYNC_BYTE !in Escaped(m)
  {
    StuffIsEscaped(m);
    StuffHasNoSync(m);
    if m != [] {
      hide Stuff, Escaped, StuffByte, ContentOf;
      var b, rest := m[0], m[1..];
      assert m == [b] + rest;
      ContentOfEscaped(rest);
      EscapedFirst(b, rest);
      ContentOfOne(b);
      ContentAfter(StuffByte(b), Escaped(rest));
    } else {
      NoContent();
    }
  }

  // Unstuffing is reading off the content.
  lemma {:induction false} UnstuffIsContent(c: seq<byte>)
    ensures Unstuff(c) == ContentOf(c).bytes
  {
    hide ContentOf;
    if c == [] || c == [ESCAPE_BYTE] {
      NoContent();
    } else if c[0] != ESCAPE_BYTE {
      UnstuffIsContent(c[1..]);
      ContentOfOne(c[0]);
      ContentAfter([c[0]], c[1..]);
      assert c == [c[0]] + c[1..];
    } else {
      UnstuffIsContent(c[2..]);
      ContentOfOne(c[1]);
      assert c == c[..2] + c[2..] && c[..2] == [ESCAPE_BYTE, c[1]];
      ContentAfter(c[..2], c[2..]);
    }
  }

  lemma NoContent()
    ensures ContentOf([]) == Content([], false) && Escaped([]) == []
    ensures ContentOf([]).bytes == [] && ContentOf([ESCAPE_BYTE]).bytes == []
    ensures Unstuff([]) == [] && Unstuff([ESCAPE_BYTE]) == []
  {
    assert [ESCAPE_BYTE][..0] == [];
  }

  // Any bytes, sent like a body with its CRC to a receiver between frames, are
  // delivered exactly if the last two are the CRC of the others.
  lemma {:induction false} BodyDelivered(r: Receiver, body: seq<byte>)
    requires Ready(r) && Bounded(r) && 4 <= |body| < 128
    ensures var m := body[..|body| - 2];
      Heard(r, [0x7e] + Escaped(body) + [0x7e]) == if body[|body| - 2..] == CrcBytes(m) then [m] else []
  {
    hide Feed, Heard, Escaped, ContentOf, CrcBytes;
    ReadyHearsNoJunk(r);
    FeedOne(r, SYNC_BYTE);
    ContentOfEscaped(body);
    StretchHeard(Escaped(body));
    FeedTwo(r, [SYNC_BYTE], OPEN, Escaped(body) + [SYNC_BYTE]);
    Associative([SYNC_BYTE], Escaped(body), [SYNC_BYTE]);
  }

  // Nothing is delivered of a frame in which an odd number of bits is wrong,
  // CRC included,
  lemma {:induction false} OddDamageIsSilent(r: Receiver, m: seq<byte>, body: seq<byte>)
    requires Ready(r) && Bounded(r) && 2 <= |m| <= 125 && |body| == |m| + 2
    requires Odd(Xor(MessageBits(m + CrcBytes(m)), MessageBits(body)))
    ensures Heard(r, [0x7e] + Escaped(body) + [0x7e]) == []
  {
    hide Heard, Escaped, MessageBits, Checked, CrcBytes;
    BodyDelivered(r, body);
    CrcBytesAreChecked(m);
    var n := body[..|m|];
    CrcBytesAreChecked(n);
    assert body[|m|..] == CrcBytes(n) ==> body == n + CrcBytes(n);
    OddErrorsAreDetected(m + CrcBytes(m), body);
  }

  // or one or two adjacent bytes under the CRC.
  lemma {:induction false} AdjacentDamageIsSilent(r: Receiver, m: seq<byte>, n: seq<byte>, at: nat)
    requires Ready(r) && Bounded(r) && 2 <= |m| <= 125 && |n| == |m| && n != m
    requires forall i :: 0 <= i < |m| && i != at && i != at + 1 ==> m[i] == n[i]
    ensures Heard(r, [0x7e] + Escaped(n + CrcBytes(m)) + [0x7e]) == []
  {
    hide Heard, Escaped, Checked, CrcBytes;
    var body, t := n + CrcBytes(m), CrcBytes(m);
    assert body[..|n|] == n && body[|n|..] == t;
    BodyDelivered(r, body);
    if t == CrcBytes(n) {
      CrcBytesAreChecked(m);
      CrcBytesAreChecked(n);
      assert t == [t[0], t[1]];
      AdjacentBytesAreDetected(m, n, t[0], t[1], at);
    }
  }

  lemma CrcBytesAreChecked(m: seq<byte>)
    ensures Checked(m + CrcBytes(m))
  {
    hide Checked, CrcBytes;
    var s := m + CrcBytes(m);
    assert s[|m|..] == CrcBytes(m) && s[..|m|] == m;
    CheckedIffCrcBytes(s);
  }
}
