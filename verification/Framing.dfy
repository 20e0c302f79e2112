// The framing of the mote serial protocol: byte stuffing on the way out, the
// resynchronising receiver on the way in, and what the two do to each other.

module Framing {
  import opened Bits
  import opened Sequences
  import opened SerialCrc

  const SYNC_BYTE: byte := 0x7e
  const ESCAPE_BYTE: byte := 0x7d
  const MTU := 128

  // The longest type + first byte + payload that a receiver can deliver: the
  // two CRC bytes follow it, and a buffer of MTU bytes is already too long.
  const LONGEST := 125

  // ----- Encoder

  predicate Special(b: byte) { b == SYNC_BYTE || b == ESCAPE_BYTE }

  function StuffByte(b: byte): seq<byte> {
    if Special(b) then [ESCAPE_BYTE, Flip(b)] else [b]
  }

  function Stuff(m: seq<byte>): seq<byte> {
    if m == [] then [] else Stuff(m[..|m| - 1]) + StuffByte(m[|m| - 1])
  }

  // The bytes on the line for the bytes m: type, first byte and payload.
  function Frame(m: seq<byte>): seq<byte> {
    [SYNC_BYTE] + Stuff(m + Trailer(m)) + [SYNC_BYTE]
  }

  function Stream(ms: seq<seq<byte>>): seq<byte> {
    if ms == [] then [] else Frame(ms[0]) + Stream(ms[1..])
  }

  // ----- Receiver

  // recv.in_sync, recv.escaped and recv.packet[..recv.count]
  datatype Receiver = Receiver(inSync: bool, escaped: bool, body: seq<byte>)

  const START := Receiver(false, false, [])

  function Step(r: Receiver, b: byte): Receiver {
    if !r.inSync then
      if b == SYNC_BYTE then Receiver(true, false, []) else r
    else if |r.body| >= MTU then r.(inSync := false)
    else if r.escaped then
      if b == SYNC_BYTE then r.(inSync := false)
      else r.(escaped := false, body := r.body + [Flip(b)])
    else if b == ESCAPE_BYTE then r.(escaped := true)
    else if b == SYNC_BYTE then r.(body := [])
    else r.(body := r.body + [b])
  }

  // What the byte b makes the receiver hand to process_packet: nothing or one
  // body without its CRC.
  function Accept(r: Receiver, b: byte): (heard: seq<seq<byte>>) {
    if r.inSync && |r.body| < MTU && !r.escaped && b == SYNC_BYTE && |r.body| >= 4 && Checked(r.body)
    then [r.body[..|r.body| - 2]]
    else []
  }

  function Feed(r: Receiver, bs: seq<byte>): Receiver {
    if bs == [] then r else Step(Feed(r, bs[..|bs| - 1]), bs[|bs| - 1])
  }

  function Heard(r: Receiver, bs: seq<byte>): seq<seq<byte>> {
    if bs == [] then []
    else Heard(r, bs[..|bs| - 1]) + Accept(Feed(r, bs[..|bs| - 1]), bs[|bs| - 1])
  }

  lemma {:induction false} FeedAppend(r: Receiver, a: seq<byte>, b: seq<byte>)
    ensures Feed(r, a + b) == Feed(Feed(r, a), b)
    ensures Heard(r, a + b) == Heard(r, a) + Heard(Feed(r, a), b)
  {
    if b == [] {
      assert a + b == a;
    } else {
      var init, last := b[..|b| - 1], b[|b| - 1];
      assert (a + b)[..|a + b| - 1] == a + init;
      FeedAppend(r, a, init);
      Associative(Heard(r, a), Heard(Feed(r, a), init), Accept(Feed(r, a + init), last));
    }
  }

  lemma FeedOne(r: Receiver, b: byte)
    ensures Feed(r, [b]) == Step(r, b) && Heard(r, [b]) == Accept(r, b)
  {
    assert [b][..0] == [];
  }

  // ----- Over all byte streams

  predicate Bounded(r: Receiver) { |r.body| <= MTU }

  predicate Deliverable(m: seq<byte>) { 2 <= |m| <= LONGEST }

  // The buffer never overflows, and only bodies of 2 to 125 bytes reach
  // process_packet.
  lemma {:induction false} ReceiverInvariant(r: Receiver, bs: seq<byte>)
    requires Bounded(r)
    ensures Bounded(Feed(r, bs))
    ensures forall m :: m in Heard(r, bs) ==> Deliverable(m)
  {
    if bs != [] {
      ReceiverInvariant(r, bs[..|bs| - 1]);
    }
  }

  // ----- Stuffing

  lemma {:induction false} StuffAppend(a: seq<byte>, b: seq<byte>)
    ensures Stuff(a + b) == Stuff(a) + Stuff(b)
  {
    if b == [] {
      assert a + b == a;
    } else {
      assert (a + b)[..|a + b| - 1] == a + b[..|b| - 1];
      StuffAppend(a, b[..|b| - 1]);
    }
  }

  lemma {:induction false} StuffHasNoSync(m: seq<byte>)
    ensures SYNC_BYTE !in Stuff(m)
  {
    if m != [] {
      StuffHasNoSync(m[..|m| - 1]);
    }
  }

  // At most two bytes for one, and two for every one only if all are special.
  lemma {:induction false} StuffLength(m: seq<byte>)
    ensures |m| <= |Stuff(m)| <= 2 * |m|
    ensures |Stuff(m)| == 2 * |m| <==> forall b :: b in m ==> Special(b)
  {
    if m != [] {
      hide Flip;
      var init, last := m[..|m| - 1], m[|m| - 1];
      StuffLength(init);
      assert m == init + [last];
      assert (forall b :: b in m ==> Special(b)) <==> (forall b :: b in init ==> Special(b)) && Special(last);
      assert |Stuff(m)| == |Stuff(init)| + if Special(last) then 2 else 1;
    }
  }

  // The encoder's buffer of 2 * (count + 4) + 2 bytes is never overrun, and
  // is filled exactly when every byte needs escaping.
  lemma {:induction false} FrameFitsBuffer(m: seq<byte>, count: nat)
    requires |m| == count + 2
    ensures |Frame(m)| <= 2 * (count + 4) + 2
    ensures |Frame(m)| == 2 * (count + 4) + 2 <==> forall b :: b in m + Trailer(m) ==> Special(b)
  {
    StuffLength(m + Trailer(m));
  }

  // Sync bytes stand at both ends and nowhere else.
  lemma FrameDelimited(m: seq<byte>, i: nat)
    requires i < |Frame(m)|
    ensures Frame(m)[i] == SYNC_BYTE <==> i == 0 || i == |Frame(m)| - 1
  {
    var s := Stuff(m + Trailer(m));
    StuffHasNoSync(m + Trailer(m));
    if 0 < i < |Frame(m)| - 1 {
      assert Frame(m)[i] == s[i - 1];
    }
  }

  // Byte unstuffing as a function; a dangling escape byte decodes to nothing.
  function Unstuff(bs: seq<byte>): seq<byte> {
    if bs == [] then []
    else if bs[0] != ESCAPE_BYTE then [bs[0]] + Unstuff(bs[1..])
    else if |bs| == 1 then []
    else [Flip(bs[1])] + Unstuff(bs[2..])
  }

  lemma {:induction false} UnstuffStuffThen(m: seq<byte>, rest: seq<byte>)
    ensures Unstuff(Stuff(m) + rest) == m + Unstuff(rest)
  {
    if m == [] {
      assert Stuff(m) + rest == rest;
    } else {
      var init, last := m[..|m| - 1], m[|m| - 1];
      var tail := StuffByte(last) + rest;
      assert Stuff(m) + rest == Stuff(init) + tail;
      hide Stuff, StuffByte, Unstuff;
      UnstuffStuffThen(init, tail);
      UnstuffByteThen(last, rest);
      assert m == init + [last];
      Associative(init, [last], Unstuff(rest));
    }
  }

  lemma UnstuffByteThen(b: byte, rest: seq<byte>)
    ensures Unstuff(StuffByte(b) + rest) == [b] + Unstuff(rest)
  {
    FlipFlip(b);
    assert (StuffByte(b) + rest)[|StuffByte(b)|..] == rest;
  }

  // Decoding what lies between the sync bytes gives back type, first byte,
  // payload and CRC, so no two packets share a frame.
  lemma {:induction false} FrameDecodes(m: seq<byte>)
    ensures Unstuff(Frame(m)[1..|Frame(m)| - 1]) == m + Trailer(m)
  {
    hide Stuff, Trailer;
    var body := m + Trailer(m);
    assert Frame(m)[1..|Frame(m)| - 1] == Stuff(body) == Stuff(body) + [];
    UnstuffStuffThen(body, []);
    assert Unstuff([]) == [] && body + [] == body;
  }

  // ----- The receiver on frames

  // Between frames: either out of sync or at the start of a body.
  predicate Ready(r: Receiver) {
    !r.inSync || (!r.escaped && r.body == [])
  }

  // The opening sync byte of a frame is lost on such a receiver.
  predicate Blocked(r: Receiver) {
    r.inSync && (r.escaped || |r.body| >= MTU)
  }

  const OPEN := Receiver(true, false, [])

  lemma {:induction false} OutOfSyncIsDeaf(r: Receiver, bs: seq<byte>)
    requires !r.inSync && SYNC_BYTE !in bs
    ensures Feed(r, bs) == r && Heard(r, bs) == []
  {
    if bs != [] {
      OutOfSyncIsDeaf(r, bs[..|bs| - 1]);
    }
  }

  lemma {:induction false} StuffedBodyFills(r: Receiver, m: seq<byte>)
    requires r.inSync && !r.escaped && |r.body| + |m| <= MTU
    ensures Feed(r, Stuff(m)) == r.(body := r.body + m) && Heard(r, Stuff(m)) == []
  {
    if m == [] {
      assert r.body + m == r.body;
    } else {
      var init, last := m[..|m| - 1], m[|m| - 1];
      assert r.body + m == (r.body + init) + [last];
      StuffedBodyFills(r, init);
      StuffedByteFills(r.(body := r.body + init), last);
      FeedTwo(r, Stuff(init), r.(body := r.body + init), StuffByte(last));
    }
  }

  // FeedAppend with the state in the middle named.
  lemma FeedTwo(r: Receiver, a: seq<byte>, mid: Receiver, b: seq<byte>)
    requires Feed(r, a) == mid
    ensures Feed(r, a + b) == Feed(mid, b)
    ensures Heard(r, a + b) == Heard(r, a) + Heard(mid, b)
  {
    FeedAppend(r, a, b);
  }

  lemma StuffedByteFills(r: Receiver, b: byte)
    requires r.inSync && !r.escaped && |r.body| < MTU
    ensures Feed(r, StuffByte(b)) == r.(body := r.body + [b]) && Heard(r, StuffByte(b)) == []
  {
    if Special(b) {
      FlipFlip(b);
      assert StuffByte(b) == [ESCAPE_BYTE] + [Flip(b)];
      FeedAppend(r, [ESCAPE_BYTE], [Flip(b)]);
      FeedOne(r, ESCAPE_BYTE);
      FeedOne(r.(escaped := true), Flip(b));
    } else {
      FeedOne(r, b);
    }
  }

  // A stuffed body longer than the buffer puts the receiver out of sync.
  lemma OverlongBodyLosesSync(m: seq<byte>)
    requires |m| > MTU
    ensures !Feed(OPEN, Stuff(m)).inSync && Heard(OPEN, Stuff(m)) == []
  {
    hide Feed, Heard, Stuff;
    var a, b := m[..MTU], m[MTU..];
    var full := Receiver(true, false, a);
    assert m == a + b;
    assert Stuff(m) == Stuff(a) + Stuff(b) by { StuffAppend(a, b); }
    assert Feed(OPEN, Stuff(a)) == full && Heard(OPEN, Stuff(a)) == [] by {
      assert [] + a == a;
      StuffedBodyFills(OPEN, a);
    }
    assert !Feed(full, Stuff(b)).inSync && Heard(full, Stuff(b)) == [] by {
      StuffHasNoSync(b);
      StuffLength(b);
      FullLosesSync(full, Stuff(b));
    }
    FeedTwo(OPEN, Stuff(a), full, Stuff(b));
  }

  lemma FullLosesSync(full: Receiver, bs: seq<byte>)
    requires full.inSync && |full.body| >= MTU && bs != [] && SYNC_BYTE !in bs
    ensures !Feed(full, bs).inSync && Heard(full, bs) == []
  {
    assert bs == [bs[0]] + bs[1..];
    FeedOne(full, bs[0]);
    FeedTwo(full, [bs[0]], full.(inSync := false), bs[1..]);
    OutOfSyncIsDeaf(full.(inSync := false), bs[1..]);
  }

  lemma BodyHeard(m: seq<byte>)
    requires 2 <= |m| <= LONGEST
    ensures Step(Receiver(true, false, m + Trailer(m)), SYNC_BYTE) == OPEN
    ensures Accept(Receiver(true, false, m + Trailer(m)), SYNC_BYTE) == [m]
  {
    var body := m + Trailer(m);
    CheckedIffTrailer(m, Trailer(m)[0], Trailer(m)[1]);
    assert body == m + [Trailer(m)[0], Trailer(m)[1]];
    assert body[..|body| - 2] == m;
  }

  // From the opening sync byte on: delivered exactly when not too long.
  lemma FrameBodyHeard(m: seq<byte>)
    requires |m| >= 2
    ensures var bs := Stuff(m + Trailer(m)) + [SYNC_BYTE];
            && Ready(Feed(OPEN, bs))
            && Heard(OPEN, bs) == if |m| <= LONGEST then [m] else []
  {
    var body := m + Trailer(m);
    var r := Feed(OPEN, Stuff(body));
    FeedTwo(OPEN, Stuff(body), r, [SYNC_BYTE]);
    FeedOne(r, SYNC_BYTE);
    if |body| <= MTU {
      StuffedBodyFills(OPEN, body);
      assert r == Receiver(true, false, body);
      if |m| <= LONGEST {
        BodyHeard(m);
      }
    } else {
      OverlongBodyLosesSync(body);
    }
  }

  // A frame met in any state. Only a blocked receiver loses it, and whatever
  // the state was, the receiver is ready afterwards.
  lemma {:induction false} FrameHeard(r: Receiver, m: seq<byte>)
    requires |m| >= 2 && Bounded(r)
    ensures Ready(Feed(r, Frame(m)))
    ensures Heard(r, Frame(m)) ==
            if Blocked(r) then []
            else Accept(r, SYNC_BYTE) + if |m| <= LONGEST then [m] else []
  {
    var s := Stuff(m + Trailer(m));
    var r' := Step(r, SYNC_BYTE);
    assert Frame(m) == [SYNC_BYTE] + (s + [SYNC_BYTE]);
    hide Feed, Heard, Frame, Stuff, Trailer, Checked;
    FeedAppend(r, [SYNC_BYTE], s + [SYNC_BYTE]);
    FeedOne(r, SYNC_BYTE);
    if Blocked(r) {
      StuffHasNoSync(m + Trailer(m));
      FeedAppend(r', s, [SYNC_BYTE]);
      OutOfSyncIsDeaf(r', s);
      FeedOne(r', SYNC_BYTE);
    } else {
      FrameBodyHeard(m);
    }
  }

  // ----- Streams of frames

  // Every packet has a type and a first byte.
  predicate Packets(ms: seq<seq<byte>>) { forall i :: 0 <= i < |ms| ==> |ms[i]| >= 2 }

  function Fitting(ms: seq<seq<byte>>): seq<seq<byte>> {
    if ms == [] then []
    else (if |ms[0]| <= LONGEST then [ms[0]] else []) + Fitting(ms[1..])
  }

  // A receiver that is between frames delivers exactly the packets that fit,
  // in order; oversized frames are lost and harm no other.
  lemma {:induction false} StreamHeard(r: Receiver, ms: seq<seq<byte>>)
    requires Ready(r) && Bounded(r)
    requires Packets(ms)
    ensures Heard(r, Stream(ms)) == Fitting(ms)
    ensures Ready(Feed(r, Stream(ms)))
    decreases ms
  {
    if ms != [] {
      FrameThen(r, ms[0], Stream(ms[1..]));
      ReadyHearsNoJunk(r);
      StreamHeard(Feed(r, Frame(ms[0])), ms[1..]);
      HeadAndTail(Heard(r, Stream(ms)), [], false, ms);
    }
  }

  lemma FrameThen(r: Receiver, m: seq<byte>, rest: seq<byte>)
    requires |m| >= 2 && Bounded(r)
    ensures var r' := Feed(r, Frame(m));
      && Ready(r') && Bounded(r')
      && Feed(r, Frame(m) + rest) == Feed(r', rest)
      && Heard(r, Frame(m) + rest) ==
         (if Blocked(r) then [] else Accept(r, SYNC_BYTE) + if |m| <= LONGEST then [m] else []) + Heard(r', rest)
  {
    FrameHeard(r, m);
    ReceiverInvariant(r, Frame(m));
    FeedTwo(r, Frame(m), Feed(r, Frame(m)), rest);
  }

  lemma ReadyHearsNoJunk(r: Receiver)
    requires Ready(r)
    ensures !Blocked(r) && Accept(r, SYNC_BYTE) == []
  {}

  // A frame that was cut before its closing sync byte, as by a failed write, is
  // delivered all the same once another frame follows.
  lemma {:induction false} CutFrameHeard(r: Receiver, m: seq<byte>, next: seq<byte>)
    requires Ready(r) && Bounded(r) && Deliverable(m) && |next| >= 2
    ensures var cut := Frame(m)[..|Frame(m)| - 1];
      && Heard(r, cut) == []
      && Heard(r, cut + Frame(next)) == [m] + if |next| <= LONGEST then [next] else []
  {
    var body := m + Trailer(m);
    var cut, mid := [SYNC_BYTE] + Stuff(body), Receiver(true, false, body);
    assert Frame(m)[..|Frame(m)| - 1] == cut;
    ReadyHearsNoJunk(r);
    FeedOne(r, SYNC_BYTE);
    assert [] + body == body;
    StuffedBodyFills(OPEN, body);
    FeedTwo(r, [SYNC_BYTE], OPEN, Stuff(body));
    hide Feed, Heard, Frame, Stuff;
    FeedTwo(r, cut, mid, Frame(next));
    BodyHeard(m);
    FrameHeard(mid, next);
  }

  // What is heard of the bytes before the first frame, its opening sync byte
  // included.
  function Junk(r: Receiver, garbage: seq<byte>): seq<seq<byte>> {
    var r' := Feed(r, garbage);
    Heard(r, garbage) + if Blocked(r') then [] else Accept(r', SYNC_BYTE)
  }

  // What is heard of frames sent to a receiver in state r.
  function Kept(r: Receiver, ms: seq<seq<byte>>): seq<seq<byte>>
    requires ms != []
  {
    Fitting(if Blocked(r) then ms[1..] else ms)
  }

  // Self-synchronisation. After any bytes in any state, the frames that
  // follow are delivered; the first is lost exactly if the receiver is then in
  // sync and either escaped or full. Anything else that is heard is made of
  // the bytes before the frames.
  lemma {:induction false} SelfSynchronisation(r: Receiver, garbage: seq<byte>, ms: seq<seq<byte>>)
    requires Bounded(r) && ms != [] && Packets(ms)
    ensures Heard(r, garbage + Stream(ms)) == Junk(r, garbage) + Kept(Feed(r, garbage), ms)
  {
    var r' := Feed(r, garbage);
    ReceiverInvariant(r, garbage);
    FeedTwo(r, garbage, r', Stream(ms));
    ResynchronisedStream(r', ms);
    Associative(Heard(r, garbage), if Blocked(r') then [] else Accept(r', SYNC_BYTE), Kept(r', ms));
  }

  lemma ResynchronisedStream(r: Receiver, ms: seq<seq<byte>>)
    requires Bounded(r) && ms != []
    requires Packets(ms)
    ensures Heard(r, Stream(ms)) == (if Blocked(r) then [] else Accept(r, SYNC_BYTE)) + Kept(r, ms)
  {
    var r', rest := Feed(r, Frame(ms[0])), Stream(ms[1..]);
    FrameThen(r, ms[0], rest);
    StreamHeard(r', ms[1..]);
    HeadAndTail(Heard(r, Stream(ms)), Accept(r, SYNC_BYTE), Blocked(r), ms);
  }

  lemma HeadAndTail(heard: seq<seq<byte>>, junk: seq<seq<byte>>, blocked: bool, ms: seq<seq<byte>>)
    requires ms != []
    requires heard == (if blocked then [] else junk + if |ms[0]| <= LONGEST then [ms[0]] else []) + Fitting(ms[1..])
    ensures heard == if blocked then Fitting(ms[1..]) else junk + Fitting(ms)
  {
    var first := if |ms[0]| <= LONGEST then [ms[0]] else [];
    var rest := Fitting(ms[1..]);
    assert Fitting(ms) == first + rest;
    if blocked {
      assert [] + rest == rest;
    } else {
      Associative(junk, first, rest);
    }
  }
}
