// process_packet: which queue a received packet goes to and which ack it
// causes, for whole histories of received packets.

module Inbox {
  import opened Bits
  import opened Framing
  import opened Sequences

  const P_ACK: byte := 64
  const P_PACKET_ACK: byte := 65
  const P_PACKET_NO_ACK: byte := 66

  // ----- One received body m: type, first byte, payload

  function KindOf(m: seq<byte>): byte
    requires m != []
  {
    if m[0] == P_PACKET_ACK then P_PACKET_NO_ACK else m[0]
  }

  function ContentOf(m: seq<byte>): seq<byte>
    requires |m| >= 2
  {
    if m[0] == P_PACKET_ACK then m[2..] else m[1..]
  }

  function AckFor(m: seq<byte>): seq<byte>
    requires |m| >= 2
  {
    if m[0] == P_PACKET_ACK then Frame([P_ACK, m[1]]) else []
  }

  // ----- Histories

  // What the bodies ms put into the queue of a type, in order.
  function Filed(ms: seq<seq<byte>>, kind: byte): seq<seq<byte>>
    requires Packets(ms)
  {
    if ms == [] then []
    else (if KindOf(ms[0]) == kind then [ContentOf(ms[0])] else []) + Filed(ms[1..], kind)
  }

  // The bytes written in answer to the bodies ms.
  function Acks(ms: seq<seq<byte>>): seq<byte>
    requires Packets(ms)
  {
    if ms == [] then [] else AckFor(ms[0]) + Acks(ms[1..])
  }

  lemma {:induction false} FiledAppend(a: seq<seq<byte>>, b: seq<seq<byte>>, kind: byte)
    requires Packets(a) && Packets(b)
    ensures Packets(a + b)
    ensures Filed(a + b, kind) == Filed(a, kind) + Filed(b, kind)
  {
    if a == [] {
      assert a + b == b;
    } else {
      assert (a + b)[1..] == a[1..] + b;
      FiledAppend(a[1..], b, kind);
    }
  }

  lemma {:induction false} AcksAppend(a: seq<seq<byte>>, b: seq<seq<byte>>)
    requires Packets(a) && Packets(b)
    ensures Packets(a + b)
    ensures Acks(a + b) == Acks(a) + Acks(b)
  {
    hide AckFor;
    if a == [] {
      assert a + b == b;
      assert Acks([]) + Acks(b) == Acks(b);
    } else {
      AcksAppend(a[1..], b);
      var ab := a + b;
      assert Packets(ab) && ab[0] == a[0] && ab[1..] == a[1..] + b;
      assert Acks(ab) == AckFor(a[0]) + (Acks(a[1..]) + Acks(b));
      Associative(AckFor(a[0]), Acks(a[1..]), Acks(b));
    }
  }

  // One body: type 65 is filed as type 66 without its first byte, which the
  // ack of type 64 returns; any other type is filed as it is. FiledAppend and
  // AcksAppend leave no choice for more than one.
  lemma OneBody(m: seq<byte>, kind: byte)
    requires |m| >= 2
    ensures Packets([m])
    ensures Filed([m], kind) ==
      if m[0] == 65 then (if kind == 66 then [m[2..]] else [])
      else if m[0] == kind then [m[1..]] else []
    ensures Acks([m]) == if m[0] == 65 then Frame([64, m[1]]) else []
  {
    hide Frame;
    assert [m][1..] == [];
    assert Acks([m]) == AckFor(m) + [] == AckFor(m);
  }

  lemma HeardPackets(r: Receiver, bs: seq<byte>)
    requires Bounded(r)
    ensures Packets(Heard(r, bs))
  {
    ReceiverInvariant(r, bs);
    forall i | 0 <= i < |Heard(r, bs)| ensures |Heard(r, bs)[i]| >= 2 {
      assert Heard(r, bs)[i] in Heard(r, bs);
    }
  }

  lemma JunkIsPackets(r: Receiver, garbage: seq<byte>)
    requires Bounded(r)
    ensures Packets(Junk(r, garbage))
  {
    HeardPackets(r, garbage);
  }

  // Only packets of type 66 can be empty, and queue 65 stays empty.
  lemma {:induction false} FiledShape(ms: seq<seq<byte>>, kind: byte)
    requires Packets(ms)
    ensures kind != P_PACKET_NO_ACK ==> forall i :: 0 <= i < |Filed(ms, kind)| ==> Filed(ms, kind)[i] != []
    ensures kind == P_PACKET_ACK ==> Filed(ms, kind) == []
  {
    if ms != [] {
      FiledShape(ms[1..], kind);
    }
  }

  // ----- Packets as the sender sees them

  datatype Packet = Packet(kind: byte, first: byte, payload: seq<byte>)

  function Body(p: Packet): seq<byte> { [p.kind, p.first] + p.payload }

  function Bodies(ps: seq<Packet>): (ms: seq<seq<byte>>)
    ensures Packets(ms)
  {
    if ps == [] then [] else [Body(ps[0])] + Bodies(ps[1..])
  }

  // What the receiver of ps owes to the readers of one type: nothing for a
  // payload of more than 123 bytes, the bare payload for a packet that asked
  // for an ack (type 65, filed as 66), and first byte and payload for every
  // other one.
  function Owed(ps: seq<Packet>, kind: byte): seq<seq<byte>> {
    if ps == [] then []
    else
      var p := ps[0];
      (if |p.payload| > 123 then []
       else if p.kind == 65 then (if kind == 66 then [p.payload] else [])
       else if p.kind == kind then [[p.first] + p.payload]
       else [])
      + Owed(ps[1..], kind)
  }

  function OwedAcks(ps: seq<Packet>): seq<byte> {
    if ps == [] then []
    else (if ps[0].kind == 65 && |ps[0].payload| <= 123 then Frame([64, ps[0].first]) else [])
         + OwedAcks(ps[1..])
  }

  lemma {:induction false} FittingPackets(ms: seq<seq<byte>>)
    requires Packets(ms)
    ensures Packets(Fitting(ms))
  {
    if ms != [] {
      FittingPackets(ms[1..]);
    }
  }

  lemma FiledFirst(m: seq<byte>, rest: seq<seq<byte>>, kind: byte)
    requires |m| >= 2 && Packets(rest)
    ensures Packets([m] + rest)
    ensures Filed([m] + rest, kind) == (if KindOf(m) == kind then [ContentOf(m)] else []) + Filed(rest, kind)
    ensures Acks([m] + rest) == AckFor(m) + Acks(rest)
  {
    assert ([m] + rest)[1..] == rest;
  }

  lemma BodyParts(p: Packet)
    ensures Body(p)[0] == p.kind && Body(p)[1] == p.first
    ensures Body(p)[1..] == [p.first] + p.payload && Body(p)[2..] == p.payload
  {}

  // One packet more at the front.
  lemma FittingFirst(p: Packet, ps: seq<Packet>)
    requires ps != [] && ps[0] == p
    ensures Fitting(Bodies(ps)) ==
            if |p.payload| <= 123 then [Body(p)] + Fitting(Bodies(ps[1..])) else Fitting(Bodies(ps[1..]))
  {
    assert Bodies(ps)[0] == Body(p) && Bodies(ps)[1..] == Bodies(ps[1..]);
  }

  lemma {:induction false} FiledIsOwed(ps: seq<Packet>, kind: byte)
    ensures Packets(Fitting(Bodies(ps)))
    ensures Filed(Fitting(Bodies(ps)), kind) == Owed(ps, kind)
    ensures Acks(Fitting(Bodies(ps))) == OwedAcks(ps)
  {
    FittingPackets(Bodies(ps));
    if ps != [] {
      hide Frame, Fitting, Bodies;
      var p, rest := ps[0], Fitting(Bodies(ps[1..]));
      FiledIsOwed(ps[1..], kind);
      FittingFirst(p, ps);
      BodyParts(p);
      if |p.payload| <= 123 {
        FiledFirst(Body(p), rest, kind);
      } else {
        assert Owed(ps, kind) == [] + Owed(ps[1..], kind);
        assert OwedAcks(ps) == [] + OwedAcks(ps[1..]);
      }
    }
  }

  // Round trip through the line: any packets, encoded one after the other and
  // met between frames, fill each queue with exactly what is owed and cause
  // exactly the acks that are owed.
  lemma {:induction false} StreamRoundTrip(r: Receiver, ps: seq<Packet>, kind: byte)
    requires Ready(r) && Bounded(r)
    ensures var heard := Heard(r, Stream(Bodies(ps)));
      && Packets(heard)
      && Filed(heard, kind) == Owed(ps, kind)
      && Acks(heard) == OwedAcks(ps)
  {
    StreamHeard(r, Bodies(ps));
    FiledIsOwed(ps, kind);
  }
}
