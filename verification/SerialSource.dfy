// src/serialsource.c as it runs: fields updated byte by byte, buffers filled
// by offset, loops over the line. Every method is tied to the functions of
// SerialCrc, Framing and Inbox.

module Line {
  import opened Bits

  // The device behind the file descriptor. Every split of the bytes into
  // chunks and every timing of their arrival is possible.
  class Device {
    var arrived: seq<byte>         // received by the kernel, not yet read
    var future: seq<seq<byte>>     // bursts still to come
    var sent: seq<byte>            // written so far
    var failures: nat              // how many writes have failed
    var expired: bool              // the deadline has passed

    ghost predicate Valid()
      reads this
    {
      forall i :: 0 <= i < |future| ==> future[i] != []
    }

    constructor (arrived: seq<byte>, future: seq<seq<byte>>)
      requires forall i :: 0 <= i < |future| ==> future[i] != []
      ensures Valid()
      ensures this.arrived == arrived && this.future == future && sent == [] && failures == 0
    {
      this.arrived, this.future, sent, failures, expired := arrived, future, [], 0, false;
    }

    // read: between 1 and limit of the bytes that have arrived, or none if
    // none has.
    method Read(limit: nat) returns (chunk: seq<byte>)
      requires limit > 0
      modifies this`arrived
      ensures old(arrived) == chunk + arrived
      ensures |chunk| <= limit
      ensures chunk == [] <==> old(arrived) == []
    {
      if arrived == [] {
        return [];
      }
      var n :| 1 <= n <= limit && n <= |arrived|;
      chunk, arrived := arrived[..n], arrived[n..];
    }

    // write: any part of the bytes, or a failure.
    method Write(bytes: seq<byte>) returns (n: int)
      requires bytes != []
      modifies this`sent, this`failures
      ensures -1 <= n <= |bytes| && n != 0
      ensures n < 0 ==> sent == old(sent) && failures == old(failures) + 1
      ensures n > 0 ==> sent == old(sent) + bytes[..n] && failures == old(failures)
    {
      var fails: bool := *;
      if fails {
        failures := failures + 1;
        return -1;
      }
      n :| 1 <= n <= |bytes|;
      sent := sent + bytes[..n];
    }

    method SetDeadline()
      modifies this`expired
      ensures !expired
    {
      expired := false;
    }

    // select: true once there are bytes to read, false if the deadline has
    // passed. Without a deadline false means that no bytes will ever come and
    // the call blocks for good.
    method Wait(deadline: bool) returns (ready: bool)
      requires Valid()
      modifies this`arrived, this`future, this`expired
      ensures Valid()
      ensures ready ==> arrived != []
      ensures (arrived == old(arrived) && future == old(future))
           || (old(arrived) == [] && old(future) != [] && ready
               && arrived == old(future)[0] && future == old(future)[1..])
      ensures !ready ==> arrived == old(arrived) && future == old(future)
      ensures !ready && deadline ==> expired
      ensures !ready && !deadline ==> arrived == [] && future == []
    {
      var passes: bool := *;
      if deadline && (expired || passes) {
        expired := true;
        return false;
      }
      if arrived == [] && future != [] {
        arrived, future := future[0], future[1..];
      }
      ready := arrived != [];
      if deadline && !ready {
        expired := true;
      }
    }
  }
}

module SerialSource {
  import opened Bits
  import Crc
  import opened CrcInC
  import opened SerialCrc
  import opened Framing
  import opened Inbox
  import opened Line
  import LineFormat
  import opened Sequences
  import opened Wrappers

  const BUFSIZE := 128

  type Queues = map<byte, seq<seq<byte>>>

  function Get(q: Queues, kind: byte): seq<seq<byte>> {
    if kind in q then q[kind] else []
  }

  // crc_byte
  method ComputeCrcByte(crc: word, b: byte) returns (r: word)
    ensures r == CrcByte(crc, b) && Number(r) == UpByte(Number(crc), 0x1021, b)
  {
    CrcByteInC(crc, b);
    hide ByteBits, Xor, Number, UpByte;
    r := Xor(crc, ByteBits(MsbFirst, b) + Zeros(8));
    ghost var start := r;
    var i := 8;
    while i > 0
      invariant 0 <= i <= 8
      invariant Crc.Shifts(POLY, r, i) == Crc.Shifts(POLY, start, 8)
    {
      if r[0] {
        r := Xor(r[1..] + [false], POLY);
      } else {
        r := r[1..] + [false];
      }
      i := i - 1;
    }
  }

  // crc_packet
  method ComputeCrcPacket(data: seq<byte>) returns (crc: word)
    ensures crc == CrcPacket(data) && Number(crc) == UpBytes(0, 0x1021, data)
  {
    CrcPacketInC(data);
    hide CrcByte, CrcPacket, Number, UpByte, UpBytes;
    NothingEscaped();
    crc := Zeros(16);
    var i := 0;
    assert data[..0] == [];
    while i < |data|
      invariant i <= |data|
      invariant crc == CrcPacket(data[..i])
    {
      CrcPacketOfMore(data[..i], data[i]);
      assert data[..i] + [data[i]] == data[..i + 1];
      crc := ComputeCrcByte(crc, data[i]);
      i := i + 1;
    }
    assert data[..i] == data;
  }

  // Only a front part of the bytes was written.
  ghost predicate PartSent(before: seq<byte>, after: seq<byte>, bytes: seq<byte>) {
    exists k :: 0 <= k <= |bytes| && after == before + bytes[..k]
  }

  // The acks for the packets heard, each in full or in part.
  ghost predicate Answered(before: seq<byte>, after: seq<byte>, heard: seq<seq<byte>>) {
    exists parts :: PartsOfAcks(parts, heard) && after == before + Flat(parts)
  }

  ghost predicate PartsOfAcks(parts: seq<seq<byte>>, heard: seq<seq<byte>>) {
    && |parts| == |heard|
    && forall i :: 0 <= i < |heard| ==> |heard[i]| >= 2 && parts[i] <= AckFor(heard[i])
  }

  lemma AnsweredNothing(sent: seq<byte>)
    ensures Answered(sent, sent, [])
  {
    assert PartsOfAcks([], []) && sent == sent + Flat([]);
  }

  lemma AnsweredOne(before: seq<byte>, after: seq<byte>, m: seq<byte>)
    requires |m| >= 2 && PartSent(before, after, AckFor(m))
    ensures Answered(before, after, [m])
  {
    var k :| 0 <= k <= |AckFor(m)| && after == before + AckFor(m)[..k];
    var parts := [AckFor(m)[..k]];
    assert PartsOfAcks(parts, [m]);
    assert Flat(parts) == AckFor(m)[..k] + Flat([]) == AckFor(m)[..k] by { assert parts[1..] == []; }
  }

  lemma AnsweredMore(a: seq<byte>, b: seq<byte>, c: seq<byte>, heard: seq<seq<byte>>, more: seq<seq<byte>>)
    requires Answered(a, b, heard) && Answered(b, c, more)
    ensures Answered(a, c, heard + more)
  {
    hide PartsOfAcks, Flat;
    var p :| PartsOfAcks(p, heard) && b == a + Flat(p);
    var q :| PartsOfAcks(q, more) && c == b + Flat(q);
    FlatAppend(p, q);
    Associative(a, Flat(p), Flat(q));
    PartsAppend(p, heard, q, more);
    assert PartsOfAcks(p + q, heard + more) && c == a + Flat(p + q);
  }

  lemma PartsAppend(p: seq<seq<byte>>, heard: seq<seq<byte>>, q: seq<seq<byte>>, more: seq<seq<byte>>)
    requires PartsOfAcks(p, heard) && PartsOfAcks(q, more)
    ensures PartsOfAcks(p + q, heard + more)
  {
    hide AckFor;
    forall i | 0 <= i < |heard + more|
      ensures |(heard + more)[i]| >= 2 && (p + q)[i] <= AckFor((heard + more)[i])
    {
      if i < |heard| {
        assert (p + q)[i] == p[i] && (heard + more)[i] == heard[i];
      } else {
        assert (p + q)[i] == q[i - |heard|] && (heard + more)[i] == more[i - |heard|];
      }
    }
  }

  lemma NothingEscaped()
    ensures CrcPacket([]) == Zeros(16) && Stuff([]) == []
  {}

  lemma PrefixGrows(head: seq<byte>, s: seq<byte>, i: nat)
    requires i < |s|
    ensures head + s[..i] + [s[i]] == head + s[..i + 1]
  {}

  class Source {
    const line: Device
    // recv
    const buffer: array<byte>
    var bufpos: nat
    var bufused: nat
    const packet: array<byte>
    var inSync: bool
    var escaped: bool
    var count: nat
    var queue: Queues
    // send
    var seqno: byte
    var frame: array<byte>        // send.escaped
    var framePtr: nat             // send.escapeptr
    var crc: word

    ghost var consumed: seq<byte>  // every byte the receiver has processed
    ghost var taken: Queues        // every packet popped, by type

    ghost function Rx(): Receiver
      reads `inSync, `escaped, `count, packet
      requires count <= packet.Length
    {
      Receiver(inSync, escaped, packet[..count])
    }

    // Read from the device or still there, but not processed.
    ghost function Pending(): seq<byte>
      reads `bufpos, `bufused, buffer, line`arrived
      requires bufpos <= bufused <= buffer.Length
    {
      buffer[bufpos..bufused] + line.arrived
    }

    ghost predicate Shape()
      reads this, line
    {
      && line.Valid()
      && buffer.Length == BUFSIZE && packet.Length == MTU && buffer != packet
      && bufpos <= bufused <= BUFSIZE
      && count <= MTU
    }

    // For every byte stream and every pattern of calls: the receiver is where
    // the bytes so far put it, and each queue holds what those bytes filed
    // there, less what was popped, in order.
    ghost predicate History()
      reads `inSync, `escaped, `count, `queue, `consumed, `taken, packet
      requires count <= packet.Length
    {
      && Rx() == Feed(START, consumed)
      && Packets(Heard(START, consumed))
      && forall kind: byte :: Get(taken, kind) + Get(queue, kind) == Filed(Heard(START, consumed), kind)
    }

    ghost predicate Valid()
      reads this, line, buffer, packet
    {
      Shape() && History()
    }

    // open_serial_source, with the receive state it is meant to have
    constructor (line: Device)
      requires line.Valid()
      ensures Valid() && this.line == line && fresh(buffer) && fresh(packet)
      ensures consumed == [] && taken == map[] && queue == map[] && seqno == 37
      ensures Pending() == line.arrived
    {
      this.line := line;
      buffer, bufpos, bufused := new byte[BUFSIZE], 0, 0;
      packet, inSync, escaped, count := new byte[MTU], false, false, 0;
      queue, seqno := map[], 37;
      frame, framePtr, crc := new byte[0], 0, Zeros(16);
      consumed, taken := [], map[];
    }

    // ----- Writing

    // source_write: 0 for success as in write_framed_packet
    method SourceWrite(bytes: seq<byte>) returns (r: int)
      modifies line`sent, line`failures
      ensures r == 0 || r == -1
      ensures line.failures == old(line.failures) + if r == -1 then 1 else 0
      ensures r == 0 ==> line.sent == old(line.sent) + bytes
      ensures r == -1 ==> PartSent(old(line.sent), line.sent, bytes)
    {
      var done := 0;
      while done < |bytes|
        invariant done <= |bytes|
        invariant line.sent == old(line.sent) + bytes[..done] && line.failures == old(line.failures)
      {
        var n := line.Write(bytes[done..]);
        if n < 0 {
          return -1;
        }
        assert bytes[..done] + bytes[done..][..n] == bytes[..done + n];
        done := done + n;
      }
      assert bytes[..done] == bytes;
      r := 0;
    }

    ghost function Escaped(): seq<byte>
      reads this, frame
      requires framePtr <= frame.Length
    {
      frame[..framePtr]
    }

    method EscapeAdd(b: byte)
      requires framePtr < frame.Length
      modifies this`framePtr, frame
      ensures framePtr == old(framePtr) + 1
      ensures Escaped() == old(Escaped()) + [b]
    {
      frame[framePtr] := b;
      framePtr := framePtr + 1;
    }

    method InitEscaper(size: nat)
      modifies this`frame, this`framePtr, this`crc
      ensures fresh(frame) && frame.Length == size * 2 + 2
      ensures framePtr == 1 && Escaped() == [SYNC_BYTE]
      ensures crc == Zeros(16)
    {
      frame := new byte[size * 2 + 2];
      framePtr := 0;
      crc := Zeros(16);
      EscapeAdd(SYNC_BYTE);
    }

    method EscapeByte(b: byte)
      requires framePtr + 2 <= frame.Length
      modifies this`framePtr, this`crc, frame
      ensures framePtr <= old(framePtr) + 2 && framePtr <= frame.Length
      ensures Escaped() == old(Escaped()) + StuffByte(b)
      ensures crc == CrcByte(old(crc), b)
    {
      hide CrcByte, Flip;
      crc := ComputeCrcByte(crc, b);
      if b == SYNC_BYTE || b == ESCAPE_BYTE {
        EscapeAdd(ESCAPE_BYTE);
        EscapeAdd(Flip(b));
      } else {
        EscapeAdd(b);
      }
    }

    // The escaper holds an opening sync byte and the bytes m, escaped.
    ghost predicate Holds(m: seq<byte>, size: nat)
      reads this, frame
    {
      && frame.Length == 2 * size + 2
      && framePtr <= 1 + 2 * |m| <= frame.Length
      && Escaped() == [SYNC_BYTE] + Stuff(m)
      && crc == CrcPacket(m)
    }

    method EscapeNext(ghost m: seq<byte>, b: byte, ghost size: nat)
      requires |m| < size && Holds(m, size)
      modifies this`framePtr, this`crc, frame
      ensures Holds(m + [b], size)
    {
      hide CrcByte, CrcPacket, StuffByte;
      EscapeByte(b);
      CrcPacketOfMore(m, b);
      assert (m + [b])[..|m|] == m;
      assert [SYNC_BYTE] + Stuff(m + [b]) == [SYNC_BYTE] + Stuff(m) + StuffByte(b);
    }

    method EscapePayload(ghost head: seq<byte>, payload: seq<byte>, ghost size: nat)
      requires |head| + |payload| <= size && Holds(head, size)
      modifies this`framePtr, this`crc, frame
      ensures Holds(head + payload, size)
    {
      hide CrcPacket, Stuff;
      var i := 0;
      ghost var m := head;
      while i < |payload|
        invariant i <= |payload| && |m| == |head| + i
        invariant m == head + payload[..i]
        invariant Holds(m, size)
      {
        EscapeNext(m, payload[i], size);
        PrefixGrows(head, payload, i);
        m := m + [payload[i]];
        i := i + 1;
      }
      assert m == head + payload;
    }

    method EscapeTrailer(ghost m: seq<byte>, ghost size: nat)
      requires |m| + 2 <= size && Holds(m, size)
      modifies this`framePtr, this`crc, frame
      ensures framePtr <= frame.Length && Escaped() == Frame(m)
    {
      hide CrcPacket, CrcByte, Stuff, Low, High;
      var sum := crc;
      EscapeNext(m, Low(sum), size);
      EscapeNext(m + [Low(sum)], High(sum), size);
      Regroup(m, Low(sum), [High(sum)]);
      assert [Low(sum)] + [High(sum)] == Trailer(m);
      EscapeAdd(SYNC_BYTE);
    }

    // The buffer allocated is never overrun, and what is written is the frame.
    method WriteFramedPacket(kind: byte, first: byte, payload: seq<byte>) returns (r: int)
      modifies this`frame, this`framePtr, this`crc, line`sent, line`failures
      ensures r == 0 || r == -1
      ensures line.failures == old(line.failures) + if r == -1 then 1 else 0
      ensures r == 0 ==> line.sent == old(line.sent) + Frame([kind, first] + payload)
      ensures r == -1 ==> PartSent(old(line.sent), line.sent, Frame([kind, first] + payload))
    {
      hide CrcByte, CrcPacket, Stuff, Frame, PartSent;
      ghost var size := |payload| + 4;
      NothingEscaped();
      assert [] + [kind] == [kind] && [kind] + [first] == [kind, first];
      InitEscaper(|payload| + 4);
      EscapeNext([], kind, size);
      EscapeNext([kind], first, size);
      EscapePayload([kind, first], payload, size);
      EscapeTrailer([kind, first] + payload, size);
      r := SourceWrite(frame[..framePtr]);
    }

    // ----- Reading

    method ReadByte() returns (b: int)
      requires Valid()
      modifies this`bufpos, this`bufused, buffer, line`arrived
      ensures Valid()
      ensures -1 <= b < 256
      ensures b == -1 ==> old(Pending()) == [] == Pending()
      ensures b != -1 ==> old(Pending()) == [b as byte] + Pending()
    {
      hide Feed, Heard, Filed, History;
      if bufpos >= bufused {
        var chunk := line.Read(BUFSIZE);
        if chunk == [] {
          return -1;
        }
        forall i | 0 <= i < |chunk| {
          buffer[i] := chunk[i];
        }
        bufpos, bufused := 0, |chunk|;
        assert buffer[bufpos..bufused] == chunk;
      }
      b := buffer[bufpos] as int;
      assert buffer[bufpos..bufused] == [buffer[bufpos]] + buffer[bufpos + 1..bufused];
      bufpos := bufpos + 1;
    }

    // The end of a frame of n bytes.
    method CheckBody(n: nat) returns (received: Option<seq<byte>>)
      requires 4 <= n <= packet.Length
      ensures received == if Checked(packet[..n]) then Some(packet[..n - 2]) else None
    {
      var computed := ComputeCrcPacket(packet[..n - 2]);
      ghost var body := packet[..n];
      assert body[..n - 2] == packet[..n - 2];
      if Join(packet[n - 2], packet[n - 1]) == computed {
        received := Some(packet[..n - 2]);
      } else {
        received := None;
      }
    }

    // One turn of the loop of read_and_process, up to the call of
    // process_packet.
    method Receive(b: byte) returns (received: Option<seq<byte>>)
      requires count <= MTU == packet.Length
      modifies this`inSync, this`escaped, this`count, packet
      ensures count <= MTU
      ensures Rx() == Step(old(Rx()), b)
      ensures Accept(old(Rx()), b) == if received.Some? then [received.value] else []
    {
      hide CrcPacket, Checked;
      received := None;
      ghost var body := packet[..count];
      var byte := b;
      if !inSync {
        if byte == SYNC_BYTE {
          inSync := true;
          count := 0;
          escaped := false;
        }
        return;
      }
      if count >= MTU {
        inSync := false;
        return;
      }
      if escaped {
        if byte == SYNC_BYTE {
          inSync := false;
          return;
        }
        byte := Flip(byte);
        escaped := false;
      } else if byte == ESCAPE_BYTE {
        escaped := true;
        return;
      } else if byte == SYNC_BYTE {
        var n := count;
        count := 0;
        if n < 4 {
          return;
        }
        received := CheckBody(n);
        assert body[..n - 2] == packet[..n - 2];
        return;
      }
      packet[count] := byte;
      count := count + 1;
      assert packet[..count] == old(packet[..count]) + [byte];
    }

    method PushProtocolPacket(kind: byte, content: seq<byte>)
      modifies this`queue
      ensures queue == old(queue)[kind := Get(old(queue), kind) + [content]]
    {
      queue := queue[kind := Get(queue, kind) + [content]];
    }

    method ProcessPacket(m: seq<byte>)
      requires |m| >= 2
      modifies this`queue, this`frame, this`framePtr, this`crc, line`sent, line`failures
      ensures queue == Push(old(queue), m)
      ensures PartSent(old(line.sent), line.sent, AckFor(m))
      ensures line.failures >= old(line.failures)
      ensures line.failures == old(line.failures) ==> line.sent == old(line.sent) + AckFor(m)
    {
      hide Frame;
      var kind, offset := m[0], 1;
      if kind == P_PACKET_ACK {
        var r := WriteFramedPacket(P_ACK, m[1], []);
        assert [P_ACK, m[1]] + [] == [P_ACK, m[1]];
        assert r == 0 ==> line.sent == old(line.sent) + AckFor(m)[..|AckFor(m)|];
        kind, offset := P_PACKET_NO_ACK, 2;
      }
      assert m[0] != P_PACKET_ACK ==> line.sent == old(line.sent) + AckFor(m)[..0];
      PushProtocolPacket(kind, m[offset..]);
    }

    // One turn of that loop with process_packet.
    method ProcessByte(b: byte) returns (done: bool)
      requires Valid()
      modifies this`inSync, this`escaped, this`count, this`queue
      modifies this`frame, this`framePtr, this`crc, this`consumed, packet, line`sent, line`failures
      ensures Valid()
      ensures consumed == old(consumed) + [b]
      ensures Rx() == Step(old(Rx()), b)
      ensures var heard := Accept(old(Rx()), b);
        && Packets(heard)
        && (done <==> heard != [])
        && |heard| <= 1
        && Answered(old(line.sent), line.sent, heard)
        && line.failures >= old(line.failures)
        && (line.failures == old(line.failures) ==> line.sent == old(line.sent) + Acks(heard))
        && (!done ==> line.sent == old(line.sent) && line.failures == old(line.failures))
    {
      hide Feed, Heard, CrcPacket, Stuff, Frame, Filed, Acks, Step, Accept, Answered, PartSent, Checked, AckFor, Get;
      var received := Receive(b);
      HearOne(START, consumed, b);
      ghost var heard := Heard(START, consumed);
      consumed := consumed + [b];
      done := received.Some?;
      if done {
        var m := received.value;
        HeardPackets(START, consumed);
        assert Heard(START, consumed)[|heard|] == m;
        ProcessPacket(m);
        AnsweredOne(old(line.sent), line.sent, m);
        FileOne(taken, old(queue), heard, m);
        AcksOfOne(m);
      } else {
        assert heard + [] == heard;
        NoAcks();
        AnsweredNothing(line.sent);
      }
    }

    // Reads and processes up to one packet.
    method ReadAndProcess() returns (ghost got: seq<byte>)
      requires Valid()
      modifies this`bufpos, this`bufused, this`inSync, this`escaped, this`count, this`queue
      modifies this`frame, this`framePtr, this`crc, this`consumed
      modifies buffer, packet, line`arrived, line`sent, line`failures
      ensures Valid()
      ensures consumed == old(consumed) + got
      ensures old(Pending()) == got + Pending()
      ensures Packets(Heard(old(Rx()), got)) && |Heard(old(Rx()), got)| <= 1
      ensures Heard(old(Rx()), got) == [] || got == [] ==> Pending() == []
      ensures got != [] ==> Heard(old(Rx()), got[..|got| - 1]) == []
      ensures Answered(old(line.sent), line.sent, Heard(old(Rx()), got))
      ensures line.failures >= old(line.failures)
      ensures line.failures == old(line.failures) ==> line.sent == old(line.sent) + Acks(Heard(old(Rx()), got))
    {
      hide Feed, Heard, Filed, Acks, Step, Accept, History, Answered, Checked, Get;
      got := [];
      ghost var start := Rx();
      HearNothing(start);
      NoAcks();
      AnsweredNothing(line.sent);
      while true
        invariant Valid()
        invariant consumed == old(consumed) + got
        invariant old(Pending()) == got + Pending()
        invariant Rx() == Feed(start, got)
        invariant Heard(start, got) == []
        invariant line.sent == old(line.sent) && line.failures == old(line.failures)
        decreases |Pending()|
      {
        ghost var pending := Pending();
        var b := ReadByte();
        if b < 0 {
          NothingBefore(start, got);
          return;
        }
        MoveOne(got, pending, b as byte, Pending());
        HearNext(start, got, b as byte);
        var done := ProcessByte(b as byte);
        got := got + [b as byte];
        if done {
          return;
        }
      }
    }

    method PopProtocolPacket(kind: byte) returns (entry: Option<seq<byte>>)
      requires Valid()
      modifies this`queue, this`taken
      ensures Valid()
      ensures entry.None? ==> Get(queue, kind) == [] && queue == old(queue) && taken == old(taken)
      ensures entry.Some? ==>
        && Get(old(queue), kind) == [entry.value] + Get(queue, kind)
        && taken == old(taken)[kind := Get(old(taken), kind) + [entry.value]]
        && (kind != P_PACKET_NO_ACK ==> entry.value != [])
        && forall k: byte :: k != kind ==> Get(queue, k) == Get(old(queue), k)
    {
      hide Feed, Heard, Filed;
      FiledShape(Heard(START, consumed), kind);
      var q := Get(queue, kind);
      if q == [] {
        return None;
      }
      queue := queue[kind := q[1..]];
      taken := taken[kind := Get(taken, kind) + [q[0]]];
      entry := Some(q[0]);
      assert (Get(old(taken), kind) + q)[|Get(old(taken), kind)|] == q[0];
      TakeOne(old(taken), taken, old(queue), queue, kind);
    }

    // All bytes the receiver has yet to process.
    ghost function Input(): seq<byte>
      reads `bufpos, `bufused, buffer, line`arrived, line`future
      requires bufpos <= bufused <= buffer.Length
    {
      Pending() + Flat(line.future)
    }

    method SourceWait(deadline: bool) returns (ready: bool)
      requires Valid()
      modifies line`arrived, line`future, line`expired
      ensures Valid()
      ensures Input() == old(Input())
      ensures (Pending() == old(Pending()) && line.future == old(line.future))
           || |line.future| < |old(line.future)|
      ensures ready ==> Pending() != []
      ensures |Pending()| >= |old(Pending())|
      ensures !ready ==> bufpos == bufused && Pending() == old(Pending())
      ensures !ready && deadline ==> line.expired
      ensures !ready && !deadline ==> Input() == []
    {
      if bufpos < bufused {
        return true;
      }
      ghost var future := line.future;
      ready := line.Wait(deadline);
      if line.future != future {
        assert Flat(future) == line.arrived + Flat(line.future);
      }
    }

    // read_and_process, then pop_protocol_packet, as both readers do.
    method Poll(kind: byte) returns (entry: Option<seq<byte>>, ghost got: seq<byte>)
      requires Valid()
      modifies this`bufpos, this`bufused, this`inSync, this`escaped, this`count, this`queue
      modifies this`frame, this`framePtr, this`crc, this`consumed, this`taken
      modifies buffer, packet, line`arrived, line`sent, line`failures
      ensures Valid()
      ensures consumed == old(consumed) + got && old(Input()) == got + Input()
      ensures |old(Pending())| == |got| + |Pending()|
      ensures got == [] ==> Pending() == []
      ensures entry.None? ==> taken == old(taken) && Get(queue, kind) == []
      ensures entry.Some? ==> taken == old(taken)[kind := Get(old(taken), kind) + [entry.value]]
      ensures entry.Some? && kind != P_PACKET_NO_ACK ==> entry.value != []
      ensures entry.Some? && got == [] ==> |Get(queue, kind)| < |Get(old(queue), kind)|
      ensures Moved(old(queue), queue, kind, IfTaken(entry), Heard(old(Rx()), got))
      ensures Packets(Heard(old(Rx()), got)) && |Heard(old(Rx()), got)| <= 1
      ensures Heard(old(Rx()), got) == [] ==> Pending() == []
      ensures got != [] ==> Heard(old(Rx()), got[..|got| - 1]) == []
      ensures Answered(old(line.sent), line.sent, Heard(old(Rx()), got))
      ensures line.failures >= old(line.failures)
      ensures line.failures == old(line.failures) ==> line.sent == old(line.sent) + Acks(Heard(old(Rx()), got))
    {
      hide Feed, Heard, Filed, Acks, Answered, Moved;
      got := ReadAndProcess();
      Associative(got, Pending(), Flat(line.future));
      if got == [] {
        assert consumed == old(consumed);
        SameQueue(old(taken), old(queue), queue, Heard(START, consumed), kind);
      }
      HistoryMoves(old(consumed), got, taken, old(queue), queue, kind);
      ghost var mid := queue;
      entry := PopProtocolPacket(kind);
      assert entry.None? ==> [] + Get(queue, kind) == Get(queue, kind);
      MovedPop(old(queue), mid, queue, kind, entry, Heard(old(Rx()), got));
    }

    // The receiver has processed the bytes got since it was at start, and has
    // answered them all.
    ghost predicate Since(start: Receiver, consumed0: seq<byte>, sent0: seq<byte>, failures0: nat, got: seq<byte>)
      reads this, line
    {
      && start == Feed(START, consumed0)
      && consumed == consumed0 + got
      && Packets(Heard(start, got))
      && Answered(sent0, line.sent, Heard(start, got))
      && line.failures >= failures0
      && (line.failures == failures0 ==> line.sent == sent0 + Acks(Heard(start, got)))
    }

    method PollMore(kind: byte, ghost start: Receiver, ghost consumed0: seq<byte>, ghost sent0: seq<byte>,
                    ghost failures0: nat, ghost queue0: Queues, ghost took: seq<seq<byte>>, ghost got: seq<byte>)
      returns (entry: Option<seq<byte>>, ghost read: seq<byte>)
      requires Valid() && Since(start, consumed0, sent0, failures0, got)
      requires Moved(queue0, queue, kind, took, Heard(start, got))
      modifies this`bufpos, this`bufused, this`inSync, this`escaped, this`count, this`queue
      modifies this`frame, this`framePtr, this`crc, this`consumed, this`taken
      modifies buffer, packet, line`arrived, line`sent, line`failures
      ensures Valid() && Since(start, consumed0, sent0, failures0, got + read)
      ensures Moved(queue0, queue, kind, took + IfTaken(entry), Heard(start, got + read))
      ensures got + old(Input()) == (got + read) + Input()
      ensures |old(Pending())| == |read| + |Pending()|
      ensures read == [] ==> Pending() == []
      ensures Heard(start, got + read) == [] ==> Pending() == []
      ensures |Heard(start, got + read)| <= |Heard(start, got)| + 1
      ensures Heard(start, got + read) == Heard(start, got) ==> Pending() == []
      ensures entry.None? ==> taken == old(taken) && Get(queue, kind) == []
      ensures entry.Some? ==> taken == old(taken)[kind := Get(old(taken), kind) + [entry.value]]
      ensures entry.Some? && kind != P_PACKET_NO_ACK ==> entry.value != []
      ensures entry.Some? && read == [] ==> |Get(queue, kind)| < |Get(old(queue), kind)|
      ensures Get(old(queue), kind) != [] ==> entry.Some?
      ensures Get(old(queue), kind) == [] ==> Get(queue, kind) == []
      ensures Get(old(queue), kind) == [] && entry.Some? ==>
        read != [] && Heard(start, (got + read)[..|got + read| - 1]) == Heard(start, got)
    {
      hide Feed, Heard, Filed, Acks, Flat, Answered, Moved, Get;
      ghost var mid, sent, q := Rx(), line.sent, queue;
      entry, read := Poll(kind);
      AnsweredMore(sent0, sent, line.sent, Heard(start, got), Heard(mid, read));
      HearMore(consumed0, start, got, mid, read);
      MovedMore(queue0, q, queue, kind, took, Heard(start, got), IfTaken(entry), Heard(mid, read));
      Associative(consumed0, got, read);
      Associative(sent0, Acks(Heard(start, got)), Acks(Heard(mid, read)));
      Associative(got, read, Input());
      MovedOne(q, queue, kind, entry, Heard(mid, read));
      HearUntil(start, got, mid, read);
    }

    lemma StartOfWait(start: Receiver)
      requires Valid() && start == Rx()
      ensures Since(start, consumed, line.sent, line.failures, [])
    {
      HearNothing(start);
      NoAcks();
      AnsweredNothing(line.sent);
    }

    // A packet for the reader, or None where the call blocks for good: all
    // input processed and nothing for the reader in it. A packet that was
    // queued already is returned after one more packet, or all there is, was
    // read; otherwise reading stops at the first packet for the reader.
    method ReadSerialPacket() returns (p: Option<seq<byte>>, ghost got: seq<byte>)
      requires Valid()
      modifies this`bufpos, this`bufused, this`inSync, this`escaped, this`count, this`queue
      modifies this`frame, this`framePtr, this`crc, this`consumed, this`taken
      modifies buffer, packet, line
      ensures Valid()
      ensures consumed == old(consumed) + got && old(Input()) == got + Input()
      ensures p.Some? ==> taken == old(taken)[P_PACKET_NO_ACK := Get(old(taken), P_PACKET_NO_ACK) + [p.value]]
      ensures p.None? ==> Input() == [] && Get(queue, P_PACKET_NO_ACK) == [] && taken == old(taken)
      ensures Moved(old(queue), queue, P_PACKET_NO_ACK, IfTaken(p), Heard(old(Rx()), got))
      ensures Get(old(queue), P_PACKET_NO_ACK) != [] ==>
        p.Some? && |Heard(old(Rx()), got)| <= 1 && (Heard(old(Rx()), got) == [] ==> Pending() == [])
      ensures Get(old(queue), P_PACKET_NO_ACK) == [] && p.Some? ==>
        got != [] && Reads(old(Rx()), got[..|got| - 1], P_PACKET_NO_ACK, [])
      ensures Answered(old(line.sent), line.sent, Heard(old(Rx()), got))
      ensures line.failures >= old(line.failures)
      ensures line.failures == old(line.failures) ==> line.sent == old(line.sent) + Acks(Heard(old(Rx()), got))
    {
      hide Feed, Heard, Filed, Acks, Flat, History, Answered, Moved, Get, Reads;
      got := [];
      ghost var start, consumed0, sent0, failures0, queue0 := Rx(), consumed, line.sent, line.failures, queue;
      StartOfWait(start);
      HearNothing(start);
      MovedNothing(queue, P_PACKET_NO_ACK);
      while true
        invariant Valid() && Since(start, consumed0, sent0, failures0, got)
        invariant Moved(queue0, queue, P_PACKET_NO_ACK, [], Heard(start, got))
        invariant old(Input()) == got + Input()
        invariant taken == old(taken)
        invariant Get(queue0, P_PACKET_NO_ACK) == [] <==> Get(queue, P_PACKET_NO_ACK) == []
        invariant Get(queue0, P_PACKET_NO_ACK) != [] ==> Heard(start, got) == []
        decreases |line.future|, |Pending()|
      {
        ghost var read, q := [], queue;
        p, read := PollMore(P_PACKET_NO_ACK, start, consumed0, sent0, failures0, queue0, [], got);
        assert [] + IfTaken(p) == IfTaken(p);
        if p.Some? && Get(q, P_PACKET_NO_ACK) == [] {
          ReadsNothing(queue0, q, P_PACKET_NO_ACK, start, got, got + read);
        }
        got := got + read;
        if p.Some? {
          return;
        }
        var ready := SourceWait(false);
        if !ready {
          return;
        }
      }
    }

    // The loop of write_serial_packet: poll for acks until one carries the
    // current number or time is up.
    method AwaitAck() returns (r: int, ghost got: seq<byte>, ghost acks: seq<seq<byte>>)
      requires Valid()
      modifies this`bufpos, this`bufused, this`inSync, this`escaped, this`count, this`queue
      modifies this`frame, this`framePtr, this`crc, this`consumed, this`taken
      modifies buffer, packet, line
      ensures Valid()
      ensures consumed == old(consumed) + got && old(Input()) == got + Input()
      ensures TookAcks(old(taken), taken, acks)
      ensures r == 0 || r == 1
      ensures r == 0 ==> LastIs(acks, seqno)
      ensures r == 1 ==> line.expired && NoneIs(acks, seqno) && Get(queue, P_ACK) == []
      ensures r == 1 ==> bufpos == bufused && (Heard(old(Rx()), got) == [] ==> Pending() == [])
      ensures |old(Pending())| <= |got| + |Pending()|
      ensures Moved(old(queue), queue, P_ACK, acks, Heard(old(Rx()), got))
      ensures Get(old(queue), P_ACK) == [] ==> Get(queue, P_ACK) == []
      ensures Get(old(queue), P_ACK) == [] && r == 0 ==>
        got != [] && Reads(old(Rx()), got[..|got| - 1], P_ACK, acks[..|acks| - 1])
      ensures Answered(old(line.sent), line.sent, Heard(old(Rx()), got))
      ensures line.failures >= old(line.failures)
      ensures line.failures == old(line.failures) ==> line.sent == old(line.sent) + Acks(Heard(old(Rx()), got))
    {
      hide Feed, Heard, Filed, Acks, Flat, TookAcks, History, Answered, Moved, Get, Reads, NoneIs, LastIs;
      got, acks := [], [];
      NoneIsNumbered(seqno);
      ghost var start, consumed0, sent0, failures0, queue0 := Rx(), consumed, line.sent, line.failures, queue;
      ghost var taken0, input0, pending0 := taken, Input(), |Pending()|;
      StartOfWait(start);
      TookNothing(taken);
      HearNothing(start);
      MovedNothing(queue, P_ACK);
      while true
        invariant Valid() && Since(start, consumed0, sent0, failures0, got)
        invariant Moved(queue0, queue, P_ACK, acks, Heard(start, got))
        invariant input0 == got + Input() && pending0 <= |got| + |Pending()|
        invariant TookAcks(taken0, taken, acks)
        invariant NoneIs(acks, seqno)
        invariant Get(queue0, P_ACK) == [] ==> Get(queue, P_ACK) == []
        decreases |line.future|, |Pending()|, |Get(queue, P_ACK)|
      {
        ghost var read, q, before := [], queue, taken;
        var entry;
        entry, read := PollMore(P_ACK, start, consumed0, sent0, failures0, queue0, acks, got);
        if entry.Some? && Get(queue0, P_ACK) == [] {
          ReadsAcks(queue0, q, P_ACK, start, got, got + read, acks);
        }
        got := got + read;
        if entry.Some? {
          TookOneMore(taken0, before, taken, acks, entry.value);
          LastOfMore(acks, entry.value, seqno);
          acks := acks + [entry.value];
          if entry.value[0] == seqno {
            return 0, got, acks;
          }
        } else {
          assert acks + [] == acks;
          var ready := SourceWait(true);
          if !ready {
            return 1, got, acks;
          }
        }
      }
    }

    // 0: the packet was written and an ack with its number was received after
    // none or more other acks; if none was queued before, reading stopped at
    // this ack. 1: written, and no ack received had its number until the
    // deadline passed, with no byte read but not processed. -1: the write
    // failed. Packets of other types that arrived meanwhile are in their
    // queues, in order.
    method WriteSerialPacket(payload: seq<byte>)
      returns (r: int, ghost got: seq<byte>, ghost acks: seq<seq<byte>>)
      requires Valid()
      modifies this`bufpos, this`bufused, this`inSync, this`escaped, this`count, this`queue
      modifies this`frame, this`framePtr, this`crc, this`consumed, this`taken, this`seqno
      modifies buffer, packet, line
      ensures Valid()
      ensures seqno as int == (old(seqno) as int + 1) % 256
      ensures consumed == old(consumed) + got && old(Input()) == got + Input()
      ensures -1 <= r <= 1
      ensures r == 0 ==> LastIs(acks, seqno)
      ensures r == 1 ==> line.expired && NoneIs(acks, seqno) && Get(queue, P_ACK) == []
      ensures r == 1 ==> bufpos == bufused && (Heard(old(Rx()), got) == [] ==> Pending() == [])
      ensures r == -1 ==> line.failures == old(line.failures) + 1 && got == [] && acks == []
      ensures TookAcks(old(taken), taken, acks)
      ensures Moved(old(queue), queue, P_ACK, acks, Heard(old(Rx()), got))
      ensures Get(old(queue), P_ACK) == [] && r == 0 ==>
        got != [] && Reads(old(Rx()), got[..|got| - 1], P_ACK, acks[..|acks| - 1])
      ensures (r >= 0 && Ready(old(Rx())) && Get(old(queue), P_ACK) == [] && Frame([P_ACK, seqno]) <= old(Pending()))
        ==> r == 0 && got == Frame([P_ACK, seqno])
      ensures r >= 0 ==>
        Answered(old(line.sent) + Frame([P_PACKET_ACK, seqno] + payload), line.sent, Heard(old(Rx()), got))
      ensures r == -1 ==> PartSent(old(line.sent), line.sent, Frame([P_PACKET_ACK, seqno] + payload))
      ensures r >= 0 && line.failures == old(line.failures) ==>
        line.sent == old(line.sent) + Frame([P_PACKET_ACK, seqno] + payload) + Acks(Heard(old(Rx()), got))
    {
      hide Feed, Heard, Filed, Acks, Flat, Frame, PartSent, TookAcks, LastIs, NoneIs, Answered, Moved, Get, Reads;
      hide History;
      TookNothing(taken);
      HearNothing(Rx());
      MovedNothing(queue, P_ACK);
      got, acks := [], [];
      seqno := if seqno == 255 then 0 else seqno + 1;
      ghost var start, pending, input, queue0 := Rx(), Pending(), Input(), queue;
      r := WriteFramedPacket(P_PACKET_ACK, seqno, payload);
      if r == 0 {
        line.SetDeadline();
        r, got, acks := AwaitAck();
        AckAtOnceIf(start, seqno, input, pending, got, r, Pending() == [], queue0, queue, acks);
      }
    }
  }

  // Of one type took was popped; otherwise the packets heard went to the ends
  // of their queues.
  ghost predicate Moved(q: Queues, q': Queues, kind: byte, took: seq<seq<byte>>, heard: seq<seq<byte>>) {
    && Packets(heard)
    && forall k: byte :: (if k == kind then took else []) + Get(q', k) == Get(q, k) + Filed(heard, k)
  }

  function IfTaken(entry: Option<seq<byte>>): (took: seq<seq<byte>>)
    ensures |took| <= 1
  {
    if entry.Some? then [entry.value] else []
  }

  lemma MovedNothing(q: Queues, kind: byte)
    ensures Moved(q, q, kind, [], [])
  {}

  lemma MovedMore(q: Queues, mid: Queues, q': Queues, kind: byte, took: seq<seq<byte>>, heard: seq<seq<byte>>,
                  more: seq<seq<byte>>, later: seq<seq<byte>>)
    requires Moved(q, mid, kind, took, heard) && Moved(mid, q', kind, more, later)
    ensures Moved(q, q', kind, took + more, heard + later)
  {
    hide Filed, Get;
    forall k: byte
      ensures Packets(heard + later)
        && (if k == kind then took + more else []) + Get(q', k) == Get(q, k) + Filed(heard + later, k)
    {
      FiledAppend(heard, later, k);
      var a, b := if k == kind then took else [], if k == kind then more else [];
      Associative(a, b, Get(q', k));
      Associative(a, Get(mid, k), Filed(later, k));
      Associative(Get(q, k), Filed(heard, k), Filed(later, k));
      assert a + b == if k == kind then took + more else [];
    }
  }

  // The packets heard between two points of the history.
  lemma HistoryMoves(consumed: seq<byte>, got: seq<byte>, taken: Queues, q: Queues, q': Queues, kind: byte)
    requires Packets(Heard(START, consumed)) && Packets(Heard(START, consumed + got))
    requires forall k: byte :: Get(taken, k) + Get(q, k) == Filed(Heard(START, consumed), k)
    requires forall k: byte :: Get(taken, k) + Get(q', k) == Filed(Heard(START, consumed + got), k)
    ensures Moved(q, q', kind, [], Heard(Feed(START, consumed), got))
  {
    hide Feed, Heard, Filed, Get;
    var start := Feed(START, consumed);
    ReceiverInvariant(START, consumed);
    HeardPackets(start, got);
    FeedAppend(START, consumed, got);
    forall k: byte ensures [] + Get(q', k) == Get(q, k) + Filed(Heard(start, got), k) {
      FiledAppend(Heard(START, consumed), Heard(start, got), k);
      Associative(Get(taken, k), Get(q, k), Filed(Heard(start, got), k));
      CancelPrefix(Get(taken, k), Get(q', k), Get(q, k) + Filed(Heard(start, got), k));
      assert [] + Get(q', k) == Get(q', k);
    }
  }

  lemma MovedPop(q: Queues, mid: Queues, q': Queues, kind: byte, entry: Option<seq<byte>>, heard: seq<seq<byte>>)
    requires Moved(q, mid, kind, [], heard)
    requires IfTaken(entry) + Get(q', kind) == Get(mid, kind)
    requires forall k: byte :: k != kind ==> Get(q', k) == Get(mid, k)
    ensures Moved(q, q', kind, IfTaken(entry), heard)
  {
    hide Get, Filed;
    forall k: byte
      ensures (if k == kind then IfTaken(entry) else []) + Get(q', k) == Get(q, k) + Filed(heard, k)
    {
      assert [] + Get(mid, k) == Get(mid, k) && [] + Get(q', k) == Get(q', k);
    }
  }

  // Of the bytes got, exactly took is filed under kind.
  ghost predicate Reads(start: Receiver, got: seq<byte>, kind: byte, took: seq<seq<byte>>) {
    Packets(Heard(start, got)) && Filed(Heard(start, got), kind) == took
  }

  lemma {:induction false} FiledAtMost(ms: seq<seq<byte>>, kind: byte)
    requires Packets(ms)
    ensures |Filed(ms, kind)| <= |ms|
  {
    if ms != [] {
      FiledAtMost(ms[1..], kind);
    }
  }

  // With one packet heard at most, an empty queue is empty again.
  lemma MovedOne(q: Queues, q': Queues, kind: byte, entry: Option<seq<byte>>, heard: seq<seq<byte>>)
    requires Moved(q, q', kind, IfTaken(entry), heard) && |heard| <= 1
    requires entry.None? ==> Get(q', kind) == []
    ensures Get(q, kind) != [] ==> entry.Some?
    ensures Get(q, kind) == [] ==> Get(q', kind) == [] && (entry.Some? ==> heard != [])
  {
    hide Get, Filed;
    FiledAtMost(heard, kind);
    assert |IfTaken(entry) + Get(q', kind)| == |Get(q, kind) + Filed(heard, kind)|;
  }

  lemma HearUntil(start: Receiver, got: seq<byte>, mid: Receiver, read: seq<byte>)
    requires mid == Feed(start, got)
    requires read != [] ==> Heard(mid, read[..|read| - 1]) == []
    ensures Heard(start, got + read) == Heard(start, got) + Heard(mid, read)
    ensures read != [] ==> Heard(start, (got + read)[..|got + read| - 1]) == Heard(start, got)
    ensures read == [] ==> Heard(mid, read) == []
  {
    FeedAppend(start, got, read);
    if read != [] {
      var init := read[..|read| - 1];
      assert (got + read)[..|got + read| - 1] == got + init;
      hide Feed, Heard;
      FeedAppend(start, got, init);
      assert Heard(start, got) + [] == Heard(start, got);
    }
  }

  lemma ReadsNothing(q: Queues, q': Queues, kind: byte, start: Receiver, got: seq<byte>, all: seq<byte>)
    requires Moved(q, q', kind, [], Heard(start, got)) && Get(q', kind) == []
    requires all != [] && Heard(start, all[..|all| - 1]) == Heard(start, got)
    ensures Reads(start, all[..|all| - 1], kind, [])
  {
    hide Heard, Filed, Get;
    assert |[] + Get(q', kind)| == |Get(q, kind) + Filed(Heard(start, got), kind)|;
  }

  lemma ReadsAcks(q: Queues, q': Queues, kind: byte, start: Receiver, got: seq<byte>, all: seq<byte>,
                  acks: seq<seq<byte>>)
    requires Moved(q, q', kind, acks, Heard(start, got)) && Get(q, kind) == Get(q', kind) == []
    requires all != [] && Heard(start, all[..|all| - 1]) == Heard(start, got)
    ensures Reads(start, all[..|all| - 1], kind, acks)
  {
    hide Heard, Filed, Get;
    assert acks + Get(q', kind) == acks;
    assert Get(q, kind) + Filed(Heard(start, got), kind) == Filed(Heard(start, got), kind);
  }

  lemma LastOfMore(acks: seq<seq<byte>>, ack: seq<byte>, number: byte)
    requires NoneIs(acks, number) && ack != []
    ensures (acks + [ack])[..|acks + [ack]| - 1] == acks
    ensures if ack[0] == number then LastIs(acks + [ack], number) else NoneIs(acks + [ack], number)
  {
    assert (acks + [ack])[..|acks|] == acks;
  }

  lemma NoneIsNumbered(number: byte)
    ensures NoneIs([], number)
  {}

  // Until a frame is complete nothing is heard of it, and then it is heard
  // first.
  lemma FirstFrame(start: Receiver, m: seq<byte>, input: seq<byte>, got: seq<byte>)
    requires Ready(start) && Bounded(start) && 2 <= |m| <= LONGEST
    requires Frame(m) <= input && got <= input
    ensures |got| < |Frame(m)| ==> Heard(start, got) == []
    ensures |got| >= |Frame(m)| ==> Heard(start, got) != [] && Heard(start, got)[0] == m
  {
    hide Feed, Heard, Frame;
    var f := Frame(m);
    FrameEnds(m);
    if |got| < |f| {
      CutFrameHeard(start, m, m);
      var cut := f[..|f| - 1];
      assert cut == got + cut[|got|..];
      FeedAppend(start, got, cut[|got|..]);
    } else {
      var rest := got[|f|..];
      assert got == f + rest;
      ReadyHearsNoJunk(start);
      FrameThen(start, m, rest);
    }
  }

  lemma FrameEnds(m: seq<byte>)
    ensures |Frame(m)| >= 2
  {}

  // An ack of the current number that has arrived when the call is made, with
  // no other ack before it, ends the call.
  lemma AckAtOnce(start: Receiver, number: byte, input: seq<byte>, pending: seq<byte>, got: seq<byte>, r: int,
                  emptied: bool, q: Queues, q': Queues, acks: seq<seq<byte>>)
    requires Ready(start) && Bounded(start)
    requires Frame([P_ACK, number]) <= pending <= input && got <= input
    requires Moved(q, q', P_ACK, acks, Heard(start, got)) && Get(q, P_ACK) == Get(q', P_ACK) == []
    requires r == 0 || r == 1
    requires r == 0 ==> LastIs(acks, number) && got != []
    requires r == 0 ==> Reads(start, got[..|got| - 1], P_ACK, acks[..|acks| - 1])
    requires r == 1 ==> NoneIs(acks, number) && (Heard(start, got) == [] ==> emptied)
    requires emptied ==> |pending| <= |got|
    ensures r == 0 && got == Frame([P_ACK, number])
  {
    hide Feed, Heard, Frame, Get, Filed;
    var m := [P_ACK, number];
    FirstFrame(start, m, input, got);
    assert acks + Get(q', P_ACK) == acks;
    assert Get(q, P_ACK) + Filed(Heard(start, got), P_ACK) == Filed(Heard(start, got), P_ACK);
    if |got| >= |Frame(m)| {
      FirstAck(Heard(start, got), number);
    } else {
      NothingFiled(P_ACK);
    }
    if r == 0 && |got| > |Frame(m)| {
      var init := got[..|got| - 1];
      FirstFrame(start, m, input, init);
      FirstAck(Heard(start, init), number);
    }
    assert got == input[..|got|] && Frame(m) == input[..|Frame(m)|];
  }

  lemma AckAtOnceIf(start: Receiver, number: byte, input: seq<byte>, pending: seq<byte>, got: seq<byte>, r: int,
                    emptied: bool, q: Queues, q': Queues, acks: seq<seq<byte>>)
    requires Bounded(start) && pending <= input && got <= input
    requires Moved(q, q', P_ACK, acks, Heard(start, got)) && (Get(q, P_ACK) == [] ==> Get(q', P_ACK) == [])
    requires r == 0 || r == 1
    requires r == 0 ==> LastIs(acks, number)
    requires r == 0 && Get(q, P_ACK) == [] ==> got != [] && Reads(start, got[..|got| - 1], P_ACK, acks[..|acks| - 1])
    requires r == 1 ==> NoneIs(acks, number) && (Heard(start, got) == [] ==> emptied)
    requires emptied ==> |pending| <= |got|
    ensures (Ready(start) && Get(q, P_ACK) == [] && Frame([P_ACK, number]) <= pending)
      ==> r == 0 && got == Frame([P_ACK, number])
  {
    hide Heard, Moved, Frame, LastIs, NoneIs, Reads;
    if Ready(start) && Get(q, P_ACK) == [] && Frame([P_ACK, number]) <= pending {
      AckAtOnce(start, number, input, pending, got, r, emptied, q, q', acks);
    }
  }

  lemma NothingFiled(kind: byte)
    ensures Filed([], kind) == []
  {}

  lemma FirstAck(heard: seq<seq<byte>>, number: byte)
    requires Packets(heard) && heard != [] && heard[0] == [P_ACK, number]
    ensures Filed(heard, P_ACK) != [] && Filed(heard, P_ACK)[0] == [number]
  {
    assert heard[0][1..] == [number];
  }

  // Nothing but acks was taken.
  ghost predicate TookAcks(taken: Queues, taken': Queues, acks: seq<seq<byte>>) {
    && (forall kind: byte :: Get(taken', kind) == Get(taken, kind) + if kind == P_ACK then acks else [])
    && forall i :: 0 <= i < |acks| ==> acks[i] != []
  }

  lemma TookNothing(taken: Queues)
    ensures TookAcks(taken, taken, [])
  {}

  lemma TookOneMore(taken: Queues, before: Queues, after: Queues, acks: seq<seq<byte>>, ack: seq<byte>)
    requires TookAcks(taken, before, acks) && ack != []
    requires after == before[P_ACK := Get(before, P_ACK) + [ack]]
    ensures TookAcks(taken, after, acks + [ack])
  {
    Associative(Get(taken, P_ACK), acks, [ack]);
  }

  // None of the acks carries the number.
  ghost predicate NoneIs(acks: seq<seq<byte>>, number: byte) {
    forall i :: 0 <= i < |acks| ==> acks[i] != [] && acks[i][0] != number
  }

  // The last of the acks, and no other, carries the number.
  ghost predicate LastIs(acks: seq<seq<byte>>, number: byte) {
    && acks != []
    && NoneIs(acks[..|acks| - 1], number)
    && acks[|acks| - 1] != [] && acks[|acks| - 1][0] == number
  }

  lemma SameQueue(taken: Queues, q: Queues, q': Queues, heard: seq<seq<byte>>, kind: byte)
    requires Packets(heard)
    requires Get(taken, kind) + Get(q, kind) == Filed(heard, kind)
    requires Get(taken, kind) + Get(q', kind) == Filed(heard, kind)
    ensures |Get(q, kind)| == |Get(q', kind)|
  {
    assert |Get(taken, kind) + Get(q, kind)| == |Get(taken, kind) + Get(q', kind)|;
  }

  lemma HearMore(consumed: seq<byte>, start: Receiver, got: seq<byte>, mid: Receiver, read: seq<byte>)
    requires start == Feed(START, consumed) && mid == Feed(START, consumed + got)
    requires Packets(Heard(start, got)) && Packets(Heard(mid, read))
    ensures mid == Feed(start, got)
    ensures Heard(start, got + read) == Heard(start, got) + Heard(mid, read)
    ensures Packets(Heard(start, got + read))
    ensures Acks(Heard(start, got + read)) == Acks(Heard(start, got)) + Acks(Heard(mid, read))
  {
    hide Feed, Heard, Acks;
    FeedAppend(START, consumed, got);
    FeedAppend(start, got, read);
    AcksAppend(Heard(start, got), Heard(mid, read));
  }

  lemma Regroup<T>(a: seq<T>, x: T, b: seq<T>)
    ensures (a + [x]) + b == a + ([x] + b)
  {}

  // Moving the head of a queue to the packets taken keeps their concatenation.
  lemma TakeOne(taken: Queues, taken': Queues, q: Queues, q': Queues, kind: byte)
    requires Get(q, kind) != []
    requires q' == q[kind := Get(q, kind)[1..]]
    requires taken' == taken[kind := Get(taken, kind) + [Get(q, kind)[0]]]
    ensures forall k: byte :: Get(taken', k) + Get(q', k) == Get(taken, k) + Get(q, k)
  {
    Regroup(Get(taken, kind), Get(q, kind)[0], Get(q, kind)[1..]);
    assert [Get(q, kind)[0]] + Get(q, kind)[1..] == Get(q, kind);
  }

  function Push(q: Queues, m: seq<byte>): Queues
    requires |m| >= 2
  {
    q[KindOf(m) := Get(q, KindOf(m)) + [ContentOf(m)]]
  }

  lemma HearOne(r: Receiver, bs: seq<byte>, b: byte)
    ensures Feed(r, bs + [b]) == Step(Feed(r, bs), b)
    ensures Heard(r, bs + [b]) == Heard(r, bs) + Accept(Feed(r, bs), b)
  {
    assert (bs + [b])[..|bs|] == bs;
  }

  lemma HearNext(r: Receiver, bs: seq<byte>, b: byte)
    requires Heard(r, bs) == []
    ensures Feed(r, bs + [b]) == Step(Feed(r, bs), b)
    ensures Heard(r, bs + [b]) == Accept(Feed(r, bs), b)
    ensures (bs + [b])[..|bs + [b]| - 1] == bs
  {
    HearOne(r, bs, b);
    assert [] + Accept(Feed(r, bs), b) == Accept(Feed(r, bs), b);
  }

  lemma NothingBefore(r: Receiver, bs: seq<byte>)
    requires Heard(r, bs) == []
    ensures bs != [] ==> Heard(r, bs[..|bs| - 1]) == []
  {}

  lemma HearNothing(r: Receiver)
    ensures Feed(r, []) == r && Heard(r, []) == []
  {}

  lemma NoAcks()
    ensures Acks([]) == []
  {}

  lemma MoveOne(got: seq<byte>, pending: seq<byte>, b: byte, rest: seq<byte>)
    requires pending == [b] + rest
    ensures got + pending == (got + [b]) + rest
  {}

  lemma FileOneKind(taken: Queues, q: Queues, heard: seq<seq<byte>>, m: seq<byte>, kind: byte)
    requires |m| >= 2 && Packets(heard) && Packets(heard + [m])
    requires Get(taken, kind) + Get(q, kind) == Filed(heard, kind)
    ensures Get(taken, kind) + Get(Push(q, m), kind) == Filed(heard + [m], kind)
  {
    var one := if KindOf(m) == kind then [ContentOf(m)] else [];
    FiledAppend(heard, [m], kind);
    assert Filed([m], kind) == one by { FiledFirst(m, [], kind); assert [m] + [] == [m]; }
    assert Get(Push(q, m), kind) == Get(q, kind) + one;
    Associative(Get(taken, kind), Get(q, kind), one);
  }

  lemma FileOne(taken: Queues, q: Queues, heard: seq<seq<byte>>, m: seq<byte>)
    requires |m| >= 2 && Packets(heard)
    requires forall kind: byte :: Get(taken, kind) + Get(q, kind) == Filed(heard, kind)
    ensures Packets(heard + [m])
    ensures forall kind: byte :: Get(taken, kind) + Get(Push(q, m), kind) == Filed(heard + [m], kind)
  {
    forall kind: byte ensures Get(taken, kind) + Get(Push(q, m), kind) == Filed(heard + [m], kind) {
      FileOneKind(taken, q, heard, m, kind);
    }
  }

  lemma AcksOfOne(m: seq<byte>)
    requires |m| >= 2
    ensures Packets([m]) && Acks([m]) == AckFor(m)
  {
    assert AckFor(m) + [] == AckFor(m);
  }

  // Whatever bytes a source has processed, however they arrived and whatever
  // was called in between: what was popped of each type and what is still
  // queued is what the intact stretches between sync bytes are filed as.
  lemma {:induction false} SourceHolds(source: Source, kind: byte)
    requires source.Valid()
    ensures var ms := LineFormat.Delivered(Columns(source.consumed, 0x7e), false);
      Packets(ms) && Get(source.taken, kind) + Get(source.queue, kind) == Filed(ms, kind)
  {
    hide Heard, Feed, Filed, LineFormat.Delivered, Columns;
    LineFormat.ReceiverDelivers(source.consumed);
  }

  // End to end: however the line split and delayed the bytes and whatever was
  // called in between, once the receiver has processed the frames of ps, the
  // packets popped of each type and those still queued are what is owed.
  lemma {:induction false} SourceDelivers(source: Source, ps: seq<Packet>, kind: byte)
    requires source.Valid() && source.consumed == Stream(Bodies(ps))
    ensures Get(source.taken, kind) + Get(source.queue, kind) == Owed(ps, kind)
  {
    StreamRoundTrip(START, ps, kind);
  }

  // The same after any bytes that came before the frames: nothing but what
  // those bytes filed precedes the packets, and only the first can be missing.
  lemma {:induction false} SourceResynchronises(source: Source, garbage: seq<byte>, ms: seq<seq<byte>>, kind: byte)
    requires source.Valid() && source.consumed == garbage + Stream(ms)
    requires ms != [] && Packets(ms)
    ensures var junk, kept := Junk(START, garbage), Kept(Feed(START, garbage), ms);
      && Packets(junk) && Packets(kept)
      && Get(source.taken, kind) + Get(source.queue, kind) == Filed(junk, kind) + Filed(kept, kind)
  {
    hide Heard, Feed, Filed, Accept, Stream;
    var junk, kept := Junk(START, garbage), Kept(Feed(START, garbage), ms);
    JunkIsPackets(START, garbage);
    FittingPackets(if Blocked(Feed(START, garbage)) then ms[1..] else ms);
    SelfSynchronisation(START, garbage, ms);
    FiledAppend(junk, kept, kind);
  }
}
