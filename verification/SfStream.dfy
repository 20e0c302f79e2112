// src/sfsource.c: packets with a length byte over a descriptor that reads and
// writes in parts.

module SfStream {
  import opened Bits
  import opened Wrappers

  // ----- The format

  // write_sf_packet: the length is cut to a byte, and so is the packet.
  function Encode(p: seq<byte>): seq<byte> {
    [(|p| % 256) as byte] + p[..|p| % 256]
  }

  function EncodeAll(ps: seq<seq<byte>>): seq<byte> {
    if ps == [] then [] else Encode(ps[0]) + EncodeAll(ps[1..])
  }

  // Calls of write_sf_packet one after the other write EncodeAll.
  lemma {:induction false} EncodeOneMore(ps: seq<seq<byte>>, p: seq<byte>)
    ensures EncodeAll(ps + [p]) == EncodeAll(ps) + Encode(p)
  {
    hide Encode;
    if ps == [] {
      assert ps + [p] == [p] && [p][1..] == [];
    } else {
      assert (ps + [p])[1..] == ps[1..] + [p];
      EncodeOneMore(ps[1..], p);
      assert Encode(ps[0]) + (EncodeAll(ps[1..]) + Encode(p)) == (Encode(ps[0]) + EncodeAll(ps[1..])) + Encode(p);
    }
  }

  // A packet and what follows it.
  function Decode(s: seq<byte>): Option<(seq<byte>, seq<byte>)> {
    if s == [] || |s| < 1 + s[0] as int then None
    else Some((s[1..1 + s[0] as int], s[1 + s[0] as int..]))
  }

  // The next n packets and what follows them.
  function DecodeAll(n: nat, s: seq<byte>): Option<(seq<seq<byte>>, seq<byte>)> {
    if n == 0 then Some(([], s))
    else match Decode(s)
      case None => None
      case Some((p, rest)) =>
        match DecodeAll(n - 1, rest)
        case None => None
        case Some((more, rest')) => Some(([p] + more, rest'))
  }

  lemma DecodeEncode(p: seq<byte>, rest: seq<byte>)
    ensures Decode(Encode(p) + rest) == Some((p[..|p| % 256], rest))
  {
    var s := Encode(p) + rest;
    assert s[1..1 + |p| % 256] == p[..|p| % 256];
    assert s[1 + |p| % 256..] == rest;
  }

  // What one side writes the other reads back, packet by packet and with
  // nothing left over or missing, if and only if no packet is longer than
  // 255 bytes.
  lemma {:induction false} StreamRoundTrip(ps: seq<seq<byte>>, rest: seq<byte>)
    ensures DecodeAll(|ps|, EncodeAll(ps) + rest).Some?
    ensures DecodeAll(|ps|, EncodeAll(ps) + rest) == Some((ps, rest))
       <==> forall i :: 0 <= i < |ps| ==> |ps[i]| <= 255
    decreases ps
  {
    if ps == [] {
      assert EncodeAll(ps) + rest == rest;
    } else {
      var tail := EncodeAll(ps[1..]) + rest;
      assert EncodeAll(ps) + rest == Encode(ps[0]) + tail;
      DecodeEncode(ps[0], tail);
      StreamRoundTrip(ps[1..], rest);
      var cut, more := ps[0][..|ps[0]| % 256], DecodeAll(|ps| - 1, tail).value;
      assert DecodeAll(|ps|, EncodeAll(ps) + rest) == Some(([cut] + more.0, more.1));
      HeadAndTail(cut, more.0, ps);
      assert cut == ps[0] <==> |ps[0]| <= 255;
    }
  }

  lemma HeadAndTail<T>(x: T, more: seq<T>, s: seq<T>)
    requires s != []
    ensures [x] + more == s <==> x == s[0] && more == s[1..]
    ensures [x] + more == s ==> forall i :: 0 <= i < |more| ==> more[i] == s[i + 1]
  {
    assert ([x] + more)[1..] == more && ([x] + more)[0] == x;
    assert s == [s[0]] + s[1..];
  }

  // ----- The descriptor

  datatype Transfer = Done(n: nat) | Again | Failed

  // Every division into parts, every number of interruptions and failure at
  // any point are possible.
  class Descriptor {
    var incoming: seq<byte>   // what the peer will have sent before it closes
    var outgoing: seq<byte>
    var interruptions: nat    // how often a call will be interrupted
    var failures: nat         // how many calls have failed for good

    constructor (incoming: seq<byte>, interruptions: nat)
      ensures this.incoming == incoming && outgoing == []
      ensures this.interruptions == interruptions && failures == 0
    {
      this.incoming, this.interruptions, outgoing, failures := incoming, interruptions, [], 0;
    }

    method Read(count: nat) returns (t: Transfer, bytes: seq<byte>)
      requires count > 0
      modifies this`incoming, this`interruptions, this`failures
      ensures old(incoming) == bytes + incoming && |bytes| <= count
      ensures t.Done? ==> t.n == |bytes| && interruptions == old(interruptions) && (bytes == [] ==> old(incoming) == [])
      ensures t.Again? ==> bytes == [] && interruptions < old(interruptions)
      ensures t.Failed? ==> bytes == []
      ensures failures == old(failures) + if t.Failed? then 1 else 0
    {
      var interrupted: bool, fails: bool := *, *;
      if interrupted && interruptions > 0 {
        interruptions := interruptions - 1;
        return Again, [];
      }
      if fails {
        failures := failures + 1;
        return Failed, [];
      }
      if incoming == [] {
        return Done(0), [];
      }
      var n :| 1 <= n <= count && n <= |incoming|;
      bytes, incoming := incoming[..n], incoming[n..];
      t := Done(n);
    }

    method Write(bytes: seq<byte>) returns (t: Transfer)
      requires bytes != []
      modifies this`outgoing, this`interruptions, this`failures
      ensures t.Done? ==> 0 < t.n <= |bytes| && outgoing == old(outgoing) + bytes[..t.n]
      ensures t.Done? ==> interruptions == old(interruptions)
      ensures t.Again? ==> outgoing == old(outgoing) && interruptions < old(interruptions)
      ensures t.Failed? ==> outgoing == old(outgoing)
      ensures failures == old(failures) + if t.Failed? then 1 else 0
    {
      var interrupted: bool, fails: bool := *, *;
      if interrupted && interruptions > 0 {
        interruptions := interruptions - 1;
        return Again;
      }
      if fails {
        failures := failures + 1;
        return Failed;
      }
      var n :| 1 <= n <= |bytes|;
      outgoing := outgoing + bytes[..n];
      t := Done(n);
    }

    // saferead: all of count unless the peer closes first
    method SafeRead(count: nat) returns (actual: int, bytes: seq<byte>)
      modifies this`incoming, this`interruptions, this`failures
      ensures old(incoming) == bytes + incoming
      ensures actual == -1 || actual == |bytes| <= count
      ensures failures == old(failures) + if actual == -1 then 1 else 0
      ensures 0 <= actual < count ==> incoming == []
    {
      bytes := [];
      while |bytes| < count
        invariant old(incoming) == bytes + incoming && |bytes| <= count && failures == old(failures)
        decreases count - |bytes|, interruptions
      {
        var t, part := Read(count - |bytes|);
        if t.Again? {
          continue;
        }
        if t.Failed? {
          return -1, bytes;
        }
        if t.n == 0 {
          return |bytes|, bytes;
        }
        bytes := bytes + part;
      }
      actual := |bytes|;
    }

    // safewrite
    method SafeWrite(bytes: seq<byte>) returns (actual: int)
      modifies this`outgoing, this`interruptions, this`failures
      ensures actual == -1 || actual == |bytes|
      ensures failures == old(failures) + if actual == -1 then 1 else 0
      ensures actual == |bytes| ==> outgoing == old(outgoing) + bytes
      ensures old(outgoing) <= outgoing <= old(outgoing) + bytes
    {
      var done := 0;
      while done < |bytes|
        invariant done <= |bytes| && outgoing == old(outgoing) + bytes[..done] && failures == old(failures)
        decreases |bytes| - done, interruptions
      {
        var t := Write(bytes[done..]);
        if t.Again? {
          continue;
        }
        if t.Failed? {
          return -1;
        }
        assert bytes[..done] + bytes[done..][..t.n] == bytes[..done + t.n];
        done := done + t.n;
      }
      assert bytes[..done] == bytes;
      actual := done;
    }

    // read_sf_packet: whatever the division into parts, the next packet of
    // the stream behind its length; none if the stream ends within it or the
    // descriptor fails.
    method ReadSfPacket() returns (packet: Option<seq<byte>>)
      modifies this`incoming, this`interruptions, this`failures
      ensures packet.Some? ==> Decode(old(incoming)) == Some((packet.value, incoming))
      ensures packet.Some? ==> |packet.value| < 256 && failures == old(failures)
      ensures packet.Some? ==> old(incoming) == [|packet.value| as byte] + packet.value + incoming
      ensures packet.None? && failures == old(failures) ==> incoming == []
      ensures packet.None? && failures == old(failures) ==>
        old(incoming) == [] || |old(incoming)| < 1 + old(incoming)[0] as int
    {
      var n, l := SafeRead(1);
      if n != 1 {
        return None;
      }
      var m, body := SafeRead(l[0] as int);
      assert old(incoming) == l + (body + incoming);
      assert old(incoming)[0] == l[0];
      if m != l[0] as int {
        return None;
      }
      assert old(incoming)[1..1 + m] == body;
      assert old(incoming)[1 + m..] == incoming;
      packet := Some(body);
    }

    // write_sf_packet: the length as one byte, and as many bytes
    method WriteSfPacket(packet: seq<byte>) returns (r: int)
      modifies this`outgoing, this`interruptions, this`failures
      ensures r == 0 || r == -1
      ensures r == 0 ==> outgoing == old(outgoing) + Encode(packet)
      ensures r == 0 ==> outgoing == old(outgoing) + [(|packet| % 256) as byte] + packet[..|packet| % 256]
      ensures old(outgoing) <= outgoing <= old(outgoing) + Encode(packet)
      ensures failures == old(failures) + if r == -1 then 1 else 0
    {
      var l := (|packet| % 256) as byte;
      var n := SafeWrite([l]);
      if n != 1 {
        return -1;
      }
      var m := SafeWrite(packet[..l as int]);
      if m != l as int {
        return -1;
      }
      r := 0;
    }
  }
}
