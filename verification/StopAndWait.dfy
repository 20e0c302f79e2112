// write_serial_packet against a peer that runs process_packet, over channels
// that keep order and may lose or delay frames. Only numbers and payloads
// travel; the field `write` of a message records which write it stems from
// and is read by no step.

module StopAndWait {
  import opened Bits
  import Framing
  import opened Inbox

  const LONGEST_PAYLOAD := 123 // Framing.LONGEST less type and first byte

  datatype Data = Data(number: byte, payload: seq<byte>, write: nat)
  datatype Ack = Ack(number: byte, write: nat)

  datatype State = State(
    written: seq<seq<byte>>,  // the payload of every call so far
    seqno: byte,              // send.seqno
    waiting: bool,            // the last call has not returned
    results: seq<bool>,       // of the calls that have: whether 0 was returned
    data: seq<Data>,          // frames on their way to the peer
    accepted: seq<Data>,      // what the peer has enqueued, in order
    acks: seq<Ack>,           // acks on their way back
    ackQueue: seq<Ack>)       // acks in the queue of type 64

  const INITIAL := State([], 37, false, [], [], [], [], [])

  datatype Step =
    | Write(payload: seq<byte>)  // write_serial_packet up to its loop
    | Fail(payload: seq<byte>)   // write_serial_packet whose write fails: -1
    | LoseData(i: nat)
    | DeliverData
    | LoseAck(i: nat)
    | DeliverAck
    | PopAck                     // pop_protocol_packet finds an entry
    | Timeout                    // it finds none and time is up

  function Following(number: byte): byte { if number == 255 then 0 else number + 1 }

  function Without<T>(s: seq<T>, i: nat): seq<T>
    requires i < |s|
  {
    s[..i] + s[i + 1..]
  }

  predicate Enabled(s: State, step: Step) {
    match step
    case Write(_) => !s.waiting
    case Fail(_) => !s.waiting
    case LoseData(i) => i < |s.data|
    case DeliverData => s.data != []
    case LoseAck(i) => i < |s.acks|
    case DeliverAck => s.acks != []
    case PopAck => s.waiting && s.ackQueue != []
    case Timeout => s.waiting && s.ackQueue == []
  }

  predicate Fits(d: Data) { |d.payload| <= LONGEST_PAYLOAD }

  // A frame under the next number. When writing fails part of it is on its way:
  // LoseData is then the usual end of it, but without its last byte only it
  // still arrives, because the next frame begins with the byte that is missing.
  function Sending(s: State, payload: seq<byte>): State {
    var number := Following(s.seqno);
    s.(written := s.written + [payload], seqno := number, data := s.data + [Data(number, payload, |s.written|)])
  }

  function Next(s: State, step: Step): State
    requires Enabled(s, step)
  {
    match step
    case Write(payload) => Sending(s, payload).(waiting := true)
    case Fail(payload) => Sending(s, payload).(results := s.results + [false])
    case LoseData(i) => s.(data := Without(s.data, i))
    case DeliverData =>
      var d, rest := s.data[0], s.data[1..];
      if Fits(d) then s.(data := rest, accepted := s.accepted + [d], acks := s.acks + [Ack(d.number, d.write)])
      else s.(data := rest)
    case LoseAck(i) => s.(acks := Without(s.acks, i))
    case DeliverAck => s.(acks := s.acks[1..], ackQueue := s.ackQueue + [s.acks[0]])
    case PopAck =>
      var s' := s.(ackQueue := s.ackQueue[1..]);
      if s.ackQueue[0].number == s.seqno then s'.(waiting := false, results := s.results + [true]) else s'
    case Timeout => s.(waiting := false, results := s.results + [false])
  }

  // The steps can be taken one after the other from s.
  predicate Possible(s: State, run: seq<Step>)
    decreases run
  {
    run == [] || (Enabled(s, run[0]) && Possible(Next(s, run[0]), run[1..]))
  }

  function After(s: State, run: seq<Step>): State
    requires Possible(s, run)
    decreases run
  {
    if run == [] then s else After(Next(s, run[0]), run[1..])
  }

  // ----- What every step keeps

  // The number of the call with this index: 38 for the first, then on modulo 256.
  function NumberOf(write: nat): byte { ((38 + write) % 256) as byte }

  // Every message there is that stems from a payload, oldest first.
  function Chain(s: State): seq<Data> { s.accepted + s.data }

  // Every ack that can still be popped, in the order in which it will be.
  function Pending(s: State): seq<Ack> { s.ackQueue + s.acks }

  predicate Calls(s: State) {
    && |s.written| == |s.results| + (if s.waiting then 1 else 0)
    && s.seqno == NumberOf(|s.written| + 255)
  }

  predicate Genuine(written: seq<seq<byte>>, d: Data) {
    d.write < |written| && d.number == NumberOf(d.write) && d.payload == written[d.write]
  }

  predicate DataInOrder(written: seq<seq<byte>>, chain: seq<Data>) {
    && (forall i :: 0 <= i < |chain| ==> Genuine(written, chain[i]))
    && forall i, j :: 0 <= i < j < |chain| ==> chain[i].write < chain[j].write
  }

  predicate Accepted(accepted: seq<Data>, write: nat) {
    exists i :: 0 <= i < |accepted| && accepted[i].write == write
  }

  predicate AcksInOrder(accepted: seq<Data>, pending: seq<Ack>) {
    && (forall i :: 0 <= i < |pending| ==>
          Accepted(accepted, pending[i].write) && pending[i].number == NumberOf(pending[i].write))
    && forall i, j :: 0 <= i < j < |pending| ==> pending[i].write < pending[j].write
  }

  ghost predicate Inv(s: State) {
    && Calls(s)
    && DataInOrder(s.written, Chain(s))
    && (forall i :: 0 <= i < |s.accepted| ==> Fits(s.accepted[i]))
    && AcksInOrder(s.accepted, Pending(s))
  }

  lemma LoseKeepsOrder(written: seq<seq<byte>>, a: seq<Data>, b: seq<Data>, i: nat)
    requires i < |b| && DataInOrder(written, a + b)
    ensures DataInOrder(written, a + Without(b, i))
  {
    var before, after := a + b, a + Without(b, i);
    forall k | 0 <= k < |after|
      ensures after[k] == before[if k < |a| + i then k else k + 1]
    {}
  }

  lemma LoseAckKeepsOrder(accepted: seq<Data>, a: seq<Ack>, b: seq<Ack>, i: nat)
    requires i < |b| && AcksInOrder(accepted, a + b)
    ensures AcksInOrder(accepted, a + Without(b, i))
  {
    var before, after := a + b, a + Without(b, i);
    forall k | 0 <= k < |after|
      ensures after[k] == before[if k < |a| + i then k else k + 1]
    {}
  }

  lemma WriteKeeps(s: State, payload: seq<byte>)
    requires Inv(s) && !s.waiting
    ensures Inv(Next(s, Write(payload))) && Inv(Next(s, Fail(payload)))
  {
    var t := Next(s, Write(payload));
    var d := t.data[|s.data|];
    assert Chain(t) == Chain(s) + [d];
    assert Genuine(t.written, d);
    forall i | 0 <= i < |Chain(s)| ensures Genuine(t.written, Chain(t)[i]) {
      assert Genuine(s.written, Chain(s)[i]);
    }
  }

  lemma DeliverDataKeeps(s: State)
    requires Inv(s) && s.data != []
    ensures Inv(Next(s, DeliverData))
  {
    var t, d := Next(s, DeliverData), s.data[0];
    if Fits(d) {
      assert Chain(t) == Chain(s);
      assert Pending(t) == Pending(s) + [Ack(d.number, d.write)];
      assert Chain(s)[|s.accepted|] == d;
      assert Accepted(t.accepted, d.write) by {
        assert t.accepted[|s.accepted|].write == d.write;
      }
      forall i | 0 <= i < |Pending(s)|
        ensures Accepted(t.accepted, Pending(s)[i].write) && Pending(s)[i].write < d.write
      {
        var j :| 0 <= j < |s.accepted| && s.accepted[j].write == Pending(s)[i].write;
        assert t.accepted[j] == s.accepted[j] == Chain(s)[j];
      }
    } else {
      assert s.data[1..] == Without(s.data, 0);
      LoseKeepsOrder(s.written, s.accepted, s.data, 0);
    }
  }

  lemma PopAckKeeps(s: State)
    requires Inv(s) && s.waiting && s.ackQueue != []
    ensures Inv(Next(s, PopAck))
  {
    var t := Next(s, PopAck);
    assert Pending(t) == Pending(s)[1..];
    assert Chain(t) == Chain(s);
  }

  lemma StepKeeps(s: State, step: Step)
    requires Inv(s) && Enabled(s, step)
    ensures Inv(Next(s, step))
  {
    match step
    case Write(payload) => WriteKeeps(s, payload);
    case Fail(payload) => WriteKeeps(s, payload);
    case LoseData(i) => LoseKeepsOrder(s.written, s.accepted, s.data, i);
    case DeliverData => DeliverDataKeeps(s);
    case LoseAck(i) => LoseAckKeepsOrder(s.accepted, s.ackQueue, s.acks, i);
    case DeliverAck =>
      assert Pending(Next(s, DeliverAck)) == Pending(s);
    case PopAck => PopAckKeeps(s);
    case Timeout =>
  }

  lemma {:induction false} RunKeeps(s: State, run: seq<Step>)
    requires Inv(s) && Possible(s, run)
    ensures Inv(After(s, run))
    decreases run
  {
    if run != [] {
      StepKeeps(s, run[0]);
      RunKeeps(Next(s, run[0]), run[1..]);
    }
  }

  lemma ReachableInv(run: seq<Step>)
    requires Possible(INITIAL, run)
    ensures Inv(After(INITIAL, run))
  {
    RunKeeps(INITIAL, run);
  }

  // Over every run: what the peer has enqueued are payloads that were
  // written, each at most once and in the order of the writes; and every ack
  // on its way or queued has the number of a write whose packet was enqueued.
  lemma PeerIsFaithful(run: seq<Step>)
    requires Possible(INITIAL, run)
    ensures var s := After(INITIAL, run);
      && (forall i :: 0 <= i < |s.accepted| ==> Genuine(s.written, s.accepted[i]))
      && (forall i, j :: 0 <= i < j < |s.accepted| ==> s.accepted[i].write < s.accepted[j].write)
      && forall i :: 0 <= i < |Pending(s)| ==>
           && Accepted(s.accepted, Pending(s)[i].write)
           && Pending(s)[i].number == NumberOf(Pending(s)[i].write)
  {
    ReachableInv(run);
    var s := After(INITIAL, run);
    forall i | 0 <= i < |s.accepted| ensures Chain(s)[i] == s.accepted[i] {}
  }

  // ----- When a result of 0 can be trusted

  // No message of another write than the last can make an ack with the
  // current number.
  ghost predicate NoImpostor(s: State) {
    && (forall i :: 0 <= i < |Pending(s)| && Pending(s)[i].number == s.seqno ==> Pending(s)[i].write == |s.written| - 1)
    && (forall i :: 0 <= i < |s.data| && Fits(s.data[i]) && s.data[i].number == s.seqno ==>
          s.data[i].write == |s.written| - 1)
  }

  // Before a call: nothing on its way or queued carries the number that the
  // call is about to use.
  ghost predicate NumberFree(s: State) {
    var number := Following(s.seqno);
    && (forall i :: 0 <= i < |Pending(s)| ==> Pending(s)[i].number != number)
    && (forall i :: 0 <= i < |s.data| && Fits(s.data[i]) ==> s.data[i].number != number)
  }

  predicate Calling(step: Step) { step.Write? || step.Fail? }

  predicate WithinCall(run: seq<Step>) { forall i :: 0 <= i < |run| ==> !Calling(run[i]) }

  // The call has returned 0.
  predicate Succeeded(s: State) { !s.waiting && s.results != [] && s.results[|s.results| - 1] }

  ghost predicate Honest(s: State) {
    && s.written != []
    && (s.waiting ==> NoImpostor(s))
    && (Succeeded(s) ==> Accepted(s.accepted, |s.written| - 1))
  }

  lemma StaysAccepted(s: State, step: Step, write: nat)
    requires Enabled(s, step) && Accepted(s.accepted, write)
    ensures Accepted(Next(s, step).accepted, write)
  {
    var t := Next(s, step);
    var i :| 0 <= i < |s.accepted| && s.accepted[i].write == write;
    assert t.accepted[i] == s.accepted[i];
  }

  lemma NoImpostorKept(s: State, step: Step)
    requires Inv(s) && Enabled(s, step) && !Calling(step) && NoImpostor(s)
    ensures NoImpostor(Next(s, step))
  {
    var t := Next(s, step);
    forall i | 0 <= i < |t.data| ensures t.data[i] in s.data {}
    forall i | 0 <= i < |Pending(t)|
      ensures Pending(t)[i] in Pending(s)
           || (step.DeliverData? && Fits(s.data[0]) && Pending(t)[i] == Ack(s.data[0].number, s.data[0].write))
    {}
  }

  lemma HonestKept(s: State, step: Step)
    requires Inv(s) && Enabled(s, step) && !Calling(step) && Honest(s)
    ensures Honest(Next(s, step))
  {
    var t := Next(s, step);
    if s.waiting {
      NoImpostorKept(s, step);
      if Succeeded(t) {
        assert Pending(s)[0] == s.ackQueue[0];
        assert Accepted(s.accepted, |s.written| - 1);
      }
    } else if Succeeded(t) {
      StaysAccepted(s, step, |s.written| - 1);
    }
  }

  lemma {:induction false} HonestThroughout(s: State, run: seq<Step>)
    requires Inv(s) && Possible(s, run) && WithinCall(run) && Honest(s)
    ensures Honest(After(s, run)) && After(s, run).written == s.written
    decreases run
  {
    if run != [] {
      StepKeeps(s, run[0]);
      HonestKept(s, run[0]);
      HonestThroughout(Next(s, run[0]), run[1..]);
    }
  }

  lemma FreeMeansNoImpostor(s: State, payload: seq<byte>)
    requires Inv(s) && !s.waiting
    ensures NumberFree(s) ==> NoImpostor(Next(s, Write(payload)))
  {
    var t := Next(s, Write(payload));
    forall i | 0 <= i < |s.data| ensures t.data[i] == s.data[i] {}
  }

  // Some message can still make an ack with the current number.
  ghost predicate Carried(s: State) {
    || (exists i :: 0 <= i < |Pending(s)| && Pending(s)[i].number == s.seqno)
    || (exists i :: 0 <= i < |s.data| && Fits(s.data[i]) && s.data[i].number == s.seqno)
  }

  // No write is accepted later that was neither accepted nor on its way.
  ghost predicate NothingNew(s: State, t: State) {
    forall i :: 0 <= i < |Chain(t)| ==> Chain(t)[i] in Chain(s)
  }

  // The step that moves the oldest message on.
  function Forward(s: State): Step
    requires s.waiting && (s.ackQueue != [] || s.acks != [] || s.data != [])
    ensures Enabled(s, Forward(s))
  {
    if s.ackQueue != [] then PopAck else if s.acks != [] then DeliverAck else DeliverData
  }

  lemma ForwardKeepsCarried(s: State)
    requires s.waiting && Carried(s)
    ensures s.ackQueue != [] || s.acks != [] || s.data != []
    ensures var t := Next(s, Forward(s)); NothingNew(s, t) && (Succeeded(t) || (t.waiting && Carried(t)))
  {
    var t := Next(s, Forward(s));
    if s.ackQueue != [] {
      assert Pending(s) == [s.ackQueue[0]] + Pending(t);
      if s.ackQueue[0].number != s.seqno && exists i :: 0 <= i < |Pending(s)| && Pending(s)[i].number == s.seqno {
        var i :| 0 <= i < |Pending(s)| && Pending(s)[i].number == s.seqno;
        assert Pending(t)[i - 1] == Pending(s)[i];
      }
    } else if s.acks != [] {
      assert Pending(t) == Pending(s);
      assert Chain(t) == Chain(s);
    } else {
      var i :| 0 <= i < |s.data| && Fits(s.data[i]) && s.data[i].number == s.seqno;
      if i == 0 {
        assert Pending(t)[|Pending(s)|].number == s.seqno;
      } else {
        assert t.data[i - 1] == s.data[i];
      }
    }
  }

  // With such a message there, the call can return 0 without any new packet
  // reaching the peer.
  lemma {:induction false} CanSucceed(s: State) returns (run: seq<Step>)
    requires s.waiting && Carried(s)
    ensures Possible(s, run) && WithinCall(run)
    ensures Succeeded(After(s, run)) && NothingNew(s, After(s, run))
    decreases 3 * |s.data| + 2 * |s.acks| + |s.ackQueue|
  {
    ForwardKeepsCarried(s);
    var t := Next(s, Forward(s));
    if Succeeded(t) {
      run := [Forward(s)];
      assert run[1..] == [];
    } else {
      var rest := CanSucceed(t);
      run := [Forward(s)] + rest;
      assert run[1..] == rest;
    }
  }

  lemma FalseSuccess(s: State, payload: seq<byte>) returns (run: seq<Step>)
    requires Inv(s) && !s.waiting && !NumberFree(s)
    ensures var t := Next(s, Write(payload));
      && Possible(t, run) && WithinCall(run)
      && Succeeded(After(t, run)) && !Accepted(After(t, run).accepted, |s.written|)
  {
    var t := Next(s, Write(payload));
    var lose := LoseData(|s.data|);
    var u := Next(t, lose);
    assert u.data == s.data;
    assert Pending(u) == Pending(s) && Chain(u) == Chain(s);
    var rest := CanSucceed(u);
    run := [lose] + rest;
    assert run[1..] == rest;
    var v := After(u, rest);
    forall i | 0 <= i < |v.accepted| ensures v.accepted[i].write < |s.written| {
      assert v.accepted[i] == Chain(v)[i];
      assert Chain(v)[i] in Chain(s);
    }
  }

  // A call made after any run: a result of 0 is certain to mean that the peer
  // enqueued this very packet if and only if no message on its way or queued
  // carries the number that the call is about to use.
  lemma SuccessIsTruthIffNumberFree(before: seq<Step>, payload: seq<byte>)
    requires Possible(INITIAL, before) && !After(INITIAL, before).waiting
    ensures var s := After(INITIAL, before);
      var t := Next(s, Write(payload));
      NumberFree(s) <==>
        forall run :: Possible(t, run) && WithinCall(run) && Succeeded(After(t, run))
                  ==> Accepted(After(t, run).accepted, |s.written|)
  {
    var s := After(INITIAL, before);
    var t := Next(s, Write(payload));
    ReachableInv(before);
    StepKeeps(s, Write(payload));
    if NumberFree(s) {
      FreeMeansNoImpostor(s, payload);
      forall run | Possible(t, run) && WithinCall(run) && Succeeded(After(t, run))
        ensures Accepted(After(t, run).accepted, |s.written|)
      {
        HonestThroughout(t, run);
      }
    } else {
      var run := FalseSuccess(s, payload);
    }
  }

  // Then also: the call can return 0 if and only if its payload fits.
  lemma FreeCallSucceedsIffFits(before: seq<Step>, payload: seq<byte>)
    requires Possible(INITIAL, before) && !After(INITIAL, before).waiting && NumberFree(After(INITIAL, before))
    ensures var t := Next(After(INITIAL, before), Write(payload));
      (exists run :: Possible(t, run) && WithinCall(run) && Succeeded(After(t, run)))
      <==> |payload| <= 123
  {
    var s := After(INITIAL, before);
    var t := Next(s, Write(payload));
    ReachableInv(before);
    StepKeeps(s, Write(payload));
    FreeMeansNoImpostor(s, payload);
    if |payload| <= LONGEST_PAYLOAD {
      assert t.data[|s.data|].number == t.seqno;
      var run := CanSucceed(t);
    }
    forall run | Possible(t, run) && WithinCall(run) && Succeeded(After(t, run))
      ensures |payload| <= LONGEST_PAYLOAD
    {
      SuccessFits(t, run);
    }
  }

  lemma SuccessFits(s: State, run: seq<Step>)
    requires Inv(s) && Honest(s) && Possible(s, run) && WithinCall(run) && Succeeded(After(s, run))
    ensures |s.written[|s.written| - 1]| <= LONGEST_PAYLOAD
  {
    HonestThroughout(s, run);
    RunKeeps(s, run);
    AcceptedFits(After(s, run), |s.written| - 1);
  }

  lemma AcceptedFits(s: State, write: nat)
    requires Inv(s) && Accepted(s.accepted, write) && write < |s.written|
    ensures |s.written[write]| <= LONGEST_PAYLOAD
  {
    var i :| 0 <= i < |s.accepted| && s.accepted[i].write == write;
    assert Chain(s)[i] == s.accepted[i];
  }

  // Every message there is stems from one of the last 255 writes.
  ghost predicate Young(s: State) {
    && (forall i :: 0 <= i < |Pending(s)| ==> |s.written| < Pending(s)[i].write + 256)
    && (forall i :: 0 <= i < |s.data| ==> |s.written| < s.data[i].write + 256)
  }

  // Enough for the number to be free: no message is 256 or more writes old.
  lemma YoungMessagesAreFree(before: seq<Step>)
    requires Possible(INITIAL, before) && Young(After(INITIAL, before))
    ensures NumberFree(After(INITIAL, before))
  {
    ReachableInv(before);
    YoungIsFree(After(INITIAL, before));
  }

  lemma YoungIsFree(s: State)
    requires Inv(s) && Young(s)
    ensures NumberFree(s)
  {
    hide NumberOf, Following;
    forall i | 0 <= i < |Pending(s)| ensures Pending(s)[i].number != Following(s.seqno) {
      var j :| 0 <= j < |s.accepted| && s.accepted[j].write == Pending(s)[i].write;
      assert Genuine(s.written, Chain(s)[j]);
      NumbersDiffer(Pending(s)[i].write, |s.written|);
    }
    forall i | 0 <= i < |s.data| ensures s.data[i].number != Following(s.seqno) {
      assert Genuine(s.written, Chain(s)[|s.accepted| + i]);
      NumbersDiffer(s.data[i].write, |s.written|);
    }
  }

  lemma NumbersDiffer(a: nat, b: nat)
    requires a < b < a + 256
    ensures NumberOf(a) != Following(NumberOf(b + 255)) == NumberOf(b)
  {}

  // ----- Whole runs

  // Every call in the run is made when its number is free.
  ghost predicate Careful(s: State, run: seq<Step>)
    requires Possible(s, run)
    decreases run
  {
    run == [] || ((run[0].Write? ==> NumberFree(s)) && Careful(Next(s, run[0]), run[1..]))
  }

  ghost predicate AllTrue(s: State) {
    forall i :: 0 <= i < |s.results| && s.results[i] ==> Accepted(s.accepted, i)
  }

  lemma AllTrueKept(s: State, step: Step)
    requires Inv(s) && Enabled(s, step) && AllTrue(s) && (s.waiting ==> NoImpostor(s))
    requires step.Write? ==> NumberFree(s)
    ensures AllTrue(Next(s, step)) && (Next(s, step).waiting ==> NoImpostor(Next(s, step)))
  {
    var t := Next(s, step);
    if step.Write? {
      FreeMeansNoImpostor(s, step.payload);
    } else if s.waiting {
      NoImpostorKept(s, step);
    }
    forall i | 0 <= i < |t.results| && t.results[i] ensures Accepted(t.accepted, i) {
      if i == |s.results| {
        assert Pending(s)[0] == s.ackQueue[0];
      }
      StaysAccepted(s, step, i);
    }
  }

  lemma {:induction false} CarefulRunsAreTrue(s: State, run: seq<Step>)
    requires Inv(s) && AllTrue(s) && (s.waiting ==> NoImpostor(s))
    requires Possible(s, run) && Careful(s, run)
    ensures AllTrue(After(s, run))
    decreases run
  {
    if run != [] {
      StepKeeps(s, run[0]);
      AllTrueKept(s, run[0]);
      CarefulRunsAreTrue(Next(s, run[0]), run[1..]);
    }
  }

  // Safety over whole runs: if every call is made when its number is free,
  // every 0 that was ever returned is true.
  lemma EverySuccessIsTrue(run: seq<Step>)
    requires Possible(INITIAL, run) && Careful(INITIAL, run)
    ensures AllTrue(After(INITIAL, run))
  {
    CarefulRunsAreTrue(INITIAL, run);
  }

  // ----- A run in which a returned 0 is false

  lemma {:induction false} LostCalls(s: State, k: nat) returns (run: seq<Step>)
    requires !s.waiting && s.data == [] && s.ackQueue == []
    ensures Possible(s, run)
    ensures var t := After(s, run);
      && !t.waiting && t.data == [] && t.ackQueue == [] && t.acks == s.acks
      && |t.written| == |s.written| + k
    decreases k
  {
    if k == 0 {
      return [];
    }
    var one := LostCall(s);
    var rest := LostCalls(After(s, one), k - 1);
    RunAppend(s, one, rest);
    run := one + rest;
  }

  lemma LostCall(s: State) returns (run: seq<Step>)
    requires !s.waiting && s.data == [] && s.ackQueue == []
    ensures Possible(s, run)
    ensures var t := After(s, run);
      && !t.waiting && t.data == [] && t.ackQueue == [] && t.acks == s.acks
      && |t.written| == |s.written| + 1
  {
    var a := Next(s, Write([]));
    var b := Next(a, LoseData(0));
    var c := Next(b, Timeout);
    run := [Write([]), LoseData(0), Timeout];
    assert run[1..] == [LoseData(0), Timeout] && run[1..][1..] == [Timeout];
    assert After(b, [Timeout]) == c;
  }

  lemma {:induction false} RunAppend(s: State, a: seq<Step>, b: seq<Step>)
    requires Possible(s, a) && Possible(After(s, a), b)
    ensures Possible(s, a + b) && After(s, a + b) == After(After(s, a), b)
    decreases a
  {
    if a == [] {
      assert a + b == b;
    } else {
      assert (a + b)[1..] == a[1..] + b;
      RunAppend(Next(s, a[0]), a[1..], b);
    }
  }

  // The ack of the first packet stays in flight while 255 calls time out
  // with their packets lost; it then answers the next call.
  lemma SuccessCanBeFalse() returns (run: seq<Step>)
    ensures Possible(INITIAL, run) && !AllTrue(After(INITIAL, run))
  {
    var early := LateAck();
    var calls := LostCalls(After(INITIAL, early), 255);
    RunAppend(INITIAL, early, calls);
    var before := early + calls;
    var s := After(INITIAL, before);
    ReachableInv(before);
    assert Pending(s)[0].number == Following(s.seqno);
    var last := FalseSuccess(s, []);
    run := OneMoreCall(before, last);
    HistoryKept(Next(s, Write([])), last);
    ReachableInv(run);
  }

  lemma LateAck() returns (run: seq<Step>)
    ensures Possible(INITIAL, run)
    ensures var s := After(INITIAL, run);
      !s.waiting && s.data == [] && s.ackQueue == [] && s.acks == [Ack(38, 0)] && |s.written| == 1
  {
    var a := Next(INITIAL, Write([]));
    var b := Next(a, DeliverData);
    var c := Next(b, Timeout);
    run := [Write([]), DeliverData, Timeout];
    assert run[1..] == [DeliverData, Timeout] && run[1..][1..] == [Timeout];
    assert After(b, [Timeout]) == c;
  }

  lemma OneMoreCall(before: seq<Step>, call: seq<Step>) returns (run: seq<Step>)
    requires Possible(INITIAL, before) && !After(INITIAL, before).waiting
    requires Possible(Next(After(INITIAL, before), Write([])), call)
    ensures Possible(INITIAL, run)
    ensures After(INITIAL, run) == After(Next(After(INITIAL, before), Write([])), call)
  {
    var tail := [Write([])] + call;
    assert tail[1..] == call;
    RunAppend(INITIAL, before, tail);
    run := before + tail;
  }

  lemma {:induction false} HistoryKept(s: State, run: seq<Step>)
    requires Possible(s, run) && WithinCall(run)
    ensures After(s, run).written == s.written
    decreases run
  {
    if run != [] {
      HistoryKept(Next(s, run[0]), run[1..]);
    }
  }

  // ----- The loop of write_serial_packet is a run of pops

  function Pops(n: nat): (run: seq<Step>)
    ensures |run| == n && WithinCall(run)
  {
    if n == 0 then [] else [PopAck] + Pops(n - 1)
  }

  // Acks with other numbers are popped and the call goes on waiting.
  lemma {:induction false} OtherAcksArePassedOver(s: State, n: nat)
    requires s.waiting && n <= |s.ackQueue|
    requires forall i :: 0 <= i < n ==> s.ackQueue[i].number != s.seqno
    ensures Possible(s, Pops(n)) && After(s, Pops(n)) == s.(ackQueue := s.ackQueue[n..])
    decreases n
  {
    if n > 0 {
      var t := Next(s, PopAck);
      assert Pops(n)[1..] == Pops(n - 1);
      assert forall i :: 0 <= i < n - 1 ==> t.ackQueue[i] == s.ackQueue[i + 1];
      OtherAcksArePassedOver(t, n - 1);
      assert s.ackQueue[1..][n - 1..] == s.ackQueue[n..];
    }
  }

  // The first ack with the current number ends the call with 0, as the method
  // WriteSerialPacket states of the last ack it took and of those before it;
  // if there is none, only a timeout can end it.
  lemma FirstMatchEndsTheCall(s: State, n: nat)
    requires s.waiting && n <= |s.ackQueue|
    requires forall i :: 0 <= i < n ==> s.ackQueue[i].number != s.seqno
    ensures n < |s.ackQueue| && s.ackQueue[n].number == s.seqno ==>
      && Possible(s, Pops(n) + [PopAck])
      && After(s, Pops(n) + [PopAck])
         == s.(ackQueue := s.ackQueue[n + 1..], waiting := false, results := s.results + [true])
    ensures n == |s.ackQueue| ==>
      && Possible(s, Pops(n) + [Timeout])
      && After(s, Pops(n) + [Timeout])
         == s.(ackQueue := [], waiting := false, results := s.results + [false])
  {
    OtherAcksArePassedOver(s, n);
    var t := After(s, Pops(n));
    assert [PopAck][1..] == [] && [Timeout][1..] == [];
    if n < |s.ackQueue| {
      assert t.ackQueue[0] == s.ackQueue[n] && t.ackQueue[1..] == s.ackQueue[n + 1..];
      RunAppend(s, Pops(n), [PopAck]);
    } else {
      RunAppend(s, Pops(n), [Timeout]);
    }
  }

  // ----- The channels are the serial line

  // The packets that carry the messages, as write_framed_packet gets them.
  function Packed(ds: seq<Data>): seq<Packet> {
    if ds == [] then [] else [Packet(P_PACKET_ACK, ds[0].number, ds[0].payload)] + Packed(ds[1..])
  }

  function Fitting(ds: seq<Data>): seq<Data> {
    if ds == [] then [] else (if Fits(ds[0]) then [ds[0]] else []) + Fitting(ds[1..])
  }

  function Payloads(ds: seq<Data>): seq<seq<byte>> {
    if ds == [] then [] else [ds[0].payload] + Payloads(ds[1..])
  }

  function AckBodies(ds: seq<Data>): (ms: seq<seq<byte>>)
    ensures Framing.Packets(ms)
  {
    if ds == [] then [] else [[P_ACK, ds[0].number]] + AckBodies(ds[1..])
  }

  function Answers(ds: seq<Data>): seq<seq<byte>> {
    if ds == [] then [] else [[ds[0].number]] + Answers(ds[1..])
  }

  lemma FirstFits(d: Data, rest: seq<Data>)
    ensures Payloads([d] + rest) == [d.payload] + Payloads(rest)
    ensures Framing.Stream(AckBodies([d] + rest)) == Framing.Frame([P_ACK, d.number]) + Framing.Stream(AckBodies(rest))
  {
    assert ([d] + rest)[1..] == rest;
    assert AckBodies([d] + rest)[1..] == AckBodies(rest);
  }

  lemma {:induction false} OwedForData(ds: seq<Data>)
    ensures Owed(Packed(ds), P_PACKET_NO_ACK) == Payloads(Fitting(ds))
    ensures OwedAcks(Packed(ds)) == Framing.Stream(AckBodies(Fitting(ds)))
  {
    if ds != [] {
      hide Framing.Frame;
      var rest := Fitting(ds[1..]);
      OwedForData(ds[1..]);
      assert Packed(ds)[1..] == Packed(ds[1..]);
      if Fits(ds[0]) {
        FirstFits(ds[0], rest);
        assert Fitting(ds) == [ds[0]] + rest;
      } else {
        assert Fitting(ds) == [] + rest == rest;
        assert Owed(Packed(ds), P_PACKET_NO_ACK) == [] + Payloads(rest);
        assert OwedAcks(Packed(ds)) == [] + Framing.Stream(AckBodies(rest));
      }
    }
  }

  // Frames that reach the peer, in order, are what DeliverData does to each:
  // the payloads that fit are enqueued, and their numbers go back as ack frames.
  lemma {:induction false} DataOnTheLine(r: Framing.Receiver, ds: seq<Data>)
    requires Framing.Ready(r) && Framing.Bounded(r)
    ensures var heard := Framing.Heard(r, Framing.Stream(Bodies(Packed(ds))));
      && Framing.Packets(heard)
      && Filed(heard, P_PACKET_NO_ACK) == Payloads(Fitting(ds))
      && Acks(heard) == Framing.Stream(AckBodies(Fitting(ds)))
  {
    StreamRoundTrip(r, Packed(ds), P_PACKET_NO_ACK);
    OwedForData(ds);
  }

  lemma {:induction false} AckBodiesFiled(ds: seq<Data>)
    ensures Framing.Fitting(AckBodies(ds)) == AckBodies(ds)
    ensures Filed(AckBodies(ds), P_ACK) == Answers(ds)
  {
    if ds != [] {
      AckBodiesFiled(ds[1..]);
      assert AckBodies(ds)[1..] == AckBodies(ds[1..]);
      assert ContentOf([P_ACK, ds[0].number]) == [ds[0].number];
    }
  }

  // Ack frames that reach the host fill its queue of type 64 with just the
  // numbers that write_serial_packet compares.
  lemma {:induction false} AcksOnTheLine(r: Framing.Receiver, ds: seq<Data>)
    requires Framing.Ready(r) && Framing.Bounded(r)
    ensures var heard := Framing.Heard(r, Framing.Stream(AckBodies(ds)));
      Framing.Packets(heard) && Filed(heard, P_ACK) == Answers(ds)
  {
    Framing.StreamHeard(r, AckBodies(ds));
    AckBodiesFiled(ds);
  }
}
