// The counters of the gateway: src/IoTManager.c, which decodes, stores and
// serves them, and src/driver/iDCU_IoT.c, which polls them and reports what
// was added.

module Words {
  import opened Bits

  type uint32 = v: int | 0 <= v < 0x1_0000_0000

  // Most significant byte first, as in an event from the serial port.
  function BigEndian(b: seq<byte>): (v: uint32)
    requires |b| == 4
  {
    b[0] as int * 0x100_0000 + b[1] as int * 0x1_0000 + b[2] as int * 0x100 + b[3] as int
  }

  // The order on the network: the low half first, each half big-endian.
  function Mixed(b: seq<byte>): (v: uint32)
    requires |b| == 4
  {
    b[1] as int + b[0] as int * 0x100 + b[3] as int * 0x1_0000 + b[2] as int * 0x100_0000
  }

  function ToMixed(v: uint32): (b: seq<byte>)
    ensures |b| == 4
  {
    [(v / 0x100 % 0x100) as byte, (v % 0x100) as byte,
     (v / 0x100_0000 % 0x100) as byte, (v / 0x1_0000 % 0x100) as byte]
  }

  lemma MixedOfToMixed(v: uint32)
    ensures Mixed(ToMixed(v)) == v
  {
    assert v / 0x100 / 0x100 == v / 0x1_0000 && v / 0x1_0000 / 0x100 == v / 0x100_0000;
  }

  lemma MixedInjective(a: seq<byte>, b: seq<byte>)
    requires |a| == |b| == 4 && Mixed(a) == Mixed(b)
    ensures a == b
  {
    FourBytes(a[1] as nat, a[0] as nat, a[3] as nat, a[2] as nat);
    FourBytes(b[1] as nat, b[0] as nat, b[3] as nat, b[2] as nat);
  }

  lemma FourBytes(a: nat, b: nat, c: nat, d: nat)
    requires a < 0x100 && b < 0x100 && c < 0x100 && d < 0x100
    ensures var v := a + b * 0x100 + c * 0x1_0000 + d * 0x100_0000;
      a == v % 0x100 && b == v / 0x100 % 0x100 && c == v / 0x1_0000 % 0x100 && d == v / 0x100_0000
  {
    var v := a + b * 0x100 + c * 0x1_0000 + d * 0x100_0000;
    assert v / 0x100 == b + c * 0x100 + d * 0x1_0000;
    assert v / 0x1_0000 == c + d * 0x100;
  }
}

// src/IoTManager.c
module Gateway {
  import opened Bits
  import opened Words

  const PORTS := 8
  type Counters = c: seq<uint32> | |c| == PORTS witness seq(PORTS, _ => 0)

  // What an event says about port i, and all of what it says.
  function CounterIn(event: seq<byte>, i: nat): uint32
    requires i < PORTS && |event| >= 52
  {
    BigEndian(event[4 + 6 * i..8 + 6 * i])
  }

  function CountersIn(event: seq<byte>): Counters
    requires |event| >= 52
  {
    seq(PORTS, i requires 0 <= i < PORTS => CounterIn(event, i))
  }

  function LevelsIn(event: seq<byte>): (io: seq<byte>)
    requires |event| >= 74
    ensures |io| == PORTS
  {
    seq(PORTS, i requires 0 <= i < PORTS => event[52 + 3 * i])
  }

  function CommReply(row: Counters): (reply: seq<byte>)
    ensures |reply| == 41
  {
    [0x01, 0x02, 0x00, 0x00, 0x00, 0x23, 0x01, 0x04, 0x20] + Channels(row, PORTS)
  }

  // statusSend.channel[..n]
  function Channels(row: Counters, n: nat): (c: seq<byte>)
    requires n <= PORTS
    ensures |c| == 4 * n
  {
    if n == 0 then [] else Channels(row, n - 1) + ToMixed(row[n - 1])
  }

  lemma {:induction false} FirstChannel(row: Counters, n: nat)
    requires 0 < n <= PORTS
    ensures Channels(row, n)[..4] == ToMixed(row[0])
  {
    if n == 1 {
      assert Channels(row, 0) == [];
      assert [] + ToMixed(row[0]) == ToMixed(row[0]);
    } else {
      FirstChannel(row, n - 1);
      assert Channels(row, n)[..4] == Channels(row, n - 1)[..4];
    }
  }

  // io[0] << 0 | ... | io[n - 1] << n - 1, as the bits of a byte, lowest first.
  function Levels(io: seq<byte>, n: nat): (w: seq<bool>)
    requires n <= |io| == PORTS
    ensures |w| == 8
  {
    if n == 0 then Zeros(8) else Or(Levels(io, n - 1), ShiftLeft(io[n - 1], n - 1))
  }

  function ShiftLeft(b: byte, k: nat): (w: seq<bool>)
    requires k <= 8
    ensures |w| == 8
  {
    Zeros(k) + ByteBits(LsbFirst, b)[..8 - k]
  }

  function Or(a: seq<bool>, b: seq<bool>): (w: seq<bool>)
    requires |a| == |b|
    ensures |w| == |a|
  {
    seq(|a|, i requires 0 <= i < |a| => a[i] || b[i])
  }

  function IOReply(io: seq<byte>): (reply: seq<byte>)
    requires |io| == PORTS
    ensures |reply| == 10
  {
    [0x01, 0x02, 0x00, 0x00, 0x00, 0x04, 0x01, 0x02, 0x01, ByteOf(LsbFirst, Levels(io, PORTS))]
  }

  predicate HighByteFirst(v: uint32, b: seq<byte>) {
    && |b| == 4
    && v == 0x100_0000 * b[0] as int + 0x1_0000 * b[1] as int + 0x100 * b[2] as int + b[3] as int
  }

  // The low half of v first, each half with its high byte first.
  predicate InMixedOrder(v: uint32, b: seq<byte>) {
    && |b| == 4
    && v == 0x100 * b[0] as int + b[1] as int + 0x100_0000 * b[2] as int + 0x1_0000 * b[3] as int
  }

  lemma ToMixedIs(v: uint32)
    ensures InMixedOrder(v, ToMixed(v))
  {
    MixedOfToMixed(v);
  }

  lemma {:induction false} ChannelsHold(row: Counters, n: nat, j: nat)
    requires j < n <= PORTS
    ensures Channels(row, n)[4 * j..4 * j + 4] == ToMixed(row[j])
  {
    hide ToMixed;
    if j < n - 1 {
      ChannelsHold(row, n - 1, j);
      assert Channels(row, n)[4 * j..4 * j + 4] == Channels(row, n - 1)[4 * j..4 * j + 4];
    }
  }

  // The reply holds the counters of all ports.
  lemma CommReplyHolds(row: Counters)
    ensures forall j :: 0 <= j < 8 ==> InMixedOrder(row[j], CommReply(row)[9 + 4 * j..13 + 4 * j])
  {
    hide ToMixed, Channels, InMixedOrder;
    forall j | 0 <= j < 8 ensures InMixedOrder(row[j], CommReply(row)[9 + 4 * j..13 + 4 * j]) {
      ChannelsHold(row, 8, j);
      assert CommReply(row)[9 + 4 * j..13 + 4 * j] == Channels(row, 8)[4 * j..4 * j + 4];
      ToMixedIs(row[j]);
    }
  }

  // b >> k & 1
  predicate BitSet(b: byte, k: nat) { b as nat / Power2(k) % 2 == 1 }

  lemma BitsOf(b: byte, k: nat)
    requires k < 8
    ensures ByteBits(LsbFirst, b)[k] == BitSet(b, k)
  {
    BitOf(b as nat, 8, k);
  }

  lemma {:induction false} LevelsHold(io: seq<byte>, n: nat, k: nat)
    requires n <= |io| == PORTS && k < 8
    ensures Levels(io, n)[k] <==> exists j :: 0 <= j < n && j <= k && BitSet(io[j], k - j)
  {
    hide BitSet, ByteBits;
    if n > 0 {
      LevelsHold(io, n - 1, k);
      if n - 1 <= k {
        BitsOf(io[n - 1], k - (n - 1));
      }
    }
  }

  // The byte of the reply combines all bits of all levels,
  lemma IOReplyHolds(io: seq<byte>)
    requires |io| == PORTS
    ensures forall k :: 0 <= k < 8 ==>
      (BitSet(IOReply(io)[9], k) <==> exists j :: 0 <= j <= k && BitSet(io[j], k - j))
  {
    hide BitSet, Levels, ByteOf;
    forall k | 0 <= k < 8
      ensures BitSet(IOReply(io)[9], k) <==> exists j :: 0 <= j <= k && BitSet(io[j], k - j)
    {
      BitsOf(IOReply(io)[9], k);
      LevelsHold(io, 8, k);
    }
  }

  // so that bit k is the level of port k + 1 as long as levels are 0 or 1.
  lemma LevelsApart(io: seq<byte>, k: nat)
    requires |io| == PORTS && (forall j :: 0 <= j < 8 ==> io[j] <= 1) && k < 8
    ensures BitSet(IOReply(io)[9], k) <==> io[k] == 1
  {
    IOReplyHolds(io);
    hide IOReply;
    forall j | 0 <= j <= k ensures BitSet(io[j], k - j) <==> j == k && io[j] == 1 {
      OnlyBit0(io[j], k - j);
    }
  }

  lemma OnlyBit0(b: byte, k: nat)
    requires b <= 1
    ensures BitSet(b, k) <==> k == 0 && b == 1
  {
    if k > 0 {
      SmallQuotient(b as nat, Power2(k));
    } else {
      assert b as nat / 1 == b as nat;
    }
  }

  lemma SmallQuotient(a: nat, d: nat)
    requires a < d
    ensures a / d == 0
  {}

  class Manager {
    var node: Counters
    var past: Counters
    var io: seq<byte>
    var row: Counters   // the row of tb_comm_status
    ghost var last: Counters  // of the last event, or of init

    ghost predicate Valid()
      reads this
    {
      |io| == PORTS && node == past == last
    }

    // In addition, no update was lost.
    ghost predicate InStep()
      reads this
    {
      Valid() && row == node
    }

    // init, with one row in the table
    constructor (row: Counters)
      ensures InStep() && this.row == row == last
    {
      this.row := row;
      io := seq(PORTS, _ => 0);
      past, node, last := row, row, row;
    }

    // The first loop of receiveEvent: node, and whether it differs from past.
    method ReadCounters(event: seq<byte>) returns (changed: bool)
      requires |event| >= 52
      modifies this`node
      ensures node == CountersIn(event)
      ensures changed <==> past != node
    {
      var cntOffset := 4;
      changed := false;
      var i := 0;
      while i < PORTS
        invariant 0 <= i <= PORTS && cntOffset == 4 + 6 * i
        invariant forall j :: 0 <= j < i ==> node[j] == CounterIn(event, j)
        invariant changed <==> exists j :: 0 <= j < i && past[j] != node[j]
      {
        var v := event[cntOffset] as int * 0x100_0000;
        v := v + event[cntOffset + 1] as int * 0x1_0000;
        v := v + event[cntOffset + 2] as int * 0x100;
        v := v + event[cntOffset + 3] as int;
        assert v == BigEndian(event[cntOffset..cntOffset + 4]);
        node := node[i := v];
        cntOffset := cntOffset + 6;
        if past[i] != node[i] {
          changed := true;
        }
        i := i + 1;
      }
    }

    method ReadLevels(event: seq<byte>)
      requires |event| >= 74 && |io| == PORTS
      modifies this`io
      ensures io == LevelsIn(event)
    {
      var cntOffset := 52;
      var i := 0;
      while i < PORTS
        invariant 0 <= i <= PORTS && cntOffset == 52 + 3 * i
        invariant |io| == PORTS && forall j :: 0 <= j < i ==> io[j] == event[52 + 3 * j]
      {
        io := io[i := event[cntOffset]];
        cntOffset := cntOffset + 3;
        i := i + 1;
      }
    }

    // receiveEvent. event is the memory at the pointer that is passed, which
    // reaches behind a short event. begins: the transaction could be begun. An
    // event of type 1 starts the time synchronisation and changes nothing here.
    method ReceiveEvent(event: seq<byte>, begins: bool)
      requires Valid() && |event| >= 74
      modifies this
      ensures Valid()
      ensures event[2] == 1 ==> row == old(row) && last == old(last) && io == old(io)
      ensures event[2] != 1 ==> last == CountersIn(event)
      ensures event[2] != 1 ==> forall i :: 0 <= i < 8 ==> HighByteFirst(last[i], event[4 + 6 * i..8 + 6 * i])
      ensures event[2] != 1 ==> |io| == 8 && forall i :: 0 <= i < 8 ==> io[i] == event[52 + 3 * i]
      ensures event[2] != 1 ==> row == RowAfter(old(row), old(last), [Event(CountersIn(event), begins)])
      ensures old(InStep()) && begins ==> InStep()
    {
      if event[2] == 1 {
        return;
      }
      var changed := ReadCounters(event);
      ReadLevels(event);
      if changed {
        if begins {
          row := node;
        }
      }
      var i := 0;
      while i < PORTS
        invariant 0 <= i <= PORTS && forall j :: 0 <= j < i ==> past[j] == node[j]
        invariant node == CountersIn(event) && io == LevelsIn(event)
        invariant row == if node != old(past) && begins then node else old(row)
      {
        past := past[i := node[i]];
        i := i + 1;
      }
      last := node;
    }

    // getCommStatus: the counter of port j + 1 at 9 + 4 * j
    method GetCommStatus() returns (reply: seq<byte>)
      ensures reply == CommReply(row)
      ensures |reply| == 41 && reply[..9] == [0x01, 0x02, 0x00, 0x00, 0x00, 0x23, 0x01, 0x04, 0x20]
      ensures forall j :: 0 <= j < 8 ==> InMixedOrder(row[j], reply[9 + 4 * j..13 + 4 * j])
    {
      var channels := [];
      var j := 0;
      while j < PORTS
        invariant 0 <= j <= PORTS && channels == Channels(row, j)
      {
        var v := row[j];
        channels := channels + [(v / 0x100 % 0x100) as byte, (v % 0x100) as byte,
                                (v / 0x100_0000 % 0x100) as byte, (v / 0x1_0000 % 0x100) as byte];
        j := j + 1;
      }
      reply := [0x01, 0x02, 0x00, 0x00, 0x00, 0x23, 0x01, 0x04, 0x20] + channels;
      CommReplyHolds(row);
    }

    // getIOStatus: bit k is set where some io[j] << j has it set
    method GetIOStatus() returns (reply: seq<byte>)
      requires |io| == PORTS
      ensures reply == IOReply(io)
      ensures |reply| == 10 && reply[..9] == [0x01, 0x02, 0x00, 0x00, 0x00, 0x04, 0x01, 0x02, 0x01]
      ensures forall k :: 0 <= k < 8 ==> (BitSet(reply[9], k) <==> exists j :: 0 <= j <= k && BitSet(io[j], k - j))
    {
      var levels := Zeros(8);
      var i := 0;
      while i < PORTS
        invariant 0 <= i <= PORTS && levels == Levels(io, i)
      {
        levels := Or(levels, ShiftLeft(io[i], i));
        i := i + 1;
      }
      reply := [0x01, 0x02, 0x00, 0x00, 0x00, 0x04, 0x01, 0x02, 0x01, ByteOf(LsbFirst, levels)];
      IOReplyHolds(io);
    }
  }

  // ----- Runs of events

  datatype Event = Event(counters: Counters, begins: bool)

  // The row after the events, where past are the counters before them.
  function RowAfter(row: Counters, past: Counters, events: seq<Event>): Counters
    decreases events
  {
    if events == [] then row
    else
      var e := events[0];
      RowAfter(if e.counters != past && e.begins then e.counters else row, e.counters, events[1..])
  }

  function LastOf(past: Counters, events: seq<Event>): Counters {
    if events == [] then past else events[|events| - 1].counters
  }

  // The row and the counters before an event are all that the earlier events
  // leave behind.
  lemma {:induction false} RowAfterAppend(row: Counters, past: Counters, a: seq<Event>, b: seq<Event>)
    ensures RowAfter(row, past, a + b) == RowAfter(RowAfter(row, past, a), LastOf(past, a), b)
    decreases a
  {
    if a == [] {
      assert a + b == b;
    } else {
      var e := a[0];
      assert (a + b)[1..] == a[1..] + b;
      RowAfterAppend(if e.counters != past && e.begins then e.counters else row, e.counters, a[1..], b);
    }
  }

  predicate Changes(past: Counters, events: seq<Event>, i: nat)
    requires i < |events|
  {
    events[i].counters != LastOf(past, events[..i])
  }

  predicate LastChange(past: Counters, events: seq<Event>, i: nat)
    requires i < |events|
  {
    Changes(past, events, i) && forall j :: i < j < |events| ==> events[j].counters == events[i].counters
  }

  // The row is the last counters if and only if the event that changed them
  // last could begin its update, or the row held its counters already.
  lemma {:induction false} RowIsLastIff(row: Counters, past: Counters, events: seq<Event>, i: nat)
    requires i < |events| && LastChange(past, events, i)
    ensures RowAfter(row, past, events) == LastOf(past, events)
       <==> events[i].begins || RowAfter(row, past, events[..i]) == events[i].counters
  {
    var e, later := events[i], events[i + 1..];
    assert events == events[..i] + ([e] + later);
    RowAfterAppend(row, past, events[..i], [e] + later);
    assert ([e] + later)[1..] == later;
    var before := RowAfter(row, past, events[..i]);
    UnchangedRow(if e.begins then e.counters else before, e.counters, later);
  }

  // Without a change the row stays, and every run has a last change or none.
  lemma {:induction false} NoChangeNoUpdate(row: Counters, past: Counters, events: seq<Event>)
    requires forall i :: 0 <= i < |events| ==> !LastChange(past, events, i)
    ensures LastOf(past, events) == past && RowAfter(row, past, events) == row
  {
    NeverChanged(past, events, |events|);
    UnchangedRow(row, past, events);
  }

  lemma {:induction false} NeverChanged(past: Counters, events: seq<Event>, k: nat)
    requires k <= |events| && forall i :: 0 <= i < |events| ==> !LastChange(past, events, i)
    requires forall j :: k <= j < |events| ==> events[j].counters == LastOf(past, events)
    ensures forall j :: 0 <= j < |events| ==> events[j].counters == past
    ensures LastOf(past, events) == past
  {
    if k > 0 {
      assert k == |events| ==> events[k - 1].counters == LastOf(past, events);
      assert k < |events| ==> !LastChange(past, events, k) && events[k].counters == LastOf(past, events[..k]);
      NeverChanged(past, events, k - 1);
    } else if events != [] {
      assert !LastChange(past, events, 0) && events[..0] == [];
    }
  }

  // Every update could be begun when it was due.
  predicate NoneLost(past: Counters, events: seq<Event>) {
    forall i :: 0 <= i < |events| ==> Changes(past, events, i) ==> events[i].begins
  }

  // The row is written only on change, and still it always holds the last
  // counters, as long as no due update failed to begin.
  lemma {:induction false} RowIsLast(past: Counters, events: seq<Event>)
    requires NoneLost(past, events)
    ensures RowAfter(past, past, events) == LastOf(past, events)
  {
    if i :| 0 <= i < |events| && LastChange(past, events, i) {
      RowIsLastIff(past, past, events, i);
    } else {
      NoChangeNoUpdate(past, past, events);
    }
  }

  // An update that fails to begin is not made up for by repeating the event:
  // until the counters change again the row stays behind.
  lemma {:induction false} LostUpdateStays(row: Counters, past: Counters, event: Event, repeats: seq<Event>)
    requires event.counters != past && !event.begins
    requires forall i :: 0 <= i < |repeats| ==> repeats[i].counters == event.counters
    ensures RowAfter(row, past, [event] + repeats) == row
    decreases repeats
  {
    assert ([event] + repeats)[1..] == repeats;
    UnchangedRow(row, event.counters, repeats);
  }

  lemma {:induction false} UnchangedRow(row: Counters, past: Counters, repeats: seq<Event>)
    requires forall i :: 0 <= i < |repeats| ==> repeats[i].counters == past
    ensures RowAfter(row, past, repeats) == row
    decreases repeats
  {
    if repeats != [] {
      UnchangedRow(row, past, repeats[1..]);
    }
  }
}

// src/driver/iDCU_IoT.c
module IoTClient {
  import opened Bits
  import opened Sequences
  import opened Words
  import Gateway

  // A message to the tag server: a level for tag 51, or a counter for tag 52
  // and the quantity added for tag 53.
  datatype Report = Level(on: bool) | Quantity(count: uint32, qty: uint32)

  // woPastData, cntPastData and preQty
  datatype State = State(level: bool, bytes: seq<byte>, quantity: uint32)

  const START := State(false, [0, 0, 0, 0], 0)

  // preQty is always the decoded cntPastData.
  predicate Agree(s: State) { |s.bytes| == 4 && s.quantity == Mixed(s.bytes) }

  predicate Bit1(b: byte) { ByteBits(LsbFirst, b)[1] }

  // selectTag for a counter with these four bytes
  function OnCount(s: State, b: seq<byte>): (State, seq<Report>)
    requires |b| == 4
  {
    var count := Mixed(b);
    var s' := s.(bytes := b, quantity := count);
    if s.quantity == 0 || s.quantity > count then (s', [])
    else (s', if s.bytes != b then [Quantity(count, count - s.quantity)] else [])
  }

  function OnLevel(s: State, b: byte): (State, seq<Report>) {
    (s.(level := Bit1(b)), if s.level != Bit1(b) then [Level(Bit1(b))] else [])
  }

  // selectTag: other types are ignored, and so are missing bytes.
  function Select(s: State, kind: byte, data: seq<byte>): (State, seq<Report>) {
    if kind == 2 && |data| >= 1 then OnLevel(s, data[0])
    else if kind == 4 && |data| >= 4 then OnCount(s, data[..4])
    else (s, [])
  }

  predicate HeaderAt(buf: seq<byte>, i: nat) {
    i + 1 < |buf| && buf[i] == 1 && buf[i + 1] == 2
  }

  // tlen == cvalue[i + 8] + 3, with all tlen + 6 bytes in the buffer
  predicate LengthMatchesAt(buf: seq<byte>, i: nat) {
    && i + 8 < |buf|
    && buf[i + 5] as int == buf[i + 8] as int + 3
    && i + buf[i + 5] as int + 6 <= |buf|
  }

  class Client {
    var state: State
    var reports: seq<Report>

    constructor ()
      ensures state == START && reports == []
    {
      state, reports := START, [];
    }

    method SelectTag(data: seq<byte>, kind: byte)
      requires Agree(state)
      modifies this
      ensures Agree(state)
      ensures state == Select(old(state), kind, data).0
      ensures reports == old(reports) + Select(old(state), kind, data).1
    {
      var changed, report := false, Level(false);
      if kind == 2 && |data| >= 1 {
        var on := Bit1(data[0]);
        report := Level(on);
        if state.level != on {
          changed := true;
        }
        state := state.(level := on);
      } else if kind == 4 && |data| >= 4 {
        var b := data[..4];
        var count := Mixed(b);
        if state.quantity == 0 || state.quantity > count {
          state := state.(bytes := b, quantity := Mixed(b));
        } else {
          var qty := count - state.quantity;
          report := Quantity(count, qty);
          if state.bytes != b {
            changed := true;
          }
          state := state.(bytes := b, quantity := Mixed(b));
        }
      }
      if changed {
        reports := reports + [report];
      }
    }

    // ParsingReceiveValue_iDCU_IoT: the number of bytes kept
    method Parse(cvalue: seq<byte>, previous: nat) returns (remain: int)
      requires Agree(state)
      modifies this
      ensures Agree(state)
      ensures var r := Scan(old(state), cvalue, 0, previous);
        state == r.state && reports == old(reports) + r.reports && remain == r.remain
    {
      hide Scan, Select;
      var i, remainSize := 0, previous;
      while i < |cvalue|
        invariant 0 <= i && Agree(state) && 0 <= remainSize
        invariant old(reports) <= reports
        invariant Scan(old(state), cvalue, 0, previous)
               == After(reports[|old(reports)|..], Scan(state, cvalue, i, remainSize))
        decreases |cvalue| - i
      {
        ghost var before, sofar := state, reports[|old(reports)|..];
        ScanStep(state, cvalue, i, remainSize);
        if HeaderAt(cvalue, i) {
          if !LengthMatchesAt(cvalue, i) {
            return 0;
          }
          var tlen := cvalue[i + 5] as int;
          SelectTag(cvalue[i + 9..i + 6 + tlen], cvalue[i + 7]);
          AfterAfter(sofar, Select(before, cvalue[i + 7], cvalue[i + 9..i + 6 + tlen]).1,
                     Scan(state, cvalue, i + tlen + 7, i + tlen + 6));
          i := i + tlen + 6;
          remainSize := i;
        }
        i := i + 1;
      }
      ScanEnd(state, cvalue, i, remainSize);
      remain := |cvalue| - remainSize;
    }
  }

  lemma ScanStep(s: State, buf: seq<byte>, i: nat, from: nat)
    requires i < |buf|
    ensures Scan(s, buf, i, from) ==
      if !HeaderAt(buf, i) then Scan(s, buf, i + 1, from)
      else if !LengthMatchesAt(buf, i) then Scanned(s, [], 0)
      else
        var end := i + buf[i + 5] as int + 6;
        var (s', reports) := Select(s, buf[i + 7], buf[i + 9..end]);
        After(reports, Scan(s', buf, end + 1, end))
  {}

  lemma ScanEnd(s: State, buf: seq<byte>, i: nat, from: nat)
    requires i >= |buf|
    ensures Scan(s, buf, i, from) == Scanned(s, [], |buf| - from)
  {}

  datatype Scanned = Scanned(state: State, reports: seq<Report>, remain: int)

  function After(reports: seq<Report>, r: Scanned): Scanned { r.(reports := reports + r.reports) }

  lemma AfterAfter(a: seq<Report>, b: seq<Report>, r: Scanned)
    ensures After(a, After(b, r)) == After(a + b, r)
  {
    assert a + (b + r.reports) == (a + b) + r.reports;
  }

  // The rest of the buffer from position i; one byte after each frame is skipped.
  function Scan(s: State, buf: seq<byte>, i: nat, from: nat): Scanned
    decreases |buf| - i
  {
    if i >= |buf| then Scanned(s, [], |buf| - from)
    else if !HeaderAt(buf, i) then Scan(s, buf, i + 1, from)
    else if !LengthMatchesAt(buf, i) then Scanned(s, [], 0)
    else
      var end := i + buf[i + 5] as int + 6;
      var (s', reports) := Select(s, buf[i + 7], buf[i + 9..end]);
      After(reports, Scan(s', buf, end + 1, end))
  }

  // ----- Single buffers

  lemma Bit1IsBit1(b: byte)
    ensures Bit1(b) <==> b / 2 % 2 == 1
  {
    Gateway.BitsOf(b, 1);
    assert Power2(1) == 2;
  }

  // A buffer with one frame: 01 02, a length in byte 5, a type in byte 7 and a
  // length that is smaller by 3 in byte 8. Otherwise nothing is done. Type 2
  // is a level, type 4 a counter; other types are consumed and ignored.
  lemma {:induction false} OneFrame(s: State, buf: seq<byte>, previous: nat)
    requires |buf| >= 9 && buf[..2] == [0x01, 0x02] && |buf| <= 6 + buf[5] as int
    ensures
      var accepted := |buf| == 6 + buf[5] as int && buf[5] as int == buf[8] as int + 3;
      var data := buf[9..];
      Scan(s, buf, 0, previous) ==
        if !accepted then Scanned(s, [], 0)
        else if buf[7] == 2 && data != [] then Scanned(OnLevel(s, data[0]).0, OnLevel(s, data[0]).1, 0)
        else if buf[7] == 4 && |data| >= 4 then Scanned(OnCount(s, data[..4]).0, OnCount(s, data[..4]).1, 0)
        else Scanned(s, [], 0)
  {
    hide Scan, OnLevel, OnCount;
    assert buf[0] == buf[..2][0] && buf[1] == buf[..2][1];
    ScanStep(s, buf, 0, previous);
    var end := 6 + buf[5] as int;
    if LengthMatchesAt(buf, 0) {
      assert buf[9..end] == buf[9..];
      var (s', reports) := Select(s, buf[7], buf[9..]);
      ScanEnd(s', buf, end + 1, end);
      assert reports + [] == reports;
    }
  }

  // Without a header nothing is reported.
  lemma {:induction false} NoHeaderNoReport(s: State, buf: seq<byte>, i: nat, from: nat)
    requires forall k :: i <= k < |buf| - 1 && buf[k] == 0x01 ==> buf[k + 1] != 0x02
    ensures Scan(s, buf, i, from) == Scanned(s, [], |buf| - from)
    decreases |buf| - i
  {
    if i < |buf| {
      NoHeaderNoReport(s, buf, i + 1, from);
    }
  }

  // ----- Replies of the gateway

  // A counter reply passes the length check, is consumed entirely, and means
  // the counter of port 1 that the gateway has stored.
  lemma CommReplyDecodes(s: State, row: Gateway.Counters, previous: nat)
    ensures var (s', reports) := OnCount(s, ToMixed(row[0]));
      && Mixed(ToMixed(row[0])) == row[0]
      && Scan(s, Gateway.CommReply(row), 0, previous) == Scanned(s', reports, 0)
  {
    var buf := Gateway.CommReply(row);
    MixedOfToMixed(row[0]);
    Gateway.FirstChannel(row, 8);
    var data := buf[9..41];
    assert data == Gateway.Channels(row, 8);
    assert HeaderAt(buf, 0) && LengthMatchesAt(buf, 0) && buf[7] == 4;
    var (s', reports) := OnCount(s, ToMixed(row[0]));
    assert reports + [] == reports;
  }

  lemma LevelsLow(io: seq<byte>, n: nat)
    requires |io| == 8 && 2 <= n <= 8
    ensures Gateway.Levels(io, n)[1] == (ByteBits(LsbFirst, io[0])[1] || ByteBits(LsbFirst, io[1])[0])
  {
    if n == 2 {
      assert Gateway.Levels(io, 1)[1] == (Gateway.Levels(io, 0)[1] || Gateway.ShiftLeft(io[0], 0)[1]);
    } else {
      LevelsLow(io, n - 1);
      assert !Gateway.ShiftLeft(io[n - 1], n - 1)[1];
    }
  }

  // An input reply is consumed entirely, and tells the lowest bit of io[1]
  // exactly if the second bit of io[0] is not set or that bit is set anyway.
  lemma IOReplyDecodes(s: State, io: seq<byte>, previous: nat)
    requires |io| == 8
    ensures var level := Bit1(Gateway.IOReply(io)[9]);
      && Scan(s, Gateway.IOReply(io), 0, previous) ==
         Scanned(s.(level := level), if s.level != level then [Level(level)] else [], 0)
      && (level == (io[1] % 2 == 1) <==> !Bit1(io[0]) || io[1] % 2 == 1)
  {
    var buf := Gateway.IOReply(io);
    LevelsLow(io, 8);
    assert ByteBits(LsbFirst, buf[9]) == Gateway.Levels(io, 8);
    assert ByteBits(LsbFirst, io[1])[0] == (io[1] as int % 2 == 1);
    assert HeaderAt(buf, 0) && LengthMatchesAt(buf, 0) && buf[7] == 2;
    assert buf[9..10] == [buf[9]];
    var level := Bit1(buf[9]);
    var reports := if s.level != level then [Level(level)] else [];
    assert reports + [] == reports;
  }

  // ----- Conservation

  // The client over a run of polls, each answered with a port-1 counter.
  function Polls(s: State, counters: seq<uint32>): (State, seq<Report>)
    decreases counters
  {
    if counters == [] then (s, [])
    else
      var (s', reports) := OnCount(s, ToMixed(counters[0]));
      var (s'', more) := Polls(s', counters[1..]);
      (s'', reports + more)
  }

  function Total(reports: seq<Report>): nat {
    if reports == [] then 0
    else (if reports[0].Quantity? then reports[0].qty else 0) + Total(reports[1..])
  }

  // What is neither reported nor part of the difference of two counters:
  // rises from zero are missed, falls are forgotten.
  function Missed(before: uint32, counters: seq<uint32>): nat
    decreases counters
  {
    if counters == [] then 0
    else (if before == 0 then counters[0] else 0) + Missed(counters[0], counters[1..])
  }

  function Fallen(before: uint32, counters: seq<uint32>): nat
    decreases counters
  {
    if counters == [] then 0
    else (if before > counters[0] then before - counters[0] else 0) + Fallen(counters[0], counters[1..])
  }

  function Last(before: uint32, counters: seq<uint32>): uint32 {
    if counters == [] then before else counters[|counters| - 1]
  }

  // Each report is positive and the state keeps in agreement; a report is
  // made exactly if the counter rose from a value other than zero.
  lemma {:induction false} OnCountReports(s: State, count: uint32)
    requires Agree(s)
    ensures var (s', reports) := OnCount(s, ToMixed(count));
      && Agree(s') && s'.quantity == count
      && (reports != [] <==> 0 < s.quantity < count)
      && (reports != [] ==> reports == [Quantity(count, count - s.quantity)])
  {
    MixedOfToMixed(count);
    if s.bytes != ToMixed(count) && s.quantity == count {
      MixedInjective(s.bytes, ToMixed(count));
    }
  }

  lemma {:induction false} TotalAppend(a: seq<Report>, b: seq<Report>)
    ensures Total(a + b) == Total(a) + Total(b)
  {
    if a == [] {
      assert a + b == b;
    } else {
      assert (a + b)[1..] == a[1..] + b;
      TotalAppend(a[1..], b);
    }
  }

  // The books balance for every run of counters.
  lemma {:induction false} Accounting(s: State, counters: seq<uint32>)
    requires Agree(s)
    ensures Agree(Polls(s, counters).0) && Polls(s, counters).0.quantity == Last(s.quantity, counters)
    ensures Total(Polls(s, counters).1) + Missed(s.quantity, counters)
         == Last(s.quantity, counters) - s.quantity + Fallen(s.quantity, counters)
    decreases counters
  {
    if counters != [] {
      var (s', reports) := OnCount(s, ToMixed(counters[0]));
      OnCountReports(s, counters[0]);
      Accounting(s', counters[1..]);
      TotalAppend(reports, Polls(s', counters[1..]).1);
    }
  }

  predicate NonDecreasing(before: uint32, counters: seq<uint32>)
    decreases counters
  {
    counters == [] || (before <= counters[0] && NonDecreasing(counters[0], counters[1..]))
  }

  lemma {:induction false} RisingRun(before: uint32, counters: seq<uint32>)
    requires NonDecreasing(before, counters)
    ensures Fallen(before, counters) == 0 && before <= Last(before, counters)
    ensures Missed(before, counters) == if before == 0 then FirstRise(counters) else 0
    decreases counters
  {
    if counters != [] {
      RisingRun(counters[0], counters[1..]);
    }
  }

  // The first counter that is not zero.
  function FirstRise(counters: seq<uint32>): uint32 {
    if counters == [] then 0 else if counters[0] != 0 then counters[0] else FirstRise(counters[1..])
  }

  // A client that starts with the run: the quantities it reports for a run of
  // counters that never falls add up to last minus first if and only if the
  // first is not zero or none is.
  lemma {:induction false} Conservation(counters: seq<uint32>)
    requires counters != [] && NonDecreasing(counters[0], counters[1..])
    ensures Total(Polls(START, counters).1) == Last(0, counters) - counters[0]
       <==> counters[0] != 0 || Last(0, counters) == 0
  {
    var first := counters[0];
    Accounting(START, counters);
    RisingRun(first, counters[1..]);
    assert Last(0, counters) == Last(first, counters[1..]);
    FirstRiseZero(first, counters[1..]);
  }

  lemma {:induction false} FirstRiseZero(before: uint32, counters: seq<uint32>)
    requires NonDecreasing(before, counters)
    ensures before == 0 ==> (FirstRise(counters) == 0 <==> Last(before, counters) == 0)
    decreases counters
  {
    if counters != [] {
      RisingRun(counters[0], counters[1..]);
      FirstRiseZero(counters[0], counters[1..]);
    }
  }

  // ----- End to end

  // Events at the gateway, and the two requests that the client makes in turn,
  // in any order.
  datatype Step = Event(event: Gateway.Event, io: Levels) | PollCounters | PollInputs

  type Levels = io: seq<byte> | |io| == Gateway.PORTS witness seq(Gateway.PORTS, _ => 0)

  // The reply to each request, the gateway holding row, past and io before.
  function Replies(row: Gateway.Counters, past: Gateway.Counters, io: Levels, steps: seq<Step>): seq<seq<byte>>
    decreases steps
  {
    if steps == [] then []
    else match steps[0]
      case PollCounters => [Gateway.CommReply(row)] + Replies(row, past, io, steps[1..])
      case PollInputs => [Gateway.IOReply(io)] + Replies(row, past, io, steps[1..])
      case Event(e, io') => Replies(Gateway.RowAfter(row, past, [e]), e.counters, io', steps[1..])
  }

  // The client over buffers of one reply each.
  function Served(s: State, replies: seq<seq<byte>>): (State, seq<Report>)
    decreases replies
  {
    if replies == [] then (s, [])
    else
      var now := Scan(s, replies[0], 0, 0);
      var (s', more) := Served(now.state, replies[1..]);
      (s', now.reports + more)
  }

  function IfQuantity(report: Report): seq<Report> { if report.Quantity? then [report] else [] }

  function Quantities(reports: seq<Report>): seq<Report> {
    if reports == [] then [] else IfQuantity(reports[0]) + Quantities(reports[1..])
  }

  lemma {:induction false} QuantitiesAppend(a: seq<Report>, b: seq<Report>)
    ensures Quantities(a + b) == Quantities(a) + Quantities(b)
  {
    hide IfQuantity;
    if a == [] {
      assert a + b == b;
    } else {
      QuantitiesAppend(a[1..], b);
      assert (a + b)[1..] == a[1..] + b;
      Associative(IfQuantity(a[0]), Quantities(a[1..]), Quantities(b));
    }
  }

  lemma {:induction false} TotalOfQuantities(reports: seq<Report>)
    ensures Total(Quantities(reports)) == Total(reports)
  {
    if reports != [] {
      TotalOfQuantities(reports[1..]);
      TotalAppend(IfQuantity(reports[0]), Quantities(reports[1..]));
    }
  }

  function Port1(rows: seq<Gateway.Counters>): seq<uint32> {
    if rows == [] then [] else [rows[0][0]] + Port1(rows[1..])
  }

  // The rows that the requests for counters are answered with.
  function Polled(row: Gateway.Counters, past: Gateway.Counters, steps: seq<Step>): seq<Gateway.Counters>
    decreases steps
  {
    if steps == [] then []
    else match steps[0]
      case PollCounters => [row] + Polled(row, past, steps[1..])
      case PollInputs => Polled(row, past, steps[1..])
      case Event(e, _) => Polled(Gateway.RowAfter(row, past, [e]), e.counters, steps[1..])
  }

  // Encoded, sent, parsed and decoded, the counters are what they were, and
  // the inputs asked for in between change no quantity.
  lemma {:induction false} ServedArePolls(s: State, row: Gateway.Counters, past: Gateway.Counters, io: Levels,
                                          steps: seq<Step>)
    requires Agree(s)
    ensures Quantities(Served(s, Replies(row, past, io, steps)).1)
         == Polls(s.(level := false), Port1(Polled(row, past, steps))).1
    decreases steps
  {
    if steps != [] {
      hide Scan, OnCount, Mixed, ToMixed;
      match steps[0]
      case PollCounters =>
        CountersServed(s, row, Replies(row, past, io, steps[1..]));
        var (s', reports) := OnCount(s, ToMixed(row[0]));
        OnCountReports(s, row[0]);
        ServedArePolls(s', row, past, io, steps[1..]);
        PollOne(s, row, Polled(row, past, steps[1..]));
      case PollInputs =>
        InputsServed(s, io, Replies(row, past, io, steps[1..]));
        ServedArePolls(s.(level := Bit1(Gateway.IOReply(io)[9])), row, past, io, steps[1..]);
      case Event(e, io') =>
        ServedArePolls(s, Gateway.RowAfter(row, past, [e]), e.counters, io', steps[1..]);
    }
  }

  lemma CountersServed(s: State, row: Gateway.Counters, replies: seq<seq<byte>>)
    requires Agree(s)
    ensures var (s', reports) := OnCount(s, ToMixed(row[0]));
      Quantities(Served(s, [Gateway.CommReply(row)] + replies).1) == reports + Quantities(Served(s', replies).1)
  {
    hide Scan, OnCount, Mixed, ToMixed;
    CommReplyDecodes(s, row, 0);
    OnCountReports(s, row[0]);
    var (s', reports) := OnCount(s, ToMixed(row[0]));
    assert ([Gateway.CommReply(row)] + replies)[1..] == replies;
    QuantitiesAppend(reports, Served(s', replies).1);
    assert Quantities(reports) == reports;
  }

  lemma InputsServed(s: State, io: Levels, replies: seq<seq<byte>>)
    ensures var s' := s.(level := Bit1(Gateway.IOReply(io)[9]));
      Quantities(Served(s, [Gateway.IOReply(io)] + replies).1) == Quantities(Served(s', replies).1)
  {
    hide Scan, Bit1;
    IOReplyDecodes(s, io, 0);
    var now := Scan(s, Gateway.IOReply(io), 0, 0);
    assert ([Gateway.IOReply(io)] + replies)[1..] == replies;
    QuantitiesAppend(now.reports, Served(now.state, replies).1);
    assert Quantities(now.reports) == [];
  }

  lemma PollOne(s: State, row: Gateway.Counters, rows: seq<Gateway.Counters>)
    requires Agree(s)
    ensures var (s', reports) := OnCount(s, ToMixed(row[0]));
      Polls(s.(level := false), Port1([row] + rows)).1 == reports + Polls(s'.(level := false), Port1(rows)).1
  {
    assert ([row] + rows)[1..] == rows;
    assert Port1([row] + rows)[1..] == Port1(rows);
  }

  // The counters of the latest event before each request for counters.
  function Current(past: Gateway.Counters, steps: seq<Step>): seq<Gateway.Counters>
    decreases steps
  {
    if steps == [] then []
    else match steps[0]
      case PollCounters => [past] + Current(past, steps[1..])
      case PollInputs => Current(past, steps[1..])
      case Event(e, _) => Current(e.counters, steps[1..])
  }

  // No update that was due failed to begin.
  predicate NoneLost(past: Gateway.Counters, steps: seq<Step>)
    decreases steps
  {
    steps == [] ||
    match steps[0]
    case Event(e, _) => (e.counters != past ==> e.begins) && NoneLost(e.counters, steps[1..])
    case _ => NoneLost(past, steps[1..])
  }

  lemma {:induction false} PolledIsCurrent(past: Gateway.Counters, steps: seq<Step>)
    requires NoneLost(past, steps)
    ensures Polled(past, past, steps) == Current(past, steps)
    decreases steps
  {
    if steps != [] {
      match steps[0]
      case Event(e, _) =>
        assert Gateway.RowAfter(past, past, [e]) == e.counters by { assert [e][1..] == []; }
        PolledIsCurrent(e.counters, steps[1..]);
      case _ => PolledIsCurrent(past, steps[1..]);
    }
  }

  // End to end, for every interleaving of events and requests in which no due
  // update is lost and port 1, as of the requests, never falls: the quantities
  // reported add up to what was counted between the first request for counters
  // and the last, if and only if the first count is not zero or none is.
  lemma {:induction false} EndToEndConservation(past: Gateway.Counters, io: Levels, steps: seq<Step>)
    requires NoneLost(past, steps) && Current(past, steps) != []
    requires NonDecreasing(Current(past, steps)[0][0], Port1(Current(past, steps))[1..])
    ensures var current := Current(past, steps);
      var first, last := current[0][0], current[|current| - 1][0];
      var reported := Total(Served(START, Replies(past, past, io, steps)).1);
      first as int + reported == last as int <==> first != 0 || last == 0
  {
    hide Served, Replies, Polls;
    var current := Current(past, steps);
    PolledIsCurrent(past, steps);
    ServedArePolls(START, past, past, io, steps);
    TotalOfQuantities(Served(START, Replies(past, past, io, steps)).1);
    LastOfPort1(current);
    Conservation(Port1(current));
  }

  lemma {:induction false} LastOfPort1(rows: seq<Gateway.Counters>)
    requires rows != []
    ensures |Port1(rows)| == |rows| && Last(0, Port1(rows)) == rows[|rows| - 1][0]
  {
    if |rows| > 1 {
      LastOfPort1(rows[1..]);
      assert Port1(rows)[1..] == Port1(rows[1..]);
    } else {
      assert rows[1..] == [];
    }
  }
}
