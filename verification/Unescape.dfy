// src/serialtonet.c: unescaping in place, by shifting the rest of the buffer
// for every escape byte.

module Unescape {
  import opened Bits
  import opened Framing

  const WINDOW := 100
  const SIZE := 128

  // One escape at position i: the byte after it is flipped, and everything
  // up to the end of the window moves down one place.
  function Shifted(s: seq<byte>, i: nat): (t: seq<byte>)
    requires |s| == SIZE && i < WINDOW
    ensures |t| == SIZE && t[..i] == s[..i]
  {
    var f := s[i + 1 := Flip(s[i + 1])];
    seq(SIZE, j requires 0 <= j < SIZE => if i <= j < WINDOW - 1 then f[j + 1] else f[j])
  }

  // The loop from position i on, with cnt escapes found so far.
  function Loop(s: seq<byte>, i: nat, cnt: nat): (seq<byte>, nat)
    requires |s| == SIZE && i <= WINDOW
    decreases WINDOW - i
  {
    if i == WINDOW then (s, cnt)
    else if s[i] == ESCAPE_BYTE then Loop(Shifted(s, i), i + 1, cnt + 1)
    else Loop(s, i + 1, cnt)
  }

  method UnescapeInPlace(pack: array<byte>) returns (escapeCnt: nat)
    requires pack.Length == SIZE
    modifies pack
    ensures (pack[..], escapeCnt) == Loop(old(pack[..]), 0, 0)
  {
    hide Loop, Shifted;
    escapeCnt := 0;
    var i := 0;
    while i < WINDOW
      invariant 0 <= i <= WINDOW
      invariant Loop(pack[..], i, escapeCnt) == Loop(old(pack[..]), 0, 0)
    {
      LoopOnce(pack[..], i, escapeCnt);
      if pack[i] == ESCAPE_BYTE {
        ShiftDown(pack, i);
        escapeCnt := escapeCnt + 1;
      }
      i := i + 1;
    }
    LoopEnds(pack[..], escapeCnt);
  }

  method ShiftDown(pack: array<byte>, i: nat)
    requires pack.Length == SIZE && i < WINDOW
    modifies pack
    ensures pack[..] == Shifted(old(pack[..]), i)
  {
    pack[i + 1] := Flip(pack[i + 1]);
    forall k | i <= k < WINDOW - 1 {
      pack[k] := pack[k + 1];
    }
  }

  lemma LoopOnce(s: seq<byte>, i: nat, cnt: nat)
    requires |s| == SIZE && i < WINDOW
    ensures Loop(s, i, cnt) == if s[i] == ESCAPE_BYTE then Loop(Shifted(s, i), i + 1, cnt + 1) else Loop(s, i + 1, cnt)
  {}

  lemma LoopEnds(s: seq<byte>, cnt: nat)
    requires |s| == SIZE
    ensures Loop(s, WINDOW, cnt) == (s, cnt)
  {}

  // Every escape byte is followed by another byte.
  predicate Complete(p: seq<byte>) {
    p == [] || (if p[0] != ESCAPE_BYTE then Complete(p[1..]) else |p| > 1 && Complete(p[2..]))
  }

  function Escapes(p: seq<byte>): nat {
    if p == [] then 0
    else if p[0] != ESCAPE_BYTE then Escapes(p[1..])
    else 1 + if |p| > 1 then Escapes(p[2..]) else 0
  }

  lemma {:induction false} UnstuffLength(p: seq<byte>)
    requires Complete(p)
    ensures |Unstuff(p)| == |p| - Escapes(p)
  {
    if p != [] {
      UnstuffLength(if p[0] != ESCAPE_BYTE then p[1..] else p[2..]);
    }
  }

  // What lies behind position i is untouched, and more escapes are counted
  // exactly if there is an escape byte ahead.
  lemma {:induction false} Ahead(s: seq<byte>, i: nat, cnt: nat)
    requires |s| == SIZE && i <= WINDOW
    ensures var r := Loop(s, i, cnt);
      && |r.0| == SIZE && r.0[..i] == s[..i] && r.1 >= cnt
      && (r.1 == cnt <==> ESCAPE_BYTE !in s[i..WINDOW])
    decreases WINDOW - i
  {
    if i < WINDOW {
      assert s[i..WINDOW] == [s[i]] + s[i + 1..WINDOW];
      if s[i] == ESCAPE_BYTE {
        var t := Shifted(s, i);
        Ahead(t, i + 1, cnt + 1);
        var r := Loop(t, i + 1, cnt + 1);
        assert r.0[..i] == r.0[..i + 1][..i] == t[..i + 1][..i] == t[..i];
      } else {
        Ahead(s, i + 1, cnt);
        var r := Loop(s, i + 1, cnt);
        assert r.0[..i] == r.0[..i + 1][..i] == s[..i];
      }
    }
  }

  lemma ShiftedParts(s: seq<byte>, i: nat, e: nat)
    requires |s| == SIZE && i + 2 <= e < WINDOW
    ensures var t := Shifted(s, i);
      && t[i] == Flip(s[i + 1])
      && t[i + 1..e - 1] == s[i + 2..e]
      && (ESCAPE_BYTE in t[e - 1..WINDOW] <==> ESCAPE_BYTE in s[e..WINDOW])
  {
    var t := Shifted(s, i);
    forall j | i < j < WINDOW - 1 ensures t[j] == s[j + 1] {}
    assert t[WINDOW - 1] == s[WINDOW - 1];
    hide Shifted;
    SameBytes(s[e..WINDOW], t[e - 1..WINDOW]);
  }

  // v is u with its last byte repeated.
  lemma SameBytes(u: seq<byte>, v: seq<byte>)
    requires u != [] && |v| == |u| + 1
    requires forall j :: 0 <= j < |u| ==> v[j] == u[j]
    requires v[|u|] == u[|u| - 1]
    ensures ESCAPE_BYTE in v <==> ESCAPE_BYTE in u
  {
    assert v == u + [u[|u| - 1]];
  }

  // r is the outcome of the loop for a payload s[i..e].
  ghost predicate Decodes(r: (seq<byte>, nat), s: seq<byte>, i: nat, e: nat, cnt: nat)
    requires |s| == SIZE && i <= e < WINDOW
  {
    var p := s[i..e];
    && |r.0| == SIZE && r.0[..i] == s[..i]
    && i + |Unstuff(p)| <= WINDOW && r.0[i..i + |Unstuff(p)|] == Unstuff(p)
    && (r.1 == cnt + Escapes(p) <==> ESCAPE_BYTE !in s[e..WINDOW])
  }

  lemma {:induction false} LoopDecodes(s: seq<byte>, i: nat, e: nat, cnt: nat)
    requires |s| == SIZE && i <= e < WINDOW && Complete(s[i..e])
    ensures Decodes(Loop(s, i, cnt), s, i, e, cnt)
    decreases WINDOW - i
  {
    hide Decodes, Unstuff, Shifted;
    var p := s[i..e];
    if i == e {
      NoPayload(s, i, cnt);
    } else if s[i] == ESCAPE_BYTE {
      var t := Shifted(s, i);
      ShiftedParts(s, i, e);
      assert p[2..] == s[i + 2..e];
      LoopDecodes(t, i + 1, e - 1, cnt + 1);
      EscapedByte(Loop(s, i, cnt), s, i, e, cnt);
    } else {
      assert p[1..] == s[i + 1..e];
      LoopDecodes(s, i + 1, e, cnt);
      PlainByte(Loop(s, i, cnt), s, i, e, cnt);
    }
  }

  lemma NoPayload(s: seq<byte>, i: nat, cnt: nat)
    requires |s| == SIZE && i < WINDOW
    ensures Decodes(Loop(s, i, cnt), s, i, i, cnt)
  {
    Ahead(s, i, cnt);
  }

  lemma EscapedByte(r: (seq<byte>, nat), s: seq<byte>, i: nat, e: nat, cnt: nat)
    requires |s| == SIZE && i + 2 <= e < WINDOW && s[i] == ESCAPE_BYTE
    requires Decodes(r, Shifted(s, i), i + 1, e - 1, cnt + 1)
    ensures Decodes(r, s, i, e, cnt)
  {
    var t, p := Shifted(s, i), s[i..e];
    ShiftedParts(s, i, e);
    assert p[2..] == s[i + 2..e];
    Extend(r.0, t, i, Unstuff(p[2..]));
  }

  lemma PlainByte(r: (seq<byte>, nat), s: seq<byte>, i: nat, e: nat, cnt: nat)
    requires |s| == SIZE && i < e < WINDOW && s[i] != ESCAPE_BYTE
    requires Decodes(r, s, i + 1, e, cnt)
    ensures Decodes(r, s, i, e, cnt)
  {
    var p := s[i..e];
    assert p[1..] == s[i + 1..e];
    Extend(r.0, s, i, Unstuff(p[1..]));
  }

  lemma Extend(r: seq<byte>, s: seq<byte>, i: nat, u: seq<byte>)
    requires |r| == |s| == SIZE && i + 1 + |u| <= SIZE
    requires r[..i + 1] == s[..i + 1] && r[i + 1..i + 1 + |u|] == u
    ensures r[..i] == s[..i] && r[i..i + 1 + |u|] == [s[i]] + u
  {
    assert r[..i] == r[..i + 1][..i] && s[..i] == s[..i + 1][..i];
    assert r[i] == r[..i + 1][i] == s[i];
    assert r[i..i + 1 + |u|] == [r[i]] + r[i + 1..i + 1 + |u|];
  }

  // For a payload of n < 100 bytes without a dangling escape byte, the front
  // of the buffer ends up holding the unstuffed payload, whatever stale bytes
  // follow it; and the number of escapes found is that of the payload if and
  // only if the stale bytes in the window hold no escape byte.
  lemma PayloadIsUnstuffed(s: seq<byte>, n: nat)
    requires |s| == 128 && n < 100 && Complete(s[..n])
    ensures var (t, cnt) := Loop(s, 0, 0);
      && |t| == 128 && 0 <= n - Escapes(s[..n]) && t[..n - Escapes(s[..n])] == Unstuff(s[..n])
      && (cnt == Escapes(s[..n]) <==> 0x7d !in s[n..100])
  {
    assert s[0..n] == s[..n];
    LoopDecodes(s, 0, n, 0);
    UnstuffLength(s[..n]);
  }

  lemma {:induction false} StuffedIsComplete(m: seq<byte>, rest: seq<byte>)
    requires Complete(rest)
    ensures Complete(Stuff(m) + rest)
  {
    if m == [] {
      assert Stuff(m) + rest == rest;
    } else {
      var init, last := m[..|m| - 1], m[|m| - 1];
      var tail := StuffByte(last) + rest;
      assert Stuff(m) + rest == Stuff(init) + tail;
      assert tail[|StuffByte(last)|..] == rest;
      StuffedIsComplete(init, tail);
    }
  }

  // So it inverts the escaping of src/serialsource.c on anything short enough,
  // and counts the bytes removed if and only if the stale bytes in the window
  // hold no escape byte.
  lemma {:induction false} InPlaceInvertsStuffing(m: seq<byte>, stale: seq<byte>)
    requires |Stuff(m)| < 100 && |Stuff(m) + stale| == 128
    ensures var (t, cnt) := Loop(Stuff(m) + stale, 0, 0);
      && |m| <= |t| == 128 && t[..|m|] == m
      && (cnt == |Stuff(m)| - |m| <==> 0x7d !in stale[..100 - |Stuff(m)|])
  {
    hide Loop, Unstuff, Stuff, Complete, Escapes;
    var s, n := Stuff(m) + stale, |Stuff(m)|;
    assert s[..n] == Stuff(m) == Stuff(m) + [];
    assert s[n..WINDOW] == stale[..WINDOW - n];
    NothingStuffed();
    StuffedIsComplete(m, []);
    UnstuffStuffThen(m, []);
    assert m + [] == m;
    UnstuffLength(s[..n]);
    PayloadIsUnstuffed(s, n);
  }

  lemma NothingStuffed()
    ensures Complete([]) && Unstuff([]) == []
  {}
}
