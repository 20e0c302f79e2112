// Sequences of any elements.

module Sequences {
  function Flat<T>(parts: seq<seq<T>>): seq<T> {
    if parts == [] then [] else parts[0] + Flat(parts[1..])
  }

  lemma {:induction false} FlatAppend<T>(p: seq<seq<T>>, q: seq<seq<T>>)
    ensures Flat(p + q) == Flat(p) + Flat(q)
  {
    if p == [] {
      assert p + q == q;
    } else {
      FlatAppend(p[1..], q);
      assert (p + q)[1..] == p[1..] + q;
      Associative(p[0], Flat(p[1..]), Flat(q));
    }
  }

  lemma Associative<T>(a: seq<T>, b: seq<T>, c: seq<T>)
    ensures (a + b) + c == a + (b + c)
  {}

  lemma CancelPrefix<T>(a: seq<T>, b: seq<T>, c: seq<T>)
    requires a + b == a + c
    ensures b == c
  {
    assert b == (a + b)[|a|..] && c == (a + c)[|a|..];
  }

  // ----- Splitting at a delimiter

  // How many elements precede the first d.
  function TokenLength<T(==)>(s: seq<T>, d: T): (n: nat)
    ensures n <= |s| && d !in s[..n]
    ensures n < |s| ==> s[n] == d
  {
    if s == [] || s[0] == d then 0
    else
      var n := 1 + TokenLength(s[1..], d);
      assert s[..n] == [s[0]] + s[1..][..n - 1];
      n
  }

  lemma {:induction false} LengthIs<T>(s: seq<T>, d: T, n: nat)
    requires n <= |s| && d !in s[..n] && (n < |s| ==> s[n] == d)
    ensures TokenLength(s, d) == n
  {
    assert n > 0 ==> s[..n][0] == s[0];
    if n > 0 {
      assert s[1..][..n - 1] == s[..n][1..];
      LengthIs(s[1..], d, n - 1);
    }
  }

  // The parts of s between delimiters, empty or not.
  function Columns<T(==)>(s: seq<T>, d: T): seq<seq<T>>
    decreases |s|
  {
    var n := TokenLength(s, d);
    if n == |s| then [s] else [s[..n]] + Columns(s[n + 1..], d)
  }

  function Joined<T(==)>(cs: seq<seq<T>>, d: T): seq<T>
    requires cs != []
  {
    if |cs| == 1 then cs[0] else cs[0] + [d] + Joined(cs[1..], d)
  }

  lemma {:induction false} ColumnsOfJoined<T>(cs: seq<seq<T>>, d: T)
    requires cs != [] && forall i :: 0 <= i < |cs| ==> d !in cs[i]
    ensures Columns(Joined(cs, d), d) == cs
  {
    var s := Joined(cs, d);
    assert s[..|cs[0]|] == cs[0];
    LengthIs(s, d, |cs[0]|);
    if |cs| > 1 {
      ColumnsOfJoined(cs[1..], d);
      assert s[|cs[0]| + 1..] == Joined(cs[1..], d);
    }
  }

  lemma {:induction false} JoinedColumns<T>(s: seq<T>, d: T)
    ensures Columns(s, d) != [] && Joined(Columns(s, d), d) == s
    ensures forall i :: 0 <= i < |Columns(s, d)| ==> d !in Columns(s, d)[i]
    decreases |s|
  {
    var n := TokenLength(s, d);
    if n == |s| {
      assert s[..n] == s;
    } else {
      var first, more := s[..n], Columns(s[n + 1..], d);
      JoinedColumns(s[n + 1..], d);
      assert Columns(s, d) == [first] + more;
      assert s == first + [d] + s[n + 1..];
      JoinedFirst(first, more, d);
    }
  }

  lemma JoinedFirst<T>(c: seq<T>, more: seq<seq<T>>, d: T)
    requires more != []
    ensures Joined([c] + more, d) == c + [d] + Joined(more, d)
  {
    assert ([c] + more)[1..] == more;
  }
}
