// src/sf.c: the list of clients, edited through a pointer to a link while it
// is traversed.

module ClientList {
  import opened Bits
  import opened Sequences

  class Client {
    var next: Client?
    const fd: int

    constructor (fd: int, next: Client?)
      ensures this.fd == fd && this.next == next
    {
      this.fd, this.next := fd, next;
    }
  }

  function Fds(list: seq<Client>): seq<int> {
    if list == [] then [] else Fds(list[..|list| - 1]) + [list[|list| - 1].fd]
  }

  // The clients whose descriptor is not bad, in order.
  function Kept(list: seq<Client>, bad: set<int>): (k: seq<Client>)
    ensures |k| <= |list|
    ensures forall c :: c in k ==> c in list
  {
    if list == [] then []
    else Kept(list[..|list| - 1], bad) + if list[|list| - 1].fd in bad then [] else [list[|list| - 1]]
  }

  // Their descriptors, and those of the others.
  function Select(fds: seq<int>, s: set<int>): seq<int> {
    if fds == [] then []
    else Select(fds[..|fds| - 1], s) + if fds[|fds| - 1] in s then [fds[|fds| - 1]] else []
  }

  lemma {:induction false} FdsLength(list: seq<Client>)
    ensures |Fds(list)| == |list|
    ensures forall i :: 0 <= i < |list| ==> Fds(list)[i] == list[i].fd
  {
    if list != [] {
      FdsLength(list[..|list| - 1]);
    }
  }

  // Of distinct clients, exactly those that are not bad stay, in order.
  lemma {:induction false} KeptIsExact(list: seq<Client>, bad: set<int>, c: Client)
    ensures c in Kept(list, bad) <==> c in list && c.fd !in bad
  {
    if list != [] {
      KeptIsExact(list[..|list| - 1], bad, c);
      assert list == list[..|list| - 1] + [list[|list| - 1]];
    }
  }

  // One client after the other, each by itself: this leaves no choice in the
  // clients kept, the descriptors selected or the packets.
  lemma KeptMore(a: seq<Client>, c: Client, bad: set<int>)
    ensures Kept(a + [c], bad) == Kept(a, bad) + (if c.fd in bad then [] else [c])
    ensures Kept([c], bad) == if c.fd in bad then [] else [c]
  {
    assert (a + [c])[..|a|] == a && [c][..0] == [];
    assert Kept([], bad) + (if c.fd in bad then [] else [c]) == if c.fd in bad then [] else [c];
  }

  lemma {:induction false} KeptAppend(a: seq<Client>, b: seq<Client>, bad: set<int>)
    ensures Kept(a + b, bad) == Kept(a, bad) + Kept(b, bad)
    ensures forall c: Client :: Kept([c], bad) == if c.fd in bad then [] else [c]
  {
    hide Kept;
    forall c: Client ensures Kept([c], bad) == if c.fd in bad then [] else [c] {
      KeptMore([], c, bad);
    }
    if b == [] {
      KeptNone(bad);
      assert a + b == a && Kept(a, bad) + [] == Kept(a, bad);
    } else {
      var init, last := b[..|b| - 1], b[|b| - 1];
      KeptAppend(a, init, bad);
      KeptMore(a + init, last, bad);
      KeptMore(init, last, bad);
      assert a + b == (a + init) + [last] && b == init + [last];
      Associative(Kept(a, bad), Kept(init, bad), Kept([last], bad));
    }
  }

  lemma KeptNone(bad: set<int>)
    ensures Kept([], bad) == []
  {}

  lemma SelectMore(a: seq<int>, fd: int, s: set<int>)
    ensures Select(a + [fd], s) == Select(a, s) + (if fd in s then [fd] else [])
    ensures Select([fd], s) == if fd in s then [fd] else []
  {
    assert (a + [fd])[..|a|] == a && [fd][..0] == [];
    assert Select([], s) + (if fd in s then [fd] else []) == if fd in s then [fd] else [];
  }

  lemma {:induction false} SelectAppend(a: seq<int>, b: seq<int>, s: set<int>)
    ensures Select(a + b, s) == Select(a, s) + Select(b, s)
    ensures forall fd: int :: Select([fd], s) == if fd in s then [fd] else []
  {
    hide Select;
    forall fd: int ensures Select([fd], s) == if fd in s then [fd] else [] {
      SelectMore([], fd, s);
    }
    if b == [] {
      SelectNone(s);
      assert a + b == a && Select(a, s) + [] == Select(a, s);
    } else {
      var init, last := b[..|b| - 1], b[|b| - 1];
      SelectAppend(a, init, s);
      SelectMore(a + init, last, s);
      SelectMore(init, last, s);
      assert a + b == (a + init) + [last] && b == init + [last];
      Associative(Select(a, s), Select(init, s), Select([last], s));
    }
  }

  lemma SelectNone(s: set<int>)
    ensures Select([], s) == []
  {}

  lemma PacketsMore(a: seq<int>, fd: int, packets: map<int, seq<byte>>)
    ensures Packets(a + [fd], packets) == Packets(a, packets) + (if fd in packets then [packets[fd]] else [])
    ensures Packets([fd], packets) == if fd in packets then [packets[fd]] else []
  {
    assert (a + [fd])[..|a|] == a && [fd][..0] == [];
    var one := if fd in packets then [packets[fd]] else [];
    assert Packets([], packets) + one == one;
  }

  lemma {:induction false} PacketsAppend(a: seq<int>, b: seq<int>, packets: map<int, seq<byte>>)
    ensures Packets(a + b, packets) == Packets(a, packets) + Packets(b, packets)
    ensures forall fd: int :: Packets([fd], packets) == if fd in packets then [packets[fd]] else []
  {
    hide Packets;
    forall fd: int ensures Packets([fd], packets) == if fd in packets then [packets[fd]] else [] {
      PacketsMore([], fd, packets);
    }
    if b == [] {
      PacketsNone(packets);
      assert a + b == a && Packets(a, packets) + [] == Packets(a, packets);
    } else {
      var init, last := b[..|b| - 1], b[|b| - 1];
      PacketsAppend(a, init, packets);
      PacketsMore(a + init, last, packets);
      PacketsMore(init, last, packets);
      assert a + b == (a + init) + [last] && b == init + [last];
      Associative(Packets(a, packets), Packets(init, packets), Packets([last], packets));
    }
  }

  lemma PacketsNone(packets: map<int, seq<byte>>)
    ensures Packets([], packets) == []
  {}

  // The descriptors split into those that stay and those that are closed.
  lemma {:induction false} NothingLost(list: seq<Client>, bad: set<int>)
    ensures multiset(Fds(list)) == multiset(Fds(Kept(list, bad))) + multiset(Select(Fds(list), bad))
  {
    if list != [] {
      hide Fds, Select, Kept;
      var k := |list| - 1;
      assert list[..k + 1] == list;
      KeptNext(list, bad, k);
      NothingLost(list[..k], bad);
      if list[k].fd in bad {
        assert Kept(list, bad) == Kept(list[..k], bad);
      } else {
        FdsOfMore(Kept(list[..k], bad), list[k]);
      }
    } else {
      Nothing(bad);
    }
  }

  lemma FdsOfMore(list: seq<Client>, c: Client)
    ensures Fds(list + [c]) == Fds(list) + [c.fd]
  {
    assert (list + [c])[..|list|] == list;
  }

  lemma KeptNext(list: seq<Client>, bad: set<int>, k: nat)
    requires k < |list|
    ensures Kept(list[..k + 1], bad) == Kept(list[..k], bad) + if list[k].fd in bad then [] else [list[k]]
    ensures Fds(list[..k + 1]) == Fds(list[..k]) + [list[k].fd]
    ensures Select(Fds(list[..k + 1]), bad)
         == Select(Fds(list[..k]), bad) + if list[k].fd in bad then [list[k].fd] else []
  {
    assert list[..k + 1][..k] == list[..k];
    SelectMore(Fds(list[..k]), list[k].fd, bad);
  }

  lemma NothingMore<T>(a: seq<T>)
    ensures a + [] == a
  {}

  // The packets of the descriptors that have one.
  function Packets(fds: seq<int>, packets: map<int, seq<byte>>): seq<seq<byte>> {
    if fds == [] then []
    else Packets(fds[..|fds| - 1], packets)
         + if fds[|fds| - 1] in packets then [packets[fds[|fds| - 1]]] else []
  }

  lemma PacketsNext(fds: seq<int>, fd: int, ready: set<int>, packets: map<int, seq<byte>>)
    ensures Packets(fds + if fd in ready then [fd] else [], packets)
         == Packets(fds, packets) + if fd in ready && fd in packets then [packets[fd]] else []
  {
    if fd in ready {
      assert (fds + [fd])[..|fds|] == fds;
    } else {
      assert fds + [] == fds;
    }
  }

  lemma Nothing(bad: set<int>)
    ensures Fds([]) == [] && Kept([], bad) == [] && Select([], bad) == []
  {}

  // Of the clients in start the first k have been dealt with, and the first i
  // of list are what stays of them; now the next one stays or goes.
  lemma OneDealtWith(start: seq<Client>, list: seq<Client>, i: nat, k: nat, stays: bool, after: seq<Client>)
    requires i < |list| && k < |start| && list[i..] == start[k..]
    requires after == if stays then list else list[..i] + list[i + 1..]
    ensures stays ==> after[..i + 1] == list[..i] + [start[k]] && after[i + 1..] == start[k + 1..]
    ensures !stays ==> after[..i] == list[..i] + [] && after[i..] == start[k + 1..]
  {
    assert list[i..][1..] == list[i + 1..] && start[k..][1..] == start[k + 1..];
    assert list[i] == list[i..][0] == start[k..][0] == start[k];
  }

  // The same for the clients kept and the descriptors.
  lemma Advance(start: seq<Client>, list: seq<Client>, i: nat, k: nat, bad: set<int>, stays: bool, after: seq<Client>)
    requires i < |list| && k < |start| && list[..i] == Kept(start[..k], bad) && list[i..] == start[k..]
    requires stays <==> start[k].fd !in bad
    requires after == if stays then list else list[..i] + list[i + 1..]
    ensures var i' := if stays then i + 1 else i;
      i' <= |after| && after[..i'] == Kept(start[..k + 1], bad) && after[i'..] == start[k + 1..]
    ensures Fds(start[..k + 1]) == Fds(start[..k]) + [start[k].fd]
  {
    hide Kept, Fds, Select;
    KeptNext(start, bad, k);
    OneDealtWith(start, list, i, k, stays, after);
  }

  class Server {
    var clients: Client?
    var numClients: int
    var closed: seq<int>      // descriptors closed, in order
    var tried: seq<int>       // descriptors read or written, in order
    var forwarded: seq<seq<byte>>  // packets passed to the serial line
    ghost var list: seq<Client>

    ghost predicate Valid()
      reads this, list
    {
      && numClients == |list|
      && (clients == if list == [] then null else list[0])
      && (forall i {:trigger list[i].next} :: 0 <= i < |list| ==>
            list[i].next == if i + 1 < |list| then list[i + 1] else null)
      && forall i, j :: 0 <= i < j < |list| ==> list[i] != list[j]
    }

    constructor ()
      ensures Valid() && list == [] && closed == [] && tried == [] && forwarded == []
    {
      clients, numClients, closed, tried, forwarded, list := null, 0, [], [], [], [];
    }

    method AddClient(fd: int)
      requires Valid()
      modifies this
      ensures Valid()
      ensures |list| == |old(list)| + 1 && fresh(list[0]) && list[0].fd == fd && list[1..] == old(list)
      ensures closed == old(closed) && tried == old(tried) && forwarded == old(forwarded)
    {
      var c := new Client(fd, clients);
      clients := c;
      numClients := numClients + 1;
      list := [c] + list;
    }

    // rem_client. The link that leads to the client is this.clients if prev
    // is null, and prev.next otherwise; the client is the i-th.
    method RemClient(prev: Client?, ghost i: nat)
      requires Valid() && i < |list|
      requires prev == if i == 0 then null else list[i - 1]
      modifies this, prev
      ensures Valid()
      ensures list == old(list)[..i] + old(list)[i + 1..]
      ensures closed == old(closed) + [old(list)[i].fd] && tried == old(tried) && forwarded == old(forwarded)
    {
      var dead := if prev == null then clients else prev.next;
      assert dead == list[i];
      if prev == null {
        clients := dead.next;
      } else {
        prev.next := dead.next;
      }
      numClients := numClients - 1;
      closed := closed + [dead.fd];
      list := list[..i] + list[i + 1..];
    }

    // What has been done since the fields were t, c and f, after the clients
    // with the descriptors fds.
    ghost predicate Since(t: seq<int>, c: seq<int>, f: seq<seq<byte>>, fds: seq<int>, ready: set<int>,
                          packets: map<int, seq<byte>>)
      reads this
    {
      && tried == t + Select(fds, ready)
      && closed == c + Select(fds, ready - packets.Keys)
      && forwarded == f + Packets(Select(fds, ready), packets)
    }

    lemma SinceNothing(ready: set<int>, packets: map<int, seq<byte>>)
      ensures Since(tried, closed, forwarded, [], ready, packets)
    {}

    lemma SinceMeans(t: seq<int>, c: seq<int>, f: seq<seq<byte>>, fds: seq<int>, ready: set<int>,
                     packets: map<int, seq<byte>>)
      requires Since(t, c, f, fds, ready, packets)
      ensures tried == t + Select(fds, ready) && closed == c + Select(fds, ready - packets.Keys)
      ensures forwarded == f + Packets(Select(fds, ready), packets)
    {}

    // One turn of the loop of check_clients; next is false if the client was
    // unlinked.
    method CheckOne(prev: Client?, ready: set<int>, packets: map<int, seq<byte>>, ghost i: nat,
                    ghost t: seq<int>, ghost c: seq<int>, ghost f: seq<seq<byte>>, ghost fds: seq<int>)
      returns (next: bool)
      requires Valid() && i < |list|
      requires prev == if i == 0 then null else list[i - 1]
      requires Since(t, c, f, fds, ready, packets)
      modifies this, prev
      ensures Valid() && Since(t, c, f, fds + [old(list)[i].fd], ready, packets)
      ensures next <==> old(list)[i].fd !in ready - packets.Keys
      ensures list == if next then old(list) else old(list)[..i] + old(list)[i + 1..]
    {
      hide Select, Packets;
      var client := if prev == null then clients else prev.next;
      assert client == list[i];
      ghost var bad := ready - packets.Keys;
      SelectMore(fds, client.fd, ready);
      SelectMore(fds, client.fd, bad);
      PacketsNext(Select(fds, ready), client.fd, ready, packets);
      Associative(t, Select(fds, ready), if client.fd in ready then [client.fd] else []);
      Associative(c, Select(fds, bad), if client.fd in bad then [client.fd] else []);
      Associative(f, Packets(Select(fds, ready), packets),
             if client.fd in ready && client.fd in packets then [packets[client.fd]] else []);
      NothingMore(c + Select(fds, bad));
      next := true;
      if client.fd in ready {
        tried := tried + [client.fd];
        if client.fd in packets {
          forwarded := forwarded + [packets[client.fd]];
        } else {
          RemClient(prev, i);
          next := false;
        }
      }
    }

    // check_clients: the clients whose descriptor is ready are read, once
    // each and in order; read_sf_packet gives the packet of the descriptor or
    // fails. Packets are forwarded, clients that fail are removed.
    method CheckClients(ready: set<int>, packets: map<int, seq<byte>>)
      requires Valid()
      modifies this, list
      ensures Valid()
      ensures list == Kept(old(list), ready - packets.Keys)
      ensures tried == old(tried) + Select(Fds(old(list)), ready)
      ensures closed == old(closed) + Select(Fds(old(list)), ready - packets.Keys)
      ensures forwarded == old(forwarded) + Packets(Select(Fds(old(list)), ready), packets)
    {
      hide Fds, Select, Kept, Packets, Since;
      ghost var start := list;
      ghost var bad := ready - packets.Keys;
      Nothing(bad);
      SinceNothing(ready, packets);
      var prev: Client? := null;
      ghost var i, k := 0, 0;
      assert start[..0] == [];
      while (if prev == null then clients else prev.next) != null
        invariant Valid()
        invariant 0 <= i <= |list| && 0 <= k <= |start|
        invariant prev == if i == 0 then null else list[i - 1]
        invariant list[..i] == Kept(start[..k], bad) && list[i..] == start[k..]
        invariant Since(old(tried), old(closed), old(forwarded), Fds(start[..k]), ready, packets)
        invariant prev != null ==> prev in start
        decreases |start| - k
      {
        var c := if prev == null then clients else prev.next;
        assert i < |list| && c == list[i] == start[k];
        ghost var before := list;
        var next := CheckOne(prev, ready, packets, i, old(tried), old(closed), old(forwarded), Fds(start[..k]));
        Advance(start, before, i, k, bad, next, list);
        if next {
          prev := c;
          i := i + 1;
        }
        k := k + 1;
      }
      assert start[..k] == start;
      SinceMeans(old(tried), old(closed), old(forwarded), Fds(start), ready, packets);
    }

    ghost predicate Written(t: seq<int>, c: seq<int>, fds: seq<int>, bad: set<int>)
      reads this
    {
      tried == t + fds && closed == c + Select(fds, bad)
    }

    lemma WrittenNothing(bad: set<int>)
      ensures Written(tried, closed, [], bad)
    {}

    lemma WrittenMeans(t: seq<int>, c: seq<int>, fds: seq<int>, bad: set<int>)
      requires Written(t, c, fds, bad)
      ensures tried == t + fds && closed == c + Select(fds, bad)
    {}

    // One turn of the loop of dispatch_packet; next is false if the client
    // was unlinked.
    method WriteOne(prev: Client?, bad: set<int>, ghost i: nat, ghost t: seq<int>, ghost c: seq<int>,
                    ghost fds: seq<int>)
      returns (next: bool)
      requires Valid() && i < |list|
      requires prev == if i == 0 then null else list[i - 1]
      requires Written(t, c, fds, bad)
      modifies this, prev
      ensures Valid() && Written(t, c, fds + [old(list)[i].fd], bad)
      ensures forwarded == old(forwarded)
      ensures next <==> old(list)[i].fd !in bad
      ensures list == if next then old(list) else old(list)[..i] + old(list)[i + 1..]
    {
      hide Select;
      var client := if prev == null then clients else prev.next;
      assert client == list[i];
      SelectMore(fds, client.fd, bad);
      Associative(c, Select(fds, bad), [client.fd]);
      Associative(t, fds, [client.fd]);
      NothingMore(Select(fds, bad));
      tried := tried + [client.fd];
      next := client.fd !in bad;
      if !next {
        RemClient(prev, i);
      }
    }

    // dispatch_packet: every client is written to, once and in order, and
    // those whose write fails are removed.
    method DispatchPacket(bad: set<int>)
      requires Valid()
      modifies this, list
      ensures Valid()
      ensures list == Kept(old(list), bad)
      ensures tried == old(tried) + Fds(old(list))
      ensures closed == old(closed) + Select(Fds(old(list)), bad)
      ensures forwarded == old(forwarded)
    {
      hide Fds, Select, Kept, Written;
      ghost var start := list;
      Nothing(bad);
      WrittenNothing(bad);
      var prev: Client? := null;
      ghost var i, k := 0, 0;
      assert start[..0] == [];
      while (if prev == null then clients else prev.next) != null
        invariant Valid()
        invariant 0 <= i <= |list| && 0 <= k <= |start|
        invariant prev == if i == 0 then null else list[i - 1]
        invariant list[..i] == Kept(start[..k], bad) && list[i..] == start[k..]
        invariant Written(old(tried), old(closed), Fds(start[..k]), bad)
        invariant forwarded == old(forwarded)
        invariant prev != null ==> prev in start
        decreases |start| - k
      {
        var c := if prev == null then clients else prev.next;
        assert i < |list| && c == list[i] == start[k];
        ghost var before := list;
        var next := WriteOne(prev, bad, i, old(tried), old(closed), Fds(start[..k]));
        Advance(start, before, i, k, bad, next, list);
        if next {
          prev := c;
          i := i + 1;
        }
        k := k + 1;
      }
      assert start[..k] == start;
      WrittenMeans(old(tried), old(closed), Fds(start), bad);
    }
  }
}
