/** The global `clients` vector and the operations on it: insertion at accept, erasure by
    socket, renaming through the shared record, `broadcast` (which erases in place every client
    it fails to reach) and the final clear at shutdown. Insertion, erasure, broadcast and the
    clear run under `clients_mutex`; the rename and `close_socket` take no lock. Each operation
    is one step here, and the steps of different handlers are not interleaved. */
module Relay {
  import opened Wire
  import opened Protocol
  import opened Peers

  /** One `send_message` call made by a broadcast: the socket, the line, and whether it succeeded. */
  datatype Attempt = Attempt(sock: Sock, line: Bytes, delivered: bool)

  /** The calls a broadcast of `line` makes over `cs` when the sends to the sockets in `broken`
      fail: one per entry, in registry order. */
  function Attempts(cs: seq<Client>, line: Bytes, broken: set<Sock>): (r: seq<Attempt>)
    ensures |r| == |cs|
    ensures forall i | 0 <= i < |cs| :: r[i].sock == cs[i].sock && r[i].line == line
    ensures forall i | 0 <= i < |cs| :: r[i].delivered == Reached(cs[i].sock, broken)
  {
    if cs == [] then []
    else
      [Attempt(cs[0].sock, line, Reached(cs[0].sock, broken))] + Attempts(cs[1..], line, broken)
  }

  /** Whether the send to `sock` succeeds when the sends to the sockets in `broken` fail. */
  function Reached(sock: Sock, broken: set<Sock>): bool
  {
    sock !in broken
  }

  /** The sockets of the calls that succeeded, in order. */
  function DeliveredTo(attempts: seq<Attempt>): seq<Sock>
  {
    if attempts == [] then []
    else (if attempts[0].delivered then [attempts[0].sock] else []) + DeliveredTo(attempts[1..])
  }

  /** What the registry operations have done so far: the vector itself, every socket they have
      closed, and every send a broadcast has made, each in order. */
  datatype State = State(clients: seq<Client>, closed: seq<Sock>, sent: seq<Attempt>)

  /** `broadcast(from, msg)` over `st` when the sends to the sockets in `broken` fail: every
      entry gets one try with the tagged line; the failed ones are closed and erased. */
  function Broadcasted(st: State, from: Bytes, msg: Bytes, broken: set<Sock>): (r: State)
    ensures |r.clients| + (|r.closed| - |st.closed|) == |st.clients|
    ensures st.closed <= r.closed && st.sent <= r.sent
    ensures |r.sent| == |st.sent| + |st.clients|
  {
    DropPartition(st.clients, broken);
    State(Drop(st.clients, broken),
          st.closed + SocksOf(Removed(st.clients, broken)),
          st.sent + Attempts(st.clients, Line(from, msg), broken))
  }

  /** A broadcast reaches the survivors exactly: the sockets it delivered to, in order, are the
      sockets of the entries it keeps, and the sockets it closed are those of the entries it
      erased. */
  lemma {:induction false} DeliveredAreKept(cs: seq<Client>, line: Bytes, broken: set<Sock>)
    ensures DeliveredTo(Attempts(cs, line, broken)) == SocksOf(Drop(cs, broken))
    decreases |cs|
  {
    if cs != [] {
      DeliveredAreKept(cs[1..], line, broken);
      var a := Attempts(cs, line, broken);
      assert a[1..] == Attempts(cs[1..], line, broken);
      var d := Drop(cs[1..], broken);
      if cs[0].sock in broken {
        assert Drop(cs, broken) == d;
      } else {
        assert Drop(cs, broken) == [cs[0]] + d;
        assert SocksOf([cs[0]] + d) == [cs[0].sock] + SocksOf(d) by {
          assert ([cs[0]] + d)[1..] == d;
        }
      }
    }
  }

  /** The clients in the vector and what has happened to the sockets. */
  class Registry {
    var clients: seq<Client>
    /** every `close_socket` call made by these operations, in order */
    var closed: seq<Sock>
    /** every `send_message` call made by a broadcast, in order */
    var sent: seq<Attempt>

    /** No two entries share a socket: each accepted connection has a socket no entry holds. */
    ghost predicate Valid()
      reads this
    {
      UniqueSocks(clients)
    }

    function View(): State
      reads this
    {
      State(clients, closed, sent)
    }

    /** The empty vector at program start. */
    constructor ()
      ensures Valid() && View() == State([], [], [])
    {
      clients, closed, sent := [], [], [];
    }

    /** Accepting a connection appends a record for its socket with an empty name. */
    method Accept(sock: Sock)
      requires Valid()
      requires forall i | 0 <= i < |clients| :: clients[i].sock != sock
      modifies this
      ensures Valid()
      ensures View() == old(View()).(clients := old(clients) + [Client(sock, [])])
    {
      clients := clients + [Client(sock, [])];
    }

    /** `clients.erase(remove_if(..., c->sock == sock), end)`: erase every entry with that
        socket and keep the rest in order; erasing an absent socket changes nothing. */
    method Remove(sock: Sock)
      requires Valid()
      modifies this
      ensures Valid()
      ensures View() == old(View()).(clients := Drop(old(clients), {sock}))
      ensures |old(clients)| - |clients| <= 1
    {
      DropUnique(clients, {sock});
      DropOneUnique(clients, sock);
      DropPartition(clients, {sock});
      clients := Drop(clients, {sock});
    }

    /** `client->name = name` on a record the vector shares: every entry with that socket now
        carries the name. */
    method Rename(sock: Sock, name: Bytes)
      requires Valid()
      modifies this
      ensures Valid()
      ensures View() == old(View()).(clients := Renamed(old(clients), sock, name))
    {
      RenamedUnique(clients, sock, name);
      clients := Renamed(clients, sock, name);
    }

    /** `close_socket(sock)`. */
    method CloseSocket(sock: Sock)
      requires Valid()
      modifies this
      ensures Valid()
      ensures View() == old(View()).(closed := old(closed) + [sock])
    {
      closed := closed + [sock];
    }

    /** `broadcast(from, msg)`, where the sends to the sockets in `broken` fail: every entry gets
        one try with the tagged line; exactly the failed ones are closed and erased. */
    method Broadcast(from: Bytes, msg: Bytes, broken: set<Sock>)
      requires Valid()
      modifies this
      ensures Valid()
      ensures View() == Broadcasted(old(View()), from, msg, broken)
    {
      Sweep(Line(from, msg), broken);
      BroadcastFromFilters(old(View()), 0, Line(from, msg), broken);
      assert old(clients)[..0] == [] && old(clients)[0..] == old(clients);
      DropUnique(old(clients), broken);
    }

    /** The loop of `broadcast`: walks the vector once, sends `line` to each entry, and on
        failure closes that socket and erases the entry in place without advancing. */
    method Sweep(line: Bytes, broken: set<Sock>)
      modifies this
      ensures View() == BroadcastFrom(old(View()), 0, line, broken)
    {
      ghost var goal := BroadcastFrom(View(), 0, line, broken);
      var i := 0;
      while i < |clients|
        invariant i <= |clients|
        invariant BroadcastFrom(State(clients, closed, sent), i, line, broken) == goal
        decreases |clients| - i
      {
        var c := clients[i];
        var ok := Reached(c.sock, broken);
        var sent' := sent + [Attempt(c.sock, line, ok)];
        if !ok {
          var clients' := clients[..i] + clients[i + 1..];
          SweepErases(State(clients, closed, sent), i, line, broken);
          clients, closed, sent := clients', closed + [c.sock], sent';
        } else {
          SweepKeeps(State(clients, closed, sent), i, line, broken);
          sent, i := sent', i + 1;
        }
      }
    }

    /** Shutdown: close every registered socket, in order, then clear the vector. */
    method Shutdown()
      requires Valid()
      modifies this
      ensures Valid()
      ensures View() == State([], old(closed) + SocksOf(old(clients)), old(sent))
    {
      var i := 0;
      while i < |clients|
        invariant i <= |clients|
        invariant closed == old(closed) + SocksOf(clients[..i])
        invariant clients == old(clients) && sent == old(sent)
      {
        assert clients[..i + 1] == clients[..i] + [clients[i]];
        SocksAppend(clients[..i], [clients[i]]);
        closed := closed + [clients[i].sock];
        i := i + 1;
      }
      assert clients[..i] == clients;
      clients := [];
    }
  }

  /** The sockets of a concatenation. */
  lemma SocksAppend(a: seq<Client>, b: seq<Client>)
    ensures SocksOf(a + b) == SocksOf(a) + SocksOf(b)
  {
    assert forall i | 0 <= i < |a + b| :: SocksOf(a + b)[i] == (SocksOf(a) + SocksOf(b))[i];
  }

  /** What the loop of `broadcast` does from the iterator at position `i` of `st.clients`:
      the entry there gets one send; on failure its socket is closed and it is erased in place,
      so the next entry moves under the iterator; on success the iterator advances. */
  function BroadcastFrom(st: State, i: nat, line: Bytes, broken: set<Sock>): (r: State)
    requires i <= |st.clients|
    ensures st.closed <= r.closed && st.sent <= r.sent
    decreases |st.clients| - i
  {
    if i == |st.clients| then st
    else
      var c := st.clients[i];
      var ok := Reached(c.sock, broken);
      var st1 := st.(sent := st.sent + [Attempt(c.sock, line, ok)]);
      if !ok then
        BroadcastFrom(st1.(closed := st.closed + [c.sock],
                           clients := st.clients[..i] + st.clients[i + 1..]), i, line, broken)
      else BroadcastFrom(st1, i + 1, line, broken)
  }

  /** An iteration of the loop of `broadcast` whose send fails: the entry at `i` is closed
      and erased and the iterator stays. */
  lemma SweepErases(st: State, i: nat, line: Bytes, broken: set<Sock>)
    requires i < |st.clients| && !Reached(st.clients[i].sock, broken)
    ensures BroadcastFrom(st, i, line, broken)
            == BroadcastFrom(State(st.clients[..i] + st.clients[i + 1..], st.closed + [st.clients[i].sock],
                                   st.sent + [Attempt(st.clients[i].sock, line, false)]), i, line, broken)
  {
  }

  /** An iteration of the loop of `broadcast` whose send succeeds: the iterator advances. */
  lemma SweepKeeps(st: State, i: nat, line: Bytes, broken: set<Sock>)
    requires i < |st.clients| && Reached(st.clients[i].sock, broken)
    ensures BroadcastFrom(st, i, line, broken)
            == BroadcastFrom(st.(sent := st.sent + [Attempt(st.clients[i].sock, line, true)]), i + 1, line, broken)
  {
  }

  /** The reference for the loop from position `i`: the entries before the iterator stay,
      the ones from it on are filtered, and the erased ones are closed and all are sent to, in
      order. */
  function Filtered(st: State, i: nat, line: Bytes, broken: set<Sock>): State
    requires i <= |st.clients|
  {
    State(st.clients[..i] + Drop(st.clients[i..], broken),
          st.closed + SocksOf(Removed(st.clients[i..], broken)),
          st.sent + Attempts(st.clients[i..], line, broken))
  }

  /** The loop of `broadcast` from any position is the filter from that position. */
  lemma {:induction false} BroadcastFromFilters(st: State, i: nat, line: Bytes, broken: set<Sock>)
    requires i <= |st.clients|
    ensures BroadcastFrom(st, i, line, broken) == Filtered(st, i, line, broken)
    decreases |st.clients| - i
  {
    var cs := st.clients;
    if i == |cs| {
      assert cs[..i] + [] == cs;
    } else {
      var c := cs[i];
      var a := Attempt(c.sock, line, Reached(c.sock, broken));
      if c.sock in broken {
        var st' := State(cs[..i] + cs[i + 1..], st.closed + [c.sock], st.sent + [a]);
        BroadcastFromFilters(st', i, line, broken);
        ErasedStep(st, i, line, broken, st');
      } else {
        var st' := st.(sent := st.sent + [a]);
        BroadcastFromFilters(st', i + 1, line, broken);
        KeptStep(st, i, line, broken, st');
      }
    }
  }

  /** Erasing the entry under the iterator: what the pass from there does is what it does from
      the same position of the shortened vector, with that socket closed and the failed send
      recorded. */
  lemma ErasedStep(st: State, i: nat, line: Bytes, broken: set<Sock>, st': State)
    requires i < |st.clients| && st.clients[i].sock in broken
    requires st' == State(st.clients[..i] + st.clients[i + 1..], st.closed + [st.clients[i].sock],
                          st.sent + [Attempt(st.clients[i].sock, line, false)])
    requires BroadcastFrom(st', i, line, broken) == Filtered(st', i, line, broken)
    ensures BroadcastFrom(st, i, line, broken) == Filtered(st, i, line, broken)
  {
    assert !Reached(st.clients[i].sock, broken);
    ErasedPieces(st.clients, i, st.closed, st.sent, line, broken);
  }

  /** The sequence facts behind `ErasedStep`. */
  lemma ErasedPieces(cs: seq<Client>, i: nat, closed: seq<Sock>, sent: seq<Attempt>, line: Bytes,
                     broken: set<Sock>)
    requires i < |cs| && cs[i].sock in broken
    ensures var cs' := cs[..i] + cs[i + 1..];
            cs'[..i] + Drop(cs'[i..], broken) == cs[..i] + Drop(cs[i..], broken) &&
            (closed + [cs[i].sock]) + SocksOf(Removed(cs'[i..], broken))
              == closed + SocksOf(Removed(cs[i..], broken)) &&
            (sent + [Attempt(cs[i].sock, line, false)]) + Attempts(cs'[i..], line, broken)
              == sent + Attempts(cs[i..], line, broken)
  {
    var c, tail := cs[i], cs[i + 1..];
    var cs' := cs[..i] + cs[i + 1..];
    assert cs[i..] == [c] + tail;
    assert cs'[..i] == cs[..i] && cs'[i..] == tail;
    assert Drop(cs[i..], broken) == Drop(tail, broken);
    var gone := Removed(tail, broken);
    assert Removed(cs[i..], broken) == [c] + gone;
    assert SocksOf([c] + gone) == [c.sock] + SocksOf(gone);
    var rest := Attempts(tail, line, broken);
    assert Attempts(cs[i..], line, broken) == [Attempt(c.sock, line, false)] + rest;
  }

  /** Stepping over the entry under the iterator: it joins the entries kept before the
      iterator, and its successful send is recorded. */
  lemma KeptStep(st: State, i: nat, line: Bytes, broken: set<Sock>, st': State)
    requires i < |st.clients| && st.clients[i].sock !in broken
    requires st' == st.(sent := st.sent + [Attempt(st.clients[i].sock, line, true)])
    requires BroadcastFrom(st', i + 1, line, broken) == Filtered(st', i + 1, line, broken)
    ensures BroadcastFrom(st, i, line, broken) == Filtered(st, i, line, broken)
  {
    assert Reached(st.clients[i].sock, broken);
    KeptPieces(st.clients, i, st.sent, line, broken);
  }

  /** The sequence facts behind `KeptStep`. */
  lemma KeptPieces(cs: seq<Client>, i: nat, sent: seq<Attempt>, line: Bytes, broken: set<Sock>)
    requires i < |cs| && cs[i].sock !in broken
    ensures cs[..i + 1] + Drop(cs[i + 1..], broken) == cs[..i] + Drop(cs[i..], broken)
    ensures Removed(cs[i + 1..], broken) == Removed(cs[i..], broken)
    ensures (sent + [Attempt(cs[i].sock, line, true)]) + Attempts(cs[i + 1..], line, broken)
            == sent + Attempts(cs[i..], line, broken)
  {
    var c, tail := cs[i], cs[i + 1..];
    assert cs[i..] == [c] + tail;
    assert cs[..i + 1] == cs[..i] + [c];
    assert Drop(cs[i..], broken) == [c] + Drop(tail, broken);
    var rest := Attempts(tail, line, broken);
    assert Attempts(cs[i..], line, broken) == [Attempt(c.sock, line, true)] + rest;
  }
}
