/** The entries of the `clients` vector and the two ways entries leave it: erased by a
    broadcast whose send failed, or erased by socket through `remove_if`. Both keep the
    entries whose socket is not in some set, in their original order. */
module Peers {
  import opened Wire

  /** A `socket_t` descriptor. */
  type Sock = int

  /** One `Client` record: its socket and its display name. */
  datatype Client = Client(sock: Sock, name: Bytes)

  /** The sockets of `cs`, in order. */
  function SocksOf(cs: seq<Client>): (r: seq<Sock>)
    ensures |r| == |cs| && forall i | 0 <= i < |cs| :: r[i] == cs[i].sock
  {
    if cs == [] then [] else [cs[0].sock] + SocksOf(cs[1..])
  }

  /** No two entries share a socket. */
  ghost predicate UniqueSocks(cs: seq<Client>)
  {
    forall i, j | 0 <= i < j < |cs| :: cs[i].sock != cs[j].sock
  }

  /** What erasing in place every entry whose socket is in `gone` leaves behind. */
  function Drop(cs: seq<Client>, gone: set<Sock>): (r: seq<Client>)
    ensures |r| <= |cs|
  {
    if cs == [] then [] else (if cs[0].sock in gone then [] else [cs[0]]) + Drop(cs[1..], gone)
  }

  /** The entries that erasing `gone` removes, in their original order. */
  function Removed(cs: seq<Client>, gone: set<Sock>): (r: seq<Client>)
    ensures |r| <= |cs|
  {
    if cs == [] then [] else (if cs[0].sock in gone then [cs[0]] else []) + Removed(cs[1..], gone)
  }

  /** Exactly the entries whose socket is not in `gone` survive, and exactly the others are removed. */
  lemma {:induction false} DropMembers(cs: seq<Client>, gone: set<Sock>)
    ensures forall c :: c in Drop(cs, gone) <==> c in cs && c.sock !in gone
    ensures forall c :: c in Removed(cs, gone) <==> c in cs && c.sock in gone
    decreases |cs|
  {
    if cs != [] {
      DropMembers(cs[1..], gone);
      assert cs == [cs[0]] + cs[1..];
    }
  }

  /** `a` is `b` with some entries left out and the rest in the same order. */
  ghost predicate IsSubseq<T>(a: seq<T>, b: seq<T>)
    decreases |b|
  {
    if a == [] then true
    else if b == [] then false
    else (a[0] == b[0] && IsSubseq(a[1..], b[1..])) || IsSubseq(a, b[1..])
  }

  /** Erasing splits over concatenation: the pass over `a + b` handles `a`, then `b`. */
  lemma {:induction false} DropAppend(a: seq<Client>, b: seq<Client>, gone: set<Sock>)
    ensures Drop(a + b, gone) == Drop(a, gone) + Drop(b, gone)
    decreases |a|
  {
    if a == [] {
      assert a + b == b;
    } else {
      var x := if a[0].sock in gone then [] else [a[0]];
      assert (a + b)[0] == a[0] && (a + b)[1..] == a[1..] + b;
      assert Drop(a + b, gone) == x + Drop(a[1..] + b, gone);
      DropAppend(a[1..], b, gone);
      assert x + (Drop(a[1..], gone) + Drop(b, gone)) == (x + Drop(a[1..], gone)) + Drop(b, gone);
    }
  }

  /** The same split for the entries erased. */
  lemma {:induction false} RemovedAppend(a: seq<Client>, b: seq<Client>, gone: set<Sock>)
    ensures Removed(a + b, gone) == Removed(a, gone) + Removed(b, gone)
    decreases |a|
  {
    if a == [] {
      assert a + b == b;
    } else {
      var x := if a[0].sock in gone then [a[0]] else [];
      assert (a + b)[0] == a[0] && (a + b)[1..] == a[1..] + b;
      assert Removed(a + b, gone) == x + Removed(a[1..] + b, gone);
      RemovedAppend(a[1..], b, gone);
      assert x + (Removed(a[1..], gone) + Removed(b, gone)) == (x + Removed(a[1..], gone)) + Removed(b, gone);
    }
  }

  /** Survivors keep their relative order. */
  lemma {:induction false} DropKeepsOrder(cs: seq<Client>, gone: set<Sock>)
    ensures IsSubseq(Drop(cs, gone), cs)
    ensures IsSubseq(Removed(cs, gone), cs)
    decreases |cs|
  {
    if cs != [] {
      DropKeepsOrder(cs[1..], gone);
      var d, r := Drop(cs[1..], gone), Removed(cs[1..], gone);
      if cs[0].sock in gone {
        assert Drop(cs, gone) == d;
        assert Removed(cs, gone) == [cs[0]] + r && (([cs[0]] + r)[1..] == r);
      } else {
        assert Drop(cs, gone) == [cs[0]] + d && (([cs[0]] + d)[1..] == d);
        assert Removed(cs, gone) == r;
      }
    }
  }

  /** Every entry either survives or is removed, never both and never lost or duplicated. */
  lemma {:induction false} DropPartition(cs: seq<Client>, gone: set<Sock>)
    ensures multiset(Drop(cs, gone)) + multiset(Removed(cs, gone)) == multiset(cs)
    ensures |Drop(cs, gone)| + |Removed(cs, gone)| == |cs|
    decreases |cs|
  {
    if cs != [] {
      DropPartition(cs[1..], gone);
      assert cs == [cs[0]] + cs[1..];
    }
  }

  /** Erasing twice is erasing both sets at once, so erasing a socket again changes nothing. */
  lemma {:induction false} DropDrop(cs: seq<Client>, a: set<Sock>, b: set<Sock>)
    ensures Drop(Drop(cs, a), b) == Drop(cs, a + b)
    decreases |cs|
  {
    if cs != [] {
      DropDrop(cs[1..], a, b);
      var once := Drop(cs[1..], a);
      if cs[0].sock in a {
        assert Drop(cs, a) == once;
      } else {
        assert Drop(cs, a) == [cs[0]] + once;
        DropAppend([cs[0]], once, b);
      }
    }
  }

  /** Erasing sockets that no entry has leaves the sequence as it was. */
  lemma {:induction false} DropNone(cs: seq<Client>, gone: set<Sock>)
    requires forall i | 0 <= i < |cs| :: cs[i].sock !in gone
    ensures Drop(cs, gone) == cs && Removed(cs, gone) == []
    decreases |cs|
  {
    if cs != [] {
      DropNone(cs[1..], gone);
    }
  }

  /** Erasing never breaks socket uniqueness. */
  lemma {:induction false} DropUnique(cs: seq<Client>, gone: set<Sock>)
    requires UniqueSocks(cs)
    ensures UniqueSocks(Drop(cs, gone))
    decreases |cs|
  {
    if cs != [] {
      DropUnique(cs[1..], gone);
      DropMembers(cs[1..], gone);
      var r := Drop(cs, gone);
      if cs[0].sock !in gone {
        forall j | 1 <= j < |r| ensures r[0].sock != r[j].sock {
          assert r[j] in Drop(cs[1..], gone);
          var k :| 0 <= k < |cs[1..]| && cs[1..][k] == r[j];
        }
      }
    }
  }

  /** With unique sockets, erasing one socket removes at most the one entry that has it. */
  lemma DropOneUnique(cs: seq<Client>, s: Sock)
    requires UniqueSocks(cs)
    ensures |Removed(cs, {s})| <= 1
  {
    RemovedUnique(cs, {s});
  }

  /** The removed entries of a uniquely-socketed sequence have distinct sockets, all in `gone`. */
  lemma {:induction false} RemovedUnique(cs: seq<Client>, gone: set<Sock>)
    requires UniqueSocks(cs)
    ensures UniqueSocks(Removed(cs, gone))
    ensures |Removed(cs, gone)| <= |gone|
    decreases |cs|
  {
    if cs != [] {
      var rest := Removed(cs[1..], gone);
      DropMembers(cs[1..], gone);
      assert UniqueSocks(cs[1..]);
      if cs[0].sock in gone {
        RemovedUnique(cs[1..], gone - {cs[0].sock});
        assert Removed(cs[1..], gone - {cs[0].sock}) == rest by {
          forall i | 0 <= i < |cs[1..]| ensures cs[1..][i].sock != cs[0].sock {}
          RemovedSame(cs[1..], gone, gone - {cs[0].sock});
        }
        var r := Removed(cs, gone);
        forall j | 1 <= j < |r| ensures r[0].sock != r[j].sock {
          assert r[j] in rest;
          var k :| 0 <= k < |cs[1..]| && cs[1..][k] == r[j];
        }
      } else {
        RemovedUnique(cs[1..], gone);
      }
    }
  }

  /** Two sets that agree on the sockets present erase the same entries. */
  lemma {:induction false} RemovedSame(cs: seq<Client>, a: set<Sock>, b: set<Sock>)
    requires forall i | 0 <= i < |cs| :: cs[i].sock in a <==> cs[i].sock in b
    ensures Removed(cs, a) == Removed(cs, b)
    decreases |cs|
  {
    if cs != [] {
      RemovedSame(cs[1..], a, b);
    }
  }

  /** `remove_if` by socket then a broadcast erasure is the same as the other order:
      it does not matter which of the two removes an entry first. */
  lemma DropCommutes(cs: seq<Client>, a: set<Sock>, b: set<Sock>)
    ensures Drop(Drop(cs, a), b) == Drop(Drop(cs, b), a)
  {
    DropDrop(cs, a, b);
    DropDrop(cs, b, a);
    assert a + b == b + a;
  }

  /** The entries of `cs` with socket `s` renamed to `name`: the effect of assigning
      `client->name` on the record the vector shares with the handler. */
  function Renamed(cs: seq<Client>, s: Sock, name: Bytes): (r: seq<Client>)
    ensures |r| == |cs| && SocksOf(r) == SocksOf(cs)
    ensures forall i | 0 <= i < |cs| :: r[i].name == (if cs[i].sock == s then name else cs[i].name)
  {
    if cs == [] then [] else [if cs[0].sock == s then Client(s, name) else cs[0]] + Renamed(cs[1..], s, name)
  }

  /** Renaming keeps the sockets, so it keeps them unique. */
  lemma RenamedUnique(cs: seq<Client>, s: Sock, name: Bytes)
    requires UniqueSocks(cs)
    ensures UniqueSocks(Renamed(cs, s, name))
  {
    var r := Renamed(cs, s, name);
    forall i, j | 0 <= i < j < |r| ensures r[i].sock != r[j].sock {
      assert r[i].sock == SocksOf(r)[i] == SocksOf(cs)[i];
      assert r[j].sock == SocksOf(r)[j] == SocksOf(cs)[j];
    }
  }
}
