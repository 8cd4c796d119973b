/** What a whole session guarantees: which messages a client's bytes turn into, who is heard
    saying what, and what is left of the client in the registry afterwards. */
module Guarantees {
  import opened Wire
  import opened Transport
  import opened Protocol
  import opened Peers
  import opened Relay
  import opened Session

  /** The bytes a well-behaved client sends for `ms`: one frame per message, back to back. */
  function Frames(ms: seq<Bytes>): (r: Bytes)
    requires forall i | 0 <= i < |ms| :: |ms[i]| < FRAME_LIMIT
    ensures ms == [] <==> r == []
    ensures ms != [] ==> Frame(ms[0]) <= r
  {
    if ms == [] then [] else Frame(ms[0]) + Frames(ms[1..])
  }

  /** The framed stream parses back one message at a time: its first frame is the first
      message, and what follows is the stream of the others. */
  lemma FramesParse(ms: seq<Bytes>)
    requires ms != [] && forall i | 0 <= i < |ms| :: |ms[i]| < FRAME_LIMIT
    ensures ParseFrame(Frames(ms)) == Some((ms[0], Frames(ms[1..])))
  {
    ParseFrameOfFrame(ms[0], Frames(ms[1..]));
  }

  /** The messages before the first quit message: the longest prefix of `ms` free of it. */
  function UntilQuit(ms: seq<Bytes>): (r: seq<Bytes>)
    ensures r <= ms && QUIT !in r
    ensures QUIT in ms ==> |r| < |ms| && ms[|r|] == QUIT
    ensures QUIT !in ms ==> r == ms
  {
    if ms == [] then []
    else if ms[0] == QUIT then []
    else
      assert ms == [ms[0]] + ms[1..];
      [ms[0]] + UntilQuit(ms[1..])
  }

  /** With the peer's bytes used up, `recv_message` returns false. */
  lemma NothingLeftFails(s: Socket, maxAlloc: nat)
    requires s.incoming == []
    ensures RecvMessageSpec(s, maxAlloc).0 == Failed
  {
    var r := RecvAllFrom(s, HEADER_SIZE, []);
    assert r.1 + r.2.incoming == [];
  }

  /** Fewer calls than a healthy stretch are healthy too. */
  lemma HealthyFewer(s: Socket, calls: nat, fewer: nat)
    requires Healthy(s, calls) && fewer <= calls
    ensures Healthy(s, fewer)
  {
  }

  /** The relay loop, fed the frames of `ms` by a connection that answers every call and with
      `running` never read false, broadcasts exactly the messages before the first quit message,
      and ends on the quit message if there is one and on the closed connection otherwise. */
  lemma {:induction false} RelayOfFrames(s: Socket, maxAlloc: nat, running: seq<bool>, ms: seq<Bytes>)
    requires forall i | 0 <= i < |ms| :: |ms[i]| <= maxAlloc && |ms[i]| < FRAME_LIMIT
    requires s.incoming == Frames(ms) && Healthy(s, |s.incoming|)
    requires false !in running
    ensures RelayFrom(s, maxAlloc, running).relayed == UntilQuit(ms)
    ensures RelayFrom(s, maxAlloc, running).ending == if QUIT in ms then QuitReceived else ConnectionLost
    decreases |ms|
  {
    assert First(running, true) by {
      if running != [] {
        assert running[0] in running;
      }
    }
    if ms == [] {
      NothingLeftFails(s, maxAlloc);
    } else {
      var m := ms[0];
      assert ms == [m] + ms[1..];
      RecvMessageOfFrame(s, maxAlloc, m, Frames(ms[1..]), |s.incoming|);
      var s1 := RecvMessageSpec(s, maxAlloc).1;
      if m != QUIT {
        HealthyFewer(s1, |s.incoming| - HEADER_SIZE - |m|, |s1.incoming|);
        assert false !in Later(running);
        RelayOfFrames(s1, maxAlloc, Later(running), ms[1..]);
      }
    }
  }

  /** A whole session fed a name frame and then the frames of `ms`: the client is named after
      the frame (or "anonymous"), and broadcasts exactly the messages before the first quit
      message. */
  lemma ReceiveOfFrames(s: Socket, maxAlloc: nat, running: seq<bool>, first: Bytes, ms: seq<Bytes>)
    requires |first| <= maxAlloc && |first| < FRAME_LIMIT
    requires forall i | 0 <= i < |ms| :: |ms[i]| <= maxAlloc && |ms[i]| < FRAME_LIMIT
    requires s.incoming == Frame(first) + Frames(ms) && Healthy(s, |s.incoming|)
    requires false !in running
    ensures Receive(s, maxAlloc, running).name == DisplayName(first)
    ensures first == [] ==> Receive(s, maxAlloc, running).name == ANONYMOUS
    ensures Receive(s, maxAlloc, running).relayed == UntilQuit(ms)
    ensures Receive(s, maxAlloc, running).ending == if QUIT in ms then QuitReceived else ConnectionLost
  {
    RecvMessageOfFrame(s, maxAlloc, first, Frames(ms), |s.incoming|);
    var s1 := RecvMessageSpec(s, maxAlloc).1;
    HealthyFewer(s1, |s.incoming| - HEADER_SIZE - |first|, |s1.incoming|);
    RelayOfFrames(s1, maxAlloc, running, ms);
  }

  /** The messages broadcast under `from`, in order. */
  function Said(acts: seq<Action>, from: Bytes): (r: seq<Bytes>)
    ensures |r| <= |acts|
  {
    if acts == [] then []
    else (if acts[0].Send? && acts[0].from == from then [acts[0].msg] else []) + Said(acts[1..], from)
  }

  /** What is said over two runs of actions is what each says, in order. */
  lemma {:induction false} SaidAppend(a: seq<Action>, b: seq<Action>, from: Bytes)
    ensures Said(a + b, from) == Said(a, from) + Said(b, from)
    decreases |a|
  {
    if a == [] {
      assert a + b == b;
    } else {
      assert (a + b)[0] == a[0] && (a + b)[1..] == a[1..] + b;
      SaidAppend(a[1..], b, from);
    }
  }

  /** The loop's broadcasts say the relayed messages under the client's name and nothing under
      any other name. */
  lemma {:induction false} SaidRelays(name: Bytes, ms: seq<Bytes>, from: Bytes)
    ensures Said(Relays(name, ms), from) == if from == name then ms else []
    decreases |ms|
  {
    if ms != [] {
      assert Relays(name, ms)[1..] == Relays(name, ms[1..]);
      SaidRelays(name, ms[1..], from);
    }
  }

  /** The cleanup says only the leave announcement, under "Server". */
  lemma SaidTeardown(sock: Sock, name: Bytes, from: Bytes)
    ensures Said(Teardown(sock, name), from) == if from == SERVER then [LeaveText(name)] else []
  {
    var t := Teardown(sock, name);
    assert t[1..] == [Erase(sock), Send(SERVER, LeaveText(name))];
    assert t[1..][1..] == [Send(SERVER, LeaveText(name))];
    assert t[1..][1..][1..] == [];
    assert Said(t[1..][1..], from) == if from == SERVER then [LeaveText(name)] else [];
    assert Said(t[1..], from) == Said(t[1..][1..], from);
  }

  /** Naming the client and announcing it says only the join announcement, under "Server". */
  lemma SaidJoin(sock: Sock, name: Bytes, from: Bytes)
    ensures Said([SetName(sock, name), Send(SERVER, JoinText(name))], from)
         == if from == SERVER then [JoinText(name)] else []
  {
    var h := [SetName(sock, name), Send(SERVER, JoinText(name))];
    assert h[1..] == [Send(SERVER, JoinText(name))];
    assert h[1..][1..] == [];
  }

  /** What a session that got its name frame says under `from`. */
  lemma SaidNamed(sock: Sock, name: Bytes, relayed: seq<Bytes>, from: Bytes)
    requires name != SERVER
    ensures var acts := [SetName(sock, name), Send(SERVER, JoinText(name))] + Relays(name, relayed)
                        + Teardown(sock, name);
            Said(acts, from) == if from == SERVER then [JoinText(name), LeaveText(name)]
                                else if from == name then relayed else []
  {
    var head := [SetName(sock, name), Send(SERVER, JoinText(name))];
    var r := Relays(name, relayed);
    SaidAppend(head, r, from);
    SaidAppend(head + r, Teardown(sock, name), from);
    SaidJoin(sock, name, from);
    SaidRelays(name, relayed, from);
    SaidTeardown(sock, name, from);
  }

  /** Who says what in a session of a client not named "Server": under its own name exactly
      the messages it relayed once its name frame arrived, and nothing otherwise; under
      "Server" the join and leave announcements when the name frame arrived, only the leave
      announcement when the name receive threw, and nothing when it failed. */
  lemma SessionSays(sock: Sock, run: Run)
    requires run.name != SERVER
    ensures Said(Actions(sock, run), run.name) ==
              if run.ending in {NameLost, NameThrew} then [] else run.relayed
    ensures Said(Actions(sock, run), SERVER) ==
              match run.ending
              case NameLost => []
              case NameThrew => [LeaveText(run.name)]
              case _ => [JoinText(run.name), LeaveText(run.name)]
  {
    match run.ending {
      case NameLost =>
        var acts := Actions(sock, run);
        assert acts[1..] == [Erase(sock)] && acts[1..][1..] == [];
      case NameThrew =>
        SaidTeardown(sock, run.name, run.name);
        SaidTeardown(sock, run.name, SERVER);
      case _ =>
        SaidNamed(sock, run.name, run.relayed, run.name);
        SaidNamed(sock, run.name, run.relayed, SERVER);
    }
  }

  /** A prefix holds no more copies of anything than the whole. */
  lemma PrefixCount<T>(a: seq<T>, b: seq<T>, x: T)
    requires a <= b
    ensures multiset(a)[x] <= multiset(b)[x]
  {
    assert b == a + b[|a|..];
  }

  /** Broadcasts never bring back an erased socket nor unclose a closed one. */
  lemma {:induction false} SendsKeepGone(st: State, sock: Sock, acts: seq<Action>, fails: seq<set<Sock>>)
    requires forall i | 0 <= i < |acts| :: acts[i].Send?
    requires forall c | c in st.clients :: c.sock != sock
    ensures forall c | c in Exec(st, acts, fails).0.clients :: c.sock != sock
    decreases |acts|
  {
    if acts != [] {
      var w := Apply(st, acts[0], First(fails, {}));
      DropMembers(st.clients, First(fails, {}));
      SendsKeepGone(w, sock, acts[1..], Later(fails));
    }
  }

  /** Every session ends with its client's entry gone from the vector and its socket closed,
      whatever the peer sent and whichever broadcasts failed. */
  lemma SessionCleansUp(st: State, sock: Sock, run: Run, fails: seq<set<Sock>>)
    ensures forall c | c in Exec(st, Actions(sock, run), fails).0.clients :: c.sock != sock
    ensures sock in Exec(st, Actions(sock, run), fails).0.closed
  {
    var pre := if run.ending in {NameLost, NameThrew} then []
               else [SetName(sock, run.name), Send(SERVER, JoinText(run.name))] + Relays(run.name, run.relayed);
    var post := if run.ending == NameLost then [] else [Send(SERVER, LeaveText(run.name))];
    assert Actions(sock, run) == pre + ([Close(sock)] + ([Erase(sock)] + post));
    ExecAppend(st, pre, [Close(sock)] + ([Erase(sock)] + post), fails);
    var (mid, f) := Exec(st, pre, fails);
    var closed := mid.(closed := mid.closed + [sock]);
    ExecStep(mid, Close(sock), [Erase(sock)] + post, f, closed, f);
    var erased := closed.(clients := Drop(closed.clients, {sock}));
    ExecStep(closed, Erase(sock), post, f, erased, f);
    DropMembers(closed.clients, {sock});
    SendsKeepGone(erased, sock, post, f);
    var end := Exec(erased, post, f).0;
    PrefixCount(erased.closed, end.closed, sock);
    assert multiset(erased.closed)[sock] > 0;
  }

  /** A failed name receive leaves nothing but the close and the erasure: no announcement,
      no send. */
  lemma NameLostQuiet(st: State, sock: Sock, s0: Socket, maxAlloc: nat, running: seq<bool>,
                      fails: seq<set<Sock>>)
    requires Receive(s0, maxAlloc, running).ending == NameLost
    ensures Exec(st, Actions(sock, Receive(s0, maxAlloc, running)), fails)
         == (State(Drop(st.clients, {sock}), st.closed + [sock], st.sent), fails)
  {
    var closed := st.(closed := st.closed + [sock]);
    ExecStep(st, Close(sock), [Erase(sock)] + [], fails, closed, fails);
    ExecStep(closed, Erase(sock), [], fails, closed.(clients := Drop(st.clients, {sock})), fails);
    assert Actions(sock, Receive(s0, maxAlloc, running)) == [Close(sock)] + ([Erase(sock)] + []);
  }

  /** A broadcast that fails to reach a registered socket closes it once more. */
  lemma FailedSendCloses(st: State, from: Bytes, msg: Bytes, broken: set<Sock>, sock: Sock)
    requires sock in SocksOf(st.clients) && sock in broken
    ensures multiset(Broadcasted(st, from, msg, broken).closed)[sock] >= multiset(st.closed)[sock] + 1
  {
    var k :| 0 <= k < |st.clients| && SocksOf(st.clients)[k] == sock;
    DropMembers(st.clients, broken);
    var gone := Removed(st.clients, broken);
    assert st.clients[k] in gone;
    var j :| 0 <= j < |gone| && gone[j] == st.clients[k];
    assert SocksOf(gone)[j] == sock;
    assert sock in multiset(SocksOf(gone));
  }

  /** When the join announcement fails to reach the new client itself, that broadcast closes
      the client's socket and erases its entry, and the handler later closes the same socket
      again: the session closes it at least twice. */
  lemma JoinFailureClosesTwice(st: State, sock: Sock, run: Run, fails: seq<set<Sock>>)
    requires run.ending !in {NameLost, NameThrew}
    requires sock in SocksOf(st.clients)
    requires fails != [] && sock in fails[0]
    ensures multiset(Exec(st, Actions(sock, run), fails).0.closed)[sock] >= multiset(st.closed)[sock] + 2
  {
    var renamed := st.(clients := Renamed(st.clients, sock, run.name));
    var joined := Broadcasted(renamed, SERVER, JoinText(run.name), fails[0]);
    var r := Relays(run.name, run.relayed);
    JoinedActions(sock, run);
    JoinedThen(st, sock, run.name, r + Teardown(sock, run.name), fails);
    FailedSendCloses(renamed, SERVER, JoinText(run.name), fails[0], sock);
    CloseAfter(joined, sock, run.name, r, Later(fails));
  }

  /** The actions of a session past its name frame: rename, join, the loop's broadcasts, then
      the cleanup. */
  lemma JoinedActions(sock: Sock, run: Run)
    requires run.ending != NameLost && run.ending != NameThrew
    ensures Actions(sock, run) == [SetName(sock, run.name)] + ([Send(SERVER, JoinText(run.name))]
              + (Relays(run.name, run.relayed) + Teardown(sock, run.name)))
  {
    Regroup(SetName(sock, run.name), Send(SERVER, JoinText(run.name)), Relays(run.name, run.relayed),
            Teardown(sock, run.name));
  }

  /** Renaming the entry and broadcasting the join come first; the rest runs from there. */
  lemma JoinedThen(st: State, sock: Sock, name: Bytes, rest: seq<Action>, fails: seq<set<Sock>>)
    requires fails != []
    ensures var renamed := st.(clients := Renamed(st.clients, sock, name));
            Exec(st, [SetName(sock, name)] + ([Send(SERVER, JoinText(name))] + rest), fails)
            == Exec(Broadcasted(renamed, SERVER, JoinText(name), fails[0]), rest, Later(fails))
  {
    var renamed := Apply(st, SetName(sock, name), {});
    ExecStep(st, SetName(sock, name), [Send(SERVER, JoinText(name))] + rest, fails, renamed, fails);
    var joined := Broadcasted(renamed, SERVER, JoinText(name), fails[0]);
    ExecStep(renamed, Send(SERVER, JoinText(name)), rest, fails, joined, Later(fails));
  }

  /** After the join, the loop's broadcasts and the cleanup close `sock` at least once more. */
  lemma CloseAfter(st: State, sock: Sock, name: Bytes, r: seq<Action>, fails: seq<set<Sock>>)
    ensures multiset(Exec(st, r + Teardown(sock, name), fails).0.closed)[sock] >= multiset(st.closed)[sock] + 1
  {
    TeardownSteps(sock, name);
    ExecAppend(st, r, Teardown(sock, name), fails);
    var (mid, f) := Exec(st, r, fails);
    PrefixCount(st.closed, mid.closed, sock);
    var closed := mid.(closed := mid.closed + [sock]);
    ExecStep(mid, Close(sock), [Erase(sock)] + [Send(SERVER, LeaveText(name))], f, closed, f);
    var end := Exec(closed, [Erase(sock)] + [Send(SERVER, LeaveText(name))], f).0;
    PrefixCount(closed.closed, end.closed, sock);
  }
}
