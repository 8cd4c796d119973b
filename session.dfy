/** `handle_client`: the life of one connection. The first frame names the client; a join
    announcement goes out; every further message is broadcast under that name until
    `"__quit__"`, a failed receive, an exception, or `running` reads false; then the socket is
    closed, its entry erased, and a leave announcement broadcast. A failed name receive skips
    both announcements; an exception during the name receive skips only the join. */
module Session {
  import opened Wire
  import opened Transport
  import opened Protocol
  import opened Peers
  import opened Relay

  /** The next value an outside source supplies, or `otherwise` once it has none left. */
  function First<T>(xs: seq<T>, otherwise: T): T
  {
    if xs == [] then otherwise else xs[0]
  }

  /** What the source supplies after its next value. */
  function Later<T>(xs: seq<T>): seq<T>
  {
    if xs == [] then [] else xs[1..]
  }

  /** One operation of a handler on the registry or on its socket. Broadcasts and erasures run
      under `clients_mutex`; the rename and the close take no lock. */
  datatype Action =
    | Send(from: Bytes, msg: Bytes)      // broadcast(from, msg)
    | Close(sock: Sock)                  // close_socket(sock)
    | Erase(sock: Sock)                  // clients.erase(remove_if(... c->sock == sock ...))
    | SetName(sock: Sock, name: Bytes)   // client->name = name, on the shared record

  /** The effect of one action, where a broadcast fails to reach the sockets in `broken`.
      No action forgets a close or a send already made. */
  function Apply(st: State, a: Action, broken: set<Sock>): (r: State)
    ensures st.closed <= r.closed && st.sent <= r.sent
  {
    match a
    case Send(from, msg) => Broadcasted(st, from, msg, broken)
    case Close(s) => st.(closed := st.closed + [s])
    case Erase(s) => st.(clients := Drop(st.clients, {s}))
    case SetName(s, name) => st.(clients := Renamed(st.clients, s, name))
  }

  /** The registry after `acts` in order, where successive broadcasts fail to reach the
      successive sets of `fails` (and reach everyone once those run out), together with the
      sets not used yet. The logs of closes and sends only ever grow. */
  function Exec(st: State, acts: seq<Action>, fails: seq<set<Sock>>): (r: (State, seq<set<Sock>>))
    ensures st.closed <= r.0.closed && st.sent <= r.0.sent
    decreases |acts|
  {
    if acts == [] then (st, fails)
    else if acts[0].Send? then Exec(Apply(st, acts[0], First(fails, {})), acts[1..], Later(fails))
    else Exec(Apply(st, acts[0], {}), acts[1..], fails)
  }

  /** Running `a` then `b` is running `b` from where `a` left the registry and the oracle. */
  lemma {:induction false} ExecAppend(st: State, a: seq<Action>, b: seq<Action>, fails: seq<set<Sock>>)
    ensures Exec(st, a + b, fails) == Exec(Exec(st, a, fails).0, b, Exec(st, a, fails).1)
    decreases |a|
  {
    if a == [] {
      assert a + b == b;
    } else {
      assert (a + b)[0] == a[0] && (a + b)[1..] == a[1..] + b;
      if a[0].Send? {
        ExecAppend(Apply(st, a[0], First(fails, {})), a[1..], b, Later(fails));
      } else {
        ExecAppend(Apply(st, a[0], {}), a[1..], b, fails);
      }
    }
  }

  /** One action takes `v` to `w` and the oracle from `f` to `f2`; the rest runs from there. */
  lemma ExecStep(v: State, a: Action, rest: seq<Action>, f: seq<set<Sock>>, w: State, f2: seq<set<Sock>>)
    requires a.Send? ==> w == Apply(v, a, First(f, {})) && f2 == Later(f)
    requires !a.Send? ==> w == Apply(v, a, {}) && f2 == f
    ensures Exec(v, [a] + rest, f) == Exec(w, rest, f2)
  {
    assert ([a] + rest)[0] == a && ([a] + rest)[1..] == rest;
  }

  /** Why a session ended. */
  datatype Ending =
    | NameLost       // the name receive returned false
    | NameThrew      // the name receive threw
    | QuitReceived   // the client sent "__quit__"
    | Halted         // `running` read false
    | ConnectionLost // a message receive returned false
    | LoopThrew      // a message receive threw

  /** What the message loop does: the messages it broadcasts, why it stops, and the socket
      afterwards. */
  datatype Loop = Loop(relayed: seq<Bytes>, ending: Ending, rest: Socket)

  /** The message loop `while (running && recv_message(sock, msg))`, where `running` lists the
      values the flag reads at successive tests (it reads true once those run out, since nothing
      in the server clears it) and a receive larger than `maxAlloc` throws. The quit message is
      never broadcast. */
  function RelayFrom(s: Socket, maxAlloc: nat, running: seq<bool>): (r: Loop)
    ensures QUIT !in r.relayed
    ensures r.ending in {QuitReceived, Halted, ConnectionLost, LoopThrew}
    ensures r.rest.written == s.written && |r.rest.incoming| <= |s.incoming|
    ensures !First(running, true) ==> r == Loop([], Halted, s)
    decreases |s.incoming|
  {
    if !First(running, true) then Loop([], Halted, s)
    else
      var (got, s1) := RecvMessageSpec(s, maxAlloc);
      match got
      case Failed => Loop([], ConnectionLost, s1)
      case Threw => Loop([], LoopThrew, s1)
      case Message(m) =>
        if m == QUIT then Loop([], QuitReceived, s1)
        else
          var l := RelayFrom(s1, maxAlloc, Later(running));
          Loop([m] + l.relayed, l.ending, l.rest)
  }

  /** What one session receives and decides: the client's name, the messages it broadcasts,
      why it ends, and the socket afterwards. */
  datatype Run = Run(name: Bytes, relayed: seq<Bytes>, ending: Ending, rest: Socket)

  /** The receiving side of `handle_client`: the name frame, then the message loop. The name
      stays the empty one given at accept exactly when the name receive fails or throws. */
  function Receive(s: Socket, maxAlloc: nat, running: seq<bool>): (r: Run)
    ensures r.name == [] <==> r.ending in {NameLost, NameThrew}
    ensures r.ending in {NameLost, NameThrew} ==> r.relayed == []
    ensures QUIT !in r.relayed
  {
    var (got, s1) := RecvMessageSpec(s, maxAlloc);
    match got
    case Failed => Run([], [], NameLost, s1)
    case Threw => Run([], [], NameThrew, s1)
    case Message(frame) =>
      var l := RelayFrom(s1, maxAlloc, running);
      Run(DisplayName(frame), l.relayed, l.ending, l.rest)
  }

  /** One broadcast under `name` per message, in order. */
  function Relays(name: Bytes, ms: seq<Bytes>): (r: seq<Action>)
    ensures |r| == |ms| && forall i | 0 <= i < |ms| :: r[i] == Send(name, ms[i])
  {
    if ms == [] then [] else [Send(name, ms[0])] + Relays(name, ms[1..])
  }

  /** The cleanup every session that got past a plain failed name receive ends with. */
  function Teardown(sock: Sock, name: Bytes): (r: seq<Action>)
    ensures |r| == 3 && r[0] == Close(sock) && r[1] == Erase(sock)
    ensures r[|r| - 1] == Send(SERVER, LeaveText(name))
  {
    [Close(sock), Erase(sock), Send(SERVER, LeaveText(name))]
  }

  /** The registry operations of a session, in the order `handle_client` performs them. */
  function Actions(sock: Sock, run: Run): (r: seq<Action>)
  {
    match run.ending
    case NameLost => [Close(sock), Erase(sock)]
    case NameThrew => Teardown(sock, run.name)
    case _ =>
      [SetName(sock, run.name), Send(SERVER, JoinText(run.name))] + Relays(run.name, run.relayed)
      + Teardown(sock, run.name)
  }

  /** Every session closes its socket and, right after, erases its entry; it ends with that
      erasure when the name never arrived and with the leave announcement otherwise. */
  lemma ActionsShape(sock: Sock, run: Run)
    ensures |Actions(sock, run)| >= 2
    ensures exists i | 0 <= i < |Actions(sock, run)| - 1 ::
              Actions(sock, run)[i] == Close(sock) && Actions(sock, run)[i + 1] == Erase(sock)
    ensures Actions(sock, run)[|Actions(sock, run)| - 1]
            == if run.ending == NameLost then Erase(sock) else Send(SERVER, LeaveText(run.name))
  {
    var r := Actions(sock, run);
    if run.ending == NameLost || run.ending == NameThrew {
      assert r[0] == Close(sock) && r[1] == Erase(sock);
    } else {
      var head := [SetName(sock, run.name), Send(SERVER, JoinText(run.name))] + Relays(run.name, run.relayed);
      var t := Teardown(sock, run.name);
      assert r == head + t;
      assert r[|head|] == t[0] && r[|head| + 1] == t[1] && r[|r| - 1] == t[2];
    }
  }

  /** `handle_client(client)` for the client on socket `sock`, whose peer's side of the
      connection is `s0`: `running` lists what the flag reads at successive loop tests, a
      receive of more than `maxAlloc` bytes throws, and successive broadcasts of the session
      fail to reach the successive sets of `fails`. Returns the name the shared record ends
      with and the socket. */
  method HandleClient(reg: Registry, sock: Sock, s0: Socket, maxAlloc: nat,
                      running: seq<bool>, fails: seq<set<Sock>>)
    returns (name: Bytes, s: Socket)
    requires reg.Valid()
    modifies reg
    ensures reg.Valid()
    ensures reg.View() == Exec(old(reg.View()), Actions(sock, Receive(s0, maxAlloc, running)), fails).0
    ensures name == Receive(s0, maxAlloc, running).name && s == Receive(s0, maxAlloc, running).rest
  {
    ghost var goal := Exec(reg.View(), Actions(sock, Receive(s0, maxAlloc, running)), fails);
    ghost var v := reg.View();
    var left := fails;
    name := [];
    var got;
    got, s := RecvMessage(s0, maxAlloc);
    if got.Failed? {
      NameLostActions(sock, s0, maxAlloc, running);
      reg.CloseSocket(sock);
      ExecStep(v, Close(sock), [Erase(sock)] + [], left, reg.View(), left);
      v := reg.View();
      reg.Remove(sock);
      ExecStep(v, Erase(sock), [], left, reg.View(), left);
      return;
    }
    if got.Message? {
      ghost var loop := RelayFrom(s, maxAlloc, running);
      name := DisplayName(got.msg);
      SessionShape(sock, s0, maxAlloc, running);
      ghost var tail := Relays(name, loop.relayed) + Teardown(sock, name);
      reg.Rename(sock, name);
      ExecStep(v, SetName(sock, name), [Send(SERVER, JoinText(name))] + tail, left, reg.View(), left);
      v := reg.View();
      reg.Broadcast(SERVER, JoinText(name), First(left, {}));
      ExecStep(v, Send(SERVER, JoinText(name)), tail, left, reg.View(), Later(left));
      left := Later(left);
      v := reg.View();
      ghost var before := left;
      s, left := Converse(reg, name, s, maxAlloc, running, left);
      ExecRelays(v, name, loop.relayed, Teardown(sock, name), before);
    } else {
      ThrewActions(sock, s0, maxAlloc, running);
    }
    left := Cleanup(reg, sock, name, left);
  }

  /** The end of `handle_client` for a session that got past a plain failed name receive:
      close the socket, erase its entry, then broadcast the leave announcement. Returns the
      failure sets not used. */
  method Cleanup(reg: Registry, sock: Sock, name: Bytes, fails: seq<set<Sock>>) returns (left: seq<set<Sock>>)
    requires reg.Valid()
    modifies reg
    ensures reg.Valid()
    ensures (reg.View(), left) == Exec(old(reg.View()), Teardown(sock, name), fails)
  {
    TeardownSteps(sock, name);
    var leave := Send(SERVER, LeaveText(name));
    assert [leave] + [] == [leave];
    ghost var v := reg.View();
    reg.CloseSocket(sock);
    ExecStep(v, Close(sock), [Erase(sock)] + [leave], fails, reg.View(), fails);
    v := reg.View();
    reg.Remove(sock);
    ExecStep(v, Erase(sock), [leave] + [], fails, reg.View(), fails);
    v := reg.View();
    reg.Broadcast(SERVER, LeaveText(name), First(fails, {}));
    ExecStep(v, leave, [], fails, reg.View(), Later(fails));
    left := Later(fails);
  }

  /** The message loop of `handle_client`: broadcasts each message received on `s0` under
      `name` until the loop ends, and returns the socket and the failure sets not used. */
  method Converse(reg: Registry, name: Bytes, s0: Socket, maxAlloc: nat, running: seq<bool>,
                  fails: seq<set<Sock>>)
    returns (s: Socket, left: seq<set<Sock>>)
    requires reg.Valid()
    modifies reg
    ensures reg.Valid()
    ensures (reg.View(), left) == RelayAll(old(reg.View()), name, RelayFrom(s0, maxAlloc, running).relayed, fails)
    ensures s == RelayFrom(s0, maxAlloc, running).rest
  {
    ghost var st := reg.View();
    ghost var loop := RelayFrom(s0, maxAlloc, running);
    ghost var cur := loop;
    s, left := s0, fails;
    var flags := running;
    while First(flags, true)
      invariant reg.Valid()
      invariant cur == RelayFrom(s, maxAlloc, flags)
      invariant RelayAll(reg.View(), name, cur.relayed, left) == RelayAll(st, name, loop.relayed, fails)
      invariant loop.rest == cur.rest
      decreases |s.incoming|
    {
      var got, s1 := RecvMessage(s, maxAlloc);
      LoopStep(s, maxAlloc, flags, got, s1);
      s := s1;
      if !got.Message? || got.msg == QUIT {
        break;
      }
      ghost var before := reg.View();
      reg.Broadcast(name, got.msg, First(left, {}));
      cur := RelayFrom(s, maxAlloc, Later(flags));
      RelayStep(before, reg.View(), name, got.msg, cur.relayed, left);
      left := Later(left);
      flags := Later(flags);
    }
  }

  /** The registry and the oracle after broadcasting each of `ms` under `name`, in order. */
  function RelayAll(st: State, name: Bytes, ms: seq<Bytes>, fails: seq<set<Sock>>): (r: (State, seq<set<Sock>>))
    ensures |r.0.clients| <= |st.clients|
    ensures st.closed <= r.0.closed && st.sent <= r.0.sent
    decreases |ms|
  {
    if ms == [] then (st, fails)
    else RelayAll(Broadcasted(st, name, ms[0], First(fails, {})), name, ms[1..], Later(fails))
  }

  /** Broadcasting one message takes `v` to `w`; the others run from there. */
  lemma RelayStep(v: State, w: State, name: Bytes, m: Bytes, ms: seq<Bytes>, fails: seq<set<Sock>>)
    requires w == Broadcasted(v, name, m, First(fails, {}))
    ensures RelayAll(v, name, [m] + ms, fails) == RelayAll(w, name, ms, Later(fails))
  {
    assert ([m] + ms)[1..] == ms;
  }

  /** The loop's broadcasts, run as session actions, are `RelayAll`. */
  lemma {:induction false} ExecRelays(st: State, name: Bytes, ms: seq<Bytes>, rest: seq<Action>,
                                      fails: seq<set<Sock>>)
    ensures Exec(st, Relays(name, ms) + rest, fails)
         == Exec(RelayAll(st, name, ms, fails).0, rest, RelayAll(st, name, ms, fails).1)
    decreases |ms|
  {
    if ms == [] {
      assert Relays(name, ms) + rest == rest;
    } else {
      var w := Broadcasted(st, name, ms[0], First(fails, {}));
      assert Relays(name, ms) + rest == [Send(name, ms[0])] + (Relays(name, ms[1..]) + rest);
      ExecStep(st, Send(name, ms[0]), Relays(name, ms[1..]) + rest, fails, w, Later(fails));
      ExecRelays(w, name, ms[1..], rest, Later(fails));
    }
  }

  /** One pass of the message loop: with `running` reading true, a message other than the quit
      message is broadcast and the loop goes on; anything else ends it there. */
  lemma LoopStep(s: Socket, maxAlloc: nat, running: seq<bool>, got: Received, s1: Socket)
    requires First(running, true) && (got, s1) == RecvMessageSpec(s, maxAlloc)
    ensures got.Message? && got.msg != QUIT ==>
              var next := RelayFrom(s1, maxAlloc, Later(running));
              RelayFrom(s, maxAlloc, running) == Loop([got.msg] + next.relayed, next.ending, next.rest)
    ensures !(got.Message? && got.msg != QUIT) ==>
              RelayFrom(s, maxAlloc, running).relayed == [] && RelayFrom(s, maxAlloc, running).rest == s1
  {
  }

  /** A failed name receive: close and erase, nothing else. */
  lemma NameLostActions(sock: Sock, s0: Socket, maxAlloc: nat, running: seq<bool>)
    requires RecvMessageSpec(s0, maxAlloc).0.Failed?
    ensures Receive(s0, maxAlloc, running) == Run([], [], NameLost, RecvMessageSpec(s0, maxAlloc).1)
    ensures Actions(sock, Receive(s0, maxAlloc, running)) == [Close(sock)] + ([Erase(sock)] + [])
  {
    assert [Close(sock)] + ([Erase(sock)] + []) == [Close(sock), Erase(sock)];
  }

  /** A name receive that throws: the general cleanup, with the name still empty. */
  lemma ThrewActions(sock: Sock, s0: Socket, maxAlloc: nat, running: seq<bool>)
    requires RecvMessageSpec(s0, maxAlloc).0.Threw?
    ensures Receive(s0, maxAlloc, running) == Run([], [], NameThrew, RecvMessageSpec(s0, maxAlloc).1)
    ensures Actions(sock, Receive(s0, maxAlloc, running)) == Teardown(sock, [])
  {
  }

  /** The shape of a session whose name frame arrives: name, join, the loop's broadcasts, then
      the cleanup. */
  lemma SessionShape(sock: Sock, s0: Socket, maxAlloc: nat, running: seq<bool>)
    requires RecvMessageSpec(s0, maxAlloc).0.Message?
    ensures var name := DisplayName(RecvMessageSpec(s0, maxAlloc).0.msg);
            var loop := RelayFrom(RecvMessageSpec(s0, maxAlloc).1, maxAlloc, running);
            Receive(s0, maxAlloc, running) == Run(name, loop.relayed, loop.ending, loop.rest) &&
            Actions(sock, Receive(s0, maxAlloc, running)) ==
              [SetName(sock, name)] + ([Send(SERVER, JoinText(name))] + (Relays(name, loop.relayed) + Teardown(sock, name)))
  {
    var name := DisplayName(RecvMessageSpec(s0, maxAlloc).0.msg);
    var r := Relays(name, RelayFrom(RecvMessageSpec(s0, maxAlloc).1, maxAlloc, running).relayed);
    Regroup(SetName(sock, name), Send(SERVER, JoinText(name)), r, Teardown(sock, name));
  }

  /** Two actions, then two runs of actions, one at a time. */
  lemma Regroup(a: Action, b: Action, r: seq<Action>, t: seq<Action>)
    ensures [a, b] + r + t == [a] + ([b] + (r + t))
  {
  }

  /** The cleanup, one action at a time. */
  lemma TeardownSteps(sock: Sock, name: Bytes)
    ensures Teardown(sock, name) == [Close(sock)] + ([Erase(sock)] + [Send(SERVER, LeaveText(name))])
  {
  }
}
