/** The socket I/O of the server: `send_all` and `recv_all` move a buffer through repeated
    partial `send`/`recv` calls, and `send_message`/`recv_message` move one frame. */
module Transport {
  import opened Wire

  /** One connected socket as the server sees it: the bytes the peer has sent that the server
      has not read yet, the bytes the server has written so far, and what the operating system
      answers to each successive `send` or `recv` call (a reply <= 0 is an error; no replies
      left means the connection is gone, so every further call returns 0). */
  datatype Socket = Socket(incoming: Bytes, written: Bytes, replies: seq<int>)

  function Min(a: int, b: int): int { if a <= b then a else b }

  function NextReply(s: Socket): int { if s.replies == [] then 0 else s.replies[0] }

  /** The socket after one call has used up its reply. */
  function Advance(s: Socket): Socket { s.(replies := if s.replies == [] then [] else s.replies[1..]) }

  /** The next `calls` calls on `s` all get a positive reply. */
  ghost predicate Healthy(s: Socket, calls: nat)
  {
    calls <= |s.replies| && forall i | 0 <= i < calls :: s.replies[i] > 0
  }

  /** One `::send(s, buf, |buf|)`: a positive reply is how much the system accepts this time,
      never more than it was asked; the accepted bytes go out after those written before. */
  function SendCall(s: Socket, buf: Bytes): (r: (int, Socket))
    ensures r.0 <= |buf|
    ensures r.1.incoming == s.incoming && r.1.replies == Advance(s).replies
    ensures r.1.written == s.written + (if r.0 > 0 then buf[..r.0] else [])
  {
    var reply := NextReply(s);
    if reply <= 0 then (reply, Advance(s))
    else
      var n := Min(reply, |buf|);
      (n, Advance(s).(written := s.written + buf[..n]))
  }

  /** One `::recv(s, buf, want)`: a positive reply is how much the system hands over this time,
      never more than was asked nor more than the peer has sent; nothing left to read is 0. */
  function RecvCall(s: Socket, want: nat): (r: (int, Bytes, Socket))
    ensures r.0 <= want && r.0 <= |s.incoming|
    ensures r.2.written == s.written && r.2.replies == Advance(s).replies
    ensures r.0 > 0 ==> r.1 == s.incoming[..r.0] && r.2.incoming == s.incoming[r.0..]
    ensures r.0 <= 0 ==> r.1 == [] && r.2.incoming == s.incoming
  {
    var reply := NextReply(s);
    if reply <= 0 then (reply, [], Advance(s))
    else
      var n := Min(reply, Min(want, |s.incoming|));
      (n, s.incoming[..n], Advance(s).(incoming := s.incoming[n..]))
  }

  /** What `send_all` does once `sent` bytes of `data` are out: whether it returns true, the
      final counter, and the socket afterwards. */
  function SendAllFrom(s: Socket, data: Bytes, sent: nat): (r: (bool, nat, Socket))
    requires sent <= |data|
    ensures sent <= r.1 <= |data|
    ensures r.0 <==> r.1 == |data|
    ensures r.2.written == s.written + data[sent..r.1]
    ensures r.2.incoming == s.incoming
    ensures sent < |data| && NextReply(s) <= 0 ==> !r.0 && r.1 == sent
    decreases |data| - sent
  {
    if sent == |data| then (true, sent, s)
    else
      var (n, s1) := SendCall(s, data[sent..]);
      if n <= 0 then (false, sent, s1)
      else
        var r := SendAllFrom(s1, data, sent + n);
        assert data[sent..sent + n] + data[sent + n..r.1] == data[sent..r.1];
        r
  }

  /** What `recv_all` does once `got` holds the bytes received so far toward `len`: whether it
      returns true, everything received, and the socket afterwards. */
  function RecvAllFrom(s: Socket, len: nat, got: Bytes): (r: (bool, Bytes, Socket))
    requires |got| <= len
    ensures |got| <= |r.1| <= len && r.1[..|got|] == got
    ensures r.0 <==> |r.1| == len
    ensures r.1 + r.2.incoming == got + s.incoming
    ensures r.2.written == s.written
    ensures |got| < len && NextReply(s) <= 0 ==> !r.0 && r.1 == got
    decreases len - |got|
  {
    if |got| == len then (true, got, s)
    else
      var (n, chunk, s1) := RecvCall(s, len - |got|);
      if n <= 0 then (false, got, s1)
      else
        var r := RecvAllFrom(s1, len, got + chunk);
        assert (got + chunk)[..|got|] == got;
        assert chunk + s1.incoming == s.incoming;
        r
  }

  /** `send_all`: repeated partial sends until the counter reaches `|data|`; any call that
      reports n <= 0 ends it with false. */
  method SendAll(s: Socket, data: Bytes) returns (ok: bool, sent: nat, s': Socket)
    ensures (ok, sent, s') == SendAllFrom(s, data, 0)
    ensures ok <==> sent == |data|
    ensures s'.written == s.written + data[..sent]
  {
    sent, s' := 0, s;
    while sent < |data|
      invariant sent <= |data|
      invariant SendAllFrom(s', data, sent) == SendAllFrom(s, data, 0)
      decreases |data| - sent
    {
      var call := SendCall(s', data[sent..]);
      var n := call.0;
      s' := call.1;
      if n <= 0 {
        return false, sent, s';
      }
      sent := sent + n;
    }
    ok := true;
  }

  /** `recv_all`: repeated partial receives until `len` bytes have arrived; any call that
      reports n <= 0 ends it with false. */
  method RecvAll(s: Socket, len: nat) returns (ok: bool, data: Bytes, s': Socket)
    ensures (ok, data, s') == RecvAllFrom(s, len, [])
    ensures ok <==> |data| == len
    ensures data + s'.incoming == s.incoming
  {
    data, s' := [], s;
    while |data| < len
      invariant |data| <= len
      invariant RecvAllFrom(s', len, data) == RecvAllFrom(s, len, [])
      decreases len - |data|
    {
      var call := RecvCall(s', len - |data|);
      var n := call.0;
      s' := call.2;
      if n <= 0 {
        return false, data, s';
      }
      data := data + call.1;
    }
    ok := true;
  }

  /** With enough healthy calls, `send_all` delivers everything, and the calls it leaves
      unused are still healthy. */
  lemma {:induction false} SendAllSucceeds(s: Socket, data: Bytes, sent: nat, calls: nat)
    requires sent <= |data| && |data| - sent <= calls
    requires Healthy(s, calls)
    ensures SendAllFrom(s, data, sent).0
    ensures Healthy(SendAllFrom(s, data, sent).2, calls - (|data| - sent))
    decreases |data| - sent
  {
    if sent < |data| {
      var (n, s1) := SendCall(s, data[sent..]);
      assert n >= 1;
      assert Healthy(s1, calls - 1) by {
        forall i | 0 <= i < calls - 1 ensures s1.replies[i] > 0 {
          assert s1.replies[i] == s.replies[i + 1];
        }
      }
      SendAllSucceeds(s1, data, sent + n, calls - 1);
      assert Healthy(SendAllFrom(s, data, sent).2, calls - 1 - (|data| - sent - n));
    }
  }

  /** With enough healthy calls and enough bytes from the peer, `recv_all` receives exactly the
      next `len` bytes, and the calls it leaves unused are still healthy. */
  lemma {:induction false} RecvAllSucceeds(s: Socket, len: nat, got: Bytes, calls: nat)
    requires |got| <= len && len - |got| <= calls
    requires Healthy(s, calls) && len - |got| <= |s.incoming|
    ensures RecvAllFrom(s, len, got).0
    ensures RecvAllFrom(s, len, got).1 == got + s.incoming[..len - |got|]
    ensures Healthy(RecvAllFrom(s, len, got).2, calls - (len - |got|))
    decreases len - |got|
  {
    if |got| < len {
      var want := len - |got|;
      var (n, chunk, s1) := RecvCall(s, want);
      assert 1 <= n <= want;
      assert Healthy(s1, calls - 1) by {
        forall i | 0 <= i < calls - 1 ensures s1.replies[i] > 0 {
          assert s1.replies[i] == s.replies[i + 1];
        }
      }
      assert RecvAllFrom(s, len, got) == RecvAllFrom(s1, len, got + chunk);
      RecvAllSucceeds(s1, len, got + chunk, calls - 1);
      calc {
        RecvAllFrom(s, len, got).1;
        got + chunk + s1.incoming[..want - n];
        { assert chunk + s1.incoming[..want - n] == s.incoming[..want]; }
        got + s.incoming[..want];
      }
    }
  }

  /** What `send_message` does: the length cast to `uint32_t` goes out as the header through
      `send_all`, then, only when that length is not zero, that many bytes of `msg` through
      `send_all`. On success the frame of what the cast keeps of `msg` has been written; on
      failure only a proper prefix of that frame. */
  function SendMessageSpec(s: Socket, msg: Bytes): (r: (bool, Socket))
    ensures r.1.incoming == s.incoming
    ensures r.0 ==> r.1.written == s.written + Frame(Announced(msg))
    ensures !r.0 ==> exists k | 0 <= k < |Frame(Announced(msg))| :: r.1.written == s.written + Frame(Announced(msg))[..k]
  {
    var body := Announced(msg);
    var header := EncodeLength(|body|);
    var (ok, sent, s1) := SendAllFrom(s, header, 0);
    if !ok then
      FramePrefix(body, sent);
      assert s1.written == s.written + Frame(body)[..sent];
      (false, s1)
    else if |body| > 0 then
      var (ok2, sent2, s2) := SendAllFrom(s1, body, 0);
      FramePrefix(body, HEADER_SIZE + sent2);
      assert s2.written == s.written + Frame(body)[..HEADER_SIZE + sent2];
      (ok2, s2)
    else (true, s1)
  }

  /** The first `k` bytes of a frame: part of the header, or the header and part of the payload. */
  lemma FramePrefix(msg: Bytes, k: nat)
    requires |msg| < FRAME_LIMIT && k <= HEADER_SIZE + |msg|
    ensures k <= HEADER_SIZE ==> Frame(msg)[..k] == EncodeLength(|msg|)[..k]
    ensures k >= HEADER_SIZE ==> Frame(msg)[..k] == EncodeLength(|msg|) + msg[..k - HEADER_SIZE]
  {
    var f := Frame(msg);
    assert f == f[..HEADER_SIZE] + f[HEADER_SIZE..];
  }

  /** How a `recv_message` call ends: it returns true with a message, returns false, or throws
      because `out.resize(len)` asks for more than `maxAlloc` bytes. */
  datatype Received = Message(msg: Bytes) | Failed | Threw

  /** What `recv_message` does: the header through `recv_all`; a zero length yields the empty
      message at once; otherwise `out` is resized to the announced length, which throws when
      that exceeds `maxAlloc`, and the payload comes through `recv_all`. */
  function RecvMessageSpec(s: Socket, maxAlloc: nat): (r: (Received, Socket))
    ensures r.1.written == s.written
    ensures r.0.Message? ==> ParseFrame(s.incoming) == Some((r.0.msg, r.1.incoming))
    ensures r.0.Message? ==> |r.1.incoming| + HEADER_SIZE + |r.0.msg| == |s.incoming|
    ensures r.0.Message? ==> |r.0.msg| <= maxAlloc
    ensures r.0.Threw? ==>
              HEADER_SIZE <= |s.incoming| && r.1.incoming == s.incoming[HEADER_SIZE..] &&
              DecodeLength(s.incoming[..HEADER_SIZE]) > maxAlloc
  {
    var (ok, header, s1) := RecvAllFrom(s, HEADER_SIZE, []);
    if !ok then (Failed, s1)
    else
      Unprefix(s.incoming, header, s1.incoming);
      var len := DecodeLength(header);
      if len == 0 then
        ParseSplit(s.incoming, [], s1.incoming);
        (Message([]), s1)
      else if len > maxAlloc then (Threw, s1)
      else
        var (ok2, payload, s2) := RecvAllFrom(s1, len, []);
        if ok2 then
          Unprefix(s1.incoming, payload, s2.incoming);
          ParseSplit(s.incoming, payload, s2.incoming);
          (Message(payload), s2)
        else (Failed, s2)
  }

  /** What `recv_all` received from empty, followed by what it left, is what there was. */
  lemma Unprefix(whole: Bytes, got: Bytes, after: Bytes)
    requires got + after == [] + whole
    ensures whole == got + after
    ensures whole[..|got|] == got && whole[|got|..] == after
  {
    assert [] + whole == whole;
  }

  /** Bytes that start with a header announcing the length of `payload`, then `payload`, then
      `rest`, parse as that frame. */
  lemma ParseSplit(bs: Bytes, payload: Bytes, rest: Bytes)
    requires |bs| >= HEADER_SIZE && DecodeLength(bs[..HEADER_SIZE]) == |payload|
    requires bs[HEADER_SIZE..] == payload + rest
    ensures ParseFrame(bs) == Some((payload, rest))
  {
    assert bs[HEADER_SIZE..HEADER_SIZE + |payload|] == payload;
    assert bs[HEADER_SIZE + |payload|..] == rest;
  }

  /** `send_message`: writes one frame, its length being `msg.size()` cast to `uint32_t`. */
  method SendMessage(s: Socket, msg: Bytes) returns (ok: bool, s': Socket)
    ensures (ok, s') == SendMessageSpec(s, msg)
  {
    var len := |msg| % FRAME_LIMIT;
    ghost var body := Announced(msg);
    assert msg[..len] == body && len == |body|;
    var sent;
    ok, sent, s' := SendAll(s, EncodeLength(len));
    if !ok {
      return;
    }
    if len > 0 {
      ok, sent, s' := SendAll(s', msg[..len]);
    }
  }

  /** `recv_message`: reads one frame off the socket. */
  method RecvMessage(s: Socket, maxAlloc: nat) returns (r: Received, s': Socket)
    ensures (r, s') == RecvMessageSpec(s, maxAlloc)
  {
    var ok, header;
    ok, header, s' := RecvAll(s, HEADER_SIZE);
    if !ok {
      return Failed, s';
    }
    var len := DecodeLength(header);
    if len == 0 {
      return Message([]), s';
    }
    if len > maxAlloc {
      return Threw, s';
    }
    var out;
    ok, out, s' := RecvAll(s', len);
    r := if ok then Message(out) else Failed;
  }

  /** With enough healthy calls, `send_message` succeeds. */
  lemma SendMessageSucceeds(s: Socket, msg: Bytes)
    requires Healthy(s, HEADER_SIZE + |Announced(msg)|)
    ensures SendMessageSpec(s, msg).0
  {
    var body := Announced(msg);
    var header := EncodeLength(|body|);
    SendAllSucceeds(s, header, 0, HEADER_SIZE + |body|);
    var s1 := SendAllFrom(s, header, 0).2;
    if |body| > 0 {
      SendAllSucceeds(s1, body, 0, |body|);
    }
  }

  /** Round trip over a socket: when the peer's bytes start with the frame of `msg`, the
      allocation fits and the calls succeed, `recv_message` returns exactly `msg` (the empty
      message included), leaves the rest unread, and uses at most one call per byte. */
  lemma RecvMessageOfFrame(s: Socket, maxAlloc: nat, msg: Bytes, rest: Bytes, calls: nat)
    requires |msg| <= maxAlloc && |msg| < FRAME_LIMIT
    requires s.incoming == Frame(msg) + rest
    requires HEADER_SIZE + |msg| <= calls && Healthy(s, calls)
    ensures RecvMessageSpec(s, maxAlloc).0 == Message(msg)
    ensures RecvMessageSpec(s, maxAlloc).1.incoming == rest
    ensures Healthy(RecvMessageSpec(s, maxAlloc).1, calls - HEADER_SIZE - |msg|)
  {
    var s1 := HeaderArrives(s, msg, rest, calls);
    if |msg| > 0 {
      RecvAllSucceeds(s1, |msg|, [], calls - HEADER_SIZE);
      assert RecvAllFrom(s1, |msg|, []).1 == msg by {
        assert (msg + rest)[..|msg|] == msg;
      }
    }
  }

  /** The first step of the round trip: the header arrives and announces `|msg|`. */
  lemma HeaderArrives(s: Socket, msg: Bytes, rest: Bytes, calls: nat) returns (s1: Socket)
    requires |msg| < FRAME_LIMIT
    requires s.incoming == Frame(msg) + rest
    requires HEADER_SIZE + |msg| <= calls && Healthy(s, calls)
    ensures RecvAllFrom(s, HEADER_SIZE, []) == (true, EncodeLength(|msg|), s1)
    ensures DecodeLength(EncodeLength(|msg|)) == |msg|
    ensures s1.incoming == msg + rest && Healthy(s1, calls - HEADER_SIZE)
  {
    RecvAllSucceeds(s, HEADER_SIZE, [], calls);
    FrameThen(msg, rest);
    DecodeEncodeLength(|msg|);
    var r := RecvAllFrom(s, HEADER_SIZE, []);
    s1 := r.2;
    assert r.1 == EncodeLength(|msg|) by {
      assert r.1 == [] + s.incoming[..HEADER_SIZE];
    }
    assert s1.incoming == msg + rest by {
      assert [] + s.incoming == s.incoming;
      assert s1.incoming == (r.1 + s1.incoming)[HEADER_SIZE..];
    }
  }

  /** End to end: the bytes a successful `send_message(msg)` adds to one socket, arriving on
      another whose calls succeed, are read back by `recv_message` as what the length cast
      keeps of `msg`, which is all of it below 2^32 bytes. */
  lemma SendThenRecv(a: Socket, msg: Bytes, b: Socket, rest: Bytes, maxAlloc: nat)
    requires |Announced(msg)| <= maxAlloc
    requires SendMessageSpec(a, msg).0
    requires b.incoming == SendMessageSpec(a, msg).1.written[|a.written|..] + rest
    requires Healthy(b, HEADER_SIZE + |Announced(msg)|)
    ensures RecvMessageSpec(b, maxAlloc).0 == Message(Announced(msg))
    ensures |msg| < FRAME_LIMIT ==> RecvMessageSpec(b, maxAlloc).0 == Message(msg)
  {
    var body := Announced(msg);
    assert SendMessageSpec(a, msg).1.written[|a.written|..] == Frame(body);
    RecvMessageOfFrame(b, maxAlloc, body, rest, HEADER_SIZE + |body|);
  }
}
