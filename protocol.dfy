/** The text the server puts on the wire: the sender-tagged broadcast line, the reserved
    quit message, the default name, and the join and leave announcements. */
module Protocol {
  import opened Wire

  /** The reserved message that asks the server to end the session: "__quit__". */
  const QUIT: Bytes := [0x5F, 0x5F, 0x71, 0x75, 0x69, 0x74, 0x5F, 0x5F]

  /** The name given to a client whose name frame is empty: "anonymous". */
  const ANONYMOUS: Bytes := [0x61, 0x6E, 0x6F, 0x6E, 0x79, 0x6D, 0x6F, 0x75, 0x73]

  /** The sender tag of the server's own announcements: "Server". */
  const SERVER: Bytes := [0x53, 0x65, 0x72, 0x76, 0x65, 0x72]

  /** The quit message is the ASCII text "__quit__". */
  lemma QuitIsAscii()
    ensures QUIT == Ascii("__quit__")
  {
    AsciiOf(QUIT, "__quit__");
  }

  /** The default name is the ASCII text "anonymous". */
  lemma AnonymousIsAscii()
    ensures ANONYMOUS == Ascii("anonymous")
  {
    AsciiOf(ANONYMOUS, "anonymous");
  }

  /** The server's sender tag is the ASCII text "Server". */
  lemma ServerIsAscii()
    ensures SERVER == Ascii("Server")
  {
    AsciiOf(SERVER, "Server");
  }

  const OPEN: byte := 0x5B   // '['
  const CLOSE: byte := 0x5D  // ']'
  const SPACE: byte := 0x20  // ' '

  /** The line `broadcast` sends: `"[" + from + "] " + msg`. */
  function Line(from: Bytes, msg: Bytes): (line: Bytes)
    ensures |line| == |from| + |msg| + 3
    ensures line[0] == OPEN && line[1 + |from|] == CLOSE && line[2 + |from|] == SPACE
    ensures line[1..1 + |from|] == from && line[3 + |from|..] == msg
  {
    [OPEN] + from + [CLOSE, SPACE] + msg
  }

  /** The name a client gets from its first frame: the frame itself, or "anonymous" when empty. */
  function DisplayName(frame: Bytes): (name: Bytes)
    ensures name != []
    ensures frame == [] ==> name == ANONYMOUS
    ensures frame != [] ==> name == frame
  {
    if frame == [] then ANONYMOUS else frame
  }

  /** UTF-8 of the text before the name in both announcements (a two-character word, then " '"). */
  const ANNOUNCE_HEAD: Bytes := [0xE7, 0x94, 0xA8, 0xE6, 0x88, 0xB7, 0x20, 0x27]
  /** UTF-8 of the text after the name in the join announcement. */
  const JOINED_TAIL: Bytes := [0x27, 0x20, 0xE5, 0xB7, 0xB2, 0xE5, 0x8A, 0xA0, 0xE5, 0x85, 0xA5, 0xE8, 0x81, 0x8A, 0xE5, 0xA4, 0xA9]
  /** UTF-8 of the text after the name in the leave announcement. */
  const LEFT_TAIL: Bytes := [0x27, 0x20, 0xE5, 0xB7, 0xB2, 0xE7, 0xA6, 0xBB, 0xE5, 0xBC, 0x80, 0xE8, 0x81, 0x8A, 0xE5, 0xA4, 0xA9]

  /** The announcement that `name` has joined. */
  function JoinText(name: Bytes): (text: Bytes)
    ensures |text| == |ANNOUNCE_HEAD| + |name| + |JOINED_TAIL|
    ensures text[..|ANNOUNCE_HEAD|] == ANNOUNCE_HEAD
    ensures text[|ANNOUNCE_HEAD|..|ANNOUNCE_HEAD| + |name|] == name
  {
    ANNOUNCE_HEAD + name + JOINED_TAIL
  }

  /** The announcement that `name` has left. */
  function LeaveText(name: Bytes): (text: Bytes)
    ensures |text| == |ANNOUNCE_HEAD| + |name| + |LEFT_TAIL|
    ensures text[..|ANNOUNCE_HEAD|] == ANNOUNCE_HEAD
    ensures text[|ANNOUNCE_HEAD|..|ANNOUNCE_HEAD| + |name|] == name
  {
    ANNOUNCE_HEAD + name + LEFT_TAIL
  }

  /** The first position at or after `from` where `s` holds `b`, or |s| when there is none. */
  function IndexOf(s: Bytes, b: byte, from: nat): (k: nat)
    requires from <= |s|
    ensures from <= k <= |s|
    ensures k < |s| ==> s[k] == b
    ensures forall j | from <= j < k :: s[j] != b
    decreases |s| - from
  {
    if from == |s| || s[from] == b then from else IndexOf(s, b, from + 1)
  }

  /** How a receiver reads a line: the tag up to the first ']', which must be followed by ' ',
      and the message after that; None when the line is not of that shape. */
  function ParseLine(line: Bytes): (r: Option<(Bytes, Bytes)>)
    ensures r.Some? ==> line == Line(r.value.0, r.value.1) && CLOSE !in r.value.0
  {
    if |line| < 3 || line[0] != OPEN then None
    else
      var k := IndexOf(line, CLOSE, 1);
      if k + 1 < |line| && line[k + 1] == SPACE then
        var r := (line[1..k], line[k + 2..]);
        assert line == [OPEN] + line[1..k] + [CLOSE, SPACE] + line[k + 2..];
        Some(r)
      else None
  }

  /** A line parses back into its tag and message exactly when the tag holds no ']'. */
  lemma ParseLineOfLine(from: Bytes, msg: Bytes)
    ensures ParseLine(Line(from, msg)) == Some((from, msg)) <==> CLOSE !in from
  {
    var line := Line(from, msg);
    if CLOSE !in from {
      assert line[1 + |from|] == CLOSE;
      forall j | 1 <= j < 1 + |from| ensures line[j] != CLOSE {
        assert line[j] == from[j - 1];
      }
      LeastIndex(line, CLOSE, 1, 1 + |from|);
      assert line[1..1 + |from|] == from;
      assert line[1 + |from| + 2..] == msg;
    }
  }

  /** `IndexOf` finds the first occurrence. */
  lemma {:induction false} LeastIndex(s: Bytes, b: byte, from: nat, k: nat)
    requires from <= k < |s| && s[k] == b
    requires forall j | from <= j < k :: s[j] != b
    ensures IndexOf(s, b, from) == k
    decreases k - from
  {
    if from < k {
      LeastIndex(s, b, from + 1, k);
    }
  }

  /** Announcements are told apart from each other and from the quit message, and each
      names exactly one client. */
  lemma AnnouncementsDistinct(a: Bytes, b: Bytes)
    ensures JoinText(a) != LeaveText(b)
    ensures JoinText(a) != QUIT && LeaveText(a) != QUIT
    ensures JoinText(a) == JoinText(b) ==> a == b
    ensures LeaveText(a) == LeaveText(b) ==> a == b
  {
    if |a| == |b| {
      var n := |ANNOUNCE_HEAD| + |a|;
      assert JoinText(a)[n + 5] == 0xE5 && LeaveText(b)[n + 5] == 0xE7;
    }
    assert JoinText(a)[0] != QUIT[0];
    assert LeaveText(a)[0] != QUIT[0];
    if JoinText(a) == JoinText(b) {
      assert a == JoinText(a)[|ANNOUNCE_HEAD|..|ANNOUNCE_HEAD| + |a|];
    }
    if LeaveText(a) == LeaveText(b) {
      assert a == LeaveText(a)[|ANNOUNCE_HEAD|..|ANNOUNCE_HEAD| + |a|];
    }
  }
}
