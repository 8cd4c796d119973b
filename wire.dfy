/** Bytes on the wire and the length-prefixed frame of the chat protocol:
    a 4-byte big-endian unsigned length followed by exactly that many payload bytes. */
module Wire {

  newtype byte = b: int | 0 <= b < 256

  type Bytes = seq<byte>

  datatype Option<+T> = None | Some(value: T)

  /** 2^32: the first length that a `uint32_t` header cannot carry. */
  const FRAME_LIMIT: nat := 0x1_0000_0000

  /** Size of the length header, `sizeof(uint32_t)`. */
  const HEADER_SIZE: nat := 4

  /** The bytes of an ASCII literal, as `std::string` stores them. */
  function Ascii(s: string): (r: Bytes)
    requires forall i | 0 <= i < |s| :: s[i] < 128 as char
    ensures |r| == |s|
    ensures forall i | 0 <= i < |s| :: r[i] as int == s[i] as int
  {
    if s == [] then [] else [s[0] as int as byte] + Ascii(s[1..])
  }

  /** Bytes that agree with an ASCII text code by code are that text's encoding. */
  lemma AsciiOf(bs: Bytes, s: string)
    requires forall i | 0 <= i < |s| :: s[i] < 128 as char
    requires |bs| == |s| && forall i | 0 <= i < |s| :: bs[i] as int == s[i] as int
    ensures bs == Ascii(s)
  {
    var r := Ascii(s);
    assert forall i | 0 <= i < |s| :: bs[i] == r[i];
  }

  /** `htonl(len)` as it lies in memory: most significant byte first. */
  function EncodeLength(n: nat): (h: Bytes)
    requires n < FRAME_LIMIT
    ensures |h| == HEADER_SIZE
  {
    [(n / 0x100_0000) as byte, (n / 0x1_0000 % 0x100) as byte, (n / 0x100 % 0x100) as byte, (n % 0x100) as byte]
  }

  /** `ntohl` of a received header. */
  function DecodeLength(h: Bytes): (n: nat)
    requires |h| == HEADER_SIZE
    ensures n < FRAME_LIMIT
  {
    h[0] as nat * 0x100_0000 + h[1] as nat * 0x1_0000 + h[2] as nat * 0x100 + h[3] as nat
  }

  /** Decoding a header recovers the length it was encoded from. */
  lemma DecodeEncodeLength(n: nat)
    requires n < FRAME_LIMIT
    ensures DecodeLength(EncodeLength(n)) == n
  {
    var h := EncodeLength(n);
    assert n == (n / 0x100) * 0x100 + n % 0x100;
    assert n / 0x100 == (n / 0x1_0000) * 0x100 + n / 0x100 % 0x100;
    assert n / 0x1_0000 == (n / 0x100_0000) * 0x100 + n / 0x1_0000 % 0x100;
  }

  /** Every 4-byte header is the encoding of the length it decodes to. */
  lemma EncodeDecodeLength(h: Bytes)
    requires |h| == HEADER_SIZE
    ensures EncodeLength(DecodeLength(h)) == h
  {
    var b0, b1, b2, b3 := h[0] as nat, h[1] as nat, h[2] as nat, h[3] as nat;
    var n := DecodeLength(h);
    assert n == ((b0 * 0x100 + b1) * 0x100 + b2) * 0x100 + b3;
    DigitSplit((b0 * 0x100 + b1) * 0x100 + b2, b3);
    DigitSplit(b0 * 0x100 + b1, b2);
    DigitSplit(b0, b1);
    assert n / 0x1_0000 == (n / 0x100) / 0x100;
    assert n / 0x100_0000 == (n / 0x1_0000) / 0x100;
  }

  /** Base-256 digits: dividing `q * 256 + r` by 256 gives `q` back and leaves `r`. */
  lemma DigitSplit(q: nat, r: nat)
    requires r < 0x100
    ensures (q * 0x100 + r) / 0x100 == q && (q * 0x100 + r) % 0x100 == r
  {
  }

  /** What `static_cast<uint32_t>(msg.size())` keeps of `msg`: the length wraps modulo 2^32,
      and only that many leading bytes are sent. */
  function Announced(msg: Bytes): (r: Bytes)
    ensures |r| < FRAME_LIMIT && r <= msg
    ensures |msg| < FRAME_LIMIT ==> r == msg
    ensures |msg| >= FRAME_LIMIT ==> |r| == |msg| - FRAME_LIMIT * (|msg| / FRAME_LIMIT)
  {
    msg[..|msg| % FRAME_LIMIT]
  }

  /** The bytes `send_message` writes for `msg`: the header, then the payload only when it is not empty. */
  function Frame(msg: Bytes): (f: Bytes)
    requires |msg| < FRAME_LIMIT
    ensures |f| == HEADER_SIZE + |msg|
    ensures f[..HEADER_SIZE] == EncodeLength(|msg|) && f[HEADER_SIZE..] == msg
  {
    var header := EncodeLength(|msg|);
    if |msg| > 0 then header + msg else header
  }

  /** A frame followed by more bytes splits back into its header and its payload followed by them. */
  lemma FrameThen(msg: Bytes, rest: Bytes)
    requires |msg| < FRAME_LIMIT
    ensures (Frame(msg) + rest)[..HEADER_SIZE] == EncodeLength(|msg|)
    ensures (Frame(msg) + rest)[HEADER_SIZE..] == msg + rest
  {
    var f := Frame(msg);
    assert (f + rest)[HEADER_SIZE..] == f[HEADER_SIZE..] + rest;
  }

  /** Reading one frame from the front of `bs`: the payload and what follows it,
      or None when `bs` ends before the header or before the payload it announces. */
  function ParseFrame(bs: Bytes): (r: Option<(Bytes, Bytes)>)
    ensures r.None? <==> |bs| < HEADER_SIZE || |bs| - HEADER_SIZE < DecodeLength(bs[..HEADER_SIZE])
    ensures r.Some? ==> |r.value.0| == DecodeLength(bs[..HEADER_SIZE])
  {
    if |bs| < HEADER_SIZE then None
    else
      var len := DecodeLength(bs[..HEADER_SIZE]);
      if len == 0 then Some(([], bs[HEADER_SIZE..]))
      else if |bs| - HEADER_SIZE < len then None
      else Some((bs[HEADER_SIZE..HEADER_SIZE + len], bs[HEADER_SIZE + len..]))
  }

  /** Round trip: a frame followed by anything parses back to its payload, and the rest is left over.
      This includes the empty payload, whose frame is a zero header alone. */
  lemma ParseFrameOfFrame(msg: Bytes, rest: Bytes)
    requires |msg| < FRAME_LIMIT
    ensures ParseFrame(Frame(msg) + rest) == Some((msg, rest))
  {
    var bs := Frame(msg) + rest;
    assert bs[..HEADER_SIZE] == EncodeLength(|msg|);
    DecodeEncodeLength(|msg|);
    assert bs[HEADER_SIZE..HEADER_SIZE + |msg|] == msg;
    assert bs[HEADER_SIZE + |msg|..] == rest;
  }

  /** The other direction: whatever parses is a frame of the parsed payload followed by the rest. */
  lemma FrameOfParseFrame(bs: Bytes)
    requires ParseFrame(bs).Some?
    ensures |ParseFrame(bs).value.0| < FRAME_LIMIT
    ensures bs == Frame(ParseFrame(bs).value.0) + ParseFrame(bs).value.1
  {
    var (msg, rest) := ParseFrame(bs).value;
    EncodeDecodeLength(bs[..HEADER_SIZE]);
    assert bs == bs[..HEADER_SIZE] + msg + rest;
  }
}
