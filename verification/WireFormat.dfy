// The frames that rest_rpc sends: rpc_header (const_vars.h, packed to 4 on a little-endian host) and
// the body, and what the reader of rpc_client makes of the bytes.
module WireFormat {

  type Byte = b: nat | b < 256

  const MAGIC := 39
  const MAX_BUF_LEN := 1048576 * 10
  const HEAD_LEN := 20
  const UINT32 := 0x1_0000_0000
  const UINT64 := 0x1_0000_0000_0000_0000

  datatype RequestType = ReqRes | SubPub

  datatype Message = Message(reqId: nat, reqType: RequestType, content: seq<Byte>)

  datatype Header = Header(magic: Byte, reqType: Byte, bodyLen: nat, reqId: nat, funcId: nat)

  /** One write: the header, then the body. */
  datatype Frame = Frame(header: Header, body: seq<Byte>)

  function Code(t: RequestType): Byte { if t.ReqRes? then 0 else 1 }

  function FrameOf(m: Message): Frame {
    Frame(Header(MAGIC, Code(m.reqType), |m.content|, m.reqId, 0), m.content)
  }

  function Frames(ms: seq<Message>): seq<Frame> { seq(|ms|, i requires 0 <= i < |ms| => FrameOf(ms[i])) }

  /** What `response` accepts: a uint64_t and a body below the limit it asserts. */
  predicate Sendable(m: Message) { m.reqId < UINT64 && |m.content| < MAX_BUF_LEN }

  // ------------------------------------------------------------ bytes

  function Power256(k: nat): nat { if k == 0 then 1 else 256 * Power256(k - 1) }

  function LittleEndian(v: nat, k: nat): (s: seq<Byte>)
    ensures |s| == k
  {
    if k == 0 then [] else [v % 256] + LittleEndian(v / 256, k - 1)
  }

  function Number(s: seq<Byte>): nat { if s == [] then 0 else s[0] + 256 * Number(s[1..]) }

  lemma {:induction false} NumberRoundTrip(v: nat, k: nat)
    requires v < Power256(k)
    ensures Number(LittleEndian(v, k)) == v
  {
    if k > 0 { NumberRoundTrip(v / 256, k - 1); }
  }

  /** The struct in memory: its second and third byte pairs are the type and the padding. */
  function HeaderBytes(h: Header, pad: (Byte, Byte)): (s: seq<Byte>)
    ensures |s| == HEAD_LEN
  {
    [h.magic, h.reqType, pad.0, pad.1] + LittleEndian(h.bodyLen, 4) + LittleEndian(h.reqId, 8)
    + LittleEndian(h.funcId, 4)
  }

  /** The cast of head_ to rpc_header. */
  function HeaderAt(s: seq<Byte>): Header
    requires |s| >= HEAD_LEN
  {
    Header(s[0], s[1], Number(s[4..8]), Number(s[8..16]), Number(s[16..20]))
  }

  function FrameBytes(f: Frame, pad: (Byte, Byte)): seq<Byte> { HeaderBytes(f.header, pad) + f.body }

  /** The frames one after the other; the padding of each header is arbitrary. */
  function Stream(fs: seq<Frame>, pads: seq<(Byte, Byte)>): seq<Byte>
    requires |fs| == |pads|
  {
    if fs == [] then [] else FrameBytes(fs[0], pads[0]) + Stream(fs[1..], pads[1..])
  }

  lemma HeaderRoundTrip(h: Header, pad: (Byte, Byte), rest: seq<Byte>)
    requires h.bodyLen < UINT32 && h.reqId < UINT64 && h.funcId < UINT32
    ensures HeaderAt(HeaderBytes(h, pad) + rest) == h
  {
    hide LittleEndian, Number;
    assert Power256(4) == UINT32;
    assert Power256(8) == UINT64;
    NumberRoundTrip(h.bodyLen, 4);
    NumberRoundTrip(h.reqId, 8);
    NumberRoundTrip(h.funcId, 4);
    var s := HeaderBytes(h, pad) + rest;
    assert s[4..8] == LittleEndian(h.bodyLen, 4);
    assert s[8..16] == LittleEndian(h.reqId, 8);
    assert s[16..20] == LittleEndian(h.funcId, 4);
  }

  // ------------------------------------------------------------ the reader

  /** do_read and read_body over everything that arrives: the messages given to the callbacks. The loop
      ends at the end of the bytes, on an empty body, on one that is too long, and after a body of an
      unknown type. */
  function Delivered(s: seq<Byte>): seq<Message> {
    if |s| < HEAD_LEN then []
    else
      var h, rest := HeaderAt(s), s[HEAD_LEN..];
      if h.bodyLen == 0 || h.bodyLen >= MAX_BUF_LEN || |rest| < h.bodyLen then []
      else
        var body := rest[..h.bodyLen];
        if h.reqType == 0 then [Message(h.reqId, ReqRes, body)] + Delivered(rest[h.bodyLen..])
        else if h.reqType == 1 then [Message(h.reqId, SubPub, body)] + Delivered(rest[h.bodyLen..])
        else []
  }

  /** The messages before the first one with an empty body. */
  function BeforeEmpty(ms: seq<Message>): (r: seq<Message>)
    ensures r <= ms
    ensures r == ms || ms[|r|].content == []
    ensures forall m :: m in r ==> m.content != []
  {
    if ms == [] || ms[0].content == [] then [] else [ms[0]] + BeforeEmpty(ms[1..])
  }

  /** One frame at the head of the stream. */
  lemma FrameIsRead(m: Message, pad: (Byte, Byte), rest: seq<Byte>)
    requires Sendable(m)
    ensures
      Delivered(FrameBytes(FrameOf(m), pad) + rest)
      == if m.content == [] then [] else [m] + Delivered(rest)
  {
    hide HeaderBytes, HeaderAt;
    var s := FrameBytes(FrameOf(m), pad) + rest;
    HeaderRoundTrip(FrameOf(m).header, pad, m.content + rest);
    assert s == HeaderBytes(FrameOf(m).header, pad) + (m.content + rest);
    assert s[HEAD_LEN..] == m.content + rest;
    assert (m.content + rest)[..|m.content|] == m.content && (m.content + rest)[|m.content|..] == rest;
  }

  /** A frame that was cut off delivers nothing. */
  lemma CutFrame(m: Message, pad: (Byte, Byte), cut: seq<Byte>)
    requires Sendable(m) && cut < FrameBytes(FrameOf(m), pad)
    ensures Delivered(cut) == []
  {
    hide HeaderBytes, HeaderAt;
    if |cut| >= HEAD_LEN {
      HeaderRoundTrip(FrameOf(m).header, pad, cut[HEAD_LEN..]);
      assert cut == HeaderBytes(FrameOf(m).header, pad) + cut[HEAD_LEN..];
    }
  }

  /** The reader gets back the request id, type and content of every message sent, in order, up to the
      first empty one, at which it closes; what follows the frames is read as it stands. */
  lemma {:induction false} ReaderRecovers(ms: seq<Message>, pads: seq<(Byte, Byte)>, rest: seq<Byte>)
    requires |pads| == |ms| && forall m :: m in ms ==> Sendable(m)
    ensures
      Delivered(Stream(Frames(ms), pads) + rest)
      == BeforeEmpty(ms) + if BeforeEmpty(ms) == ms then Delivered(rest) else []
  {
    hide FrameBytes, FrameOf, Delivered;
    if ms == [] {
      assert Stream(Frames(ms), pads) + rest == rest;
    } else {
      var tail := Stream(Frames(ms[1..]), pads[1..]);
      assert Frames(ms)[1..] == Frames(ms[1..]);
      assert Stream(Frames(ms), pads) + rest == FrameBytes(FrameOf(ms[0]), pads[0]) + (tail + rest);
      FrameIsRead(ms[0], pads[0], tail + rest);
      ReaderRecovers(ms[1..], pads[1..], rest);
    }
  }

  /** A write that failed half way adds nothing: the reader still has exactly the messages of the whole
      frames. */
  lemma CutStream(ms: seq<Message>, pads: seq<(Byte, Byte)>, m: Message, pad: (Byte, Byte), cut: seq<Byte>)
    requires |pads| == |ms| && Sendable(m) && forall x :: x in ms ==> Sendable(x)
    requires cut < FrameBytes(FrameOf(m), pad)
    ensures Delivered(Stream(Frames(ms), pads) + cut) == BeforeEmpty(ms)
  {
    ReaderRecovers(ms, pads, cut);
    CutFrame(m, pad, cut);
  }

  /** So everything is recovered exactly when no message is empty. */
  lemma RecoversAllIffNoneEmpty(ms: seq<Message>, pads: seq<(Byte, Byte)>)
    requires |pads| == |ms| && forall m :: m in ms ==> Sendable(m)
    ensures Delivered(Stream(Frames(ms), pads)) == ms <==> forall m :: m in ms ==> m.content != []
  {
    ReaderRecovers(ms, pads, []);
    assert Stream(Frames(ms), pads) + [] == Stream(Frames(ms), pads);
    var r := BeforeEmpty(ms);
    if |r| < |ms| { assert ms[|r|] in ms; }
  }
}
