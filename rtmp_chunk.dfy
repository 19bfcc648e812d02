/** The inbound RTMP chunk stream as RtmpContext::ParseMessage reads it
    (src/mmedia/rtmp/RtmpContext.cpp), following the chunk format of the Adobe
    RTMP 1.0 specification: the basic header of section 5.3.1.1, the four
    message-header formats of section 5.3.1.2 and the extended timestamp of
    section 5.3.1.3.

    This module is the value-level reference: one parser step (`ChunkStep`)
    and the whole loop (`ParseAll`) as functions of the per-channel tables and
    the buffered bytes. The class in rtmp_context.dfy updates its fields in
    place and is proved to compute exactly these functions.

    Modelling choices:
    - the tables are keyed by the chunk stream id; a key that is absent reads
      as the value `operator[]` would have inserted (a zeroed header, a delta
      of 0, the flag false, no packet), so those default insertions are not
      represented;
    - a packet is its capacity (the message length it was created for), the
      bytes it holds so far and the header attached to it;
    - the message stream id is copied with `memcpy` and so read in host order,
      taken here to be little-endian;
    - timestamps are 32-bit unsigned and wrap. */
module RtmpChunk {
  import opened BytesReader

  datatype Option<T> = None | Some(value: T)

  /** The length of the message header of each format (section 5.3.1.2). */
  const HeaderSizes: seq<nat> := [11, 7, 3, 0]

  /** The 24-bit timestamp value that announces an extended timestamp. */
  const ExtendedMarker: uint32 := 0xFF_FFFF

  /** The input chunk size a context starts with. */
  const DefaultChunkSize: nat := 128

  /** RtmpMsgHeader: the fields the parser keeps per chunk stream. */
  datatype Header = Header(csId: nat, msgLen: uint32, msgSid: uint32, msgType: byte, timestamp: uint32)

  /** A header made by `std::make_shared<RtmpMsgHeader>()`. */
  const ZeroHeader: Header := Header(0, 0, 0, 0, 0)

  /** A message being reassembled: the length it was created for, the bytes
      received so far and the header attached to it. */
  datatype Packet = Packet(capacity: nat, body: seq<byte>, header: Header)

  /** The four per-channel tables: previous header, partial packet,
      timestamp delta and extended-timestamp flag. */
  datatype Tables = Tables(headers: map<nat, Header>, packets: map<nat, Packet>,
                           deltas: map<nat, uint32>, ext: map<nat, bool>)

  const EmptyTables: Tables := Tables(map[], map[], map[], map[])

  function PrevHeader(t: Tables, csid: nat): Header
  {
    if csid in t.headers then t.headers[csid] else ZeroHeader
  }

  function DeltaOf(t: Tables, csid: nat): uint32
  {
    if csid in t.deltas then t.deltas[csid] else 0
  }

  function ExtOf(t: Tables, csid: nat): bool
  {
    csid in t.ext && t.ext[csid]
  }

  /** No partial packet holds more bytes than it was created for. */
  predicate Wf(t: Tables)
  {
    forall c :: c in t.packets ==> |t.packets[c].body| <= t.packets[c].capacity
  }

  function Min(a: int, b: int): int
  {
    if a < b then a else b
  }

  // ---------------------------------------------------------------------
  // Basic header (section 5.3.1.1)
  // ---------------------------------------------------------------------

  /** The decoded basic header: format, chunk stream id and its own length. */
  datatype BasicHeader = BasicHeader(fmt: nat, csid: nat, size: nat)

  /** The basic header at the front of `buf`, or None when its second or
      third byte has not arrived. The format is the top two bits; a low six
      bits of 0 or 1 announce one or two more bytes of id. */
  function DecodeBasicHeader(buf: seq<byte>): (r: Option<BasicHeader>)
    requires |buf| >= 1
    ensures r.None? <==> (buf[0] % 64 == 0 && |buf| < 2) || (buf[0] % 64 == 1 && |buf| < 3)
    ensures r.Some? ==> r.value.fmt < 4 && 1 <= r.value.size <= 3 && r.value.size <= |buf|
    ensures r.Some? ==> (r.value.size == 1 <==> 2 <= r.value.csid < 64)
    ensures r.Some? && r.value.size == 2 ==> 64 <= r.value.csid < 320
    ensures r.Some? && r.value.size == 3 ==> 64 <= r.value.csid < 65600
    ensures r.Some? ==> r.value.fmt == buf[0] / 64
    ensures r.Some? ==> r.value.size == (if buf[0] % 64 == 0 then 2 else if buf[0] % 64 == 1 then 3 else 1)
    ensures r.Some? && r.value.size == 1 ==> r.value.csid == buf[0] % 64
    ensures r.Some? && r.value.size == 2 ==> r.value.csid == 64 + buf[1] as int
    ensures r.Some? && r.value.size == 3 ==> r.value.csid == 64 + buf[1] as int + 256 * buf[2] as int
  {
    var fmt := buf[0] / 64;
    var low := buf[0] % 64;
    if low == 0 then
      if |buf| < 2 then None else Some(BasicHeader(fmt, 64 + buf[1] as int, 2))
    else if low == 1 then
      if |buf| < 3 then None else Some(BasicHeader(fmt, 64 + buf[1] as int + buf[2] as int * 256, 3))
    else
      Some(BasicHeader(fmt, low, 1))
  }

  /** Reference encoder: the shortest basic header for a format and an id. */
  function EncodeBasicHeader(fmt: nat, csid: nat): (s: seq<byte>)
    requires fmt < 4 && 2 <= csid < 65600
    ensures 1 <= |s| <= 3
  {
    if csid < 64 then [fmt * 64 + csid]
    else if csid < 320 then [fmt * 64, csid - 64]
    else [fmt * 64 + 1, (csid - 64) % 256, (csid - 64) / 256]
  }

  /** Every format and id survives encoding and decoding, whatever follows. */
  lemma BasicHeaderRoundTrip(fmt: nat, csid: nat, rest: seq<byte>)
    requires fmt < 4 && 2 <= csid < 65600
    ensures DecodeBasicHeader(EncodeBasicHeader(fmt, csid) + rest)
         == Some(BasicHeader(fmt, csid, |EncodeBasicHeader(fmt, csid)|))
  {
  }

  // ---------------------------------------------------------------------
  // Message header (section 5.3.1.2)
  // ---------------------------------------------------------------------

  /** The message stream id, copied byte for byte into a little-endian word. */
  function ReadSid(data: seq<byte>): (v: uint32)
    requires |data| >= 4
  {
    data[0] as int + data[1] as int * 0x100 + data[2] as int * 0x1_0000 + data[3] as int * 0x100_0000
  }

  function WriteSid(v: uint32): (s: seq<byte>)
    ensures |s| == 4
  {
    [v % 0x100, v / 0x100 % 0x100, v / 0x100 / 0x100 % 0x100, v / 0x100 / 0x100 / 0x100]
  }

  lemma {:induction false} ReadSidAfterWrite(v: uint32, rest: seq<byte>)
    ensures ReadSid(WriteSid(v) + rest) == v
  {
    var q1 := v / 0x100;
    var q2 := q1 / 0x100;
    assert v == q1 * 0x100 + v % 0x100;
    assert q1 == q2 * 0x100 + q1 % 0x100;
    assert q2 == (q2 / 0x100) * 0x100 + q2 % 0x100;
  }

  /** What the message header yields: the 24-bit timestamp field as read
      (`ts`, 0 for format 3), the timestamp of the chunk, and the length,
      type and stream id of its message. */
  datatype Fields = Fields(ts: uint32, timestamp: uint32, msgLen: uint32, msgType: byte, msgSid: uint32)

  /** The message header of format `fmt` at the front of `h`, given the
      channel's previous header and stored delta. Format 0 is absolute,
      format 1 inherits the stream id, format 2 also the length and type,
      format 3 everything, its timestamp advancing by the stored delta. */
  function MessageHeader(fmt: nat, prev: Header, delta: uint32, h: seq<byte>): (f: Fields)
    requires fmt < 4 && |h| >= HeaderSizes[fmt]
    ensures fmt < 3 ==> f.ts == ReadUint24(h)
    ensures fmt == 3 ==> f.ts == 0
  {
    if fmt == 0 then
      var ts := ReadUint24(h);
      Fields(ts, ts, ReadUint24(h[3..]), ReadUint8(h[6..]), ReadSid(h[7..]))
    else if fmt == 1 then
      var ts := ReadUint24(h);
      Fields(ts, (ts + prev.timestamp) % 0x1_0000_0000, ReadUint24(h[3..]), ReadUint8(h[6..]), prev.msgSid)
    else if fmt == 2 then
      var ts := ReadUint24(h);
      Fields(ts, (ts + prev.timestamp) % 0x1_0000_0000, prev.msgLen, prev.msgType, prev.msgSid)
    else
      Fields(0, (delta + prev.timestamp) % 0x1_0000_0000, prev.msgLen, prev.msgType, prev.msgSid)
  }

  // ---------------------------------------------------------------------
  // One chunk
  // ---------------------------------------------------------------------

  /** The outcome of one pass of the loop: need more bytes (nothing taken
      from the buffer, the tables as they were left), or `n` bytes consumed,
      with the message they completed, if any. */
  datatype Step = NeedMore(tables: Tables) | Consumed(n: nat, tables: Tables, done: Option<Packet>)

  /** Whether a chunk carries an extended timestamp: formats 0 to 2 when the
      24-bit field holds the marker, format 3 when the channel's last one did. */
  function UsesExtended(t: Tables, b: BasicHeader, f: Fields): bool
  {
    if b.fmt == 3 then ExtOf(t, b.csid) else f.ts == ExtendedMarker
  }

  /** The delta table after the message header: reset by format 0, set to
      the field by formats 1 and 2, kept by format 3. */
  function DeltasAfterHeader(t: Tables, b: BasicHeader, f: Fields): map<nat, uint32>
  {
    if b.fmt == 0 then t.deltas[b.csid := 0]
    else if b.fmt == 3 then t.deltas
    else t.deltas[b.csid := f.ts]
  }

  /** One pass of ParseMessage's loop over `buf` (at least two bytes): the
      basic header, and whether the message header after it is complete. */
  function ChunkStep(t: Tables, chunkSize: nat, buf: seq<byte>): (r: Step)
    requires |buf| >= 2
    ensures r.Consumed? ==> 1 <= r.n <= |buf|
  {
    match DecodeBasicHeader(buf)
    case None => NeedMore(t)
    case Some(b) =>
      if |buf| - b.size == 0 || |buf| - b.size < HeaderSizes[b.fmt] then NeedMore(t)
      else HeaderStep(t, chunkSize, buf, b)
  }

  /** The message header of a chunk whose basic header is `b`: the fields it
      gives, the delta and extended-timestamp flag it records. */
  function HeaderStep(t: Tables, chunkSize: nat, buf: seq<byte>, b: BasicHeader): (r: Step)
    requires b.fmt < 4 && b.size + HeaderSizes[b.fmt] <= |buf|
    ensures r.Consumed? ==> b.size + HeaderSizes[b.fmt] <= r.n <= |buf|
  {
    var prev := PrevHeader(t, b.csid);
    var f := MessageHeader(b.fmt, prev, DeltaOf(t, b.csid), buf[b.size..]);
    var ext := UsesExtended(t, b, f);
    var t1 := t.(deltas := DeltasAfterHeader(t, b, f), ext := t.ext[b.csid := ext]);
    ExtendedStep(t1, chunkSize, buf, b.size + HeaderSizes[b.fmt],
                 Header(b.csid, f.msgLen, f.msgSid, f.msgType, f.timestamp), ext, b.fmt != 0, prev.timestamp)
  }

  /** The extended timestamp, when the chunk has one (`ext`): four more
      bytes, which for formats 1 to 3 (`relative`) become the delta and are
      added to the previous timestamp `prevTs`, and for format 0 are the
      timestamp itself. */
  function ExtendedStep(t: Tables, chunkSize: nat, buf: seq<byte>, p: nat, h: Header,
                        ext: bool, relative: bool, prevTs: uint32): (r: Step)
    requires p <= |buf|
    ensures r.Consumed? ==> p <= r.n <= |buf|
  {
    if !ext then SliceStep(t, chunkSize, buf, p, h)
    else if |buf| - p < 4 then NeedMore(t)
    else if !relative then SliceStep(t, chunkSize, buf, p + 4, h.(timestamp := ReadUint32(buf[p..])))
    else
      var e := ReadUint32(buf[p..]);
      SliceStep(t.(deltas := t.deltas[h.csId := e]), chunkSize, buf, p + 4,
                h.(timestamp := (e + prevTs) % 0x1_0000_0000))
  }

  /** ExtendedStep as the source writes it: a format-0 chunk reads its four
      extended bytes and drops them, keeping the marker as its timestamp. */
  function ExtendedStepAsWritten(t: Tables, chunkSize: nat, buf: seq<byte>, p: nat, h: Header,
                                 ext: bool, relative: bool, prevTs: uint32): (r: Step)
    requires p <= |buf|
    ensures r.Consumed? ==> p <= r.n <= |buf|
  {
    if !ext then SliceStep(t, chunkSize, buf, p, h)
    else if |buf| - p < 4 then NeedMore(t)
    else if !relative then SliceStep(t, chunkSize, buf, p + 4, h)
    else
      var e := ReadUint32(buf[p..]);
      SliceStep(t.(deltas := t.deltas[h.csId := e]), chunkSize, buf, p + 4,
                h.(timestamp := (e + prevTs) % 0x1_0000_0000))
  }

  /** The packet a chunk with header `h` adds to: the channel's partial one,
      or a new one of the message's length; either way it takes `h`. */
  function PacketFor(t: Tables, h: Header): (p: Packet)
    ensures p.header == h
  {
    if h.csId in t.packets then t.packets[h.csId].(header := h) else Packet(h.msgLen, [], h)
  }

  /** The payload part of a chunk whose headers end at `p`: at most
      `chunkSize` bytes, and no more than the packet still lacks. A negative
      count, which a packet fuller than its length would give, compares as a
      huge unsigned value, so nothing is taken. */
  function SliceStep(t: Tables, chunkSize: nat, buf: seq<byte>, p: nat, h: Header): (r: Step)
    requires p <= |buf|
    ensures r.Consumed? ==> p <= r.n <= |buf|
  {
    var packet := PacketFor(t, h);
    var bytes := Min(packet.capacity - |packet.body|, chunkSize);
    if bytes < 0 || |buf| - p < bytes then
      NeedMore(t.(packets := t.packets[h.csId := packet]))
    else
      var grown := packet.(body := packet.body + buf[p..p + bytes]);
      var t2 := t.(headers := t.headers[h.csId := h]);
      if |grown.body| == grown.capacity then
        Consumed(p + bytes, t2.(packets := t.packets - {h.csId}), Some(grown))
      else
        Consumed(p + bytes, t2.(packets := t.packets[h.csId := grown]), None)
  }

  // ---------------------------------------------------------------------
  // The whole loop
  // ---------------------------------------------------------------------

  /** What ParseMessage leaves: the tables, the unread bytes and the
      messages completed, in order. */
  datatype Parsed = Parsed(tables: Tables, rest: seq<byte>, completed: seq<Packet>)

  /** ParseMessage: steps while more than one byte is buffered, until a
      chunk is incomplete. */
  function ParseAll(t: Tables, chunkSize: nat, buf: seq<byte>): (r: Parsed)
    ensures |r.rest| <= |buf|
    decreases |buf|
  {
    if |buf| <= 1 then Parsed(t, buf, [])
    else
      match ChunkStep(t, chunkSize, buf)
      case NeedMore(t1) => Parsed(t1, buf, [])
      case Consumed(n, t1, done) =>
        var r := ParseAll(t1, chunkSize, buf[n..]);
        Parsed(r.tables, r.rest, (if done.Some? then [done.value] else []) + r.completed)
  }

  /** One pass of the loop, seen from ParseAll. */
  lemma ParseAllUnfold(t: Tables, chunkSize: nat, buf: seq<byte>)
    requires |buf| >= 2
    ensures var step := ChunkStep(t, chunkSize, buf);
      && (step.NeedMore? ==> ParseAll(t, chunkSize, buf) == Parsed(step.tables, buf, []))
      && (step.Consumed? ==>
            var r := ParseAll(step.tables, chunkSize, buf[step.n..]);
            ParseAll(t, chunkSize, buf) == Parsed(r.tables, r.rest, (if step.done.Some? then [step.done.value] else []) + r.completed))
  {
  }

  // ---------------------------------------------------------------------
  // Properties
  // ---------------------------------------------------------------------

  /** What a step may leave: no packet holding more bytes than the message
      length it was created for, and a message handed on only once full. */
  predicate Sound(s: Step)
  {
    && Wf(s.tables)
    && (s.Consumed? && s.done.Some? ==> |s.done.value.body| == s.done.value.capacity)
  }

  /** The payload taken is at most what the packet still lacks. */
  lemma SliceStepSound(t: Tables, chunkSize: nat, buf: seq<byte>, p: nat, h: Header)
    requires p <= |buf| && Wf(t)
    ensures Sound(SliceStep(t, chunkSize, buf, p, h))
  {
  }

  lemma ExtendedStepSound(t: Tables, chunkSize: nat, buf: seq<byte>, p: nat, h: Header,
                          ext: bool, relative: bool, prevTs: uint32)
    requires p <= |buf| && Wf(t)
    ensures Sound(ExtendedStep(t, chunkSize, buf, p, h, ext, relative, prevTs))
  {
    if !ext {
      SliceStepSound(t, chunkSize, buf, p, h);
    } else if |buf| - p >= 4 {
      if !relative {
        SliceStepSound(t, chunkSize, buf, p + 4, h.(timestamp := ReadUint32(buf[p..])));
      } else {
        var e := ReadUint32(buf[p..]);
        SliceStepSound(t.(deltas := t.deltas[h.csId := e]), chunkSize, buf, p + 4,
                       h.(timestamp := (e + prevTs) % 0x1_0000_0000));
      }
    }
  }

  lemma HeaderStepSound(t: Tables, chunkSize: nat, buf: seq<byte>, b: BasicHeader)
    requires b.fmt < 4 && b.size + HeaderSizes[b.fmt] <= |buf| && Wf(t)
    ensures Sound(HeaderStep(t, chunkSize, buf, b))
  {
    var prev := PrevHeader(t, b.csid);
    var f := MessageHeader(b.fmt, prev, DeltaOf(t, b.csid), buf[b.size..]);
    var ext := UsesExtended(t, b, f);
    var t1 := t.(deltas := DeltasAfterHeader(t, b, f), ext := t.ext[b.csid := ext]);
    assert Wf(t1);
    ExtendedStepSound(t1, chunkSize, buf, b.size + HeaderSizes[b.fmt],
                      Header(b.csid, f.msgLen, f.msgSid, f.msgType, f.timestamp), ext, b.fmt != 0, prev.timestamp);
  }

  lemma ChunkStepSound(t: Tables, chunkSize: nat, buf: seq<byte>)
    requires |buf| >= 2 && Wf(t)
    ensures Sound(ChunkStep(t, chunkSize, buf))
  {
    match DecodeBasicHeader(buf)
    case None =>
    case Some(b) =>
      if |buf| - b.size > 0 && |buf| - b.size >= HeaderSizes[b.fmt] {
        HeaderStepSound(t, chunkSize, buf, b);
      }
  }

  /** ... and so does the whole loop: its tables stay well formed and every
      message it completes holds exactly its length in bytes. */
  lemma {:induction false} ParseAllSound(t: Tables, chunkSize: nat, buf: seq<byte>)
    requires Wf(t)
    ensures var r := ParseAll(t, chunkSize, buf);
      && Wf(r.tables)
      && forall i :: 0 <= i < |r.completed| ==> |r.completed[i].body| == r.completed[i].capacity
    decreases |buf|
  {
    if |buf| > 1 {
      ChunkStepSound(t, chunkSize, buf);
      var step := ChunkStep(t, chunkSize, buf);
      if step.Consumed? {
        ParseAllSound(step.tables, chunkSize, buf[step.n..]);
      }
    }
  }

  /** What the loop leaves unread is the tail of its input. */
  lemma {:induction false} ParseAllRestIsSuffix(t: Tables, chunkSize: nat, buf: seq<byte>)
    ensures var r := ParseAll(t, chunkSize, buf);
      r.rest == buf[|buf| - |r.rest|..]
    decreases |buf|
  {
    if |buf| > 1 {
      var step := ChunkStep(t, chunkSize, buf);
      if step.Consumed? {
        var rest := buf[step.n..];
        ParseAllRestIsSuffix(step.tables, chunkSize, rest);
        var r := ParseAll(step.tables, chunkSize, rest);
        assert rest[|rest| - |r.rest|..] == buf[|buf| - |r.rest|..];
      }
    }
  }
}
