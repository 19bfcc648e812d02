/** Properties of the inbound chunk parser of rtmp_chunk.dfy: what each
    message-header format inherits, how one chunk's payload is sized, that a
    chunk which has not fully arrived can be parsed again once more bytes
    come, and that one message sent as a format-0 chunk followed by format-3
    continuation chunks (section 5.3.2.1 of the Adobe RTMP 1.0 specification)
    is read back as exactly that message. */
module RtmpChunkLemmas {
  import opened BytesReader
  import opened RtmpChunk

  // ---------------------------------------------------------------------
  // A reference encoder
  // ---------------------------------------------------------------------

  /** The messages this encoder can frame: a chunk stream id with a basic
      header, a timestamp below the extended-timestamp marker and a body whose
      length fits the 24-bit length field. */
  predicate Encodable(h: Header, body: seq<byte>)
  {
    && 2 <= h.csId < 65600 && h.timestamp < ExtendedMarker
    && h.msgLen == |body| && |body| < 0x100_0000
  }

  /** The 11-byte format-0 message header of `h`. */
  function Fmt0Header(h: Header): (s: seq<byte>)
    requires h.timestamp < ExtendedMarker && h.msgLen < 0x100_0000
    ensures |s| == HeaderSizes[0]
  {
    WriteUint24(h.timestamp) + WriteUint24(h.msgLen) + [h.msgType] + WriteSid(h.msgSid)
  }

  /** A format-0 chunk of `h` carrying `payload`. */
  function Fmt0Chunk(h: Header, payload: seq<byte>): seq<byte>
    requires 2 <= h.csId < 65600 && h.timestamp < ExtendedMarker && h.msgLen < 0x100_0000
  {
    EncodeBasicHeader(0, h.csId) + Fmt0Header(h) + payload
  }

  /** A format-3 chunk of stream `csid` carrying `payload`. */
  function Fmt3Chunk(csid: nat, payload: seq<byte>): seq<byte>
    requires 2 <= csid < 65600
  {
    EncodeBasicHeader(3, csid) + payload
  }

  /** The rest of a body, cut into format-3 chunks of at most `chunkSize`. */
  function Continuations(csid: nat, rest: seq<byte>, chunkSize: nat): seq<byte>
    requires 2 <= csid < 65600 && chunkSize >= 1
    decreases |rest|
  {
    if rest == [] then []
    else
      var k := Min(chunkSize, |rest|);
      Fmt3Chunk(csid, rest[..k]) + Continuations(csid, rest[k..], chunkSize)
  }

  /** A whole message: its first chunk in format 0, the others in format 3. */
  function EncodeMessage(h: Header, body: seq<byte>, chunkSize: nat): seq<byte>
    requires Encodable(h, body) && chunkSize >= 1
  {
    var k := Min(chunkSize, |body|);
    Fmt0Chunk(h, body[..k]) + Continuations(h.csId, body[k..], chunkSize)
  }

  /** The tables once a message of header `h` has been read on its stream:
      `h` is the stream's previous header, its delta is 0, it has no
      extended timestamp and no partial packet. */
  function Settled(t: Tables, h: Header): Tables
  {
    Tables(t.headers[h.csId := h], t.packets - {h.csId}, t.deltas[h.csId := 0], t.ext[h.csId := false])
  }

  /** The same while the message is still arriving: the stream holds the
      packet of the first `i` bytes of `body`. */
  function Arriving(t: Tables, h: Header, body: seq<byte>, i: nat): Tables
    requires i <= |body|
  {
    Settled(t, h).(packets := t.packets[h.csId := Packet(|body|, body[..i], h)])
  }

  // ---------------------------------------------------------------------
  // What each format inherits
  // ---------------------------------------------------------------------

  /** Format 0 carries the whole header: the timestamp is absolute, the
      delta is reset, and with no extended timestamp the payload follows the
      11 bytes of message header. */
  lemma Format0Header(t: Tables, chunkSize: nat, buf: seq<byte>, b: BasicHeader)
    requires b.fmt == 0 && b.size + 11 <= |buf|
    requires ReadUint24(buf[b.size..]) != ExtendedMarker
    ensures HeaderStep(t, chunkSize, buf, b)
         == SliceStep(t.(deltas := t.deltas[b.csid := 0], ext := t.ext[b.csid := false]), chunkSize, buf, b.size + 11,
                      Header(b.csid, ReadUint24(buf[b.size + 3..]), ReadSid(buf[b.size + 7..]),
                             ReadUint8(buf[b.size + 6..]), ReadUint24(buf[b.size..])))
  {
  }

  /** Format 1 inherits the message stream id; its timestamp field is a
      delta, recorded for the stream and added to the previous timestamp. */
  lemma Format1Header(t: Tables, chunkSize: nat, buf: seq<byte>, b: BasicHeader)
    requires b.fmt == 1 && b.size + 7 <= |buf|
    requires ReadUint24(buf[b.size..]) != ExtendedMarker
    ensures var prev := PrevHeader(t, b.csid);
      var ts := ReadUint24(buf[b.size..]);
      HeaderStep(t, chunkSize, buf, b)
      == SliceStep(t.(deltas := t.deltas[b.csid := ts], ext := t.ext[b.csid := false]), chunkSize, buf, b.size + 7,
                   Header(b.csid, ReadUint24(buf[b.size + 3..]), prev.msgSid, ReadUint8(buf[b.size + 6..]),
                          (ts + prev.timestamp) % 0x1_0000_0000))
  {
  }

  /** Format 2 also inherits the length and the type. */
  lemma Format2Header(t: Tables, chunkSize: nat, buf: seq<byte>, b: BasicHeader)
    requires b.fmt == 2 && b.size + 3 <= |buf|
    requires ReadUint24(buf[b.size..]) != ExtendedMarker
    ensures var prev := PrevHeader(t, b.csid);
      var ts := ReadUint24(buf[b.size..]);
      HeaderStep(t, chunkSize, buf, b)
      == SliceStep(t.(deltas := t.deltas[b.csid := ts], ext := t.ext[b.csid := false]), chunkSize, buf, b.size + 3,
                   Header(b.csid, prev.msgLen, prev.msgSid, prev.msgType, (ts + prev.timestamp) % 0x1_0000_0000))
  {
  }

  /** Format 3 has no message header: everything is inherited and the
      timestamp advances by the stream's stored delta; the delta and the
      extended-timestamp flag are kept. */
  lemma Format3Header(t: Tables, chunkSize: nat, buf: seq<byte>, b: BasicHeader)
    requires b.fmt == 3 && b.size <= |buf| && !ExtOf(t, b.csid)
    ensures var prev := PrevHeader(t, b.csid);
      HeaderStep(t, chunkSize, buf, b)
      == SliceStep(t.(ext := t.ext[b.csid := false]), chunkSize, buf, b.size,
                   Header(b.csid, prev.msgLen, prev.msgSid, prev.msgType, (DeltaOf(t, b.csid) + prev.timestamp) % 0x1_0000_0000))
  {
  }

  /** A chunk whose message header has not fully arrived (or of which only
      the basic header has) stops the loop before anything is touched: the
      buffer and the tables stay as they were. */
  lemma ShortChunkTakesNothing(t: Tables, chunkSize: nat, buf: seq<byte>, b: BasicHeader)
    requires |buf| >= 2 && DecodeBasicHeader(buf) == Some(b)
    requires |buf| - b.size == 0 || |buf| - b.size < HeaderSizes[b.fmt]
    ensures ParseAll(t, chunkSize, buf) == Parsed(t, buf, [])
  {
  }

  /** The extended timestamp: for formats 1 to 3 the four bytes after the
      message header replace the stream's delta and are added to the
      previous timestamp; for format 0 they are the timestamp. */
  lemma ExtendedTimestamp(t: Tables, chunkSize: nat, buf: seq<byte>, p: nat, h: Header, prevTs: uint32)
    requires p + 4 <= |buf|
    ensures var e := ReadUint32(buf[p..]);
      && ExtendedStep(t, chunkSize, buf, p, h, true, true, prevTs)
         == SliceStep(t.(deltas := t.deltas[h.csId := e]), chunkSize, buf, p + 4,
                      h.(timestamp := (e + prevTs) % 0x1_0000_0000))
      && ExtendedStep(t, chunkSize, buf, p, h, true, false, prevTs)
         == SliceStep(t, chunkSize, buf, p + 4, h.(timestamp := e))
  {
  }

  /** The source's format-0 handling loses the extended timestamp: a
      format-0 chunk on stream 3 whose 24-bit field is the marker and whose
      extended field is 0x0100_0000 (an empty message) completes a message
      stamped 0xFF_FFFF, where the corrected step stamps it 0x0100_0000. */
  lemma Fmt0ExtendedTimestampDropped()
    ensures var buf: seq<byte> := [0x03, 0xFF, 0xFF, 0xFF, 0, 0, 0, 0x14, 0, 0, 0, 0, 0x01, 0, 0, 0];
      var h := Header(3, 0, 0, 0x14, 0xFF_FFFF);
      var t := EmptyTables.(deltas := map[3 := 0], ext := map[3 := true]);
      && ExtendedStepAsWritten(t, DefaultChunkSize, buf, 12, h, true, false, 0)
         == Consumed(16, t.(headers := map[3 := h]), Some(Packet(0, [], h)))
      && ExtendedStep(t, DefaultChunkSize, buf, 12, h, true, false, 0)
         == Consumed(16, t.(headers := map[3 := h.(timestamp := 0x0100_0000)]),
                     Some(Packet(0, [], h.(timestamp := 0x0100_0000))))
  {
  }

  /** A chunk's payload: the packet the stream's header selects takes the
      next min(what it lacks, chunk size) bytes when they are all there, and
      it leaves the stream exactly when it is then full. */
  lemma {:induction false} SliceTakes(t: Tables, chunkSize: nat, buf: seq<byte>, p: nat, h: Header)
    requires p <= |buf| && (h.csId in t.packets ==> |t.packets[h.csId].body| <= t.packets[h.csId].capacity)
    ensures var packet := PacketFor(t, h);
      var k := Min(packet.capacity - |packet.body|, chunkSize);
      var step := SliceStep(t, chunkSize, buf, p, h);
      && (step.Consumed? <==> p + k <= |buf|)
      && (step.Consumed? ==>
            && step.n == p + k && step.tables.headers == t.headers[h.csId := h]
            && (step.done.Some? <==> |packet.body| + k == packet.capacity)
            && (step.done.Some? ==> step.done.value == packet.(body := packet.body + buf[p..p + k])
                                    && h.csId !in step.tables.packets)
            && (step.done.None? ==> step.tables.packets[h.csId] == packet.(body := packet.body + buf[p..p + k])))
      && (step.NeedMore? ==> step.tables.packets[h.csId] == packet && step.tables.headers == t.headers)
  {
    var packet := PacketFor(t, h);
    assert |packet.body| <= packet.capacity by {
      if h.csId in t.packets {
        assert t.packets[h.csId].body == packet.body;
      }
    }
  }

  // ---------------------------------------------------------------------
  // Retrying a chunk that has not fully arrived
  // ---------------------------------------------------------------------

  /** Bytes after the basic header do not change it. */
  lemma DecodeExtends(buf: seq<byte>, more: seq<byte>)
    requires |buf| >= 1 && DecodeBasicHeader(buf).Some?
    ensures DecodeBasicHeader(buf + more) == DecodeBasicHeader(buf)
  {
    if buf[0] % 64 == 0 {
      assert (buf + more)[1] == buf[1];
    } else if buf[0] % 64 == 1 {
      assert (buf + more)[1] == buf[1] && (buf + more)[2] == buf[2];
    }
  }

  /** Bytes after the message header do not change it. */
  lemma MessageHeaderExtends(fmt: nat, prev: Header, delta: uint32, x: seq<byte>, more: seq<byte>)
    requires fmt < 4 && |x| >= HeaderSizes[fmt]
    ensures MessageHeader(fmt, prev, delta, x + more) == MessageHeader(fmt, prev, delta, x)
  {
    var y := x + more;
    if fmt < 3 {
      assert y[..3] == x[..3];
      ReadersReadOnlyTheirBytes(x, y, 3);
    }
    if fmt < 2 {
      assert y[3..][..3] == x[3..][..3];
      ReadersReadOnlyTheirBytes(x[3..], y[3..], 3);
      assert y[6..][..1] == x[6..][..1];
      ReadersReadOnlyTheirBytes(x[6..], y[6..], 1);
    }
    if fmt == 0 {
      assert y[7] == x[7] && y[8] == x[8] && y[9] == x[9] && y[10] == x[10];
    }
  }

  /** Storing the packet a header selects, with that header, and then
      taking the payload is the same as taking it directly. */
  lemma SliceRepeat(t: Tables, chunkSize: nat, buf: seq<byte>, p: nat, h: Header)
    requires p <= |buf|
    ensures SliceStep(t.(packets := t.packets[h.csId := PacketFor(t, h)]), chunkSize, buf, p, h)
         == SliceStep(t, chunkSize, buf, p, h)
  {
    var packet := PacketFor(t, h);
    var t1 := t.(packets := t.packets[h.csId := packet]);
    assert PacketFor(t1, h) == packet;
    assert t1.packets[h.csId := packet] == t.packets[h.csId := packet];
    assert t1.packets - {h.csId} == t.packets - {h.csId};
  }

  /** Where a chunk's headers lead when they have all arrived: the payload
      step, from the tables and the header they give. */
  function SliceTarget(t: Tables, buf: seq<byte>, b: BasicHeader): (r: (Tables, nat, Header))
    requires b.fmt < 4 && b.size + HeaderSizes[b.fmt] <= |buf|
    requires var f := MessageHeader(b.fmt, PrevHeader(t, b.csid), DeltaOf(t, b.csid), buf[b.size..]);
      UsesExtended(t, b, f) ==> b.size + HeaderSizes[b.fmt] + 4 <= |buf|
    ensures r.1 <= |buf|
  {
    var prev := PrevHeader(t, b.csid);
    var f := MessageHeader(b.fmt, prev, DeltaOf(t, b.csid), buf[b.size..]);
    var ext := UsesExtended(t, b, f);
    var t1 := t.(deltas := DeltasAfterHeader(t, b, f), ext := t.ext[b.csid := ext]);
    var p := b.size + HeaderSizes[b.fmt];
    var h := Header(b.csid, f.msgLen, f.msgSid, f.msgType, f.timestamp);
    if !ext then (t1, p, h)
    else
      var e := ReadUint32(buf[p..]);
      if b.fmt == 0 then (t1, p + 4, h.(timestamp := e))
      else (t1.(deltas := t1.deltas[b.csid := e]), p + 4, h.(timestamp := (e + prev.timestamp) % 0x1_0000_0000))
  }

  lemma HeaderStepToSlice(t: Tables, chunkSize: nat, buf: seq<byte>, b: BasicHeader)
    requires b.fmt < 4 && b.size + HeaderSizes[b.fmt] <= |buf|
    requires var f := MessageHeader(b.fmt, PrevHeader(t, b.csid), DeltaOf(t, b.csid), buf[b.size..]);
      UsesExtended(t, b, f) ==> b.size + HeaderSizes[b.fmt] + 4 <= |buf|
    ensures var r := SliceTarget(t, buf, b);
      HeaderStep(t, chunkSize, buf, b) == SliceStep(r.0, chunkSize, buf, r.1, r.2)
  {
  }

  /** A chunk whose headers have arrived but whose payload has not leaves
      tables from which the same chunk, once more bytes come, is read just
      as from the tables before. */
  lemma SliceRetry(t: Tables, chunkSize: nat, buf: seq<byte>, b: BasicHeader, more: seq<byte>)
    requires b.fmt < 4 && b.size + HeaderSizes[b.fmt] <= |buf|
    requires var f := MessageHeader(b.fmt, PrevHeader(t, b.csid), DeltaOf(t, b.csid), buf[b.size..]);
      UsesExtended(t, b, f) ==> b.size + HeaderSizes[b.fmt] + 4 <= |buf|
    ensures var r := SliceTarget(t, buf, b);
      var tn := r.0.(packets := r.0.packets[b.csid := PacketFor(r.0, r.2)]);
      SliceTarget(tn, buf + more, b) == (tn, r.1, r.2)
         && SliceTarget(t, buf + more, b) == r
  {
    var r := SliceTarget(t, buf, b);
    var tn := r.0.(packets := r.0.packets[b.csid := PacketFor(r.0, r.2)]);
    SliceTargetSettles(t, buf, b);
    SliceTargetExtends(tn, buf, b, more);
    SliceTargetExtends(t, buf, b, more);
  }

  /** Bytes after a chunk's headers do not change where they lead. */
  lemma SliceTargetExtends(t: Tables, buf: seq<byte>, b: BasicHeader, more: seq<byte>)
    requires b.fmt < 4 && b.size + HeaderSizes[b.fmt] <= |buf|
    requires var f := MessageHeader(b.fmt, PrevHeader(t, b.csid), DeltaOf(t, b.csid), buf[b.size..]);
      UsesExtended(t, b, f) ==> b.size + HeaderSizes[b.fmt] + 4 <= |buf|
    ensures SliceTarget(t, buf + more, b) == SliceTarget(t, buf, b)
  {
    var B := buf + more;
    var prev := PrevHeader(t, b.csid);
    var x := buf[b.size..];
    assert B[b.size..] == x + more;
    MessageHeaderExtends(b.fmt, prev, DeltaOf(t, b.csid), x, more);
    var f := MessageHeader(b.fmt, prev, DeltaOf(t, b.csid), x);
    var p := b.size + HeaderSizes[b.fmt];
    if UsesExtended(t, b, f) {
      assert B[p..][..4] == buf[p..][..4];
      ReadersReadOnlyTheirBytes(buf[p..], B[p..], 4);
    }
  }

  /** The tables a chunk's headers leave, with the stream's packet in
      place, lead the same chunk to the same place. */
  lemma SliceTargetSettles(t: Tables, buf: seq<byte>, b: BasicHeader)
    requires b.fmt < 4 && b.size + HeaderSizes[b.fmt] <= |buf|
    requires var f := MessageHeader(b.fmt, PrevHeader(t, b.csid), DeltaOf(t, b.csid), buf[b.size..]);
      UsesExtended(t, b, f) ==> b.size + HeaderSizes[b.fmt] + 4 <= |buf|
    ensures var r := SliceTarget(t, buf, b);
      var tn := r.0.(packets := r.0.packets[b.csid := PacketFor(r.0, r.2)]);
      var f := MessageHeader(b.fmt, PrevHeader(t, b.csid), DeltaOf(t, b.csid), buf[b.size..]);
      var fn := MessageHeader(b.fmt, PrevHeader(tn, b.csid), DeltaOf(tn, b.csid), buf[b.size..]);
      && UsesExtended(tn, b, fn) == UsesExtended(t, b, f)
      && SliceTarget(tn, buf, b) == (tn, r.1, r.2)
  {
    var f := MessageHeader(b.fmt, PrevHeader(t, b.csid), DeltaOf(t, b.csid), buf[b.size..]);
    if b.fmt == 3 {
      SettlesContinuation(t, buf, b);
    } else if !UsesExtended(t, b, f) {
      SettlesPlain(t, buf, b);
    } else if b.fmt == 0 {
      SettlesAbsolute(t, buf, b);
    } else {
      SettlesDelta(t, buf, b);
    }
  }

  /** The same for a format-3 header, which repeats the stream's last delta. */
  lemma SettlesContinuation(t: Tables, buf: seq<byte>, b: BasicHeader)
    requires b.fmt < 4 && b.size + HeaderSizes[b.fmt] <= |buf|
    requires var f := MessageHeader(b.fmt, PrevHeader(t, b.csid), DeltaOf(t, b.csid), buf[b.size..]);
      UsesExtended(t, b, f) ==> b.size + HeaderSizes[b.fmt] + 4 <= |buf|
    requires b.fmt == 3
    ensures var r := SliceTarget(t, buf, b);
      var tn := r.0.(packets := r.0.packets[b.csid := PacketFor(r.0, r.2)]);
      var f := MessageHeader(b.fmt, PrevHeader(t, b.csid), DeltaOf(t, b.csid), buf[b.size..]);
      var fn := MessageHeader(b.fmt, PrevHeader(tn, b.csid), DeltaOf(tn, b.csid), buf[b.size..]);
      && UsesExtended(tn, b, fn) == UsesExtended(t, b, f)
      && SliceTarget(tn, buf, b) == (tn, r.1, r.2)
  {
    var prev := PrevHeader(t, b.csid);
    var x := buf[b.size..];
    var f := MessageHeader(b.fmt, prev, DeltaOf(t, b.csid), x);
    var p := b.size + HeaderSizes[b.fmt];
    var r := SliceTarget(t, buf, b);
    var tn := r.0.(packets := r.0.packets[b.csid := PacketFor(r.0, r.2)]);
    var ext := UsesExtended(t, b, f);
    assert tn.ext[b.csid := ext] == tn.ext;
    var f2 := MessageHeader(b.fmt, prev, DeltaOf(tn, b.csid), x);
    assert UsesExtended(tn, b, f2) == ext;
    assert DeltasAfterHeader(tn, b, f2) == tn.deltas;
    if ext {
      var e := ReadUint32(buf[p..]);
      assert tn.deltas[b.csid := e] == tn.deltas;
      assert f2.(timestamp := f.timestamp) == f;
    } else {
      assert f2 == f;
    }
  }

  /** ... for a header of format 0, 1 or 2 without an extended timestamp, */
  lemma SettlesPlain(t: Tables, buf: seq<byte>, b: BasicHeader)
    requires b.fmt < 4 && b.size + HeaderSizes[b.fmt] <= |buf|
    requires var f := MessageHeader(b.fmt, PrevHeader(t, b.csid), DeltaOf(t, b.csid), buf[b.size..]);
      UsesExtended(t, b, f) ==> b.size + HeaderSizes[b.fmt] + 4 <= |buf|
    requires b.fmt != 3 && !UsesExtended(t, b, MessageHeader(b.fmt, PrevHeader(t, b.csid), DeltaOf(t, b.csid), buf[b.size..]))
    ensures var r := SliceTarget(t, buf, b);
      var tn := r.0.(packets := r.0.packets[b.csid := PacketFor(r.0, r.2)]);
      var f := MessageHeader(b.fmt, PrevHeader(t, b.csid), DeltaOf(t, b.csid), buf[b.size..]);
      var fn := MessageHeader(b.fmt, PrevHeader(tn, b.csid), DeltaOf(tn, b.csid), buf[b.size..]);
      && UsesExtended(tn, b, fn) == UsesExtended(t, b, f)
      && SliceTarget(tn, buf, b) == (tn, r.1, r.2)
  {
    var prev := PrevHeader(t, b.csid);
    var x := buf[b.size..];
    var f := MessageHeader(b.fmt, prev, DeltaOf(t, b.csid), x);
    var p := b.size + HeaderSizes[b.fmt];
    var r := SliceTarget(t, buf, b);
    var tn := r.0.(packets := r.0.packets[b.csid := PacketFor(r.0, r.2)]);
    var ext := UsesExtended(t, b, f);
    assert tn.ext[b.csid := ext] == tn.ext;
    var f2 := MessageHeader(b.fmt, prev, DeltaOf(tn, b.csid), x);
    assert UsesExtended(tn, b, f2) == ext;
    assert f2 == f;
    assert DeltasAfterHeader(tn, b, f2) == tn.deltas;
  }

  /** ... for a format-0 header with an extended timestamp, */
  lemma SettlesAbsolute(t: Tables, buf: seq<byte>, b: BasicHeader)
    requires b.fmt < 4 && b.size + HeaderSizes[b.fmt] <= |buf|
    requires var f := MessageHeader(b.fmt, PrevHeader(t, b.csid), DeltaOf(t, b.csid), buf[b.size..]);
      UsesExtended(t, b, f) ==> b.size + HeaderSizes[b.fmt] + 4 <= |buf|
    requires b.fmt == 0 && UsesExtended(t, b, MessageHeader(b.fmt, PrevHeader(t, b.csid), DeltaOf(t, b.csid), buf[b.size..]))
    ensures var r := SliceTarget(t, buf, b);
      var tn := r.0.(packets := r.0.packets[b.csid := PacketFor(r.0, r.2)]);
      var f := MessageHeader(b.fmt, PrevHeader(t, b.csid), DeltaOf(t, b.csid), buf[b.size..]);
      var fn := MessageHeader(b.fmt, PrevHeader(tn, b.csid), DeltaOf(tn, b.csid), buf[b.size..]);
      && UsesExtended(tn, b, fn) == UsesExtended(t, b, f)
      && SliceTarget(tn, buf, b) == (tn, r.1, r.2)
  {
    var prev := PrevHeader(t, b.csid);
    var x := buf[b.size..];
    var f := MessageHeader(b.fmt, prev, DeltaOf(t, b.csid), x);
    var p := b.size + HeaderSizes[b.fmt];
    var r := SliceTarget(t, buf, b);
    var tn := r.0.(packets := r.0.packets[b.csid := PacketFor(r.0, r.2)]);
    var ext := UsesExtended(t, b, f);
    assert tn.ext[b.csid := ext] == tn.ext;
    var f2 := MessageHeader(b.fmt, prev, DeltaOf(tn, b.csid), x);
    assert UsesExtended(tn, b, f2) == ext;
    assert f2 == f;
    assert DeltasAfterHeader(tn, b, f2) == tn.deltas;
  }

  /** ... and for a format-1 or format-2 header with an extended delta. */
  lemma SettlesDelta(t: Tables, buf: seq<byte>, b: BasicHeader)
    requires b.fmt < 4 && b.size + HeaderSizes[b.fmt] <= |buf|
    requires var f := MessageHeader(b.fmt, PrevHeader(t, b.csid), DeltaOf(t, b.csid), buf[b.size..]);
      UsesExtended(t, b, f) ==> b.size + HeaderSizes[b.fmt] + 4 <= |buf|
    requires (b.fmt == 1 || b.fmt == 2) && UsesExtended(t, b, MessageHeader(b.fmt, PrevHeader(t, b.csid), DeltaOf(t, b.csid), buf[b.size..]))
    ensures var r := SliceTarget(t, buf, b);
      var tn := r.0.(packets := r.0.packets[b.csid := PacketFor(r.0, r.2)]);
      var f := MessageHeader(b.fmt, PrevHeader(t, b.csid), DeltaOf(t, b.csid), buf[b.size..]);
      var fn := MessageHeader(b.fmt, PrevHeader(tn, b.csid), DeltaOf(tn, b.csid), buf[b.size..]);
      && UsesExtended(tn, b, fn) == UsesExtended(t, b, f)
      && SliceTarget(tn, buf, b) == (tn, r.1, r.2)
  {
    var prev := PrevHeader(t, b.csid);
    var x := buf[b.size..];
    var f := MessageHeader(b.fmt, prev, DeltaOf(t, b.csid), x);
    var p := b.size + HeaderSizes[b.fmt];
    var r := SliceTarget(t, buf, b);
    var tn := r.0.(packets := r.0.packets[b.csid := PacketFor(r.0, r.2)]);
    var ext := UsesExtended(t, b, f);
    assert tn.ext[b.csid := ext] == tn.ext;
    var f2 := MessageHeader(b.fmt, prev, DeltaOf(tn, b.csid), x);
    assert UsesExtended(tn, b, f2) == ext;
    assert f2 == f;
    assert tn.deltas[b.csid := f.ts][b.csid := ReadUint32(buf[p..])] == tn.deltas;
  }

  /** Retrying after a need-more: the tables a chunk that has not fully
      arrived leaves behind (a stream's delta, extended flag or partial
      packet) make no difference to reading that chunk again once more
      bytes have arrived. */
  lemma {:induction false} RetryAfterNeedMore(t: Tables, chunkSize: nat, buf: seq<byte>, more: seq<byte>)
    requires |buf| >= 2 && ChunkStep(t, chunkSize, buf).NeedMore?
    ensures ChunkStep(ChunkStep(t, chunkSize, buf).tables, chunkSize, buf + more) == ChunkStep(t, chunkSize, buf + more)
  {
    match DecodeBasicHeader(buf)
    case None =>
    case Some(b) =>
      if |buf| - b.size > 0 && |buf| - b.size >= HeaderSizes[b.fmt] {
        var B := buf + more;
        DecodeExtends(buf, more);
        ChunkStepDecoded(t, chunkSize, buf, b);
        var tn := ChunkStep(t, chunkSize, buf).tables;
        ChunkStepDecoded(tn, chunkSize, B, b);
        ChunkStepDecoded(t, chunkSize, B, b);
        var prev := PrevHeader(t, b.csid);
        var f := MessageHeader(b.fmt, prev, DeltaOf(t, b.csid), buf[b.size..]);
        var p := b.size + HeaderSizes[b.fmt];
        if UsesExtended(t, b, f) && |buf| - p < 4 {
          HeaderRetryExtended(t, chunkSize, buf, b, more);
        } else {
          HeaderStepToSlice(t, chunkSize, buf, b);
          var r := SliceTarget(t, buf, b);
          SliceRetry(t, chunkSize, buf, b, more);
          assert tn == r.0.(packets := r.0.packets[b.csid := PacketFor(r.0, r.2)]);
          HeaderStepToSlice(tn, chunkSize, B, b);
          HeaderStepToSlice(t, chunkSize, B, b);
          SliceRepeat(r.0, chunkSize, B, r.1, r.2);
        }
      }
  }

  /** The same when it is the extended timestamp that has not arrived: the
      tables left are those the message header set. */
  lemma {:induction false} HeaderRetryExtended(t: Tables, chunkSize: nat, buf: seq<byte>, b: BasicHeader, more: seq<byte>)
    requires b.fmt < 4 && b.size + HeaderSizes[b.fmt] <= |buf|
    requires var f := MessageHeader(b.fmt, PrevHeader(t, b.csid), DeltaOf(t, b.csid), buf[b.size..]);
      UsesExtended(t, b, f) && |buf| - (b.size + HeaderSizes[b.fmt]) < 4
    ensures HeaderStep(HeaderStep(t, chunkSize, buf, b).tables, chunkSize, buf + more, b) == HeaderStep(t, chunkSize, buf + more, b)
  {
    var B := buf + more;
    var prev := PrevHeader(t, b.csid);
    var x := buf[b.size..];
    assert B[b.size..] == x + more;
    var f := MessageHeader(b.fmt, prev, DeltaOf(t, b.csid), x);
    MessageHeaderExtends(b.fmt, prev, DeltaOf(t, b.csid), x, more);
    var t1 := t.(deltas := DeltasAfterHeader(t, b, f), ext := t.ext[b.csid := true]);
    assert HeaderStep(t, chunkSize, buf, b).tables == t1;
    MessageHeaderExtends(b.fmt, prev, DeltaOf(t1, b.csid), x, more);
    var f2 := MessageHeader(b.fmt, prev, DeltaOf(t1, b.csid), x);
    assert f2 == f;
    assert t1.ext[b.csid := true] == t1.ext;
    assert DeltasAfterHeader(t1, b, f) == t1.deltas;
  }

  // ---------------------------------------------------------------------
  // Round trip
  // ---------------------------------------------------------------------

  /** The headers of a message's first chunk: format 0 gives back every
      field of `h`, resets the delta and clears the extended flag. */
  lemma {:induction false} FirstChunkHeaders(t: Tables, chunkSize: nat, h: Header, buf: seq<byte>, b: BasicHeader)
    requires 2 <= h.csId < 65600 && h.timestamp < ExtendedMarker && h.msgLen < 0x100_0000
    requires |buf| >= 1 && DecodeBasicHeader(buf) == Some(b) && b.fmt == 0 && b.csid == h.csId
    requires b.size + 11 <= |buf| && buf[b.size..b.size + 11] == Fmt0Header(h)
    ensures ChunkStep(t, chunkSize, buf)
         == SliceStep(t.(deltas := t.deltas[h.csId := 0], ext := t.ext[h.csId := false]), chunkSize, buf, b.size + 11, h)
  {
    Fmt0Fields(h, buf, b.size);
    ChunkStepDecoded(t, chunkSize, buf, b);
    Format0Header(t, chunkSize, buf, b);
    assert Header(b.csid, ReadUint24(buf[b.size + 3..]), ReadSid(buf[b.size + 7..]),
                  ReadUint8(buf[b.size + 6..]), ReadUint24(buf[b.size..])) == h;
  }

  /** The fields of a format-0 message header read back from where it was
      written. */
  lemma Fmt0Fields(h: Header, buf: seq<byte>, q: nat)
    requires h.timestamp < ExtendedMarker && h.msgLen < 0x100_0000
    requires q + 11 <= |buf| && buf[q..q + 11] == Fmt0Header(h)
    ensures ReadUint24(buf[q..]) == h.timestamp && ReadUint24(buf[q + 3..]) == h.msgLen
    ensures ReadUint8(buf[q + 6..]) == h.msgType && ReadSid(buf[q + 7..]) == h.msgSid
  {
    var rest := buf[q..];
    assert rest[..11] == Fmt0Header(h);
    assert rest == WriteUint24(h.timestamp) + rest[3..];
    ReadAfterWrite24(h.timestamp, rest[3..]);
    assert rest[3..] == WriteUint24(h.msgLen) + rest[6..];
    ReadAfterWrite24(h.msgLen, rest[6..]);
    assert rest[7..] == WriteSid(h.msgSid) + rest[11..];
    ReadSidAfterWrite(h.msgSid, rest[11..]);
    assert ReadUint8(rest[6..]) == h.msgType;
    assert buf[q + 3..] == rest[3..] && buf[q + 6..] == rest[6..] && buf[q + 7..] == rest[7..];
  }

  /** Once its basic header is decoded and its message header has arrived,
      a chunk is what its message header makes of it. */
  lemma ChunkStepDecoded(t: Tables, chunkSize: nat, buf: seq<byte>, b: BasicHeader)
    requires |buf| >= 2 && DecodeBasicHeader(buf) == Some(b)
    requires b.size < |buf| && b.size + HeaderSizes[b.fmt] <= |buf|
    ensures ChunkStep(t, chunkSize, buf) == HeaderStep(t, chunkSize, buf, b)
  {
  }

  /** A chunk's payload of `k` bytes, all there, for a packet that lacks
      at least that many: the stream's header becomes `h`, and the grown
      packet either stays or, once full, leaves the stream. */
  lemma SliceFills(t: Tables, chunkSize: nat, buf: seq<byte>, p: nat, h: Header, partial: seq<byte>, k: nat)
    requires PacketFor(t, h) == Packet(h.msgLen, partial, h)
    requires k == Min(h.msgLen - |partial|, chunkSize) && 0 <= k && p + k <= |buf|
    ensures var grown := Packet(h.msgLen, partial + buf[p..p + k], h);
      SliceStep(t, chunkSize, buf, p, h)
      == if |partial| + k == h.msgLen then
           Consumed(p + k, t.(headers := t.headers[h.csId := h], packets := t.packets - {h.csId}), Some(grown))
         else Consumed(p + k, t.(headers := t.headers[h.csId := h], packets := t.packets[h.csId := grown]), None)
  {
  }

  /** A message's first chunk, given where its basic header ends: on a
      stream with no partial packet it starts the message, and completes it
      when the body fits in one chunk. */
  lemma {:induction false} FirstChunkStep(t: Tables, chunkSize: nat, h: Header, body: seq<byte>,
                                          buf: seq<byte>, b: BasicHeader, tail: seq<byte>)
    requires Encodable(h, body) && chunkSize >= 1 && h.csId !in t.packets
    requires |buf| >= 1 && DecodeBasicHeader(buf) == Some(b) && b.fmt == 0 && b.csid == h.csId
    requires b.size <= |buf| && buf[b.size..] == Fmt0Header(h) + body[..Min(chunkSize, |body|)] + tail
    ensures var k := Min(chunkSize, |body|);
      ChunkStep(t, chunkSize, buf)
      == if k == |body| then Consumed(|buf| - |tail|, Settled(t, h), Some(Packet(|body|, body, h)))
         else Consumed(|buf| - |tail|, Arriving(t, h, body, k), None)
  {
    var k := Min(chunkSize, |body|);
    var p := b.size + 11;
    HeaderThenPayload(buf, b.size, Fmt0Header(h), body[..k], tail);
    FirstChunkHeaders(t, chunkSize, h, buf, b);
    FirstSlice(t, chunkSize, h, body, buf, p, |buf| - |tail|);
  }

  /** The payload of a message's first chunk, on a stream just reset by its
      format-0 header. */
  lemma FirstSlice(t: Tables, chunkSize: nat, h: Header, body: seq<byte>, buf: seq<byte>, p: nat, end: nat)
    requires Encodable(h, body) && chunkSize >= 1 && h.csId !in t.packets
    requires end == p + Min(chunkSize, |body|) <= |buf| && buf[p..end] == body[..Min(chunkSize, |body|)]
    ensures var k := Min(chunkSize, |body|);
      SliceStep(t.(deltas := t.deltas[h.csId := 0], ext := t.ext[h.csId := false]), chunkSize, buf, p, h)
      == if k == |body| then Consumed(end, Settled(t, h), Some(Packet(|body|, body, h)))
         else Consumed(end, Arriving(t, h, body, k), None)
  {
    var k := Min(chunkSize, |body|);
    var csid := h.csId;
    var t1 := t.(deltas := t.deltas[csid := 0], ext := t.ext[csid := false]);
    SliceFills(t1, chunkSize, buf, p, h, [], k);
    assert [] + buf[p..p + k] == body[..k];
    if k == |body| {
      assert body[..k] == body;
      assert t1.(headers := t1.headers[csid := h], packets := t1.packets - {csid}) == Settled(t, h);
    } else {
      assert t1.(headers := t1.headers[csid := h], packets := t1.packets[csid := Packet(|body|, body[..k], h)])
          == Arriving(t, h, body, k);
    }
  }

  /** Where a header, a payload and a tail lie in a buffer that holds them
      from `q` on. */
  lemma HeaderThenPayload(buf: seq<byte>, q: nat, hdr: seq<byte>, pay: seq<byte>, tail: seq<byte>)
    requires q <= |buf| && buf[q..] == hdr + pay + tail
    ensures buf[q..q + |hdr|] == hdr && buf[q + |hdr|..q + |hdr| + |pay|] == pay
    ensures q + |hdr| + |pay| == |buf| - |tail|
  {
    assert buf[q..q + |hdr|] == buf[q..][..|hdr|];
    assert buf[q + |hdr|..q + |hdr| + |pay|] == buf[q..][|hdr|..|hdr| + |pay|];
  }

  /** The headers of a continuation chunk: format 3 on a stream whose last
      header is `h`, with a zero delta and no extended timestamp, gives back
      `h` and changes no table. */
  lemma ContinuationHeaders(t: Tables, chunkSize: nat, h: Header, buf: seq<byte>, b: BasicHeader)
    requires |buf| >= 2 && DecodeBasicHeader(buf) == Some(b) && b.fmt == 3 && b.csid == h.csId && b.size < |buf|
    requires PrevHeader(t, h.csId) == h && DeltaOf(t, h.csId) == 0 && h.csId in t.ext && !t.ext[h.csId]
    ensures ChunkStep(t, chunkSize, buf) == SliceStep(t, chunkSize, buf, b.size, h)
  {
    ChunkStepDecoded(t, chunkSize, buf, b);
    Format3Header(t, chunkSize, buf, b);
    assert t.ext[h.csId := false] == t.ext;
  }

  /** A continuation chunk, given where its basic header ends: the
      stream's packet takes the next slice of the body, and the message is
      complete with its last slice. */
  lemma {:induction false} ContinuationStep(t: Tables, chunkSize: nat, h: Header, body: seq<byte>, i: nat,
                                            buf: seq<byte>, b: BasicHeader, tail: seq<byte>)
    requires Encodable(h, body) && chunkSize >= 1 && i < |body|
    requires |buf| >= 1 && DecodeBasicHeader(buf) == Some(b) && b.fmt == 3 && b.csid == h.csId
    requires b.size <= |buf| && buf[b.size..] == body[i..i + Min(chunkSize, |body| - i)] + tail
    ensures var k := Min(chunkSize, |body| - i);
      ChunkStep(Arriving(t, h, body, i), chunkSize, buf)
      == if i + k == |body| then Consumed(|buf| - |tail|, Settled(t, h), Some(Packet(|body|, body, h)))
         else Consumed(|buf| - |tail|, Arriving(t, h, body, i + k), None)
  {
    var k := Min(chunkSize, |body| - i);
    SliceOfSuffix(buf, b.size, body[i..i + k], tail);
    ContinuationHeaders(Arriving(t, h, body, i), chunkSize, h, buf, b);
    ContinuationSlice(t, chunkSize, h, body, i, buf, b.size, |buf| - |tail|);
  }

  /** The payload of a continuation chunk: the next slice of the body. */
  lemma ContinuationSlice(t: Tables, chunkSize: nat, h: Header, body: seq<byte>, i: nat, buf: seq<byte>, p: nat, end: nat)
    requires Encodable(h, body) && chunkSize >= 1 && i < |body|
    requires end == p + Min(chunkSize, |body| - i) <= |buf| && buf[p..end] == body[i..i + Min(chunkSize, |body| - i)]
    ensures var k := Min(chunkSize, |body| - i);
      SliceStep(Arriving(t, h, body, i), chunkSize, buf, p, h)
      == if i + k == |body| then Consumed(end, Settled(t, h), Some(Packet(|body|, body, h)))
         else Consumed(end, Arriving(t, h, body, i + k), None)
  {
    var k := Min(chunkSize, |body| - i);
    var csid := h.csId;
    var ta := Arriving(t, h, body, i);
    PrefixGrows(body, i, k);
    SliceFills(ta, chunkSize, buf, p, h, body[..i], k);
    var grown := Packet(|body|, body[..i] + buf[p..p + k], h);
    assert grown == Packet(|body|, body[..i + k], h);
    assert ta.headers[csid := h] == ta.headers;
    if i + k == |body| {
      assert body[..i + k] == body;
      assert ta.packets - {csid} == t.packets - {csid};
      assert ta.(headers := ta.headers[csid := h], packets := ta.packets - {csid}) == Settled(t, h);
    } else {
      assert ta.packets[csid := grown] == t.packets[csid := grown];
      assert ta.(headers := ta.headers[csid := h], packets := ta.packets[csid := grown]) == Arriving(t, h, body, i + k);
    }
  }

  lemma SliceOfSuffix(buf: seq<byte>, p: nat, x: seq<byte>, tail: seq<byte>)
    requires p <= |buf| && buf[p..] == x + tail
    ensures buf[p..p + |x|] == x
  {
    assert buf[p..p + |x|] == buf[p..][..|x|];
  }

  lemma PrefixGrows(body: seq<byte>, i: nat, k: nat)
    requires i + k <= |body|
    ensures body[..i] + body[i..i + k] == body[..i + k]
  {
  }

  /** ParseAll after a step that consumed `n` bytes. */
  lemma ParseAllAfter(t: Tables, chunkSize: nat, buf: seq<byte>, n: nat, t1: Tables, done: Option<Packet>)
    requires |buf| >= 2 && ChunkStep(t, chunkSize, buf) == Consumed(n, t1, done)
    ensures var r := ParseAll(t1, chunkSize, buf[n..]);
      ParseAll(t, chunkSize, buf) == Parsed(r.tables, r.rest, (if done.Some? then [done.value] else []) + r.completed)
  {
    ParseAllUnfold(t, chunkSize, buf);
  }

  /** The continuation chunks of a message whose first `i` bytes have
      arrived deliver the rest, and the message, and leave nothing. */
  lemma {:induction false} ContinuationsParse(t: Tables, chunkSize: nat, h: Header, body: seq<byte>, i: nat)
    requires Encodable(h, body) && chunkSize >= 1 && i < |body|
    ensures ParseAll(Arriving(t, h, body, i), chunkSize, Continuations(h.csId, body[i..], chunkSize))
         == Parsed(Settled(t, h), [], [Packet(|body|, body, h)])
    decreases |body| - i
  {
    var j := i + Min(chunkSize, |body| - i);
    var buf := Continuations(h.csId, body[i..], chunkSize);
    var next := Continuations(h.csId, body[j..], chunkSize);
    var n := |buf| - |next|;
    ContinuationChunk(t, chunkSize, h, body, i);
    if j < |body| {
      ParseAllAfter(Arriving(t, h, body, i), chunkSize, buf, n, Arriving(t, h, body, j), None);
      ContinuationsParse(t, chunkSize, h, body, j);
      assert [] + [Packet(|body|, body, h)] == [Packet(|body|, body, h)];
    } else {
      ParseAllAfter(Arriving(t, h, body, i), chunkSize, buf, n, Settled(t, h), Some(Packet(|body|, body, h)));
      assert [Packet(|body|, body, h)] + [] == [Packet(|body|, body, h)];
    }
  }

  /** The first of the continuation chunks from byte `i` on: where it ends,
      and what it does. */
  lemma ContinuationChunk(t: Tables, chunkSize: nat, h: Header, body: seq<byte>, i: nat)
    requires Encodable(h, body) && chunkSize >= 1 && i < |body|
    ensures var j := i + Min(chunkSize, |body| - i);
      var buf := Continuations(h.csId, body[i..], chunkSize);
      var next := Continuations(h.csId, body[j..], chunkSize);
      && |buf| >= 2 && |next| <= |buf| && buf[|buf| - |next|..] == next
      && (j == |body| ==> next == [])
      && ChunkStep(Arriving(t, h, body, i), chunkSize, buf)
         == if j == |body| then Consumed(|buf| - |next|, Settled(t, h), Some(Packet(|body|, body, h)))
            else Consumed(|buf| - |next|, Arriving(t, h, body, j), None)
  {
    var k := Min(chunkSize, |body| - i);
    var j := i + k;
    var payload := body[i..][..k];
    var next := Continuations(h.csId, body[j..], chunkSize);
    assert body[i..][k..] == body[j..];
    assert payload == body[i..j];
    var buf := Continuations(h.csId, body[i..], chunkSize);
    var bh := EncodeBasicHeader(3, h.csId);
    assert buf == bh + (payload + next);
    assert |payload| == k >= 1 && |bh| >= 1;
    assert |buf| == |bh| + k + |next|;
    BasicHeaderRoundTrip(3, h.csId, payload + next);
    var b := BasicHeader(3, h.csId, |bh|);
    assert buf[b.size..] == payload + next;
    ContinuationStep(t, chunkSize, h, body, i, buf, b, next);
    assert buf[|buf| - |next|..] == next;
  }

  /** Round trip: a message framed as one format-0 chunk and its format-3
      continuations is read back as exactly that message, on a stream with no
      partial packet, consuming every byte; the stream is left with the
      message's header, a zero delta and no partial packet. */
  lemma {:induction false} EncodeMessageRoundTrip(t: Tables, chunkSize: nat, h: Header, body: seq<byte>)
    requires Encodable(h, body) && chunkSize >= 1 && h.csId !in t.packets
    ensures ParseAll(t, chunkSize, EncodeMessage(h, body, chunkSize))
         == Parsed(Settled(t, h), [], [Packet(|body|, body, h)])
  {
    var k := Min(chunkSize, |body|);
    var buf := EncodeMessage(h, body, chunkSize);
    var tail := Continuations(h.csId, body[k..], chunkSize);
    var n := |buf| - |tail|;
    FirstChunk(t, chunkSize, h, body);
    if k < |body| {
      ParseAllAfter(t, chunkSize, buf, n, Arriving(t, h, body, k), None);
      ContinuationsParse(t, chunkSize, h, body, k);
      assert [] + [Packet(|body|, body, h)] == [Packet(|body|, body, h)];
    } else {
      ParseAllAfter(t, chunkSize, buf, n, Settled(t, h), Some(Packet(|body|, body, h)));
      assert [Packet(|body|, body, h)] + [] == [Packet(|body|, body, h)];
    }
  }

  /** The first chunk of an encoded message: where it ends, and what it
      does. */
  lemma FirstChunk(t: Tables, chunkSize: nat, h: Header, body: seq<byte>)
    requires Encodable(h, body) && chunkSize >= 1 && h.csId !in t.packets
    ensures var k := Min(chunkSize, |body|);
      var buf := EncodeMessage(h, body, chunkSize);
      var tail := Continuations(h.csId, body[k..], chunkSize);
      && |buf| >= 2 && |tail| <= |buf| && buf[|buf| - |tail|..] == tail
      && (k == |body| ==> tail == [])
      && ChunkStep(t, chunkSize, buf)
         == if k == |body| then Consumed(|buf| - |tail|, Settled(t, h), Some(Packet(|body|, body, h)))
            else Consumed(|buf| - |tail|, Arriving(t, h, body, k), None)
  {
    var k := Min(chunkSize, |body|);
    var tail := Continuations(h.csId, body[k..], chunkSize);
    var buf := EncodeMessage(h, body, chunkSize);
    var bh := EncodeBasicHeader(0, h.csId);
    assert buf == bh + (Fmt0Header(h) + body[..k] + tail);
    BasicHeaderRoundTrip(0, h.csId, Fmt0Header(h) + body[..k] + tail);
    var b := BasicHeader(0, h.csId, |bh|);
    assert buf[b.size..] == Fmt0Header(h) + body[..k] + tail;
    FirstChunkStep(t, chunkSize, h, body, buf, b, tail);
    assert buf[|buf| - |tail|..] == tail;
  }
}
