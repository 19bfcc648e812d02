/** The per-connection RTMP state (src/mmedia/rtmp/RtmpContext.h and
    src/mmedia/rtmp/RtmpContext.cpp): the connection state machine, the four
    inbound per-channel tables, the chunk sizes and the outbound fields.

    The input buffer (MsgBuffer) is a byte sequence the parser reads from the
    front and retrieves from. The handshake is an oracle: its result and the
    number of bytes it took are parameters of Parse, and its write-complete
    notifications are counted. MessageComplete only logs in the source; here it
    appends the finished message to a ghost list. */
module RtmpContexts {
  import opened BytesReader
  import opened RtmpChunk
  import TcpConnections

  /** RtmpContextState. */
  datatype RtmpContextState = HandShake | WatingDone | Message
  {
    /** The value of the enumerator. */
    function Code(): int
    {
      match this
      case HandShake => 0
      case WatingDone => 1
      case Message => 2
    }
  }

  /** The readable bytes of a MsgBuffer. */
  class MsgBuffer {
    var data: seq<byte>

    constructor (data: seq<byte>)
      ensures this.data == data
    {
      this.data := data;
    }

    /** Retrieve(n): drop the first `n` readable bytes. */
    method Retrieve(n: nat)
      requires n <= |data|
      modifies this
      ensures data == old(data)[n..]
    {
      data := data[n..];
    }
  }

  /** How a pass of ParseMessage's loop keeps its invariant: the loop's
      result `target` is the messages completed so far (`done`, after the
      `c0` there were before the loop) followed by the rest of the loop from
      the current state. */
  lemma LoopGoesOn(before: Parsed, after: Parsed, target: Parsed, c0: seq<Packet>, done: seq<Packet>, finished: seq<Packet>)
    requires before.tables == target.tables && before.rest == target.rest && target.completed == done + before.completed
    requires before == Parsed(after.tables, after.rest, finished + after.completed)
    ensures after.tables == target.tables && after.rest == target.rest
    ensures target.completed == (done + finished) + after.completed
    ensures (c0 + done) + finished == c0 + (done + finished)
  {
  }

  /** ... and what it leaves when the pass stops the loop. */
  lemma LoopStops(before: Parsed, target: Parsed, c0: seq<Packet>, done: seq<Packet>, finished: seq<Packet>,
                  tables: Tables, rest: seq<byte>)
    requires before.tables == target.tables && before.rest == target.rest && target.completed == done + before.completed
    requires before == Parsed(tables, rest, []) && finished == []
    ensures tables == target.tables && rest == target.rest
    ensures (c0 + done) + finished == c0 + target.completed
  {
  }

  /** The two outcomes of SliceStep, for ParsePayload: the payload has not
      fully arrived ... */
  lemma SliceWaits(t: Tables, chunkSize: nat, buf: seq<byte>, p: nat, h: Header, packet: Packet, bytes: int)
    requires p <= |buf| && packet == PacketFor(t, h) && bytes == Min(packet.capacity - |packet.body|, chunkSize)
    requires bytes < 0 || |buf| - p < bytes
    ensures SliceStep(t, chunkSize, buf, p, h) == NeedMore(t.(packets := t.packets[h.csId := packet]))
  {
  }

  /** ... or it is taken, and completes the packet when it fills it. */
  lemma SliceTaken(t: Tables, chunkSize: nat, buf: seq<byte>, p: nat, h: Header, packet: Packet, bytes: int)
    requires p <= |buf| && packet == PacketFor(t, h) && bytes == Min(packet.capacity - |packet.body|, chunkSize)
    requires 0 <= bytes <= |buf| - p
    ensures var grown := packet.(body := packet.body + buf[p..p + bytes]);
      var t2 := t.(headers := t.headers[h.csId := h]);
      SliceStep(t, chunkSize, buf, p, h)
      == if |grown.body| == grown.capacity then Consumed(p + bytes, t2.(packets := t.packets - {h.csId}), Some(grown))
         else Consumed(p + bytes, t2.(packets := t.packets[h.csId := grown]), None)
  {
  }

  class RtmpContext {
    var state: RtmpContextState
    var inMessageHeaders: map<nat, Header>
    var inPackets: map<nat, Packet>
    var inDeltas: map<nat, uint32>
    var inExt: map<nat, bool>
    var inChunkSize: nat

    /** The outbound staging buffer and the position in it (`nullptr` at
        first, so None). */
    const outBuffer: array<byte>
    var outCurrent: Option<nat>
    var outDeltas: map<nat, uint32>
    var outMessageHeaders: map<nat, Header>
    var outChunkSize: nat
    var outWaitingQueue: seq<Packet>
    var sendingBufs: seq<TcpConnections.BufferNode>
    var outSendingPackets: seq<Packet>
    var sending: bool

    /** The messages handed to MessageComplete, in order. */
    ghost var completed: seq<Packet>
    /** The write-complete notifications passed on to the handshake. */
    ghost var handshakeWrites: nat

    /** The inbound tables as one value. */
    function InTables(): Tables
      reads this
    {
      Tables(inMessageHeaders, inPackets, inDeltas, inExt)
    }

    predicate Valid()
      reads this
    {
      Wf(InTables()) && outBuffer.Length == 4096
    }

    /** A new context: handshaking, no channel known, input chunks of 128
        bytes, output chunks of 4096 bytes, nothing queued or being sent. */
    constructor ()
      ensures Valid()
      ensures state == HandShake && state.Code() == 0
      ensures InTables() == EmptyTables && inChunkSize == DefaultChunkSize
      ensures fresh(outBuffer) && outBuffer.Length == 4096 && outCurrent == None
      ensures outDeltas == map[] && outMessageHeaders == map[] && outChunkSize == 4096
      ensures outWaitingQueue == [] && sendingBufs == [] && outSendingPackets == [] && !sending
      ensures completed == [] && handshakeWrites == 0
    {
      state := HandShake;
      inMessageHeaders, inPackets, inDeltas, inExt := map[], map[], map[], map[];
      inChunkSize := DefaultChunkSize;
      outBuffer := new byte[4096];
      outCurrent := None;
      outDeltas, outMessageHeaders := map[], map[];
      outChunkSize := 4096;
      outWaitingQueue, sendingBufs, outSendingPackets := [], [], [];
      sending := false;
      completed := [];
      handshakeWrites := 0;
    }

    /** MessageComplete: a finished message leaves the parser. */
    method MessageComplete(data: Packet)
      modifies this
      ensures completed == old(completed) + [data]
      ensures InTables() == old(InTables()) && Unchanged()
    {
      completed := completed + [data];
    }

    /** The fields the inbound side does not touch, as they were. */
    twostate predicate Unchanged()
      reads this
    {
      state == old(state) && OutUnchanged()
    }

    /** The same, leaving the connection state aside. */
    twostate predicate OutUnchanged()
      reads this
    {
      && inChunkSize == old(inChunkSize)
      && outCurrent == old(outCurrent) && outDeltas == old(outDeltas)
      && outMessageHeaders == old(outMessageHeaders) && outChunkSize == old(outChunkSize)
      && outWaitingQueue == old(outWaitingQueue) && sendingBufs == old(sendingBufs)
      && outSendingPackets == old(outSendingPackets) && sending == old(sending)
      && handshakeWrites == old(handshakeWrites)
    }

    /** Parse: while handshaking, the handshake reads the buffer (taking
        `hsUsed` bytes and answering `hsRet`); 0 ends it and any bytes left
        are parsed as messages at once, 2 waits for the last write to
        complete. Once in the message state every call parses messages;
        while waiting nothing is read. */
    method Parse(buff: MsgBuffer, hsRet: int, hsUsed: nat) returns (ret: int)
      requires Valid() && hsUsed <= |buff.data|
      modifies this, buff
      ensures Valid() && OutUnchanged() && state.Code() >= old(state).Code()
      ensures old(state) == WatingDone ==>
        ret == 0 && state == WatingDone && buff.data == old(buff.data)
        && InTables() == old(InTables()) && completed == old(completed)
      ensures old(state) == Message ==>
        var r := ParseAll(old(InTables()), inChunkSize, old(buff.data));
        && ret == 1 && state == Message
        && InTables() == r.tables && buff.data == r.rest && completed == old(completed) + r.completed
      ensures old(state) == HandShake && hsRet == 0 ==>
        var rest := old(buff.data)[hsUsed..];
        var r := ParseAll(old(InTables()), inChunkSize, rest);
        && state == Message && ret == (if rest == [] then 0 else 1)
        && InTables() == r.tables && buff.data == r.rest && completed == old(completed) + r.completed
      ensures old(state) == HandShake && hsRet != 0 ==>
        && ret == hsRet && state == (if hsRet == 2 then WatingDone else HandShake)
        && buff.data == old(buff.data)[hsUsed..]
        && InTables() == old(InTables()) && completed == old(completed)
      decreases if state == HandShake then 1 else 0
    {
      ret := 0;
      if state == HandShake {
        buff.Retrieve(hsUsed);
        ret := hsRet;
        if ret == 0 {
          state := Message;
          if |buff.data| > 0 {
            // The handshake is not consulted again: the state is Message.
            ret := Parse(buff, 0, 0);
            return ret;
          }
          assert ParseAll(InTables(), inChunkSize, buff.data) == Parsed(InTables(), buff.data, []);
        } else if ret == 2 {
          state := WatingDone;
        }
      } else if state == Message {
        ret := ParseMessage(buff);
        return ret;
      }
      return ret;
    }

    /** OnWriteComplete: while handshaking the handshake is told; a context
        waiting for its last handshake write moves on to messages. */
    method OnWriteComplete()
      modifies this
      ensures state == (if old(state) == WatingDone then Message else old(state))
      ensures state.Code() >= old(state).Code()
      ensures handshakeWrites == old(handshakeWrites) + (if old(state) == HandShake then 1 else 0)
      ensures InTables() == old(InTables()) && completed == old(completed)
      ensures inChunkSize == old(inChunkSize) && outCurrent == old(outCurrent) && outDeltas == old(outDeltas)
      ensures outMessageHeaders == old(outMessageHeaders) && outChunkSize == old(outChunkSize)
      ensures outWaitingQueue == old(outWaitingQueue) && sendingBufs == old(sendingBufs)
      ensures outSendingPackets == old(outSendingPackets) && sending == old(sending)
    {
      if state == HandShake {
        handshakeWrites := handshakeWrites + 1;
      } else if state == WatingDone {
        state := Message;
      }
    }

    /** ParseMessage: consume whole chunks from the front of the buffer while
        more than one byte is left, and stop at the first incomplete one. */
    method ParseMessage(buff: MsgBuffer) returns (ret: int)
      requires Valid()
      modifies this, buff
      ensures Valid() && ret == 1
      ensures var r := ParseAll(old(InTables()), inChunkSize, old(buff.data));
        && InTables() == r.tables && buff.data == r.rest
        && completed == old(completed) + r.completed
      ensures Unchanged()
    {
      ghost var target := ParseAll(InTables(), inChunkSize, buff.data);
      ghost var done: seq<Packet> := [];
      var totalBytes := |buff.data|;
      while totalBytes > 1
        invariant Valid() && Unchanged() && totalBytes == |buff.data|
        invariant completed == old(completed) + done
        invariant var r := ParseAll(InTables(), inChunkSize, buff.data);
          && r.tables == target.tables && r.rest == target.rest
          && target.completed == done + r.completed
        decreases totalBytes
      {
        ghost var before := ParseAll(InTables(), inChunkSize, buff.data);
        var consumed, finished := ParseChunk(buff);
        if !consumed {
          LoopStops(before, target, old(completed), done, finished, InTables(), buff.data);
          return 1;
        }
        totalBytes := |buff.data|;
        LoopGoesOn(before, ParseAll(InTables(), inChunkSize, buff.data), target, old(completed), done, finished);
        done := done + finished;
      }
      return 1;
    }

    /** The outcome `step` of one pass over `pos`, as the fields and the
        buffer now show it: the tables it leaves, the bytes it took and the
        message it completed. */
    predicate Took(buff: MsgBuffer, pos: seq<byte>, step: Step, consumed: bool, finished: seq<Packet>)
      reads this, buff
    {
      && consumed == step.Consumed? && InTables() == step.tables
      && buff.data == (if consumed && step.n <= |pos| then pos[step.n..] else pos)
      && finished == (if consumed && step.done.Some? then [step.done.value] else [])
    }

    /** One pass of ParseMessage's loop: decode the headers of the chunk at
        the front of the buffer and take its payload, or return false, taking
        nothing, when it has not fully arrived. */
    method ParseChunk(buff: MsgBuffer) returns (consumed: bool, ghost finished: seq<Packet>)
      requires Valid() && |buff.data| >= 2
      modifies this, buff
      ensures Valid() && Unchanged() && completed == old(completed) + finished
      ensures Took(buff, old(buff.data), ChunkStep(old(InTables()), inChunkSize, old(buff.data)), consumed, finished)
      ensures var r := ParseAll(InTables(), inChunkSize, buff.data);
        && (!consumed ==> ParseAll(old(InTables()), inChunkSize, old(buff.data)) == Parsed(InTables(), buff.data, []))
        && (consumed ==> ParseAll(old(InTables()), inChunkSize, old(buff.data)) == Parsed(r.tables, r.rest, finished + r.completed))
    {
      var totalBytes := |buff.data|;
      var pos := buff.data;
      ghost var step := ChunkStep(InTables(), inChunkSize, pos);
      ParseAllUnfold(InTables(), inChunkSize, pos);
      var parsed := 0;

      // Basic header.
      var fmt := pos[0] / 64;
      var csid := pos[0] % 64;
      parsed := parsed + 1;
      if csid == 0 {
        // The source's check for a second byte is already met: the loop
        // runs only while two or more bytes are readable.
        csid := 64;
        csid := csid + pos[parsed] as int;
        parsed := parsed + 1;
      } else if csid == 1 {
        if totalBytes < 3 {
          return false, [];
        }
        csid := 64;
        csid := csid + pos[parsed] as int;
        parsed := parsed + 1;
        csid := csid + pos[parsed] as int * 256;
        parsed := parsed + 1;
      }
      assert DecodeBasicHeader(pos) == Some(BasicHeader(fmt, csid, parsed));

      var size := totalBytes - parsed;
      if size == 0 || (fmt == 0 && size < 11) || (fmt == 1 && size < 7) || (fmt == 2 && size < 3) {
        return false, [];
      }
      assert step == HeaderStep(InTables(), inChunkSize, pos, BasicHeader(fmt, csid, parsed));
      consumed, finished := ParseHeaders(buff, fmt, csid, parsed);
    }

    /** The message header and the extended timestamp of a chunk whose basic
        header (format `fmt`, id `csid`) ends at `parsed`. */
    method ParseHeaders(buff: MsgBuffer, fmt: nat, csid: nat, parsed: nat) returns (consumed: bool, ghost finished: seq<Packet>)
      requires Valid() && fmt < 4 && parsed + HeaderSizes[fmt] <= |buff.data|
      modifies this, buff
      ensures Valid() && Unchanged() && completed == old(completed) + finished
      ensures Took(buff, old(buff.data), HeaderStep(old(InTables()), inChunkSize, old(buff.data), BasicHeader(fmt, csid, parsed)),
                   consumed, finished)
    {
      var pos := buff.data;
      var b := BasicHeader(fmt, csid, parsed);
      ghost var t0 := InTables();
      HeaderStepSound(t0, inChunkSize, pos, b);
      var prev := PrevHeader(InTables(), csid);
      var f := ReadMessageHeader(fmt, prev, DeltaOf(InTables(), csid), pos[parsed..]);
      if fmt == 0 {
        inDeltas := inDeltas[csid := 0];
      } else if fmt != 3 {
        inDeltas := inDeltas[csid := f.ts];
      }
      assert inDeltas == DeltasAfterHeader(t0, b, f);

      var ext := f.ts == ExtendedMarker;
      if fmt == 3 {
        ext := ExtOf(InTables(), csid);
      }
      assert ext == UsesExtended(t0, b, f);
      inExt := inExt[csid := ext];
      consumed, finished := ParseExtended(buff, parsed + HeaderSizes[fmt], Header(csid, f.msgLen, f.msgSid, f.msgType, f.timestamp),
                                          ext, fmt != 0, prev.timestamp);
    }

    /** The message header of format `fmt` at the front of `h`, read field
        by field as the source does; `prev` and `delta` are the channel's
        previous header and stored delta. */
    static method ReadMessageHeader(fmt: nat, prev: Header, delta: uint32, h: seq<byte>) returns (f: Fields)
      requires fmt < 4 && |h| >= HeaderSizes[fmt]
      ensures f == MessageHeader(fmt, prev, delta, h)
    {
      var parsed := 0;
      var msgLen: uint32 := 0;
      var msgSid: uint32 := 0;
      var msgType: byte := 0;
      var timestamp: uint32 := 0;
      var ts: uint32 := 0;
      if fmt == 0 {
        ts := ReadUint24(h[parsed..]);
        parsed := parsed + 3;
        timestamp := ts;
        msgLen := ReadUint24(h[parsed..]);
        parsed := parsed + 3;
        msgType := ReadUint8(h[parsed..]);
        parsed := parsed + 1;
        msgSid := ReadSid(h[parsed..]);
      } else if fmt == 1 {
        ts := ReadUint24(h[parsed..]);
        parsed := parsed + 3;
        timestamp := (ts + prev.timestamp) % 0x1_0000_0000;
        msgLen := ReadUint24(h[parsed..]);
        parsed := parsed + 3;
        msgType := ReadUint8(h[parsed..]);
        msgSid := prev.msgSid;
      } else if fmt == 2 {
        ts := ReadUint24(h[parsed..]);
        timestamp := (ts + prev.timestamp) % 0x1_0000_0000;
        msgLen := prev.msgLen;
        msgType := prev.msgType;
        msgSid := prev.msgSid;
      } else {
        timestamp := (delta + prev.timestamp) % 0x1_0000_0000;
        msgLen := prev.msgLen;
        msgType := prev.msgType;
        msgSid := prev.msgSid;
      }
      return Fields(ts, timestamp, msgLen, msgType, msgSid);
    }

    /** The extended timestamp, if the chunk has one, of a chunk whose
        message header ends at `parsed`; `header` is what the chunk's headers
        gave so far. */
    method ParseExtended(buff: MsgBuffer, parsed: nat, header: Header, ext: bool, relative: bool, prevTs: uint32)
      returns (consumed: bool, ghost finished: seq<Packet>)
      requires Valid() && parsed <= |buff.data|
      modifies this, buff
      ensures Valid() && Unchanged() && completed == old(completed) + finished
      ensures Took(buff, old(buff.data), ExtendedStep(old(InTables()), inChunkSize, old(buff.data), parsed, header, ext, relative, prevTs),
                   consumed, finished)
    {
      ExtendedStepSound(InTables(), inChunkSize, buff.data, parsed, header, ext, relative, prevTs);
      var header := header;
      var parsed := parsed;
      if ext {
        if |buff.data| - parsed < 4 {
          return false, [];
        }
        var ts := ReadUint32(buff.data[parsed..]);
        parsed := parsed + 4;
        if relative {
          header := header.(timestamp := (ts + prevTs) % 0x1_0000_0000);
          inDeltas := inDeltas[header.csId := ts];
        } else {
          // The source keeps the 24-bit marker as a format-0 timestamp here;
          // the extended value is what section 5.3.1.3 makes the timestamp.
          header := header.(timestamp := ts);
        }
      }
      consumed, finished := ParsePayload(buff, parsed, header);
    }

    /** The payload of a chunk whose headers end at `parsed`: at most a
        chunk's worth, and no more than the channel's packet still lacks. */
    method ParsePayload(buff: MsgBuffer, parsed: nat, header: Header) returns (consumed: bool, ghost finished: seq<Packet>)
      requires Valid() && parsed <= |buff.data|
      modifies this, buff
      ensures Valid() && Unchanged() && completed == old(completed) + finished
      ensures Took(buff, old(buff.data), SliceStep(old(InTables()), inChunkSize, old(buff.data), parsed, header), consumed, finished)
    {
      ghost var t := InTables();
      SliceStepSound(t, inChunkSize, buff.data, parsed, header);
      var csid := header.csId;
      var packet := if csid in inPackets then inPackets[csid] else Packet(header.msgLen, [], header);
      packet := packet.(header := header);
      var bytes := Min(packet.capacity - |packet.body|, inChunkSize);
      if bytes < 0 || |buff.data| - parsed < bytes {
        SliceWaits(t, inChunkSize, buff.data, parsed, header, packet, bytes);
        inPackets := inPackets[csid := packet];
        return false, [];
      }
      SliceTaken(t, inChunkSize, buff.data, parsed, header, packet, bytes);
      packet := packet.(body := packet.body + buff.data[parsed..parsed + bytes]);
      buff.Retrieve(parsed + bytes);
      inMessageHeaders := inMessageHeaders[csid := header];
      if packet.capacity - |packet.body| == 0 {
        MessageComplete(packet);
        inPackets := inPackets - {csid};
        return true, [packet];
      }
      inPackets := inPackets[csid := packet];
      return true, [];
    }
  }
}
