# lss core, modelled in Dafny

This project models the core of lss, a live-streaming server written in C++.
It covers the following parts:

- **Inbound RTMP chunk parser** (`RtmpContext::ParseMessage`). It reads the
  basic header, the four message-header formats and the extended timestamp,
  and slices payloads into per-channel packets. Its state is the four
  per-channel tables.
- **RtmpContext state machine.** This covers `Parse` and `OnWriteComplete`
  over the handshake, waiting and message states, together with the
  context's fields.
- **Big-endian readers** (`BytesReader`).
- **AMF0 String decoder** and the defaults of the `AMFAny` base class.
- **String helpers** (`StringUtils`).
- **`InetAddress`**: splitting addresses and classifying them.
- **Four-level timing wheel.**
- **Timed tasks and `TaskManager`.**
- **Write-queue bookkeeping of a TCP connection.**

Files:

- `bytes_reader.dfy` (`BytesReader`): unsigned 8-, 16-, 24- and 32-bit
  big-endian readers over byte sequences, with a reference `BigEndian`
  value and writers for round trips.
- `amf_any.dfy` (`AmfAny`): the base AMF value and `DecodeString`. The
  decoder reads a 16-bit big-endian length followed by that many bytes
  (section 2.4 of the AMF0 specification).
- `string_utils.dfy` (`StringUtils`): `StartsWith`, `EndsWith`, `FilePath`,
  `FileNameExt`, `FileName`, `Extension` and `SplitString`. `SplitString`
  is a method with the source's loop, proved equal to a recursive `Split`.
- `inet_address.dfy` (`InetAddress`): the LAN/WAN/loopback classifiers over
  the host-order IPv4 value, and the `Address` class with its setters,
  `ToIpPort` and `Port`.
- `task.dfy` (`Tasks`) and `task_manager.dfy` (`TaskManagers`): classes
  whose methods update `when` and the task set in place. The clock is a
  parameter.
- `tcp_connection.dfy` (`TcpConnections`): the list of pending iovecs, how
  writes advance it, `OnWrite`, the two `SendInLoop` overloads and
  `OnClose`. The results of `writev` and `write` are inputs.
- `timing_wheel.dfy` (`TimingWheel`): the levels as sequences of buckets of
  entries. A coarser level holds wrappers that re-insert their timer with
  the remaining delay when released. Timers the wheel lets go are collected
  in the ghost set `fired`.
- `rtmp_chunk.dfy` (`RtmpChunk`): the value-level parser. One loop pass is
  `ChunkStep`, split into `HeaderStep`, `ExtendedStep` and `SliceStep`.
  The whole loop is `ParseAll`. Channel tables are maps: a missing key
  reads as the zero value that `operator[]` would insert.
- `rtmp_chunk_lemmas.dfy` (`RtmpChunkLemmas`): what each header format
  inherits, payload sizing, retrying after a chunk that has not fully
  arrived, and a round trip through a reference encoder (a format-0 chunk
  followed by format-3 continuations).
- `rtmp_context.dfy` (`RtmpContexts`): the `RtmpContext` class. Its
  `ParseMessage` loop works in place on its fields and on a `MsgBuffer`,
  and is proved to compute exactly `ParseAll`.

## Model

| member | source | states |
|---|---|---|
| BytesReader.ReadUint32 | src/mmedia/base/BytesReader.cpp:8-15 | the 32-bit value is the first two bytes' 16-bit value times 2^16 plus the next two bytes' value |
| BytesReader.ReadUint16 | src/mmedia/base/BytesReader.cpp:31-38 | the high byte of the result is the first byte and the low byte is the second |
| BytesReader.ReadUint8 | src/mmedia/base/BytesReader.cpp:41-45 | the value is the big-endian value of the first byte alone |
| BytesReader.ReadUint24 | src/mmedia/base/BytesReader.cpp:18-28 | the value read from three bytes is below 2^24 |
| BytesReader.ReadersAreBigEndian | src/mmedia/base/BytesReader.cpp:8-45 | each reader returns the most-significant-byte-first value of its first 4, 3, 2 or 1 bytes |
| BytesReader.ReadersReadOnlyTheirBytes | src/mmedia/base/BytesReader.cpp:8-45 | inputs that agree on the first n bytes read the same n-byte value |
| BytesReader.ReadAfterWrite32 | src/mmedia/base/BytesReader.cpp:8-15 | reading back a 32-bit big-endian encoding gives the value, whatever follows it |
| BytesReader.ReadAfterWrite24 | src/mmedia/base/BytesReader.cpp:18-28 | the same for 24-bit values |
| BytesReader.ReadAfterWrite16 | src/mmedia/base/BytesReader.cpp:31-38 | the same for 16-bit values |
| AmfAny.Unnamed | src/mmedia/rtmp/amf/AMFAny.cpp:19-22 | a value built without a name has the empty name |
| AmfAny.BaseDefaults | src/mmedia/rtmp/amf/AMFAny.cpp:99-139 | the base class answers false to every type test, counts as one value and returns its name |
| AmfAny.DecodeString | src/mmedia/rtmp/amf/AMFAny.cpp:141-157 | the decoded string is as long as the big-endian 16-bit length, and is exactly the bytes that follow the length |
| AmfAny.DecodeEncodeString | src/mmedia/rtmp/amf/AMFAny.cpp:141-157 | decoding a length-prefixed string gives the string back, whatever follows it |
| AmfAny.DecodeEmptyString | src/mmedia/rtmp/amf/AMFAny.cpp:141-157 | a zero length decodes to the empty string |
| StringUtils.StartsWith | src/base/StringUtils.cpp:6-33 | true exactly when `sub` is a prefix of `s`, including the empty and longer-than-`s` cases |
| StringUtils.EndsWith | src/base/StringUtils.cpp:36-57 | true exactly when `sub` is a suffix of `s` |
| StringUtils.FilePath | src/base/StringUtils.cpp:60-77 | "./" without a separator; otherwise the text before the last '/' or '\\' |
| StringUtils.FileNameExt | src/base/StringUtils.cpp:80-96 | the whole path without a separator; otherwise the text after the last separator, which contains none |
| StringUtils.FileName | src/base/StringUtils.cpp:99-113 | as written: a prefix of the file-name part, cut at the index of the last '.' in the whole path |
| StringUtils.FileNameWithoutDirectory | src/base/StringUtils.cpp:99-113 | for a path with no directory part, FileName is the text before the last '.' |
| StringUtils.FileNameCutsAtPathIndex | src/base/StringUtils.cpp:99-113 | as written, "a/b.txt" gives "b.t" |
| StringUtils.FileNameIntended | src/base/StringUtils.cpp:99-113 | the file-name part up to its own last '.', or all of it when it has no dot |
| StringUtils.Extension | src/base/StringUtils.cpp:116-130 | empty exactly when the file-name part has no dot except at its first or last position; otherwise the dot-free text after the last '.' |
| StringUtils.SplitString | src/base/StringUtils.cpp:133-168 | the loop returns exactly the pieces of `Split`; an empty delimiter gives no pieces |
| StringUtils.SplitPiecesClean | src/base/StringUtils.cpp:133-168 | every piece is non-empty and contains no delimiter |
| StringUtils.SplitJoin | src/base/StringUtils.cpp:133-168 | splitting non-empty, delimiter-free pieces joined by a one-character delimiter gives the pieces back |
| InetAddress.IsLanIp | src/network/base/InetAddress.cpp:174-191 | true exactly for 10.0.0.0/8, 172.16.0.0/12 and 192.168.0.0/16 |
| InetAddress.IsWanIp | src/network/base/InetAddress.cpp:154-171 | true exactly for addresses that are neither private nor 127.0.0.1 |
| InetAddress.LanWanLoopbackPartition | src/network/base/InetAddress.cpp:154-191 | every address is exactly one of private, public and loopback |
| InetAddress.AtoiToDecimal | src/network/base/InetAddress.cpp:102-106 | atoi of a number's decimal text gives the number |
| InetAddress.PortRoundTrip | src/network/base/InetAddress.cpp:102-106 | a 16-bit port survives formatting and conversion back to 16 bits |
| InetAddress.GetIpAndPort | src/network/base/InetAddress.cpp:200-217 | the host splits at its first ':' into an IP with no ':' and a port; without a colon the IP is the host and the port is unchanged |
| InetAddress.IpPortSplits | src/network/base/InetAddress.cpp:200-217 | in "ip:port" with a colon-free IP, the first ':' follows the IP |
| InetAddress.Address.FromIpPort | src/network/base/InetAddress.cpp:8-15 | keeps the IP, the decimal text of the port and the family; Port() gives the port back |
| InetAddress.Address.FromHost | src/network/base/InetAddress.cpp:18-25 | splits the host as GetIpAndPort does; the port is empty without a colon |
| InetAddress.Address.constructor | src/network/base/InetAddress.h:23 | empty address and port, IPv4 |
| InetAddress.Address.SetHost | src/network/base/InetAddress.cpp:27-31 | splits the host into address and port, keeping the port when there is no colon |
| InetAddress.Address.SetAddr | src/network/base/InetAddress.cpp:34-38 | replaces the address only |
| InetAddress.Address.SetPort | src/network/base/InetAddress.cpp:41-45 | stores the port as decimal text, so that Port() gives it back; nothing else changes |
| InetAddress.Address.SetIsIPV6 | src/network/base/InetAddress.cpp:48-52 | replaces the family flag only |
| InetAddress.Address.ToIpPort | src/network/base/InetAddress.cpp:90-99 | "addr:port" for every address: the address, a ':' and the port; when the address has no ':', the first ':' of the result separates them |
| InetAddress.Address.Port | src/network/base/InetAddress.cpp:102-106 | the number whose decimal text the port holds |
| Tasks.Task.constructor | src/base/Task.cpp:7-18 | keeps the interval and the callback; due one interval after now |
| Tasks.Task.When | src/base/Task.h:35 | the time the task is next due (the accessor has no contract beyond returning `when`) |
| Tasks.Task.Run | src/base/Task.cpp:21-27 | a present callback runs once; only a re-arming callback moves `when`, to now plus the interval |
| Tasks.Task.Restart | src/base/Task.cpp:30-34 | due one interval after now; the interval is kept |
| TaskManagers.TaskManager.constructor | src/base/TaskManager.h:33 | no tasks |
| TaskManagers.TaskManager.Add | src/base/TaskManager.cpp:38-56 | false exactly when the task is already present; afterwards it is present |
| TaskManagers.TaskManager.Del | src/base/TaskManager.cpp:59-68 | the task is absent afterwards; the answer is always true |
| TaskManagers.TaskManager.OnWork | src/base/TaskManager.cpp:7-35 | each task due before now runs once; a task still due after running is removed; other tasks are untouched |
| TcpConnections.DropBytes | src/network/net/TcpConnection.cpp:159-177 | only whole entries are erased from the front; after them the list is unchanged except for the first remaining entry, which keeps its end address |
| TcpConnections.DropBytesPending | src/network/net/TcpConnection.cpp:159-177 | consuming n written bytes leaves exactly n fewer pending |
| TcpConnections.DropBytesFlatten | src/network/net/TcpConnection.cpp:159-177 | the bytes still pending are the unwritten suffix of those pending before |
| TcpConnections.WriteLoop | src/network/net/TcpConnection.cpp:150-212 | the loop ends drained exactly when the list is empty, and never adds pending bytes |
| TcpConnections.WritesOfEverythingDrain | src/network/net/TcpConnection.cpp:150-190 | writes that add up to everything pending drain a list without empty entries |
| TcpConnections.EmptyEntryStays | src/network/net/TcpConnection.cpp:159-177 | a zero-length entry at the front is never erased, so repeated zero-byte writes change nothing |
| TcpConnections.Vecs | src/network/net/TcpConnection.cpp:339-350 | one iovec per buffer node, in order, with the node's address and size |
| TcpConnections.TcpConnection.constructor | src/network/net/TcpConnection.cpp:7-11 | nothing pending, open, not writing |
| TcpConnections.TcpConnection.OnClose | src/network/net/TcpConnection.cpp:25-46 | closed afterwards; the close callback runs only on the first call |
| TcpConnections.TcpConnection.Advance | src/network/net/TcpConnection.cpp:159-177 | the pending list becomes DropBytes of the old one |
| TcpConnections.TcpConnection.WriteComplete | src/network/net/TcpConnection.cpp:181-190 | stops writing and runs the write-complete callback when one is set |
| TcpConnections.TcpConnection.OnWrite | src/network/net/TcpConnection.cpp:135-227 | on an open connection the list, the writing flag, the close and the callbacks follow WriteLoop's ending; a closed connection is left alone |
| TcpConnections.TcpConnection.SendNodes | src/network/net/TcpConnection.cpp:329-357 | appends Vecs(nodes) and enables writing when anything is pending; a closed connection is left alone |
| TcpConnections.TcpConnection.SendBuffer | src/network/net/TcpConnection.cpp:257-327 | behind a queue the whole buffer is queued; otherwise a failure closes, a full write completes, and a partial or blocked write queues the unsent suffix |
| TcpConnections.QueuedAsWritten | src/network/net/TcpConnection.cpp:269-322 | as written, with `send_len` unsigned: at most one region is queued, and for a non-negative result nothing is queued exactly when everything was sent |
| TcpConnections.QueuedAsWrittenStartsBeforeBuffer | src/network/net/TcpConnection.cpp:269-322 | a -1/EAGAIN write queues size+1 bytes starting one byte before the buffer |
| TcpConnections.QueuedAsWrittenAgreesOnSuccess | src/network/net/TcpConnection.cpp:269-322 | for 0 to size bytes written, the as-written queue is the unsent suffix |
| TimingWheel.Bucket | src/network/net/TimingWheel.cpp:24-72 | the bucket index is inside the chosen level |
| TimingWheel.SecondIndexAsWritten | src/network/net/TimingWheel.cpp:75-85 | as written, the seconds index is in range exactly when the delay is not 0; delay 0 gives 0xFFFFFFFF |
| TimingWheel.Placed | src/network/net/TimingWheel.cpp:31-72 | the seconds level holds the timer itself; coarser levels hold a wrapper whose remainder is below the level's unit |
| TimingWheel.PlacementKeepsDelay | src/network/net/TimingWheel.cpp:31-72 | bucket position plus carried remainder equals the requested delay, and the remainder goes to a finer level |
| TimingWheel.InsertSeconds | src/network/net/TimingWheel.cpp:24-28 | delays of 1 to 59 add the timer to seconds bucket delay-1 and change no other bucket |
| TimingWheel.InsertMinutes | src/network/net/TimingWheel.cpp:31-46 | minute delays add a wrapper with the seconds remainder to minute bucket delay/60-1 only |
| TimingWheel.InsertHours | src/network/net/TimingWheel.cpp:49-59 | hour delays add a wrapper to hour bucket delay/3600-1 only |
| TimingWheel.InsertDays | src/network/net/TimingWheel.cpp:94-105 | day delays up to 30 days add a wrapper to day bucket delay/86400-1 only |
| TimingWheel.Shift | src/network/net/TimingWheel.cpp:146-154 | the level loses its front bucket and gains an empty one at the back; other levels are unchanged |
| TimingWheel.PopUpKeepsOwnLevelShifted | src/network/net/TimingWheel.cpp:146-154 | releasing a level's front bucket re-inserts only into finer levels, so that level is only shifted |
| TimingWheel.CoarseTicksAreMinuteTicks | src/network/net/TimingWheel.cpp:128-142 | every multiple of 3600 or 86400 is a multiple of 60 |
| TimingWheel.HourTimerStaysAsWritten | src/network/net/TimingWheel.cpp:128-142 | at tick 3600 the as-written pops release nothing of a one-hour timer, which the intended tick releases |
| TimingWheel.Wheel.constructor | src/network/net/TimingWheel.cpp:7-15 | four empty levels of 60, 60, 24 and 30 buckets; tick and last time zero |
| TimingWheel.Wheel.InsertEntry | src/network/net/TimingWheel.cpp:75-106 | the wheels become Insert(old, delay, id); a delay of 0, or one beyond 30 days, lets the timer go at once (the timer fires) |
| TimingWheel.Wheel.InsertSecondEntry | src/network/net/TimingWheel.cpp:24-28 | adds the timer to seconds bucket delay-1 |
| TimingWheel.Wheel.InsertMinuteEntry | src/network/net/TimingWheel.cpp:31-46 | adds a wrapper to minute bucket delay/60-1 |
| TimingWheel.Wheel.InsertHourEntry | src/network/net/TimingWheel.cpp:49-59 | adds a wrapper to hour bucket delay/3600-1 |
| TimingWheel.Wheel.InsertDayEntry | src/network/net/TimingWheel.cpp:62-72 | adds a wrapper to day bucket delay/86400-1 |
| TimingWheel.Wheel.PopUp | src/network/net/TimingWheel.cpp:146-154 | the level is shifted, its released timers join `fired`, and its wrappers re-insert their timers with the remaining delay |
| TimingWheel.Wheel.OnTimer | src/network/net/TimingWheel.cpp:109-143 | within a second of the last tick nothing changes; otherwise the 64-bit tick count advances, the seconds level pops, and on every 60th tick the minutes level pops |
| TimingWheel.Wheel.OnTimerIntended | src/network/net/TimingWheel.cpp:109-143 | like OnTimer, but each level pops on every multiple of its unit (TickFrom) |
| TimingWheel.Wheel.PopLevels | src/network/net/TimingWheel.cpp:128-142 | the wheels and `fired` become those of TickFrom for the current tick |
| TimingWheel.Wheel.PopIfDue | src/network/net/TimingWheel.cpp:128-142 | level l pops exactly when its unit divides the tick |
| RtmpChunk.DecodeBasicHeader | src/mmedia/rtmp/RtmpContext.cpp:106-143 | need more exactly when the 2- or 3-byte form is cut short; otherwise the format is the top two bits, the size is 2 or 3 for low bits 0 or 1 and 1 otherwise, and the id is the low bits, 64 + the second byte, or 64 + the second byte + 256 times the third |
| RtmpChunk.BasicHeaderRoundTrip | src/mmedia/rtmp/RtmpContext.cpp:106-143 | every format and chunk stream id from 2 to 65599 survives encoding and decoding |
| RtmpChunk.ReadSidAfterWrite | src/mmedia/rtmp/RtmpContext.cpp:192-193 | the message stream id, copied little-endian, reads back unchanged |
| RtmpChunk.MessageHeader | src/mmedia/rtmp/RtmpContext.cpp:176-239 | formats 0 to 2 take the 24-bit timestamp field; format 3 has none |
| RtmpChunk.ChunkStep | src/mmedia/rtmp/RtmpContext.cpp:97-153 | a consumed chunk takes between 1 byte and the whole buffer |
| RtmpChunk.HeaderStep | src/mmedia/rtmp/RtmpContext.cpp:156-250 | a consumed chunk takes at least its basic and message headers |
| RtmpChunk.ExtendedStep | src/mmedia/rtmp/RtmpContext.cpp:253-274 | corrected: a consumed chunk takes at least its headers (ExtendedTimestamp states its values) |
| RtmpChunk.ExtendedStepAsWritten | src/mmedia/rtmp/RtmpContext.cpp:253-274 | as written: a consumed chunk takes at least its headers |
| RtmpChunk.PacketFor | src/mmedia/rtmp/RtmpContext.cpp:277-303 | the selected packet carries the chunk's header |
| RtmpChunk.SliceStep | src/mmedia/rtmp/RtmpContext.cpp:306-347 | a consumed chunk takes at least up to its payload |
| RtmpChunk.ParseAll | src/mmedia/rtmp/RtmpContext.cpp:97-351 | the bytes left are no more than the input |
| RtmpChunk.SliceStepSound | src/mmedia/rtmp/RtmpContext.cpp:306-347 | the payload step keeps the tables well formed and never overfills a packet |
| RtmpChunk.ExtendedStepSound | src/mmedia/rtmp/RtmpContext.cpp:253-274 | the same for the extended-timestamp step |
| RtmpChunk.HeaderStepSound | src/mmedia/rtmp/RtmpContext.cpp:156-274 | the same for the header step |
| RtmpChunk.ChunkStepSound | src/mmedia/rtmp/RtmpContext.cpp:97-153 | the same for a whole chunk |
| RtmpChunk.ParseAllSound | src/mmedia/rtmp/RtmpContext.cpp:97-351 | the loop keeps the tables well formed, and every completed message holds exactly its length |
| RtmpChunk.ParseAllRestIsSuffix | src/mmedia/rtmp/RtmpContext.cpp:97-351 | what is left unread is a suffix of the input |
| RtmpChunkLemmas.Format0Header | src/mmedia/rtmp/RtmpContext.cpp:176-194 | format 0: absolute timestamp, length, type and stream id from the header; delta reset; payload after 11 bytes |
| RtmpChunkLemmas.Format1Header | src/mmedia/rtmp/RtmpContext.cpp:195-212 | format 1: inherits the stream id; the delta is stored and added to the previous timestamp mod 2^32 |
| RtmpChunkLemmas.Format2Header | src/mmedia/rtmp/RtmpContext.cpp:213-228 | format 2: also inherits length and type |
| RtmpChunkLemmas.Format3Header | src/mmedia/rtmp/RtmpContext.cpp:229-247 | format 3: inherits everything and advances by the stored delta |
| RtmpChunkLemmas.ShortChunkTakesNothing | src/mmedia/rtmp/RtmpContext.cpp:146-153 | an incomplete message header stops the loop with buffer and tables untouched |
| RtmpChunkLemmas.ExtendedTimestamp | src/mmedia/rtmp/RtmpContext.cpp:253-274 | the four extended bytes replace the delta (relative formats) or are the timestamp (format 0) |
| RtmpChunkLemmas.Fmt0ExtendedTimestampDropped | src/mmedia/rtmp/RtmpContext.cpp:263-273 | a concrete format-0 chunk is stamped 0xFFFFFF as written and 0x01000000 when corrected |
| RtmpChunkLemmas.SliceTakes | src/mmedia/rtmp/RtmpContext.cpp:306-347 | a chunk takes min(missing, chunk size) payload bytes exactly when they have arrived, and completes the message exactly when it is then full |
| RtmpChunkLemmas.DecodeExtends | src/mmedia/rtmp/RtmpContext.cpp:106-143 | bytes after a complete basic header do not change it |
| RtmpChunkLemmas.MessageHeaderExtends | src/mmedia/rtmp/RtmpContext.cpp:176-239 | bytes after a complete message header do not change it |
| RtmpChunkLemmas.SliceRepeat | src/mmedia/rtmp/RtmpContext.cpp:277-284 | storing the selected packet first makes no difference to the payload step |
| RtmpChunkLemmas.RetryAfterNeedMore | src/mmedia/rtmp/RtmpContext.cpp:97-313 | the tables left by a need-more give the same step as the original tables once more bytes arrive |
| RtmpChunkLemmas.HeaderRetryExtended | src/mmedia/rtmp/RtmpContext.cpp:253-260 | the same when only the extended timestamp is missing |
| RtmpChunkLemmas.ContinuationsParse | src/mmedia/rtmp/RtmpContext.cpp:229-347 | format-3 continuations deliver the rest of a partly received message and leave nothing |
| RtmpChunkLemmas.EncodeMessageRoundTrip | src/mmedia/rtmp/RtmpContext.cpp:97-351 | one message framed as format 0 plus format-3 continuations parses back to exactly that message, consuming every byte |
| RtmpContexts.RtmpContext.constructor | src/mmedia/rtmp/RtmpContext.h:72-124 | handshake state, empty tables, 128-byte input chunks, 4096-byte output chunks and buffer, nothing queued |
| RtmpContexts.RtmpContext.MessageComplete | src/mmedia/rtmp/RtmpContext.cpp:354-358 | the finished message is appended to the completed list; nothing else changes |
| RtmpContexts.RtmpContext.Parse | src/mmedia/rtmp/RtmpContext.cpp:15-56 | handshake result 0 moves to Message and parses what remains; 2 waits; Message parses as ParseAll; waiting reads nothing; the state never moves back |
| RtmpContexts.RtmpContext.OnWriteComplete | src/mmedia/rtmp/RtmpContext.cpp:58-75 | a waiting context moves to Message; a handshaking one counts the notification; nothing else changes |
| RtmpContexts.RtmpContext.ParseMessage | src/mmedia/rtmp/RtmpContext.cpp:83-352 | the tables, the buffer left and the completed messages are exactly those of ParseAll; returns 1 |
| RtmpContexts.RtmpContext.ParseChunk | src/mmedia/rtmp/RtmpContext.cpp:97-153 | fields and buffer show exactly ChunkStep's outcome |
| RtmpContexts.RtmpContext.ParseHeaders | src/mmedia/rtmp/RtmpContext.cpp:156-250 | fields and buffer show exactly HeaderStep's outcome |
| RtmpContexts.RtmpContext.ReadMessageHeader | src/mmedia/rtmp/RtmpContext.cpp:176-239 | the fields read are MessageHeader's |
| RtmpContexts.RtmpContext.ParseExtended | src/mmedia/rtmp/RtmpContext.cpp:253-274 | fields and buffer show exactly ExtendedStep's outcome |
| RtmpContexts.RtmpContext.ParsePayload | src/mmedia/rtmp/RtmpContext.cpp:277-347 | fields and buffer show exactly SliceStep's outcome |

## Left out

- `RtmpContext::BuildChunk`, `Send`, `CheckAndSend`, `PushOutQueue`, `Ready` and `StartHandShake`: the outbound side. Only the outbound fields and their initial values are modelled.
- The RTMP handshake is an oracle. Its result and the number of bytes it takes are parameters of `Parse`, and its write-complete notifications are counted.
- RtmpHeader.h, Packet.h and MsgBuffer are not part of this model. A packet is its capacity, its bytes and its header; the buffer is a byte sequence read from the front.
- RtmpChunk.ReadSid: the message stream id is copied with `memcpy`, so it is read in host order, taken to be little-endian.
- Insertions that `operator[]` makes into the channel maps are not represented. A missing key reads as the zero value those insertions would hold.
- RtmpChunkLemmas.EncodeMessageRoundTrip: the reference encoder only frames timestamps below the extended-timestamp marker, so the round trip does not cover extended timestamps.
- TcpConnections.WriteLoop and TcpConnections.TcpConnection.OnWrite: the results are a finite prefix of what `writev` answers. The `Exhausted` ending means the results ran out where the source would call `writev` again; OnWrite then returns with the list non-empty and `writing` unchanged, which the source's loop does not do.
- TcpConnections.EmptyEntryStays: a zero-length node queued by `SendInLoop(list)` is never erased by the `while (ret > 0)` loop, so once it is the only entry left `writev` returns 0 on every call and the source spins. The model records this as a lemma, but no corrected loop is modelled.
- TcpConnections.TcpConnection.SendBuffer models `SendInLoop(buff, size)` with `send_len` read as a signed count, the corrected behaviour (see Findings). The code as written is QueuedAsWritten.
- RtmpContexts.RtmpContext.ParseMessage uses the corrected format-0 extended timestamp (ExtendedStep), not the code as written (see Findings).
- `IPv4()`, `GetSockAddr` and the `inet_pton` conversion: address text is not converted to its numeric value, and the classifiers take that value as input.
- InetAddress.Address.IsLoopbackIp: modelled without an ensures clause (a comparison of the address text with "127.0.0.1").
- InetAddress.AtoiToDecimal: `atoi` overflow on very long digit strings is not modelled. The value is unbounded and reduced to 16 bits only in `Port`.
- `TimingWheel::RunAfter` and `RunEvery`: their double delays, and the callback objects behind entries. Timers are identifiers.
- TimingWheel.Wheel.PopUp: a timer fires when a bucket holding it is released. An entry inserted more than once (as `TcpConnection::ExtendLife` does) fires at its first release, not at its last; the `shared_ptr` reference count is not modelled.
- TimingWheel.Wheel.InsertEntry lets a delay-0 timer go at once, the corrected behaviour (see Findings). The as-written index is SecondIndexAsWritten.
- The AMFAny accessors (`String`, `Number`, `Boolean`, `Date`, `Object`, `Dump`) and the subclasses that override the type predicates.
- Mutexes and event-loop dispatch: `TaskManager`'s lock, `TcpConnection`'s `RunInLoop`, and `Event::Close`.
- `writev` and `write` are not called. Their results are inputs, and a result's errno is reduced to retryable or not.
- Callbacks of the TCP connection, the task and the timing wheel are counted in ghost fields. Their user code is not modelled.
- Task callbacks are reduced to three kinds: none, one that leaves the task alone, and one that re-arms it.

## Findings

| source | as written | input that shows it | evidently intended | confidence | as-written member | corrected member |
|---|---|---|---|---|---|---|
| src/base/StringUtils.cpp:99-113 | FileName cuts the file-name part at the index of the last '.' in the whole path | "a/b.txt" gives "b.t" | cut at the last '.' of the file-name part: "b" | high, not executed | StringUtils.FileName, StringUtils.FileNameCutsAtPathIndex | StringUtils.FileNameIntended |
| src/network/net/TimingWheel.cpp:75-85 | after resetting the entry for delay 0, InsertEntry goes on to InsertSecondEntry, which indexes bucket delay-1 | delay 0 gives index 0xFFFFFFFF of a 60-bucket level | let the entry go at once | high, not executed | TimingWheel.SecondIndexAsWritten | TimingWheel.Wheel.InsertEntry |
| src/network/net/TcpConnection.cpp:269-294 | `send_len` is a `size_t`, so `send_len < 0` never holds after a failed write | write returns -1 with EAGAIN: size+1 bytes are queued starting one byte before the buffer | queue the whole buffer on EAGAIN; close on other errors | high, not executed | TcpConnections.QueuedAsWritten, TcpConnections.QueuedAsWrittenStartsBeforeBuffer | TcpConnections.TcpConnection.SendBuffer |
| src/mmedia/rtmp/RtmpContext.cpp:263-273 | a format-0 chunk reads its extended timestamp and does not store it | format-0 chunk with timestamp field 0xFFFFFF and extended field 0x01000000 is stamped 0xFFFFFF | the extended field is the timestamp (section 5.3.1.3 of the Adobe RTMP 1.0 specification) | high, not executed | RtmpChunk.ExtendedStepAsWritten, RtmpChunkLemmas.Fmt0ExtendedTimestampDropped | RtmpChunk.ExtendedStep, RtmpChunkLemmas.ExtendedTimestamp |
| src/network/net/TimingWheel.cpp:128-142 | the hour and day levels sit in `else if` branches after the minute branch, and every multiple of 3600 or 86400 is a multiple of 60 | a timer inserted with delay 3600 is still in the wheel after tick 3600 | pop each level on every multiple of its unit | high, not executed | TimingWheel.Wheel.OnTimer, TimingWheel.HourTimerStaysAsWritten | TimingWheel.Wheel.OnTimerIntended |
