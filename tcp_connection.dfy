/** Write-side bookkeeping of a TCP connection (src/network/net/TcpConnection.cpp):
    the list of pending `iovec`s, how a write of some bytes advances it, the
    two ways of queueing data, and the closed flag that guards them.

    Addresses are numbers; `writev`/`write` are not called, their results are
    inputs. Whether writing is enabled on the event loop is the field
    `writing`; the write-complete and close callbacks are counted in ghost
    fields. */
module TcpConnections {

  /** One pending region: `len` bytes starting at address `base`. */
  datatype IoVec = IoVec(base: nat, len: nat)

  /** A buffer node of the caller's list: address and size. */
  datatype BufferNode = BufferNode(addr: nat, size: nat)

  /** What one call of writev/write returned: a byte count, or -1 with an
      errno that is retryable (EINTR, EAGAIN, EWOULDBLOCK) or not. */
  datatype WriteResult = Wrote(n: nat) | Again | Failed

  /** The number of bytes still to be written. */
  function Pending(vs: seq<IoVec>): nat
  {
    if vs == [] then 0 else vs[0].len + Pending(vs[1..])
  }

  /** The addresses of `len` bytes from `base`. */
  function Range(base: nat, len: nat): (r: seq<nat>)
    ensures |r| == len
    ensures forall i :: 0 <= i < len ==> r[i] == base + i
  {
    seq(len, i => base + i)
  }

  /** The addresses still to be written, in the order writev sends them. */
  function Flatten(vs: seq<IoVec>): (r: seq<nat>)
    ensures |r| == Pending(vs)
  {
    if vs == [] then [] else Range(vs[0].base, vs[0].len) + Flatten(vs[1..])
  }

  /** The list after a write of `n` bytes (the inner loop of OnWrite): the
      entries fully covered are erased, and the first one partly covered
      starts `n` minus the erased lengths further on. */
  function DropBytes(vs: seq<IoVec>, n: nat): (r: seq<IoVec>)
    requires n <= Pending(vs)
    ensures |r| <= |vs|
    ensures r != [] ==> r[1..] == vs[|vs| - |r| + 1..]
    ensures r != [] ==> r[0].base + r[0].len == vs[|vs| - |r|].base + vs[|vs| - |r|].len
  {
    if n == 0 then vs
    else if vs[0].len > n then [IoVec(vs[0].base + n, vs[0].len - n)] + vs[1..]
    else DropBytes(vs[1..], n - vs[0].len)
  }

  /** A write of `n` bytes leaves exactly `n` fewer pending bytes. */
  lemma {:induction false} DropBytesPending(vs: seq<IoVec>, n: nat)
    requires n <= Pending(vs)
    ensures Pending(DropBytes(vs, n)) == Pending(vs) - n
  {
    if n > 0 && vs[0].len <= n {
      DropBytesPending(vs[1..], n - vs[0].len);
    } else if n > 0 {
      assert ([IoVec(vs[0].base + n, vs[0].len - n)] + vs[1..])[1..] == vs[1..];
    }
  }

  /** ... and those are the first `n` bytes: what remains is the rest of the
      same byte stream, in the same order. */
  lemma {:induction false} DropBytesFlatten(vs: seq<IoVec>, n: nat)
    requires n <= Pending(vs)
    ensures Flatten(DropBytes(vs, n)) == Flatten(vs)[n..]
  {
    if n == 0 {
      return;
    }
    var v := vs[0];
    var head := Range(v.base, v.len);
    var tail := Flatten(vs[1..]);
    assert Flatten(vs) == head + tail;
    if v.len > n {
      var w := IoVec(v.base + n, v.len - n);
      FlattenCons(w, vs[1..]);
      SliceOfConcat(head, tail, n);
      assert head[n..] == Range(v.base + n, v.len - n);
    } else {
      DropBytesFlatten(vs[1..], n - v.len);
      SliceOfConcat(head, tail, n);
    }
  }

  lemma FlattenCons(v: IoVec, rest: seq<IoVec>)
    ensures Flatten([v] + rest) == Range(v.base, v.len) + Flatten(rest)
  {
    assert ([v] + rest)[1..] == rest;
  }

  lemma SliceOfConcat<T>(a: seq<T>, b: seq<T>, n: nat)
    requires n <= |a| + |b|
    ensures n <= |a| ==> (a + b)[n..] == a[n..] + b
    ensures n >= |a| ==> (a + b)[n..] == b[n - |a|..]
  {
  }

  /** The writes of OnWrite's outer loop never claim more bytes than are
      pending, which writev guarantees. */
  predicate WritesFit(vs: seq<IoVec>, results: seq<WriteResult>)
    decreases |results|
  {
    results == [] || vs == [] ||
    match results[0]
      case Wrote(n) => n <= Pending(vs) && WritesFit(DropBytes(vs, n), results[1..])
      case _ => true
  }

  /** How the outer loop of OnWrite ends: the list drained, writev would
      block, writev failed, or no more results were given. */
  datatype Ending = Drained | Blocked | Broken | Exhausted

  /** The outer loop of OnWrite over the given writev results, from a
      non-empty list: the list left and how the loop ended. */
  function WriteLoop(vs: seq<IoVec>, results: seq<WriteResult>): (r: (seq<IoVec>, Ending))
    requires WritesFit(vs, results)
    ensures r.1 == Drained <==> r.0 == []
    ensures Pending(r.0) <= Pending(vs)
    decreases results
  {
    if vs == [] then ([], Drained)
    else if results == [] then (vs, Exhausted)
    else match results[0]
      case Wrote(n) =>
        var rest := DropBytes(vs, n);
        DropBytesPending(vs, n);
        WriteLoop(rest, results[1..])
      case Again => (vs, Blocked)
      case Failed => (vs, Broken)
  }

  /** Successful writes that add up to the pending bytes drain the list,
      when no pending entry is empty. */
  lemma {:induction false} WritesOfEverythingDrain(vs: seq<IoVec>, results: seq<WriteResult>)
    requires WritesFit(vs, results) && NoEmptyEntry(vs)
    requires forall i :: 0 <= i < |results| ==> results[i].Wrote?
    requires Written(results) == Pending(vs)
    ensures WriteLoop(vs, results).1 == Drained
    decreases results
  {
    if vs != [] && results != [] {
      var n := results[0].n;
      DropBytesPending(vs, n);
      DropBytesNoEmptyEntry(vs, n);
      WritesOfEverythingDrain(DropBytes(vs, n), results[1..]);
    }
  }

  predicate NoEmptyEntry(vs: seq<IoVec>)
  {
    forall i :: 0 <= i < |vs| ==> vs[i].len > 0
  }

  lemma {:induction false} DropBytesNoEmptyEntry(vs: seq<IoVec>, n: nat)
    requires n <= Pending(vs) && NoEmptyEntry(vs)
    ensures NoEmptyEntry(DropBytes(vs, n))
  {
    if n > 0 && vs[0].len <= n {
      DropBytesNoEmptyEntry(vs[1..], n - vs[0].len);
    }
  }

  /** The bytes a sequence of successful writes reports. */
  function Written(results: seq<WriteResult>): nat
  {
    if results == [] then 0
    else (if results[0].Wrote? then results[0].n else 0) + Written(results[1..])
  }

  /** An entry of length 0 at the front is never erased by a write of 0
      bytes, so writev results of 0 leave the list as it is. */
  lemma {:induction false} EmptyEntryStays(vs: seq<IoVec>, k: nat)
    requires vs != [] && vs[0].len == 0
    ensures WritesFit(vs, ZeroWrites(k))
    ensures WriteLoop(vs, ZeroWrites(k)) == (vs, Exhausted)
  {
    if k > 0 {
      assert ZeroWrites(k)[1..] == ZeroWrites(k - 1);
      EmptyEntryStays(vs, k - 1);
    }
  }

  /** `k` writev calls that each return 0. */
  function ZeroWrites(k: nat): seq<WriteResult>
  {
    if k == 0 then [] else [Wrote(0)] + ZeroWrites(k - 1)
  }

  /** The iovecs SendInLoop(list) appends: one per node, in list order. */
  function Vecs(nodes: seq<BufferNode>): (r: seq<IoVec>)
    ensures |r| == |nodes|
    ensures forall i :: 0 <= i < |nodes| ==> r[i] == IoVec(nodes[i].addr, nodes[i].size)
  {
    if nodes == [] then [] else [IoVec(nodes[0].addr, nodes[0].size)] + Vecs(nodes[1..])
  }

  class TcpConnection {
    var ioVecs: seq<IoVec>
    var closed: bool
    var writing: bool
    var hasWriteCompleteCb: bool
    var hasCloseCb: bool
    ghost var writeCompletes: nat
    ghost var closes: nat

    constructor (writeCompleteCb: bool, closeCb: bool)
      ensures ioVecs == [] && !closed && !writing
      ensures hasWriteCompleteCb == writeCompleteCb && hasCloseCb == closeCb
      ensures writeCompletes == 0 && closes == 0
    {
      ioVecs := [];
      closed := false;
      writing := false;
      hasWriteCompleteCb := writeCompleteCb;
      hasCloseCb := closeCb;
      writeCompletes := 0;
      closes := 0;
    }

    /** OnClose: the flag is set, and the close callback runs, only the first
        time. */
    method OnClose()
      modifies this
      ensures closed
      ensures closes == old(closes) + (if !old(closed) && hasCloseCb then 1 else 0)
      ensures ioVecs == old(ioVecs) && writing == old(writing) && writeCompletes == old(writeCompletes)
      ensures hasWriteCompleteCb == old(hasWriteCompleteCb) && hasCloseCb == old(hasCloseCb)
    {
      if !closed {
        closed := true;
        if hasCloseCb {
          closes := closes + 1;
        }
      }
    }

    /** The inner loop of OnWrite: consume `ret` written bytes from the front
        of the list. */
    method Advance(ret: nat)
      requires ret <= Pending(ioVecs)
      modifies this
      ensures ioVecs == DropBytes(old(ioVecs), ret)
      ensures closed == old(closed) && writing == old(writing)
      ensures writeCompletes == old(writeCompletes) && closes == old(closes)
      ensures hasWriteCompleteCb == old(hasWriteCompleteCb) && hasCloseCb == old(hasCloseCb)
    {
      var r: nat := ret;
      while r > 0
        invariant r <= Pending(ioVecs)
        invariant DropBytes(ioVecs, r) == DropBytes(old(ioVecs), ret)
        invariant closed == old(closed) && writing == old(writing)
        invariant writeCompletes == old(writeCompletes) && closes == old(closes)
        invariant hasWriteCompleteCb == old(hasWriteCompleteCb) && hasCloseCb == old(hasCloseCb)
        decreases r, |ioVecs|
      {
        var front := ioVecs[0];
        if front.len > r {
          ioVecs := [IoVec(front.base + r, front.len - r)] + ioVecs[1..];
          return;
        } else {
          r := r - front.len;
          ioVecs := ioVecs[1..];
        }
      }
    }

    /** The write finished the list: stop watching for writability and tell
        the owner. */
    method WriteComplete()
      modifies this
      ensures !writing
      ensures writeCompletes == old(writeCompletes) + (if hasWriteCompleteCb then 1 else 0)
      ensures ioVecs == old(ioVecs) && closed == old(closed) && closes == old(closes)
      ensures hasWriteCompleteCb == old(hasWriteCompleteCb) && hasCloseCb == old(hasCloseCb)
    {
      writing := false;
      if hasWriteCompleteCb {
        writeCompletes := writeCompletes + 1;
      }
    }

    /** OnWrite, with `results` the values of the successive writev calls. */
    method OnWrite(results: seq<WriteResult>)
      requires WritesFit(ioVecs, results)
      modifies this
      ensures old(closed) ==>
        ioVecs == old(ioVecs) && writing == old(writing) && writeCompletes == old(writeCompletes) && closes == old(closes)
      ensures !old(closed) ==>
        var (left, ending) := WriteLoop(old(ioVecs), results);
        && ioVecs == left
        && writing == (if ending == Drained then false else old(writing))
        && writeCompletes == old(writeCompletes) + (if ending == Drained && hasWriteCompleteCb then 1 else 0)
        && closed == (ending == Broken)
        && closes == old(closes) + (if ending == Broken && hasCloseCb then 1 else 0)
      ensures hasWriteCompleteCb == old(hasWriteCompleteCb) && hasCloseCb == old(hasCloseCb)
    {
      if closed {
        return;
      }
      if ioVecs == [] {
        WriteComplete();
        return;
      }
      var i := 0;
      while i < |results|
        invariant 0 <= i <= |results|
        invariant ioVecs != [] && !closed
        invariant WritesFit(ioVecs, results[i..])
        invariant WriteLoop(ioVecs, results[i..]) == WriteLoop(old(ioVecs), results)
        invariant writing == old(writing) && writeCompletes == old(writeCompletes) && closes == old(closes)
        invariant hasWriteCompleteCb == old(hasWriteCompleteCb) && hasCloseCb == old(hasCloseCb)
        decreases |results| - i
      {
        assert results[i..][1..] == results[i + 1..];
        match results[i]
        case Wrote(n) =>
          Advance(n);
          if ioVecs == [] {
            WriteComplete();
            return;
          }
          i := i + 1;
        case Again =>
          return;
        case Failed =>
          OnClose();
          return;
      }
    }

    /** SendInLoop(list): each node is queued in list order, and writing is
        switched on when anything is pending. */
    method SendNodes(nodes: seq<BufferNode>)
      modifies this
      ensures old(closed) ==> ioVecs == old(ioVecs) && writing == old(writing)
      ensures !old(closed) ==> ioVecs == old(ioVecs) + Vecs(nodes)
      ensures !old(closed) ==> writing == (old(writing) || ioVecs != [])
      ensures closed == old(closed) && writeCompletes == old(writeCompletes) && closes == old(closes)
      ensures hasWriteCompleteCb == old(hasWriteCompleteCb) && hasCloseCb == old(hasCloseCb)
    {
      if closed {
        return;
      }
      for i := 0 to |nodes|
        invariant ioVecs == old(ioVecs) + Vecs(nodes[..i])
        invariant writing == old(writing) && !closed
        invariant writeCompletes == old(writeCompletes) && closes == old(closes)
        invariant hasWriteCompleteCb == old(hasWriteCompleteCb) && hasCloseCb == old(hasCloseCb)
      {
        assert Vecs(nodes[..i + 1]) == Vecs(nodes[..i]) + [IoVec(nodes[i].addr, nodes[i].size)];
        ioVecs := ioVecs + [IoVec(nodes[i].addr, nodes[i].size)];
      }
      assert nodes[..|nodes|] == nodes;
      if ioVecs != [] {
        writing := true;
      }
    }

    /** SendInLoop(buff, size), with `result` the value of the direct write
        made when nothing is pending and `send_len` read as a signed count:
        the unsent suffix is queued, a non-retryable error closes. */
    method SendBuffer(buff: nat, size: nat, result: WriteResult)
      requires result.Wrote? ==> result.n <= size
      modifies this
      ensures old(closed) ==>
        ioVecs == old(ioVecs) && writing == old(writing) && closed && writeCompletes == old(writeCompletes) && closes == old(closes)
      ensures !old(closed) && old(ioVecs) != [] ==>
        ioVecs == old(ioVecs) + (if size > 0 then [IoVec(buff, size)] else [])
        && writing == (old(writing) || size > 0) && !closed
        && writeCompletes == old(writeCompletes) && closes == old(closes)
      ensures !old(closed) && old(ioVecs) == [] ==>
        var sent := if result.Wrote? then result.n else 0;
        if result == Failed then
          ioVecs == [] && closed && writing == old(writing) && writeCompletes == old(writeCompletes)
          && closes == old(closes) + (if hasCloseCb then 1 else 0)
        else if sent == size then
          ioVecs == [] && !closed && writing == old(writing) && closes == old(closes)
          && writeCompletes == old(writeCompletes) + (if hasWriteCompleteCb then 1 else 0)
        else
          ioVecs == [IoVec(buff + sent, size - sent)] && writing && !closed
          && writeCompletes == old(writeCompletes) && closes == old(closes)
      ensures hasWriteCompleteCb == old(hasWriteCompleteCb) && hasCloseCb == old(hasCloseCb)
    {
      if closed {
        return;
      }
      var sendLen := 0;
      var left := size;
      if ioVecs == [] {
        match result {
          case Failed =>
            OnClose();
            return;
          case Again =>
            sendLen := 0;
          case Wrote(n) =>
            sendLen := n;
        }
        left := size - sendLen;
        if left == 0 {
          if hasWriteCompleteCb {
            writeCompletes := writeCompletes + 1;
          }
          return;
        }
      }
      if left > 0 {
        ioVecs := ioVecs + [IoVec(buff + sendLen, left)];
        writing := true;
      }
    }
  }

  /** SendInLoop(buff, size) as written keeps `send_len` in a size_t, so a
      failed write's -1 is read as 2^64-1: the `send_len < 0` test never
      holds, and what gets queued is computed modulo 2^64. The region it
      queues after the direct write returned `ret`, if any. */
  function QueuedAsWritten(buff: nat, size: nat, ret: int): (q: seq<IoVec>)
    requires buff < SizeMax && size < SizeMax && -1 <= ret <= size
    ensures |q| <= 1
    ensures 0 <= ret ==> (q == [] <==> ret == size)
  {
    var sendLen := ret % SizeMax;
    var left := (size - sendLen) % SizeMax;
    if left == 0 then [] else [IoVec((buff + sendLen) % SizeMax, left)]
  }

  const SizeMax: nat := 0x1_0000_0000_0000_0000

  /** A would-block write (-1, EAGAIN) makes the code as written queue one
      byte more than the buffer, starting one byte before it; the intended
      reading (SendBuffer with `Again`) queues the buffer itself. */
  lemma QueuedAsWrittenStartsBeforeBuffer(buff: nat, size: nat)
    requires 0 < buff < SizeMax && size < SizeMax - 1
    ensures QueuedAsWritten(buff, size, -1) == [IoVec(buff - 1, size + 1)]
  {
  }

  /** For the results a write can give without error (0 to size bytes) the
      code as written and the signed reading agree: the unsent suffix is
      queued, or nothing when all was sent. */
  lemma QueuedAsWrittenAgreesOnSuccess(buff: nat, size: nat, n: nat)
    requires buff + size < SizeMax && n <= size
    ensures QueuedAsWritten(buff, size, n) == if n == size then [] else [IoVec(buff + n, size - n)]
  {
  }
}
