/**
 The WebTransport side of the server (`crates/server/src/webtransport.rs`):
 the welcome stream, the per-stream echo workers and the session's fan-in
 loop over datagrams, client uni streams and client bidi streams. Each
 worker is a transform from what it reads to the operations it performs on
 its send half; the loop is a run over a finite sequence of events, taken in
 the order the `select!` happened to deliver them.
 */
module WebTransport {
  import opened Wrappers
  import opened Text
  import opened EventLoop

  /** What a worker does to a send half: write bytes, sleep, flush, or close the sending direction. */
  datatype StreamOp = Write(data: seq<byte>) | Sleep(millis: nat) | Flush | Shutdown

  /** The bytes the peer receives from a run of operations, in order. */
  function Written(ops: seq<StreamOp>): seq<byte>
    decreases |ops|
  {
    if |ops| == 0 then [] else (if ops[0].Write? then ops[0].data else []) + Written(ops[1..])
  }

  lemma {:induction false} WrittenAppend(a: seq<StreamOp>, b: seq<StreamOp>)
    ensures Written(a + b) == Written(a) + Written(b)
    decreases |a|
  {
    if |a| == 0 {
      assert a + b == b;
    } else {
      assert (a + b)[1..] == a[1..] + b;
      WrittenAppend(a[1..], b);
    }
  }

  function Flatten(parts: seq<seq<byte>>): seq<byte>
    decreases |parts|
  {
    if |parts| == 0 then [] else parts[0] + Flatten(parts[1..])
  }

  // ---------------------------------------------------------------------------
  // Welcome stream
  // ---------------------------------------------------------------------------

  const WelcomeText := "Welcome to HTTP/3 WebTransport server!"

  /** The welcome text as it goes on the wire. */
  const WelcomeBytes := AsciiBytes(WelcomeText)

  /**
   `send_welcome`: the welcome text in full, then the send side is shut down.
   What the client sends back is read to its end and only logged.
   */
  function WelcomeOps(): (ops: seq<StreamOp>)
    ensures |ops| == 2 && ops[1] == Shutdown
    ensures Written(ops) == WelcomeBytes
  {
    var w := WelcomeBytes;
    var ops := [Write(w), Shutdown];
    assert ops[1..] == [Shutdown] && [Shutdown][1..] == [];
    assert Written([Shutdown]) == [];
    assert Written(ops) == w + Written(ops[1..]);
    ops
  }

  // ---------------------------------------------------------------------------
  // Uni echo
  // ---------------------------------------------------------------------------

  const UniChunkSize := 64
  const UniChunkDelayMillis := 10

  /** The result of `read_to_end` on the inbound uni stream. */
  datatype ReadToEnd = ReadAll(bytes: seq<byte>) | ReadToEndFailed

  /** A worker's operations and whether it returned `Ok`. */
  datatype WorkerResult = WorkerResult(ops: seq<StreamOp>, ok: bool)

  function Min(a: int, b: int): int {
    if a <= b then a else b
  }

  /** Number of chunks `chunks(64)` cuts `len` bytes into. */
  function ChunkCount(len: nat): nat {
    (len + UniChunkSize - 1) / UniChunkSize
  }

  /** The replay loop of `echo_uni`: for each 64-byte chunk, a 10 ms sleep and then the chunk. */
  function UniReplay(buf: seq<byte>): (ops: seq<StreamOp>)
    ensures |ops| == 2 * ChunkCount(|buf|)
    decreases |buf|
  {
    if |buf| == 0 then []
    else
      var n := Min(UniChunkSize, |buf|);
      [Sleep(UniChunkDelayMillis), Write(buf[..n])] + UniReplay(buf[n..])
  }

  /** `echo_uni`: a failed read ends the worker with an error before anything is written. */
  function EchoUni(input: ReadToEnd): (w: WorkerResult)
    ensures input.ReadToEndFailed? ==> w == WorkerResult([], false)
    ensures input.ReadAll? ==> w.ok && Written(w.ops) == input.bytes
  {
    match input
    case ReadToEndFailed => WorkerResult([], false)
    case ReadAll(buf) =>
      UniReplayWritesInput(buf);
      WorkerResult(UniReplay(buf), true)
  }

  /** The chunks put back together are exactly the bytes read. */
  lemma {:induction false} UniReplayWritesInput(buf: seq<byte>)
    ensures Written(UniReplay(buf)) == buf
    decreases |buf|
  {
    if |buf| > 0 {
      var n := Min(UniChunkSize, |buf|);
      var ops := UniReplay(buf);
      UniReplayWritesInput(buf[n..]);
      assert ops[1..][1..] == UniReplay(buf[n..]);
      assert buf == buf[..n] + buf[n..];
    }
  }

  /** Chunk `k` of `chunks(64)`: bytes 64k up to 64k+64, or up to the end of the input. */
  function Chunk(buf: seq<byte>, k: nat): (c: seq<byte>)
    requires k < ChunkCount(|buf|)
    ensures 1 <= |c| <= UniChunkSize
    ensures k < ChunkCount(|buf|) - 1 ==> |c| == UniChunkSize
  {
    buf[UniChunkSize * k..Min(UniChunkSize * k + UniChunkSize, |buf|)]
  }

  /** Behind the first 64 bytes, chunk `k` of the rest is chunk `k + 1` of the whole. */
  lemma ChunkShift(buf: seq<byte>, k: nat)
    requires |buf| > UniChunkSize && k < ChunkCount(|buf| - UniChunkSize)
    ensures k + 1 < ChunkCount(|buf|)
    ensures Chunk(buf[UniChunkSize..], k) == Chunk(buf, k + 1)
  {
    var a := UniChunkSize * k;
    var b := Min(a + UniChunkSize, |buf| - UniChunkSize);
    assert UniChunkSize + a == UniChunkSize * (k + 1);
    assert UniChunkSize + b == Min(UniChunkSize * (k + 1) + UniChunkSize, |buf|);
    TailSlice(buf, a, b);
  }

  /**
   The replay is ⌈len/64⌉ rounds; round k sleeps 10 ms and then writes chunk
   k. Empty input writes nothing.
   */
  lemma {:induction false} UniReplayShape(buf: seq<byte>)
    ensures var ops := UniReplay(buf);
      && |ops| == 2 * ChunkCount(|buf|)
      && forall k :: 0 <= k < ChunkCount(|buf|) ==>
           && ops[2 * k] == Sleep(UniChunkDelayMillis)
           && ops[2 * k + 1] == Write(Chunk(buf, k))
    decreases |buf|
  {
    var ops := UniReplay(buf);
    if |buf| > UniChunkSize {
      var tail := buf[UniChunkSize..];
      var rest := UniReplay(tail);
      var first := [Sleep(UniChunkDelayMillis), Write(buf[..UniChunkSize])];
      UniReplayShape(tail);
      assert ops == first + rest;
      assert Chunk(buf, 0) == buf[..UniChunkSize];
      forall k | 1 <= k < ChunkCount(|buf|)
        ensures ops[2 * k] == Sleep(UniChunkDelayMillis)
        ensures ops[2 * k + 1] == Write(Chunk(buf, k))
      {
        PairConsIndex(first, rest, k - 1);
        ChunkShift(buf, k - 1);
      }
    } else if |buf| > 0 {
      assert ops == [Sleep(UniChunkDelayMillis), Write(buf[..|buf|])];
      assert Chunk(buf, 0) == buf[..|buf|];
    }
  }

  /** A slice of `buf[64..]` is the slice of `buf` shifted by 64. */
  lemma TailSlice(buf: seq<byte>, a: nat, b: nat)
    requires UniChunkSize <= |buf| && a <= b <= |buf| - UniChunkSize
    ensures buf[UniChunkSize..][a..b] == buf[UniChunkSize + a..UniChunkSize + b]
  {
  }

  /** Every chunk but the last is exactly 64 bytes; the last is 1 to 64 bytes. */
  lemma UniChunkSizes(buf: seq<byte>, k: nat)
    requires k < ChunkCount(|buf|)
    ensures var w := UniReplay(buf)[2 * k + 1];
      && w.Write?
      && 1 <= |w.data| <= UniChunkSize
      && (k < ChunkCount(|buf|) - 1 ==> |w.data| == UniChunkSize)
  {
    UniReplayShape(buf);
    assert UniReplay(buf)[2 * k + 1] == Write(Chunk(buf, k));
  }

  // ---------------------------------------------------------------------------
  // Bidi echo
  // ---------------------------------------------------------------------------

  const BidiBufferSize := 4096
  const EchoPrefix := "[echo] "

  /** The prefix as it goes on the wire. */
  const EchoPrefixBytes := AsciiBytes(EchoPrefix)

  /** What one `read` into the 4096-byte buffer can return. */
  type ReadChunk = s: seq<byte> | |s| <= BidiBufferSize

  /** One call to `read`: `Ok(n)` with the n bytes read (n = 0 at the end of the stream), or an error. */
  datatype ReadOutcome = ReadOk(chunk: ReadChunk) | ReadFailed

  /** Why the bidi worker stopped; both return `Ok(())`. */
  datatype BidiEnd = PeerFinished | ReadError

  predicate EndsBidi(r: ReadOutcome) {
    r.ReadFailed? || |r.chunk| == 0
  }

  /** The operations echoing one nonempty read: prefix, the bytes read, flush. */
  function EchoOps(chunk: seq<byte>): seq<StreamOp> {
    [Write(EchoPrefixBytes), Write(chunk), Flush]
  }

  /** One turn of `echo_bidi`'s loop. */
  function BidiStep(r: ReadOutcome): (s: Step<StreamOp, BidiEnd>)
    ensures s.Stop? <==> EndsBidi(r)
    ensures s.Stop? ==> s.emitted == []
    ensures s.Continue? ==> s.emitted == EchoOps(r.chunk)
  {
    match r
    case ReadFailed => Stop([], ReadError)
    case ReadOk(chunk) => if |chunk| == 0 then Stop([], PeerFinished) else Continue(EchoOps(chunk))
  }

  /** `echo_bidi` over a finite sequence of read results. */
  function EchoBidi(results: seq<ReadOutcome>): Outcome<StreamOp, BidiEnd> {
    Run(BidiStep, results)
  }

  /**
   While reads return data, read k is answered by operations 3k, 3k+1, 3k+2:
   the prefix, exactly the bytes of read k, and a flush. Nothing is coalesced.
   */
  lemma {:induction false} EchoBidiPerRead(results: seq<ReadOutcome>)
    requires forall i :: 0 <= i < |results| ==> results[i].ReadOk? && |results[i].chunk| > 0
    ensures var ops := Emitted(BidiStep, results);
      && |ops| == 3 * |results|
      && forall k :: 0 <= k < |results| ==>
           && ops[3 * k] == Write(EchoPrefixBytes)
           && ops[3 * k + 1] == Write(results[k].chunk)
           && ops[3 * k + 2] == Flush
    decreases |results|
  {
    if |results| > 0 {
      assert !EndsBidi(results[0]);
      var rest := Emitted(BidiStep, results[1..]);
      EchoBidiPerRead(results[1..]);
      var ops := Emitted(BidiStep, results);
      assert ops == EchoOps(results[0].chunk) + rest;
      forall k | 1 <= k < |results|
        ensures ops[3 * k] == Write(EchoPrefixBytes)
        ensures ops[3 * k + 1] == Write(results[k].chunk)
        ensures ops[3 * k + 2] == Flush
      {
        TripleConsIndex(EchoOps(results[0].chunk), rest, k - 1);
        assert results[1..][k - 1] == results[k];
      }
    }
  }

  /** Behind a three-operation prefix, group `k` of the rest is group `k + 1` of the whole. */
  lemma TripleConsIndex(p: seq<StreamOp>, rest: seq<StreamOp>, k: nat)
    requires |p| == 3 && 3 * k + 2 < |rest|
    ensures (p + rest)[3 * (k + 1)] == rest[3 * k]
    ensures (p + rest)[3 * (k + 1) + 1] == rest[3 * k + 1]
    ensures (p + rest)[3 * (k + 1) + 2] == rest[3 * k + 2]
  {
  }

  /** The bytes sent back are `"[echo] "` followed by read k, for each read in turn. */
  lemma {:induction false} EchoBidiBytes(results: seq<ReadOutcome>)
    requires forall i :: 0 <= i < |results| ==> results[i].ReadOk? && |results[i].chunk| > 0
    ensures Written(Emitted(BidiStep, results))
         == Flatten(seq(|results|, k requires 0 <= k < |results| => EchoPrefixBytes + results[k].chunk))
    decreases |results|
  {
    var parts := seq(|results|, k requires 0 <= k < |results| => EchoPrefixBytes + results[k].chunk);
    if |results| > 0 {
      assert !EndsBidi(results[0]);
      EchoBidiBytes(results[1..]);
      var e := EchoOps(results[0].chunk);
      WrittenAppend(e, Emitted(BidiStep, results[1..]));
      assert e[1..] == [Write(results[0].chunk), Flush];
      assert e[1..][1..] == [Flush];
      assert Written([Flush]) == [] by { assert [Flush][1..] == []; }
      assert Written(e) == EchoPrefixBytes + results[0].chunk;
      assert parts[1..] == seq(|results[1..]|, k requires 0 <= k < |results[1..]| => EchoPrefixBytes + results[1..][k].chunk);
    }
  }

  /**
   A zero-length read or a read error ends the worker: reads after it are
   never made, and what was echoed is what the reads before it produced.
   */
  lemma EchoBidiStops(pre: seq<ReadOutcome>, stop: ReadOutcome, post: seq<ReadOutcome>)
    requires forall i :: 0 <= i < |pre| ==> !EndsBidi(pre[i])
    requires EndsBidi(stop)
    ensures EchoBidi(pre + [stop] + post).emitted == Emitted(BidiStep, pre)
    ensures EchoBidi(pre + [stop] + post).consumed == |pre| + 1
    ensures EchoBidi(pre + [stop] + post).end == Some(if stop.ReadFailed? then ReadError else PeerFinished)
  {
    assert NoStop(BidiStep, pre) by {
      forall i | 0 <= i < |pre| ensures BidiStep(pre[i]).Continue? {
        assert !EndsBidi(pre[i]);
      }
    }
    RunStopsAtFirstStop(BidiStep, pre, stop, post);
    assert Emitted(BidiStep, pre) + [] == Emitted(BidiStep, pre);
  }

  // ---------------------------------------------------------------------------
  // Session loop
  // ---------------------------------------------------------------------------

  /**
   One branch of the session's `select!` completing: a datagram (and
   whether echoing it could be sent), the datagram reader failing, a client
   uni stream (what reading it to the end gives, and whether the reply
   stream could be opened), the uni acceptor ending or failing, a client
   bidi stream (its read results), an HTTP request on a bidi stream, or the
   bidi acceptor ending or failing.
   */
  datatype SessionEvent =
    | DatagramIn(payload: seq<byte>, sendOk: bool)
    | DatagramReaderFailed
    | UniIn(uniId: nat, received: ReadToEnd, openOk: bool)
    | UniExhausted
    | UniAcceptFailed
    | BidiIn(bidiId: nat, results: seq<ReadOutcome>)
    | BidiRequestIn(path: string)
    | BidiExhausted
    | BidiAcceptFailed

  datatype SessionAction =
    | EchoDatagram(payload: seq<byte>, sent: bool)
    | SpawnUniEcho(uniId: nat, uniWorker: WorkerResult)
    | SpawnBidiEcho(bidiId: nat, bidiWorker: Outcome<StreamOp, BidiEnd>)

  datatype SessionEnd = DatagramsEnded | UniEnded | UniFailed | BidiEnded | BidiFailed

  predicate EndsSession(ev: SessionEvent) {
    ev.DatagramReaderFailed? || ev.UniExhausted? || ev.UniAcceptFailed? || ev.BidiExhausted? || ev.BidiAcceptFailed?
  }

  /**
   One turn of the fan-in loop. A datagram is echoed with its payload
   unchanged, and the echo records whether `send_datagram` succeeded; a
   failed send is only logged and the loop goes on. A uni stream gets a replay worker
   when its reply stream opens, and nothing otherwise. A bidi stream gets an
   echo worker. A request on a bidi stream is dropped. The ends and errors of
   the three sources break the loop.
   */
  function SessionStep(ev: SessionEvent): (s: Step<SessionAction, SessionEnd>)
    ensures s.Stop? <==> EndsSession(ev)
    ensures s.Stop? ==> s.emitted == []
    ensures ev.DatagramIn? ==> s == Continue([EchoDatagram(ev.payload, ev.sendOk)])
    ensures ev.UniIn? ==> s == Continue(if ev.openOk then [SpawnUniEcho(ev.uniId, EchoUni(ev.received))] else [])
    ensures ev.BidiIn? ==> s == Continue([SpawnBidiEcho(ev.bidiId, EchoBidi(ev.results))])
    ensures ev.BidiRequestIn? ==> s == Continue([])
  {
    match ev
    case DatagramIn(payload, sendOk) => Continue([EchoDatagram(payload, sendOk)])
    case DatagramReaderFailed => Stop([], DatagramsEnded)
    case UniIn(id, received, openOk) =>
      if openOk then Continue([SpawnUniEcho(id, EchoUni(received))]) else Continue([])
    case UniExhausted => Stop([], UniEnded)
    case UniAcceptFailed => Stop([], UniFailed)
    case BidiIn(id, results) => Continue([SpawnBidiEcho(id, EchoBidi(results))])
    case BidiRequestIn(_) => Continue([])
    case BidiExhausted => Stop([], BidiEnded)
    case BidiAcceptFailed => Stop([], BidiFailed)
  }

  /**
   A session either fails to open its welcome stream (`open_bi` fails and
   `handle_session` returns the error at once) or spawns the welcome worker
   and runs its loop, returning `Ok` whichever way the loop ends.
   */
  datatype SessionRun = WelcomeFailed | Ran(welcome: seq<StreamOp>, loop: Outcome<SessionAction, SessionEnd>)

  /** `handle_session`. */
  function HandleSession(welcomeOpened: bool, events: seq<SessionEvent>): (r: SessionRun)
    ensures r.WelcomeFailed? <==> !welcomeOpened
    ensures r.Ran? ==> r.welcome == WelcomeOps() && r.loop == Run(SessionStep, events)
  {
    if welcomeOpened then Ran(WelcomeOps(), Run(SessionStep, events)) else WelcomeFailed
  }

  /**
   The payloads of the datagrams received, in order; with `deliveredOnly`,
   only those whose echo the sender accepted.
   */
  function DatagramsIn(events: seq<SessionEvent>, deliveredOnly: bool): seq<seq<byte>>
    decreases |events|
  {
    if |events| == 0 then []
    else
      var keep := events[0].DatagramIn? && (!deliveredOnly || events[0].sendOk);
      (if keep then [events[0].payload] else []) + DatagramsIn(events[1..], deliveredOnly)
  }

  /**
   The payloads the session tried to send back, in order; with
   `deliveredOnly`, only the sends that succeeded.
   */
  function DatagramsOut(actions: seq<SessionAction>, deliveredOnly: bool): seq<seq<byte>>
    decreases |actions|
  {
    if |actions| == 0 then []
    else
      var keep := actions[0].EchoDatagram? && (!deliveredOnly || actions[0].sent);
      (if keep then [actions[0].payload] else []) + DatagramsOut(actions[1..], deliveredOnly)
  }

  lemma {:induction false} DatagramsOutAppend(a: seq<SessionAction>, b: seq<SessionAction>, deliveredOnly: bool)
    ensures DatagramsOut(a + b, deliveredOnly) == DatagramsOut(a, deliveredOnly) + DatagramsOut(b, deliveredOnly)
    decreases |a|
  {
    if |a| == 0 {
      assert a + b == b;
    } else {
      assert (a + b)[1..] == a[1..] + b;
      DatagramsOutAppend(a[1..], b, deliveredOnly);
    }
  }

  /**
   Datagram echo is exact: the session makes one send attempt per datagram
   received, with the identical payload, in the order received, whatever
   else happens on the session and whether or not earlier sends failed; and
   the sends that go through are exactly those of the datagrams whose send
   succeeded.
   */
  lemma {:induction false} DatagramEchoExact(events: seq<SessionEvent>, deliveredOnly: bool)
    ensures DatagramsOut(Emitted(SessionStep, events), deliveredOnly) == DatagramsIn(events, deliveredOnly)
    decreases |events|
  {
    if |events| > 0 {
      DatagramEchoExact(events[1..], deliveredOnly);
      var first := SessionStep(events[0]).emitted;
      DatagramsOutAppend(first, Emitted(SessionStep, events[1..]), deliveredOnly);
      if events[0].UniIn? || events[0].BidiIn? {
        assert first == [] || (|first| == 1 && !first[0].EchoDatagram?);
      }
      assert |first| == 1 ==> first[1..] == [];
    }
  }

  /**
   The loop keeps running until the first end or error of one of its three
   sources; the events after it are never consumed.
   */
  lemma SessionEndsAtFirstEnd(pre: seq<SessionEvent>, ev: SessionEvent, post: seq<SessionEvent>)
    requires forall i :: 0 <= i < |pre| ==> !EndsSession(pre[i])
    requires EndsSession(ev)
    ensures var o := Run(SessionStep, pre + [ev] + post);
      && o.emitted == Emitted(SessionStep, pre)
      && o.consumed == |pre| + 1
      && o.end == Some(SessionStep(ev).reason)
  {
    assert NoStop(SessionStep, pre) by {
      forall i | 0 <= i < |pre| ensures SessionStep(pre[i]).Continue? {
        assert !EndsSession(pre[i]);
      }
    }
    RunStopsAtFirstStop(SessionStep, pre, ev, post);
    assert Emitted(SessionStep, pre) + [] == Emitted(SessionStep, pre);
  }
}
