/** Packets and constants shared by the two transfer loops. */
module Tftp {
  import opened Bytes

  const MAX_TIMEOUTS := 5
  const MAX_DATA := 512

  type BlockNumber = n: nat | n < 65536

  datatype Mode = Octet | Netascii

  /** OtherPacket stands for a packet with any other opcode. */
  datatype Packet = Data(block: BlockNumber, payload: seq<byte>) | Ack(block: BlockNumber) | OtherPacket

  /** What a handler's select and read can report. */
  datatype Event = Timeout | Receive(packet: Packet) | Interrupted | SelectError

  function Wrap(n: nat): BlockNumber { n % 65536 }

  function NextBlock(b: BlockNumber): BlockNumber { Wrap(b + 1) }

  /** The 16-bit value of b - 1. */
  function PreviousBlock(b: BlockNumber): BlockNumber { if b == 0 then 65535 else b - 1 }

  /** How many timeouts the list ends with, interruptions between them not counted. */
  function TrailingTimeouts(events: seq<Event>): nat {
    if events == [] then 0
    else
      var before := events[..|events| - 1];
      match events[|events| - 1]
      case Timeout => 1 + TrailingTimeouts(before)
      case Interrupted => TrailingTimeouts(before)
      case _ => 0
  }

  // ----- The blocks of a stream -----

  /** A non-empty stream is sent as this many blocks, the last one shorter than 512 bytes. */
  function BlockCount(stream: seq<byte>): nat { |stream| / 512 + 1 }

  /** Block k, counted from 1 and never wrapped. */
  function Chunk(stream: seq<byte>, k: nat): seq<byte>
    requires 1 <= k <= BlockCount(stream)
  {
    stream[512 * (k - 1)..Min(512 * k, |stream|)]
  }

  function DataPacket(stream: seq<byte>, k: nat): Packet
    requires 1 <= k <= BlockCount(stream)
  {
    Data(Wrap(k), Chunk(stream, k))
  }

  /** The first n blocks. */
  function Chunks(stream: seq<byte>, n: nat): seq<seq<byte>>
    requires n <= BlockCount(stream)
  {
    seq(n, i requires 0 <= i < n => Chunk(stream, i + 1))
  }

  lemma {:induction false} FlattenChunks(stream: seq<byte>, n: nat)
    requires n <= BlockCount(stream)
    ensures Flatten(Chunks(stream, n)) == stream[..Min(512 * n, |stream|)]
  {
    if n > 0 {
      FlattenChunks(stream, n - 1);
      assert Chunks(stream, n)[..n - 1] == Chunks(stream, n - 1);
    }
  }
}

/** The read-request handler: a stop-and-wait sender. */
module TftpSender {
  import opened Bytes
  import opened Tftp
  import opened NetasciiStreams
  import Codec = Netascii

  /** Waiting is the point of the loop where the handler waits for an acknowledgement. */
  datatype Phase = Waiting | Finished | GaveUp | Aborted

  datatype Sender = Sender(block: BlockNumber, timeouts: nat, pos: nat, chunk: seq<byte>, maxData: bool,
                           phase: Phase)

  function Slice(stream: seq<byte>, pos: nat, n: nat): seq<byte> {
    if pos <= |stream| then stream[pos..Min(pos + n, |stream|)] else []
  }

  /** The top of the loop: give up, send the same block again, or read and send the next one. */
  function LoopHead(stream: seq<byte>, s: Sender, retry: bool): (Sender, seq<Packet>) {
    if s.timeouts >= MAX_TIMEOUTS then (s.(phase := GaveUp), [])
    else if retry then (s, [Data(s.block, s.chunk)])
    else
      var chunk := Slice(stream, s.pos, MAX_DATA);
      var s' := s.(pos := s.pos + |chunk|, chunk := chunk);
      if chunk == [] && !s.maxData then (s'.(phase := Finished), [])
      else (s'.(maxData := |chunk| == MAX_DATA), [Data(s.block, chunk)])
  }

  function Start(stream: seq<byte>): (Sender, seq<Packet>) {
    LoopHead(stream, Sender(1, 0, 0, [], false, Waiting), false)
  }

  /** One report from select, up to the next wait: the new state and the packets written. */
  function Step(stream: seq<byte>, s: Sender, e: Event): (Sender, seq<Packet>) {
    if s.phase != Waiting then (s, [])
    else match e
      case Timeout => LoopHead(stream, s.(timeouts := s.timeouts + 1), true)
      case Interrupted => LoopHead(stream, s, false)
      case SelectError => (s.(phase := Aborted), [])
      case Receive(p) =>
        var s' := s.(timeouts := 0);
        if !p.Ack? then (s'.(phase := Aborted), [])
        else if p.block != s.block then (s', [])
        else LoopHead(stream, s'.(block := NextBlock(s.block)), false)
  }

  /** The state after a list of reports, and everything written so far. */
  function Run(stream: seq<byte>, events: seq<Event>): (Sender, seq<Packet>) {
    if events == [] then Start(stream)
    else
      var (s, sent) := Run(stream, events[..|events| - 1]);
      var (s', more) := Step(stream, s, events[|events| - 1]);
      (s', sent + more)
  }

  /** The bytes that go out for a file in the given mode. */
  function Outgoing(mode: Mode, contents: seq<byte>): seq<byte> {
    if mode == Netascii then Codec.Encode(contents) else contents
  }

  /** The stream a read request is served from: the file, or the file seen through the encoder. */
  class OpenFile {
    const mode: Mode
    const file: ByteStream
    const encoder: Encoder

    ghost predicate Valid()
      reads this, file, encoder, encoder.buffer
    {
      encoder.file == file && if mode == Netascii then encoder.Valid() else file.Valid()
    }

    ghost function Rest(): seq<byte>
      requires Valid()
      reads this, file, encoder, encoder.buffer
    {
      if mode == Netascii then encoder.Rest() else file.Unread()
    }

    constructor (mode: Mode, contents: seq<byte>)
      ensures Valid() && Rest() == Outgoing(mode, contents)
      ensures fresh(file) && fresh(encoder) && fresh(encoder.buffer)
    {
      var plain := new ByteStream(contents);
      var coded := new Encoder(plain);
      this.mode, file, encoder := mode, plain, coded;
    }

    method Read(n: nat) returns (out: seq<byte>)
      requires Valid()
      modifies file, encoder, encoder.buffer
      ensures Valid()
      ensures out == Slice(old(Rest()), 0, n) && Rest() == old(Rest())[|out|..]
    {
      if mode == Netascii {
        out := encoder.Read(n);
      } else {
        out := file.Read(n);
      }
    }

    /** What is still to be read is the stream from a position on. */
    ghost predicate Holds(stream: seq<byte>, pos: nat)
      reads this, file, encoder, encoder.buffer
    {
      pos <= |stream| && Valid() && Rest() == stream[pos..]
    }

    method ReadChunk(ghost stream: seq<byte>, ghost pos: nat) returns (out: seq<byte>)
      requires Holds(stream, pos)
      modifies file, encoder, encoder.buffer
      ensures out == Slice(stream, pos, MAX_DATA) && Holds(stream, pos + |out|)
    {
      out := Read(MAX_DATA);
      assert out == Slice(stream, pos, MAX_DATA);
      assert stream[pos..][|out|..] == stream[pos + |out|..];
    }
  }

  // ----- The loops -----

  /** The state after each number of reports, and everything written until then. */
  type Trace = nat -> (Sender, seq<Packet>)

  ghost predicate Steps(stream: seq<byte>, events: seq<Event>, run: Trace, i: nat)
    requires i < |events|
  {
    var (s, sent) := run(i);
    run(i + 1) == (Step(stream, s, events[i]).0, sent + Step(stream, s, events[i]).1)
  }

  ghost predicate IsTrace(stream: seq<byte>, events: seq<Event>, run: Trace) {
    run(0) == Start(stream) && forall i: nat :: i < |events| ==> Steps(stream, events, run, i)
  }

  /** The state and the packets written when the loop goes on from its top. */
  function Resumed(stream: seq<byte>, s: Sender, retry: bool, sent: seq<Packet>): (Sender, seq<Packet>) {
    (LoopHead(stream, s, retry).0, sent + LoopHead(stream, s, retry).1)
  }

  lemma ReadsNext(stream: seq<byte>, s: Sender, chunk: seq<byte>, sent: seq<Packet>)
    requires s.timeouts < MAX_TIMEOUTS && chunk == Slice(stream, s.pos, MAX_DATA)
    ensures var s' := s.(pos := s.pos + |chunk|, chunk := chunk);
      Resumed(stream, s, false, sent)
      == if chunk == [] && !s.maxData then (s'.(phase := Finished), sent)
         else (s'.(maxData := |chunk| == MAX_DATA), sent + [Data(s.block, chunk)])
  {
    assert sent + [] == sent;
  }

  lemma SendsAgain(stream: seq<byte>, s: Sender, sent: seq<Packet>)
    requires s.timeouts < MAX_TIMEOUTS
    ensures Resumed(stream, s, true, sent) == (s, sent + [Data(s.block, s.chunk)])
  {
  }

  lemma GivesUp(stream: seq<byte>, s: Sender, retry: bool, sent: seq<Packet>)
    requires s.timeouts >= MAX_TIMEOUTS
    ensures Resumed(stream, s, retry, sent) == (s.(phase := GaveUp), sent)
  {
    assert sent + [] == sent;
  }

  /** What each report means to a handler that waits. */
  lemma Reported(stream: seq<byte>, events: seq<Event>, run: Trace, i: nat, t: Sender, sent: seq<Packet>)
    requires IsTrace(stream, events, run) && i < |events| && run(i) == (t, sent) && t.phase == Waiting
    ensures var t' := t.(timeouts := 0);
      run(i + 1) ==
      match events[i]
      case Timeout => Resumed(stream, t.(timeouts := t.timeouts + 1), true, sent)
      case Interrupted => Resumed(stream, t, false, sent)
      case SelectError => (t.(phase := Aborted), sent)
      case Receive(p) =>
        if !p.Ack? then (t'.(phase := Aborted), sent)
        else if p.block != t.block then (t', sent)
        else Resumed(stream, t'.(block := NextBlock(t.block)), false, sent)
  {
    assert Steps(stream, events, run, i);
    assert sent + [] == sent;
  }

  lemma {:induction false} TraceStops(stream: seq<byte>, events: seq<Event>, run: Trace, i: nat)
    requires IsTrace(stream, events, run) && i <= |events| && run(i).0.phase != Waiting
    ensures run(|events|) == run(i)
    decreases |events| - i
  {
    if i < |events| {
      assert Steps(stream, events, run, i);
      assert run(i).1 + [] == run(i).1;
      TraceStops(stream, events, run, i + 1);
    }
  }

  /** How a wait for an acknowledgement ends; Exhausted means the run so far ends inside the wait. */
  datatype Reply = Acked | TimedOut | Woken | Stopped | Exhausted

  /** How far a wait gets through the reports, and the timeouts counted by then. */
  function Wait(block: BlockNumber, timeouts: nat, events: seq<Event>, i: nat): (r: (Reply, nat, nat))
    requires i <= |events|
    ensures i <= r.2 <= |events| && (r.0.Exhausted? || i < r.2)
    decreases |events| - i
  {
    if i == |events| then (Exhausted, timeouts, i)
    else
      match events[i]
      case Interrupted => (Woken, timeouts, i + 1)
      case Timeout => (TimedOut, timeouts + 1, i + 1)
      case SelectError => (Stopped, timeouts, i + 1)
      case Receive(p) =>
        if !p.Ack? then (Stopped, 0, i + 1)
        else if p.block == block then (Acked, 0, i + 1)
        else Wait(block, 0, events, i + 1)
  }

  /** The wait_for_ack part of the loop: other acknowledgements are swallowed without a send. */
  method AwaitAck(block: BlockNumber, timeouts: nat, events: seq<Event>, start: nat)
    returns (reply: Reply, timeouts': nat, i: nat)
    requires start <= |events|
    ensures (reply, timeouts', i) == Wait(block, timeouts, events, start)
  {
    i, timeouts' := start, timeouts;
    while i < |events|
      invariant start <= i <= |events|
      invariant Wait(block, timeouts', events, i) == Wait(block, timeouts, events, start)
    {
      var event := events[i];
      i := i + 1;
      if event == Interrupted {
        return Woken, timeouts', i;
      } else if event == Timeout {
        return TimedOut, timeouts' + 1, i;
      } else if event == SelectError {
        return Stopped, timeouts', i;
      }
      timeouts' := 0;
      if !event.packet.Ack? {
        return Stopped, timeouts', i;
      }
      if event.packet.block == block {
        return Acked, timeouts', i;
      }
    }
    reply := Exhausted;
  }

  /** What the run has come to when a wait ends so, the sender's timeouts counted up. */
  ghost predicate WaitEnds(stream: seq<byte>, run: Trace, n: nat, i: nat, t: Sender, sent: seq<Packet>, reply: Reply) {
    match reply
    case Exhausted => run(n) == (t, sent)
    case Stopped => run(n) == (t.(phase := Aborted), sent)
    case Acked => run(i) == Resumed(stream, t.(block := NextBlock(t.block)), false, sent)
    case TimedOut => run(i) == Resumed(stream, t, true, sent)
    case Woken => run(i) == Resumed(stream, t, false, sent)
  }

  /** A wait swallows every acknowledgement of another block and ends in the state the step function says. */
  lemma {:induction false} WaitRuns(stream: seq<byte>, events: seq<Event>, run: Trace, i: nat, t: Sender,
                                    sent: seq<Packet>)
    requires IsTrace(stream, events, run) && i <= |events|
    requires run(i) == (t, sent) && t.phase == Waiting && t.timeouts < MAX_TIMEOUTS
    ensures var (reply, timeouts, i') := Wait(t.block, t.timeouts, events, i);
      && timeouts <= MAX_TIMEOUTS
      && WaitEnds(stream, run, |events|, i', t.(timeouts := timeouts), sent, reply)
    decreases |events| - i
  {
    if i < |events| {
      Reported(stream, events, run, i, t, sent);
      var e := events[i];
      if e == SelectError || (e.Receive? && !e.packet.Ack?) {
        TraceStops(stream, events, run, i + 1);
      } else if e.Receive? && e.packet.block != t.block {
        WaitRuns(stream, events, run, i + 1, t.(timeouts := 0), sent);
      }
    }
  }

  /** The handler's loop of reads, writes and waits. */
  method ServeFile(file: OpenFile, ghost stream: seq<byte>, events: seq<Event>, ghost run: Trace)
    returns (sent: seq<Packet>, phase: Phase)
    requires file.Holds(stream, 0) && IsTrace(stream, events, run)
    modifies file.file, file.encoder, file.encoder.buffer
    ensures (phase, sent) == (run(|events|).0.phase, run(|events|).1)
  {
    var block: BlockNumber, timeouts: nat, retry, maxData := 1, 0, false, false;
    var data: seq<byte> := [];
    sent := [];
    var i: nat := 0;
    ghost var pos: nat := 0;
    ghost var s := Sender(1, 0, 0, [], false, Waiting);
    assert [] + Start(stream).1 == Start(stream).1;
    while timeouts < MAX_TIMEOUTS
      invariant file.Holds(stream, pos)
      invariant s == Sender(block, timeouts, pos, data, maxData, Waiting) && timeouts <= MAX_TIMEOUTS && i <= |events|
      invariant run(i) == Resumed(stream, s, retry, sent)
      decreases |events| - i
    {
      if !retry {
        data := file.ReadChunk(stream, pos);
        ReadsNext(stream, s, data, sent);
        if |data| == 0 && !maxData {
          TraceStops(stream, events, run, i);
          return sent, Finished;
        }
        maxData := |data| == MAX_DATA;
        pos := pos + |data|;
        s := s.(pos := pos, chunk := data, maxData := maxData);
      }
      if retry {
        SendsAgain(stream, s, sent);
      }
      retry := false;
      sent := sent + [Data(block, data)];
      WaitRuns(stream, events, run, i, s, sent);
      var reply, timeouts', i' := AwaitAck(block, timeouts, events, i);
      timeouts, i := timeouts', i';
      s := s.(timeouts := timeouts);
      if reply == Exhausted {
        return sent, Waiting;
      } else if reply == Stopped {
        return sent, Aborted;
      }
      retry := reply == TimedOut;
      if reply == Acked {
        block := NextBlock(block);
        s := s.(block := block);
      }
    }
    GivesUp(stream, s, retry, sent);
    TraceStops(stream, events, run, i);
    phase := GaveUp;
  }

  function RunTrace(stream: seq<byte>, events: seq<Event>): Trace {
    (i: nat) => if i <= |events| then Run(stream, events[..i]) else Run(stream, events)
  }

  lemma RunIsTrace(stream: seq<byte>, events: seq<Event>)
    ensures IsTrace(stream, events, RunTrace(stream, events))
    ensures RunTrace(stream, events)(|events|) == Run(stream, events)
  {
    var run := RunTrace(stream, events);
    assert events[..|events|] == events && events[..0] == [];
    forall i: nat | i < |events| ensures Steps(stream, events, run, i) {
      assert events[..i + 1][..i] == events[..i];
    }
  }

  /** The handler itself, over a file opened in the given mode. */
  method ServeRead(mode: Mode, contents: seq<byte>, events: seq<Event>)
    returns (sent: seq<Packet>, phase: Phase)
    ensures phase == Run(Outgoing(mode, contents), events).0.phase
    ensures sent == Run(Outgoing(mode, contents), events).1
  {
    ghost var stream := Outgoing(mode, contents);
    var file := new OpenFile(mode, contents);
    assert stream[0..] == stream;
    RunIsTrace(stream, events);
    sent, phase := ServeFile(file, stream, events, RunTrace(stream, events));
  }

  // ----- Where the sender stands in the stream -----

  /** The sender waits for the acknowledgement of block k, counted without wrapping. */
  ghost predicate At(stream: seq<byte>, s: Sender, k: nat) {
    && stream != [] && 1 <= k <= BlockCount(stream)
    && s.phase == Waiting && s.timeouts < MAX_TIMEOUTS
    && s.block == Wrap(k)
    && s.chunk == Chunk(stream, k)
    && s.pos == Min(512 * k, |stream|)
    && s.maxData == (512 * k <= |stream|)
  }

  lemma StartAt(stream: seq<byte>)
    ensures stream == [] ==> Start(stream).0.phase == Finished && Start(stream).1 == []
    ensures stream != [] ==> At(stream, Start(stream).0, 1) && Start(stream).1 == [DataPacket(stream, 1)]
  {
  }

  /** The acknowledgement of block k, unless k is the last block, moves the sender to block k + 1. */
  function NextIndex(stream: seq<byte>, k: nat, e: Event): nat {
    if e == Receive(Ack(Wrap(k))) && k < BlockCount(stream) then k + 1 else k
  }

  /** Everything an uninterrupted report can do to a sender that waits for block k. */
  lemma StepAt(stream: seq<byte>, s: Sender, k: nat, e: Event)
    requires At(stream, s, k) && e != Interrupted
    ensures var (s', sent) := Step(stream, s, e); var k' := NextIndex(stream, k, e);
      && (s'.phase == Waiting ==> At(stream, s', k'))
      && sent == (if s'.phase == Waiting && (e == Timeout || k' > k) then [DataPacket(stream, k')] else [])
      && s'.timeouts == (match e case Timeout => s.timeouts + 1 case Receive(_) => 0 case _ => s.timeouts)
      && (s'.phase == GaveUp <==> e == Timeout && s.timeouts + 1 == MAX_TIMEOUTS)
      && (s'.phase == Finished <==> e == Receive(Ack(Wrap(k))) && k == BlockCount(stream))
      && (s'.phase == Aborted <==> e == SelectError || (e.Receive? && !e.packet.Ack?))
  {
    assert NextBlock(Wrap(k)) == Wrap(k + 1);
  }
}
