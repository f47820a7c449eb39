/**
 The write-back buffer of the write-request handler. Payloads go into a string
 stream; after each full block all but 257 of the raw bytes held there are
 requested from the (possibly decoding) reader and written to the file.
 */
module TftpSpool {
  import opened Sequences
  import opened Bytes
  import opened Tftp
  import opened NetasciiStreams
  import N = Netascii

  const HELD_BACK := 257

  /**
   Sound until a read in mid-transfer meets the end of the string stream. After
   that the stream takes nothing in and gives nothing out; one more full block
   then asks for a negative number of bytes, which has no defined meaning.
   */
  datatype Health = Sound | Dead | Undefined

  /** Raw bytes not yet read, and bytes written to the file. */
  datatype Spool = Spool(pending: seq<byte>, written: seq<byte>, health: Health)

  const EMPTY := Spool([], [], Sound)

  /** The bytes a reader in this mode makes of raw bytes. */
  function Meaning(mode: Mode, raw: seq<byte>): seq<byte> {
    if mode == Netascii then N.Decode(raw) else raw
  }

  /** A DATA packet as it lies in the packet buffer. */
  function PacketBytes(block: BlockNumber, payload: seq<byte>): seq<byte> {
    [0, 3, block / 256, block % 256] + payload
  }

  /** The first n bytes of a buffer after its front has been overwritten. */
  function Overlaid(front: seq<byte>, buffer: seq<byte>, n: nat): seq<byte> {
    if |front| <= n <= |buffer| then front + buffer[|front|..n] else front
  }

  /** As many decoded bytes as there are, up to n. */
  function FirstDecoded(raw: seq<byte>, n: nat): seq<byte> { N.Decode(raw)[..Min(n, |N.Decode(raw)|)] }

  /** A full block on a sound netascii spool; what a short read leaves of the packet is written along. */
  function DecodeBack(spool: Spool, raw: seq<byte>, n: nat, packet: seq<byte>): Spool {
    var written := spool.written + Overlaid(FirstDecoded(raw, n), packet, n);
    if N.LooksPastEnd(raw, n) then Spool([], written, Dead) else Spool(raw[N.Consumed(raw, n)..], written, Sound)
  }

  function Absorb(mode: Mode, spool: Spool, block: BlockNumber, payload: seq<byte>): Spool {
    var raw := spool.pending + payload;
    match spool.health
    case Undefined => spool
    case Dead => if |payload| < MAX_DATA then spool else spool.(health := Undefined)
    case Sound =>
      if |payload| < MAX_DATA then spool.(pending := raw)
      else
        var n := |raw| - HELD_BACK;
        if mode == Octet then Spool(raw[n..], spool.written + raw[..n], Sound)
        else DecodeBack(spool, raw, n, PacketBytes(block, payload))
  }

  function AbsorbAll(mode: Mode, payloads: seq<seq<byte>>): Spool {
    if payloads == [] then EMPTY
    else Absorb(mode, AbsorbAll(mode, payloads[..|payloads| - 1]), Wrap(|payloads|), payloads[|payloads| - 1])
  }

  /** A full block on a sound spool, in terms of the raw bytes it makes up with the pending ones. */
  lemma AbsorbFull(mode: Mode, sp: Spool, block: BlockNumber, payload: seq<byte>, raw: seq<byte>)
    requires sp.health == Sound && |payload| == MAX_DATA && raw == sp.pending + payload
    ensures var n := |raw| - HELD_BACK;
      Absorb(mode, sp, block, payload)
      == if mode == Octet then Spool(raw[n..], sp.written + raw[..n], Sound)
         else DecodeBack(sp.(pending := raw), raw, n, PacketBytes(block, payload))
  {
  }

  /** A read that does not meet the end fills the whole request, so nothing stale is written. */
  lemma FullRead(raw: seq<byte>, n: nat, packet: seq<byte>)
    requires !N.LooksPastEnd(raw, n) && n <= |packet|
    ensures n <= |N.Decode(raw)| && Overlaid(FirstDecoded(raw, n), packet, n) == N.Decode(raw)[..n]
  {
    N.DecodeExtend(raw, [], n);
    assert packet[n..n] == [];
  }

  /** The string stream, the reader over it and the file being written. */
  class SpoolFile {
    const mode: Mode
    const ss: ByteStream
    const decoder: Decoder
    var file: seq<byte>
    var undefined: bool

    ghost predicate Valid()
      reads this, ss
    {
      decoder.file == ss && ss.Valid() && (mode == Octet ==> ss.good) && (undefined ==> !ss.good)
    }

    ghost function View(): Spool
      requires Valid()
      reads this, ss
    {
      Spool(ss.Unread(), file, if undefined then Undefined else if ss.good then Sound else Dead)
    }

    constructor (mode: Mode)
      ensures Valid() && View() == EMPTY && this.mode == mode
      ensures fresh(ss) && fresh(decoder)
    {
      var stream := new ByteStream([]);
      this.mode, ss := mode, stream;
      decoder := new Decoder(stream);
      file, undefined := [], false;
    }

    /** Take in one payload and, after a full block, write all but the last bytes back. */
    method Append(block: BlockNumber, payload: seq<byte>)
      requires Valid() && |payload| <= MAX_DATA && |View().pending| <= HELD_BACK
      modifies this, ss, decoder
      ensures Valid() && View() == Absorb(mode, old(View()), block, payload)
    {
      ss.Write(payload);
      if |payload| < MAX_DATA {
        return;
      }
      if !ss.good {
        undefined := true;
        return;
      }
      AbsorbFull(mode, old(View()), block, payload, ss.Unread());
      WriteBack(PacketBytes(block, payload));
    }

    /** Read all but 257 of the raw bytes into the packet buffer, and write as many bytes of it as were asked for. */
    method WriteBack(packet: seq<byte>)
      requires Valid() && ss.good && !undefined && HELD_BACK <= |ss.Unread()|
      modifies this, ss, decoder
      ensures Valid()
      ensures var raw := old(ss.Unread()); var n := |raw| - HELD_BACK;
        View() == if mode == Octet then Spool(raw[n..], old(file) + raw[..n], Sound)
                  else DecodeBack(old(View()), raw, n, packet)
    {
      var n := |ss.content| - ss.pos - HELD_BACK;
      if mode == Netascii {
        var front := decoder.Read(n);
        assert front == FirstDecoded(old(ss.Unread()), n);
        file := file + Overlaid(front, packet, n);
      } else {
        var front := ss.Read(n);
        file := file + front;
      }
    }

    /** Write out everything that is left when the loop ends. */
    method Flush()
      requires Valid()
      modifies this, ss, decoder
      ensures file == old(file) + Meaning(mode, old(View()).pending)
    {
      var rest;
      if mode == Netascii {
        rest := decoder.ReadAll();
      } else {
        rest := ss.Read(|ss.content| - ss.pos);
      }
      file := file + rest;
    }
  }

  // ----- Octet mode -----

  /** Written and pending bytes together are always the bytes accepted. */
  lemma {:induction false} OctetConserves(payloads: seq<seq<byte>>)
    ensures var sp := AbsorbAll(Octet, payloads);
      sp.health == Sound && sp.written + sp.pending == Flatten(payloads)
  {
    if payloads != [] {
      var before := AbsorbAll(Octet, payloads[..|payloads| - 1]);
      var last := payloads[|payloads| - 1];
      OctetConserves(payloads[..|payloads| - 1]);
      assert before.written + (before.pending + last) == (before.written + before.pending) + last;
      assert Absorb(Octet, before, Wrap(|payloads|), last).health == Sound;
      if |last| >= MAX_DATA {
        var n := |before.pending + last| - HELD_BACK;
        assert before.pending + last == (before.pending + last)[..n] + (before.pending + last)[n..];
      }
    }
  }

  ghost predicate AllFull(payloads: seq<seq<byte>>) {
    forall i :: 0 <= i < |payloads| ==> |payloads[i]| == MAX_DATA
  }

  /** The number of bytes requested from the reader when the last of these payloads arrives. */
  function ReadSize(mode: Mode, payloads: seq<seq<byte>>): int
    requires payloads != []
  {
    |AbsorbAll(mode, payloads[..|payloads| - 1]).pending| + |payloads[|payloads| - 1]| - HELD_BACK
  }

  /** After every full block exactly 257 bytes are held back; reads are 255 bytes, then 512 each. */
  lemma {:induction false} OctetHoldsBack(payloads: seq<seq<byte>>)
    requires AllFull(payloads) && payloads != []
    ensures |AbsorbAll(Octet, payloads).pending| == HELD_BACK
    ensures ReadSize(Octet, payloads) == if |payloads| == 1 then 255 else 512
    ensures 0 < ReadSize(Octet, payloads) <= 516
  {
    var before := payloads[..|payloads| - 1];
    OctetConserves(before);
    if before != [] {
      OctetHoldsBack(before);
    }
  }

  // ----- Netascii mode -----

  lemma DecodeCut(raw: seq<byte>, later: seq<byte>, n: nat)
    requires !N.LooksPastEnd(raw, n)
    ensures n <= |N.Decode(raw)|
    ensures N.Decode(raw)[..n] + N.Decode(raw[N.Consumed(raw, n)..] + later) == N.Decode(raw + later)
  {
    N.DecodeExtend(raw, later, n);
    N.DecodeSplit(raw + later, n);
    assert (raw + later)[N.Consumed(raw, n)..] == raw[N.Consumed(raw, n)..] + later;
  }

  lemma AbsorbConserves(sp: Spool, block: BlockNumber, payload: seq<byte>, later: seq<byte>)
    requires Absorb(Netascii, sp, block, payload).health == Sound && |sp.pending| <= HELD_BACK && |payload| <= MAX_DATA
    ensures var sp' := Absorb(Netascii, sp, block, payload);
      sp'.written + N.Decode(sp'.pending + later) == sp.written + N.Decode(sp.pending + payload + later)
  {
    var raw := sp.pending + payload;
    if |payload| >= MAX_DATA {
      var n := |raw| - HELD_BACK;
      FullRead(raw, n, PacketBytes(block, payload));
      DecodeCut(raw, later, n);
      Associative(sp.written, N.Decode(raw)[..n], N.Decode(raw[N.Consumed(raw, n)..] + later));
    }
  }

  lemma ConservesStep(sp: Spool, block: BlockNumber, payload: seq<byte>, later: seq<byte>, all: seq<byte>)
    requires Absorb(Netascii, sp, block, payload).health == Sound && |sp.pending| <= HELD_BACK && |payload| <= MAX_DATA
    requires sp.written + N.Decode(sp.pending + (payload + later)) == N.Decode(all)
    ensures var sp' := Absorb(Netascii, sp, block, payload);
      sp'.written + N.Decode(sp'.pending + later) == N.Decode(all)
  {
    AbsorbConserves(sp, block, payload, later);
    Associative(sp.pending, payload, later);
  }

  /** Full blocks, closed by at most one shorter one: what a transfer accepts. */
  ghost predicate Transfer(payloads: seq<seq<byte>>) {
    && (forall i :: 0 <= i < |payloads| - 1 ==> |payloads[i]| == MAX_DATA)
    && (payloads != [] ==> |payloads[|payloads| - 1]| <= MAX_DATA)
  }

  lemma TransferInit(payloads: seq<seq<byte>>)
    requires Transfer(payloads) && payloads != []
    ensures AllFull(payloads[..|payloads| - 1]) && Transfer(payloads[..|payloads| - 1])
  {
  }

  /**
   As long as no read has met the end, what is written plus the decoding of what
   is pending is the decoding of everything accepted, whatever arrives later.
   */
  lemma {:induction false} NetasciiConserves(payloads: seq<seq<byte>>, later: seq<byte>)
    requires Transfer(payloads) && AbsorbAll(Netascii, payloads).health == Sound
    ensures var sp := AbsorbAll(Netascii, payloads);
      sp.written + N.Decode(sp.pending + later) == N.Decode(Flatten(payloads) + later)
  {
    if payloads != [] {
      var init, last := payloads[..|payloads| - 1], payloads[|payloads| - 1];
      TransferInit(payloads);
      NetasciiPending(init);
      NetasciiConserves(init, last + later);
      FlattenLast(payloads, later);
      ConservesStep(AbsorbAll(Netascii, init), Wrap(|payloads|), last, later, Flatten(payloads) + later);
    }
  }

  /** The first bytes are the tail of the others. */
  ghost predicate IsTail(tail: seq<byte>, all: seq<byte>) {
    |tail| <= |all| && tail == all[|all| - |tail|..]
  }

  lemma PendingStep(sp: Spool, block: BlockNumber, payload: seq<byte>, all: seq<byte>)
    requires |payload| == MAX_DATA && |sp.pending| <= HELD_BACK && IsTail(sp.pending, all)
    ensures |Absorb(Netascii, sp, block, payload).pending| <= HELD_BACK
    ensures IsTail(Absorb(Netascii, sp, block, payload).pending, all + payload) || sp.health != Sound
  {
    var raw := sp.pending + payload;
    var n := |raw| - HELD_BACK;
    if sp.health == Sound && !N.LooksPastEnd(raw, n) {
      N.DecodeExtend(raw, [], n);
      N.ConsumedAtLeast(raw, n);
      TailOfTail(sp.pending, payload, all, N.Consumed(raw, n));
    }
  }

  lemma TailOfTail(tail: seq<byte>, payload: seq<byte>, all: seq<byte>, c: nat)
    requires IsTail(tail, all) && c <= |tail + payload|
    ensures IsTail((tail + payload)[c..], all + payload)
  {
  }

  /** What is pending is always the tail of what was accepted, and at most 257 bytes after full blocks. */
  lemma {:induction false} NetasciiPending(payloads: seq<seq<byte>>)
    requires AllFull(payloads)
    ensures var sp := AbsorbAll(Netascii, payloads);
      && |sp.pending| <= HELD_BACK && IsTail(sp.pending, Flatten(payloads))
      && (sp.health != Sound ==> sp.pending == [])
  {
    if payloads != [] {
      var init := payloads[..|payloads| - 1];
      NetasciiPending(init);
      PendingStep(AbsorbAll(Netascii, init), Wrap(|payloads|), payloads[|payloads| - 1], Flatten(init));
    }
  }

  /** In either mode the next full block finds room for what it makes the handler read. */
  lemma PendingBound(mode: Mode, payloads: seq<seq<byte>>)
    requires AllFull(payloads)
    ensures |AbsorbAll(mode, payloads).pending| <= HELD_BACK
  {
    if mode == Netascii {
      NetasciiPending(payloads);
    } else if payloads != [] {
      OctetHoldsBack(payloads);
    }
  }

  /** No stretch of at most 769 bytes holds more than 256 pairs. */
  ghost predicate FewPairs(stream: seq<byte>) {
    forall i, j :: 0 <= i <= j <= |stream| && j - i <= 769 ==> N.Pairs(stream[i..j]) <= 256
  }

  lemma FewPairsPrefix(stream: seq<byte>, n: nat)
    requires FewPairs(stream) && n <= |stream|
    ensures FewPairs(stream[..n])
  {
    forall i, j | 0 <= i <= j <= n && j - i <= 769 ensures N.Pairs(stream[..n][i..j]) <= 256 {
      assert stream[..n][i..j] == stream[i..j];
    }
  }

  lemma FewPairsStep(sp: Spool, block: BlockNumber, payload: seq<byte>, all: seq<byte>)
    requires |payload| == MAX_DATA && FewPairs(all + payload) && sp.health == Sound
    requires |sp.pending| <= HELD_BACK && IsTail(sp.pending, all)
    ensures Absorb(Netascii, sp, block, payload).health == Sound
    ensures 1 <= |Absorb(Netascii, sp, block, payload).pending|
  {
    var raw := sp.pending + payload;
    FewPairsTail(sp.pending, payload, all, raw);
    SparseRead(raw, |raw| - HELD_BACK);
    AbsorbFull(Netascii, sp, block, payload, raw);
  }

  lemma FewPairsTail(tail: seq<byte>, payload: seq<byte>, all: seq<byte>, raw: seq<byte>)
    requires |payload| == MAX_DATA && FewPairs(all + payload) && |tail| <= HELD_BACK && IsTail(tail, all)
    requires raw == tail + payload
    ensures N.Pairs(raw) <= 256
  {
    var whole := all + payload;
    assert raw == whole[|whole| - |raw|..|whole|];
  }

  /** With at most 256 pairs a read of all but 257 bytes leaves something behind. */
  lemma SparseRead(raw: seq<byte>, n: nat)
    requires |raw| == n + HELD_BACK && N.Pairs(raw) <= 256
    ensures !N.LooksPastEnd(raw, n) && N.Consumed(raw, n) < |raw|
  {
    SparseMeetsNoEnd(raw, n);
    SparseDecodes(raw, n);
    SomethingLeft(raw, n);
  }

  lemma SparseMeetsNoEnd(raw: seq<byte>, n: nat)
    requires |raw| == n + HELD_BACK && N.Pairs(raw) <= 256
    ensures !N.LooksPastEnd(raw, n)
  {
    N.ReadReachesEnd(raw, HELD_BACK);
  }

  lemma SparseDecodes(raw: seq<byte>, n: nat)
    requires |raw| == n + HELD_BACK && N.Pairs(raw) <= 256
    ensures n < |N.Decode(raw)|
  {
    N.DecodedLength(raw);
  }

  lemma SomethingLeft(raw: seq<byte>, n: nat)
    requires n < |N.Decode(raw)|
    ensures N.Consumed(raw, n) < |raw|
  {
    var here := N.DecodeStep(raw, n);
  }

  /**
   When pairs are that sparse no read in mid-transfer meets the end of the
   stream, and at least one and at most 257 bytes stay pending after each full block.
   */
  lemma {:induction false} FewPairsNeverSpoil(payloads: seq<seq<byte>>)
    requires AllFull(payloads) && FewPairs(Flatten(payloads))
    ensures AbsorbAll(Netascii, payloads).health == Sound
    ensures payloads != [] ==> 1 <= |AbsorbAll(Netascii, payloads).pending| <= HELD_BACK
  {
    if payloads != [] {
      var init := payloads[..|payloads| - 1];
      assert Flatten(init) == Flatten(payloads)[..|Flatten(init)|];
      FewPairsPrefix(Flatten(payloads), |Flatten(init)|);
      FewPairsNeverSpoil(init);
      NetasciiPending(init);
      FewPairsStep(AbsorbAll(Netascii, init), Wrap(|payloads|), payloads[|payloads| - 1], Flatten(init));
      NetasciiPending(payloads);
    }
  }

  // ----- When a read meets the end, and what that does to the file -----

  /** The raw bytes from which the last of these payloads makes the handler read. */
  function RawAt(payloads: seq<seq<byte>>): seq<byte>
    requires payloads != []
  {
    AbsorbAll(Netascii, payloads[..|payloads| - 1]).pending + payloads[|payloads| - 1]
  }

  /** The last block spoils the spool exactly when too many of the bytes then pending are pairs. */
  lemma SpoilsExactly(payloads: seq<seq<byte>>)
    requires AllFull(payloads) && payloads != []
    requires AbsorbAll(Netascii, payloads[..|payloads| - 1]).health == Sound
    ensures var raw := RawAt(payloads);
      AbsorbAll(Netascii, payloads).health
      == if N.Pairs(raw) > HELD_BACK || (N.Pairs(raw) == HELD_BACK && raw[|raw| - 1] == CR) then Dead else Sound
  {
    N.ReadReachesEnd(RawAt(payloads), HELD_BACK);
  }

  /** The last of these full blocks is the one whose read met the end. */
  ghost predicate JustDied(payloads: seq<seq<byte>>) {
    && AllFull(payloads) && payloads != []
    && AbsorbAll(Netascii, payloads[..|payloads| - 1]).health == Sound && AbsorbAll(Netascii, payloads).health == Dead
  }

  /** A read that meets the end gives all that can be decoded, and the rest of the write is stale. */
  lemma ShortRead(raw: seq<byte>, n: nat, packet: seq<byte>)
    requires N.LooksPastEnd(raw, n) && n <= |packet|
    ensures |N.Decode(raw)| <= n
    ensures Overlaid(FirstDecoded(raw, n), packet, n) == N.Decode(raw) + packet[|N.Decode(raw)|..n]
  {
    N.LooksPastEndByLength(raw, n);
    assert N.Decode(raw)[..|N.Decode(raw)|] == N.Decode(raw);
  }

  /** The bytes of the packet that are written although they were never read. */
  function StaleOf(raw: seq<byte>, packet: seq<byte>): seq<byte> {
    var k, n := |N.Decode(raw)|, |raw| - HELD_BACK;
    if k <= n <= |packet| then packet[k..n] else []
  }

  function Stale(payloads: seq<seq<byte>>): seq<byte>
    requires payloads != []
  {
    StaleOf(RawAt(payloads), PacketBytes(Wrap(|payloads|), payloads[|payloads| - 1]))
  }

  /**
   The file of a transfer that dies: everything decoded up to that point, then
   stale bytes of the packet, as many as there are pairs beyond 257, and of the
   closing block nothing.
   */
  lemma SpoiledFile(payloads: seq<seq<byte>>, closing: seq<byte>)
    requires JustDied(payloads) && |closing| < MAX_DATA
    ensures FinalFile(Netascii, payloads + [closing]) == N.Decode(Flatten(payloads)) + Stale(payloads)
    ensures |Stale(payloads)| == N.Pairs(RawAt(payloads)) - HELD_BACK
  {
    DeadSpool(payloads);
    var all := payloads + [closing];
    assert all[..|payloads|] == payloads;
    var sp := AbsorbAll(Netascii, payloads);
    assert AbsorbAll(Netascii, all) == sp;
    assert sp.written + [] == sp.written;
  }

  lemma DiesOfRead(sp: Spool, raw: seq<byte>, n: nat, packet: seq<byte>)
    requires DecodeBack(sp, raw, n, packet).health == Dead && n <= |packet|
    ensures |N.Decode(raw)| <= n
    ensures DecodeBack(sp, raw, n, packet)
         == Spool([], sp.written + N.Decode(raw) + packet[|N.Decode(raw)|..n], Dead)
  {
    ShortRead(raw, n, packet);
    Associative(sp.written, N.Decode(raw), packet[|N.Decode(raw)|..n]);
  }

  /** The stale bytes are payload: they lie as far behind the header as there were decoded bytes. */
  lemma StaleIsPayload(payloads: seq<seq<byte>>)
    requires JustDied(payloads)
    ensures var k, n := |N.Decode(RawAt(payloads))|, |RawAt(payloads)| - 257;
      4 <= k <= n <= 512 && Stale(payloads) == payloads[|payloads| - 1][k - 4..n - 4]
  {
    var init, last := payloads[..|payloads| - 1], payloads[|payloads| - 1];
    var raw := RawAt(payloads);
    NetasciiPending(init);
    AbsorbFull(Netascii, AbsorbAll(Netascii, init), Wrap(|payloads|), last, raw);
    DiesOfRead(AbsorbAll(Netascii, init).(pending := raw), raw, |raw| - HELD_BACK, PacketBytes(Wrap(|payloads|), last));
    HalfDecodes(raw);
    BehindHeader(Wrap(|payloads|), last, |N.Decode(raw)|, |raw| - HELD_BACK);
  }

  lemma {:induction false} HalfDecodes(raw: seq<byte>)
    ensures 2 * |N.Decode(raw)| >= |raw|
  {
    if raw != [] {
      HalfDecodes(raw[N.UnitLength(raw)..]);
    }
  }

  lemma BehindHeader(block: BlockNumber, payload: seq<byte>, k: nat, n: nat)
    requires 4 <= k <= n <= 4 + |payload|
    ensures PacketBytes(block, payload)[k..n] == payload[k - 4..n - 4]
  {
  }

  /** After that one more full block, and nothing less, leaves the handler without a defined meaning. */
  lemma DeadThenFull(payloads: seq<seq<byte>>, more: seq<byte>)
    requires JustDied(payloads)
    ensures AbsorbAll(Netascii, payloads + [more]).health == if |more| < 512 then Dead else Undefined
    ensures AbsorbAll(Netascii, payloads + [more]).written == AbsorbAll(Netascii, payloads).written
  {
    assert (payloads + [more])[..|payloads|] == payloads;
  }

  /** Everything up to the block that a spool died of is decoded once that block is. */
  lemma DecodedSoFar(payloads: seq<seq<byte>>)
    requires JustDied(payloads)
    ensures AbsorbAll(Netascii, payloads[..|payloads| - 1]).written + N.Decode(RawAt(payloads))
         == N.Decode(Flatten(payloads))
  {
    var init, last := payloads[..|payloads| - 1], payloads[|payloads| - 1];
    NetasciiConserves(init, last);
  }

  lemma DeadStep(sp: Spool, block: BlockNumber, payload: seq<byte>, raw: seq<byte>, all: seq<byte>)
    requires sp.health == Sound && |payload| == MAX_DATA && |sp.pending| <= HELD_BACK && raw == sp.pending + payload
    requires Absorb(Netascii, sp, block, payload).health == Dead && sp.written + N.Decode(raw) == all
    ensures Absorb(Netascii, sp, block, payload) == Spool([], all + StaleOf(raw, PacketBytes(block, payload)), Dead)
    ensures |StaleOf(raw, PacketBytes(block, payload))| == N.Pairs(raw) - HELD_BACK
  {
    AbsorbFull(Netascii, sp, block, payload, raw);
    DiesOfRead(sp.(pending := raw), raw, |raw| - HELD_BACK, PacketBytes(block, payload));
    N.DecodedLength(raw);
  }

  lemma DeadSpool(payloads: seq<seq<byte>>)
    requires JustDied(payloads)
    ensures AbsorbAll(Netascii, payloads) == Spool([], N.Decode(Flatten(payloads)) + Stale(payloads), Dead)
    ensures |Stale(payloads)| == N.Pairs(RawAt(payloads)) - HELD_BACK
  {
    var init, last := payloads[..|payloads| - 1], payloads[|payloads| - 1];
    NetasciiPending(init);
    DecodedSoFar(payloads);
    DeadStep(AbsorbAll(Netascii, init), Wrap(|payloads|), last, RawAt(payloads), N.Decode(Flatten(payloads)));
  }

  /**
   A dead transfer that an empty block closes leaves the right file exactly when the
   read met the end only by looking behind a final CR.
   */
  lemma DamagedExactly(payloads: seq<seq<byte>>)
    requires JustDied(payloads)
    ensures FinalFile(Netascii, payloads + [[]]) == N.Decode(Flatten(payloads + [[]]))
       <==> N.Pairs(RawAt(payloads)) == HELD_BACK
  {
    SpoiledFile(payloads, []);
    FlattenOneMore(payloads, [], []);
    assert Flatten(payloads + [[]]) == Flatten(payloads);
  }

  /** n line ends in netascii. */
  function LineEnds(n: nat): seq<byte> {
    if n == 0 then [] else [CR, LF] + LineEnds(n - 1)
  }

  lemma {:induction false} PairsOfLineEnds(n: nat, rest: seq<byte>)
    ensures |LineEnds(n)| == 2 * n && N.Pairs(LineEnds(n) + rest) == n + N.Pairs(rest)
  {
    if n == 0 {
      assert LineEnds(0) + rest == rest;
    } else {
      PairsOfLineEnds(n - 1, rest);
      var s := LineEnds(n) + rest;
      assert s == [CR, LF] + (LineEnds(n - 1) + rest);
      N.PairsSkipUnit(s);
    }
  }

  lemma {:induction false} PlainStart(s: seq<byte>, n: nat)
    requires n < |s| && forall i :: 0 <= i < n ==> s[i] != CR
    ensures N.Consumed(s, n) == n && !N.LooksPastEnd(s, n)
  {
    if n > 0 {
      PlainStart(s[1..], n - 1);
    }
  }

  lemma {:induction false} PairsAfterPlain(s: seq<byte>, n: nat)
    requires n <= |s| && forall i :: 0 <= i < n ==> s[i] != CR
    ensures N.Pairs(s) == N.Pairs(s[n..])
  {
    if n == 0 {
      assert s[0..] == s;
    } else {
      PairsAfterPlain(s[1..], n - 1);
      assert s[1..][n - 1..] == s[n..];
    }
  }

  /** A block of plain text that closes with k line ends and one more plain byte. */
  function TextBlock(plain: byte, k: nat): seq<byte>
    requires k <= 128
  {
    seq(511 - 2 * k, _ => plain) + (LineEnds(k) + [plain])
  }

  lemma FirstTextBlock(plain: byte, k: nat)
    requires plain != CR && k <= 128
    ensures |TextBlock(plain, k)| == MAX_DATA
    ensures AbsorbAll(Netascii, [TextBlock(plain, k)]).health == Sound
    ensures AbsorbAll(Netascii, [TextBlock(plain, k)]).pending == TextBlock(plain, k)[255..]
  {
    var first := TextBlock(plain, k);
    PairsOfLineEnds(k, [plain]);
    PlainStart(first, 255);
    assert AbsorbAll(Netascii, []) == EMPTY && EMPTY.pending + first == first;
  }

  lemma DropPlain(plain: byte, n: nat, m: nat, t: seq<byte>)
    requires m <= n
    ensures (seq(n, _ => plain) + t)[m..] == seq(n - m, _ => plain) + t
  {
  }

  /** What is held back of such a block: plain text and its last lines. */
  lemma TextTail(plain: byte, k: nat, t: seq<byte>)
    requires k <= 128 && t == LineEnds(k) + [plain]
    ensures |TextBlock(plain, k)| == MAX_DATA
    ensures TextBlock(plain, k)[255..] == seq(256 - 2 * k, _ => plain) + t
  {
    PairsOfLineEnds(k, [plain]);
    DropPlain(plain, 511 - 2 * k, 255, t);
  }

  lemma PairsOfTail(plain: byte, k: nat, m: nat, t: seq<byte>)
    requires plain != CR && t == LineEnds(k) + [plain] + LineEnds(m)
    ensures N.Pairs(t) == k + m
  {
    var rest := [plain] + LineEnds(m);
    Associative(LineEnds(k), [plain], LineEnds(m));
    PairsOfLineEnds(k, rest);
    PairsAfterPlain(rest, 1);
    assert rest[1..] == LineEnds(m) == LineEnds(m) + [];
    PairsOfLineEnds(m, []);
  }

  lemma PairsBehindPlain(plain: byte, n: nat, t: seq<byte>)
    requires plain != CR
    ensures N.Pairs(seq(n, _ => plain) + t) == N.Pairs(t)
  {
    var s := seq(n, _ => plain) + t;
    assert s[n..] == t;
    PairsAfterPlain(s, n);
  }

  lemma PairsBehindText(plain: byte, k: nat, m: nat)
    requires plain != CR && k <= 128
    ensures |TextBlock(plain, k)| == MAX_DATA
    ensures N.Pairs(TextBlock(plain, k)[255..] + LineEnds(m)) == k + m
  {
    var t, front := LineEnds(k) + [plain], seq(256 - 2 * k, _ => plain);
    TextTail(plain, k, t);
    Associative(front, t, LineEnds(m));
    PairsBehindPlain(plain, 256 - 2 * k, t + LineEnds(m));
    PairsOfTail(plain, k, m, t + LineEnds(m));
  }

  /**
   Two line ends at the end of one block and a whole block of them after it already
   spoil a transfer, and the file is then not the decoding of what was sent.
   */
  lemma LineEndsSpoil(plain: byte, k: nat, m: nat)
    requires plain != CR && 2 <= k <= 128 && m == 256
    ensures var blocks := [TextBlock(plain, k), LineEnds(m)];
      && JustDied(blocks)
      && FinalFile(Netascii, blocks + [[]]) != N.Decode(Flatten(blocks + [[]]))
  {
    FirstTextBlock(plain, k);
    PairsBehindText(plain, k, m);
    PairsOfLineEnds(m, []);
    var blocks := [TextBlock(plain, k), LineEnds(m)];
    assert blocks[..1] == [TextBlock(plain, k)];
    SpoilsExactly(blocks);
    DamagedExactly(blocks);
  }

  // ----- The finished file -----

  /** What the file holds once the loop has ended and the rest has been flushed. */
  function FinalFile(mode: Mode, payloads: seq<seq<byte>>): seq<byte> {
    AbsorbAll(mode, payloads).written + Meaning(mode, AbsorbAll(mode, payloads).pending)
  }

  lemma TransferNeverSpoils(payloads: seq<seq<byte>>)
    requires Transfer(payloads) && FewPairs(Flatten(payloads))
    ensures AbsorbAll(Netascii, payloads).health == Sound
  {
    if payloads != [] && |payloads[|payloads| - 1]| < MAX_DATA {
      var init := payloads[..|payloads| - 1];
      assert Flatten(init) == Flatten(payloads)[..|Flatten(init)|];
      FewPairsPrefix(Flatten(payloads), |Flatten(init)|);
      FewPairsNeverSpoil(init);
    } else {
      FewPairsNeverSpoil(payloads);
    }
  }

  /**
   The finished file is the whole accepted stream in octet mode. In netascii mode
   it is the one-shot decoding of the whole stream, provided no read in
   mid-transfer met the end, which sparse pairs guarantee.
   */
  lemma FinalFileIsMeaning(mode: Mode, payloads: seq<seq<byte>>)
    requires Transfer(payloads)
    ensures mode == Netascii && FewPairs(Flatten(payloads)) ==> AbsorbAll(mode, payloads).health == Sound
    ensures mode == Octet ==> AbsorbAll(mode, payloads).health == Sound
    ensures AbsorbAll(mode, payloads).health == Sound ==>
              FinalFile(mode, payloads) == Meaning(mode, Flatten(payloads))
  {
    if mode == Octet {
      OctetConserves(payloads);
    } else {
      if FewPairs(Flatten(payloads)) {
        TransferNeverSpoils(payloads);
      }
      if AbsorbAll(mode, payloads).health == Sound {
        NetasciiConserves(payloads, []);
        assert AbsorbAll(mode, payloads).pending + [] == AbsorbAll(mode, payloads).pending;
        assert Flatten(payloads) + [] == Flatten(payloads);
      }
    }
  }
}
