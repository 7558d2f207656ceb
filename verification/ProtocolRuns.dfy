/** What the data transfer protocol guarantees in every run. */
module ProtocolRuns {
  import opened Packets
  import opened RcvBuf
  import opened AckHistory
  import opened Endpoint
  import opened Protocol

  lemma NextKeeps(c: Config, w: World, e: Event)
    requires Inv(c, w)
    ensures Inv(c, Next(c, w, e))
  {
    hide Inv;
    match e
    case UserSend(data) => SendKeeps(c, w, data);
    case Transmit(cwnd) => TransmitKeeps(c, w, cwnd);
    case DataArrives(d) => if d in w.sent { DataKeeps(c, w, d); }
    case AckTimer(lite, soon, now) => AckTimerKeeps(c, w, lite, soon, now);
    case AckArrives(a, ack2) => if a in w.acks { AckKeeps(c, w, a, ack2); }
    case NakArrives(runs) => if runs in w.naks { NakKeeps(c, w, runs); }
    case ExpTimer => ExpireKeeps(c, w);
    case Ack2Arrives(number, now) => if number in w.ack2s { Ack2Keeps(c, w, number, now); }
    case UserRecv(len) => RecvKeeps(c, w, len);
  }

  /** The world after the events. */
  ghost function RunFrom(c: Config, w: World, events: seq<Event>): (w2: World)
    requires Inv(c, w)
    ensures Inv(c, w2)
    decreases |events|
  {
    if events == [] then w
    else
      var before := RunFrom(c, w, events[..|events| - 1]);
      NextKeeps(c, before, events[|events| - 1]);
      Next(c, before, events[|events| - 1])
  }

  ghost function WorldAfter(c: Config, events: seq<Event>): (w: World)
    requires GoodConfig(c)
    ensures Inv(c, w)
  {
    InitInv(c);
    RunFrom(c, Init(c), events)
  }

  /** The bytes that recv has returned are a prefix of the bytes that send has accepted. */
  lemma DeliversPrefix(c: Config, events: seq<Event>)
    requires GoodConfig(c)
    ensures WorldAfter(c, events).delivered <= WorldAfter(c, events).accepted
  {
    hide WorldAfter, Inv;
    PrefixOfHistory(c, WorldAfter(c, events));
  }

  lemma PrefixOfHistory(c: Config, w: World)
    requires Inv(c, w)
    ensures w.delivered <= w.accepted
  {
    hide SenderInv, CellsInv, SentInv, AcksInv, NaksInv, Ack2Inv, RecordsInv, ReceivedInv, Concat, Stream, NotchInside, Waiting;
    DeliveredPart(w.hist, w.r.lastAck - c.isn, w.delivered, Stream(Waiting(c, w.r, w.hist), w.r.notch));
  }

  lemma DeliveredPart(hist: seq<Packet>, k: int, delivered: seq<byte>, waiting: seq<byte>)
    requires 0 <= k <= |hist| && delivered + waiting == Concat(hist[..k])
    ensures delivered <= Concat(hist)
  {
    hide Concat;
    ConcatAppend(hist[..k], hist[k..]);
    assert hist[..k] + hist[k..] == hist;
  }

  /** Every transmission of a number carries the same packet, the one made from the bytes accepted at its place. */
  lemma SameBytes(c: Config, events: seq<Event>, d: Data)
    requires GoodConfig(c) && d in WorldAfter(c, events).sent
    ensures var w := WorldAfter(c, events);
            && c.isn <= d.seqno < c.isn + |w.hist| && d.packet == w.hist[d.seqno - c.isn] && Concat(w.hist) == w.accepted
  {
    hide WorldAfter, Inv, Concat;
    InvSent(c, WorldAfter(c, events), d);
  }

  /** No ACK and no loss report is taken for an attack. */
  lemma NeverBroken(c: Config, events: seq<Event>)
    requires GoodConfig(c)
    ensures !WorldAfter(c, events).s.broken
  {
    var w := WorldAfter(c, events);
    hide WorldAfter, CellsInv, StreamInv, SentInv, AcksInv, NaksInv, Ack2Inv, RecordsInv, ReceivedInv, Concat;
    assert SenderInv(c, w.s, w.hist);
  }

  /** Everything before the number of an ACK has been received. */
  lemma AckSound(c: Config, events: seq<Event>, a: Ack, n: int)
    requires GoodConfig(c) && a in WorldAfter(c, events).acks && c.isn <= n < a.ack
    ensures n in WorldAfter(c, events).received
  {
    var w := WorldAfter(c, events);
    hide WorldAfter, SenderInv, CellsInv, StreamInv, SentInv, AcksInv, NaksInv, Ack2Inv, RecordsInv, ReceivedInv, Concat;
    InvParts(c, w);
    AckNumberFacts(c, w.r);
    hide Partition, AckNumber;
    AckInNet(c, w.acks, a, AckNumber(w.r), w.ackLog);
    BeforeMissing(c, w.r, w.received, AckNumber(w.r), n);
  }

  lemma BeforeMissing(c: Config, r: Receiver, received: set<int>, k: int, n: int)
    requires IsFirstMissing(r, k) && ReceivedInv(c, r, received) && c.isn <= n < k
    requires forall x :: x in r.lost ==> r.lastAck <= x
    ensures n in received
  {
  }

  /** Between lastAck and the largest number received, each number is either stored in its cell or in the loss list. */
  lemma ReceiverPartition(c: Config, events: seq<Event>, n: int)
    requires GoodConfig(c)
    requires var r := WorldAfter(c, events).r; r.lastAck <= n <= r.currSeq
    ensures var (r, hist) := (WorldAfter(c, events).r, WorldAfter(c, events).hist);
            && 0 <= n - Start(r) < |r.ring.cells| && 0 <= n - c.isn < |hist|
            && (n in r.lost <==> r.ring.cells[n - Start(r)] == Empty)
            && (n !in r.lost ==> r.ring.cells[n - Start(r)] == Full(hist[n - c.isn], 1))
  {
    hide WorldAfter, Inv, CellsInv, Start, Empties;
    var w := WorldAfter(c, events);
    InvReceiver(c, w);
    PartitionAt(c, w.r, w.hist, n);
  }

  lemma PartitionAt(c: Config, r: Receiver, hist: seq<Packet>, n: int)
    requires CellsInv(c, r, hist) && r.lastAck <= n <= r.currSeq
    ensures 0 <= n - Start(r) < |r.ring.cells| && 0 <= n - c.isn < |hist|
    ensures n in r.lost <==> r.ring.cells[n - Start(r)] == Empty
    ensures n !in r.lost ==> r.ring.cells[n - Start(r)] == Full(hist[n - c.isn], 1)
  {
    assert Start(r) + (n - Start(r)) == n;
  }

  /** What is unacknowledged, counted from the first packet in the send buffer, never exceeds the span, and so no two
      numbers in the sender's loss list are as far apart. */
  lemma WindowRespected(c: Config, events: seq<Event>, x: int, y: int)
    requires GoodConfig(c)
    ensures var s := WorldAfter(c, events).s;
            && s.currSeq + 1 - s.dataAck <= Span(c) && s.lastAck + s.window <= s.dataAck + Span(c)
            && (x in s.lost && y in s.lost && x < y ==> y - x < Span(c))
  {
    var w := WorldAfter(c, events);
    hide WorldAfter, CellsInv, StreamInv, SentInv, AcksInv, NaksInv, Ack2Inv, RecordsInv, ReceivedInv, Concat;
    assert SenderInv(c, w.s, w.hist);
  }

  /** A lite ACK leaves the right edge of the window where it is. */
  lemma LiteAckConserves(c: Config, s: Sender, ack: int)
    requires Bound(c, s)
    ensures var s2 := OnAck(c, s, LiteAck(ack)); s2.lastAck + s2.window == s.lastAck + s.window && s2.dataAck == s.dataAck
  {
  }

  /** ACKs stop only at a number that the sender has already taken into account. */
  lemma SilenceIsSafe(c: Config, events: seq<Event>)
    requires GoodConfig(c)
    ensures WorldAfter(c, events).r.lastAckAck <= WorldAfter(c, events).s.dataAck
  {
    var w := WorldAfter(c, events);
    hide WorldAfter, CellsInv, StreamInv, SentInv, AcksInv, NaksInv, Ack2Inv, RecordsInv, ReceivedInv, Concat;
    assert SenderInv(c, w.s, w.hist);
  }

  // ---------- ACK numbers ----------

  /** The next ACK, full or lite, carries no smaller number than any sent before. */
  lemma AcksNeverDecrease(c: Config, events: seq<Event>, a: Ack, lite: bool, soon: bool, now: int)
    requires GoodConfig(c) && a in WorldAfter(c, events).acks
    ensures var w := WorldAfter(c, events);
            Partition(c, w.r) && match OnAckTimer(c, w.r, lite, soon, now).1 case None => true case Some(b) => a.ack <= b.ack
  {
    var w := WorldAfter(c, events);
    hide WorldAfter, SenderInv, CellsInv, StreamInv, SentInv, AcksInv, NaksInv, Ack2Inv, RecordsInv, ReceivedInv, Concat;
    InvParts(c, w);
    AckNumberFacts(c, w.r);
    AckInNet(c, w.acks, a, AckNumber(w.r), w.ackLog);
    AckTimerCases(c, w.r, lite, soon, now);
    hide Partition, AckNumber, OnAckTimer, Recorded;
  }

  // ---------- Packets that are refused ----------

  /** A packet that arrives is stored just if it is new and lies less than a buffer, but for one cell, beyond the first
      packet not yet read. */
  lemma StoredJustIf(c: Config, events: seq<Event>, d: Data)
    requires GoodConfig(c) && d in WorldAfter(c, events).sent
    ensures var w := WorldAfter(c, events);
            && Partition(c, w.r)
            && (Accepts(c, w.r, d) <==> d.seqno !in w.received && d.seqno - Start(w.r) < c.window - 1)
  {
    hide WorldAfter, Inv, Partition, Accepts, CellsInv, StreamInv, ReceivedInv, RecordsInv;
    var w := WorldAfter(c, events);
    InvParts(c, w);
    InvReceiver(c, w);
    InvSent(c, w, d);
    StoredIfNew(c, w.r, w.received, d);
  }

  lemma StoredIfNew(c: Config, r: Receiver, received: set<int>, d: Data)
    requires Partition(c, r) && ReceivedInv(c, r, received) && c.isn <= d.seqno && c.isn <= r.lastAck
    ensures Accepts(c, r, d) <==> d.seqno !in received && d.seqno - Start(r) < c.window - 1
  {
    assert Start(r) + (d.seqno - Start(r)) == d.seqno;
  }

  lemma WorldStep(c: Config, events: seq<Event>, e: Event)
    requires GoodConfig(c)
    ensures WorldAfter(c, events + [e]) == Next(c, WorldAfter(c, events), e)
  {
    InitInv(c);
    hide Inv, Next, Init;
    RunStep(c, Init(c), events, e);
    hide RunFrom;
  }

  lemma RunStep(c: Config, w: World, events: seq<Event>, e: Event)
    requires Inv(c, w)
    ensures RunFrom(c, w, events + [e]) == Next(c, RunFrom(c, w, events), e)
  {
    hide Inv, Next;
    assert (events + [e])[..|events|] == events;
  }
}
