/** What the packet handlers and the timers bring about, beyond the invariant that they keep: which packets go out, what a
    call of send accepts, what a loss report says, and when the receiver falls silent. */
module HandlerLaws {
  import opened Packets
  import opened LossSlots
  import opened Minimum
  import opened RcvBuf
  import opened AckHistory
  import opened Endpoint
  import opened Protocol
  import opened ProtocolRuns
  import opened Recovery
  import MessageRuns
  import SndBuf

  // ---------- What never goes back ----------

  /** From w to w2, only a turn to send has moved currSeq; what has been received, reported and acknowledged stays so. */
  ghost predicate Onward(w: World, w2: World) {
    && w.s.lastAck <= w2.s.lastAck && w.s.currSeq <= w2.s.currSeq && w.r.currSeq <= w2.r.currSeq
    && w.r.lastAckAck <= w2.r.lastAckAck && w.received <= w2.received && w.naks <= w2.naks
  }

  lemma StepOnward(c: Config, w: World, e: Event)
    requires Inv(c, w)
    ensures Onward(w, Next(c, w, e)) && (!e.Transmit? ==> Next(c, w, e).s.currSeq == w.s.currSeq)
  {
    hide Inv, Next, Onward;
    if e.UserSend? || e.Transmit? || e.AckArrives? || e.NakArrives? || e.ExpTimer? {
      SenderOnward(c, w, e);
    } else {
      ReceiverOnward(c, w, e);
    }
  }

  lemma SenderOnward(c: Config, w: World, e: Event)
    requires Inv(c, w) && (e.UserSend? || e.Transmit? || e.AckArrives? || e.NakArrives? || e.ExpTimer?)
    ensures Onward(w, Next(c, w, e)) && (!e.Transmit? ==> Next(c, w, e).s.currSeq == w.s.currSeq)
  {
    hide Inv, Partition, Bound, OnSend, NewPackets, OnPack, OnAck, OnNak, OnExpire, GoodConfig;
    InvParts(c, w);
    match e
    case UserSend(data) => SendMakesPackets(c, w.s, data);
    case Transmit(cwnd) => PackJustIf(c, w.s, cwnd);
    case AckArrives(a, ack2) => if a in w.acks { AckOnward(c, w, a); }
    case NakArrives(runs) => if runs in w.naks { NakOnward(c, w, runs); }
    case ExpTimer => ExpireFrame(w.s);
  }

  lemma ReceiverOnward(c: Config, w: World, e: Event)
    requires Inv(c, w) && (e.DataArrives? || e.AckTimer? || e.Ack2Arrives? || e.UserRecv?)
    ensures Onward(w, Next(c, w, e)) && Next(c, w, e).s == w.s
  {
    hide Inv, Partition, Bound, OnData, Accepts, OnAckTimer, OnAck2, OnRecv, AllFull;
    InvParts(c, w);
    match e
    case DataArrives(d) => DataFrame(c, w.r, d);
    case AckTimer(lite, soon, now) => TimerFrame(c, w.r, lite, soon, now);
    case Ack2Arrives(number, now) => Ack2Frame(w.r, number, now);
    case UserRecv(len) => RecvOnward(c, w, len);
  }

  lemma ExpireFrame(s: Sender)
    ensures OnExpire(s) == s.(lost := OnExpire(s).lost)
  {
  }

  lemma Ack2Frame(r: Receiver, number: int, now: int)
    ensures var r2 := OnAck2(r, number, now); r2.currSeq == r.currSeq && r.lastAckAck <= r2.lastAckAck
  {
    hide Oldest;
  }

  lemma AckOnward(c: Config, w: World, a: Ack)
    requires Inv(c, w) && a in w.acks && Bound(c, w.s)
    ensures var s2 := OnAck(c, w.s, a); w.s.lastAck <= s2.lastAck && w.s.currSeq == s2.currSeq
  {
    AckReaches(c, w, a);
    AckMoves(c, w.s, w.hist, a);
    hide Inv, OnAck;
  }

  lemma AckReaches(c: Config, w: World, a: Ack)
    requires Inv(c, w) && a in w.acks
    ensures SenderInv(c, w.s, w.hist) && a.ack <= w.s.currSeq + 1 && (a.FullAck? ==> 2 <= a.window <= Span(c))
  {
    InvParts(c, w);
    AckNumberFacts(c, w.r);
    hide SenderInv, CellsInv, StreamInv, SentInv, AcksInv, NaksInv, Ack2Inv, RecordsInv, ReceivedInv;
    hide Concat, AckNumber, Partition, Bound;
    AckInNet(c, w.acks, a, AckNumber(w.r), w.ackLog);
  }

  lemma NakOnward(c: Config, w: World, runs: seq<Run>)
    requires Inv(c, w) && runs in w.naks
    ensures Bound(c, w.s) && Sound(runs, w.s.currSeq) && OnNak(w.s, runs) == w.s.(lost := OnNak(w.s, runs).lost)
  {
    InvParts(c, w);
    hide CellsInv, StreamInv, SentInv, AcksInv, Ack2Inv, RecordsInv, ReceivedInv, Concat, AckNumber, Partition, Bound, OnNak;
    assert Sound(runs, w.s.currSeq);
    NakAdds(c, w.s, runs);
  }

  lemma RecvOnward(c: Config, w: World, len: int)
    requires Inv(c, w)
    ensures w.r.ring.acked <= |w.r.ring.cells| && AllFull(w.r.ring.cells[..w.r.ring.acked])
    ensures var r2 := OnRecv(w.r, len).0; w.r.currSeq == r2.currSeq && w.r.lastAckAck == r2.lastAckAck
  {
    RecvKeeps(c, w, len);
    InvReceiver(c, w);
    hide Inv, AllFull, CellsInv, StreamInv, OnRecv;
    RecvFrame(c, w.r, w.received, w.ackLog, len);
  }

  lemma TimerFrame(c: Config, r: Receiver, lite: bool, soon: bool, now: int)
    requires Partition(c, r) && c.ackSize > 0
    ensures var r2 := OnAckTimer(c, r, lite, soon, now).0; r2.currSeq == r.currSeq && r2.lastAckAck == r.lastAckAck
  {
    hide Partition, AckNumber, Recorded;
  }

  lemma {:induction false} RunOnward(c: Config, w: World, events: seq<Event>)
    requires Inv(c, w)
    ensures Onward(w, RunFrom(c, w, events))
    decreases |events|
  {
    hide Inv, Next;
    if events != [] {
      var n := |events| - 1;
      RunOnward(c, w, events[..n]);
      StepOnward(c, RunFrom(c, w, events[..n]), events[n]);
    }
  }

  lemma AtFirst(c: Config)
    requires GoodConfig(c)
    ensures WorldAfter(c, []) == Init(c) && Unacked(Init(c).s) == 0 && Init(c).s.queue == []
  {
    hide Inv;
    InitInv(c);
  }

  // ---------- Which packets go out ----------

  /** How many packets are unacknowledged. */
  function Unacked(s: Sender): int {
    s.currSeq + 1 - s.lastAck
  }

  /** A turn to send: if something is lost, the first lost number goes out and is taken for lost no longer; otherwise a new
      packet goes out just if there is one and both windows have room for one more. */
  lemma PackJustIf(c: Config, s: Sender, cwnd: int)
    requires Bound(c, s)
    ensures var (s2, d) := OnPack(c, s, cwnd);
            && (d.Some? && d.value.seqno > s.currSeq <==>
                  s.lost == {} && s.curr < |s.queue| && Unacked(s) < s.window && Unacked(s) < cwnd)
            && (d.Some? && d.value.seqno <= s.currSeq <==> s.lost != {})
            && (s.lost != {} ==> IsMin(s.lost, d.value.seqno) && s2 == s.(lost := s.lost - {d.value.seqno}))
            && (d.Some? && s.lost == {} ==>
                  d.value.seqno == s2.currSeq && s2 == s.(currSeq := s.currSeq + 1, curr := s.curr + 1))
            && (d == None ==> s2 == s)
  {
  }

  /** In every run, after a turn that sent a new packet, no more packets are unacknowledged than either window allows. */
  lemma NewWithinWindows(c: Config, events: seq<Event>, cwnd: int)
    requires GoodConfig(c)
    ensures var (w, w2) := (WorldAfter(c, events), WorldAfter(c, events + [Transmit(cwnd)]));
            w2.s.currSeq > w.s.currSeq ==> Unacked(w2.s) <= cwnd && Unacked(w2.s) <= w2.s.window
  {
    hide WorldAfter, Inv, Partition, Bound, OnPack;
    var w := WorldAfter(c, events);
    WorldStep(c, events, Transmit(cwnd));
    InvParts(c, w);
    PackJustIf(c, w.s, cwnd);
  }

  /** No event but a turn to send makes more packets unacknowledged, and that only up to its congestion window. */
  lemma UnackedStep(c: Config, w: World, e: Event, limit: int)
    requires Inv(c, w) && Unacked(w.s) <= limit && (e.Transmit? ==> e.cwnd <= limit)
    ensures Unacked(Next(c, w, e).s) <= limit
  {
    if e.Transmit? {
      InvParts(c, w);
      hide Inv, Partition, Bound, OnPack;
      PackJustIf(c, w.s, e.cwnd);
    } else {
      hide Inv, Next;
      StepOnward(c, w, e);
    }
  }

  /** If the congestion window never exceeds a limit, in no run are more packets unacknowledged. */
  lemma {:induction false} CongestionRespected(c: Config, events: seq<Event>, limit: nat)
    requires GoodConfig(c) && forall i :: 0 <= i < |events| && events[i].Transmit? ==> events[i].cwnd <= limit
    ensures Unacked(WorldAfter(c, events).s) <= limit
    decreases |events|
  {
    hide WorldAfter, Inv, Next;
    if events == [] {
      AtFirst(c);
    } else {
      var n := |events| - 1;
      CongestionRespected(c, events[..n], limit);
      assert events == events[..n] + [events[n]];
      WorldStep(c, events[..n], events[n]);
      UnackedStep(c, WorldAfter(c, events[..n]), events[n], limit);
    }
  }

  // ---------- What send accepts ----------

  /** No more packets wait than the send buffer may hold; and send accepts less than it is given only if the buffer is full
      afterwards. */
  lemma SendFills(c: Config, s: Sender, data: seq<byte>)
    requires c.mss > 0 && |s.queue| <= c.sndBufSize
    ensures var (s2, n) := OnSend(c, s, data);
            |s2.queue| <= c.sndBufSize && (n < |data| ==> |s2.queue| == c.sndBufSize)
  {
    if data != [] && |s.queue| < c.sndBufSize {
      var room, n := c.sndBufSize - |s.queue|, Room(c, s, |data|);
      var more := |Chunks(data[..n], c.mss, true, false, s.msgNo)|;
      ChunkCount(data[..n], c.mss, true, false, s.msgNo);
      hide Chunks;
      assert n <= room * c.mss && (n < |data| ==> n == room * c.mss);
      Quotient(c.mss, more, room, n);
    }
  }

  lemma Quotient(mss: nat, more: nat, room: nat, n: nat)
    requires mss > 0 && n <= mss * more < n + mss && n <= room * mss
    ensures more <= room && (n == room * mss ==> more == room)
  {
    assert mss * (room + 1) == room * mss + mss && mss * (more + 1) == mss * more + mss;
    Times(mss, room + 1, more);
    Times(mss, more + 1, room);
  }

  lemma Times(mss: nat, i: nat, j: nat)
    ensures i <= j ==> mss * i <= mss * j
  {
  }

  /** In no run do more packets wait than the send buffer may hold. */
  lemma {:induction false} BufferLimit(c: Config, events: seq<Event>)
    requires GoodConfig(c) && 0 <= c.sndBufSize
    ensures |WorldAfter(c, events).s.queue| <= c.sndBufSize
    decreases |events|
  {
    hide WorldAfter, Inv, Next;
    if events == [] {
      AtFirst(c);
    } else {
      var n := |events| - 1;
      BufferLimit(c, events[..n]);
      assert events == events[..n] + [events[n]];
      WorldStep(c, events[..n], events[n]);
      QueueStep(c, WorldAfter(c, events[..n]), events[n]);
    }
  }

  lemma QueueStep(c: Config, w: World, e: Event)
    requires Inv(c, w) && |w.s.queue| <= c.sndBufSize
    ensures |Next(c, w, e).s.queue| <= c.sndBufSize
  {
    hide Inv, Partition, Bound, OnSend, NewPackets, OnPack, OnData, Accepts, OnAckTimer, OnAck, OnNak, OnAck2, OnRecv;
    InvParts(c, w);
    match e
    case UserSend(data) => SendFills(c, w.s, data);
    case Transmit(cwnd) => PackJustIf(c, w.s, cwnd);
    case AckArrives(a, ack2) => if a in w.acks { AckShortens(c, w, a); }
    case NakArrives(runs) => if runs in w.naks { NakOnward(c, w, runs); }
    case _ =>
  }

  lemma AckShortens(c: Config, w: World, a: Ack)
    requires Inv(c, w) && a in w.acks && Bound(c, w.s)
    ensures |OnAck(c, w.s, a).queue| <= |w.s.queue|
  {
    AckReaches(c, w, a);
    hide Inv;
  }

  /** In every run, send takes all it is given unless the send buffer is full afterwards. */
  lemma SendTakesAll(c: Config, events: seq<Event>, data: seq<byte>)
    requires GoodConfig(c) && 0 <= c.sndBufSize
    ensures var (w, w2) := (WorldAfter(c, events), WorldAfter(c, events + [UserSend(data)]));
            w2.accepted == w.accepted + data || |w2.s.queue| == c.sndBufSize
  {
    hide WorldAfter, Inv, Partition, Bound, OnSend, NewPackets;
    var w := WorldAfter(c, events);
    WorldStep(c, events, UserSend(data));
    BufferLimit(c, events);
    InvParts(c, w);
    SendMakesPackets(c, w.s, data);
    SendFills(c, w.s, data);
    assert data[..|data|] == data;
  }

  /** The messages sent are numbered in turn, and may be delivered out of order. */
  ghost predicate Numbered(msgs: seq<MessageRuns.Msg>) {
    forall k :: 0 <= k < |msgs| ==> msgs[k].number == SndBuf.MsgNoOf(k) && !msgs[k].inOrder && msgs[k].data != []
  }

  /** In every run, the packets made are those of one message for each call of send that accepted something, numbered in
      turn. */
  lemma {:induction false} SendsMessages(c: Config, events: seq<Event>) returns (msgs: seq<MessageRuns.Msg>)
    requires GoodConfig(c)
    ensures var w := WorldAfter(c, events);
            w.hist == MessageRuns.History(msgs, c.mss) && w.s.msgNo == SndBuf.MsgNoOf(|msgs|) && Numbered(msgs)
    decreases |events|
  {
    hide WorldAfter, Inv, Next, Numbered, MessageRuns.History, SndBuf.MsgNoOf;
    if events == [] {
      AtFirst(c);
      NoneSent(c);
      msgs := [];
    } else {
      var n := |events| - 1;
      msgs := SendsMessages(c, events[..n]);
      assert events == events[..n] + [events[n]];
      WorldStep(c, events[..n], events[n]);
      var w := WorldAfter(c, events[..n]);
      if events[n].UserSend? {
        msgs := OneMore(c, w, events[n].data, msgs);
      } else {
        SameHistory(c, w, events[n]);
      }
    }
  }

  lemma NoneSent(c: Config)
    requires GoodConfig(c)
    ensures Init(c).hist == MessageRuns.History([], c.mss) && Init(c).s.msgNo == SndBuf.MsgNoOf(0) && Numbered([])
  {
  }

  /** A call of send that accepts something makes the packets of one message. */
  lemma OneMore(c: Config, w: World, data: seq<byte>, msgs: seq<MessageRuns.Msg>) returns (msgs2: seq<MessageRuns.Msg>)
    requires Inv(c, w) && c.mss > 0 && w.hist == MessageRuns.History(msgs, c.mss)
    requires w.s.msgNo == SndBuf.MsgNoOf(|msgs|) && Numbered(msgs)
    ensures var w2 := Next(c, w, UserSend(data));
            w2.hist == MessageRuns.History(msgs2, c.mss) && w2.s.msgNo == SndBuf.MsgNoOf(|msgs2|) && Numbered(msgs2)
  {
    hide Inv, Chunks;
    if data == [] || c.sndBufSize <= |w.s.queue| {
      assert w.hist + [] == w.hist;
      msgs2 := msgs;
    } else {
      RoomForSome(c, w.s, data);
      var msg := MessageRuns.Msg(data[..Room(c, w.s, |data|)], false, w.s.msgNo);
      msgs2 := msgs + [msg];
      assert msgs2[..|msgs|] == msgs;
    }
  }

  lemma RoomForSome(c: Config, s: Sender, data: seq<byte>)
    requires c.mss > 0 && data != [] && |s.queue| < c.sndBufSize
    ensures Room(c, s, |data|) > 0
  {
    var room := c.sndBufSize - |s.queue|;
    assert room * c.mss == (room - 1) * c.mss + c.mss;
  }

  lemma SameHistory(c: Config, w: World, e: Event)
    requires Inv(c, w) && !e.UserSend?
    ensures Next(c, w, e).hist == w.hist && Next(c, w, e).s.msgNo == w.s.msgNo
  {
    hide Inv, Partition, Bound, OnPack, OnData, Accepts, OnAckTimer, OnNak, OnExpire, OnAck2, OnRecv, AllFull;
    InvParts(c, w);
    match e
    case Transmit(cwnd) => PackJustIf(c, w.s, cwnd);
    case NakArrives(runs) => if runs in w.naks { NakOnward(c, w, runs); }
    case ExpTimer => ExpireFrame(w.s);
    case _ =>
  }

  // ---------- What a loss report says ----------

  /** Some run of the report has number x. */
  ghost predicate Listed(report: Option<seq<Run>>, x: int) {
    report.Some? && exists i :: 0 <= i < |report.value| && report.value[i].lo <= x <= report.value[i].hi
  }

  /** The report that a data packet causes lists exactly the numbers that it makes lost. */
  lemma ReportsGap(c: Config, r: Receiver, d: Data, x: int)
    requires Partition(c, r)
    ensures var (r2, report) := OnData(c, r, d); x in r2.lost && x !in r.lost <==> Listed(report, x)
  {
    var (r2, report) := OnData(c, r, d);
    if report.Some? {
      OneRun(r.currSeq + 1, d.seqno - 1, x);
    }
  }

  lemma OneRun(lo: int, hi: int, x: int)
    ensures Listed(Some([Run(lo, hi)]), x) <==> lo <= x <= hi
  {
    assert [Run(lo, hi)][0] == Run(lo, hi);
  }

  /** When such a report arrives, however late, the sender's loss list gains exactly the numbers of that gap that are not
      acknowledged by then. */
  lemma GapReaches(c: Config, w: World, d: Data, report: seq<Run>, between: seq<Event>, x: int)
    requires Inv(c, w) && d in w.sent && Partition(c, w.r) && OnData(c, w.r, d).1 == Some(report)
    ensures var w1 := Next(c, w, DataArrives(d));
            Inv(c, w1) && var w2 := RunFrom(c, w1, between);
            && report in w2.naks
            && var w3 := Next(c, w2, NakArrives(report));
            x in w3.s.lost <==> x in w2.s.lost || (w2.s.lastAck <= x && x in w1.r.lost && x !in w.r.lost)
  {
    hide Inv, Partition, OnData, OnNak, RunFrom;
    NextKeeps(c, w, DataArrives(d));
    var w1 := Next(c, w, DataArrives(d));
    ReportsGap(c, w.r, d, x);
    assert report in Add(w.naks, Some(report));
    RunOnward(c, w1, between);
    var w2 := RunFrom(c, w1, between);
    NakOnward(c, w2, report);
    hide Bound, Sound;
    NakAdds(c, w2.s, report);
  }

  // ---------- ACKs ----------

  /** In every run, the timer sends an ACK just if its number is not the last one acknowledged, and, unless it is a lite ACK
      or the last one is not recent, more has been received since.  A full ACK is on record then. */
  lemma AckSentJustIf(c: Config, events: seq<Event>, lite: bool, soon: bool, now: int)
    requires GoodConfig(c)
    ensures var r := WorldAfter(c, events).r;
            && Partition(c, r)
            && var (r2, a) := OnAckTimer(c, r, lite, soon, now);
            && (a.Some? <==> AckNumber(r) != r.lastAckAck && (lite || !soon || AckNumber(r) > r.lastAck))
            && (a.Some? ==> a.value.ack == AckNumber(r) && (a.value.LiteAck? <==> lite))
            && (a.Some? && !lite && c.ackSize > 1 ==> LastIs(r2.records, Record(a.value.number, a.value.ack, now)))
  {
    hide WorldAfter, Inv, Partition, AckNumber, OnAckTimer, LastIs, GoodConfig;
    var w := WorldAfter(c, events);
    InvParts(c, w);
    AckLimits(c, w);
    AckNumberRange(c, w.r);
    TimerSends(c, w.r, lite, soon, now);
  }

  ghost predicate LastIs(records: seq<Record>, record: Record) {
    records != [] && records[|records| - 1] == record
  }

  lemma TimerSends(c: Config, r: Receiver, lite: bool, soon: bool, now: int)
    requires Partition(c, r) && c.ackSize > 0 && r.lastAckAck <= r.lastAck <= AckNumber(r)
    ensures var (r2, a) := OnAckTimer(c, r, lite, soon, now);
            && (a.Some? <==> AckNumber(r) != r.lastAckAck && (lite || !soon || AckNumber(r) > r.lastAck))
            && (a.Some? ==> a.value.ack == AckNumber(r) && (a.value.LiteAck? <==> lite))
            && (a.Some? && !lite && c.ackSize > 1 ==> LastIs(r2.records, Record(a.value.number, a.value.ack, now)))
  {
    hide Partition, AckNumber;
  }

  lemma AckNumberRange(c: Config, r: Receiver)
    requires Partition(c, r)
    ensures r.lastAck <= AckNumber(r)
  {
    AckNumberFacts(c, r);
    hide Partition, AckNumber;
  }

  /** The ACK2 for an ACK on record, if it comes later than that was sent, and so soon that the time between fits in 31
      bits, makes the number that the ACK carried the last one acknowledged, unless that is further already. */
  lemma Ack2Raises(r: Receiver, i: nat, number: int, now: int)
    requires i < |r.records| && r.records[i].number == number && forall j :: 0 <= j < i ==> r.records[j].number != number
    ensures var r2 := OnAck2(r, number, now);
            && r2.records == r.records[i + 1..]
            && r2.lastAckAck
            == if 0 < (now - r.records[i].time) % 0x1_0000_0000 < 0x8000_0000 then Max(r.lastAckAck, r.records[i].ack)
               else r.lastAckAck
  {
    assert Oldest(r.records, number) == i;
    Elapsed(now - r.records[i].time);
    hide SeqNo.Int32;
  }

  lemma Elapsed(time: int)
    ensures SeqNo.Int32(time) > 0 <==> 0 < time % 0x1_0000_0000 < 0x8000_0000
  {
  }

  /** The number that an ACK carries is the first one not received. */
  lemma AckNumberIs(c: Config, w: World)
    requires Inv(c, w)
    ensures AckNumber(w.r) !in w.received && c.isn <= AckNumber(w.r)
    ensures forall n :: c.isn <= n < AckNumber(w.r) ==> n in w.received
  {
    InvParts(c, w);
    InvReceiver(c, w);
    AckNumberFacts(c, w.r);
    hide Inv, CellsInv, StreamInv, RecordsInv, AckNumber;
  }

  /** If what has been received is the same, so is the number that an ACK carries. */
  lemma SameMissing(c: Config, w: World, w2: World)
    requires Inv(c, w) && Inv(c, w2) && w2.received == w.received
    ensures AckNumber(w2.r) == AckNumber(w.r)
  {
    AckNumberIs(c, w);
    AckNumberIs(c, w2);
    hide Inv, AckNumber;
  }

  /** The timer sends no ACK of any kind. */
  ghost predicate Silent(c: Config, r: Receiver) {
    Partition(c, r) && c.ackSize > 0 && forall lite, soon, now :: OnAckTimer(c, r, lite, soon, now) == (r, None)
  }

  /** Once the ACK2 has arrived in time for a full ACK that carried the first missing number, the timer sends no ACK until
      another packet has been stored. */
  lemma FallsSilent(c: Config, w: World, i: nat, number: nat, now: int, events: seq<Event>)
    requires Inv(c, w) && number in w.ack2s
    requires i < |w.r.records| && w.r.records[i].number == number && w.r.records[i].ack == AckNumber(w.r)
    requires forall j :: 0 <= j < i ==> w.r.records[j].number != number
    requires 0 < (now - w.r.records[i].time) % 0x1_0000_0000 < 0x8000_0000
    ensures var w1 := Next(c, w, Ack2Arrives(number, now));
            Inv(c, w1) && (RunFrom(c, w1, events).received == w1.received ==> Silent(c, RunFrom(c, w1, events).r))
  {
    hide Inv, Partition, AckNumber, OnAck2, RunFrom, Silent;
    NextKeeps(c, w, Ack2Arrives(number, now));
    Ack2Raises(w.r, i, number, now);
    AckLimits(c, w);
    var w1 := Next(c, w, Ack2Arrives(number, now));
    RunOnward(c, w1, events);
    var w2 := RunFrom(c, w1, events);
    if w2.received == w1.received {
      SameMissing(c, w, w2);
      NotFurther(c, w2);
      StaysSilent(c, w2);
    }
  }

  lemma StaysSilent(c: Config, w: World)
    requires Inv(c, w) && AckNumber(w.r) == w.r.lastAckAck
    ensures Silent(c, w.r)
  {
    hide Inv, Partition, AckNumber;
    InvParts(c, w);
  }

  lemma NotFurther(c: Config, w: World)
    requires Inv(c, w)
    ensures w.r.lastAckAck <= AckNumber(w.r)
  {
    hide Inv, Partition, AckNumber;
    InvParts(c, w);
    AckLimits(c, w);
    AckNumberRange(c, w.r);
  }

  /** So every state can fall silent: a full ACK goes out, it arrives and is acknowledged, and that arrives in time. */
  lemma CanFallSilent(c: Config, w: World, now: int, later: int, events: seq<Event>) returns (a: Ack)
    requires Inv(c, w) && c.ackSize > 1 && AckNumber(w.r) != w.r.lastAckAck
    requires 0 < (later - now) % 0x1_0000_0000 < 0x8000_0000
    ensures var w1 := Next(c, w, AckTimer(false, false, now));
            && Inv(c, w1) && a.FullAck? && a in w1.acks - w.acks
            && var w2 := RunFrom(c, w1, [AckArrives(a, true)] + [Ack2Arrives(a.number, later)]);
            RunFrom(c, w2, events).received == w2.received ==> Silent(c, RunFrom(c, w2, events).r)
  {
    hide Inv, Partition, AckNumber, OnAckTimer, RunFrom, OnAck, OnAck2, Silent;
    var w1;
    a, w1 := Announced(c, w, now);
    LeadsOne(c, w1, AckArrives(a, true));
    var w2 := Next(c, w1, AckArrives(a, true));
    assert w2.r == w1.r && a.number in w2.ack2s;
    LeadsOne(c, w2, Ack2Arrives(a.number, later));
    LeadsOn(c, w1, [AckArrives(a, true)], w2, [Ack2Arrives(a.number, later)], Next(c, w2, Ack2Arrives(a.number, later)));
    FallsSilent(c, w2, |w1.r.records| - 1, a.number, later, events);
  }

  lemma Announced(c: Config, w: World, now: int) returns (a: Ack, w1: World)
    requires Inv(c, w) && c.ackSize > 1 && AckNumber(w.r) != w.r.lastAckAck
    ensures w1 == Next(c, w, AckTimer(false, false, now)) && Inv(c, w1) && AckNumber(w1.r) == AckNumber(w.r)
    ensures a.FullAck? && a.ack == AckNumber(w.r) && a in w1.acks && a !in w.acks
    ensures LastIs(w1.r.records, Record(a.number, a.ack, now))
    ensures forall j :: 0 <= j < |w1.r.records| - 1 ==> w1.r.records[j].number != a.number
  {
    hide Inv, Partition, AckNumber, OnAckTimer, LastIs, GoodConfig;
    InvParts(c, w);
    NextKeeps(c, w, AckTimer(false, false, now));
    w1 := Next(c, w, AckTimer(false, false, now));
    AckLimits(c, w);
    AckNumberRange(c, w.r);
    TimerSends(c, w.r, false, false, now);
    TimerNumbers(c, w, now);
    a := OnAckTimer(c, w.r, false, false, now).1.value;
    assert a in Add(w.acks, Some(a));
    SameMissing(c, w, w1);
    NotYet(c, w, a);
  }

  lemma TimerNumbers(c: Config, w: World, now: int)
    requires Inv(c, w) && Partition(c, w.r) && c.ackSize > 1
    ensures match OnAckTimer(c, w.r, false, false, now).1
            case None => true
            case Some(a) =>
              && a.FullAck? && a.number == |w.ackLog| + 1
              && var records := OnAckTimer(c, w.r, false, false, now).0.records;
              forall j :: 0 <= j < |records| - 1 ==> records[j].number != a.number
  {
    hide Inv, Partition, AckNumber, CellsInv, StreamInv, ReceivedInv;
    InvReceiver(c, w);
  }

  lemma NotYet(c: Config, w: World, a: Ack)
    requires Inv(c, w) && a.FullAck? && a.number == |w.ackLog| + 1
    ensures a !in w.acks
  {
    hide SenderInv, CellsInv, StreamInv, SentInv, NaksInv, Ack2Inv, RecordsInv, ReceivedInv, AckNumber, Concat;
  }

  // ---------- What is lost at the sender ----------

  /** An ACK takes just the numbers before the first packet off the loss list, and moves the window just if it is a full one
      not older than the last; only a full one for something that was not sent breaks the connection. */
  lemma AckDrops(c: Config, s: Sender, a: Ack, x: int)
    requires Bound(c, s)
    ensures var s2 := OnAck(c, s, a);
            && (s2.broken <==> a.FullAck? && a.ack > s.currSeq + 1)
            && (x in s2.lost <==> x in s.lost && s2.dataAck <= x)
            && (!s2.broken ==>
                  s2.lastAck + s2.window
                  == if a.FullAck? && a.ack >= s.lastAck then a.ack + a.window else s.lastAck + s.window)
  {
  }

  /** An entry of a loss report that runs backwards, or beyond what was sent. */
  predicate Bad(s: Sender, run: Run) {
    run.lo > run.hi || run.hi > s.currSeq
  }

  /** A loss report breaks the connection just if some entry of it is bad. */
  lemma {:induction false} NakBreaks(c: Config, s: Sender, runs: seq<Run>)
    requires Bound(c, s)
    ensures OnNak(s, runs).broken <==> exists i :: 0 <= i < |runs| && Bad(s, runs[i])
    decreases |runs|
  {
    hide Bound, Reported;
    NotBroken(c, s);
    if runs != [] {
      EntryRefused(c, s, runs[0]);
      if !Bad(s, runs[0]) {
        OneReported(c, s, runs[0]);
        var s1 := s.(lost := s.lost + Reported(s, runs[0]).value);
        NakBreaks(c, s1, runs[1..]);
        if i :| 0 <= i < |runs| && Bad(s, runs[i]) {
          assert runs[1..][i - 1] == runs[i];
          assert Bad(s1, runs[1..][i - 1]);
        }
        if i :| 0 <= i < |runs[1..]| && Bad(s1, runs[1..][i]) {
          assert Bad(s, runs[i + 1]);
        }
      }
    }
  }

  lemma NotBroken(c: Config, s: Sender)
    requires Bound(c, s)
    ensures !s.broken
  {
  }

  lemma EntryRefused(c: Config, s: Sender, run: Run)
    requires Bound(c, s)
    ensures Reported(s, run) == None <==> Bad(s, run)
  {
  }

  /** The EXP timer makes all that is unacknowledged lost, if no loss is known, and else nothing; the turn to send after it
      sends the first lost packet, if anything is unacknowledged. */
  lemma ExpireResends(c: Config, s: Sender, cwnd: int, x: int)
    requires Bound(c, s) && s.lastAck <= s.currSeq
    ensures var s1 := OnExpire(s);
            && Bound(c, s1)
            && (x in s1.lost <==> x in s.lost || (s.lost == {} && s.lastAck <= x <= s.currSeq))
            && var d := OnPack(c, s1, cwnd).1;
            d.Some? && if s.lost == {} then d.value.seqno == s.lastAck else IsMin(s.lost, d.value.seqno)
  {
    QueueHas(c, s, s.lastAck);
    var s1 := OnExpire(s);
    if s.lost == {} {
      assert s.lastAck in s1.lost;
    }
    hide OnPack;
    PackJustIf(c, s1, cwnd);
  }

  // ---------- What recv returns ----------

  /** In every run, recv returns as many bytes as it is asked for, or all that have been acknowledged and not yet read. */
  lemma RecvReturns(c: Config, events: seq<Event>, len: nat)
    requires GoodConfig(c)
    ensures var (w, w2) := (WorldAfter(c, events), WorldAfter(c, events + [UserRecv(len)]));
            && w.r.lastAck - c.isn <= |w.hist| && c.isn <= w.r.lastAck
            && var ready := Concat(w.hist[..w.r.lastAck - c.isn]);
            w2.delivered == if |w.delivered| + len < |ready| then ready[..|w.delivered| + len] else ready
  {
    hide WorldAfter, Inv, Next, Concat, GoodConfig;
    var w := WorldAfter(c, events);
    WorldStep(c, events, UserRecv(len));
    RecvNext(c, w, len);
  }

  lemma RecvNext(c: Config, w: World, len: nat)
    requires Inv(c, w)
    ensures w.r.lastAck - c.isn <= |w.hist| && c.isn <= w.r.lastAck
    ensures var ready := Concat(w.hist[..w.r.lastAck - c.isn]);
            Next(c, w, UserRecv(len)).delivered
            == if |w.delivered| + len < |ready| then ready[..|w.delivered| + len] else ready
  {
    hide Inv, Concat, OnRecv, AllFull, GoodConfig;
    AllWaiting(c, w);
    RecvPart(c, w, len);
  }

  lemma RecvPart(c: Config, w: World, len: nat)
    requires Inv(c, w) && w.r.ring.acked <= |w.r.ring.cells| && AllFull(w.r.ring.cells[..w.r.ring.acked])
    ensures w.r.lastAck - c.isn <= |w.hist| && c.isn <= w.r.lastAck
    ensures var ready := Concat(w.hist[..w.r.lastAck - c.isn]);
            w.delivered + OnRecv(w.r, len).1
            == if |w.delivered| + len < |ready| then ready[..|w.delivered| + len] else ready
  {
    hide Inv, CellsInv, StreamInv, ReceivedInv, RecordsInv, Partition, Bound;
    hide Stream, NotchInside, Waiting, Concat, OnRecv, AllFull, PacketsOf;
    AllWaiting(c, w);
    InvReceiver(c, w);
    InvParts(c, w);
    Waits(c, w.r, w.hist, w.delivered);
    ReadPart(w.r, Waiting(c, w.r, w.hist), len);
    PartOf(w.delivered, Stream(Waiting(c, w.r, w.hist), w.r.notch), OnRecv(w.r, len).1, len);
  }

  lemma ReadPart(r: Receiver, packets: seq<Packet>, len: nat)
    requires r.ring.acked <= |r.ring.cells| && AllFull(r.ring.cells[..r.ring.acked])
    requires packets == PacketsOf(r.ring.cells[..r.ring.acked]) && NotchInside(packets, r.notch)
    requires r.ring.acked == 0 ==> Stream(packets, r.notch) == []
    ensures var (data, stream) := (OnRecv(r, len).1, Stream(packets, r.notch));
            data <= stream && |data| == if len < |stream| then len else |stream|
  {
    ReadTakesPrefix(packets, r.notch, len);
    hide Read, Stream, NotchInside, Concat;
  }

  lemma PartOf(before: seq<byte>, stream: seq<byte>, data: seq<byte>, len: nat)
    requires data <= stream && |data| == if len < |stream| then len else |stream|
    ensures var ready := before + stream;
            before + data == if |before| + len < |ready| then ready[..|before| + len] else ready
  {
  }
}
