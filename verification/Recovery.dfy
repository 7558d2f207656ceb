/** The protocol never gets stuck: from every state that can be reached, even if everything in the network is lost at that
    moment, there is a course of events in which all that send has accepted is delivered.  The only means it needs are
    the timers, retransmission, and the arrival of packets sent from then on. */
module Recovery {
  import opened Packets
  import opened LossSlots
  import opened RcvBuf
  import opened AckHistory
  import opened Minimum
  import opened Endpoint
  import opened Protocol
  import opened ProtocolRuns

  /** Everything under way is lost. */
  ghost function Blackout(c: Config, w: World): (w2: World)
    requires Inv(c, w)
    ensures Inv(c, w2)
  {
    BlackoutKeeps(c, w);
    w.(sent := {}, acks := {}, naks := {}, ack2s := {})
  }

  lemma BlackoutKeeps(c: Config, w: World)
    requires Inv(c, w)
    ensures Inv(c, w.(sent := {}, acks := {}, naks := {}, ack2s := {}))
  {
    hide CellsInv, StreamInv, RecordsInv, ReceivedInv, Concat, AckNumber, SenderInv;
    NextFits(c, w.s, w.hist);
  }

  lemma NextFits(c: Config, s: Sender, hist: seq<Packet>)
    requires SenderInv(c, s, hist)
    ensures s.currSeq + 1 - c.isn <= |hist|
  {
  }

  lemma {:induction false} RunOn(c: Config, w: World, first: seq<Event>, then_: seq<Event>)
    requires Inv(c, w)
    ensures RunFrom(c, w, first + then_) == RunFrom(c, RunFrom(c, w, first), then_)
    decreases |then_|
  {
    hide Inv, Next;
    if then_ == [] {
      assert first + then_ == first;
    } else {
      var n := |then_| - 1;
      assert (first + then_)[..|first + then_| - 1] == first + then_[..n];
      RunOn(c, w, first, then_[..n]);
    }
  }

  lemma RunOne(c: Config, w: World, e: Event)
    requires Inv(c, w)
    ensures RunFrom(c, w, [e]) == Next(c, w, e)
  {
    hide Inv, Next;
    assert [e][..0] == [];
    assert RunFrom(c, w, []) == w;
  }

  /** The events lead from w to w2. */
  ghost predicate Leads(c: Config, w: World, events: seq<Event>, w2: World) {
    Inv(c, w) && w2 == RunFrom(c, w, events)
  }

  lemma LeadsOne(c: Config, w: World, e: Event)
    requires Inv(c, w)
    ensures Leads(c, w, [e], Next(c, w, e)) && Inv(c, Next(c, w, e))
  {
    RunOne(c, w, e);
    hide Inv, Next;
  }

  lemma LeadsOn(c: Config, w: World, first: seq<Event>, w1: World, then_: seq<Event>, w2: World)
    requires Leads(c, w, first, w1) && Leads(c, w1, then_, w2)
    ensures Leads(c, w, first + then_, w2) && Inv(c, w2)
  {
    hide Inv;
    RunOn(c, w, first, then_);
  }

  // ---------- Retransmission ----------

  /** Only the loss list and what has been sent differ. */
  ghost predicate SameBut(w: World, w2: World) {
    w2 == w.(s := w.s.(lost := w2.s.lost), sent := w2.sent)
  }

  lemma TransmitLost(c: Config, w: World)
    requires Inv(c, w) && w.s.lost != {}
    ensures var w2, x := Next(c, w, Transmit(0)), Min(w.s.lost);
            && SameBut(w, w2) && w2.s.lost == w.s.lost - {x}
            && exists d :: d in w2.sent && d.seqno == x
  {
    InvParts(c, w);
    hide Inv, Bound, Partition;
    var (s2, d) := OnPack(c, w.s, 0);
    assert d.value in Add(w.sent, d);
  }

  lemma {:induction false} ClearLost(c: Config, w: World) returns (events: seq<Event>, w2: World)
    requires Inv(c, w)
    ensures Leads(c, w, events, w2) && Inv(c, w2) && SameBut(w, w2) && w2.s.lost == {}
    decreases |w.s.lost|
  {
    hide Inv, Next;
    if w.s.lost == {} {
      events, w2 := [], w;
    } else {
      var w1 := Next(c, w, Transmit(0));
      TransmitLost(c, w);
      LeadsOne(c, w, Transmit(0));
      var more;
      more, w2 := ClearLost(c, w1);
      LeadsOn(c, w, [Transmit(0)], w1, more, w2);
      events := [Transmit(0)] + more;
    }
  }

  ghost predicate Underway(w: World, k: int) {
    exists d :: d in w.sent && d.seqno == k
  }

  /** Retransmission reaches every lost number in turn. */
  lemma {:induction false} SendLost(c: Config, w: World, k: int) returns (events: seq<Event>, w2: World)
    requires Inv(c, w) && k in w.s.lost
    ensures Leads(c, w, events, w2) && Inv(c, w2) && SameBut(w, w2) && Underway(w2, k)
    decreases |w.s.lost|
  {
    hide Inv, Next;
    var w1 := Next(c, w, Transmit(0));
    TransmitLost(c, w);
    LeadsOne(c, w, Transmit(0));
    if Min(w.s.lost) == k {
      events, w2 := [Transmit(0)], w1;
    } else {
      var more;
      more, w2 := SendLost(c, w1, k);
      LeadsOn(c, w, [Transmit(0)], w1, more, w2);
      events := [Transmit(0)] + more;
    }
  }

  lemma Expires(c: Config, w: World, k: int)
    requires Inv(c, w) && w.s.lost == {} && w.s.lastAck <= k <= w.s.currSeq
    ensures var w2 := Next(c, w, ExpTimer); SameBut(w, w2) && k in w2.s.lost
  {
    InvParts(c, w);
    hide Inv, Partition, Range;
    QueueHas(c, w.s, k);
    hide Bound;
  }

  lemma QueueHas(c: Config, s: Sender, k: int)
    requires Bound(c, s) && s.lastAck <= k <= s.currSeq
    ensures 0 < |s.queue| && k in Range(s.lastAck, s.currSeq)
  {
  }

  /** A number that was sent and not acknowledged can be sent again. */
  lemma Resend(c: Config, w: World, k: int) returns (events: seq<Event>, w2: World)
    requires Inv(c, w) && w.s.lastAck <= k <= w.s.currSeq
    ensures Leads(c, w, events, w2) && Inv(c, w2) && SameBut(w, w2) && Underway(w2, k)
  {
    hide Inv, Next, Leads;
    var first, w1 := ClearLost(c, w);
    Expires(c, w1, k);
    LeadsOne(c, w1, ExpTimer);
    var w3 := Next(c, w1, ExpTimer);
    LeadsOn(c, w, first, w1, [ExpTimer], w3);
    var more;
    more, w2 := SendLost(c, w3, k);
    LeadsOn(c, w, first + [ExpTimer], w3, more, w2);
    events := first + [ExpTimer] + more;
  }

  // ---------- Acknowledging and reading ----------

  /** What is acknowledged has reached the sender, or an ACK that says so is under way. */
  ghost predicate AckKnown(w: World, k: int) {
    k <= w.s.dataAck || exists a :: a in w.acks && a.FullAck? && a.ack == k
  }

  lemma Acknowledge(c: Config, w: World)
    requires Inv(c, w)
    ensures var w2, k := Next(c, w, AckTimer(false, false, 0)), AckNumber(w.r);
            && w2 == w.(r := w2.r, acks := w2.acks, ackLog := w2.ackLog)
            && w2.r.lastAck == k && AckNumber(w2.r) == k && AckKnown(w2, k)
  {
    InvParts(c, w);
    var k := AckNumber(w.r);
    AckNumberFacts(c, w.r);
    AdvancePartition(c, w.r, k);
    FirstMissingUnique(c, Advanced(w.r, k), k);
    AckLimits(c, w);
    hide Inv, Partition, Bound, Recorded, AckNumber;
    var (r2, a) := OnAckTimer(c, w.r, false, false, 0);
    if k != w.r.lastAckAck {
      assert a.value in Add(w.acks, a);
    }
    SameAckNumber(Advanced(w.r, k), r2);
  }

  lemma AckLimits(c: Config, w: World)
    requires Inv(c, w)
    ensures w.r.lastAckAck <= w.r.lastAck && w.r.lastAckAck <= w.s.dataAck
    ensures w.s.lastAck <= AckNumber(w.r) <= w.s.currSeq + 1 <= c.isn + |w.hist|
  {
    AckNumberFacts(c, w.r);
    hide AckNumber, Partition;
  }

  lemma SameAckNumber(r: Receiver, r2: Receiver)
    ensures r.lost == r2.lost && r.currSeq == r2.currSeq ==> AckNumber(r) == AckNumber(r2)
  {
  }

  /** A large enough buffer takes all that is there. */
  lemma {:induction false} ReadAll(packets: seq<Packet>, notch: nat, len: int)
    requires NotchInside(packets, notch) && len > |Concat(packets)|
    ensures Read(packets, notch, len) == Reading(Stream(packets, notch), |packets|, if packets == [] then notch else 0)
    decreases |packets|
  {
    if packets != [] {
      StreamStep(packets, notch);
      ReadAll(packets[1..], 0, len - |packets[0].payload[notch..]|);
    }
  }

  lemma ReadOut(c: Config, w: World)
    requires Inv(c, w)
    ensures var w2 := Next(c, w, UserRecv(|Concat(w.hist)| + 1));
            && w2 == w.(r := w2.r, delivered := w2.delivered)
            && w2.r.ring.acked == 0 && w2.r.lastAck == w.r.lastAck && AckNumber(w2.r) == AckNumber(w.r)
            && w2.delivered == Concat(w.hist[..w.r.lastAck - c.isn])
  {
    hide Inv, CellsInv, StreamInv, ReceivedInv, RecordsInv;
    hide Stream, NotchInside, Waiting, Concat, OnRecv, AllFull, AckNumber, PacketsOf;
    AllWaiting(c, w);
    InvReceiver(c, w);
    Waits(c, w.r, w.hist, w.delivered);
    ReadOutCells(w.r, Waiting(c, w.r, w.hist), |Concat(w.hist)| + 1);
    assert w.delivered + [] == w.delivered;
  }

  lemma ReadOutCells(r: Receiver, packets: seq<Packet>, len: int)
    requires r.ring.acked <= |r.ring.cells| && AllFull(r.ring.cells[..r.ring.acked])
    requires packets == PacketsOf(r.ring.cells[..r.ring.acked]) && NotchInside(packets, r.notch) && len > |Concat(packets)|
    ensures var (r2, data) := OnRecv(r, len);
            && r2.ring.acked == 0 && r2.lastAck == r.lastAck && AckNumber(r2) == AckNumber(r)
            && (if r.ring.acked == 0 then data == [] else data == Stream(packets, r.notch))
  {
    ReadAll(packets, r.notch, len);
    hide Read, Stream, NotchInside, Concat;
    SameAckNumber(r, OnRecv(r, len).0);
  }

  lemma AllWaiting(c: Config, w: World)
    requires Inv(c, w)
    ensures w.r.ring.acked <= |w.r.ring.cells| && AllFull(w.r.ring.cells[..w.r.ring.acked])
    ensures c.isn <= Start(w.r) && w.r.lastAck - c.isn <= |w.hist|
    ensures PacketsOf(w.r.ring.cells[..w.r.ring.acked]) == Waiting(c, w.r, w.hist)
  {
    RecvKeeps(c, w, 1);
    WaitingPackets(c, w.r, w.hist);
  }

  /** What waits to be read completes what has been delivered. */
  lemma Waits(c: Config, r: Receiver, hist: seq<Packet>, delivered: seq<byte>)
    requires StreamInv(c, r, hist, delivered)
    ensures var packets := Waiting(c, r, hist);
            && NotchInside(packets, r.notch) && |Concat(packets)| <= |Concat(hist)|
            && delivered + Stream(packets, r.notch) == Concat(hist[..r.lastAck - c.isn])
            && (r.ring.acked == 0 ==> Stream(packets, r.notch) == [])
  {
    var i, j := Start(r) - c.isn, r.lastAck - c.isn;
    Middle(hist, i, j);
    if r.ring.acked == 0 {
      assert Waiting(c, r, hist) == [];
    }
    hide Stream, Start;
  }

  lemma Middle(hist: seq<Packet>, i: int, j: int)
    requires 0 <= i <= j <= |hist|
    ensures |Concat(hist[i..j])| <= |Concat(hist)|
  {
    assert hist == hist[..i] + (hist[i..j] + hist[j..]);
    ConcatAppend(hist[..i], hist[i..j] + hist[j..]);
    ConcatAppend(hist[i..j], hist[j..]);
    hide Concat;
  }

  /** Everything received gets acknowledged and read. */
  lemma Drain(c: Config, w: World) returns (events: seq<Event>, w2: World)
    requires Inv(c, w)
    ensures Leads(c, w, events, w2) && Inv(c, w2)
    ensures w2.s == w.s && w2.hist == w.hist && AckNumber(w2.r) == AckNumber(w.r) == w2.r.lastAck && w2.r.ring.acked == 0
    ensures w2.r.lastAck - c.isn <= |w.hist| && w2.delivered == Concat(w.hist[..w2.r.lastAck - c.isn])
    ensures AckKnown(w2, AckNumber(w.r))
  {
    hide Inv, Next, Leads;
    Acknowledge(c, w);
    LeadsOne(c, w, AckTimer(false, false, 0));
    var w1 := Next(c, w, AckTimer(false, false, 0));
    var e := UserRecv(|Concat(w1.hist)| + 1);
    ReadOut(c, w1);
    LeadsOne(c, w1, e);
    w2 := Next(c, w1, e);
    LeadsOn(c, w, [AckTimer(false, false, 0)], w1, [e], w2);
    events := [AckTimer(false, false, 0)] + [e];
    AckLimits(c, w);
  }

  // ---------- New packets ----------

  /** Once the sender knows that everything sent has been received, it can send the next packet. */
  lemma CatchUp(c: Config, w: World, k: int) returns (events: seq<Event>, w2: World)
    requires Inv(c, w) && AckKnown(w, k) && k == w.s.currSeq + 1
    ensures Leads(c, w, events, w2) && Inv(c, w2)
    ensures w2 == w.(s := w2.s) && w2.s.dataAck == w2.s.lastAck == k && w2.s.currSeq == w.s.currSeq
  {
    hide Next;
    if k <= w.s.dataAck {
      events, w2 := [], w;
    } else {
      var a :| a in w.acks && a.FullAck? && a.ack == k;
      events, w2 := [AckArrives(a, false)], Next(c, w, AckArrives(a, false));
      LeadsOne(c, w, AckArrives(a, false));
      AckTaken(c, w, a);
    }
  }

  lemma AckTaken(c: Config, w: World, a: Ack)
    requires Inv(c, w) && a in w.acks && a.FullAck? && a.ack == w.s.currSeq + 1
    ensures var w2 := Next(c, w, AckArrives(a, false));
            && w2 == w.(s := w2.s) && w2.s.dataAck == w2.s.lastAck == a.ack && w2.s.currSeq == w.s.currSeq
  {
    InvParts(c, w);
    AckInNet(c, w.acks, a, AckNumber(w.r), w.ackLog);
    AckMoves(c, w.s, w.hist, a);
    hide Inv, Partition;
  }

  lemma SendNew(c: Config, w: World, k: int)
    requires Inv(c, w) && k == w.s.dataAck == w.s.lastAck == w.s.currSeq + 1 && k < c.isn + |w.hist|
    ensures var w2 := Next(c, w, Transmit(1)); w2 == w.(s := w2.s, sent := w2.sent) && Underway(w2, k)
  {
    hide Inv, Partition, Bound, OnPack;
    InvParts(c, w);
    NothingLost(c, w);
    NextGoes(c, w.s);
    var d := OnPack(c, w.s, 1).1;
    assert d.value in Add(w.sent, d);
  }

  /** Nothing is lost, and the window is open: the next packet is sent. */
  lemma NextGoes(c: Config, s: Sender)
    requires Bound(c, s) && s.lost == {} && s.lastAck == s.currSeq + 1 && 2 <= s.window && s.curr < |s.queue|
    ensures var (s2, d) := OnPack(c, s, 1); d.Some? && d.value.seqno == s.currSeq + 1
  {
    hide Bound;
  }

  lemma NothingLost(c: Config, w: World)
    requires Inv(c, w) && w.s.dataAck == w.s.lastAck == w.s.currSeq + 1 < c.isn + |w.hist|
    ensures w.s.lost == {} && 2 <= w.s.window && w.s.curr < |w.s.queue|
  {
    InvParts(c, w);
    if w.s.lost != {} {
      var x := Element(w.s.lost);
    }
  }

  // ---------- A round ----------

  /** The first missing packet arrives. */
  lemma MissingArrives(c: Config, w: World, k: int) returns (events: seq<Event>, w2: World)
    requires Inv(c, w) && Underway(w, k) && k == AckNumber(w.r) == w.r.lastAck && w.r.ring.acked == 0
    ensures Leads(c, w, events, w2) && Inv(c, w2)
    ensures w2.hist == w.hist && k < AckNumber(w2.r)
  {
    hide Next;
    var d :| d in w.sent && d.seqno == k;
    events, w2 := [DataArrives(d)], Next(c, w, DataArrives(d));
    LeadsOne(c, w, DataArrives(d));
    Fills(c, w, d);
  }

  lemma Fills(c: Config, w: World, d: Data)
    requires Inv(c, w) && d in w.sent && d.seqno == AckNumber(w.r) == w.r.lastAck && w.r.ring.acked == 0
    ensures var w2 := Next(c, w, DataArrives(d)); w2.hist == w.hist && d.seqno < AckNumber(w2.r)
  {
    InvParts(c, w);
    AckNumberFacts(c, w.r);
    hide Inv, Bound;
    DataKeepsPartition(c, w.r, d);
    AckNumberFacts(c, OnData(c, w.r, d).0);
    assert Start(w.r) + 0 == w.r.lastAck;
    assert c.window >= 2;
    hide AckNumber;
  }

  /** From any state, one more of the packets accepted can be made to arrive. */
  lemma Round(c: Config, w: World) returns (events: seq<Event>, w2: World)
    requires Inv(c, w) && AckNumber(w.r) < c.isn + |w.hist|
    ensures Leads(c, w, events, w2) && Inv(c, w2) && w2.hist == w.hist && AckNumber(w.r) < AckNumber(w2.r)
  {
    hide Inv, Next, Leads, AckNumber, AckKnown, Underway;
    var k := AckNumber(w.r);
    var first, w1 := Drain(c, w);
    AckLimits(c, w1);
    var second, w3 := Supply(c, w1, k);
    LeadsOn(c, w, first, w1, second, w3);
    var third;
    third, w2 := MissingArrives(c, w3, k);
    LeadsOn(c, w, first + second, w3, third, w2);
    events := first + second + third;
  }

  /** The sender can be made to send packet k. */
  lemma Supply(c: Config, w: World, k: int) returns (events: seq<Event>, w2: World)
    requires Inv(c, w) && AckKnown(w, k) && w.s.lastAck <= k <= w.s.currSeq + 1 && k < c.isn + |w.hist|
    ensures Leads(c, w, events, w2) && Inv(c, w2) && w2.r == w.r && w2.hist == w.hist && Underway(w2, k)
  {
    hide Inv, Next, Leads, AckKnown, Underway;
    if k <= w.s.currSeq {
      events, w2 := Resend(c, w, k);
    } else {
      var first, w1 := CatchUp(c, w, k);
      SendNew(c, w1, k);
      LeadsOne(c, w1, Transmit(1));
      w2 := Next(c, w1, Transmit(1));
      LeadsOn(c, w, first, w1, [Transmit(1)], w2);
      events := first + [Transmit(1)];
    }
  }

  lemma Finish(c: Config, w: World) returns (events: seq<Event>, w2: World)
    requires Inv(c, w) && AckNumber(w.r) == c.isn + |w.hist|
    ensures Leads(c, w, events, w2) && Inv(c, w2) && w2.hist == w.hist && w2.delivered == Concat(w.hist)
  {
    hide Inv, Next, Leads, AckNumber, AckKnown, Concat;
    events, w2 := Drain(c, w);
    assert w.hist[..|w.hist|] == w.hist;
  }

  /** From any state there is a course of events that delivers everything accepted. */
  lemma {:induction false} Completes(c: Config, w: World) returns (events: seq<Event>, w2: World)
    requires Inv(c, w)
    ensures Leads(c, w, events, w2) && Inv(c, w2) && w2.hist == w.hist && w2.delivered == Concat(w.hist)
    decreases c.isn + |w.hist| - AckNumber(w.r)
  {
    hide Inv, Next, Leads, AckNumber, Concat;
    AckLimits(c, w);
    if AckNumber(w.r) == c.isn + |w.hist| {
      events, w2 := Finish(c, w);
    } else {
      var first, w1 := Round(c, w);
      AckLimits(c, w1);
      var more;
      more, w2 := Completes(c, w1);
      LeadsOn(c, w, first, w1, more, w2);
      events := first + more;
    }
  }

  /** Whatever has happened, and even if everything then under way is lost, all that has been accepted can still be
      delivered. */
  lemma NeverStuck(c: Config, past: seq<Event>) returns (future: seq<Event>)
    requires GoodConfig(c)
    ensures RunFrom(c, Blackout(c, WorldAfter(c, past)), future).delivered == WorldAfter(c, past).accepted
  {
    var w := WorldAfter(c, past);
    hide WorldAfter, RunFrom, Next;
    var w2;
    future, w2 := Completes(c, Blackout(c, w));
  }
}
