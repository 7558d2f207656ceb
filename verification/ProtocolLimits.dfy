/** How far the guarantees of flow control go: new packets can be refused for any sizes of window and buffer; and exactly
    for which sizes two lost numbers can come to share a slot of a loss list. */
module ProtocolLimits {
  import opened Packets
  import opened LossSlots
  import opened RcvBuf
  import opened AckHistory
  import opened Endpoint
  import opened Protocol
  import opened ProtocolRuns
  import opened Recovery

  // ---------- Before anything arrives ----------

  /** Nothing has arrived yet; sent packets have been sent, and count packets in all have been made. */
  ghost predicate Early(c: Config, w: World, sent: nat, count: nat) {
    && Inv(c, w) && w.r == NewReceiver(c) && w.received == {}
    && w.s.lost == {} && w.s.lastAck == c.isn && w.s.window == c.flow && w.s.dataAck == c.isn
    && w.s.curr == sent && w.s.currSeq == c.isn + sent - 1 && |w.s.queue| == count
  }

  lemma EarlyInit(c: Config)
    requires GoodConfig(c)
    ensures Early(c, WorldAfter(c, []), 0, 0)
  {
    InitInv(c);
    hide Inv;
  }

  lemma EarlySend(c: Config, w: World, count: nat)
    requires Early(c, w, 0, count) && count < c.sndBufSize
    ensures Early(c, Next(c, w, UserSend([1])), 0, count + 1)
  {
    hide Inv, Partition, Bound, OnSend, NewPackets;
    NextKeeps(c, w, UserSend([1]));
    InvParts(c, w);
    OneMore(c, w.s);
  }

  lemma OneMore(c: Config, s: Sender)
    requires c.mss > 0 && |s.queue| < c.sndBufSize
    ensures var s2 := OnSend(c, s, [1]).0;
            s2 == s.(queue := s2.queue, msgNo := s2.msgNo) && |s2.queue| == |s.queue| + 1
  {
    var data: seq<byte> := [1];
    assert data[..Room(c, s, 1)] == data && data[1..] == [];
    if c.mss == 1 {
      assert |Chunks(data, c.mss, true, false, s.msgNo)| == 1;
    }
  }

  lemma EarlyTransmit(c: Config, w: World, sent: nat, count: nat)
    requires Early(c, w, sent, count) && sent < count && sent < c.flow
    ensures Early(c, Next(c, w, Transmit(c.flow)), sent + 1, count)
    ensures exists d :: d in Next(c, w, Transmit(c.flow)).sent && d.seqno == c.isn + sent
  {
    hide Inv, Partition, Bound, OnPack;
    NextKeeps(c, w, Transmit(c.flow));
    InvParts(c, w);
    NextOut(c, w.s, c.flow);
    var d := OnPack(c, w.s, c.flow).1;
    assert d.value in Add(w.sent, d);
  }

  lemma NextOut(c: Config, s: Sender, cwnd: int)
    requires Bound(c, s) && s.lost == {} && s.curr < |s.queue|
    requires s.currSeq + 1 - s.lastAck < s.window && s.currSeq + 1 - s.lastAck < cwnd
    ensures OnPack(c, s, cwnd)
         == (s.(currSeq := s.currSeq + 1, curr := s.curr + 1), Some(Data(s.currSeq + 1, s.queue[s.curr])))
  {
    hide Bound;
  }

  /** So many packets can be made before any is sent. */
  lemma {:induction false} Fill(c: Config, count: nat) returns (events: seq<Event>)
    requires GoodConfig(c) && count <= c.sndBufSize
    ensures Early(c, WorldAfter(c, events), 0, count)
  {
    hide Inv, Next, WorldAfter;
    if count == 0 {
      EarlyInit(c);
      events := [];
    } else {
      var before := Fill(c, count - 1);
      EarlySend(c, WorldAfter(c, before), count - 1);
      WorldStep(c, before, UserSend([1]));
      events := before + [UserSend([1])];
    }
  }

  /** So many of them can be sent at once, up to the window. */
  lemma {:induction false} SendFirst(c: Config, made: seq<Event>, count: nat, sent: nat) returns (events: seq<Event>)
    requires GoodConfig(c) && Early(c, WorldAfter(c, made), 0, count) && 0 < sent <= count && sent <= c.flow
    ensures Early(c, WorldAfter(c, events), sent, count)
    ensures exists d :: d in WorldAfter(c, events).sent && d.seqno == c.isn + sent - 1
  {
    hide Inv, Next, WorldAfter;
    var before := made;
    if sent > 1 {
      before := SendFirst(c, made, count, sent - 1);
    }
    EarlyTransmit(c, WorldAfter(c, before), sent - 1, count);
    WorldStep(c, before, Transmit(c.flow));
    events := before + [Transmit(c.flow)];
  }

  // ---------- One packet after the other ----------

  /** The j packets sent so far have arrived, the sender knows, and waiting more are made; acked of them have not been
      read. */
  ghost predicate Quiet(c: Config, w: World, j: nat, waiting: nat, acked: nat, window: int) {
    && Inv(c, w) && Idle(c, w.s, j, waiting, window) && UpToDate(c, w.r, j, acked)
  }

  ghost predicate Idle(c: Config, s: Sender, j: nat, waiting: nat, window: int) {
    && s.dataAck == c.isn + j && s.lastAck == c.isn + j && s.currSeq == c.isn + j - 1 && s.curr == 0
    && s.lost == {} && |s.queue| == waiting && s.window == window
  }

  ghost predicate UpToDate(c: Config, r: Receiver, j: nat, acked: nat) {
    && r.lastAck == c.isn + j && r.currSeq == c.isn + j - 1 && r.lost == {} && r.ring.acked == acked
    && r.lastAckAck == c.isn
  }

  lemma EarlyQuiet(c: Config, w: World, waiting: nat)
    requires Early(c, w, 0, waiting)
    ensures Quiet(c, w, 0, waiting, 0, c.flow)
  {
    hide Inv;
  }

  /** The next packet goes out. */
  lemma GoesOut(c: Config, w: World, j: nat, waiting: nat, acked: nat, window: int) returns (w2: World, d: Data)
    requires Quiet(c, w, j, waiting, acked, window) && 0 < waiting && 0 < window
    ensures w2 == Next(c, w, Transmit(1)) && Inv(c, w2) && d in w2.sent && d.seqno == c.isn + j
    ensures w2.r == w.r && w2.s == w.s.(currSeq := c.isn + j, curr := 1)
  {
    hide Inv, Partition, Bound, OnPack, UpToDate;
    NextKeeps(c, w, Transmit(1));
    InvParts(c, w);
    NextOut(c, w.s, 1);
    w2, d := Next(c, w, Transmit(1)), OnPack(c, w.s, 1).1.value;
    assert d in Add(w.sent, Some(d));
  }

  /** It arrives. */
  lemma Arrives(c: Config, w: World, j: nat, acked: nat, d: Data) returns (w2: World)
    requires Inv(c, w) && UpToDate(c, w.r, j, acked) && d in w.sent && d.seqno == c.isn + j && acked < c.window - 1
    ensures w2 == Next(c, w, DataArrives(d)) && Inv(c, w2) && w2.s == w.s
    ensures w2.r == w.r.(ring := w2.r.ring, currSeq := c.isn + j) && w2.r.ring.acked == acked
  {
    hide Inv, Partition, OnData;
    NextKeeps(c, w, DataArrives(d));
    InvParts(c, w);
    w2 := Next(c, w, DataArrives(d));
    NextStored(c, w.r, d);
  }

  lemma NextStored(c: Config, r: Receiver, d: Data)
    requires Partition(c, r) && d.seqno == r.currSeq + 1 == r.lastAck && r.lost == {} && r.ring.acked < c.window - 1
    ensures var r2 := OnData(c, r, d).0; r2 == r.(ring := r2.ring, currSeq := d.seqno) && r2.ring.acked == r.ring.acked
  {
    assert r.ring.cells[r.ring.acked] == Empty;
  }

  /** The timer sends a full ACK, and it arrives. */
  lemma Acknowledged(c: Config, w: World, j: nat, before: nat, acked: nat) returns (events: seq<Event>, w2: World)
    requires Inv(c, w) && GoodConfig(c) && w.r.lost == {} && w.r.lastAckAck == c.isn && w.r.ring.acked == acked
    requires w.r.currSeq == c.isn + j - 1 && w.r.lastAck == c.isn + before && before <= j && 0 < j && acked + (j - before) < c.window
    requires w.s.currSeq == c.isn + j - 1 && w.s.lost == {} && w.s.lastAck == w.s.dataAck == c.isn + before && w.s.curr == j - before
    ensures Leads(c, w, events, w2) && Inv(c, w2) && UpToDate(c, w2.r, j, acked + (j - before))
    ensures j - before <= |w.s.queue|
    ensures Idle(c, w2.s, j, |w.s.queue| - (j - before), Max(2, c.window - (acked + (j - before)) - 1))
  {
    hide Inv, Partition, Bound, OnAckTimer, OnAck, UpToDate, Idle, Leads;
    InvParts(c, w);
    var timer := AckTimer(false, false, 0);
    var w1 := Next(c, w, timer);
    TimerAcks(c, w.r, j, before, acked);
    var a := OnAckTimer(c, w.r, false, false, 0).1.value;
    LeadsOne(c, w, timer);
    assert a in Add(w.acks, Some(a));
    w2 := Next(c, w1, AckArrives(a, false));
    LeadsOne(c, w1, AckArrives(a, false));
    events := [timer] + [AckArrives(a, false)];
    LeadsOn(c, w, [timer], w1, [AckArrives(a, false)], w2);
    TakesAck(c, w.s, j, before, a);
  }

  lemma TimerAcks(c: Config, r: Receiver, j: nat, before: nat, acked: nat)
    requires GoodConfig(c) && Partition(c, r) && r.lost == {} && r.lastAckAck == c.isn && r.ring.acked == acked
    requires r.currSeq == c.isn + j - 1 && r.lastAck == c.isn + before && before <= j && 0 < j
    ensures var (r2, a) := OnAckTimer(c, r, false, false, 0);
            && UpToDate(c, r2, j, acked + (j - before)) && a.Some? && a.value.FullAck?
            && a.value.ack == c.isn + j && a.value.window == Max(2, c.window - (acked + (j - before)) - 1)
  {
    hide Partition, Recorded;
  }

  lemma TakesAck(c: Config, s: Sender, j: nat, before: nat, a: Ack)
    requires Bound(c, s) && s.currSeq == c.isn + j - 1 && s.lost == {} && s.lastAck == s.dataAck == c.isn + before
    requires s.curr == j - before && a.FullAck? && a.ack == c.isn + j && before <= j
    ensures j - before <= |s.queue| && Idle(c, OnAck(c, s, a), j, |s.queue| - (j - before), a.window)
  {
  }

  /** A round: a packet goes out, arrives and is acknowledged. */
  lemma OneMoreRound(c: Config, w: World, j: nat, waiting: nat, acked: nat, window: int)
    returns (events: seq<Event>, w2: World)
    requires GoodConfig(c) && Quiet(c, w, j, waiting, acked, window) && 0 < waiting && 0 < window && acked < c.window - 1
    ensures Leads(c, w, events, w2) && Quiet(c, w2, j + 1, waiting - 1, acked + 1, Max(2, c.window - acked - 2))
  {
    hide Inv, Next, Leads;
    var w1, d := GoesOut(c, w, j, waiting, acked, window);
    var w3 := Arrives(c, w1, j, acked, d);
    LeadsOne(c, w, Transmit(1));
    LeadsOne(c, w1, DataArrives(d));
    LeadsOn(c, w, [Transmit(1)], w1, [DataArrives(d)], w3);
    var more;
    more, w2 := Acknowledged(c, w3, j + 1, j, acked);
    LeadsOn(c, w, [Transmit(1)] + [DataArrives(d)], w3, more, w2);
    events := [Transmit(1)] + [DataArrives(d)] + more;
  }

  /** So many rounds, in which nothing is read. */
  lemma {:induction false} Rounds(c: Config, count: nat, n: nat) returns (events: seq<Event>, w: World)
    requires GoodConfig(c) && n <= count <= c.sndBufSize && n < c.window
    ensures Leads(c, Init(c), events, w) && Quiet(c, w, n, count - n, n, if n == 0 then c.flow else Max(2, c.window - n - 1))
  {
    hide Inv, Next, Leads, Quiet, Early;
    if n == 0 {
      events := Fill(c, count);
      w := WorldAfter(c, events);
      LeadsHere(c, events);
      EarlyQuiet(c, w, count);
    } else {
      var before, w0 := Rounds(c, count, n - 1);
      var more;
      more, w := OneMoreRound(c, w0, n - 1, count - (n - 1), n - 1, if n == 1 then c.flow else Max(2, c.window - n));
      LeadsOn(c, Init(c), before, w0, more, w);
      events := before + more;
    }
  }

  lemma LeadsHere(c: Config, events: seq<Event>)
    requires GoodConfig(c)
    ensures Leads(c, Init(c), events, WorldAfter(c, events))
  {
    InitInv(c);
    hide Inv;
  }

  lemma Here(c: Config, events: seq<Event>, w: World)
    requires GoodConfig(c) && Leads(c, Init(c), events, w)
    ensures WorldAfter(c, events) == w
  {
    hide Inv;
  }

  // ---------- New packets that are refused ----------

  /** A packet that was sent and never stored is not stored when it arrives. */
  ghost predicate Refused(c: Config, events: seq<Event>, d: Data)
    requires GoodConfig(c)
  {
    var w := WorldAfter(c, events);
    d in w.sent && d.seqno !in w.received && Partition(c, w.r) && !Accepts(c, w.r, d)
  }

  /** For any sizes of window and buffer there is a run in which a new packet is refused: when the buffer is full of
      packets not yet read, a full ACK still offers a window of 2. */
  lemma NewCanBeRefused(c: Config)
    requires GoodConfig(c) && c.window <= c.sndBufSize
    ensures exists events: seq<Event>, d: Data :: Refused(c, events, d)
  {
    hide Inv, Next, Leads, Quiet, WorldAfter;
    var n := c.window - 1;
    var before, w := Rounds(c, c.window, n);
    FullBuffer(c, w, n, 1, n, Max(2, c.window - n - 1));
    var w2, d := GoesOut(c, w, n, 1, n, Max(2, c.window - n - 1));
    LeadsOne(c, w, Transmit(1));
    var events := before + [Transmit(1)];
    LeadsOn(c, Init(c), before, w, [Transmit(1)], w2);
    Here(c, events, w2);
    StoredJustIf(c, events, d);
    RefusedThere(c, events, d, w2);
  }

  lemma FullBuffer(c: Config, w: World, j: nat, waiting: nat, acked: nat, window: int)
    requires Quiet(c, w, j, waiting, acked, window)
    ensures Inv(c, w) && Start(w.r) == c.isn + j - acked && w.r.currSeq == c.isn + j - 1
  {
    hide Inv;
  }

  lemma RefusedThere(c: Config, events: seq<Event>, d: Data, w: World)
    requires GoodConfig(c) && WorldAfter(c, events) == w && d in w.sent && Partition(c, w.r) && !Accepts(c, w.r, d)
    requires d.seqno > w.r.currSeq
    ensures Refused(c, events, d)
  {
    hide WorldAfter, Partition, Accepts;
    NotReceived(c, w, d.seqno);
    hide Inv;
  }

  lemma NotReceived(c: Config, w: World, n: int)
    requires Inv(c, w) && n > w.r.currSeq
    ensures n !in w.received
  {
    InvReceiver(c, w);
    hide Inv, CellsInv, StreamInv, RecordsInv;
  }

  /** If the first window is as large as the buffer, that alone allows one packet too many. */
  lemma FirstCanBeRefused(c: Config)
    requires GoodConfig(c) && c.flow == c.window <= c.sndBufSize
    ensures exists events: seq<Event>, d: Data :: Refused(c, events, d)
  {
    hide Inv, Next, WorldAfter;
    var made := Fill(c, c.window);
    var events := SendFirst(c, made, c.window, c.window);
    var d :| d in WorldAfter(c, events).sent && d.seqno == c.isn + c.window - 1;
    StoredJustIf(c, events, d);
    assert Refused(c, events, d);
  }

  // ---------- Lost numbers that share a slot ----------

  /** A packet has been acknowledged and read, and a second ACK has opened the window as far as it goes. */
  lemma Opened(c: Config, count: nat) returns (events: seq<Event>, w: World)
    requires GoodConfig(c) && 3 <= c.window && 0 < count <= c.sndBufSize
    ensures Leads(c, Init(c), events, w) && Quiet(c, w, 1, count - 1, 0, c.window - 1)
  {
    hide Inv, Next, Leads;
    var first, w1 := Rounds(c, count, 1);
    var read := UserRecv(|Concat(w1.hist)| + 1);
    var w2 := Next(c, w1, read);
    ReadOut(c, w1);
    OnlyRing(c, w1, |Concat(w1.hist)| + 1);
    LeadsOne(c, w1, read);
    LeadsOn(c, Init(c), first, w1, [read], w2);
    var more;
    more, w := Acknowledged(c, w2, 1, 1, 0);
    LeadsOn(c, Init(c), first + [read], w2, more, w);
    events := first + [read] + more;
  }

  lemma OnlyRing(c: Config, w: World, len: int)
    requires Inv(c, w)
    ensures var w2 := Next(c, w, UserRecv(len)); w2.s == w.s && w2.r == w.r.(ring := w2.r.ring, notch := w2.r.notch)
  {
    hide Inv, AllFull, OnRecv;
    RecvKeeps(c, w, len);
    RingOnly(w.r, len);
  }

  lemma RingOnly(r: Receiver, len: int)
    requires r.ring.acked <= |r.ring.cells| && AllFull(r.ring.cells[..r.ring.acked])
    ensures var r2 := OnRecv(r, len).0; r2 == r.(ring := r2.ring, notch := r2.notch)
  {
    hide AllFull, Read;
  }

  /** From there on m packets go out, and none arrives. */
  lemma {:induction false} Burst(c: Config, w: World, count: nat, m: nat) returns (events: seq<Event>, w2: World)
    requires GoodConfig(c) && Quiet(c, w, 1, count, 0, c.window - 1) && m <= count && m <= c.window - 1
    ensures Leads(c, w, events, w2) && Inv(c, w2) && w2.r == w.r && w2.s == w.s.(currSeq := c.isn + m, curr := m)
    ensures m > 0 ==> exists d :: d in w2.sent && d.seqno == c.isn + m
  {
    hide Inv, Next, Leads;
    if m == 0 {
      events, w2 := [], w;
      Nowhere(c, w);
    } else {
      var before, w1 := Burst(c, w, count, m - 1);
      events := before + [Transmit(c.window)];
      w2 := GoesOutNext(c, w1);
      LeadsOne(c, w1, Transmit(c.window));
      LeadsOn(c, w, before, w1, [Transmit(c.window)], w2);
    }
  }

  lemma Nowhere(c: Config, w: World)
    requires Inv(c, w)
    ensures Leads(c, w, [], w)
  {
    hide Inv;
  }

  lemma GoesOutNext(c: Config, w: World) returns (w2: World)
    requires Inv(c, w) && w.s.lost == {} && w.s.curr < |w.s.queue|
    requires w.s.currSeq + 1 - w.s.lastAck < w.s.window && w.s.currSeq + 1 - w.s.lastAck < c.window
    ensures w2 == Next(c, w, Transmit(c.window)) && Inv(c, w2)
    ensures w2.r == w.r && w2.s == w.s.(currSeq := w.s.currSeq + 1, curr := w.s.curr + 1)
    ensures exists d :: d in w2.sent && d.seqno == w.s.currSeq + 1
  {
    hide Inv, Partition, Bound, OnPack;
    NextKeeps(c, w, Transmit(c.window));
    InvParts(c, w);
    NextOut(c, w.s, c.window);
    w2 := Next(c, w, Transmit(c.window));
    var d := OnPack(c, w.s, c.window).1.value;
    assert d in Add(w.sent, Some(d));
  }

  /** The sender's loss list is an array of twice the first window: two lost numbers can come to share a slot of it if the
      buffer is larger than that by two cells or more. */
  lemma LostTwiceInSlot(c: Config) returns (events: seq<Event>, x: int, y: int)
    requires GoodConfig(c) && 2 * c.flow + 2 <= c.window <= c.sndBufSize
    ensures var lost := WorldAfter(c, events).s.lost; x in lost && y in lost && y - x == 2 * c.flow
  {
    hide Inv, Next, Leads, WorldAfter;
    var first, w := Opened(c, c.window);
    var second, w2 := Burst(c, w, c.window - 1, c.window - 1);
    LeadsOn(c, Init(c), first, w, second, w2);
    LeadsOne(c, w2, ExpTimer);
    events := first + second + [ExpTimer];
    LeadsOn(c, Init(c), first + second, w2, [ExpTimer], Next(c, w2, ExpTimer));
    Here(c, events, Next(c, w2, ExpTimer));
    x, y := c.isn + 1, c.isn + 1 + 2 * c.flow;
    Expires(c, w2, x);
    Expires(c, w2, y);
  }

  /** The receiver's loss list has as many slots as its flight size, which is the first window if the buffer is larger: two
      lost numbers can come to share one if the buffer is larger by three cells or more. */
  lemma MissingTwiceInSlot(c: Config) returns (events: seq<Event>, x: int, y: int)
    requires GoodConfig(c) && c.flow + 3 <= c.window <= c.sndBufSize
    ensures var lost := WorldAfter(c, events).r.lost; x in lost && y in lost && y - x == c.flow
  {
    hide Inv, Next, Leads, WorldAfter;
    var first, w := Opened(c, c.window);
    var second, w2 := Burst(c, w, c.window - 1, c.window - 1);
    LeadsOn(c, Init(c), first, w, second, w2);
    var d :| d in w2.sent && d.seqno == c.isn + c.window - 1;
    LeadsOne(c, w2, DataArrives(d));
    events := first + second + [DataArrives(d)];
    LeadsOn(c, Init(c), first + second, w2, [DataArrives(d)], Next(c, w2, DataArrives(d)));
    Here(c, events, Next(c, w2, DataArrives(d)));
    GapArrives(c, w2, d);
    x, y := c.isn + 1, c.isn + 1 + c.flow;
  }

  lemma GapArrives(c: Config, w: World, d: Data)
    requires Inv(c, w) && UpToDate(c, w.r, 1, 0) && d in w.sent && c.isn + 1 < d.seqno < c.isn + c.window
    ensures forall x :: c.isn + 1 <= x < d.seqno ==> x in Next(c, w, DataArrives(d)).r.lost
  {
    hide Inv, Partition, OnData, UpToDate;
    InvParts(c, w);
    GapStored(c, w.r, d);
  }

  lemma GapStored(c: Config, r: Receiver, d: Data)
    requires Partition(c, r) && UpToDate(c, r, 1, 0) && c.isn + 1 < d.seqno < c.isn + c.window
    ensures forall x :: c.isn + 1 <= x < d.seqno ==> x in OnData(c, r, d).0.lost
  {
  }

  /** Two lost numbers of the sender never share a slot, in any run, just if the buffer is larger than twice the first
      window by at most one cell. */
  lemma SenderSlots(c: Config)
    requires GoodConfig(c) && c.window <= c.sndBufSize
    ensures (forall events, x, y :: LostApart(c, events, x, y, 2 * c.flow)) <==> c.window <= 2 * c.flow + 1
  {
    hide WorldAfter;
    if c.window <= 2 * c.flow + 1 {
      forall events, x, y ensures LostApart(c, events, x, y, 2 * c.flow) {
        WindowRespected(c, events, x, y);
      }
    } else {
      var events, x, y := LostTwiceInSlot(c);
      assert !LostApart(c, events, x, y, 2 * c.flow);
    }
  }

  ghost predicate LostApart(c: Config, events: seq<Event>, x: int, y: int, size: int)
    requires GoodConfig(c)
  {
    var lost := WorldAfter(c, events).s.lost;
    x in lost && y in lost && x < y ==> y - x < size
  }

  /** Nor do two of the receiver, just if the buffer is larger than the first window by at most two cells. */
  lemma ReceiverSlots(c: Config)
    requires GoodConfig(c) && c.window <= c.sndBufSize
    ensures (forall events, x, y :: MissingApart(c, events, x, y, c.flow)) <==> c.window <= c.flow + 2
  {
    hide WorldAfter;
    if c.window <= c.flow + 2 {
      forall events, x, y ensures MissingApart(c, events, x, y, c.flow) {
        MissingSpan(c, events, x, y);
      }
    } else {
      var events, x, y := MissingTwiceInSlot(c);
      assert !MissingApart(c, events, x, y, c.flow);
    }
  }

  ghost predicate MissingApart(c: Config, events: seq<Event>, x: int, y: int, size: int)
    requires GoodConfig(c)
  {
    var lost := WorldAfter(c, events).r.lost;
    x in lost && y in lost && x < y ==> y - x < size
  }

  lemma MissingSpan(c: Config, events: seq<Event>, x: int, y: int)
    requires GoodConfig(c)
    ensures var lost := WorldAfter(c, events).r.lost; x in lost && y in lost ==> y - x < c.window - 2
  {
    hide WorldAfter, Inv;
    var w := WorldAfter(c, events);
    InvParts(c, w);
  }
}
