/** The data transfer protocol: a sending and a receiving half joined by a network that drops, duplicates, delays and
    reorders packets.  Whatever happens, what recv has returned is a prefix of what send has accepted. */
module Protocol {
  import opened Packets
  import opened LossSlots
  import opened RcvBuf
  import opened AckHistory
  import opened Endpoint

  /** The two halves; every packet ever sent by either, any of which may arrive at any time, any number of times or
      never; and what has happened so far: hist the packets made from the bytes that send accepted, delivered the
      bytes that recv returned, received the numbers stored, ackLog the data numbers of the full ACKs sent. */
  datatype World = World(s: Sender, r: Receiver, hist: seq<Packet>, accepted: seq<byte>, delivered: seq<byte>,
                         sent: set<Data>, acks: set<Ack>, naks: set<seq<Run>>, ack2s: set<nat>,
                         received: set<int>, ackLog: seq<int>)

  datatype Event =
    | UserSend(data: seq<byte>)
    | Transmit(cwnd: int)
    | DataArrives(d: Data)
    | AckTimer(lite: bool, soon: bool, now: int)
    | AckArrives(a: Ack, ack2: bool)
    | NakArrives(runs: seq<Run>)
    | ExpTimer
    | Ack2Arrives(number: nat, now: int)
    | UserRecv(len: int)

  function Init(c: Config): World
    requires GoodConfig(c)
  {
    World(NewSender(c), NewReceiver(c), [], [], [], {}, {}, {}, {}, {}, [])
  }

  // ---------- The invariant ----------

  /** The first packet in the send buffer is the one numbered dataAck. */
  ghost predicate SenderInv(c: Config, s: Sender, hist: seq<Packet>) {
    && Bound(c, s) && c.isn <= s.dataAck && s.currSeq + 1 - c.isn <= |hist|
    && s.queue == hist[s.dataAck - c.isn..]
  }

  /** Each cell holds the packet with its number. */
  ghost predicate CellsInv(c: Config, r: Receiver, hist: seq<Packet>) {
    && Partition(c, r) && c.isn <= Start(r) && r.currSeq + 1 - c.isn <= |hist|
    && (forall i :: 0 <= i <= r.currSeq - Start(r) && r.ring.cells[i].Full? ==>
          r.ring.cells[i] == Full(hist[Start(r) - c.isn + i], 1))
  }

  /** The packets acknowledged and not yet read. */
  function Waiting(c: Config, r: Receiver, hist: seq<Packet>): seq<Packet>
    requires c.isn <= Start(r) && r.lastAck - c.isn <= |hist|
  {
    hist[Start(r) - c.isn..r.lastAck - c.isn]
  }

  /** What has been delivered and what waits to be read make up everything acknowledged. */
  ghost predicate StreamInv(c: Config, r: Receiver, hist: seq<Packet>, delivered: seq<byte>) {
    && c.isn <= Start(r) && r.lastAck - c.isn <= |hist|
    && NotchInside(Waiting(c, r, hist), r.notch)
    && delivered + Stream(Waiting(c, r, hist), r.notch) == Concat(hist[..r.lastAck - c.isn])
  }

  ghost predicate SentInv(c: Config, sent: set<Data>, next: int, hist: seq<Packet>) {
    && next - c.isn <= |hist|
    && forall d :: d in sent ==> c.isn <= d.seqno < next && d.packet == hist[d.seqno - c.isn]
  }

  /** Every ACK in the network is no further than the receiver is now, and a full one is on record. */
  ghost predicate AcksInv(c: Config, acks: set<Ack>, limit: int, ackLog: seq<int>) {
    forall a :: a in acks ==>
      && a.ack <= limit
      && (a.FullAck? ==> 2 <= a.window <= Span(c) && 1 <= a.number <= |ackLog| && ackLog[a.number - 1] == a.ack)
  }

  ghost predicate NaksInv(naks: set<seq<Run>>, limit: int) {
    forall runs: seq<Run>, i: int :: runs in naks && 0 <= i < |runs| ==> runs[i].lo <= runs[i].hi <= limit
  }

  /** The sender has acted on every ACK that it has acknowledged. */
  ghost predicate Ack2Inv(ack2s: set<nat>, ackLog: seq<int>, dataAck: int) {
    forall k :: k in ack2s ==> 1 <= k <= |ackLog| && ackLog[k - 1] <= dataAck
  }

  ghost predicate RecordsInv(r: Receiver, ackLog: seq<int>) {
    && r.ackSeqNo == |ackLog|
    && (forall i :: 0 <= i < |r.records| ==>
          1 <= r.records[i].number <= |ackLog| && r.records[i].ack == ackLog[r.records[i].number - 1])
    && (forall k :: 0 <= k < |ackLog| ==> ackLog[k] <= r.lastAck)
    && r.lastAckAck <= r.lastAck
  }

  /** What has been received is everything up to currSeq except what the loss list says. */
  ghost predicate ReceivedInv(c: Config, r: Receiver, received: set<int>) {
    forall n :: n in received <==> c.isn <= n <= r.currSeq && n !in r.lost
  }

  ghost predicate Inv(c: Config, w: World) {
    && GoodConfig(c)
    && SenderInv(c, w.s, w.hist) && CellsInv(c, w.r, w.hist) && StreamInv(c, w.r, w.hist, w.delivered)
    && SentInv(c, w.sent, w.s.currSeq + 1, w.hist) && w.r.currSeq <= w.s.currSeq
    && AcksInv(c, w.acks, AckNumber(w.r), w.ackLog) && NaksInv(w.naks, w.r.currSeq)
    && Ack2Inv(w.ack2s, w.ackLog, w.s.dataAck) && RecordsInv(w.r, w.ackLog)
    && w.r.lastAckAck <= w.s.dataAck && w.s.lastAck <= AckNumber(w.r)
    && ReceivedInv(c, w.r, w.received) && w.accepted == Concat(w.hist)
  }

  // ---------- One event ----------

  function Add<T>(s: set<T>, x: Option<T>): set<T> {
    match x
    case None => s
    case Some(y) => s + {y}
  }

  /** The packets that a call of send makes. */
  function NewPackets(c: Config, s: Sender, data: seq<byte>): seq<Packet>
    requires c.mss > 0
  {
    if data == [] || c.sndBufSize <= |s.queue| then []
    else Chunks(data[..Room(c, s, |data|)], c.mss, true, false, s.msgNo)
  }

  ghost function AfterSend(c: Config, w: World, data: seq<byte>): World
    requires GoodConfig(c)
  {
    var (s, n) := OnSend(c, w.s, data);
    w.(s := s, hist := w.hist + NewPackets(c, w.s, data), accepted := w.accepted + data[..n])
  }

  ghost function AfterTransmit(c: Config, w: World, cwnd: int): World
    requires Bound(c, w.s)
  {
    var (s, d) := OnPack(c, w.s, cwnd);
    w.(s := s, sent := Add(w.sent, d))
  }

  ghost function AfterData(c: Config, w: World, d: Data): World
    requires Partition(c, w.r)
  {
    var (r, nak) := OnData(c, w.r, d);
    w.(r := r, naks := Add(w.naks, nak), received := if Accepts(c, w.r, d) then w.received + {d.seqno} else w.received)
  }

  ghost function AfterAckTimer(c: Config, w: World, lite: bool, soon: bool, now: int): World
    requires GoodConfig(c) && Partition(c, w.r)
  {
    var (r, a) := OnAckTimer(c, w.r, lite, soon, now);
    w.(r := r, acks := Add(w.acks, a),
       ackLog := if a.Some? && a.value.FullAck? then w.ackLog + [a.value.ack] else w.ackLog)
  }

  /** Whether an ACK2 is sent depends on the time since the last one. */
  ghost function AfterAck(c: Config, w: World, a: Ack, ack2: bool): World
    requires Bound(c, w.s)
  {
    w.(s := OnAck(c, w.s, a), ack2s := if a.FullAck? && ack2 then w.ack2s + {a.number} else w.ack2s)
  }

  ghost function AfterRecv(w: World, len: int): World
    requires w.r.ring.acked <= |w.r.ring.cells| && AllFull(w.r.ring.cells[..w.r.ring.acked])
  {
    var (r, data) := OnRecv(w.r, len);
    w.(r := r, delivered := w.delivered + data)
  }

  /** One event; the arrival of a packet that was never sent does not happen. */
  ghost function Next(c: Config, w: World, e: Event): World
    requires Inv(c, w)
  {
    match e
    case UserSend(data) => AfterSend(c, w, data)
    case Transmit(cwnd) => AfterTransmit(c, w, cwnd)
    case DataArrives(d) => if d in w.sent then AfterData(c, w, d) else w
    case AckTimer(lite, soon, now) => AfterAckTimer(c, w, lite, soon, now)
    case AckArrives(a, ack2) => if a in w.acks then AfterAck(c, w, a, ack2) else w
    case NakArrives(runs) => if runs in w.naks then w.(s := OnNak(w.s, runs)) else w
    case ExpTimer => w.(s := OnExpire(w.s))
    case Ack2Arrives(number, now) => if number in w.ack2s then w.(r := OnAck2(w.r, number, now)) else w
    case UserRecv(len) => AfterRecv(w, len)
  }

  // ---------- Every event keeps the invariant ----------

  lemma InitInv(c: Config)
    requires GoodConfig(c)
    ensures Inv(c, Init(c))
  {
    InitSender(c);
    InitReceiver(c);
    InitNetwork(c);
    hide *;
    InitParts(c, NewSender(c), NewReceiver(c), Init(c));
  }

  lemma InitParts(c: Config, s: Sender, r: Receiver, w: World)
    requires GoodConfig(c) && w == World(s, r, [], [], [], {}, {}, {}, {}, {}, []) && Concat([]) == []
    requires SenderInv(c, s, []) && CellsInv(c, r, []) && StreamInv(c, r, [], []) && RecordsInv(r, []) && ReceivedInv(c, r, {})
    requires AckNumber(r) == s.dataAck == s.lastAck == c.isn && s.currSeq == r.currSeq == c.isn - 1 && r.lastAckAck == c.isn
    requires SentInv(c, {}, c.isn, []) && AcksInv(c, {}, c.isn, []) && NaksInv({}, c.isn - 1) && Ack2Inv({}, [], c.isn)
    ensures Inv(c, w)
  {
    hide SenderInv, CellsInv, StreamInv, SentInv, AcksInv, NaksInv, Ack2Inv, RecordsInv, ReceivedInv, AckNumber, Concat;
  }

  lemma InitNetwork(c: Config)
    ensures SentInv(c, {}, c.isn, []) && AcksInv(c, {}, c.isn, []) && NaksInv({}, c.isn - 1) && Ack2Inv({}, [], c.isn)
    ensures Concat([]) == []
  {
  }

  lemma InitSender(c: Config)
    requires GoodConfig(c)
    ensures SenderInv(c, NewSender(c), [])
  {
    var none: seq<Packet> := [];
    assert none[0..] == none;
  }

  lemma InitReceiver(c: Config)
    requires GoodConfig(c)
    ensures var r := NewReceiver(c);
            && CellsInv(c, r, []) && StreamInv(c, r, [], []) && RecordsInv(r, []) && ReceivedInv(c, r, {})
            && AckNumber(r) == c.isn && r.currSeq == c.isn - 1 && r.lastAckAck == c.isn
  {
  }

  lemma InvParts(c: Config, w: World)
    requires Inv(c, w)
    ensures GoodConfig(c) && Bound(c, w.s) && Partition(c, w.r) && c.isn <= w.r.lastAck
  {
  }

  /** The ACK number is the first one not received. */
  ghost predicate IsFirstMissing(r: Receiver, k: int) {
    && r.lastAck <= k <= r.currSeq + 1 && (k <= r.currSeq ==> k in r.lost)
    && forall n :: r.lastAck <= n < k ==> n !in r.lost
  }

  lemma AckNumberFacts(c: Config, r: Receiver)
    requires Partition(c, r)
    ensures IsFirstMissing(r, AckNumber(r))
  {
  }

  lemma FirstMissingUnique(c: Config, r: Receiver, k: int)
    requires Partition(c, r) && IsFirstMissing(r, k)
    ensures AckNumber(r) == k
  {
    AckNumberFacts(c, r);
  }

  // send

  lemma SendKeeps(c: Config, w: World, data: seq<byte>)
    requires Inv(c, w)
    ensures Inv(c, AfterSend(c, w, data))
  {
    hide SenderInv, CellsInv, StreamInv, SentInv, AcksInv, NaksInv, Ack2Inv, RecordsInv, ReceivedInv;
    hide NewPackets, OnSend, Concat, AckNumber;
    var more := NewPackets(c, w.s, data);
    SendMakesPackets(c, w.s, data);
    ConcatAppend(w.hist, more);
    SenderGrows(c, w.s, OnSend(c, w.s, data).0, w.hist, more);
    CellsGrow(c, w.r, w.hist, more, w.delivered);
    SentGrows(c, w.sent, w.s.currSeq + 1, w.hist, more);
  }

  lemma SendMakesPackets(c: Config, s: Sender, data: seq<byte>)
    requires c.mss > 0
    ensures var (s2, n) := OnSend(c, s, data);
            && n <= |data| && Concat(NewPackets(c, s, data)) == data[..n]
            && s2 == s.(queue := s.queue + NewPackets(c, s, data), msgNo := s2.msgNo)
  {
    var n := Room(c, s, |data|);
    ChunksFaithful(data[..n], c.mss, false, s.msgNo);
    hide Chunks, Room;
  }

  lemma SenderGrows(c: Config, s: Sender, s2: Sender, hist: seq<Packet>, more: seq<Packet>)
    requires SenderInv(c, s, hist) && s2 == s.(queue := s.queue + more, msgNo := s2.msgNo)
    ensures SenderInv(c, s2, hist + more)
  {
  }

  lemma CellsGrow(c: Config, r: Receiver, hist: seq<Packet>, more: seq<Packet>, delivered: seq<byte>)
    requires CellsInv(c, r, hist) && StreamInv(c, r, hist, delivered)
    ensures CellsInv(c, r, hist + more) && StreamInv(c, r, hist + more, delivered)
  {
    assert Waiting(c, r, hist + more) == Waiting(c, r, hist);
    assert (hist + more)[..r.lastAck - c.isn] == hist[..r.lastAck - c.isn];
    hide Stream, Concat, NotchInside, Waiting;
  }

  lemma SentGrows(c: Config, sent: set<Data>, next: int, hist: seq<Packet>, more: seq<Packet>)
    requires SentInv(c, sent, next, hist)
    ensures SentInv(c, sent, next, hist + more)
  {
  }

  // Transmission

  lemma TransmitKeeps(c: Config, w: World, cwnd: int)
    requires Inv(c, w)
    ensures Inv(c, AfterTransmit(c, w, cwnd))
  {
    hide SenderInv, CellsInv, StreamInv, SentInv, AcksInv, NaksInv, Ack2Inv, RecordsInv, ReceivedInv;
    InvParts(c, w);
    hide Bound, Add, OnPack, Concat, AckNumber;
    PackKeeps(c, w.s, w.hist, cwnd);
    var (s2, d) := OnPack(c, w.s, cwnd);
    SentMore(c, w.sent, w.s.currSeq + 1, s2.currSeq + 1, w.hist, d);
  }

  /** A transmission carries the packet that its number stands for. */
  lemma PackKeeps(c: Config, s: Sender, hist: seq<Packet>, cwnd: int)
    requires SenderInv(c, s, hist)
    ensures var (s2, d) := OnPack(c, s, cwnd);
            && SenderInv(c, s2, hist) && s2.lastAck == s.lastAck && s2.dataAck == s.dataAck && s.currSeq <= s2.currSeq
            && s2.currSeq + 1 - c.isn <= |hist|
            && (d.Some? ==> c.isn <= d.value.seqno <= s2.currSeq && d.value.packet == hist[d.value.seqno - c.isn])
  {
  }

  lemma SentMore(c: Config, sent: set<Data>, next: int, next2: int, hist: seq<Packet>, d: Option<Data>)
    requires SentInv(c, sent, next, hist) && next <= next2 && next2 - c.isn <= |hist|
    requires d.Some? ==> c.isn <= d.value.seqno < next2 && d.value.packet == hist[d.value.seqno - c.isn]
    ensures SentInv(c, Add(sent, d), next2, hist)
  {
  }

  // Data

  lemma DataKeeps(c: Config, w: World, d: Data)
    requires Inv(c, w) && d in w.sent
    ensures Inv(c, AfterData(c, w, d))
  {
    hide SenderInv, CellsInv, StreamInv, SentInv, AcksInv, NaksInv, Ack2Inv, RecordsInv, ReceivedInv;
    hide OnData, Concat, AckNumber, Bound, Partition;
    SentOne(c, w.sent, w.s.currSeq + 1, w.hist, d);
    InvParts(c, w);
    DataKeepsPartition(c, w.r, d);
    CellsStore(c, w.r, w.hist, d);
    DataFrame(c, w.r, d);
    var (r, nak) := OnData(c, w.r, d);
    StreamSame(c, w.r, r, w.hist, w.delivered);
    AckNumberGrows(c, w.r, d);
    AcksLimit(c, w.acks, AckNumber(w.r), AckNumber(r), w.ackLog);
    NakMore(c, w.r, w.naks, d);
    RecordsSame(w.r, r, w.ackLog);
    ReceivedMore(c, w.r, w.received, d);
  }

  lemma SentOne(c: Config, sent: set<Data>, next: int, hist: seq<Packet>, d: Data)
    requires SentInv(c, sent, next, hist) && d in sent
    ensures c.isn <= d.seqno < next <= c.isn + |hist| && d.packet == hist[d.seqno - c.isn]
  {
  }

  lemma DataFrame(c: Config, r: Receiver, d: Data)
    requires Partition(c, r)
    ensures var r2 := OnData(c, r, d).0;
            && r2.lastAck == r.lastAck && r2.ring.acked == r.ring.acked && r2.notch == r.notch
            && r2.records == r.records && r2.ackSeqNo == r.ackSeqNo && r2.lastAckAck == r.lastAckAck
            && r2.currSeq == (if Accepts(c, r, d) then Max(r.currSeq, d.seqno) else r.currSeq)
  {
  }

  lemma CellsStore(c: Config, r: Receiver, hist: seq<Packet>, d: Data)
    requires CellsInv(c, r, hist) && c.isn <= d.seqno < c.isn + |hist| && d.packet == hist[d.seqno - c.isn]
    ensures CellsInv(c, OnData(c, r, d).0, hist)
  {
    hide Partition, OnData, Accepts;
    DataKeepsPartition(c, r, d);
    DataFrame(c, r, d);
    var r2 := OnData(c, r, d).0;
    forall i | 0 <= i <= r2.currSeq - Start(r2) && r2.ring.cells[i].Full?
      ensures r2.ring.cells[i] == Full(hist[Start(r2) - c.isn + i], 1)
    {
      PartitionRoom(c, r2);
      DataCells(c, r, d, i);
    }
  }

  lemma PartitionRoom(c: Config, r: Receiver)
    requires Partition(c, r)
    ensures |r.ring.cells| == c.window && r.currSeq + 1 - Start(r) < c.window
  {
  }

  lemma DataKeepsPartition(c: Config, r: Receiver, d: Data)
    requires Partition(c, r)
    ensures Partition(c, OnData(c, r, d).0)
  {
    var r2 := OnData(c, r, d).0;
    if Accepts(c, r, d) {
      if d.seqno > r.currSeq {
        StoreAhead(c, r, d, r2);
      } else {
        StoreBehind(c, r, d, r2);
      }
    } else {
      SameCells(c, r, r2);
    }
  }

  lemma SameCells(c: Config, r: Receiver, r2: Receiver)
    requires Partition(c, r) && r.ring.acked + r2.ring.maxPos < c.window
    requires r2 == r.(ring := r.ring.(maxPos := r2.ring.maxPos))
    ensures Partition(c, r2)
  {
  }

  /** A new packet is stored; the numbers skipped enter the loss list. */
  lemma StoreAhead(c: Config, r: Receiver, d: Data, r2: Receiver)
    requires Partition(c, r) && Accepts(c, r, d) && d.seqno > r.currSeq
    requires r2.ring == Ring(r.ring.cells[d.seqno - Start(r) := Full(d.packet, 1)], r.ring.acked, r2.ring.maxPos)
    requires r.ring.acked + r2.ring.maxPos < c.window && r2.currSeq == d.seqno && r2.lastAck == r.lastAck
    requires forall n :: n in r2.lost <==> n in r.lost || r.currSeq < n < d.seqno
    ensures Partition(c, r2)
  {
    assert Start(r2) == Start(r);
    hide Start;
    forall i | r2.ring.acked <= i <= r2.currSeq - Start(r2)
      ensures Start(r2) + i in r2.lost <==> r2.ring.cells[i] == Empty
    {
      assert r.ring.cells[i] == Empty || i <= r.currSeq - Start(r);
    }
  }

  /** A lost packet is stored, and its number leaves the loss list. */
  lemma StoreBehind(c: Config, r: Receiver, d: Data, r2: Receiver)
    requires Partition(c, r) && Accepts(c, r, d) && d.seqno <= r.currSeq
    requires r2.ring == Ring(r.ring.cells[d.seqno - Start(r) := Full(d.packet, 1)], r.ring.acked, r2.ring.maxPos)
    requires r.ring.acked + r2.ring.maxPos < c.window && r2.currSeq == r.currSeq && r2.lastAck == r.lastAck
    requires forall n :: n in r2.lost <==> n in r.lost && n != d.seqno
    ensures Partition(c, r2)
  {
    assert Start(r2) == Start(r);
    hide Start;
    forall i | r2.ring.acked <= i <= r2.currSeq - Start(r2)
      ensures Start(r2) + i in r2.lost <==> r2.ring.cells[i] == Empty
    {
      assert Start(r) + i in r.lost <==> r.ring.cells[i] == Empty;
    }
  }

  lemma DataCells(c: Config, r: Receiver, d: Data, i: int)
    requires Partition(c, r) && 0 <= i < c.window
    ensures var r2 := OnData(c, r, d).0;
            && |r2.ring.cells| == c.window && Start(r2) == Start(r)
            && (r2.ring.cells[i] == r.ring.cells[i]
                || (i == d.seqno - Start(r) && r2.ring.cells[i] == Full(d.packet, 1)))
    ensures i > r.currSeq - Start(r) ==> r.ring.cells[i] == Empty
  {
  }

  lemma StreamSame(c: Config, r: Receiver, r2: Receiver, hist: seq<Packet>, delivered: seq<byte>)
    requires StreamInv(c, r, hist, delivered)
    requires r2.lastAck == r.lastAck && r2.ring.acked == r.ring.acked && r2.notch == r.notch
    ensures StreamInv(c, r2, hist, delivered)
  {
  }

  lemma RecordsSame(r: Receiver, r2: Receiver, ackLog: seq<int>)
    requires RecordsInv(r, ackLog) && r2.records == r.records && r2.ackSeqNo == r.ackSeqNo && r.lastAck <= r2.lastAck
    requires r2.lastAckAck == r.lastAckAck
    ensures RecordsInv(r2, ackLog)
  {
  }

  lemma AcksLimit(c: Config, acks: set<Ack>, limit: int, limit2: int, ackLog: seq<int>)
    requires AcksInv(c, acks, limit, ackLog) && limit <= limit2
    ensures AcksInv(c, acks, limit2, ackLog)
  {
  }

  lemma AckNumberGrows(c: Config, r: Receiver, d: Data)
    requires Partition(c, r) && Partition(c, OnData(c, r, d).0)
    ensures AckNumber(r) <= AckNumber(OnData(c, r, d).0)
  {
    AckNumberFacts(c, r);
    AckNumberFacts(c, OnData(c, r, d).0);
  }

  lemma NakMore(c: Config, r: Receiver, naks: set<seq<Run>>, d: Data)
    requires Partition(c, r) && NaksInv(naks, r.currSeq)
    ensures var (r2, nak) := OnData(c, r, d); NaksInv(Add(naks, nak), r2.currSeq)
  {
  }

  lemma ReceivedMore(c: Config, r: Receiver, received: set<int>, d: Data)
    requires Partition(c, r) && c.isn <= r.lastAck && ReceivedInv(c, r, received)
    ensures ReceivedInv(c, OnData(c, r, d).0, if Accepts(c, r, d) then received + {d.seqno} else received)
  {
  }

  // ACK generation

  lemma AckTimerKeeps(c: Config, w: World, lite: bool, soon: bool, now: int)
    requires Inv(c, w)
    ensures Inv(c, AfterAckTimer(c, w, lite, soon, now))
  {
    InvParts(c, w);
    AckNumberFacts(c, w.r);
    hide Inv, AckNumber, Partition, Bound, Advanced, Recorded;
    var (r2, a) := OnAckTimer(c, w.r, lite, soon, now);
    AckTimerCases(c, w.r, lite, soon, now);
    hide OnAckTimer, Add, Max, IsFirstMissing;
    if r2 == w.r && (a.Some? ==> a.value.LiteAck?) {
      LiteAckGoes(c, w, a);
    } else {
      Advances(c, w);
      var w1 := w.(r := Advanced(w.r, AckNumber(w.r)));
      if a.Some? {
        FullAckGoes(c, w1, r2, now, a.value);
        AddOne(w.acks, a.value);
      } else {
        AddNone(w.acks);
      }
    }
  }

  lemma LiteAckGoes(c: Config, w: World, a: Option<Ack>)
    requires Inv(c, w) && (a.Some? ==> a.value == LiteAck(AckNumber(w.r)))
    ensures Inv(c, w.(acks := Add(w.acks, a)))
  {
    hide SenderInv, CellsInv, StreamInv, SentInv, AcksInv, NaksInv, Ack2Inv, RecordsInv, ReceivedInv;
    hide Concat, AckNumber, Add;
    AcksMore(c, w.acks, a, AckNumber(w.r), w.ackLog);
  }

  lemma Advances(c: Config, w: World)
    requires Inv(c, w) && w.r.lastAck <= AckNumber(w.r)
    ensures var r2 := Advanced(w.r, AckNumber(w.r));
            Inv(c, w.(r := r2)) && AckNumber(r2) == AckNumber(w.r) == r2.lastAck
  {
    hide *;
    InvParts(c, w);
    InvReceiver(c, w);
    AckNumberFacts(c, w.r);
    AdvanceAll(c, w, AckNumber(w.r));
    SameNetwork(c, w, Advanced(w.r, AckNumber(w.r)));
  }

  lemma InvReceiver(c: Config, w: World)
    requires Inv(c, w)
    ensures CellsInv(c, w.r, w.hist) && StreamInv(c, w.r, w.hist, w.delivered)
    ensures ReceivedInv(c, w.r, w.received) && RecordsInv(w.r, w.ackLog)
  {
    hide SenderInv, CellsInv, StreamInv, SentInv, AcksInv, NaksInv, Ack2Inv, RecordsInv, ReceivedInv, AckNumber, Concat;
  }

  lemma InvSent(c: Config, w: World, d: Data)
    requires Inv(c, w) && d in w.sent
    ensures c.isn <= d.seqno < c.isn + |w.hist| && d.packet == w.hist[d.seqno - c.isn] && Concat(w.hist) == w.accepted
  {
    hide SenderInv, CellsInv, StreamInv, SentInv, AcksInv, NaksInv, Ack2Inv, RecordsInv, ReceivedInv, AckNumber, Concat;
    SentOne(c, w.sent, w.s.currSeq + 1, w.hist, d);
  }

  /** The receiver has changed, but not the numbers that its peer and the network depend on. */
  lemma SameNetwork(c: Config, w: World, r2: Receiver)
    requires Inv(c, w) && CellsInv(c, r2, w.hist) && StreamInv(c, r2, w.hist, w.delivered)
    requires ReceivedInv(c, r2, w.received) && RecordsInv(r2, w.ackLog)
    requires AckNumber(r2) == AckNumber(w.r) && r2.currSeq == w.r.currSeq && r2.lastAckAck == w.r.lastAckAck
    ensures Inv(c, w.(r := r2))
  {
    hide SenderInv, CellsInv, StreamInv, SentInv, AcksInv, NaksInv, Ack2Inv, RecordsInv, ReceivedInv, AckNumber, Concat;
  }

  lemma FullAckGoes(c: Config, w: World, r2: Receiver, now: int, a: Ack)
    requires Inv(c, w) && GoodConfig(c) && AckNumber(w.r) == w.r.lastAck
    requires a == FullAck(w.r.ackSeqNo + 1, w.r.lastAck, Max(2, c.window - w.r.ring.acked - 1))
    requires r2 == w.r.(ackSeqNo := a.number,
                        records := Recorded(w.r.records, Record(a.number, w.r.lastAck, now), c.ackSize - 1))
    ensures Inv(c, w.(r := r2, acks := w.acks + {a}, ackLog := w.ackLog + [a.ack]))
  {
    hide SenderInv, CellsInv, StreamInv, SentInv, AcksInv, NaksInv, Ack2Inv, RecordsInv, ReceivedInv;
    hide Concat, AckNumber, Recorded, Max;
    FullAckKeeps(c, w, w.r, r2, now, a);
  }

  lemma AddOne<T>(s: set<T>, x: T)
    ensures Add(s, Some(x)) == s + {x}
  {
  }

  lemma AddNone<T>(s: set<T>)
    ensures Add(s, None) == s
  {
  }

  /** Moving lastAck up to the first missing number keeps everything. */
  lemma AdvanceAll(c: Config, w: World, k: int)
    requires CellsInv(c, w.r, w.hist) && StreamInv(c, w.r, w.hist, w.delivered) && IsFirstMissing(w.r, k)
    requires ReceivedInv(c, w.r, w.received) && RecordsInv(w.r, w.ackLog)
    ensures var r2 := Advanced(w.r, k);
            && CellsInv(c, r2, w.hist) && StreamInv(c, r2, w.hist, w.delivered) && AckNumber(r2) == k
            && ReceivedInv(c, r2, w.received) && RecordsInv(r2, w.ackLog)
            && r2.lastAck == k && r2.currSeq == w.r.currSeq && r2.lastAckAck == w.r.lastAckAck
  {
    AdvanceKeeps(c, w.r, w.hist, w.delivered, k);
    AdvanceFrame(c, w.r, w.received, k);
    RecordsSame(w.r, Advanced(w.r, k), w.ackLog);
    hide CellsInv, StreamInv, RecordsInv, ReceivedInv, AckNumber;
  }

  /** A timer that does more than send a lite ACK moves lastAck up, and perhaps sends a full ACK. */
  lemma AckTimerCases(c: Config, r: Receiver, lite: bool, soon: bool, now: int)
    requires GoodConfig(c) && Partition(c, r) && r.lastAck <= AckNumber(r)
    ensures var (r2, a) := OnAckTimer(c, r, lite, soon, now);
            var r1 := Advanced(r, AckNumber(r));
            || (r2 == r && (a.Some? ==> a.value == LiteAck(AckNumber(r))))
            || (r2 == r1 && a == None)
            || (a == Some(FullAck(r1.ackSeqNo + 1, r1.lastAck, Max(2, c.window - r1.ring.acked - 1)))
                && r2 == r1.(ackSeqNo := r1.ackSeqNo + 1,
                             records := Recorded(r1.records, Record(r1.ackSeqNo + 1, r1.lastAck, now), c.ackSize - 1)))
  {
  }

  lemma AcksMore(c: Config, acks: set<Ack>, a: Option<Ack>, limit: int, ackLog: seq<int>)
    requires AcksInv(c, acks, limit, ackLog) && (a.Some? ==> a.value.LiteAck? && a.value.ack <= limit)
    ensures AcksInv(c, Add(acks, a), limit, ackLog)
  {
  }

  lemma AdvanceFrame(c: Config, r: Receiver, received: set<int>, k: int)
    requires r.lastAck <= k && ReceivedInv(c, r, received)
    ensures var r2 := Advanced(r, k);
            && r2.lastAck == k && r2.records == r.records && r2.ackSeqNo == r.ackSeqNo && r2.lastAckAck == r.lastAckAck
            && r2.currSeq == r.currSeq && ReceivedInv(c, r2, received) && Start(r2) == Start(r)
  {
  }

  /** Acknowledging up to the first missing packet keeps the partition, and only packets received are acknowledged. */
  lemma AdvancePartition(c: Config, r: Receiver, k: int)
    requires Partition(c, r) && IsFirstMissing(r, k)
    ensures Partition(c, Advanced(r, k)) && IsFirstMissing(Advanced(r, k), k)
  {
    var r2 := Advanced(r, k);
    forall i | 0 <= i < r2.ring.acked ensures r2.ring.cells[i].Full? {
      if i >= r.ring.acked {
        assert Start(r) + i !in r.lost;
      }
    }
  }

  lemma AdvanceKeeps(c: Config, r: Receiver, hist: seq<Packet>, delivered: seq<byte>, k: int)
    requires CellsInv(c, r, hist) && StreamInv(c, r, hist, delivered) && IsFirstMissing(r, k)
    ensures CellsInv(c, Advanced(r, k), hist) && StreamInv(c, Advanced(r, k), hist, delivered)
    ensures AckNumber(Advanced(r, k)) == k
  {
    hide Partition, AckNumber, StreamInv;
    FirstMissingRange(r, k);
    hide IsFirstMissing;
    AdvancePartition(c, r, k);
    FirstMissingUnique(c, Advanced(r, k), k);
    AdvanceStream(c, r, hist, delivered, k);
  }

  lemma FirstMissingRange(r: Receiver, k: int)
    requires IsFirstMissing(r, k)
    ensures r.lastAck <= k <= r.currSeq + 1
  {
  }

  lemma AdvanceStream(c: Config, r: Receiver, hist: seq<Packet>, delivered: seq<byte>, k: int)
    requires StreamInv(c, r, hist, delivered) && r.lastAck <= k <= c.isn + |hist|
    ensures StreamInv(c, Advanced(r, k), hist, delivered)
  {
    hide Stream, Concat, NotchInside;
    var waiting, more := Waiting(c, r, hist), hist[r.lastAck - c.isn..k - c.isn];
    AdvanceWaiting(c, r, hist, k);
    hide Advanced, Start, Waiting, Stream, Concat, NotchInside;
    LongerPrefix(hist, r.lastAck - c.isn, k - c.isn);
    StreamMore(hist[..r.lastAck - c.isn], waiting, more, r.notch, delivered);
  }

  lemma LongerPrefix(hist: seq<Packet>, i: int, j: int)
    requires 0 <= i <= j <= |hist|
    ensures hist[..j] == hist[..i] + hist[i..j]
  {
  }

  lemma StreamMore(before: seq<Packet>, waiting: seq<Packet>, more: seq<Packet>, notch: nat, delivered: seq<byte>)
    requires NotchInside(waiting, notch) && delivered + Stream(waiting, notch) == Concat(before)
    ensures NotchInside(waiting + more, notch) && delivered + Stream(waiting + more, notch) == Concat(before + more)
  {
    hide Stream, Concat, NotchInside;
    ConcatAppend(before, more);
    StreamAppend(waiting, more, notch);
    assert delivered + (Stream(waiting, notch) + Concat(more)) == delivered + Stream(waiting, notch) + Concat(more);
  }

  lemma AdvanceWaiting(c: Config, r: Receiver, hist: seq<Packet>, k: int)
    requires c.isn <= Start(r) && r.lastAck <= k <= c.isn + |hist|
    ensures var r2 := Advanced(r, k);
            && Start(r2) == Start(r) && r2.lastAck == k && r2.notch == r.notch
            && Waiting(c, r2, hist) == Waiting(c, r, hist) + hist[r.lastAck - c.isn..k - c.isn]
  {
  }

  lemma StreamAppend(packets: seq<Packet>, more: seq<Packet>, notch: nat)
    requires NotchInside(packets, notch)
    ensures NotchInside(packets + more, notch) && Stream(packets + more, notch) == Stream(packets, notch) + Concat(more)
  {
    ConcatAppend(packets, more);
    if packets != [] {
      assert notch <= |Concat(packets)|;
    }
  }

  /** A full ACK goes out and on record. */
  lemma FullAckKeeps(c: Config, w: World, r1: Receiver, r2: Receiver, now: int, a: Ack)
    requires GoodConfig(c) && RecordsInv(r1, w.ackLog) && CellsInv(c, r1, w.hist) && StreamInv(c, r1, w.hist, w.delivered)
    requires ReceivedInv(c, r1, w.received) && AcksInv(c, w.acks, AckNumber(r1), w.ackLog)
    requires Ack2Inv(w.ack2s, w.ackLog, w.s.dataAck) && AckNumber(r1) == r1.lastAck
    requires a == FullAck(r1.ackSeqNo + 1, r1.lastAck, Max(2, c.window - r1.ring.acked - 1))
    requires r2 == r1.(ackSeqNo := a.number,
                       records := Recorded(r1.records, Record(a.number, r1.lastAck, now), c.ackSize - 1))
    ensures RecordsInv(r2, w.ackLog + [a.ack]) && CellsInv(c, r2, w.hist) && StreamInv(c, r2, w.hist, w.delivered)
    ensures ReceivedInv(c, r2, w.received) && AcksInv(c, w.acks + {a}, AckNumber(r2), w.ackLog + [a.ack])
    ensures Ack2Inv(w.ack2s, w.ackLog + [a.ack], w.s.dataAck) && AckNumber(r2) == AckNumber(r1)
  {
    hide StreamInv, CellsInv, ReceivedInv, Recorded, AckNumber;
    StreamSame(c, r1, r2, w.hist, w.delivered);
    SameStore(c, r1, r2, w.hist, w.received);
    FullAckLogged(c, r1, r2, w.acks, w.ack2s, w.ackLog, w.s.dataAck, now, a);
    hide RecordsInv, AcksInv, Ack2Inv;
  }

  lemma FullAckLogged(c: Config, r1: Receiver, r2: Receiver, acks: set<Ack>, ack2s: set<nat>, ackLog: seq<int>, dataAck: int,
                      now: int, a: Ack)
    requires GoodConfig(c) && RecordsInv(r1, ackLog) && AcksInv(c, acks, r1.lastAck, ackLog) && Ack2Inv(ack2s, ackLog, dataAck)
    requires a == FullAck(r1.ackSeqNo + 1, r1.lastAck, Max(2, c.window - r1.ring.acked - 1))
    requires r2 == r1.(ackSeqNo := a.number,
                       records := Recorded(r1.records, Record(a.number, r1.lastAck, now), c.ackSize - 1))
    ensures RecordsInv(r2, ackLog + [a.ack]) && AcksInv(c, acks + {a}, r1.lastAck, ackLog + [a.ack])
    ensures Ack2Inv(ack2s, ackLog + [a.ack], dataAck)
  {
    RecordsMore(r1, r2, ackLog, Record(a.number, r1.lastAck, now), c.ackSize - 1);
    assert r1.ackSeqNo == |ackLog|;
    hide RecordsInv, Recorded;
  }


  lemma SameStore(c: Config, r: Receiver, r2: Receiver, hist: seq<Packet>, received: set<int>)
    requires CellsInv(c, r, hist) && ReceivedInv(c, r, received)
    requires r2.ring == r.ring && r2.lastAck == r.lastAck && r2.currSeq == r.currSeq && r2.lost == r.lost
    ensures CellsInv(c, r2, hist) && ReceivedInv(c, r2, received) && AckNumber(r2) == AckNumber(r)
  {
  }

  lemma RecordsMore(r: Receiver, r2: Receiver, ackLog: seq<int>, record: Record, capacity: nat)
    requires RecordsInv(r, ackLog) && record.number == |ackLog| + 1 && record.ack == r.lastAck
    requires r2.records == Recorded(r.records, record, capacity) && r2.ackSeqNo == record.number && r2.lastAck == r.lastAck
    requires r2.lastAckAck == r.lastAckAck
    ensures RecordsInv(r2, ackLog + [record.ack])
  {
    var all := r.records + [record];
    forall i | 0 <= i < |r2.records|
      ensures 1 <= r2.records[i].number <= |ackLog| + 1
      ensures r2.records[i].ack == (ackLog + [record.ack])[r2.records[i].number - 1]
    {
      var j := i + (|all| - |r2.records|);
      assert r2.records[i] == all[j];
    }
  }

  // ACKs, loss reports and the EXP timer at the sender

  lemma AckKeeps(c: Config, w: World, a: Ack, ack2: bool)
    requires Inv(c, w) && a in w.acks
    ensures Inv(c, AfterAck(c, w, a, ack2))
  {
    InvParts(c, w);
    AckNumberFacts(c, w.r);
    hide SenderInv, CellsInv, StreamInv, SentInv, AcksInv, NaksInv, Ack2Inv, RecordsInv, ReceivedInv;
    hide Concat, AckNumber, Partition, Bound, OnAck;
    AckInNet(c, w.acks, a, AckNumber(w.r), w.ackLog);
    AckMoves(c, w.s, w.hist, a);
    Ack2More(w.ack2s, w.ackLog, w.s.dataAck, OnAck(c, w.s, a).dataAck, a, ack2);
  }

  lemma AckInNet(c: Config, acks: set<Ack>, a: Ack, limit: int, ackLog: seq<int>)
    requires AcksInv(c, acks, limit, ackLog) && a in acks
    ensures a.ack <= limit
    ensures a.FullAck? ==> 2 <= a.window <= Span(c) && 1 <= a.number <= |ackLog| && ackLog[a.number - 1] == a.ack
  {
  }

  /** An ACK for something that was sent never breaks the connection, and the sender catches up with it. */
  lemma AckMoves(c: Config, s: Sender, hist: seq<Packet>, a: Ack)
    requires SenderInv(c, s, hist) && a.ack <= s.currSeq + 1 && (a.FullAck? ==> 2 <= a.window <= Span(c))
    ensures var s2 := OnAck(c, s, a);
            && SenderInv(c, s2, hist) && s2.currSeq == s.currSeq && s2.lastAck == Max(s.lastAck, a.ack)
            && s2.dataAck == (if a.FullAck? then Max(s.dataAck, a.ack) else s.dataAck)
  {
  }

  lemma Ack2More(ack2s: set<nat>, ackLog: seq<int>, dataAck: int, dataAck2: int, a: Ack, ack2: bool)
    requires Ack2Inv(ack2s, ackLog, dataAck) && dataAck <= dataAck2
    requires a.FullAck? ==> a.ack <= dataAck2 && 1 <= a.number <= |ackLog| && ackLog[a.number - 1] == a.ack
    ensures Ack2Inv(if a.FullAck? && ack2 then ack2s + {a.number} else ack2s, ackLog, dataAck2)
  {
  }

  ghost predicate Sound(runs: seq<Run>, limit: int) {
    forall i :: 0 <= i < |runs| ==> runs[i].lo <= runs[i].hi <= limit
  }

  /** A report of losses among what was sent never breaks the connection: the loss list grows by exactly the reported
      numbers that are not acknowledged. */
  lemma {:induction false} NakAdds(c: Config, s: Sender, runs: seq<Run>)
    requires Bound(c, s) && Sound(runs, s.currSeq)
    ensures var s2 := OnNak(s, runs);
            && Bound(c, s2) && s2 == s.(lost := s2.lost)
            && forall x :: x in s2.lost <==>
                 x in s.lost || (s.lastAck <= x && exists i :: 0 <= i < |runs| && runs[i].lo <= x <= runs[i].hi)
    decreases |runs|
  {
    hide Bound, Reported;
    if runs != [] {
      var more := Reported(s, runs[0]);
      OneReported(c, s, runs[0]);
      var s1 := s.(lost := s.lost + more.value);
      NakAdds(c, s1, runs[1..]);
      var s2 := OnNak(s, runs);
      hide OnNak;
      forall x ensures x in s2.lost <==>
          x in s.lost || (s.lastAck <= x && exists i :: 0 <= i < |runs| && runs[i].lo <= x <= runs[i].hi)
      {
        ReportHas(runs, x);
      }
    }
  }

  /** One entry for numbers that were sent adds those at or after lastAck. */
  lemma OneReported(c: Config, s: Sender, run: Run)
    requires Bound(c, s) && run.lo <= run.hi <= s.currSeq
    ensures var more := Reported(s, run);
            && more.Some? && Bound(c, s.(lost := s.lost + more.value))
            && forall x :: x in more.value <==> s.lastAck <= x && run.lo <= x <= run.hi
  {
  }

  lemma ReportHas(runs: seq<Run>, x: int)
    requires runs != []
    ensures (exists i :: 0 <= i < |runs| && runs[i].lo <= x <= runs[i].hi)
       <==> (runs[0].lo <= x <= runs[0].hi
             || exists i :: 0 <= i < |runs[1..]| && runs[1..][i].lo <= x <= runs[1..][i].hi)
  {
    if i :| 0 <= i < |runs| && runs[i].lo <= x <= runs[i].hi && i > 0 {
      assert runs[1..][i - 1] == runs[i];
    }
    if i :| 0 <= i < |runs[1..]| && runs[1..][i].lo <= x <= runs[1..][i].hi {
      assert runs[i + 1] == runs[1..][i];
    }
  }

  lemma NakKeeps(c: Config, w: World, runs: seq<Run>)
    requires Inv(c, w) && runs in w.naks
    ensures Inv(c, w.(s := OnNak(w.s, runs)))
  {
    InvParts(c, w);
    assert Sound(runs, w.s.currSeq);
    hide CellsInv, StreamInv, SentInv, AcksInv, NaksInv, Ack2Inv, RecordsInv, ReceivedInv;
    hide Concat, AckNumber, Partition, Bound, OnNak, Sound;
    NakAdds(c, w.s, runs);
  }

  lemma ExpireKeeps(c: Config, w: World)
    requires Inv(c, w)
    ensures Inv(c, w.(s := OnExpire(w.s)))
  {
    InvParts(c, w);
    hide CellsInv, StreamInv, SentInv, AcksInv, NaksInv, Ack2Inv, RecordsInv, ReceivedInv, Concat, AckNumber, Partition;
  }

  // ACK2 and reading at the receiver

  lemma Ack2Keeps(c: Config, w: World, number: nat, now: int)
    requires Inv(c, w) && number in w.ack2s
    ensures Inv(c, w.(r := OnAck2(w.r, number, now)))
  {
    var r2 := OnAck2(w.r, number, now);
    hide SenderInv, CellsInv, StreamInv, SentInv, AcksInv, NaksInv, Ack2Inv, RecordsInv, ReceivedInv;
    hide Concat, AckNumber, Partition, Bound, OnAck2;
    Ack2Moves(w, number, now);
    SameStore(c, w.r, r2, w.hist, w.received);
    StreamSame(c, w.r, r2, w.hist, w.delivered);
  }

  /** An ACK2 moves lastAckAck only up to something the sender has seen acknowledged. */
  lemma Ack2Moves(w: World, number: nat, now: int)
    requires RecordsInv(w.r, w.ackLog) && Ack2Inv(w.ack2s, w.ackLog, w.s.dataAck) && number in w.ack2s
    requires w.r.lastAckAck <= w.s.dataAck
    ensures var r2 := OnAck2(w.r, number, now);
            && RecordsInv(r2, w.ackLog) && r2.lastAckAck <= w.s.dataAck
            && r2.ring == w.r.ring && r2.lastAck == w.r.lastAck && r2.currSeq == w.r.currSeq && r2.lost == w.r.lost
            && r2.notch == w.r.notch
  {
    var i := Oldest(w.r.records, number);
    hide Oldest;
    if i < |w.r.records| {
      RecordsTail(w.r, OnAck2(w.r, number, now), w.ackLog, i);
      assert w.r.records[i].ack == w.ackLog[number - 1];
    }
  }

  lemma RecordsTail(r: Receiver, r2: Receiver, ackLog: seq<int>, i: nat)
    requires RecordsInv(r, ackLog) && i < |r.records| && r2.records == r.records[i + 1..]
    requires r2.ackSeqNo == r.ackSeqNo && r2.lastAck == r.lastAck && r2.lastAckAck <= r2.lastAck
    ensures RecordsInv(r2, ackLog)
  {
  }

  lemma RecvKeeps(c: Config, w: World, len: int)
    requires Inv(c, w)
    ensures w.r.ring.acked <= |w.r.ring.cells| && AllFull(w.r.ring.cells[..w.r.ring.acked])
    ensures Inv(c, AfterRecv(w, len))
  {
    hide SenderInv, CellsInv, StreamInv, SentInv, AcksInv, NaksInv, Ack2Inv, RecordsInv, ReceivedInv;
    hide Concat, AckNumber, Partition, Bound, OnRecv, AllFull;
    InvParts(c, w);
    AckedFull(c, w.r);
    RecvShifts(c, w.r, w.hist, len);
    RecvDelivers(c, w.r, w.hist, w.delivered, len);
    RecvFrame(c, w.r, w.received, w.ackLog, len);
    var r2, data := OnRecv(w.r, len).0, OnRecv(w.r, len).1;
    assert AfterRecv(w, len) == w.(r := r2, delivered := w.delivered + data);
    hide AfterRecv;
  }

  lemma AckedFull(c: Config, r: Receiver)
    requires Partition(c, r)
    ensures r.ring.acked <= |r.ring.cells| && AllFull(r.ring.cells[..r.ring.acked])
  {
  }

  lemma RecvFrame(c: Config, r: Receiver, received: set<int>, ackLog: seq<int>, len: int)
    requires r.ring.acked <= |r.ring.cells| && AllFull(r.ring.cells[..r.ring.acked])
    requires ReceivedInv(c, r, received) && RecordsInv(r, ackLog)
    ensures var r2 := OnRecv(r, len).0;
            && ReceivedInv(c, r2, received) && RecordsInv(r2, ackLog)
            && r2.lastAck == r.lastAck && r2.currSeq == r.currSeq && r2.lastAckAck == r.lastAckAck && r2.lost == r.lost
            && AckNumber(r2) == AckNumber(r)
  {
  }

  lemma RecvShifts(c: Config, r: Receiver, hist: seq<Packet>, len: int)
    requires CellsInv(c, r, hist) && AllFull(r.ring.cells[..r.ring.acked])
    ensures CellsInv(c, OnRecv(r, len).0, hist)
  {
  }

  lemma RecvDelivers(c: Config, r: Receiver, hist: seq<Packet>, delivered: seq<byte>, len: int)
    requires CellsInv(c, r, hist) && StreamInv(c, r, hist, delivered) && AllFull(r.ring.cells[..r.ring.acked])
    ensures StreamInv(c, OnRecv(r, len).0, hist, delivered + OnRecv(r, len).1)
  {
    hide CellsInv, Read, AllFull, Stream, NotchInside, Concat;
    WaitingPackets(c, r, hist);
    if len > 0 && r.ring.acked > 0 {
      var packets, r2 := Waiting(c, r, hist), OnRecv(r, len).0;
      var reading := Read(packets, r.notch, len);
      ReadUsed(packets, r.notch, len);
      ReadTakesPrefix(packets, r.notch, len);
      assert Waiting(c, r2, hist) == packets[reading.used..];
      hide Waiting;
      assert delivered + (reading.data + Stream(packets[reading.used..], reading.notch))
          == delivered + reading.data + Stream(packets[reading.used..], reading.notch);
    } else {
      assert delivered + [] == delivered;
    }
  }

  /** The cells acknowledged hold the packets acknowledged and not yet read. */
  lemma WaitingPackets(c: Config, r: Receiver, hist: seq<Packet>)
    requires CellsInv(c, r, hist) && AllFull(r.ring.cells[..r.ring.acked]) && r.lastAck - c.isn <= |hist|
    ensures r.ring.acked <= |r.ring.cells| && PacketsOf(r.ring.cells[..r.ring.acked]) == Waiting(c, r, hist)
  {
    var packets := PacketsOf(r.ring.cells[..r.ring.acked]);
    forall i | 0 <= i < |packets| ensures packets[i] == Waiting(c, r, hist)[i] {
      assert r.ring.cells[..r.ring.acked][i] == r.ring.cells[i];
    }
  }
}
