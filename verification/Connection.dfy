/** Two ends of a connection as the program has them, one sending and one receiving, joined by the network of the protocol:
    whatever the network does, what the one end's recv returns is a prefix of what the other end's send has accepted. */
module Connection {
  import opened SeqNo
  import opened Packets
  import opened LossSlots
  import opened LossReport
  import opened UnitPool
  import opened SndBuf
  import opened SndLoss
  import opened RcvBuf
  import opened AckHistory
  import opened Endpoint
  import opened Protocol
  import opened ProtocolRuns
  import opened CudtSnd
  import opened CudtRcv

  /** The arrays of the two ends are different ones. */
  ghost predicate Differ(lost: SndLossList, rcv: CudtReceiver) {
    Foreign(lost.data1, rcv) && Foreign(lost.data2, rcv) && Foreign(lost.next, rcv)
  }

  ghost predicate Foreign(a: array<int>, rcv: CudtReceiver) {
    && a != rcv.rcvLossList.data1 && a != rcv.rcvLossList.data2 && a != rcv.rcvLossList.next && a != rcv.rcvLossList.prior
    && a != rcv.ackWindow.ackSeqNo && a != rcv.ackWindow.ack && a != rcv.ackWindow.timeStamp
  }

  /** The event can happen: what arrives has been sent, and its numbers are near those they are compared with. */
  ghost predicate Timely(c: Config, w: World, e: Event) {
    match e
    case DataArrives(d) => d in w.sent && CudtReceiver.Close(w.r, d.seqno)
    case AckTimer(_, _, _) => CudtReceiver.Recent(w.r)
    case AckArrives(a, _) => a in w.acks && CudtSender.Close(w.s, a.ack)
    case NakArrives(runs) =>
      runs in w.naks && WellFormed(runs) && forall k :: 0 <= k < |runs| ==> CudtSender.CloseRun(w.s, runs[k])
    case Ack2Arrives(number, _) =>
      && number in w.ack2s
      && forall i :: 0 <= i < |w.r.records| ==>
           Near(w.r.records[i].number, number) && Near(w.r.records[i].ack, w.r.lastAckAck)
    case _ => true
  }

  /** The objects of the pool of units. */
  ghost function PoolParts(queue: UnitQueue): set<object>
    reads queue`pool, queue`entries
  {
    {queue} + queue.pool + set e | e in queue.entries
  }

  /** Each of the events can happen when those before it have. */
  ghost predicate TimelyRun(c: Config, w: World, events: seq<Event>) {
    Inv(c, w) && forall i :: 0 <= i < |events| ==> Timely(c, RunFrom(c, w, events[..i]), events[i])
  }

  /** The events lead from w0 to w. */
  ghost predicate Ran(c: Config, w0: World, events: seq<Event>, w: World) {
    Inv(c, w0) && w == RunFrom(c, w0, events)
  }

  lemma RanNone(c: Config, w: World)
    requires Inv(c, w)
    ensures Ran(c, w, [], w)
  {
    hide Inv;
  }

  lemma TimelyAt(c: Config, w0: World, script: seq<Event>, n: nat, w: World)
    requires TimelyRun(c, w0, script) && n < |script| && Ran(c, w0, script[..n], w)
    ensures Timely(c, w, script[n]) && Inv(c, w)
  {
    hide Inv, Timely;
  }

  lemma RanMore(c: Config, w0: World, script: seq<Event>, n: nat, before: World)
    requires n < |script| && Ran(c, w0, script[..n], before)
    ensures Ran(c, w0, script[..n + 1], Next(c, before, script[n]))
  {
    hide Inv, Next;
    assert script[..n + 1][..n] == script[..n];
  }

  /** Each of the events can happen on a new connection when those before it have. */
  ghost predicate TimelyFromStart(c: Config, events: seq<Event>) {
    GoodConfig(c) && TimelyRun(c, Init(c), events)
  }

  /** The events of the sending end. */
  predicate AtSender(e: Event) {
    e.UserSend? || e.Transmit? || e.AckArrives? || e.NakArrives? || e.ExpTimer?
  }

  class Link {
    const snd: CudtSender
    const rcv: CudtReceiver

    ghost const c: Config
    ghost var w: World

    ghost predicate Sends()
      reads snd, snd.sndBuffer, snd.sndBuffer.ring
      reads snd.sndLossList, snd.sndLossList.data1, snd.sndLossList.data2, snd.sndLossList.next
    {
      snd.Valid() && snd.c == c
    }

    ghost predicate Receives()
      reads rcv, rcv.rcvBuffer, rcv.rcvBuffer.unit, rcv.rcvBuffer.Held()`packet, rcv.rcvBuffer.Held()`flag
      reads rcv.rcvLossList, rcv.rcvLossList.data1, rcv.rcvLossList.data2, rcv.rcvLossList.next, rcv.rcvLossList.prior
      reads rcv.ackWindow, rcv.ackWindow.ackSeqNo, rcv.ackWindow.ack, rcv.ackWindow.timeStamp
      reads rcv.rcvBuffer.queue`count, rcv.rcvBuffer.queue`pool, rcv.rcvBuffer.queue.pool`flag
    {
      rcv.Valid() && rcv.rcvBuffer.Pooled() && rcv.c == c
    }

    /** The two ends are in the state that the protocol says. */
    ghost predicate Agrees()
      reads this`w, snd`s, rcv`r
    {
      Inv(c, w) && w.s == snd.s && w.r == rcv.r
    }

    ghost predicate Valid()
      reads this`w, snd, snd.sndBuffer, snd.sndBuffer.ring
      reads snd.sndLossList, snd.sndLossList.data1, snd.sndLossList.data2, snd.sndLossList.next
      reads rcv, rcv.rcvBuffer, rcv.rcvBuffer.unit, rcv.rcvBuffer.Held()`packet, rcv.rcvBuffer.Held()`flag
      reads rcv.rcvLossList, rcv.rcvLossList.data1, rcv.rcvLossList.data2, rcv.rcvLossList.next, rcv.rcvLossList.prior
      reads rcv.ackWindow, rcv.ackWindow.ackSeqNo, rcv.ackWindow.ack, rcv.ackWindow.timeStamp
      reads rcv.rcvBuffer.queue`count, rcv.rcvBuffer.queue`pool, rcv.rcvBuffer.queue.pool`flag
    {
      Sends() && Receives() && Differ(snd.sndLossList, rcv) && Agrees()
    }

    /** Nothing has happened yet. */
    ghost predicate Begins()
      reads this`w
    {
      GoodConfig(c) && w == Init(c)
    }

    /** The event has happened since w0. */
    ghost predicate Happened(w0: World, e: Event)
      reads this`w
    {
      Inv(c, w0) && w == Next(c, w0, e)
    }

    /** Two ends, new and independent of each other. */
    constructor (snd: CudtSender, rcv: CudtReceiver, ghost c: Config)
      requires NewEnds(c, snd, rcv)
      ensures this.snd == snd && this.rcv == rcv && this.c == c && Begins() && Valid()
    {
      hide CudtSender.Valid, CudtReceiver.Valid, Inv, Init, NewSender, NewReceiver, Sends, Receives, RcvBuffer.Pooled;
      Configured(c);
      this.snd, this.rcv, this.c, w := snd, rcv, c, Init(c);
      new;
      SenderBack();
      ReceiverBack();
    }

    lemma ReceiverBack()
      requires rcv.Valid() && rcv.rcvBuffer.Pooled() && rcv.c == c
      ensures Receives()
    {
    }

    static lemma Configured(config: Config)
      requires GoodConfig(config)
      ensures Inv(config, Init(config)) && Init(config).s == NewSender(config) && Init(config).r == NewReceiver(config)
    {
      InitInv(config);
      hide Inv;
    }

    /** What a step of the sending end relies on. */
    lemma Sender()
      requires Sends() && Agrees()
      ensures snd.Valid() && snd.c == c && snd.s == w.s && Inv(c, w) && Bound(c, snd.s) && !snd.broken
    {
      InvParts(c, w);
      hide Inv;
    }

    lemma SenderBack()
      requires snd.Valid() && snd.c == c
      ensures Sends()
    {
    }

    lemma Taken(s: Endpoint.Sender, data: seq<byte>)
      requires c.mss > 0
      ensures OnSend(c, s, data).1 <= |data|
    {
    }

    method UserSend(data: seq<byte>) returns (n: nat)
      requires Valid()
      modifies this`w, snd`s, snd.sndBuffer, snd.sndBuffer.repr
      ensures Valid() && Happened(old(w), Event.UserSend(data)) && n <= |data| && w.accepted == old(w).accepted + data[..n]
      ensures fresh(snd.sndBuffer.repr - old(snd.sndBuffer.repr))
    {
      hide Sends, Receives, CudtSender.Valid, Inv, OnSend, NewPackets;
      Sender();
      NextKeeps(c, w, Event.UserSend(data));
      Taken(snd.s, data);
      // A block is not a unit.
      ghost var blocks: set<Block>, held: set<Unit> := snd.sndBuffer.repr, rcv.rcvBuffer.Held();
      n := snd.Send(data);
      SenderBack();
      w := Next(c, w, Event.UserSend(data));
    }

    /** A turn to send.  What goes out on the wire is what the network then holds more. */
    method Transmit(cwnd: int) returns (r: Option<(Wire, Packet)>)
      requires Valid()
      modifies this`w, snd`s, snd`sndCurrSeqNo, snd.sndBuffer`currBlock, snd.sndBuffer`curr
      modifies snd.sndLossList, snd.sndLossList.data1, snd.sndLossList.data2, snd.sndLossList.next
      ensures Valid() && Happened(old(w), Event.Transmit(cwnd))
      ensures exists d: Option<Data> :: CudtSender.Sends(r, d) && w.sent == Add(old(w).sent, d)
    {
      hide Sends, Receives, CudtSender.Valid, CudtSender.Sends, Inv, Bound, OnPack;
      Sender();
      NextKeeps(c, w, Event.Transmit(cwnd));
      ghost var held: set<Unit> := rcv.rcvBuffer.Held();
      ghost var d := OnPack(c, snd.s, cwnd).1;
      r := snd.PackData(cwnd);
      SenderBack();
      w := Next(c, w, Event.Transmit(cwnd));
      assert CudtSender.Sends(r, d);
    }

    /** The EXP timer fires. */
    method Expire()
      requires Valid()
      modifies this`w, snd`s, snd.sndLossList, snd.sndLossList.data1, snd.sndLossList.data2, snd.sndLossList.next
      ensures Valid() && Happened(old(w), ExpTimer)
    {
      hide Sends, Receives, CudtSender.Valid, Inv, Bound, OnExpire;
      Sender();
      NextKeeps(c, w, ExpTimer);
      ghost var held: set<Unit> := rcv.rcvBuffer.Held();
      snd.Expire();
      SenderBack();
      w := Next(c, w, ExpTimer);
    }

    /** An ACK arrives. */
    method AckArrives(a: Ack, ack2: bool)
      requires Valid() && a in w.acks && CudtSender.Close(w.s, a.ack)
      modifies this`w, snd, snd.sndBuffer`firstBlock, snd.sndBuffer`count, snd.sndBuffer`ring, snd.sndBuffer`queue
      modifies snd.sndBuffer`curr, snd.sndLossList, snd.sndLossList.data1, snd.sndLossList.data2, snd.sndLossList.next
      ensures Valid() && Happened(old(w), Event.AckArrives(a, ack2))
    {
      hide Valid, CudtSender.Close, Happened;
      match a {
        case LiteAck(_) => LiteAckArrives(a, ack2);
        case FullAck(_, _, _) => FullAckArrives(a, ack2);
      }
    }

    method LiteAckArrives(a: Ack, ack2: bool)
      requires Valid() && a in w.acks && CudtSender.Close(w.s, a.ack) && a.LiteAck?
      modifies this`w, snd
      ensures Valid() && Happened(old(w), Event.AckArrives(a, ack2))
    {
      hide Sends, Receives, CudtSender.Valid, CudtSender.Close, Inv, Bound, OnAck, ToWire;
      Sender();
      NextKeeps(c, w, Event.AckArrives(a, ack2));
      ghost var held: set<Unit> := rcv.rcvBuffer.Held();
      snd.ProcessLiteAck(ToWire(a.ack), a.ack);
      SenderBack();
      w := Next(c, w, Event.AckArrives(a, ack2));
    }

    method FullAckArrives(a: Ack, ack2: bool)
      requires Valid() && a in w.acks && CudtSender.Close(w.s, a.ack) && a.FullAck?
      modifies this`w, snd, snd.sndBuffer`firstBlock, snd.sndBuffer`count, snd.sndBuffer`ring, snd.sndBuffer`queue
      modifies snd.sndBuffer`curr, snd.sndLossList, snd.sndLossList.data1, snd.sndLossList.data2, snd.sndLossList.next
      ensures Valid() && Happened(old(w), Event.AckArrives(a, ack2))
    {
      hide Sends, Receives, Differ, CudtSender.Close, Inv, OnAck;
      NextKeeps(c, w, Event.AckArrives(a, ack2));
      FullAckActs(a);
      w := Next(c, w, Event.AckArrives(a, ack2));
    }

    method FullAckActs(a: Ack)
      requires Valid() && CudtSender.Close(w.s, a.ack) && a.FullAck?
      modifies snd, snd.sndBuffer`firstBlock, snd.sndBuffer`count, snd.sndBuffer`ring, snd.sndBuffer`queue
      modifies snd.sndBuffer`curr, snd.sndLossList, snd.sndLossList.data1, snd.sndLossList.data2, snd.sndLossList.next
      ensures Sends() && Receives() && Differ(snd.sndLossList, rcv) && snd.s == OnAck(c, w.s, a)
    {
      hide Sends, Receives, CudtSender.Valid, CudtSender.Close, Inv, Bound, OnAck, ToWire;
      Sender();
      ghost var held: set<Unit> := rcv.rcvBuffer.Held();
      snd.ProcessAck(a.number, ToWire(a.ack), a.window, a.ack);
      SenderBack();
    }

    /** A loss report arrives. */
    method NakArrives(runs: seq<Run>)
      requires Valid() && runs in w.naks && WellFormed(runs)
      requires forall k :: 0 <= k < |runs| ==> CudtSender.CloseRun(w.s, runs[k])
      modifies this`w, snd`s, snd`broken, snd.sndLossList
      modifies snd.sndLossList.data1, snd.sndLossList.data2, snd.sndLossList.next
      ensures Valid() && Happened(old(w), Event.NakArrives(runs))
    {
      hide Sends, Receives, CudtSender.Valid, CudtSender.CloseRun, Inv, Bound, OnNak, Spells, Encode, WellFormed;
      Sender();
      NextKeeps(c, w, Event.NakArrives(runs));
      EncodeSpells(runs);
      ghost var held: set<Unit> := rcv.rcvBuffer.Held();
      snd.ProcessNak(Encode(runs), runs);
      SenderBack();
      w := Next(c, w, Event.NakArrives(runs));
    }

    // ---------- The receiving end ----------

    /** What a step of the receiving end relies on. */
    lemma Receiver()
      requires Receives() && Agrees()
      ensures rcv.Valid() && rcv.c == c && rcv.r == w.r && Inv(c, w) && Partition(c, rcv.r) && rcv.rcvBuffer.Pooled()
      ensures c.ackSize > 0
    {
      InvParts(c, w);
      hide Inv;
    }

    /** A data packet arrives, in unit u.  The words of the report sent at once, if any, are those of the one that the
        network then holds more. */
    method DataArrives(u: Unit, d: Data) returns (stored: bool, nak: seq<int>)
      requires Valid() && d in w.sent && CudtReceiver.Close(w.r, d.seqno)
      requires u in rcv.rcvBuffer.queue.pool && u.flag == 0 && u.packet == d.packet
      modifies this`w, rcv`r, rcv`rcvCurrSeqNo
      modifies rcv.rcvBuffer`maxPos, rcv.rcvBuffer`cells, rcv.rcvBuffer`place, rcv.rcvBuffer.unit, u`flag
      modifies rcv.rcvBuffer.queue`count
      modifies rcv.rcvLossList, rcv.rcvLossList.data1, rcv.rcvLossList.data2, rcv.rcvLossList.next, rcv.rcvLossList.prior
      ensures Valid() && Happened(old(w), Event.DataArrives(d))
      ensures exists runs: Option<seq<Run>> :: CudtReceiver.Reports(nak, runs) && w.naks == Add(old(w).naks, runs)
    {
      hide Sends, Receives, CudtReceiver.Valid, CudtReceiver.Close, CudtReceiver.Reports, RcvBuffer.Pooled, Inv, Partition, OnData;
      hide Accepts, ToWire;
      Receiver();
      NextKeeps(c, w, Event.DataArrives(d));
      ghost var runs := OnData(c, rcv.r, d).1;
      stored, nak := rcv.ProcessData(u, ToWire(d.seqno), d);
      ReceiverBack();
      w := Next(c, w, Event.DataArrives(d));
      assert CudtReceiver.Reports(nak, runs);
    }

    /** The ACK timer fires.  The ACK on the wire is the one that the network then holds more. */
    method AckTimer(lite: bool, soon: bool, now: int) returns (a: Option<WireAck>)
      requires Valid() && CudtReceiver.Recent(w.r)
      modifies this`w, rcv`r, rcv`rcvLastAck, rcv`ackSeqNo, rcv.rcvBuffer`lastAckPos, rcv.rcvBuffer`maxPos
      modifies rcv.ackWindow, rcv.ackWindow.ackSeqNo, rcv.ackWindow.ack, rcv.ackWindow.timeStamp
      ensures Valid() && Happened(old(w), Event.AckTimer(lite, soon, now))
      ensures exists x: Option<Ack> :: Carries(a, x) && w.acks == Add(old(w).acks, x)
    {
      hide Sends, Receives, CudtReceiver.Valid, CudtReceiver.Recent, Carries, RcvBuffer.Pooled, Inv, Partition, OnAckTimer;
      Receiver();
      NextKeeps(c, w, Event.AckTimer(lite, soon, now));
      ghost var x := OnAckTimer(c, rcv.r, lite, soon, now).1;
      a := rcv.SendAck(lite, soon, now);
      ReceiverBack();
      w := Next(c, w, Event.AckTimer(lite, soon, now));
      assert Carries(a, x);
    }

    /** An ACK is acknowledged. */
    method Ack2Arrives(number: nat, now: int)
      requires Valid() && number in w.ack2s
      requires forall i :: 0 <= i < |w.r.records| ==>
                 Near(w.r.records[i].number, number) && Near(w.r.records[i].ack, w.r.lastAckAck)
      modifies this`w, rcv`r, rcv`rcvLastAckAck, rcv.ackWindow, rcv.ackWindow.ackSeqNo
      ensures Valid() && Happened(old(w), Event.Ack2Arrives(number, now))
    {
      hide Sends, Receives, CudtReceiver.Valid, RcvBuffer.Pooled, Inv, Partition, OnAck2, ToWire;
      Receiver();
      NextKeeps(c, w, Event.Ack2Arrives(number, now));
      rcv.ProcessAck2(ToWire(number), now, number);
      ReceiverBack();
      w := Next(c, w, Event.Ack2Arrives(number, now));
    }

    /** A user call of recv. */
    method UserRecv(len: int) returns (data: seq<byte>)
      requires Valid()
      modifies this`w, rcv`r, rcv.rcvBuffer`notch, rcv.rcvBuffer`startPos, rcv.rcvBuffer`cells, rcv.rcvBuffer`place
      modifies rcv.rcvBuffer.unit, rcv.rcvBuffer.Held()`flag, rcv.rcvBuffer.queue`count
      ensures Valid() && Happened(old(w), Event.UserRecv(len)) && w.delivered == old(w).delivered + data
    {
      hide Sends, Receives, Differ, Inv, Partition, OnRecv;
      Readable();
      NextKeeps(c, w, Event.UserRecv(len));
      data := RecvActs(len);
      w := Next(c, w, Event.UserRecv(len));
    }

    method RecvActs(len: int) returns (data: seq<byte>)
      requires Valid() && CanRead(w.r)
      modifies rcv`r, rcv.rcvBuffer`notch, rcv.rcvBuffer`startPos, rcv.rcvBuffer`cells, rcv.rcvBuffer`place
      modifies rcv.rcvBuffer.unit, rcv.rcvBuffer.Held()`flag, rcv.rcvBuffer.queue`count
      ensures Sends() && Receives() && Differ(snd.sndLossList, rcv) && (rcv.r, data) == OnRecv(w.r, len)
    {
      hide Sends, Receives, CudtReceiver.Valid, RcvBuffer.Pooled, Inv, Partition, OnRecv, AllFull, NotchInside;
      Receiver();
      data := rcv.Recv(len);
      ReceiverBack();
    }

    /** What is acknowledged can be read. */
    static ghost predicate CanRead(r: Endpoint.Receiver) {
      var acked := r.ring.acked;
      acked <= |r.ring.cells| && AllFull(r.ring.cells[..acked]) && NotchInside(PacketsOf(r.ring.cells[..acked]), r.notch)
    }

    lemma Readable()
      requires Inv(c, w)
      ensures CanRead(w.r)
    {
      RecvKeeps(c, w, 0);
      InvReceiver(c, w);
      WaitingPackets(c, w.r, w.hist);
      hide Inv, CellsInv, AllFull, NotchInside;
    }

    // ---------- Any run ----------

    function Pool(): UnitQueue {
      rcv.rcvBuffer.queue
    }

    ghost function SndParts(): set<object>
      reads snd.sndBuffer`repr
    {
      snd.Objects()
    }

    ghost function RcvParts(): set<object>
      reads Pool()`pool, Pool()`entries
    {
      rcv.Objects() + PoolParts(Pool())
    }

    /** The next search finds no free unit, nor does the pool grow before. */
    ghost predicate Starves()
      reads Pool(), Pool().pool`flag
    {
      10 * Pool().count <= 9 * Pool().size && Pool().NoneFree(Pool().entries, Pool().cur, Pool().availUnit)
    }

    /** A free unit of the pool, if the search finds one, which may add units to the pool. */
    method Fetch() returns (u: Unit?)
      requires Valid() && Pool().Ringed()
      modifies Pool(), Pool().entries`next
      ensures Valid() && Stocks() && (u != null ==> u in Pool().pool && u.flag == 0)
      ensures u == null <==> old(Starves())
    {
      hide Sends, Differ, Agrees, CudtReceiver.Valid, UnitQueue.Ringed, UnitQueue.Counted;
      u := Pool().GetNextAvailUnit();
    }

    /** The pool is in order, and what is new in it was made just now. */
    twostate predicate Stocks()
      reads Pool(), Pool().entries`next
    {
      && Pool().Ringed() && fresh(Pool().pool - old(Pool().pool))
      && forall e :: e in Pool().entries ==> e in old(Pool().entries) || fresh(e)
    }

    /** The packet is put into the free unit. */
    method Fill(u: Unit, packet: Packet)
      requires Valid() && u in Pool().pool && u.flag == 0
      modifies u`packet
      ensures Valid() && u.packet == packet
    {
      hide Sends, Differ, Agrees;
      u.packet := packet;
    }

    /** A data packet is read from the network into a unit, and arrives; if no unit is found it is lost. */
    method Read(d: Data) returns (found: bool)
      requires Valid() && Pool().Ringed() && d in w.sent && CudtReceiver.Close(w.r, d.seqno)
      modifies this`w, rcv`r, rcv`rcvCurrSeqNo
      modifies rcv.rcvBuffer`maxPos, rcv.rcvBuffer`cells, rcv.rcvBuffer`place, rcv.rcvBuffer.unit
      modifies Pool(), Pool().entries`next, Pool().pool
      modifies rcv.rcvLossList, rcv.rcvLossList.data1, rcv.rcvLossList.data2, rcv.rcvLossList.next, rcv.rcvLossList.prior
      ensures Valid() && Stocks() && if found then Happened(old(w), Event.DataArrives(d)) else w == old(w)
      ensures found <==> !old(Starves())
    {
      hide Valid, Happened, Starves, CudtReceiver.Close, UnitQueue.Ringed;
      var u := Fetch();
      if u == null {
        return false;
      }
      Fill(u, d.packet);
      var stored, nak := DataArrives(u, d);
      return true;
    }

    /** Only send adds to what is accepted, and only recv to what is delivered. */
    lemma OnlyCalls(w0: World, e: Event)
      requires Happened(w0, e)
      ensures !e.UserSend? ==> w.accepted == w0.accepted
      ensures !e.UserRecv? ==> w.delivered == w0.delivered
    {
      hide Inv;
    }

    /** An event at the sending end.  The result is the bytes that send accepts. */
    method SenderStep(e: Event) returns (accepted: seq<byte>)
      requires Valid() && Timely(c, w, e) && AtSender(e)
      modifies this`w, snd, snd.sndBuffer, snd.sndBuffer.repr
      modifies snd.sndLossList, snd.sndLossList.data1, snd.sndLossList.data2, snd.sndLossList.next
      ensures Valid() && fresh(snd.sndBuffer.repr - old(snd.sndBuffer.repr)) && Happened(old(w), e)
      ensures w.accepted == old(w).accepted + accepted && w.delivered == old(w).delivered
    {
      hide Valid, Happened, CudtSender.Close, CudtSender.CloseRun;
      ghost var w0 := w;
      accepted := [];
      match e {
        case UserSend(data) =>
          var n := UserSend(data);
          accepted := data[..n];
        case Transmit(cwnd) =>
          var r := Transmit(cwnd);
        case AckArrives(a, ack2) =>
          AckArrives(a, ack2);
        case NakArrives(runs) =>
          NakArrives(runs);
        case ExpTimer =>
          Expire();
      }
      OnlyCalls(w0, e);
    }

    /** An event at the receiving end; an arrival may not happen.  The result is the bytes that recv returns. */
    method ReceiverStep(e: Event) returns (done: bool, delivered: seq<byte>)
      requires Valid() && Pool().Ringed() && Timely(c, w, e) && !AtSender(e)
      modifies this`w, rcv, rcv.rcvBuffer, rcv.rcvBuffer.unit
      modifies Pool(), Pool().entries`next, Pool().pool
      modifies rcv.rcvLossList, rcv.rcvLossList.data1, rcv.rcvLossList.data2, rcv.rcvLossList.next, rcv.rcvLossList.prior
      modifies rcv.ackWindow, rcv.ackWindow.ackSeqNo, rcv.ackWindow.ack, rcv.ackWindow.timeStamp
      ensures Valid() && Stocks() && if done then Happened(old(w), e) else w == old(w)
      ensures done <==> !(e.DataArrives? && old(Starves()))
      ensures w.accepted == old(w).accepted && w.delivered == old(w).delivered + delivered
    {
      hide Valid, Happened, Starves, CudtReceiver.Close, CudtReceiver.Recent, UnitQueue.Ringed;
      ghost var w0 := w;
      done, delivered := true, [];
      match e {
        case DataArrives(d) =>
          done := Read(d);
        case AckTimer(lite, soon, now) =>
          var a := AckTimer(lite, soon, now);
        case Ack2Arrives(number, now) =>
          Ack2Arrives(number, now);
        case UserRecv(len) =>
          HeldPooled();
          delivered := UserRecv(len);
      }
      if done {
        OnlyCalls(w0, e);
      }
    }

    lemma HeldPooled()
      requires Valid()
      ensures rcv.rcvBuffer.Held() <= Pool().pool
    {
    }

    /** What belongs to the ends did so before, or is new. */
    twostate predicate Kept()
      reads snd.sndBuffer`repr, Pool()`pool, Pool()`entries
    {
      && (forall o :: o in SndParts() ==> o in old(SndParts()) || fresh(o))
      && (forall o :: o in RcvParts() ==> o in old(RcvParts()) || fresh(o))
    }

    /** The event at the sending end, for a caller that knows the objects only. */
    method SenderTurn(e: Event) returns (accepted: seq<byte>)
      requires Valid() && Pool().Ringed() && Timely(c, w, e) && AtSender(e)
      modifies this`w, SndParts()
      ensures Valid() && Pool().Ringed() && fresh(SndParts() - old(SndParts())) && RcvParts() == old(RcvParts())
      ensures Happened(old(w), e)
      ensures w.accepted == old(w).accepted + accepted && w.delivered == old(w).delivered
    {
      hide Valid, Happened, Timely, Starves, UnitQueue.Ringed;
      accepted := SenderStep(e);
    }

    /** The event at the receiving end, for a caller that knows the objects only. */
    method ReceiverTurn(e: Event) returns (done: bool, delivered: seq<byte>)
      requires Valid() && Pool().Ringed() && Timely(c, w, e) && !AtSender(e)
      modifies this`w, RcvParts()
      ensures Valid() && Pool().Ringed() && fresh(RcvParts() - old(RcvParts())) && SndParts() == old(SndParts())
      ensures if done then Happened(old(w), e) else w == old(w)
      ensures done <==> !(e.DataArrives? && old(Starves()))
      ensures w.accepted == old(w).accepted && w.delivered == old(w).delivered + delivered
    {
      hide Valid, Happened, Timely, Starves, UnitQueue.Ringed;
      done, delivered := ReceiverStep(e);
    }

    /** The event happens, but for an arrival for which no unit is found. */
    method Step(e: Event) returns (done: bool, accepted: seq<byte>, delivered: seq<byte>)
      requires Valid() && Pool().Ringed() && Timely(c, w, e)
      modifies this`w, SndParts(), RcvParts()
      ensures Valid() && Pool().Ringed() && Kept()
      ensures if done then Happened(old(w), e) else w == old(w)
      ensures done <==> !(e.DataArrives? && old(Starves()))
      ensures w.accepted == old(w).accepted + accepted && w.delivered == old(w).delivered + delivered
    {
      hide Valid, Happened, Timely, Starves, UnitQueue.Ringed, SndParts, RcvParts;
      done, accepted, delivered := true, [], [];
      if AtSender(e) {
        accepted := SenderTurn(e);
      } else {
        done, delivered := ReceiverTurn(e);
      }
    }

    /** The events happen one after the other, up to an arrival for which no unit is found. */
    method Drive(script: seq<Event>) returns (n: nat, accepted: seq<byte>, delivered: seq<byte>)
      requires Valid() && Pool().Ringed() && TimelyRun(c, w, script)
      modifies this`w, SndParts(), RcvParts()
      ensures Valid() && Pool().Ringed() && Kept()
      ensures n <= |script| && Ran(c, old(w), script[..n], w) && (n < |script| ==> script[n].DataArrives?)
      ensures w.accepted == old(w).accepted + accepted && w.delivered == old(w).delivered + delivered
      ensures n == 0 <==> script == [] || (script[0].DataArrives? && old(Starves()))
      ensures w.delivered <= w.accepted
    {
      hide Valid, Starves, Ran, Timely, TimelyRun, Inv, UnitQueue.Ringed, SndParts, RcvParts;
      ghost var w0, starves := w, Starves();
      Delivers();
      RanNone(c, w);
      n, accepted, delivered := 0, [], [];
      var done := true;
      while n < |script| && done
        invariant Valid() && Pool().Ringed() && Kept()
        invariant n <= |script| && Ran(c, w0, script[..n], w) && (!done ==> n < |script| && script[n].DataArrives?)
        invariant w.accepted == old(w).accepted + accepted && w.delivered == old(w).delivered + delivered
        invariant n == 0 && done ==> Starves() == starves
        invariant n == 0 && !done ==> script[0].DataArrives? && starves
        invariant n > 0 ==> !(script[0].DataArrives? && starves)
        decreases |script| - n, done
      {
        TimelyAt(c, w0, script, n, w);
        ghost var before := w;
        var more, read;
        done, more, read := Step(script[n]);
        accepted, delivered := accepted + more, delivered + read;
        if done {
          RanMore(c, w0, script, n, before);
          n := n + 1;
        }
      }
      Delivers();
    }

    lemma Delivers()
      requires Valid()
      ensures Inv(c, w) && w.delivered <= w.accepted
    {
      hide Inv, Sends, Receives, Differ;
      PrefixOfHistory(c, w);
    }
  }

  /** Two ends, new and independent of each other. */
  ghost predicate NewEnds(c: Config, snd: CudtSender, rcv: CudtReceiver)
    reads snd, snd.sndBuffer, snd.sndBuffer.ring
    reads snd.sndLossList, snd.sndLossList.data1, snd.sndLossList.data2, snd.sndLossList.next
    reads rcv, rcv.rcvBuffer, rcv.rcvBuffer.unit, rcv.rcvBuffer.Held()`packet, rcv.rcvBuffer.Held()`flag
    reads rcv.rcvLossList, rcv.rcvLossList.data1, rcv.rcvLossList.data2, rcv.rcvLossList.next, rcv.rcvLossList.prior
    reads rcv.ackWindow, rcv.ackWindow.ackSeqNo, rcv.ackWindow.ack, rcv.ackWindow.timeStamp
    reads rcv.rcvBuffer.queue`count, rcv.rcvBuffer.queue`pool, rcv.rcvBuffer.queue.pool`flag
  {
    && GoodConfig(c) && snd.Valid() && snd.c == c && rcv.Valid() && rcv.c == c && rcv.rcvBuffer.Pooled()
    && snd.s == NewSender(c) && rcv.r == NewReceiver(c) && Differ(snd.sndLossList, rcv)
  }

  /** What two ends agree on.  The first window is the smaller one of the receive buffer and the flight size. */
  function Agreed(isn: Wire, payloadSize: nat, sndBufSize: int, rcvBufSize: int, flightFlagSize: int): Config {
    Config(isn, rcvBufSize, if rcvBufSize < flightFlagSize then rcvBufSize else flightFlagSize, payloadSize, sndBufSize, 1024)
  }

  /** The sizes for which no two numbers share a slot of a loss list (see SenderSlots and ReceiverSlots). */
  predicate Sizes(payloadSize: nat, rcvBufSize: int, flightFlagSize: int) {
    && 0 < payloadSize && 2 <= rcvBufSize <= flightFlagSize + 2 && 2 <= flightFlagSize
    && 2 * flightFlagSize <= MAX_SIZE
  }

  method MakeEnds(isn: Wire, payloadSize: nat, sndBufSize: int, rcvBufSize: int, flightFlagSize: int, queue: UnitQueue)
    returns (snd: CudtSender, rcv: CudtReceiver)
    requires queue.Counted() && Sizes(payloadSize, rcvBufSize, flightFlagSize)
    ensures fresh(snd.Objects()) && fresh(rcv.Objects()) && rcv.rcvBuffer.queue == queue
    ensures NewEnds(Agreed(isn, payloadSize, sndBufSize, rcvBufSize, flightFlagSize), snd, rcv)
  {
    ghost var c := Agreed(isn, payloadSize, sndBufSize, rcvBufSize, flightFlagSize);
    WireOf(isn);
    hide CudtSender.Valid, CudtReceiver.Valid, ToWire, NewSender, NewReceiver, UnitQueue.Counted, RcvBuffer.Pooled;
    snd := new CudtSender(isn, if rcvBufSize < flightFlagSize then rcvBufSize else flightFlagSize, payloadSize, sndBufSize, c);
    hide Differ;
    rcv := MakeReceiver(isn, queue, rcvBufSize, flightFlagSize, c, snd.sndLossList);
  }

  method MakeReceiver(isn: Wire, queue: UnitQueue, rcvBufSize: int, flightFlagSize: int, ghost c: Config,
                      ghost lost: SndLossList)
    returns (rcv: CudtReceiver)
    requires queue.Counted() && GoodConfig(c) && isn == ToWire(c.isn) && c.window == rcvBufSize && c.ackSize == 1024
    requires c.flow == if rcvBufSize < flightFlagSize then rcvBufSize else flightFlagSize
    requires rcvBufSize <= flightFlagSize + 2 <= MAX_SIZE
    ensures fresh(rcv.Objects()) && rcv.Valid() && rcv.c == c && rcv.r == NewReceiver(c)
    ensures rcv.rcvBuffer.queue == queue && rcv.rcvBuffer.Pooled() && Differ(lost, rcv)
  {
    hide CudtReceiver.Valid, ToWire, NewReceiver, UnitQueue.Counted, RcvBuffer.Pooled;
    rcv := new CudtReceiver(isn, queue, rcvBufSize, flightFlagSize, c);
    NothingHeld(rcv, queue);
  }

  lemma WireOf(isn: Wire)
    ensures ToWire(isn) == isn
  {
  }

  lemma NothingHeld(rcv: CudtReceiver, queue: UnitQueue)
    requires queue.Counted() && rcv.Borrows(queue)
    ensures rcv.rcvBuffer.Pooled() && rcv.rcvBuffer.queue == queue
  {
  }

  /** A whole connection: two ends are made, with a pool of units, and the events happen.  What all calls of recv return is a
      prefix of what all calls of send accept. */
  method Converse(isn: Wire, payloadSize: nat, sndBufSize: int, rcvBufSize: int, flightFlagSize: int, units: nat,
                  script: seq<Event>, ghost c: Config)
    returns (n: nat, accepted: seq<byte>, delivered: seq<byte>)
    requires Sizes(payloadSize, rcvBufSize, flightFlagSize) && 0 < units
    requires c == Agreed(isn, payloadSize, sndBufSize, rcvBufSize, flightFlagSize) && TimelyFromStart(c, script)
    ensures n <= |script| && (n < |script| ==> script[n].DataArrives?) && delivered <= accepted
    ensures accepted == WorldAfter(c, script[..n]).accepted && delivered == WorldAfter(c, script[..n]).delivered
  {
    hide Agreed, Sizes, TimelyRun, UnitQueue.Ringed, Link.Valid, Init, Inv, Ran, Link.SndParts, Link.RcvParts, WorldAfter;
    var link := NewLink(isn, payloadSize, sndBufSize, rcvBufSize, flightFlagSize, units, c);
    n, accepted, delivered := link.Drive(script);
    RanAll(c, script[..n], link.w, accepted, delivered);
  }

  method NewLink(isn: Wire, payloadSize: nat, sndBufSize: int, rcvBufSize: int, flightFlagSize: int, units: nat,
                 ghost c: Config)
    returns (link: Link)
    requires Sizes(payloadSize, rcvBufSize, flightFlagSize) && 0 < units
    requires c == Agreed(isn, payloadSize, sndBufSize, rcvBufSize, flightFlagSize)
    ensures fresh(link) && fresh(link.SndParts()) && fresh(link.RcvParts())
    ensures link.Valid() && link.c == c && GoodConfig(c) && link.w == Init(c) && link.Pool().Ringed()
  {
    hide Agreed, Sizes, UnitQueue.Ringed, UnitQueue.Counted, PoolParts, NewEnds, Link.Valid, Init;
    hide CudtSender.Objects, CudtReceiver.Objects;
    var queue := NewPool(units);
    var snd, rcv := MakeEnds(isn, payloadSize, sndBufSize, rcvBufSize, flightFlagSize, queue);
    link := new Link(snd, rcv, c);
  }

  lemma RanAll(c: Config, events: seq<Event>, w: World, accepted: seq<byte>, delivered: seq<byte>)
    requires GoodConfig(c) && Ran(c, Init(c), events, w)
    requires w.accepted == Init(c).accepted + accepted && w.delivered == Init(c).delivered + delivered
    ensures WorldAfter(c, events) == w && w.accepted == accepted && w.delivered == delivered
  {
    hide Inv;
    assert [] + accepted == accepted && [] + delivered == delivered;
  }

  method NewPool(units: nat) returns (queue: UnitQueue)
    requires 0 < units
    ensures fresh(PoolParts(queue)) && queue.Ringed() && queue.Counted()
  {
    queue := new UnitQueue(units);
    hide UnitQueue.Ringed, UnitQueue.Counted;
  }
}
