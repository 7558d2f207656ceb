/** The receiving half of CUDT on the real data structures and on wire sequence numbers.  Each handler does to the receive
    buffer, the loss list, the ACK history and the counters exactly what the step of the protocol does to the abstract
    receiver. */
module CudtRcv {
  import opened SeqNo
  import opened Packets
  import opened LossSlots
  import opened LossReport
  import opened UnitPool
  import opened RcvBuf
  import opened RcvLoss
  import opened AckHistory
  import opened Endpoint
  import opened Minimum

  /** An ACK on the wire. */
  datatype WireAck = WireLite(ack: Wire) | WireFull(number: Wire, ack: Wire, window: int)

  ghost predicate Carries(w: Option<WireAck>, a: Option<Ack>) {
    match a
    case None => w == None
    case Some(LiteAck(ack)) => w == Some(WireLite(ToWire(ack)))
    case Some(FullAck(number, ack, window)) => w == Some(WireFull(ToWire(number), ToWire(ack), window))
  }

  function WireRecord(r: Record): Record {
    Record(ToWire(r.number), ToWire(r.ack), r.time)
  }

  function WireRecords(rs: seq<Record>): (q: seq<Record>)
    ensures |q| == |rs| && forall i :: 0 <= i < |q| ==> q[i] == WireRecord(rs[i])
  {
    seq(|rs|, i requires 0 <= i < |rs| => WireRecord(rs[i]))
  }

  class CudtReceiver {
    const rcvBuffer: RcvBuffer
    const rcvLossList: RcvLossList
    const ackWindow: AckWindow
    var rcvLastAck: Wire
    var rcvLastAckAck: Wire
    var rcvCurrSeqNo: Wire
    var ackSeqNo: Wire

    ghost const c: Config
    ghost var r: Receiver

    ghost predicate Configured() {
      && rcvBuffer.size == c.window <= rcvLossList.size + 2 && rcvLossList.size <= MAX_SIZE && ackWindow.size == c.ackSize > 0
      && 2 <= c.window
    }

    ghost predicate NotInHistory(a: array<int>) {
      a != ackWindow.ackSeqNo && a != ackWindow.ack && a != ackWindow.timeStamp
    }

    /** The arrays of the loss list are not those of the ACK history. */
    ghost predicate Apart() {
      && NotInHistory(rcvLossList.data1) && NotInHistory(rcvLossList.data2)
      && NotInHistory(rcvLossList.next) && NotInHistory(rcvLossList.prior)
    }

    ghost predicate Counters()
      reads this
    {
      && rcvLastAck == ToWire(r.lastAck) && rcvLastAckAck == ToWire(r.lastAckAck)
      && rcvCurrSeqNo == ToWire(r.currSeq) && ackSeqNo == ToWire(r.ackSeqNo)
    }

    ghost predicate Holds()
      reads this`r, rcvBuffer`cells, rcvBuffer`maxPos, rcvBuffer`notch, rcvBuffer`startPos, rcvBuffer`lastAckPos
      reads rcvLossList`g, ackWindow`q
    {
      && r.ring.cells == rcvBuffer.cells && r.ring.acked == rcvBuffer.RcvDataSize() && r.ring.maxPos == rcvBuffer.maxPos
      && r.notch == rcvBuffer.notch && r.lost == rcvLossList.Lost() && ackWindow.q == WireRecords(r.records)
    }

    ghost predicate Parts()
      reads rcvBuffer, rcvBuffer.unit, rcvBuffer.Held()`packet, rcvBuffer.Held()`flag
      reads rcvLossList, rcvLossList.data1, rcvLossList.data2, rcvLossList.next, rcvLossList.prior
      reads ackWindow, ackWindow.ackSeqNo, ackWindow.ack, ackWindow.timeStamp
    {
      rcvBuffer.Valid() && rcvLossList.Valid() && ackWindow.Valid()
    }

    ghost predicate Valid()
      reads this, rcvBuffer, rcvBuffer.unit, rcvBuffer.Held()`packet, rcvBuffer.Held()`flag
      reads rcvLossList, rcvLossList.data1, rcvLossList.data2, rcvLossList.next, rcvLossList.prior
      reads ackWindow, ackWindow.ackSeqNo, ackWindow.ack, ackWindow.timeStamp
    {
      Configured() && Apart() && Counters() && Holds() && Parts()
    }

    static lemma ZeroWire()
      ensures ToWire(0) == 0
    {
    }

    /** No unit of the pool has been borrowed yet. */
    ghost predicate Borrows(queue: UnitQueue)
      reads rcvBuffer`place
    {
      rcvBuffer.queue == queue && rcvBuffer.Held() == {}
    }

    /** The objects of the receiving end, without the pool of units. */
    ghost function Objects(): set<object> {
      {this, rcvBuffer, rcvBuffer.unit, rcvLossList, rcvLossList.data1, rcvLossList.data2, rcvLossList.next}
      + {rcvLossList.prior, ackWindow, ackWindow.ackSeqNo, ackWindow.ack, ackWindow.timeStamp}
    }

    /** The list has room for as many numbers as the flight size says, so the buffer may exceed that by two cells, and no
        more (see MissingTwiceInSlot). */
    constructor (isn: Wire, queue: UnitQueue, rcvBufSize: int, flightFlagSize: int, ghost c: Config)
      requires GoodConfig(c) && isn == ToWire(c.isn) && c.window == rcvBufSize && c.ackSize == 1024
      requires c.flow == if rcvBufSize < flightFlagSize then rcvBufSize else flightFlagSize
      requires rcvBufSize <= flightFlagSize + 2 <= MAX_SIZE
      ensures Valid() && r == NewReceiver(c) && this.c == c
      ensures Borrows(queue) && fresh(rcvBuffer) && fresh(rcvBuffer.unit) && fresh(rcvLossList) && fresh(ackWindow)
      ensures fresh(rcvLossList.data1) && fresh(rcvLossList.data2) && fresh(rcvLossList.next) && fresh(rcvLossList.prior)
      ensures fresh(ackWindow.ackSeqNo) && fresh(ackWindow.ack) && fresh(ackWindow.timeStamp)
    {
      hide RcvBuffer.Valid, RcvLossList.Valid, RcvLossList.Lost, AckWindow.Valid, ToWire, Dec, Inc, Empties;
      rcvBuffer := new RcvBuffer(queue, rcvBufSize);
      rcvLossList := new RcvLossList(flightFlagSize);
      ackWindow := new AckWindow(1024);
      this.c := c;
      rcvLastAck, rcvLastAckAck, rcvCurrSeqNo, ackSeqNo := isn, isn, Dec(isn), 0;
      r := NewReceiver(c);
      new;
      Neighbours(c.isn);
      ZeroWire();
    }

    // ---------- Data packets ----------

    /** A number that arrives is near all the counters it is compared with. */
    static ghost predicate Close(r: Receiver, n: int) {
      Near(n, r.lastAck) && Near(n, r.currSeq) && Near(n, r.currSeq + 1)
    }

    /** The words of a loss report; none if there is no report. */
    static ghost predicate Reports(nak: seq<int>, runs: Option<seq<Run>>) {
      nak == match runs case None => [] case Some(rs) => Encode(rs)
    }

    /** What became of a data packet: whether its unit was kept, and the loss report that goes out at once. */
    static ghost predicate Handled(c: Config, r0: Receiver, d: Data, r: Receiver, stored: bool, nak: seq<int>)
      requires Partition(c, r0)
    {
      r == OnData(c, r0, d).0 && Reports(nak, OnData(c, r0, d).1) && stored == Accepts(c, r0, d)
    }

    /** A data packet arrives in unit u. */
    method ProcessData(u: Unit, seqno: Wire, ghost d: Data) returns (stored: bool, nak: seq<int>)
      requires Valid() && Partition(c, r) && rcvBuffer.Pooled() && u in rcvBuffer.queue.pool && u.flag == 0
      requires u.packet == d.packet && seqno == ToWire(d.seqno) && Close(r, d.seqno)
      modifies this`r, this`rcvCurrSeqNo
      modifies rcvBuffer`maxPos, rcvBuffer`cells, rcvBuffer`place, rcvBuffer.unit, u`flag, rcvBuffer.queue`count
      modifies rcvLossList, rcvLossList.data1, rcvLossList.data2, rcvLossList.next, rcvLossList.prior
      ensures Valid() && rcvBuffer.Pooled() && Handled(c, old(r), d, r, stored, nak) && (!stored ==> u.flag == 0)
    {
      hide Parts, Reports, ToWire, Off, Cmp, RcvBuffer.Pooled, RcvLossList.Lost;
      NumberCompares(r, d.seqno);
      nak := [];
      var offset := Off(rcvLastAck, seqno);
      if offset < 0 || offset >= rcvBuffer.AvailBufSize() {
        NoReport();
        return false, [];
      }
      stored := Store(u, offset, d);
      if stored {
        nak := DetectLoss(seqno, d.seqno);
      } else {
        NoReport();
      }
    }

    static lemma NoReport()
      ensures Reports([], None)
    {
    }

    /** The packet goes into the receive buffer, unless its cell is taken. */
    method Store(u: Unit, offset: int, ghost d: Data) returns (stored: bool)
      requires Valid() && Partition(c, r) && rcvBuffer.Pooled() && u in rcvBuffer.queue.pool && u.flag == 0
      requires u.packet == d.packet && 0 <= offset == d.seqno - r.lastAck < c.window - r.ring.acked - 1
      modifies this`r, rcvBuffer`maxPos, rcvBuffer`cells, rcvBuffer`place, rcvBuffer.unit, u`flag, rcvBuffer.queue`count
      ensures Valid() && rcvBuffer.Pooled() && stored == Accepts(c, old(r), d) && (!stored ==> u.flag == 0)
      ensures stored ==> LossRoom(c, r, d.seqno) && OnData(c, old(r), d) == Noted(r, d.seqno)
      ensures !stored ==> OnData(c, old(r), d) == (r, None)
      ensures r == old(r).(ring := r.ring)
    {
      hide RcvBuffer.Valid, RcvBuffer.Pooled, RcvLossList.Valid, RcvLossList.Lost, AckWindow.Valid, ToWire, WireRecords;
      hide OnData, Accepts, LossRoom, Partition, Noted;
      ghost var r0 := r;
      stored := rcvBuffer.AddData(u, offset);
      r := r.(ring := Ring(rcvBuffer.cells, rcvBuffer.RcvDataSize(), rcvBuffer.maxPos));
      StoredIs(c, r0, d, r, stored);
    }

    static lemma StoredIs(c: Config, r0: Receiver, d: Data, r: Receiver, stored: bool)
      requires Partition(c, r0) && 0 <= d.seqno - r0.lastAck < c.window - r0.ring.acked - 1
      requires var i, offset := r0.ring.acked + d.seqno - r0.lastAck, d.seqno - r0.lastAck;
               && (stored <==> r0.ring.cells[i] == Empty)
               && r == r0.(ring := Ring(if stored then r0.ring.cells[i := Full(d.packet, 1)] else r0.ring.cells, r0.ring.acked,
                                        if offset > r0.ring.maxPos then offset else r0.ring.maxPos))
      ensures stored == Accepts(c, r0, d)
      ensures stored ==> LossRoom(c, r, d.seqno) && OnData(c, r0, d) == Noted(r, d.seqno)
      ensures !stored ==> OnData(c, r0, d) == (r, None)
    {
      hide Noted;
    }

    /** The loss list has room for the numbers up to n. */
    static ghost predicate LossRoom(c: Config, r: Receiver, n: int) {
      && r.lastAck <= n < r.lastAck + c.window - 1 && r.lastAck - 1 <= r.currSeq < r.lastAck + c.window - 1
      && forall x :: x in r.lost ==> r.lastAck <= x <= r.currSeq
    }

    /** Packet n has been stored. */
    method DetectLoss(seqno: Wire, ghost n: int) returns (nak: seq<int>)
      requires Valid() && LossRoom(c, r, n) && seqno == ToWire(n) && Close(r, n)
      modifies this`r, this`rcvCurrSeqNo
      modifies rcvLossList, rcvLossList.data1, rcvLossList.data2, rcvLossList.next, rcvLossList.prior
      ensures Valid() && r == Noted(old(r), n).0 && Reports(nak, Noted(old(r), n).1)
    {
      hide Parts, ToWire, Cmp, RcvLossList.Lost, Range, WireRecords, Reports;
      NumberCompares(r, n);
      nak := ReportGap(seqno, n);
      if Cmp(seqno, rcvCurrSeqNo) > 0 {
        rcvCurrSeqNo := seqno;
        r := r.(currSeq := n);
      } else {
        RemoveLost(seqno, n);
      }
    }

    /** The numbers between the last one received and n, if there are any, are lost. */
    method ReportGap(seqno: Wire, ghost n: int) returns (nak: seq<int>)
      requires Valid() && LossRoom(c, r, n) && seqno == ToWire(n) && Close(r, n)
      modifies this`r, rcvLossList, rcvLossList.data1, rcvLossList.data2, rcvLossList.next, rcvLossList.prior
      ensures Valid() && Reports(nak, Noted(old(r), n).1)
      ensures r == if n > old(r).currSeq + 1 then old(r).(lost := old(r).lost + Range(old(r).currSeq + 1, n - 1)) else old(r)
    {
      hide Parts, ToWire, Cmp, Inc, Dec, Encode, RcvLossList.Lost, Range, WireRecords;
      Neighbours(r.currSeq);
      Neighbours(n);
      NumberCompares(r, n);
      nak := [];
      if Cmp(seqno, Inc(rcvCurrSeqNo)) > 0 {
        GapReport(r.currSeq + 1, n - 1);
        InsertLost(Inc(rcvCurrSeqNo), Dec(seqno), r.currSeq + 1, n - 1);
        if Inc(rcvCurrSeqNo) == Dec(seqno) {
          nak := [Dec(seqno)];
        } else {
          nak := [Inc(rcvCurrSeqNo) + FLAG, Dec(seqno)];
        }
      }
    }

    /** The numbers a..b are lost; the other parts do not notice. */
    method InsertLost(seqno1: Wire, seqno2: Wire, ghost a: int, ghost b: int)
      requires Valid() && seqno1 == ToWire(a) && seqno2 == ToWire(b)
      requires a <= b < a + c.window - 2 && forall x :: x in r.lost ==> x < a && b - x < c.window - 2
      modifies this`r, rcvLossList, rcvLossList.data1, rcvLossList.data2, rcvLossList.next, rcvLossList.prior
      ensures Valid() && r == old(r).(lost := old(r).lost + Range(a, b))
    {
      hide RcvBuffer.Valid, RcvLossList.Valid, RcvLossList.Lost, AckWindow.Valid, ToWire, WireRecords;
      rcvBuffer.HeldInSlots();
      rcvLossList.Insert(seqno1, seqno2, a, b);
      SameSet(rcvLossList.Lost(), r.lost + Range(a, b));
      r := r.(lost := r.lost + Range(a, b));
    }

    /** Packet n is no longer lost. */
    method RemoveLost(seqno: Wire, ghost n: int)
      requires Valid() && seqno == ToWire(n) && forall x :: x in r.lost ==> Near(x, n)
      modifies this`r, rcvLossList, rcvLossList.data1, rcvLossList.data2, rcvLossList.next, rcvLossList.prior
      ensures Valid() && r == old(r).(lost := old(r).lost - {n})
    {
      hide RcvBuffer.Valid, RcvLossList.Valid, RcvLossList.Lost, AckWindow.Valid, ToWire, WireRecords;
      rcvBuffer.HeldInSlots();
      var found := rcvLossList.Remove(seqno, n);
      r := r.(lost := r.lost - {n});
    }

    static lemma GapReport(a: int, b: int)
      requires a <= b && Near(a, b)
      ensures Encode([Run(a, b)]) == if ToWire(a) == ToWire(b) then [ToWire(b)] else [ToWire(a) + FLAG, ToWire(b)]
    {
      WindowAgreement(a, b);
      hide ToWire;
      assert [Run(a, b)][..0] == [];
      assert Encode([]) == [];
    }

    static lemma NumberCompares(r: Receiver, n: int)
      requires Close(r, n)
      ensures Off(ToWire(r.lastAck), ToWire(n)) == n - r.lastAck
      ensures Cmp(ToWire(n), ToWire(r.currSeq + 1)) > 0 <==> n > r.currSeq + 1
      ensures Cmp(ToWire(n), ToWire(r.currSeq)) > 0 <==> n > r.currSeq
    {
      WindowAgreement(r.lastAck, n);
      WindowAgreement(n, r.currSeq + 1);
      WindowAgreement(n, r.currSeq);
    }

    // ---------- ACKs ----------

    /** The last ACK that the sender acknowledged is near the numbers it is compared with. */
    static ghost predicate Recent(r: Receiver) {
      Near(AckNumber(r), r.lastAckAck) && Near(AckNumber(r), r.lastAck) && Near(r.lastAck, r.lastAckAck)
    }

    /** The number an ACK carries. */
    method FirstMissing() returns (ack: Wire)
      requires Valid()
      ensures Valid() && ack == ToWire(AckNumber(r))
    {
      hide RcvBuffer.Valid, RcvLossList.Valid, RcvLossList.Lost, AckWindow.Valid, ToWire, Inc;
      rcvLossList.LengthIs();
      if 0 == rcvLossList.length {
        Neighbours(r.currSeq);
        return Inc(rcvCurrSeqNo);
      }
      rcvBuffer.HeldInSlots();
      var seqno, x := rcvLossList.GetFirstLostSeq();
      return seqno;
    }

    static lemma AckCompares(r: Receiver)
      requires Recent(r)
      ensures ToWire(AckNumber(r)) == ToWire(r.lastAckAck) <==> AckNumber(r) == r.lastAckAck
      ensures ToWire(AckNumber(r)) == ToWire(r.lastAck) <==> AckNumber(r) == r.lastAck
      ensures Cmp(ToWire(AckNumber(r)), ToWire(r.lastAck)) > 0 <==> AckNumber(r) > r.lastAck
      ensures Cmp(ToWire(AckNumber(r)), ToWire(r.lastAckAck)) > 0 <==> AckNumber(r) > r.lastAckAck
      ensures Cmp(ToWire(r.lastAck), ToWire(r.lastAckAck)) > 0 <==> r.lastAck > r.lastAckAck
      ensures Off(ToWire(r.lastAck), ToWire(AckNumber(r))) == AckNumber(r) - r.lastAck
    {
      hide AckNumber;
      WindowAgreement(AckNumber(r), r.lastAckAck);
      WindowAgreement(AckNumber(r), r.lastAck);
      WindowAgreement(r.lastAck, r.lastAckAck);
      WindowAgreement(r.lastAck, AckNumber(r));
    }

    /** The ACK timer fires, or a lite ACK is due. */
    method SendAck(lite: bool, soon: bool, now: int) returns (a: Option<WireAck>)
      requires Valid() && Partition(c, r) && Recent(r)
      modifies this`r, this`rcvLastAck, this`ackSeqNo, rcvBuffer`lastAckPos, rcvBuffer`maxPos
      modifies ackWindow, ackWindow.ackSeqNo, ackWindow.ack, ackWindow.timeStamp
      ensures Valid() && r == OnAckTimer(c, old(r), lite, soon, now).0
      ensures Carries(a, OnAckTimer(c, old(r), lite, soon, now).1)
    {
      hide Parts, ToWire, Cmp, Off, AckNumber, Partition, Advanced, WireRecords;
      AckCompares(r);
      AdvanceRoom(c, r);
      var ack := FirstMissing();
      if ack == rcvLastAckAck {
        return None;
      }
      if lite {
        return Some(WireLite(ack));
      }
      if Cmp(ack, rcvLastAck) > 0 {
        Advance(ack, Off(rcvLastAck, ack), AckNumber(r));
      } else if ack == rcvLastAck {
        if soon {
          return None;
        }
      } else {
        return None;
      }
      if Cmp(rcvLastAck, rcvLastAckAck) > 0 {
        a := SendFullAck(now);
      } else {
        return None;
      }
    }

    static lemma AdvanceRoom(c: Config, r: Receiver)
      requires Partition(c, r)
      ensures 0 <= AckNumber(r) - r.lastAck < c.window - r.ring.acked
      ensures Advanced(r, r.lastAck) == r && Advanced(r, AckNumber(r)).lastAck == AckNumber(r)
      ensures Advanced(r, AckNumber(r)).lastAckAck == r.lastAckAck
    {
    }

    /** The packets before number k are acknowledged. */
    method Advance(ack: Wire, acksize: int, ghost k: int)
      requires Valid() && ack == ToWire(k) && acksize == k - r.lastAck && 0 <= acksize < c.window - r.ring.acked
      modifies this`r, this`rcvLastAck, rcvBuffer`lastAckPos, rcvBuffer`maxPos
      ensures Valid() && r == Advanced(old(r), k)
    {
      hide RcvBuffer.Valid, RcvLossList.Valid, AckWindow.Valid, ToWire, WireRecords;
      rcvLastAck := ack;
      rcvBuffer.AckData(acksize);
      r := Advanced(r, k);
    }

    /** A full ACK goes out and on record; the window it offers is never smaller than 2. */
    method SendFullAck(now: int) returns (a: Option<WireAck>)
      requires Valid()
      modifies this`r, this`ackSeqNo, ackWindow, ackWindow.ackSeqNo, ackWindow.ack, ackWindow.timeStamp
      ensures Valid()
      ensures r == old(r).(ackSeqNo := old(r).ackSeqNo + 1,
                records := Recorded(old(r).records, Record(old(r).ackSeqNo + 1, old(r).lastAck, now), c.ackSize - 1))
      ensures Carries(a, Some(FullAck(r.ackSeqNo, r.lastAck, Max(2, c.window - r.ring.acked - 1))))
    {
      hide Parts, ToWire, Inc, WireRecords, Recorded;
      var window := rcvBuffer.AvailBufSize();
      if window < 2 {
        window := 2;
      }
      RecordAck(now);
      a := Some(WireFull(ackSeqNo, rcvLastAck, window));
    }

    /** The next ACK gets its number and goes on record. */
    method RecordAck(now: int)
      requires Valid()
      modifies this`r, this`ackSeqNo, ackWindow, ackWindow.ackSeqNo, ackWindow.ack, ackWindow.timeStamp
      ensures Valid()
      ensures r == old(r).(ackSeqNo := old(r).ackSeqNo + 1,
                records := Recorded(old(r).records, Record(old(r).ackSeqNo + 1, old(r).lastAck, now), c.ackSize - 1))
    {
      hide RcvBuffer.Valid, RcvLossList.Valid, AckWindow.Valid, ToWire, Inc, WireRecords, Recorded;
      Neighbours(r.ackSeqNo);
      ackSeqNo := Inc(ackSeqNo);
      rcvBuffer.HeldInSlots();
      ackWindow.Store(ackSeqNo, rcvLastAck, now);
      WireRecorded(r.records, Record(r.ackSeqNo + 1, r.lastAck, now), c.ackSize - 1);
      r := r.(ackSeqNo := r.ackSeqNo + 1,
              records := Recorded(r.records, Record(r.ackSeqNo + 1, r.lastAck, now), c.ackSize - 1));
    }

    static lemma WireRecorded(rs: seq<Record>, r: Record, capacity: nat)
      ensures WireRecords(Recorded(rs, r, capacity)) == Recorded(WireRecords(rs), WireRecord(r), capacity)
    {
      hide ToWire;
    }

    /** The sender has acknowledged ACK k. */
    method ProcessAck2(number: Wire, now: int, ghost k: nat)
      requires Valid() && number == ToWire(k)
      requires forall i :: 0 <= i < |r.records| ==> Near(r.records[i].number, k) && Near(r.records[i].ack, r.lastAckAck)
      modifies this`r, this`rcvLastAckAck, ackWindow, ackWindow.ackSeqNo
      ensures Valid() && r == OnAck2(old(r), k, now)
    {
      hide Parts, ToWire, Cmp, Int32, Oldest, WireRecords;
      OldestNear(r, k);
      var rtt, ack := Forget(number, now, k);
      if rtt <= 0 {
        return;
      }
      if Cmp(ack, rcvLastAckAck) > 0 {
        rcvLastAckAck := ack;
        r := r.(lastAckAck := old(r).records[Oldest(old(r).records, k)].ack);
      }
    }

    /** ACK k and all older ones leave the history. */
    method Forget(number: Wire, now: int, ghost k: nat) returns (rtt: int, ack: int)
      requires Valid() && number == ToWire(k) && forall i :: 0 <= i < |r.records| ==> Near(r.records[i].number, k)
      modifies this`r, ackWindow, ackWindow.ackSeqNo
      ensures Valid() && r == old(r).(records := Remaining(old(r).records, k))
      ensures var i := Oldest(old(r).records, k);
              if i == |old(r).records| then rtt == -1
              else ack == ToWire(old(r).records[i].ack) && rtt == Int32(now - old(r).records[i].time)
    {
      hide RcvBuffer.Valid, RcvLossList.Valid, AckWindow.Valid, ToWire, Cmp, Int32, Oldest, Remaining, WireRecords;
      WireOldest(r.records, k);
      rcvBuffer.HeldInSlots();
      rtt, ack := ackWindow.Acknowledge(number, now);
      r := r.(records := Remaining(r.records, k));
    }

    static lemma OldestNear(r: Receiver, k: nat)
      requires forall i :: 0 <= i < |r.records| ==> Near(r.records[i].ack, r.lastAckAck)
      ensures var i := Oldest(r.records, k);
              i < |r.records| ==>
                (Cmp(ToWire(r.records[i].ack), ToWire(r.lastAckAck)) > 0 <==> r.records[i].ack > r.lastAckAck)
    {
      var i := Oldest(r.records, k);
      if i < |r.records| {
        WindowAgreement(r.records[i].ack, r.lastAckAck);
      }
    }

    static lemma {:induction false} WireOldest(rs: seq<Record>, k: nat)
      requires forall i :: 0 <= i < |rs| ==> Near(rs[i].number, k)
      ensures Oldest(WireRecords(rs), ToWire(k)) == Oldest(rs, k)
      ensures WireRecords(Remaining(rs, k)) == Remaining(WireRecords(rs), ToWire(k))
    {
      if rs != [] {
        WindowAgreement(rs[0].number, k);
        hide ToWire;
        WireOldest(rs[1..], k);
        assert WireRecords(rs)[1..] == WireRecords(rs[1..]);
      }
    }

    // ---------- Reading ----------

    method Recv(len: int) returns (data: seq<byte>)
      requires Valid() && rcvBuffer.Pooled() && Partition(c, r)
      requires AllFull(r.ring.cells[..r.ring.acked]) && NotchInside(PacketsOf(r.ring.cells[..r.ring.acked]), r.notch)
      modifies this`r, rcvBuffer`notch, rcvBuffer`startPos, rcvBuffer`cells, rcvBuffer`place, rcvBuffer.unit
      modifies rcvBuffer.Held()`flag, rcvBuffer.queue`count
      ensures Valid() && rcvBuffer.Pooled() && (r, data) == OnRecv(old(r), len)
    {
      hide RcvBuffer.Valid, RcvBuffer.Pooled, RcvLossList.Valid, RcvLossList.Lost, AckWindow.Valid, ToWire, WireRecords;
      hide Read, NotchInside, AllFull;
      if len <= 0 {
        return [];
      }
      if 0 == rcvBuffer.RcvDataSize() {
        return [];
      }
      data := rcvBuffer.ReadBuffer(len);
      r := r.(ring := Ring(rcvBuffer.cells, rcvBuffer.RcvDataSize(), r.ring.maxPos), notch := rcvBuffer.notch);
    }
  }
}
