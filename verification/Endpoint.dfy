/** The two halves of a CUDT socket as values, and what each packet handler makes of them.  Sequence numbers are
    logical here: unbounded integers counted from the initial sequence number on. */
module Endpoint {
  import opened Packets
  import opened LossSlots
  import opened Minimum
  import opened RcvBuf
  import opened AckHistory
  import SeqNo
  import SndBuf

  /** window is the size of the receive buffer; flow the first flow window, which the handshake makes the smaller one of
      that size and the flight size of the receiver; mss the bytes in a full packet; sndBufSize the limit on the packets
      waiting to be sent; ackSize the size of the ACK history. */
  datatype Config = Config(isn: int, window: int, flow: int, mss: nat, sndBufSize: int, ackSize: nat)

  ghost predicate GoodConfig(c: Config) {
    2 <= c.flow <= c.window && 0 < c.mss && 0 < c.ackSize
  }

  /** The most packets that can be unacknowledged: the first window, or what a full ACK offers of an empty buffer. */
  function Span(c: Config): int {
    Max(c.flow, c.window - 1)
  }

  /** The sending half: the packets in the send buffer, how many of them have been sent, the number of the next
      message, and m_iSndLastDataAck, m_iSndLastAck, m_iSndCurrSeqNo, m_iFlowWindowSize, the loss list, m_bBroken. */
  datatype Sender = Sender(queue: seq<Packet>, curr: nat, msgNo: int, dataAck: int, lastAck: int, currSeq: int,
                           window: int, lost: set<int>, broken: bool)

  /** The receiving half: the receive buffer, m_iRcvLastAck, m_iRcvLastAckAck, m_iRcvCurrSeqNo, the loss list,
      m_iAckSeqNo and the ACK history. */
  datatype Receiver = Receiver(ring: Ring, notch: nat, lastAck: int, lastAckAck: int, currSeq: int, lost: set<int>,
                               ackSeqNo: nat, records: seq<Record>)

  datatype Data = Data(seqno: int, packet: Packet)

  datatype Ack = LiteAck(ack: int) | FullAck(number: nat, ack: int, window: int)

  function NewSender(c: Config): Sender {
    Sender([], 0, 1, c.isn, c.isn, c.isn - 1, c.flow, {}, false)
  }

  function NewReceiver(c: Config): Receiver
    requires c.window >= 0
  {
    Receiver(Ring(Empties(c.window), 0, 0), 0, c.isn, c.isn, c.isn - 1, {}, 0, [])
  }

  // ---------- The sending half ----------

  /** What the handlers of the sending half rely on and keep: the first packet in the buffer has number dataAck, the
      next one to send number currSeq + 1; everything waiting for retransmission lies between the two; and what is
      unacknowledged fits in the window, counted from dataAck.  While no lite ACK is ahead of the last full one, there
      is room in the window for at least two packets. */
  ghost predicate Bound(c: Config, s: Sender) {
    && c.mss > 0 && !s.broken
    && s.curr == s.currSeq + 1 - s.dataAck && s.curr <= |s.queue|
    && s.dataAck <= s.lastAck <= s.currSeq + 1
    && s.lastAck + s.window <= s.dataAck + Span(c) && s.currSeq + 1 <= s.dataAck + Span(c)
    && (s.dataAck == s.lastAck ==> 2 <= s.window)
    && forall x :: x in s.lost ==> s.dataAck <= x <= s.currSeq
  }

  /** How many bytes of the user's buffer a call of send accepts. */
  function Room(c: Config, s: Sender, len: nat): (n: nat)
    ensures n <= len
  {
    if c.sndBufSize <= |s.queue| then 0
    else
      var size := (c.sndBufSize - |s.queue|) * c.mss;
      if size > len then len else size
  }

  /** A user call of send. */
  function OnSend(c: Config, s: Sender, data: seq<byte>): (Sender, nat)
    requires c.mss > 0
  {
    if data == [] || c.sndBufSize <= |s.queue| then (s, 0)
    else
      var n := Room(c, s, |data|);
      (s.(queue := s.queue + Chunks(data[..n], c.mss, true, false, s.msgNo), msgNo := SndBuf.NextMsgNo(s.msgNo)), n)
  }

  /** A turn to send: retransmit the first lost packet; if none is lost, send a new packet if there is one and the
      flow window and the congestion window cwnd allow it. */
  ghost function OnPack(c: Config, s: Sender, cwnd: int): (Sender, Option<Data>)
    requires Bound(c, s)
  {
    if s.lost != {} then
      var x := Min(s.lost);
      (s.(lost := s.lost - {x}), Some(Data(x, s.queue[x - s.dataAck])))
    else
      var limit := if s.window < cwnd then s.window else cwnd;
      if limit >= s.currSeq + 1 - s.lastAck + 1 && s.curr < |s.queue| then
        (s.(currSeq := s.currSeq + 1, curr := s.curr + 1), Some(Data(s.currSeq + 1, s.queue[s.curr])))
      else (s, None)
  }

  ghost function Beyond(lost: set<int>, k: int): (r: set<int>)
    ensures forall x :: x in r <==> x in lost && k < x
  {
    set x | x in lost && k < x
  }

  /** An ACK arrives. */
  ghost function OnAck(c: Config, s: Sender, a: Ack): Sender
    requires Bound(c, s)
  {
    match a
    case LiteAck(ack) =>
      if ack >= s.lastAck then s.(window := s.window - (ack - s.lastAck), lastAck := ack) else s
    case FullAck(_, ack, window) =>
      if ack > s.currSeq + 1 then s.(broken := true)
      else
        var s1 := if ack >= s.lastAck then s.(window := window, lastAck := ack) else s;
        var offset := ack - s.dataAck;
        if offset <= 0 then s1
        else s1.(queue := s.queue[offset..], curr := s.curr - offset, dataAck := ack, lost := Beyond(s.lost, ack - 1))
  }

  /** What one entry of a loss report adds to the loss list, or None if the sender takes it for an attack. */
  ghost function Reported(s: Sender, run: Run): Option<set<int>> {
    if run.lo != run.hi then
      if run.lo > run.hi || run.hi > s.currSeq then None
      else if run.lo >= s.lastAck then Some(Range(run.lo, run.hi))
      else if run.hi >= s.lastAck then Some(Range(s.lastAck, run.hi))
      else Some({})
    else if run.lo >= s.lastAck then
      if run.lo > s.currSeq then None else Some(Range(run.lo, run.lo))
    else Some({})
  }

  /** A loss report arrives: entry after entry goes to the loss list, until one is refused. */
  ghost function OnNak(s: Sender, runs: seq<Run>): Sender
    decreases |runs|
  {
    if runs == [] then s
    else match Reported(s, runs[0])
      case None => s.(broken := true)
      case Some(more) => OnNak(s.(lost := s.lost + more), runs[1..])
  }

  /** The EXP timer expires: everything unacknowledged is lost, unless a loss is known already. */
  ghost function OnExpire(s: Sender): Sender {
    if |s.queue| > 0 && s.currSeq + 1 != s.lastAck && s.lost == {} then
      s.(lost := Range(s.lastAck, s.currSeq))
    else s
  }

  // ---------- The receiving half ----------

  /** The number of the packet in the first cell of the receive buffer. */
  function Start(r: Receiver): int {
    r.lastAck - r.ring.acked
  }

  /** What the handlers of the receiving half rely on and keep: each number from lastAck to currSeq is either stored in
      its cell or in the loss list, never both; everything before lastAck and not yet read is stored. */
  ghost predicate Partition(c: Config, r: Receiver) {
    && |r.ring.cells| == c.window
    && r.lastAck <= r.currSeq + 1 && r.currSeq + 1 - Start(r) < c.window
    && r.ring.acked + r.ring.maxPos < c.window
    && (forall i :: 0 <= i < r.ring.acked ==> r.ring.cells[i].Full?)
    && (forall n :: n in r.lost ==> r.lastAck <= n < r.currSeq)
    && (forall i {:trigger r.ring.cells[i]} :: r.ring.acked <= i <= r.currSeq - Start(r) ==>
          (Start(r) + i in r.lost <==> r.ring.cells[i] == Empty))
    && (forall i :: r.currSeq - Start(r) < i < c.window ==> r.ring.cells[i] == Empty)
  }

  /** The number an ACK carries: the first lost one, or the one after the last received. */
  ghost function AckNumber(r: Receiver): int {
    if r.lost == {} then r.currSeq + 1 else Min(r.lost)
  }

  /** Whether a data packet that arrives is stored. */
  ghost predicate Accepts(c: Config, r: Receiver, d: Data)
    requires Partition(c, r)
  {
    var offset := d.seqno - r.lastAck;
    0 <= offset < c.window - r.ring.acked - 1 && r.ring.cells[r.ring.acked + offset] == Empty
  }

  /** Packet n has been stored: the gap before it, if there is one, is lost and reported; if it was itself lost, it no
      longer is. */
  ghost function Noted(r: Receiver, n: int): (Receiver, Option<seq<Run>>) {
    if n > r.currSeq + 1 then
      (r.(lost := r.lost + Range(r.currSeq + 1, n - 1), currSeq := n), Some([Run(r.currSeq + 1, n - 1)]))
    else if n > r.currSeq then (r.(currSeq := n), None)
    else (r.(lost := r.lost - {n}), None)
  }

  /** A data packet arrives; the result is the loss report to be sent. */
  ghost function OnData(c: Config, r: Receiver, d: Data): (Receiver, Option<seq<Run>>)
    requires Partition(c, r)
  {
    var offset := d.seqno - r.lastAck;
    if offset < 0 || offset >= c.window - r.ring.acked - 1 then (r, None)
    else
      var i, maxPos := r.ring.acked + offset, if offset > r.ring.maxPos then offset else r.ring.maxPos;
      if r.ring.cells[i] != Empty then (r.(ring := r.ring.(maxPos := maxPos)), None)
      else Noted(r.(ring := Ring(r.ring.cells[i := Full(d.packet, 1)], r.ring.acked, maxPos)), d.seqno)
  }

  function Max(x: int, y: int): int {
    if x < y then y else x
  }

  /** More packets are acknowledged, up to number ack. */
  function Advanced(r: Receiver, ack: int): Receiver
    requires r.lastAck <= ack
  {
    var len := ack - r.lastAck;
    r.(lastAck := ack, ring := r.ring.(acked := r.ring.acked + len, maxPos := Max(0, r.ring.maxPos - len)))
  }

  /** The ACK timer fires at time now; soon says that the last ACK is so recent that it is not repeated. */
  ghost function OnAckTimer(c: Config, r: Receiver, lite: bool, soon: bool, now: int): (Receiver, Option<Ack>)
    requires Partition(c, r) && c.ackSize > 0
  {
    var ack := AckNumber(r);
    if ack == r.lastAckAck then (r, None)
    else if lite then (r, Some(LiteAck(ack)))
    else if ack < r.lastAck || (ack == r.lastAck && soon) then (r, None)
    else
      var r1 := Advanced(r, ack);
      if r1.lastAck > r1.lastAckAck then
        var number := r1.ackSeqNo + 1;
        (r1.(ackSeqNo := number, records := Recorded(r1.records, Record(number, r1.lastAck, now), c.ackSize - 1)),
         Some(FullAck(number, r1.lastAck, Max(2, c.window - r1.ring.acked - 1))))
      else (r1, None)
  }

  /** The peer acknowledges ACK number at time now. */
  function OnAck2(r: Receiver, number: int, now: int): Receiver {
    var i := Oldest(r.records, number);
    if i == |r.records| then r
    else
      var r1, record := r.(records := Remaining(r.records, number)), r.records[i];
      if SeqNo.Int32(now - record.time) > 0 && record.ack > r.lastAckAck then r1.(lastAckAck := record.ack) else r1
  }

  /** A user call of recv for up to len bytes. */
  function OnRecv(r: Receiver, len: int): (Receiver, seq<byte>)
    requires r.ring.acked <= |r.ring.cells| && AllFull(r.ring.cells[..r.ring.acked])
  {
    if len <= 0 || r.ring.acked == 0 then (r, [])
    else
      var packets := PacketsOf(r.ring.cells[..r.ring.acked]);
      ReadUsed(packets, r.notch, len);
      var reading := Read(packets, r.notch, len);
      (r.(ring := Ring(r.ring.cells[reading.used..] + Empties(reading.used), r.ring.acked - reading.used, r.ring.maxPos),
          notch := reading.notch), reading.data)
  }

  lemma {:induction false} ReadUsed(packets: seq<Packet>, notch: nat, len: int)
    ensures Read(packets, notch, len).used <= |packets|
    decreases |packets|
  {
    if packets != [] && len > 0 {
      var rest := if notch <= |packets[0].payload| then packets[0].payload[notch..] else [];
      ReadUsed(packets[1..], 0, len - |rest|);
    }
  }
}
