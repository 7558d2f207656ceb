/** The sending half of CUDT on the real data structures and on wire sequence numbers.  Each handler does to the send
    buffer, the loss list and the counters exactly what the step of the protocol does to the abstract sender. */
module CudtSnd {
  import opened SeqNo
  import opened Packets
  import opened LossSlots
  import opened LossReport
  import opened SndBuf
  import opened SndLoss
  import opened Endpoint
  import opened Minimum

  class CudtSender {
    const sndBuffer: SndBuffer
    const sndLossList: SndLossList
    const sndBufSize: int
    const payloadSize: nat
    var sndLastAck: Wire
    var sndLastDataAck: Wire
    var sndCurrSeqNo: Wire
    var flowWindowSize: int
    var broken: bool

    ghost const c: Config
    ghost var s: Sender

    ghost predicate Configured() {
      && c.mss == payloadSize > 0 && c.sndBufSize == sndBufSize && sndBuffer.mss == payloadSize
      && Span(c) <= sndLossList.size == 2 * c.flow <= MAX_SIZE && 2 <= c.flow
    }

    /** The wire counters stand for the logical ones. */
    ghost predicate Counters()
      reads this
    {
      && sndLastAck == ToWire(s.lastAck) && sndLastDataAck == ToWire(s.dataAck) && sndCurrSeqNo == ToWire(s.currSeq)
      && flowWindowSize == s.window && broken == s.broken
    }

    ghost predicate Holds()
      reads this`s, sndBuffer`queue, sndBuffer`curr, sndBuffer`nextMsgNo, sndLossList`g
    {
      && s.queue == sndBuffer.queue && s.curr == sndBuffer.curr && s.msgNo == sndBuffer.nextMsgNo
      && s.lost == sndLossList.Lost()
    }

    ghost predicate Parts()
      reads sndBuffer, sndBuffer.ring, sndLossList, sndLossList.data1, sndLossList.data2, sndLossList.next
    {
      sndBuffer.Valid() && sndLossList.Valid()
    }

    ghost predicate Valid()
      reads this, sndBuffer, sndBuffer.ring
      reads sndLossList, sndLossList.data1, sndLossList.data2, sndLossList.next
    {
      Configured() && Counters() && Holds() && Parts()
    }

    /** window is the flow window that the handshake gives.  The list has room for twice as many numbers, so the receive
        buffer of the peer may exceed that by one cell, and no more (see LostTwiceInSlot). */
    /** The objects of the sending end. */
    ghost function Objects(): set<object>
      reads sndBuffer`repr
    {
      {this, sndBuffer, sndLossList, sndLossList.data1, sndLossList.data2, sndLossList.next} + sndBuffer.repr
    }

    constructor (isn: Wire, window: int, payloadSize: nat, sndBufSize: int, ghost c: Config)
      requires GoodConfig(c) && isn == ToWire(c.isn) && c.flow == window && c.window <= 2 * window + 1 && 2 * window <= MAX_SIZE
      requires c.mss == payloadSize && c.sndBufSize == sndBufSize
      ensures Valid() && s == NewSender(c) && this.c == c && fresh(Objects())
    {
      hide SndBuffer.Valid, SndLossList.Valid, ToWire, Dec;
      sndBuffer := new SndBuffer(32, payloadSize);
      sndLossList := new SndLossList(2 * window);
      this.sndBufSize, this.payloadSize, this.c := sndBufSize, payloadSize, c;
      sndLastAck, sndLastDataAck, sndCurrSeqNo := isn, isn, Dec(isn);
      flowWindowSize, broken := window, false;
      s := NewSender(c);
      new;
      Neighbours(c.isn);
    }

    /** A user call of send; returns how many bytes it took. */
    method Send(data: seq<byte>) returns (n: nat)
      requires Valid() && !broken
      modifies this`s, sndBuffer, sndBuffer.repr
      ensures Valid() && (s, n) == OnSend(c, old(s), data) && fresh(sndBuffer.repr - old(sndBuffer.repr))
    {
      hide SndBuffer.Valid, SndLossList.Valid, Chunks, ToWire;
      sndBuffer.CountIs();
      if |data| <= 0 {
        return 0;
      }
      if sndBufSize <= sndBuffer.count {
        return 0;
      }
      var size := (sndBufSize - sndBuffer.count) * payloadSize;
      if size > |data| {
        size := |data|;
      }
      sndBuffer.AddBuffer(data[..size], false);
      s := s.(queue := sndBuffer.queue, msgNo := sndBuffer.nextMsgNo);
      return size;
    }

    // ---------- Sending ----------

    /** The data packet that goes out: its number and contents. */
    static ghost predicate Sends(r: Option<(Wire, Packet)>, d: Option<Data>) {
      match d
      case None => r == None
      case Some(data) => r == Some((ToWire(data.seqno), data.packet))
    }

    /** Pack the next packet to be sent; cwnd is the congestion window. */
    method PackData(cwnd: int) returns (r: Option<(Wire, Packet)>)
      requires Valid() && Bound(c, s)
      modifies this`s, this`sndCurrSeqNo, sndBuffer`currBlock, sndBuffer`curr
      modifies sndLossList, sndLossList.data1, sndLossList.data2, sndLossList.next
      ensures Valid() && s == OnPack(c, old(s), cwnd).0 && Sends(r, OnPack(c, old(s), cwnd).1)
    {
      hide SndBuffer.Valid, SndLossList.Valid, Chunks, ToWire, SndLossList.Lost;
      sndBuffer.CountIs();
      var seqno, x := sndLossList.GetLostSeq();
      if seqno >= 0 {
        LossFacts(c, s, x);
        hide Bound;
        s := s.(lost := sndLossList.Lost());
        var offset := Off(sndLastDataAck, seqno);
        if offset < 0 {
          assert false;
        }
        var packet := sndBuffer.ReadDataAt(offset);
        r := Some((seqno, packet));
      } else {
        r := PackNew(cwnd);
      }
    }

    static lemma LossFacts(c: Config, s: Sender, x: int)
      requires Bound(c, s) && IsMin(s.lost, x) && Span(c) <= MAX_SIZE
      ensures x == Min(s.lost) && 0 <= x - s.dataAck < |s.queue|
      ensures Off(ToWire(s.dataAck), ToWire(x)) == x - s.dataAck
    {
      WindowAgreement(s.dataAck, x);
    }

    /** No packet is lost: take a new one, if the windows allow it. */
    method PackNew(cwnd: int) returns (r: Option<(Wire, Packet)>)
      requires Valid() && Bound(c, s) && s.lost == {}
      modifies this`s, this`sndCurrSeqNo, sndBuffer`currBlock, sndBuffer`curr
      ensures Valid() && s == OnPack(c, old(s), cwnd).0 && Sends(r, OnPack(c, old(s), cwnd).1)
    {
      hide SndBuffer.Valid, SndLossList.Valid, SndLossList.Lost, ToWire, Len, Inc;
      sndBuffer.CountIs();
      SpanLength(c, s);
      hide Bound;
      var limit := if flowWindowSize < cwnd then flowWindowSize else cwnd;
      if limit >= Len(sndLastAck, Inc(sndCurrSeqNo)) {
        var packet := sndBuffer.ReadData();
        if packet == None {
          return None;
        }
        sndCurrSeqNo := Inc(sndCurrSeqNo);
        s := s.(currSeq := s.currSeq + 1, curr := s.curr + 1);
        return Some((sndCurrSeqNo, packet.value));
      }
      return None;
    }

    static lemma SpanLength(c: Config, s: Sender)
      requires Bound(c, s) && Span(c) <= MAX_SIZE
      ensures Inc(ToWire(s.currSeq)) == ToWire(s.currSeq + 1)
      ensures Len(ToWire(s.lastAck), ToWire(s.currSeq + 1)) == s.currSeq + 1 - s.lastAck + 1
    {
      Neighbours(s.currSeq);
      WindowAgreement(s.lastAck, s.currSeq + 1);
    }

    // ---------- ACKs ----------

    /** A number the peer sends is near all the counters it is compared with. */
    static ghost predicate Close(s: Sender, x: int) {
      Near(x, s.lastAck) && Near(x, s.dataAck) && Near(x, s.currSeq + 1) && Near(x, s.currSeq)
    }

    method ProcessLiteAck(ack: Wire, ghost a: int)
      requires Valid() && Bound(c, s) && ack == ToWire(a) && Close(s, a)
      modifies this`s, this`flowWindowSize, this`sndLastAck
      ensures Valid() && s == OnAck(c, old(s), LiteAck(a))
    {
      WindowAgreement(a, s.lastAck);
      WindowAgreement(s.lastAck, a);
      hide SndBuffer.Valid, SndLossList.Valid, ToWire, Off, Cmp, Bound;
      if Cmp(ack, sndLastAck) >= 0 {
        flowWindowSize := flowWindowSize - Off(sndLastAck, ack);
        sndLastAck := ack;
        s := s.(window := s.window - (a - s.lastAck), lastAck := a);
      }
    }

    /** A full ACK; its number only serves to acknowledge it. */
    method ProcessAck(number: nat, ack: Wire, window: int, ghost a: int)
      requires Valid() && Bound(c, s) && ack == ToWire(a) && Close(s, a)
      modifies this, sndBuffer`firstBlock, sndBuffer`count, sndBuffer`ring, sndBuffer`queue, sndBuffer`curr
      modifies sndLossList, sndLossList.data1, sndLossList.data2, sndLossList.next
      ensures Valid() && s == OnAck(c, old(s), FullAck(number, a, window))
    {
      hide Parts, Holds, ToWire, Off, Cmp, Inc;
      AckCompares(c, s, a);
      if Cmp(ack, Inc(sndCurrSeqNo)) > 0 {
        Break();
        return;
      }
      ReleaseRoom(c, s, a);
      hide Bound;
      if Cmp(ack, sndLastAck) >= 0 {
        MoveWindow(ack, window, a);
      }
      var offset := Off(sndLastDataAck, ack);
      if offset <= 0 {
        return;
      }
      Release(ack, offset, a);
    }

    method Break()
      requires Valid()
      modifies this`broken, this`s
      ensures Valid() && s == old(s).(broken := true)
    {
      hide Parts;
      broken := true;
      s := s.(broken := true);
    }

    method MoveWindow(ack: Wire, window: int, ghost a: int)
      requires Valid() && ack == ToWire(a)
      modifies this`flowWindowSize, this`sndLastAck, this`s
      ensures Valid() && s == old(s).(window := window, lastAck := a)
    {
      hide Parts, ToWire;
      flowWindowSize := window;
      sndLastAck := ack;
      s := s.(window := window, lastAck := a);
    }

    static lemma ReleaseRoom(c: Config, s: Sender, a: int)
      requires Bound(c, s) && a <= s.currSeq + 1 && Close(s, a) && Span(c) <= MAX_SIZE
      ensures a - s.dataAck <= s.curr && forall x :: x in s.lost ==> x - (a - 1) < TH && (a > s.dataAck ==> Near(x, a - 1))
    {
    }

    static lemma AckCompares(c: Config, s: Sender, a: int)
      requires Close(s, a)
      ensures Cmp(ToWire(a), Inc(ToWire(s.currSeq))) > 0 <==> a > s.currSeq + 1
      ensures Cmp(ToWire(a), ToWire(s.lastAck)) >= 0 <==> a >= s.lastAck
      ensures Off(ToWire(s.dataAck), ToWire(a)) == a - s.dataAck
    {
      Neighbours(s.currSeq);
      WindowAgreement(a, s.currSeq + 1);
      WindowAgreement(a, s.lastAck);
      WindowAgreement(s.dataAck, a);
    }

    /** The packets before number ack leave the send buffer and the loss list. */
    method Release(ack: Wire, offset: int, ghost a: int)
      requires Valid() && ack == ToWire(a) && offset == a - s.dataAck > 0 && offset <= s.curr
      requires forall x :: x in s.lost ==> Near(x, a - 1)
      modifies this`s, this`sndLastDataAck
      modifies sndBuffer`firstBlock, sndBuffer`count, sndBuffer`ring, sndBuffer`queue, sndBuffer`curr
      modifies sndLossList, sndLossList.data1, sndLossList.data2, sndLossList.next
      ensures Valid()
      ensures s == old(s).(queue := old(s).queue[offset..], curr := old(s).curr - offset, dataAck := a,
                           lost := Beyond(old(s).lost, a - 1))
    {
      hide SndBuffer.Valid, SndLossList.Valid, SndLossList.Lost, ToWire, Dec;
      Neighbours(a);
      sndBuffer.CountIs();
      sndBuffer.AckData(offset);
      sndLastDataAck := ack;
      sndLossList.Remove(Dec(sndLastDataAck), a - 1);
      SameSet(sndLossList.Lost(), Beyond(s.lost, a - 1));
      s := s.(queue := s.queue[offset..], curr := s.curr - offset, dataAck := a, lost := Beyond(s.lost, a - 1));
    }

    // ---------- Loss reports and the EXP timer ----------

    method Expire()
      requires Valid() && Bound(c, s)
      modifies this`s, sndLossList, sndLossList.data1, sndLossList.data2, sndLossList.next
      ensures Valid() && s == OnExpire(old(s))
    {
      hide SndBuffer.Valid, SndLossList.Valid, SndLossList.Lost, ToWire, Len, Inc;
      sndBuffer.CountIs();
      sndLossList.LengthIs();
      SpanLength(c, s);
      WindowAgreement(s.currSeq + 1, s.lastAck);
      if sndBuffer.count > 0 {
        if Inc(sndCurrSeqNo) != sndLastAck && sndLossList.length == 0 {
          var csn := sndCurrSeqNo;
          var num := sndLossList.Insert(sndLastAck, csn, s.lastAck, s.currSeq);
          SameSet(sndLossList.Lost(), Range(s.lastAck, s.currSeq));
          s := s.(lost := Range(s.lastAck, s.currSeq));
        }
      }
    }

    static ghost predicate CloseRun(s: Sender, run: Run) {
      Close(s, run.lo) && Close(s, run.hi) && Near(run.lo, run.hi)
    }

    /** The numbers a..b are lost. */
    method Lose(seqno1: Wire, seqno2: Wire, ghost a: int, ghost b: int)
      requires Valid() && Bound(c, s) && s.lastAck <= a <= b <= s.currSeq && seqno1 == ToWire(a) && seqno2 == ToWire(b)
      modifies this`s, sndLossList, sndLossList.data1, sndLossList.data2, sndLossList.next
      ensures Valid() && s == old(s).(lost := old(s).lost + Range(a, b))
    {
      hide SndBuffer.Valid, SndLossList.Valid, SndLossList.Lost, ToWire;
      var num := sndLossList.Insert(seqno1, seqno2, a, b);
      SameSet(sndLossList.Lost(), s.lost + Range(a, b));
      s := s.(lost := s.lost + Range(a, b));
    }

    static lemma RunCompares(c: Config, s: Sender, run: Run)
      requires CloseRun(s, run)
      ensures Cmp(ToWire(run.lo), ToWire(run.hi)) > 0 <==> run.lo > run.hi
      ensures Cmp(ToWire(run.hi), ToWire(s.currSeq)) > 0 <==> run.hi > s.currSeq
      ensures Cmp(ToWire(run.lo), ToWire(s.currSeq)) > 0 <==> run.lo > s.currSeq
      ensures Cmp(ToWire(run.lo), ToWire(s.lastAck)) >= 0 <==> run.lo >= s.lastAck
      ensures Cmp(ToWire(run.hi), ToWire(s.lastAck)) >= 0 <==> run.hi >= s.lastAck
    {
      WindowAgreement(run.lo, run.hi);
      WindowAgreement(run.hi, s.currSeq);
      WindowAgreement(run.lo, s.currSeq);
      WindowAgreement(run.lo, s.lastAck);
      WindowAgreement(run.hi, s.lastAck);
    }

    /** One entry of a loss report. */
    method TakeEntry(words: seq<int>, i: nat, ghost runs: seq<Run>) returns (secure: bool, i2: nat)
      requires Valid() && Bound(c, s) && i < |words| && Spells(words[i..], runs)
      requires runs != [] ==> CloseRun(s, runs[0])
      modifies this`s, sndLossList, sndLossList.data1, sndLossList.data2, sndLossList.next
      ensures Valid() && runs != [] && secure == Reported(old(s), runs[0]).Some?
      ensures !secure ==> s == old(s)
      ensures secure ==> s == old(s).(lost := old(s).lost + Reported(old(s), runs[0]).value)
      ensures secure ==> i < i2 <= |words| && Spells(words[i2..], runs[1..])
    {
      hide SndBuffer.Valid, SndLossList.Valid, SndLossList.Lost, ToWire, Cmp, Range;
      RunCompares(c, s, runs[0]);
      ghost var lo, hi := runs[0].lo, runs[0].hi;
      hide CloseRun, Close;
      Advances(words, i, runs);
      if words[i] >= FLAG {
        if Cmp(words[i] - FLAG, words[i + 1]) > 0 || Cmp(words[i + 1], sndCurrSeqNo) > 0 {
          return false, i;
        }
        if Cmp(words[i] - FLAG, sndLastAck) >= 0 {
          Lose(words[i] - FLAG, words[i + 1], lo, hi);
        } else if Cmp(words[i + 1], sndLastAck) >= 0 {
          Lose(sndLastAck, words[i + 1], s.lastAck, hi);
        }
        return true, i + 2;
      } else if Cmp(words[i], sndLastAck) >= 0 {
        if Cmp(words[i], sndCurrSeqNo) > 0 {
          return false, i;
        }
        Lose(words[i], words[i], lo, lo);
      }
      return true, i + 1;
    }

    static lemma Advances(words: seq<int>, i: nat, runs: seq<Run>)
      requires i < |words| && Spells(words[i..], runs)
      ensures runs != []
      ensures words[i] >= FLAG ==>
                && i + 1 < |words| && words[i] == ToWire(runs[0].lo) + FLAG && words[i + 1] == ToWire(runs[0].hi)
                && Spells(words[i + 2..], runs[1..])
      ensures words[i] < FLAG ==>
                words[i] == ToWire(runs[0].lo) && runs[0].lo == runs[0].hi && Spells(words[i + 1..], runs[1..])
    {
      assert words[i..][1..] == words[i + 1..];
      if i + 1 < |words| {
        assert words[i..][2..] == words[i + 2..];
      }
    }

    /** From word i on, the report spells these runs. */
    static ghost predicate ToTake(c: Config, s: Sender, words: seq<int>, i: nat, rest: seq<Run>) {
      && Bound(c, s) && i <= |words| && Spells(words[i..], rest)
      && forall k :: 0 <= k < |rest| ==> CloseRun(s, rest[k])
    }

    /** A loss report. */
    method ProcessNak(words: seq<int>, ghost runs: seq<Run>)
      requires Valid() && Bound(c, s) && Spells(words, runs)
      requires forall k :: 0 <= k < |runs| ==> CloseRun(s, runs[k])
      modifies this`s, this`broken, sndLossList, sndLossList.data1, sndLossList.data2, sndLossList.next
      ensures Valid() && s == OnNak(old(s), runs)
    {
      hide SndBuffer.Valid, SndLossList.Valid, SndLossList.Lost, ToWire, Spells, CloseRun, OnNak, Bound;
      assert words[0..] == words;
      var secure := TakeReport(words, runs);
      if !secure {
        broken := true;
        s := s.(broken := true);
      }
    }

    method TakeReport(words: seq<int>, ghost runs: seq<Run>) returns (secure: bool)
      requires Valid() && ToTake(c, s, words, 0, runs)
      modifies this`s, sndLossList, sndLossList.data1, sndLossList.data2, sndLossList.next
      ensures Valid() && OnNak(old(s), runs) == if secure then s else s.(broken := true)
    {
      hide Valid, ToTake, OnNak, Reported;
      secure := true;
      var i := 0;
      ghost var rest := runs;
      while i < |words|
        invariant Valid() && ToTake(c, s, words, i, rest) && OnNak(old(s), runs) == OnNak(s, rest)
        decreases |words| - i
      {
        NakStep(c, s, words, i, rest);
        secure, i := TakeEntry(words, i, rest);
        if !secure {
          return;
        }
        NakNext(c, s, words, i, rest[1..]);
        rest := rest[1..];
      }
      NakEnd(c, s, words, i, rest);
    }

    static lemma NakStep(c: Config, s: Sender, words: seq<int>, i: nat, runs: seq<Run>)
      requires ToTake(c, s, words, i, runs) && i < |words|
      ensures Bound(c, s) && runs != [] && Spells(words[i..], runs) && CloseRun(s, runs[0])
      ensures match Reported(s, runs[0])
              case None => OnNak(s, runs) == s.(broken := true)
              case Some(more) =>
                var s1 := s.(lost := s.lost + more);
                Bound(c, s1) && OnNak(s, runs) == OnNak(s1, runs[1..])
                && forall k :: 0 <= k < |runs[1..]| ==> CloseRun(s1, runs[1..][k])
    {
    }

    static lemma NakNext(c: Config, s: Sender, words: seq<int>, i: nat, rest: seq<Run>)
      requires Bound(c, s) && i <= |words| && Spells(words[i..], rest)
      requires forall k :: 0 <= k < |rest| ==> CloseRun(s, rest[k])
      ensures ToTake(c, s, words, i, rest)
    {
    }

    static lemma NakEnd(c: Config, s: Sender, words: seq<int>, i: nat, rest: seq<Run>)
      requires ToTake(c, s, words, i, rest) && i >= |words|
      ensures OnNak(s, rest) == s
    {
    }
  }
}
