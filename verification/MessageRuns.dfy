/** Message mode over whole runs: whatever the order in which packets arrive, are acknowledged and are read, the
    calls that read return messages the peer sent, each at most once, and ordered ones in order. */
module MessageRuns {
  import opened Packets
  import opened RcvBuf
  import opened MessageMode

  // ---------- What the peer sends ----------

  /** A message handed to sendmsg. */
  datatype Msg = Msg(data: seq<byte>, inOrder: bool, number: int)

  function PacketsOfMsg(msg: Msg, mss: nat): seq<Packet>
    requires mss > 0
  {
    Chunks(msg.data, mss, true, msg.inOrder, msg.number)
  }

  /** All the packets of the messages, in the order in which they are numbered. */
  function History(msgs: seq<Msg>, mss: nat): seq<Packet>
    requires mss > 0
  {
    if msgs == [] then []
    else History(msgs[..|msgs| - 1], mss) + PacketsOfMsg(msgs[|msgs| - 1], mss)
  }

  lemma {:induction false} HistoryFramed(msgs: seq<Msg>, mss: nat)
    requires mss > 0 && forall i :: 0 <= i < |msgs| ==> msgs[i].data != []
    ensures Framed(History(msgs, mss))
  {
    if msgs != [] {
      var n := |msgs| - 1;
      HistoryFramed(msgs[..n], mss);
      ChunksFaithful(msgs[n].data, mss, msgs[n].inOrder, msgs[n].number);
      FramedAppend(History(msgs[..n], mss), PacketsOfMsg(msgs[n], mss), msgs[n].inOrder, msgs[n].number);
    }
  }

  lemma FramedAppend(history: seq<Packet>, packets: seq<Packet>, inOrder: bool, number: int)
    requires Framed(history) && packets != [] && OneMessage(packets, inOrder, number)
    ensures Framed(history + packets)
  {
    var all := history + packets;
    forall i | 0 <= i < |all| - 1 ensures all[i].msg.last <==> all[i + 1].msg.first {
      if i >= |history| {
        assert all[i] == packets[i - |history|] && all[i + 1] == packets[i + 1 - |history|];
      }
    }
  }

  /** Message k of the messages sent takes up the packets a..b. */
  ghost predicate IsMsg(msgs: seq<Msg>, mss: nat, k: int, a: int, b: int)
    requires mss > 0
  {
    && 0 <= k < |msgs| && 0 <= a <= b < |History(msgs, mss)|
    && History(msgs, mss)[a..b + 1] == PacketsOfMsg(msgs[k], mss)
    && a == |History(msgs[..k], mss)|
  }

  /** The packets between a first and the next last flag are the packets of one message that was sent. */
  lemma {:induction false} WholeMessage(msgs: seq<Msg>, mss: nat, a: int, b: int) returns (k: int)
    requires mss > 0 && IsMessage(History(msgs, mss), a, b)
    requires forall i :: 0 <= i < |msgs| ==> msgs[i].data != []
    ensures IsMsg(msgs, mss, k, a, b)
    decreases |msgs|
  {
    var n := |msgs| - 1;
    var before, packets, all := History(msgs[..n], mss), PacketsOfMsg(msgs[n], mss), History(msgs, mss);
    assert all == before + packets;
    if b < |before| {
      InPrefix(before, packets, a, b);
      k := WholeMessage(msgs[..n], mss, a, b);
      assert before[a..b + 1] == all[a..b + 1] && msgs[..n][..k] == msgs[..k];
    } else {
      ChunksFaithful(msgs[n].data, mss, msgs[n].inOrder, msgs[n].number);
      InLast(before, packets, msgs[n].inOrder, msgs[n].number, a, b);
      k := n;
    }
    hide History, PacketsOfMsg, IsMessage;
  }

  lemma InPrefix(before: seq<Packet>, packets: seq<Packet>, a: int, b: int)
    requires IsMessage(before + packets, a, b) && b < |before|
    ensures IsMessage(before, a, b)
  {
    assert forall i :: 0 <= i < |before| ==> (before + packets)[i] == before[i];
  }

  lemma InLast(before: seq<Packet>, packets: seq<Packet>, inOrder: bool, number: int, a: int, b: int)
    requires IsMessage(before + packets, a, b) && b >= |before|
    requires packets != [] && OneMessage(packets, inOrder, number)
    ensures a == |before| && b == |before| + |packets| - 1 && (before + packets)[a..b + 1] == packets
  {
    var all := before + packets;
    assert forall i :: |before| <= i < |all| ==> all[i] == packets[i - |before|];
    assert all[|before|] == packets[0];
  }

  // ---------- Runs ----------

  /** The packet offset places after the last acknowledged one arrives; so many more packets are acknowledged; a
      message of at most so many bytes is read. */
  datatype Event = Arrive(offset: nat) | Acknowledge(len: nat) | ReadMessage(len: nat)

  /** A call that read a message, what it returned, and the size of the user's buffer. */
  datatype Call = Call(ret: Return, data: seq<byte>, len: nat)

  predicate Enabled(history: seq<Packet>, m: Inbox, e: Event) {
    match e
    case Arrive(offset) =>
      offset < |m.ring.cells| - m.ring.acked - 1 && m.start + m.ring.acked + offset < |history|
    case Acknowledge(len) =>
      && len < |m.ring.cells| - m.ring.acked
      && forall i :: m.ring.acked <= i < m.ring.acked + len ==> m.ring.cells[i].Full?
    case ReadMessage(len) => m.ring.acked + m.ring.maxPos < |m.ring.cells|
  }

  function Arrived(history: seq<Packet>, m: Inbox, offset: nat): Inbox
    requires Enabled(history, m, Arrive(offset))
  {
    var i := m.ring.acked + offset;
    var cells := if m.ring.cells[i] == Empty then m.ring.cells[i := Full(history[m.start + i], 1)] else m.ring.cells;
    m.(ring := Ring(cells, m.ring.acked, if offset > m.ring.maxPos then offset else m.ring.maxPos))
  }

  function Acknowledged(m: Inbox, len: nat): Inbox {
    m.(ring := m.ring.(acked := m.ring.acked + len,
                       maxPos := if m.ring.maxPos < len then 0 else m.ring.maxPos - len))
  }

  /** One event; one that cannot happen changes nothing. */
  function Next(history: seq<Packet>, m: Inbox, e: Event): Inbox {
    if !Enabled(history, m, e) then m
    else match e
      case Arrive(offset) => Arrived(history, m, offset)
      case Acknowledge(len) => Acknowledged(m, len)
      case ReadMessage(len) => AfterRead(m).0
  }

  function Calls(history: seq<Packet>, m: Inbox, e: Event): seq<Call> {
    if e.ReadMessage? && Enabled(history, m, e) then [Call(AfterRead(m).1, MsgRead(m.ring, e.len).1, e.len)] else []
  }

  function Init(size: nat): Inbox {
    Inbox(Ring(Empties(size), 0, 0), 0, {})
  }

  /** The inbox after the events, and the calls that read, in order. */
  function Run(history: seq<Packet>, size: nat, events: seq<Event>): (Inbox, seq<Call>) {
    if events == [] then (Init(size), [])
    else
      var (m, log) := Run(history, size, events[..|events| - 1]);
      var e := events[|events| - 1];
      (Next(history, m, e), log + Calls(history, m, e))
  }

  function SpanOf(ret: Return): set<int> {
    if ret.Message? then Span(ret.a, ret.b) else {}
  }

  /** The packets of all the messages returned. */
  function ReadBy(log: seq<Call>): set<int> {
    if log == [] then {} else ReadBy(log[..|log| - 1]) + SpanOf(log[|log| - 1].ret)
  }

  /** After some calls, this call is right: it returns nothing, or the front of one whole message none of which was
      returned before; and if that message is ordered, everything before it has been returned. */
  ghost predicate GoodCall(history: seq<Packet>, before: seq<Call>, call: Call) {
    match call.ret
    case NoMessage => call.data == []
    case Message(a, b) =>
      && IsMessage(history, a, b) && call.data == Front(Concat(history[a..b + 1]), call.len)
      && Span(a, b) !! ReadBy(before)
      && (history[b].msg.inOrder ==> forall n :: 0 <= n < a ==> n in ReadBy(before))
  }

  ghost predicate GoodLog(history: seq<Packet>, log: seq<Call>) {
    forall i :: 0 <= i < |log| ==> GoodCall(history, log[..i], log[i])
  }

  lemma NextKeeps(history: seq<Packet>, m: Inbox, log: seq<Call>, e: Event)
    requires Framed(history) && Inv(history, m)
    requires m.read == ReadBy(log) && GoodLog(history, log)
    ensures var m2, log2 := Next(history, m, e), log + Calls(history, m, e);
            Inv(history, m2) && |m2.ring.cells| == |m.ring.cells| && m2.read == ReadBy(log2) && GoodLog(history, log2)
  {
    if e.ReadMessage? && Enabled(history, m, e) {
      ReadKeeps(history, m, log, e.len);
      hide Inv, Framed, GoodLog, ReadBy;
    } else {
      hide GoodLog, ReadBy, Framed;
      assert log + Calls(history, m, e) == log;
      QuietKeeps(history, m, e);
    }
  }

  lemma QuietKeeps(history: seq<Packet>, m: Inbox, e: Event)
    requires Inv(history, m) && (Enabled(history, m, e) ==> !e.ReadMessage?)
    ensures var m2 := Next(history, m, e);
            Inv(history, m2) && |m2.ring.cells| == |m.ring.cells| && m2.read == m.read
  {
    hide Inv;
    if Enabled(history, m, e) {
      if e.Arrive? {
        ArriveKeeps(history, m, e.offset);
      } else {
        AckKeeps(history, m, e.len);
      }
    }
  }

  lemma ArriveKeeps(history: seq<Packet>, m: Inbox, offset: nat)
    requires Inv(history, m) && Enabled(history, m, Arrive(offset))
    ensures Inv(history, Arrived(history, m, offset))
  {
    hide Inv;
    if m.ring.cells[m.ring.acked + offset] == Empty {
      AddKeeps(history, m, offset);
    } else {
      RingRoom(history, m);
      BumpKeeps(history, m, Arrived(history, m, offset));
    }
  }

  /** Only the furthest position changes. */
  lemma BumpKeeps(history: seq<Packet>, m: Inbox, m2: Inbox)
    requires Inv(history, m) && m2 == m.(ring := m.ring.(maxPos := m2.ring.maxPos))
    requires m.ring.maxPos <= m2.ring.maxPos && m2.ring.acked + m2.ring.maxPos < |m.ring.cells|
    ensures Inv(history, m2)
  {
    hide MessagesWhole;
    SameWhole(history, m, m2);
  }

  lemma ReadKeeps(history: seq<Packet>, m: Inbox, log: seq<Call>, len: nat)
    requires Framed(history) && Inv(history, m)
    requires m.read == ReadBy(log) && GoodLog(history, log) && m.ring.acked + m.ring.maxPos < |m.ring.cells|
    ensures var m2, log2 := AfterRead(m).0, log + [Call(AfterRead(m).1, MsgRead(m.ring, len).1, len)];
            Inv(history, m2) && |m2.ring.cells| == |m.ring.cells| && m2.read == ReadBy(log2) && GoodLog(history, log2)
  {
    var m2, ret := ReadStep(history, m, len);
    hide Framed, Inv, AfterRead, MsgRead, Returned, ReadBy, Skipped, NextHit;
    CallIsGood(history, m, m2, log, ret, MsgRead(m.ring, len).1, len);
    hide GoodCall, GoodLog;
    LogAppend(history, log, Call(ret, MsgRead(m.ring, len).1, len));
  }

  lemma CallIsGood(history: seq<Packet>, m: Inbox, m2: Inbox, log: seq<Call>, ret: Return, data: seq<byte>, len: nat)
    requires Returned(history, m, m2, ret, data, len) && m.read == ReadBy(log)
    ensures GoodCall(history, log, Call(ret, data, len)) && m2.read == m.read + SpanOf(ret)
  {
    hide IsMessage, Front, Concat, ReadBy;
    assert m2.read == m.read + SpanOf(ret);
  }

  lemma LogAppend(history: seq<Packet>, log: seq<Call>, call: Call)
    requires GoodLog(history, log) && GoodCall(history, log, call)
    ensures GoodLog(history, log + [call]) && ReadBy(log + [call]) == ReadBy(log) + SpanOf(call.ret)
  {
    hide GoodCall;
    var log2 := log + [call];
    assert log2[..|log|] == log;
    forall i | 0 <= i < |log2| ensures GoodCall(history, log2[..i], log2[i]) {
      if i < |log| {
        assert log2[..i] == log[..i];
      }
    }
  }

  /** In every run, every call that reads a message is right. */
  lemma {:induction false} EveryRun(history: seq<Packet>, size: nat, events: seq<Event>)
    requires Framed(history) && size > 0
    ensures var (m, log) := Run(history, size, events);
            Inv(history, m) && |m.ring.cells| == size && m.read == ReadBy(log) && GoodLog(history, log)
  {
    if events != [] {
      var before := events[..|events| - 1];
      EveryRun(history, size, before);
      hide Inv, Framed, GoodLog, Next, Calls;
      NextKeeps(history, Run(history, size, before).0, Run(history, size, before).1, events[|events| - 1]);
    }
  }

  lemma {:induction false} ReadByHas(log: seq<Call>, i: nat)
    requires i < |log|
    ensures SpanOf(log[i].ret) <= ReadBy(log)
  {
    if i < |log| - 1 {
      ReadByHas(log[..|log| - 1], i);
    }
  }

  /** No two calls of a run return the same packet, so no message is returned twice. */
  lemma AtMostOnce(history: seq<Packet>, size: nat, events: seq<Event>, i: nat, j: nat)
    requires Framed(history) && size > 0
    requires i < j < |Run(history, size, events).1|
    ensures var log := Run(history, size, events).1; SpanOf(log[i].ret) !! SpanOf(log[j].ret)
  {
    EveryRun(history, size, events);
    var log := Run(history, size, events).1;
    assert GoodCall(history, log[..j], log[j]);
    ReadByHas(log[..j], i);
  }

  /** When the peer sends these messages, what a call returns is the front of one of them. */
  lemma ReturnsSent(msgs: seq<Msg>, mss: nat, size: nat, events: seq<Event>, i: nat) returns (k: int)
    requires mss > 0 && size > 0 && (forall i :: 0 <= i < |msgs| ==> msgs[i].data != [])
    requires i < |Run(History(msgs, mss), size, events).1|
    ensures var call := Run(History(msgs, mss), size, events).1[i];
            call.data != [] ==>
              && call.ret.Message? && IsMsg(msgs, mss, k, call.ret.a, call.ret.b)
              && call.data == Front(msgs[k].data, call.len)
  {
    var history := History(msgs, mss);
    HistoryFramed(msgs, mss);
    EveryRun(history, size, events);
    var log := Run(history, size, events).1;
    assert GoodCall(history, log[..i], log[i]);
    if log[i].ret.Message? {
      k := WholeMessage(msgs, mss, log[i].ret.a, log[i].ret.b);
      ChunksFaithful(msgs[k].data, mss, msgs[k].inOrder, msgs[k].number);
    } else {
      k := 0;
    }
  }

  /** A message that has as many packets as the buffer has cells, or more, is never returned. */
  lemma {:induction false} NoneTooLong(history: seq<Packet>, size: nat, events: seq<Event>, i: nat)
    requires Framed(history) && size > 0 && i < |Run(history, size, events).1|
    ensures var ret := Run(history, size, events).1[i].ret; ret.Message? ==> ret.b - ret.a + 1 < size
  {
    var before, e := events[..|events| - 1], events[|events| - 1];
    var (m, log) := Run(history, size, before);
    EveryRun(history, size, before);
    if i < |log| {
      NoneTooLong(history, size, before, i);
    } else {
      var m2, ret := ReadStep(history, m, e.len);
      hide Framed, Inv, GoodLog, Next;
    }
  }
}
