/** What the receive buffer promises in message mode: whole messages, each at most once, ordered ones in order.

    history is the list of packets as the peer numbered them, from its first packet on; the buffer is a window on it. */
module MessageMode {
  import opened Packets
  import opened RcvBuf

  /** Messages follow one another without gaps. */
  ghost predicate Framed(history: seq<Packet>) {
    && (history != [] ==> history[0].msg.first && history[|history| - 1].msg.last)
    && forall i :: 0 <= i < |history| - 1 ==> (history[i].msg.last <==> history[i + 1].msg.first)
  }

  /** The packets first..last are one whole message. */
  ghost predicate IsMessage(history: seq<Packet>, a: int, b: int) {
    && 0 <= a <= b < |history| && history[a].msg.first && history[b].msg.last
    && (forall i :: a < i <= b ==> !history[i].msg.first)
    && (forall i :: a <= i < b ==> !history[i].msg.last)
  }

  /** The buffer, the index in the history of its cell 0, and the packets whose message has been returned. */
  datatype Inbox = Inbox(ring: Ring, start: nat, read: set<int>)

  /** Full cells hold the packets with their numbers, and lie no further than the furthest position; what is
      acknowledged is full; the last cell is always empty. */
  ghost predicate Window(history: seq<Packet>, m: Inbox) {
    && m.ring.acked + m.ring.maxPos < |m.ring.cells| && m.ring.cells[|m.ring.cells| - 1] == Empty
    && (forall i :: 0 <= i < |m.ring.cells| && m.ring.cells[i].Full? ==>
          && i <= m.ring.acked + m.ring.maxPos
          && m.start + i < |history| && m.ring.cells[i].packet == history[m.start + i]
          && (m.ring.cells[i].flag == if m.start + i in m.read then 2 else 1))
    && (forall i :: 0 <= i < m.ring.acked ==> m.ring.cells[i].Full?)
  }

  ghost predicate MessagesWhole(history: seq<Packet>, m: Inbox) {
    && (forall n :: 0 <= n < m.start ==> n in m.read)
    && (forall n :: n in m.read ==> 0 <= n < |history|)
    && (forall n :: n in m.read && m.start <= n ==> n - m.start < |m.ring.cells| && m.ring.cells[n - m.start].Full?)
    && (forall n {:trigger history[n]} :: n in m.read && !history[n].msg.last ==> n + 1 in m.read)
    && (forall n {:trigger history[n]} :: n in m.read && !history[n].msg.first ==> n - 1 in m.read)
  }

  ghost predicate Inv(history: seq<Packet>, m: Inbox) {
    Window(history, m) && MessagesWhole(history, m)
  }

  // ---------- Packets arriving and being acknowledged ----------

  lemma AddKeeps(history: seq<Packet>, m: Inbox, offset: nat)
    requires Inv(history, m) && offset < |m.ring.cells| - m.ring.acked - 1
    requires m.start + m.ring.acked + offset < |history| && m.ring.cells[m.ring.acked + offset] == Empty
    ensures var i := m.ring.acked + offset;
            var ring := Ring(m.ring.cells[i := Full(history[m.start + i], 1)], m.ring.acked,
                             if offset > m.ring.maxPos then offset else m.ring.maxPos);
            Inv(history, m.(ring := ring))
  {
    RingRoom(history, m);
    hide Window, MessagesWhole;
    var i := m.ring.acked + offset;
    var cells := m.ring.cells[i := Full(history[m.start + i], 1)];
    var maxPos := if offset > m.ring.maxPos then offset else m.ring.maxPos;
    var m2 := m.(ring := Ring(cells, m.ring.acked, maxPos));
    AddWindow(history, m, m2, i);
    AddWhole(history, m, m2, i);
  }

  lemma AddWindow(history: seq<Packet>, m: Inbox, m2: Inbox, i: nat)
    requires Inv(history, m) && m.ring.acked <= i < |m.ring.cells| - 1 && m.start + i < |history| && m.ring.cells[i] == Empty
    requires m2 == m.(ring := Ring(m.ring.cells[i := Full(history[m.start + i], 1)], m.ring.acked, m2.ring.maxPos))
    requires m2.ring.acked + m2.ring.maxPos < |m.ring.cells| && m.ring.maxPos <= m2.ring.maxPos && i - m.ring.acked <= m2.ring.maxPos
    ensures Window(history, m2)
  {
    assert forall n :: n in m.read && m.start <= n ==> n - m.start < |m.ring.cells| && m.ring.cells[n - m.start].Full?;
    assert m.start + i - m.start == i;
    hide MessagesWhole;
  }

  lemma AddWhole(history: seq<Packet>, m: Inbox, m2: Inbox, i: nat)
    requires MessagesWhole(history, m) && i < |m.ring.cells| && m.start + i < |history|
    requires m2 == m.(ring := Ring(m.ring.cells[i := Full(history[m.start + i], 1)], m.ring.acked, m2.ring.maxPos))
    ensures MessagesWhole(history, m2)
  {
  }

  lemma AckKeeps(history: seq<Packet>, m: Inbox, len: nat)
    requires Inv(history, m) && len < |m.ring.cells| - m.ring.acked
    requires forall i :: m.ring.acked <= i < m.ring.acked + len ==> m.ring.cells[i].Full?
    ensures Inv(history, m.(ring := m.ring.(acked := m.ring.acked + len,
                                            maxPos := if m.ring.maxPos < len then 0 else m.ring.maxPos - len)))
  {
    var m2 := m.(ring := m.ring.(acked := m.ring.acked + len,
                                 maxPos := if m.ring.maxPos < len then 0 else m.ring.maxPos - len));
    AckWindow(history, m, m2, len);
    hide Window;
    SameWhole(history, m, m2);
    hide MessagesWhole;
  }

  lemma AckWindow(history: seq<Packet>, m: Inbox, m2: Inbox, len: nat)
    requires Window(history, m) && len < |m.ring.cells| - m.ring.acked
    requires forall i :: m.ring.acked <= i < m.ring.acked + len ==> m.ring.cells[i].Full?
    requires m2 == m.(ring := m.ring.(acked := m.ring.acked + len,
                                      maxPos := if m.ring.maxPos < len then 0 else m.ring.maxPos - len))
    ensures Window(history, m2)
  {
  }

  lemma SameWhole(history: seq<Packet>, m: Inbox, m2: Inbox)
    requires MessagesWhole(history, m) && m2.start == m.start && m2.read == m.read && m2.ring.cells == m.ring.cells
    ensures MessagesWhole(history, m2)
  {
  }

  // ---------- Skipping at the start ----------

  function Step(m: Inbox): Inbox
    requires m.ring.acked > 0 && m.ring.cells != []
  {
    Inbox(Ring(m.ring.cells[1..] + [Empty], m.ring.acked - 1, m.ring.maxPos), m.start + 1, m.read)
  }

  /** All the cells of an unread message that have been acknowledged are good. */
  lemma {:induction false} GoodFrom(history: seq<Packet>, m: Inbox, k: nat)
    requires Framed(history) && Inv(history, m) && k <= m.ring.acked
    requires k < m.ring.acked ==> m.start + k !in m.read
    ensures GoodAhead(m.ring.cells[..m.ring.acked][k..])
    decreases m.ring.acked - k
  {
    var acked, n := m.ring.cells[..m.ring.acked], m.start + k;
    if k < m.ring.acked {
      assert acked[k..][0] == m.ring.cells[k] == Full(history[n], 1);
      if !history[n].msg.last {
        assert acked[k..][1..] == acked[k + 1..];
        if k + 1 < m.ring.acked {
          assert m.ring.cells[k + 1].Full? && !history[n + 1].msg.first;
          GoodFrom(history, m, k + 1);
        }
      }
    }
  }

  lemma UnreadIsGood(history: seq<Packet>, m: Inbox)
    requires Framed(history) && Inv(history, m) && m.ring.acked > 0 && m.start !in m.read
    ensures GoodStart(m.ring.cells[..m.ring.acked])
  {
    var acked := m.ring.cells[..m.ring.acked];
    assert acked[0] == m.ring.cells[0] && m.ring.cells[0].Full?;
    GoodFrom(history, m, 0);
    assert acked[0..] == acked;
    if m.start > 0 {
      assert m.start - 1 in m.read;
      assert history[m.start - 1].msg.last;
    }
  }

  lemma StepKeeps(history: seq<Packet>, m: Inbox)
    requires Inv(history, m) && m.ring.acked > 0 && m.start in m.read
    ensures Inv(history, Step(m))
  {
    assert Empties(1) == [Empty];
    FrontLeaves(history, m, Step(m), 1);
  }

  function Skipping(m: Inbox): Inbox
    requires m.ring.acked <= |m.ring.cells|
  {
    Inbox(Skipped(m.ring), m.start + SkipBad(m.ring.cells[..m.ring.acked]), m.read)
  }

  /** Skipping bad messages loses nothing that has not been read. */
  lemma {:induction false} SkipKeeps(history: seq<Packet>, m: Inbox) returns (m2: Inbox)
    requires Framed(history) && Inv(history, m)
    ensures m2 == Skipping(m) && Inv(history, m2)
    ensures m2.ring.acked == 0 || GoodStart(m2.ring.cells[..m2.ring.acked])
    decreases m.ring.acked
  {
    hide Framed, MessagesWhole, GoodStart;
    var acked := m.ring.cells[..m.ring.acked];
    hide Window;
    if m.ring.acked == 0 || GoodStart(acked) {
      assert m.ring.cells[0..] + Empties(0) == m.ring.cells;
      m2 := m;
    } else {
      hide Skipping;
      if m.start !in m.read {
        UnreadIsGood(history, m);
      }
      StepKeeps(history, m);
      m2 := SkipKeeps(history, Step(m));
      SkippedStep(m);
    }
  }

  lemma SkippedStep(m: Inbox)
    requires 0 < m.ring.acked <= |m.ring.cells| && !GoodStart(m.ring.cells[..m.ring.acked])
    ensures Skipping(Step(m)) == Skipping(m)
  {
    OneSkipped(m.ring);
    assert m.ring.cells[..m.ring.acked][1..] == Step(m).ring.cells[..Step(m).ring.acked];
    hide GoodStart, Skipped;
  }

  // ---------- Finding a message ----------

  /** The search stands at cell q, in a message that began at cell head (or in none, if head is -1). */
  ghost predicate Searching(history: seq<Packet>, m: Inbox, q: nat, head: int) {
    && -1 <= head < q
    && (head != -1 ==>
          && q <= |m.ring.cells| && m.start + q <= |history| && history[m.start + head].msg.first
          && (forall i :: head <= i < q ==> m.ring.cells[i].Full? && m.ring.cells[i].flag == 1)
          && (forall n :: m.start + head < n < m.start + q ==> !history[n].msg.first))
  }

  lemma NoneInside(history: seq<Packet>, a: int, b: int)
    requires Framed(history) && 0 <= a <= b < |history| && history[a].msg.first && history[b].msg.last
    requires forall i :: a < i <= b ==> !history[i].msg.first
    ensures IsMessage(history, a, b)
  {
    forall i | a <= i < b ensures !history[i].msg.last {
      assert !history[i + 1].msg.first;
    }
  }

  /** One step of the search over a cell that holds an unread packet. */
  lemma SearchStep(history: seq<Packet>, m: Inbox, q: nat, head: int)
    requires Framed(history) && Inv(history, m) && q < |m.ring.cells| && Searching(history, m, q, head)
    requires m.ring.cells[q].Full? && m.ring.cells[q].flag == 1
    ensures m.start + q < |history| && m.ring.cells[q].packet == history[m.start + q]
    ensures var msg := history[m.start + q].msg;
            var head2 := if msg.first then q else head;
            && Searching(history, m, q + 1, head2)
            && (msg.last && head2 != -1 ==>
                  IsMessage(history, m.start + head2, m.start + q) && Unread(m, head2, q))
  {
    hide Framed, MessagesWhole;
    assert m.start + q < |history| && m.ring.cells[q].packet == history[m.start + q];
    hide Window;
    var msg := history[m.start + q].msg;
    var head2 := if msg.first then q else head;
    assert Searching(history, m, q + 1, head2);
    if msg.last && head2 != -1 {
      SearchEnd(history, m, q, head2);
    }
    hide Searching, Unread, IsMessage;
  }

  lemma SearchEnd(history: seq<Packet>, m: Inbox, q: nat, head: int)
    requires Framed(history) && Searching(history, m, q + 1, head) && head != -1 && m.start + q < |history|
    requires history[m.start + q].msg.last
    ensures IsMessage(history, m.start + head, m.start + q) && Unread(m, head, q)
  {
    NoneInside(history, m.start + head, m.start + q);
    hide IsMessage, Framed;
  }

  ghost predicate Unread(m: Inbox, head: int, tail: int) {
    && 0 <= head <= tail < |m.ring.cells|
    && forall i :: head <= i <= tail ==> m.ring.cells[i].Full? && m.ring.cells[i].flag == 1
  }

  /** What the search finds is one whole message that has not been read, and an ordered one only if it has been
      acknowledged to its end. */
  lemma {:induction false} ScanFindsMessage(history: seq<Packet>, m: Inbox, n: int, q: nat, head: int)
    requires Framed(history) && Inv(history, m) && n < |m.ring.cells| && Searching(history, m, q, head)
    ensures var hit := Scan(m.ring.cells, m.ring.acked, n, q, head);
            hit.Found? ==>
              && Unread(m, hit.head, hit.tail) && hit.tail <= n
              && IsMessage(history, m.start + hit.head, m.start + hit.tail)
              && (history[m.start + hit.tail].msg.inOrder ==> hit.tail < m.ring.acked)
    decreases n - q
  {
    hide Framed, Inv, IsMessage, Unread;
    if q <= n {
      var c := m.ring.cells[q];
      if c.Full? && c.flag == 1 {
        SearchStep(history, m, q, head);
        hide Searching;
        var head2 := if c.packet.msg.first then q else head;
        if !(c.packet.msg.last && head2 != -1 && (q < m.ring.acked || !c.packet.msg.inOrder)) {
          ScanFindsMessage(history, m, n, q + 1, head2);
        }
      } else {
        ScanFindsMessage(history, m, n, q + 1, -1);
      }
    }
  }

  /** While the search is inside a good first message, it has not left it. */
  lemma {:induction false} ScanFindsFirst(history: seq<Packet>, m: Inbox, n: int, q: nat)
    requires Framed(history) && Window(history, m) && 0 < q <= m.ring.acked <= n + 1 <= |m.ring.cells|
    requires GoodAhead(m.ring.cells[..m.ring.acked][q..])
    requires forall i :: 0 <= i < q ==> m.ring.cells[i].Full? && !m.ring.cells[i].packet.msg.last
    ensures var hit := Scan(m.ring.cells, m.ring.acked, n, q, 0);
            hit.Found? && hit.tail < m.ring.acked ==> hit.head == 0
    decreases m.ring.acked - q
  {
    var acked := m.ring.cells[..m.ring.acked];
    if q == m.ring.acked {
      ScanAfter(m.ring.cells, m.ring.acked, n, q, 0);
    } else {
      assert acked[q..][0] == m.ring.cells[q] && acked[q..][1..] == acked[q + 1..];
      assert m.ring.cells[q - 1].packet == history[m.start + q - 1];
      assert !history[m.start + q].msg.first;
      if !m.ring.cells[q].packet.msg.last {
        ScanFindsFirst(history, m, n, q + 1);
      }
    }
  }

  lemma {:induction false} ScanAfter(cells: seq<Cell>, acked: int, n: int, q: int, head: int)
    requires 0 <= q && n < |cells|
    ensures Scan(cells, acked, n, q, head).Found? ==> Scan(cells, acked, n, q, head).tail >= q
    decreases n - q
  {
    if q <= n {
      ScanAfter(cells, acked, n, q + 1, -1);
      ScanAfter(cells, acked, n, q + 1, q);
      ScanAfter(cells, acked, n, q + 1, head);
    }
  }

  /** After skipping, a message that is found among the acknowledged cells starts in the first cell. */
  lemma FoundFirst(history: seq<Packet>, m: Inbox)
    requires Framed(history) && Inv(history, m) && m.ring.acked > 0 && GoodStart(m.ring.cells[..m.ring.acked])
    ensures var hit := NextHit(m.ring); hit.Found? && hit.tail < m.ring.acked ==> hit.head == 0
  {
    var acked := m.ring.cells[..m.ring.acked];
    assert acked[0] == m.ring.cells[0];
    if !m.ring.cells[0].packet.msg.last {
      ScanFindsFirst(history, m, m.ring.acked + m.ring.maxPos, 1);
    }
  }

  // ---------- Reading a message ----------

  /** The packets a..b. */
  function Span(a: int, b: int): (r: set<int>)
    ensures forall n :: n in r <==> a <= n <= b
    decreases b - a
  {
    if a > b then {} else Span(a, b - 1) + {b}
  }

  /** The packets read are closed under taking a whole message. */
  lemma UnionKeeps(history: seq<Packet>, read: set<int>, a: int, b: int)
    requires IsMessage(history, a, b) && forall n :: n in read ==> 0 <= n < |history|
    requires forall n {:trigger history[n]} :: n in read && !history[n].msg.last ==> n + 1 in read
    requires forall n {:trigger history[n]} :: n in read && !history[n].msg.first ==> n - 1 in read
    ensures var read2 := read + Span(a, b);
            && (forall n :: n in read2 ==> 0 <= n < |history|)
            && (forall n {:trigger history[n]} :: n in read2 && !history[n].msg.last ==> n + 1 in read2)
            && (forall n {:trigger history[n]} :: n in read2 && !history[n].msg.first ==> n - 1 in read2)
  {
  }

  /** An unread message at the start, acknowledged to its end, leaves the buffer. */
  lemma TakeAcked(history: seq<Packet>, m: Inbox, tail: nat) returns (m2: Inbox)
    requires Inv(history, m) && Unread(m, 0, tail) && tail < m.ring.acked
    requires IsMessage(history, m.start, m.start + tail)
    ensures AllFull(m.ring.cells[0..tail + 1]) && Inv(history, m2)
    ensures m2 == Inbox(Consumed(m.ring, 0, tail), m.start + tail + 1, m.read + Span(m.start, m.start + tail))
  {
    ConsumedFront(m.ring, tail);
    var ring := Ring(m.ring.cells[tail + 1..] + Empties(tail + 1), m.ring.acked - tail - 1, m.ring.maxPos);
    m2 := Inbox(ring, m.start + tail + 1, m.read + Span(m.start, m.start + tail));
    UnionKeeps(history, m.read, m.start, m.start + tail);
    hide Consumed, IsMessage, Unread;
    FrontLeaves(history, m, m2, tail + 1);
  }

  lemma FrontLeaves(history: seq<Packet>, m: Inbox, m2: Inbox, k: nat)
    requires Inv(history, m) && k <= m.ring.acked && m2.start == m.start + k
    requires m2.ring == Ring(m.ring.cells[k..] + Empties(k), m.ring.acked - k, m.ring.maxPos)
    requires forall n :: n in m2.read <==> n in m.read || m.start <= n < m.start + k
    requires forall n :: n in m2.read ==> 0 <= n < |history|
    requires forall n {:trigger history[n]} :: n in m2.read && !history[n].msg.last ==> n + 1 in m2.read
    requires forall n {:trigger history[n]} :: n in m2.read && !history[n].msg.first ==> n - 1 in m2.read
    ensures Inv(history, m2)
  {
    ShiftedWindow(history, m, m2, k);
    ShiftedWhole(history, m, m2, k);
    hide Window, MessagesWhole;
  }

  lemma ShiftedWindow(history: seq<Packet>, m: Inbox, m2: Inbox, k: nat)
    requires Window(history, m) && k <= m.ring.acked <= |m.ring.cells| && m2.start == m.start + k
    requires m2.ring == Ring(m.ring.cells[k..] + Empties(k), m.ring.acked - k, m.ring.maxPos)
    requires forall n :: n in m2.read <==> n in m.read || m.start <= n < m.start + k
    ensures Window(history, m2)
  {
    forall i | 0 <= i < |m2.ring.cells| && m2.ring.cells[i].Full? ensures m2.ring.cells[i] == m.ring.cells[i + k] {
    }
  }

  lemma ShiftedWhole(history: seq<Packet>, m: Inbox, m2: Inbox, k: nat)
    requires MessagesWhole(history, m) && k <= |m.ring.cells| && m2.start == m.start + k
    requires m2.ring.cells == m.ring.cells[k..] + Empties(k)
    requires forall n :: n in m2.read <==> n in m.read || m.start <= n < m.start + k
    requires forall n :: n in m2.read ==> 0 <= n < |history|
    requires forall n {:trigger history[n]} :: n in m2.read && !history[n].msg.last ==> n + 1 in m2.read
    requires forall n {:trigger history[n]} :: n in m2.read && !history[n].msg.first ==> n - 1 in m2.read
    ensures MessagesWhole(history, m2)
  {
    forall n | n in m2.read && m2.start <= n
      ensures n - m2.start < |m2.ring.cells| && m2.ring.cells[n - m2.start].Full?
    {
      assert m.ring.cells[n - m.start].Full?;
    }
  }

  lemma ConsumedFront(r: Ring, tail: nat)
    requires tail < r.acked <= |r.cells| && AllFull(r.cells[0..tail + 1])
    ensures Consumed(r, 0, tail) == Ring(r.cells[tail + 1..] + Empties(tail + 1), r.acked - tail - 1, r.maxPos)
  {
    var blank := Empties(tail + 1) + r.cells[tail + 1..];
    assert r.cells[..0] + Empties(tail + 1) + r.cells[tail + 1..] == blank;
  }

  /** An unread message not acknowledged to its end stays in the buffer, marked as read. */
  lemma TakeMarked(history: seq<Packet>, m: Inbox, head: nat, tail: nat) returns (m2: Inbox)
    requires Inv(history, m) && Unread(m, head, tail) && m.ring.acked <= tail
    requires IsMessage(history, m.start + head, m.start + tail)
    ensures AllFull(m.ring.cells[head..tail + 1]) && Inv(history, m2)
    ensures m2 == Inbox(Consumed(m.ring, head, tail), m.start, m.read + Span(m.start + head, m.start + tail))
  {
    ConsumedMarks(m.ring, head, tail);
    m2 := Inbox(Consumed(m.ring, head, tail), m.start, m.read + Span(m.start + head, m.start + tail));
    hide Consumed;
    MarkedWindow(history, m, m2, head, tail);
    MarkedWhole(history, m, m2, head, tail);
    hide Window, MessagesWhole;
  }

  lemma MarkedWindow(history: seq<Packet>, m: Inbox, m2: Inbox, head: nat, tail: nat)
    requires Window(history, m) && Unread(m, head, tail) && m2.start == m.start && |m2.ring.cells| == |m.ring.cells|
    requires m2.read == m.read + Span(m.start + head, m.start + tail)
    requires m2.ring.acked == m.ring.acked && m2.ring.maxPos == m.ring.maxPos
    requires forall i :: 0 <= i < |m.ring.cells| ==>
               m2.ring.cells[i] == if head <= i <= tail then Full(m.ring.cells[i].packet, 2) else m.ring.cells[i]
    ensures Window(history, m2)
  {
  }

  lemma MarkedWhole(history: seq<Packet>, m: Inbox, m2: Inbox, head: nat, tail: nat)
    requires MessagesWhole(history, m) && Unread(m, head, tail) && m2.start == m.start && |m2.ring.cells| == |m.ring.cells|
    requires IsMessage(history, m.start + head, m.start + tail)
    requires m2.read == m.read + Span(m.start + head, m.start + tail)
    requires forall i :: 0 <= i < |m.ring.cells| ==>
               m2.ring.cells[i] == if head <= i <= tail then Full(m.ring.cells[i].packet, 2) else m.ring.cells[i]
    ensures MessagesWhole(history, m2)
  {
    UnionKeeps(history, m.read, m.start + head, m.start + tail);
    hide IsMessage;
  }

  lemma ConsumedMarks(r: Ring, head: nat, tail: nat)
    requires head <= tail < |r.cells| && r.acked <= tail && forall i :: head <= i <= tail ==> r.cells[i].Full?
    ensures AllFull(r.cells[head..tail + 1])
    ensures var r2 := Consumed(r, head, tail);
            && r2.acked == r.acked && r2.maxPos == r.maxPos
            && forall i :: 0 <= i < |r.cells| ==>
                 r2.cells[i] == if head <= i <= tail then Full(r.cells[i].packet, 2) else r.cells[i]
  {
  }

  lemma SamePackets(history: seq<Packet>, m: Inbox, head: nat, tail: nat)
    requires Inv(history, m) && Unread(m, head, tail)
    ensures tail < |m.ring.cells| && m.start + tail < |history| && AllFull(m.ring.cells[head..tail + 1])
    ensures PacketsOf(m.ring.cells[head..tail + 1]) == history[m.start + head..m.start + tail + 1]
    ensures forall n :: m.start + head <= n <= m.start + tail ==> n !in m.read
  {
    assert m.ring.cells[tail].Full?;
    forall n | m.start + head <= n <= m.start + tail ensures n !in m.read {
      assert m.ring.cells[n - m.start].Full?;
    }
  }

  /** What a call returned: nothing, or the message of packets a..b. */
  datatype Return = NoMessage | Message(a: int, b: int)

  /** The bytes are the first len of one whole message none of whose packets was returned before, and one that must
      be delivered in order comes only after all earlier packets. */
  ghost predicate Returned(history: seq<Packet>, m: Inbox, m2: Inbox, ret: Return, data: seq<byte>, len: nat) {
    match ret
    case NoMessage => data == [] && m2.read == m.read
    case Message(a, b) =>
      && IsMessage(history, a, b) && data == Front(Concat(history[a..b + 1]), len)
      && (forall n :: a <= n <= b ==> n !in m.read)
      && m2.read == m.read + Span(a, b)
      && (history[b].msg.inOrder ==> forall n :: 0 <= n < a ==> n in m.read)
  }

  function Taking(m: Inbox, hit: Hit): Inbox
    requires hit.Found? ==> 0 <= hit.head <= hit.tail < |m.ring.cells| && AllFull(m.ring.cells[hit.head..hit.tail + 1])
  {
    match hit
    case Nothing(_) => m
    case Found(head, tail) =>
      Inbox(Consumed(m.ring, head, tail), if tail < m.ring.acked then m.start + tail + 1 else m.start,
            m.read + Span(m.start + head, m.start + tail))
  }

  function ReturnOf(m: Inbox, hit: Hit): Return {
    if hit.Found? then Message(m.start + hit.head, m.start + hit.tail) else NoMessage
  }

  /** The inbox after a call that reads a message, and which message that was. */
  function AfterRead(m: Inbox): (Inbox, Return)
    requires m.ring.acked + m.ring.maxPos < |m.ring.cells|
  {
    if m.ring.acked == 0 && m.ring.maxPos == 0 then (m, NoMessage)
    else
      var m1 := Skipping(m);
      var hit := NextHit(m1.ring);
      (Taking(m1, hit), ReturnOf(m1, hit))
  }

  /** Every call that reads a message returns nothing or one whole, new message, and keeps the invariant. */
  lemma ReadStep(history: seq<Packet>, m: Inbox, len: nat) returns (m2: Inbox, ret: Return)
    requires Framed(history) && Inv(history, m)
    ensures (m2, ret) == AfterRead(m) && m2.ring == MsgRead(m.ring, len).0
    ensures Inv(history, m2) && |m2.ring.cells| == |m.ring.cells|
    ensures ret.Message? ==> ret.b - ret.a < |m.ring.cells| - 1
    ensures Returned(history, m, m2, ret, MsgRead(m.ring, len).1, len)
  {
    var m1 := SkipKeeps(history, m);
    var hit := FoundMessage(history, m1);
    if m.ring.acked == 0 && m.ring.maxPos == 0 {
      m2, ret := m, NoMessage;
    } else {
      hide Inv, Framed, IsMessage, Unread, NextHit, Skipping, Taken, Taking, GoodStart;
      m2, ret := TakeHit(history, m1, hit, len);
      SameReturn(history, m, m1, m2, ret, Taken(m1.ring, hit, len).1, len);
    }
  }

  lemma SameReturn(history: seq<Packet>, m: Inbox, m1: Inbox, m2: Inbox, ret: Return, data: seq<byte>, len: nat)
    requires Returned(history, m1, m2, ret, data, len) && m1.read == m.read
    ensures Returned(history, m, m2, ret, data, len)
  {
  }

  ghost predicate FoundUnread(history: seq<Packet>, m: Inbox, head: int, tail: int) {
    && 0 <= head <= tail && tail - head < |m.ring.cells| - 1 && Unread(m, head, tail)
    && IsMessage(history, m.start + head, m.start + tail)
    && (tail < m.ring.acked ==> head == 0)
    && (history[m.start + tail].msg.inOrder ==> tail < m.ring.acked && forall n :: 0 <= n < m.start ==> n in m.read)
  }

  lemma TakeHit(history: seq<Packet>, m: Inbox, hit: Hit, len: nat) returns (m2: Inbox, ret: Return)
    requires Inv(history, m) && (hit.Found? ==> FoundUnread(history, m, hit.head, hit.tail))
    ensures hit.Found? ==> 0 <= hit.head <= hit.tail < |m.ring.cells| && AllFull(m.ring.cells[hit.head..hit.tail + 1])
    ensures m2 == Taking(m, hit) && ret == ReturnOf(m, hit) && m2.ring == Taken(m.ring, hit, len).0
    ensures Inv(history, m2) && |m2.ring.cells| == |m.ring.cells|
    ensures Returned(history, m, m2, ret, Taken(m.ring, hit, len).1, len)
  {
    hide Inv, IsMessage, Unread;
    if hit.Nothing? {
      m2, ret := m, NoMessage;
    } else {
      m2 := TakeFound(history, m, hit.head, hit.tail);
      hide Consumed, Front, Concat;
      ret := Message(m.start + hit.head, m.start + hit.tail);
    }
  }

  lemma TakeFound(history: seq<Packet>, m: Inbox, head: nat, tail: nat) returns (m2: Inbox)
    requires Inv(history, m) && FoundUnread(history, m, head, tail)
    ensures tail < |m.ring.cells| && m.start + tail < |history| && AllFull(m.ring.cells[head..tail + 1])
    ensures PacketsOf(m.ring.cells[head..tail + 1]) == history[m.start + head..m.start + tail + 1]
    ensures forall n :: m.start + head <= n <= m.start + tail ==> n !in m.read
    ensures m2 == Taking(m, Found(head, tail)) && Inv(history, m2)
  {
    hide Inv, IsMessage, Unread, Taking, AllFull;
    SamePackets(history, m, head, tail);
    if tail < m.ring.acked {
      m2 := TakeAcked(history, m, tail);
    } else {
      m2 := TakeMarked(history, m, head, tail);
    }
    TakingIs(m, head, tail);
  }

  lemma TakingIs(m: Inbox, head: nat, tail: nat)
    requires head <= tail < |m.ring.cells| && AllFull(m.ring.cells[head..tail + 1])
    ensures Taking(m, Found(head, tail)) ==
            Inbox(Consumed(m.ring, head, tail), if tail < m.ring.acked then m.start + tail + 1 else m.start,
                  m.read + Span(m.start + head, m.start + tail))
  {
  }

  lemma FoundMessage(history: seq<Packet>, m: Inbox) returns (hit: Hit)
    requires Framed(history) && Inv(history, m)
    requires m.ring.acked == 0 || GoodStart(m.ring.cells[..m.ring.acked])
    ensures hit == NextHit(m.ring) && m.ring.acked + m.ring.maxPos < |m.ring.cells|
    ensures hit.Found? ==> FoundUnread(history, m, hit.head, hit.tail)
  {
    hide Scan, GoodStart, Framed, Window, IsMessage, Unread;
    RingRoom(history, m);
    hit := NextHit(m.ring);
    ScanFindsMessage(history, m, m.ring.maxPos + m.ring.acked, 0, -1);
    if m.ring.acked > 0 {
      FoundFirst(history, m);
    }
    ReadBefore(history, m);
    if hit.Found? {
      RoomBehind(history, m, hit.head, hit.tail);
    }
    hide MessagesWhole;
  }

  /** A message that is found leaves out the last cell. */
  lemma RoomBehind(history: seq<Packet>, m: Inbox, head: int, tail: int)
    requires Inv(history, m) && Unread(m, head, tail)
    ensures tail - head < |m.ring.cells| - 1
  {
  }

  lemma RingRoom(history: seq<Packet>, m: Inbox)
    requires Inv(history, m)
    ensures m.ring.acked + m.ring.maxPos < |m.ring.cells|
  {
  }

  lemma ReadBefore(history: seq<Packet>, m: Inbox)
    requires MessagesWhole(history, m)
    ensures forall n :: 0 <= n < m.start ==> n in m.read
  {
  }

  // ---------- When a call returns a message ----------

  /** The packets a..b are a whole message in the buffer, not yet read, that may be read now. */
  ghost predicate Readable(history: seq<Packet>, m: Inbox, a: int, b: int) {
    && IsMessage(history, a, b) && m.start <= a && Unread(m, a - m.start, b - m.start)
    && (history[b].msg.inOrder ==> b - m.start < m.ring.acked)
  }

  /** Where the search has not yet passed a message that may be read, it finds one that ends no later. */
  lemma {:induction false} ScanCompletes(history: seq<Packet>, m: Inbox, n: int, q: nat, head: int, a: int, b: int)
    requires Inv(history, m) && Readable(history, m, a, b) && q <= b - m.start <= n < |m.ring.cells|
    requires a - m.start < q ==> head != -1
    ensures var hit := Scan(m.ring.cells, m.ring.acked, n, q, head); hit.Found? && hit.tail <= b - m.start
    decreases n - q
  {
    var c := m.ring.cells[q];
    if a - m.start <= q {
      assert c.Full? && c.flag == 1 && c.packet == history[m.start + q];
    }
    if q < b - m.start {
      if c.Full? && c.flag == 1 {
        ScanCompletes(history, m, n, q + 1, if c.packet.msg.first then q else head, a, b);
      } else {
        ScanCompletes(history, m, n, q + 1, -1, a, b);
      }
    }
  }

  /** A message that may be read is not skipped, and none appears. */
  lemma StepSame(history: seq<Packet>, m: Inbox, a: int, b: int)
    requires Inv(history, m) && m.ring.acked > 0 && m.start in m.read
    ensures Readable(history, m, a, b) <==> Readable(history, Step(m), a, b)
  {
    var m1 := Step(m);
    assert m.ring.cells[0].Full? && m.ring.cells[0].flag == 2;
    hide Inv, IsMessage;
    assert forall i :: 0 <= i < |m.ring.cells| - 1 ==> m1.ring.cells[i] == m.ring.cells[i + 1];
    if Readable(history, m, a, b) {
      assert m.start < a;
      forall i | a - m1.start <= i <= b - m1.start ensures m1.ring.cells[i].Full? && m1.ring.cells[i].flag == 1 {
        assert m1.ring.cells[i] == m.ring.cells[i + 1];
      }
    }
    if Readable(history, m1, a, b) {
      assert m1.ring.cells[b - m1.start].Full? && m1.ring.cells[|m.ring.cells| - 1] == Empty;
      forall i | a - m.start <= i <= b - m.start ensures m.ring.cells[i].Full? && m.ring.cells[i].flag == 1 {
        assert m1.ring.cells[i - 1] == m.ring.cells[i];
      }
    }
  }

  lemma {:induction false} SkipSame(history: seq<Packet>, m: Inbox, a: int, b: int)
    requires Framed(history) && Inv(history, m)
    ensures Readable(history, m, a, b) <==> Readable(history, Skipping(m), a, b)
    decreases m.ring.acked
  {
    hide Framed, MessagesWhole, GoodStart, Readable;
    var acked := m.ring.cells[..m.ring.acked];
    hide Window;
    if m.ring.acked == 0 || GoodStart(acked) {
      assert m.ring.cells[0..] + Empties(0) == m.ring.cells;
    } else {
      hide Skipping;
      if m.start !in m.read {
        UnreadIsGood(history, m);
      }
      StepKeeps(history, m);
      StepSame(history, m, a, b);
      SkipSame(history, Step(m), a, b);
      SkippedStep(m);
    }
  }

  lemma FoundReadable(history: seq<Packet>, m: Inbox, hit: Hit)
    requires Inv(history, m) && hit.Found? && FoundUnread(history, m, hit.head, hit.tail)
    ensures Readable(history, m, m.start + hit.head, m.start + hit.tail)
  {
    hide IsMessage;
  }

  lemma ReadableFound(history: seq<Packet>, m: Inbox, a: int, b: int)
    requires Inv(history, m) && Readable(history, m, a, b)
    ensures m.ring.acked + m.ring.maxPos < |m.ring.cells| && NextHit(m.ring).Found? && NextHit(m.ring).tail <= b - m.start
  {
    assert m.ring.cells[b - m.start].Full?;
    ScanCompletes(history, m, m.ring.maxPos + m.ring.acked, 0, -1, a, b);
    hide Scan, IsMessage;
  }

  /** A call returns a message just if the buffer holds one that may be read, unless nothing is acknowledged and nothing
      lies beyond the first cell; and it returns the one that ends first. */
  lemma ReadsJustIf(history: seq<Packet>, m: Inbox)
    requires Framed(history) && Inv(history, m)
    ensures m.ring.acked + m.ring.maxPos < |m.ring.cells|
    ensures AfterRead(m).1.Message? <==>
              (m.ring.acked > 0 || m.ring.maxPos > 0) && exists a, b :: Readable(history, m, a, b)
    ensures var ret := AfterRead(m).1;
            ret.Message? ==> Readable(history, m, ret.a, ret.b) && forall a, b :: Readable(history, m, a, b) ==> ret.b <= b
  {
    hide Framed, Inv, IsMessage, GoodStart, NextHit, Skipping, Taking, Unread, Readable, FoundUnread;
    RingRoom(history, m);
    if m.ring.acked > 0 || m.ring.maxPos > 0 {
      var m1 := SkipKeeps(history, m);
      var hit := FoundMessage(history, m1);
      if hit.Found? {
        FoundReadable(history, m1, hit);
        SkipSame(history, m, m1.start + hit.head, m1.start + hit.tail);
      }
      forall a, b | Readable(history, m, a, b) ensures hit.Found? && m1.start + hit.tail <= b {
        SkipSame(history, m, a, b);
        ReadableFound(history, m1, a, b);
      }
    }
  }
}
