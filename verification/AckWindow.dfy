/** The history of the ACKs sent, CACKWindow: a ring that holds the latest size - 1 records.  It is searched when the
    sender acknowledges an ACK. */
module AckHistory {
  import opened SeqNo
  import opened Rings

  /** An ACK that was sent: its own number, the data sequence number it carried, and when. */
  datatype Record = Record(number: int, ack: int, time: int)

  /** A record is added; the oldest one gives way if there are more than capacity. */
  function Recorded(q: seq<Record>, r: Record, capacity: nat): seq<Record> {
    if |q| < capacity then q + [r] else (q + [r])[|q| + 1 - capacity..]
  }

  /** The index of the oldest record with this number, or |q|. */
  function Oldest(q: seq<Record>, number: int): (i: nat)
    ensures i <= |q| && (i < |q| ==> q[i].number == number)
    ensures forall j :: 0 <= j < i ==> q[j].number != number
  {
    if q == [] || q[0].number == number then 0
    else
      assert forall j :: 0 < j < |q| ==> q[j] == q[1..][j - 1];
      1 + Oldest(q[1..], number)
  }

  /** What is left when an ACK has been acknowledged: the record and all older ones are gone. */
  function Remaining(q: seq<Record>, number: int): seq<Record> {
    var i := Oldest(q, number);
    if i < |q| then q[i + 1..] else q
  }

  function RecordedAll(q: seq<Record>, rs: seq<Record>, capacity: nat): seq<Record> {
    if rs == [] then q else Recorded(RecordedAll(q, rs[..|rs| - 1], capacity), rs[|rs| - 1], capacity)
  }

  /** The history holds the latest records. */
  lemma {:induction false} HoldsLatest(rs: seq<Record>, capacity: nat)
    ensures RecordedAll([], rs, capacity) == if |rs| <= capacity then rs else rs[|rs| - capacity..]
  {
    if rs != [] {
      var n := |rs| - 1;
      HoldsLatest(rs[..n], capacity);
      assert rs[..n] + [rs[n]] == rs;
      if n > capacity {
        assert rs[..n][n - capacity..] + [rs[n]] == rs[n - capacity..];
      }
    }
  }

  /** The arrays hold the records q from slot tail on, up to but not including slot head. */
  ghost predicate Mirrors(numbers: seq<int>, acks: seq<int>, times: seq<int>, head: int, tail: int, q: seq<Record>) {
    && |numbers| == |acks| == |times| && 0 <= head < |numbers| && 0 <= tail < |numbers|
    && |q| == (if head >= tail then head - tail else head - tail + |numbers|)
    && forall i {:trigger q[i]} :: 0 <= i < |q| ==>
         var slot := Wrap(tail + i, |numbers|); q[i] == Record(numbers[slot], acks[slot], times[slot])
  }

  function Turn(x: int, size: int): int
    requires size > 0
  {
    x % size
  }

  /** A record is written at head, and head moves on; it may then stand at tail, with the ring full. */
  lemma StoreMirrors(numbers: seq<int>, acks: seq<int>, times: seq<int>, head: int, tail: int, q: seq<Record>, r: Record)
    requires Mirrors(numbers, acks, times, head, tail, q)
    ensures var size := |numbers|;
            var (ns, as_, ts) := (numbers[head := r.number], acks[head := r.ack], times[head := r.time]);
            && (Wrap(head + 1, size) == tail <==> |q| == size - 1)
            && (if Wrap(head + 1, size) == tail then
                  Mirrors(ns, as_, ts, Wrap(head + 1, size), Wrap(tail + 1, size), (q + [r])[1..])
                else Mirrors(ns, as_, ts, Wrap(head + 1, size), tail, q + [r]))
  {
  }

  class AckWindow {
    const ackSeqNo: array<int>
    const ack: array<int>
    const timeStamp: array<int>
    const size: int
    var head: int
    var tail: int

    /** The records, oldest first. */
    ghost var q: seq<Record>

    ghost predicate Valid()
      reads this, ackSeqNo, ack, timeStamp
    {
      && ackSeqNo.Length == ack.Length == timeStamp.Length == size
      && ackSeqNo != ack && ack != timeStamp && timeStamp != ackSeqNo
      && Mirrors(ackSeqNo[..], ack[..], timeStamp[..], head, tail, q)
    }

    constructor (size: int)
      requires 0 < size
      ensures Valid() && q == [] && this.size == size && fresh(ackSeqNo) && fresh(ack) && fresh(timeStamp)
    {
      ackSeqNo, ack, timeStamp := new int[size], new int[size], new int[size];
      this.size, head, tail := size, 0, 0;
      q := [];
      new;
      ackSeqNo[0] := -1;
    }

    method Write(seqno: int, dataAck: int, now: int)
      requires ackSeqNo != ack && ack != timeStamp && timeStamp != ackSeqNo
      requires 0 <= head < ackSeqNo.Length == ack.Length == timeStamp.Length
      modifies ackSeqNo, ack, timeStamp
      ensures ackSeqNo[..] == old(ackSeqNo[..])[head := seqno]
      ensures ack[..] == old(ack[..])[head := dataAck]
      ensures timeStamp[..] == old(timeStamp[..])[head := now]
    {
      ackSeqNo[head] := seqno;
      ack[head] := dataAck;
      timeStamp[head] := now;
    }

    method Store(seqno: int, dataAck: int, now: int)
      requires Valid()
      modifies this, ackSeqNo, ack, timeStamp
      ensures Valid() && q == Recorded(old(q), Record(seqno, dataAck, now), size - 1)
    {
      StoreMirrors(ackSeqNo[..], ack[..], timeStamp[..], head, tail, q, Record(seqno, dataAck, now));
      WrapMod(head + 1, size);
      WrapMod(tail + 1, size);
      hide Mirrors, Wrap;
      Write(seqno, dataAck, now);
      head := (head + 1) % size;
      q := q + [Record(seqno, dataAck, now)];
      if head == tail {
        tail := (tail + 1) % size;
        q := q[1..];
      }
    }

    /** Record k, kept in this slot, is the one that was looked for: drop it and all older ones. */
    method Take(slot: int, ghost k: int, atEnd: bool, ghost seqno: int, now: int) returns (rtt: int, dataAck: int)
      requires Valid() && 0 <= k < |q| && slot == Wrap(tail + k, size) && q[k].number == seqno
      requires (forall i :: 0 <= i < k ==> q[i].number != seqno) && (atEnd ==> k == |q| - 1)
      modifies this, ackSeqNo
      ensures Valid() && q == Remaining(old(q), seqno) && k == Oldest(old(q), seqno)
      ensures dataAck == old(q)[k].ack && rtt == Int32(now - old(q)[k].time)
    {
      assert Oldest(q, seqno) == k;
      assert q[k] == Record(ackSeqNo[slot], ack[slot], timeStamp[slot]);
      hide Int32;
      dataAck := ack[slot];
      rtt := Int32(now - timeStamp[slot]);
      if atEnd {
        tail, head := 0, 0;
        ackSeqNo[0] := -1;
        q := [];
      } else {
        WrapMod(slot + 1, size);
        tail := (slot + 1) % size;
        q := q[k + 1..];
      }
    }

    /** The elapsed time is that of the oldest record with this number, cast to a 32-bit integer. */
    method Acknowledge(seqno: int, now: int) returns (rtt: int, dataAck: int)
      requires Valid()
      modifies this, ackSeqNo
      ensures Valid() && q == Remaining(old(q), seqno)
      ensures var i := Oldest(old(q), seqno);
              if i < |old(q)| then dataAck == old(q)[i].ack && rtt == Int32(now - old(q)[i].time) else rtt == -1
    {
      if head >= tail {
        var i, n := tail, head;
        while i < n && seqno != ackSeqNo[i]
          invariant tail <= i <= n && forall j :: 0 <= j < i - tail ==> q[j].number != seqno
        {
          assert q[i - tail].number == ackSeqNo[i];
          i := i + 1;
        }
        if i < n {
          assert q[i - tail].number == ackSeqNo[i];
          rtt, dataAck := Take(i, i - tail, i + 1 == head, seqno, now);
          return;
        }
        assert Oldest(q, seqno) == |q|;
        return -1, 0;
      }
      rtt, dataAck := AcknowledgeWrapped(seqno, now);
    }

    /** The records wrap round the end of the arrays. */
    method AcknowledgeWrapped(seqno: int, now: int) returns (rtt: int, dataAck: int)
      requires Valid() && head < tail
      modifies this, ackSeqNo
      ensures Valid() && q == Remaining(old(q), seqno)
      ensures var i := Oldest(old(q), seqno);
              if i < |old(q)| then dataAck == old(q)[i].ack && rtt == Int32(now - old(q)[i].time) else rtt == -1
    {
      var j, n := tail, head + size;
      forall x | tail <= x < n ensures Turn(x, size) == Wrap(x, size) {
        WrapMod(x, size);
      }
      hide Turn;
      while j < n && seqno != ackSeqNo[Turn(j, size)]
        invariant tail <= j <= n && forall i :: 0 <= i < j - tail ==> q[i].number != seqno
      {
        assert q[j - tail].number == ackSeqNo[Turn(j, size)];
        j := j + 1;
      }
      if j < n {
        ghost var k := j - tail;
        j := Turn(j, size);
        assert q[k].number == ackSeqNo[j];
        hide Mirrors;
        rtt, dataAck := Take(j, k, j == head, seqno, now);
        return;
      }
      assert Oldest(q, seqno) == |q|;
      return -1, 0;
    }
  }
}
