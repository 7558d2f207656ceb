/** The receive buffer, CRcvBuffer: a ring of units borrowed from the shared pool.  It refines a row of cells, cell 0
    being the one where reading starts, the first dataSize of them acknowledged. */
module RcvBuf {
  import opened Packets
  import opened Rings
  import opened UnitPool

  datatype Cell = Empty | Full(packet: Packet, flag: int)

  /** What reading len bytes from a row of packets, the first read up to notch, yields: the bytes, how many packets
      are used up, and where reading stands in the next one. */
  datatype Reading = Reading(data: seq<byte>, used: nat, notch: nat)

  function Read(packets: seq<Packet>, notch: nat, len: int): Reading {
    if packets == [] || len <= 0 then Reading([], 0, notch)
    else
      var rest := if notch <= |packets[0].payload| then packets[0].payload[notch..] else [];
      if |rest| <= len then
        var next := Read(packets[1..], 0, len - |rest|);
        Reading(rest + next.data, next.used + 1, next.notch)
      else
        Reading(rest[..len], 0, notch + len)
  }

  /** The bytes still to be read. */
  function Stream(packets: seq<Packet>, notch: nat): seq<byte> {
    if notch <= |Concat(packets)| then Concat(packets)[notch..] else []
  }

  ghost predicate NotchInside(packets: seq<Packet>, notch: nat) {
    notch > 0 ==> packets != [] && notch <= |packets[0].payload|
  }

  lemma StreamStep(packets: seq<Packet>, notch: nat)
    requires packets != [] && NotchInside(packets, notch)
    ensures notch <= |packets[0].payload|
    ensures Stream(packets, notch) == packets[0].payload[notch..] + Stream(packets[1..], 0)
  {
  }

  /** data is as much of the front of s as len allows, and rest what follows it. */
  predicate TakenOff(s: seq<byte>, data: seq<byte>, rest: seq<byte>, len: int) {
    && s == data + rest
    && |data| == if len <= 0 then 0 else if len < |s| then len else |s|
  }

  lemma TakenMore(a: seq<byte>, s: seq<byte>, data: seq<byte>, rest: seq<byte>, len: int)
    requires |a| <= len && TakenOff(s, data, rest, len - |a|)
    ensures TakenOff(a + s, a + data, rest, len)
  {
    assert a + (data + rest) == a + data + rest;
  }

  /** Reading takes as many bytes as it can off the front of the stream and leaves the rest. */
  lemma {:induction false} ReadTakesPrefix(packets: seq<Packet>, notch: nat, len: int)
    requires NotchInside(packets, notch)
    ensures var r := Read(packets, notch, len);
            && r.used <= |packets| && NotchInside(packets[r.used..], r.notch)
            && TakenOff(Stream(packets, notch), r.data, Stream(packets[r.used..], r.notch), len)
    decreases |packets|
  {
    hide Stream, TakenOff, Read, Concat, NotchInside;
    if packets == [] || len <= 0 {
      ReadNone(packets, notch, len);
    } else {
      StreamStep(packets, notch);
      if |packets[0].payload[notch..]| <= len {
        NoNotch(packets[1..]);
        ReadTakesPrefix(packets[1..], 0, len - |packets[0].payload[notch..]|);
        PrefixWhole(packets, notch, len);
      } else {
        ReadPart(packets, notch, len);
        NotchPart(packets, notch, len);
        TakenPart(packets[0].payload[notch..], Stream(packets, notch), Stream(packets, notch + len), len);
      }
    }
  }

  lemma ReadNone(packets: seq<Packet>, notch: nat, len: int)
    requires packets == [] || len <= 0
    ensures Read(packets, notch, len) == Reading([], 0, notch) && packets[0..] == packets
    ensures NotchInside(packets, notch) ==> TakenOff(Stream(packets, notch), [], Stream(packets, notch), len)
  {
  }

  lemma NoNotch(packets: seq<Packet>)
    ensures NotchInside(packets, 0)
  {
  }

  lemma NotchPart(packets: seq<Packet>, notch: nat, len: int)
    requires packets != [] && 0 < len < |packets[0].payload| - notch
    ensures NotchInside(packets, notch + len) && packets[0..] == packets
  {
  }

  /** If the rest is read right after the first packet has been read to its end, all is read right. */
  lemma PrefixWhole(packets: seq<Packet>, notch: nat, len: int)
    requires packets != [] && len > 0 && notch <= |packets[0].payload| && |packets[0].payload| - notch <= len
    requires Stream(packets, notch) == packets[0].payload[notch..] + Stream(packets[1..], 0)
    requires var next := Read(packets[1..], 0, len - |packets[0].payload[notch..]|);
             && next.used <= |packets| - 1 && NotchInside(packets[1..][next.used..], next.notch)
             && TakenOff(Stream(packets[1..], 0), next.data, Stream(packets[1..][next.used..], next.notch),
                         len - |packets[0].payload[notch..]|)
    ensures var r := Read(packets, notch, len);
            && r.used <= |packets| && NotchInside(packets[r.used..], r.notch)
            && TakenOff(Stream(packets, notch), r.data, Stream(packets[r.used..], r.notch), len)
  {
    hide Stream, TakenOff, Read, NotchInside, Concat;
    ReadWhole(packets, notch, len);
    var rest := packets[0].payload[notch..];
    var next := Read(packets[1..], 0, len - |rest|);
    TakenMore(rest, Stream(packets[1..], 0), next.data, Stream(packets[1..][next.used..], next.notch), len);
  }

  lemma TakenPart(rest: seq<byte>, s: seq<byte>, left: seq<byte>, len: int)
    requires 0 < len < |rest| && s == rest[..len] + left
    ensures TakenOff(s, rest[..len], left, len)
  {
  }

  /** The first packet is read to its end. */
  lemma ReadWhole(packets: seq<Packet>, notch: nat, len: int)
    requires packets != [] && notch <= |packets[0].payload| && |packets[0].payload[notch..]| <= len && len > 0
    ensures var rest := packets[0].payload[notch..];
            var r, next := Read(packets, notch, len), Read(packets[1..], 0, len - |rest|);
            && r == Reading(rest + next.data, next.used + 1, next.notch)
            && (next.used <= |packets| - 1 ==> packets[1..][next.used..] == packets[r.used..])
  {
  }

  /** Reading stops inside the first packet. */
  lemma ReadPart(packets: seq<Packet>, notch: nat, len: int)
    requires packets != [] && NotchInside(packets, notch) && 0 < len < |packets[0].payload| - notch
    ensures var rest, r := packets[0].payload[notch..], Read(packets, notch, len);
            && r == Reading(rest[..len], 0, notch + len) && packets[0..] == packets
            && Stream(packets, notch) == rest[..len] + Stream(packets, notch + len)
  {
    StreamStep(packets, notch);
    StreamStep(packets, notch + len);
    hide Stream;
    CutFront(packets[0].payload, notch, len, Stream(packets[1..], 0));
  }

  lemma CutFront(s: seq<byte>, notch: nat, len: nat, more: seq<byte>)
    requires notch + len <= |s|
    ensures s[notch..] + more == s[notch..][..len] + (s[notch + len..] + more)
  {
    assert s[notch..] == s[notch..][..len] + s[notch + len..];
  }

  ghost predicate AllFull(cells: seq<Cell>) {
    forall i :: 0 <= i < |cells| ==> cells[i].Full?
  }

  function PacketsOf(cells: seq<Cell>): (r: seq<Packet>)
    requires AllFull(cells)
    ensures |r| == |cells| && forall i :: 0 <= i < |r| ==> r[i] == cells[i].packet
  {
    seq(|cells|, i requires 0 <= i < |cells| => cells[i].packet)
  }

  function Empties(n: nat): (r: seq<Cell>)
    ensures |r| == n && forall i :: 0 <= i < n ==> r[i] == Empty
  {
    seq(n, _ => Empty)
  }

  // ---------- Message mode ----------

  /** Whether the message that begins in the first cell is whole as far as these cells go. */
  predicate GoodAhead(acked: seq<Cell>) {
    acked == []
    || (acked[0].Full? && acked[0].flag == 1 && (acked[0].packet.msg.last || GoodAhead(acked[1..])))
  }

  predicate GoodStart(acked: seq<Cell>) {
    acked != [] && acked[0].Full? && acked[0].flag == 1 && acked[0].packet.msg.first && GoodAhead(acked)
  }

  /** How many of the acknowledged cells are skipped before the first one that starts a good message. */
  function SkipBad(acked: seq<Cell>): (k: nat)
    ensures k <= |acked|
  {
    if acked == [] || GoodStart(acked) then 0 else 1 + SkipBad(acked[1..])
  }

  datatype Hit = Found(head: int, tail: int) | Nothing(head: int)

  /** The search for a message in cells q..n, the first acked of which are acknowledged; head is the cell where the
      message being looked at began, or -1. */
  function Scan(cells: seq<Cell>, acked: int, n: int, q: int, head: int): Hit
    requires 0 <= q && n < |cells|
    decreases n - q
  {
    if q > n then Nothing(head)
    else if cells[q].Full? && cells[q].flag == 1 then
      var msg := cells[q].packet.msg;
      var head2 := if msg.first then q else head;
      if msg.last && head2 != -1 && (q < acked || !msg.inOrder) then Found(head2, q)
      else Scan(cells, acked, n, q + 1, head2)
    else Scan(cells, acked, n, q + 1, -1)
  }

  /** The first len bytes of s. */
  function Front(s: seq<byte>, len: nat): (r: seq<byte>)
    ensures r <= s && |r| <= len && (r == s || |r| == len)
  {
    if len < |s| then s[..len] else s
  }

  function MarkRead(cells: seq<Cell>): (r: seq<Cell>)
    requires AllFull(cells)
    ensures |r| == |cells| && forall i :: 0 <= i < |r| ==> r[i] == Full(cells[i].packet, 2)
  {
    seq(|cells|, i requires 0 <= i < |cells| => Full(cells[i].packet, 2))
  }

  /** A ring: its cells, how many of them are acknowledged, and the furthest one filled, counted from there. */
  datatype Ring = Ring(cells: seq<Cell>, acked: nat, maxPos: nat)

  function Skipped(r: Ring): (r2: Ring)
    requires r.acked <= |r.cells|
    ensures |r2.cells| == |r.cells| && r2.acked <= r.acked && r2.maxPos == r.maxPos
  {
    var k := SkipBad(r.cells[..r.acked]);
    Ring(r.cells[k..] + Empties(k), r.acked - k, r.maxPos)
  }

  lemma OneSkipped(r: Ring)
    requires 0 < r.acked <= |r.cells| && !GoodStart(r.cells[..r.acked])
    ensures Skipped(Ring(r.cells[1..] + [Empty], r.acked - 1, r.maxPos)) == Skipped(r)
  {
    var acked, next := r.cells[..r.acked], Ring(r.cells[1..] + [Empty], r.acked - 1, r.maxPos);
    assert next.cells[..next.acked] == acked[1..];
    EmptyBehind(r.cells, SkipBad(acked[1..]));
    hide GoodStart;
  }

  lemma EmptyBehind(cells: seq<Cell>, k: nat)
    requires k < |cells|
    ensures (cells[1..] + [Empty])[k..] + Empties(k) == cells[k + 1..] + Empties(k + 1)
  {
    var a, b := (cells[1..] + [Empty])[k..] + Empties(k), cells[k + 1..] + Empties(k + 1);
    assert |a| == |b|;
    forall i | 0 <= i < |a| ensures a[i] == b[i] {
    }
  }

  lemma NoneSkipped(r: Ring)
    requires r.acked <= |r.cells| && (r.acked == 0 || GoodStart(r.cells[..r.acked]))
    ensures Skipped(r) == r
  {
    assert r.cells[0..] + Empties(0) == r.cells;
    hide GoodStart;
  }

  /** What reading a message in cells head..tail makes of the ring. */
  function Consumed(r: Ring, head: nat, tail: nat): (r2: Ring)
    requires head <= tail < |r.cells| && AllFull(r.cells[head..tail + 1])
    ensures |r2.cells| == |r.cells|
  {
    if tail < r.acked then
      var blank := r.cells[..head] + Empties(tail + 1 - head) + r.cells[tail + 1..];
      Ring(blank[tail + 1..] + blank[..tail + 1], r.acked - tail - 1, r.maxPos)
    else
      r.(cells := r.cells[..head] + MarkRead(r.cells[head..tail + 1]) + r.cells[tail + 1..])
  }

  /** What taking the message that the search found makes of the ring, and the bytes it yields.  From a message that
      fills the ring to the last cell nothing is taken: its end is right before its start, where the copying ends. */
  function Taken(r: Ring, hit: Hit, len: nat): (Ring, seq<byte>)
    requires hit.Found? ==> 0 <= hit.head <= hit.tail < |r.cells| && AllFull(r.cells[hit.head..hit.tail + 1])
  {
    match hit
    case Nothing(_) => (r, [])
    case Found(head, tail) =>
      if tail - head == |r.cells| - 1 then (r, [])
      else (Consumed(r, head, tail), Front(Concat(PacketsOf(r.cells[head..tail + 1])), len))
  }

  /** The message that would be read next, once bad ones have been skipped. */
  function NextHit(r: Ring): (hit: Hit)
    requires r.acked + r.maxPos < |r.cells|
    ensures hit.Found? ==> 0 <= hit.head <= hit.tail <= r.acked + r.maxPos && AllFull(r.cells[hit.head..hit.tail + 1])
    ensures hit.Nothing? ==> -1 <= hit.head
  {
    ScanFound(r.cells, r.acked, r.maxPos + r.acked, 0, -1);
    Scan(r.cells, r.acked, r.maxPos + r.acked, 0, -1)
  }

  /** What a call that reads a message of at most len bytes makes of the ring, and the bytes it returns. */
  function MsgRead(r: Ring, len: nat): (Ring, seq<byte>)
    requires r.acked + r.maxPos < |r.cells|
  {
    if r.acked == 0 && r.maxPos == 0 then (r, []) else Taken(Skipped(r), NextHit(Skipped(r)), len)
  }

  /** A message that the search finds lies in full cells. */
  lemma {:induction false} ScanFound(cells: seq<Cell>, acked: int, n: int, q: int, head: int)
    requires 0 <= q <= |cells| && n < |cells| && -1 <= head < q
    requires head != -1 ==> forall i :: head <= i < q ==> cells[i].Full?
    ensures var hit := Scan(cells, acked, n, q, head);
            && (hit.Found? ==> 0 <= hit.head <= hit.tail <= n && q <= hit.tail && forall i :: hit.head <= i <= hit.tail ==> cells[i].Full?)
            && (hit.Nothing? ==> -1 <= hit.head && (hit.head < q || hit.head <= n))
    decreases n - q
  {
    if q <= n {
      if cells[q].Full? && cells[q].flag == 1 {
        var msg := cells[q].packet.msg;
        var head2 := if msg.first then q else head;
        if !(msg.last && head2 != -1 && (q < acked || !msg.inOrder)) {
          ScanFound(cells, acked, n, q + 1, head2);
        }
      } else {
        ScanFound(cells, acked, n, q + 1, -1);
      }
    }
  }

  /** The search ends where it began one cell before its message just if the message fills all but one cell. */
  lemma ScanEnd(start: int, n: int, head: int, size: int)
    requires 0 <= start < size && 0 <= head <= n < size && 2 <= size
    ensures After(Wrap(start + n + 1, size), size) == Wrap(start + head, size) <==> head == n + 2 - size
  {
    AfterWrap(Wrap(start + n + 1, size), size);
  }

  lemma HitApart(start: int, head: int, tail: int, size: int)
    requires 0 <= start < size && 0 <= head <= tail < size
    ensures After(Wrap(start + tail, size), size) == Wrap(start + head, size) <==> tail - head == size - 1
  {
    AfterWrap(Wrap(start + tail, size), size);
  }

  lemma NothingTaken(r: Ring, hit: Hit, len: nat)
    requires hit.Found? ==> 0 <= hit.head <= hit.tail < |r.cells| && AllFull(r.cells[hit.head..hit.tail + 1])
    requires hit.Nothing? || hit.tail - hit.head == |r.cells| - 1
    ensures Taken(r, hit, len) == (r, [])
  {
  }

  class RcvBuffer {
    const unit: array<Unit?>
    const size: int
    const queue: UnitQueue
    var startPos: int
    var lastAckPos: int
    var maxPos: int
    var notch: nat

    // The cells from startPos on, and the slot of each unit in the ring.
    ghost var cells: seq<Cell>
    ghost var place: map<Unit, int>

    static ghost function CellOf(u: Unit?): Cell
      reads (if u == null then {} else {u})`packet, (if u == null then {} else {u})`flag
    {
      if u == null then Empty else Full(u.packet, u.flag)
    }

    /** The units in the ring. */
    ghost function Held(): set<Unit>
      reads this`place
    {
      place.Keys
    }

    /** The units that were in the ring before and no longer are have been freed, and no unit has come in. */
    ghost predicate GaveBack(before: set<Unit>)
      reads this`place, before`flag
    {
      Held() <= before && forall u :: u in before - Held() ==> u.flag == 0
    }

    /** Each unit of the ring is in one slot only, and in use. */
    ghost predicate Slots()
      reads this`place, unit, Held()`packet, Held()`flag
    {
      && (forall i :: 0 <= i < unit.Length && unit[i] != null ==> unit[i] in place && place[unit[i]] == i)
      && (forall u :: u in place ==> 0 <= place[u] < unit.Length && unit[place[u]] == u && u.flag != 0)
    }

    ghost predicate Mirrored()
      reads this`startPos, this`cells, this`place, unit, Held()`packet, Held()`flag
    {
      && 0 <= startPos < size == unit.Length == |cells| && 2 <= size
      && (forall i :: 0 <= i < size && unit[i] != null ==> unit[i] in place)
      && forall i :: 0 <= i < size ==> cells[i] == CellOf(unit[Wrap(startPos + i, size)])
    }

    ghost predicate Valid()
      reads this, unit, Held()`packet, Held()`flag
    {
      && Mirrored() && Slots() && 2 <= size == |cells| && 0 <= startPos < size && 0 <= lastAckPos < size
      && 0 <= maxPos && RcvDataSize() + maxPos < size
    }

    /** The unit count of the pool is right, and the ring's units are the pool's. */
    ghost predicate Pooled()
      reads this`place, queue`count, queue`pool, queue.pool`flag
    {
      queue.Counted() && Held() <= queue.pool
    }

    constructor (queue: UnitQueue, size: int)
      requires 2 <= size
      ensures Valid() && fresh(unit) && this.queue == queue && this.size == size
      ensures Held() == {} && RcvDataSize() == 0 && maxPos == 0 && notch == 0
      ensures cells == Empties(size)
    {
      this.queue, this.size := queue, size;
      unit := new Unit?[size](_ => null);
      startPos, lastAckPos, maxPos, notch := 0, 0, 0, 0;
      cells, place := Empties(size), map[];
    }

    /** The buffer goes: all its units are free again. */
    method Destroy()
      requires Valid() && Pooled()
      modifies this`place, Held()`flag, queue`count
      ensures queue.Counted() && Held() == {} && GaveBack(old(Held()))
    {
      assert size == unit.Length;
      hide Mirrored, UnitQueue.Counted;
      for i := 0 to size
        invariant queue.Counted() && forall k :: 0 <= k < unit.Length && unit[k] != null ==> unit[k] in place && place[unit[k]] == k
        invariant forall u :: u in place ==> 0 <= place[u] < unit.Length && unit[place[u]] == u && (u.flag != 0 <==> place[u] >= i)
      {
        if unit[i] != null {
          queue.Release(unit[i]);
        }
      }
      place := map[];
    }

    /** The number of acknowledged cells. */
    function RcvDataSize(): int
      reads this`startPos, this`lastAckPos
    {
      if lastAckPos >= startPos then lastAckPos - startPos else size + lastAckPos - startPos
    }

    function AvailBufSize(): int
      reads this`startPos, this`lastAckPos
    {
      size - RcvDataSize() - 1
    }

    lemma Sized()
      requires Mirrored()
      ensures |cells| == size
    {
    }

    /** Cell i is what its slot holds. */
    lemma CellAt(i: int)
      requires Mirrored() && 0 <= i < size
      ensures 0 <= Wrap(startPos + i, size) < size == unit.Length == |cells|
      ensures var u := unit[Wrap(startPos + i, size)]; cells[i] == CellOf(u) && (u != null ==> u in Held())
    {
    }

    /** A free unit is not in the buffer. */
    lemma NotHeld(u: Unit)
      requires Valid() && u.flag == 0
      ensures u !in Held()
    {
    }

    lemma HeldInSlots()
      requires Valid()
      ensures forall u :: u in Held() ==> exists i :: 0 <= i < unit.Length && unit[i] == u
    {
    }

    /** A unit that the buffer holds is in exactly one slot. */
    lemma OneSlot(u: Unit, k: int)
      requires Valid() && u in Held() && 0 <= k < unit.Length
      ensures 0 <= place[u] < unit.Length && (unit[k] == u <==> k == place[u])
    {
    }

    /** Put a free unit offset cells after the last acknowledged one, unless that cell is taken. */
    method AddData(u: Unit, offset: int) returns (stored: bool)
      requires Valid() && Pooled() && u in queue.pool && u.flag == 0 && 0 <= offset < AvailBufSize()
      modifies this`maxPos, this`cells, this`place, unit, u`flag, queue`count
      ensures Valid() && Pooled() && maxPos == if offset > old(maxPos) then offset else old(maxPos)
      ensures stored <==> old(cells)[RcvDataSize() + offset] == Empty
      ensures stored ==> cells == old(cells)[RcvDataSize() + offset := Full(u.packet, 1)]
      ensures !stored ==> cells == old(cells)
      ensures Held() == (if stored then old(Held()) + {u} else old(Held())) && (!stored ==> u.flag == 0)
    {
      SlotOf(offset);
      hide Mirrored, Slots, Pooled, Wrap, CellOf;
      var pos := (lastAckPos + offset) % size;
      if offset > maxPos {
        maxPos := offset;
      }
      if unit[pos] != null {
        return false;
      }
      PutUnit(pos, RcvDataSize() + offset, u);
      return true;
    }

    /** The slot of the cell offset places after the last acknowledged one. */
    lemma SlotOf(offset: int)
      requires Valid() && 0 <= offset < AvailBufSize()
      ensures var pos, i := (lastAckPos + offset) % size, RcvDataSize() + offset;
              && 0 <= pos < size == unit.Length && 0 <= i < size == |cells|
              && pos == Wrap(startPos + i, size) && (unit[pos] == null <==> cells[i] == Empty)
    {
      hide Slots;
      WrapMod(lastAckPos + offset, size);
      assert cells[RcvDataSize() + offset] == CellOf(unit[Wrap(startPos + (RcvDataSize() + offset), size)]);
    }

    /** Put a free unit into the empty slot pos, that of cell i. */
    method PutUnit(pos: int, ghost i: int, u: Unit)
      requires Mirrored() && Slots() && Pooled() && u in queue.pool && u.flag == 0
      requires 0 <= i < size && pos == Wrap(startPos + i, size) && unit[pos] == null
      modifies this`cells, this`place, unit, u`flag, queue`count
      ensures Mirrored() && Slots() && Pooled() && Held() == old(Held()) + {u}
      ensures cells == old(cells)[i := Full(u.packet, 1)]
    {
      assert u !in place;
      Borrow(u);
      PutIn(pos, i, u);
    }

    /** A free unit of the pool is taken. */
    method Borrow(u: Unit)
      requires Mirrored() && Slots() && Pooled() && u !in place && u in queue.pool && u.flag == 0
      modifies u`flag, queue`count
      ensures Mirrored() && Slots() && Pooled() && u.flag == 1
    {
      queue.Occupy(u);
    }

    method PutIn(pos: int, ghost i: int, u: Unit)
      requires Mirrored() && Slots() && 0 <= i < size && pos == Wrap(startPos + i, size) && unit[pos] == null
      requires u !in place && u.flag == 1
      modifies this`cells, this`place, unit
      ensures Mirrored() && Slots() && Held() == old(Held()) + {u} && cells == old(cells)[i := Full(u.packet, 1)]
    {
      unit[pos] := u;
      place := place[u := pos];
      cells := cells[i := Full(u.packet, 1)];
    }

    /** The first len cells after the last acknowledged one are acknowledged too. */
    method AckData(len: int)
      requires Valid() && 0 <= len <= AvailBufSize()
      modifies this`lastAckPos, this`maxPos
      ensures Valid() && RcvDataSize() == old(RcvDataSize()) + len
      ensures maxPos == if old(maxPos) < len then 0 else old(maxPos) - len
    {
      assert 0 <= startPos < size;
      hide Mirrored, Slots;
      WrapMod(lastAckPos + len, size);
      lastAckPos := (lastAckPos + len) % size;
      maxPos := maxPos - len;
      if maxPos < 0 {
        maxPos := 0;
      }
    }

    /** Give the unit in slot pos, that of cell i, back to the pool. */
    method FreeUnit(pos: int, ghost i: int)
      requires Mirrored() && Slots() && Pooled() && 0 <= i < size && pos == Wrap(startPos + i, size)
      requires cells[i].Full?
      modifies this`cells, this`place, unit, Held()`flag, queue`count
      ensures Mirrored() && Slots() && Pooled() && cells == old(cells)[i := Empty]
      ensures old(unit[pos]) != null && Held() == old(Held()) - {old(unit[pos])} && old(unit[pos]).flag == 0
    {
      assert cells[i] == CellOf(unit[pos]);
      hide Pooled;
      var tmp := unit[pos];
      TakeOut(pos, i, tmp);
      GiveBack(tmp);
    }

    /** Unit tmp leaves slot pos. */
    method TakeOut(pos: int, ghost i: int, tmp: Unit)
      requires Mirrored() && Slots() && 0 <= i < size && pos == Wrap(startPos + i, size) && unit[pos] == tmp
      modifies this`cells, this`place, unit
      ensures Mirrored() && Slots() && cells == old(cells)[i := Empty] && Held() == old(Held()) - {tmp}
    {
      unit[pos] := null;
      place := place - {tmp};
      cells := cells[i := Empty];
    }

    /** A unit that is no longer in the ring goes back to the pool. */
    method GiveBack(tmp: Unit)
      requires Mirrored() && Slots() && Pooled() && tmp !in Held() && tmp in queue.pool && tmp.flag != 0
      modifies tmp`flag, queue`count
      ensures Mirrored() && Slots() && Pooled() && tmp.flag == 0
    {
      queue.Release(tmp);
    }

    /** Reading starts k cells later, in slot p. */
    method Advance(p: int, ghost k: int)
      requires Mirrored() && 0 <= k < size && p == Wrap(startPos + k, size)
      modifies this`startPos, this`cells
      ensures Mirrored() && startPos == p && cells == old(cells)[k..] + old(cells)[..k]
    {
      hide Wrap, CellOf;
      ghost var turned := cells[k..] + cells[..k];
      Fits(p, k);
      forall i | 0 <= i < size
        ensures 0 <= Wrap(p + i, size) < size && turned[i] == CellOf(unit[Wrap(p + i, size)])
      {
        TurnedAt(p, k, i);
      }
      startPos := p;
      cells := turned;
    }

    lemma Fits(p: int, k: int)
      requires Mirrored() && 0 <= k < size && p == Wrap(startPos + k, size)
      ensures 0 <= p < size == unit.Length && |cells[k..] + cells[..k]| == size
    {
    }

    lemma TurnedAt(p: int, k: int, i: int)
      requires Mirrored() && 0 <= k < size && p == Wrap(startPos + k, size) && 0 <= i < size
      ensures 0 <= Wrap(p + i, size) < size && (cells[k..] + cells[..k])[i] == CellOf(unit[Wrap(p + i, size)])
    {
      CellAt(if i + k < size then i + k else i + k - size);
    }

    /** k of the first n cells have been read and emptied, yielding data; rs bytes are still wanted. */
    static ghost predicate Reached(cells0: seq<Cell>, n: int, notch0: nat, len: int,
                                   k: int, data: seq<byte>, rs: int, cells: seq<Cell>, notch: nat)
    {
      && 0 <= k <= n < |cells| == |cells0| && AllFull(cells0[..n])
      && cells == Empties(k) + cells0[k..]
      && (var packets, rest := PacketsOf(cells0[..n]), Read(PacketsOf(cells0[..n])[k..], notch, rs);
          && Read(packets, notch0, len) == Reading(data + rest.data, k + rest.used, rest.notch)
          && NotchInside(packets[k..], notch))
    }

    /** What Read does with the packet at k. */
    static lemma ReadAt(packets: seq<Packet>, k: nat, notch: nat, rs: int)
      requires k < |packets| && rs > 0 && NotchInside(packets[k..], notch)
      ensures notch <= |packets[k].payload| && NotchInside(packets[k + 1..], 0)
      ensures |packets[k].payload| - notch <= rs ==>
                var rest, next := packets[k].payload[notch..], Read(packets[k + 1..], 0, rs - (|packets[k].payload| - notch));
                Read(packets[k..], notch, rs) == Reading(rest + next.data, next.used + 1, next.notch)
      ensures |packets[k].payload| - notch > rs ==>
                && Read(packets[k..], notch, rs) == Reading(packets[k].payload[notch..notch + rs], 0, notch + rs)
                && Read(packets[k..], notch + rs, 0) == Reading([], 0, notch + rs)
                && NotchInside(packets[k..], notch + rs)
    {
      assert packets[k..][0] == packets[k] && packets[k..][1..] == packets[k + 1..];
      assert packets[k].payload[notch..notch + if rs < |packets[k].payload| - notch then rs else 0]
          == packets[k].payload[notch..][..if rs < |packets[k].payload| - notch then rs else 0];
    }

    static lemma ReachedStart(cells: seq<Cell>, n: int, notch: nat, len: int)
      requires 0 <= n < |cells| && AllFull(cells[..n]) && NotchInside(PacketsOf(cells[..n]), notch)
      ensures Reached(cells, n, notch, len, 0, [], len, cells, notch)
    {
      var packets := PacketsOf(cells[..n]);
      assert packets[0..] == packets;
      hide Read, NotchInside;
    }

    static lemma ReachedEnd(cells0: seq<Cell>, n: int, notch0: nat, len: int,
                            k: int, data: seq<byte>, rs: int, cells: seq<Cell>, notch: nat)
      requires Reached(cells0, n, notch0, len, k, data, rs, cells, notch) && (k == n || rs <= 0)
      ensures 0 <= k <= n < |cells| && cells[k..] + cells[..k] == cells0[k..] + Empties(k) && AllFull(cells0[..n])
      ensures Read(PacketsOf(cells0[..n]), notch0, len) == Reading(data, k, notch)
    {
    }

    static lemma ReachedNext(cells0: seq<Cell>, n: int, notch0: nat, len: int,
                             k: int, data: seq<byte>, rs: int, cells: seq<Cell>, notch: nat)
      requires Reached(cells0, n, notch0, len, k, data, rs, cells, notch) && k < n && rs > 0
      ensures cells[k].Full? && notch <= |cells[k].packet.payload|
      ensures var payload := cells[k].packet.payload;
              if |payload| - notch <= rs then
                Reached(cells0, n, notch0, len, k + 1, data + payload[notch..notch + (|payload| - notch)],
                        rs - (|payload| - notch), cells[k := Empty], 0)
              else
                Reached(cells0, n, notch0, len, k, data + payload[notch..notch + rs], 0, cells, notch + rs)
    {
      var packets := PacketsOf(cells0[..n]);
      assert cells[k] == cells0[k] && packets[k] == cells[k].packet;
      ReadAt(packets, k, notch, rs);
      hide Read, NotchInside;
      assert cells[k := Empty] == Empties(k + 1) + cells0[k + 1..];
    }

    /** Copy from the unit in slot p; free it if it has been read to its end. */
    method ReadSlot(ghost cells0: seq<Cell>, ghost n: int, ghost notch0: nat, ghost len: int, ghost k: int,
                    data: seq<byte>, rs: int, p: int)
      returns (data2: seq<byte>, rs2: int, p2: int, ghost k2: int)
      requires Mirrored() && Slots() && Pooled()
      requires Reached(cells0, n, notch0, len, k, data, rs, cells, notch)
      requires 0 <= k < n < size && 0 < rs && p == Wrap(startPos + k, size)
      modifies this`notch, this`cells, this`place, unit, Held()`flag, queue`count
      ensures Mirrored() && Slots() && Pooled() && Reached(cells0, n, notch0, len, k2, data2, rs2, cells, notch)
      ensures p2 == Wrap(startPos + k2, size) && (k2 == k + 1 || (k2 == k && rs2 == 0)) && 0 <= rs2
      ensures GaveBack(old(Held()))
    {
      hide Mirrored, Slots, Pooled, Wrap;
      CellAt(k);
      ReachedNext(cells0, n, notch0, len, k, data, rs, cells, notch);
      hide Reached;
      var payload := unit[p].packet.payload;
      var unitsize := |payload| - notch;
      if unitsize > rs {
        unitsize := rs;
      }
      data2 := data + payload[notch..notch + unitsize];
      if rs > unitsize || rs == |payload| - notch {
        FreeUnit(p, k);
        StepOn(k);
        p2 := p + 1;
        if p2 == size {
          p2 := 0;
        }
        notch := 0;
        k2 := k + 1;
      } else {
        notch := notch + rs;
        p2, k2 := p, k;
      }
      rs2 := rs - unitsize;
    }

    lemma StepOn(k: int)
      requires Mirrored() && 0 <= k < size - 1
      ensures var p := Wrap(startPos + k, size); Wrap(startPos + k + 1, size) == if p + 1 == size then 0 else p + 1
    {
    }

    /** Read up to len bytes of the acknowledged packets. */
    method ReadBuffer(len: int) returns (data: seq<byte>)
      requires Valid() && Pooled()
      requires AllFull(cells[..RcvDataSize()]) && NotchInside(PacketsOf(cells[..RcvDataSize()]), notch)
      modifies this`notch, this`startPos, this`cells, this`place, unit, Held()`flag, queue`count
      ensures Valid() && Pooled()
      ensures var packets := PacketsOf(old(cells[..RcvDataSize()]));
              var r := Read(packets, old(notch), len);
              && data == r.data && notch == r.notch && r.used <= old(RcvDataSize())
              && RcvDataSize() == old(RcvDataSize()) - r.used
              && cells == old(cells)[r.used..] + Empties(r.used)
      ensures GaveBack(old(Held()))
    {
      hide Read, NotchInside, Slots, Pooled, Reached;
      ghost var n, cells0, notch0, k := RcvDataSize(), cells, notch, 0;
      var p := startPos;
      var lastack := lastAckPos;
      var rs := len;
      data := [];
      ReachedStart(cells, n, notch, len);
      while p != lastack && rs > 0
        invariant Mirrored() && Slots() && Pooled() && startPos == old(startPos)
        invariant Reached(cells0, n, notch0, len, k, data, rs, cells, notch) && 0 <= k <= n && p == Wrap(startPos + k, size)
        invariant GaveBack(old(Held()))
        decreases n - k, rs
      {
        data, rs, p, k := ReadSlot(cells0, n, notch0, len, k, data, rs, p);
      }
      ReachedEnd(cells0, n, notch0, len, k, data, rs, cells, notch);
      Advance(p, k);
    }

    /** The cells that have been acknowledged. */
    ghost function Acked(): seq<Cell>
      requires Mirrored() && 0 <= lastAckPos < size
      reads this, unit, Held()`packet, Held()`flag
    {
      cells[..RcvDataSize()]
    }

    /** Look ahead for the whole of the message at the start. */
    method LookAhead() returns (good: bool)
      requires Valid()
      ensures good == GoodAhead(Acked())
    {
      var i := startPos;
      ghost var k := 0;
      assert Acked()[0..] == Acked();
      while i != lastAckPos
        invariant 0 <= k <= RcvDataSize() && i == Wrap(startPos + k, size)
        invariant GoodAhead(Acked()) == GoodAhead(Acked()[k..])
        decreases RcvDataSize() - k
      {
        assert Acked()[k..][0] == cells[k] == CellOf(unit[i]);
        assert Acked()[k..][1..] == Acked()[k + 1..];
        if unit[i] == null || 1 != unit[i].flag {
          return false;
        }
        if unit[i].packet.msg.last {
          return true;
        }
        i := i + 1;
        if i == size {
          i := 0;
        }
        k := k + 1;
      }
      return true;
    }

    /** Skip all bad messages at the start. */
    method SkipBadMsgs()
      requires Valid() && Pooled()
      modifies this`startPos, this`cells, this`place, unit, Held()`flag, queue`count
      ensures Valid() && Pooled()
      ensures View() == Skipped(old(View()))
      ensures Acked() == [] || GoodStart(Acked())
      ensures GaveBack(old(Held()))
    {
      hide Mirrored, Slots, Pooled, GoodStart, Skipped;
      ghost var r := Ring(cells, RcvDataSize(), maxPos);
      while startPos != lastAckPos
        invariant Valid() && Pooled() && GaveBack(old(Held()))
        invariant |cells| == size && RcvDataSize() <= size && Skipped(Ring(cells, RcvDataSize(), maxPos)) == Skipped(r)
        decreases RcvDataSize()
      {
        var good := CheckStart();
        if good {
          break;
        }
        OneSkipped(Ring(cells, RcvDataSize(), maxPos));
        SkipOne();
      }
      NoneSkipped(Ring(cells, RcvDataSize(), maxPos));
    }

    method CheckStart() returns (good: bool)
      requires Valid() && startPos != lastAckPos
      ensures good == GoodStart(Acked())
    {
      assert Acked()[0] == cells[0] == CellOf(unit[startPos]);
      if unit[startPos] == null {
        return false;
      }
      if 1 == unit[startPos].flag && unit[startPos].packet.msg.first {
        good := LookAhead();
        return;
      }
      return false;
    }

    /** Leave the first cell behind, and free its unit if it has one. */
    method SkipOne()
      requires Valid() && Pooled() && startPos != lastAckPos
      modifies this`startPos, this`cells, this`place, unit, Held()`flag, queue`count
      ensures Valid() && Pooled() && RcvDataSize() == old(RcvDataSize()) - 1
      ensures cells == old(cells)[1..] + [Empty] && Acked() == old(Acked())[1..]
      ensures GaveBack(old(Held()))
    {
      assert cells[0] == CellOf(unit[startPos]);
      hide Slots, Pooled;
      if unit[startPos] != null {
        FreeUnit(startPos, 0);
      }
      Advance(if startPos + 1 == size then 0 else startPos + 1, 1);
    }

    ghost function View(): Ring
      requires Valid()
      reads this, unit, Held()`packet, Held()`flag
    {
      Ring(cells, RcvDataSize(), maxPos)
    }

    /** found, p, q and passack describe the hit.  An incomplete message is reported as found just if it began so early
        that it fills all cells but one, and then p is the slot after q. */
    predicate Located(hit: Hit, found: bool, p: int, q: int, passack: bool)
      reads this`startPos, this`lastAckPos, this`maxPos
    {
      match hit
      case Found(head, tail) =>
        && found && p == Wrap(startPos + head, size) && q == Wrap(startPos + tail, size)
        && (passack <==> tail >= RcvDataSize())
      case Nothing(head) =>
        && passack && 0 <= q < size && (found ==> p == After(q, size))
        && (found <==> head != -1 && head == maxPos + RcvDataSize() + 2 - size)
    }

    /** Look for the first message that may be read; p and q are its slots. */
    method FindMsg() returns (found: bool, p: int, q: int, passack: bool)
      requires Valid()
      ensures Valid()
      ensures Located(NextHit(View()), found, p, q, passack)
    {
      Sized();
      Ends();
      hide Slots, After, Mirrored, NextHit, Looked, Located;
      ghost var hit := NextHit(View());
      found, p, q, passack := Look();
      Finds(hit, found, p, q, passack);
      if !found && p != -1 {
        if After(q, size) == p {
          found := true;
        }
      }
    }

    lemma Finds(hit: Hit, found: bool, p: int, q: int, passack: bool)
      requires Looked(hit, found, p, q, passack) && 0 <= startPos < size && 2 <= size && 0 <= maxPos + RcvDataSize() < size
      requires hit.Found? ==> 0 <= hit.head
      ensures found ==> Located(hit, true, p, q, passack)
      ensures !found ==> Located(hit, p != -1 && After(q, size) == p, p, q, passack)
    {
      hide After;
      if !found && p != -1 {
        ScanEnd(startPos, maxPos + RcvDataSize(), hit.head, size);
      }
    }

    /** Where the loop of the search stops: at the end of a message, or behind the last cell filled. */
    predicate Looked(hit: Hit, found: bool, p: int, q: int, passack: bool)
      reads this`startPos, this`lastAckPos, this`maxPos
    {
      && (found <==> hit.Found?) && (p == if hit.head == -1 then -1 else Wrap(startPos + hit.head, size))
      && match hit
         case Found(_, tail) => q == Wrap(startPos + tail, size) && (passack <==> tail >= RcvDataSize())
         case Nothing(head) =>
           && passack && q == Wrap(startPos + (maxPos + RcvDataSize() + 1), size) && 0 <= q < size
           && -1 <= head <= maxPos + RcvDataSize()
    }

    method Look() returns (found: bool, p: int, q: int, passack: bool)
      requires Valid()
      ensures Looked(NextHit(View()), found, p, q, passack)
    {
      Ends();
      Sized();
      hide Mirrored, Slots, Looked;
      found, p, q, passack := LookOn(maxPos + RcvDataSize(), RcvDataSize());
    }

    /** The loop of the search. */
    method LookOn(n: int, ghost acked: int) returns (found: bool, p: int, q: int, passack: bool)
      requires Mirrored() && 0 <= startPos < size == |cells| && 0 <= acked == RcvDataSize() <= n < size
      requires n == maxPos + acked && lastAckPos == Wrap(startPos + acked, size)
      ensures Looked(Scan(cells, acked, n, 0, -1), found, p, q, passack)
    {
      hide Mirrored, Scan, Looked, RcvDataSize, Wrap;
      p := -1;
      q := startPos;
      NextSlot(startPos, acked, -1, size);
      passack := startPos == lastAckPos;
      found := false;
      ghost var head := -1;
      var i := 0;
      while i <= n
        invariant Mirrored() && 0 <= i <= n + 1 && q == Wrap(startPos + i, size)
        invariant -1 <= head < i && p == if head == -1 then -1 else Wrap(startPos + head, size)
        invariant passack <==> i >= acked
        invariant Scan(cells, acked, n, 0, -1) == Scan(cells, acked, n, i, head)
      {
        ScanIs(cells, acked, n, i, head);
        found, p, head := LookAt(q, p, passack, i, head);
        if found {
          FoundHere(p, q, passack, i, head);
          return;
        }
        NextSlot(startPos, acked, i, size);
        q := q + 1;
        if q == size {
          q := 0;
        }
        if q == lastAckPos {
          passack := true;
        }
        i := i + 1;
      }
      ScanIs(cells, acked, n, i, head);
      NoneFound(p, q, passack, head);
    }

    lemma Ends()
      requires Valid()
      ensures 0 <= RcvDataSize() && 0 <= maxPos && maxPos + RcvDataSize() < size && (startPos == lastAckPos <==> RcvDataSize() == 0)
      ensures Wrap(startPos, size) == startPos && Wrap(startPos + RcvDataSize(), size) == lastAckPos
    {
    }

    /** The slot after that of cell i; the first cell not acknowledged is reached when cell i is the last that is. */
    static lemma NextSlot(start: int, acked: int, i: int, size: int)
      requires 0 <= start < size && 0 <= acked < size && -1 <= i < size
      ensures i == -1 ==> Wrap(start + i + 1, size) == start
      ensures i >= 0 ==> var q := Wrap(start + i, size); Wrap(start + i + 1, size) == if q + 1 == size then 0 else q + 1
      ensures i >= acked || Wrap(start + i + 1, size) == Wrap(start + acked, size) <==> i + 1 >= acked
    {
    }

    lemma FoundHere(p: int, q: int, passack: bool, i: int, head: int)
      requires 0 <= head && p == Wrap(startPos + head, size) && q == Wrap(startPos + i, size)
      requires passack <==> i >= RcvDataSize()
      ensures Looked(Found(head, i), true, p, q, passack)
    {
    }

    lemma NoneFound(p: int, q: int, passack: bool, head: int)
      requires -1 <= head <= maxPos + RcvDataSize() < size && 0 <= startPos < size && 0 <= maxPos
      requires p == (if head == -1 then -1 else Wrap(startPos + head, size)) && passack
      requires q == Wrap(startPos + (maxPos + RcvDataSize() + 1), size)
      ensures Looked(Nothing(head), false, p, q, passack)
    {
    }

    static lemma ScanIs(cells: seq<Cell>, acked: int, n: int, q: int, head: int)
      requires 0 <= q <= n + 1 && n < |cells|
      ensures Scan(cells, acked, n, q, head) ==
              if q > n then Nothing(head)
              else if cells[q].Full? && cells[q].flag == 1 then
                var msg := cells[q].packet.msg;
                var head2 := if msg.first then q else head;
                if msg.last && head2 != -1 && (q < acked || !msg.inOrder) then Found(head2, q)
                else Scan(cells, acked, n, q + 1, head2)
              else Scan(cells, acked, n, q + 1, -1)
    {
    }

    /** Look at slot q, that of cell i: does the message end here, and may it be read? */
    method LookAt(q: int, p: int, passack: bool, ghost i: int, ghost head: int)
      returns (found: bool, p2: int, ghost head2: int)
      requires Mirrored() && 0 <= i < size && q == Wrap(startPos + i, size) && -1 <= head < i
      requires 0 <= startPos && p == (if head == -1 then -1 else Wrap(startPos + head, size))
      ensures Mirrored()
      ensures var c := cells[i];
              if c.Full? && c.flag == 1 then
                && head2 == (if c.packet.msg.first then i else head)
                && found == (c.packet.msg.last && head2 != -1 && (!passack || !c.packet.msg.inOrder))
              else head2 == -1 && !found
      ensures p2 == if head2 == -1 then -1 else Wrap(startPos + head2, size)
    {
      CellAt(i);
      hide Mirrored;
      found, p2, head2 := false, p, head;
      if unit[q] != null && 1 == unit[q].flag {
        var msg := unit[q].packet.msg;
        if msg.first {
          p2, head2 := q, i;
        }
        if msg.last && p2 != -1 {
          // the message has to be acknowledged, unless it may be read out of order
          found := !passack || !msg.inOrder;
        }
      } else {
        p2, head2 := -1, -1;
      }
    }

    /** The cells head..j-1 of a message have been read: freed, or marked if the message was not all acknowledged. */
    static ghost predicate Delivered(cells0: seq<Cell>, head: int, j: int, tail: int, passack: bool, len: nat,
                                     cells: seq<Cell>, data: seq<byte>, rs: int)
    {
      && 0 <= head <= j <= tail + 1 <= |cells0| && AllFull(cells0[head..tail + 1]) && AllFull(cells0[head..j])
      && cells == cells0[..head] + (if passack then MarkRead(cells0[head..j]) else Empties(j - head)) + cells0[j..]
      && data == Front(Concat(PacketsOf(cells0[head..j])), len) && rs == len - |data|
    }

    static lemma DeliveredStart(cells: seq<Cell>, head: int, tail: int, passack: bool, len: nat)
      requires 0 <= head <= tail < |cells| && AllFull(cells[head..tail + 1])
      ensures Delivered(cells, head, head, tail, passack, len, cells, [], len)
    {
    }

    static lemma DeliveredNext(cells0: seq<Cell>, head: int, j: int, tail: int, passack: bool, len: nat,
                               cells: seq<Cell>, data: seq<byte>, rs: int)
      requires Delivered(cells0, head, j, tail, passack, len, cells, data, rs) && j <= tail
      ensures 0 <= j < |cells| && cells[j].Full?
      ensures var payload := cells[j].packet.payload;
              var n := if rs >= 0 && |payload| > rs then rs else |payload|;
              && 0 <= n <= |payload|
              && Delivered(cells0, head, j + 1, tail, passack, len,
                        cells[j := if passack then Full(cells[j].packet, 2) else Empty],
                        data + payload[..n], rs - n)
    {
      hide Concat, Front, MarkRead, Empties;
      assert cells0[head..tail + 1][j - head] == cells0[j];
      PacketsNext(cells0, head, j);
      FrontAppend(Concat(PacketsOf(cells0[head..j])), cells0[j].packet.payload, len);
      CellsNext(cells0, head, j, passack, cells);
    }

    static lemma PacketsNext(cells: seq<Cell>, head: int, j: int)
      requires 0 <= head <= j < |cells| && AllFull(cells[head..j]) && cells[j].Full?
      ensures AllFull(cells[head..j + 1])
      ensures Concat(PacketsOf(cells[head..j + 1])) == Concat(PacketsOf(cells[head..j])) + cells[j].packet.payload
    {
      assert cells[head..j + 1] == cells[head..j] + [cells[j]];
      var before, last := PacketsOf(cells[head..j]), [cells[j].packet];
      assert PacketsOf(cells[head..j + 1]) == before + last;
      ConcatAppend(before, last);
      assert last[1..] == [] && Concat([]) == [];
      assert Concat(last) == cells[j].packet.payload + Concat(last[1..]);
      hide Concat;
    }

    static lemma FrontAppend(a: seq<byte>, b: seq<byte>, len: nat)
      ensures var rs := len - |Front(a, len)|;
              rs >= 0 && Front(a + b, len) == Front(a, len) + b[..if |b| > rs then rs else |b|]
    {
    }

    static lemma CellsNext(cells0: seq<Cell>, head: int, j: int, passack: bool, cells: seq<Cell>)
      requires 0 <= head <= j < |cells0| && AllFull(cells0[head..j]) && AllFull(cells0[head..j + 1])
      requires cells == cells0[..head] + (if passack then MarkRead(cells0[head..j]) else Empties(j - head)) + cells0[j..]
      ensures cells[j] == cells0[j]
      ensures cells[j := if passack then Full(cells0[j].packet, 2) else Empty]
           == cells0[..head] + (if passack then MarkRead(cells0[head..j + 1]) else Empties(j + 1 - head)) + cells0[j + 1..]
    {
      assert cells0[head..j + 1][j - head] == cells0[j];
    }

    /** Read the packet in slot p, that of cell j: free its unit, or mark it as read. */
    method DeliverSlot(p: int, ghost j: int, data: seq<byte>, rs: int, passack: bool)
      returns (data2: seq<byte>, rs2: int)
      requires Mirrored() && Slots() && Pooled() && 0 <= j < size && p == Wrap(startPos + j, size) && cells[j].Full?
      modifies this`cells, this`place, unit, Held()`flag, queue`count
      ensures Mirrored() && Slots() && Pooled()
      ensures cells == old(cells)[j := if passack then Full(old(cells[j]).packet, 2) else Empty]
      ensures var payload := old(cells[j]).packet.payload;
              var n := if rs >= 0 && |payload| > rs then rs else |payload|;
              data2 == data + payload[..n] && rs2 == rs - n
      ensures GaveBack(old(Held()))
    {
      assert cells[j] == CellOf(unit[p]);
      hide Slots, Pooled;
      var unitsize := |unit[p].packet.payload|;
      if rs >= 0 && unitsize > rs {
        unitsize := rs;
      }
      data2, rs2 := data, rs;
      if unitsize > 0 {
        data2 := data + unit[p].packet.payload[..unitsize];
        rs2 := rs - unitsize;
      }
      if !passack {
        FreeUnit(p, j);
      } else {
        MarkUnit(p, j);
      }
    }

    /** The packet in slot p has been read out of order. */
    method MarkUnit(p: int, ghost j: int)
      requires Mirrored() && Slots() && Pooled() && 0 <= j < size && p == Wrap(startPos + j, size) && cells[j].Full?
      modifies this`cells, Held()`flag
      ensures Mirrored() && Slots() && Pooled() && cells == old(cells)[j := Full(old(cells[j]).packet, 2)]
    {
      assert cells[j] == CellOf(unit[p]);
      ghost var busy := Busy(queue.pool);
      unit[p].flag := 2;
      cells := cells[j := Full(cells[j].packet, 2)];
      assert Busy(queue.pool) == busy;
    }

    /** cells is cells0 with the cells head..tail marked as read, or emptied. */
    static ghost predicate ConsumedTo(cells0: seq<Cell>, head: int, tail: int, passack: bool, cells: seq<Cell>) {
      && 0 <= head <= tail < |cells0| && AllFull(cells0[head..tail + 1])
      && cells == cells0[..head] + (if passack then MarkRead(cells0[head..tail + 1]) else Empties(tail + 1 - head))
                  + cells0[tail + 1..]
    }

    static lemma DeliveredEnd(cells0: seq<Cell>, head: int, tail: int, passack: bool, len: nat, cells: seq<Cell>,
                              data: seq<byte>, rs: int)
      requires Delivered(cells0, head, tail + 1, tail, passack, len, cells, data, rs) && head <= tail
      ensures ConsumedTo(cells0, head, tail, passack, cells)
      ensures data == Front(Concat(PacketsOf(cells0[head..tail + 1])), len)
    {
      hide Concat, Front;
    }

    static lemma ConsumedIs(r: Ring, head: int, tail: int, passack: bool, cells: seq<Cell>)
      requires ConsumedTo(r.cells, head, tail, passack, cells) && (passack <==> tail >= r.acked)
      ensures |cells| == |r.cells| && 0 <= head <= tail < |cells|
      ensures Consumed(r, head, tail) == if passack then r.(cells := cells)
                                         else Ring(cells[tail + 1..] + cells[..tail + 1], r.acked - tail - 1, r.maxPos)
    {
    }

    /** Read the packets of the message in slots p..q. */
    method Deliver(p: int, q: int, passack: bool, len: nat, ghost head: int, ghost tail: int) returns (data: seq<byte>)
      requires Valid() && Pooled() && 0 <= head <= tail <= maxPos + RcvDataSize() && tail - head < size - 1
      requires AllFull(cells[head..tail + 1])
      requires p == Wrap(startPos + head, size) && q == Wrap(startPos + tail, size)
      requires passack <==> tail >= RcvDataSize()
      modifies this`startPos, this`cells, this`place, unit, Held()`flag, queue`count
      ensures Valid() && Pooled() && (View(), data) == Taken(old(View()), Found(head, tail), len)
      ensures GaveBack(old(Held()))
    {
      hide Slots, Pooled, Consumed, ConsumedTo, Mirrored, After, AllFull, Front, Concat;
      ghost var r := View();
      data := DeliverAll(p, q, passack, len, head, tail);
      ConsumedIs(r, head, tail, passack, cells);
      if !passack {
        AfterWrap(q, size);
        Advance(After(q, size), tail + 1);
      }
    }

    method DeliverNext(ghost cells0: seq<Cell>, ghost head: int, ghost j: int, ghost tail: int,
                       passack: bool, ghost len: nat, data: seq<byte>, rs: int, i: int)
      returns (data2: seq<byte>, rs2: int, i2: int)
      requires Mirrored() && Slots() && Pooled() && 0 <= j <= tail < size && 0 <= startPos < size
      requires i == Wrap(startPos + j, size) && Delivered(cells0, head, j, tail, passack, len, cells, data, rs)
      modifies this`cells, this`place, unit, Held()`flag, queue`count
      ensures Mirrored() && Slots() && Pooled() && i2 == Wrap(startPos + j + 1, size)
      ensures Delivered(cells0, head, j + 1, tail, passack, len, cells, data2, rs2)
      ensures GaveBack(old(Held()))
    {
      DeliveredNext(cells0, head, j, tail, passack, len, cells, data, rs);
      hide Delivered, Slots, Pooled, Mirrored;
      data2, rs2 := DeliverSlot(i, j, data, rs, passack);
      i2 := i + 1;
      if i2 == size {
        i2 := 0;
      }
    }

    method DeliverAll(p: int, q: int, passack: bool, len: nat, ghost head: int, ghost tail: int) returns (data: seq<byte>)
      requires Mirrored() && Slots() && Pooled() && 0 <= head <= tail < size && tail - head < size - 1
      requires 0 <= startPos < size && AllFull(cells[head..tail + 1])
      requires p == Wrap(startPos + head, size) && q == Wrap(startPos + tail, size)
      modifies this`cells, this`place, unit, Held()`flag, queue`count
      ensures Mirrored() && Slots() && Pooled()
      ensures data == Front(Concat(PacketsOf(old(cells)[head..tail + 1])), len)
      ensures ConsumedTo(old(cells), head, tail, passack, cells)
      ensures GaveBack(old(Held()))
    {
      hide Delivered, Slots, Pooled, ConsumedTo, Mirrored, After, AllFull, Front, Concat;
      ghost var cells0, j := cells, head;
      var i, rs := p, len;
      data := [];
      AfterWrap(q, size);
      Sized();
      DeliveredStart(cells, head, tail, passack, len);
      while i != After(q, size)
        invariant Mirrored() && Slots() && Pooled() && head <= j <= tail + 1 && i == Wrap(startPos + j, size)
        invariant Delivered(cells0, head, j, tail, passack, len, cells, data, rs)
        invariant GaveBack(old(Held()))
        decreases tail + 1 - j
      {
        data, rs, i := DeliverNext(cells0, head, j, tail, passack, len, data, rs, i);
        j := j + 1;
      }
      DeliveredEnd(cells0, head, tail, passack, len, cells, data, rs);
    }

    /** Read the first message that may be read: at most len bytes of it are returned, and the rest is dropped. */
    method ReadMsg(len: nat) returns (data: seq<byte>)
      requires Valid() && Pooled()
      modifies this`startPos, this`cells, this`place, unit, Held()`flag, queue`count
      ensures Valid() && Pooled() && (View(), data) == MsgRead(old(View()), len)
      ensures GaveBack(old(Held()))
    {
      if startPos == lastAckPos && maxPos <= 0 {
        return [];
      }
      SkipBadMsgs();
      data := TakeMsg(len);
    }

    lemma Decides(hit: Hit, found: bool, p: int, q: int, passack: bool)
      requires Located(hit, found, p, q, passack) && 0 <= startPos < size
      requires hit.Found? ==> 0 <= hit.head <= hit.tail < size
      ensures !found || p == After(q, size) <==> hit.Nothing? || hit.tail - hit.head == size - 1
    {
      if hit.Found? {
        HitApart(startPos, hit.head, hit.tail, size);
      }
    }

    method TakeMsg(len: nat) returns (data: seq<byte>)
      requires Valid() && Pooled()
      modifies this`startPos, this`cells, this`place, unit, Held()`flag, queue`count
      ensures Valid() && Pooled() && (View(), data) == Taken(old(View()), NextHit(old(View())), len)
      ensures GaveBack(old(Held()))
    {
      Sized();
      hide Slots, Mirrored, Pooled, After, NextHit, Taken, Located;
      ghost var hit := NextHit(View());
      var found, p, q, passack := FindMsg();
      Decides(hit, found, p, q, passack);
      // When p is the slot after q the loop that copies the message ends at once.  That is so for a message that
      // fills the ring, and for an incomplete one that leaves one cell, which is found although there is no hit.
      if !found || p == After(q, size) {
        NothingTaken(View(), hit, len);
        return [];
      }
      FoundAt(hit, found, p, q, passack);
      data := Deliver(p, q, passack, len, hit.head, hit.tail);
    }

    lemma FoundAt(hit: Hit, found: bool, p: int, q: int, passack: bool)
      requires Located(hit, found, p, q, passack) && hit.Found?
      ensures p == Wrap(startPos + hit.head, size) && q == Wrap(startPos + hit.tail, size)
      ensures passack <==> hit.tail >= RcvDataSize()
    {
    }
  }

  // ---------- An incomplete message that is found ----------

  /** The first n cells hold the beginning of one message, and the others nothing. */
  ghost predicate Begun(cells: seq<Cell>, n: nat) {
    && (forall k :: 0 <= k < n <= |cells| ==>
          cells[k].Full? && cells[k].flag == 1 && !cells[k].packet.msg.last && (cells[k].packet.msg.first <==> k == 0))
    && forall k :: n <= k < |cells| ==> cells[k] == Empty
  }

  /** For every size there is a buffer in which a message is found that is not complete: its packets fill all cells but
      one, and the last packet is not among them. */
  method IncompleteFound(size: int) returns (buffer: RcvBuffer, found: bool)
    requires 3 <= size
    ensures fresh(buffer) && buffer.Valid() && buffer.size == size
    ensures found && Begun(buffer.cells, size - 1) && NextHit(buffer.View()).Nothing?
  {
    hide RcvBuffer.Valid, NextHit, Begun;
    buffer := Beginning(size);
    BegunOpen(buffer.View());
    var p, q, passack;
    found, p, q, passack := buffer.FindMsg();
    SaysFound(buffer, found, p, q, passack);
  }

  lemma SaysFound(buffer: RcvBuffer, found: bool, p: int, q: int, passack: bool)
    requires buffer.Located(Nothing(0), found, p, q, passack)
    requires buffer.RcvDataSize() == 0 && buffer.maxPos == buffer.size - 2
    ensures found
  {
  }

  /** Packets arrive for all cells but one. */
  method Beginning(size: int) returns (buffer: RcvBuffer)
    requires 3 <= size
    ensures fresh(buffer) && buffer.Valid() && buffer.size == size
    ensures buffer.RcvDataSize() == 0 && buffer.maxPos == size - 2 && |buffer.cells| == size && Begun(buffer.cells, size - 1)
  {
    hide RcvBuffer.Valid, UnitQueue.Counted, Begun;
    var queue := new UnitQueue(size);
    var units := queue.qEntry.unit;
    UnitsOf(queue);
    hide UnitQueue.Ringed;
    buffer := new RcvBuffer(queue, size);
    NoneBegun(size);
    for i := 0 to size - 1
      invariant buffer.Valid() && buffer.Pooled() && buffer.RcvDataSize() == 0 && |buffer.cells| == size
      invariant buffer.maxPos == (if i == 0 then 0 else i - 1) && Begun(buffer.cells, i)
      invariant fresh(units) && fresh(buffer.unit)
      invariant forall k :: i <= k < size ==> units[k] in queue.pool && units[k].flag == 0
    {
      AddPart(buffer, units[i], i);
    }
  }

  lemma UnitsOf(queue: UnitQueue)
    requires queue.Ringed()
    ensures var units := queue.entries[0].unit;
            && (forall k :: 0 <= k < |units| ==> units[k] in queue.pool)
            && (forall j, k :: 0 <= j < k < |units| ==> units[j] != units[k])
  {
  }

  lemma NoneBegun(size: int)
    requires 0 <= size
    ensures Begun(Empties(size), 0)
  {
  }

  /** Packet i of a message arrives, which is not its last one. */
  method AddPart(buffer: RcvBuffer, u: Unit, i: int)
    requires buffer.Valid() && buffer.Pooled() && u in buffer.queue.pool && u.flag == 0
    requires buffer.RcvDataSize() == 0 && |buffer.cells| == buffer.size && 0 <= i < buffer.size - 1 && Begun(buffer.cells, i)
    requires buffer.maxPos == if i == 0 then 0 else i - 1
    modifies u, buffer`maxPos, buffer`cells, buffer`place, buffer.unit, buffer.queue`count
    ensures buffer.Valid() && buffer.Pooled() && buffer.RcvDataSize() == 0 && |buffer.cells| == buffer.size
    ensures buffer.maxPos == i && Begun(buffer.cells, i + 1)
  {
    buffer.NotHeld(u);
    u.packet := Packet([1], MsgField(i == 0, false, false, 1));
    assert buffer.Valid();
    hide RcvBuffer.Valid;
    var stored := buffer.AddData(u, i);
  }

  /** The search finds no end of the message. */
  lemma BegunOpen(r: Ring)
    requires 3 <= |r.cells| && Begun(r.cells, |r.cells| - 1) && r.acked == 0 && r.maxPos == |r.cells| - 2
    ensures NextHit(r) == Nothing(0)
  {
    OpenFrom(r.cells, r.maxPos, 1);
  }

  lemma {:induction false} OpenFrom(cells: seq<Cell>, n: int, q: int)
    requires 1 <= q <= n + 1 < |cells| && Begun(cells, n + 1)
    ensures Scan(cells, 0, n, q, 0) == Nothing(0)
    decreases n - q
  {
    if q <= n {
      OpenFrom(cells, n, q + 1);
    }
  }
}
