/** The receive buffers of all the sockets of one multiplexer on their shared pool of units: whatever packets arrive and
    whatever is read, a unit is in use just if exactly one slot of one buffer holds it. */
module SharedPool {
  import opened Packets
  import opened UnitPool
  import opened RcvBuf

  /** held lists the units in each buffer: no unit is in two of them, and the units in use are those in some buffer. */
  ghost predicate Shares(held: seq<set<Unit>>, pool: set<Unit>, busy: set<Unit>) {
    && (forall i, j :: 0 <= i < j < |held| ==> held[i] !! held[j])
    && (forall i :: 0 <= i < |held| ==> held[i] <= pool)
    && busy <= pool && (forall u :: u in busy ==> exists i :: 0 <= i < |held| && u in held[i])
    && (forall i, u :: 0 <= i < |held| && u in held[i] ==> u in busy)
  }

  /** Buffer i gives some units back. */
  lemma SharesLess(held: seq<set<Unit>>, pool: set<Unit>, busy: set<Unit>, i: nat, kept: set<Unit>, busy2: set<Unit>)
    requires Shares(held, pool, busy) && i < |held| && kept <= held[i] && busy2 == busy - (held[i] - kept)
    ensures Shares(held[i := kept], pool, busy2)
  {
    var held2 := held[i := kept];
    forall u | u in busy2 ensures exists j :: 0 <= j < |held2| && u in held2[j] {
      var j :| 0 <= j < |held| && u in held[j];
      assert u in held2[j];
    }
    forall j, u | 0 <= j < |held2| && u in held2[j] ensures u in busy2 {
      assert u in held[j];
    }
  }

  /** Buffer i takes a free unit. */
  lemma SharesMore(held: seq<set<Unit>>, pool: set<Unit>, busy: set<Unit>, i: nat, u: Unit)
    requires Shares(held, pool, busy) && i < |held| && u in pool && u !in busy
    ensures Shares(held[i := held[i] + {u}], pool, busy + {u})
  {
    var held2 := held[i := held[i] + {u}];
    forall v | v in busy + {u} ensures exists j :: 0 <= j < |held2| && v in held2[j] {
      if v in busy {
        var j :| 0 <= j < |held| && v in held[j];
        assert v in held2[j];
      } else {
        assert v in held2[i];
      }
    }
  }

  /** What buffer i holds is in use, and no other buffer holds it. */
  lemma SharesWith(held: seq<set<Unit>>, pool: set<Unit>, busy: set<Unit>, i: nat)
    requires Shares(held, pool, busy) && i < |held|
    ensures held[i] <= busy <= pool && forall j :: 0 <= j < |held| && j != i ==> held[i] !! held[j]
  {
  }

  lemma SharesAppend(held: seq<set<Unit>>, pool: set<Unit>, busy: set<Unit>)
    requires Shares(held, pool, busy)
    ensures Shares(held + [{}], pool, busy)
  {
    forall u | u in busy ensures exists i :: 0 <= i < |held + [{}]| && u in (held + [{}])[i] {
      var i :| 0 <= i < |held| && u in held[i];
      assert u in (held + [{}])[i];
    }
  }

  /** The buffer i goes, with all that it holds. */
  lemma SharesWithout(held: seq<set<Unit>>, pool: set<Unit>, busy: set<Unit>, i: nat)
    requires Shares(held, pool, busy) && i < |held|
    ensures Shares(held[..i] + held[i + 1..], pool, busy - held[i])
  {
    var held2 := held[..i] + held[i + 1..];
    forall u | u in busy - held[i] ensures exists j :: 0 <= j < |held2| && u in held2[j] {
      var j :| 0 <= j < |held| && u in held[j];
      assert u in held2[if j < i then j else j - 1];
    }
  }

  // ---------- Runs ----------

  /** The units in each receive buffer, all units, those in use, and the count the pool keeps. */
  datatype Pool = Pool(held: seq<set<Unit>>, units: set<Unit>, busy: set<Unit>, count: int)

  /** What the methods of a receive buffer and of the pool may do, one call after the other: a free unit goes into
      buffer i; buffer i keeps only some of its units and the others are free again (units marked as read out of order
      stay in use); the pool grows by units that are free; a socket opens with an empty buffer; socket i closes. */
  datatype Action =
    | Take(i: nat, u: Unit)
    | GiveBack(i: nat, kept: set<Unit>)
    | Grow(more: set<Unit>)
    | Opens
    | Closes(i: nat)

  /** The units in use are those in some buffer, none in two, and the count is their number. */
  ghost predicate Consistent(p: Pool) {
    Shares(p.held, p.units, p.busy) && p.count == |p.busy|
  }

  ghost predicate Possible(p: Pool, a: Action) {
    match a
    case Take(i, u) => i < |p.held| && u in p.units && u !in p.busy
    case GiveBack(i, kept) => i < |p.held| && kept <= p.held[i]
    case Grow(more) => more !! p.units
    case Opens => true
    case Closes(i) => i < |p.held|
  }

  ghost function Next(p: Pool, a: Action): Pool
    requires Possible(p, a)
  {
    match a
    case Take(i, u) => Pool(p.held[i := p.held[i] + {u}], p.units, p.busy + {u}, p.count + 1)
    case GiveBack(i, kept) =>
      Pool(p.held[i := kept], p.units, p.busy - (p.held[i] - kept), p.count - |p.held[i] - kept|)
    case Grow(more) => p.(units := p.units + more)
    case Opens => p.(held := p.held + [{}])
    case Closes(i) =>
      Pool(p.held[..i] + p.held[i + 1..], p.units, p.busy - p.held[i], p.count - |p.held[i]|)
  }

  ghost predicate Leads(p: Pool, a: Action, p2: Pool) {
    Possible(p, a) && p2 == Next(p, a)
  }

  ghost function Run(actions: seq<Action>): Pool {
    if actions == [] then Pool([], {}, {}, 0)
    else
      var p, a := Run(actions[..|actions| - 1]), actions[|actions| - 1];
      if Possible(p, a) then Next(p, a) else p
  }

  lemma NextKeeps(p: Pool, a: Action)
    requires Consistent(p) && Possible(p, a)
    ensures Consistent(Next(p, a))
  {
    hide Shares;
    match a
    case Take(i, u) => SharesMore(p.held, p.units, p.busy, i, u);
    case GiveBack(i, kept) =>
      SharesWith(p.held, p.units, p.busy, i);
      SharesLess(p.held, p.units, p.busy, i, kept, p.busy - (p.held[i] - kept));
      Fewer(p.busy, p.held[i] - kept);
    case Grow(more) => SharesGrow(p.held, p.units, p.busy, more);
    case Opens => SharesAppend(p.held, p.units, p.busy);
    case Closes(i) =>
      SharesWith(p.held, p.units, p.busy, i);
      SharesWithout(p.held, p.units, p.busy, i);
      Fewer(p.busy, p.held[i]);
  }

  lemma Fewer(all: set<Unit>, some: set<Unit>)
    requires some <= all
    ensures |all - some| == |all| - |some|
  {
  }

  lemma SharesGrow(held: seq<set<Unit>>, pool: set<Unit>, busy: set<Unit>, more: set<Unit>)
    requires Shares(held, pool, busy)
    ensures Shares(held, pool + more, busy)
  {
  }

  /** In every run a unit is in use just if exactly one buffer holds it, and the count is the number of units in use. */
  lemma {:induction false} EveryRun(actions: seq<Action>)
    ensures Consistent(Run(actions))
  {
    if actions != [] {
      var p, a := Run(actions[..|actions| - 1]), actions[|actions| - 1];
      EveryRun(actions[..|actions| - 1]);
      if Possible(p, a) {
        NextKeeps(p, a);
      }
    }
  }

  // ---------- The buffers themselves ----------

  /** The receive buffers of the sockets, and the pool they share. */
  datatype Group = Group(queue: UnitQueue, buffers: seq<RcvBuffer>)

  ghost function Helds(buffers: seq<RcvBuffer>): (r: seq<set<Unit>>)
    reads buffers
    ensures |r| == |buffers| && forall i :: 0 <= i < |r| ==> r[i] == buffers[i].Held()
  {
    seq(|buffers|, i requires 0 <= i < |buffers| reads buffers => buffers[i].Held())
  }

  ghost predicate Separate(buffers: seq<RcvBuffer>) {
    forall i, j :: 0 <= i < j < |buffers| ==> buffers[i] != buffers[j] && buffers[i].unit != buffers[j].unit
  }

  ghost predicate AllValid(g: Group)
    reads g.queue`pool, g.queue.pool`packet, g.queue.pool`flag, g.buffers, set i | 0 <= i < |g.buffers| :: g.buffers[i].unit
  {
    forall i :: 0 <= i < |g.buffers| ==>
      g.buffers[i].queue == g.queue && g.buffers[i].Held() <= g.queue.pool && g.buffers[i].Valid()
  }

  ghost function State(g: Group): Pool
    reads g.queue`pool, g.queue`count, g.queue.pool`flag, g.buffers
  {
    Pool(Helds(g.buffers), g.queue.pool, Busy(g.queue.pool), g.queue.count)
  }

  /** The buffers share the pool. */
  ghost predicate Sharing(g: Group)
    reads g.queue`pool, g.queue`count, g.queue.pool`packet, g.queue.pool`flag
    reads g.buffers, set i | 0 <= i < |g.buffers| :: g.buffers[i].unit
  {
    Separate(g.buffers) && AllValid(g) && Consistent(State(g))
  }

  /** A unit of the pool is in use just if some slot of some buffer holds it, and no two slots hold the same unit. */
  lemma OneOwner(g: Group, u: Unit)
    requires Sharing(g) && u in g.queue.pool
    ensures u.flag != 0 <==> exists i, k :: HeldAt(g, i, k, u)
    ensures forall i, k, j, l :: HeldAt(g, i, k, u) && HeldAt(g, j, l, u) ==> i == j && k == l
  {
    if u.flag != 0 {
      assert u in Busy(g.queue.pool);
      var i :| 0 <= i < |Helds(g.buffers)| && u in Helds(g.buffers)[i];
      assert HeldAt(g, i, g.buffers[i].place[u], u);
    }
    forall i, k | HeldAt(g, i, k, u) ensures u in Helds(g.buffers)[i] && k == g.buffers[i].place[u] {
    }
  }

  ghost predicate HeldAt(g: Group, i: int, k: int, u: Unit)
    reads g.buffers, set i | 0 <= i < |g.buffers| :: g.buffers[i].unit
  {
    0 <= i < |g.buffers| && 0 <= k < g.buffers[i].unit.Length && g.buffers[i].unit[k] == u
  }

  /** A buffer whose slots and units are as they were is as it was. */
  twostate lemma Untouched(b: RcvBuffer)
    requires old(b.Valid()) && unchanged(b) && unchanged(b.unit)
    requires forall u :: u in old(b.Held()) ==> unchanged(u)
    ensures b.Valid() && b.Held() == old(b.Held())
  {
  }

  twostate predicate OthersSame(g: Group, i: nat)
    requires i < |g.buffers|
    reads g.queue, g.queue.pool, g.buffers, set j | 0 <= j < |g.buffers| :: g.buffers[j].unit
  {
    && (forall j :: 0 <= j < |g.buffers| && j != i ==> unchanged(g.buffers[j]) && unchanged(g.buffers[j].unit))
    && old(g.queue.pool) <= g.queue.pool
    && forall u :: u in old(Busy(g.queue.pool)) - old(g.buffers[i].Held()) ==> unchanged(u)
  }

  /** Only buffer i has changed, and no unit that another buffer holds. */
  twostate lemma Others(g: Group, new i: nat)
    requires old(Sharing(g)) && i < |g.buffers| && OthersSame(g, i)
    ensures forall j :: 0 <= j < |g.buffers| && j != i ==>
              && g.buffers[j].Valid() && g.buffers[j].Held() == old(g.buffers[j].Held())
              && g.buffers[j].queue == g.queue && g.buffers[j].Held() <= g.queue.pool
  {
    hide RcvBuffer.Valid;
    SharesWith(old(Helds(g.buffers)), old(g.queue.pool), old(Busy(g.queue.pool)), i);
    forall j | 0 <= j < |g.buffers| && j != i ensures g.buffers[j].Valid() && g.buffers[j].Held() == old(g.buffers[j].Held()) {
      assert old(Helds(g.buffers))[j] <= old(Busy(g.queue.pool)) - old(g.buffers[i].Held());
      Untouched(g.buffers[j]);
    }
  }

  twostate lemma OnlyThis(g: Group, new i: nat)
    requires old(Sharing(g)) && i < |g.buffers| && OthersSame(g, i)
    requires g.buffers[i].Valid() && g.buffers[i].Held() <= g.queue.pool
    ensures AllValid(g) && Helds(g.buffers) == old(Helds(g.buffers))[i := g.buffers[i].Held()]
  {
    hide RcvBuffer.Valid, Shares;
    Others(g, i);
  }

  lemma Taken(p: Pool, i: nat, u: Unit, p2: Pool, stored: bool)
    requires Consistent(p) && i < |p.held| && u in p.units && u !in p.busy
    requires p2.held == p.held[i := if stored then p.held[i] + {u} else p.held[i]] && p2.units == p.units
    requires p2.busy == (if stored then p.busy + {u} else p.busy) && p2.count == |p2.busy|
    ensures Consistent(p2) && if stored then Leads(p, Take(i, u), p2) else p2 == p
  {
    if stored {
      NextKeeps(p, Take(i, u));
    }
  }

  twostate lemma OneMore(g: Group, new u: Unit)
    requires g.queue.pool == old(g.queue.pool) && u in g.queue.pool && u !in old(Busy(g.queue.pool))
    requires forall v :: v in g.queue.pool && v != u ==> unchanged(v)
    ensures Busy(g.queue.pool) == old(Busy(g.queue.pool)) + if u.flag != 0 then {u} else {}
  {
  }

  /** Buffer i has taken unit u, or nothing. */
  twostate lemma Took(g: Group, new i: nat, new u: Unit, new stored: bool)
    requires old(Sharing(g)) && i < |g.buffers| && OthersSame(g, i) && g.queue.pool == old(g.queue.pool)
    requires g.buffers[i].Valid() && g.queue.Counted() && u in g.queue.pool && u !in old(Busy(g.queue.pool))
    requires g.buffers[i].Held() == old(g.buffers[i].Held()) + if stored then {u} else {}
    requires (stored <==> u.flag != 0) && forall v :: v in g.queue.pool && v != u ==> unchanged(v)
    ensures Sharing(g)
    ensures if stored then Leads(old(State(g)), Take(i, u), State(g)) else State(g) == old(State(g))
  {
    hide RcvBuffer.Valid, Shares, Leads;
    OnlyThis(g, i);
    OneMore(g, u);
    Taken(old(State(g)), i, u, State(g), stored);
  }

  /** A packet arrives for the socket whose buffer is b. */
  method Arrive(ghost g: Group, b: RcvBuffer, ghost i: nat, u: Unit, offset: int)
    returns (stored: bool)
    requires Sharing(g) && i < |g.buffers| && b == g.buffers[i] && u in g.queue.pool && u.flag == 0
    requires 0 <= offset < b.AvailBufSize()
    modifies b`maxPos, b`cells, b`place, b.unit, u`flag, g.queue`count
    ensures Sharing(g) && (!stored ==> u.flag == 0)
    ensures if stored then Leads(old(State(g)), Take(i, u), State(g)) else State(g) == old(State(g))
  {
    hide RcvBuffer.Valid, Shares, Leads;
    assert u !in Busy(g.queue.pool);
    stored := b.AddData(u, offset);
    InUse(b);
    Took(g, i, u, stored);
  }

  lemma InUse(b: RcvBuffer)
    requires b.Valid()
    ensures forall u :: u in b.Held() ==> u.flag != 0
  {
  }

  twostate lemma StillInUse(g: Group, new i: nat)
    requires i < |g.buffers| && g.buffers[i].GaveBack(old(g.buffers[i].Held()))
    requires forall u :: u in g.buffers[i].Held() ==> u.flag != 0
    requires g.queue.pool == old(g.queue.pool) && old(g.buffers[i].Held()) <= old(Busy(g.queue.pool))
    requires forall u :: u in g.queue.pool - old(g.buffers[i].Held()) ==> unchanged(u)
    ensures Busy(g.queue.pool) == old(Busy(g.queue.pool)) - (old(g.buffers[i].Held()) - g.buffers[i].Held())
  {
    var left := old(Busy(g.queue.pool)) - (old(g.buffers[i].Held()) - g.buffers[i].Held());
    forall u: Unit | u in left ensures u in Busy(g.queue.pool) {
      assert u in g.queue.pool;
      if u !in old(g.buffers[i].Held()) {
        assert u in g.queue.pool - old(g.buffers[i].Held());
      }
    }
    forall u: Unit | u in Busy(g.queue.pool) ensures u in left {
      if u !in old(g.buffers[i].Held()) {
        assert u in g.queue.pool - old(g.buffers[i].Held());
      }
    }
  }

  lemma Given(p: Pool, i: nat, kept: set<Unit>, p2: Pool)
    requires Consistent(p) && i < |p.held| && kept <= p.held[i] && p2.held == p.held[i := kept]
    requires p2.units == p.units && p2.busy == p.busy - (p.held[i] - kept) && p2.count == |p2.busy|
    ensures Consistent(p2) && Leads(p, GiveBack(i, kept), p2)
  {
    NextKeeps(p, GiveBack(i, kept));
  }

  /** Buffer i has given back what it no longer holds. */
  twostate lemma GaveBack(g: Group, new i: nat)
    requires old(Sharing(g)) && i < |g.buffers| && OthersSame(g, i) && g.queue.pool == old(g.queue.pool)
    requires g.buffers[i].Valid() && g.buffers[i].GaveBack(old(g.buffers[i].Held())) && g.queue.Counted()
    requires forall u :: u in g.queue.pool - old(g.buffers[i].Held()) ==> unchanged(u)
    ensures Sharing(g) && Leads(old(State(g)), GiveBack(i, g.buffers[i].Held()), State(g))
  {
    OnlyThis(g, i);
    var b := g.buffers[i];
    hide Consistent, Leads, Helds;
    InUse(b);
    hide RcvBuffer.Valid;
    StillInUse(g, i);
    Given(old(State(g)), i, b.Held(), State(g));
  }

  /** The socket whose buffer is b reads a stream. */
  method ReadStream(ghost g: Group, b: RcvBuffer, ghost i: nat, len: int) returns (data: seq<byte>)
    requires Sharing(g) && i < |g.buffers| && b == g.buffers[i]
    requires AllFull(b.cells[..b.RcvDataSize()]) && NotchInside(PacketsOf(b.cells[..b.RcvDataSize()]), b.notch)
    modifies b`notch, b`startPos, b`cells, b`place, b.unit, b.Held()`flag, g.queue`count
    ensures Sharing(g) && Leads(old(State(g)), GiveBack(i, b.Held()), State(g))
  {
    hide RcvBuffer.Valid, NotchInside, AllFull, Read;
    data := b.ReadBuffer(len);
    GaveBack(g, i);
  }

  /** The socket whose buffer is b reads a message. */
  method ReadMessage(ghost g: Group, b: RcvBuffer, ghost i: nat, len: nat) returns (data: seq<byte>)
    requires Sharing(g) && i < |g.buffers| && b == g.buffers[i]
    modifies b`startPos, b`cells, b`place, b.unit, b.Held()`flag, g.queue`count
    ensures Sharing(g) && Leads(old(State(g)), GiveBack(i, b.Held()), State(g))
  {
    hide RcvBuffer.Valid, MsgRead, NextHit, Skipped;
    data := b.ReadMsg(len);
    GaveBack(g, i);
  }

  /** The pool has grown by free units, and nothing else has changed. */
  twostate lemma Grown(g: Group)
    requires old(Sharing(g)) && old(g.queue.pool) <= g.queue.pool && g.queue.Counted()
    requires forall j :: 0 <= j < |g.buffers| ==> unchanged(g.buffers[j]) && unchanged(g.buffers[j].unit)
    requires forall u :: u in old(g.queue.pool) ==> unchanged(u)
    requires forall u :: u in g.queue.pool - old(g.queue.pool) ==> u.flag == 0
    ensures Sharing(g) && Leads(old(State(g)), Grow(g.queue.pool - old(g.queue.pool)), State(g))
  {
    hide RcvBuffer.Valid;
    forall j | 0 <= j < |g.buffers| ensures g.buffers[j].Valid() && g.buffers[j].Held() == old(g.buffers[j].Held()) {
      Untouched(g.buffers[j]);
    }
    assert Helds(g.buffers) == old(Helds(g.buffers));
    assert Busy(g.queue.pool) == old(Busy(g.queue.pool));
    NextKeeps(old(State(g)), Grow(g.queue.pool - old(g.queue.pool)));
    assert g.queue.pool == old(g.queue.pool) + (g.queue.pool - old(g.queue.pool));
  }

  /** A unit is looked for, for a packet that is about to arrive; the pool may grow. */
  method NextUnit(ghost g: Group, queue: UnitQueue) returns (u: Unit?)
    requires Sharing(g) && queue == g.queue && queue.Ringed()
    modifies queue, queue.entries`next
    ensures Sharing(g) && queue.Ringed() && (u != null ==> u in queue.pool && u.flag == 0)
    ensures Leads(old(State(g)), Grow(queue.pool - old(queue.pool)), State(g))
  {
    hide RcvBuffer.Valid, UnitQueue.Ringed;
    u := queue.GetNextAvailUnit();
    Grown(g);
  }

  // ---------- Sockets come and go ----------

  /** A socket opens. */
  method Open(ghost g: Group, queue: UnitQueue, size: int) returns (b: RcvBuffer, ghost g2: Group)
    requires Sharing(g) && queue == g.queue && 2 <= size
    ensures fresh(b) && fresh(b.unit) && b.size == size && g2 == Group(queue, g.buffers + [b]) && Sharing(g2)
    ensures Leads(State(g), Opens, State(g2))
  {
    hide RcvBuffer.Valid, Shares;
    SharesAppend(Helds(g.buffers), queue.pool, Busy(queue.pool));
    b := new RcvBuffer(queue, size);
    g2 := Group(queue, g.buffers + [b]);
    assert Helds(g2.buffers) == Helds(g.buffers) + [{}];
  }

  function Without(g: Group, i: nat): Group
    requires i < |g.buffers|
  {
    Group(g.queue, g.buffers[..i] + g.buffers[i + 1..])
  }

  /** The buffers but one are valid. */
  lemma WithoutValid(g: Group, i: nat, held: seq<set<Unit>>)
    requires i < |g.buffers| == |held| && Separate(g.buffers)
    requires forall j :: 0 <= j < |g.buffers| && j != i ==>
               && g.buffers[j].Valid() && g.buffers[j].Held() == held[j]
               && g.buffers[j].queue == g.queue && g.buffers[j].Held() <= g.queue.pool
    ensures Separate(Without(g, i).buffers) && AllValid(Without(g, i))
    ensures Helds(Without(g, i).buffers) == held[..i] + held[i + 1..]
  {
    hide RcvBuffer.Valid;
  }

  twostate lemma Closed(g: Group, new i: nat)
    requires old(Sharing(g)) && i < |g.buffers| && OthersSame(g, i) && g.queue.Counted()
    requires g.queue.pool == old(g.queue.pool) && forall u :: u in g.queue.pool - old(g.buffers[i].Held()) ==> unchanged(u)
    requires g.buffers[i].Held() == {} && g.buffers[i].GaveBack(old(g.buffers[i].Held()))
    ensures Sharing(Without(g, i))
    ensures Leads(old(State(g)), Closes(i), State(Without(g, i)))
  {
    hide RcvBuffer.Valid, Shares, Leads;
    Others(g, i);
    SharesWith(old(Helds(g.buffers)), old(g.queue.pool), old(Busy(g.queue.pool)), i);
    StillInUse(g, i);
    WithoutValid(g, i, old(Helds(g.buffers)));
    Gone(old(State(g)), i, State(Without(g, i)));
  }

  lemma Gone(p: Pool, i: nat, p2: Pool)
    requires Consistent(p) && i < |p.held| && p2.held == p.held[..i] + p.held[i + 1..]
    requires p2.units == p.units && p2.busy == p.busy - p.held[i] && p2.count == |p2.busy|
    ensures Consistent(p2) && Leads(p, Closes(i), p2)
  {
    NextKeeps(p, Closes(i));
  }

  /** The socket whose buffer is b closes. */
  method Close(ghost g: Group, b: RcvBuffer, ghost i: nat)
    requires Sharing(g) && i < |g.buffers| && b == g.buffers[i]
    modifies b`place, b.Held()`flag, g.queue`count
    ensures Sharing(Without(g, i)) && Leads(old(State(g)), Closes(i), State(Without(g, i)))
  {
    hide RcvBuffer.Valid, Shares;
    b.Destroy();
    Closed(g, i);
  }
}
