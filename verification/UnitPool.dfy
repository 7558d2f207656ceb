/** The packet units that all sockets of one multiplexer share, CUnitQueue: a ring of blocks of units that grows when
    nine tenths of the units are in use. */
module UnitPool {
  import opened Packets
  import opened Rings

  /** flag is 0 if the unit is free, 1 if it holds a packet, 2 if its packet has been read out of order. */
  class Unit {
    var packet: Packet
    var flag: int

    constructor ()
      ensures flag == 0
    {
      packet, flag := Packet([], MsgField(false, false, false, 0)), 0;
    }
  }

  /** The units in use. */
  ghost function Busy(pool: set<Unit>): set<Unit>
    reads pool`flag
  {
    set u | u in pool && u.flag != 0
  }

  /** A block of units, linked to the next block of the ring. */
  class QEntry {
    const unit: seq<Unit>
    var next: QEntry?

    constructor (unit: seq<Unit>)
      ensures this.unit == unit && next == null
    {
      this.unit, next := unit, null;
    }
  }

  ghost predicate AllFree(p: QEntry)
    reads set k | 0 <= k < |p.unit| :: p.unit[k]
  {
    forall k :: 0 <= k < |p.unit| ==> p.unit[k].flag == 0
  }

  /** units lists the units of the set all, each once. */
  ghost predicate Lists(units: seq<Unit>, all: set<Unit>) {
    && |all| == |units| && (forall i :: 0 <= i < |units| ==> units[i] in all)
    && (forall i, j :: 0 <= i < j < |units| ==> units[i] != units[j])
    && (forall u :: u in all ==> exists i :: 0 <= i < |units| && units[i] == u)
  }

  /** n new units. */
  method NewUnits(n: nat) returns (units: seq<Unit>, ghost all: set<Unit>)
    ensures |units| == n && Lists(units, all) && fresh(all) && forall u :: u in all ==> u.flag == 0
    ensures forall i :: 0 <= i < n ==> units[i].flag == 0
  {
    hide Lists;
    units, all := [], {};
    ListsNone();
    for k := 0 to n
      invariant |units| == k && Lists(units, all) && fresh(all) && forall u :: u in all ==> u.flag == 0
      invariant forall i :: 0 <= i < k ==> units[i].flag == 0
    {
      var u := new Unit();
      ListsMore(units, all, u);
      units, all := units + [u], all + {u};
    }
  }

  lemma ListsNone()
    ensures Lists([], {})
  {
  }

  lemma ListsMore(units: seq<Unit>, all: set<Unit>, u: Unit)
    requires Lists(units, all) && u !in all
    ensures Lists(units + [u], all + {u})
  {
    var more := units + [u];
    forall v | v in all + {u} ensures exists i :: 0 <= i < |more| && more[i] == v {
      if v in all {
        var i :| 0 <= i < |units| && units[i] == v;
        assert more[i] == v;
      } else {
        assert more[|units|] == v;
      }
    }
  }

  /** A new block of n units. */
  method NewBlock(n: nat) returns (tempq: QEntry, ghost all: set<Unit>)
    ensures fresh(tempq) && |tempq.unit| == n
    ensures Lists(tempq.unit, all) && AllFree(tempq) && fresh(all) && forall u :: u in all ==> u.flag == 0
  {
    hide Lists;
    var tempu;
    tempu, all := NewUnits(n);
    tempq := new QEntry(tempu);
  }

  class UnitQueue {
    var qEntry: QEntry
    var currQueue: QEntry
    var lastQueue: QEntry
    var availUnit: nat
    var size: int
    var count: int

    // All the units; the blocks in the order of the ring; which of them is the current one.
    ghost var pool: set<Unit>
    ghost var entries: seq<QEntry>
    ghost var cur: nat

    /** count is the number of units in use. */
    ghost predicate Counted()
      reads this`count, this`pool, pool`flag
    {
      count == |Busy(pool)|
    }

    /** The blocks form a ring, and their units are the pool. */
    ghost predicate Ringed()
      reads this`qEntry, this`currQueue, this`lastQueue, this`availUnit, this`size, this`pool, this`entries, this`cur
      reads entries`next
    {
      && Linked(entries) && Stocked(entries, pool) && |pool| == size
      && qEntry == entries[0] && lastQueue == entries[|entries| - 1]
      && cur < |entries| && currQueue == entries[cur] && availUnit < |currQueue.unit|
    }

    static ghost predicate Linked(entries: seq<QEntry>)
      reads entries`next
    {
      && entries != []
      && (forall i, j :: 0 <= i < j < |entries| ==> entries[i] != entries[j])
      && (forall i :: 0 <= i < |entries| - 1 ==> entries[i].next == entries[i + 1])
      && entries[|entries| - 1].next == entries[0]
    }

    /** The blocks hold different units, as many in each block, and these are all the units. */
    static ghost predicate Stocked(entries: seq<QEntry>, pool: set<Unit>) {
      && entries != [] && (forall i :: 0 <= i < |entries| ==> |entries[i].unit| == |entries[0].unit| > 0)
      && Inside(entries, pool) && Covering(entries, pool) && Different(entries)
    }

    static ghost predicate Inside(entries: seq<QEntry>, pool: set<Unit>) {
      forall i, k :: 0 <= i < |entries| && 0 <= k < |entries[i].unit| ==> entries[i].unit[k] in pool
    }

    static ghost predicate Covering(entries: seq<QEntry>, pool: set<Unit>) {
      forall u :: u in pool ==> exists i, k :: 0 <= i < |entries| && 0 <= k < |entries[i].unit| && entries[i].unit[k] == u
    }

    static ghost predicate Different(entries: seq<QEntry>) {
      forall i, k, j, l ::
        0 <= i < |entries| && 0 <= k < |entries[i].unit| && 0 <= j < |entries| && 0 <= l < |entries[j].unit|
        && entries[i].unit[k] == entries[j].unit[l]
        ==> i == j && k == l
    }

    constructor (size: nat)
      requires 0 < size
      ensures Ringed() && Counted() && count == 0 && this.size == size && fresh(pool) && fresh(qEntry)
      ensures entries == [qEntry] && cur == 0 && availUnit == 0 && |qEntry.unit| == size && AllFree(qEntry)
    {
      var tempq, all := NewBlock(size);
      tempq.next := tempq;
      qEntry, currQueue, lastQueue, availUnit := tempq, tempq, tempq, 0;
      this.size, count := size, 0;
      pool, entries, cur := all, [tempq], 0;
      new;
      assert Busy(pool) == {};
    }

    // ---------- Counting and growing ----------

    /** The units before unit k of block j. */
    static ghost predicate Before(entries: seq<QEntry>, j: int, k: int, done: set<Unit>) {
      && 0 <= j <= |entries|
      && (forall i, l :: 0 <= i < |entries| && 0 <= l < |entries[i].unit| && (i < j || (i == j && l < k)) ==>
            entries[i].unit[l] in done)
      && (forall u :: u in done ==>
            exists i, l :: 0 <= i < |entries| && 0 <= l < |entries[i].unit| && (i < j || (i == j && l < k))
                           && entries[i].unit[l] == u)
    }

    static lemma BeforeNext(entries: seq<QEntry>, j: int, k: int, done: set<Unit>, pool: set<Unit>)
      requires Stocked(entries, pool) && Before(entries, j, k, done) && 0 <= j < |entries| && 0 <= k < |entries[j].unit|
      ensures entries[j].unit[k] !in done && Before(entries, j, k + 1, done + {entries[j].unit[k]})
    {
    }

    static lemma BeforeEnd(entries: seq<QEntry>, j: int, done: set<Unit>, pool: set<Unit>)
      requires Stocked(entries, pool) && 0 <= j < |entries| && Before(entries, j, |entries[j].unit|, done)
      ensures Before(entries, j + 1, 0, done) && (j == |entries| - 1 ==> done == pool)
    {
      if j == |entries| - 1 {
        assert forall u :: u in pool ==> u in done;
      }
    }

    /** Count the units in use in block j. */
    method CountBlock(p: QEntry, n: nat, ghost j: int, ghost done: set<Unit>) returns (n2: nat, ghost done2: set<Unit>)
      requires Stocked(entries, pool) && 0 <= j < |entries| && p == entries[j] && Before(entries, j, 0, done)
      requires n == |Busy(done)|
      ensures n2 == |Busy(done2)| && Before(entries, j + 1, 0, done2) && (j == |entries| - 1 ==> done2 == pool)
    {
      hide Stocked, Before;
      n2, done2 := n, done;
      var i := 0;
      while i != |p.unit|
        invariant 0 <= i <= |p.unit| && n2 == |Busy(done2)| && Before(entries, j, i, done2)
        decreases |p.unit| - i
      {
        BeforeNext(entries, j, i, done2, pool);
        ghost var u := p.unit[i];
        assert Busy(done2 + {u}) == if u.flag != 0 then Busy(done2) + {u} else Busy(done2);
        if p.unit[i].flag != 0 {
          n2 := n2 + 1;
        }
        done2 := done2 + {u};
        i := i + 1;
      }
      BeforeEnd(entries, j, done2, pool);
    }

    /** How many units are in use. */
    method RealCount() returns (n: nat)
      requires Ringed()
      ensures n == |Busy(pool)|
    {
      n := 0;
      var p: QEntry? := qEntry;
      ghost var j, done := 0, {};
      assert Busy({}) == {};
      while p != null
        invariant 0 <= j <= |entries| && n == |Busy(done)| && Before(entries, j, 0, done)
        invariant if p == null then done == pool else j < |entries| && p == entries[j]
        decreases |entries| - j, p
      {
        n, done := CountBlock(p, n, j, done);
        assert p == lastQueue ==> j == |entries| - 1;
        j := j + 1;
        if p == lastQueue {
          p := null;
        } else {
          assert p.next == entries[j - 1].next == entries[j];
          p := p.next;
        }
      }
    }

    /** Set count right; add one more block if nine tenths of the units are in use. */
    method Increase() returns (grown: bool)
      requires Ringed()
      modifies this`count, this`size, this`lastQueue, this`pool, this`entries, lastQueue`next
      ensures Ringed() && Counted() && count == |Busy(old(pool))| && (grown <==> 10 * count >= 9 * old(size))
      ensures !grown ==> pool == old(pool) && entries == old(entries) && size == old(size)
      ensures grown ==> entries == old(entries) + [lastQueue] && size == old(size) + |old(entries)[0].unit| && fresh(lastQueue)
      ensures grown ==> AllFree(lastQueue)
      ensures old(pool) <= pool && fresh(pool - old(pool)) && forall u :: u in pool - old(pool) ==> u.flag == 0
    {
      SizePositive();
      count := RealCount();
      NineTenths(count, size);
      if count as real / size as real < 0.9 {
        return false;
      }
      hide Linked, Stocked;
      AddBlock();
      return true;
    }

    static lemma NineTenths(count: int, size: int)
      requires size > 0
      ensures count as real / size as real < 0.9 <==> 10 * count < 9 * size
    {
      var c, s := count as real, size as real;
      Ratio(c, s);
      assert c < 0.9 * s <==> 10.0 * c < 9.0 * s;
      assert 10.0 * c == (10 * count) as real && 9.0 * s == (9 * size) as real;
    }

    /** The program divides doubles.  Rounding keeps the order of numbers and is off by at most 2^-53 between 0 and 1, so
        the test on rounded numbers has the same outcome. */
    static lemma RoundedNineTenths(count: int, size: int, round: real -> real)
      requires 0 <= count && 0 < size < 0x8000_0000
      requires forall x, y :: x <= y ==> round(x) <= round(y)
      requires forall x :: 0.0 <= x <= 1.0 ==> -EPSILON <= round(x) - x <= EPSILON
      ensures round(count as real / size as real) < round(0.9) <==> 10 * count < 9 * size
    {
      var c, s := count as real, size as real;
      NineTenths(count, size);
      if 10 * count < 9 * size {
        Gap(c, s);
        assert 10 * count + 1 <= 9 * size;
        assert 10.0 * c + 1.0 <= 9.0 * s;
        assert round(c / s) <= c / s + EPSILON && 0.9 - EPSILON <= round(0.9);
      } else {
        assert round(0.9) <= round(c / s);
      }
    }

    static const EPSILON: real := 1.0 / 9007199254740992.0

    /** The quotient is below nine tenths by a tenth of 1 / s at least. */
    static lemma Gap(c: real, s: real)
      requires 0.0 <= c && 0.0 < s < 2147483648.0 && 10.0 * c + 1.0 <= 9.0 * s
      ensures 0.0 <= c / s && c / s + 2.0 * EPSILON < 0.9
    {
      var q := c / s;
      assert q * s == c;
      Scale(-q, s);
      var d := q + 2.0 * EPSILON - 0.9;
      Scale(d, s);
      assert d * s == c + 2.0 * EPSILON * s - 0.9 * s;
    }

    static lemma Ratio(c: real, s: real)
      requires s > 0.0
      ensures c / s < 0.9 <==> c < 0.9 * s
    {
      var q := c / s;
      assert q * s == c;
      Scale(0.9 - q, s);
      Scale(q - 0.9, s);
      assert (0.9 - q) * s == 0.9 * s - c && (q - 0.9) * s == c - 0.9 * s;
    }

    static lemma Scale(d: real, s: real)
      requires s > 0.0
      ensures d > 0.0 ==> d * s > 0.0
      ensures d >= 0.0 ==> d * s >= 0.0
    {
    }

    lemma SizePositive()
      requires Ringed()
      ensures size > 0
    {
      assert entries[0].unit[0] in pool;
    }

    method AddBlock()
      requires Ringed() && Counted()
      modifies this`size, this`lastQueue, this`pool, this`entries, lastQueue`next
      ensures Ringed() && Counted() && AllFree(lastQueue)
      ensures entries == old(entries) + [lastQueue] && size == old(size) + |old(entries)[0].unit| && fresh(lastQueue)
      ensures old(pool) <= pool && fresh(pool - old(pool)) && forall u :: u in pool - old(pool) ==> u.flag == 0
    {
      hide Stocked, Busy, Linked, Lists;
      var tempq, all := NewBlock(|qEntry.unit|);
      Restocked(entries, pool, tempq, all);
      NotYetLinked(tempq);
      Append(tempq, all);
    }

    lemma NotYetLinked(tempq: QEntry)
      requires Ringed() && tempq !in entries
      ensures forall i :: 0 <= i < |entries| ==> entries[i] != tempq
    {
    }

    /** A new block becomes the last one. */
    method Append(tempq: QEntry, ghost all: set<Unit>)
      requires Ringed() && Counted() && (forall u :: u in all ==> u.flag == 0)
      requires Stocked(entries + [tempq], pool + all) && |pool + all| == size + |tempq.unit|
      requires forall i :: 0 <= i < |entries| ==> entries[i] != tempq
      modifies this`size, this`lastQueue, this`pool, this`entries, lastQueue`next, tempq`next
      ensures Ringed() && Counted() && lastQueue == tempq && size == old(size) + |tempq.unit|
      ensures entries == old(entries) + [tempq] && pool == old(pool) + all
    {
      hide Stocked, Busy, Linked;
      var last := lastQueue;
      lastQueue := tempq;
      size := size + |tempq.unit|;
      entries, pool := entries + [tempq], pool + all;
      LinkBlock(last, tempq, old(entries));
      StillBusy(old(pool), all);
    }

    static twostate lemma StillBusy(pool: set<Unit>, new all: set<Unit>)
      requires forall u :: u in pool ==> u.flag == old(u.flag)
      requires forall u :: u in all ==> u.flag == 0
      ensures Busy(pool + all) == old(Busy(pool))
    {
    }

    /** Link a new block in behind the last one. */
    method LinkBlock(last: QEntry, tempq: QEntry, ghost entries: seq<QEntry>)
      requires Linked(entries) && qEntry == entries[0] && last == entries[|entries| - 1]
      requires forall i :: 0 <= i < |entries| ==> entries[i] != tempq
      modifies last`next, tempq`next
      ensures Linked(entries + [tempq])
    {
      last.next := tempq;
      tempq.next := qEntry;
    }

    static lemma Restocked(entries: seq<QEntry>, pool: set<Unit>, tempq: QEntry, all: set<Unit>)
      requires Stocked(entries, pool) && pool !! all && |tempq.unit| == |entries[0].unit| && Lists(tempq.unit, all)
      ensures Stocked(entries + [tempq], pool + all) && |pool + all| == |pool| + |tempq.unit|
    {
      hide Inside, Covering, Different;
      StillInside(entries, pool, tempq, all);
      StillCovering(entries, pool, tempq, all);
      StillDifferent(entries, pool, tempq, all);
    }

    static lemma StillInside(entries: seq<QEntry>, pool: set<Unit>, tempq: QEntry, all: set<Unit>)
      requires Inside(entries, pool) && Lists(tempq.unit, all)
      ensures Inside(entries + [tempq], pool + all)
    {
    }

    static lemma StillDifferent(entries: seq<QEntry>, pool: set<Unit>, tempq: QEntry, all: set<Unit>)
      requires Inside(entries, pool) && Different(entries) && pool !! all && Lists(tempq.unit, all)
      ensures Different(entries + [tempq])
    {
      var more, n := entries + [tempq], |entries|;
      forall i, k, j, l |
        0 <= i < |more| && 0 <= k < |more[i].unit| && 0 <= j < |more| && 0 <= l < |more[j].unit|
        && more[i].unit[k] == more[j].unit[l]
        ensures i == j && k == l
      {
        assert i < n ==> more[i].unit[k] in pool;
        assert j < n ==> more[j].unit[l] in pool;
        assert i == n ==> more[i].unit[k] in all;
        assert j == n ==> more[j].unit[l] in all;
      }
    }

    static lemma StillCovering(entries: seq<QEntry>, pool: set<Unit>, tempq: QEntry, all: set<Unit>)
      requires Covering(entries, pool) && Lists(tempq.unit, all)
      ensures Covering(entries + [tempq], pool + all)
    {
      var more := entries + [tempq];
      forall u | u in pool + all
        ensures exists i, k :: 0 <= i < |more| && 0 <= k < |more[i].unit| && more[i].unit[k] == u
      {
        if u in pool {
          var i, k :| 0 <= i < |entries| && 0 <= k < |entries[i].unit| && entries[i].unit[k] == u;
          assert more[i].unit[k] == u;
        } else {
          var k :| 0 <= k < |tempq.unit| && tempq.unit[k] == u;
          assert more[|entries|].unit[k] == u;
        }
      }
    }

    // ---------- Looking for a free unit ----------

    /** A search that starts at unit start of block first looks at unit k of block j: the last unit of a block is looked
        at only if it is also the first, and units of the first block before start not at all, except its first. */
    static ghost predicate LookedAt(entries: seq<QEntry>, first: int, start: int, j: int, k: int) {
      && 0 <= j < |entries| && 0 <= k < |entries[j].unit|
      && (k == 0 || (k < |entries[j].unit| - 1 && (j != first || start <= k)))
    }

    /** The search has looked at v blocks, from block first on, and found no free unit. */
    static ghost predicate Tried(entries: seq<QEntry>, pool: set<Unit>, first: int, start: int, v: int)
      requires Inside(entries, pool)
      reads pool`flag
    {
      forall j, k :: LookedAt(entries, first, start, j, k) && Passed(first, v, j, |entries|) ==> entries[j].unit[k].flag != 0
    }

    /** Block j is one of the v blocks from block first on round a ring of n. */
    static ghost predicate Passed(first: int, v: int, j: int, n: int) {
      first <= j < first + v || j + n < first + v
    }

    /** Search the current block from availUnit on. */
    method SearchBlock() returns (found: bool)
      requires Ringed()
      modifies this`availUnit
      ensures Ringed()
      ensures found ==> currQueue.unit[availUnit].flag == 0 && LookedAt(entries, cur, old(availUnit), cur, availUnit)
      ensures !found ==> forall k ::
                0 <= k < |currQueue.unit| && (k == 0 || old(availUnit) <= k < |currQueue.unit| - 1) ==> currQueue.unit[k].flag != 0
    {
      hide Linked, Stocked;
      var sentinel := |currQueue.unit| - 1;
      ghost var start := availUnit;
      while availUnit != sentinel
        invariant Ringed() && start <= availUnit <= sentinel
        invariant forall k :: start <= k < availUnit ==> currQueue.unit[k].flag != 0
        decreases sentinel - availUnit
      {
        if currQueue.unit[availUnit].flag == 0 {
          return true;
        }
        availUnit := availUnit + 1;
      }
      if currQueue.unit[0].flag == 0 {
        availUnit := 0;
        return true;
      }
      return false;
    }

    /** No unit that a search from here on looks at is free. */
    ghost predicate NoneFree(entries: seq<QEntry>, first: int, start: int)
      reads this`pool, pool`flag
    {
      forall j, k :: LookedAt(entries, first, start, j, k) ==> entries[j].unit[k] in pool && entries[j].unit[k].flag != 0
    }

    /** A free unit, or null.  The pool may grow.  The result is null just if at least a tenth of the units are free, so
        that the pool does not grow first, and none of them is one that the search looks at. */
    method GetNextAvailUnit() returns (u: Unit?)
      requires Ringed() && Counted()
      modifies this, entries`next
      ensures Ringed() && Counted() && old(pool) <= pool && fresh(pool - old(pool))
      ensures forall v :: v in pool - old(pool) ==> v.flag == 0
      ensures forall e :: e in entries ==> e in old(entries) || fresh(e)
      ensures u != null ==> u in pool && u.flag == 0
      ensures u == null <==> 10 * old(count) <= 9 * old(size) && old(NoneFree(entries, cur, availUnit))
    {
      hide Linked, Stocked, Busy, NoneFree;
      LastOfBlocks();
      SizePositive();
      if count * 10 > size * 9 {
        var grown := Increase();
        NewBlockFree();
      }
      if count >= size {
        return null;
      }
      u := Search();
      if u == null {
        LastOfBlocks();
        var grown := Increase();
      }
    }

    /** The first unit of a new block is one that every search looks at. */
    lemma NewBlockFree()
      requires Ringed() && Counted() && AllFree(lastQueue)
      ensures !NoneFree(entries, cur, availUnit) && count < size
    {
      var n := |entries| - 1;
      assert LookedAt(entries, cur, availUnit, n, 0);
      var u := entries[n].unit[0];
      assert u in pool;
      hide Linked, Stocked;
      Fewer(pool, Busy(pool), u);
    }

    static lemma Fewer(all: set<Unit>, some: set<Unit>, u: Unit)
      requires some <= all && u in all - some
      ensures |some| < |all|
    {
      assert |all - some| == |all| - |some|;
    }

    lemma LastOfBlocks()
      requires Ringed()
      ensures lastQueue in entries
    {
    }

    /** Move on to the next block of the ring. */
    method NextBlock()
      requires Ringed()
      modifies this`currQueue, this`availUnit, this`cur
      ensures Ringed() && availUnit == 0 && cur == Wrap(old(cur) + 1, |entries|)
    {
      assert cur < |entries| - 1 ==> currQueue.next == entries[cur + 1];
      currQueue := currQueue.next;
      cur := if cur == |entries| - 1 then 0 else cur + 1;
      availUnit := 0;
    }

    /** Search the blocks one after the other, from the current one on until it comes round again. */
    method Search() returns (u: Unit?)
      requires Ringed()
      modifies this`currQueue, this`availUnit, this`cur
      ensures Ringed()
      ensures u != null ==> u in pool && u.flag == 0
      ensures u == null <==> NoneFree(entries, old(cur), old(availUnit))
    {
      hide Linked, Different, Covering, Inside, Tried;
      var entrance := currQueue;
      ghost var first, start, v := cur, availUnit, 0;
      TriedNone(entries, pool, first, start);
      var again := true;
      while again
        invariant Ringed() && 0 <= v <= |entries| && Tried(entries, pool, first, start, v)
        invariant cur == Wrap(first + v, |entries|)
        invariant again ==> v < |entries| && availUnit == if v == 0 then start else 0
        invariant !again ==> v == |entries|
        decreases |entries| - v
      {
        var found := SearchBlock();
        if found {
          CurrentInside();
          FoundFree(first, start, v);
          return currQueue.unit[availUnit];
        }
        TriedNext(entries, pool, first, start, v);
        v := v + 1;
        NextBlock();
        SameBlock(cur, first);
        again := currQueue != entrance;
      }
      TriedAll(entries, pool, first, start);
      return null;
    }

    lemma CurrentInside()
      requires Ringed()
      ensures currQueue.unit[availUnit] in pool
    {
    }

    /** The unit found is one that the search looks at. */
    lemma FoundFree(first: int, start: int, v: int)
      requires Ringed() && currQueue.unit[availUnit].flag == 0
      requires 0 <= first < |entries| && 0 <= v < |entries| && cur == Wrap(first + v, |entries|)
      requires LookedAt(entries, cur, if v == 0 then start else 0, cur, availUnit)
      ensures !NoneFree(entries, first, start)
    {
      hide Linked, Stocked;
      assert v != 0 ==> cur != first;
      assert LookedAt(entries, first, start, cur, availUnit);
    }

    lemma SameBlock(i: int, j: int)
      requires Ringed() && 0 <= i < |entries| && 0 <= j < |entries|
      ensures entries[i] == entries[j] <==> i == j
    {
    }

    static lemma TriedNone(entries: seq<QEntry>, pool: set<Unit>, first: int, start: int)
      requires Inside(entries, pool) && 0 <= first < |entries|
      ensures Tried(entries, pool, first, start, 0)
    {
    }

    static lemma TriedNext(entries: seq<QEntry>, pool: set<Unit>, first: int, start: int, v: int)
      requires Inside(entries, pool) && 0 <= first < |entries| && 0 <= v < |entries| && Tried(entries, pool, first, start, v)
      requires var j := Wrap(first + v, |entries|);
               forall k :: 0 <= k < |entries[j].unit| && (k == 0 || (if v == 0 then start else 0) <= k < |entries[j].unit| - 1) ==>
                 entries[j].unit[k].flag != 0
      ensures Tried(entries, pool, first, start, v + 1)
    {
      var at := Wrap(first + v, |entries|);
      forall j, k | LookedAt(entries, first, start, j, k) && Passed(first, v + 1, j, |entries|)
        ensures entries[j].unit[k].flag != 0
      {
        if j != at {
          assert Passed(first, v, j, |entries|);
        }
      }
    }

    lemma TriedAll(entries: seq<QEntry>, pool: set<Unit>, first: int, start: int)
      requires Inside(entries, pool) && 0 <= first < |entries| && Tried(entries, pool, first, start, |entries|)
      requires this.pool == pool
      ensures NoneFree(entries, first, start)
    {
    }

    // ---------- Use ----------

    /** A free unit is put into a receive buffer. */
    method Occupy(u: Unit)
      requires Counted() && u in pool && u.flag == 0
      modifies this`count, u`flag
      ensures Counted() && count == old(count) + 1 && u.flag == 1
    {
      ghost var before := Busy(pool);
      u.flag := 1;
      count := count + 1;
      assert Busy(pool) == before + {u};
    }

    /** A unit leaves its receive buffer. */
    method Release(u: Unit)
      requires Counted() && u in pool && u.flag != 0
      modifies this`count, u`flag
      ensures Counted() && count == old(count) - 1 && u.flag == 0
    {
      ghost var before := Busy(pool);
      u.flag := 0;
      count := count - 1;
      assert Busy(pool) == before - {u};
    }
  }

  /** A pool of one block of n units, of which only the first and the last but one are in use.  The last search ended at
      the latter, as it does when most units have been taken in turn and then given back.  All other units are free,
      and none is found. */
  method Overlooked(n: nat) returns (queue: UnitQueue, u: Unit?, ghost free: set<Unit>)
    requires 2 <= n
    ensures fresh(queue) && queue.Ringed() && u == null
    ensures free <= queue.pool && |free| == (if n == 2 then 1 else n - 2) && forall v :: v in free ==> v.flag == 0
  {
    queue, free := TwoTaken(n);
    hide UnitQueue.Ringed, UnitQueue.Counted, UnitQueue.NoneFree;
    u := AskAgain(queue, n, free);
  }

  /** The last search has ended at the last unit but one, and the next one finds nothing. */
  method AskAgain(queue: UnitQueue, n: nat, ghost free: set<Unit>) returns (u: Unit?)
    requires queue.Ringed() && queue.Counted() && queue.entries == [queue.qEntry] && |queue.qEntry.unit| == n >= 2
    requires queue.cur == 0 && queue.size == n && queue.count == (if n == 2 then 1 else 2) && free <= queue.pool
    requires queue.qEntry.unit[0].flag != 0 && queue.qEntry.unit[n - 2].flag != 0
    modifies queue, queue.qEntry
    ensures queue.Ringed() && u == null && free <= queue.pool
  {
    queue.availUnit := n - 2;
    LooksAtTwo(queue, n);
    hide UnitQueue.Ringed, UnitQueue.Counted, UnitQueue.NoneFree;
    u := queue.GetNextAvailUnit();
  }

  /** A new pool with its first unit and its last but one in use. */
  method TwoTaken(n: nat) returns (queue: UnitQueue, ghost free: set<Unit>)
    requires 2 <= n
    ensures fresh(queue) && fresh(queue.qEntry) && queue.Ringed() && queue.Counted()
    ensures queue.entries == [queue.qEntry] && queue.cur == 0 && queue.size == |queue.qEntry.unit| == n
    ensures queue.qEntry.unit[0].flag != 0 && queue.qEntry.unit[n - 2].flag != 0
    ensures queue.count == (if n == 2 then 1 else 2)
    ensures free <= queue.pool && |free| == n - queue.count && forall v :: v in free ==> v.flag == 0
  {
    queue := new UnitQueue(n);
    var first, second := queue.qEntry.unit[0], queue.qEntry.unit[n - 2];
    TwoUnits(queue, n);
    hide UnitQueue.Ringed, UnitQueue.Counted;
    free := TakeTwo(queue, first, second);
  }

  /** The two units, which may be the same, are taken. */
  method TakeTwo(queue: UnitQueue, first: Unit, second: Unit) returns (ghost free: set<Unit>)
    requires queue.Counted() && queue.count == 0 && first in queue.pool && second in queue.pool
    requires first.flag == 0 && second.flag == 0
    modifies queue`count, first`flag, second`flag
    ensures queue.Counted() && queue.count == (if first == second then 1 else 2) && first.flag != 0 && second.flag != 0
    ensures free <= queue.pool && |free| == |queue.pool| - queue.count && forall v :: v in free ==> v.flag == 0
  {
    hide UnitQueue.Counted;
    queue.Occupy(first);
    if first != second {
      queue.Occupy(second);
    }
    free := FreeUnits(queue);
  }

  lemma FreeUnits(queue: UnitQueue) returns (free: set<Unit>)
    requires queue.Counted()
    ensures free <= queue.pool && |free| == |queue.pool| - queue.count && forall v :: v in free ==> v.flag == 0
  {
    free := queue.pool - Busy(queue.pool);
  }

  lemma TwoUnits(queue: UnitQueue, n: nat)
    requires queue.Ringed() && queue.entries == [queue.qEntry] && |queue.qEntry.unit| == n >= 2
    ensures var unit := queue.qEntry.unit;
            && unit[0] in queue.pool && unit[n - 2] in queue.pool && (unit[0] == unit[n - 2] <==> n == 2)
    ensures |queue.pool| == queue.size
  {
    assert queue.entries[0].unit[0] == queue.entries[0].unit[n - 2] ==> n == 2;
  }

  lemma LooksAtTwo(queue: UnitQueue, n: nat)
    requires queue.Ringed() && queue.entries == [queue.qEntry] && |queue.qEntry.unit| == n >= 2
    requires queue.qEntry.unit[0].flag != 0 && queue.qEntry.unit[n - 2].flag != 0
    ensures queue.NoneFree(queue.entries, 0, n - 2)
  {
  }
}
