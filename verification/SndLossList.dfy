/** The sender's loss list, CSndLossList: a singly linked list of runs embedded in three fixed arrays.
    It refines a finite set of lost numbers.  Each method takes wire numbers, as the original does, and as ghost
    arguments the logical numbers they stand for. */
module SndLoss {
  import opened SeqNo
  import opened LossSlots
  import opened LossRuns

  class SndLossList {
    const data1: array<int>
    const data2: array<int>
    const next: array<int>
    const size: int
    var head: int
    var length: int
    var lastInsertPos: int

    ghost var g: Image

    /** The set of lost numbers. */
    ghost function Lost(): set<int>
      reads this`g
    {
      g.owner.Keys
    }

    /** The snapshot g is what the arrays hold, with the first run in slot h. */
    ghost predicate Mirrored(h: int)
      reads this, data1, data2, next
    {
      && 0 < size <= MAX_SIZE && data1 != data2 && data1 != next && data2 != next
      && data1.Length == data2.Length == next.Length == size
      && g.d1 == data1[..] && g.d2 == data2[..] && g.next == next[..] && g.size == size && g.head == h
    }

    ghost predicate Valid()
      reads this, data1, data2, next
    {
      && Mirrored(head) && Shape(g, -1)
      && length == |g.owner|
      && (lastInsertPos == -1 || lastInsertPos in g.at)
    }

    lemma LengthIs()
      requires Valid()
      ensures length == 0 <==> Lost() == {}
    {
    }

    /** A run in slot loc has been linked in or lengthened and may still overlap the runs after it. */
    ghost predicate Pending(loc: int)
      reads this, data1, data2, next
    {
      && Mirrored(head) && Shape(g, loc)
      && loc in g.at && 0 <= loc < size && lastInsertPos == loc
      && length == |g.owner| + g.at[loc].hi - g.at[loc].lo + 1
    }

    /** a..b is a run that fits in the array together with all lost numbers. */
    ghost predicate Fits(a: int, b: int)
      reads this
    {
      a <= b < a + size && forall x :: x in Lost() ==> x - a < size && b - x < size
    }

    constructor (size: int)
      requires 0 < size <= MAX_SIZE
      ensures Valid() && Lost() == {} && this.size == size
      ensures fresh(data1) && fresh(data2) && fresh(next)
    {
      this.size := size;
      data1 := new int[size](_ => -1);
      data2 := new int[size](_ => -1);
      next := new int[size](_ => -1);
      head, length, lastInsertPos := -1, 0, -1;
      new;
      g := Image(data1[..], data2[..], next[..], size, 0, map[], map[], -1);
    }

    /** Merge the run after loc into the run at loc. */
    method AbsorbNext(loc: int, i: int)
      requires Pending(loc) && next[loc] == i && i in g.at
      requires g.at[loc].lo < g.at[loc].hi && g.at[i].lo <= g.at[loc].hi + 1
      modifies this`length, this`g, data1, data2, next
      ensures Pending(loc) && g.at[loc].lo == old(g.at[loc].lo) && g.at[loc].lo < g.at[loc].hi
      ensures g.at.Keys == old(g.at.Keys) - {i}
      ensures forall x :: Holds(g, loc, x) <==> Holds(old(g), loc, x)
    {
      hide Shape, ToWire, Merged;
      ghost var lo, hi, run := g.at[loc].lo, g.at[loc].hi, g.at[i];
      RunAt(g, loc, loc);
      RunAt(g, loc, i);
      AbsorbNear(g, loc, loc, i);
      ghost var g2, top := Absorb(g, loc, i);
      MergedAt(g, g2, loc, i, top);
      CountOverlap(loc, i, lo, hi, run);
      data1[i] := -1;
      data2[i] := -1;
      next[loc] := next[i];
      g := g2;
    }

    lemma AbsorbNear(g: Image, hole: int, loc: int, i: int)
      requires Shape(g, hole) && loc in g.at && i in g.at
      ensures g.at[i].hi - g.at[loc].lo < g.size && g.at[loc].hi - g.at[i].lo < g.size
    {
      hide Stored, Covers, Linked;
    }

    lemma MergedAt(g: Image, g2: Image, loc: int, i: int, top: int)
      requires loc in g.at && Merged(g.at, g2.at, loc, i, Run(g.at[loc].lo, top))
      requires i != loc
      ensures loc in g2.at && g2.at[loc] == Run(g.at[loc].lo, top)
      ensures g2.at.Keys == g.at.Keys - {i}
    {
      assert forall s :: s in g2.at.Keys <==> s in g.at.Keys - {i};
    }

    /** The new end of the run at loc, and the length without the numbers counted twice. */
    method CountOverlap(loc: int, i: int, ghost lo: int, ghost hi: int, ghost run: Run)
      requires 0 < size <= MAX_SIZE && data1 != data2 && data1.Length == data2.Length == size
      requires 0 <= loc < size && 0 <= i < size && i != loc
      requires lo < hi && lo < run.lo <= run.hi && run.lo <= hi + 1 && run.hi - lo < size && hi - run.lo < size
      requires data2[loc] == ToWire(hi)
      requires data1[i] == ToWire(run.lo) && data2[i] == EndWord(run)
      modifies this`length, data2
      ensures data2[..] == old(data2[..])[loc := ToWire(if hi < run.hi then run.hi else hi)]
      ensures length == old(length) - (run.hi - run.lo + 1) + (if hi < run.hi then run.hi - hi else 0)
    {
      WindowAgreement(run.lo, hi);
      WindowAgreement(hi, run.lo);
      WindowAgreement(run.hi, hi);
      WindowAgreement(run.lo, run.hi);
      WindowAgreement(run.lo, hi + 1);
      Neighbours(hi);
      if -1 != data2[i] {
        if Cmp(data2[i], data2[loc]) > 0 {
          if Cmp(data2[loc], data1[i]) >= 0 {
            length := length - Len(data1[i], data2[loc]);
          }
          data2[loc] := data2[i];
        } else {
          length := length - Len(data1[i], data2[i]);
        }
      } else {
        if data1[i] == Inc(data2[loc]) {
          data2[loc] := data1[i];
        } else {
          length := length - 1;
        }
      }
    }

    /** Absorb the runs that the one at loc has grown to reach: when 10..14 has become 10..25, a run 20..30 is absorbed. */
    method Coalesce(loc: int)
      requires Pending(loc)
      modifies this`length, this`g, data1, data2, next
      ensures Valid()
      ensures forall x :: x in Lost() <==> Holds(old(g), loc, x)
    {
      hide Shape, ToWire, Cmp, Inc;
      while -1 != next[loc] && -1 != data2[loc]
        invariant Pending(loc) && forall x :: Holds(g, loc, x) <==> Holds(old(g), loc, x)
        decreases g.at.Keys
      {
        var i := next[loc];
        CompareNext(g, loc);
        if Cmp(data1[i], Inc(data2[loc])) <= 0 {
          ghost var before := g.at.Keys;
          AbsorbNext(loc, i);
          assert i in before && g.at.Keys == before - {i};
        } else {
          break;
        }
      }
      CompareNext(g, loc);
      ghost var g2 := Seal(g, loc);
      assert forall x :: x in g2.owner <==> Holds(g, loc, x);
      g := g2;
    }

    /** Number x is lost, or lies in the run at loc. */
    static ghost predicate Holds(g: Image, loc: int, x: int)
      requires loc in g.at
    {
      x in g.owner || g.at[loc].lo <= x <= g.at[loc].hi
    }

    /** The test of Coalesce: there is a next run, and it overlaps or touches this one. */
    lemma CompareNext(g: Image, loc: int)
      requires Shape(g, loc) && g.size <= MAX_SIZE && loc in g.at
      ensures 0 <= loc < g.size == |g.d1| == |g.d2| == |g.next| && -1 !in g.at
      ensures g.d2[loc] == -1 || 0 <= g.d2[loc] <= MAX
      ensures g.d2[loc] == -1 <==> g.at[loc].lo == g.at[loc].hi
      ensures g.at[loc].lo <= g.at[loc].hi
      ensures g.next[loc] != -1 ==>
                var i := g.next[loc];
                && i in g.at && 0 <= i < g.size && g.at[loc].lo < g.at[i].lo && 0 <= g.d1[i] <= MAX
                && (g.d2[loc] != -1 ==>
                      (Cmp(g.d1[i], Inc(g.d2[loc])) <= 0 <==> g.at[i].lo <= g.at[loc].hi + 1))
    {
      hide Shape, ToWire, Cmp, Inc;
      RunAt(g, loc, loc);
      NextOf(g, loc, loc);
      var i := g.next[loc];
      if i != -1 {
        RunAt(g, loc, i);
        AbsorbNear(g, loc, loc, i);
        Neighbours(g.at[loc].hi);
        WindowAgreement(g.at[i].lo, g.at[loc].hi + 1);
      }
    }

    /** Link a new run into the free slot loc, before the first run. */
    method PutFirst(loc: int, seqno1: Wire, seqno2: Wire, ghost a: int, ghost b: int)
      requires Valid() && g.head in g.at && Roomy(g.at, a, b, size) && a < g.at[g.head].lo
      requires seqno1 == ToWire(a) && seqno2 == ToWire(b) && loc == Slot(a, g.base, size)
      modifies this, data1, data2, next
      ensures Pending(loc) && g.at[loc] == Run(a, b) && Lost() == old(Lost())
    {
      hide Shape, ToWire, Slot;
      SameEnds(a, b, size);
      ghost var g2 := LinkFirst(g, a, b);
      WithAt(g.at, g2.at, loc, Run(a, b));
      data1[loc] := seqno1;
      if seqno2 != seqno1 {
        data2[loc] := seqno2;
      }
      next[loc] := head;
      head := loc;
      lastInsertPos := loc;
      length := length + Len(seqno1, seqno2);
      g := g2;
    }

    /** Link a new run into the free slot loc, after the run in slot i. */
    method PutAfter(i: int, loc: int, seqno1: Wire, seqno2: Wire, ghost a: int, ghost b: int)
      requires Valid() && i in g.at && 0 <= i < size && Roomy(g.at, a, b, size)
      requires g.at[i].hi < a && (next[i] in g.at ==> a < g.at[next[i]].lo)
      requires seqno1 == ToWire(a) && seqno2 == ToWire(b) && loc == Slot(a, g.base, size)
      modifies this, data1, data2, next
      ensures Pending(loc) && g.at[loc] == Run(a, b) && Lost() == old(Lost())
    {
      hide Shape, ToWire, Slot;
      SameEnds(a, b, size);
      ghost var g2 := LinkAfter(g, i, a, b);
      WithAt(g.at, g2.at, loc, Run(a, b));
      lastInsertPos := loc;
      data1[loc] := seqno1;
      if seqno2 != seqno1 {
        data2[loc] := seqno2;
      }
      next[loc] := next[i];
      next[i] := loc;
      length := length + Len(seqno1, seqno2);
      g := g2;
    }

    lemma SameEnds(a: int, b: int, size: int)
      requires a <= b < a + size && size <= MAX_SIZE
      ensures ToWire(a) == ToWire(b) <==> a == b
      ensures Len(ToWire(a), ToWire(b)) == b - a + 1
      ensures EndWord(Run(a, b)) == if a < b then ToWire(b) else -1
      ensures Cmp(ToWire(b), ToWire(a)) > 0 <==> a < b
    {
      hide ToWire, Len, Cmp;
      WindowAgreement(a, b);
      WindowAgreement(b, a);
    }

    lemma WithAt(at: map<int, Run>, at2: map<int, Run>, s: int, run: Run)
      requires With(at, at2, s, run)
      ensures s in at2 && at2[s] == run
    {
    }

    /** Lengthen the run in slot s, which ends before b, to end at b. */
    method Extend(s: int, seqno2: Wire, ghost b: int)
      requires Valid() && s in g.at && g.at[s].hi < b && lastInsertPos == s
      requires forall x :: x in g.owner ==> b - x < size
      requires seqno2 == ToWire(b)
      modifies this, data2
      ensures Pending(s) && g.at[s] == Run(old(g.at[s].lo), b) && head == old(head)
      ensures forall x :: x in Lost() || g.at[s].lo <= x <= b
                     <==> old(x in Lost()) || old(g.at[s].hi) <= x <= b
    {
      hide Shape, ToWire, Len;
      RunAt(g, -1, s);
      RunBounds(g);
      assert g.at[s].lo in g.owner && g.at[s].hi in g.owner;
      AbsorbNear(g, -1, s, s);
      SameEnds(g.at[s].lo, g.at[s].hi, size);
      SameEnds(g.at[s].lo, b, size);
      SameEnds(g.at[s].hi, b, size);
      RunLost(g, s);
      ghost var g2 := Widen(g, s, b);
      WithAt(g.at, g2.at, s, Run(g.at[s].lo, b));
      if -1 == data2[s] {
        length := length + (Len(data1[s], seqno2) - 1);
      } else {
        length := length + (Len(data2[s], seqno2) - 1);
      }
      data2[s] := seqno2;
      g := g2;
    }

    lemma RunLost(g: Image, s: int)
      requires Shape(g, -1) && s in g.at
      ensures forall x :: g.at[s].lo <= x <= g.at[s].hi ==> x in g.owner
    {
      hide Stored, Ordered, Linked;
      OwnedBy(g.at, g.owner, -1, s);
    }

    ghost predicate Close(k: int)
      reads this
    {
      forall x :: x in g.owner ==> Near(x, k)
    }

    /** The last run that starts before k, searching from slot start on. */
    method FindPrior(start: int, seqno: Wire, ghost k: int) returns (i: int)
      requires Valid() && start in g.at && g.at[start].lo < k && Close(k) && seqno == ToWire(k)
      ensures i in g.at && 0 <= i < size && g.at[i].lo < k
      ensures -1 !in g.at && (next[i] == -1 || (next[i] in g.at && k <= g.at[next[i]].lo))
    {
      hide Shape, ToWire, Cmp, Near;
      i := start;
      CompareStart(g, i, k);
      while -1 != next[i] && Cmp(data1[next[i]], seqno) < 0
        invariant i in g.at && 0 <= i < size && g.at[i].lo < k
        invariant next[i] == -1 || (next[i] in g.at && 0 <= next[i] < size && 0 <= data1[next[i]] <= MAX)
        invariant next[i] != -1 ==> g.at[i].lo < g.at[next[i]].lo
        invariant next[i] != -1 ==> (Cmp(data1[next[i]], seqno) < 0 <==> g.at[next[i]].lo < k)
        decreases k - g.at[i].lo
      {
        i := next[i];
        CompareStart(g, i, k);
      }
      NextOf(g, -1, i);
    }

    /** The test of FindPrior: the next run starts before k. */
    lemma CompareStart(g: Image, s: int, k: int)
      requires Shape(g, -1) && s in g.at && forall x :: x in g.owner ==> Near(x, k)
      ensures 0 <= s < g.size == |g.d1| == |g.d2| == |g.next|
      ensures g.d1[s] == ToWire(g.at[s].lo) && g.d2[s] == EndWord(g.at[s]) && g.at[s].lo <= g.at[s].hi
      ensures Cmp(g.d1[s], ToWire(k)) < 0 <==> g.at[s].lo < k
      ensures g.next[s] != -1 ==>
                var t := g.next[s];
                && t in g.at && 0 <= t < g.size && g.at[s].lo < g.at[t].lo && 0 <= g.d1[t] <= MAX
                && (Cmp(g.d1[t], ToWire(k)) < 0 <==> g.at[t].lo < k)
    {
      hide Shape, ToWire, Cmp, Near, EndWord;
      RunAt(g, -1, s);
      RunBounds(g);
      NextOf(g, -1, s);
      WindowAgreement(g.at[s].lo, k);
      if g.next[s] != -1 {
        RunAt(g, -1, g.next[s]);
        WindowAgreement(g.at[g.next[s]].lo, k);
      }
    }

    /** A run that starts at a is stored in slot loc: lengthen it if b lies beyond its end. */
    method InsertAt(loc: int, seqno1: Wire, seqno2: Wire, ghost a: int, ghost b: int) returns (grown: bool)
      requires Valid() && loc in g.at && g.at[loc].lo == a <= b && forall x :: x in g.owner ==> x - a < size && b - x < size
      requires seqno1 == ToWire(a) && seqno2 == ToWire(b)
      modifies this, data2
      ensures grown ==> Pending(loc) && g.at[loc] == Run(a, b)
      ensures grown ==> forall x :: x in Lost() || a <= x <= b <==> old(x in Lost()) || a <= x <= b
      ensures !grown ==> Valid() && Lost() == old(Lost()) && forall x :: a <= x <= b ==> x in Lost()
    {
      hide Shape, ToWire, Cmp;
      RunAt(g, -1, loc);
      RunBounds(g);
      RunLost(g, loc);
      assert g.at[loc].lo in g.owner && g.at[loc].hi in g.owner;
      SameEnds(a, b, size);
      SameEnds(a, g.at[loc].hi, size);
      lastInsertPos := loc;
      WindowAgreement(b, g.at[loc].hi);
      if -1 == data2[loc] {
        grown := seqno2 != seqno1;
      } else {
        grown := Cmp(seqno2, data2[loc]) > 0;
      }
      if grown {
        Extend(loc, seqno2, b);
      }
    }

    /** No run starts at a, which lies after the first start: link a new run in at slot loc, or lengthen the run
        before it if that reaches as far as a. */
    method InsertBetween(loc: int, seqno1: Wire, seqno2: Wire, ghost a: int, ghost b: int)
      returns (grown: bool, pos: int)
      requires Valid() && g.head in g.at && g.at[g.head].lo < a && Roomy(g.at, a, b, size) && NoStart(g.at, a)
      requires Close(a) && Close(b) && forall x :: x in g.owner ==> b - x < size
      requires seqno1 == ToWire(a) && seqno2 == ToWire(b) && loc == Slot(a, g.base, size)
      modifies this, data1, data2, next
      ensures grown ==> Pending(pos)
      ensures grown ==> forall x :: x in Lost() || g.at[pos].lo <= x <= g.at[pos].hi <==> old(x in Lost()) || a <= x <= b
      ensures !grown ==> Valid() && Lost() == old(Lost()) && forall x :: a <= x <= b ==> x in Lost()
    {
      hide Shape, ToWire, Cmp, Slot, Near, Roomy;
      var i := head;
      if -1 != lastInsertPos {
        CompareStart(g, lastInsertPos, a);
        if Cmp(data1[lastInsertPos], seqno1) < 0 {
          i := lastInsertPos;
        }
      }
      i := FindPrior(i, seqno1, a);
      CompareEnd(g, i, a);
      CompareEnd(g, i, b);
      if -1 == data2[i] || Cmp(data2[i], seqno1) < 0 {
        NotStart(g.at, a, next[i]);
        PutAfter(i, loc, seqno1, seqno2, a, b);
        return true, loc;
      }
      lastInsertPos := i;
      RunLost(g, i);
      if Cmp(data2[i], seqno2) < 0 {
        Extend(i, seqno2, b);
        return true, i;
      }
      return false, i;
    }

    lemma NotStart(at: map<int, Run>, a: int, s: int)
      requires NoStart(at, a)
      ensures s in at ==> at[s].lo != a
    {
    }

    /** The tests on the end of the run in slot s. */
    lemma CompareEnd(g: Image, s: int, k: int)
      requires Shape(g, -1) && s in g.at && (forall x :: x in g.owner ==> Near(x, k))
      ensures 0 <= s < g.size == |g.d2| && g.at[s].lo <= g.at[s].hi && -1 !in g.at
      ensures g.d2[s] == -1 <==> g.at[s].lo == g.at[s].hi
      ensures g.d2[s] != -1 ==> 0 <= g.d2[s] <= MAX && (Cmp(g.d2[s], ToWire(k)) < 0 <==> g.at[s].hi < k)
      ensures g.d2[s] != -1 ==> (Cmp(g.d2[s], ToWire(k)) > 0 <==> g.at[s].hi > k)
    {
      hide Shape, ToWire, Cmp, Near;
      RunAt(g, -1, s);
      RunBounds(g);
      NextOf(g, -1, s);
      assert g.at[s].hi in g.owner;
      WindowAgreement(g.at[s].hi, k);
    }

    /** Insert the numbers a..b; return how many were not in the list before. */
    method Insert(seqno1: Wire, seqno2: Wire, ghost a: int, ghost b: int) returns (added: int)
      requires Valid() && Fits(a, b) && seqno1 == ToWire(a) && seqno2 == ToWire(b)
      modifies this, data1, data2, next
      ensures Valid()
      ensures forall x :: x in Lost() <==> x in old(Lost()) || a <= x <= b
      ensures added == |Lost()| - |old(Lost())|
    {
      hide Shape, ToWire, Off, Slot, Near, Roomy;
      HeadOf(g, -1);
      if 0 == length {
        InsertFirst(seqno1, seqno2, a, b);
        return length;
      }
      ghost var before := g.owner;
      ghost var base := g.base;
      var origlen := length;
      assert forall x :: x in g.owner ==> x in Lost();
      InsertFacts(g, a, b);
      var offset := Off(data1[head], seqno1);
      var loc := (head + offset + size) % size;
      var grown := true;
      if offset < 0 {
        PutFirst(loc, seqno1, seqno2, a, b);
      } else if offset > 0 {
        if seqno1 == data1[loc] {
          grown := InsertAt(loc, seqno1, seqno2, a, b);
        } else {
          grown, loc := InsertBetween(loc, seqno1, seqno2, a, b);
        }
      } else {
        grown := InsertAt(loc, seqno1, seqno2, a, b);
      }
      if !grown {
        return 0;
      }
      Coalesce(loc);
      return length - origlen;
    }

    method InsertFirst(seqno1: Wire, seqno2: Wire, ghost a: int, ghost b: int)
      requires Valid() && length == 0 && g.at == map[] && a <= b < a + size
      requires seqno1 == ToWire(a) && seqno2 == ToWire(b)
      modifies this, data1, data2, next
      ensures Valid() && length == |Lost()| && forall x :: x in Lost() <==> a <= x <= b
    {
      hide ToWire, Len, Shape;
      SameEnds(a, b, size);
      NothingStored(g);
      NoOwners(g);
      head := 0;
      ghost var g2 := Begin(g, g.next[0 := -1], a, b);
      data1[head] := seqno1;
      if seqno2 != seqno1 {
        data2[head] := seqno2;
      }
      next[head] := -1;
      lastInsertPos := head;
      length := length + Len(seqno1, seqno2);
      g := g2;
    }

    lemma NothingStored(g: Image)
      requires Shape(g, -1) && g.at == map[]
      ensures forall s :: 0 <= s < g.size == |g.d2| ==> g.d2[s] == -1
    {
    }

    /** What the offset of a from the first run and the slot of a tell Insert. */
    lemma InsertFacts(g: Image, a: int, b: int)
      requires Shape(g, -1) && g.size <= MAX_SIZE && g.head in g.at && a <= b < a + g.size
      requires forall x :: x in g.owner ==> x - a < g.size && b - x < g.size
      requires forall s :: s in g.at ==> g.at[g.head].lo <= g.at[s].lo
      ensures 0 <= g.head < g.size == |g.d1| && 0 <= g.d1[g.head] <= MAX
      ensures var offset := Off(g.d1[g.head], ToWire(a));
              && offset == a - g.at[g.head].lo
              && (g.head + offset + g.size) % g.size == Slot(a, g.base, g.size)
      ensures Roomy(g.at, a, b, g.size)
      ensures forall x :: x in g.owner ==> Near(x, a) && Near(x, b)
      ensures var loc := Slot(a, g.base, g.size);
              && 0 <= loc < |g.d1|
              && (g.d1[loc] == ToWire(a) ==> loc in g.at && g.at[loc].lo == a)
              && (g.d1[loc] != ToWire(a) ==> NoStart(g.at, a))
    {
      hide Shape, ToWire, Off, Slot;
      RunAt(g, -1, g.head);
      RunBounds(g);
      WindowAgreement(g.at[g.head].lo, a);
      SlotShift(g.at[g.head].lo, a - g.at[g.head].lo, g.base, g.size);
      StartAt(g, a);
    }

    /** Take the first number of the first run out. */
    method PopFront()
      requires Valid() && g.head in g.at
      modifies this, data1, data2, next
      ensures Valid() && |Lost()| == |old(Lost())| - 1
      ensures forall x :: x in Lost() <==> x in old(Lost()) && x != old(g.at[g.head].lo)
    {
      hide Shape, ToWire, Inc, Cmp, Slot, EndWord;
      FrontFacts(g);
      if lastInsertPos == head {
        lastInsertPos := -1;
      }
      if -1 == data2[head] {
        ghost var g2 := Unlink(g, -1, head);
        UnlinkKeeps(g, g2);
        data1[head] := -1;
        head := next[head];
        g := g2;
        length := length - 1;
      } else {
        ShiftFront();
      }
    }

    /** The first run loses its first number, so it moves to the next slot. */
    method ShiftFront()
      requires Valid() && g.head in g.at && g.at[g.head].lo < g.at[g.head].hi && lastInsertPos != head
      modifies this, data1, data2, next
      ensures Valid() && |Lost()| == |old(Lost())| - 1
      ensures forall x :: x in Lost() <==> x in old(Lost()) && x != old(g.at[g.head].lo)
    {
      hide Shape, ToWire, Inc, Cmp, Slot, EndWord;
      FrontFacts(g);
      ghost var g2 := Shift(g, -1, head);
      ShiftKeeps(g, g2);
      var loc := (head + 1) % size;
      data1[loc] := Inc(data1[head]);
      if Cmp(data2[head], data1[loc]) > 0 {
        data2[loc] := data2[head];
      }
      data1[head] := -1;
      data2[head] := -1;
      next[loc] := next[head];
      head := loc;
      g := g2;
      length := length - 1;
    }

    lemma FrontFacts(g: Image)
      requires Shape(g, -1) && g.size <= MAX_SIZE && g.head in g.at
      ensures var lo, hi := g.at[g.head].lo, g.at[g.head].hi;
              && 0 <= g.head < g.size == |g.d1| == |g.d2| == |g.next| && lo <= hi
              && g.d1[g.head] == ToWire(lo) && Inc(ToWire(lo)) == ToWire(lo + 1)
              && g.d2[g.head] == (if lo < hi then ToWire(hi) else -1)
              && (g.head + 1) % g.size == Slot(lo + 1, g.base, g.size)
              && EndWord(Run(lo + 1, hi)) == (if lo + 1 < hi then ToWire(hi) else -1)
              && (lo < hi ==> (Cmp(ToWire(hi), ToWire(lo + 1)) > 0 <==> lo + 1 < hi))
    {
      hide Shape, ToWire, Inc, Cmp, Slot;
      RunAt(g, -1, g.head);
      AbsorbNear(g, -1, g.head, g.head);
      Neighbours(g.at[g.head].lo);
      SlotShift(g.at[g.head].lo, 1, g.base, g.size);
      WindowAgreement(g.at[g.head].hi, g.at[g.head].lo + 1);
    }

    lemma UnlinkKeeps(g: Image, g2: Image)
      requires Without(g.at, g2.at, g.head)
      ensures forall s :: s in g.at && s != g.head ==> s in g2.at
    {
    }

    lemma ShiftKeeps(g: Image, g2: Image)
      requires exists loc, run :: Merged(g.at, g2.at, loc, g.head, run)
      ensures forall s :: s in g.at && s != g.head ==> s in g2.at
    {
    }

    /** Return the first lost number and take it out, or return -1 if nothing is lost.  (The number x that seqno
        stands for is 0 in that case.) */
    method GetLostSeq() returns (seqno: int, ghost x: int)
      requires Valid()
      modifies this, data1, data2, next
      ensures Valid()
      ensures old(Lost()) == {} ==> seqno == -1 && Lost() == {}
      ensures old(Lost()) != {} ==> x in old(Lost()) && forall y :: y in old(Lost()) ==> x <= y
      ensures old(Lost()) != {} ==> seqno == ToWire(x) && Lost() == old(Lost()) - {x}
    {
      hide Shape, ToWire;
      HeadOf(g, -1);
      if 0 == length {
        return -1, 0;
      }
      FrontFacts(g);
      RunBounds(g);
      x := g.at[g.head].lo;
      seqno := data1[head];
      assert forall y :: y in old(Lost()) ==> y in old(g.owner);
      PopFront();
      assert forall y :: y in Lost() <==> y in old(Lost()) - {x};
    }

    /** Cut the run in slot i after k; the part from k + 1 on moves to slot loc. */
    method SplitAfter(i: int, loc: int, seqno: Wire, ghost k: int)
      requires Valid() && i in g.at && g.at[i].lo <= k < g.at[i].hi
      requires seqno == ToWire(k) && loc == Slot(k + 1, g.base, size)
      modifies this`g, data1, data2, next
      ensures Valid() && Lost() == old(Lost()) && 0 <= i < size
      ensures i in g.at && g.at[i].lo <= g.at[i].hi == k && next[i] == loc && loc in g.at && g.at[loc].lo == k + 1
    {
      hide Shape, ToWire, Inc, Cmp, Slot, EndWord;
      RunAt(g, -1, i);
      ghost var g2 := Cut(g, i, k, k + 1);
      CutAt(g, g2, i, loc, k);
      assert forall x :: x in g2.owner.Keys <==> x in g.owner.Keys;
      SplitWords(g, i, k);
      data1[loc] := Inc(seqno);
      if Cmp(data2[i], data1[loc]) > 0 {
        data2[loc] := data2[i];
      }
      if seqno == data1[i] {
        data2[i] := -1;
      } else {
        data2[i] := seqno;
      }
      next[loc] := next[i];
      next[i] := loc;
      g := g2;
    }

    lemma SplitWords(g: Image, i: int, k: int)
      requires Shape(g, -1) && g.size <= MAX_SIZE && i in g.at && g.at[i].lo <= k < g.at[i].hi
      ensures Inc(ToWire(k)) == ToWire(k + 1)
      ensures Cmp(ToWire(g.at[i].hi), ToWire(k + 1)) > 0 <==> k + 1 < g.at[i].hi
      ensures EndWord(g.at[i]) == ToWire(g.at[i].hi)
      ensures EndWord(Run(k + 1, g.at[i].hi)) == if k + 1 < g.at[i].hi then ToWire(g.at[i].hi) else -1
      ensures ToWire(k) == ToWire(g.at[i].lo) <==> k == g.at[i].lo
      ensures EndWord(Run(g.at[i].lo, k)) == if g.at[i].lo < k then ToWire(k) else -1
    {
      hide Shape, ToWire, Inc, Cmp;
      AbsorbNear(g, -1, i, i);
      Neighbours(k);
      WindowAgreement(g.at[i].hi, k + 1);
      WindowAgreement(k, g.at[i].lo);
    }

    lemma CutAt(g: Image, g2: Image, i: int, loc: int, k: int)
      requires i in g.at && CutInTwo(g.at, g2.at, i, loc, Run(g.at[i].lo, k), Run(k + 1, g.at[i].hi)) && loc !in g.at
      ensures i in g2.at && g2.at[i] == Run(g.at[i].lo, k) && loc in g2.at && g2.at[loc] == Run(k + 1, g.at[i].hi)
      ensures forall s :: s in g.at ==> s in g2.at
    {
    }

    /** The runs that end by k come before the one in slot target, and all others start after k. */
    ghost predicate Divides(at: map<int, Run>, target: int, k: int) {
      && (forall s :: s in at ==> at[s].hi <= k || k < at[s].lo)
      && (target in at ==> k < at[target].lo && forall s :: s in at && k < at[s].lo ==> at[target].lo <= at[s].lo)
      && (target !in at ==> target == -1 && forall s :: s in at ==> at[s].hi <= k)
    }

    lemma DividesAfter(g: Image, i: int, k: int)
      requires Shape(g, -1) && i in g.at && 0 <= i < g.size && g.at[i].hi <= k
      requires g.next[i] in g.at ==> k < g.at[g.next[i]].lo
      ensures Divides(g.at, g.next[i], k)
    {
      hide Covers, Slot, ToWire, EndWord;
      assert Follows(g.at, i, g.next[i]);
    }

    /** Remove all runs before the one in slot target, which becomes the head. */
    method DropUntil(target: int, ghost k: int)
      requires Valid() && Divides(g.at, target, k)
      modifies this, data1, data2, next
      ensures Valid() && forall x :: x in Lost() <==> x in old(Lost()) && k < x
    {
      hide Shape, ToWire, Divides;
      var h := head;
      head := target;
      DropFacts(g, h, target, k);
      while h != head
        invariant head == target && Mirrored(h) && Shape(g, -1) && length == |g.owner|
        invariant lastInsertPos == -1 || lastInsertPos in g.at
        invariant Divides(g.at, target, k)
        invariant h != target ==> h in g.at && 0 <= h < size && g.at[h].lo <= g.at[h].hi <= k
        invariant h == target ==> forall x :: x in Lost() ==> k < x
        invariant forall x :: x in Lost() ==> x in old(Lost())
        invariant forall x :: x in old(Lost()) && k < x ==> x in Lost()
        decreases g.at.Keys
      {
        ghost var before := g.at;
        DropOne(h, k);
        assert g.at.Keys == before.Keys - {h};
        DividesWithout(before, g.at, h, target, k);
        h := next[h];
        DropFacts(g, h, target, k);
      }
    }

    lemma DropFacts(g: Image, h: int, target: int, k: int)
      requires Shape(g, -1) && g.head == h && Divides(g.at, target, k)
      ensures h != target ==> h in g.at && 0 <= h < g.size && g.at[h].lo <= g.at[h].hi <= k
      ensures h == target ==> forall x :: x in g.owner.Keys ==> k < x
    {
      hide Stored, Slot, ToWire, EndWord;
      HeadOf(g, -1);
      if h in g.at {
        RunAt(g, -1, h);
      }
    }

    lemma DividesWithout(at: map<int, Run>, at2: map<int, Run>, h: int, target: int, k: int)
      requires Divides(at, target, k) && h in at && at[h].lo <= at[h].hi <= k && Without(at, at2, h)
      ensures Divides(at2, target, k)
    {
    }

    method DropOne(h: int, ghost k: int)
      requires Mirrored(h) && Shape(g, -1) && length == |g.owner| && h in g.at && g.at[h].hi <= k
      requires lastInsertPos == -1 || lastInsertPos in g.at
      modifies this`length, this`lastInsertPos, this`g, data1, data2
      ensures 0 <= h < size && Mirrored(next[h]) && Shape(g, -1) && length == |g.owner|
      ensures lastInsertPos == -1 || lastInsertPos in g.at
      ensures forall x :: x in Lost() ==> x in old(Lost())
      ensures forall x :: x in old(Lost()) && k < x ==> x in Lost()
      ensures Without(old(g.at), g.at, h) && g.at.Keys == old(g.at.Keys) - {h}
    {
      hide Shape, ToWire, Len, Without;
      RunAt(g, -1, h);
      AbsorbNear(g, -1, h, h);
      SameEnds(g.at[h].lo, g.at[h].hi, size);
      ghost var g2 := Unlink(g, -1, h);
      WithoutKeys(g.at, g2.at, h);
      if data2[h] != -1 {
        length := length - Len(data1[h], data2[h]);
        data2[h] := -1;
      } else {
        length := length - 1;
      }
      data1[h] := -1;
      if lastInsertPos == h {
        lastInsertPos := -1;
      }
      g := g2;
    }

    lemma WithoutKeys(at: map<int, Run>, at2: map<int, Run>, s: int)
      requires Without(at, at2, s)
      ensures at2.Keys == at.Keys - {s}
      ensures forall t :: t in at && t != s ==> t in at2
    {
      assert forall t :: t in at2.Keys <==> t in at.Keys - {s};
    }

    /** Remove every number that is not after seqno. */
    method Remove(seqno: Wire, ghost k: int)
      requires Valid() && seqno == ToWire(k) && forall x :: x in Lost() ==> Near(x, k)
      modifies this, data1, data2, next
      ensures Valid() && forall x :: x in Lost() <==> x in old(Lost()) && k < x
    {
      hide Shape, ToWire, Off, Slot, Near, Divides;
      HeadOf(g, -1);
      if 0 == length {
        return;
      }
      assert forall x :: x in g.owner ==> x in Lost();
      RemoveFacts(g, k);
      var offset := Off(data1[head], seqno);
      var loc := (head + offset + size) % size;
      if 0 == offset {
        PopFront();
      } else if offset > 0 {
        if seqno == data1[loc] {
          RemoveUpTo(loc, (loc + 1) % size, seqno, k);
        } else {
          var i := FindPrior(head, seqno, k);
          NotStart(g.at, k, next[i]);
          RemoveUpTo(i, (loc + 1) % size, seqno, k);
        }
      }
    }

    /** The run in slot i is the last one to start by k: what of it lies after k becomes the head, or else the run
        after it does. */
    method RemoveUpTo(i: int, loc: int, seqno: Wire, ghost k: int)
      requires Valid() && i in g.at && 0 <= i < size && g.at[i].lo <= k && Close(k) && seqno == ToWire(k)
      requires next[i] in g.at ==> k < g.at[next[i]].lo
      requires loc == Slot(k + 1, g.base, size)
      modifies this, data1, data2, next
      ensures Valid() && forall x :: x in Lost() <==> x in old(Lost()) && k < x
    {
      hide Shape, ToWire, Cmp, Slot, Near, Divides;
      CompareEnd(g, i, k);
      if -1 != data2[i] && Cmp(data2[i], seqno) > 0 {
        SplitAfter(i, loc, seqno, k);
      }
      DividesAfter(g, i, k);
      DropUntil(next[i], k);
    }

    /** What the offset of k from the first run and the slot of k tell Remove. */
    lemma RemoveFacts(g: Image, k: int)
      requires Shape(g, -1) && g.head in g.at && forall x :: x in g.owner ==> Near(x, k)
      requires forall s :: s in g.at ==> g.at[g.head].lo <= g.at[s].lo
      ensures 0 <= g.head < g.size == |g.d1| == |g.next| && 0 <= g.d1[g.head] <= MAX
      ensures var offset, loc := Off(g.d1[g.head], ToWire(k)), Slot(k, g.base, g.size);
              && offset == k - g.at[g.head].lo && 0 <= loc < |g.d1|
              && (g.head + offset + g.size) % g.size == loc
              && (loc + 1) % g.size == Slot(k + 1, g.base, g.size)
              && (g.d1[loc] == ToWire(k) ==>
                    && loc in g.at && g.at[loc].lo == k
                    && (g.next[loc] in g.at ==> k < g.at[g.next[loc]].lo))
              && (g.d1[loc] != ToWire(k) ==> NoStart(g.at, k))
      ensures forall x :: x in g.owner ==> g.at[g.head].lo <= x
    {
      hide Shape, ToWire, Off, Slot, Near, NoStart;
      RunAt(g, -1, g.head);
      RunBounds(g);
      HeadOf(g, -1);
      assert g.at[g.head].lo in g.owner;
      WindowAgreement(g.at[g.head].lo, k);
      SlotShift(g.at[g.head].lo, k - g.at[g.head].lo, g.base, g.size);
      SlotShift(k, 1, g.base, g.size);
      StartAt(g, k);
      var loc := Slot(k, g.base, g.size);
      if loc in g.at {
        NextOf(g, -1, loc);
      }
    }
  }
}
