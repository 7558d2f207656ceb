/** The receiver's loss list, CRcvLossList: a doubly linked list of runs embedded in four fixed arrays.
    It refines a finite set of lost numbers to which only larger numbers are added. */
module RcvLoss {
  import opened SeqNo
  import opened LossSlots
  import opened LossRuns
  import LossReport

  class RcvLossList {
    const data1: array<int>
    const data2: array<int>
    const next: array<int>
    const prior: array<int>
    const size: int
    var head: int
    var tail: int
    var length: int

    ghost var g: Image

    /** The set of lost numbers. */
    ghost function Lost(): set<int>
      reads this`g
    {
      g.owner.Keys
    }

    ghost predicate Arrays() {
      && 0 < size <= MAX_SIZE
      && data1.Length == data2.Length == next.Length == prior.Length == size
      && data1 != data2 && data1 != next && data1 != prior && data2 != next && data2 != prior && next != prior
    }

    /** The snapshot g is what the arrays hold. */
    ghost predicate Mirrored()
      reads this, data1, data2, next
    {
      && Arrays()
      && g.d1 == data1[..] && g.d2 == data2[..] && g.next == next[..] && g.size == size && g.head == head
    }

    ghost predicate Valid()
      reads this, data1, data2, next, prior
    {
      Mirrored() && Shape(g, -1) && Backed(g, prior[..], tail) && length == |g.owner|
    }

    lemma LengthIs()
      requires Valid()
      ensures length == 0 <==> Lost() == {}
    {
    }

    constructor (size: int)
      requires 0 < size <= MAX_SIZE
      ensures Valid() && Lost() == {} && this.size == size
      ensures fresh(data1) && fresh(data2) && fresh(next) && fresh(prior)
    {
      this.size := size;
      data1 := new int[size](_ => -1);
      data2 := new int[size](_ => -1);
      next := new int[size](_ => -1);
      prior := new int[size](_ => -1);
      head, tail, length := -1, -1, 0;
      new;
      g := Image(data1[..], data2[..], next[..], size, 0, map[], map[], -1);
    }

    /** Append the numbers a..b, which must come after every number in the list. */
    method Insert(seqno1: Wire, seqno2: Wire, ghost a: int, ghost b: int)
      requires Valid() && seqno1 == ToWire(a) && seqno2 == ToWire(b)
      requires a <= b < a + size && forall x :: x in Lost() ==> x < a && b - x < size
      modifies this, data1, data2, next, prior
      ensures Valid() && forall x :: x in Lost() <==> x in old(Lost()) || a <= x <= b
    {
      hide Shape, Backed, ToWire, Len, Off, Slot, Inc;
      HeadOf(g, -1);
      if 0 == length {
        InsertFirst(seqno1, seqno2, a, b);
        return;
      }
      assert forall x :: x in g.owner ==> x in Lost();
      InsertFacts(g, prior[..], tail, a, b);
      var offset := Off(data1[head], seqno1);
      var loc := (head + offset) % size;
      if -1 != data2[tail] && Inc(data2[tail]) == seqno1 {
        Lengthen(seqno2, b);
      } else {
        Append(loc, seqno1, seqno2, a, b);
      }
      length := length + Len(seqno1, seqno2);
    }

    method InsertFirst(seqno1: Wire, seqno2: Wire, ghost a: int, ghost b: int)
      requires Valid() && length == 0 && g.at == map[] && a <= b < a + size
      requires seqno1 == ToWire(a) && seqno2 == ToWire(b)
      modifies this, data1, data2, next, prior
      ensures Valid() && forall x :: x in Lost() <==> a <= x <= b
    {
      hide ToWire, Len, Shape, Backed;
      ShortRun(a, b, size);
      NothingStored(g);
      ghost var g2 := Begin(g, g.next[0 := -1], a, b);
      FirstBacked(g2, prior[..][0 := -1]);
      head := 0;
      tail := 0;
      data1[head] := seqno1;
      if seqno2 != seqno1 {
        data2[head] := seqno2;
      }
      next[head] := -1;
      prior[head] := -1;
      length := length + Len(seqno1, seqno2);
      g := g2;
    }

    lemma NothingStored(g: Image)
      requires Shape(g, -1) && g.at == map[] && g.size == size > 0
      ensures |g.d1| == |g.d2| == |g.next| == g.size && g.d2[0] == -1
    {
    }

    lemma FirstBacked(g: Image, prior: seq<int>)
      requires |g.next| == |prior| == g.size > 0 && g.next[0] == -1 && prior[0] == -1
      requires g.head == 0 && forall s :: s in g.at <==> s == 0
      ensures Backed(g, prior, 0)
    {
    }

    lemma ShortRun(a: int, b: int, size: int)
      requires a <= b < a + size && size <= MAX_SIZE
      ensures ToWire(a) == ToWire(b) <==> a == b
      ensures Len(ToWire(a), ToWire(b)) == b - a + 1
      ensures EndWord(Run(a, b)) == if a < b then ToWire(b) else -1
    {
      hide ToWire, Len;
      WindowAgreement(a, b);
    }

    /** What the offset of a from the first run and the end of the last run tell Insert. */
    lemma InsertFacts(g: Image, prior: seq<int>, tail: int, a: int, b: int)
      requires Shape(g, -1) && Backed(g, prior, tail) && g.size <= MAX_SIZE && g.head != -1 && a <= b < a + g.size
      requires forall x :: x in g.owner ==> x < a && b - x < g.size
      ensures g.head in g.at && 0 <= g.head < g.size == |g.d1| == |g.d2| && 0 <= g.d1[g.head] <= MAX
      ensures (g.head + Off(g.d1[g.head], ToWire(a))) % g.size == Slot(a, g.base, g.size)
      ensures Len(ToWire(a), ToWire(b)) == b - a + 1
      ensures tail in g.at && 0 <= tail < g.size && g.next[tail] == -1 && -1 !in g.at && Roomy(g.at, a, b, g.size)
      ensures g.at[tail].hi < a && (g.d2[tail] == -1 <==> g.at[tail].lo == g.at[tail].hi)
      ensures g.d2[tail] != -1 ==> 0 <= g.d2[tail] <= MAX
      ensures g.d2[tail] != -1 && Inc(g.d2[tail]) == ToWire(a) ==> g.at[tail].hi + 1 == a && g.at[tail].lo < g.at[tail].hi
    {
      hide Shape, ToWire, Off, Slot, Inc, Len;
      RunAt(g, -1, g.head);
      RunAt(g, -1, tail);
      RunBounds(g);
      assert g.at[tail].hi in g.owner && g.at[g.head].lo in g.owner;
      WindowAgreement(g.at[g.head].lo, a);
      SlotShift(g.at[g.head].lo, a - g.at[g.head].lo, g.base, g.size);
      ShortRun(a, b, g.size);
      Neighbours(g.at[tail].hi);
      WindowAgreement(g.at[tail].hi + 1, a);
    }

    /** The new numbers follow the last run without a gap: it is lengthened. */
    method Lengthen(seqno2: Wire, ghost b: int)
      requires Valid() && tail in g.at && 0 <= tail < size && g.at[tail].lo < g.at[tail].hi < b && next[tail] == -1
      requires -1 !in g.at && seqno2 == ToWire(b) && forall x :: x in g.owner ==> b - x < size
      modifies this`g, data2
      ensures Mirrored() && Shape(g, -1) && Backed(g, prior[..], tail)
      ensures |g.owner| == old(|g.owner|) + b - old(g.at[tail].hi)
      ensures forall x :: x in Lost() <==> x in old(Lost()) || old(g.at[tail].hi) < x <= b
    {
      hide Shape, ToWire;
      LengthenFacts(g, tail);
      ghost var g2 := Widen(g, tail, b);
      WidenBacked(g, g2, prior[..], tail, Run(g.at[tail].lo, b));
      ghost var g3 := Seal(g2, tail);
      BackedByNext(g2, g3, prior[..], tail);
      data2[tail] := seqno2;
      g := g3;
    }

    lemma LengthenFacts(g: Image, s: int)
      requires Shape(g, -1) && s in g.at
      ensures forall x :: g.at[s].lo <= x <= g.at[s].hi ==> x in g.owner
    {
      hide Stored, Ordered, Linked;
      OwnedBy(g.at, g.owner, -1, s);
    }

    lemma WidenBacked(g: Image, g2: Image, prior: seq<int>, tail: int, run: Run)
      requires Backed(g, prior, tail) && With(g.at, g2.at, tail, run) && tail in g.at
      requires g2.next == g.next && g2.size == g.size && g2.head == g.head
      ensures Backed(g2, prior, tail) && g2.at[tail] == run && forall s :: s in g2.at <==> s in g.at
    {
      forall s | s in g2.at ensures Precedes(g2, prior[s], s) {
        assert Precedes(g, prior[s], s);
      }
    }

    lemma BackedByNext(g: Image, g2: Image, prior: seq<int>, tail: int)
      requires Backed(g, prior, tail) && g2 == g.(owner := g2.owner)
      ensures Backed(g2, prior, tail)
    {
      forall s | s in g2.at ensures Precedes(g2, prior[s], s) {
        assert Precedes(g, prior[s], s);
      }
    }

    /** Link a new run in after the last one. */
    method Append(loc: int, seqno1: Wire, seqno2: Wire, ghost a: int, ghost b: int)
      requires Valid() && tail in g.at && 0 <= tail < size && g.at[tail].hi < a && next[tail] == -1 && -1 !in g.at
      requires Roomy(g.at, a, b, size) && head != -1
      requires seqno1 == ToWire(a) && seqno2 == ToWire(b) && loc == Slot(a, g.base, size)
      modifies this`g, this`tail, data1, data2, next, prior
      ensures Mirrored() && Shape(g, -1) && Backed(g, prior[..], tail)
      ensures |g.owner| == old(|g.owner|) + b - a + 1
      ensures forall x :: x in Lost() <==> x in old(Lost()) || a <= x <= b
    {
      hide Shape, ToWire, Slot, Backed;
      StoredRoomy(g, a, b);
      ShortRun(a, b, size);
      ghost var g2 := LinkAfter(g, tail, a, b);
      AppendBacked(g, g2, prior[..], tail, loc, Run(a, b));
      WithAt(g.at, g2.at, loc, Run(a, b));
      ghost var g3 := Seal(g2, loc);
      BackedByNext(g2, g3, prior[..][loc := tail], loc);
      data1[loc] := seqno1;
      if seqno2 != seqno1 {
        data2[loc] := seqno2;
      }
      next[tail] := loc;
      prior[loc] := tail;
      next[loc] := -1;
      tail := loc;
      g := g3;
    }

    lemma WithAt(at: map<int, Run>, at2: map<int, Run>, s: int, run: Run)
      requires With(at, at2, s, run)
      ensures s in at2 && at2[s] == run && (s >= 0 && -1 !in at ==> -1 !in at2)
    {
    }

    /** Remove seqno; say whether it was in the list. */
    method Remove(seqno: Wire, ghost k: int) returns (found: bool)
      requires Valid() && seqno == ToWire(k) && forall x :: x in Lost() ==> Near(x, k)
      modifies this, data1, data2, next, prior
      ensures Valid() && Lost() == old(Lost()) - {k}
      ensures found <==> k in old(Lost())
    {
      hide Shape, Backed, ToWire, Off, Slot, Near;
      HeadOf(g, -1);
      if 0 == length {
        return false;
      }
      assert forall x :: x in g.owner ==> x in Lost();
      RemoveFacts(g, k);
      var offset := Off(data1[head], seqno);
      if offset < 0 {
        return false;
      }
      var loc := (head + offset) % size;
      if seqno == data1[loc] {
        RemoveStart(loc, k);
        return true;
      }
      var i := FindBack(loc, offset, k);
      found := RemoveInside(i, loc, seqno, k);
    }

    /** What the offset of k from the first run and the slot of k tell Remove. */
    lemma RemoveFacts(g: Image, k: int)
      requires Shape(g, -1) && g.size <= MAX_SIZE && g.head != -1
      requires forall x :: x in g.owner ==> Near(x, k)
      ensures g.head in g.at && 0 <= g.head < g.size == |g.d1| && 0 <= g.d1[g.head] <= MAX
      ensures var offset, loc := Off(g.d1[g.head], ToWire(k)), Slot(k, g.base, g.size);
              && offset == k - g.at[g.head].lo && 0 <= loc < |g.d1|
              && (g.head + offset) % g.size == loc && g.head == Slot(k - offset, g.base, g.size)
              && (g.d1[loc] == ToWire(k) ==> loc in g.at && g.at[loc].lo == k && k in g.owner)
              && (g.d1[loc] != ToWire(k) ==> NoStart(g.at, k))
      ensures forall x :: x in g.owner ==> g.at[g.head].lo <= x
    {
      hide Shape, ToWire, Off, Slot, Near, NoStart;
      HeadOf(g, -1);
      RunAt(g, -1, g.head);
      RunBounds(g);
      assert g.at[g.head].lo in g.owner;
      WindowAgreement(g.at[g.head].lo, k);
      SlotShift(g.at[g.head].lo, k - g.at[g.head].lo, g.base, g.size);
      StartAt(g, k);
    }

    /** The run in slot loc begins with k: take k out. */
    method RemoveStart(loc: int, ghost k: int)
      requires Valid() && loc in g.at && g.at[loc].lo == k
      modifies this, data1, data2, next, prior
      ensures Valid() && Lost() == old(Lost()) - {k}
    {
      hide Shape, Backed, ToWire;
      RunAt(g, -1, loc);
      TailOf(g, prior[..], tail, loc);
      ShortRun(k, k, size);
      WidthOf(g, loc);
      if -1 == data2[loc] {
        RemoveWhole(loc, k);
      } else {
        MoveStart(loc, k);
      }
      length := length - 1;
    }

    lemma WidthOf(g: Image, s: int)
      requires Shape(g, -1) && s in g.at && g.size <= MAX_SIZE
      ensures 0 <= s < g.size == |g.d2| && g.at[s].lo <= g.at[s].hi < g.at[s].lo + g.size
      ensures g.d2[s] == -1 <==> g.at[s].lo == g.at[s].hi
    {
      hide Covers, Linked, ToWire, Slot;
      RunAt(g, -1, s);
    }

    /** A run of one number is unlinked. */
    method RemoveWhole(loc: int, ghost k: int)
      requires Valid() && loc in g.at && 0 <= loc < size && g.at[loc] == Run(k, k)
      modifies this`g, this`head, this`tail, data1, next, prior
      ensures Mirrored() && Shape(g, -1) && Backed(g, prior[..], tail)
      ensures Lost() == old(Lost()) - {k} && |g.owner| == old(|g.owner|) - 1
    {
      hide Shape, Backed, ToWire;
      TailOf(g, prior[..], tail, loc);
      RunAt(g, -1, loc);
      ghost var p, n := prior[loc], next[loc];
      ghost var g2 := Unlink(g, p, loc);
      UnlinkBacked(g, g2, prior[..], if n != -1 then prior[..][n := p] else prior[..],
                   tail, if n == -1 && p != -1 then p else tail, p, loc);
      if head == loc {
        head := next[head];
        if -1 != head {
          prior[head] := -1;
        }
      } else {
        next[prior[loc]] := next[loc];
        if -1 != next[loc] {
          prior[next[loc]] := prior[loc];
        } else {
          tail := prior[loc];
        }
      }
      data1[loc] := -1;
      assert forall x :: x in g2.owner.Keys <==> x in g.owner.Keys - {k};
      g := g2;
    }

    /** The first number of a longer run is taken out: the rest of the run moves to the next slot. */
    method MoveStart(loc: int, ghost k: int)
      requires Valid() && loc in g.at && 0 <= loc < size && k == g.at[loc].lo < g.at[loc].hi
      modifies this`g, this`head, this`tail, data1, data2, next, prior
      ensures Mirrored() && Shape(g, -1) && Backed(g, prior[..], tail)
      ensures Lost() == old(Lost()) - {k} && |g.owner| == old(|g.owner|) - 1
    {
      hide Shape, Backed, ToWire, Inc, Cmp, Slot, Shifted, Merged;
      TailOf(g, prior[..], tail, loc);
      MoveFacts(g, loc);
      ghost var p, n, run := prior[loc], next[loc], Run(k + 1, g.at[loc].hi);
      ghost var g2 := Shift(g, p, loc);
      var i := (loc + 1) % size;
      ghost var prior2 := if tail == loc then prior[..][i := p] else prior[..][i := p][n := i];
      ShiftedIs(g, g2, prior[..], prior2, tail, p, loc, i, run);
      ShiftBacked(g, g2, prior[..], prior2, tail, if tail == loc then i else tail, p, loc, i, run);
      assert forall x :: x in g2.owner.Keys <==> x in g.owner.Keys - {k};
      MoveWords(loc, i, run);
      MoveLinks(loc, i);
      g := g2;
    }

    method MoveWords(loc: int, i: int, ghost run: Run)
      requires Arrays() && 0 <= loc < size && 0 <= i < size && i != loc
      requires 0 <= data1[loc] <= MAX && 0 <= data2[loc] <= MAX && data2[loc] == ToWire(run.hi) && data2[i] == -1
      requires Inc(data1[loc]) == ToWire(run.lo)
      requires Cmp(data2[loc], ToWire(run.lo)) > 0 <==> run.lo < run.hi
      modifies data1, data2
      ensures data1[..] == old(data1[..])[loc := -1][i := ToWire(run.lo)]
      ensures data2[..] == old(data2[..])[loc := -1][i := EndWord(run)]
    {
      hide ToWire, Inc, Cmp;
      data1[i] := Inc(data1[loc]);
      if Cmp(data2[loc], Inc(data1[loc])) > 0 {
        data2[i] := data2[loc];
      }
      data1[loc] := -1;
      data2[loc] := -1;
    }

    method MoveLinks(loc: int, i: int)
      requires Arrays() && 0 <= loc < size && 0 <= i < size && i != loc && prior[loc] != loc && prior[loc] != i
      requires prior[loc] == -1 || 0 <= prior[loc] < size
      requires prior[loc] == -1 <==> head == loc
      requires tail != loc ==> 0 <= next[loc] < size && next[loc] != loc
      modifies this`head, this`tail, next, prior
      ensures next[..] == Relink(old(next[..])[i := old(next[loc])], old(prior[loc]), i)
      ensures head == if old(head) == loc then i else old(head)
      ensures tail == if old(tail) == loc then i else old(tail)
      ensures prior[..] == if old(tail) == loc then old(prior[..])[i := old(prior[loc])]
                           else old(prior[..])[i := old(prior[loc])][old(next[loc]) := i]
    {
      next[i] := next[loc];
      prior[i] := prior[loc];
      if head == loc {
        head := i;
      } else {
        next[prior[i]] := i;
      }
      if tail == loc {
        tail := i;
      } else {
        prior[next[i]] := i;
      }
    }

    lemma ShiftedIs(g: Image, g2: Image, prior: seq<int>, prior2: seq<int>, tail: int,
                    p: int, s: int, loc: int, run: Run)
      requires Backed(g, prior, tail) && s in g.at && 0 <= s < |prior| && p == prior[s]
      requires loc !in g.at && 0 <= loc < g.size == |g.next|
      requires Merged(g.at, g2.at, loc, s, run) && g2.size == g.size && p != loc && Precedes(g, p, s)
      requires g2.next == Relink(g.next[loc := g.next[s]], p, loc) && (g2.head == if p == -1 then loc else g.head)
      requires g.next[s] != s && (g.next[s] == -1 <==> s == tail)
      requires s != tail ==> 0 <= g.next[s] < |prior|
      requires prior2 == if tail == s then prior[loc := p] else prior[loc := p][g.next[s] := loc]
      ensures Shifted(g, g2, prior, prior2, tail, p, s, loc, run)
    {
      hide Backed, Merged, Precedes;
    }

    lemma MoveFacts(g: Image, s: int)
      requires Shape(g, -1) && g.size <= MAX_SIZE && s in g.at && g.at[s].lo < g.at[s].hi
      ensures var lo, hi := g.at[s].lo, g.at[s].hi;
              && 0 <= s < g.size == |g.d1| == |g.d2| == |g.next|
              && g.d1[s] == ToWire(lo) && Inc(ToWire(lo)) == ToWire(lo + 1) && g.d2[s] == ToWire(hi)
              && (s + 1) % g.size == Slot(lo + 1, g.base, g.size)
              && EndWord(Run(lo + 1, hi)) == (if lo + 1 < hi then ToWire(hi) else -1)
              && (Cmp(ToWire(hi), ToWire(lo + 1)) > 0 <==> lo + 1 < hi)
    {
      hide Shape, ToWire, Inc, Cmp, Slot;
      RunAt(g, -1, s);
      WidthOf(g, s);
      Neighbours(g.at[s].lo);
      SlotShift(g.at[s].lo, 1, g.base, g.size);
      WindowAgreement(g.at[s].hi, g.at[s].lo + 1);
    }

    /** The run in slot i is the last one that starts before k, if k lies less than an array length after the first
        lost number; otherwise every lost number lies before k. */
    ghost predicate Before(g: Image, i: int, k: int) {
      && i in g.at && 0 <= i < g.size
      && ((forall x :: x in g.owner ==> x < k)
          || (g.at[i].lo < k && forall s :: s in g.at && g.at[s].lo < k ==> g.at[s].lo <= g.at[i].lo))
    }

    /** Walk backwards round the array from the slot of k to the first slot that holds a run. */
    method FindBack(loc: int, offset: int, ghost k: int) returns (i: int)
      requires Valid() && head in g.at && loc == Slot(k, g.base, size) && NoStart(g.at, k)
      requires 0 <= offset && head == Slot(k - offset, g.base, size) && g.at[head].lo == k - offset
      ensures Before(g, i, k)
    {
      hide Shape, Backed, ToWire, Slot, Before;
      NotStart(g.at, k, head);
      i := Back(loc, k);
      ghost var d := 1;
      NoneSkipped(g, k);
      while -1 == data1[i]
        invariant 1 <= d <= offset && i == Slot(k - d, g.base, size)
        invariant Skipped(g.at, k - d, k)
        decreases offset - d
      {
        SkipOne(g, k - d, k);
        i := Back(i, k - d);
        d := d + 1;
      }
      LandBefore(g, k - d, k);
    }

    /** The slot before slot i, that of x. */
    method Back(i: int, ghost x: int) returns (j: int)
      requires size > 0 && i == Slot(x, g.base, size)
      ensures j == Slot(x - 1, g.base, size)
    {
      hide Slot;
      SlotShift(x, -1, g.base, size);
      j := (i - 1 + size) % size;
    }

    ghost predicate Skipped(at: map<int, Run>, x: int, k: int) {
      forall s :: s in at ==> !(x < at[s].lo < k)
    }

    lemma NotStart(at: map<int, Run>, a: int, s: int)
      requires NoStart(at, a)
      ensures s in at ==> at[s].lo != a
    {
    }

    lemma NoneSkipped(g: Image, k: int)
      ensures Skipped(g.at, k - 1, k)
    {
    }

    /** An empty slot holds no run, and it is not the slot of the first run. */
    lemma SkipOne(g: Image, x: int, k: int)
      requires Shape(g, -1) && g.head in g.at && 0 <= Slot(x, g.base, g.size) < |g.d1| && Skipped(g.at, x, k)
      requires g.d1[Slot(x, g.base, g.size)] == -1
      ensures Skipped(g.at, x - 1, k) && x != g.at[g.head].lo
    {
      hide Covers, Ordered, Linked, Slot, ToWire;
      forall s | s in g.at ensures g.at[s].lo != x {
        RunAt(g, -1, s);
      }
    }

    lemma LandBefore(g: Image, x: int, k: int)
      requires Shape(g, -1) && g.head in g.at && Skipped(g.at, x, k) && g.at[g.head].lo <= x < k
      requires 0 <= Slot(x, g.base, g.size) < |g.d1| && g.d1[Slot(x, g.base, g.size)] != -1
      ensures Before(g, Slot(x, g.base, g.size), k)
    {
      hide Covers, Ordered, Linked, Slot, ToWire, EndWord, Skipped;
      var i := Slot(x, g.base, g.size);
      RunBounds(g);
      assert i in g.at;
      if k - g.at[g.head].lo >= g.size {
        AllBefore(g, k);
      } else {
        RunAt(g, -1, i);
        Closest(g, i, x, k);
      }
    }

    lemma AllBefore(g: Image, k: int)
      requires Shape(g, -1) && g.head in g.at && k - g.at[g.head].lo >= g.size
      ensures forall y :: y in g.owner ==> y < k
    {
      hide Stored, Linked;
      forall y | y in g.owner ensures y < k {
        assert g.at[g.owner[y]].hi - g.at[g.head].lo < g.size;
      }
    }

    lemma Closest(g: Image, i: int, x: int, k: int)
      requires Shape(g, -1) && g.head in g.at && i in g.at && Skipped(g.at, x, k)
      requires g.at[g.head].lo <= x < k < g.at[g.head].lo + g.size && i == Slot(g.at[i].lo, g.base, g.size)
      requires i == Slot(x, g.base, g.size)
      ensures g.at[i].lo < k && forall s :: s in g.at && g.at[s].lo < k ==> g.at[s].lo <= g.at[i].lo
    {
      hide Covers, Linked, Slot, ToWire, EndWord;
      assert g.at[g.head].lo <= g.at[i].lo <= g.at[i].hi < g.at[g.head].lo + g.size;
      SlotInjective(x, g.at[i].lo, g.base, g.size);
    }

    /** No run begins at k, so it can only lie in the run in slot i. */
    method RemoveInside(i: int, loc: int, seqno: Wire, ghost k: int) returns (found: bool)
      requires Valid() && Before(g, i, k) && NoStart(g.at, k) && (forall x :: x in g.owner ==> Near(x, k))
      requires seqno == ToWire(k) && loc == Slot(k, g.base, size)
      modifies this, data1, data2, next, prior
      ensures Valid() && Lost() == old(Lost()) - {k}
      ensures found <==> k in old(Lost())
    {
      hide Shape, Backed, ToWire, Cmp, Slot, Near, Before, Inc, Dec;
      InsideFacts(g, i, k);
      if -1 == data2[i] || Cmp(seqno, data2[i]) > 0 {
        assert k !in g.owner.Keys;
        return false;
      }
      assert k in g.owner.Keys;
      if seqno == data2[i] {
        if seqno == Inc(data1[i]) {
          data2[i] := -1;
        } else {
          data2[i] := Dec(seqno);
        }
        ghost var g2 := Trim(g, i, k - 1);
        assert forall x :: x in g2.owner.Keys <==> x in g.owner.Keys - {k};
        TrimBacked(g, g2, prior[..], tail, i, Run(g.at[i].lo, k - 1));
        g := g2;
      } else {
        Split(i, (loc + 1) % size, seqno, k);
      }
      length := length - 1;
      return true;
    }

    lemma TrimBacked(g: Image, g2: Image, prior: seq<int>, tail: int, s: int, run: Run)
      requires Backed(g, prior, tail) && With(g.at, g2.at, s, run) && s in g.at
      requires g2.next == g.next && g2.size == g.size && g2.head == g.head
      ensures Backed(g2, prior, tail)
    {
      forall t | t in g2.at ensures Precedes(g2, prior[t], t) {
        assert Precedes(g, prior[t], t);
      }
    }

    lemma InsideFacts(g: Image, i: int, k: int)
      requires Shape(g, -1) && Before(g, i, k) && NoStart(g.at, k) && g.size <= MAX_SIZE
      requires forall x :: x in g.owner ==> Near(x, k)
      ensures i in g.at && 0 <= i < g.size == |g.d1| == |g.d2| && 0 <= g.d1[i] <= MAX
      ensures g.d2[i] == -1 || 0 <= g.d2[i] <= MAX
      ensures (g.d2[i] == -1 || Cmp(ToWire(k), g.d2[i]) > 0) <==> k !in g.owner
      ensures k in g.owner ==>
                && g.at[i].lo < k <= g.at[i].hi && g.d2[i] == ToWire(g.at[i].hi)
                && (ToWire(k) == g.d2[i] <==> k == g.at[i].hi)
                && Inc(ToWire(k)) == ToWire(k + 1) && Dec(ToWire(k)) == ToWire(k - 1)
                && (ToWire(k) == Inc(g.d1[i]) <==> k == g.at[i].lo + 1)
                && EndWord(Run(g.at[i].lo, k - 1)) == (if k == g.at[i].lo + 1 then -1 else ToWire(k - 1))
                && (Slot(k, g.base, g.size) + 1) % g.size == Slot(k + 1, g.base, g.size)
    {
      hide Shape, ToWire, Inc, Dec, Cmp, Slot;
      RunAt(g, -1, i);
      RunBounds(g);
      WidthOf(g, i);
      OnlyHere(g, i, k);
      assert g.at[i].lo in g.owner && g.at[i].hi in g.owner;
      WindowAgreement(k, g.at[i].hi);
      Neighbours(k);
      Neighbours(g.at[i].lo);
      SlotShift(k, 1, g.base, g.size);
      if k in g.owner {
        WindowAgreement(k, g.at[i].lo + 1);
      }
    }

    /** k is lost just if it lies in the run in slot i. */
    lemma OnlyHere(g: Image, i: int, k: int)
      requires Shape(g, -1) && Before(g, i, k) && NoStart(g.at, k)
      ensures k in g.owner <==> g.at[i].lo < k <= g.at[i].hi
    {
      hide Stored, Spans, Follows;
      OwnedBy(g.at, g.owner, -1, i);
      if k in g.owner {
        var s := g.owner[k];
        assert g.at[s].lo != k;
      }
    }

    /** Split the run in slot i around k; the second part goes to slot loc. */
    method Split(i: int, loc: int, seqno: Wire, ghost k: int)
      requires Valid() && i in g.at && 0 <= i < size && g.at[i].lo < k < g.at[i].hi
      requires seqno == ToWire(k) && loc == Slot(k + 1, g.base, size)
      modifies this`g, this`tail, data1, data2, next, prior
      ensures Mirrored() && Shape(g, -1) && Backed(g, prior[..], tail)
      ensures Lost() == old(Lost()) - {k} && |g.owner| == old(|g.owner|) - 1
    {
      hide Shape, Backed, ToWire, Inc, Dec, Cmp, Slot, CutInTwo;
      TailOf(g, prior[..], tail, i);
      SplitFacts(g, i, k);
      ghost var n, left, right := next[i], Run(g.at[i].lo, k - 1), Run(k + 1, g.at[i].hi);
      ghost var g2 := Cut(g, i, k - 1, k + 1);
      CutBacked(g, g2, prior[..], if tail == i then prior[..][loc := i] else prior[..][loc := i][n := loc],
                tail, if tail == i then loc else tail, i, loc, left, right);
      assert forall x :: x in g2.owner.Keys <==> x in g.owner.Keys - {k};
      SplitWords(i, loc, seqno, left, right);
      next[loc] := next[i];
      next[i] := loc;
      prior[loc] := i;
      if tail == i {
        tail := loc;
      } else {
        prior[next[loc]] := loc;
      }
      g := g2;
    }

    method SplitWords(i: int, loc: int, seqno: Wire, ghost left: Run, ghost right: Run)
      requires Arrays() && 0 <= loc < size && 0 <= i < size && i != loc
      requires 0 <= data1[i] <= MAX && data2[i] == ToWire(right.hi) && data2[loc] == -1
      requires Inc(seqno) == ToWire(right.lo) && Dec(seqno) == ToWire(left.hi) && left.lo <= left.hi
      requires Cmp(ToWire(right.hi), ToWire(right.lo)) > 0 <==> right.lo < right.hi
      requires seqno == Inc(data1[i]) <==> left.lo == left.hi
      modifies data1, data2
      ensures data1[..] == old(data1[..])[loc := ToWire(right.lo)]
      ensures data2[..] == old(data2[..])[loc := EndWord(right)][i := EndWord(left)]
    {
      hide ToWire, Inc, Dec, Cmp;
      data1[loc] := Inc(seqno);
      if Cmp(data2[i], data1[loc]) > 0 {
        data2[loc] := data2[i];
      }
      if seqno == Inc(data1[i]) {
        data2[i] := -1;
      } else {
        data2[i] := Dec(seqno);
      }
    }

    lemma SplitFacts(g: Image, i: int, k: int)
      requires Shape(g, -1) && g.size <= MAX_SIZE && i in g.at && g.at[i].lo < k < g.at[i].hi
      ensures 0 <= i < g.size == |g.d1| == |g.d2| == |g.next| && g.d1[i] == ToWire(g.at[i].lo)
      ensures g.d2[i] == ToWire(g.at[i].hi)
      ensures Inc(ToWire(k)) == ToWire(k + 1) && Dec(ToWire(k)) == ToWire(k - 1)
      ensures Cmp(ToWire(g.at[i].hi), ToWire(k + 1)) > 0 <==> k + 1 < g.at[i].hi
      ensures ToWire(k) == Inc(ToWire(g.at[i].lo)) <==> k == g.at[i].lo + 1
      ensures EndWord(Run(k + 1, g.at[i].hi)) == if k + 1 < g.at[i].hi then ToWire(g.at[i].hi) else -1
      ensures EndWord(Run(g.at[i].lo, k - 1)) == if k == g.at[i].lo + 1 then -1 else ToWire(k - 1)
    {
      hide Shape, ToWire, Inc, Dec, Cmp;
      RunAt(g, -1, i);
      WidthOf(g, i);
      Neighbours(k);
      Neighbours(g.at[i].lo);
      WindowAgreement(g.at[i].hi, k + 1);
      WindowAgreement(k, g.at[i].lo + 1);
    }

    /** Is any number from seqno1 to seqno2 in the list? */
    method Find(seqno1: Wire, seqno2: Wire, ghost a: int, ghost b: int) returns (found: bool)
      requires Valid() && seqno1 == ToWire(a) && seqno2 == ToWire(b) && a <= b
      requires forall x :: x in Lost() ==> Near(x, a) && Near(x, b)
      ensures found <==> exists x :: x in Lost() && a <= x <= b
    {
      hide Shape, Backed, ToWire, Cmp, Near;
      HeadOf(g, -1);
      if 0 == length {
        return false;
      }
      assert forall x :: x in g.owner ==> x in Lost();
      var p := head;
      StartWalk(g);
      while -1 != p
        invariant p != -1 ==> p in g.at
        invariant p != -1 ==> forall x :: x in g.owner && x < g.at[p].lo ==> !(a <= x <= b)
        invariant p == -1 ==> forall x :: x in g.owner ==> !(a <= x <= b)
        decreases if p == -1 then {} else After(g.at, g.at[p].lo)
      {
        FindFacts(g, p, a, b);
        if Cmp(data1[p], seqno1) == 0
           || (Cmp(data1[p], seqno1) > 0 && Cmp(data1[p], seqno2) <= 0)
           || (Cmp(data1[p], seqno1) < 0 && data2[p] != -1 && Cmp(data2[p], seqno1) >= 0) {
          ghost var x := if g.at[p].lo < a then a else g.at[p].lo;
          assert x in Lost() && a <= x <= b;
          return true;
        }
        WalkOn(g, p);
        p := next[p];
      }
      return false;
    }

    /** The slots of the runs that start at x or later. */
    ghost function After(at: map<int, Run>, x: int): set<int> {
      set s | s in at && x <= at[s].lo
    }

    lemma StartWalk(g: Image)
      requires Shape(g, -1) && g.head != -1
      ensures g.head in g.at && forall x :: x in g.owner ==> g.at[g.head].lo <= x
    {
      HeadOf(g, -1);
    }

    /** Every lost number from the start of a run on lies in it, or else in the runs after it. */
    lemma WalkOn(g: Image, p: int)
      requires Shape(g, -1) && p in g.at
      ensures 0 <= p < |g.next| && g.at[p].lo <= g.at[p].hi
      ensures g.next[p] == -1 ==> forall x :: x in g.owner && g.at[p].hi < x ==> false
      ensures g.next[p] != -1 ==>
                && g.next[p] in g.at && g.at[p].hi < g.at[g.next[p]].lo
                && (forall x :: x in g.owner && g.at[p].hi < x ==> g.at[g.next[p]].lo <= x)
                && After(g.at, g.at[g.next[p]].lo) < After(g.at, g.at[p].lo)
    {
      hide Stored, Spans;
      RunAt(g, -1, p);
      NextOf(g, -1, p);
      assert Follows(g.at, p, g.next[p]);
      if g.next[p] != -1 {
        assert p in After(g.at, g.at[p].lo) && p !in After(g.at, g.at[g.next[p]].lo);
      }
    }

    /** The three tests of Find together say whether the run in slot p meets a..b. */
    lemma FindFacts(g: Image, p: int, a: int, b: int)
      requires Shape(g, -1) && p in g.at && a <= b && g.size <= MAX_SIZE
      requires forall x :: x in g.owner ==> Near(x, a) && Near(x, b)
      ensures 0 <= p < g.size == |g.d1| == |g.d2| == |g.next| && 0 <= g.d1[p] <= MAX && (g.d2[p] == -1 || 0 <= g.d2[p] <= MAX)
      ensures g.at[p].lo <= g.at[p].hi
      ensures Cmp(g.d1[p], ToWire(a)) == 0 <==> g.at[p].lo == a
      ensures Cmp(g.d1[p], ToWire(a)) > 0 <==> g.at[p].lo > a
      ensures Cmp(g.d1[p], ToWire(a)) < 0 <==> g.at[p].lo < a
      ensures Cmp(g.d1[p], ToWire(b)) <= 0 <==> g.at[p].lo <= b
      ensures g.d2[p] == -1 ==> g.at[p].lo == g.at[p].hi
      ensures g.d2[p] != -1 ==> (Cmp(g.d2[p], ToWire(a)) >= 0 <==> g.at[p].hi >= a)
      ensures forall x :: g.at[p].lo <= x <= g.at[p].hi ==> x in g.owner
    {
      hide Shape, ToWire, Cmp, Near;
      RunAt(g, -1, p);
      RunBounds(g);
      WidthOf(g, p);
      LengthenFacts(g, p);
      assert g.at[p].lo in g.owner && g.at[p].hi in g.owner;
      WindowAgreement(g.at[p].lo, a);
      WindowAgreement(g.at[p].lo, b);
      WindowAgreement(g.at[p].hi, a);
    }

    /** The least lost number, or -1 if nothing is lost. */
    method GetFirstLostSeq() returns (seqno: int, ghost x: int)
      requires Valid()
      ensures Lost() == {} ==> seqno == -1
      ensures Lost() != {} ==> x in Lost() && seqno == ToWire(x) && forall y :: y in Lost() ==> x <= y
    {
      hide Shape, Backed, ToWire;
      HeadOf(g, -1);
      if 0 == length {
        return -1, 0;
      }
      RunAt(g, -1, head);
      RunBounds(g);
      x := g.at[head].lo;
      seqno := data1[head];
      assert forall y :: y in Lost() ==> y in g.owner;
    }

    ghost predicate Listed(runs: seq<Run>, x: int) {
      exists i :: 0 <= i < |runs| && runs[i].lo <= x <= runs[i].hi
    }

    /** Write the report of as many runs as fit: the nodes from the first on, until fewer than two words are left.
        (The ghost result is the list of runs reported.) */
    method GetLossArray(words: array<int>, limit: int) returns (len: int, ghost runs: seq<Run>)
      requires Valid() && limit <= words.Length
      requires words != data1 && words != data2 && words != next && words != prior
      modifies words
      ensures 0 <= len && (len == 0 || len <= limit)
      ensures words[..len] == LossReport.Encode(runs) && words[len..] == old(words[len..])
      ensures LossReport.WellFormed(runs)
      ensures forall i :: 0 <= i < |runs| ==> exists s :: s in g.at && g.at[s] == runs[i]
      ensures forall i :: 0 < i < |runs| ==> runs[i - 1].hi < runs[i].lo
      ensures forall x :: Listed(runs, x) <==> x in Lost() && runs != [] && x <= runs[|runs| - 1].hi
      ensures len < limit - 1 ==> forall x :: x in Lost() ==> Listed(runs, x)
    {
      hide Shape, Backed, ToWire, Listed, Picked;
      len := 0;
      runs := [];
      HeadOf(g, -1);
      var i := head;
      NoneListed(g);
      while len < limit - 1 && -1 != i
        invariant 0 <= len && (len == 0 || len <= limit)
        invariant i != -1 ==> i in g.at
        invariant words[..len] == LossReport.Encode(runs) && words[len..] == old(words[len..])
        invariant Picked(g, runs) && Reported(g, runs, i)
        decreases if i == -1 then {} else After(g.at, g.at[i].lo)
      {
        ReportFacts(g, i, runs);
        ghost var was, start := words[..], len;
        len := WriteRun(words, len, i, g.at[i]);
        RestSame(was, old(words[..]), start, len);
        runs := runs + [g.at[i]];
        i := next[i];
      }
      ReportEnd(g, runs, i);
    }

    static lemma RestSame(a: seq<int>, b: seq<int>, start: nat, end: nat)
      requires start <= end <= |a| == |b| && a[start..] == b[start..]
      ensures a[end..] == b[end..]
    {
      assert forall k :: end <= k < |a| ==> a[k] == a[start..][k - start] && b[k] == b[start..][k - start];
    }

    method WriteRun(words: array<int>, len: int, i: int, ghost run: Run) returns (len2: int)
      requires Arrays() && words != data1 && words != data2 && 0 <= len < words.Length - 1 && 0 <= i < size
      requires data1[i] == ToWire(run.lo) && data2[i] == EndWord(run)
      modifies words
      ensures len2 == len + |LossReport.Words(run)| <= len + 2
      ensures words[..len2] == old(words[..len]) + LossReport.Words(run) && words[len2..] == old(words[..])[len2..]
    {
      hide ToWire;
      words[len] := data1[i];
      len2 := len;
      if -1 != data2[i] {
        words[len2] := words[len2] + LossReport.FLAG;
        len2 := len2 + 1;
        words[len2] := data2[i];
      }
      len2 := len2 + 1;
    }

    /** runs are nodes of the list, in order. */
    ghost predicate Picked(g: Image, runs: seq<Run>) {
      && LossReport.WellFormed(runs)
      && (forall i :: 0 <= i < |runs| ==> exists s :: s in g.at && g.at[s] == runs[i])
      && forall i :: 0 < i < |runs| ==> runs[i - 1].hi < runs[i].lo
    }

    /** runs are the runs of the list up to the one in slot i, where the walk stands (-1 at its end). */
    ghost predicate Reported(g: Image, runs: seq<Run>, i: int) {
      && (forall x :: Listed(runs, x) <==> x in g.owner && (i == -1 || (i in g.at && x < g.at[i].lo)))
      && (runs != [] ==>
            && runs[|runs| - 1].hi in g.owner
            && (forall x :: x in g.owner && (i == -1 || (i in g.at && x < g.at[i].lo)) ==> x <= runs[|runs| - 1].hi)
            && (i in g.at ==> runs[|runs| - 1].hi < g.at[i].lo))
    }

    lemma NoneListed(g: Image)
      requires Shape(g, -1)
      ensures Reported(g, [], g.head) && Picked(g, [])
    {
      HeadOf(g, -1);
      if g.head == -1 {
        hide Stored, Ordered, Linked;
        assert forall x :: x !in g.owner;
      }
    }

    lemma ListedMore(runs: seq<Run>, run: Run)
      ensures forall x :: Listed(runs + [run], x) <==> Listed(runs, x) || run.lo <= x <= run.hi
    {
      forall x ensures Listed(runs + [run], x) <==> Listed(runs, x) || run.lo <= x <= run.hi {
        var more := runs + [run];
        if Listed(runs, x) {
          var i :| 0 <= i < |runs| && runs[i].lo <= x <= runs[i].hi;
          assert more[i] == runs[i];
        }
        assert more[|runs|] == run;
      }
    }

    lemma PickMore(g: Image, runs: seq<Run>, i: int)
      requires Shape(g, -1) && i in g.at && Reported(g, runs, i) && Picked(g, runs)
      ensures LossReport.WellFormed(runs) && Picked(g, runs + [g.at[i]])
    {
      hide Shape;
      RunAt(g, -1, i);
      var more := runs + [g.at[i]];
      forall k | 0 <= k < |more| ensures exists s :: s in g.at && g.at[s] == more[k] {
        if k < |runs| {
          assert more[k] == runs[k];
        }
      }
    }

    lemma ReportFacts(g: Image, i: int, runs: seq<Run>)
      requires Shape(g, -1) && i in g.at && Reported(g, runs, i) && Picked(g, runs)
      ensures 0 <= i < g.size == |g.d1| == |g.d2| == |g.next|
      ensures g.d1[i] == ToWire(g.at[i].lo) && g.d2[i] == EndWord(g.at[i])
      ensures g.next[i] != -1 ==> g.next[i] in g.at && After(g.at, g.at[g.next[i]].lo) < After(g.at, g.at[i].lo)
      ensures Reported(g, runs + [g.at[i]], g.next[i]) && Picked(g, runs + [g.at[i]])
      ensures LossReport.Encode(runs + [g.at[i]]) == LossReport.Encode(runs) + LossReport.Words(g.at[i])
      ensures After(g.at, g.at[i].lo) != {}
    {
      hide Shape, Listed, ToWire, EndWord, Picked, LossReport.WellFormed;
      PickMore(g, runs, i);
      RunAt(g, -1, i);
      NextOf(g, -1, i);
      WalkOn(g, i);
      LengthenFacts(g, i);
      ListedMore(runs, g.at[i]);
      assert (runs + [g.at[i]])[..|runs|] == runs;
      assert i in After(g.at, g.at[i].lo);
    }

    lemma ReportEnd(g: Image, runs: seq<Run>, i: int)
      requires Reported(g, runs, i) && (i == -1 || i in g.at) && Picked(g, runs)
      ensures LossReport.WellFormed(runs) && forall i :: 0 < i < |runs| ==> runs[i - 1].hi < runs[i].lo
      ensures forall i :: 0 <= i < |runs| ==> exists s :: s in g.at && g.at[s] == runs[i]
      ensures forall x :: Listed(runs, x) <==> x in g.owner.Keys && runs != [] && x <= runs[|runs| - 1].hi
      ensures i == -1 ==> forall x :: x in g.owner.Keys ==> Listed(runs, x)
    {
    }
  }
}
