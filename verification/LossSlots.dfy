/** What the two loss lists have in common: runs of lost numbers kept in fixed arrays, the slot of a run being
    forced by its first number modulo the array size. */
module LossSlots {
  import opened SeqNo

  /** The largest array: with it the sum of two slots and an offset inside the window fits a 32-bit int. */
  const MAX_SIZE: int := 0x2000_0000

  /** A run of consecutive lost numbers (logical, both ends included). */
  datatype Run = Run(lo: int, hi: int)

  /** A snapshot of the arrays of a list together with what they mean: base is the logical number whose slot is 0,
      at the run in each used slot, owner the slot of each lost number, head the slot of the first run. */
  datatype Image = Image(d1: seq<int>, d2: seq<int>, next: seq<int>, size: int, base: int,
                         at: map<int, Run>, owner: map<int, int>, head: int)

  /** The numbers lo..hi. */
  ghost function Range(lo: int, hi: int): (r: set<int>)
    ensures forall x :: x in r <==> lo <= x <= hi
    ensures lo <= hi + 1 ==> |r| == hi - lo + 1
    decreases hi - lo
  {
    if lo > hi then {} else Range(lo, hi - 1) + {hi}
  }

  function Slot(x: int, base: int, size: int): (s: int)
    requires size > 0
    ensures 0 <= s < size
  {
    (x - base) % size
  }

  lemma MultipleIsBig(k: int, m: int)
    requires m > 0 && k != 0
    ensures k * m >= m || k * m <= -m
  {
    if k > 0 {
      assert (k - 1) * m >= 0;
    } else {
      assert (-k - 1) * m >= 0;
    }
  }

  lemma DivMod(a: int, q: int, r: int, m: int)
    requires m > 0 && 0 <= r < m && a == q * m + r
    ensures a % m == r
  {
    var q', r' := a / m, a % m;
    assert (q - q') * m == r' - r by {
      assert a == q' * m + r';
      assert (q - q') * m == q * m - q' * m;
    }
    if q != q' {
      MultipleIsBig(q - q', m);
    }
  }

  /** Walking k slots on from the slot of x is the slot of x + k (k may be negative, as seqoff is). */
  lemma SlotShift(x: int, k: int, base: int, size: int)
    requires size > 0
    ensures (Slot(x, base, size) + k) % size == Slot(x + k, base, size)
    ensures (Slot(x, base, size) + k + size) % size == Slot(x + k, base, size)
  {
    var a := x - base;
    var q, r := a / size, a % size;
    var q2, r2 := (r + k) / size, (r + k) % size;
    assert a == q * size + r;
    assert r + k == q2 * size + r2;
    assert a + k == (q + q2) * size + r2 by { assert (q + q2) * size == q * size + q2 * size; }
    DivMod(a + k, q + q2, r2, size);
    assert r + k + size == (q2 + 1) * size + r2 by { assert (q2 + 1) * size == q2 * size + size; }
    DivMod(r + k + size, q2 + 1, r2, size);
  }

  /** Two numbers less than a whole array apart share a slot only if they are equal. */
  lemma SlotInjective(x: int, y: int, base: int, size: int)
    requires size > 0 && -size < x - y < size
    requires Slot(x, base, size) == Slot(y, base, size)
    ensures x == y
  {
    var qa, qb := (x - base) / size, (y - base) / size;
    assert (qa - qb) * size == x - y by {
      assert x - base == qa * size + (x - base) % size;
      assert y - base == qb * size + (y - base) % size;
      assert (qa - qb) * size == qa * size - qb * size;
    }
    if qa != qb {
      MultipleIsBig(qa - qb, size);
    }
  }

  /** data2 of a run: its last number, or -1 if it has only one. */
  function EndWord(run: Run): int {
    if run.lo < run.hi then ToWire(run.hi) else -1
  }

  /** Every array entry says what run is stored there; -1 in data1 means none. */
  ghost predicate Stored(d1: seq<int>, d2: seq<int>, size: int, base: int, at: map<int, Run>) {
    && 0 < size == |d1| == |d2|
    && (forall s :: 0 <= s < size ==>
          && d1[s] == (if s in at then ToWire(at[s].lo) else -1)
          && d2[s] == (if s in at then EndWord(at[s]) else -1))
    && (forall s :: s in at ==> 0 <= s < size && at[s].lo <= at[s].hi && s == Slot(at[s].lo, base, size))
  }

  /** owner maps every lost number to the slot of the one run that holds it; the run in slot hole is not counted
      (no slot is negative, so hole -1 counts every run). */
  ghost predicate Covers(at: map<int, Run>, owner: map<int, int>, hole: int) {
    && (forall s :: s in at ==> s >= 0)
    && (forall s, x :: s in at && s != hole && at[s].lo <= x <= at[s].hi ==> x in owner && owner[x] == s)
    && (forall x :: x in owner ==> owner[x] in at && owner[x] != hole && at[owner[x]].lo <= x <= at[owner[x]].hi)
  }

  /** Every run ends before the next begins, except that the run in slot hole may overlap later ones. */
  ghost predicate Disjoint(at: map<int, Run>, hole: int) {
    forall s, t :: s in at && t in at && s != hole && at[s].lo < at[t].lo ==> at[s].hi < at[t].lo
  }

  /** t is the slot of the run that follows the one in slot s, or -1 if that is the last one. */
  ghost predicate Follows(at: map<int, Run>, s: int, t: int)
    requires s in at
  {
    if t == -1 then forall u :: u in at ==> at[u].lo <= at[s].lo
    else
      && t in at && at[s].lo < at[t].lo
      && forall u :: u in at ==> at[u].lo <= at[s].lo || at[t].lo <= at[u].lo
  }

  ghost predicate Linked(next: seq<int>, at: map<int, Run>) {
    && (forall s :: s in at ==> 0 <= s < |next|)
    && (forall s, t :: s in at && t in at && at[s].lo == at[t].lo ==> s == t)
    && (forall s {:trigger next[s]} :: s in at ==> Follows(at, s, next[s]))
  }

  /** h is the slot of the first run, or -1 if there is none. */
  ghost predicate First(at: map<int, Run>, h: int) {
    if h == -1 then at == map[]
    else h in at && forall u :: u in at ==> at[h].lo <= at[u].lo
  }

  /** All runs fit in one trip round the array. */
  ghost predicate Spans(at: map<int, Run>, size: int) {
    forall s, t :: s in at && t in at ==> at[s].hi - at[t].lo < size
  }

  ghost predicate Ordered(at: map<int, Run>, h: int, hole: int, size: int) {
    Disjoint(at, hole) && First(at, h) && Spans(at, size)
  }

  /** A well-formed list: the runs of at, chained from slot head, holding the numbers of owner and those of the run
      in slot hole. */
  ghost predicate Shape(g: Image, hole: int) {
    && Stored(g.d1, g.d2, g.size, g.base, g.at) && |g.next| == g.size
    && Covers(g.at, g.owner, hole) && Ordered(g.at, g.head, hole, g.size) && Linked(g.next, g.at)
  }

  /** Give the numbers lo..hi, none of which has an owner, to slot s. */
  lemma Give(owner: map<int, int>, lo: int, hi: int, s: int) returns (r: map<int, int>)
    requires lo <= hi && forall x :: lo <= x <= hi ==> x !in owner
    ensures forall x :: x in r <==> x in owner || lo <= x <= hi
    ensures forall x :: x in r ==> r[x] == if lo <= x <= hi then s else owner[x]
    ensures |r| == |owner| + hi - lo + 1
  {
    r := map x | x in owner.Keys + Range(lo, hi) :: if lo <= x <= hi then s else owner[x];
    assert r.Keys == owner.Keys + Range(lo, hi);
    assert |r.Keys| == |owner.Keys| + |Range(lo, hi)|;
  }

  /** Take the numbers lo..hi, all of which have an owner, away again. */
  lemma Take(owner: map<int, int>, lo: int, hi: int) returns (r: map<int, int>)
    requires lo <= hi && forall x :: lo <= x <= hi ==> x in owner
    ensures forall x :: x in r <==> x in owner && !(lo <= x <= hi)
    ensures forall x :: x in r ==> r[x] == owner[x]
    ensures |r| == |owner| - (hi - lo + 1)
  {
    r := owner - Range(lo, hi);
    assert r.Keys == owner.Keys - Range(lo, hi);
    assert |r.Keys| == |owner.Keys| - |Range(lo, hi)|;
  }

  /** Hand the numbers lo..hi, all of which have an owner, over to slot s. */
  lemma Hand(owner: map<int, int>, lo: int, hi: int, s: int) returns (r: map<int, int>)
    requires lo <= hi && forall x :: lo <= x <= hi ==> x in owner
    ensures forall x :: x in r <==> x in owner
    ensures forall x :: x in r ==> r[x] == if lo <= x <= hi then s else owner[x]
    ensures |r| == |owner|
  {
    r := map x | x in owner.Keys :: if lo <= x <= hi then s else owner[x];
    assert r.Keys == owner.Keys;
    assert |r.Keys| == |owner.Keys|;
  }

  /** at2 is at with the run in slot s, if any, gone. */
  ghost predicate Without(at: map<int, Run>, at2: map<int, Run>, s: int) {
    && (forall t :: t in at2 <==> t in at && t != s)
    && (forall t :: t in at2 ==> at2[t] == at[t])
  }

  /** at2 is at with run in slot s. */
  ghost predicate With(at: map<int, Run>, at2: map<int, Run>, s: int, run: Run) {
    && s in at2 && at2[s] == run
    && (forall t :: t in at2 <==> t in at || t == s)
    && (forall t :: t in at2 && t != s ==> at2[t] == at[t])
  }

  lemma Remove(at: map<int, Run>, s: int) returns (at2: map<int, Run>)
    ensures Without(at, at2, s)
  {
    at2 := map t | t in at.Keys - {s} :: at[t];
  }

  lemma Put(at: map<int, Run>, s: int, run: Run) returns (at2: map<int, Run>)
    ensures With(at, at2, s, run)
  {
    at2 := at[s := run];
  }

  lemma StoredWithout(d1: seq<int>, d2: seq<int>, size: int, base: int, at: map<int, Run>, at2: map<int, Run>, s: int)
    requires Stored(d1, d2, size, base, at) && s in at && Without(at, at2, s)
    ensures 0 <= s < size && Stored(d1[s := -1], d2[s := -1], size, base, at2)
  {
    hide Slot, EndWord, ToWire;
  }

  lemma StoredWith(d1: seq<int>, d2: seq<int>, size: int, base: int, at: map<int, Run>, at2: map<int, Run>,
                   s: int, run: Run)
    requires Stored(d1, d2, size, base, at) && With(at, at2, s, run)
    requires run.lo <= run.hi && s == Slot(run.lo, base, size)
    ensures 0 <= s < size && Stored(d1[s := ToWire(run.lo)], d2[s := EndWord(run)], size, base, at2)
  {
    hide Slot, EndWord, ToWire;
  }

  /** A run a..b fits in the array together with the runs of at. */
  ghost predicate Roomy(at: map<int, Run>, a: int, b: int, size: int) {
    && a <= b < a + size
    && forall s :: s in at ==> 0 <= s && at[s].lo <= at[s].hi && at[s].hi - a < size && b - at[s].lo < size
  }

  ghost predicate NoStart(at: map<int, Run>, a: int) {
    forall s :: s in at ==> at[s].lo != a
  }

  /** What the arrays hold for the run in slot s. */
  lemma RunAt(g: Image, hole: int, s: int)
    requires Shape(g, hole) && s in g.at
    ensures 0 <= s < g.size == |g.d1| == |g.d2| == |g.next|
    ensures g.at[s].lo <= g.at[s].hi && s == Slot(g.at[s].lo, g.base, g.size)
    ensures g.d1[s] == ToWire(g.at[s].lo) && g.d2[s] == EndWord(g.at[s])
  {
    hide Slot, EndWord, ToWire;
  }

  lemma OwnedBy(at: map<int, Run>, owner: map<int, int>, hole: int, s: int)
    requires Covers(at, owner, hole) && s in at && s != hole
    ensures forall x :: at[s].lo <= x <= at[s].hi ==> x in owner && owner[x] == s
  {
  }

  /** A number at which no run begins, and from which a run fits in the array, has a free slot. */
  lemma FreeSlot(g: Image, hole: int, a: int, b: int)
    requires Shape(g, hole) && Roomy(g.at, a, b, g.size) && NoStart(g.at, a)
    ensures Slot(a, g.base, g.size) !in g.at
    ensures g.d1[Slot(a, g.base, g.size)] == -1 && g.d2[Slot(a, g.base, g.size)] == -1
  {
    var s := Slot(a, g.base, g.size);
    if s in g.at {
      RunAt(g, hole, s);
      SlotInjective(a, g.at[s].lo, g.base, g.size);
    }
  }
}
