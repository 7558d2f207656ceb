/** How each step of the loss lists changes a well-formed list: one lemma a step, each giving the arrays after it
    and showing that the list is well-formed again. */
module LossRuns {
  import opened SeqNo
  import opened LossSlots

  // ---------- Reading ----------

  lemma NextOf(g: Image, hole: int, s: int)
    requires Shape(g, hole) && s in g.at
    ensures 0 <= s < g.size == |g.next| && -1 !in g.at
    ensures g.next[s] != -1 ==> g.next[s] in g.at && g.at[s].lo < g.at[g.next[s]].lo
  {
    hide Covers, Ordered, Slot, ToWire, EndWord;
    assert Follows(g.at, s, g.next[s]);
  }

  lemma HeadOf(g: Image, hole: int)
    requires Shape(g, hole)
    ensures g.at == map[] <==> g.head == -1
    ensures g.head != -1 ==> g.head in g.at && forall s :: s in g.at ==> g.at[g.head].lo <= g.at[s].lo
    ensures hole == -1 && |g.owner| == 0 ==> g.at == map[]
    ensures hole == -1 && |g.owner| != 0 ==> g.at != map[]
    ensures hole == -1 && g.head != -1 ==> forall x :: x in g.owner ==> g.at[g.head].lo <= x
  {
    hide Linked, Slot, ToWire, EndWord;
    if g.at != map[] && hole == -1 {
      var s :| s in g.at;
      assert g.at[s].lo in g.owner;
    }
    if g.at == map[] {
      assert forall x :: x !in g.owner;
      assert g.owner == map[];
    }
  }

  /** Whether a run begins at a can be read off slot Slot(a). */
  lemma StartAt(g: Image, a: int)
    requires Shape(g, -1) && forall x :: x in g.owner ==> Near(x, a)
    ensures var loc := Slot(a, g.base, g.size);
            && 0 <= loc < |g.d1|
            && (g.d1[loc] == ToWire(a) ==> loc in g.at && g.at[loc].lo == a)
            && (g.d1[loc] != ToWire(a) ==> NoStart(g.at, a))
  {
    hide Covers, Ordered, Linked, Slot, ToWire, Near;
    var loc := Slot(a, g.base, g.size);
    RunBounds(g);
    if loc in g.at {
      RunAt(g, -1, loc);
      WindowAgreement(g.at[loc].lo, a);
    }
    forall s | s in g.at && g.at[s].lo == a ensures s == loc {
      RunAt(g, -1, s);
    }
  }

  // ---------- Inserting ----------

  /** The first run of an empty list goes to slot 0, which fixes the base. */
  lemma Begin(g: Image, next2: seq<int>, a: int, b: int) returns (g2: Image)
    requires Shape(g, -1) && g.at == map[] && a <= b < a + g.size
    requires next2 == g.next[0 := -1]
    ensures g2 == g.(d1 := g.d1[0 := ToWire(a)], d2 := g.d2[0 := EndWord(Run(a, b))], next := next2,
                     base := a, at := g2.at, owner := g2.owner, head := 0)
    ensures With(g.at, g2.at, 0, Run(a, b))
    ensures Shape(g2, -1) && |g2.owner| == b - a + 1
    ensures forall x :: x in g2.owner <==> a <= x <= b
  {
    hide ToWire, EndWord, Covers, Ordered, Linked, Stored, With;
    NoOwners(g);
    var owner2 := Give(g.owner, a, b, 0);
    var at2 := Put(g.at, 0, Run(a, b));
    StoredFirst(g, at2, a, b);
    OneRun(g.at, at2, owner2, a, b);
    OneOrdered(g.at, at2, next2, a, b, g.size);
    g2 := g.(d1 := g.d1[0 := ToWire(a)], d2 := g.d2[0 := EndWord(Run(a, b))], next := next2,
             base := a, at := at2, owner := owner2, head := 0);
  }

  lemma NoOwners(g: Image)
    requires Shape(g, -1) && g.at == map[]
    ensures |g.owner| == 0 && forall x :: x !in g.owner
  {
    hide Stored, Ordered, Linked;
    assert forall x :: x !in g.owner;
  }

  lemma StoredFirst(g: Image, at: map<int, Run>, a: int, b: int)
    requires Shape(g, -1) && g.at == map[] && With(g.at, at, 0, Run(a, b)) && a <= b
    ensures |g.d1| == |g.d2| == g.size > 0
    ensures Stored(g.d1[0 := ToWire(a)], g.d2[0 := EndWord(Run(a, b))], g.size, a, at)
  {
    hide ToWire, EndWord, Covers, Ordered, Linked;
    DivMod(a - a, 0, 0, g.size);
  }

  lemma OneRun(at: map<int, Run>, at2: map<int, Run>, owner: map<int, int>, a: int, b: int)
    requires at == map[] && With(at, at2, 0, Run(a, b)) && a <= b
    requires forall x :: x in owner <==> a <= x <= b
    requires forall x :: x in owner ==> owner[x] == 0
    ensures Covers(at2, owner, -1)
  {
  }

  lemma OneOrdered(at: map<int, Run>, at2: map<int, Run>, next: seq<int>, a: int, b: int, size: int)
    requires at == map[] && With(at, at2, 0, Run(a, b)) && a <= b < a + size && |next| > 0 && next[0] == -1
    ensures Ordered(at2, 0, -1, size) && Linked(next, at2)
  {
  }

  /** Lengthen the run in slot s; its numbers lose their owner until Seal. */
  lemma Widen(g: Image, s: int, b: int) returns (g2: Image)
    requires Shape(g, -1) && s in g.at && g.at[s].hi < b && forall x :: x in g.owner ==> b - x < g.size
    ensures 0 <= s < g.size && With(g.at, g2.at, s, Run(g.at[s].lo, b))
    ensures g2 == g.(d2 := g.d2[s := ToWire(b)], at := g2.at, owner := g2.owner) && Shape(g2, s)
    ensures |g2.owner| == |g.owner| - (g.at[s].hi - g.at[s].lo + 1)
    ensures forall x :: x in g2.owner <==> x in g.owner && !(g.at[s].lo <= x <= g.at[s].hi)
  {
    hide Stored, Covers, Ordered, Linked, Slot, ToWire;
    var run := Run(g.at[s].lo, b);
    RunAt(g, -1, s);
    RunBounds(g);
    OwnedBy(g.at, g.owner, -1, s);
    var owner2 := Take(g.owner, g.at[s].lo, g.at[s].hi);
    var at2 := Put(g.at, s, run);
    StoredWith(g.d1, g.d2, g.size, g.base, g.at, at2, s, run);
    WithCovers(g.at, g.owner, at2, owner2, s, run);
    WidenOrder(g.at, at2, s, run, g.head, g.size);
    RelinkSame(g.next, g.at, at2, s, run);
    assert g.d1[s := ToWire(run.lo)] == g.d1;
    g2 := g.(d2 := g.d2[s := ToWire(b)], at := at2, owner := owner2);
  }

  lemma RunBounds(g: Image)
    requires Shape(g, -1)
    ensures forall s :: s in g.at ==> 0 <= s < g.size && g.at[s].lo <= g.at[s].hi
    ensures forall s :: s in g.at ==> g.at[s].lo in g.owner && g.at[s].hi in g.owner
  {
    hide Slot, EndWord, ToWire, Covers, Ordered, Linked;
    forall s | s in g.at ensures g.at[s].lo in g.owner && g.at[s].hi in g.owner {
      OwnedBy(g.at, g.owner, -1, s);
    }
  }

  lemma WithCovers(at: map<int, Run>, owner: map<int, int>, at2: map<int, Run>, owner2: map<int, int>, s: int, run: Run)
    requires Covers(at, owner, -1) && s in at && With(at, at2, s, run)
    requires forall x :: x in owner2 <==> x in owner && !(at[s].lo <= x <= at[s].hi)
    requires forall x :: x in owner2 ==> owner2[x] == owner[x]
    ensures Covers(at2, owner2, s)
  {
    OwnedBy(at, owner, -1, s);
    forall t, x | t in at2 && t != s && at2[t].lo <= x <= at2[t].hi ensures x in owner2 && owner2[x] == t {
      OwnedBy(at, owner, -1, t);
      assert x in owner;
    }
    WithOwners(at, owner, at2, owner2, s, run);
  }

  lemma WithOwners(at: map<int, Run>, owner: map<int, int>, at2: map<int, Run>, owner2: map<int, int>, s: int, run: Run)
    requires Covers(at, owner, -1) && s in at && With(at, at2, s, run)
    requires forall x :: x in owner2 <==> x in owner && !(at[s].lo <= x <= at[s].hi)
    requires forall x :: x in owner2 ==> owner2[x] == owner[x]
    ensures forall x :: x in owner2 ==> owner2[x] in at2 && owner2[x] != s && at2[owner2[x]].lo <= x <= at2[owner2[x]].hi
  {
    forall x | x in owner2 ensures owner2[x] in at2 && owner2[x] != s && at2[owner2[x]].lo <= x <= at2[owner2[x]].hi {
      assert owner[x] in at;
    }
  }

  lemma FreshCovers(at: map<int, Run>, owner: map<int, int>, at2: map<int, Run>, s: int, run: Run)
    requires Covers(at, owner, -1) && s !in at && s >= 0 && With(at, at2, s, run)
    ensures Covers(at2, owner, s)
  {
    forall t, x | t in at2 && t != s && at2[t].lo <= x <= at2[t].hi ensures x in owner && owner[x] == t {
      OwnedBy(at, owner, -1, t);
    }
  }

  lemma WidenOrder(at: map<int, Run>, at2: map<int, Run>, s: int, run: Run, h: int, size: int)
    requires Ordered(at, h, -1, size) && s in at && s >= 0 && With(at, at2, s, run)
    requires run.lo == at[s].lo && forall t :: t in at ==> at[t].lo <= at[t].hi && run.hi - at[t].lo < size && t >= 0
    ensures Ordered(at2, h, s, size)
  {
    WidenSpans(at, at2, s, run, size);
    WidenFirst(at, at2, s, run, h);
    hide Spans, First;
  }

  lemma WidenSpans(at: map<int, Run>, at2: map<int, Run>, s: int, run: Run, size: int)
    requires Spans(at, size) && s in at && With(at, at2, s, run) && run.lo == at[s].lo
    requires forall t :: t in at ==> run.hi - at[t].lo < size
    ensures Spans(at2, size)
  {
  }

  /** The first run stays the first when another keeps its start. */
  lemma WidenFirst(at: map<int, Run>, at2: map<int, Run>, s: int, run: Run, h: int)
    requires First(at, h) && s in at && With(at, at2, s, run) && run.lo == at[s].lo
    ensures First(at2, h)
  {
  }

  lemma RelinkSame(next: seq<int>, at: map<int, Run>, at2: map<int, Run>, s: int, run: Run)
    requires Linked(next, at) && s in at && With(at, at2, s, run) && run.lo == at[s].lo
    ensures Linked(next, at2)
  {
    hide Follows;
    forall t | t in at2 ensures Follows(at2, t, next[t]) {
      FollowsSame(at, at2, s, run, t, next[t]);
    }
  }

  lemma FollowsSame(at: map<int, Run>, at2: map<int, Run>, s: int, run: Run, t: int, u: int)
    requires s in at && With(at, at2, s, run) && run.lo == at[s].lo && t in at && Follows(at, t, u)
    ensures Follows(at2, t, u)
  {
  }

  /** Link a new run a..b in before the first one. */
  lemma LinkFirst(g: Image, a: int, b: int) returns (g2: Image)
    requires Shape(g, -1) && g.head in g.at && a < g.at[g.head].lo && Roomy(g.at, a, b, g.size)
    ensures var loc := Slot(a, g.base, g.size);
            && 0 <= loc < g.size == |g.d1| && loc !in g.at && With(g.at, g2.at, loc, Run(a, b))
            && g2 == g.(d1 := g.d1[loc := ToWire(a)], d2 := g.d2[loc := EndWord(Run(a, b))],
                        next := g.next[loc := g.head], at := g2.at, head := loc)
            && g.d2[loc] == -1 && Shape(g2, loc)
  {
    hide Stored, Covers, Ordered, Linked, With, Roomy, NoStart, Slot, ToWire, EndWord;
    RunAt(g, -1, g.head);
    var loc, run := Slot(a, g.base, g.size), Run(a, b);
    NoStartFirst(g, a);
    FreeSlot(g, -1, a, b);
    var at2 := Put(g.at, loc, run);
    StoredRoomy(g, a, b);
    StoredWith(g.d1, g.d2, g.size, g.base, g.at, at2, loc, run);
    FreshCovers(g.at, g.owner, at2, loc, run);
    FirstOrder(g.at, at2, loc, run, g.head, g.size);
    RelinkFirst(g.next, g.at, at2, loc, run, g.head, g.size);
    g2 := g.(d1 := g.d1[loc := ToWire(a)], d2 := g.d2[loc := EndWord(Run(a, b))],
             next := g.next[loc := g.head], at := at2, head := loc);
  }

  lemma StoredRoomy(g: Image, a: int, b: int)
    requires Roomy(g.at, a, b, g.size)
    ensures a <= b < a + g.size
  {
  }

  lemma NoStartFirst(g: Image, a: int)
    requires Shape(g, -1) && g.head in g.at && a < g.at[g.head].lo
    ensures NoStart(g.at, a)
  {
    hide Stored, Covers, Linked;
  }

  lemma FirstOrder(at: map<int, Run>, at2: map<int, Run>, s: int, run: Run, h: int, size: int)
    requires Ordered(at, h, -1, size) && s !in at && s >= 0 && h in at && With(at, at2, s, run)
    requires run.lo < at[h].lo && Roomy(at, run.lo, run.hi, size)
    ensures Ordered(at2, s, s, size)
  {
  }

  lemma RelinkFirst(next: seq<int>, at: map<int, Run>, at2: map<int, Run>, s: int, run: Run, h: int, size: int)
    requires Linked(next, at) && s !in at && 0 <= s < |next| && With(at, at2, s, run)
    requires Ordered(at, h, -1, size) && h in at && run.lo < at[h].lo && Roomy(at, run.lo, run.hi, size)
    ensures Linked(next[s := h], at2)
  {
    forall t | t in at2 ensures Follows(at2, t, next[s := h][t]) {
      if t != s {
        assert Follows(at, t, next[t]);
      }
    }
  }

  /** Link a new run a..b in after the one in slot i. */
  lemma LinkAfter(g: Image, i: int, a: int, b: int) returns (g2: Image)
    requires Shape(g, -1) && i in g.at && 0 <= i < g.size && g.at[i].hi < a && Roomy(g.at, a, b, g.size)
    requires g.next[i] in g.at ==> a < g.at[g.next[i]].lo
    ensures var loc := Slot(a, g.base, g.size);
            && 0 <= loc < g.size == |g.d1| && loc !in g.at && With(g.at, g2.at, loc, Run(a, b))
            && g2 == g.(d1 := g.d1[loc := ToWire(a)], d2 := g.d2[loc := EndWord(Run(a, b))],
                        next := g.next[loc := g.next[i]][i := loc], at := g2.at)
            && g.d2[loc] == -1 && Shape(g2, loc)
  {
    hide Stored, Covers, Ordered, Linked, With, Roomy, NoStart, Between, Slot, ToWire, EndWord;
    RunAt(g, -1, i);
    var loc, run := Slot(a, g.base, g.size), Run(a, b);
    Neighbour(g, i, a);
    FreeSlot(g, -1, a, b);
    var at2 := Put(g.at, loc, run);
    StoredRoomy(g, a, b);
    StoredWith(g.d1, g.d2, g.size, g.base, g.at, at2, loc, run);
    FreshCovers(g.at, g.owner, at2, loc, run);
    AfterOrder(g.at, at2, loc, run, i, g.head, g.size);
    RelinkAfter(g.next, g.at, at2, loc, run, i);
    g2 := g.(d1 := g.d1[loc := ToWire(a)], d2 := g.d2[loc := EndWord(Run(a, b))],
             next := g.next[loc := g.next[i]][i := loc], at := at2);
  }

  /** Every run either ends before a or begins after it. */
  ghost predicate Between(at: map<int, Run>, i: int, a: int)
    requires i in at
  {
    && at[i].lo <= at[i].hi < a
    && forall t :: t in at ==> (at[t].lo <= at[i].lo && at[t].hi <= at[i].hi) || a < at[t].lo
  }

  lemma Neighbour(g: Image, i: int, a: int)
    requires Shape(g, -1) && i in g.at && 0 <= i < g.size && g.at[i].hi < a
    requires g.next[i] in g.at ==> a < g.at[g.next[i]].lo
    ensures Between(g.at, i, a) && NoStart(g.at, a)
  {
    hide Covers, Slot, ToWire, EndWord;
    assert Follows(g.at, i, g.next[i]);
  }

  lemma AfterOrder(at: map<int, Run>, at2: map<int, Run>, s: int, run: Run, i: int, h: int, size: int)
    requires Ordered(at, h, -1, size) && s !in at && s >= 0 && i in at && With(at, at2, s, run)
    requires Between(at, i, run.lo) && Roomy(at, run.lo, run.hi, size)
    ensures Ordered(at2, h, s, size)
  {
  }

  lemma RelinkAfter(next: seq<int>, at: map<int, Run>, at2: map<int, Run>, s: int, run: Run, i: int)
    requires Linked(next, at) && s !in at && 0 <= s < |next| && With(at, at2, s, run)
    requires i in at && 0 <= i < |next| && at[i].lo < run.lo && (next[i] in at ==> run.lo < at[next[i]].lo)
    ensures Linked(next[s := next[i]][i := s], at2)
  {
    var next2 := next[s := next[i]][i := s];
    assert Follows(at, i, next[i]);
    forall t | t in at2 ensures Follows(at2, t, next2[t]) {
      if t != s {
        assert Follows(at, t, next[t]);
      }
    }
  }

  /** The run in slot loc no longer overlaps the next one: its numbers get their owner. */
  lemma Seal(g: Image, loc: int) returns (g2: Image)
    requires Shape(g, loc) && loc in g.at && 0 <= loc < g.size
    requires g.next[loc] in g.at ==> g.at[loc].hi < g.at[g.next[loc]].lo
    ensures g2 == g.(owner := g2.owner) && Shape(g2, -1)
    ensures |g2.owner| == |g.owner| + g.at[loc].hi - g.at[loc].lo + 1
    ensures forall x :: x in g2.owner <==> x in g.owner || g.at[loc].lo <= x <= g.at[loc].hi
  {
    hide Slot, ToWire, EndWord, Stored;
    RunAt(g, loc, loc);
    assert Follows(g.at, loc, g.next[loc]);
    SealApart(g.at, g.owner, loc);
    var owner2 := Give(g.owner, g.at[loc].lo, g.at[loc].hi, loc);
    SealCovers(g.at, g.owner, owner2, loc);
    g2 := g.(owner := owner2);
  }

  lemma SealApart(at: map<int, Run>, owner: map<int, int>, loc: int)
    requires Covers(at, owner, loc) && loc in at
    requires forall t :: t in at && t != loc ==> at[t].hi < at[loc].lo || at[loc].hi < at[t].lo
    ensures forall x :: at[loc].lo <= x <= at[loc].hi ==> x !in owner
  {
  }

  lemma SealCovers(at: map<int, Run>, owner: map<int, int>, owner2: map<int, int>, loc: int)
    requires Covers(at, owner, loc) && loc in at
    requires forall x :: at[loc].lo <= x <= at[loc].hi ==> x !in owner
    requires forall x :: x in owner2 <==> x in owner || at[loc].lo <= x <= at[loc].hi
    requires forall x :: x in owner2 ==> owner2[x] == if at[loc].lo <= x <= at[loc].hi then loc else owner[x]
    ensures Covers(at, owner2, -1)
  {
    forall s, x | s in at && at[s].lo <= x <= at[s].hi ensures x in owner2 && owner2[x] == s {
      if s != loc {
        assert x in owner && owner[x] == s;
      }
    }
    forall x | x in owner2 ensures owner2[x] in at && at[owner2[x]].lo <= x <= at[owner2[x]].hi {
    }
  }

  /** Merge the run in slot i, which follows and touches the one in slot loc, into that one. */
  lemma Absorb(g: Image, loc: int, i: int) returns (g2: Image, top: int)
    requires Shape(g, loc) && loc in g.at && 0 <= loc < g.size && g.next[loc] == i && i in g.at
    requires g.at[loc].lo < g.at[loc].hi && g.at[i].lo <= g.at[loc].hi + 1
    ensures 0 <= i < g.size == |g.d1| == |g.d2| && i != loc && g.at[loc].lo < g.at[i].lo <= g.at[i].hi
    ensures top == if g.at[loc].hi < g.at[i].hi then g.at[i].hi else g.at[loc].hi
    ensures g2 == g.(d1 := g.d1[i := -1], d2 := g.d2[loc := ToWire(top)][i := -1], next := g.next[loc := g.next[i]],
                     at := g2.at, owner := g2.owner)
    ensures Merged(g.at, g2.at, loc, i, Run(g.at[loc].lo, top)) && Shape(g2, loc)
    ensures |g2.owner| == |g.owner| - (g.at[i].hi - g.at[i].lo + 1)
    ensures forall x :: x in g2.owner || g.at[loc].lo <= x <= top <==> x in g.owner || g.at[loc].lo <= x <= g.at[loc].hi
  {
    hide Stored, Covers, Ordered, Linked, With, Without, Merged, Slot, ToWire;
    RunAt(g, loc, loc);
    RunAt(g, loc, i);
    AbsorbFollows(g, loc, i);
    top := if g.at[loc].hi < g.at[i].hi then g.at[i].hi else g.at[loc].hi;
    var run := Run(g.at[loc].lo, top);
    var at1 := Remove(g.at, i);
    var at2 := Put(at1, loc, run);
    MergedIs(g.at, at1, at2, loc, i, run);
    OwnedBy(g.at, g.owner, loc, i);
    var owner2 := Take(g.owner, g.at[i].lo, g.at[i].hi);
    StoredWithout(g.d1, g.d2, g.size, g.base, g.at, at1, i);
    StoredWith(g.d1[i := -1], g.d2[i := -1], g.size, g.base, at1, at2, loc, run);
    MergeCovers(g.at, g.owner, at2, owner2, loc, i, run);
    MergeOrder(g.at, at2, loc, i, run, g.head, g.size);
    MergeLinks(g.next, g.at, at2, loc, i, run);
    assert g.d1[i := -1][loc := ToWire(run.lo)] == g.d1[i := -1];
    assert g.d2[i := -1][loc := EndWord(run)] == g.d2[loc := ToWire(top)][i := -1];
    g2 := g.(d1 := g.d1[i := -1], d2 := g.d2[loc := ToWire(top)][i := -1], next := g.next[loc := g.next[i]],
             at := at2, owner := owner2);
  }

  lemma AbsorbFollows(g: Image, loc: int, i: int)
    requires Shape(g, loc) && loc in g.at && 0 <= loc < g.size && g.next[loc] == i && i in g.at
    ensures g.at[loc].lo < g.at[i].lo
  {
    hide Stored, Covers, Ordered;
    assert Follows(g.at, loc, i);
  }

  /** at2 is at with the runs in slots loc and i replaced by run in slot loc. */
  ghost predicate Merged(at: map<int, Run>, at2: map<int, Run>, loc: int, i: int, run: Run) {
    && loc in at2 && at2[loc] == run
    && (forall s :: s in at2 <==> (s in at && s != i) || s == loc)
    && (forall s :: s in at2 && s != loc ==> at2[s] == at[s])
  }

  lemma MergedIs(at: map<int, Run>, at1: map<int, Run>, at2: map<int, Run>, loc: int, i: int, run: Run)
    requires Without(at, at1, i) && With(at1, at2, loc, run) && i != loc
    ensures Merged(at, at2, loc, i, run)
  {
  }

  lemma MergeCovers(at: map<int, Run>, owner: map<int, int>, at2: map<int, Run>, owner2: map<int, int>,
                    loc: int, i: int, run: Run)
    requires loc in at && i in at && loc != i && Covers(at, owner, loc) && Merged(at, at2, loc, i, run)
    requires forall x :: x in owner2 <==> x in owner && !(at[i].lo <= x <= at[i].hi)
    requires forall x :: x in owner2 ==> owner2[x] == owner[x]
    ensures Covers(at2, owner2, loc)
  {
    forall s, x | s in at2 && s != loc && at2[s].lo <= x <= at2[s].hi ensures x in owner2 && owner2[x] == s {
      assert s in at && x in owner;
    }
    forall x | x in owner2
      ensures owner2[x] in at2 && owner2[x] != loc && at2[owner2[x]].lo <= x <= at2[owner2[x]].hi
    {
      assert owner[x] in at;
    }
  }

  lemma MergeOrder(at: map<int, Run>, at2: map<int, Run>, loc: int, i: int, run: Run, h: int, size: int)
    requires loc in at && i in at && loc != i && at[loc].lo < at[i].lo
    requires Ordered(at, h, loc, size) && Merged(at, at2, loc, i, run)
    requires run.lo == at[loc].lo && (run.hi == at[loc].hi || run.hi == at[i].hi)
    ensures Ordered(at2, h, loc, size)
  {
  }

  lemma MergeLinks(next: seq<int>, at: map<int, Run>, at2: map<int, Run>, loc: int, i: int, run: Run)
    requires loc in at && i in at && loc != i && Linked(next, at) && 0 <= loc < |next| && 0 <= i < |next|
    requires next[loc] == i && Merged(at, at2, loc, i, run) && run.lo == at[loc].lo
    ensures Linked(next[loc := next[i]], at2)
  {
    hide Follows;
    forall s | s in at2 ensures Follows(at2, s, next[loc := next[i]][s]) {
      MergeFollows(next, at, at2, loc, i, run, s);
    }
  }

  lemma MergeFollows(next: seq<int>, at: map<int, Run>, at2: map<int, Run>, loc: int, i: int, run: Run, s: int)
    requires loc in at && i in at && loc != i && Linked(next, at) && 0 <= loc < |next| && 0 <= i < |next|
    requires next[loc] == i && Merged(at, at2, loc, i, run) && run.lo == at[loc].lo && s in at2 && 0 <= s < |next|
    ensures Follows(at2, s, next[loc := next[i]][s])
  {
    assert Follows(at, i, next[i]) && Follows(at, loc, i) && Follows(at, s, next[s]);
  }

  // ---------- Removing ----------

  /** p is the slot of the run before the one in slot s, or -1 if that is the first one. */
  ghost predicate Precedes(g: Image, p: int, s: int) {
    if p == -1 then s == g.head else p in g.at && 0 <= p < |g.next| && g.next[p] == s
  }

  /** The chain with slot s replaced by slot t after its predecessor p. */
  ghost function Relink(next: seq<int>, p: int, t: int): seq<int>
    requires p == -1 || 0 <= p < |next|
  {
    if p == -1 then next else next[p := t]
  }

  /** Take the whole run in slot s out. */
  lemma Unlink(g: Image, p: int, s: int) returns (g2: Image)
    requires Shape(g, -1) && s in g.at && Precedes(g, p, s)
    ensures 0 <= s < g.size == |g.d1| == |g.d2| == |g.next|
    ensures g2 == g.(d1 := g.d1[s := -1], d2 := g.d2[s := -1], next := Relink(g.next, p, g.next[s]),
                     at := g2.at, owner := g2.owner, head := if p == -1 then g.next[s] else g.head)
    ensures Without(g.at, g2.at, s) && Shape(g2, -1)
    ensures g.at[s].lo <= g.at[s].hi && |g2.owner| == |g.owner| - (g.at[s].hi - g.at[s].lo + 1)
    ensures forall x :: x in g2.owner <==> x in g.owner && !(g.at[s].lo <= x <= g.at[s].hi)
  {
    hide Stored, Covers, Ordered, Linked, Without, Slot, ToWire;
    RunAt(g, -1, s);
    OwnedBy(g.at, g.owner, -1, s);
    var at2 := Remove(g.at, s);
    var owner2 := Take(g.owner, g.at[s].lo, g.at[s].hi);
    StoredWithout(g.d1, g.d2, g.size, g.base, g.at, at2, s);
    UnlinkCovers(g.at, g.owner, at2, owner2, s);
    UnlinkOrder(g, p, s, at2);
    UnlinkLinks(g, p, s, at2);
    g2 := g.(d1 := g.d1[s := -1], d2 := g.d2[s := -1], next := Relink(g.next, p, g.next[s]),
             at := at2, owner := owner2, head := if p == -1 then g.next[s] else g.head);
  }

  lemma UnlinkCovers(at: map<int, Run>, owner: map<int, int>, at2: map<int, Run>, owner2: map<int, int>, s: int)
    requires s in at && Covers(at, owner, -1) && Without(at, at2, s)
    requires forall x :: x in owner2 <==> x in owner && !(at[s].lo <= x <= at[s].hi)
    requires forall x :: x in owner2 ==> owner2[x] == owner[x]
    ensures Covers(at2, owner2, -1)
  {
    UnlinkOwners(at, owner, at2, owner2, s);
    SlotsOf(at, owner);
    hide Covers;
    forall t, x | t in at2 && at2[t].lo <= x <= at2[t].hi ensures x in owner2 && owner2[x] == t {
      OtherOwner(at, owner, s, t, x);
    }
    CoversIs(at2, owner2);
  }

  lemma OtherOwner(at: map<int, Run>, owner: map<int, int>, s: int, t: int, x: int)
    requires Covers(at, owner, -1) && s in at && t in at && t != s && at[t].lo <= x <= at[t].hi
    ensures x in owner && owner[x] == t && !(at[s].lo <= x <= at[s].hi)
  {
    OwnedBy(at, owner, -1, s);
    OwnedBy(at, owner, -1, t);
    hide Covers;
  }

  lemma UnlinkOwners(at: map<int, Run>, owner: map<int, int>, at2: map<int, Run>, owner2: map<int, int>, s: int)
    requires s in at && Covers(at, owner, -1) && Without(at, at2, s)
    requires forall x :: x in owner2 <==> x in owner && !(at[s].lo <= x <= at[s].hi)
    requires forall x :: x in owner2 ==> owner2[x] == owner[x]
    ensures forall x :: x in owner2 ==> owner2[x] in at2 && at2[owner2[x]].lo <= x <= at2[owner2[x]].hi
  {
    forall x | x in owner2 ensures owner2[x] in at2 && at2[owner2[x]].lo <= x <= at2[owner2[x]].hi {
      assert owner[x] in at;
    }
  }

  lemma UnlinkOrder(g: Image, p: int, s: int, at2: map<int, Run>)
    requires Shape(g, -1) && s in g.at && 0 <= s < |g.next| && Precedes(g, p, s) && Without(g.at, at2, s)
    ensures Ordered(at2, if p == -1 then g.next[s] else g.head, -1, g.size)
  {
    hide Stored, Covers;
    assert Follows(g.at, s, g.next[s]);
    if p == -1 && g.next[s] == -1 {
      assert forall t :: t in g.at ==> t == s;
      assert forall t :: t !in at2;
    }
    if p != -1 {
      assert Follows(g.at, p, s);
    }
  }

  lemma UnlinkLinks(g: Image, p: int, s: int, at2: map<int, Run>)
    requires Shape(g, -1) && s in g.at && 0 <= s < |g.next| && Precedes(g, p, s) && Without(g.at, at2, s)
    ensures Linked(Relink(g.next, p, g.next[s]), at2)
  {
    hide Stored, Covers, Spans;
    var next2 := Relink(g.next, p, g.next[s]);
    assert Follows(g.at, s, g.next[s]);
    forall t | t in at2 ensures Follows(at2, t, next2[t]) {
      assert Follows(g.at, t, g.next[t]);
    }
  }

  /** The first run number of a run is not the start of another, and the rest of it fits in the array. */
  lemma InnerStart(g: Image, s: int, a: int)
    requires Shape(g, -1) && s in g.at && g.at[s].lo < a <= g.at[s].hi
    ensures NoStart(g.at, a) && Roomy(g.at, a, g.at[s].hi, g.size)
  {
    hide Covers, Linked, Slot, ToWire, EndWord;
  }

  /** Take the first number of the run in slot s out: the rest of the run moves to the next slot. */
  lemma Shift(g: Image, p: int, s: int) returns (g2: Image)
    requires Shape(g, -1) && s in g.at && Precedes(g, p, s) && g.at[s].lo < g.at[s].hi
    ensures var loc, run := Slot(g.at[s].lo + 1, g.base, g.size), Run(g.at[s].lo + 1, g.at[s].hi);
            && 0 <= s < g.size == |g.d1| == |g.d2| == |g.next| && 0 <= loc < g.size && loc !in g.at && loc != p
            && g2 == g.(d1 := g.d1[s := -1][loc := ToWire(run.lo)], d2 := g.d2[s := -1][loc := EndWord(run)],
                        next := Relink(g.next[loc := g.next[s]], p, loc), at := g2.at, owner := g2.owner,
                        head := if p == -1 then loc else g.head)
            && g.d2[loc] == -1 && Merged(g.at, g2.at, loc, s, run) && Shape(g2, -1)
    ensures |g2.owner| == |g.owner| - 1 && forall x :: x in g2.owner <==> x in g.owner && x != g.at[s].lo
  {
    hide Stored, Covers, Ordered, Linked, With, Without, Merged, Slot, ToWire, EndWord, NoStart, Roomy;
    RunAt(g, -1, s);
    var lo, run := g.at[s].lo, Run(g.at[s].lo + 1, g.at[s].hi);
    var loc := Slot(lo + 1, g.base, g.size);
    InnerStart(g, s, lo + 1);
    FreeSlot(g, -1, lo + 1, g.at[s].hi);
    OwnedBy(g.at, g.owner, -1, s);
    var at1 := Remove(g.at, s);
    var at2 := Put(at1, loc, run);
    MergedIs(g.at, at1, at2, loc, s, run);
    var owner1 := Take(g.owner, lo, lo);
    var owner2 := Hand(owner1, lo + 1, run.hi, loc);
    StoredWithout(g.d1, g.d2, g.size, g.base, g.at, at1, s);
    StoredWith(g.d1[s := -1], g.d2[s := -1], g.size, g.base, at1, at2, loc, run);
    ShiftCovers(g.at, g.owner, at2, owner2, loc, s, run);
    ShiftOrder(g, p, s, loc, at2, run);
    ShiftLinks(g, p, s, loc, at2, run);
    g2 := g.(d1 := g.d1[s := -1][loc := ToWire(run.lo)], d2 := g.d2[s := -1][loc := EndWord(run)],
             next := Relink(g.next[loc := g.next[s]], p, loc), at := at2, owner := owner2,
             head := if p == -1 then loc else g.head);
  }

  lemma ShiftCovers(at: map<int, Run>, owner: map<int, int>, at2: map<int, Run>, owner2: map<int, int>,
                    loc: int, s: int, run: Run)
    requires s in at && loc !in at && loc >= 0 && Covers(at, owner, -1) && Merged(at, at2, loc, s, run)
    requires run.lo == at[s].lo + 1 <= run.hi == at[s].hi
    requires forall x :: x in owner2 <==> x in owner && x != at[s].lo
    requires forall x :: x in owner2 ==> owner2[x] == if run.lo <= x <= run.hi then loc else owner[x]
    ensures Covers(at2, owner2, -1)
  {
    assert forall x :: at[s].lo <= x <= at[s].hi ==> x in owner && owner[x] == s;
    forall t, x | t in at2 && at2[t].lo <= x <= at2[t].hi ensures x in owner2 && owner2[x] == t {
      if t != loc {
        assert t in at && at[t] == at2[t] && x in owner && owner[x] == t;
        assert !(at[s].lo <= x <= at[s].hi);
      }
    }
    forall x | x in owner2 ensures owner2[x] in at2 && at2[owner2[x]].lo <= x <= at2[owner2[x]].hi {
      assert owner[x] in at;
    }
  }

  lemma ShiftOrder(g: Image, p: int, s: int, loc: int, at2: map<int, Run>, run: Run)
    requires Shape(g, -1) && s in g.at && Precedes(g, p, s) && loc !in g.at && loc >= 0
    requires Merged(g.at, at2, loc, s, run)
    requires run.lo == g.at[s].lo + 1 <= run.hi == g.at[s].hi
    ensures Ordered(at2, if p == -1 then loc else g.head, -1, g.size)
  {
    StartsApart(g);
    ShiftApart(g.at, at2, loc, s, run, g.size);
    ShiftFirst(g, p, s, loc, at2, run);
    hide Disjoint, First, Spans, Stored, Covers, Linked;
  }

  /** Runs are not empty, and no two start at the same number. */
  ghost predicate Apart(at: map<int, Run>) {
    && (forall s :: s in at ==> 0 <= s && at[s].lo <= at[s].hi)
    && forall s, t :: s in at && t in at && at[s].lo == at[t].lo ==> s == t
  }

  lemma StartsApart(g: Image)
    requires Shape(g, -1)
    ensures Apart(g.at)
  {
    hide Slot, ToWire, EndWord, Ordered, Covers;
  }

  lemma ShiftApart(at: map<int, Run>, at2: map<int, Run>, loc: int, s: int, run: Run, size: int)
    requires Disjoint(at, -1) && Spans(at, size) && Apart(at) && s in at && loc !in at && Merged(at, at2, loc, s, run)
    requires run.lo == at[s].lo + 1 <= run.hi == at[s].hi
    ensures Disjoint(at2, -1) && Spans(at2, size)
  {
  }

  lemma ShiftFirst(g: Image, p: int, s: int, loc: int, at2: map<int, Run>, run: Run)
    requires Shape(g, -1) && s in g.at && Precedes(g, p, s) && loc !in g.at && loc >= 0 && Merged(g.at, at2, loc, s, run)
    requires run.lo == g.at[s].lo + 1 <= run.hi == g.at[s].hi
    ensures First(at2, if p == -1 then loc else g.head)
  {
    hide Covers, Spans, Slot, ToWire, EndWord;
    if p != -1 {
      assert Follows(g.at, p, s);
    }
    StartsApart(g);
  }

  lemma ShiftLinks(g: Image, p: int, s: int, loc: int, at2: map<int, Run>, run: Run)
    requires Shape(g, -1) && s in g.at && Precedes(g, p, s) && loc !in g.at && 0 <= loc < |g.next| && 0 <= s < |g.next|
    requires Merged(g.at, at2, loc, s, run) && p != loc
    requires run.lo == g.at[s].lo + 1 <= run.hi == g.at[s].hi
    ensures Linked(Relink(g.next[loc := g.next[s]], p, loc), at2)
  {
    hide Covers, Stored, Spans, Ordered, Follows;
    ShiftStarts(g, s, loc, at2, run);
    forall t | t in at2 ensures Follows(at2, t, Relink(g.next[loc := g.next[s]], p, loc)[t]) {
      ShiftFollows(g, p, s, loc, at2, run, t);
    }
  }

  lemma ShiftStarts(g: Image, s: int, loc: int, at2: map<int, Run>, run: Run)
    requires Shape(g, -1) && s in g.at && loc !in g.at && 0 <= loc < |g.next| && Merged(g.at, at2, loc, s, run)
    requires run.lo == g.at[s].lo + 1 <= run.hi == g.at[s].hi
    ensures forall t :: t in at2 ==> 0 <= t < |g.next|
    ensures forall t, u :: t in at2 && u in at2 && at2[t].lo == at2[u].lo ==> t == u
  {
    hide Covers, Spans, Slot, ToWire, EndWord;
  }

  lemma ShiftFollows(g: Image, p: int, s: int, loc: int, at2: map<int, Run>, run: Run, t: int)
    requires Shape(g, -1) && s in g.at && Precedes(g, p, s) && loc !in g.at && 0 <= loc < |g.next| && 0 <= s < |g.next|
    requires Merged(g.at, at2, loc, s, run) && p != loc && t in at2 && 0 <= t < |g.next|
    requires run.lo == g.at[s].lo + 1 <= run.hi == g.at[s].hi
    ensures Follows(at2, t, Relink(g.next[loc := g.next[s]], p, loc)[t])
  {
    hide Covers, Stored, Spans;
    assert Follows(g.at, if t == loc then s else t, g.next[if t == loc then s else t]);
  }

  /** Take the numbers e+1..hi, the end of the run in slot s, out. */
  lemma Trim(g: Image, s: int, e: int) returns (g2: Image)
    requires Shape(g, -1) && s in g.at && g.at[s].lo <= e < g.at[s].hi
    ensures 0 <= s < g.size == |g.d2|
    ensures With(g.at, g2.at, s, Run(g.at[s].lo, e)) && Shape(g2, -1)
    ensures g2 == g.(d2 := g.d2[s := EndWord(Run(g.at[s].lo, e))], at := g2.at, owner := g2.owner)
    ensures |g2.owner| == |g.owner| - (g.at[s].hi - e)
    ensures forall x :: x in g2.owner <==> x in g.owner && !(e < x <= g.at[s].hi)
  {
    hide Stored, Covers, Ordered, Linked, With, Slot, ToWire, EndWord;
    RunAt(g, -1, s);
    var run := Run(g.at[s].lo, e);
    OwnedBy(g.at, g.owner, -1, s);
    var owner2 := Take(g.owner, e + 1, g.at[s].hi);
    var at2 := Put(g.at, s, run);
    StoredWith(g.d1, g.d2, g.size, g.base, g.at, at2, s, run);
    assert g.d1[s := ToWire(run.lo)] == g.d1;
    TrimCovers(g.at, g.owner, at2, owner2, s, e);
    TrimOrder(g.at, at2, s, e, g.head, g.size);
    RelinkSame(g.next, g.at, at2, s, run);
    g2 := g.(d2 := g.d2[s := EndWord(run)], at := at2, owner := owner2);
  }

  lemma TrimCovers(at: map<int, Run>, owner: map<int, int>, at2: map<int, Run>, owner2: map<int, int>, s: int, e: int)
    requires s in at && Covers(at, owner, -1) && With(at, at2, s, Run(at[s].lo, e)) && at[s].lo <= e < at[s].hi
    requires forall x :: x in owner2 <==> x in owner && !(e < x <= at[s].hi)
    requires forall x :: x in owner2 ==> owner2[x] == owner[x]
    ensures Covers(at2, owner2, -1)
  {
    TrimOwners(at, owner, at2, owner2, s, e);
    OwnedBy(at, owner, -1, s);
    forall t, x | t in at2 && at2[t].lo <= x <= at2[t].hi ensures x in owner2 && owner2[x] == t {
      OwnedBy(at, owner, -1, t);
      assert x in owner;
    }
  }

  lemma TrimOwners(at: map<int, Run>, owner: map<int, int>, at2: map<int, Run>, owner2: map<int, int>, s: int, e: int)
    requires s in at && Covers(at, owner, -1) && With(at, at2, s, Run(at[s].lo, e)) && at[s].lo <= e < at[s].hi
    requires forall x :: x in owner2 <==> x in owner && !(e < x <= at[s].hi)
    requires forall x :: x in owner2 ==> owner2[x] == owner[x]
    ensures forall x :: x in owner2 ==> owner2[x] in at2 && at2[owner2[x]].lo <= x <= at2[owner2[x]].hi
  {
    forall x | x in owner2 ensures owner2[x] in at2 && at2[owner2[x]].lo <= x <= at2[owner2[x]].hi {
      assert owner[x] in at;
    }
  }

  lemma TrimOrder(at: map<int, Run>, at2: map<int, Run>, s: int, e: int, h: int, size: int)
    requires s in at && Ordered(at, h, -1, size) && With(at, at2, s, Run(at[s].lo, e)) && at[s].lo <= e < at[s].hi
    ensures Ordered(at2, h, -1, size)
  {
  }

  /** Cut the run lo..hi in slot s into e+1..f-1, taken out, and the two runs lo..e and f..hi. */
  lemma Cut(g: Image, s: int, e: int, f: int) returns (g2: Image)
    requires Shape(g, -1) && s in g.at && g.at[s].lo <= e < f <= g.at[s].hi
    ensures var loc, left, right := Slot(f, g.base, g.size), Run(g.at[s].lo, e), Run(f, g.at[s].hi);
            && 0 <= s < g.size == |g.d1| == |g.d2| == |g.next| && 0 <= loc < g.size && loc !in g.at
            && g2 == g.(d1 := g.d1[loc := ToWire(f)], d2 := g.d2[loc := EndWord(right)][s := EndWord(left)],
                        next := g.next[loc := g.next[s]][s := loc], at := g2.at, owner := g2.owner)
            && g.d2[loc] == -1 && CutInTwo(g.at, g2.at, s, loc, left, right) && Shape(g2, -1)
    ensures |g2.owner| == |g.owner| - (f - e - 1)
    ensures forall x :: x in g2.owner <==> x in g.owner && !(e < x < f)
  {
    hide Stored, Covers, Ordered, Linked, With, CutInTwo, Slot, ToWire, EndWord, NoStart, Roomy;
    RunAt(g, -1, s);
    var loc, left, right := Slot(f, g.base, g.size), Run(g.at[s].lo, e), Run(f, g.at[s].hi);
    InnerStart(g, s, f);
    FreeSlot(g, -1, f, g.at[s].hi);
    OwnedBy(g.at, g.owner, -1, s);
    var at1 := Put(g.at, loc, right);
    var at2 := Put(at1, s, left);
    CutIs(g.at, at1, at2, s, loc, left, right);
    var owner1 := g.owner;
    if e + 1 < f {
      owner1 := Take(g.owner, e + 1, f - 1);
    }
    var owner2 := Hand(owner1, f, right.hi, loc);
    StoredWith(g.d1, g.d2, g.size, g.base, g.at, at1, loc, right);
    StoredWith(g.d1[loc := ToWire(f)], g.d2[loc := EndWord(right)], g.size, g.base, at1, at2, s, left);
    assert g.d1[loc := ToWire(f)][s := ToWire(left.lo)] == g.d1[loc := ToWire(f)];
    CutCovers(g.at, g.owner, at2, owner2, s, loc, left, right);
    CutOrder(g, s, loc, at2, left, right);
    CutLinks(g.next, g.at, at2, s, loc, left, right, g.head, g.size);
    g2 := g.(d1 := g.d1[loc := ToWire(f)], d2 := g.d2[loc := EndWord(right)][s := EndWord(left)],
             next := g.next[loc := g.next[s]][s := loc], at := at2, owner := owner2);
  }

  ghost predicate CutInTwo(at: map<int, Run>, at2: map<int, Run>, s: int, loc: int, left: Run, right: Run) {
    && s in at2 && at2[s] == left && loc in at2 && at2[loc] == right
    && (forall t :: t in at2 <==> t in at || t == loc || t == s)
    && (forall t :: t in at2 && t != s && t != loc ==> at2[t] == at[t])
  }

  lemma CutIs(at: map<int, Run>, at1: map<int, Run>, at2: map<int, Run>, s: int, loc: int, left: Run, right: Run)
    requires With(at, at1, loc, right) && With(at1, at2, s, left) && s != loc
    ensures CutInTwo(at, at2, s, loc, left, right)
  {
  }

  lemma CutCovers(at: map<int, Run>, owner: map<int, int>, at2: map<int, Run>, owner2: map<int, int>,
                  s: int, loc: int, left: Run, right: Run)
    requires s in at && loc !in at && loc >= 0 && Covers(at, owner, -1) && CutInTwo(at, at2, s, loc, left, right)
    requires left.lo == at[s].lo <= left.hi < right.lo <= right.hi == at[s].hi
    requires forall x :: x in owner2 <==> x in owner && !(left.hi < x < right.lo)
    requires forall x :: x in owner2 ==> owner2[x] == if right.lo <= x <= right.hi then loc else owner[x]
    ensures Covers(at2, owner2, -1)
  {
    CutOwners(at, owner, at2, owner2, s, loc, left, right);
    SlotsOf(at, owner);
    hide Covers;
    forall t, x | t in at2 && at2[t].lo <= x <= at2[t].hi ensures x in owner2 && owner2[x] == t {
      CutOwner(at, owner, at2, owner2, s, loc, left, right, t, x);
    }
    CoversIs(at2, owner2);
  }

  lemma SlotsOf(at: map<int, Run>, owner: map<int, int>)
    requires Covers(at, owner, -1)
    ensures forall s :: s in at ==> s >= 0
  {
  }

  lemma CoversIs(at: map<int, Run>, owner: map<int, int>)
    requires forall s :: s in at ==> s >= 0
    requires forall s, x :: s in at && at[s].lo <= x <= at[s].hi ==> x in owner && owner[x] == s
    requires forall x :: x in owner ==> owner[x] in at && at[owner[x]].lo <= x <= at[owner[x]].hi
    ensures Covers(at, owner, -1)
  {
  }

  lemma CutOwner(at: map<int, Run>, owner: map<int, int>, at2: map<int, Run>, owner2: map<int, int>,
                 s: int, loc: int, left: Run, right: Run, t: int, x: int)
    requires s in at && loc !in at && Covers(at, owner, -1) && CutInTwo(at, at2, s, loc, left, right)
    requires left.lo == at[s].lo <= left.hi < right.lo <= right.hi == at[s].hi && t in at2 && at2[t].lo <= x <= at2[t].hi
    requires forall x :: x in owner2 <==> x in owner && !(left.hi < x < right.lo)
    requires forall x :: x in owner2 ==> owner2[x] == if right.lo <= x <= right.hi then loc else owner[x]
    ensures x in owner2 && owner2[x] == t
  {
    OwnedBy(at, owner, -1, s);
    if t != loc && t != s {
      OtherOwner(at, owner, s, t, x);
    }
    hide Covers;
    assert x in owner;
  }

  lemma CutOwners(at: map<int, Run>, owner: map<int, int>, at2: map<int, Run>, owner2: map<int, int>,
                  s: int, loc: int, left: Run, right: Run)
    requires s in at && loc !in at && loc >= 0 && Covers(at, owner, -1) && CutInTwo(at, at2, s, loc, left, right)
    requires left.lo == at[s].lo <= left.hi < right.lo <= right.hi == at[s].hi
    requires forall x :: x in owner2 <==> x in owner && !(left.hi < x < right.lo)
    requires forall x :: x in owner2 ==> owner2[x] == if right.lo <= x <= right.hi then loc else owner[x]
    ensures forall x :: x in owner2 ==> owner2[x] in at2 && at2[owner2[x]].lo <= x <= at2[owner2[x]].hi
  {
    OwnedBy(at, owner, -1, s);
    forall x | x in owner2 ensures owner2[x] in at2 && at2[owner2[x]].lo <= x <= at2[owner2[x]].hi {
      assert owner[x] in at;
    }
  }

  lemma CutOrder(g: Image, s: int, loc: int, at2: map<int, Run>, left: Run, right: Run)
    requires Shape(g, -1) && s in g.at && loc !in g.at && loc >= 0 && CutInTwo(g.at, at2, s, loc, left, right)
    requires left.lo == g.at[s].lo <= left.hi < right.lo <= right.hi == g.at[s].hi
    ensures Ordered(at2, g.head, -1, g.size)
  {
    StartsApart(g);
    CutApart(g.at, at2, s, loc, left, right);
    CutSpans(g.at, at2, s, loc, left, right, g.size, g.head);
    hide Disjoint, First, Spans, Stored, Covers, Linked;
  }

  lemma CutApart(at: map<int, Run>, at2: map<int, Run>, s: int, loc: int, left: Run, right: Run)
    requires Disjoint(at, -1) && Apart(at) && s in at && loc !in at && CutInTwo(at, at2, s, loc, left, right)
    requires left.lo == at[s].lo <= left.hi < right.lo <= right.hi == at[s].hi
    ensures Disjoint(at2, -1)
  {
  }

  lemma CutSpans(at: map<int, Run>, at2: map<int, Run>, s: int, loc: int, left: Run, right: Run, size: int, h: int)
    requires Spans(at, size) && First(at, h) && s in at && loc !in at && CutInTwo(at, at2, s, loc, left, right)
    requires left.lo == at[s].lo <= left.hi < right.lo <= right.hi == at[s].hi
    ensures Spans(at2, size) && First(at2, h)
  {
  }

  lemma CutLinks(next: seq<int>, at: map<int, Run>, at2: map<int, Run>, s: int, loc: int, left: Run, right: Run,
                 h: int, size: int)
    requires Linked(next, at) && s in at && loc !in at && 0 <= s < |next| && 0 <= loc < |next|
    requires Ordered(at, h, -1, size) && CutInTwo(at, at2, s, loc, left, right)
    requires left.lo == at[s].lo <= left.hi < right.lo <= right.hi == at[s].hi
    ensures Linked(next[loc := next[s]][s := loc], at2)
  {
    hide Spans, First, Follows;
    forall t | t in at2 ensures Follows(at2, t, next[loc := next[s]][s := loc][t]) {
      CutFollows(next, at, at2, s, loc, left, right, t);
    }
  }

  lemma CutFollows(next: seq<int>, at: map<int, Run>, at2: map<int, Run>, s: int, loc: int, left: Run, right: Run, t: int)
    requires Linked(next, at) && s in at && loc !in at && 0 <= s < |next| && 0 <= loc < |next|
    requires Disjoint(at, -1) && CutInTwo(at, at2, s, loc, left, right) && t in at2 && 0 <= t < |next|
    requires left.lo == at[s].lo <= left.hi < right.lo <= right.hi == at[s].hi
    ensures Follows(at2, t, next[loc := next[s]][s := loc][t])
  {
    assert Follows(at, s, next[s]);
    if t != loc {
      assert Follows(at, t, next[t]);
    }
  }

  // ---------- The back links of the receiver's list ----------

  /** prior is the inverse of next on the runs, and tail the slot of the last run. */
  ghost predicate Backed(g: Image, prior: seq<int>, tail: int) {
    && |prior| == |g.next| == g.size && -1 !in g.at
    && (forall s :: s in g.at ==> 0 <= s < g.size)
    && (forall s {:trigger prior[s]} :: s in g.at ==> Precedes(g, prior[s], s))
    && (forall s {:trigger g.next[s]} :: s in g.at && g.next[s] != -1 ==>
          g.next[s] in g.at && prior[g.next[s]] == s)
    && (g.head != -1 ==> g.head in g.at && prior[g.head] == -1 && tail in g.at && g.next[tail] == -1)
  }

  lemma AppendBacked(g: Image, g2: Image, prior: seq<int>, tail: int, loc: int, run: Run)
    requires Backed(g, prior, tail) && g.head != -1 && loc !in g.at && 0 <= loc < g.size
    requires g2.size == g.size && g2.head == g.head && With(g.at, g2.at, loc, run)
    requires g2.next == g.next[loc := -1][tail := loc]
    ensures Backed(g2, prior[loc := tail], loc)
  {
    var prior2 := prior[loc := tail];
    forall s | s in g2.at ensures Precedes(g2, prior2[s], s) {
      if s != loc {
        assert Precedes(g, prior[s], s);
      }
    }
    forall s | s in g2.at && g2.next[s] != -1 ensures g2.next[s] in g2.at && prior2[g2.next[s]] == s {
      if s != loc && s != tail {
        assert g.next[s] in g.at && prior[g.next[s]] == s;
      }
    }
  }

  lemma UnlinkBacked(g: Image, g2: Image, prior: seq<int>, prior2: seq<int>, tail: int, tail2: int, p: int, s: int)
    requires Unlinked(g, g2, prior, prior2, tail, p, s)
    requires tail2 == if g.next[s] == -1 && p != -1 then p else tail
    ensures Backed(g2, prior2, tail2)
  {
    UnlinkPrior(g, g2, prior, prior2, tail, p, s);
    UnlinkNext(g, g2, prior, prior2, tail, p, s);
    assert Precedes(g, p, s);
    hide Precedes;
  }

  /** The links before and after Unlink. */
  ghost predicate Unlinked(g: Image, g2: Image, prior: seq<int>, prior2: seq<int>, tail: int, p: int, s: int) {
    && Backed(g, prior, tail) && s in g.at && p == prior[s] && Without(g.at, g2.at, s) && g2.size == g.size
    && g2.next == Relink(g.next, p, g.next[s]) && (g2.head == if p == -1 then g.next[s] else g.head)
    && g.next[s] != s && (g.next[s] == -1 <==> s == tail)
    && (prior2 == if g.next[s] != -1 then prior[g.next[s] := p] else prior)
  }

  lemma UnlinkPrior(g: Image, g2: Image, prior: seq<int>, prior2: seq<int>, tail: int, p: int, s: int)
    requires Unlinked(g, g2, prior, prior2, tail, p, s)
    ensures |prior2| == g.size && forall t {:trigger prior2[t]} :: t in g2.at ==> Precedes(g2, prior2[t], t)
  {
    assert Precedes(g, p, s);
    forall t | t in g2.at ensures Precedes(g2, prior2[t], t) {
      assert Precedes(g, prior[t], t);
    }
  }

  lemma UnlinkNext(g: Image, g2: Image, prior: seq<int>, prior2: seq<int>, tail: int, p: int, s: int)
    requires Unlinked(g, g2, prior, prior2, tail, p, s)
    ensures |prior2| == |g2.next| == g.size
    ensures forall t {:trigger g2.next[t]} :: t in g2.at && g2.next[t] != -1 ==> g2.next[t] in g2.at && prior2[g2.next[t]] == t
  {
    assert Precedes(g, p, s);
    forall t | t in g2.at && g2.next[t] != -1 ensures g2.next[t] in g2.at && prior2[g2.next[t]] == t {
      assert g.next[t] != -1 ==> g.next[t] in g.at && prior[g.next[t]] == t;
    }
  }

  /** The links before and after Shift. */
  ghost predicate Shifted(g: Image, g2: Image, prior: seq<int>, prior2: seq<int>, tail: int,
                          p: int, s: int, loc: int, run: Run)
  {
    && Backed(g, prior, tail) && s in g.at && p == prior[s] && loc !in g.at && 0 <= loc < g.size
    && Merged(g.at, g2.at, loc, s, run) && g2.size == g.size && p != loc && Precedes(g, p, s)
    && g2.next == Relink(g.next[loc := g.next[s]], p, loc) && (g2.head == if p == -1 then loc else g.head)
    && g.next[s] != s && (g.next[s] == -1 <==> s == tail)
    && (prior2 == if tail == s then prior[loc := p] else prior[loc := p][g.next[s] := loc])
  }

  lemma ShiftPrior(g: Image, g2: Image, prior: seq<int>, prior2: seq<int>, tail: int, p: int, s: int, loc: int, run: Run)
    requires Shifted(g, g2, prior, prior2, tail, p, s, loc, run)
    ensures forall t {:trigger prior2[t]} :: t in g2.at ==> Precedes(g2, prior2[t], t)
  {
    forall t | t in g2.at ensures Precedes(g2, prior2[t], t) {
      if t != loc {
        assert t != s && Precedes(g, prior[t], t);
        assert prior[t] == s ==> g.next[s] == t;
      }
    }
  }

  lemma ShiftNext(g: Image, g2: Image, prior: seq<int>, prior2: seq<int>, tail: int, p: int, s: int, loc: int, run: Run)
    requires Shifted(g, g2, prior, prior2, tail, p, s, loc, run)
    ensures forall t {:trigger g2.next[t]} :: t in g2.at && g2.next[t] != -1 ==>
              g2.next[t] in g2.at && prior2[g2.next[t]] == t
  {
    forall t | t in g2.at && g2.next[t] != -1 ensures g2.next[t] in g2.at && prior2[g2.next[t]] == t {
      if t != loc && t != p {
        assert t in g.at && g2.next[t] == g.next[t];
        assert g.next[t] in g.at && prior[g.next[t]] == t;
        assert g.next[t] != s;
      }
    }
  }

  lemma ShiftBacked(g: Image, g2: Image, prior: seq<int>, prior2: seq<int>, tail: int, tail2: int,
                    p: int, s: int, loc: int, run: Run)
    requires Shifted(g, g2, prior, prior2, tail, p, s, loc, run)
    requires tail2 == if tail == s then loc else tail
    ensures Backed(g2, prior2, tail2)
  {
    ShiftPrior(g, g2, prior, prior2, tail, p, s, loc, run);
    ShiftNext(g, g2, prior, prior2, tail, p, s, loc, run);
    hide Precedes;
  }

  lemma CutBacked(g: Image, g2: Image, prior: seq<int>, prior2: seq<int>, tail: int, tail2: int,
                  s: int, loc: int, left: Run, right: Run)
    requires Backed(g, prior, tail) && s in g.at && loc !in g.at && 0 <= loc < g.size
    requires CutInTwo(g.at, g2.at, s, loc, left, right) && g2.size == g.size && g2.head == g.head != -1
    requires g2.next == g.next[loc := g.next[s]][s := loc]
    requires g.next[s] != s && (g.next[s] == -1 <==> s == tail)
    requires prior2 == if tail == s then prior[loc := s] else prior[loc := s][g.next[s] := loc]
    requires tail2 == if tail == s then loc else tail
    ensures Backed(g2, prior2, tail2)
  {
    forall t | t in g2.at ensures Precedes(g2, prior2[t], t) {
      if t != loc {
        assert Precedes(g, prior[t], t);
      }
    }
    forall t | t in g2.at && g2.next[t] != -1 ensures g2.next[t] in g2.at && prior2[g2.next[t]] == t {
      if t != loc {
        assert g.next[t] != -1 ==> g.next[t] in g.at && prior[g.next[t]] == t;
      }
    }
  }

  lemma TailOf(g: Image, prior: seq<int>, tail: int, s: int)
    requires Shape(g, -1) && Backed(g, prior, tail) && s in g.at
    ensures g.head != -1 && tail in g.at
    ensures g.next[s] == -1 <==> s == tail
    ensures g.next[s] != s && (g.next[s] != -1 ==> g.next[s] in g.at && 0 <= g.next[s] < g.size)
    ensures prior[s] == -1 <==> s == g.head
    ensures Precedes(g, prior[s], s)
  {
    hide Stored, Covers, Spans;
    assert Follows(g.at, s, g.next[s]) && Follows(g.at, tail, g.next[tail]);
    assert Precedes(g, prior[s], s);
  }
}
