/** The binary heap of the senders that wait for their turn, CSndUList, as operations on the sequence of its entries. */
module SendHeap {
  datatype Entry<T> = Entry(node: T, ts: int)

  function Parent(i: int): (p: int)
    requires i > 0
    ensures 0 <= p < i
  {
    (i - 1) / 2
  }

  function Swap<T>(e: seq<T>, p: int, q: int): (r: seq<T>)
    requires 0 <= p < |e| && 0 <= q < |e|
    ensures |r| == |e|
  {
    e[p := e[q]][q := e[p]]
  }

  /** Entry q moves up while it is earlier than its parent. */
  function SiftUp<T>(e: seq<Entry<T>>, q: nat): (r: seq<Entry<T>>)
    requires q < |e|
    ensures |r| == |e|
    decreases q
  {
    if q == 0 then e
    else
      var p := Parent(q);
      if e[p].ts > e[q].ts then SiftUp(Swap(e, p, q), p) else e
  }

  /** The child of q that is earlier, the left one if they are equal; q if it has none. */
  function Earlier<T>(e: seq<Entry<T>>, q: nat): (p: int)
    requires q < |e|
    ensures q <= p < |e| && (p == q || p == 2 * q + 1 || p == 2 * q + 2)
  {
    var p := 2 * q + 1;
    if p >= |e| then q
    else if p + 1 < |e| && e[p].ts > e[p + 1].ts then p + 1
    else p
  }

  /** Entry q moves down while it is later than one of its children. */
  function SiftDown<T>(e: seq<Entry<T>>, q: nat): (r: seq<Entry<T>>)
    requires q < |e|
    ensures |r| == |e|
    decreases |e| - q
  {
    var p := Earlier(e, q);
    if p != q && e[q].ts > e[p].ts then SiftDown(Swap(e, p, q), p) else e
  }

  function Inserted<T>(e: seq<Entry<T>>, x: Entry<T>): seq<Entry<T>> {
    SiftUp(e + [x], |e|)
  }

  /** The last entry takes the place of entry i and moves down from there. */
  function Removed<T>(e: seq<Entry<T>>, i: nat): seq<Entry<T>>
    requires i < |e|
  {
    var n := |e| - 1;
    if i == n then e[..n] else SiftDown(e[..n][i := e[n]], i)
  }

  // ---------- Order ----------

  ghost predicate Ordered<T>(e: seq<Entry<T>>) {
    forall i {:trigger e[i]} :: 0 < i < |e| ==> e[Parent(i)].ts <= e[i].ts
  }

  /** No entry is earlier than the root. */
  lemma {:induction false} RootEarliest<T>(e: seq<Entry<T>>, i: nat)
    requires Ordered(e) && i < |e|
    ensures e[0].ts <= e[i].ts
  {
    if i > 0 {
      RootEarliest(e, Parent(i));
    }
  }

  /** In order, except that entry q may be earlier than its parent. */
  ghost predicate OrderedBut<T>(e: seq<Entry<T>>, q: int) {
    && (forall i {:trigger e[i]} :: 0 < i < |e| && i != q ==> e[Parent(i)].ts <= e[i].ts)
    && (forall i {:trigger e[i]} :: 0 < q < |e| && 0 < i < |e| && Parent(i) == q ==> e[Parent(q)].ts <= e[i].ts)
  }

  lemma {:induction false} SiftUpOrders<T>(e: seq<Entry<T>>, q: nat)
    requires q < |e| && OrderedBut(e, q)
    ensures Ordered(SiftUp(e, q))
    decreases q
  {
    if q > 0 && e[Parent(q)].ts > e[q].ts {
      SwapUp(e, q);
      SiftUpOrders(Swap(e, Parent(q), q), Parent(q));
    }
  }

  lemma SwapUp<T>(e: seq<Entry<T>>, q: nat)
    requires 0 < q < |e| && OrderedBut(e, q) && e[Parent(q)].ts > e[q].ts
    ensures OrderedBut(Swap(e, Parent(q), q), Parent(q))
  {
    var p := Parent(q);
    var e2 := Swap(e, p, q);
    forall i | 0 < i < |e2| && i != p ensures e2[Parent(i)].ts <= e2[i].ts {
      assert e[i].ts >= e[Parent(i)].ts || i == q;
    }
    forall i | 0 < p && 0 < i < |e2| && Parent(i) == p ensures e2[Parent(p)].ts <= e2[i].ts {
      assert e[Parent(p)].ts <= e[p].ts;
      assert i != q ==> e[p].ts <= e[i].ts;
    }
  }

  /** In order, except that entry q may be later than its children. */
  ghost predicate OrderedAbove<T>(e: seq<Entry<T>>, q: int) {
    && (forall i {:trigger e[i]} :: 0 < i < |e| && Parent(i) != q ==> e[Parent(i)].ts <= e[i].ts)
    && (forall i {:trigger e[i]} :: 0 < q < |e| && 0 < i < |e| && Parent(i) == q ==> e[Parent(q)].ts <= e[i].ts)
  }

  lemma {:induction false} SiftDownOrders<T>(e: seq<Entry<T>>, q: nat)
    requires q < |e| && OrderedAbove(e, q)
    ensures Ordered(SiftDown(e, q))
    decreases |e| - q
  {
    hide OrderedAbove, Ordered;
    var p := Earlier(e, q);
    if p != q && e[q].ts > e[p].ts {
      SwapDown(e, q);
      SiftDownOrders(Swap(e, p, q), p);
    } else {
      Settled(e, q);
    }
  }

  lemma Settled<T>(e: seq<Entry<T>>, q: nat)
    requires q < |e| && OrderedAbove(e, q) && e[q].ts <= e[Earlier(e, q)].ts
    ensures Ordered(e)
  {
    forall i | 0 < i < |e| ensures e[Parent(i)].ts <= e[i].ts {
      if Parent(i) == q {
        EarlierIs(e, q, i);
      }
    }
  }

  lemma EarlierIs<T>(e: seq<Entry<T>>, q: nat, i: nat)
    requires q < |e| && 0 < i < |e| && Parent(i) == q
    ensures Earlier(e, q) != q && e[Earlier(e, q)].ts <= e[i].ts
  {
    assert i == 2 * q + 1 || i == 2 * q + 2;
  }

  lemma SwapDown<T>(e: seq<Entry<T>>, q: nat)
    requires q < |e| && OrderedAbove(e, q)
    requires Earlier(e, q) != q && e[q].ts > e[Earlier(e, q)].ts
    ensures OrderedAbove(Swap(e, Earlier(e, q), q), Earlier(e, q))
  {
    var p := Earlier(e, q);
    var e2 := Swap(e, p, q);
    assert Parent(p) == q;
    forall i | 0 < i < |e2| && Parent(i) != p ensures e2[Parent(i)].ts <= e2[i].ts {
      if Parent(i) == q {
        EarlierIs(e, q, i);
      }
    }
    forall i | 0 < i < |e2| && Parent(i) == p ensures e2[Parent(p)].ts <= e2[i].ts {
      assert e[p].ts <= e[i].ts;
    }
  }

  /** Inserting keeps the order. */
  lemma InsertOrders<T>(e: seq<Entry<T>>, x: Entry<T>)
    requires Ordered(e)
    ensures Ordered(Inserted(e, x))
  {
    SiftUpOrders(e + [x], |e|);
  }

  /** Removing keeps the order just if the last entry is not earlier than the parent of the one removed: the last entry
      only ever moves down from its new place. */
  lemma RemoveOrders<T>(e: seq<Entry<T>>, i: nat)
    requires Ordered(e) && i < |e|
    ensures Ordered(Removed(e, i)) <==> i == 0 || e[Parent(i)].ts <= e[|e| - 1].ts
  {
    hide Ordered, OrderedAbove, SiftDown;
    var n := |e| - 1;
    if i == n {
      LastLeaves(e);
    } else {
      if i == 0 || e[Parent(i)].ts <= e[n].ts {
        ReplacedAbove(e, i);
        SiftDownOrders(e[..n][i := e[n]], i);
      } else {
        Disordered(e, i);
      }
    }
  }

  lemma LastLeaves<T>(e: seq<Entry<T>>)
    requires Ordered(e) && e != []
    ensures Ordered(e[..|e| - 1]) && (|e| > 1 ==> e[Parent(|e| - 1)].ts <= e[|e| - 1].ts)
  {
  }

  lemma Disordered<T>(e: seq<Entry<T>>, i: nat)
    requires Ordered(e) && 0 < i < |e| - 1 && e[Parent(i)].ts > e[|e| - 1].ts
    ensures !Ordered(Removed(e, i))
  {
    StaysPut(e, i);
    hide Removed;
    assert Removed(e, i)[Parent(i)].ts > Removed(e, i)[i].ts;
  }

  lemma ReplacedAbove<T>(e: seq<Entry<T>>, i: nat)
    requires Ordered(e) && i < |e| - 1 && (i == 0 || e[Parent(i)].ts <= e[|e| - 1].ts)
    ensures OrderedAbove(e[..|e| - 1][i := e[|e| - 1]], i)
  {
    var e2 := e[..|e| - 1][i := e[|e| - 1]];
    forall k | 0 < k < |e2| && Parent(k) != i ensures e2[Parent(k)].ts <= e2[k].ts {
      assert e[Parent(k)].ts <= e[k].ts;
    }
    forall k | 0 < i && 0 < k < |e2| && Parent(k) == i ensures e2[Parent(i)].ts <= e2[k].ts {
      assert e[i].ts <= e[k].ts && e[Parent(i)].ts <= e[i].ts;
    }
  }

  /** An entry earlier than the parent of its new place is earlier than the children there, and stays where it is. */
  lemma StaysPut<T>(e: seq<Entry<T>>, i: nat)
    requires Ordered(e) && 0 < i < |e| - 1 && e[Parent(i)].ts > e[|e| - 1].ts
    ensures Removed(e, i)[i] == e[|e| - 1] && Removed(e, i)[Parent(i)] == e[Parent(i)]
  {
    var e2 := e[..|e| - 1][i := e[|e| - 1]];
    ChildrenLater(e, e2, i);
    hide Ordered, Earlier;
    assert SiftDown(e2, i) == e2;
  }

  lemma ChildrenLater<T>(e: seq<Entry<T>>, e2: seq<Entry<T>>, i: nat)
    requires Ordered(e) && 0 < i < |e| - 1 && e[Parent(i)].ts > e[|e| - 1].ts
    requires e2 == e[..|e| - 1][i := e[|e| - 1]]
    ensures e2[i].ts <= e2[Earlier(e2, i)].ts
  {
    assert e[Parent(i)].ts <= e[i].ts;
    var p := Earlier(e2, i);
    if p != i {
      assert e2[p] == e[p] && Parent(p) == i && e[i].ts <= e[p].ts;
    }
  }

  /** A heap in which removing an entry inside loses the order. */
  lemma RemoveCanDisorder()
    ensures exists e: seq<Entry<int>>, i: nat :: i < |e| && Ordered(e) && !Ordered(Removed(e, i))
  {
    var e := [Entry(0, 1), Entry(1, 10), Entry(2, 2), Entry(3, 11), Entry(4, 12), Entry(5, 3)];
    SixOrdered(e);
    assert Parent(3) == 1;
    hide Ordered, Removed;
    RemoveOrders(e, 3);
  }

  lemma SixOrdered(e: seq<Entry<int>>)
    requires |e| == 6 && e[0].ts <= e[1].ts && e[0].ts <= e[2].ts && e[1].ts <= e[3].ts && e[1].ts <= e[4].ts
    requires e[2].ts <= e[5].ts
    ensures Ordered(e)
  {
    forall i | 0 < i < |e| ensures e[Parent(i)].ts <= e[i].ts {
      assert i == 1 || i == 2 || i == 3 || i == 4 || i == 5;
    }
  }

  // ---------- Membership ----------

  lemma SwapSame<T>(e: seq<T>, p: int, q: int)
    requires 0 <= p < |e| && 0 <= q < |e|
    ensures multiset(Swap(e, p, q)) == multiset(e)
  {
  }

  lemma {:induction false} SiftUpSame<T>(e: seq<Entry<T>>, q: nat)
    requires q < |e|
    ensures multiset(SiftUp(e, q)) == multiset(e)
    decreases q
  {
    if q > 0 && e[Parent(q)].ts > e[q].ts {
      SwapSame(e, Parent(q), q);
      SiftUpSame(Swap(e, Parent(q), q), Parent(q));
    }
  }

  lemma {:induction false} SiftDownSame<T>(e: seq<Entry<T>>, q: nat)
    requires q < |e|
    ensures multiset(SiftDown(e, q)) == multiset(e)
    decreases |e| - q
  {
    var p := Earlier(e, q);
    if p != q && e[q].ts > e[p].ts {
      SwapSame(e, p, q);
      SiftDownSame(Swap(e, p, q), p);
    }
  }

  /** Inserting adds just the new entry. */
  lemma InsertAdds<T>(e: seq<Entry<T>>, x: Entry<T>)
    ensures multiset(Inserted(e, x)) == multiset(e) + multiset{x}
  {
    SiftUpSame(e + [x], |e|);
  }

  /** Removing takes away just the entry removed. */
  lemma RemoveTakes<T>(e: seq<Entry<T>>, i: nat)
    requires i < |e|
    ensures multiset(Removed(e, i)) == multiset(e) - multiset{e[i]}
  {
    var n := |e| - 1;
    assert e == e[..n] + [e[n]];
    if i < n {
      var e2 := e[..n][i := e[n]];
      SiftDownSame(e2, i);
      assert multiset(e2) == multiset(e[..n]) - multiset{e[i]} + multiset{e[n]};
    }
  }

  // ---------- Runs ----------

  datatype Op<T> = Insert(x: Entry<T>) | Pop | ResetRoot

  function Step<T>(e: seq<Entry<T>>, op: Op<T>): seq<Entry<T>> {
    match op
    case Insert(x) => Inserted(e, x)
    case Pop => if e == [] then e else Removed(e, 0)
    case ResetRoot => if e == [] then e else e[0 := e[0].(ts := 1)]
  }

  function Run<T>(ops: seq<Op<T>>): seq<Entry<T>> {
    if ops == [] then [] else Step(Run(ops[..|ops| - 1]), ops[|ops| - 1])
  }

  ghost predicate Later<T>(e: seq<Entry<T>>) {
    forall i :: 0 <= i < |e| ==> e[i].ts >= 1
  }

  /** Over any run of insertions, removals of the root and resets of the root to time 1, the root is earliest. */
  lemma {:induction false} RootEarliestInRuns<T>(ops: seq<Op<T>>)
    requires forall k :: 0 <= k < |ops| ==> ops[k].Insert? ==> ops[k].x.ts >= 1
    ensures Ordered(Run(ops)) && Later(Run(ops))
    ensures forall i :: 0 <= i < |Run(ops)| ==> Run(ops)[0].ts <= Run(ops)[i].ts
  {
    if ops != [] {
      var before, op := ops[..|ops| - 1], ops[|ops| - 1];
      RootEarliestInRuns(before);
      StepKeeps(Run(before), op);
    }
    forall i | 0 <= i < |Run(ops)| ensures Run(ops)[0].ts <= Run(ops)[i].ts {
      RootEarliest(Run(ops), i);
    }
  }

  lemma StepKeeps<T>(e: seq<Entry<T>>, op: Op<T>)
    requires Ordered(e) && Later(e) && (op.Insert? ==> op.x.ts >= 1)
    ensures Ordered(Step(e, op)) && Later(Step(e, op))
  {
    match op
    case Insert(x) =>
      InsertOrders(e, x);
      SiftUpSame(e + [x], |e|);
      LaterSame(e + [x], Inserted(e, x));
      hide Ordered, Inserted;
    case Pop =>
      if e != [] {
        PopKeeps(e);
      }
      hide Ordered, Removed;
    case ResetRoot =>
  }

  lemma PopKeeps<T>(e: seq<Entry<T>>)
    requires Ordered(e) && Later(e) && e != []
    ensures Ordered(Removed(e, 0)) && Later(Removed(e, 0))
  {
    RemoveOrders(e, 0);
    hide Ordered;
    var n := |e| - 1;
    if n > 0 {
      SiftDownSame(e[..n][0 := e[n]], 0);
      LaterSame(e[..n][0 := e[n]], Removed(e, 0));
    }
  }

  lemma LaterSame<T>(e: seq<Entry<T>>, e2: seq<Entry<T>>)
    requires Later(e) && multiset(e2) == multiset(e)
    ensures Later(e2)
  {
    forall i | 0 <= i < |e2| ensures e2[i].ts >= 1 {
      assert e2[i] in multiset(e2);
    }
  }
}
