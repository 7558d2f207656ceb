/** The list of sockets waiting to send, CSndUList: an array of nodes kept as a heap, each node knowing its place. */
module SendScheduler {
  import opened SendHeap

  /** A socket's node; heapLoc is -1 if it is not in the heap. */
  class SNode {
    var timeStamp: int
    var heapLoc: int

    constructor ()
      ensures heapLoc == -1
    {
      timeStamp, heapLoc := 0, -1;
    }
  }

  class SndUList {
    var heap: array<SNode?>
    var lastEntry: int

    ghost var e: seq<Entry<SNode>>

    /** Entry i is in place i of the array. */
    ghost predicate Placed(i: int)
      requires 0 <= i < |e|
      reads this`heap, this`e, heap, e[i].node
    {
      i < heap.Length && heap[i] == e[i].node && e[i].node.timeStamp == e[i].ts && e[i].node.heapLoc == i
    }

    ghost predicate Valid()
      reads this, heap, set i | 0 <= i < |e| :: e[i].node
    {
      |e| == lastEntry + 1 <= heap.Length && forall i {:trigger Placed(i)} {:trigger e[i]} :: 0 <= i < |e| ==> Placed(i)
    }

    /** Whether n is in the heap is what its heapLoc says. */
    ghost predicate Knows(n: SNode)
      reads this`e, n`heapLoc
    {
      n.heapLoc == -1 || (0 <= n.heapLoc < |e| && e[n.heapLoc].node == n)
    }

    constructor ()
      ensures Valid() && e == [] && fresh(heap) && heap.Length == 4096
    {
      heap := new SNode?[4096](_ => null);
      lastEntry := -1;
      e := [];
    }

    /** The time at which the next socket may send, or 0 if there is none. */
    method GetNextProcTime() returns (ts: int)
      requires Valid()
      ensures ts == if e == [] then 0 else e[0].ts
    {
      if -1 == lastEntry {
        return 0;
      }
      assert Placed(0);
      return heap[0].timeStamp;
    }

    lemma Placing()
      requires Valid()
      ensures |e| == lastEntry + 1 <= heap.Length
    {
    }

    /** No node is in the heap twice. */
    lemma Once(i: int, j: int)
      requires Valid() && 0 <= i < |e| && 0 <= j < |e|
      ensures e[i].node == e[j].node <==> i == j
    {
      assert Placed(i) && Placed(j);
    }

    /** The nodes in the heap. */
    ghost function Nodes(): set<SNode>
      reads this`e
    {
      NodesOf(e)
    }

    /** The place of entry q has not been written down in its node yet. */
    ghost predicate Moving(q: int)
      reads this, heap, Nodes()
    {
      && |e| == lastEntry + 1 <= heap.Length && 0 <= q < |e|
      && heap[q] == e[q].node && e[q].node.timeStamp == e[q].ts
      && forall i {:trigger Placed(i)} {:trigger e[i]} ::
           0 <= i < |e| && i != q ==> e[i].node in Nodes() && Placed(i) && e[i].node != e[q].node
    }

    /** Exchange the entry that is moving up with its parent. */
    method MoveUp(p: int, q: int)
      requires Moving(q) && 0 <= p < |e| && p != q
      modifies this`e, heap, e[p].node`heapLoc
      ensures Moving(p) && e == Swap(old(e), p, q) && e[p] == old(e[q])
    {
      assert Placed(p);
      var t := heap[p];
      heap[p] := heap[q];
      heap[q] := t;
      t.heapLoc := q;
      e := Swap(e, p, q);
    }

    /** Sift the last entry up to its place. */
    method SiftLast() returns (q: int)
      requires Moving(|e| - 1)
      modifies this`e, heap, Nodes()`heapLoc
      ensures Moving(q) && e == SiftUp(old(e), |old(e)| - 1) && Nodes() == old(Nodes()) && e[q].node == old(e[|e| - 1].node)
    {
      hide SiftUp, Swap;
      q := lastEntry;
      var p := q;
      ghost var nodes := Nodes();
      while p != 0
        invariant Moving(q) && SiftUp(old(e), |old(e)| - 1) == SiftUp(e, q)
        invariant Nodes() == nodes && e[q].node == old(e[|e| - 1].node) && p == q
        decreases q
      {
        p := Up(q);
        UpStep(e, q);
        assert Placed(p);
        if heap[p].timeStamp > heap[q].timeStamp {
          SwapNodes(p, q);
          MoveUp(p, q);
          q := p;
        } else {
          break;
        }
      }
      UpEnd(e);
    }

    /** (q - 1) >> 1 */
    static function Up(q: int): int
      requires q > 0
    {
      (q - 1) / 2
    }

    lemma UpEnd(e: seq<Entry<SNode>>)
      requires e != []
      ensures SiftUp(e, 0) == e
    {
    }

    lemma UpStep(e: seq<Entry<SNode>>, q: int)
      requires 0 < q < |e|
      ensures Up(q) == Parent(q)
      ensures SiftUp(e, q) == if e[Parent(q)].ts > e[q].ts then SiftUp(Swap(e, Parent(q), q), Parent(q)) else e
    {
    }

    lemma SwapNodes(p: int, q: int)
      requires 0 <= p < |e| && 0 <= q < |e|
      ensures NodesOf(Swap(e, p, q)) == Nodes()
    {
      var e2 := Swap(e, p, q);
      var nodes2 := NodesOf(e2);
      forall x | x in Nodes() ensures x in nodes2 {
        var i :| 0 <= i < |e| && e[i].node == x;
        assert e2[if i == p then q else if i == q then p else i].node == x;
      }
      forall x | x in nodes2 ensures x in Nodes() {
        var i :| 0 <= i < |e| && e2[i].node == x;
        assert e[if i == p then q else if i == q then p else i].node == x;
      }
    }

    /** Insert a node unless it is in the heap already; the array must have room. */
    method InsertNode(ts: int, n: SNode)
      requires Valid() && Knows(n) && lastEntry + 1 < heap.Length
      modifies this`e, this`lastEntry, heap, n, Nodes()`heapLoc
      ensures Valid() && Knows(n)
      ensures e == if old(n.heapLoc) >= 0 then old(e) else Inserted(old(e), Entry(n, ts))
      ensures Nodes() == old(Nodes()) + {n}
    {
      if n.heapLoc >= 0 {
        InNodes();
        return;
      }
      NotIn(n);
      AppendNode(ts, n);
    }

    /** The node goes to the end and moves up from there. */
    method AppendNode(ts: int, n: SNode)
      requires Valid() && n !in Nodes() && (forall i :: 0 <= i < |e| ==> e[i].node != n) && lastEntry + 1 < heap.Length
      modifies this`e, this`lastEntry, heap, n, Nodes()`heapLoc
      ensures Valid() && Knows(n) && e == Inserted(old(e), Entry(n, ts)) && Nodes() == old(Nodes()) + {n}
    {
      lastEntry := lastEntry + 1;
      heap[lastEntry] := n;
      n.timeStamp := ts;
      e := e + [Entry(n, ts)];
      InNodes();
      NodesAppend(old(e), Entry(n, ts));
      var q := SiftLast();
      n.heapLoc := q;
    }

    lemma NotIn(n: SNode)
      requires Valid() && n.heapLoc == -1
      ensures n !in Nodes() && forall i :: 0 <= i < |e| ==> e[i].node in Nodes() && e[i].node != n
    {
      InNodes();
    }

    /** The nodes of some entries. */
    static ghost function NodesOf(e: seq<Entry<SNode>>): set<SNode> {
      set i | 0 <= i < |e| :: e[i].node
    }

    static lemma NodesAppend(e: seq<Entry<SNode>>, x: Entry<SNode>)
      ensures NodesOf(e + [x]) == NodesOf(e) + {x.node}
    {
      var more := e + [x];
      forall y | y in NodesOf(e) + {x.node} ensures y in NodesOf(more) {
        if y in NodesOf(e) {
          var i :| 0 <= i < |e| && e[i].node == y;
          assert more[i].node == y;
        } else {
          assert more[|e|].node == y;
        }
      }
    }

    static lemma NodesWithout(e: seq<Entry<SNode>>, e2: seq<Entry<SNode>>, loc: nat)
      requires loc < |e| && forall i :: 0 <= i < |e2| ==> e2[i].node != e[loc].node
      requires e2 == if loc == |e| - 1 then e[..loc] else e[..|e| - 1][loc := e[|e| - 1]]
      ensures NodesOf(e2) == NodesOf(e) - {e[loc].node}
    {
      forall y | y in NodesOf(e) - {e[loc].node} ensures y in NodesOf(e2) {
        var i :| 0 <= i < |e| && e[i].node == y;
        assert e2[if i == |e| - 1 then loc else i].node == y;
      }
      forall y | y in NodesOf(e2) ensures y in NodesOf(e) - {e[loc].node} {
        var i :| 0 <= i < |e2| && e2[i].node == y;
        assert e[if i == loc then |e| - 1 else i].node == y;
      }
    }

    lemma InNodes()
      ensures forall i :: 0 <= i < |e| ==> e[i].node in Nodes()
    {
    }

    /** Insert a node; the array grows first if it is full. */
    method Insert(ts: int, n: SNode)
      requires Valid() && Knows(n) && 0 < heap.Length
      modifies this, heap, n, Nodes()`heapLoc
      ensures Valid() && Knows(n)
      ensures e == if old(n.heapLoc) >= 0 then old(e) else Inserted(old(e), Entry(n, ts))
    {
      if lastEntry == heap.Length - 1 {
        Double();
      }
      InsertNode(ts, n);
    }

    method Double()
      requires Valid() && 0 < heap.Length
      modifies this`heap
      ensures Valid() && e == old(e) && fresh(heap) && heap.Length == 2 * old(heap.Length)
    {
      var temp := new SNode?[heap.Length * 2](_ => null);
      for i := 0 to heap.Length
        modifies temp
        invariant forall k :: 0 <= k < i ==> temp[k] == heap[k]
      {
        temp[i] := heap[i];
      }
      assert forall i :: 0 <= i < |e| ==> Placed(i);
      heap := temp;
    }

    // ---------- Removal ----------

    /** Exchange entry q with a later one. */
    method MoveDown(p: int, q: int)
      requires Valid() && 0 <= p < |e| && 0 <= q < |e| && p != q
      modifies this`e, heap, e[p].node`heapLoc, e[q].node`heapLoc
      ensures Valid() && e == Swap(old(e), p, q)
    {
      assert Placed(p) && Placed(q);
      var t := heap[p];
      heap[p] := heap[q];
      heap[p].heapLoc := p;
      heap[q] := t;
      heap[q].heapLoc := q;
      e := Swap(e, p, q);
    }

    lemma DownStep(e: seq<Entry<SNode>>, q: int)
      requires 0 <= q < |e|
      ensures var p := Earlier(e, q);
              SiftDown(e, q) == if p != q && e[q].ts > e[p].ts then SiftDown(Swap(e, p, q), p) else e
    {
    }

    /** The place of the earlier child of q. */
    method ChildOf(q: int) returns (p: int)
      requires Valid() && 0 <= q < |e| && 2 * q + 1 <= lastEntry
      ensures p == Earlier(e, q) && q < p < |e|
    {
      p := q * 2 + 1;
      assert Placed(p);
      if p + 1 <= lastEntry {
        assert Placed(p + 1);
        if heap[p].timeStamp > heap[p + 1].timeStamp {
          p := p + 1;
        }
      }
    }

    /** Sift entry q down to its place. */
    method SiftFrom(start: int)
      requires Valid() && 0 <= start < |e|
      modifies this`e, heap, Nodes()`heapLoc
      ensures Valid() && e == SiftDown(old(e), start) && Nodes() == old(Nodes())
    {
      hide SiftDown, Swap, Earlier;
      var q := start;
      ghost var nodes := Nodes();
      while q * 2 + 1 <= lastEntry
        invariant Valid() && 0 <= q < |e| && SiftDown(old(e), start) == SiftDown(e, q) && Nodes() == nodes
        decreases |e| - q
      {
        var p := ChildOf(q);
        DownStep(e, q);
        assert Placed(p) && Placed(q);
        if heap[q].timeStamp > heap[p].timeStamp {
          SwapNodes(p, q);
          MoveDown(p, q);
          q := p;
        } else {
          return;
        }
      }
      Childless(e, q);
    }

    lemma Childless(e: seq<Entry<SNode>>, q: int)
      requires 0 <= q < |e| && 2 * q + 1 >= |e|
      ensures SiftDown(e, q) == e
    {
    }

    /** Put the last entry in the place of node n. */
    method Unhook(n: SNode, loc: int)
      requires Valid() && 0 <= loc == n.heapLoc < |e| && e[loc].node == n
      modifies this`e, this`lastEntry, heap, Nodes()`heapLoc
      ensures Valid() && n.heapLoc == loc
      ensures e == if loc == |old(e)| - 1 then old(e)[..loc] else old(e)[..|old(e)| - 1][loc := old(e)[|old(e)| - 1]]
      ensures forall i :: 0 <= i < |e| ==> e[i].node != n
    {
      assert Placed(lastEntry) && Placed(loc);
      heap[loc] := heap[lastEntry];
      lastEntry := lastEntry - 1;
      heap[loc].heapLoc := loc;
      ghost var last := |e| - 1;
      e := if loc == last then e[..loc] else e[..last][loc := e[last]];
    }

    /** Remove a node if it is in the heap. */
    method RemoveNode(n: SNode)
      requires Valid() && Knows(n)
      modifies this`e, this`lastEntry, heap, n`heapLoc, Nodes()`heapLoc
      ensures Valid() && n.heapLoc == -1
      ensures e == if old(n.heapLoc) >= 0 then Removed(old(e), old(n.heapLoc)) else old(e)
      ensures Nodes() == old(Nodes()) - {n}
    {
      if n.heapLoc >= 0 {
        var loc := n.heapLoc;
        Unhook(n, loc);
        NodesWithout(old(e), e, loc);
        if loc <= lastEntry {
          SiftFrom(loc);
        }
        n.heapLoc := -1;
      } else {
        NotIn(n);
      }
    }

    // ---------- The public operations ----------

    /** What update makes of the heap; loc is the place of n, or -1. */
    static function Updated(e: seq<Entry<SNode>>, loc: int, n: SNode, reschedule: bool): seq<Entry<SNode>>
      requires loc < |e|
    {
      if loc < 0 then Inserted(e, Entry(n, 1))
      else if !reschedule then e
      else if loc == 0 then e[0 := e[0].(ts := 1)]
      else Inserted(Removed(e, loc), Entry(n, 1))
    }

    /** After update the socket waits with time 1, if it was not waiting or is rescheduled; all others wait as before. */
    static lemma UpdatedHas(e: seq<Entry<SNode>>, loc: int, n: SNode, reschedule: bool)
      requires loc < |e| && (loc >= 0 ==> e[loc].node == n)
      ensures multiset(Updated(e, loc, n, reschedule))
           == if loc >= 0 && !reschedule then multiset(e)
              else (if loc < 0 then multiset(e) else multiset(e) - multiset{e[loc]}) + multiset{Entry(n, 1)}
    {
      if loc < 0 {
        InsertAdds(e, Entry(n, 1));
      } else if reschedule && loc > 0 {
        RemoveTakes(e, loc);
        InsertAdds(Removed(e, loc), Entry(n, 1));
      }
    }

    /** The socket is to send at once; if it is waiting already, only if it is to be rescheduled. */
    method Update(n: SNode, reschedule: bool)
      requires Valid() && Knows(n) && (n.heapLoc == -1 ==> lastEntry + 1 < heap.Length)
      modifies this`e, this`lastEntry, heap, n, Nodes()`heapLoc
      ensures Valid() && e == Updated(old(e), old(n.heapLoc), n, reschedule) && Nodes() == old(Nodes()) + {n}
    {
      if n.heapLoc >= 0 {
        if !reschedule {
          Member(n);
          return;
        }
        if n.heapLoc == 0 {
          ResetRoot(n);
          return;
        }
        RemoveNode(n);
        Fewer(old(e), old(n.heapLoc));
      }
      hide Inserted, Removed;
      InsertNode(1, n);
    }

    lemma Member(n: SNode)
      requires Valid() && Knows(n) && n.heapLoc >= 0
      ensures n in Nodes()
    {
    }

    static lemma Fewer(e: seq<Entry<SNode>>, loc: nat)
      requires loc < |e|
      ensures |Removed(e, loc)| == |e| - 1
    {
    }

    method ResetRoot(n: SNode)
      requires Valid() && e != [] && n == e[0].node
      modifies this`e, n`timeStamp
      ensures Valid() && e == old(e)[0 := old(e)[0].(ts := 1)] && Nodes() == old(Nodes()) + {n}
    {
      n.timeStamp := 1;
      e := e[0 := e[0].(ts := 1)];
      assert forall i :: 0 <= i < |e| ==> e[i].node == old(e)[i].node;
      InNodes();
      assert Nodes() == NodesOf(old(e));
    }

    /** Take out the first socket if its time has come. */
    method PopFirst(now: int) returns (n: SNode?)
      requires Valid()
      modifies this`e, this`lastEntry, heap, Nodes()`heapLoc
      ensures Valid()
      ensures if old(e) == [] || now < old(e)[0].ts then n == null && e == old(e)
              else n == old(e)[0].node && e == Removed(old(e), 0) && n.heapLoc == -1 && Nodes() == old(Nodes()) - {n}
    {
      if -1 == lastEntry {
        return null;
      }
      assert Placed(0);
      if now < heap[0].timeStamp {
        return null;
      }
      n := heap[0];
      InNodes();
      RemoveNode(n);
    }

    /** A turn to send.  alive says whether the first socket is connected, packed whether it has a packet to send, and
        next when it may send again (0 if it need not).  The result is the socket that sends. */
    method Pop(now: int, alive: bool, packed: bool, next: int) returns (n: SNode?)
      requires Valid()
      modifies this`e, this`lastEntry, heap, Nodes(), Nodes()`heapLoc
      ensures Valid()
      ensures if old(e) == [] || now < old(e)[0].ts then n == null && e == old(e)
              else if !alive || !packed then n == null && e == Removed(old(e), 0)
              else n == old(e)[0].node && e == if next > 0 then Inserted(Removed(old(e), 0), Entry(n, next)) else Removed(old(e), 0)
    {
      hide Valid, Removed, Inserted;
      ghost var before := e;
      if e != [] {
        FirstIn();
      }
      n := PopFirst(now);
      if n == null || !alive || !packed {
        return null;
      }
      if next > 0 {
        Room(before);
        InsertNode(next, n);
      }
    }

    lemma FirstIn()
      requires Valid() && e != []
      ensures e[0].node in Nodes() && |e| <= heap.Length
    {
    }

    lemma Room(before: seq<Entry<SNode>>)
      requires Valid() && before != [] && e == Removed(before, 0) && |before| <= heap.Length
      ensures lastEntry + 1 < heap.Length
    {
    }
  }

  /** k sockets in turn begin to wait, through update as in the program.  Nothing makes the array grow, so it has room for
      another one just if fewer than 4096 wait; what update writes for one more lies behind its end. */
  method Crowded(k: nat) returns (list: SndUList, n: SNode)
    requires k <= 4096
    ensures fresh(list) && list.Valid() && list.Knows(n) && n.heapLoc == -1 && |list.e| == k
    ensures list.lastEntry + 1 < list.heap.Length <==> k < 4096
  {
    hide SndUList.Valid;
    list := new SndUList();
    list.Placing();
    for i := 0 to k
      invariant list.Valid() && |list.e| == i == list.lastEntry + 1 && list.heap.Length == 4096
      invariant fresh(list) && fresh(list.heap) && fresh(list.Nodes())
    {
      var m := new SNode();
      list.Update(m, false);
      list.Placing();
    }
    n := new SNode();
  }
}
