/** The list of sockets in the order in which they were last heard from, CRcvUList, and the worker's scan of it for
    sockets whose timers are due. */
module TimerList {
  class RNode {
    var timeStamp: int
    var prev: RNode?
    var next: RNode?
    var onList: bool

    constructor ()
      ensures !onList
    {
      timeStamp, prev, next, onList := 0, null, null, false;
    }
  }

  /** The nodes are distinct, and each is linked to its neighbours. */
  ghost predicate Chain(nodes: seq<RNode>)
    reads nodes`next, nodes`prev
  {
    && (forall i, j :: 0 <= i < j < |nodes| ==> nodes[i] != nodes[j])
    && (forall i {:trigger nodes[i]} :: 0 <= i < |nodes| - 1 ==> nodes[i].next == nodes[i + 1] && nodes[i + 1].prev == nodes[i])
  }

  /** The whole list: nothing before the first node, nothing behind the last. */
  ghost predicate Linked(nodes: seq<RNode>)
    reads nodes`next, nodes`prev
  {
    Chain(nodes) && (nodes != [] ==> nodes[0].prev == null && nodes[|nodes| - 1].next == null)
  }

  ghost predicate Separate(left: seq<RNode>, right: seq<RNode>) {
    forall i, j :: 0 <= i < |left| && 0 <= j < |right| ==> left[i] != right[j]
  }

  /** Earlier time stamps come first. */
  ghost predicate Sorted(nodes: seq<RNode>)
    reads nodes`timeStamp
  {
    forall i, j :: 0 <= i < j < |nodes| ==> nodes[i].timeStamp <= nodes[j].timeStamp
  }

  /** No time stamp lies in the future. */
  ghost predicate Past(nodes: seq<RNode>, now: int)
    reads nodes`timeStamp
  {
    forall i :: 0 <= i < |nodes| ==> nodes[i].timeStamp <= now
  }

  const MODULUS: int := 0x1_0000_0000_0000_0000

  /** The time before which a socket is due, computed in 64 bits without sign: one tenth of a second ago. */
  function Cutoff(currtime: int, frequency: int): int {
    (currtime - 100000 * frequency) % MODULUS
  }

  /** It lies in the past, as the scan needs to come to an end, just if the clock has run for a tenth of a second. */
  lemma CutoffPast(currtime: int, frequency: int)
    requires 0 <= currtime < MODULUS && 0 < frequency && 100000 * frequency < MODULUS
    ensures Cutoff(currtime, frequency) <= currtime <==> 100000 * frequency <= currtime
  {
    var d := currtime - 100000 * frequency;
    if d >= 0 {
      assert d % MODULUS == d;
    } else {
      assert (d + MODULUS) % MODULUS == d + MODULUS;
    }
  }

  class RcvUList {
    var head: RNode?
    var last: RNode?
    ghost var nodes: seq<RNode>

    ghost predicate Valid()
      reads this, nodes`next, nodes`prev, nodes`timeStamp, nodes`onList
    {
      Linked(nodes) && Sorted(nodes) && Ends(head, last, nodes) && Listed(nodes)
    }

    static ghost predicate Listed(nodes: seq<RNode>)
      reads nodes`onList
    {
      forall i :: 0 <= i < |nodes| ==> nodes[i].onList
    }

    static ghost predicate Ends(head: RNode?, last: RNode?, nodes: seq<RNode>) {
      && (nodes == [] ==> head == null && last == null)
      && (nodes != [] ==> head == nodes[0] && last == nodes[|nodes| - 1])
    }

    constructor ()
      ensures Valid() && nodes == []
    {
      head, last, nodes := null, null, [];
    }

    /** Link n in behind the last node. */
    method LinkLast(n: RNode)
      requires Linked(nodes) && Ends(head, last, nodes) && n !in nodes && nodes != []
      modifies this`last, this`nodes, n`prev, n`next, last`next
      ensures Linked(nodes) && Ends(head, last, nodes) && nodes == old(nodes) + [n]
    {
      n.prev := last;
      n.next := null;
      last.next := n;
      last := n;
      nodes := nodes + [n];
    }

    /** n becomes the only node. */
    method LinkFirst(n: RNode)
      requires nodes == []
      modifies this`head, this`last, this`nodes, n`prev, n`next
      ensures Linked(nodes) && Ends(head, last, nodes) && nodes == [n]
    {
      n.prev, n.next := null, null;
      last, head := n, n;
      nodes := [n];
    }

    static lemma SortedMore(nodes: seq<RNode>, n: RNode, now: int)
      requires Sorted(nodes) && Past(nodes, now)
      ensures n.timeStamp == now ==> Sorted(nodes + [n]) && Past(nodes + [n], now)
    {
      PastMore(nodes, n, now);
      hide Sorted;
      if n.timeStamp == now {
        LastInOrder(nodes, n, now);
      }
      hide Past;
    }

    static lemma PastMore(nodes: seq<RNode>, n: RNode, now: int)
      requires Past(nodes, now)
      ensures n.timeStamp == now ==> Past(nodes + [n], now)
    {
    }

    static lemma LastInOrder(nodes: seq<RNode>, n: RNode, now: int)
      requires Sorted(nodes) && Past(nodes, now) && n.timeStamp == now
      ensures Sorted(nodes + [n])
    {
      var more := nodes + [n];
      forall i, j | 0 <= i < j < |more| ensures more[i].timeStamp <= more[j].timeStamp {
        assert more[i] == nodes[i];
      }
    }

    static lemma ListedMore(nodes: seq<RNode>, n: RNode)
      requires Listed(nodes) && n.onList
      ensures Listed(nodes + [n])
    {
    }

    /** A socket enters at the end of the list. */
    method Insert(n: RNode, now: int)
      requires Valid() && n !in nodes && n.onList && Past(nodes, now)
      modifies this, n`timeStamp, n`prev, n`next, nodes`next
      ensures Valid() && nodes == old(nodes) + [n] && n.timeStamp == now && Past(nodes, now)
    {
      hide Linked, Sorted, Past, Listed;
      ListedMore(nodes, n);
      ghost var more := nodes + [n];
      n.timeStamp := now;
      SortedMore(nodes, n, now);
      if null == head {
        LinkFirst(n);
        assert [] + [n] == [n];
        assert nodes == more;
      } else {
        LinkLast(n);
      }
      assert Sorted(more) && Past(more, now) && Listed(more);
    }

    // ---------- Leaving the list ----------

    static ghost function Without(nodes: seq<RNode>, i: nat): seq<RNode>
      requires i < |nodes|
    {
      nodes[..i] + nodes[i + 1..]
    }

    /** Unlink node i from its neighbours. */
    method Unlink(n: RNode, ghost i: nat)
      requires Linked(nodes) && Ends(head, last, nodes) && i < |nodes| && n == nodes[i]
      modifies this`head, this`last, this`nodes, nodes`next, nodes`prev
      ensures nodes == Without(old(nodes), i) && Linked(nodes) && Ends(head, last, nodes)
    {
      hide Chain, Separate, Without, Linked;
      ghost var left, right := Parts(nodes, i);
      if null == n.prev {
        assert left + right == right;
        UnlinkFirst(n, right);
      } else {
        UnlinkLater(n, left, right);
      }
      nodes := left + right;
    }

    /** Node n is the first one. */
    method UnlinkFirst(n: RNode, ghost right: seq<RNode>)
      requires Chain(right) && Ends(head, last, nodes) && nodes != [] && n == nodes[0]
      requires if right == [] then n.next == null
               else n.next == right[0] && right[|right| - 1].next == null && right[|right| - 1] == nodes[|nodes| - 1]
      modifies this`head, this`last, right`prev
      ensures Linked(right) && Ends(head, last, right)
    {
      hide Chain;
      head := n.next;
      if null == head {
        NoneLinked();
        last := null;
      } else {
        NewFront(head, right);
      }
    }

    /** Node n is not the first one. */
    method UnlinkLater(n: RNode, ghost left: seq<RNode>, ghost right: seq<RNode>)
      requires Chain(left) && Chain(right) && Separate(left, right) && Ends(head, last, nodes) && nodes != []
      requires left != [] && n.prev == left[|left| - 1] && left[0].prev == null && left[0] == nodes[0]
      requires if right == [] then n.next == null
               else n.next == right[0] && right[|right| - 1].next == null && right[|right| - 1] == nodes[|nodes| - 1]
      modifies this`last, left`next, right`prev
      ensures Linked(left + right) && Ends(head, last, left + right)
    {
      hide Chain, Separate;
      if null == n.next {
        assert left + right == left;
        last := n.prev;
        NewBack(last, left);
      } else {
        Join(n.prev, n.next, left, right);
      }
    }

    static lemma NoneLinked()
      ensures Linked([])
    {
    }

    /** What comes before node i and what comes after it. */
    static lemma Parts(nodes: seq<RNode>, i: nat) returns (left: seq<RNode>, right: seq<RNode>)
      requires Linked(nodes) && i < |nodes|
      ensures Chain(left) && Chain(right) && Separate(left, right) && left + right == Without(nodes, i)
      ensures |left| == i && (forall j :: 0 <= j < |left| ==> left[j] in nodes) && forall j :: 0 <= j < |right| ==> right[j] in nodes
      ensures if left == [] then nodes[i].prev == null
              else && nodes[i].prev == left[|left| - 1] && left[|left| - 1] in nodes && left[0].prev == null
                   && left[0] == nodes[0]
      ensures if right == [] then nodes[i].next == null
              else && nodes[i].next == right[0] && right[0] in nodes && right[|right| - 1].next == null
                   && right[|right| - 1] == nodes[|nodes| - 1]
    {
      hide Chain, Separate, Linked;
      left, right := nodes[..i], nodes[i + 1..];
      FrontPart(nodes, i);
      BackPart(nodes, i);
      PartsApart(nodes, i);
    }

    static lemma FrontPart(nodes: seq<RNode>, i: nat)
      requires Linked(nodes) && i < |nodes|
      ensures Chain(nodes[..i])
      ensures if i == 0 then nodes[i].prev == null
              else nodes[i].prev == nodes[..i][i - 1] && nodes[..i][0].prev == null && nodes[..i][0] == nodes[0]
    {
      if i > 0 {
        assert nodes[i - 1].next == nodes[i];
      }
    }

    static lemma BackPart(nodes: seq<RNode>, i: nat)
      requires Linked(nodes) && i < |nodes|
      ensures Chain(nodes[i + 1..])
      ensures var right := nodes[i + 1..];
              if right == [] then nodes[i].next == null
              else nodes[i].next == right[0] && right[|right| - 1].next == null && right[|right| - 1] == nodes[|nodes| - 1]
    {
      var right := nodes[i + 1..];
      forall j | 0 <= j < |right| - 1 ensures right[j].next == right[j + 1] && right[j + 1].prev == right[j] {
        assert right[j] == nodes[i + 1 + j];
      }
    }

    static lemma PartsApart(nodes: seq<RNode>, i: nat)
      requires Linked(nodes) && i < |nodes|
      ensures Separate(nodes[..i], nodes[i + 1..])
    {
    }

    static method NewFront(head: RNode, ghost nodes: seq<RNode>)
      requires Chain(nodes) && nodes != [] && head == nodes[0] && nodes[|nodes| - 1].next == null
      modifies head`prev
      ensures Linked(nodes)
    {
      head.prev := null;
    }

    static method NewBack(last: RNode, ghost nodes: seq<RNode>)
      requires Chain(nodes) && nodes != [] && last == nodes[|nodes| - 1] && nodes[0].prev == null
      modifies last`next
      ensures Linked(nodes)
    {
      last.next := null;
    }

    static method Join(p: RNode, q: RNode, ghost left: seq<RNode>, ghost right: seq<RNode>)
      requires Chain(left) && Chain(right) && Separate(left, right) && left != [] && right != []
      requires p == left[|left| - 1] && q == right[0] && left[0].prev == null && right[|right| - 1].next == null
      modifies p`next, q`prev
      ensures Linked(left + right)
    {
      p.next := q;
      q.prev := p;
      ghost var all := left + right;
      forall j | 0 <= j < |all| - 1 ensures all[j].next == all[j + 1] && all[j + 1].prev == all[j] {
        assert all[j] == if j < |left| then left[j] else right[j - |left|];
        assert all[j + 1] == if j + 1 < |left| then left[j + 1] else right[j + 1 - |left|];
      }
    }

    static lemma OrderWithout(nodes: seq<RNode>, i: nat)
      requires Linked(nodes) && Sorted(nodes) && Listed(nodes) && i < |nodes|
      ensures Sorted(Without(nodes, i)) && Listed(Without(nodes, i)) && nodes[i] !in Without(nodes, i)
      ensures Listed(MovedLast(nodes, i)) && forall j :: 0 <= j < |Without(nodes, i)| ==> Without(nodes, i)[j] in nodes
    {
      var rest := Without(nodes, i);
      assert forall j :: 0 <= j < |rest| ==> rest[j] == nodes[if j < i then j else j + 1];
      hide Without;
      SortedPart(nodes, rest, i);
      NotAmong(nodes, rest, i);
      assert Listed(rest);
      ListedMore(rest, nodes[i]);
    }

    static lemma SortedPart(nodes: seq<RNode>, rest: seq<RNode>, i: nat)
      requires Sorted(nodes) && |rest| == |nodes| - 1
      requires forall j :: 0 <= j < |rest| ==> rest[j] == nodes[if j < i then j else j + 1]
      ensures Sorted(rest)
    {
    }

    static lemma NotAmong(nodes: seq<RNode>, rest: seq<RNode>, i: nat)
      requires Linked(nodes) && i < |nodes| && |rest| == |nodes| - 1
      requires forall j :: 0 <= j < |rest| ==> rest[j] == nodes[if j < i then j else j + 1]
      ensures nodes[i] !in rest
    {
    }

    /** A socket leaves the list. */
    method Remove(n: RNode, ghost i: nat)
      requires Valid() && (n.onList ==> i < |nodes| && n == nodes[i])
      modifies this`head, this`last, this`nodes, n`next, n`prev, nodes`next, nodes`prev
      ensures Valid() && nodes == if n.onList then Without(old(nodes), i) else old(nodes)
    {
      if !n.onList {
        return;
      }
      Leave(n, i);
    }

    method Leave(n: RNode, ghost i: nat)
      requires Valid() && i < |nodes| && n == nodes[i]
      modifies this`head, this`last, this`nodes, n`next, n`prev, nodes`next, nodes`prev
      ensures Valid() && nodes == Without(old(nodes), i)
    {
      hide Without, Sorted, Linked, Listed, Ends;
      OrderWithout(nodes, i);
      Unlink(n, i);
      assert Sorted(nodes) && Listed(nodes);
      Detach(n);
    }

    method Detach(n: RNode)
      requires Linked(nodes) && n !in nodes
      modifies n`next, n`prev
      ensures Linked(nodes)
    {
      n.next, n.prev := null, null;
    }

    static ghost function MovedLast(nodes: seq<RNode>, i: nat): seq<RNode>
      requires i < |nodes|
    {
      Without(nodes, i) + [nodes[i]]
    }

    /** A socket was heard from: it goes to the end of the list. */
    method Update(n: RNode, now: int, ghost i: nat)
      requires Valid() && Past(nodes, now) && (n.onList ==> i < |nodes| && n == nodes[i])
      modifies this`head, this`last, this`nodes, n`timeStamp, n`next, n`prev, nodes`next, nodes`prev
      ensures Valid() && Past(nodes, now) && (n.onList ==> n.timeStamp == now)
      ensures nodes == if n.onList then MovedLast(old(nodes), i) else old(nodes)
    {
      if !n.onList {
        return;
      }
      Refresh(n, now, i);
    }

    method Refresh(n: RNode, now: int, ghost i: nat)
      requires Valid() && Past(nodes, now) && i < |nodes| && n == nodes[i]
      modifies this`head, this`last, this`nodes, n`timeStamp, n`next, n`prev, nodes`next, nodes`prev
      ensures Valid() && Past(nodes, now) && n.timeStamp == now && nodes == MovedLast(old(nodes), i)
    {
      hide Without, Sorted, Past, Linked, Listed, Ends;
      OrderWithout(nodes, i);
      PastWithout(nodes, i, now);
      LastPlace(nodes, i);
      ghost var moved := MovedLast(nodes, i);
      n.timeStamp := now;
      SortedMore(Without(nodes, i), n, now);
      assert Sorted(moved) && Past(moved, now) && Listed(moved);
      // The last node stays where it is.
      if null != n.next {
        MoveLast(n, i);
        assert Sorted(moved) && Past(moved, now) && Listed(moved);
      }
    }

    /** Take node i out and link it in behind the last one. */
    method MoveLast(n: RNode, ghost i: nat)
      requires Linked(nodes) && Ends(head, last, nodes) && i < |nodes| && n == nodes[i]
      requires Without(nodes, i) != [] && n !in Without(nodes, i)
      requires forall j :: 0 <= j < |Without(nodes, i)| ==> Without(nodes, i)[j] in nodes
      modifies this`head, this`last, this`nodes, nodes`next, nodes`prev
      ensures Linked(nodes) && Ends(head, last, nodes) && nodes == MovedLast(old(nodes), i)
    {
      hide Without, Linked, Ends;
      Unlink(n, i);
      LastOf(head, last, nodes);
      LinkLast(n);
    }

    static lemma LastOf(head: RNode?, last: RNode?, nodes: seq<RNode>)
      requires Ends(head, last, nodes) && nodes != []
      ensures last == nodes[|nodes| - 1]
    {
    }

    static lemma LastPlace(nodes: seq<RNode>, i: nat)
      requires Linked(nodes) && i < |nodes|
      ensures nodes[i].next == null ==> MovedLast(nodes, i) == nodes
      ensures nodes[i].next != null ==> Without(nodes, i) != []
    {
    }

    static lemma PastWithout(nodes: seq<RNode>, i: nat, now: int)
      requires Past(nodes, now) && i < |nodes|
      ensures Past(Without(nodes, i), now)
    {
    }

    // ---------- The worker's scan ----------

    /** The nodes of the sockets that are alive. */
    static ghost function Kept(nodes: seq<RNode>, alive: set<RNode>): (r: seq<RNode>)
    {
      if nodes == [] then []
      else
        var n := nodes[|nodes| - 1];
        Kept(nodes[..|nodes| - 1], alive) + if n in alive then [n] else []
    }

    /** The first socket is alive: it is put at the end. */
    method KeepFirst(ul: RNode, now: int)
      requires Valid() && nodes != [] && Past(nodes, now) && ul == nodes[0]
      modifies this`head, this`last, this`nodes, ul`timeStamp, nodes`next, nodes`prev
      ensures Valid() && Past(nodes, now) && nodes == old(nodes)[1..] + [ul] && ul.timeStamp == now
    {
      hide Without, MovedLast, Sorted, Past, Linked, Listed, Ends;
      FrontOf();
      Update(ul, now, 0);
    }

    /** The first socket is gone: it is taken off the list. */
    method DropFirst(ul: RNode, now: int)
      requires Valid() && nodes != [] && Past(nodes, now) && ul == nodes[0]
      modifies this`head, this`last, this`nodes, nodes`next, nodes`prev, ul`onList
      ensures Valid() && Past(nodes, now) && nodes == old(nodes)[1..]
    {
      hide Without, Sorted, Past, Linked, Ends;
      FrontOf();
      PastWithout(nodes, 0, now);
      ghost var rest := nodes[1..];
      Remove(ul, 0);
      assert Past(rest, now);
      ul.onList := false;
    }

    lemma FrontOf()
      requires Valid() && nodes != []
      ensures head == nodes[0] && Without(nodes, 0) == nodes[1..] && nodes[0] !in nodes[1..]
      ensures MovedLast(nodes, 0) == nodes[1..] + [nodes[0]] && nodes[0].onList
    {
    }

    /** v of the nodes have been visited; those still alive now stand, refreshed, behind the rest. */
    ghost predicate Scanned(all: seq<RNode>, stamps: seq<int>, v: nat, alive: set<RNode>, ctime: int)
      reads this`nodes, all`timeStamp
    {
      && v <= |all| == |stamps| && nodes == all[v..] + Kept(all[..v], alive)
      && (forall i :: 0 <= i < v ==> stamps[i] < ctime && (all[i] in alive ==> all[i].timeStamp >= ctime))
      && (forall i :: v <= i < |all| ==> all[i].timeStamp == stamps[i])
    }

    static lemma {:induction false} KeptHas(all: seq<RNode>, alive: set<RNode>)
      ensures forall i :: 0 <= i < |Kept(all, alive)| ==> Kept(all, alive)[i] in all && Kept(all, alive)[i] in alive
    {
      if all != [] {
        KeptHas(all[..|all| - 1], alive);
      }
    }

    /** If the first node is due, it has not been visited yet. */
    lemma FirstIsNew(all: seq<RNode>, stamps: seq<int>, v: nat, alive: set<RNode>, ctime: int)
      requires Valid() && nodes != [] && Scanned(all, stamps, v, alive, ctime) && head.timeStamp < ctime
      ensures v < |all| && head == all[v] == nodes[0] && stamps[v] < ctime
    {
      KeptHas(all[..v], alive);
    }

    static ghost predicate NoneTwice(all: seq<RNode>) {
      forall i, j :: 0 <= i < j < |all| ==> all[i] != all[j]
    }

    /** Visit the first node, that of a socket that is alive. */
    method ScanAlive(ul: RNode, alive: set<RNode>, now: int, ghost all: seq<RNode>, ghost stamps: seq<int>, ghost v: nat,
                     ghost ctime: int)
      requires Valid() && Past(nodes, now) && ctime <= now && Scanned(all, stamps, v, alive, ctime) && NoneTwice(all)
      requires nodes != [] && v < |all| && ul == all[v] == nodes[0] && ul in alive && stamps[v] < ctime
      modifies this`head, this`last, this`nodes, ul`timeStamp, nodes`next, nodes`prev
      ensures Valid() && Past(nodes, now) && Scanned(all, stamps, v + 1, alive, ctime)
    {
      hide Valid, Past, Kept;
      ScannedNext(all, v, alive);
      KeepFirst(ul, now);
    }

    method ScanGone(ul: RNode, alive: set<RNode>, now: int, ghost all: seq<RNode>, ghost stamps: seq<int>, ghost v: nat,
                    ghost ctime: int)
      requires Valid() && Past(nodes, now) && Scanned(all, stamps, v, alive, ctime)
      requires nodes != [] && v < |all| && ul == all[v] == nodes[0] && ul !in alive && stamps[v] < ctime
      modifies this`head, this`last, this`nodes, nodes`next, nodes`prev, ul`onList
      ensures Valid() && Past(nodes, now) && Scanned(all, stamps, v + 1, alive, ctime)
    {
      hide Valid, Past, Kept;
      ScannedNext(all, v, alive);
      DropFirst(ul, now);
    }

    /** Visit the first node. */
    method ScanOne(ul: RNode, alive: set<RNode>, now: int, ghost all: seq<RNode>, ghost stamps: seq<int>, ghost v: nat,
                   ghost ctime: int)
      requires Valid() && Past(nodes, now) && ctime <= now && Scanned(all, stamps, v, alive, ctime) && NoneTwice(all)
      requires nodes != [] && ul == head && head.timeStamp < ctime
      modifies this`head, this`last, this`nodes, ul`timeStamp, nodes`next, nodes`prev, ul`onList
      ensures Valid() && Past(nodes, now) && v < |all| && ul == all[v] && Scanned(all, stamps, v + 1, alive, ctime)
    {
      FirstIsNew(all, stamps, v, alive, ctime);
      hide Valid, Past, Kept, Scanned, NoneTwice;
      if ul in alive {
        ScanAlive(ul, alive, now, all, stamps, v, ctime);
      } else {
        ScanGone(ul, alive, now, all, stamps, v, ctime);
      }
    }

    static lemma ScannedNext(all: seq<RNode>, v: nat, alive: set<RNode>)
      requires v < |all|
      ensures all[v..][1..] == all[v + 1..]
      ensures Kept(all[..v + 1], alive) == Kept(all[..v], alive) + if all[v] in alive then [all[v]] else []
      ensures (all[v..] + Kept(all[..v], alive))[1..] == all[v + 1..] + Kept(all[..v], alive)
    {
      assert all[..v + 1][..v] == all[..v];
    }

    lemma ScanStart(alive: set<RNode>, stamps: seq<int>, ctime: int)
      requires Valid() && |stamps| == |nodes| && forall i :: 0 <= i < |nodes| ==> stamps[i] == nodes[i].timeStamp
      ensures Scanned(nodes, stamps, 0, alive, ctime) && NoneTwice(nodes)
    {
      assert nodes[0..] + Kept(nodes[..0], alive) == nodes;
    }

    lemma HeadIn()
      requires Valid() && head != null
      ensures nodes != [] && head == nodes[0]
    {
    }

    static lemma Later(nodes: seq<RNode>, now: int, later: int)
      requires Past(nodes, now) && now <= later
      ensures Past(nodes, later)
    {
    }

    lemma StillAmong(all: seq<RNode>, stamps: seq<int>, v: nat, alive: set<RNode>, ctime: int)
      requires Scanned(all, stamps, v, alive, ctime)
      ensures forall i :: 0 <= i < |nodes| ==> nodes[i] in all
    {
      KeptHas(all[..v], alive);
    }

    /** When the first node is not due, no node is. */
    lemma ScanEnd(all: seq<RNode>, stamps: seq<int>, v: nat, alive: set<RNode>, ctime: int)
      requires Valid() && Scanned(all, stamps, v, alive, ctime) && (head == null || head.timeStamp >= ctime)
      ensures forall i :: 0 <= i < |all| ==> (i < v <==> stamps[i] < ctime)
      ensures nodes == all[v..] + Kept(all[..v], alive) && forall i :: 0 <= i < |nodes| ==> nodes[i].timeStamp >= ctime
    {
      forall i | v <= i < |all| ensures stamps[i] >= ctime {
        assert nodes[i - v] == all[i];
      }
    }

    static ghost predicate Monotone(clock: nat -> int) {
      forall i: nat, j: nat :: i <= j ==> clock(i) <= clock(j)
    }

    static lemma Tick(clock: nat -> int, v: nat)
      requires Monotone(clock)
      ensures clock(v) <= clock(v + 1)
    {
    }

    static ghost function Stamps(nodes: seq<RNode>): (r: seq<int>)
      reads nodes`timeStamp
      ensures |r| == |nodes| && forall i :: 0 <= i < |r| ==> r[i] == nodes[i].timeStamp
    {
      if nodes == [] then [] else Stamps(nodes[..|nodes| - 1]) + [nodes[|nodes| - 1].timeStamp]
    }

    /** The scan stands before its next visit, at time now. */
    ghost predicate InScan(all: seq<RNode>, stamps: seq<int>, v: nat, alive: set<RNode>, ctime: int, now: int)
      reads this, nodes`next, nodes`prev, nodes`timeStamp, nodes`onList, all`timeStamp
    {
      Valid() && Past(nodes, now) && ctime <= now && Scanned(all, stamps, v, alive, ctime) && NoneTwice(all)
    }

    method ScanStep(ul: RNode, alive: set<RNode>, now: int, ghost later: int, ghost all: seq<RNode>,
                    ghost stamps: seq<int>, ghost v: nat, ghost ctime: int)
      requires InScan(all, stamps, v, alive, ctime, now) && now <= later && ul == head && ul.timeStamp < ctime
      modifies this`head, this`last, this`nodes, all`timeStamp, all`next, all`prev, all`onList
      ensures InScan(all, stamps, v + 1, alive, ctime, later) && v < |all| && ul == all[v]
    {
      HeadIn();
      StillAmong(all, stamps, v, alive, ctime);
      hide Valid, Past, Scanned, NoneTwice;
      ScanOne(ul, alive, now, all, stamps, v, ctime);
      Later(nodes, now, later);
    }

    /** Visit every socket that has not been heard from since ctime: first in the list, and so on while the first one
        is due.  clock(k) is the time of visit k. */
    method Scan(ctime: int, alive: set<RNode>, clock: nat -> int) returns (visited: seq<RNode>)
      requires Valid() && Past(nodes, clock(0)) && ctime <= clock(0) && Monotone(clock)
      modifies this`head, this`last, this`nodes, nodes`timeStamp, nodes`next, nodes`prev, nodes`onList
      ensures Valid() && visited <= old(nodes)
      ensures forall i :: 0 <= i < |old(nodes)| ==> (i < |visited| <==> old(Stamps(nodes))[i] < ctime)
      ensures nodes == old(nodes)[|visited|..] + Kept(visited, alive) && forall i :: 0 <= i < |nodes| ==> nodes[i].timeStamp >= ctime
    {
      hide Valid, Past, Kept, Stamps, Scanned, NoneTwice, Monotone;
      ghost var all, stamps := nodes, Stamps(nodes);
      ScanStart(alive, stamps, ctime);
      hide InScan;
      visited := ScanAll(ctime, alive, clock, all, stamps);
      assert all[..|visited|] == visited;
      InScanEnd(all, stamps, |visited|, alive, ctime, clock(|visited|));
    }

    method ScanAll(ctime: int, alive: set<RNode>, clock: nat -> int, ghost all: seq<RNode>, ghost stamps: seq<int>)
      returns (visited: seq<RNode>)
      requires InScan(all, stamps, 0, alive, ctime, clock(0)) && Monotone(clock)
      modifies this`head, this`last, this`nodes, all`timeStamp, all`next, all`prev, all`onList
      ensures InScan(all, stamps, |visited|, alive, ctime, clock(|visited|)) && visited <= all
      ensures head == null || head.timeStamp >= ctime
    {
      hide InScan, Monotone;
      visited := [];
      var ul, v := head, 0;
      while ul != null && ul.timeStamp < ctime
        invariant InScan(all, stamps, v, alive, ctime, clock(v)) && ul == head && 0 <= v <= |all| && visited == all[..v]
        decreases |all| - v
      {
        Tick(clock, v);
        ScanStep(ul, alive, clock(v), clock(v + 1), all, stamps, v, ctime);
        visited := visited + [ul];
        v := v + 1;
        ul := head;
      }
    }

    lemma InScanEnd(all: seq<RNode>, stamps: seq<int>, v: nat, alive: set<RNode>, ctime: int, now: int)
      requires InScan(all, stamps, v, alive, ctime, now) && (head == null || head.timeStamp >= ctime)
      ensures Valid() && v <= |all| == |stamps| && forall i :: 0 <= i < |all| ==> (i < v <==> stamps[i] < ctime)
      ensures nodes == all[v..] + Kept(all[..v], alive) && forall i :: 0 <= i < |nodes| ==> nodes[i].timeStamp >= ctime
    {
      ScanEnd(all, stamps, v, alive, ctime);
    }

    // ---------- A cutoff in the future ----------

    /** Some socket on the list is alive. */
    ghost predicate AnyAlive(alive: set<RNode>)
      reads this`nodes
    {
      exists i :: 0 <= i < |nodes| && nodes[i] in alive
    }

    /** Visit the first node, whatever the cutoff. */
    method VisitFirst(ul: RNode, alive: set<RNode>, now: int, ghost later: int)
      requires Valid() && nodes != [] && Past(nodes, now) && now <= later && ul == nodes[0]
      modifies this`head, this`last, this`nodes, ul`timeStamp, nodes`next, nodes`prev, ul`onList
      ensures Valid() && Past(nodes, later)
      ensures nodes == old(nodes)[1..] + if ul in alive then [ul] else []
    {
      hide Valid, Past;
      if ul in alive {
        KeepFirst(ul, now);
      } else {
        DropFirst(ul, now);
      }
      Later(nodes, now, later);
    }

    lemma FirstDue(now: int, ctime: int)
      requires Valid() && nodes != [] && Past(nodes, now) && now < ctime
      ensures head != null && head == nodes[0] && head.timeStamp < ctime
    {
    }

    /** While the cutoff lies in the future, the scan does not come to an end as long as some socket on the list is alive:
        after any number n of visits the first one is due still. */
    method ScanOn(n: nat, ctime: int, alive: set<RNode>, clock: nat -> int)
      requires Valid() && Past(nodes, clock(0)) && Monotone(clock) && clock(n) < ctime && AnyAlive(alive)
      modifies this`head, this`last, this`nodes, nodes`timeStamp, nodes`next, nodes`prev, nodes`onList
      ensures Valid() && AnyAlive(alive) && head != null && head.timeStamp < ctime
    {
      hide Valid, Past, Monotone;
      var ul := head;
      for v := 0 to n
        invariant Valid() && Past(nodes, clock(v)) && AnyAlive(alive) && ul == head
        invariant forall i :: 0 <= i < |nodes| ==> nodes[i] in old(nodes)
      {
        Tick(clock, v);
        Rises(clock, v, n);
        FirstDue(clock(v), ctime);
        ghost var before := nodes;
        VisitFirst(ul, alive, clock(v), clock(v + 1));
        RotatesAlive(before, alive);
        ul := head;
      }
      FirstDue(clock(n), ctime);
    }

    static lemma Rises(clock: nat -> int, v: nat, n: nat)
      requires Monotone(clock) && v <= n
      ensures clock(v) <= clock(n)
    {
    }

    lemma RotatesAlive(before: seq<RNode>, alive: set<RNode>)
      requires before != [] && nodes == before[1..] + if before[0] in alive then [before[0]] else []
      requires exists i :: 0 <= i < |before| && before[i] in alive
      ensures AnyAlive(alive)
    {
      var i :| 0 <= i < |before| && before[i] in alive;
      assert nodes[if i == 0 then |nodes| - 1 else i - 1] == before[i];
    }

    /** If no socket is alive, the scan takes all of them off the list and ends. */
    method ScanOut(ctime: int, alive: set<RNode>, clock: nat -> int)
      requires Valid() && Past(nodes, clock(0)) && Monotone(clock) && clock(|nodes|) < ctime && !AnyAlive(alive)
      modifies this`head, this`last, this`nodes, nodes`timeStamp, nodes`next, nodes`prev, nodes`onList
      ensures Valid() && nodes == [] && head == null
    {
      hide Past, Monotone;
      ghost var all := nodes;
      var ul, v := head, 0;
      while ul != null && ul.timeStamp < ctime
        invariant 0 <= v <= |all| && nodes == all[v..] && Valid() && Past(nodes, clock(v)) && ul == head
        decreases |all| - v
      {
        Tick(clock, v);
        assert ul == all[v];
        VisitFirst(ul, alive, clock(v), clock(v + 1));
        v := v + 1;
        ul := head;
      }
      Rises(clock, v, |all|);
      if nodes != [] {
        FirstDue(clock(v), ctime);
      }
    }
  }
}
