/** The discovery handshake: each run of it picks an id, announces it, and binds itself to the first peer it hears of. */
module PeerMatching {
  type Id = n: int | 0 <= n < 0x1_0000_0000_0000_0000

  datatype Option<+T> = None | Some(value: T)

  datatype Msg = Hello(id: Id) | Ack(fromId: Id, toId: Id)

  /** The variables of one run. */
  datatype Node = Node(selfId: Id, peerId: Id, havePeer: bool, peerIp: string, sawHello: bool, sawAck: bool)

  function Fresh(id: Id): Node {
    Node(id, 0, false, "", false, false)
  }

  predicate Success(n: Node) {
    n.sawHello && n.sawAck && n.havePeer && n.peerIp != ""
  }

  function Bind(n: Node, id: Id, ip: string): Node {
    if n.havePeer then n else n.(peerId := id, peerIp := ip, havePeer := true)
  }

  /** A HELLO arrives; the result is the ACK to be sent. */
  function OnHello(n: Node, id: Id, ip: string): (Node, Option<Msg>) {
    if id == n.selfId then (n, None)
    else
      var n1 := Bind(n, id, ip);
      if n1.peerId == id then (n1.(sawHello := true), Some(Ack(n1.selfId, n1.peerId))) else (n1, None)
  }

  /** An ACK arrives. */
  function OnAck(n: Node, fromId: Id, toId: Id, ip: string): Node {
    if toId != n.selfId then n
    else
      var n1 := Bind(n, fromId, ip);
      if n1.peerId == fromId then n1.(sawAck := true) else n1
  }

  function OnMsg(n: Node, msg: Msg, ip: string): (Node, Option<Msg>) {
    match msg
    case Hello(id) => OnHello(n, id, ip)
    case Ack(fromId, toId) => (OnAck(n, fromId, toId, ip), None)
  }

  // ---------- Any number of nodes ----------

  /** The nodes by their ids, and every message ever sent: any of them may reach any node, any number of times. */
  datatype World = World(nodes: map<Id, Node>, sent: set<Msg>)

  datatype Event = Start(id: Id) | Announce(id: Id) | Arrives(msg: Msg, at: Id, ip: string)

  /** One event; a node starts only under an id that no node has had. */
  function Step(w: World, e: Event): World {
    match e
    case Start(id) => if id in w.nodes then w else w.(nodes := w.nodes[id := Fresh(id)])
    case Announce(id) => if id in w.nodes then w.(sent := w.sent + {Hello(id)}) else w
    case Arrives(msg, at, ip) =>
      if msg in w.sent && at in w.nodes then
        var (n, reply) := OnMsg(w.nodes[at], msg, ip);
        World(w.nodes[at := n], if reply.Some? then w.sent + {reply.value} else w.sent)
      else w
  }

  function Run(w: World, events: seq<Event>): World {
    if events == [] then w else Step(Run(w, events[..|events| - 1]), events[|events| - 1])
  }

  const EMPTY := World(map[], {})

  /** Node f is bound to node t. */
  predicate BoundTo(w: World, f: Id, t: Id) {
    f in w.nodes && w.nodes[f].havePeer && w.nodes[f].peerId == t
  }

  ghost predicate Inv(w: World) {
    && (forall i :: i in w.nodes ==> w.nodes[i].selfId == i && (w.nodes[i].havePeer ==> w.nodes[i].peerId != i))
    && (forall i :: Hello(i) in w.sent ==> i in w.nodes)
    && (forall f, t :: Ack(f, t) in w.sent ==> BoundTo(w, f, t) && f != t)
    && (forall i :: i in w.nodes && w.nodes[i].sawAck ==>
          w.nodes[i].havePeer && Ack(w.nodes[i].peerId, i) in w.sent)
    && (forall i :: i in w.nodes && w.nodes[i].havePeer ==> w.nodes[i].peerId in w.nodes)
  }

  lemma StepKeeps(w: World, e: Event)
    requires Inv(w)
    ensures Inv(Step(w, e))
    ensures forall f, t :: BoundTo(w, f, t) ==> BoundTo(Step(w, e), f, t)
  {
    if e.Arrives? && e.msg in w.sent && e.at in w.nodes {
      match e.msg
      case Hello(id) => HelloKeeps(w, id, e.at, e.ip);
      case Ack(fromId, toId) => AckKeeps(w, fromId, toId, e.at, e.ip);
      hide Inv;
    }
  }

  lemma HelloKeeps(w: World, id: Id, at: Id, ip: string)
    requires Inv(w) && Hello(id) in w.sent && at in w.nodes
    ensures var w2 := Step(w, Arrives(Hello(id), at, ip));
            Inv(w2) && forall f, t :: BoundTo(w, f, t) ==> BoundTo(w2, f, t)
  {
  }

  lemma AckKeeps(w: World, fromId: Id, toId: Id, at: Id, ip: string)
    requires Inv(w) && Ack(fromId, toId) in w.sent && at in w.nodes
    ensures var w2 := Step(w, Arrives(Ack(fromId, toId), at, ip));
            Inv(w2) && forall f, t :: BoundTo(w, f, t) ==> BoundTo(w2, f, t)
  {
  }

  lemma {:induction false} RunKeeps(w: World, events: seq<Event>)
    requires Inv(w)
    ensures Inv(Run(w, events))
    ensures forall f, t :: BoundTo(w, f, t) ==> BoundTo(Run(w, events), f, t)
  {
    if events != [] {
      RunKeeps(w, events[..|events| - 1]);
      hide Inv, BoundTo;
      StepKeeps(Run(w, events[..|events| - 1]), events[|events| - 1]);
    }
  }

  lemma {:induction false} RunOn(w: World, first: seq<Event>, then_: seq<Event>)
    ensures Run(w, first + then_) == Run(Run(w, first), then_)
    decreases |then_|
  {
    if then_ == [] {
      assert first + then_ == first;
    } else {
      assert (first + then_)[..|first + then_| - 1] == first + then_[..|then_| - 1];
      RunOn(w, first, then_[..|then_| - 1]);
    }
  }

  /** A node never changes its peer, and is never its own. */
  lemma PeerIsFinal(past: seq<Event>, future: seq<Event>, a: Id, b: Id)
    requires BoundTo(Run(EMPTY, past), a, b)
    ensures a != b && BoundTo(Run(EMPTY, past + future), a, b)
  {
    RunKeeps(EMPTY, past);
    RunOn(EMPTY, past, future);
    RunKeeps(Run(EMPTY, past), future);
  }

  /** If a succeeds with peer b, then b is bound to a, for good. */
  lemma SuccessBinds(past: seq<Event>, future: seq<Event>, a: Id)
    requires a in Run(EMPTY, past).nodes && Success(Run(EMPTY, past).nodes[a])
    ensures BoundTo(Run(EMPTY, past + future), Run(EMPTY, past).nodes[a].peerId, a)
    ensures BoundTo(Run(EMPTY, past + future), a, Run(EMPTY, past).nodes[a].peerId)
  {
    var w := Run(EMPTY, past);
    RunKeeps(EMPTY, past);
    assert Ack(w.nodes[a].peerId, a) in w.sent;
    assert BoundTo(w, w.nodes[a].peerId, a) && BoundTo(w, a, w.nodes[a].peerId);
    RunOn(EMPTY, past, future);
    RunKeeps(w, future);
  }

  /** No two nodes succeed with the same peer, even at different times. */
  lemma NoSharedPeer(past: seq<Event>, future: seq<Event>, a1: Id, a2: Id)
    requires a1 in Run(EMPTY, past).nodes && Success(Run(EMPTY, past).nodes[a1])
    requires a2 in Run(EMPTY, past + future).nodes && Success(Run(EMPTY, past + future).nodes[a2])
    requires Run(EMPTY, past).nodes[a1].peerId == Run(EMPTY, past + future).nodes[a2].peerId
    ensures a1 == a2
  {
    SuccessBinds(past, future, a1);
    SuccessBinds(past + future, [], a2);
    assert past + future + [] == past + future;
  }

  /** The peer of a node that has succeeded need not have succeeded itself: the last ACK may be lost. */
  lemma OneSided()
    ensures exists events: seq<Event>, a: Id :: a in Run(EMPTY, events).nodes && Success(Run(EMPTY, events).nodes[a])
              && Run(EMPTY, events).nodes[a].peerId in Run(EMPTY, events).nodes
              && !Success(Run(EMPTY, events).nodes[Run(EMPTY, events).nodes[a].peerId])
  {
    var starts := [Start(1), Start(2), Announce(1), Announce(2)];
    Starting(starts);
    var e5, e6 := starts + [Arrives(Hello(2), 1, "10.0.0.2")], Arrives(Hello(1), 2, "10.0.0.1");
    var e7 := Arrives(Ack(2, 1), 1, "10.0.0.2");
    RunStep(starts, Arrives(Hello(2), 1, "10.0.0.2"));
    RunStep(e5, e6);
    RunStep(e5 + [e6], e7);
    hide Run;
    var w7 := Run(EMPTY, e5 + [e6] + [e7]);
    assert Success(w7.nodes[1]) && w7.nodes[1].peerId == 2 && !Success(w7.nodes[2]);
  }

  lemma RunStep(events: seq<Event>, e: Event)
    ensures Run(EMPTY, events + [e]) == Step(Run(EMPTY, events), e)
  {
    assert (events + [e])[..|events|] == events;
  }

  lemma Starting(starts: seq<Event>)
    requires starts == [Start(1), Start(2), Announce(1), Announce(2)]
    ensures Run(EMPTY, starts) == World(map[1 := Fresh(1), 2 := Fresh(2)], {Hello(1), Hello(2)})
  {
    RunStep([], Start(1));
    RunStep([] + [Start(1)], Start(2));
    RunStep([] + [Start(1)] + [Start(2)], Announce(1));
    RunStep([] + [Start(1)] + [Start(2)] + [Announce(1)], Announce(2));
    assert starts == [] + [Start(1)] + [Start(2)] + [Announce(1)] + [Announce(2)];
  }

  // ---------- When success is mutual ----------

  /** Some event of the run delivers Ack(f, t) to t: it had been sent by then, and t had started. */
  ghost predicate Delivered(events: seq<Event>, f: Id, t: Id) {
    exists k :: 0 <= k < |events| && DeliveredAt(events, k, f, t)
  }

  ghost predicate DeliveredAt(events: seq<Event>, k: nat, f: Id, t: Id)
    requires k < |events|
  {
    var w := Run(EMPTY, events[..k]);
    && events[k].Arrives? && events[k].msg == Ack(f, t) && events[k].at == t
    && Ack(f, t) in w.sent && t in w.nodes
  }

  /** Whoever sends an ACK has seen the HELLO it answers, and whoever has a peer knows its address. */
  ghost predicate Heard(w: World) {
    && (forall f, t :: Ack(f, t) in w.sent ==> f in w.nodes && w.nodes[f].sawHello)
    && (forall i :: i in w.nodes && w.nodes[i].havePeer ==> w.nodes[i].peerIp != "")
  }

  /** Packets come from an address. */
  predicate Addressed(events: seq<Event>) {
    forall k :: 0 <= k < |events| && events[k].Arrives? ==> events[k].ip != ""
  }

  lemma {:induction false} RunHeard(events: seq<Event>)
    requires Addressed(events)
    ensures Heard(Run(EMPTY, events))
  {
    if events != [] {
      RunKeeps(EMPTY, events[..|events| - 1]);
      RunHeard(events[..|events| - 1]);
      StepHeard(Run(EMPTY, events[..|events| - 1]), events[|events| - 1]);
    }
  }

  lemma StepHeard(w: World, e: Event)
    requires Inv(w) && Heard(w) && (e.Arrives? ==> e.ip != "")
    ensures Heard(Step(w, e))
  {
  }

  lemma DeliveredLater(events: seq<Event>, f: Id, t: Id)
    requires events != [] && Delivered(events[..|events| - 1], f, t)
    ensures Delivered(events, f, t)
  {
    var before := events[..|events| - 1];
    var k :| 0 <= k < |before| && DeliveredAt(before, k, f, t);
    assert before[..k] == events[..k];
    assert DeliveredAt(events, k, f, t);
  }

  /** Whoever has seen the ACK of its peer was delivered it. */
  lemma {:induction false} SawDelivered(events: seq<Event>, t: Id)
    requires t in Run(EMPTY, events).nodes && Run(EMPTY, events).nodes[t].sawAck
    ensures Delivered(events, Run(EMPTY, events).nodes[t].peerId, t)
  {
    var n := |events| - 1;
    var w, e := Run(EMPTY, events[..n]), events[n];
    RunKeeps(EMPTY, events[..n]);
    if t in w.nodes && w.nodes[t].sawAck {
      SawDelivered(events[..n], t);
      SawStays(w, e, t);
      DeliveredLater(events, w.nodes[t].peerId, t);
    } else {
      SawNow(w, e, t);
      assert DeliveredAt(events, n, Step(w, e).nodes[t].peerId, t);
    }
  }

  /** What a node has seen, and the peer it is bound to, stays. */
  lemma SawStays(w: World, e: Event, t: Id)
    requires Inv(w) && t in w.nodes && w.nodes[t].sawAck
    ensures var w2 := Step(w, e); t in w2.nodes && w2.nodes[t].sawAck && w2.nodes[t].peerId == w.nodes[t].peerId
  {
  }

  lemma SawNow(w: World, e: Event, t: Id)
    requires Inv(w) && t in Step(w, e).nodes && Step(w, e).nodes[t].sawAck && !(t in w.nodes && w.nodes[t].sawAck)
    ensures e.Arrives? && e.at == t && e.msg == Ack(Step(w, e).nodes[t].peerId, t) && e.msg in w.sent && t in w.nodes
  {
  }

  lemma {:induction false} SawStaysOn(w: World, events: seq<Event>, t: Id)
    requires Inv(w) && t in w.nodes && w.nodes[t].sawAck
    ensures t in Run(w, events).nodes && Run(w, events).nodes[t].sawAck
  {
    if events != [] {
      SawStaysOn(w, events[..|events| - 1], t);
      RunKeeps(w, events[..|events| - 1]);
      SawStays(Run(w, events[..|events| - 1]), events[|events| - 1], t);
    }
  }

  /** Whoever is delivered the ACK of the node it is bound to in the end has seen it. */
  lemma DeliveredSaw(events: seq<Event>, f: Id, t: Id)
    requires Delivered(events, f, t) && BoundTo(Run(EMPTY, events), t, f)
    ensures Run(EMPTY, events).nodes[t].sawAck
  {
    var k :| 0 <= k < |events| && DeliveredAt(events, k, f, t);
    var past, rest := events[..k] + [events[k]], events[k + 1..];
    assert events == past + rest;
    RunKeeps(EMPTY, past);
    RunOn(EMPTY, past, rest);
    RunStep(events[..k], events[k]);
    var w := Run(EMPTY, past);
    Binds(Run(EMPTY, events[..k]), events[k], f, t);
    RunKeeps(w, rest);
    assert BoundTo(w, t, w.nodes[t].peerId);
    SawStaysOn(w, rest, t);
  }

  /** A node that is delivered an ACK is bound from then on, and has seen it unless it is bound to another node. */
  lemma Binds(w: World, e: Event, f: Id, t: Id)
    requires e.Arrives? && e.msg == Ack(f, t) && e.at == t && e.msg in w.sent && t in w.nodes && w.nodes[t].selfId == t
    ensures var w2 := Step(w, e); t in w2.nodes && w2.nodes[t].havePeer && (w2.nodes[t].peerId == f ==> w2.nodes[t].sawAck)
  {
  }

  /** When a node succeeds, its peer succeeds too just if the ACK that the node sends it arrives. */
  lemma MutualJustIf(events: seq<Event>, a: Id)
    requires Addressed(events) && a in Run(EMPTY, events).nodes && Success(Run(EMPTY, events).nodes[a])
    ensures var w, b := Run(EMPTY, events), Run(EMPTY, events).nodes[a].peerId;
            b in w.nodes && (Success(w.nodes[b]) <==> Delivered(events, a, b))
  {
    var w := Run(EMPTY, events);
    var b := w.nodes[a].peerId;
    RunKeeps(EMPTY, events);
    RunHeard(events);
    assert BoundTo(w, b, a) && w.nodes[b].sawHello;
    if Delivered(events, a, b) {
      DeliveredSaw(events, a, b);
    }
    if w.nodes[b].sawAck {
      SawDelivered(events, b);
    }
  }

  // ---------- The address of the peer ----------

  function SenderOf(msg: Msg): Id {
    match msg
    case Hello(id) => id
    case Ack(fromId, _) => fromId
  }

  /** Event k brought node i a message of node f from this address. */
  ghost predicate HeardAt(events: seq<Event>, k: nat, i: Id, f: Id, ip: string)
    requires k < |events|
  {
    && events[k].Arrives? && events[k].at == i && events[k].ip == ip
    && events[k].msg in Run(EMPTY, events[..k]).sent && SenderOf(events[k].msg) == f
  }

  /** The address that a node reports for its peer is one from which a message of that peer came. */
  lemma {:induction false} AddressHeard(events: seq<Event>, i: Id)
    requires i in Run(EMPTY, events).nodes && Run(EMPTY, events).nodes[i].havePeer
    ensures var n := Run(EMPTY, events).nodes[i]; exists k :: 0 <= k < |events| && HeardAt(events, k, i, n.peerId, n.peerIp)
  {
    var last := |events| - 1;
    var before := events[..last];
    var w := Run(EMPTY, before);
    if i in w.nodes && w.nodes[i].havePeer {
      AddressHeard(before, i);
      AddressStays(w, events[last], i);
      var k :| 0 <= k < |before| && HeardAt(before, k, i, w.nodes[i].peerId, w.nodes[i].peerIp);
      assert before[..k] == events[..k];
      assert HeardAt(events, k, i, w.nodes[i].peerId, w.nodes[i].peerIp);
    } else {
      var n := Run(EMPTY, events).nodes[i];
      assert HeardAt(events, last, i, n.peerId, n.peerIp);
    }
  }

  lemma AddressStays(w: World, e: Event, i: Id)
    requires i in w.nodes && w.nodes[i].havePeer
    ensures i in Step(w, e).nodes
    ensures var n := Step(w, e).nodes[i]; n.havePeer && n.peerId == w.nodes[i].peerId && n.peerIp == w.nodes[i].peerIp
  {
  }

  /** It never changes. */
  lemma {:induction false} AddressIsFinal(w: World, future: seq<Event>, i: Id)
    requires i in w.nodes && w.nodes[i].havePeer
    ensures i in Run(w, future).nodes
    ensures var n := Run(w, future).nodes[i]; n.havePeer && n.peerId == w.nodes[i].peerId && n.peerIp == w.nodes[i].peerIp
  {
    if future != [] {
      AddressIsFinal(w, future[..|future| - 1], i);
      AddressStays(Run(w, future[..|future| - 1]), future[|future| - 1], i);
    }
  }

  // ---------- When both can still succeed ----------

  /** Everything under way is lost. */
  function Blackout(w: World): World {
    w.(sent := {})
  }

  /** The node that does something in an event. */
  function Actor(e: Event): Option<Id> {
    match e
    case Start(_) => None
    case Announce(id) => Some(id)
    case Arrives(_, at, _) => Some(at)
  }

  /** In a future that begins at world first: a run of the handshake that has ended does nothing, nor does one that has
      succeeded since. */
  predicate Acts(first: World, ended: set<Id>, w: World, e: Event) {
    match Actor(e)
    case None => true
    case Some(id) =>
      id !in ended && (id in w.nodes && Success(w.nodes[id]) ==> id in first.nodes && Success(first.nodes[id]))
  }

  ghost predicate Possible(w: World, ended: set<Id>, events: seq<Event>) {
    Addressed(events) && forall k :: 0 <= k < |events| ==> Acts(w, ended, Run(w, events[..k]), events[k])
  }

  /** Both have succeeded, with each other. */
  predicate Matched(w: World, a: Id, b: Id) {
    BoundTo(w, a, b) && BoundTo(w, b, a) && Success(w.nodes[a]) && Success(w.nodes[b])
  }

  ghost predicate CanMatch(w: World, ended: set<Id>, a: Id, b: Id) {
    exists future :: Possible(w, ended, future) && Matched(Run(w, future), a, b)
  }

  /** Node f is bound to t, or to none yet. */
  predicate Open(w: World, f: Id, t: Id) {
    f in w.nodes && (w.nodes[f].havePeer ==> w.nodes[f].peerId == t)
  }

  /** What is true of a node in every run in which datagrams come from an address. */
  ghost predicate Sane(w: World, i: Id) {
    i in w.nodes && w.nodes[i].selfId == i && (w.nodes[i].havePeer ==> w.nodes[i].peerIp != "")
  }

  /** A HELLO of another node is answered whenever the node is bound to it or to none, every time it comes. */
  lemma HelloAnswered(n: Node, id: Id, ip: string)
    requires id != n.selfId && (n.havePeer ==> n.peerId == id)
    ensures var (n2, reply) := OnHello(n, id, ip);
            && reply == Some(Ack(n.selfId, id)) && n2.sawHello && n2.havePeer && n2.peerId == id && n2.sawAck == n.sawAck
  {
  }

  /** One more event. */
  lemma More(w: World, ended: set<Id>, events: seq<Event>, e: Event)
    requires Possible(w, ended, events) && Acts(w, ended, Run(w, events), e) && (e.Arrives? ==> e.ip != "")
    ensures Run(w, events + [e]) == Step(Run(w, events), e) && Possible(w, ended, events + [e])
  {
    var more := events + [e];
    assert more[..|events|] == events;
    hide Acts, Run;
    forall k | 0 <= k < |more| ensures Acts(w, ended, Run(w, more[..k]), more[k]) {
      if k < |events| {
        assert more[..k] == events[..k];
      }
    }
  }

  lemma NoEvents(w: World, ended: set<Id>)
    ensures Possible(w, ended, []) && Run(w, []) == w
  {
  }

  /** The two announce themselves, and the two HELLOs arrive. */
  lemma Greet(w: World, ended: set<Id>, a: Id, b: Id) returns (events: seq<Event>)
    requires a != b && Sane(w, a) && Sane(w, b) && Open(w, a, b) && Open(w, b, a) && a !in ended && b !in ended
    ensures Possible(w, ended, events)
    ensures var w2 := Run(w, events);
            && BoundTo(w2, a, b) && BoundTo(w2, b, a) && Sane(w2, a) && Sane(w2, b)
            && w2.nodes[a].sawHello && w2.nodes[b].sawHello && Ack(a, b) in w2.sent && Ack(b, a) in w2.sent
  {
    hide Possible;
    NoEvents(w, ended);
    var e1, e2, e3, e4 := Announce(a), Announce(b), Arrives(Hello(b), a, "b"), Arrives(Hello(a), b, "a");
    More(w, ended, [], e1);
    More(w, ended, [] + [e1], e2);
    More(w, ended, [] + [e1] + [e2], e3);
    hide Run;
    HelloAnswered(w.nodes[a], b, "b");
    HelloAnswered(w.nodes[b], a, "a");
    More(w, ended, [] + [e1] + [e2] + [e3], e4);
    events := [] + [e1] + [e2] + [e3] + [e4];
  }

  /** The ACK of node f arrives at node t, if that still waits for it. */
  lemma AckComes(w: World, ended: set<Id>, past: seq<Event>, f: Id, t: Id) returns (events: seq<Event>)
    requires Possible(w, ended, past) && f != t && t !in ended
    requires var w1 := Run(w, past); BoundTo(w1, t, f) && Sane(w1, t) && w1.nodes[t].sawHello && Ack(f, t) in w1.sent
    ensures Possible(w, ended, events)
    ensures var (w1, w2) := (Run(w, past), Run(w, events));
            && BoundTo(w2, t, f) && Success(w2.nodes[t]) && w2.nodes.Keys == w1.nodes.Keys && w2.sent == w1.sent
            && forall i :: i in w1.nodes && i != t ==> w2.nodes[i] == w1.nodes[i]
  {
    hide Possible, Run;
    if Success(Run(w, past).nodes[t]) {
      events := past;
    } else {
      More(w, ended, past, Arrives(Ack(f, t), t, "f"));
      events := past + [Arrives(Ack(f, t), t, "f")];
    }
  }

  /** From such a state the two can match. */
  lemma Match(w: World, ended: set<Id>, a: Id, b: Id)
    requires a != b && Sane(w, a) && Sane(w, b) && Open(w, a, b) && Open(w, b, a) && a !in ended && b !in ended
    ensures CanMatch(w, ended, a, b)
  {
    hide Possible, Run;
    var first := Greet(w, ended, a, b);
    var second := AckComes(w, ended, first, b, a);
    var third := AckComes(w, ended, second, a, b);
    assert Matched(Run(w, third), a, b);
  }

  // The other half

  /** A node that is bound stays bound to the same peer, and one whose run has ended does not change. */
  lemma StepStays(first: World, ended: set<Id>, w: World, e: Event, i: Id)
    requires i in w.nodes && Acts(first, ended, w, e)
    ensures var w2 := Step(w, e);
            && i in w2.nodes && (i in ended ==> w2.nodes[i] == w.nodes[i])
            && (w.nodes[i].havePeer ==> w2.nodes[i].havePeer && w2.nodes[i].peerId == w.nodes[i].peerId)
  {
  }

  lemma {:induction false} RunStays(w: World, ended: set<Id>, events: seq<Event>, i: Id)
    requires i in w.nodes && Possible(w, ended, events)
    ensures var w2 := Run(w, events);
            && i in w2.nodes && (i in ended ==> w2.nodes[i] == w.nodes[i])
            && (w.nodes[i].havePeer ==> w2.nodes[i].havePeer && w2.nodes[i].peerId == w.nodes[i].peerId)
  {
    if events != [] {
      var n := |events| - 1;
      PossibleBefore(w, ended, events);
      RunStays(w, ended, events[..n], i);
      StepStays(w, ended, Run(w, events[..n]), events[n], i);
    }
  }

  lemma PossibleBefore(w: World, ended: set<Id>, events: seq<Event>)
    requires Possible(w, ended, events) && events != []
    ensures Possible(w, ended, events[..|events| - 1])
  {
    var before := events[..|events| - 1];
    forall k | 0 <= k < |before| ensures Acts(w, ended, Run(w, before[..k]), before[k]) {
      assert before[..k] == events[..k];
    }
  }

  /** The run of node a has ended; node b waits for its ACK, which is not under way. */
  ghost predicate Waits(w: World, a: Id, b: Id) {
    && BoundTo(w, b, a) && !w.nodes[b].sawAck
    && Ack(a, b) !in w.sent && forall i :: i in w.nodes ==> w.nodes[i].selfId == i
  }

  lemma WaitsOn(first: World, ended: set<Id>, w: World, e: Event, a: Id, b: Id)
    requires Waits(w, a, b) && a != b && a in ended && Acts(first, ended, w, e)
    ensures Waits(Step(w, e), a, b)
  {
  }

  lemma {:induction false} WaitsForEver(w: World, ended: set<Id>, events: seq<Event>, a: Id, b: Id)
    requires Waits(w, a, b) && a != b && a in ended && Possible(w, ended, events)
    ensures Waits(Run(w, events), a, b)
  {
    if events != [] {
      var n := |events| - 1;
      PossibleBefore(w, ended, events);
      WaitsForEver(w, ended, events[..n], a, b);
      WaitsOn(w, ended, Run(w, events[..n]), events[n], a, b);
    }
  }

  /** If the run of a has ended, and not both have succeeded, the two cannot match any more. */
  lemma TooLate(past: seq<Event>, ended: set<Id>, a: Id, b: Id)
    requires Addressed(past) && a != b && a in ended
    requires var w := Run(EMPTY, past);
             a in w.nodes && Open(w, a, b) && b in w.nodes && !(Success(w.nodes[a]) && Success(w.nodes[b]))
    ensures !CanMatch(Blackout(Run(EMPTY, past)), ended, a, b)
  {
    var w := Run(EMPTY, past);
    if Success(w.nodes[a]) {
      LeftWaiting(past, a, b);
    }
    hide Run;
    forall future | Possible(Blackout(w), ended, future) ensures !Matched(Run(Blackout(w), future), a, b) {
      if Success(w.nodes[a]) {
        WaitsForEver(Blackout(w), ended, future, a, b);
      } else {
        RunStays(Blackout(w), ended, future, a);
      }
    }
  }

  lemma LeftWaiting(past: seq<Event>, a: Id, b: Id)
    requires Addressed(past) && a != b
    requires var w := Run(EMPTY, past);
             a in w.nodes && Open(w, a, b) && b in w.nodes && Success(w.nodes[a]) && !Success(w.nodes[b])
    ensures Waits(Blackout(Run(EMPTY, past)), a, b)
  {
    var w := Run(EMPTY, past);
    RunKeeps(EMPTY, past);
    RunHeard(past);
    SuccessBinds(past, [], a);
    assert past + [] == past;
    hide Run;
    assert Ack(b, a) in w.sent;
  }

  /** After any run, even if everything under way is lost then, and the runs of some nodes have ended, two nodes can still
      succeed with each other just if neither is bound to another node, and, if the run of one has ended, both have. */
  lemma MatchJustIf(past: seq<Event>, ended: set<Id>, a: Id, b: Id)
    requires Addressed(past) && a != b && a in Run(EMPTY, past).nodes && b in Run(EMPTY, past).nodes
    ensures var w := Run(EMPTY, past);
            CanMatch(Blackout(w), ended, a, b) <==>
              && Open(w, a, b) && Open(w, b, a)
              && (a in ended || b in ended ==> Success(w.nodes[a]) && Success(w.nodes[b]))
  {
    var w := Run(EMPTY, past);
    RunKeeps(EMPTY, past);
    RunHeard(past);
    hide Run, CanMatch;
    assert Sane(Blackout(w), a) && Sane(Blackout(w), b);
    if Open(w, a, b) && Open(w, b, a) {
      if Success(w.nodes[a]) && Success(w.nodes[b]) {
        Already(Blackout(w), ended, a, b);
      } else if a in ended {
        TooLate(past, ended, a, b);
      } else if b in ended {
        TooLate(past, ended, b, a);
        Symmetric(Blackout(w), ended, a, b);
      } else {
        Match(Blackout(w), ended, a, b);
      }
    } else {
      Taken(Blackout(w), ended, a, b);
    }
  }

  lemma Already(w: World, ended: set<Id>, a: Id, b: Id)
    requires Matched(w, a, b)
    ensures CanMatch(w, ended, a, b)
  {
    NoEvents(w, ended);
    assert Matched(Run(w, []), a, b);
  }

  lemma Symmetric(w: World, ended: set<Id>, a: Id, b: Id)
    ensures CanMatch(w, ended, a, b) ==> CanMatch(w, ended, b, a)
  {
    hide Run, Possible;
    if CanMatch(w, ended, a, b) {
      var future :| Possible(w, ended, future) && Matched(Run(w, future), a, b);
      assert Matched(Run(w, future), b, a);
    }
  }

  lemma Taken(w: World, ended: set<Id>, a: Id, b: Id)
    requires a in w.nodes && b in w.nodes && (!Open(w, a, b) || !Open(w, b, a))
    ensures !CanMatch(w, ended, a, b)
  {
    hide Run, Possible;
    forall future | Possible(w, ended, future) ensures !Matched(Run(w, future), a, b) {
      RunStays(w, ended, future, a);
      RunStays(w, ended, future, b);
    }
  }
}
