/** Data packets: a payload and the message field of the packet header. */
module Packets {
  type byte = b: int | 0 <= b < 256

  /** The message field: is this the first, the last packet of its message; must the message be delivered in order;
      and its number.  (The original packs the four into one 32-bit word.) */
  datatype MsgField = MsgField(first: bool, last: bool, inOrder: bool, number: int)

  datatype Packet = Packet(payload: seq<byte>, msg: MsgField)

  datatype Option<+T> = None | Some(value: T)

  /** The bytes of a sequence of packets, in order. */
  function Concat(packets: seq<Packet>): seq<byte> {
    if packets == [] then [] else packets[0].payload + Concat(packets[1..])
  }

  lemma {:induction false} ConcatAppend(a: seq<Packet>, b: seq<Packet>)
    ensures Concat(a + b) == Concat(a) + Concat(b)
  {
    if a == [] {
      assert a + b == b;
    } else {
      ConcatAppend(a[1..], b);
      assert (a + b)[1..] == a[1..] + b;
      assert Concat(a + b) == a[0].payload + Concat(a[1..] + b);
    }
  }

  /** Cut data into packets of at most mss bytes; first says whether the first of them begins the message. */
  function Chunks(data: seq<byte>, mss: nat, first: bool, inOrder: bool, number: int): seq<Packet>
    requires mss > 0
    decreases |data|
  {
    if data == [] then []
    else if |data| <= mss then [Packet(data, MsgField(first, true, inOrder, number))]
    else [Packet(data[..mss], MsgField(first, false, inOrder, number))]
         + Chunks(data[mss..], mss, false, inOrder, number)
  }

  /** Packets that carry exactly one message: only the first is flagged first, only the last is flagged last. */
  ghost predicate OneMessage(packets: seq<Packet>, inOrder: bool, number: int) {
    forall i :: 0 <= i < |packets| ==>
      packets[i].msg == MsgField(i == 0, i == |packets| - 1, inOrder, number)
  }

  /** Cutting loses nothing: the packets are non-empty, hold at most mss bytes, frame one message and give the data
      back. */
  lemma {:induction false} ChunksFaithful(data: seq<byte>, mss: nat, inOrder: bool, number: int)
    requires mss > 0
    ensures var packets := Chunks(data, mss, true, inOrder, number);
            && Concat(packets) == data && OneMessage(packets, inOrder, number)
            && (forall i :: 0 <= i < |packets| ==> 0 < |packets[i].payload| <= mss)
            && (packets == [] <==> data == [])
  {
    TailFaithful(data, mss, true, inOrder, number);
  }

  lemma {:induction false} TailFaithful(data: seq<byte>, mss: nat, first: bool, inOrder: bool, number: int)
    requires mss > 0
    ensures var packets := Chunks(data, mss, first, inOrder, number);
            && Concat(packets) == data && (packets == [] <==> data == [])
            && (forall i :: 0 <= i < |packets| ==> 0 < |packets[i].payload| <= mss)
            && (forall i :: 0 <= i < |packets| ==>
                  packets[i].msg == MsgField(first && i == 0, i == |packets| - 1, inOrder, number))
    decreases |data|
  {
    hide Concat;
    if |data| > mss {
      TailFaithful(data[mss..], mss, false, inOrder, number);
      var head := Packet(data[..mss], MsgField(first, false, inOrder, number));
      ConcatFirst(head, Chunks(data[mss..], mss, false, inOrder, number));
      assert data[..mss] + data[mss..] == data;
    } else if data != [] {
      var only := Packet(data, MsgField(first, true, inOrder, number));
      ConcatFirst(only, []);
      ConcatNone();
      assert [only] + [] == [only] && data + [] == data;
    } else {
      ConcatNone();
    }
  }

  lemma ConcatNone()
    ensures Concat([]) == []
  {
  }

  lemma ConcatFirst(head: Packet, rest: seq<Packet>)
    ensures Concat([head] + rest) == head.payload + Concat(rest)
  {
    assert ([head] + rest)[1..] == rest;
  }

  /** Cutting makes as few packets as packets of mss bytes can be. */
  lemma {:induction false} ChunkCount(data: seq<byte>, mss: nat, first: bool, inOrder: bool, number: int)
    requires mss > 0
    ensures |data| <= mss * |Chunks(data, mss, first, inOrder, number)| < |data| + mss
    decreases |data|
  {
    if |data| > mss {
      ChunkCount(data[mss..], mss, false, inOrder, number);
      var rest := |Chunks(data[mss..], mss, false, inOrder, number)|;
      assert mss * (1 + rest) == mss + mss * rest;
    }
  }
}
