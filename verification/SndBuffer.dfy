/** The send buffer, CSndBuffer: a circular linked list of blocks with three cursors that grows while in use.
    It refines a queue of packets, the first of them not yet acknowledged, with a mark on the next one to send. */
module SndBuf {
  import opened Packets

  class Block {
    var data: seq<byte>
    var msg: MsgField
    var next: Block?

    constructor ()
      ensures next == null
    {
      data, msg, next := [], MsgField(false, false, false, 0), null;
    }
  }

  const MAX_MSG_NO: int := 0x1FFF_FFFF

  function NextMsgNo(n: int): int {
    if n + 1 == MAX_MSG_NO then 1 else n + 1
  }

  /** The number of message k, counted from 0. */
  function MsgNoOf(k: nat): int {
    if k == 0 then 1 else NextMsgNo(MsgNoOf(k - 1))
  }

  lemma {:induction false} MsgNoIs(k: nat)
    ensures MsgNoOf(k) == 1 + k % (MAX_MSG_NO - 1)
  {
    if k > 0 {
      MsgNoIs(k - 1);
    }
  }

  /** Messages are numbered from 1 to 2^29 - 2, round and round; two that are not so far apart have different numbers. */
  lemma NumbersApart(j: nat, k: nat)
    requires j < k < j + MAX_MSG_NO - 1
    ensures MsgNoOf(j) != MsgNoOf(k) && 1 <= MsgNoOf(k) < MAX_MSG_NO
  {
    MsgNoIs(j);
    MsgNoIs(k);
    hide MsgNoOf;
    var m := MAX_MSG_NO - 1;
    assert k - j == (k / m - j / m) * m + (k % m - j % m);
    NoMultiple(k / m - j / m, m);
  }

  lemma NoMultiple(q: int, m: nat)
    ensures !(0 < q * m < m)
  {
    if q >= 1 {
      assert q * m == (q - 1) * m + m;
    }
  }

  class SndBuffer {
    const mss: nat
    const unitSize: nat
    var firstBlock: Block
    var currBlock: Block
    var lastBlock: Block
    var nextMsgNo: int
    var size: int
    var count: int

    // The blocks in the order of the cycle from the first on, the packets waiting in them, and how many of those
    // have been read for sending.
    ghost var ring: seq<Block>
    ghost var queue: seq<Packet>
    ghost var curr: nat
    ghost var repr: set<Block>

    /** Distinct blocks, each linked to the next. */
    static ghost predicate Path(ring: seq<Block>)
      reads ring
    {
      && (forall i, j :: 0 <= i < j < |ring| ==> ring[i] != ring[j])
      && (forall i :: 0 <= i < |ring| - 1 ==> ring[i].next == ring[i + 1])
    }

    /** The blocks are distinct and form one cycle. */
    static ghost predicate Cycle(ring: seq<Block>)
      reads ring
    {
      Path(ring) && (|ring| > 0 ==> ring[|ring| - 1].next == ring[0])
    }

    static ghost predicate Within(ring: seq<Block>, repr: set<Block>) {
      forall i :: 0 <= i < |ring| ==> ring[i] in repr
    }

    static ghost predicate Carries(ring: seq<Block>, queue: seq<Packet>)
      reads ring
    {
      && |queue| <= |ring|
      && forall i :: 0 <= i < |queue| ==> Packet(ring[i].data, ring[i].msg) == queue[i]
    }

    ghost predicate Valid()
      reads this, ring
    {
      && Within(ring, repr)
      && 0 < mss && 0 < unitSize
      && size == |ring| && count == |queue| < size && curr <= count
      && Cycle(ring) && Carries(ring, queue)
      && firstBlock == ring[0] && currBlock == ring[curr] && lastBlock == ring[count]
    }

    lemma CountIs()
      requires Valid()
      ensures count == |queue| && curr <= |queue|
    {
    }

    /** n new blocks in a row; the last one is not linked on yet. */
    static method Chain(n: nat) returns (first: Block, last: Block, ghost blocks: seq<Block>)
      requires n > 0
      ensures |blocks| == n && first == blocks[0] && last == blocks[n - 1] && Path(blocks)
      ensures forall i :: 0 <= i < n ==> fresh(blocks[i])
    {
      first := new Block();
      last := first;
      blocks := [first];
      for i := 1 to n
        invariant |blocks| == i && first == blocks[0] && last == blocks[i - 1]
        invariant forall k :: 0 <= k < i ==> fresh(blocks[k])
        invariant Path(blocks)
      {
        var b := new Block();
        last.next := b;
        last := b;
        blocks := blocks + [b];
      }
    }

    constructor (size: nat, mss: nat)
      requires 0 < size && 0 < mss
      ensures Valid() && queue == [] && curr == 0 && this.mss == mss && nextMsgNo == 1
      ensures fresh(repr)
    {
      var first, last, blocks := Chain(size);
      last.next := first;
      this.mss, unitSize := mss, size;
      this.size, count := size, 0;
      firstBlock, currBlock, lastBlock := first, first, first;
      nextMsgNo := 1;
      ring, queue, curr := blocks, [], 0;
      repr := set b | b in blocks;
    }

    /** Link a chain of new blocks in after the last block. */
    method Increase()
      requires Valid()
      modifies this`size, this`ring, this`repr, repr
      ensures Valid() && size == old(size) + unitSize && fresh(repr - old(repr))
    {
      hide Cycle, Carries, Within, Path, Apart;
      var nblk, pb, blocks := Chain(unitSize);
      ghost var added := set b | b in blocks;
      assert fresh(added);
      Outside(ring, repr, blocks, added, count + 1);
      Extend(pb, nblk, blocks, added);
    }

    /** The chain from nblk to pb becomes part of the list. */
    method Extend(pb: Block, nblk: Block, ghost blocks: seq<Block>, ghost added: set<Block>)
      requires Valid() && Path(blocks) && blocks != [] && nblk == blocks[0] && pb == blocks[|blocks| - 1]
      requires |blocks| == unitSize && Apart(ring, blocks)
      requires Within(ring[..count + 1] + blocks + ring[count + 1..], repr + added)
      modifies this`size, this`ring, this`repr, pb, repr
      ensures Valid() && size == old(size) + unitSize && repr == old(repr) + added
    {
      hide Cycle, Carries, Within, Path, Apart;
      LastIn();
      ghost var more := ring[..count + 1] + blocks + ring[count + 1..];
      Spliced(ring, more, blocks, count + 1);
      Link(pb, nblk, blocks);
      size, ring, repr := size + unitSize, more, repr + added;
    }

    lemma LastIn()
      requires Valid()
      ensures lastBlock in repr
    {
    }

    /** What comes before the splice stays in its place. */
    static lemma Spliced(ring: seq<Block>, more: seq<Block>, blocks: seq<Block>, c: nat)
      requires c <= |ring| && more == ring[..c] + blocks + ring[c..]
      ensures |more| == |ring| + |blocks|
      ensures forall i :: 0 <= i < c ==> more[i] == ring[i]
    {
    }

    static ghost predicate Apart(ring: seq<Block>, blocks: seq<Block>) {
      forall i, j :: 0 <= i < |ring| && 0 <= j < |blocks| ==> ring[i] != blocks[j]
    }

    static lemma Outside(ring: seq<Block>, repr: set<Block>, blocks: seq<Block>, added: set<Block>, c: nat)
      requires Within(ring, repr) && added !! repr && (forall i :: 0 <= i < |blocks| ==> blocks[i] in added) && c <= |ring|
      ensures Apart(ring, blocks) && Within(ring[..c] + blocks + ring[c..], repr + added)
      ensures (ring[..c] + blocks + ring[c..])[..c] == ring[..c]
    {
    }

    /** Link the chain of blocks from nblk to pb in after the last block. */
    method Link(pb: Block, nblk: Block, ghost blocks: seq<Block>)
      requires Valid() && Path(blocks) && blocks != [] && nblk == blocks[0] && pb == blocks[|blocks| - 1]
      requires Apart(ring, blocks)
      modifies pb, lastBlock
      ensures Cycle(ring[..count + 1] + blocks + ring[count + 1..])
      ensures Carries(ring[..count + 1] + blocks + ring[count + 1..], queue)
    {
      ghost var left, right := ring[..count + 1], ring[count + 1..];
      assert ring == left + right;
      assert right != [] ==> right[0] == ring[count + 1] && right[|right| - 1] == ring[|ring| - 1];
      PathSplit(left, right);
      assert forall i :: 0 <= i < |left| ==> left[i] == ring[i];
      pb.next := lastBlock.next;
      lastBlock.next := nblk;
      assert Path(left) && Path(blocks) && Path(right);
      Splice(left, blocks, right);
      assert Carries(left + right, queue);
      CarriesSplice(left, blocks, right, queue);
      hide Cycle, Carries;
    }

    static lemma PathSplit(left: seq<Block>, right: seq<Block>)
      requires Path(left + right)
      ensures Path(left) && Path(right)
      ensures forall i, j :: 0 <= i < |left| && 0 <= j < |right| ==> left[i] != right[j]
    {
      var ring := left + right;
      assert forall i :: 0 <= i < |left| ==> left[i] == ring[i];
      assert forall i :: 0 <= i < |right| ==> right[i] == ring[|left| + i];
    }

    static lemma Splice(left: seq<Block>, blocks: seq<Block>, right: seq<Block>)
      requires Path(left) && Path(blocks) && Path(right) && left != [] && blocks != []
      requires left[|left| - 1].next == blocks[0]
      requires blocks[|blocks| - 1].next == if right == [] then left[0] else right[0]
      requires right != [] ==> right[|right| - 1].next == left[0]
      requires forall i, j :: 0 <= i < |left| && 0 <= j < |blocks| ==> left[i] != blocks[j]
      requires forall i, j :: 0 <= i < |left| && 0 <= j < |right| ==> left[i] != right[j]
      requires forall i, j :: 0 <= i < |blocks| && 0 <= j < |right| ==> blocks[i] != right[j]
      ensures Cycle(left + blocks + right)
    {
    }

    static lemma CarriesSplice(left: seq<Block>, blocks: seq<Block>, right: seq<Block>, queue: seq<Packet>)
      requires Carries(left + right, queue) && |queue| < |left|
      ensures Carries(left + blocks + right, queue)
    {
      forall i | 0 <= i < |queue| ensures (left + blocks + right)[i] == (left + right)[i] {
      }
    }

    /** A cycle read from another of its blocks on is the same cycle. */
    static lemma CycleTurn(ring: seq<Block>, k: nat)
      requires Cycle(ring) && k < |ring|
      ensures Cycle(ring[k..] + ring[..k])
    {
      var turned, n := ring[k..] + ring[..k], |ring|;
      forall i | 0 <= i < n ensures turned[i] == ring[if i + k < n then i + k else i + k - n] {
      }
    }

    /** The next packet to send, or None if there is none. */
    method ReadData() returns (r: Option<Packet>)
      requires Valid()
      modifies this`currBlock, this`curr
      ensures Valid() && queue == old(queue)
      ensures old(curr) == |queue| ==> r == None && curr == old(curr)
      ensures old(curr) < |queue| ==> r == Some(queue[old(curr)]) && curr == old(curr) + 1
    {
      if currBlock == lastBlock {
        assert ring[curr] == ring[count];
        return None;
      }
      r := Some(Packet(currBlock.data, currBlock.msg));
      assert currBlock.next == ring[curr + 1];
      currBlock := currBlock.next;
      curr := curr + 1;
    }

    /** The block offset places after the first one. */
    method Walk(offset: int) returns (p: Block)
      requires Valid() && 0 <= offset < |ring|
      ensures p == ring[offset]
    {
      p := firstBlock;
      for i := 0 to offset
        invariant p == ring[i]
      {
        assert p.next == ring[i + 1];
        p := p.next;
      }
    }

    /** The packet offset places after the first one, for a retransmission. */
    method ReadDataAt(offset: int) returns (r: Packet)
      requires Valid() && 0 <= offset < |queue|
      ensures r == queue[offset]
    {
      var p := Walk(offset);
      r := Packet(p.data, p.msg);
    }

    static lemma CarriesTurn(ring: seq<Block>, queue: seq<Packet>, k: nat)
      requires Carries(ring, queue) && k <= |queue| < |ring|
      ensures Carries(ring[k..] + ring[..k], queue[k..])
    {
      var turned := ring[k..] + ring[..k];
      forall i | 0 <= i < |queue| - k ensures turned[i] == ring[i + k] {
      }
    }

    static lemma Turn(ring: seq<Block>, queue: seq<Packet>, repr: set<Block>, k: nat, curr: nat)
      requires Cycle(ring) && Carries(ring, queue) && Within(ring, repr) && k <= curr <= |queue| < |ring|
      ensures var turned := ring[k..] + ring[..k];
              && Cycle(turned) && Carries(turned, queue[k..]) && Within(turned, repr) && |turned| == |ring|
              && turned[0] == ring[k] && turned[curr - k] == ring[curr] && turned[|queue| - k] == ring[|queue|]
    {
      CycleTurn(ring, k);
      CarriesTurn(ring, queue, k);
    }

    /** The first offset packets have been acknowledged. */
    method AckData(offset: int)
      requires Valid() && 0 <= offset <= curr
      modifies this`firstBlock, this`count, this`ring, this`queue, this`curr
      ensures Valid() && queue == old(queue)[offset..] && curr == old(curr) - offset
    {
      hide Cycle, Carries, Within;
      firstBlock := Walk(offset);
      Turn(ring, queue, repr, offset, curr);
      count := count - offset;
      ring, queue, curr := ring[offset..] + ring[..offset], queue[offset..], curr - offset;
    }

    /** How many blocks a message of len bytes takes. */
    method BlocksFor(len: nat) returns (n: nat)
      requires mss > 0
      ensures Placed(len, 0, 0, n, mss) && (n == 0 ==> len == 0)
    {
      n := len / mss;
      if len % mss != 0 {
        n := n + 1;
      }
      assert len == (len / mss) * mss + len % mss;
      assert (len / mss + 1) * mss == (len / mss) * mss + mss;
    }

    /** Grow until n more blocks leave one block free. */
    method Grow(n: nat)
      requires Valid()
      modifies this`size, this`ring, this`repr, repr
      ensures Valid() && n + count < size && fresh(repr - old(repr))
    {
      hide Cycle, Carries;
      while n + count >= size
        invariant Valid() && fresh(repr - old(repr))
        decreases n + count - size
      {
        Increase();
      }
    }

    /** Append a message, cut into blocks; the list grows first if it would become full. */
    method AddBuffer(data: seq<byte>, order: bool)
      requires Valid()
      modifies this, repr
      ensures Valid() && curr == old(curr) && fresh(repr - old(repr))
      ensures queue == old(queue) + Chunks(data, mss, true, order, old(nextMsgNo))
      ensures nextMsgNo == NextMsgNo(old(nextMsgNo))
    {
      hide Cycle, Carries, Chunks, Placed;
      var n := BlocksFor(|data|);
      Grow(n);
      WriteBlocks(data, n, order);
      nextMsgNo := nextMsgNo + 1;
      if nextMsgNo == MAX_MSG_NO {
        nextMsgNo := 1;
      }
    }

    /** Fill block s, the first free one. */
    method Fill(s: Block, payload: seq<byte>, msg: MsgField, ghost written: seq<Packet>)
      requires Cycle(ring) && Carries(ring, written) && |written| < |ring| - 1 && s == ring[|written|]
      modifies s
      ensures Cycle(ring) && Carries(ring, written + [Packet(payload, msg)]) && s.next == ring[|written| + 1]
    {
      s.data := payload;
      s.msg := msg;
    }

    /** Packet i of n starts at offset off of a message of len bytes. */
    static ghost predicate Placed(len: nat, off: nat, i: nat, n: nat, mss: nat) {
      i <= n && off == i * mss && len <= n * mss < len + mss
    }

    /** It is the last one just if the rest of the message fits in it. */
    static lemma PlaceNext(len: nat, off: nat, i: nat, n: nat, mss: nat)
      requires Placed(len, off, i, n, mss) && i < n && mss > 0
      ensures off < len && (i == n - 1 <==> len - off <= mss)
      ensures Placed(len, off + mss, i + 1, n, mss)
    {
      var left := n - i - 1;
      Distribute(i, 1, mss);
      Distribute(i + 1, left, mss);
      if left > 0 {
        Distribute(1, left - 1, mss);
      }
    }

    static lemma Distribute(a: nat, b: nat, m: nat)
      ensures (a + b) * m == a * m + b * m && 0 <= b * m
    {
    }

    static lemma PlaceEnd(len: nat, off: nat, n: nat, mss: nat)
      requires Placed(len, off, n, n, mss)
      ensures len <= off
    {
    }

    /** i of the n packets have been written: together with the cut-up rest of the data they make up all. */
    ghost predicate Writing(data: seq<byte>, off: nat, i: nat, n: nat, s: Block, order: bool,
                            written: seq<Packet>, all: seq<Packet>)
      reads this, ring
    {
      && Placed(|data|, off, i, n, mss) && mss > 0 && i <= n
      && Cycle(ring) && Carries(ring, written)
      && |written| == count + i <= count + n < |ring| && s == ring[count + i]
      && all == written + Chunks(Rest(data, off), mss, i == 0, order, nextMsgNo)
    }

    /** Copy the message into the n blocks from the last block on, and move the last block behind them. */
    method WriteBlocks(data: seq<byte>, n: nat, order: bool)
      requires Valid() && n + count < size && Placed(|data|, 0, 0, n, mss) && (n == 0 ==> |data| == 0)
      modifies this`lastBlock, this`count, this`queue, repr
      ensures Valid() && queue == old(queue) + Chunks(data, mss, true, order, nextMsgNo)
    {
      hide Cycle, Carries, Chunks, Placed;
      var s := lastBlock;
      ghost var written, all := queue, queue + Chunks(data, mss, true, order, nextMsgNo);
      var off: nat := 0;
      assert data[0..] == data;
      for i := 0 to n
        modifies repr
        invariant Writing(data, off, i, n, s, order, written, all)
      {
        hide Writing;
        s, off, written := WriteNext(data, off, i, n, s, order, written, all);
      }
      PlaceEnd(|data|, off, n, mss);
      NoChunks(mss, n == 0, order, nextMsgNo);
      lastBlock := s;
      count := count + n;
      queue := written;
    }

    method WriteNext(data: seq<byte>, off: nat, i: nat, n: nat, s: Block, order: bool,
                     ghost written: seq<Packet>, ghost all: seq<Packet>)
      returns (s2: Block, off2: nat, ghost written2: seq<Packet>)
      requires Writing(data, off, i, n, s, order, written, all) && i < n
      modifies s
      ensures Writing(data, off2, i + 1, n, s2, order, written2, all)
    {
      hide Cycle, Carries, Chunks, Placed, Rest;
      PlaceNext(|data|, off, i, n, mss);
      var pktlen := |data| - off;
      if pktlen > mss {
        pktlen := mss;
      }
      var msg := MsgField(i == 0, i == n - 1, order, nextMsgNo);
      ChunkStep(data, off, mss, i == 0, order, nextMsgNo, written);
      Fill(s, data[off..off + pktlen], msg, written);
      written2 := written + [Packet(data[off..off + pktlen], msg)];
      s2 := s.next;
      off2 := off + mss;
    }

    static function Rest(data: seq<byte>, off: nat): seq<byte> {
      if off <= |data| then data[off..] else []
    }

    static lemma NoChunks(mss: nat, first: bool, order: bool, number: int)
      requires mss > 0
      ensures Chunks([], mss, first, order, number) == []
    {
    }

    static lemma ChunkStep(data: seq<byte>, off: nat, mss: nat, first: bool, order: bool, number: int,
                           written: seq<Packet>)
      requires off < |data| && mss > 0
      ensures written + Chunks(Rest(data, off), mss, first, order, number)
           == written + [Packet(data[off..if |data| - off > mss then off + mss else |data|],
                                MsgField(first, |data| - off <= mss, order, number))]
              + Chunks(Rest(data, off + mss), mss, false, order, number)
    {
      if |data| - off > mss {
        assert data[off..][mss..] == data[off + mss..];
        assert data[off..][..mss] == data[off..off + mss];
      } else {
        assert data[off..] == data[off..|data|];
        assert Rest(data, off + mss) == [];
      }
    }
  }
}
