/** The streaming engine of MD5 (RFC 1321) around a block function that is left open. */
module Md5 {
  import opened Packets

  const WORD: int := 0x1_0000_0000

  type word = w: int | 0 <= w < 0x1_0000_0000

  /** The four chaining words. */
  datatype Chain = Chain(a: word, b: word, c: word, d: word)

  const INITIAL := Chain(0x67452301, 0xefcdab89, 0x98badcfe, 0x10325476)

  /** What the block function does to a chain and a block of 64 bytes. */
  type Process = (Chain, seq<byte>) -> Chain

  // ---------- RFC 1321 ----------

  /** The blocks of m, one after the other. */
  function Fold(f: Process, s: Chain, m: seq<byte>): Chain
    requires |m| % 64 == 0
    decreases |m|
  {
    if m == [] then s else Fold(f, f(s, m[..64]), m[64..])
  }

  function Zeros(n: nat): (r: seq<byte>)
    ensures |r| == n && forall i :: 0 <= i < n ==> r[i] == 0
  {
    seq(n, _ => 0)
  }

  /** Byte i of v, the lowest one first. */
  function ByteAt(v: nat, i: nat): byte {
    if i == 0 then v % 256 else ByteAt(v / 256, i - 1)
  }

  function LittleEndian(v: nat, n: nat): (r: seq<byte>)
    ensures |r| == n && forall i :: 0 <= i < n ==> r[i] == ByteAt(v, i)
  {
    seq(n, i requires 0 <= i < n => ByteAt(v, i))
  }

  /** Step 1: a 1 bit, then 0 bits until the length is 448 modulo 512 bits; step 2: the length in bits, in 64 bits. */
  function Padded(m: seq<byte>): (r: seq<byte>)
    ensures |r| % 64 == 0
  {
    m + [0x80] + Zeros((55 - |m|) % 64) + LittleEndian(8 * |m| % (WORD * WORD), 8)
  }

  function Digest(s: Chain): seq<byte> {
    LittleEndian(s.a, 4) + LittleEndian(s.b, 4) + LittleEndian(s.c, 4) + LittleEndian(s.d, 4)
  }

  /** The MD5 sum of a whole message. */
  function OneShot(f: Process, m: seq<byte>): seq<byte> {
    Digest(Fold(f, INITIAL, Padded(m)))
  }

  /** Padding loses nothing: even without the count, no two messages are padded to the same bytes. */
  lemma PaddedUnique(m: seq<byte>, m2: seq<byte>)
    requires var (p, p2) := (Padded(m), Padded(m2)); p[..|p| - 8] == p2[..|p2| - 8]
    ensures m == m2
  {
    var p := Padded(m);
    var q := p[..|p| - 8];
    Marked(m, q);
    Marked(m2, q);
    LastMark(q, |m|, |m2|);
  }

  lemma Marked(m: seq<byte>, q: seq<byte>)
    requires q == Padded(m)[..|Padded(m)| - 8]
    ensures |m| < |q| && m == q[..|m|] && q[|m|] == 0x80 && forall i :: |m| < i < |q| ==> q[i] == 0
  {
    assert q == m + [0x80] + Zeros((55 - |m|) % 64);
  }

  lemma LastMark(q: seq<byte>, i: nat, j: nat)
    requires i < |q| && j < |q| && q[i] == q[j] == 0x80
    requires (forall k :: i < k < |q| ==> q[k] == 0) && forall k :: j < k < |q| ==> q[k] == 0
    ensures i == j
  {
  }

  /** The number that bytes spell, the lowest one first. */
  function Spelt(b: seq<byte>): nat {
    if b == [] then 0 else b[0] + 256 * Spelt(b[1..])
  }

  lemma {:induction false} LittleBack(v: nat, n: nat)
    requires v < Pow256(n)
    ensures Spelt(LittleEndian(v, n)) == v
  {
    if n > 0 {
      LittleBack(v / 256, n - 1);
      var b := LittleEndian(v, n);
      assert b[1..] == LittleEndian(v / 256, n - 1);
      assert b[0] == v % 256;
    }
  }

  function Pow256(n: nat): nat {
    if n == 0 then 1 else 256 * Pow256(n - 1)
  }

  /** The digest gives the four words back, each with its lowest byte first, as in section 3.5 of RFC 1321. */
  lemma DigestBack(s: Chain)
    ensures var d := Digest(s);
            |d| == 16 && Spelt(d[..4]) == s.a && Spelt(d[4..8]) == s.b && Spelt(d[8..12]) == s.c && Spelt(d[12..]) == s.d
  {
    var d := Digest(s);
    assert Pow256(4) == WORD by {
      assert Pow256(4) == 256 * Pow256(3) == 256 * 256 * Pow256(2) == 256 * 256 * 256 * Pow256(1);
    }
    LittleBack(s.a, 4);
    LittleBack(s.b, 4);
    LittleBack(s.c, 4);
    LittleBack(s.d, 4);
    hide Spelt, Pow256;
    assert d[..4] == LittleEndian(s.a, 4) && d[4..8] == LittleEndian(s.b, 4);
    assert d[8..12] == LittleEndian(s.c, 4) && d[12..] == LittleEndian(s.d, 4);
  }

  /** The initial words as section 3.3 of RFC 1321 writes them, with the lowest byte first. */
  lemma InitialBytes()
    ensures Digest(INITIAL)
         == [0x01, 0x23, 0x45, 0x67, 0x89, 0xab, 0xcd, 0xef, 0xfe, 0xdc, 0xba, 0x98, 0x76, 0x54, 0x32, 0x10]
  {
    hide LittleEndian, ByteAt;
    FourBytes(INITIAL.a, [0x01, 0x23, 0x45, 0x67]);
    FourBytes(INITIAL.b, [0x89, 0xab, 0xcd, 0xef]);
    FourBytes(INITIAL.c, [0xfe, 0xdc, 0xba, 0x98]);
    FourBytes(INITIAL.d, [0x76, 0x54, 0x32, 0x10]);
  }

  lemma FourBytes(v: nat, b: seq<byte>)
    requires |b| == 4 && v == b[0] as int + 0x100 * (b[1] as int) + 0x1_0000 * (b[2] as int) + 0x100_0000 * (b[3] as int)
    ensures LittleEndian(v, 4) == b
  {
    var v1 := b[1] as int + 0x100 * (b[2] as int) + 0x1_0000 * (b[3] as int);
    var v2 := b[2] as int + 0x100 * (b[3] as int);
    assert v % 256 == b[0] && v / 256 == v1;
    assert v1 % 256 == b[1] && v1 / 256 == v2;
    assert v2 % 256 == b[2] && v2 / 256 == b[3];
    assert ByteAt(v, 1) == ByteAt(v1, 0) && ByteAt(v, 2) == ByteAt(v1, 1) == ByteAt(v2, 0);
    assert ByteAt(v, 3) == ByteAt(v1, 2) == ByteAt(v2, 1) == ByteAt(b[3], 0);
  }

  // ---------- What the state stands for ----------

  lemma {:induction false} FoldAppend(f: Process, s: Chain, a: seq<byte>, b: seq<byte>)
    requires |a| % 64 == 0 && |b| % 64 == 0
    ensures Fold(f, s, a + b) == Fold(f, Fold(f, s, a), b)
    decreases |a|
  {
    if a == [] {
      assert a + b == b;
    } else {
      FoldAppend(f, f(s, a[..64]), a[64..], b);
      assert (a + b)[..64] == a[..64] && (a + b)[64..] == a[64..] + b;
    }
  }

  /** All full blocks of total are in the chain, and part is the rest. */
  ghost predicate Tracks(f: Process, s: Chain, part: seq<byte>, total: seq<byte>) {
    && |part| < 64 && |part| <= |total| && part == total[|total| - |part|..]
    && (|total| - |part|) % 64 == 0 && s == Fold(f, INITIAL, total[..|total| - |part|])
  }

  /** More bytes, that do not complete a block. */
  lemma TracksMore(f: Process, s: Chain, part: seq<byte>, total: seq<byte>, more: seq<byte>)
    requires Tracks(f, s, part, total) && |part| + |more| < 64
    ensures Tracks(f, s, part + more, total + more)
  {
    assert (total + more)[..|total| - |part|] == total[..|total| - |part|];
  }

  /** More bytes, that complete a block. */
  lemma TracksBlock(f: Process, s: Chain, part: seq<byte>, total: seq<byte>, more: seq<byte>)
    requires Tracks(f, s, part, total) && |part| + |more| == 64
    ensures Tracks(f, f(s, part + more), [], total + more)
  {
    var head := total[..|total| - |part|];
    assert total + more == head + (part + more);
    FoldAppend(f, INITIAL, head, part + more);
    var block := part + more;
    assert block[..64] == block && block[64..] == [];
    assert Fold(f, f(s, block), []) == f(s, block);
    assert (total + more)[..|total + more|] == total + more;
  }

  /** The two words of the count of bits. */
  ghost predicate Counts(count0: word, count1: word, n: nat) {
    count0 == 8 * n % WORD && count1 == 8 * n / WORD % WORD
  }

  lemma CountsMore(count0: word, count1: word, n: nat, more: nat)
    requires Counts(count0, count1, n) && more < 0x1000_0000
    ensures more / 0x2000_0000 == 0
    ensures var nbits := more * 8 % WORD;
            var low := (count0 + nbits) % WORD;
            var high := if low < nbits then (count1 + 1) % WORD else count1;
            Counts(low, high, n + more)
  {
    var q := 8 * n / WORD;
    assert 8 * n == q * WORD + count0;
    Carry(q, count0, 8 * more);
    assert 8 * (n + more) == q * WORD + count0 + 8 * more;
    NextWord(q);
  }

  /** Two words added, with the carry. */
  lemma Carry(q: nat, r: word, s: word)
    ensures var sum := q * WORD + r + s;
            && sum % WORD == (r + s) % WORD && ((r + s) % WORD < s <==> r + s >= WORD)
            && sum / WORD == if r + s >= WORD then q + 1 else q
  {
  }

  lemma NextWord(q: nat)
    ensures (q + 1) % WORD == (q % WORD + 1) % WORD
  {
  }

  class Md5State {
    const process: Process
    var count0: word
    var count1: word
    var abcd: Chain
    const buf: array<byte>

    /** All bytes appended so far. */
    ghost var total: seq<byte>

    ghost predicate Valid()
      reads this, buf
    {
      && buf.Length == 64 && Counts(count0, count1, |total|)
      && Tracks(process, abcd, buf[..|total| % 64], total)
    }

    constructor (process: Process)
      ensures Valid() && total == [] && this.process == process && fresh(buf)
    {
      this.process := process;
      count0, count1, abcd := 0, 0, INITIAL;
      buf := new byte[64](_ => 0);
      total := [];
    }

    method Append(data: seq<byte>)
      requires Valid() && |data| < 0x1000_0000
      modifies this, buf
      ensures Valid() && total == old(total) + data
    {
      var offset := count0 / 8 % 64;
      var nbits := |data| * 8 % WORD;
      if |data| <= 0 {
        assert total + data == total;
        return;
      }
      OffsetIs(count0, count1, |total|);
      hide Counts, Tracks;
      AddCount(|data|, nbits);
      Absorb(data, offset);
      total := total + data;
    }

    /** Add so many bytes to the count of bits. */
    method AddCount(nbytes: nat, nbits: word)
      requires Counts(count0, count1, |total|) && nbytes < 0x1000_0000 && nbits == nbytes * 8 % WORD
      modifies this`count0, this`count1
      ensures Counts(count0, count1, |total| + nbytes)
    {
      hide Counts;
      CountsMore(count0, count1, |total|, nbytes);
      count1 := (count1 + nbytes / 0x2000_0000) % WORD;
      count0 := (count0 + nbits) % WORD;
      if count0 < nbits {
        count1 := (count1 + 1) % WORD;
      }
    }

    static lemma OffsetIs(count0: word, count1: word, n: nat)
      requires Counts(count0, count1, n)
      ensures count0 / 8 % 64 == n % 64
    {
      BytesIn(count0, count1, n);
      hide Counts;
      SameRest(n, count0 / 8, 8 * n / WORD * 0x80_0000);
    }

    /** The low word counts the bytes beyond the last multiple of 2^29. */
    static lemma BytesIn(count0: word, count1: word, n: nat)
      requires Counts(count0, count1, n)
      ensures n == 8 * n / WORD * 0x80_0000 * 64 + count0 / 8
    {
      var q := 8 * n / WORD;
      assert 8 * n == q * WORD + count0;
    }

    static lemma SameRest(n: int, x: int, k: int)
      requires n == k * 64 + x
      ensures n % 64 == x % 64
    {
    }

    /** Take the bytes into the chain and the buffer. */
    method Absorb(data: seq<byte>, offset: int)
      requires buf.Length == 64 && offset == |total| % 64 && data != []
      requires Tracks(process, abcd, buf[..offset], total)
      modifies this`abcd, buf
      ensures Tracks(process, abcd, buf[..|total + data| % 64], total + data)
    {
      hide Tracks;
      var p, left := 0, |data|;
      ghost var part := buf[..offset];
      if offset != 0 {
        var copy := if offset + |data| > 64 then 64 - offset else |data|;
        Copy(offset, data[..copy]);
        assert buf[..offset + copy] == part + data[..copy];
        if offset + copy < 64 {
          FewMore(data, part);
          return;
        }
        p := p + copy;
        left := left - copy;
        TracksBlock(process, abcd, part, total, data[..copy]);
        assert buf[..] == part + data[..copy];
        abcd := process(abcd, buf[..]);
      } else {
        assert part == [] && total + data[..0] == total;
      }
      Blocks(data, p, left);
    }

    /** All the data fits in the block that is being filled. */
    lemma FewMore(data: seq<byte>, part: seq<byte>)
      requires Tracks(process, abcd, part, total) && |part| == |total| % 64 && |part| + |data| < 64
      ensures data[..|data|] == data && |total + data| % 64 == |part| + |data|
      ensures Tracks(process, abcd, part + data, total + data)
    {
      TracksMore(process, abcd, part, total, data);
      hide Tracks;
    }

    /** memcpy to the buffer */
    method Copy(at: nat, bytes: seq<byte>)
      requires at + |bytes| <= 64 == buf.Length
      modifies buf
      ensures buf[..at] == old(buf[..at]) && buf[at..at + |bytes|] == bytes
    {
      for i := 0 to |bytes|
        invariant buf[..at] == old(buf[..at]) && buf[at..at + i] == bytes[..i]
      {
        buf[at + i] := bytes[i];
      }
    }

    /** The full blocks of the data from p on go into the chain, the rest into the buffer. */
    method Blocks(data: seq<byte>, p: int, left: int)
      requires buf.Length == 64 && 0 <= p <= |data| && left == |data| - p
      requires Tracks(process, abcd, [], total + data[..p])
      modifies this`abcd, buf
      ensures Tracks(process, abcd, buf[..|total + data| % 64], total + data)
    {
      hide Tracks;
      var p, left := p, left;
      while left >= 64
        invariant 0 <= p <= |data| && left == |data| - p && Tracks(process, abcd, [], total + data[..p])
      {
        BlockNext(data, p);
        abcd := process(abcd, data[p..p + 64]);
        p := p + 64;
        left := left - 64;
      }
      Rest(data, p);
      if left != 0 {
        Copy(0, data[p..]);
      }
      assert buf[..left] == data[p..];
    }

    lemma BlockNext(data: seq<byte>, p: int)
      requires 0 <= p && p + 64 <= |data| && Tracks(process, abcd, [], total + data[..p])
      ensures Tracks(process, process(abcd, data[p..p + 64]), [], total + data[..p + 64])
    {
      TracksBlock(process, abcd, [], total + data[..p], data[p..p + 64]);
      assert [] + data[p..p + 64] == data[p..p + 64];
      assert total + data[..p] + data[p..p + 64] == total + data[..p + 64];
    }

    lemma Rest(data: seq<byte>, p: int)
      requires 0 <= p <= |data| < p + 64 && Tracks(process, abcd, [], total + data[..p])
      ensures Tracks(process, abcd, data[p..], total + data) && |total + data| % 64 == |data| - p
    {
      TracksMore(process, abcd, [], total + data[..p], data[p..]);
      Whole(process, abcd, total + data[..p]);
      hide Tracks;
      assert [] + data[p..] == data[p..];
      assert total + data[..p] + data[p..] == total + data;
      SameRest(|total + data|, |data| - p, |total + data[..p]| / 64);
    }

    static lemma Whole(f: Process, s: Chain, total: seq<byte>)
      requires Tracks(f, s, [], total)
      ensures |total| == |total| / 64 * 64
    {
    }

    /** The sum of everything appended; the state cannot be used any more after that. */
    method Finish() returns (digest: seq<byte>)
      requires Valid()
      modifies this, buf
      ensures digest == OneShot(process, old(total))
    {
      OffsetIs(count0, count1, |total|);
      var data := LittleEndian(count0, 4) + LittleEndian(count1, 4);
      CountBytes(count0, count1, |total|);
      var n := (55 - count0 / 8) % 64 + 1;
      PadLength(count0, count1, |total|);
      hide Valid, Counts, LittleEndian, Padded, Fold;
      var pad := [0x80] + Zeros(63);
      Append(pad[..n]);
      Append(data);
      Finished(old(total), pad[..n], data);
      digest := Digest(abcd);
    }

    static lemma PadLength(count0: word, count1: word, n: nat)
      requires Counts(count0, count1, n)
      ensures (55 - count0 / 8) % 64 == (55 - n) % 64
    {
      BytesIn(count0, count1, n);
      hide Counts;
      SameRest(55 - count0 / 8, 55 - n, 8 * n / WORD * 0x80_0000);
    }

    /** The message with the padding and the count appended is the padded message. */
    lemma Finished(m: seq<byte>, pad: seq<byte>, data: seq<byte>)
      requires Valid() && total == m + pad + data && |pad| == (55 - |m|) % 64 + 1
      requires pad == ([0x80] + Zeros(63))[..|pad|] && data == LittleEndian(8 * |m| % (WORD * WORD), 8)
      ensures abcd == Fold(process, INITIAL, Padded(m))
    {
      assert pad == [0x80] + Zeros((55 - |m|) % 64);
      assert total == Padded(m);
      hide Padded, Fold, LittleEndian;
      assert |total| % 64 == 0;
      assert total[..|total|] == total;
    }
  }

  /** The two words of the count, byte by byte, are the count in 64 bits. */
  lemma CountBytes(count0: word, count1: word, n: nat)
    requires Counts(count0, count1, n)
    ensures LittleEndian(count0, 4) + LittleEndian(count1, 4) == LittleEndian(8 * n % (WORD * WORD), 8)
  {
    var v := 8 * n % (WORD * WORD);
    SplitCount(8 * n);
    assert v % WORD == count0 && v / WORD == count1;
    var low, high := LittleEndian(count0, 4), LittleEndian(count1, 4);
    forall i | 0 <= i < 8 ensures (low + high)[i] == ByteAt(v, i) {
      if i < 4 {
        LowByte(v, i);
      } else {
        HighByte(v, i - 4);
      }
    }
  }

  lemma SplitCount(b: nat)
    ensures b % (WORD * WORD) % WORD == b % WORD && b % (WORD * WORD) / WORD == b / WORD % WORD
  {
    var q, r := b / (WORD * WORD), b % (WORD * WORD);
    assert b == q * (WORD * WORD) + r;
    assert b == (q * WORD + r / WORD) * WORD + r % WORD;
    assert b / WORD == q * WORD + r / WORD;
  }

  lemma LowByte(v: nat, i: nat)
    requires i < 4
    ensures ByteAt(v, i) == ByteAt(v % WORD, i)
  {
    var h, w := v / WORD, v % WORD;
    assert v / 256 == h * 0x100_0000 + w / 256;
    assert v / 256 / 256 == h * 0x1_0000 + w / 256 / 256;
    assert v / 256 / 256 / 256 == h * 0x100 + w / 256 / 256 / 256;
    assert ByteAt(v, 0) == v % 256 && ByteAt(w, 0) == w % 256;
    if i >= 1 {
      ByteNext(v, i);
      ByteNext(w, i);
    }
    hide ByteAt;
  }

  lemma ByteNext(v: nat, i: nat)
    requires 1 <= i < 4
    ensures ByteAt(v, i) == if i == 1 then v / 256 % 256 else if i == 2 then v / 256 / 256 % 256 else v / 256 / 256 / 256 % 256
  {
    assert ByteAt(v, i) == ByteAt(v / 256, i - 1);
    if i >= 2 {
      assert ByteAt(v / 256, i - 1) == ByteAt(v / 256 / 256, i - 2);
      if i == 3 {
        assert ByteAt(v / 256 / 256, 1) == ByteAt(v / 256 / 256 / 256, 0);
      }
    }
  }

  lemma HighByte(v: nat, i: nat)
    ensures ByteAt(v, i + 4) == ByteAt(v / WORD, i)
  {
    assert ByteAt(v, i + 4) == ByteAt(v / 256, i + 3) == ByteAt(v / 256 / 256, i + 2);
    assert ByteAt(v / 256 / 256, i + 2) == ByteAt(v / 256 / 256 / 256, i + 1) == ByteAt(v / 256 / 256 / 256 / 256, i);
    assert v / 256 / 256 / 256 / 256 == v / WORD;
  }

  // ---------- Streaming ----------

  function Flatten(chunks: seq<seq<byte>>): seq<byte> {
    if chunks == [] then [] else Flatten(chunks[..|chunks| - 1]) + chunks[|chunks| - 1]
  }

  /** However a message is cut into pieces, appending the pieces gives the sum of the whole. */
  method Sum(process: Process, chunks: seq<seq<byte>>) returns (digest: seq<byte>)
    requires forall i :: 0 <= i < |chunks| ==> |chunks[i]| < 0x1000_0000
    ensures digest == OneShot(process, Flatten(chunks))
  {
    var state := new Md5State(process);
    for i := 0 to |chunks|
      invariant state.Valid() && state.process == process && state.total == Flatten(chunks[..i]) && fresh(state) && fresh(state.buf)
    {
      state.Append(chunks[i]);
      assert chunks[..i + 1][..i] == chunks[..i];
    }
    assert chunks[..|chunks|] == chunks;
    digest := state.Finish();
  }
}
