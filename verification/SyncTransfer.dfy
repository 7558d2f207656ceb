/** Sending and receiving files over a socket whose send and recv each move any number of bytes. */
module SyncTransfer {
  import opened Packets
  import opened SyncFraming
  import SeqNo

  const ERROR: int := -1

  /** One end of a connection.  chunk and breaks stand for whatever the transport does: how many bytes call number turn
      moves, and whether a call of send fails. */
  class Socket {
    const chunk: nat -> nat
    const breaks: nat -> bool
    var turn: nat
    var incoming: seq<byte>
    var outgoing: seq<byte>

    constructor (chunk: nat -> nat, breaks: nat -> bool, incoming: seq<byte>)
      ensures this.incoming == incoming && outgoing == [] && this.breaks == breaks
    {
      this.chunk, this.breaks, turn := chunk, breaks, 0;
      this.incoming, outgoing := incoming, [];
    }

    /** Any number from 1 to max. */
    function Moved(max: nat): (n: nat)
      requires max > 0
      reads this`turn
      ensures 1 <= n <= max
    {
      1 + chunk(turn) % max
    }

    /** No call of send fails. */
    ghost predicate Works() {
      forall t :: !breaks(t)
    }

    method Recv(buf: array<byte>, at: nat, len: int) returns (n: int)
      requires at <= buf.Length && len <= buf.Length - at
      modifies this`turn, this`incoming, buf
      ensures buf[..at] == old(buf[..at])
      ensures len <= 0 ==> n == 0 && incoming == old(incoming)
      ensures len > 0 && old(incoming) == [] ==> n == ERROR && incoming == []
      ensures len > 0 && old(incoming) != [] ==>
                && 0 < n <= len && n <= |old(incoming)| && incoming == old(incoming)[n..]
                && buf[at..at + n] == old(incoming)[..n]
    {
      if len <= 0 {
        return 0;
      }
      if incoming == [] {
        return ERROR;
      }
      n := Moved(if len < |incoming| then len else |incoming|);
      turn := turn + 1;
      for i := 0 to n
        modifies buf
        invariant buf[..at] == old(buf[..at]) && buf[at..at + i] == incoming[..i]
      {
        buf[at + i] := incoming[i];
      }
      incoming := incoming[n..];
    }

    method Send(buf: seq<byte>, len: int) returns (n: int)
      requires len <= |buf|
      modifies this`turn, this`outgoing
      ensures (n == ERROR || 0 <= n) && (len <= 0 ==> n == 0)
      ensures n <= 0 ==> outgoing == old(outgoing)
      ensures Works() && len > 0 ==> n > 0
      ensures n > 0 ==> n <= len && outgoing == old(outgoing) + buf[..n]
    {
      if len <= 0 {
        return 0;
      }
      turn := turn + 1;
      if breaks(turn) {
        return ERROR;
      }
      n := Moved(len);
      outgoing := outgoing + buf[..n];
    }
  }

  /** static_cast<int> */
  function ToInt(n: nat): (r: int)
    ensures r <= n && (r > 0 && n >= MAX_FILE ==> n - r >= MAX_FILE)
    ensures n < MAX_FILE ==> r == n
  {
    SeqNo.Int32(n)
  }

  /** Fill the buffer.  It succeeds just if there are enough bytes and the length fits an int. */
  method RecvAll(s: Socket, buf: array<byte>) returns (ok: bool)
    modifies s`turn, s`incoming, buf
    ensures ok <==> buf.Length <= |old(s.incoming)| && buf.Length < MAX_FILE
    ensures ok ==> buf[..] == old(s.incoming)[..buf.Length] && s.incoming == old(s.incoming)[buf.Length..]
  {
    var got, len := 0, buf.Length;
    while got < len
      invariant got <= len && got <= |old(s.incoming)| && s.incoming == old(s.incoming)[got..]
      invariant buf[..got] == old(s.incoming)[..got]
      invariant len >= MAX_FILE ==> len - got >= MAX_FILE
    {
      var n := s.Recv(buf, got, ToInt(len - got));
      if n == ERROR || n == 0 {
        return false;
      }
      assert buf[..got + n] == buf[..got] + buf[got..got + n];
      Further(old(s.incoming), got, n);
      got := got + n;
    }
    assert buf[..got] == buf[..];
    return true;
  }

  lemma Further(b: seq<byte>, at: nat, n: nat)
    requires at + n <= |b|
    ensures b[..at + n] == b[..at] + b[at..][..n] && b[at + n..] == b[at..][n..]
  {
  }

  method SendAll(s: Socket, buf: seq<byte>) returns (ok: bool)
    requires |buf| < MAX_FILE
    modifies s`turn, s`outgoing
    ensures (ok ==> s.outgoing == old(s.outgoing) + buf) && (s.Works() ==> ok)
  {
    var sent := 0;
    while sent < |buf|
      invariant sent <= |buf| && s.outgoing == old(s.outgoing) + buf[..sent]
    {
      var n := s.Send(buf[sent..], ToInt(|buf| - sent));
      if n == ERROR || n == 0 {
        return false;
      }
      Further(buf, sent, n);
      sent := sent + n;
    }
    assert buf[..sent] == buf;
    return true;
  }

  method SendHeader(s: Socket, h: Header) returns (ok: bool)
    requires InRange(h)
    modifies s`turn, s`outgoing
    ensures (ok ==> s.outgoing == old(s.outgoing) + HeaderBytes(h)) && (s.Works() ==> ok)
  {
    ok := SendAll(s, HeaderBytes(h));
  }

  /** Send one file.  Its md5 sum is whatever was computed for it, kind the kind of change; opens says whether the file
      can be opened. */
  method SendFilePacket(s: Socket, file: File, opens: bool, kind: nat, pad: seq<byte>, md5: seq<byte>)
    returns (ok: bool, h: Header)
    requires kind < 0x1_0000 && |pad| == 2 && |md5| == 16 && |file.data| < 0x1_0000_0000_0000_0000
    modifies s`turn, s`outgoing
    ensures ok ==> HeaderFor(h, file) && s.outgoing == old(s.outgoing) + FilePacket(h, file)
    ensures h.version == 1 && h.kind == kind && h.md5 == md5 && (|file.name| > MAX_PATH || !opens ==> !ok)
    ensures s.Works() && !ok ==>
              && (|file.name| > MAX_PATH || !opens) && (|file.name| <= MAX_PATH ==> HeaderFor(h, file))
              && s.outgoing == old(s.outgoing) + Cut(h, file)
  {
    hide HeaderBytes;
    h := Header(1, OPCODE_FILE, kind, pad, |file.name| % 0x1_0000_0000, |file.data|, md5);
    if |file.name| > MAX_PATH {
      return false, h;
    }
    ok := SendHeader(s, h);
    if !ok {
      return;
    }
    ok := SendAll(s, file.name);
    if !ok {
      return;
    }
    if !opens {
      return false, h;
    }
    ok := SendContents(s, file.data);
  }

  /** Read the file in pieces of 4096 bytes until a read comes back short, and send each piece. */
  method SendContents(s: Socket, data: seq<byte>) returns (ok: bool)
    modifies s`turn, s`outgoing
    ensures (ok ==> s.outgoing == old(s.outgoing) + data) && (s.Works() ==> ok)
  {
    var at, good := 0, true;
    while good
      invariant at <= |data| && s.outgoing == old(s.outgoing) + data[..at] && (!good ==> at == |data|)
      decreases |data| - at, good
    {
      var n := if |data| - at < 4096 then |data| - at else 4096;
      good := n == 4096;
      if n > 0 {
        ok := SendAll(s, data[at..at + n]);
        if !ok {
          return;
        }
        assert data[..at + n] == data[..at] + data[at..at + n];
        at := at + n;
      }
    }
    assert data[..at] == data;
    return true;
  }

  /** Send a greeting, the files and the end packet; the result is whether all of it went out.  If sending stops at a
      file, h is the header made for it. */
  method Upload(s: Socket, files: seq<File>, opens: File -> bool, timestamp: nat, pad: seq<byte>, md5: seq<byte>)
    returns (ok: bool, hello: Header, hs: seq<Header>, h: Header)
    requires |pad| == 2 && |md5| == 16 && timestamp < 0x1_0000_0000_0000_0000
    requires forall i :: 0 <= i < |files| ==> |files[i].data| < 0x1_0000_0000_0000_0000
    modifies s`turn, s`outgoing
    ensures InRange(hello) && hello.version == 1 && hello.opcode == OPCODE_HELLO && hello.fileSize == timestamp
    ensures ok ==>
              && InRange(EndHeader(pad)) && Reached(files, opens) == |files|
              && HeadersFor(hs, files) && s.outgoing == old(s.outgoing) + Transfer(hello, hs, files, EndHeader(pad))
    ensures s.Works() && !ok ==>
              && StoppedAt(files, opens, hs, h)
              && s.outgoing == old(s.outgoing) + HeaderBytes(hello) + Stopped(files, hs, h) + HeaderBytes(EndHeader(pad))
  {
    hello := Header(1, OPCODE_HELLO, 0, pad, 0, timestamp, seq(16, _ => 0));
    EndInRange(pad);
    hide HeaderBytes, FilePackets, HeadersFor, Transfer, EndHeader, Stopped, StoppedAt, Socket.Works;
    var greeted := SendHeader(s, hello);
    ok, hs, h := SendFiles(s, files, opens, pad, md5);
    var ended := SendHeader(s, EndHeader(pad));
    if ok {
      TransferParts(old(s.outgoing), hello, hs, files, EndHeader(pad));
    }
    ok := greeted && ok && ended;
  }

  /** Sending has stopped at the first file that cannot be sent, after those with the headers hs. */
  ghost predicate StoppedAt(files: seq<File>, opens: File -> bool, hs: seq<Header>, h: Header) {
    && |hs| == Reached(files, opens) < |files| && HeadersFor(hs, files[..|hs|])
    && (|files[|hs|].name| <= MAX_PATH ==> HeaderFor(h, files[|hs|]))
  }

  /** What went out by then. */
  function Stopped(files: seq<File>, hs: seq<Header>, h: Header): seq<byte>
    requires |hs| < |files|
  {
    FilePackets(hs, files[..|hs|]) + Cut(h, files[|hs|])
  }

  lemma TransferParts(before: seq<byte>, hello: Header, hs: seq<Header>, files: seq<File>, end: Header)
    requires |hs| == |files|
    ensures before + Transfer(hello, hs, files, end)
         == before + HeaderBytes(hello) + FilePackets(hs, files) + HeaderBytes(end)
  {
    hide HeaderBytes, FilePackets;
  }

  /** Send file after file, until one cannot be sent. */
  method SendFiles(s: Socket, files: seq<File>, opens: File -> bool, pad: seq<byte>, md5: seq<byte>)
    returns (ok: bool, hs: seq<Header>, h: Header)
    requires |pad| == 2 && |md5| == 16
    requires forall i :: 0 <= i < |files| ==> |files[i].data| < 0x1_0000_0000_0000_0000
    modifies s`turn, s`outgoing
    ensures ok ==>
              && Reached(files, opens) == |files|
              && HeadersFor(hs, files) && s.outgoing == old(s.outgoing) + FilePackets(hs, files)
    ensures s.Works() && !ok ==> StoppedAt(files, opens, hs, h) && s.outgoing == old(s.outgoing) + Stopped(files, hs, h)
  {
    hs, h := [], EndHeader(pad);
    hide FilePackets, FilePacket, HeaderFor, HeaderBytes, Cut, Socket.Works, Stops;
    PacketsNone();
    for i := 0 to |files|
      invariant HeadersFor(hs, files[..i]) && s.outgoing == old(s.outgoing) + FilePackets(hs, files[..i])
      invariant forall j :: 0 <= j < i ==> !Stops(files[j], opens)
    {
      StopsIf(files[i], opens);
      ok, h := SendFilePacket(s, files[i], opens(files[i]), 1, pad, md5);
      if !ok {
        StopsAt(files, opens, i);
        return;
      }
      PacketsMore(hs, files[..i], h, files[i]);
      assert files[..i] + [files[i]] == files[..i + 1];
      hs := hs + [h];
    }
    assert files[..|files|] == files;
    StopsAt(files, opens, |files|);
    ok := true;
  }

  lemma StopsIf(file: File, opens: File -> bool)
    ensures Stops(file, opens) <==> |file.name| > MAX_PATH || !opens(file)
  {
  }

  lemma StopsAt(files: seq<File>, opens: File -> bool, k: nat)
    requires k <= |files| && forall i :: 0 <= i < k ==> !Stops(files[i], opens)
    ensures k == |files| || Stops(files[k], opens) ==> Reached(files, opens) == k
  {
  }

  lemma PacketsNone()
    ensures FilePackets([], []) == []
  {
  }

  lemma PacketsStep(hs: seq<Header>, files: seq<File>)
    requires |hs| == |files| && files != []
    ensures FilePackets(hs, files) == FilePacket(hs[0], files[0]) + FilePackets(hs[1..], files[1..])
  {
  }

  lemma {:induction false} PacketsMore(hs: seq<Header>, files: seq<File>, h: Header, file: File)
    requires |hs| == |files|
    ensures FilePackets(hs + [h], files + [file]) == FilePackets(hs, files) + FilePacket(h, file)
  {
    hide FilePacket;
    if files == [] {
      assert [h][1..] == [] && [file][1..] == [];
      assert hs + [h] == [h] && files + [file] == [file];
    } else {
      PacketsMore(hs[1..], files[1..], h, file);
      PacketsStep(hs, files);
      PacketsStep(hs + [h], files + [file]);
      hide FilePackets;
      assert (hs + [h])[1..] == hs[1..] + [h] && (files + [file])[1..] == files[1..] + [file];
    }
  }

  /** Receive files until the end packet; the result is whether it came, and the files written. */
  method HandleIncoming(s: Socket) returns (ok: bool, written: seq<File>)
    modifies s`turn, s`incoming
    ensures ok ==> Parse(old(s.incoming)) == Ended(written, s.incoming)
    ensures !ok ==> Parse(old(s.incoming)) == Failed(written)
  {
    written := [];
    BeforeNone(Parse(s.incoming));
    hide Parse, MagicOf, OpcodeOf, PathLenOf, FileSizeOf;
    while true
      invariant Parse(old(s.incoming)) == Before(written, Parse(s.incoming))
      decreases |s.incoming|
    {
      ghost var b := s.incoming;
      ParseStep(b);
      var hdr := new byte[HEADER];
      ok := RecvAll(s, hdr);
      if !ok {
        return;
      }
      var header := hdr[..];
      HeaderPart(b);
      if MagicOf(header) != MAGIC {
        return false, written;
      }
      if OpcodeOf(header) == OPCODE_END {
        return true, written;
      }
      if OpcodeOf(header) == OPCODE_HELLO {
        continue;
      }
      if OpcodeOf(header) == OPCODE_FILE {
        var received, file := RecvFile(s, PathLenOf(header), FileSizeOf(header));
        if !received {
          return false, written;
        }
        BeforeAfter(written, file, Parse(s.incoming));
        written := written + [file];
      }
    }
  }

  lemma HeaderPart(b: seq<byte>)
    ensures |b| >= HEADER ==>
              && MagicOf(b[..HEADER]) == MagicOf(b) && OpcodeOf(b[..HEADER]) == OpcodeOf(b)
              && PathLenOf(b[..HEADER]) == PathLenOf(b) && FileSizeOf(b[..HEADER]) == FileSizeOf(b)
  {
    hide Value;
    if |b| >= HEADER {
      assert b[..HEADER][0..4] == b[0..4] && b[..HEADER][6..8] == b[6..8];
      assert b[..HEADER][12..16] == b[12..16] && b[..HEADER][16..24] == b[16..24];
    }
  }

  lemma ParseStep(b: seq<byte>)
    ensures |b| < HEADER ==> Parse(b) == Failed([])
    ensures |b| >= HEADER && MagicOf(b) != MAGIC ==> Parse(b) == Failed([])
    ensures |b| >= HEADER && MagicOf(b) == MAGIC ==>
              var rest := b[HEADER..];
              if OpcodeOf(b) == OPCODE_END then Parse(b) == Ended([], rest)
              else if OpcodeOf(b) == OPCODE_FILE then
                var p, n := PathLenOf(b), FileSizeOf(b);
                if p >= MAX_FILE || |rest| < p || n >= MAX_FILE || |rest| < p + n then Parse(b) == Failed([])
                else Parse(b) == After(File(rest[..p], rest[p..][..n]), Parse(rest[p..][n..]))
              else Parse(b) == Parse(rest)
  {
    hide MagicOf, OpcodeOf, PathLenOf, FileSizeOf;
    if |b| >= HEADER && MagicOf(b) == MAGIC && OpcodeOf(b) == OPCODE_FILE {
      FileStep(b);
      hide Parse;
    }
  }

  lemma FileStep(b: seq<byte>)
    requires |b| >= HEADER && MagicOf(b) == MAGIC && OpcodeOf(b) == OPCODE_FILE
    ensures var rest, p, n := b[HEADER..], PathLenOf(b), FileSizeOf(b);
            if p >= MAX_FILE || |rest| < p || n >= MAX_FILE || |rest| < p + n then Parse(b) == Failed([])
            else Parse(b) == After(File(rest[..p], rest[p..][..n]), Parse(rest[p..][n..]))
  {
    hide MagicOf, OpcodeOf, PathLenOf, FileSizeOf;
    var p, n := PathLenOf(b), FileSizeOf(b);
    if |b[HEADER..]| >= p + n {
      Pieces(b, p, n);
    }
  }

  lemma Pieces(b: seq<byte>, p: nat, n: nat)
    requires HEADER + p + n <= |b|
    ensures var rest := b[HEADER..];
            && b[HEADER..HEADER + p] == rest[..p] && b[HEADER + p..HEADER + p + n] == rest[p..][..n]
            && b[HEADER + p + n..] == rest[p..][n..]
  {
  }

  /** Receive the name and the contents of a file. */
  method RecvFile(s: Socket, pathLen: nat, fileSize: nat) returns (ok: bool, file: File)
    modifies s`turn, s`incoming
    ensures ok <==> pathLen < MAX_FILE && fileSize < MAX_FILE && pathLen + fileSize <= |old(s.incoming)|
    ensures ok ==>
              var rest := old(s.incoming)[pathLen..];
              file == File(old(s.incoming)[..pathLen], rest[..fileSize]) && s.incoming == rest[fileSize..]
  {
    var utf8 := new byte[pathLen];
    file := File([], []);
    ok := RecvAll(s, utf8);
    if !ok {
      return;
    }
    var data := new byte[fileSize];
    ok := RecvAll(s, data);
    file := File(utf8[..], data[..]);
  }

  /** An upload, and what the other side makes of the stream, however the two ends cut it.  If every call of the upload
      succeeds, all files arrive and nothing is left over, just if each is smaller than 2 GiB; otherwise those before the
      first one that is not.  If it stops at a file, though no call of send fails, ArrivedPrefix says when what arrives is
      still a prefix of the files. */
  method Exchange(chunkOut: nat -> nat, breaks: nat -> bool, chunkIn: nat -> nat, files: seq<File>, opens: File -> bool,
                  timestamp: nat, pad: seq<byte>, md5: seq<byte>)
    returns (sent: bool, ok: bool, written: seq<File>, left: seq<byte>)
    requires |pad| == 2 && |md5| == 16 && timestamp < 0x1_0000_0000_0000_0000
    requires forall i :: 0 <= i < |files| ==> |files[i].data| < 0x1_0000_0000_0000_0000
    ensures sent ==> (ok <==> forall i :: 0 <= i < |files| ==> |files[i].data| < MAX_FILE)
    ensures sent && ok ==> written == files && left == []
    ensures sent && !ok ==> written == Sound(files)
    ensures (forall t :: !breaks(t)) ==> (sent <==> Reached(files, opens) == |files|)
    ensures (forall t :: !breaks(t)) && !sent ==> written == Arrived(files, opens, pad)
  {
    hide Parse, Sound, Transfer, EndHeader, Arrived, Reached, Stopped;
    var s := new Socket(chunkOut, breaks, []);
    var hello, hs, h;
    sent, hello, hs, h := Upload(s, files, opens, timestamp, pad, md5);
    var r := new Socket(chunkIn, breaks, s.outgoing);
    ok, written := HandleIncoming(r);
    left := r.incoming;
    if sent {
      SoundAll(files);
      EndInRange(pad);
      TransferBack(hello, hs, files, EndHeader(pad), []);
      assert [] + Transfer(hello, hs, files, EndHeader(pad)) == Transfer(hello, hs, files, EndHeader(pad)) + [];
    } else if s.Works() {
      StoppedBack(files, opens, pad, hello, hs, h);
    }
  }

  lemma StoppedBack(files: seq<File>, opens: File -> bool, pad: seq<byte>, hello: Header, hs: seq<Header>, h: Header)
    requires |pad| == 2 && InRange(hello) && hello.opcode == OPCODE_HELLO && StoppedAt(files, opens, hs, h)
    ensures Parse([] + HeaderBytes(hello) + Stopped(files, hs, h) + HeaderBytes(EndHeader(pad))).files
         == Arrived(files, opens, pad)
  {
    hide Parse, HeaderBytes, FilePackets, Sound, HeadersFor, HeaderFor, Reached, TakenFor, Cut, EndHeader, InRange, Before;
    var k, end := |hs|, HeaderBytes(EndHeader(pad));
    var front, cut := FilePackets(hs, files[..k]), Cut(h, files[k]);
    Regroup(HeaderBytes(hello), front, cut, end);
    Greeting(hello, front + (cut + end));
    ParseFront(hs, files[..k], cut + end);
    ParseCut(h, files[k], pad);
    BeforeFiles(files[..k], Parse(cut + end));
  }

  lemma Regroup(a: seq<byte>, b: seq<byte>, c: seq<byte>, d: seq<byte>)
    ensures [] + a + (b + c) + d == a + (b + (c + d))
  {
  }

  lemma BeforeFiles(files: seq<File>, o: Outcome)
    ensures Before(files, o).files == files + o.files
  {
  }

  lemma Greeting(hello: Header, rest: seq<byte>)
    requires InRange(hello) && hello.opcode == OPCODE_HELLO
    ensures Parse(HeaderBytes(hello) + rest) == Parse(rest)
  {
    HeaderBack(hello, rest);
    hide HeaderBytes, MagicOf, OpcodeOf;
  }
}
