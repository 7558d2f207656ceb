/** The file transfer of the application: a stream of packets, each with a header of 40 bytes, a file packet followed by
    the name and the contents of the file. */
module SyncFraming {
  import opened Packets

  // ---------- Numbers in memory ----------

  /** The n bytes of a number, the lowest one first. */
  function Bytes(v: nat, n: nat): (r: seq<byte>)
    ensures |r| == n
  {
    if n == 0 then [] else [v % 256] + Bytes(v / 256, n - 1)
  }

  function Value(s: seq<byte>): nat {
    if s == [] then 0 else s[0] + 256 * Value(s[1..])
  }

  /** v takes at most n bytes. */
  predicate Fits(v: nat, n: nat) {
    if n == 0 then v == 0 else Fits(v / 256, n - 1)
  }

  lemma {:induction false} ValueBack(v: nat, n: nat)
    requires Fits(v, n)
    ensures Value(Bytes(v, n)) == v
  {
    if n > 0 {
      ValueBack(v / 256, n - 1);
      assert Bytes(v, n)[1..] == Bytes(v / 256, n - 1);
    }
  }

  lemma FitsTwo(v: nat, n: nat)
    ensures Fits(v, n + 2) == Fits(v / 0x1_0000, n)
  {
    assert Fits(v, n + 2) == Fits(v / 256, n + 1) == Fits(v / 256 / 256, n);
    assert v / 256 / 256 == v / 0x1_0000;
  }

  lemma FitsWord(v: nat)
    ensures v < 0x1_0000 ==> Fits(v, 2)
    ensures v < 0x1_0000_0000 ==> Fits(v, 4)
    ensures v < 0x1_0000_0000_0000_0000 ==> Fits(v, 8)
  {
    FitsTwo(v, 0);
    FitsTwo(v, 2);
    FitsTwo(v / 0x1_0000, 0);
    FitsTwo(v, 6);
    FitsTwo(v / 0x1_0000, 4);
    FitsTwo(v / 0x1_0000 / 0x1_0000, 2);
    FitsTwo(v / 0x1_0000 / 0x1_0000 / 0x1_0000, 0);
  }

  // ---------- The header ----------

  const OPCODE_HELLO: int := 1
  const OPCODE_FILE: int := 2
  const OPCODE_END: int := 3
  const HEADER: int := 40
  const MAX_PATH: int := 0x1_0000
  const MAX_FILE: int := 0x8000_0000

  const MAGIC: seq<byte> := ['D' as int, 'S' as int, 'Y' as int, 'C' as int]

  /** A packet header; pad are the two bytes that alignment leaves unused between kind and pathLen. */
  datatype Header = Header(version: nat, opcode: nat, kind: nat, pad: seq<byte>, pathLen: nat, fileSize: nat, md5: seq<byte>)

  ghost predicate InRange(h: Header) {
    && h.version < 0x1_0000 && h.opcode < 0x1_0000 && h.kind < 0x1_0000 && |h.pad| == 2
    && h.pathLen < 0x1_0000_0000 && h.fileSize < 0x1_0000_0000_0000_0000 && |h.md5| == 16
  }

  /** The header as it lies in memory. */
  function HeaderBytes(h: Header): (r: seq<byte>)
    ensures |h.pad| == 2 && |h.md5| == 16 ==> |r| == HEADER
  {
    MAGIC + Bytes(h.version, 2) + Bytes(h.opcode, 2) + Bytes(h.kind, 2) + h.pad + Bytes(h.pathLen, 4)
    + Bytes(h.fileSize, 8) + h.md5
  }

  function MagicOf(b: seq<byte>): seq<byte>
    requires |b| >= HEADER
  {
    b[0..4]
  }

  function OpcodeOf(b: seq<byte>): nat
    requires |b| >= HEADER
  {
    Value(b[6..8])
  }

  function PathLenOf(b: seq<byte>): nat
    requires |b| >= HEADER
  {
    Value(b[12..16])
  }

  function FileSizeOf(b: seq<byte>): nat
    requires |b| >= HEADER
  {
    Value(b[16..24])
  }

  /** The fields are read back where they were written. */
  lemma HeaderBack(h: Header, rest: seq<byte>)
    requires InRange(h)
    ensures var b := HeaderBytes(h) + rest;
            && MagicOf(b) == MAGIC && OpcodeOf(b) == h.opcode && PathLenOf(b) == h.pathLen && FileSizeOf(b) == h.fileSize
            && b[HEADER..] == rest && b[..HEADER] == HeaderBytes(h)
  {
    var b := HeaderBytes(h) + rest;
    FitsWord(h.opcode);
    FitsWord(h.pathLen);
    FitsWord(h.fileSize);
    ValueBack(h.opcode, 2);
    ValueBack(h.pathLen, 4);
    ValueBack(h.fileSize, 8);
    hide Fits, Value, Bytes;
    assert b[6..8] == Bytes(h.opcode, 2);
    assert b[12..16] == Bytes(h.pathLen, 4);
    assert b[16..24] == Bytes(h.fileSize, 8);
  }

  /** No two headers look the same. */
  lemma HeaderUnique(h: Header, h2: Header)
    requires InRange(h) && InRange(h2) && HeaderBytes(h) == HeaderBytes(h2)
    ensures h == h2
  {
    var b := HeaderBytes(h);
    FieldsAt(h);
    FieldsAt(h2);
    hide HeaderBytes;
    BytesUnique(h.version, h2.version, 2);
    BytesUnique(h.opcode, h2.opcode, 2);
    BytesUnique(h.kind, h2.kind, 2);
    BytesUnique(h.pathLen, h2.pathLen, 4);
    BytesUnique(h.fileSize, h2.fileSize, 8);
  }

  lemma FieldsAt(h: Header)
    requires InRange(h)
    ensures var b := HeaderBytes(h);
            && |b| == HEADER && b[4..6] == Bytes(h.version, 2) && b[6..8] == Bytes(h.opcode, 2) && b[8..10] == Bytes(h.kind, 2)
            && b[10..12] == h.pad && b[12..16] == Bytes(h.pathLen, 4) && b[16..24] == Bytes(h.fileSize, 8) && b[24..] == h.md5
  {
    hide Bytes;
  }

  lemma BytesUnique(v: nat, v2: nat, n: nat)
    requires Bytes(v, n) == Bytes(v2, n) && (n == 2 || n == 4 || n == 8)
    requires n == 2 ==> v < 0x1_0000 && v2 < 0x1_0000
    requires n == 4 ==> v < 0x1_0000_0000 && v2 < 0x1_0000_0000
    requires n == 8 ==> v < 0x1_0000_0000_0000_0000 && v2 < 0x1_0000_0000_0000_0000
    ensures v == v2
  {
    FitsWord(v);
    FitsWord(v2);
    ValueBack(v, n);
    ValueBack(v2, n);
    hide Bytes, Value, Fits;
  }

  // ---------- The stream ----------

  datatype File = File(name: seq<byte>, data: seq<byte>)

  /** The files that were written, and if the end packet was reached, what follows it. */
  datatype Outcome = Ended(files: seq<File>, rest: seq<byte>) | Failed(files: seq<File>)

  function After(file: File, o: Outcome): Outcome {
    match o
    case Ended(files, rest) => Ended([file] + files, rest)
    case Failed(files) => Failed([file] + files)
  }

  /** What the receiver makes of a stream. */
  function Parse(b: seq<byte>): Outcome
    decreases |b|
  {
    if |b| < HEADER || MagicOf(b) != MAGIC then Failed([])
    else if OpcodeOf(b) == OPCODE_END then Ended([], b[HEADER..])
    else if OpcodeOf(b) == OPCODE_FILE then
      var p, n := HEADER + PathLenOf(b), FileSizeOf(b);
      if PathLenOf(b) >= MAX_FILE || |b| < p || n >= MAX_FILE || |b| < p + n then Failed([])
      else After(File(b[HEADER..p], b[p..p + n]), Parse(b[p + n..]))
    else Parse(b[HEADER..])
  }

  /** A file packet; the receiver ignores version, kind and md5. */
  function FilePacket(h: Header, file: File): seq<byte> {
    HeaderBytes(h) + file.name + file.data
  }

  /** The sender refuses names longer than this. */
  ghost predicate HeaderFor(h: Header, file: File) {
    InRange(h) && |file.name| <= MAX_PATH && h.opcode == OPCODE_FILE && h.pathLen == |file.name| && h.fileSize == |file.data|
  }

  function Transfer(hello: Header, hs: seq<Header>, files: seq<File>, end: Header): seq<byte>
    requires |hs| == |files|
  {
    HeaderBytes(hello) + FilePackets(hs, files) + HeaderBytes(end)
  }

  function FilePackets(hs: seq<Header>, files: seq<File>): seq<byte>
    requires |hs| == |files|
  {
    if files == [] then [] else FilePacket(hs[0], files[0]) + FilePackets(hs[1..], files[1..])
  }

  ghost predicate HeadersFor(hs: seq<Header>, files: seq<File>) {
    |hs| == |files| && forall i :: 0 <= i < |hs| ==> HeaderFor(hs[i], files[i])
  }

  lemma ParseFields(b: seq<byte>, p: nat, n: nat)
    requires |b| >= HEADER && MagicOf(b) == MAGIC && OpcodeOf(b) == OPCODE_FILE && FileSizeOf(b) == n
    requires p == HEADER + PathLenOf(b) <= |b| && PathLenOf(b) < MAX_FILE
    ensures Parse(b)
         == if n < MAX_FILE && p + n <= |b| then After(File(b[HEADER..p], b[p..p + n]), Parse(b[p + n..])) else Failed([])
  {
    hide MagicOf, OpcodeOf, PathLenOf, FileSizeOf;
  }

  /** A file header and name take as many bytes of what follows as the header says. */
  lemma ParseHead(h: Header, file: File, tail: seq<byte>)
    requires HeaderFor(h, file)
    ensures var n := |file.data|;
            Parse(HeaderBytes(h) + (file.name + tail))
            == if n < MAX_FILE && n <= |tail| then After(File(file.name, tail[..n]), Parse(tail[n..])) else Failed([])
  {
    var b, n, p := HeaderBytes(h) + (file.name + tail), |file.data|, HEADER + |file.name|;
    HeaderBack(h, file.name + tail);
    hide HeaderBytes, MagicOf, OpcodeOf, PathLenOf, FileSizeOf, Parse;
    ParseFields(b, p, n);
    Slices(b, HeaderBytes(h), file.name, tail, p, n);
  }

  lemma Slices(b: seq<byte>, header: seq<byte>, name: seq<byte>, tail: seq<byte>, p: nat, n: nat)
    requires b == header + (name + tail) && p == |header| + |name|
    ensures b[|header|..p] == name && |b| == p + |tail|
    ensures n <= |tail| ==> b[p..p + n] == tail[..n] && b[p + n..] == tail[n..]
  {
  }

  lemma ParseFile(h: Header, file: File, rest: seq<byte>)
    requires HeaderFor(h, file)
    ensures Parse(FilePacket(h, file) + rest) == if |file.data| < MAX_FILE then After(file, Parse(rest)) else Failed([])
  {
    hide HeaderBytes, HeaderFor, Parse;
    ParseHead(h, file, file.data + rest);
    assert FilePacket(h, file) + rest == HeaderBytes(h) + (file.name + (file.data + rest));
    assert (file.data + rest)[..|file.data|] == file.data && (file.data + rest)[|file.data|..] == rest;
  }

  /** The files before the first one that is too large. */
  function Sound(files: seq<File>): seq<File> {
    if files == [] || |files[0].data| >= MAX_FILE then [] else [files[0]] + Sound(files[1..])
  }

  lemma {:induction false} SoundAll(files: seq<File>)
    ensures Sound(files) <= files
    ensures Sound(files) == files <==> forall i :: 0 <= i < |files| ==> |files[i].data| < MAX_FILE
  {
    if files != [] {
      SoundAll(files[1..]);
      if |files[0].data| < MAX_FILE {
        assert files == [files[0]] + files[1..];
        assert forall i :: 0 <= i < |files| - 1 ==> files[1..][i] == files[i + 1];
        assert Sound(files) == [files[0]] + Sound(files[1..]);
        assert Sound(files)[1..] == Sound(files[1..]);
      }
    }
  }

  /** The files before, and then what is made of the rest. */
  function Before(files: seq<File>, o: Outcome): Outcome {
    match o
    case Ended(more, rest) => Ended(files + more, rest)
    case Failed(more) => Failed(files + more)
  }

  lemma BeforeAfter(files: seq<File>, file: File, o: Outcome)
    ensures Before(files, After(file, o)) == Before(files + [file], o)
  {
    match o
    case Ended(more, _) => assert files + ([file] + more) == files + [file] + more;
    case Failed(more) => assert files + ([file] + more) == files + [file] + more;
  }

  lemma BeforeNone(o: Outcome)
    ensures Before([], o) == o
  {
  }

  lemma BeforeOne(file: File, files: seq<File>, o: Outcome)
    ensures After(file, Before(files, o)) == Before([file] + files, o)
  {
  }

  /** The packets of some files, and then more. */
  lemma {:induction false} ParseFront(hs: seq<Header>, files: seq<File>, more: seq<byte>)
    requires HeadersFor(hs, files)
    ensures Parse(FilePackets(hs, files) + more)
         == if Sound(files) == files then Before(files, Parse(more)) else Failed(Sound(files))
    decreases |files|
  {
    hide Parse, FilePacket, HeaderBytes;
    if files == [] {
      assert FilePackets(hs, files) + more == more;
      BeforeNone(Parse(more));
    } else {
      var next := FilePackets(hs[1..], files[1..]) + more;
      assert FilePackets(hs, files) + more == FilePacket(hs[0], files[0]) + next;
      ParseFile(hs[0], files[0], next);
      ParseFront(hs[1..], files[1..], more);
      SoundStep(files);
      BeforeOne(files[0], files[1..], Parse(more));
      hide Sound, FilePackets;
    }
  }

  lemma ParseFiles(hs: seq<Header>, files: seq<File>, end: Header, rest: seq<byte>)
    requires HeadersFor(hs, files) && InRange(end) && end.opcode == OPCODE_END
    ensures Parse(FilePackets(hs, files) + HeaderBytes(end) + rest)
         == if Sound(files) == files then Ended(files, rest) else Failed(Sound(files))
  {
    hide Parse, FilePackets, HeaderBytes, Sound;
    assert FilePackets(hs, files) + HeaderBytes(end) + rest == FilePackets(hs, files) + (HeaderBytes(end) + rest);
    ParseFront(hs, files, HeaderBytes(end) + rest);
    ParseEnd(end, rest);
  }

  lemma ParseEnd(end: Header, rest: seq<byte>)
    requires InRange(end) && end.opcode == OPCODE_END
    ensures Parse(HeaderBytes(end) + rest) == Ended([], rest)
  {
    HeaderBack(end, rest);
    hide HeaderBytes, MagicOf, OpcodeOf;
  }

  lemma SoundStep(files: seq<File>)
    requires files != []
    ensures |files[0].data| < MAX_FILE ==>
              && Sound(files) == [files[0]] + Sound(files[1..])
              && (Sound(files) == files <==> Sound(files[1..]) == files[1..])
    ensures |files[0].data| >= MAX_FILE ==> Sound(files) == [] && Sound(files) != files
    ensures files == [files[0]] + files[1..]
  {
    if |files[0].data| < MAX_FILE {
      assert Sound(files)[1..] == Sound(files[1..]);
    }
  }

  /** Everything sent is written, in order, and the whole stream is used up, just if every file is smaller than 2 GiB. */
  lemma TransferBack(hello: Header, hs: seq<Header>, files: seq<File>, end: Header, rest: seq<byte>)
    requires InRange(hello) && hello.opcode == OPCODE_HELLO && InRange(end) && end.opcode == OPCODE_END
    requires HeadersFor(hs, files)
    ensures Parse(Transfer(hello, hs, files, end) + rest) == Ended(files, rest)
       <==> forall i :: 0 <= i < |files| ==> |files[i].data| < MAX_FILE
    ensures Parse(Transfer(hello, hs, files, end) + rest)
         == if Sound(files) == files then Ended(files, rest) else Failed(Sound(files))
  {
    var more := FilePackets(hs, files) + HeaderBytes(end) + rest;
    assert Transfer(hello, hs, files, end) + rest == HeaderBytes(hello) + more;
    HeaderBack(hello, more);
    ParseFiles(hs, files, end, rest);
    SoundAll(files);
    hide FilePackets, HeaderBytes, MagicOf, OpcodeOf, Sound;
  }

  // ---------- An upload that stops ----------

  /** The sender stops at a file whose name is too long, or which it cannot open. */
  predicate Stops(file: File, opens: File -> bool) {
    |file.name| > MAX_PATH || !opens(file)
  }

  /** The index of the file at which it stops, or |files|. */
  function Reached(files: seq<File>, opens: File -> bool): (k: nat)
    ensures k <= |files| && (k < |files| ==> Stops(files[k], opens)) && forall i :: 0 <= i < k ==> !Stops(files[i], opens)
  {
    if files == [] || Stops(files[0], opens) then 0
    else
      assert forall i :: 0 < i < |files| ==> files[i] == files[1..][i - 1];
      1 + Reached(files[1..], opens)
  }

  /** What goes out for that file: its header and name, if the name is not too long. */
  function Cut(h: Header, file: File): seq<byte> {
    if |file.name| > MAX_PATH then [] else HeaderBytes(h) + file.name
  }

  /** The header of the end packet. */
  function EndHeader(pad: seq<byte>): Header {
    Header(1, OPCODE_END, 0, pad, 0, 0, seq(16, _ => 0))
  }

  /** What the receiver takes the cut packet for, when the end packet follows: a small file, filled with the first bytes
      of the end packet. */
  function TakenFor(file: File, pad: seq<byte>): seq<File> {
    if |file.name| > MAX_PATH || |HeaderBytes(EndHeader(pad))| < |file.data| then []
    else [File(file.name, HeaderBytes(EndHeader(pad))[..|file.data|])]
  }

  lemma EndInRange(pad: seq<byte>)
    requires |pad| == 2
    ensures InRange(EndHeader(pad)) && EndHeader(pad).opcode == OPCODE_END && |HeaderBytes(EndHeader(pad))| == HEADER
  {
    hide HeaderBytes;
  }

  lemma ParseCut(h: Header, file: File, pad: seq<byte>)
    requires |pad| == 2 && (|file.name| <= MAX_PATH ==> HeaderFor(h, file))
    ensures var o := Parse(Cut(h, file) + HeaderBytes(EndHeader(pad)));
            o.files == TakenFor(file, pad) && (o.Ended? <==> |file.name| > MAX_PATH || file.data == []) && (o.Ended? ==> o.rest == [])
  {
    hide HeaderBytes, EndHeader, Parse, HeaderFor;
    var end := HeaderBytes(EndHeader(pad));
    if |file.name| > MAX_PATH {
      assert Cut(h, file) + end == end;
      ParseEndHeader(pad);
    } else {
      assert Cut(h, file) + end == HeaderBytes(h) + (file.name + end);
      ParseCutFile(h, file, pad);
    }
  }

  lemma ParseEndHeader(pad: seq<byte>)
    requires |pad| == 2
    ensures Parse(HeaderBytes(EndHeader(pad))) == Ended([], [])
  {
    EndInRange(pad);
    hide HeaderBytes, Parse, InRange;
    ParseEnd(EndHeader(pad), []);
    assert HeaderBytes(EndHeader(pad)) + [] == HeaderBytes(EndHeader(pad));
  }

  lemma ParseCutFile(h: Header, file: File, pad: seq<byte>)
    requires |pad| == 2 && |file.name| <= MAX_PATH && HeaderFor(h, file)
    ensures var o := Parse(HeaderBytes(h) + (file.name + HeaderBytes(EndHeader(pad))));
            && o.files == TakenFor(file, pad) && (o.Ended? <==> file.data == []) && (o.Ended? ==> o.rest == [])
  {
    EndInRange(pad);
    ParseEndHeader(pad);
    var end, n := HeaderBytes(EndHeader(pad)), |file.data|;
    hide HeaderBytes, HeaderFor, MagicOf, OpcodeOf, PathLenOf, FileSizeOf, EndHeader, InRange;
    ParseHead(h, file, end);
    if n == 0 {
      assert end[0..] == end;
    }
  }

  /** What arrives of an upload that stops. */
  function Arrived(files: seq<File>, opens: File -> bool, pad: seq<byte>): seq<File> {
    var k := Reached(files, opens);
    if Sound(files[..k]) != files[..k] || k == |files| then Sound(files[..k])
    else files[..k] + TakenFor(files[k], pad)
  }

  /** A file that could not be opened arrives as something else. */
  predicate Garbles(files: seq<File>, opens: File -> bool, pad: seq<byte>) {
    var k := Reached(files, opens);
    && k < |files| && Sound(files[..k]) == files[..k] && |files[k].name| <= MAX_PATH
    && 1 <= |files[k].data| <= |HeaderBytes(EndHeader(pad))|
    && files[k].data != HeaderBytes(EndHeader(pad))[..|files[k].data|]
  }

  /** What arrives is a prefix of the files, unless the one that could not be opened has 1 to 40 bytes, and not by chance
      those of the end packet. */
  lemma ArrivedPrefix(files: seq<File>, opens: File -> bool, pad: seq<byte>)
    ensures Arrived(files, opens, pad) <= files <==> !Garbles(files, opens, pad)
  {
    hide HeaderBytes;
    var k := Reached(files, opens);
    SoundAll(files[..k]);
    if k < |files| && Sound(files[..k]) == files[..k] && TakenFor(files[k], pad) != [] {
      assert files[..k + 1] == files[..k] + [files[k]];
      assert Arrived(files, opens, pad)[k] == TakenFor(files[k], pad)[0];
    }
  }
}
