/** One run of the discovery handshake: its variables, the text of its messages, and how it handles one that arrives. */
module PeerHandshake {
  import opened PeerMatching

  // ---------- The text of a message ----------

  function DigitChar(d: int): char
    requires 0 <= d < 16
  {
    "0123456789ABCDEF"[d]
  }

  /** The value of a hexadecimal digit, or -1. */
  function DigitValue(c: char): int {
    if '0' <= c <= '9' then c as int - '0' as int
    else if 'A' <= c <= 'F' then c as int - 'A' as int + 10
    else if 'a' <= c <= 'f' then c as int - 'a' as int + 10
    else -1
  }

  /** The last n hexadecimal digits of v. */
  function Hex(v: nat, n: nat): (r: string)
    ensures |r| == n
  {
    if n == 0 then "" else Hex(v / 16, n - 1) + [DigitChar(v % 16)]
  }

  /** Read hexadecimal digits as long as there are any, after the value read so far: the value and what follows. */
  function ReadHex(s: string, sofar: nat): (nat, string) {
    if s == "" || DigitValue(s[0]) == -1 then (sofar, s) else ReadHex(s[1..], 16 * sofar + DigitValue(s[0]))
  }

  /** v has at most n hexadecimal digits. */
  predicate Fits(v: nat, n: nat) {
    if n == 0 then v == 0 else Fits(v / 16, n - 1)
  }

  lemma {:induction false} ReadBack(v: nat, n: nat, rest: string)
    requires Fits(v, n)
    ensures ReadHex(Hex(v, n) + rest, 0) == ReadHex(rest, v)
    decreases n
  {
    if n == 0 {
      assert Hex(v, 0) + rest == rest;
    } else {
      var d := DigitChar(v % 16);
      DigitBack(v % 16);
      assert Hex(v, n) + rest == Hex(v / 16, n - 1) + ([d] + rest);
      ReadBack(v / 16, n - 1, [d] + rest);
      assert ([d] + rest)[1..] == rest;
    }
  }

  lemma DigitBack(d: int)
    requires 0 <= d < 16
    ensures DigitValue(DigitChar(d)) == d
  {
  }

  lemma IdFits(id: Id)
    ensures Fits(id, 16)
  {
    Shorter(id, 12, 0x1_0000);
    Shorter(id / 0x1_0000, 8, 0x1_0000);
    Shorter(id / 0x1_0000 / 0x1_0000, 4, 0x1_0000);
    Shorter(id / 0x1_0000 / 0x1_0000 / 0x1_0000, 0, 0x1_0000);
  }

  lemma Shorter(v: nat, n: nat, k: int)
    requires k == 0x1_0000
    ensures Fits(v, n + 4) == Fits(v / k, n)
  {
    assert Fits(v, n + 4) == Fits(v / 16, n + 3) == Fits(v / 16 / 16, n + 2);
    assert Fits(v / 16 / 16, n + 2) == Fits(v / 16 / 16 / 16, n + 1) == Fits(v / 16 / 16 / 16 / 16, n);
    assert v / 16 / 16 / 16 / 16 == v / 0x1_0000;
  }

  const HELLO := "HELLO "
  const ACK := "ACK "

  function Text(msg: Msg): string {
    match msg
    case Hello(id) => HELLO + Hex(id, 16)
    case Ack(fromId, toId) => ACK + Hex(fromId, 16) + " " + Hex(toId, 16)
  }

  predicate StartsWith(s: string, prefix: string) {
    |prefix| <= |s| && s[..|prefix|] == prefix
  }

  /** What the handler reads out of a text: an ordinary number follows the keyword, or for an ACK two numbers with a
      blank between them; anything else is not a message. */
  function Parse(s: string): Option<Msg> {
    if StartsWith(s, HELLO) then
      var (id, rest) := ReadHex(s[6..], 0);
      if rest == s[6..] then None else ToId(id, i => Some(Hello(i)))
    else if StartsWith(s, ACK) then
      var (fromId, rest) := ReadHex(s[4..], 0);
      if rest == s[4..] || rest == "" || rest[0] != ' ' then None
      else
        var (toId, rest2) := ReadHex(rest[1..], 0);
        if rest2 == rest[1..] then None else ToId(fromId, f => ToId(toId, t => Some(Ack(f, t))))
    else None
  }

  function ToId<T>(v: nat, f: Id -> Option<T>): Option<T> {
    if v < 0x1_0000_0000_0000_0000 then f(v) else None
  }

  /** Every message is read as it was written. */
  lemma TextBack(msg: Msg)
    ensures Parse(Text(msg)) == Some(msg)
  {
    var text := Text(msg);
    match msg
    case Hello(id) =>
      IdFits(id);
      assert text[..6] == HELLO && text[6..] == Hex(id, 16) + "";
      ReadBack(id, 16, "");
      hide Hex, Fits;
    case Ack(fromId, toId) =>
      IdFits(fromId);
      IdFits(toId);
      var rest := " " + Hex(toId, 16);
      assert text[..4] == ACK && text[4..] == Hex(fromId, 16) + rest;
      ReadBack(fromId, 16, rest);
      assert rest[1..] == Hex(toId, 16) + "";
      ReadBack(toId, 16, "");
      assert ReadHex(rest, fromId) == (fromId, rest);
      hide Hex, Fits;
  }

  // ---------- A run ----------

  class Handshake {
    const selfId: Id
    var peerId: Id
    var peerIp: string
    var havePeer: bool
    var sawHello: bool
    var sawAck: bool

    ghost function View(): Node
      reads this
    {
      Node(selfId, peerId, havePeer, peerIp, sawHello, sawAck)
    }

    constructor (selfId: Id)
      ensures View() == Fresh(selfId)
    {
      this.selfId, peerId, peerIp := selfId, 0, "";
      havePeer, sawHello, sawAck := false, false, false;
    }

    /** A text arrives from an address; the result is the text of the answer, if there is one. */
    method Handle(msg: string, ip: string) returns (reply: Option<string>)
      modifies this
      ensures match Parse(msg)
              case None => View() == old(View()) && reply == None
              case Some(m) =>
                var (n, r) := OnMsg(old(View()), m, ip);
                View() == n && reply == match r case None => None case Some(a) => Some(Text(a))
    {
      reply := None;
      var parsed := Parse(msg);
      hide Parse, Text;
      match parsed {
        case None =>
        case Some(Hello(id)) =>
          if id != selfId {
            if !havePeer {
              peerId := id;
              peerIp := ip;
              havePeer := true;
            }
            if peerId == id {
              sawHello := true;
              reply := Some(Text(Ack(selfId, peerId)));
            }
          }
        case Some(Ack(fromId, toId)) =>
          if toId == selfId {
            if !havePeer {
              peerId := fromId;
              peerIp := ip;
              havePeer := true;
            }
            if peerId == fromId {
              sawAck := true;
            }
          }
      }
    }

    /** What the run reports when its loop ends. */
    method Outcome() returns (success: bool)
      ensures success == Success(View())
    {
      success := sawHello && sawAck && havePeer && peerIp != "";
    }
  }
}
