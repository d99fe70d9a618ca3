/** Reading the replies to a port description request: `discover_ports` of
    `controller.rs`, on the messages that arrive. The layout of a reply is that of section
    A.3.5 of the OpenFlow Switch Specification 1.3.0. */
module PortDiscovery {
  import opened Text
  import opened OpenFlow

  const ECHO_REQUEST: Byte := 2
  const MULTIPART_REPLY: Byte := 19
  const PORT_DESC := 13
  const OFPP_ANY: nat := 0xFFFF_FFFF

  datatype RawMsg = RawMsg(msgType: Byte, xid: nat, payload: Bytes)

  /** What an echo reply repeats of its request. */
  datatype Echo = Echo(xid: nat, payload: Bytes)

  // ---------------------------------------------------------------- one port

  /** `trim_end_matches('\0')`. */
  function TrimNul(s: string): string {
    if s != "" && s[|s| - 1] == '\0' then TrimNul(s[..|s| - 1]) else s
  }

  function PortNumber(chunk: Bytes): nat
    requires |chunk| == 64
  {
    BigEndian(chunk[..4])
  }

  function PortName(chunk: Bytes): string
    requires |chunk| == 64
  {
    TrimNul(FromUtf8Lossy(chunk[16..32]))
  }

  predicate Listed(chunk: Bytes)
    requires |chunk| == 64
  {
    PortName(chunk) != "" && PortNumber(chunk) < OFPP_ANY
  }

  function AddPort(ports: PortMap, chunk: Bytes): PortMap
    requires |chunk| == 64
  {
    if Listed(chunk) then ports[PortName(chunk) := PortNumber(chunk)] else ports
  }

  type Chunk = b: Bytes | |b| == 64 witness seq(64, i => 0)

  function AddPorts(ports: PortMap, chunks: seq<Chunk>): PortMap {
    if chunks == [] then ports else AddPort(AddPorts(ports, chunks[..|chunks| - 1]), chunks[|chunks| - 1])
  }

  lemma {:induction false} AddPortsConcat(ports: PortMap, a: seq<Chunk>, b: seq<Chunk>)
    ensures AddPorts(ports, a + b) == AddPorts(AddPorts(ports, a), b)
  {
    if b == [] {
      assert a + b == a;
    } else {
      assert (a + b)[..|a + b| - 1] == a + b[..|b| - 1];
      AddPortsConcat(ports, a, b[..|b| - 1]);
    }
  }

  /** The last listed port of that name, if any. */
  predicate LastNamed(chunks: seq<Chunk>, i: nat, name: string)
  {
    i < |chunks| && Listed(chunks[i]) && PortName(chunks[i]) == name &&
    forall j | i < j < |chunks| :: Listed(chunks[j]) ==> PortName(chunks[j]) != name
  }

  /** The map holds exactly the names of listed ports, each with the number of the last
      port so named. */
  lemma {:induction false} PortsAreTheLastNamed(chunks: seq<Chunk>, name: string)
    ensures name in AddPorts(map[], chunks) <==> exists i: nat :: LastNamed(chunks, i, name)
    ensures forall i: nat | LastNamed(chunks, i, name) :: AddPorts(map[], chunks)[name] == PortNumber(chunks[i])
  {
    hide PortName, PortNumber;
    if chunks != [] {
      var before, last := chunks[..|chunks| - 1], chunks[|chunks| - 1];
      PortsAreTheLastNamed(before, name);
      if Listed(last) && PortName(last) == name {
        assert LastNamed(chunks, |chunks| - 1, name);
      } else {
        forall i: nat ensures LastNamed(chunks, i, name) <==> LastNamed(before, i, name) { }
      }
    }
  }

  /** A port as a switch writes it: number, padding, hardware address, padding, the name
      filled up with zeros, and 32 bytes of states and speeds. */
  function PortBytes(number: nat, address: Bytes, name: string, rest: Bytes): Chunk
    requires |address| == 6 && |Utf8(name)| <= 16 && |rest| == 32
  {
    BigEndianBytes(number, 4) + [0, 0, 0, 0] + address + [0, 0] + NameBytes(name) + rest
  }

  function NameBytes(name: string): (b: Bytes)
    requires |Utf8(name)| <= 16
    ensures |b| == 16
  {
    Utf8(name) + seq(16 - |Utf8(name)|, i => 0)
  }

  function Nuls(n: nat): string { seq(n, i => '\0') }

  lemma {:induction false} Utf8OfNuls(s: string, n: nat)
    ensures Utf8(s + Nuls(n)) == Utf8(s) + seq(n, i => 0)
    decreases |s| + n
  {
    if s != "" {
      assert (s + Nuls(n))[1..] == s[1..] + Nuls(n);
      Utf8OfNuls(s[1..], n);
    } else if n > 0 {
      assert s + Nuls(n) == Nuls(n) && Nuls(n)[1..] == Nuls(n - 1) && "" + Nuls(n - 1) == Nuls(n - 1);
      Utf8OfNuls("", n - 1);
      assert seq(n, i => 0 as Byte) == [0] + seq(n - 1, i => 0 as Byte);
    } else {
      assert s + Nuls(n) == "";
    }
  }

  lemma {:induction false} NulsAreTrimmed(s: string, n: nat)
    requires s == "" || s[|s| - 1] != '\0'
    ensures TrimNul(s + Nuls(n)) == s
  {
    if n > 0 {
      assert (s + Nuls(n))[..|s| + n - 1] == s + Nuls(n - 1);
      NulsAreTrimmed(s, n - 1);
    } else {
      assert s + Nuls(n) == s;
    }
  }

  /** A port reads back with its number and name, and is listed if its name is not empty and
      its number is that of a port. */
  lemma PortReadsBack(number: nat, address: Bytes, name: string, rest: Bytes)
    requires |address| == 6 && |Utf8(name)| <= 16 && |rest| == 32 && number < U32
    requires name == "" || name[|name| - 1] != '\0'
    ensures
      var chunk := PortBytes(number, address, name, rest);
      PortNumber(chunk) == number && PortName(chunk) == name && (Listed(chunk) <==> name != "" && number != 0xffff_ffff)
  {
    hide Utf8, FromUtf8Lossy, BigEndian, BigEndianBytes, TrimNul;
    var chunk, n := PortBytes(number, address, name, rest), 16 - |Utf8(name)|;
    assert chunk[..4] == BigEndianBytes(number, 4) && chunk[16..32] == NameBytes(name);
    FourBytesHold(number);
    BigEndianRoundTrip(number, 4);
    Utf8OfNuls(name, n);
    Utf8RoundTrip(name + Nuls(n));
    NulsAreTrimmed(name, n);
  }

  lemma FourBytesHold(number: nat)
    requires number < U32
    ensures number < Pow256(4)
  {
    assert Pow256(1) == 256;
    assert Pow256(2) == 256 * Pow256(1);
    assert Pow256(3) == 256 * Pow256(2);
    assert Pow256(4) == 256 * Pow256(3);
  }

  // ---------------------------------------------------------------- one reply

  /** `chunks_exact(64)`: a shorter rest is ignored. */
  function Chunks(body: Bytes): seq<Chunk> {
    if |body| < 64 then [] else [body[..64]] + Chunks(body[64..])
  }

  predicate IsPortReply(m: RawMsg) {
    m.msgType == MULTIPART_REPLY && |m.payload| >= 8 && BigEndian(m.payload[..2]) == PORT_DESC
  }

  /** Bit 0 of the flags: more replies follow. */
  predicate More(m: RawMsg)
    requires IsPortReply(m)
  {
    BigEndian(m.payload[2..4]) % 2 == 1
  }

  function PortsIn(m: RawMsg): seq<Chunk> {
    if IsPortReply(m) then Chunks(m.payload[8..]) else []
  }

  function EchoesIn(m: RawMsg): seq<Echo> {
    if m.msgType == ECHO_REQUEST then [Echo(m.xid, m.payload)] else []
  }

  /** Discovery goes on after this message. */
  predicate Continues(m: RawMsg) {
    m.msgType == ECHO_REQUEST || (IsPortReply(m) && More(m))
  }

  // ---------------------------------------------------------------- the loop

  /** The ports found, the echoes answered and the messages not read; or the connection
      closed first. */
  datatype Outcome = Found(ports: PortMap, echoes: seq<Echo>, rest: seq<RawMsg>) | Closed(echoes: seq<Echo>)

  function Discover(ports: PortMap, echoes: seq<Echo>, inbox: seq<RawMsg>): Outcome
    decreases |inbox|
  {
    if inbox == [] then Closed(echoes)
    else
      var m := inbox[0];
      if m.msgType == ECHO_REQUEST then Discover(ports, echoes + [Echo(m.xid, m.payload)], inbox[1..])
      else if m.msgType == MULTIPART_REPLY then
        if |m.payload| < 8 then Found(ports, echoes, inbox[1..])
        else if BigEndian(m.payload[..2]) == PORT_DESC then
          var ports' := AddPorts(ports, Chunks(m.payload[8..]));
          if BigEndian(m.payload[2..4]) % 2 == 0 then Found(ports', echoes, inbox[1..])
          else Discover(ports', echoes, inbox[1..])
        else Found(ports, echoes, inbox[1..])
      else Found(ports, echoes, inbox[1..])
  }

  function AllPorts(msgs: seq<RawMsg>): seq<Chunk> {
    if msgs == [] then [] else PortsIn(msgs[0]) + AllPorts(msgs[1..])
  }

  function AllEchoes(msgs: seq<RawMsg>): seq<Echo> {
    if msgs == [] then [] else EchoesIn(msgs[0]) + AllEchoes(msgs[1..])
  }

  lemma DiscoverStep(ports: PortMap, echoes: seq<Echo>, inbox: seq<RawMsg>)
    requires inbox != []
    ensures
      var ports', echoes' := AddPorts(ports, PortsIn(inbox[0])), echoes + EchoesIn(inbox[0]);
      Discover(ports, echoes, inbox) ==
      if Continues(inbox[0]) then Discover(ports', echoes', inbox[1..]) else Found(ports', echoes', inbox[1..])
  {
    hide Chunks, BigEndian, AddPort;
    assert echoes + [] == echoes && AddPorts(ports, []) == ports;
  }

  /** On every inbox: discovery reads up to the first message that does not continue it,
      finds the ports of what it read as if they had come in one piece, and answers each
      echo request it met, once and in order. */
  lemma {:induction false} DiscoveryReadsTo(ports: PortMap, echoes: seq<Echo>, inbox: seq<RawMsg>, n: nat)
    requires n < |inbox| && !Continues(inbox[n]) && forall i | 0 <= i < n :: Continues(inbox[i])
    ensures Discover(ports, echoes, inbox) ==
            Found(AddPorts(ports, AllPorts(inbox[..n + 1])), echoes + AllEchoes(inbox[..n + 1]), inbox[n + 1..])
    decreases n
  {
    hide Discover, AddPorts, PortsIn, EchoesIn, Continues;
    var m, read := inbox[0], inbox[..n + 1];
    var ports', echoes' := AddPorts(ports, PortsIn(m)), echoes + EchoesIn(m);
    DiscoverStep(ports, echoes, inbox);
    assert read[0] == m && read[1..] == inbox[1..][..n];
    assert inbox[1..][n..] == inbox[n + 1..];
    if n == 0 {
      assert read[1..] == [];
      assert AllPorts(read) == PortsIn(m) + [] && AllEchoes(read) == EchoesIn(m) + [];
      assert PortsIn(m) + [] == PortsIn(m) && EchoesIn(m) + [] == EchoesIn(m);
    } else {
      DiscoveryReadsTo(ports', echoes', inbox[1..], n - 1);
      AddPortsConcat(ports, PortsIn(m), AllPorts(read[1..]));
      assert echoes' + AllEchoes(read[1..]) == echoes + AllEchoes(read);
    }
  }

  /** And when every message continues it, discovery waits for more until the connection
      closes. */
  lemma {:induction false} DiscoveryWaits(ports: PortMap, echoes: seq<Echo>, inbox: seq<RawMsg>)
    requires forall m | m in inbox :: Continues(m)
    ensures Discover(ports, echoes, inbox) == Closed(echoes + AllEchoes(inbox))
    decreases |inbox|
  {
    hide AddPorts, PortsIn, EchoesIn, Continues;
    if inbox == [] {
      assert echoes + [] == echoes;
    } else {
      var echoes' := echoes + EchoesIn(inbox[0]);
      DiscoverStep(ports, echoes, inbox);
      DiscoveryWaits(AddPorts(ports, PortsIn(inbox[0])), echoes', inbox[1..]);
      assert echoes' + AllEchoes(inbox[1..]) == echoes + AllEchoes(inbox);
    }
  }

  // ---------------------------------------------------------------- splitting does not matter

  /** A run of replies as the specification orders them, with echo requests anywhere
      between: the last message is the one reply without the flag. */
  predicate ReplyRun(msgs: seq<RawMsg>) {
    |msgs| > 0 && (forall i | 0 <= i < |msgs| - 1 :: Continues(msgs[i])) &&
    IsPortReply(msgs[|msgs| - 1]) && !More(msgs[|msgs| - 1])
  }

  /** However a port list is split, and whatever echo requests come between the parts: the
      result is one pass over the whole list, nothing after the last part is read, and the
      echoes are answered in order. */
  lemma SplittingDoesNotMatter(msgs: seq<RawMsg>, rest: seq<RawMsg>)
    requires ReplyRun(msgs)
    ensures Discover(map[], [], msgs + rest) == Found(AddPorts(map[], AllPorts(msgs)), AllEchoes(msgs), rest)
  {
    hide Discover, AddPorts, AllPorts, AllEchoes;
    var inbox, n := msgs + rest, |msgs| - 1;
    DiscoveryReadsTo(map[], [], inbox, n);
    assert inbox[..n + 1] == msgs && inbox[n + 1..] == rest;
  }

  /** A message that is neither an echo request nor a port reply, and so also a multipart
      reply of another type or of less than eight bytes, ends discovery early: what the
      replies behind it list is not found. */
  lemma OtherMessageCutsDiscovery(msgs: seq<RawMsg>, other: RawMsg, rest: seq<RawMsg>)
    requires (forall m | m in msgs :: Continues(m)) && other.msgType != ECHO_REQUEST && !IsPortReply(other)
    ensures Discover(map[], [], msgs + [other] + rest) == Found(AddPorts(map[], AllPorts(msgs)), AllEchoes(msgs), rest)
  {
    hide Discover, AddPorts, AllPorts, AllEchoes;
    var inbox := msgs + [other] + rest;
    DiscoveryReadsTo(map[], [], inbox, |msgs|);
    assert inbox[..|msgs| + 1] == msgs + [other] && inbox[|msgs| + 1..] == rest;
    OtherAddsNothing(msgs, other);
  }

  lemma {:induction false} OtherAddsNothing(msgs: seq<RawMsg>, other: RawMsg)
    requires other.msgType != ECHO_REQUEST && !IsPortReply(other)
    ensures AllPorts(msgs + [other]) == AllPorts(msgs) && AllEchoes(msgs + [other]) == AllEchoes(msgs)
  {
    hide Chunks;
    if msgs == [] {
      assert [other][1..] == [];
    } else {
      assert (msgs + [other])[1..] == msgs[1..] + [other];
      OtherAddsNothing(msgs[1..], other);
    }
  }

  // ---------------------------------------------------------------- a switch's replies

  function Flatten(chunks: seq<Chunk>): Bytes {
    if chunks == [] then [] else chunks[0] + Flatten(chunks[1..])
  }

  /** A port description reply as a switch writes it. */
  function PortReply(xid: nat, chunks: seq<Chunk>, more: bool): RawMsg {
    RawMsg(MULTIPART_REPLY, xid, [0, PORT_DESC, 0, if more then 1 else 0, 0, 0, 0, 0] + Flatten(chunks))
  }

  lemma {:induction false} ChunksOfFlatten(chunks: seq<Chunk>)
    ensures Chunks(Flatten(chunks)) == chunks
  {
    if chunks != [] {
      assert Flatten(chunks)[..64] == chunks[0] && Flatten(chunks)[64..] == Flatten(chunks[1..]);
      ChunksOfFlatten(chunks[1..]);
    }
  }

  lemma BigEndianOfTwo(high: Byte, low: Byte)
    ensures BigEndian([high, low]) == high * 256 + low
  {
    var both, one: Bytes := [high, low], [high];
    assert one[..0] == [] && BigEndian(one) == high;
    assert both[..1] == one;
  }

  lemma PortReplyReadsBack(xid: nat, chunks: seq<Chunk>, more: bool)
    ensures
      var m := PortReply(xid, chunks, more);
      IsPortReply(m) && More(m) == more && PortsIn(m) == chunks
  {
    hide Chunks, Flatten;
    var m := PortReply(xid, chunks, more);
    var head: Bytes := [0, PORT_DESC, 0, if more then 1 else 0, 0, 0, 0, 0];
    assert m.payload[8..] == Flatten(chunks);
    assert m.payload[..2] == [0, PORT_DESC] && m.payload[2..4] == [0, if more then 1 else 0];
    BigEndianOfTwo(0, PORT_DESC);
    BigEndianOfTwo(0, if more then 1 else 0);
    ChunksOfFlatten(chunks);
  }

  // ---------------------------------------------------------------- the method

  method ReadPorts(ports: PortMap, body: Bytes) returns (ports': PortMap)
    ensures ports' == AddPorts(ports, Chunks(body))
  {
    hide PortName, PortNumber;
    ports' := ports;
    var pos := 0;
    ghost var done: seq<Chunk> := [];
    while |body| - pos >= 64
      invariant pos <= |body|
      invariant ports' == AddPorts(ports, done) && done + Chunks(body[pos..]) == Chunks(body)
    {
      var chunk: Chunk := body[pos..pos + 64];
      if Listed(chunk) { ports' := ports'[PortName(chunk) := PortNumber(chunk)]; }
      assert body[pos..][..64] == chunk && body[pos..][64..] == body[pos + 64..];
      assert (done + [chunk])[..|done|] == done;
      done := done + [chunk];
      pos := pos + 64;
    }
    assert done == Chunks(body);
  }
}
