/** The PUBLISH packet (`publish.go`) behind its fixed header (`header.go`); sections 2.2 and 3.3 of MQTT 3.1.1 and
    section 3.3 of MQTT 5.0. */
module PublishCodec {
  import opened Sequences
  import opened Options
  import opened Bytes
  import opened Varint
  import opened Unicode
  import opened Properties
  import opened PropertySet

  const V31: nat := 3
  const V50: nat := 5

  const MAX_REMAINING: nat := 268435455

  /** The four flag bits of the fixed header. */
  type Flags = x: int | 0 <= x < 16

  // ---------------------------------------------------------------- flags

  predicate Retain(f: Flags) { f % 2 == 1 }
  function QoS(f: Flags): nat { f / 2 % 4 }
  predicate Dup(f: Flags) { f / 8 == 1 }

  function Bit(b: bool): nat { if b then 1 else 0 }

  function Pack(dup: bool, qos: nat, retain: bool): Flags
    requires qos < 4
  {
    8 * Bit(dup) + 2 * qos + Bit(retain)
  }

  /** The flags are independent, and there is nothing else in the bits. */
  lemma FlagsPacked(f: Flags, dup: bool, qos: nat, retain: bool)
    requires qos < 4
    ensures f == Pack(dup, qos, retain) <==> Dup(f) == dup && QoS(f) == qos && Retain(f) == retain
  {
  }

  lemma PackParts(dup: bool, qos: nat, retain: bool)
    requires qos < 4
    ensures var f := Pack(dup, qos, retain); Dup(f) == dup && QoS(f) == qos && Retain(f) == retain
  {
  }

  lemma WithQoS(f: Flags, qos: nat)
    requires qos < 4
    ensures f - 2 * QoS(f) + 2 * qos == Pack(Dup(f), qos, Retain(f))
  {
  }

  // ---------------------------------------------------------------- the packet

  datatype Packet = Packet(version: nat, flags: Flags, topic: seq<byte>, packetID: seq<byte>, payload: seq<byte>,
      props: Map, propLen: nat)

  datatype Failure =
    | InvalidTopic | InvalidQoS | DupViolation | PacketIDZero | InvalidLength | BufferTooSmall | InvalidLPString
    | InsufficientData | Malformed | ProtocolViolation | ServerUnavailable | InvalidTopicName | NotPublish

  /** Well-formed and without wildcards. */
  predicate ValidTopic(t: seq<byte>) {
    Utf8(t) && 0x23 !in t && 0x2B !in t
  }

  function Size(p: Packet): nat {
    2 + |p.topic| + |p.payload| + (if QoS(p.flags) != 0 then 2 else 0)
        + (if p.version == V50 then FullLength(p.propLen) else 0)
  }

  /** The number that 32 bits make of a length. */
  function Int32(x: nat): int {
    var m := x % 0x1_0000_0000;
    if m < 0x8000_0000 then m else m - 0x1_0000_0000
  }

  predicate Announceable(p: Packet) { 0 <= Int32(Size(p)) <= MAX_REMAINING }

  /** The remaining length as it is announced. */
  function RemLen(p: Packet): nat { if Announceable(p) then Int32(Size(p)) else 0 }

  /** Why a packet is not encoded; None if it is. */
  function Refusal(p: Packet): Option<Failure> {
    if !Announceable(p) then Some(InvalidLength)
    else if !ValidTopic(p.topic) then Some(InvalidTopic)
    else if QoS(p.flags) == 3 then Some(InvalidQoS)
    else if QoS(p.flags) == 0 && Dup(p.flags) then Some(DupViolation)
    else if QoS(p.flags) != 0 && p.packetID == [] then Some(PacketIDZero)
    else if |p.topic| > MAX_STRING then Some(InvalidLPString)
    else None
  }

  /** The property part; `stale` is what the buffer held where the length of no properties belongs. */
  function PropertyPart(p: Packet, order: seq<Id>, stale: byte): seq<byte>
    requires Within(p.props, order)
  {
    if p.version != V50 then [] else if p.propLen == 0 then [stale] else Section(p.props, order, p.propLen)
  }

  function FixedHeader(p: Packet): seq<byte> { [0x30 + p.flags] + EncodeVar(RemLen(p)) }

  function TopicAndId(p: Packet): seq<byte> {
    Prefixed(p.topic) + (if QoS(p.flags) != 0 then p.packetID else [])
  }

  function Message(p: Packet, order: seq<Id>, stale: byte): seq<byte>
    requires Within(p.props, order)
  {
    TopicAndId(p) + (PropertyPart(p, order, stale) + p.payload)
  }

  function Image(p: Packet, order: seq<Id>, stale: byte): seq<byte>
    requires Within(p.props, order)
  {
    FixedHeader(p) + Message(p, order, stale)
  }

  /** What the fields of a packet are at all times, when its properties have the types that belong to them. */
  predicate Sound(p: Packet) {
    (p.packetID == [] || |p.packetID| == 2) && AllTyped(p.props)
  }

  /** The announced length of the properties is their length. */
  ghost predicate Exact(p: Packet, order: seq<Id>)
    requires Within(p.props, order)
  {
    p.propLen == |EncodeAll(p.props, order)|
  }

  /** The size is the number of bytes written exactly when the properties take the room that is announced for them, or
      none is announced. */
  lemma SizeExact(p: Packet, order: seq<Id>, stale: byte)
    requires Visits(p.props, order) && Refusal(p) == None && (p.packetID == [] || |p.packetID| == 2)
    ensures |Message(p, order, stale)| == Size(p) <==>
            p.version != V50 || p.propLen == 0 || |Section(p.props, order, p.propLen)| == FullLength(p.propLen)
    ensures p.version == V50 && p.propLen < 0x1_0000_0000 ==>
              (|Section(p.props, order, p.propLen)| == FullLength(p.propLen) <==> Exact(p, order))
  {
    hide EncodeAll, EncodeVar, VarLen, ValidTopic;
    EncodeLength(p.propLen);
    VarLenFacts(p.propLen);
  }

  /** On the wire (section 3.3 of MQTT 3.1.1 and 5.0): type and flags, remaining length, topic behind its length,
      identifier unless QoS is 0, properties in version 5 only, payload. */
  lemma ImageOnWire(p: Packet, order: seq<Id>)
    requires Within(p.props, order) && |p.topic| <= MAX_STRING
    requires p.propLen == 0 ==> EncodeAll(p.props, order) == []
    ensures var id := if p.flags / 2 % 4 == 0 then [] else p.packetID;
            var props := if p.version == 5 then EncodeVar(p.propLen) + EncodeAll(p.props, order) else [];
            var length := [|p.topic| / 0x100, |p.topic| % 0x100];
            Image(p, order, 0) == [0x30 + p.flags] + EncodeVar(RemLen(p)) + length + p.topic + id + props + p.payload
  {
    hide EncodeVar, EncodeAll;
    NoLength();
  }

  lemma NoLength()
    ensures EncodeVar(0) == [0]
  {
  }

  // ---------------------------------------------------------------- reading

  datatype Parsed = Accepted(p: Packet, n: nat) | Rejected(error: Failure)

  function Reject(version: nat, v5: Failure): Parsed {
    Rejected(if version == V50 then v5 else ServerUnavailable)
  }

  function Parse(version: nat, from: seq<byte>): Parsed {
    if |from| < 1 then Rejected(BufferTooSmall)
    else if from[0] / 16 != 3 then Rejected(NotPublish)
    else if QoS(from[0] % 16) == 3 then Reject(version, Malformed)
    else match DecodeVar(from[1..], 0, 0)
      case Value(remLen, c) =>
        if remLen > |from| - 1 - c then Rejected(InsufficientData)
        else (match ParseMessage(version, from[0] % 16, remLen, from[1 + c..])
              case Accepted(p, n) => Accepted(p, 1 + c + n)
              case Rejected(e) => Rejected(e))
      case _ => Rejected(InsufficientData)
  }

  function ParseMessage(version: nat, flags: Flags, remLen: u32, from: seq<byte>): Parsed {
    if QoS(flags) == 3 || (QoS(flags) == 0 && Dup(flags)) then Reject(version, ProtocolViolation)
    else match Unprefixed(from)
      case None => Rejected(InsufficientData)
      case Some(topic) =>
        if topic == [] && version < V50 then Rejected(ServerUnavailable)
        else if !ValidTopic(topic) then Reject(version, InvalidTopicName)
        else ParseId(version, flags, remLen, from, topic)
  }

  /** The identifier is as many of its two bytes as there are. */
  function IdLength(rest: seq<byte>): nat { if |rest| < 2 then |rest| else 2 }

  function IdBytes(rest: seq<byte>): seq<byte> { rest[..IdLength(rest)] + seq(2 - IdLength(rest), _ => 0) }

  function ParseId(version: nat, flags: Flags, remLen: u32, from: seq<byte>, topic: seq<byte>): Parsed
    requires 2 + |topic| <= |from|
  {
    var rest := from[2 + |topic|..];
    var offset := 2 + |topic| + if QoS(flags) == 0 then 0 else IdLength(rest);
    var id := if QoS(flags) == 0 then [] else IdBytes(rest);
    var p := Packet(version, flags, topic, id, [], map[], 0);
    ParseProperties(p, remLen, from, offset)
  }

  function ParseProperties(p: Packet, remLen: u32, from: seq<byte>, offset: nat): Parsed
    requires offset <= |from|
  {
    if p.version != V50 then ParsePayload(p, remLen, from, offset)
    else match DecodeSection(from[offset..])
      case Err(e) => Rejected(if e == MalformedPacket then Malformed else ProtocolViolation)
      case Ok(m, l, c) =>
        if p.topic == [] && !AliasSet(m) then Rejected(ProtocolViolation)
        else ParsePayload(p.(props := m, propLen := l), remLen, from, offset + c)
  }

  /** A topic alias above zero. */
  predicate AliasSet(m: Map) {
    TOPIC_ALIAS in m && m[TOPIC_ALIAS].One? && m[TOPIC_ALIAS].item.Short? && m[TOPIC_ALIAS].item.h > 0
  }

  function ParsePayload(p: Packet, remLen: u32, from: seq<byte>, offset: nat): Parsed
    requires offset <= |from|
  {
    if remLen < offset || |from| < remLen then Reject(p.version, Malformed)
    else Accepted(p.(payload := from[offset..remLen]), remLen)
  }

  /** A topic that is written or read is UTF-8 and holds no wildcard. */
  lemma TopicsAllowed(p: Packet, version: nat, from: seq<byte>)
    ensures Refusal(p) == None ==> Utf8(p.topic) && 0x23 !in p.topic && 0x2B !in p.topic
    ensures var r := Parse(version, from);
            r.Accepted? ==> Utf8(r.p.topic) && 0x23 !in r.p.topic && 0x2B !in r.p.topic
  {
    hide DecodeVar, DecodeSection, AliasSet, Utf8, IdBytes, IdLength, Size;
  }

  /** When a packet is encoded, written out. */
  lemma RefusalMeans(p: Packet)
    ensures Refusal(p) == None <==>
            && Announceable(p) && p.flags / 2 % 4 != 3 && (p.flags / 2 % 4 == 0 ==> p.flags < 8)
            && (p.flags / 2 % 4 != 0 ==> p.packetID != [])
            && Utf8(p.topic) && 0x23 !in p.topic && 0x2B !in p.topic && |p.topic| <= 0xFFFF
    ensures Size(p) < 0x8000_0000 ==>
              (Announceable(p) <==> Size(p) <= 268435455) && (Announceable(p) ==> RemLen(p) == Size(p))
  {
    hide Utf8, Size;
  }

  /** The first byte alone can be wrong: no packet of this type, or QoS 3. */
  lemma FirstByteRefused(version: nat, b: byte, rest: seq<byte>)
    ensures b < 0x30 || b >= 0x40 ==> Parse(version, [b] + rest) == Rejected(NotPublish)
    ensures b in {0x36, 0x37, 0x3E, 0x3F} ==>
              Parse(version, [b] + rest) == Rejected(if version == 5 then Malformed else ServerUnavailable)
    ensures Parse(version, []) == Rejected(BufferTooSmall)
  {
    hide DecodeVar, ParseMessage;
  }

  // ---------------------------------------------------------------- the flags on the wire

  /** What is read after the first byte. */
  function ParseRest(version: nat, f: Flags, rest: seq<byte>): Parsed {
    match DecodeVar(rest, 0, 0)
    case Value(remLen, c) =>
      if remLen > |rest| - c then Rejected(InsufficientData)
      else (match ParseMessage(version, f, remLen, rest[c..])
            case Accepted(p, n) => Accepted(p, 1 + c + n)
            case Rejected(e) => Rejected(e))
    case _ => Rejected(InsufficientData)
  }

  lemma ParseFirst(version: nat, b: byte, rest: seq<byte>)
    requires 0x30 <= b < 0x40
    ensures Parse(version, [b] + rest)
         == if QoS(b - 0x30) == 3 then Reject(version, Malformed) else ParseRest(version, b - 0x30, rest)
  {
    hide DecodeVar, ParseMessage;
    var from := [b] + rest;
    assert from[1..] == rest && from[0] % 16 == b - 0x30;
    forall c | 0 <= c <= |rest| ensures from[1 + c..] == rest[c..] {}
  }

  /** Nothing that is read depends on flags but the flags, as long as QoS and, at QoS 0, DUP are the same. */
  lemma RestCarried(version: nat, f: Flags, g: Flags, rest: seq<byte>)
    requires QoS(f) == QoS(g) && (QoS(f) == 0 ==> (Dup(f) <==> Dup(g)))
    ensures var r := ParseRest(version, f, rest);
            && (r.Accepted? ==> r.p.flags == f && ParseRest(version, g, rest) == Accepted(r.p.(flags := g), r.n))
            && (r.Rejected? ==> ParseRest(version, g, rest) == r)
  {
    hide DecodeVar, ParseMessage, QoS, Dup;
    match DecodeVar(rest, 0, 0)
    case Value(remLen, c) => FlagsCarried(version, f, g, remLen, rest[c..]);
    case _ =>
  }

  /** RETAIN is the lowest bit of the first byte, and nothing but the flag depends on it. */
  lemma RetainOnWire(version: nat, qos: nat, dup: bool, rest: seq<byte>)
    requires qos < 4
    ensures var b := 0x30 + (if dup then 8 else 0) + 2 * qos;
            var plain, retained := Parse(version, [b] + rest), Parse(version, [b + 1] + rest);
            && (plain.Accepted? ==> plain.p.flags == b - 0x30
                                    && retained == Accepted(plain.p.(flags := b - 0x30 + 1), plain.n))
            && (plain.Rejected? ==> retained == plain)
  {
    hide Parse, ParseRest;
    var b := 0x30 + (if dup then 8 else 0) + 2 * qos;
    ParseFirst(version, b, rest);
    ParseFirst(version, b + 1, rest);
    RestCarried(version, b - 0x30, b - 0x30 + 1, rest);
  }

  /** DUP is the highest of the four: with QoS 1 and 2 nothing but the flag depends on it, with QoS 0 it is refused. */
  lemma DupOnWire(version: nat, qos: nat, retain: bool, rest: seq<byte>)
    requires qos < 3
    ensures var b := 0x30 + 2 * qos + if retain then 1 else 0;
            var plain, again := Parse(version, [b] + rest), Parse(version, [b + 8] + rest);
            if qos == 0 then again.Rejected?
            else
              && (plain.Accepted? ==> plain.p.flags == b - 0x30
                                      && again == Accepted(plain.p.(flags := b - 0x30 + 8), plain.n))
              && (plain.Rejected? ==> again == plain)
  {
    hide Parse, ParseRest;
    var b := 0x30 + 2 * qos + if retain then 1 else 0;
    ParseFirst(version, b, rest);
    ParseFirst(version, b + 8, rest);
    if qos == 0 {
      DupRefused(version, b + 8 - 0x30, rest);
    } else {
      RestCarried(version, b - 0x30, b - 0x30 + 8, rest);
    }
  }

  lemma DupRefused(version: nat, f: Flags, rest: seq<byte>)
    requires f == 8 || f == 9
    ensures ParseRest(version, f, rest).Rejected?
  {
    hide DecodeVar, Unprefixed, ValidTopic, ParseId;
  }

  /** Two sets of flags with the same QoS, both allowed or both not. */
  lemma FlagsCarried(version: nat, f: Flags, g: Flags, remLen: u32, from: seq<byte>)
    requires QoS(f) == QoS(g) && (QoS(f) == 0 ==> (Dup(f) <==> Dup(g)))
    ensures ParseMessage(version, g, remLen, from)
         == match ParseMessage(version, f, remLen, from)
            case Accepted(p, n) => Accepted(p.(flags := g), n)
            case Rejected(e) => Rejected(e)
    ensures ParseMessage(version, f, remLen, from).Accepted? ==> ParseMessage(version, f, remLen, from).p.flags == f
  {
    hide DecodeSection, AliasSet, Unprefixed, ValidTopic, IdLength, IdBytes;
    match Unprefixed(from)
    case None =>
    case Some(topic) => UnprefixedFits(from);
  }

  /** The shortest packets, byte by byte: "a" at QoS 0, retained, is read; DUP at QoS 0 is not. */
  lemma SmallPackets(b: byte)
    requires 0x30 <= b < 0x40
    ensures Parse(V31, [b, 3, 0, 1, 0x61]).Accepted? <==> b == 0x30 || b == 0x31 || 0x32 <= b < 0x36 || 0x3A <= b < 0x3E
  {
    hide ParseMessage, DecodeVar;
    var from := [b, 3, 0, 1, 0x61];
    assert from[1..] == [3, 0, 1, 0x61];
    ThreeBytes();
    assert from[1 + 1..] == [0, 1, 0x61];
    SmallMessage(b - 0x30);
  }

  lemma ThreeBytes()
    ensures DecodeVar([3, 0, 1, 0x61], 0, 0) == Value(3, 1)
  {
  }

  lemma SmallMessage(f: Flags)
    ensures ParseMessage(V31, f, 3, [0, 1, 0x61]).Accepted? <==> QoS(f) != 3 && !(QoS(f) == 0 && Dup(f))
  {
    var message := [0, 1, 0x61];
    TopicA();
    hide Unprefixed, ValidTopic, DecodeSection;
    assert message[3..] == [];
  }

  lemma TopicA()
    ensures Unprefixed([0, 1, 0x61]) == Some([0x61]) && ValidTopic([0x61])
  {
    var message: seq<byte> := [0, 1, 0x61];
    assert FromBe16(message) == 1 && message[2..3] == [0x61];
    var topic: seq<byte> := [0x61];
    assert topic[1..] == [] && Utf8(topic);
  }

  // ---------------------------------------------------------------- round trip

  /** A packet that is encoded, carries what a reader asks for, and whose properties can be read. */
  ghost predicate Readable(p: Packet, order: seq<Id>) {
    && Refusal(p) == None && Size(p) <= MAX_REMAINING && Visits(p.props, order) && Encodable(p.props) && Exact(p, order)
    && V31 <= p.version <= V50
    && (if QoS(p.flags) == 0 then p.packetID == [] else |p.packetID| == 2)
    && (if p.version == V50 then p.topic != [] || AliasSet(Normalized(p.props)) else p.topic != [] && p.props == map[])
  }

  lemma PropertyPartIsSection(p: Packet, order: seq<Id>, stale: byte)
    requires Visits(p.props, order) && Exact(p, order) && (p.version == V50 && p.propLen == 0 ==> stale == 0)
    ensures PropertyPart(p, order, stale) == if p.version == V50 then Section(p.props, order, p.propLen) else []
  {
  }

  lemma ParsePayloadExact(p: Packet, remLen: u32, from: seq<byte>, offset: nat, payload: seq<byte>, tail: seq<byte>)
    requires offset <= |from| && from[offset..] == payload + tail && remLen == offset + |payload|
    ensures ParsePayload(p, remLen, from, offset) == Accepted(p.(payload := payload), remLen)
  {
  }

  /** Where the parts of a message stand. */
  lemma MessageParts(p: Packet, order: seq<Id>, stale: byte, from: seq<byte>, tail: seq<byte>)
    requires Within(p.props, order) && |TopicAndId(p)| == 2 + |p.topic| + |p.packetID|
    requires QoS(p.flags) == 0 ==> p.packetID == []
    requires from == Message(p, order, stale) + tail
    ensures var part, offset := PropertyPart(p, order, stale), |TopicAndId(p)|;
            && offset + |part| <= |from| && from[offset..] == part + (p.payload + tail)
            && from[offset + |part|..] == p.payload + tail
            && from[2 + |p.topic|..] == p.packetID + (part + (p.payload + tail))
  {
    hide PropertyPart, Prefixed;
    var part := PropertyPart(p, order, stale);
    assert from == TopicAndId(p) + (part + (p.payload + tail));
    assert from == Prefixed(p.topic) + (p.packetID + (part + (p.payload + tail)));
  }

  lemma IdExact(id: seq<byte>, rest: seq<byte>)
    requires |id| == 2
    ensures IdLength(id + rest) == 2 && IdBytes(id + rest) == id
  {
  }

  /** The properties come after the identifier, whatever they are. */
  lemma ParseIdStep(p: Packet, order: seq<Id>, stale: byte, from: seq<byte>, tail: seq<byte>, remLen: u32)
    requires Within(p.props, order) && |TopicAndId(p)| == 2 + |p.topic| + |p.packetID| && 2 + |p.topic| <= |from|
    requires if QoS(p.flags) == 0 then p.packetID == [] else |p.packetID| == 2
    requires from == Message(p, order, stale) + tail
    ensures |TopicAndId(p)| <= |from|
    ensures ParseId(p.version, p.flags, remLen, from, p.topic)
         == ParseProperties(Bare(p), remLen, from, |TopicAndId(p)|)
  {
    hide Message, PropertyPart, ParseProperties, TopicAndId, IdLength, IdBytes;
    MessageParts(p, order, stale, from, tail);
    if QoS(p.flags) != 0 {
      IdExact(p.packetID, PropertyPart(p, order, stale) + (p.payload + tail));
    }
  }

  /** The byte for the length of no properties is as it should be. */
  predicate Complete(p: Packet, stale: byte) {
    p.version == V50 && p.propLen == 0 ==> stale == 0
  }

  /** A packet as it is before its properties are read. */
  function Bare(p: Packet): Packet { p.(payload := [], props := map[], propLen := 0) }

  lemma ParsePropertiesExact(p: Packet, order: seq<Id>, stale: byte, from: seq<byte>, offset: nat, tail: seq<byte>)
    requires Readable(p, order) && Complete(p, stale) && offset <= |from|
    requires from[offset..] == PropertyPart(p, order, stale) + (p.payload + tail)
    requires Size(p) == offset + |PropertyPart(p, order, stale)| + |p.payload|
    ensures ParseProperties(Bare(p), Size(p), from, offset) == Accepted(p.(props := Normalized(p.props)), Size(p))
  {
    hide Section, DecodeSection, EncodeAll, Encodable, ValidTopic, Size, NoDuplicates, ParsePayload,
        Normalized, Refusal;
    PropertyPartIsSection(p, order, stale);
    var part := PropertyPart(p, order, stale);
    assert from[offset + |part|..] == p.payload + tail;
    if p.version == V50 {
      ExactLength(p, order);
      SectionRoundTrip(p.props, order, p.propLen, p.payload + tail);
    } else {
      NoProperties(p, order);
    }
    hide PropertyPart;
    ParsePayloadExact(Bare(p).(props := Normalized(p.props), propLen := p.propLen), Size(p), from, offset + |part|,
        p.payload, tail);
  }

  /** A byte that is not zero where the length of no properties belongs: the reader takes at least one more for them. */
  lemma ParsePropertiesStale(p: Packet, stale: byte, from: seq<byte>, offset: nat)
    requires p.version == V50 && stale != 0 && offset < |from| && from[offset] == stale
    requires Size(p) == offset + 1 + |p.payload|
    ensures var r := ParseProperties(Bare(p), Size(p) % 0x1_0000_0000, from, offset); r.Accepted? ==>
              |r.p.payload| < |p.payload|
  {
    SectionTakes(from[offset..]);
    hide DecodeSection, AliasSet, Size;
  }

  lemma ParseIdRest(p: Packet, order: seq<Id>, stale: byte, from: seq<byte>, tail: seq<byte>)
    requires Readable(p, order) && from == Message(p, order, stale) + tail && |Message(p, order, stale)| == Size(p)
    ensures 2 + |p.topic| <= |from| && |TopicAndId(p)| <= |from|
    ensures ParseId(p.version, p.flags, Size(p), from, p.topic)
              == ParseProperties(Bare(p), Size(p), from, |TopicAndId(p)|)
    ensures from[|TopicAndId(p)|..] == PropertyPart(p, order, stale) + (p.payload + tail)
    ensures Size(p) == |TopicAndId(p)| + |PropertyPart(p, order, stale)| + |p.payload|
  {
    TopicAndIdLength(p);
    MessageLength(p, order, stale);
    hide Message, PropertyPart, ParseProperties, TopicAndId, Size, Refusal, Encodable, NoDuplicates, EncodeAll;
    MessageParts(p, order, stale, from, tail);
    ParseIdStep(p, order, stale, from, tail, Size(p));
  }

  lemma ParseIdExact(p: Packet, order: seq<Id>, stale: byte, from: seq<byte>, tail: seq<byte>)
    requires Readable(p, order) && Complete(p, stale)
    requires from == Message(p, order, stale) + tail && |Message(p, order, stale)| == Size(p)
    ensures 2 + |p.topic| <= |from|
    ensures ParseId(p.version, p.flags, Size(p), from, p.topic) == Accepted(p.(props := Normalized(p.props)), Size(p))
  {
    hide Message, PropertyPart, ParseProperties, ParseId, TopicAndId, Size, Complete, Normalized;
    ParseIdRest(p, order, stale, from, tail);
    ParsePropertiesExact(p, order, stale, from, |TopicAndId(p)|, tail);
  }

  lemma ParseIdStale(p: Packet, order: seq<Id>, stale: byte, from: seq<byte>, tail: seq<byte>)
    requires Readable(p, order) && !Complete(p, stale)
    requires from == Message(p, order, stale) + tail && |Message(p, order, stale)| == Size(p)
    ensures 2 + |p.topic| <= |from|
    ensures var r := ParseId(p.version, p.flags, Size(p), from, p.topic); r.Accepted? ==> |r.p.payload| < |p.payload|
  {
    hide Message, ParseProperties, ParseId, TopicAndId, Size, Encodable, NoDuplicates, Normalized, EncodeAll;
    ParseIdRest(p, order, stale, from, tail);
    var offset := |TopicAndId(p)|;
    assert from[offset..][0] == stale;
    ParsePropertiesStale(p, stale, from, offset);
  }

  lemma MessageLength(p: Packet, order: seq<Id>, stale: byte)
    requires Visits(p.props, order)
    ensures |Message(p, order, stale)| == |TopicAndId(p)| + |PropertyPart(p, order, stale)| + |p.payload|
  {
  }

  lemma NoProperties(p: Packet, order: seq<Id>)
    requires Visits(p.props, order) && p.props == map[]
    ensures order == [] && EncodeAll(p.props, order) == [] && Normalized(p.props) == map[]
  {
    NoneOf(order);
  }

  lemma ExactLength(p: Packet, order: seq<Id>)
    requires Readable(p, order) && p.version == V50
    ensures p.propLen < 0x2000_0000
  {
  }

  lemma TopicAndIdLength(p: Packet)
    requires Refusal(p) == None && (if QoS(p.flags) == 0 then p.packetID == [] else |p.packetID| == 2)
    ensures |TopicAndId(p)| == 2 + |p.topic| + |p.packetID|
  {
  }

  /** Decoding the encoding gives back the packet, with its properties in their normal form, exactly when the byte for
      the length of the properties has been written or was zero; the bytes written, the bytes read and the announced
      size are the same, and what follows is left alone. */
  lemma RoundTrip(p: Packet, order: seq<Id>, stale: byte, tail: seq<byte>)
    requires Readable(p, order)
    ensures |Image(p, order, stale)| == 1 + VarLen(Size(p)) + Size(p)
    ensures (Parse(p.version, Image(p, order, stale) + tail)
             == Accepted(p.(props := Normalized(p.props)), |Image(p, order, stale)|))
            <==> Complete(p, stale)
  {
    ExactMessage(p, order, stale);
    var from := Message(p, order, stale) + tail;
    ParseHeader(p, order, stale, tail);
    ParseTopic(p, order, stale, tail);
    hide Parse, ParseId, Message, Image, Readable, Size, FixedHeader, Complete;
    if Complete(p, stale) {
      ParseIdExact(p, order, stale, from, tail);
    } else {
      ParseIdStale(p, order, stale, from, tail);
    }
  }

  lemma ExactMessage(p: Packet, order: seq<Id>, stale: byte)
    requires Readable(p, order)
    ensures |Message(p, order, stale)| == Size(p) == RemLen(p) && 2 + |p.topic| <= Size(p)
    ensures |Image(p, order, stale)| == 1 + VarLen(Size(p)) + Size(p)
  {
    hide EncodeVar, VarLen, EncodeAll, Encodable, ValidTopic;
    SizeExact(p, order, stale);
    VarLenFacts(p.propLen);
    EncodeLength(Size(p));
  }

  /** A reader comes to the message. */
  lemma ParseHeader(p: Packet, order: seq<Id>, stale: byte, tail: seq<byte>)
    requires Within(p.props, order) && QoS(p.flags) != 3 && |Message(p, order, stale) + tail| >= RemLen(p)
    ensures Parse(p.version, Image(p, order, stale) + tail)
         == match ParseMessage(p.version, p.flags, RemLen(p), Message(p, order, stale) + tail)
            case Accepted(q, n) => Accepted(q, 1 + VarLen(RemLen(p)) + n)
            case Rejected(e) => Rejected(e)
  {
    hide EncodeVar, DecodeVar, VarLen, EncodeAll, ValidTopic, ParseMessage, Message, Size;
    var message, n := Message(p, order, stale), RemLen(p);
    var from := Image(p, order, stale) + tail;
    assert from[1..] == EncodeVar(n) + (message + tail);
    VarRoundTrip(n, message + tail);
    EncodeLength(n);
    HeaderByte(p.flags);
    assert from[1 + VarLen(n)..] == message + tail;
  }

  /** And from there to the identifier. */
  lemma ParseTopic(p: Packet, order: seq<Id>, stale: byte, tail: seq<byte>)
    requires Readable(p, order)
    ensures 2 + |p.topic| <= |Message(p, order, stale) + tail|
    ensures ParseMessage(p.version, p.flags, RemLen(p), Message(p, order, stale) + tail)
         == ParseId(p.version, p.flags, Size(p), Message(p, order, stale) + tail, p.topic)
  {
    ExactMessage(p, order, stale);
    TopicRoundTrip(p, order, stale, tail);
    assert p.version < V50 ==> p.topic != [];
    hide EncodeAll, Encodable, ValidTopic, Unprefixed, ParseId, Message, Size;
  }

  lemma HeaderByte(f: Flags)
    ensures (0x30 + f) / 16 == 3 && (0x30 + f) % 16 == f
  {
  }

  lemma TopicRoundTrip(p: Packet, order: seq<Id>, stale: byte, tail: seq<byte>)
    requires Visits(p.props, order) && |p.topic| <= MAX_STRING
    ensures Unprefixed(Message(p, order, stale) + tail) == Some(p.topic)
  {
    hide Prefixed, Unprefixed, PropertyPart;
    var rest := (if QoS(p.flags) != 0 then p.packetID else []) + (PropertyPart(p, order, stale) + p.payload) + tail;
    assert Message(p, order, stale) + tail == Prefixed(p.topic) + rest;
    PrefixRoundTrip(p.topic, rest);
  }

  /** A packet whose length does not fit 32 bits may be encoded, but no reader takes it whole. */
  lemma TooLong(p: Packet, order: seq<Id>, stale: byte, tail: seq<byte>)
    requires Visits(p.props, order) && Refusal(p) == None && |Message(p, order, stale)| > RemLen(p)
    ensures var r := Parse(p.version, Image(p, order, stale) + tail); r.Accepted? ==> r.n < |Image(p, order, stale)|
  {
    ParseHeader(p, order, stale, tail);
    ParseTakes(p.version, p.flags, RemLen(p), Message(p, order, stale) + tail);
    EncodeLength(RemLen(p));
  }

  lemma ParseTakes(version: nat, flags: Flags, remLen: u32, from: seq<byte>)
    ensures var r := ParseMessage(version, flags, remLen, from); r.Accepted? ==> r.n == remLen
  {
    hide DecodeSection, ValidTopic, AliasSet, IdBytes, Unprefixed;
    match Unprefixed(from)
    case None =>
    case Some(topic) =>
      UnprefixedFits(from);
  }

  lemma UnprefixedFits(from: seq<byte>)
    ensures Unprefixed(from).Some? ==> 2 + |Unprefixed(from).value| <= |from|
  {
  }

  /** From a buffer that was zero, the packet comes back unchanged exactly when every property is a single value, or a
      non-empty list of user properties. */
  lemma Unchanged(p: Packet, order: seq<Id>, tail: seq<byte>)
    requires Readable(p, order)
    ensures Parse(p.version, Image(p, order, 0) + tail) == Accepted(p, |Image(p, order, 0)|) <==>
            forall id :: id in p.props ==>
              (if id == USER_PROPERTY then p.props[id].Many? && p.props[id].items != [] else p.props[id].One?)
  {
    hide Parse, Image, Readable;
    RoundTrip(p, order, 0, tail);
    NormalizedSame(p.props);
  }

  // ---------------------------------------------------------------- in place

  datatype EncodeResult = Written(n: nat) | Needs(n: nat) | Refused(error: Failure)

  class Publish {
    var version: nat
    var flags: Flags
    var topic: seq<byte>
    var packetID: seq<byte>
    var payload: seq<byte>
    var remLen: nat
    const properties: Property

    ghost function View(): Packet
      reads this, properties
    {
      Packet(version, flags, topic, packetID, payload, properties.properties, properties.len)
    }

    constructor (version: nat)
      ensures fresh(properties) && View() == Packet(version, 0, [], [], [], map[], 0)
    {
      this.version, flags, topic, packetID, payload, remLen := version, 0, [], [], [], 0;
      properties := new Property();
    }

    method SetDup(v: bool)
      modifies this`flags
      ensures flags == Pack(v, QoS(old(flags)), Retain(old(flags)))
      ensures flags % 8 == old(flags) % 8 && (flags >= 8 <==> v)
    {
      flags := flags - 8 * Bit(Dup(flags)) + 8 * Bit(v);
    }

    method SetRetain(v: bool)
      modifies this`flags
      ensures flags == Pack(Dup(old(flags)), QoS(old(flags)), v)
      ensures flags / 2 == old(flags) / 2 && (flags % 2 == 1 <==> v)
    {
      flags := flags - Bit(Retain(flags)) + Bit(v);
    }

    method SetQoS(v: byte) returns (err: Option<Failure>)
      modifies this`flags
      ensures err == if v <= 2 then None else Some(InvalidQoS)
      ensures flags == if v <= 2 then Pack(Dup(old(flags)), v, Retain(old(flags))) else old(flags)
      ensures flags % 2 == old(flags) % 2 && flags / 8 == old(flags) / 8
      ensures flags / 2 % 4 == if v <= 2 then v else old(flags) / 2 % 4
    {
      if v > 2 {
        return Some(InvalidQoS);
      }
      flags := flags - 2 * QoS(flags) + 2 * v;
      err := None;
    }

    method SetTopic(v: seq<byte>) returns (err: Option<Failure>)
      modifies this`topic
      ensures err == if (version < V50 && v == []) || !ValidTopic(v) then Some(InvalidTopic) else None
      ensures topic == if err == None then v else old(topic)
      ensures err == None <==> (version >= 5 || v != []) && 0x23 !in v && 0x2B !in v && Utf8(v)
    {
      if (version < V50 && |v| == 0) || !ValidTopic(v) {
        return Some(InvalidTopic);
      }
      topic := v;
      err := None;
    }

    /** Here an empty topic is let through for every version. */
    method Set(t: seq<byte>, p: seq<byte>, q: byte, r: bool, d: bool) returns (err: Option<Failure>)
      modifies this`flags, this`topic, this`payload
      ensures err == if !ValidTopic(t) then Some(InvalidTopic) else if q > 2 then Some(InvalidQoS) else None
      ensures err == None ==> flags == (if d then 8 else 0) + 2 * q + (if r then 1 else 0)
      ensures if err == None then topic == t && payload == p && flags == Pack(d, q, r)
              else topic == old(topic) && payload == old(payload) && flags == old(flags)
    {
      if !ValidTopic(t) {
        return Some(InvalidTopic);
      }
      if q > 2 {
        return Some(InvalidQoS);
      }
      hide ValidTopic, Pack;
      WithQoS(flags, q);
      flags := flags - 2 * QoS(flags) + 2 * q;
      topic, payload := t, p;
      PackParts(Dup(old(flags)), q, Retain(old(flags)));
      SetDup(d);
      PackParts(d, q, Retain(old(flags)));
      SetRetain(r);
      err := None;
    }

    method SetPacketID(id: u16)
      modifies this`packetID
      ensures packetID == Be16(id) && |packetID| == 2 && 0x100 * (packetID[0] as int) + packetID[1] == id
    {
      packetID := Be16(id);
    }

    /** The length is announced as a 32-bit number, even when it does not fit one. */
    method SizeOf() returns (n: nat, err: Option<Failure>)
      modifies this`remLen
      ensures err == if Announceable(View()) then None else Some(InvalidLength)
      ensures err == None ==> remLen == RemLen(View()) && n == 1 + VarLen(RemLen(View())) + Size(View())
    {
      var total := 2 + |topic| + |payload|;
      if QoS(flags) != 0 {
        total := total + 2;
      }
      if version == V50 {
        var full := properties.FullLen();
        total := total + full;
      }
      var announced := Int32(total);
      if announced > MAX_REMAINING || announced < 0 {
        return 0, Some(InvalidLength);
      }
      remLen := announced;
      n := UvarintCalc(remLen);
      n := 1 + n + total;
      err := None;
    }

    /** Writes the packet into a buffer.  Where there are no properties the byte for their length keeps what the
        buffer held. */
    method Encode(to: array<byte>, order: seq<Id>) returns (r: EncodeResult)
      requires Sound(View()) && Visits(properties.properties, order)
      requires Need(View()) <= to.Length && Refusal(View()) == None ==> |Image(View(), order, 0)| <= to.Length
      modifies this`remLen, to
      ensures View() == old(View())
      ensures var image := Image(View(), order, Stale(old(to[..]), PropertyOffset(View())));
              && r == (if !Announceable(View()) then Refused(InvalidLength)
                       else if Need(View()) > to.Length then Needs(Need(View()))
                       else match Refusal(View()) case Some(e) => Refused(e) case None => Written(|image|))
              && (r.Written? ==> |image| <= to.Length && to[..|image|] == image)
      ensures r.Written? ==> to.Length > 0 && to[0] == 0x30 + flags
    {
      hide EncodeVar, EncodeAll, ValidTopic, NoDuplicates, VarLen, Message, TopicAndId, Size;
      StaleLength(View(), order, Stale(to[..], PropertyOffset(View())));
      var expectedSize, err := SizeOf();
      if err.Some? {
        return Refused(err.value);
      }
      if expectedSize > to.Length {
        return Needs(expectedSize);
      }
      ghost var before := to[..];
      EncodeLength(remLen);
      to[0] := 0x30 + flags;
      var offset := PutUvarint(to, 1, remLen);
      offset := offset + 1;
      assert to[..offset] == FixedHeader(View());
      StaleSame(before, to[..], offset, |TopicAndId(View())|);
      var n, failure := EncodeMessage(to, offset, order);
      if failure.Some? {
        return Refused(failure.value);
      }
      Glued(to[..], offset, n);
      r := Written(offset + n);
    }

    method EncodeMessage(to: array<byte>, off: nat, order: seq<Id>) returns (n: nat, err: Option<Failure>)
      requires Sound(View()) && Visits(properties.properties, order) && Announceable(View())
      requires off + Size(View()) <= to.Length
      requires Refusal(View()) == None ==> off + |Message(View(), order, 0)| <= to.Length
      modifies to
      ensures View() == old(View())
      ensures forall k :: 0 <= k < off ==> to[k] == old(to[k])
      ensures err == Refusal(View())
      ensures err == None ==>
                var message := Message(View(), order, Stale(old(to[..]), off + |TopicAndId(View())|));
                n == |message| && off + n <= to.Length && to[off..off + n] == message
    {
      hide EncodeVar, EncodeAll, ValidTopic, NoDuplicates, VarLen, TopicAndId, PropertyPart, AllTyped, Encodable, Size;
      n := 0;
      MessageFits(View());
      if !ValidTopic(topic) {
        return 0, Some(InvalidTopic);
      }
      if QoS(flags) > 2 {
        return 0, Some(InvalidQoS);
      }
      if QoS(flags) == 0 && Dup(flags) {
        return 0, Some(DupViolation);
      }
      if QoS(flags) != 0 && |packetID| == 0 {
        return 0, Some(PacketIDZero);
      }
      n, err := EncodeTopicAndId(to, off);
      if err.Some? {
        return 0, err;
      }
      ghost var was := to[..];
      StaleAfter(old(to[..]), to[..], off + n);
      MessageRoom(View());
      MessageLength(View(), order, 0);
      var m := EncodeRest(to, off + n, order);
      Appended(was, to[..], off, n, m);
      n := n + m;
    }

    method EncodeTopicAndId(to: array<byte>, off: nat) returns (n: nat, err: Option<Failure>)
      requires QoS(flags) != 0 ==> |packetID| == 2
      requires off + 2 + |topic| + (if QoS(flags) != 0 then 2 else 0) <= to.Length
      modifies to
      ensures err == if |topic| > MAX_STRING then Some(InvalidLPString) else None
      ensures err == None ==>
                n == |TopicAndId(View())| && off + n <= to.Length && to[off..off + n] == TopicAndId(View())
      ensures err == None ==> forall k :: 0 <= k < to.Length && !(off <= k < off + n) ==> to[k] == old(to[k])
      ensures forall k :: 0 <= k < off ==> to[k] == old(to[k])
    {
      hide Prefixed;
      var failure;
      n, failure := WriteLPBytes(to, off, topic);
      if failure != Fine {
        return 0, Some(InvalidLPString);
      }
      PrefixLength(topic);
      if QoS(flags) != 0 {
        ghost var was := to[..];
        var m := PutBytes(to, off + n, packetID);
        Appended(was, to[..], off, n, m);
        n := n + m;
      }
      err := None;
    }

    /** Properties and payload. */
    method EncodeRest(to: array<byte>, off: nat, order: seq<Id>) returns (n: nat)
      requires Sound(View()) && Visits(properties.properties, order)
      requires off + (if version == V50 then FullLength(properties.len) else 0) <= to.Length
      requires off + |PropertyPart(View(), order, 0)| + |payload| <= to.Length
      modifies to
      ensures forall k :: 0 <= k < off ==> to[k] == old(to[k])
      ensures var rest := PropertyPart(View(), order, Stale(old(to[..]), off)) + payload;
              n == |rest| && off + n <= to.Length && to[off..off + n] == rest
    {
      hide NoDuplicates;
      hide EncodeVar, EncodeAll, VarLen, AllTyped, Section;
      n := EncodeProperties(to, off, order);
      ghost var was := to[..];
      var m := PutBytes(to, off + n, payload);
      Appended(was, to[..], off, n, m);
      n := n + m;
    }

    method EncodeProperties(to: array<byte>, off: nat, order: seq<Id>) returns (n: nat)
      requires Sound(View()) && Visits(properties.properties, order)
      requires off + (if version == V50 then FullLength(properties.len) else 0) <= to.Length
      requires off + |PropertyPart(View(), order, 0)| <= to.Length
      modifies to
      ensures forall k :: 0 <= k < off ==> to[k] == old(to[k])
      ensures var part := PropertyPart(View(), order, Stale(old(to[..]), off));
              n == |part| && off + n <= to.Length && to[off..off + n] == part
    {
      hide EncodeVar, EncodeAll, NoDuplicates, VarLen, AllTyped, Section;
      n := 0;
      if version == V50 {
        var ok;
        VarLenFacts(properties.len % 0x1_0000_0000);
        ok, n := properties.Encode(to, off, order);
      }
    }

    /** Reads the message that stands behind a fixed header. */
    method DecodeMessage(from: seq<byte>) returns (n: nat, err: Option<Failure>)
      requires topic == [] && packetID == [] && payload == [] && properties.properties == map[] && properties.len == 0
      requires remLen < 0x1_0000_0000
      modifies this`topic, this`packetID, this`payload, properties
      ensures match ParseMessage(version, flags, remLen, from)
              case Accepted(p, c) => err == None && n == c && View() == p
              case Rejected(e) => err == Some(e)
    {
      n := 0;
      if QoS(flags) > 2 {
        return 0, Some(if version == V50 then ProtocolViolation else ServerUnavailable);
      }
      if QoS(flags) == 0 && Dup(flags) {
        return 0, Some(if version == V50 then ProtocolViolation else ServerUnavailable);
      }
      var buf;
      buf, n := ReadLPBytes(from);
      if buf.None? {
        return n, Some(InsufficientData);
      }
      if |buf.value| == 0 && version < V50 {
        return n, Some(ServerUnavailable);
      } else if !ValidTopic(buf.value) {
        return n, Some(if version == V50 then InvalidTopicName else ServerUnavailable);
      }
      topic := buf.value;
      n, err := DecodeRest(from, n);
    }

    method DecodeRest(from: seq<byte>, offset: nat) returns (n: nat, err: Option<Failure>)
      requires offset == 2 + |topic| && offset <= |from|
      requires packetID == [] && payload == [] && properties.properties == map[] && properties.len == 0
      requires remLen < 0x1_0000_0000
      modifies this`packetID, this`payload, properties
      ensures match ParseId(version, flags, remLen, from, topic)
              case Accepted(p, c) => err == None && n == c && View() == p
              case Rejected(e) => err == Some(e)
    {
      hide DecodeSection, IdLength, IdBytes, ParsePayload, AliasSet;
      n := offset;
      if QoS(flags) != 0 {
        IdFits(from[offset..]);
        packetID := IdBytes(from[offset..]);
        n := n + IdLength(from[offset..]);
      }
      if version == V50 {
        var c, e := properties.Decode(from[n..]);
        if e.Some? {
          return n, Some(if e.value == MalformedPacket then Malformed else ProtocolViolation);
        }
        n := n + c;
        if |topic| == 0 && !AliasSet(properties.properties) {
          return n, Some(ProtocolViolation);
        }
      }
      n, err := DecodePayload(from, n);
    }

    method DecodePayload(from: seq<byte>, offset: nat) returns (n: nat, err: Option<Failure>)
      requires offset <= |from| && payload == [] && remLen < 0x1_0000_0000
      modifies this`payload
      ensures match ParsePayload(old(View()), remLen, from, offset)
              case Accepted(p, c) => err == None && n == c && View() == p
              case Rejected(e) => err == Some(e)
    {
      n := offset;
      if remLen < n || |from| - n < remLen - n {
        return n, Some(if version == V50 then Malformed else ServerUnavailable);
      }
      payload := from[n..remLen];
      n := remLen;
      err := None;
    }
  }

  /** Sets a packet and encodes it: the first byte holds the type and the three flags. */
  method EncodeSet(m: Publish, t: seq<byte>, p: seq<byte>, q: byte, r: bool, d: bool, to: array<byte>, order: seq<Id>)
    returns (err: Option<Failure>, result: EncodeResult)
    requires Sound(m.View()) && Visits(m.properties.properties, order)
    requires q <= 2 ==>
               var f := (if d then 8 else 0) + 2 * q + (if r then 1 else 0);
               var v := m.View().(topic := t, payload := p, flags := f);
               Need(v) <= to.Length && Refusal(v) == None ==> |Image(v, order, 0)| <= to.Length
    modifies m, to
    ensures err == None && result.Written? ==>
              to.Length > 0 && to[0] == 0x30 + (if d then 8 else 0) + 2 * q + (if r then 1 else 0)
  {
    hide Image, Refusal, Need;
    result := Needs(0);
    err := m.Set(t, p, q, r, d);
    if err == None {
      result := m.Encode(to, order);
    }
  }

  /** Decodes into a new packet. */
  method Decode(version: nat, from: seq<byte>) returns (p: Publish?, n: nat, err: Option<Failure>)
    ensures err == None ==> p != null && from != [] && from[0] == 0x30 + p.flags
    ensures match Parse(version, from)
            case Accepted(q, c) => err == None && p != null && fresh(p) && p.View() == q && n == c
            case Rejected(e) => err == Some(e) && p == null
  {
    hide ParseMessage, DecodeVar;
    p, n := null, 0;
    if |from| < 1 {
      return null, 0, Some(BufferTooSmall);
    }
    if from[0] / 16 != 3 {
      return null, 0, Some(NotPublish);
    }
    var m := new Publish(version);
    m.flags := from[0] % 16;
    if QoS(m.flags) > 2 {
      return null, 0, Some(if version == V50 then Malformed else ServerUnavailable);
    }
    var remLen: u32, c: int := Uvarint(from[1..]);
    if c <= 0 {
      return null, 1, Some(InsufficientData);
    }
    m.remLen := remLen;
    if remLen > |from[1 + c..]| {
      return null, 1 + c + remLen, Some(InsufficientData);
    }
    n, err := m.DecodeMessage(from[1 + c..]);
    n := 1 + c + n;
    if err.Some? {
      return null, n, err;
    }
    p := m;
  }

  /** Encodes into a new buffer, which is all zero: the image is complete even without properties. */
  method EncodeNew(p: Publish, order: seq<Id>) returns (buf: array?<byte>, r: EncodeResult)
    requires Sound(p.View()) && Visits(p.properties.properties, order)
    requires Refusal(p.View()) == None ==> |Message(p.View(), order, 0)| <= Size(p.View())
    modifies p`remLen
    ensures p.View() == old(p.View())
    ensures r == match Refusal(p.View()) case Some(e) => Refused(e) case None => Written(|Image(p.View(), order, 0)|)
    ensures r.Written? ==> buf != null && fresh(buf) && buf.Length == Need(p.View())
                           && r.n <= buf.Length && buf[..r.n] == Image(p.View(), order, 0)
    ensures r.Written? && |Message(p.View(), order, 0)| == Size(p.View()) ==> buf[..] == Image(p.View(), order, 0)
  {
    hide EncodeVar, EncodeAll, ValidTopic, NoDuplicates, VarLen, Message, TopicAndId;
    buf := null;
    var sz, err := p.SizeOf();
    if err.Some? {
      return null, Refused(err.value);
    }
    buf := new byte[sz](_ => 0);
    EncodeLength(RemLen(p.View()));
    ImageLength(p.View(), order);
    r := p.Encode(buf, order);
  }

  /** What a buffer holds at a place. */
  function Stale(b: seq<byte>, at: nat): byte { if at < |b| then b[at] else 0 }

  /** The size of the buffer that is asked for. */
  function Need(p: Packet): nat { 1 + VarLen(RemLen(p)) + Size(p) }

  lemma Glued(b: seq<byte>, off: nat, n: nat)
    requires off + n <= |b|
    ensures b[..off + n] == b[..off] + b[off..off + n]
  {
  }

  lemma ImageLength(p: Packet, order: seq<Id>)
    requires Within(p.props, order)
    ensures |Image(p, order, 0)| == 1 + |EncodeVar(RemLen(p))| + |Message(p, order, 0)|
  {
  }

  lemma StaleLength(p: Packet, order: seq<Id>, stale: byte)
    requires Within(p.props, order)
    ensures |Image(p, order, stale)| == |Image(p, order, 0)|
  {
  }

  /** Where the length of the properties stands. */
  function PropertyOffset(p: Packet): nat { 1 + VarLen(RemLen(p)) + |TopicAndId(p)| }

  lemma StaleSame(a: seq<byte>, b: seq<byte>, off: nat, n: nat)
    requires |a| == |b| && forall k :: off <= k < |a| ==> a[k] == b[k]
    ensures Stale(a, off + n) == Stale(b, off + n)
  {
  }

  lemma IdFits(rest: seq<byte>)
    ensures IdLength(rest) <= |rest|
  {
  }

  lemma StaleAfter(a: seq<byte>, b: seq<byte>, at: nat)
    requires |a| == |b| && forall k :: at <= k < |a| ==> a[k] == b[k]
    ensures Stale(a, at) == Stale(b, at)
  {
  }

  lemma MessageFits(p: Packet)
    ensures 2 + |p.topic| + (if QoS(p.flags) != 0 then 2 else 0) <= Size(p)
  {
  }

  lemma MessageRoom(p: Packet)
    requires |p.topic| <= MAX_STRING && (QoS(p.flags) != 0 ==> |p.packetID| == 2)
    ensures |TopicAndId(p)| + (if p.version == V50 then FullLength(p.propLen) else 0) + |p.payload| == Size(p)
  {
  }
}
