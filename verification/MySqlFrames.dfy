/** The frames of the MySQL protocol as functions on byte sequences. */
module MySqlFrames {
  import opened Options
  import opened Bytes

  const MAX_PACKET: nat := 0xFF_FFFF

  /** Three bytes for the length, least significant first, and the sequence number. */
  function Header(n: nat, sequence: byte): (r: seq<byte>)
    requires n <= MAX_PACKET
    ensures |r| == 4 && (r[0] as int) + 0x100 * (r[1] as int) + 0x1_0000 * (r[2] as int) == n && r[3] == sequence
  {
    [n % 0x100, n / 0x100 % 0x100, n / 0x1_0000, sequence]
  }

  function Length(h: seq<byte>): nat
    requires |h| >= 3
  {
    var a: nat, b: nat, c: nat := h[0], h[1], h[2];
    a + 0x100 * b + 0x1_0000 * c
  }

  lemma LengthOfHeader(n: nat, sequence: byte)
    requires n <= MAX_PACKET
    ensures Length(Header(n, sequence)) == n
  {
  }

  function Succ(sequence: byte): byte { (sequence + 1) % 0x100 }

  /** A payload is cut after every `MAX_PACKET` bytes; a frame that is not full ends it. */
  function Frames(payload: seq<byte>, sequence: byte): seq<byte>
    decreases |payload|
  {
    if |payload| >= MAX_PACKET
    then Header(MAX_PACKET, sequence) + payload[..MAX_PACKET] + Frames(payload[MAX_PACKET..], Succ(sequence))
    else Header(|payload|, sequence) + payload
  }

  /** On the wire: the last frame announces what is left, a full one FF FF FF. */
  lemma LastOnWire(payload: seq<byte>, sequence: byte)
    requires |payload| < 0xFF_FFFF
    ensures Frames(payload, sequence)
         == [|payload| % 0x100, |payload| / 0x100 % 0x100, |payload| / 0x1_0000, sequence] + payload
  {
  }

  lemma FullOnWire(payload: seq<byte>, sequence: byte)
    requires |payload| >= 0xFF_FFFF
    ensures Frames(payload, sequence)
         == [0xFF, 0xFF, 0xFF, sequence] + payload[..0xFF_FFFF] + Frames(payload[0xFF_FFFF..], (sequence + 1) % 0x100)
  {
    assert Header(MAX_PACKET, sequence) == [0xFF, 0xFF, 0xFF, sequence];
    hide Header;
  }

  /** A stream is out of step exactly by its fourth byte; a short frame is the packet. */
  lemma ParseOneFrame(stream: seq<byte>, sequence: byte)
    requires |stream| >= 4
    ensures var n := (stream[0] as int) + 0x100 * (stream[1] as int) + 0x1_0000 * (stream[2] as int);
            && (stream[3] != sequence ==> Parse(stream, sequence, None) == OutOfSync(stream[3] > sequence))
            && (stream[3] == sequence && 0 < n < 0xFF_FFFF && 4 + n <= |stream| ==>
                  Parse(stream, sequence, None) == Packet(stream[4..4 + n], stream[4 + n..], (sequence + 1) % 0x100))
  {
  }

  function After(payload: seq<byte>, sequence: byte): byte
    decreases |payload|
  {
    if |payload| >= MAX_PACKET then After(payload[MAX_PACKET..], Succ(sequence)) else Succ(sequence)
  }

  lemma SuccAdds(sequence: byte, n: nat)
    ensures (Succ(sequence) + n) % 0x100 == (sequence + n + 1) % 0x100
  {
  }

  lemma {:induction false} AfterCounts(payload: seq<byte>, sequence: byte)
    ensures After(payload, sequence) == (sequence + |payload| / MAX_PACKET + 1) % 0x100
    decreases |payload|
  {
    if |payload| >= MAX_PACKET {
      AfterCounts(payload[MAX_PACKET..], Succ(sequence));
      var n := (|payload| - MAX_PACKET) / MAX_PACKET;
      assert |payload| / MAX_PACKET == n + 1;
      SuccAdds(sequence, n + 1);
    }
  }

  /** The frame that goes out next, and what remains. */
  lemma FramesStep(rest: seq<byte>, sequence: byte, size: nat)
    requires size == if |rest| >= MAX_PACKET then MAX_PACKET else |rest|
    ensures var frame := Header(size, sequence) + rest[..size];
            && |frame| == size + 4
            && Frames(rest, sequence)
                == frame + (if size < MAX_PACKET then [] else Frames(rest[size..], Succ(sequence)))
            && After(rest, sequence) == if size < MAX_PACKET then Succ(sequence)
                else After(rest[size..], Succ(sequence))
  {
  }

  lemma {:induction false} FramesLength(payload: seq<byte>, sequence: byte)
    ensures |Frames(payload, sequence)| == |payload| + 4 * (|payload| / MAX_PACKET + 1)
    decreases |payload|
  {
    if |payload| >= MAX_PACKET {
      FramesLength(payload[MAX_PACKET..], Succ(sequence));
    }
  }

  datatype First = Frame(body: seq<byte>, rest: seq<byte>) | WrongSequence(multiple: bool) | Short

  /** The first frame of a stream. */
  function FirstFrame(stream: seq<byte>, sequence: byte): First {
    if |stream| < 4 then Short
    else if stream[3] != sequence then WrongSequence(stream[3] > sequence)
    else if |stream| < 4 + Length(stream) then Short
    else Frame(stream[4..4 + Length(stream)], stream[4 + Length(stream)..])
  }

  datatype Parsed =
    | Packet(payload: seq<byte>, rest: seq<byte>, sequence: byte)
    | OutOfSync(multiple: bool)
    | Invalid

  /** What a reader makes of a stream; `before` is what earlier frames of the packet carried. */
  function Parse(stream: seq<byte>, sequence: byte, before: Option<seq<byte>>): Parsed
    decreases |stream|
  {
    match FirstFrame(stream, sequence)
    case Short => Invalid
    case WrongSequence(multiple) => OutOfSync(multiple)
    case Frame(body, rest) =>
      if body == [] && before.None? then Invalid
      else if |body| < MAX_PACKET then Packet(Append(before, body), rest, Succ(sequence))
      else Parse(rest, Succ(sequence), Some(Append(before, body)))
  }

  function Append(before: Option<seq<byte>>, body: seq<byte>): seq<byte> {
    if before.Some? then before.value + body else body
  }

  lemma FirstOfFrame(body: seq<byte>, rest: seq<byte>, sequence: byte)
    requires |body| <= MAX_PACKET
    ensures FirstFrame(Header(|body|, sequence) + body + rest, sequence) == Frame(body, rest)
  {
    LengthOfHeader(|body|, sequence);
    var stream := Header(|body|, sequence) + body + rest;
    assert Length(stream) == Length(Header(|body|, sequence));
    assert stream[4..4 + |body|] == body && stream[4 + |body|..] == rest;
  }

  lemma FullFirst(payload: seq<byte>, tail: seq<byte>, sequence: byte)
    requires |payload| >= MAX_PACKET
    ensures After(payload, sequence) == After(payload[MAX_PACKET..], Succ(sequence))
    ensures Frames(payload, sequence) + tail
         == Header(MAX_PACKET, sequence) + payload[..MAX_PACKET]
             + (Frames(payload[MAX_PACKET..], Succ(sequence)) + tail)
  {
    hide Header;
  }

  /** A frame that is not full ends the packet, a full one does not. */
  lemma ParseLast(payload: seq<byte>, tail: seq<byte>, sequence: byte, before: Option<seq<byte>>)
    requires |payload| < MAX_PACKET
    ensures Parse(Frames(payload, sequence) + tail, sequence, before)
         == if payload == [] && before.None? then Invalid
             else Packet(Append(before, payload), tail, After(payload, sequence))
  {
    hide FirstFrame, Header;
    FirstOfFrame(payload, tail, sequence);
  }

  lemma ParseFull(first: seq<byte>, rest: seq<byte>, sequence: byte, before: Option<seq<byte>>)
    requires |first| == MAX_PACKET
    ensures Parse(Header(MAX_PACKET, sequence) + first + rest, sequence, before)
         == Parse(rest, Succ(sequence), Some(Append(before, first)))
  {
    hide FirstFrame, Header, Append;
    FirstOfFrame(first, rest, sequence);
  }

  /** Split and reassembly: the reader gets back exactly the payload, however long, leaves what follows, and
      expects the sequence number that the writer goes on with.  Only a lone empty payload is refused. */
  lemma {:induction false} ParseFrames(payload: seq<byte>, tail: seq<byte>, sequence: byte, before: Option<seq<byte>>)
    ensures Parse(Frames(payload, sequence) + tail, sequence, before)
         == if payload == [] && before.None? then Invalid
             else Packet(Append(before, payload), tail, After(payload, sequence))
    decreases |payload|
  {
    hide FirstFrame, Header, Parse, Frames, After;
    if |payload| < MAX_PACKET {
      ParseLast(payload, tail, sequence, before);
    } else {
      var first, others := payload[..MAX_PACKET], payload[MAX_PACKET..];
      var rest := Frames(others, Succ(sequence)) + tail;
      FullFirst(payload, tail, sequence);
      ParseFull(first, rest, sequence, before);
      ParseFrames(others, tail, Succ(sequence), Some(Append(before, first)));
      assert payload == first + others;
      assert Append(Some(Append(before, first)), others) == Append(before, payload);
    }
  }

  lemma RoundTrip(payload: seq<byte>, tail: seq<byte>, sequence: byte)
    ensures (Parse(Frames(payload, sequence) + tail, sequence, None) == Packet(payload, tail, After(payload, sequence)))
            <==> payload != []
  {
    ParseFrames(payload, tail, sequence, None);
  }

  // ---------------------------------------------------------------- long data

  function Command(stmt: nat, param: nat): (r: seq<byte>)
    ensures |r| == 7 && r[0] == 0x18
    ensures (r[1] as int) + 0x100 * (r[2] as int) + 0x1_0000 * (r[3] as int) + 0x100_0000 * (r[4] as int)
         == stmt % 0x1_0000_0000
    ensures (r[5] as int) + 0x100 * (r[6] as int) == param % 0x1_0000
  {
    LowBytes(stmt);
    LowBytes(param);
    [24, stmt % 0x100, stmt / 0x100 % 0x100, stmt / 0x1_0000 % 0x100, stmt / 0x100_0000 % 0x100, param % 0x100,
        param / 0x100 % 0x100]
  }

  lemma LowBytes(x: nat)
    ensures x % 0x100 + 0x100 * (x / 0x100 % 0x100) == x % 0x1_0000
    ensures x % 0x1_0000 + 0x1_0000 * (x / 0x1_0000 % 0x100) == x % 0x100_0000
    ensures x % 0x100_0000 + 0x100_0000 * (x / 0x100_0000 % 0x100) == x % 0x1_0000_0000
  {
    SecondByte(x);
    ThirdByte(x);
    FourthByte(x);
  }

  lemma SecondByte(x: nat)
    ensures x % 0x100 + 0x100 * (x / 0x100 % 0x100) == x % 0x1_0000
  {
    var q := x / 0x100;
    var d, r := q / 0x100, x % 0x100 + 0x100 * (q % 0x100);
    assert x == 0x100 * q + x % 0x100 && q == 0x100 * d + q % 0x100;
    assert x == 0x1_0000 * d + r;
    SecondByteRest(x, d, r);
  }

  lemma SecondByteRest(x: nat, d: nat, r: nat)
    requires x == 0x1_0000 * d + r && r < 0x1_0000
    ensures x % 0x1_0000 == r
  {
  }

  lemma ThirdByte(x: nat)
    ensures x % 0x1_0000 + 0x1_0000 * (x / 0x1_0000 % 0x100) == x % 0x100_0000
  {
    var q := x / 0x1_0000;
    var d, r := q / 0x100, x % 0x1_0000 + 0x1_0000 * (q % 0x100);
    assert x == 0x1_0000 * q + x % 0x1_0000 && q == 0x100 * d + q % 0x100;
    assert x == 0x100_0000 * d + r;
    ThirdByteRest(x, d, r);
  }

  lemma ThirdByteRest(x: nat, d: nat, r: nat)
    requires x == 0x100_0000 * d + r && r < 0x100_0000
    ensures x % 0x100_0000 == r
  {
  }

  lemma FourthByte(x: nat)
    ensures x % 0x100_0000 + 0x100_0000 * (x / 0x100_0000 % 0x100) == x % 0x1_0000_0000
  {
    var q := x / 0x100_0000;
    var d, r := q / 0x100, x % 0x100_0000 + 0x100_0000 * (q % 0x100);
    assert x == 0x100_0000 * q + x % 0x100_0000 && q == 0x100 * d + q % 0x100;
    assert x == 0x1_0000_0000 * d + r;
    FourthByteRest(x, d, r);
  }

  lemma FourthByteRest(x: nat, d: nat, r: nat)
    requires x == 0x1_0000_0000 * d + r && r < 0x1_0000_0000
    ensures x % 0x1_0000_0000 == r
  {
  }

  /** The argument cut into what one packet can carry beside the command. */
  function Chunks(arg: seq<byte>, room: nat): (r: seq<seq<byte>>)
    requires room > 0
    decreases |arg|
  {
    if arg == [] then [] else if |arg| <= room then [arg] else [arg[..room]] + Chunks(arg[room..], room)
  }

  function Join(chunks: seq<seq<byte>>): seq<byte> {
    if chunks == [] then [] else chunks[0] + Join(chunks[1..])
  }

  /** Nothing of the argument is lost or repeated, and every part fits. */
  lemma {:induction false} ChunksJoin(arg: seq<byte>, room: nat)
    requires room > 0
    ensures Join(Chunks(arg, room)) == arg
    ensures forall k :: 0 <= k < |Chunks(arg, room)| ==> 0 < |Chunks(arg, room)[k]| <= room
    decreases |arg|
  {
    if arg != [] && |arg| > room {
      ChunksJoin(arg[room..], room);
      assert arg == arg[..room] + arg[room..];
    }
  }

  function LongData(stmt: nat, param: nat, chunks: seq<seq<byte>>): seq<byte> {
    if chunks == [] then [] else Frames(Command(stmt, param) + chunks[0], 0) + LongData(stmt, param, chunks[1..])
  }

  /** Reading what long data has been sent as: one packet for each part, under sequence number 0; in it the command
      number, the statement and the parameter, then the part. */
  lemma LongDataRead(stmt: nat, param: nat, chunks: seq<seq<byte>>, tail: seq<byte>) returns (packet: seq<byte>)
    requires chunks != []
    ensures var rest := LongData(stmt, param, chunks[1..]) + tail;
            var after := (|packet| / 0xFF_FFFF + 1) % 0x100;
            Parse(LongData(stmt, param, chunks) + tail, 0, None) == Packet(packet, rest, after)
    ensures |packet| == 7 + |chunks[0]| && packet[0] == 0x18 && packet[7..] == chunks[0]
    ensures (packet[1] as int) + 0x100 * (packet[2] as int) + 0x1_0000 * (packet[3] as int)
            + 0x100_0000 * (packet[4] as int) == stmt % 0x1_0000_0000
    ensures (packet[5] as int) + 0x100 * (packet[6] as int) == param % 0x1_0000
  {
    packet := Command(stmt, param) + chunks[0];
    hide Parse, Frames, After, Command;
    var rest := LongData(stmt, param, chunks[1..]) + tail;
    assert LongData(stmt, param, chunks) + tail == Frames(packet, 0) + rest;
    ParseFrames(packet, rest, 0, None);
    AfterCounts(packet, 0);
  }
}
