/** Packets over a connection: `packets.go` and `buffer.go`, with their byte arrays overwritten in place. */
module MySqlConn {
  import opened Options
  import opened Bytes
  import opened MySqlFrames

  /** What reading meets, in order: some bytes, the last bytes together with the end of the stream, a failure.
      An empty list is the end of the stream. */
  datatype Event = Arrived(data: seq<byte>) | Final(data: seq<byte>) | Failure

  datatype ReadError = NoError | EndOfStream | Failed

  /** The bytes that can be read before the stream ends or fails. */
  function Stream(events: seq<Event>): seq<byte> {
    if events == [] then []
    else match events[0]
    case Arrived(d) => d + Stream(events[1..])
    case Final(d) => d
    case Failure => []
  }

  function Work(events: seq<Event>): nat {
    if events == [] then 0 else (if events[0].Failure? then 1 else 1 + |events[0].data|) + Work(events[1..])
  }

  /** The network connection: it accepts `capacity` more bytes, and reads what the events say. */
  class Net {
    var sent: seq<byte>
    var capacity: nat
    var events: seq<Event>

    constructor (capacity: nat, events: seq<Event>)
      ensures sent == [] && this.capacity == capacity && this.events == events
    {
      sent, this.capacity, this.events := [], capacity, events;
    }

    method Write(data: seq<byte>) returns (n: nat)
      modifies this`sent, this`capacity
      ensures n == if |data| <= old(capacity) then |data| else old(capacity)
      ensures sent == old(sent) + data[..n] && capacity == old(capacity) - n
    {
      n := if |data| <= capacity then |data| else capacity;
      sent := sent + data[..n];
      capacity := capacity - n;
    }

    method Read(buf: array<byte>, from: nat) returns (n: nat, err: ReadError)
      requires from < buf.Length
      modifies this`events, buf
      ensures from + n <= buf.Length && n <= |old(Stream(events))|
      ensures forall k :: 0 <= k < buf.Length && !(from <= k < from + n) ==> buf[k] == old(buf[k])
      ensures buf[from..from + n] == old(Stream(events))[..n]
      ensures err == NoError ==> Stream(events) == old(Stream(events))[n..] && Work(events) < old(Work(events))
      ensures err == EndOfStream ==> n == |old(Stream(events))| && Stream(events) == []
      ensures err == Failed ==> n == 0 && old(Stream(events)) == []
    {
      if events == [] {
        return 0, EndOfStream;
      }
      var e := events[0];
      if e.Failure? {
        events := events[1..];
        return 0, Failed;
      }
      ghost var before := Stream(events);
      var room := buf.Length - from;
      n := if |e.data| <= room then |e.data| else room;
      forall k | 0 <= k < n {
        buf[from + k] := e.data[k];
      }
      assert before[..n] == e.data[..n];
      assert buf[from..from + n] == e.data[..n];
      if n < |e.data| {
        var left := e.data[n..];
        events := [if e.Final? then Final(left) else Arrived(left)] + events[1..];
        err := NoError;
      } else if e.Final? {
        events := [];
        err := EndOfStream;
      } else {
        events := events[1..];
        err := NoError;
      }
      assert err == NoError ==> Stream(events) == before[n..];
    }
  }

  const DEFAULT_SIZE: nat := 4096

  class Buffer {
    var buf: array<byte>
    const nc: Net
    var idx: nat
    var length: nat

    ghost predicate Valid()
      reads this
    {
      idx + length <= buf.Length
    }

    /** Everything a reader can still get: what is buffered, then the stream. */
    ghost function Pending(): seq<byte>
      requires Valid()
      reads this, buf, nc
    {
      buf[idx..idx + length] + Stream(nc.events)
    }

    constructor (nc: Net)
      ensures Valid() && this.nc == nc && fresh(buf) && Pending() == Stream(nc.events)
    {
      this.nc := nc;
      idx, length := 0, 0;
      buf := new byte[DEFAULT_SIZE];
    }

    /** Moves what is buffered to the beginning and grows the buffer if necessary. */
    method MakeRoom(need: nat)
      requires Valid() && length < need
      modifies this, buf
      ensures Valid() && (fresh(buf) || buf == old(buf)) && length == old(length)
      ensures idx == 0 && need <= buf.Length && buf[..length] == old(buf[idx..idx + length])
    {
      var n := length;
      if n > 0 && idx > 0 {
        forall k | 0 <= k < n {
          buf[k] := buf[idx + k];
        }
      }
      assert buf[..n] == old(buf[idx..idx + length]);
      if need > buf.Length {
        var newBuf := new byte[(need / DEFAULT_SIZE + 1) * DEFAULT_SIZE];
        assert need < newBuf.Length;
        forall k | 0 <= k < buf.Length {
          newBuf[k] := buf[k];
        }
        assert newBuf[..n] == buf[..n];
        buf := newBuf;
      }
      idx := 0;
    }

    method Fill(need: nat) returns (err: ReadError)
      requires Valid() && length < need
      modifies this, buf, nc`events
      ensures Valid() && (fresh(buf) || buf == old(buf))
      ensures err == NoError <==> need <= |old(Pending())|
      ensures err == NoError ==> need <= length && Pending() == old(Pending())
    {
      ghost var was := Pending();
      MakeRoom(need);
      var n := length;
      assert buf[..n] + Stream(nc.events) == was;
      err := Failed;
      var more := true;
      while more
        invariant idx == 0 && length <= n <= buf.Length && need <= buf.Length
        invariant more ==> n < need
        invariant fresh(buf) || buf == old(buf)
        invariant more || err == NoError ==> buf[..n] + Stream(nc.events) == was
        invariant !more ==> (err == NoError <==> need <= |was|) && (err == NoError ==> need <= length == n)
        decreases more, Work(nc.events)
      {
        var nn, e := ReadMore(n);
        n := n + nn;
        if e == NoError {
          if n >= need {
            length, err, more := n, NoError, false;
          }
        } else if e == EndOfStream {
          if n >= need {
            length, err, more := n, NoError, false;
          } else {
            err, more := EndOfStream, false;
          }
        } else {
          err, more := Failed, false;
        }
      }
    }

    method ReadMore(n: nat) returns (nn: nat, err: ReadError)
      requires n < buf.Length
      modifies buf, nc`events
      ensures n + nn <= buf.Length
      ensures err == NoError ==> Work(nc.events) < old(Work(nc.events))
      ensures err != Failed ==> buf[..n + nn] + Stream(nc.events) == old(buf[..n] + Stream(nc.events))
      ensures err == EndOfStream ==> Stream(nc.events) == []
      ensures err == Failed ==> nn == 0 && old(Stream(nc.events)) == []
    {
      ghost var stream := Stream(nc.events);
      ghost var head := buf[..n];
      nn, err := nc.Read(buf, n);
      assert buf[..n + nn] == head + stream[..nn];
      if err != Failed {
        assert stream == stream[..nn] + Stream(nc.events);
      }
    }

    /** The next bytes, as a place in the buffer; they stay there until the next read. */
    method ReadNext(need: nat) returns (err: ReadError, offset: nat)
      requires Valid()
      modifies this, buf, nc`events
      ensures Valid() && (fresh(buf) || buf == old(buf))
      ensures err == NoError <==> need <= |old(Pending())|
      ensures err == NoError ==> offset + need <= buf.Length && buf[offset..offset + need] == old(Pending())[..need]
                                 && Pending() == old(Pending())[need..]
    {
      err, offset := NoError, 0;
      ghost var was := Pending();
      if length < need {
        err := Fill(need);
      }
      if err == NoError {
        assert |was| == length + |Stream(nc.events)|;
        offset := Take(need);
      }
    }

    method Take(need: nat) returns (offset: nat)
      requires Valid() && need <= length
      modifies this`idx, this`length
      ensures Valid() && offset + need <= buf.Length
      ensures buf[offset..offset + need] == old(Pending())[..need] && Pending() == old(Pending())[need..]
    {
      ghost var held := buf[idx..idx + length];
      SplitAt(held, Stream(nc.events), need);
      offset := idx;
      idx := idx + need;
      length := length - need;
      assert buf[offset..idx] == held[..need];
      assert buf[idx..idx + length] == held[need..];
    }
  }

  lemma SplitAt<T>(a: seq<T>, b: seq<T>, n: nat)
    requires n <= |a|
    ensures (a + b)[..n] == a[..n] && (a + b)[n..] == a[n..] + b
  {
  }

  lemma FirstShorter(stream: seq<byte>, sequence: byte)
    ensures var f := FirstFrame(stream, sequence); f.Frame? ==> |f.rest| < |stream|
  {
  }

  datatype FrameRead = Got(data: seq<byte>) | Unexpected(multiple: bool) | Unreadable

  datatype ReadResult = Ok(payload: seq<byte>) | SyncError(multiple: bool) | Canceled | InvalidConn

  datatype WriteResult = Written | TooLarge | WriteCanceled | NoWrite | WriteInvalid

  class Conn {
    const net: Net
    const buf: Buffer
    const maxAllowedPacket: int
    var sequence: byte
    var canceled: bool
    var closed: bool

    ghost predicate Valid()
      reads this, buf
    {
      buf.Valid() && buf.nc == net
    }

    constructor (net: Net, maxAllowedPacket: int)
      ensures Valid() && this.net == net && this.maxAllowedPacket == maxAllowedPacket && sequence == 0 &&
                !canceled && !closed
      ensures fresh(buf) && fresh(buf.buf) && buf.Pending() == Stream(net.events)
    {
      this.net := net;
      this.maxAllowedPacket := maxAllowedPacket;
      sequence, canceled, closed := 0, false, false;
      buf := new Buffer(net);
    }

    method ReadFailed() returns (r: ReadResult)
      modifies this`closed
      ensures r == if canceled then Canceled else InvalidConn
      ensures closed == (old(closed) || !canceled)
    {
      if canceled {
        return Canceled;
      }
      closed := true;
      r := InvalidConn;
    }

    /** Reads one frame: what is left to read, `sequence` and the outcome agree with the first frame of all the
        bytes that are still to come. */
    method ReadFrame() returns (f: FrameRead)
      requires Valid()
      modifies this`sequence, buf, buf.buf, net`events
      ensures Valid() && (fresh(buf.buf) || buf.buf == old(buf.buf))
      ensures match FirstFrame(old(buf.Pending()), old(sequence))
              case Frame(body, rest) => f == Got(body) && buf.Pending() == rest && sequence == Succ(old(sequence))
              case WrongSequence(multiple) => f == Unexpected(multiple)
              case Short => f == Unreadable
    {
      ghost var pending := buf.Pending();
      var err, h := buf.ReadNext(4);
      if err != NoError {
        return Unreadable;
      }
      var header := buf.buf[h..h + 4];
      var pktLen := Length(header);
      HeaderOf(pending, header);
      hide Length;
      if header[3] != sequence {
        return Unexpected(header[3] > sequence);
      }
      sequence := Succ(sequence);
      err, h := buf.ReadNext(pktLen);
      if err != NoError {
        return Unreadable;
      }
      f := Got(buf.buf[h..h + pktLen]);
      After4(pending, pktLen);
    }

    lemma HeaderOf(pending: seq<byte>, header: seq<byte>)
      requires |pending| >= 4 && header == pending[..4]
      ensures Length(pending) == Length(header) && header[3] == pending[3]
    {
    }

    lemma After4(pending: seq<byte>, n: nat)
      requires |pending| >= 4 + n
      ensures pending[4..][..n] == pending[4..4 + n] && pending[4..][n..] == pending[4 + n..]
    {
    }

    /** Reads one packet, whatever pieces the network delivers it in: exactly what the parser finds in all the
        bytes that are still to come. */
    method ReadPacket() returns (r: ReadResult)
      requires Valid()
      modifies this`sequence, this`closed, buf, buf.buf, net`events
      ensures Valid()
      ensures match Parse(old(buf.Pending()), old(sequence), None)
              case Packet(payload, rest, s) => r == Ok(payload) && buf.Pending() == rest && sequence == s
              case OutOfSync(multiple) => r == SyncError(multiple)
              case Invalid => r == InvalidConn || (r == Canceled && canceled)
      ensures closed == (old(closed) || r == InvalidConn)
      ensures |old(buf.Pending())| >= 4 && old(buf.Pending())[3] != old(sequence) ==>
                r == SyncError(old(buf.Pending())[3] > old(sequence))
      ensures var p := old(buf.Pending());
              |p| >= 4 && p[3] == old(sequence) ==>
                var n := (p[0] as int) + 0x100 * (p[1] as int) + 0x1_0000 * (p[2] as int);
                0 < n < 0xFF_FFFF && 4 + n <= |p| ==>
                  r == Ok(p[4..4 + n]) && buf.Pending() == p[4 + n..] && sequence == ((p[3] as int) + 1) % 0x100
    {
      hide FirstFrame;
      ghost var stream, s0 := buf.Pending(), sequence;
      if |stream| >= 4 {
        ParseOneFrame(stream, s0);
      }
      hide Succ;
      var prev: Option<seq<byte>> := None;
      while true
        invariant Valid() && (fresh(buf.buf) || buf.buf == old(buf.buf)) && canceled == old(canceled) &&
                    closed == old(closed)
        invariant Parse(buf.Pending(), sequence, prev) == Parse(stream, s0, None)
        decreases |buf.Pending()|
      {
        ghost var pending, s := buf.Pending(), sequence;
        var f := ReadFrame();
        FirstShorter(pending, s);
        match f {
          case Unreadable =>
            r := ReadFailed();
            return;
          case Unexpected(multiple) =>
            return SyncError(multiple);
          case Got(data) =>
            if data == [] && prev == None {
              closed := true;
              return InvalidConn;
            }
            if |data| < MAX_PACKET {
              return Ok(Append(prev, data));
            }
            prev := Some(Append(prev, data));
        }
      }
    }

    /** Writes one frame: the header goes in place, over four bytes before the part that is sent. */
    method WriteFrame(a: array<byte>, d: nat, size: nat) returns (n: nat)
      requires d + 4 + size <= a.Length && size <= MAX_PACKET
      modifies a, net`sent, net`capacity
      ensures forall k :: 0 <= k < a.Length && !(d <= k < d + 4) ==> a[k] == old(a[k])
      ensures var frame := Header(size, sequence) + old(a[d + 4..d + 4 + size]);
              && n == (if |frame| <= old(net.capacity) then |frame| else old(net.capacity))
              && net.sent == old(net.sent) + frame[..n] && net.capacity == old(net.capacity) - n
    {
      ghost var body := a[d + 4..d + 4 + size];
      a[d] := size % 0x100;
      a[d + 1] := size / 0x100 % 0x100;
      a[d + 2] := size / 0x1_0000;
      a[d + 3] := sequence;
      assert a[d..d + 4] == Header(size, sequence);
      assert a[d + 4..d + 4 + size] == body;
      assert a[d..d + 4 + size] == a[d..d + 4] + a[d + 4..d + 4 + size];
      hide Header;
      n := net.Write(a[d..d + 4 + size]);
    }

    /** Writes the payload that the slice holds after four spare bytes, as frames.  Each header overwrites bytes
        that have already been sent; nothing outside the slice changes. */
    method WritePacket(a: array<byte>, lo: nat, hi: nat) returns (r: WriteResult)
      requires lo + 4 <= hi <= a.Length
      modifies this`sequence, this`closed, net`sent, net`capacity, a
      ensures forall k :: 0 <= k < lo || hi <= k < a.Length ==> a[k] == old(a[k])
      ensures closed == (old(closed) || r == WriteInvalid)
      ensures hi - lo - 4 > maxAllowedPacket ==>
                r == TooLarge && net.sent == old(net.sent) && net.capacity == old(net.capacity) &&
                    sequence == old(sequence)
      ensures hi - lo - 4 <= maxAllowedPacket ==>
                var fs, cap := Frames(old(a[lo + 4..hi]), old(sequence)), old(net.capacity);
                && r == WriteOutcome(|fs|, cap, canceled)
                && net.sent == old(net.sent) + Accepted(fs, cap) && net.capacity == cap - |Accepted(fs, cap)|
                && (r == Written ==> sequence == After(old(a[lo + 4..hi]), old(sequence)))
    {
      hide Header, Frames, After, Accepted, WriteOutcome;
      var d, pktLen := lo, hi - lo - 4;
      if pktLen > maxAllowedPacket {
        return TooLarge;
      }
      ghost var payload, s0, sent0, cap := a[lo + 4..hi], sequence, net.sent, net.capacity;
      ghost var done: seq<byte>, k := [], 0;
      while true
        invariant lo <= d && d + 4 + pktLen == hi && 0 <= pktLen && closed == old(closed)
        invariant forall k :: 0 <= k < lo || d + 4 <= k < a.Length ==> a[k] == old(a[k])
        invariant Frames(payload, s0) == done + Frames(payload[d - lo..], sequence)
        invariant After(payload, s0) == After(payload[d - lo..], sequence)
        invariant net.sent == sent0 + done && net.capacity == cap - |done| && |done| == k * (MAX_PACKET + 4)
        decreases pktLen
      {
        ghost var rest := payload[d - lo..];
        var size := if pktLen >= MAX_PACKET then MAX_PACKET else pktLen;
        assert a[d + 4..d + 4 + size] == rest[..size];
        ghost var frame := Header(size, sequence) + rest[..size];
        FramesStep(rest, sequence, size);
        var n := WriteFrame(a, d, size);
        if n != 4 + size {
          WriteFails(k, done, frame, Frames(rest, sequence), cap, canceled);
          SentSoFar(sent0, done, frame[..n]);
          if canceled {
            return WriteCanceled;
          }
          if n == 0 && pktLen == hi - d - 4 {
            return NoWrite;
          }
          closed := true;
          return WriteInvalid;
        }
        sequence := Succ(sequence);
        done, k := done + frame, k + 1;
        assert frame[..n] == frame;
        if size != MAX_PACKET {
          assert Frames(payload, s0) == done;
          WrittenWhen(|done|, cap, canceled);
          AcceptedAll(done, cap);
          return Written;
        }
        pktLen := pktLen - size;
        d := d + size;
        assert rest[size..] == payload[d - lo..];
      }
    }

    /** Fills in the command before one part of the argument and sends both. */
    method WriteLongData(data: array<byte>, lo: nat, pktLen: nat, stmt: nat, param: nat) returns (r: WriteResult)
      requires 7 <= pktLen && pktLen <= maxAllowedPacket && lo + 4 + pktLen <= data.Length
      modifies this`sequence, this`closed, net`sent, net`capacity, data
      ensures forall k :: 0 <= k < lo || lo + 4 + pktLen <= k < data.Length ==> data[k] == old(data[k])
      ensures var fs, cap := Frames(Command(stmt, param) + old(data[lo + 11..lo + 4 + pktLen]), 0), old(net.capacity);
              && (r == Written <==> |fs| <= cap)
              && net.sent == old(net.sent) + Accepted(fs, cap) && net.capacity == cap - |Accepted(fs, cap)|
    {
      hide Frames, After;
      hide Accepted, WriteOutcome;
      sequence := 0;
      WriteCommand(data, lo + 4, stmt, param);
      assert data[lo + 11..lo + 4 + pktLen] == old(data[lo + 11..lo + 4 + pktLen]);
      assert data[lo + 4..lo + 4 + pktLen] == data[lo + 4..lo + 11] + data[lo + 11..lo + 4 + pktLen];
      r := WritePacket(data, lo, lo + 4 + pktLen);
      WrittenWhen(|Frames(Command(stmt, param) + old(data[lo + 11..lo + 4 + pktLen]), 0)|, old(net.capacity), canceled);
    }

    method WriteCommand(data: array<byte>, lo: nat, stmt: nat, param: nat)
      requires lo + 7 <= data.Length
      modifies data
      ensures data[lo..lo + 7] == Command(stmt, param)
      ensures forall k :: 0 <= k < lo || lo + 7 <= k < data.Length ==> data[k] == old(data[k])
    {
      data[lo] := 24;
      data[lo + 1] := stmt % 0x100;
      data[lo + 2] := stmt / 0x100 % 0x100;
      data[lo + 3] := stmt / 0x1_0000 % 0x100;
      data[lo + 4] := stmt / 0x100_0000 % 0x100;
      data[lo + 5] := param % 0x100;
      data[lo + 6] := param / 0x100 % 0x100;
    }

    /** Sends an argument in as many commands as it needs.  Each command overwrites, in one shared array, the
        end of the part before it; what is sent is the argument, part after part. */
    method WriteCommandLongData(stmt: nat, param: nat, arg: seq<byte>) returns (r: WriteResult)
      requires maxAllowedPacket > 8
      modifies this`sequence, this`closed, net`sent, net`capacity
      ensures var all, cap := LongData(stmt, param, Chunks(arg, maxAllowedPacket - 8)), old(net.capacity);
              && (r == Written <==> |all| <= cap)
              && net.sent == old(net.sent) + Accepted(all, cap)
              && (r == Written ==> sequence == 0)
    {
      hide Frames, Command, Chunks, LongData, Accepted;
      var maxLen := maxAllowedPacket - 1;
      var pktLen := maxLen;
      var data := new byte[4 + 1 + 4 + 2 + |arg|];
      forall k | 0 <= k < |arg| {
        data[11 + k] := arg[k];
      }
      var lo, argLen := 0, |arg|;
      ghost var room, sent0, cap := maxLen - 7, net.sent, net.capacity;
      ghost var all, done: seq<byte> := LongData(stmt, param, Chunks(arg, room)), [];
      while argLen > 0
        invariant 0 <= argLen <= |arg| && lo == |arg| - argLen
        invariant pktLen == maxLen || argLen == 0
        invariant forall k :: lo + 11 <= k < data.Length ==> data[k] == arg[k - 11]
        invariant all == done + LongData(stmt, param, Chunks(arg[lo..], room))
        invariant net.sent == sent0 + done && net.capacity == cap - |done|
        decreases argLen
      {
        if 7 + argLen < maxLen {
          pktLen := 7 + argLen;
        }
        ghost var part, rest := arg[lo..][..pktLen - 7], arg[lo..][pktLen - 7..];
        assert data[lo + 11..lo + 4 + pktLen] == part;
        LongDataStep(stmt, param, arg[lo..], room);
        r := WriteLongData(data, lo, pktLen, stmt, param);
        ghost var fs := Frames(Command(stmt, param) + part, 0);
        AcceptedMore(done, fs, LongData(stmt, param, Chunks(rest, room)), cap);
        if r != Written {
          assert net.sent == sent0 + (done + Accepted(fs, cap - |done|));
          return;
        }
        done := done + fs;
        lo := lo + pktLen - 7;
        argLen := argLen - (pktLen - 7);
        assert rest == arg[lo..];
      }
      assert arg[lo..] == [];
      LongDataEnd(stmt, param, room);
      assert all == done;
      AcceptedMore(done, [], [], cap);
      sequence := 0;
      r := Written;
    }
  }

  lemma LongDataEnd(stmt: nat, param: nat, room: nat)
    requires room > 0
    ensures LongData(stmt, param, Chunks([], room)) == []
  {
  }

  lemma AcceptedMore(done: seq<byte>, next: seq<byte>, more: seq<byte>, capacity: nat)
    requires |done| <= capacity
    ensures done + (next + more) == done + next + more
    ensures |next| <= capacity - |done| ==> Accepted(next, capacity - |done|) == next
    ensures |next| > capacity - |done| ==>
              Accepted(done + next + more, capacity) == done + Accepted(next, capacity - |done|)
    ensures Accepted(done, capacity) == done
  {
  }

  lemma LongDataStep(stmt: nat, param: nat, arg: seq<byte>, room: nat)
    requires arg != [] && room > 0
    ensures var n := if |arg| <= room then |arg| else room;
            LongData(stmt, param, Chunks(arg, room))
                == Frames(Command(stmt, param) + arg[..n], 0) + LongData(stmt, param, Chunks(arg[n..], room))
  {
    if |arg| <= room {
      assert arg[..|arg|] == arg;
    }
  }

  function Accepted(data: seq<byte>, capacity: nat): seq<byte> {
    if |data| <= capacity then data else data[..capacity]
  }

  /** The error for "nothing was written" is returned whenever the failing write took nothing, which also
      happens between two frames. */
  function WriteOutcome(length: nat, capacity: nat, canceled: bool): WriteResult {
    if length <= capacity then Written
    else if canceled then WriteCanceled
    else if capacity % (MAX_PACKET + 4) == 0 then NoWrite
    else WriteInvalid
  }

  /** What a connection that accepts only so many bytes makes of a packet: the bytes it accepts are on the wire; the
      error is that of the context if it has ended, else "nothing was written" between two frames,
          else a general one. */
  lemma OutcomeMeans(data: seq<byte>, capacity: nat, canceled: bool)
    ensures Accepted(data, capacity) <= data && |Accepted(data, capacity)| <= capacity
    ensures |Accepted(data, capacity)| == |data| || |Accepted(data, capacity)| == capacity
    ensures var r := WriteOutcome(|data|, capacity, canceled);
            && (r == Written <==> |data| <= capacity)
            && (r == WriteCanceled <==> |data| > capacity && canceled)
            && (r == NoWrite <==> |data| > capacity && !canceled && capacity % 0x100_0003 == 0)
            && (r == WriteInvalid <==> |data| > capacity && !canceled && capacity % 0x100_0003 != 0)
  {
  }

  lemma WrittenWhen(length: nat, capacity: nat, canceled: bool)
    ensures WriteOutcome(length, capacity, canceled) == Written <==> length <= capacity
  {
  }

  lemma AcceptedAll(data: seq<byte>, capacity: nat)
    requires |data| <= capacity
    ensures Accepted(data, capacity) == data
  {
  }

  lemma SentSoFar(before: seq<byte>, done: seq<byte>, part: seq<byte>)
    ensures (before + done) + part == before + (done + part)
  {
  }

  lemma WriteFails(k: nat, done: seq<byte>, frame: seq<byte>, frames: seq<byte>, capacity: nat, canceled: bool)
    requires |done| == k * (MAX_PACKET + 4) <= capacity && frame <= frames && |frame| <= MAX_PACKET + 4
    requires capacity - |done| < |frame|
    ensures Accepted(done + frames, capacity) == done + frame[..capacity - |done|]
    ensures WriteOutcome(|done + frames|, capacity, canceled)
         == if canceled then WriteCanceled else if capacity == |done| then NoWrite else WriteInvalid
  {
  }

  /** The error tells the truth for every connection exactly for payloads that need one frame. */
  lemma NoWriteIsTrue(payload: seq<byte>, sequence: byte)
    ensures (forall cap: nat :: WriteOutcome(|Frames(payload, sequence)|, cap, false) == NoWrite ==>
              Accepted(Frames(payload, sequence), cap) == [])
            <==> |payload| < MAX_PACKET
  {
    var fs := Frames(payload, sequence);
    FramesLength(payload, sequence);
    if |payload| >= MAX_PACKET {
      var cap: nat := MAX_PACKET + 4;
      assert WriteOutcome(|fs|, cap, false) == NoWrite && |Accepted(fs, cap)| == cap;
    }
  }
}