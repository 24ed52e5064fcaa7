/** The variable byte integer of MQTT (section 2.2.3 of MQTT 3.1.1) and the other number formats of its packets. */
module Varint {
  import opened Options
  import opened Bytes

  type u16 = x: int | 0 <= x < 0x1_0000
  type u32 = x: int | 0 <= x < 0x1_0000_0000

  function More(x: nat): byte { x % 0x80 + 0x80 }

  /** Seven bits to a byte, least significant first; the top bit says that more follow. */
  function EncodeVar(x: nat): (r: seq<byte>) {
    if x < 0x80 then [x] else [More(x)] + EncodeVar(x / 0x80)
  }

  /** The number that the seven low bits of the bytes make, least significant first. */
  function VarValue(s: seq<byte>): nat {
    if s == [] then 0 else s[0] % 0x80 + 0x80 * VarValue(s[1..])
  }

  /** On the wire: seven bits to a byte, the top bit set on all but the last. */
  lemma {:induction false} VarOnWire(x: nat)
    ensures var s := EncodeVar(x);
            s != [] && VarValue(s) == x && forall k :: 0 <= k < |s| ==> (s[k] >= 0x80 <==> k < |s| - 1)
  {
    if x < 0x80 {
      assert EncodeVar(x)[1..] == [];
    } else {
      VarOnWire(x / 0x80);
      var rest := EncodeVar(x / 0x80);
      assert EncodeVar(x)[1..] == rest;
      forall k | 0 < k < |EncodeVar(x)| ensures EncodeVar(x)[k] == rest[k - 1] {}
    }
  }

  function VarLen(x: nat): nat {
    if x < 0x80 then 1 else 1 + VarLen(x / 0x80)
  }

  datatype VarResult = Value(x: u32, n: nat) | TooShort | Overflow(n: nat)

  /** What byte `i` contributes to a 32-bit value; a shift by 32 or more leaves nothing. */
  function Scale(i: nat): nat {
    if i == 0 then 1 else if i == 1 then 0x80 else if i == 2 then 0x4000 else if i == 3 then 0x20_0000 else if i == 4
        then 0x1000_0000 else 0
  }

  /** `x | d << 7i` on 32 bits: the bytes before have left these bits clear. */
  function Put(x: u32, d: nat, i: nat): u32 {
    (x + d * Scale(i)) % 0x1_0000_0000
  }

  function DecodeVar(s: seq<byte>, i: nat, x: u32): (r: VarResult)
    ensures r.Value? ==> i < r.n <= |s|
    decreases |s| - i
  {
    if i >= |s| then TooShort
    else if s[i] < 0x80 then
      if i > 4 || (i == 4 && s[i] > 1) then Overflow(i + 1) else Value(Put(x, s[i], i), i + 1)
    else DecodeVar(s, i + 1, Put(x, s[i] % 0x80, i))
  }

  lemma {:induction false} EncodeLength(x: nat)
    ensures |EncodeVar(x)| == VarLen(x)
  {
    if x >= 0x80 {
      EncodeLength(x / 0x80);
    }
  }

  /** The first value that does not fit when `i` bytes have gone before. */
  function Limit(i: nat): nat {
    if i == 0 then 0x2000_0000 else if i == 1 then 0x40_0000 else if i == 2 then 0x8000 else if i == 3 then 0x100 else 2
  }

  /** The bytes read so far have filled only the bits below the next ones. */
  predicate Partial(i: nat, x: nat) {
    i <= 4 && x < Scale(i)
  }

  lemma Bounded(i: nat, x: u32, d: nat)
    requires i <= 4 && Partial(i, x) && d < 0x80
    ensures i < 4 ==>
              Put(x, d, i) == x + d * Scale(i) && Partial(i + 1, Put(x, d, i)) && Scale(i + 1) == 0x80 * Scale(i)
    ensures i == 4 && d < 2 ==> Put(x, d, i) == x + d * Scale(i)
  {
    if i == 0 {
      assert Put(x, d, i) == x + d;
    } else if i == 1 {
      assert Put(x, d, i) == x + d * 0x80;
    } else if i == 2 {
      assert Put(x, d, i) == x + d * 0x4000;
    } else if i == 3 {
      assert Put(x, d, i) == x + d * 0x20_0000;
    }
  }

  lemma SplitProduct(y: nat, s: nat)
    ensures y * s == y % 0x80 * s + y / 0x80 * (0x80 * s)
  {
  }

  /** One byte of the number. */
  lemma DecodeStep(s: seq<byte>, i: nat, x: u32, y: nat, tail: seq<byte>)
    requires i <= 4 && i <= |s| && s[i..] == EncodeVar(y) + tail
    ensures y < 0x80 ==> VarLen(y) == 1 && DecodeVar(s, i, x) == if i == 4 && y > 1 then Overflow(i + 1)
              else Value(Put(x, y, i), i + 1)
    ensures y >= 0x80 ==> i < |s| && s[i + 1..] == EncodeVar(y / 0x80) + tail && VarLen(y) == 1 + VarLen(y / 0x80)
                          && DecodeVar(s, i, x) == DecodeVar(s, i + 1, Put(x, y % 0x80, i))
  {
    hide Put;
    assert s[i] == s[i..][0] == EncodeVar(y)[0];
    if y >= 0x80 {
      assert s[i + 1..] == s[i..][1..] == EncodeVar(y / 0x80) + tail;
    }
  }

  lemma {:induction false} DecodeFrom(s: seq<byte>, i: nat, x: u32, y: nat, tail: seq<byte>)
    requires i <= 4 && i <= |s| && Partial(i, x) && s[i..] == EncodeVar(y) + tail
    requires y < 8 * Limit(i)
    ensures y < Limit(i) ==>
              x + y * Scale(i) < 0x1_0000_0000 && DecodeVar(s, i, x) == Value(x + y * Scale(i), i + VarLen(y))
    ensures y >= Limit(i) ==> DecodeVar(s, i, x).Overflow?
    decreases 4 - i
  {
    hide Scale, Limit, Put, EncodeVar, DecodeVar, VarLen;
    DecodeStep(s, i, x, y, tail);
    LimitFacts(i, y);
    if y < 0x80 {
      Bounded(i, x, y);
    } else {
      Bounded(i, x, y % 0x80);
      DecodeFrom(s, i + 1, Put(x, y % 0x80, i), y / 0x80, tail);
      SplitProduct(y, Scale(i));
    }
  }

  lemma LimitFacts(i: nat, y: nat)
    requires i <= 4 && y < 8 * Limit(i)
    ensures y < 0x80 ==> (y < Limit(i) <==> i < 4 || y < 2)
    ensures y >= 0x80 ==> i < 4 && y / 0x80 < 8 * Limit(i + 1) && (y < Limit(i) <==> y / 0x80 < Limit(i + 1))
  {
  }

  /** Decoding undoes encoding exactly for the values below 2^29: the reader refuses a fifth byte above 1. */
  lemma VarRoundTrip(x: u32, tail: seq<byte>)
    ensures DecodeVar(EncodeVar(x) + tail, 0, 0) == Value(x, VarLen(x)) <==> x < 0x2000_0000
    ensures x >= 0x2000_0000 ==> DecodeVar(EncodeVar(x) + tail, 0, 0).Overflow?
  {
    var s := EncodeVar(x) + tail;
    assert s[0..] == s;
    DecodeFrom(s, 0, 0, x, tail);
  }

  // ---------------------------------------------------------------- the loops of header.go

  method Uvarint(buf: seq<byte>) returns (x: u32, n: int)
    ensures match DecodeVar(buf, 0, 0)
            case Value(v, c) => x == v && n == c && n > 0
            case TooShort => x == 0 && n == 0
            case Overflow(c) => x == 0 && n == -(c as int) && n < 0
  {
    hide Put;
    x := 0;
    var i := 0;
    while i < |buf|
      invariant 0 <= i <= |buf|
      invariant DecodeVar(buf, 0, 0) == DecodeVar(buf, i, x)
    {
      var b := buf[i];
      if b < 0x80 {
        if i > 4 || (i == 4 && b > 1) {
          return 0, -(i + 1);
        }
        return Put(x, b, i), i + 1;
      }
      x := Put(x, b % 0x80, i);
      i := i + 1;
    }
    return 0, 0;
  }

  method UvarintCalc(x: u32) returns (n: nat)
    ensures n == VarLen(x) == |EncodeVar(x)|
  {
    EncodeLength(x);
    var i, y := 0, x;
    while y >= 0x80
      invariant VarLen(x) == i + VarLen(y)
    {
      y := y / 0x80;
      i := i + 1;
    }
    n := i + 1;
  }

  method PutUvarint(to: array<byte>, off: nat, x: nat) returns (n: nat)
    requires off + VarLen(x) <= to.Length
    modifies to
    ensures n == VarLen(x) && to[off..off + n] == EncodeVar(x)
    ensures forall k :: 0 <= k < to.Length && !(off <= k < off + n) ==> to[k] == old(to[k])
  {
    hide More, EncodeVar, VarLen;
    EncodeLength(x);
    var y := x;
    n := 0;
    assert EncodeVar(x) == [] + EncodeVar(y);
    while y >= 0x80
      invariant off + n + VarLen(y) == off + VarLen(x) <= to.Length
      invariant EncodeVar(x) == to[off..off + n] + EncodeVar(y)
      invariant forall k :: 0 <= k < to.Length && !(off <= k < off + n) ==> to[k] == old(to[k])
    {
      ghost var was := to[..];
      EncodeVarStep(y);
      Assoc(was[off..off + n], [More(y)], EncodeVar(y / 0x80));
      to[off + n] := More(y);
      Appended(was, to[..], off, n, 1);
      y := y / 0x80;
      n := n + 1;
    }
    ghost var was := to[..];
    EncodeVarStep(y);
    to[off + n] := y;
    Appended(was, to[..], off, n, 1);
    n := n + 1;
  }

  lemma EncodeVarStep(y: nat)
    ensures VarLen(y) >= 1
    ensures y < 0x80 ==> EncodeVar(y) == [y] && VarLen(y) == 1
    ensures y >= 0x80 ==>
              EncodeVar(y) == [More(y)] + EncodeVar(y / 0x80) && VarLen(y) == 1 + VarLen(y / 0x80) &&
              y / 0x80 < y && VarLen(y / 0x80) >= 1
  {
  }

  /** Writing behind what has been written. */
  lemma Appended(before: seq<byte>, after: seq<byte>, off: nat, n: nat, m: nat)
    requires |before| == |after| && off + n + m <= |before|
    requires forall k :: 0 <= k < off + n ==> after[k] == before[k]
    ensures after[off..off + n + m] == before[off..off + n] + after[off + n..off + n + m]
  {
  }

  lemma Assoc<T>(a: seq<T>, b: seq<T>, c: seq<T>)
    ensures a + (b + c) == a + b + c
  {
  }

  // ---------------------------------------------------------------- fixed width and length prefix

  function Be16(x: u16): (r: seq<byte>)
    ensures |r| == 2 && 0x100 * (r[0] as int) + r[1] == x
  { [x / 0x100, x % 0x100] }

  function Be32(x: u32): (r: seq<byte>)
    ensures |r| == 4 && 0x100_0000 * (r[0] as int) + 0x1_0000 * (r[1] as int) + 0x100 * (r[2] as int) + r[3] == x
  {
    var high, low := Be16(x / 0x1_0000), Be16(x % 0x1_0000);
    [high[0], high[1], low[0], low[1]]
  }

  function FromBe16(s: seq<byte>): u16
    requires |s| >= 2
  {
    0x100 * (s[0] as int) + s[1]
  }

  function FromBe32(s: seq<byte>): u32
    requires |s| >= 4
  {
    0x100_0000 * (s[0] as int) + 0x1_0000 * (s[1] as int) + 0x100 * (s[2] as int) + s[3]
  }

  lemma Be16RoundTrip(x: u16, tail: seq<byte>)
    ensures FromBe16(Be16(x) + tail) == x
  {
  }

  lemma Be32RoundTrip(x: u32, tail: seq<byte>)
    ensures FromBe32(Be32(x) + tail) == x
  {
    var s := Be32(x) + tail;
    assert s[..4] == Be32(x);
    assert x / 0x1_0000 == 0x100 * (x / 0x100_0000) + x / 0x1_0000 % 0x100;
    assert x / 0x100 == 0x100 * (x / 0x1_0000) + x / 0x100 % 0x100;
  }

  const MAX_STRING: nat := 65535

  /** A string behind its length; one that is too long is not written at all. */
  function Prefixed(s: seq<byte>): seq<byte> {
    if |s| <= MAX_STRING then Be16(|s|) + s else []
  }

  lemma PrefixedParts(s: seq<byte>)
    requires |s| <= MAX_STRING
    ensures var p := Prefixed(s); |p| == 2 + |s| && 0x100 * (p[0] as int) + p[1] == |s| && p[2..] == s
  {
  }

  /** The string at the start of the bytes. */
  function Unprefixed(from: seq<byte>): Option<seq<byte>> {
    if |from| < 2 || |from| - 2 < FromBe16(from) then None else Some(from[2..2 + FromBe16(from)])
  }

  lemma PrefixRoundTrip(s: seq<byte>, tail: seq<byte>)
    requires |s| <= MAX_STRING
    ensures Unprefixed(Prefixed(s) + tail) == Some(s)
  {
  }

  method ReadLPBytes(buf: seq<byte>) returns (b: Option<seq<byte>>, n: nat)
    ensures b == Unprefixed(buf)
    ensures b.Some? ==> n == 2 + |b.value| && n <= |buf|
    ensures b.Some? <==> |buf| >= 2 && |buf| - 2 >= 0x100 * (buf[0] as int) + buf[1]
    ensures b.Some? ==> |b.value| == 0x100 * (buf[0] as int) + buf[1] && b.value == buf[2..n]
  {
    if |buf| < 2 {
      return None, 0;
    }
    var len := FromBe16(buf);
    if |buf[2..]| < len {
      return None, 2;
    }
    return Some(buf[2..2 + len]), 2 + (len as int);
  }

  method PutBytes(to: array<byte>, off: nat, b: seq<byte>) returns (n: nat)
    requires off + |b| <= to.Length
    modifies to
    ensures n == |b| && to[off..off + n] == b
    ensures forall k :: 0 <= k < to.Length && !(off <= k < off + n) ==> to[k] == old(to[k])
  {
    forall k | 0 <= k < |b| { to[off + k] := b[k]; }
    n := |b|;
  }

  datatype WriteError = Fine | InvalidSize | InsufficientBuffer

  method WriteLPBytes(to: array<byte>, off: nat, b: seq<byte>) returns (n: nat, err: WriteError)
    requires off <= to.Length
    modifies to
    ensures err == if |b| > MAX_STRING then InvalidSize else if to.Length - off < 2 + |b|
              then InsufficientBuffer else Fine
    ensures n == if err == InvalidSize then 0 else 2 + |b|
    ensures err == Fine ==> to[off..off + n] == Prefixed(b)
    ensures err == Fine ==> 0x100 * (to[off] as int) + to[off + 1] == |b| && to[off + 2..off + n] == b
    ensures forall k :: 0 <= k < to.Length && !(err == Fine && off <= k < off + n) ==> to[k] == old(to[k])
  {
    if |b| > MAX_STRING {
      return 0, InvalidSize;
    }
    if to.Length - off < 2 + |b| {
      return 2 + |b|, InsufficientBuffer;
    }
    to[off], to[off + 1] := |b| / 0x100, |b| % 0x100;
    forall k | 0 <= k < |b| {
      to[off + 2 + k] := b[k];
    }
    assert to[off + 2..off + 2 + |b|] == b;
    assert to[off..off + 2] == Be16(|b|);
    assert to[off..off + 2 + |b|] == to[off..off + 2] + to[off + 2..off + 2 + |b|];
    return 2 + |b|, Fine;
  }
}
