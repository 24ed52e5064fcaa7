/** Well-formed UTF-8 (RFC 3629): the byte by byte test accepts exactly the encodings of character sequences. */
module Unicode {
  import opened Bytes

  predicate Tail(b: byte) { 0x80 <= b < 0xC0 }

  /** Well-formed UTF-8 (section 3 of RFC 3629). */
  predicate Utf8(s: seq<byte>) {
    if s == [] then true
    else if s[0] < 0x80 then Utf8(s[1..])
    else if |s| < 2 || s[0] < 0xC2 then false
    else if s[0] < 0xE0 then Tail(s[1]) && Utf8(s[2..])
    else if |s| < 3 then false
    else if s[0] < 0xF0 then
      Tail(s[1]) && (s[0] == 0xE0 ==> s[1] >= 0xA0) && (s[0] == 0xED ==> s[1] < 0xA0) && Tail(s[2]) && Utf8(s[3..])
    else
      |s| >= 4 && s[0] < 0xF5 && Tail(s[1]) && (s[0] == 0xF0 ==> s[1] >= 0x90) && (s[0] == 0xF4 ==> s[1] < 0x90)
      && Tail(s[2]) && Tail(s[3]) && Utf8(s[4..])
  }

  // ---------------------------------------------------------------- what it means

  /** A character number: up to 10FFFF, without the surrogates. */
  predicate Scalar(c: nat) {
    c < 0xD800 || 0xE000 <= c < 0x11_0000
  }

  /** The table of section 3 of RFC 3629. */
  function EncodePoint(c: nat): seq<byte>
    requires Scalar(c)
  {
    if c < 0x80 then [c]
    else if c < 0x800 then [0xC0 + c / 0x40, 0x80 + c % 0x40]
    else if c < 0x1_0000 then [0xE0 + c / 0x1000, 0x80 + c / 0x40 % 0x40, 0x80 + c % 0x40]
    else [0xF0 + c / 0x4_0000, 0x80 + c / 0x1000 % 0x40, 0x80 + c / 0x40 % 0x40, 0x80 + c % 0x40]
  }

  function EncodePoints(cs: seq<nat>): seq<byte>
    requires forall k :: 0 <= k < |cs| ==> Scalar(cs[k])
  {
    if cs == [] then [] else EncodePoint(cs[0]) + EncodePoints(cs[1..])
  }

  lemma Two(a: nat, x: nat) returns (c: nat)
    requires 2 <= a < 0x20 && x < 0x40
    ensures Scalar(c) && EncodePoint(c) == [0xC0 + a, 0x80 + x]
  {
    c := 0x40 * a + x;
    assert c / 0x40 == a && c % 0x40 == x;
  }

  lemma Three(a: nat, x: nat, y: nat) returns (c: nat)
    requires a < 0x10 && x < 0x40 && y < 0x40 && (a == 0 ==> x >= 0x20) && (a == 0xD ==> x < 0x20)
    ensures Scalar(c) && EncodePoint(c) == [0xE0 + a, 0x80 + x, 0x80 + y]
  {
    c := 0x1000 * a + 0x40 * x + y;
    var d := 0x40 * a + x;
    assert c == 0x40 * d + y;
    assert c / 0x40 == d && c % 0x40 == y;
    assert d % 0x40 == x;
    assert c / 0x1000 == a;
  }

  lemma Four(a: nat, x: nat, y: nat, z: nat) returns (c: nat)
    requires a < 5 && x < 0x40 && y < 0x40 && z < 0x40 && (a == 0 ==> x >= 0x10) && (a == 4 ==> x < 0x10)
    ensures Scalar(c) && EncodePoint(c) == [0xF0 + a, 0x80 + x, 0x80 + y, 0x80 + z]
  {
    c := 0x4_0000 * a + 0x1000 * x + 0x40 * y + z;
    var e := 0x40 * a + x;
    var d := 0x40 * e + y;
    assert c == 0x40 * d + z;
    assert c / 0x40 == d && c % 0x40 == z;
    assert c / 0x1000 == e && d % 0x40 == y;
    assert e % 0x40 == x && c / 0x4_0000 == a;
  }

  lemma FirstPoint(s: seq<byte>) returns (c: nat, n: nat)
    requires s != [] && Utf8(s)
    ensures Scalar(c) && 0 < n <= |s| && s[..n] == EncodePoint(c) && Utf8(s[n..])
  {
    if s[0] < 0x80 {
      c, n := s[0], 1;
      assert s[..1] == [s[0]];
    } else if s[0] < 0xE0 {
      n := 2;
      c := Two(s[0] - 0xC0, s[1] - 0x80);
    } else if s[0] < 0xF0 {
      n := 3;
      c := Three(s[0] - 0xE0, s[1] - 0x80, s[2] - 0x80);
    } else {
      n := 4;
      c := Four(s[0] - 0xF0, s[1] - 0x80, s[2] - 0x80, s[3] - 0x80);
    }
  }

  lemma PointFirst(c: nat, rest: seq<byte>)
    requires Scalar(c) && Utf8(rest)
    ensures Utf8(EncodePoint(c) + rest)
  {
    var e := EncodePoint(c);
    assert (e + rest)[|e|..] == rest;
  }

  lemma {:induction false} Decodable(s: seq<byte>) returns (cs: seq<nat>)
    requires Utf8(s)
    ensures (forall k :: 0 <= k < |cs| ==> Scalar(cs[k])) && EncodePoints(cs) == s
    decreases |s|
  {
    if s == [] {
      cs := [];
    } else {
      var c, n := FirstPoint(s);
      var rest := Decodable(s[n..]);
      cs := [c] + rest;
      assert cs[1..] == rest && s == s[..n] + s[n..];
    }
  }

  lemma {:induction false} Encoded(cs: seq<nat>)
    requires forall k :: 0 <= k < |cs| ==> Scalar(cs[k])
    ensures Utf8(EncodePoints(cs))
  {
    if cs != [] {
      Encoded(cs[1..]);
      PointFirst(cs[0], EncodePoints(cs[1..]));
    }
  }

  /** Accepted exactly when it is the encoding of some characters. */
  lemma Utf8Exact(s: seq<byte>)
    ensures Utf8(s) <==> exists cs: seq<nat> :: (forall k :: 0 <= k < |cs| ==> Scalar(cs[k])) && EncodePoints(cs) == s
  {
    if Utf8(s) {
      var cs := Decodable(s);
    }
    forall cs: seq<nat> | (forall k :: 0 <= k < |cs| ==> Scalar(cs[k])) && EncodePoints(cs) == s ensures Utf8(s) {
      Encoded(cs);
    }
  }
}
