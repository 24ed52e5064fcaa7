/** The properties of a PUBLISH packet (`property.go`; section 2.2.2 of MQTT 5.0). */
module Properties {
  import opened Options
  import opened Bytes
  import opened Varint
  import opened Unicode
  import opened Sequences

  datatype Item =
    | Byte(b: byte)
    | Short(h: u16)
    | Int(n: u32)
    | VarInt(v: u32)
    | Str(s: seq<byte>)
    | Pair(key: seq<byte>, value: seq<byte>)
    | Bin(s: seq<byte>)

  /** What a property is set to: one value or a list of them. */
  datatype Value = One(item: Item) | Many(items: seq<Item>)

  type Id = nat

  const PAYLOAD_FORMAT: Id := 0x01
  const PUBLICATION_EXPIRY: Id := 0x02
  const CONTENT_TYPE: Id := 0x03
  const RESPONSE_TOPIC: Id := 0x08
  const CORRELATION_DATA: Id := 0x09
  const SUBSCRIPTION_IDENTIFIER: Id := 0x0B
  const TOPIC_ALIAS: Id := 0x23
  const USER_PROPERTY: Id := 0x26

  /** The properties of other packets. */
  predicate Elsewhere(id: Id) {
    id in {0x11, 0x12, 0x13, 0x15, 0x16, 0x17, 0x18, 0x19, 0x1A, 0x1C, 0x1F, 0x21, 0x22, 0x24, 0x25, 0x27,
        0x28, 0x29, 0x2A}
  }

  predicate OnPublish(id: Id) {
    id in {PAYLOAD_FORMAT, PUBLICATION_EXPIRY, CONTENT_TYPE, RESPONSE_TOPIC, CORRELATION_DATA, SUBSCRIPTION_IDENTIFIER,
        TOPIC_ALIAS, USER_PROPERTY}
  }

  predicate DupAllowed(id: Id) {
    id == SUBSCRIPTION_IDENTIFIER || id == USER_PROPERTY
  }

  /** The type that belongs to an identifier. */
  predicate Typed(id: Id, item: Item) {
    || (id == PAYLOAD_FORMAT && item.Byte?)
    || (id == PUBLICATION_EXPIRY && item.Int?)
    || ((id == CONTENT_TYPE || id == RESPONSE_TOPIC) && item.Str?)
    || (id == CORRELATION_DATA && item.Bin?)
    || (id == SUBSCRIPTION_IDENTIFIER && item.VarInt?)
    || (id == TOPIC_ALIAS && item.Short?)
    || (id == USER_PROPERTY && item.Pair?)
  }

  function Items(v: Value): seq<Item> { if v.One? then [v.item] else v.items }

  predicate WellTyped(id: Id, v: Value) {
    OnPublish(id) && forall k :: 0 <= k < |Items(v)| ==> Typed(id, Items(v)[k])
  }

  type Map = map<Id, Value>

  predicate AllTyped(m: Map) { forall id :: id in m ==> WellTyped(id, m[id]) }

  // ---------------------------------------------------------------- encoding

  function Payload(item: Item): seq<byte> {
    match item
    case Byte(b) => [b]
    case Short(h) => Be16(h)
    case Int(n) => Be32(n)
    case VarInt(v) => EncodeVar(v)
    case Str(s) => Prefixed(s)
    case Pair(k, v) => Prefixed(k) + Prefixed(v)
    case Bin(s) => Prefixed(s)
  }

  function EncodeItem(id: Id, item: Item): seq<byte> { EncodeVar(id) + Payload(item) }

  function EncodeItems(id: Id, items: seq<Item>): seq<byte> { Flatten((i: Item) => EncodeItem(id, i), items) }

  /** On the wire (section 2.2.2.2 of MQTT 5.0): the number of the property, then its value. */
  lemma NumbersOnWire(b: byte, h: u16, n: u32, v: u32)
    ensures EncodeItem(PAYLOAD_FORMAT, Byte(b)) == [1, b]
    ensures EncodeItem(PUBLICATION_EXPIRY, Int(n)) == [2] + Be32(n)
    ensures EncodeItem(SUBSCRIPTION_IDENTIFIER, VarInt(v)) == [11] + EncodeVar(v)
    ensures EncodeItem(TOPIC_ALIAS, Short(h)) == [35, h / 0x100, h % 0x100]
  {
    OneByte();
    hide EncodeVar, Be32;
    TwoBytes(h);
  }

  lemma StringsOnWire(s: seq<byte>, t: seq<byte>)
    requires |s| <= MAX_STRING && |t| <= MAX_STRING
    ensures var length, other := [|s| / 0x100, |s| % 0x100], [|t| / 0x100, |t| % 0x100];
            && EncodeItem(CONTENT_TYPE, Str(s)) == [3] + (length + s)
            && EncodeItem(RESPONSE_TOPIC, Str(s)) == [8] + (length + s)
            && EncodeItem(CORRELATION_DATA, Bin(s)) == [9] + (length + s)
            && EncodeItem(USER_PROPERTY, Pair(s, t)) == [38] + (length + s + (other + t))
  {
    OneByte();
    LengthFirst(s);
    LengthFirst(t);
    hide EncodeVar, Prefixed;
  }

  lemma LengthFirst(s: seq<byte>)
    requires |s| <= MAX_STRING
    ensures Prefixed(s) == [|s| / 0x100, |s| % 0x100] + s
  {
  }

  lemma OneByte()
    ensures forall id: nat :: id < 0x80 ==> EncodeVar(id) == [id]
  {
  }

  lemma TwoBytes(x: u16)
    ensures Be16(x) == [x / 0x100, x % 0x100]
  {
  }

  predicate Within(m: Map, order: seq<Id>) {
    forall k :: 0 <= k < |order| ==> order[k] in m
  }

  /** The properties in the order in which the map happens to be visited. */
  function EncodeAll(m: Map, order: seq<Id>): seq<byte>
    requires Within(m, order)
  {
    if order == [] then [] else EncodeItems(order[0], Items(m[order[0]])) + EncodeAll(m, order[1..])
  }

  /** The length that is added when a property is set.  A list of binary values counts for nothing, and neither does a
      value whose type does not belong to its identifier. */
  function CalcItem(id: Id, item: Item): nat {
    VarLen(id) + match item
                 case Byte(_) => 1
                 case Short(_) => 2
                 case Int(_) => 4
                 case VarInt(v) => VarLen(v)
                 case Str(s) => 2 + |s|
                 case Pair(k, v) => 4 + |k| + |v|
                 case Bin(s) => 2 + |s|
  }

  function CalcItems(id: Id, items: seq<Item>): nat {
    if items == [] then 0 else CalcItem(id, items[0]) + CalcItems(id, items[1..])
  }

  function CalcLen(id: Id, v: Value): nat {
    if !WellTyped(id, v) || (v.Many? && id == CORRELATION_DATA) then 0 else CalcItems(id, Items(v))
  }

  predicate ShortStrings(item: Item) {
    match item
    case Str(s) => |s| <= MAX_STRING
    case Bin(s) => |s| <= MAX_STRING
    case Pair(k, v) => |k| <= MAX_STRING && |v| <= MAX_STRING
    case _ => true
  }

  lemma CalcItemLength(id: Id, item: Item)
    ensures |EncodeItem(id, item)| <= CalcItem(id, item)
    ensures |EncodeItem(id, item)| == CalcItem(id, item) <==> ShortStrings(item)
  {
    EncodeLength(id);
    if item.VarInt? {
      EncodeLength(item.v);
    }
  }

  lemma {:induction false} CalcItemsLength(id: Id, items: seq<Item>)
    ensures |EncodeItems(id, items)| <= CalcItems(id, items)
    ensures |EncodeItems(id, items)| == CalcItems(id, items) <==> forall k :: 0 <= k < |items| ==>
              ShortStrings(items[k])
  {
    if items != [] {
      CalcItemLength(id, items[0]);
      CalcItemsLength(id, items[1..]);
      assert EncodeItems(id, items) == EncodeItem(id, items[0]) + EncodeItems(id, items[1..]);
    }
  }

  /** The length announced for a value is the length written exactly when no string is over the limit and the
      value is not a list of binary values. */
  lemma CalcLenExact(id: Id, v: Value)
    requires WellTyped(id, v)
    ensures CalcLen(id, v) == |EncodeItems(id, Items(v))|
            <==> if v.Many? && id == CORRELATION_DATA then v.items == []
                 else forall k :: 0 <= k < |Items(v)| ==> ShortStrings(Items(v)[k])
  {
    CalcItemsLength(id, Items(v));
    if v.Many? && id == CORRELATION_DATA && v.items != [] {
      EncodeLength(id);
      assert |EncodeItem(id, v.items[0])| >= 1;
      assert EncodeItems(id, v.items) == EncodeItem(id, v.items[0]) + EncodeItems(id, v.items[1..]);
    }
  }

  // ---------------------------------------------------------------- decoding

  /** One value of the type that belongs to the identifier, and how many bytes it takes. */
  function DecodeItem(id: Id, from: seq<byte>): (r: Option<(Item, nat)>)
    requires OnPublish(id)
    ensures r.Some? ==> r.value.1 <= |from| && Typed(id, r.value.0)
  {
    if id == PAYLOAD_FORMAT then if |from| < 1 then None else Some((Byte(from[0]), 1))
    else if id == TOPIC_ALIAS then if |from| < 2 then None else Some((Short(FromBe16(from)), 2))
    else if id == PUBLICATION_EXPIRY then if |from| < 4 then None else Some((Int(FromBe32(from)), 4))
    else if id == SUBSCRIPTION_IDENTIFIER then
      (match DecodeVar(from, 0, 0)
       case Value(v, n) => Some((VarInt(v), n))
       case _ => None)
    else if id == CONTENT_TYPE || id == RESPONSE_TOPIC then
      (match Unprefixed(from)
       case Some(s) => if Utf8(s) then Some((Str(s), 2 + |s|)) else None
       case None => None)
    else if id == CORRELATION_DATA then
      (match Unprefixed(from)
       case Some(s) => Some((Bin(s), 2 + |s|))
       case None => None)
    else
      match Unprefixed(from)
      case None => None
      case Some(k) =>
        match Unprefixed(from[2 + |k|..])
        case None => None
        case Some(v) => if Utf8(k) && Utf8(v) then Some((Pair(k, v), 4 + |k| + |v|)) else None
  }

  /** Every value replaces the one before it, but user properties make a list. */
  function Store(m: Map, id: Id, item: Item): Map {
    m[id := if id == USER_PROPERTY then Many((if id in m then Items(m[id]) else []) + [item]) else One(item)]
  }

  datatype Error = MalformedPacket | ProtocolError

  datatype Decoded = Ok(m: Map, len: nat, n: nat) | Err(error: Error)

  /** The loop over the properties; `left` counts down as a 32-bit number. */
  function DecodeAll(from: seq<byte>, offset: nat, left: u32, m: Map, len: nat): (r: Decoded)
    requires offset <= |from|
    ensures r.Ok? ==> offset <= r.n <= |from|
    decreases |from| - offset
  {
    if left == 0 then Ok(m, len, offset)
    else match DecodeVar(from[offset..], 0, 0)
    case Value(id, c) =>
      if !OnPublish(id) then Err(MalformedPacket)
      else if id in m && !DupAllowed(id) then Err(ProtocolError)
      else (match DecodeItem(id, from[offset + c..])
            case None => Err(MalformedPacket)
            case Some((item, n)) =>
              DecodeAll(from, offset + c + n, (left - (c + n)) % 0x1_0000_0000, Store(m, id, item), len + c + n))
    case _ => Err(MalformedPacket)
  }

  /** A property that has been read already is refused, unless it is a subscription identifier or a user property. */
  lemma SecondRefused(from: seq<byte>, offset: nat, left: u32, m: Map, len: nat, id: u32, c: nat)
    requires offset <= |from| && left > 0 && DecodeVar(from[offset..], 0, 0) == Value(id, c)
    requires id in {1, 2, 3, 8, 9, 35} && id in m
    ensures DecodeAll(from, offset, left, m, len) == Err(ProtocolError)
  {
  }

  /** The properties of other packets, and what is no property, are refused. */
  lemma OthersRefused(from: seq<byte>, offset: nat, left: u32, m: Map, len: nat, id: u32, c: nat)
    requires offset <= |from| && left > 0 && DecodeVar(from[offset..], 0, 0) == Value(id, c)
    requires id !in {1, 2, 3, 8, 9, 11, 35, 38}
    ensures DecodeAll(from, offset, left, m, len) == Err(MalformedPacket)
  {
  }

  // ---------------------------------------------------------------- round trip

  /** Values that decoding gives back as they are. */
  predicate Canonical(id: Id, item: Item) {
    && Typed(id, item) && ShortStrings(item)
    && match item
       case VarInt(v) => v < 0x2000_0000
       case Str(s) => Utf8(s)
       case Pair(k, v) => Utf8(k) && Utf8(v)
       case _ => true
  }

  lemma PairRoundTrip(k: seq<byte>, v: seq<byte>, tail: seq<byte>)
    requires Canonical(USER_PROPERTY, Pair(k, v))
    ensures DecodeItem(USER_PROPERTY, Payload(Pair(k, v)) + tail) == Some((Pair(k, v), |Payload(Pair(k, v))|))
  {
    hide Prefixed, Unprefixed, Utf8;
    PrefixRoundTrip(k, Prefixed(v) + tail);
    PrefixRoundTrip(v, tail);
    PrefixLength(k);
    PrefixLength(v);
    assert Payload(Pair(k, v)) + tail == Prefixed(k) + (Prefixed(v) + tail);
    assert (Prefixed(k) + (Prefixed(v) + tail))[2 + |k|..] == Prefixed(v) + tail;
  }

  lemma PrefixLength(s: seq<byte>)
    requires |s| <= MAX_STRING
    ensures |Prefixed(s)| == 2 + |s|
  {
  }

  lemma ItemRoundTrip(id: Id, item: Item, tail: seq<byte>)
    requires Canonical(id, item)
    ensures DecodeItem(id, Payload(item) + tail) == Some((item, |Payload(item)|))
  {
    hide Prefixed, Unprefixed, Utf8, EncodeVar, DecodeVar, VarLen, FromBe16, FromBe32, Be16, Be32;
    match item
    case Byte(_) =>
    case Short(h) => Be16RoundTrip(h, tail);
    case Int(n) => Be32RoundTrip(n, tail);
    case VarInt(v) =>
      VarRoundTrip(v, tail);
      EncodeLength(v);
    case Str(s) =>
      PrefixRoundTrip(s, tail);
      PrefixLength(s);
    case Bin(s) =>
      PrefixRoundTrip(s, tail);
      PrefixLength(s);
    case Pair(k, v) => PairRoundTrip(k, v, tail);
  }

  function StoreItems(m: Map, id: Id, items: seq<Item>): Map
    decreases |items|
  {
    if items == [] then m else StoreItems(Store(m, id, items[0]), id, items[1..])
  }

  lemma DecodeOne(from: seq<byte>, offset: nat, left: u32, m: Map, len: nat, id: u32, c: nat, item: Item, n: nat)
    requires offset <= |from| && DecodeVar(from[offset..], 0, 0) == Value(id, c)
    requires OnPublish(id) && (id in m ==> DupAllowed(id)) && DecodeItem(id, from[offset + c..]) == Some((item, n))
    requires c + n <= left && left > 0
    ensures DecodeAll(from, offset, left, m, len)
              == DecodeAll(from, offset + c + n, left - (c + n), Store(m, id, item), len + c + n)
  {
    hide DecodeItem, DecodeVar, Store, OnPublish;
  }

  lemma OneRoundTrip(from: seq<byte>, offset: nat, id: Id, item: Item, rest: seq<byte>, left: u32, m: Map, len: nat)
    requires OnPublish(id) && Canonical(id, item) && (id in m ==> DupAllowed(id))
    requires offset <= |from| && from[offset..] == EncodeItem(id, item) + rest
    requires |EncodeItem(id, item)| <= left
    ensures var n := |EncodeItem(id, item)|;
            n > 0 && offset + n <= |from| && from[offset + n..] == rest
            && DecodeAll(from, offset, left, m, len)
                == DecodeAll(from, offset + n, left - n, Store(m, id, item), len + n)
  {
    hide DecodeAll, DecodeItem, Payload, EncodeVar, DecodeVar, VarLen, Store, Canonical;
    var c, p := |EncodeVar(id)|, Payload(item);
    assert EncodeItem(id, item) + rest == EncodeVar(id) + (p + rest);
    VarRoundTrip(id, p + rest);
    EncodeLength(id);
    VarPositive(id);
    assert from[offset + c..] == from[offset..][c..] == p + rest;
    ItemRoundTrip(id, item, rest);
    assert from[offset + c + |p|..] == from[offset + c..][|p|..] == rest;
    DecodeOne(from, offset, left, m, len, id, c, item, |p|);
  }

  lemma VarPositive(x: nat)
    ensures VarLen(x) > 0
  {
  }

  /** A list of values is read one by one; only identifiers that may repeat can have more than one. */
  lemma {:induction false} ItemsRoundTrip(from: seq<byte>, offset: nat, id: Id, items: seq<Item>, tail: seq<byte>,
      left: u32, m: Map, len: nat)
    requires OnPublish(id) && forall k :: 0 <= k < |items| ==> Canonical(id, items[k])
    requires offset <= |from| && from[offset..] == EncodeItems(id, items) + tail
    requires |EncodeItems(id, items)| <= left
    requires DupAllowed(id) || |items| == 0 || (id !in m && |items| == 1)
    ensures var n := |EncodeItems(id, items)|;
            offset + n <= |from| && from[offset + n..] == tail
            && DecodeAll(from, offset, left, m, len)
                == DecodeAll(from, offset + n, left - n, StoreItems(m, id, items), len + n)
    decreases |items|
  {
    hide DecodeAll, Canonical, EncodeItem, OnPublish;
    if items == [] {
      assert EncodeItems(id, items) == [];
      assert [] + tail == tail;
    } else {
      var item, rest := items[0], EncodeItems(id, items[1..]) + tail;
      assert EncodeItems(id, items) == EncodeItem(id, item) + EncodeItems(id, items[1..]);
      assert from[offset..] == EncodeItem(id, item) + rest;
      OneRoundTrip(from, offset, id, item, rest, left, m, len);
      var n := |EncodeItem(id, item)|;
      ItemsRoundTrip(from, offset + n, id, items[1..], tail, left - n, Store(m, id, item), len + n);
    }
  }

  // ---------------------------------------------------------------- the whole map

  /** An order in which a map can be visited. */
  ghost predicate Visits(m: Map, order: seq<Id>) {
    NoDuplicates(order) && forall id :: id in order <==> id in m
  }

  /** Values that can be read back one by one. */
  predicate Encodable(m: Map) {
    forall id :: id in m ==>
      && OnPublish(id) && (forall k :: 0 <= k < |Items(m[id])| ==> Canonical(id, Items(m[id])[k]))
      && (DupAllowed(id) || |Items(m[id])| <= 1)
  }

  /** The value that reading makes of the items of a property: a list for user properties, else the last one. */
  function Read(id: Id, items: seq<Item>): Value
    requires items != []
  {
    if id == USER_PROPERTY then Many(items) else One(items[|items| - 1])
  }

  function Normalized(m: Map): Map {
    map id | id in m && Items(m[id]) != [] :: Read(id, Items(m[id]))
  }

  lemma {:induction false} StoreMore(m: Map, id: Id, items: seq<Item>)
    requires items != [] && id in m && (id == USER_PROPERTY ==> m[id].Many?)
    ensures StoreItems(m, id, items) == m[id := Read(id, if id == USER_PROPERTY then m[id].items + items else items)]
    decreases |items|
  {
    var n := Store(m, id, items[0]);
    if |items| > 1 {
      StoreMore(n, id, items[1..]);
      assert id == USER_PROPERTY ==> m[id].items + [items[0]] + items[1..] == m[id].items + items;
    } else {
      assert items == [items[0]];
    }
  }

  lemma StoreAllItems(m: Map, id: Id, items: seq<Item>)
    requires items != [] && id !in m
    ensures StoreItems(m, id, items) == m[id := Read(id, items)]
  {
    var n := Store(m, id, items[0]);
    if |items| > 1 {
      StoreMore(n, id, items[1..]);
      assert [] + [items[0]] + items[1..] == items;
    } else {
      assert items == [items[0]] == [] + [items[0]];
    }
  }

  function StoreAll(acc: Map, m: Map, order: seq<Id>): Map
    requires Within(m, order)
    decreases |order|
  {
    if order == [] then acc else StoreAll(StoreItems(acc, order[0], Items(m[order[0]])), m, order[1..])
  }

  lemma {:induction false} StoreAllNormalizes(acc: Map, m: Map, order: seq<Id>)
    requires NoDuplicates(order) && Within(m, order) && forall id :: id in order ==> id !in acc
    ensures var r := StoreAll(acc, m, order);
      && (forall x :: x in r <==> x in acc || (x in order && x in m && Items(m[x]) != []))
      && (forall x :: x in acc ==> r[x] == acc[x])
      && (forall x :: x in order && x in m && Items(m[x]) != [] ==> r[x] == Read(x, Items(m[x])))
    decreases |order|
  {
    hide Read, Items, StoreItems;
    if order != [] {
      var id, items := order[0], Items(m[order[0]]);
      assert id !in order[1..];
      assert forall x :: x in order <==> x == id || x in order[1..];
      var next := StoreItems(acc, id, items);
      if items != [] { StoreAllItems(acc, id, items); } else { StoreNone(acc, id); }
      StoreAllNormalizes(next, m, order[1..]);
    }
  }

  lemma StoreNone(m: Map, id: Id)
    ensures StoreItems(m, id, []) == m
  {
  }

  lemma EncodeAllFirst(m: Map, order: seq<Id>)
    requires Within(m, order) && order != []
    ensures EncodeAll(m, order) == EncodeItems(order[0], Items(m[order[0]])) + EncodeAll(m, order[1..])
  {
  }

  lemma {:induction false} AllRoundTrip(from: seq<byte>, offset: nat, m: Map, order: seq<Id>, tail: seq<byte>,
      acc: Map, len: nat)
    requires Encodable(m) && NoDuplicates(order) && Within(m, order) && forall id :: id in order ==> id !in acc
    requires offset <= |from| && from[offset..] == EncodeAll(m, order) + tail
    requires |EncodeAll(m, order)| < 0x1_0000_0000
    ensures var n := |EncodeAll(m, order)|;
            DecodeAll(from, offset, n, acc, len) == Ok(StoreAll(acc, m, order), len + n, offset + n)
    decreases |order|
  {
    hide DecodeAll, EncodeAll, EncodeItems, Canonical, OnPublish, StoreItems;
    if order == [] {
      NothingLeft(from, offset, acc, len, m);
    } else {
      var id, items := order[0], Items(m[order[0]]);
      var rest := EncodeAll(m, order[1..]);
      EncodeAllFirst(m, order);
      assert EncodeItems(id, items) + (rest + tail) == EncodeAll(m, order) + tail;
      var n := |EncodeItems(id, items)|;
      ItemsRoundTrip(from, offset, id, items, rest + tail, |EncodeAll(m, order)|, acc, len);
      StoreOnly(acc, id, items);
      assert forall x :: x in order[1..] ==> x in order && x != id;
      AllRoundTrip(from, offset + n, m, order[1..], tail, StoreItems(acc, id, items), len + n);
    }
  }

  lemma NothingLeft(from: seq<byte>, offset: nat, acc: Map, len: nat, m: Map)
    requires offset <= |from|
    ensures EncodeAll(m, []) == [] && DecodeAll(from, offset, 0, acc, len) == Ok(acc, len, offset)
  {
  }

  lemma {:induction false} StoreOnly(m: Map, id: Id, items: seq<Item>)
    ensures forall x :: x in StoreItems(m, id, items) ==> x in m || x == id
    decreases |items|
  {
    if items != [] {
      StoreOnly(Store(m, id, items[0]), id, items[1..]);
    }
  }

  // ---------------------------------------------------------------- with the length in front

  function Section(m: Map, order: seq<Id>, len: nat): seq<byte>
    requires Within(m, order)
  {
    EncodeVar(len) + EncodeAll(m, order)
  }

  function DecodeSection(from: seq<byte>): (r: Decoded)
    ensures r.Ok? ==> r.n <= |from|
  {
    match DecodeVar(from, 0, 0)
    case Value(left, c) => DecodeAll(from, c, left, map[], 0)
    case _ => Err(MalformedPacket)
  }

  /** A length above zero means that at least one byte follows it. */
  lemma SectionTakes(from: seq<byte>)
    requires from != [] && from[0] != 0
    ensures DecodeSection(from).Ok? ==> DecodeSection(from).n >= 2
  {
    if from[0] < 0x80 {
      assert DecodeVar(from, 0, 0) == Value(from[0], 1);
    }
  }

  /** Reading undoes writing, in whatever order the map is visited: the properties come back in their normal form,
      and the bytes read are the bytes written. */
  lemma SectionRoundTrip(m: Map, order: seq<Id>, len: nat, tail: seq<byte>)
    requires Encodable(m) && Visits(m, order) && len == |EncodeAll(m, order)| < 0x2000_0000
    ensures DecodeSection(Section(m, order, len) + tail) == Ok(Normalized(m), len, |Section(m, order, len)|)
  {
    hide DecodeVar, EncodeVar, DecodeAll, EncodeAll, Encodable;
    var from := Section(m, order, len) + tail;
    assert from == EncodeVar(len) + (EncodeAll(m, order) + tail);
    VarRoundTrip(len, EncodeAll(m, order) + tail);
    EncodeLength(len);
    assert from[VarLen(len)..] == EncodeAll(m, order) + tail;
    AllRoundTrip(from, VarLen(len), m, order, tail, map[], 0);
    StoreAllNormalizes(map[], m, order);
  }

  /** The values that come back as they were: single values, and non-empty lists of user properties. */
  lemma NormalizedSame(m: Map)
    ensures Normalized(m) == m <==>
            forall id :: id in m ==> (if id == USER_PROPERTY then m[id].Many? && m[id].items != [] else m[id].One?)
  {
  }

  // ---------------------------------------------------------------- the length that Set keeps

  lemma {:induction false} EncodeAllConcat(m: Map, a: seq<Id>, b: seq<Id>)
    requires Within(m, a + b)
    ensures Within(m, a) && Within(m, b) && EncodeAll(m, a + b) == EncodeAll(m, a) + EncodeAll(m, b)
  {
    forall k | 0 <= k < |a| ensures a[k] in m { assert (a + b)[k] == a[k]; }
    forall k | 0 <= k < |b| ensures b[k] in m { assert (a + b)[|a| + k] == b[k]; }
    if a == [] {
      assert a + b == b;
    } else {
      assert (a + b)[1..] == a[1..] + b;
      EncodeAllConcat(m, a[1..], b);
    }
  }

  /** Taking one place out of an order. */
  function Without(b: seq<Id>, k: nat): seq<Id>
    requires k < |b|
  {
    b[..k] + b[k + 1..]
  }

  lemma LengthWithout(m: Map, b: seq<Id>, k: nat)
    requires Within(m, b) && k < |b|
    ensures Within(m, Without(b, k))
    ensures |EncodeAll(m, b)| == |EncodeItems(b[k], Items(m[b[k]]))| + |EncodeAll(m, Without(b, k))|
  {
    hide EncodeAll, EncodeItems, Items;
    assert b == b[..k] + ([b[k]] + b[k + 1..]);
    EncodeAllConcat(m, b[..k], [b[k]] + b[k + 1..]);
    EncodeAllConcat(m, [b[k]], b[k + 1..]);
    EncodeAllOne(m, b[k]);
    EncodeAllConcat(m, b[..k], b[k + 1..]);
  }

  /** Every order in which a map can be visited gives the same length. */
  lemma {:induction false} OrderFree(m: Map, a: seq<Id>, b: seq<Id>)
    requires NoDuplicates(a) && NoDuplicates(b) && Within(m, a) && Within(m, b) && forall id :: id in a <==> id in b
    ensures |EncodeAll(m, a)| == |EncodeAll(m, b)|
    decreases |a|
  {
    hide EncodeAll, EncodeItems, Items, NoDuplicates, Without;
    if a == [] {
      NoneOf(b);
    } else {
      assert a[0] in a;
      var k :| 0 <= k < |b| && b[k] == a[0];
      LengthWithout(m, b, k);
      WithoutFirst(a, b, k);
      EncodeAllFirst(m, a);
      OrderFree(m, a[1..], Without(b, k));
    }
  }

  lemma EncodeAllOne(m: Map, id: Id)
    requires id in m
    ensures EncodeAll(m, [id]) == EncodeItems(id, Items(m[id]))
  {
  }

  lemma WithoutFirst(a: seq<Id>, b: seq<Id>, k: nat)
    requires NoDuplicates(a) && NoDuplicates(b) && a != [] && k < |b| && b[k] == a[0] &&
               forall id :: id in a <==> id in b
    ensures NoDuplicates(Without(b, k)) && NoDuplicates(a[1..]) && forall id :: id in a[1..] <==> id in Without(b, k)
  {
    OthersRemain(b, k);
    assert a[0] !in a[1..];
    assert forall id :: id in a <==> id == a[0] || id in a[1..];
  }

  lemma OthersRemain(b: seq<Id>, k: nat)
    requires NoDuplicates(b) && k < |b|
    ensures NoDuplicates(Without(b, k)) && forall id :: id in Without(b, k) <==> id in b && id != b[k]
  {
  }

  lemma NoneOf(b: seq<Id>)
    ensures b == [] || exists id :: id in b
  {
    if b != [] { assert b[0] in b; }
  }

  /** Setting a new property keeps the announced length exact if the value's own is; setting one again adds its
      length a second time, so the length stays exact only if the old value took no room. */
  lemma SetLength(m: Map, order: seq<Id>, len: nat, id: Id, v: Value, next: seq<Id>)
    requires Visits(m, order) && len == |EncodeAll(m, order)|
    requires CalcLen(id, v) == |EncodeItems(id, Items(v))| && Visits(m[id := v], next)
    ensures len + CalcLen(id, v) == |EncodeAll(m[id := v], next)| <==> id !in m || EncodeItems(id, Items(m[id])) == []
  {
    hide EncodeAll, EncodeItems, CalcLen;
    if id !in m {
      SetNew(m, order, id, v, next);
    } else {
      SetAgain(m, order, id, v, next);
    }
  }

  lemma SetNew(m: Map, order: seq<Id>, id: Id, v: Value, next: seq<Id>)
    requires Visits(m, order) && Visits(m[id := v], next) && id !in m
    ensures |EncodeAll(m[id := v], next)| == |EncodeAll(m, order)| + |EncodeItems(id, Items(v))|
  {
    hide EncodeAll, EncodeItems;
    var n := m[id := v];
    assert forall k :: 0 <= k < |order| ==> order[k] in order;
    Unset(m, n, order, id);
    OrderFree(n, next, order + [id]);
    EncodeAllConcat(n, order, [id]);
    EncodeAllOne(n, id);
  }

  lemma SetAgain(m: Map, order: seq<Id>, id: Id, v: Value, next: seq<Id>)
    requires Visits(m, order) && Visits(m[id := v], next) && id in m
    ensures |EncodeAll(m[id := v], next)| + |EncodeItems(id, Items(m[id]))|
              == |EncodeAll(m, order)| + |EncodeItems(id, Items(v))|
  {
    hide EncodeAll, EncodeItems, Items, Without, NoDuplicates;
    var n := m[id := v];
    assert id in order;
    var k :| 0 <= k < |order| && order[k] == id;
    LengthWithout(m, order, k);
    LengthWithout(n, order, k);
    OthersRemain(order, k);
    Unset(m, n, Without(order, k), id);
    SameKeys(m, order, n, next);
    OrderFree(n, next, order);
  }

  lemma SameKeys(m: Map, a: seq<Id>, n: Map, b: seq<Id>)
    requires Visits(m, a) && Visits(n, b) && m.Keys == n.Keys
    ensures Within(n, a) && Within(n, b) && forall id :: id in b <==> id in a
  {
  }

  lemma {:induction false} Unset(m: Map, n: Map, order: seq<Id>, id: Id)
    requires id !in order && Within(m, order) && forall x :: x in m && x != id ==> x in n && n[x] == m[x]
    ensures Within(n, order) && EncodeAll(n, order) == EncodeAll(m, order)
  {
    if order != [] {
      assert order[0] in order;
      assert forall x :: x in order[1..] ==> x in order;
      Unset(m, n, order[1..], id);
    }
  }
}
