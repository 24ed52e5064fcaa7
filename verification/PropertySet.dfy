/** The property set of a PUBLISH packet, changed in place (`property.go`). */
module PropertySet {
  import opened Options
  import opened Bytes
  import opened Varint
  import opened Sequences
  import opened Properties

  function FullLength(len: nat): nat { len + VarLen(len % 0x1_0000_0000) }

  datatype SetResult = Set | InvalidID | PacketTypeMismatch

  class Property {
    var properties: Map
    var len: nat

    constructor ()
      ensures properties == map[] && len == 0
    {
      properties, len := map[], 0;
    }

    /** The length and what a 32-bit prefix for it takes. */
    method FullLen() returns (n: nat)
      ensures n == FullLength(len)
    {
      var p := UvarintCalc(len % 0x1_0000_0000);
      n := len + p;
    }

    /** A value whose type does not belong to its identifier is taken as well, and makes encoding panic later. */
    method SetValue(id: Id, val: Value) returns (r: SetResult)
      modifies this
      ensures r == if OnPublish(id) then Set else if Elsewhere(id) then PacketTypeMismatch else InvalidID
      ensures r == Set ==> properties == old(properties)[id := val] && len == old(len) + CalcLen(id, val)
      ensures r != Set ==> properties == old(properties) && len == old(len)
    {
      if !OnPublish(id) {
        return if Elsewhere(id) then PacketTypeMismatch else InvalidID;
      }
      len := len + CalcLen(id, val);
      properties := properties[id := val];
      r := Set;
    }

    /** Writes the section.  With nothing to write it counts one byte but leaves it as it was. */
    method Encode(to: array<byte>, off: nat, order: seq<Id>) returns (ok: bool, n: nat)
      requires off <= to.Length && Visits(properties, order) && AllTyped(properties)
      requires 0 < len && off + FullLength(len) <= to.Length ==> off + |Section(properties, order, len)| <= to.Length
      modifies to
      ensures ok <==> off + FullLength(len) <= to.Length
      ensures ok && len > 0 ==> n == |Section(properties, order, len)| && off + n <= to.Length
                                && to[off..off + n] == Section(properties, order, len)
      ensures ok && len == 0 ==> n == 1 && off < to.Length && to[off] == old(to[off])
      ensures forall k :: 0 <= k < to.Length && !(ok && off <= k < off + n) ==> to[k] == old(to[k])
    {
      hide EncodeAll, EncodeVar, VarLen, AllTyped, NoDuplicates;
      var pLen := FullLen();
      VarLenFacts(len % 0x1_0000_0000);
      if pLen > to.Length - off {
        return false, 0;
      }
      if pLen == 1 {
        return true, 1;
      }
      EncodeLength(len);
      n := PutUvarint(to, off, len);
      ghost var was := to[..];
      var m := EncodeValues(to, off + n, order);
      Appended(was, to[..], off, n, m);
      return true, n + m;
    }

    method EncodeValues(to: array<byte>, off: nat, order: seq<Id>) returns (n: nat)
      requires Within(properties, order) && off + |EncodeAll(properties, order)| <= to.Length
      modifies to
      ensures n == |EncodeAll(properties, order)| && to[off..off + n] == EncodeAll(properties, order)
      ensures forall k :: 0 <= k < to.Length && !(off <= k < off + n) ==> to[k] == old(to[k])
    {
      hide EncodeAll, EncodeItems, Items;
      n := 0;
      EncodeAllUpTo(properties, order);
      for k := 0 to |order|
        invariant n == |EncodeAll(properties, order[..k])| && off + n <= to.Length
        invariant to[off..off + n] == EncodeAll(properties, order[..k])
        invariant forall j :: 0 <= j < to.Length && !(off <= j < off + n) ==> to[j] == old(to[j])
      {
        EncodeAllNext(properties, order, k);
        ghost var was := to[..];
        var m := EncodeValue(to, off + n, order[k], properties[order[k]]);
        Appended(was, to[..], off, n, m);
        n := n + m;
      }
    }

    method EncodeValue(to: array<byte>, off: nat, id: Id, val: Value) returns (n: nat)
      requires off + |EncodeItems(id, Items(val))| <= to.Length
      modifies to
      ensures n == |EncodeItems(id, Items(val))| && to[off..off + n] == EncodeItems(id, Items(val))
      ensures forall k :: 0 <= k < to.Length && !(off <= k < off + n) ==> to[k] == old(to[k])
    {
      hide EncodeItem, Flatten, EncodeItems;
      var items := Items(val);
      n := 0;
      EncodeNoItems(id);
      assert items[0..] == items;
      assert to[off..off] + EncodeItems(id, items) == EncodeItems(id, items);
      for k := 0 to |items|
        invariant n + |EncodeItems(id, items[k..])| == |EncodeItems(id, items)|
        invariant EncodeItems(id, items) == to[off..off + n] + EncodeItems(id, items[k..])
        invariant forall j :: 0 <= j < to.Length && !(off <= j < off + n) ==> to[j] == old(to[j])
      {
        EncodeFirstItem(id, items[k..]);
        assert items[k..][1..] == items[k + 1..];
        ghost var was := to[..];
        Assoc(was[off..off + n], EncodeItem(id, items[k]), EncodeItems(id, items[k + 1..]));
        var m := EncodeOne(to, off + n, id, items[k]);
        Appended(was, to[..], off, n, m);
        n := n + m;
      }
      assert items[|items|..] == [];
      assert to[off..off + n] + [] == to[off..off + n];
    }

    /** One identifier and its value; a string that is too long is left out without a word. */
    method EncodeOne(to: array<byte>, off: nat, id: Id, item: Item) returns (n: nat)
      requires off + |EncodeItem(id, item)| <= to.Length
      modifies to
      ensures n == |EncodeItem(id, item)| && to[off..off + n] == EncodeItem(id, item)
      ensures forall k :: 0 <= k < to.Length && !(off <= k < off + n) ==> to[k] == old(to[k])
    {
      hide EncodeVar, VarLen, Prefixed;
      EncodeLength(id);
      n := PutUvarint(to, off, id);
      ghost var was := to[..];
      var m := EncodePayload(to, off + n, item);
      Appended(was, to[..], off, n, m);
      n := n + m;
    }

    method EncodePayload(to: array<byte>, off: nat, item: Item) returns (n: nat)
      requires off + |Payload(item)| <= to.Length
      modifies to
      ensures n == |Payload(item)| && to[off..off + n] == Payload(item)
      ensures forall k :: 0 <= k < to.Length && !(off <= k < off + n) ==> to[k] == old(to[k])
    {
      hide EncodeVar, VarLen, Be16, Be32, Prefixed;
      match item {
        case Byte(b) =>
          to[off] := b;
          n := 1;
        case Short(h) =>
          n := PutBytes(to, off, Be16(h));
        case Int(v) =>
          n := PutBytes(to, off, Be32(v));
        case VarInt(v) =>
          EncodeLength(v);
          n := PutUvarint(to, off, v);
        case Str(s) =>
          n := EncodeString(to, off, s);
        case Bin(s) =>
          n := EncodeString(to, off, s);
        case Pair(k, v) =>
          n := EncodePair(to, off, k, v);
      }
    }

    method EncodePair(to: array<byte>, off: nat, k: seq<byte>, v: seq<byte>) returns (n: nat)
      requires off + |Prefixed(k) + Prefixed(v)| <= to.Length
      modifies to
      ensures n == |Prefixed(k) + Prefixed(v)| && to[off..off + n] == Prefixed(k) + Prefixed(v)
      ensures forall k :: 0 <= k < to.Length && !(off <= k < off + n) ==> to[k] == old(to[k])
    {
      hide Prefixed;
      n := EncodeString(to, off, k);
      ghost var was := to[..];
      var m := EncodeString(to, off + n, v);
      Appended(was, to[..], off, n, m);
      n := n + m;
    }

    /** The error of a string that is too long is dropped. */
    method EncodeString(to: array<byte>, off: nat, s: seq<byte>) returns (n: nat)
      requires off + |Prefixed(s)| <= to.Length
      modifies to
      ensures n == |Prefixed(s)| && to[off..off + n] == Prefixed(s)
      ensures forall k :: 0 <= k < to.Length && !(off <= k < off + n) ==> to[k] == old(to[k])
    {
      var err;
      n, err := WriteLPBytes(to, off, s);
    }

    /** Reads the section into an empty set. */
    method Decode(from: seq<byte>) returns (n: nat, err: Option<Error>)
      requires properties == map[] && len == 0
      modifies this
      ensures match DecodeSection(from)
              case Ok(m, l, c) => err == None && n == c && properties == m && len == l
              case Err(e) => err == Some(e)
    {
      hide DecodeVar, DecodeItem, OnPublish, Store, DupAllowed;
      n := 0;
      var pLen: u32, lCount: int := Uvarint(from);
      if lCount <= 0 {
        return 0, Some(MalformedPacket);
      }
      n := lCount;
      while pLen != 0
        invariant n <= |from|
        invariant DecodeSection(from) == DecodeAll(from, n, pLen, properties, len)
        decreases |from| - n
      {
        var idVal, count := Uvarint(from[n..]);
        if count <= 0 {
          return n, Some(MalformedPacket);
        }
        if !OnPublish(idVal) {
          return n, Some(MalformedPacket);
        }
        if idVal in properties && !DupAllowed(idVal) {
          return n, Some(ProtocolError);
        }
        assert from[n..][count..] == from[n + count..];
        var item := DecodeItem(idVal, from[n + count..]);
        if item.None? {
          return n, Some(MalformedPacket);
        }
        properties := Store(properties, idVal, item.value.0);
        count := count + item.value.1;
        n := n + count;
        len := len + count;
        pLen := (pLen - count) % 0x1_0000_0000;
      }
      err := None;
    }
  }

  lemma EncodeAllNext(m: Map, order: seq<Id>, k: nat)
    requires Within(m, order) && k < |order|
    ensures EncodeAll(m, order[..k + 1]) == EncodeAll(m, order[..k]) + EncodeItems(order[k], Items(m[order[k]]))
    ensures |EncodeAll(m, order[..k + 1])| <= |EncodeAll(m, order)|
  {
    hide EncodeAll;
    assert order[..k + 1] == order[..k] + [order[k]] && order == order[..k + 1] + order[k + 1..];
    EncodeAllConcat(m, order[..k], [order[k]]);
    EncodeAllOne(m, order[k]);
    EncodeAllConcat(m, order[..k + 1], order[k + 1..]);
  }

  lemma EncodeAllUpTo(m: Map, order: seq<Id>)
    requires Within(m, order)
    ensures EncodeAll(m, order[..0]) == [] && order[..|order|] == order
  {
  }

  lemma VarLenFacts(x: nat)
    ensures VarLen(x) >= 1 && (x + VarLen(x) == 1 <==> x == 0)
  {
  }

  lemma EncodeNoItems(id: Id)
    ensures EncodeItems(id, []) == []
  {
  }

  lemma EncodeFirstItem(id: Id, items: seq<Item>)
    requires items != []
    ensures EncodeItems(id, items) == EncodeItem(id, items[0]) + EncodeItems(id, items[1..])
  {
  }
}
