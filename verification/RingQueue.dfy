/** The resizing ring buffer that holds waiting packets (`queue.go`). */
module RingQueue {

  const MIN_LENGTH: nat := 16

  /** A value, or nil. */
  datatype Any<+T> = Nil | Some(value: T)

  // ---------------------------------------------------------------- masks

  /** The bitwise conjunction. */
  function And(a: nat, b: nat): nat {
    if a == 0 || b == 0 then 0 else a % 2 * (b % 2) + 2 * And(a / 2, b / 2)
  }

  predicate PowerOfTwo(n: nat) {
    n == 1 || (n > 1 && n % 2 == 0 && PowerOfTwo(n / 2))
  }

  lemma Half(n: nat) returns (m: nat)
    requires PowerOfTwo(n) && n > 1
    ensures n == 2 * m && PowerOfTwo(m)
  {
    m := n / 2;
  }

  lemma Double(n: nat)
    requires PowerOfTwo(n)
    ensures PowerOfTwo(2 * n)
  {
  }

  lemma AndStep(x: nat, m: nat)
    requires m > 0
    ensures And(x, 2 * m - 1) == x % 2 + 2 * And(x / 2, m - 1)
  {
  }

  /** A mask of ones keeps a number that fits and drops one turn of any other. */
  lemma {:induction false} MaskDrops(x: nat, n: nat)
    requires PowerOfTwo(n)
    ensures And(x, n - 1) == if x < n then x else And(x - n, n - 1)
    decreases n
  {
    if n > 1 {
      hide And;
      var m := Half(n);
      AndStep(x, m);
      MaskDrops(x / 2, m);
      if x >= n {
        AndStep(x - n, m);
        assert (x - 2 * m) / 2 == x / 2 - m;
      }
    }
  }

  lemma DropTurn(x: nat, n: nat)
    requires n <= x && 0 < n
    ensures x % n == (x - n) % n
  {
    var q, r := (x - n) / n, (x - n) % n;
    assert x - n == n * q + r;
    assert n * (q + 1) == n * q + n;
    Unique(n, q + 1, r, x / n, x % n);
  }

  lemma Positive(n: nat)
    requires PowerOfTwo(n)
    ensures n > 0
  {
  }

  lemma Small(x: nat, n: nat)
    requires x < n
    ensures x % n == x
  {
  }

  lemma Unique(n: nat, a: int, r: nat, b: int, s: nat)
    requires n * a + r == n * b + s && r < n && s < n
    ensures r == s
  {
    if a < b { AtLeast(n, b - a); }
    if a > b { AtLeast(n, a - b); }
    assert n * (b - a) == n * b - n * a && n * (a - b) == n * a - n * b;
  }

  lemma AtLeast(n: nat, k: int)
    requires k >= 1
    ensures n * k >= n
  {
  }

  /** Masking with one less than a power of two is the remainder. */
  lemma {:induction false} MaskIsModulus(x: nat, n: nat)
    requires PowerOfTwo(n)
    ensures And(x, n - 1) == x % n
  {
    hide And, PowerOfTwo;
    MaskDrops(x, n);
    Positive(n);
    if x >= n {
      DropTurn(x, n);
      MaskIsModulus(x - n, n);
    } else {
      Small(x, n);
    }
  }

  /** An index at most one turn beyond the end wraps to the front. */
  lemma Wrap(x: nat, n: nat)
    requires PowerOfTwo(n) && x < 2 * n
    ensures And(x, n - 1) == if x < n then x else x - n
  {
    hide And, PowerOfTwo;
    MaskDrops(x, n);
    if x >= n {
      MaskDrops(x - n, n);
    }
  }

  // ---------------------------------------------------------------- contents

  /** The occupied slots, from the head on, around the end. */
  function Slots<T>(b: seq<T>, head: nat, count: nat): (r: seq<T>)
    requires head < |b| && count <= |b|
    ensures |r| == count
  {
    if head + count <= |b| then b[head..head + count] else b[head..] + b[..head + count - |b|]
  }

  /** What copying is paid for in advance: two for every element above half of the buffer, one for every free
      place below half. */
  function Reserve(count: nat, length: nat): nat
    requires count <= length
  {
    if 2 * count >= length then 2 * count - length
    else if length == MIN_LENGTH then 0
    else length / 2 - count
  }

  function Index(head: nat, i: nat, length: nat): nat {
    if head + i < length then head + i else head + i - length
  }

  lemma SlotAt<T>(b: seq<T>, head: nat, count: nat, i: nat)
    requires head < |b| && count <= |b| && i < count
    ensures Index(head, i, |b|) < |b| && Slots(b, head, count)[i] == b[Index(head, i, |b|)]
  {
  }

  lemma SlotsPut<T>(b: seq<T>, head: nat, count: nat, x: T)
    requires head < |b| && count < |b|
    ensures Slots(b[Index(head, count, |b|) := x], head, count + 1) == Slots(b, head, count) + [x]
  {
  }

  lemma SlotsTake<T>(b: seq<T>, head: nat, count: nat, x: T)
    requires head < |b| && 0 < count <= |b|
    ensures Slots(b[head := x], Index(head, 1, |b|), count - 1) == Slots(b, head, count)[1..]
  {
    var c := b[head := x];
    if head + count <= |b| {
      assert c[head + 1..head + count] == b[head..head + count][1..];
    } else {
      assert c[head + 1..] == b[head..][1..];
      assert c[..head + count - |b|] == b[..head + count - |b|];
    }
  }

  lemma ReserveStep(count: nat, length: nat)
    requires count < length && length % 2 == 0
    ensures Reserve(count + 1, length) <= Reserve(count, length) + 2
    ensures Reserve(count, length) <= Reserve(count + 1, length) + 2
  {
  }

  lemma EvenLength(n: nat)
    requires PowerOfTwo(n) && n >= MIN_LENGTH
    ensures n % 2 == 0
  {
  }

  class Queue<T> {
    var buf: array<Any<T>>
    var head: nat
    var tail: nat
    var count: nat
    ghost var contents: seq<Any<T>>
    /** Calls of Add and Remove so far, and elements copied by all resizes. */
    ghost var calls: nat
    ghost var copied: nat

    ghost predicate Shape()
      reads this
    {
      && MIN_LENGTH <= buf.Length && PowerOfTwo(buf.Length)
      && head < buf.Length && count <= buf.Length
      && tail == Index(head, count, buf.Length)
    }

    ghost predicate Valid()
      reads this, buf
    {
      Shape() && contents == Slots(buf[..], head, count) && copied + Reserve(count, buf.Length) <= 2 * calls
    }

    constructor ()
      ensures Valid() && fresh(buf) && contents == [] && calls == 0 && copied == 0
    {
      buf := new Any<T>[MIN_LENGTH](_ => Nil);
      head, tail, count := 0, 0, 0;
      contents, calls, copied := [], 0, 0;
    }

    /** Moves the contents to the front of a buffer twice their size. */
    method Resize()
      requires Shape() && contents == Slots(buf[..], head, count)
      requires MIN_LENGTH <= 2 * count && PowerOfTwo(2 * count)
      modifies this`buf, this`head, this`tail, this`copied
      ensures Shape() && contents == Slots(buf[..], head, count)
      ensures fresh(buf) && buf.Length == 2 * count && copied == old(copied) + count
    {
      var newBuf := new Any<T>[2 * count](_ => Nil);
      if tail > head {
        forall k | head <= k < tail { newBuf[k - head] := buf[k]; }
      } else {
        var n := buf.Length - head;
        forall k | head <= k < buf.Length { newBuf[k - head] := buf[k]; }
        forall k | 0 <= k < tail { newBuf[n + k] := buf[k]; }
      }
      assert newBuf[..count] == contents;
      copied := copied + count;
      head, tail := 0, count;
      buf := newBuf;
    }

    method Add(elem: Any<T>)
      requires Valid()
      modifies this, buf
      ensures Valid() && (fresh(buf) || buf == old(buf))
      ensures contents == old(contents) + [elem] && calls == old(calls) + 1
    {
      hide PowerOfTwo, And, Slots, Reserve;
      if count == buf.Length {
        Double(count);
        FullReserve(count);
        Resize();
      }
      ghost var before := buf[..];
      buf[tail] := elem;
      assert buf[..] == before[tail := elem];
      SlotsPut(before, head, count, elem);
      EvenLength(buf.Length);
      ReserveStep(count, buf.Length);
      Wrap(tail + 1, buf.Length);
      tail := And(tail + 1, buf.Length - 1);
      count := count + 1;
      contents, calls := contents + [elem], calls + 1;
    }

    method Peek() returns (r: Any<T>)
      requires Valid()
      ensures r == if contents == [] then Nil else contents[0]
    {
      if count == 0 {
        return Nil;
      }
      r := buf[head];
    }

    /** Index 0 is the first element and index -1 the last; false stands for the panic. */
    method Get(i: int) returns (ok: bool, r: Any<T>)
      requires Valid()
      ensures ok <==> -|contents| <= i < |contents|
      ensures ok ==> r == contents[if i < 0 then |contents| + i else i]
    {
      var i := i;
      if i < 0 {
        i := i + count;
      }
      if i < 0 || i >= count {
        return false, Nil;
      }
      Wrap(head + i, buf.Length);
      return true, buf[And(head + i, buf.Length - 1)];
    }

    method Remove() returns (r: Any<T>)
      requires Valid()
      modifies this, buf
      ensures Valid() && (fresh(buf) || buf == old(buf)) && calls == old(calls) + 1
      ensures r == if old(contents) == [] then Nil else old(contents)[0]
      ensures contents == if old(contents) == [] then [] else old(contents)[1..]
    {
      hide PowerOfTwo, And, Slots, Reserve;
      calls := calls + 1;
      if count == 0 {
        return Nil;
      }
      SlotAt(buf[..], head, count, 0);
      r := buf[head];
      ghost var before := buf[..];
      buf[head] := Nil;
      assert buf[..] == before[head := Nil];
      SlotsTake(before, head, count, Nil);
      EvenLength(buf.Length);
      ReserveStep(count - 1, buf.Length);
      Wrap(head + 1, buf.Length);
      head := And(head + 1, buf.Length - 1);
      count := count - 1;
      contents := contents[1..];
      if buf.Length > MIN_LENGTH && 4 * count == buf.Length {
        AboveMinimum(buf.Length, count);
        QuarterReserve(count);
        Resize();
      }
    }
  }

  /** A resize is paid for: what it copies has been set aside. */
  lemma FullReserve(count: nat)
    ensures Reserve(count, count) == count && Reserve(count, 2 * count) == 0
  {
  }

  lemma QuarterReserve(count: nat)
    requires 4 * count > MIN_LENGTH
    ensures Reserve(count, 4 * count) == count && Reserve(count, 2 * count) == 0
  {
  }

  lemma AboveMinimum(n: nat, count: nat)
    requires PowerOfTwo(n) && n > MIN_LENGTH && n == 4 * count
    ensures PowerOfTwo(2 * count) && MIN_LENGTH <= 2 * count
  {
    hide PowerOfTwo;
    var a := Half(n);
    var b := Half(a);
    var c := Half(b);
    var d := Half(c);
    var e := Half(d);
  }

  // ---------------------------------------------------------------- whole runs

  datatype Call<+T> = Add(elem: Any<T>) | Remove | Peek | Get(i: int)

  datatype Reply<+T> = Done | Element(elem: Any<T>) | Panic

  /** The same calls on a sequence. */
  function ReplyOf<T>(c: Call<T>, s: seq<Any<T>>): Reply<T> {
    match c
    case Add(_) => Done
    case Remove => Element(if s == [] then Nil else s[0])
    case Peek => Element(if s == [] then Nil else s[0])
    case Get(i) => if -|s| <= i < |s| then Element(s[if i < 0 then |s| + i else i]) else Panic
  }

  function After<T>(c: Call<T>, s: seq<Any<T>>): seq<Any<T>> {
    match c
    case Add(x) => s + [x]
    case Remove => if s == [] then [] else s[1..]
    case _ => s
  }

  function Replies<T>(calls: seq<Call<T>>, s: seq<Any<T>>): seq<Reply<T>> {
    if calls == [] then [] else [ReplyOf(calls[0], s)] + Replies(calls[1..], After(calls[0], s))
  }

  function Changes<T>(c: Call<T>): nat { if c.Add? || c.Remove? then 1 else 0 }

  /** How many of the calls are Add or Remove. */
  function Changing<T>(calls: seq<Call<T>>): nat {
    if calls == [] then 0 else Changes(calls[0]) + Changing(calls[1..])
  }

  method Perform<T>(q: Queue<T>, c: Call<T>) returns (reply: Reply<T>)
    requires q.Valid()
    modifies q, q.buf
    ensures q.Valid() && (fresh(q.buf) || q.buf == old(q.buf)) && q.calls == old(q.calls) + Changes(c)
    ensures reply == ReplyOf(c, old(q.contents)) && q.contents == After(c, old(q.contents))
  {
    reply := Done;
    match c {
      case Add(x) =>
        q.Add(x);
      case Remove =>
        var x := q.Remove();
        reply := Element(x);
      case Peek =>
        var x := q.Peek();
        reply := Element(x);
      case Get(i) =>
        var ok, x := q.Get(i);
        reply := if ok then Element(x) else Panic;
    }
  }

  /** On every run the queue answers as a sequence does, and its resizes together copy at most two elements for
      every Add and Remove. */
  method Run<T>(calls: seq<Call<T>>) returns (replies: seq<Reply<T>>, ghost copied: nat)
    ensures replies == Replies(calls, [])
    ensures copied <= 2 * Changing(calls)
  {
    hide ReplyOf, After, PowerOfTwo, Slots, Reserve;
    var q := new Queue<T>();
    replies := [];
    for k := 0 to |calls|
      invariant q.Valid() && fresh(q) && fresh(q.buf)
      invariant Replies(calls, []) == replies + Replies(calls[k..], q.contents)
      invariant q.calls + Changing(calls[k..]) == Changing(calls)
    {
      assert calls[k..][1..] == calls[k + 1..];
      var reply := Perform(q, calls[k]);
      replies := replies + [reply];
    }
    copied := q.copied;
  }
}
