/** Packet identifiers and the send quota of `flowControl.go`. */
module FlowControl {

  const MAX_ID: nat := 0xFFFF
  const WORD: nat := 0x1_0000_0000

  /** Low 16 bits of the 32-bit counter. */
  function IdOf(counter: nat): nat { counter % 0x10000 }

  /** The counter after one attempt: zero is skipped. */
  function Advance(counter: nat): (r: nat)
    requires counter < WORD
    ensures r < WORD && 1 <= IdOf(r) <= MAX_ID
    ensures IdOf(r) == if IdOf(counter) == MAX_ID then 1 else IdOf(counter) + 1
  {
    var next := (counter + 1) % WORD;
    if IdOf(next) == 0 then (next + 1) % WORD else next
  }

  /** How many attempts lead from a counter to an identifier. */
  function Distance(counter: nat, id: nat): nat
    requires 1 <= id <= MAX_ID
  {
    if id > IdOf(counter) then id - IdOf(counter) else MAX_ID - IdOf(counter) + id
  }

  lemma DistanceBound(counter: nat)
    ensures forall id :: IsId(id) ==> 1 <= Distance(counter, id) <= MAX_ID
  {
  }

  lemma DistanceStep(counter: nat)
    requires counter < WORD
    ensures Distance(counter, IdOf(Advance(counter))) == 1
    ensures forall g :: IsId(g) && g != IdOf(Advance(counter)) ==>
              Distance(counter, g) == Distance(Advance(counter), g) + 1 && 1 <= Distance(Advance(counter), g)
  {
  }

  predicate IsId(id: nat) { 1 <= id <= MAX_ID }

  /** The first identifier after the counter, in cyclic order, that is not in use. */
  ghost predicate FirstFree(counter: nat, inUse: set<nat>, id: nat) {
    && IsId(id) && id !in inUse
    && forall g :: IsId(g) && g !in inUse ==> Distance(counter, id) <= Distance(counter, g)
  }

  function Ids(n: nat): (r: set<nat>)
    ensures |r| == n
    ensures forall k :: k in r <==> 1 <= k <= n
  {
    if n == 0 then {} else Ids(n - 1) + {n}
  }

  /** Fewer identifiers in use than there are leaves one free. */
  lemma SomeFree(inUse: set<nat>) returns (id: nat)
    requires |inUse| < MAX_ID && forall k :: k in inUse ==> IsId(k)
    ensures IsId(id) && id !in inUse
  {
    var all := Ids(MAX_ID);
    if all <= inUse {
      Subset(all, inUse);
      assert false;
    }
    id :| id in all && id !in inUse;
  }

  lemma {:induction false} Subset<T>(a: set<T>, b: set<T>)
    requires a <= b
    ensures |a| <= |b|
  {
    if a != {} {
      var x :| x in a;
      Subset(a - {x}, b - {x});
    }
  }

  lemma FirstFreeUnique(counter: nat, inUse: set<nat>, a: nat, b: nat)
    requires FirstFree(counter, inUse, a) && FirstFree(counter, inUse, b)
    ensures a == b
  {
  }

  /** The identifier after the counter comes first, when it is free. */
  lemma NextFirst(counter: nat, inUse: set<nat>, id: nat)
    requires counter < WORD && FirstFree(counter, inUse, id)
    ensures var n := counter % 0x1_0000;
            var next := if n == 65535 then 1 else n + 1;
            next !in inUse ==> id == next
  {
    DistanceStep(counter);
    DistanceBound(counter);
  }

  lemma Advanced(counter: nat)
    requires counter < WORD
    ensures var c := (counter + 1) % WORD; Advance(counter) == if IdOf(c) == 0 then (c + 1) % WORD else c
    ensures IsId(IdOf(Advance(counter)))
  {
  }

  /** The first free identifier that the search meets is the first in cyclic order. */
  lemma Found(start: nat, counter: nat, count: nat, inUse: set<nat>, id: nat)
    requires counter < WORD && id == IdOf(Advance(counter)) && IsId(id) && id !in inUse
    requires forall g :: IsId(g) && g !in inUse ==>
               1 <= Distance(counter, g) && Distance(start, g) == Distance(counter, g) + count
    ensures FirstFree(start, inUse, id)
  {
    hide Distance, Advance;
    DistanceStep(counter);
  }

  datatype Acquired = Acquired(id: nat) | QuotaExceeded

  class Flow {
    var inUse: set<nat>
    var counter: nat
    var quota: int

    ghost predicate Valid()
      reads this
    {
      counter < WORD && forall k :: k in inUse ==> IsId(k)
    }

    constructor (quota: int)
      ensures Valid() && inUse == {} && counter == 0 && this.quota == quota
    {
      inUse, counter, this.quota := {}, 0, quota;
    }

    /** Takes one unit of quota and the first free identifier.  The bounded search finds one exactly when
        fewer than all identifiers are in use; otherwise it comes back to one that is taken. */
    method Acquire() returns (r: Acquired)
      requires Valid()
      modifies this
      ensures Valid()
      ensures r.QuotaExceeded? <==> old(quota) == 0
      ensures r.QuotaExceeded? ==> quota == old(quota) && inUse == old(inUse) && counter == old(counter)
      ensures r.Acquired? ==>
              && quota == old(quota) - 1 && inUse == old(inUse) + {r.id} && IdOf(counter) == r.id
              && (r.id !in old(inUse) <==> |old(inUse)| < MAX_ID)
              && (|old(inUse)| < MAX_ID ==> FirstFree(old(counter), old(inUse), r.id))
      ensures r.Acquired? ==> 1 <= r.id <= 65535
    {
      hide Distance, FirstFree, Advance;
      if quota == 0 {
        return QuotaExceeded;
      }
      quota := quota - 1;
      ghost var was := inUse;
      DistanceBound(counter);
      if |was| < MAX_ID {
        ghost var free := SomeFree(was);
      } else {
        AllTaken(was);
      }
      var id := 0;
      var count := 0;
      while count <= 0xFFFF
        invariant 0 <= count <= 0x10000 && counter < WORD && inUse == old(inUse) && quota == old(quota) - 1
        invariant count > 0 ==> IsId(id) && id == IdOf(counter) && id in inUse
        invariant forall g :: IsId(g) && g !in inUse ==>
                    1 <= Distance(counter, g) && Distance(old(counter), g) == Distance(counter, g) + count
        invariant |was| < MAX_ID ==> count < MAX_ID
        decreases 0x10000 - count
      {
        ghost var before := counter;
        counter := (counter + 1) % WORD;
        id := IdOf(counter);
        if id == 0 {
          counter := (counter + 1) % WORD;
          id := IdOf(counter);
        }
        Advanced(before);
        assert counter == Advance(before);
        DistanceStep(before);
        if id !in inUse {
          Found(old(counter), before, count, was, id);
          inUse := inUse + {id};
          break;
        }
        count := count + 1;
      }
      assert inUse == was + {id};
      r := Acquired(id);
    }

    /** Returns an identifier; true when this makes the quota available again. */
    method Release(id: nat) returns (available: bool)
      requires Valid()
      modifies this
      ensures Valid() && inUse == old(inUse) - {id} && quota == old(quota) + 1 && counter == old(counter)
      ensures available <==> old(quota) == 0
    {
      inUse := inUse - {id};
      quota := quota + 1;
      available := quota == 1;
    }

    method QuotaAvailable() returns (b: bool)
      ensures b <==> quota > 0
    {
      b := quota > 0;
    }
  }

  lemma AllTaken(inUse: set<nat>)
    requires |inUse| >= MAX_ID && forall k :: k in inUse ==> IsId(k)
    ensures forall k :: IsId(k) ==> k in inUse
  {
    hide Ids;
    forall k | IsId(k) ensures k in inUse {
      if k !in inUse {
        Subset(inUse + {k}, Ids(MAX_ID));
        assert false;
      }
    }
  }
}
